/** The table preparation at the start of `main`: every text column has its
    cells stripped of surrounding whitespace, then a cleaned numeric copy
    `<name>_cleaned` is added for each listed price or coordinate column,
    with a warning for each listed column the table does not have. */
module TablePrep {
  import opened Wrappers
  import opened Cleaning
  import opened Seqs

  /** The columns `main` cleans, in the order it cleans them. */
  const CleanColumns: seq<string> := [
    "Latitude", "Longitude", "BasicServicesFee",
    "DirectCremationLowestPrice", "DirectCremation_Pct_Change",
    "ImmediateBurialLowestPrice"
  ]

  /** A table as pandas holds it: the column names in order, the columns by
      name, and the number of rows every column has. */
  datatype Table = Table(names: seq<string>, cols: map<string, Column>, height: nat)

  predicate WellFormed(t: Table)
  {
    Distinct(t.names)
    && (forall n :: n in t.names ==> n in t.cols)
    && (forall n :: n in t.cols ==> n in t.names)
    && (forall n :: n in t.cols ==> t.cols[n].Length() == t.height)
  }

  /** `str.strip()` on one cell: a missing cell stays missing. */
  function StripCell(cell: Option<string>): (r: Option<string>)
    ensures r.None? <==> cell.None?
    ensures cell.Some? ==> r.value == Strip(cell.value)
  {
    match cell
    case None => None
    case Some(s) => Some(Strip(s))
  }

  /** `df[col].str.strip()` for a text column; other columns are not
      selected by `select_dtypes(include=['object'])` and stay as they are. */
  function StripColumn(c: Column): (r: Column)
    ensures r.Length() == c.Length()
    ensures r.NumCol? <==> c.NumCol?
    ensures c.NumCol? ==> r == c
    ensures c.TextCol? ==> forall k :: 0 <= k < |c.texts| ==> r.texts[k] == StripCell(c.texts[k])
  {
    match c
    case NumCol(_) => c
    case TextCol(texts) => TextCol(seq(|texts|, k requires 0 <= k < |texts| => StripCell(texts[k])))
  }

  /** The table after the whitespace loop. */
  function StripTable(t: Table): (r: Table)
    ensures r.names == t.names && r.height == t.height
    ensures WellFormed(t) ==> WellFormed(r)
  {
    Table(t.names, map n | n in t.cols :: StripColumn(t.cols[n]), t.height)
  }

  /** `df[name] = col`: an existing column is replaced where it stands, a
      new one is added after the others. */
  function WithColumn(t: Table, name: string, col: Column): Table
  {
    Table(if name in t.cols then t.names else t.names + [name], t.cols[name := col], t.height)
  }

  function CleanedName(c: string): string
  {
    c + "_cleaned"
  }

  function Warning(c: string): string
  {
    "Warning: Column '" + c + "' not found in the CSV file."
  }

  /** What the cleaning loop leaves: the table and the warnings printed. */
  datatype Prepared = Prepared(table: Table, warnings: seq<string>)

  /** The cleaning loop over `listed`, one column after the other. Whether a
      column is present is asked of the table as the loop has left it. */
  function AddCleaned(t: Table, listed: seq<string>): (r: Prepared)
    ensures r.table.height == t.height
    ensures |r.warnings| <= |listed|
    ensures |t.names| <= |r.table.names| && r.table.names[..|t.names|] == t.names
  {
    if |listed| == 0 then Prepared(t, [])
    else
      var p := AddCleaned(t, listed[..|listed| - 1]);
      var c := listed[|listed| - 1];
      if c in p.table.cols
      then Prepared(WithColumn(p.table, CleanedName(c), Clean(p.table.cols[c])), p.warnings)
      else Prepared(p.table, p.warnings + [Warning(c)])
  }

  /** One more turn of the cleaning loop. */
  lemma AddCleanedStep(t: Table, listed: seq<string>, i: nat)
    requires i < |listed|
    ensures var p := AddCleaned(t, listed[..i]);
      AddCleaned(t, listed[..i + 1])
        == if listed[i] in p.table.cols
           then Prepared(WithColumn(p.table, CleanedName(listed[i]), Clean(p.table.cols[listed[i]])), p.warnings)
           else Prepared(p.table, p.warnings + [Warning(listed[i])])
  {
    assert listed[..i + 1][..i] == listed[..i];
  }

  /** The columns named in `done` hold their stripped originals, the
      others their originals. */
  predicate StrippedUpTo(cols: map<string, Column>, orig: map<string, Column>, done: seq<string>)
  {
    forall n :: n in cols ==>
      n in orig && cols[n] == if n in done then StripColumn(orig[n]) else orig[n]
  }

  /** One turn of the whitespace loop: only text columns are reassigned,
      since stripping leaves a numeric column as it is. */
  lemma StripStep(cols: map<string, Column>, orig: map<string, Column>, done: seq<string>, n: string)
    requires StrippedUpTo(cols, orig, done) && n in cols && n !in done
    ensures StrippedUpTo(if cols[n].TextCol? then cols[n := StripColumn(cols[n])] else cols, orig, done + [n])
  {
  }

  /** After the whitespace loop the columns are those of the stripped table. */
  lemma StripDone(t: Table, cols: map<string, Column>)
    requires WellFormed(t) && cols.Keys == t.cols.Keys && StrippedUpTo(cols, t.cols, t.names)
    ensures cols == StripTable(t).cols
    ensures WellFormed(Table(t.names, cols, t.height))
  {
  }

  /** The data frame `main` works on. */
  class Frame {
    var names: seq<string>
    var cols: map<string, Column>
    var height: nat

    function Contents(): Table
      reads this
    {
      Table(names, cols, height)
    }

    predicate Valid()
      reads this
    {
      WellFormed(Contents())
    }

    /** The frame `read_csv` returns; reading the file is not modelled. */
    constructor(t: Table)
      requires WellFormed(t)
      ensures Valid() && Contents() == t
    {
      names, cols, height := t.names, t.cols, t.height;
    }

    /** `df[name] = col`. */
    method Assign(name: string, col: Column)
      modifies this
      requires Valid() && col.Length() == height
      ensures Valid()
      ensures Contents() == WithColumn(old(Contents()), name, col)
    {
      if name !in cols {
        names := names + [name];
      }
      cols := cols[name := col];
    }

    /** The loop over the object columns, stripping each. */
    method StripText()
      modifies this
      requires Valid()
      ensures Valid()
      ensures Contents() == StripTable(old(Contents()))
    {
      var i := 0;
      while i < |names|
        invariant 0 <= i <= |names|
        invariant names == old(names) && height == old(height)
        invariant cols.Keys == old(cols).Keys
        invariant StrippedUpTo(cols, old(cols), names[..i])
      {
        var n := names[i];
        StripStep(cols, old(cols), names[..i], n);
        if cols[n].TextCol? {
          cols := cols[n := StripColumn(cols[n])];
        }
        assert names[..i + 1] == names[..i] + [n];
        i := i + 1;
      }
      assert names[..i] == names;
      StripDone(old(Contents()), cols);
    }

    /** The loop over the listed columns: a cleaned copy of each present one
        is assigned, and a warning is returned for each absent one. */
    method AddCleanedColumns(listed: seq<string>) returns (warnings: seq<string>)
      modifies this
      requires Valid()
      ensures Valid()
      ensures Prepared(Contents(), warnings) == AddCleaned(old(Contents()), listed)
    {
      warnings := [];
      var i := 0;
      while i < |listed|
        invariant 0 <= i <= |listed|
        invariant Valid()
        invariant Prepared(Contents(), warnings) == AddCleaned(old(Contents()), listed[..i])
      {
        var c := listed[i];
        AddCleanedStep(old(Contents()), listed, i);
        if c in cols {
          Assign(CleanedName(c), Clean(cols[c]));
        } else {
          warnings := warnings + [Warning(c)];
        }
        i := i + 1;
      }
      assert listed[..i] == listed;
    }
  }

  /** The two loops of `main`, in order. */
  method PrepareFrame(df: Frame) returns (warnings: seq<string>)
    modifies df
    requires df.Valid()
    ensures df.Valid()
    ensures Prepared(df.Contents(), warnings) == AddCleaned(StripTable(old(df.Contents())), CleanColumns)
  {
    df.StripText();
    warnings := df.AddCleanedColumns(CleanColumns);
  }

  /** Stripping twice is stripping once. */
  lemma StripColumnIdempotent(c: Column)
    ensures StripColumn(StripColumn(c)) == StripColumn(c)
  {
    if c.TextCol? {
      var once := StripColumn(c).texts;
      forall k | 0 <= k < |once|
        ensures StripCell(once[k]) == once[k]
      {
        if c.texts[k].Some? {
          StripIdempotent(c.texts[k].value);
        }
      }
    }
  }

  /** Cleaning a stripped column gives what cleaning the column gives: the
      whitespace loop never changes a cleaned value. */
  lemma CleanIgnoresStrip(c: Column)
    ensures Clean(StripColumn(c)) == Clean(c)
  {
    if c.TextCol? {
      var a, b := Clean(StripColumn(c)), Clean(c);
      forall k | 0 <= k < |c.texts|
        ensures a.nums[k] == b.nums[k]
      {
        if c.texts[k].Some? {
          StripBeforeClean(c.texts[k].value);
        }
      }
    }
  }

  lemma CleanedNameInjective(a: string, b: string)
    ensures CleanedName(a) == CleanedName(b) <==> a == b
  {
    if CleanedName(a) == CleanedName(b) {
      assert a == CleanedName(a)[..|a|];
      assert b == CleanedName(b)[..|b|];
    }
  }

  /** The listed columns the table has, in the order listed. */
  function Present(keys: set<string>, listed: seq<string>): (r: seq<string>)
    ensures forall c :: c in r <==> c in listed && c in keys
  {
    if |listed| == 0 then []
    else
      var c := listed[|listed| - 1];
      Present(keys, listed[..|listed| - 1]) + (if c in keys then [c] else [])
  }

  /** The listed columns the table lacks, in the order listed. */
  function Absent(keys: set<string>, listed: seq<string>): (r: seq<string>)
    ensures forall c :: c in r <==> c in listed && c !in keys
  {
    if |listed| == 0 then []
    else
      var c := listed[|listed| - 1];
      Absent(keys, listed[..|listed| - 1]) + (if c in keys then [] else [c])
  }

  function Cleaned(s: seq<string>): (r: seq<string>)
    ensures |r| == |s|
  {
    if |s| == 0 then [] else Cleaned(s[..|s| - 1]) + [CleanedName(s[|s| - 1])]
  }

  function Warnings(s: seq<string>): (r: seq<string>)
    ensures |r| == |s|
  {
    if |s| == 0 then [] else Warnings(s[..|s| - 1]) + [Warning(s[|s| - 1])]
  }

  lemma {:induction false} CleanedMembers(s: seq<string>, c: string)
    ensures CleanedName(c) in Cleaned(s) <==> c in s
  {
    if |s| > 0 {
      var init, last := s[..|s| - 1], s[|s| - 1];
      CleanedMembers(init, c);
      CleanedNameInjective(c, last);
      assert s == init + [last];
    }
  }

  lemma {:induction false} NotCleaned(s: seq<string>, n: string)
    requires forall c :: c in s ==> CleanedName(c) != n
    ensures n !in Cleaned(s)
  {
    if |s| > 0 {
      assert s[|s| - 1] in s;
      forall c | c in s[..|s| - 1] ensures CleanedName(c) != n {
        assert c in s;
      }
      NotCleaned(s[..|s| - 1], n);
    }
  }

  /** No listed column is listed twice, and no listed column's cleaned copy
      is already in the table or among the listed columns. */
  predicate Fresh(keys: set<string>, listed: seq<string>)
  {
    Distinct(listed)
    && forall c :: c in listed ==> CleanedName(c) !in keys && CleanedName(c) !in listed
  }

  lemma FreshPrefix(keys: set<string>, listed: seq<string>, k: nat)
    requires Fresh(keys, listed) && k <= |listed|
    ensures Fresh(keys, listed[..k])
  {
    forall c | c in listed[..k] ensures c in listed {
    }
  }

  /** The columns after the cleaning loop: those of the table and the
      cleaned copies of the present listed columns. */
  lemma {:induction false} AddCleanedKeys(t: Table, listed: seq<string>)
    requires Fresh(t.cols.Keys, listed)
    ensures forall n :: n in AddCleaned(t, listed).table.cols
                    <==> n in t.cols || n in Cleaned(Present(t.cols.Keys, listed))
  {
    if |listed| > 0 {
      var init, c := listed[..|listed| - 1], listed[|listed| - 1];
      FreshPrefix(t.cols.Keys, listed, |listed| - 1);
      AddCleanedKeys(t, init);
      StepPresence(t, listed);
      var before := Present(t.cols.Keys, init);
      if c in t.cols {
        assert Present(t.cols.Keys, listed) == before + [c];
        assert (before + [c])[..|before|] == before;
      } else {
        assert Present(t.cols.Keys, listed) == before;
      }
    }
  }

  /** At each step of the loop over fresh names, the column met is present
      exactly when the original table has it, and its cleaned copy is new. */
  lemma StepPresence(t: Table, listed: seq<string>)
    requires Fresh(t.cols.Keys, listed) && |listed| > 0
    requires forall n :: n in AddCleaned(t, listed[..|listed| - 1]).table.cols
                    <==> n in t.cols || n in Cleaned(Present(t.cols.Keys, listed[..|listed| - 1]))
    ensures var c := listed[|listed| - 1];
      (c in AddCleaned(t, listed[..|listed| - 1]).table.cols <==> c in t.cols)
      && CleanedName(c) !in AddCleaned(t, listed[..|listed| - 1]).table.cols
  {
    var init, c := listed[..|listed| - 1], listed[|listed| - 1];
    var before := Present(t.cols.Keys, init);
    assert c in listed;
    forall d | d in before ensures CleanedName(d) != c {
      assert d in listed;
    }
    NotCleaned(before, c);
    assert c !in init;
    CleanedMembers(before, c);
  }

  /** The cleaning loop over fresh names leaves every column of the table
      as it was. */
  lemma {:induction false} AddCleanedKeeps(t: Table, listed: seq<string>)
    requires Fresh(t.cols.Keys, listed)
    ensures t.cols.Keys <= AddCleaned(t, listed).table.cols.Keys
    ensures forall n :: n in t.cols ==> AddCleaned(t, listed).table.cols[n] == t.cols[n]
  {
    if |listed| > 0 {
      FreshPrefix(t.cols.Keys, listed, |listed| - 1);
      AddCleanedKeeps(t, listed[..|listed| - 1]);
      assert listed[|listed| - 1] in listed;
    }
  }

  /** Over fresh names, the cleaned copy of each present listed column holds
      the cleaning of that column. */
  lemma {:induction false} AddCleanedValues(t: Table, listed: seq<string>)
    requires Fresh(t.cols.Keys, listed)
    ensures forall c :: c in Present(t.cols.Keys, listed) ==>
              CleanedName(c) in AddCleaned(t, listed).table.cols
              && AddCleaned(t, listed).table.cols[CleanedName(c)] == Clean(t.cols[c])
  {
    if |listed| > 0 {
      var init, c := listed[..|listed| - 1], listed[|listed| - 1];
      FreshPrefix(t.cols.Keys, listed, |listed| - 1);
      AddCleanedValues(t, init);
      AddCleanedKeys(t, init);
      AddCleanedKeeps(t, init);
      StepPresence(t, listed);
      forall d | d in Present(t.cols.Keys, init) ensures CleanedName(d) != CleanedName(c) {
        CleanedNameInjective(d, c);
      }
    }
  }

  lemma CleanedSnoc(s: seq<string>, x: string)
    ensures Cleaned(s + [x]) == Cleaned(s) + [CleanedName(x)]
  {
    assert (s + [x])[..|s|] == s;
  }

  lemma WarningsSnoc(s: seq<string>, x: string)
    ensures Warnings(s + [x]) == Warnings(s) + [Warning(x)]
  {
    assert (s + [x])[..|s|] == s;
  }

  /** Over fresh names, the loop appends the cleaned names of the present
      columns, in order, after the names already there. */
  lemma {:induction false} AddCleanedNames(t: Table, listed: seq<string>)
    requires Fresh(t.cols.Keys, listed)
    ensures AddCleaned(t, listed).table.height == t.height
    ensures AddCleaned(t, listed).table.names == t.names + Cleaned(Present(t.cols.Keys, listed))
  {
    if |listed| > 0 {
      var init, c := listed[..|listed| - 1], listed[|listed| - 1];
      var keys := t.cols.Keys;
      FreshPrefix(keys, listed, |listed| - 1);
      AddCleanedNames(t, init);
      AddCleanedKeys(t, init);
      StepPresence(t, listed);
      var before := Present(keys, init);
      if c in keys {
        assert Present(keys, listed) == before + [c];
        CleanedSnoc(before, c);
        AppendAssoc(t.names, Cleaned(before), [CleanedName(c)]);
      } else {
        assert Present(keys, listed) == before;
      }
    }
  }

  /** Over fresh names, the loop warns about exactly the absent columns, in
      the order listed. */
  lemma {:induction false} AddCleanedWarnings(t: Table, listed: seq<string>)
    requires Fresh(t.cols.Keys, listed)
    ensures AddCleaned(t, listed).warnings == Warnings(Absent(t.cols.Keys, listed))
  {
    if |listed| > 0 {
      var init, c := listed[..|listed| - 1], listed[|listed| - 1];
      var keys := t.cols.Keys;
      FreshPrefix(keys, listed, |listed| - 1);
      AddCleanedWarnings(t, init);
      AddCleanedKeys(t, init);
      StepPresence(t, listed);
      var missing := Absent(keys, init);
      if c !in keys {
        assert Absent(keys, listed) == missing + [c];
        WarningsSnoc(missing, c);
      } else {
        assert Absent(keys, listed) == missing;
      }
    }
  }

  /** Over fresh names, the cleaning loop appends the cleaned names of the
      present columns in order, leaves every column already there as it
      was, gives each cleaned copy the cleaning of its column, and warns
      about exactly the absent columns, in order. */
  lemma AddCleanedFresh(t: Table, listed: seq<string>)
    requires Fresh(t.cols.Keys, listed)
    ensures AddCleaned(t, listed).table.height == t.height
    ensures AddCleaned(t, listed).table.names == t.names + Cleaned(Present(t.cols.Keys, listed))
    ensures forall n :: n in AddCleaned(t, listed).table.cols
                    <==> n in t.cols || n in Cleaned(Present(t.cols.Keys, listed))
    ensures forall n :: n in t.cols ==> AddCleaned(t, listed).table.cols[n] == t.cols[n]
    ensures forall c :: c in Present(t.cols.Keys, listed) ==>
              CleanedName(c) in AddCleaned(t, listed).table.cols
              && AddCleaned(t, listed).table.cols[CleanedName(c)] == Clean(t.cols[c])
    ensures AddCleaned(t, listed).warnings == Warnings(Absent(t.cols.Keys, listed))
  {
    AddCleanedKeys(t, listed);
    AddCleanedKeeps(t, listed);
    AddCleanedValues(t, listed);
    AddCleanedNames(t, listed);
    AddCleanedWarnings(t, listed);
  }

  lemma CleanedEnding(c: string)
    ensures CleanedName(c)[|CleanedName(c)| - 1] == 'd'
  {
  }

  /** The listed columns are distinct and none is the cleaned copy of
      another, so the loop of `main` runs over fresh names whenever the
      table has no cleaned copy of its own. */
  lemma CleanColumnsFresh(keys: set<string>)
    requires forall c :: c in CleanColumns ==> CleanedName(c) !in keys
    ensures Fresh(keys, CleanColumns)
  {
    forall c | c in CleanColumns ensures CleanedName(c) !in CleanColumns {
      CleanedEnding(c);
      forall d | d in CleanColumns ensures d[|d| - 1] == 'e' {
      }
    }
  }

  lemma StripKeepsKeys(t: Table)
    ensures StripTable(t).cols.Keys == t.cols.Keys
  {
  }

  /** Every column of the stripped table is its original, stripped. */
  lemma StripTableCols(t: Table)
    ensures forall n :: n in t.cols ==> n in StripTable(t).cols && StripTable(t).cols[n] == StripColumn(t.cols[n])
  {
  }

  /** What the two loops of `main` make of a table that has no column named
      like a cleaned copy: the names of the cleaned copies of the listed
      columns it has are appended in order, each holds the cleaning of the
      column as read (stripping first changes nothing), the columns read are
      kept with their text stripped, and one warning is printed per listed
      column it lacks. */
  lemma MainPreparation(t: Table)
    requires forall c :: c in CleanColumns ==> CleanedName(c) !in t.cols
    ensures AddCleaned(StripTable(t), CleanColumns).table.names
         == t.names + Cleaned(Present(t.cols.Keys, CleanColumns))
    ensures forall c :: c in Present(t.cols.Keys, CleanColumns) ==>
              CleanedName(c) in AddCleaned(StripTable(t), CleanColumns).table.cols
              && AddCleaned(StripTable(t), CleanColumns).table.cols[CleanedName(c)] == Clean(t.cols[c])
    ensures forall n :: n in t.cols ==>
              n in AddCleaned(StripTable(t), CleanColumns).table.cols
              && AddCleaned(StripTable(t), CleanColumns).table.cols[n] == StripColumn(t.cols[n])
    ensures AddCleaned(StripTable(t), CleanColumns).warnings
         == Warnings(Absent(t.cols.Keys, CleanColumns))
  {
    StripKeepsKeys(t);
    CleanColumnsFresh(t.cols.Keys);
    AddCleanedFresh(StripTable(t), CleanColumns);
    forall c | c in Present(t.cols.Keys, CleanColumns)
      ensures Clean(StripTable(t).cols[c]) == Clean(t.cols[c])
    {
      CleanIgnoresStrip(t.cols[c]);
    }
  }
}
