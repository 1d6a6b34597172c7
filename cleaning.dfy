/** `clean_and_convert_to_numeric` (charts_and_grapsh.py lines 8-25): a column
    that is already numeric is returned as it is; a text column has every '$',
    ',' and '%' deleted, is trimmed, has "", "N/A" and "nan" mapped to missing,
    and is parsed as numbers, with every failure becoming missing. */
module Cleaning {
  import opened Wrappers
  import opened Decimal
  import opened Seqs

  /** A table column as pandas holds it: either already numeric (missing
      entries are NaN) or of object dtype holding strings (missing entries are
      NaN too, which `astype(str)` renders as "nan"). */
  datatype Column = NumCol(nums: seq<Option<real>>) | TextCol(texts: seq<Option<string>>)
  {
    function Length(): nat {
      if NumCol? then |nums| else |texts|
    }
  }

  /** Python's `str.isspace`, the characters `str.strip()` removes. */
  predicate IsSpace(c: char) {
    || c == ' ' || '\t' <= c <= '\r' || '\U{1c}' <= c <= '\U{1f}'
    || c == '\U{85}' || c == '\U{a0}' || c == '\U{1680}'
    || '\U{2000}' <= c <= '\U{200a}' || c == '\U{2028}' || c == '\U{2029}'
    || c == '\U{202f}' || c == '\U{205f}' || c == '\U{3000}'
  }

  predicate AllSpaces(s: string) { forall k :: 0 <= k < |s| ==> IsSpace(s[k]) }

  /** The characters of the pattern `[$,%]`. */
  predicate IsSymbol(c: char) { c == '$' || c == ',' || c == '%' }

  predicate NoSymbols(s: string) { forall k :: 0 <= k < |s| ==> !IsSymbol(s[k]) }

  /** Every '$', ',' and '%' deleted, wherever it occurs. */
  function RemoveSymbols(s: string): (r: string)
    ensures NoSymbols(r)
    ensures |r| <= |s|
  {
    if |s| == 0 then ""
    else if IsSymbol(s[0]) then RemoveSymbols(s[1..])
    else [s[0]] + RemoveSymbols(s[1..])
  }

  /** Leading whitespace removed; what is left is a suffix of the input. */
  function TrimStart(s: string): (r: string)
    ensures |r| <= |s| && r == s[|s| - |r|..]
    ensures |r| > 0 ==> !IsSpace(r[0])
  {
    if |s| > 0 && IsSpace(s[0]) then TrimStart(s[1..]) else s
  }

  /** Trailing whitespace removed; what is left is a prefix of the input. */
  function TrimEnd(s: string): (r: string)
    ensures |r| <= |s| && r == s[..|r|]
    ensures |r| > 0 ==> !IsSpace(r[|r| - 1])
  {
    if |s| > 0 && IsSpace(s[|s| - 1]) then TrimEnd(s[..|s| - 1]) else s
  }

  /** Python's `str.strip()`: leading and trailing whitespace removed. */
  function Strip(s: string): (r: string)
    ensures |r| <= |s|
    ensures |r| > 0 ==> !IsSpace(r[0]) && !IsSpace(r[|r| - 1])
  {
    var u := TrimStart(s);
    var r := TrimEnd(u);
    assert |r| > 0 ==> r[0] == u[0];
    r
  }

  /** The strings replaced by NaN before parsing. */
  predicate IsMissingToken(s: string) { s == "" || s == "N/A" || s == "nan" }

  /** `astype(str)`: a missing cell becomes the text "nan". */
  function AsText(cell: Option<string>): (r: string)
    ensures cell.Some? ==> r == cell.value
    ensures cell.None? ==> IsMissingToken(r)
  {
    match cell
    case None => "nan"
    case Some(s) => s
  }

  /** The cleaning of one cell of a text column. A missing cell stays missing,
      and a number is only ever read from a cell that holds a digit. */
  function CleanCell(cell: Option<string>): (r: Option<real>)
    ensures cell.None? ==> r.None?
    ensures r.Some? ==> cell.Some? && HasDigit(cell.value)
  {
    var t := Strip(RemoveSymbols(AsText(cell)));
    var r := ParseTrimmed(t);
    assert cell.None? ==> t == "nan" by {
      if cell.None? { NanKept(); }
    }
    assert r.Some? ==> cell.Some? && HasDigit(cell.value) by {
      if r.Some? {
        StripKeepsDigit(RemoveSymbols(AsText(cell)));
        RemoveSymbolsKeepsDigit(AsText(cell));
      }
    }
    r
  }

  lemma NanKept()
    ensures Strip(RemoveSymbols("nan")) == "nan"
  {
    RemoveSymbolsKeeps("nan");
    StripKeeps("nan");
  }

  lemma {:induction false} RemoveSymbolsKeepsDigit(s: string)
    requires HasDigit(RemoveSymbols(s))
    ensures HasDigit(s)
  {
    var r := RemoveSymbols(s);
    var k :| 0 <= k < |r| && IsDigit(r[k]);
    if IsSymbol(s[0]) {
      RemoveSymbolsKeepsDigit(s[1..]);
      var j :| 0 <= j < |s| - 1 && IsDigit(s[1..][j]);
      assert IsDigit(s[j + 1]);
    } else if k > 0 {
      assert IsDigit(RemoveSymbols(s[1..])[k - 1]);
      RemoveSymbolsKeepsDigit(s[1..]);
      var j :| 0 <= j < |s| - 1 && IsDigit(s[1..][j]);
      assert IsDigit(s[j + 1]);
    } else {
      assert IsDigit(s[0]);
    }
  }

  lemma StripKeepsDigit(s: string)
    requires HasDigit(Strip(s))
    ensures HasDigit(s)
  {
    var u := TrimStart(s);
    var r := Strip(s);
    var k :| 0 <= k < |r| && IsDigit(r[k]);
    assert r[k] == u[k];
    assert u[k] == s[|s| - |u| + k];
  }

  /** The last two steps: the placeholder texts become missing, the rest is
      parsed. */
  function ParseTrimmed(t: string): (r: Option<real>)
    ensures r.Some? ==> HasDigit(t)
    ensures IsMissingToken(t) ==> r.None?
  {
    if IsMissingToken(t) then None else ParseDecimal(t)
  }

  /** The whole cleaning of a column: same length, numeric result, an already
      numeric column untouched, and a text column cleaned cell by cell. */
  function Clean(c: Column): (r: Column)
    ensures r.NumCol? && |r.nums| == c.Length()
    ensures c.NumCol? ==> r == c
    ensures c.TextCol? ==> forall k :: 0 <= k < |c.texts| ==> r.nums[k] == CleanCell(c.texts[k])
  {
    match c
    case NumCol(_) => c
    case TextCol(ts) => NumCol(seq(|ts|, k requires 0 <= k < |ts| => CleanCell(ts[k])))
  }

  /** Cleaning twice is cleaning once. */
  lemma CleanIdempotent(c: Column)
    ensures Clean(Clean(c)) == Clean(c)
  {
  }

  lemma {:induction false} RemoveSymbolsAppend(a: string, b: string)
    ensures RemoveSymbols(a + b) == RemoveSymbols(a) + RemoveSymbols(b)
  {
    if |a| > 0 {
      assert (a + b)[1..] == a[1..] + b;
      RemoveSymbolsAppend(a[1..], b);
    } else {
      assert a + b == b;
    }
  }

  lemma {:induction false} RemoveSymbolsKeeps(s: string)
    requires NoSymbols(s)
    ensures RemoveSymbols(s) == s
  {
    if |s| > 0 {
      RemoveSymbolsKeeps(s[1..]);
    }
  }

  lemma {:induction false} TrimStartPadding(w: string, t: string)
    requires AllSpaces(w)
    ensures TrimStart(w + t) == TrimStart(t)
  {
    if |w| > 0 {
      assert (w + t)[1..] == w[1..] + t;
      TrimStartPadding(w[1..], t);
    } else {
      assert w + t == t;
    }
  }

  lemma {:induction false} TrimEndPadding(t: string, w: string)
    requires AllSpaces(w)
    ensures TrimEnd(t + w) == TrimEnd(t)
  {
    if |w| > 0 {
      var w' := w[..|w| - 1];
      assert (t + w)[..|t + w| - 1] == t + w';
      TrimEndPadding(t, w');
    } else {
      assert t + w == t;
    }
  }

  lemma {:induction false} TrimStartAppend(t: string, w: string)
    ensures TrimStart(t + w) == if TrimStart(t) == "" then TrimStart(w) else TrimStart(t) + w
  {
    if |t| == 0 {
      assert t + w == w;
    } else if IsSpace(t[0]) {
      assert (t + w)[1..] == t[1..] + w;
      TrimStartAppend(t[1..], w);
    } else {
      assert (t + w)[0] == t[0];
    }
  }

  lemma AllSpacesTrim(w: string)
    requires AllSpaces(w)
    ensures TrimStart(w) == ""
  {
    TrimStartPadding(w, "");
    assert w + "" == w;
  }

  /** Whitespace in front of a text does not survive trimming. */
  lemma StripLeftPadding(w: string, t: string)
    requires AllSpaces(w)
    ensures Strip(w + t) == Strip(t)
  {
    TrimStartPadding(w, t);
  }

  /** Whitespace after a text does not survive trimming. */
  lemma StripRightPadding(t: string, w: string)
    requires AllSpaces(w)
    ensures Strip(t + w) == Strip(t)
  {
    TrimStartAppend(t, w);
    if TrimStart(t) == "" {
      AllSpacesTrim(w);
    } else {
      TrimEndPadding(TrimStart(t), w);
    }
  }

  /** A text without whitespace at either end is left as it is. */
  lemma StripKeeps(t: string)
    requires |t| > 0 ==> !IsSpace(t[0]) && !IsSpace(t[|t| - 1])
    ensures Strip(t) == t
  {
  }

  /** Trimming twice is trimming once. */
  lemma StripIdempotent(s: string)
    ensures Strip(Strip(s)) == Strip(s)
  {
    StripKeeps(Strip(s));
  }

  /** Cells that agree after symbol removal and trimming clean alike. */
  lemma SameTrimmedText(a: string, b: string)
    requires Strip(RemoveSymbols(a)) == Strip(RemoveSymbols(b))
    ensures CleanCell(Some(a)) == CleanCell(Some(b))
  {
  }

  /** A '$', ',' or '%' anywhere in a cell is ignored. */
  lemma SymbolIgnored(a: string, c: char, b: string)
    requires IsSymbol(c)
    ensures CleanCell(Some(a + [c] + b)) == CleanCell(Some(a + b))
  {
    RemoveSymbolsAppend(a + [c], b);
    RemoveSymbolsAppend(a, [c]);
    RemoveSymbolsAppend(a, b);
    assert RemoveSymbols([c]) == "";
    assert RemoveSymbols(a + [c] + b) == RemoveSymbols(a + b);
    SameTrimmedText(a + [c] + b, a + b);
  }

  lemma RemoveSymbolsAroundSpaces(w: string, s: string, w': string)
    requires AllSpaces(w) && AllSpaces(w')
    ensures RemoveSymbols(w + s + w') == w + RemoveSymbols(s) + w'
  {
    RemoveSymbolsAppend(w + s, w');
    RemoveSymbolsAppend(w, s);
    RemoveSymbolsKeeps(w);
    RemoveSymbolsKeeps(w');
  }

  /** Whitespace around a cell is ignored. */
  lemma PaddingIgnored(w: string, s: string, w': string)
    requires AllSpaces(w) && AllSpaces(w')
    ensures CleanCell(Some(w + s + w')) == CleanCell(Some(s))
  {
    RemoveSymbolsAroundSpaces(w, s, w');
    var x := RemoveSymbols(s);
    assert w + x + w' == w + (x + w');
    StripLeftPadding(w, x + w');
    StripRightPadding(x, w');
    SameTrimmedText(w + s + w', s);
  }

  /** What `TrimStart` drops is whitespace. */
  lemma {:induction false} TrimStartDrops(s: string)
    ensures AllSpaces(s[..|s| - |TrimStart(s)|])
  {
    if |s| > 0 && IsSpace(s[0]) {
      var t := TrimStart(s[1..]);
      assert TrimStart(s) == t;
      TrimStartDrops(s[1..]);
      var tail := s[1..][..|s| - 1 - |t|];
      assert AllSpaces(tail);
      var d := s[..|s| - |t|];
      forall k | 0 <= k < |d|
        ensures IsSpace(d[k])
      {
        if k > 0 {
          assert d[k] == tail[k - 1];
        }
      }
    }
  }

  /** What `TrimEnd` drops is whitespace. */
  lemma {:induction false} TrimEndDrops(s: string)
    ensures AllSpaces(s[|TrimEnd(s)|..])
  {
    if |s| > 0 && IsSpace(s[|s| - 1]) {
      TrimEndDrops(s[..|s| - 1]);
      assert s[|TrimEnd(s)|..] == s[..|s| - 1][|TrimEnd(s)|..] + [s[|s| - 1]];
    }
  }

  lemma TrimStartSplit(s: string) returns (w: string)
    ensures AllSpaces(w) && s == w + TrimStart(s)
  {
    w := s[..|s| - |TrimStart(s)|];
    TrimStartDrops(s);
  }

  lemma TrimEndSplit(s: string) returns (w': string)
    ensures AllSpaces(w') && s == TrimEnd(s) + w'
  {
    w' := s[|TrimEnd(s)|..];
    TrimEndDrops(s);
  }

  /** A text is its stripped form padded with whitespace on both sides. */
  lemma StripParts(s: string) returns (w: string, w': string)
    ensures AllSpaces(w) && AllSpaces(w')
    ensures s == w + Strip(s) + w'
  {
    var u := TrimStart(s);
    w := TrimStartSplit(s);
    w' := TrimEndSplit(u);
    AppendAssoc(w, TrimEnd(u), w');
  }

  /** Stripping a cell before cleaning it changes nothing. */
  lemma StripBeforeClean(s: string)
    ensures CleanCell(Some(Strip(s))) == CleanCell(Some(s))
  {
    var w, w' := StripParts(s);
    PaddingIgnored(w, Strip(s), w');
  }

  /** A text cell is cleaned by removing its symbols, stripping what is
      left, and parsing the result. */
  lemma CleanCellOfText(s: string)
    ensures CleanCell(Some(s)) == ParseTrimmed(Strip(RemoveSymbols(s)))
  {
  }

  /** A cell with no symbol and no surrounding whitespace goes straight to
      the last two steps. */
  lemma PlainCell(s: string)
    requires NoSymbols(s)
    requires |s| > 0 ==> !IsSpace(s[0]) && !IsSpace(s[|s| - 1])
    ensures CleanCell(Some(s)) == ParseTrimmed(s)
  {
    RemoveSymbolsKeeps(s);
    StripKeeps(s);
    CleanCellOfText(s);
  }

  lemma DigitFirstIsNoToken(s: string)
    requires |s| > 0 && IsDigit(s[0])
    ensures ParseTrimmed(s) == ParseDecimal(s)
  {
    assert s != "N/A" && s != "nan" by { assert s[0] != 'N' && s[0] != 'n'; }
  }

  lemma DigitsHaveNoSymbols(s: string)
    requires AllDigits(s)
    ensures NoSymbols(s)
  {
    forall k | 0 <= k < |s| ensures !IsSymbol(s[k]) {
      assert IsDigit(s[k]);
    }
  }

  /** A cell holding the decimal rendering of a natural number is read back
      as that number. */
  lemma NumeralCleans(n: nat)
    ensures CleanCell(Some(Numeral(n))) == Some(n as real)
  {
    var s := Numeral(n);
    assert IsDigit(s[0]) && IsDigit(s[|s| - 1]);
    DigitsHaveNoSymbols(s);
    PlainCell(s);
    DigitFirstIsNoToken(s);
    ParseNumeral(n);
  }

  lemma EmptyIsMissing()
    ensures CleanCell(Some("")) == None
  {
    PlainCell("");
  }

  lemma NotAvailableIsMissing()
    ensures CleanCell(Some("N/A")) == None
  {
    PlainCell("N/A");
  }

  lemma NanIsMissing()
    ensures CleanCell(Some("nan")) == None
  {
    PlainCell("nan");
  }

  /** The three placeholder texts and a missing cell clean to missing. */
  lemma PlaceholdersAreMissing()
    ensures CleanCell(Some("")) == None
    ensures CleanCell(Some("N/A")) == None
    ensures CleanCell(Some("nan")) == None
    ensures CleanCell(None) == None
  {
    EmptyIsMissing();
    NotAvailableIsMissing();
    NanIsMissing();
  }

  /** Removing the symbols first changes nothing: the cleaning already does. */
  lemma SymbolsIgnored(s: string)
    ensures CleanCell(Some(s)) == CleanCell(Some(RemoveSymbols(s)))
  {
    RemoveSymbolsKeeps(RemoveSymbols(s));
    SameTrimmedText(s, RemoveSymbols(s));
  }

  /** A cell of blanks only cleans to missing. */
  lemma BlanksAreMissing(w: string)
    requires AllSpaces(w)
    ensures CleanCell(Some(w)) == None
  {
    RemoveSymbolsKeeps(w);
    AllSpacesTrim(w);
    CleanCellOfText(w);
  }

  lemma DollarRemoved()
    ensures RemoveSymbols("$") == ""
  {
  }

  lemma SymbolsAndBlanksRemoved()
    ensures RemoveSymbols(" $ % ") == "   "
  {
  }

  /** A cell holding nothing but symbols and blanks cleans to missing. */
  lemma SymbolsOnlyAreMissing()
    ensures CleanCell(Some("$")) == None
    ensures CleanCell(Some(" $ % ")) == None
  {
    SymbolsIgnored("$");
    DollarRemoved();
    EmptyIsMissing();
    SymbolsIgnored(" $ % ");
    SymbolsAndBlanksRemoved();
    BlanksAreMissing("   ");
  }

  lemma SymbolThenText(c: char, t: string)
    requires IsSymbol(c)
    ensures RemoveSymbols([c] + t) == RemoveSymbols(t)
  {
    assert ([c] + t)[1..] == t;
  }

  lemma PlainThenText(w: string, t: string)
    requires NoSymbols(w)
    ensures RemoveSymbols(w + t) == w + RemoveSymbols(t)
  {
    RemoveSymbolsAppend(w, t);
    RemoveSymbolsKeeps(w);
  }

  lemma DollarAmountSymbols(w: string, group: string, cents: string)
    requires AllDigits(w) && AllDigits(group) && AllDigits(cents)
    ensures RemoveSymbols(['$'] + (w + ([','] + (group + (['.'] + cents)))))
         == w + (group + (['.'] + cents))
  {
    assert NoSymbols(['.'] + cents) by {
      forall k | 0 <= k < 1 + |cents| ensures !IsSymbol((['.'] + cents)[k]) {
        if k > 0 { assert (['.'] + cents)[k] == cents[k - 1]; }
      }
    }
    DigitsHaveNoSymbols(w);
    DigitsHaveNoSymbols(group);
    RemoveSymbolsKeeps(['.'] + cents);
    PlainThenText(group, ['.'] + cents);
    SymbolThenText(',', group + (['.'] + cents));
    PlainThenText(w, [','] + (group + (['.'] + cents)));
    SymbolThenText('$', w + ([','] + (group + (['.'] + cents))));
  }

  lemma FixedPointIsPlain(whole: string, cents: string)
    requires |whole| > 0 && AllDigits(whole) && AllDigits(cents)
    ensures NoSymbols(whole + (['.'] + cents))
    ensures !IsSpace((whole + (['.'] + cents))[0])
    ensures !IsSpace((whole + (['.'] + cents))[|whole| + |cents|])
  {
    var plain := whole + (['.'] + cents);
    assert plain[0] == whole[0];
    assert |cents| > 0 ==> plain[|plain| - 1] == cents[|cents| - 1];
    assert |cents| == 0 ==> plain[|plain| - 1] == '.';
    forall k | 0 <= k < |plain| ensures !IsSymbol(plain[k]) {
      if k < |whole| { assert plain[k] == whole[k]; }
      else if k > |whole| { assert plain[k] == cents[k - |whole| - 1]; }
    }
  }

  lemma PlainAmount(whole: string, cents: string)
    requires |whole| > 0 && AllDigits(whole) && AllDigits(cents)
    ensures CleanCell(Some(whole + (['.'] + cents))) == Some(FixedValue(whole, cents))
  {
    var plain := whole + (['.'] + cents);
    FixedPointIsPlain(whole, cents);
    PlainCell(plain);
    assert plain[0] == whole[0];
    DigitFirstIsNoToken(plain);
    FixedAccepted("", whole, cents);
    assert "" + plain == plain;
  }

  /** Symbols are dropped before the text is read. */
  lemma CleanAfterRemoval(s: string, t: string, x: real)
    requires RemoveSymbols(s) == t && CleanCell(Some(t)) == Some(x)
    ensures CleanCell(Some(s)) == Some(x)
  {
    SymbolsIgnored(s);
  }

  /** A dollar amount with a thousands separator and cents,
      "$" + w + "," + group + "." + cents, reads as the fixed-point number
      whose whole part is w followed by group. */
  lemma DollarText(w: string, group: string, cents: string)
    requires |w| > 0 && AllDigits(w) && AllDigits(group) && AllDigits(cents)
    ensures CleanCell(Some(['$'] + (w + ([','] + (group + (['.'] + cents))))))
         == Some(FixedValue(w + group, cents))
  {
    DollarAmountSymbols(w, group, cents);
    assert w + (group + (['.'] + cents)) == (w + group) + (['.'] + cents);
    AllDigitsAppend(w, group);
    PlainAmount(w + group, cents);
    CleanAfterRemoval(['$'] + (w + ([','] + (group + (['.'] + cents)))),
                      (w + group) + (['.'] + cents), FixedValue(w + group, cents));
  }

  lemma GroupedValue(whole: nat, group: string, cents: string)
    requires AllDigits(group) && AllDigits(cents)
    ensures FixedValue(Numeral(whole) + group, cents)
         == (whole * Pow10(|group|) + DigitsValue(group)) as real
            + DigitsValue(cents) as real / Pow10(|cents|) as real
  {
    DigitsValueAppend(Numeral(whole), group);
    NumeralValue(whole);
  }

  /** Currency with a thousands separator. */
  lemma CurrencyExample()
    ensures CleanCell(Some("$1,234.50")) == Some(1234.5)
  {
    var w := Numeral(1);
    var s := ['$'] + (w + ([','] + ("234" + (['.'] + "50"))));
    assert s == "$1,234.50";
    DollarText(w, "234", "50");
    CurrencyValue();
  }

  lemma CurrencyValue()
    ensures FixedValue(Numeral(1) + "234", "50") == 1234.5
  {
    GroupedValue(1, "234", "50");
    assert DigitsValue("234") == 234 && DigitsValue("50") == 50;
    assert Pow10(|"234"|) == 1000 && Pow10(|"50"|) == 100;
  }

  /** A trailing symbol is ignored. */
  lemma TrailingSymbol(w: string, c: char)
    requires AllDigits(w) && IsSymbol(c)
    ensures CleanCell(Some(w + [c])) == CleanCell(Some(w))
  {
    DigitsHaveNoSymbols(w);
    PlainThenText(w, [c]);
    assert RemoveSymbols([c]) == [];
    assert w + [] == w;
    SymbolsIgnored(w + [c]);
    RemoveSymbolsKeeps(w);
    SymbolsIgnored(w);
  }

  /** A percentage. */
  lemma PercentExample()
    ensures CleanCell(Some("12%")) == Some(12.0)
  {
    var w := Numeral(12);
    assert w == "12";
    var s := w + ['%'];
    assert s == "12%";
    TrailingSymbol(w, '%');
    NumeralCleans(12);
  }

  /** A number padded with blanks. */
  lemma PaddedExample()
    ensures CleanCell(Some(" 7 ")) == Some(7.0)
  {
    var s := Numeral(7);
    assert s == "7";
    assert " 7 " == " " + s + " ";
    PaddingIgnored(" ", s, " ");
    NumeralCleans(7);
  }

  lemma SeparatorsRemoved()
    ensures RemoveSymbols("1,2,3") == "123"
  {
    calc {
      RemoveSymbols("1,2,3");
      { assert "1,2,3"[0] == '1' && "1,2,3"[1..] == ",2,3"; }
      "1" + RemoveSymbols(",2,3");
      { assert ",2,3"[0] == ',' && ",2,3"[1..] == "2,3"; }
      "1" + RemoveSymbols("2,3");
      { assert "2,3"[0] == '2' && "2,3"[1..] == ",3"; }
      "1" + ("2" + RemoveSymbols(",3"));
      { assert ",3"[0] == ',' && ",3"[1..] == "3"; }
      "1" + ("2" + RemoveSymbols("3"));
      { assert "3"[0] == '3' && "3"[1..] == ""; }
      "123";
    }
  }

  /** Separators between digits are dropped, even where they do not group
      thousands. */
  lemma SeparatorsExample()
    ensures CleanCell(Some("1,2,3")) == Some(123.0)
  {
    var n := Numeral(123);
    assert n == "123";
    NumeralCleans(123);
    SeparatorsRemoved();
    CleanAfterRemoval("1,2,3", n, 123.0);
  }
}
