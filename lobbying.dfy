/** The aggregation behind the lobbying chart: each disclosure row's year is
    read from its `Year` text, the years 2017 to 2024 are kept, the spending
    of the three funeral-home interests and of the two cemetery interests is
    summed per row, and the rows are ordered by year. The rows start out
    already parsed from the embedded CSV text. */
module Lobbying {
  import opened Wrappers
  import opened Decimal
  import opened Seqs

  /** The header of the embedded data. */
  const Header: seq<string> := [
    "Year",
    "Yearth Funeral Group Inc.",
    "Massachusetts Funeral Directors Association",
    "Affiliated Family Funeral Service Inc.",
    "Massachusetts Cemetery Association",
    "Proprietors of the Cemetery of Mount Auburn",
    "Total"
  ]

  const FuneralGroups: seq<string> := [
    "Yearth Funeral Group Inc.",
    "Massachusetts Funeral Directors Association",
    "Affiliated Family Funeral Service Inc."
  ]

  const CemeteryGroups: seq<string> := [
    "Massachusetts Cemetery Association",
    "Proprietors of the Cemetery of Mount Auburn"
  ]

  const FirstYear: int := 2017
  const LastYear: int := 2024

  /** One parsed row of the embedded data: the `Year` text and the amount in
      each of the other columns, in header order. */
  datatype Entry = Entry(
    year: string,
    yearth: int, directors: int, affiliated: int,
    cemeteryAssociation: int, mountAuburn: int,
    total: int)

  /** The amount column called `name`, as `df[name]` selects it. */
  function Amount(e: Entry, name: string): int
    requires name in Header[1..]
  {
    if name == Header[1] then e.yearth
    else if name == Header[2] then e.directors
    else if name == Header[3] then e.affiliated
    else if name == Header[4] then e.cemeteryAssociation
    else if name == Header[5] then e.mountAuburn
    else e.total
  }

  /** `df[group].sum(axis=1)` for one row. */
  function GroupTotal(e: Entry, group: seq<string>): int
    requires forall name :: name in group ==> name in Header[1..]
  {
    if |group| == 0 then 0
    else GroupTotal(e, group[..|group| - 1]) + Amount(e, group[|group| - 1])
  }

  /** The two groups are disjoint and, between them, name every column of
      the header but `Year` and `Total`, each exactly once. */
  lemma GroupsPartitionColumns()
    ensures Header == ["Year"] + FuneralGroups + CemeteryGroups + ["Total"]
    ensures Distinct(Header)
    ensures forall name :: name in FuneralGroups ==> name !in CemeteryGroups
  {
    assert forall i, j :: 0 <= i < j < |Header| ==> |Header[i]| != |Header[j]| || Header[i][0] != Header[j][0];
  }

  /** Each amount column selects its own field. */
  lemma ColumnAmounts(e: Entry)
    ensures Amount(e, Header[1]) == e.yearth
    ensures Amount(e, Header[2]) == e.directors
    ensures Amount(e, Header[3]) == e.affiliated
    ensures Amount(e, Header[4]) == e.cemeteryAssociation
    ensures Amount(e, Header[5]) == e.mountAuburn
  {
    GroupsPartitionColumns();
  }

  /** Funeral Group Spending is the sum of the three funeral columns. */
  lemma FuneralSpending(e: Entry)
    ensures GroupTotal(e, FuneralGroups) == e.yearth + e.directors + e.affiliated
  {
    ColumnAmounts(e);
    var g := FuneralGroups;
    assert g[..2][..1] == [Header[1]];
    assert g[..2] == [Header[1], Header[2]];
    assert g == [Header[1], Header[2], Header[3]];
    assert GroupTotal(e, g[..2][..1]) == e.yearth;
    assert GroupTotal(e, g[..2]) == e.yearth + e.directors;
  }

  /** Cemetery Group Spending is the sum of the two cemetery columns. */
  lemma CemeterySpending(e: Entry)
    ensures GroupTotal(e, CemeteryGroups) == e.cemeteryAssociation + e.mountAuburn
  {
    ColumnAmounts(e);
    var g := CemeteryGroups;
    assert g[..1] == [Header[4]];
    assert g == [Header[4], Header[5]];
    assert GroupTotal(e, g[..1]) == e.cemeteryAssociation;
  }

  /** Four digits in a row start at `k`. */
  predicate RunAt(s: string, k: nat)
  {
    k + 4 <= |s| && AllDigits(s[k..k + 4])
  }

  /** The leftmost match of `\d{4}` at or after `from`. */
  function FirstRun(s: string, from: nat): (r: Option<nat>)
    requires from <= |s|
    ensures r.Some? ==> from <= r.value && RunAt(s, r.value)
    ensures r.Some? ==> forall j :: from <= j < r.value ==> !RunAt(s, j)
    ensures r.None? ==> forall j :: from <= j ==> !RunAt(s, j)
    decreases |s| - from
  {
    if from + 4 > |s| then None
    else if RunAt(s, from) then Some(from)
    else FirstRun(s, from + 1)
  }

  /** `str.extract(r'(\d{4})')` followed by `astype(int)`: the value of the
      first four digits in a row, or nothing when there are none (the cast
      of the resulting NaN fails). */
  function ExtractYear(s: string): (r: Option<int>)
    ensures r.None? <==> forall j :: 0 <= j ==> !RunAt(s, j)
    ensures r.Some? ==> exists k: nat :: RunAt(s, k) && r.value == DigitsValue(s[k..k + 4])
                          && forall j :: 0 <= j < k ==> !RunAt(s, j)
    ensures r.Some? ==> 0 <= r.value < 10000
  {
    match FirstRun(s, 0)
    case None => None
    case Some(k) =>
      assert Pow10(4) == 10000;
      Some(DigitsValue(s[k..k + 4]))
  }

  /** A row once its year has been extracted. */
  datatype Dated = Dated(year: int, entry: Entry)

  /** Line 33: every row's year extracted; nothing when one has no year. */
  function DateAll(entries: seq<Entry>): (r: Option<seq<Dated>>)
    ensures r.None? <==> exists i :: 0 <= i < |entries| && ExtractYear(entries[i].year).None?
    ensures r.Some? ==> |r.value| == |entries|
    ensures r.Some? ==> forall i :: 0 <= i < |entries| ==>
              ExtractYear(entries[i].year) == Some(r.value[i].year) && r.value[i].entry == entries[i]
  {
    if |entries| == 0 then Some([])
    else
      match (ExtractYear(entries[0].year), DateAll(entries[1..]))
      case (Some(y), Some(rest)) =>
        var r := [Dated(y, entries[0])] + rest;
        assert forall i :: 1 <= i < |entries| ==> entries[i] == entries[1..][i - 1];
        Some(r)
      case (None, _) => None
      case (Some(_), None) =>
        var i :| 0 <= i < |entries[1..]| && ExtractYear(entries[1..][i].year).None?;
        assert entries[i + 1] == entries[1..][i];
        None
  }

  predicate InRange(d: Dated)
  {
    FirstYear <= d.year <= LastYear
  }

  /** Line 36: the rows of 2017 to 2024, in table order. */
  function KeepRange(rows: seq<Dated>): (r: seq<Dated>)
    ensures |r| <= |rows|
    ensures forall k :: 0 <= k < |r| ==> InRange(r[k])
  {
    if |rows| == 0 then []
    else if InRange(rows[0]) then [rows[0]] + KeepRange(rows[1..])
    else KeepRange(rows[1..])
  }

  /** The aggregated row: the year and the spending of each side. */
  datatype Spending = Spending(year: int, funeral: int, cemetery: int)

  /** Lines 50-51 for one row. */
  function Spend(d: Dated): Spending
  {
    Spending(d.year, GroupTotal(d.entry, FuneralGroups), GroupTotal(d.entry, CemeteryGroups))
  }

  function SpendAll(rows: seq<Dated>): (r: seq<Spending>)
    ensures |r| == |rows|
    ensures forall k :: 0 <= k < |r| ==> r[k].year == rows[k].year
  {
    if |rows| == 0 then [] else [Spend(rows[0])] + SpendAll(rows[1..])
  }

  predicate ByYear(s: seq<Spending>)
  {
    forall i, j :: 0 <= i < j < |s| ==> s[i].year <= s[j].year
  }

  function InsertByYear(x: Spending, s: seq<Spending>): (r: seq<Spending>)
    ensures |r| == |s| + 1
  {
    if |s| == 0 || x.year <= s[0].year then [x] + s
    else [s[0]] + InsertByYear(x, s[1..])
  }

  /** `sort_index()` on the year index. */
  function SortByYear(s: seq<Spending>): (r: seq<Spending>)
    ensures |r| == |s|
  {
    if |s| == 0 then [] else InsertByYear(s[0], SortByYear(s[1..]))
  }

  /** Lines 33-55: the aggregated table, or nothing when a row has no year
      and the cast on line 33 fails. */
  function Aggregate(entries: seq<Entry>): (r: Option<seq<Spending>>)
    ensures r.None? <==> DateAll(entries).None?
    ensures r.Some? ==> |r.value| <= |entries|
  {
    match DateAll(entries)
    case None => None
    case Some(dated) => Some(SortByYear(SpendAll(KeepRange(dated))))
  }

  /** Exactly the rows of 2017 to 2024 are kept. */
  lemma {:induction false} KeepRangeMembers(rows: seq<Dated>)
    ensures forall d :: d in KeepRange(rows) <==> d in rows && InRange(d)
  {
    if |rows| > 0 {
      KeepRangeMembers(rows[1..]);
      assert rows == [rows[0]] + rows[1..];
    }
  }

  /** Each aggregated row carries its year and the two group totals. */
  lemma {:induction false} SpendAllAt(rows: seq<Dated>, i: nat)
    requires i < |rows|
    ensures SpendAll(rows)[i] == Spend(rows[i])
  {
    if i > 0 {
      SpendAllAt(rows[1..], i - 1);
    }
  }

  lemma InsertByYearSorted(x: Spending, s: seq<Spending>)
    requires ByYear(s)
    ensures ByYear(InsertByYear(x, s))
    ensures multiset(InsertByYear(x, s)) == multiset(s) + multiset{x}
    ensures InsertByYear(x, s)[0] == x || (|s| > 0 && InsertByYear(x, s)[0] == s[0])
  {
    InsertByYearAscending(x, s);
    InsertByYearAdds(x, s);
  }

  lemma {:induction false} InsertByYearAscending(x: Spending, s: seq<Spending>)
    requires ByYear(s)
    ensures ByYear(InsertByYear(x, s))
    ensures InsertByYear(x, s)[0] == x || (|s| > 0 && InsertByYear(x, s)[0] == s[0])
  {
    if |s| == 0 || x.year <= s[0].year {
      assert InsertByYear(x, s) == [x] + s;
      ConsByYear(x, s);
    } else {
      var t := InsertByYear(x, s[1..]);
      assert InsertByYear(x, s) == [s[0]] + t;
      InsertByYearAscending(x, s[1..]);
      assert t[0] == x || t[0] == s[1];
      ConsByYear(s[0], t);
    }
  }

  lemma {:induction false} InsertByYearAdds(x: Spending, s: seq<Spending>)
    ensures multiset(InsertByYear(x, s)) == multiset(s) + multiset{x}
  {
    if |s| > 0 && !(x.year <= s[0].year) {
      InsertByYearAdds(x, s[1..]);
      assert s == [s[0]] + s[1..];
    }
  }

  /** A row no later than the head of rows ordered by year can go in
      front of them. */
  lemma ConsByYear(a: Spending, t: seq<Spending>)
    requires ByYear(t) && (|t| > 0 ==> a.year <= t[0].year)
    ensures ByYear([a] + t)
  {
    var r := [a] + t;
    forall i, j | 0 <= i < j < |r|
      ensures r[i].year <= r[j].year
    {
      if i == 0 {
        assert r[j] == t[j - 1] && t[0].year <= t[j - 1].year;
      } else {
        assert r[i] == t[i - 1] && r[j] == t[j - 1];
      }
    }
  }

  /** Sorting yields the same rows, ordered by year. */
  lemma {:induction false} SortByYearSorted(s: seq<Spending>)
    ensures ByYear(SortByYear(s))
    ensures multiset(SortByYear(s)) == multiset(s)
  {
    if |s| > 0 {
      SortByYearSorted(s[1..]);
      InsertByYearSorted(s[0], SortByYear(s[1..]));
      assert s == [s[0]] + s[1..];
    }
  }

  /** The pipeline fails exactly when some row has no four-digit run in its
      year; otherwise it yields one row per row of 2017 to 2024, ordered by
      year, each carrying its year and the two group totals. */
  lemma AggregateSpec(entries: seq<Entry>)
    ensures Aggregate(entries).None?
        <==> exists i :: 0 <= i < |entries| && ExtractYear(entries[i].year).None?
    ensures Aggregate(entries).Some? ==>
      var dated := DateAll(entries).value;
      var r := Aggregate(entries).value;
      ByYear(r)
      && multiset(r) == multiset(SpendAll(KeepRange(dated)))
      && |r| == |KeepRange(dated)|
      && (forall x :: x in r ==> FirstYear <= x.year <= LastYear)
  {
    var d := DateAll(entries);
    if d.Some? {
      var kept := KeepRange(d.value);
      var spent := SpendAll(kept);
      var r := SortByYear(spent);
      SortByYearSorted(spent);
      KeepRangeMembers(d.value);
      forall x | x in r ensures FirstYear <= x.year <= LastYear {
        assert x in multiset(spent);
        var i :| 0 <= i < |spent| && spent[i] == x;
        SpendAllAt(kept, i);
        assert kept[i] in kept;
      }
    }
  }

  /** The rows of the embedded data, in file order. */
  const Embedded: seq<Entry> := [
    Entry("2025(*Jan-June)", 22911, 41000, 3750, 9000, 36610, 113271),
    Entry("2024", 0, 92166, 0, 18000, 60000, 172190),
    Entry("2023", 0, 58000, 0, 16000, 60910, 136933),
    Entry("2022", 0, 28000, 0, 12000, 54750, 96772),
    Entry("2021", 0, 28678, 0, 12000, 0, 42699),
    Entry("2020", 0, 14428, 0, 12000, 0, 28448),
    Entry("2019", 0, 14000, 0, 12000, 0, 28019),
    Entry("2018", 0, 10000, 0, 12000, 0, 24018),
    Entry("2017", 0, 14000, 0, 12000, 0, 28017),
    Entry("2016", 0, 14000, 0, 12000, 0, 28016),
    Entry("2015", 0, 14000, 0, 12000, 0, 28015)
  ]

  lemma NumeralLength(n: nat)
    requires 1000 <= n < 10000
    ensures |Numeral(n)| == 4
  {
    assert |Numeral(n / 1000)| == 1;
    assert |Numeral(n / 100)| == 2;
    assert |Numeral(n / 10)| == 3;
  }

  /** A text that starts with four digits has them as its year. */
  lemma YearAtStart(w: string, t: string)
    requires |w| == 4 && AllDigits(w)
    ensures ExtractYear(w + t) == Some(DigitsValue(w))
  {
    var s := w + t;
    assert s[0..4] == w;
    assert RunAt(s, 0);
  }

  /** A four-digit year written out, followed by anything, is read back. */
  lemma YearText(n: nat, t: string)
    requires 1000 <= n < 10000
    ensures ExtractYear(Numeral(n) + t) == Some(n)
  {
    NumeralLength(n);
    NumeralValue(n);
    YearAtStart(Numeral(n), t);
  }

  /** A `Year` text with a note after the digits. */
  lemma PartialYearExample()
    ensures ExtractYear("2025(*Jan-June)") == Some(2025)
  {
    var s := "2025(*Jan-June)";
    assert s[..4] == "2025";
    YearDigits(2025, s[..4]);
    YearAtStart(s[..4], s[4..]);
    assert s[..4] + s[4..] == s;
  }

  lemma YearDigits(n: nat, w: string)
    requires 1000 <= n < 10000 && w == Numeral(n)
    ensures |w| == 4 && AllDigits(w) && DigitsValue(w) == n
  {
    NumeralLength(n);
    NumeralValue(n);
  }

  /** A `Year` text of digits only. */
  lemma PlainYearExample()
    ensures ExtractYear("2024") == Some(2024)
  {
    var w := Numeral(2024);
    assert w == "2024";
    YearText(2024, "");
    assert w + "" == w;
  }

  lemma FourDigitsValue(s: string)
    requires |s| == 4 && AllDigits(s)
    ensures DigitsValue(s)
         == 1000 * DigitValue(s[0]) + 100 * DigitValue(s[1]) + 10 * DigitValue(s[2]) + DigitValue(s[3])
  {
    var a, b, c := s[..1], s[..2], s[..3];
    assert c[..2] == b && b[..1] == a && a[..0] == [];
    assert DigitsValue(a) == DigitValue(s[0]);
    assert DigitsValue(b) == 10 * DigitValue(s[0]) + DigitValue(s[1]);
    assert DigitsValue(c) == 100 * DigitValue(s[0]) + 10 * DigitValue(s[1]) + DigitValue(s[2]);
    assert s[..3] == c;
  }

  /** A `Year` text of four digits is read as that number. */
  lemma FourDigitYear(s: string)
    requires |s| == 4 && AllDigits(s)
    ensures ExtractYear(s)
         == Some(1000 * DigitValue(s[0]) + 100 * DigitValue(s[1]) + 10 * DigitValue(s[2]) + DigitValue(s[3]))
  {
    YearAtStart(s, "");
    assert s + "" == s;
    FourDigitsValue(s);
  }

  /** The years of the rows, read as on line 33, count down from `first`. */
  predicate CountsDown(entries: seq<Entry>, first: int)
  {
    forall i :: 0 <= i < |entries| ==> ExtractYear(entries[i].year) == Some(first - i)
  }

  /** The years of the embedded rows count down from 2025 to 2015. */
  lemma EmbeddedYears()
    ensures CountsDown(Embedded, 2025)
  {
    forall i | 0 <= i < |Embedded| ensures ExtractYear(Embedded[i].year) == Some(2025 - i) {
      if i == 0 {
        PartialYearExample();
      } else {
        FourDigitYear(Embedded[i].year);
      }
    }
  }

  lemma {:induction false} KeepRangeAppend(a: seq<Dated>, b: seq<Dated>)
    ensures KeepRange(a + b) == KeepRange(a) + KeepRange(b)
  {
    if |a| == 0 {
      assert a + b == b;
    } else {
      KeepRangeAppend(a[1..], b);
      assert (a + b)[0] == a[0];
      assert (a + b)[1..] == a[1..] + b;
      if InRange(a[0]) {
        calc {
          KeepRange(a + b);
          [a[0]] + KeepRange(a[1..] + b);
          [a[0]] + (KeepRange(a[1..]) + KeepRange(b));
          { AppendAssoc([a[0]], KeepRange(a[1..]), KeepRange(b)); }
          [a[0]] + KeepRange(a[1..]) + KeepRange(b);
        }
      }
    }
  }

  lemma {:induction false} KeepRangeAll(a: seq<Dated>)
    requires forall k :: 0 <= k < |a| ==> InRange(a[k])
    ensures KeepRange(a) == a
  {
    if |a| > 0 {
      KeepRangeAll(a[1..]);
    }
  }

  lemma {:induction false} KeepRangeNone(a: seq<Dated>)
    requires forall k :: 0 <= k < |a| ==> !InRange(a[k])
    ensures KeepRange(a) == []
  {
    if |a| > 0 {
      KeepRangeNone(a[1..]);
    }
  }

  function Reverse(s: seq<Spending>): (r: seq<Spending>)
    ensures |r| == |s|
    ensures forall k :: 0 <= k < |s| ==> r[k] == s[|s| - 1 - k]
  {
    if |s| == 0 then [] else Reverse(s[1..]) + [s[0]]
  }

  predicate YearsFall(s: seq<Spending>)
  {
    forall i, j :: 0 <= i < j < |s| ==> s[i].year > s[j].year
  }

  lemma {:induction false} InsertLast(x: Spending, t: seq<Spending>)
    requires forall k :: 0 <= k < |t| ==> t[k].year < x.year
    ensures InsertByYear(x, t) == t + [x]
  {
    if |t| > 0 {
      InsertLast(x, t[1..]);
      assert t == [t[0]] + t[1..];
    }
  }

  /** Rows whose years fall strictly come out of the sort reversed. */
  lemma {:induction false} SortFalling(s: seq<Spending>)
    requires YearsFall(s)
    ensures SortByYear(s) == Reverse(s)
  {
    if |s| > 0 {
      SortFalling(s[1..]);
      var t := Reverse(s[1..]);
      forall k | 0 <= k < |t| ensures t[k].year < s[0].year {
        assert t[k] == s[1..][|s| - 2 - k];
      }
      InsertLast(s[0], t);
    }
  }

  /** Rows whose years count down from `first` are dated accordingly. */
  lemma {:induction false} DatedCountdown(entries: seq<Entry>, first: int)
    requires CountsDown(entries, first)
    ensures DateAll(entries).Some? && |DateAll(entries).value| == |entries|
    ensures forall i :: 0 <= i < |entries| ==> DateAll(entries).value[i] == Dated(first - i, entries[i])
  {
  }

  /** Dated rows whose years count down from 2025 over eleven rows keep
      the second to the ninth, 2024 down to 2017. */
  lemma {:induction false} KeptCountdown(d: seq<Dated>)
    requires |d| == 11 && forall i :: 0 <= i < |d| ==> d[i].year == 2025 - i
    ensures KeepRange(d) == d[1..9]
  {
    assert d == d[..1] + d[1..9] + d[9..];
    KeepRangeAppend(d[..1] + d[1..9], d[9..]);
    KeepRangeAppend(d[..1], d[1..9]);
    KeepRangeNone(d[..1]);
    KeepRangeAll(d[1..9]);
    KeepRangeNone(d[9..]);
  }

  /** One aggregated row: the year with the funeral and cemetery sums. */
  function Row(e: Entry, year: int): Spending
  {
    Spending(year, e.yearth + e.directors + e.affiliated, e.cemeteryAssociation + e.mountAuburn)
  }

  lemma SpendRow(d: Dated)
    ensures Spend(d) == Row(d.entry, d.year)
  {
    FuneralSpending(d.entry);
    CemeterySpending(d.entry);
  }

  /** `s` holds the rows of `entries`, dated from `first` downwards. */
  predicate RowsDown(s: seq<Spending>, entries: seq<Entry>, first: int)
  {
    |s| == |entries| && forall k :: 0 <= k < |s| ==> s[k] == Row(entries[k], first - k)
  }

  lemma {:induction false} SpentRows(kept: seq<Dated>, entries: seq<Entry>, first: int)
    requires |kept| == |entries|
    requires forall k :: 0 <= k < |kept| ==> kept[k] == Dated(first - k, entries[k])
    ensures RowsDown(SpendAll(kept), entries, first)
    ensures YearsFall(SpendAll(kept))
  {
    forall k | 0 <= k < |kept| ensures SpendAll(kept)[k] == Row(entries[k], first - k) {
      SpentAt(kept, k, entries[k], first - k);
    }
  }

  lemma {:induction false} SpentAt(kept: seq<Dated>, k: nat, e: Entry, year: int)
    requires k < |kept| && kept[k] == Dated(year, e)
    ensures SpendAll(kept)[k] == Row(e, year)
  {
    SpendAllAt(kept, k);
    SpendRow(kept[k]);
  }

  /** Rows dated 2024 downwards, reversed, run from 2017 upwards. */
  lemma {:induction false} ReversedRows(s: seq<Spending>, entries: seq<Entry>)
    requires |s| == 8 && RowsDown(s, entries, 2024)
    ensures forall k :: 0 <= k < 8 ==> Reverse(s)[k] == Row(entries[7 - k], 2017 + k)
  {
  }

  lemma {:induction false} KeptEntries(d: seq<Dated>, entries: seq<Entry>)
    requires |d| == |entries| == 11
    requires forall i :: 0 <= i < |entries| ==> d[i] == Dated(2025 - i, entries[i])
    ensures forall k :: 0 <= k < 8 ==> d[1..9][k] == Dated(2024 - k, entries[1..9][k])
  {
    forall k | 0 <= k < 8 ensures d[1..9][k] == Dated(2024 - k, entries[1..9][k]) {
      assert d[1..9][k] == d[k + 1];
      assert entries[1..9][k] == entries[k + 1];
    }
  }

  /** Eleven rows dated 2025 down to 2015 aggregate to the rows of 2017 to
      2024 in ascending order, each with its two group totals. */
  lemma {:induction false} AggregateCountdown(entries: seq<Entry>)
    requires |entries| == 11 && CountsDown(entries, 2025)
    ensures Aggregate(entries).Some?
    ensures |Aggregate(entries).value| == 8
    ensures forall k :: 0 <= k < 8 ==> Aggregate(entries).value[k] == Row(entries[1..9][7 - k], 2017 + k)
  {
    DatedCountdown(entries, 2025);
    var d := DateAll(entries).value;
    KeptCountdown(d);
    KeptEntries(d, entries);
    var spent := SpendAll(d[1..9]);
    SpentRows(d[1..9], entries[1..9], 2024);
    SortFalling(spent);
    ReversedRows(spent, entries[1..9]);
  }

  lemma {:induction false} AggregateMatches(entries: seq<Entry>, table: seq<Spending>)
    requires |entries| == 11 && CountsDown(entries, 2025)
    requires |table| == 8
    requires forall k :: 0 <= k < 8 ==> Row(entries[1..9][7 - k], 2017 + k) == table[k]
    ensures Aggregate(entries) == Some(table)
  {
    AggregateCountdown(entries);
    assert Aggregate(entries).value == table;
  }

  /** The chart's data: Funeral and Cemetery Group Spending for 2017 to 2024. */
  const EmbeddedTable: seq<Spending> := [
    Spending(2017, 14000, 12000),
    Spending(2018, 10000, 12000),
    Spending(2019, 14000, 12000),
    Spending(2020, 14428, 12000),
    Spending(2021, 28678, 12000),
    Spending(2022, 28000, 66750),
    Spending(2023, 58000, 76910),
    Spending(2024, 92166, 78000)
  ]

  lemma EmbeddedRows()
    ensures forall k :: 0 <= k < 8 ==> Row(Embedded[1..9][7 - k], 2017 + k) == EmbeddedTable[k]
  {
    forall k | 0 <= k < 8 ensures Row(Embedded[1..9][7 - k], 2017 + k) == EmbeddedTable[k] {
      assert Embedded[1..9][7 - k] == Embedded[8 - k];
    }
  }

  /** The aggregated table of the embedded data: eight rows, 2017 to 2024,
      with 2024 at Funeral 92166 and Cemetery 78000. */
  lemma EmbeddedAggregate()
    ensures Aggregate(Embedded) == Some(EmbeddedTable)
  {
    EmbeddedYears();
    EmbeddedRows();
    AggregateMatches(Embedded, EmbeddedTable);
  }
}
