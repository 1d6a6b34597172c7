/** The number grammar used when a cleaned cell is converted to a number
    (`pd.to_numeric`, charts_and_grapsh.py line 25), restricted to plain decimal
    notation: an optional sign, digits, and an optional fraction. Values are
    exact reals. */
module Decimal {
  import opened Wrappers

  predicate IsDigit(c: char) { '0' <= c <= '9' }

  predicate AllDigits(s: string) { forall k :: 0 <= k < |s| ==> IsDigit(s[k]) }

  predicate HasDigit(s: string) { exists k :: 0 <= k < |s| && IsDigit(s[k]) }

  function DigitValue(c: char): (d: nat)
    requires IsDigit(c)
    ensures d < 10
  {
    c as int - '0' as int
  }

  function DigitChar(d: nat): (c: char)
    requires d < 10
    ensures IsDigit(c) && DigitValue(c) == d
  {
    ('0' as int + d) as char
  }

  function Pow10(n: nat): (p: nat)
    ensures p >= 1
  {
    if n == 0 then 1 else 10 * Pow10(n - 1)
  }

  /** The value of a digit string read most significant digit first. */
  function DigitsValue(s: string): (v: nat)
    requires AllDigits(s)
    ensures v < Pow10(|s|)
  {
    if |s| == 0 then 0
    else
      var v' := DigitsValue(s[..|s| - 1]);
      var d := DigitValue(s[|s| - 1]);
      assert v' + 1 <= Pow10(|s| - 1);
      assert 10 * v' + d < 10 * (v' + 1);
      10 * v' + d
  }

  /** Position of the first `c` in `s`, or `|s|` when there is none. */
  function IndexOf(s: string, c: char): (k: nat)
    ensures k <= |s|
    ensures k < |s| ==> s[k] == c
    ensures forall j :: 0 <= j < k ==> s[j] != c
  {
    if |s| == 0 then 0
    else if s[0] == c then 0
    else 1 + IndexOf(s[1..], c)
  }

  /** The value denoted by `whole.frac`. */
  function FixedValue(whole: string, frac: string): (v: real)
    requires AllDigits(whole) && AllDigits(frac)
    ensures v >= 0.0
  {
    DigitsValue(whole) as real + DigitsValue(frac) as real / Pow10(|frac|) as real
  }

  /** An unsigned decimal: digits with at most one '.', and at least one digit. */
  function ParseUnsigned(s: string): (r: Option<real>)
    ensures r.Some? ==> r.value >= 0.0
    ensures r.Some? ==> HasDigit(s)
    ensures r.Some? ==> forall k :: 0 <= k < |s| ==> IsDigit(s[k]) || s[k] == '.'
  {
    var dot := IndexOf(s, '.');
    var whole := s[..dot];
    var frac := if dot < |s| then s[dot + 1..] else "";
    if AllDigits(whole) && AllDigits(frac) && |whole| + |frac| > 0 then
      assert if |whole| > 0 then IsDigit(s[0]) else IsDigit(s[dot + 1]);
      assert forall k :: 0 <= k < |s| && k != dot ==>
        if k < dot then s[k] == whole[k] else s[k] == frac[k - dot - 1];
      Some(FixedValue(whole, frac))
    else
      None
  }

  /** A decimal with an optional leading '-' or '+'. Anything else (letters,
      currency symbols, inner blanks, a second '.', a bare sign) is rejected. */
  function ParseDecimal(s: string): (r: Option<real>)
    ensures r.Some? ==> HasDigit(s)
    ensures r.Some? ==> forall k :: 0 < k < |s| ==> IsDigit(s[k]) || s[k] == '.'
    ensures r.Some? ==> IsDigit(s[0]) || s[0] in "+-."
    ensures r.Some? && r.value < 0.0 ==> s[0] == '-'
  {
    if |s| > 0 && (s[0] == '-' || s[0] == '+') then
      match ParseUnsigned(s[1..])
      case None => None
      case Some(v) =>
        assert forall k :: 0 < k < |s| ==> s[k] == s[1..][k - 1];
        assert exists k :: 0 <= k < |s| - 1 && IsDigit(s[1..][k]);
        var k :| 0 <= k < |s| - 1 && IsDigit(s[1..][k]);
        assert IsDigit(s[k + 1]);
        if s[0] == '-' then Some(-v) else Some(v)
    else
      ParseUnsigned(s)
  }

  /** The canonical decimal rendering of a natural number. */
  function Numeral(n: nat): (s: string)
    ensures |s| > 0 && AllDigits(s)
  {
    if n < 10 then [DigitChar(n)] else Numeral(n / 10) + [DigitChar(n % 10)]
  }

  lemma {:induction false} NumeralValue(n: nat)
    ensures DigitsValue(Numeral(n)) == n
  {
    if n >= 10 {
      NumeralValue(n / 10);
      var s := Numeral(n);
      assert s[..|s| - 1] == Numeral(n / 10);
    }
  }

  lemma NumeralHasNoDot(n: nat)
    ensures IndexOf(Numeral(n), '.') == |Numeral(n)|
  {
  }

  /** Parsing reads back the rendering of every natural number. */
  lemma ParseNumeral(n: nat)
    ensures ParseDecimal(Numeral(n)) == Some(n as real)
  {
    var s := Numeral(n);
    NumeralHasNoDot(n);
    NumeralValue(n);
    assert s[..|s|] == s;
    assert IsDigit(s[0]);
  }

  /** A leading '-' negates the value. */
  lemma ParseNegativeNumeral(n: nat)
    ensures ParseDecimal("-" + Numeral(n)) == Some(-(n as real))
  {
    var s := "-" + Numeral(n);
    assert s[1..] == Numeral(n);
    ParseNumeral(n);
    assert IsDigit(Numeral(n)[0]);
  }

  /** A whole part, a '.', and any string of fraction digits denote
      whole + fraction / 10^(number of fraction digits). */
  lemma ParseFixedPoint(whole: nat, frac: string)
    requires AllDigits(frac)
    ensures ParseDecimal(Numeral(whole) + (['.'] + frac)) == Some(FixedValue(Numeral(whole), frac))
    ensures FixedValue(Numeral(whole), frac)
         == whole as real + DigitsValue(frac) as real / Pow10(|frac|) as real
  {
    FixedAccepted("", Numeral(whole), frac);
    assert "" + (Numeral(whole) + (['.'] + frac)) == Numeral(whole) + (['.'] + frac);
    FixedNumeral(whole, frac);
  }

  lemma FixedNumeral(whole: nat, frac: string)
    requires AllDigits(frac)
    ensures FixedValue(Numeral(whole), frac)
         == whole as real + DigitsValue(frac) as real / Pow10(|frac|) as real
  {
    NumeralValue(whole);
  }

  lemma AllDigitsAppend(a: string, b: string)
    requires AllDigits(a) && AllDigits(b)
    ensures AllDigits(a + b)
  {
    forall k | 0 <= k < |a + b| ensures IsDigit((a + b)[k]) {
      if k < |a| { assert (a + b)[k] == a[k]; } else { assert (a + b)[k] == b[k - |a|]; }
    }
  }

  lemma ShiftDigit(x: int, p: int, y: int, d: int)
    ensures 10 * (x * p + y) + d == x * (10 * p) + (10 * y + d)
  {
  }

  /** Appending digits shifts the value left by their count. */
  lemma {:induction false} DigitsValueAppend(a: string, b: string)
    requires AllDigits(a) && AllDigits(b)
    ensures AllDigits(a + b)
    ensures DigitsValue(a + b) == DigitsValue(a) * Pow10(|b|) + DigitsValue(b)
  {
    AllDigitsAppend(a, b);
    if |b| == 0 {
      assert a + b == a;
    } else {
      var b' := b[..|b| - 1];
      AllDigitsAppend(a, b');
      var d := DigitValue(b[|b| - 1]);
      calc {
        DigitsValue(a + b);
        { assert (a + b)[..|a + b| - 1] == a + b';
          assert (a + b)[|a + b| - 1] == b[|b| - 1]; }
        10 * DigitsValue(a + b') + d;
        { DigitsValueAppend(a, b'); }
        10 * (DigitsValue(a) * Pow10(|b'|) + DigitsValue(b')) + d;
        { ShiftDigit(DigitsValue(a), Pow10(|b'|), DigitsValue(b'), d); }
        DigitsValue(a) * (10 * Pow10(|b'|)) + (10 * DigitsValue(b') + d);
        DigitsValue(a) * Pow10(|b|) + DigitsValue(b);
      }
    }
  }

  /** The signs the grammar allows in front of the digits. */
  predicate IsSign(sign: string) { sign == "" || sign == "+" || sign == "-" }

  /** The value `v` under `sign`. */
  function Signed(sign: string, v: real): real
  {
    if sign == "-" then -v else v
  }

  /** A digit string with no '.' denotes its digits. */
  lemma {:induction false} UnsignedWhole(w: string)
    requires |w| > 0 && AllDigits(w)
    ensures ParseUnsigned(w) == Some(DigitsValue(w) as real)
  {
    assert w[..|w|] == w;
  }

  /** Digits, one '.', digits denote the whole part plus the fraction. */
  lemma {:induction false} UnsignedFixed(w: string, f: string)
    requires AllDigits(w) && AllDigits(f) && |w| + |f| > 0
    ensures ParseUnsigned(w + (['.'] + f)) == Some(FixedValue(w, f))
  {
    var u := w + (['.'] + f);
    assert u[|w|] == '.';
    assert u[..|w|] == w;
    assert u[|w| + 1..] == f;
  }

  /** A sign in front of an unsigned decimal applies to its value. */
  lemma {:induction false} ParseSigned(sign: string, u: string, v: real)
    requires IsSign(sign) && ParseUnsigned(u) == Some(v)
    ensures ParseDecimal(sign + u) == Some(Signed(sign, v))
  {
    if sign == "" {
      assert sign + u == u;
      if |u| > 0 {
        assert IsDigit(u[0]) || u[0] == '.';
      }
    } else {
      assert (sign + u)[0] == sign[0];
      assert (sign + u)[1..] == u;
    }
  }

  /** Every optionally signed digit string is accepted, with its value. */
  lemma {:induction false} WholeAccepted(sign: string, w: string)
    requires IsSign(sign) && |w| > 0 && AllDigits(w)
    ensures ParseDecimal(sign + w) == Some(Signed(sign, DigitsValue(w) as real))
  {
    UnsignedWhole(w);
    ParseSigned(sign, w, DigitsValue(w) as real);
  }

  /** Every optionally signed `digits.digits` with at least one digit on
      either side of the '.' is accepted, with its value. */
  lemma {:induction false} FixedAccepted(sign: string, w: string, f: string)
    requires IsSign(sign) && AllDigits(w) && AllDigits(f) && |w| + |f| > 0
    ensures ParseDecimal(sign + (w + (['.'] + f))) == Some(Signed(sign, FixedValue(w, f)))
  {
    UnsignedFixed(w, f);
    ParseSigned(sign, w + (['.'] + f), FixedValue(w, f));
  }

  /** What an accepted unsigned decimal is made of. */
  lemma {:induction false} UnsignedOnly(u: string) returns (w: string, f: string, dotted: bool)
    requires ParseUnsigned(u).Some?
    ensures AllDigits(w) && AllDigits(f) && |w| + |f| > 0
    ensures dotted ==> u == w + (['.'] + f)
    ensures !dotted ==> f == "" && u == w
    ensures ParseUnsigned(u) == Some(FixedValue(w, f))
  {
    var dot := IndexOf(u, '.');
    w := u[..dot];
    if dot < |u| {
      f := u[dot + 1..];
      dotted := true;
      assert u == w + ([u[dot]] + f);
    } else {
      f := "";
      dotted := false;
      assert u[..|u|] == u;
    }
  }

  /** Only the grammar is accepted: an accepted string is an optional sign,
      digits, and an optional '.' with more digits, and its value is the
      one that form denotes. */
  lemma {:induction false} GrammarOnly(s: string) returns (sign: string, w: string, f: string, dotted: bool)
    requires ParseDecimal(s).Some?
    ensures IsSign(sign) && AllDigits(w) && AllDigits(f) && |w| + |f| > 0
    ensures dotted ==> s == sign + (w + (['.'] + f))
    ensures !dotted ==> f == "" && s == sign + w
    ensures ParseDecimal(s) == Some(Signed(sign, FixedValue(w, f)))
  {
    var u;
    if |s| > 0 && (s[0] == '-' || s[0] == '+') {
      sign := s[..1];
      u := s[1..];
      assert sign == [s[0]];
      assert s == sign + u;
    } else {
      sign := "";
      u := s;
      assert s == sign + u;
    }
    w, f, dotted := UnsignedOnly(u);
    ParseSigned(sign, u, FixedValue(w, f));
  }

  /** An unsigned decimal has at most one '.'. */
  lemma {:induction false} TwoPointsUnsigned(u: string, i: nat, j: nat)
    requires i < j < |u| && u[i] == '.' && u[j] == '.'
    ensures ParseUnsigned(u) == None
  {
    var dot := IndexOf(u, '.');
    assert dot <= i;
    var frac := u[dot + 1..];
    assert frac[j - dot - 1] == '.';
  }

  /** A second '.' is rejected, wherever the two stand. */
  lemma {:induction false} SecondPointRejected(s: string, i: nat, j: nat)
    requires i < j < |s| && s[i] == '.' && s[j] == '.'
    ensures ParseDecimal(s) == None
  {
    if s[0] == '-' || s[0] == '+' {
      assert s[1..][i - 1] == '.';
      assert s[1..][j - 1] == '.';
      TwoPointsUnsigned(s[1..], i - 1, j - 1);
    } else {
      TwoPointsUnsigned(s, i, j);
    }
  }
}
