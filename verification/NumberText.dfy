/** Numbers survive being turned into text and back. */
module NumberText {
  import opened Syntax
  import opened Values

  predicate Digits(s: string) {
    forall i | 0 <= i < |s| :: IsDigit(s[i])
  }

  // ---------------------------------------------------------------- the digits before the point

  function Whole(s: string, n: real): real
    requires Digits(s)
  {
    if s == [] then n else Whole(s[1..], n * 10.0 + DigitValue(s[0]) as real)
  }

  lemma {:induction false} ScansWhole(s: string, rest: string, n: real)
    requires Digits(s) && (rest == [] || !IsDigit(rest[0]))
    ensures ScanWhole(s + rest, n) == (Whole(s, n), rest)
    decreases s
  {
    if s == [] {
      assert s + rest == rest;
    } else {
      assert (s + rest)[1..] == s[1..] + rest;
      ScansWhole(s[1..], rest, n * 10.0 + DigitValue(s[0]) as real);
    }
  }

  lemma {:induction false} WholeAppend(s: string, c: char, n: real)
    requires Digits(s) && IsDigit(c)
    ensures Digits(s + [c]) && Whole(s + [c], n) == Whole(s, n) * 10.0 + DigitValue(c) as real
    decreases s
  {
    if s == [] {
      assert (s + [c])[1..] == [];
    } else {
      assert (s + [c])[1..] == s[1..] + [c];
      WholeAppend(s[1..], c, n * 10.0 + DigitValue(s[0]) as real);
    }
  }

  lemma {:induction false} DecimalIsWhole(w: nat)
    ensures Digits(Decimal(w)) && Decimal(w) != [] && Whole(Decimal(w), 0.0) == w as real
  {
    if w < 10 {
      WholeAppend([], Digit(w), 0.0);
      assert [] + [Digit(w)] == Decimal(w);
    } else {
      DecimalIsWhole(w / 10);
      WholeAppend(Decimal(w / 10), Digit(w % 10), 0.0);
    }
  }

  // ---------------------------------------------------------------- the digits behind the point

  function Tenth(i: nat): real {
    if i == 0 then 1.0 else Tenth(i - 1) / 10.0
  }

  function Fraction(s: string, i: nat): real
    requires Digits(s)
  {
    if s == [] then 0.0 else DigitValue(s[0]) as real * Tenth(i + 1) + Fraction(s[1..], i + 1)
  }

  lemma {:induction false} ScansFraction(s: string, n: real, i: nat)
    requires Digits(s)
    ensures ScanFraction(s, n, Tenth(i + 1)) == (n + Fraction(s, i), [])
    decreases s
  {
    if s != [] {
      var t, m := Tenth(i + 1), n + DigitValue(s[0]) as real * Tenth(i + 1);
      assert Tenth(i + 2) == t / 10.0;
      ScansFraction(s[1..], m, i + 1);
      assert ScanFraction(s, n, t) == ScanFraction(s[1..], m, t / 10.0);
    }
  }

  lemma {:induction false} FractionAppend(s: string, c: char, i: nat)
    requires Digits(s) && IsDigit(c)
    ensures Digits(s + [c]) && Fraction(s + [c], i) == Fraction(s, i) + DigitValue(c) as real * Tenth(i + |s| + 1)
    decreases s
  {
    if s == [] {
      assert (s + [c])[1..] == [];
    } else {
      assert (s + [c])[1..] == s[1..] + [c];
      FractionAppend(s[1..], c, i + 1);
    }
  }

  function Ten(w: nat): nat {
    if w == 0 then 1 else 10 * Ten(w - 1)
  }

  lemma Shift(f: nat, t: real)
    ensures (f / 10) as real * t + (f % 10) as real * (t / 10.0) == f as real * (t / 10.0)
  {
    assert f as real == (f / 10) as real * 10.0 + (f % 10) as real by {
      assert f == f / 10 * 10 + f % 10;
    }
    var a, b, u := (f / 10) as real, (f % 10) as real, t / 10.0;
    assert t == 10.0 * u;
    assert a * (10.0 * u) + b * u == (a * 10.0 + b) * u;
  }

  lemma PaddedStep(f: nat, w: nat)
    requires w > 0
    ensures var p := Padded(f / 10, w - 1);
            |p| == w - 1 && Digits(p) && Fraction(p, 0) == (f / 10) as real * Tenth(w - 1) ==>
              |Padded(f, w)| == w && Digits(Padded(f, w)) && Fraction(Padded(f, w), 0) == f as real * Tenth(w)
  {
    hide Fraction, Digits;
    var p, d := Padded(f / 10, w - 1), Digit(f % 10);
    if |p| == w - 1 && Digits(p) && Fraction(p, 0) == (f / 10) as real * Tenth(w - 1) {
      FractionAppend(p, d, 0);
      Shift(f, Tenth(w - 1));
    }
  }

  lemma NoFraction()
    ensures Digits([]) && Fraction([], 0) == 0.0
  {
  }

  lemma {:induction false} PaddedIsFraction(f: nat, w: nat)
    requires f < Ten(w)
    ensures |Padded(f, w)| == w && Digits(Padded(f, w)) && Fraction(Padded(f, w), 0) == f as real * Tenth(w)
  {
    hide Fraction, Digits;
    if w > 0 {
      PaddedStep(f, w);
      PaddedIsFraction(f / 10, w - 1);
    } else {
      NoFraction();
    }
  }

  // ---------------------------------------------------------------- stripping

  lemma {:induction false} StripZerosStops(s: string, p: string)
    requires Digits(p) && (s == [] || s[|s| - 1] != '0')
    ensures StripZeros(s + p) == s + StripZeros(p)
    decreases |p|
  {
    if p == [] {
      assert s + p == s && s + StripZeros(p) == s;
    } else {
      assert (s + p)[|s + p| - 1] == p[|p| - 1];
      assert (s + p)[..|s + p| - 1] == s + p[..|p| - 1];
      if p[|p| - 1] == '0' {
        StripZerosStops(s, p[..|p| - 1]);
      }
    }
  }

  lemma {:induction false} StripZerosKeepsFraction(p: string)
    requires Digits(p)
    ensures Digits(StripZeros(p)) && Fraction(StripZeros(p), 0) == Fraction(p, 0)
    decreases |p|
  {
    if p != [] && p[|p| - 1] == '0' {
      var q := p[..|p| - 1];
      StripZerosKeepsFraction(q);
      FractionAppend(q, '0', 0);
      assert q + ['0'] == p;
    }
  }

  // ---------------------------------------------------------------- the round trip

  function Spelled(d: string, p: string): string {
    if p == [] then d else d + "." + p
  }

  lemma SpelledScans(d: string, p: string)
    requires Digits(d) && d != [] && Digits(p)
    ensures var (n, rest) := ScanWhole(Spelled(d, p), 0.0);
            && n == Whole(d, 0.0)
            && if p == [] then rest == [] else
                 rest != [] && rest[0] == '.' && ScanFraction(rest[1..], n, 0.1) == (n + Fraction(p, 0), [])
  {
    if p == [] {
      ScansWhole(d, [], 0.0);
      assert d + [] == d;
    } else {
      ScansWhole(d, "." + p, 0.0);
      assert d + "." + p == d + ("." + p);
      assert ("." + p)[1..] == p;
      ScansFraction(p, Whole(d, 0.0), 0);
      assert Tenth(1) == Tenth(0) / 10.0;
    }
  }

  /** The printed text is an optional sign, the whole part and what is left of the decimals. */
  lemma PrintedIs(negative: bool, m: nat)
    ensures var d, p := Decimal(m / BILLION), StripZeros(Padded(m % BILLION, 9));
            PrintBillionths(negative, m) == (if negative then "-" else "") + Spelled(d, p)
    ensures Digits(StripZeros(Padded(m % BILLION, 9)))
  {
    var sign := if negative then "-" else "";
    var d, q := Decimal(m / BILLION), Padded(m % BILLION, 9);
    var p := StripZeros(q);
    BillionIsTen();
    PaddedIsFraction(m % BILLION, 9);
    StripZerosKeepsFraction(q);
    StripZerosStops(sign + d + ".", q);
    var t := sign + d + "." + p;
    assert StripZeros(sign + d + "." + q) == t;
    if p == [] {
      assert t[|t| - 1] == '.' && t[..|t| - 1] == sign + d;
    } else {
      assert t[|t| - 1] == p[|p| - 1];
      assert sign + d + "." + p == sign + (d + "." + p);
    }
  }

  lemma BillionIsTen()
    ensures Ten(9) == BILLION
  {
    assert Ten(1) == 10 && Ten(2) == 100 && Ten(3) == 1000 && Ten(4) == 10000 && Ten(5) == 100000;
    assert Ten(6) == 1000000 && Ten(7) == 10000000 && Ten(8) == 100000000;
  }

  lemma TenthIsBillionth()
    ensures Tenth(9) == 1.0 / BILLION as real
  {
    assert Tenth(1) == 0.1 && Tenth(2) == 0.01 && Tenth(3) == 0.001 && Tenth(4) == 0.0001;
    assert Tenth(5) == 0.00001 && Tenth(6) == 0.000001 && Tenth(7) == 0.0000001 && Tenth(8) == 0.00000001;
  }

  lemma PartsAddUp(m: nat)
    ensures (m / BILLION) as real + (m % BILLION) as real * Tenth(9) == m as real / BILLION as real
  {
    TenthIsBillionth();
    assert m == m / BILLION * BILLION + m % BILLION;
    assert m as real == (m / BILLION) as real * BILLION as real + (m % BILLION) as real;
  }

  lemma SignedScans(negative: bool, d: string, p: string)
    requires Digits(d) && d != [] && Digits(p)
    ensures ScanNumber((if negative then "-" else "") + Spelled(d, p))
         == Some((if negative then -1.0 else 1.0) * (Whole(d, 0.0) + Fraction(p, 0)))
  {
    hide ScanWhole, ScanFraction, Whole;
    var t := Spelled(d, p);
    SpelledScans(d, p);
    assert t != [] && t[0] == d[0] && IsDigit(t[0]);
    if negative {
      assert ("-" + t)[1..] == t;
    } else {
      assert "" + t == t;
    }
  }

  // ---------------------------------------------------------------- which texts are numbers

  /** `s` is an optional sign, digits, and optionally a point with digits; either may have no digit. */
  predicate IsSpelling(s: string, sign: string, whole: string, point: string, part: string) {
    && sign in {"", "-", "+"} && point in {"", "."} && (point == "" ==> part == "")
    && Digits(whole) && Digits(part) && s == sign + (whole + (point + part))
  }

  /** Such a text is the number its digits spell. */
  lemma {:induction false} SpellingScans(s: string, sign: string, whole: string, point: string, part: string)
    requires IsSpelling(s, sign, whole, point, part)
    ensures ScanNumber(s) == Some((if sign == "-" then -1.0 else 1.0) * (Whole(whole, 0.0) + Fraction(part, 0)))
  {
    hide ScanWhole, ScanFraction, Whole, Fraction;
    var rest := point + part;
    ScansWhole(whole, rest, 0.0);
    ScansFraction(part, Whole(whole, 0.0), 0);
    assert Tenth(1) == Tenth(0) / 10.0;
    NoFraction();
    if sign == "" {
      assert s == whole + rest;
      assert s != [] ==> s[0] == if whole != [] then whole[0] else rest[0];
    } else {
      assert s[0] == sign[0] && s[1..] == whole + rest;
    }
    assert point == "." ==> rest[0] == '.' && rest[1..] == part;
    assert point == "" ==> rest == [] && part == [];
  }

  /** Digits before the point count by tens, those behind it by tenths. */
  lemma {:induction false} DigitsCount(s: string, c: char)
    requires Digits(s) && '0' <= c <= '9'
    ensures Digits(s + [c]) && Whole(s + [c], 0.0) == 10.0 * Whole(s, 0.0) + (c as int - '0' as int) as real
    ensures Fraction(s + [c], 0) == Fraction(s, 0) + (c as int - '0' as int) as real * Tenth(|s| + 1)
    ensures Whole("", 0.0) == 0.0 && Fraction("", 0) == 0.0
    ensures Tenth(0) == 1.0 && Tenth(|s| + 1) * 10.0 == Tenth(|s|)
  {
    NoFraction();
    WholeAppend(s, c, 0.0);
    FractionAppend(s, c, 0);
    hide Fraction, Digits;
  }

  /** And no other text is a number. */
  lemma {:induction false} NumberIsSpelling(s: string)
      returns (sign: string, whole: string, point: string, part: string)
    requires ScanNumber(s).Some?
    ensures IsSpelling(s, sign, whole, point, part)
  {
    hide ScanFraction, Whole;
    sign := if s != [] && (s[0] == '-' || s[0] == '+') then [s[0]] else "";
    var tail := s[|sign|..];
    var rest;
    whole, rest := WholeSplits(tail, 0.0);
    ScansWhole(whole, rest, 0.0);
    hide ScanWhole;
    assert s == sign + tail;
    if rest != [] {
      point, part := ".", rest[1..];
      FractionIsDigits(part, Whole(whole, 0.0), 0.1);
      assert rest == point + part;
    } else {
      point, part := "", "";
      assert rest == point + part;
    }
  }

  lemma {:induction false} WholeSplits(s: string, n: real) returns (d: string, rest: string)
    ensures Digits(d) && (rest == [] || !IsDigit(rest[0])) && s == d + rest
    decreases |s|
  {
    if s == [] || !IsDigit(s[0]) {
      d, rest := [], s;
    } else {
      d, rest := WholeSplits(s[1..], n);
      d := [s[0]] + d;
    }
  }

  lemma {:induction false} FractionIsDigits(s: string, n: real, place: real)
    requires ScanFraction(s, n, place).1 == []
    ensures Digits(s)
    decreases |s|
  {
    if s != [] {
      FractionIsDigits(s[1..], n + DigitValue(s[0]) as real * place, place / 10.0);
      forall i | 0 <= i < |s| ensures IsDigit(s[i]) { assert i > 0 ==> s[i] == s[1..][i - 1]; }
    }
  }

  /** Scanning what was printed gives the number of billionths back. */
  lemma PrintedScans(negative: bool, m: nat)
    ensures PrintBillionths(negative, m) != []
    ensures ScanNumber(PrintBillionths(negative, m))
         == Some((if negative then -1.0 else 1.0) * (m as real / BILLION as real))
  {
    hide ScanNumber, PrintBillionths, Padded, Decimal, StripZeros, Whole, Fraction, Tenth, Ten;
    var d, q := Decimal(m / BILLION), Padded(m % BILLION, 9);
    PrintedIs(negative, m);
    DecimalIsWhole(m / BILLION);
    BillionIsTen();
    PaddedIsFraction(m % BILLION, 9);
    StripZerosKeepsFraction(q);
    PartsAddUp(m);
    SignedScans(negative, d, StripZeros(q));
    assert Whole(d, 0.0) + Fraction(StripZeros(q), 0) == m as real / BILLION as real;
    assert PrintBillionths(negative, m) == (if negative then "-" else "") + Spelled(d, StripZeros(q));
  }

  lemma RoundIsNear(x: real)
    requires x >= 0.0
    ensures Round(x) >= 0 && -0.5 <= Round(x) as real - x <= 0.5
  {
    var r := Round(x);
    assert r as real <= x + 0.5 < (r + 1) as real;
  }

  lemma RoundKeepsWhole(k: nat)
    ensures Round(k as real) == k
  {
    var r := Round(k as real);
    assert r as real <= k as real + 0.5 < (r + 1) as real;
  }

  lemma Scaled(n: real, m: nat)
    ensures (m as real / BILLION as real - n) * BILLION as real == m as real - n * BILLION as real
    ensures (-(m as real / BILLION as real) - n) * BILLION as real == -(m as real - -n * BILLION as real)
  {
  }

  /** Every number comes back within half a billionth, as a number, and exactly if it is a multiple of
      a billionth. */
  lemma NumberRoundTrip(n: real)
    ensures var v := NumberValue(UnknownText(FormatNumber(n)));
            && v.vtype == NumberType
            && -0.5 <= (v.n - n) * BILLION as real <= 0.5
            && (n * BILLION as real == (n * BILLION as real).Floor as real ==> v.n == n)
  {
    hide ScanNumber, PrintBillionths;
    RoundIsNear(Magnitude(n) * BILLION as real);
    var m := Round(Magnitude(n) * BILLION as real);
    PrintedScans(n < 0.0, m);
    Scaled(n, m);
    var k := (n * BILLION as real).Floor;
    if n * BILLION as real == k as real {
      assert Magnitude(n) * BILLION as real == (if n < 0.0 then -k else k) as real;
      RoundKeepsWhole(if n < 0.0 then -k else k);
    }
  }
}
