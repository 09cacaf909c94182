/** Values of GSL expressions and their conversion between text and numbers. */
module Values {
  import opened Syntax

  datatype ValueType = UndefinedType | StringType | NumberType | PointerType | UnknownType

  /** A value: its type, its text if it has been given or computed, its number, its item. */
  datatype Value = Value(vtype: ValueType, s: Option<string>, n: real, item: nat)

  /** The text the class of an item gives for it. */
  type ItemText = nat -> string

  const UNDEFINED := Value(UndefinedType, None, 0.0, 0)

  function TextOf(s: string): Value {
    Value(StringType, Some(s), 0.0, 0)
  }

  function UnknownText(s: string): Value {
    Value(UnknownType, Some(s), 0.0, 0)
  }

  function NumberOf(n: real): Value {
    Value(NumberType, None, n, 0)
  }

  // ---------------------------------------------------------------- scanning numbers

  predicate IsDigit(c: char) {
    '0' <= c <= '9'
  }

  function DigitValue(c: char): nat
    requires IsDigit(c)
  {
    c as int - '0' as int
  }

  /** The loop over the digits before the point: what is read and what is left. */
  function ScanWhole(s: string, n: real): (real, string) {
    if s == [] || !IsDigit(s[0]) then (n, s)
    else ScanWhole(s[1..], n * 10.0 + DigitValue(s[0]) as real)
  }

  /** The loop over the digits behind the point. */
  function ScanFraction(s: string, n: real, place: real): (real, string)
    decreases |s|
  {
    if s == [] || !IsDigit(s[0]) then (n, s)
    else ScanFraction(s[1..], n + DigitValue(s[0]) as real * place, place / 10.0)
  }

  /** The number a text spells: an optional sign, digits, and optionally a point and digits. */
  function ScanNumber(s: string): Option<real> {
    var signed := s != [] && (s[0] == '-' || s[0] == '+');
    var sign := if s != [] && s[0] == '-' then -1.0 else 1.0;
    var (n, rest) := ScanWhole(if signed then s[1..] else s, 0.0);
    var (m, left) := if rest != [] && rest[0] == '.' then ScanFraction(rest[1..], n, 0.1) else (n, rest);
    if left == [] then Some(sign * m) else None
  }

  /** number_value: classify the text as a number or a string. */
  function NumberValue(v: Value): Value {
    if v.vtype == NumberType || v.s.None? || v.s.value == [] then v
    else
      match ScanNumber(v.s.value)
      case Some(n) => v.(vtype := NumberType, n := n)
      case None => v.(vtype := StringType)
  }

  /** Conversion to an integer, towards zero. */
  function Trunc(n: real): int {
    if n < 0.0 then -(-n).Floor else n.Floor
  }

  /** The number number_value returns. */
  function NumberIn(v: Value): real {
    if NumberValue(v).vtype == NumberType then NumberValue(v).n else 0.0
  }

  // ---------------------------------------------------------------- printing numbers

  const BILLION := 1_000_000_000

  function Digit(d: nat): char
    requires d < 10
    ensures IsDigit(Digit(d)) && DigitValue(Digit(d)) == d
  {
    ('0' as int + d) as char
  }

  function Decimal(n: nat): string {
    if n < 10 then [Digit(n)] else Decimal(n / 10) + [Digit(n % 10)]
  }

  /** Exactly `w` digits. */
  function Padded(n: nat, w: nat): string {
    if w == 0 then [] else Padded(n / 10, w - 1) + [Digit(n % 10)]
  }

  function StripZeros(s: string): string {
    if s != [] && s[|s| - 1] == '0' then StripZeros(s[..|s| - 1]) else s
  }

  function StripPoint(s: string): string {
    if s != [] && s[|s| - 1] == '.' then s[..|s| - 1] else s
  }

  /** A number of billionths, printed with nine decimals, without trailing zeros or bare point. */
  function PrintBillionths(negative: bool, m: nat): string {
    StripPoint(StripZeros((if negative then "-" else "") + Decimal(m / BILLION) + "." + Padded(m % BILLION, 9)))
  }

  function Magnitude(n: real): real {
    if n < 0.0 then -n else n
  }

  function Round(n: real): int {
    (n + 0.5).Floor
  }

  /** The text of a number: `%.9f`, stripped. */
  function FormatNumber(n: real): string {
    PrintBillionths(n < 0.0, Round(Magnitude(n) * BILLION as real))
  }

  // ---------------------------------------------------------------- texts

  /** string_value: the text of a value; an item's text comes from its class. */
  function StringOf(v: Value, itemText: ItemText): string {
    if v.s.Some? then v.s.value
    else if v.vtype == NumberType then FormatNumber(v.n)
    else if v.vtype == PointerType then itemText(v.item)
    else ""
  }

  function CompareText(a: string, b: string): int {
    if a == [] && b == [] then 0
    else if a == [] then -1
    else if b == [] then 1
    else if a[0] != b[0] then a[0] as int - b[0] as int
    else CompareText(a[1..], b[1..])
  }

  /** `a` comes before `b`: it is the beginning of `b`, or has the smaller character where they first differ. */
  ghost predicate Precedes(a: string, b: string) {
    exists k :: DiffersAt(a, b, k)
  }

  predicate DiffersAt(a: string, b: string, k: nat) {
    k <= |a| && k < |b| && a[..k] == b[..k] && (k < |a| ==> a[k] < b[k])
  }

  lemma {:induction false} CompareIsOrder(a: string, b: string)
    ensures CompareText(a, b) < 0 <==> Precedes(a, b)
    ensures CompareText(a, b) == 0 <==> a == b
    ensures CompareText(a, b) > 0 <==> Precedes(b, a)
  {
    if a == [] || b == [] || a[0] != b[0] {
      assert DiffersAt(a, b, 0) <==> b != [] && (a != [] ==> a[0] < b[0]);
      assert DiffersAt(b, a, 0) <==> a != [] && (b != [] ==> b[0] < a[0]);
      OnlyAtStart(a, b);
      OnlyAtStart(b, a);
    } else {
      CompareIsOrder(a[1..], b[1..]);
      PrecedesInTail(a, b);
      PrecedesInTail(b, a);
      assert a == b <==> a[1..] == b[1..] by {
        assert a == [a[0]] + a[1..] && b == [b[0]] + b[1..];
      }
    }
  }

  lemma {:induction false} OnlyAtStart(a: string, b: string)
    requires a == [] || b == [] || a[0] != b[0]
    ensures Precedes(a, b) <==> DiffersAt(a, b, 0)
  {
    forall k: nat | k > 0 ensures !DiffersAt(a, b, k) {
      assert k <= |a| && k < |b| ==> a[..k][0] == a[0] && b[..k][0] == b[0];
    }
  }

  lemma {:induction false} PrecedesInTail(a: string, b: string)
    requires a != [] && b != [] && a[0] == b[0]
    ensures Precedes(a, b) <==> Precedes(a[1..], b[1..])
  {
    forall k: nat ensures DiffersAt(a[1..], b[1..], k) <==> DiffersAt(a, b, k + 1) {
      if k < |a| && k < |b| {
        assert a[..k + 1] == [a[0]] + a[1..][..k] && b[..k + 1] == [b[0]] + b[1..][..k];
      }
    }
    if Precedes(a, b) {
      var k: nat :| DiffersAt(a, b, k);
      assert k > 0 && DiffersAt(a[1..], b[1..], k - 1);
    }
    if Precedes(a[1..], b[1..]) {
      var k: nat :| DiffersAt(a[1..], b[1..], k);
      assert DiffersAt(a, b, k + 1);
    }
  }
}
