/** The `left` reformatting of a text, which removes the margin its lines have in common. */
module LeftStrip {
  import opened Syntax
  import opened TextLines
  import TemplateText

  // ---------------------------------------------------------------- the margin

  /** strspn of the spaces. */
  function Spaces(l: string): (n: nat)
    ensures n <= |l| && (forall i | 0 <= i < n :: l[i] == ' ') && (n < |l| ==> l[n] != ' ')
  {
    if l == [] || l[0] != ' ' then 0 else 1 + Spaces(l[1..])
  }

  predicate Blank(l: string) {
    Spaces(l) == |l|
  }

  /** The spaces all lines that are not blank start with, if there is such a line. */
  function Margin(ls: seq<string>): (m: Option<nat>)
    ensures m.None? ==> forall i | 0 <= i < |ls| :: Blank(ls[i])
    ensures m.Some? ==> forall i | 0 <= i < |ls| && !Blank(ls[i]) :: m.value <= Spaces(ls[i])
  {
    if ls == [] then None
    else
      var rest := Margin(ls[1..]);
      if Blank(ls[0]) then rest
      else if rest.None? || Spaces(ls[0]) <= rest.value then Some(Spaces(ls[0]))
      else rest
  }

  lemma {:induction false} MarginReached(ls: seq<string>) returns (i: nat)
    requires Margin(ls).Some?
    ensures i < |ls| && !Blank(ls[i]) && Spaces(ls[i]) == Margin(ls).value
  {
    if !Blank(ls[0]) && Spaces(ls[0]) == Margin(ls).value {
      i := 0;
    } else {
      i := MarginReached(ls[1..]);
      i := i + 1;
    }
  }

  function Stripped(l: string, k: nat): string {
    if Blank(l) then "" else if k <= |l| then l[k..] else ""
  }

  function StripAll(ls: seq<string>, k: nat): (r: seq<string>)
    ensures |r| == |ls| && forall i | 0 <= i < |ls| :: r[i] == Stripped(ls[i], k)
  {
    if ls == [] then [] else [Stripped(ls[0], k)] + StripAll(ls[1..], k)
  }

  /** What `left` means: the margin is taken from every line, and blank lines become empty. */
  function Left(s: string): string {
    var m := Margin(Lines(s));
    Join(StripAll(Lines(s), if m.Some? then m.value else 0))
  }

  lemma SpacesAre(l: string, n: nat)
    requires n <= |l| && (forall i | 0 <= i < n :: l[i] == ' ') && (n < |l| ==> l[n] != ' ')
    ensures Spaces(l) == n
  {
  }

  /** One line of the result. */
  lemma StrippedLine(l: string, k: nat)
    ensures OneLine(l) ==> OneLine(Stripped(l, k))
    ensures Blank(l) ==> Stripped(l, k) == ""
    ensures !Blank(l) && k <= Spaces(l) ==>
              Stripped(l, k) == l[k..] && Spaces(Stripped(l, k)) == Spaces(l) - k && !Blank(Stripped(l, k))
  {
    if !Blank(l) && k <= Spaces(l) {
      SpacesAre(l[k..], Spaces(l) - k);
    }
  }

  lemma LinesOfLeft(s: string, k: nat)
    requires Margin(Lines(s)) == Some(k) || (Margin(Lines(s)).None? && k == 0)
    ensures Lines(Left(s)) == StripAll(Lines(s), k)
  {
    hide Stripped, Margin, Join;
    var ls := Lines(s);
    var r := StripAll(ls, k);
    LinesOf(s);
    forall i | 0 <= i < |r| ensures OneLine(r[i]) {
      assert OneLine(ls[i]);
      StrippedLine(ls[i], k);
    }
    LinesOfJoin(r);
  }

  /** The lines of the result: every line that is not blank loses the same margin, some line then
      starts at the first column, and blank lines are empty. */
  lemma LeftLines(s: string)
    ensures var ls, r, m := Lines(s), Lines(Left(s)), Margin(Lines(s));
            && |r| == |ls|
            && (forall i | 0 <= i < |ls| && Blank(ls[i]) :: r[i] == "")
            && (m.Some? ==> forall i | 0 <= i < |ls| && !Blank(ls[i]) ::
                              m.value <= Spaces(ls[i]) && r[i] == ls[i][m.value..]
                              && Spaces(r[i]) == Spaces(ls[i]) - m.value && !Blank(r[i]))
            && (m.Some? ==> exists i | 0 <= i < |r| :: !Blank(r[i]) && Spaces(r[i]) == 0)
  {
    hide Lines, Left, Stripped, StripAll, Margin, Spaces;
    var ls := Lines(s);
    var m := Margin(ls);
    var k := if m.Some? then m.value else 0;
    LinesOfLeft(s, k);
    forall i | 0 <= i < |ls|
      ensures Blank(ls[i]) ==> Stripped(ls[i], k) == ""
      ensures m.Some? && !Blank(ls[i]) ==>
                m.value <= Spaces(ls[i]) && Stripped(ls[i], k) == ls[i][k..]
                && Spaces(Stripped(ls[i], k)) == Spaces(ls[i]) - k && !Blank(Stripped(ls[i], k))
    {
      StrippedLine(ls[i], k);
    }
    if m.Some? {
      var i := MarginReached(ls);
      assert !Blank(StripAll(ls, k)[i]);
    }
  }

  /** Nothing is left to strip. */
  lemma LeftTwice(s: string)
    ensures Left(Left(s)) == Left(s)
  {
    var ls, r := Lines(s), Lines(Left(s));
    LeftLines(s);
    LinesOf(Left(s));
    var m := Margin(r);
    if m.Some? {
      var j := MarginReached(r);
      assert !Blank(ls[j]);
      var i :| 0 <= i < |r| && !Blank(r[i]) && Spaces(r[i]) == 0;
      assert m.value <= Spaces(r[i]);
    }
    var k := if m.Some? then m.value else 0;
    assert k == 0;
    forall i | 0 <= i < |r| ensures Stripped(r[i], k) == r[i] {
      if Blank(r[i]) {
        assert Blank(ls[i]);
      }
    }
    assert StripAll(r, k) == r;
  }

  // ---------------------------------------------------------------- the two passes

  const INT_MAX := 0x7fff_ffff

  /** The characters of the lines that are not blank, and the number of these lines. */
  function CharCount(ls: seq<string>): nat {
    if ls == [] then 0 else (if Blank(ls[0]) then 0 else |ls[0]|) + CharCount(ls[1..])
  }

  function Filled(ls: seq<string>): nat {
    if ls == [] then 0 else (if Blank(ls[0]) then 0 else 1) + Filled(ls[1..])
  }

  /** The smaller of two margins, where a missing margin is the largest number. */
  function Smaller(n: nat, m: Option<nat>): nat {
    if m.Some? && m.value < n then m.value else n
  }

  /** What the margin takes from the lines. */
  function Removed(ls: seq<string>, k: nat): nat {
    if ls == [] then 0 else (if Blank(ls[0]) then 0 else k) + Removed(ls[1..], k)
  }

  lemma {:induction false} RemovedIs(ls: seq<string>, k: nat)
    ensures Removed(ls, k) == k * Filled(ls)
  {
    if ls != [] {
      RemovedIs(ls[1..], k);
      assert k * (1 + Filled(ls[1..])) == k + k * Filled(ls[1..]);
    }
  }

  lemma {:induction false} ResultSize(ls: seq<string>, k: nat)
    requires ls != [] && forall i | 0 <= i < |ls| && !Blank(ls[i]) :: k <= Spaces(ls[i])
    ensures |Join(StripAll(ls, k))| + 1 + Removed(ls, k) == CharCount(ls) + |ls|
  {
    var r := StripAll(ls, k);
    assert |r[0]| + (if Blank(ls[0]) then 0 else k) == if Blank(ls[0]) then 0 else |ls[0]|;
    if |ls| > 1 {
      ResultSize(ls[1..], k);
      assert r[1..] == StripAll(ls[1..], k);
    } else {
      assert ls[1..] == [];
    }
  }

  lemma {:induction false} FilledIffMargin(ls: seq<string>)
    ensures Filled(ls) == 0 <==> Margin(ls).None?
  {
    if ls != [] {
      FilledIffMargin(ls[1..]);
    }
  }

  lemma LeftSize(text: string, margin: nat)
    requires |text| < INT_MAX && margin == Smaller(INT_MAX, Margin(Lines(text)))
    ensures Margin(Lines(text)) == if margin == INT_MAX then None else Some(margin)
    ensures |Left(text)| + 1 == CharCount(Lines(text)) - margin * Filled(Lines(text)) + |Lines(text)|
  {
    hide Join, StripAll, CharCount, Filled, Removed;
    var ls := Lines(text);
    FilledIffMargin(ls);
    if Margin(ls).Some? {
      var i := MarginReached(ls);
      LinesAreShort(text, i);
      ResultSize(ls, margin);
      RemovedIs(ls, margin);
    } else {
      ResultSize(ls, 0);
      RemovedIs(ls, 0);
      assert margin * Filled(ls) == 0;
    }
  }

  datatype Tally = Tally(lines: nat, blank: nat, chars: nat, margin: nat)

  /** The lines in front of `rest` have been counted. */
  ghost predicate Counted(all: seq<string>, rest: seq<string>, t: Tally) {
    && t.lines + |rest| == |all|
    && t.blank + |rest| - Filled(rest) == |all| - Filled(all)
    && t.chars + CharCount(rest) == CharCount(all)
    && Smaller(t.margin, Margin(rest)) == Smaller(INT_MAX, Margin(all))
  }

  lemma CountLine(all: seq<string>, rest: seq<string>, t: Tally, u: Tally)
    requires rest != [] && Counted(all, rest, t)
    requires u == if Spaces(rest[0]) < |rest[0]|
                  then t.(lines := t.lines + 1, chars := t.chars + |rest[0]|,
                          margin := if Spaces(rest[0]) < t.margin then Spaces(rest[0]) else t.margin)
                  else t.(lines := t.lines + 1, blank := t.blank + 1)
    ensures Counted(all, rest[1..], u)
  {
  }

  /** The first pass. */
  method MeasureLeft(text: string) returns (margin: nat, size: nat)
    requires |text| < INT_MAX
    ensures Margin(Lines(text)) == if margin == INT_MAX then None else Some(margin)
    ensures size == |Left(text)| + 1
  {
    hide Counted, LinesLeft, Lines, Margin, Left, CharCount, Filled, Spaces;
    var lines: nat, blank: nat, chars: nat := 0, 0, 0;
    margin := INT_MAX;
    var start, more := 0, true;
    BeginCount(text);
    while more
      invariant start <= |text|
      invariant Counted(Lines(text), LinesLeft(text, start, more), Tally(lines, blank, chars, margin))
      decreases more, |text| - start
    {
      NextLine(text, start);
      ghost var rest, t := LinesLeft(text, start, more), Tally(lines, blank, chars, margin);
      lines := lines + 1;
      var end := LineEnd(text, start);
      var spaces := Spaces(text[start..end]);
      if spaces < end - start {
        if spaces < margin {
          margin := spaces;
        }
        chars := chars + (end - start);
      } else {
        blank := blank + 1;
      }
      CountLine(Lines(text), rest, t, Tally(lines, blank, chars, margin));
      if end < |text| {
        start := end + 1;
      } else {
        more := false;
      }
    }
    EndCount(text, start, Tally(lines, blank, chars, margin));
    LeftSize(text, margin);
    size := chars - margin * (lines - blank) + lines;
  }

  lemma BeginCount(text: string)
    ensures Counted(Lines(text), LinesLeft(text, 0, true), Tally(0, 0, 0, INT_MAX))
  {
    assert text[0..] == text;
  }

  lemma EndCount(text: string, start: nat, t: Tally)
    requires start <= |text| && Counted(Lines(text), LinesLeft(text, start, false), t)
    ensures t.lines == |Lines(text)| && t.lines - t.blank == Filled(Lines(text)) && t.chars == CharCount(Lines(text))
    ensures t.margin == Smaller(INT_MAX, Margin(Lines(text)))
  {
  }

  /** What is to be written for the lines `ls`: the last one is closed by the terminating zero. */
  function Written(ls: seq<string>, k: nat): string {
    if ls == [] then "" else Join(StripAll(ls, k)) + "\0"
  }

  lemma WrittenLine(ls: seq<string>, k: nat)
    requires ls != []
    ensures Written(ls, k) == Stripped(ls[0], k) + [if |ls| == 1 then '\0' else '\n'] + Written(ls[1..], k)
  {
    assert StripAll(ls, k)[1..] == StripAll(ls[1..], k);
  }

  /** `prefix` has been written, and `rest` is to come. */
  ghost predicate Progress(text: string, prefix: string, rest: seq<string>, k: nat, margin: nat) {
    && prefix + Written(rest, k) == Left(text) + "\0"
    && forall i | 0 <= i < |rest| && !Blank(rest[i]) :: k == margin && k <= Spaces(rest[i])
  }

  lemma BeginWriting(text: string, margin: nat)
    requires Margin(Lines(text)) == if margin == INT_MAX then None else Some(margin)
    ensures Progress(text, "", LinesLeft(text, 0, true), if margin == INT_MAX then 0 else margin, margin)
  {
    assert text[0..] == text;
  }

  lemma WriteLine(text: string, prefix: string, rest: seq<string>, k: nat, margin: nat) returns (next: string)
    requires rest != [] && Progress(text, prefix, rest, k, margin)
    ensures next == prefix + Stripped(rest[0], k) + [if |rest| == 1 then '\0' else '\n']
    ensures Progress(text, next, rest[1..], k, margin) && |next| <= |Left(text)| + 1
    ensures Spaces(rest[0]) < |rest[0]| ==> margin <= |rest[0]| && Stripped(rest[0], k) == rest[0][margin..]
    ensures Spaces(rest[0]) == |rest[0]| ==> Stripped(rest[0], k) == ""
  {
    WrittenLine(rest, k);
    next := prefix + Stripped(rest[0], k) + [if |rest| == 1 then '\0' else '\n'];
    assert next + Written(rest[1..], k) == prefix + Written(rest, k);
  }

  lemma EndWriting(text: string, start: nat, prefix: string, k: nat, margin: nat)
    requires start <= |text| && Progress(text, prefix, LinesLeft(text, start, false), k, margin)
    ensures prefix == Left(text) + "\0"
  {
  }

  /** strleft: the second pass fills the allocated size exactly. */
  method StripLeft(text: string) returns (result: array<char>)
    requires |text| < INT_MAX
    ensures fresh(result) && result[..] == Left(text) + "\0"
  {
    hide Progress, LinesLeft, Lines, Left, Stripped, Margin;
    var margin, size := MeasureLeft(text);
    ghost var k := if margin == INT_MAX then 0 else margin;
    result := new char[size];
    var out, start, more := 0, 0, true;
    BeginWriting(text, margin);
    assert result[..0] == "";
    while more
      invariant fresh(result) && result.Length == size == |Left(text)| + 1
      invariant start <= |text| && out <= size
      invariant Progress(text, result[..out], LinesLeft(text, start, more), k, margin)
      decreases more, |text| - start
    {
      NextLine(text, start);
      ghost var next := WriteLine(text, result[..out], LinesLeft(text, start, more), k, margin);
      var end := LineEnd(text, start);
      if Spaces(text[start..end]) < end - start {
        assert text[start..end][margin..] == text[start + margin..end];
        TemplateText.Copy(text, start + margin, end, result, out);
        out := out + (end - start - margin);
      }
      result[out] := if end < |text| then '\n' else '\0';
      out := out + 1;
      assert result[..out] == result[..out - 1] + [result[out - 1]];
      LastLine(text, start);
      assert result[..out] == next;
      if end < |text| {
        start := end + 1;
      } else {
        more := false;
      }
    }
    EndWriting(text, start, result[..out], k, margin);
    assert result[..] == result[..out];
  }
}
