/** Texts as sequences of lines. */
module TextLines {
  /** Where the line that starts at `from` ends: strchr of the newline, or the end of the text. */
  function LineEnd(s: string, from: nat): (e: nat)
    requires from <= |s|
    ensures from <= e <= |s| && (e < |s| ==> s[e] == '\n')
    ensures forall i | from <= i < e :: s[i] != '\n'
    decreases |s| - from
  {
    if from == |s| || s[from] == '\n' then from else LineEnd(s, from + 1)
  }

  predicate OneLine(s: string) {
    forall i | 0 <= i < |s| :: s[i] != '\n'
  }

  predicate AllLines(ls: seq<string>) {
    forall i | 0 <= i < |ls| :: OneLine(ls[i])
  }

  function Lines(s: string): (ls: seq<string>)
    ensures ls != []
    decreases |s|
  {
    var e := LineEnd(s, 0);
    if e == |s| then [s] else [s[..e]] + Lines(s[e + 1..])
  }

  function Join(ls: seq<string>): string
    requires ls != []
  {
    if |ls| == 1 then ls[0] else ls[0] + "\n" + Join(ls[1..])
  }

  lemma {:induction false} LinesOf(s: string)
    ensures Join(Lines(s)) == s && AllLines(Lines(s))
    decreases |s|
  {
    var e := LineEnd(s, 0);
    if e < |s| {
      LinesOf(s[e + 1..]);
      assert s == s[..e] + "\n" + s[e + 1..];
    }
  }

  lemma {:induction false} LinesOfJoin(ls: seq<string>)
    requires ls != [] && AllLines(ls)
    ensures Lines(Join(ls)) == ls
  {
    var s := Join(ls);
    var e := LineEnd(s, 0);
    if |ls| > 1 {
      LinesOfJoin(ls[1..]);
      var n := |ls[0]|;
      assert s[n] == '\n' && s[..n] == ls[0] && s[n + 1..] == Join(ls[1..]);
      assert e == n by {
        assert forall i | 0 <= i < n :: s[i] == ls[0][i];
      }
    } else {
      assert e == |s| && ls == [ls[0]];
    }
  }

  lemma LinesFrom(s: string, from: nat)
    requires from <= |s|
    ensures var e := LineEnd(s, from);
            Lines(s[from..]) == if e == |s| then [s[from..]] else [s[from..e]] + Lines(s[e + 1..])
  {
    var t, e := s[from..], LineEnd(s, from);
    var d := LineEnd(t, 0);
    assert forall i | 0 <= i < |t| :: t[i] == s[from + i];
    assert d == e - from;
    assert e < |s| ==> t[..d] == s[from..e] && t[d + 1..] == s[e + 1..];
  }

  // ---------------------------------------------------------------- reading line by line

  lemma {:induction false} LinesAreShort(s: string, i: nat)
    requires i < |Lines(s)|
    ensures |Lines(s)[i]| <= |s|
    decreases |s|
  {
    var e := LineEnd(s, 0);
    if e < |s| && i > 0 {
      LinesAreShort(s[e + 1..], i - 1);
    }
  }

  /** The lines from position `start`, if there are more. */
  function LinesLeft(text: string, start: nat, more: bool): seq<string>
    requires start <= |text|
  {
    if more then Lines(text[start..]) else []
  }

  lemma NextLine(text: string, start: nat)
    requires start <= |text|
    ensures var ls, end := LinesLeft(text, start, true), LineEnd(text, start);
            && ls != [] && ls[0] == text[start..end]
            && ls[1..] == LinesLeft(text, if end < |text| then end + 1 else start, end < |text|)
  {
    hide Lines;
    LinesFrom(text, start);
    var end := LineEnd(text, start);
    if end < |text| {
      assert ([text[start..end]] + Lines(text[end + 1..]))[1..] == Lines(text[end + 1..]);
    } else {
      assert text[start..end] == text[start..];
    }
  }

  lemma LastLine(text: string, start: nat)
    requires start <= |text|
    ensures |LinesLeft(text, start, true)| == 1 <==> LineEnd(text, start) == |text|
  {
    LinesFrom(text, start);
  }
}
