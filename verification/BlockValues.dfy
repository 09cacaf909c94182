/** Block values: a text as a table of pointers to its lines, followed by the lines themselves in the
    same piece of memory, each closed by a zero. */
module BlockValues {
  import opened Syntax
  import opened TextLines
  import TemplateText

  /** The size of a pointer. */
  const WORD := 8

  // ---------------------------------------------------------------- lines in memory

  predicate Plain(l: string) {
    forall i | 0 <= i < |l| :: l[i] != '\0'
  }

  predicate AllPlain(ls: seq<string>) {
    forall i | 0 <= i < |ls| :: Plain(ls[i])
  }

  function Terminated(ls: seq<string>): string {
    if ls == [] then "" else ls[0] + "\0" + Terminated(ls[1..])
  }

  /** The addresses of the lines when the first is at `at`, and the closing null pointer. */
  function Pointers(ls: seq<string>, at: nat): (p: seq<Option<nat>>)
    ensures |p| == |ls| + 1
  {
    if ls == [] then [None] else [Some(at)] + Pointers(ls[1..], at + |ls[0]| + 1)
  }

  /** strlen */
  function Length(text: string, at: nat): (n: nat)
    requires at <= |text|
    ensures at + n <= |text| && Plain(text[at..at + n]) && (at + n < |text| ==> text[at + n] == '\0')
    decreases |text| - at
  {
    if at == |text| || text[at] == '\0' then 0
    else
      var n := Length(text, at + 1);
      assert text[at..at + 1 + n] == [text[at]] + text[at + 1..at + 1 + n];
      n + 1
  }

  /** A block in memory at address `base`. */
  predicate IsBlock(ls: seq<string>, base: nat, table: seq<Option<nat>>, text: string) {
    table == Pointers(ls, base + (|ls| + 1) * WORD) && text == Terminated(ls)
  }

  lemma {:induction false} TerminatedSplit(ls: seq<string>, i: nat)
    requires i <= |ls|
    ensures Terminated(ls) == Terminated(ls[..i]) + Terminated(ls[i..])
  {
    if i == 0 {
      assert ls[0..] == ls;
    } else {
      TerminatedSplit(ls[1..], i - 1);
      assert ls[..i][1..] == ls[1..][..i - 1];
    }
  }

  lemma {:induction false} PointersAt(ls: seq<string>, at: nat, i: nat)
    requires i < |ls|
    ensures Pointers(ls, at)[i] == Some(at + |Terminated(ls[..i])|) && Pointers(ls, at)[|ls|] == None
  {
    if i > 0 {
      PointersAt(ls[1..], at + |ls[0]| + 1, i - 1);
      assert ls[..i][1..] == ls[1..][..i - 1];
    } else if |ls| > 1 {
      PointersAt(ls[1..], at + |ls[0]| + 1, 0);
    }
  }

  lemma {:induction false} LengthIs(text: string, at: nat, l: string)
    requires Plain(l) && at + |l| < |text| && text[at..at + |l|] == l && text[at + |l|] == '\0'
    ensures Length(text, at) == |l|
    decreases |l|
  {
    if l != [] {
      assert text[at] == l[0];
      assert text[at + 1..at + |l|] == l[1..];
      LengthIs(text, at + 1, l[1..]);
    }
  }

  lemma LineInText(ls: seq<string>, i: nat)
    requires i < |ls|
    ensures var text, at := Terminated(ls), |Terminated(ls[..i])|;
            && at + |ls[i]| < |text| && text[at..at + |ls[i]|] == ls[i] && text[at + |ls[i]|] == '\0'
            && at + |ls[i]| + 1 == |Terminated(ls[..i + 1])|
  {
    TerminatedSplit(ls, i);
    TerminatedSplit(ls[..i + 1], i);
    assert ls[..i + 1][..i] == ls[..i] && ls[..i + 1][i..] == [ls[i]];
    assert Terminated([ls[i]]) == ls[i] + "\0" + Terminated([]);
    assert Terminated(ls[i..]) == ls[i] + "\0" + Terminated(ls[i..][1..]);
  }

  /** Reading a line through its pointer gives the line, and the next one lies behind its zero. */
  lemma ReadLine(ls: seq<string>, base: nat, table: seq<Option<nat>>, text: string, i: nat)
    requires IsBlock(ls, base, table, text) && i < |ls| && AllPlain(ls)
    ensures var at := |Terminated(ls[..i])|;
            && table[i] == Some(base + (|ls| + 1) * WORD + at) && table[|ls|] == None
            && at + |ls[i]| < |text| && Length(text, at) == |ls[i]| && text[at..at + |ls[i]|] == ls[i]
            && at + |ls[i]| + 1 == |Terminated(ls[..i + 1])|
  {
    hide Terminated, Pointers, Length;
    PointersAt(ls, base + (|ls| + 1) * WORD, i);
    LineInText(ls, i);
    LengthIs(text, |Terminated(ls[..i])|, ls[i]);
  }

  // ---------------------------------------------------------------- the text of a block

  function Width(ls: seq<string>): (w: nat)
    ensures forall i | 0 <= i < |ls| :: |ls[i]| <= w
  {
    if ls == [] then 0 else var w := Width(ls[1..]); if |ls[0]| > w then |ls[0]| else w
  }

  function Pad(l: string, w: nat): string {
    if |l| <= w then l + TemplateText.Blanks(w - |l|) else l
  }

  lemma {:induction false} WidthReached(ls: seq<string>) returns (i: nat)
    requires Width(ls) > 0
    ensures i < |ls| && |ls[i]| == Width(ls)
    decreases |ls|
  {
    i := 0;
    if |ls[0]| != Width(ls) {
      i := WidthReached(ls[1..]);
      i := i + 1;
    }
  }

  /** The padded lines are the lines with blanks behind them, all as long as the longest line, which stays as it is. */
  lemma {:induction false} PaddedMeans(ls: seq<string>)
    ensures |PadAll(ls, Width(ls))| == |ls|
    ensures forall i | 0 <= i < |ls| ::
              && ls[i] <= PadAll(ls, Width(ls))[i] && |PadAll(ls, Width(ls))[i]| == Width(ls)
              && forall k | |ls[i]| <= k < Width(ls) :: PadAll(ls, Width(ls))[i][k] == ' '
    ensures ls != [] ==> exists i | 0 <= i < |ls| :: |ls[i]| == Width(ls) && PadAll(ls, Width(ls))[i] == ls[i]
  {
    hide Width;
    var i := 0;
    if Width(ls) > 0 { i := WidthReached(ls); }
    assert ls != [] ==> PadAll(ls, Width(ls))[i] == ls[i];
  }

  function PadAll(ls: seq<string>, w: nat): (r: seq<string>)
    ensures |r| == |ls| && forall i | 0 <= i < |ls| :: r[i] == Pad(ls[i], w)
  {
    if ls == [] then [] else [Pad(ls[0], w)] + PadAll(ls[1..], w)
  }

  /** string_value of a block: its lines, padded to the longest. */
  function BlockText(ls: seq<string>): string
    requires ls != []
  {
    Join(PadAll(ls, Width(ls)))
  }

  lemma {:induction false} WidthPadded(ls: seq<string>, w: nat)
    requires ls != [] && Width(ls) <= w
    ensures Width(PadAll(ls, w)) == w
  {
    assert |Pad(ls[0], w)| == w;
    if |ls| > 1 {
      WidthPadded(ls[1..], w);
    }
    assert PadAll(ls, w)[1..] == PadAll(ls[1..], w);
  }

  lemma PadTwice(ls: seq<string>, w: nat)
    requires Width(ls) <= w
    ensures PadAll(PadAll(ls, w), w) == PadAll(ls, w)
  {
    forall i | 0 <= i < |ls| ensures Pad(Pad(ls[i], w), w) == Pad(ls[i], w) {
      assert |Pad(ls[i], w)| == w && TemplateText.Blanks(0) == "";
      assert Pad(ls[i], w) + "" == Pad(ls[i], w);
    }
  }

  /** Splitting the text of a block gives its lines, padded; doing it again changes nothing. */
  lemma BlockTextSplits(ls: seq<string>)
    requires ls != [] && AllLines(ls)
    ensures Lines(BlockText(ls)) == PadAll(ls, Width(ls))
    ensures BlockText(Lines(BlockText(ls))) == BlockText(ls)
  {
    var r := PadAll(ls, Width(ls));
    forall i | 0 <= i < |r| ensures OneLine(r[i]) {
      assert OneLine(ls[i]);
    }
    LinesOfJoin(r);
    WidthPadded(ls, Width(ls));
    PadTwice(ls, Width(ls));
  }

  // ---------------------------------------------------------------- construct_block

  /** The lines in front of `rest` have been written: `table` and `text` hold what is there of them. */
  ghost predicate Building(ls: seq<string>, rest: seq<string>, origin: nat, table: seq<Option<nat>>, text: string) {
    && text + Terminated(rest) == Terminated(ls)
    && table + Pointers(rest, origin + |text|) == Pointers(ls, origin)
  }

  lemma BuildLine(ls: seq<string>, rest: seq<string>, origin: nat, table: seq<Option<nat>>, text: string)
    requires rest != [] && Building(ls, rest, origin, table, text)
    ensures Building(ls, rest[1..], origin, table + [Some(origin + |text|)], text + rest[0] + "\0")
    ensures |table| + |rest| == |ls| && |text| + |rest[0]| + 1 <= |Terminated(ls)|
  {
    assert text + rest[0] + "\0" + Terminated(rest[1..]) == text + Terminated(rest);
    var p := Pointers(rest[1..], origin + |text| + |rest[0]| + 1);
    assert Pointers(rest, origin + |text|) == [Some(origin + |text|)] + p;
    assert table + [Some(origin + |text|)] + p == table + ([Some(origin + |text|)] + p);
  }

  lemma BuildStart(s: string, origin: nat)
    ensures Building(Lines(s), LinesLeft(s, 0, true), origin, [], "")
  {
    assert s[0..] == s;
  }

  lemma BuildEnd(ls: seq<string>, origin: nat, table: seq<Option<nat>>, text: string)
    requires Building(ls, [], origin, table, text)
    ensures table + [None] == Pointers(ls, origin) && text == Terminated(ls)
  {
  }

  /** The first pass: the number of lines and the size of their texts. */
  method MeasureBlock(s: string) returns (lines: nat, size: nat)
    ensures lines == |Lines(s)| && size == |Terminated(Lines(s))|
  {
    hide Lines;
    lines, size := 0, 0;
    var start: nat, more := 0, true;
    assert s[0..] == s;
    while more
      invariant start <= |s|
      invariant lines + |LinesLeft(s, start, more)| == |Lines(s)|
      invariant size + |Terminated(LinesLeft(s, start, more))| == |Terminated(Lines(s))|
      decreases more, |s| - start
    {
      NextLine(s, start);
      lines := lines + 1;
      var end := LineEnd(s, start);
      size := size + (end - start) + 1;
      if end < |s| {
        start := end + 1;
      } else {
        more := false;
      }
    }
  }

  /** The second pass fills the table and the texts exactly. */
  method ConstructBlock(s: string, base: nat) returns (table: array<Option<nat>>, text: array<char>)
    ensures fresh(table) && fresh(text)
    ensures IsBlock(Lines(s), base, table[..], text[..])
  {
    hide Lines, LinesLeft, Building, Terminated, Pointers;
    var lines, size := MeasureBlock(s);
    table, text := new Option<nat>[lines + 1], new char[size];
    var origin := base + (lines + 1) * WORD;
    var entry: nat, out: nat, start: nat, more := 0, 0, 0, true;
    BuildStart(s, origin);
    assert table[..0] == [] && text[..0] == "";
    while more
      invariant fresh(table) && fresh(text) && table.Length == lines + 1 && text.Length == size
      invariant start <= |s| && entry <= lines && out <= size
      invariant Building(Lines(s), LinesLeft(s, start, more), origin, table[..entry], text[..out])
      decreases more, |s| - start
    {
      NextLine(s, start);
      BuildLine(Lines(s), LinesLeft(s, start, more), origin, table[..entry], text[..out]);
      var end := LineEnd(s, start);
      TemplateText.Copy(s, start, end, text, out);
      text[out + (end - start)] := '\0';
      table[entry] := Some(origin + out);
      entry := entry + 1;
      out := out + (end - start) + 1;
      assert table[..entry] == table[..entry - 1] + [table[entry - 1]];
      assert text[..out] == text[..out - 1] + [text[out - 1]];
      if end < |s| {
        start := end + 1;
      } else {
        more := false;
      }
    }
    BuildFull(s, start, origin, table[..entry], text[..out]);
    table[entry] := None;
    assert table[..] == table[..entry] + [None] && text[..] == text[..out];
  }

  lemma BuildFull(s: string, start: nat, origin: nat, table: seq<Option<nat>>, text: string)
    requires start <= |s| && Building(Lines(s), LinesLeft(s, start, false), origin, table, text)
    ensures |table| == |Lines(s)| && |text| == |Terminated(Lines(s))|
    ensures table + [None] == Pointers(Lines(s), origin) && text == Terminated(Lines(s))
  {
    BuildEnd(Lines(s), origin, table, text);
  }

  // ---------------------------------------------------------------- copy_value_

  /** The copy's pointers are rebuilt by walking over its own texts. */
  method CopyBlock(ghost ls: seq<string>, ghost base: nat, table: array<Option<nat>>, text: array<char>, newBase: nat)
    returns (copy: array<Option<nat>>, copied: array<char>)
    requires IsBlock(ls, base, table[..], text[..]) && AllPlain(ls)
    ensures fresh(copy) && fresh(copied)
    ensures IsBlock(ls, newBase, copy[..], copied[..])
  {
    hide Terminated, Pointers, Length, IsBlock;
    BlockSizes(ls, base, table[..], text[..]);
    copy := new Option<nat>[table.Length];
    forall i | 0 <= i < table.Length { copy[i] := table[i]; }
    copied := new char[text.Length];
    forall i | 0 <= i < text.Length { copied[i] := text[i]; }
    assert copy[..] == table[..] && copied[..] == text[..];
    var n := 0;
    while copy[n].Some?
      invariant n <= |ls|
      invariant copy[..] == table[..]
      decreases |ls| - n
    {
      n := n + 1;
    }
    var origin, at, i := newBase + (n + 1) * WORD, 0, 0;
    ghost var table0 := old(table[..]);
    assert table[..] == table0;
    while copy[i].Some?
      invariant fresh(copy) && fresh(copied) && copy.Length == |table0| && copied[..] == text[..]
      invariant i <= n == |ls| && at == |Terminated(ls[..i])| <= |copied[..]|
      invariant Rebuilt(table0, Pointers(ls, origin), copy[..], i)
      invariant text[..] == old(text[..])
      decreases n - i
    {
      ReadLine(ls, base, table0, text[..], i);
      PointersAt(ls, origin, i);
      RebuiltMore(table0, Pointers(ls, origin), copy[..], i);
      copy[i] := Some(origin + at);
      at := at + Length(copied[..], at) + 1;
      i := i + 1;
    }
    BlockMade(ls, newBase, copy[..], copied[..]);
  }

  /** The first `i` pointers are new, the others still those of the original. */
  ghost predicate Rebuilt(table: seq<Option<nat>>, pointers: seq<Option<nat>>, copy: seq<Option<nat>>, i: nat) {
    && |copy| == |table| == |pointers| && i < |table|
    && forall k | 0 <= k < |copy| :: copy[k] == if k < i then pointers[k] else table[k]
  }

  lemma RebuiltMore(table: seq<Option<nat>>, pointers: seq<Option<nat>>, copy: seq<Option<nat>>, i: nat)
    requires Rebuilt(table, pointers, copy, i) && i + 1 < |table|
    ensures Rebuilt(table, pointers, copy[i := pointers[i]], i + 1)
  {
  }

  lemma BlockSizes(ls: seq<string>, base: nat, table: seq<Option<nat>>, text: string)
    requires IsBlock(ls, base, table, text)
    ensures |table| == |ls| + 1 && table[|ls|] == None && (forall i | 0 <= i < |ls| :: table[i].Some?)
    ensures text == Terminated(ls) && |Terminated(ls[..0])| == 0
  {
    forall i | 0 <= i < |ls| ensures table[i].Some? {
      PointersAt(ls, base + (|ls| + 1) * WORD, i);
    }
    if ls != [] {
      PointersAt(ls, base + (|ls| + 1) * WORD, 0);
    }
  }

  lemma BlockMade(ls: seq<string>, base: nat, table: seq<Option<nat>>, text: string)
    requires |table| == |ls| + 1 && table[|ls|] == None && text == Terminated(ls)
    requires table[..|ls|] == Pointers(ls, base + (|ls| + 1) * WORD)[..|ls|]
    ensures IsBlock(ls, base, table, text)
  {
    var p := Pointers(ls, base + (|ls| + 1) * WORD);
    BlockSizes(ls, base, p, text);
    assert table == table[..|ls|] + [None] && p == p[..|ls|] + [None];
  }

  // ---------------------------------------------------------------- string_value

  /** What has been written of the padded lines, each closed by a newline. */
  function Closed(ls: seq<string>, w: nat): string {
    if ls == [] then "" else Closed(ls[..|ls| - 1], w) + Pad(ls[|ls| - 1], w) + "\n"
  }

  lemma {:induction false} ClosedFront(ls: seq<string>, w: nat)
    requires ls != []
    ensures Closed(ls, w) == Pad(ls[0], w) + "\n" + Closed(ls[1..], w)
    decreases |ls|
  {
    hide Pad;
    if |ls| > 1 {
      var front, last := ls[..|ls| - 1], Pad(ls[|ls| - 1], w);
      ClosedFront(front, w);
      assert ls[1..][..|ls| - 2] == front[1..];
      Regroup(Pad(ls[0], w) + "\n", Closed(front[1..], w), last);
      Regroup(Pad(ls[0], w) + "\n", Closed(front[1..], w) + last, "\n");
    }
  }

  /** Closed by newlines, the padded lines are the text and one more newline. */
  lemma {:induction false} ClosedIsText(ls: seq<string>, w: nat)
    requires ls != []
    ensures Closed(ls, w) == Join(PadAll(ls, w)) + "\n"
  {
    ClosedFront(ls, w);
    assert PadAll(ls, w)[1..] == PadAll(ls[1..], w);
    if |ls| > 1 {
      ClosedIsText(ls[1..], w);
    } else {
      assert ls[1..] == [];
    }
  }

  lemma Times(n: int, w: int)
    ensures (n + 1) * (w + 1) == n * (w + 1) + w + 1
  {
  }

  lemma TimesGrow(m: nat, n: nat, w: nat)
    requires m <= n
    ensures m * (w + 1) <= n * (w + 1)
  {
  }

  lemma {:induction false} ClosedSize(ls: seq<string>, w: nat)
    requires Width(ls) <= w
    ensures |Closed(ls, w)| == |ls| * (w + 1)
  {
    if ls != [] {
      ClosedFront(ls, w);
      ClosedSize(ls[1..], w);
      assert |Pad(ls[0], w)| == w;
      Times(|ls| - 1, w);
    } else {
      Times(-1, w);
    }
  }

  lemma ClosedNext(ls: seq<string>, w: nat, i: nat)
    requires i < |ls| && Width(ls) <= w
    ensures Closed(ls[..i + 1], w) == Closed(ls[..i], w) + Pad(ls[i], w) + "\n"
    ensures |Closed(ls[..i], w)| == i * (w + 1) && |Closed(ls, w)| == |ls| * (w + 1)
    ensures (i + 1) * (w + 1) <= |ls| * (w + 1)
  {
    hide Width, Pad;
    TimesGrow(i + 1, |ls|, w);
    assert ls[..i + 1][..i] == ls[..i] && ls[..i + 1][i] == ls[i];
    WidthOfPart(ls, i);
    ClosedSize(ls[..i], w);
    ClosedSize(ls, w);
  }

  lemma {:induction false} WidthOfPart(ls: seq<string>, i: nat)
    requires i <= |ls|
    ensures Width(ls[..i]) <= Width(ls)
    ensures i < |ls| ==> Width(ls[..i + 1]) == if |ls[i]| > Width(ls[..i]) then |ls[i]| else Width(ls[..i])
  {
    if i > 0 {
      WidthOfPart(ls[1..], i - 1);
      assert ls[..i][1..] == ls[1..][..i - 1];
      assert i < |ls| ==> ls[..i + 1][1..] == ls[1..][..i];
    } else if |ls| > 0 {
      assert ls[..1] == [ls[0]] && ls[..1][1..] == [];
    }
  }

  /** The first pass: the width of the longest line. */
  method MeasureText(ghost ls: seq<string>, ghost base: nat, table: array<Option<nat>>, text: array<char>, origin: nat)
    returns (lines: nat, width: nat)
    requires IsBlock(ls, base, table[..], text[..]) && AllPlain(ls) && origin == base + (|ls| + 1) * WORD
    ensures lines == |ls| && width == Width(ls)
  {
    hide Terminated, Pointers, Length, IsBlock, Width;
    BlockSizes(ls, base, table[..], text[..]);
    lines, width := 0, 0;
    NoWidth(ls);
    while table[lines].Some?
      invariant lines <= |ls| && width == Width(ls[..lines])
      decreases |ls| - lines
    {
      ReadLine(ls, base, table[..], text[..], lines);
      WidthOfPart(ls, lines);
      var length := Length(text[..], table[lines].value - origin);
      lines := lines + 1;
      if length > width {
        width := length;
      }
    }
    assert ls[..lines] == ls;
  }

  lemma NoWidth(ls: seq<string>)
    ensures Width(ls[..0]) == 0
  {
  }

  /** memset with spaces, and a newline. */
  method PadOut(s: array<char>, from: nat, upto: nat)
    requires from <= upto < s.Length
    modifies s
    ensures s[..upto + 1] == old(s[..from]) + TemplateText.Blanks(upto - from) + "\n"
  {
    for k := from to upto
      invariant s[..k] == old(s[..from]) + TemplateText.Blanks(k - from)
    {
      s[k] := ' ';
      assert s[..k + 1] == s[..k] + [' '];
    }
    s[upto] := '\n';
    assert s[..upto + 1] == s[..upto] + "\n";
  }

  /** One line of the second pass. */
  method WriteLine(s: array<char>, out: nat, text: string, at: nat, length: nat, width: nat)
    requires at + length <= |text| && length <= width && out + width < s.Length
    modifies s
    ensures s[..out + width + 1] == old(s[..out]) + Pad(text[at..at + length], width) + "\n"
  {
    ghost var l := text[at..at + length];
    TemplateText.Copy(text, at, at + length, s, out);
    assert s[..out + length] == old(s[..out]) + l;
    PadOut(s, out + length, out + width);
    assert Pad(l, width) == l + TemplateText.Blanks(width - length);
    Regroup(old(s[..out]), l, TemplateText.Blanks(width - length));
  }

  lemma Regroup(a: string, b: string, c: string)
    ensures a + b + c == a + (b + c)
  {
  }

  /** string_value of a block: exactly the measured size is filled. */
  method StringValue(ghost ls: seq<string>, ghost base: nat, table: array<Option<nat>>, text: array<char>, origin: nat)
    returns (s: array<char>)
    requires IsBlock(ls, base, table[..], text[..]) && AllPlain(ls) && ls != [] && origin == base + (|ls| + 1) * WORD
    ensures fresh(s) && s[..] == BlockText(ls) + "\0"
  {
    hide Terminated, Pointers, Length, IsBlock, Width, Closed, BlockText;
    var lines, width := MeasureText(ls, base, table, text, origin);
    BlockSizes(ls, base, table[..], text[..]);
    TextWritten(ls, width);
    s := new char[lines * (width + 1)];
    var i, out := 0, 0;
    assert s[..0] == "";
    while table[i].Some?
      invariant fresh(s) && s.Length == |ls| * (width + 1)
      invariant table[..] == old(table[..]) && text[..] == old(text[..])
      invariant i <= |ls| && out == i * (width + 1) <= s.Length && s[..out] == Closed(ls[..i], width)
      decreases |ls| - i
    {
      ReadLine(ls, base, table[..], text[..], i);
      ClosedNext(ls, width, i);
      var at := table[i].value - origin;
      var length := Length(text[..], at);
      LineFits(ls, width, i);
      assert text[..][at..at + length] == ls[i];
      WriteLine(s, out, text[..], at, length, width);
      i := i + 1;
      out := out + width + 1;
    }
    assert ls[..i] == ls;
    s[out - 1] := '\0';
    assert s[..] == Closed(ls, width)[..out - 1] + "\0";
  }

  lemma TextWritten(ls: seq<string>, w: nat)
    requires ls != [] && w == Width(ls)
    ensures Closed(ls[..0], w) == "" && |Closed(ls, w)| == |ls| * (w + 1) > 0
    ensures Closed(ls, w)[..|ls| * (w + 1) - 1] == BlockText(ls)
  {
    ClosedSize(ls, w);
    ClosedIsText(ls, w);
  }

  lemma LineFits(ls: seq<string>, w: nat, i: nat)
    requires w == Width(ls) && i < |ls|
    ensures |ls[i]| <= w && i * (w + 1) + w < |ls| * (w + 1)
  {
    TimesGrow(i + 1, |ls|, w);
    Times(i, w);
  }
}
