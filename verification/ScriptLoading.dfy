/** Loading a script into the cache, and registering its macros: loader, references and cache together. */
module ScriptLoading {
  import opened Syntax
  import opened ScriptBlocks
  import opened ScriptCollect
  import opened ScriptReferences
  import opened ScriptCache

  function Zeros(n: nat): (z: seq<nat>)
    ensures |z| == n && forall i | 0 <= i < n :: z[i] == 0
  {
    seq(n, _ => 0)
  }

  // ---------------------------------------------------------------- one line

  lemma EndIsUnique(segs: seq<Segment>, i: nat, a: Option<nat>, b: Option<nat>)
    requires IsInnermostEnd(segs, i, a) && IsInnermostEnd(segs, i, b)
    ensures a == b
  {
  }

  /** The segments determine the block ends. */
  lemma EndsAreUnique(segs: seq<Segment>, a: seq<Option<nat>>, b: seq<Option<nat>>)
    requires Filled(segs, a) && Filled(segs, b) && |a| == |b|
    ensures a == b
  {
    hide IsInnermostEnd;
    forall i | 0 <= i < |a| ensures a[i] == b[i] { EndIsUnique(segs, i, a[i], b[i]); }
  }

  function Appended(s: Script, t: LineType): Script {
    s.(kind := s.kind + [t], ends := s.ends + [None], loopStart := s.loopStart + [s.loop])
  }

  /** What a line does to the block ends: it is appended without one and, if it closes a segment, becomes the
      block end of the lines of the segment that have none. */
  lemma StepEnds(s: Script, segs: seq<Segment>, s': Script, segs': seq<Segment>, t: LineType)
    requires Structured(s, segs) && Structured(s', segs') && s'.kind == s.kind + [t]
    requires segs' == segs + SegmentAt(s.stack, t, |s.kind|)
    ensures |s.ends| == |s.kind|
    ensures if Closes(s.stack, t) then
              && s.stack[|s.stack| - 1].line < |s.kind|
              && FilledFrom(s.ends + [None], s'.ends, s.stack[|s.stack| - 1].line, |s.kind|, |s.kind|)
            else s'.ends == s.ends + [None]
  {
    hide Nested, IsInnermostEnd;
    var n, base := |s.kind|, s.ends + [None];
    AppendStructured(s, segs, t);
    if Closes(s.stack, t) {
      var top := s.stack[|s.stack| - 1];
      assert top in s.stack;
      var filled := seq(|base|, k requires 0 <= k < |base| =>
                                  if top.line <= k < n && base[k].None? then Some(n) else base[k]);
      FillClosesSegment(segs, base, filled, top.line, n);
      EndsAreUnique(segs', filled, s'.ends);
    } else {
      assert segs' == segs;
      EndsAreUnique(segs, base, s'.ends);
    }
  }

  lemma AppendedInMemory(s: Script, sizes: seq<nat>, size: nat, t: LineType)
    requires |s.ends| == |sizes|
    ensures InMemory(Appended(s, t), Zeros(|sizes| + 1), sizes + [size])
         == InMemory(s, Zeros(|sizes|), sizes)[|sizes| := Line(None, 0, size)]
  {
  }

  /** The lines in memory after a line has been loaded. */
  lemma LoadedLine(s: Script, segs: seq<Segment>, s': Script, segs': seq<Segment>, t: LineType, sizes: seq<nat>,
                   size: nat)
    requires Structured(s, segs) && Structured(s', segs') && s'.kind == s.kind + [t]
    requires segs' == segs + SegmentAt(s.stack, t, |s.kind|) && |s.kind| == |sizes|
    ensures |s.ends| == |sizes| && |s'.ends| == |sizes| + 1
    ensures var n := |sizes|;
            var line := InMemory(s, Zeros(n), sizes)[n := Line(None, 0, size)];
            && WellNested(line) && Whole(line) && Below(line, n + 1)
            && (Closes(s.stack, t) ==> s.stack[|s.stack| - 1].line < n)
            && InMemory(s', Zeros(n + 1), sizes + [size])
               == if Closes(s.stack, t) then FilledLines(line, s.stack[|s.stack| - 1].line, n, n) else line
  {
    hide Structured, FilledFrom, WellNested, Whole;
    StepEnds(s, segs, s', segs', t);
    StructuredLength(s', segs');
    AppendedInMemory(s, sizes, size, t);
    AppendStructured(s, segs, t);
    TreatingIsStructured(Appended(s, t), segs);
    LoadedIsWellNested(Appended(s, t), segs, Zeros(|sizes| + 1), sizes + [size]);
    if Closes(s.stack, t) {
      LoaderFills(Appended(s, t), s', Zeros(|sizes| + 1), sizes + [size], s.stack[|s.stack| - 1].line);
    } else {
      SameEndsInMemory(Appended(s, t), s', sizes + [size]);
    }
  }

  lemma StructuredLength(s: Script, segs: seq<Segment>)
    requires Structured(s, segs)
    ensures |s.ends| == |s.kind|
  {
  }

  lemma SameEndsInMemory(a: Script, b: Script, sizes: seq<nat>)
    requires a.ends == b.ends && |a.ends| == |sizes|
    ensures InMemory(a, Zeros(|sizes|), sizes) == InMemory(b, Zeros(|sizes|), sizes)
  {
  }

  // ---------------------------------------------------------------- a whole script

  /** The lines in memory are those of the loaded script `s`. */
  ghost predicate InCache(s: Script, ts: seq<LineType>, sizes: seq<nat>, line: Lines) {
    s.kind == ts && |s.ends| == |sizes| && line == InMemory(s, Zeros(|sizes|), sizes)
  }

  /** One line goes through the loader and into the script at the head of the cache. */
  method ReadLine(c: Cache, l: Loader, t: LineType, size: nat, ghost sizes: seq<nat>) returns (matched: bool)
    requires c.Valid() && l.Valid() && l.Faithful() && c.handles != [] && c.handles[0].count == |l.kind| == |sizes|
    requires |l.ends| == |sizes| && c.handles[0].line == InMemory(l.At(), Zeros(|sizes|), sizes)
    modifies c, l
    ensures c.Valid() && l.Valid() && l.Faithful() && l.kind == old(l.kind) + [t] && |l.ends| == |sizes| + 1
    ensures l.clean == (old(l.clean) && matched)
    ensures |c.handles| == |old(c.handles)| && c.handles[1..] == old(c.handles)[1..]
    ensures var h, h' := old(c.handles)[0], c.handles[0];
            h'.id == h.id && h'.count == |sizes| + 1 && InUse(h') == InUse(h)
    ensures c.handles[0].line == InMemory(l.At(), Zeros(|sizes| + 1), sizes + [size])
    ensures Orderly(old(c.handles)) ==> Orderly(c.handles)
  {
    hide Structured, WellNested, Whole, StartsFresh, NestRun, Stacked, Closed, ForEnds, Mirrors, Chained, LoopsClosed;
    hide Extends, Healthy, StackAfter, SegmentAt, Nest, InMemory, FilledLines, SumSizes, Looped;
    ghost var s, segs := l.At(), l.segs;
    var stack := l.stack;
    matched := l.AddLine(t);
    LoadedLine(s, segs, l.At(), l.segs, t, sizes, size);
    c.SaveLine(0, size);
    if Closes(stack, t) {
      StartIsThere(s, sizes, stack[|stack| - 1].line);
      c.CloseBlock(0, stack[|stack| - 1].line);
    }
  }

  /** Reading a script: every line goes through the loader and into the cache.  Whether or not the script is
      accepted, the lines in memory have the block ends that the lines determine; they nest properly, without
      gaps, and nothing is linked. */
  method LoadScript(c: Cache, id: nat, keep: bool, ts: seq<LineType>, sizes: seq<nat>) returns (ok: bool)
    requires c.Valid() && |ts| == |sizes|
    modifies c
    ensures c.Valid() && |c.handles| == |old(c.handles)| + 1 && c.handles[1..] == old(c.handles)
    ensures ok <==> NestRun(ts) == Some([])
    ensures var h := c.handles[0];
            && h.id == id && h.count == |ts| && InUse(h)
            && WellNested(h.line) && Whole(h.line) && StartsFresh(h.line) && Counts(h.line, [])
            && (forall i: nat :: i in h.line <==> i < |ts|)
            && forall i: nat | i < |ts| :: IsInnermostEnd(Closed(ts), i, h.line[i].end) && h.line[i].size == sizes[i]
    ensures exists s :: InCache(s, ts, sizes, c.handles[0].line) && (ok ==> Accepted(s))
    ensures Orderly(old(c.handles)) ==> Orderly(c.handles)
  {
    hide Structured, WellNested, Whole, StartsFresh, NestRun, Stacked, Closed, ForEnds, Mirrors, Chained, LoopsClosed;
    hide Extends, Healthy, InMemory, SumSizes, Looped;
    var l := new Loader();
    c.NewHandle(id, keep);
    ok := true;
    StructuredLength(l.At(), l.segs);
    EmptyInMemory(l.At());
    assert sizes[..0] == [];
    for i := 0 to |ts|
      invariant fresh(l) && l.Valid() && l.Faithful() && l.kind == ts[..i] && ok == l.clean && |l.ends| == i
      invariant c.Valid() && |c.handles| == |old(c.handles)| + 1 && c.handles[1..] == old(c.handles)
      invariant c.handles[0].id == id && c.handles[0].count == i && InUse(c.handles[0])
      invariant c.handles[0].line == InMemory(l.At(), Zeros(i), sizes[..i])
      invariant Orderly(old(c.handles)) ==> Orderly(c.handles)
    {
      assert ts[..i + 1] == ts[..i] + [ts[i]] && sizes[..i + 1] == sizes[..i] + [sizes[i]];
      var matched := ReadLine(c, l, ts[i], sizes[i], sizes[..i]);
      ok := ok && matched;
    }
    assert ts[..|ts|] == ts && sizes[..|ts|] == sizes;
    ScriptLoaded(l.At(), l.segs, sizes);
    StructuredLength(l.At(), l.segs);
    assert InCache(l.At(), ts, sizes, c.handles[0].line);
    if l.clean { NothingOpen(ts); }
    ok := ok && l.stack == [];
  }

  lemma EmptyInMemory(s: Script)
    requires s.ends == []
    ensures InMemory(s, Zeros(0), []) == map[]
  {
  }

  lemma StartIsThere(s: Script, sizes: seq<nat>, start: nat)
    requires |s.ends| == |sizes| && start < |sizes|
    ensures start in InMemory(s, Zeros(|sizes|), sizes)
  {
  }

  lemma ScriptLoaded(s: Script, segs: seq<Segment>, sizes: seq<nat>)
    requires Structured(s, segs) && |s.kind| == |sizes|
    ensures |s.ends| == |sizes|
    ensures var line := InMemory(s, Zeros(|sizes|), sizes);
            && WellNested(line) && Whole(line) && StartsFresh(line) && Counts(line, [])
            && (forall i: nat :: i in line <==> i < |sizes|)
            && forall i: nat | i < |sizes| :: IsInnermostEnd(segs, i, line[i].end) && line[i].size == sizes[i]
  {
    hide IsInnermostEnd;
    LoadedIsWellNested(s, segs, Zeros(|sizes|), sizes);
  }

  // ---------------------------------------------------------------- macros

  predicate IsMacro(t: LineType) {
    t == MacroLine || t == FunctionLine
  }

  ghost predicate MacroOpen(open: seq<Open>, i: nat) {
    exists k :: 0 <= k < |open| && open[k].line == i && IsMacro(open[k].opener)
  }

  ghost predicate MacroEnded(ts: seq<LineType>, segs: seq<Segment>, i: nat) {
    exists k :: 0 <= k < |segs| && segs[k].start == i && segs[k].end < |ts| && IsMacroEnd(ts[segs[k].end])
  }

  lemma MacroStep(ts: seq<LineType>, open: seq<Open>, segs: seq<Segment>, i: nat)
    requires ts != [] && Proper(open) && Nest(open, ts[|ts| - 1], |ts| - 1).Some?
    requires MacroOpen(open, i) || MacroEnded(ts[..|ts| - 1], segs, i)
    ensures var t, n := ts[|ts| - 1], |ts| - 1;
            MacroOpen(Nest(open, t, n).value, i) || MacroEnded(ts, segs + NewSegment(open, t, n), i)
  {
    var t, n := ts[|ts| - 1], |ts| - 1;
    NestShape(open, t, n);
    var open', segs' := Nest(open, t, n).value, segs + NewSegment(open, t, n);
    if MacroEnded(ts[..n], segs, i) {
      var k :| 0 <= k < |segs| && segs[k].start == i && segs[k].end < n && IsMacroEnd(ts[..n][segs[k].end]);
      assert segs'[k] == segs[k];
    } else {
      var k :| 0 <= k < |open| && open[k].line == i && IsMacro(open[k].opener);
      if k < |open| - 1 || t == Plain || IsOpener(t) {
        assert open'[k] == open[k];
      } else {
        assert segs'[|segs|] == Segment(i, n);
      }
    }
  }

  /** Every macro or function of a script that nests is still open or ends with its end line. */
  lemma {:induction false} MacrosEnd(ts: seq<LineType>, i: nat)
    requires NestRun(ts).Some? && i < |ts| && IsMacro(ts[i])
    ensures MacroOpen(NestRun(ts).value, i) || MacroEnded(ts, SegmentsOf(ts), i)
  {
    hide Nest, NewSegment, MacroOpen, MacroEnded;
    var n := |ts| - 1;
    ClosedIsReference(ts[..n]);
    var open := NestRun(ts[..n]).value;
    if i == n {
      MacroBegins(open, ts[n], n);
    } else {
      MacrosEnd(ts[..n], i);
      MacroStep(ts, open, SegmentsOf(ts[..n]), i);
    }
  }

  lemma MacroBegins(open: seq<Open>, t: LineType, n: nat)
    requires IsMacro(t)
    ensures Nest(open, t, n).Some? && MacroOpen(Nest(open, t, n).value, n)
  {
    assert Nest(open, t, n).value[|open|].line == n;
  }

  /** A script that has been loaded and accepted. */
  ghost predicate Accepted(s: Script) {
    Structured(s, Closed(s.kind)) && NestRun(s.kind) == Some([])
  }

  /** In an accepted script the block of a macro ends with its `.endmacro`, that of a function with its
      `.endfunction`. */
  lemma MacroHasEnd(s: Script, i: nat)
    requires Accepted(s) && i < |s.kind| && IsMacro(s.kind[i])
    ensures |s.ends| == |s.kind| && s.ends[i].Some? && s.ends[i].value < |s.kind| && IsMacroEnd(s.kind[s.ends[i].value])
  {
    hide Structured, NestRun, Closed, SegmentsOf, Stacked;
    StructuredLength(s, Closed(s.kind));
    MacrosEnd(s.kind, i);
    ClosedIsReference(s.kind);
    var segs := Closed(s.kind);
    var k :| 0 <= k < |segs| && segs[k].start == i && segs[k].end < |s.kind| && IsMacroEnd(s.kind[segs[k].end]);
    SegmentStart(s, segs, segs[k]);
  }

  /** A reference to the opening line of a macro or function links a block that starts afresh. */
  lemma MacroIsFresh(s: Script, links: seq<nat>, sizes: seq<nat>, i: nat)
    requires Accepted(s) && |s.ends| == |links| == |sizes| && i < |s.kind| && IsMacro(s.kind[i])
    ensures |s.ends| == |s.kind| && s.ends[i].Some? && s.ends[i].value < |s.ends|
    ensures var line := InMemory(s, links, sizes);
            LinkTarget(line, i) == s.ends[i].value && FreshTarget(line, s.ends[i].value)
  {
    hide Structured, NestRun, Closed;
    MacroHasEnd(s, i);
    var segs := Closed(s.kind);
    var line, e := InMemory(s, links, sizes), s.ends[i].value;
    OpenerLinkTarget(s, segs, links, sizes, i);
    forall k: nat, j: nat | EndsAt(line, j, k) && EndsAt(line, k, e)
      ensures exists f: nat :: f < k && EndsAt(line, f, e)
    {
      var g := SegmentOver(s, segs, k);
      var h := SegmentOver(s, segs, j);
      SegmentStart(s, segs, g);
      assert EndsAt(line, g.start, e);
    }
  }

  /** macro_create: registering a macro or function of an accepted script refers to its block, and keeps the
      cache in order. */
  method DefineMacro(c: Cache, j: nat, i: nat, ghost s: Script, ghost links: seq<nat>, ghost sizes: seq<nat>)
    requires c.Valid() && j < |c.handles| && Accepted(s) && |s.ends| == |links| == |sizes|
    requires c.handles[j].line == InMemory(s, links, sizes) && i < |s.kind| && IsMacro(s.kind[i])
    modifies c
    ensures c.Valid() && (Orderly(old(c.handles)) ==> Orderly(c.handles))
    ensures |s.ends| == |s.kind| && s.ends[i].Some? && s.ends[i].value < |links|
    ensures var e := s.ends[i].value; var h := old(c.handles)[j];
            c.handles == old(c.handles)[j := h.(line := InMemory(s, links[e := links[e] + 1], sizes))]
    ensures forall r | Counts(old(c.handles)[j].line, r) :: Counts(c.handles[j].line, r + [i])
  {
    hide Accepted, Counts, FreshTarget;
    MacroIsFresh(s, links, sizes, i);
    LinkInMemory(s, links, sizes, i);
    c.LinkLine(j, i);
  }

  lemma LinkInMemory(s: Script, links: seq<nat>, sizes: seq<nat>, i: nat)
    requires |s.ends| == |links| == |sizes| && i < |s.ends| && s.ends[i].Some? && s.ends[i].value < |s.ends|
    requires LinkTarget(InMemory(s, links, sizes), i) == s.ends[i].value
    ensures var e := s.ends[i].value;
            LinkAt(InMemory(s, links, sizes), i) == InMemory(s, links[e := links[e] + 1], sizes)
  {
  }
}
