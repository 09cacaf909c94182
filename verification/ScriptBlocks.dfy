/** The block structure a script gets while it is loaded.

    Every line is appended with an empty block end.  Lines that open a block push a control;
    lines that end one pop it and fill in the block ends of the lines between, jumping over
    inner blocks that are already filled.  Lines are named by their position in the script. */
module ScriptBlocks {
  import opened Syntax

  datatype LineType =
    | Plain
    | ForLine | WhileLine | MacroLine | FunctionLine
    | ScopeLine | IfLine | NewLine | TemplateLine
    | ElsifLine | ElseLine
    | EndIf | EndFor | EndScope | EndWhile | EndMacro | EndFunction | EndNew | EndTemplate

  datatype Control = Control(opener: LineType, line: nat)

  // ---------------------------------------------------------------- the simple definition

  /** A closed segment: the lines from an opening line up to, but not including, its end. */
  datatype Segment = Segment(start: nat, end: nat)

  predicate Covers(s: Segment, i: nat) {
    s.start <= i < s.end
  }

  /** `e` is the end of the innermost closed segment containing line `i`, if there is one. */
  ghost predicate IsInnermostEnd(segs: seq<Segment>, i: nat, e: Option<nat>) {
    if e.None? then forall s | s in segs :: !Covers(s, i)
    else && (exists s :: s in segs && Covers(s, i) && s.end == e.value)
         && forall s | s in segs && Covers(s, i) :: e.value <= s.end
  }

  ghost predicate Filled(segs: seq<Segment>, ends: seq<Option<nat>>) {
    && (forall s | s in segs :: s.start < s.end < |ends|)
    && forall i | 0 <= i < |ends| :: IsInnermostEnd(segs, i, ends[i])
  }

  /** Segments nest properly, and an open control is inside or outside each of them. */
  ghost predicate Nested(segs: seq<Segment>, stack: seq<Control>) {
    && (forall s, t | s in segs && t in segs ::
          (s.end <= t.start || t.end <= s.start || Within(s, t) || Within(t, s)) && (s.start == t.start ==> s == t))
    && (forall s, c | s in segs && c in stack :: s.end <= c.line || c.line < s.start)
    && (forall i, j | 0 <= i < j < |stack| :: stack[i].line < stack[j].line)
  }

  predicate Within(s: Segment, t: Segment) {
    t.start <= s.start && s.end <= t.end
  }

  // ---------------------------------------------------------------- filling

  /** What the fill leaves behind: from `start` on, lines without an end get `end`. */
  ghost predicate FilledFrom(before: seq<Option<nat>>, ends: seq<Option<nat>>, start: nat, upto: nat, end: nat) {
    && |ends| == |before|
    && forall k | 0 <= k < |ends| ::
         ends[k] == if start <= k < upto && before[k].None? then Some(end) else before[k]
  }

  lemma FillClosesSegment(segs: seq<Segment>, before: seq<Option<nat>>, ends: seq<Option<nat>>, start: nat, end: nat)
    requires Filled(segs, before) && start < end < |before| && FilledFrom(before, ends, start, end, end)
    requires forall s | s in segs :: s.end < end
    ensures Filled(segs + [Segment(start, end)], ends)
  {
    var segs' := segs + [Segment(start, end)];
    forall i | 0 <= i < |ends| ensures IsInnermostEnd(segs', i, ends[i]) {
      assert IsInnermostEnd(segs, i, before[i]);
      if before[i].Some? {
        var s :| s in segs && Covers(s, i) && s.end == before[i].value;
        assert s in segs';
      } else if start <= i < end {
        assert segs'[|segs|] == Segment(start, end);
        assert Covers(Segment(start, end), i);
      }
    }
  }

  lemma CloseKeepsNesting(segs: seq<Segment>, stack: seq<Control>, end: nat)
    requires Nested(segs, stack) && stack != []
    requires forall s | s in segs :: s.start < s.end <= end
    ensures Nested(segs + [Segment(stack[|stack| - 1].line, end)], stack[..|stack| - 1])
  {
    var top, rest := stack[|stack| - 1], stack[..|stack| - 1];
    assert top in stack;
    forall c | c in rest ensures c in stack && c.line < top.line { }
  }

  lemma OpenKeepsNesting(segs: seq<Segment>, stack: seq<Control>, c: Control)
    requires Nested(segs, stack)
    requires forall s | s in segs :: s.end <= c.line
    requires forall d | d in stack :: d.line < c.line
    ensures Nested(segs, stack + [c])
  {
  }

  /** The jump-over fill of pop_control. */
  method Fill(before: seq<Option<nat>>, start: nat, end: nat, ghost segs: seq<Segment>) returns (ends: seq<Option<nat>>)
    requires Filled(segs, before) && start < end < |before|
    requires forall s | s in segs :: s.end < end
    ensures FilledFrom(before, ends, start, end, end)
  {
    ends := before;
    var i := start;
    while i != end
      invariant start <= i <= end && FilledFrom(before, ends, start, i, end)
      decreases end - i
    {
      if ends[i].Some? {
        var e := ends[i].value;
        JumpSkipsFilled(segs, before, i);
        i := e;
      } else {
        ends := ends[i := Some(end)];
        i := i + 1;
      }
    }
  }

  /** Everything jumped over already has an end. */
  lemma JumpSkipsFilled(segs: seq<Segment>, ends: seq<Option<nat>>, i: nat)
    requires Filled(segs, ends) && i < |ends| && ends[i].Some?
    ensures exists s :: s in segs && s.end == ends[i].value
    ensures i < ends[i].value && forall k | i <= k < ends[i].value && k < |ends| :: ends[k].Some?
  {
    assert IsInnermostEnd(segs, i, ends[i]);
    var s :| s in segs && Covers(s, i) && s.end == ends[i].value;
    forall k | i <= k < ends[i].value && k < |ends| ensures ends[k].Some? {
      assert IsInnermostEnd(segs, k, ends[k]) && Covers(s, k);
    }
  }

  // ---------------------------------------------------------------- the block grammar

  /** An open block; `elseLine` is set once its `.else` has been met, and for an `.if` block
      `line` is the latest `.if` or `.elsif`. */
  datatype Open = Open(opener: LineType, line: nat, elseLine: Option<nat>)

  predicate IsOpener(t: LineType) {
    t in {ForLine, WhileLine, MacroLine, FunctionLine, ScopeLine, IfLine, NewLine, TemplateLine}
  }

  /** Lines that the loader treats as the start of a loop. */
  predicate IsLoop(t: LineType) {
    t in {ForLine, WhileLine, MacroLine, FunctionLine}
  }

  function EndOf(opener: LineType): LineType
    requires IsOpener(opener)
  {
    match opener
    case ForLine => EndFor case WhileLine => EndWhile case MacroLine => EndMacro case FunctionLine => EndFunction
    case ScopeLine => EndScope case IfLine => EndIf case NewLine => EndNew case TemplateLine => EndTemplate
  }

  /** What an end line ends. */
  function OpenerOf(t: LineType): (opener: LineType)
    requires t in {EndIf, EndFor, EndScope, EndWhile, EndMacro, EndFunction, EndNew, EndTemplate}
    ensures IsOpener(opener) && EndOf(opener) == t && (opener == ForLine <==> t == EndFor)
  {
    match t
    case EndIf => IfLine case EndFor => ForLine case EndScope => ScopeLine case EndWhile => WhileLine
    case EndMacro => MacroLine case EndFunction => FunctionLine case EndNew => NewLine case EndTemplate => TemplateLine
  }

  /** The reference: blocks nest, each end line closes a block of its own type, `.elsif` continues
      an `.if`, and one `.else` may follow in an `.if` or a `.for`. */
  function Nest(open: seq<Open>, t: LineType, n: nat): Option<seq<Open>> {
    if t == Plain then Some(open)
    else if IsOpener(t) then Some(open + [Open(t, n, None)])
    else if open == [] || !IsOpener(open[|open| - 1].opener) then None
    else
      var top, rest := open[|open| - 1], open[..|open| - 1];
      if t == ElsifLine then
        if top.opener == IfLine && top.elseLine.None? then Some(rest + [Open(IfLine, n, None)]) else None
      else if t == ElseLine then
        if top.opener in {IfLine, ForLine} && top.elseLine.None? then Some(rest + [top.(elseLine := Some(n))]) else None
      else if t == EndOf(top.opener) then Some(rest)
      else None
  }

  /** The blocks open behind the lines `ts`, if they nest. */
  function NestRun(ts: seq<LineType>): Option<seq<Open>> {
    if ts == [] then Some([])
    else
      var n := |ts| - 1;
      match NestRun(ts[..n])
      case None => None
      case Some(open) => Nest(open, ts[n], n)
  }

  /** The closed loops once a line has ended the innermost block. */
  function EndLoops(ended: bool, opener: LineType, open: seq<Open>, loops: map<nat, nat>, n: nat): map<nat, nat> {
    if ended && opener == ForLine && open != [] then loops[open[|open| - 1].line := n] else loops
  }

  /** Every `.for` line with its own `.endfor`, as far as the lines nest. */
  function ForEnds(ts: seq<LineType>): map<nat, nat> {
    if ts == [] then map[]
    else
      var n := |ts| - 1;
      match NestRun(ts[..n])
      case None => ForEnds(ts[..n])
      case Some(open) => EndLoops(ts[n] == EndFor && Nest(open, ts[n], n).Some?, ForLine, open, ForEnds(ts[..n]), n)
  }

  /** The branch or block that line `n` closes: an `.elsif`, an `.else` or an end line closes the innermost. */
  function NewSegment(open: seq<Open>, t: LineType, n: nat): seq<Segment> {
    if t != Plain && !IsOpener(t) && Nest(open, t, n).Some? && open != [] then
      [Segment(ControlOf(open[|open| - 1]).line, n)]
    else []
  }

  /** All branches and blocks that the lines close, as far as they nest. */
  function SegmentsOf(ts: seq<LineType>): seq<Segment> {
    if ts == [] then []
    else
      var n := |ts| - 1;
      match NestRun(ts[..n])
      case None => SegmentsOf(ts[..n])
      case Some(open) => SegmentsOf(ts[..n]) + NewSegment(open, ts[n], n)
  }

  function ControlOf(o: Open): Control {
    if o.elseLine.Some? then Control(ElseLine, o.elseLine.value) else Control(o.opener, o.line)
  }

  function LoopOf(open: seq<Open>): Option<nat> {
    if open == [] then None
    else if IsLoop(open[|open| - 1].opener) then Some(open[|open| - 1].line)
    else LoopOf(open[..|open| - 1])
  }

  // ---------------------------------------------------------------- scripts that do not nest

  /** The control types a line ends. */
  function EndTypes(t: LineType): set<LineType> {
    match t
    case ElsifLine => {IfLine}
    case ElseLine => {IfLine, ForLine}
    case EndIf => {IfLine, ElseLine}
    case EndFor => {ForLine, ElseLine}
    case EndScope => {ScopeLine}
    case EndWhile => {WhileLine}
    case EndMacro => {MacroLine}
    case EndFunction => {FunctionLine}
    case EndNew => {NewLine}
    case EndTemplate => {TemplateLine}
    case _ => {}
  }

  predicate Closes(stack: seq<Control>, t: LineType) {
    stack != [] && stack[|stack| - 1].opener in EndTypes(t)
  }

  /** The controls after line `n` of type `t`: one that the line cannot end is dropped all the same. */
  function StackAfter(stack: seq<Control>, t: LineType, n: nat): seq<Control> {
    if IsOpener(t) then stack + [Control(t, n)]
    else if t == Plain || stack == [] then stack
    else
      stack[..|stack| - 1]
      + if Closes(stack, t)
          && t in {ElseLine, ElsifLine} then [Control(if t == ElseLine then ElseLine else IfLine, n)] else []
  }

  function SegmentAt(stack: seq<Control>, t: LineType, n: nat): seq<Segment> {
    if Closes(stack, t) then [Segment(stack[|stack| - 1].line, n)] else []
  }

  /** The controls open behind any lines, and the segments closed by then. */
  function Stacked(ts: seq<LineType>): seq<Control> {
    if ts == [] then [] else StackAfter(Stacked(ts[..|ts| - 1]), ts[|ts| - 1], |ts| - 1)
  }

  function Closed(ts: seq<LineType>): seq<Segment> {
    if ts == [] then []
    else Closed(ts[..|ts| - 1]) + SegmentAt(Stacked(ts[..|ts| - 1]), ts[|ts| - 1], |ts| - 1)
  }

  function Controls(open: seq<Open>): (r: seq<Control>)
    ensures |r| == |open| && forall k | 0 <= k < |open| :: r[k] == ControlOf(open[k])
  {
    seq(|open|, k requires 0 <= k < |open| => ControlOf(open[k]))
  }

  /** Open blocks as the reference has them. */
  predicate Proper(open: seq<Open>) {
    forall k | 0 <= k < |open| ::
      IsOpener(open[k].opener) && (open[k].elseLine.Some? ==> open[k].opener in {IfLine, ForLine})
  }

  lemma NestStep(open: seq<Open>, t: LineType, n: nat)
    requires Proper(open) && Nest(open, t, n).Some?
    ensures var open' := Nest(open, t, n).value;
            && Proper(open') && StackAfter(Controls(open), t, n) == Controls(open')
            && (Closes(Controls(open), t) <==> t != Plain && !IsOpener(t) && open != [])
  {
    var open' := Nest(open, t, n).value;
    assert |open'| == |StackAfter(Controls(open), t, n)|;
  }

  /** On lines that nest, the segments closed are those of the reference. */
  lemma {:induction false} ClosedIsReference(ts: seq<LineType>)
    requires NestRun(ts).Some?
    ensures Proper(NestRun(ts).value) && Stacked(ts) == Controls(NestRun(ts).value) && Closed(ts) == SegmentsOf(ts)
  {
    if ts != [] {
      var n := |ts| - 1;
      ClosedIsReference(ts[..n]);
      NestStep(NestRun(ts[..n]).value, ts[n], n);
    }
  }

  /** A line that starts a block or a branch of one. */
  predicate Starts(t: LineType) {
    IsOpener(t) || t == ElseLine || t == ElsifLine
  }

  ghost predicate OpenFrom(open: seq<Open>, f: nat) {
    exists k :: 0 <= k < |open| && ControlOf(open[k]).line == f
  }

  ghost predicate ClosedFrom(segs: seq<Segment>, f: nat) {
    exists k :: 0 <= k < |segs| && segs[k].start == f
  }

  /** What one line does to the open blocks: those around the innermost stay. */
  lemma NestShape(open: seq<Open>, t: LineType, n: nat)
    requires Proper(open) && Nest(open, t, n).Some?
    ensures var open' := Nest(open, t, n).value;
            if t == Plain || IsOpener(t) then
              |open'| >= |open| && open'[..|open|] == open && (IsOpener(t) ==> open' == open + [Open(t, n, None)])
            else
              && open != [] && |open| - 1 <= |open'| <= |open| && open'[..|open| - 1] == open[..|open| - 1]
              && (t in {ElseLine, ElsifLine} ==> |open'| == |open| && ControlOf(open'[|open| - 1]).line == n)
              && (open[|open| - 1].opener == ForLine ==>
                    t == EndFor || (t == ElseLine && open'[|open| - 1] == open[|open| - 1].(elseLine := Some(n))))
  {
  }

  lemma StartsStep(open: seq<Open>, segs: seq<Segment>, t: LineType, n: nat, f: nat)
    requires Proper(open) && Nest(open, t, n).Some?
    requires OpenFrom(open, f) || ClosedFrom(segs, f)
    ensures OpenFrom(Nest(open, t, n).value, f) || ClosedFrom(segs + NewSegment(open, t, n), f)
  {
    hide Nest, IsOpener, ControlOf;
    NestShape(open, t, n);
    var open', segs' := Nest(open, t, n).value, segs + NewSegment(open, t, n);
    if ClosedFrom(segs, f) {
      var k :| 0 <= k < |segs| && segs[k].start == f;
      assert segs'[k].start == f;
    } else {
      var k :| 0 <= k < |open| && ControlOf(open[k]).line == f;
      if k < |open| - 1 || t == Plain || IsOpener(t) {
        assert open'[k] == open[k];
      } else {
        assert segs'[|segs|].start == f;
      }
    }
  }

  lemma StartsBegin(open: seq<Open>, t: LineType, n: nat)
    requires Proper(open) && Nest(open, t, n).Some? && Starts(t)
    ensures OpenFrom(Nest(open, t, n).value, n)
  {
    NestShape(open, t, n);
    var open' := Nest(open, t, n).value;
    assert ControlOf(open'[|open'| - 1]).line == n;
  }

  /** Nothing that starts goes missing: it is still open or a segment. */
  lemma {:induction false} StartsAreClosed(ts: seq<LineType>, f: nat)
    requires NestRun(ts).Some? && f < |ts| && Starts(ts[f])
    ensures OpenFrom(NestRun(ts).value, f) || ClosedFrom(SegmentsOf(ts), f)
  {
    hide Nest, IsOpener, OpenFrom, ClosedFrom, NewSegment;
    var n := |ts| - 1;
    ClosedIsReference(ts[..n]);
    if f == n {
      StartsBegin(NestRun(ts[..n]).value, ts[n], n);
    } else {
      StartsAreClosed(ts[..n], f);
      StartsStep(NestRun(ts[..n]).value, SegmentsOf(ts[..n]), ts[n], n, f);
    }
  }

  ghost predicate OpenFor(open: seq<Open>, f: nat) {
    exists k :: 0 <= k < |open| && open[k].opener == ForLine && open[k].line == f
  }

  lemma ForsStep(open: seq<Open>, loops: map<nat, nat>, t: LineType, n: nat, f: nat)
    requires Proper(open) && Nest(open, t, n).Some? && (OpenFor(open, f) || f in loops)
    ensures OpenFor(Nest(open, t, n).value, f) || f in EndLoops(t == EndFor, ForLine, open, loops, n)
  {
    hide Nest, IsOpener;
    NestShape(open, t, n);
    if OpenFor(open, f) {
      var open' := Nest(open, t, n).value;
      var k :| 0 <= k < |open| && open[k].opener == ForLine && open[k].line == f;
      if k < |open| - 1 || t == Plain || IsOpener(t) {
        assert open'[k] == open[k];
      } else if t != EndFor {
        assert open'[k].opener == ForLine && open'[k].line == f;
      }
    }
  }

  lemma ForsBegin(open: seq<Open>, n: nat)
    ensures Nest(open, ForLine, n).Some? && OpenFor(Nest(open, ForLine, n).value, n)
  {
    var open' := Nest(open, ForLine, n).value;
    assert open'[|open|].opener == ForLine && open'[|open|].line == n;
  }

  /** Every `.for` line is still open or has its `.endfor`. */
  lemma {:induction false} ForsAreClosed(ts: seq<LineType>, f: nat)
    requires NestRun(ts).Some? && f < |ts| && ts[f] == ForLine
    ensures OpenFor(NestRun(ts).value, f) || f in ForEnds(ts)
  {
    hide Nest, OpenFor, EndLoops;
    var n := |ts| - 1;
    ClosedIsReference(ts[..n]);
    if f == n {
      ForsBegin(NestRun(ts[..n]).value, n);
    } else {
      ForsAreClosed(ts[..n], f);
      ForsStep(NestRun(ts[..n]).value, ForEnds(ts[..n]), ts[n], n, f);
    }
  }

  // ---------------------------------------------------------------- the loader

  datatype Script = Script(kind: seq<LineType>, ends: seq<Option<nat>>, loopStart: seq<Option<nat>>,
                           stack: seq<Control>, loop: Option<nat>)

  /** Holds through every run, whether or not unmatched lines have been reported. */
  ghost predicate Structured(s: Script, segs: seq<Segment>) {
    && |s.kind| == |s.ends| == |s.loopStart|
    && Filled(segs, s.ends) && Nested(segs, s.stack)
    && (forall c | c in s.stack :: Opens(s.kind, c))
    && (forall g | g in segs :: EndsBlock(s.kind, g))
  }

  /** A control names the line that opened it; an `.elsif` counts as an `.if`. */
  predicate Opens(kind: seq<LineType>, c: Control) {
    c.line < |kind| && (kind[c.line] == c.opener || (c.opener == IfLine && kind[c.line] == ElsifLine))
  }

  /** No opening line ends a segment, and what a macro's or function's end line ends starts
      with the opening line. */
  predicate EndsBlock(kind: seq<LineType>, g: Segment) {
    && g.start < |kind| && g.end < |kind| && !IsOpener(kind[g.end]) && kind[g.end] != Plain
    && (IsMacroEnd(kind[g.end]) ==> IsOpener(kind[g.start]))
  }

  predicate IsMacroEnd(t: LineType) {
    t == EndMacro || t == EndFunction
  }

  /** The control types that a line may end. */
  predicate MayEnd(t: LineType, types: set<LineType>) {
    && !IsOpener(t) && t != Plain
    && (IsMacroEnd(t) ==> types <= {MacroLine, FunctionLine})
  }

  /** The loader's stack and loop variable are those of the open blocks. */
  ghost predicate Mirrors(s: Script, open: seq<Open>) {
    && |s.stack| == |open| && |s.kind| == |s.ends| == |s.loopStart|
    && (forall k | 0 <= k < |open| :: s.stack[k] == ControlOf(open[k]))
    && s.loop == LoopOf(open)
    && (forall k | 0 <= k < |open| :: MirrorsBlock(s, open[..k], open[k]))
  }

  ghost predicate MirrorsBlock(s: Script, outer: seq<Open>, o: Open)
    requires |s.kind| == |s.ends| == |s.loopStart|
  {
    && IsOpener(o.opener) && o.line < |s.kind|
    && (o.opener == ForLine ==> s.kind[o.line] == ForLine)
    && (IsLoop(o.opener) ==> s.loopStart[o.line] == LoopOf(outer))
    && (o.elseLine.Some? ==>
          && o.opener in {IfLine, ForLine}
          && o.line < o.elseLine.value < |s.kind| && s.kind[o.elseLine.value] == ElseLine
          && s.ends[o.line] == o.elseLine)
  }

  /** Block ends are only ever added. */
  ghost predicate Extends(a: Script, b: Script) {
    && |a.kind| == |a.ends| && |b.kind| == |b.ends|
    && a.kind <= b.kind
    && (forall i | 0 <= i < |a.ends| && a.ends[i].Some? :: b.ends[i] == a.ends[i])
    && |a.loopStart| <= |b.loopStart| && a.loopStart == b.loopStart[..|a.loopStart|]
  }

  /** From the `.for` line the block ends lead to its `.endfor`, by way of its `.else` if any. */
  ghost predicate LeadsTo(s: Script, f: nat, e: nat) {
    && |s.kind| == |s.ends| && f < e < |s.kind| && s.kind[e] == EndFor
    && s.ends[f].Some?
    && var x := s.ends[f].value;
       x == e || (f < x < e && s.kind[x] == ElseLine && s.ends[x] == Some(e))
  }

  ghost predicate LoopsClosed(s: Script, loops: map<nat, nat>) {
    forall f | f in loops :: LeadsTo(s, f, loops[f])
  }

  lemma ExtendsKeepsLoops(a: Script, b: Script, loops: map<nat, nat>)
    requires LoopsClosed(a, loops) && Extends(a, b)
    ensures LoopsClosed(b, loops)
  {
    forall f | f in loops ensures LeadsTo(b, f, loops[f]) {
      assert LeadsTo(a, f, loops[f]);
    }
  }

  /** An open control's line has no end yet. */
  lemma OpenLineHasNoEnd(s: Script, segs: seq<Segment>, c: Control)
    requires Structured(s, segs) && c in s.stack
    ensures s.ends[c.line].None?
  {
    assert IsInnermostEnd(segs, c.line, s.ends[c.line]);
  }

  lemma MirrorsPrefix(s: Script, s': Script, open: seq<Open>, k: nat)
    requires Mirrors(s, open) && k <= |open| && Extends(s, s')
    requires |s'.kind| == |s'.ends| == |s'.loopStart|
    requires s'.stack == s.stack[..k] && s'.loop == LoopOf(open[..k])
    ensures Mirrors(s', open[..k])
  {
    forall j | 0 <= j < k ensures MirrorsBlock(s', open[..k][..j], open[..k][j]) {
      assert MirrorsBlock(s, open[..j], open[j]);
      assert open[..k][..j] == open[..j];
    }
  }

  lemma MirrorsPush(s: Script, open: seq<Open>, o: Open, s': Script)
    requires Mirrors(s, open) && s' == s.(stack := s.stack + [ControlOf(o)], loop := s'.loop)
    requires MirrorsBlock(s', open, o)
    requires s'.loop == if IsLoop(o.opener) then Some(o.line) else s.loop
    ensures Mirrors(s', open + [o])
  {
    var open' := open + [o];
    assert open'[..|open|] == open;
    forall j | 0 <= j < |open'| ensures MirrorsBlock(s', open'[..j], open'[j]) {
      if j < |open| {
        assert MirrorsBlock(s, open[..j], open[j]);
        assert open'[..j] == open[..j];
      }
    }
  }

  /** The line being treated is the last one and is not yet part of any block. */
  ghost predicate Treating(s: Script, segs: seq<Segment>) {
    && Structured(s, segs) && s.kind != []
    && (forall g | g in segs :: g.end < |s.kind| - 1)
    && (forall c | c in s.stack :: c.line < |s.kind| - 1)
  }

  lemma AppendStructured(s: Script, segs: seq<Segment>, t: LineType)
    requires Structured(s, segs)
    ensures var s' := s.(kind := s.kind + [t], ends := s.ends + [None], loopStart := s.loopStart + [s.loop]);
            Treating(s', segs) && Extends(s, s')
  {
    var ends' := s.ends + [None];
    forall i | 0 <= i < |ends'| ensures IsInnermostEnd(segs, i, ends'[i]) {
      if i < |s.ends| { assert IsInnermostEnd(segs, i, s.ends[i]); }
    }
  }

  /** The only new block ends point at the line being treated. */
  ghost predicate OnlyNewEnds(before: seq<Option<nat>>, ends: seq<Option<nat>>, m: int) {
    |ends| == |before| && forall i | 0 <= i < |ends| :: ends[i] == before[i] || (m >= 0 && ends[i] == Some(m))
  }

  /** What popping a control of one of the given types does: if the innermost control has such
      a type its segment is closed at the last line, otherwise it is only dropped. */
  ghost predicate PopResult(s: Script, segs: seq<Segment>, s': Script, segs': seq<Segment>,
                            c: Option<Control>, types: set<LineType>) {
    && s' == s.(ends := s'.ends, stack := if s.stack == [] then [] else s.stack[..|s.stack| - 1])
    && Structured(s', segs') && Extends(s, s') && OnlyNewEnds(s.ends, s'.ends, |s.kind| - 1)
    && (c.Some? <==> s.stack != [] && s.stack[|s.stack| - 1].opener in types)
    && (c.None? ==> s'.ends == s.ends && segs' == segs)
    && (c.Some? ==>
          && c.value == s.stack[|s.stack| - 1] && c.value.line < |s.kind| - 1 && |s.kind| == |s'.ends|
          && segs' == segs + [Segment(c.value.line, |s.kind| - 1)]
          && FilledFrom(s.ends, s'.ends, c.value.line, |s.kind| - 1, |s.kind| - 1)
          && s'.ends[c.value.line] == Some(|s.kind| - 1))
  }

  lemma TreatingIsStructured(s: Script, segs: seq<Segment>)
    requires Treating(s, segs)
    ensures Structured(s, segs) && |s.ends| == |s.kind| && Extends(s, s) && OnlyNewEnds(s.ends, s.ends, |s.kind| - 1)
  {
  }

  lemma TreatingFacts(s: Script, segs: seq<Segment>)
    requires Treating(s, segs) && s.stack != []
    ensures Filled(segs, s.ends) && |s.ends| == |s.kind| > 0
    ensures s.stack[|s.stack| - 1].line < |s.kind| - 1 && forall g | g in segs :: g.end < |s.kind| - 1
    ensures Structured(s.(stack := s.stack[..|s.stack| - 1]), segs) && Extends(s, s.(stack := s.stack[..|s.stack| - 1]))
  {
    assert s.stack[|s.stack| - 1] in s.stack;
  }

  lemma FilledSegments(segs: seq<Segment>, ends: seq<Option<nat>>)
    requires Filled(segs, ends)
    ensures forall g | g in segs :: g.start < g.end < |ends|
  {
  }

  lemma PopStructured(s: Script, segs: seq<Segment>, ends: seq<Option<nat>>, types: set<LineType>)
    requires Treating(s, segs) && s.stack != [] && s.stack[|s.stack| - 1].opener in types
    requires s.kind != [] ==> MayEnd(s.kind[|s.kind| - 1], types)
    requires FilledFrom(s.ends, ends, s.stack[|s.stack| - 1].line, |s.kind| - 1, |s.kind| - 1)
    ensures var top, s' := s.stack[|s.stack| - 1], s.(ends := ends, stack := s.stack[..|s.stack| - 1]);
            && Structured(s', segs + [Segment(top.line, |s.kind| - 1)]) && Extends(s, s')
            && |ends| == |s.kind| && top.line < |s.kind| - 1 && ends[top.line] == Some(|s.kind| - 1)
            && OnlyNewEnds(s.ends, ends, |s.kind| - 1)
  {
    hide IsInnermostEnd, Filled, Nested;
    var top := s.stack[|s.stack| - 1];
    assert top in s.stack;
    OpenLineHasNoEnd(s, segs, top);
    FillClosesSegment(segs, s.ends, ends, top.line, |s.kind| - 1);
    FilledSegments(segs, s.ends);
    CloseKeepsNesting(segs, s.stack, |s.kind| - 1);
  }

  lemma PopDrops(s: Script, segs: seq<Segment>, types: set<LineType>)
    requires Treating(s, segs) && (s.stack != [] ==> s.stack[|s.stack| - 1].opener !in types)
    ensures PopResult(s, segs, s.(stack := if s.stack == [] then [] else s.stack[..|s.stack| - 1]), segs, None, types)
  {
    hide Treating, Structured, Extends, OnlyNewEnds;
    TreatingIsStructured(s, segs);
    if s.stack != [] { TreatingFacts(s, segs); }
  }

  lemma PopCloses(s: Script, segs: seq<Segment>, ends: seq<Option<nat>>, types: set<LineType>)
    requires Treating(s, segs) && s.stack != [] && s.stack[|s.stack| - 1].opener in types
    requires s.kind != [] ==> MayEnd(s.kind[|s.kind| - 1], types)
    requires FilledFrom(s.ends, ends, s.stack[|s.stack| - 1].line, |s.kind| - 1, |s.kind| - 1)
    ensures var top := s.stack[|s.stack| - 1];
            |s.kind| > 0 && PopResult(s, segs, s.(ends := ends, stack := s.stack[..|s.stack| - 1]),
                                      segs + [Segment(top.line, |s.kind| - 1)], Some(top), types)
  {
    hide Structured, Extends, OnlyNewEnds, MayEnd, FilledFrom;
    PopStructured(s, segs, ends, types);
  }

  lemma AppendMirrors(s: Script, open: seq<Open>, t: LineType)
    requires Mirrors(s, open)
    ensures Mirrors(s.(kind := s.kind + [t], ends := s.ends + [None], loopStart := s.loopStart + [s.loop]), open)
  {
    var s' := s.(kind := s.kind + [t], ends := s.ends + [None], loopStart := s.loopStart + [s.loop]);
    assert open[..|open|] == open && s.stack[..|open|] == s.stack;
    MirrorsPrefix(s, s', open, |open|);
  }

  /** What the loader's test for `.for`/`.else`/`.endfor` against `.if`/`.else`/`.endif` decides:
      the `.else` at the top of the stack belongs to the current loop if and only if that loop's
      block end is this `.else`. */
  lemma ElseOwner(s: Script, segs: seq<Segment>, open: seq<Open>)
    requires Mirrors(s, open) && Structured(s, segs) && open != [] && open[|open| - 1].elseLine.Some?
    ensures var top := open[|open| - 1];
            top.opener == ForLine <==> s.loop.Some? && s.loop.value < |s.ends| && s.ends[s.loop.value] == top.elseLine
  {
    var n := |open| - 1;
    var top := open[n];
    assert MirrorsBlock(s, open[..n], top);
    if top.opener != ForLine {
      assert s.loop == LoopOf(open[..n]);
      LoopEndsElsewhere(s, segs, open, n, n);
    }
  }

  lemma {:induction false} LoopEndsElsewhere(s: Script, segs: seq<Segment>, open: seq<Open>, k: nat, j: nat)
    requires Mirrors(s, open) && Structured(s, segs) && j <= k < |open| && open[k].elseLine.Some?
    ensures LoopOf(open[..j]).Some? && LoopOf(open[..j]).value < |s.ends| ==>
              s.ends[LoopOf(open[..j]).value] != open[k].elseLine
    decreases j
  {
    hide Mirrors, Structured;
    if j > 0 {
      assert open[..j][..j - 1] == open[..j - 1];
      if IsLoop(open[j - 1].opener) {
        BlockEndsElsewhere(s, segs, open, k, j - 1);
      } else {
        LoopEndsElsewhere(s, segs, open, k, j - 1);
      }
    }
  }

  lemma BlockEndsElsewhere(s: Script, segs: seq<Segment>, open: seq<Open>, k: nat, i: nat)
    requires Mirrors(s, open) && Structured(s, segs) && i < k < |open| && open[k].elseLine.Some?
    ensures open[i].line < |s.ends| ==> s.ends[open[i].line] != open[k].elseLine
  {
    hide Filled, LoopOf, Opens, EndsBlock;
    var o := open[i];
    assert MirrorsBlock(s, open[..i], o);
    assert s.stack[i] == ControlOf(o) && s.stack[k] == ControlOf(open[k]);
    assert s.stack[i].line < s.stack[k].line;
    if o.elseLine.None? {
      OpenLineHasNoEnd(s, segs, s.stack[i]);
    }
  }

  // ---- the effect of each kind of line on the open blocks

  ghost function Top(open: seq<Open>): Open
    requires open != []
  {
    open[|open| - 1]
  }

  /** The control of the innermost block has been popped at the last line, which may have ended it. */
  ghost predicate Popped(s: Script, open: seq<Open>, s': Script) {
    && Mirrors(s, open) && open != [] && Extends(s, s')
    && |s'.kind| == |s.kind| == |s'.ends| == |s'.loopStart|
    && s'.stack == s.stack[..|s.stack| - 1] && s'.loop == s.loop
    && OnlyNewEnds(s.ends, s'.ends, |s.kind| - 1)
    && var c := ControlOf(Top(open));
       c.line < |s'.kind| - 1 && s'.ends[c.line] == Some(|s'.kind| - 1)
  }

  lemma TopMirrored(s: Script, open: seq<Open>)
    requires Mirrors(s, open) && open != []
    ensures MirrorsBlock(s, open[..|open| - 1], Top(open)) && s.stack != []
    ensures s.stack[|s.stack| - 1] == ControlOf(Top(open))
  {
  }

  lemma CloseMirrors(s: Script, open: seq<Open>, s': Script)
    requires Popped(s, open, s')
    ensures var top := Top(open); var rest := open[..|open| - 1];
            && top.line < |s'.loopStart|
            && (IsLoop(top.opener) ==> s'.loop == Some(top.line))
            && Mirrors(s'.(loop := if IsLoop(top.opener) then s'.loopStart[top.line] else s'.loop), rest)
  {
    TopMirrored(s, open);
    var top, n := Top(open), |open| - 1;
    MirrorsPrefix(s, s'.(loop := LoopOf(open[..n])), open, n);
  }

  lemma ReopenMirrors(s: Script, open: seq<Open>, s': Script, o: Open)
    requires Popped(s, open, s')
    requires |s'.kind| > 0 && var m := |s'.kind| - 1; var top := Top(open);
             && top.elseLine.None?
             && (|| (o == top.(elseLine := Some(m)) && top.opener in {IfLine, ForLine} && s'.kind[m] == ElseLine)
                 || (o == Open(IfLine, m, None) && top.opener == IfLine))
    ensures Mirrors(s'.(stack := s'.stack + [ControlOf(o)]), open[..|open| - 1] + [o])
  {
    TopMirrored(s, open);
    var n := |open| - 1;
    var base := s'.(loop := LoopOf(open[..n]));
    MirrorsPrefix(s, base, open, n);
    MirrorsPush(base, open[..n], o, s'.(stack := s'.stack + [ControlOf(o)]));
  }

  lemma LoopClosed(s: Script, open: seq<Open>, s': Script, loops: map<nat, nat>)
    requires Popped(s, open, s') && Top(open).opener == ForLine && LoopsClosed(s, loops)
    requires s'.kind[|s'.kind| - 1] == EndFor
    ensures LoopsClosed(s', loops[Top(open).line := |s'.kind| - 1])
  {
    TopMirrored(s, open);
    ExtendsKeepsLoops(s, s', loops);
    var f, e := Top(open).line, |s'.kind| - 1;
    assert LeadsTo(s', f, e);
  }

  /** The loader's answer and the open blocks agree with the reference. */
  ghost predicate Agrees(wasClean: bool, was: seq<Open>, t: LineType, n: nat, ok: bool, clean: bool, open: seq<Open>) {
    && (wasClean ==> (ok <==> Nest(was, t, n).Some?))
    && clean == (wasClean && ok)
    && (clean ==> Nest(was, t, n) == Some(open))
  }

  // ---- the chain of enclosing loops

  /** Line `x` is on the chain of loop starts beginning at `l`. */
  ghost predicate InChain(loopStart: seq<Option<nat>>, l: Option<nat>, x: nat)
    decreases if l.Some? then l.value + 1 else 0
  {
    && l.Some? && l.value < |loopStart|
    && (l.value == x ||
        (x < l.value && loopStart[l.value].Some? && loopStart[l.value].value < l.value
            && InChain(loopStart, loopStart[l.value], x)))
  }

  /** Every loop still on the control stack is on the chain, so the chain is never followed
      past its end. */
  ghost predicate Chained(s: Script) {
    && (s.loop.Some? ==> s.loop.value < |s.loopStart|)
    && (forall i | 0 <= i < |s.loopStart| && s.loopStart[i].Some? :: s.loopStart[i].value < i)
    && (forall c | c in s.stack && IsLoop(c.opener) :: InChain(s.loopStart, s.loop, c.line))
  }

  lemma {:induction false} InLongerChain(a: seq<Option<nat>>, b: seq<Option<nat>>, l: Option<nat>, x: nat)
    requires InChain(a, l, x) && |a| <= |b| && a == b[..|a|]
    ensures InChain(b, l, x)
    decreases if l.Some? then l.value + 1 else 0
  {
    if l.value != x { InLongerChain(a, b, a[l.value], x); }
  }

  lemma AppendChained(s: Script, t: LineType)
    requires Chained(s)
    ensures Chained(s.(kind := s.kind + [t], ends := s.ends + [None], loopStart := s.loopStart + [s.loop]))
  {
    forall c | c in s.stack && IsLoop(c.opener) ensures InChain(s.loopStart + [s.loop], s.loop, c.line) {
      InLongerChain(s.loopStart, s.loopStart + [s.loop], s.loop, c.line);
    }
  }

  lemma PushChained(s: Script, segs: seq<Segment>, c: Control)
    requires Treating(s, segs) && Chained(s) && c.line == |s.kind| - 1 && s.loopStart[c.line] == s.loop
    ensures Chained(s.(stack := s.stack + [c], loop := if IsLoop(c.opener) then Some(c.line) else s.loop))
  {
    if IsLoop(c.opener) {
      forall d | d in s.stack && IsLoop(d.opener) ensures InChain(s.loopStart, Some(c.line), d.line) {
        assert InChain(s.loopStart, s.loop, d.line);
      }
    }
  }

  /** Leaving the current loop when its line is no longer on the stack, or was on top of it. */
  lemma LeaveChained(s: Script, l: nat)
    requires Chained(s) && s.loop == Some(l)
    requires forall c | c in s.stack && IsLoop(c.opener) :: c.line < l
    ensures Chained(s.(loop := s.loopStart[l]))
  {
  }

  lemma {:induction false} ChainDescends(loopStart: seq<Option<nat>>, l: Option<nat>, x: nat)
    requires InChain(loopStart, l, x)
    ensures l.Some? && x <= l.value
  {
  }

  /** Every line remembers the loop it is in. */
  ghost predicate Looped(ts: seq<LineType>, loopStart: seq<Option<nat>>) {
    && |loopStart| == |ts|
    && forall i | 0 <= i < |ts| && NestRun(ts[..i]).Some? :: loopStart[i] == LoopOf(NestRun(ts[..i]).value)
  }

  lemma LoopedMore(ts: seq<LineType>, before: seq<Option<nat>>, t: LineType, after: seq<Option<nat>>)
    requires Looped(ts, before) && |after| == |ts| + 1 && before == after[..|ts|]
    requires NestRun(ts).Some? ==> after[|ts|] == LoopOf(NestRun(ts).value)
    ensures Looped(ts + [t], after)
  {
    hide NestRun, LoopOf;
    var ts' := ts + [t];
    forall i | 0 <= i < |ts'| && NestRun(ts'[..i]).Some? ensures after[i] == LoopOf(NestRun(ts'[..i]).value) {
      assert ts'[..i] == ts[..i];
      assert i == |ts| ==> ts[..i] == ts;
      assert i < |ts| ==> after[i] == before[i];
    }
  }

  /** The `.endfor` of a loop is in that loop. */
  lemma {:induction false} EndIsInLoop(ts: seq<LineType>, f: nat)
    requires f in ForEnds(ts)
    ensures var e := ForEnds(ts)[f];
            e < |ts| && NestRun(ts[..e]).Some? && LoopOf(NestRun(ts[..e]).value) == Some(f)
  {
    var n := |ts| - 1;
    if f in ForEnds(ts[..n]) && ForEnds(ts)[f] == ForEnds(ts[..n])[f] {
      EndIsInLoop(ts[..n], f);
      assert ts[..n][..ForEnds(ts)[f]] == ts[..ForEnds(ts)[f]];
    } else {
      NestFor(NestRun(ts[..n]).value, n);
    }
  }

  lemma NestFor(open: seq<Open>, n: nat)
    ensures Nest(open, EndFor, n).Some? ==> open != [] && LoopOf(open) == Some(open[|open| - 1].line)
  {
  }

  class Loader {
    var kind: seq<LineType>
    var ends: seq<Option<nat>>       // block_end of each line
    var loopStart: seq<Option<nat>>  // loop_start of each line
    var stack: seq<Control>
    var loop: Option<nat>            // the loop the next line will be in

    ghost var segs: seq<Segment>     // segments closed so far
    ghost var clean: bool            // no unmatched line so far
    ghost var open: seq<Open>        // the open blocks, while clean
    ghost var loops: map<nat, nat>   // each closed .for line and its .endfor, while clean

    ghost function At(): Script
      reads this
    {
      Script(kind, ends, loopStart, stack, loop)
    }

    ghost predicate Valid()
      reads this
    {
      Structured(At(), segs) && Chained(At()) && LoopsClosed(At(), loops)
      && (clean ==> Mirrors(At(), open))
    }

    /** Whatever lines have been loaded, the controls and segments are those the lines determine; the
        loader has reported an unmatched line exactly if they do not nest. */
    ghost predicate Faithful()
      reads this
    {
      && stack == Stacked(kind) && segs == Closed(kind) && loops == ForEnds(kind)
      && NestRun(kind) == (if clean then Some(open) else None)
      && Looped(kind, loopStart)
    }

    constructor ()
      ensures Valid() && Faithful() && kind == [] && clean
    {
      kind, ends, loopStart, stack, loop := [], [], [], [], None;
      segs, clean, open, loops := [], true, [], map[];
    }

    /** pop_control */
    method Pop(type1: LineType, type2: LineType) returns (c: Option<Control>)
      requires Treating(At(), segs) && kind != [] && MayEnd(kind[|kind| - 1], {type1, type2})
      modifies this`ends, this`stack, this`segs
      ensures PopResult(old(At()), old(segs), At(), segs, c, {type1, type2})
    {
      hide Treating, Structured, Filled, FilledFrom, PopResult, MayEnd;
      ghost var s0, segs0 := At(), segs;
      if stack == [] {
        PopDrops(s0, segs0, {type1, type2});
        return None;
      }
      TreatingFacts(s0, segs);
      var top := stack[|stack| - 1];
      if top.opener != type1 && top.opener != type2 {
        PopDrops(s0, segs0, {type1, type2});
        stack := stack[..|stack| - 1];
        return None;
      }
      ends := Fill(ends, top.line, |kind| - 1, segs);
      PopCloses(s0, segs0, ends, {type1, type2});
      segs := segs + [Segment(top.line, |kind| - 1)];
      stack := stack[..|stack| - 1];
      return Some(top);
    }

    /** save_the_node */
    method Append(t: LineType)
      requires Valid()
      modifies this`kind, this`ends, this`loopStart
      ensures Treating(At(), segs) && Chained(At()) && LoopsClosed(At(), loops) && (clean ==> Mirrors(At(), open))
      ensures kind == old(kind) + [t] && |ends| == |kind|
      ensures Extends(old(At()), At()) && |loopStart| == |kind| && loopStart[|kind| - 1] == loop
    {
      AppendStructured(At(), segs, t);
      AppendChained(At(), t);
      if clean { AppendMirrors(At(), open, t); }
      ghost var s0 := At();
      kind, ends, loopStart := kind + [t], ends + [None], loopStart + [loop];
      ExtendsKeepsLoops(s0, At(), loops);
    }

    /** A line that opens a block. */
    method OpenBlock(t: LineType)
      requires Valid() && IsOpener(t)
      modifies this
      ensures Valid() && kind == old(kind) + [t] && Extends(old(At()), At()) && loops == old(loops)
      ensures Agrees(old(clean), old(open), t, |old(kind)|, true, clean, open)
      ensures stack == StackAfter(old(stack), t, |old(kind)|)
                && segs == old(segs) + SegmentAt(old(stack), t, |old(kind)|)
      ensures |loopStart| == |kind| && loopStart[|old(kind)|] == old(loop)
    {
      hide Treating, Structured, LoopsClosed, Chained, Mirrors, Extends;
      var n := |kind|;
      Append(t);
      ghost var s0 := At();
      OpenStep(s0, segs, Control(t, n), loops);
      if clean {
        OpenMirrors(s0, open, Open(t, n, None));
        open := open + [Open(t, n, None)];
      }
      if IsLoop(t) { loop := Some(n); }
      stack := stack + [Control(t, n)];
      ExtendsTrans(old(At()), s0, At());
    }

    /** Append a line and pop the control it continues or ends; `s0` is the state between. */
    method AppendAndPop(t: LineType, type1: LineType, type2: LineType)
      returns (c: Option<Control>, ghost s0: Script, ghost segs0: seq<Segment>)
      requires Valid() && MayEnd(t, {type1, type2})
      modifies this`kind, this`ends, this`loopStart, this`stack, this`segs
      ensures Treating(s0, segs0) && Chained(s0) && LoopsClosed(s0, loops) && (clean ==> Mirrors(s0, open))
      ensures Extends(old(At()), s0) && s0.kind == kind == old(kind) + [t] && s0.stack == old(stack)
                && segs0 == old(segs)
      ensures PopResult(s0, segs0, At(), segs, c, {type1, type2})
      ensures |ends| == |loopStart| == |kind| && (loop.Some? ==> loop.value < |kind|)
      ensures loopStart[|old(kind)|] == old(loop) && loop == old(loop)
    {
      hide Treating, Structured, PopResult, LoopsClosed, Chained, Mirrors, Extends;
      Append(t);
      s0, segs0 := At(), segs;
      c := Pop(type1, type2);
      PopKeeps(s0, segs0, At(), segs, c, {type1, type2}, loops);
    }

    /** `.else` and `.elsif`: end the innermost branch and open another in its place. */
    method Branch(t: LineType) returns (ok: bool)
      requires Valid() && (t == ElseLine || t == ElsifLine)
      modifies this
      ensures Valid() && kind == old(kind) + [t] && Extends(old(At()), At()) && loops == old(loops)
      ensures Agrees(old(clean), old(open), t, |old(kind)|, ok, clean, open)
      ensures stack == StackAfter(old(stack), t, |old(kind)|)
                && segs == old(segs) + SegmentAt(old(stack), t, |old(kind)|)
      ensures |loopStart| == |kind| && loopStart[|old(kind)|] == old(loop)
    {
      hide Treating, Structured, PopResult, LoopsClosed, Chained, Mirrors, Extends, IsOpener, StackAfter, SegmentAt,
          EndTypes;
      BranchEnds(t);
      var n := |kind|;
      var c; ghost var s0, segs0;
      c, s0, segs0 := AppendAndPop(t, IfLine, if t == ElseLine then ForLine else IfLine);
      BranchStep(s0, segs0, At(), segs, c, t, clean, open, loops);
      ok := c.Some?;
      open := if clean && ok then NewBranch(open, t, n) else open;
      clean := clean && ok;
      if ok {
        stack := stack + [Control(if t == ElseLine then ElseLine else IfLine, n)];
      }
      ExtendsTrans(old(At()), s0, At());
    }

    /** A line that ends a block.  After an `.else` the loader still has to find out whether the
        `.else` was that of an `.if` or of a `.for`; the end of a loop restores the outer one. */
    method EndBlock(opener: LineType) returns (ok: bool)
      requires Valid() && IsOpener(opener)
      modifies this
      ensures Valid() && kind == old(kind) + [EndOf(opener)] && Extends(old(At()), At())
      ensures Agrees(old(clean), old(open), EndOf(opener), |old(kind)|, ok, clean, open)
      ensures loops == EndLoops(clean, opener, old(open), old(loops), |old(kind)|)
      ensures stack == StackAfter(old(stack), EndOf(opener), |old(kind)|)
      ensures segs == old(segs) + SegmentAt(old(stack), EndOf(opener), |old(kind)|)
      ensures |loopStart| == |kind| && loopStart[|old(kind)|] == old(loop)
    {
      hide Structured, LoopsClosed, Chained, Mirrors, Extends, Nest, IsOpener, IsLoop, EndOf, Agrees, EndLoops;
      ghost var s0;
      ok, s0 := PopEnded(opener);
      loops := EndLoops(clean && ok, opener, open, loops, |kind| - 1);
      open := if clean && ok then open[..|open| - 1] else open;
      clean := clean && ok;
      if ok && IsLoop(opener) {
        loop := loopStart[loop.value];
      }
      ExtendsTrans(old(At()), s0, At());
    }

    /** The part of an end line's treatment before the loop variable is restored. */
    method PopEnded(opener: LineType) returns (ok: bool, ghost s0: Script)
      requires Valid() && IsOpener(opener)
      modifies this`kind, this`ends, this`loopStart, this`stack, this`segs
      ensures Extends(old(At()), s0) && kind == old(kind) + [EndOf(opener)] && (clean && ok ==> open != [])
      ensures ok && IsLoop(opener) ==> loop.Some? && loop.value < |loopStart|
      ensures var s2 := At().(loop := if ok && IsLoop(opener) then loopStart[loop.value] else loop);
              Ended(s0, s2, segs, clean, open, loops, opener, ok, |old(kind)|)
      ensures stack == StackAfter(old(stack), EndOf(opener), |old(kind)|)
      ensures segs == old(segs) + SegmentAt(old(stack), EndOf(opener), |old(kind)|)
      ensures |loopStart| == |kind| && loopStart[|old(kind)|] == old(loop)
    {
      hide Treating, Structured, PopResult, LoopsClosed, Chained, Mirrors, Extends, Nest, IsOpener, IsLoop, EndOf,
          EndTypes;
      hide StackAfter, SegmentAt, Ended, Closes, MayEnd, EndLoops, Agrees;
      EndStack(stack, opener, |kind|);
      var other := if opener == IfLine || opener == ForLine then ElseLine else opener;
      var c; ghost var segs0;
      EndIsNotFor(opener);
      c, s0, segs0 := AppendAndPop(EndOf(opener), opener, other);
      PopEffect(s0, segs0, At(), segs, c, EndOf(opener));
      var owned := c.Some? && loop.Some? && ends[loop.value] == Some(c.value.line);
      ok := c.Some? && (c.value.opener == ElseLine ==> owned == (opener == ForLine));
      assert kind[|kind| - 1] == EndOf(opener);
      EndStep(s0, segs0, At(), segs, c, {opener, other}, clean, open, opener, owned, ok, loops);
    }

    /** One line of the script, as the loader's dialog treats it; false if it is unmatched. */
    method AddLine(t: LineType) returns (ok: bool)
      requires Valid() && Faithful()
      modifies this
      ensures Valid() && Faithful() && kind == old(kind) + [t] && Extends(old(At()), At())
      ensures segs == old(segs) + SegmentAt(old(stack), t, |old(kind)|)
      ensures old(clean) ==> (ok <==> Nest(old(open), t, |old(kind)|).Some?)
      ensures clean == (old(clean) && ok)
    {
      hide Structured, LoopsClosed, Chained, Mirrors, Extends, Nest, Closed, Stacked, ForEnds, NestRun;
      hide StackAfter, SegmentAt, EndOf, OpenerOf;
      ghost var n := |kind|;
      if clean { LoopMirrored(At(), open); }
      match t {
        case Plain =>
          PlainNests(open, n);
          PlainStack(stack, n);
          Append(t);
          TreatingIsStructured(At(), segs);
          ok := true;
        case ElseLine | ElsifLine => ok := Branch(t);
        case EndIf | EndFor | EndScope | EndWhile | EndMacro | EndFunction | EndNew | EndTemplate =>
          ok := EndBlock(OpenerOf(t));
        case ForLine | WhileLine | MacroLine | FunctionLine | ScopeLine | IfLine | NewLine | TemplateLine =>
          OpenBlock(t);
          ok := true;
      }
      RunGrows(old(kind), t);
      ForEndsGrow(old(kind), t);
      ExtendsLoops(old(At()), At());
      LoopedMore(old(kind), old(loopStart), t, loopStart);
    }

    /** A whole script: every line matched and, at the end, no control left open.  The block ends are those
        of the innermost segments, whether or not the script is accepted. */
    method Load(ts: seq<LineType>) returns (ok: bool)
      requires Valid() && Faithful() && kind == []
      modifies this
      ensures Valid() && Faithful() && kind == ts
      ensures ok <==> NestRun(ts) == Some([])
      ensures |ends| == |ts| && forall i | 0 <= i < |ts| :: IsInnermostEnd(Closed(ts), i, ends[i])
      ensures ok ==> segs == SegmentsOf(ts) && forall f | 0 <= f < |ts| && Starts(ts[f]) :: ClosedFrom(segs, f)
      ensures ok ==> forall f | 0 <= f < |ts| && ts[f] == ForLine :: f in ForEnds(ts)
      ensures Looped(ts, loopStart)
      ensures forall f | f in ForEnds(ts) :: ForEnds(ts)[f] < |ts| && loopStart[ForEnds(ts)[f]] == Some(f)
    {
      hide Structured, LoopsClosed, Chained, Extends, Mirrors, Closed, Stacked, ForEnds, Nest;
      ok := true;
      for i := 0 to |ts|
        invariant Valid() && Faithful() && kind == ts[..i] && ok == clean
      {
        assert ts[..i + 1] == ts[..i] + [ts[i]];
        var matched := AddLine(ts[i]);
        ok := ok && matched;
      }
      assert ts[..|ts|] == ts;
      LoadedEnds(At(), segs);
      forall f | f in ForEnds(ts) ensures ForEnds(ts)[f] < |ts| && loopStart[ForEnds(ts)[f]] == Some(f) {
        EndIsInLoop(ts, f);
      }
      if clean {
        ClosedIsReference(ts);
        NothingOpen(ts);
      }
      ok := ok && stack == [];
    }

    /** The skip at the end of a `.for` loop: follow block ends until an `.endfor`.  It stops at the loop's
        own, by way of its `.else` if it has one. */
    method SkipLoop(f: nat) returns (line: nat)
      requires Valid() && Faithful() && f in ForEnds(kind)
      ensures line == ForEnds(kind)[f] && line < |kind| && kind[line] == EndFor
    {
      hide Structured, Chained, Mirrors, ForEnds, NestRun, Stacked, Closed;
      assert LeadsTo(At(), f, loops[f]);
      line := ends[f].value;
      while kind[line] != EndFor
        invariant f < line <= loops[f] < |kind| == |ends| && kind[loops[f]] == EndFor
        invariant line == loops[f] || (kind[line] == ElseLine && ends[line] == Some(loops[f]))
        decreases loops[f] - line
      {
        line := ends[line].value;
      }
    }
  }

  lemma LoopMirrored(s: Script, open: seq<Open>)
    requires Mirrors(s, open)
    ensures s.loop == LoopOf(open)
  {
  }

  lemma ExtendsLoops(a: Script, b: Script)
    requires Extends(a, b)
    ensures |a.loopStart| <= |b.loopStart| && a.loopStart == b.loopStart[..|a.loopStart|]
  {
  }

  lemma PlainNests(open: seq<Open>, n: nat)
    ensures Nest(open, Plain, n) == Some(open)
  {
  }

  lemma PlainStack(stack: seq<Control>, n: nat)
    ensures StackAfter(stack, Plain, n) == stack && SegmentAt(stack, Plain, n) == []
  {
  }

  /** One more line in the reference and in the control stack. */
  lemma RunGrows(ts: seq<LineType>, t: LineType)
    ensures var ts', n := ts + [t], |ts|;
            && NestRun(ts') == (if NestRun(ts).None? then None else Nest(NestRun(ts).value, t, n))
            && Stacked(ts') == StackAfter(Stacked(ts), t, n)
            && Closed(ts') == Closed(ts) + SegmentAt(Stacked(ts), t, n)
  {
    hide Nest, StackAfter, SegmentAt;
    assert (ts + [t])[..|ts|] == ts;
  }

  lemma NoLoopEnds(loops: map<nat, nat>, n: nat)
    ensures EndLoops(false, ForLine, [], loops, n) == loops
  {
  }

  lemma ForEndsGrow(ts: seq<LineType>, t: LineType)
    ensures ForEnds(ts + [t]) == EndLoops(NestRun(ts + [t]).Some? && t == EndFor, ForLine,
                                          if NestRun(ts).Some? then NestRun(ts).value else [], ForEnds(ts), |ts|)
  {
    hide Nest, EndLoops;
    assert (ts + [t])[..|ts|] == ts;
    NoLoopEnds(ForEnds(ts), |ts|);
  }

  lemma LoadedEnds(s: Script, segs: seq<Segment>)
    requires Structured(s, segs)
    ensures |s.ends| == |s.kind| && forall i | 0 <= i < |s.ends| :: IsInnermostEnd(segs, i, s.ends[i])
  {
  }

  /** When nothing is left open everything that starts has been closed. */
  lemma NothingOpen(ts: seq<LineType>)
    requires NestRun(ts).Some?
    ensures NestRun(ts).value == [] <==> Stacked(ts) == []
    ensures NestRun(ts).value == [] ==> forall f | 0 <= f < |ts| && Starts(ts[f]) :: ClosedFrom(SegmentsOf(ts), f)
    ensures NestRun(ts).value == [] ==> forall f | 0 <= f < |ts| && ts[f] == ForLine :: f in ForEnds(ts)
  {
    forall f | 0 <= f < |ts| && ts[f] == ForLine && NestRun(ts).value == [] ensures f in ForEnds(ts) {
      ForsAreClosed(ts, f);
    }
    ClosedIsReference(ts);
    forall f | 0 <= f < |ts| && Starts(ts[f]) && NestRun(ts).value == [] ensures ClosedFrom(SegmentsOf(ts), f) {
      StartsAreClosed(ts, f);
    }
  }

  /** The state after an end line at `n`. */
  ghost predicate Ended(s: Script, s': Script, segs: seq<Segment>, clean: bool, open: seq<Open>, loops: map<nat, nat>,
                        opener: LineType, ok: bool, n: nat) {
    var open2 := if clean && ok && open != [] then open[..|open| - 1] else open;
    var loops2 := EndLoops(clean && ok, opener, open, loops, n);
    && Structured(s', segs) && Chained(s') && Extends(s, s') && LoopsClosed(s', loops2)
    && (clean && ok ==> Mirrors(s', open2))
    && IsOpener(opener) && Agrees(clean, open, EndOf(opener), n, ok, clean && ok, open2)
  }

  lemma EndStep(s: Script, segs: seq<Segment>, s': Script, segs': seq<Segment>, c: Option<Control>,
      types: set<LineType>,
                clean: bool, open: seq<Open>, opener: LineType, owned: bool, ok: bool, loops: map<nat, nat>)
    requires Treating(s, segs) && PopResult(s, segs, s', segs', c, types) && Chained(s) && LoopsClosed(s, loops)
    requires (clean ==> Mirrors(s, open)) && IsOpener(opener)
    requires types == {opener, if opener == IfLine || opener == ForLine then ElseLine else opener}
    requires owned == (c.Some? && s'.loop.Some? && s'.loop.value < |s'.ends|
               && s'.ends[s'.loop.value] == Some(c.value.line))
    requires ok == (c.Some? && (c.value.opener == ElseLine ==> owned == (opener == ForLine)))
    requires s'.kind != [] ==> s'.kind[|s'.kind| - 1] == EndOf(opener)
    ensures ok && IsLoop(opener) ==> s'.loop.Some? && s'.loop.value < |s'.loopStart|
    ensures s'.kind != [] && (clean && ok ==> open != [])
    ensures var s2 := s'.(loop := if ok && IsLoop(opener) then s'.loopStart[s'.loop.value] else s'.loop);
            Ended(s, s2, segs', clean, open, loops, opener, ok, |s'.kind| - 1)
  {
    hide Treating, PopResult, Mirrors, Popped, Structured, Chained, LoopsClosed, Extends, Nest;
    PopKeeps(s, segs, s', segs', c, types, loops);
    PopHasLine(s, segs);
    if clean { EndDecision(s, segs, s', segs', c, types, open, opener, owned); }
    if ok { EndState(s, segs, s', segs', c, types, clean, open, opener, loops); }
  }

  lemma EndIsNotFor(opener: LineType)
    requires IsOpener(opener)
    ensures EndOf(opener) != ForLine && EndOf(opener) != Plain && !IsOpener(EndOf(opener))
              && EndOf(opener) !in {ElseLine, ElsifLine}
    ensures EndTypes(EndOf(opener)) == {opener, if opener == IfLine || opener == ForLine then ElseLine else opener}
    ensures MayEnd(EndOf(opener), {opener, if opener == IfLine || opener == ForLine then ElseLine else opener})
  {
  }

  lemma EndStack(stack: seq<Control>, opener: LineType, n: nat)
    requires IsOpener(opener)
    ensures StackAfter(stack, EndOf(opener), n) == if stack == [] then [] else stack[..|stack| - 1]
  {
  }

  lemma EndState(s: Script, segs: seq<Segment>, s': Script, segs': seq<Segment>, c: Option<Control>,
      types: set<LineType>,
                 clean: bool, open: seq<Open>, opener: LineType, loops: map<nat, nat>)
    requires Treating(s, segs) && PopResult(s, segs, s', segs', c, types) && Chained(s) && LoopsClosed(s, loops)
               && c.Some?
    requires IsLoop(opener) ==> (IsLoop(c.value.opener) ||
               (s'.loop.Some? && s'.loop.value < |s'.ends| && s'.ends[s'.loop.value] == Some(c.value.line)))
    requires clean ==> Popped(s, open, s') && open != [] && Top(open).opener == opener
    requires opener == ForLine && s'.kind != [] ==> s'.kind[|s'.kind| - 1] == EndFor
    ensures IsLoop(opener) ==> s'.loop.Some? && s'.loop.value < |s'.loopStart|
    ensures s'.kind != []
    ensures var s2 := s'.(loop := if IsLoop(opener) then s'.loopStart[s'.loop.value] else s'.loop);
            && Structured(s2, segs') && Chained(s2) && Extends(s, s2)
            && LoopsClosed(s2, if clean && opener == ForLine then loops[Top(open).line := |s'.kind| - 1] else loops)
            && (clean ==> Mirrors(s2, open[..|open| - 1]))
  {
    hide Treating, PopResult, Mirrors, Popped, Structured, Chained, LoopsClosed, Extends;
    PopKeeps(s, segs, s', segs', c, types, loops);
    PopHasLine(s, segs);
    var loops2 := if clean && opener == ForLine then loops[Top(open).line := |s'.kind| - 1] else loops;
    if clean { EndMirrors(s, open, s', loops); }
    if IsLoop(opener) { LoopIsLeft(s, segs, s', segs', c, types, loops2); }
  }

  lemma PopHasLine(s: Script, segs: seq<Segment>)
    requires Treating(s, segs)
    ensures s.kind != []
  {
  }

  /** While clean, the loader accepts an end line exactly when the innermost block is of its type. */
  lemma EndDecision(s: Script, segs: seq<Segment>, s': Script, segs': seq<Segment>, c: Option<Control>,
                    types: set<LineType>, open: seq<Open>, opener: LineType, owned: bool)
    requires Treating(s, segs) && PopResult(s, segs, s', segs', c, types) && Mirrors(s, open) && IsOpener(opener)
    requires types == {opener, if opener == IfLine || opener == ForLine then ElseLine else opener}
    requires owned == (c.Some? && s'.loop.Some? && s'.loop.value < |s'.ends|
               && s'.ends[s'.loop.value] == Some(c.value.line))
    ensures var n := |s.kind| - 1; var ok := c.Some? && (c.value.opener == ElseLine ==> owned == (opener == ForLine));
            && (n >= 0 ==> (ok <==> Nest(open, EndOf(opener), n).Some?))
            && (ok ==> Popped(s, open, s') && open != [] && Top(open).opener == opener)
            && (ok && n >= 0 ==> Nest(open, EndOf(opener), n) == Some(open[..|open| - 1]))
  {
    hide Treating, PopResult, Mirrors, Popped, Nest, EndOf;
    PopAgrees(s, segs, s', segs', c, types, open);
    if |s.kind| > 0 { NestEnd(open, opener, |s.kind| - 1); }
    if c.Some? && c.value.opener == ElseLine {
      ElseOwnerAfter(s, segs, open, s');
    }
  }

  lemma NestEnd(open: seq<Open>, opener: LineType, n: nat)
    requires IsOpener(opener) && (open != [] ==> IsOpener(Top(open).opener))
    ensures Nest(open, EndOf(opener), n) ==
            if open != [] && Top(open).opener == opener then Some(open[..|open| - 1]) else None
  {
  }

  lemma EndMirrors(s: Script, open: seq<Open>, s': Script, loops: map<nat, nat>)
    requires Popped(s, open, s') && LoopsClosed(s', loops) && LoopsClosed(s, loops)
    ensures var top, rest := Top(open), open[..|open| - 1];
            && top.line < |s'.loopStart|
            && (IsLoop(top.opener) ==> s'.loop == Some(top.line))
            && Mirrors(s'.(loop := if IsLoop(top.opener) then s'.loopStart[top.line] else s'.loop), rest)
            && (top.opener == ForLine && s'.kind[|s'.kind| - 1] == EndFor ==>
                  LoopsClosed(s', loops[top.line := |s'.kind| - 1]))
  {
    CloseMirrors(s, open, s');
    if Top(open).opener == ForLine && s'.kind[|s'.kind| - 1] == EndFor {
      LoopClosed(s, open, s', loops);
    }
  }

  /** The open blocks once a branch has ended and line `n` has begun another. */
  ghost function NewBranch(open: seq<Open>, t: LineType, n: nat): seq<Open> {
    if open == [] then [] else
      open[..|open| - 1] + [if t == ElseLine then Top(open).(elseLine := Some(n)) else Open(IfLine, n, None)]
  }

  lemma NestBranch(open: seq<Open>, t: LineType, n: nat)
    requires t == ElseLine || t == ElsifLine
    ensures open != [] && IsOpener(Top(open).opener) && ControlOf(Top(open)).opener in EndTypes(t) ==>
              Nest(open, t, n) == Some(NewBranch(open, t, n))
    ensures open == [] || (IsOpener(Top(open).opener) && ControlOf(Top(open)).opener !in EndTypes(t)) ==>
              Nest(open, t, n) == None
  {
  }

  /** `.else` and `.elsif` after the pop. */
  lemma BranchStep(s: Script, segs: seq<Segment>, s': Script, segs': seq<Segment>, c: Option<Control>, t: LineType,
                   clean: bool, open: seq<Open>, loops: map<nat, nat>)
    requires Treating(s, segs) && PopResult(s, segs, s', segs', c, EndTypes(t)) && Chained(s) && LoopsClosed(s, loops)
    requires (clean ==> Mirrors(s, open)) && (t == ElseLine || t == ElsifLine)
    requires s.kind != [] ==> s.kind[|s.kind| - 1] == t
    ensures s.kind != []
    ensures var n := |s.kind| - 1;
            var s2 := if c.None? then s'
                      else s'.(stack := s'.stack + [Control(if t == ElseLine then ElseLine else IfLine, n)]);
            && Structured(s2, segs') && Chained(s2) && LoopsClosed(s2, loops) && Extends(s, s2)
            && (clean && c.Some? ==> Mirrors(s2, NewBranch(open, t, n)))
            && Agrees(clean, open, t, n, c.Some?, clean && c.Some?,
                      if clean && c.Some? then NewBranch(open, t, n) else open)
            && s2.stack == StackAfter(s.stack, t, n) && segs' == segs + SegmentAt(s.stack, t, n)
  {
    hide Treating, Structured, PopResult, LoopsClosed, Chained, Mirrors, Extends, Nest, StackAfter, SegmentAt, Agrees;
    hide NewBranch;
    PopHasLine(s, segs);
    BranchStructure(s, segs, s', segs', c, t, loops);
    BranchAgrees(s, segs, s', segs', c, t, clean, open);
  }

  ghost function BranchControl(t: LineType, n: nat): Control {
    Control(if t == ElseLine then ElseLine else IfLine, n)
  }

  lemma BranchStructure(s: Script, segs: seq<Segment>, s': Script, segs': seq<Segment>, c: Option<Control>, t: LineType,
                        loops: map<nat, nat>)
    requires Treating(s, segs) && PopResult(s, segs, s', segs', c, EndTypes(t)) && Chained(s) && LoopsClosed(s, loops)
    requires (t == ElseLine || t == ElsifLine) && s.kind != [] && s.kind[|s.kind| - 1] == t
    ensures var n := |s.kind| - 1;
            var s2 := if c.None? then s' else s'.(stack := s'.stack + [BranchControl(t, n)]);
            && Structured(s2, segs') && Chained(s2) && LoopsClosed(s2, loops) && Extends(s, s2)
            && s2.stack == StackAfter(s.stack, t, n) && segs' == segs + SegmentAt(s.stack, t, n)
  {
    hide Treating, Structured, PopResult, LoopsClosed, Chained, Extends, StackAfter, SegmentAt;
    var n := |s.kind| - 1;
    BranchEnds(t);
    BranchStack(s.stack, t, n);
    PopEffect(s, segs, s', segs', c, t);
    PopKeeps(s, segs, s', segs', c, EndTypes(t), loops);
    if c.Some? {
      Rebranch(s, segs, s', segs', c, EndTypes(t), BranchControl(t, n), loops);
    }
  }

  lemma BranchAgrees(s: Script, segs: seq<Segment>, s': Script, segs': seq<Segment>, c: Option<Control>, t: LineType,
                     clean: bool, open: seq<Open>)
    requires Treating(s, segs) && PopResult(s, segs, s', segs', c, EndTypes(t)) && (clean ==> Mirrors(s, open))
    requires (t == ElseLine || t == ElsifLine) && s.kind != [] && s.kind[|s.kind| - 1] == t
    ensures var n := |s.kind| - 1;
            && (clean && c.Some? ==> Mirrors(s'.(stack := s'.stack + [BranchControl(t, n)]), NewBranch(open, t, n)))
            && Agrees(clean, open, t, n, c.Some?, clean && c.Some?,
                      if clean && c.Some? then NewBranch(open, t, n) else open)
  {
    hide Treating, PopResult, Mirrors, Nest, MirrorsBlock;
    var n := |s.kind| - 1;
    BranchEnds(t);
    if clean {
      PopAgrees(s, segs, s', segs', c, EndTypes(t), open);
      NestBranch(open, t, n);
      if c.Some? {
        SameKind(s, segs, s', segs', c, EndTypes(t));
        ReopenMirrors(s, open, s', Top(NewBranch(open, t, n)));
      }
    }
  }

  lemma SameKind(s: Script, segs: seq<Segment>, s': Script, segs': seq<Segment>, c: Option<Control>,
                 types: set<LineType>)
    requires PopResult(s, segs, s', segs', c, types)
    ensures s'.kind == s.kind
  {
  }

  lemma BranchEnds(t: LineType)
    requires t == ElseLine || t == ElsifLine
    ensures MayEnd(t, {IfLine, if t == ElseLine then ForLine else IfLine}) && IsOpener(IfLine) && IsOpener(ForLine)
    ensures !IsOpener(t) && !IsOpener(ElseLine) && EndTypes(t) == {IfLine, if t == ElseLine then ForLine else IfLine}
  {
  }

  lemma BranchStack(stack: seq<Control>, t: LineType, n: nat)
    requires t == ElseLine || t == ElsifLine
    ensures StackAfter(stack, t, n) == (if stack == [] then [] else stack[..|stack| - 1])
                                       + (if Closes(stack, t) then [Control(if t == ElseLine then ElseLine
                                           else IfLine, n)] else [])
  {
  }

  lemma ExtendsTrans(a: Script, b: Script, c: Script)
    requires Extends(a, b) && Extends(b, c)
    ensures Extends(a, c)
  {
  }

  /** While clean, the popped control is that of the innermost open block. */
  lemma PopAgrees(s: Script, segs: seq<Segment>, s': Script, segs': seq<Segment>, c: Option<Control>,
                  types: set<LineType>, open: seq<Open>)
    requires Treating(s, segs) && PopResult(s, segs, s', segs', c, types) && Mirrors(s, open)
    ensures c.Some? <==> open != [] && ControlOf(Top(open)).opener in types
    ensures c.Some? ==> Popped(s, open, s') && open != [] && c.value == ControlOf(Top(open))
    ensures open != [] ==>
              IsOpener(Top(open).opener) && (Top(open).elseLine.Some? ==> Top(open).opener in {IfLine, ForLine})
  {
    hide Treating, Filled, Nested, Opens, EndsBlock;
    if open != [] { TopMirrored(s, open); }
  }

  /** Popping in terms of the line that pops. */
  lemma PopEffect(s: Script, segs: seq<Segment>, s': Script, segs': seq<Segment>, c: Option<Control>, t: LineType)
    requires PopResult(s, segs, s', segs', c, EndTypes(t)) && s.kind != []
    ensures segs' == segs + SegmentAt(s.stack, t, |s.kind| - 1) && (c.Some? <==> Closes(s.stack, t))
    ensures s'.stack == if s.stack == [] then [] else s.stack[..|s.stack| - 1]
  {
    assert c.None? ==> segs + [] == segs;
  }

  lemma PopKeeps(s: Script, segs: seq<Segment>, s': Script, segs': seq<Segment>, c: Option<Control>,
                 types: set<LineType>, loops: map<nat, nat>)
    requires PopResult(s, segs, s', segs', c, types) && Chained(s) && LoopsClosed(s, loops)
    ensures Structured(s', segs') && Chained(s') && LoopsClosed(s', loops) && Extends(s, s')
    ensures |s'.ends| == |s'.kind| == |s'.loopStart| && (s'.loop.Some? ==> s'.loop.value < |s'.kind|)
    ensures s'.kind == s.kind && (c.Some? ==> c.value.opener in types)
  {
    ExtendsKeepsLoops(s, s', loops);
  }

  /** The test for the owner of an `.else` is made after the fill, which does not disturb it. */
  lemma ElseOwnerAfter(s: Script, segs: seq<Segment>, open: seq<Open>, s': Script)
    requires Treating(s, segs) && Popped(s, open, s') && Top(open).elseLine.Some?
    ensures var top := Top(open);
            top.opener == ForLine <==>
                s'.loop.Some? && s'.loop.value < |s'.ends| && s'.ends[s'.loop.value] == top.elseLine
  {
    ElseOwner(s, segs, open);
  }

  /** The loops that are still open are around the one being left. */
  lemma LoopsAreBelow(s: Script, segs: seq<Segment>, s': Script, segs': seq<Segment>, c: Option<Control>,
                      types: set<LineType>)
    requires Treating(s, segs) && PopResult(s, segs, s', segs', c, types) && Chained(s) && c.Some?
    requires IsLoop(c.value.opener)
             || (s'.loop.Some? && s'.loop.value < |s'.ends| && s'.ends[s'.loop.value] == Some(c.value.line))
    ensures s'.loop.Some? && s'.loop.value < |s'.loopStart|
    ensures forall d | d in s'.stack && IsLoop(d.opener) :: d.line < s'.loop.value
  {
    hide Filled, EndsBlock, Opens, FilledFrom, InChain, IsInnermostEnd, Extends, OnlyNewEnds;
    assert c.value in s.stack;
    if IsLoop(c.value.opener) { ChainDescends(s.loopStart, s.loop, c.value.line); }
    forall d | d in s'.stack && IsLoop(d.opener) ensures d.line < s'.loop.value {
      assert d in s.stack && d.line < c.value.line;
      ChainDescends(s.loopStart, s.loop, d.line);
      OpenLineHasNoEnd(s', segs', d);
    }
  }

  lemma LeaveKeeps(s: Script, s': Script, segs: seq<Segment>, loops: map<nat, nat>, l: Option<nat>)
    requires Structured(s', segs) && LoopsClosed(s', loops) && Extends(s, s')
    ensures var s2 := s'.(loop := l); Structured(s2, segs) && LoopsClosed(s2, loops) && Extends(s, s2)
  {
    hide Filled, Nested, EndsBlock;
    ExtendsKeepsLoops(s', s'.(loop := l), loops);
  }

  /** The end of a loop never follows a missing link, even after unmatched lines. */
  lemma LoopIsLeft(s: Script, segs: seq<Segment>, s': Script, segs': seq<Segment>, c: Option<Control>,
                   types: set<LineType>, loops: map<nat, nat>)
    requires Treating(s, segs) && PopResult(s, segs, s', segs', c, types) && Chained(s) && c.Some?
    requires IsLoop(c.value.opener)
               || (s'.loop.Some? && s'.loop.value < |s'.ends| && s'.ends[s'.loop.value] == Some(c.value.line))
    requires LoopsClosed(s', loops)
    ensures s'.loop.Some? && s'.loop.value < |s'.loopStart|
    ensures var s2 := s'.(loop := s'.loopStart[s'.loop.value]);
            Chained(s2) && Structured(s2, segs') && LoopsClosed(s2, loops) && Extends(s, s2)
  {
    hide Structured, Treating, Extends, LoopsClosed, PopResult;
    PopKeeps(s, segs, s', segs', c, types, map[]);
    LoopsAreBelow(s, segs, s', segs', c, types);
    LeaveChained(s', s'.loop.value);
    LeaveKeeps(s, s', segs', loops, s'.loopStart[s'.loop.value]);
  }

  lemma Rebranch(s: Script, segs: seq<Segment>, s': Script, segs': seq<Segment>, c: Option<Control>,
                 types: set<LineType>, d: Control, loops: map<nat, nat>)
    requires Treating(s, segs) && PopResult(s, segs, s', segs', c, types) && c.Some?
    requires Chained(s) && LoopsClosed(s, loops) && d.line == |s.kind| - 1 && !IsLoop(d.opener) && Opens(s.kind, d)
    ensures var s2 := s'.(stack := s'.stack + [d]);
            Structured(s2, segs') && Chained(s2) && LoopsClosed(s2, loops) && Extends(s, s2)
  {
    hide IsInnermostEnd, LeadsTo, InChain, Filled;
    var s2 := s'.(stack := s'.stack + [d]);
    ExtendsKeepsLoops(s, s2, loops);
    OpenKeepsNesting(segs', s'.stack, d);
  }

  lemma OpenStep(s: Script, segs: seq<Segment>, c: Control, loops: map<nat, nat>)
    requires Treating(s, segs) && Chained(s) && LoopsClosed(s, loops)
    requires s.kind != [] ==>
               c.line == |s.kind| - 1 && Opens(s.kind, c) && (c.line < |s.loopStart| ==> s.loopStart[c.line] == s.loop)
    ensures var s' := s.(stack := s.stack + [c], loop := if IsLoop(c.opener) then Some(c.line) else s.loop);
            Structured(s', segs) && Chained(s') && LoopsClosed(s', loops) && Extends(s, s')
  {
    var s' := s.(stack := s.stack + [c], loop := if IsLoop(c.opener) then Some(c.line) else s.loop);
    PushChained(s, segs, c);
    OpenKeepsNesting(segs, s.stack, c);
    ExtendsKeepsLoops(s, s', loops);
  }

  lemma OpenMirrors(s: Script, open: seq<Open>, o: Open)
    requires Mirrors(s, open) && IsOpener(o.opener) && o.elseLine.None?
    requires s.kind != [] && o.line == |s.kind| - 1 && s.kind[o.line] == o.opener && s.loopStart[o.line] == s.loop
    ensures Mirrors(s.(stack := s.stack + [ControlOf(o)], loop := if IsLoop(o.opener) then Some(o.line) else s.loop),
              open + [o])
  {
    MirrorsPush(s, open, o,
        s.(stack := s.stack + [ControlOf(o)], loop := if IsLoop(o.opener) then Some(o.line) else s.loop));
  }
}
