/** Freeing the lines of a script while keeping the blocks that are still referred to.

    A script's list of lines is the map of the lines still in memory, in the order of their
    numbers; a line keeps its number while lines around it are freed.  A reference to a
    block is a link count on the block's end line. */
module ScriptCollect {
  import opened Syntax
  import ScriptBlocks

  datatype Line = Line(end: Option<nat>, links: nat, size: nat)

  type Lines = map<nat, Line>

  // ---------------------------------------------------------------- well-formed scripts

  predicate EndsAt(line: Lines, i: nat, e: nat) {
    i in line && line[i].end == Some(e)
  }

  predicate EndsBy(line: Lines, k: nat, e: nat) {
    k in line && (line[k].end.Some? ==> line[k].end.value <= e)
  }

  predicate Linked(line: Lines, e: nat) {
    e in line && line[e].links > 0
  }

  /** Block ends lie ahead, in the script, and inside the enclosing block. */
  ghost predicate WellNested(line: Lines) {
    && (forall i: nat, e: nat | EndsAt(line, i, e) :: e in line && i < e)
    && (forall i: nat, e: nat, k: nat | EndsAt(line, i, e) && k in line && i < k < e :: EndsBy(line, k, e))
  }

  /** Inside a block every line has a block end, as long as nothing has been freed. */
  ghost predicate Whole(line: Lines) {
    forall i: nat, e: nat, k: nat | EndsAt(line, i, e) && k in line && i < k < e :: line[k].end.Some?
  }

  /** Line `k` is in the range of a linked block: from a line whose block end is the linked
      line, up to that line. */
  ghost predicate Covered(line: Lines, k: nat) {
    exists i: nat, e: nat :: Linked(line, e) && EndsAt(line, i, e) && i <= k <= e
  }

  /** No linked block starts on a line that itself ends another block, as the part of an `.if`
      after `.else` or `.elsif` does. */
  ghost predicate StartsFresh(line: Lines) {
    forall i: nat, j: nat, e: nat | EndsAt(line, j, i) && EndsAt(line, i, e) && Linked(line, e) ::
      exists f: nat :: f < i && EndsAt(line, f, e)
  }

  // ---------------------------------------------------------------- the sweep

  /** The first line in memory from number `i` on, or `n` if there is none below `n`. */
  function NextFrom(line: Lines, i: nat, n: nat): (r: nat)
    ensures r >= i && (i <= n ==> r <= n) && (r < n ==> r in line)
    ensures forall k | k in line && i <= k < n :: r <= k
    decreases n - i
  {
    if i >= n || i in line then i else NextFrom(line, i + 1, n)
  }

  /** The lines that destroy_script_handle_lines keeps, from number `i` on: a block with a linked
      end is kept whole; any other line is freed, and with it a block end right behind it. */
  function Kept(line: Lines, i: nat, n: nat): set<nat>
    decreases n - i
  {
    if i >= n then {}
    else if i !in line then Kept(line, i + 1, n)
    else
      match line[i].end
      case None => Kept(line, i + 1, n)
      case Some(e) =>
        if e <= i then Kept(line, i + 1, n)
        else if Linked(line, e) then (set k | k in line && i <= k <= e) + Kept(line, e + 1, n)
        else if e < n && NextFrom(line, i + 1, n) == e then Kept(line, e + 1, n)
        else Kept(line, i + 1, n)
  }

  /** The kept end lines whose own block end is cleared because that one is not linked. */
  function Cleared(line: Lines, i: nat, n: nat): set<nat>
    decreases n - i
  {
    if i >= n then {}
    else if i !in line then Cleared(line, i + 1, n)
    else
      match line[i].end
      case None => Cleared(line, i + 1, n)
      case Some(e) =>
        if e <= i then Cleared(line, i + 1, n)
        else if Linked(line, e) then
          (if line[e].end.Some? && !Linked(line, line[e].end.value) then {e} else {}) + Cleared(line, e + 1, n)
        else if e < n && NextFrom(line, i + 1, n) == e then Cleared(line, e + 1, n)
        else Cleared(line, i + 1, n)
  }

  function Swept(line: Lines, n: nat): Lines {
    map k | k in line && k in Kept(line, 0, n) ::
      if k in Cleared(line, 0, n) then line[k].(end := None) else line[k]
  }

  // ---------------------------------------------------------------- what the sweep keeps

  /** Nothing outside the linked blocks is kept, whatever the links. */
  lemma {:induction false} KeptIsCovered(line: Lines, i: nat, n: nat)
    ensures forall k | k in Kept(line, i, n) :: k in line && i <= k && Covered(line, k)
    decreases n - i
  {
    if i < n {
      if i in line && line[i].end.Some? && i < line[i].end.value {
        assert EndsAt(line, i, line[i].end.value);
        KeptIsCovered(line, line[i].end.value + 1, n);
      }
      KeptIsCovered(line, i + 1, n);
    }
  }

  lemma StartOfBlock(line: Lines, i: nat, e: nat)
    requires i in line && line[i].end == Some(e)
    ensures EndsAt(line, i, e)
    ensures Linked(line, e) ==> forall k: nat | i <= k <= e :: Covered(line, k)
  {
    assert EndsAt(line, i, e);
  }

  ghost predicate Below(line: Lines, n: nat) {
    forall k | k in line :: k < n
  }

  // ---------------------------------------------------------------- referring to a line

  /** The line in memory before line `i`. */
  function PrevLine(line: Lines, i: nat): (r: Option<nat>)
    ensures r.Some? ==> r.value in line && r.value < i && forall k | k in line && k < i :: k <= r.value
    ensures r.None? ==> forall k | k in line :: k >= i
  {
    if i == 0 then None else if i - 1 in line then Some(i - 1) else PrevLine(line, i - 1)
  }

  /** The line whose link count script_line_link changes: the end of the block of line `i`, or `i`
      itself if it ends a block or has no block end. */
  function LinkTarget(line: Lines, i: nat): nat
    requires i in line
  {
    var prev := PrevLine(line, i);
    if line[i].end.Some? && (prev.None? || line[prev.value].end != Some(i)) then line[i].end.value else i
  }

  /** script_line_link on line `i`. */
  function LinkAt(line: Lines, i: nat): Lines
    requires i in line && LinkTarget(line, i) in line
  {
    var t := LinkTarget(line, i);
    line[t := line[t].(links := line[t].links + 1)]
  }

  /** The five lines of a script with two branches and nothing linked. */
  function TwoBranches(ends: seq<Option<nat>>): Lines
    requires |ends| == 5
  {
    map[0 := Line(ends[0], 0, 1), 1 := Line(ends[1], 0, 1), 2 := Line(ends[2], 0, 1),
        3 := Line(ends[3], 0, 1), 4 := Line(ends[4], 0, 1)]
  }

  /** Freeing can go wrong in two ways.  Here lines 0 to 4 are `.if`, a body line, `.else`, a body line and
      `.endif`, and the last body line is referred to: the sweep frees the `.else` together with the line
      before it, although its block is linked. */
  lemma LinkedElseIsFreed()
    ensures var ends := [Some(2), Some(2), Some(4), Some(4), None];
            var line := LinkAt(TwoBranches(ends), 3);
            WellNested(line) && Covered(line, 2) && Kept(line, 0, 5) == {3, 4}
  {
    var line0 := TwoBranches([Some(2), Some(2), Some(4), Some(4), None]);
    assert LinkTarget(line0, 3) == 4;
    var line := LinkAt(line0, 3);
    assert EndsAt(line, 2, 4) && Linked(line, 4);
    assert Kept(line, 5, 5) == {};
    assert Kept(line, 3, 5) == {3, 4};
    assert NextFrom(line, 1, 5) == 1 && NextFrom(line, 2, 5) == 2;
    assert Kept(line, 1, 5) == Kept(line, 3, 5);
  }

  /** Here lines 0 to 4 are `.for`, `.else`, `.macro`, `.endmacro` and `.endfor`, and the `.for`, the
      `.macro` and the `.endfor` are referred to: the sweep keeps the blocks up to the `.endmacro` one
      after the other and then frees the `.endfor`, to which kept lines still point. */
  lemma LinkedEndIsFreed()
    ensures var ends := [Some(1), Some(4), Some(3), Some(4), None];
            var line := LinkAt(LinkAt(LinkAt(TwoBranches(ends), 0), 2), 4);
            WellNested(line) && 4 !in Swept(line, 5) && EndsAt(Swept(line, 5), 1, 4)
  {
    hide LinkAt, TwoBranches, WellNested, Kept, Cleared;
    var line := ThreeReferences();
    ThreeReferencesNested();
    ThreeReferencesKept();
  }

  function ThreeReferred(): Lines {
    map[0 := Line(Some(1), 0, 1), 1 := Line(Some(4), 1, 1), 2 := Line(Some(3), 0, 1),
        3 := Line(Some(4), 1, 1), 4 := Line(None, 1, 1)]
  }

  lemma ThreeReferencesNested()
    ensures WellNested(ThreeReferred())
  {
  }

  lemma ThreeReferencesKept()
    ensures Kept(ThreeReferred(), 0, 5) == {0, 1, 2, 3} && Cleared(ThreeReferred(), 0, 5) == {}
  {
    var line := ThreeReferred();
    assert Kept(line, 4, 5) == {} && Cleared(line, 4, 5) == {};
    assert Kept(line, 2, 5) == {2, 3} && Cleared(line, 2, 5) == {};
  }

  /** The counts that references to lines 0, 2 and 4 make. */
  lemma ThreeReferences() returns (line: Lines)
    ensures line == ThreeReferred()
    ensures var ends := [Some(1), Some(4), Some(3), Some(4), None];
            line == LinkAt(LinkAt(LinkAt(TwoBranches(ends), 0), 2), 4)
  {
    var line0 := TwoBranches([Some(1), Some(4), Some(3), Some(4), None]);
    assert LinkTarget(line0, 0) == 1;
    var line1 := LinkAt(line0, 0);
    assert LinkTarget(line1, 2) == 3;
    var line2 := LinkAt(line1, 2);
    assert LinkTarget(line2, 4) == 4;
    line := LinkAt(line2, 4);
  }

  // ---------------------------------------------------------------- scripts as they are loaded

  /** A loaded script in memory. */
  function InMemory(s: ScriptBlocks.Script, links: seq<nat>, sizes: seq<nat>): Lines
    requires |s.ends| == |links| == |sizes|
  {
    map i: nat | i < |s.ends| :: Line(s.ends[i], links[i], sizes[i])
  }

  lemma LoadedIsWellNested(s: ScriptBlocks.Script, segs: seq<ScriptBlocks.Segment>, links: seq<nat>, sizes: seq<nat>)
    requires ScriptBlocks.Structured(s, segs) && |s.ends| == |links| == |sizes|
    ensures WellNested(InMemory(s, links, sizes)) && Whole(InMemory(s, links, sizes))
    ensures Below(InMemory(s, links, sizes), |s.ends|)
  {
    var line := InMemory(s, links, sizes);
    forall i: nat, e: nat | EndsAt(line, i, e)
      ensures e in line && i < e && forall k: nat | i < k < e :: EndsBy(line, k, e) && line[k].end.Some?
    {
      assert ScriptBlocks.IsInnermostEnd(segs, i, s.ends[i]);
      var g :| g in segs && ScriptBlocks.Covers(g, i) && g.end == e;
      forall k: nat | i < k < e ensures EndsBy(line, k, e) && line[k].end.Some? {
        assert ScriptBlocks.IsInnermostEnd(segs, k, s.ends[k]) && ScriptBlocks.Covers(g, k);
      }
    }
  }

  lemma SegmentOver(s: ScriptBlocks.Script, segs: seq<ScriptBlocks.Segment>, i: nat) returns (g: ScriptBlocks.Segment)
    requires ScriptBlocks.Structured(s, segs) && i < |s.ends| && s.ends[i].Some?
    ensures g in segs && ScriptBlocks.Covers(g, i) && g.end == s.ends[i].value && ScriptBlocks.EndsBlock(s.kind, g)
  {
    assert ScriptBlocks.IsInnermostEnd(segs, i, s.ends[i]);
    g :| g in segs && ScriptBlocks.Covers(g, i) && g.end == s.ends[i].value;
  }

  /** A segment's own block end is that of its first line. */
  lemma SegmentStart(s: ScriptBlocks.Script, segs: seq<ScriptBlocks.Segment>, g: ScriptBlocks.Segment)
    requires ScriptBlocks.Structured(s, segs) && g in segs
    ensures g.start < |s.ends| && s.ends[g.start] == Some(g.end)
  {
    assert ScriptBlocks.IsInnermostEnd(segs, g.start, s.ends[g.start]) && ScriptBlocks.Covers(g, g.start);
    var h :| h in segs && ScriptBlocks.Covers(h, g.start) && Some(h.end) == s.ends[g.start];
    assert h.end <= g.end;
  }

  /** Registering a macro or function links its end line; as long as only such lines are linked,
      the sweep keeps exactly the registered blocks and leaves no dangling block end. */
  lemma MacroLinksStartFresh(s: ScriptBlocks.Script, segs: seq<ScriptBlocks.Segment>, links: seq<nat>, sizes: seq<nat>)
    requires ScriptBlocks.Structured(s, segs) && |s.ends| == |links| == |sizes|
    requires forall e | 0 <= e < |links| && links[e] > 0 :: e < |s.kind| && ScriptBlocks.IsMacroEnd(s.kind[e])
    ensures StartsFresh(InMemory(s, links, sizes))
  {
    hide ScriptBlocks.Structured, ScriptBlocks.IsOpener;
    var line := InMemory(s, links, sizes);
    forall i: nat, j: nat, e: nat | EndsAt(line, j, i) && EndsAt(line, i, e) && Linked(line, e)
      ensures exists f: nat :: f < i && EndsAt(line, f, e)
    {
      var g := SegmentOver(s, segs, i);
      var h := SegmentOver(s, segs, j);
      SegmentStart(s, segs, g);
      assert EndsAt(line, g.start, e);
    }
  }

  /** Referring to the opening line of a block links the end of that block. */
  lemma OpenerLinkTarget(s: ScriptBlocks.Script, segs: seq<ScriptBlocks.Segment>, links: seq<nat>, sizes: seq<nat>,
      i: nat)
    requires ScriptBlocks.Structured(s, segs) && |s.ends| == |links| == |sizes|
    requires i < |s.ends| && ScriptBlocks.IsOpener(s.kind[i]) && s.ends[i].Some?
    ensures LinkTarget(InMemory(s, links, sizes), i) == s.ends[i].value
  {
    assert i > 0 ==> ScriptBlocks.IsInnermostEnd(segs, i - 1, s.ends[i - 1]);
    assert forall g | g in segs :: ScriptBlocks.EndsBlock(s.kind, g);
  }
}
