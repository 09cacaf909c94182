/** The cache of parsed scripts: freeing a script's lines in place, and evicting scripts until the
    space taken by parse trees is within a limit. */
module ScriptCache {
  import opened Syntax
  import opened ScriptCollect
  import opened ScriptExact
  import opened ScriptReferences
  import ScriptBlocks

  // ---------------------------------------------------------------- the sweep in place

  function TotalSize(line: Lines, n: nat): nat {
    if n == 0 then 0 else TotalSize(line, n - 1) + if n - 1 in line then line[n - 1].size else 0
  }

  lemma {:induction false} SameTotal(a: Lines, b: Lines, n: nat)
    requires forall k | 0 <= k < n :: (k in a <==> k in b) && (k in a ==> a[k].size == b[k].size)
    ensures TotalSize(a, n) == TotalSize(b, n)
  {
    if n > 0 { SameTotal(a, b, n - 1); }
  }

  lemma {:induction false} TotalWithout(line: Lines, i: nat, n: nat)
    requires i in line && i < n
    ensures TotalSize(line, n) == TotalSize(line - {i}, n) + line[i].size
  {
    if i == n - 1 {
      SameTotal(line, line - {i}, n - 1);
    } else {
      TotalWithout(line, i, n - 1);
    }
  }

  lemma {:induction false} NextSame(a: Lines, b: Lines, i: nat, n: nat)
    requires forall k | i <= k < n :: k in a <==> k in b
    ensures NextFrom(a, i, n) == NextFrom(b, i, n)
    decreases n - i
  {
    if i < n && i !in a { NextSame(a, b, i + 1, n); }
  }

  lemma {:induction false} SkipGap(line: Lines, i: nat, n: nat)
    ensures Kept(line, i, n) == Kept(line, NextFrom(line, i, n), n)
    ensures Cleared(line, i, n) == Cleared(line, NextFrom(line, i, n), n)
    decreases n - i
  {
    if i < n && i !in line { SkipGap(line, i + 1, n); }
  }

  /** The sweep has reached `i`: from there on nothing has changed, and of the lines before it those
      in `kept` remain, with the block ends of `cleared` removed. */
  ghost predicate Sweeping(line0: Lines, line: Lines, i: nat, n: nat, kept: set<nat>, cleared: set<nat>) {
    && (forall k | k in line :: k in line0 && (i <= k || k in kept))
    && (forall k | k in line0 && i <= k :: k in line && line[k] == line0[k])
    && (forall k | k in kept ::
        k < i && k in line && line[k] == if k in cleared then line0[k].(end := None) else line0[k])
    && (forall k | k in cleared :: k in kept)
    && Kept(line0, 0, n) == kept + Kept(line0, i, n)
    && Cleared(line0, 0, n) == cleared + Cleared(line0, i, n)
  }

  lemma KeepBlock(line0: Lines, line: Lines, i: nat, e: nat, n: nat, kept: set<nat>, cleared: set<nat>)
    requires WellNested(line0) && Sweeping(line0, line, i, n, kept, cleared)
    requires i < n && EndsAt(line0, i, e) && Linked(line0, e)
    ensures e in line && i < e
    ensures var clear := line0[e].end.Some? && !Linked(line0, line0[e].end.value);
            Sweeping(line0, if clear then line[e := line0[e].(end := None)] else line, e + 1, n,
                     kept + (set k | k in line0 && i <= k <= e), if clear then cleared + {e} else cleared)
  {
  }

  lemma FreeLine(line0: Lines, line: Lines, i: nat, n: nat, kept: set<nat>, cleared: set<nat>)
    requires WellNested(line0) && Sweeping(line0, line, i, n, kept, cleared)
    requires i < n && i in line0 && (line0[i].end.Some? ==> !Linked(line0, line0[i].end.value))
    ensures i in line && (line0[i].end.Some? ==> EndsAt(line0, i, line0[i].end.value) && line0[i].end.value > i)
    ensures var e := NextFrom(line0, i + 1, n);
            if e < n && line0[i].end == Some(e)
            then Sweeping(line0, line - {i} - {e}, e + 1, n, kept, cleared)
            else Sweeping(line0, line - {i}, i + 1, n, kept, cleared)
  {
    assert line0[i].end.Some? ==> EndsAt(line0, i, line0[i].end.value);
  }

  /** The lines still ahead of the sweep are as they were. */
  lemma Ahead(line0: Lines, line: Lines, i: nat, n: nat, kept: set<nat>, cleared: set<nat>)
    requires Sweeping(line0, line, i, n, kept, cleared)
    ensures forall k | i <= k :: k in line <==> k in line0
    ensures forall k | k in line0 && i <= k :: line[k] == line0[k]
  {
  }

  lemma EndIsAhead(line: Lines, i: nat)
    requires WellNested(line) && i in line && line[i].end.Some?
    ensures EndsAt(line, i, line[i].end.value) && i < line[i].end.value && line[i].end.value in line
  {
    assert EndsAt(line, i, line[i].end.value);
  }

  lemma SweepDone(line0: Lines, line: Lines, i: nat, n: nat, kept: set<nat>, cleared: set<nat>)
    requires Sweeping(line0, line, i, n, kept, cleared) && Below(line0, n) && n <= i
    ensures line == Swept(line0, n)
  {
    assert Kept(line0, i, n) == {} && Cleared(line0, i, n) == {};
  }

  /** destroy_script_handle_lines: the loop frees exactly what the sweep does not keep, each
      line once, and reports the space freed. */
  method Sweep(line0: Lines, n: nat) returns (line: Lines, freed: nat)
    requires WellNested(line0) && Below(line0, n)
    ensures line == Swept(line0, n)
    ensures TotalSize(line0, n) == TotalSize(line, n) + freed
  {
    hide Sweeping, WellNested, TotalSize, Swept, Kept, Cleared;
    line, freed := line0, 0;
    ghost var kept, cleared := {}, {};
    SweepBegins(line0, n);
    var i := Advance(line0, line, 0, n, kept, cleared);
    while i < n
      invariant Sweeping(line0, line, i, n, kept, cleared)
      invariant i < n ==> i in line0
      invariant TotalSize(line0, n) == TotalSize(line, n) + freed
      decreases n - i
    {
      Ahead(line0, line, i, n, kept, cleared);
      var end := line[i].end;
      if end.Some? { EndIsAhead(line0, i); }
      if end.Some? && line[end.value].links > 0 {
        i, line, kept, cleared := KeepOn(line0, line, i, end.value, n, kept, cleared);
      } else {
        var space;
        i, line, space := FreeOn(line0, line, i, n, kept, cleared);
        freed := freed + space;
      }
    }
    SweepDone(line0, line, i, n, kept, cleared);
  }

  lemma SweepBegins(line: Lines, n: nat)
    ensures Sweeping(line, line, 0, n, {}, {})
  {
  }

  /** The block of line `i` has a linked end: keep it and go on behind it. */
  method KeepOn(ghost line0: Lines, line: Lines, i: nat, e: nat, n: nat, ghost kept: set<nat>, ghost cleared: set<nat>)
    returns (r: nat, line': Lines, ghost kept': set<nat>, ghost cleared': set<nat>)
    requires WellNested(line0) && Below(line0, n) && Sweeping(line0, line, i, n, kept, cleared)
    requires i < n && EndsAt(line0, i, e) && Linked(line0, e)
    ensures r > i && Sweeping(line0, line', r, n, kept', cleared') && (r < n ==> r in line0)
    ensures TotalSize(line', n) == TotalSize(line, n)
  {
    hide Sweeping, WellNested, TotalSize, Kept, Cleared;
    KeepBlock(line0, line, i, e, n, kept, cleared);
    Ahead(line0, line, i, n, kept, cleared);
    if line[e].end.Some? { EndIsAhead(line0, e); }
    kept' := kept + (set k | k in line0 && i <= k <= e);
    if line[e].end.Some? && line[line[e].end.value].links == 0 {
      cleared' := cleared + {e};
      line' := line[e := line[e].(end := None)];
    } else {
      cleared', line' := cleared, line;
    }
    SameTotal(line, line', n);
    r := Advance(line0, line', e + 1, n, kept', cleared');
  }

  /** Free line `i` and, if its block end is the next line, that one too. */
  method FreeOn(ghost line0: Lines, line: Lines, i: nat, n: nat, ghost kept: set<nat>, ghost cleared: set<nat>)
    returns (r: nat, line': Lines, space: nat)
    requires WellNested(line0) && Below(line0, n) && Sweeping(line0, line, i, n, kept, cleared)
    requires i < n && i in line0 && i in line && (line0[i].end.Some? ==> !Linked(line0, line0[i].end.value))
    ensures r > i && Sweeping(line0, line', r, n, kept, cleared) && (r < n ==> r in line0)
    ensures TotalSize(line, n) == TotalSize(line', n) + space
  {
    hide Sweeping, WellNested, TotalSize, Kept, Cleared;
    FreeLine(line0, line, i, n, kept, cleared);
    Ahead(line0, line, i, n, kept, cleared);
    NextSame(line, line0, i + 1, n);
    var end, next := line[i].end, NextFrom(line, i + 1, n);
    TotalWithout(line, i, n);
    space := line[i].size;
    line' := line - {i};
    if next < n && end == Some(next) {
      TotalWithout(line', next, n);
      space := space + line'[next].size;
      line' := line' - {next};
      r := Advance(line0, line', next + 1, n, kept, cleared);
    } else {
      r := Advance(line0, line', i + 1, n, kept, cleared);
    }
  }

  /** Follow the list to the next line in memory. */
  method Advance(ghost line0: Lines, line: Lines, i: nat, n: nat, ghost kept: set<nat>, ghost cleared: set<nat>)
      returns (r: nat)
    requires Sweeping(line0, line, i, n, kept, cleared) && Below(line0, n)
    ensures r >= i && Sweeping(line0, line, r, n, kept, cleared) && (r < n ==> r in line0)
  {
    NextSame(line, line0, i, n);
    SkipGap(line0, i, n);
    r := NextFrom(line, i, n);
  }

  // ---------------------------------------------------------------- filling in block ends

  /** Closing a block at the last line gives that line as block end to the lines that have none. */
  function FilledLines(line: Lines, start: nat, upto: nat, last: nat): Lines {
    map k | k in line :: if start <= k < upto && line[k].end.None? then line[k].(end := Some(last)) else line[k]
  }

  lemma FilledIsNested(line: Lines, start: nat, last: nat)
    requires WellNested(line) && Whole(line) && last in line && Below(line, last + 1)
    ensures WellNested(FilledLines(line, start, last, last)) && Whole(FilledLines(line, start, last, last))
  {
    var filled := FilledLines(line, start, last, last);
    forall i: nat, e: nat | EndsAt(filled, i, e) ensures EndsAt(line, i, e) || (e == last && start <= i < last) { }
    forall i: nat, e: nat, k: nat | EndsAt(filled, i, e) && k in filled && i < k < e
      ensures EndsBy(filled, k, e) && filled[k].end.Some?
    {
      if EndsAt(line, i, e) {
        assert EndsBy(line, k, e);
      } else if line[k].end.Some? {
        assert EndsAt(line, k, line[k].end.value);
      }
    }
  }

  lemma JumpIsFilled(line: Lines, i: nat, last: nat)
    requires WellNested(line) && Whole(line) && i in line && line[i].end.Some? && Below(line, last + 1)
    ensures i < line[i].end.value <= last && line[i].end.value in line
    ensures forall k | k in line && i <= k < line[i].end.value :: line[k].end.Some?
  {
    assert EndsAt(line, i, line[i].end.value);
  }

  /** The fill of pop_control on the lines in memory, jumping over inner blocks. */
  method FillEnds(line0: Lines, start: nat, last: nat) returns (line: Lines)
    requires WellNested(line0) && Whole(line0) && Below(line0, last + 1) && start in line0 && last in line0
               && start <= last
    ensures line == FilledLines(line0, start, last, last)
  {
    line := line0;
    var i := start;
    while i != last
      invariant start <= i <= last && i in line0 && line == FilledLines(line0, start, i, last)
      decreases last - i
    {
      if line[i].end.Some? {
        JumpIsFilled(line0, i, last);
        i := line[i].end.value;
      } else {
        line := line[i := line[i].(end := Some(last))];
        i := NextFrom(line0, i + 1, last);
      }
    }
  }

  /** The loader's fill, on its sequence of block ends, is this one. */
  lemma LoaderFills(s: ScriptBlocks.Script, s': ScriptBlocks.Script, links: seq<nat>, sizes: seq<nat>, start: nat)
    requires |s.ends| == |links| == |sizes| > 0
    requires ScriptBlocks.FilledFrom(s.ends, s'.ends, start, |s.ends| - 1, |s.ends| - 1)
    ensures InMemory(s', links, sizes) == FilledLines(InMemory(s, links, sizes), start, |s.ends| - 1, |s.ends| - 1)
  {
  }

  // ---------------------------------------------------------------- handles

  /** A script: `count` lines have been read, those in `line` are in memory. */
  datatype Handle =
    Handle(id: nat, line: Lines, count: nat, size: int, links: nat, waiting: nat, keep: bool, lastClosed: int)

  predicate InUse(h: Handle) {
    h.links > 0 || h.waiting > 0
  }

  /** The accounts of a script; one that nobody uses has lines in memory.  No script is ever given a time
      of closing. */
  ghost predicate Healthy(h: Handle) {
    && Below(h.line, h.count) && h.size == TotalSize(h.line, h.count)
    && (InUse(h) || h.line != map[]) && h.lastClosed == 0
  }

  ghost function SumSizes(hs: seq<Handle>): int {
    if hs == [] then 0 else hs[0].size + SumSizes(hs[1..])
  }

  ghost function CountLines(hs: seq<Handle>): nat {
    if hs == [] then 0 else |hs[0].line| + CountLines(hs[1..])
  }

  lemma {:induction false} SumsOfUpdate(hs: seq<Handle>, j: nat, h: Handle)
    requires j < |hs|
    ensures SumSizes(hs[j := h]) == SumSizes(hs) - hs[j].size + h.size
    ensures CountLines(hs[j := h]) == CountLines(hs) - |hs[j].line| + |h.line|
    decreases |hs|
  {
    if j > 0 {
      assert hs[j := h][1..] == hs[1..][j - 1 := h];
      SumsOfUpdate(hs[1..], j - 1, h);
    }
  }

  lemma {:induction false} SumsOfRemoval(hs: seq<Handle>, j: nat)
    requires j < |hs|
    ensures SumSizes(hs[..j] + hs[j + 1..]) == SumSizes(hs) - hs[j].size
    ensures CountLines(hs[..j] + hs[j + 1..]) == CountLines(hs) - |hs[j].line|
    decreases |hs|
  {
    if j == 0 {
      assert hs[..0] + hs[1..] == hs[1..];
    } else {
      assert (hs[..j] + hs[j + 1..])[1..] == hs[1..][..j - 1] + hs[1..][j..];
      SumsOfRemoval(hs[1..], j - 1);
    }
  }

  // ---------------------------------------------------------------- eviction

  /** May the script be freed to make room? */
  predicate Eligible(h: Handle) {
    !InUse(h) && var last := PrevLine(h.line, h.count); last.Some? && h.line[last.value].links == 0
  }

  /** A script may be freed if nobody uses it, nobody is still reading it, and its last line in memory is not
      linked. */
  lemma {:induction false} EligibleIff(h: Handle)
    requires Below(h.line, h.count)
    ensures Eligible(h) <==>
            && h.links == 0 && h.waiting == 0
            && exists last: nat :: IsLast(h.line, last) && h.line[last].links == 0
  {
    var p := PrevLine(h.line, h.count);
    if p.Some? { assert IsLast(h.line, p.value); }
  }

  predicate IsLast(line: Lines, last: nat) {
    last in line && forall k | k in line :: k <= last
  }

  lemma LastIsNotCovered(line: Lines, last: nat)
    requires WellNested(line) && last in line && line[last].links == 0 && forall k | k in line :: k <= last
    ensures !Covered(line, last)
  {
  }

  /** Freeing an eligible script frees at least its last line. */
  lemma EligibleShrinks(h: Handle)
    requires Healthy(h) && Eligible(h) && WellNested(h.line)
    ensures |Freed(h).line| < |h.line|
  {
    hide Covered, WellNested, Kept, Cleared;
    var last := PrevLine(h.line, h.count).value;
    KeptIsCovered(h.line, 0, h.count);
    LastIsNotCovered(h.line, last);
    assert Swept(h.line, h.count).Keys <= h.line.Keys - {last};
    SubsetIsSmaller(Swept(h.line, h.count).Keys, h.line.Keys - {last});
  }

  lemma {:induction false} SubsetIsSmaller(a: set<nat>, b: set<nat>)
    requires a <= b
    ensures |a| <= |b|
    decreases |a|
  {
    if a != {} {
      var x :| x in a;
      SubsetIsSmaller(a - {x}, b - {x});
    }
  }

  lemma {:induction false} KeptReachesLinked(line: Lines, i: nat, n: nat, k: nat)
    requires k in Kept(line, i, n)
    ensures exists e: nat :: e in Kept(line, i, n) && k <= e && Linked(line, e)
    decreases n - i
  {
    if i in line && line[i].end.Some? && i < line[i].end.value && Linked(line, line[i].end.value) {
      var e := line[i].end.value;
      assert e in Kept(line, i, n);
      if !(i <= k <= e) {
        KeptReachesLinked(line, e + 1, n, k);
      }
    } else if i in line && line[i].end.Some? && i < line[i].end.value < n
        && NextFrom(line, i + 1, n) == line[i].end.value {
      KeptReachesLinked(line, line[i].end.value + 1, n, k);
    } else {
      KeptReachesLinked(line, i + 1, n, k);
    }
  }

  /** A script as freeing leaves it. */
  function Freed(h: Handle): Handle {
    var line := Swept(h.line, h.count);
    h.(line := line, size := TotalSize(line, h.count), keep := false)
  }

  /** What is left of a script ends with a linked line, so that it is not freed again to make room. */
  lemma FreedIsNotEligible(h: Handle)
    requires Below(h.line, h.count) && Freed(h).line != map[]
    ensures !Eligible(Freed(h)) && Below(Freed(h).line, h.count)
  {
    hide Kept, Cleared, Covered;
    KeptIsCovered(h.line, 0, h.count);
    var line := Swept(h.line, h.count);
    var last := PrevLine(line, h.count);
    if last.Some? {
      KeptReachesLinked(h.line, 0, h.count, last.value);
      var e: nat :| e in Kept(h.line, 0, h.count) && last.value <= e && Linked(h.line, e);
      assert e in line;
    }
  }

  /** Every script is as it was; or it was eligible, and has been freed, and removed if no line was left. */
  ghost predicate Evolves(a: seq<Handle>, b: seq<Handle>)
    decreases |a|
  {
    if a == [] then b == []
    else
      || (b != [] && b[0] == a[0] && Evolves(a[1..], b[1..]))
      || (Eligible(a[0]) && Freed(a[0]).line != map[] && b != [] && b[0] == Freed(a[0]) && Evolves(a[1..], b[1..]))
      || (Eligible(a[0]) && Freed(a[0]).line == map[] && Evolves(a[1..], b))
  }

  lemma {:induction false} EvolvesNot(a: seq<Handle>)
    ensures Evolves(a, a)
  {
    if a != [] { EvolvesNot(a[1..]); }
  }

  /** Freeing the script at `j`. */
  function FreedAt(hs: seq<Handle>, j: nat): seq<Handle>
    requires j < |hs|
  {
    if Freed(hs[j]).line != map[] then hs[j := Freed(hs[j])] else hs[..j] + hs[j + 1..]
  }

  lemma EvolvesFirst(a: seq<Handle>, b: seq<Handle>)
    requires a != [] && b != [] && Evolves(a[1..], b[1..])
    requires b[0] == a[0] || (Eligible(a[0]) && Freed(a[0]).line != map[] && b[0] == Freed(a[0]))
    ensures Evolves(a, b)
  {
  }

  lemma EvolvesGone(a: seq<Handle>, b: seq<Handle>)
    requires a != [] && Eligible(a[0]) && Freed(a[0]).line == map[] && Evolves(a[1..], b)
    ensures Evolves(a, b)
  {
  }

  lemma EvolvesCases(a: seq<Handle>, b: seq<Handle>)
    requires Evolves(a, b) && b != []
    ensures a != []
    ensures || (b[0] == a[0] && Evolves(a[1..], b[1..]))
            || (Eligible(a[0]) && Freed(a[0]).line != map[] && b[0] == Freed(a[0]) && Evolves(a[1..], b[1..]))
            || (Eligible(a[0]) && Freed(a[0]).line == map[] && Evolves(a[1..], b))
  {
  }

  lemma FreedBehind(b: seq<Handle>, j: nat)
    requires 0 < j < |b|
    ensures FreedAt(b, j) != [] && FreedAt(b, j)[0] == b[0] && FreedAt(b, j)[1..] == FreedAt(b[1..], j - 1)
  {
    if Freed(b[j]).line == map[] {
      assert FreedAt(b, j) == [b[0]] + (b[1..][..j - 1] + b[1..][j..]);
    } else {
      assert b[j := Freed(b[j])][1..] == b[1..][j - 1 := Freed(b[j])];
    }
  }

  lemma FreedFirst(b: seq<Handle>)
    requires b != []
    ensures if Freed(b[0]).line == map[] then FreedAt(b, 0) == b[1..]
            else FreedAt(b, 0) != [] && FreedAt(b, 0)[0] == Freed(b[0]) && FreedAt(b, 0)[1..] == b[1..]
  {
  }

  lemma {:induction false} EvolvesMore(a: seq<Handle>, b: seq<Handle>, j: nat)
    requires Evolves(a, b) && j < |b| && Eligible(b[j]) && forall i | 0 <= i < |a| :: Healthy(a[i])
    ensures Evolves(a, FreedAt(b, j))
    decreases |a|
  {
    hide Healthy, Eligible, Freed, Evolves, FreedAt;
    EvolvesCases(a, b);
    if b[0] == a[0] && Evolves(a[1..], b[1..]) && j == 0 {
      FreedFirst(b);
      if Freed(a[0]).line == map[] { EvolvesGone(a, b[1..]); } else { EvolvesFirst(a, FreedAt(b, 0)); }
    } else if Evolves(a[1..], b[1..])
              && (b[0] == a[0] || (Eligible(a[0]) && Freed(a[0]).line != map[] && b[0] == Freed(a[0]))) {
      if b[0] != a[0] { HealthyFreed(a[0]); }
      EvolvesMore(a[1..], b[1..], j - 1);
      FreedBehind(b, j);
      EvolvesFirst(a, FreedAt(b, j));
    } else {
      EvolvesMore(a[1..], b, j);
      EvolvesGone(a, FreedAt(b, j));
    }
  }

  lemma HealthyFreed(h: Handle)
    requires Healthy(h) && Freed(h).line != map[]
    ensures !Eligible(Freed(h))
  {
    FreedIsNotEligible(h);
  }

  /** Scripts that were not eligible are still there, unchanged. */
  lemma {:induction false} IneligibleStay(a: seq<Handle>, b: seq<Handle>, i: nat)
    requires Evolves(a, b) && i < |a| && !Eligible(a[i])
    ensures a[i] in b
    decreases |a|
  {
    hide Eligible, Freed;
    if i > 0 {
      if b != [] && Evolves(a[1..], b[1..]) {
        IneligibleStay(a[1..], b[1..], i - 1);
      } else {
        IneligibleStay(a[1..], b, i - 1);
      }
    }
  }

  /** Every script that had a linked block is still there, at least as freed. */
  lemma {:induction false} EvolvesKeeps(a: seq<Handle>, b: seq<Handle>, i: nat)
    requires Evolves(a, b) && i < |a| && Freed(a[i]).line != map[]
    ensures a[i] in b || Freed(a[i]) in b
    decreases |a|
  {
    hide Eligible, Freed;
    if i > 0 {
      if b != [] && Evolves(a[1..], b[1..]) {
        EvolvesKeeps(a[1..], b[1..], i - 1);
      } else {
        EvolvesKeeps(a[1..], b, i - 1);
      }
    }
  }

  /** No block that is referred to is lost to eviction: a line of a linked block of a sound script is still in
      memory, in a script with the same name, that is sound as well. */
  lemma LinkedBlocksSurvive(a: seq<Handle>, b: seq<Handle>, i: nat, k: nat)
    requires Evolves(a, b) && i < |a| && Below(a[i].line, a[i].count)
    requires WellNested(a[i].line) && Sound(a[i].line) && k in a[i].line && Covered(a[i].line, k)
    ensures exists h :: h in b && h.id == a[i].id && k in h.line && h.line[k].links == a[i].line[k].links
                        && WellNested(h.line) && Sound(h.line)
  {
    hide Covered, WellNested, Sound, Kept, Cleared;
    SweepIsExactIff(a[i].line, a[i].count);
    SweptIsSound(a[i].line, a[i].count);
    assert k in Freed(a[i]).line;
    EvolvesKeeps(a, b, i);
  }

  /** Line `k` is in a linked block of a script that the sweep treats rightly. */
  ghost predicate IsReferredTo(h: Handle, k: nat) {
    k in h.line && Covered(h.line, k) && Sound(h.line)
  }

  ghost predicate Survives(hs: seq<Handle>, id: nat, k: nat) {
    exists h :: h in hs && h.id == id && k in h.line
  }

  /** What eviction leaves alone. */
  lemma Untouched(a: seq<Handle>, b: seq<Handle>)
    requires Evolves(a, b) && Sweepable(a) && forall i | 0 <= i < |a| :: Healthy(a[i])
    ensures forall i | 0 <= i < |a| && !Eligible(a[i]) :: a[i] in b
    ensures forall i, k | 0 <= i < |a| && IsReferredTo(a[i], k) :: Survives(b, a[i].id, k)
  {
    hide Evolves, Eligible, WellNested, Sound, Covered;
    forall i | 0 <= i < |a| && !Eligible(a[i]) ensures a[i] in b { IneligibleStay(a, b, i); }
    forall i, k | 0 <= i < |a| && IsReferredTo(a[i], k) ensures Survives(b, a[i].id, k) {
      if Eligible(a[i]) {
        assert Healthy(a[i]);
        LinkedBlocksSurvive(a, b, i, k);
      } else {
        IneligibleStay(a, b, i);
      }
    }
  }

  // ---------------------------------------------------------------- the cache

  /** Every script nests properly, and no linked block starts on a line that ends another. */
  ghost predicate Orderly(hs: seq<Handle>) {
    forall j | 0 <= j < |hs| :: WellNested(hs[j].line) && StartsFresh(hs[j].line)
  }

  lemma OrderlyIsSweepable(hs: seq<Handle>)
    requires Orderly(hs)
    ensures Sweepable(hs)
  {
    hide WellNested, StartsFresh;
  }

  lemma OrderlyReplaced(hs: seq<Handle>, j: nat, h: Handle)
    requires Orderly(hs) && j < |hs| && WellNested(h.line) && StartsFresh(h.line)
    ensures Orderly(hs[j := h])
  {
    hide WellNested, StartsFresh;
  }

  lemma OrderlyFreed(hs: seq<Handle>, j: nat)
    requires Orderly(hs) && j < |hs| && Below(hs[j].line, hs[j].count)
    ensures Orderly(FreedAt(hs, j))
  {
    hide WellNested, StartsFresh, Covered;
    SweepKeepsLinkedBlocks(hs[j].line, hs[j].count);
  }

  /** Eviction keeps order. */
  lemma {:induction false} EvolvesOrderly(a: seq<Handle>, b: seq<Handle>)
    requires Evolves(a, b) && Orderly(a) && forall i | 0 <= i < |a| :: Healthy(a[i])
    ensures Orderly(b)
    decreases |a|
  {
    hide WellNested, StartsFresh, Eligible, Freed, Evolves;
    if b != [] {
      EvolvesCases(a, b);
      FirstOrderly(a);
      if Evolves(a[1..], b[1..]) && (b[0] == a[0] || b[0] == Freed(a[0])) {
        EvolvesOrderly(a[1..], b[1..]);
      } else {
        EvolvesOrderly(a[1..], b);
      }
    }
  }

  lemma FirstOrderly(a: seq<Handle>)
    requires Orderly(a) && a != [] && Healthy(a[0])
    ensures WellNested(a[0].line) && StartsFresh(a[0].line)
    ensures WellNested(Freed(a[0]).line) && StartsFresh(Freed(a[0]).line)
  {
    hide WellNested, StartsFresh, Covered;
    SweepKeepsLinkedBlocks(a[0].line, a[0].count);
  }

  /** The block that ends at `t` starts afresh: no line that ends another block is the first to have `t` as its
      block end. */
  ghost predicate FreshTarget(line: Lines, t: nat) {
    forall k: nat, j: nat | EndsAt(line, j, k) && EndsAt(line, k, t) :: exists f: nat :: f < k && EndsAt(line, f, t)
  }

  /** Giving a reference up links no more than before. */
  lemma UnlinkKeepsFresh(line: Lines, t: nat)
    requires t in line && line[t].links > 0
    ensures WellNested(line) ==> WellNested(Relinked(line, t, -1))
    ensures StartsFresh(line) ==> StartsFresh(Relinked(line, t, -1))
  {
    var after := Relinked(line, t, -1);
    assert forall k: nat, e: nat :: EndsAt(after, k, e) <==> EndsAt(line, k, e);
    assert forall e: nat :: Linked(after, e) ==> Linked(line, e);
    if StartsFresh(line) {
      forall k: nat, j: nat, e: nat | EndsAt(after, j, k) && EndsAt(after, k, e) && Linked(after, e)
        ensures exists f: nat :: f < k && EndsAt(after, f, e)
      {
        assert EndsAt(line, j, k) && EndsAt(line, k, e);
        var f: nat :| f < k && EndsAt(line, f, e);
        assert EndsAt(after, f, e);
      }
    }
  }

  lemma LinkKeepsNesting(line: Lines, i: nat)
    requires i in line && LinkTarget(line, i) in line && WellNested(line)
    ensures WellNested(LinkAt(line, i))
  {
    assert forall k: nat, e: nat :: EndsAt(LinkAt(line, i), k, e) <==> EndsAt(line, k, e);
  }

  /** A block that ends at a line nobody refers to is no linked block. */
  lemma FilledIsFresh(line: Lines, start: nat, last: nat)
    requires StartsFresh(line) && last in line && line[last].links == 0 && line[last].end.None?
    ensures StartsFresh(FilledLines(line, start, last, last))
  {
    var filled := FilledLines(line, start, last, last);
    assert forall i: nat, e: nat :: EndsAt(filled, i, e) ==> EndsAt(line, i, e) || e == last;
    assert forall i: nat, e: nat :: EndsAt(line, i, e) ==> EndsAt(filled, i, e);
    assert forall e: nat :: Linked(filled, e) ==> Linked(line, e) && e != last;
    forall k: nat, j: nat, e: nat | EndsAt(filled, j, k) && EndsAt(filled, k, e) && Linked(filled, e)
      ensures exists f: nat :: f < k && EndsAt(filled, f, e)
    {
      assert k != last;
      assert EndsAt(line, j, k) && EndsAt(line, k, e) && Linked(line, e);
      var f: nat :| f < k && EndsAt(line, f, e);
      assert EndsAt(filled, f, e);
    }
  }

  /** The references to a sound script, each to a line that has a block end or ends a block, are respected by any
      number of evictions: the script is still there, and its counts are those of the same references. */
  lemma ReferencesSurvive(a: seq<Handle>, b: seq<Handle>, i: nat, r: seq<nat>)
    requires Evolves(a, b) && i < |a| && Below(a[i].line, a[i].count) && WellNested(a[i].line) && Sound(a[i].line)
    requires Counts(a[i].line, r) && AllAnchored(a[i].line, r) && r != []
    ensures exists h :: h in b && h.id == a[i].id && WellNested(h.line) && Sound(h.line)
                        && Counts(h.line, r) && AllAnchored(h.line, r)
  {
    hide WellNested, Sound, Kept, Cleared, Evolves, AllAnchored;
    SweptIsSound(a[i].line, a[i].count);
    SweepCounts(a[i].line, a[i].count, r);
    assert r[0] in Freed(a[i]).line;
    EvolvesKeeps(a, b, i);
  }

  /** The scripts that may be freed to make room have no dangling block ends. */
  ghost predicate Sweepable(hs: seq<Handle>) {
    forall j | 0 <= j < |hs| && Eligible(hs[j]) :: WellNested(hs[j].line)
  }

  class Cache {
    var handles: seq<Handle>
    var total: int

    /** The accounts of every script are right, and the space in use is the sum over the scripts. */
    ghost predicate Valid()
      reads this
    {
      && (forall j | 0 <= j < |handles| :: Healthy(handles[j]))
      && total == SumSizes(handles)
    }

    constructor ()
      ensures Valid() && handles == [] && total == 0
    {
      handles, total := [], 0;
    }

    /** create_script_handle: the new script is in use by the thread that reads it. */
    method NewHandle(id: nat, keep: bool)
      requires Valid()
      modifies this
      ensures Valid() && total == old(total)
      ensures handles == [Handle(id, map[], 0, 0, 0, 1, keep, 0)] + old(handles)
      ensures WellNested(handles[0].line) && Whole(handles[0].line) && StartsFresh(handles[0].line)
      ensures Orderly(old(handles)) ==> Orderly(handles)
    {
      handles := [Handle(id, map[], 0, 0, 0, 1, keep, 0)] + handles;
      assert handles[1..] == old(handles);
      assert forall i: nat, e: nat :: !EndsAt(map[], i, e);
    }

    /** Replace the script at `j` by one with the same lines, up to block ends and links. */
    method Replace(j: nat, h: Handle)
      requires Valid() && j < |handles| && h.line.Keys == handles[j].line.Keys && h.count == handles[j].count
      requires forall k | k in h.line :: h.line[k].size == handles[j].line[k].size
      requires h.size == handles[j].size && h.lastClosed == 0 && (InUse(h) || h.line != map[])
      modifies this`handles
      ensures Valid() && handles == old(handles)[j := h]
    {
      SameTotal(handles[j].line, h.line, h.count);
      SumsOfUpdate(handles, j, h);
      handles := handles[j := h];
    }

    /** save_the_node: append a line; script and cache grow by its size. */
    method SaveLine(j: nat, size: nat)
      requires Valid() && j < |handles|
      modifies this
      ensures Valid() && total == old(total) + size
      ensures handles == old(handles)[j := WithLine(old(handles)[j], size)]
      ensures Orderly(old(handles)) ==> Orderly(handles)
    {
      var h := handles[j];
      LineAdded(h, size);
      if Orderly(handles) { OrderlyReplaced(handles, j, WithLine(h, size)); }
      SumsOfUpdate(handles, j, WithLine(h, size));
      handles, total := handles[j := WithLine(h, size)], total + size;
    }

    /** pop_control, on the script being loaded: the block opened at `start` ends at the last line. */
    method CloseBlock(j: nat, start: nat)
      requires Valid() && j < |handles| && WellNested(handles[j].line) && Whole(handles[j].line)
      requires handles[j].count > 0 && handles[j].count - 1 in handles[j].line && start in handles[j].line
      modifies this`handles
      ensures Valid()
      ensures var h := old(handles)[j]; var last := h.count - 1;
              handles == old(handles)[j := h.(line := FilledLines(h.line, start, last, last))]
      ensures WellNested(handles[j].line) && Whole(handles[j].line)
      ensures var last := old(handles)[j].line[old(handles)[j].count - 1];
              Orderly(old(handles)) && last.links == 0 && last.end.None? ==> Orderly(handles)
    {
      var h := handles[j];
      var last := h.count - 1;
      FilledIsNested(h.line, start, last);
      if Orderly(handles) && h.line[last].links == 0 && h.line[last].end.None? {
        FilledIsFresh(h.line, start, last);
        OrderlyReplaced(handles, j, h.(line := FilledLines(h.line, start, last, last)));
      }
      var line := FillEnds(h.line, start, last);
      Replace(j, h.(line := line));
    }

    /** script_line_link: refer to the block of line `i`. */
    method LinkLine(j: nat, i: nat)
      requires Valid() && j < |handles| && i in handles[j].line && LinkTarget(handles[j].line, i) in handles[j].line
      modifies this`handles
      ensures Valid()
      ensures var h := old(handles)[j]; handles == old(handles)[j := h.(line := LinkAt(h.line, i))]
      ensures forall r | Counts(old(handles)[j].line, r) :: Counts(handles[j].line, r + [i])
      ensures var line := old(handles)[j].line;
              Orderly(old(handles)) && FreshTarget(line, LinkTarget(line, i)) ==> Orderly(handles)
    {
      hide Counts;
      var h := handles[j];
      forall r | Counts(h.line, r) ensures Counts(LinkAt(h.line, i), r + [i]) { LinkCounts(h.line, r, i); }
      if Orderly(handles) && FreshTarget(h.line, LinkTarget(h.line, i)) {
        LinkKeepsNesting(h.line, i);
        LinkKeepsFresh(h.line, i);
        OrderlyReplaced(handles, j, h.(line := LinkAt(h.line, i)));
      }
      Replace(j, h.(line := LinkAt(h.line, i)));
    }

    /** script_line_destroy: give up the reference `r[m]`, one of those the counts stand for.  The count is
        found where it was made, and the counts then stand for the others.  Lines belong to a script, so that
        none is freed here. */
    method UnlinkLine(j: nat, i: nat, ghost r: seq<nat>, ghost m: nat)
      requires Valid() && j < |handles| && Counts(handles[j].line, r) && m < |r| && r[m] == i
      modifies this`handles
      ensures Valid() && Referred(old(handles)[j].line, i)
      ensures var h := old(handles)[j]; handles == old(handles)[j := h.(line := UnlinkAt(h.line, i))]
      ensures Counts(handles[j].line, Dropped(r, m))
      ensures Orderly(old(handles)) ==> Orderly(handles)
    {
      hide Counts;
      var h := handles[j];
      UnlinkCounts(h.line, r, m);
      var t := LinkTarget(h.line, i);
      UnlinkKeepsFresh(h.line, t);
      if Orderly(handles) { OrderlyReplaced(handles, j, h.(line := Relinked(h.line, t, -1))); }
      Replace(j, h.(line := Relinked(h.line, t, -1)));
    }

    /** really_destroy_script_handle: sweep the lines; a script with none left is removed. */
    method ReallyDestroy(j: nat)
      requires Valid() && j < |handles| && WellNested(handles[j].line)
      modifies this
      ensures Valid() && handles == FreedAt(old(handles), j)
      ensures CountLines(handles) == CountLines(old(handles)) - |old(handles)[j].line| + |Freed(old(handles)[j]).line|
      ensures Orderly(old(handles)) ==> Orderly(handles)
    {
      hide Kept, Cleared, Swept, Covered, WellNested, TotalSize, SumSizes, CountLines;
      var h := handles[j];
      assert Healthy(h);
      if Orderly(handles) { OrderlyFreed(handles, j); }
      SweptIsBelow(h.line, h.count);
      var line, freed := Sweep(h.line, h.count);
      total := total - freed;
      if line != map[] {
        SumsOfUpdate(handles, j, h.(line := line, size := h.size - freed, keep := false));
        handles := handles[j := h.(line := line, size := h.size - freed, keep := false)];
      } else {
        NoLinesNoSize(line, h.count);
        SumsOfRemoval(handles, j);
        handles := handles[..j] + handles[j + 1..];
      }
    }

    /** The search for the script closed longest ago.  As no script is given a time of closing, it finds the
        first eligible script of the list, the one read last. */
    method Oldest() returns (oldest: Option<nat>)
      requires Valid()
      ensures oldest.None? ==> forall j | 0 <= j < |handles| :: !Eligible(handles[j])
      ensures oldest.Some? ==>
                && oldest.value < |handles| && Eligible(handles[oldest.value])
                && forall j | 0 <= j < oldest.value :: !Eligible(handles[j])
    {
      oldest := None;
      for i := 0 to |handles|
        invariant oldest.None? ==> forall j | 0 <= j < i :: !Eligible(handles[j])
        invariant oldest.Some? ==>
                    && oldest.value < i && Eligible(handles[oldest.value])
                    && forall j | 0 <= j < oldest.value :: !Eligible(handles[j])
      {
        assert Healthy(handles[i]);
        if Eligible(handles[i]) && (oldest.None? || handles[i].lastClosed < handles[oldest.value].lastClosed) {
          oldest := Some(i);
        }
      }
    }

    /** free_excess_scripts: ends; succeeds only with the space within the limit, fails only when no script
        is eligible, and does nothing to a script but free it if it was eligible. */
    method FreeExcess(limit: int) returns (ok: bool)
      requires Valid() && Sweepable(handles)
      modifies this
      ensures Valid() && Evolves(old(handles), handles) && Sweepable(handles)
      ensures ok ==> total <= limit
      ensures !ok ==> total > limit && forall j | 0 <= j < |handles| :: !Eligible(handles[j])
      ensures old(total) <= limit ==> handles == old(handles) && total == old(total)
      ensures forall i | 0 <= i < |old(handles)| && !Eligible(old(handles)[i]) :: old(handles)[i] in handles
      ensures forall i, k | 0 <= i < |old(handles)| && IsReferredTo(old(handles)[i], k) ::
                Survives(handles, old(handles)[i].id, k)
      ensures Orderly(old(handles)) ==> Orderly(handles)
    {
      hide Evolves, Eligible, Freed, WellNested, IsReferredTo, Survives;
      EvolvesNot(handles);
      while total > limit
        invariant Valid() && Evolves(old(handles), handles) && Sweepable(handles)
        invariant old(total) <= limit ==> handles == old(handles) && total == old(total)
        decreases CountLines(handles)
      {
        var oldest := Oldest();
        if oldest.None? {
          Untouched(old(handles), handles);
          if Orderly(old(handles)) { EvolvesOrderly(old(handles), handles); }
          return false;
        }
        var j := oldest.value;
        assert Healthy(handles[j]);
        EligibleShrinks(handles[j]);
        EvolvesMore(old(handles), handles, j);
        FreedStaySweepable(handles, j);
        ReallyDestroy(j);
      }
      Untouched(old(handles), handles);
      if Orderly(old(handles)) { EvolvesOrderly(old(handles), handles); }
      return true;
    }

    /** script_handle_link */
    method OpenHandle(j: nat)
      requires Valid() && j < |handles|
      modifies this`handles
      ensures Valid() && handles == old(handles)[j := old(handles)[j].(links := old(handles)[j].links + 1)]
      ensures Orderly(old(handles)) ==> Orderly(handles)
    {
      Replace(j, handles[j].(links := handles[j].links + 1));
    }

    /** A thread waits for another one to read the script. */
    method AwaitHandle(j: nat)
      requires Valid() && j < |handles|
      modifies this`handles
      ensures Valid() && handles == old(handles)[j := old(handles)[j].(waiting := old(handles)[j].waiting + 1)]
      ensures Orderly(old(handles)) ==> Orderly(handles)
    {
      Replace(j, handles[j].(waiting := handles[j].waiting + 1));
    }

    /** return_done, for a script that has been read. */
    method FinishReading(j: nat, limit: int)
      requires Valid() && j < |handles| && handles[j].waiting > 0 && Sweepable(handles)
      modifies this
      ensures Valid() && Sweepable(handles)
      ensures var h := old(handles)[j];
              Evolves(old(handles)[j := h.(waiting := h.waiting - 1, links := h.links + 1)], handles)
      ensures Orderly(old(handles)) ==> Orderly(handles)
      ensures total <= limit || forall i | 0 <= i < |handles| :: !Eligible(handles[i])
    {
      var h := handles[j];
      ReplacedSweepable(handles, j, h.(waiting := h.waiting - 1, links := h.links + 1));
      Replace(j, h.(waiting := h.waiting - 1, links := h.links + 1));
      var ok := FreeExcess(limit);
    }

    /** script_handle_destroy: a script that need not be kept is freed when its last user closes it. */
    method CloseHandle(j: nat, limit: int)
      requires Valid() && j < |handles| && handles[j].links > 0 && Sweepable(handles)
      requires handles[j].links == 1 ==> handles[j].line != map[] && WellNested(handles[j].line)
      modifies this
      ensures Valid() && Sweepable(handles)
      ensures var h := old(handles)[j].(links := old(handles)[j].links - 1); var closed := old(handles)[j := h];
              Evolves(if h.links == 0 && !h.keep then FreedAt(closed, j) else closed, handles)
      ensures Orderly(old(handles)) ==> Orderly(handles)
      ensures total <= limit || forall i | 0 <= i < |handles| :: !Eligible(handles[i])
    {
      hide Evolves, Eligible, Freed;
      var h := handles[j].(links := handles[j].links - 1);
      ReplacedSweepable(handles, j, h);
      Replace(j, h);
      if h.links == 0 && !h.keep {
        FreedStaySweepable(handles, j);
        ReallyDestroy(j);
      }
      var ok := FreeExcess(limit);
    }
  }

  lemma SweptIsBelow(line: Lines, n: nat)
    requires Below(line, n)
    ensures Below(Swept(line, n), n)
  {
  }

  lemma ReplacedSweepable(hs: seq<Handle>, j: nat, h: Handle)
    requires Sweepable(hs) && j < |hs| && (!InUse(h) ==> WellNested(h.line))
    ensures Sweepable(hs[j := h])
  {
    hide WellNested;
  }

  lemma FreedStaySweepable(hs: seq<Handle>, j: nat)
    requires j < |hs| && Below(hs[j].line, hs[j].count) && Sweepable(hs)
    ensures Sweepable(FreedAt(hs, j))
  {
    hide Eligible, WellNested, Freed;
    if Freed(hs[j]).line != map[] { FreedIsNotEligible(hs[j]); }
  }

  function WithLine(h: Handle, size: nat): Handle {
    h.(line := h.line[h.count := Line(None, 0, size)], count := h.count + 1, size := h.size + size)
  }

  /** A new line has no block end: nesting and links are not affected. */
  lemma LineAdded(h: Handle, size: nat)
    requires Healthy(h)
    ensures Healthy(WithLine(h, size))
    ensures WellNested(h.line) ==> WellNested(WithLine(h, size).line)
    ensures WellNested(h.line) && Whole(h.line) ==> Whole(WithLine(h, size).line)
    ensures WellNested(h.line) && StartsFresh(h.line) ==> StartsFresh(WithLine(h, size).line)
  {
    var line := WithLine(h, size).line;
    SameTotal(line, h.line, h.count);
    assert forall i: nat, e: nat :: EndsAt(line, i, e) ==> EndsAt(h.line, i, e);
    if WellNested(h.line) {
      assert forall i: nat, e: nat :: EndsAt(line, i, e) ==> e < h.count;
      if StartsFresh(h.line) {
        forall i: nat, j: nat, e: nat | EndsAt(line, j, i) && EndsAt(line, i, e) && Linked(line, e)
          ensures exists f: nat :: f < i && EndsAt(line, f, e)
        {
          var f: nat :| f < i && EndsAt(h.line, f, e);
          assert EndsAt(line, f, e);
        }
      }
    }
  }

  /** Linking the end of a block that starts afresh keeps all linked blocks starting afresh. */
  lemma LinkKeepsFresh(line: Lines, i: nat)
    requires i in line && LinkTarget(line, i) in line && StartsFresh(line) && FreshTarget(line, LinkTarget(line, i))
    ensures StartsFresh(LinkAt(line, i))
  {
    var linked, t := LinkAt(line, i), LinkTarget(line, i);
    assert forall k: nat, e: nat :: EndsAt(linked, k, e) <==> EndsAt(line, k, e);
    forall k: nat, j: nat, e: nat | EndsAt(linked, j, k) && EndsAt(linked, k, e) && Linked(linked, e)
      ensures exists f: nat :: f < k && EndsAt(linked, f, e)
    {
      assert EndsAt(line, j, k) && EndsAt(line, k, e) && (e == t || Linked(line, e));
      var f: nat :| f < k && EndsAt(line, f, e);
      assert EndsAt(linked, f, e);
    }
  }

  lemma {:induction false} NoLinesNoSize(line: Lines, n: nat)
    requires line == map[]
    ensures TotalSize(line, n) == 0
  {
    if n > 0 { NoLinesNoSize(line, n - 1); }
  }
}
