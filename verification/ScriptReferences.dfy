/** References to script lines: where they are counted, and which of them freeing a script respects.

    A reference to a line is a count on the end of the line's block.  It is given up through the line again,
    by looking for the counted line anew, possibly after lines around it have been freed. */
module ScriptReferences {
  import opened Syntax
  import opened ScriptCollect
  import opened ScriptExact

  /** The line has a block end or ends a block. */
  ghost predicate Anchored(line: Lines, i: nat) {
    i in line && (line[i].end.Some? || exists j: nat :: EndsAt(line, j, i))
  }

  /** The count a reference to line `i` makes is there. */
  predicate Referred(line: Lines, i: nat) {
    i in line && LinkTarget(line, i) in line && line[LinkTarget(line, i)].links > 0
  }

  /** Inside a block every line has a block end or ends a block. */
  ghost predicate Gapless(line: Lines) {
    forall i: nat, e: nat, k: nat | EndsAt(line, i, e) && k in line && i < k < e :: Anchored(line, k)
  }

  lemma WholeIsGapless(line: Lines)
    requires Whole(line)
    ensures Gapless(line)
  {
  }

  // ---------------------------------------------------------------- which references are respected

  lemma ReferredIsCovered(line: Lines, i: nat)
    requires WellNested(line) && Referred(line, i) && Anchored(line, i)
    ensures Covered(line, i)
  {
    var t, prev := LinkTarget(line, i), PrevLine(line, i);
    assert Linked(line, t);
    if t != i {
      assert EndsAt(line, i, t);
    } else if line[i].end.Some? {
      BlockEnd(line, i, line[i].end.value);
      assert EndsAt(line, prev.value, i);
    } else {
      var j: nat :| EndsAt(line, j, i);
      BlockEnd(line, j, i);
    }
  }

  lemma OnlyAnchoredIsCovered(line: Lines, i: nat)
    requires WellNested(line) && Gapless(line) && i in line && Covered(line, i)
    ensures Anchored(line, i)
  {
    var j: nat, e: nat :| Linked(line, e) && EndsAt(line, j, e) && j <= i <= e;
  }

  /** Freeing a sound script keeps a line that is referred to if and only if the line has a block end or ends
      a block. */
  lemma ReferenceSurvivesIff(line: Lines, n: nat, i: nat)
    requires WellNested(line) && Below(line, n) && Sound(line) && Gapless(line) && Referred(line, i)
    ensures i in Swept(line, n) <==> Anchored(line, i)
  {
    hide Covered, Sound, Kept, Cleared, Gapless, Anchored;
    SweepIsExactIff(line, n);
    if Covered(line, i) { OnlyAnchoredIsCovered(line, i); }
    if Anchored(line, i) { ReferredIsCovered(line, i); }
  }

  /** A reference to a plain line is not respected: here the first of two plain lines is referred to. */
  lemma PlainReferenceIsLost()
    ensures var line := LinkAt(map[0 := Line(None, 0, 1), 1 := Line(None, 0, 1)], 0);
            WellNested(line) && Sound(line) && Gapless(line) && Referred(line, 0) && Swept(line, 2) == map[]
  {
    var line := LinkAt(map[0 := Line(None, 0, 1), 1 := Line(None, 0, 1)], 0);
    assert forall i: nat, e: nat :: !EndsAt(line, i, e);
    KeptIsCovered(line, 0, 2);
  }

  /** Freeing leaves no gaps. */
  lemma SweptIsGapless(line: Lines, n: nat)
    requires WellNested(line) && Below(line, n) && Sound(line) && Gapless(line)
    ensures Gapless(Swept(line, n))
  {
    hide Sound, Kept, Cleared;
    var s := Swept(line, n);
    SweepIsExactIff(line, n);
    ClearedIsKept(line, 0, n);
    forall i: nat, e: nat, k: nat | EndsAt(s, i, e) && k in s && i < k < e ensures Anchored(s, k) {
      assert EndsAt(line, i, e);
      if s[k].end.None? {
        StillEnds(line, n, k);
      }
    }
  }

  /** A line that is left without a block end ends a block that is left. */
  lemma StillEnds(line: Lines, n: nat, k: nat)
    requires WellNested(line) && Below(line, n) && Sound(line) && Anchored(line, k)
    requires k in Swept(line, n) && Swept(line, n)[k].end.None?
    ensures exists j: nat :: EndsAt(Swept(line, n), j, k)
  {
    hide Stop, Sound, Kept, Cleared, WellNested, Covered;
    var s := Swept(line, n);
    SweepIsExactIff(line, n);
    ReachedFirst(line);
    KeptIffChosen(line, 0, n);
    ClearedIsEnd(line, 0, n);
    if line[k].end.Some? {
      var j: nat :| EndsAt(line, j, k);
      LinkedStartStays(line, n, j, k);
    } else {
      var j: nat :| EndsAt(line, j, k);
      var f: nat, y: nat :| Stop(line, f) && EndsAt(line, f, y) && Linked(line, y) && f <= k <= y;
      if y == k {
        LinkedStartStays(line, n, f, k);
      } else {
        InsideChosen(line, f, y, j, k);
        assert j in s && j !in Cleared(line, 0, n);
        assert EndsAt(s, j, k);
      }
    }
  }

  lemma InsideChosen(line: Lines, f: nat, y: nat, j: nat, k: nat)
    requires WellNested(line) && EndsAt(line, f, y) && Linked(line, y) && Stop(line, f) && f <= k < y
    requires EndsAt(line, j, k) && line[k].end.None?
    ensures ChosenFrom(line, j, 0) && Enclosed(line, j)
  {
    hide Stop;
    assert j < f < k ==> EndsBy(line, f, k);
  }

  lemma LinkedStartStays(line: Lines, n: nat, f: nat, k: nat)
    requires WellNested(line) && Below(line, n) && Sound(line) && EndsAt(line, f, k) && Linked(line, k)
    ensures EndsAt(Swept(line, n), f, k)
  {
    hide Sound, Kept, Cleared, Covered;
    SweepIsExactIff(line, n);
    ClearedIsKept(line, 0, n);
    StartOfBlock(line, f, k);
    BlockEnd(line, f, k);
  }

  // ---------------------------------------------------------------- giving a reference up

  /** Freeing does not change where a reference is counted. */
  lemma TargetIsStable(line: Lines, n: nat, i: nat)
    requires WellNested(line) && Below(line, n) && Sound(line) && Referred(line, i) && Anchored(line, i)
    ensures var s := Swept(line, n);
            && i in s && LinkTarget(s, i) == LinkTarget(line, i) && LinkTarget(line, i) in s
            && s[LinkTarget(line, i)].links == line[LinkTarget(line, i)].links && Anchored(s, i)
  {
    hide Sound, Kept, Cleared, Covered, WellNested;
    var s, t := Swept(line, n), LinkTarget(line, i);
    SweepIsExactIff(line, n);
    ClearedIsKept(line, 0, n);
    ReferredIsCovered(line, i);
    var p, q := PrevLine(line, i), PrevLine(s, i);
    if line[i].end.Some? { BlockEnd(line, i, line[i].end.value); }
    if t != i {
      assert EndsAt(line, i, t) && Linked(line, t);
      LinkedStartStays(line, n, i, t);
      assert EndsAt(s, i, t);
      if q.Some? && s[q.value].end == Some(i) {
        EndedBefore(line, n, q.value, i);
        assert false;
      }
    } else if line[i].end.Some? {
      assert EndsAt(line, p.value, i) && Linked(line, i);
      LinkedStartStays(line, n, p.value, i);
      assert q == p;
    } else {
      var j: nat :| EndsAt(line, j, i);
      LinkedStartStays(line, n, j, i);
    }
  }

  /** If the line now before line `i` has it as block end, so had the line that was before it. */
  lemma EndedBefore(line: Lines, n: nat, q: nat, i: nat)
    requires WellNested(line) && Below(line, n) && Sound(line) && i in line && EndsAt(Swept(line, n), q, i)
    requires PrevLine(Swept(line, n), i) == Some(q)
    ensures PrevLine(line, i).Some? && EndsAt(line, PrevLine(line, i).value, i)
  {
    hide Sound, Kept, Cleared, Covered, WellNested;
    var s := Swept(line, n);
    SweepIsExactIff(line, n);
    assert EndsAt(line, q, i);
    var p := PrevLine(line, i).value;
    if p != q {
      UnclearedEnd(line, 0, n, q, i);
      CoveredBetween(line, q, i, p);
    }
  }

  lemma CoveredBetween(line: Lines, q: nat, i: nat, p: nat)
    requires WellNested(line) && EndsAt(line, q, i) && q <= p <= i && (InsideLinked(line, q) || Linked(line, i))
    ensures Covered(line, p)
  {
    if !Linked(line, i) {
      var j: nat, y: nat :| EndsAt(line, j, y) && Linked(line, y) && j <= q < y;
      assert j < q ==> EndsBy(line, q, y);
    }
  }

  // ---------------------------------------------------------------- all references together

  /** How many of the references `r` are counted on line `t`. */
  ghost function Hits(line: Lines, r: seq<nat>, t: nat): nat
    requires forall m | 0 <= m < |r| :: r[m] in line
  {
    if r == [] then 0 else (if LinkTarget(line, r[0]) == t then 1 else 0) + Hits(line, r[1..], t)
  }

  /** The link counts are exactly those of the references `r`. */
  ghost predicate Counts(line: Lines, r: seq<nat>) {
    && (forall m | 0 <= m < |r| :: r[m] in line && LinkTarget(line, r[m]) in line)
    && forall t | t in line :: line[t].links == Hits(line, r, t)
  }

  ghost predicate AllAnchored(line: Lines, r: seq<nat>) {
    forall m | 0 <= m < |r| :: Anchored(line, r[m])
  }

  lemma {:induction false} SamePrev(a: Lines, b: Lines, i: nat)
    requires a.Keys == b.Keys
    ensures PrevLine(a, i) == PrevLine(b, i)
  {
    if i > 0 { SamePrev(a, b, i - 1); }
  }

  /** Only block ends decide where references are counted. */
  lemma SameTarget(a: Lines, b: Lines, i: nat)
    requires a.Keys == b.Keys && (forall k | k in a :: a[k].end == b[k].end) && i in a
    ensures LinkTarget(a, i) == LinkTarget(b, i)
  {
    SamePrev(a, b, i);
  }

  lemma {:induction false} SameHits(a: Lines, b: Lines, r: seq<nat>, t: nat)
    requires forall m | 0 <= m < |r| :: r[m] in a && r[m] in b && LinkTarget(a, r[m]) == LinkTarget(b, r[m])
    ensures Hits(a, r, t) == Hits(b, r, t)
  {
    if r != [] { SameHits(a, b, r[1..], t); }
  }

  lemma {:induction false} HitsSplit(line: Lines, a: seq<nat>, b: seq<nat>, t: nat)
    requires forall m | 0 <= m < |a + b| :: (a + b)[m] in line
    ensures (forall m | 0 <= m < |a| :: a[m] in line) && (forall m | 0 <= m < |b| :: b[m] in line)
    ensures Hits(line, a + b, t) == Hits(line, a, t) + Hits(line, b, t)
  {
    forall m | 0 <= m < |a| ensures a[m] in line { assert (a + b)[m] == a[m]; }
    forall m | 0 <= m < |b| ensures b[m] in line { assert (a + b)[|a| + m] == b[m]; }
    if a == [] {
      assert a + b == b;
    } else {
      assert (a + b)[1..] == a[1..] + b;
      HitsSplit(line, a[1..], b, t);
    }
  }

  lemma OneHit(line: Lines, i: nat, t: nat)
    requires i in line
    ensures Hits(line, [i], t) == if LinkTarget(line, i) == t then 1 else 0
  {
    assert [i][1..] == [];
  }

  /** script_line_link makes the counts those with one more reference. */
  lemma LinkCounts(line: Lines, r: seq<nat>, i: nat)
    requires Counts(line, r) && i in line && LinkTarget(line, i) in line
    ensures Counts(LinkAt(line, i), r + [i])
  {
    hide LinkTarget;
    var linked := Relinked(line, LinkTarget(line, i), 1);
    RelinkedSame(line, LinkTarget(line, i), 1, r);
    RelinkedSame(line, LinkTarget(line, i), 1, r + [i]);
    forall t | t in line ensures linked[t].links == Hits(linked, r + [i], t) {
      HitsSplit(linked, r, [i], t);
      OneHit(linked, i, t);
      SameTarget(line, linked, i);
      SameHits(line, linked, r, t);
    }
  }

  /** A count changed. */
  function Relinked(line: Lines, t: nat, d: int): Lines
    requires t in line && line[t].links + d >= 0
  {
    line[t := line[t].(links := line[t].links + d)]
  }

  /** script_line_destroy on line `i`, where there is a count to take away. */
  function UnlinkAt(line: Lines, i: nat): Lines {
    if Referred(line, i) then Relinked(line, LinkTarget(line, i), -1) else line
  }

  lemma RelinkedSame(line: Lines, t: nat, d: int, r: seq<nat>)
    requires t in line && line[t].links + d >= 0 && forall m | 0 <= m < |r| :: r[m] in line
    ensures var linked := Relinked(line, t, d);
            && linked.Keys == line.Keys && (forall k | k in line :: linked[k].end == line[k].end)
            && forall m | 0 <= m < |r| :: LinkTarget(line, r[m]) == LinkTarget(linked, r[m])
  {
    forall m | 0 <= m < |r| ensures LinkTarget(line, r[m]) == LinkTarget(Relinked(line, t, d), r[m]) {
      SameTarget(line, Relinked(line, t, d), r[m]);
    }
  }

  function Dropped(r: seq<nat>, m: nat): seq<nat>
    requires m < |r|
  {
    r[..m] + r[m + 1..]
  }

  /** Of the references that are counted every one can be given up: there is a count to take away, and the
      counts are then those of the others. */
  lemma UnlinkCounts(line: Lines, r: seq<nat>, m: nat)
    requires Counts(line, r) && m < |r|
    ensures Referred(line, r[m])
    ensures Counts(Relinked(line, LinkTarget(line, r[m]), -1), Dropped(r, m))
  {
    hide LinkTarget;
    var target := LinkTarget(line, r[m]);
    forall t | t in line
      ensures Hits(line, r, t) == (if t == target then 1 else 0) + HitsOf(line, Dropped(r, m), t)
    {
      assert r == r[..m] + ([r[m]] + r[m + 1..]);
      HitsSplit(line, r[..m], [r[m]] + r[m + 1..], t);
      HitsSplit(line, [r[m]], r[m + 1..], t);
      OneHit(line, r[m], t);
      DroppedIn(line, r, m);
      HitsSplit(line, r[..m], r[m + 1..], t);
    }
    DroppedIn(line, r, m);
    RelinkedSame(line, target, -1, Dropped(r, m));
    var after := Relinked(line, target, -1);
    forall t | t in line ensures after[t].links == Hits(after, Dropped(r, m), t) {
      SameHits(line, after, Dropped(r, m), t);
    }
  }

  ghost function HitsOf(line: Lines, r: seq<nat>, t: nat): nat {
    if forall m | 0 <= m < |r| :: r[m] in line then Hits(line, r, t) else 0
  }

  lemma DroppedIn(line: Lines, r: seq<nat>, m: nat)
    requires m < |r| && forall k | 0 <= k < |r| :: r[k] in line && LinkTarget(line, r[k]) in line
    ensures forall k | 0 <= k < |Dropped(r, m)| ::
              Dropped(r, m)[k] in line && LinkTarget(line, Dropped(r, m)[k]) in line
  {
  }

  /** Freeing a sound script respects all references if each has a block end or ends a block: the same counts are
      still those of the same references. */
  lemma SweepCounts(line: Lines, n: nat, r: seq<nat>)
    requires WellNested(line) && Below(line, n) && Sound(line) && Counts(line, r) && AllAnchored(line, r)
    ensures Counts(Swept(line, n), r) && AllAnchored(Swept(line, n), r)
  {
    hide Sound, WellNested, Kept, Cleared, LinkTarget, Anchored;
    var s := Swept(line, n);
    forall m | 0 <= m < |r|
      ensures r[m] in s && LinkTarget(s, r[m]) == LinkTarget(line, r[m]) && LinkTarget(line, r[m]) in s
      ensures Anchored(s, r[m])
    {
      UnlinkCounts(line, r, m);
      TargetIsStable(line, n, r[m]);
    }
    forall t | t in s ensures s[t].links == Hits(s, r, t) {
      SameHits(line, s, r, t);
    }
  }
}
