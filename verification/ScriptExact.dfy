/** Exactly when freeing the lines of a script keeps what it should.

    The sweep walks over the lines.  Behind a line that it frees or behind a block that it keeps it
    stops again, but it passes the end line of a block without stopping there, and with that the
    block which this line may open in its turn. */
module ScriptExact {
  import opened Syntax
  import opened ScriptCollect

  /** Line `k` is in the range of a linked block that opens at line `i` or later. */
  ghost predicate CoveredFrom(line: Lines, k: nat, i: nat) {
    exists j: nat, e: nat :: i <= j && Linked(line, e) && EndsAt(line, j, e) && j <= k <= e
  }

  ghost predicate Adjacent(line: Lines, f: nat, k: nat) {
    forall m | m in line :: !(f < m < k)
  }

  /** Stopping at line `f` takes the sweep past line `k`. */
  ghost predicate Passes(line: Lines, f: nat, k: nat) {
    EndsAt(line, f, k) && (Linked(line, k) || Adjacent(line, f, k))
  }

  /** The sweep stops at line `k`, unless a block around it is kept as a whole. */
  ghost predicate Stop(line: Lines, k: nat)
    decreases k
  {
    forall f: nat | f < k && Passes(line, f, k) :: !Stop(line, f)
  }

  /** Line `e` is inside a block that is kept as a whole. */
  ghost predicate Enclosed(line: Lines, e: nat) {
    exists f: nat, y: nat :: f < e < y && EndsAt(line, f, y) && Linked(line, y) && Stop(line, f)
  }

  /** The block from `e` to `x` can do without its first line: that line is kept as the end of a linked
      block, and all others are in linked blocks that open behind it. */
  ghost predicate Dispensable(line: Lines, e: nat, x: nat) {
    Linked(line, e) && forall k | k in line && e < k <= x :: CoveredFrom(line, k, e + 1)
  }

  /** A linked block whose first line is passed by, with no kept block around it. */
  ghost predicate Exposed(line: Lines, e: nat, x: nat) {
    EndsAt(line, e, x) && Linked(line, x) && !Stop(line, e) && !Enclosed(line, e)
  }

  /** Every exposed block is dispensable. */
  ghost predicate Sound(line: Lines) {
    forall e: nat, x: nat | Exposed(line, e, x) :: Dispensable(line, e, x)
  }

  /** Line `k` is in a linked block that opens at a stop, from line `i` on. */
  ghost predicate ChosenFrom(line: Lines, k: nat, i: nat) {
    exists f: nat, y: nat :: i <= f && Stop(line, f) && EndsAt(line, f, y) && Linked(line, y) && f <= k <= y
  }

  // ---------------------------------------------------------------- the sweep at a stop

  /** The first line from `i` on. */
  ghost predicate Next(line: Lines, i: nat, m: nat) {
    m in line && i <= m && forall k | k in line :: !(i <= k < m)
  }

  /** What holds whenever the sweep has come to `i`: no linked block that reaches there was opened at a
      stop, and the next line is a stop. */
  ghost predicate Reached(line: Lines, i: nat) {
    && (forall f: nat, y: nat | f < i <= y && EndsAt(line, f, y) && Linked(line, y) :: !Stop(line, f))
    && (forall m: nat | Next(line, i, m) :: Stop(line, m))
  }

  lemma ReachedFirst(line: Lines)
    ensures Reached(line, 0)
  {
    forall m: nat | Next(line, 0, m) ensures Stop(line, m) {
      assert forall f: nat | f < m :: f !in line;
    }
  }

  /** A line behind which nothing in memory comes before `m` is no obstacle to stopping at `m`. */
  lemma NextIsStop(line: Lines, i: nat, m: nat)
    requires i in line && Next(line, i + 1, m) && (EndsAt(line, i, m) ==> !Stop(line, i))
    requires Linked(line, m) ==> forall f: nat | f < i && EndsAt(line, f, m) :: !Stop(line, f)
    ensures Stop(line, m)
  {
    forall f: nat | f < m && Passes(line, f, m) ensures !Stop(line, f) {
      assert f in line;
      assert i < f ==> !(i + 1 <= f < m);
    }
  }

  lemma PassedIsNoStop(line: Lines, i: nat, e: nat)
    requires Stop(line, i) && i < e && Passes(line, i, e)
    ensures !Stop(line, e)
  {
  }

  /** Nothing is in memory at `i`. */
  lemma ReachedGap(line: Lines, i: nat)
    requires i !in line && Reached(line, i)
    ensures Reached(line, i + 1)
    ensures forall k :: ChosenFrom(line, k, i) <==> ChosenFrom(line, k, i + 1)
  {
    hide Stop, Linked;
    forall m: nat | Next(line, i + 1, m) ensures Stop(line, m) {
      assert Next(line, i, m);
    }
    ChosenSame(line, i, i + 1);
  }

  /** No linked block opens at a stop between `i` and `to`. */
  lemma ChosenSame(line: Lines, i: nat, to: nat)
    requires i <= to
    requires forall f: nat, y: nat | i <= f < to && EndsAt(line, f, y) && Linked(line, y) :: !Stop(line, f)
    ensures forall k :: ChosenFrom(line, k, i) <==> ChosenFrom(line, k, to)
  {
    hide Stop, Linked, EndsAt;
  }

  /** Line `i` is freed alone. */
  lemma ReachedAlone(line: Lines, i: nat)
    requires i in line && Reached(line, i)
    requires line[i].end.Some? ==> !Linked(line, line[i].end.value) && !Next(line, i + 1, line[i].end.value)
    ensures Reached(line, i + 1)
    ensures forall k :: ChosenFrom(line, k, i) <==> ChosenFrom(line, k, i + 1)
  {
    hide Stop;
    forall m: nat | Next(line, i + 1, m) ensures Stop(line, m) {
      NextIsStop(line, i, m);
    }
    ChosenSame(line, i, i + 1);
  }

  /** Line `i` is freed together with its block end `e`, the next line. */
  lemma ReachedBoth(line: Lines, i: nat, e: nat)
    requires Reached(line, i) && i < e && EndsAt(line, i, e) && !Linked(line, e) && Next(line, i + 1, e)
    ensures Reached(line, e + 1)
    ensures forall k :: ChosenFrom(line, k, i) <==> ChosenFrom(line, k, e + 1)
  {
    hide Stop;
    assert Next(line, i, i);
    assert Adjacent(line, i, e);
    PassedIsNoStop(line, i, e);
    forall m: nat | Next(line, e + 1, m) ensures Stop(line, m) {
      NextIsStop(line, e, m);
    }
    ChosenSame(line, i, e + 1);
  }

  /** The block from `i` to `e` is kept. */
  lemma ReachedKeep(line: Lines, i: nat, e: nat)
    requires WellNested(line) && Reached(line, i) && EndsAt(line, i, e) && Linked(line, e) && i < e
    ensures Reached(line, e + 1)
    ensures forall k: nat :: ChosenFrom(line, k, i) <==> i <= k <= e || ChosenFrom(line, k, e + 1)
  {
    hide Stop;
    assert Next(line, i, i);
    PassedIsNoStop(line, i, e);
    forall f: nat, y: nat | i <= f <= e < y && EndsAt(line, f, y) && Linked(line, y) ensures !Stop(line, f) {
      assert i < f < e ==> EndsBy(line, f, e);
    }
    forall m: nat | Next(line, e + 1, m) ensures Stop(line, m) {
      NextIsStop(line, e, m);
    }
    forall k: nat ensures ChosenFrom(line, k, i) <==> i <= k <= e || ChosenFrom(line, k, e + 1) {
      ChosenInKept(line, i, e, k);
    }
  }

  lemma ChosenInKept(line: Lines, i: nat, e: nat, k: nat)
    requires WellNested(line) && EndsAt(line, i, e) && Linked(line, e) && i < e && Stop(line, i) && !Stop(line, e)
    ensures ChosenFrom(line, k, i) <==> i <= k <= e || ChosenFrom(line, k, e + 1)
  {
    hide Stop;
    if ChosenFrom(line, k, i) && !(i <= k <= e) {
      var f: nat, y: nat :| i <= f && Stop(line, f) && EndsAt(line, f, y) && Linked(line, y) && f <= k <= y;
      assert i < f < e ==> EndsBy(line, f, e);
    }
  }

  /** The survivors of the sweep of any script that nests properly: the lines of the linked blocks that open
      at a stop. */
  lemma {:induction false} KeptIffChosen(line: Lines, i: nat, n: nat)
    requires WellNested(line) && Below(line, n) && Reached(line, i)
    ensures forall k :: k in Kept(line, i, n) <==> k in line && ChosenFrom(line, k, i)
    decreases n - i
  {
    hide Reached, Stop, WellNested, ChosenFrom;
    if i >= n {
      NothingChosen(line, i, n);
    } else if i !in line {
      ReachedGap(line, i);
      KeptIffChosen(line, i + 1, n);
    } else if line[i].end.None? {
      ReachedAlone(line, i);
      KeptIffChosen(line, i + 1, n);
    } else {
      var e := line[i].end.value;
      BlockEnd(line, i, e);
      if Linked(line, e) {
        ReachedKeep(line, i, e);
        KeptIffChosen(line, e + 1, n);
      } else if NextFrom(line, i + 1, n) == e {
        ReachedBoth(line, i, e);
        KeptIffChosen(line, e + 1, n);
      } else {
        assert !Next(line, i + 1, e);
        ReachedAlone(line, i);
        KeptIffChosen(line, i + 1, n);
      }
    }
  }

  lemma NothingChosen(line: Lines, i: nat, n: nat)
    requires Below(line, n) && i >= n
    ensures forall k :: !ChosenFrom(line, k, i)
  {
    hide Stop;
  }

  lemma BlockEnd(line: Lines, i: nat, e: nat)
    requires WellNested(line) && i in line && line[i].end == Some(e)
    ensures EndsAt(line, i, e) && e in line && i < e
  {
    assert EndsAt(line, i, e);
  }

  // ---------------------------------------------------------------- when the right lines survive

  /** A passed line is passed by a stop. */
  lemma PassedByStop(line: Lines, e: nat) returns (f: nat)
    requires !Stop(line, e)
    ensures f < e && Passes(line, f, e) && Stop(line, f)
  {
    f :| f < e && Passes(line, f, e) && !(Stop(line, f) ==> false);
  }

  lemma EnclosedBlock(line: Lines, e: nat, x: nat, k: nat)
    requires WellNested(line) && EndsAt(line, e, x) && Enclosed(line, e) && e <= k <= x
    ensures ChosenFrom(line, k, 0)
  {
    hide Stop;
    var f: nat, y: nat :| f < e < y && EndsAt(line, f, y) && Linked(line, y) && Stop(line, f);
    assert EndsBy(line, e, y);
  }

  lemma EndIsChosen(line: Lines, e: nat)
    requires !Stop(line, e) && Linked(line, e)
    ensures ChosenFrom(line, e, 0)
  {
    var f := PassedByStop(line, e);
  }

  /** In a sound script every line of a linked block is chosen, by that block or by another. */
  lemma {:induction false} CoveredIsChosen(line: Lines, k: nat, j: nat, x: nat)
    requires WellNested(line) && Sound(line) && EndsAt(line, j, x) && Linked(line, x) && j <= k <= x && k in line
    ensures ChosenFrom(line, k, 0)
    decreases k - j
  {
    hide Stop, WellNested, Enclosed;
    if Stop(line, j) {
    } else if Enclosed(line, j) {
      EnclosedBlock(line, j, x, k);
    } else {
      assert Exposed(line, j, x);
      if k == j {
        EndIsChosen(line, j);
      } else {
        assert CoveredFrom(line, k, j + 1);
        var j': nat, x': nat :| j + 1 <= j' && Linked(line, x') && EndsAt(line, j', x') && j' <= k <= x';
        CoveredIsChosen(line, k, j', x');
      }
    }
  }

  /** An exposed block can do without its first line if all its lines are chosen. */
  lemma ChosenIsDispensable(line: Lines, e: nat, x: nat)
    requires WellNested(line) && Exposed(line, e, x)
    requires forall k | k in line && e <= k <= x :: ChosenFrom(line, k, 0)
    ensures Dispensable(line, e, x)
  {
    hide Stop, WellNested, ChosenFrom, CoveredFrom, Enclosed, EndsAt;
    LinkedIsCovered(line, e, x);
    assert e in line by { StartInMemory(line, e, x); }
    ChosenBehind(line, e, e);
    forall k | k in line && e < k <= x ensures CoveredFrom(line, k, e + 1) {
      ChosenBehind(line, e, k);
    }
  }

  lemma StartInMemory(line: Lines, e: nat, x: nat)
    requires EndsAt(line, e, x)
    ensures e in line
  {
  }

  /** What chooses a line behind a passed line that is not enclosed opens behind that line as well. */
  lemma ChosenBehind(line: Lines, e: nat, k: nat)
    requires !Stop(line, e) && !Enclosed(line, e) && e <= k && ChosenFrom(line, k, 0)
    ensures if k == e then Linked(line, e) else CoveredFrom(line, k, e + 1)
  {
    hide Stop;
    var f: nat, y: nat :| Stop(line, f) && EndsAt(line, f, y) && Linked(line, y) && f <= k <= y;
    assert f != e && !(f < e < y);
  }

  /** Main result: on any script that nests properly, freeing keeps exactly the lines of the linked
      blocks if and only if every exposed block is dispensable; and then no line that is left has a
      block end that is gone. */
  lemma SweepIsExactIff(line: Lines, n: nat)
    requires WellNested(line) && Below(line, n)
    ensures (forall k :: k in Swept(line, n) <==> k in line && Covered(line, k)) <==> Sound(line)
    ensures Sound(line) ==> forall k: nat, e: nat | EndsAt(Swept(line, n), k, e) :: e in Swept(line, n)
  {
    hide Covered, Sound, ChosenFrom, Kept, Cleared, WellNested;
    ReachedFirst(line);
    KeptIffChosen(line, 0, n);
    KeptIsCovered(line, 0, n);
    ChosenIffSound(line);
    if Sound(line) {
      forall k: nat, e: nat | EndsAt(Swept(line, n), k, e) ensures e in Swept(line, n) {
        assert EndsAt(line, k, e);
        UnclearedEnd(line, 0, n, k, e);
        LinkedIsCovered(line, k, e);
      }
    }
  }

  lemma ChosenIffSound(line: Lines)
    requires WellNested(line)
    ensures (forall k | k in line && Covered(line, k) :: ChosenFrom(line, k, 0)) <==> Sound(line)
  {
    hide Exposed, Dispensable, ChosenFrom, WellNested;
    if Sound(line) {
      forall k | k in line && Covered(line, k) ensures ChosenFrom(line, k, 0) {
        var j: nat, x: nat :| Linked(line, x) && EndsAt(line, j, x) && j <= k <= x;
        CoveredIsChosen(line, k, j, x);
      }
    } else if forall k | k in line && Covered(line, k) :: ChosenFrom(line, k, 0) {
      var e: nat, x: nat :| Exposed(line, e, x) && !Dispensable(line, e, x);
      ExposedIsLinked(line, e, x);
      StartOfBlock(line, e, x);
      ChosenIsDispensable(line, e, x);
    }
  }

  lemma ExposedIsLinked(line: Lines, e: nat, x: nat)
    requires Exposed(line, e, x)
    ensures EndsAt(line, e, x) && Linked(line, x)
  {
  }

  lemma LinkedIsCovered(line: Lines, k: nat, e: nat)
    requires WellNested(line) && EndsAt(line, k, e)
    ensures e in line && k < e && (Linked(line, e) ==> Covered(line, e))
  {
  }

  ghost predicate InsideLinked(line: Lines, k: nat) {
    exists j: nat, y: nat :: EndsAt(line, j, y) && Linked(line, y) && j <= k < y
  }

  /** A line that is kept and whose block end is not cleared has it kept as well, or linked. */
  lemma {:induction false} UnclearedEnd(line: Lines, i: nat, n: nat, k: nat, e: nat)
    requires WellNested(line) && k in Kept(line, i, n) && k !in Cleared(line, i, n) && EndsAt(line, k, e)
    ensures e in Kept(line, i, n) || Linked(line, e)
    ensures InsideLinked(line, k) || Linked(line, e)
    decreases n - i
  {
    hide WellNested, Covered;
    KeptIsCovered(line, i + 1, n);
    if i in line && line[i].end.Some? {
      var x := line[i].end.value;
      BlockEnd(line, i, x);
      if Linked(line, x) && k <= x {
        KeptIsCovered(line, x + 1, n);
        EndInBlock(line, i, x, k, e);
      } else if Linked(line, x) || (x < n && NextFrom(line, i + 1, n) == x) {
        UnclearedEnd(line, x + 1, n, k, e);
      } else {
        UnclearedEnd(line, i + 1, n, k, e);
      }
    } else {
      UnclearedEnd(line, i + 1, n, k, e);
    }
  }

  lemma EndInBlock(line: Lines, i: nat, x: nat, k: nat, e: nat)
    requires WellNested(line) && EndsAt(line, i, x) && i <= k <= x && EndsAt(line, k, e)
    ensures e in line && k < e && (k < x ==> e <= x)
  {
    assert k < x ==> EndsBy(line, k, x) || k == i;
  }

  lemma NotEnclosed(line: Lines, i: nat, e: nat)
    requires WellNested(line) && Reached(line, i) && EndsAt(line, i, e)
    ensures !Enclosed(line, e)
  {
    hide Stop;
    forall f: nat, y: nat | f < e < y && EndsAt(line, f, y) && Linked(line, y) ensures !Stop(line, f) {
      assert i < f ==> EndsBy(line, f, e);
    }
  }

  ghost predicate EndsLinked(line: Lines, k: nat) {
    !Enclosed(line, k) && Linked(line, k) && exists f: nat :: EndsAt(line, f, k)
  }

  /** Only the ends of linked blocks have their block ends cleared, and only where no kept block encloses
      them. */
  lemma {:induction false} ClearedIsEnd(line: Lines, i: nat, n: nat)
    requires WellNested(line) && Below(line, n) && Reached(line, i)
    ensures forall k | k in Cleared(line, i, n) :: EndsLinked(line, k)
    decreases n - i
  {
    hide Reached, Stop, WellNested, Enclosed;
    if i < n {
      if i !in line {
        ReachedGap(line, i);
        ClearedIsEnd(line, i + 1, n);
      } else if line[i].end.None? {
        ReachedAlone(line, i);
        ClearedIsEnd(line, i + 1, n);
      } else {
        var e := line[i].end.value;
        BlockEnd(line, i, e);
        if Linked(line, e) {
          NotEnclosed(line, i, e);
          ReachedKeep(line, i, e);
          ClearedIsEnd(line, e + 1, n);
        } else if NextFrom(line, i + 1, n) == e {
          ReachedBoth(line, i, e);
          ClearedIsEnd(line, e + 1, n);
        } else {
          assert !Next(line, i + 1, e);
          ReachedAlone(line, i);
          ClearedIsEnd(line, i + 1, n);
        }
      }
    }
  }

  // ---------------------------------------------------------------- when a block end dangles

  ghost predicate OpensLinked(line: Lines, x: nat) {
    exists z: nat :: EndsAt(line, x, z) && Linked(line, z)
  }

  /** An exposed block whose first line is kept and whose end is not: no stop has that end as its block end,
      and the end opens no linked block itself. */
  ghost predicate Severed(line: Lines, e: nat, x: nat) {
    && Exposed(line, e, x) && Linked(line, e)
    && (forall g: nat | EndsAt(line, g, x) :: !Stop(line, g)) && !OpensLinked(line, x)
  }

  ghost predicate Dangles(line: Lines) {
    exists k: nat, e: nat :: EndsAt(line, k, e) && e !in line
  }

  lemma SeveredIsLost(line: Lines, e: nat, x: nat)
    requires WellNested(line) && Severed(line, e, x)
    ensures ChosenFrom(line, e, 0) && !ChosenFrom(line, x, 0)
  {
    hide Stop;
    EndIsChosen(line, e);
    forall f: nat, y: nat | EndsAt(line, f, y) && Linked(line, y) && f <= x <= y ensures !Stop(line, f) {
      assert f < e < y ==> !Stop(line, f);
      assert e < f < x ==> EndsBy(line, f, x);
      assert f == x ==> OpensLinked(line, x);
    }
  }

  lemma LostIsSevered(line: Lines, k: nat, e: nat)
    requires WellNested(line) && EndsAt(line, k, e) && Linked(line, e)
    requires ChosenFrom(line, k, 0) && !ChosenFrom(line, e, 0)
    ensures Severed(line, k, e)
  {
    hide Stop;
    var f: nat, y: nat :| Stop(line, f) && EndsAt(line, f, y) && Linked(line, y) && f <= k <= y;
    assert f < k < y ==> EndsBy(line, k, y);
    assert k == y;
    PassedIsNoStop(line, f, k);
    if Enclosed(line, k) { EnclosedBlock(line, k, e, e); }
    forall g: nat | EndsAt(line, g, e) ensures !Stop(line, g) { }
    if OpensLinked(line, e) {
      NoStopIsStop(line, e);
    }
  }

  lemma NoStopIsStop(line: Lines, e: nat)
    requires forall g: nat | EndsAt(line, g, e) :: !Stop(line, g)
    ensures Stop(line, e)
  {
  }

  /** Freeing leaves a line whose block end is gone if and only if some block is severed. */
  lemma DanglesIff(line: Lines, n: nat)
    requires WellNested(line) && Below(line, n)
    ensures Dangles(Swept(line, n)) <==> exists e: nat, x: nat :: Severed(line, e, x)
  {
    hide Severed, ChosenFrom, Kept, Cleared, WellNested;
    ReachedFirst(line);
    KeptIffChosen(line, 0, n);
    KeptIsCovered(line, 0, n);
    ClearedIsKept(line, 0, n);
    var s := Swept(line, n);
    if Dangles(s) {
      var k: nat, e: nat :| EndsAt(s, k, e) && e !in s;
      assert EndsAt(line, k, e);
      UnclearedEnd(line, 0, n, k, e);
      LinkedIsCovered(line, k, e);
      LostIsSevered(line, k, e);
    }
    if e: nat, x: nat :| Severed(line, e, x) {
      SeveredIsLost(line, e, x);
      SeveredIsExposed(line, e, x);
      assert EndsAt(s, e, x);
    }
  }

  lemma SeveredIsExposed(line: Lines, e: nat, x: nat)
    requires Severed(line, e, x)
    ensures EndsAt(line, e, x) && Linked(line, x)
  {
  }

  // ---------------------------------------------------------------- freeing again

  /** A sound script stays sound: freeing leaves one that nests properly, and freeing again frees nothing. */
  lemma SweptIsSound(line: Lines, n: nat)
    requires WellNested(line) && Below(line, n) && Sound(line)
    ensures var s := Swept(line, n);
            WellNested(s) && Below(s, n) && Sound(s) && Swept(s, n) == s
  {
    hide Covered, Sound, CoveredFrom, Stop, Kept, Cleared;
    var s := Swept(line, n);
    SweepIsExactIff(line, n);
    KeptIsCovered(line, 0, n);
    ClearedIsKept(line, 0, n);
    forall i: nat, e: nat | EndsAt(s, i, e) ensures e in s && i < e {
      assert EndsAt(line, i, e);
    }
    forall i: nat, e: nat, k: nat | EndsAt(s, i, e) && k in s && i < k < e ensures EndsBy(s, k, e) {
      assert EndsAt(line, i, e) && EndsBy(line, k, e);
    }
    SweepAgain(line, s, 0, n);
    assert Swept(s, n) == s;
    AllKeptIsExact(s, n);
    SweepIsExactIff(s, n);
  }

  lemma {:induction false} ClearedIsKept(line: Lines, i: nat, n: nat)
    ensures forall k | k in Cleared(line, i, n) ::
              i < k && k in line && k in Kept(line, i, n) && line[k].end.Some? && !Linked(line, line[k].end.value)
    decreases n - i
  {
    if i < n {
      ClearedIsKept(line, i + 1, n);
      KeptIsCovered(line, i + 1, n);
      if i in line && line[i].end.Some? && i < line[i].end.value {
        ClearedIsKept(line, line[i].end.value + 1, n);
        KeptIsCovered(line, line[i].end.value + 1, n);
      }
    }
  }

  /** What the sweep has left from `i` on: lines with the block ends they had, except those cleared. */
  ghost predicate LeftFrom(line: Lines, s: Lines, i: nat, n: nat) {
    && (forall k | k in s :: k in line && s[k].links == line[k].links)
    && (forall k | k in line && i <= k < n :: k in s <==> k in Kept(line, i, n))
    && (forall k | k in s && i <= k ::
          s[k].end == if k in Cleared(line, i, n) then None else line[k].end)
    && (forall k: nat, e: nat | EndsAt(s, k, e) :: e in s)
  }

  /** Over lines that are gone, both sweeps go on to the same place. */
  lemma SkipAgain(line: Lines, s: Lines, i: nat, to: nat, n: nat)
    requires LeftFrom(line, s, i, n) && i <= to && Below(line, n)
    requires Kept(line, i, n) == Kept(line, to, n) && Cleared(line, i, n) == Cleared(line, to, n)
    ensures LeftFrom(line, s, to, n)
    ensures Kept(s, i, n) == Kept(s, to, n) && Cleared(s, i, n) == Cleared(s, to, n)
  {
    hide Kept, Cleared, Covered;
    KeptIsCovered(line, to, n);
    GapAgain(s, i, to, n);
  }

  lemma LeftBehind(line: Lines, s: Lines, i: nat, e: nat, n: nat)
    requires LeftFrom(line, s, i, n) && i < e && i < n && EndsAt(line, i, e) && Linked(line, e)
    ensures LeftFrom(line, s, e + 1, n) && i !in Cleared(line, i, n)
  {
    ClearedIsKept(line, i, n);
    ClearedIsKept(line, e + 1, n);
    var block := set k | k in line && i <= k <= e;
    assert Kept(line, i, n) == block + Kept(line, e + 1, n);
  }

  /** A second sweep makes the same stops, keeps the same blocks and clears nothing more. */
  lemma {:induction false} SweepAgain(line: Lines, s: Lines, i: nat, n: nat)
    requires WellNested(line) && Below(line, n) && LeftFrom(line, s, i, n)
    ensures Kept(s, i, n) == Kept(line, i, n) && Cleared(s, i, n) == {}
    decreases n - i
  {
    hide WellNested, LeftFrom, Linked;
    if i < n {
      if i in line && line[i].end.Some? {
        BlockEnd(line, i, line[i].end.value);
      }
      if i in line && line[i].end.Some? && Linked(line, line[i].end.value) {
        var e := line[i].end.value;
        LeftBehind(line, s, i, e, n);
        SweepAgain(line, s, e + 1, n);
        KeepAgain(line, s, i, e, n);
      } else {
        var both := i in line && line[i].end.Some? && NextFrom(line, i + 1, n) == line[i].end.value < n;
        var to := if both then line[i].end.value + 1 else i + 1;
        SkipAgain(line, s, i, to, n);
        SweepAgain(line, s, to, n);
      }
    }
  }

  lemma KeepAgain(line: Lines, s: Lines, i: nat, e: nat, n: nat)
    requires i < e && i < n && EndsAt(line, i, e) && Linked(line, e) && LeftFrom(line, s, i, n) && Below(line, n)
    requires i !in Cleared(line, i, n)
    requires Cleared(s, e + 1, n) == {} && Kept(s, e + 1, n) == Kept(line, e + 1, n)
    ensures Kept(s, i, n) == Kept(line, i, n) && Cleared(s, i, n) == {}
  {
    assert i in Kept(line, i, n) && e in Kept(line, i, n);
    assert EndsAt(s, i, e) && Linked(s, e);
    if s[e].end.Some? {
      assert EndsAt(s, e, s[e].end.value);
    }
    forall k | k in line && i <= k <= e ensures k in s { assert k in Kept(line, i, n); }
  }

  lemma {:induction false} GapAgain(s: Lines, i: nat, to: nat, n: nat)
    requires i <= to && forall k | k in s :: !(i <= k < to && k < n)
    ensures Kept(s, i, n) == Kept(s, to, n) && Cleared(s, i, n) == Cleared(s, to, n)
    decreases n - i
  {
    if i < to && i < n {
      GapAgain(s, i + 1, to, n);
    }
  }

  lemma AllKeptIsExact(s: Lines, n: nat)
    requires Swept(s, n) == s
    ensures forall k :: k in Swept(s, n) <==> k in s && Covered(s, k)
  {
    hide Covered, Kept, Cleared;
    KeptIsCovered(s, 0, n);
    forall k | k in s ensures k in Kept(s, 0, n) { assert k in Swept(s, n); }
  }

  /** Among the lines of a linked block that starts afresh the first is a stop. */
  lemma {:induction false} FreshStart(line: Lines, f: nat, x: nat) returns (s: nat)
    requires StartsFresh(line) && EndsAt(line, f, x) && Linked(line, x)
    ensures s <= f && EndsAt(line, s, x) && Stop(line, s)
    decreases f
  {
    if Stop(line, f) {
      s := f;
    } else {
      var j: nat :| j < f && Passes(line, j, f) && Stop(line, j);
      var g: nat :| g < f && EndsAt(line, g, x);
      s := FreshStart(line, g, x);
    }
  }

  lemma FreshIsNotExposed(line: Lines, e: nat, x: nat)
    requires WellNested(line) && StartsFresh(line)
    ensures !Exposed(line, e, x)
  {
    hide StartsFresh, Stop;
    if EndsAt(line, e, x) && Linked(line, x) && !Stop(line, e) {
      var s := FreshStart(line, e, x);
      assert s < e < x;
    }
  }

  /** Where no linked block starts on a line that ends another, nothing is exposed. */
  lemma FreshIsSound(line: Lines)
    requires WellNested(line) && StartsFresh(line)
    ensures Sound(line)
  {
    hide WellNested, StartsFresh, Exposed, Dispensable;
    forall e: nat, x: nat ensures !Exposed(line, e, x) {
      FreshIsNotExposed(line, e, x);
    }
  }

  /** Then exactly the lines in linked blocks survive, every surviving block end is the number of a
      surviving line, and what is left starts afresh again. */
  lemma SweepKeepsLinkedBlocks(line: Lines, n: nat)
    requires WellNested(line) && StartsFresh(line) && Below(line, n)
    ensures forall k :: k in Swept(line, n) <==> k in line && Covered(line, k)
    ensures forall k: nat, e: nat | EndsAt(Swept(line, n), k, e) :: EndsAt(line, k, e) && e in Swept(line, n)
    ensures WellNested(Swept(line, n)) && StartsFresh(Swept(line, n))
  {
    hide WellNested, Sound, Covered, Kept, Cleared;
    FreshIsSound(line);
    SweepIsExactIff(line, n);
    SweptIsSound(line, n);
    ClearedIsKept(line, 0, n);
    var s := Swept(line, n);
    forall i: nat, j: nat, e: nat | EndsAt(s, j, i) && EndsAt(s, i, e) && Linked(s, e)
      ensures exists f: nat :: f < i && EndsAt(s, f, e)
    {
      assert EndsAt(line, j, i) && EndsAt(line, i, e) && Linked(line, e);
      var f: nat :| f < i && EndsAt(line, f, e);
      StartOfBlock(line, f, e);
      EndIsFurther(line, f, e);
      assert EndsAt(s, f, e);
    }
  }

  lemma EndIsFurther(line: Lines, f: nat, e: nat)
    requires WellNested(line) && EndsAt(line, f, e)
    ensures f < e
  {
  }
}
