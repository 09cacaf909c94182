/** The loop every line of a loaded script remembers, in terms of the block types by name.

    Blocks are told by their depth in the nesting alone. */
module LoopLinks {
  import opened Syntax
  import opened ScriptBlocks

  /** How many blocks are open before line `k`. */
  function Depth(ts: seq<LineType>, k: nat): nat
    requires k <= |ts|
  {
    if NestRun(ts[..k]).Some? then |NestRun(ts[..k]).value| else 0
  }

  /** The block opened by line `o` ends with line `e`: in between it stays open. */
  predicate Block(ts: seq<LineType>, o: nat, e: nat) {
    && o < e < |ts| && NestRun(ts).Some? && Depth(ts, o + 1) == Depth(ts, o) + 1
    && (forall k | o < k <= e :: Depth(ts, k) > Depth(ts, o))
    && Depth(ts, e + 1) == Depth(ts, o)
  }

  /** Line `k` is in the block of line `o` and in no block inside it. */
  predicate DirectlyIn(ts: seq<LineType>, o: nat, k: nat)
    requires o < |ts| && k <= |ts|
  {
    o < k && Depth(ts, k) == Depth(ts, o) + 1
  }

  lemma {:induction false} RunOfPrefix(ts: seq<LineType>, k: nat)
    requires NestRun(ts).Some? && k <= |ts|
    ensures NestRun(ts[..k]).Some? && Proper(NestRun(ts[..k]).value)
    decreases |ts|
  {
    if k == |ts| {
      assert ts[..k] == ts;
      ClosedIsReference(ts);
    } else {
      RunOfPrefix(ts[..|ts| - 1], k);
      assert ts[..|ts| - 1][..k] == ts[..k];
    }
  }

  lemma RunStep(ts: seq<LineType>, k: nat)
    requires NestRun(ts).Some? && k < |ts|
    ensures NestRun(ts[..k]).Some? && NestRun(ts[..k + 1]) == Nest(NestRun(ts[..k]).value, ts[k], k)
    ensures Proper(NestRun(ts[..k]).value) && NestRun(ts[..k + 1]).Some?
  {
    RunOfPrefix(ts, k);
    RunOfPrefix(ts, k + 1);
    assert ts[..k + 1][..k] == ts[..k];
  }

  /** While more than `d` blocks stay open, the outermost `d` stay as they are, and so does the next, but for the
      line of an `.if`. */
  lemma NestBelow(open: seq<Open>, t: LineType, n: nat, d: nat)
    requires Proper(open) && Nest(open, t, n).Some? && |open| > d && |Nest(open, t, n).value| > d
    ensures var open' := Nest(open, t, n).value;
            && open'[..d] == open[..d] && open'[d].opener == open[d].opener
            && (open[d].opener != IfLine ==> open'[d].line == open[d].line)
  {
  }

  lemma OpensHere(ts: seq<LineType>, o: nat)
    requires NestRun(ts).Some? && o < |ts| && Depth(ts, o + 1) == Depth(ts, o) + 1
    ensures NestRun(ts[..o]).Some? && IsOpener(ts[o])
    ensures NestRun(ts[..o + 1]) == Some(NestRun(ts[..o]).value + [Open(ts[o], o, None)])
  {
    hide NestRun;
    RunStep(ts, o);
    NestShape(NestRun(ts[..o]).value, ts[o], o);
  }

  /** The blocks open inside the block of line `o`. */
  lemma {:induction false} StaysOpen(ts: seq<LineType>, o: nat, k: nat)
    requires NestRun(ts).Some? && o < k <= |ts| && Depth(ts, o + 1) == Depth(ts, o) + 1
    requires forall i | o < i <= k :: Depth(ts, i) > Depth(ts, o)
    ensures NestRun(ts[..o]).Some? && NestRun(ts[..k]).Some? && IsOpener(ts[o])
    ensures var outer, open := NestRun(ts[..o]).value, NestRun(ts[..k]).value;
            && |open| > |outer| && open[..|outer|] == outer && open[|outer|].opener == ts[o]
            && (ts[o] != IfLine ==> open[|outer|].line == o)
    decreases k
  {
    hide Nest, NestRun;
    RunOfPrefix(ts, k);
    if k == o + 1 {
      OpensHere(ts, o);
    } else {
      StaysOpen(ts, o, k - 1);
      RunStep(ts, k - 1);
      assert ts[..k - 1 + 1] == ts[..k];
      assert Depth(ts, k) > Depth(ts, o) && Depth(ts, k - 1) > Depth(ts, o);
      NestBelow(NestRun(ts[..k - 1]).value, ts[k - 1], k - 1, Depth(ts, o));
    }
  }

  /** What the lines remember, by the type of the block they are directly in.  In a `.for`, `.while`, `.macro`
      or `.function` they remember its opening line; in the other blocks what that line does. */
  lemma InsideBlock(ts: seq<LineType>, loopStart: seq<Option<nat>>, o: nat, e: nat, k: nat)
    requires Looped(ts, loopStart) && Block(ts, o, e) && k <= e && DirectlyIn(ts, o, k)
    ensures ts[o] in {ForLine, WhileLine, MacroLine, FunctionLine} ==> loopStart[k] == Some(o)
    ensures ts[o] in {IfLine, ScopeLine, NewLine, TemplateLine} ==> loopStart[k] == loopStart[o]
    ensures ts[o] in {ForLine, WhileLine, MacroLine, FunctionLine, IfLine, ScopeLine, NewLine, TemplateLine}
  {
    StaysOpen(ts, o, k);
    var outer, open := NestRun(ts[..o]).value, NestRun(ts[..k]).value;
    assert open[..|open| - 1] == outer;
  }

  /** The end line is directly in the block it ends, and the line behind it remembers what the opening line
      does. */
  lemma BehindBlock(ts: seq<LineType>, loopStart: seq<Option<nat>>, o: nat, e: nat)
    requires Looped(ts, loopStart) && Block(ts, o, e)
    ensures DirectlyIn(ts, o, e)
    ensures e + 1 < |ts| ==> loopStart[e + 1] == loopStart[o]
  {
    StaysOpen(ts, o, e);
    RunStep(ts, e);
    RunOfPrefix(ts, e + 1);
    var outer, open := NestRun(ts[..o]).value, NestRun(ts[..e]).value;
    NestShape(open, ts[e], e);
    assert NestRun(ts[..e + 1]).value == outer;
  }

  /** The first line is in no loop, and a line that neither opens nor ends a block changes nothing. */
  lemma OutsideBlocks(ts: seq<LineType>, loopStart: seq<Option<nat>>, k: nat)
    requires Looped(ts, loopStart) && NestRun(ts).Some? && k < |ts|
    ensures k == 0 ==> loopStart[k] == None
    ensures k > 0 && ts[k - 1] == Plain ==> loopStart[k] == loopStart[k - 1]
  {
    RunOfPrefix(ts, k);
    if k == 0 {
      assert ts[..0] == [];
    } else {
      RunStep(ts, k - 1);
    }
  }

  /** Every block of an accepted script has its end. */
  lemma {:induction false} BlockHasEnd(ts: seq<LineType>, o: nat, k: nat) returns (e: nat)
    requires NestRun(ts) == Some([]) && o < k <= |ts| && Depth(ts, o + 1) == Depth(ts, o) + 1
    requires forall i | o < i <= k :: Depth(ts, i) > Depth(ts, o)
    ensures Block(ts, o, e)
    decreases |ts| - k
  {
    assert ts[..|ts|] == ts;
    assert Depth(ts, |ts|) == 0 && Depth(ts, k) > Depth(ts, o);
    RunStep(ts, k);
    StaysOpen(ts, o, k);
    NestShape(NestRun(ts[..k]).value, ts[k], k);
    if Depth(ts, k + 1) > Depth(ts, o) {
      e := BlockHasEnd(ts, o, k + 1);
    } else {
      e := k;
    }
  }
}
