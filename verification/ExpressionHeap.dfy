/** The parser's tree builder on linked nodes.

    Parse nodes live in an arena; a pointer is an index into it.  `Builder` holds the
    cursor variables of the parser thread: the owner of the slot being filled, the field
    that is the slot, the pending brackets, and the width and spaces counted while the
    slot was still empty.  Every method is shown to compute the corresponding function of
    `ExpressionCursor` on what the cursor denotes. */
module ExpressionHeap {
  import opened Syntax
  import opened ExpressionCursor
  import RoundTrip

  type Ptr = Option<nat>

  datatype Node = Node(kind: Kind, op: Operator, text: string, parent: Ptr, kids: map<Field, nat>,
                       width: nat, spaces: nat, brackets: nat)

  function NewNode(kind: Kind, op: Operator, text: string): Node {
    Node(kind, op, text, None, map[], 0, 0, 0)
  }

  // ------------------------------------------------------------ what the links denote

  /** Children point back at their parent and, outside the slot, are finished. */
  ghost predicate Linked(h: seq<Node>, trees: map<nat, Tree>, p: nat, hole: Option<Field>)
    requires p < |h|
  {
    forall f | f in h[p].kids ::
      var c := h[p].kids[f];
      c < |h| && h[c].parent == Some(p) && (hole != Some(f) ==> c in trees)
  }

  /** `kids` is what the children of `n` outside the slot denote. */
  ghost predicate Denotes(n: Node, trees: map<nat, Tree>, kids: map<Field, Tree>, hole: Option<Field>) {
    && (forall f | f in kids :: f in n.kids && hole != Some(f))
    && (forall f | f in n.kids && hole != Some(f) ::
          n.kids[f] in trees && f in kids && kids[f] == trees[n.kids[f]])
  }

  ghost predicate Finished(h: seq<Node>, trees: map<nat, Tree>, p: nat)
    requires p in trees
  {
    && p < |h| && h[p].brackets == 0 && Linked(h, trees, p, None)
    && trees[p].kind == h[p].kind && trees[p].op == h[p].op && trees[p].text == h[p].text
    && Denotes(h[p], trees, trees[p].kids, None)
  }

  /** An open node denotes its frame. */
  ghost predicate Opened(h: seq<Node>, trees: map<nat, Tree>, p: nat, f: Frame) {
    && p < |h| && p !in trees && Linked(h, trees, p, Some(f.hole))
    && f.kind == h[p].kind && f.op == h[p].op && f.text == h[p].text && f.brackets == h[p].brackets
    && Denotes(h[p], trees, f.kids, Some(f.hole))
  }

  predicate Holds(n: Node, f: Field, p: nat) {
    f in n.kids && n.kids[f] == p
  }

  /** The open nodes above the slot, innermost first, chained by their parent pointers. */
  ghost predicate Spine(h: seq<Node>, trees: map<nat, Tree>, spine: seq<nat>, frames: seq<Frame>) {
    && |spine| == |frames|
    && (forall i | 0 <= i < |spine| :: Opened(h, trees, spine[i], frames[i]))
    && (forall i, j | 0 <= i < j < |spine| :: spine[i] != spine[j])
    && (forall i | 1 <= i < |spine| :: Holds(h[spine[i]], frames[i].hole, spine[i - 1]))
    && (spine != [] ==> h[spine[|spine| - 1]].parent == None)
  }

  ghost predicate Body(h: seq<Node>, trees: map<nat, Tree>, spine: seq<nat>, frames: seq<Frame>) {
    && (forall p | p in trees :: Finished(h, trees, p))
    && Spine(h, trees, spine, frames)
  }

  /** A node that is neither finished nor open, with only finished children. */
  ghost predicate Resting(h: seq<Node>, trees: map<nat, Tree>, spine: seq<nat>, c: nat) {
    c < |h| && c !in trees && c !in spine && Linked(h, trees, c, None)
  }

  function Owner(spine: seq<nat>): Ptr {
    if spine == [] then None else Some(spine[0])
  }

  /** The node in the slot: its parent pointer names the slot's owner. */
  ghost predicate InSlot(h: seq<Node>, trees: map<nat, Tree>, spine: seq<nat>, c: nat) {
    Resting(h, trees, spine, c) && h[c].parent == Owner(spine)
  }

  ghost function TreeOf(n: Node, trees: map<nat, Tree>): Tree {
    Tree(n.kind, n.op, n.text, map f | f in n.kids && n.kids[f] in trees :: trees[n.kids[f]])
  }

  function ToPath(frames: seq<Frame>): Path {
    if frames == [] then Root else In(frames[0], ToPath(frames[1..]))
  }

  /** Same nodes up to the recorded width and spaces. */
  ghost predicate Reweighed(h: seq<Node>, h': seq<Node>) {
    |h'| == |h| && forall i | 0 <= i < |h| :: h'[i] == h[i].(width := h'[i].width, spaces := h'[i].spaces)
  }

  lemma ReweighedBody(h: seq<Node>, h': seq<Node>, trees: map<nat, Tree>, spine: seq<nat>, frames: seq<Frame>)
    requires Body(h, trees, spine, frames) && Reweighed(h, h')
    ensures Body(h', trees, spine, frames)
  {
    forall p | p in trees ensures Finished(h', trees, p) {
      assert Finished(h, trees, p);
    }
    forall i | 0 <= i < |spine| ensures Opened(h', trees, spine[i], frames[i]) {
      assert Opened(h, trees, spine[i], frames[i]);
    }
  }

  /** A resting node without brackets becomes finished. */
  lemma FinishBody(h: seq<Node>, trees: map<nat, Tree>, spine: seq<nat>, frames: seq<Frame>, c: nat)
    requires Body(h, trees, spine, frames) && Resting(h, trees, spine, c) && h[c].brackets == 0
    ensures Body(h, trees[c := TreeOf(h[c], trees)], spine, frames)
  {
    var trees' := trees[c := TreeOf(h[c], trees)];
    forall p | p in trees' ensures Finished(h, trees', p) {
      if p != c {
        assert Finished(h, trees, p);
      }
    }
    forall i | 0 <= i < |spine| ensures Opened(h, trees', spine[i], frames[i]) {
      assert Opened(h, trees, spine[i], frames[i]);
    }
  }

  /** Nodes that are neither finished, nor open, nor in the slot can be changed or added. */
  lemma GrowBody(h: seq<Node>, h': seq<Node>, trees: map<nat, Tree>, spine: seq<nat>, frames: seq<Frame>)
    requires Body(h, trees, spine, frames) && |h| <= |h'|
    requires forall p | p in trees || p in spine :: p < |h| ==> h'[p] == h[p]
    requires spine != [] && frames[0].hole in h[spine[0]].kids ==>
               var c := h[spine[0]].kids[frames[0].hole]; c < |h| ==> h'[c].parent == h[c].parent
    ensures Body(h', trees, spine, frames)
  {
    forall p | p in trees ensures Finished(h', trees, p) {
      assert Finished(h, trees, p);
    }
    forall i | 0 <= i < |spine| ensures Opened(h', trees, spine[i], frames[i]) {
      assert Opened(h, trees, spine[i], frames[i]);
      assert i > 0 ==> Holds(h[spine[i]], frames[i].hole, spine[i - 1]);
    }
  }

  /** The innermost open node is left: it comes to rest in the slot above it. */
  lemma PopBody(h: seq<Node>, trees: map<nat, Tree>, spine: seq<nat>, frames: seq<Frame>)
    requires Body(h, trees, spine, frames) && spine != []
    requires frames[0].hole in h[spine[0]].kids ==> h[spine[0]].kids[frames[0].hole] in trees
    ensures Body(h, trees, spine[1..], frames[1..]) && InSlot(h, trees, spine[1..], spine[0])
  {
    assert Opened(h, trees, spine[0], frames[0]);
    if |spine| > 1 {
      assert Holds(h[spine[1]], frames[1].hole, spine[0]);
      assert Opened(h, trees, spine[1], frames[1]);
    }
  }

  /** The node in the slot is opened at an empty field. */
  lemma PushBody(h: seq<Node>, trees: map<nat, Tree>, spine: seq<nat>, frames: seq<Frame>, c: nat, f: Frame)
    requires Body(h, trees, spine, frames) && InSlot(h, trees, spine, c)
    requires spine != [] ==> Holds(h[spine[0]], frames[0].hole, c)
    requires Opened(h, trees, c, f)
    ensures Body(h, trees, [c] + spine, [f] + frames)
  {
    hide Finished;
    var spine', frames' := [c] + spine, [f] + frames;
    forall i | 0 <= i < |spine'| ensures Opened(h, trees, spine'[i], frames'[i]) {
      assert i > 0 ==> Opened(h, trees, spine[i - 1], frames[i - 1]);
    }
  }

  /** A node whose parent pointer names the owner is put in the slot. */
  lemma FillBody(h: seq<Node>, h': seq<Node>, trees: map<nat, Tree>, spine: seq<nat>, frames: seq<Frame>, c: nat)
    requires Body(h, trees, spine, frames) && spine != [] && c < |h| && h[c].parent == Some(spine[0]) && c != spine[0]
    requires h' == h[spine[0] := h[spine[0]].(kids := h[spine[0]].kids[frames[0].hole := c])]
    ensures Body(h', trees, spine, frames)
  {
    forall p | p in trees ensures Finished(h', trees, p) {
      assert Finished(h, trees, p);
    }
    forall i | 0 <= i < |spine| ensures Opened(h', trees, spine[i], frames[i]) {
      assert Opened(h, trees, spine[i], frames[i]);
    }
  }

  lemma ClosedTree(h: seq<Node>, trees: map<nat, Tree>, p: nat, f: Frame, focus: Option<Cell>)
    requires Opened(h, trees, p, f)
    requires focus.Some? <==> f.hole in h[p].kids
    requires focus.Some? ==> h[p].kids[f.hole] in trees && trees[h[p].kids[f.hole]] == focus.value.tree
    ensures Closed(f, focus) == Cell(TreeOf(h[p], trees), h[p].brackets)
  {
    assert Closed(f, focus).tree.kids == TreeOf(h[p], trees).kids;
  }

  // ------------------------------------------------------------ a node put above the slot's content

  ghost function SetSlot(h: seq<Node>, spine: seq<nat>, frames: seq<Frame>, c: nat): seq<Node>
    requires |spine| == |frames| && (spine != [] ==> spine[0] < |h|)
  {
    if spine == [] then h else h[spine[0] := h[spine[0]].(kids := h[spine[0]].kids[frames[0].hole := c])]
  }

  lemma InBounds(h: seq<Node>, trees: map<nat, Tree>, spine: seq<nat>, frames: seq<Frame>)
    requires Body(h, trees, spine, frames)
    ensures forall p | p in trees || p in spine :: p < |h|
    ensures spine != [] ==> Opened(h, trees, spine[0], frames[0])
  {
    forall p | p in spine ensures p < |h| {
      var i :| 0 <= i < |spine| && spine[i] == p;
      assert Opened(h, trees, spine[i], frames[i]);
    }
    assert forall p | p in trees :: Finished(h, trees, p);
    if spine != [] { assert Opened(h, trees, spine[0], frames[0]); }
  }

  lemma AppendBody(h: seq<Node>, trees: map<nat, Tree>, spine: seq<nat>, frames: seq<Frame>, n: Node)
    requires Body(h, trees, spine, frames) && n.parent == Owner(spine) && n.kids == map[]
    requires spine != [] ==> spine[0] < |h|
    ensures var h' := SetSlot(h + [n], spine, frames, |h|);
            Body(h', trees, spine, frames) && InSlot(h', trees, spine, |h|) && h'[|h|] == n
  {
    InBounds(h, trees, spine, frames);
    GrowBody(h, h + [n], trees, spine, frames);
    if spine != [] {
      FillBody(h + [n], SetSlot(h + [n], spine, frames, |h|), trees, spine, frames, |h|);
    }
  }

  /** The arena after node `n` has taken the place of `c`, which it holds as a child. */
  ghost function Above(h: seq<Node>, spine: seq<nat>, frames: seq<Frame>, c: nat, n: Node, spaces: nat): seq<Node>
    requires |spine| == |frames| && (spine != [] ==> spine[0] < |h|) && c < |h|
  {
    SetSlot(h[c := h[c].(parent := Some(|h|), brackets := 0, spaces := spaces)] + [n], spine, frames, |h|)
  }

  lemma AboveBody(h: seq<Node>, trees: map<nat, Tree>, spine: seq<nat>, frames: seq<Frame>,
                  c: nat, f: Field, n: Node, spaces: nat)
    requires Body(h, trees, spine, frames) && InSlot(h, trees, spine, c)
    requires n.parent == Owner(spine) && n.kids == map[f := c]
    requires spine != [] ==> spine[0] < |h|
    ensures var h' := Above(h, spine, frames, c, n, spaces);
            Body(h', trees[c := TreeOf(h[c], trees)], spine, frames) && h'[|h|] == n
  {
    InBounds(h, trees, spine, frames);
    var leaf := n.(kids := map[]);
    AppendBody(h, trees, spine, frames, leaf);
    var hA := SetSlot(h + [leaf], spine, frames, |h|);
    var h' := Above(h, spine, frames, c, n, spaces);
    GrowBody(hA, h', trees, spine, frames);
    ChildrenKeepParents(h, h', trees, spine, c);
    FinishBody(h', trees, spine, frames, c);
  }

  lemma ChildrenKeepParents(h: seq<Node>, h': seq<Node>, trees: map<nat, Tree>, spine: seq<nat>, c: nat)
    requires Resting(h, trees, spine, c) && |h| <= |h'|
    requires h'[c].kids == h[c].kids && forall p | p in trees :: p < |h| ==> h'[p].parent == h[p].parent
    ensures Resting(h', trees, spine, c)
  {
  }

  lemma AboveInSlot(h: seq<Node>, trees: map<nat, Tree>, spine: seq<nat>, frames: seq<Frame>,
                    c: nat, f: Field, n: Node, spaces: nat)
    requires Body(h, trees, spine, frames) && InSlot(h, trees, spine, c)
    requires n.parent == Owner(spine) && n.kids == map[f := c]
    requires spine != [] ==> spine[0] < |h|
    ensures InSlot(Above(h, spine, frames, c, n, spaces), trees[c := TreeOf(h[c], trees)], spine, |h|)
  {
    InBounds(h, trees, spine, frames);
  }

  // ------------------------------------------------------------ width and spaces

  /** Width and spaces recorded on the given nodes. */
  ghost function Weight(h: seq<Node>, ps: seq<nat>): nat {
    if ps == [] then 0 else NodeWeight(h, Some(ps[0])) + Weight(h, ps[1..])
  }

  ghost function NodeWeight(h: seq<Node>, p: Ptr): nat {
    if p.Some? && p.value < |h| then h[p.value].width + h[p.value].spaces else 0
  }

  lemma {:induction false} SameWeight(h: seq<Node>, h': seq<Node>, ps: seq<nat>)
    requires forall p | p in ps :: NodeWeight(h, Some(p)) == NodeWeight(h', Some(p))
    ensures Weight(h, ps) == Weight(h', ps)
    decreases |ps|
  {
    if ps != [] { SameWeight(h, h', ps[1..]); }
  }

  /** The child field of `n` that holds `p`, looked for in the parser's order. */
  function FieldOf(n: Node, p: nat): (r: Option<Field>)
    ensures r.Some? ==> Holds(n, r.value, p)
    ensures r.None? ==> forall f | f in n.kids :: n.kids[f] != p
  {
    if Holds(n, Scope, p) then Some(Scope)
    else if Holds(n, Name, p) then Some(Name)
    else if Holds(n, Op1, p) then Some(Op1)
    else if Holds(n, Op2, p) then Some(Op2)
    else if Holds(n, As, p) then Some(As)
    else if Holds(n, To, p) then Some(To)
    else if Holds(n, Before, p) then Some(Before)
    else if Holds(n, After, p) then Some(After)
    else NoField(n, p); None
  }

  lemma NoField(n: Node, p: nat)
    requires !Holds(n, Scope, p) && !Holds(n, Name, p) && !Holds(n, Op1, p) && !Holds(n, Op2, p)
    requires !Holds(n, As, p) && !Holds(n, To, p) && !Holds(n, Before, p) && !Holds(n, After, p)
    ensures forall f | f in n.kids :: n.kids[f] != p
  {
    forall f | f in n.kids ensures n.kids[f] != p {
      match f {
        case Scope => case Name => case Op1 => case Op2 =>
        case As => case To => case Before => case After =>
      }
    }
  }

  // ------------------------------------------------------------ the cursor

  /** The cursor variables of the parser thread. */
  datatype Cursor = Cursor(node: seq<Node>, root: Ptr, parent: Ptr, field: Field)

  /** What the nodes denote: the finished ones, and the open ones above the slot. */
  datatype View = View(trees: map<nat, Tree>, spine: seq<nat>, frames: seq<Frame>)

  /** The content of the slot. */
  function Slot(c: Cursor): Ptr {
    if c.parent.None? then c.root
    else if c.parent.value < |c.node| && c.field in c.node[c.parent.value].kids
    then Some(c.node[c.parent.value].kids[c.field])
    else None
  }

  ghost predicate Shape(c: Cursor, v: View) {
    && Body(c.node, v.trees, v.spine, v.frames)
    && c.parent == Owner(v.spine)
    && (v.spine != [] ==> c.field == v.frames[0].hole && c.root == Some(v.spine[|v.spine| - 1]))
    && (Slot(c).Some? ==> InSlot(c.node, v.trees, v.spine, Slot(c).value))
  }

  ghost function Focus(c: Cursor, v: View): Option<Cell> {
    var p := Slot(c);
    if p.None? || p.value >= |c.node| then None
    else Some(Cell(TreeOf(c.node[p.value], v.trees), c.node[p.value].brackets))
  }

  ghost function Carried(c: Cursor, v: View): nat {
    Weight(c.node, v.spine) + NodeWeight(c.node, Slot(c))
  }

  // ---- leaving the innermost open node

  ghost function Finish(c: Cursor, v: View): View {
    if Slot(c).None? || Slot(c).value >= |c.node| then v
    else v.(trees := v.trees[Slot(c).value := TreeOf(c.node[Slot(c).value], v.trees)])
  }

  lemma SlotFacts(c: Cursor, v: View)
    requires Shape(c, v)
    ensures forall p | p in v.trees || p in v.spine :: p < |c.node|
    ensures |v.spine| == |v.frames| && c.parent == Owner(v.spine)
    ensures v.spine != [] ==> c.field == v.frames[0].hole && Opened(c.node, v.trees, v.spine[0], v.frames[0])
    ensures Focus(c, v).Some? <==> Slot(c).Some?
    ensures v.spine != [] ==> (Slot(c).Some? <==> v.frames[0].hole in c.node[v.spine[0]].kids)
  {
    InBounds(c.node, v.trees, v.spine, v.frames);
  }

  lemma FinishShape(c: Cursor, v: View, h': seq<Node>)
    requires Shape(c, v) && v.spine != [] && Reweighed(c.node, h')
    requires Focus(c, v).Some? ==> Focus(c, v).value.brackets == 0
    ensures Body(h', Finish(c, v).trees, v.spine, v.frames)
  {
    if Slot(c).Some? {
      FinishBody(c.node, v.trees, v.spine, v.frames, Slot(c).value);
    }
    ReweighedBody(c.node, h', Finish(c, v).trees, v.spine, v.frames);
  }

  lemma LeaveShape(c: Cursor, v: View, h': seq<Node>)
    requires Shape(c, v) && v.spine != [] && Reweighed(c.node, h')
    requires Focus(c, v).Some? ==> Focus(c, v).value.brackets == 0
    ensures var trees' := Finish(c, v).trees;
            && |v.frames| == |v.spine|
            && Body(h', trees', v.spine[1..], v.frames[1..])
            && InSlot(h', trees', v.spine[1..], v.spine[0])
            && Closed(v.frames[0], Focus(c, v)) == Cell(TreeOf(h'[v.spine[0]], trees'), h'[v.spine[0]].brackets)
  {
    SlotFacts(c, v);
    FinishShape(c, v, h');
    var trees' := Finish(c, v).trees;
    ClosedTree(h', trees', v.spine[0], v.frames[0], Focus(c, v));
    PopBody(h', trees', v.spine, v.frames);
  }

  /** The search for the field that holds the node being left finds the one the cursor
      came down through. */
  lemma FieldIsHole(h: seq<Node>, trees: map<nat, Tree>, spine: seq<nat>, frames: seq<Frame>, p: nat)
    requires Body(h, trees, spine, frames) && spine != [] && spine[0] < |h|
    requires Holds(h[spine[0]], frames[0].hole, p) && p !in trees
    ensures FieldOf(h[spine[0]], p) == Some(frames[0].hole)
  {
    assert Opened(h, trees, spine[0], frames[0]);
  }

  ghost function LeaveView(c: Cursor, v: View): View
    requires v.spine != [] && v.frames != []
  {
    View(Finish(c, v).trees, v.spine[1..], v.frames[1..])
  }

  lemma ParentIsNext(c: Cursor, v: View)
    requires Shape(c, v) && v.spine != []
    ensures |v.frames| == |v.spine| && v.spine[0] < |c.node|
    ensures |v.spine| == 1 ==> c.node[v.spine[0]].parent == None && c.root == Some(v.spine[0])
    ensures |v.spine| > 1 ==> && v.spine[1] < |c.node| && c.node[v.spine[0]].parent == Some(v.spine[1])
                              && Holds(c.node[v.spine[1]], v.frames[1].hole, v.spine[0])
                              && c.root == Some(v.spine[|v.spine| - 1])
    ensures forall i | 1 <= i < |v.spine| :: v.spine[i] != v.spine[0]
  {
    assert Opened(c.node, v.trees, v.spine[0], v.frames[0]);
    if |v.spine| > 1 {
      assert Opened(c.node, v.trees, v.spine[1], v.frames[1]);
      assert Holds(c.node[v.spine[1]], v.frames[1].hole, v.spine[0]);
    }
  }

  lemma LeaveCursor(c: Cursor, v: View, c': Cursor)
    requires Shape(c, v) && v.spine != [] && Reweighed(c.node, c'.node) && c.parent.Some? && c.parent.value < |c.node|
    requires Focus(c, v).Some? ==> Focus(c, v).value.brackets == 0
    requires c'.root == c.root && c'.parent == c.node[c.parent.value].parent
    requires c'.parent.Some? && c'.parent.value < |c.node| ==>
               FieldOf(c.node[c'.parent.value], c.parent.value) == Some(c'.field)
    ensures |v.frames| == |v.spine| && Shape(c', LeaveView(c, v))
    ensures Focus(c', LeaveView(c, v)) == Some(Closed(v.frames[0], Focus(c, v)))
    ensures Slot(c') == Some(c.parent.value)
    ensures ToPath(v.frames) == In(v.frames[0], ToPath(LeaveView(c, v).frames))
  {
    ParentIsNext(c, v);
    LeaveShape(c, v, c'.node);
    if |v.spine| > 1 {
      FieldIsHole(c'.node, Finish(c, v).trees, v.spine[1..], v.frames[1..], v.spine[0]);
    }
  }

  lemma LeaveCarried(c: Cursor, v: View, c': Cursor, v': View, extra: nat)
    requires v.spine != [] && c.parent == Owner(v.spine) && v.spine[0] < |c.node| && v'.spine == v.spine[1..]
    requires forall i | 1 <= i < |v.spine| :: v.spine[i] != v.spine[0]
    requires Slot(c') == c.parent
    requires c'.node == c.node[v.spine[0] := c.node[v.spine[0]].(
                          width := c.node[v.spine[0]].width + NodeWeight(c.node, Slot(c)) + extra)]
    ensures Carried(c', v') == Carried(c, v) + extra
  {
    SameWeight(c.node, c'.node, v.spine[1..]);
  }

  // ---- deciding whether to climb

  /** The loop conditions as the parser evaluates them, on the nodes. */
  predicate ClimbsHere(rule: Rule, c: Cursor) {
    c.parent.Some? && c.parent.value < |c.node| &&
    var p := c.node[c.parent.value];
    var brackets := if Slot(c).Some? && Slot(c).value < |c.node| then c.node[Slot(c).value].brackets else 0;
    match rule
    case ForOperator(op) =>
      && p.kind == OperatorNode && brackets == 0
      && (Op1 !in p.kids || Priority(p.op) >= Priority(op))
    case ForClose => Slot(c).Some? && brackets == 0 && p.kind == OperatorNode && p.op != OpNextArg
    case ToRoot => true
    case ToString => p.kind == OperatorNode && p.op == OpUndefined
    case ToArguments => p.kind == OperatorNode && p.op == OpNextArg
    case ToExpression => p.kind == OperatorNode && p.op != OpNextArg
    case ToDataSpecifier => p.kind == Member || p.kind == Attribute
  }

  lemma ClimbsAgree(rule: Rule, c: Cursor, v: View, pending: nat)
    requires Shape(c, v)
    ensures ClimbsHere(rule, c) == Climbs(rule, State(Focus(c, v), ToPath(v.frames), pending))
    ensures Climbs(rule, State(Focus(c, v), ToPath(v.frames), pending)) ==> v.frames != []
  {
    SlotFacts(c, v);
  }

  lemma {:induction false} ClimbKeepsPending(rule: Rule, s: State)
    ensures ExpressionCursor.Climb(rule, s).state.pending == s.pending
    ensures s.focus.Some? ==> ExpressionCursor.Climb(rule, s).state.focus.Some?
    decreases s.path
  {
    if Climbs(rule, s) && ExpressionCursor.ReturnOneLevel(s).fault == NoFault {
      ClimbKeepsPending(rule, ExpressionCursor.ReturnOneLevel(s).state);
    }
  }

  // ---- putting a node above the slot's content

  ghost function AboveCursor(c: Cursor, v: View, n: Node, spaces: nat): Cursor
    requires |v.spine| == |v.frames| && (v.spine != [] ==> v.spine[0] < |c.node|)
    requires Slot(c).Some? ==> Slot(c).value < |c.node|
  {
    var h' := if Slot(c).Some? then Above(c.node, v.spine, v.frames, Slot(c).value, n, spaces)
              else SetSlot(c.node + [n], v.spine, v.frames, |c.node|);
    Cursor(h', if c.parent.None? then Some(|c.node|) else c.root, c.parent, c.field)
  }

  function KidOf(f: Field, c: Ptr): map<Field, nat> {
    if c.Some? then map[f := c.value] else map[]
  }

  lemma AboveFilledShape(c: Cursor, v: View, f: Field, n: Node, spaces: nat)
    requires Shape(c, v) && n.parent == c.parent && n.kids == KidOf(f, Slot(c)) && Slot(c).Some?
    ensures |v.spine| == |v.frames| && (v.spine != [] ==> v.spine[0] < |c.node|) && Slot(c).value < |c.node|
    ensures var c' := AboveCursor(c, v, n, spaces);
            && Shape(c', Finish(c, v))
            && Slot(c') == Some(|c.node|) && |c'.node| == |c.node| + 1 && c'.node[|c.node|] == n
  {
    SlotFacts(c, v);
    AboveBody(c.node, v.trees, v.spine, v.frames, Slot(c).value, f, n, spaces);
    AboveInSlot(c.node, v.trees, v.spine, v.frames, Slot(c).value, f, n, spaces);
  }

  lemma AboveShape(c: Cursor, v: View, f: Field, n: Node, spaces: nat)
    requires Shape(c, v) && n.parent == c.parent && n.kids == KidOf(f, Slot(c))
    ensures |v.spine| == |v.frames| && (v.spine != [] ==> v.spine[0] < |c.node|)
    ensures Slot(c).Some? ==> Slot(c).value < |c.node|
    ensures var c' := AboveCursor(c, v, n, spaces);
            && Shape(c', Finish(c, v))
            && Slot(c') == Some(|c.node|) && |c'.node| == |c.node| + 1 && c'.node[|c.node|] == n
  {
    if Slot(c).Some? {
      AboveFilledShape(c, v, f, n, spaces);
    } else {
      SlotFacts(c, v);
      AppendBody(c.node, v.trees, v.spine, v.frames, n);
    }
  }

  lemma AboveFocus(c: Cursor, v: View, f: Field, n: Node)
    requires n.kids == KidOf(f, Slot(c)) && (Slot(c).Some? ==> Slot(c).value < |c.node|)
    ensures TreeOf(n, Finish(c, v).trees) == Tree(n.kind, n.op, n.text, Kid(f, Focus(c, v)))
  {
    assert TreeOf(n, Finish(c, v).trees).kids == Kid(f, Focus(c, v));
  }

  lemma AboveCarried(c: Cursor, v: View, n: Node, spaces: nat)
    requires Shape(c, v) && |v.spine| == |v.frames| && (v.spine != [] ==> v.spine[0] < |c.node|)
    requires Slot(c).Some? ==> Slot(c).value < |c.node|
    requires forall p | p in v.spine :: p < |c.node|
    requires Slot(AboveCursor(c, v, n, spaces)) == Some(|c.node|)
    requires |AboveCursor(c, v, n, spaces).node| == |c.node| + 1
    requires AboveCursor(c, v, n, spaces).node[|c.node|] == n
    ensures Carried(AboveCursor(c, v, n, spaces), v) == Carried(c, v) - NodeWeight(c.node, Slot(c)) + n.width + n.spaces
  {
    SameWeight(c.node, AboveCursor(c, v, n, spaces).node, v.spine);
  }

  // ---- stepping down

  ghost function OpenFrame(c: Cell, f: Field): Frame {
    Frame(c.tree.kind, c.tree.op, c.tree.text, c.tree.kids - {f}, c.brackets, f)
  }

  /** The cursor after stepping down into field `f` of the slot's node. */
  ghost function DownView(c: Cursor, v: View, f: Field): View
    requires Slot(c).Some? && Focus(c, v).Some?
  {
    View(v.trees, [Slot(c).value] + v.spine, [OpenFrame(Focus(c, v).value, f)] + v.frames)
  }

  lemma SlotOpens(h: seq<Node>, trees: map<nat, Tree>, spine: seq<nat>, p: nat, f: Field)
    requires Resting(h, trees, spine, p) && f !in h[p].kids
    ensures Opened(h, trees, p, OpenFrame(Cell(TreeOf(h[p], trees), h[p].brackets), f))
  {
  }

  lemma KidsAgree(c: Cursor, v: View, f: Field)
    requires Shape(c, v) && Slot(c).Some?
    ensures Slot(c).value < |c.node| && Focus(c, v).Some?
    ensures f in Focus(c, v).value.tree.kids <==> f in c.node[Slot(c).value].kids
  {
    assert Resting(c.node, v.trees, v.spine, Slot(c).value);
  }

  lemma DownShape(c: Cursor, v: View, f: Field)
    requires Shape(c, v) && Slot(c).Some? && Focus(c, v).Some?
    requires f !in Focus(c, v).value.tree.kids
    ensures var c', v' := c.(parent := Slot(c), field := f), DownView(c, v, f);
            Shape(c', v') && Slot(c') == None
  {
    SlotFacts(c, v);
    KidsAgree(c, v, f);
    SlotOpens(c.node, v.trees, v.spine, Slot(c).value, f);
    PushBody(c.node, v.trees, v.spine, v.frames, Slot(c).value, OpenFrame(Focus(c, v).value, f));
  }

  lemma DownCarried(c: Cursor, v: View, f: Field)
    requires Slot(c).Some? && Focus(c, v).Some?
    requires Slot(c.(parent := Slot(c), field := f)) == None
    ensures var c', v' := c.(parent := Slot(c), field := f), DownView(c, v, f);
            && Carried(c', v') == Carried(c, v)
            && ToPath(v'.frames) == In(OpenFrame(Focus(c, v).value, f), ToPath(v.frames))
  {
    var v' := DownView(c, v, f);
    assert v'.frames[1..] == v.frames && v'.spine[1..] == v.spine;
  }

  // ---- changing the counters of the slot's node

  lemma TouchShape(c: Cursor, v: View, n: Node)
    requires Shape(c, v) && Slot(c).Some?
    requires Slot(c).value < |c.node| ==>
               var m := c.node[Slot(c).value];
               n == m.(brackets := n.brackets, width := n.width, spaces := n.spaces)
    ensures Slot(c).value < |c.node| && Focus(c, v).Some?
    ensures var c' := c.(node := c.node[Slot(c).value := n]);
            Shape(c', v) && Slot(c') == Slot(c) && Focus(c', v) == Some(Focus(c, v).value.(brackets := n.brackets))
  {
    SlotFacts(c, v);
    GrowBody(c.node, c.node[Slot(c).value := n], v.trees, v.spine, v.frames);
    var c' := c.(node := c.node[Slot(c).value := n]);
    assert Slot(c') == Slot(c);
    ChildrenKeepParents(c.node, c'.node, v.trees, v.spine, Slot(c).value);
  }

  lemma TouchCarried(c: Cursor, v: View, n: Node)
    requires Slot(c).Some? && Slot(c).value < |c.node| && Slot(c).value !in v.spine
    requires Slot(c.(node := c.node[Slot(c).value := n])) == Slot(c)
    ensures Carried(c.(node := c.node[Slot(c).value := n]), v)
         == Carried(c, v) - NodeWeight(c.node, Slot(c)) + n.width + n.spaces
  {
    SameWeight(c.node, c.node[Slot(c).value := n], v.spine);
  }

  class Builder {
    var node: seq<Node>  // the arena
    var root: Ptr
    var parent: Ptr      // owner of the slot; null when the slot is the root
    var field: Field     // which field of the owner is the slot
    var pending: nat
    var deferredWidth: nat
    var deferredSpaces: nat

    ghost var view: View
    ghost var counted: nat  // width and spaces counted so far

    function At(): Cursor
      reads this
    {
      Cursor(node, root, parent, field)
    }

    ghost predicate Valid()
      reads this
    {
      Shape(At(), view) && Carried(At(), view) + deferredWidth + deferredSpaces == counted
    }

    /** What the cursor denotes. */
    ghost function Zip(): State
      reads this
    {
      State(Focus(At(), view), ToPath(view.frames), pending)
    }

    function Current(): (p: Ptr)
      reads this
      ensures p == Slot(At())
    {
      if parent.None? then root
      else if parent.value < |node| && field in node[parent.value].kids then Some(node[parent.value].kids[field])
      else None
    }

    constructor ()
      ensures Valid() && Zip() == State(None, Root, 0) && counted == 0
    {
      node, root, parent, field := [], None, None, Op1;
      pending, deferredWidth, deferredSpaces := 0, 0, 0;
      view, counted := View(map[], [], []), 0;
    }

    // ---------------------------------------------------------- moving up

    /** return_one_level.  The branch for a parent that does not hold its child is
        shown to be unreachable. */
    method ReturnOneLevel() returns (fault: Fault)
      requires Valid() && parent.Some?
      modifies this
      ensures Valid() && counted == old(counted)
      ensures Step(Zip(), fault) == ExpressionCursor.ReturnOneLevel(old(Zip()))
    {
      hide Shape, Weight, ToPath;
      ghost var c0, v0 := At(), view;
      SlotFacts(c0, v0);
      ParentIsNext(c0, v0);
      var c := Current();
      if pending > 0 { return UnexpectedToken; }
      if c.Some? && node[c.value].brackets > 0 { return MismatchedBrackets; }
      var p := parent.value;
      var deferred := deferredSpaces + deferredWidth;
      var inner := if c.Some? then node[c.value].spaces + node[c.value].width else 0;
      node := node[p := node[p].(width := node[p].width + inner + deferred)];
      deferredSpaces, deferredWidth := 0, 0;
      if node[p].parent.Some? {
        match FieldOf(node[node[p].parent.value], p)
        case Some(g) => field := g;
        case None => assert false;
      }
      parent := node[p].parent;
      view := LeaveView(c0, v0);
      LeaveCursor(c0, v0, At());
      LeaveCarried(c0, v0, At(), view, deferred);
      return NoFault;
    }

    method MustClimb(rule: Rule) returns (more: bool)
      requires Valid()
      ensures more == Climbs(rule, Zip()) && (more ==> parent.Some?)
    {
      ClimbsAgree(rule, At(), view, pending);
      more := ClimbsHere(rule, At());
    }

    /** The parser's climbing loops. */
    method Climb(rule: Rule) returns (fault: Fault)
      requires Valid()
      modifies this
      ensures Valid() && counted == old(counted)
      ensures Step(Zip(), fault) == ExpressionCursor.Climb(rule, old(Zip()))
    {
      hide Shape, ToPath;
      fault := NoFault;
      var more := MustClimb(rule);
      while more
        invariant Valid() && counted == old(counted) && fault == NoFault
        invariant more == Climbs(rule, Zip()) && (more ==> parent.Some?)
        invariant ExpressionCursor.Climb(rule, Zip()) == ExpressionCursor.Climb(rule, old(Zip()))
        decreases Zip().path, more
      {
        fault := ReturnOneLevel();
        if fault != NoFault { return; }
        more := MustClimb(rule);
      }
    }

    // ---------------------------------------------------------- inserting

    /** Put a new node where the slot's content was; the content becomes its child. */
    method PutAbove(n: Node, f: Field, spaces: nat)
      requires Shape(At(), view) && n.kids == map[]
      modifies this`node, this`root, this`view
      ensures Shape(At(), view)
      ensures Zip() == old(Zip()).(focus := Some(Cell(Tree(n.kind, n.op, n.text, Kid(f, old(Zip()).focus)),
                n.brackets)))
      ensures Carried(At(), view) == old(Carried(At(), view)) - old(NodeWeight(node, Slot(At()))) + n.width + n.spaces
    {
      hide Shape;
      ghost var c0, v0 := At(), view;
      SlotFacts(c0, v0);
      var q, c := |node|, Current();
      var above := n.(parent := parent, kids := KidOf(f, c));
      AboveShape(c0, v0, f, above, spaces);
      AboveFocus(c0, v0, f, above);
      AboveCarried(c0, v0, above, spaces);
      if c.Some? {
        node := node[c.value := node[c.value].(parent := Some(q), brackets := 0, spaces := spaces)];
      }
      node := node + [above];
      if parent.None? {
        root := Some(q);
      } else {
        node := node[parent.value := node[parent.value].(kids := node[parent.value].kids[field := q])];
      }
      assert At() == AboveCursor(c0, v0, above, spaces);
      view := Finish(c0, v0);
    }

    /** Step down into an empty field of the slot's node. */
    method StepDown(f: Field)
      requires Shape(At(), view) && Slot(At()).Some? && Zip().focus.Some?
      requires f !in Zip().focus.value.tree.kids
      modifies this`parent, this`field, this`view
      ensures Shape(At(), view) && Carried(At(), view) == old(Carried(At(), view))
      ensures Zip() == old(State(None, In(OpenFrame(Zip().focus.value, f), Zip().path), pending))
    {
      hide Shape;
      ghost var c0, v0 := At(), view;
      DownShape(c0, v0, f);
      DownCarried(c0, v0, f);
      parent, field := Current(), f;
      view := DownView(c0, v0, f);
    }

    method Deferred() returns (width: nat, spaces: nat)
      modifies this`deferredWidth, this`deferredSpaces
      ensures width == old(deferredWidth) && spaces == old(deferredSpaces)
      ensures deferredWidth == 0 && deferredSpaces == 0
    {
      width, spaces := deferredWidth, deferredSpaces;
      deferredWidth, deferredSpaces := 0, 0;
    }

    /** The slot's node, or a blank one when the slot is empty. */
    method Inspect() returns (n: Node)
      requires Shape(At(), view)
      ensures Slot(At()).Some? <==> Zip().focus.Some?
      ensures n.brackets == BracketsAt(Zip().focus) && n.width + n.spaces == NodeWeight(node, Slot(At()))
      ensures Slot(At()).Some? ==> Slot(At()).value < |node| && n == node[Slot(At()).value]
    {
      SlotFacts(At(), view);
      n := if Current().Some? then node[Current().value] else NewNode(Text, OpUndefined, "");
    }

    /** The operator branch of insert_the_node, after the climb. */
    method PutOperator(op: Operator, brackets: nat)
      requires Valid()
      modifies this
      ensures Valid() && counted == old(counted) && pending == old(pending)
      ensures Zip() == old(Zip()).(focus := Some(Cell(Tree(OperatorNode, op, "", Kid(Op1, old(Zip()).focus)),
                                                      BracketsAt(old(Zip()).focus) + brackets)))
    {
      hide Shape, ToPath;
      var n := Inspect();
      var width, spaces := Deferred();
      PutAbove(NewNode(OperatorNode, op, "").(width := width + n.width, spaces := spaces + n.spaces,
                                             brackets := n.brackets + brackets), Op1, 0);
    }

    /** insert_operator_node */
    method InsertOperator(op: Operator) returns (fault: Fault)
      requires Valid()
      modifies this
      ensures Valid() && counted == old(counted)
      ensures Step(Zip(), fault) == ExpressionCursor.InsertOperator(old(Zip()), op)
    {
      hide Shape, ToPath;
      fault := Climb(ForOperator(op));
      PutOperator(op, pending);
      pending := 0;
    }

    /** The part of insert_simple_node that makes room beside a filled slot. */
    method Concatenate() returns (fault: Fault)
      requires Valid() && Slot(At()).Some?
      modifies this
      ensures Valid() && counted == old(counted) && Slot(At()).None?
      ensures var c := ExpressionCursor.Climb(ForOperator(OpUndefined), old(Zip()));
              var f := Frame(OperatorNode, OpUndefined, "", Kid(Op1, c.state.focus), BracketsAt(c.state.focus), Op2);
              Step(Zip(), fault) == Step(State(None, In(f, c.state.path), c.state.pending), c.fault)
    {
      hide Shape, ToPath, Focus, Carried, Slot, NodeWeight, ExpressionCursor.Climb;
      fault := Climb(ForOperator(OpUndefined));
      ghost var s := Zip();
      PutOperator(OpUndefined, 0);
      var n := Inspect();
      ghost var kids := Zip().focus.value.tree.kids;
      assert kids == Kid(Op1, s.focus) && kids - {Op2} == kids;
      StepDown(Op2);
      n := Inspect();
    }

    /** insert_simple_node */
    method InsertSimple(kind: Kind, op: Operator, text: string) returns (fault: Fault)
      requires Valid()
      modifies this
      ensures Valid() && counted == old(counted)
      ensures Step(Zip(), fault) == ExpressionCursor.InsertSimple(old(Zip()), kind, op, text)
    {
      hide Shape, ToPath, Focus, Carried, Slot, ExpressionCursor.Climb;
      var brackets := pending;
      pending, fault := 0, NoFault;
      var n := Inspect();
      if Current().Some? {
        ClimbKeepsPending(ForOperator(OpUndefined), Zip());
        fault := Concatenate();
      }
      var width, spaces := Deferred();
      PutAbove(NewNode(kind, op, text).(width := width, spaces := spaces, brackets := brackets), Op1, 0);
    }

    /** insert_member_node and insert_attribute_node: the slot's content becomes the scope. */
    method InsertDataSpecifier(kind: Kind)
      requires Valid()
      modifies this
      ensures Valid() && counted == old(counted)
      ensures Zip() == ExpressionCursor.InsertDataSpecifier(old(Zip()), kind)
    {
      hide Shape, ToPath;
      var n := Inspect();
      PutAbove(NewNode(kind, OpUndefined, "").(width := n.width, spaces := n.spaces, brackets := n.brackets),
               Scope, n.spaces);
    }

    /** ready_for_..._field.  An occupied field is an exception that abandons the parse. */
    method ReadyFor(f: Field) returns (fault: Fault)
      requires Valid() && Slot(At()).Some? && Zip().focus.Some?
      modifies this
      ensures counted == old(counted) && fault == ExpressionCursor.ReadyFor(old(Zip()), f).fault
      ensures fault == NoFault ==> Valid() && Zip() == ExpressionCursor.ReadyFor(old(Zip()), f).state
    {
      hide Shape, ToPath;
      KidsAgree(At(), view, f);
      if f in node[Current().value].kids {
        parent, field := Current(), f;
        return Occupied;
      }
      StepDown(f);
      return NoFault;
    }

    // ---------------------------------------------------------- brackets

    method AddBracket()
      requires Valid()
      modifies this`pending
      ensures Valid() && Zip() == ExpressionCursor.AddBracket(old(Zip()))
    {
      pending := pending + 1;
    }

    /** close_one_bracket */
    method CloseBracket() returns (fault: Fault)
      requires Valid()
      modifies this
      ensures Valid() && counted == old(counted)
      ensures Step(Zip(), fault) == ExpressionCursor.CloseBracket(old(Zip()))
    {
      hide Shape, ToPath;
      var n := Inspect();
      if Current().None? {
        return if pending > 0 then UnexpectedToken else NoBracket;
      }
      fault := Climb(ForClose);
      if fault != NoFault { return; }
      n := Inspect();
      if n.brackets > 0 {
        ClimbKeepsPending(ForClose, old(Zip()));
        Touch(n.(brackets := n.brackets - 1));
        return NoFault;
      } else {
        return NoBracket;
      }
    }

    /** Change the counters of the slot's node. */
    method Touch(n: Node)
      requires Shape(At(), view) && Slot(At()).Some? && Zip().focus.Some?
      requires Slot(At()).value < |node| ==>
                 n == node[Slot(At()).value].(brackets := n.brackets, width := n.width, spaces := n.spaces)
      modifies this`node
      ensures Shape(At(), view)
      ensures Zip() == old(Zip()).(focus := Some(old(Zip()).focus.value.(brackets := n.brackets)))
      ensures Carried(At(), view) == old(Carried(At(), view)) - old(NodeWeight(node, Slot(At()))) + n.width + n.spaces
    {
      ghost var c0 := At();
      TouchShape(c0, view, n);
      TouchCarried(c0, view, n);
      node := node[Current().value := n];
      assert At() == c0.(node := c0.node[Slot(c0).value := n]);
    }

    // ---------------------------------------------------------- width and spaces

    /** count_token_width: on the slot's node, or deferred until there is one. */
    method CountToken(width: nat, spaces: nat)
      requires Valid()
      modifies this
      ensures Valid() && counted == old(counted) + width + spaces && Zip() == old(Zip())
    {
      hide Shape, ToPath;
      var n := Inspect();
      if Current().Some? {
        Touch(n.(width := n.width + width, spaces := n.spaces + spaces));
      } else {
        deferredWidth, deferredSpaces := deferredWidth + width, deferredSpaces + spaces;
      }
      counted := counted + width + spaces;
    }

    /** insert_spaces_only_node: the spaces at the end of a line get a node of their own. */
    method InsertSpacesOnly(spaces: nat) returns (fault: Fault)
      requires Valid()
      modifies this
      ensures Valid() && counted == old(counted) + spaces
      ensures Step(Zip(), fault) ==
              if spaces > 0 || old(Zip()).focus.None? then ExpressionCursor.InsertSimple(old(Zip()), Text,
                  OpUndefined, "")
              else Step(old(Zip()), NoFault)
    {
      hide Shape, ToPath;
      var n := Inspect();
      fault := NoFault;
      if spaces > 0 || Current().None? {
        fault := InsertSimple(Text, OpUndefined, "");
        CountToken(0, spaces);
      }
    }

    // ---------------------------------------------------------- tokens

    method Feed(t: Token) returns (fault: Fault)
      requires Valid()
      modifies this
      ensures counted == old(counted) && fault == ExpressionCursor.Feed(old(Zip()), t).fault
      ensures fault == NoFault ==> Valid() && Zip() == ExpressionCursor.Feed(old(Zip()), t).state
    {
      hide Shape, ToPath;
      match t
      case TOperand(kind, text) =>
        fault := InsertSimple(kind, OpUndefined, text);
      case TUnary(op) =>
        fault := InsertSimple(OperatorNode, op, "");
        var n := Inspect();
        if fault == NoFault { fault := ReadyFor(Op2); }
      case TBinary(op) =>
        fault := InsertOperator(op);
        var n := Inspect();
        if fault == NoFault { fault := ReadyFor(Op2); }
      case TOpen =>
        AddBracket();
        fault := NoFault;
      case TClose =>
        fault := CloseBracket();
    }

    method FeedAll(ts: seq<Token>) returns (fault: Fault)
      requires Valid()
      modifies this
      ensures counted == old(counted) && fault == Run(old(Zip()), ts).fault
      ensures fault == NoFault ==> Valid() && Zip() == Run(old(Zip()), ts).state
    {
      hide Shape, ToPath;
      fault := NoFault;
      for i := 0 to |ts|
        invariant Valid() && counted == old(counted) && fault == NoFault
        invariant Run(Zip(), ts[i..]) == Run(old(Zip()), ts)
      {
        assert ts[i..][0] == ts[i] && ts[i..][1..] == ts[i + 1..];
        fault := Feed(ts[i]);
        if fault != NoFault { return; }
      }
      assert ts[|ts|..] == [];
    }

    /** Main result on the linked nodes: an empty builder fed the printed form of `e`
        and returned to its root holds exactly `e`, with every bracket closed. */
    method ParsePrinted(ghost e: RoundTrip.Expr, ts: seq<Token>) returns (fault: Fault)
      requires Valid() && Zip() == State(None, Root, 0)
      requires RoundTrip.Spellable(e) && ts == RoundTrip.Print(e)
      modifies this
      ensures fault == NoFault && Valid() && counted == old(counted)
      ensures Zip() == State(Some(Cell(RoundTrip.ToTree(e), 0)), Root, 0)
    {
      hide Shape, ToPath;
      RoundTrip.PrintRuns(e, 0, Root);
      RoundTrip.ClimbOut(ToRoot, e, 0, Root);
      fault := FeedAll(ts);
      fault := Climb(ToRoot);
    }
  }
}
