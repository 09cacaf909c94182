/** Messages between GSL threads.

    Every thread context has a queue of messages.  A receive takes the first message, or waits and is
    answered by the next send.  The values of a message are stored through the references the receive
    was given; when a store is refused the receive is answered with an error and the message stays. */
module Mailbox {
  import opened Syntax
  import opened Values

  type Reference = string

  datatype Message = Message(sender: nat, values: seq<Value>)

  /** The references of a receive: the first for the sender, the others for the values. */
  type Arguments = seq<Option<Reference>>

  type Scope = map<Reference, Value>

  /** Which stores the receiver's scopes take, as they are at the time. */
  type Acceptor = (Scope, Reference, Value) -> bool

  /** A receive, with the receiver's scope when it is made. */
  datatype Ask = Ask(args: Arguments, scope: Scope)

  /** The answer to a receive, with the receiver's scope as it leaves it. */
  datatype Reply = Reply(to: Ask, message: Message, ok: bool, scope: Scope)

  // ---------------------------------------------------------------- storing one message

  /** What is to be stored, in order: every reference that was given takes its part of the message. */
  function Stores(m: Message, args: Arguments, i: nat): seq<(Reference, Value)>
    requires i <= |m.values| + 1
    decreases |m.values| + 1 - i
  {
    if i == |m.values| + 1 then []
    else
      var part := if i == 0 then Value(PointerType, None, 0.0, m.sender) else m.values[i - 1];
      if i < |args| && args[i].Some? then [(args[i].value, part)] + Stores(m, args, i + 1)
      else Stores(m, args, i + 1)
  }

  /** One store; an undefined value deletes the name. */
  function Stored(scope: Scope, x: Reference, v: Value): Scope {
    if v.vtype == UndefinedType then scope - {x} else scope[x := v]
  }

  /** Storing in order up to the first refusal. */
  function StoreAll(scope: Scope, w: seq<(Reference, Value)>, accepts: Acceptor): (Scope, bool)
    decreases |w|
  {
    if w == [] then (scope, true)
    else if !accepts(scope, w[0].0, w[0].1) then (scope, false)
    else StoreAll(Stored(scope, w[0].0, w[0].1), w[1..], accepts)
  }

  /** The scope once all of `w` has been stored. */
  function With(scope: Scope, w: seq<(Reference, Value)>): Scope
    decreases |w|
  {
    if w == [] then scope else With(Stored(scope, w[0].0, w[0].1), w[1..])
  }

  /** The message is accepted if and only if every store is, in the scope the stores before it have made; and
      then all of it has been stored. */
  lemma {:induction false} AcceptedIff(scope: Scope, w: seq<(Reference, Value)>, accepts: Acceptor)
    ensures StoreAll(scope, w, accepts).1 <==>
            forall i | 0 <= i < |w| :: accepts(With(scope, w[..i]), w[i].0, w[i].1)
    ensures StoreAll(scope, w, accepts).1 ==> StoreAll(scope, w, accepts).0 == With(scope, w)
    decreases |w|
  {
    if w != [] {
      var next := Stored(scope, w[0].0, w[0].1);
      AcceptedIff(next, w[1..], accepts);
      assert With(scope, w[..0]) == scope;
      forall i | 1 <= i < |w| ensures With(scope, w[..i]) == With(next, w[1..][..i - 1]) && w[1..][i - 1] == w[i] {
        assert w[..i][1..] == w[1..][..i - 1];
      }
    }
  }

  /** A name no part goes to keeps what it had, whether or not the message is accepted. */
  lemma {:induction false} OthersKeep(scope: Scope, w: seq<(Reference, Value)>, accepts: Acceptor, x: Reference)
    requires forall i | 0 <= i < |w| :: w[i].0 != x
    ensures var after := StoreAll(scope, w, accepts).0;
            (x in after <==> x in scope) && (x in after ==> after[x] == scope[x])
    decreases |w|
  {
    if w != [] && accepts(scope, w[0].0, w[0].1) {
      OthersKeep(Stored(scope, w[0].0, w[0].1), w[1..], accepts, x);
    }
  }

  /** After an accepted message every name holds the last part that went to it, or nothing if that was
      undefined. */
  lemma {:induction false} LastPartHolds(scope: Scope, w: seq<(Reference, Value)>, accepts: Acceptor, i: nat)
    requires StoreAll(scope, w, accepts).1 && i < |w| && forall j | i < j < |w| :: w[j].0 != w[i].0
    ensures var after := StoreAll(scope, w, accepts).0;
            if w[i].1.vtype == UndefinedType then w[i].0 !in after else w[i].0 in after && after[w[i].0] == w[i].1
    decreases |w|
  {
    var next := Stored(scope, w[0].0, w[0].1);
    if i > 0 {
      LastPartHolds(next, w[1..], accepts, i - 1);
    } else {
      OthersKeep(next, w[1..], accepts, w[0].0);
    }
  }

  // ---------------------------------------------------------------- which part goes where

  /** The references given among the first `i`. */
  function Given(args: Arguments, i: nat): nat
    requires i <= |args|
  {
    if i == 0 then 0 else Given(args, i - 1) + if args[i - 1].Some? then 1 else 0
  }

  lemma {:induction false} GivenMonotone(args: Arguments, i: nat, j: nat)
    requires i <= j <= |args|
    ensures Given(args, i) <= Given(args, j)
    decreases j
  {
    if i < j { GivenMonotone(args, i, j - 1); }
  }

  /** The stores from `from` on: one for every reference given that has a part, in the order of the references; the
      first reference takes the sender, every other the value with its number. */
  lemma {:induction false} StoresAre(m: Message, args: Arguments, from: nat)
    requires from <= |m.values| + 1 && from <= |args|
    ensures var w := Stores(m, args, from);
            var last := if |args| <= |m.values| then |args| else |m.values| + 1;
            && from <= last && |w| == Given(args, last) - Given(args, from)
            && forall i | from <= i < last && args[i].Some? ::
                 && Given(args, from) <= Given(args, i) < Given(args, last)
                 && w[Given(args, i) - Given(args, from)].0 == args[i].value
                 && var v := w[Given(args, i) - Given(args, from)].1;
                    if i == 0 then v.vtype == PointerType && v.item == m.sender && v.s == None
                    else v == m.values[i - 1]
    decreases |m.values| + 1 - from
  {
    var last := if |args| <= |m.values| then |args| else |m.values| + 1;
    if from == |args| {
      NothingMore(m, args, from);
    } else if from < last {
      StoresAre(m, args, from + 1);
      forall i | from <= i < last && args[i].Some?
        ensures Given(args, from) <= Given(args, i) < Given(args, last)
      {
        GivenMonotone(args, from, i);
        GivenMonotone(args, i + 1, last);
      }
    }
  }

  lemma {:induction false} NothingMore(m: Message, args: Arguments, from: nat)
    requires |args| <= from <= |m.values| + 1
    ensures Stores(m, args, from) == []
    decreases |m.values| + 1 - from
  {
    if from <= |m.values| { NothingMore(m, args, from + 1); }
  }

  /** Where a store comes from. */
  lemma {:induction false} StoreIsGiven(m: Message, args: Arguments, from: nat, k: nat) returns (i: nat)
    requires from <= |m.values| + 1 && k < |Stores(m, args, from)|
    ensures from <= i < |args| && i <= |m.values| && args[i].Some?
    ensures Stores(m, args, from)[k].0 == args[i].value && k + Given(args, from) == Given(args, i)
    decreases |m.values| + 1 - from
  {
    if from >= |args| {
      NothingMore(m, args, from);
      assert false;
    } else if args[from].Some? && k == 0 {
      i := from;
    } else {
      i := StoreIsGiven(m, args, from + 1, if args[from].Some? then k - 1 else k);
    }
  }

  /** After an accepted message the last reference given with a name holds its part: the first reference the sender,
      every other the value with its number, or nothing if that is undefined. */
  lemma {:induction false} PartArrives(m: Message, ask: Ask, accepts: Acceptor, i: nat)
    requires Answer(m, ask, accepts).ok
    requires i < |ask.args| && i <= |m.values| && ask.args[i].Some?
    requires forall j | i < j < |ask.args| && j <= |m.values| :: ask.args[j] != ask.args[i]
    ensures var after, x := Answer(m, ask, accepts).scope, ask.args[i].value;
            if i == 0 then x in after && after[x].vtype == PointerType && after[x].item == m.sender
            else if m.values[i - 1].vtype == UndefinedType then x !in after
            else x in after && after[x] == m.values[i - 1]
  {
    var w := Stores(m, ask.args, 0);
    StoresAre(m, ask.args, 0);
    var k := Given(ask.args, i);
    forall j | k < j < |w| ensures w[j].0 != w[k].0 {
      var later := StoreIsGiven(m, ask.args, 0, j);
      if later <= i { GivenMonotone(ask.args, later, i); }
    }
    LastPartHolds(ask.scope, w, accepts, k);
  }

  /** A name that was not given keeps what it had. */
  lemma {:induction false} OtherNamesStay(m: Message, ask: Ask, accepts: Acceptor, x: Reference)
    requires Some(x) !in ask.args
    ensures var after := Answer(m, ask, accepts).scope;
            (x in after <==> x in ask.scope) && (x in after ==> after[x] == ask.scope[x])
  {
    var w := Stores(m, ask.args, 0);
    forall k | 0 <= k < |w| ensures w[k].0 != x {
      var i := StoreIsGiven(m, ask.args, 0, k);
    }
    OthersKeep(ask.scope, w, accepts, x);
  }

  // ---------------------------------------------------------------- what sends and receives amount to

  datatype Outcome = Outcome(replies: seq<Reply>, queue: seq<Message>, pending: seq<Ask>)

  /** The answer to a receive when `m` is the first message. */
  function Answer(m: Message, ask: Ask, accepts: Acceptor): Reply {
    var (after, ok) := StoreAll(ask.scope, Stores(m, ask.args, 0), accepts);
    Reply(ask, m, ok, after)
  }

  /** All messages sent and all receives made, whatever their interleaving: the receives are answered
      one after the other with the first message that has not been accepted. */
  function Settle(sent: seq<Message>, asked: seq<Ask>, accepts: Acceptor): Outcome
    decreases |asked|
  {
    if sent == [] || asked == [] then Outcome([], sent, asked)
    else
      var reply := Answer(sent[0], asked[0], accepts);
      Preceded([reply], Settle(if reply.ok then sent[1..] else sent, asked[1..], accepts))
  }

  function Preceded(replies: seq<Reply>, o: Outcome): Outcome {
    o.(replies := replies + o.replies)
  }

  /** The messages answered with ok. */
  function Acknowledged(replies: seq<Reply>): seq<Message> {
    if replies == [] then []
    else if replies[0].ok then [replies[0].message] + Acknowledged(replies[1..])
    else Acknowledged(replies[1..])
  }

  lemma NoneAcknowledged()
    ensures Acknowledged([]) == []
  {
  }

  lemma AcknowledgedFirst(reply: Reply, replies: seq<Reply>)
    ensures Acknowledged([reply] + replies) == (if reply.ok then [reply.message] else []) + Acknowledged(replies)
  {
    assert ([reply] + replies)[1..] == replies;
  }

  /** Nobody waits while there is a message, and the acknowledged messages are the first ones sent, in
      order; the others are still queued. */
  lemma {:induction false} AcknowledgedArePrefix(sent: seq<Message>, asked: seq<Ask>, accepts: Acceptor)
    ensures var o := Settle(sent, asked, accepts);
            && (o.pending != [] ==> o.queue == [])
            && Acknowledged(o.replies) + o.queue == sent
    decreases |asked|
  {
    hide Answer, Acknowledged;
    NoneAcknowledged();
    if sent != [] && asked != [] {
      var reply := Answer(sent[0], asked[0], accepts);
      AnswerConcerns(sent[0], asked[0], accepts);
      var left := if reply.ok then sent[1..] else sent;
      AcknowledgedArePrefix(left, asked[1..], accepts);
      var rest := Settle(left, asked[1..], accepts);
      AcknowledgedFirst(reply, rest.replies);
      Regroup(if reply.ok then [sent[0]] else [], Acknowledged(rest.replies), rest.queue);
    }
  }

  lemma Regroup(a: seq<Message>, b: seq<Message>, c: seq<Message>)
    ensures a + b + c == a + (b + c)
  {
  }

  lemma AnswerConcerns(m: Message, ask: Ask, accepts: Acceptor)
    ensures Answer(m, ask, accepts).to == ask && Answer(m, ask, accepts).message == m
  {
  }

  /** The receives are answered in order, once each; those not answered are the last ones made. */
  lemma {:induction false} AnsweredInOrder(sent: seq<Message>, asked: seq<Ask>, accepts: Acceptor)
    ensures var o := Settle(sent, asked, accepts);
            && |o.replies| + |o.pending| == |asked| && o.pending == asked[|o.replies|..]
            && (forall i | 0 <= i < |o.replies| :: o.replies[i].to == asked[i])
    decreases |asked|
  {
    hide Answer;
    if sent != [] && asked != [] {
      AnswerConcerns(sent[0], asked[0], accepts);
      AnsweredInOrder(if Answer(sent[0], asked[0], accepts).ok then sent[1..] else sent, asked[1..], accepts);
    }
  }

  /** Every answer is the answer to the first message not acknowledged before it. */
  lemma {:induction false} AnswersConcernFirst(sent: seq<Message>, asked: seq<Ask>, accepts: Acceptor, i: nat)
    requires i < |Settle(sent, asked, accepts).replies|
    ensures var o := Settle(sent, asked, accepts);
            var n := |Acknowledged(o.replies[..i])|;
            n < |sent| && i < |asked| && o.replies[i] == Answer(sent[n], asked[i], accepts)
    decreases i
  {
    hide Answer, Acknowledged;
    NoneAcknowledged();
    var reply := Answer(sent[0], asked[0], accepts);
    if i == 0 {
      assert Settle(sent, asked, accepts).replies[..0] == [];
    } else {
      var left := if reply.ok then sent[1..] else sent;
      AnswersConcernFirst(left, asked[1..], accepts, i - 1);
      var rest := Settle(left, asked[1..], accepts).replies;
      AnswerConcerns(sent[0], asked[0], accepts);
      assert ([reply] + rest)[..i] == [reply] + rest[..i - 1];
      AcknowledgedFirst(reply, rest[..i - 1]);
    }
  }

  /** Settling what came first and then the rest is settling everything. */
  lemma {:induction false} SettleInStages(
    sent: seq<Message>, asked: seq<Ask>, moreSent: seq<Message>, moreAsked: seq<Ask>, accepts: Acceptor)
    ensures var o := Settle(sent, asked, accepts);
            Settle(sent + moreSent, asked + moreAsked, accepts)
            == Preceded(o.replies, Settle(o.queue + moreSent, o.pending + moreAsked, accepts))
    decreases |asked|
  {
    hide Answer;
    if sent == [] || asked == [] {
      PrecededByNothing(Settle(sent + moreSent, asked + moreAsked, accepts));
    } else {
      var reply := Answer(sent[0], asked[0], accepts);
      var left := if reply.ok then sent[1..] else sent;
      var o := Settle(left, asked[1..], accepts);
      SettleInStages(left, asked[1..], moreSent, moreAsked, accepts);
      SettleFirst(sent, asked, moreSent, moreAsked, accepts);
      PrecededTwice([reply], o.replies, Settle(o.queue + moreSent, o.pending + moreAsked, accepts));
    }
  }

  lemma PrecededByNothing(o: Outcome)
    ensures Preceded([], o) == o
  {
  }

  lemma PrecededTwice(a: seq<Reply>, b: seq<Reply>, o: Outcome)
    ensures Preceded(a, Preceded(b, o)) == Preceded(a + b, o)
  {
    assert a + (b + o.replies) == (a + b) + o.replies;
  }

  lemma SettleFirst(sent: seq<Message>, asked: seq<Ask>, moreSent: seq<Message>, moreAsked: seq<Ask>, accepts: Acceptor)
    requires sent != [] && asked != []
    ensures var reply := Answer(sent[0], asked[0], accepts);
            Settle(sent + moreSent, asked + moreAsked, accepts)
            == Preceded([reply],
                Settle((if reply.ok then sent[1..] else sent) + moreSent, asked[1..] + moreAsked, accepts))
  {
    hide Answer;
    assert (sent + moreSent)[1..] == sent[1..] + moreSent && (asked + moreAsked)[1..] == asked[1..] + moreAsked;
  }

  /** What one receive of the first message does. */
  function Delivered(o: Outcome, ask: Ask, accepts: Acceptor): Outcome
    requires o.queue != []
  {
    var reply := Answer(o.queue[0], ask, accepts);
    Outcome(o.replies + [reply], if reply.ok then o.queue[1..] else o.queue, [])
  }

  lemma SettleOne(m: Message, queue: seq<Message>, ask: Ask, accepts: Acceptor)
    ensures Settle([m] + queue, [ask], accepts) == Delivered(Outcome([], [m] + queue, []), ask, accepts)
  {
    hide Answer;
    assert [ask][1..] == [] && ([m] + queue)[1..] == queue;
  }

  lemma SendSettles(sent: seq<Message>, asked: seq<Ask>, accepts: Acceptor, m: Message)
    requires |Settle(sent, asked, accepts).pending| <= 1
    ensures var o := Settle(sent, asked, accepts);
            var added := o.(queue := o.queue + [m]);
            Settle(sent + [m], asked, accepts)
            == if o.pending == [] then added else Delivered(added, o.pending[0], accepts)
  {
    hide Answer;
    var o := Settle(sent, asked, accepts);
    SettleInStages(sent, asked, [m], [], accepts);
    AcknowledgedArePrefix(sent, asked, accepts);
    assert asked + [] == asked && o.pending + [] == o.pending;
    if o.pending == [] {
      assert o.replies + [] == o.replies;
    } else {
      assert o.queue + [m] == [m] + [] && o.pending == [o.pending[0]];
      SettleOne(m, [], o.pending[0], accepts);
    }
  }

  lemma ReceiveSettles(sent: seq<Message>, asked: seq<Ask>, accepts: Acceptor, ask: Ask)
    requires Settle(sent, asked, accepts).pending == []
    ensures var o := Settle(sent, asked, accepts);
            Settle(sent, asked + [ask], accepts)
            == if o.queue == [] then o.(pending := [ask]) else Delivered(o, ask, accepts)
  {
    hide Answer;
    var o := Settle(sent, asked, accepts);
    SettleInStages(sent, asked, [], [ask], accepts);
    assert sent + [] == sent && o.queue + [] == o.queue && o.pending + [ask] == [ask];
    if o.queue == [] {
      assert o.replies + [] == o.replies;
    } else {
      assert o.queue == [o.queue[0]] + o.queue[1..];
      SettleOne(o.queue[0], o.queue[1..], ask, accepts);
    }
  }

  // ---------------------------------------------------------------- the context of a thread

  class Context {
    const accepts: Acceptor
    var messages: seq<Message>
    var waiting: bool
    var saved: Arguments
    var scope: Scope
    var replies: seq<Reply>
    ghost var sent: seq<Message>
    ghost var asked: seq<Ask>

    /** The context is exactly what its history of sends and receives amounts to; a thread that waits does
        not change its scope. */
    ghost predicate Valid()
      reads this
    {
      Settle(sent, asked, accepts) == Outcome(replies, messages, if waiting then [Ask(saved, scope)] else [])
    }

    constructor (accepts: Acceptor, scope: Scope)
      ensures Valid() && sent == [] && asked == [] && this.scope == scope && this.accepts == accepts && !waiting
    {
      this.accepts, this.scope := accepts, scope;
      messages, waiting, saved, replies := [], false, [], [];
      sent, asked := [], [];
    }

    /** The receiver runs on and changes its scope as it likes. */
    method Continue(scope: Scope)
      requires Valid() && !waiting
      modifies this`scope
      ensures Valid() && this.scope == scope
    {
      this.scope := scope;
    }

    /** message_receive */
    method Deliver(message: Message, args: Arguments) returns (ok: bool)
      requires messages != [] && messages[0] == message
      modifies this
      ensures var reply := Answer(message, Ask(args, old(scope)), accepts);
              && ok == reply.ok && scope == reply.scope
              && replies == old(replies) + [reply]
              && messages == if ok then old(messages)[1..] else old(messages)
      ensures unchanged(this`waiting, this`saved, this`sent, this`asked)
    {
      var ask := Ask(args, scope);
      if |args| > 0 && args[0].Some? {
        var sender := Value(PointerType, None, 0.0, message.sender);
        if !accepts(scope, args[0].value, sender) {
          replies := replies + [Reply(ask, message, false, scope)];
          return false;
        }
        scope := Stored(scope, args[0].value, sender);
      }
      for i := 0 to |message.values|
        invariant StoreAll(scope, Stores(message, args, i + 1), accepts)
               == StoreAll(ask.scope, Stores(message, args, 0), accepts)
        invariant unchanged(this`messages, this`replies, this`waiting, this`saved, this`sent, this`asked)
      {
        if i + 1 < |args| && args[i + 1].Some? {
          if !accepts(scope, args[i + 1].value, message.values[i]) {
            replies := replies + [Reply(ask, message, false, scope)];
            return false;
          }
          scope := Stored(scope, args[i + 1].value, message.values[i]);
        }
      }
      messages := messages[1..];
      replies := replies + [Reply(ask, message, true, scope)];
      return true;
    }

    /** message_create */
    method Send(message: Message)
      requires Valid()
      modifies this
      ensures Valid()
      ensures sent == old(sent) + [message] && asked == old(asked)
    {
      SendSettles(sent, asked, accepts, message);
      AcknowledgedArePrefix(sent, asked, accepts);
      sent := sent + [message];
      messages := messages + [message];
      if waiting {
        waiting := false;
        var ok := Deliver(message, saved);
      }
    }

    /** thread_receive; a thread that waits cannot receive again. */
    method Receive(args: Arguments)
      requires Valid() && !waiting
      modifies this
      ensures Valid()
      ensures asked == old(asked) + [Ask(args, old(scope))] && sent == old(sent)
    {
      ReceiveSettles(sent, asked, accepts, Ask(args, scope));
      asked := asked + [Ask(args, scope)];
      if messages == [] {
        waiting := true;
        saved := args;
      } else {
        var ok := Deliver(messages[0], args);
      }
    }
  }
}
