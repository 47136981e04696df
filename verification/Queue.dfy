/**
 The bounded drop-to-keyframe send queue of one viewer. Video and control messages share one
 deque. A video item carries its position in push order as a label; the code stores only the
 message. Every queue operation holds the queue's mutex, so a run is a sequence of operations.
 */
module Queue {
  import opened Words

  datatype Item =
    | Video(msg: Bytes, keyframe: bool, index: nat)
    | Control(msg: Bytes)

  /** `pushes` counts the video messages offered so far; `delivered` is what `pop` has returned. */
  datatype State = State(
    items: seq<Item>, closed: bool, dropping: bool, cap: nat, pushes: nat, delivered: seq<Item>)

  datatype Action = Push(msg: Bytes, keyframe: bool) | PushControl(msg: Bytes) | Pop | Close

  function Init(cap: nat): State
  {
    State([], false, false, cap, 0, [])
  }

  /** `push`: closed drops; dropping admits only a keyframe; otherwise enqueue, and shed the whole
      backlog when that exceeds the capacity. */
  function AfterPush(q: State, msg: Bytes, keyframe: bool): State
  {
    var q1 := q.(pushes := q.pushes + 1);
    var v := Video(msg, keyframe, q.pushes);
    if q.closed then q1
    else if q.dropping then
      if keyframe then q1.(dropping := false, items := q.items + [v]) else q1
    else if |q.items| + 1 > q.cap then q1.(items := [], dropping := true)
    else q1.(items := q.items + [v])
  }

  function AfterControl(q: State, msg: Bytes): State
  {
    if q.closed then q else q.(items := q.items + [Control(msg)])
  }

  function AfterPop(q: State): State
  {
    if q.items == [] then q else q.(items := q.items[1..], delivered := q.delivered + [q.items[0]])
  }

  function AfterClose(q: State): State
  {
    q.(closed := true, items := [])
  }

  function Step(q: State, a: Action): State
  {
    match a
    case Push(msg, keyframe) => AfterPush(q, msg, keyframe)
    case PushControl(msg) => AfterControl(q, msg)
    case Pop => AfterPop(q)
    case Close => AfterClose(q)
  }

  function Run(q: State, actions: seq<Action>): State
  {
    if actions == [] then q else Step(Run(q, actions[..|actions| - 1]), actions[|actions| - 1])
  }

  // ---- The video lane ----

  /** The video items, in order. */
  function Videos(items: seq<Item>): (vs: seq<Item>)
    ensures |vs| <= |items|
    ensures forall v :: v in vs ==> v.Video? && v in items
  {
    if items == [] then []
    else
      var init, last := items[..|items| - 1], items[|items| - 1];
      if last.Video? then Videos(init) + [last] else Videos(init)
  }

  lemma {:induction false} VideosConcat(xs: seq<Item>, ys: seq<Item>)
    ensures Videos(xs + ys) == Videos(xs) + Videos(ys)
    decreases |ys|
  {
    if ys == [] {
      assert xs + ys == xs;
    } else {
      var init, last := ys[..|ys| - 1], ys[|ys| - 1];
      assert (xs + ys)[..|xs + ys| - 1] == xs + init;
      VideosConcat(xs, init);
      assert Videos(xs) + (Videos(init) + [last]) == (Videos(xs) + Videos(init)) + [last];
    }
  }

  /** No gap in push order that a keyframe does not bridge: every video message that is not a keyframe
      directly follows its predecessor in push order, or is the very first one pushed. What this means
      for the broadcast stream depends on how the queue was primed (`Hub.JoinSeam`). */
  predicate Contiguous(vs: seq<Item>)
  {
    forall k :: 0 <= k < |vs| ==> Follows(vs, k)
  }

  predicate Follows(vs: seq<Item>, k: nat)
    requires k < |vs|
  {
    vs[k].Video? &&
    (vs[k].keyframe ||
     (if k == 0 then vs[k].index == 0 else vs[k - 1].Video? && vs[k].index == vs[k - 1].index + 1))
  }

  /** Everything delivered or still queued, video only. */
  function Chain(q: State): seq<Item>
  {
    Videos(q.delivered) + Videos(q.items)
  }

  ghost predicate Inv(q: State)
  {
    && Contiguous(Chain(q))
    && |Videos(q.items)| <= q.cap
    && (q.dropping ==> Videos(q.items) == [])
    && (q.closed ==> q.items == [])
    && (!q.closed && !q.dropping ==> EndsAt(Chain(q), q.pushes))
  }

  /** The last of `vs` is the latest of `pushes` pushes. */
  predicate EndsAt(vs: seq<Item>, pushes: nat)
  {
    if vs == [] then pushes == 0
    else vs[|vs| - 1].Video? && vs[|vs| - 1].index == pushes - 1
  }

  lemma ContiguousPrefix(xs: seq<Item>, ys: seq<Item>)
    requires Contiguous(xs + ys)
    ensures Contiguous(xs)
  {
    forall k | 0 <= k < |xs| ensures Follows(xs, k) {
      assert Follows(xs + ys, k);
      assert (xs + ys)[k] == xs[k] && (k > 0 ==> (xs + ys)[k - 1] == xs[k - 1]);
    }
  }

  lemma ContiguousSnoc(xs: seq<Item>, v: Item)
    requires Contiguous(xs) && v.Video?
    requires v.keyframe || EndsAt(xs, v.index)
    ensures Contiguous(xs + [v])
  {
    forall k | 0 <= k < |xs + [v]| ensures Follows(xs + [v], k) {
      if k < |xs| {
        assert Follows(xs, k);
      }
    }
  }

  lemma VideosSnoc(items: seq<Item>, x: Item)
    ensures Videos(items + [x]) == if x.Video? then Videos(items) + [x] else Videos(items)
  {
    assert (items + [x])[..|items|] == items;
  }

  lemma EmptyRight(a: seq<Item>)
    ensures a + [] == a && Videos([]) == []
  {
  }

  /** The chain after a push, case by case. */
  lemma ChainCases(q: State, msg: Bytes, keyframe: bool)
    ensures var q', v := AfterPush(q, msg, keyframe), Video(msg, keyframe, q.pushes);
            && Videos(q.items + [v]) == Videos(q.items) + [v]
            && (q.closed ==> q'.items == q.items && Chain(q') == Chain(q))
            && (!q.closed && q.dropping && !keyframe ==> q'.items == q.items && Chain(q') == Chain(q))
            && (!q.closed && q.dropping && keyframe ==> q'.items == q.items + [v] && Chain(q') == Chain(q) + [v])
            && (!q.closed && !q.dropping && |q.items| < q.cap ==>
                  q'.items == q.items + [v] && Chain(q') == Chain(q) + [v])
            && (!q.closed && !q.dropping && |q.items| >= q.cap ==>
                  q'.items == [] && Chain(q') == Videos(q.delivered) && Videos(q'.items) == [])
  {
    var v := Video(msg, keyframe, q.pushes);
    VideosSnoc(q.items, v);
    Associates(Videos(q.delivered), Videos(q.items), [v]);
    EmptyRight(Videos(q.delivered));
    hide Videos;
  }

  lemma PushKeepsInv(q: State, msg: Bytes, keyframe: bool)
    requires Inv(q) && q.cap >= 1
    ensures Inv(AfterPush(q, msg, keyframe))
  {
    ChainCases(q, msg, keyframe);
    ContiguousPrefix(Videos(q.delivered), Videos(q.items));
    hide Videos, Contiguous, Chain;
    if !q.closed && (keyframe || !q.dropping) {
      ContiguousSnoc(Chain(q), Video(msg, keyframe, q.pushes));
    }
    ChainIs(q);
  }

  lemma ChainIs(q: State)
    ensures Chain(q) == Videos(q.delivered) + Videos(q.items)
  {
  }

  /** A push extends the chain by the new frame, leaves it alone, or cuts it back to what has been
      delivered. */
  lemma ChainAfterPush(q: State, msg: Bytes, keyframe: bool)
    ensures var after := Chain(AfterPush(q, msg, keyframe));
            || after == Chain(q) + [Video(msg, keyframe, q.pushes)]
            || after == Chain(q)
            || after == Videos(q.delivered)
  {
    var v := Video(msg, keyframe, q.pushes);
    VideosSnoc(q.items, v);
    Associates(Videos(q.delivered), Videos(q.items), [v]);
    EmptyRight(Videos(q.delivered));
    hide Videos;
  }

  lemma ControlKeepsInv(q: State, msg: Bytes)
    requires Inv(q)
    ensures Inv(AfterControl(q, msg)) && Chain(AfterControl(q, msg)) == Chain(q)
  {
    VideosSnoc(q.items, Control(msg));
    hide Videos, Contiguous;
  }

  /** Moving the head of `items` to the end of `delivered` leaves the chain as it is. */
  lemma PopKeepsChain(delivered: seq<Item>, items: seq<Item>)
    requires items != []
    ensures Videos(delivered + [items[0]]) + Videos(items[1..]) == Videos(delivered) + Videos(items)
    ensures |Videos(items[1..])| <= |Videos(items)|
  {
    var x, rest := items[0], items[1..];
    assert items == [x] + rest;
    VideosConcat([x], rest);
    VideosConcat(delivered, [x]);
    Associates(Videos(delivered), Videos([x]), Videos(rest));
    hide Videos;
  }

  lemma PopKeepsInv(q: State)
    requires Inv(q)
    ensures Inv(AfterPop(q)) && Chain(AfterPop(q)) == Chain(q)
  {
    if q.items != [] {
      PopKeepsChain(q.delivered, q.items);
    }
    hide Videos, Contiguous;
  }

  lemma CloseKeepsInv(q: State)
    requires Inv(q)
    ensures Inv(AfterClose(q))
  {
    ContiguousPrefix(Videos(q.delivered), Videos(q.items));
    EmptyRight(Videos(q.delivered));
    hide Videos, Contiguous;
  }

  lemma {:induction false} RunKeepsInv(cap: nat, actions: seq<Action>)
    requires cap >= 1
    ensures Inv(Run(Init(cap), actions)) && Run(Init(cap), actions).cap == cap
  {
    if actions == [] {
      assert Videos([]) == [];
    } else {
      var q, a := Run(Init(cap), actions[..|actions| - 1]), actions[|actions| - 1];
      RunKeepsInv(cap, actions[..|actions| - 1]);
      match a
      case Push(msg, keyframe) => PushKeepsInv(q, msg, keyframe);
      case PushControl(msg) => ControlKeepsInv(q, msg);
      case Pop => PopKeepsInv(q);
      case Close => CloseKeepsInv(q);
      hide Inv;
    }
  }

  /** In every interleaving of push, push_control, pop and close: the delivered video is contiguous,
      queued video never exceeds the capacity, and a queue that is dropping holds no video. */
  lemma DeliveredIsContiguous(cap: nat, actions: seq<Action>)
    requires cap >= 1
    ensures var q := Run(Init(cap), actions);
            && Contiguous(Videos(q.delivered))
            && |Videos(q.items)| <= cap
            && (q.dropping ==> Videos(q.items) == [])
  {
    RunKeepsInv(cap, actions);
    var q := Run(Init(cap), actions);
    ContiguousPrefix(Videos(q.delivered), Videos(q.items));
    hide Videos, Contiguous, Run;
  }

  // ---- When a queue sheds, resumes and closes ----

  /** Everything delivered, then everything queued. */
  function All(q: State): seq<Item>
  {
    q.delivered + q.items
  }

  /** Action `i` pushes video into a full queue that is not dropping. */
  predicate OverflowsAt(cap: nat, actions: seq<Action>, i: nat)
  {
    && i < |actions| && actions[i].Push?
    && var q := Run(Init(cap), actions[..i]);
       !q.dropping && |q.items| >= cap
  }

  predicate KeyframeAfter(actions: seq<Action>, i: nat)
  {
    exists j :: i < j < |actions| && IsKeyframe(actions[j])
  }

  predicate IsKeyframe(a: Action)
  {
    a.Push? && a.keyframe
  }

  lemma RunUnfolds(q: State, actions: seq<Action>)
    requires actions != []
    ensures Run(q, actions) == Step(Run(q, actions[..|actions| - 1]), actions[|actions| - 1])
    ensures actions == actions[..|actions| - 1] + [actions[|actions| - 1]]
  {
    hide Step;
  }

  lemma StepCloses(q: State, a: Action)
    requires q.closed ==> q.items == []
    ensures Step(q, a).closed <==> q.closed || a == Close
    ensures Step(q, a).closed ==> Step(q, a).items == []
    ensures Step(q, a).cap == q.cap
  {
  }

  /** A queue is closed exactly once `close` has been called, and is then empty. */
  lemma {:induction false} ClosedIff(cap: nat, actions: seq<Action>)
    ensures Run(Init(cap), actions).closed <==> Close in actions
    ensures Run(Init(cap), actions).closed ==> Run(Init(cap), actions).items == []
    ensures Run(Init(cap), actions).cap == cap
  {
    if actions != [] {
      var init, a := actions[..|actions| - 1], actions[|actions| - 1];
      ClosedIff(cap, init);
      RunUnfolds(Init(cap), actions);
      hide Run, Step;
      StepCloses(Run(Init(cap), init), a);
    }
  }

  /** Over all runs of an open queue: it is dropping exactly when some push overflowed it and no
      keyframe has been pushed since. */
  lemma {:induction false} DroppingIff(cap: nat, actions: seq<Action>)
    requires Close !in actions
    ensures Run(Init(cap), actions).dropping <==>
            exists i: nat :: OverflowsAt(cap, actions, i) && !KeyframeAfter(actions, i)
  {
    if actions != [] {
      var init, a := actions[..|actions| - 1], actions[|actions| - 1];
      assert actions == init + [a];
      ClosedIff(cap, init);
      DroppingIff(cap, init);
      hide Run;
      forall i: nat | i < |init|
        ensures OverflowsAt(cap, actions, i) <==> OverflowsAt(cap, init, i)
        ensures KeyframeAfter(actions, i) <==> KeyframeAfter(init, i) || IsKeyframe(a)
      {
        EarlierAction(cap, init, a, i);
      }
      LastAction(cap, init, a);
    }
  }

  lemma EarlierAction(cap: nat, init: seq<Action>, a: Action, i: nat)
    requires i < |init|
    ensures OverflowsAt(cap, init + [a], i) <==> OverflowsAt(cap, init, i)
    ensures KeyframeAfter(init + [a], i) <==> KeyframeAfter(init, i) || IsKeyframe(a)
  {
    hide Run;
    assert (init + [a])[..i] == init[..i];
    if IsKeyframe(a) {
      assert IsKeyframe((init + [a])[|init|]);
    }
    if j :| i < j < |init| && IsKeyframe(init[j]) {
      assert IsKeyframe((init + [a])[j]);
    }
  }

  /** Whether the last action itself overflows, and what that does to the flag. */
  lemma LastAction(cap: nat, init: seq<Action>, a: Action)
    requires Close !in init + [a] && Run(Init(cap), init).cap == cap && !Run(Init(cap), init).closed
    ensures var q, q' := Run(Init(cap), init), Run(Init(cap), init + [a]);
            && !KeyframeAfter(init + [a], |init|)
            && (OverflowsAt(cap, init + [a], |init|) <==> q'.dropping && !q.dropping)
            && (q'.dropping <==> OverflowsAt(cap, init + [a], |init|) || (q.dropping && !IsKeyframe(a)))
  {
    assert (init + [a])[..|init|] == init;
    assert a in init + [a];
  }

  /** What a push does to an open queue, over all runs. A keyframe that finds it dropping is the last
      item queued and ends the dropping, any other frame is then lost; otherwise the frame is queued
      if there is room, and with the whole backlog lost if not. Nothing delivered changes. */
  lemma PushOutcome(cap: nat, actions: seq<Action>, msg: Bytes, keyframe: bool)
    requires Close !in actions
    ensures var q, q' := Run(Init(cap), actions), Run(Init(cap), actions + [Push(msg, keyframe)]);
            var v := Video(msg, keyframe, q.pushes);
            && q'.delivered == q.delivered
            && (q.dropping && keyframe ==> All(q') == All(q) + [v] && !q'.dropping)
            && (q.dropping && !keyframe ==> All(q') == All(q) && q'.dropping)
            && (!q.dropping && |q.items| < cap ==> All(q') == All(q) + [v] && !q'.dropping)
            && (!q.dropping && |q.items| >= cap ==> All(q') == q.delivered && q'.dropping)
  {
    ClosedIff(cap, actions);
    assert (actions + [Push(msg, keyframe)])[..|actions|] == actions;
    hide Run;
  }

  /** The other operations lose nothing and reorder nothing: a control message goes to the end of an
      open queue, a pop moves one item from the head of the queue to the end of what is delivered, and
      a close loses what is queued only. */
  lemma OtherOutcomes(q: State, msg: Bytes)
    ensures All(AfterControl(q, msg)) == All(q) + (if q.closed then [] else [Control(msg)])
    ensures All(AfterPop(q)) == All(q)
    ensures |AfterPop(q).delivered| == |q.delivered| + (if q.items == [] then 0 else 1)
    ensures All(AfterClose(q)) == q.delivered && AfterClose(q).closed
    ensures AfterControl(q, msg).delivered == q.delivered
    ensures AfterControl(q, msg).dropping == AfterPop(q).dropping == q.dropping
  {
  }

  // ---- The control lane is not lossless ----

  /** When a video push discards queued control messages: exactly when it overflows the deque,
      which counts them. */
  lemma ControlSurvivesIff(q: State, msg: Bytes, keyframe: bool, c: Item)
    requires c.Control? && c in q.items
    ensures c in AfterPush(q, msg, keyframe).items <==> q.closed || q.dropping || |q.items| + 1 <= q.cap
  {
  }

  /** Control messages alone can make the next video frame shed the backlog. */
  lemma ControlCausesShed(cap: nat, msg: Bytes)
    requires cap >= 1
    ensures Run(Init(cap), Repeat(PushControl(msg), cap) + [Push(msg, false)]).dropping
  {
    var cs := Repeat(PushControl(msg), cap);
    ControlsFill(cap, msg, cap);
    assert (cs + [Push(msg, false)])[..|cs|] == cs;
  }

  function Repeat(a: Action, n: nat): (r: seq<Action>)
    ensures |r| == n
  {
    if n == 0 then [] else Repeat(a, n - 1) + [a]
  }

  lemma {:induction false} ControlsFill(cap: nat, msg: Bytes, n: nat)
    ensures var q := Run(Init(cap), Repeat(PushControl(msg), n));
            |q.items| == n && !q.closed && !q.dropping && q.cap == cap
  {
    if n > 0 {
      ControlsFill(cap, msg, n - 1);
      var cs := Repeat(PushControl(msg), n);
      assert cs[..|cs| - 1] == Repeat(PushControl(msg), n - 1);
    }
  }

  // ---- The queue object ----

  datatype Popped = Got(msg: Bytes) | Drained | Blocked

  class ClientQueue {
    var items: seq<Bytes>
    var closed: bool
    var dropping: bool
    const cap: nat
    /** The items with their lanes and push positions, and the history. */
    ghost var labels: seq<Item>
    ghost var pushes: nat
    ghost var delivered: seq<Item>

    ghost predicate Valid()
      reads this
    {
      |items| == |labels| && forall i :: 0 <= i < |items| ==> items[i] == labels[i].msg
    }

    ghost function Value(): State
      reads this
    {
      State(labels, closed, dropping, cap, pushes, delivered)
    }

    constructor (cap: nat)
      ensures Valid() && this.cap == cap && Value() == Init(cap)
    {
      this.cap := cap;
      items, closed, dropping := [], false, false;
      labels, pushes, delivered := [], 0, [];
    }

    /** Returns whether this push shed the backlog. */
    method Push(msg: Bytes, keyframe: bool) returns (shed: bool)
      requires Valid()
      modifies this
      ensures Valid() && Value() == AfterPush(old(Value()), msg, keyframe)
      ensures shed <==> !old(dropping) && dropping
    {
      ghost var tag := Video(msg, keyframe, pushes);
      pushes := pushes + 1;
      if closed {
        return false;
      }
      if dropping {
        if keyframe {
          dropping := false;
          items, labels := items + [msg], labels + [tag];
        }
        return false;
      }
      items, labels := items + [msg], labels + [tag];
      if |items| > cap {
        items, labels := [], [];
        dropping := true;
        return true;
      }
      return false;
    }

    method PushControl(msg: Bytes)
      requires Valid()
      modifies this
      ensures Valid() && Value() == AfterControl(old(Value()), msg)
    {
      if closed {
        return;
      }
      items, labels := items + [msg], labels + [Control(msg)];
    }

    /** One pass of the consumer's wait loop. */
    method Pop() returns (r: Popped)
      requires Valid()
      modifies this
      ensures Valid() && Value() == AfterPop(old(Value()))
      ensures r == if old(labels) != [] then Got(old(labels)[0].msg) else if closed then Drained else Blocked
    {
      if items != [] {
        r := Got(items[0]);
        delivered := delivered + [labels[0]];
        items, labels := items[1..], labels[1..];
      } else {
        r := if closed then Drained else Blocked;
      }
    }

    method Close()
      requires Valid()
      modifies this
      ensures Valid() && Value() == AfterClose(old(Value()))
    {
      closed := true;
      items, labels := [], [];
    }
  }
}
