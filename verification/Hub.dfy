/**
 The hub that fans encoded frames out to its listed clients. One lock guards the client list, the
 cached keyframe and the plane cache, so a run is a sequence of whole operations; between them each
 client's send thread pops its queue, and marks itself dead and closes the queue when a send fails.
 */
module Hub {
  import opened Words
  import Queue
  import Planes

  datatype Frame = Frame(msg: Bytes, keyframe: bool)

  /** A listed client. `joined`, the position of its registration in the run, identifies it;
      `offered` are the frames pushed to its queue. */
  datatype Member = Member(q: Queue.State, alive: bool, joined: nat, offered: seq<Frame>)

  datatype State = State(
    members: seq<Member>, lastKeyframe: Option<Bytes>, planes: map<u32, Planes.PlaneCache>,
    cap: nat, time: nat)

  datatype Event =
    | Broadcast(frame: Frame)
    | BroadcastControl(plane: u32, op: byte, msg: Bytes)
    | ResetKeyframe
    | ResetPlanes
    | Register(order: seq<u32>)
    | Send(who: nat, act: SendAct)

  /** What a client's send thread does between hub operations. */
  datatype SendAct = Pops | Fails | Closes

  function Init(cap: nat): State
  {
    State([], None, map[], cap, 0)
  }

  // ---- The operations ----

  function Offer(m: Member, f: Frame): Member
  {
    m.(q := Queue.AfterPush(m.q, f.msg, f.keyframe), offered := m.offered + [f])
  }

  /** The `retain` of `broadcast`: the dead are evicted, the living are offered the frame. */
  function Fan(ms: seq<Member>, f: Frame): seq<Member>
  {
    if ms == [] then []
    else
      var rest, last := Fan(ms[..|ms| - 1], f), ms[|ms| - 1];
      if last.alive then rest + [Offer(last, f)] else rest
  }

  function Tell(m: Member, msg: Bytes): Member
  {
    m.(q := Queue.AfterControl(m.q, msg))
  }

  function FanControl(ms: seq<Member>, msg: Bytes): seq<Member>
  {
    if ms == [] then []
    else
      var rest, last := FanControl(ms[..|ms| - 1], msg), ms[|ms| - 1];
      if last.alive then rest + [Tell(last, msg)] else rest
  }

  function CacheOf(planes: map<u32, Planes.PlaneCache>, id: u32): Planes.PlaneCache
  {
    if id in planes then planes[id] else Planes.NO_CACHE
  }

  function CachePlane(planes: map<u32, Planes.PlaneCache>, id: u32, op: byte, msg: Bytes)
    : map<u32, Planes.PlaneCache>
  {
    if op == Planes.DESTROY then planes - {id}
    else if op == Planes.DEFINE || op == Planes.MOVE then planes[id := Planes.Cache(CacheOf(planes, id), op, msg)]
    else planes
  }

  function PushControls(q: Queue.State, msgs: seq<Bytes>): Queue.State
  {
    if msgs == [] then q
    else Queue.AfterControl(PushControls(q, msgs[..|msgs| - 1]), msgs[|msgs| - 1])
  }

  /** The cached plane messages, plane by plane in the given order. */
  function Primes(planes: map<u32, Planes.PlaneCache>, order: seq<u32>): seq<Bytes>
  {
    if order == [] then []
    else Primes(planes, order[..|order| - 1]) + Planes.Prime(CacheOf(planes, order[|order| - 1]))
  }

  function PrimedFrames(k: Option<Bytes>): seq<Frame>
  {
    if k.Some? then [Frame(k.value, true)] else []
  }

  /** A fresh queue primed with the cached keyframe, then the cached planes. */
  function Joiner(s: State, order: seq<u32>): Member
  {
    var q := if s.lastKeyframe.Some? then Queue.AfterPush(Queue.Init(s.cap), s.lastKeyframe.value, true)
             else Queue.Init(s.cap);
    Member(PushControls(q, Primes(s.planes, order)), true, s.time, PrimedFrames(s.lastKeyframe))
  }

  function AfterSend(m: Member, act: SendAct): Member
  {
    match act
    case Pops => m.(q := Queue.AfterPop(m.q))
    case Fails => m.(alive := false)
    case Closes => m.(q := Queue.AfterClose(m.q))
  }

  function Apply(ms: seq<Member>, who: nat, act: SendAct): seq<Member>
  {
    if ms == [] then []
    else
      var last := ms[|ms| - 1];
      Apply(ms[..|ms| - 1], who, act) + [if last.joined == who then AfterSend(last, act) else last]
  }

  function Do(s: State, e: Event): State
  {
    match e
    case Broadcast(f) =>
      s.(members := Fan(s.members, f), lastKeyframe := if f.keyframe then Some(f.msg) else s.lastKeyframe)
    case BroadcastControl(plane, op, msg) =>
      s.(members := FanControl(s.members, msg), planes := CachePlane(s.planes, plane, op, msg))
    case ResetKeyframe => s.(lastKeyframe := None)
    case ResetPlanes => s.(planes := map[])
    case Register(order) => s.(members := s.members + [Joiner(s, order)])
    case Send(who, act) => s.(members := Apply(s.members, who, act))
  }

  function Step(s: State, e: Event): State
  {
    Do(s, e).(time := s.time + 1)
  }

  function Run(cap: nat, hist: seq<Event>): State
  {
    if hist == [] then Init(cap) else Step(Run(cap, hist[..|hist| - 1]), hist[|hist| - 1])
  }

  // ---- What a history says, read off the events alone ----

  /** The latest keyframe broadcast since the last reset. */
  function LatestKeyframe(hist: seq<Event>): Option<Bytes>
  {
    if hist == [] then None
    else
      var e := hist[|hist| - 1];
      if e.ResetKeyframe? then None
      else if e.Broadcast? && e.frame.keyframe then Some(e.frame.msg)
      else LatestKeyframe(hist[..|hist| - 1])
  }

  /** Every frame broadcast, in order. */
  function Broadcasts(hist: seq<Event>): seq<Frame>
  {
    if hist == [] then []
    else
      var e := hist[|hist| - 1];
      Broadcasts(hist[..|hist| - 1]) + if e.Broadcast? then [e.frame] else []
  }

  /** The send thread of the client registered at `joined` has not failed. */
  predicate Alive(hist: seq<Event>, joined: nat)
  {
    forall k :: joined < k < |hist| ==> hist[k] != Send(joined, Fails)
  }

  /** Broadcasts of either kind evict the dead. */
  predicate Reaps(e: Event) { e.Broadcast? || e.BroadcastControl? }

  /** It registered, and no broadcast came after its send thread failed. */
  predicate Listed(hist: seq<Event>, joined: nat)
  {
    && joined < |hist|
    && hist[joined].Register?
    && forall k, l :: joined < k < l < |hist| && Reaps(hist[l]) ==> hist[k] != Send(joined, Fails)
  }

  /** Each video message still in or past the queue is the frame offered at its position. */
  predicate Faithful(vs: seq<Queue.Item>, offered: seq<Frame>)
  {
    forall v :: v in vs ==>
      v.Video? && v.index < |offered| && offered[v.index] == Frame(v.msg, v.keyframe)
  }

  /** What a client registered at event `joined` is owed after `hist`. */
  function Owed(hist: seq<Event>, joined: nat): seq<Frame>
    requires joined < |hist|
  {
    PrimedFrames(LatestKeyframe(hist[..joined])) + Broadcasts(hist[joined + 1..])
  }

  ghost predicate QueueHolds(m: Member)
  {
    && Queue.Inv(m.q)
    && m.q.pushes == |m.offered|
    && Faithful(Queue.Chain(m.q), m.offered)
  }

  predicate Atomic(m: Member, hist: seq<Event>)
  {
    && m.joined < |hist|
    && hist[m.joined].Register?
    && m.offered == Owed(hist, m.joined)
    && (m.alive <==> Alive(hist, m.joined))
  }

  ghost predicate Holds(m: Member, hist: seq<Event>, cap: nat)
  {
    m.q.cap == cap && QueueHolds(m) && Atomic(m, hist)
  }

  // ---- One member, one event ----

  lemma {:induction false} OwedSnoc(hist: seq<Event>, e: Event, joined: nat)
    requires joined < |hist|
    ensures Owed(hist + [e], joined) == Owed(hist, joined) + if e.Broadcast? then [e.frame] else []
  {
    assert (hist + [e])[..joined] == hist[..joined];
    var later := hist[joined + 1..];
    assert (hist + [e])[joined + 1..] == later + [e];
    assert (later + [e])[..|later|] == later;
  }

  lemma AliveSnoc(hist: seq<Event>, e: Event, joined: nat)
    ensures Alive(hist + [e], joined) <==>
            Alive(hist, joined) && (joined < |hist| ==> e != Send(joined, Fails))
  {
    var h := hist + [e];
    forall k | joined < k < |hist| ensures h[k] == hist[k] { }
    if Alive(h, joined) {
      forall k | joined < k < |hist| ensures hist[k] != Send(joined, Fails) {
        assert h[k] == hist[k];
      }
      if joined < |hist| {
        assert h[|hist|] == e;
      }
    }
  }

  lemma AtomicSnoc(m: Member, m': Member, hist: seq<Event>, e: Event)
    requires Atomic(m, hist)
    requires m'.joined == m.joined
    requires m'.offered == m.offered + if e.Broadcast? then [e.frame] else []
    requires m'.alive <==> m.alive && e != Send(m.joined, Fails)
    ensures Atomic(m', hist + [e])
  {
    OwedSnoc(hist, e, m.joined);
    AliveSnoc(hist, e, m.joined);
    assert (hist + [e])[m.joined] == hist[m.joined];
    hide Owed, Alive;
  }

  lemma OfferHolds(m: Member, f: Frame)
    requires QueueHolds(m) && m.q.cap >= 1
    ensures QueueHolds(Offer(m, f))
  {
    Queue.PushKeepsInv(m.q, f.msg, f.keyframe);
    Queue.ChainAfterPush(m.q, f.msg, f.keyframe);
    hide Queue.Inv, Queue.Chain, Queue.AfterPush;
    var v := Queue.Video(f.msg, f.keyframe, m.q.pushes);
    FaithfulGrows(Queue.Chain(m.q), m.offered, f, v);
    forall x | x in Queue.Chain(Queue.AfterPush(m.q, f.msg, f.keyframe))
      ensures x in Queue.Chain(m.q) + [v] { }
    Pushes(m.q, f);
  }

  lemma Pushes(q: Queue.State, f: Frame)
    ensures Queue.AfterPush(q, f.msg, f.keyframe).pushes == q.pushes + 1
    ensures Queue.AfterPush(q, f.msg, f.keyframe).cap == q.cap
  {
  }

  lemma FaithfulGrows(vs: seq<Queue.Item>, offered: seq<Frame>, f: Frame, v: Queue.Item)
    requires Faithful(vs, offered) && v == Queue.Video(f.msg, f.keyframe, |offered|)
    ensures Faithful(vs + [v], offered + [f])
  {
  }

  lemma TellHolds(m: Member, msg: Bytes)
    requires QueueHolds(m)
    ensures QueueHolds(Tell(m, msg))
  {
    Queue.ControlKeepsInv(m.q, msg);
    hide Queue.Inv, Queue.Chain;
  }

  lemma PopHolds(m: Member)
    requires QueueHolds(m)
    ensures QueueHolds(m.(q := Queue.AfterPop(m.q)))
  {
    Queue.PopKeepsInv(m.q);
    hide Queue.Inv, Queue.Chain;
  }

  lemma CloseHolds(m: Member)
    requires QueueHolds(m)
    ensures QueueHolds(m.(q := Queue.AfterClose(m.q)))
  {
    Queue.CloseKeepsInv(m.q);
    assert Queue.Videos([]) == [];
    hide Queue.Inv, Queue.Videos;
  }

  lemma {:induction false} PushControlsHolds(m: Member, msgs: seq<Bytes>)
    requires QueueHolds(m)
    ensures QueueHolds(m.(q := PushControls(m.q, msgs))) && PushControls(m.q, msgs).cap == m.q.cap
  {
    if msgs != [] {
      var init := msgs[..|msgs| - 1];
      PushControlsHolds(m, init);
      TellHolds(m.(q := PushControls(m.q, init)), msgs[|msgs| - 1]);
    }
    hide QueueHolds;
  }

  /** Before any push the queue owes nothing; the cached keyframe, if any, is its first frame. */
  lemma FreshHolds(cap: nat, joined: nat, k: Option<Bytes>)
    requires cap >= 1
    ensures var q := Queue.Init(cap);
            QueueHolds(Member(if k.Some? then Queue.AfterPush(q, k.value, true) else q, true, joined, PrimedFrames(k)))
  {
    var m := Member(Queue.Init(cap), true, joined, []);
    assert Queue.Videos([]) == [];
    assert Queue.Chain(m.q) == [];
    assert QueueHolds(m);
    if k.Some? {
      OfferHolds(m, Frame(k.value, true));
      assert Offer(m, Frame(k.value, true)).offered == PrimedFrames(k);
    }
    hide Queue.AfterPush, Queue.Inv, Queue.Chain;
  }

  lemma JoinerHolds(s: State, order: seq<u32>, hist: seq<Event>)
    requires s.cap >= 1 && s.time == |hist| && s.lastKeyframe == LatestKeyframe(hist)
    ensures Holds(Joiner(s, order), hist + [Register(order)], s.cap)
  {
    FreshHolds(s.cap, s.time, s.lastKeyframe);
    var q := if s.lastKeyframe.Some? then Queue.AfterPush(Queue.Init(s.cap), s.lastKeyframe.value, true)
             else Queue.Init(s.cap);
    PushControlsHolds(Member(q, true, s.time, PrimedFrames(s.lastKeyframe)), Primes(s.planes, order));
    var h := hist + [Register(order)];
    assert h[..|hist|] == hist && h[|hist| + 1..] == [];
    assert Alive(h, |hist|);
    hide QueueHolds, PushControls, Primes, Alive, LatestKeyframe, Queue.AfterPush;
  }

  // ---- All members ----

  lemma {:induction false} FanHolds(ms: seq<Member>, f: Frame, hist: seq<Event>, cap: nat)
    requires cap >= 1 && forall m :: m in ms ==> Holds(m, hist, cap)
    ensures forall m :: m in Fan(ms, f) ==> Holds(m, hist + [Broadcast(f)], cap)
  {
    if ms != [] {
      var m := ms[|ms| - 1];
      FanHolds(ms[..|ms| - 1], f, hist, cap);
      assert Holds(m, hist, cap);
      OfferHolds(m, f);
      Pushes(m.q, f);
      AtomicSnoc(m, Offer(m, f), hist, Broadcast(f));
    }
    hide QueueHolds, Atomic, Queue.AfterPush;
  }

  lemma {:induction false} FanControlHolds(ms: seq<Member>, e: Event, hist: seq<Event>, cap: nat)
    requires e.BroadcastControl? && forall m :: m in ms ==> Holds(m, hist, cap)
    ensures forall m :: m in FanControl(ms, e.msg) ==> Holds(m, hist + [e], cap)
  {
    if ms != [] {
      var m := ms[|ms| - 1];
      FanControlHolds(ms[..|ms| - 1], e, hist, cap);
      assert Holds(m, hist, cap);
      TellHolds(m, e.msg);
      AtomicSnoc(m, Tell(m, e.msg), hist, e);
    }
    hide QueueHolds, Atomic;
  }

  lemma KeepHolds(ms: seq<Member>, e: Event, hist: seq<Event>, cap: nat)
    requires !e.Broadcast? && !e.Send? && forall m :: m in ms ==> Holds(m, hist, cap)
    ensures forall m :: m in ms ==> Holds(m, hist + [e], cap)
  {
    forall m | m in ms ensures Holds(m, hist + [e], cap) {
      assert Holds(m, hist, cap);
      AtomicSnoc(m, m, hist, e);
    }
    hide QueueHolds, Atomic;
  }

  lemma SendHolds(m: Member, act: SendAct)
    requires QueueHolds(m)
    ensures QueueHolds(AfterSend(m, act)) && AfterSend(m, act).q.cap == m.q.cap
  {
    PopHolds(m);
    CloseHolds(m);
    assert act.Fails? ==> QueueHolds(m.(alive := false));
  }

  lemma SentTo(m: Member, act: SendAct)
    ensures var a := AfterSend(m, act);
            a.joined == m.joined && a.offered == m.offered && (a.alive <==> m.alive && act != Fails)
  {
  }

  lemma SendKeeps(m: Member, who: nat, act: SendAct, hist: seq<Event>, cap: nat)
    requires Holds(m, hist, cap)
    ensures Holds(if m.joined == who then AfterSend(m, act) else m, hist + [Send(who, act)], cap)
  {
    hide QueueHolds, Atomic, AfterSend;
    var m' := if m.joined == who then AfterSend(m, act) else m;
    SendHolds(m, act);
    SentTo(m, act);
    AtomicSnoc(m, m', hist, Send(who, act));
  }

  lemma {:induction false} ApplyHolds(ms: seq<Member>, who: nat, act: SendAct, hist: seq<Event>, cap: nat)
    requires forall m :: m in ms ==> Holds(m, hist, cap)
    ensures forall m :: m in Apply(ms, who, act) ==> Holds(m, hist + [Send(who, act)], cap)
  {
    if ms != [] {
      ApplyHolds(ms[..|ms| - 1], who, act, hist, cap);
      SendKeeps(ms[|ms| - 1], who, act, hist, cap);
    }
    hide Holds, AfterSend;
  }

  ghost predicate Inv(s: State, hist: seq<Event>)
  {
    && s.cap >= 1
    && s.time == |hist|
    && s.lastKeyframe == LatestKeyframe(hist)
    && forall m :: m in s.members ==> Holds(m, hist, s.cap)
  }

  lemma MembersHold(s: State, e: Event, hist: seq<Event>)
    requires Inv(s, hist)
    ensures forall m :: m in Do(s, e).members ==> Holds(m, hist + [e], s.cap)
  {
    match e {
      case Broadcast(f) => FanHolds(s.members, f, hist, s.cap);
      case BroadcastControl(plane, op, msg) => FanControlHolds(s.members, e, hist, s.cap);
      case ResetKeyframe => KeepHolds(s.members, e, hist, s.cap);
      case ResetPlanes => KeepHolds(s.members, e, hist, s.cap);
      case Register(order) => KeepHolds(s.members, e, hist, s.cap); JoinerHolds(s, order, hist);
      case Send(who, act) => ApplyHolds(s.members, who, act, hist, s.cap);
    }
    hide Holds, Joiner, CachePlane, Fan, FanControl, Apply;
  }

  lemma StepKeepsInv(s: State, e: Event, hist: seq<Event>)
    requires Inv(s, hist)
    ensures Inv(Step(s, e), hist + [e])
  {
    MembersHold(s, e, hist);
    assert (hist + [e])[..|hist|] == hist;
    hide Holds, Joiner, CachePlane, Fan, FanControl, Apply;
  }

  lemma {:induction false} RunUnfolds(cap: nat, hist: seq<Event>)
    requires hist != []
    ensures Run(cap, hist) == Step(Run(cap, hist[..|hist| - 1]), hist[|hist| - 1])
    ensures hist[..|hist| - 1] + [hist[|hist| - 1]] == hist
  {
    hide Step;
  }

  lemma StepKeepsCap(s: State, e: Event)
    ensures Step(s, e).cap == s.cap
  {
    hide Fan, FanControl, Apply, Joiner, CachePlane;
  }

  lemma InitHolds(cap: nat)
    requires cap >= 1
    ensures Inv(Run(cap, []), []) && Run(cap, []).cap == cap
  {
    hide Holds;
  }

  lemma {:induction false} RunKeepsInv(cap: nat, hist: seq<Event>)
    requires cap >= 1
    ensures Inv(Run(cap, hist), hist) && Run(cap, hist).cap == cap
  {
    hide *;
    if hist == [] {
      InitHolds(cap);
    } else {
      var init, e := hist[..|hist| - 1], hist[|hist| - 1];
      RunKeepsInv(cap, init);
      StepKeepsInv(Run(cap, init), e, init);
      StepKeepsCap(Run(cap, init), e);
      RunUnfolds(cap, hist);
    }
  }

  // ---- Who is listed ----

  /** Registration order, so nobody is listed twice. */
  predicate InOrder(ms: seq<Member>)
  {
    forall i, j :: 0 <= i < j < |ms| ==> ms[i].joined < ms[j].joined
  }

  predicate Has(ms: seq<Member>, joined: nat)
  {
    exists m :: m in ms && m.joined == joined
  }

  predicate HasAlive(ms: seq<Member>, joined: nat)
  {
    exists m :: m in ms && m.joined == joined && m.alive
  }

  lemma {:induction false} FanIds(ms: seq<Member>, f: Frame, msg: Bytes, who: nat, act: SendAct, j: nat)
    ensures Has(Fan(ms, f), j) <==> HasAlive(ms, j)
    ensures Has(FanControl(ms, msg), j) <==> HasAlive(ms, j)
    ensures Has(Apply(ms, who, act), j) <==> Has(ms, j)
  {
    if ms != [] {
      var init, last := ms[..|ms| - 1], ms[|ms| - 1];
      FanIds(init, f, msg, who, act, j);
      assert ms == init + [last];
      HasSnoc(init, last, j);
      if last.alive {
        HasSnoc(Fan(init, f), Offer(last, f), j);
        HasSnoc(FanControl(init, msg), Tell(last, msg), j);
      }
      HasSnoc(Apply(init, who, act), if last.joined == who then AfterSend(last, act) else last, j);
    }
    hide Has, HasAlive;
  }

  lemma HasSnoc(ms: seq<Member>, m: Member, j: nat)
    ensures Has(ms + [m], j) <==> Has(ms, j) || m.joined == j
    ensures HasAlive(ms + [m], j) <==> HasAlive(ms, j) || (m.joined == j && m.alive)
  {
    if Has(ms, j) { var x :| x in ms && x.joined == j; assert x in ms + [m]; }
    if HasAlive(ms, j) { var x :| x in ms && x.joined == j && x.alive; assert x in ms + [m]; }
    assert m in ms + [m];
  }

  /** The retained members keep the order, and the last of them is no later than the last before. */
  lemma {:induction false} FanOrder(ms: seq<Member>, f: Frame, msg: Bytes, who: nat, act: SendAct, top: nat)
    requires InOrder(ms) && forall m :: m in ms ==> m.joined < top
    ensures InOrder(Fan(ms, f)) && forall m :: m in Fan(ms, f) ==> m.joined < top
    ensures InOrder(FanControl(ms, msg)) && forall m :: m in FanControl(ms, msg) ==> m.joined < top
    ensures InOrder(Apply(ms, who, act)) && forall m :: m in Apply(ms, who, act) ==> m.joined < top
  {
    if ms != [] {
      var init, last := ms[..|ms| - 1], ms[|ms| - 1];
      FanOrder(init, f, msg, who, act, last.joined);
      OrderSnoc(Fan(init, f), Offer(last, f));
      OrderSnoc(FanControl(init, msg), Tell(last, msg));
      OrderSnoc(Apply(init, who, act), if last.joined == who then AfterSend(last, act) else last);
      hide InOrder;
    }
  }

  lemma OrderSnoc(ms: seq<Member>, m: Member)
    requires InOrder(ms) && forall x :: x in ms ==> x.joined < m.joined
    ensures InOrder(ms + [m])
  {
  }

  ghost predicate Roll(s: State, hist: seq<Event>)
  {
    && InOrder(s.members)
    && (forall m :: m in s.members ==> m.joined < |hist|)
    && (forall j: nat :: Has(s.members, j) <==> Listed(hist, j))
  }

  lemma ListedSnoc(hist: seq<Event>, e: Event, j: nat)
    ensures Listed(hist + [e], j) <==>
            (Listed(hist, j) && (Reaps(e) ==> Alive(hist, j))) || (j == |hist| && e.Register?)
  {
    var h := hist + [e];
    if j < |hist| {
      assert h[j] == hist[j];
      if Listed(hist, j) && (Reaps(e) ==> Alive(hist, j)) {
        forall k, l | j < k < l < |h| && Reaps(h[l]) ensures h[k] != Send(j, Fails) { }
      }
      if Listed(h, j) {
        forall k, l | j < k < l < |hist| && Reaps(hist[l]) ensures hist[k] != Send(j, Fails) {
          assert h[k] == hist[k] && h[l] == hist[l];
        }
        if Reaps(e) {
          forall k | j < k < |hist| ensures hist[k] != Send(j, Fails) {
            assert h[k] == hist[k] && Reaps(h[|hist|]);
          }
        }
      }
    }
  }

  lemma HasAliveIff(s: State, hist: seq<Event>, j: nat)
    requires Inv(s, hist)
    ensures HasAlive(s.members, j) <==> Has(s.members, j) && Alive(hist, j)
  {
    if Has(s.members, j) {
      var m :| m in s.members && m.joined == j;
      assert Holds(m, hist, s.cap);
    }
    if HasAlive(s.members, j) {
      var m :| m in s.members && m.joined == j && m.alive;
      assert Holds(m, hist, s.cap);
    }
    hide QueueHolds, Owed;
  }

  lemma StepKeepsRoll(s: State, e: Event, hist: seq<Event>)
    requires Inv(s, hist) && Roll(s, hist)
    ensures Roll(Step(s, e), hist + [e])
  {
    var f := if e.Broadcast? then e.frame else Frame([], false);
    var msg := if e.BroadcastControl? then e.msg else [];
    var who, act := if e.Send? then e.who else 0, if e.Send? then e.act else Pops;
    FanOrder(s.members, f, msg, who, act, |hist|);
    if e.Register? {
      OrderSnoc(s.members, Joiner(s, e.order));
    }
    forall j: nat ensures Has(Step(s, e).members, j) <==> Listed(hist + [e], j) {
      ListedSnoc(hist, e, j);
      HasAliveIff(s, hist, j);
      FanIds(s.members, f, msg, who, act, j);
      if e.Register? {
        HasSnoc(s.members, Joiner(s, e.order), j);
      }
    }
    hide Has, HasAlive, InOrder, Inv, Listed, Alive, CachePlane, PushControls, Primes;
  }

  lemma NobodyListed(cap: nat)
    ensures Roll(Run(cap, []), [])
  {
  }

  lemma {:induction false} RunKeepsRoll(cap: nat, hist: seq<Event>)
    requires cap >= 1
    ensures Roll(Run(cap, hist), hist)
  {
    hide *;
    if hist == [] {
      NobodyListed(cap);
    } else {
      var init, e := hist[..|hist| - 1], hist[|hist| - 1];
      RunKeepsRoll(cap, init);
      RunKeepsInv(cap, init);
      StepKeepsRoll(Run(cap, init), e, init);
      RunUnfolds(cap, hist);
    }
  }

  /** After any run the clients listed are, in registration order and once each, exactly those that
      registered and were not found dead by a later broadcast. */
  lemma ListedExactly(cap: nat, hist: seq<Event>)
    requires cap >= 1
    ensures InOrder(Run(cap, hist).members)
    ensures forall j: nat :: Has(Run(cap, hist).members, j) <==> Listed(hist, j)
  {
    RunKeepsRoll(cap, hist);
    hide Run, Has, Listed, InOrder;
  }

  lemma SentFaithfully(m: Member)
    requires QueueHolds(m)
    ensures Queue.Contiguous(Queue.Videos(m.q.delivered)) && Faithful(Queue.Videos(m.q.delivered), m.offered)
    ensures |Queue.Videos(m.q.items)| <= m.q.cap
  {
    Queue.ContiguousPrefix(Queue.Videos(m.q.delivered), Queue.Videos(m.q.items));
    hide Queue.Videos, Queue.Contiguous;
  }

  lemma MemberHolds(cap: nat, hist: seq<Event>, m: Member)
    requires cap >= 1 && m in Run(cap, hist).members
    ensures Holds(m, hist, cap)
  {
    RunKeepsInv(cap, hist);
    hide Holds, Run;
  }

  lemma HoldsMeans(m: Member, hist: seq<Event>, cap: nat)
    requires Holds(m, hist, cap)
    ensures m.q.cap == cap && QueueHolds(m)
    ensures m.joined < |hist| && hist[m.joined].Register?
    ensures m.offered == PrimedFrames(LatestKeyframe(hist[..m.joined])) + Broadcasts(hist[m.joined + 1..])
  {
    hide QueueHolds, Alive, LatestKeyframe, Broadcasts;
  }

  /** Join atomicity, over all runs. A listed client has been offered the latest keyframe broadcast
      before it joined (since the last reset), if any, and then every later broadcast in order: no
      keyframe falls between its priming and its listing. What it was sent is some of exactly those
      frames, and a non-keyframe among it directly follows its predecessor in the order offered. */
  lemma JoinAtomicity(cap: nat, hist: seq<Event>, m: Member)
    requires cap >= 1 && m in Run(cap, hist).members
    ensures m.joined < |hist| && hist[m.joined].Register?
    ensures m.offered == PrimedFrames(LatestKeyframe(hist[..m.joined])) + Broadcasts(hist[m.joined + 1..])
    ensures Queue.Contiguous(Queue.Videos(m.q.delivered)) && Faithful(Queue.Videos(m.q.delivered), m.offered)
    ensures |Queue.Videos(m.q.items)| <= cap
  {
    hide *;
    MemberHolds(cap, hist, m);
    HoldsMeans(m, hist, cap);
    SentFaithfully(m);
  }

  // ---- What each client's queue went through ----

  function ControlActions(msgs: seq<Bytes>): (acts: seq<Queue.Action>)
    ensures |acts| == |msgs|
  {
    seq(|msgs|, i requires 0 <= i < |msgs| => Queue.PushControl(msgs[i]))
  }

  /** The queue operations of registering: the cached keyframe, then the cached plane messages. */
  function PrimeActions(k: Option<Bytes>, controls: seq<Bytes>): seq<Queue.Action>
  {
    (if k.Some? then [Queue.Push(k.value, true)] else []) + ControlActions(controls)
  }

  /** The operation an event performs on the queue of the client registered at `joined`. */
  function ActionsOf(e: Event, joined: nat): seq<Queue.Action>
  {
    match e
    case Broadcast(f) => [Queue.Push(f.msg, f.keyframe)]
    case BroadcastControl(_, _, msg) => [Queue.PushControl(msg)]
    case Send(who, act) =>
      if who != joined then [] else if act == Pops then [Queue.Pop] else if act == Closes then [Queue.Close] else []
    case _ => []
  }

  function LaterActions(hist: seq<Event>, joined: nat): seq<Queue.Action>
  {
    if hist == [] then [] else LaterActions(hist[..|hist| - 1], joined) + ActionsOf(hist[|hist| - 1], joined)
  }

  /** Everything done to that queue, read off the events: it is primed at the registration, then pushed
      every later broadcast of either kind, in order, between its own thread's pops and close. */
  function QueueActions(cap: nat, hist: seq<Event>, joined: nat): seq<Queue.Action>
    requires joined < |hist| && hist[joined].Register?
  {
    var before := hist[..joined];
    PrimeActions(LatestKeyframe(before), Primes(Run(cap, before).planes, hist[joined].order)) +
    LaterActions(hist[joined + 1..], joined)
  }

  ghost predicate QueueIs(m: Member, cap: nat, hist: seq<Event>)
  {
    && m.joined < |hist| && hist[m.joined].Register?
    && m.q == Queue.Run(Queue.Init(cap), QueueActions(cap, hist, m.joined))
  }

  lemma {:induction false} QueueRunConcat(q: Queue.State, xs: seq<Queue.Action>, ys: seq<Queue.Action>)
    ensures Queue.Run(q, xs + ys) == Queue.Run(Queue.Run(q, xs), ys)
  {
    if ys == [] {
      assert xs + ys == xs;
    } else {
      assert (xs + ys)[..|xs + ys| - 1] == xs + ys[..|ys| - 1];
      QueueRunConcat(q, xs, ys[..|ys| - 1]);
    }
    hide Queue.Step;
  }

  lemma QueueRunOne(q: Queue.State, a: Queue.Action)
    ensures Queue.Run(q, [a]) == Queue.Step(q, a) && Queue.Run(q, []) == q
  {
    assert [a][..0] == [];
    hide Queue.Step;
  }

  lemma {:induction false} ControlsRun(q: Queue.State, msgs: seq<Bytes>)
    ensures Queue.Run(q, ControlActions(msgs)) == PushControls(q, msgs)
  {
    if msgs != [] {
      var init := msgs[..|msgs| - 1];
      ControlsRun(q, init);
      assert ControlActions(msgs)[..|msgs| - 1] == ControlActions(init);
    }
    hide Queue.AfterControl;
  }

  lemma LaterSnoc(hist: seq<Event>, e: Event, joined: nat)
    ensures LaterActions(hist + [e], joined) == LaterActions(hist, joined) + ActionsOf(e, joined)
  {
    assert (hist + [e])[..|hist|] == hist;
  }

  lemma QueueActionsSnoc(cap: nat, hist: seq<Event>, e: Event, joined: nat)
    requires joined < |hist| && hist[joined].Register?
    ensures QueueActions(cap, hist + [e], joined) == QueueActions(cap, hist, joined) + ActionsOf(e, joined)
  {
    hide LatestKeyframe, Primes, Run, LaterActions, ActionsOf, PrimeActions;
    assert (hist + [e])[..joined] == hist[..joined];
    assert (hist + [e])[joined + 1..] == hist[joined + 1..] + [e];
    LaterSnoc(hist[joined + 1..], e, joined);
    var before := hist[..joined];
    Associates(PrimeActions(LatestKeyframe(before), Primes(Run(cap, before).planes, hist[joined].order)),
               LaterActions(hist[joined + 1..], joined), ActionsOf(e, joined));
  }

  lemma QueueIsSnoc(m: Member, m': Member, cap: nat, hist: seq<Event>, e: Event)
    requires QueueIs(m, cap, hist) && m'.joined == m.joined && m'.q == Queue.Run(m.q, ActionsOf(e, m.joined))
    ensures QueueIs(m', cap, hist + [e])
  {
    QueueActionsSnoc(cap, hist, e, m.joined);
    QueueRunConcat(Queue.Init(cap), QueueActions(cap, hist, m.joined), ActionsOf(e, m.joined));
    assert (hist + [e])[m.joined] == hist[m.joined];
    hide QueueActions, ActionsOf, Queue.Run;
  }

  lemma JoinerQueueIs(cap: nat, hist: seq<Event>, order: seq<u32>)
    requires cap >= 1
    ensures QueueIs(Joiner(Run(cap, hist), order), cap, hist + [Register(order)])
  {
    RunKeepsInv(cap, hist);
    var s, h := Run(cap, hist), hist + [Register(order)];
    var k, ms := LatestKeyframe(hist), Primes(s.planes, order);
    assert h[..|hist|] == hist && h[|hist| + 1..] == [];
    hide Run, LatestKeyframe, Primes, Queue.Run, Holds, PushControls, Queue.AfterPush;
    var q := Queue.Init(cap);
    var first := if k.Some? then [Queue.Push(k.value, true)] else [];
    var primed := if k.Some? then Queue.AfterPush(q, k.value, true) else q;
    QueueRunOne(q, Queue.Push(if k.Some? then k.value else [], true));
    assert Queue.Run(q, first) == primed;
    QueueRunConcat(q, first, ControlActions(ms));
    ControlsRun(primed, ms);
    assert QueueActions(cap, h, |hist|) == first + ControlActions(ms);
  }

  lemma {:induction false} FanQueues(ms: seq<Member>, f: Frame, cap: nat, hist: seq<Event>)
    requires forall m :: m in ms ==> QueueIs(m, cap, hist)
    ensures forall m :: m in Fan(ms, f) ==> QueueIs(m, cap, hist + [Broadcast(f)])
  {
    if ms != [] {
      var m := ms[|ms| - 1];
      FanQueues(ms[..|ms| - 1], f, cap, hist);
      QueueRunOne(m.q, Queue.Push(f.msg, f.keyframe));
      QueueIsSnoc(m, Offer(m, f), cap, hist, Broadcast(f));
    }
    hide QueueIs, Queue.Run, Queue.AfterPush;
  }

  lemma {:induction false} FanControlQueues(ms: seq<Member>, e: Event, cap: nat, hist: seq<Event>)
    requires e.BroadcastControl? && forall m :: m in ms ==> QueueIs(m, cap, hist)
    ensures forall m :: m in FanControl(ms, e.msg) ==> QueueIs(m, cap, hist + [e])
  {
    if ms != [] {
      var m := ms[|ms| - 1];
      FanControlQueues(ms[..|ms| - 1], e, cap, hist);
      QueueRunOne(m.q, Queue.PushControl(e.msg));
      QueueIsSnoc(m, Tell(m, e.msg), cap, hist, e);
    }
    hide QueueIs, Queue.Run, Queue.AfterControl;
  }

  lemma SentQueueIs(m: Member, who: nat, act: SendAct, cap: nat, hist: seq<Event>)
    requires QueueIs(m, cap, hist)
    ensures QueueIs(if m.joined == who then AfterSend(m, act) else m, cap, hist + [Send(who, act)])
  {
    hide QueueIs, Queue.Run, Queue.AfterPop, Queue.AfterClose;
    QueueRunOne(m.q, Queue.Pop);
    QueueRunOne(m.q, Queue.Close);
    QueueIsSnoc(m, if m.joined == who then AfterSend(m, act) else m, cap, hist, Send(who, act));
  }

  lemma {:induction false} ApplyQueues(ms: seq<Member>, who: nat, act: SendAct, cap: nat, hist: seq<Event>)
    requires forall m :: m in ms ==> QueueIs(m, cap, hist)
    ensures forall m :: m in Apply(ms, who, act) ==> QueueIs(m, cap, hist + [Send(who, act)])
  {
    if ms != [] {
      ApplyQueues(ms[..|ms| - 1], who, act, cap, hist);
      SentQueueIs(ms[|ms| - 1], who, act, cap, hist);
    }
    hide QueueIs, AfterSend;
  }

  lemma KeepQueues(ms: seq<Member>, e: Event, cap: nat, hist: seq<Event>)
    requires !e.Broadcast? && !e.BroadcastControl? && !e.Send? && forall m :: m in ms ==> QueueIs(m, cap, hist)
    ensures forall m :: m in ms ==> QueueIs(m, cap, hist + [e])
  {
    hide QueueIs, Queue.Run;
    forall m | m in ms ensures QueueIs(m, cap, hist + [e]) {
      QueueRunOne(m.q, Queue.Pop);
      QueueIsSnoc(m, m, cap, hist, e);
    }
  }

  lemma StepQueues(s: State, e: Event, cap: nat, hist: seq<Event>)
    requires cap >= 1 && s == Run(cap, hist) && forall m :: m in s.members ==> QueueIs(m, cap, hist)
    ensures forall m :: m in Do(s, e).members ==> QueueIs(m, cap, hist + [e])
  {
    hide QueueIs, Run, Joiner, CachePlane, Fan, FanControl, Apply;
    match e {
      case Broadcast(f) => FanQueues(s.members, f, cap, hist);
      case BroadcastControl(_, _, _) => FanControlQueues(s.members, e, cap, hist);
      case ResetKeyframe => KeepQueues(s.members, e, cap, hist);
      case ResetPlanes => KeepQueues(s.members, e, cap, hist);
      case Register(order) => KeepQueues(s.members, e, cap, hist); JoinerQueueIs(cap, hist, order);
      case Send(who, act) => ApplyQueues(s.members, who, act, cap, hist);
    }
  }

  /** Over all runs: a listed client's queue is exactly what priming it and then pushing it every later
      broadcast makes of an empty queue. What the queue guarantees over its own runs, it therefore
      guarantees to every client of the hub. */
  lemma {:induction false} MemberQueueIs(cap: nat, hist: seq<Event>)
    requires cap >= 1
    ensures forall m :: m in Run(cap, hist).members ==> QueueIs(m, cap, hist)
  {
    if hist == [] {
      RunOfNone(cap);
    } else {
      var init, e := hist[..|hist| - 1], hist[|hist| - 1];
      MemberQueueIs(cap, init);
      StepQueues(Run(cap, init), e, cap, init);
      RunUnfolds(cap, hist);
      hide Run, QueueIs, Do;
    }
  }

  /** So a client whose queue is dropping was overflowed by one of the pushes made to it, and has been
      pushed no keyframe since; and conversely. */
  lemma MemberDroppingIff(cap: nat, hist: seq<Event>, m: Member)
    requires cap >= 1 && m in Run(cap, hist).members
    ensures QueueIs(m, cap, hist)
    ensures var acts := QueueActions(cap, hist, m.joined);
            Queue.Close !in acts ==>
              (m.q.dropping <==> exists i: nat :: Queue.OverflowsAt(cap, acts, i) && !Queue.KeyframeAfter(acts, i))
  {
    MemberQueueIs(cap, hist);
    var acts := QueueActions(cap, hist, m.joined);
    if Queue.Close !in acts {
      Queue.DroppingIff(cap, acts);
    }
    hide Run, QueueActions, Queue.Run, Queue.OverflowsAt, Queue.KeyframeAfter;
  }

  // ---- What the plane cache holds ----

  /** The shape of plane `id`: its latest DEFINE, unless the plane was destroyed or all forgotten
      since. */
  function LatestDefine(hist: seq<Event>, id: u32): Option<Bytes>
  {
    if hist == [] then None
    else
      var e := hist[|hist| - 1];
      if e.ResetPlanes? then None
      else if e.BroadcastControl? && e.plane == id && e.op == 4 then None
      else if e.BroadcastControl? && e.plane == id && e.op == 1 then Some(e.msg)
      else LatestDefine(hist[..|hist| - 1], id)
  }

  /** Its latest MOVE since the latest DEFINE. */
  function LatestMove(hist: seq<Event>, id: u32): Option<Bytes>
  {
    if hist == [] then None
    else
      var e := hist[|hist| - 1];
      if e.ResetPlanes? then None
      else if e.BroadcastControl? && e.plane == id && (e.op == 1 || e.op == 4) then None
      else if e.BroadcastControl? && e.plane == id && e.op == 2 then Some(e.msg)
      else LatestMove(hist[..|hist| - 1], id)
  }

  /** After any history the cache of every plane is its latest shape and the latest move since. */
  lemma {:induction false} PlaneCacheIs(cap: nat, hist: seq<Event>, id: u32)
    ensures var c := CacheOf(Run(cap, hist).planes, id);
            c.lastDefine == LatestDefine(hist, id) && c.lastMove == LatestMove(hist, id)
  {
    if hist != [] {
      PlaneCacheIs(cap, hist[..|hist| - 1], id);
    }
    hide Fan, FanControl, Apply, Joiner;
  }

  // ---- The seam between prime and stream ----

  /** The place, in broadcast order, of the latest keyframe broadcast. */
  function KeyframePosition(hist: seq<Event>): nat
    requires LatestKeyframe(hist).Some?
    ensures KeyframePosition(hist) < |Broadcasts(hist)|
  {
    var e := hist[|hist| - 1];
    if e.Broadcast? && e.frame.keyframe then |Broadcasts(hist[..|hist| - 1])|
    else KeyframePosition(hist[..|hist| - 1])
  }

  /** The last frame broadcast was a keyframe. */
  predicate EndsInKeyframe(hist: seq<Event>)
  {
    if hist == [] then false
    else
      var e := hist[|hist| - 1];
      if e.Broadcast? then e.frame.keyframe else EndsInKeyframe(hist[..|hist| - 1])
  }

  lemma {:induction false} EndsInKeyframeIff(hist: seq<Event>)
    requires LatestKeyframe(hist).Some?
    ensures EndsInKeyframe(hist) <==> KeyframePosition(hist) + 1 == |Broadcasts(hist)|
    ensures Broadcasts(hist)[KeyframePosition(hist)] == Frame(LatestKeyframe(hist).value, true)
  {
    var e := hist[|hist| - 1];
    if !(e.Broadcast? && e.frame.keyframe) {
      EndsInKeyframeIff(hist[..|hist| - 1]);
    }
  }

  lemma {:induction false} BroadcastsConcat(xs: seq<Event>, ys: seq<Event>)
    ensures Broadcasts(xs + ys) == Broadcasts(xs) + Broadcasts(ys)
  {
    if ys == [] {
      assert xs + ys == xs;
    } else {
      assert (xs + ys)[..|xs + ys| - 1] == xs + ys[..|ys| - 1];
      BroadcastsConcat(xs, ys[..|ys| - 1]);
    }
  }

  /** Index, in the order offered, of the first frame broadcast after the client joined. */
  function Seam(hist: seq<Event>, joined: nat): nat
    requires joined < |hist|
  {
    if LatestKeyframe(hist[..joined]).Some? then 1 else 0
  }

  /** Place, in broadcast order, of the frame offered at index `i`. */
  function Position(hist: seq<Event>, joined: nat, i: nat): nat
    requires joined < |hist|
  {
    var before := hist[..joined];
    if i < Seam(hist, joined) then KeyframePosition(before)
    else |Broadcasts(before)| + (i - Seam(hist, joined))
  }

  /** Every offered frame is the broadcast at its position. */
  lemma PositionIsRight(hist: seq<Event>, joined: nat, i: nat)
    requires joined < |hist| && hist[joined].Register? && i < |Owed(hist, joined)|
    ensures Position(hist, joined, i) < |Broadcasts(hist)|
    ensures Broadcasts(hist)[Position(hist, joined, i)] == Owed(hist, joined)[i]
  {
    var before, after := hist[..joined], hist[joined + 1..];
    BroadcastsAround(hist, joined);
    hide Broadcasts, LatestKeyframe, KeyframePosition;
    var k := LatestKeyframe(before);
    InConcat(Broadcasts(before), Broadcasts(after), PrimedFrames(k), i);
    if k.Some? {
      EndsInKeyframeIff(before);
      if i == 0 {
        InConcat(Broadcasts(before), Broadcasts(after), PrimedFrames(k), KeyframePosition(before));
      }
    }
  }

  lemma BroadcastsAround(hist: seq<Event>, joined: nat)
    requires joined < |hist| && hist[joined].Register?
    ensures Broadcasts(hist) == Broadcasts(hist[..joined]) + Broadcasts(hist[joined + 1..])
  {
    var before, e, after := hist[..joined], hist[joined], hist[joined + 1..];
    assert hist == before + ([e] + after);
    BroadcastsConcat(before, [e] + after);
    BroadcastsConcat([e], after);
    assert [e][..0] == [] && Broadcasts([e]) == [];
    assert [] + Broadcasts(after) == Broadcasts(after);
    hide Broadcasts;
  }

  /** A frame after the primed ones is found as far into the live part. */
  lemma InConcat(before: seq<Frame>, after: seq<Frame>, primed: seq<Frame>, i: nat)
    ensures |primed| <= i < |primed + after| ==>
              (before + after)[|before| + (i - |primed|)] == (primed + after)[i]
    ensures i < |primed| ==> (primed + after)[i] == primed[i]
    ensures i < |before| ==> (before + after)[i] == before[i]
  {
  }

  /** Nothing was broadcast between what the client was primed with and its registration. */
  predicate SeamClosed(hist: seq<Event>, joined: nat)
    requires joined < |hist|
  {
    var before := hist[..joined];
    if LatestKeyframe(before).Some? then EndsInKeyframe(before) else Broadcasts(before) == []
  }

  /** In the broadcast stream: a keyframe, or directly after the frame delivered before it, or the
      first frame of all. */
  predicate InStream(hist: seq<Event>, joined: nat, vs: seq<Queue.Item>, k: nat)
    requires joined < |hist| && k < |vs| && forall v :: v in vs ==> v.Video?
  {
    || vs[k].keyframe
    || (k > 0 && Position(hist, joined, vs[k].index) == Position(hist, joined, vs[k - 1].index) + 1)
    || (k == 0 && Position(hist, joined, vs[k].index) == 0)
  }

  lemma PositionNext(hist: seq<Event>, joined: nat, i: nat)
    requires joined < |hist|
    ensures i >= Seam(hist, joined) ==> Position(hist, joined, i + 1) == Position(hist, joined, i) + 1
    ensures i + 1 == Seam(hist, joined) ==>
              (Position(hist, joined, i + 1) == Position(hist, joined, i) + 1 <==> SeamClosed(hist, joined))
    ensures Seam(hist, joined) == 0 ==> (Position(hist, joined, 0) == 0 <==> SeamClosed(hist, joined))
  {
    if LatestKeyframe(hist[..joined]).Some? {
      EndsInKeyframeIff(hist[..joined]);
    }
    hide Broadcasts, LatestKeyframe, KeyframePosition, EndsInKeyframe;
  }

  lemma StreamAt(m: Member, hist: seq<Event>, vs: seq<Queue.Item>, k: nat)
    requires m.joined < |hist| && m.offered == Owed(hist, m.joined)
    requires Queue.Contiguous(vs) && Faithful(vs, m.offered) && k < |vs|
    ensures vs[k].index != Seam(hist, m.joined) ==> InStream(hist, m.joined, vs, k)
    ensures vs[k].index == Seam(hist, m.joined) ==>
              (InStream(hist, m.joined, vs, k) <==> vs[k].keyframe || SeamClosed(hist, m.joined))
  {
    var seam := Seam(hist, m.joined);
    assert Queue.Follows(vs, k);
    assert vs[k] in vs;
    PositionNext(hist, m.joined, 0);
    if k > 0 {
      assert vs[k - 1] in vs;
      PositionNext(hist, m.joined, vs[k - 1].index);
    }
    if seam == 1 {
      assert m.offered[0].keyframe;
    }
    hide Broadcasts, LatestKeyframe, SeamClosed, Position, Queue.Contiguous, Faithful;
  }

  /** Against the broadcast stream, over all runs. Past the seam every delivered non-keyframe directly
      follows the frame broadcast before it. The first frame after the client joined, if it is
      delivered, fits what the client was primed with exactly when it is a keyframe or nothing was
      broadcast in between; so a delivered prime is followed without a gap if and only if the next
      frame delivered is a keyframe or no frame came between that prime and the registration. */
  lemma JoinSeam(cap: nat, hist: seq<Event>, m: Member)
    requires cap >= 1 && m in Run(cap, hist).members
    ensures m.joined < |hist|
    ensures var vs := Queue.Videos(m.q.delivered);
            && (forall k :: 0 <= k < |vs| && vs[k].index != Seam(hist, m.joined) ==> InStream(hist, m.joined, vs, k))
            && (forall k :: 0 <= k < |vs| && vs[k].index == Seam(hist, m.joined) ==>
                  (InStream(hist, m.joined, vs, k) <==> vs[k].keyframe || SeamClosed(hist, m.joined)))
            && (|vs| > 1 && vs[0].index < Seam(hist, m.joined) ==>
                  (InStream(hist, m.joined, vs, 1) <==> vs[1].keyframe || SeamClosed(hist, m.joined)))
  {
    JoinAtomicity(cap, hist, m);
    var vs := Queue.Videos(m.q.delivered);
    assert m.offered == Owed(hist, m.joined);
    hide Queue.Videos, Run, InStream, Owed, SeamClosed, Faithful, LatestKeyframe, Broadcasts;
    forall k | 0 <= k < |vs|
      ensures vs[k].index != Seam(hist, m.joined) ==> InStream(hist, m.joined, vs, k)
      ensures vs[k].index == Seam(hist, m.joined) ==>
                (InStream(hist, m.joined, vs, k) <==> vs[k].keyframe || SeamClosed(hist, m.joined))
    {
      StreamAt(m, hist, vs, k);
    }
    if |vs| > 1 && vs[0].index < Seam(hist, m.joined) {
      AfterPrime(hist, m.joined, vs);
    }
  }

  lemma AfterPrime(hist: seq<Event>, joined: nat, vs: seq<Queue.Item>)
    requires joined < |hist| && |vs| > 1 && Queue.Contiguous(vs) && vs[0].Video? && vs[0].index < Seam(hist, joined)
    requires forall v :: v in vs ==> v.Video?
    ensures vs[1].index == Seam(hist, joined) || (vs[1].keyframe && InStream(hist, joined, vs, 1))
  {
    assert Queue.Follows(vs, 1);
  }

  /** The seam left open: a keyframe and a frame after it are broadcast, a client joins, another frame
      is broadcast. The client is sent the keyframe and the last frame; the one in between is missing. */
  lemma StalePrime(cap: nat, k: Bytes, p1: Bytes, p2: Bytes)
    requires cap >= 2
    ensures var hist := [Broadcast(Frame(k, true)), Broadcast(Frame(p1, false)), Register([]),
                         Broadcast(Frame(p2, false)), Send(2, Pops), Send(2, Pops)];
            var ms := Run(cap, hist).members;
            && |ms| == 1 && ms[0].joined == 2
            && Queue.Videos(ms[0].q.delivered) == [Queue.Video(k, true, 0), Queue.Video(p2, false, 1)]
            && !InStream(hist, 2, Queue.Videos(ms[0].q.delivered), 1)
  {
    var hist := [Broadcast(Frame(k, true)), Broadcast(Frame(p1, false)), Register([]),
                 Broadcast(Frame(p2, false)), Send(2, Pops), Send(2, Pops)];
    StaleJoin(cap, k, p1);
    StaleStream(cap, k, p2);
    StalePositions(hist, k, p1);
    hide *;
    RunUnfolds(cap, hist[..1]);
    RunUnfolds(cap, hist[..2]);
    RunUnfolds(cap, hist[..3]);
    RunUnfolds(cap, hist[..4]);
    RunUnfolds(cap, hist[..5]);
    RunUnfolds(cap, hist);
    assert hist[..1][..0] == [] && hist[..2][..1] == hist[..1] && hist[..3][..2] == hist[..2];
    assert hist[..4][..3] == hist[..3] && hist[..5][..4] == hist[..4] && hist[..6][..5] == hist[..5] && hist[..6] == hist;
    RunOfNone(cap);
    StaleGap(hist, k, p2);
  }

  lemma RunOfNone(cap: nat)
    ensures Run(cap, []) == Init(cap)
  {
  }

  /** The queue of the stale joiner with these items left and these delivered. */
  function StaleQueue(cap: nat, items: seq<Queue.Item>, pushes: nat, delivered: seq<Queue.Item>): Queue.State
  {
    Queue.State(items, false, false, cap, pushes, delivered)
  }

  function StaleState(cap: nat, k: Bytes, q: Queue.State, offered: seq<Frame>, time: nat): State
  {
    State([Member(q, true, 2, offered)], Some(k), map[], cap, time)
  }

  lemma StaleJoin(cap: nat, k: Bytes, p1: Bytes)
    requires cap >= 2
    ensures Step(Step(Step(Init(cap), Broadcast(Frame(k, true))), Broadcast(Frame(p1, false))), Register([])) ==
            StaleState(cap, k, StaleQueue(cap, [Queue.Video(k, true, 0)], 1, []), [Frame(k, true)], 3)
  {
    assert Fan([], Frame(k, true)) == [] && Fan([], Frame(p1, false)) == [];
    var s := State([], Some(k), map[], cap, 2);
    assert Primes(s.planes, []) == [];
    assert Joiner(s, []) == Member(StaleQueue(cap, [Queue.Video(k, true, 0)], 1, []), true, 2, [Frame(k, true)]);
  }

  lemma FanOne(m: Member, f: Frame)
    requires m.alive
    ensures Fan([m], f) == [Offer(m, f)]
  {
    assert [m][..0] == [];
  }

  lemma ApplyOne(m: Member, act: SendAct)
    ensures Apply([m], m.joined, act) == [AfterSend(m, act)]
  {
    assert [m][..0] == [];
  }

  lemma StaleStream(cap: nat, k: Bytes, p2: Bytes)
    requires cap >= 2
    ensures var v0, v1 := Queue.Video(k, true, 0), Queue.Video(p2, false, 1);
            var s := StaleState(cap, k, StaleQueue(cap, [v0], 1, []), [Frame(k, true)], 3);
            Step(Step(Step(s, Broadcast(Frame(p2, false))), Send(2, Pops)), Send(2, Pops)) ==
            StaleState(cap, k, StaleQueue(cap, [], 2, [v0, v1]), [Frame(k, true), Frame(p2, false)], 6)
  {
    var v0, v1 := Queue.Video(k, true, 0), Queue.Video(p2, false, 1);
    var offered := [Frame(k, true), Frame(p2, false)];
    var s := StaleState(cap, k, StaleQueue(cap, [v0], 1, []), [Frame(k, true)], 3);
    FanOne(s.members[0], Frame(p2, false));
    hide Fan, Apply;
    assert [v0] + [v1] == [v0, v1] && [Frame(k, true)] + [Frame(p2, false)] == offered;
    var s4 := StaleState(cap, k, StaleQueue(cap, [v0, v1], 2, []), offered, 4);
    assert Step(s, Broadcast(Frame(p2, false))) == s4;
    ApplyOne(s4.members[0], Pops);
    assert [v0, v1][1..] == [v1] && [] + [v0] == [v0];
    var s5 := StaleState(cap, k, StaleQueue(cap, [v1], 2, [v0]), offered, 5);
    assert Step(s4, Send(2, Pops)) == s5;
    ApplyOne(s5.members[0], Pops);
    assert [v1][1..] == [] && [v0] + [v1] == [v0, v1];
  }

  lemma StalePositions(hist: seq<Event>, k: Bytes, p1: Bytes)
    requires |hist| > 2 && hist[0] == Broadcast(Frame(k, true)) && hist[1] == Broadcast(Frame(p1, false))
    ensures Seam(hist, 2) == 1 && Position(hist, 2, 0) == 0 && Position(hist, 2, 1) == 2
  {
    var h1, h2 := [hist[0]], [hist[0], hist[1]];
    assert hist[..2] == h2 && h2[..1] == h1 && h1[..0] == [];
    assert Broadcasts([]) == [] && Broadcasts(h1) == [Frame(k, true)] && LatestKeyframe(h1) == Some(k);
    assert LatestKeyframe(h2) == Some(k) && |Broadcasts(h2)| == 2;
    assert KeyframePosition(h1) == 0 && KeyframePosition(h2) == 0;
  }

  lemma StaleGap(hist: seq<Event>, k: Bytes, p2: Bytes)
    requires |hist| > 2 && Position(hist, 2, 0) == 0 && Position(hist, 2, 1) == 2
    ensures var vs := [Queue.Video(k, true, 0), Queue.Video(p2, false, 1)];
            Queue.Videos(vs) == vs && !InStream(hist, 2, vs, 1)
  {
    var v0, v1 := Queue.Video(k, true, 0), Queue.Video(p2, false, 1);
    assert [v0, v1][..1] == [v0] && [v0][..0] == [] && Queue.Videos([]) == [];
    assert Queue.Videos([v0]) == [v0];
    hide Position;
  }

  /** When the next broadcast leaves a joiner's prime in its queue: exactly when prime and frame fit,
      control messages counted. With a keyframe and a cursor's two messages that takes a capacity of
      four; otherwise the whole prime is shed. */
  lemma PrimeSurvivesIff(s: State, order: seq<u32>, f: Frame)
    requires s.cap >= 1
    ensures var q := Joiner(s, order).q;
            && |q.items| == |PrimedFrames(s.lastKeyframe)| + |Primes(s.planes, order)|
            && Offer(Joiner(s, order), f).q.items ==
               if |q.items| < s.cap then q.items + [Queue.Video(f.msg, f.keyframe, q.pushes)] else []
  {
    var q := if s.lastKeyframe.Some? then Queue.AfterPush(Queue.Init(s.cap), s.lastKeyframe.value, true)
             else Queue.Init(s.cap);
    PushControlsGrow(q, Primes(s.planes, order));
    hide PushControls, Primes;
  }

  lemma {:induction false} PushControlsGrow(q: Queue.State, msgs: seq<Bytes>)
    requires !q.closed
    ensures var r := PushControls(q, msgs);
            && |r.items| == |q.items| + |msgs| && !r.closed && r.dropping == q.dropping && r.cap == q.cap
            && r.pushes == q.pushes
  {
    if msgs != [] {
      PushControlsGrow(q, msgs[..|msgs| - 1]);
    }
  }

  // ---- A joiner sees the cursor ----

  /** The sideband messages since the planes were last forgotten. */
  function Controls(hist: seq<Event>): seq<Event>
  {
    if hist == [] then []
    else
      var e := hist[|hist| - 1];
      if e.ResetPlanes? then []
      else Controls(hist[..|hist| - 1]) + if e.BroadcastControl? then [e] else []
  }

  /** The event by which the device sends one cursor message. */
  function CursorEvent(m: Planes.Sent): Event
  {
    BroadcastControl(0, m.h.op, Planes.Wire(m))
  }

  function CursorEvents(ms: seq<Planes.Sent>): seq<Event>
  {
    if ms == [] then [] else CursorEvents(ms[..|ms| - 1]) + [CursorEvent(ms[|ms| - 1])]
  }

  /** `order` runs through the keys, each once, as a map's iterator does. */
  predicate Enumerates(order: seq<u32>, keys: set<u32>)
  {
    |order| == |keys| && forall id :: id in keys ==> id in order
  }

  predicate CursorOnly(planes: map<u32, Planes.PlaneCache>, ms: seq<Planes.Sent>)
  {
    && planes.Keys == (if ms == [] then {} else {0})
    && CacheOf(planes, 0) == Planes.CacheAfter(ms)
  }

  lemma CachesCursor(planes: map<u32, Planes.PlaneCache>, ms: seq<Planes.Sent>)
    requires ms != [] && Planes.WellFormed(ms[|ms| - 1]) && CursorOnly(planes, ms[..|ms| - 1])
    ensures var m := ms[|ms| - 1]; CursorOnly(CachePlane(planes, 0, m.h.op, Planes.Wire(m)), ms)
  {
    hide Planes.Wire;
  }

  lemma {:induction false} SnocEvents(es: seq<Event>, e: Event, ms: seq<Planes.Sent>)
    requires es + [e] == CursorEvents(ms)
    ensures ms != [] && e == CursorEvent(ms[|ms| - 1]) && es == CursorEvents(ms[..|ms| - 1])
  {
    assert (es + [e])[..|es|] == es && (es + [e])[|es|] == e;
    hide CursorEvent;
  }

  lemma {:induction false} PlanesAfter(cap: nat, hist: seq<Event>, ms: seq<Planes.Sent>)
    requires (forall m :: m in ms ==> Planes.WellFormed(m)) && Controls(hist) == CursorEvents(ms)
    ensures CursorOnly(Run(cap, hist).planes, ms)
  {
    if hist != [] && !hist[|hist| - 1].ResetPlanes? {
      var init, e := hist[..|hist| - 1], hist[|hist| - 1];
      if e.BroadcastControl? {
        SnocEvents(Controls(init), e, ms);
        PlanesAfter(cap, init, ms[..|ms| - 1]);
        CachesCursor(Run(cap, init).planes, ms);
      } else {
        PlanesAfter(cap, init, ms);
      }
      hide CursorOnly, CachePlane, Joiner, Fan, FanControl, Apply, Planes.WellFormed;
    } else {
      assert ms == [];
    }
  }

  /** The sideband messages among `items`. */
  function Told(items: seq<Queue.Item>): seq<Bytes>
  {
    if items == [] then []
    else Told(items[..|items| - 1]) + if items[|items| - 1].Control? then [items[|items| - 1].msg] else []
  }

  lemma {:induction false} ToldControls(q: Queue.State, msgs: seq<Bytes>)
    requires !q.closed
    ensures Told(PushControls(q, msgs).items) == Told(q.items) + msgs && !PushControls(q, msgs).closed
  {
    if msgs != [] {
      var init := msgs[..|msgs| - 1];
      ToldControls(q, init);
      ToldSnoc(PushControls(q, init).items, msgs[|msgs| - 1]);
      assert init + [msgs[|msgs| - 1]] == msgs;
      hide Told;
    }
  }

  lemma ToldSnoc(items: seq<Queue.Item>, msg: Bytes)
    ensures Told(items + [Queue.Control(msg)]) == Told(items) + [msg]
  {
    assert (items + [Queue.Control(msg)])[..|items|] == items;
  }

  lemma EnumeratesFew(order: seq<u32>, keys: set<u32>)
    requires Enumerates(order, keys)
    ensures keys == {} ==> order == []
    ensures keys == {0} ==> order == [0]
  {
    if keys == {0} {
      assert 0 in order;
    }
  }

  lemma PrimesCursor(planes: map<u32, Planes.PlaneCache>, order: seq<u32>, ms: seq<Planes.Sent>)
    requires CursorOnly(planes, ms) && Enumerates(order, planes.Keys)
    ensures Primes(planes, order) == Planes.Prime(Planes.CacheAfter(ms))
  {
    EnumeratesFew(order, planes.Keys);
    assert Primes(planes, []) == [];
    hide Planes.CacheAfter;
  }

  lemma JoinerTold(s: State, order: seq<u32>)
    requires s.cap >= 1
    ensures Told(Joiner(s, order).q.items) == Primes(s.planes, order)
  {
    var q := if s.lastKeyframe.Some? then Queue.AfterPush(Queue.Init(s.cap), s.lastKeyframe.value, true)
             else Queue.Init(s.cap);
    assert Told(q.items) == [] by {
      if s.lastKeyframe.Some? {
        assert q.items == [Queue.Video(s.lastKeyframe.value, true, 0)];
        assert q.items[..0] == [];
      }
    }
    ToldControls(q, Primes(s.planes, order));
    hide Told, PushControls, Primes;
  }

  /** Whatever else the run did, a client joining after any history of well-formed cursor messages is
      queued just what brings a fresh viewer to the state of one that has seen them all. */
  lemma JoinerSeesCursor(cap: nat, hist: seq<Event>, order: seq<u32>, ms: seq<Planes.Sent>)
    requires cap >= 1 && Enumerates(order, Run(cap, hist).planes.Keys)
    requires (forall m :: m in ms ==> Planes.WellFormed(m)) && Controls(hist) == CursorEvents(ms)
    ensures Planes.SeeAll(Planes.FRESH, Told(Joiner(Run(cap, hist), order).q.items)) ==
            Planes.SeeAll(Planes.FRESH, Planes.History(ms))
  {
    PlanesAfter(cap, hist, ms);
    RunKeepsInv(cap, hist);
    PrimesCursor(Run(cap, hist).planes, order, ms);
    JoinerTold(Run(cap, hist), order);
    Planes.LateJoinerSeesTheSame(ms);
    hide *;
  }

  // ---- The objects ----

  class Client {
    const q: Queue.ClientQueue
    var alive: bool
    ghost const joined: nat
    ghost var offered: seq<Frame>

    ghost function Value(): Member
      reads this, q
    {
      Member(q.Value(), alive, joined, offered)
    }

    constructor (q: Queue.ClientQueue, ghost joined: nat, ghost offered: seq<Frame>)
      ensures this.q == q && alive && this.joined == joined && this.offered == offered
    {
      this.q, alive := q, true;
      this.joined, this.offered := joined, offered;
    }

    method Push(msg: Bytes, keyframe: bool) returns (shed: bool)
      requires q.Valid()
      modifies q, `offered
      ensures q.Valid() && Value() == Offer(old(Value()), Frame(msg, keyframe))
      ensures shed <==> !old(q.dropping) && q.dropping
    {
      shed := q.Push(msg, keyframe);
      offered := offered + [Frame(msg, keyframe)];
    }
  }

  /** No two clients share a queue. */
  ghost predicate Distinct(cs: seq<Client>)
  {
    forall i, j :: 0 <= i < j < |cs| ==> cs[i] != cs[j] && cs[i].q != cs[j].q
  }

  ghost predicate Sound(cs: seq<Client>, cap: nat)
    reads set c | c in cs :: c.q
  {
    Distinct(cs) && forall c :: c in cs ==> c.q.Valid() && c.q.cap == cap
  }

  ghost function Values(cs: seq<Client>): (ms: seq<Member>)
    reads cs, set c | c in cs :: c.q
    ensures |ms| == |cs|
  {
    if cs == [] then [] else Values(cs[..|cs| - 1]) + [cs[|cs| - 1].Value()]
  }

  lemma {:induction false} ValuesAt(cs: seq<Client>)
    ensures forall i :: 0 <= i < |cs| ==> Values(cs)[i] == cs[i].Value()
  {
    if cs != [] {
      ValuesAt(cs[..|cs| - 1]);
    }
  }

  lemma {:induction false} ValuesSnoc(cs: seq<Client>, c: Client)
    ensures Values(cs + [c]) == Values(cs) + [c.Value()]
  {
    assert (cs + [c])[..|cs|] == cs;
  }

  lemma {:induction false} FanNone(ms: seq<Member>, f: Frame, msg: Bytes)
    ensures Values([]) == [] && Fan(ms[..0], f) == [] && FanControl(ms[..0], msg) == []
  {
  }

  lemma {:induction false} FanNext(ms: seq<Member>, i: nat, f: Frame, msg: Bytes)
    requires i < |ms|
    ensures Fan(ms[..i + 1], f) == Fan(ms[..i], f) + if ms[i].alive then [Offer(ms[i], f)] else []
    ensures FanControl(ms[..i + 1], msg) == FanControl(ms[..i], msg) + if ms[i].alive then [Tell(ms[i], msg)] else []
  {
    assert ms[..i + 1][..i] == ms[..i];
  }

  lemma {:induction false} PushControlsConcat(q: Queue.State, xs: seq<Bytes>, ys: seq<Bytes>)
    ensures PushControls(q, xs + ys) == PushControls(PushControls(q, xs), ys)
  {
    if ys == [] {
      assert xs + ys == xs;
    } else {
      assert (xs + ys)[..|xs + ys| - 1] == xs + ys[..|ys| - 1];
      PushControlsConcat(q, xs, ys[..|ys| - 1]);
    }
  }

  lemma {:induction false} PushControlsFew(q: Queue.State, a: Bytes, b: Bytes)
    ensures PushControls(q, []) == q
    ensures PushControls(q, [a]) == Queue.AfterControl(q, a)
    ensures PushControls(q, [a, b]) == Queue.AfterControl(Queue.AfterControl(q, a), b)
  {
    assert [a, b][..1] == [a] && [a][..0] == [];
  }

  lemma {:induction false} PrimesSnoc(planes: map<u32, Planes.PlaneCache>, order: seq<u32>, id: u32)
    ensures Primes(planes, order + [id]) == Primes(planes, order) + Planes.Prime(CacheOf(planes, id))
  {
    assert (order + [id])[..|order|] == order;
  }

  lemma EnumeratesNone(keys: set<u32>)
    ensures Enumerates([], keys - keys)
  {
    assert keys - keys == {};
  }

  lemma EnumeratesNext(order: seq<u32>, keys: set<u32>, remaining: set<u32>, id: u32)
    requires id in remaining && remaining <= keys && Enumerates(order, keys - remaining)
    ensures Enumerates(order + [id], keys - (remaining - {id}))
  {
    assert keys - (remaining - {id}) == keys - remaining + {id};
  }

  lemma PrimesNone(q: Queue.State, planes: map<u32, Planes.PlaneCache>)
    ensures PushControls(q, Primes(planes, [])) == q
  {
  }

  class Hub {
    var clients: seq<Client>
    var lastKeyframe: Option<Bytes>
    var planes: map<u32, Planes.PlaneCache>
    var keyframeRequested: bool
    const cap: nat
    ghost var time: nat

    ghost predicate Valid()
      reads this, clients, set c | c in clients :: c.q
    {
      cap >= 1 && Sound(clients, cap)
    }

    ghost function Value(): State
      reads this, clients, set c | c in clients :: c.q
    {
      State(Values(clients), lastKeyframe, planes, cap, time)
    }

    constructor (cap: nat)
      requires cap >= 1
      ensures Valid() && Value() == Init(cap) && !keyframeRequested
    {
      clients, lastKeyframe, planes, keyframeRequested := [], None, map[], false;
      this.cap, time := cap, 0;
    }

    /** The closure `broadcast` gives to `retain`: a dead client is closed and dropped, a living
        one is pushed the message and stays. */
    method Retain(kept: seq<Client>, c: Client, msg: Bytes, keyframe: bool) returns (more: seq<Client>)
      requires Sound(kept, cap) && c.q.Valid() && c.q.cap == cap
      requires forall x :: x in kept ==> x != c && x.q != c.q
      modifies c, c.q
      ensures Sound(more, cap) && c.q.Valid() && more == if old(c.alive) then kept + [c] else kept
      ensures Values(more) == old(Values(kept)) +
              if old(c.alive) then [Offer(old(c.Value()), Frame(msg, keyframe))] else []
      ensures !old(c.alive) ==> c.q.closed && c.q.items == []
    {
      hide Values, Offer;
      if c.alive {
        var _ := c.Push(msg, keyframe);
        ValuesSnoc(kept, c);
        more := kept + [c];
      } else {
        c.q.Close();
        more := kept;
      }
    }

    method RetainControl(kept: seq<Client>, c: Client, msg: Bytes) returns (more: seq<Client>)
      requires Sound(kept, cap) && c.q.Valid() && c.q.cap == cap
      requires forall x :: x in kept ==> x != c && x.q != c.q
      modifies c.q
      ensures Sound(more, cap) && c.q.Valid() && more == if c.alive then kept + [c] else kept
      ensures Values(more) == old(Values(kept)) + if c.alive then [Tell(old(c.Value()), msg)] else []
      ensures !c.alive ==> c.q.closed && c.q.items == []
    {
      hide Values;
      if c.alive {
        c.q.PushControl(msg);
        ValuesSnoc(kept, c);
        more := kept + [c];
      } else {
        c.q.Close();
        more := kept;
      }
    }

    /** The `retain` pass over the clients. */
    method FanOut(msg: Bytes, keyframe: bool) returns (kept: seq<Client>)
      requires Valid()
      modifies clients, set c | c in clients :: c.q
      ensures Sound(kept, cap) && forall c :: c in kept ==> c in clients
      ensures Values(kept) == Fan(old(Values(clients)), Frame(msg, keyframe))
      ensures forall c :: c in clients && c !in kept ==> c.q.closed && c.q.items == []
    {
      hide Fan, Values, Offer, Queue.ClientQueue.Valid, Queue.ClientQueue.Value;
      ghost var f := Frame(msg, keyframe);
      ghost var ms := Values(clients);
      ValuesAt(clients);
      FanNone(ms, f, msg);
      kept := [];
      for i := 0 to |clients|
        invariant forall c :: c in kept ==> c in clients[..i]
        invariant Sound(kept, cap)
        invariant Values(kept) == Fan(ms[..i], f)
        invariant forall c :: c in clients[..i] && c !in kept ==> c.q.closed && c.q.items == []
        invariant forall j :: i <= j < |clients| ==>
          clients[j].Value() == ms[j] && clients[j].q.Valid()
      {
        FanNext(ms, i, f, []);
        kept := Retain(kept, clients[i], msg, keyframe);
      }
      assert ms[..|clients|] == ms;
    }

    method Broadcast(msg: Bytes, keyframe: bool)
      requires Valid()
      modifies this, clients, set c | c in clients :: c.q
      ensures Valid() && Value() == Step(old(Value()), Event.Broadcast(Frame(msg, keyframe)))
      ensures forall c :: c in old(clients) && c !in clients ==> c.q.closed && c.q.items == []
      ensures keyframeRequested == old(keyframeRequested)
    {
      hide Values, Fan, Sound, Distinct;
      if keyframe {
        lastKeyframe := Some(msg);
      }
      clients := FanOut(msg, keyframe);
      time := time + 1;
    }

    method FanOutControl(msg: Bytes) returns (kept: seq<Client>)
      requires Valid()
      modifies set c | c in clients :: c.q
      ensures Sound(kept, cap) && forall c :: c in kept ==> c in clients
      ensures Values(kept) == FanControl(old(Values(clients)), msg)
      ensures forall c :: c in clients && c !in kept ==> c.q.closed && c.q.items == []
    {
      hide FanControl, Values;
      ghost var ms := Values(clients);
      ValuesAt(clients);
      FanNone(ms, Frame([], false), msg);
      kept := [];
      for i := 0 to |clients|
        invariant forall c :: c in kept ==> c in clients[..i]
        invariant Sound(kept, cap)
        invariant Values(kept) == FanControl(ms[..i], msg)
        invariant forall c :: c in clients[..i] && c !in kept ==> c.q.closed && c.q.items == []
        invariant forall j :: i <= j < |clients| ==>
          clients[j].Value() == ms[j] && clients[j].q.Valid()
      {
        FanNext(ms, i, Frame([], false), msg);
        kept := RetainControl(kept, clients[i], msg);
      }
      assert ms[..|clients|] == ms;
    }

    method BroadcastControl(plane: u32, op: byte, msg: Bytes)
      requires Valid()
      modifies this, set c | c in clients :: c.q
      ensures Valid() && Value() == Step(old(Value()), Event.BroadcastControl(plane, op, msg))
      ensures forall c :: c in old(clients) && c !in clients ==> c.q.closed && c.q.items == []
      ensures keyframeRequested == old(keyframeRequested)
    {
      hide Values, FanControl, Sound;
      var old_ := CacheOf(planes, plane);
      if op == Planes.DEFINE {
        planes := planes[plane := old_.(lastDefine := Some(msg), lastMove := None)];
      } else if op == Planes.MOVE {
        planes := planes[plane := old_.(lastMove := Some(msg))];
      } else if op == Planes.DESTROY {
        planes := planes - {plane};
      }
      clients := FanOutControl(msg);
      time := time + 1;
    }

    method ResetKeyframe()
      requires Valid()
      modifies this
      ensures Valid() && Value() == Step(old(Value()), Event.ResetKeyframe)
      ensures keyframeRequested == old(keyframeRequested)
    {
      lastKeyframe := None;
      time := time + 1;
    }

    method ResetPlanes()
      requires Valid()
      modifies this
      ensures Valid() && Value() == Step(old(Value()), Event.ResetPlanes)
      ensures keyframeRequested == old(keyframeRequested)
    {
      planes := map[];
      time := time + 1;
    }

    method PrimePlane(q: Queue.ClientQueue, cache: Planes.PlaneCache)
      requires q.Valid()
      modifies q
      ensures q.Valid() && q.Value() == PushControls(old(q.Value()), Planes.Prime(cache))
    {
      if cache.lastDefine.Some? {
        q.PushControl(cache.lastDefine.value);
      }
      if cache.lastMove.Some? {
        q.PushControl(cache.lastMove.value);
      }
      hide PushControls, Queue.AfterControl;
      PushControlsFew(old(q.Value()), if cache.lastDefine.Some? then cache.lastDefine.value else [],
                      if cache.lastMove.Some? then cache.lastMove.value else []);
      PushControlsFew(old(q.Value()), if cache.lastMove.Some? then cache.lastMove.value else [], []);
    }

    /** Queues the cached messages of every plane, in whatever order the map yields them. */
    method PrimePlanes(q: Queue.ClientQueue) returns (ghost order: seq<u32>)
      requires q.Valid()
      modifies q
      ensures q.Valid() && Enumerates(order, planes.Keys)
      ensures q.Value() == PushControls(old(q.Value()), Primes(planes, order))
    {
      hide PushControls, Primes, Planes.Prime, Enumerates;
      order := [];
      var remaining := planes.Keys;
      ghost var start := q.Value();
      PrimesNone(start, planes);
      assert Enumerates(order, planes.Keys - remaining) by { EnumeratesNone(planes.Keys); }
      while remaining != {}
        invariant q.Valid() && remaining <= planes.Keys
        invariant Enumerates(order, planes.Keys - remaining)
        invariant q.Value() == PushControls(start, Primes(planes, order))
        decreases |remaining|
      {
        var id :| id in remaining;
        PrimePlane(q, planes[id]);
        EnumeratesNext(order, planes.Keys, remaining, id);
        PrimesSnoc(planes, order, id);
        PushControlsConcat(start, Primes(planes, order), Planes.Prime(planes[id]));
        order, remaining := order + [id], remaining - {id};
      }
      assert planes.Keys - remaining == planes.Keys;
    }

    /** What `register` does under the lock before it lists the client. */
    method MakeClient() returns (c: Client, ghost order: seq<u32>)
      requires Valid()
      ensures fresh(c) && fresh(c.q) && c.q.Valid() && c.q.cap == cap
      ensures Enumerates(order, planes.Keys) && c.Value() == Joiner(Value(), order)
    {
      hide Values, PushControls, Primes, Enumerates, Queue.AfterPush, Sound;
      var q := new Queue.ClientQueue(cap);
      if lastKeyframe.Some? {
        var _ := q.Push(lastKeyframe.value, true);
      }
      order := PrimePlanes(q);
      c := new Client(q, time, PrimedFrames(lastKeyframe));
    }

    /** The section of `register` under the lock, and the keyframe request after it. */
    method Register() returns (c: Client, ghost order: seq<u32>)
      requires Valid()
      modifies this
      ensures Valid() && Enumerates(order, planes.Keys)
      ensures Value() == Step(old(Value()), Event.Register(order))
      ensures fresh(c) && fresh(c.q) && clients == old(clients) + [c] && keyframeRequested
    {
      hide Values, Enumerates, Joiner;
      c, order := MakeClient();
      ValuesSnoc(clients, c);
      clients := clients + [c];
      keyframeRequested := true;
      time := time + 1;
    }

    /** Reports a pending request at most once. */
    method TakeKeyframeRequest() returns (pending: bool)
      modifies `keyframeRequested
      ensures pending == old(keyframeRequested) && !keyframeRequested
    {
      pending := keyframeRequested;
      keyframeRequested := false;
    }
  }
}
