/**
 The host's two-phase bounded drain and the fences it resolves.

 A `Sys` is the shared ring, the host's position inside `drain_ctx` and the log of finished
 `execute_descriptor` calls. Guest actions interleave freely with the drain's; a guest descriptor
 carries the seqno the driver stamps, `(u64)tail + 1`.
 */
module Drain {
  import opened Words
  import Ring

  datatype Descriptor = Descriptor(
    msgType: u32, flags: u32, len: u32, dataOffset: u32, seqno: u64, payloadAddr: u64)

  type RingState = Ring.State<Descriptor>

  /** The host inside `drain_ctx`: phase 1 pops, phase 2 executes, phase 3 retires. */
  datatype Host =
    | Asleep
    | Popping(batch: seq<Descriptor>, hi: u64)
    | Executing(batch: seq<Descriptor>, done: nat, hi: u64)
    | Retiring(hi: u64)

  datatype Sys = Sys(ring: RingState, host: Host, executed: seq<Descriptor>)

  datatype Action =
    | Guest(a: Ring.Action<Descriptor>)
    | Doorbell
    | Pop(a: Ring.Action<Descriptor>)
    | BatchFull
    | Execute
    | EndExecute
    | RetireBatch

  predicate GuestAction(a: Ring.Action<Descriptor>)
  {
    a.StartPush? || a.LoadHead? || a.WriteSlot? || a.StoreSubmit? || a.StoreTail?
  }

  /** The driver stamps `seqno = tail + 1`; any other descriptor is not an honest producer's. */
  predicate Honest(s: RingState, a: Ring.Action<Descriptor>)
  {
    a.StartPush? ==> a.item.seqno == s.tail + 1
  }

  predicate PopAction(s: Sys, a: Ring.Action<Descriptor>)
  {
    && s.host.Popping?
    && (a.StartPop? || a.LoadTail? || a.ReadSlot? || a.StoreHead?)
    && (a.StartPop? ==> |s.host.batch| < |s.ring.slots|)
  }

  function Max(a: u64, b: u64): u64 { if a < b then b else a }

  function Step(s: Sys, a: Action): Sys
    requires |s.ring.slots| > 0
  {
    match a
    case Guest(g) =>
      if GuestAction(g) && Honest(s.ring, g) then s.(ring := Ring.Step(s.ring, g)) else s
    case Doorbell =>
      if s.host.Asleep? then s.(host := Popping([], 0)) else s
    case Pop(g) =>
      if !PopAction(s, g) then s
      else
        var ring := Ring.Step(s.ring, g);
        if g.LoadTail? && s.ring.consumer.HeadLoaded? && ring.consumer.Waiting? then
          s.(ring := ring, host := Executing(s.host.batch, 0, s.host.hi))
        else if g.StoreHead? && s.ring.consumer.Taken? then
          var d := s.ring.consumer.taken;
          s.(ring := ring, host := Popping(s.host.batch + [d], Max(s.host.hi, d.seqno)))
        else s.(ring := ring)
    case BatchFull =>
      if s.host.Popping? && s.ring.consumer.Waiting? && |s.host.batch| >= |s.ring.slots|
      then s.(host := Executing(s.host.batch, 0, s.host.hi)) else s
    case Execute =>
      if s.host.Executing? && s.host.done < |s.host.batch|
      then s.(executed := s.executed + [s.host.batch[s.host.done]], host := s.host.(done := s.host.done + 1))
      else s
    case EndExecute =>
      if s.host.Executing? && s.host.done >= |s.host.batch| then s.(host := Retiring(s.host.hi)) else s
    case RetireBatch =>
      if !s.host.Retiring? then s
      else if s.host.hi > 0 then s.(ring := Ring.Step(s.ring, Ring.Retire(s.host.hi)), host := Asleep)
      else s.(host := Asleep)
  }

  function Run(s: Sys, actions: seq<Action>): (r: Sys)
    requires |s.ring.slots| > 0
    ensures |r.ring.slots| == |s.ring.slots|
    decreases |actions|
  {
    if actions == [] then s
    else Step(Run(s, actions[..|actions| - 1]), actions[|actions| - 1])
  }

  function Init(slots: seq<Descriptor>): Sys
  {
    Sys(Ring.Init(true, slots), Asleep, [])
  }

  /** The seqno of the `n`-th submission (1-based), 0 before the first. */
  function SeqnoAfter(n: nat): u64
  {
    if n == 0 then 0 else Residue(n - 1) + 1
  }

  lemma SeqnoMoves(n: nat)
    ensures SeqnoAfter(n + 1) != SeqnoAfter(n)
  {
  }

  // ---- The invariant, for as long as seqnos have not started to repeat ----

  ghost predicate SubmitInv(r: RingState)
  {
    && r.wide
    && (forall k :: 0 <= k < |r.pushed| ==> r.pushed[k].seqno == SeqnoAfter(k + 1))
    && (!r.producer.Idle? ==> r.producer.item.seqno == SeqnoAfter(|r.pushed| + 1))
    && r.submit == SeqnoAfter(if r.producer.Submitted? then |r.pushed| + 1 else |r.pushed|)
  }

  ghost predicate HostInv(s: Sys)
  {
    var r := s.ring;
    match s.host
    case Asleep =>
      r.consumer.Waiting? && s.executed == r.popped && r.retired == |s.executed|
    case Popping(batch, hi) =>
      && r.popped == s.executed + batch
      && r.retired == |s.executed|
      && hi == (if batch == [] then 0 else |r.popped|)
    case Executing(batch, done, hi) =>
      && r.consumer.Waiting?
      && done <= |batch|
      && r.popped == s.executed + batch[done..]
      && r.retired + done == |s.executed|
      && hi == (if batch == [] then 0 else |r.popped|)
    case Retiring(hi) =>
      && r.consumer.Waiting?
      && s.executed == r.popped
      && r.retired <= |s.executed|
      && hi == (if r.retired == |s.executed| then 0 else |s.executed|)
  }

  ghost predicate Inv(s: Sys)
  {
    Ring.Inv(s.ring) && SubmitInv(s.ring) && HostInv(s)
  }

  lemma GuestKeepsInv(s: Sys, g: Ring.Action<Descriptor>)
    requires Inv(s)
    ensures Inv(Step(s, Guest(g)))
  {
    if GuestAction(g) && Honest(s.ring, g) {
      Ring.StepKeepsInv(s.ring, g);
      GuestKeepsSubmitInv(s.ring, g);
    }
    hide Ring.Inv, SubmitInv;
  }

  lemma GuestKeepsSubmitInv(r: RingState, g: Ring.Action<Descriptor>)
    requires Ring.Inv(r) && SubmitInv(r) && GuestAction(g) && Honest(r, g)
    ensures SubmitInv(Ring.Step(r, g))
  {
  }

  lemma PopKeepsInv(s: Sys, g: Ring.Action<Descriptor>)
    requires Inv(s) && |s.ring.pushed| <= 0x1_0000_0000
    ensures Inv(Step(s, Pop(g)))
  {
    if PopAction(s, g) {
      Ring.StepKeepsInv(s.ring, g);
      PopKeepsSubmitInv(s.ring, g);
      PopKeepsHostInv(s, g);
      hide Ring.Inv, SubmitInv, HostInv, Ring.Step;
    }
  }

  lemma PopKeepsSubmitInv(r: RingState, g: Ring.Action<Descriptor>)
    requires Ring.Inv(r) && SubmitInv(r)
    requires g.StartPop? || g.LoadTail? || g.ReadSlot? || g.StoreHead?
    ensures SubmitInv(Ring.Step(r, g))
  {
  }

  lemma TakenIsNext(r: RingState)
    requires Ring.Inv(r) && SubmitInv(r) && r.consumer.Taken? && |r.pushed| <= 0x1_0000_0000
    ensures |r.popped| < |r.pushed|
    ensures r.consumer.taken.seqno == |r.popped| + 1
  {
    var c := |r.popped|;
    assert r.consumer.taken == r.pushed[c];
    SeqnoInRange(c + 1);
    hide Residue, SeqnoAfter;
  }

  lemma SeqnoInRange(n: nat)
    requires n <= 0x1_0000_0000
    ensures SeqnoAfter(n) == n
  {
  }

  lemma PopKeepsHostInv(s: Sys, g: Ring.Action<Descriptor>)
    requires Inv(s) && |s.ring.pushed| <= 0x1_0000_0000 && PopAction(s, g)
    ensures HostInv(Step(s, Pop(g)))
  {
    if s.ring.consumer.Taken? {
      TakenIsNext(s.ring);
    }
    assert |s.ring.slots| > 0;
    hide Ring.Inv, SubmitInv, Ring.Slot, WrapAdd, WrapSub;
    assert s.host.batch[0..] == s.host.batch;
    if g.StoreHead? && s.ring.consumer.Taken? {
      var d := s.ring.consumer.taken;
      assert s.executed + (s.host.batch + [d]) == s.ring.popped + [d];
    }
  }

  lemma PhaseKeepsInv(s: Sys, a: Action)
    requires Inv(s)
    requires !a.Guest? && !a.Pop?
    ensures Inv(Step(s, a))
  {
    match a
    case Execute =>
      if s.host.Executing? && s.host.done < |s.host.batch| {
        var b, n := s.host.batch, s.host.done;
        assert b[n..] == [b[n]] + b[n + 1..];
      }
    case EndExecute =>
      if s.host.Executing? && s.host.done >= |s.host.batch| {
        assert s.host.batch[s.host.done..] == [];
      }
    case BatchFull =>
      if s.host.Popping? {
        assert s.host.batch[0..] == s.host.batch;
      }
    case RetireBatch =>
      if s.host.Retiring? {
        Ring.StepKeepsInv(s.ring, Ring.Retire(s.host.hi));
      }
    case Doorbell =>
  }

  lemma StepKeepsInv(s: Sys, a: Action)
    requires Inv(s) && |s.ring.pushed| <= 0x1_0000_0000
    ensures Inv(Step(s, a))
  {
    match a
    case Guest(g) => GuestKeepsInv(s, g);
    case Pop(g) => PopKeepsInv(s, g);
    case _ => PhaseKeepsInv(s, a);
  }

  lemma {:induction false} RunKeepsInv(s: Sys, actions: seq<Action>)
    requires Inv(s) && |Run(s, actions).ring.pushed| <= 0x1_0000_0000
    ensures Inv(Run(s, actions))
    decreases |actions|
  {
    assert |s.ring.slots| > 0;
    hide Inv;
    if actions != [] {
      var t := Run(s, actions[..|actions| - 1]);
      StepPushedGrows(t, actions[|actions| - 1]);
      hide Step;
      RunKeepsInv(s, actions[..|actions| - 1]);
      StepKeepsInv(t, actions[|actions| - 1]);
    }
  }

  lemma InitInv(slots: seq<Descriptor>)
    requires Ring.GoodGeometry(|slots|)
    ensures Inv(Init(slots))
  {
  }

  // ---- Fences ----

  /** Once the shared `seqno_retired` word reads at least `n`, the first `n` submissions have all
      finished executing, in submission order; in particular the descriptor whose seqno the waiter
      asked for has. Holds at every point of every run, also while the guest pushes mid-drain. */
  lemma FenceSafety(slots: seq<Descriptor>, actions: seq<Action>, n: nat)
    requires Ring.GoodGeometry(|slots|)
    requires |Run(Init(slots), actions).ring.pushed| <= 0x1_0000_0000
    requires n <= Run(Init(slots), actions).ring.retired
    ensures Finished(Run(Init(slots), actions), n)
  {
    InitInv(slots);
    RunKeepsInv(Init(slots), actions);
    FenceInState(Run(Init(slots), actions), n);
  }

  /** The first `n` submissions, and the seqnos 1 to `n`, have finished executing. */
  ghost predicate Finished(s: Sys, n: nat)
  {
    && n <= |s.executed| && n <= |s.ring.pushed|
    && s.executed[..n] == s.ring.pushed[..n]
    && (forall i :: 0 <= i < n ==> s.executed[i].seqno == i + 1)
  }

  lemma FenceInState(s: Sys, n: nat)
    requires Inv(s) && |s.ring.pushed| <= 0x1_0000_0000 && n <= s.ring.retired
    ensures Finished(s, n)
  {
    ExecutedIsPrefix(s);
    forall i | 0 <= i < n ensures s.executed[i].seqno == i + 1 {
      assert s.executed[i] == s.ring.pushed[i];
    }
  }

  lemma ExecutedIsPrefix(s: Sys)
    requires Inv(s)
    ensures s.executed <= s.ring.popped <= s.ring.pushed
    ensures s.ring.retired <= |s.executed|
  {
  }

  lemma StepRetiresForward(s: Sys, a: Action)
    requires Inv(s) && |s.ring.pushed| <= 0x1_0000_0000
    ensures s.ring.retired <= Step(s, a).ring.retired
  {
  }

  lemma {:induction false} RunRetiresForward(s: Sys, actions: seq<Action>)
    requires Inv(s) && |Run(s, actions).ring.pushed| <= 0x1_0000_0000
    ensures s.ring.retired <= Run(s, actions).ring.retired
    decreases |actions|
  {
    assert |s.ring.slots| > 0;
    hide Inv;
    if actions != [] {
      var init := actions[..|actions| - 1];
      StepPushedGrows(Run(s, init), actions[|actions| - 1]);
      hide Step;
      RunRetiresForward(s, init);
      RunKeepsInv(s, init);
      StepRetiresForward(Run(s, init), actions[|actions| - 1]);
    }
  }

  lemma {:induction false} RunConcat(s: Sys, xs: seq<Action>, ys: seq<Action>)
    requires |s.ring.slots| > 0
    ensures Run(s, xs + ys) == Run(Run(s, xs), ys)
    decreases |ys|
  {
    hide Step;
    if ys == [] {
      assert xs + ys == xs;
    } else {
      var zs := xs + ys;
      assert zs[..|zs| - 1] == xs + ys[..|ys| - 1];
      RunConcat(s, xs, ys[..|ys| - 1]);
    }
  }

  /** The retired word never moves backwards in any run with at most `bound` submissions. */
  ghost predicate RetiredMonotone(slots: seq<Descriptor>, bound: nat)
    requires |slots| > 0
  {
    forall xs: seq<Action>, ys: seq<Action> ::
      |Run(Init(slots), xs + ys).ring.pushed| <= bound ==>
      Run(Init(slots), xs).ring.retired <= Run(Init(slots), xs + ys).ring.retired
  }

  /** Exactly how far the 32-bit tail carries the fence: monotone for every run of up to `bound`
      submissions if and only if `bound` is at most 2^32. */
  lemma RetiredMonotoneIff(slots: seq<Descriptor>, bound: nat)
    requires Ring.GoodGeometry(|slots|)
    ensures RetiredMonotone(slots, bound) <==> bound <= 0x1_0000_0000
  {
    InitInv(slots);
    if bound <= 0x1_0000_0000 {
      forall xs: seq<Action>, ys: seq<Action>
        | |Run(Init(slots), xs + ys).ring.pushed| <= bound
        ensures Run(Init(slots), xs).ring.retired <= Run(Init(slots), xs + ys).ring.retired
      {
        RunConcat(Init(slots), xs, ys);
        PushedGrows(Run(Init(slots), xs), ys);
        RunKeepsInv(Init(slots), xs);
        RunRetiresForward(Run(Init(slots), xs), ys);
      }
    } else {
      var xs := SubmitOneByOne(slots, 0x1_0000_0000);
      var s := Run(Init(slots), xs);
      var ys := OneRoundActions(s);
      OneRound(s);
      RunConcat(Init(slots), xs, ys);
      assert Run(Init(slots), xs + ys).ring.retired == 1;
      assert s.ring.retired == 0x1_0000_0000;
    }
  }

  lemma {:induction false} PushedGrows(s: Sys, actions: seq<Action>)
    requires |s.ring.slots| > 0
    ensures |s.ring.pushed| <= |Run(s, actions).ring.pushed|
    decreases |actions|
  {
    hide Step;
    if actions != [] {
      PushedGrows(s, actions[..|actions| - 1]);
      StepPushedGrows(Run(s, actions[..|actions| - 1]), actions[|actions| - 1]);
    }
  }

  lemma StepPushedGrows(s: Sys, a: Action)
    requires |s.ring.slots| > 0
    ensures |s.ring.pushed| <= |Step(s, a).ring.pushed|
  {
  }

  /** The `n`-th push, counting from 1, has had its descriptor executed. */
  ghost predicate ExecutedPush(s: Sys, n: nat)
  {
    0 < n <= |s.executed| && n <= |s.ring.pushed| && s.executed[n - 1] == s.ring.pushed[n - 1]
  }

  /** A waiter polls for the seqno its own push, the `n`-th, was stamped with. */
  ghost predicate WaiterServed(s: Sys, n: nat)
  {
    0 < n <= |s.ring.pushed| && s.ring.retired >= s.ring.pushed[n - 1].seqno ==> ExecutedPush(s, n)
  }

  /** No waiter is released before its descriptor has executed, at any point of any run with at most
      `bound` submissions. */
  ghost predicate FenceServes(slots: seq<Descriptor>, bound: nat)
    requires |slots| > 0
  {
    forall actions: seq<Action>, n: nat ::
      |Run(Init(slots), actions).ring.pushed| <= bound ==> WaiterServed(Run(Init(slots), actions), n)
  }

  lemma ServedInState(s: Sys, n: nat)
    requires Inv(s) && |s.ring.pushed| <= 0x1_0000_0000
    ensures WaiterServed(s, n)
  {
    ExecutedIsPrefix(s);
    hide Inv;
    if 0 < n <= |s.ring.pushed| {
      SeqnoInState(s, n);
    }
  }

  lemma SeqnoInState(s: Sys, n: nat)
    requires Inv(s) && 0 < n <= |s.ring.pushed| <= 0x1_0000_0000
    ensures s.ring.pushed[n - 1].seqno == n
  {
    hide Ring.Inv, HostInv;
    assert s.ring.pushed[n - 1].seqno == SeqnoAfter((n - 1) + 1);
  }

  /** The waiter's fence is sound for exactly as long as seqnos do not repeat: the push after the
      2^32-nd is stamped 1 again, which the retired word has long passed when it is published. */
  lemma FenceServesIff(slots: seq<Descriptor>, bound: nat)
    requires Ring.GoodGeometry(|slots|)
    ensures FenceServes(slots, bound) <==> bound <= 0x1_0000_0000
  {
    InitInv(slots);
    InitSlots(slots);
    hide *;
    if bound <= 0x1_0000_0000 {
      forall actions: seq<Action>, n: nat | |Run(Init(slots), actions).ring.pushed| <= bound
        ensures WaiterServed(Run(Init(slots), actions), n)
      {
        RunKeepsInv(Init(slots), actions);
        ServedInState(Run(Init(slots), actions), n);
      }
      ServesMeans(slots, bound);
    } else {
      PrematureRelease(slots, bound);
    }
  }

  lemma InitSlots(slots: seq<Descriptor>)
    requires Ring.GoodGeometry(|slots|)
    ensures |Init(slots).ring.slots| == |slots| > 0
  {
  }

  lemma ServesMeans(slots: seq<Descriptor>, bound: nat)
    requires |slots| > 0
    requires forall actions: seq<Action>, n: nat :: |Run(Init(slots), actions).ring.pushed| <= bound ==>
               WaiterServed(Run(Init(slots), actions), n)
    ensures FenceServes(slots, bound)
  {
    hide WaiterServed, Run, Init;
  }

  /** A run of 2^32 + 1 pushes whose last waiter is released while its descriptor is still queued. */
  lemma PrematureRelease(slots: seq<Descriptor>, bound: nat)
    requires Ring.GoodGeometry(|slots|) && bound > 0x1_0000_0000
    ensures !FenceServes(slots, bound)
  {
    InitInv(slots);
    InitSlots(slots);
    hide *;
    var xs := SubmitOneByOne(slots, 0x1_0000_0000);
    var s := Run(Init(slots), xs);
    var d := NextDescriptor(s);
    SettledMeans(s, 0x1_0000_0000);
    GuestRound(s, 0x1_0000_0000);
    RunConcat(Init(slots), xs, GuestActions(d));
    RunKeepsInv(Init(slots), xs);
    ExecutedIsPrefix(s);
    SettledRetired(s);
    NotServed(slots, bound, xs + GuestActions(d), d);
  }

  lemma SettledRetired(s: Sys)
    requires Settled(s, 0x1_0000_0000)
    ensures s.ring.retired == 0x1_0000_0000 && NextDescriptor(s).seqno == 1
  {
  }

  lemma NotServed(slots: seq<Descriptor>, bound: nat, actions: seq<Action>, d: Descriptor)
    requires |slots| > 0 && bound > 0x1_0000_0000 && |Init(slots).ring.slots| == |slots|
    requires var t := Run(Init(slots), actions);
             && |t.ring.pushed| == 0x1_0000_0001 && t.ring.pushed[0x1_0000_0000] == d && d.seqno == 1
             && t.ring.retired >= 1 && |t.executed| <= 0x1_0000_0000
    ensures !FenceServes(slots, bound)
  {
    hide Run, Init;
    assert !WaiterServed(Run(Init(slots), actions), 0x1_0000_0001);
  }

  // ---- One batch ----

  /** A batch holds at most a capacity of entries, counting the one being popped; outside phase 1 no
      pop is under way. */
  predicate BatchInv(s: Sys)
  {
    match s.host
    case Popping(batch, _) => |batch| + (if s.ring.consumer.Waiting? then 0 else 1) <= |s.ring.slots|
    case Executing(batch, _, _) => s.ring.consumer.Waiting? && |batch| <= |s.ring.slots|
    case _ => s.ring.consumer.Waiting?
  }

  lemma StepKeepsBatch(s: Sys, a: Action)
    requires |s.ring.slots| > 0 && BatchInv(s)
    ensures BatchInv(Step(s, a))
  {
  }

  /** However many pushes arrive while it runs, no drain takes more than a capacity of entries before
      it executes and retires them. */
  lemma {:induction false} BatchBounded(slots: seq<Descriptor>, actions: seq<Action>)
    requires |slots| > 0
    ensures BatchInv(Run(Init(slots), actions))
    ensures var h := Run(Init(slots), actions).host;
            (h.Popping? || h.Executing?) ==> |h.batch| <= |slots|
    decreases |actions|
  {
    if actions != [] {
      var init := actions[..|actions| - 1];
      BatchBounded(slots, init);
      StepKeepsBatch(Run(Init(slots), init), actions[|actions| - 1]);
    }
    hide Step;
  }

  // ---- A drain without concurrent pushes ----

  predicate HostOnly(actions: seq<Action>)
  {
    forall a :: a in actions ==> !a.Guest?
  }

  /** Phase 1 still has room for everything outstanding; later phases leave nothing behind. */
  ghost predicate QuietInv(s: Sys)
  {
    && s.ring.producer.Idle?
    && (if s.host.Popping?
        then |s.host.batch| + |s.ring.pushed| - |s.ring.popped| <= |s.ring.slots|
        else s.ring.pushed == s.ring.popped)
  }

  lemma {:induction false} QuietRun(s: Sys, actions: seq<Action>)
    requires Inv(s) && QuietInv(s) && |s.ring.pushed| <= 0x1_0000_0000
    requires HostOnly(actions)
    ensures var s' := Run(s, actions); Inv(s') && QuietInv(s') && s'.ring.pushed == s.ring.pushed
    decreases |actions|
  {
    if actions != [] {
      var init, a := actions[..|actions| - 1], actions[|actions| - 1];
      forall b | b in init ensures !b.Guest? { assert b in actions; }
      hide Inv, QuietInv, Step;
      QuietRun(s, init);
      var t := Run(s, init);
      assert a in actions;
      StepKeepsInv(t, a);
      QuietStep(t, a);
    }
  }

  lemma QuietStep(s: Sys, a: Action)
    requires Inv(s) && QuietInv(s) && !a.Guest?
    ensures QuietInv(Step(s, a)) && Step(s, a).ring.pushed == s.ring.pushed
  {
    if a.Pop? && PopAction(s, a.a) && a.a.LoadTail? && s.ring.consumer.HeadLoaded? {
      Ring.EmptyIsExact(s.ring);
    }
  }

  /** A drain that runs from a doorbell back to sleep with no push in between empties the ring and
      retires everything submitted, whatever was outstanding when it started. */
  lemma QuietDrainEmptiesRing(slots: seq<Descriptor>, before: seq<Action>, drain: seq<Action>)
    requires Ring.GoodGeometry(|slots|)
    requires var s := Run(Init(slots), before);
             s.host.Asleep? && s.ring.producer.Idle? && |s.ring.pushed| <= 0x1_0000_0000
    requires HostOnly(drain)
    requires Run(Step(Run(Init(slots), before), Doorbell), drain).host.Asleep?
    ensures Drained(Run(Step(Run(Init(slots), before), Doorbell), drain).ring,
                    Run(Init(slots), before).ring.pushed)
  {
    InitInv(slots);
    var s := Run(Init(slots), before);
    RunKeepsInv(Init(slots), before);
    WokenIsQuiet(s);
    var woken := Step(s, Doorbell);
    QuietRun(woken, drain);
    QuietSleepIsDrained(Run(woken, drain));
  }

  /** Nothing outstanding, everything submitted retired. */
  predicate Drained(r: RingState, pushed: seq<Descriptor>)
  {
    r.head == r.tail && r.popped == r.pushed == pushed && r.retired == r.submit == |pushed|
  }

  lemma WokenIsQuiet(s: Sys)
    requires Inv(s) && s.host.Asleep? && s.ring.producer.Idle?
    ensures var w := Step(s, Doorbell); Inv(w) && QuietInv(w) && w.ring == s.ring
  {
  }

  lemma QuietSleepIsDrained(s: Sys)
    requires Inv(s) && QuietInv(s) && s.host.Asleep? && |s.ring.pushed| <= 0x1_0000_0000
    ensures Drained(s.ring, s.ring.pushed)
  {
  }

  // ---- Submitting one message at a time, past the wrap ----

  predicate AtRest(s: Sys)
  {
    s.host.Asleep? && Ring.Quiescent(s.ring)
  }

  /** At rest, with everything pushed so far popped, executed and retired. */
  ghost predicate Settled(s: Sys, n: nat)
  {
    && AtRest(s) && Ring.Inv(s.ring) && s.ring.wide
    && s.ring.pushed == s.ring.popped && |s.ring.pushed| == n
    && s.ring.retired == SeqnoAfter(n)
  }

  function NextDescriptor(s: Sys): Descriptor
  {
    Descriptor(0, 0, 0, 0, s.ring.tail + 1, 0)
  }

  lemma {:induction false} RunSnoc(s: Sys, xs: seq<Action>, t: Sys, a: Action)
    requires |s.ring.slots| > 0 && Run(s, xs) == t
    ensures Run(s, xs + [a]) == Step(t, a)
  {
    hide Step;
    var ys := xs + [a];
    assert ys[..|ys| - 1] == xs;
  }

  function GuestActions(d: Descriptor): seq<Action>
  {
    [Guest(Ring.StartPush(d))] + [Guest(Ring.LoadHead)] + [Guest(Ring.WriteSlot)] +
    [Guest(Ring.StoreSubmit)] + [Guest(Ring.StoreTail)] + [Doorbell]
  }

  function PopActions(): seq<Action>
  {
    [Pop(Ring.StartPop)] + [Pop(Ring.LoadTail)] + [Pop(Ring.ReadSlot)] + [Pop(Ring.StoreHead)]
  }

  function EmptyActions(): seq<Action>
  {
    [Pop(Ring.StartPop)] + [Pop(Ring.LoadTail)] + [BatchFull]
  }

  function FinishActions(): seq<Action>
  {
    [Execute] + [EndExecute] + [RetireBatch]
  }

  function OneRoundActions(s: Sys): seq<Action>
  {
    GuestActions(NextDescriptor(s)) + PopActions() + EmptyActions() + FinishActions()
  }

  lemma GuestRound(s: Sys, n: nat)
    requires Settled(s, n)
    ensures var d := NextDescriptor(s);
            var s1 := Run(s, GuestActions(d));
            && s1.host == Popping([], 0) && Ring.Inv(s1.ring) && s1.ring.wide
            && Ring.Quiescent(s1.ring)
            && s1.ring.pushed == s.ring.pushed + [d] && s1.ring.popped == s.ring.popped
            && s1.ring.retired == s.ring.retired && |s1.ring.slots| == |s.ring.slots|
            && s1.executed == s.executed
  {
    var d := NextDescriptor(s);
    var l1 := [Guest(Ring.StartPush(d))];
    var s1 := Step(s, Guest(Ring.StartPush(d)));
    RunSnoc(s, [], s, Guest(Ring.StartPush(d)));
    assert [] + l1 == l1;
    Ring.StepKeepsInv(s.ring, Ring.StartPush(d));
    Ring.FullIsExact(s1.ring);
    var s2 := Step(s1, Guest(Ring.LoadHead));
    RunSnoc(s, l1, s1, Guest(Ring.LoadHead));
    Ring.StepKeepsInv(s1.ring, Ring.LoadHead);
    var l2 := l1 + [Guest(Ring.LoadHead)];
    var s3 := Step(s2, Guest(Ring.WriteSlot));
    RunSnoc(s, l2, s2, Guest(Ring.WriteSlot));
    Ring.StepKeepsInv(s2.ring, Ring.WriteSlot);
    var l3 := l2 + [Guest(Ring.WriteSlot)];
    var s4 := Step(s3, Guest(Ring.StoreSubmit));
    RunSnoc(s, l3, s3, Guest(Ring.StoreSubmit));
    Ring.StepKeepsInv(s3.ring, Ring.StoreSubmit);
    var l4 := l3 + [Guest(Ring.StoreSubmit)];
    var s5 := Step(s4, Guest(Ring.StoreTail));
    RunSnoc(s, l4, s4, Guest(Ring.StoreTail));
    Ring.StepKeepsInv(s4.ring, Ring.StoreTail);
    RunSnoc(s, l4 + [Guest(Ring.StoreTail)], s5, Doorbell);
  }

  lemma RunNone(s: Sys)
    requires |s.ring.slots| > 0
    ensures Run(s, []) == s
  {
  }

  /** The first half of a pop: the head is loaded and the entry seen. */
  lemma PopStart(s: Sys, d: Descriptor)
    requires Ring.Inv(s.ring) && Ring.Quiescent(s.ring) && s.host == Popping([], 0)
    requires s.ring.pushed == s.ring.popped + [d]
    ensures var s2 := Run(s, [Pop(Ring.StartPop)] + [Pop(Ring.LoadTail)]);
            && s2.host == s.host && Ring.Inv(s2.ring) && s2.ring.consumer.Ready?
            && s2.ring == s.ring.(consumer := s2.ring.consumer)
  {
    hide Run, SeqnoAfter;
    RunNone(s);
    var l1 := [Pop(Ring.StartPop)];
    var s1 := Step(s, Pop(Ring.StartPop));
    RunSnoc(s, [], s, Pop(Ring.StartPop));
    assert [] + l1 == l1;
    Ring.StepKeepsInv(s.ring, Ring.StartPop);
    Ring.EmptyIsExact(s1.ring);
    assert |s.ring.pushed| != |s.ring.popped|;
    RunSnoc(s, l1, s1, Pop(Ring.LoadTail));
    Ring.StepKeepsInv(s1.ring, Ring.LoadTail);
  }

  lemma PopRound(s: Sys, d: Descriptor)
    requires Ring.Inv(s.ring) && Ring.Quiescent(s.ring) && s.host == Popping([], 0)
    requires s.ring.pushed == s.ring.popped + [d]
    ensures var s1 := Run(s, PopActions());
            && s1.host == Popping([d], d.seqno) && Ring.Inv(s1.ring) && Ring.Quiescent(s1.ring)
            && s1.ring.pushed == s.ring.pushed == s1.ring.popped
            && s1.ring.wide == s.ring.wide && |s1.ring.slots| == |s.ring.slots|
  {
    hide Run, SeqnoAfter;
    PopStart(s, d);
    var l2 := [Pop(Ring.StartPop)] + [Pop(Ring.LoadTail)];
    var s2 := Run(s, l2);
    var s3 := Step(s2, Pop(Ring.ReadSlot));
    RunSnoc(s, l2, s2, Pop(Ring.ReadSlot));
    Ring.StepKeepsInv(s2.ring, Ring.ReadSlot);
    assert s3.ring.consumer.taken == d;
    RunSnoc(s, l2 + [Pop(Ring.ReadSlot)], s3, Pop(Ring.StoreHead));
    Ring.StepKeepsInv(s3.ring, Ring.StoreHead);
  }

  /** The drain stops popping: at `None`, or at the batch bound of a one-slot ring. */
  lemma EmptyRound(s: Sys, d: Descriptor)
    requires Ring.Inv(s.ring) && Ring.Quiescent(s.ring) && s.host == Popping([d], d.seqno)
    requires s.ring.pushed == s.ring.popped
    ensures var s1 := Run(s, EmptyActions());
            s1.host == Executing([d], 0, d.seqno) && s1.ring == s.ring
  {
    var l1 := [Pop(Ring.StartPop)];
    var s1 := Step(s, Pop(Ring.StartPop));
    RunSnoc(s, [], s, Pop(Ring.StartPop));
    assert [] + l1 == l1;
    Ring.StepKeepsInv(s.ring, Ring.StartPop);
    if s1.ring.consumer.HeadLoaded? {
      Ring.EmptyIsExact(s1.ring);
    }
    var s2 := Step(s1, Pop(Ring.LoadTail));
    RunSnoc(s, l1, s1, Pop(Ring.LoadTail));
    RunSnoc(s, l1 + [Pop(Ring.LoadTail)], s2, BatchFull);
  }

  lemma FinishRound(s: Sys, d: Descriptor)
    requires Ring.Inv(s.ring) && s.host == Executing([d], 0, d.seqno) && d.seqno > 0
    ensures var s1 := Run(s, FinishActions());
            s1.host.Asleep? && s1.ring == s.ring.(retired := d.seqno)
  {
    var l1 := [Execute];
    var s1 := Step(s, Execute);
    RunSnoc(s, [], s, Execute);
    assert [] + l1 == l1;
    var s2 := Step(s1, EndExecute);
    RunSnoc(s, l1, s1, EndExecute);
    RunSnoc(s, l1 + [EndExecute], s2, RetireBatch);
  }

  lemma SettledMeans(s: Sys, n: nat)
    requires Settled(s, n)
    ensures |s.ring.slots| > 0 && s.ring.pushed == s.ring.popped && |s.ring.pushed| == n && s.ring.wide
    ensures NextDescriptor(s).seqno == SeqnoAfter(n + 1) && NextDescriptor(s).seqno > 0
  {
  }

  lemma SettledAgain(s: Sys, ring: RingState, d: Descriptor)
    requires Ring.Inv(ring) && Ring.Quiescent(ring) && ring.wide && ring.pushed == ring.popped
    requires s.host.Asleep? && s.ring == ring.(retired := d.seqno) && d.seqno == SeqnoAfter(|ring.pushed|)
    ensures Settled(s, |ring.pushed|) && |s.ring.slots| == |ring.slots|
  {
    Ring.StepKeepsInv(ring, Ring.Retire(d.seqno));
  }

  lemma OneRound(s: Sys)
    requires Settled(s, |s.ring.pushed|)
    ensures Settled(Run(s, OneRoundActions(s)), |s.ring.pushed| + 1)
    ensures |Run(s, OneRoundActions(s)).ring.slots| == |s.ring.slots|
  {
    hide *;
    SettledMeans(s, |s.ring.pushed|);
    var d := NextDescriptor(s);
    var xs := GuestActions(d);
    var ys := xs + PopActions();
    var zs := ys + EmptyActions();
    GuestRound(s, |s.ring.pushed|);
    PopRound(Run(s, xs), d);
    RunConcat(s, xs, PopActions());
    EmptyRound(Run(s, ys), d);
    RunConcat(s, ys, EmptyActions());
    FinishRound(Run(s, zs), d);
    RunConcat(s, zs, FinishActions());
    SettledAgain(Run(Run(s, zs), FinishActions()), Run(s, zs).ring, d);
    AllActions(s);
  }

  lemma AllActions(s: Sys)
    ensures OneRoundActions(s) == GuestActions(NextDescriptor(s)) + PopActions() + EmptyActions() + FinishActions()
  {
  }

  lemma {:induction false} SubmitOneByOne(slots: seq<Descriptor>, n: nat) returns (actions: seq<Action>)
    requires Ring.GoodGeometry(|slots|)
    ensures var s := Run(Init(slots), actions); Settled(s, n) && |s.ring.slots| == |slots|
  {
    if n == 0 {
      actions := [];
    } else {
      var xs := SubmitOneByOne(slots, n - 1);
      var s := Run(Init(slots), xs);
      OneRound(s);
      RunConcat(Init(slots), xs, OneRoundActions(s));
      actions := xs + OneRoundActions(s);
    }
  }

  // ---- Phase 1 as a loop ----

  function HighestSeqno(batch: seq<Descriptor>): u64
  {
    if batch == [] then 0 else Max(HighestSeqno(batch[..|batch| - 1]), batch[|batch| - 1].seqno)
  }

  lemma NoneIsHighest()
    ensures HighestSeqno([]) == 0
  {
  }

  lemma {:induction false} HighestSnoc(batch: seq<Descriptor>, d: Descriptor)
    ensures HighestSeqno(batch + [d]) == Max(HighestSeqno(batch), d.seqno)
  {
    assert (batch + [d])[..|batch|] == batch;
  }

  /** `pop_batch`: the oldest entries, at most `max` and at most a capacity of them, in order, with
      the largest seqno among them. */
  method PopBatch(ring: Ring.SpscRing<Descriptor>, max: nat)
    returns (batch: seq<Descriptor>, highest: u64)
    requires ring.Valid()
    modifies ring
    ensures ring.Valid() && ring.slots[..] == old(ring.slots[..])
    ensures old(ring.Contents()) == batch + ring.Contents()
    ensures |batch| == Min(max, |old(ring.Contents())|)
    ensures highest == HighestSeqno(batch)
    ensures ring.pushed == old(ring.pushed) && ring.popped == old(ring.popped) + batch
    ensures ring.tail == old(ring.tail) && ring.seqnoSubmit == old(ring.seqnoSubmit)
    ensures ring.seqnoRetired == old(ring.seqnoRetired)
  {
    ring.IndexFacts();
    hide Ring.PopAlone, Ring.PushAlone, Ring.Step, Ring.Inv, HighestSeqno, SeqnoAfter;
    NoneIsHighest();
    var bound := Min(max, ring.slots.Length);
    batch, highest := [], 0;
    assert [] + ring.Contents() == ring.Contents() && ring.popped + [] == ring.popped;
    while |batch| < bound
      invariant ring.Valid() && ring.slots[..] == old(ring.slots[..])
      invariant |batch| <= bound
      invariant old(ring.Contents()) == batch + ring.Contents()
      invariant highest == HighestSeqno(batch)
      invariant ring.pushed == old(ring.pushed) && ring.popped == old(ring.popped) + batch
      invariant ring.tail == old(ring.tail) && ring.seqnoSubmit == old(ring.seqnoSubmit)
      invariant ring.seqnoRetired == old(ring.seqnoRetired)
    {
      var d := ring.Pop();
      match d {
        case None => return;
        case Some(desc) =>
          if desc.seqno > highest {
            highest := desc.seqno;
          }
          HighestSnoc(batch, desc);
          Associates(batch, [desc], ring.Contents());
          Associates(old(ring.popped), batch, [desc]);
          batch := batch + [desc];
      }
    }
  }

  /** The largest seqno is a seqno of the batch and bounds all of them. */
  lemma {:induction false} HighestSeqnoIsMax(batch: seq<Descriptor>)
    ensures forall d :: d in batch ==> d.seqno <= HighestSeqno(batch)
    ensures batch == [] || exists d :: d in batch && d.seqno == HighestSeqno(batch)
  {
    if batch != [] {
      HighestSeqnoIsMax(batch[..|batch| - 1]);
      var l := batch[|batch| - 1];
      assert l in batch;
    }
  }
}
