/**
 Many guest threads on one command ring: the display path's pushes and the 3D submitters' push, retry
 and wait. A thread's locked section is several steps; polls and nudges hold no lock, so they fall
 anywhere in other threads' sections. The doorbell drains the ring as one step (module `Drain` takes
 that apart), and the log of staged messages stands for unbounded counters behind the index words.
 */
module Submitters {
  import opened Words
  import Drain
  import Doorbell

  /** A message to push: inline in the ring's payload region, or out of line in a buffer of the
      pushing thread that it keeps until it is done. */
  datatype Message = Message(msgType: u32, body: Bytes, outOfLine: bool)

  /** A published descriptor names a payload slot, or the thread whose buffer holds the payload. */
  datatype Descriptor = Descriptor(msgType: u32, outOfLine: bool, where: nat, seqno: u64)

  datatype Outcome = Completed | Busy | TimedOut

  /** `before` is the submit word as loaded under the lock, `place` the number of the thread's push
      in the run, which the code does not keep. */
  datatype Thread =
    | Idle
    | Ready(m: Message, waits: bool, tries: nat)
    | Locked(m: Message, waits: bool, tries: nat, before: u64)
    | Staged(m: Message, waits: bool, tries: nat, before: u64)
    | Published(m: Message, waits: bool, tries: nat, before: u64)
    | Leaving(m: Message, waits: bool, tries: nat, before: u64)
    | Nudging(m: Message, tries: nat)
    | Waiting(m: Message, want: u64, polls: nat, place: nat)
    | Finished(m: Message, outcome: Outcome, place: nat)

  datatype State = State(
    threads: seq<Thread>, lock: Option<nat>, region: seq<Bytes>, pending: seq<Descriptor>,
    tail: u32, submitted: u64, retired: u64, nudges: nat, staged: seq<Message>, executed: seq<Message>)

  datatype Action =
    | Begin(m: Message, waits: bool)
    | Acquire
    | Stage
    | Publish
    | Doorbell
    | Release
    | Nudge
    | Poll

  datatype Event = Event(who: nat, act: Action)

  /** An inline message longer than its slot is dropped by the push. */
  predicate Fits(m: Message) { m.outOfLine || Doorbell.Fits(Doorbell.InlinePush(m.msgType, m.body)) }

  function SlotOf(tail: u32): nat { tail % Doorbell.CAP }

  // ---- The steps ----

  /** What the host finds where a descriptor points. */
  function Content(s: State, d: Descriptor): Message
  {
    if d.outOfLine then Message(d.msgType, if d.where < |s.threads| then BufferOf(s.threads[d.where]) else [], true)
    else Message(d.msgType, if d.where < |s.region| then s.region[d.where] else [], false)
  }

  function BufferOf(t: Thread): Bytes
  {
    if t.Idle? then [] else t.m.body
  }

  function Contents(s: State, ds: seq<Descriptor>): seq<Message>
  {
    if ds == [] then [] else Contents(s, ds[..|ds| - 1]) + [Content(s, ds[|ds| - 1])]
  }

  function Highest(ds: seq<Descriptor>): u64
  {
    if ds == [] then 0 else Drain.Max(Highest(ds[..|ds| - 1]), ds[|ds| - 1].seqno)
  }

  /** A doorbell write: everything outstanding is executed in order, the highest seqno retired. */
  function Drained(s: State): State
  {
    s.(executed := s.executed + Contents(s, s.pending), pending := [],
       retired := if Highest(s.pending) > 0 then Highest(s.pending) else s.retired)
  }

  /** A doorbell on an empty ring does nothing; otherwise the largest outstanding seqno is retired. */
  lemma DrainedRetires(s: State)
    ensures s.pending == [] ==> Drained(s) == s
    ensures (exists d :: d in s.pending && d.seqno > 0) ==>
              exists d :: d in s.pending && d.seqno == Drained(s).retired
    ensures forall d :: d in s.pending ==> d.seqno <= Drained(s).retired || Drained(s).retired == s.retired
  {
    HighestIsMax(s.pending);
    assert s.executed + [] == s.executed;
  }

  lemma {:induction false} HighestIsMax(ds: seq<Descriptor>)
    ensures forall d :: d in ds ==> d.seqno <= Highest(ds)
    ensures ds != [] ==> exists d :: d in ds && d.seqno == Highest(ds)
  {
    if ds != [] {
      var init, last := ds[..|ds| - 1], ds[|ds| - 1];
      HighestIsMax(init);
      assert last in ds;
    }
  }

  function Put(s: State, who: nat, t: Thread): State
    requires who < |s.threads|
  {
    s.(threads := s.threads[who := t])
  }

  function Step(s: State, e: Event): State
  {
    if e.who >= |s.threads| then s
    else
      var t := s.threads[e.who];
      match e.act
      case Begin(m, waits) =>
        if (t.Idle? || t.Finished?) && (waits ==> Fits(m)) then Put(s, e.who, Ready(m, waits, 0)) else s
      case Acquire =>
        if t.Ready? && s.lock.None?
        then Put(s, e.who, Locked(t.m, t.waits, t.tries, s.submitted)).(lock := Some(e.who)) else s
      case Stage =>
        if !t.Locked? then s
        else if |s.pending| >= Doorbell.CAP || !Fits(t.m)
        then Put(s, e.who, Leaving(t.m, t.waits, t.tries, t.before))
        else
          Put(s, e.who, Staged(t.m, t.waits, t.tries, t.before)).(
            region := if t.m.outOfLine || SlotOf(s.tail) >= |s.region| then s.region
                      else s.region[SlotOf(s.tail) := t.m.body])
      case Publish =>
        if !t.Staged? then s
        else
          var d := Descriptor(t.m.msgType, t.m.outOfLine, if t.m.outOfLine then e.who else SlotOf(s.tail), s.tail + 1);
          Put(s, e.who, Published(t.m, t.waits, t.tries, t.before)).(
            pending := s.pending + [d], submitted := s.tail + 1, tail := WrapAdd(s.tail, 1),
            staged := s.staged + [t.m])
      case Doorbell =>
        if t.Published? then Put(Drained(s), e.who, Leaving(t.m, t.waits, t.tries, t.before)) else s
      case Release =>
        if !t.Leaving? then s
        else
          Put(s, e.who, if !t.waits then Idle
                        else if s.submitted != t.before then Waiting(t.m, s.submitted, 0, |s.staged|)
                        else Nudging(t.m, t.tries)).(lock := None)
      case Nudge =>
        if !t.Nudging? then s
        else
          Put(Drained(s), e.who, if t.tries + 1 >= Doorbell.ATTEMPTS then Finished(t.m, Busy, 0)
                                 else Ready(t.m, true, t.tries + 1)).(nudges := s.nudges + 1)
      case Poll =>
        if !t.Waiting? then s
        else
          Put(s, e.who, if s.retired >= t.want then Finished(t.m, Completed, t.place)
                        else if t.polls + 1 >= Doorbell.POLLS then Finished(t.m, TimedOut, t.place)
                        else t.(polls := t.polls + 1))
  }

  function Run(s: State, es: seq<Event>): State
  {
    if es == [] then s else Step(Run(s, es[..|es| - 1]), es[|es| - 1])
  }

  function Threads(n: nat): (ts: seq<Thread>)
    ensures |ts| == n && forall i :: 0 <= i < n ==> ts[i] == Idle
  {
    if n == 0 then [] else Threads(n - 1) + [Idle]
  }

  function Empty(n: nat): (r: seq<Bytes>)
    ensures |r| == n
  {
    if n == 0 then [] else Empty(n - 1) + [[]]
  }

  function Init(threads: nat): State
  {
    State(Threads(threads), None, Empty(Doorbell.CAP), [], 0, 0, 0, 0, [], [])
  }

  // ---- The invariant ----

  predicate InSection(t: Thread)
  {
    t.Locked? || t.Staged? || t.Published? || t.Leaving?
  }

  /** Message `m` was push number `place`, and has been executed. */
  predicate Done(s: State, m: Message, place: nat)
  {
    0 < place <= |s.executed| && s.executed[place - 1] == m
  }

  /** A thread outside the lock. */
  predicate OutsideInv(s: State, t: Thread)
  {
    match t
    case Idle => true
    case Ready(m, waits, _) => waits ==> Fits(m)
    case Waiting(m, want, polls, place) =>
      Done(s, m, place) && want == Drain.SeqnoAfter(place) && polls < Doorbell.POLLS
    case Finished(m, outcome, place) => outcome != Busy && Done(s, m, place)
    case _ => false
  }

  /** Nothing outstanding, everything staged has been executed. */
  predicate Clean(s: State)
  {
    s.pending == [] && s.executed == s.staged
  }

  /** The thread that holds the lock. */
  predicate HolderInv(s: State, who: nat, t: Thread)
  {
    && InSection(t) && (t.waits ==> Fits(t.m))
    && match t
       case Locked(m, waits, _, before) => Clean(s) && before == s.submitted
       case Staged(m, waits, _, before) =>
         Clean(s) && before == s.submitted && Fits(m) && (!m.outOfLine ==>
           SlotOf(s.tail) < |s.region| && s.region[SlotOf(s.tail)] == m.body)
       case Published(m, waits, _, before) =>
         && |s.pending| == 1 && Content(s, s.pending[0]) == m
         && (s.pending[0].outOfLine ==> s.pending[0].where == who)
         && s.pending[0].seqno == s.submitted && before != s.submitted
         && s.staged == s.executed + [m]
       case Leaving(m, waits, _, before) =>
         Clean(s) && (Fits(m) ==> before != s.submitted && s.staged != [] && s.staged[|s.staged| - 1] == m)
  }

  ghost predicate Inv(s: State)
  {
    && |s.region| == Doorbell.CAP
    && s.tail == Residue(|s.staged|)
    && s.submitted == Drain.SeqnoAfter(|s.staged|)
    && s.retired == Drain.SeqnoAfter(|s.executed|)
    && s.nudges == 0
    && (s.lock.None? ==> Clean(s))
    && (s.lock.Some? ==> s.lock.value < |s.threads| && HolderInv(s, s.lock.value, s.threads[s.lock.value]))
    && (forall i :: 0 <= i < |s.threads| && s.lock != Some(i) ==> OutsideInv(s, s.threads[i]))
  }

  lemma InitInv(threads: nat)
    ensures Inv(Init(threads))
  {
  }

  lemma OneContent(s: State, d: Descriptor)
    ensures Contents(s, [d]) == [Content(s, d)] && Highest([d]) == d.seqno
  {
    assert [d][..0] == [];
    assert Contents(s, []) == [] && Highest([]) == 0;
  }

  /** Whatever was done stays done. */
  lemma OutsideStays(s: State, s': State, t: Thread)
    requires OutsideInv(s, t) && s.executed <= s'.executed
    ensures OutsideInv(s', t)
  {
  }

  lemma StepKeepsInv(s: State, e: Event)
    requires Inv(s)
    ensures Inv(Step(s, e))
  {
    if e.who < |s.threads| {
      var t := s.threads[e.who];
      if e.act.Stage? && t.Locked? {
        StageKeepsInv(s, e);
      } else if e.act.Publish? && t.Staged? {
        PublishKeepsInv(s, e);
      } else if e.act.Doorbell? && t.Published? {
        DoorbellKeepsInv(s, e);
      } else if e.act.Release? && t.Leaving? {
        ReleaseKeepsInv(s, e);
      } else if e.act.Acquire? && t.Ready? && s.lock.None? {
        AcquireKeepsInv(s, e);
      } else if (e.act.Begin? && (t.Idle? || t.Finished?)) || (e.act.Poll? && t.Waiting?) {
        OutsideKeepsInv(s, e);
      } else {
        NobodyNudges(s);
        hide Inv;
      }
    }
  }

  lemma NobodyNudges(s: State)
    requires Inv(s)
    ensures forall i :: 0 <= i < |s.threads| ==> !s.threads[i].Nudging?
  {
    forall i | 0 <= i < |s.threads| && s.lock != Some(i) ensures !s.threads[i].Nudging? {
      OutsideKind(s, s.threads[i]);
    }
  }

  lemma OutsideKind(s: State, t: Thread)
    requires OutsideInv(s, t)
    ensures !InSection(t) && !t.Nudging?
  {
  }

  lemma HolderIs(s: State, who: nat)
    requires Inv(s) && who < |s.threads| && InSection(s.threads[who])
    ensures s.lock == Some(who) && HolderInv(s, who, s.threads[who])
  {
    forall i | 0 <= i < |s.threads| && s.lock != Some(i) ensures !InSection(s.threads[i]) {
      OutsideKind(s, s.threads[i]);
    }
    hide HolderInv, OutsideInv;
  }

  lemma AcquireKeepsInv(s: State, e: Event)
    requires Inv(s) && e.act.Acquire? && e.who < |s.threads| && s.threads[e.who].Ready? && s.lock.None?
    ensures Inv(Step(s, e))
  {
    var s' := Step(s, e);
    assert OutsideInv(s, s.threads[e.who]);
    forall i | 0 <= i < |s.threads| && s'.lock != Some(i) ensures OutsideInv(s', s'.threads[i]) {
      assert OutsideInv(s, s.threads[i]);
    }
  }

  /** A thread outside the lock that moves on stays outside, and the holder does not notice. */
  lemma OutsideKeepsInv(s: State, e: Event)
    requires Inv(s) && e.who < |s.threads|
    requires (e.act.Begin? && (s.threads[e.who].Idle? || s.threads[e.who].Finished?)) ||
             (e.act.Poll? && s.threads[e.who].Waiting?)
    ensures Inv(Step(s, e))
  {
    var s' := Step(s, e);
    assert s.lock != Some(e.who);
    forall i | 0 <= i < |s.threads| && s'.lock != Some(i) ensures OutsideInv(s', s'.threads[i]) {
      assert OutsideInv(s, s.threads[i]);
    }
    if s.lock.Some? {
      assert s'.threads[s.lock.value] == s.threads[s.lock.value];
    }
  }

  lemma StageKeepsInv(s: State, e: Event)
    requires Inv(s) && e.act.Stage? && e.who < |s.threads| && s.threads[e.who].Locked?
    ensures Inv(Step(s, e))
  {
    HolderIs(s, e.who);
    var s' := Step(s, e);
    forall i | 0 <= i < |s.threads| && s'.lock != Some(i) ensures OutsideInv(s', s'.threads[i]) {
      assert OutsideInv(s, s.threads[i]);
    }
  }

  lemma PublishKeepsInv(s: State, e: Event)
    requires Inv(s) && e.act.Publish? && e.who < |s.threads| && s.threads[e.who].Staged?
    ensures Inv(Step(s, e))
  {
    HolderIs(s, e.who);
    var s' := Step(s, e);
    ResidueSucc(|s.staged|);
    Drain.SeqnoMoves(|s.staged|);
    forall i | 0 <= i < |s.threads| && s'.lock != Some(i) ensures OutsideInv(s', s'.threads[i]) {
      assert OutsideInv(s, s.threads[i]);
    }
  }

  lemma DoorbellKeepsInv(s: State, e: Event)
    requires Inv(s) && e.act.Doorbell? && e.who < |s.threads| && s.threads[e.who].Published?
    ensures Inv(Step(s, e))
  {
    HolderIs(s, e.who);
    var s' := Step(s, e);
    assert s.pending == [s.pending[0]];
    OneContent(s, s.pending[0]);
    forall i | 0 <= i < |s.threads| && s'.lock != Some(i) ensures OutsideInv(s', s'.threads[i]) {
      OutsideStays(s, s', s.threads[i]);
    }
  }

  lemma ReleaseKeepsInv(s: State, e: Event)
    requires Inv(s) && e.act.Release? && e.who < |s.threads| && s.threads[e.who].Leaving?
    ensures Inv(Step(s, e))
  {
    HolderIs(s, e.who);
    var s' := Step(s, e);
    forall i | 0 <= i < |s.threads| ensures OutsideInv(s', s'.threads[i]) {
      if i != e.who {
        assert OutsideInv(s, s.threads[i]);
      }
    }
  }

  lemma {:induction false} RunKeepsInv(s: State, es: seq<Event>)
    requires Inv(s)
    ensures Inv(Run(s, es)) && |Run(s, es).threads| == |s.threads|
  {
    hide Inv, Step;
    if es != [] {
      RunKeepsInv(s, es[..|es| - 1]);
      StepKeepsInv(Run(s, es[..|es| - 1]), es[|es| - 1]);
      StepKeepsThreads(Run(s, es[..|es| - 1]), es[|es| - 1]);
    }
  }

  lemma StepKeepsThreads(s: State, e: Event)
    ensures |Step(s, e).threads| == |s.threads|
  {
  }

  // ---- Over all interleavings ----

  /** Whatever the interleaving of locked sections, nudges and polls: no submitter ever finds the ring
      full, none nudges it, none gives up busy, and what the host has executed is what was staged, in
      order; nothing is outstanding while the lock is free. */
  lemma RingNeverFull(threads: nat, es: seq<Event>)
    ensures var s := Run(Init(threads), es);
            && s.nudges == 0
            && (forall i :: 0 <= i < |s.threads| ==> !s.threads[i].Nudging?)
            && (forall i :: 0 <= i < |s.threads| && s.threads[i].Finished? ==> s.threads[i].outcome != Busy)
            && s.executed <= s.staged
            && (s.lock.None? ==> s.executed == s.staged && s.pending == [])
  {
    InitInv(threads);
    RunKeepsInv(Init(threads), es);
    var s := Run(Init(threads), es);
    hide Run, Init;
    forall i | 0 <= i < |s.threads| && s.lock != Some(i) ensures OutsideInv(s, s.threads[i]) { }
  }

  /** A submitter that waits, has completed or has timed out: its message was executed, as its push. */
  lemma WaiterWasExecuted(threads: nat, es: seq<Event>, who: nat)
    requires var s := Run(Init(threads), es);
             who < |s.threads| && (s.threads[who].Waiting? || s.threads[who].Finished?)
    ensures var s := Run(Init(threads), es); Done(s, s.threads[who].m, s.threads[who].place)
  {
    InitInv(threads);
    RunKeepsInv(Init(threads), es);
    var s := Run(Init(threads), es);
    hide Run, Init;
    assert OutsideInv(s, s.threads[who]);
  }

  /** The unlocked poll, exactly. With `k` pushes retired since the waiter's own, fewer than 2^32, it
      sees its seqno if and only if the tail its push was stamped from plus `k` does not wrap. */
  lemma PollSeesIff(threads: nat, es: seq<Event>, who: nat)
    requires var s := Run(Init(threads), es);
             && who < |s.threads| && s.threads[who].Waiting?
             && |s.executed| < s.threads[who].place + 0x1_0000_0000
    ensures var s := Run(Init(threads), es);
            var place := s.threads[who].place;
            && 0 < place <= |s.executed|
            && (s.retired >= s.threads[who].want <==> Residue(place - 1) + (|s.executed| - place) < 0x1_0000_0000)
  {
    InitInv(threads);
    RunKeepsInv(Init(threads), es);
    hide *;
    WaiterSees(Run(Init(threads), es), who);
  }

  lemma WaiterSees(s: State, who: nat)
    requires Inv(s) && who < |s.threads| && s.threads[who].Waiting?
    requires |s.executed| < s.threads[who].place + 0x1_0000_0000
    ensures var place := s.threads[who].place;
            && 0 < place <= |s.executed|
            && (s.retired >= s.threads[who].want <==> Residue(place - 1) + (|s.executed| - place) < 0x1_0000_0000)
  {
    hide HolderInv, Residue, Drain.SeqnoAfter;
    assert s.lock != Some(who) by { HolderKind(s); }
    assert OutsideInv(s, s.threads[who]);
    var place := s.threads[who].place;
    Doorbell.ReleasedIff(place - 1, |s.executed| - place);
  }

  lemma HolderKind(s: State)
    requires Inv(s)
    ensures s.lock.Some? ==> s.lock.value < |s.threads| && InSection(s.threads[s.lock.value])
  {
  }

  // ---- Across the wrap ----

  lemma {:induction false} RunSnoc(s: State, xs: seq<Event>, e: Event)
    ensures Run(s, xs + [e]) == Step(Run(s, xs), e)
  {
    hide Step;
    assert (xs + [e])[..|xs|] == xs;
  }

  lemma {:induction false} RunConcat(s: State, xs: seq<Event>, ys: seq<Event>)
    ensures Run(s, xs + ys) == Run(Run(s, xs), ys)
  {
    hide Step;
    if ys == [] {
      assert xs + ys == xs;
    } else {
      assert (xs + ys)[..|xs + ys| - 1] == xs + ys[..|ys| - 1];
      RunConcat(s, xs, ys[..|ys| - 1]);
    }
  }

  /** One whole locked section. */
  function SectionEvents(who: nat, m: Message, waits: bool): seq<Event>
  {
    [Event(who, Begin(m, waits))] + [Event(who, Acquire)] + [Event(who, Stage)]
    + [Event(who, Publish)] + [Event(who, Doorbell)] + [Event(who, Release)]
  }

  ghost predicate Resting(s: State)
  {
    Inv(s) && s.lock.None?
  }

  function AfterSection(s: State, m: Message, waits: bool): Thread
  {
    if waits then Waiting(m, Drain.SeqnoAfter(|s.staged| + 1), 0, |s.staged| + 1) else Idle
  }

  lemma SectionRun(s: State, who: nat, m: Message, waits: bool)
    requires Resting(s) && who < |s.threads| && s.threads[who].Idle? && Fits(m)
    ensures var t := Run(s, SectionEvents(who, m, waits));
            && Resting(t) && t.staged == s.staged + [m]
            && t.threads == s.threads[who := AfterSection(s, m, waits)]
  {
    var l1 := [Event(who, Begin(m, waits))];
    var l2 := l1 + [Event(who, Acquire)];
    var l3 := l2 + [Event(who, Stage)];
    var l4 := l3 + [Event(who, Publish)];
    var l5 := l4 + [Event(who, Doorbell)];
    assert [] + l1 == l1 && Run(s, []) == s;
    RunSnoc(s, [], l1[0]);
    RunSnoc(s, l1, Event(who, Acquire));
    RunSnoc(s, l2, Event(who, Stage));
    RunSnoc(s, l3, Event(who, Publish));
    RunSnoc(s, l4, Event(who, Doorbell));
    RunSnoc(s, l5, Event(who, Release));
    RunKeepsInv(s, SectionEvents(who, m, waits));
    hide Run;
    FirstHalf(s, who, m, waits);
    SecondHalf(s, who, m, waits, Step(Step(Step(s, l1[0]), Event(who, Acquire)), Event(who, Stage)));
  }

  lemma FirstHalf(s: State, who: nat, m: Message, waits: bool)
    requires Resting(s) && who < |s.threads| && s.threads[who].Idle? && Fits(m)
    ensures var t := Step(Step(Step(s, Event(who, Begin(m, waits))), Event(who, Acquire)), Event(who, Stage));
            && t.threads == s.threads[who := Staged(m, waits, 0, s.submitted)]
            && t.lock == Some(who) && t.pending == [] && t.tail == s.tail && t.staged == s.staged
  {
    var s1 := Step(s, Event(who, Begin(m, waits)));
    assert s1.threads == s.threads[who := Ready(m, waits, 0)];
    var s2 := Step(s1, Event(who, Acquire));
    assert s2.threads == s.threads[who := Locked(m, waits, 0, s.submitted)];
  }

  lemma SecondHalf(s: State, who: nat, m: Message, waits: bool, t: State)
    requires Resting(s) && who < |s.threads|
    requires t.threads == s.threads[who := Staged(m, waits, 0, s.submitted)]
    requires t.lock == Some(who) && t.pending == [] && t.tail == s.tail && t.staged == s.staged
    ensures var r := Step(Step(Step(t, Event(who, Publish)), Event(who, Doorbell)), Event(who, Release));
            && r.threads == s.threads[who := AfterSection(s, m, waits)]
            && r.lock == None && r.staged == s.staged + [m]
  {
    Drain.SeqnoMoves(|s.staged|);
    var s1 := Step(t, Event(who, Publish));
    assert s1.threads == s.threads[who := Published(m, waits, 0, s.submitted)];
    var s2 := Step(s1, Event(who, Doorbell));
    assert s2.threads == s.threads[who := Leaving(m, waits, 0, s.submitted)];
    hide Contents, Highest, Inv;
  }

  function Polls(who: nat, n: nat): seq<Event>
  {
    if n == 0 then [] else Polls(who, n - 1) + [Event(who, Poll)]
  }

  /** Polls that do not see the seqno only count. */
  lemma {:induction false} PollsMiss(s: State, who: nat, n: nat)
    requires who < |s.threads| && s.threads[who].Waiting? && s.retired < s.threads[who].want
    requires s.threads[who].polls + n < Doorbell.POLLS
    ensures Run(s, Polls(who, n)) == s.(threads := s.threads[who := s.threads[who].(polls := s.threads[who].polls + n)])
  {
    if n == 0 {
      assert s.threads[who := s.threads[who]] == s.threads;
    } else {
      PollsMiss(s, who, n - 1);
      RunSnoc(s, Polls(who, n - 1), Event(who, Poll));
    }
  }

  lemma PollsTimeOut(s: State, who: nat)
    requires who < |s.threads| && s.threads[who].Waiting? && s.retired < s.threads[who].want && s.threads[who].polls == 0
    ensures Run(s, Polls(who, Doorbell.POLLS)) ==
            s.(threads := s.threads[who := Finished(s.threads[who].m, TimedOut, s.threads[who].place)])
  {
    PollsMiss(s, who, Doorbell.POLLS - 1);
    RunSnoc(s, Polls(who, Doorbell.POLLS - 1), Event(who, Poll));
  }

  /** The failing input. From a free lock with the 32-bit tail at its last value, a submitter pushes
      and lets go of the lock; one other push wraps the seqno before the first poll; every poll then
      misses, and the submitter times out although its message was executed. */
  lemma WrapTimesOut(s: State, a: nat, b: nat, ma: Message, mb: Message) returns (es: seq<Event>)
    requires Resting(s) && s.tail == 0xFFFF_FFFF
    requires a < |s.threads| && b < |s.threads| && a != b && s.threads[a].Idle? && s.threads[b].Idle?
    requires Fits(ma) && Fits(mb)
    ensures var t := Run(s, es);
            && a < |t.threads| && t.threads[a] == Finished(ma, TimedOut, |s.staged| + 1)
            && t.executed == s.staged + [ma] + [mb]
            && t.staged == t.executed
  {
    var xs, ys, zs := SectionEvents(a, ma, true), SectionEvents(b, mb, false), Polls(a, Doorbell.POLLS);
    SectionRun(s, a, ma, true);
    var s1 := Run(s, xs);
    SectionRun(s1, b, mb, false);
    var s2 := Run(s1, ys);
    assert s2.retired == 1 && s2.threads[a].want == 0x1_0000_0000 by {
      SeqnoAtWrap(s, s1, s2, ma, mb);
    }
    PollsTimeOut(s2, a);
    es := xs + ys + zs;
    RunConcat(s, xs, ys);
    RunConcat(s, xs + ys, zs);
    RestingIsClean(s2);
    hide Run, Inv, Polls, SectionEvents;
  }

  lemma RestingIsClean(s: State)
    requires Resting(s)
    ensures s.executed == s.staged
  {
  }

  lemma SeqnoAtWrap(s: State, s1: State, s2: State, ma: Message, mb: Message)
    requires Resting(s) && s.tail == 0xFFFF_FFFF && Resting(s1) && Resting(s2)
    requires s1.staged == s.staged + [ma] && s2.staged == s1.staged + [mb]
    ensures s2.retired == 1 && Drain.SeqnoAfter(|s.staged| + 1) == 0x1_0000_0000
  {
    ResidueSucc(|s.staged|);
  }

  /** Any number of pushes can precede. */
  lemma {:induction false} ManyPushes(threads: nat, n: nat, m: Message) returns (es: seq<Event>)
    requires threads > 0 && Fits(m)
    ensures var s := Run(Init(threads), es); Resting(s) && |s.staged| == n && s.threads == Threads(threads)
  {
    if n == 0 {
      es := [];
      InitInv(threads);
    } else {
      var xs := ManyPushes(threads, n - 1, m);
      var s := Run(Init(threads), xs);
      SectionRun(s, 0, m, false);
      RunConcat(Init(threads), xs, SectionEvents(0, m, false));
      es := xs + SectionEvents(0, m, false);
      assert s.threads[0 := Idle] == s.threads;
      hide Run, Inv, SectionEvents;
    }
  }

  /** No submission that was executed is reported as timed out, in any run of up to `bound` pushes. */
  ghost predicate NobodyTimesOut(threads: nat, bound: nat)
  {
    forall es: seq<Event>, i: nat ::
      |Run(Init(threads), es).staged| <= bound && i < |Run(Init(threads), es).threads| ==>
      Served(Run(Init(threads), es).threads[i])
  }

  predicate Served(t: Thread)
  {
    (t.Waiting? ==> t.polls == 0) && (t.Finished? ==> t.outcome == Completed)
  }

  lemma StagedGrows(s: State, e: Event)
    ensures |s.staged| <= |Step(s, e).staged|
  {
  }

  lemma StepServes(s: State, e: Event)
    requires Inv(s) && |s.staged| <= 0x1_0000_0000 && forall i :: 0 <= i < |s.threads| ==> Served(s.threads[i])
    ensures forall i :: 0 <= i < |s.threads| ==> Served(Step(s, e).threads[i])
  {
    if e.who < |s.threads| {
      NobodyNudges(s);
      if s.threads[e.who].Waiting? {
        FirstPollSees(s, e.who);
      }
      hide Inv, Contents, Highest;
    }
  }

  lemma FirstPollSees(s: State, who: nat)
    requires Inv(s) && |s.staged| <= 0x1_0000_0000 && who < |s.threads| && s.threads[who].Waiting?
    ensures s.retired >= s.threads[who].want
  {
    ExecutedFew(s);
    HolderKind(s);
    hide HolderInv;
    assert OutsideInv(s, s.threads[who]);
  }

  lemma ExecutedFew(s: State)
    requires Inv(s)
    ensures |s.executed| <= |s.staged|
  {
  }

  lemma {:induction false} RunServes(threads: nat, es: seq<Event>)
    requires |Run(Init(threads), es).staged| <= 0x1_0000_0000
    ensures var s := Run(Init(threads), es);
            Inv(s) && |s.threads| == threads && forall i :: 0 <= i < |s.threads| ==> Served(s.threads[i])
  {
    InitInv(threads);
    RunKeepsInv(Init(threads), es);
    hide Inv, Step, Served;
    if es == [] {
      ServedAtFirst(threads);
    } else {
      var s := Run(Init(threads), es[..|es| - 1]);
      StagedGrows(s, es[|es| - 1]);
      RunServes(threads, es[..|es| - 1]);
      StepServes(s, es[|es| - 1]);
    }
  }

  lemma ServedAtFirst(threads: nat)
    ensures forall i :: 0 <= i < threads ==> Served(Init(threads).threads[i])
  {
  }

  /** Exactly how far the waits can be trusted: with two threads or more, no executed submission times
      out in any run of up to `bound` pushes if and only if `bound` is at most 2^32. */
  lemma NobodyTimesOutIff(threads: nat, bound: nat)
    requires threads >= 2
    ensures NobodyTimesOut(threads, bound) <==> bound <= 0x1_0000_0000
  {
    hide *;
    if bound <= 0x1_0000_0000 {
      forall es: seq<Event>, i: nat
        | |Run(Init(threads), es).staged| <= bound && i < |Run(Init(threads), es).threads|
        ensures Served(Run(Init(threads), es).threads[i])
      {
        RunServes(threads, es);
      }
      NobodyMeans(threads, bound);
    } else {
      SomebodyTimesOut(threads, bound);
    }
  }

  lemma NobodyMeans(threads: nat, bound: nat)
    requires forall es: seq<Event>, i: nat ::
               |Run(Init(threads), es).staged| <= bound && i < |Run(Init(threads), es).threads| ==>
               Served(Run(Init(threads), es).threads[i])
    ensures NobodyTimesOut(threads, bound)
  {
    hide Run, Init, Served;
  }

  lemma SomebodyTimesOut(threads: nat, bound: nat)
    requires threads >= 2 && bound > 0x1_0000_0000
    ensures !NobodyTimesOut(threads, bound)
  {
    var m := Message(0, [], true);
    assert Fits(m);
    hide *;
    var xs := ManyPushes(threads, 0xFFFF_FFFF, m);
    var s := Run(Init(threads), xs);
    TailAtEnd(s);
    var ys := WrapTimesOut(s, 0, 1, m, m);
    RunConcat(Init(threads), xs, ys);
    CountTwo(s.staged, m);
    NotServed(threads, bound, xs + ys, m, |s.staged| + 1);
  }

  lemma TailAtEnd(s: State)
    requires Resting(s) && |s.staged| == 0xFFFF_FFFF
    ensures s.tail == 0xFFFF_FFFF
  {
  }

  lemma CountTwo(xs: seq<Message>, m: Message)
    ensures |xs + [m] + [m]| == |xs| + 2
  {
  }

  lemma NotServed(threads: nat, bound: nat, es: seq<Event>, m: Message, place: nat)
    requires bound > 0x1_0000_0000 && |Run(Init(threads), es).staged| == 0x1_0000_0001
    requires 0 < |Run(Init(threads), es).threads| && Run(Init(threads), es).threads[0] == Finished(m, TimedOut, place)
    ensures !NobodyTimesOut(threads, bound)
  {
    hide Run, Init;
    assert !Served(Run(Init(threads), es).threads[0]);
  }
}
