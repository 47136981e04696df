/**
 The single-producer / single-consumer descriptor ring over shared index words.

 `Step` gives every atomic load and store of `push` and `pop` its own transition, so a run is an
 arbitrary interleaving of the two ends; an action that its end is not ready for does nothing.
 `pushed` and `popped` are the histories of published and consumed items; the index words hold
 only the residues of their lengths modulo 2^32.
 */
module Ring {
  import opened Words

  /** Where the producer stands inside `push`. */
  datatype Producer<T> =
    | Idle
    | TailLoaded(item: T, t: u32)
    | Checked(item: T, t: u32)    // next access: write slot `t & mask`
    | Written(item: T, t: u32)
    | Submitted(item: T, t: u32)  // next access: publish `tail`

  /** Where the consumer stands inside `pop`. */
  datatype Consumer<T> =
    | Waiting
    | HeadLoaded(h: u32)
    | Ready(h: u32)               // next access: read slot `h & mask`
    | Taken(h: u32, taken: T)     // next access: publish `head`

  /** `wide` tells the two producers apart: the guest driver computes a seqno as
      `(u64)tail + 1`, the Rust `push` as `tail.wrapping_add(1) as u64`. */
  datatype State<T> = State(
    wide: bool,
    slots: seq<T>,
    tail: u32,
    head: u32,
    submit: u64,
    retired: u64,
    producer: Producer<T>,
    consumer: Consumer<T>,
    pushed: seq<T>,
    popped: seq<T>)

  datatype Action<T> =
    // producer: load tail, load head (and test for room), write slot, store seqno_submit, store tail
    | StartPush(item: T) | LoadHead | WriteSlot | StoreSubmit | StoreTail
    // consumer: load head, load tail (and test for entries), read slot, store head
    | StartPop | LoadTail | ReadSlot | StoreHead
    // consumer: store seqno_retired
    | Retire(seqno: u64)

  predicate IsPowerOfTwo(n: nat)
  {
    n == 1 || (n > 0 && n % 2 == 0 && IsPowerOfTwo(n / 2))
  }

  /** `Ring::from_parts` accepts exactly these capacities. */
  predicate GoodGeometry(cap: nat)
  {
    cap != 0 && IsPowerOfTwo(cap) && cap <= 0xFFFF_FFFF
  }

  function Init<T>(wide: bool, slots: seq<T>): State<T>
  {
    State(wide, slots, 0, 0, 0, 0, Idle, Waiting, [], [])
  }

  function SeqnoOf(wide: bool, t: u32): u64
  {
    if wide then t + 1 else WrapAdd(t, 1)
  }

  /** The slot an index word selects: `index & (capacity - 1)`. */
  function Slot(index: u32, cap: nat): (i: nat)
    requires cap > 0
    ensures i < cap
  {
    BitAnd(index, cap - 1)
  }

  function Step<T>(s: State<T>, a: Action<T>): State<T>
    requires |s.slots| > 0
  {
    match a
    case StartPush(item) =>
      if s.producer.Idle? then s.(producer := TailLoaded(item, s.tail)) else s
    case LoadHead =>
      if !s.producer.TailLoaded? then s
      else if WrapSub(s.producer.t, s.head) >= |s.slots| then s.(producer := Idle)
      else s.(producer := Checked(s.producer.item, s.producer.t))
    case WriteSlot =>
      if !s.producer.Checked? then s
      else s.(slots := s.slots[Slot(s.producer.t, |s.slots|) := s.producer.item],
              producer := Written(s.producer.item, s.producer.t))
    case StoreSubmit =>
      if !s.producer.Written? then s
      else s.(submit := SeqnoOf(s.wide, s.producer.t),
              producer := Submitted(s.producer.item, s.producer.t))
    case StoreTail =>
      if !s.producer.Submitted? then s
      else s.(tail := WrapAdd(s.producer.t, 1), pushed := s.pushed + [s.producer.item], producer := Idle)
    case StartPop =>
      if s.consumer.Waiting? then s.(consumer := HeadLoaded(s.head)) else s
    case LoadTail =>
      if !s.consumer.HeadLoaded? then s
      else if s.consumer.h == s.tail then s.(consumer := Waiting)
      else s.(consumer := Ready(s.consumer.h))
    case ReadSlot =>
      if !s.consumer.Ready? then s
      else s.(consumer := Taken(s.consumer.h, s.slots[Slot(s.consumer.h, |s.slots|)]))
    case StoreHead =>
      if !s.consumer.Taken? then s
      else s.(head := WrapAdd(s.consumer.h, 1), popped := s.popped + [s.consumer.taken], consumer := Waiting)
    case Retire(seqno) =>
      s.(retired := seqno)
  }

  function Run<T>(s: State<T>, actions: seq<Action<T>>): (r: State<T>)
    requires |s.slots| > 0
    ensures |r.slots| == |s.slots|
    decreases |actions|
  {
    if actions == [] then s
    else Step(Run(s, actions[..|actions| - 1]), actions[|actions| - 1])
  }

  // ---- Slot arithmetic ----

  lemma {:induction false} PowerOfTwoDividesWord(cap: nat, k: nat)
    requires IsPowerOfTwo(cap) && cap < Pow2(k)
    ensures Pow2(k) % cap == 0
    decreases k
  {
    if cap == 1 {
    } else if k > 0 {
      PowerOfTwoDividesWord(cap / 2, k - 1);
      var m := Pow2(k - 1) / (cap / 2);
      assert Pow2(k - 1) == m * (cap / 2);
      assert Pow2(k) == m * cap;
      RemainderUnique(Pow2(k), cap, m, 0);
    }
  }

  lemma {:induction false} Pow2IsPowerOfTwo(k: nat)
    ensures IsPowerOfTwo(Pow2(k))
  {
    if k > 0 {
      Pow2IsPowerOfTwo(k - 1);
      assert Pow2(k) == 2 * Pow2(k - 1);
    }
  }

  lemma {:induction false} PowerOfTwoIsPow2(cap: nat) returns (k: nat)
    requires IsPowerOfTwo(cap)
    ensures Pow2(k) == cap
  {
    if cap == 1 {
      k := 0;
    } else {
      k := PowerOfTwoIsPow2(cap / 2);
      k := k + 1;
    }
  }

  lemma Pow2Word()
    ensures Pow2(32) == 0x1_0000_0000
  {
    assert Pow2(8) == 256;
    assert Pow2(16) == 65536;
    assert Pow2(24) == 16777216;
  }

  lemma ModuloOfModulo(n: nat, c: nat, m: nat)
    requires c > 0 && m > 0 && m % c == 0
    ensures (n % m) % c == n % c
  {
    var d := m / c;
    assert m == d * c;
    var q, r := n / m, n % m;
    var q', r' := r / c, r % c;
    assert n == q * m + r && r == q' * c + r';
    assert q * m == (q * d) * c by {
      assert q * (d * c) == (q * d) * c;
    }
    assert n == (q * d + q') * c + r';
    RemainderUnique(n, c, q * d + q', r');
  }

  /** However often the counter has wrapped its index word, it selects slot `n % cap`. */
  lemma SlotOfCounter(n: nat, cap: nat)
    requires GoodGeometry(cap)
    ensures Slot(Residue(n), cap) == n % cap
  {
    var k := PowerOfTwoIsPow2(cap);
    MaskIsRemainder(Residue(n), k);
    Pow2Word();
    PowerOfTwoDividesWord(cap, 32);
    ModuloOfModulo(n, cap, 0x1_0000_0000);
  }

  /** Counters less than a capacity apart select different slots. */
  lemma DistinctSlots(a: nat, b: nat, cap: nat)
    requires cap > 0 && a < b < a + cap
    ensures a % cap != b % cap
  {
    var d := b / cap - a / cap;
    assert a == (a / cap) * cap + a % cap;
    assert b == (b / cap) * cap + b % cap;
    assert b - a == d * cap + (b % cap - a % cap);
    MultipleLeaves(d, cap);
  }

  // ---- The invariant ----

  ghost predicate Inv<T(!new)>(s: State<T>)
  {
    var cap, p, c := |s.slots|, |s.pushed|, |s.popped|;
    && GoodGeometry(cap)
    && s.tail == Residue(p)
    && s.head == Residue(c)
    && s.popped <= s.pushed
    && p - c <= cap
    && (forall k :: c <= k < p ==> s.slots[k % cap] == s.pushed[k])
    && (!s.producer.Idle? ==> s.producer.t == s.tail)
    && (s.producer.Checked? || s.producer.Written? || s.producer.Submitted? ==> p - c < cap)
    && (s.producer.Written? || s.producer.Submitted? ==> s.slots[p % cap] == s.producer.item)
    && (!s.consumer.Waiting? ==> s.consumer.h == s.head)
    && (s.consumer.Ready? || s.consumer.Taken? ==> c < p)
    && (s.consumer.Taken? ==> s.consumer.taken == s.pushed[c])
  }

  lemma ProducerKeepsInv<T(!new)>(s: State<T>, a: Action<T>)
    requires Inv(s)
    requires a.StartPush? || a.LoadHead? || a.WriteSlot? || a.StoreSubmit?
    ensures Inv(Step(s, a))
  {
    var cap, p, c := |s.slots|, |s.pushed|, |s.popped|;
    if a.LoadHead? {
      ResidueDistance(p, c);
    } else if a.WriteSlot? && s.producer.Checked? {
      SlotOfCounter(p, cap);
      forall k | c <= k < p ensures k % cap != p % cap {
        DistinctSlots(k, p, cap);
      }
    }
  }

  lemma PublishKeepsInv<T(!new)>(s: State<T>)
    requires Inv(s)
    ensures Inv(Step(s, StoreTail))
  {
    if s.producer.Submitted? {
      var cap, p, c := |s.slots|, |s.pushed|, |s.popped|;
      ResidueSucc(p);
      var s' := Step(s, StoreTail);
      forall k | c <= k < p + 1 ensures s'.slots[k % cap] == s'.pushed[k] {
        if k < p {
          assert s'.pushed[k] == s.pushed[k];
        }
      }
    }
  }

  lemma ConsumerKeepsInv<T(!new)>(s: State<T>, a: Action<T>)
    requires Inv(s)
    requires a.StartPop? || a.LoadTail? || a.ReadSlot? || a.Retire?
    ensures Inv(Step(s, a))
  {
    var cap, p, c := |s.slots|, |s.pushed|, |s.popped|;
    if a.LoadTail? {
      ResidueDistance(p, c);
    } else if a.ReadSlot? && s.consumer.Ready? {
      SlotOfCounter(c, cap);
      assert s.slots[c % cap] == s.pushed[c];
    }
  }

  lemma ReleaseKeepsInv<T(!new)>(s: State<T>)
    requires Inv(s)
    ensures Inv(Step(s, StoreHead))
  {
    if s.consumer.Taken? {
      ResidueSucc(|s.popped|);
      var c := |s.popped|;
      assert s.popped == s.pushed[..c];
      assert s.popped + [s.consumer.taken] == s.pushed[..c + 1];
    }
  }

  lemma StepKeepsInv<T(!new)>(s: State<T>, a: Action<T>)
    requires Inv(s)
    ensures Inv(Step(s, a))
  {
    match a
    case StoreTail => PublishKeepsInv(s);
    case StoreHead => ReleaseKeepsInv(s);
    case StartPop | LoadTail | ReadSlot | Retire(_) => ConsumerKeepsInv(s, a);
    case StartPush(_) | LoadHead | WriteSlot | StoreSubmit => ProducerKeepsInv(s, a);
  }

  lemma {:induction false} RunKeepsInv<T(!new)>(s: State<T>, actions: seq<Action<T>>)
    requires Inv(s)
    ensures Inv(Run(s, actions))
    decreases |actions|
  {
    if actions != [] {
      var init := actions[..|actions| - 1];
      RunKeepsInv(s, init);
      StepKeepsInv(Run(s, init), actions[|actions| - 1]);
    }
  }

  // ---- What every interleaving guarantees ----

  /** Both ends are about to touch slot memory, and it is the same slot. */
  predicate SlotRace<T>(s: State<T>)
    requires |s.slots| > 0
  {
    s.producer.Checked? && s.consumer.Ready? &&
    Slot(s.producer.t, |s.slots|) == Slot(s.consumer.h, |s.slots|)
  }

  lemma NoSlotRace<T(!new)>(s: State<T>)
    requires Inv(s)
    ensures !SlotRace(s)
  {
    if s.producer.Checked? && s.consumer.Ready? {
      SlotOfCounter(|s.pushed|, |s.slots|);
      SlotOfCounter(|s.popped|, |s.slots|);
      DistinctSlots(|s.popped|, |s.pushed|, |s.slots|);
    }
  }

  /** Over every interleaving, across any number of index wrap-arounds: the consumed items are a
      prefix of the published ones, at most a capacity of them is outstanding, and the two ends
      never reach for the same slot at once. */
  lemma RingSafety<T(!new)>(wide: bool, slots: seq<T>, actions: seq<Action<T>>)
    requires GoodGeometry(|slots|)
    ensures var s := Run(Init(wide, slots), actions);
            && s.popped <= s.pushed
            && |s.pushed| - |s.popped| <= |slots|
            && !SlotRace(s)
  {
    RunKeepsInv(Init(wide, slots), actions);
    NoSlotRace(Run(Init(wide, slots), actions));
  }

  /** `push` reports `Full` exactly when, at its load of `head`, a whole capacity is outstanding. */
  lemma FullIsExact<T(!new)>(s: State<T>)
    requires Inv(s) && s.producer.TailLoaded?
    ensures Step(s, LoadHead).producer.Idle? <==> |s.pushed| - |s.popped| == |s.slots|
  {
    ResidueDistance(|s.pushed|, |s.popped|);
  }

  /** `pop` reports `None` exactly when, at its load of `tail`, nothing is outstanding. */
  lemma EmptyIsExact<T(!new)>(s: State<T>)
    requires Inv(s) && s.consumer.HeadLoaded?
    ensures Step(s, LoadTail).consumer.Waiting? <==> s.pushed == s.popped
  {
    ResidueDistance(|s.pushed|, |s.popped|);
  }

  // ---- The sequential ring: both ends run to completion ----

  function PushAlone<T>(s: State<T>, item: T): State<T>
    requires |s.slots| > 0
  {
    Step(Step(Step(Step(Step(s, StartPush(item)), LoadHead), WriteSlot), StoreSubmit), StoreTail)
  }

  function PopAlone<T>(s: State<T>): State<T>
    requires |s.slots| > 0
  {
    Step(Step(Step(Step(s, StartPop), LoadTail), ReadSlot), StoreHead)
  }

  predicate Quiescent<T>(s: State<T>)
  {
    s.producer.Idle? && s.consumer.Waiting?
  }

  /** `push` run alone: refuses at capacity and changes nothing, else appends the item. */
  lemma PushAloneMeans<T(!new)>(s: State<T>, item: T)
    requires Inv(s) && Quiescent(s)
    ensures var r := PushAlone(s, item);
            && Inv(r)
            && (|s.pushed| - |s.popped| == |s.slots| ==> r == s)
            && (|s.pushed| - |s.popped| != |s.slots| ==>
                r == s.(slots := s.slots[Slot(s.tail, |s.slots|) := item], tail := WrapAdd(s.tail, 1),
                        submit := SeqnoOf(s.wide, s.tail), pushed := s.pushed + [item]))
  {
    var s1 := Step(s, StartPush(item));
    StepKeepsInv(s, StartPush(item));
    FullIsExact(s1);
    var s2 := Step(s1, LoadHead);
    StepKeepsInv(s1, LoadHead);
    var s3 := Step(s2, WriteSlot);
    StepKeepsInv(s2, WriteSlot);
    var s4 := Step(s3, StoreSubmit);
    StepKeepsInv(s3, StoreSubmit);
    StepKeepsInv(s4, StoreTail);
  }

  /** `pop` run alone: refuses when empty and changes nothing, else takes the oldest item. */
  lemma PopAloneMeans<T(!new)>(s: State<T>)
    requires Inv(s) && Quiescent(s)
    ensures var r := PopAlone(s);
            && Inv(r)
            && (s.pushed == s.popped ==> r == s)
            && (s.pushed != s.popped ==>
                && |s.popped| < |s.pushed|
                && s.slots[Slot(s.head, |s.slots|)] == s.pushed[|s.popped|]
                && r == s.(head := WrapAdd(s.head, 1), popped := s.popped + [s.pushed[|s.popped|]]))
  {
    var s1 := Step(s, StartPop);
    StepKeepsInv(s, StartPop);
    EmptyIsExact(s1);
    var s2 := Step(s1, LoadTail);
    StepKeepsInv(s1, LoadTail);
    var s3 := Step(s2, ReadSlot);
    StepKeepsInv(s2, ReadSlot);
    StepKeepsInv(s3, StoreHead);
  }

  datatype Pushed = Seqno(value: u64) | Full

  /** `infinigpu_ring::Ring` (and the driver's copy of it) as the one object both ends share. */
  class SpscRing<T(!new)> {
    const wide: bool
    const slots: array<T>
    var tail: u32
    var head: u32
    var seqnoSubmit: u64
    var seqnoRetired: u64
    ghost var pushed: seq<T>
    ghost var popped: seq<T>

    ghost function View(): State<T>
      reads this, slots
    {
      State(wide, slots[..], tail, head, seqnoSubmit, seqnoRetired, Idle, Waiting, pushed, popped)
    }

    ghost predicate Valid()
      reads this, slots
    {
      Inv(View())
    }

    /** The unconsumed entries, oldest first. */
    ghost function Contents(): seq<T>
      requires Valid()
      reads this, slots
    {
      pushed[|popped|..]
    }

    constructor (wide: bool, slots: array<T>)
      requires GoodGeometry(slots.Length)
      ensures this.wide == wide && this.slots == slots
      ensures Valid() && View() == Init(wide, slots[..])
    {
      this.wide, this.slots := wide, slots;
      tail, head, seqnoSubmit, seqnoRetired := 0, 0, 0, 0;
      pushed, popped := [], [];
    }

    lemma IndexFacts()
      requires Valid()
      ensures tail == Residue(|pushed|) && head == Residue(|popped|)
      ensures |Contents()| <= slots.Length
    {
    }

    method Len() returns (n: nat)
      requires Valid()
      ensures n == |Contents()|
    {
      ResidueDistance(|pushed|, |popped|);
      n := WrapSub(tail, head);
    }

    method Push(item: T) returns (r: Pushed)
      requires Valid()
      modifies this, slots
      ensures Valid() && View() == PushAlone(old(View()), item)
      ensures r.Full? <==> |old(Contents())| == slots.Length
      ensures r.Full? ==> View() == old(View())
      ensures r.Seqno? ==> Contents() == old(Contents()) + [item]
      ensures r.Seqno? ==> r.value == seqnoSubmit == SeqnoOf(wide, old(tail))
      ensures r.Seqno? ==> r.value == if wide then Residue(|old(pushed)|) + 1 else Residue(|old(pushed)| + 1)
      ensures r.Seqno? ==> pushed == old(pushed) + [item] && popped == old(popped)
      ensures r.Seqno? ==> tail == WrapAdd(old(tail), 1) && seqnoRetired == old(seqnoRetired)
    {
      PushAloneMeans(View(), item);
      ResidueSucc(|pushed|);
      hide Step, PushAlone;
      ResidueDistance(|pushed|, |popped|);
      if WrapSub(tail, head) >= slots.Length {
        return Full;
      }
      slots[Slot(tail, slots.Length)] := item;
      seqnoSubmit := SeqnoOf(wide, tail);
      tail := WrapAdd(tail, 1);
      pushed := pushed + [item];
      assert slots[..] == old(slots[..])[Slot(old(tail), slots.Length) := item];
      r := Seqno(seqnoSubmit);
    }

    method Pop() returns (r: Option<T>)
      requires Valid()
      modifies this
      ensures Valid() && View() == PopAlone(old(View())) && slots[..] == old(slots[..])
      ensures r.None? <==> old(Contents()) == []
      ensures r.None? ==> View() == old(View())
      ensures r.Some? ==> old(Contents()) == [r.value] + Contents()
      ensures r.Some? ==> pushed == old(pushed) && popped == old(popped) + [r.value]
      ensures tail == old(tail) && seqnoSubmit == old(seqnoSubmit) && seqnoRetired == old(seqnoRetired)
    {
      PopAloneMeans(View());
      hide Step, PopAlone;
      ResidueDistance(|pushed|, |popped|);
      if head == tail {
        return None;
      }
      var item := slots[Slot(head, slots.Length)];
      assert pushed[|popped|..] == [item] + pushed[|popped| + 1..];
      head := WrapAdd(head, 1);
      popped := popped + [item];
      r := Some(item);
    }

    method Retire(seqno: u64)
      requires Valid()
      modifies this`seqnoRetired
      ensures Valid() && View() == old(View()).(retired := seqno)
    {
      seqnoRetired := seqno;
    }

    /** `is_fence_signaled`: the wrap-safe conjunct only matters half the 64-bit space away. */
    method IsFenceSignaled(seqno: u64) returns (signaled: bool)
      ensures signaled <==> 0 <= seqnoRetired - seqno < 0x8000_0000_0000_0000
    {
      signaled := (seqnoRetired - seqno) % 0x1_0000_0000_0000_0000 < 0x8000_0000_0000_0000
                  && seqnoRetired >= seqno;
    }
  }
}
