/**
 The guest driver's side of the command ring: pushes under `ring_lock` whose doorbell write drains
 the ring before it returns. Descriptors are ring items; the payload region that follows them in
 the DMA buffer is a byte array, and `ram` is the rest of guest memory, where out-of-line payloads
 live.
 */
module Doorbell {
  import opened Words
  import Ring
  import Drain

  type Descriptor = Drain.Descriptor

  const CAP: nat := 16                 // descriptor slots
  const PSTRIDE: nat := 128            // payload bytes per slot
  const DESC_BYTES: nat := 512         // 16 descriptors of 32 bytes precede the payload region
  const MAX_PAYLOAD: nat := 0x400_0000 // 64 MiB
  const PAYLOAD_ABS: nat := 4          // desc_flags bit 2

  /** What `execute_descriptor` hands to the dispatchers, or drops before reaching them. */
  datatype Executed = Delivered(msgType: u32, payload: seq<byte>) | Dropped(msgType: u32)

  /** Phase 2's payload read: bounded, from the absolute address or from the ring's own region. */
  function PayloadOf(d: Descriptor, region: seq<byte>, ram: seq<byte>): Option<seq<byte>>
  {
    if d.len > MAX_PAYLOAD then None
    else if d.len == 0 then Some([])
    else if HasBit(d.flags, 2) then
      if d.payloadAddr + d.len <= |ram| then Some(ram[d.payloadAddr..d.payloadAddr + d.len]) else None
    else
      var o := d.dataOffset - DESC_BYTES;
      if 0 <= o && o + d.len <= |region| then Some(region[o..o + d.len]) else None
  }

  /** What is read for a descriptor, byte by byte: at most 64 MiB, from the guest address when bit 2 of
      the flags is set, else from the payload region, which starts 512 bytes into the buffer; refused
      when that reaches outside, except that an empty payload is not read at all. */
  lemma PayloadBytes(d: Descriptor, region: seq<byte>, ram: seq<byte>)
    ensures var abs := d.flags / 4 % 2 == 1;
            var p := PayloadOf(d, region, ram);
            && (p.Some? <==>
                && d.len <= 0x400_0000
                && (if d.len == 0 then true
                    else if abs then d.payloadAddr + d.len <= |ram|
                    else 512 <= d.dataOffset && d.dataOffset + d.len <= 512 + |region|))
            && (p.Some? ==> |p.value| == d.len)
            && (p.Some? && abs ==> forall i :: 0 <= i < d.len ==> p.value[i] == ram[d.payloadAddr + i])
            && (p.Some? && !abs ==> forall i :: 0 <= i < d.len ==> p.value[i] == region[d.dataOffset - 512 + i])
  {
    assert HasBit(d.flags, 2) <==> d.flags / 4 % 2 == 1 by {
      assert HasBit(d.flags, 2) == HasBit(d.flags / 2, 1) == HasBit(d.flags / 2 / 2, 0);
      assert d.flags / 2 / 2 == d.flags / 4;
    }
    hide HasBit;
  }

  function Execute(d: Descriptor, region: seq<byte>, ram: seq<byte>): Executed
  {
    match PayloadOf(d, region, ram)
    case Some(p) => Delivered(d.msgType, p)
    case None => Dropped(d.msgType)
  }

  function ExecuteAll(ds: seq<Descriptor>, region: seq<byte>, ram: seq<byte>): (es: seq<Executed>)
    ensures |es| == |ds|
  {
    if ds == [] then [] else ExecuteAll(ds[..|ds| - 1], region, ram) + [Execute(ds[|ds| - 1], region, ram)]
  }

  /** In pop order: each descriptor's execution is at its own place. */
  lemma {:induction false} ExecutedInOrder(ds: seq<Descriptor>, region: seq<byte>, ram: seq<byte>, i: nat)
    requires i < |ds|
    ensures ExecuteAll(ds, region, ram)[i] == Execute(ds[i], region, ram)
  {
    if i < |ds| - 1 {
      ExecutedInOrder(ds[..|ds| - 1], region, ram, i);
    }
  }

  datatype Submit = Completed(want: u64) | Busy | TimedOut(want: u64)

  const ATTEMPTS: nat := 64
  const POLLS: nat := 20000

  // ---- Other threads' locked sections ----

  datatype Section =
    | InlinePush(msgType: u32, payload: seq<byte>)
    | AbsolutePush(msgType: u32, addr: u64, len: u32)

  predicate Fits(x: Section) { x.InlinePush? ==> |x.payload| <= PSTRIDE }

  /** How many of the sections push: an inline message too long for its slot is dropped. */
  function Pushes(xs: seq<Section>): nat
  {
    if xs == [] then 0 else Pushes(xs[..|xs| - 1]) + if Fits(xs[|xs| - 1]) then 1 else 0
  }

  /** What is executed for them, in order. */
  function Messages(xs: seq<Section>, ram: seq<byte>): seq<Executed>
  {
    if xs == [] then []
    else Messages(xs[..|xs| - 1], ram) + if Fits(xs[|xs| - 1]) then [MessageOf(xs[|xs| - 1], ram)] else []
  }

  function MessageOf(x: Section, ram: seq<byte>): Executed
  {
    match x
    case InlinePush(t, p) => Delivered(t, p)
    case AbsolutePush(t, addr, len) =>
      if len == 0 then Delivered(t, [])
      else if len <= MAX_PAYLOAD && addr + len <= |ram| then Delivered(t, ram[addr..addr + len])
      else Dropped(t)
  }

  /** Pushes made by others in the first `n` gaps. */
  function PushesIn(others: nat -> seq<Section>, n: nat): nat
  {
    if n == 0 then 0 else PushesIn(others, n - 1) + Pushes(others(n - 1))
  }

  /** Whether the waiter whose push was number `n + 1` sees its seqno once `k` more pushes have
      retired. */
  predicate Released(n: nat, k: nat)
  {
    Drain.SeqnoAfter(n + 1 + k) >= Drain.SeqnoAfter(n + 1)
  }

  /** Exactly when the poll succeeds: as long as the tail the push was stamped from, plus the pushes
      since, does not wrap. */
  lemma ReleasedIff(n: nat, k: nat)
    requires k < 0x1_0000_0000
    ensures Released(n, k) <==> Residue(n) + k < 0x1_0000_0000
  {
    ResidueAhead(n, k);
  }

  lemma ResidueAhead(n: nat, k: nat)
    requires k < 0x1_0000_0000
    ensures Residue(n + k) == if Residue(n) + k < 0x1_0000_0000 then Residue(n) + k else Residue(n) + k - 0x1_0000_0000
  {
  }

  class Device {
    const ring: Ring.SpscRing<Descriptor>
    const payloads: array<byte>
    var ram: seq<byte>
    /** The broker's admission decision; a VM that is not admitted drains nothing. */
    var admitted: bool
    var executed: seq<Executed>
    /** Doorbell writes made outside the lock, by a submitter that found the ring full. */
    var nudges: nat

    ghost predicate Valid()
      reads this, ring, ring.slots, payloads
    {
      && ring.Valid() && ring.wide && ring.slots.Length == CAP
      && payloads.Length == CAP * PSTRIDE
      && ring.seqnoSubmit == Drain.SeqnoAfter(|ring.pushed|)
    }

    /** What every lock holder finds and leaves behind. */
    ghost predicate LockFree()
      reads this, ring, ring.slots, payloads
    {
      Valid() && admitted && ring.Contents() == [] && ring.seqnoRetired == ring.seqnoSubmit
    }

    constructor (ram: seq<byte>, zero: Descriptor)
      ensures LockFree() && ring.tail == 0 && this.ram == ram && executed == [] && nudges == 0
      ensures fresh(ring) && fresh(ring.slots) && fresh(payloads)
    {
      var slots := new Descriptor[CAP](_ => zero);
      assert Ring.IsPowerOfTwo(16) by { assert Ring.IsPowerOfTwo(4); }
      ring := new Ring.SpscRing(true, slots);
      payloads := new byte[CAP * PSTRIDE](_ => 0);
      this.ram := ram;
      admitted := true;
      executed := [];
      nudges := 0;
    }

    /** `drain_ctx`, run to completion inside the non-posted doorbell write: executes everything
        outstanding in order, then retires the highest seqno. */
    method RingDoorbell()
      requires Valid()
      modifies this`executed, ring
      ensures Valid() && ring.slots[..] == old(ring.slots[..])
      ensures !admitted ==> executed == old(executed) && ring.View() == old(ring.View())
      ensures admitted ==> ring.Contents() == []
      ensures admitted ==> executed == old(executed) + ExecuteAll(old(ring.Contents()), payloads[..], ram)
      ensures admitted ==>
                && |executed| == |old(executed)| + |old(ring.Contents())|
                && executed[..|old(executed)|] == old(executed)
                && forall i :: 0 <= i < |old(ring.Contents())| ==>
                     executed[|old(executed)| + i] == Execute(old(ring.Contents())[i], payloads[..], ram)
      ensures ring.tail == old(ring.tail) && ring.seqnoSubmit == old(ring.seqnoSubmit)
      ensures ring.pushed == old(ring.pushed)
      ensures ring.seqnoRetired ==
              if admitted && old(ring.Contents()) != [] && Drain.HighestSeqno(old(ring.Contents())) > 0
              then Drain.HighestSeqno(old(ring.Contents())) else old(ring.seqnoRetired)
    {
      ring.IndexFacts();
      hide Ring.PopAlone, Ring.PushAlone, Ring.Step, Ring.Inv, PayloadOf;
      if !admitted {
        return;
      }
      var batch, highest := Drain.PopBatch(ring, ring.slots.Length);
      assert batch == old(ring.Contents());
      ExecuteBatch(batch);
      forall i | 0 <= i < |batch|
        ensures ExecuteAll(batch, payloads[..], ram)[i] == Execute(batch[i], payloads[..], ram)
      {
        ExecutedInOrder(batch, payloads[..], ram, i);
      }
      if highest > 0 {
        ring.Retire(highest);
      }
    }

    /** Phase 2: every popped descriptor, in order. */
    method ExecuteBatch(batch: seq<Descriptor>)
      modifies this`executed
      ensures executed == old(executed) + ExecuteAll(batch, payloads[..], ram)
    {
      hide Execute;
      for i := 0 to |batch|
        invariant executed == old(executed) + ExecuteAll(batch[..i], payloads[..], ram)
      {
        assert batch[..i + 1][..i] == batch[..i];
        executed := executed + [Execute(batch[i], payloads[..], ram)];
      }
      assert batch[..|batch|] == batch;
    }

    /** The driver's `memcpy` of a message into its slot's payload region. */
    method Stage(slot: nat, payload: seq<byte>)
      requires slot < CAP && |payload| <= PSTRIDE && payloads.Length == CAP * PSTRIDE
      modifies payloads
      ensures payloads[..][slot * PSTRIDE..slot * PSTRIDE + |payload|] == payload
    {
      var base := slot * PSTRIDE;
      for i := 0 to |payload|
        invariant payloads[base..base + i] == payload[..i]
      {
        payloads[base + i] := payload[i];
        assert payload[..i + 1] == payload[..i] + [payload[i]];
        assert payloads[base..base + i + 1] == payloads[base..base + i] + [payload[i]];
      }
      assert payloads[..][base..base + |payload|] == payloads[base..base + |payload|];
      assert payload[..|payload|] == payload;
    }

    lemma InlinePayload(d: Descriptor, slot: nat, payload: seq<byte>, region: seq<byte>)
      requires slot < CAP && |payload| <= PSTRIDE && |region| == CAP * PSTRIDE
      requires d.flags == 0 && d.len == |payload| && d.dataOffset == DESC_BYTES + slot * PSTRIDE
      requires region[slot * PSTRIDE..slot * PSTRIDE + |payload|] == payload
      ensures forall mem :: PayloadOf(d, region, mem) == Some(payload)
    {
      ZeroHasNoBit(2);
    }

    lemma AbsolutePayload(d: Descriptor, region: seq<byte>, mem: seq<byte>)
      requires d.flags == PAYLOAD_ABS
      ensures PayloadOf(d, region, mem) ==
              if d.len == 0 then Some([])
              else if d.len <= MAX_PAYLOAD && d.payloadAddr + d.len <= |mem|
              then Some(mem[d.payloadAddr..d.payloadAddr + d.len]) else None
    {
      assert HasBit(2, 1) && HasBit(1, 0);
    }

    /** Fill the slot and publish `seqno_submit` and `tail`. */
    method WriteSlot(d: Descriptor)
      requires Valid() && d.seqno == ring.tail + 1 && |ring.Contents()| < CAP
      modifies ring, ring.slots
      ensures Valid()
      ensures ring.Contents() == old(ring.Contents()) + [d]
      ensures ring.seqnoSubmit == d.seqno && ring.seqnoRetired == old(ring.seqnoRetired)
      ensures ring.tail == WrapAdd(old(ring.tail), 1)
      ensures |ring.pushed| == |old(ring.pushed)| + 1
    {
      ring.IndexFacts();
      hide Ring.PopAlone, Ring.PushAlone, Ring.Step, Ring.Inv, WrapAdd;
      var _ := ring.Push(d);
    }

    /** The common end of both pushes: publish the descriptor, ring the doorbell, and load the
        retired word. */
    method Publish(d: Descriptor) returns (retired: u32)
      requires Valid() && d.seqno == ring.tail + 1 && |ring.Contents()| < CAP
      modifies this`executed, ring, ring.slots
      ensures Valid()
      ensures old(LockFree()) ==>
                && LockFree()
                && executed == old(executed) + [Execute(d, payloads[..], ram)]
                && ring.seqnoSubmit == ring.seqnoRetired == old(ring.tail) + 1
                && ring.tail == WrapAdd(old(ring.tail), 1)
                && retired == ring.tail
                && |ring.pushed| == |old(ring.pushed)| + 1
    {
      NextWord(ring.tail);
      hide Ring.PopAlone, Ring.PushAlone, Ring.Step, Ring.Inv, Execute, WrapAdd, Residue, Drain.SeqnoAfter;
      OneDescriptor(d, payloads[..], ram);
      hide ExecuteAll, Drain.HighestSeqno;
      ghost var free := LockFree();
      WriteSlot(d);
      assert free ==> ring.Contents() == [d];
      RingDoorbell();
      assert free ==> ring.seqnoRetired == d.seqno;
      retired := Residue(ring.seqnoRetired);
    }

    /** `igpu_ring2_push`. With the lock's invariant the message is executed, with exactly the
        staged bytes, before the call returns; the full branch is not taken. */
    method Ring2Push(msgType: u32, payload: seq<byte>) returns (retired: u32)
      requires Valid() && |payload| < 0x1_0000_0000
      modifies this`executed, ring, ring.slots, payloads
      ensures Valid()
      ensures |payload| > PSTRIDE ==>
                retired == 0 && executed == old(executed) && ring.View() == old(ring.View())
      ensures old(LockFree()) ==> LockFree()
      ensures old(LockFree()) && |payload| <= PSTRIDE ==>
                && executed == old(executed) + [Delivered(msgType, payload)]
                && ring.seqnoSubmit == ring.seqnoRetired == old(ring.tail) + 1
                && ring.tail == WrapAdd(old(ring.tail), 1)
                && retired == ring.tail
                && |ring.pushed| == |old(ring.pushed)| + 1
      ensures |payload| > PSTRIDE ==> ring.pushed == old(ring.pushed)
    {
      hide Ring.Inv, Ring.Slot, PayloadOf;
      var tail: int := ring.tail;
      var outstanding := ring.Len();
      if outstanding >= CAP {
        return 0;
      }
      if |payload| > PSTRIDE {
        return 0;
      }
      var slot := Ring.Slot(tail, CAP);
      Stage(slot, payload);
      var d := Drain.Descriptor(msgType, 0, |payload|, DESC_BYTES + slot * PSTRIDE, tail + 1, 0);
      InlinePayload(d, slot, payload, payloads[..]);
      retired := Publish(d);
    }

    /** `igpu_ring2_push_abs`: the payload stays where the caller staged it in guest memory. */
    method Ring2PushAbs(msgType: u32, addr: u64, len: u32) returns (retired: u32)
      requires Valid()
      modifies this`executed, ring, ring.slots
      ensures Valid()
      ensures old(LockFree()) ==> LockFree()
      ensures old(LockFree()) ==>
                && executed == old(executed) +
                               [if len == 0 then Delivered(msgType, [])
                                else if len <= MAX_PAYLOAD && addr + len <= |ram|
                                then Delivered(msgType, ram[addr..addr + len]) else Dropped(msgType)]
                && ring.seqnoSubmit == ring.seqnoRetired == old(ring.tail) + 1
                && ring.tail == WrapAdd(old(ring.tail), 1)
                && retired == ring.tail
                && |ring.pushed| == |old(ring.pushed)| + 1
    {
      hide Ring.Inv, PayloadOf;
      var tail: int := ring.tail;
      var outstanding := ring.Len();
      if outstanding >= CAP {
        return Residue(ring.seqnoRetired);
      }
      var d := Drain.Descriptor(msgType, PAYLOAD_ABS, len, 0, tail + 1, addr);
      AbsolutePayload(d, payloads[..], ram);
      retired := Publish(d);
    }

    lemma NextWord(a: u32)
      ensures WrapAdd(a, 1) == Residue(a + 1)
    {
    }

    lemma OneDescriptor(d: Descriptor, region: seq<byte>, mem: seq<byte>)
      ensures Drain.HighestSeqno([d]) == d.seqno
      ensures ExecuteAll([d], region, mem) == [Execute(d, region, mem)]
    {
      assert [d][..0] == [];
      assert Drain.HighestSeqno([]) == 0 && ExecuteAll([], region, mem) == [];
    }

    /** Any number of locked sections of other threads, one after the other. */
    method RunSections(xs: seq<Section>)
      requires Valid() && forall x :: x in xs && x.InlinePush? ==> |x.payload| < 0x1_0000_0000
      modifies this`executed, ring, ring.slots, payloads
      ensures Valid()
      ensures old(LockFree()) ==>
                && LockFree()
                && |ring.pushed| == |old(ring.pushed)| + Pushes(xs)
                && executed == old(executed) + Messages(xs, ram)
    {
      hide Ring.Inv, MessageOf;
      ghost var free := LockFree();
      for i := 0 to |xs|
        invariant Valid()
        invariant free ==>
                    && LockFree()
                    && |ring.pushed| == |old(ring.pushed)| + Pushes(xs[..i])
                    && executed == old(executed) + Messages(xs[..i], ram)
      {
        assert xs[..i + 1][..i] == xs[..i];
        RunSection(xs[i]);
      }
      assert xs[..|xs|] == xs;
    }

    method RunSection(x: Section)
      requires Valid() && (x.InlinePush? ==> |x.payload| < 0x1_0000_0000)
      modifies this`executed, ring, ring.slots, payloads
      ensures Valid()
      ensures old(LockFree()) ==>
                && LockFree()
                && |ring.pushed| == |old(ring.pushed)| + (if Fits(x) then 1 else 0)
                && executed == old(executed) + if Fits(x) then [MessageOf(x, ram)] else []
    {
      hide Ring.Inv;
      match x {
        case InlinePush(t, p) => var _ := Ring2Push(t, p);
        case AbsolutePush(t, addr, len) => var _ := Ring2PushAbs(t, addr, len);
      }
    }

    /** The attempts of `igpu_submit_forwarded`: each is one locked section that pushes and compares
        `seqno_submit` before and after; a full ring is nudged outside the lock. From a free lock the
        first attempt succeeds and no nudge is written. `others` are the sections of other threads
        that run in the gaps. */
    method PushForwarded(addr: u64, len: u32, others: nat -> seq<Section>) returns (want: u64)
      requires Valid() && AllSendable(others)
      modifies this`executed, this`nudges, ring, ring.slots, payloads
      ensures Valid()
      ensures old(LockFree()) ==>
                && LockFree() && nudges == old(nudges)
                && want == ring.seqnoSubmit == Drain.SeqnoAfter(|old(ring.pushed)| + 1)
                && |ring.pushed| == |old(ring.pushed)| + 1
                && executed == old(executed) + [MessageOf(AbsolutePush(0x30, addr, len), ram)]
    {
      hide Ring.Inv;
      want := 0;
      var i := 0;
      ghost var free := LockFree();
      while i < ATTEMPTS && want == 0
        invariant 0 <= i <= ATTEMPTS && Valid()
        invariant free && want == 0 ==>
                    i == 0 && LockFree() && nudges == old(nudges) && ring.pushed == old(ring.pushed)
                    && executed == old(executed)
        invariant free && want != 0 ==>
                    && LockFree() && nudges == old(nudges)
                    && want == ring.seqnoSubmit == Drain.SeqnoAfter(|old(ring.pushed)| + 1)
                    && |ring.pushed| == |old(ring.pushed)| + 1
                    && executed == old(executed) + [MessageOf(AbsolutePush(0x30, addr, len), ram)]
      {
        Drain.SeqnoMoves(|ring.pushed|);
        var before := ring.seqnoSubmit;
        var _ := Ring2PushAbs(0x30, addr, len);
        var after := ring.seqnoSubmit;
        if after != before {
          want := after;
        } else {
          nudges := nudges + 1;
          RingDoorbell();
          RunSections(others(POLLS + i));
        }
        i := i + 1;
      }
    }

    /** `igpu_submit_forwarded`. The polls hold no lock: before poll `i` the sections `others(i)` of
        other threads run. From a free lock the submit is executed and never finds the ring full, and
        it completes if some poll sees its seqno, else it times out although it was executed. */
    method SubmitForwarded(addr: u64, len: u32, others: nat -> seq<Section>) returns (r: Submit)
      requires Valid() && AllSendable(others)
      modifies this`executed, this`nudges, ring, ring.slots, payloads
      ensures Valid()
      ensures old(LockFree()) ==>
                && LockFree() && nudges == old(nudges)
                && !r.Busy? && r.want == old(ring.tail) + 1
                && old(executed) + [MessageOf(AbsolutePush(0x30, addr, len), ram)] <= executed
      ensures old(LockFree()) && r.Completed? ==>
                exists i :: 0 < i <= POLLS && Released(|old(ring.pushed)|, PushesIn(others, i))
      ensures old(LockFree()) && r.TimedOut? ==>
                forall i :: 0 < i <= POLLS ==> !Released(|old(ring.pushed)|, PushesIn(others, i))
      ensures old(LockFree()) && old(ring.tail) + Pushes(others(0)) < 0x1_0000_0000 ==> r.Completed?
    {
      ring.IndexFacts();
      ghost var n := |ring.pushed|;
      ghost var first := PushesIn(others, 1);
      assert first == Pushes(others(0)) by { assert PushesIn(others, 0) == 0; }
      if Residue(n) + first < 0x1_0000_0000 {
        ReleasedIff(n, first);
      }
      ghost var free := LockFree();
      var want := PushForwarded(addr, len, others);
      hide Ring.Inv, Pushes, PushesIn, Messages, MessageOf, Residue, Released;
      if want == 0 {
        return Busy;
      }
      var seen := AwaitRetired(want, others, n);
      r := if seen then Completed(want) else TimedOut(want);
    }

    /** The bounded poll of the retired word for the seqno of push number `n + 1`. */
    method AwaitRetired(want: u64, others: nat -> seq<Section>, ghost n: nat) returns (seen: bool)
      requires Valid() && AllSendable(others)
      modifies this`executed, ring, ring.slots, payloads
      ensures Valid()
      ensures old(LockFree()) && |old(ring.pushed)| == n + 1 && want == Drain.SeqnoAfter(n + 1) ==>
                && LockFree() && old(executed) <= executed
                && (seen ==> exists i :: 0 < i <= POLLS && Released(n, PushesIn(others, i)))
                && (!seen ==> forall i :: 0 < i <= POLLS ==> !Released(n, PushesIn(others, i)))
    {
      hide Ring.Inv, Pushes, Messages, MessageOf, Residue;
      ghost var free := LockFree() && |ring.pushed| == n + 1 && want == Drain.SeqnoAfter(n + 1);
      for poll := 0 to POLLS
        invariant Valid()
        invariant free ==>
                    && LockFree() && old(executed) <= executed
                    && |ring.pushed| == n + 1 + PushesIn(others, poll)
                    && (forall i :: 0 < i <= poll ==> !Released(n, PushesIn(others, i)))
      {
        RunSections(others(poll));
        if ring.seqnoRetired >= want {
          assert free ==> Released(n, PushesIn(others, poll + 1));
          return true;
        }
      }
      return false;
    }
  }

  ghost predicate AllSendable(others: nat -> seq<Section>)
  {
    forall i: nat, x :: x in others(i) && x.InlinePush? ==> |x.payload| < 0x1_0000_0000
  }
}
