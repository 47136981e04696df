/**
 Uniform and storage buffers at submit: each captured slot becomes the bytes its descriptor names,
 clipped to what is mapped, or is left out.
 */
module Buffers {
  import opened Words
  import opened Wire
  import Codec
  import CmdList
  import D = Descriptors

  const WHOLE_SIZE: u64 := 0xFFFF_FFFF_FFFF_FFFF
  const MAX_UBO_BYTES := 65536

  /** `total_size` bytes at `map`, if there is a mapping. */
  datatype Memory = Memory(mapped: bool, bytes: Bytes)

  type Memories = nat -> Memory

  predicate Sized(m: Memory) { |m.bytes| < 0x1_0000_0000_0000_0000 }

  /** The bytes of a descriptor range: everything from `offset` for the whole-size range, otherwise
      `range` bytes as far as the buffer goes; nothing if that is empty or larger than `cap`. */
  function Window(m: Memory, offset: u64, range: u64, cap: nat): Option<Bytes>
  {
    if !m.mapped || offset >= |m.bytes| then None
    else
      var avail := |m.bytes| - offset;
      var asked: int := if range == WHOLE_SIZE then avail else range;
      var n := if asked > avail then avail else asked;
      if n == 0 || n > cap then None else Some(m.bytes[offset..offset + n])
  }

  /** `k` is an offset into the buffer that the descriptor names. */
  predicate Named(m: Memory, offset: u64, range: u64, k: nat)
  {
    offset <= k < |m.bytes| && (range == WHOLE_SIZE || k < offset + range)
  }

  ghost predicate Shows(m: Memory, offset: u64, range: u64, w: Bytes)
  {
    && (forall k: nat :: Named(m, offset, range, k) <==> offset <= k < offset + |w|)
    && (forall i :: 0 <= i < |w| ==> offset + i < |m.bytes| && w[i] == m.bytes[offset + i])
  }

  /** A window holds exactly the bytes the descriptor names, in order, and none beyond the mapping;
      it is missing when they are none or too many. */
  lemma WindowIsNamed(m: Memory, offset: u64, range: u64, cap: nat)
    requires Sized(m)
    ensures var w := Window(m, offset, range, cap);
            w.Some? ==> m.mapped && 0 < |w.value| <= cap && Shows(m, offset, range, w.value)
    ensures Window(m, offset, range, cap).None? && m.mapped ==>
              (forall k: nat :: !Named(m, offset, range, k)) ||
              (exists k: nat :: Named(m, offset, range, k) && k >= offset + cap)
  {
    var w := Window(m, offset, range, cap);
    if w.None? && m.mapped && offset < |m.bytes| {
      var n := if range == WHOLE_SIZE || range > |m.bytes| - offset then |m.bytes| - offset else range;
      if n > cap {
        assert Named(m, offset, range, offset + cap);
      }
    }
  }

  // ---- Uniform buffers ----

  type Slot = D.Entry<D.Buffer>

  function UboWindow(memories: Memories, s: Slot): Option<Bytes>
  {
    Window(memories(s.value.buffer), s.value.offset, s.value.range, MAX_UBO_BYTES)
  }

  function GatherUbos(memories: Memories, slots: seq<Slot>): seq<Codec.Ubo>
  {
    if slots == [] then []
    else
      var rest, s := GatherUbos(memories, slots[..|slots| - 1]), slots[|slots| - 1];
      match UboWindow(memories, s)
      case None => rest
      case Some(w) => rest + [Codec.Ubo(s.binding, w)]
  }

  method GatherUbosLoop(memories: Memories, slots: seq<Slot>) returns (ubos: seq<Codec.Ubo>)
    ensures ubos == GatherUbos(memories, slots)
  {
    ubos := [];
    for i := 0 to |slots|
      invariant ubos == GatherUbos(memories, slots[..i])
    {
      assert slots[..i + 1][..i] == slots[..i];
      var du := slots[i];
      var m := memories(du.value.buffer);
      if !m.mapped || du.value.offset >= |m.bytes| {
        continue;
      }
      var avail := |m.bytes| - du.value.offset;
      var range: int := if du.value.range == WHOLE_SIZE then avail else du.value.range;
      if range > avail {
        range := avail;
      }
      if range == 0 || range > MAX_UBO_BYTES {
        continue;
      }
      ubos := ubos + [Codec.Ubo(du.binding, m.bytes[du.value.offset..du.value.offset + range])];
    }
    assert slots[..|slots|] == slots;
  }

  /** Uniform `u` is the window of one of the slots. */
  ghost predicate FromSlot(memories: Memories, slots: seq<Slot>, u: Codec.Ubo)
  {
    exists s :: s in slots && s.binding == u.binding && UboWindow(memories, s) == Some(u.bytes)
  }

  lemma WindowSize(m: Memory, offset: u64, range: u64, cap: nat)
    requires Window(m, offset, range, cap).Some?
    ensures 0 < |Window(m, offset, range, cap).value| <= cap
  {
  }

  /** The uniforms forwarded are exactly the non-empty windows of the slots. */
  lemma {:induction false} GatheredUbos(memories: Memories, slots: seq<Slot>)
    ensures var us := GatherUbos(memories, slots);
            && |us| <= |slots|
            && (forall u :: u in us ==> FromSlot(memories, slots, u))
            && (forall s :: s in slots && UboWindow(memories, s).Some? ==>
                  Codec.Ubo(s.binding, UboWindow(memories, s).value) in us)
  {
    if slots != [] {
      var init, last := slots[..|slots| - 1], slots[|slots| - 1];
      GatheredUbos(memories, init);
      hide UboWindow;
      assert slots == init + [last];
      var us := GatherUbos(memories, slots);
      forall u | u in us ensures FromSlot(memories, slots, u) {
        if u in GatherUbos(memories, init) {
          assert FromSlot(memories, init, u);
        } else {
          assert last in slots;
        }
      }
    }
  }

  lemma {:induction false} GatheredDistinct(memories: Memories, slots: seq<Slot>)
    requires D.Distinct(slots)
    ensures var us := GatherUbos(memories, slots);
            forall i :: 0 <= i < |us| ==> Codec.Unbound(us[..i], us[i].binding)
  {
    if slots != [] {
      var init, last := slots[..|slots| - 1], slots[|slots| - 1];
      GatheredDistinct(memories, init);
      GatheredUbos(memories, init);
      hide UboWindow, Codec.Unbound;
      var before, us := GatherUbos(memories, init), GatherUbos(memories, slots);
      forall u | u in before ensures u.binding != last.binding {
        assert FromSlot(memories, init, u);
      }
      AllUnbound(before, last.binding);
      forall i | 0 <= i < |us| ensures Codec.Unbound(us[..i], us[i].binding) {
        assert us[..i] == before[..i];
        if i == |before| {
          assert before[..i] == before;
        }
      }
    }
  }

  lemma AllUnbound(us: seq<Codec.Ubo>, binding: u32)
    requires forall u :: u in us ==> u.binding != binding
    ensures Codec.Unbound(us, binding)
  {
  }

  /** A uniform's binding is one the host can place beside the textures and the storage buffer. */
  predicate Placeable(t: Codec.Tail, binding: u32)
  {
    binding <= 65535 && !Codec.InTexRange(t, binding) && !(t.ssboLen > 0 && binding == t.ssboBinding)
  }

  /** After any descriptor writes the host accepts the forwarded uniforms exactly when every one has
      a binding it can place: their number, sizes and distinctness never fail. */
  lemma UbosAcceptedIff(memories: Memories, ws: seq<D.Write>, t: Codec.Tail)
    ensures var us := GatherUbos(memories, D.Run(ws).ubos);
            && |us| <= 16
            && (Codec.UbosFit(t, us) <==> forall u :: u in us ==> Placeable(t, u.binding))
  {
    D.SetAfterWrites(ws);
    var slots := D.Run(ws).ubos;
    hide D.FirstBindings, D.Fold, D.Run, D.UboWrites, D.TextureWrites, GatherUbos, Codec.Unbound, Codec.InTexRange;
    GatheredUbos(memories, slots);
    GatheredDistinct(memories, slots);
    var us := GatherUbos(memories, slots);
    forall u | u in us ensures |u.bytes| <= 65536 {
      assert FromSlot(memories, slots, u);
      var s :| s in slots && s.binding == u.binding && UboWindow(memories, s) == Some(u.bytes);
      WindowSize(memories(s.value.buffer), s.value.offset, s.value.range, MAX_UBO_BYTES);
    }
    if Codec.UbosFit(t, us) {
      forall u | u in us ensures Placeable(t, u.binding) {
        var i :| 0 <= i < |us| && us[i] == u;
        assert Codec.GoodUbo(t, us[i]);
      }
    }
  }

  // ---- The storage buffer ----

  datatype Ssbo = Ssbo(binding: u32, bytes: Bytes)

  const NO_SSBO := Ssbo(0, [])

  function SsboFor(memories: Memories, slot: Option<Slot>): Ssbo
  {
    if slot.Some? && SsboWindow(memories, slot.value).Some?
    then Ssbo(slot.value.binding, SsboWindow(memories, slot.value).value) else NO_SSBO
  }

  /** What the list carries for the storage buffer: no bytes when there is none to forward. */
  method GatherSsbo(memories: Memories, slot: Option<Slot>) returns (r: Ssbo)
    ensures r == SsboFor(memories, slot)
    ensures r.bytes == [] ==> r == NO_SSBO
    ensures r.bytes != [] <==> slot.Some? && SsboWindow(memories, slot.value).Some?
    ensures r.bytes != [] ==>
              r == Ssbo(slot.value.binding, SsboWindow(memories, slot.value).value) && |r.bytes| <= Codec.MAX_SSBO_BYTES
  {
    r := NO_SSBO;
    if slot.Some? {
      var s := slot.value;
      var m := memories(s.value.buffer);
      if m.mapped && s.value.offset < |m.bytes| {
        var avail := |m.bytes| - s.value.offset;
        var range: int := if s.value.range == WHOLE_SIZE then avail else s.value.range;
        if range > avail {
          range := avail;
        }
        if range > 0 && range <= 16 * 1024 * 1024 {
          r := Ssbo(s.binding, m.bytes[s.value.offset..s.value.offset + range]);
        }
      }
    }
  }

  function SsboWindow(memories: Memories, s: Slot): Option<Bytes>
  {
    Window(memories(s.value.buffer), s.value.offset, s.value.range, 16 * 1024 * 1024)
  }

  // ---- What reaches the host ----

  ghost predicate AllSized(memories: Memories) { forall b: nat :: Sized(memories(b)) }

  /** The range names at least one mapped byte and at most `cap`. */
  ghost predicate Carriable(m: Memory, offset: u64, range: u64, cap: nat)
  {
    && m.mapped && (exists k: nat :: Named(m, offset, range, k))
    && forall k: nat :: Named(m, offset, range, k) ==> k < offset + cap
  }

  /** `bs` are exactly the bytes the range names, in order. */
  ghost predicate IsRange(memories: Memories, buf: D.Buffer, bs: Bytes)
  {
    memories(buf.buffer).mapped && Shows(memories(buf.buffer), buf.offset, buf.range, bs)
  }

  lemma WindowIff(m: Memory, offset: u64, range: u64, cap: nat)
    requires Sized(m)
    ensures Window(m, offset, range, cap).Some? <==> Carriable(m, offset, range, cap)
    ensures Window(m, offset, range, cap).Some? ==>
              Shows(m, offset, range, Window(m, offset, range, cap).value) && |Window(m, offset, range, cap).value| > 0
  {
    WindowIsNamed(m, offset, range, cap);
    var w := Window(m, offset, range, cap);
    if w.Some? {
      assert Named(m, offset, range, offset);
    }
    hide Window, Named;
  }

  /** A uniform the host got holds the bytes of the range last written there. */
  ghost predicate UniformAt(memories: Memories, ws: seq<D.Write>, u: Codec.Ubo)
  {
    D.LatestUbo(ws, u.binding).Some? && IsRange(memories, D.LatestUbo(ws, u.binding).value, u.bytes)
  }

  ghost predicate CarriedIff(memories: Memories, ws: seq<D.Write>, us: seq<Codec.Ubo>, b: u32)
  {
    D.LatestUbo(ws, b).Some? ==>
      var buf := D.LatestUbo(ws, b).value;
      Carriable(memories(buf.buffer), buf.offset, buf.range, 65536) <==> exists u :: u in us && u.binding == b
  }

  lemma UniformsGathered(memories: Memories, ws: seq<D.Write>)
    requires AllSized(memories)
    ensures var us := GatherUbos(memories, D.Run(ws).ubos);
            && (forall u :: u in us ==> UniformAt(memories, ws, u))
            && (forall b: u32 :: D.Early(8, D.Opened(ws, D.UboOpened), b) ==> CarriedIff(memories, ws, us, b))
  {
    D.SlotsAreLatest(ws);
    var slots := D.Run(ws).ubos;
    GatheredUbos(memories, slots);
    var us := GatherUbos(memories, slots);
    hide D.Run, D.Opened, D.Early, D.LatestUbo, D.LatestView, D.LatestSampler, GatherUbos, Window, Carriable, Shows;
    forall u | u in us ensures UniformAt(memories, ws, u) {
      assert FromSlot(memories, slots, u);
      var s :| s in slots && s.binding == u.binding && UboWindow(memories, s) == Some(u.bytes);
      WindowIff(memories(s.value.buffer), s.value.offset, s.value.range, MAX_UBO_BYTES);
      WindowIsNamed(memories(s.value.buffer), s.value.offset, s.value.range, MAX_UBO_BYTES);
    }
    forall b: u32 | D.Early(8, D.Opened(ws, D.UboOpened), b) ensures CarriedIff(memories, ws, us, b) {
      assert D.Slotted(slots, b);
      var k :| 0 <= k < |slots| && slots[k].binding == b;
      WindowIff(memories(slots[k].value.buffer), slots[k].value.offset, slots[k].value.range, MAX_UBO_BYTES);
      SlotCarriedIff(memories, slots, us, k);
    }
  }

  lemma SlotCarriedIff(memories: Memories, slots: seq<Slot>, us: seq<Codec.Ubo>, k: nat)
    requires D.Distinct(slots) && k < |slots|
    requires forall u :: u in us ==> FromSlot(memories, slots, u)
    requires forall s :: s in slots && UboWindow(memories, s).Some? ==>
               Codec.Ubo(s.binding, UboWindow(memories, s).value) in us
    ensures UboWindow(memories, slots[k]).Some? <==> exists u :: u in us && u.binding == slots[k].binding
  {
    hide UboWindow;
    assert slots[k] in slots;
    if u :| u in us && u.binding == slots[k].binding {
      assert FromSlot(memories, slots, u);
      var s :| s in slots && s.binding == u.binding && UboWindow(memories, s) == Some(u.bytes);
      var j :| 0 <= j < |slots| && slots[j] == s;
      assert j == k;
    }
  }

  ghost predicate StorageIs(memories: Memories, ws: seq<D.Write>, st: Option<CmdList.Storage>)
  {
    match D.LatestSsbo(ws)
    case None => st.None?
    case Some(e) =>
      var m := memories(e.value.buffer);
      && (st.Some? <==> Carriable(m, e.value.offset, e.value.range, 16 * 1024 * 1024))
      && (st.Some? ==> st.value.binding == e.binding && IsRange(memories, e.value, st.value.bytes))
  }

  lemma StorageGathered(memories: Memories, ws: seq<D.Write>)
    requires AllSized(memories)
    ensures var r := SsboFor(memories, D.Run(ws).ssbo);
            StorageIs(memories, ws, if r.bytes == [] then None else Some(CmdList.Storage(r.binding, r.bytes)))
  {
    D.SlotsAreLatest(ws);
    var e := D.LatestSsbo(ws);
    if e.Some? {
      var b := e.value.value;
      WindowIff(memories(b.buffer), b.offset, b.range, 16 * 1024 * 1024);
      WindowIsNamed(memories(b.buffer), b.offset, b.range, 16 * 1024 * 1024);
    }
    hide D.Run, D.LatestSsbo, D.Opened, D.Early, Window, Carriable, Shows;
  }

  /** Uniform and storage buffers survive end to end. After any descriptor writes, if the host accepts
      the encoded list: every uniform holds exactly the bytes of the range last written to its binding;
      each of the first eight uniform bindings written has one exactly when its range names some mapped
      byte and no more than 65536; and the storage buffer is the range last written, up to 16 MiB. */
  lemma BuffersSurvive(ws: seq<D.Write>, memories: Memories, l: CmdList.List, cap: u32, max: nat)
    requires AllSized(memories) && CmdList.CTypes(l) && CmdList.Encode(l, cap).Some?
    requires l.ubos == GatherUbos(memories, D.Run(ws).ubos)
    requires Ssbo(l.ssboBinding, l.ssbo) == SsboFor(memories, D.Run(ws).ssbo)
    ensures var r := CmdList.Decode(CmdList.Encode(l, cap).value, max);
            r.Some? ==>
              && (forall u :: u in r.value.uniforms ==> UniformAt(memories, ws, u))
              && (forall b: u32 :: D.Early(8, D.Opened(ws, D.UboOpened), b) ==>
                    CarriedIff(memories, ws, r.value.uniforms, b))
              && StorageIs(memories, ws, r.value.storage)
  {
    CmdList.RoundTripIff(l, cap, max);
    UniformsGathered(memories, ws);
    StorageGathered(memories, ws);
    hide *;
    if CmdList.Decode(CmdList.Encode(l, cap).value, max).Some? {
      CarriesBuffers(CmdList.Decode(CmdList.Encode(l, cap).value, max).value, l);
    }
  }

  lemma CarriesBuffers(d: CmdList.Draw, l: CmdList.List)
    requires CmdList.Carries(d, l)
    ensures d.uniforms == l.ubos
    ensures d.storage == if l.ssbo == [] then None else Some(CmdList.Storage(l.ssboBinding, l.ssbo))
  {
    hide Codec.Carves;
  }
}
