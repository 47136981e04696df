/**
 Frame elision: a forwarded payload identical to the last one rendered into the same scanout is not
 rendered again. Rendering is an unknown but deterministic function of the payload; guest RAM is
 reached through the DMA table.
 */
module Elision {
  import opened Words
  import Codec
  import Dma

  /** What the GPU makes of a payload: nothing if it cannot be decoded or rendered. */
  type Renderer = Bytes -> Option<Bytes>

  const MAX_CMD_BYTES := 0x400_0000
  const MAX_ENTRIES := 8

  datatype Device = Device(ram: Dma.Ram, cache: map<u64, bv64>, retired: map<nat, u64>)

  datatype Range = Range(addr: u64, len: nat)

  datatype Event =
    | Submit(ctx: nat, seqno: u64, admitted: bool, payloadLen: u32, payload: Bytes)
    | Clear(ctx: nat, seqno: u64, addr: u64, pixels: Option<Bytes>)
    | Present(ctx: nat, seqno: u64, admitted: bool, frame: Range)
    | PresentDamaged(ctx: nat, seqno: u64, admitted: bool, rows: seq<Range>)
    | SkippedFlush
    | RetireBatch(ctx: nat, seqno: u64)
    | Remap(op: Option<Dma.Op>)
    | Reset
    | GuestStore(addr: u64, bytes: Bytes)

  // ---- The payload ----

  const FNV_OFFSET: bv64 := 0xcbf2_9ce4_8422_2325
  const FNV_PRIME: bv64 := 0x0000_0100_0000_01b3

  function Mix(h: bv64, b: byte): bv64 { (h ^ (b as bv64)) * FNV_PRIME }

  function Fnv1a(data: Bytes): bv64
  {
    if data == [] then FNV_OFFSET else Mix(Fnv1a(data[..|data| - 1]), data[|data| - 1])
  }

  method Fnv1aLoop(data: Bytes) returns (h: bv64)
    ensures h == Fnv1a(data)
  {
    hide Mix;
    h := FNV_OFFSET;
    for i := 0 to |data|
      invariant h == Fnv1a(data[..i])
    {
      assert data[..i + 1][..i] == data[..i];
      h := Mix(h, data[i]);
    }
    assert data[..|data|] == data;
  }

  function Geometry(p: Bytes): Codec.Header
    requires |p| >= 40
  {
    Codec.HeaderOf(BytesToWords(p[..40]))
  }

  /** The guards before the elision check. */
  predicate Accepted(e: Event)
    requires e.Submit?
  {
    && e.admitted && e.payloadLen <= MAX_CMD_BYTES && |e.payload| >= 40
    && var g := Geometry(e.payload);
       g.width != 0 && g.height != 0 && g.width <= 16384 && g.height <= 16384 && Area(g.width, g.height) <= MAX_CMD_BYTES
  }

  function ScanoutOf(p: Bytes): u64
  {
    if |p| >= 40 then Geometry(p).scanoutAddr else 0
  }

  // ---- The device ----

  function Retire(s: Device, ctx: nat, seqno: u64): Device
  {
    s.(retired := s.retired[ctx := seqno])
  }

  /** The result of a present into guest RAM: address 0 means there is nothing to write. */
  function Presented(r: Dma.Ram, addr: u64, px: Bytes): Option<Dma.Ram>
  {
    if addr == 0 then Some(r) else Dma.Write(r, addr, px)
  }

  function Remember(cache: map<u64, bv64>, addr: u64, hash: bv64): map<u64, bv64>
  {
    (if |cache| >= MAX_ENTRIES then map[] else cache)[addr := hash]
  }

  predicate Elides(elide: bool, s: Device, p: Bytes)
  {
    elide && ScanoutOf(p) != 0 && ScanoutOf(p) in s.cache && s.cache[ScanoutOf(p)] == Fnv1a(p)
  }

  function Render(render: Renderer, elide: bool, s: Device, p: Bytes): Device
  {
    match render(p)
    case None => s
    case Some(px) =>
      match Presented(s.ram, ScanoutOf(p), px)
      case None => s
      case Some(ram) =>
        s.(ram := ram,
           cache := if elide && ScanoutOf(p) != 0 then Remember(s.cache, ScanoutOf(p), Fnv1a(p)) else s.cache)
  }

  predicate Mapped(maps: Dma.Maps, r: Range)
  {
    Dma.Resolve(maps, r.addr, r.len).Some?
  }

  /** A map or unmap call; a map whose `mmap` fails leaves the table as it was. */
  function Remapped(maps: Dma.Maps, op: Option<Dma.Op>): Dma.Maps
  {
    if op.Some? then Dma.Apply(maps, op.value) else maps
  }

  function Step(render: Renderer, elide: bool, s: Device, e: Event): Device
  {
    match e
    case Submit(ctx, seqno, _, _, p) =>
      Retire(if !Accepted(e) || Elides(elide, s, p) then s else Render(render, elide, s, p), ctx, seqno)
    case Clear(ctx, seqno, addr, pixels) =>
      var s1 := s.(cache := map[]);
      if pixels.None? then s1
      else
        (match Dma.Write(s.ram, addr, pixels.value)
         case None => s1
         case Some(ram) => Retire(s1.(ram := ram), ctx, seqno))
    case Present(ctx, seqno, admitted, frame) =>
      if admitted && Mapped(s.ram.maps, frame) then Retire(s, ctx, seqno) else s
    case PresentDamaged(ctx, seqno, admitted, rows) =>
      var s1 := s.(cache := map[]);
      if admitted && (forall r :: r in rows ==> Mapped(s.ram.maps, r)) then Retire(s1, ctx, seqno) else s1
    case SkippedFlush => s.(cache := map[])
    case RetireBatch(ctx, seqno) => Retire(s, ctx, seqno)
    case Remap(op) => s.(cache := map[], ram := s.ram.(maps := Remapped(s.ram.maps, op)))
    case Reset => s.(cache := map[], retired := map[])
    case GuestStore(addr, bytes) =>
      match Dma.Write(s.ram, addr, bytes)
      case None => s
      case Some(ram) => s.(ram := ram)
  }

  function Run(render: Renderer, elide: bool, s: Device, es: seq<Event>): Device
  {
    if es == [] then s else Step(render, elide, Run(render, elide, s, es[..|es| - 1]), es[|es| - 1])
  }

  // ---- When elision may be trusted ----

  /** Both byte strings agree wherever they cover the same guest byte. */
  predicate AgreeOnOverlap(a: u64, px: Bytes, b: u64, qx: Bytes)
  {
    forall i | 0 <= i < |px| && b <= a + i < b + |qx| :: px[i] == qx[a + i - b]
  }

  /** The payload renders to something that goes to a scanout. */
  predicate Shows(render: Renderer, p: Bytes)
  {
    render(p).Some? && ScanoutOf(p) != 0
  }

  /** Frames at different addresses agree on the bytes they share; payloads for one address that hash
      alike render alike. */
  ghost predicate TrustedPair(render: Renderer, p: Bytes, q: Bytes)
  {
    Shows(render, p) && Shows(render, q) ==>
      if ScanoutOf(p) == ScanoutOf(q) then Fnv1a(p) == Fnv1a(q) ==> render(p) == render(q)
      else AgreeOnOverlap(ScanoutOf(p), render(p).value, ScanoutOf(q), render(q).value)
  }

  /** The guest stores nothing else into the presented frame. */
  ghost predicate TrustedStore(render: Renderer, p: Bytes, addr: u64, bytes: Bytes)
  {
    Shows(render, p) ==> AgreeOnOverlap(ScanoutOf(p), render(p).value, addr, bytes)
  }

  predicate Renders(e: Event) { e.Submit? && Accepted(e) }

  ghost predicate Trusted(render: Renderer, es: seq<Event>)
  {
    && (forall d, e :: d in es && e in es && Renders(d) && Renders(e) ==> TrustedPair(render, d.payload, e.payload))
    && (forall d, e :: d in es && e in es && Renders(d) && e.GuestStore? ==>
          TrustedStore(render, d.payload, e.addr, e.bytes))
  }

  function MapsAfter(maps: Dma.Maps, es: seq<Event>): Dma.Maps
  {
    if es == [] then maps
    else
      var e, before := es[|es| - 1], MapsAfter(maps, es[..|es| - 1]);
      if e.Remap? then Remapped(before, e.op) else before
  }

  /** No remap ever makes two mappings overlap, in guest or in host space. */
  ghost predicate GoodThroughout(ram: Dma.Ram, es: seq<Event>)
  {
    forall k :: 0 <= k <= |es| ==> Dma.Good(ram.(maps := MapsAfter(ram.maps, es[..k])))
  }

  // ---- Reading and writing ----

  lemma GoodIsAboutMaps(r: Dma.Ram, mem: Bytes)
    requires Dma.Good(r) && |mem| == |r.mem|
    ensures Dma.Good(r.(mem := mem))
  {
  }

  lemma WriteShape(r: Dma.Ram, a: u64, px: Bytes)
    requires Dma.Write(r, a, px).Some?
    ensures var w := Dma.Write(r, a, px).value; w.maps == r.maps && |w.mem| == |r.mem|
  {
  }

  /** Writing what is already there changes nothing. */
  lemma WriteSame(r: Dma.Ram, a: u64, px: Bytes)
    requires Dma.Read(r, a, |px|) == Some(px)
    ensures Dma.Write(r, a, px) == Some(r)
  {
    var p := Dma.Resolve(r.maps, a, |px|).value;
    assert r.mem[..p] + px + r.mem[p + |px|..] == r.mem;
    hide Dma.Resolve;
  }

  lemma ReadBack(r: Dma.Ram, a: u64, px: Bytes)
    requires Dma.Write(r, a, px).Some?
    ensures Dma.Read(Dma.Write(r, a, px).value, a, |px|) == Some(px)
  {
    hide Dma.Resolve;
  }

  /** Writing over a buffer is idle exactly when it holds those bytes. */
  lemma WriteIdleIff(r: Dma.Ram, a: u64, px: Bytes)
    requires Dma.Write(r, a, px).Some?
    ensures Dma.Write(r, a, px) == Some(r) <==> Dma.Read(r, a, |px|) == Some(px)
  {
    ReadBack(r, a, px);
    if Dma.Read(r, a, |px|) == Some(px) {
      WriteSame(r, a, px);
    }
    hide Dma.Read, Dma.Write;
  }

  lemma StillReadableIff(r: Dma.Ram, a: u64, px: Bytes, b: u64, qx: Bytes)
    requires Dma.Good(r) && Dma.Read(r, a, |px|) == Some(px) && Dma.Write(r, b, qx).Some?
    ensures Dma.Read(Dma.Write(r, b, qx).value, a, |px|) == Some(px) <==> AgreeOnOverlap(a, px, b, qx)
  {
    var w := Dma.Write(r, b, qx).value;
    ReadableAfter(r, a, |px|, b, qx);
    var now := Dma.Read(w, a, |px|).value;
    assert |now| == |px| by { ReadLength(w, a, |px|); }
    forall i | 0 <= i < |px|
      ensures now[i] == if b <= a + i < b + |qx| then qx[a + i - b] else px[i]
    {
      PixelAfter(r, a, px, b, qx, i);
    }
    hide Dma.Read, Dma.Write, Dma.Good;
    if now == px {
      assert AgreeOnOverlap(a, px, b, qx);
    }
  }

  lemma ReadLength(r: Dma.Ram, a: u64, n: nat)
    requires Dma.Read(r, a, n).Some?
    ensures |Dma.Read(r, a, n).value| == n
  {
  }

  lemma ReadableAfter(r: Dma.Ram, a: u64, n: nat, b: u64, qx: Bytes)
    requires Dma.Read(r, a, n).Some? && Dma.Write(r, b, qx).Some?
    ensures Dma.Read(Dma.Write(r, b, qx).value, a, n).Some?
  {
    hide Dma.Resolve;
  }

  lemma PixelAfter(r: Dma.Ram, a: u64, px: Bytes, b: u64, qx: Bytes, i: nat)
    requires Dma.Good(r) && Dma.Read(r, a, |px|) == Some(px) && Dma.Write(r, b, qx).Some? && i < |px|
    ensures var now := Dma.Read(Dma.Write(r, b, qx).value, a, |px|);
            && now.Some? && i < |now.value|
            && now.value[i] == if b <= a + i < b + |qx| then qx[a + i - b] else px[i]
  {
    hide Dma.Read, Dma.Write, Dma.Resolve, Dma.Peek, Dma.Good;
    var w := Dma.Write(r, b, qx).value;
    ReadableAfter(r, a, |px|, b, qx);
    Dma.ReadIsPeek(r, a, |px|, i);
    MappedByte(r, a, |px|, i);
    Dma.WriteIsPoke(r, b, qx, a + i);
    Dma.ReadIsPeek(w, a, |px|, i);
  }

  lemma MappedByte(r: Dma.Ram, a: u64, n: nat, i: nat)
    requires Dma.Good(r) && Dma.Read(r, a, n).Some? && i < n
    ensures a + i < 0x1_0000_0000_0000_0000 && Dma.Resolve(r.maps, a + i, 1).Some?
  {
    var m := Dma.ContainerOf(r, a, n);
    assert Dma.Contains(m, a + i, 1);
    Dma.ResolvedInside(r, m, a + i, 1);
    hide Dma.Resolve, Dma.Read;
  }

  // ---- The invariant: every remembered frame is in its buffer ----

  ghost predicate InBuffer(render: Renderer, ram: Dma.Ram, p: Bytes)
  {
    ScanoutOf(p) != 0 && render(p).Some? && Dma.Read(ram, ScanoutOf(p), |render(p).value|) == Some(render(p).value)
  }

  ghost predicate RememberedAt(render: Renderer, s: Device, es: seq<Event>, a: u64)
    requires a in s.cache
  {
    exists e :: e in es && Renders(e) && Fnv1a(e.payload) == s.cache[a] && ScanoutOf(e.payload) == a
                && InBuffer(render, s.ram, e.payload)
  }

  ghost predicate Remembered(render: Renderer, s: Device, es: seq<Event>)
  {
    forall a :: a in s.cache ==> RememberedAt(render, s, es, a)
  }

  /** What an elided submit skips would not have changed the memory. */
  lemma SkipIsIdle(render: Renderer, s: Device, es: seq<Event>, e: Event)
    requires Remembered(render, s, es) && e in es && Renders(e) && Trusted(render, es) && Elides(true, s, e.payload)
    ensures Render(render, false, s, e.payload).ram == s.ram
  {
    hide Fnv1a, ScanoutOf, Dma.Read, Dma.Write, Accepted, AgreeOnOverlap;
    var a := ScanoutOf(e.payload);
    assert RememberedAt(render, s, es, a);
    var d :| d in es && Renders(d) && Fnv1a(d.payload) == s.cache[a] && ScanoutOf(d.payload) == a
             && InBuffer(render, s.ram, d.payload);
    assert TrustedPair(render, d.payload, e.payload);
    if render(e.payload).Some? {
      WriteSame(s.ram, a, render(e.payload).value);
    }
  }

  lemma StillInBuffer(render: Renderer, ram: Dma.Ram, p: Bytes, b: u64, bs: Bytes)
    requires Dma.Good(ram) && InBuffer(render, ram, p) && Dma.Write(ram, b, bs).Some?
    requires AgreeOnOverlap(ScanoutOf(p), render(p).value, b, bs)
    ensures InBuffer(render, Dma.Write(ram, b, bs).value, p)
  {
    StillReadableIff(ram, ScanoutOf(p), render(p).value, b, bs);
    hide Dma.Read, Dma.Write, Dma.Good, ScanoutOf, AgreeOnOverlap;
  }

  /** Rendering one more frame keeps every remembered frame in its buffer. */
  lemma RenderRemembers(render: Renderer, s: Device, es: seq<Event>, e: Event)
    requires Dma.Good(s.ram) && Remembered(render, s, es) && e in es && Renders(e) && Trusted(render, es)
    ensures Remembered(render, Render(render, true, s, e.payload), es)
  {
    hide Fnv1a, ScanoutOf, Dma.Read, Dma.Write, Dma.Good, Remember, Trusted, RememberedAt;
    var p := e.payload;
    var b, t := ScanoutOf(p), Render(render, true, s, p);
    if b != 0 && render(p).Some? && Dma.Write(s.ram, b, render(p).value).Some? {
      forall a | a in t.cache ensures RememberedAt(render, t, es, a) {
        RememberKeeps(s.cache, b, Fnv1a(p), a);
        if a == b {
          JustRendered(render, s, es, e);
        } else {
          ElsewhereRemembered(render, s, es, e, a);
        }
      }
    }
  }

  lemma RememberKeeps(cache: map<u64, bv64>, b: u64, h: bv64, a: u64)
    ensures b in Remember(cache, b, h) && Remember(cache, b, h)[b] == h
    ensures a != b && a in Remember(cache, b, h) ==> a in cache && Remember(cache, b, h)[a] == cache[a]
  {
  }

  lemma JustRendered(render: Renderer, s: Device, es: seq<Event>, e: Event)
    requires e in es && Renders(e) && ScanoutOf(e.payload) != 0 && render(e.payload).Some?
    requires Dma.Write(s.ram, ScanoutOf(e.payload), render(e.payload).value).Some?
    ensures var t := Render(render, true, s, e.payload);
            ScanoutOf(e.payload) in t.cache && RememberedAt(render, t, es, ScanoutOf(e.payload))
  {
    hide Fnv1a, ScanoutOf, Dma.Read, Dma.Write, Remember;
    var b := ScanoutOf(e.payload);
    RememberKeeps(s.cache, b, Fnv1a(e.payload), b);
    ReadBack(s.ram, b, render(e.payload).value);
    assert InBuffer(render, Render(render, true, s, e.payload).ram, e.payload);
  }

  lemma ElsewhereRemembered(render: Renderer, s: Device, es: seq<Event>, e: Event, a: u64)
    requires Dma.Good(s.ram) && e in es && Renders(e) && Trusted(render, es)
    requires ScanoutOf(e.payload) != 0 && render(e.payload).Some? && a != ScanoutOf(e.payload)
    requires Dma.Write(s.ram, ScanoutOf(e.payload), render(e.payload).value).Some?
    requires a in s.cache && RememberedAt(render, s, es, a) && a in Render(render, true, s, e.payload).cache
    ensures RememberedAt(render, Render(render, true, s, e.payload), es, a)
  {
    hide Fnv1a, ScanoutOf, Dma.Read, Dma.Write, Dma.Good, Remember, Accepted, AgreeOnOverlap;
    var b := ScanoutOf(e.payload);
    var d :| d in es && Renders(d) && Fnv1a(d.payload) == s.cache[a] && ScanoutOf(d.payload) == a
             && InBuffer(render, s.ram, d.payload);
    assert TrustedPair(render, d.payload, e.payload);
    StillInBuffer(render, s.ram, d.payload, b, render(e.payload).value);
    RememberKeeps(s.cache, b, Fnv1a(e.payload), a);
  }

  lemma StoreRemembers(render: Renderer, s: Device, es: seq<Event>, e: Event)
    requires Dma.Good(s.ram) && Remembered(render, s, es) && e in es && e.GuestStore? && Trusted(render, es)
    ensures Remembered(render, Step(render, true, s, e), es)
  {
    var t := Step(render, true, s, e);
    hide Dma.Read, Dma.Write, Dma.Good, Fnv1a, ScanoutOf, Accepted, AgreeOnOverlap;
    forall a | a in t.cache ensures RememberedAt(render, t, es, a) {
      assert RememberedAt(render, s, es, a);
      var d :| d in es && Renders(d) && Fnv1a(d.payload) == s.cache[a] && ScanoutOf(d.payload) == a
               && InBuffer(render, s.ram, d.payload);
      assert TrustedStore(render, d.payload, e.addr, e.bytes);
      if Dma.Write(s.ram, e.addr, e.bytes).Some? {
        StillInBuffer(render, s.ram, d.payload, e.addr, e.bytes);
      }
    }
  }

  predicate SameOutside(s: Device, t: Device)
  {
    s.ram == t.ram && s.retired == t.retired
  }

  /** One event keeps the two devices alike and the remembered frames in place. */
  lemma StepAlike(render: Renderer, s: Device, t: Device, es: seq<Event>, e: Event)
    requires Dma.Good(s.ram) && Remembered(render, s, es) && SameOutside(s, t) && e in es && Trusted(render, es)
    ensures SameOutside(Step(render, true, s, e), Step(render, false, t, e))
    ensures Remembered(render, Step(render, true, s, e), es)
  {
    hide Dma.Good, Trusted, Accepted, Fnv1a, ScanoutOf, Dma.Resolve, Dma.Write, Remapped;
    match e {
      case Submit(ctx, seqno, _, _, p) =>
        if Accepted(e) {
          RenderDependsOnRam(render, s, t, p);
          if Elides(true, s, p) {
            SkipIsIdle(render, s, es, e);
          } else {
            RenderRemembers(render, s, es, e);
          }
        }
        RetireRemembers(render, s, es, ctx, seqno);
        RetireRemembers(render, Render(render, true, s, p), es, ctx, seqno);
      case GuestStore(_, _) => StoreRemembers(render, s, es, e);
      case Present(ctx, seqno, _, _) => RetireRemembers(render, s, es, ctx, seqno);
      case RetireBatch(ctx, seqno) => RetireRemembers(render, s, es, ctx, seqno);
      case _ =>
    }
  }

  lemma RetireRemembers(render: Renderer, s: Device, es: seq<Event>, ctx: nat, seqno: u64)
    ensures Remembered(render, s, es) ==> Remembered(render, Retire(s, ctx, seqno), es)
  {
    var t := Retire(s, ctx, seqno);
    if Remembered(render, s, es) {
      forall a | a in t.cache ensures RememberedAt(render, t, es, a) {
        assert RememberedAt(render, s, es, a);
      }
    }
    hide InBuffer;
  }

  /** Without elision in play a submit's effect outside depends on the memory alone. */
  lemma RenderDependsOnRam(render: Renderer, s: Device, t: Device, p: Bytes)
    requires SameOutside(s, t)
    ensures SameOutside(Render(render, true, s, p), Render(render, false, t, p))
    ensures Render(render, false, s, p).ram == Render(render, false, t, p).ram
    ensures Render(render, false, s, p).retired == s.retired
    ensures Render(render, true, s, p).retired == s.retired
    ensures Render(render, false, t, p).retired == t.retired
  {
    hide Fnv1a, ScanoutOf, Dma.Write;
  }

  // ---- Whole runs ----

  lemma {:induction false} RunMaps(render: Renderer, elide: bool, s: Device, es: seq<Event>)
    ensures var t := Run(render, elide, s, es);
            t.ram.maps == MapsAfter(s.ram.maps, es) && |t.ram.mem| == |s.ram.mem|
  {
    if es != [] {
      RunMaps(render, elide, s, es[..|es| - 1]);
      StepMaps(render, elide, Run(render, elide, s, es[..|es| - 1]), es[|es| - 1]);
    }
    hide Step;
  }

  lemma StepMaps(render: Renderer, elide: bool, s: Device, e: Event)
    ensures var t := Step(render, elide, s, e);
            t.ram.maps == (if e.Remap? then Remapped(s.ram.maps, e.op) else s.ram.maps) && |t.ram.mem| == |s.ram.mem|
  {
    hide Fnv1a, ScanoutOf, Dma.Resolve, Accepted, Remapped;
  }

  lemma GoodAt(render: Renderer, s: Device, es: seq<Event>, k: nat)
    requires GoodThroughout(s.ram, es) && k <= |es|
    ensures Dma.Good(Run(render, true, s, es[..k]).ram)
  {
    RunMaps(render, true, s, es[..k]);
    GoodIsAboutMaps(s.ram.(maps := MapsAfter(s.ram.maps, es[..k])), Run(render, true, s, es[..k]).ram.mem);
    hide Dma.Good, Run, MapsAfter;
  }

  lemma {:induction false} RunAlike(render: Renderer, s: Device, es: seq<Event>, k: nat)
    requires k <= |es| && s.cache == map[] && GoodThroughout(s.ram, es) && Trusted(render, es)
    ensures SameOutside(Run(render, true, s, es[..k]), Run(render, false, s, es[..k]))
    ensures Remembered(render, Run(render, true, s, es[..k]), es)
  {
    if k > 0 {
      RunAlike(render, s, es, k - 1);
      GoodAt(render, s, es, k - 1);
      assert es[..k][..k - 1] == es[..k - 1];
      StepAlike(render, Run(render, true, s, es[..k - 1]), Run(render, false, s, es[..k - 1]), es, es[k - 1]);
    }
    hide Step, Trusted, GoodThroughout, Remembered, Dma.Good;
    EmptyRemembers(render, s, es);
  }

  lemma EmptyRemembers(render: Renderer, s: Device, es: seq<Event>)
    ensures s.cache == map[] ==> Remembered(render, s, es)
  {
  }

  /** Elision is transparent: from a device with nothing remembered, when payloads for one address that
      hash alike render alike, frames at different addresses agree on the bytes they share, and the
      guest stores nothing else into them, every run ends with the same guest memory and the same
      retired seqnos as the run that renders every frame, through any remaps, resets, clears and 2D
      presents in between. */
  lemma ElisionIsTransparent(render: Renderer, s: Device, es: seq<Event>)
    requires s.cache == map[] && GoodThroughout(s.ram, es) && Trusted(render, es)
    ensures Run(render, true, s, es).ram == Run(render, false, s, es).ram
    ensures Run(render, true, s, es).retired == Run(render, false, s, es).retired
  {
    assert es[..|es|] == es;
    RunAlike(render, s, es, |es|);
    hide Run, Trusted, GoodThroughout;
  }

  // ---- What a submit leaves behind ----

  /** The published test vectors of the hash. */
  lemma FnvVectors()
    ensures Fnv1a([]) == 0xcbf2_9ce4_8422_2325
    ensures Fnv1a([97]) == 0xaf63_dc4c_8601_ec8c
  {
    assert [97][..0] == [];
    assert Fnv1a([97]) == Mix(Fnv1a([]), 97);
  }

  lemma {:induction false} WordAt(b: Bytes, i: nat)
    requires 4 * i + 4 <= |b|
    ensures i < |BytesToWords(b)| && BytesToWords(b)[i] == U32At(b, 4 * i)
  {
    if i > 0 {
      WordAt(b[4..], i - 1);
      assert U32At(b[4..], 4 * (i - 1)) == U32At(b, 4 * i);
    }
  }

  lemma GeometryBytes(p: Bytes)
    requires |p| >= 40
    ensures Geometry(p).width == U32At(p, 4) && Geometry(p).height == U32At(p, 8)
    ensures Geometry(p).scanoutAddr == ScanoutOf(p) == U64At(p, 32)
  {
    var h := p[..40];
    WordAt(h, 1);
    WordAt(h, 2);
    WordAt(h, 8);
    WordAt(h, 9);
    assert U32At(h, 4) == U32At(p, 4) && U32At(h, 8) == U32At(p, 8);
    assert U32At(h, 32) == U32At(p, 32) && U32At(h, 36) == U32At(p, 36);
    hide U32At, BytesToWords;
  }

  /** The guards, on the bytes of the payload: both sides between 1 and 16384, 64 MiB of payload and of
      pixels. */
  predicate Drawable(e: Event)
    requires e.Submit?
  {
    && e.admitted && e.payloadLen <= 0x400_0000 && |e.payload| >= 40
    && 1 <= U32At(e.payload, 4) <= 16384 && 1 <= U32At(e.payload, 8) <= 16384
    && U32At(e.payload, 4) * U32At(e.payload, 8) * 4 <= 0x400_0000
  }

  lemma DrawableIff(e: Event)
    requires e.Submit?
    ensures Accepted(e) <==> Drawable(e)
  {
    if |e.payload| >= 40 {
      GeometryBytes(e.payload);
    }
    hide Geometry, U32At;
  }

  /** Guest memory `after` is `before` with `px` at `addr` and every other mapped byte as it was. */
  ghost predicate HoldsFrame(before: Dma.Ram, after: Dma.Ram, addr: u64, px: Bytes)
  {
    && Dma.Read(after, addr, |px|) == Some(px)
    && forall a: u64 :: !(addr <= a < addr + |px|) && Dma.Resolve(before.maps, a, 1).Some? ==>
         Dma.Peek(after, a) == Dma.Peek(before, a)
  }

  lemma WriteHolds(r: Dma.Ram, addr: u64, px: Bytes)
    requires Dma.Good(r) && Dma.Write(r, addr, px).Some?
    ensures HoldsFrame(r, Dma.Write(r, addr, px).value, addr, px)
  {
    ReadBack(r, addr, px);
    hide Dma.Read, Dma.Write, Dma.Peek, Dma.Good, Dma.Resolve;
    forall a: u64 | !(addr <= a < addr + |px|) && Dma.Resolve(r.maps, a, 1).Some?
      ensures Dma.Peek(Dma.Write(r, addr, px).value, a) == Dma.Peek(r, a)
    {
      Dma.WriteIsPoke(r, addr, px, a);
    }
  }

  lemma AlreadyHolds(r: Dma.Ram, addr: u64, px: Bytes)
    requires Dma.Read(r, addr, |px|) == Some(px)
    ensures HoldsFrame(r, r, addr, px)
  {
  }

  /** With or without elision, at the end of every trusted run that ends in a submit: its seqno is
      retired; if it can be drawn and its buffer written, the buffer holds its frame and no other byte
      has changed; if not, no byte has. */
  lemma SubmitShows(render: Renderer, elide: bool, s: Device, es: seq<Event>)
    requires s.cache == map[] && GoodThroughout(s.ram, es) && Trusted(render, es)
    requires es != [] && es[|es| - 1].Submit?
    ensures var e, was, now := es[|es| - 1], Run(render, elide, s, es[..|es| - 1]), Run(render, elide, s, es);
            && now.retired == was.retired[e.ctx := e.seqno]
            && if Drawable(e) && render(e.payload).Some? && U64At(e.payload, 32) != 0
                  && Dma.Write(was.ram, U64At(e.payload, 32), render(e.payload).value).Some?
               then HoldsFrame(was.ram, now.ram, U64At(e.payload, 32), render(e.payload).value)
               else now.ram == was.ram
  {
    var k := |es| - 1;
    var e, was := es[k], Run(render, elide, s, es[..k]);
    assert es[..k + 1] == es;
    RunAlike(render, s, es, k);
    GoodAt(render, s, es, k);
    DrawableIff(e);
    if |e.payload| >= 40 {
      GeometryBytes(e.payload);
    }
    hide Run, Trusted, GoodThroughout, Remembered, Dma.Good, Accepted, Drawable, Fnv1a, ScanoutOf, Dma.Write;
    hide HoldsFrame, U64At;
    RunNext(render, elide, s, es);
    StepShows(render, elide, was, es, e);
  }

  lemma RunNext(render: Renderer, elide: bool, s: Device, es: seq<Event>)
    requires es != []
    ensures Run(render, elide, s, es) == Step(render, elide, Run(render, elide, s, es[..|es| - 1]), es[|es| - 1])
  {
    hide Step;
  }

  lemma StepShows(render: Renderer, elide: bool, was: Device, es: seq<Event>, e: Event)
    requires e.Submit? && e in es && Trusted(render, es) && Dma.Good(was.ram)
    requires elide ==> Remembered(render, was, es)
    ensures var now, a := Step(render, elide, was, e), ScanoutOf(e.payload);
            && now.retired == was.retired[e.ctx := e.seqno]
            && if Accepted(e) && render(e.payload).Some? && a != 0
                  && Dma.Write(was.ram, a, render(e.payload).value).Some?
               then HoldsFrame(was.ram, now.ram, a, render(e.payload).value)
               else now.ram == was.ram
  {
    hide Trusted, Remembered, Dma.Good, Accepted, Fnv1a, ScanoutOf, Dma.Write, HoldsFrame;
    var a := ScanoutOf(e.payload);
    if Accepted(e) && render(e.payload).Some? && a != 0 && Dma.Write(was.ram, a, render(e.payload).value).Some? {
      if Elides(elide, was, e.payload) {
        ElidedIsThere(render, was, es, e);
        AlreadyHolds(was.ram, a, render(e.payload).value);
      } else {
        WriteHolds(was.ram, a, render(e.payload).value);
      }
    }
  }

  lemma ElidedIsThere(render: Renderer, s: Device, es: seq<Event>, e: Event)
    requires Remembered(render, s, es) && e in es && Renders(e) && Trusted(render, es) && Elides(true, s, e.payload)
    requires render(e.payload).Some?
    ensures Dma.Read(s.ram, ScanoutOf(e.payload), |render(e.payload).value|) == render(e.payload)
  {
    hide Fnv1a, ScanoutOf, Dma.Read, Accepted, AgreeOnOverlap;
    var a := ScanoutOf(e.payload);
    assert RememberedAt(render, s, es, a);
    var d :| d in es && Renders(d) && Fnv1a(d.payload) == s.cache[a] && ScanoutOf(d.payload) == a
             && InBuffer(render, s.ram, d.payload);
    assert TrustedPair(render, d.payload, e.payload);
  }

  /** What the other events do to the fence and to what is remembered. A clear retires only once it is
      written, a present only when it is admitted and its memory mapped; clears, damage presents,
      skipped flushes, remaps and resets forget every frame; nothing but a reset forgets a fence. */
  lemma OtherEvents(render: Renderer, elide: bool, s: Device, e: Event)
    requires !e.Submit?
    ensures var t := Step(render, elide, s, e);
            && (e.Clear? ==>
                  && t.cache == map[]
                  && if e.pixels.Some? && Dma.Write(s.ram, e.addr, e.pixels.value).Some?
                     then t.retired == s.retired[e.ctx := e.seqno] && Some(t.ram) == Dma.Write(s.ram, e.addr, e.pixels.value)
                     else t.retired == s.retired && t.ram == s.ram)
            && (e.Present? ==>
                  && t.cache == s.cache && t.ram == s.ram
                  && t.retired == if e.admitted && Dma.Resolve(s.ram.maps, e.frame.addr, e.frame.len).Some?
                                  then s.retired[e.ctx := e.seqno] else s.retired)
            && (e.PresentDamaged? ==>
                  && t.cache == map[] && t.ram == s.ram
                  && t.retired == if e.admitted && forall r :: r in e.rows ==> Dma.Resolve(s.ram.maps, r.addr, r.len).Some?
                                  then s.retired[e.ctx := e.seqno] else s.retired)
            && (e.SkippedFlush? ==> t == Device(s.ram, map[], s.retired))
            && (e.RetireBatch? ==> t == Device(s.ram, s.cache, s.retired[e.ctx := e.seqno]))
            && (e.Remap? ==> t.cache == map[] && t.retired == s.retired && t.ram.mem == s.ram.mem)
            && (e.Reset? ==> t == Device(s.ram, map[], map[]))
            && (e.GuestStore? ==> t.cache == s.cache && t.retired == s.retired)
  {
    hide Dma.Write, Dma.Resolve, Remapped;
  }

  /** At most eight frames are remembered, over all runs. */
  lemma {:induction false} FewRemembered(render: Renderer, elide: bool, s: Device, es: seq<Event>)
    requires |s.cache| <= 8
    ensures |Run(render, elide, s, es).cache| <= 8
  {
    if es != [] {
      FewRemembered(render, elide, s, es[..|es| - 1]);
      var t := Run(render, elide, s, es[..|es| - 1]);
      RunNext(render, elide, s, es);
      StepFew(render, elide, t, es[|es| - 1]);
    }
    hide Run, Step;
  }

  lemma StepFew(render: Renderer, elide: bool, s: Device, e: Event)
    requires |s.cache| <= 8
    ensures |Step(render, elide, s, e).cache| <= 8
  {
    if e.Submit? {
      var a, h := ScanoutOf(e.payload), Fnv1a(e.payload);
      RememberFew(s.cache, a, h);
    }
    hide Fnv1a, ScanoutOf, Dma.Write, Dma.Resolve, Accepted, Remember;
  }

  lemma RememberFew(cache: map<u64, bv64>, a: u64, h: bv64)
    requires |cache| <= 8
    ensures |Remember(cache, a, h)| <= 8
  {
    var base := if |cache| >= MAX_ENTRIES then map[] else cache;
    assert base[a := h].Keys == base.Keys + {a};
  }

  // ---- The hypotheses are needed ----

  /** Two frames drawn alternately to different addresses, the first one repeated: the repeat is
      elided, and that is transparent exactly when the frames agree on the bytes they share. */
  lemma AlternationIff(render: Renderer, ram: Dma.Ram, p: Event, q: Event)
    requires Dma.Good(ram) && p.Submit? && q.Submit? && Accepted(p) && Accepted(q)
    requires ScanoutOf(p.payload) != ScanoutOf(q.payload) && ScanoutOf(p.payload) != 0 && ScanoutOf(q.payload) != 0
    requires render(p.payload).Some? && Dma.Write(ram, ScanoutOf(p.payload), render(p.payload).value).Some?
    requires render(q.payload).Some? && Dma.Write(ram, ScanoutOf(q.payload), render(q.payload).value).Some?
    ensures var s := Device(ram, map[], map[]);
            Run(render, true, s, [p, q, p]).ram == Run(render, false, s, [p, q, p]).ram <==>
            AgreeOnOverlap(ScanoutOf(p.payload), render(p.payload).value, ScanoutOf(q.payload), render(q.payload).value)
  {
    hide Dma.Good, Dma.Read, Dma.Write, Accepted, ScanoutOf, Fnv1a, AgreeOnOverlap, Run;
    var a, b, px, qx := ScanoutOf(p.payload), ScanoutOf(q.payload), render(p.payload).value, render(q.payload).value;
    var s := Device(ram, map[], map[]);
    var first := Dma.Write(ram, a, px).value;
    WriteShape(ram, a, px);
    GoodIsAboutMaps(ram, first.mem);
    WritableStill(ram, first, b, qx);
    var second := Dma.Write(first, b, qx).value;
    WriteShape(first, b, qx);
    WritableStill(ram, second, a, px);
    ThreeSteps(render, true, s, p, q);
    ThreeSteps(render, false, s, p, q);
    ReadBack(ram, a, px);
    StillReadableIff(first, a, px, b, qx);
    WriteIdleIff(second, a, px);
    RanTwice(render, true, s, p, q, first, second);
    RanTwice(render, false, s, p, q, first, second);
  }

  lemma WritableStill(r: Dma.Ram, s: Dma.Ram, a: u64, px: Bytes)
    requires s.maps == r.maps && |s.mem| == |r.mem| && Dma.Write(r, a, px).Some?
    ensures Dma.Write(s, a, px).Some?
  {
    hide Dma.Resolve;
  }

  lemma {:induction false} ThreeSteps(render: Renderer, elide: bool, s: Device, p: Event, q: Event)
    ensures Run(render, elide, s, [p, q, p]) ==
            Step(render, elide, Step(render, elide, Step(render, elide, s, p), q), p)
  {
    assert [p, q, p][..2] == [p, q] && [p, q][..1] == [p] && [p][..0] == [];
    assert Run(render, elide, s, []) == s;
    hide Step;
    assert Run(render, elide, s, [p]) == Step(render, elide, s, p);
    assert Run(render, elide, s, [p, q]) == Step(render, elide, Step(render, elide, s, p), q);
  }

  /** After the two distinct frames both are in memory, and the first is remembered if elision is on. */
  lemma RanTwice(render: Renderer, elide: bool, s: Device, p: Event, q: Event, first: Dma.Ram, second: Dma.Ram)
    requires p.Submit? && q.Submit? && Accepted(p) && Accepted(q) && s.cache == map[]
    requires ScanoutOf(p.payload) != ScanoutOf(q.payload) && ScanoutOf(p.payload) != 0 && ScanoutOf(q.payload) != 0
    requires render(p.payload).Some? && Dma.Write(s.ram, ScanoutOf(p.payload), render(p.payload).value) == Some(first)
    requires render(q.payload).Some? && Dma.Write(first, ScanoutOf(q.payload), render(q.payload).value) == Some(second)
    ensures var t := Step(render, elide, Step(render, elide, s, p), q);
            && t.ram == second && (Elides(elide, t, p.payload) <==> elide)
            && Step(render, elide, t, p).ram ==
               if elide then second
               else (match Dma.Write(second, ScanoutOf(p.payload), render(p.payload).value)
                     case None => second
                     case Some(r) => r)
  {
    hide Dma.Write, Accepted, ScanoutOf, Fnv1a;
    var a, b := ScanoutOf(p.payload), ScanoutOf(q.payload);
    var s1 := Step(render, elide, s, p);
    assert s1.ram == first && s1.cache == if elide then map[a := Fnv1a(p.payload)] else map[];
    var t := Step(render, elide, s1, q);
    if elide {
      assert !Elides(elide, s1, q.payload);
      assert t.cache == map[a := Fnv1a(p.payload), b := Fnv1a(q.payload)];
    }
  }

  /** A guest store between two submits of one payload: the second is elided all the same, and that is
      transparent exactly when the store agrees with the frame on the bytes they share. */
  lemma StoreBetweenIff(render: Renderer, ram: Dma.Ram, p: Event, b: u64, bs: Bytes)
    requires Dma.Good(ram) && Renders(p) && Shows(render, p.payload)
    requires Dma.Write(ram, ScanoutOf(p.payload), render(p.payload).value).Some? && Dma.Write(ram, b, bs).Some?
    ensures var s, es := Device(ram, map[], map[]), [p, GuestStore(b, bs), p];
            Run(render, true, s, es).ram == Run(render, false, s, es).ram <==>
            AgreeOnOverlap(ScanoutOf(p.payload), render(p.payload).value, b, bs)
  {
    hide Dma.Good, Dma.Read, Dma.Write, Accepted, ScanoutOf, Fnv1a, AgreeOnOverlap, Run, Step;
    var a, px := ScanoutOf(p.payload), render(p.payload).value;
    var s, q := Device(ram, map[], map[]), GuestStore(b, bs);
    var first := Dma.Write(ram, a, px).value;
    WriteShape(ram, a, px);
    GoodIsAboutMaps(ram, first.mem);
    WritableStill(ram, first, b, bs);
    var second := Dma.Write(first, b, bs).value;
    WriteShape(first, b, bs);
    WritableStill(ram, second, a, px);
    ThreeSteps(render, true, s, p, q);
    ThreeSteps(render, false, s, p, q);
    ReadBack(ram, a, px);
    StillReadableIff(first, a, px, b, bs);
    WriteIdleIff(second, a, px);
    RanAndStored(render, true, s, p, b, bs, first, second);
    RanAndStored(render, false, s, p, b, bs, first, second);
  }

  lemma RanAndStored(
    render: Renderer, elide: bool, s: Device, p: Event, b: u64, bs: Bytes, first: Dma.Ram, second: Dma.Ram)
    requires Renders(p) && Shows(render, p.payload) && s.cache == map[]
    requires Dma.Write(s.ram, ScanoutOf(p.payload), render(p.payload).value) == Some(first)
    requires Dma.Write(first, b, bs) == Some(second)
    ensures Step(render, elide, Step(render, elide, Step(render, elide, s, p), GuestStore(b, bs)), p).ram ==
            if elide then second
            else (match Dma.Write(second, ScanoutOf(p.payload), render(p.payload).value)
                  case None => second
                  case Some(r) => r)
  {
    hide Dma.Write, Accepted, ScanoutOf, Fnv1a;
    var s1 := Step(render, elide, s, p);
    assert s1.ram == first && s1.cache == if elide then map[ScanoutOf(p.payload) := Fnv1a(p.payload)] else map[];
  }

  // ---- Runs of submits only ----

  /** The submit renders, and its scanout is mapped. */
  predicate Lands(render: Renderer, ram: Dma.Ram, e: Event)
  {
    Renders(e) && Shows(render, e.payload) && Dma.Write(ram, ScanoutOf(e.payload), render(e.payload).value).Some?
  }

  /** Whatever the memory holds and in whatever order the submits come, elision changes nothing. */
  ghost predicate Transparent(render: Renderer, ram: Dma.Ram, submits: set<Event>)
  {
    forall mem: Bytes, es: seq<Event> :: |mem| == |ram.mem| && (forall e :: e in es ==> e in submits) ==>
      SameRun(render, ram.(mem := mem), es)
  }

  ghost predicate SameRun(render: Renderer, ram: Dma.Ram, es: seq<Event>)
  {
    var s := Device(ram, map[], map[]);
    SameOutside(Run(render, true, s, es), Run(render, false, s, es))
  }

  ghost predicate PairwiseTrusted(render: Renderer, ram: Dma.Ram, submits: set<Event>)
  {
    forall p, q :: p in submits && q in submits && Lands(render, ram, p) && Lands(render, ram, q) ==>
      TrustedPair(render, p.payload, q.payload)
  }

  /** The renderer that makes nothing of a payload whose scanout is not mapped. */
  function Landing(render: Renderer, ram: Dma.Ram): Renderer
  {
    p => if Shows(render, p) && Dma.Write(ram, ScanoutOf(p), render(p).value).None? then None else render(p)
  }

  lemma LandingStep(render: Renderer, ram: Dma.Ram, elide: bool, s: Device, e: Event)
    requires e.Submit? && s.ram.maps == ram.maps && |s.ram.mem| == |ram.mem|
    ensures Step(Landing(render, ram), elide, s, e) == Step(render, elide, s, e)
    ensures var t := Step(render, elide, s, e); t.ram.maps == ram.maps && |t.ram.mem| == |ram.mem|
  {
    var p := e.payload;
    hide Fnv1a, ScanoutOf, Accepted, Dma.Resolve;
  }

  lemma {:induction false} LandingRun(render: Renderer, ram: Dma.Ram, elide: bool, s: Device, es: seq<Event>)
    requires (forall e :: e in es ==> e.Submit?) && s.ram.maps == ram.maps && |s.ram.mem| == |ram.mem|
    ensures Run(Landing(render, ram), elide, s, es) == Run(render, elide, s, es)
    ensures var t := Run(render, elide, s, es); t.ram.maps == ram.maps && |t.ram.mem| == |ram.mem|
  {
    hide Step, Landing;
    if es != [] {
      LandingRun(render, ram, elide, s, es[..|es| - 1]);
      LandingStep(render, ram, elide, Run(render, elide, s, es[..|es| - 1]), es[|es| - 1]);
    }
  }

  lemma {:induction false} SubmitsKeepMaps(maps: Dma.Maps, es: seq<Event>)
    requires forall e :: e in es ==> e.Submit?
    ensures MapsAfter(maps, es) == maps
  {
    if es != [] {
      SubmitsKeepMaps(maps, es[..|es| - 1]);
      assert es[|es| - 1] in es;
    }
  }

  lemma SubmitsGood(ram: Dma.Ram, es: seq<Event>)
    requires Dma.Good(ram) && forall e :: e in es ==> e.Submit?
    ensures GoodThroughout(ram, es)
  {
    forall k | 0 <= k <= |es| ensures Dma.Good(ram.(maps := MapsAfter(ram.maps, es[..k]))) {
      SubmitsKeepMaps(ram.maps, es[..k]);
    }
    hide Dma.Good;
  }

  lemma LandingTrusted(render: Renderer, ram: Dma.Ram, submits: set<Event>, es: seq<Event>)
    requires PairwiseTrusted(render, ram, submits) && (forall e :: e in submits ==> e.Submit?)
    requires forall e :: e in es ==> e in submits
    ensures Trusted(Landing(render, ram), es)
  {
    hide Fnv1a, ScanoutOf, Accepted, Dma.Write, AgreeOnOverlap;
    forall d, e | d in es && e in es && Renders(d) && Renders(e)
      ensures TrustedPair(Landing(render, ram), d.payload, e.payload)
    {
      if Lands(render, ram, d) && Lands(render, ram, e) {
        assert TrustedPair(render, d.payload, e.payload);
      }
    }
  }

  function Flipped(qx: Bytes): (r: Bytes)
    ensures |r| == |qx| && forall i :: 0 <= i < |qx| ==> r[i] != qx[i]
  {
    if qx == [] then [] else Flipped(qx[..|qx| - 1]) + [if qx[|qx| - 1] == 0 then 1 else 0]
  }

  /** Two payloads for one address that hash alike and render differently: in some memory, drawing one
      and then the other is elided wrongly. */
  lemma CollisionShows(render: Renderer, ram: Dma.Ram, p: Event, q: Event)
    requires Dma.Good(ram) && Lands(render, ram, p) && Lands(render, ram, q)
    requires ScanoutOf(p.payload) == ScanoutOf(q.payload) && Fnv1a(p.payload) == Fnv1a(q.payload)
    requires render(p.payload) != render(q.payload) && |render(p.payload).value| <= |render(q.payload).value|
    ensures exists mem: Bytes :: |mem| == |ram.mem| && !SameRun(render, ram.(mem := mem), [p, q])
  {
    hide Dma.Good, Dma.Read, Dma.Write, Accepted, ScanoutOf, Fnv1a, AgreeOnOverlap, Run, Step;
    var a, px, qx := ScanoutOf(p.payload), render(p.payload).value, render(q.payload).value;
    var flip := Flipped(qx);
    SameLength(ram, a, qx, flip);
    var start := Dma.Write(ram, a, flip).value;
    WriteShape(ram, a, flip);
    GoodIsAboutMaps(ram, start.mem);
    ReadBack(ram, a, flip);
    WritableStill(ram, start, a, px);
    var first := Dma.Write(start, a, px).value;
    WriteShape(start, a, px);
    WritableStill(ram, first, a, qx);
    NotShown(start, a, px, qx, flip);
    WriteIdleIff(first, a, qx);
    var s := Device(start, map[], map[]);
    TwoSteps(render, true, s, p, q);
    TwoSteps(render, false, s, p, q);
    Collided(render, true, s, p, q, first);
    Collided(render, false, s, p, q, first);
    assert start == ram.(mem := start.mem);
    assert !SameRun(render, ram.(mem := start.mem), [p, q]);
  }

  lemma SameLength(r: Dma.Ram, a: u64, x: Bytes, y: Bytes)
    requires |x| == |y| && Dma.Write(r, a, x).Some?
    ensures Dma.Write(r, a, y).Some?
  {
    hide Dma.Resolve;
  }

  lemma NotShown(start: Dma.Ram, a: u64, px: Bytes, qx: Bytes, flip: Bytes)
    requires Dma.Good(start) && Dma.Read(start, a, |qx|) == Some(flip) && Dma.Write(start, a, px).Some?
    requires |flip| == |qx| && |px| <= |qx| && px != qx && forall i :: 0 <= i < |qx| ==> flip[i] != qx[i]
    ensures Dma.Read(Dma.Write(start, a, px).value, a, |qx|) != Some(qx)
  {
    hide Dma.Good, Dma.Read, Dma.Write;
    var i: nat := |px|;
    if |px| == |qx| {
      i :| 0 <= i < |px| && px[i] != qx[i];
    }
    PixelAfter(start, a, flip, a, px, i);
  }

  lemma {:induction false} TwoSteps(render: Renderer, elide: bool, s: Device, p: Event, q: Event)
    ensures Run(render, elide, s, [p, q]) == Step(render, elide, Step(render, elide, s, p), q)
  {
    assert [p, q][..1] == [p] && [p][..0] == [];
    assert Run(render, elide, s, []) == s;
    hide Step;
    assert Run(render, elide, s, [p]) == Step(render, elide, s, p);
  }

  lemma Collided(render: Renderer, elide: bool, s: Device, p: Event, q: Event, first: Dma.Ram)
    requires Renders(p) && Renders(q) && Shows(render, p.payload) && Shows(render, q.payload) && s.cache == map[]
    requires ScanoutOf(p.payload) == ScanoutOf(q.payload) && Fnv1a(p.payload) == Fnv1a(q.payload)
    requires Dma.Write(s.ram, ScanoutOf(p.payload), render(p.payload).value) == Some(first)
    ensures Step(render, elide, Step(render, elide, s, p), q).ram ==
            if elide then first
            else (match Dma.Write(first, ScanoutOf(q.payload), render(q.payload).value)
                  case None => first
                  case Some(r) => r)
  {
    hide Dma.Write, Accepted, ScanoutOf, Fnv1a;
    var s1 := Step(render, elide, s, p);
    assert s1.ram == first && s1.cache == if elide then map[ScanoutOf(p.payload) := Fnv1a(p.payload)] else map[];
  }

  /** Exactly which payloads may be elided together: over a set of submits, every run from every
      memory is unchanged by elision if and only if any two of them that land agree on the bytes they
      share, or, at one address, render alike when they hash alike. */
  lemma SubmitsTransparentIff(render: Renderer, ram: Dma.Ram, submits: set<Event>)
    requires Dma.Good(ram) && forall e :: e in submits ==> e.Submit?
    ensures Transparent(render, ram, submits) <==> PairwiseTrusted(render, ram, submits)
  {
    hide *;
    if PairwiseTrusted(render, ram, submits) {
      forall mem: Bytes, es: seq<Event> | |mem| == |ram.mem| && (forall e :: e in es ==> e in submits)
        ensures SameRun(render, ram.(mem := mem), es)
      {
        TrustedRuns(render, ram, submits, mem, es);
      }
      TransparentMeans(render, ram, submits);
    } else {
      UntrustedShows(render, ram, submits);
    }
  }

  lemma TransparentMeans(render: Renderer, ram: Dma.Ram, submits: set<Event>)
    requires forall mem: Bytes, es: seq<Event> :: |mem| == |ram.mem| && (forall e :: e in es ==> e in submits) ==>
               SameRun(render, ram.(mem := mem), es)
    ensures Transparent(render, ram, submits)
  {
    hide SameRun;
  }

  lemma TrustedRuns(render: Renderer, ram: Dma.Ram, submits: set<Event>, mem: Bytes, es: seq<Event>)
    requires Dma.Good(ram) && PairwiseTrusted(render, ram, submits) && |mem| == |ram.mem|
    requires (forall e :: e in submits ==> e.Submit?) && forall e :: e in es ==> e in submits
    ensures SameRun(render, ram.(mem := mem), es)
  {
    var s := Device(ram.(mem := mem), map[], map[]);
    GoodIsAboutMaps(ram, mem);
    SubmitsGood(s.ram, es);
    LandingTrusted(render, ram, submits, es);
    hide Dma.Good, Trusted, PairwiseTrusted, GoodThroughout, Run, Landing;
    ElisionIsTransparent(Landing(render, ram), s, es);
    LandingRun(render, ram, true, s, es);
    LandingRun(render, ram, false, s, es);
  }

  lemma UntrustedShows(render: Renderer, ram: Dma.Ram, submits: set<Event>)
    requires Dma.Good(ram) && (forall e :: e in submits ==> e.Submit?) && !PairwiseTrusted(render, ram, submits)
    ensures !Transparent(render, ram, submits)
  {
    hide Dma.Good, Fnv1a, ScanoutOf, Accepted, Dma.Write, AgreeOnOverlap, SameRun;
    var p, q :| p in submits && q in submits && Lands(render, ram, p) && Lands(render, ram, q)
                && !TrustedPair(render, p.payload, q.payload);
    if ScanoutOf(p.payload) != ScanoutOf(q.payload) {
      AlternationIff(render, ram, p, q);
      NotSame(render, ram, [p, q, p]);
      assert ram.(mem := ram.mem) == ram;
      assert forall e :: e in [p, q, p] ==> e in submits;
    } else {
      var x, y := p, q;
      if |render(p.payload).value| > |render(q.payload).value| {
        x, y := q, p;
      }
      CollisionShows(render, ram, x, y);
      var mem: Bytes :| |mem| == |ram.mem| && !SameRun(render, ram.(mem := mem), [x, y]);
      assert forall e :: e in [x, y] ==> e in submits;
    }
  }

  lemma NotSame(render: Renderer, ram: Dma.Ram, es: seq<Event>)
    requires var s := Device(ram, map[], map[]); Run(render, true, s, es).ram != Run(render, false, s, es).ram
    ensures !SameRun(render, ram, es)
  {
    hide Run;
  }

  // ---- The backend ----

  class Backend {
    const elideUnchanged: bool
    var ram: Dma.Ram
    var lastForwardedHash: map<u64, bv64>
    var ringRetired: map<nat, u64>

    function Value(): Device
      reads this
    {
      Device(ram, lastForwardedHash, ringRetired)
    }

    constructor (ram: Dma.Ram, elideUnchanged: bool)
      ensures Value() == Device(ram, map[], map[]) && this.elideUnchanged == elideUnchanged
    {
      this.ram, this.elideUnchanged := ram, elideUnchanged;
      lastForwardedHash, ringRetired := map[], map[];
    }

    method InvalidateElision()
      modifies `lastForwardedHash
      ensures lastForwardedHash == map[]
    {
      if |lastForwardedHash| != 0 {
        lastForwardedHash := map[];
      }
    }

    method DmaWrite(addr: u64, bytes: Bytes) returns (ok: bool)
      modifies `ram
      ensures ok <==> Dma.Write(old(ram), addr, bytes).Some?
      ensures ram == if ok then Dma.Write(old(ram), addr, bytes).value else old(ram)
    {
      var r := Dma.Write(ram, addr, bytes);
      ok := r.Some?;
      if ok {
        ram := r.value;
      }
    }

    /** `submit_vulkan` with rendering given by `render`. */
    method SubmitVulkan(render: Renderer, ctx: nat, seqno: u64, admitted: bool, payloadLen: u32, payload: Bytes)
      modifies this
      ensures Value() == Step(render, elideUnchanged, old(Value()), Submit(ctx, seqno, admitted, payloadLen, payload))
    {
      hide Fnv1a, Dma.Write, Area;
      if !admitted || payloadLen > MAX_CMD_BYTES || |payload| < 40 {
        ringRetired := ringRetired[ctx := seqno];
        return;
      }
      var wl := Geometry(payload);
      if wl.width == 0 || wl.height == 0 || wl.width > 16384 || wl.height > 16384
         || Area(wl.width, wl.height) > MAX_CMD_BYTES {
        ringRetired := ringRetired[ctx := seqno];
        return;
      }
      var hashed := elideUnchanged && wl.scanoutAddr != 0;
      var hash := 0;
      if hashed {
        hash := Fnv1aLoop(payload);
        if wl.scanoutAddr in lastForwardedHash && lastForwardedHash[wl.scanoutAddr] == hash {
          ringRetired := ringRetired[ctx := seqno];
          return;
        }
      }
      var frame := render(payload);
      if frame.None? {
        ringRetired := ringRetired[ctx := seqno];
        return;
      }
      var presented := true;
      if wl.scanoutAddr != 0 {
        presented := DmaWrite(wl.scanoutAddr, frame.value);
      }
      if hashed && presented {
        if |lastForwardedHash| >= MAX_ENTRIES {
          lastForwardedHash := map[];
        }
        lastForwardedHash := lastForwardedHash[wl.scanoutAddr := hash];
      }
      ringRetired := ringRetired[ctx := seqno];
    }

    method RenderClearPresent(render: Renderer, ctx: nat, seqno: u64, addr: u64, pixels: Option<Bytes>)
      modifies this
      ensures Value() == Step(render, elideUnchanged, old(Value()), Clear(ctx, seqno, addr, pixels))
    {
      hide Dma.Write;
      InvalidateElision();
      if pixels.None? {
        return;
      }
      var ok := DmaWrite(addr, pixels.value);
      if !ok {
        return;
      }
      ringRetired := ringRetired[ctx := seqno];
    }

    /** `dma_map` of a shareable region; `mmap` is None when the mapping call fails. */
    method MapDma(render: Renderer, base: u64, size: u64, mmap: Option<nat>) returns (ok: bool)
      modifies this
      ensures ok <==> size == 0 || mmap.Some?
      ensures Value() == Step(render, elideUnchanged, old(Value()),
                Remap(if size > 0 && mmap.Some? then Some(Dma.Op.Map(Dma.Mapping(base, size, mmap.value))) else None))
    {
      InvalidateElision();
      if size == 0 {
        return true;
      }
      if mmap.None? {
        return false;
      }
      ram := ram.(maps := Dma.Insert(ram.maps, Dma.Mapping(base, size, mmap.value)));
      return true;
    }

    method UnmapDma(render: Renderer, address: u64, all: bool)
      modifies this
      ensures Value() == Step(render, elideUnchanged, old(Value()),
                Remap(Some(if all then Dma.Op.Clear else Dma.Op.Unmap(address))))
    {
      InvalidateElision();
      ram := ram.(maps := if all then [] else Dma.Remove(ram.maps, address));
    }
  }
}
