/**
 The driver's capture of descriptor writes: fixed-size slot arrays keyed by binding number, found or
 appended, updated in place. Views and buffers are handles; what they name is looked up at submit.
 */
module Descriptors {
  import opened Words

  const MAX_SET_TEXTURES: nat := 8
  const MAX_SET_UBOS: nat := 8

  datatype Sampler = Sampler(linear: bool, wrap: bool)

  datatype ImageInfo = ImageInfo(view: Option<nat>, sampler: Option<Sampler>)
  datatype BufferInfo = BufferInfo(buffer: Option<nat>, offset: u64, range: u64)

  datatype Write =
    | CombinedImageSampler(binding: u32, image: Option<ImageInfo>)
    | SampledImage(binding: u32, image: Option<ImageInfo>)
    | LoneSampler(binding: u32, image: Option<ImageInfo>)
    | UniformBuffer(binding: u32, buf: Option<BufferInfo>)
    | StorageBuffer(binding: u32, buf: Option<BufferInfo>)
    | Unsupported

  datatype Texture = Texture(image: Option<nat>, sampler: Option<Sampler>)
  datatype Buffer = Buffer(buffer: nat, offset: u64, range: u64)

  datatype Entry<V> = Entry(binding: u32, value: V)

  // ---- Keyed slots ----

  /** A write to one slot: what it makes of the slot's value, or of a slot not there yet. */
  datatype Keyed<!V> = Keyed(binding: u32, update: Option<V> -> V)

  function Find<V>(t: seq<Entry<V>>, binding: u32): (r: Option<nat>)
    ensures r.Some? ==> r.value < |t| && t[r.value].binding == binding
    ensures r.None? ==> forall i :: 0 <= i < |t| ==> t[i].binding != binding
  {
    if t == [] then None
    else if t[0].binding == binding then Some(0)
    else match Find(t[1..], binding) case None => None case Some(i) => Some(i + 1)
  }

  /** Find or append; when the array is full a write to a new binding is dropped. */
  function Put<V>(t: seq<Entry<V>>, cap: nat, w: Keyed<V>): seq<Entry<V>>
  {
    match Find(t, w.binding)
    case Some(i) => t[i := Entry(w.binding, w.update(Some(t[i].value)))]
    case None => if |t| >= cap then t else t + [Entry(w.binding, w.update(None))]
  }

  function PutAll<V>(cap: nat, ws: seq<Keyed<V>>): seq<Entry<V>>
  {
    if ws == [] then [] else Put(PutAll(cap, ws[..|ws| - 1]), cap, ws[|ws| - 1])
  }

  /** What the writes to one binding alone come to. */
  function Fold<V>(ws: seq<Keyed<V>>, binding: u32): Option<V>
  {
    if ws == [] then None
    else
      var before, w := Fold(ws[..|ws| - 1], binding), ws[|ws| - 1];
      if w.binding == binding then Some(w.update(before)) else before
  }

  /** The first `cap` different bindings written, in order of first write. */
  function FirstBindings<V>(cap: nat, ws: seq<Keyed<V>>): seq<u32>
  {
    if ws == [] then []
    else
      var before, b := FirstBindings(cap, ws[..|ws| - 1]), ws[|ws| - 1].binding;
      if b in before || |before| >= cap then before else before + [b]
  }

  predicate Distinct<V>(t: seq<Entry<V>>)
  {
    forall i, j :: 0 <= i < j < |t| ==> t[i].binding != t[j].binding
  }

  ghost predicate Holds<V>(t: seq<Entry<V>>, cap: nat, ws: seq<Keyed<V>>)
  {
    && |t| == |FirstBindings(cap, ws)| <= cap
    && (forall i :: 0 <= i < |t| ==> t[i].binding == FirstBindings(cap, ws)[i])
    && (forall i :: 0 <= i < |t| ==> Fold(ws, t[i].binding) == Some(t[i].value))
    && Distinct(t)
  }

  /** A binding not among the first ones was never written, unless the array filled up before. */
  lemma {:induction false} NeverWritten<V>(cap: nat, ws: seq<Keyed<V>>, b: u32)
    requires b !in FirstBindings(cap, ws) && |FirstBindings(cap, ws)| < cap
    ensures Fold(ws, b) == None
  {
    if ws != [] {
      NeverWritten(cap, ws[..|ws| - 1], b);
    }
  }

  lemma PutHolds<V>(t: seq<Entry<V>>, cap: nat, ws: seq<Keyed<V>>)
    requires ws != [] && Holds(t, cap, ws[..|ws| - 1])
    ensures Holds(Put(t, cap, ws[|ws| - 1]), cap, ws)
  {
    var init, w := ws[..|ws| - 1], ws[|ws| - 1];
    FoldNext(ws, w.binding);
    forall b: u32 | b != w.binding ensures Fold(ws, b) == Fold(init, b) {
      FoldNext(ws, b);
    }
    BindingsNext(cap, ws);
    if Find(t, w.binding).Some? {
      PutFound(t, cap, ws, Find(t, w.binding).value);
    } else {
      PutMissing(t, cap, ws);
    }
    hide *;
  }

  lemma PutFound<V>(t: seq<Entry<V>>, cap: nat, ws: seq<Keyed<V>>, i: nat)
    requires ws != [] && Holds(t, cap, ws[..|ws| - 1]) && Find(t, ws[|ws| - 1].binding) == Some(i)
    requires var init, w := ws[..|ws| - 1], ws[|ws| - 1];
             && Fold(ws, w.binding) == Some(w.update(Fold(init, w.binding)))
             && (forall b: u32 :: b != w.binding ==> Fold(ws, b) == Fold(init, b))
             && (w.binding in FirstBindings(cap, init) ==> FirstBindings(cap, ws) == FirstBindings(cap, init))
    ensures Holds(Put(t, cap, ws[|ws| - 1]), cap, ws)
  {
    hide Fold, FirstBindings, Find;
    var w := ws[|ws| - 1];
    var after := Put(t, cap, w);
    assert FirstBindings(cap, ws[..|ws| - 1])[i] == w.binding;
    forall k | 0 <= k < |after| ensures Fold(ws, after[k].binding) == Some(after[k].value) {
      assert Fold(ws[..|ws| - 1], t[k].binding) == Some(t[k].value);
      assert k != i ==> t[k].binding != t[i].binding;
    }
  }

  lemma PutMissing<V>(t: seq<Entry<V>>, cap: nat, ws: seq<Keyed<V>>)
    requires ws != [] && Holds(t, cap, ws[..|ws| - 1]) && Find(t, ws[|ws| - 1].binding) == None
    requires var init, w := ws[..|ws| - 1], ws[|ws| - 1];
             && Fold(ws, w.binding) == Some(w.update(Fold(init, w.binding)))
             && (forall b: u32 :: b != w.binding ==> Fold(ws, b) == Fold(init, b))
             && FirstBindings(cap, ws) ==
                if w.binding in FirstBindings(cap, init) || |FirstBindings(cap, init)| >= cap then FirstBindings(cap, init)
                else FirstBindings(cap, init) + [w.binding]
    ensures Holds(Put(t, cap, ws[|ws| - 1]), cap, ws)
  {
    hide Fold, FirstBindings, Find;
    var init, w := ws[..|ws| - 1], ws[|ws| - 1];
    var first := FirstBindings(cap, init);
    forall k | 0 <= k < |first| ensures first[k] != w.binding {
      assert t[k].binding == first[k];
    }
    var after := Put(t, cap, w);
    if |t| < cap {
      NeverWritten(cap, init, w.binding);
      assert after == t + [Entry(w.binding, w.update(None))];
    }
    forall k | 0 <= k < |after| ensures Fold(ws, after[k].binding) == Some(after[k].value) {
      if k < |t| {
        assert Fold(init, t[k].binding) == Some(t[k].value);
      }
    }
  }

  lemma {:induction false} FoldNext<V>(ws: seq<Keyed<V>>, b: u32)
    requires ws != []
    ensures var init, w := ws[..|ws| - 1], ws[|ws| - 1];
            Fold(ws, b) == if w.binding == b then Some(w.update(Fold(init, b))) else Fold(init, b)
  {
  }

  lemma {:induction false} BindingsNext<V>(cap: nat, ws: seq<Keyed<V>>)
    requires ws != []
    ensures var before, b := FirstBindings(cap, ws[..|ws| - 1]), ws[|ws| - 1].binding;
            FirstBindings(cap, ws) == if b in before || |before| >= cap then before else before + [b]
  {
  }

  /** After any writes the slots are the first `cap` bindings written, each once, and each holds what
      the writes to that binding alone come to. */
  lemma {:induction false} SlotsAfter<V>(cap: nat, ws: seq<Keyed<V>>)
    ensures Holds(PutAll(cap, ws), cap, ws)
  {
    if ws == [] {
      NoSlots<V>(cap);
    } else {
      SlotsAfter(cap, ws[..|ws| - 1]);
      PutHolds(PutAll(cap, ws[..|ws| - 1]), cap, ws);
    }
    hide Holds, Put;
  }

  lemma NoSlots<V>(cap: nat)
    ensures Holds<V>([], cap, [])
  {
  }

  // ---- The descriptor set ----

  datatype Set = Set(textures: seq<Entry<Texture>>, ubos: seq<Entry<Buffer>>, ssbo: Option<Entry<Buffer>>)

  const EMPTY := Set([], [], None)

  function Merge(old_: Option<Texture>, view: Option<nat>, sampler: Option<Sampler>): Texture
  {
    var was := if old_.Some? then old_.value else Texture(None, None);
    Texture(if view.Some? then view else was.image, if sampler.Some? then sampler else was.sampler)
  }

  /** Which texture slot a write touches. A separate sampler pairs with the image one binding lower;
      a write that brings nothing touches nothing, but a combined write makes its slot anyway. */
  function TextureWrite(w: Write): Option<Keyed<Texture>>
  {
    match w
    case CombinedImageSampler(b, Some(i)) => Some(Keyed(b, was => Merge(was, i.view, i.sampler)))
    case SampledImage(b, Some(i)) => if i.view.None? then None else Some(Keyed(b, was => Merge(was, i.view, None)))
    case LoneSampler(b, Some(i)) =>
      if i.sampler.None? || b == 0 then None else Some(Keyed(b - 1, was => Merge(was, None, i.sampler)))
    case _ => None
  }

  function BufferWrite(binding: u32, buf: Option<BufferInfo>): Option<Entry<Buffer>>
  {
    if buf.None? || buf.value.buffer.None? then None
    else Some(Entry(binding, Buffer(buf.value.buffer.value, buf.value.offset, buf.value.range)))
  }

  function UboWrite(w: Write): Option<Keyed<Buffer>>
  {
    if !w.UniformBuffer? || BufferWrite(w.binding, w.buf).None? then None
    else Some(Keyed(w.binding, _ => BufferWrite(w.binding, w.buf).value.value))
  }

  function Apply(s: Set, w: Write): Set
  {
    match w
    case UniformBuffer(_, _) =>
      (match UboWrite(w) case None => s case Some(k) => s.(ubos := Put(s.ubos, MAX_SET_UBOS, k)))
    case StorageBuffer(b, buf) =>
      (match BufferWrite(b, buf) case None => s case Some(e) => s.(ssbo := Some(e)))
    case _ =>
      (match TextureWrite(w) case None => s case Some(k) => s.(textures := Put(s.textures, MAX_SET_TEXTURES, k)))
  }

  function Run(ws: seq<Write>): Set
  {
    if ws == [] then EMPTY else Apply(Run(ws[..|ws| - 1]), ws[|ws| - 1])
  }

  function TextureWrites(ws: seq<Write>): seq<Keyed<Texture>>
  {
    if ws == [] then []
    else
      var before, k := TextureWrites(ws[..|ws| - 1]), TextureWrite(ws[|ws| - 1]);
      if k.Some? then before + [k.value] else before
  }

  function UboWrites(ws: seq<Write>): seq<Keyed<Buffer>>
  {
    if ws == [] then []
    else
      var before, k := UboWrites(ws[..|ws| - 1]), UboWrite(ws[|ws| - 1]);
      if k.Some? then before + [k.value] else before
  }

  function LatestSsbo(ws: seq<Write>): Option<Entry<Buffer>>
  {
    if ws == [] then None
    else
      var w := ws[|ws| - 1];
      if w.StorageBuffer? && w.buf.Some? && w.buf.value.buffer.Some? then
        Some(Entry(w.binding, Buffer(w.buf.value.buffer.value, w.buf.value.offset, w.buf.value.range)))
      else LatestSsbo(ws[..|ws| - 1])
  }

  lemma {:induction false} PutAllSnoc<V>(cap: nat, ws: seq<Keyed<V>>, k: Keyed<V>)
    ensures PutAll(cap, ws + [k]) == Put(PutAll(cap, ws), cap, k)
  {
    assert (ws + [k])[..|ws|] == ws;
    hide Put;
  }

  lemma {:induction false} RunIsPutAll(ws: seq<Write>)
    ensures Run(ws).textures == PutAll(MAX_SET_TEXTURES, TextureWrites(ws))
    ensures Run(ws).ubos == PutAll(MAX_SET_UBOS, UboWrites(ws))
    ensures Run(ws).ssbo == LatestSsbo(ws)
  {
    hide Put, PutAll;
    if ws == [] {
      assert PutAll<Texture>(MAX_SET_TEXTURES, []) == [] by { NoPuts<Texture>(MAX_SET_TEXTURES); }
      assert PutAll<Buffer>(MAX_SET_UBOS, []) == [] by { NoPuts<Buffer>(MAX_SET_UBOS); }
    } else {
      var init, w := ws[..|ws| - 1], ws[|ws| - 1];
      RunIsPutAll(init);
      if TextureWrite(w).Some? {
        PutAllSnoc(MAX_SET_TEXTURES, TextureWrites(init), TextureWrite(w).value);
      }
      if UboWrite(w).Some? {
        PutAllSnoc(MAX_SET_UBOS, UboWrites(init), UboWrite(w).value);
      }
    }
  }

  lemma NoPuts<V>(cap: nat)
    ensures PutAll<V>(cap, []) == []
  {
  }

  /** After any sequence of descriptor writes: at most eight texture slots and eight uniform slots,
      with different bindings, each holding exactly what the writes meant for its binding come to,
      and the storage buffer last written. */
  lemma SetAfterWrites(ws: seq<Write>)
    ensures var s := Run(ws);
            && Holds(s.textures, MAX_SET_TEXTURES, TextureWrites(ws))
            && Holds(s.ubos, MAX_SET_UBOS, UboWrites(ws))
            && s.ssbo == LatestSsbo(ws)
  {
    RunIsPutAll(ws);
    SlotsAfter(MAX_SET_TEXTURES, TextureWrites(ws));
    SlotsAfter(MAX_SET_UBOS, UboWrites(ws));
    hide *;
  }

  // ---- Read off the writes ----

  /** The view a write brings to the texture at `b`: combined and sampled images, at their binding. */
  function ViewAt(w: Write, b: u32): Option<nat>
  {
    if (w.CombinedImageSampler? || w.SampledImage?) && w.binding == b && w.image.Some? then w.image.value.view
    else None
  }

  /** The sampler it brings: combined writes at their binding, a lone sampler at the one above. */
  function SamplerAt(w: Write, b: u32): Option<Sampler>
  {
    if w.CombinedImageSampler? && w.binding == b && w.image.Some? then w.image.value.sampler
    else if w.LoneSampler? && w.binding == b + 1 && w.image.Some? then w.image.value.sampler
    else None
  }

  function BufferAt(w: Write, b: u32): Option<Buffer>
  {
    if w.UniformBuffer? && w.binding == b && w.buf.Some? && w.buf.value.buffer.Some? then
      Some(Buffer(w.buf.value.buffer.value, w.buf.value.offset, w.buf.value.range))
    else None
  }

  function LatestView(ws: seq<Write>, b: u32): Option<nat>
  {
    if ws == [] then None
    else if ViewAt(ws[|ws| - 1], b).Some? then ViewAt(ws[|ws| - 1], b)
    else LatestView(ws[..|ws| - 1], b)
  }

  function LatestSampler(ws: seq<Write>, b: u32): Option<Sampler>
  {
    if ws == [] then None
    else if SamplerAt(ws[|ws| - 1], b).Some? then SamplerAt(ws[|ws| - 1], b)
    else LatestSampler(ws[..|ws| - 1], b)
  }

  function LatestUbo(ws: seq<Write>, b: u32): Option<Buffer>
  {
    if ws == [] then None
    else if BufferAt(ws[|ws| - 1], b).Some? then BufferAt(ws[|ws| - 1], b)
    else LatestUbo(ws[..|ws| - 1], b)
  }

  /** The texture binding a write makes a slot for. */
  function TextureOpened(w: Write): Option<u32>
  {
    match w
    case CombinedImageSampler(b, image) => if image.Some? then Some(b) else None
    case SampledImage(b, image) => if image.Some? && image.value.view.Some? then Some(b) else None
    case LoneSampler(b, image) =>
      if b > 0 && image.Some? && image.value.sampler.Some? then Some(b - 1) else None
    case _ => None
  }

  function UboOpened(w: Write): Option<u32>
  {
    if w.UniformBuffer? && w.buf.Some? && w.buf.value.buffer.Some? then Some(w.binding) else None
  }

  /** The bindings that `open` gives for the writes, in order. */
  function Opened(ws: seq<Write>, open: Write -> Option<u32>): seq<u32>
  {
    if ws == [] then []
    else
      var before, b := Opened(ws[..|ws| - 1], open), open(ws[|ws| - 1]);
      if b.Some? then before + [b.value] else before
  }

  function BindingsOf<V>(ks: seq<Keyed<V>>): seq<u32>
  {
    if ks == [] then [] else BindingsOf(ks[..|ks| - 1]) + [ks[|ks| - 1].binding]
  }

  function Named(bs: seq<u32>): set<u32> { set b | b in bs }

  /** Among the first `cap` different bindings: fewer than `cap` were named before this one was. */
  ghost predicate Early(cap: nat, bs: seq<u32>, b: u32)
  {
    exists i :: 0 <= i < |bs| && bs[i] == b && |Named(bs[..i])| < cap
  }

  lemma NamedSnoc(bs: seq<u32>, b: u32)
    ensures Named(bs + [b]) == Named(bs) + {b}
    ensures b !in bs ==> |Named(bs + [b])| == |Named(bs)| + 1
    ensures b in bs ==> |Named(bs + [b])| == |Named(bs)|
  {
    assert b in bs ==> Named(bs) + {b} == Named(bs);
  }

  lemma EarlySnoc(cap: nat, bs: seq<u32>, b: u32, c: u32)
    ensures Early(cap, bs + [b], c) <==> Early(cap, bs, c) || (c == b && |Named(bs)| < cap)
  {
    var all := bs + [b];
    assert all[..|bs|] == bs;
    forall i | 0 <= i < |bs| ensures all[..i] == bs[..i] && all[i] == bs[i] {
    }
    if c == b && |Named(bs)| < cap {
      assert all[|bs|] == c;
    }
    hide Named;
  }

  lemma BindingsSnoc<V>(ks: seq<Keyed<V>>, k: Keyed<V>)
    ensures BindingsOf(ks + [k]) == BindingsOf(ks) + [k.binding]
  {
    assert (ks + [k])[..|ks|] == ks;
  }

  /** Which bindings have a slot, without an order of events: those named early enough. */
  lemma {:induction false} FirstBindingsIff<V>(cap: nat, ks: seq<Keyed<V>>)
    ensures forall b: u32 :: b in FirstBindings(cap, ks) <==> Early(cap, BindingsOf(ks), b)
    ensures |FirstBindings(cap, ks)| == if |Named(BindingsOf(ks))| < cap then |Named(BindingsOf(ks))| else cap
    ensures forall b: u32 :: b in FirstBindings(cap, ks) ==> b in BindingsOf(ks)
    ensures |FirstBindings(cap, ks)| < cap ==> forall b: u32 :: b in BindingsOf(ks) ==> b in FirstBindings(cap, ks)
  {
    if ks != [] {
      var init, k := ks[..|ks| - 1], ks[|ks| - 1];
      FirstBindingsIff(cap, init);
      BindingsNext(cap, ks);
      assert BindingsOf(ks) == BindingsOf(init) + [k.binding];
      NamedSnoc(BindingsOf(init), k.binding);
      forall b: u32 ensures Early(cap, BindingsOf(ks), b) <==>
                            Early(cap, BindingsOf(init), b) || (b == k.binding && |Named(BindingsOf(init))| < cap)
      {
        EarlySnoc(cap, BindingsOf(init), k.binding, b);
      }
      hide FirstBindings, Early, Named, BindingsOf;
    }
  }

  lemma {:induction false} TexturesOpened(ws: seq<Write>)
    ensures BindingsOf(TextureWrites(ws)) == Opened(ws, TextureOpened)
  {
    if ws != [] {
      var init, w := ws[..|ws| - 1], ws[|ws| - 1];
      TexturesOpened(init);
      if TextureWrite(w).Some? {
        BindingsSnoc(TextureWrites(init), TextureWrite(w).value);
      }
    }
  }

  lemma {:induction false} UbosOpened(ws: seq<Write>)
    ensures BindingsOf(UboWrites(ws)) == Opened(ws, UboOpened)
  {
    if ws != [] {
      var init, w := ws[..|ws| - 1], ws[|ws| - 1];
      UbosOpened(init);
      if UboWrite(w).Some? {
        BindingsSnoc(UboWrites(init), UboWrite(w).value);
      }
    }
  }

  lemma {:induction false} TextureIsLatest(ws: seq<Write>, b: u32)
    ensures match Fold(TextureWrites(ws), b)
            case None => LatestView(ws, b).None? && LatestSampler(ws, b).None?
            case Some(t) => t == Texture(LatestView(ws, b), LatestSampler(ws, b))
  {
    if ws != [] {
      var init, w := ws[..|ws| - 1], ws[|ws| - 1];
      TextureIsLatest(init, b);
      if TextureWrite(w).Some? {
        FoldSnoc(TextureWrites(init), TextureWrite(w).value, b);
      }
      hide Fold;
    }
  }

  lemma {:induction false} UboIsLatest(ws: seq<Write>, b: u32)
    ensures Fold(UboWrites(ws), b) == LatestUbo(ws, b)
  {
    if ws != [] {
      var init, w := ws[..|ws| - 1], ws[|ws| - 1];
      UboIsLatest(init, b);
      if UboWrite(w).Some? {
        FoldSnoc(UboWrites(init), UboWrite(w).value, b);
      }
      hide Fold;
    }
  }

  lemma FoldSnoc<V>(ks: seq<Keyed<V>>, k: Keyed<V>, b: u32)
    ensures Fold(ks + [k], b) == if k.binding == b then Some(k.update(Fold(ks, b))) else Fold(ks, b)
  {
    assert (ks + [k])[..|ks|] == ks;
    FoldNext(ks + [k], b);
  }

  /** A binding has a slot. */
  predicate Slotted<V>(t: seq<Entry<V>>, b: u32)
  {
    exists i :: 0 <= i < |t| && t[i].binding == b
  }

  /** The descriptor set read off the history of writes. A texture slot shows the latest view brought
      to its binding through the latest sampler brought to it, a uniform slot the latest buffer range;
      the slots are the first eight bindings of either kind, each once, and the storage buffer is the
      latest one. */
  lemma SlotsAreLatest(ws: seq<Write>)
    ensures var s := Run(ws);
            && Distinct(s.textures) && Distinct(s.ubos)
            && (forall b: u32 :: Slotted(s.textures, b) <==> Early(8, Opened(ws, TextureOpened), b))
            && (forall b: u32 :: Slotted(s.ubos, b) <==> Early(8, Opened(ws, UboOpened), b))
            && (forall i :: 0 <= i < |s.textures| ==>
                  s.textures[i].value ==
                  Texture(LatestView(ws, s.textures[i].binding), LatestSampler(ws, s.textures[i].binding)))
            && (forall i :: 0 <= i < |s.ubos| ==> LatestUbo(ws, s.ubos[i].binding) == Some(s.ubos[i].value))
            && s.ssbo == LatestSsbo(ws)
  {
    SetAfterWrites(ws);
    TexturesOpened(ws);
    UbosOpened(ws);
    FirstBindingsIff(MAX_SET_TEXTURES, TextureWrites(ws));
    FirstBindingsIff(MAX_SET_UBOS, UboWrites(ws));
    var s := Run(ws);
    SlottedIff(s.textures, MAX_SET_TEXTURES, TextureWrites(ws));
    SlottedIff(s.ubos, MAX_SET_UBOS, UboWrites(ws));
    forall i | 0 <= i < |s.textures|
      ensures s.textures[i].value ==
              Texture(LatestView(ws, s.textures[i].binding), LatestSampler(ws, s.textures[i].binding))
    {
      TextureIsLatest(ws, s.textures[i].binding);
    }
    forall i | 0 <= i < |s.ubos| ensures LatestUbo(ws, s.ubos[i].binding) == Some(s.ubos[i].value) {
      UboIsLatest(ws, s.ubos[i].binding);
    }
    hide Run, Fold, FirstBindings, TextureWrites, UboWrites, Early, Opened;
    hide LatestView, LatestSampler, LatestUbo, LatestSsbo;
  }

  lemma SlottedIff<V>(t: seq<Entry<V>>, cap: nat, ks: seq<Keyed<V>>)
    requires Holds(t, cap, ks)
    ensures forall b: u32 :: Slotted(t, b) <==> b in FirstBindings(cap, ks)
  {
    hide Fold, FirstBindings;
    forall b: u32 ensures Slotted(t, b) <==> b in FirstBindings(cap, ks) {
      if b in FirstBindings(cap, ks) {
        var i :| 0 <= i < |FirstBindings(cap, ks)| && FirstBindings(cap, ks)[i] == b;
        assert t[i].binding == b;
      }
    }
  }

  // ---- The object ----

  class DescriptorSet {
    const textures: array<Entry<Texture>>
    var textureCount: nat
    const ubos: array<Entry<Buffer>>
    var uboCount: nat
    var ssbo: Option<Entry<Buffer>>

    ghost predicate Valid()
      reads this
    {
      && textures.Length == MAX_SET_TEXTURES && ubos.Length == MAX_SET_UBOS
      && textureCount <= MAX_SET_TEXTURES && uboCount <= MAX_SET_UBOS
    }

    ghost function Value(): Set
      requires Valid()
      reads this, textures, ubos
    {
      Set(textures[..textureCount], ubos[..uboCount], ssbo)
    }

    constructor ()
      ensures Valid() && Value() == EMPTY && fresh(textures) && fresh(ubos)
    {
      textures := new Entry<Texture>[MAX_SET_TEXTURES](_ => Entry(0, Texture(None, None)));
      ubos := new Entry<Buffer>[MAX_SET_UBOS](_ => Entry(0, Buffer(0, 0, 0)));
      textureCount, uboCount, ssbo := 0, 0, None;
    }

    /** The slot of `binding`, appended with no image and no sampler if there is none; None when full. */
    method TexSlot(binding: u32) returns (slot: Option<nat>)
      requires Valid()
      modifies `textureCount, textures
      ensures Valid()
      ensures slot.Some? ==> slot.value < textureCount
      ensures slot == (match Find(old(textures[..textureCount]), binding)
                       case Some(i) => Some(i)
                       case None => if old(textureCount) < MAX_SET_TEXTURES then Some(old(textureCount)) else None)
      ensures textures[..textureCount] ==
              if Find(old(textures[..textureCount]), binding).None? && slot.Some?
              then old(textures[..textureCount]) + [Entry(binding, Texture(None, None))]
              else old(textures[..textureCount])
    {
      for i := 0 to textureCount
        modifies {}
        invariant forall k :: 0 <= k < i ==> textures[k].binding != binding
      {
        if textures[i].binding == binding {
          FoundAt(textures[..textureCount], binding, i);
          return Some(i);
        }
      }
      FoundNowhere(textures[..textureCount], binding);
      if textureCount >= MAX_SET_TEXTURES {
        return None;
      }
      textures[textureCount] := Entry(binding, Texture(None, None));
      textureCount := textureCount + 1;
      return Some(textureCount - 1);
    }

    method UboSlot(binding: u32) returns (slot: Option<nat>)
      requires Valid()
      modifies `uboCount, ubos
      ensures Valid()
      ensures slot == (match Find(old(ubos[..uboCount]), binding)
                       case Some(i) => Some(i)
                       case None => if old(uboCount) < MAX_SET_UBOS then Some(old(uboCount)) else None)
      ensures slot.Some? ==> slot.value < uboCount
      ensures ubos[..uboCount] ==
              if Find(old(ubos[..uboCount]), binding).None? && slot.Some?
              then old(ubos[..uboCount]) + [Entry(binding, Buffer(0, 0, 0))]
              else old(ubos[..uboCount])
    {
      for i := 0 to uboCount
        modifies {}
        invariant forall k :: 0 <= k < i ==> ubos[k].binding != binding
      {
        if ubos[i].binding == binding {
          FoundAt(ubos[..uboCount], binding, i);
          return Some(i);
        }
      }
      FoundNowhere(ubos[..uboCount], binding);
      if uboCount >= MAX_SET_UBOS {
        return None;
      }
      ubos[uboCount] := Entry(binding, Buffer(0, 0, 0));
      uboCount := uboCount + 1;
      return Some(uboCount - 1);
    }

    /** Brings what a write carries into its slot. */
    method Touch(binding: u32, view: Option<nat>, sampler: Option<Sampler>)
      requires Valid()
      modifies `textureCount, textures
      ensures Valid()
      ensures textures[..textureCount] ==
              Put(old(textures[..textureCount]), MAX_SET_TEXTURES, Keyed(binding, was => Merge(was, view, sampler)))
    {
      var t := TexSlot(binding);
      if t.None? {
        return;
      }
      if view.Some? {
        textures[t.value] := textures[t.value].(value := textures[t.value].value.(image := view));
      }
      if sampler.Some? {
        textures[t.value] := textures[t.value].(value := textures[t.value].value.(sampler := sampler));
      }
    }

    /** Overwrites the uniform slot of a binding, if there is one to have. */
    method TouchUbo(binding: u32, value: Buffer)
      requires Valid()
      modifies `uboCount, ubos
      ensures Valid()
      ensures ubos[..uboCount] == Put(old(ubos[..uboCount]), MAX_SET_UBOS, Keyed(binding, _ => value))
    {
      var u := UboSlot(binding);
      if u.Some? {
        ubos[u.value] := Entry(binding, value);
      }
    }

    method ApplyDescriptor(w: Write)
      requires Valid()
      modifies this, textures, ubos
      ensures Valid() && Value() == Apply(old(Value()), w)
    {
      hide Put, Find, Merge;
      match w {
        case CombinedImageSampler(b, img) =>
          if img.Some? {
            Touch(b, img.value.view, img.value.sampler);
          }
        case SampledImage(b, img) =>
          if img.Some? && img.value.view.Some? {
            Touch(b, img.value.view, None);
          }
        case LoneSampler(b, img) =>
          if img.Some? && img.value.sampler.Some? && b != 0 {
            Touch(b - 1, None, img.value.sampler);
          }
        case UniformBuffer(b, buf) =>
          if buf.Some? && buf.value.buffer.Some? {
            TouchUbo(b, Buffer(buf.value.buffer.value, buf.value.offset, buf.value.range));
          }
        case StorageBuffer(b, buf) =>
          if buf.Some? && buf.value.buffer.Some? {
            ssbo := Some(Entry(b, Buffer(buf.value.buffer.value, buf.value.offset, buf.value.range)));
          }
        case Unsupported =>
      }
    }
  }

  lemma {:induction false} FoundAt<V>(t: seq<Entry<V>>, binding: u32, i: nat)
    requires i < |t| && t[i].binding == binding && forall k :: 0 <= k < i ==> t[k].binding != binding
    ensures Find(t, binding) == Some(i)
  {
    if i > 0 {
      FoundAt(t[1..], binding, i - 1);
    }
  }

  lemma FoundNowhere<V>(t: seq<Entry<V>>, binding: u32)
    requires forall k :: 0 <= k < |t| ==> t[k].binding != binding
    ensures Find(t, binding) == None
  {
  }
}
