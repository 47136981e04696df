/**
 From a descriptor set to what the host binds: the driver sorts the texture slots, forwards them all
 or none, and clips every uniform and storage buffer to its mapping. Views and buffers are looked up
 when the list is submitted.
 */
module Textures {
  import opened Words
  import opened Wire
  import Codec
  import CmdList
  import D = Descriptors

  type Slot = D.Entry<D.Texture>

  /** `mem` is the mapped memory from the image's offset on, if it is bound and mapped. */
  datatype Image = Image(w: u32, h: u32, rowPitch: u32, mem: Option<Bytes>)

  const WHITE: Bytes := [255, 255, 255, 255]

  // ---- What a slot shows ----

  predicate Forwardable(img: Image)
  {
    img.mem.Some? && img.rowPitch == Residue(img.w * 4)
  }

  /** Dimensions within the limits the driver advertises, and memory bound as Vulkan asks. */
  predicate WellMade(img: Image)
  {
    1 <= img.w <= 16384 && 1 <= img.h <= 16384 && (img.mem.Some? ==> Area(img.w, img.h) <= |img.mem.value|)
  }

  datatype Pixels = Pixels(w: u32, h: u32, rgba: Bytes)

  /** The image's pixels, or an opaque white placeholder for one that cannot be forwarded. */
  function Shown(img: Image): Pixels
    requires WellMade(img)
  {
    if Forwardable(img) then Pixels(img.w, img.h, img.mem.value[..Area(img.w, img.h)]) else Pixels(1, 1, WHITE)
  }

  lemma ShownSize(img: Image)
    requires WellMade(img)
    ensures var p := Shown(img);
            p.w > 0 && p.h > 0 && |p.rgba| == Area(p.w, p.h) <= 0x4000_0000
  {
    ProductBound(img.w, img.h, 16384, 16384);
  }

  /** What a view names; a view may have no image. */
  type Views = nat -> Option<Image>

  function ImageOf(views: Views, s: Slot): Option<Image>
  {
    if s.value.image.None? then None else views(s.value.image.value)
  }

  ghost predicate AllWellMade(views: Views)
  {
    forall v: nat :: views(v).Some? ==> WellMade(views(v).value)
  }

  function SamplerFlags(s: Option<D.Sampler>): u32
  {
    if s.None? then 0 else (if s.value.linear then 1 else 0) + (if s.value.wrap then 2 else 0)
  }

  lemma FlagsRead(s: Option<D.Sampler>)
    ensures Codec.HasFlag(SamplerFlags(s), Codec.SAMPLER_LINEAR) <==> s.Some? && s.value.linear
    ensures Codec.HasFlag(SamplerFlags(s), Codec.SAMPLER_REPEAT) <==> s.Some? && s.value.wrap
  {
    assert (0 as u32) as bv32 == 0 && (1 as u32) as bv32 == 1 && (2 as u32) as bv32 == 2 && (3 as u32) as bv32 == 3;
  }

  /** The texture the host should sample at the slot's binding. */
  function TextureFor(views: Views, s: Slot): Codec.Texture
    requires ImageOf(views, s).Some? && WellMade(ImageOf(views, s).value)
  {
    var p := Shown(ImageOf(views, s).value);
    Codec.Texture(p.w, p.h, p.rgba, s.value.sampler.Some? && s.value.sampler.value.linear,
                  s.value.sampler.Some? && s.value.sampler.value.wrap)
  }

  // ---- Sorting ----

  /** Inserts from the end, stopping at the first binding that is not larger. */
  function Insert(s: seq<Slot>, key: Slot): (r: seq<Slot>)
    ensures |r| == |s| + 1
  {
    if s != [] && s[|s| - 1].binding > key.binding then Insert(s[..|s| - 1], key) + [s[|s| - 1]]
    else s + [key]
  }

  function SortSlots(s: seq<Slot>): (r: seq<Slot>)
    ensures |r| == |s|
  {
    if s == [] then [] else Insert(SortSlots(s[..|s| - 1]), s[|s| - 1])
  }

  predicate Ascending(s: seq<Slot>)
  {
    forall i, j :: 0 <= i < j < |s| ==> s[i].binding < s[j].binding
  }

  lemma {:induction false} InsertPermutes(s: seq<Slot>, key: Slot)
    ensures multiset(Insert(s, key)) == multiset(s) + multiset{key}
  {
    if s != [] && s[|s| - 1].binding > key.binding {
      InsertPermutes(s[..|s| - 1], key);
      assert s == s[..|s| - 1] + [s[|s| - 1]];
    }
  }

  lemma {:induction false} SortPermutes(s: seq<Slot>)
    ensures multiset(SortSlots(s)) == multiset(s)
  {
    if s != [] {
      SortPermutes(s[..|s| - 1]);
      InsertPermutes(SortSlots(s[..|s| - 1]), s[|s| - 1]);
      assert s == s[..|s| - 1] + [s[|s| - 1]];
    }
  }

  lemma {:induction false} InsertAscends(s: seq<Slot>, key: Slot)
    requires Ascending(s) && forall x :: x in s ==> x.binding != key.binding
    ensures Ascending(Insert(s, key))
    ensures forall x :: x in Insert(s, key) <==> x in s || x == key
  {
    if s != [] && s[|s| - 1].binding > key.binding {
      var init, last := s[..|s| - 1], s[|s| - 1];
      assert s == init + [last];
      InsertAscends(init, key);
      hide Insert;
      AscendingSnoc(Insert(init, key), last);
      hide Ascending;
    }
  }

  lemma AscendingSnoc(s: seq<Slot>, x: Slot)
    requires Ascending(s) && forall y :: y in s ==> y.binding < x.binding
    ensures Ascending(s + [x])
  {
  }

  lemma {:induction false} SortAscends(s: seq<Slot>)
    requires D.Distinct(s)
    ensures Ascending(SortSlots(s))
    ensures forall x :: x in SortSlots(s) <==> x in s
  {
    if s != [] {
      var init, last := s[..|s| - 1], s[|s| - 1];
      assert s == init + [last];
      SortAscends(init);
      assert forall x :: x in init ==> x.binding != last.binding;
      InsertAscends(SortSlots(init), last);
    }
  }

  lemma {:induction false} InsertAt(s: seq<Slot>, key: Slot, j: nat)
    requires j <= |s| && (forall k :: j <= k < |s| ==> s[k].binding > key.binding)
    requires j == 0 || s[j - 1].binding <= key.binding
    ensures Insert(s, key) == s[..j] + [key] + s[j..]
  {
    if j < |s| {
      InsertAt(s[..|s| - 1], key, j);
      assert s[..|s| - 1][..j] == s[..j] && s[..|s| - 1][j..] + [s[|s| - 1]] == s[j..];
    } else {
      assert s[..j] == s && s[j..] == [];
    }
  }

  lemma {:induction false} SortNext(s: seq<Slot>, i: nat)
    requires i < |s|
    ensures SortSlots(s[..i + 1]) == Insert(SortSlots(s[..i]), s[i])
  {
    assert s[..i + 1][..i] == s[..i];
  }

  /** One round of the insertion sort: the slot at `i` moves down past every larger one. */
  method SinkInto(a: array<Slot>, i: nat)
    requires i < a.Length
    modifies a
    ensures a[..i + 1] == Insert(old(a[..i]), old(a[i]))
    ensures forall k :: i < k < a.Length ==> a[k] == old(a[k])
  {
    hide Insert;
    ghost var was := a[..];
    var key := a[i];
    var j := i;
    while j > 0 && a[j - 1].binding > key.binding
      invariant j <= i
      invariant forall k :: 0 <= k < j ==> a[k] == was[k]
      invariant forall k :: j <= k < i ==> was[k].binding > key.binding && a[k + 1] == was[k]
      invariant forall k :: i < k < a.Length ==> a[k] == was[k]
    {
      a[j] := a[j - 1];
      j := j - 1;
    }
    a[j] := key;
    Sunk(was[..i], a[..i + 1], key, j);
    assert was[..i] == old(a[..i]);
  }

  lemma Sunk(was: seq<Slot>, now: seq<Slot>, key: Slot, j: nat)
    requires |now| == |was| + 1 && j <= |was| && now[j] == key
    requires forall k :: 0 <= k < j ==> now[k] == was[k]
    requires forall k :: j <= k < |was| ==> was[k].binding > key.binding && now[k + 1] == was[k]
    requires j == 0 || was[j - 1].binding <= key.binding
    ensures now == Insert(was, key)
  {
    InsertAt(was, key, j);
    hide Insert;
    assert now == was[..j] + [key] + was[j..];
  }

  /** The in-place insertion sort over the array of slots. */
  method SortInPlace(a: array<Slot>)
    modifies a
    ensures a[..] == SortSlots(old(a[..]))
  {
    hide Insert, SortSlots;
    ghost var was := a[..];
    NothingSorted();
    assert a[..0] == [] && was[..0] == [];
    for i := 0 to a.Length
      invariant a[..i] == SortSlots(was[..i])
      invariant forall k :: i <= k < a.Length ==> a[k] == was[k]
    {
      SortNext(was, i);
      SinkInto(a, i);
    }
    assert a[..a.Length] == a[..] && was[..a.Length] == was;
  }

  lemma NothingSorted()
    ensures SortSlots([]) == []
  {
  }

  // ---- Gathering the textures ----

  datatype Gathered = Gathered(texs: seq<Codec.TexDesc>, pix: Bytes, base: u32)

  const NOTHING := Gathered([], [], 0)

  function DescFor(views: Views, s: Slot): Codec.TexDesc
    requires ImageOf(views, s).Some? && WellMade(ImageOf(views, s).value)
  {
    var img := ImageOf(views, s).value;
    ShownSize(img);
    Codec.TexDesc(Shown(img).w, Shown(img).h, |Shown(img).rgba|, SamplerFlags(s.value.sampler))
  }

  /** Every slot has an image and the bindings are `base`, `base + 2`, `base + 4` and so on. */
  predicate Consecutive(views: Views, sorted: seq<Slot>)
  {
    forall i :: 0 <= i < |sorted| ==>
      ImageOf(views, sorted[i]).Some? && sorted[i].binding == Residue(sorted[0].binding + 2 * i)
  }

  function Descs(views: Views, sorted: seq<Slot>): (ds: seq<Codec.TexDesc>)
    requires forall s :: s in sorted ==> ImageOf(views, s).Some? && WellMade(ImageOf(views, s).value)
    ensures |ds| == |sorted|
  {
    if sorted == [] then [] else Descs(views, sorted[..|sorted| - 1]) + [DescFor(views, sorted[|sorted| - 1])]
  }

  function PixelSections(views: Views, sorted: seq<Slot>): (ps: seq<Bytes>)
    requires forall s :: s in sorted ==> ImageOf(views, s).Some? && WellMade(ImageOf(views, s).value)
    ensures |ps| == |sorted|
  {
    if sorted == [] then []
    else PixelSections(views, sorted[..|sorted| - 1]) + [Shown(ImageOf(views, sorted[|sorted| - 1]).value).rgba]
  }

  /** All the slots, sorted, or nothing. */
  function Gather(views: Views, slots: seq<Slot>): Gathered
    requires AllWellMade(views)
  {
    var sorted := SortSlots(slots);
    if slots == [] || !Consecutive(views, sorted) then NOTHING
    else
      ImagesWellMade(views, sorted);
      Gathered(Descs(views, sorted), Join(PixelSections(views, sorted)), sorted[0].binding)
  }

  lemma ImagesWellMade(views: Views, sorted: seq<Slot>)
    requires AllWellMade(views) && Consecutive(views, sorted)
    ensures forall s :: s in sorted ==> ImageOf(views, s).Some? && WellMade(ImageOf(views, s).value)
  {
  }

  /** The driver's loops: sort, check, then copy the pixels slot by slot. */
  method GatherTextures(views: Views, slots: seq<Slot>) returns (g: Gathered)
    requires AllWellMade(views)
    ensures g == Gather(views, slots)
  {
    hide AllWellMade, Consecutive, SortSlots, Descs, PixelSections, Join;
    if |slots| == 0 {
      return NOTHING;
    }
    var a := new Slot[|slots|](i requires 0 <= i < |slots| => slots[i]);
    assert a[..] == slots;
    SortInPlace(a);
    var ok := CheckBindings(views, a);
    if !ok {
      return NOTHING;
    }
    var texs, pix := CopyTextures(views, a);
    g := Gathered(texs, pix, a[0].binding);
  }

  method CheckBindings(views: Views, a: array<Slot>) returns (ok: bool)
    requires a.Length > 0
    ensures ok <==> Consecutive(views, a[..])
  {
    hide ImageOf, Residue;
    var base := a[0].binding;
    for i := 0 to a.Length
      invariant forall k :: 0 <= k < i ==> ImageOf(views, a[k]).Some? && a[k].binding == Residue(base + 2 * k)
    {
      if ImageOf(views, a[i]).None? || a[i].binding != Residue(base + 2 * i) {
        assert a[..][i] == a[i];
        return false;
      }
    }
    return true;
  }

  method CopyTextures(views: Views, a: array<Slot>) returns (texs: seq<Codec.TexDesc>, pix: Bytes)
    requires AllWellMade(views) && Consecutive(views, a[..])
    ensures (forall s :: s in a[..] ==> ImageOf(views, s).Some? && WellMade(ImageOf(views, s).value))
    ensures texs == Descs(views, a[..]) && pix == Join(PixelSections(views, a[..]))
  {
    texs, pix := [], [];
    ghost var sorted := a[..];
    ImagesWellMade(views, sorted);
    hide AllWellMade, Consecutive, WellMade, ImageOf, Shown, SamplerFlags;
    for i := 0 to a.Length
      invariant texs == Descs(views, sorted[..i]) && pix == Join(PixelSections(views, sorted[..i]))
    {
      var s := a[i];
      var p := Shown(ImageOf(views, s).value);
      ShownSize(ImageOf(views, s).value);
      assert sorted[..i + 1][..i] == sorted[..i];
      JoinSnoc(PixelSections(views, sorted[..i]), p.rgba);
      texs := texs + [Codec.TexDesc(p.w, p.h, |p.rgba|, SamplerFlags(s.value.sampler))];
      pix := pix + p.rgba;
    }
    assert sorted[..a.Length] == sorted;
  }

  // ---- What the host makes of them ----

  lemma {:induction false} DescsAt(views: Views, sorted: seq<Slot>, i: nat)
    requires forall s :: s in sorted ==> ImageOf(views, s).Some? && WellMade(ImageOf(views, s).value)
    requires i < |sorted|
    ensures Descs(views, sorted)[i] == DescFor(views, sorted[i])
    ensures PixelSections(views, sorted)[i] == Shown(ImageOf(views, sorted[i]).value).rgba
  {
    if i < |sorted| - 1 {
      DescsAt(views, sorted[..|sorted| - 1], i);
    }
    hide DescFor, ImageOf, WellMade, Shown;
  }

  /** The pixels described by `ds[i]` lie in section `i`. */
  lemma {:induction false} SectionOf(ds: seq<Codec.TexDesc>, ps: seq<Bytes>, i: nat)
    requires |ds| == |ps| && i < |ds| && forall k :: 0 <= k < |ds| ==> ds[k].dataLen == |ps[k]|
    ensures var a, z := Codec.PixelEnd(ds, i), Codec.PixelEnd(ds, i + 1);
            a <= z <= |Join(ps)| && Join(ps)[a..z] == ps[i]
  {
    var rest := Join(ps[1..]);
    assert Join(ps) == ps[0] + rest;
    Codec.PixelEndNext(ds, i);
    if i == 0 {
      Codec.PixelEndZero(ds);
      Codec.PixelEndZero(ds[1..]);
    } else {
      SectionOf(ds[1..], ps[1..], i - 1);
      Codec.PixelEndNext(ds, i - 1);
      var a, z := Codec.PixelEnd(ds[1..], i - 1), Codec.PixelEnd(ds[1..], i);
      assert (ps[0] + rest)[|ps[0]| + a..|ps[0]| + z] == rest[a..z];
    }
    hide Codec.PixelEnd, Join;
  }

  lemma DescReads(views: Views, s: Slot, rgba: Bytes)
    requires ImageOf(views, s).Some? && WellMade(ImageOf(views, s).value)
    requires rgba == Shown(ImageOf(views, s).value).rgba
    ensures Codec.TextureOf(DescFor(views, s), rgba) == TextureFor(views, s)
  {
    hide Shown, WellMade, ImageOf, SamplerFlags, Codec.HasFlag;
    FlagsRead(s.value.sampler);
  }

  /** Texture `i` of the gathered ones, carved by the host, is what slot `i` shows. */
  lemma CarvedIsShown(views: Views, sorted: seq<Slot>, texs: seq<Codec.Texture>, i: nat)
    requires forall s :: s in sorted ==> ImageOf(views, s).Some? && WellMade(ImageOf(views, s).value)
    requires Codec.Carves(Descs(views, sorted), Join(PixelSections(views, sorted)), texs) && i < |sorted|
    ensures |texs| == |sorted| && texs[i] == TextureFor(views, sorted[i])
  {
    hide Codec.PixelEnd, Codec.TextureOf, TextureFor, DescFor, Descs, PixelSections, Join, ImageOf, WellMade, Shown;
    var ds, ps := Descs(views, sorted), PixelSections(views, sorted);
    forall k | 0 <= k < |ds| ensures ds[k].dataLen == |ps[k]| {
      DescsAt(views, sorted, k);
      DescLength(views, sorted[k]);
    }
    DescsAt(views, sorted, i);
    SectionOf(ds, ps, i);
    assert Codec.CarvesAt(ds, Join(ps), texs, i);
    DescReads(views, sorted[i], ps[i]);
  }

  lemma DescLength(views: Views, s: Slot)
    requires ImageOf(views, s).Some? && WellMade(ImageOf(views, s).value)
    ensures DescFor(views, s).dataLen == |Shown(ImageOf(views, s).value).rgba|
  {
    hide Shown, WellMade, ImageOf;
  }

  /** As many textures as slots, and for each slot the host samples what it shows at its binding. */
  ghost predicate BoundAsWritten(views: Views, slots: seq<Slot>, base: u32, texs: seq<Codec.Texture>)
  {
    |texs| == |slots| && forall s :: s in slots ==> Bound(views, base, texs, s)
  }

  ghost predicate Bound(views: Views, base: u32, texs: seq<Codec.Texture>, s: Slot)
  {
    exists i :: 0 <= i < |texs| && BoundAt(views, base, texs, s, i)
  }

  predicate BoundAt(views: Views, base: u32, texs: seq<Codec.Texture>, s: Slot, i: nat)
    requires i < |texs|
  {
    && base + 2 * i == s.binding
    && ImageOf(views, s).Some? && WellMade(ImageOf(views, s).value) && texs[i] == TextureFor(views, s)
  }

  /** Ascending consecutive bindings never wrap. */
  lemma {:induction false} NoWrap(views: Views, sorted: seq<Slot>, i: nat)
    requires Ascending(sorted) && Consecutive(views, sorted) && |sorted| <= 8 && i < |sorted|
    ensures sorted[i].binding == sorted[0].binding + 2 * i
  {
    if i > 0 {
      NoWrap(views, sorted, i - 1);
      assert sorted[i].binding == Residue(sorted[0].binding + 2 * i) && sorted[i - 1].binding < sorted[i].binding;
    }
  }

  lemma GatheredAreBound(views: Views, slots: seq<Slot>, texs: seq<Codec.Texture>)
    requires AllWellMade(views) && D.Distinct(slots) && |slots| <= 8
    requires Gather(views, slots).texs != []
    requires Codec.Carves(Gather(views, slots).texs, Gather(views, slots).pix, texs)
    ensures BoundAsWritten(views, slots, Gather(views, slots).base, texs)
  {
    hide *;
    SortAscends(slots);
    var sorted := SortSlots(slots);
    GatherMeans(views, slots);
    var base := sorted[0].binding;
    CarvedIsShown(views, sorted, texs, 0);
    SameSlots(slots, sorted);
    forall s | s in slots ensures Bound(views, base, texs, s) {
      var i := PlaceOf(sorted, s);
      NoWrap(views, sorted, i);
      CarvedIsShown(views, sorted, texs, i);
      BoundHere(views, base, texs, s, i);
    }
    BoundAll(views, slots, base, texs);
  }

  lemma GatherMeans(views: Views, slots: seq<Slot>)
    requires AllWellMade(views) && Gather(views, slots).texs != []
    ensures var sorted, g := SortSlots(slots), Gather(views, slots);
            && |sorted| == |slots| > 0 && Consecutive(views, sorted)
            && (forall s :: s in sorted ==> ImageOf(views, s).Some? && WellMade(ImageOf(views, s).value))
            && g == Gathered(Descs(views, sorted), Join(PixelSections(views, sorted)), sorted[0].binding)
  {
    hide SortSlots, Descs, PixelSections, Join, Consecutive, AllWellMade, ImageOf, WellMade;
    if Consecutive(views, SortSlots(slots)) {
      ImagesWellMade(views, SortSlots(slots));
    }
  }

  lemma SameSlots(slots: seq<Slot>, sorted: seq<Slot>)
    requires forall x :: x in sorted <==> x in slots
    ensures forall x :: x in slots ==> x in sorted
  {
  }

  lemma PlaceOf(sorted: seq<Slot>, s: Slot) returns (i: nat)
    requires s in sorted
    ensures i < |sorted| && sorted[i] == s
  {
    i :| 0 <= i < |sorted| && sorted[i] == s;
  }

  lemma BoundHere(views: Views, base: u32, texs: seq<Codec.Texture>, s: Slot, i: nat)
    requires i < |texs| && ImageOf(views, s).Some? && WellMade(ImageOf(views, s).value)
    requires base + 2 * i == s.binding && texs[i] == TextureFor(views, s)
    ensures Bound(views, base, texs, s)
  {
    hide TextureFor, ImageOf, WellMade;
    assert BoundAt(views, base, texs, s, i);
  }

  lemma BoundAll(views: Views, slots: seq<Slot>, base: u32, texs: seq<Codec.Texture>)
    requires |texs| == |slots| && forall s :: s in slots ==> Bound(views, base, texs, s)
    ensures BoundAsWritten(views, slots, base, texs)
  {
    hide Bound;
  }

  /** Texture `tex` is what the view shows, through the sampler: the image's own pixels if they can be
      forwarded, one opaque white pixel if not. */
  ghost predicate Samples(tex: Codec.Texture, views: Views, view: Option<nat>, sampler: Option<D.Sampler>)
  {
    && view.Some? && views(view.value).Some?
    && (tex.linear <==> sampler.Some? && sampler.value.linear)
    && (tex.wrap <==> sampler.Some? && sampler.value.wrap)
    && var img := views(view.value).value;
       if img.mem.Some? && img.rowPitch == (img.w * 4) % 0x1_0000_0000 then
         && tex.width == img.w && tex.height == img.h && |tex.rgba| == img.w * img.h * 4 <= |img.mem.value|
         && forall k :: 0 <= k < |tex.rgba| ==> tex.rgba[k] == img.mem.value[k]
       else tex.width == 1 && tex.height == 1 && tex.rgba == [255, 255, 255, 255]
  }

  lemma TextureForSamples(views: Views, s: Slot)
    requires ImageOf(views, s).Some? && WellMade(ImageOf(views, s).value)
    ensures Samples(TextureFor(views, s), views, s.value.image, s.value.sampler)
  {
  }

  /** Some texture the host binds at `b` samples what the writes put there. */
  ghost predicate Sampled(texs: seq<Codec.Texture>, base: u32, views: Views, ws: seq<D.Write>, b: u32)
  {
    exists i :: 0 <= i < |texs| && base + 2 * i == b
                && Samples(texs[i], views, D.LatestView(ws, b), D.LatestSampler(ws, b))
  }

  /** Every slot has an image, and the bindings are every other one from `base` on. */
  predicate EvenFrom(views: Views, slots: seq<Slot>, base: u32)
  {
    forall s :: s in slots ==>
      && s.value.image.Some? && views(s.value.image.value).Some?
      && base <= s.binding < base + 2 * |slots| && (s.binding - base) % 2 == 0
  }

  /** Texture bindings survive end to end. Whatever descriptor writes the application made, and
      whatever else the list carries: if the host accepts the encoded list, it has textures exactly
      when there are slots, all with images, at every other binding from some base on; and then it
      samples, at the binding of each of the first eight textures written, the view last brought to that
      binding through the sampler last brought to it. */
  lemma TexturesSurvive(
    ws: seq<D.Write>, views: Views, l: CmdList.List, cap: u32, max: nat)
    requires AllWellMade(views) && CmdList.CTypes(l) && CmdList.Encode(l, cap).Some?
    requires var g := Gather(views, D.Run(ws).textures);
             l.texs == g.texs && l.texPixels == g.pix && l.texBinding == g.base
    ensures var r := CmdList.Decode(CmdList.Encode(l, cap).value, max);
            var slots := D.Run(ws).textures;
            r.Some? ==>
              && (r.value.textures != [] <==> slots != [] && exists base: u32 :: EvenFrom(views, slots, base))
              && (r.value.textures != [] ==>
                    && |r.value.textures| == |slots|
                    && forall b: u32 :: D.Early(8, D.Opened(ws, D.TextureOpened), b) ==>
                         Sampled(r.value.textures, r.value.texBinding, views, ws, b))
  {
    CmdList.RoundTripIff(l, cap, max);
    D.SlotsAreLatest(ws);
    D.SetAfterWrites(ws);
    hide *;
    if CmdList.Decode(CmdList.Encode(l, cap).value, max).None? {
      return;
    }
    var d := CmdList.Decode(CmdList.Encode(l, cap).value, max).value;
    var slots := D.Run(ws).textures;
    SlotsDistinct(ws);
    CarriesTextures(d, l);
    GatherAllOrNothing(views, slots);
    if d.textures != [] {
      GatheredAreBound(views, slots, d.textures);
      forall b: u32 | D.Early(8, D.Opened(ws, D.TextureOpened), b)
        ensures Sampled(d.textures, d.texBinding, views, ws, b)
      {
        SlottedAt(slots, b);
        var k :| 0 <= k < |slots| && slots[k].binding == b;
        BoundIsSampled(views, ws, slots, d.texBinding, d.textures, k);
      }
      BoundCount(views, slots, d.texBinding, d.textures);
    }
  }

  lemma SlottedAt(slots: seq<Slot>, b: u32)
    requires D.Slotted(slots, b)
    ensures exists k :: 0 <= k < |slots| && slots[k].binding == b
  {
  }

  lemma BoundCount(views: Views, slots: seq<Slot>, base: u32, texs: seq<Codec.Texture>)
    requires BoundAsWritten(views, slots, base, texs)
    ensures |texs| == |slots|
  {
  }

  lemma BoundIsSampled(
    views: Views, ws: seq<D.Write>, slots: seq<Slot>, base: u32, texs: seq<Codec.Texture>, k: nat)
    requires BoundAsWritten(views, slots, base, texs) && k < |slots|
    requires slots[k].value == D.Texture(D.LatestView(ws, slots[k].binding), D.LatestSampler(ws, slots[k].binding))
    ensures Sampled(texs, base, views, ws, slots[k].binding)
  {
    hide D.LatestView, D.LatestSampler, Samples, TextureFor, WellMade, ImageOf;
    var s := slots[k];
    assert Bound(views, base, texs, s);
    var i :| 0 <= i < |texs| && BoundAt(views, base, texs, s, i);
    TextureForSamples(views, s);
  }

  lemma SlotsDistinct(ws: seq<D.Write>)
    requires D.Holds(D.Run(ws).textures, D.MAX_SET_TEXTURES, D.TextureWrites(ws))
    ensures D.Distinct(D.Run(ws).textures) && |D.Run(ws).textures| <= 8
  {
  }

  lemma CarriesTextures(d: CmdList.Draw, l: CmdList.List)
    requires CmdList.Carries(d, l)
    ensures Codec.Carves(l.texs, l.texPixels, d.textures) && d.texBinding == l.texBinding
    ensures |d.textures| == |l.texs|
  {
  }

  /** The driver forwards all of the slots or none of them, in ascending order of binding: all exactly
      when every slot has an image and the bindings are every other one from some base on. */
  lemma GatherAllOrNothing(views: Views, slots: seq<Slot>)
    requires AllWellMade(views) && D.Distinct(slots) && |slots| <= 8
    ensures multiset(SortSlots(slots)) == multiset(slots) && Ascending(SortSlots(slots))
    ensures var g := Gather(views, slots);
            && (g.texs == [] || |g.texs| == |slots|)
            && (g.texs != [] <==> slots != [] && exists base: u32 :: EvenFrom(views, slots, base))
  {
    SortAscends(slots);
    SortPermutes(slots);
    hide SortSlots, Ascending, EvenFrom, Consecutive;
    if slots != [] {
      EvenIff(views, SortSlots(slots));
      forall base: u32 ensures EvenFrom(views, slots, base) <==> EvenFrom(views, SortSlots(slots), base) {
        EvenOfSame(views, slots, SortSlots(slots), base);
      }
    }
  }

  lemma EvenOfSame(views: Views, slots: seq<Slot>, sorted: seq<Slot>, base: u32)
    requires |slots| == |sorted| && forall x :: x in sorted <==> x in slots
    ensures EvenFrom(views, slots, base) <==> EvenFrom(views, sorted, base)
  {
  }

  lemma EvenIff(views: Views, sorted: seq<Slot>)
    requires Ascending(sorted) && 0 < |sorted| <= 8
    ensures Consecutive(views, sorted) <==> exists base: u32 :: EvenFrom(views, sorted, base)
  {
    hide Ascending;
    if Consecutive(views, sorted) {
      var base := sorted[0].binding;
      forall s | s in sorted
        ensures s.value.image.Some? && views(s.value.image.value).Some?
        ensures base <= s.binding < base + 2 * |sorted| && (s.binding - base) % 2 == 0
      {
        var i := PlaceOf(sorted, s);
        NoWrap(views, sorted, i);
      }
      assert EvenFrom(views, sorted, base);
    }
    if base: u32 :| EvenFrom(views, sorted, base) {
      forall i | 0 <= i < |sorted|
        ensures ImageOf(views, sorted[i]).Some? && sorted[i].binding == Residue(sorted[0].binding + 2 * i)
      {
        assert sorted[i] in sorted;
        NotBefore(views, sorted, base, 0);
        NotBefore(views, sorted, base, i);
        NotAfter(views, sorted, base, 0);
        NotAfter(views, sorted, base, i);
      }
    }
  }

  lemma {:induction false} NotBefore(views: Views, sorted: seq<Slot>, base: u32, i: nat)
    requires Ascending(sorted) && EvenFrom(views, sorted, base) && i < |sorted|
    ensures sorted[i].binding >= base + 2 * i
  {
    assert sorted[i] in sorted;
    if i > 0 {
      NotBefore(views, sorted, base, i - 1);
      assert sorted[i - 1] in sorted && sorted[i - 1].binding < sorted[i].binding;
    }
  }

  lemma {:induction false} NotAfter(views: Views, sorted: seq<Slot>, base: u32, i: nat)
    requires Ascending(sorted) && EvenFrom(views, sorted, base) && i < |sorted|
    ensures sorted[i].binding <= base + 2 * i
    decreases |sorted| - i
  {
    assert sorted[i] in sorted;
    if i + 1 < |sorted| {
      NotAfter(views, sorted, base, i + 1);
      assert sorted[i + 1] in sorted && sorted[i].binding < sorted[i + 1].binding;
    }
  }

  predicate SmallEnough(views: Views, s: Slot, max: nat)
  {
    ImageOf(views, s).Some? && WellMade(ImageOf(views, s).value) && |Shown(ImageOf(views, s).value).rgba| <= max
  }

  /** The host's texture checks pass on what the driver gathered exactly when no image forwarded is
      larger than the host's limit. */
  lemma GatheredFitIff(views: Views, slots: seq<Slot>, max: nat)
    requires AllWellMade(views) && D.Distinct(slots)
    ensures var g := Gather(views, slots);
            Codec.TexturesFit(g.texs, g.pix, max) <==>
            (g.texs == [] || forall s :: s in slots ==> SmallEnough(views, s, max))
  {
    var g := Gather(views, slots);
    if g.texs != [] {
      hide *;
      GatherMeans(views, slots);
      SortAscends(slots);
      SectionsFitIff(views, SortSlots(slots), max);
      SameSlots(slots, SortSlots(slots));
    }
  }

  lemma SectionsFitIff(views: Views, sorted: seq<Slot>, max: nat)
    requires forall s :: s in sorted ==> ImageOf(views, s).Some? && WellMade(ImageOf(views, s).value)
    ensures Codec.TexturesFit(Descs(views, sorted), Join(PixelSections(views, sorted)), max) <==>
            forall s :: s in sorted ==> SmallEnough(views, s, max)
  {
    hide Codec.PixelEnd, DescFor, Descs, PixelSections, Join, ImageOf, WellMade, Shown, Codec.GoodTexture;
    var ds, ps := Descs(views, sorted), PixelSections(views, sorted);
    forall k | 0 <= k < |ds| ensures ds[k].dataLen == |ps[k]| {
      DescsAt(views, sorted, k);
      DescLength(views, sorted[k]);
    }
    forall i | 0 <= i < |ds| ensures Codec.FitsAt(ds, Join(ps), max, i) <==> SmallEnough(views, sorted[i], max) {
      DescsAt(views, sorted, i);
      SectionOf(ds, ps, i);
      DescGoodIff(views, sorted[i], max);
    }
    hide Codec.FitsAt, SmallEnough;
    AllIff(views, sorted, ds, Join(ps), max);
  }

  lemma AllIff(views: Views, sorted: seq<Slot>, ds: seq<Codec.TexDesc>, pix: Bytes, max: nat)
    requires |ds| == |sorted|
    requires forall i :: 0 <= i < |ds| ==> (Codec.FitsAt(ds, pix, max, i) <==> SmallEnough(views, sorted[i], max))
    ensures Codec.TexturesFit(ds, pix, max) <==> forall s :: s in sorted ==> SmallEnough(views, s, max)
  {
    hide SmallEnough, Codec.FitsAt;
    if forall s :: s in sorted ==> SmallEnough(views, s, max) {
      forall i | 0 <= i < |ds| ensures Codec.FitsAt(ds, pix, max, i) {
        assert sorted[i] in sorted;
      }
    }
    if Codec.TexturesFit(ds, pix, max) {
      forall s | s in sorted ensures SmallEnough(views, s, max) {
        var i := PlaceOf(sorted, s);
        assert Codec.FitsAt(ds, pix, max, i);
      }
    }
  }

  lemma DescGoodIff(views: Views, s: Slot, max: nat)
    requires ImageOf(views, s).Some? && WellMade(ImageOf(views, s).value)
    ensures Codec.GoodTexture(DescFor(views, s), max) <==> SmallEnough(views, s, max)
  {
    ShownSize(ImageOf(views, s).value);
    hide Shown, WellMade, ImageOf;
  }
}
