/**
 The blob present protocol: the guest driver's framebuffer cache and the host's resource table,
 joined by pushes whose doorbell executes the message before the push returns (module `Doorbell`).

 `State` and the functions on it say what a flip does; `Driver` is the driver's code.
 */
module Present {
  import opened Words
  import Doorbell
  import Drain
  import Resource

  const FBCACHE: nat := 4
  const FMT_XRGB8888: u32 := 3

  /** A framebuffer as the flip hands it over. */
  datatype Framebuffer = Framebuffer(addr: u64, w: u32, h: u32, pitch: u32)

  datatype FbEntry = FbEntry(fb: Framebuffer, resId: u32, valid: bool)

  /** A present request as it reaches `present_scanout_damaged`. */
  datatype Presented = Presented(addr: u64, w: u32, h: u32, pitch: u32, format: u32, rect: Resource.Rect)

  /** The host end of the link; `tail` is the ring's, and a push returns its new value. */
  datatype Host = Host(table: Resource.Table, tail: u32, presents: seq<Presented>)

  datatype State = State(
    cache: seq<FbEntry>, next: nat, nextResId: u32, scanoutResId: u32, host: Host)

  // ---- Message bodies, as the driver lays them out ----

  function CreateBytes(resId: u32, size: u64): seq<byte>
  {
    WordBytes([resId, 0, 1, 0]) + LE64(size)
  }

  function AttachBytes(resId: u32, addr: u64, size: u64): seq<byte>
  {
    WordBytes([resId, 1]) + LE64(addr) + LE64(size)
  }

  function BindBytes(resId: u32, fb: Framebuffer): seq<byte>
  {
    WordBytes([0, resId, fb.w, fb.h, FMT_XRGB8888, fb.pitch])
  }

  function FlushBytes(resId: u32, r: Resource.Rect): seq<byte>
  {
    WordBytes([resId, r.x, r.y, r.w, r.h, 0])
  }

  /** The bodies field by field, at their byte offsets. */
  lemma BodyLayout(resId: u32, addr: u64, size: u64, fb: Framebuffer, r: Resource.Rect)
    ensures var c := CreateBytes(resId, size);
            |c| == 24 && U32At(c, 0) == resId && U32At(c, 4) == 0 && U32At(c, 8) == 1 && U32At(c, 12) == 0
            && U64At(c, 16) == size
    ensures var a := AttachBytes(resId, addr, size);
            |a| == 24 && U32At(a, 0) == resId && U32At(a, 4) == 1 && U64At(a, 8) == addr && U64At(a, 16) == size
    ensures var b := BindBytes(resId, fb);
            |b| == 24 && U32At(b, 0) == 0 && U32At(b, 4) == resId && U32At(b, 8) == fb.w && U32At(b, 12) == fb.h
            && U32At(b, 16) == 3 && U32At(b, 20) == fb.pitch
    ensures var f := FlushBytes(resId, r);
            |f| == 24 && U32At(f, 0) == resId && U32At(f, 4) == r.x && U32At(f, 8) == r.y && U32At(f, 12) == r.w
            && U32At(f, 16) == r.h && U32At(f, 20) == 0
  {
    CreateLayout(resId, size);
    AttachLayout(resId, addr, size);
    SixWords([0, resId, fb.w, fb.h, 3, fb.pitch]);
    SixWords([resId, r.x, r.y, r.w, r.h, 0]);
    hide U32At, U64At, WordBytes, CreateBytes, AttachBytes;
  }

  lemma SixWords(ws: seq<u32>)
    requires |ws| == 6
    ensures var b := WordBytes(ws);
            && U32At(b, 0) == ws[0] && U32At(b, 4) == ws[1] && U32At(b, 8) == ws[2] && U32At(b, 12) == ws[3]
            && U32At(b, 16) == ws[4] && U32At(b, 20) == ws[5]
  {
    hide U32At, WordBytes;
    WordField(ws, 0);
    WordField(ws, 1);
    WordField(ws, 2);
    WordField(ws, 3);
    WordField(ws, 4);
    WordField(ws, 5);
  }

  lemma CreateLayout(resId: u32, size: u64)
    ensures var c := CreateBytes(resId, size);
            |c| == 24 && U32At(c, 0) == resId && U32At(c, 4) == 0 && U32At(c, 8) == 1 && U32At(c, 12) == 0
            && U64At(c, 16) == size
  {
    var ws: seq<u32> := [resId, 0, 1, 0];
    var c := CreateBytes(resId, size);
    WordField(ws, 0);
    WordField(ws, 1);
    WordField(ws, 2);
    WordField(ws, 3);
    hide U32At, U64At, WordBytes;
    FieldOfPrefix(WordBytes(ws), LE64(size), 0);
    FieldOfPrefix(WordBytes(ws), LE64(size), 4);
    FieldOfPrefix(WordBytes(ws), LE64(size), 8);
    FieldOfPrefix(WordBytes(ws), LE64(size), 12);
    assert c[16..24] == LE64(size);
    ReadLE64(c, 16, size);
  }

  lemma AttachLayout(resId: u32, addr: u64, size: u64)
    ensures var a := AttachBytes(resId, addr, size);
            |a| == 24 && U32At(a, 0) == resId && U32At(a, 4) == 1 && U64At(a, 8) == addr && U64At(a, 16) == size
  {
    var ws: seq<u32> := [resId, 1];
    var a := AttachBytes(resId, addr, size);
    WordField(ws, 0);
    WordField(ws, 1);
    hide U32At, U64At, WordBytes;
    assert a == WordBytes(ws) + (LE64(addr) + LE64(size));
    FieldOfPrefix(WordBytes(ws), LE64(addr) + LE64(size), 0);
    FieldOfPrefix(WordBytes(ws), LE64(addr) + LE64(size), 4);
    assert a[8..16] == LE64(addr) && a[16..24] == LE64(size);
    ReadLE64(a, 8, addr);
    ReadLE64(a, 16, size);
  }

  function Size(fb: Framebuffer): (n: u64)
  {
    SizeFits(fb);
    fb.pitch * fb.h
  }

  lemma SizeFits(fb: Framebuffer)
    ensures 0 <= fb.pitch * fb.h < 0x1_0000_0000_0000_0000
  {
    ProductBound(fb.pitch, fb.h, 0xFFFF_FFFF, 0xFFFF_FFFF);
  }

  // ---- The host's answer to one push ----

  /** `present_resource_flush`: the geometry of the lowest head bound to the resource, over its
      single backing segment; nothing when unbound or not single-segment. */
  ghost function PresentOf(t: Resource.Table, resId: u32, rect: Resource.Rect): seq<Presented>
  {
    if h: u32 :| Resource.IsLowestHead(t, resId, Some(h)) then
      if resId in t.resources && |t.resources[resId].backing| == 1 then
        var b := t.scanouts[h];
        [Presented(t.resources[resId].backing[0].addr, b.width, b.height, b.stride, b.format, rect)]
      else []
    else []
  }

  ghost function AfterPush(h: Host, msgType: u32, payload: seq<byte>): Host
  {
    var o := Resource.Execute(h.table, msgType, payload);
    Host(o.table, WrapAdd(h.tail, 1),
         h.presents + if o.executed.Flush? then PresentOf(o.table, o.executed.resId, o.executed.rect) else [])
  }

  // ---- The guest ----

  predicate Matches(e: FbEntry, fb: Framebuffer)
  {
    e.valid && e.fb == fb
  }

  /** The first matching cache slot at or after `i`, `|cache|` if none. */
  function Find(cache: seq<FbEntry>, fb: Framebuffer, i: nat): (k: nat)
    requires i <= |cache|
    ensures i <= k <= |cache|
    ensures k < |cache| ==> Matches(cache[k], fb)
    ensures forall j :: i <= j < k ==> !Matches(cache[j], fb)
    decreases |cache| - i
  {
    if i == |cache| || Matches(cache[i], fb) then i else Find(cache, fb, i + 1)
  }

  predicate Hit(s: State, fb: Framebuffer)
  {
    Find(s.cache, fb, 0) < |s.cache|
  }

  /** Make room in slot `next`, destroying the registration that was there. */
  ghost function Evict(s: State): State
    requires s.next < |s.cache|
  {
    var e := s.cache[s.next];
    if !e.valid then s
    else s.(scanoutResId := if e.resId == s.scanoutResId then 0 else s.scanoutResId,
            host := AfterPush(s.host, Resource.RESOURCE_DESTROY, LE32(e.resId)))
  }

  /** Evicting the buffer on the head forgets the binding, so that the next flip binds again; and the host
      is told to destroy what was in the slot. */
  lemma EvictForgets(s: State)
    requires s.next < |s.cache|
    ensures var e, s' := s.cache[s.next], Evict(s);
            && (!e.valid ==> s' == s)
            && (e.valid ==> s'.host == AfterPush(s.host, 0x24, LE32(e.resId)))
            && s'.scanoutResId == (if e.valid && e.resId == s.scanoutResId then 0 else s.scanoutResId)
            && s'.cache == s.cache && s'.next == s.next && s'.nextResId == s.nextResId
  {
    hide AfterPush, LE32;
  }

  datatype Announced = Announced(host: Host, ok: bool)

  /** Announce a new blob to the host: create, attach, bind; stop at a push that returns 0. */
  ghost function Announce(h: Host, id: u32, fb: Framebuffer): Announced
  {
    var h1 := AfterPush(h, Resource.CREATE_BLOB, CreateBytes(id, Size(fb)));
    if h1.tail == 0 then Announced(h1, false)
    else
      var h2 := AfterPush(h1, Resource.ATTACH_BACKING, AttachBytes(id, fb.addr, Size(fb)));
      if h2.tail == 0 then Announced(h2, false)
      else
        var h3 := AfterPush(h2, Resource.SET_SCANOUT_BLOB, BindBytes(id, fb));
        Announced(h3, h3.tail != 0)
  }

  datatype Registered = Registered(s: State, resId: u32)

  /** `igpu_resource_register`: a push that returns 0 abandons the registration where it stands. */
  ghost function Register(s: State, fb: Framebuffer): Registered
    requires s.next < |s.cache|
  {
    var i := Find(s.cache, fb, 0);
    if i < |s.cache| then Registered(s, s.cache[i].resId)
    else
      var id := WrapAdd(s.nextResId, 1);
      var a := Announce(s.host, id, fb);
      if !a.ok then Registered(s.(nextResId := id, host := a.host), 0)
      else Registered(Fill(Evict(s.(nextResId := id, scanoutResId := id, host := a.host)), fb, id), id)
  }

  function Fill(s: State, fb: Framebuffer, id: u32): State
    requires s.next < |s.cache|
  {
    s.(cache := s.cache[s.next := FbEntry(fb, id, true)], next := (s.next + 1) % FBCACHE)
  }

  /** Point head 0 at the flipped buffer if it is not there already, then flush. */
  ghost function BindAndFlush(s: State, id: u32, fb: Framebuffer, rect: Resource.Rect): State
  {
    var s1 := if id == s.scanoutResId then s
              else s.(host := AfterPush(s.host, Resource.SET_SCANOUT_BLOB, BindBytes(id, fb)), scanoutResId := id);
    s1.(host := AfterPush(s1.host, Resource.RESOURCE_FLUSH, FlushBytes(id, rect)))
  }

  /** `igpu_flush_resource`. */
  ghost function Flip(s: State, fb: Framebuffer, rect: Resource.Rect): State
    requires s.next < |s.cache|
  {
    var r := Register(s, fb);
    if r.resId == 0 then r.s else BindAndFlush(r.s, r.resId, fb, rect)
  }

  // ---- What the messages do to the table ----

  lemma FieldOfPrefix(a: seq<byte>, b: seq<byte>, o: nat)
    requires o + 4 <= |a|
    ensures U32At(a + b, o) == U32At(a, o)
  {
  }

  lemma CreateExecutes(t: Resource.Table, id: u32, size: u64)
    ensures Resource.Execute(t, Resource.CREATE_BLOB, CreateBytes(id, size)) ==
            Resource.Apply(t, Resource.CreateBlob(t, id, 1, size), Resource.CreatedBlob(id))
  {
    var ws: seq<u32> := [id, 0, 1, 0];
    var p := CreateBytes(id, size);
    WordField(ws, 0);
    WordField(ws, 2);
    FieldOfPrefix(WordBytes(ws), LE64(size), 0);
    FieldOfPrefix(WordBytes(ws), LE64(size), 8);
    assert p[16..24] == LE64(size);
    ReadLE64(p, 16, size);
  }

  lemma AttachExecutes(t: Resource.Table, id: u32, addr: u64, size: u64)
    ensures Resource.Execute(t, Resource.ATTACH_BACKING, AttachBytes(id, addr, size)) ==
            Resource.Apply(t, Resource.AttachBacking(t, id, [Resource.Segment(addr, size)]),
                           Resource.AttachedBacking(id, 1))
  {
    var ws: seq<u32> := [id, 1];
    var p := AttachBytes(id, addr, size);
    WordField(ws, 0);
    WordField(ws, 1);
    assert p == WordBytes(ws) + (LE64(addr) + LE64(size));
    FieldOfPrefix(WordBytes(ws), LE64(addr) + LE64(size), 0);
    FieldOfPrefix(WordBytes(ws), LE64(addr) + LE64(size), 4);
    var rest := p[8..];
    assert rest[0..8] == LE64(addr) && rest[8..16] == LE64(size);
    ReadLE64(rest, 0, addr);
    ReadLE64(rest, 8, size);
    assert Resource.Segments(rest, 0) == [];
    assert Resource.Segments(rest, 1) == [Resource.Segment(addr, size)];
  }

  lemma BindExecutes(t: Resource.Table, id: u32, fb: Framebuffer)
    ensures Resource.Execute(t, Resource.SET_SCANOUT_BLOB, BindBytes(id, fb)) ==
            Resource.Apply(t, Resource.SetScanout(t, 0, BindingFor(id, fb)), Resource.SetScanoutHead(0))
  {
    var ws: seq<u32> := [0, id, fb.w, fb.h, FMT_XRGB8888, fb.pitch];
    forall i | 0 <= i < 6 ensures U32At(BindBytes(id, fb), 4 * i) == ws[i] { WordField(ws, i); }
    assert U32At(BindBytes(id, fb), 4 * 0) == 0 && U32At(BindBytes(id, fb), 4 * 1) == id;
    assert U32At(BindBytes(id, fb), 4 * 2) == fb.w && U32At(BindBytes(id, fb), 4 * 3) == fb.h;
    assert U32At(BindBytes(id, fb), 4 * 4) == 3 && U32At(BindBytes(id, fb), 4 * 5) == fb.pitch;
  }

  lemma FlushExecutes(t: Resource.Table, id: u32, r: Resource.Rect)
    requires id in t.resources && t.resources[id].backing != []
    ensures Resource.Execute(t, Resource.RESOURCE_FLUSH, FlushBytes(id, r)) ==
            Resource.Outcome(t, Resource.Flush(id, r))
  {
    var ws: seq<u32> := [id, r.x, r.y, r.w, r.h, 0];
    var p := FlushBytes(id, r);
    forall i | 0 <= i < 6 ensures U32At(p, 4 * i) == ws[i] { WordField(ws, i); }
    assert U32At(p, 4 * 0) == id && U32At(p, 4 * 1) == r.x && U32At(p, 4 * 2) == r.y;
    assert U32At(p, 4 * 3) == r.w && U32At(p, 4 * 4) == r.h;
  }

  lemma DestroyExecutes(t: Resource.Table, id: u32)
    ensures Resource.Execute(t, Resource.RESOURCE_DESTROY, LE32(id)) ==
            Resource.Apply(t, Resource.Destroy(t, id), Resource.Destroyed(id))
  {
    ReadLE32(LE32(id), 0, id);
  }

  // ---- Agreement ----

  /** A framebuffer the display stack can flip. */
  predicate WellFormed(fb: Framebuffer)
  {
    && 0 < fb.w <= Resource.MAX_DIM && 0 < fb.h <= Resource.MAX_DIM
    && 4 * fb.w <= fb.pitch && Size(fb) <= Resource.MAX_BLOB_BYTES
  }

  function BlobFor(fb: Framebuffer): Resource.Blob
  {
    Resource.Blob(1, Size(fb), [Resource.Segment(fb.addr, Size(fb))])
  }

  function BindingFor(id: u32, fb: Framebuffer): Resource.Binding
  {
    Resource.Binding(id, fb.w, fb.h, FMT_XRGB8888, fb.pitch)
  }

  /** Cache slot `i` holds a valid registration under `id`. */
  predicate Live(cache: seq<FbEntry>, i: int, id: u32)
  {
    0 <= i < |cache| && cache[i].valid && cache[i].resId == id
  }

  /** The cache's registrations have distinct ids already handed out. */
  ghost predicate CacheInv(cache: seq<FbEntry>, nextResId: u32)
  {
    && |cache| == FBCACHE
    && (forall i :: 0 <= i < |cache| && cache[i].valid ==>
          0 < cache[i].resId <= nextResId && WellFormed(cache[i].fb))
    && (forall i, j :: 0 <= i < j < |cache| && cache[i].valid && cache[j].valid ==>
          cache[i].resId != cache[j].resId)
  }

  /** The live host resources are exactly the valid registrations, each blob as registered. */
  ghost predicate TableAgrees(cache: seq<FbEntry>, t: Resource.Table)
  {
    && (forall i :: 0 <= i < |cache| && cache[i].valid ==>
          cache[i].resId in t.resources && t.resources[cache[i].resId] == BlobFor(cache[i].fb))
    && (forall id :: id in t.resources ==> exists i :: Live(cache, i, id))
  }

  /** Head 0 is bound to the registration the guest believes is scanned out; no other head is. */
  ghost predicate ScanoutAgrees(cache: seq<FbEntry>, scanoutResId: u32, t: Resource.Table)
  {
    if scanoutResId == 0 then t.scanouts == map[]
    else exists i :: Live(cache, i, scanoutResId) && t.scanouts == map[0 := BindingFor(scanoutResId, cache[i].fb)]
  }

  ghost predicate Agree(s: State)
  {
    && s.next < FBCACHE
    && CacheInv(s.cache, s.nextResId)
    && TableAgrees(s.cache, s.host.table)
    && ScanoutAgrees(s.cache, s.scanoutResId, s.host.table)
  }

  /** A flip neither hands out the last id nor registers across the wrap of the 32-bit ring tail,
      where a push that went through returns 0. */
  predicate Safe(s: State, fb: Framebuffer)
  {
    Hit(s, fb) || (s.host.tail < 0xFFFF_FFFD && s.nextResId < 0xFFFF_FFFF)
  }

  lemma {:induction false} SubsetCardinality(a: set<u32>, b: set<u32>)
    requires a <= b
    ensures |a| <= |b|
  {
    if a != {} {
      var x :| x in a;
      SubsetCardinality(a - {x}, b - {x});
    }
  }

  lemma FewResources(s: State)
    requires Agree(s)
    ensures |s.host.table.resources| < Resource.MAX_RESOURCES
  {
    var c := s.cache;
    var ids := {c[0].resId} + {c[1].resId} + {c[2].resId} + {c[3].resId};
    forall id | id in s.host.table.resources ensures id in ids {
      var i :| Live(c, i, id);
    }
    assert |ids| <= 4;
    SubsetCardinality(s.host.table.resources.Keys, ids);
  }

  lemma NextIdIsFresh(s: State)
    requires Agree(s)
    ensures forall id :: id in s.host.table.resources ==> id <= s.nextResId
  {
    forall id | id in s.host.table.resources ensures id <= s.nextResId {
      var i :| Live(s.cache, i, id);
    }
  }

  function WithBlob(t: Resource.Table, id: u32, b: Resource.Blob): Resource.Table
  {
    t.(resources := t.resources[id := b])
  }

  /** A push whose message is not a flush presents nothing. */
  lemma PushQuiet(h: Host, msgType: u32, payload: seq<byte>)
    requires !Resource.Execute(h.table, msgType, payload).executed.Flush?
    ensures AfterPush(h, msgType, payload) ==
            Host(Resource.Execute(h.table, msgType, payload).table, WrapAdd(h.tail, 1), h.presents)
  {
  }

  lemma CreatePush(h: Host, id: u32, fb: Framebuffer)
    requires |h.table.resources| < Resource.MAX_RESOURCES && id !in h.table.resources && WellFormed(fb)
    ensures AfterPush(h, Resource.CREATE_BLOB, CreateBytes(id, Size(fb))) ==
            Host(WithBlob(h.table, id, Resource.Blob(1, Size(fb), [])), WrapAdd(h.tail, 1), h.presents)
  {
    var size := Size(fb);
    assert size > 0 by { ProductPositive(fb.pitch, fb.h); }
    CreateExecutes(h.table, id, size);
    hide AfterPush, Resource.Execute, CreateBytes, Size;
    PushQuiet(h, Resource.CREATE_BLOB, CreateBytes(id, size));
  }

  lemma AttachPush(h: Host, id: u32, fb: Framebuffer)
    requires id in h.table.resources && h.table.resources[id] == Resource.Blob(1, Size(fb), [])
    ensures AfterPush(h, Resource.ATTACH_BACKING, AttachBytes(id, fb.addr, Size(fb))) ==
            Host(WithBlob(h.table, id, BlobFor(fb)), WrapAdd(h.tail, 1), h.presents)
  {
    var size := Size(fb);
    AttachExecutes(h.table, id, fb.addr, size);
    var seg := [Resource.Segment(fb.addr, size)];
    assert seg[..0] == [] && Resource.CheckedSum(seg[..0]) == Some(0);
    assert Resource.CheckedSum(seg) == Some(size);
    hide AfterPush, Resource.Execute, AttachBytes, Size, Resource.CheckedSum;
    PushQuiet(h, Resource.ATTACH_BACKING, AttachBytes(id, fb.addr, size));
  }

  /** The create and attach pushes of a new registration. */
  lemma CreateAndAttach(h: Host, id: u32, fb: Framebuffer)
    requires |h.table.resources| < Resource.MAX_RESOURCES && id !in h.table.resources && WellFormed(fb)
    ensures var h1 := AfterPush(h, Resource.CREATE_BLOB, CreateBytes(id, Size(fb)));
            && h1 == Host(WithBlob(h.table, id, Resource.Blob(1, Size(fb), [])), WrapAdd(h.tail, 1), h.presents)
            && AfterPush(h1, Resource.ATTACH_BACKING, AttachBytes(id, fb.addr, Size(fb))) ==
               Host(WithBlob(h.table, id, BlobFor(fb)), WrapAdd(h1.tail, 1), h.presents)
  {
    hide *;
    CreatePush(h, id, fb);
    WithBlobTwice(h.table, id, Resource.Blob(1, Size(fb), []), BlobFor(fb));
    var h1 := AfterPush(h, Resource.CREATE_BLOB, CreateBytes(id, Size(fb)));
    AttachPush(h1, id, fb);
  }

  lemma WithBlobTwice(t: Resource.Table, id: u32, b: Resource.Blob, c: Resource.Blob)
    ensures var t1 := WithBlob(t, id, b); id in t1.resources && t1.resources[id] == b
    ensures WithBlob(WithBlob(t, id, b), id, c) == WithBlob(t, id, c)
  {
    assert t.resources[id := b][id := c] == t.resources[id := c];
  }

  lemma ProductPositive(a: nat, b: nat)
    requires a > 0 && b > 0
    ensures a * b > 0
  {
  }

  lemma BindPush(h: Host, id: u32, fb: Framebuffer)
    requires id in h.table.resources && WellFormed(fb) && h.table.scanouts.Keys <= {0}
    ensures AfterPush(h, Resource.SET_SCANOUT_BLOB, BindBytes(id, fb)) ==
            Host(Resource.Table(h.table.resources, map[0 := BindingFor(id, fb)]), WrapAdd(h.tail, 1), h.presents)
  {
    BindExecutes(h.table, id, fb);
    hide AfterPush, Resource.Execute, BindBytes;
    PushQuiet(h, Resource.SET_SCANOUT_BLOB, BindBytes(id, fb));
    assert h.table.scanouts[0 := BindingFor(id, fb)] == map[0 := BindingFor(id, fb)];
  }

  lemma FlushPush(h: Host, id: u32, fb: Framebuffer, rect: Resource.Rect)
    requires id in h.table.resources && h.table.resources[id] == BlobFor(fb)
    requires h.table.scanouts == map[0 := BindingFor(id, fb)]
    ensures AfterPush(h, Resource.RESOURCE_FLUSH, FlushBytes(id, rect)) ==
            Host(h.table, WrapAdd(h.tail, 1),
                 h.presents + [Presented(fb.addr, fb.w, fb.h, fb.pitch, FMT_XRGB8888, rect)])
  {
    FlushExecutes(h.table, id, rect);
    assert Resource.IsLowestHead(h.table, id, Some(0));
    hide Resource.Execute, FlushBytes;
  }

  lemma DestroyPush(h: Host, id: u32, bound: Resource.Binding)
    requires id in h.table.resources && h.table.scanouts == map[0 := bound] && bound.resId != id
    ensures AfterPush(h, Resource.RESOURCE_DESTROY, LE32(id)) ==
            Host(Resource.Table(h.table.resources - {id}, map[0 := bound]), WrapAdd(h.tail, 1), h.presents)
  {
    DestroyExecutes(h.table, id);
    hide AfterPush, Resource.Execute, LE32;
    PushQuiet(h, Resource.RESOURCE_DESTROY, LE32(id));
    var t := Resource.Destroy(h.table, id).table;
    assert t.scanouts == map[0 := bound];
  }

  lemma ScanoutOnlyHeadZero(s: State)
    requires Agree(s)
    ensures s.host.table.scanouts.Keys <= {0}
  {
  }

  /** The announcement goes through exactly when its three pushes stay clear of the tail's wrap;
      either way the host has the blob. */
  lemma AnnounceIff(s: State, fb: Framebuffer, id: u32)
    requires Agree(s) && WellFormed(fb) && id == s.nextResId + 1
    ensures var a := Announce(s.host, id, fb);
            && (a.ok <==> s.host.tail < 0xFFFF_FFFD)
            && id in a.host.table.resources
            && (a.ok ==> a.host == Host(Resource.Table(s.host.table.resources[id := BlobFor(fb)],
                                                       map[0 := BindingFor(id, fb)]),
                                        s.host.tail + 3, s.host.presents))
  {
    FewResources(s);
    NextIdIsFresh(s);
    ScanoutOnlyHeadZero(s);
    hide Agree, AfterPush, CreateBytes, AttachBytes, BindBytes, Size, WellFormed;
    CreateAndAttach(s.host, id, fb);
    var h1 := AfterPush(s.host, Resource.CREATE_BLOB, CreateBytes(id, Size(fb)));
    var h2 := AfterPush(h1, Resource.ATTACH_BACKING, AttachBytes(id, fb.addr, Size(fb)));
    BindPush(h2, id, fb);
  }

  /** A registration that goes through: the new blob is live, backed and bound to head 0, the
      evicted one is gone, and nothing else changed. */
  lemma RegisterAgrees(s: State, fb: Framebuffer)
    requires Agree(s) && WellFormed(fb) && Safe(s, fb)
    ensures var r := Register(s, fb);
            && Agree(r.s) && r.resId != 0
            && r.s.host.presents == s.host.presents
            && exists i :: Live(r.s.cache, i, r.resId) && r.s.cache[i].fb == fb
  {
    var k := Find(s.cache, fb, 0);
    if k < |s.cache| {
      assert Live(s.cache, k, s.cache[k].resId);
    } else {
      hide Agree, Announce, Evict, WellFormed, Find, Fill;
      var id: u32 := s.nextResId + 1;
      AnnounceIff(s, fb, id);
      EvictAndFill(s, s.(nextResId := id, scanoutResId := id, host := Announce(s.host, id, fb).host), fb, id);
    }
  }

  lemma EvictAndFill(s: State, s3: State, fb: Framebuffer, id: u32)
    requires Agree(s) && WellFormed(fb) && id == s.nextResId + 1
    requires s3.cache == s.cache && s3.next == s.next && s3.nextResId == s3.scanoutResId == id
    requires s3.host.table == Resource.Table(s.host.table.resources[id := BlobFor(fb)], map[0 := BindingFor(id, fb)])
    ensures var s5 := Fill(Evict(s3), fb, id);
            && Agree(s5) && s5.host.presents == s3.host.presents
            && Live(s5.cache, s.next, id) && s5.cache[s.next].fb == fb
  {
    NextIdIsFresh(s);
    var e := s.cache[s.next];
    if e.valid {
      DestroyPush(s3.host, e.resId, BindingFor(id, fb));
    }
    var s4 := Evict(s3);
    hide AfterPush, WellFormed, Size, LE32;
    var cache := s.cache[s.next := FbEntry(fb, id, true)];
    var gone := if e.valid then {e.resId} else {};
    var t := Resource.Table(s.host.table.resources[id := BlobFor(fb)] - gone, map[0 := BindingFor(id, fb)]);
    assert s4.host.table == t;
    assert CacheInv(cache, id);
    FilledTableAgrees(s, fb, id, gone);
    assert Live(cache, s.next, id);
  }

  lemma FilledTableAgrees(s: State, fb: Framebuffer, id: u32, gone: set<u32>)
    requires Agree(s) && id == s.nextResId + 1
    requires gone == if s.cache[s.next].valid then {s.cache[s.next].resId} else {}
    ensures TableAgrees(s.cache[s.next := FbEntry(fb, id, true)],
                        Resource.Table(s.host.table.resources[id := BlobFor(fb)] - gone, map[0 := BindingFor(id, fb)]))
  {
    NextIdIsFresh(s);
    hide WellFormed, BlobFor;
    var cache := s.cache[s.next := FbEntry(fb, id, true)];
    var rs := s.host.table.resources[id := BlobFor(fb)] - gone;
    forall x | x in rs ensures exists i :: Live(cache, i, x) {
      if x == id {
        assert Live(cache, s.next, x);
      } else {
        var i :| Live(s.cache, i, x);
        assert Live(cache, i, x);
      }
    }
    forall i | 0 <= i < |cache| && cache[i].valid
      ensures cache[i].resId in rs && rs[cache[i].resId] == BlobFor(cache[i].fb)
    {
      if i != s.next {
        assert cache[i] == s.cache[i];
      }
    }
  }

  // ---- Flips ----

  function PresentedFor(fb: Framebuffer, rect: Resource.Rect): Presented
  {
    Presented(fb.addr, fb.w, fb.h, fb.pitch, FMT_XRGB8888, rect)
  }

  /** A flip keeps the two ends in agreement, leaves head 0 bound to the flipped framebuffer, and
      its flush reaches the present path with that framebuffer's own address and geometry. */
  lemma FlipAgrees(s: State, fb: Framebuffer, rect: Resource.Rect)
    requires Agree(s) && WellFormed(fb) && Safe(s, fb)
    ensures var s' := Flip(s, fb, rect);
            && Agree(s')
            && s'.host.presents == s.host.presents + [PresentedFor(fb, rect)]
            && s'.host.table.scanouts == map[0 := BindingFor(s'.scanoutResId, fb)]
  {
    RegisterAgrees(s, fb);
    var r := Register(s, fb);
    var i :| Live(r.s.cache, i, r.resId) && r.s.cache[i].fb == fb;
    hide Register, Agree;
    FlushRegistered(r.s, i, fb, rect);
  }

  lemma FlushRegistered(s: State, i: int, fb: Framebuffer, rect: Resource.Rect)
    requires Agree(s) && WellFormed(fb) && 0 <= i < |s.cache| && s.cache[i].valid && s.cache[i].fb == fb
    ensures var s' := BindAndFlush(s, s.cache[i].resId, fb, rect);
            && Agree(s')
            && s'.host.presents == s.host.presents + [PresentedFor(fb, rect)]
            && s'.host.table.scanouts == map[0 := BindingFor(s'.scanoutResId, fb)]
  {
    var id := s.cache[i].resId;
    var s1 := s;
    ScanoutOnlyHeadZero(s);
    assert Live(s.cache, i, id);
    if id == s.scanoutResId {
      assert s.host.table.scanouts == map[0 := BindingFor(id, fb)];
    } else {
      BindPush(s.host, id, fb);
      s1 := s.(host := AfterPush(s.host, Resource.SET_SCANOUT_BLOB, BindBytes(id, fb)), scanoutResId := id);
    }
    FlushPush(s1.host, id, fb, rect);
    hide AfterPush, WellFormed, Size, BindBytes, FlushBytes;
  }

  datatype FlipOf = FlipOf(fb: Framebuffer, rect: Resource.Rect)

  const NO_ENTRY := FbEntry(Framebuffer(0, 0, 0, 0), 0, false)

  const INIT := State([NO_ENTRY, NO_ENTRY, NO_ENTRY, NO_ENTRY], 0, 0, 0, Host(Resource.EMPTY, 0, []))

  ghost function Flips(s: State, fs: seq<FlipOf>): (r: State)
    requires s.next < |s.cache| == FBCACHE
    ensures r.next < |r.cache| == FBCACHE
  {
    if fs == [] then s
    else Flip(Flips(s, fs[..|fs| - 1]), fs[|fs| - 1].fb, fs[|fs| - 1].rect)
  }

  ghost predicate EveryFlipSafe(fs: seq<FlipOf>)
  {
    forall n :: 0 <= n < |fs| ==> WellFormed(fs[n].fb) && Safe(Flips(INIT, fs[..n]), fs[n].fb)
  }

  function AllPresented(fs: seq<FlipOf>): seq<Presented>
  {
    if fs == [] then [] else AllPresented(fs[..|fs| - 1]) + [PresentedFor(fs[|fs| - 1].fb, fs[|fs| - 1].rect)]
  }

  /** From a fresh device, over every sequence of flips: guest and host agree, and the presents
      are the flips, each with its own framebuffer, in order. */
  lemma {:induction false} EveryRunAgrees(fs: seq<FlipOf>)
    requires EveryFlipSafe(fs)
    ensures Agree(Flips(INIT, fs)) && Flips(INIT, fs).host.presents == AllPresented(fs)
  {
    if fs != [] {
      var init, f := fs[..|fs| - 1], fs[|fs| - 1];
      forall n | 0 <= n < |init| ensures WellFormed(init[n].fb) && Safe(Flips(INIT, init[..n]), init[n].fb) {
        assert init[..n] == fs[..n] && init[n] == fs[n];
      }
      EveryRunAgrees(init);
      FlipAgrees(Flips(INIT, init), f.fb, f.rect);
    }
  }

  /** The guard is exact: while ids last, a well-formed flip keeps agreement if and only if it hits
      the cache or its three registration pushes stay clear of the tail's wrap. At the wrap the
      host has executed a push that the driver takes for a full ring. */
  lemma FlipAgreesIff(s: State, fb: Framebuffer, rect: Resource.Rect)
    requires Agree(s) && WellFormed(fb) && s.nextResId < 0xFFFF_FFFF
    ensures Agree(Flip(s, fb, rect)) <==> Hit(s, fb) || s.host.tail < 0xFFFF_FFFD
  {
    if Hit(s, fb) || s.host.tail < 0xFFFF_FFFD {
      FlipAgrees(s, fb, rect);
    } else {
      hide Announce, Evict, WellFormed, Find, Fill;
      var id: u32 := s.nextResId + 1;
      AnnounceIff(s, fb, id);
      var s' := Flip(s, fb, rect);
      assert id in s'.host.table.resources && s'.cache == s.cache;
      assert forall i :: !Live(s.cache, i, id);
    }
  }

  // ---- The code on both ends ----

  /** The device as a push sees it: the command ring with its synchronous doorbell, and the resource
      table behind the dispatcher. */
  class HostEnd {
    const link: Doorbell.Device
    const table: Resource.ResourceTable
    var presents: seq<Presented>

    ghost function Value(): Host
      reads this, table, link.ring
    {
      Host(table.Value(), link.ring.tail, presents)
    }

    /** `ring_lock` is free or held by the caller, between two pushes. */
    ghost predicate Valid()
      reads link, link.ring, link.ring.slots, link.payloads
    {
      link.LockFree()
    }

    constructor ()
      ensures Valid() && Value() == Host(Resource.EMPTY, 0, [])
      ensures fresh(table) && fresh(link) && fresh(link.ring) && fresh(link.ring.slots) && fresh(link.payloads)
    {
      link := new Doorbell.Device([], Drain.Descriptor(0, 0, 0, 0, 0, 0));
      table := new Resource.ResourceTable();
      presents := [];
    }

    /** One ring push; the drain inside its doorbell delivers the staged message, which is dispatched
        before the push returns. */
    method Push(msgType: u32, payload: seq<byte>) returns (retired: u32)
      requires Valid() && |payload| <= Doorbell.PSTRIDE
      modifies this`presents, table, link`executed, link.ring, link.ring.slots, link.payloads
      ensures Valid()
      ensures Value() == AfterPush(old(Value()), msgType, payload)
      ensures retired == link.ring.tail
    {
      hide Resource.Execute, PresentOf;
      retired := link.Ring2Push(msgType, payload);
      var delivered := link.executed[|link.executed| - 1];
      assert delivered == Doorbell.Delivered(msgType, payload);
      var e := table.ExecuteResource(delivered.msgType, delivered.payload);
      if e.Flush? {
        PresentFlush(e.resId, e.rect);
      }
    }

    /** `present_resource_flush` up to its call of the damage present. */
    method PresentFlush(resId: u32, rect: Resource.Rect)
      modifies this`presents
      ensures presents == old(presents) + PresentOf(table.Value(), resId, rect)
    {
      var head := table.ScanoutBindingFor(resId);
      if head.None? || resId !in table.resources {
        return;
      }
      var b := table.scanouts[head.value];
      var backing := table.resources[resId].backing;
      if |backing| != 1 {
        return;
      }
      presents := presents + [Presented(backing[0].addr, b.width, b.height, b.stride, b.format, rect)];
    }
  }

  class Driver {
    const fbcache: array<FbEntry>
    const host: HostEnd
    var fbcacheNext: nat
    var nextResId: u32
    var scanoutResId: u32

    ghost function Value(): State
      reads this, fbcache, host, host.table, host.link.ring
    {
      State(fbcache[..], fbcacheNext, nextResId, scanoutResId, host.Value())
    }

    ghost predicate Valid()
      reads this, host.link, host.link.ring, host.link.ring.slots, host.link.payloads
    {
      fbcache.Length == FBCACHE && fbcacheNext < FBCACHE && host.Valid()
    }

    constructor ()
      ensures Valid() && Value() == INIT && fresh(fbcache) && fresh(host) && fresh(host.table) && fresh(host.link)
      ensures fresh(host.link.ring) && fresh(host.link.ring.slots) && fresh(host.link.payloads)
    {
      fbcache := new FbEntry[FBCACHE](_ => NO_ENTRY);
      host := new HostEnd();
      fbcacheNext, nextResId, scanoutResId := 0, 0, 0;
    }

    /** The cache scan for a registration of exactly this framebuffer. */
    method FindFb(fb: Framebuffer) returns (i: nat)
      ensures i == Find(fbcache[..], fb, 0)
    {
      i := 0;
      while i < fbcache.Length && !(fbcache[i].valid && fbcache[i].fb == fb)
        invariant 0 <= i <= fbcache.Length
        invariant Find(fbcache[..], fb, 0) == Find(fbcache[..], fb, i)
      {
        i := i + 1;
      }
    }

    method RegisterFb(fb: Framebuffer) returns (resId: u32)
      requires Valid()
      modifies this, fbcache
      modifies host, host.table, host.link, host.link.ring, host.link.ring.slots, host.link.payloads
      ensures Valid() && Registered(Value(), resId) == Register(old(Value()), fb)
    {
      hide AfterPush, Announce, Find, LE32;
      var k := FindFb(fb);
      if k < fbcache.Length {
        return fbcache[k].resId;
      }
      nextResId := WrapAdd(nextResId, 1);
      resId := nextResId;
      var ok := AnnounceFb(resId, fb);
      if !ok {
        return 0;
      }
      scanoutResId := resId;
      var i := fbcacheNext;
      if fbcache[i].valid {
        var gone := fbcache[i].resId;
        if gone == scanoutResId {
          scanoutResId := 0;
        }
        var _ := host.Push(Resource.RESOURCE_DESTROY, LE32(gone));
      }
      fbcache[i] := FbEntry(fb, resId, true);
      fbcacheNext := (i + 1) % FBCACHE;
    }

    method AnnounceFb(resId: u32, fb: Framebuffer) returns (ok: bool)
      requires host.Valid()
      modifies host, host.table, host.link, host.link.ring, host.link.ring.slots, host.link.payloads
      ensures host.Valid()
      ensures Announced(host.Value(), ok) == Announce(old(host.Value()), resId, fb)
    {
      hide AfterPush, Size;
      var r := host.Push(Resource.CREATE_BLOB, CreateBytes(resId, Size(fb)));
      if r == 0 {
        return false;
      }
      r := host.Push(Resource.ATTACH_BACKING, AttachBytes(resId, fb.addr, Size(fb)));
      if r == 0 {
        return false;
      }
      r := host.Push(Resource.SET_SCANOUT_BLOB, BindBytes(resId, fb));
      return r != 0;
    }

    method FlushResource(fb: Framebuffer, rect: Resource.Rect) returns (ok: bool)
      requires Valid()
      modifies this, fbcache
      modifies host, host.table, host.link, host.link.ring, host.link.ring.slots, host.link.payloads
      ensures Valid() && Value() == Flip(old(Value()), fb, rect)
      ensures ok <==> Register(old(Value()), fb).resId != 0
    {
      hide AfterPush, Register;
      var resId := RegisterFb(fb);
      ok := resId != 0;
      if ok {
        if resId != scanoutResId {
          var _ := host.Push(Resource.SET_SCANOUT_BLOB, BindBytes(resId, fb));
          scanoutResId := resId;
        }
        var _ := host.Push(Resource.RESOURCE_FLUSH, FlushBytes(resId, rect));
      }
    }
  }
}
