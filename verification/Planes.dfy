/**
 The plane sideband: its 36-byte header, the hub's per-plane priming cache, and the viewer's cursor
 slot that processes the messages.
 */
module Planes {
  import opened Words

  const PLANE_MAGIC: u32 := 0x4C50_4958 // "XIPL"
  const VIDEO_MAGIC: u32 := 0x4950_4958 // "XIPI"
  const HEADER_LEN: nat := 36
  const VERSION: byte := 1

  const DEFINE: byte := 1
  const MOVE: byte := 2
  const DESTROY: byte := 4
  const CURSOR: byte := 1

  datatype Header = Header(
    op: byte, planeKind: byte, flags: byte, planeId: u32, codecOrFormat: byte, zOrder: byte,
    width: u16, height: u16, hotX: u16, hotY: u16, posX: i32, posY: i32, payloadLen: u32)

  // ---- The header on the wire ----

  /** Two's complement. */
  function ToWord(x: i32): u32 { if x < 0 then x + 0x1_0000_0000 else x }

  function FromWord(w: u32): i32 { if w >= 0x8000_0000 then w - 0x1_0000_0000 else w }

  function Identity(h: Header): (b: Bytes) ensures |b| == 8
  {
    LE32(PLANE_MAGIC) + [VERSION, h.op, h.planeKind, h.flags]
  }

  function Plane(h: Header): (b: Bytes) ensures |b| == 8
  {
    LE32(h.planeId) + [h.codecOrFormat, h.zOrder, 0, 0]
  }

  function Extent(h: Header): (b: Bytes) ensures |b| == 8
  {
    LE16(h.width) + LE16(h.height) + LE16(h.hotX) + LE16(h.hotY)
  }

  function Position(h: Header): (b: Bytes) ensures |b| == 12
  {
    LE32(ToWord(h.posX)) + LE32(ToWord(h.posY)) + LE32(h.payloadLen)
  }

  function ToBytes(h: Header): (b: Bytes)
    ensures |b| == HEADER_LEN
  {
    Identity(h) + Plane(h) + Extent(h) + Position(h)
  }

  function Parse(buf: Bytes): Option<Header>
  {
    if |buf| < HEADER_LEN || U32At(buf, 0) != PLANE_MAGIC then None
    else Some(Header(buf[5], buf[6], buf[7], U32At(buf, 8), buf[12], buf[13],
                     U16At(buf, 16), U16At(buf, 18), U16At(buf, 20), U16At(buf, 22),
                     FromWord(U32At(buf, 24)), FromWord(U32At(buf, 28)), U32At(buf, 32)))
  }

  function Message(h: Header, body: Bytes): Bytes
  {
    ToBytes(h) + body
  }

  lemma Layout(h: Header)
    ensures var b := ToBytes(h);
            b[0..8] == Identity(h) && b[8..16] == Plane(h) && b[16..24] == Extent(h) && b[24..36] == Position(h)
  {
    hide Identity, Plane, Extent, Position;
  }

  lemma ReadIdentity(h: Header)
    ensures var b := Identity(h);
            U32At(b, 0) == PLANE_MAGIC && b[5] == h.op && b[6] == h.planeKind && b[7] == h.flags
  {
    assert Identity(h)[0..4] == LE32(PLANE_MAGIC);
    ReadLE32(Identity(h), 0, PLANE_MAGIC);
  }

  lemma ReadPlane(h: Header)
    ensures var b := Plane(h); U32At(b, 0) == h.planeId && b[4] == h.codecOrFormat && b[5] == h.zOrder
  {
    assert Plane(h)[0..4] == LE32(h.planeId);
    ReadLE32(Plane(h), 0, h.planeId);
  }

  lemma ReadExtent(h: Header)
    ensures var b := Extent(h);
            U16At(b, 0) == h.width && U16At(b, 2) == h.height && U16At(b, 4) == h.hotX && U16At(b, 6) == h.hotY
  {
    var b := Extent(h);
    assert b[0..2] == LE16(h.width) && b[2..4] == LE16(h.height);
    assert b[4..6] == LE16(h.hotX) && b[6..8] == LE16(h.hotY);
    ReadLE16(b, 0, h.width);
    ReadLE16(b, 2, h.height);
    ReadLE16(b, 4, h.hotX);
    ReadLE16(b, 6, h.hotY);
  }

  lemma ReadPosition(h: Header)
    ensures var b := Position(h);
            U32At(b, 0) == ToWord(h.posX) && U32At(b, 4) == ToWord(h.posY) && U32At(b, 8) == h.payloadLen
  {
    var b := Position(h);
    assert b[0..4] == LE32(ToWord(h.posX)) && b[4..8] == LE32(ToWord(h.posY)) && b[8..12] == LE32(h.payloadLen);
    ReadLE32(b, 0, ToWord(h.posX));
    ReadLE32(b, 4, ToWord(h.posY));
    ReadLE32(b, 8, h.payloadLen);
  }

  lemma ReadInSlice(b: Bytes, lo: nat, hi: nat, o: nat)
    requires lo <= hi <= |b| && lo + o < hi
    ensures b[lo..hi][o] == b[lo + o]
    ensures lo + o + 2 <= hi ==> U16At(b[lo..hi], o) == U16At(b, lo + o)
    ensures lo + o + 4 <= hi ==> U32At(b[lo..hi], o) == U32At(b, lo + o)
  {
  }

  /** The client parses back exactly the header the server wrote, whatever body follows. */
  lemma HeaderRoundTrip(h: Header, body: Bytes)
    ensures Parse(Message(h, body)) == Some(h) && Message(h, body)[HEADER_LEN..] == body
  {
    var b := ToBytes(h);
    Layout(h);
    ReadIdentity(h);
    ReadPlane(h);
    ReadExtent(h);
    ReadPosition(h);
    ReadInSlice(b, 8, 16, 0);
    ReadInSlice(b, 8, 16, 4);
    ReadInSlice(b, 8, 16, 5);
    ReadInSlice(b, 16, 24, 0);
    ReadInSlice(b, 16, 24, 2);
    ReadInSlice(b, 16, 24, 4);
    ReadInSlice(b, 16, 24, 6);
    ReadInSlice(b, 24, 36, 0);
    ReadInSlice(b, 24, 36, 4);
    ReadInSlice(b, 24, 36, 8);
    assert b[0..8][0] == b[0] && U32At(b[0..8], 0) == U32At(b, 0);
    hide LE32, LE16, ToBytes, U16At, U32At, Identity, Plane, Extent, Position;
    ParseIgnoresBody(b, body);
  }

  /** Where each field lies on the wire. */
  lemma HeaderLayout(h: Header)
    ensures var b := ToBytes(h);
            && b[0..5] == [0x58, 0x49, 0x50, 0x4C, 1] && b[5] == h.op && b[6] == h.planeKind && b[7] == h.flags
            && U32At(b, 8) == h.planeId && b[12] == h.codecOrFormat && b[13] == h.zOrder && b[14] == b[15] == 0
            && U16At(b, 16) == h.width && U16At(b, 18) == h.height
            && U16At(b, 20) == h.hotX && U16At(b, 22) == h.hotY
            && U32At(b, 24) == (if h.posX < 0 then h.posX + 0x1_0000_0000 else h.posX)
            && U32At(b, 28) == (if h.posY < 0 then h.posY + 0x1_0000_0000 else h.posY)
            && U32At(b, 32) == h.payloadLen
  {
    var b := ToBytes(h);
    Layout(h);
    ReadPlane(h);
    ReadExtent(h);
    ReadPosition(h);
    ReadInSlice(b, 8, 16, 0);
    ReadInSlice(b, 8, 16, 4);
    ReadInSlice(b, 8, 16, 5);
    ReadInSlice(b, 8, 16, 6);
    ReadInSlice(b, 8, 16, 7);
    ReadInSlice(b, 16, 24, 0);
    ReadInSlice(b, 16, 24, 2);
    ReadInSlice(b, 16, 24, 4);
    ReadInSlice(b, 16, 24, 6);
    ReadInSlice(b, 24, 36, 0);
    ReadInSlice(b, 24, 36, 4);
    ReadInSlice(b, 24, 36, 8);
    IdentityBytes(h);
    assert b[0..8][..5] == b[0..5];
    assert b[0..8][5] == b[5] && b[0..8][6] == b[6] && b[0..8][7] == b[7];
    hide LE32, LE16, ToBytes, U16At, U32At, Identity, Extent, Position;
  }

  lemma IdentityBytes(h: Header)
    ensures var b := Identity(h);
            b[..5] == [0x58, 0x49, 0x50, 0x4C, 1] && b[5] == h.op && b[6] == h.planeKind && b[7] == h.flags
  {
    assert LE32(PLANE_MAGIC) == [0x58, 0x49, 0x50, 0x4C];
  }

  lemma ParseIgnoresBody(b: Bytes, body: Bytes)
    requires |b| == HEADER_LEN
    ensures Parse(b + body) == Parse(b)
  {
    forall i | 0 <= i < HEADER_LEN ensures (b + body)[i] == b[i] { }
  }

  /** A message that starts with the video magic is never taken for a plane message. */
  lemma VideoIsNotPlane(buf: Bytes)
    requires |buf| >= 4 && U32At(buf, 0) == VIDEO_MAGIC
    ensures Parse(buf).None?
  {
  }

  // ---- The viewer ----

  datatype Shape = Shape(bgra: Bytes, w: u16, h: u16, hotX: u16, hotY: u16, premultiplied: bool)

  /** `CursorInner` without its version counter: what the render loop draws from. */
  datatype View = View(active: bool, visible: bool, shape: Option<Shape>)

  const FRESH := View(false, false, None)

  function Visible(h: Header): bool { h.flags % 2 == 1 }

  function Premultiplied(h: Header): bool { h.flags / 2 % 2 == 1 }

  /** The plane arm of the viewer's message loop: a cursor DEFINE whose body reaches as far as its
      dimensions say installs the shape; MOVE carries visibility; DESTROY hides. */
  function See(v: View, data: Bytes): View
  {
    match Parse(data)
    case None => v
    case Some(h) =>
      if h.planeKind != CURSOR then v
      else if h.op == DEFINE then
        var body, need := data[HEADER_LEN..], SpriteBytes(h);
        if h.width > 0 && h.height > 0 && |body| >= need
        then View(true, Visible(h), Some(Shape(body[..need], h.width, h.height, h.hotX, h.hotY, Premultiplied(h))))
        else v
      else if h.op == MOVE || h.op == DESTROY then View(true, Visible(h) && h.op == MOVE, v.shape)
      else v
  }

  /** What the viewer makes of any message, byte by byte. Only a message of at least 36 bytes that
      starts with the letters XIPL and has kind 1 counts. Op 1 with a non-empty sprite that is all there
      installs it, op 2 and op 4 keep the shape; bit 0 of the flags is visibility, overruled by op 4, and
      bit 1 says the alpha is premultiplied. */
  lemma SeeBytes(v: View, d: Bytes)
    ensures var v' := See(v, d);
            var cursor := |d| >= 36 && d[0] == 0x58 && d[1] == 0x49 && d[2] == 0x50 && d[3] == 0x4C && d[6] == 1;
            && (!cursor || d[5] !in {1, 2, 4} ==> v' == v)
            && (cursor && d[5] == 1 ==>
                  var w, h := U16At(d, 16), U16At(d, 18);
                  if w == 0 || h == 0 || |d| - 36 < w * h * 4 then v' == v
                  else v' == View(true, d[7] % 2 == 1,
                                  Some(Shape(d[36..36 + w * h * 4], w, h, U16At(d, 20), U16At(d, 22), d[7] / 2 % 2 == 1))))
            && (cursor && d[5] == 2 ==> v' == View(true, d[7] % 2 == 1, v.shape))
            && (cursor && d[5] == 4 ==> v' == View(true, false, v.shape))
  {
    if |d| >= 36 {
      MagicBytes(d);
      var n := SpriteBytes(Header(d[5], d[6], d[7], 0, 0, 0, U16At(d, 16), U16At(d, 18), 0, 0, 0, 0, 0));
      if n <= |d| - 36 {
        assert d[36..][..n] == d[36..36 + n];
      }
    }
    hide U32At, U16At;
  }

  lemma MagicBytes(d: Bytes)
    requires |d| >= 4
    ensures U32At(d, 0) == PLANE_MAGIC <==> d[0] == 0x58 && d[1] == 0x49 && d[2] == 0x50 && d[3] == 0x4C
  {
  }

  function SpriteBytes(h: Header): nat
  {
    ProductBound(h.width, h.height, 0xFFFF, 0xFFFF);
    h.width * h.height * 4
  }

  function SeeAll(v: View, msgs: seq<Bytes>): View
  {
    if msgs == [] then v else See(SeeAll(v, msgs[..|msgs| - 1]), msgs[|msgs| - 1])
  }

  // ---- The hub's cache ----

  datatype PlaneCache = PlaneCache(lastDefine: Option<Bytes>, lastMove: Option<Bytes>)

  const NO_CACHE := PlaneCache(None, None)

  /** DEFINE replaces the shape and forgets the stale move; MOVE is latest-wins. */
  function Cache(c: PlaneCache, op: byte, msg: Bytes): PlaneCache
  {
    if op == DEFINE then PlaneCache(Some(msg), None)
    else if op == MOVE then c.(lastMove := Some(msg))
    else c
  }

  /** What a joining client is sent for one plane: shape first, then position. */
  function Prime(c: PlaneCache): seq<Bytes>
  {
    (if c.lastDefine.Some? then [c.lastDefine.value] else []) +
    (if c.lastMove.Some? then [c.lastMove.value] else [])
  }

  // ---- A late joiner sees what everyone sees ----

  /** A sideband message as the device sends it. */
  datatype Sent = Sent(h: Header, body: Bytes)

  /** Cursor DEFINEs carry a whole non-empty sprite; the only other op is MOVE. */
  predicate WellFormed(m: Sent)
  {
    && m.h.planeKind == CURSOR
    && (m.h.op == MOVE || (m.h.op == DEFINE && m.h.width > 0 && m.h.height > 0 && |m.body| >= SpriteBytes(m.h)))
  }

  function Wire(m: Sent): Bytes
  {
    Message(m.h, m.body)
  }

  function History(hist: seq<Sent>): (msgs: seq<Bytes>)
    ensures |msgs| == |hist|
  {
    if hist == [] then [] else History(hist[..|hist| - 1]) + [Wire(hist[|hist| - 1])]
  }

  function CacheAfter(hist: seq<Sent>): PlaneCache
  {
    if hist == [] then NO_CACHE
    else Cache(CacheAfter(hist[..|hist| - 1]), hist[|hist| - 1].h.op, Wire(hist[|hist| - 1]))
  }

  function ShapeOf(m: Sent): Shape
    requires |m.body| >= SpriteBytes(m.h)
  {
    Shape(m.body[..SpriteBytes(m.h)], m.h.width, m.h.height, m.h.hotX, m.h.hotY, Premultiplied(m.h))
  }

  /** What one well-formed message does to a view. */
  lemma SeeWire(v: View, m: Sent)
    requires WellFormed(m)
    ensures See(v, Wire(m)) ==
            if m.h.op == DEFINE then View(true, Visible(m.h), Some(ShapeOf(m))) else View(true, Visible(m.h), v.shape)
  {
    HeaderRoundTrip(m.h, m.body);
    hide Parse, Message, SpriteBytes, Visible, Premultiplied;
  }

  lemma {:induction false} SeeSnoc(v: View, msgs: seq<Bytes>, x: Bytes)
    ensures SeeAll(v, msgs + [x]) == See(SeeAll(v, msgs), x)
  {
    assert (msgs + [x])[..|msgs|] == msgs;
    hide See;
  }

  lemma SeeOne(v: View, x: Bytes)
    ensures SeeAll(v, [x]) == See(v, x)
  {
    SeeSnoc(v, [], x);
    assert [] + [x] == [x];
    hide See;
  }

  /** The prime with a newer move appended is the old prime's shape part, then the move. */
  lemma PrimeWithMove(c: PlaneCache, x: Bytes)
    ensures SeeAll(FRESH, Prime(c.(lastMove := Some(x)))) == See(SeeAll(FRESH, Prime(c.(lastMove := None))), x)
  {
    var shape := Prime(c.(lastMove := None));
    assert Prime(c.(lastMove := Some(x))) == shape + [x];
    SeeSnoc(FRESH, shape, x);
    hide See, SeeAll;
  }

  lemma {:induction false} PrimeShape(hist: seq<Sent>)
    requires forall m :: m in hist ==> WellFormed(m)
    ensures SeeAll(FRESH, Prime(CacheAfter(hist).(lastMove := None))).shape == SeeAll(FRESH, History(hist)).shape
    ensures SeeAll(FRESH, Prime(CacheAfter(hist))) == SeeAll(FRESH, History(hist))
  {
    if hist == [] {
      assert Prime(NO_CACHE) == [];
    } else {
      var init, m := hist[..|hist| - 1], hist[|hist| - 1];
      var c := CacheAfter(init);
      var v := SeeAll(FRESH, History(init));
      PrimeShape(init);
      SeeSnoc(FRESH, History(init), Wire(m));
      SeeWire(v, m);
      hide See, SeeAll, Wire, WellFormed;
      if m.h.op == DEFINE {
        assert Prime(CacheAfter(hist)) == [Wire(m)];
        SeeOne(FRESH, Wire(m));
        SeeWire(FRESH, m);
      } else {
        PrimeWithMove(c, Wire(m));
        SeeWire(SeeAll(FRESH, Prime(c.(lastMove := None))), m);
      }
    }
  }

  /** For every history of well-formed cursor DEFINE and MOVE messages, a viewer that is given only
      the prime ends with the same activity, visibility and shape as one that saw everything. */
  lemma LateJoinerSeesTheSame(hist: seq<Sent>)
    requires forall m :: m in hist ==> WellFormed(m)
    ensures SeeAll(FRESH, Prime(CacheAfter(hist))) == SeeAll(FRESH, History(hist))
  {
    PrimeShape(hist);
  }

  // ---- The viewer's slot ----

  class CursorSlot {
    var shape: Option<Shape>
    var version: u64
    var visible: bool
    var active: bool

    function Value(): View
      reads this
    {
      View(active, visible, shape)
    }

    constructor ()
      ensures Value() == FRESH
    {
      shape, version, visible, active := None, 0, false, false;
    }

    method Define(s: Shape, vis: bool)
      modifies this
      ensures Value() == View(true, vis, Some(s)) && version == Wrap64(old(version) + 1)
    {
      shape := Some(s);
      version := Wrap64(version + 1);
      visible := vis;
      active := true;
    }

    method SetVisible(vis: bool)
      modifies this
      ensures Value() == View(true, vis, old(shape)) && version == old(version)
    {
      visible := vis;
      active := true;
    }

    /** One binary message in `run_stream`: a plane message is consumed here and never reaches the
        video decoder. */
    method Demux(data: Bytes) returns (toDecoder: bool)
      modifies this
      ensures Value() == See(old(Value()), data)
      ensures toDecoder <==> |data| < 4 || U32At(data, 0) != PLANE_MAGIC
    {
      if |data| < 4 || U32At(data, 0) != PLANE_MAGIC {
        return true;
      }
      var parsed := Parse(data);
      if parsed.None? {
        return false;
      }
      var ph := parsed.value;
      if ph.planeKind == CURSOR {
        var vis := Visible(ph);
        if ph.op == DEFINE {
          var body := data[HEADER_LEN..];
          var need := SpriteBytes(ph);
          if ph.width > 0 && ph.height > 0 && |body| >= need {
            Define(Shape(body[..need], ph.width, ph.height, ph.hotX, ph.hotY, Premultiplied(ph)), vis);
          }
        } else if ph.op == MOVE || ph.op == DESTROY {
          SetVisible(vis && ph.op == MOVE);
        }
      }
      return false;
    }
  }
}
