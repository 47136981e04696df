/**
 A whole command list through the codec: what the driver encodes, what the host decodes, and that the
 two agree on every list and every byte string.
 */
module CmdList {
  import opened Words
  import opened Wire
  import opened Codec
  import Resolve

  // ---- The encoder's input ----

  /** The encoder's arguments. Entry names are without their NUL. */
  datatype List = List(
    width: u32, height: u32, bg: Color, scanoutAddr: u64,
    vspirv: seq<u32>, fspirv: seq<u32>, vertexEntry: Bytes, fragmentEntry: Bytes,
    vertexStride: u32, attrs: seq<Attr>, vertexData: Bytes, indexData: Bytes, indexType: u32,
    topology: u32, depthFlags: u32, pushConst: Bytes, ubos: seq<Ubo>, ssbo: Bytes, ssboBinding: u32,
    draws: seq<DrawCmd>, texs: seq<TexDesc>, texBinding: u32, texPixels: Bytes, rasterFlags: u32)

  /** What the C argument types say: counts and lengths are 32-bit, names are C strings. */
  predicate CTypes(l: List)
  {
    && |l.vspirv| < 0x1_0000_0000 && |l.fspirv| < 0x1_0000_0000
    && NoNul(l.vertexEntry) && NoNul(l.fragmentEntry)
    && |l.attrs| < 0x1_0000_0000 && |l.draws| < 0x1_0000_0000 && |l.texs| < 0x1_0000_0000
    && |l.vertexData| < 0x1_0000_0000 && |l.indexData| < 0x1_0000_0000 && |l.pushConst| < 0x1_0000_0000
    && |l.ubos| < 0x1_0000_0000 && |l.ssbo| < 0x1_0000_0000 && |l.texPixels| < 0x1_0000_0000
    && forall u :: u in l.ubos ==> |u.bytes| < 0x1_0000_0000
  }

  function HeaderFor(l: List): Header
  {
    Header(FORWARDED_CMDLIST, l.width, l.height, 0, l.bg, l.scanoutAddr)
  }

  /** Lengths computed as `size_t` are cast to the tail's 32 bits. */
  function TailFor(l: List): Tail
    requires CTypes(l)
  {
    Tail(Residue(4 * |l.vspirv|), Residue(4 * |l.fspirv|),
         Residue(|l.vertexEntry| + 1), Residue(|l.fragmentEntry| + 1),
         l.vertexStride, |l.attrs|, |l.vertexData|, |l.indexData|, l.indexType, |l.draws|,
         l.topology, l.depthFlags, |l.pushConst|, |l.texs|, Residue(|UboBytes(l.ubos)|),
         |l.ubos|, l.texBinding, l.rasterFlags, |l.ssbo|, l.ssboBinding)
  }

  /** The sections between the tail and the texture pixels, in wire order. */
  function Sections(l: List): (s: seq<Bytes>)
    ensures |s| == 12
  {
    [AttrBytes(l.attrs), DrawBytes(l.draws), TexDescBytes(l.texs),
     WordBytes(l.vspirv), WordBytes(l.fspirv), l.vertexData, l.indexData,
     l.vertexEntry + [0], l.fragmentEntry + [0], l.pushConst, UboBytes(l.ubos), l.ssbo]
  }

  function Prefix(l: List): (b: Bytes)
    requires CTypes(l)
    ensures |b| == HEADER_BYTES + TAIL_BYTES
  {
    WordBytes(HeaderWords(HeaderFor(l))) + WordBytes(TailWords(TailFor(l)))
  }

  function Payload(l: List): Bytes
    requires CTypes(l)
  {
    Prefix(l) + Join(Sections(l)) + l.texPixels
  }

  function UboTotal(us: seq<Ubo>): nat
  {
    if us == [] then 0 else UboTotal(us[..|us| - 1]) + 8 + |us[|us| - 1].bytes|
  }

  /** The encoder's own size computation, from the counts. */
  function TotalSize(l: List): nat
  {
    HEADER_BYTES + TAIL_BYTES + 12 * |l.attrs| + 32 * |l.draws| + 16 * |l.texs|
    + 4 * |l.vspirv| + 4 * |l.fspirv| + |l.vertexData| + |l.indexData|
    + (|l.vertexEntry| + 1) + (|l.fragmentEntry| + 1) + |l.pushConst| + UboTotal(l.ubos) + |l.ssbo| + |l.texPixels|
  }

  predicate Encodable(l: List)
  {
    l.draws != [] && (l.vertexStride == 0 <==> l.vertexData == [])
  }

  /** None where the encoder returns 0. */
  function Encode(l: List, cap: nat): Option<Bytes>
    requires CTypes(l)
  {
    if Encodable(l) && TotalSize(l) <= cap then Some(Payload(l)) else None
  }

  lemma {:induction false} UboTotalFront(us: seq<Ubo>)
    requires us != []
    ensures UboTotal(us) == 8 + |us[0].bytes| + UboTotal(us[1..])
  {
    if |us| > 1 {
      var init := us[..|us| - 1];
      UboTotalFront(init);
      assert us[1..][..|us[1..]| - 1] == init[1..];
    } else {
      assert us[..0] == [] && us[1..] == [];
    }
  }

  lemma {:induction false} UboTotalIsSize(us: seq<Ubo>)
    ensures UboTotal(us) == |UboBytes(us)|
  {
    if us != [] {
      UboTotalFront(us);
      UboTotalIsSize(us[1..]);
    }
  }

  lemma LensTwelve(s: seq<Bytes>)
    requires |s| == 12
    ensures Lens(s) == [|s[0]|, |s[1]|, |s[2]|, |s[3]|, |s[4]|, |s[5]|, |s[6]|, |s[7]|, |s[8]|, |s[9]|, |s[10]|, |s[11]|]
  {
    hide Lens;
    forall i | 0 <= i < 12 ensures Lens(s)[i] == |s[i]| {
      LensAt(s, i);
    }
  }

  lemma SectionLengths(l: List)
    ensures Lens(Sections(l)) ==
            [12 * |l.attrs|, 32 * |l.draws|, 16 * |l.texs|, 4 * |l.vspirv|, 4 * |l.fspirv|,
             |l.vertexData|, |l.indexData|, |l.vertexEntry| + 1, |l.fragmentEntry| + 1,
             |l.pushConst|, UboTotal(l.ubos), |l.ssbo|]
  {
    hide Lens, AttrBytes, DrawBytes, TexDescBytes, UboTotal, UboBytes, WordBytes;
    ArrayLengths(l.attrs, l.draws, l.texs);
    UboTotalIsSize(l.ubos);
    LensTwelve(Sections(l));
  }

  function SumOf(n: seq<nat>): nat
    requires |n| == 12
  {
    n[0] + n[1] + n[2] + n[3] + n[4] + n[5] + n[6] + n[7] + n[8] + n[9] + n[10] + n[11]
  }

  lemma {:induction false} SumTwelve(n: seq<nat>)
    requires |n| == 12
    ensures Sum(n) == SumOf(n)
  {
    SumOfFour(n);
    SumOfFour(n[4..]);
    SumOfFour(n[8..]);
    assert n[4..][4..] == n[8..] && n[8..][4..] == [];
    hide Sum;
    assert Sum([]) == 0 by { SumNone(); }
  }

  lemma SumNone()
    ensures Sum([]) == 0
  {
  }

  lemma {:induction false} SumOfFour(n: seq<nat>)
    requires |n| >= 4
    ensures Sum(n) == n[0] + n[1] + n[2] + n[3] + Sum(n[4..])
  {
    SumUnfold(n);
    SumUnfold(n[1..]);
    SumUnfold(n[2..]);
    SumUnfold(n[3..]);
    hide Sum;
    assert n[1..][1..] == n[2..] && n[2..][1..] == n[3..] && n[3..][1..] == n[4..];
  }

  /** The encoder writes exactly as many bytes as it computed. */
  lemma PayloadSize(l: List)
    requires CTypes(l)
    ensures |Payload(l)| == TotalSize(l)
  {
    CutJoined(Sections(l), []);
    SectionLengths(l);
    SumTwelve(Lens(Sections(l)));
    hide Sections, Lens, Sum, Join, Prefix, UboTotal;
  }

  /** When the encoder writes anything: there is a draw, a stride exactly when there is vertex data, and
      the payload fits the buffer. */
  lemma EncodeIff(l: List, cap: nat)
    requires CTypes(l)
    ensures Encode(l, cap).Some? <==>
            |l.draws| > 0 && (l.vertexStride == 0 <==> |l.vertexData| == 0) && |Payload(l)| <= cap
    ensures Encode(l, cap).Some? ==> Encode(l, cap).value == Payload(l)
  {
    PayloadSize(l);
    hide TotalSize, Payload;
  }

  // ---- The decoder ----

  datatype Storage = Storage(binding: u32, bytes: Bytes)

  datatype Draw = Draw(
    vspirv: seq<u32>, fspirv: seq<u32>, vertexEntry: Bytes, fragmentEntry: Bytes, vertexCount: u32,
    topology: u32, vertexData: Bytes, vertexStride: u32, attrs: seq<Attr>, indexData: Bytes,
    indexU32: bool, draws: seq<DrawCmd>, depth: Option<Resolve.DepthState>, pushConst: Bytes,
    textures: seq<Texture>, texBinding: u32, uniforms: seq<Ubo>, storage: Option<Storage>, rasterFlags: u32)

  /** The checks on the tail alone. */
  predicate Admissible(t: Tail, max: nat)
  {
    && t.vspirvLen != 0 && t.fspirvLen != 0 && t.vspirvLen % 4 == 0 && t.fspirvLen % 4 == 0
    && t.vspirvLen <= max && t.fspirvLen <= max
    && t.ventryLen != 0 && t.fentryLen != 0 && t.ventryLen <= 256 && t.fentryLen <= 256
    && t.drawCount != 0 && t.drawCount <= 4096 && t.attrCount <= 32
    && t.vertexDataLen <= max && t.indexDataLen <= max && t.pushConstLen <= 256
    && t.texCount <= MAX_TEXTURES && t.texBinding <= 65535
    && t.uboCount <= 16 && t.ssboBinding <= 65535 && t.ssboLen <= MAX_SSBO_BYTES
    && !(t.ssboLen > 0 && InTexRange(t, t.ssboBinding))
    && (t.vertexStride == 0 <==> t.vertexDataLen == 0)
    && (t.vertexStride != 0 ==> t.vertexDataLen % t.vertexStride == 0)
  }

  function SectionSizes(t: Tail): (n: seq<nat>)
    ensures |n| == 12
  {
    [12 * t.attrCount, 32 * t.drawCount, 16 * t.texCount, t.vspirvLen, t.fspirvLen,
     t.vertexDataLen, t.indexDataLen, t.ventryLen, t.fentryLen, t.pushConstLen, t.uboLen, t.ssboLen]
  }

  predicate StartsWithMagic(ws: seq<u32>) { ws != [] && ws[0] == SPIRV_MAGIC }

  /** The parts put together; what needed no parsing comes straight from the tail and the slices. */
  function DrawFrom(
    t: Tail, s: seq<Bytes>, attrs: seq<Attr>, draws: seq<DrawCmd>, vspirv: seq<u32>, fspirv: seq<u32>, ventry: Bytes, fentry: Bytes,
    textures: seq<Texture>, uniforms: seq<Ubo>): Draw
    requires |s| == 12
  {
    Draw(vspirv, fspirv, ventry, fentry, 0, t.topology, s[5], t.vertexStride,
         attrs, s[6], t.indexType == INDEX_U32, draws,
         Resolve.HostDepth(t.depthFlags as bv32), s[9], textures, t.texBinding, uniforms,
         if t.ssboLen > 0 then Some(Storage(t.ssboBinding, s[11])) else None, t.rasterFlags)
  }

  /** The section contents, once they have been carved. */
  function Assemble(t: Tail, s: seq<Bytes>, pix: Bytes, max: nat): Option<Draw>
    requires |s| == 12
  {
    var vspirv, fspirv := BytesToWords(s[3]), BytesToWords(s[4]);
    var indexU32 := t.indexType == INDEX_U32;
    if !StartsWithMagic(vspirv) || !StartsWithMagic(fspirv) then None
    else if t.indexDataLen % (if indexU32 then 4 else 2) != 0 then None
    else
      match ParseTextures(TexDescsIn(s[2], t.texCount), pix, max, [])
      case None => None
      case Some(textures) =>
        match ParseUbos(s[10], t.uboCount, t, [])
        case None => None
        case Some(uniforms) =>
          match UntilNul(s[7])
          case None => None
          case Some(ventry) =>
            match UntilNul(s[8])
            case None => None
            case Some(fentry) =>
              Some(DrawFrom(t, s, AttrsIn(s[0], t.attrCount), DrawsIn(s[1], t.drawCount), vspirv, fspirv, ventry, fentry, textures, uniforms))
  }

  function DecodeBody(t: Tail, rest: Bytes, max: nat): Option<Draw>
  {
    var n := SectionSizes(t);
    if !Admissible(t, max) || Sum(n) > |rest| then None
    else Assemble(t, Cut(rest, n), rest[Sum(n)..], max)
  }

  /** The tail sits right after the header; the decoder never looks at the header. */
  function Decode(payload: Bytes, max: nat): Option<Draw>
  {
    if |payload| < HEADER_BYTES + TAIL_BYTES then None
    else DecodeBody(TailOf(BytesToWords(payload[40..120])), payload[120..], max)
  }

  // ---- The layout, spelled out ----

  /** The two structs at the head of the payload, field by field at their byte offsets. */
  lemma PrefixLayout(l: List)
    requires CTypes(l)
    ensures var b := Payload(l);
            && |b| >= 120
            && U32At(b, 0) == 3 && U32At(b, 4) == l.width && U32At(b, 8) == l.height && U32At(b, 12) == 0
            && U32At(b, 16) == l.bg[0] && U32At(b, 20) == l.bg[1] && U32At(b, 24) == l.bg[2] && U32At(b, 28) == l.bg[3]
            && U64At(b, 32) == l.scanoutAddr
            && U32At(b, 40) == (4 * |l.vspirv|) % 0x1_0000_0000 && U32At(b, 44) == (4 * |l.fspirv|) % 0x1_0000_0000
            && U32At(b, 48) == (|l.vertexEntry| + 1) % 0x1_0000_0000
            && U32At(b, 52) == (|l.fragmentEntry| + 1) % 0x1_0000_0000
            && U32At(b, 56) == l.vertexStride && U32At(b, 60) == |l.attrs| && U32At(b, 64) == |l.vertexData|
            && U32At(b, 68) == |l.indexData| && U32At(b, 72) == l.indexType && U32At(b, 76) == |l.draws|
            && U32At(b, 80) == l.topology && U32At(b, 84) == l.depthFlags && U32At(b, 88) == |l.pushConst|
            && U32At(b, 92) == |l.texs| && U32At(b, 96) == UboTotal(l.ubos) % 0x1_0000_0000
            && U32At(b, 100) == |l.ubos| && U32At(b, 104) == l.texBinding && U32At(b, 108) == l.rasterFlags
            && U32At(b, 112) == |l.ssbo| && U32At(b, 116) == l.ssboBinding
  {
    UboTotalIsSize(l.ubos);
    PayloadWords(l);
    var h, t := HeaderWords(HeaderFor(l)), TailWords(TailFor(l));
    HeaderWordsAre(HeaderFor(l));
    hide WordBytes, Join, Sections, UboTotal, UboBytes, U32At, Payload, HeaderWords, BytesToWords;
    FirstWords(Payload(l), h, t);
  }

  lemma HeaderWordsAre(h: Header)
    ensures var w := HeaderWords(h);
            && w[0] == h.op && w[1] == h.width && w[2] == h.height && w[3] == h.pad
            && w[4] == h.bg[0] && w[5] == h.bg[1] && w[6] == h.bg[2] && w[7] == h.bg[3]
            && w[8] as int + 0x1_0000_0000 * w[9] as int == h.scanoutAddr
  {
  }

  lemma PayloadWords(l: List)
    requires CTypes(l)
    ensures var b, h, t := Payload(l), HeaderWords(HeaderFor(l)), TailWords(TailFor(l));
            && |b| >= 120
            && (forall i :: 0 <= i < 10 ==> U32At(b, 4 * i) == h[i])
            && (forall i :: 0 <= i < 20 ==> U32At(b, 40 + 4 * i) == t[i])
  {
    var h, t := HeaderWords(HeaderFor(l)), TailWords(TailFor(l));
    var rest := Join(Sections(l)) + l.texPixels;
    assert Payload(l) == WordBytes(h) + (WordBytes(t) + rest);
    hide WordBytes, Join, Sections, UboBytes, U32At, HeaderWords, TailWords, TailFor, HeaderFor, Payload;
    forall i | 0 <= i < 10 ensures U32At(WordBytes(h) + (WordBytes(t) + rest), 4 * i) == h[i] {
      WordField(h, i);
      WordAtPlace(WordBytes(h), WordBytes(t) + rest, 4 * i);
    }
    forall i | 0 <= i < 20 ensures U32At(WordBytes(h) + (WordBytes(t) + rest), 40 + 4 * i) == t[i] {
      WordField(t, i);
      WordAtPlace(WordBytes(t), rest, 4 * i);
      WordAtPlace(WordBytes(h), WordBytes(t) + rest, 40 + 4 * i);
    }
  }

  lemma FirstWords(b: Bytes, h: seq<u32>, t: seq<u32>)
    requires |b| >= 120 && |h| == 10 && |t| == 20
    requires forall i :: 0 <= i < 10 ==> U32At(b, 4 * i) == h[i]
    requires forall i :: 0 <= i < 20 ==> U32At(b, 40 + 4 * i) == t[i]
    ensures h[0] == U32At(b, 0) && h[1] == U32At(b, 4) && h[2] == U32At(b, 8) && h[3] == U32At(b, 12) && h[4] == U32At(b, 16)
    ensures h[5] == U32At(b, 20) && h[6] == U32At(b, 24) && h[7] == U32At(b, 28) && h[8] == U32At(b, 32) && h[9] == U32At(b, 36)
    ensures t[0] == U32At(b, 40) && t[1] == U32At(b, 44) && t[2] == U32At(b, 48) && t[3] == U32At(b, 52) && t[4] == U32At(b, 56)
    ensures t[5] == U32At(b, 60) && t[6] == U32At(b, 64) && t[7] == U32At(b, 68) && t[8] == U32At(b, 72) && t[9] == U32At(b, 76)
    ensures t[10] == U32At(b, 80) && t[11] == U32At(b, 84) && t[12] == U32At(b, 88) && t[13] == U32At(b, 92) && t[14] == U32At(b, 96)
    ensures t[15] == U32At(b, 100) && t[16] == U32At(b, 104) && t[17] == U32At(b, 108) && t[18] == U32At(b, 112) && t[19] == U32At(b, 116)
  {
    hide U32At;
    assert h[0] == U32At(b, 4 * 0);
    assert h[1] == U32At(b, 4 * 1);
    assert h[2] == U32At(b, 4 * 2);
    assert h[3] == U32At(b, 4 * 3);
    assert h[4] == U32At(b, 4 * 4);
    assert h[5] == U32At(b, 4 * 5);
    assert h[6] == U32At(b, 4 * 6);
    assert h[7] == U32At(b, 4 * 7);
    assert h[8] == U32At(b, 4 * 8);
    assert h[9] == U32At(b, 4 * 9);
    assert t[0] == U32At(b, 40 + 4 * 0);
    assert t[1] == U32At(b, 40 + 4 * 1);
    assert t[2] == U32At(b, 40 + 4 * 2);
    assert t[3] == U32At(b, 40 + 4 * 3);
    assert t[4] == U32At(b, 40 + 4 * 4);
    assert t[5] == U32At(b, 40 + 4 * 5);
    assert t[6] == U32At(b, 40 + 4 * 6);
    assert t[7] == U32At(b, 40 + 4 * 7);
    assert t[8] == U32At(b, 40 + 4 * 8);
    assert t[9] == U32At(b, 40 + 4 * 9);
    assert t[10] == U32At(b, 40 + 4 * 10);
    assert t[11] == U32At(b, 40 + 4 * 11);
    assert t[12] == U32At(b, 40 + 4 * 12);
    assert t[13] == U32At(b, 40 + 4 * 13);
    assert t[14] == U32At(b, 40 + 4 * 14);
    assert t[15] == U32At(b, 40 + 4 * 15);
    assert t[16] == U32At(b, 40 + 4 * 16);
    assert t[17] == U32At(b, 40 + 4 * 17);
    assert t[18] == U32At(b, 40 + 4 * 18);
    assert t[19] == U32At(b, 40 + 4 * 19);
  }

  lemma {:induction false} JoinFour(s: seq<Bytes>)
    requires |s| >= 4
    ensures Join(s) == s[0] + (s[1] + (s[2] + (s[3] + Join(s[4..]))))
  {
    JoinUnfold(s);
    JoinUnfold(s[1..]);
    JoinUnfold(s[2..]);
    JoinUnfold(s[3..]);
    hide Join;
    assert s[1..][1..] == s[2..] && s[2..][1..] == s[3..] && s[3..][1..] == s[4..];
  }

  lemma {:induction false} JoinUnfold(s: seq<Bytes>)
    requires s != []
    ensures Join(s) == s[0] + Join(s[1..])
  {
  }

  /** What follows the structs: the three record arrays, the two shaders, vertex and index data, the two
      names, push constants, the uniform block, the storage buffer, and the texture pixels. */
  lemma BodyLayout(l: List)
    requires CTypes(l)
    ensures Payload(l)[120..] ==
            (AttrBytes(l.attrs) + (DrawBytes(l.draws) + (TexDescBytes(l.texs) + (WordBytes(l.vspirv) +
            (WordBytes(l.fspirv) + (l.vertexData + (l.indexData + ((l.vertexEntry + [0]) +
            ((l.fragmentEntry + [0]) + (l.pushConst + (UboBytes(l.ubos) + l.ssbo))))))))))) + l.texPixels
  {
    TailOfPayload(l);
    var s := Sections(l);
    JoinFour(s);
    var later, last := s[4..], s[8..];
    JoinFour(later);
    JoinFour(last);
    assert later[4..] == last;
    assert Join(last[4..]) == [];
    assert s[11] + Join(last[4..]) == s[11];
    hide Join, AttrBytes, DrawBytes, TexDescBytes, UboBytes, WordBytes, Payload;
  }

  // ---- Round trip ----

  /** The decoder's bounds, read off the list. */
  predicate WithinBounds(l: List, max: nat)
    requires CTypes(l)
  {
    && StartsWithMagic(l.vspirv) && StartsWithMagic(l.fspirv)
    && 4 * |l.vspirv| <= max && 4 * |l.fspirv| <= max
    && |l.vertexEntry| <= 255 && |l.fragmentEntry| <= 255
    && |l.draws| <= 4096 && |l.attrs| <= 32
    && |l.vertexData| <= max && |l.indexData| <= max && |l.pushConst| <= 256
    && |l.texs| <= MAX_TEXTURES && l.texBinding <= 65535
    && |l.ubos| <= 16 && l.ssboBinding <= 65535 && |l.ssbo| <= MAX_SSBO_BYTES
    && (l.vertexStride != 0 ==> |l.vertexData| % l.vertexStride == 0)
    && |l.indexData| % (if l.indexType == INDEX_U32 then 4 else 2) == 0
    && TexturesFit(l.texs, l.texPixels, max)
    && UbosFit(TailFor(l), l.ubos)
    && !(|l.ssbo| > 0 && InTexRange(TailFor(l), l.ssboBinding))
  }

  /** The texture limits on descriptor `i`, spelled out. */
  predicate GoodDesc(l: List, max: nat, i: nat)
    requires i < |l.texs|
  {
    var d := l.texs[i];
    && 0 < d.width && 0 < d.height && d.dataLen == d.width * d.height * 4 && d.dataLen <= max
    && DataBefore(l.texs, i) + d.dataLen <= |l.texPixels|
  }

  function DataBefore(ds: seq<TexDesc>, i: nat): nat
    requires i <= |ds|
  {
    if i == 0 then 0 else DataBefore(ds, i - 1) + ds[i - 1].dataLen
  }

  /** The limits on uniform `i`, spelled out: sizes, and bindings apart from every other one. */
  predicate GoodUniform(l: List, i: nat)
    requires i < |l.ubos|
  {
    var b := l.ubos[i].binding;
    && b <= 65535 && |l.ubos[i].bytes| <= 65536
    && !(l.texBinding <= b < l.texBinding + 2 * |l.texs|)
    && !(|l.ssbo| > 0 && b == l.ssboBinding)
    && forall j :: 0 <= j < i ==> l.ubos[j].binding != b
  }

  lemma {:induction false} PixelEndIs(ds: seq<TexDesc>, i: nat)
    requires i <= |ds|
    ensures PixelEnd(ds, i) == DataBefore(ds, i)
  {
    if i > 0 {
      PixelEndIs(ds, i - 1);
      PixelEndLast(ds, i - 1);
    }
  }

  lemma {:induction false} PixelEndLast(ds: seq<TexDesc>, i: nat)
    requires i < |ds|
    ensures PixelEnd(ds, i + 1) == PixelEnd(ds, i) + ds[i].dataLen
  {
    if i > 0 {
      PixelEndLast(ds[1..], i - 1);
    }
  }

  lemma ParsedBounds(l: List, max: nat)
    requires CTypes(l)
    ensures TexturesFit(l.texs, l.texPixels, max) <==> forall i :: 0 <= i < |l.texs| ==> GoodDesc(l, max, i)
    ensures UbosFit(TailFor(l), l.ubos) <==> forall i :: 0 <= i < |l.ubos| ==> GoodUniform(l, i)
    ensures InTexRange(TailFor(l), l.ssboBinding) <==>
            l.texBinding <= l.ssboBinding < l.texBinding + 2 * |l.texs|
  {
    hide PixelEnd, Residue, UboBytes;
    forall i | 0 <= i < |l.texs| ensures FitsAt(l.texs, l.texPixels, max, i) <==> GoodDesc(l, max, i) {
      PixelEndIs(l.texs, i);
      PixelEndLast(l.texs, i);
    }
    forall i | 0 <= i < |l.ubos|
      ensures GoodUbo(TailFor(l), l.ubos[i]) && Unbound(l.ubos[..i], l.ubos[i].binding) <==> GoodUniform(l, i)
    {
      UniformIff(l, i);
    }
    hide GoodDesc, GoodUniform, FitsAt, GoodUbo, Unbound;
  }

  /** The decoder's bounds with nothing left to look up: two SPIR-V modules that start with the magic
      word, sizes, counts, whole vertices and indices, good textures and uniforms, and a storage binding
      away from the textures'. */
  lemma BoundsSpelledOut(l: List, max: nat)
    requires CTypes(l)
    ensures WithinBounds(l, max) <==>
            && 0 < |l.vspirv| && l.vspirv[0] == 0x0723_0203 && 0 < |l.fspirv| && l.fspirv[0] == 0x0723_0203
            && 4 * |l.vspirv| <= max && 4 * |l.fspirv| <= max && |l.vertexData| <= max && |l.indexData| <= max
            && |l.vertexEntry| < 256 && |l.fragmentEntry| < 256 && |l.pushConst| <= 256
            && |l.draws| <= 4096 && |l.attrs| <= 32 && |l.texs| <= 8 && |l.ubos| <= 16
            && |l.ssbo| <= 16 * 1024 * 1024 && l.texBinding < 65536 && l.ssboBinding < 65536
            && (l.vertexStride > 0 ==> |l.vertexData| % l.vertexStride == 0)
            && (if l.indexType == 1 then |l.indexData| % 4 == 0 else |l.indexData| % 2 == 0)
            && (forall i :: 0 <= i < |l.texs| ==> GoodDesc(l, max, i))
            && (forall i :: 0 <= i < |l.ubos| ==> GoodUniform(l, i))
            && (|l.ssbo| > 0 ==> !(l.texBinding <= l.ssboBinding < l.texBinding + 2 * |l.texs|))
  {
    ParsedBounds(l, max);
    hide TexturesFit, UbosFit, InTexRange, GoodDesc, GoodUniform, TailFor;
  }

  lemma UniformIff(l: List, i: nat)
    requires CTypes(l) && i < |l.ubos|
    ensures GoodUbo(TailFor(l), l.ubos[i]) && Unbound(l.ubos[..i], l.ubos[i].binding) <==> GoodUniform(l, i)
  {
    hide Residue, UboBytes;
    if Unbound(l.ubos[..i], l.ubos[i].binding) {
      forall j | 0 <= j < i ensures l.ubos[j].binding != l.ubos[i].binding {
        assert l.ubos[..i][j] == l.ubos[j];
      }
    }
  }

  /** Every part of the draw is the list's. */
  ghost predicate Carries(d: Draw, l: List)
  {
    && d.vspirv == l.vspirv && d.fspirv == l.fspirv
    && d.vertexEntry == l.vertexEntry && d.fragmentEntry == l.fragmentEntry && d.vertexCount == 0
    && d.topology == l.topology && d.vertexData == l.vertexData && d.vertexStride == l.vertexStride
    && d.attrs == l.attrs && d.indexData == l.indexData && (d.indexU32 <==> l.indexType == 1)
    && d.draws == l.draws && d.depth == Resolve.HostDepth(l.depthFlags as bv32) && d.pushConst == l.pushConst
    && Carves(l.texs, l.texPixels, d.textures) && d.texBinding == l.texBinding && d.uniforms == l.ubos
    && d.storage == (if l.ssbo == [] then None else Some(Storage(l.ssboBinding, l.ssbo)))
    && d.rasterFlags == l.rasterFlags
  }

  /** All section lengths fit the tail's fields. */
  predicate Fits(l: List)
  {
    && 4 * |l.vspirv| < 0x1_0000_0000 && 4 * |l.fspirv| < 0x1_0000_0000
    && |l.vertexEntry| + 1 < 0x1_0000_0000 && |l.fragmentEntry| + 1 < 0x1_0000_0000
    && UboTotal(l.ubos) < 0x1_0000_0000
  }

  lemma SizesAreLengths(l: List)
    requires CTypes(l) && Fits(l)
    ensures SectionSizes(TailFor(l)) == Lens(Sections(l))
  {
    hide Sections, Lens, UboTotal, UboBytes, Residue;
    SectionLengths(l);
    TailFields(l);
  }

  lemma TailOfPayload(l: List)
    requires CTypes(l)
    ensures var b := Payload(l);
            && |b| >= 120 && TailOf(BytesToWords(b[40..120])) == TailFor(l)
            && b[120..] == Join(Sections(l)) + l.texPixels
            && HeaderOf(BytesToWords(b[..40])) == HeaderFor(l)
  {
    TailReadsBack(TailFor(l));
    HeaderReadsBack(HeaderFor(l));
    var h, t := WordBytes(HeaderWords(HeaderFor(l))), WordBytes(TailWords(TailFor(l)));
    var rest := Join(Sections(l)) + l.texPixels;
    hide *;
    PayloadParts(l);
    ThreeParts(h, t, rest);
  }

  lemma PayloadParts(l: List)
    requires CTypes(l)
    ensures var h, t := WordBytes(HeaderWords(HeaderFor(l))), WordBytes(TailWords(TailFor(l)));
            |h| == 40 && |t| == 80 && Payload(l) == (h + t) + (Join(Sections(l)) + l.texPixels)
  {
    hide WordBytes, HeaderWords, TailWords, HeaderFor, TailFor, Join, Sections;
    Associates(Prefix(l), Join(Sections(l)), l.texPixels);
  }

  lemma ThreeParts(h: Bytes, t: Bytes, rest: Bytes)
    requires |h| == 40 && |t| == 80
    ensures var b := (h + t) + rest;
            b[..40] == h && b[40..120] == t && b[120..] == rest
  {
  }

  lemma ResidueFits(n: nat)
    requires n < 0x1_0000_0000
    ensures Residue(n) == n
  {
  }

  lemma FourTimes(n: nat)
    ensures (4 * n) % 4 == 0 && (4 * n == 0 <==> n == 0)
  {
  }

  /** Nothing is lost in the tail of a list that fits. */
  lemma TailFields(l: List)
    requires CTypes(l) && Fits(l)
    ensures var t := TailFor(l);
            && t.vspirvLen == 4 * |l.vspirv| && t.fspirvLen == 4 * |l.fspirv|
            && t.ventryLen == |l.vertexEntry| + 1 && t.fentryLen == |l.fragmentEntry| + 1
            && t.uboLen == UboTotal(l.ubos)
  {
    hide Residue, UboTotal, UboBytes;
    UboTotalIsSize(l.ubos);
    ResidueFits(4 * |l.vspirv|);
    ResidueFits(4 * |l.fspirv|);
    ResidueFits(|l.vertexEntry| + 1);
    ResidueFits(|l.fragmentEntry| + 1);
    ResidueFits(UboTotal(l.ubos));
  }

  lemma AdmissibleIff(l: List, max: nat)
    requires CTypes(l) && Fits(l) && Encodable(l)
    ensures WithinBounds(l, max) <==>
            && Admissible(TailFor(l), max)
            && StartsWithMagic(l.vspirv) && StartsWithMagic(l.fspirv)
            && |l.indexData| % (if l.indexType == INDEX_U32 then 4 else 2) == 0
            && TexturesFit(l.texs, l.texPixels, max)
            && UbosFit(TailFor(l), l.ubos)
  {
    hide UboBytes, UboTotal, TexturesFit, UbosFit, InTexRange, Residue;
    TailFields(l);
    FourTimes(|l.vspirv|);
    FourTimes(|l.fspirv|);
  }

  /** The contents of the encoder's sections, assembled. */
  lemma AssembleSections(l: List, max: nat)
    requires CTypes(l) && Fits(l)
    ensures var t := TailFor(l);
            var r := Assemble(t, Sections(l), l.texPixels, max);
            && (r.Some? <==>
                && StartsWithMagic(l.vspirv) && StartsWithMagic(l.fspirv)
                && |l.indexData| % (if l.indexType == INDEX_U32 then 4 else 2) == 0
                && TexturesFit(l.texs, l.texPixels, max)
                && UbosFit(t, l.ubos))
            && (r.Some? ==> Carries(r.value, l))
  {
    SectionContents(l);
    UbosRoundTrip(TailFor(l), l.ubos, []);
    assert [] + l.ubos == l.ubos;
    assert UbosFit(TailFor(l), []);
    var texs := TexturesParse(l.texs, l.texPixels, max, []);
    assert [] + texs == texs;
    if TexturesFit(l.texs, l.texPixels, max) {
      DrawCarries(l, texs);
    }
    hide AttrsIn, DrawsIn, TexDescsIn, BytesToWords, UntilNul, ParseUbos, ParseTextures, UbosFit, TexturesFit, Carves, UboBytes,
         UboTotal, Sections, StartsWithMagic, DrawFrom, Residue, Carries;
  }

  lemma DrawCarries(l: List, texs: seq<Texture>)
    requires CTypes(l) && Carves(l.texs, l.texPixels, texs)
    ensures Carries(DrawFrom(TailFor(l), Sections(l), l.attrs, l.draws, l.vspirv, l.fspirv,
                             l.vertexEntry, l.fragmentEntry, texs, l.ubos), l)
  {
    SectionContents(l);
    hide AttrsIn, DrawsIn, TexDescsIn, AttrBytes, DrawBytes, TexDescBytes, BytesToWords, WordBytes, UntilNul, Carves, UboBytes, Sections, Residue, Resolve.HostDepth;
  }

  /** Each section reads back as the part of the list it was written from. */
  lemma SectionContents(l: List)
    requires CTypes(l)
    ensures var s := Sections(l);
            && AttrsIn(s[0], |l.attrs|) == l.attrs
            && DrawsIn(s[1], |l.draws|) == l.draws
            && TexDescsIn(s[2], |l.texs|) == l.texs
            && BytesToWords(s[3]) == l.vspirv && BytesToWords(s[4]) == l.fspirv
            && s[5] == l.vertexData && s[6] == l.indexData
            && UntilNul(s[7]) == Some(l.vertexEntry) && UntilNul(s[8]) == Some(l.fragmentEntry)
            && s[9] == l.pushConst && s[10] == UboBytes(l.ubos) && s[11] == l.ssbo
  {
    hide AttrsIn, DrawsIn, TexDescsIn, AttrBytes, DrawBytes, TexDescBytes, WordBytes, BytesToWords, UntilNul, UboBytes;
    ArraysReadBack(l.attrs, l.draws, l.texs);
    WordsRoundTrip(l.vspirv);
    WordsRoundTrip(l.fspirv);
    NameRoundTrip(l.vertexEntry, []);
    NameRoundTrip(l.fragmentEntry, []);
    assert l.vertexEntry + [0] + [] == l.vertexEntry + [0];
    assert l.fragmentEntry + [0] + [] == l.fragmentEntry + [0];
  }

  /** The codec's round trip, exactly: for every list whose encoding the kernel's 32-bit payload
      length can carry, the encoder writes the computed number of bytes, and the host decodes them
      into that very list if and only if the list is within the decoder's bounds. */
  lemma RoundTripIff(l: List, cap: u32, max: nat)
    requires CTypes(l) && Encode(l, cap).Some?
    ensures var b := Encode(l, cap).value;
            && |b| == TotalSize(l) <= cap
            && HeaderOf(BytesToWords(b[..40])) == HeaderFor(l)
            && (Decode(b, max).Some? <==> WithinBounds(l, max))
            && (Decode(b, max).Some? ==> Carries(Decode(b, max).value, l))
  {
    PayloadSize(l);
    FitsWhenSmall(l, cap);
    TailOfPayload(l);
    SizesAreLengths(l);
    CutJoined(Sections(l), l.texPixels);
    AssembleSections(l, max);
    AdmissibleIff(l, max);
    hide *;
    EncodeMeans(l, cap);
    DecodeMeans(Payload(l), max);
  }

  lemma EncodeMeans(l: List, cap: nat)
    requires CTypes(l) && Encode(l, cap).Some?
    ensures Encode(l, cap).value == Payload(l) && TotalSize(l) <= cap && Encodable(l)
  {
    hide Payload, TotalSize;
  }

  lemma DecodeMeans(b: Bytes, max: nat)
    requires |b| >= 120
    ensures var t, rest := TailOf(BytesToWords(b[40..120])), b[120..];
            Decode(b, max) == if !Admissible(t, max) || Sum(SectionSizes(t)) > |rest| then None
                              else Assemble(t, Cut(rest, SectionSizes(t)), rest[Sum(SectionSizes(t))..], max)
  {
    hide Admissible, Assemble, Cut, BytesToWords;
  }

  lemma FitsWhenSmall(l: List, cap: u32)
    requires TotalSize(l) <= cap
    ensures Fits(l)
  {
    hide UboTotal;
  }

  // ---- The kernel's patch ----

  /** The kernel stamps geometry and scanout address over whatever the driver encoded. */
  function Patch(b: Bytes, width: u32, height: u32, addr: u64): (p: Bytes)
    requires |b| >= HEADER_BYTES
    ensures |p| == |b|
  {
    b[..4] + LE32(width) + LE32(height) + b[12..32] + LE64(addr) + b[40..]
  }

  lemma PatchPlaces(b: Bytes, width: u32, height: u32, addr: u64)
    requires |b| >= HEADER_BYTES
    ensures var p := Patch(b, width, height, addr);
            && p[0..4] == b[0..4] && p[4..8] == LE32(width) && p[8..12] == LE32(height)
            && p[12..32] == b[12..32] && p[32..40] == LE64(addr) && p[40..] == b[40..]
  {
    hide LE32, LE64;
  }

  lemma WordsAt(b: Bytes, i: nat)
    requires |b| == 40 && i < 10
    ensures BytesToWords(b)[i] == U32At(b, 4 * i)
  {
    BytesRoundTrip(b);
    hide BytesToWords, WordBytes, U32At;
    WordField(BytesToWords(b), i);
  }

  lemma HeaderFields(b: Bytes)
    requires |b| == 40
    ensures var h := HeaderOf(BytesToWords(b));
            && h.op == U32At(b, 0) && h.width == U32At(b, 4) && h.height == U32At(b, 8) && h.pad == U32At(b, 12)
            && h.bg == [U32At(b, 16), U32At(b, 20), U32At(b, 24), U32At(b, 28)] && h.scanoutAddr == U64At(b, 32)
  {
    hide BytesToWords, U32At;
    WordsAt(b, 0);
    WordsAt(b, 1);
    WordsAt(b, 2);
    WordsAt(b, 3);
    WordsAt(b, 4);
    WordsAt(b, 5);
    WordsAt(b, 6);
    WordsAt(b, 7);
    WordsAt(b, 8);
    WordsAt(b, 9);
  }

  lemma SameWord(b: Bytes, c: Bytes, lo: nat, hi: nat, o: nat)
    requires lo <= o && o + 4 <= hi <= |b| && hi <= |c| && b[lo..hi] == c[lo..hi]
    ensures U32At(b, o) == U32At(c, o)
  {
    var i := o - lo;
    var x, y := b[lo..hi], c[lo..hi];
    assert b[o] == x[i] == y[i] == c[o];
    assert b[o + 1] == x[i + 1] == y[i + 1] == c[o + 1];
    assert b[o + 2] == x[i + 2] == y[i + 2] == c[o + 2];
    assert b[o + 3] == x[i + 3] == y[i + 3] == c[o + 3];
  }

  lemma InHeader(b: Bytes, o: nat)
    requires |b| >= 40 && o + 4 <= 40
    ensures U32At(b[..40], o) == U32At(b, o) && (o + 8 <= 40 ==> U64At(b[..40], o) == U64At(b, o))
  {
  }

  /** The patch sets the three fields the host trusts, keeps every other, and does not change what
      the decoder makes of the payload, whether that is a draw or a refusal. */
  lemma PatchKeepsDraw(b: Bytes, width: u32, height: u32, addr: u64, max: nat)
    requires |b| >= HEADER_BYTES
    ensures var p := Patch(b, width, height, addr);
            && Decode(p, max) == Decode(b, max)
            && HeaderOf(BytesToWords(p[..40])) ==
               HeaderOf(BytesToWords(b[..40])).(width := width, height := height, scanoutAddr := addr)
  {
    var p := Patch(b, width, height, addr);
    PatchPlaces(b, width, height, addr);
    ReadLE32(p, 4, width);
    ReadLE32(p, 8, height);
    ReadLE64(p, 32, addr);
    HeaderFields(p[..40]);
    HeaderFields(b[..40]);
    hide *;
    SameWord(p, b, 0, 4, 0);
    SameWord(p, b, 12, 32, 12);
    SameWord(p, b, 12, 32, 16);
    SameWord(p, b, 12, 32, 20);
    SameWord(p, b, 12, 32, 24);
    SameWord(p, b, 12, 32, 28);
    HeaderWordsIn(p);
    HeaderWordsIn(b);
    DecodeSkipsHeader(p, b, max);
  }

  lemma HeaderWordsIn(b: Bytes)
    requires |b| >= 40
    ensures var h := b[..40];
            && U32At(h, 0) == U32At(b, 0) && U32At(h, 4) == U32At(b, 4) && U32At(h, 8) == U32At(b, 8)
            && U32At(h, 12) == U32At(b, 12) && U32At(h, 16) == U32At(b, 16) && U32At(h, 20) == U32At(b, 20)
            && U32At(h, 24) == U32At(b, 24) && U32At(h, 28) == U32At(b, 28) && U64At(h, 32) == U64At(b, 32)
  {
    hide U32At, U64At;
    InHeader(b, 0);
    InHeader(b, 4);
    InHeader(b, 8);
    InHeader(b, 12);
    InHeader(b, 16);
    InHeader(b, 20);
    InHeader(b, 24);
    InHeader(b, 28);
    InHeader(b, 32);
  }

  lemma DecodeSkipsHeader(p: Bytes, b: Bytes, max: nat)
    requires |p| == |b| >= 40 && p[40..] == b[40..]
    ensures Decode(p, max) == Decode(b, max)
  {
    if |b| >= 120 {
      assert p[40..120] == p[40..][..80] == b[40..][..80] == b[40..120];
      assert p[120..] == p[40..][80..] == b[40..][80..] == b[120..];
    }
    hide DecodeBody;
  }

  // ---- Every byte string ----

  predicate AllDistinct(bs: seq<nat>)
  {
    forall i, j :: 0 <= i < j < |bs| ==> bs[i] != bs[j]
  }

  /** Image and sampler of texture `i` are bound at `base + 2i` and `base + 2i + 1`. */
  function TexBindings(base: nat, n: nat): (bs: seq<nat>)
    ensures |bs| == 2 * n
  {
    if n == 0 then [] else TexBindings(base, n - 1) + [base + 2 * (n - 1), base + 2 * (n - 1) + 1]
  }

  function UboBindings(us: seq<Ubo>): (bs: seq<nat>)
    ensures |bs| == |us|
  {
    if us == [] then [] else UboBindings(us[..|us| - 1]) + [us[|us| - 1].binding]
  }

  /** Every binding the host puts into the draw's descriptor set. */
  function Bindings(d: Draw): seq<nat>
  {
    TexBindings(d.texBinding, |d.textures|) + UboBindings(d.uniforms)
    + if d.storage.Some? then [d.storage.value.binding] else []
  }

  lemma {:induction false} TexBindingAt(base: nat, n: nat, i: nat)
    requires i < 2 * n
    ensures TexBindings(base, n)[i] == base + i
  {
    if i < 2 * (n - 1) {
      TexBindingAt(base, n - 1, i);
    }
  }

  lemma {:induction false} UboBindingAt(us: seq<Ubo>, i: nat)
    requires i < |us|
    ensures UboBindings(us)[i] == us[i].binding
  {
    if i < |us| - 1 {
      UboBindingAt(us[..|us| - 1], i);
    }
  }

  lemma BindingsDistinct(t: Tail, d: Draw)
    requires |d.textures| == t.texCount && d.texBinding == t.texBinding && UbosFit(t, d.uniforms)
    requires d.storage.Some? ==> t.ssboLen > 0 && d.storage.value.binding == t.ssboBinding
    requires !(t.ssboLen > 0 && InTexRange(t, t.ssboBinding))
    ensures AllDistinct(Bindings(d))
  {
    var tex, ubo := TexBindings(d.texBinding, |d.textures|), UboBindings(d.uniforms);
    forall i | 0 <= i < |tex| ensures tex[i] == d.texBinding + i {
      TexBindingAt(d.texBinding, |d.textures|, i);
    }
    forall i | 0 <= i < |ubo|
      ensures ubo[i] == d.uniforms[i].binding && GoodUbo(t, d.uniforms[i])
    {
      UboBindingAt(d.uniforms, i);
    }
    forall i, j | 0 <= i < j < |ubo| ensures ubo[i] != ubo[j] {
      assert d.uniforms[..j][i] == d.uniforms[i];
      assert Unbound(d.uniforms[..j], d.uniforms[j].binding);
    }
    hide TexBindings, UboBindings, UbosFit;
    Separate(tex, ubo, d.texBinding, |tex|);
    if d.storage.Some? {
      SeparateOne(tex + ubo, d.storage.value.binding);
    } else {
      assert Bindings(d) == tex + ubo;
    }
  }

  lemma Separate(tex: seq<nat>, ubo: seq<nat>, base: nat, n: nat)
    requires |tex| == n && forall i :: 0 <= i < n ==> tex[i] == base + i
    requires AllDistinct(ubo) && forall i :: 0 <= i < |ubo| ==> !(base <= ubo[i] < base + n)
    ensures AllDistinct(tex + ubo)
  {
  }

  lemma SeparateOne(bs: seq<nat>, b: nat)
    requires AllDistinct(bs) && forall i :: 0 <= i < |bs| ==> bs[i] != b
    ensures AllDistinct(bs + [b])
  {
  }

  /** Sections `s` and pixels `pix` are what draw `d` was read from. */
  ghost predicate ReadFrom(d: Draw, s: seq<Bytes>, descs: seq<TexDesc>, pix: Bytes)
  {
    && |s| == 12
    && AttrBytes(d.attrs) == s[0] && DrawBytes(d.draws) == s[1] && TexDescBytes(descs) == s[2]
    && WordBytes(d.vspirv) == s[3] && WordBytes(d.fspirv) == s[4]
    && d.vertexData == s[5] && d.indexData == s[6]
    && NoNul(d.vertexEntry) && d.vertexEntry + [0] <= s[7]
    && NoNul(d.fragmentEntry) && d.fragmentEntry + [0] <= s[8]
    && d.pushConst == s[9] && UboBytes(d.uniforms) <= s[10]
    && (if d.storage.Some? then d.storage.value.bytes == s[11] else s[11] == [])
    && Carves(descs, pix, d.textures)
  }

  /** Whatever the bytes, the decoder either refuses them or returns a draw that is nothing but
      consecutive slices of them in wire order, with whole textures, uniform records inside their
      block, and no binding used twice. */
  lemma DecodedIsSlices(payload: Bytes, max: nat)
    returns (s: seq<Bytes>, descs: seq<TexDesc>, pix: Bytes)
    ensures Decode(payload, max).Some? ==>
              var d := Decode(payload, max).value;
              && |payload| >= 120 && payload[120..] == Join(s) + pix
              && ReadFrom(d, s, descs, pix)
              && (forall i :: 0 <= i < |d.textures| ==> WholeTexture(d.textures[i]))
              && AllDistinct(Bindings(d))
  {
    hide *;
    s, descs, pix := [], [], [];
    if Decode(payload, max).None? {
      return;
    }
    DecodeSome(payload, max);
    DecodeMeans(payload, max);
    var t, rest := TailOf(BytesToWords(payload[40..120])), payload[120..];
    var n := SectionSizes(t);
    s, pix := Cut(rest, n), rest[Sum(n)..];
    JoinCut(rest, n);
    descs := AssembledFrom(t, s, pix, max);
  }

  lemma DecodeSome(payload: Bytes, max: nat)
    requires Decode(payload, max).Some?
    ensures |payload| >= 120
    ensures var t := TailOf(BytesToWords(payload[40..120]));
            Admissible(t, max) && Sum(SectionSizes(t)) <= |payload[120..]|
  {
    hide Admissible, Sum, SectionSizes, BytesToWords;
  }

  predicate WholeTexture(x: Texture)
  {
    x.width > 0 && x.height > 0 && |x.rgba| == x.width * x.height * 4
  }

  lemma {:induction false} PixelEndStep(ds: seq<TexDesc>, i: nat)
    requires i < |ds|
    ensures PixelEnd(ds, i + 1) == PixelEnd(ds, i) + ds[i].dataLen
  {
    if i > 0 {
      PixelEndStep(ds[1..], i - 1);
    }
  }

  lemma WholeTextures(ds: seq<TexDesc>, pix: Bytes, max: nat, texs: seq<Texture>, i: nat)
    requires TexturesFit(ds, pix, max) && Carves(ds, pix, texs) && i < |texs|
    ensures WholeTexture(texs[i])
  {
    assert CarvesAt(ds, pix, texs, i) && FitsAt(ds, pix, max, i);
    PixelEndStep(ds, i);
    hide PixelEnd;
  }

  lemma AssembledFrom(t: Tail, s: seq<Bytes>, pix: Bytes, max: nat) returns (descs: seq<TexDesc>)
    requires |s| == 12 && Lens(s) == SectionSizes(t) && Admissible(t, max) && Assemble(t, s, pix, max).Some?
    ensures var d := Assemble(t, s, pix, max).value;
            && ReadFrom(d, s, descs, pix)
            && (forall i :: 0 <= i < |d.textures| ==> WholeTexture(d.textures[i]))
            && AllDistinct(Bindings(d))
  {
    assert t.vspirvLen % 4 == 0 && t.fspirvLen % 4 == 0;
    hide *;
    AssembleSome(t, s, pix, max);
    SectionsAreParts(t, s);
    descs := TexDescsIn(s[2], t.texCount);
    var texs := TexturesParse(descs, pix, max, []);
    Nothing(texs);
    var us := UbosFrom(s[10], t.uboCount, t);
    var ventry, fentry := UntilNul(s[7]).value, UntilNul(s[8]).value;
    FoundName(s[7]);
    FoundName(s[8]);
    DrawParts(t, s, AttrsIn(s[0], t.attrCount), DrawsIn(s[1], t.drawCount), BytesToWords(s[3]), BytesToWords(s[4]), ventry, fentry, texs, us, descs, pix);
    forall i | 0 <= i < |texs| ensures WholeTexture(texs[i]) {
      WholeTextures(descs, pix, max, texs, i);
    }
    AdmissibleStorage(t, max);
    CarvesLength(descs, pix, texs);
    BindingsDistinct(t, Assemble(t, s, pix, max).value);
  }

  lemma AdmissibleStorage(t: Tail, max: nat)
    requires Admissible(t, max)
    ensures !(t.ssboLen > 0 && InTexRange(t, t.ssboBinding))
  {
  }

  lemma CarvesLength(ds: seq<TexDesc>, pix: Bytes, texs: seq<Texture>)
    requires Carves(ds, pix, texs)
    ensures |texs| == |ds|
  {
  }

  lemma Nothing(texs: seq<Texture>)
    ensures [] + texs == texs
  {
  }

  lemma UbosFrom(b: Bytes, n: nat, t: Tail) returns (us: seq<Ubo>)
    requires ParseUbos(b, n, t, []).Some?
    ensures ParseUbos(b, n, t, []) == Some(us) && UboBytes(us) <= b && UbosFit(t, us)
  {
    assert UbosFit(t, []);
    us := UbosInside(b, n, t, []);
    assert [] + us == us;
  }

  /** What an assembled draw consists of. */
  lemma AssembleSome(t: Tail, s: seq<Bytes>, pix: Bytes, max: nat)
    requires |s| == 12 && Assemble(t, s, pix, max).Some?
    ensures ParseTextures(TexDescsIn(s[2], t.texCount), pix, max, []).Some? && ParseUbos(s[10], t.uboCount, t, []).Some?
    ensures UntilNul(s[7]).Some? && UntilNul(s[8]).Some?
    ensures Assemble(t, s, pix, max).value ==
            DrawFrom(t, s, AttrsIn(s[0], t.attrCount), DrawsIn(s[1], t.drawCount), BytesToWords(s[3]), BytesToWords(s[4]), UntilNul(s[7]).value, UntilNul(s[8]).value,
                     ParseTextures(TexDescsIn(s[2], t.texCount), pix, max, []).value,
                     ParseUbos(s[10], t.uboCount, t, []).value)
  {
    hide DrawFrom, ParseTextures, ParseUbos, UntilNul, BytesToWords, TexDescsIn;
  }

  lemma SectionsAreParts(t: Tail, s: seq<Bytes>)
    requires |s| == 12 && Lens(s) == SectionSizes(t) && t.vspirvLen % 4 == 0 && t.fspirvLen % 4 == 0
    ensures AttrBytes(AttrsIn(s[0], t.attrCount)) == s[0] && DrawBytes(DrawsIn(s[1], t.drawCount)) == s[1]
    ensures TexDescBytes(TexDescsIn(s[2], t.texCount)) == s[2] && |TexDescsIn(s[2], t.texCount)| == t.texCount
    ensures WordBytes(BytesToWords(s[3])) == s[3] && WordBytes(BytesToWords(s[4])) == s[4]
    ensures |s[11]| == t.ssboLen
  {
    LensTwelve(s);
    hide Lens, AttrsIn, DrawsIn, TexDescsIn, AttrBytes, DrawBytes, TexDescBytes, WordBytes, BytesToWords;
    ArraysWriteBack(s[0], t.attrCount, s[1], t.drawCount, s[2], t.texCount);
    BytesRoundTrip(s[3]);
    BytesRoundTrip(s[4]);
  }

  lemma DrawParts(
    t: Tail, s: seq<Bytes>, attrs: seq<Attr>, draws: seq<DrawCmd>, vspirv: seq<u32>, fspirv: seq<u32>,
    ventry: Bytes, fentry: Bytes, texs: seq<Texture>, us: seq<Ubo>, descs: seq<TexDesc>, pix: Bytes)
    requires |s| == 12 && |s[11]| == t.ssboLen && Carves(descs, pix, texs) && UboBytes(us) <= s[10]
    requires AttrBytes(attrs) == s[0] && DrawBytes(draws) == s[1]
    requires TexDescBytes(descs) == s[2] && WordBytes(vspirv) == s[3] && WordBytes(fspirv) == s[4]
    requires NoNul(ventry) && ventry + [0] <= s[7] && NoNul(fentry) && fentry + [0] <= s[8]
    ensures var d := DrawFrom(t, s, attrs, draws, vspirv, fspirv, ventry, fentry, texs, us);
            && ReadFrom(d, s, descs, pix)
            && d.textures == texs && d.uniforms == us && d.texBinding == t.texBinding
            && (d.storage.Some? ==> t.ssboLen > 0 && d.storage.value.binding == t.ssboBinding)
  {
    hide AttrsIn, DrawsIn, AttrBytes, DrawBytes, TexDescBytes, WordBytes, UboBytes, Carves, NoNul, Resolve.HostDepth;
  }
}
