/**
 The forwarded command list: the driver's encoder, the host's decoder, and the kernel's patch of the
 header in between. Floats travel as their 32-bit words and signed fields as two's complement words.
 */
module Codec {
  import opened Words
  import opened Wire
  import Resolve

  const FORWARDED_CMDLIST: u32 := 3
  const SPIRV_MAGIC: u32 := 0x0723_0203
  const INDEX_U32: u32 := 1
  const MAX_TEXTURES := 8
  const MAX_SSBO_BYTES := 0x100_0000
  const HEADER_BYTES := 40
  const TAIL_BYTES := 80

  // ---- The fixed structs ----

  type Color = c: seq<u32> | |c| == 4 witness [0, 0, 0, 0]

  datatype Header = Header(op: u32, width: u32, height: u32, pad: u32, bg: Color, scanoutAddr: u64)

  function HeaderWords(h: Header): (ws: seq<u32>)
    ensures |ws| == 10
  {
    [h.op, h.width, h.height, h.pad] + h.bg + [h.scanoutAddr % 0x1_0000_0000, h.scanoutAddr / 0x1_0000_0000]
  }

  function HeaderOf(ws: seq<u32>): Header
    requires |ws| == 10
  {
    Header(ws[0], ws[1], ws[2], ws[3], ws[4..8], ws[8] as int + 0x1_0000_0000 * ws[9] as int)
  }

  datatype Tail = Tail(
    vspirvLen: u32, fspirvLen: u32, ventryLen: u32, fentryLen: u32, vertexStride: u32,
    attrCount: u32, vertexDataLen: u32, indexDataLen: u32, indexType: u32, drawCount: u32,
    topology: u32, depthFlags: u32, pushConstLen: u32, texCount: u32, uboLen: u32,
    uboCount: u32, texBinding: u32, rasterFlags: u32, ssboLen: u32, ssboBinding: u32)

  function TailWords(t: Tail): (ws: seq<u32>)
    ensures |ws| == 20
  {
    [t.vspirvLen, t.fspirvLen, t.ventryLen, t.fentryLen, t.vertexStride,
     t.attrCount, t.vertexDataLen, t.indexDataLen, t.indexType, t.drawCount,
     t.topology, t.depthFlags, t.pushConstLen, t.texCount, t.uboLen,
     t.uboCount, t.texBinding, t.rasterFlags, t.ssboLen, t.ssboBinding]
  }

  function TailOf(ws: seq<u32>): Tail
    requires |ws| == 20
  {
    Tail(ws[0], ws[1], ws[2], ws[3], ws[4], ws[5], ws[6], ws[7], ws[8], ws[9],
         ws[10], ws[11], ws[12], ws[13], ws[14], ws[15], ws[16], ws[17], ws[18], ws[19])
  }

  lemma HeaderReadsBack(h: Header)
    ensures HeaderOf(BytesToWords(WordBytes(HeaderWords(h)))) == h
  {
    WordsRoundTrip(HeaderWords(h));
    assert HeaderWords(h)[4..8] == h.bg;
    hide WordBytes, BytesToWords;
  }

  lemma TailReadsBack(t: Tail)
    ensures TailOf(BytesToWords(WordBytes(TailWords(t)))) == t
  {
    WordsRoundTrip(TailWords(t));
    hide WordBytes, BytesToWords;
  }

  // ---- The record arrays ----

  datatype Attr = Attr(location: u32, format: u32, offset: u32)
  datatype DrawCmd = DrawCmd(
    count: u32, instanceCount: u32, first: u32, vertexOffset: u32, vpX: u32, vpY: u32, vpW: u32, vpH: u32)
  datatype TexDesc = TexDesc(width: u32, height: u32, dataLen: u32, samplerFlags: u32)

  function At(ws: seq<u32>, i: nat): u32 { if i < |ws| then ws[i] else 0 }

  const ATTRS := Layout((a: Attr) => [a.location, a.format, a.offset],
                        ws => Attr(At(ws, 0), At(ws, 1), At(ws, 2)), 3)
  const DRAWS := Layout((d: DrawCmd) => [d.count, d.instanceCount, d.first, d.vertexOffset, d.vpX, d.vpY, d.vpW, d.vpH],
                        ws => DrawCmd(At(ws, 0), At(ws, 1), At(ws, 2), At(ws, 3),
                                      At(ws, 4), At(ws, 5), At(ws, 6), At(ws, 7)), 8)
  const TEXDESCS := Layout((t: TexDesc) => [t.width, t.height, t.dataLen, t.samplerFlags],
                           ws => TexDesc(At(ws, 0), At(ws, 1), At(ws, 2), At(ws, 3)), 4)

  lemma LayoutsAreFaithful()
    ensures Faithful(ATTRS) && ATTRS.size == 3
    ensures Faithful(DRAWS) && DRAWS.size == 8
    ensures Faithful(TEXDESCS) && TEXDESCS.size == 4
  {
    AttrsAreFaithful();
    DrawsAreFaithful();
    TexDescsAreFaithful();
    hide Faithful;
  }

  lemma AttrsAreFaithful()
    ensures Faithful(ATTRS) && ATTRS.size == 3
  {
  }

  lemma DrawsAreFaithful()
    ensures Faithful(DRAWS) && DRAWS.size == 8
  {
  }

  lemma TexDescsAreFaithful()
    ensures Faithful(TEXDESCS) && TEXDESCS.size == 4
  {
  }

  function AttrBytes(xs: seq<Attr>): Bytes { WriteAll(ATTRS, xs) }
  function DrawBytes(xs: seq<DrawCmd>): Bytes { WriteAll(DRAWS, xs) }
  function TexDescBytes(xs: seq<TexDesc>): Bytes { WriteAll(TEXDESCS, xs) }

  function AttrsIn(b: Bytes, n: nat): seq<Attr> { ReadAll(ATTRS, b, n) }
  function DrawsIn(b: Bytes, n: nat): seq<DrawCmd> { ReadAll(DRAWS, b, n) }
  function TexDescsIn(b: Bytes, n: nat): seq<TexDesc> { ReadAll(TEXDESCS, b, n) }

  lemma ArrayLengths(attrs: seq<Attr>, draws: seq<DrawCmd>, texs: seq<TexDesc>)
    ensures |AttrBytes(attrs)| == 12 * |attrs| && |DrawBytes(draws)| == 32 * |draws|
    ensures |TexDescBytes(texs)| == 16 * |texs|
  {
    LayoutsAreFaithful();
    hide WriteAll, Faithful;
    WriteAllLength(ATTRS, attrs);
    WriteAllLength(DRAWS, draws);
    WriteAllLength(TEXDESCS, texs);
  }

  lemma ArraysReadBack(attrs: seq<Attr>, draws: seq<DrawCmd>, texs: seq<TexDesc>)
    ensures AttrsIn(AttrBytes(attrs), |attrs|) == attrs
    ensures DrawsIn(DrawBytes(draws), |draws|) == draws
    ensures TexDescsIn(TexDescBytes(texs), |texs|) == texs
  {
    LayoutsAreFaithful();
    hide ReadAll, WriteAll, Faithful;
    ReadWritten(ATTRS, attrs);
    ReadWritten(DRAWS, draws);
    ReadWritten(TEXDESCS, texs);
  }

  lemma ArraysWriteBack(a: Bytes, m: nat, d: Bytes, n: nat, t: Bytes, k: nat)
    requires |a| == 12 * m && |d| == 32 * n && |t| == 16 * k
    ensures AttrBytes(AttrsIn(a, m)) == a && |AttrsIn(a, m)| == m
    ensures DrawBytes(DrawsIn(d, n)) == d && |DrawsIn(d, n)| == n
    ensures TexDescBytes(TexDescsIn(t, k)) == t && |TexDescsIn(t, k)| == k
  {
    LayoutsAreFaithful();
    hide ReadAll, WriteAll, Faithful;
    WrittenRead(ATTRS, a, m);
    WrittenRead(DRAWS, d, n);
    WrittenRead(TEXDESCS, t, k);
  }

  /** Where each field of the records lies. */
  lemma RecordLayout(attrs: seq<Attr>, draws: seq<DrawCmd>, texs: seq<TexDesc>, i: nat)
    ensures i < |attrs| ==>
              var b, a := AttrBytes(attrs), attrs[i];
              12 * i + 12 <= |b| && U32At(b, 12 * i) == a.location && U32At(b, 12 * i + 4) == a.format
              && U32At(b, 12 * i + 8) == a.offset
    ensures i < |draws| ==>
              var b, d := DrawBytes(draws), draws[i];
              32 * i + 32 <= |b| && U32At(b, 32 * i) == d.count && U32At(b, 32 * i + 4) == d.instanceCount
              && U32At(b, 32 * i + 8) == d.first && U32At(b, 32 * i + 12) == d.vertexOffset
              && U32At(b, 32 * i + 16) == d.vpX && U32At(b, 32 * i + 20) == d.vpY
              && U32At(b, 32 * i + 24) == d.vpW && U32At(b, 32 * i + 28) == d.vpH
    ensures i < |texs| ==>
              var b, d := TexDescBytes(texs), texs[i];
              16 * i + 16 <= |b| && U32At(b, 16 * i) == d.width && U32At(b, 16 * i + 4) == d.height
              && U32At(b, 16 * i + 8) == d.dataLen && U32At(b, 16 * i + 12) == d.samplerFlags
  {
    LayoutsAreFaithful();
    hide WriteAll, Faithful, U32At;
    if i < |attrs| {
      AttrLayout(attrs, i);
    }
    if i < |draws| {
      DrawLayout(draws, i);
    }
    if i < |texs| {
      TexDescLayout(texs, i);
    }
  }

  lemma AttrLayout(attrs: seq<Attr>, i: nat)
    requires i < |attrs| && Faithful(ATTRS)
    ensures var b, a := AttrBytes(attrs), attrs[i];
            12 * i + 12 <= |b| && U32At(b, 12 * i) == a.location && U32At(b, 12 * i + 4) == a.format
            && U32At(b, 12 * i + 8) == a.offset
  {
    hide WriteAll, Faithful, U32At;
    ArrayLengths(attrs[..i], [], []);
    RecordWord(ATTRS, attrs, i, 0, 12 * i);
    RecordWord(ATTRS, attrs, i, 1, 12 * i);
    RecordWord(ATTRS, attrs, i, 2, 12 * i);
  }

  lemma DrawLayout(draws: seq<DrawCmd>, i: nat)
    requires i < |draws| && Faithful(DRAWS)
    ensures var b, d := DrawBytes(draws), draws[i];
            32 * i + 32 <= |b| && U32At(b, 32 * i) == d.count && U32At(b, 32 * i + 4) == d.instanceCount
            && U32At(b, 32 * i + 8) == d.first && U32At(b, 32 * i + 12) == d.vertexOffset
            && U32At(b, 32 * i + 16) == d.vpX && U32At(b, 32 * i + 20) == d.vpY
            && U32At(b, 32 * i + 24) == d.vpW && U32At(b, 32 * i + 28) == d.vpH
  {
    hide WriteAll, Faithful, U32At;
    ArrayLengths([], draws[..i], []);
    RecordWord(DRAWS, draws, i, 0, 32 * i);
    RecordWord(DRAWS, draws, i, 1, 32 * i);
    RecordWord(DRAWS, draws, i, 2, 32 * i);
    RecordWord(DRAWS, draws, i, 3, 32 * i);
    RecordWord(DRAWS, draws, i, 4, 32 * i);
    RecordWord(DRAWS, draws, i, 5, 32 * i);
    RecordWord(DRAWS, draws, i, 6, 32 * i);
    RecordWord(DRAWS, draws, i, 7, 32 * i);
  }

  lemma TexDescLayout(texs: seq<TexDesc>, i: nat)
    requires i < |texs| && Faithful(TEXDESCS)
    ensures var b, d := TexDescBytes(texs), texs[i];
            16 * i + 16 <= |b| && U32At(b, 16 * i) == d.width && U32At(b, 16 * i + 4) == d.height
            && U32At(b, 16 * i + 8) == d.dataLen && U32At(b, 16 * i + 12) == d.samplerFlags
  {
    hide WriteAll, Faithful, U32At;
    ArrayLengths([], [], texs[..i]);
    RecordWord(TEXDESCS, texs, i, 0, 16 * i);
    RecordWord(TEXDESCS, texs, i, 1, 16 * i);
    RecordWord(TEXDESCS, texs, i, 2, 16 * i);
    RecordWord(TEXDESCS, texs, i, 3, 16 * i);
  }

  // ---- Uniform buffers: a self-describing block ----

  datatype Ubo = Ubo(binding: u32, bytes: Bytes)

  function UboBytes(us: seq<Ubo>): Bytes
  {
    if us == [] then []
    else LE32(us[0].binding) + LE32(Residue(|us[0].bytes|)) + us[0].bytes + UboBytes(us[1..])
  }

  predicate InTexRange(t: Tail, b: u32)
  {
    t.texCount > 0 && t.texBinding <= b < t.texBinding + 2 * t.texCount
  }

  predicate GoodUbo(t: Tail, u: Ubo)
  {
    && u.binding <= 65535 && |u.bytes| <= 65536
    && !InTexRange(t, u.binding)
    && !(t.ssboLen > 0 && u.binding == t.ssboBinding)
  }

  predicate Unbound(us: seq<Ubo>, binding: u32)
  {
    forall i :: 0 <= i < |us| ==> us[i].binding != binding
  }

  /** Walks `n` records; a bad or repeated binding, or a record that leaves the block, refuses all. */
  function ParseUbos(b: Bytes, n: nat, t: Tail, acc: seq<Ubo>): Option<seq<Ubo>>
    decreases n
  {
    if n == 0 then Some(acc)
    else if |b| < 8 then None
    else
      var binding, len, rest := U32At(b, 0), U32At(b, 4), b[8..];
      if len > |rest| || !GoodUbo(t, Ubo(binding, rest[..len])) || !Unbound(acc, binding) then None
      else ParseUbos(rest[len..], n - 1, t, acc + [Ubo(binding, rest[..len])])
  }

  /** Every record is good and no binding occurs twice. */
  predicate UbosFit(t: Tail, us: seq<Ubo>)
  {
    forall i :: 0 <= i < |us| ==> GoodUbo(t, us[i]) && Unbound(us[..i], us[i].binding)
  }

  lemma UbosFitSnoc(t: Tail, us: seq<Ubo>, u: Ubo)
    ensures UbosFit(t, us + [u]) <==> UbosFit(t, us) && GoodUbo(t, u) && Unbound(us, u.binding)
  {
    var all := us + [u];
    assert all[..|us|] == us && all[|us|] == u;
    forall i | 0 <= i < |us| ensures all[..i] == us[..i] && all[i] == us[i] { }
    hide GoodUbo, Unbound;
  }

  lemma UbosFitPrefix(t: Tail, us: seq<Ubo>, vs: seq<Ubo>)
    requires UbosFit(t, us + vs)
    ensures UbosFit(t, us)
  {
    forall i | 0 <= i < |us| ensures GoodUbo(t, us[i]) && Unbound(us[..i], us[i].binding) {
      assert (us + vs)[..i] == us[..i] && (us + vs)[i] == us[i];
    }
    hide GoodUbo, Unbound;
  }

  lemma UboUnfolds(us: seq<Ubo>)
    requires us != [] && |us[0].bytes| < 0x1_0000_0000
    ensures UboBytes(us) == LE32(us[0].binding) + LE32(|us[0].bytes|) + us[0].bytes + UboBytes(us[1..])
  {
    hide LE32;
  }

  lemma UboHead(us: seq<Ubo>)
    requires us != [] && |us[0].bytes| < 0x1_0000_0000
    ensures var b := UboBytes(us);
            && |b| >= 8 + |us[0].bytes|
            && U32At(b, 0) == us[0].binding && U32At(b, 4) == |us[0].bytes|
            && b[8..][..|us[0].bytes|] == us[0].bytes
            && b[8..][|us[0].bytes|..] == UboBytes(us[1..])
  {
    var b, u := UboBytes(us), us[0];
    assert b[0..4] == LE32(u.binding) && b[4..8] == LE32(|u.bytes|);
    ReadLE32(b, 0, u.binding);
    ReadLE32(b, 4, |u.bytes|);
    hide LE32, U32At;
    Peel(LE32(u.binding), LE32(|u.bytes|), u.bytes, UboBytes(us[1..]));
  }

  lemma Peel(a: Bytes, b: Bytes, c: Bytes, d: Bytes)
    requires |a| == |b| == 4
    ensures var all := a + b + c + d;
            all[8..][..|c|] == c && all[8..][|c|..] == d
  {
  }

  /** The block written for `us` is accepted exactly when the records fit, and then yields them. */
  lemma {:induction false} UbosRoundTrip(t: Tail, us: seq<Ubo>, acc: seq<Ubo>)
    requires UbosFit(t, acc) && forall u :: u in us ==> |u.bytes| < 0x1_0000_0000
    ensures ParseUbos(UboBytes(us), |us|, t, acc) == if UbosFit(t, acc + us) then Some(acc + us) else None
  {
    if us == [] {
      assert acc + us == acc;
    } else {
      UboHead(us);
      UbosFitSnoc(t, acc, us[0]);
      assert acc + us == (acc + [us[0]]) + us[1..];
      if UbosFit(t, acc + us) {
        UbosFitPrefix(t, acc + [us[0]], us[1..]);
      }
      assert us[0] == Ubo(us[0].binding, us[0].bytes);
      hide UbosFit, UboBytes, GoodUbo, Unbound, U32At;
      if GoodUbo(t, us[0]) && Unbound(acc, us[0].binding) {
        UbosRoundTrip(t, us[1..], acc + [us[0]]);
      }
    }
  }

  /** What a walk accepts lies record after record inside the block. */
  lemma {:induction false} UbosInside(b: Bytes, n: nat, t: Tail, acc: seq<Ubo>) returns (us: seq<Ubo>)
    requires UbosFit(t, acc) && ParseUbos(b, n, t, acc).Some?
    ensures ParseUbos(b, n, t, acc) == Some(acc + us) && |us| == n
    ensures UboBytes(us) <= b && UbosFit(t, acc + us)
    decreases n
  {
    us := [];
    if n == 0 {
      assert acc + us == acc;
    } else {
      hide UboBytes, UbosFit, GoodUbo, Unbound;
      var len, rest := U32At(b, 4), b[8..];
      var u := Ubo(U32At(b, 0), rest[..len]);
      hide U32At;
      UbosFitSnoc(t, acc, u);
      var more := UbosInside(rest[len..], n - 1, t, acc + [u]);
      us := [u] + more;
      Associates(acc, [u], more);
      assert us[1..] == more;
      UboPrefix(b, us);
    }
  }

  lemma UboPrefix(b: Bytes, us: seq<Ubo>)
    requires us != [] && |b| >= 8 && |us[0].bytes| <= |b[8..]|
    requires us[0].binding == U32At(b, 0) && |us[0].bytes| == U32At(b, 4) && us[0].bytes == b[8..][..|us[0].bytes|]
    requires UboBytes(us[1..]) <= b[8..][|us[0].bytes|..]
    ensures UboBytes(us) <= b
  {
    hide *;
    var len: u32 := U32At(b, 4);
    WriteU32At(b, 0);
    WriteU32At(b, 4);
    UboUnfolds(us);
    Unpeel(b, len);
    Precedes(b[0..4] + b[4..8] + b[8..][..len], UboBytes(us[1..]), b[8..][len..]);
  }

  lemma Unpeel(b: Bytes, len: nat)
    requires 8 + len <= |b|
    ensures (b[0..4] + b[4..8] + b[8..][..len]) + b[8..][len..] == b
  {
  }

  lemma Precedes(a: Bytes, x: Bytes, y: Bytes)
    requires x <= y
    ensures a + x <= a + y
  {
  }

  // ---- Textures: descriptors in the array region, pixels in the trailing region ----

  datatype Texture = Texture(width: u32, height: u32, rgba: Bytes, linear: bool, wrap: bool)

  const SAMPLER_LINEAR: bv32 := 1
  const SAMPLER_REPEAT: bv32 := 2

  predicate HasFlag(word: u32, flag: bv32) { Resolve.Has(word as bv32, flag) }

  function TextureOf(d: TexDesc, rgba: Bytes): Texture
  {
    Texture(d.width, d.height, rgba, HasFlag(d.samplerFlags, SAMPLER_LINEAR), HasFlag(d.samplerFlags, SAMPLER_REPEAT))
  }

  /** Bit 0 of the sampler flags is linear filtering, bit 1 repeat. */
  lemma TextureFields(d: TexDesc, rgba: Bytes)
    ensures var tex := TextureOf(d, rgba);
            && tex.width == d.width && tex.height == d.height && tex.rgba == rgba
            && (tex.linear <==> (d.samplerFlags as bv32) & 0x1 != 0)
            && (tex.wrap <==> (d.samplerFlags as bv32) & 0x2 != 0)
  {
  }

  predicate GoodTexture(d: TexDesc, max: nat)
  {
    d.width != 0 && d.height != 0 && d.dataLen == d.width * d.height * 4 && d.dataLen <= max
  }

  function ParseTextures(ds: seq<TexDesc>, pix: Bytes, max: nat, acc: seq<Texture>): Option<seq<Texture>>
  {
    if ds == [] then Some(acc)
    else if !GoodTexture(ds[0], max) || ds[0].dataLen > |pix| then None
    else ParseTextures(ds[1..], pix[ds[0].dataLen..], max, acc + [TextureOf(ds[0], pix[..ds[0].dataLen])])
  }

  /** Where the pixels of the first `i` textures end. */
  function PixelEnd(ds: seq<TexDesc>, i: nat): nat
    requires i <= |ds|
  {
    if i == 0 then 0 else ds[0].dataLen + PixelEnd(ds[1..], i - 1)
  }

  predicate TexturesFit(ds: seq<TexDesc>, pix: Bytes, max: nat)
  {
    forall i :: 0 <= i < |ds| ==> FitsAt(ds, pix, max, i)
  }

  predicate FitsAt(ds: seq<TexDesc>, pix: Bytes, max: nat, i: nat)
    requires i < |ds|
  {
    GoodTexture(ds[i], max) && PixelEnd(ds, i + 1) <= |pix|
  }

  /** Texture `i` is described by `ds[i]` and holds the pixels between the ends of its neighbours. */
  ghost predicate Carves(ds: seq<TexDesc>, pix: Bytes, texs: seq<Texture>)
  {
    |texs| == |ds| && forall i :: 0 <= i < |ds| ==> CarvesAt(ds, pix, texs, i)
  }

  predicate CarvesAt(ds: seq<TexDesc>, pix: Bytes, texs: seq<Texture>, i: nat)
    requires i < |ds| == |texs|
  {
    var a, z := PixelEnd(ds, i), PixelEnd(ds, i + 1);
    a <= z <= |pix| && texs[i] == TextureOf(ds[i], pix[a..z])
  }

  lemma {:induction false} PixelEndNext(ds: seq<TexDesc>, i: nat)
    requires ds != [] && i < |ds|
    ensures PixelEnd(ds, i + 1) == ds[0].dataLen + PixelEnd(ds[1..], i)
    ensures PixelEnd(ds, i) <= PixelEnd(ds, i + 1)
  {
    if i > 0 {
      PixelEndNext(ds[1..], i - 1);
    }
  }

  lemma {:induction false} TexturesFitNext(ds: seq<TexDesc>, pix: Bytes, max: nat)
    requires ds != []
    ensures TexturesFit(ds, pix, max) <==>
            GoodTexture(ds[0], max) && ds[0].dataLen <= |pix| && TexturesFit(ds[1..], pix[ds[0].dataLen..], max)
  {
    hide GoodTexture, PixelEnd;
    PixelEndNext(ds, 0);
    PixelEndZero(ds[1..]);
    var more := ds[1..];
    if TexturesFit(ds, pix, max) {
      assert FitsAt(ds, pix, max, 0);
      forall i | 0 <= i < |more| ensures FitsAt(more, pix[ds[0].dataLen..], max, i) {
        PixelEndNext(ds, i + 1);
        assert FitsAt(ds, pix, max, i + 1);
      }
    } else if GoodTexture(ds[0], max) && ds[0].dataLen <= |pix| && TexturesFit(more, pix[ds[0].dataLen..], max) {
      forall i | 0 <= i < |ds| ensures FitsAt(ds, pix, max, i) {
        PixelEndNext(ds, i);
        if i > 0 {
          assert FitsAt(more, pix[ds[0].dataLen..], max, i - 1);
        }
      }
      assert false;
    }
  }

  lemma PixelEndZero(ds: seq<TexDesc>)
    ensures PixelEnd(ds, 0) == 0
  {
  }

  lemma {:induction false} CarvesNext(ds: seq<TexDesc>, pix: Bytes, texs: seq<Texture>)
    requires ds != [] && ds[0].dataLen <= |pix| && Carves(ds[1..], pix[ds[0].dataLen..], texs)
    ensures Carves(ds, pix, [TextureOf(ds[0], pix[..ds[0].dataLen])] + texs)
  {
    var n := ds[0].dataLen;
    var all := [TextureOf(ds[0], pix[..n])] + texs;
    hide TextureOf, PixelEnd;
    PixelEndZero(ds);
    PixelEndZero(ds[1..]);
    forall i | 0 <= i < |ds| ensures CarvesAt(ds, pix, all, i) {
      PixelEndNext(ds, i);
      if i > 0 {
        PixelEndNext(ds, i - 1);
        assert CarvesAt(ds[1..], pix[n..], texs, i - 1);
        var a, z := PixelEnd(ds[1..], i - 1), PixelEnd(ds[1..], i);
        assert pix[n..][a..z] == pix[n + a..n + z];
      }
    }
  }

  /** Textures are accepted exactly when each is good and all the pixels are there. */
  lemma {:induction false} TexturesParse(ds: seq<TexDesc>, pix: Bytes, max: nat, acc: seq<Texture>)
    returns (texs: seq<Texture>)
    ensures ParseTextures(ds, pix, max, acc).Some? <==> TexturesFit(ds, pix, max)
    ensures TexturesFit(ds, pix, max) ==> ParseTextures(ds, pix, max, acc) == Some(acc + texs) && Carves(ds, pix, texs)
  {
    texs := [];
    if ds == [] {
      assert acc + texs == acc;
    } else {
      TexturesFitNext(ds, pix, max);
      if GoodTexture(ds[0], max) && ds[0].dataLen <= |pix| {
        var t := TextureOf(ds[0], pix[..ds[0].dataLen]);
        var more := TexturesParse(ds[1..], pix[ds[0].dataLen..], max, acc + [t]);
        texs := [t] + more;
        assert (acc + [t]) + more == acc + texs;
        if TexturesFit(ds, pix, max) {
          CarvesNext(ds, pix, more);
        }
      }
      hide TexturesFit, Carves, GoodTexture, TextureOf;
    }
  }

}
