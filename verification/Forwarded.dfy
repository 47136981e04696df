/**
 The codec as the code runs it: the driver fills an output buffer at a running offset, the kernel
 patches the header in place, and the host walks the payload with cursors, growing its vectors.
 */
module Forwarded {
  import opened Words
  import opened Wire
  import opened Codec
  import opened CmdList
  import Resolve

  // ---- Writing ----

  /** `memcpy(out + o, bs, |bs|); o += |bs|`. */
  method Append(out: array<byte>, o: nat, bs: Bytes) returns (n: nat)
    requires o + |bs| <= out.Length
    modifies out
    ensures n == o + |bs| && out[..n] == old(out[..o]) + bs
    ensures forall i :: n <= i < out.Length ==> out[i] == old(out[i])
  {
    forall i | 0 <= i < |bs| {
      out[o + i] := bs[i];
    }
    n := o + |bs|;
  }

  function UboRecord(u: Ubo): Bytes
  {
    LE32(u.binding) + LE32(Residue(|u.bytes|)) + u.bytes
  }

  lemma {:induction false} UboBytesSnoc(us: seq<Ubo>, u: Ubo)
    ensures UboBytes(us + [u]) == UboBytes(us) + UboRecord(u)
  {
    hide LE32, Residue;
    if us == [] {
      assert [u][1..] == [];
      assert UboBytes([]) == [];
    } else {
      assert (us + [u])[1..] == us[1..] + [u];
      UboBytesSnoc(us[1..], u);
      Associates(UboRecord(us[0]), UboBytes(us[1..]), UboRecord(u));
    }
  }

  lemma {:induction false} UboTotalSnoc(us: seq<Ubo>, u: Ubo)
    ensures UboTotal(us + [u]) == UboTotal(us) + 8 + |u.bytes|
  {
    assert (us + [u])[..|us|] == us;
  }

  lemma {:induction false} UboTotalPrefix(us: seq<Ubo>, i: nat)
    requires i <= |us|
    ensures UboTotal(us[..i]) <= UboTotal(us)
  {
    if i < |us| {
      UboTotalPrefix(us[..|us| - 1], i);
      assert us[..|us| - 1][..i] == us[..i];
    } else {
      assert us[..i] == us;
    }
  }

  lemma TakeNext<T>(xs: seq<T>, i: nat)
    requires i < |xs|
    ensures xs[..i + 1] == xs[..i] + [xs[i]]
  {
  }

  /** The uniform block, record by record. */
  method AppendUbos(out: array<byte>, o: nat, us: seq<Ubo>) returns (n: nat)
    requires o + UboTotal(us) <= out.Length && forall u :: u in us ==> |u.bytes| < 0x1_0000_0000
    modifies out
    ensures n == o + UboTotal(us) && out[..n] == old(out[..o]) + UboBytes(us)
    ensures forall i :: n <= i < out.Length ==> out[i] == old(out[i])
  {
    hide UboBytes, UboTotal, LE32, Residue;
    n := o;
    NoUbos();
    for i := 0 to |us|
      invariant n == o + UboTotal(us[..i]) <= out.Length
      invariant out[..n] == old(out[..o]) + UboBytes(us[..i])
      invariant forall k :: n <= k < out.Length ==> out[k] == old(out[k])
    {
      ghost var before := out[..o];
      TakeNext(us, i);
      UboBytesSnoc(us[..i], us[i]);
      UboTotalSnoc(us[..i], us[i]);
      UboTotalPrefix(us, i + 1);
      ghost var start := out[..n];
      n := Append(out, n, UboRecord(us[i]));
      Associates(old(out[..o]), UboBytes(us[..i]), UboRecord(us[i]));
    }
    assert us[..|us|] == us;
  }

  lemma NoUbos()
    ensures UboBytes([]) == [] && UboTotal([]) == 0
  {
  }

  lemma {:induction false} JoinTake(s: seq<Bytes>, k: nat)
    requires k < |s|
    ensures Join(s[..k + 1]) == Join(s[..k]) + s[k]
    ensures |Join(s[..k + 1])| <= |Join(s)|
  {
    TakeNext(s, k);
    JoinSnoc(s[..k], s[k]);
    JoinSplit(s, k + 1);
  }

  lemma {:induction false} JoinSplit(s: seq<Bytes>, k: nat)
    requires k <= |s|
    ensures |Join(s)| == |Join(s[..k])| + |Join(s[k..])|
  {
    if k > 0 {
      JoinSplit(s[1..], k - 1);
      assert s[..k][1..] == s[1..][..k - 1] && s[1..][k - 1..] == s[k..];
    } else {
      assert s[..k] == [] && s[k..] == s;
    }
  }

  /** The buffer, once `was`, holds the list's first `k` sections up to offset `o` and is untouched
      from there. */
  ghost predicate Written(out: array<byte>, was: Bytes, o: nat, l: List, k: nat)
    requires CTypes(l)
    reads out
  {
    && k <= 12 && o <= out.Length && out[..o] == Prefix(l) + Join(Sections(l)[..k])
    && Untouched(out, was, o)
  }

  ghost predicate Untouched(out: array<byte>, was: Bytes, o: nat)
    reads out
  {
    |was| == out.Length && forall i :: o <= i < out.Length ==> out[i] == was[i]
  }

  lemma RoomFor(out: array<byte>, was: Bytes, o: nat, l: List, k: nat)
    requires CTypes(l) && k < 12 && Written(out, was, o, l, k)
    requires TotalSize(l) <= out.Length
    ensures o + |Sections(l)[k]| <= out.Length
    ensures Prefix(l) + Join(Sections(l)[..k + 1]) == (Prefix(l) + Join(Sections(l)[..k])) + Sections(l)[k]
  {
    PayloadSize(l);
    JoinTake(Sections(l), k);
    Associates(Prefix(l), Join(Sections(l)[..k]), Sections(l)[k]);
    hide Sections, Join, TotalSize, Prefix;
  }

  method AppendSection(out: array<byte>, o: nat, bs: Bytes, ghost was: Bytes, ghost l: List, ghost k: nat)
    returns (n: nat)
    requires CTypes(l) && k < 12 && Written(out, was, o, l, k) && TotalSize(l) <= out.Length && bs == Sections(l)[k]
    modifies out
    ensures Written(out, was, n, l, k + 1)
  {
    RoomFor(out, was, o, l, k);
    hide Sections, Join, TotalSize, Prefix;
    n := Append(out, o, bs);
  }

  /** Writes the payload and returns its length, or touches nothing and returns 0. */
  method EncodeForwardedCmdlist(out: array<byte>, l: List) returns (n: nat)
    requires CTypes(l)
    modifies out
    ensures Encode(l, out.Length).None? ==> n == 0 && out[..] == old(out[..])
    ensures Encode(l, out.Length).Some? ==> n <= out.Length && out[..n] == Encode(l, out.Length).value
    ensures forall i :: n <= i < out.Length ==> out[i] == old(out[i])
  {
    var uboBytes := 0;
    for i := 0 to |l.ubos|
      modifies {}
      invariant uboBytes == UboTotal(l.ubos[..i])
    {
      TakeNext(l.ubos, i);
      UboTotalSnoc(l.ubos[..i], l.ubos[i]);
      uboBytes := uboBytes + 8 + |l.ubos[i].bytes|;
    }
    assert l.ubos[..|l.ubos|] == l.ubos;
    if |l.draws| == 0 || (l.vertexStride == 0) != (|l.vertexData| == 0) {
      return 0;
    }
    var total := HEADER_BYTES + TAIL_BYTES + 12 * |l.attrs| + 32 * |l.draws| + 16 * |l.texs|
    + 4 * |l.vspirv| + 4 * |l.fspirv| + |l.vertexData| + |l.indexData|
    + (|l.vertexEntry| + 1) + (|l.fragmentEntry| + 1) + |l.pushConst| + uboBytes + |l.ssbo| + |l.texPixels|;
    if total > out.Length {
      return 0;
    }
    n := WriteList(out, l);
  }

  /** The writing half of the encoder. */
  method WriteList(out: array<byte>, l: List) returns (n: nat)
    requires CTypes(l) && TotalSize(l) <= out.Length
    modifies out
    ensures n <= out.Length && out[..n] == Payload(l)
    ensures forall i :: n <= i < out.Length ==> out[i] == old(out[i])
  {
    ghost var was := out[..];
    n := WritePrefix(out, l);
    n := WriteArrays(out, n, l, was);
    n := WriteBlobs(out, n, l, was);
    SectionParts(l);
    hide *;
    n := AppendUboSection(out, n, l, was);
    n := AppendSection(out, n, l.ssbo, was, l, 11);
    n := AppendPixels(out, n, l, was);
    UntouchedMeans(out, was, n);
  }

  method WriteArrays(out: array<byte>, o: nat, l: List, ghost was: Bytes) returns (n: nat)
    requires CTypes(l) && Written(out, was, o, l, 0) && TotalSize(l) <= out.Length
    modifies out
    ensures Written(out, was, n, l, 5)
  {
    SectionParts(l);
    hide *;
    n := AppendSection(out, o, AttrBytes(l.attrs), was, l, 0);
    n := AppendSection(out, n, DrawBytes(l.draws), was, l, 1);
    n := AppendSection(out, n, TexDescBytes(l.texs), was, l, 2);
    n := AppendSection(out, n, WordBytes(l.vspirv), was, l, 3);
    n := AppendSection(out, n, WordBytes(l.fspirv), was, l, 4);
  }

  method WriteBlobs(out: array<byte>, o: nat, l: List, ghost was: Bytes) returns (n: nat)
    requires CTypes(l) && Written(out, was, o, l, 5) && TotalSize(l) <= out.Length
    modifies out
    ensures Written(out, was, n, l, 10)
  {
    SectionParts(l);
    hide *;
    n := AppendSection(out, o, l.vertexData, was, l, 5);
    n := AppendSection(out, n, l.indexData, was, l, 6);
    n := AppendSection(out, n, l.vertexEntry + [0], was, l, 7);
    n := AppendSection(out, n, l.fragmentEntry + [0], was, l, 8);
    n := AppendSection(out, n, l.pushConst, was, l, 9);
  }

  lemma UntouchedMeans(out: array<byte>, was: Bytes, n: nat)
    requires Untouched(out, was, n)
    ensures |was| == out.Length && forall i :: n <= i < out.Length ==> out[i] == was[i]
  {
  }

  lemma SectionParts(l: List)
    ensures var s := Sections(l);
            && s[0] == AttrBytes(l.attrs) && s[1] == DrawBytes(l.draws) && s[2] == TexDescBytes(l.texs)
            && s[3] == WordBytes(l.vspirv) && s[4] == WordBytes(l.fspirv)
            && s[5] == l.vertexData && s[6] == l.indexData
            && s[7] == l.vertexEntry + [0] && s[8] == l.fragmentEntry + [0]
            && s[9] == l.pushConst && s[10] == UboBytes(l.ubos) && s[11] == l.ssbo
  {
  }

  method WritePrefix(out: array<byte>, l: List) returns (n: nat)
    requires CTypes(l) && TotalSize(l) <= out.Length
    modifies out
    ensures Written(out, old(out[..]), n, l, 0)
  {
    hide UboTotal, WordBytes, HeaderWords, TailWords, TailFor, Sections, Join;
    n := Append(out, 0, WordBytes(HeaderWords(HeaderFor(l))));
    n := Append(out, n, WordBytes(TailWords(TailFor(l))));
    NoSections(l);
    assert old(out[..0]) == [];
  }

  lemma NoSections(l: List)
    requires CTypes(l)
    ensures Prefix(l) + Join(Sections(l)[..0]) == Prefix(l)
  {
    hide Prefix, Sections;
  }

  method AppendUboSection(out: array<byte>, o: nat, l: List, ghost was: Bytes) returns (n: nat)
    requires CTypes(l) && Written(out, was, o, l, 10) && TotalSize(l) <= out.Length
    modifies out
    ensures n <= out.Length && Written(out, was, n, l, 11)
  {
    RoomFor(out, was, o, l, 10);
    SectionParts(l);
    UboTotalIsSize(l.ubos);
    hide Sections, Join, TotalSize, Prefix, UboBytes, UboTotal;
    n := AppendUbos(out, o, l.ubos);
  }

  method AppendPixels(out: array<byte>, o: nat, l: List, ghost was: Bytes) returns (n: nat)
    requires CTypes(l) && Written(out, was, o, l, 12) && TotalSize(l) <= out.Length
    modifies out
    ensures n <= out.Length && out[..n] == Payload(l) && Untouched(out, was, n)
  {
    PayloadSize(l);
    assert Sections(l)[..12] == Sections(l);
    hide Sections, Join, TotalSize, Prefix;
    n := Append(out, o, l.texPixels);
  }

  // ---- Patching ----

  /** The kernel's stores into the staging buffer, whose workload header starts at `at`. */
  method PatchHeader(staging: array<byte>, at: nat, width: u32, height: u32, addr: u64)
    requires at + HEADER_BYTES <= staging.Length
    modifies staging
    ensures staging[at..] == Patch(old(staging[at..]), width, height, addr)
    ensures staging[..at] == old(staging[..at])
  {
    ghost var was := staging[at..];
    Store(staging, at + 4, LE32(width));
    Store(staging, at + 8, LE32(height));
    Store(staging, at + 32, LE64(addr));
    hide LE32, LE64;
    ghost var now := staging[at..];
    assert now[4..8] == staging[at + 4..at + 8] == LE32(width);
    assert now[8..12] == staging[at + 8..at + 12] == LE32(height);
    assert now[32..40] == staging[at + 32..at + 40] == LE64(addr);
    forall i | 0 <= i < |was| && !(4 <= i < 12) && !(32 <= i < 40) ensures now[i] == was[i] {
      assert now[i] == staging[at + i];
    }
    Stored(was, now, width, height, addr);
  }

  method Store(a: array<byte>, o: nat, bs: Bytes)
    requires o + |bs| <= a.Length
    modifies a
    ensures a[o..o + |bs|] == bs
    ensures forall i :: 0 <= i < a.Length && !(o <= i < o + |bs|) ==> a[i] == old(a[i])
  {
    forall i | 0 <= i < |bs| {
      a[o + i] := bs[i];
    }
  }

  lemma Stored(was: Bytes, now: Bytes, width: u32, height: u32, addr: u64)
    requires |was| == |now| >= 40
    requires now[4..8] == LE32(width) && now[8..12] == LE32(height) && now[32..40] == LE64(addr)
    requires forall i :: 0 <= i < |was| && !(4 <= i < 12) && !(32 <= i < 40) ==> now[i] == was[i]
    ensures now == Patch(was, width, height, addr)
  {
    hide LE32, LE64;
    assert now[..4] == was[..4] && now[12..32] == was[12..32] && now[40..] == was[40..];
    assert now == now[..4] + now[4..8] + now[8..12] + now[12..32] + now[32..40] + now[40..];
  }

  // ---- Reading ----

  /** One loop for each record array: read a prefix, advance the cursor, push. */
  method ReadArray<T(0)>(l: Layout<T>, b: Bytes, count: nat) returns (xs: seq<T>)
    requires l.size > 0
    ensures xs == ReadAll(l, b, count)
  {
    xs := [];
    var cur := b;
    var i := 0;
    while i < count && |cur| >= 4 * l.size
      invariant i <= count
      invariant ReadAll(l, b, count) == xs + ReadAll(l, cur, count - i)
    {
      xs := xs + [ReadOne(l, cur)];
      cur := cur[4 * l.size..];
      i := i + 1;
    }
  }

  method ReadArrays(a: Bytes, attrCount: nat, d: Bytes, drawCount: nat, x: Bytes, texCount: nat)
    returns (attrs: seq<Attr>, draws: seq<DrawCmd>, descs: seq<TexDesc>)
    ensures attrs == AttrsIn(a, attrCount) && draws == DrawsIn(d, drawCount) && descs == TexDescsIn(x, texCount)
  {
    LayoutsAreFaithful();
    hide ReadAll, Faithful;
    attrs := ReadArray(ATTRS, a, attrCount);
    draws := ReadArray(DRAWS, d, drawCount);
    descs := ReadArray(TEXDESCS, x, texCount);
  }

  method ReadTextures(ds: seq<TexDesc>, region: Bytes, max: nat) returns (r: Option<seq<Texture>>)
    ensures r == ParseTextures(ds, region, max, [])
  {
    var out := [];
    var pix := region;
    for i := 0 to |ds|
      invariant ParseTextures(ds, region, max, []) == ParseTextures(ds[i..], pix, max, out)
    {
      var td := ds[i];
      assert ds[i..][0] == td && ds[i..][1..] == ds[i + 1..];
      if !GoodTexture(td, max) || td.dataLen > |pix| {
        return None;
      }
      out := out + [TextureOf(td, pix[..td.dataLen])];
      pix := pix[td.dataLen..];
    }
    return Some(out);
  }

  method ReadUniforms(block: Bytes, count: nat, t: Tail) returns (r: Option<seq<Ubo>>)
    ensures r == ParseUbos(block, count, t, [])
  {
    hide GoodUbo, Unbound, U32At;
    var uniforms: seq<Ubo> := [];
    var ub := block;
    for i := 0 to count
      invariant ParseUbos(block, count, t, []) == ParseUbos(ub, count - i, t, uniforms)
    {
      if |ub| < 8 {
        return None;
      }
      var binding, len := U32At(ub, 0), U32At(ub, 4);
      var rest := ub[8..];
      if len > |rest| || !GoodUbo(t, Ubo(binding, rest[..len])) || !Unbound(uniforms, binding) {
        return None;
      }
      uniforms := uniforms + [Ubo(binding, rest[..len])];
      ub := rest[len..];
    }
    return Some(uniforms);
  }

  /** `position` of the first NUL. */
  method ReadName(b: Bytes) returns (r: Option<Bytes>)
    ensures r == UntilNul(b)
  {
    var nul := 0;
    while nul < |b| && b[nul] != 0
      invariant nul <= |b| && NoNul(b[..nul])
    {
      assert b[..nul + 1] == b[..nul] + [b[nul]];
      nul := nul + 1;
    }
    if nul == |b| {
      assert b[..nul] == b;
      NoName(b);
      return None;
    }
    NameRoundTrip(b[..nul], b[nul + 1..]);
    assert b == b[..nul] + [0] + b[nul + 1..];
    return Some(b[..nul]);
  }

  lemma {:induction false} NoName(b: Bytes)
    requires NoNul(b)
    ensures UntilNul(b).None?
  {
    if b != [] {
      NoName(b[1..]);
    }
  }

  /** The checked additions: on 64-bit sizes no sum of twelve 32-bit lengths overflows. */
  method TotalOf(sizes: seq<nat>) returns (total: nat)
    ensures total == Sum(sizes)
  {
    hide Sum;
    total := 0;
    for i := 0 to |sizes|
      invariant total + Sum(sizes[i..]) == Sum(sizes)
    {
      SumUnfold(sizes[i..]);
      assert sizes[i..][1..] == sizes[i + 1..];
      total := total + sizes[i];
    }
    assert sizes[|sizes|..] == [];
    SumNone();
  }

  /** The `split_at` chain: a cursor that gives up one section after the other. */
  method Carve(rest: Bytes, sizes: seq<nat>) returns (sections: seq<Bytes>, left: Bytes)
    requires Sum(sizes) <= |rest|
    ensures sections == Cut(rest, sizes) && left == rest[Sum(sizes)..]
  {
    hide Sum;
    sections, left := [], rest;
    for i := 0 to |sizes|
      invariant Sum(sizes[i..]) <= |left|
      invariant Cut(rest, sizes) == sections + Cut(left, sizes[i..])
      invariant left[Sum(sizes[i..])..] == rest[Sum(sizes)..]
    {
      SumUnfold(sizes[i..]);
      assert sizes[i..][1..] == sizes[i + 1..];
      DropDrop(left, sizes[i], Sum(sizes[i + 1..]));
      sections := sections + [left[..sizes[i]]];
      left := left[sizes[i]..];
    }
    assert sizes[|sizes|..] == [];
    SumNone();
  }

  /** The host's decoder. */
  method DecodeForwardedCmdlist(payload: Bytes, max: nat) returns (r: Option<Draw>)
    ensures r == Decode(payload, max)
  {
    if |payload| < HEADER_BYTES + TAIL_BYTES {
      return None;
    }
    DecodeMeans(payload, max);
    var tail := TailOf(BytesToWords(payload[40..120]));
    var rest := payload[120..];
    hide Admissible, Sum, Cut, Assemble, BytesToWords;
    if !Admissible(tail, max) {
      return None;
    }
    var sizes := SectionSizes(tail);
    var total := TotalOf(sizes);
    if total > |rest| {
      return None;
    }
    var sections, pix := Carve(rest, sizes);
    r := ReadSections(tail, sections, pix, max);
  }

  /** The decoder past its carving. */
  method ReadSections(tail: Tail, s: seq<Bytes>, pix: Bytes, max: nat) returns (r: Option<Draw>)
    requires |s| == 12
    ensures r == Assemble(tail, s, pix, max)
  {
    hide AttrsIn, DrawsIn, TexDescsIn, BytesToWords, ParseTextures, ParseUbos, UntilNul, DrawFrom;
    var attrs, draws, descs := ReadArrays(s[0], tail.attrCount, s[1], tail.drawCount, s[2], tail.texCount);
    var vspirv, fspirv := BytesToWords(s[3]), BytesToWords(s[4]);
    if !StartsWithMagic(vspirv) || !StartsWithMagic(fspirv) {
      return None;
    }
    var indexU32 := tail.indexType == INDEX_U32;
    if tail.indexDataLen % (if indexU32 then 4 else 2) != 0 {
      return None;
    }
    var textures := ReadTextures(descs, pix, max);
    if textures.None? {
      return None;
    }
    var uniforms := ReadUniforms(s[10], tail.uboCount, tail);
    if uniforms.None? {
      return None;
    }
    var ventry := ReadName(s[7]);
    var fentry := ReadName(s[8]);
    if ventry.None? || fentry.None? {
      return None;
    }
    r := Some(DrawFrom(tail, s, attrs, draws, vspirv, fspirv, ventry.value, fentry.value,
                       textures.value, uniforms.value));
  }
}
