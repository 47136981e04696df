/**
 Dynamic pipeline state: how the driver folds it into the flag words it forwards, and how the host
 reads those words back. Flag words are 32-bit vectors, so the shifts and masks are the code's own.
 */
module Resolve {
  import opened Words

  // Bits of the raster word.
  const CULL_MASK: bv32 := 0x3
  const FRONT_FACE_CW: bv32 := 0x4
  const BLEND: bv32 := 0x8

  // Bits of the depth word.
  const TEST: bv32 := 0x1
  const WRITE: bv32 := 0x2
  const COMPARE_SHIFT := 4
  const COMPARE_MASK: bv32 := 0x70

  // Bits of the dynamic-state masks.
  const DYN_CULL_MODE: bv32 := 0x1
  const DYN_FRONT_FACE: bv32 := 0x2
  const DYN_DEPTH_TEST: bv32 := 0x4
  const DYN_DEPTH_WRITE: bv32 := 0x8
  const DYN_DEPTH_COMPARE: bv32 := 0x10
  const DYN_TOPOLOGY: bv32 := 0x20

  datatype DepthState = DepthState(test: bool, write: bool, compare: bv32)

  // ---- The host's reading of the words ----

  predicate Has(word: bv32, mask: bv32) { word & mask != 0 }

  function Mask(a: bv32, b: bv32): bv32 { a & b }

  function Cull(raster: bv32): bv32 { raster & CULL_MASK }

  predicate Clockwise(raster: bv32) { Has(raster, FRONT_FACE_CW) }

  predicate Blends(raster: bv32) { Has(raster, BLEND) }

  function Compare(depth: bv32): bv32 { (depth & COMPARE_MASK) >> COMPARE_SHIFT }

  function HostDepth(f: bv32): Option<DepthState>
  {
    EffectiveDepth(Has(f, TEST), Has(f, WRITE), Compare(f))
  }

  /** What the host decodes from a depth word: none exactly when neither bit 0 nor bit 1 is set, else
      the test is bit 0, the write bit 1, and the comparison bits 4 to 6. */
  lemma DepthFields(f: bv32)
    ensures HostDepth(f).Some? <==> f & 0x1 != 0 || f & 0x2 != 0
    ensures HostDepth(f).Some? ==>
              && (HostDepth(f).value.test <==> f & 0x1 != 0)
              && (HostDepth(f).value.write <==> f & 0x2 != 0)
              && HostDepth(f).value.compare == (f >> 4) & 0x7
  {
  }

  /** The raster word, the same way. */
  lemma RasterFields(r: bv32)
    ensures Cull(r) == r & 0x3 && (Clockwise(r) <==> r & 0x4 != 0) && (Blends(r) <==> r & 0x8 != 0)
  {
  }

  /** A depth state, or none when nothing tests or writes. */
  function EffectiveDepth(test: bool, write: bool, compare: bv32): Option<DepthState>
  {
    if test || write then Some(DepthState(test, write, compare)) else None
  }

  lemma EffectiveMeans(test: bool, write: bool, compare: bv32)
    ensures EffectiveDepth(test, write, compare).Some? <==> test || write
    ensures test || write ==> EffectiveDepth(test, write, compare).value == DepthState(test, write, compare)
  {
  }

  function PackRaster(cull: bv32, cw: bool, blend: bool): bv32
  {
    (cull & CULL_MASK) | (if cw then FRONT_FACE_CW else 0) | (if blend then BLEND else 0)
  }

  function PackDepth(test: bool, write: bool, compare: bv32): bv32
  {
    (if test then TEST else 0) | (if write then WRITE else 0) | ((compare & 0x7) << COMPARE_SHIFT)
  }

  /** Packing and reading back are inverse, in both words. */
  lemma PackReadsBack(cull: bv32, cw: bool, blend: bool, test: bool, write: bool, compare: bv32)
    ensures var r := PackRaster(cull, cw, blend);
            Cull(r) == Mask(cull, CULL_MASK) && (Clockwise(r) <==> cw) && (Blends(r) <==> blend)
    ensures var d := PackDepth(test, write, compare);
            (Has(d, TEST) <==> test) && (Has(d, WRITE) <==> write) && Compare(d) == Mask(compare, 0x7)
  {
  }

  // ---- Resolving ----

  /** The pipeline declared the state dynamic and the application set it. */
  predicate Dynamic(dynamicMask: bv32, setMask: bv32, bit: bv32)
  {
    Has(dynamicMask, bit) && Has(setMask, bit)
  }

  /** Each state has its own bit, and both masks must have it. */
  lemma DynamicBits(d: bv32, s: bv32)
    ensures Dynamic(d, s, DYN_CULL_MODE) <==> d & 0x1 != 0 && s & 0x1 != 0
    ensures Dynamic(d, s, DYN_FRONT_FACE) <==> d & 0x2 != 0 && s & 0x2 != 0
    ensures Dynamic(d, s, DYN_DEPTH_TEST) <==> d & 0x4 != 0 && s & 0x4 != 0
    ensures Dynamic(d, s, DYN_DEPTH_WRITE) <==> d & 0x8 != 0 && s & 0x8 != 0
    ensures Dynamic(d, s, DYN_DEPTH_COMPARE) <==> d & 0x10 != 0 && s & 0x10 != 0
    ensures Dynamic(d, s, DYN_TOPOLOGY) <==> d & 0x20 != 0 && s & 0x20 != 0
  {
  }

  /** Testing one bit of the conjunction is testing it in both masks. */
  lemma BothMasks(d: bv32, s: bv32)
    ensures Dynamic(d, s, DYN_CULL_MODE) <==> Has(Mask(d, s), DYN_CULL_MODE)
    ensures Dynamic(d, s, DYN_FRONT_FACE) <==> Has(Mask(d, s), DYN_FRONT_FACE)
    ensures Dynamic(d, s, DYN_DEPTH_TEST) <==> Has(Mask(d, s), DYN_DEPTH_TEST)
    ensures Dynamic(d, s, DYN_DEPTH_WRITE) <==> Has(Mask(d, s), DYN_DEPTH_WRITE)
    ensures Dynamic(d, s, DYN_DEPTH_COMPARE) <==> Has(Mask(d, s), DYN_DEPTH_COMPARE)
    ensures Dynamic(d, s, DYN_TOPOLOGY) <==> Has(Mask(d, s), DYN_TOPOLOGY)
  {
  }

  const DYN_RASTER := DYN_CULL_MODE | DYN_FRONT_FACE
  const DYN_DEPTH := DYN_DEPTH_TEST | DYN_DEPTH_WRITE | DYN_DEPTH_COMPARE

  lemma AnyOf(dm: bv32, f: bv32)
    ensures Has(dm, DYN_RASTER) <==> Has(dm, DYN_CULL_MODE) || Has(dm, DYN_FRONT_FACE)
    ensures Has(dm, DYN_DEPTH) <==> Has(dm, DYN_DEPTH_TEST) || Has(dm, DYN_DEPTH_WRITE) || Has(dm, DYN_DEPTH_COMPARE)
    ensures Has(f, TEST | WRITE) <==> Has(f, TEST) || Has(f, WRITE)
    ensures !Has(0, TEST | WRITE)
  {
  }

  /** The driver shifts first and masks after; the host masks first. */
  function DriverCompare(depth: bv32): bv32 { (depth >> COMPARE_SHIFT) & 0x7 }

  /** Masking a masked field again changes nothing, and both ways of reading the comparison agree. */
  lemma MaskedTwice(w: bv32)
    ensures Mask(Mask(w, CULL_MASK), CULL_MASK) == Mask(w, CULL_MASK) == Cull(w)
    ensures Mask(Mask(w, 0x7), 0x7) == Mask(w, 0x7)
    ensures DriverCompare(w) == Compare(w) == Mask(Compare(w), 0x7)
  {
  }

  lemma HostReads(r: bv32, f: bv32)
    ensures (Clockwise(r) <==> Has(r, FRONT_FACE_CW)) && (Blends(r) <==> Has(r, BLEND))
    ensures HostDepth(f) == EffectiveDepth(Has(f, TEST), Has(f, WRITE), Compare(f))
    ensures HostDepth(f).None? <==> !Has(f, TEST | WRITE)
    ensures HostDepth(0).None?
  {
    AnyOf(0, f);
    AnyOf(0, 0);
    hide Has, Compare;
  }

  /** The raster part of the resolve: rebuilt from its components when any of them is overridden. */
  method ResolveRaster(staticRaster: bv32, dm: bv32, dynCull: bv32, dynFrontCw: bv32) returns (raster: bv32)
    ensures Cull(raster) == if Has(dm, DYN_CULL_MODE) then Mask(dynCull, CULL_MASK) else Cull(staticRaster)
    ensures Clockwise(raster) <==> if Has(dm, DYN_FRONT_FACE) then dynFrontCw != 0 else Clockwise(staticRaster)
    ensures Blends(raster) == Blends(staticRaster)
  {
    hide *;
    AnyOf(dm, 0);
    MaskedTwice(dynCull);
    MaskedTwice(staticRaster);
    HostReads(staticRaster, 0);
    raster := staticRaster;
    if Has(dm, DYN_RASTER) {
      var cull := Mask(staticRaster, CULL_MASK);
      var frontCw := Has(staticRaster, FRONT_FACE_CW);
      var blend := Has(staticRaster, BLEND);
      if Has(dm, DYN_CULL_MODE) {
        cull := Mask(dynCull, CULL_MASK);
      }
      if Has(dm, DYN_FRONT_FACE) {
        frontCw := dynFrontCw != 0;
      }
      raster := PackRaster(cull, frontCw, blend);
      PackReadsBack(cull, frontCw, blend, false, false, 0);
      HostReads(raster, 0);
    }
  }

  /** The host adds a depth attachment only to test or write, so a lone comparison is dropped. */
  function Strip(depth: bv32): bv32 { if !Has(depth, TEST | WRITE) then 0 else depth }

  lemma StripReads(depth: bv32)
    ensures HostDepth(Strip(depth)) == HostDepth(depth)
    ensures Strip(depth) == 0 <==> HostDepth(Strip(depth)).None?
  {
  }

  lemma PackedDepthReads(test: bool, write: bool, compare: bv32)
    requires Mask(compare, 0x7) == compare
    ensures HostDepth(PackDepth(test, write, compare)) == EffectiveDepth(test, write, compare)
  {
    PackReadsBack(0, false, false, test, write, compare);
    hide Has, Compare, PackDepth, Mask;
  }

  /** The depth part, with a lone comparison stripped at the end. */
  method ResolveDepth(staticDepth: bv32, dm: bv32, dynTest: bv32, dynWrite: bv32, dynCompare: bv32)
    returns (depth: bv32)
    ensures HostDepth(depth) == EffectiveDepth(
              if Has(dm, DYN_DEPTH_TEST) then dynTest != 0 else Has(staticDepth, TEST),
              if Has(dm, DYN_DEPTH_WRITE) then dynWrite != 0 else Has(staticDepth, WRITE),
              if Has(dm, DYN_DEPTH_COMPARE) then Mask(dynCompare, 0x7) else Compare(staticDepth))
    ensures depth == 0 <==> HostDepth(depth).None?
  {
    hide *;
    depth := staticDepth;
    HostReads(0, staticDepth);
    AnyOf(dm, 0);
    if Has(dm, DYN_DEPTH) {
      var test := if Has(dm, DYN_DEPTH_TEST) then dynTest != 0 else Has(staticDepth, TEST);
      var write := if Has(dm, DYN_DEPTH_WRITE) then dynWrite != 0 else Has(staticDepth, WRITE);
      var compare := if Has(dm, DYN_DEPTH_COMPARE) then Mask(dynCompare, 0x7) else DriverCompare(staticDepth);
      depth := PackDepth(test, write, compare);
      assert HostDepth(depth) == EffectiveDepth(test, write, compare) by {
        MaskedTwice(dynCompare);
        MaskedTwice(staticDepth);
        PackedDepthReads(test, write, compare);
      }
      MaskedTwice(staticDepth);
    }
    StripReads(depth);
    depth := Strip(depth);
  }

  /** Each state the host decodes is the dynamic value where both masks have its bit and the static
      one elsewhere; blend is always static. The depth word is zero exactly when the host will add
      no depth attachment. */
  method ResolveForwardedState(
    staticRaster: bv32, staticDepth: bv32, staticTopology: bv32, dynamicMask: bv32, setMask: bv32,
    dynCull: bv32, dynFrontCw: bv32, dynTest: bv32, dynWrite: bv32, dynCompare: bv32, dynTopology: bv32)
    returns (raster: bv32, depth: bv32, topology: bv32)
    ensures Cull(raster) ==
            if Dynamic(dynamicMask, setMask, DYN_CULL_MODE) then Mask(dynCull, CULL_MASK) else Cull(staticRaster)
    ensures Clockwise(raster) <==>
            if Dynamic(dynamicMask, setMask, DYN_FRONT_FACE) then dynFrontCw != 0 else Clockwise(staticRaster)
    ensures Blends(raster) == Blends(staticRaster)
    ensures HostDepth(depth).Some? <==>
            || (if Dynamic(dynamicMask, setMask, DYN_DEPTH_TEST) then dynTest != 0 else Has(staticDepth, TEST))
            || (if Dynamic(dynamicMask, setMask, DYN_DEPTH_WRITE) then dynWrite != 0 else Has(staticDepth, WRITE))
    ensures HostDepth(depth).Some? ==>
              && (HostDepth(depth).value.test <==>
                  if Dynamic(dynamicMask, setMask, DYN_DEPTH_TEST) then dynTest != 0 else Has(staticDepth, TEST))
              && (HostDepth(depth).value.write <==>
                  if Dynamic(dynamicMask, setMask, DYN_DEPTH_WRITE) then dynWrite != 0 else Has(staticDepth, WRITE))
              && HostDepth(depth).value.compare ==
                 (if Dynamic(dynamicMask, setMask, DYN_DEPTH_COMPARE) then Mask(dynCompare, 0x7)
                  else Compare(staticDepth))
    ensures depth == 0 <==> HostDepth(depth).None?
    ensures topology == if Dynamic(dynamicMask, setMask, DYN_TOPOLOGY) then dynTopology else staticTopology
  {
    hide *;
    var dm := Mask(dynamicMask, setMask);
    BothMasks(dynamicMask, setMask);
    raster := ResolveRaster(staticRaster, dm, dynCull, dynFrontCw);
    depth := ResolveDepth(staticDepth, dm, dynTest, dynWrite, dynCompare);
    topology := if Has(dm, DYN_TOPOLOGY) then dynTopology else staticTopology;
    EffectiveMeans(
      if Has(dm, DYN_DEPTH_TEST) then dynTest != 0 else Has(staticDepth, TEST),
      if Has(dm, DYN_DEPTH_WRITE) then dynWrite != 0 else Has(staticDepth, WRITE),
      if Has(dm, DYN_DEPTH_COMPARE) then Mask(dynCompare, 0x7) else Compare(staticDepth));
  }
}
