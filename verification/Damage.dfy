/**
 The persistent BGRA scanout surface and the damaged present that patches it. Guest memory is a
 `Dma.Ram`; the surface is one flat byte array, row after row.
 */
module Damage {
  import opened Words
  import Dma

  const R8G8B8A8: u32 := 2
  const MAX_FB_BYTES: nat := 0x400_0000

  /** `ScanoutPresentDamaged`. */
  datatype Request = Request(w: u32, h: u32, pitch: u32, format: u32, addr: u64, dx: u32, dy: u32, dw: u32, dh: u32)

  datatype Rect = Rect(x: nat, y: nat, w: nat, h: nat)

  // ---- Geometry ----

  /** `k * y`, by repeated addition. */
  function Stride(k: nat, y: nat): nat
  {
    if y == 0 then 0 else Stride(k, y - 1) + k
  }

  lemma {:induction false} StrideIsProduct(k: nat, y: nat)
    ensures Stride(k, y) == k * y
  {
    if y > 0 {
      StrideIsProduct(k, y - 1);
      assert k * y == k * (y - 1) + k;
    }
  }

  lemma {:induction false} StrideGrows(k: nat, a: nat, b: nat)
    requires a < b
    ensures Stride(k, a) + k <= Stride(k, b)
    decreases b
  {
    if a < b - 1 {
      StrideGrows(k, a, b - 1);
    }
  }

  /** The present's fail-closed geometry guard. */
  predicate GoodGeometry(q: Request)
  {
    q.w != 0 && q.h != 0 && q.pitch >= 4 * q.w && Stride(q.pitch, q.h) <= MAX_FB_BYTES
  }

  /** `clamp_damage`. */
  function ClampDamage(w: nat, h: nat, dx: nat, dy: nat, dw: nat, dh: nat): Rect
  {
    var x, y := Min(dx, w), Min(dy, h);
    Rect(x, y, Min(dw, w - x), Min(dh, h - y))
  }

  predicate InRect(r: Rect, x: int, y: int)
  {
    r.x <= x < r.x + r.w && r.y <= y < r.y + r.h
  }

  /** The clamped rect stays inside the frame, and inside the frame it is the rect the guest
      reported. */
  lemma ClampIsIntersection(w: nat, h: nat, dx: nat, dy: nat, dw: nat, dh: nat)
    ensures var r := ClampDamage(w, h, dx, dy, dw, dh);
            && r.x + r.w <= w && r.y + r.h <= h
            && forall x, y :: 0 <= x < w && 0 <= y < h ==>
                 (InRect(r, x, y) <==> dx <= x < dx + dw && dy <= y < dy + dh)
  {
  }

  function Clamped(q: Request): Rect
  {
    ClampDamage(q.w, q.h, q.dx, q.dy, q.dw, q.dh)
  }

  // ---- Pixel conversion ----

  /** Byte `i` of a converted row: opaque alpha, and R and B exchanged unless the source is
      already in BGR order. */
  function ConvertedByte(src: seq<byte>, isCopy: bool, i: nat): byte
    requires i < |src| && |src| % 4 == 0
  {
    if i % 4 == 3 then 255
    else if isCopy || i % 4 == 1 then src[i]
    else if i % 4 == 0 then src[i + 2]
    else src[i - 2]
  }

  function Converted(src: seq<byte>, isCopy: bool): (dst: seq<byte>)
    requires |src| % 4 == 0
    ensures |dst| == |src|
  {
    seq(|src|, i requires 0 <= i < |src| => ConvertedByte(src, isCopy, i))
  }

  /** Conversion is per pixel: it commutes with taking whole pixels out of a row. */
  lemma ConvertedSlice(src: seq<byte>, isCopy: bool, a: nat, b: nat)
    requires |src| % 4 == 0 && a <= b && 4 * b <= |src|
    ensures Converted(src[4 * a..4 * b], isCopy) == Converted(src, isCopy)[4 * a..4 * b]
  {
    var part := src[4 * a..4 * b];
    forall i | 0 <= i < |part|
      ensures Converted(part, isCopy)[i] == Converted(src, isCopy)[4 * a + i]
    {
      ConvertedByteShift(src, isCopy, a, b, i);
      hide ConvertedByte;
    }
    hide Converted;
  }

  lemma ConvertedByteShift(src: seq<byte>, isCopy: bool, a: nat, b: nat, i: nat)
    requires |src| % 4 == 0 && a <= b && 4 * b <= |src| && i < 4 * (b - a)
    ensures ConvertedByte(src[4 * a..4 * b], isCopy, i) == ConvertedByte(src, isCopy, 4 * a + i)
  {
    var q, r := i / 4, i % 4;
    assert i == 4 * q + r && 4 * a + i == 4 * (a + q) + r;
    assert (4 * a + i) % 4 == r;
  }

  predicate IsCopy(q: Request)
  {
    q.format != R8G8B8A8
  }

  // ---- The guest's frame ----

  function PixelAddr(q: Request, y: nat, i: nat): u64
  {
    Wrap64(q.addr + Stride(q.pitch, y) + i)
  }

  /** Row `y` of the guest's framebuffer, visible pixels only. */
  function FrameRow(ram: Dma.Ram, q: Request, y: nat): (row: seq<byte>)
    ensures |row| == 4 * q.w
  {
    seq(4 * q.w, i requires 0 <= i < 4 * q.w => Dma.Peek(ram, PixelAddr(q, y, i)))
  }

  /** What the surface's row `y` should hold: the full conversion of the frame's. */
  function TargetRow(ram: Dma.Ram, q: Request, y: nat): (row: seq<byte>)
    ensures |row| == 4 * q.w
  {
    Converted(FrameRow(ram, q, y), IsCopy(q))
  }

  /** Pixels `[x, x + n)` of row `y`, read as the incremental path reads them. */
  function ReadPixels(ram: Dma.Ram, q: Request, y: nat, x: nat, n: nat): Option<seq<byte>>
  {
    Dma.Read(ram, PixelAddr(q, y, 4 * x), 4 * n)
  }

  lemma PixelsReadAreTheRows(ram: Dma.Ram, q: Request, y: nat, x: nat, n: nat)
    requires Dma.Good(ram) && x + n <= q.w && ReadPixels(ram, q, y, x, n).Some?
    ensures ReadPixels(ram, q, y, x, n).value == FrameRow(ram, q, y)[4 * x..4 * (x + n)]
  {
    hide Dma.Good, Dma.Peek, Wrap64;
    var a := PixelAddr(q, y, 4 * x);
    var bs := Dma.Read(ram, a, 4 * n).value;
    forall i | 0 <= i < 4 * n ensures |bs| == 4 * n && bs[i] == FrameRow(ram, q, y)[4 * x + i] {
      Dma.ReadIsPeek(ram, a, 4 * n, i);
      Wrap64Offset(q.addr + Stride(q.pitch, y) + 4 * x, i);
    }
    if n == 0 {
      assert Dma.Read(ram, a, 0).value == [];
    }
  }

  lemma FrameReadIsTheRows(ram: Dma.Ram, q: Request, y: nat)
    requires Dma.Good(ram) && GoodGeometry(q) && y < q.h
    requires Dma.Read(ram, q.addr, Stride(q.pitch, q.h)).Some?
    ensures var buf := Dma.Read(ram, q.addr, Stride(q.pitch, q.h)).value;
            var o := Stride(q.pitch, y);
            o + 4 * q.w <= |buf| && buf[o..o + 4 * q.w] == FrameRow(ram, q, y)
  {
    var n, o := Stride(q.pitch, q.h), Stride(q.pitch, y);
    var buf := Dma.Read(ram, q.addr, n).value;
    StrideGrows(q.pitch, y, q.h);
    Dma.ReadIsPeek(ram, q.addr, n, o);
    forall i | 0 <= i < 4 * q.w ensures buf[o + i] == FrameRow(ram, q, y)[i] {
      FrameReadByte(ram, q, y, i);
    }
    hide Dma.Good, Dma.Read, Stride, FrameRow;
    assert buf[o..o + 4 * q.w] == FrameRow(ram, q, y);
  }

  lemma RowInside(q: Request, y: nat)
    requires GoodGeometry(q) && y < q.h
    ensures Stride(q.pitch, y) + 4 * q.w <= Stride(q.pitch, q.h)
  {
    StrideGrows(q.pitch, y, q.h);
  }

  lemma FrameRowAt(ram: Dma.Ram, q: Request, y: nat, i: nat)
    requires i < 4 * q.w
    ensures FrameRow(ram, q, y)[i] == Dma.Peek(ram, Wrap64(q.addr + (Stride(q.pitch, y) + i)))
  {
    assert q.addr + (Stride(q.pitch, y) + i) == q.addr + Stride(q.pitch, y) + i;
    hide Dma.Peek, Stride, Wrap64;
  }

  lemma FrameReadByte(ram: Dma.Ram, q: Request, y: nat, i: nat)
    requires Dma.Good(ram) && GoodGeometry(q) && y < q.h && i < 4 * q.w
    requires Dma.Read(ram, q.addr, Stride(q.pitch, q.h)).Some?
    ensures var buf := Dma.Read(ram, q.addr, Stride(q.pitch, q.h)).value;
            var k := Stride(q.pitch, y) + i;
            k < |buf| && buf[k] == FrameRow(ram, q, y)[i]
  {
    hide *;
    var k := Stride(q.pitch, y) + i;
    RowInside(q, y);
    FrameRowAt(ram, q, y, i);
    Dma.ReadIsPeek(ram, q.addr, Stride(q.pitch, q.h), k);
    Wrap64Small(q.addr + k);
  }

  lemma TargetOf(ram: Dma.Ram, q: Request, y: nat, row: seq<byte>)
    requires row == FrameRow(ram, q, y)
    ensures |row| == 4 * q.w && Converted(row, IsCopy(q)) == TargetRow(ram, q, y)
  {
  }

  /** Converting the pixels the incremental path read gives the target row's. */
  lemma TargetPixels(ram: Dma.Ram, q: Request, y: nat, r: Rect, px: seq<byte>)
    requires Dma.Good(ram) && r.x + r.w <= q.w && ReadPixels(ram, q, y, r.x, r.w) == Some(px)
    requires |px| == 4 * r.w && |px| % 4 == 0
    ensures Converted(px, IsCopy(q)) == TargetRow(ram, q, y)[4 * r.x..4 * (r.x + r.w)]
  {
    PixelsReadAreTheRows(ram, q, y, r.x, r.w);
    ConvertedSlice(FrameRow(ram, q, y), IsCopy(q), r.x, r.x + r.w);
    hide Dma.Good, ReadPixels, FrameRow, Converted;
  }

  lemma PixelsLength(ram: Dma.Ram, q: Request, y: nat, x: nat, n: nat)
    requires ReadPixels(ram, q, y, x, n).Some?
    ensures |ReadPixels(ram, q, y, x, n).value| == 4 * n
    ensures |ReadPixels(ram, q, y, x, n).value| % 4 == 0
  {
    hide Dma.Resolve;
  }

  // ---- Surfaces ----

  datatype Surface = Surface(w: nat, h: nat, bgra: seq<byte>)

  predicate Shaped(s: Surface)
  {
    |s.bgra| == Stride(4 * s.w, s.h)
  }

  function Row(s: Surface, y: nat): (row: seq<byte>)
    requires Shaped(s) && y < s.h
    ensures |row| == 4 * s.w
  {
    StrideGrows(4 * s.w, y, s.h);
    var o := Stride(4 * s.w, y);
    s.bgra[o..o + 4 * s.w]
  }

  predicate Fits(s: Surface, q: Request)
  {
    Shaped(s) && s.w == q.w && s.h == q.h
  }

  /** The surface is the full BGRA conversion of the frame the request names. */
  ghost predicate ShowsFrame(s: Surface, ram: Dma.Ram, q: Request)
    requires Fits(s, q)
  {
    forall y :: 0 <= y < q.h ==> Row(s, y) == TargetRow(ram, q, y)
  }

  /** `now` is `was` with exactly the pixels of `r` replaced by the frame's converted ones. */
  ghost predicate Patched(was: Surface, now: Surface, ram: Dma.Ram, q: Request, r: Rect)
    requires Fits(was, q) && Fits(now, q) && r.x + r.w <= q.w
  {
    forall y :: 0 <= y < q.h ==>
      Row(now, y) == if r.y <= y < r.y + r.h then SplicedRow(Row(was, y), TargetRow(ram, q, y), r) else Row(was, y)
  }

  function SplicedRow(was: seq<byte>, target: seq<byte>, r: Rect): (row: seq<byte>)
    requires |was| == |target| && 4 * (r.x + r.w) <= |was|
    ensures |row| == |was|
  {
    was[..4 * r.x] + target[4 * r.x..4 * (r.x + r.w)] + was[4 * (r.x + r.w)..]
  }

  /** Outside `r` the surface already shows the frame. */
  ghost predicate CleanOutside(was: Surface, ram: Dma.Ram, q: Request, r: Rect)
    requires Fits(was, q)
  {
    forall y, i :: 0 <= y < q.h && 0 <= i < 4 * q.w && !InRect(r, i / 4, y) ==>
      Row(was, y)[i] == TargetRow(ram, q, y)[i]
  }

  /** Incremental refines full, exactly: after the patch the surface is the full conversion of the
      new frame if and only if the frame differed from the old surface only inside the rect. */
  lemma PatchShowsFrameIff(was: Surface, now: Surface, ram: Dma.Ram, q: Request, r: Rect)
    requires Fits(was, q) && Fits(now, q) && r.x + r.w <= q.w && r.y + r.h <= q.h
    requires Patched(was, now, ram, q, r)
    ensures ShowsFrame(now, ram, q) <==> CleanOutside(was, ram, q, r)
  {
    if CleanOutside(was, ram, q, r) {
      forall y | 0 <= y < q.h ensures Row(now, y) == TargetRow(ram, q, y) {
        CleanRowShows(was, now, ram, q, r, y);
      }
    }
    if ShowsFrame(now, ram, q) {
      forall y, i | 0 <= y < q.h && 0 <= i < 4 * q.w && !InRect(r, i / 4, y)
        ensures Row(was, y)[i] == TargetRow(ram, q, y)[i]
      {
        assert Row(now, y)[i] == TargetRow(ram, q, y)[i];
      }
    }
  }

  lemma CleanRowShows(was: Surface, now: Surface, ram: Dma.Ram, q: Request, r: Rect, y: nat)
    requires Fits(was, q) && Fits(now, q) && r.x + r.w <= q.w && y < q.h
    requires Patched(was, now, ram, q, r) && CleanOutside(was, ram, q, r)
    ensures Row(now, y) == TargetRow(ram, q, y)
  {
    hide Row, TargetRow, Stride;
    var target := TargetRow(ram, q, y);
    forall i | 0 <= i < 4 * q.w ensures Row(now, y)[i] == target[i] {
      if !InRect(r, i / 4, y) {
        assert Row(was, y)[i] == target[i];
      }
    }
    assert |Row(now, y)| == |target|;
  }

  // ---- Pixel by pixel ----

  lemma PixelInside(w: nat, h: nat, x: nat, y: nat)
    requires x < w && y < h
    ensures 4 * (w * y + x) + 4 <= Stride(4 * w, h)
    ensures Stride(4 * w, y) + 4 * x == 4 * (w * y + x)
  {
    StrideIsProduct(4 * w, y);
    StrideGrows(4 * w, y, h);
    assert 4 * w * y == 4 * (w * y);
  }

  /** The four bytes of the surface's pixel. */
  function Pixel(s: Surface, x: nat, y: nat): (p: seq<byte>)
    requires Shaped(s) && x < s.w && y < s.h
    ensures |p| == 4
  {
    PixelInside(s.w, s.h, x, y);
    var o := 4 * (s.w * y + x);
    s.bgra[o..o + 4]
  }

  /** Byte `k` of the guest's pixel. */
  function FrameByte(ram: Dma.Ram, q: Request, x: nat, y: nat, k: nat): byte
  {
    Dma.Peek(ram, Wrap64(q.addr + q.pitch * y + 4 * x + k))
  }

  /** The surface's pixel is the guest's, opaque: in the guest's byte order, or with bytes 0 and 2
      exchanged when the format is R8G8B8A8. */
  predicate PixelShown(s: Surface, ram: Dma.Ram, q: Request, x: nat, y: nat)
    requires Fits(s, q) && x < q.w && y < q.h
  {
    var b0, b1, b2 := FrameByte(ram, q, x, y, 0), FrameByte(ram, q, x, y, 1), FrameByte(ram, q, x, y, 2);
    Pixel(s, x, y) == if q.format == 2 then [b2, b1, b0, 255] else [b0, b1, b2, 255]
  }

  lemma RowPixel(s: Surface, x: nat, y: nat)
    requires Shaped(s) && x < s.w && y < s.h
    ensures Row(s, y)[4 * x..4 * x + 4] == Pixel(s, x, y)
  {
    PixelInside(s.w, s.h, x, y);
    StrideGrows(4 * s.w, y, s.h);
    hide Stride;
    var o := Stride(4 * s.w, y);
    SliceOfSlice(s.bgra, o, 4 * s.w, 4 * x, 4);
  }

  lemma SliceOfSlice(s: seq<byte>, o: nat, n: nat, a: nat, k: nat)
    requires o + n <= |s| && a + k <= n
    ensures s[o..o + n][a..a + k] == s[o + a..o + a + k]
  {
    var part, whole := s[o..o + n][a..a + k], s[o + a..o + a + k];
    forall i | 0 <= i < k ensures part[i] == whole[i] {
    }
  }

  lemma FrameByteAt(ram: Dma.Ram, q: Request, x: nat, y: nat, k: nat)
    requires x < q.w && k < 4
    ensures FrameRow(ram, q, y)[4 * x + k] == FrameByte(ram, q, x, y, k)
  {
    StrideIsProduct(q.pitch, y);
    FrameRowAt(ram, q, y, 4 * x + k);
    hide Stride, Wrap64, Dma.Peek;
    assert q.addr + (q.pitch * y + (4 * x + k)) == q.addr + q.pitch * y + 4 * x + k;
  }

  lemma ConvertedPixel(src: seq<byte>, isCopy: bool, x: nat)
    requires |src| % 4 == 0 && 4 * x + 4 <= |src|
    ensures Converted(src, isCopy)[4 * x..4 * x + 4] ==
            if isCopy then [src[4 * x], src[4 * x + 1], src[4 * x + 2], 255]
            else [src[4 * x + 2], src[4 * x + 1], src[4 * x], 255]
  {
    ConvertedSlice(src, isCopy, x, x + 1);
    var p := src[4 * x..4 * x + 4];
    assert p[0] == src[4 * x] && p[1] == src[4 * x + 1] && p[2] == src[4 * x + 2];
    assert 4 * (x + 1) == 4 * x + 4;
  }

  /** Row `y` agrees with its target on pixel `x` exactly when the pixel is shown. */
  lemma PixelShownIff(s: Surface, ram: Dma.Ram, q: Request, x: nat, y: nat)
    requires Fits(s, q) && x < q.w && y < q.h
    ensures PixelShown(s, ram, q, x, y) <==>
            Row(s, y)[4 * x..4 * x + 4] == TargetRow(ram, q, y)[4 * x..4 * x + 4]
  {
    RowPixel(s, x, y);
    TargetPixel(ram, q, x, y);
    hide Row, TargetRow, FrameByte, Pixel, Stride, Shaped;
  }

  lemma FramePixel(ram: Dma.Ram, q: Request, x: nat, y: nat)
    requires x < q.w
    ensures var row := FrameRow(ram, q, y);
            && row[4 * x] == FrameByte(ram, q, x, y, 0)
            && row[4 * x + 1] == FrameByte(ram, q, x, y, 1)
            && row[4 * x + 2] == FrameByte(ram, q, x, y, 2)
  {
    hide *;
    FrameByteAt(ram, q, x, y, 0);
    FrameByteAt(ram, q, x, y, 1);
    FrameByteAt(ram, q, x, y, 2);
  }

  lemma TargetPixel(ram: Dma.Ram, q: Request, x: nat, y: nat)
    requires x < q.w
    ensures var b0, b1, b2 := FrameByte(ram, q, x, y, 0), FrameByte(ram, q, x, y, 1), FrameByte(ram, q, x, y, 2);
            TargetRow(ram, q, y)[4 * x..4 * x + 4] == if q.format == 2 then [b2, b1, b0, 255] else [b0, b1, b2, 255]
  {
    hide *;
    FramePixel(ram, q, x, y);
    TargetIs(ram, q, y);
    ConvertedPixel(FrameRow(ram, q, y), q.format != 2, x);
  }

  lemma TargetIs(ram: Dma.Ram, q: Request, y: nat)
    ensures TargetRow(ram, q, y) == Converted(FrameRow(ram, q, y), q.format != 2)
  {
    hide Converted, FrameRow;
  }

  lemma PixelsAreRow(a: seq<byte>, b: seq<byte>, w: nat)
    requires |a| == |b| == 4 * w
    requires forall x :: 0 <= x < w ==> a[4 * x..4 * x + 4] == b[4 * x..4 * x + 4]
    ensures a == b
  {
    forall i | 0 <= i < |a| ensures a[i] == b[i] {
      var x := i / 4;
      assert i == 4 * x + i % 4;
      assert a[4 * x..4 * x + 4][i % 4] == a[i] && b[4 * x..4 * x + 4][i % 4] == b[i];
    }
  }

  /** The surface shows the frame exactly when it shows each of its pixels. */
  lemma ShowsFrameIff(s: Surface, ram: Dma.Ram, q: Request)
    requires Fits(s, q)
    ensures ShowsFrame(s, ram, q) <==>
            forall x: nat, y: nat :: x < q.w && y < q.h ==> PixelShown(s, ram, q, x, y)
  {
    hide Row, TargetRow, PixelShown, Stride, Shaped;
    if ShowsFrame(s, ram, q) {
      forall x: nat, y: nat | x < q.w && y < q.h ensures PixelShown(s, ram, q, x, y) {
        PixelShownIff(s, ram, q, x, y);
      }
    }
    if forall x: nat, y: nat :: x < q.w && y < q.h ==> PixelShown(s, ram, q, x, y) {
      forall y | 0 <= y < q.h ensures Row(s, y) == TargetRow(ram, q, y) {
        forall x | 0 <= x < q.w
          ensures Row(s, y)[4 * x..4 * x + 4] == TargetRow(ram, q, y)[4 * x..4 * x + 4]
        {
          PixelShownIff(s, ram, q, x, y);
        }
        PixelsAreRow(Row(s, y), TargetRow(ram, q, y), q.w);
      }
    }
  }

  /** What a patch does, pixel by pixel: inside the rect the frame's pixels, outside the old ones. */
  lemma PatchedPixel(was: Surface, now: Surface, ram: Dma.Ram, q: Request, r: Rect, x: nat, y: nat)
    requires Fits(was, q) && Fits(now, q) && r.x + r.w <= q.w && Patched(was, now, ram, q, r)
    requires x < q.w && y < q.h
    ensures if InRect(r, x, y) then PixelShown(now, ram, q, x, y) else Pixel(now, x, y) == Pixel(was, x, y)
  {
    RowPixel(was, x, y);
    RowPixel(now, x, y);
    PixelShownIff(now, ram, q, x, y);
    var old_, target := Row(was, y), TargetRow(ram, q, y);
    hide Row, TargetRow, PixelShown, Pixel, Stride;
    if r.y <= y < r.y + r.h {
      SplicedPixel(old_, target, r, x);
    }
  }

  lemma PatchedPixels(was: Surface, now: Surface, ram: Dma.Ram, q: Request, r: Rect)
    requires Fits(was, q) && Fits(now, q) && r.x + r.w <= q.w && Patched(was, now, ram, q, r)
    ensures forall x: nat, y: nat :: x < q.w && y < q.h ==>
              if InRect(r, x, y) then PixelShown(now, ram, q, x, y) else Pixel(now, x, y) == Pixel(was, x, y)
  {
    forall x: nat, y: nat | x < q.w && y < q.h
      ensures if InRect(r, x, y) then PixelShown(now, ram, q, x, y) else Pixel(now, x, y) == Pixel(was, x, y)
    {
      PatchedPixel(was, now, ram, q, r, x, y);
    }
    hide *;
  }

  lemma SplicedPixel(was: seq<byte>, target: seq<byte>, r: Rect, x: nat)
    requires |was| == |target| && 4 * (r.x + r.w) <= |was| && 4 * x + 4 <= |was|
    ensures SplicedRow(was, target, r)[4 * x..4 * x + 4] ==
            (if r.x <= x < r.x + r.w then target else was)[4 * x..4 * x + 4]
  {
  }

  // ---- The device's code ----

  class Scanout {
    var last: bool            // `last_scanout` is `Some`
    var w: nat
    var h: nat
    var bgra: array<byte>

    ghost predicate Valid()
      reads this, bgra
    {
      last ==> Shaped(Value())
    }

    ghost function Value(): Surface
      reads this, bgra
    {
      Surface(w, h, bgra[..])
    }

    constructor ()
      ensures Valid() && !last && fresh(bgra)
    {
      last, w, h := false, 0, 0;
      bgra := new byte[0];
    }

    /** `need_full`: whole-frame damage, or no surface of these dimensions. */
    predicate NeedFull(q: Request)
      reads this
    {
      var r := Clamped(q);
      (r.x == 0 && r.y == 0 && r.w == q.w && r.h == q.h) || !(last && w == q.w && h == q.h)
    }

    /** Every DMA read the present will issue succeeds. */
    predicate Readable(ram: Dma.Ram, q: Request)
      reads this
    {
      var r := Clamped(q);
      if NeedFull(q) then Dma.Read(ram, q.addr, Stride(q.pitch, q.h)).Some?
      else r.w > 0 && r.h > 0 ==>
             forall y :: r.y <= y < r.y + r.h ==> ReadPixels(ram, q, y, r.x, r.w).Some?
    }

    /** `swizzle_row_to_bgra`, in place on the bytes from `o` on: a row copy and a stride-4 alpha
        fill, or a per-pixel exchange. */
    method SwizzleRow(o: nat, src: seq<byte>, isCopy: bool)
      requires o + |src| <= bgra.Length && |src| % 4 == 0
      modifies bgra
      ensures bgra[..] == Spliced(old(bgra[..]), o, Converted(src, isCopy))
    {
      if isCopy {
        CopyRow(o, src);
        FillAlpha(o, src);
      } else {
        ExchangeRow(o, src);
      }
      assert bgra[..] == Spliced(old(bgra[..]), o, Converted(src, isCopy));
    }

    method CopyRow(o: nat, src: seq<byte>)
      requires o + |src| <= bgra.Length
      modifies bgra
      ensures forall k :: 0 <= k < bgra.Length ==>
                bgra[k] == if o <= k < o + |src| then src[k - o] else old(bgra[k])
    {
      for i := 0 to |src|
        invariant forall k :: 0 <= k < bgra.Length ==>
                    bgra[k] == if o <= k < o + i then src[k - o] else old(bgra[k])
      {
        bgra[o + i] := src[i];
      }
    }

    method FillAlpha(o: nat, src: seq<byte>)
      requires o + |src| <= bgra.Length && |src| % 4 == 0
      requires forall i :: 0 <= i < |src| ==> bgra[o + i] == src[i]
      modifies bgra
      ensures forall i :: 0 <= i < |src| ==> bgra[o + i] == ConvertedByte(src, true, i)
      ensures forall k :: 0 <= k < bgra.Length && !(o <= k < o + |src|) ==> bgra[k] == old(bgra[k])
    {
      var a := 3;
      while a < |src|
        invariant a % 4 == 3 && a <= |src| + 3
        invariant forall i :: 0 <= i < |src| ==>
                    bgra[o + i] == if i < a - 3 then ConvertedByte(src, true, i) else src[i]
        invariant forall k :: 0 <= k < bgra.Length && !(o <= k < o + |src|) ==> bgra[k] == old(bgra[k])
        decreases |src| - a
      {
        bgra[o + a] := 255;
        a := a + 4;
      }
    }

    method ExchangeRow(o: nat, src: seq<byte>)
      requires o + |src| <= bgra.Length && |src| % 4 == 0
      modifies bgra
      ensures forall i :: 0 <= i < |src| ==> bgra[o + i] == ConvertedByte(src, false, i)
      ensures forall k :: 0 <= k < bgra.Length && !(o <= k < o + |src|) ==> bgra[k] == old(bgra[k])
    {
      var i := 0;
      while i < |src|
        invariant 0 <= i <= |src| && i % 4 == 0
        invariant forall j :: 0 <= j < i ==> bgra[o + j] == ConvertedByte(src, false, j)
        invariant forall k :: 0 <= k < bgra.Length && !(o <= k < o + |src|) ==> bgra[k] == old(bgra[k])
      {
        bgra[o + i] := src[i + 2];
        bgra[o + i + 1] := src[i + 1];
        bgra[o + i + 2] := src[i];
        bgra[o + i + 3] := 255;
        i := i + 4;
      }
    }

    /** Convert every row of a framebuffer that has been read. */
    method ConvertRows(ghost ram: Dma.Ram, q: Request, buf: seq<byte>)
      requires Fits(Value(), q) && Dma.Good(ram) && GoodGeometry(q)
      requires Dma.Read(ram, q.addr, Stride(q.pitch, q.h)) == Some(buf)
      modifies bgra
      ensures Fits(Value(), q) && ShowsFrame(Value(), ram, q)
    {
      hide Dma.Good, Dma.Read, TargetRow, Row, GoodGeometry;
      var y := 0;
      while y < q.h
        invariant 0 <= y <= q.h && Fits(Value(), q)
        invariant forall z :: 0 <= z < y ==> Row(Value(), z) == TargetRow(ram, q, z)
      {
        ghost var before := Value();
        var o := Stride(q.pitch, y);
        FrameReadIsTheRows(ram, q, y);
        var row := buf[o..o + 4 * q.w];
        TargetOf(ram, q, y, row);
        StrideGrows(4 * q.w, y, q.h);
        SwizzleRow(Stride(4 * q.w, y), row, IsCopy(q));
        WholeRowWritten(before, Value(), y, TargetRow(ram, q, y));
        y := y + 1;
      }
    }

    /** Full rebuild: one framebuffer-sized read, then every row. */
    method Rebuild(ram: Dma.Ram, q: Request) returns (ok: bool)
      requires Valid() && Dma.Good(ram) && GoodGeometry(q)
      modifies this, bgra
      ensures Valid()
      ensures ok <==> Dma.Read(ram, q.addr, Stride(q.pitch, q.h)).Some?
      ensures !ok ==> last == old(last) && bgra == old(bgra) && Value() == old(Value())
      ensures ok ==> last && Fits(Value(), q) && ShowsFrame(Value(), ram, q)
      ensures bgra == old(bgra) || fresh(bgra)
    {
      var read := Dma.Read(ram, q.addr, Stride(q.pitch, q.h));
      if read.None? {
        return false;
      }
      hide Dma.Good, Dma.Read, ShowsFrame, GoodGeometry;
      if !(last && w == q.w && h == q.h) {
        bgra := new byte[Stride(4 * q.w, q.h)];
      }
      w, h, last := q.w, q.h, true;
      ConvertRows(ram, q, read.value);
      return true;
    }

    /** Read every damaged row into a scratch. */
    method ReadRows(ram: Dma.Ram, q: Request, r: Rect) returns (rows: Option<seq<seq<byte>>>)
      ensures rows.Some? <==> forall y :: r.y <= y < r.y + r.h ==> ReadPixels(ram, q, y, r.x, r.w).Some?
      ensures rows.Some? ==> |rows.value| == r.h
      ensures rows.Some? ==> forall j :: 0 <= j < r.h ==> ReadPixels(ram, q, r.y + j, r.x, r.w) == Some(rows.value[j])
    {
      hide ReadPixels;
      var got: seq<seq<byte>> := [];
      for k := 0 to r.h
        invariant |got| == k
        invariant forall j :: 0 <= j < k ==> ReadPixels(ram, q, r.y + j, r.x, r.w) == Some(got[j])
      {
        var read := ReadPixels(ram, q, r.y + k, r.x, r.w);
        if read.None? {
          return None;
        }
        got := got + [read.value];
      }
      forall y | r.y <= y < r.y + r.h ensures ReadPixels(ram, q, y, r.x, r.w).Some? {
        assert ReadPixels(ram, q, r.y + (y - r.y), r.x, r.w) == Some(got[y - r.y]);
      }
      return Some(got);
    }

    /** Incremental: read every damaged row first, patch the surface only once all reads have
        succeeded. */
    method PatchRect(ram: Dma.Ram, q: Request, r: Rect) returns (ok: bool)
      requires Valid() && last && Fits(Value(), q) && Dma.Good(ram)
      requires r.x + r.w <= q.w && r.y + r.h <= q.h
      modifies bgra
      ensures Valid() && Fits(Value(), q)
      ensures ok <==> forall y :: r.y <= y < r.y + r.h ==> ReadPixels(ram, q, y, r.x, r.w).Some?
      ensures !ok ==> Value() == old(Value())
      ensures ok ==> Patched(old(Value()), Value(), ram, q, r)
    {
      var rows := ReadRows(ram, q, r);
      if rows.None? {
        return false;
      }
      NothingPatched(Value(), ram, q, r.(h := 0));
      hide Dma.Good, TargetRow, Row, Patched, ReadPixels;
      var k := 0;
      while k < r.h
        invariant 0 <= k <= r.h && Fits(Value(), q)
        invariant Patched(old(Value()), Value(), ram, q, r.(h := k))
      {
        PatchRow(old(Value()), ram, q, r, k, rows.value[k]);
        k := k + 1;
      }
      return true;
    }

    /** Convert one damaged row into place. */
    method PatchRow(ghost was: Surface, ghost ram: Dma.Ram, q: Request, r: Rect, k: nat, px: seq<byte>)
      requires Fits(was, q) && Fits(Value(), q) && Dma.Good(ram)
      requires r.x + r.w <= q.w && r.y + r.h <= q.h && k < r.h
      requires ReadPixels(ram, q, r.y + k, r.x, r.w) == Some(px)
      requires Patched(was, Value(), ram, q, r.(h := k))
      modifies bgra
      ensures Fits(Value(), q) && Patched(was, Value(), ram, q, r.(h := k + 1))
    {
      hide Dma.Good, TargetRow, Row, Patched, ReadPixels;
      ghost var before := Value();
      var y := r.y + k;
      PixelsLength(ram, q, y, r.x, r.w);
      TargetPixels(ram, q, y, r, px);
      StrideGrows(4 * q.w, y, q.h);
      SwizzleRow(Stride(4 * q.w, y) + 4 * r.x, px, IsCopy(q));
      WrittenRow(before, Value(), y, 4 * r.x, TargetRow(ram, q, y)[4 * r.x..4 * (r.x + r.w)]);
      PatchGrows(was, before, Value(), ram, q, r, k);
    }

    /** `present_scanout_damaged`: returns whether the present completed (and so retired). */
    method PresentDamaged(ram: Dma.Ram, q: Request, admitted: bool) returns (ok: bool)
      requires Valid() && Dma.Good(ram)
      modifies this, bgra
      ensures Valid()
      ensures ok <==>
              && admitted && old(Readable(ram, q))
              && 0 < q.w && 0 < q.h && 4 * q.w <= q.pitch && q.pitch * q.h <= 0x400_0000
      ensures !ok ==> last == old(last) && Value() == old(Value())
      ensures ok && old(NeedFull(q)) ==> last && Fits(Value(), q) && ShowsFrame(Value(), ram, q)
      ensures ok && !old(NeedFull(q)) ==> last && Fits(Value(), q) && Fits(old(Value()), q)
      ensures ok && !old(NeedFull(q)) ==> Patched(old(Value()), Value(), ram, q, Clamped(q))
      ensures ok ==> (ShowsFrame(Value(), ram, q) <==>
                      old(NeedFull(q)) || CleanOutside(old(Value()), ram, q, Clamped(q)))
      ensures ok ==> forall x: nat, y: nat :: x < q.w && y < q.h ==>
                       if old(NeedFull(q)) || InRect(Clamped(q), x, y) then PixelShown(Value(), ram, q, x, y)
                       else Pixel(Value(), x, y) == Pixel(old(Value()), x, y)
      ensures bgra == old(bgra) || fresh(bgra)
    {
      hide Stride, Row, TargetRow, Pixel, PixelShown, ReadPixels, Patched, ShowsFrame, CleanOutside, Dma.Good, Dma.Read;
      if !admitted {
        return false;
      }
      StrideIsProduct(q.pitch, q.h);
      if !GoodGeometry(q) {
        return false;
      }
      var r := ClampDamage(q.w, q.h, q.dx, q.dy, q.dw, q.dh);
      if NeedFull(q) {
        ok := Rebuild(ram, q);
        if ok {
          ShowsFrameIff(Value(), ram, q);
        }
        return;
      }
      if r.w > 0 && r.h > 0 {
        ok := PatchRect(ram, q, r);
      } else {
        ok := true;
        EmptyRectPatches(Value(), ram, q, r);
      }
      if ok {
        PatchShowsFrameIff(old(Value()), Value(), ram, q, r);
        PatchedPixels(old(Value()), Value(), ram, q, r);
      }
    }
  }

  /** `s` with `bs` written over the bytes from `p` on. */
  function Spliced(s: seq<byte>, p: nat, bs: seq<byte>): (t: seq<byte>)
    requires p + |bs| <= |s|
    ensures |t| == |s|
  {
    s[..p] + bs + s[p + |bs|..]
  }

  lemma SliceAround(s: seq<byte>, p: nat, bs: seq<byte>, a: nat, b: nat)
    requires a <= p && p + |bs| <= b <= |s|
    ensures Spliced(s, p, bs)[a..b] == s[a..p] + bs + s[p + |bs|..b]
  {
  }

  lemma SliceAway(s: seq<byte>, p: nat, bs: seq<byte>, a: nat, b: nat)
    requires p + |bs| <= |s| && a <= b <= |s| && (b <= p || p + |bs| <= a)
    ensures Spliced(s, p, bs)[a..b] == s[a..b]
  {
  }

  /** Writing `bs` at byte `x` of row `y` changes that row there and no other row. */
  lemma WrittenRow(was: Surface, now: Surface, y: nat, x: nat, bs: seq<byte>)
    requires Shaped(was) && Shaped(now) && was.w == now.w && was.h == now.h && y < was.h
    requires x + |bs| <= 4 * was.w && Stride(4 * was.w, y) + 4 * was.w <= |was.bgra|
    requires now.bgra == Spliced(was.bgra, Stride(4 * was.w, y) + x, bs)
    ensures Row(now, y) == Row(was, y)[..x] + bs + Row(was, y)[x + |bs|..]
    ensures forall z :: 0 <= z < was.h && z != y ==> Row(now, z) == Row(was, z)
  {
    WrittenHere(was, now, y, x, bs);
    forall z | 0 <= z < was.h && z != y ensures Row(now, z) == Row(was, z) {
      OtherRowKept(was, now, y, x, bs, z);
    }
    hide Stride, Spliced, Row;
  }

  lemma WrittenHere(was: Surface, now: Surface, y: nat, x: nat, bs: seq<byte>)
    requires Shaped(was) && Shaped(now) && was.w == now.w && was.h == now.h && y < was.h
    requires x + |bs| <= 4 * was.w && Stride(4 * was.w, y) + 4 * was.w <= |was.bgra|
    requires now.bgra == Spliced(was.bgra, Stride(4 * was.w, y) + x, bs)
    ensures Row(now, y) == Row(was, y)[..x] + bs + Row(was, y)[x + |bs|..]
  {
    var n, o := 4 * was.w, Stride(4 * was.w, y);
    SliceAround(was.bgra, o + x, bs, o, o + n);
    hide Stride, Spliced;
    assert Row(was, y)[..x] == was.bgra[o..o + x];
    assert Row(was, y)[x + |bs|..] == was.bgra[o + x + |bs|..o + n];
  }

  lemma RowAt(s: Surface, y: nat)
    requires Shaped(s) && y < s.h
    ensures var o := Stride(4 * s.w, y); o + 4 * s.w <= |s.bgra| && Row(s, y) == s.bgra[o..o + 4 * s.w]
  {
    StrideGrows(4 * s.w, y, s.h);
  }

  lemma OtherRowKept(was: Surface, now: Surface, y: nat, x: nat, bs: seq<byte>, z: nat)
    requires Shaped(was) && Shaped(now) && was.w == now.w && was.h == now.h && y < was.h
    requires x + |bs| <= 4 * was.w && Stride(4 * was.w, y) + 4 * was.w <= |was.bgra|
    requires now.bgra == Spliced(was.bgra, Stride(4 * was.w, y) + x, bs)
    requires z < was.h && z != y
    ensures Row(now, z) == Row(was, z)
  {
    var n := 4 * was.w;
    if z < y {
      StrideGrows(n, z, y);
    } else {
      StrideGrows(n, y, z);
    }
    StrideGrows(n, z, was.h);
    RowAt(was, z);
    RowAt(now, z);
    hide Stride, Spliced, Row;
    SliceAway(was.bgra, Stride(n, y) + x, bs, Stride(n, z), Stride(n, z) + n);
  }

  lemma WholeRowWritten(was: Surface, now: Surface, y: nat, bs: seq<byte>)
    requires Shaped(was) && Shaped(now) && was.w == now.w && was.h == now.h && y < was.h
    requires |bs| == 4 * was.w && Stride(4 * was.w, y) + 4 * was.w <= |was.bgra|
    requires now.bgra == Spliced(was.bgra, Stride(4 * was.w, y), bs)
    ensures Row(now, y) == bs
    ensures forall z :: 0 <= z < was.h && z != y ==> Row(now, z) == Row(was, z)
  {
    WrittenRow(was, now, y, 0, bs);
    hide Row;
  }

  /** One more row of the rect has been patched. */
  lemma PatchGrows(was: Surface, before: Surface, now: Surface, ram: Dma.Ram, q: Request, r: Rect, k: nat)
    requires Fits(was, q) && Fits(before, q) && Fits(now, q) && r.x + r.w <= q.w && r.y + k < q.h
    requires Patched(was, before, ram, q, r.(h := k))
    requires var x, t := 4 * r.x, TargetRow(ram, q, r.y + k)[4 * r.x..4 * (r.x + r.w)];
             Row(now, r.y + k) == Row(before, r.y + k)[..x] + t + Row(before, r.y + k)[x + |t|..]
    requires forall z :: 0 <= z < q.h && z != r.y + k ==> Row(now, z) == Row(before, z)
    ensures Patched(was, now, ram, q, r.(h := k + 1))
  {
    hide Row, Stride, TargetRow;
  }

  lemma NothingPatched(s: Surface, ram: Dma.Ram, q: Request, r: Rect)
    requires Fits(s, q) && r.x + r.w <= q.w && r.h == 0
    ensures Patched(s, s, ram, q, r)
  {
  }

  lemma EmptyRectPatches(s: Surface, ram: Dma.Ram, q: Request, r: Rect)
    requires Fits(s, q) && r.x + r.w <= q.w && (r.w == 0 || r.h == 0)
    ensures Patched(s, s, ram, q, r)
  {
    forall y | 0 <= y < q.h && r.y <= y < r.y + r.h
      ensures Row(s, y) == SplicedRow(Row(s, y), TargetRow(ram, q, y), r)
    {
      var row := Row(s, y);
      assert row == row[..4 * r.x] + [] + row[4 * r.x..];
    }
  }
}
