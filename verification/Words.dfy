/**
 Machine words, single-bit tests and little-endian byte strings: the vocabulary that the
 shared-memory ring, the wire codec and the stream formats have in common.

 Words are mathematical integers confined to their width, so that every wrap-around in the
 modelled code is written out where it happens.
 */
module Words {

  type byte = x: int | 0 <= x < 256
  type u16 = x: int | 0 <= x < 0x1_0000
  type u32 = x: int | 0 <= x < 0x1_0000_0000
  type u64 = x: int | 0 <= x < 0x1_0000_0000_0000_0000
  type i32 = x: int | -0x8000_0000 <= x < 0x8000_0000

  type Bytes = seq<byte>

  datatype Option<+T> = None | Some(value: T)

  lemma Associates<T>(x: seq<T>, y: seq<T>, z: seq<T>)
    ensures (x + y) + z == x + (y + z)
  {
  }

  function Min(a: int, b: int): int { if a < b then a else b }

  // ---- Wrapping arithmetic ----

  function WrapAdd(a: u32, b: u32): u32
  {
    if a + b < 0x1_0000_0000 then a + b else a + b - 0x1_0000_0000
  }

  function WrapSub(a: u32, b: u32): u32
  {
    if a >= b then a - b else a - b + 0x1_0000_0000
  }

  /** The residue of an unbounded counter, as a 32-bit index word holds it. */
  function Residue(n: nat): u32 { n % 0x1_0000_0000 }

  /** Unbounded address arithmetic as 64-bit hardware does it. */
  function Wrap64(n: nat): u64 { n % 0x1_0000_0000_0000_0000 }

  lemma Wrap64Small(n: nat)
    requires n < 0x1_0000_0000_0000_0000
    ensures Wrap64(n) == n
  {
  }

  lemma Wrap64Offset(n: nat, i: nat)
    requires Wrap64(n) + i < 0x1_0000_0000_0000_0000
    ensures Wrap64(n + i) == Wrap64(n) + i
  {
  }

  /** Incrementing the word is incrementing the counter behind it, across the wrap. */
  lemma ResidueSucc(n: nat)
    ensures WrapAdd(Residue(n), 1) == Residue(n + 1)
  {
  }

  /** Subtracting two index words recovers the distance of their counters, however often
      both have wrapped, as long as the distance itself fits a word. */
  lemma ResidueDistance(hi: nat, lo: nat)
    requires lo <= hi < lo + 0x1_0000_0000
    ensures WrapSub(Residue(hi), Residue(lo)) == hi - lo
  {
    var q, r := hi / 0x1_0000_0000, lo / 0x1_0000_0000;
    assert hi == q * 0x1_0000_0000 + Residue(hi);
    assert lo == r * 0x1_0000_0000 + Residue(lo);
  }

  lemma ProductBound(a: nat, b: nat, m: nat, n: nat)
    requires a <= m && b <= n
    ensures 0 <= a * b <= m * n
  {
    assert 0 <= a * b;
    assert 0 <= (m - a) * b;
    assert 0 <= m * (n - b);
  }

  /** Bytes of a `w` by `h` image of 32-bit pixels. */
  function Area(w: u32, h: u32): nat
  {
    ProductBound(w, h, 0xFFFF_FFFF, 0xFFFF_FFFF);
    w * h * 4
  }

  // ---- Bits ----

  function Pow2(k: nat): (p: nat)
    ensures p >= 1
  {
    if k == 0 then 1 else 2 * Pow2(k - 1)
  }

  predicate HasBit(x: nat, k: nat)
  {
    if k == 0 then x % 2 == 1 else HasBit(x / 2, k - 1)
  }

  /** Bitwise conjunction. */
  function BitAnd(x: nat, y: nat): (r: nat)
    ensures r <= x && r <= y
  {
    if x == 0 || y == 0 then 0
    else 2 * BitAnd(x / 2, y / 2) + (if x % 2 == 1 && y % 2 == 1 then 1 else 0)
  }

  lemma {:induction false} ZeroHasNoBit(k: nat)
    ensures !HasBit(0, k)
  {
    if k > 0 {
      ZeroHasNoBit(k - 1);
    }
  }

  /** Masking with a power of two minus one is the remainder: `index & mask` picks slot
      `index % capacity`. */
  lemma {:induction false} MaskIsRemainder(x: nat, k: nat)
    ensures BitAnd(x, Pow2(k) - 1) == x % Pow2(k)
  {
    hide *;
    if x == 0 || k == 0 {
      MaskNothing(x, k);
    } else {
      Doubles(k);
      MaskIsRemainder(x / 2, k - 1);
      BitAndOdd(x, Pow2(k - 1));
      HalveRemainder(x, Pow2(k - 1), Pow2(k));
    }
  }

  lemma {:induction false} Doubles(k: nat)
    requires k > 0
    ensures Pow2(k) == 2 * Pow2(k - 1)
  {
  }

  lemma {:induction false} MaskNothing(x: nat, k: nat)
    requires x == 0 || k == 0
    ensures BitAnd(x, Pow2(k) - 1) == x % Pow2(k)
  {
    RemainderUnique(x, Pow2(k), if k == 0 then x else 0, 0);
  }

  lemma {:induction false} BitAndOdd(x: nat, p: nat)
    requires p >= 1
    ensures BitAnd(x, 2 * p - 1) == 2 * BitAnd(x / 2, p - 1) + x % 2
  {
    var y := 2 * p - 1;
    assert y / 2 == p - 1 && y % 2 == 1;
    if x == 0 {
      assert BitAnd(0, p - 1) == 0;
    }
  }

  lemma HalveRemainder(x: nat, p: nat, m: nat)
    requires p >= 1 && m == 2 * p
    ensures x % m == 2 * ((x / 2) % p) + x % 2
  {
    var q, r := (x / 2) / p, (x / 2) % p;
    assert x / 2 == q * p + r;
    var s := 2 * r + x % 2;
    assert x == q * (2 * p) + s;
    RemainderUnique(x, m, q, s);
  }

  lemma RemainderUnique(x: int, m: int, q: int, s: int)
    requires m > 0 && 0 <= s < m && x == q * m + s
    ensures x % m == s && x / m == q
  {
    var d := q - x / m;
    assert x == (x / m) * m + x % m;
    assert d * m == x % m - s;
    MultipleLeaves(d, m);
  }

  lemma MultipleLeaves(d: int, m: int)
    requires m > 0
    ensures d >= 1 ==> d * m >= m
    ensures d <= -1 ==> d * m <= -m
  {
    if d >= 1 {
      assert (d - 1) * m >= 0;
    } else if d <= -1 {
      assert (-d - 1) * m >= 0;
    }
  }

  // ---- Little-endian byte strings ----

  function LE16(x: u16): (b: seq<byte>)
    ensures |b| == 2
  {
    [x % 256, x / 256]
  }

  function LE32(x: u32): (b: seq<byte>)
    ensures |b| == 4
  {
    var y := x / 256;
    var z := y / 256;
    [x % 256, y % 256, z % 256, z / 256]
  }

  function LE64(x: u64): (b: seq<byte>)
    ensures |b| == 8
  {
    LE32(x % 0x1_0000_0000) + LE32(x / 0x1_0000_0000)
  }

  function U16At(b: seq<byte>, o: nat): u16
    requires o + 2 <= |b|
  {
    b[o] as int + 256 * b[o + 1] as int
  }

  function U32At(b: seq<byte>, o: nat): u32
    requires o + 4 <= |b|
  {
    b[o] as int + 256 * b[o + 1] as int + 65536 * b[o + 2] as int + 16777216 * b[o + 3] as int
  }

  function U64At(b: seq<byte>, o: nat): u64
    requires o + 8 <= |b|
  {
    U32At(b, o) + 0x1_0000_0000 * U32At(b, o + 4)
  }

  lemma ReadLE16(b: seq<byte>, o: nat, x: u16)
    requires o + 2 <= |b| && b[o..o + 2] == LE16(x)
    ensures U16At(b, o) == x
  {
    assert b[o] == b[o..o + 2][0] && b[o + 1] == b[o..o + 2][1];
  }

  lemma ReadLE32(b: seq<byte>, o: nat, x: u32)
    requires o + 4 <= |b| && b[o..o + 4] == LE32(x)
    ensures U32At(b, o) == x
  {
    var s := b[o..o + 4];
    assert b[o] == s[0] && b[o + 1] == s[1] && b[o + 2] == s[2] && b[o + 3] == s[3];
  }

  lemma ReadLE64(b: seq<byte>, o: nat, x: u64)
    requires o + 8 <= |b| && b[o..o + 8] == LE64(x)
    ensures U64At(b, o) == x
  {
    var lo, hi := LE32(x % 0x1_0000_0000), LE32(x / 0x1_0000_0000);
    assert b[o..o + 4] == b[o..o + 8][..4] == lo;
    assert b[o + 4..o + 8] == b[o..o + 8][4..] == hi;
    ReadLE32(b, o, x % 0x1_0000_0000);
    ReadLE32(b, o + 4, x / 0x1_0000_0000);
  }

  /** Writing back what was read reproduces the bytes. */
  lemma WriteU32At(b: seq<byte>, o: nat)
    requires o + 4 <= |b|
    ensures LE32(U32At(b, o)) == b[o..o + 4]
  {
    var z: int := b[o + 2] as int + 256 * b[o + 3] as int;
    var y: int := b[o + 1] as int + 256 * z;
    assert z % 256 == b[o + 2] && z / 256 == b[o + 3];
    assert y % 256 == b[o + 1] && y / 256 == z;
    assert U32At(b, o) == b[o] as int + 256 * y;
    assert U32At(b, o) % 256 == b[o] && U32At(b, o) / 256 == y;
  }

  // ---- Word streams (SPIR-V modules and every wire struct made of 32-bit fields) ----

  function WordBytes(ws: seq<u32>): (b: seq<byte>)
    ensures |b| == 4 * |ws|
  {
    if ws == [] then [] else LE32(ws[0]) + WordBytes(ws[1..])
  }

  function BytesToWords(b: seq<byte>): (ws: seq<u32>)
    ensures |ws| == |b| / 4
  {
    if |b| < 4 then [] else [U32At(b, 0)] + BytesToWords(b[4..])
  }

  lemma {:induction false} WordsRoundTrip(ws: seq<u32>)
    ensures BytesToWords(WordBytes(ws)) == ws
  {
    if ws != [] {
      var b := WordBytes(ws);
      assert b[0..4] == LE32(ws[0]);
      assert b[4..] == WordBytes(ws[1..]);
      ReadLE32(b, 0, ws[0]);
      WordsRoundTrip(ws[1..]);
    }
  }

  lemma {:induction false} BytesRoundTrip(b: seq<byte>)
    requires |b| % 4 == 0
    ensures WordBytes(BytesToWords(b)) == b
  {
    if b != [] {
      var ws := BytesToWords(b);
      BytesRoundTrip(b[4..]);
      WriteU32At(b, 0);
      assert ws[1..] == BytesToWords(b[4..]);
      assert b == b[..4] + b[4..];
    }
  }

  /** Field `i` of a struct laid out as consecutive words sits at byte `4 * i`. */
  lemma {:induction false} WordField(ws: seq<u32>, i: nat)
    requires i < |ws|
    ensures U32At(WordBytes(ws), 4 * i) == ws[i]
  {
    var b := WordBytes(ws);
    if i == 0 {
      assert b[0..4] == LE32(ws[0]);
      ReadLE32(b, 0, ws[0]);
    } else {
      WordField(ws[1..], i - 1);
      assert b[4..] == WordBytes(ws[1..]);
      assert U32At(b, 4 * i) == U32At(b[4..], 4 * (i - 1));
    }
  }
}
