/**
 The incremental Annex-B access-unit splitter. A start code is `00 00 01` followed by a NAL header;
 an access unit runs from one access-unit delimiter (AUD) to the next. NAL unit types are those of
 Table 7-1 of ITU-T H.264 (section 7.4.1) and of ITU-T H.265 (section 7.4.2.2).
 */
module Splitter {
  import opened Words

  datatype Codec = H264 | Hevc

  function AudType(c: Codec): nat
  {
    if c.H264? then 9 else 35
  }

  function NalType(c: Codec, b: byte): nat
  {
    if c.H264? then b % 32 else b / 2 % 64
  }

  predicate KeyframeNal(c: Codec, t: nat)
  {
    if c.H264? then t == 5 || t == 7 else 19 <= t <= 21 || 32 <= t <= 34
  }

  /** A start code and a NAL header byte at `i`. */
  predicate StartCode(s: Bytes, i: int)
  {
    0 <= i && i + 3 < |s| && s[i] == 0 && s[i + 1] == 0 && s[i + 2] == 1
  }

  predicate IsAud(s: Bytes, i: int, c: Codec)
  {
    StartCode(s, i) && NalType(c, s[i + 3]) == AudType(c)
  }

  /** A delimiter, byte by byte: NAL type 9 in the low five bits for H.264, type 35 in bits 1 to 6 for
      H.265. */
  lemma AudBytes(s: Bytes, i: nat)
    ensures IsAud(s, i, H264) <==> i + 3 < |s| && s[i..i + 3] == [0, 0, 1] && s[i + 3] % 32 == 9
    ensures IsAud(s, i, Hevc) <==> i + 3 < |s| && s[i..i + 3] == [0, 0, 1] && (s[i + 3] / 2) % 64 == 35
  {
    if i + 3 < |s| {
      assert s[i..i + 3] == [s[i], s[i + 1], s[i + 2]];
    }
  }

  /** The NAL header bytes that make a keyframe: IDR and SPS for H.264; IDR, CRA, VPS, SPS and PPS for
      H.265. */
  lemma KeyframeBytes(b: byte)
    ensures KeyframeNal(H264, NalType(H264, b)) <==> b % 32 in {5, 7}
    ensures KeyframeNal(Hevc, NalType(Hevc, b)) <==> (b / 2) % 64 in {19, 20, 21, 32, 33, 34}
  {
  }

  /** The first AUD at or after `from`; `|s|` when there is none. */
  function NextAud(s: Bytes, from: nat, c: Codec): (k: nat)
    requires from <= |s|
    ensures from <= k <= |s|
    ensures k < |s| ==> IsAud(s, k, c)
    decreases |s| - from
  {
    if from == |s| || IsAud(s, from, c) then from else NextAud(s, from + 1, c)
  }

  lemma {:induction false} NoneBeforeNext(s: Bytes, from: nat, c: Codec)
    requires from <= |s|
    ensures forall i :: from <= i < NextAud(s, from, c) ==> !IsAud(s, i, c)
    decreases |s| - from
  {
    if from < |s| && !IsAud(s, from, c) {
      NoneBeforeNext(s, from + 1, c);
    }
  }

  /** The access units a buffer yields, and the bytes it keeps. */
  datatype Parsed = Parsed(aus: seq<Bytes>, rest: Bytes)

  function Prepend(au: Bytes, p: Parsed): Parsed
  {
    Parsed([au] + p.aus, p.rest)
  }

  /** First `p`, then what its kept bytes yielded later. */
  function Then(p: Parsed, q: Parsed): Parsed
  {
    Parsed(p.aus + q.aus, q.rest)
  }

  lemma PrependThen(au: Bytes, p: Parsed, q: Parsed)
    ensures Then(Prepend(au, p), q) == Prepend(au, Then(p, q))
    ensures Prepend(au, p).rest == p.rest
  {
    assert ([au] + p.aus) + q.aus == [au] + (p.aus + q.aus);
  }

  lemma NothingThen(b: Bytes, q: Parsed)
    ensures Then(Parsed([], b), q) == q
  {
    assert [] + q.aus == q.aus;
  }

  /** A buffer that starts with an AUD gives up one unit per further AUD. */
  function ParseAud(b: Bytes, c: Codec): (p: Parsed)
    requires IsAud(b, 0, c)
    ensures IsAud(p.rest, 0, c)
    decreases |b|
  {
    var n := NextAud(b, 4, c);
    if n == |b| then Parsed([], b)
    else
      assert IsAud(b[n..], 0, c);
      Prepend(b[..n], ParseAud(b[n..], c))
  }

  /** One `push` on a buffer holding `b`. */
  function Parse(b: Bytes, c: Codec): (p: Parsed)
    ensures (p.rest == b && p.aus == []) || IsAud(p.rest, 0, c)
  {
    var k := NextAud(b, 0, c);
    if k == |b| then Parsed([], b)
    else
      assert IsAud(b[k..], 0, c);
      ParseAud(b[k..], c)
  }

  /** `flush`: a held unit of at least seven bytes is emitted, anything else is dropped. */
  function FlushOf(rest: Bytes, c: Codec): seq<Bytes>
  {
    if |rest| > 6 && NextAud(rest, 0, c) == 0 then [rest] else []
  }

  // ---- The reference: cut the whole stream at every AUD ----

  function CutsFrom(s: Bytes, i: nat, c: Codec): seq<nat>
    decreases |s| - i
  {
    if i >= |s| then []
    else if IsAud(s, i, c) then [i] + CutsFrom(s, i + 1, c)
    else CutsFrom(s, i + 1, c)
  }

  /** The stretches between consecutive cuts. */
  function Pieces(s: Bytes, cuts: seq<nat>): seq<Bytes>
    requires Ascending(cuts, |s|)
    decreases |cuts|
  {
    if |cuts| < 2 then [] else [s[cuts[0]..cuts[1]]] + Pieces(s, cuts[1..])
  }

  predicate Ascending(cuts: seq<nat>, n: nat)
  {
    (forall i, j :: 0 <= i < j < |cuts| ==> cuts[i] < cuts[j]) && (forall i :: 0 <= i < |cuts| ==> cuts[i] < n)
  }

  /** The cuts are exactly the AUD positions, in stream order. */
  lemma {:induction false} CutsAreTheAuds(s: Bytes, i: nat, c: Codec)
    ensures Ascending(CutsFrom(s, i, c), |s|)
    ensures forall k :: k in CutsFrom(s, i, c) <==> i <= k && IsAud(s, k, c)
    decreases |s| - i
  {
    hide IsAud;
    if i < |s| {
      CutsAreTheAuds(s, i + 1, c);
      var rest := CutsFrom(s, i + 1, c);
      forall j | 0 <= j < |rest| ensures i < rest[j] {
        assert rest[j] in rest;
      }
      forall k | i <= k && IsAud(s, k, c) ensures k in CutsFrom(s, i, c) {
        if k != i {
          assert k in rest;
        }
      }
    } else {
      forall k | i <= k ensures !IsAud(s, k, c) {
        AudFits(s, k, c);
      }
    }
  }

  lemma AudFits(s: Bytes, k: int, c: Codec)
    ensures IsAud(s, k, c) ==> 0 <= k && k + 3 < |s|
  {
  }

  function Cuts(s: Bytes, c: Codec): (cuts: seq<nat>)
    ensures Ascending(cuts, |s|)
  {
    CutsAreTheAuds(s, 0, c);
    CutsFrom(s, 0, c)
  }

  /** The access units of a finished stream: the stretches between consecutive AUDs, then the tail
      from the last AUD if it is longer than six bytes. */
  function Units(s: Bytes, c: Codec): seq<Bytes>
  {
    var cuts := Cuts(s, c);
    if cuts == [] then []
    else
      var tail := s[cuts[|cuts| - 1]..];
      Pieces(s, cuts) + (if |tail| > 6 then [tail] else [])
  }

  /** Unit `j` of the stream is the stretch from its `j`-th delimiter to the next, and the last unit
      the rest from the last delimiter, if that is longer than six bytes. */
  lemma {:induction false} UnitsAre(s: Bytes, c: Codec)
    ensures var cuts, us := Cuts(s, c), Units(s, c);
            && (cuts == [] ==> us == [])
            && (cuts != [] ==> |us| == |cuts| - (if |s| - cuts[|cuts| - 1] > 6 then 0 else 1))
            && (forall j :: 0 <= j < |cuts| - 1 ==> us[j] == s[cuts[j]..cuts[j + 1]])
            && (cuts != [] && |us| == |cuts| ==> us[|us| - 1] == s[cuts[|cuts| - 1]..])
  {
    var cuts := Cuts(s, c);
    PiecesAre(s, cuts);
    hide Cuts, Pieces;
  }

  lemma {:induction false} PiecesAre(s: Bytes, cuts: seq<nat>)
    requires Ascending(cuts, |s|)
    ensures |Pieces(s, cuts)| == if cuts == [] then 0 else |cuts| - 1
    ensures forall j :: 0 <= j < |cuts| - 1 ==> Pieces(s, cuts)[j] == s[cuts[j]..cuts[j + 1]]
    decreases |cuts|
  {
    if |cuts| >= 2 {
      var rest := cuts[1..];
      PiecesAre(s, rest);
      forall j | 0 <= j < |cuts| - 1 ensures Pieces(s, cuts)[j] == s[cuts[j]..cuts[j + 1]] {
        if j > 0 {
          assert cuts[j] == rest[j - 1] && cuts[j + 1] == rest[j];
          assert Pieces(s, rest)[j - 1] == s[rest[j - 1]..rest[j]];
        }
      }
    }
  }

  // ---- AUDs under slicing and concatenation ----

  lemma AudInSlice(s: Bytes, k: nat, i: nat, c: Codec)
    requires k <= |s|
    ensures IsAud(s[k..], i, c) <==> IsAud(s, k + i, c)
  {
  }

  lemma AudInPrefix(s: Bytes, t: Bytes, i: nat, c: Codec)
    requires i + 3 < |s|
    ensures IsAud(s + t, i, c) <==> IsAud(s, i, c)
  {
  }

  /** No AUD begins inside another one's four bytes. */
  lemma AudsApart(s: Bytes, c: Codec)
    requires IsAud(s, 0, c)
    ensures forall i :: 0 < i < 4 ==> !IsAud(s, i, c)
  {
    assert NalType(c, 0) != AudType(c);
  }

  lemma {:induction false} NextAudIs(s: Bytes, from: nat, k: nat, c: Codec)
    requires from <= k <= |s| && (k < |s| ==> IsAud(s, k, c))
    requires forall i :: from <= i < k ==> !IsAud(s, i, c)
    ensures NextAud(s, from, c) == k
    decreases k - from
  {
    if from < k {
      NextAudIs(s, from + 1, k, c);
    }
  }

  /** More input after a found AUD does not change which one is found. */
  lemma NextAudStable(s: Bytes, t: Bytes, from: nat, c: Codec)
    requires from <= |s| && NextAud(s, from, c) < |s|
    ensures NextAud(s + t, from, c) == NextAud(s, from, c)
  {
    var k := NextAud(s, from, c);
    NoneBeforeNext(s, from, c);
    forall i | from <= i <= k ensures IsAud(s + t, i, c) <==> IsAud(s, i, c) {
      AudInPrefix(s, t, i, c);
    }
    NextAudIs(s + t, from, k, c);
  }

  // ---- Pushing in pieces is pushing at once ----

  lemma CutConcat(b: Bytes, t: Bytes, n: nat)
    requires n <= |b|
    ensures (b + t)[n..] == b[n..] + t && (b + t)[..n] == b[..n]
  {
  }

  lemma ParseAudStep(b: Bytes, c: Codec)
    requires IsAud(b, 0, c)
    ensures 4 <= |b|
    ensures var n := NextAud(b, 4, c);
            if n == |b| then ParseAud(b, c) == Parsed([], b)
            else
              && IsAud(b[n..], 0, c) && |b[n..]| < |b|
              && ParseAud(b, c) == Prepend(b[..n], ParseAud(b[n..], c))
  {
    if NextAud(b, 4, c) < |b| {
      AudInSlice(b, NextAud(b, 4, c), 0, c);
    }
    hide IsAud;
  }

  lemma ParseStep(b: Bytes, c: Codec)
    ensures var k := NextAud(b, 0, c);
            if k == |b| then Parse(b, c) == Parsed([], b)
            else IsAud(b[k..], 0, c) && Parse(b, c) == ParseAud(b[k..], c)
  {
    if NextAud(b, 0, c) < |b| {
      AudInSlice(b, NextAud(b, 0, c), 0, c);
    }
    hide IsAud, ParseAud;
  }

  lemma {:induction false} ParseAudExtends(b: Bytes, t: Bytes, c: Codec)
    requires IsAud(b, 0, c)
    ensures var p := ParseAud(b, c);
            && IsAud(p.rest + t, 0, c) && IsAud(b + t, 0, c)
            && ParseAud(b + t, c) == Then(p, ParseAud(p.rest + t, c))
    decreases |b|
  {
    ParseAudStep(b, c);
    AudInPrefix(b, t, 0, c);
    hide *;
    var n := NextAud(b, 4, c);
    if n == |b| {
      NothingThen(b, ParseAud(b + t, c));
    } else {
      var p := ParseAud(b[n..], c);
      ParseAudExtends(b[n..], t, c);
      NextAudStable(b, t, 4, c);
      ParseAudStep(b + t, c);
      CutConcat(b, t, n);
      PrependThen(b[..n], p, ParseAud(p.rest + t, c));
    }
  }

  lemma ParseExtends(b: Bytes, t: Bytes, c: Codec)
    ensures Parse(b + t, c) == Then(Parse(b, c), Parse(Parse(b, c).rest + t, c))
  {
    ParseStep(b, c);
    ParseStep(b + t, c);
    hide *;
    var k := NextAud(b, 0, c);
    if k < |b| {
      ParseAudExtends(b[k..], t, c);
      NextAudStable(b, t, 0, c);
      CutConcat(b, t, k);
      ParseFromAud(Parse(b, c).rest + t, c);
    } else {
      NothingThen(b, Parse(b + t, c));
    }
  }

  lemma ParseFromAud(b: Bytes, c: Codec)
    requires IsAud(b, 0, c)
    ensures Parse(b, c) == ParseAud(b, c) && NextAud(b, 0, c) == 0
  {
    NextAudIs(b, 0, 0, c);
    assert b[0..] == b;
    hide ParseAud, IsAud;
  }

  function Flatten(chunks: seq<Bytes>): Bytes
  {
    if chunks == [] then [] else Flatten(chunks[..|chunks| - 1]) + chunks[|chunks| - 1]
  }

  /** What the splitter has emitted and kept after pushing the chunks one by one. */
  function Feed(chunks: seq<Bytes>, c: Codec): Parsed
  {
    if chunks == [] then Parsed([], [])
    else
      var p := Feed(chunks[..|chunks| - 1], c);
      Then(p, Parse(p.rest + chunks[|chunks| - 1], c))
  }

  lemma {:induction false} FeedIsParse(chunks: seq<Bytes>, c: Codec)
    ensures Feed(chunks, c) == Parse(Flatten(chunks), c)
  {
    if chunks != [] {
      FeedIsParse(chunks[..|chunks| - 1], c);
      ParseExtends(Flatten(chunks[..|chunks| - 1]), chunks[|chunks| - 1], c);
    }
  }

  // ---- One push is cutting at the AUDs ----

  lemma {:induction false} CutsSkip(s: Bytes, a: nat, b: nat, c: Codec)
    requires a <= b <= |s| && forall i :: a <= i < b ==> !IsAud(s, i, c)
    ensures CutsFrom(s, a, c) == CutsFrom(s, b, c)
    decreases b - a
  {
    if a < b {
      CutsSkip(s, a + 1, b, c);
    }
  }

  /** The units between the cuts, and the stretch from the last cut on. */
  function ByCuts(s: Bytes, cuts: seq<nat>): Parsed
    requires Ascending(cuts, |s|) && cuts != []
  {
    Parsed(Pieces(s, cuts), s[cuts[|cuts| - 1]..])
  }

  lemma {:induction false} ParseAudCuts(s: Bytes, k: nat, c: Codec)
    requires k < |s| && IsAud(s, k, c)
    ensures IsAud(s[k..], 0, c) && ParsesByCuts(s, k, CutsFrom(s, k, c), c)
    decreases |s| - k
  {
    hide *;
    AudInSlice(s, k, 0, c);
    NextCut(s, k, c);
    var n := NextAud(s[k..], 4, c);
    if n < |s[k..]| {
      AudInSlice(s, k, n, c);
      ParseAudCuts(s, k + n, c);
      ParsesOneMore(s, k, n, CutsFrom(s, k + n, c), c);
    } else {
      NoCuts(s, c);
      ParsesLast(s, k, c);
    }
  }

  /** From the AUD at `k` on, parsing cuts the stream at exactly `cuts`. */
  ghost predicate ParsesByCuts(s: Bytes, k: nat, cuts: seq<nat>, c: Codec)
    requires k <= |s| && IsAud(s[k..], 0, c)
  {
    cuts != [] && cuts[0] == k && Ascending(cuts, |s|) && ParseAud(s[k..], c) == ByCuts(s, cuts)
  }

  lemma ParsesOneMore(s: Bytes, k: nat, n: nat, rest: seq<nat>, c: Codec)
    requires k < |s| && IsAud(s[k..], 0, c) && n == NextAud(s[k..], 4, c) && k + n < |s|
    requires 4 <= n && IsAud(s[k + n..], 0, c) && ParsesByCuts(s, k + n, rest, c)
    ensures ParsesByCuts(s, k, WithCut(k, rest), c)
  {
    hide IsAud, NextAud, ParseAud, ByCuts, Prepend;
    CutSlice(s, k, n);
    ParseAudStep(s[k..], c);
    ByCutsStep(s, k, rest);
  }

  lemma ParsesLast(s: Bytes, k: nat, c: Codec)
    requires k < |s| && IsAud(s[k..], 0, c) && NextAud(s[k..], 4, c) == |s| - k
    ensures ParsesByCuts(s, k, WithCut(k, []), c)
  {
    ParseAudStep(s[k..], c);
    ByCutsOne(s, k);
  }

  lemma CutSlice(s: Bytes, k: nat, n: nat)
    requires k + n <= |s|
    ensures s[k..][n..] == s[k + n..] && s[k..][..n] == s[k..k + n]
  {
  }

  function WithCut(k: nat, rest: seq<nat>): (cuts: seq<nat>)
  {
    [k] + rest
  }

  lemma ByCutsStep(s: Bytes, k: nat, rest: seq<nat>)
    requires rest != [] && Ascending(rest, |s|) && k < rest[0]
    ensures var cuts := WithCut(k, rest);
            cuts != [] && cuts[0] == k && Ascending(cuts, |s|)
            && ByCuts(s, cuts) == Prepend(s[k..rest[0]], ByCuts(s, rest))
  {
    var cuts := [k] + rest;
    assert cuts[1..] == rest;
    forall i, j | 0 <= i < j < |cuts| ensures cuts[i] < cuts[j] {
      if i == 0 && j > 1 {
        assert rest[0] < rest[j - 1];
      }
    }
  }

  lemma NoCuts(s: Bytes, c: Codec)
    ensures CutsFrom(s, |s|, c) == []
  {
  }

  lemma ByCutsOne(s: Bytes, k: nat)
    requires k < |s|
    ensures WithCut(k, []) == [k] && Ascending([k], |s|) && ByCuts(s, [k]) == Parsed([], s[k..])
  {
  }

  /** The cut after the one at `k` is where the buffer scan finds its next AUD. */
  lemma NextCut(s: Bytes, k: nat, c: Codec)
    requires k < |s| && IsAud(s, k, c)
    ensures var n := NextAud(s[k..], 4, c);
            CutsFrom(s, k, c) == WithCut(k, CutsFrom(s, k + n, c))
  {
    var b := s[k..];
    AudInSlice(s, k, 0, c);
    AudsApart(b, c);
    NoneBeforeNext(b, 4, c);
    var n := NextAud(b, 4, c);
    forall i | k + 1 <= i < k + n ensures !IsAud(s, i, c) {
      AudInSlice(s, k, i - k, c);
      hide IsAud;
    }
    hide IsAud;
    CutsSkip(s, k + 1, k + n, c);
  }

  lemma ParseCuts(s: Bytes, c: Codec)
    ensures Parse(s, c) == if Cuts(s, c) == [] then Parsed([], s) else ByCuts(s, Cuts(s, c))
  {
    var k := NextAud(s, 0, c);
    ParseStep(s, c);
    NoneBeforeNext(s, 0, c);
    CutsSkip(s, 0, k, c);
    if k < |s| {
      ParseAudCuts(s, k, c);
    }
    hide ByCuts, ParseAud, IsAud, Parse;
  }

  /** However the stream is split into pushes, a flush at the end leaves exactly the access units
      of the whole stream emitted, in order. */
  lemma ChunkingIndependent(chunks: seq<Bytes>, c: Codec)
    ensures Feed(chunks, c).aus + FlushOf(Feed(chunks, c).rest, c) == Units(Flatten(chunks), c)
  {
    FeedIsParse(chunks, c);
    hide *;
    FlushCompletes(Flatten(chunks), c);
  }

  lemma FlushCompletes(s: Bytes, c: Codec)
    ensures Parse(s, c).aus + FlushOf(Parse(s, c).rest, c) == Units(s, c)
  {
    ParseCuts(s, c);
    CutsAreTheAuds(s, 0, c);
    UnitsByCuts(s, c);
    hide *;
    if Cuts(s, c) == [] {
      assert !IsAud(s, 0, c);
      FlushNothing(s, c);
    } else {
      FlushTail(ByCuts(s, Cuts(s, c)).rest, c);
    }
  }

  /** Cut by cut: the finished units are the pieces and, if long enough, the tail, which starts
      with an AUD. */
  lemma UnitsByCuts(s: Bytes, c: Codec)
    ensures Cuts(s, c) == CutsFrom(s, 0, c)
    ensures Cuts(s, c) == [] ==> Units(s, c) == [] && [] + Units(s, c) == []
    ensures Cuts(s, c) != [] ==>
              var p := ByCuts(s, Cuts(s, c));
              IsAud(p.rest, 0, c) && Units(s, c) == p.aus + (if |p.rest| > 6 then [p.rest] else [])
  {
    CutsAreTheAuds(s, 0, c);
    var cuts := Cuts(s, c);
    if cuts != [] {
      var l := cuts[|cuts| - 1];
      assert l in cuts;
      AudInSlice(s, l, 0, c);
    }
    hide IsAud, Pieces, CutsFrom;
  }

  lemma FlushTail(rest: Bytes, c: Codec)
    requires IsAud(rest, 0, c)
    ensures FlushOf(rest, c) == if |rest| > 6 then [rest] else []
  {
    ParseFromAud(rest, c);
    hide IsAud, Parse, ParseAud;
  }

  lemma FlushNothing(rest: Bytes, c: Codec)
    requires !IsAud(rest, 0, c)
    ensures FlushOf(rest, c) == []
  {
  }

  // ---- No byte is lost between the first AUD and the held tail ----

  lemma {:induction false} CutsCover(s: Bytes, cuts: seq<nat>)
    requires Ascending(cuts, |s|) && cuts != []
    ensures s[cuts[0]..] == Concat(ByCuts(s, cuts).aus) + ByCuts(s, cuts).rest
    decreases |cuts|
  {
    var k := cuts[0];
    if |cuts| >= 2 {
      var rest := cuts[1..];
      assert cuts == WithCut(k, rest);
      assert k < rest[0];
      CutsCover(s, rest);
      ByCutsStep(s, k, rest);
      ConcatPrepend(s[k..rest[0]], ByCuts(s, rest).aus);
      SplitSlice(s, k, rest[0]);
      Associates(s[k..rest[0]], Concat(ByCuts(s, rest).aus), ByCuts(s, rest).rest);
    } else {
      assert cuts == [k];
      ByCutsOne(s, k);
      assert Concat([]) == [];
    }
  }

  lemma SplitSlice(s: Bytes, a: nat, b: nat)
    requires a <= b <= |s|
    ensures s[a..] == s[a..b] + s[b..]
  {
  }

  lemma ConcatPrepend(x: Bytes, xs: seq<Bytes>)
    ensures Concat([x] + xs) == x + Concat(xs)
  {
    assert ([x] + xs)[1..] == xs;
  }

  function Concat(pieces: seq<Bytes>): Bytes
  {
    if pieces == [] then [] else pieces[0] + Concat(pieces[1..])
  }

  lemma {:induction false} ConcatAppend(xs: seq<Bytes>, y: Bytes)
    ensures Concat(xs + [y]) == Concat(xs) + y
  {
    if xs == [] {
      assert xs + [y] == [y];
      assert Concat([y]) == y + Concat([]);
    } else {
      assert (xs + [y])[1..] == xs[1..] + [y];
      ConcatAppend(xs[1..], y);
    }
  }

  /** Byte conservation: a stream with an AUD is the junk before its first AUD, then the emitted
      units, then at most six dropped bytes; a stream without one is all dropped. */
  lemma BytesConserved(s: Bytes, c: Codec) returns (lost: Bytes)
    ensures var k := NextAud(s, 0, c);
            if k == |s| then Units(s, c) == [] else s == s[..k] + Concat(Units(s, c)) + lost && |lost| <= 6
  {
    var k := NextAud(s, 0, c);
    lost := [];
    FirstCut(s, c);
    UnitsByCuts(s, c);
    hide *;
    if k < |s| {
      var p := ByCuts(s, Cuts(s, c));
      CutsCover(s, Cuts(s, c));
      ConcatAppend(p.aus, p.rest);
      SplitSlice(s, 0, k);
      if |p.rest| <= 6 {
        lost := p.rest;
        assert p.aus + [] == p.aus;
      }
      Associates(s[..k], Concat(Units(s, c)), lost);
    }
  }

  lemma FirstCut(s: Bytes, c: Codec)
    ensures var k := NextAud(s, 0, c);
            if k == |s| then Cuts(s, c) == [] else Cuts(s, c) != [] && Cuts(s, c)[0] == k
  {
    NoneBeforeNext(s, 0, c);
    CutsSkip(s, 0, NextAud(s, 0, c), c);
    hide IsAud;
  }

  // ---- Keyframes ----

  /** Some start code in the unit is followed by a keyframe NAL. */
  ghost predicate HasKeyframeNal(au: Bytes, c: Codec)
  {
    exists i :: StartCode(au, i) && KeyframeNal(c, NalType(c, au[i + 3]))
  }

  /** `au_is_keyframe`. The scan steps over a start code's three bytes without looking inside; no
      start code can begin there. */
  method AuIsKeyframe(au: Bytes, c: Codec) returns (keyframe: bool)
    ensures keyframe <==> HasKeyframeNal(au, c)
  {
    var i := 0;
    while i + 3 < |au|
      invariant 0 <= i
      invariant forall j :: 0 <= j < i && StartCode(au, j) ==> !KeyframeNal(c, NalType(c, au[j + 3]))
      decreases |au| - i
    {
      if au[i] == 0 && au[i + 1] == 0 && au[i + 2] == 1 {
        if KeyframeNal(c, NalType(c, au[i + 3])) {
          assert StartCode(au, i);
          return true;
        }
        i := i + 3;
      } else {
        i := i + 1;
      }
    }
    return false;
  }

  /** `find_aud`. */
  method FindAud(buf: Bytes, from: nat, c: Codec) returns (r: Option<nat>)
    requires from <= |buf|
    ensures r == if NextAud(buf, from, c) < |buf| then Some(NextAud(buf, from, c)) else None
  {
    var i := from;
    while i + 3 < |buf|
      invariant from <= i <= |buf|
      invariant forall j :: from <= j < i ==> !IsAud(buf, j, c)
    {
      if buf[i] == 0 && buf[i + 1] == 0 && buf[i + 2] == 1 && NalType(c, buf[i + 3]) == AudType(c) {
        NextAudIs(buf, from, i, c);
        return Some(i);
      }
      i := i + 1;
    }
    forall j | i <= j < |buf| ensures !IsAud(buf, j, c) { AudFits(buf, j, c); }
    NextAudIs(buf, from, |buf|, c);
    return None;
  }

  lemma EmittedOne(out: seq<Bytes>, b: Bytes, n: nat, c: Codec)
    requires IsAud(b, 0, c) && 4 <= |b| && n < |b| && n == NextAud(b, 4, c)
    ensures IsAud(b[n..], 0, c)
    ensures Then(Parsed(out, b), ParseAud(b, c)) == Then(Parsed(out + [b[..n]], b[n..]), ParseAud(b[n..], c))
  {
    ParseAudStep(b, c);
    var tail := ParseAud(b[n..], c).aus;
    assert out + ([b[..n]] + tail) == (out + [b[..n]]) + tail;
  }

  class AuSplitter {
    const codec: Codec
    var buf: Bytes
    /** Everything pushed since the last flush, and everything emitted for it. */
    ghost var stream: Bytes
    ghost var emitted: seq<Bytes>

    ghost predicate Valid()
      reads this
    {
      Parse(stream, codec) == Parsed(emitted, buf)
    }

    constructor (codec: Codec)
      ensures Valid() && this.codec == codec && stream == [] && emitted == []
    {
      this.codec := codec;
      buf, stream, emitted := [], [], [];
    }

    method Push(incoming: Bytes) returns (out: seq<Bytes>)
      requires Valid()
      modifies this
      ensures Valid()
      ensures stream == old(stream) + incoming && emitted == old(emitted) + out
    {
      ParseExtends(stream, incoming, codec);
      out := [];
      buf := buf + incoming;
      stream := stream + incoming;
      ParseStep(buf, codec);
      var first := FindAud(buf, 0, codec);
      if first.Some? {
        buf := buf[first.value..];
        out := EmitComplete();
      }
      hide Parse, ParseAud, IsAud;
      emitted := emitted + out;
    }

    /** The buffer starts with an AUD: emit a unit for every further AUD in it. */
    method EmitComplete() returns (out: seq<Bytes>)
      requires IsAud(buf, 0, codec)
      modifies this`buf
      ensures IsAud(buf, 0, codec) && Parsed(out, buf) == ParseAud(old(buf), codec)
    {
      ParseAudStep(buf, codec);
      out := [];
      var next := FindAud(buf, 4, codec);
      NothingThen(buf, ParseAud(buf, codec));
      while next.Some?
        invariant IsAud(buf, 0, codec) && |buf| >= 4
        invariant next == if NextAud(buf, 4, codec) < |buf| then Some(NextAud(buf, 4, codec)) else None
        invariant ParseAud(old(buf), codec) == Then(Parsed(out, buf), ParseAud(buf, codec))
        decreases |buf|
      {
        ParseAudStep(buf, codec);
        EmittedOne(out, buf, next.value, codec);
        out := out + [buf[..next.value]];
        buf := buf[next.value..];
        ParseAudStep(buf, codec);
        next := FindAud(buf, 4, codec);
      }
      ParseAudStep(buf, codec);
      assert out + [] == out;
    }

    /** End of stream: with the flush, exactly the stream's access units have been emitted. */
    method Flush() returns (out: seq<Bytes>)
      requires Valid()
      modifies this
      ensures Valid() && stream == [] && emitted == []
      ensures old(emitted) + out == Units(old(stream), codec)
    {
      FlushCompletes(stream, codec);
      var first := FindAud(buf, 0, codec);
      if |buf| > 6 && first == Some(0) {
        out := [buf];
      } else {
        out := [];
      }
      buf := [];
      stream, emitted := [], [];
    }
  }
}
