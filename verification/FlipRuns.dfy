/**
 How long the blob present protocol stays in agreement: what each flip costs in ring pushes, and
 the exact number of flips that no sequence of framebuffers can bring to the wrap of the tail.
 */
module FlipRuns {
  import opened Words
  import opened Present

  /** Flips for which the tail stays clear of its wrap whatever is flipped. */
  const FLIPS: nat := 858_993_460

  // ---- What one flip costs ----

  /** Pushes of a flip: flush, and a rebind when another buffer is scanned out; or the three pushes
      of a registration, the eviction of a valid slot, and flush. */
  function Cost(s: State, fb: Framebuffer): nat
    requires s.next < |s.cache|
  {
    var k := Find(s.cache, fb, 0);
    if k < |s.cache| then (if s.cache[k].resId == s.scanoutResId then 1 else 2)
    else if s.cache[s.next].valid then 5 else 4
  }

  /** The guest's state and the ring after a flip, in terms of the state before it. */
  ghost predicate Flipped(s: State, s': State, fb: Framebuffer)
    requires s.next < |s.cache|
  {
    && s'.host.tail == Residue(s.host.tail + Cost(s, fb))
    && (var k := Find(s.cache, fb, 0);
        if k < |s.cache| then
          s'.cache == s.cache && s'.next == s.next && s'.nextResId == s.nextResId
          && s'.scanoutResId == s.cache[k].resId
        else
          && s'.nextResId == s'.scanoutResId == s.nextResId + 1
          && s'.cache == s.cache[s.next := FbEntry(fb, s.nextResId + 1, true)]
          && s'.next == (s.next + 1) % FBCACHE)
  }

  lemma PushMovesTail(h: Host, msgType: u32, payload: seq<byte>)
    ensures AfterPush(h, msgType, payload).tail == WrapAdd(h.tail, 1)
  {
  }

  lemma EvictMovesTail(s: State)
    requires s.next < |s.cache|
    ensures var e := s.cache[s.next];
            var s' := Evict(s);
            && s' == s.(scanoutResId := s'.scanoutResId, host := s'.host)
            && s'.host.tail == (if e.valid then WrapAdd(s.host.tail, 1) else s.host.tail)
            && (!(e.valid && e.resId == s.scanoutResId) ==> s'.scanoutResId == s.scanoutResId)
  {
    PushMovesTail(s.host, Resource.RESOURCE_DESTROY, LE32(s.cache[s.next].resId));
    hide AfterPush, LE32;
  }

  lemma BindAndFlushMovesTail(s: State, id: u32, fb: Framebuffer, rect: Resource.Rect)
    ensures var s' := BindAndFlush(s, id, fb, rect);
            && s' == s.(scanoutResId := id, host := s'.host)
            && s'.host.tail == (if id == s.scanoutResId then WrapAdd(s.host.tail, 1)
                                else WrapAdd(WrapAdd(s.host.tail, 1), 1))
  {
    var h := AfterPush(s.host, Resource.SET_SCANOUT_BLOB, BindBytes(id, fb));
    PushMovesTail(s.host, Resource.SET_SCANOUT_BLOB, BindBytes(id, fb));
    PushMovesTail(s.host, Resource.RESOURCE_FLUSH, FlushBytes(id, rect));
    PushMovesTail(h, Resource.RESOURCE_FLUSH, FlushBytes(id, rect));
    hide AfterPush, BindBytes, FlushBytes;
  }

  lemma CachedIds(s: State)
    requires Agree(s)
    ensures s.next < |s.cache|
    ensures forall e :: e in s.cache && e.valid ==> 0 < e.resId <= s.nextResId
  {
  }

  lemma FlipEffect(s: State, fb: Framebuffer, rect: Resource.Rect)
    requires Agree(s) && WellFormed(fb) && Safe(s, fb)
    ensures Flipped(s, Flip(s, fb, rect), fb)
  {
    hide Agree, Announce, Evict, BindAndFlush, WellFormed, Find, Residue;
    CachedIds(s);
    if Hit(s, fb) {
      HitEffect(s, fb, rect);
    } else {
      AnnounceIff(s, fb, s.nextResId + 1);
      MissEffect(s, fb, rect);
    }
  }

  lemma HitEffect(s: State, fb: Framebuffer, rect: Resource.Rect)
    requires s.next < |s.cache| && Hit(s, fb) && s.cache[Find(s.cache, fb, 0)].resId > 0
    ensures Flipped(s, Flip(s, fb, rect), fb)
  {
    hide Announce, Evict, BindAndFlush, Find;
    BindAndFlushMovesTail(s, s.cache[Find(s.cache, fb, 0)].resId, fb, rect);
  }

  lemma MissEffect(s: State, fb: Framebuffer, rect: Resource.Rect)
    requires s.next < |s.cache| && !Hit(s, fb) && s.nextResId < 0xFFFF_FFFF
    requires s.cache[s.next].valid ==> s.cache[s.next].resId <= s.nextResId
    requires var a := Announce(s.host, s.nextResId + 1, fb);
             a.ok && s.host.tail < 0xFFFF_FFFD && a.host.tail == s.host.tail + 3
    ensures Flipped(s, Flip(s, fb, rect), fb)
  {
    hide Announce, Evict, BindAndFlush, Find;
    var id: u32 := s.nextResId + 1;
    var s1 := s.(nextResId := id, scanoutResId := id, host := Announce(s.host, id, fb).host);
    EvictMovesTail(s1);
    BindAndFlushMovesTail(Fill(Evict(s1), fb, id), id, fb, rect);
  }

  // ---- Every run that is short enough ----

  predicate AllWellFormed(fs: seq<FlipOf>)
  {
    forall n :: 0 <= n < |fs| ==> WellFormed(fs[n].fb)
  }

  predicate Full(cache: seq<FbEntry>)
    requires |cache| == FBCACHE
  {
    cache[0].valid && cache[1].valid && cache[2].valid && cache[3].valid
  }

  /** After `n` flips: slots fill in order, and no flip evicts before the fourth registration. */
  ghost predicate Paced(s: State, n: nat)
  {
    && |s.cache| == FBCACHE && s.next < FBCACHE && s.nextResId <= n
    && (if Full(s.cache) then n >= 4 && s.host.tail + 4 <= 5 * n
        else s.next <= n && s.host.tail <= 4 * n
             && forall j :: 0 <= j < FBCACHE ==> (s.cache[j].valid <==> j < s.next))
  }

  lemma PacedIsSafe(s: State, n: nat, fb: Framebuffer)
    requires Paced(s, n) && n < FLIPS
    ensures Safe(s, fb)
  {
  }

  lemma PacedStep(s: State, s': State, n: nat, fb: Framebuffer)
    requires Paced(s, n) && Flipped(s, s', fb) && Safe(s, fb)
    ensures Paced(s', n + 1)
  {
    var cost := Cost(s, fb);
    assert Residue(s.host.tail + cost) <= s.host.tail + cost;
    hide Residue, Find;
  }

  lemma {:induction false} ShortRunIsPaced(fs: seq<FlipOf>)
    requires AllWellFormed(fs) && |fs| <= FLIPS
    ensures EveryFlipSafe(fs) && Paced(Flips(INIT, fs), |fs|)
  {
    if fs != [] {
      var init, f := fs[..|fs| - 1], fs[|fs| - 1];
      hide Agree, Flip, Flips, WellFormed, AllWellFormed, Cycled, Flipped, Safe, Paced;
      hide EveryFlipSafe, AllPresented, Hit, Fresh, Tiny;
      PrefixWellFormed(fs);
      ShortRunIsPaced(init);
      EveryRunAgrees(init);
      var s := Flips(INIT, init);
      PacedIsSafe(s, |init|, f.fb);
      FlipEffect(s, f.fb, f.rect);
      PacedStep(s, Flip(s, f.fb, f.rect), |init|, f.fb);
      LastFlip(fs);
      SafeSnoc(fs);
    }
  }

  lemma PrefixWellFormed(fs: seq<FlipOf>)
    requires AllWellFormed(fs) && fs != []
    ensures AllWellFormed(fs[..|fs| - 1]) && WellFormed(fs[|fs| - 1].fb)
  {
    hide WellFormed;
  }

  lemma LastFlip(fs: seq<FlipOf>)
    requires fs != []
    ensures Flips(INIT, fs) == Flip(Flips(INIT, fs[..|fs| - 1]), fs[|fs| - 1].fb, fs[|fs| - 1].rect)
  {
    hide Flip;
  }

  lemma SafeSnoc(fs: seq<FlipOf>)
    requires fs != [] && EveryFlipSafe(fs[..|fs| - 1]) && WellFormed(fs[|fs| - 1].fb)
    requires Safe(Flips(INIT, fs[..|fs| - 1]), fs[|fs| - 1].fb)
    ensures EveryFlipSafe(fs)
  {
    hide WellFormed, Safe, Flips;
    var init := fs[..|fs| - 1];
    forall n | 0 <= n < |fs| ensures WellFormed(fs[n].fb) && Safe(Flips(INIT, fs[..n]), fs[n].fb) {
      if n < |init| {
        assert init[..n] == fs[..n] && init[n] == fs[n];
      }
    }
  }

  // ---- A run that reaches the wrap ----

  /** Four-byte framebuffers, one per address. */
  function Tiny(i: nat): Framebuffer
    requires i < 0x1_0000_0000
  {
    Framebuffer(i, 1, 1, 4)
  }

  const NO_DAMAGE := Resource.Rect(0, 0, 0, 0)

  function Fresh(n: nat): (fs: seq<FlipOf>)
    requires n <= 0x1_0000_0000
    ensures |fs| == n
  {
    if n == 0 then [] else Fresh(n - 1) + [FlipOf(Tiny(n - 1), NO_DAMAGE)]
  }

  /** After `n` first flips: the cache holds the last four framebuffers, the newest on the head. */
  ghost predicate Cycled(s: State, n: nat)
  {
    && |s.cache| == FBCACHE && s.next == n % FBCACHE && s.nextResId == s.scanoutResId == n
    && s.host.tail == (if n < 4 then 4 * n else 5 * n - 4)
    && (forall j :: 0 <= j < FBCACHE ==> s.cache[j].valid ==> s.cache[j].fb.addr < n)
    && (forall j :: 0 <= j < FBCACHE ==> (s.cache[j].valid <==> j < n))
    && (n >= 2 ==> Matches(s.cache[(n - 2) % FBCACHE], Tiny(n - 2)))
    && (n >= 1 ==> Matches(s.cache[(n - 1) % FBCACHE], Tiny(n - 1))
                   && s.cache[(n - 1) % FBCACHE].resId == n)
  }

  lemma FreshStep(s: State, s': State, n: nat)
    requires Cycled(s, n) && n < FLIPS - 1 && Flipped(s, s', Tiny(n))
    ensures Cycled(s', n + 1)
  {
    FreshMisses(s, n);
    NextSlot(n);
    var tail := s.host.tail + Cost(s, Tiny(n));
    assert tail < 0x1_0000_0000 ==> Residue(tail) == tail;
    hide Find, Residue;
  }

  lemma NextSlot(n: nat)
    ensures (n % FBCACHE + 1) % FBCACHE == (n + 1) % FBCACHE
    ensures n > 0 ==> (n - 1) % FBCACHE != n % FBCACHE
    ensures n < FBCACHE ==> n % FBCACHE == n
  {
    var q, r := n / 4, n % 4;
    assert n == 4 * q + r;
    if r == 3 {
      assert n + 1 == 4 * (q + 1);
    }
    if r == 0 && n > 0 {
      assert n - 1 == 4 * (q - 1) + 3;
    }
  }

  lemma FreshMisses(s: State, n: nat)
    requires Cycled(s, n) && n < FLIPS
    ensures !Hit(s, Tiny(n))
  {
  }

  lemma {:induction false} FreshRun(n: nat)
    requires n < FLIPS
    ensures AllWellFormed(Fresh(n)) && Agree(Flips(INIT, Fresh(n))) && Cycled(Flips(INIT, Fresh(n)), n)
  {
    hide Agree, Flip, Flips, WellFormed, AllWellFormed, Cycled, Flipped, Safe, Paced;
    hide EveryFlipSafe, AllPresented, Hit, Fresh, Tiny;
    FreshMeans(n);
    if n == 0 {
      StartCycled();
    } else {
      FreshRun(n - 1);
      var s := Flips(INIT, Fresh(n - 1));
      CycledIsSafe(s, n - 1);
      FlipAgrees(s, Tiny(n - 1), NO_DAMAGE);
      FlipEffect(s, Tiny(n - 1), NO_DAMAGE);
      FreshStep(s, Flip(s, Tiny(n - 1), NO_DAMAGE), n - 1);
      FlipSnoc(Fresh(n - 1), FlipOf(Tiny(n - 1), NO_DAMAGE));
    }
  }

  lemma FreshMeans(n: nat)
    requires n < FLIPS
    ensures n == 0 ==> Fresh(n) == []
    ensures n > 0 ==> Fresh(n) == Fresh(n - 1) + [FlipOf(Tiny(n - 1), NO_DAMAGE)] && WellFormed(Tiny(n - 1))
  {
  }

  lemma StartCycled()
    ensures AllWellFormed([]) && Flips(INIT, []) == INIT && Agree(INIT) && Cycled(INIT, 0)
  {
  }

  lemma CycledIsSafe(s: State, n: nat)
    requires Cycled(s, n) && n < FLIPS
    ensures Safe(s, Tiny(n))
  {
  }

  lemma FlipSnoc(fs: seq<FlipOf>, f: FlipOf)
    ensures Flips(INIT, fs + [f]) == Flip(Flips(INIT, fs), f.fb, f.rect)
    ensures AllWellFormed(fs) && WellFormed(f.fb) ==> AllWellFormed(fs + [f])
  {
    hide Flip, WellFormed;
    assert (fs + [f])[..|fs + [f]| - 1] == fs;
  }

  /** One more flip of the last buffer but one: a hit whose rebind brings the tail to three pushes
      from the wrap. */
  lemma HitBeforeWrap(s: State, s': State)
    requires Agree(s) && Cycled(s, FLIPS - 1) && Flipped(s, s', Tiny(FLIPS - 3))
    ensures s'.host.tail == 0xFFFF_FFFD && s'.nextResId < 0xFFFF_FFFF
    ensures !Hit(s', Tiny(FLIPS))
  {
    var k, j := Find(s.cache, Tiny(FLIPS - 3), 0), (FLIPS - 3) % FBCACHE;
    assert Matches(s.cache[j], Tiny(FLIPS - 3));
    assert k < |s.cache| && s.cache[k].resId != s.scanoutResId;
  }

  /** One flip more than `FLIPS`, of well-formed framebuffers only, after which the host knows a
      blob that the guest has abandoned. */
  lemma LongRunDisagrees() returns (fs: seq<FlipOf>)
    ensures |fs| == FLIPS + 1 && AllWellFormed(fs) && !Agree(Flips(INIT, fs))
  {
    hide Agree, Flip, Flips, WellFormed, AllWellFormed, Cycled, Flipped, Safe, Paced;
    hide EveryFlipSafe, AllPresented, Hit, Fresh, Tiny;
    var n := FLIPS - 1;
    FreshRun(n);
    var s := Flips(INIT, Fresh(n));
    var again, last := FlipOf(Tiny(FLIPS - 3), NO_DAMAGE), FlipOf(Tiny(FLIPS), NO_DAMAGE);
    TinyAreWellFormed();
    SafeBeforeWrap(s);
    FlipAgrees(s, again.fb, again.rect);
    FlipEffect(s, again.fb, again.rect);
    var s' := Flip(s, again.fb, again.rect);
    HitBeforeWrap(s, s');
    FlipAgreesIff(s', last.fb, last.rect);
    FlipSnoc(Fresh(n), again);
    FlipSnoc(Fresh(n) + [again], last);
    fs := Fresh(n) + [again] + [last];
  }

  lemma TinyAreWellFormed()
    ensures WellFormed(Tiny(FLIPS - 3)) && WellFormed(Tiny(FLIPS))
  {
  }

  lemma SafeBeforeWrap(s: State)
    requires Cycled(s, FLIPS - 1)
    ensures Safe(s, Tiny(FLIPS - 3))
  {
  }

  // ---- The exact bound ----

  /** Every run of at most `bound` well-formed flips ends in agreement, with every flip presented. */
  ghost predicate RunsAgree(bound: nat)
  {
    forall fs: seq<FlipOf> :: |fs| <= bound && AllWellFormed(fs) ==>
      Agree(Flips(INIT, fs)) && Flips(INIT, fs).host.presents == AllPresented(fs)
  }

  /** From a fresh device the two ends agree after every run of well-formed flips, whatever the
      framebuffers, if and only if the runs are no longer than 858,993,460 flips. */
  lemma RunsAgreeIff(bound: nat)
    ensures RunsAgree(bound) <==> bound <= FLIPS
  {
    if bound <= FLIPS {
      forall fs: seq<FlipOf> | |fs| <= bound && AllWellFormed(fs)
        ensures Agree(Flips(INIT, fs)) && Flips(INIT, fs).host.presents == AllPresented(fs)
      {
        hide Agree, Flip, Flips, WellFormed, AllWellFormed, Cycled, Flipped, Safe, Paced;
        hide EveryFlipSafe, AllPresented, Hit, Fresh, Tiny;
        ShortRunIsPaced(fs);
        EveryRunAgrees(fs);
      }
    } else {
      hide Flips, Agree, AllWellFormed, AllPresented;
      var fs := LongRunDisagrees();
    }
  }
}
