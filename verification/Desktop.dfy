/**
 From a flip in the guest to the pixels on the scanout surface: the presents that reach the host
 through the blob protocol (module `Present`) are the ones that patch the surface (module `Damage`).
 */
module Desktop {
  import opened Words
  import Dma
  import Damage
  import Doorbell
  import Resource
  import Present
  import FlipRuns

  /** One flip, guest memory as its present finds it, and the broker's admission decision. */
  datatype Turn = Turn(flip: Present.FlipOf, ram: Dma.Ram, admitted: bool)

  function FlipsOf(ts: seq<Turn>): (fs: seq<Present.FlipOf>)
    ensures |fs| == |ts|
  {
    seq(|ts|, i requires 0 <= i < |ts| => ts[i].flip)
  }

  /** The request `present_resource_flush` makes of a present. */
  function RequestOf(p: Present.Presented): Damage.Request
  {
    Damage.Request(p.w, p.h, p.pitch, p.format, p.addr, p.rect.x, p.rect.y, p.rect.w, p.rect.h)
  }

  /** What a flip's own framebuffer and rect ask for. */
  function Wanted(t: Turn): Damage.Request
  {
    RequestOf(Present.PresentedFor(t.flip.fb, t.flip.rect))
  }

  // ---- One present, on values ----

  /** A surface fit to patch is there, and the damage is not the whole frame. */
  predicate Patches(was: Option<Damage.Surface>, q: Damage.Request)
  {
    var r := Damage.Clamped(q);
    !(r.x == 0 && r.y == 0 && r.w == q.w && r.h == q.h) && was.Some? && Damage.Fits(was.value, q)
  }

  predicate Completes(was: Option<Damage.Surface>, ram: Dma.Ram, q: Damage.Request, admitted: bool)
  {
    var r := Damage.Clamped(q);
    && admitted && Damage.GoodGeometry(q)
    && (if Patches(was, q) then
          r.w > 0 && r.h > 0 ==> forall y :: r.y <= y < r.y + r.h ==> Damage.ReadPixels(ram, q, y, r.x, r.w).Some?
        else Dma.Read(ram, q.addr, Damage.Stride(q.pitch, q.h)).Some?)
  }

  /** The surface before and after a present. */
  ghost predicate Step(was: Option<Damage.Surface>, now: Option<Damage.Surface>, ram: Dma.Ram,
                       q: Damage.Request, admitted: bool)
  {
    if Completes(was, ram, q, admitted) then
      && now.Some? && Damage.Fits(now.value, q)
      && (if Patches(was, q) then Damage.Patched(was.value, now.value, ram, q, Damage.Clamped(q))
          else Damage.ShowsFrame(now.value, ram, q))
    else now == was
  }

  /** Byte `k` of the pixel at `(x, y)` of the flipped framebuffer, in guest memory. */
  function GuestByte(t: Turn, x: nat, y: nat, k: nat): byte
  {
    Dma.Peek(t.ram, Wrap64(t.flip.fb.addr + t.flip.fb.pitch * y + 4 * x + k))
  }

  /** The surface has the framebuffer's size, and its every pixel is the guest's: blue, green and red
      byte as they lie in guest memory, then full alpha. */
  ghost predicate Shows(s: Option<Damage.Surface>, t: Turn)
  {
    && s.Some? && Damage.Shaped(s.value) && s.value.w == t.flip.fb.w && s.value.h == t.flip.fb.h
    && forall x: nat, y: nat :: x < s.value.w && y < s.value.h ==> ShowsPixel(s.value, t, x, y)
  }

  predicate ShowsPixel(s: Damage.Surface, t: Turn, x: nat, y: nat)
    requires Damage.Shaped(s) && x < s.w && y < s.h
  {
    Damage.Pixel(s, x, y) == [GuestByte(t, x, y, 0), GuestByte(t, x, y, 1), GuestByte(t, x, y, 2), 255]
  }

  predicate InDamage(r: Resource.Rect, x: nat, y: nat)
  {
    r.x <= x < r.x + r.w && r.y <= y < r.y + r.h
  }

  predicate SameColour(before: Turn, t: Turn, x: nat, y: nat)
  {
    && GuestByte(before, x, y, 0) == GuestByte(t, x, y, 0)
    && GuestByte(before, x, y, 1) == GuestByte(t, x, y, 1)
    && GuestByte(before, x, y, 2) == GuestByte(t, x, y, 2)
  }

  /** The rect the guest reported for `t` covers every pixel whose colour in guest memory differs from
      `before`'s, as long as the two have the same size. */
  ghost predicate Covers(before: Turn, t: Turn)
  {
    before.flip.fb.w == t.flip.fb.w && before.flip.fb.h == t.flip.fb.h ==>
      forall x: nat, y: nat :: x < t.flip.fb.w && y < t.flip.fb.h && !InDamage(t.flip.rect, x, y) ==>
        SameColour(before, t, x, y)
  }

  lemma ShowsPixelIff(s: Damage.Surface, t: Turn, x: nat, y: nat)
    requires Damage.Fits(s, Wanted(t)) && x < s.w && y < s.h
    ensures ShowsPixel(s, t, x, y) <==> Damage.PixelShown(s, t.ram, Wanted(t), x, y)
  {
    hide Dma.Peek, Damage.Stride, Wrap64;
  }

  lemma ShowsIff(s: Option<Damage.Surface>, t: Turn)
    ensures Shows(s, t) <==> s.Some? && Damage.Fits(s.value, Wanted(t)) && Damage.ShowsFrame(s.value, t.ram, Wanted(t))
  {
    if s.Some? && Damage.Fits(s.value, Wanted(t)) {
      Damage.ShowsFrameIff(s.value, t.ram, Wanted(t));
      forall x: nat, y: nat | x < s.value.w && y < s.value.h
        ensures ShowsPixel(s.value, t, x, y) <==> Damage.PixelShown(s.value, t.ram, Wanted(t), x, y)
      {
        ShowsPixelIff(s.value, t, x, y);
      }
      hide ShowsPixel, Damage.PixelShown, Damage.ShowsFrame, Damage.Stride;
    }
  }

  /** A completed present over a surface that shows `before` shows its own frame if and only if its
      rect is honest about the changes since `before`. */
  lemma StepShowsIff(was: Option<Damage.Surface>, now: Option<Damage.Surface>, before: Turn, t: Turn)
    requires Shows(was, before) && Step(was, now, t.ram, Wanted(t), t.admitted)
    requires Completes(was, t.ram, Wanted(t), t.admitted)
    ensures Shows(now, t) <==> Covers(before, t)
  {
    var q := Wanted(t);
    Damage.ClampIsIntersection(q.w, q.h, q.dx, q.dy, q.dw, q.dh);
    if Patches(was, q) {
      PatchShowsIff(was.value, now.value, before, t);
    } else {
      ShowsIff(now, t);
      RebuiltCovers(was, before, t);
    }
  }

  lemma PatchShowsIff(was: Damage.Surface, now: Damage.Surface, before: Turn, t: Turn)
    requires Shows(Some(was), before) && Damage.Fits(was, Wanted(t)) && Damage.Fits(now, Wanted(t))
    requires Damage.Clamped(Wanted(t)).x + Damage.Clamped(Wanted(t)).w <= Wanted(t).w
    requires Damage.Patched(was, now, t.ram, Wanted(t), Damage.Clamped(Wanted(t)))
    ensures Shows(Some(now), t) <==> Covers(before, t)
  {
    var q := Wanted(t);
    var r := Damage.Clamped(q);
    Damage.PatchedPixels(was, now, t.ram, q, r);
    forall x: nat, y: nat | x < now.w && y < now.h
      ensures ShowsPixel(now, t, x, y) <==> InDamage(t.flip.rect, x, y) || SameColour(before, t, x, y)
    {
      assert ShowsPixel(was, before, x, y);
      PatchedShowsIff(was, now, before, t, x, y);
    }
    hide ShowsPixel, SameColour, InDamage, Damage.Patched, Damage.Clamped, Damage.Stride, Damage.Pixel;
  }

  lemma PatchedShowsIff(was: Damage.Surface, now: Damage.Surface, before: Turn, t: Turn, x: nat, y: nat)
    requires Damage.Fits(was, Wanted(t)) && Damage.Fits(now, Wanted(t)) && x < now.w && y < now.h
    requires ShowsPixel(was, before, x, y)
    requires if Damage.InRect(Damage.Clamped(Wanted(t)), x, y) then Damage.PixelShown(now, t.ram, Wanted(t), x, y)
             else Damage.Pixel(now, x, y) == Damage.Pixel(was, x, y)
    ensures ShowsPixel(now, t, x, y) <==> InDamage(t.flip.rect, x, y) || SameColour(before, t, x, y)
  {
    var q := Wanted(t);
    Damage.ClampIsIntersection(q.w, q.h, q.dx, q.dy, q.dw, q.dh);
    ShowsPixelIff(now, t, x, y);
    hide GuestByte, Damage.Pixel, Damage.PixelShown, Damage.Stride, Damage.ClampDamage;
  }

  lemma RebuiltCovers(was: Option<Damage.Surface>, before: Turn, t: Turn)
    requires Shows(was, before) && !Patches(was, Wanted(t))
    ensures Covers(before, t)
  {
    var q := Wanted(t);
    Damage.ClampIsIntersection(q.w, q.h, q.dx, q.dy, q.dw, q.dh);
    hide SameColour;
  }

  // ---- Runs ----

  lemma {:induction false} AllPresentedAt(fs: seq<Present.FlipOf>, n: nat)
    requires n < |fs|
    ensures |Present.AllPresented(fs)| == |fs|
    ensures Present.AllPresented(fs)[n] == Present.PresentedFor(fs[n].fb, fs[n].rect)
  {
    var init := fs[..|fs| - 1];
    if init == [] {
      assert Present.AllPresented(init) == [];
    } else {
      AllPresentedAt(init, if n < |init| then n else 0);
    }
  }

  /** The request of the `n`-th present that reached the host. */
  ghost function Served(ts: seq<Turn>, n: nat): (q: Damage.Request)
    requires n < |ts| && Present.EveryFlipSafe(FlipsOf(ts))
    ensures q == Wanted(ts[n])
  {
    Present.EveryRunAgrees(FlipsOf(ts));
    AllPresentedAt(FlipsOf(ts), n);
    RequestOf(Present.Flips(Present.INIT, FlipsOf(ts)).host.presents[n])
  }

  /** `ss` are the surfaces of a run that starts with none: each present that reached the host, in
      order, works on the surface the one before it left. */
  ghost predicate Runs(ts: seq<Turn>, ss: seq<Option<Damage.Surface>>)
    requires Present.EveryFlipSafe(FlipsOf(ts))
  {
    && |ss| == |ts| + 1 && ss[0] == None
    && forall n :: 0 <= n < |ts| ==> Step(ss[n], ss[n + 1], ts[n].ram, Served(ts, n), ts[n].admitted)
  }

  predicate CompletesAt(ts: seq<Turn>, ss: seq<Option<Damage.Surface>>, n: nat)
    requires n < |ts| && n < |ss|
  {
    Completes(ss[n], ts[n].ram, Wanted(ts[n]), ts[n].admitted)
  }

  /** The last of the first `n` turns whose present completed. */
  function LastShown(ts: seq<Turn>, ss: seq<Option<Damage.Surface>>, n: nat): (k: Option<nat>)
    requires n <= |ts| <= |ss|
    ensures k.Some? ==> k.value < n
  {
    if n == 0 then None
    else if CompletesAt(ts, ss, n - 1) then Some(n - 1)
    else LastShown(ts, ss, n - 1)
  }

  /** After `n` turns the surface shows the frame that was presented last, if any was. */
  ghost predicate UpToDate(ts: seq<Turn>, ss: seq<Option<Damage.Surface>>, n: nat)
    requires n <= |ts| < |ss|
  {
    match LastShown(ts, ss, n)
    case None => ss[n].None?
    case Some(k) => Shows(ss[n], ts[k])
  }

  /** Turn `n`'s rect covers what changed since the frame presented last. */
  ghost predicate Honest(ts: seq<Turn>, ss: seq<Option<Damage.Surface>>, n: nat)
    requires n < |ts| < |ss|
  {
    CompletesAt(ts, ss, n) && LastShown(ts, ss, n).Some? ==> Covers(ts[LastShown(ts, ss, n).value], ts[n])
  }

  lemma TurnUpToDateIff(ts: seq<Turn>, ss: seq<Option<Damage.Surface>>, n: nat)
    requires n < |ts| < |ss| && UpToDate(ts, ss, n)
    requires Step(ss[n], ss[n + 1], ts[n].ram, Wanted(ts[n]), ts[n].admitted)
    ensures UpToDate(ts, ss, n + 1) <==> Honest(ts, ss, n)
  {
    hide Completes, Shows, Covers, Wanted;
    if CompletesAt(ts, ss, n) {
      match LastShown(ts, ss, n)
      case None => FirstShows(ss[n + 1], ts[n]);
      case Some(k) => StepShowsIff(ss[n], ss[n + 1], ts[k], ts[n]);
    }
  }

  lemma FirstShows(now: Option<Damage.Surface>, t: Turn)
    requires Step(None, now, t.ram, Wanted(t), t.admitted) && Completes(None, t.ram, Wanted(t), t.admitted)
    ensures Shows(now, t)
  {
    ShowsIff(now, t);
    hide Shows, Damage.ShowsFrame, Damage.Stride, Damage.GoodGeometry;
  }

  lemma NothingShown(ts: seq<Turn>, ss: seq<Option<Damage.Surface>>)
    requires |ts| < |ss| && ss[0].None?
    ensures UpToDate(ts, ss, 0)
  {
  }

  /** Over every run, with presents that fail anywhere: the surface shows the frame presented last
      at every moment, if and only if every completed present's rect covers what changed since the
      completed one before it. */
  lemma UpToDateIff(ts: seq<Turn>, ss: seq<Option<Damage.Surface>>)
    requires Present.EveryFlipSafe(FlipsOf(ts)) && Runs(ts, ss)
    ensures (forall n :: 0 <= n <= |ts| ==> UpToDate(ts, ss, n)) <==>
            (forall n :: 0 <= n < |ts| ==> Honest(ts, ss, n))
  {
    NothingShown(ts, ss);
    hide Step, UpToDate, Honest, Present.EveryFlipSafe, Wanted;
    if forall n :: 0 <= n < |ts| ==> Honest(ts, ss, n) {
      for n := 0 to |ts|
        invariant forall m :: 0 <= m <= n ==> UpToDate(ts, ss, m)
      {
        assert Step(ss[n], ss[n + 1], ts[n].ram, Served(ts, n), ts[n].admitted);
        TurnUpToDateIff(ts, ss, n);
      }
    }
    if forall n :: 0 <= n <= |ts| ==> UpToDate(ts, ss, n) {
      forall n | 0 <= n < |ts| ensures Honest(ts, ss, n) {
        assert Step(ss[n], ss[n + 1], ts[n].ram, Served(ts, n), ts[n].admitted);
        assert UpToDate(ts, ss, n) && UpToDate(ts, ss, n + 1);
        TurnUpToDateIff(ts, ss, n);
      }
    }
  }

  // ---- Runs in which nothing fails ----

  /** The whole frame can be read, and the VM is admitted. */
  ghost predicate Presentable(t: Turn)
  {
    var q := Wanted(t);
    t.admitted && Dma.Good(t.ram) && Dma.Read(t.ram, q.addr, Damage.Stride(q.pitch, q.h)).Some?
  }

  lemma WellFormedFits(t: Turn)
    requires Present.WellFormed(t.flip.fb)
    ensures Damage.GoodGeometry(Wanted(t))
  {
    Damage.StrideIsProduct(t.flip.fb.pitch, t.flip.fb.h);
  }

  /** Memory that holds a whole frame holds every stretch of its rows. */
  lemma RowsReadable(ram: Dma.Ram, q: Damage.Request, y: nat, x: nat, n: nat)
    requires Dma.Good(ram) && Damage.GoodGeometry(q) && y < q.h && x + n <= q.w && n > 0
    requires Dma.Read(ram, q.addr, Damage.Stride(q.pitch, q.h)).Some?
    ensures Damage.ReadPixels(ram, q, y, x, n).Some?
  {
    var size, o := Damage.Stride(q.pitch, q.h), Damage.Stride(q.pitch, y) + 4 * x;
    Damage.RowInside(q, y);
    assert o + 4 * n <= size;
    hide Damage.Stride, Dma.Good, Damage.GoodGeometry;
    PartReadable(ram, q.addr, size, o, 4 * n);
    Wrap64Small(q.addr + o);
  }

  lemma PartReadable(ram: Dma.Ram, addr: u64, size: nat, o: nat, n: nat)
    requires Dma.Good(ram) && Dma.Read(ram, addr, size).Some? && o + n <= size && n > 0
    ensures addr + o < 0x1_0000_0000_0000_0000 && Dma.Read(ram, addr + o, n).Some?
  {
    Dma.ResolveIff(ram.maps, addr, size);
    var m :| m in ram.maps && Dma.Contains(m, addr, size);
    assert Dma.Contains(m, addr + o, n);
    Dma.ResolvedInside(ram, m, addr + o, n);
  }

  lemma PresentableCompletes(was: Option<Damage.Surface>, t: Turn)
    requires Present.WellFormed(t.flip.fb) && Presentable(t)
    ensures Completes(was, t.ram, Wanted(t), t.admitted)
  {
    var q := Wanted(t);
    var r := Damage.Clamped(q);
    WellFormedFits(t);
    Damage.ClampIsIntersection(q.w, q.h, q.dx, q.dy, q.dw, q.dh);
    hide Damage.GoodGeometry, Damage.Stride, Dma.Good, Dma.Read, Damage.ReadPixels, Present.WellFormed, Wanted;
    if r.w > 0 {
      forall y | r.y <= y < r.y + r.h ensures Damage.ReadPixels(t.ram, q, y, r.x, r.w).Some? {
        RowsReadable(t.ram, q, y, r.x, r.w);
      }
    }
  }

  /** From a fresh device, over every run of at most `FLIPS` well-formed flips of mapped
      framebuffers: after each flip the surface shows that flip's own frame, if and only if each
      rect covers what changed since the flip before. */
  lemma EveryFlipShownIff(ts: seq<Turn>, ss: seq<Option<Damage.Surface>>)
    requires FlipRuns.AllWellFormed(FlipsOf(ts)) && |ts| <= FlipRuns.FLIPS
    requires forall n :: 0 <= n < |ts| ==> Presentable(ts[n])
    ensures Present.EveryFlipSafe(FlipsOf(ts))
    ensures Runs(ts, ss) ==>
              ((forall n :: 0 <= n < |ts| ==> Shows(ss[n + 1], ts[n])) <==>
               (forall n :: 0 < n < |ts| ==> Covers(ts[n - 1], ts[n])))
  {
    FlipRuns.ShortRunIsPaced(FlipsOf(ts));
    if Runs(ts, ss) {
      hide Present.EveryFlipSafe, Presentable, Shows, Covers, Wanted, Present.WellFormed, Completes;
      hide Step, UpToDate, Honest;
      UpToDateIff(ts, ss);
      forall n | 0 <= n < |ts| ensures CompletesAt(ts, ss, n) {
        assert FlipsOf(ts)[n] == ts[n].flip;
        PresentableCompletes(ss[n], ts[n]);
      }
      NothingShown(ts, ss);
      forall n | 0 <= n < |ts| {
        AfterCompleted(ts, ss, n);
      }
      ShiftUpToDate(ts, ss);
    }
  }

  /** The two conditions at turn `n`, once every turn up to it has completed. */
  lemma AfterCompleted(ts: seq<Turn>, ss: seq<Option<Damage.Surface>>, n: nat)
    requires n < |ts| < |ss| && forall m :: 0 <= m <= n ==> CompletesAt(ts, ss, m)
    ensures UpToDate(ts, ss, n + 1) <==> Shows(ss[n + 1], ts[n])
    ensures Honest(ts, ss, n) <==> (n > 0 ==> Covers(ts[n - 1], ts[n]))
  {
    hide Shows, Covers, CompletesAt;
  }

  lemma ShiftUpToDate(ts: seq<Turn>, ss: seq<Option<Damage.Surface>>)
    requires |ts| < |ss| && UpToDate(ts, ss, 0)
    requires forall n :: 0 <= n < |ts| ==> (UpToDate(ts, ss, n + 1) <==> Shows(ss[n + 1], ts[n]))
    ensures (forall n :: 0 <= n <= |ts| ==> UpToDate(ts, ss, n)) <==>
            (forall n :: 0 <= n < |ts| ==> Shows(ss[n + 1], ts[n]))
  {
    hide UpToDate, Shows;
    forall n | 0 < n <= |ts| ensures UpToDate(ts, ss, n) <==> Shows(ss[n - 1 + 1], ts[n - 1]) {
      assert UpToDate(ts, ss, n - 1 + 1) <==> Shows(ss[n - 1 + 1], ts[n - 1]);
    }
  }

  lemma PushPresents(h: Present.Host, msgType: u32, payload: seq<byte>)
    ensures var ps := Present.AfterPush(h, msgType, payload).presents;
            && (msgType != Resource.RESOURCE_FLUSH ==> ps == h.presents)
            && (ps == h.presents || exists p :: ps == h.presents + [p])
  {
  }

  /** A flip presents at most once, whatever state it starts from. */
  lemma OneFlipPresents(s: Present.State, fb: Present.Framebuffer, rect: Resource.Rect)
    requires s.next < |s.cache|
    ensures var ps := Present.Flip(s, fb, rect).host.presents;
            ps == s.host.presents || exists p :: ps == s.host.presents + [p]
  {
    forall h: Present.Host, m: u32, b: seq<byte>
      ensures m != Resource.RESOURCE_FLUSH ==> Present.AfterPush(h, m, b).presents == h.presents
      ensures Present.AfterPush(h, m, b).presents == h.presents
              || exists p :: Present.AfterPush(h, m, b).presents == h.presents + [p]
    {
      PushPresents(h, m, b);
    }
    hide Present.AfterPush, Present.Find, Present.CreateBytes, Present.AttachBytes, Present.BindBytes, Present.FlushBytes;
  }

  // ---- The code on both ends ----

  class Screen {
    const driver: Present.Driver
    const scanout: Damage.Scanout

    ghost predicate Valid()
      reads this, driver, driver.host.link, driver.host.link.ring, driver.host.link.ring.slots
      reads driver.host.link.payloads, scanout, scanout.bgra
    {
      driver.Valid() && scanout.Valid() && scanout.bgra != driver.host.link.payloads
    }

    ghost function Last(): Option<Damage.Surface>
      reads this, scanout, scanout.bgra
    {
      if scanout.last then Some(scanout.Value()) else None
    }

    constructor ()
      ensures Valid() && driver.Value() == Present.INIT && Last() == None
      ensures fresh(driver) && fresh(driver.fbcache) && fresh(driver.host) && fresh(driver.host.table)
      ensures fresh(driver.host.link) && fresh(driver.host.link.ring) && fresh(driver.host.link.ring.slots)
      ensures fresh(driver.host.link.payloads) && fresh(scanout) && fresh(scanout.bgra)
    {
      driver := new Present.Driver();
      scanout := new Damage.Scanout();
    }

    /** `present_resource_flush` hands its request to the damaged present. */
    method Serve(p: Present.Presented, ram: Dma.Ram, admitted: bool)
      requires scanout.Valid() && Dma.Good(ram)
      modifies scanout, scanout.bgra
      ensures scanout.Valid()
      ensures Step(old(Last()), Last(), ram, RequestOf(p), admitted)
      ensures scanout.bgra == old(scanout.bgra) || fresh(scanout.bgra)
    {
      hide Dma.Good, Dma.Read, Damage.Stride, Damage.TargetRow;
      Damage.StrideIsProduct(p.pitch, p.h);
      var _ := scanout.PresentDamaged(ram, RequestOf(p), admitted);
    }

    /** A flip on both ends: the driver's flush, and the present it makes on the host, if any. */
    method Flip(t: Turn)
      requires Valid() && Dma.Good(t.ram)
      modifies driver, driver.fbcache, driver.host, driver.host.table, driver.host.link
      modifies driver.host.link.ring, driver.host.link.ring.slots, driver.host.link.payloads
      modifies scanout, scanout.bgra
      ensures Valid() && (scanout.bgra == old(scanout.bgra) || fresh(scanout.bgra))
      ensures driver.Value() == Present.Flip(old(driver.Value()), t.flip.fb, t.flip.rect)
      ensures var was, now := old(driver.host.presents), driver.host.presents;
              if now == was then Last() == old(Last())
              else now != [] && now[..|now| - 1] == was
                   && Step(old(Last()), Last(), t.ram, RequestOf(now[|now| - 1]), t.admitted)
    {
      hide Present.Flip, Step, Dma.Good, Damage.Shaped, Doorbell.Device.LockFree;
      ghost var before := driver.Value();
      var n := |driver.host.presents|;
      var _ := driver.FlushResource(t.flip.fb, t.flip.rect);
      OneFlipPresents(before, t.flip.fb, t.flip.rect);
      assert driver.Value().host.presents == driver.host.presents;
      if |driver.host.presents| > n {
        Serve(driver.host.presents[n], t.ram, t.admitted);
      }
    }

    /** A whole run from a fresh device. */
    method Run(ts: seq<Turn>) returns (ghost ss: seq<Option<Damage.Surface>>)
      requires Valid() && driver.Value() == Present.INIT && Last() == None
      requires Present.EveryFlipSafe(FlipsOf(ts)) && forall t :: t in ts ==> Dma.Good(t.ram)
      modifies driver, driver.fbcache, driver.host, driver.host.table, driver.host.link
      modifies driver.host.link.ring, driver.host.link.ring.slots, driver.host.link.payloads
      modifies scanout, scanout.bgra
      ensures Valid() && driver.Value() == Present.Flips(Present.INIT, FlipsOf(ts))
      ensures Runs(ts, ss) && Last() == ss[|ts|]
    {
      hide Present.Flip, Present.Flips, Present.EveryFlipSafe, Step, Dma.Good, Damage.Shaped, Doorbell.Device.LockFree;
      hide Wanted;
      ss := [None];
      NoFlips(ts);
      for n := 0 to |ts|
        invariant Valid() && (scanout.bgra == old(scanout.bgra) || fresh(scanout.bgra))
        invariant driver.Value() == Present.Flips(Present.INIT, FlipsOf(ts)[..n])
        invariant |ss| == n + 1 && ss[0] == None && ss[n] == Last()
        invariant forall m :: 0 <= m < n ==> Step(ss[m], ss[m + 1], ts[m].ram, Wanted(ts[m]), ts[m].admitted)
      {
        NextFlip(ts, n);
        ghost var before := driver.Value().host.presents;
        Flip(ts[n]);
        ss := ss + [Last()];
        assert driver.Value().host.presents == before + [Present.PresentedFor(ts[n].flip.fb, ts[n].flip.rect)];
        LastIsWanted(driver.Value().host.presents, ts[n]);
      }
    }

    lemma NoFlips(ts: seq<Turn>)
      ensures Present.Flips(Present.INIT, FlipsOf(ts)[..0]) == Present.INIT
      ensures FlipsOf(ts)[..|ts|] == FlipsOf(ts)
    {
    }

    lemma LastIsWanted(ps: seq<Present.Presented>, t: Turn)
      requires ps != [] && ps[|ps| - 1] == Present.PresentedFor(t.flip.fb, t.flip.rect)
      ensures RequestOf(ps[|ps| - 1]) == Wanted(t)
    {
    }

    lemma NextFlip(ts: seq<Turn>, n: nat)
      requires Present.EveryFlipSafe(FlipsOf(ts)) && n < |ts|
      ensures var s, s' := Present.Flips(Present.INIT, FlipsOf(ts)[..n]), Present.Flips(Present.INIT, FlipsOf(ts)[..n + 1]);
              && s' == Present.Flip(s, ts[n].flip.fb, ts[n].flip.rect)
              && s'.host.presents == s.host.presents + [Present.PresentedFor(ts[n].flip.fb, ts[n].flip.rect)]
    {
      var fs := FlipsOf(ts);
      hide Present.Flip, Present.Safe, Present.WellFormed, Present.Agree;
      assert fs[..n + 1][..n] == fs[..n];
      forall m | 0 <= m < n
        ensures Present.WellFormed(fs[..n][m].fb) && Present.Safe(Present.Flips(Present.INIT, fs[..n][..m]), fs[..n][m].fb)
      {
        assert fs[..n][..m] == fs[..m];
      }
      Present.EveryRunAgrees(fs[..n]);
      Present.FlipAgrees(Present.Flips(Present.INIT, fs[..n]), fs[n].fb, fs[n].rect);
    }
  }
}
