/**
 Guest-physical to host translation. The table is the ordered map's entries in key order; `Floor`
 is `range(..=addr).next_back()`. Host memory is one byte array that the mappings view.
 */
module Dma {
  import opened Words

  /** `[base, base + size)` of guest-physical space, backed by host bytes from `host` on. */
  datatype Mapping = Mapping(base: u64, size: u64, host: nat)
  {
    function End(): nat { base + size }
  }

  type Maps = seq<Mapping>

  predicate Sorted(ms: Maps)
  {
    forall i, j :: 0 <= i < j < |ms| ==> ms[i].base < ms[j].base
  }

  /** `BTreeMap::insert`: a mapping with the same base is replaced. */
  function Insert(ms: Maps, m: Mapping): (r: Maps)
  {
    if ms == [] then [m]
    else
      var init, last := ms[..|ms| - 1], ms[|ms| - 1];
      if last.base < m.base then ms + [m]
      else if last.base == m.base then init + [m]
      else Insert(init, m) + [last]
  }

  function Remove(ms: Maps, base: u64): Maps
  {
    if ms == [] then []
    else
      var init, last := ms[..|ms| - 1], ms[|ms| - 1];
      if last.base == base then init else Remove(init, base) + [last]
  }

  /** The mapping with the greatest base not above `addr`. */
  function Floor(ms: Maps, addr: u64): (r: Option<Mapping>)
    ensures r.Some? ==> r.value.base <= addr
  {
    if ms == [] then None
    else if ms[|ms| - 1].base <= addr then Some(ms[|ms| - 1])
    else Floor(ms[..|ms| - 1], addr)
  }

  /** `resolve`: one ordered lookup, then two checked additions and one comparison. */
  function Resolve(ms: Maps, addr: u64, len: nat): Option<nat>
  {
    match Floor(ms, addr)
    case None => None
    case Some(m) =>
      if addr + len >= 0x1_0000_0000_0000_0000 || m.End() >= 0x1_0000_0000_0000_0000 then None
      else if addr + len <= m.End() then Some(m.host + (addr - m.base))
      else None
  }

  // ---- The simple form: linear search ----

  predicate Contains(m: Mapping, addr: u64, len: nat)
  {
    m.base <= addr && addr + len <= m.End()
  }

  ghost predicate SomeContains(ms: Maps, addr: u64, len: nat)
  {
    exists m :: m in ms && Contains(m, addr, len)
  }

  /** Every mapping is non-empty and ends inside the 64-bit space. */
  predicate NonWrapping(ms: Maps)
  {
    forall m :: m in ms ==> 0 < m.size && m.End() < 0x1_0000_0000_0000_0000
  }

  predicate Disjoint(ms: Maps)
  {
    forall i, j :: 0 <= i < j < |ms| ==> ms[i].End() <= ms[j].base
  }

  /** No mapping reaches beyond one that starts inside it. */
  predicate NoNesting(ms: Maps)
  {
    forall i, j :: 0 <= i < j < |ms| && ms[j].base < ms[i].End() ==> ms[i].End() <= ms[j].End()
  }

  lemma {:induction false} FloorIsGreatest(ms: Maps, addr: u64)
    requires Sorted(ms)
    ensures match Floor(ms, addr)
            case None => forall m :: m in ms ==> m.base > addr
            case Some(f) => && f in ms && f.base <= addr
                            && forall m :: m in ms && m.base <= addr ==> m.base <= f.base
  {
    if ms != [] && ms[|ms| - 1].base > addr {
      FloorIsGreatest(ms[..|ms| - 1], addr);
    }
  }

  lemma SameBaseSameMapping(ms: Maps, a: Mapping, b: Mapping)
    requires Sorted(ms) && a in ms && b in ms && a.base == b.base
    ensures a == b
  {
    var i :| 0 <= i < |ms| && ms[i] == a;
    var j :| 0 <= j < |ms| && ms[j] == b;
  }

  lemma OrderedByBase(ms: Maps, a: Mapping, b: Mapping) returns (i: nat, j: nat)
    requires Sorted(ms) && a in ms && b in ms && a.base < b.base
    ensures i < j < |ms| && ms[i] == a && ms[j] == b
  {
    i :| 0 <= i < |ms| && ms[i] == a;
    j :| 0 <= j < |ms| && ms[j] == b;
  }

  /** The ordered lookup and the linear search accept the same ranges. */
  ghost predicate AgreesWithSearch(ms: Maps)
  {
    forall addr: u64, len: nat :: Resolve(ms, addr, len).Some? <==> SomeContains(ms, addr, len)
  }

  lemma ResolveFindsContainer(ms: Maps, addr: u64, len: nat)
    requires Sorted(ms) && NonWrapping(ms) && NoNesting(ms)
    ensures Resolve(ms, addr, len).Some? <==> SomeContains(ms, addr, len)
  {
    FloorIsGreatest(ms, addr);
    if m :| m in ms && Contains(m, addr, len) {
      var f := Floor(ms, addr).value;
      if m.base == f.base {
        SameBaseSameMapping(ms, m, f);
      } else {
        var i, j := OrderedByBase(ms, m, f);
      }
    }
  }

  /** Exactly when the lookup is as good as a search: on tables without nesting, overlapping or
      not. */
  lemma AgreesIff(ms: Maps)
    requires Sorted(ms) && NonWrapping(ms)
    ensures AgreesWithSearch(ms) <==> NoNesting(ms)
  {
    if NoNesting(ms) {
      forall addr: u64, len: nat
        ensures Resolve(ms, addr, len).Some? <==> SomeContains(ms, addr, len)
      {
        ResolveFindsContainer(ms, addr, len);
      }
    } else {
      var i, j :| 0 <= i < j < |ms| && ms[j].base < ms[i].End() && ms[i].End() > ms[j].End();
      var addr, len := ms[j].base, ms[i].End() - ms[j].base;
      FloorIsGreatest(ms, addr);
      SameBaseSameMapping(ms, Floor(ms, addr).value, ms[j]);
      assert Contains(ms[i], addr, len) && ms[i] in ms;
      assert Resolve(ms, addr, len).None? && SomeContains(ms, addr, len);
    }
  }

  /** For disjoint mappings: `resolve` succeeds iff one mapping contains the whole range, and
      returns that mapping's host base plus the offset; a non-empty range has only one. */
  lemma ResolveIff(ms: Maps, addr: u64, len: nat)
    requires Sorted(ms) && NonWrapping(ms) && Disjoint(ms)
    ensures Resolve(ms, addr, len).Some? <==> SomeContains(ms, addr, len)
    ensures forall m :: m in ms && Contains(m, addr, len) && len > 0 ==>
              Resolve(ms, addr, len) == Some(m.host + (addr - m.base))
    ensures Resolve(ms, addr, len).Some? ==>
              exists m :: m in ms && Contains(m, addr, len) && Resolve(ms, addr, len) == Some(m.host + (addr - m.base))
  {
    ResolveFindsContainer(ms, addr, len);
    FloorIsGreatest(ms, addr);
    forall m | m in ms && Contains(m, addr, len) && len > 0
      ensures Resolve(ms, addr, len) == Some(m.host + (addr - m.base))
    {
      var f := Floor(ms, addr).value;
      if m.base < f.base {
        var i, j := OrderedByBase(ms, m, f);
        assert false;
      } else {
        SameBaseSameMapping(ms, m, f);
      }
    }
  }

  // ---- Tables built by any sequence of map and unmap ----

  datatype Op = Map(m: Mapping) | Unmap(base: u64) | Clear

  function Apply(ms: Maps, op: Op): Maps
  {
    match op
    case Map(m) => if m.size == 0 then ms else Insert(ms, m)
    case Unmap(base) => Remove(ms, base)
    case Clear => []
  }

  function Run(ops: seq<Op>): Maps
  {
    if ops == [] then [] else Apply(Run(ops[..|ops| - 1]), ops[|ops| - 1])
  }

  predicate Apart(a: Mapping, b: Mapping)
  {
    a.End() <= b.base || b.End() <= a.base
  }

  /** The client maps only ranges inside the 64-bit space that overlap nothing live at another base. */
  predicate HonestOps(ops: seq<Op>)
  {
    ops == [] ||
    (var init, op := ops[..|ops| - 1], ops[|ops| - 1];
     HonestOps(init) &&
     (op.Map? ==> op.m.End() < 0x1_0000_0000_0000_0000 &&
                  forall m :: m in Run(init) && m.base != op.m.base ==> Apart(m, op.m)))
  }

  lemma {:induction false} InsertMembers(ms: Maps, m: Mapping)
    requires Sorted(ms)
    ensures Sorted(Insert(ms, m))
    ensures forall x :: x in Insert(ms, m) <==> x == m || (x in ms && x.base != m.base)
  {
    if ms != [] {
      var init, last := ms[..|ms| - 1], ms[|ms| - 1];
      if last.base > m.base {
        InsertMembers(init, m);
        assert forall x :: x in ms <==> x in init || x == last;
        assert forall x :: x in Insert(init, m) ==> x.base < last.base;
      } else if last.base == m.base {
        assert forall x :: x in ms <==> x in init || x == last;
      }
    }
  }

  lemma {:induction false} RemoveMembers(ms: Maps, base: u64)
    requires Sorted(ms)
    ensures Sorted(Remove(ms, base))
    ensures forall x :: x in Remove(ms, base) <==> x in ms && x.base != base
  {
    if ms != [] {
      var init, last := ms[..|ms| - 1], ms[|ms| - 1];
      assert forall x :: x in ms <==> x in init || x == last;
      if last.base != base {
        RemoveMembers(init, base);
        assert forall x :: x in Remove(init, base) ==> x.base < last.base;
      }
    }
  }

  /** What each operation leaves in the table. */
  lemma ApplyMembers(ms: Maps, op: Op, x: Mapping)
    requires Sorted(ms)
    ensures Sorted(Apply(ms, op))
    ensures op.Map? && op.m.size == 0 ==> Apply(ms, op) == ms
    ensures op.Map? && op.m.size > 0 ==> (x in Apply(ms, op) <==> x == op.m || (x in ms && x.base != op.m.base))
    ensures op.Unmap? ==> (x in Apply(ms, op) <==> x in ms && x.base != op.base)
    ensures op.Clear? ==> Apply(ms, op) == []
  {
    match op
    case Map(m) => InsertMembers(ms, m);
    case Unmap(base) => RemoveMembers(ms, base);
    case Clear =>
  }

  ghost predicate PairwiseApart(ms: Maps)
  {
    forall a, b :: a in ms && b in ms && a.base != b.base ==> Apart(a, b)
  }

  lemma ApartIsDisjoint(ms: Maps)
    requires Sorted(ms) && NonWrapping(ms) && PairwiseApart(ms)
    ensures Disjoint(ms)
  {
    forall i, j | 0 <= i < j < |ms| ensures ms[i].End() <= ms[j].base {
      assert ms[i] in ms && ms[j] in ms && Apart(ms[i], ms[j]);
    }
  }

  lemma {:induction false} RunIsGood(ops: seq<Op>)
    requires HonestOps(ops)
    ensures Sorted(Run(ops)) && NonWrapping(Run(ops)) && PairwiseApart(Run(ops)) && Disjoint(Run(ops))
  {
    if ops != [] {
      var init, op := ops[..|ops| - 1], ops[|ops| - 1];
      RunIsGood(init);
      match op
      case Map(m) => InsertMembers(Run(init), m);
      case Unmap(base) => RemoveMembers(Run(init), base);
      case Clear =>
    }
    ApartIsDisjoint(Run(ops));
  }

  /** The lookup over every honest history of map, unmap and clear. */
  lemma ResolveOverAnyHistory(ops: seq<Op>, addr: u64, len: nat)
    requires HonestOps(ops)
    ensures Resolve(Run(ops), addr, len).Some? <==> SomeContains(Run(ops), addr, len)
    ensures forall m :: m in Run(ops) && Contains(m, addr, len) && len > 0 ==>
              Resolve(Run(ops), addr, len) == Some(m.host + (addr - m.base))
  {
    RunIsGood(ops);
    ResolveIff(Run(ops), addr, len);
  }

  // ---- Reading and writing through the table ----

  /** Guest RAM: the table and the host bytes behind it. */
  datatype Ram = Ram(maps: Maps, mem: seq<byte>)

  /** Mappings are apart in guest space and view separate host ranges. */
  ghost predicate Good(r: Ram)
  {
    && Sorted(r.maps) && NonWrapping(r.maps) && Disjoint(r.maps)
    && (forall m :: m in r.maps ==> m.host + m.size <= |r.mem|)
    && (forall a, b :: a in r.maps && b in r.maps && a.base != b.base ==>
          a.host + a.size <= b.host || b.host + b.size <= a.host)
  }

  function Read(r: Ram, addr: u64, len: nat): Option<seq<byte>>
  {
    match Resolve(r.maps, addr, len)
    case None => None
    case Some(p) => if p + len <= |r.mem| then Some(r.mem[p..p + len]) else None
  }

  function Write(r: Ram, addr: u64, bs: seq<byte>): Option<Ram>
  {
    match Resolve(r.maps, addr, |bs|)
    case None => None
    case Some(p) =>
      if p + |bs| <= |r.mem| then Some(r.(mem := r.mem[..p] + bs + r.mem[p + |bs|..])) else None
  }

  /** The guest byte at `addr`, 0 where nothing is mapped. */
  function Peek(r: Ram, addr: u64): byte
  {
    match Read(r, addr, 1)
    case None => 0
    case Some(b) => b[0]
  }

  /** A non-empty range inside mapping `m` resolves to `m`'s bytes. */
  lemma ResolvedInside(r: Ram, m: Mapping, addr: u64, len: nat)
    requires Good(r) && m in r.maps && Contains(m, addr, len) && len > 0
    ensures var p := m.host + (addr - m.base);
            && Resolve(r.maps, addr, len) == Some(p) && p + len <= |r.mem|
            && Read(r, addr, len) == Some(r.mem[p..p + len])
  {
    ResolveIff(r.maps, addr, len);
  }

  lemma PeekInside(r: Ram, m: Mapping, a: u64)
    requires Good(r) && m in r.maps && Contains(m, a, 1)
    ensures m.host + (a - m.base) < |r.mem| && Peek(r, a) == r.mem[m.host + (a - m.base)]
  {
    ResolvedInside(r, m, a, 1);
    hide Resolve, Read;
  }

  lemma ContainerOf(r: Ram, addr: u64, len: nat) returns (m: Mapping)
    requires Good(r) && Resolve(r.maps, addr, len).Some?
    ensures m in r.maps && Contains(m, addr, len)
  {
    ResolveIff(r.maps, addr, len);
    m :| m in r.maps && Contains(m, addr, len);
  }

  /** A successful multi-byte read is the guest's bytes, one address after the other. */
  lemma ReadIsPeek(r: Ram, addr: u64, len: nat, i: nat)
    requires Good(r) && Read(r, addr, len).Some? && i < len
    ensures |Read(r, addr, len).value| == len
    ensures addr + i < 0x1_0000_0000_0000_0000 && Peek(r, addr + i) == Read(r, addr, len).value[i]
  {
    var m := ContainerOf(r, addr, len);
    ResolvedInside(r, m, addr, len);
    assert m.End() < 0x1_0000_0000_0000_0000;
    hide Good, Resolve, Read, Peek;
    PeekInside(r, m, addr + i);
  }

  /** A write through the table changes exactly the written guest bytes, for every address mapped
      anywhere in the table. */
  lemma WriteIsPoke(r: Ram, addr: u64, bs: seq<byte>, a: u64)
    requires Good(r) && Write(r, addr, bs).Some? && Resolve(r.maps, a, 1).Some?
    ensures Good(Write(r, addr, bs).value)
    ensures Peek(Write(r, addr, bs).value, a) ==
            if addr <= a < addr + |bs| then bs[a - addr] else Peek(r, a)
  {
    var r' := Write(r, addr, bs).value;
    var n := ContainerOf(r, a, 1);
    PeekInside(r, n, a);
    PeekInside(r', n, a);
    if bs == [] {
      assert r'.mem == r.mem;
    } else {
      var m := ContainerOf(r, addr, |bs|);
      ResolvedInside(r, m, addr, |bs|);
      WriteSplice(r, addr, bs, m, n, a);
    }
  }

  lemma WriteSplice(r: Ram, addr: u64, bs: seq<byte>, m: Mapping, n: Mapping, a: u64)
    requires Good(r) && m in r.maps && n in r.maps && bs != []
    requires Contains(m, addr, |bs|) && Contains(n, a, 1)
    requires Resolve(r.maps, addr, |bs|) == Some(m.host + (addr - m.base)) && Write(r, addr, bs).Some?
    ensures var i := n.host + (a - n.base);
            var mem := Write(r, addr, bs).value.mem;
            i < |r.mem| == |mem| && mem[i] == if addr <= a < addr + |bs| then bs[a - addr] else r.mem[i]
  {
    if addr <= a < addr + |bs| {
      PeekInside(r, m, a);
      PeekInside(r, n, a);
      assert Contains(m, a, 1);
      ResolveIff(r.maps, a, 1);
    } else if n.base == m.base {
      SameBaseSameMapping(r.maps, n, m);
    }
    hide Resolve, Read, Peek;
  }

  class DmaTable {
    var maps: Maps
    const mem: array<byte>

    function Value(): Ram
      reads this, mem
    {
      Ram(maps, mem[..])
    }

    constructor (mem: array<byte>)
      ensures this.mem == mem && maps == []
    {
      this.mem, maps := mem, [];
    }

    /** `map`, with the outcome of `mmap` as a parameter; `None` is `MAP_FAILED`. */
    method Map(base: u64, size: u64, mmap: Option<nat>) returns (ok: bool)
      modifies this
      ensures ok <==> size == 0 || mmap.Some?
      ensures maps == if ok && size > 0 then Apply(old(maps), Op.Map(Mapping(base, size, mmap.value))) else old(maps)
    {
      if size == 0 {
        return true;
      }
      if mmap.None? {
        return false;
      }
      maps := Insert(maps, Mapping(base, size, mmap.value));
      return true;
    }

    method Unmap(base: u64)
      modifies this
      ensures maps == Apply(old(maps), Op.Unmap(base))
    {
      maps := Remove(maps, base);
    }

    /** `clear`: unmap key by key. */
    method Clear()
      modifies this
      ensures maps == Apply(old(maps), Op.Clear)
    {
      while maps != []
        decreases |maps|
      {
        ghost var before := maps;
        Unmap(maps[|maps| - 1].base);
        assert maps == before[..|before| - 1];
      }
    }

    method ReadBytes(addr: u64, len: nat) returns (r: Option<seq<byte>>)
      ensures r == Read(Value(), addr, len)
    {
      match Resolve(maps, addr, len)
      case None => r := None;
      case Some(p) => r := if p + len <= mem.Length then Some(mem[p..p + len]) else None;
    }

    method WriteBytes(addr: u64, bs: seq<byte>) returns (ok: bool)
      modifies mem
      ensures ok <==> Write(old(Value()), addr, bs).Some?
      ensures Value() == if ok then Write(old(Value()), addr, bs).value else old(Value())
    {
      var p := Resolve(maps, addr, |bs|);
      ok := p.Some? && p.value + |bs| <= mem.Length;
      if ok {
        for i := 0 to |bs|
          invariant mem[..] == old(mem[..])[..p.value] + bs[..i] + old(mem[..])[p.value + i..]
        {
          mem[p.value + i] := bs[i];
          assert bs[..i + 1] == bs[..i] + [bs[i]];
        }
        assert bs[..|bs|] == bs;
      }
    }
  }
}
