/**
 The per-VM resource table and the dispatcher that executes `RESOURCE_*` messages against it.
 `Table` is the table as a value with every operation a function of it; `ResourceTable` is the
 object the device mutates, proved to follow those functions.
 */
module Resource {
  import opened Words

  const MAX_RESOURCES: nat := 1024
  const MAX_BLOB_BYTES: nat := 0x400_0000
  const MAX_DIM: nat := 16384
  const MAX_BACKING_ENTRIES: nat := 16384

  datatype Segment = Segment(addr: u64, len: u64)

  datatype Blob = Blob(blobMem: u32, size: u64, backing: seq<Segment>)

  datatype Binding = Binding(resId: u32, width: u32, height: u32, format: u32, stride: u32)

  datatype Error =
    | TableFull
    | Duplicate(resId: u32)
    | BadSize(size: u64)
    | Unknown(resId: u32)
    | BadDims
    | BackingTooSmall

  datatype Table = Table(resources: map<u32, Blob>, scanouts: map<u32, Binding>)

  datatype Result = Ok(table: Table) | Err(error: Error)

  const EMPTY := Table(map[], map[])

  // ---- The table's operations ----

  function CreateBlob(t: Table, resId: u32, blobMem: u32, size: u64): Result
  {
    if |t.resources| >= MAX_RESOURCES then Err(TableFull)
    else if size == 0 || size > MAX_BLOB_BYTES then Err(BadSize(size))
    else if resId in t.resources then Err(Duplicate(resId))
    else Ok(t.(resources := t.resources[resId := Blob(blobMem, size, [])]))
  }

  /** The sum of the segment lengths, `None` once a `checked_add` overflows. */
  function CheckedSum(segs: seq<Segment>): (r: Option<u64>)
  {
    if segs == [] then Some(0)
    else
      match CheckedSum(segs[..|segs| - 1])
      case None => None
      case Some(sum) =>
        var total := sum + segs[|segs| - 1].len as int;
        if total < 0x1_0000_0000_0000_0000 then Some(total) else None
  }

  function AttachBacking(t: Table, resId: u32, segs: seq<Segment>): Result
  {
    if resId !in t.resources then Err(Unknown(resId))
    else
      match CheckedSum(segs)
      case None => Err(BackingTooSmall)
      case Some(total) =>
        if total < t.resources[resId].size then Err(BackingTooSmall)
        else Ok(t.(resources := t.resources[resId := t.resources[resId].(backing := segs)]))
  }

  function SetScanout(t: Table, head: u32, b: Binding): Result
  {
    if b.resId !in t.resources then Err(Unknown(b.resId))
    else if b.width == 0 || b.height == 0 || b.width > MAX_DIM || b.height > MAX_DIM then Err(BadDims)
    else if b.stride < b.width * 4 then Err(BadDims)
    else Ok(t.(scanouts := t.scanouts[head := b]))
  }

  function Destroy(t: Table, resId: u32): Result
  {
    if resId !in t.resources then Err(Unknown(resId))
    else Ok(Table(t.resources - {resId},
                  map h | h in t.scanouts && t.scanouts[h].resId != resId :: t.scanouts[h]))
  }

  /** `head` is the lowest scanout head bound to `resId`; `None` when no head is. */
  ghost predicate IsLowestHead(t: Table, resId: u32, head: Option<u32>)
  {
    match head
    case None => forall h :: h in t.scanouts ==> t.scanouts[h].resId != resId
    case Some(s) =>
      && s in t.scanouts && t.scanouts[s].resId == resId
      && forall h :: h in t.scanouts && t.scanouts[h].resId == resId ==> s <= h
  }

  // ---- The dispatcher ----

  const CREATE_BLOB: u32 := 0x20
  const ATTACH_BACKING: u32 := 0x21
  const RESOURCE_DESTROY: u32 := 0x24
  const SET_SCANOUT_BLOB: u32 := 0x40
  const RESOURCE_FLUSH: u32 := 0x41

  datatype Rect = Rect(x: u32, y: u32, w: u32, h: u32)

  datatype Executed =
    | CreatedBlob(resId: u32)
    | AttachedBacking(resId: u32, segments: nat)
    | SetScanoutHead(head: u32)
    | Destroyed(resId: u32)
    | Flush(resId: u32, rect: Rect)
    | Rejected(error: Error)
    | NotResource
    | ShortPayload

  datatype Outcome = Outcome(table: Table, executed: Executed)

  /** `n` 16-byte `MemEntry` records. */
  function Segments(b: seq<byte>, n: nat): (segs: seq<Segment>)
    requires 16 * n <= |b|
    ensures |segs| == n
  {
    if n == 0 then []
    else Segments(b, n - 1) + [Segment(U64At(b, 16 * (n - 1)), U64At(b, 16 * (n - 1) + 8))]
  }

  function Apply(t: Table, r: Result, executed: Executed): Outcome
  {
    match r
    case Ok(t') => Outcome(t', executed)
    case Err(e) => Outcome(t, Rejected(e))
  }

  function Execute(t: Table, msgType: u32, p: seq<byte>): Outcome
  {
    if msgType == CREATE_BLOB then
      if |p| < 24 then Outcome(t, ShortPayload)
      else Apply(t, CreateBlob(t, U32At(p, 0), U32At(p, 8), U64At(p, 16)), CreatedBlob(U32At(p, 0)))
    else if msgType == ATTACH_BACKING then
      if |p| < 8 then Outcome(t, ShortPayload)
      else
        var resId, n := U32At(p, 0), U32At(p, 4);
        if n > MAX_BACKING_ENTRIES then Outcome(t, Rejected(BackingTooSmall))
        else if |p| - 8 < 16 * n then Outcome(t, ShortPayload)
        else Apply(t, AttachBacking(t, resId, Segments(p[8..], n)), AttachedBacking(resId, n))
    else if msgType == SET_SCANOUT_BLOB then
      if |p| < 24 then Outcome(t, ShortPayload)
      else Apply(t, SetScanout(t, U32At(p, 0),
                               Binding(U32At(p, 4), U32At(p, 8), U32At(p, 12), U32At(p, 16), U32At(p, 20))),
                 SetScanoutHead(U32At(p, 0)))
    else if msgType == RESOURCE_FLUSH then
      if |p| < 24 then Outcome(t, ShortPayload)
      else
        var resId := U32At(p, 0);
        if resId !in t.resources then Outcome(t, Rejected(Unknown(resId)))
        else if t.resources[resId].backing == [] then Outcome(t, Rejected(BackingTooSmall))
        else Outcome(t, Flush(resId, Rect(U32At(p, 4), U32At(p, 8), U32At(p, 12), U32At(p, 16))))
    else if msgType == RESOURCE_DESTROY then
      if |p| < 4 then Outcome(t, ShortPayload)
      else Apply(t, Destroy(t, U32At(p, 0)), Destroyed(U32At(p, 0)))
    else Outcome(t, NotResource)
  }

  // ---- What every message keeps ----

  /** The mathematical sum of the segment lengths. */
  function TotalLen(segs: seq<Segment>): nat
  {
    if segs == [] then 0 else TotalLen(segs[..|segs| - 1]) + segs[|segs| - 1].len
  }

  lemma {:induction false} CheckedSumIsTotal(segs: seq<Segment>)
    ensures CheckedSum(segs) ==
            if TotalLen(segs) < 0x1_0000_0000_0000_0000 then Some(TotalLen(segs)) else None
  {
    if segs != [] {
      CheckedSumIsTotal(segs[..|segs| - 1]);
    }
  }

  ghost predicate BlobInv(b: Blob)
  {
    && 0 < b.size <= MAX_BLOB_BYTES
    && (b.backing != [] ==> b.size <= TotalLen(b.backing) < 0x1_0000_0000_0000_0000)
  }

  ghost predicate BindingInv(t: Table, b: Binding)
  {
    && b.resId in t.resources
    && 0 < b.width <= MAX_DIM && 0 < b.height <= MAX_DIM
    && 4 * b.width <= b.stride
  }

  ghost predicate Inv(t: Table)
  {
    && |t.resources| <= MAX_RESOURCES
    && (forall id :: id in t.resources ==> BlobInv(t.resources[id]))
    && (forall h :: h in t.scanouts ==> BindingInv(t, t.scanouts[h]))
  }

  lemma CreateKeepsInv(t: Table, id: u32, blobMem: u32, size: u64)
    requires Inv(t) && CreateBlob(t, id, blobMem, size).Ok?
    ensures Inv(CreateBlob(t, id, blobMem, size).table)
  {
    hide CheckedSum, TotalLen;
    var t' := CreateBlob(t, id, blobMem, size).table;
    assert t'.resources.Keys == t.resources.Keys + {id};
    forall h | h in t'.scanouts ensures BindingInv(t', t'.scanouts[h]) {
      assert BindingInv(t, t.scanouts[h]);
    }
  }

  lemma AttachKeepsInv(t: Table, id: u32, segs: seq<Segment>)
    requires Inv(t) && AttachBacking(t, id, segs).Ok?
    ensures Inv(AttachBacking(t, id, segs).table)
  {
    CheckedSumIsTotal(segs);
    var t' := AttachBacking(t, id, segs).table;
    assert t'.resources.Keys == t.resources.Keys && |t'.resources| == |t.resources|;
  }

  lemma DestroyKeepsInv(t: Table, id: u32)
    requires Inv(t) && Destroy(t, id).Ok?
    ensures Inv(Destroy(t, id).table)
  {
    var t' := Destroy(t, id).table;
    assert t'.resources.Keys == t.resources.Keys - {id} && |t'.resources| <= |t.resources|;
  }

  /** Executing a message keeps the table's invariant, and every outcome but an accepted
      create / attach / bind / destroy leaves the table exactly as it was. */
  lemma ExecuteKeepsInv(t: Table, msgType: u32, p: seq<byte>)
    requires Inv(t)
    ensures Inv(Execute(t, msgType, p).table)
    ensures var e := Execute(t, msgType, p).executed;
            e.Rejected? || e.ShortPayload? || e.NotResource? || e.Flush? ==> Execute(t, msgType, p).table == t
  {
    hide CheckedSum, TotalLen;
    var o := Execute(t, msgType, p);
    if o.executed.CreatedBlob? {
      CreateKeepsInv(t, U32At(p, 0), U32At(p, 8), U64At(p, 16));
    } else if o.executed.AttachedBacking? {
      AttachKeepsInv(t, U32At(p, 0), Segments(p[8..], U32At(p, 4)));
    } else if o.executed.Destroyed? {
      DestroyKeepsInv(t, U32At(p, 0));
    }
  }

  // ---- Exactly when a message is accepted, and what it then does ----

  lemma {:induction false} SegmentAt(b: seq<byte>, n: nat, i: nat)
    requires 16 * n <= |b| && i < n
    ensures Segments(b, n)[i] == Segment(U64At(b, 16 * i), U64At(b, 16 * i + 8))
  {
    if i < n - 1 {
      SegmentAt(b, n - 1, i);
    }
  }

  /** Create: three refusals in this order, else a new blob without backing. */
  lemma CreateExactly(t: Table, p: seq<byte>)
    requires |p| >= 24
    ensures var o, id, size := Execute(t, 0x20, p), U32At(p, 0), U64At(p, 16);
            if |t.resources| >= 1024 then o == Outcome(t, Rejected(TableFull))
            else if !(0 < size <= 0x400_0000) then o == Outcome(t, Rejected(BadSize(size)))
            else if id in t.resources then o == Outcome(t, Rejected(Duplicate(id)))
            else o == Outcome(Table(t.resources[id := Blob(U32At(p, 8), size, [])], t.scanouts), CreatedBlob(id))
  {
    hide U32At, U64At;
  }

  /** Attach: the entry count is bounded before the length is looked at; then the blob must exist and
      the segments, summed without bound, must cover it and stay below 2^64. */
  lemma AttachExactly(t: Table, p: seq<byte>) returns (segs: seq<Segment>)
    requires |p| >= 8
    ensures var o, id, n := Execute(t, 0x21, p), U32At(p, 0), U32At(p, 4);
            if n > 16384 then o == Outcome(t, Rejected(BackingTooSmall))
            else if |p| < 8 + 16 * n then o == Outcome(t, ShortPayload)
            else if id !in t.resources then o == Outcome(t, Rejected(Unknown(id)))
            else
              && |segs| == n
              && (forall i :: 0 <= i < n ==> segs[i] == Segment(U64At(p, 16 * i + 8), U64At(p, 16 * i + 16)))
              && if t.resources[id].size <= TotalLen(segs) < 0x1_0000_0000_0000_0000
                 then o == Outcome(Table(t.resources[id := t.resources[id].(backing := segs)], t.scanouts),
                                   AttachedBacking(id, n))
                 else o == Outcome(t, Rejected(BackingTooSmall))
  {
    var n := U32At(p, 4);
    segs := [];
    if 16 * n <= |p| - 8 {
      segs := Segments(p[8..], n);
      CheckedSumIsTotal(segs);
      forall i | 0 <= i < n ensures segs[i] == Segment(U64At(p, 16 * i + 8), U64At(p, 16 * i + 16)) {
        SegmentAt(p[8..], n, i);
        FieldAfter(p, 8, 16 * i);
        FieldAfter(p, 8, 16 * i + 8);
      }
    }
    hide CheckedSum, TotalLen, Segments, U64At;
  }

  lemma FieldAfter(p: seq<byte>, a: nat, o: nat)
    requires a + o + 8 <= |p|
    ensures U64At(p[a..], o) == U64At(p, a + o)
  {
  }

  /** Bind: the resource must exist, both sides be between 1 and 16384, and a row hold its pixels. */
  lemma BindExactly(t: Table, p: seq<byte>)
    requires |p| >= 24
    ensures var o, head, id := Execute(t, 0x40, p), U32At(p, 0), U32At(p, 4);
            var w, h, format, stride := U32At(p, 8), U32At(p, 12), U32At(p, 16), U32At(p, 20);
            if id !in t.resources then o == Outcome(t, Rejected(Unknown(id)))
            else if 0 < w <= 16384 && 0 < h <= 16384 && 4 * w <= stride then
              o == Outcome(Table(t.resources, t.scanouts[head := Binding(id, w, h, format, stride)]), SetScanoutHead(head))
            else o == Outcome(t, Rejected(BadDims))
  {
    hide U32At;
  }

  /** Flush: of a backed resource only; the table never changes. */
  lemma FlushExactly(t: Table, p: seq<byte>)
    requires |p| >= 24
    ensures var o, id := Execute(t, 0x41, p), U32At(p, 0);
            if id !in t.resources then o == Outcome(t, Rejected(Unknown(id)))
            else if |t.resources[id].backing| == 0 then o == Outcome(t, Rejected(BackingTooSmall))
            else o == Outcome(t, Flush(id, Rect(U32At(p, 4), U32At(p, 8), U32At(p, 12), U32At(p, 16))))
  {
    hide U32At;
  }

  /** Destroy: the blob goes, and with it exactly the bindings that name it. */
  lemma DestroyExactly(t: Table, p: seq<byte>)
    requires |p| >= 4
    ensures var o, id := Execute(t, 0x24, p), U32At(p, 0);
            if id !in t.resources then o == Outcome(t, Rejected(Unknown(id)))
            else
              && o.executed == Destroyed(id) && o.table.resources == t.resources - {id}
              && (forall h :: h in o.table.scanouts <==> h in t.scanouts && t.scanouts[h].resId != id)
              && (forall h :: h in o.table.scanouts ==> o.table.scanouts[h] == t.scanouts[h])
  {
    hide U32At;
  }

  /** Short bodies and other message types do nothing. */
  lemma OtherwiseNothing(t: Table, msgType: u32, p: seq<byte>)
    ensures msgType !in {0x20, 0x21, 0x24, 0x40, 0x41} ==> Execute(t, msgType, p) == Outcome(t, NotResource)
    ensures msgType in {0x20, 0x40, 0x41} && |p| < 24 ==> Execute(t, msgType, p) == Outcome(t, ShortPayload)
    ensures msgType == 0x21 && |p| < 8 ==> Execute(t, msgType, p) == Outcome(t, ShortPayload)
    ensures msgType == 0x24 && |p| < 4 ==> Execute(t, msgType, p) == Outcome(t, ShortPayload)
  {
  }

  datatype Message = Message(msgType: u32, payload: seq<byte>)

  function ExecuteAll(t: Table, msgs: seq<Message>): Table
  {
    if msgs == [] then t
    else
      var m := msgs[|msgs| - 1];
      Execute(ExecuteAll(t, msgs[..|msgs| - 1]), m.msgType, m.payload).table
  }

  /** After every sequence of messages, however malformed: at most 1024 live blobs of legal size,
      every non-empty backing covers its blob without overflow, and every scanout names a live
      blob with legal dimensions and stride. */
  lemma {:induction false} EveryRunKeepsInv(msgs: seq<Message>)
    ensures Inv(ExecuteAll(EMPTY, msgs))
  {
    if msgs != [] {
      var init, m := msgs[..|msgs| - 1], msgs[|msgs| - 1];
      EveryRunKeepsInv(init);
      ExecuteKeepsInv(ExecuteAll(EMPTY, init), m.msgType, m.payload);
    }
  }

  /** A flush that reaches the present path names a live blob whose backing covers it. */
  lemma FlushIsBacked(msgs: seq<Message>, msgType: u32, p: seq<byte>)
    requires Execute(ExecuteAll(EMPTY, msgs), msgType, p).executed.Flush?
    ensures var t := ExecuteAll(EMPTY, msgs);
            var id := Execute(t, msgType, p).executed.resId;
            id in t.resources && 0 < t.resources[id].size <= TotalLen(t.resources[id].backing)
  {
    EveryRunKeepsInv(msgs);
    var t := ExecuteAll(EMPTY, msgs);
    assert BlobInv(t.resources[U32At(p, 0)]);
  }

  // ---- The object the device holds ----

  datatype Status = Accepted | Refused(error: Error)

  class ResourceTable {
    var resources: map<u32, Blob>
    var scanouts: map<u32, Binding>

    function Value(): Table
      reads this
    {
      Table(resources, scanouts)
    }

    constructor ()
      ensures Value() == EMPTY
    {
      resources, scanouts := map[], map[];
    }

    /** The call did to the table what the operation on values does, and reported it. */
    twostate predicate Did(r: Result, s: Status)
      reads this
    {
      match r
      case Ok(t) => s == Accepted && Value() == t
      case Err(e) => s == Refused(e) && Value() == old(Value())
    }

    method Create(resId: u32, blobMem: u32, size: u64) returns (s: Status)
      modifies this
      ensures Did(CreateBlob(old(Value()), resId, blobMem, size), s)
    {
      if |resources| >= MAX_RESOURCES {
        return Refused(TableFull);
      }
      if size == 0 || size > MAX_BLOB_BYTES {
        return Refused(BadSize(size));
      }
      if resId in resources {
        return Refused(Duplicate(resId));
      }
      resources := resources[resId := Blob(blobMem, size, [])];
      return Accepted;
    }

    method Attach(resId: u32, segs: seq<Segment>) returns (s: Status)
      modifies this
      ensures Did(AttachBacking(old(Value()), resId, segs), s)
    {
      if resId !in resources {
        return Refused(Unknown(resId));
      }
      var total: int := 0;
      for i := 0 to |segs|
        invariant Value() == old(Value())
        invariant 0 <= total < 0x1_0000_0000_0000_0000
        invariant total == TotalLen(segs[..i])
      {
        assert segs[..i + 1][..i] == segs[..i];
        if total + segs[i].len >= 0x1_0000_0000_0000_0000 {
          TotalLenGrows(segs, i + 1);
          CheckedSumIsTotal(segs);
          return Refused(BackingTooSmall);
        }
        total := total + segs[i].len;
      }
      assert segs[..|segs|] == segs;
      CheckedSumIsTotal(segs);
      if total < resources[resId].size {
        return Refused(BackingTooSmall);
      }
      resources := resources[resId := resources[resId].(backing := segs)];
      return Accepted;
    }

    method Bind(head: u32, b: Binding) returns (s: Status)
      modifies this
      ensures Did(SetScanout(old(Value()), head, b), s)
    {
      if b.resId !in resources {
        return Refused(Unknown(b.resId));
      }
      if b.width == 0 || b.height == 0 || b.width > MAX_DIM || b.height > MAX_DIM {
        return Refused(BadDims);
      }
      if b.stride < b.width * 4 {
        return Refused(BadDims);
      }
      scanouts := scanouts[head := b];
      return Accepted;
    }

    method Drop(resId: u32) returns (s: Status)
      modifies this
      ensures Did(Destroy(old(Value()), resId), s)
    {
      if resId !in resources {
        return Refused(Unknown(resId));
      }
      resources := resources - {resId};
      scanouts := map h | h in scanouts && scanouts[h].resId != resId :: scanouts[h];
      return Accepted;
    }

    /** `scanout_binding_for`: a scan of all heads keeping the smallest match. */
    method ScanoutBindingFor(resId: u32) returns (head: Option<u32>)
      ensures IsLowestHead(Value(), resId, head)
      ensures head.None? ==> forall h :: h in scanouts ==> scanouts[h].resId != resId
      ensures head.Some? ==> head.value in scanouts && scanouts[head.value].resId == resId
                             && forall h :: h in scanouts && scanouts[h].resId == resId ==> head.value <= h
    {
      var todo := scanouts.Keys;
      head := None;
      while todo != {}
        invariant todo <= scanouts.Keys
        invariant head.Some? ==> head.value in scanouts && scanouts[head.value].resId == resId
        invariant forall h :: h in scanouts && h !in todo && scanouts[h].resId == resId ==>
                                head.Some? && head.value <= h
        decreases |todo|
      {
        var h :| h in todo;
        todo := todo - {h};
        if scanouts[h].resId == resId && (head.None? || h < head.value) {
          head := Some(h);
        }
      }
    }

    method ReadSegments(p: seq<byte>, n: nat) returns (segs: seq<Segment>)
      requires 8 + 16 * n <= |p|
      ensures segs == Segments(p[8..], n)
    {
      hide U64At;
      segs := [];
      for i := 0 to n
        invariant segs == Segments(p[8..], i)
      {
        FieldAfter(p, 8, 16 * i);
        FieldAfter(p, 8, 16 * i + 8);
        segs := segs + [Segment(U64At(p, 8 + 16 * i), U64At(p, 8 + 16 * i + 8))];
      }
    }

    method ExecuteAttach(p: seq<byte>) returns (e: Executed)
      modifies this
      ensures Outcome(Value(), e) == Execute(old(Value()), ATTACH_BACKING, p)
    {
      if |p| < 8 { return ShortPayload; }
      var resId, n := U32At(p, 0), U32At(p, 4);
      if n > MAX_BACKING_ENTRIES { return Rejected(BackingTooSmall); }
      if |p| - 8 < 16 * n { return ShortPayload; }
      var segs := ReadSegments(p, n);
      hide U32At, AttachBacking;
      var s := Attach(resId, segs);
      e := if s.Accepted? then AttachedBacking(resId, n) else Rejected(s.error);
    }

    /** `execute_resource`: decode one message body and run it against the table. */
    method ExecuteResource(msgType: u32, p: seq<byte>) returns (e: Executed)
      modifies this
      ensures Outcome(Value(), e) == Execute(old(Value()), msgType, p)
    {
      hide U32At, U64At, Segments, CreateBlob, AttachBacking, SetScanout, Destroy;
      if msgType == CREATE_BLOB {
        if |p| < 24 { return ShortPayload; }
        var s := Create(U32At(p, 0), U32At(p, 8), U64At(p, 16));
        e := if s.Accepted? then CreatedBlob(U32At(p, 0)) else Rejected(s.error);
      } else if msgType == ATTACH_BACKING {
        e := ExecuteAttach(p);
      } else if msgType == SET_SCANOUT_BLOB {
        if |p| < 24 { return ShortPayload; }
        var s := Bind(U32At(p, 0), Binding(U32At(p, 4), U32At(p, 8), U32At(p, 12), U32At(p, 16), U32At(p, 20)));
        e := if s.Accepted? then SetScanoutHead(U32At(p, 0)) else Rejected(s.error);
      } else if msgType == RESOURCE_FLUSH {
        if |p| < 24 { return ShortPayload; }
        var resId := U32At(p, 0);
        if resId !in resources { return Rejected(Unknown(resId)); }
        if resources[resId].backing == [] { return Rejected(BackingTooSmall); }
        e := Flush(resId, Rect(U32At(p, 4), U32At(p, 8), U32At(p, 12), U32At(p, 16)));
      } else if msgType == RESOURCE_DESTROY {
        if |p| < 4 { return ShortPayload; }
        var s := Drop(U32At(p, 0));
        e := if s.Accepted? then Destroyed(U32At(p, 0)) else Rejected(s.error);
      } else {
        e := NotResource;
      }
    }
  }

  lemma {:induction false} TotalLenGrows(segs: seq<Segment>, n: nat)
    requires n <= |segs|
    ensures TotalLen(segs[..n]) <= TotalLen(segs)
    decreases |segs| - n
  {
    if n == |segs| {
      assert segs[..n] == segs;
    } else {
      assert segs[..n + 1][..n] == segs[..n];
      TotalLenGrows(segs, n + 1);
    }
  }
}
