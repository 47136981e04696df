# Verified model of the InfiniGPU command path and frame fan-out

This project models, in Dafny 4.11, the path a guest command takes to the host GPU and the path an
encoded frame takes to its viewers, and proves what the two promise:

- `Ring`, `Drain`, `Doorbell`, `Submitters`: the single-producer single-consumer command ring over shared memory,
  the host's pop / execute / retire drain, the fence word, and the guest driver's pushes under
  `ring_lock` and its waits outside it. Producer and consumer are interleaved atomic step by atomic
  step, and so are the submitting threads' locked sections, nudges and polls; index words are residues
  of unbounded ghost counters.
- `Wire`, `Codec`, `CmdList`, `Forwarded`: the forwarded command list, from the C encoder through the
  kernel's header patch to the host decoder. `Wire` and `Codec` hold sections, record arrays, the
  uniform block and the texture pixels; `CmdList` states both ends as functions and relates them;
  `Forwarded` is the code of both ends, with buffers, offsets, cursors and loops.
- `Descriptors`, `Textures`, `Buffers`, `Resolve`: what the driver does before encoding. Keyed
  descriptor slots, the insertion sort and all-or-nothing texture gathering, clipping of buffer ranges,
  and dynamic pipeline state.
- `Resource`, `Present`, `FlipRuns`, `Damage`, `Desktop`: blob resources and their dispatcher, the
  guest's framebuffer cache in agreement with the host table, how many flips that agreement lasts, the
  incremental damage surface, and the whole way from a flip to the surface.
- `Dma`, `Elision`: the ordered-map DMA lookup, and frame elision.
- `Splitter`, `Queue`, `Hub`, `Planes`: the Annex B access-unit splitter, the drop-to-keyframe client
  queue, the hub that primes late joiners, and the cursor plane with its header, cache and viewer.
- `Words`: machine words, masks and little-endian bytes.

Code that works in place is a class or a method with loops, proved against a function of the old
state; protocol and codec properties are then lemmas about those functions and about runs of them.
`dafny verify dfyconfig.toml` checks everything.

Formats follow Annex B and Table 7-1 (section 7.4.1) of ITU-T H.264 and Annex B and Table 7-1
(section 7.4.2.2) of ITU-T H.265.

## Where the code and its comments part

- The ring's seqno comes from a 32-bit tail, and the two producers differ: the C driver stores
  `(u64)tail + 1`, the Rust ring the wrapped tail plus one. Fences are monotone, and
  release nobody early, in runs of up to 2^32 submissions and no further (`Drain.RetiredMonotoneIff`,
  `Drain.FenceServesIff`).
- The poll for a forwarded submit compares 64-bit seqnos that restart at 1 every 2^32 pushes, and it
  runs outside `ring_lock`. When another thread's push follows at the wrap, a submit that has
  completed is reported as timed out (`Submitters.WrapTimesOut`, `Submitters.NobodyTimesOutIff`).
- A ring push returns the low 32 bits of the retired word, which is 0 when the tail wraps, and the
  driver takes 0 for a full ring. A framebuffer registration that meets the wrap leaves the host with
  a blob the guest does not know (`Present.FlipAgreesIff`); the shortest such run from a fresh device
  has 858,993,461 flips (`FlipRuns.RunsAgreeIff`).
- The comment on `push_control` says a shed video backlog never drops the cursor and that control
  messages do not count against the video capacity. They share the deque: they count, and a shed
  clears them (`Queue.ControlSurvivesIff`, `Queue.ControlCausesShed`).
- The ordered-map DMA lookup looks only at the mapping with the greatest base not above the address.
  It agrees with a search exactly on tables without nesting (`Dma.AgreesIff`).
- Frame elision is called double-buffer safe. Among submits it is exactly when frames at different
  addresses agree on the bytes they share and payloads for one address that hash alike render alike
  (`Elision.SubmitsTransparentIff`); a guest store that changes a frame in its buffer breaks it too
  (`Elision.StoreBetweenIff`).
- Priming a joiner with the cached keyframe under the lock loses no keyframe, but the frames broadcast
  since that keyframe are missing (`Hub.JoinSeam`, `Hub.StalePrime`).

## Model

| member | source | states |
|---|---|---|
| Ring.RingSafety | crates/infinigpu-ring/src/lib.rs:217-258 | over every interleaving of the atomic steps of push and pop, across any number of index wraps: popped items are a prefix of pushed ones, at most a capacity is outstanding, both ends never reach for one slot at once |
| Ring.NoSlotRace | crates/infinigpu-ring/src/lib.rs:224-253 | in any state the invariant allows, producer and consumer about to touch slot memory are at different slots |
| Ring.FullIsExact | crates/infinigpu-ring/src/lib.rs:218-222 | push reports Full exactly when a whole capacity is outstanding at its load of head |
| Ring.EmptyIsExact | crates/infinigpu-ring/src/lib.rs:242-247 | pop reports None exactly when nothing is outstanding at its load of tail |
| Ring.SlotOfCounter | crates/infinigpu-ring/src/lib.rs:182-193 | for the capacities from_parts accepts, masking the wrapped index word selects the slot of the unbounded counter |
| Ring.PushAloneMeans | crates/infinigpu-ring/src/lib.rs:217-237 | a push run alone refuses at capacity and changes nothing, else appends the item |
| Ring.PopAloneMeans | crates/infinigpu-ring/src/lib.rs:242-258 | a pop run alone refuses when empty and changes nothing, else takes the oldest item |
| Ring.SpscRing.Push | crates/infinigpu-ring/src/lib.rs:217-237 | the method refines the run of atomic steps; contents grow by the item at the end, or Full and nothing changes; the seqno is the number of pushes modulo 2^32, or for the driver's producer the number before it modulo 2^32 plus one |
| Ring.SpscRing.Pop | crates/infinigpu-ring/src/lib.rs:242-258 | the method refines the run of atomic steps; it returns the oldest entry and the rest stays |
| Ring.SpscRing.Len | crates/infinigpu-ring/src/lib.rs:202-206 | the wrapped difference of the index words is the number of unconsumed entries |
| Ring.SpscRing.Retire | crates/infinigpu-ring/src/lib.rs:263-265 | only the retired word changes |
| Ring.SpscRing.IsFenceSignaled | crates/infinigpu-ring/src/lib.rs:282-284 | signaled exactly when the retired word is at least the seqno and less than 2^63 ahead of it |
| Drain.FenceSafety | crates/infinigpu-device/src/lib.rs:1560-1585 | in every run with pushes during drains, once the shared retired word is at least n, the first n submissions have finished executing in order |
| Drain.FenceServesIff | crates/infinigpu-device/src/lib.rs:1560-1585 | no waiter sees the seqno its own push was stamped with before that very descriptor has executed, at any moment of any run of up to `bound` submissions, if and only if `bound` is at most 2^32 |
| Drain.RetiredMonotoneIff | crates/infinigpu-device/src/drain.rs:96-108 | the retired word never decreases in runs of up to `bound` submissions if and only if `bound` is at most 2^32 |
| Drain.QuietDrainEmptiesRing | crates/infinigpu-device/src/lib.rs:1560-1585 | a drain with no concurrent push ends with nothing outstanding and retired equal to submitted |
| Drain.BatchBounded | crates/infinigpu-device/src/drain.rs:44-65 | however many pushes arrive meanwhile, no drain takes more than a capacity of entries before it executes and retires them |
| Drain.SubmitOneByOne | crates/infinigpu-device/src/lib.rs:1530-1586 | for every n there is a run that pushes and drains n descriptors and comes to rest, so the fence claims are about reachable states |
| Drain.PopBatch | crates/infinigpu-device/src/drain.rs:44-65 | the loop takes the oldest entries in order, min(max, capacity, available) of them, with the highest seqno among them |
| Drain.HighestSeqnoIsMax | crates/infinigpu-device/src/drain.rs:51-63 | the batch's highest seqno bounds every seqno of it and is one of them |
| Doorbell.ExecutedInOrder | crates/infinigpu-device/src/lib.rs:1560-1585 | a batch is executed in pop order, descriptor i at place i |
| Doorbell.PayloadBytes | crates/infinigpu-device/src/lib.rs:1590-1640 | for every descriptor: at most 64 MiB, byte by byte from the guest address when flag bit 2 is set, else from the payload region; refused when that reaches outside, an empty one never read |
| Doorbell.Device.RingDoorbell | crates/infinigpu-device/src/lib.rs:1530-1586 | the synchronous drain executes everything outstanding with the payload bytes then in memory, the i-th outstanding descriptor at the i-th place after what was executed before, and leaves the ring empty |
| Doorbell.Device.Ring2Push | guest/linux/infinigpu.c:389-423 | from a free lock: the message is executed with exactly the staged inline bytes before the push returns, the ring is empty again, the full branch is not taken, the result is the new tail |
| Doorbell.Device.Ring2PushAbs | guest/linux/infinigpu.c:431-461 | from a free lock: the payload executed is byte for byte the guest memory the absolute address names |
| Doorbell.Device.PushForwarded | guest/linux/infinigpu.c:573-588 | from a free lock: the first locked attempt pushes, executes the message named by the address, yields its seqno, and no unlocked nudge is written |
| Doorbell.Device.AwaitRetired | guest/linux/infinigpu.c:590-595 | the polls run without the lock, other threads' sections between them: the wait succeeds exactly if at some poll the waiter's seqno is reached after the pushes made by then |
| Doorbell.Device.SubmitForwarded | guest/linux/infinigpu.c:565-596 | from a free lock: executed, never busy, no nudge; completed or timed out exactly as the polls between other threads' sections see its seqno; completed whenever the tail and the pushes before the first poll stay below 2^32 |
| Doorbell.ReleasedIff | guest/linux/infinigpu.c:590-595 | with k later pushes retired, k below 2^32, a poll sees the waiter's seqno if and only if the tail its push was stamped from plus k does not wrap |
| Submitters.DrainedRetires | crates/infinigpu-device/src/lib.rs:1560-1585 | a doorbell retires the largest outstanding seqno, and does nothing on an empty ring |
| Submitters.RingNeverFull | guest/linux/infinigpu.c:487-513 | over all interleavings of the threads' locked sections, nudges and polls: nobody finds the ring full, nudges or gives up busy; what was executed is what was staged, in order, and all of it when the lock is free |
| Submitters.WaiterWasExecuted | guest/linux/infinigpu.c:502-513 | a submitter that waits, has completed or has timed out: its own message was executed as its own push |
| Submitters.PollSeesIff | guest/linux/infinigpu.c:507-512 | in any run a poll sees its seqno if and only if the stamped tail plus the pushes retired since, fewer than 2^32, does not wrap |
| Submitters.WrapTimesOut | guest/linux/infinigpu.c:507-513 | the failing input: tail 2^32-1 and one push of another thread before the first poll; the submitter times out although its message was executed |
| Submitters.NobodyTimesOutIff | guest/linux/infinigpu.c:565-596 | with two threads or more, no executed submission times out in any run of up to `bound` pushes if and only if `bound` is at most 2^32 |
| Wire.CutJoined | crates/infinigpu-device/src/lib.rs:609-625 | cutting joined sections by their lengths gives the sections back and leaves exactly what followed them |
| Wire.JoinCut | crates/infinigpu-device/src/lib.rs:609-625 | the slices cut from any bytes are their consecutive parts |
| Wire.ReadWritten | crates/infinigpu-device/src/lib.rs:629-653 | a record array reads back what was written, for every record type |
| Wire.WrittenRead | crates/infinigpu-device/src/lib.rs:629-653 | an array section is the encoding of the records read from it |
| Wire.NameRoundTrip | crates/infinigpu-device/src/lib.rs:659-662 | a NUL-terminated name is found again whatever follows its NUL |
| Wire.FoundName | crates/infinigpu-device/src/lib.rs:659-662 | a name that was found has no NUL in it and a NUL after it |
| Codec.HeaderReadsBack | crates/infinigpu-abi/src/wire.rs:486-494 | the 40-byte workload header reads back field by field |
| Codec.TailReadsBack | crates/infinigpu-abi/src/wire.rs:557-633 | the 80-byte tail reads back field by field |
| Codec.UbosRoundTrip | crates/infinigpu-device/src/lib.rs:734-753 | the block written for a list of uniforms is accepted exactly when all are good and no binding repeats, and yields them |
| Codec.UbosInside | crates/infinigpu-device/src/lib.rs:734-753 | whatever the bytes, accepted uniforms lie record after record inside the block and satisfy the binding rules |
| Codec.TexturesParse | crates/infinigpu-device/src/lib.rs:698-727 | textures are accepted exactly when each is width*height*4 bytes within the limit and all pixels are there; texture i then holds the pixels between its neighbours' ends |
| Codec.RecordLayout | crates/infinigpu-abi/src/wire.rs:637-700 | every field of attribute, draw and texture records at its byte offset |
| Codec.TextureFields | crates/infinigpu-abi/src/wire.rs:648-655 | a texture has its descriptor's dimensions; sampler bit 0 is linear filtering, bit 1 repeat |
| CmdList.PrefixLayout | crates/infinigpu-abi/src/wire.rs:486-633 | every field of the header and the tail at its byte offset in the encoded payload |
| CmdList.BodyLayout | guest/icd/infinigpu_forwarded.c:160-221 | the sections follow in wire order, the texture pixels last |
| CmdList.EncodeIff | guest/icd/infinigpu_forwarded.c:80-127 | the encoder writes exactly when there is a draw, a stride iff there is vertex data, and the payload fits |
| CmdList.BoundsSpelledOut | crates/infinigpu-device/src/lib.rs:528-753 | the round trip's bounds on the list's own fields, number by number: SPIR-V magic, sizes, counts, whole vertices and indices, texture pixels present, bindings apart |
| CmdList.PayloadSize | guest/icd/infinigpu_forwarded.c:98-124 | the bytes written are exactly the size the encoder computed |
| CmdList.RoundTripIff | guest/icd/infinigpu_forwarded.c:80-223 | for every list of C arguments encoded within a 32-bit payload length: the host decodes it if and only if it is within the decoder's bounds, and then every attribute, draw, SPIR-V word, byte section, name, uniform, storage buffer and texture is the list's |
| CmdList.PatchKeepsDraw | guest/linux/infinigpu.c:666-669 | the kernel's patch sets width, height and scanout address, keeps every other header field, and never changes what the decoder returns |
| CmdList.DecodedIsSlices | crates/infinigpu-device/src/lib.rs:528-761 | every byte string is refused or decoded to consecutive slices in wire order, textures of width*height*4 bytes, uniform records inside their block, all image, sampler, uniform and storage bindings pairwise different |
| CmdList.BindingsDistinct | crates/infinigpu-device/src/lib.rs:563-574 | the texture range, the uniform bindings and the storage binding never collide in an accepted draw |
| Forwarded.EncodeForwardedCmdlist | guest/icd/infinigpu_forwarded.c:80-223 | the offset-by-offset writer fills the buffer with exactly the specified payload and touches nothing past it, or returns 0 and touches nothing |
| Forwarded.AppendUbos | guest/icd/infinigpu_forwarded.c:202-210 | the record loop writes the uniform block after what is already there |
| Forwarded.PatchHeader | guest/linux/infinigpu.c:666-669 | the in-place stores change exactly the bytes of the patched fields |
| Forwarded.DecodeForwardedCmdlist | crates/infinigpu-device/src/lib.rs:502-786 | the decoder, sections carved by a cursor and records read by loops, computes the decoding function |
| Forwarded.Carve | crates/infinigpu-device/src/lib.rs:609-625 | the cursor that takes one section after another yields the sections cut by their lengths |
| Forwarded.ReadArray | crates/infinigpu-device/src/lib.rs:629-653 | the record loop reads the whole array |
| Forwarded.ReadTextures | crates/infinigpu-device/src/lib.rs:698-727 | the texture loop carves the trailing pixels descriptor by descriptor |
| Forwarded.ReadUniforms | crates/infinigpu-device/src/lib.rs:734-753 | the uniform loop walks the block and refuses bad, repeated or overrunning records |
| Forwarded.ReadName | crates/infinigpu-device/src/lib.rs:659-662 | the scan returns the bytes before the first NUL, or none |
| Resolve.PackReadsBack | crates/infinigpu-abi/src/wire.rs:414-467 | packing raster and depth words and reading their fields are inverse |
| Resolve.DepthFields | crates/infinigpu-device/src/lib.rs:676-692 | for every depth word: no depth state exactly when bits 0 and 1 are clear, else test is bit 0, write is bit 1 and the comparison bits 4 to 6 |
| Resolve.RasterFields | crates/infinigpu-abi/src/wire.rs:448-470 | for every raster word: cull mode in bits 0 and 1, clockwise front face bit 2, blending bit 3 |
| Resolve.DynamicBits | guest/icd/infinigpu_forwarded.h:73-78 | each state has its own bit, and it is dynamic exactly when both masks have it |
| Resolve.ResolveForwardedState | guest/icd/infinigpu_forwarded.c:225-286 | for all inputs cull, front face, depth test, depth write, comparison and topology as the host decodes them are each the dynamic value iff both masks have its bit, else the static one; blend is static; host depth is there iff the effective test or write is on, and the word is 0 iff it is not |
| Descriptors.SlotsAfter | guest/icd/infinigpu_descriptor.c:225-258 | after any writes the slots are the first `cap` bindings written, each once, each holding what the writes to that binding alone come to |
| Descriptors.SetAfterWrites | guest/icd/infinigpu_descriptor.c:265-327 | the same for textures and uniforms after any sequence of descriptor writes of every kind, and the storage buffer last written |
| Descriptors.SlotsAreLatest | guest/icd/infinigpu_descriptor.c:265-327 | read off the history of writes: a texture slot holds the latest view and, separately, the latest sampler brought to its binding, a uniform slot the latest buffer, offset and range, the storage slot the latest one; the slots are exactly the bindings named while fewer than eight others had been |
| Descriptors.FirstBindingsIff | guest/icd/infinigpu_descriptor.c:225-258 | a binding has a slot if and only if fewer than the capacity of others were named before it was |
| Descriptors.DescriptorSet.TexSlot | guest/icd/infinigpu_descriptor.c:225-239 | finds the binding's slot, or appends an empty one, or none when full |
| Descriptors.DescriptorSet.UboSlot | guest/icd/infinigpu_descriptor.c:243-258 | the same for uniform slots |
| Descriptors.DescriptorSet.ApplyDescriptor | guest/icd/infinigpu_descriptor.c:265-327 | each kind of write updates the arrays in place as specified, null handles and unsupported types changing nothing |
| Textures.SortInPlace | guest/icd/infinigpu_sync.c:416-428 | the in-place insertion sort computes the sorted sequence |
| Textures.SortAscends | guest/icd/infinigpu_sync.c:416-428 | with different bindings the result is strictly ascending and has the same slots |
| Textures.SortPermutes | guest/icd/infinigpu_sync.c:416-428 | the sort is a permutation |
| Textures.GatherTextures | guest/icd/infinigpu_sync.c:413-485 | the loops compute the gathered descriptors and pixels: every slot, placeholder included, or nothing |
| Textures.GatherAllOrNothing | guest/icd/infinigpu_sync.c:429-438 | all slots are forwarded in ascending order exactly when each has an image and the bindings are every other one from some base on; otherwise none |
| Textures.TexturesSurvive | guest/icd/infinigpu_sync.c:413-485 | after any descriptor writes, if the host accepts the encoded list: it has textures iff all slots have images at every other binding from some base on, and then samples, at each of the first eight texture bindings written, the pixels of the view last brought there (or one white pixel) through the sampler last brought there |
| Textures.GatheredFitIff | crates/infinigpu-device/src/lib.rs:710-719 | the host's texture checks pass on gathered textures exactly when no forwarded image exceeds its limit |
| Buffers.WindowIsNamed | guest/icd/infinigpu_sync.c:494-509 | a forwarded range holds exactly the mapped bytes the descriptor names, and is left out when they are none or too many |
| Buffers.GatherUbosLoop | guest/icd/infinigpu_sync.c:491-513 | the clamp loop computes the forwarded uniforms |
| Buffers.GatheredUbos | guest/icd/infinigpu_sync.c:491-513 | the uniforms forwarded are exactly the non-empty windows of the slots |
| Buffers.UbosAcceptedIff | crates/infinigpu-device/src/lib.rs:734-753 | after any writes the host accepts the uniforms exactly when every binding is one it can place; number, sizes and distinctness never fail |
| Buffers.GatherSsbo | guest/icd/infinigpu_sync.c:519-534 | the storage buffer is its clipped window of at most 16 MiB, or absent |
| Buffers.BuffersSurvive | guest/icd/infinigpu_sync.c:491-534 | after any descriptor writes, if the host accepts the encoded list: every uniform holds exactly the bytes of the range last written to its binding; each of the first eight uniform bindings has one iff that range names 1 to 65536 mapped bytes; the storage buffer is the range last written, up to 16 MiB |
| Resource.CheckedSumIsTotal | crates/infinigpu-device/src/resource.rs:98-109 | the overflow-checked sum succeeds exactly when the true total fits 64 bits, and is it |
| Resource.ExecuteKeepsInv | crates/infinigpu-device/src/dispatch.rs:53-122 | one message keeps the table's invariant; every rejected or short outcome leaves the table unchanged |
| Resource.EveryRunKeepsInv | crates/infinigpu-device/src/resource.rs:78-146 | after every sequence of messages: at most 1024 blobs of legal size, non-empty backings cover their blob without overflow, every scanout names a live blob with legal dims and stride |
| Resource.FlushIsBacked | crates/infinigpu-device/src/dispatch.rs:53-122 | a flush that reaches the present names a live blob whose backing covers it |
| Resource.CreateExactly | crates/infinigpu-device/src/resource.rs:78-93 | when a create message is accepted, in which order it is refused, and the blob it makes |
| Resource.AttachExactly | crates/infinigpu-device/src/dispatch.rs:64-86 | when an attach message is accepted, by the true sum of its segments, and the segments stored, entry by entry |
| Resource.BindExactly | crates/infinigpu-device/src/resource.rs:114-137 | when a bind message is accepted, and the binding it makes |
| Resource.FlushExactly | crates/infinigpu-device/src/dispatch.rs:53-122 | a flush is passed on for a backed resource only, with its own rect |
| Resource.DestroyExactly | crates/infinigpu-device/src/resource.rs:140-146 | the blob and exactly the bindings that name it go |
| Resource.OtherwiseNothing | crates/infinigpu-device/src/dispatch.rs:53-122 | short bodies and other message types change nothing |
| Resource.ResourceTable.ScanoutBindingFor | crates/infinigpu-device/src/resource.rs:159-165 | the scan returns the lowest head bound to the resource |
| Resource.ResourceTable.Create | crates/infinigpu-device/src/resource.rs:78-93 | the method computes the specified table and error |
| Resource.ResourceTable.Attach | crates/infinigpu-device/src/resource.rs:98-109 | the method computes the specified table and error |
| Resource.ResourceTable.Bind | crates/infinigpu-device/src/resource.rs:114-137 | the method computes the specified table and error |
| Resource.ResourceTable.Drop | crates/infinigpu-device/src/resource.rs:140-146 | the method computes the specified table and error, unbinding its heads |
| Resource.ResourceTable.ExecuteResource | crates/infinigpu-device/src/dispatch.rs:53-122 | the dispatcher decodes and runs each message type as specified, fail-closed on short bodies |
| Present.AnnounceIff | guest/linux/infinigpu.c:700-718 | a registration's three pushes all go through exactly when they stay clear of the tail's wrap; either way the host has the blob |
| Present.BodyLayout | guest/linux/infinigpu.c:702-716 | every field of the create, attach, bind and flush bodies at its byte offset |
| Present.EvictForgets | guest/linux/infinigpu.c:721-731 | evicting the buffer on the head forgets the binding, and the host is told to destroy the evicted resource |
| Present.RegisterAgrees | guest/linux/infinigpu.c:685-739 | a registration that goes through leaves guest cache and host table in agreement, the evicted blob gone |
| Present.FlipAgrees | guest/linux/infinigpu.c:743-770 | a flip keeps agreement, leaves head 0 on the flipped framebuffer, and presents that framebuffer's own address and geometry |
| Present.FlipAgreesIff | guest/linux/infinigpu.c:743-770 | while ids last, a well-formed flip keeps agreement if and only if it hits the cache or its pushes stay clear of the tail's wrap |
| Present.EveryRunAgrees | crates/infinigpu-device/src/lib.rs:1710-1750 | from a fresh device, over every sequence of flips: live host resources are the valid cache entries and the presents are the flips, in order, each with its own framebuffer |
| Present.HostEnd.Push | guest/linux/infinigpu.c:389-423 | a push on the command ring with its synchronous doorbell, whose drained message goes to the dispatcher: host table, presents and tail change as the protocol's step says, and the result is the new tail |
| FlipRuns.FlipEffect | guest/linux/infinigpu.c:743-770 | what a flip costs: one or two pushes on a hit, four or five on a registration, and the cache, ids and scanned-out resource after it |
| FlipRuns.ShortRunIsPaced | guest/linux/infinigpu.c:685-770 | every run of at most 858,993,460 well-formed flips from a fresh device is clear of the wrap at each flip |
| FlipRuns.LongRunDisagrees | guest/linux/infinigpu.c:700-718 | the failing input: a run of one flip more, from a fresh device, after which the host has a blob the guest has abandoned |
| FlipRuns.RunsAgreeIff | guest/linux/infinigpu.c:685-770 | every run of up to `bound` well-formed flips ends in agreement with every flip presented in order, if and only if `bound` is at most 858,993,460 |
| Present.Driver.FindFb | guest/linux/infinigpu.c:694-698 | the cache scan finds the first valid entry of exactly this framebuffer |
| Present.Driver.RegisterFb | guest/linux/infinigpu.c:685-739 | the method computes the specified registration, with round-robin eviction |
| Present.Driver.FlushResource | guest/linux/infinigpu.c:743-770 | the method computes the specified flip on driver and host |
| Present.HostEnd.PresentFlush | crates/infinigpu-device/src/lib.rs:1710-1750 | the flush resolves binding and single-segment backing as specified, or is skipped |
| Damage.ClampIsIntersection | crates/infinigpu-device/src/lib.rs:899-905 | the clamped rect stays in the frame and there is the reported rect |
| Damage.ConvertedSlice | crates/infinigpu-device/src/lib.rs:876-893 | conversion is per pixel: it commutes with cutting pixels out of a row |
| Damage.Scanout.SwizzleRow | crates/infinigpu-device/src/lib.rs:876-893 | the in-place row conversion, copy-and-fill or exchange, writes exactly the converted row |
| Damage.Scanout.ReadRows | crates/infinigpu-device/src/lib.rs:2242-2250 | all damaged rows are read, or the read is refused |
| Damage.Scanout.PatchRect | crates/infinigpu-device/src/lib.rs:2236-2260 | a failed row read leaves the surface unchanged; otherwise exactly the rect is replaced by converted pixels |
| Damage.Scanout.Rebuild | crates/infinigpu-device/src/lib.rs:2217-2235 | a full present leaves the surface the conversion of the frame, or unchanged if the read fails |
| Damage.ShowsFrameIff | crates/infinigpu-device/src/lib.rs:876-893 | the surface shows the frame iff its every pixel is the guest's bytes 0 to 2 and full alpha, bytes 0 and 2 exchanged for R8G8B8A8 only |
| Damage.PatchedPixel | crates/infinigpu-device/src/lib.rs:2236-2260 | after a patch a pixel in the rect is the guest's, any other the old one |
| Damage.Scanout.PresentDamaged | crates/infinigpu-device/src/lib.rs:2169-2265 | it completes exactly when admitted, within the geometry and size limits and readable; a failure changes nothing; afterwards every pixel in the rect, or of a rebuilt surface, is the guest's own bytes and every other pixel the old one; and the surface is the full conversion of the frame iff it was rebuilt or already agreed outside the clamped rect |
| Damage.PatchShowsFrameIff | crates/infinigpu-device/src/lib.rs:2236-2260 | after an incremental patch the surface is the full conversion of the new frame if and only if frame and old surface agreed outside the rect |
| Desktop.StepShowsIff | crates/infinigpu-device/src/lib.rs:2217-2260 | a completed present over a surface showing the frame before shows its own frame, pixel by pixel as it lies in guest memory, iff its rect covers every pixel whose colour changed there |
| Desktop.UpToDateIff | crates/infinigpu-device/src/lib.rs:1710-1750 | over every run of flips, with presents that fail anywhere: the surface shows the frame presented last at every moment, if and only if every completed present's rect covers what changed since the completed one before it |
| Desktop.EveryFlipShownIff | crates/infinigpu-device/src/lib.rs:2169-2265 | from a fresh device, over every run of at most 858,993,460 well-formed flips of mapped framebuffers: after each flip every surface pixel is that framebuffer's blue, green and red byte in guest memory and full alpha, iff each rect covers every pixel whose colour changed since the flip before |
| Desktop.Screen.Run | crates/infinigpu-device/src/lib.rs:1735-1749 | driver and device run together: the surfaces are those of a run in which each present that reached the host is served in order |
| Dma.AgreesIff | crates/infinigpu-device/src/dma.rs:81-90 | the ordered-map lookup agrees with linear search exactly on tables without nesting |
| Dma.ResolveIff | crates/infinigpu-device/src/dma.rs:81-90 | for disjoint mappings resolve succeeds iff one mapping contains the range, and returns its host base plus the offset |
| Dma.ResolveOverAnyHistory | crates/infinigpu-device/src/dma.rs:35-90 | the same over every history of map, unmap and clear of non-overlapping, non-wrapping ranges |
| Dma.ApplyMembers | crates/infinigpu-device/src/dma.rs:35-77 | which mappings a map, an unmap and a clear leave in the table |
| Dma.ReadIsPeek | crates/infinigpu-device/src/dma.rs:108-117 | a successful read is the guest's bytes one address after the other |
| Dma.WriteIsPoke | crates/infinigpu-device/src/dma.rs:120-129 | a successful write changes exactly the written guest bytes, wherever they are mapped |
| Dma.DmaTable.Map | crates/infinigpu-device/src/dma.rs:35-62 | inserts or replaces the mapping, or fails and changes nothing |
| Dma.DmaTable.Unmap | crates/infinigpu-device/src/dma.rs:65-70 | removes the mapping at that base |
| Dma.DmaTable.Clear | crates/infinigpu-device/src/dma.rs:72-77 | removes every mapping |
| Dma.DmaTable.ReadBytes | crates/infinigpu-device/src/dma.rs:108-117 | the buffer gets the bytes resolve finds, or the read is refused |
| Dma.DmaTable.WriteBytes | crates/infinigpu-device/src/dma.rs:120-129 | the host bytes change as specified, or the write is refused |
| Elision.ElisionIsTransparent | crates/infinigpu-device/src/lib.rs:1826-1839 | when payloads for one address that hash alike render alike, frames at different addresses agree on the bytes they share and the guest stores nothing else into them: every run ends with the same guest memory and retired seqnos as the run without elision, through clears, damage presents, flushes, remaps and resets |
| Elision.SubmitShows | crates/infinigpu-device/src/lib.rs:1772-2010 | with or without elision, at the end of every such run that ends in a submit: its seqno is retired; if its geometry, read off the payload's bytes, is in bounds, it renders and its buffer is writable, the buffer holds its frame and no other mapped byte changed; otherwise memory is as before |
| Elision.OtherEvents | crates/infinigpu-device/src/lib.rs:2489-2550 | which of the other operations retire, and which forget the remembered frames |
| Elision.FewRemembered | crates/infinigpu-device/src/lib.rs:1990-1998 | over all runs at most eight frames are remembered |
| Elision.FnvVectors | crates/infinigpu-device/src/lib.rs:1024-1031 | two published values of the hash |
| Elision.SubmitsTransparentIff | crates/infinigpu-device/src/lib.rs:1820-1839 | over a set of payloads every run of submits from every memory is unchanged by elision if and only if those that land agree pairwise on shared bytes, or at one address render alike when they hash alike |
| Elision.AlternationIff | crates/infinigpu-device/src/lib.rs:1820-1839 | drawing two frames alternately to different addresses is elided transparently exactly when they agree on the bytes they share |
| Elision.StoreBetweenIff | crates/infinigpu-device/src/lib.rs:1826-1839 | a guest store between two submits of one payload is transparent exactly when it agrees with the frame on the bytes they share |
| Elision.CollisionShows | crates/infinigpu-device/src/lib.rs:1826-1839 | two payloads for one address that hash alike and render differently: from some memory, drawing one and then the other is elided wrongly |
| Elision.SkipIsIdle | crates/infinigpu-device/src/lib.rs:1827-1838 | what an elided submit skips would not have changed memory |
| Elision.RenderRemembers | crates/infinigpu-device/src/lib.rs:1990-1998 | remembering one more frame, with the clear at eight entries, keeps every remembered frame in its buffer |
| Elision.Fnv1aLoop | crates/infinigpu-device/src/lib.rs:1024-1031 | the hash loop computes the 64-bit FNV-1a hash |
| Elision.Backend.SubmitVulkan | crates/infinigpu-device/src/lib.rs:1772-2010 | the method takes the specified step on memory, cache and retired register on every path |
| Elision.Backend.RenderClearPresent | crates/infinigpu-device/src/lib.rs:2489-2550 | invalidates first; retires only after a full write |
| Elision.Backend.MapDma | crates/infinigpu-device/src/lib.rs:2589-2615 | a map forgets every remembered frame, also when mmap fails and the table stays as it was |
| Elision.Backend.UnmapDma | crates/infinigpu-device/src/lib.rs:2617-2632 | an unmap, of one mapping or of all, forgets every remembered frame |
| Splitter.AudBytes | crates/infinigpu-pixel/src/lib.rs:120-134 | a delimiter byte by byte: the start code and NAL type 9 or 35 |
| Splitter.KeyframeBytes | crates/infinigpu-pixel/src/lib.rs:129-144 | the NAL header bytes that make a keyframe, for both codecs |
| Splitter.UnitsAre | crates/infinigpu-pixel/src/lib.rs:385-415 | unit j of a stream is the stretch from its j-th delimiter to the next, the last the rest if longer than six bytes |
| Splitter.CutsAreTheAuds | crates/infinigpu-pixel/src/lib.rs:344-354 | the cuts are exactly the access-unit delimiters, in stream order |
| Splitter.ChunkingIndependent | crates/infinigpu-pixel/src/lib.rs:385-415 | however the stream is split into pushes, pushes and a flush emit exactly the access units of the whole stream |
| Splitter.ParseCuts | crates/infinigpu-pixel/src/lib.rs:385-400 | one push on a buffer emits the stretches between consecutive delimiters and keeps the last |
| Splitter.FlushCompletes | crates/infinigpu-pixel/src/lib.rs:406-415 | what pushes leave, flushed, completes the units of the stream |
| Splitter.BytesConserved | crates/infinigpu-pixel/src/lib.rs:385-415 | the stream is the junk before its first delimiter, the emitted units, and at most six dropped bytes; without a delimiter all is dropped |
| Splitter.AuIsKeyframe | crates/infinigpu-pixel/src/lib.rs:358-371 | the skipping scan is true iff some start code is followed by a keyframe NAL of the codec |
| Splitter.FindAud | crates/infinigpu-pixel/src/lib.rs:344-354 | the scan finds the first delimiter at or after the start, or none |
| Splitter.AuSplitter.Push | crates/infinigpu-pixel/src/lib.rs:385-400 | the buffer and emissions after any pushes are those of the whole input so far |
| Splitter.AuSplitter.Flush | crates/infinigpu-pixel/src/lib.rs:406-415 | at the end exactly the stream's access units have been emitted |
| Queue.DeliveredIsContiguous | crates/infinigpu-pixel/src/lib.rs:743-806 | in every interleaving of push, push_control, pop and close: each delivered non-keyframe follows its predecessor in push order or is the first, queued video never exceeds the capacity, dropping implies no queued video |
| Queue.ChainAfterPush | crates/infinigpu-pixel/src/lib.rs:743-770 | a push extends delivered-plus-queued video by the frame, leaves it, or cuts it back to what was delivered |
| Queue.DroppingIff | crates/infinigpu-pixel/src/lib.rs:743-770 | over all runs of an open queue: it is dropping exactly when some push overflowed it and no keyframe has been pushed since |
| Queue.PushOutcome | crates/infinigpu-pixel/src/lib.rs:743-770 | after any run: a keyframe that finds an open queue dropping is the last item queued and ends the dropping, any other frame is then lost; a frame that finds it neither dropping nor full is queued, one that finds it full sheds the backlog; nothing delivered changes |
| Queue.OtherOutcomes | crates/infinigpu-pixel/src/lib.rs:776-805 | control messages, pops and close lose and reorder nothing but what a close discards |
| Queue.ClosedIff | crates/infinigpu-pixel/src/lib.rs:800-805 | a queue is closed exactly once close was called, and is then empty |
| Queue.ControlSurvivesIff | crates/infinigpu-pixel/src/lib.rs:757-766 | a queued control message survives a video push exactly when the push does not overflow the shared deque |
| Queue.ControlCausesShed | crates/infinigpu-pixel/src/lib.rs:772-784 | a capacity of control messages makes the next video frame shed the backlog |
| Queue.ClientQueue.Push | crates/infinigpu-pixel/src/lib.rs:743-770 | the method takes the specified step; the result says whether it shed |
| Queue.ClientQueue.PushControl | crates/infinigpu-pixel/src/lib.rs:776-783 | the method takes the specified step |
| Queue.ClientQueue.Pop | crates/infinigpu-pixel/src/lib.rs:786-797 | one pass of the wait loop: the oldest message, drained after close, or still waiting |
| Queue.ClientQueue.Close | crates/infinigpu-pixel/src/lib.rs:800-805 | the method takes the specified step |
| Hub.JoinAtomicity | crates/infinigpu-pixel/src/lib.rs:878-911 | over all runs a listed client has been offered the latest keyframe broadcast before it joined (since the last reset), if any, then every later broadcast in order; what it was sent is some of those frames, each non-keyframe directly after its predecessor in the order offered |
| Hub.MemberQueueIs | crates/infinigpu-pixel/src/lib.rs:878-948 | over all runs a listed client's queue is exactly what priming an empty one and then pushing it every later broadcast of either kind, between its own pops and close, makes of it |
| Hub.MemberDroppingIff | crates/infinigpu-pixel/src/lib.rs:878-911 | so an open client is dropping exactly when a push made to it overflowed and no keyframe has been pushed to it since |
| Hub.PlaneCacheIs | crates/infinigpu-pixel/src/lib.rs:921-948 | after any history the cache of every plane is its latest DEFINE and the latest MOVE since, neither surviving a DESTROY or a reset |
| Hub.PositionIsRight | crates/infinigpu-pixel/src/lib.rs:878-911 | every frame offered to a client is the broadcast at the position computed for it |
| Hub.JoinSeam | crates/infinigpu-pixel/src/lib.rs:987-1008 | by broadcast position: past the join every delivered non-keyframe directly follows the frame broadcast before it; a delivered prime is followed without a gap if and only if the next frame delivered is a keyframe or nothing was broadcast between prime and registration |
| Hub.StalePrime | crates/infinigpu-pixel/src/lib.rs:1006-1008 | the failing input: keyframe, frame, join, frame; the client is sent the keyframe and the last frame without the one between |
| Hub.ListedExactly | crates/infinigpu-pixel/src/lib.rs:891-900 | after any run the listed clients are, in registration order and once each, exactly those registered and not found dead by a later broadcast of either kind |
| Hub.JoinerSeesCursor | crates/infinigpu-pixel/src/lib.rs:987-1002 | after any history of well-formed cursor messages since the last reset, the control messages queued for a joiner bring a fresh viewer to the state of one that saw them all |
| Hub.PrimeSurvivesIff | crates/infinigpu-pixel/src/lib.rs:987-1002 | the next broadcast joins a new client's whole prime when prime and frame fit the capacity, and sheds all of it otherwise |
| Hub.Hub.Broadcast | crates/infinigpu-pixel/src/lib.rs:878-911 | the retain pass over the client objects takes the specified step: the dead dropped with their queues closed and empty, the living pushed, the keyframe cached |
| Hub.Hub.BroadcastControl | crates/infinigpu-pixel/src/lib.rs:921-948 | the same for a plane message, with the plane cache updated |
| Hub.Hub.ResetKeyframe | crates/infinigpu-pixel/src/lib.rs:952-954 | only the cached keyframe is forgotten |
| Hub.Hub.ResetPlanes | crates/infinigpu-pixel/src/lib.rs:958-960 | only the plane cache is forgotten |
| Hub.Hub.Register | crates/infinigpu-pixel/src/lib.rs:980-1005 | the new client is primed with keyframe and planes, in whatever order the map yields them, and listed last; a keyframe is requested |
| Hub.Hub.TakeKeyframeRequest | crates/infinigpu-pixel/src/lib.rs:871-873 | a pending request is reported once |
| Planes.HeaderRoundTrip | crates/infinigpu-pixel/src/lib.rs:281-337 | the 36-byte plane header parses back exactly, whatever body follows, and the body is what follows |
| Planes.HeaderLayout | crates/infinigpu-pixel/src/lib.rs:281-299 | every field of the header at its byte offset |
| Planes.VideoIsNotPlane | crates/infinigpu-pixel/src/lib.rs:312-318 | a message with the video magic is never parsed as a plane message |
| Planes.SeeBytes | crates/infinigpu-viewer/src/stream.rs:206-241 | what any byte string does to the viewer's cursor, malformed and other planes' messages included |
| Planes.SeeWire | crates/infinigpu-viewer/src/stream.rs:206-241 | what one well-formed cursor message, encoded and parsed, does to the viewer's state |
| Planes.LateJoinerSeesTheSame | crates/infinigpu-pixel/src/lib.rs:991-1001 | for every history of well-formed cursor DEFINE and MOVE messages the prime alone gives the same activity, visibility and shape |
| Planes.CursorSlot.Define | crates/infinigpu-viewer/src/stream.rs:89-95 | installs shape and visibility and advances the version |
| Planes.CursorSlot.SetVisible | crates/infinigpu-viewer/src/stream.rs:97-101 | changes visibility and activity only |
| Planes.CursorSlot.Demux | crates/infinigpu-viewer/src/stream.rs:206-241 | the message loop's plane arm updates the slot as specified and sends on exactly the messages without the plane magic |
| Words.ResidueDistance | crates/infinigpu-ring/src/lib.rs:202-206 | the wrapped difference of two index words is the distance of their counters while that fits a word |
| Words.MaskIsRemainder | crates/infinigpu-ring/src/lib.rs:224-249 | masking with capacity minus one is the remainder |

## Left out

- Weak memory ordering: steps are sequentially consistent; which loads and stores need acquire and release is not modelled.
- Vulkan, the GPU, NVENC, ffmpeg and NVML: rendering is an unknown deterministic function of the payload, the encoder a source of bytes.
- The broker and scheduler: admission is a boolean that comes with each call.
- mmap, file descriptors, vfio-user, PCI configuration, MSI-X, WebSockets, threads and process spawning; a mapping's success is a parameter.
- The Phase-1 `FORWARDED` draw with its 24-byte tail: the command list is the same codec with more sections.
- The cursor branch of `execute_descriptor`, which reads at most one struct, and the cursor's rate limits.
- Zero-copy scanout, multi-segment scatter-gather of backings, the mailbox, the fixed replay protocol, `FrameHeader`, viewer input encoding, frame dumps, counters, VRAM accounting and profiling.
- Debug BAR0 registers, among them a debug DMA store that does not invalidate elision.
- Float colour packing: floats are their 32-bit words.
- Descriptor copies and array elements past the first; the ICD's attribute, draw and push-constant recording.
- Doorbell.Device.Ring2Push: the descriptor array holds records rather than their 32 bytes; the payload regions and the copies into them are bytes.
- Doorbell.Device.SubmitForwarded: the retry loop's delay and the timeout's wall-clock length are left out, their counts are kept; `igpu_submit_3d` has the same shape and is not repeated.
- Present.FlipAgreesIff: stated while resource ids last, because the driver hands out ids without a wrap check.
- CmdList.RoundTripIff: stated for payload lengths below 2^32, which the kernel interface's 32-bit length imposes; beyond it the encoder's casts lose bits.
- Textures.TexturesSurvive: for images within the dimensions the driver advertises and bound to enough memory; the copy itself checks neither.
- Textures.GatherTextures: slots are values in the sorted array where the code sorts pointers to them.
- Planes.LateJoinerSeesTheSame: histories without DESTROY and with complete sprites, as the device sends them.
- Hub.Hub.Register: the WebSocket handshake before it and the send thread after it; the thread's pops, failure mark and close are events of the run.
- Elision.ElisionIsTransparent: assumes that payloads for one address that hash alike render alike; the code compares hashes only, and `Elision.CollisionShows` shows what a collision does.
