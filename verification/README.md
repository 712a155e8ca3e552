# riftlessfs, modelled and proved in Dafny

riftlessfs serves a host directory to a virtual machine over vhost-user and virtio-fs: a guest driver
publishes FUSE requests in a split virtqueue (section 2.7 of VIRTIO 1.2), the server pops them,
dispatches them to a passthrough file system, and pushes the replies back. This project models the two
state machines in the middle of that, the request pipeline over guest memory and the inode and handle
bookkeeping behind FUSE node ids, with the codecs they rest on, and proves what they promise over every
input and every run.

`dafny verify dfyconfig.toml` checks everything. The files follow the program:

| file | what it holds |
|---|---|
| `Basics`, `Bytes` | machine integers, results, little-endian fields, the reading and writing cursors |
| `Memory` | guest memory: regions visible at guest-physical and at user addresses, over one host store |
| `Segments`, `Chains`, `Descriptors`, `Virtqueue` | gather, scatter, vectors; the descriptor walk; descriptors as bytes; the queue object |
| `Wire`, `Dispatch`, `Session` | FUSE formats; dispatch as a function; the session and file-system objects |
| `Replies`, `Requests` | what each reply says about the operation behind it; what each request does to the file system, and what open handles act on over a whole session |
| `Clients`, `Links`, `Paging` | what a client can count on over a whole session: references, handles, LINK, directory reading |
| `Inodes`, `Fs`, `Effects`, `Location`, `Readdir` | the inode table; the file system over an abstract host; what each operation does to it; cached locations; directory paging |
| `ZeroCopy`, `EndToEnd` | serving one chain, and when the zero-copy paths agree with the generic one; a WRITE chain read back by a READ chain |
| `Rings`, `Delivery`, `Drain`, `Conforming` | both rings in memory; driver and device as a state machine; the drain loop; a driver's duties |
| `Serving`, `Messages`, `Server`, `Vrings`, `Panics` | the serving methods; control messages and their history; `process_vring` and the server object; queue configuration and handover; when the loop panics |
| `Payload`, `Framing` | vhost-user payloads; framing over an arbitrarily split stream |

How the world outside is modelled:

- The host kernel is an input. `Fs.Kernel` holds its answers during one request (which call fails and
  how, how many bytes a transfer moves, which key a new file gets); theorems quantify over all of them.
  Transfers are cut back to legal lengths: a read returns at least one byte unless none is there.
- Guest memory is one byte array; a region's `ptr` is where its mapping starts. An address space is a
  partial map from address ranges to host indices. Regions are assumed not to overlap within a space
  where a theorem says so (`Memory.Apart`, `Memory.Linear`), since `find` takes the first match.
- Driver and device interleave step by step: publish, reap, write other memory, pop, serve. The ledger
  in `Delivery` records what each side actually read and wrote, so "in order" is a statement about
  memory contents.
- The drain loop must end for the method to be a method. `Serving.DrainQueue` therefore takes a bound
  within which the loop stops; `Drain.DrainEnds` gives the bound for every queue whose buffers stay off
  its rings, `Conforming.ConformingIsOrderly` reduces that to a condition on memory at the start, and
  `Server.Server.ProcessConforming` is `process_vring` under that condition, without a bound.

Statements about the wire and about memory name numbers, offsets, errnos and flags outright, as the
FUSE, vhost-user and VIRTIO layouts have them, and not through the functions that decode them: the
numbers of requests in `Replies.REQUESTS` and `Messages.Meant`, descriptors in `Descriptors`, errnos in
`Effects`.

Where a natural claim is false of the code, the exact condition is proved instead:

- READ with too little writable space: the generic reply announces more than it writes
  (`ZeroCopy.GenericOverstates`), the zero-copy one does not (`ZeroCopy.FastLengthTrue`), so the paths
  agree exactly as in `ZeroCopy.ServeExact`; `ZeroCopy.ShortReadDiffers` gives a differing session.
- A queue size that does not divide 65536: `Delivery.DeliveryExact` and `Delivery.WrapLosesHead`.
- A queue size of 0, on which taking a slot panics: `Vrings.EmptyQueues` says which messages build such
  a queue (65536 is a size that does, `Vrings.EmptyExample`) and `Panics.ProcessPanics` when
  `process_vring` panics.
- Cached locations: removals, replacing renames and forgotten parents break them; `Location.StepExact`
  and `Location.RunExact` say precisely when, and `Requests.SessionExact` says it of request bytes.
  `Location.ReplacedInodeMisdirected` shows the effect.
- Re-sent SET_VRING_ADDR: the queue goes on in step exactly under the condition of
  `Vrings.ResendResumes`; `Vrings.ResendRepeats` and `Vrings.ResendExample` answer a request twice.
- LINK replies carry a node id like those that grant a reference, but none is counted:
  `Links.LinksExact` says when a client that counts them is right about which nodes are known,
  `Links.LinkedNodeLost` what happens otherwise, and `Links.LinkExample` is a session in which it does.
- More than 32 descriptors on one message: `Framing.FrameExact`.
- The comment that errno translation is the identity on Linux does not match its table, which maps
  unlisted values such as 61 to EIO; `Wire.ToLinuxErrno` is the identity exactly on the listed ones.

## Model

| member | source | states |
|---|---|---|
| `ZeroCopy.ServeExact` | crates/riftlessfs-proto/src/vhost_user/server.rs:169-259 | serving a chain (fast paths included) gives the same memory, session and used length as the generic path for every kernel and file system, if and only if the request is not a READ (number 15), at an offset below 2^63, asking for more than the writable space takes |
| `ZeroCopy.WriteRefines` | crates/riftlessfs-proto/src/vhost_user/server.rs:421-453 | zero-copy WRITE equals the generic WRITE on every chain whose request is mapped, however the 80 header bytes fall across descriptors; the writable side may be anything |
| `ZeroCopy.WriteTakesFastPath` | crates/riftlessfs-proto/src/vhost_user/server.rs:421-430 | the fast WRITE path is taken exactly when the generic path would parse the request |
| `ZeroCopy.FastWrite` | crates/riftlessfs-proto/src/vhost_user/server.rs:432-453 | the bytes handed to the file are the request after 80 bytes, at most `size` of them, at the given offset, and the reply reports that write |
| `ZeroCopy.GenericWrite` | crates/riftlessfs-proto/src/vhost_user/server.rs:391-403 | what the generic path does with a WRITE that parses |
| `ZeroCopy.ReadRefines` | crates/riftlessfs-proto/src/vhost_user/server.rs:467-508 | zero-copy READ into disjoint mapped segments equals the generic READ whenever the capacity is 0, the size is 0, or capacity is at least 16 + size; short reads and error replies included |
| `ZeroCopy.FastRead` | crates/riftlessfs-proto/src/vhost_user/server.rs:467-508 | zero-copy READ into disjoint mapped segments equals answering with a read of min(size, capacity - 16) bytes: payload first and header last make the reply scattered in order |
| `ZeroCopy.GenericRead` | crates/riftlessfs-proto/src/vhost_user/server.rs:391-403 | what the generic path does with a READ that parses |
| `ZeroCopy.GenericDelivers` | crates/riftlessfs-proto/src/vhost_user/server.rs:391-403 | the generic path from buffers to buffers: the session becomes what handling the gathered request makes of it, the reply is at the start of the writable segments as far as it fits, and that much is reported; nothing written and 0 reported without a reply |
| `ZeroCopy.ShortReadDiffers` | crates/riftlessfs-proto/src/vhost_user/server.rs:467-508 | for every READ at an offset below 2^63 that asks for more than fits there is a session and a kernel for which the two paths leave different memory |
| `ZeroCopy.GenericOverstates` | crates/riftlessfs-proto/src/vhost_user/server.rs:391-403 | when all that is asked for is read and less fits, the length field the driver finds names the whole reply and exceeds the used length |
| `ZeroCopy.FastLengthTrue` | crates/riftlessfs-proto/src/vhost_user/server.rs:467-508 | whatever the kernel answers, the length field the driver finds after a zero-copy READ is the used length, if the header fits |
| `EndToEnd.ReadAfterWrite` | crates/riftlessfs-proto/src/vhost_user/server.rs:421-508 | after a WRITE chain, a READ chain for a range within what that WRITE reported, on any handle of the same file, leaves in its buffers the bytes the WRITE buffers held, as many as it reports and at least one if there is room, or an error of the kernel; WRITE is number 16 and READ 15, with handle, offset and size at 40, 48 and 56 of the request |
| `Effects.FileRoundTrip` | crates/riftlessfs-core/src/passthrough.rs:366-400 | reading anywhere within what a write reported gives the written bytes |
| `Effects.WriteEffect` | crates/riftlessfs-core/src/passthrough.rs:385-400 | a write fails with 9, 22 or the kernel's errno and then changes nothing; otherwise the bytes it reports are in the handle's own file at the offset, byte by byte, and no other file, entry, inode or handle has changed |
| `Effects.OverwrittenHolds` | crates/riftlessfs-core/src/passthrough.rs:385-400 | byte by byte: the data at its offset, the old bytes around it, zeros in a gap |
| `ZeroCopy.ServeRefines` | crates/riftlessfs-proto/src/vhost_user/server.rs:169-259 | the sufficient half of the equivalence, request by request |
| `ZeroCopy.ServePaths` | crates/riftlessfs-proto/src/vhost_user/server.rs:198-235 | which path a request takes, by its bytes: zero-copy WRITE for number 16 from 80 bytes on, zero-copy READ for number 15 from 60 on, the generic path for all else |
| `ZeroCopy.PrefixParses` | crates/riftlessfs-proto/src/vhost_user/server.rs:198-202 | parsing the first 80 bytes gives the header, opcode and read/write fields that parsing the whole request gives |
| `ZeroCopy.ServeFrame` | crates/riftlessfs-proto/src/vhost_user/server.rs:169-259 | on every path and outcome, host bytes that no part of a writable segment reaches keep their value |
| `Serving.DispatchGeneric` | crates/riftlessfs-proto/src/vhost_user/server.rs:391-403 | gather, dispatch, scatter over the live objects does what the generic function says |
| `Serving.TryWriteZeroCopy` | crates/riftlessfs-proto/src/vhost_user/server.rs:421-453 | the method over guest memory, session and queue computes `ZeroCopy.TryWrite` |
| `Serving.ReadVectored` | crates/riftlessfs-core/src/passthrough.rs:412-427 | the bytes read land in the vector ranges in order; on an error guest memory is untouched |
| `Serving.TryReadZeroCopy` | crates/riftlessfs-proto/src/vhost_user/server.rs:467-508 | the method computes `ZeroCopy.TryRead` and changes only guest memory |
| `Serving.ServeChain` | crates/riftlessfs-proto/src/vhost_user/server.rs:198-235 | prefix gather, opcode peek, fast path or fallback: computes `ZeroCopy.ServeChain` |
| `Delivery.DeliveryExact` | crates/riftlessfs-proto/src/vhost_user/virtqueue.rs:91-107 | over every interleaving of driver and device steps, from a queue at rest at any position, what is popped is a prefix of what was published and what is reaped is a prefix of what was pushed, exactly for the queue sizes that divide 65536 |
| `Delivery.RunKeeps` | crates/riftlessfs-proto/src/vhost_user/virtqueue.rs:91-107 | every step of every run keeps the ring invariant, across any number of 16-bit wraparounds |
| `Delivery.RestOk` | crates/riftlessfs-proto/src/vhost_user/server.rs:325-333 | a queue whose indices and device stand at one position, as a new queue or SET_VRING_BASE leaves it, satisfies the ring invariant, whatever that position is |
| `Delivery.PopExact` | crates/riftlessfs-proto/src/vhost_user/virtqueue.rs:91-107 | `pop_avail` answers None exactly when nothing is pending, and otherwise the oldest pending head |
| `Delivery.PushKeeps` | crates/riftlessfs-proto/src/vhost_user/virtqueue.rs:286-304 | `push_used` never overwrites an element the driver has not taken back |
| `Delivery.ReapStep` | crates/riftlessfs-proto/src/vhost_user/virtqueue.rs:286-304 | the driver sees a new used element exactly when there is one, and reads the oldest |
| `Delivery.ServeStep` | crates/riftlessfs-proto/src/vhost_user/server.rs:176-237 | serving the popped head keeps rings and ledger in step |
| `Delivery.SlotsExact` | crates/riftlessfs-proto/src/vhost_user/virtqueue.rs:101-101 | entries fewer than the queue size apart never share a slot, if and only if the size divides 65536 |
| `Delivery.WrapLosesHead` | crates/riftlessfs-proto/src/vhost_user/virtqueue.rs:101-107 | for any other size a driver within its rights makes the device pop a younger head where an older one was due |
| `Rings.PushView` | crates/riftlessfs-proto/src/vhost_user/virtqueue.rs:286-304 | `push_used` puts the element in the slot of the used index, moves that index on by one modulo 65536, and leaves both rings otherwise alone |
| `Rings.PopView` | crates/riftlessfs-proto/src/vhost_user/virtqueue.rs:91-107 | `pop_avail` reads the slot of the device index unless the indices are equal |
| `Rings.HeadView` | crates/riftlessfs-proto/src/vhost_user/server.rs:176-237 | a served head either ends in the used ring or leaves both rings alone, if its buffers stay off them |
| `Rings.FinishTells` | crates/riftlessfs-proto/src/vhost_user/server.rs:216-237 | a served chain leaves session and buffers as serving it left them, and one used element with the head and the number of bytes written, in the slot of the used index |
| `Drain.DrainConserves` | crates/riftlessfs-proto/src/vhost_user/server.rs:169-259 | draining stops by itself; on Ok every published head was pushed exactly once in order, the count is what was pending, and unread used elements are intact; on Err exactly the popped head is missing |
| `Drain.DrainEnds` | crates/riftlessfs-proto/src/vhost_user/server.rs:176-237 | with buffers off the rings the loop ends within (avail_idx - last_avail_idx) mod 65536 successful turns |
| `Drain.TurnMoves` | crates/riftlessfs-proto/src/vhost_user/server.rs:176-237 | a turn is idle exactly when the indices meet, never changes the available index, and moves the device by one |
| `Drain.PendingIs` | crates/riftlessfs-proto/src/vhost_user/virtqueue.rs:91-107 | the 16-bit distance is the number of published heads not yet served |
| `Conforming.ConformingConserves` | crates/riftlessfs-proto/src/vhost_user/server.rs:169-259 | the same from a condition on guest memory at the start: every pending head begins a chain inside the table whose reply buffers reach neither ring nor table |
| `Conforming.ConformingIsOrderly` | crates/riftlessfs-proto/src/vhost_user/server.rs:176-237 | that condition keeps the whole drain off the rings, whatever the requests are |
| `Conforming.StillClear` | crates/riftlessfs-proto/src/vhost_user/virtqueue.rs:115-151 | a chain read later in the drain is the chain that was there at the start |
| `Serving.ServeNext` | crates/riftlessfs-proto/src/vhost_user/server.rs:176-237 | one iteration of the loop over the live objects is one turn of the model |
| `Serving.DrainQueue` | crates/riftlessfs-proto/src/vhost_user/server.rs:175-237 | the loop over the live objects computes the whole drain |
| `Server.Server.ProcessVring` | crates/riftlessfs-proto/src/vhost_user/server.rs:169-259 | nothing without memory or queue; otherwise the drain, and the slot's call descriptor is signalled exactly when it ended well and served something; the configuration stays as the messages said |
| `Server.Server.ProcessConforming` | crates/riftlessfs-proto/src/vhost_user/server.rs:169-259 | over the live objects, at any point of a run and with all pending heads safe, on the queue the messages set up: the loop stops by itself; on Ok every published head has been answered exactly once in order, rings and ledger are in step, and the descriptor of the last SET_VRING_CALL (13) for the queue is signalled exactly when something was pending; on Err only the popped head is missing |
| `Server.Server.Signals` | crates/riftlessfs-proto/src/vhost_user/server.rs:250-257 | the descriptor to signal is the first one of the last SET_VRING_CALL for the queue, none if that carried none, and the queue is at the addresses of its last SET_VRING_ADDR |
| `Chains.ReadChainExact` | crates/riftlessfs-proto/src/vhost_user/virtqueue.rs:115-151 | `read_chain` succeeds exactly when the next-links end within 512 readable non-indirect descriptors, returns the order-preserving split by the WRITE flag, and visits no index twice |
| `Chains.CyclicChainRejected` | crates/riftlessfs-proto/src/vhost_user/virtqueue.rs:115-151 | any chain that comes back to a visited descriptor is rejected |
| `Virtqueue.Virtqueue.ReadChainAt` | crates/riftlessfs-proto/src/vhost_user/virtqueue.rs:115-151 | the loop over guest memory returns what the bytes of the chain's entries say: address at 0, length at 8, flags at 12 and next at 14 of each 16-byte entry, NEXT 1, WRITE 2, INDIRECT 4, at most 512 entries, and the error of an entry that cannot be used |
| `Virtqueue.ChainInMemory` | crates/riftlessfs-proto/src/vhost_user/virtqueue.rs:115-151 | whatever is in memory, the head has exactly one such outcome, and `read_chain` returns it: buffers to read and to write in chain order, or too long, out of bounds, indirect |
| `Virtqueue.EntryIsRead` | crates/riftlessfs-proto/src/vhost_user/virtqueue.rs:123-132 | a descriptor is read exactly when its four fields are mapped, and each from its own place |
| `Descriptors.WholeEntry` | crates/riftlessfs-proto/src/vhost_user/virtqueue.rs:123-132 | an entry mapped in one piece at host index p has its fields at p, p + 8, p + 12 and p + 14 |
| `Virtqueue.Virtqueue.PopAvailNext` | crates/riftlessfs-proto/src/vhost_user/virtqueue.rs:91-107 | result and new device index of `pop_avail` for every size, errors and the panic on size 0 included |
| `Virtqueue.Virtqueue.PushUsedElem` | crates/riftlessfs-proto/src/vhost_user/virtqueue.rs:286-304 | new guest memory and result of `push_used`, partial writes on error included |
| `Virtqueue.Virtqueue.GatherReadable` | crates/riftlessfs-proto/src/vhost_user/virtqueue.rs:155-164 | the loop computes `Segments.Gather` |
| `Virtqueue.Virtqueue.GatherReadablePrefix` | crates/riftlessfs-proto/src/vhost_user/virtqueue.rs:203-221 | the loop computes `Segments.GatherPrefix` |
| `Virtqueue.Virtqueue.ScatterWritable` | crates/riftlessfs-proto/src/vhost_user/virtqueue.rs:172-192 | the loop leaves the memory and count of `Segments.Scatter`, counted modulo 2^32 |
| `Virtqueue.Virtqueue.IovecsFrom` | crates/riftlessfs-proto/src/vhost_user/virtqueue.rs:244-281 | the loop computes `Segments.Iovecs` |
| `Segments.GatherIsFlat` | crates/riftlessfs-proto/src/vhost_user/virtqueue.rs:155-164 | gathering succeeds exactly on mapped chains and returns their bytes in order |
| `Segments.GatherPrefixIsPrefix` | crates/riftlessfs-proto/src/vhost_user/virtqueue.rs:203-221 | the bounded gather is the first n bytes of the full gather |
| `Segments.ScatterWrites` | crates/riftlessfs-proto/src/vhost_user/virtqueue.rs:172-192 | scattering into disjoint mapped segments writes exactly the prefix that fits, in order, and changes no other byte |
| `Segments.ScatterThenGather` | crates/riftlessfs-proto/src/vhost_user/virtqueue.rs:172-192 | what was scattered is gathered back; the rest of the segments is as before |
| `Segments.IovecsAreSlice` | crates/riftlessfs-proto/src/vhost_user/virtqueue.rs:244-281 | the vector is the slice [skip .. skip + max] of the flattened segments |
| `Segments.IovecsAreThreaded` | crates/riftlessfs-proto/src/vhost_user/virtqueue.rs:244-281 | every vector entry is non-empty and lies inside one segment, in segment order |
| `Segments.MappedFits` | crates/riftlessfs-proto/src/vhost_user/virtqueue.rs:260-262 | no address inside a mapped segment overflows 64 bits |
| `Segments.ScatterFrame` | crates/riftlessfs-proto/src/vhost_user/virtqueue.rs:172-192 | bytes out of reach of the segments are never written, mapped or not |
| `Memory.FindExact` | crates/riftlessfs-proto/src/vhost_user/memory.rs:197-202 | the overflow-free test accepts exactly the ranges inside one region |
| `Memory.TranslateLinear` | crates/riftlessfs-proto/src/vhost_user/memory.rs:197-202 | with regions apart, a sub-range never resolves differently from the range it is part of |
| `Server.TableLinear` | crates/riftlessfs-proto/src/vhost_user/memory.rs:110-161 | a memory table whose entries do not overlap in an address space yields a linear one, wherever it is mapped |
| `Memory.DualSpaces` | crates/riftlessfs-proto/src/vhost_user/memory.rs:204-215 | a write through one address space is what a read through the other sees, and no other byte moves |
| `Memory.StoreThenLoad` | crates/riftlessfs-proto/src/vhost_user/memory.rs:217-242 | little-endian accesses round-trip and change only their own bytes |
| `Memory.GuestMemory.GetSlice` | crates/riftlessfs-proto/src/vhost_user/memory.rs:204-208 | the bytes of a mapped range, or nothing |
| `Memory.GuestMemory.CopyIn` | crates/riftlessfs-proto/src/vhost_user/memory.rs:211-215 | all of the range is overwritten, or nothing |
| `Vrings.ConfiguredByHistory` | crates/riftlessfs-proto/src/vhost_user/server.rs:306-333 | a slot holds the last SET_VRING_ADDR preceded by a SET_VRING_NUM, with the size in force then, at the last SET_VRING_BASE or 0, whatever the order of messages |
| `Vrings.LastIndexIs` | crates/riftlessfs-proto/src/vhost_user/server.rs:306-333 | what "last" means: the message at that position matches and no later one does |
| `Vrings.ResendResumes` | crates/riftlessfs-proto/src/vhost_user/server.rs:67-78 | re-sending the address in the middle of a run keeps the device in step with the ledger if and only if the slot's base is the number of requests answered, modulo 65536 |
| `Vrings.ResendRepeats` | crates/riftlessfs-proto/src/vhost_user/server.rs:67-78 | from a queue at rest at the slot's base, after any one request and a re-sent address the device pops the head it has already answered, so delivery is out of order |
| `Vrings.ResendExample` | crates/riftlessfs-proto/src/vhost_user/server.rs:67-78 | such a run exists from a new queue with base 0 |
| `Vrings.EmptyQueues` | crates/riftlessfs-proto/src/vhost_user/server.rs:306-324 | a slot holds a queue of size 0 exactly when the last SET_VRING_NUM before its last SET_VRING_ADDR carried a multiple of 65536 |
| `Vrings.EmptyExample` | crates/riftlessfs-proto/src/vhost_user/server.rs:306-324 | a size of 65536 builds one |
| `Panics.ProcessPanics` | crates/riftlessfs-proto/src/vhost_user/server.rs:169-259 | after any messages that built a queue, `process_vring` panics on it if and only if the last size before its last address was a multiple of 65536 and the available index is not at the position last set |
| `Vrings.HandedOver` | crates/riftlessfs-proto/src/vhost_user/server.rs:334-350 | a slot set up from a GET_VRING_BASE reply holds the same queue at the same position |
| `Vrings.HandoverResumes` | crates/riftlessfs-proto/src/vhost_user/server.rs:334-350 | handing over in mid-run loses and repeats nothing: the new device pops the oldest unserved head next |
| `Messages.SlotsIndependent` | crates/riftlessfs-proto/src/vhost_user/server.rs:306-370 | each slot is a function of the messages addressed to it alone |
| `Messages.InterpretsEncoded` | crates/riftlessfs-proto/src/vhost_user/server.rs:269-375 | what a front end encodes for 5, 8, 9, 10, 11, 12, 13 and 18 is taken for SET_MEM_TABLE, SET_VRING_NUM, _ADDR, _BASE, GET_VRING_BASE, SET_VRING_KICK, _CALL and _ENABLE with those payloads and descriptors |
| `Messages.InterpretIs` | crates/riftlessfs-proto/src/vhost_user/server.rs:261-375 | every message is taken for what its number and the bytes at fixed offsets of its payload say; short payloads are errors, unknown numbers nothing |
| `Messages.HeldAsSaid` | crates/riftlessfs-proto/src/vhost_user/server.rs:306-370 | after any messages each queue holds, off their bytes: the last size modulo 65536, the last base or 0, addresses of the last SET_VRING_ADDR after a size, the first descriptor of the last SET_VRING_KICK and of the last SET_VRING_CALL unless that says it has none, and the last SET_VRING_ENABLE |
| `Messages.AnswersSaid` | crates/riftlessfs-proto/src/vhost_user/server.rs:269-350 | exactly 1, 11, 15 and 17 are answered: with 0x140000000, the queue's index and position (0 without a queue), 0, and 2 |
| `Messages.BaseReplyDecodes` | crates/riftlessfs-proto/src/vhost_user/server.rs:334-350 | the GET_VRING_BASE reply body decodes to the queue position |
| `Server.VringSlot.MaybeBuild` | crates/riftlessfs-proto/src/vhost_user/server.rs:67-78 | builds a queue at the pending base, or leaves the slot alone without a size |
| `Server.VringSlot.SetPosition` | crates/riftlessfs-proto/src/vhost_user/server.rs:325-333 | sets the pending base and, if there is a queue, its position |
| `Server.Server.HandleMessage` | crates/riftlessfs-proto/src/vhost_user/server.rs:269-375 | slots, guest memory and reply body after any message, by its number and bytes; once accepted, every queue is configured as all messages so far say; a message that fails changes nothing, unknown requests and indices are ignored |
| `Server.Server.HandleOne` | crates/riftlessfs-proto/src/vhost_user/server.rs:261-384 | receive, handle, reply, by the message's number and bytes: slots, guest memory and the reply frame with the reply flag and the request's own code; an error of any kind leaves queues and guest memory alone |
| `Server.Server.SetMemTable` | crates/riftlessfs-proto/src/vhost_user/server.rs:287-304 | guest memory becomes exactly the listed regions where they were mapped, with linear address spaces if the entries do not overlap; a short payload, a wrong number of descriptors or a failed mapping keeps the old memory |
| `Server.MapRegions` | crates/riftlessfs-proto/src/vhost_user/memory.rs:110-161 | one region per entry, in order, with its guest-physical and user address; nothing if any mapping fails |
| `Messages.RepliesArrive` | crates/riftlessfs-proto/src/vhost_user/server.rs:380-384 | every reply, with the request's own number, flags 5 and the length of its body, is received whole by the front end and leaves what follows in the stream |
| `Framing.Relay` | crates/riftlessfs-proto/src/vhost_user/connection.rs:59-114 | two connections, each splitting its calls arbitrarily, sends and receives in any order: what has been received is the first messages sent, whole and in order, and what is on the way is the rest; only a failed call ends it early |
| `Framing.FramingLossless` | crates/riftlessfs-proto/src/vhost_user/connection.rs:59-114 | k receives from a stream that begins with k frames give the k messages in order and leave what follows untouched |
| `Framing.FrameExact` | crates/riftlessfs-proto/src/vhost_user/connection.rs:59-114 | a message comes back whole exactly when it carries at most 32 descriptors |
| `Framing.FrameTaken` | crates/riftlessfs-proto/src/vhost_user/connection.rs:81-97 | one receive takes exactly one message and the descriptors on its first byte |
| `Framing.OversizedRefused` | crates/riftlessfs-proto/src/vhost_user/connection.rs:88-92 | a header is refused for its size exactly when it announces more than 1 MiB, and then only the header has been taken |
| `Framing.Connection.Send` | crates/riftlessfs-proto/src/vhost_user/connection.rs:59-77 | however many bytes each call moves, the stream gains exactly the frame with descriptors on its first byte; if a call fails or moves nothing, a proper prefix and the matching error |
| `Framing.Connection.Recv` | crates/riftlessfs-proto/src/vhost_user/connection.rs:81-97 | result and rest of the stream depend only on the stream, not on the splits, unless a call fails |
| `Framing.Connection.RecvExact` | crates/riftlessfs-proto/src/vhost_user/connection.rs:102-114 | exactly the next n bytes and their descriptors, or Disconnected at the end of the stream, or the error of a failed call |
| `Payload.HeaderRoundTrip` | crates/riftlessfs-proto/src/vhost_user/header.rs:111-125 | request, flags and size are at 0, 4 and 8, and decoding an encoded header gives it back |
| `Payload.HeaderOnto` | crates/riftlessfs-proto/src/vhost_user/header.rs:111-125 | encoding a decoded header gives the 12 bytes back |
| `Payload.StateRoundTrip` | crates/riftlessfs-proto/src/vhost_user/payload.rs:41-61 | VringState: index at 0, number at 4; round trip, trailing bytes ignored |
| `Payload.AddrRoundTrip` | crates/riftlessfs-proto/src/vhost_user/payload.rs:77-107 | VringAddr: index, flags, descriptor, used, avail and log at 0, 4, 8, 16, 24 and 32; round trip, trailing bytes ignored |
| `Payload.FdRoundTrip` | crates/riftlessfs-proto/src/vhost_user/payload.rs:123-141 | queue index in byte 0 and no-descriptor flag in byte 1; round trip |
| `Payload.RegionsRoundTrip` | crates/riftlessfs-proto/src/vhost_user/payload.rs:188-215 | every memory table decodes to what was encoded |
| `Payload.RegionsFromBytes` | crates/riftlessfs-proto/src/vhost_user/payload.rs:189-204 | the parsing loop accepts exactly the buffers that hold all announced regions |
| `Payload.RegionsToBytes` | crates/riftlessfs-proto/src/vhost_user/payload.rs:206-215 | the encoding loop computes `Payload.EncodeRegions` |
| `Inodes.RegisterKeepsWf` | crates/riftlessfs-core/src/inode.rs:130-164 | the two indexes stay inverse, a known key gets its existing id, a new one the next id |
| `Inodes.ForgetKeepsWf` | crates/riftlessfs-core/src/inode.rs:168-191 | the table invariant survives any forget |
| `Inodes.NoteRenameKeepsWf` | crates/riftlessfs-core/src/inode.rs:195-209 | a rename changes no id, key or index |
| `Inodes.IssuedIncreasing` | crates/riftlessfs-core/src/inode.rs:152-152 | ids are issued in strictly increasing order below next_id, over every run |
| `Inodes.NeverReissued` | crates/riftlessfs-core/src/inode.rs:152-152 | an issued id was not tracked before and is never issued again |
| `Clients.CountsAreRead` | crates/riftlessfs-proto/src/fuse/dispatch.rs:70-360 | over every session, whatever the client gives back: the stored count of a node is the fold of what request and reply bytes grant and return, never below zero, and the node is known exactly while that is positive |
| `Clients.NodesStayWhileHeld` | crates/riftlessfs-proto/src/fuse/dispatch.rs:70-360 | for a client that forgets no more than it was granted the count is grants minus forgets |
| `Clients.HandlesNeverReused` | crates/riftlessfs-core/src/handle.rs:37-41 | over every session, each handle read off a reply is larger than all handed out before it, whatever was released in between |
| `Clients.GrantIsResult` | crates/riftlessfs-proto/src/fuse/dispatch.rs:117-122 | the node id a client reads off an entry reply is the one the file system registered |
| `Clients.OpenedIsResult` | crates/riftlessfs-proto/src/fuse/dispatch.rs:228-246 | the handle number a client reads off a reply is the one the file system opened; what it is open on is `Requests.HandleOpensNode` |
| `Links.LinkUncounted` | crates/riftlessfs-proto/src/fuse/dispatch.rs:221-226 | a LINK that succeeds is answered with the linked node's id and counts no reference |
| `Links.LinksExact` | crates/riftlessfs-proto/src/fuse/dispatch.rs:221-226 | for a client that counts LINK replies and never gives back more than it was handed, nodes are known exactly while held at every point of a session if and only if at every point where it holds anything it still holds a reference from LOOKUP, MKDIR, SYMLINK or CREATE |
| `Links.LinkedNodeLost` | crates/riftlessfs-proto/src/fuse/dispatch.rs:221-226 | after a LINK, giving back the references counted before it makes the node unknown, though such a client still holds one |
| `Links.LinkExample` | crates/riftlessfs-proto/src/fuse/dispatch.rs:221-226 | such a session exists on a fresh share: LOOKUP, LINK, FORGET of one reference |
| `Inodes.ForgetAllIsTotals` | crates/riftlessfs-proto/src/fuse/dispatch.rs:109-115 | BATCH_FORGET is one subtraction of each id's total |
| `Inodes.BatchByTotals` | crates/riftlessfs-proto/src/fuse/dispatch.rs:109-115 | batches with equal totals per id have the same effect, whatever order and splitting |
| `Inodes.InodeStore.RegisterChild` | crates/riftlessfs-core/src/inode.rs:130-164 | the object with its hash maps and shared entries does what `Inodes.Register` says |
| `Inodes.InodeStore.ForgetRefs` | crates/riftlessfs-core/src/inode.rs:168-191 | the same for forget, eviction from both maps included |
| `Inodes.InodeStore.NoteRenameIn` | crates/riftlessfs-core/src/inode.rs:195-209 | the same for note_rename, for any iteration order |
| `Location.RunExact` | crates/riftlessfs-core/src/inode.rs:195-209 | over whole runs, every cached (parent, name) keeps resolving to its own file exactly when no removal or replacing rename hits a cached name and no batch of forgets evicts the cached parent of an inode that stays |
| `Location.StepExact` | crates/riftlessfs-core/src/passthrough.rs:79-300 | the same for one operation: a condition on the state and the kernel's answers before the call is necessary and sufficient |
| `Location.AtMostOneAt` | crates/riftlessfs-core/src/inode.rs:195-209 | at most one inode matches in note_rename |
| `Location.OrderImmaterial` | crates/riftlessfs-core/src/inode.rs:195-209 | so the hash map's iteration order does not matter |
| `Location.ReopenAlongRuns` | crates/riftlessfs-core/src/passthrough.rs:202-217 | from a fresh share, at every point of a run of safe operations, reopening any tracked inode fails only if the kernel does and otherwise opens that inode's own file |
| `Location.ReopenReachesOwnFile` | crates/riftlessfs-core/src/passthrough.rs:202-217 | the same in any state with the invariant |
| `Location.StepKeepsPlain` | crates/riftlessfs-core/src/passthrough.rs:79-300 | no operation caches a name with a NUL byte |
| `Location.TruncationHitsOwnFile` | crates/riftlessfs-core/src/passthrough.rs:100-120 | truncation by the cached location cuts the inode's own file or fills it up with zeros, and touches no other |
| `Location.ReplacedInodeMisdirected` | crates/riftlessfs-core/src/passthrough.rs:271-293 | after a rename over a tracked inode's cached name, reopening that inode reaches the other file |
| `Location.InitLocated` | crates/riftlessfs-core/src/inode.rs:93-115 | the invariant holds at start-up |
| `Requests.RequestIsStep` | crates/riftlessfs-proto/src/fuse/dispatch.rs:70-360 | every request does to the file system exactly the operation its number and bytes ask for (names, node ids, handles, offsets, forget counts at their places), and all other requests leave it alone |
| `Requests.SessionExact` | crates/riftlessfs-core/src/inode.rs:195-209 | over every session of requests, cached locations keep resolving throughout exactly when every request is safe |
| `Requests.HandleOpensNode` | crates/riftlessfs-core/src/passthrough.rs:360-364 | while cached locations resolve, the handle in an OPEN reply is open as a file on the file of the node named, in an OPENDIR reply as a directory, and in a CREATE reply on the file of the node that reply grants |
| `Requests.HandleActsOnNode` | crates/riftlessfs-core/src/passthrough.rs:360-400 | from a fresh share and after any safe session, until the handle of an OPEN reply is released and whatever requests come in between: READ of it returns bytes of the opened node's file at the offset and fails only as the kernel says, WRITE of it puts the bytes it reports into that file and changes nothing else |
| `Requests.NameParses` | crates/riftlessfs-proto/src/fuse/bytes.rs:52-62 | a name in a request is the bytes up to the first NUL after its fixed part, and there is none without a NUL |
| `Requests.NamesParse` | crates/riftlessfs-proto/src/fuse/dispatch.rs:371-384 | two names follow each other, each ended by its own NUL |
| `Requests.NameTrims` | crates/riftlessfs-proto/src/fuse/dispatch.rs:363-368 | the name of LOOKUP, UNLINK and RMDIR ends at its first NUL or with the request |
| `Effects.OpenEffect` | crates/riftlessfs-core/src/passthrough.rs:360-364 | an open makes one new handle of the kind asked for, on the file that reopening reaches, and changes nothing else |
| `Effects.ReopenEffect` | crates/riftlessfs-core/src/passthrough.rs:182-217 | which file a reopen reaches and with which errno it fails: the root by its own descriptor, others by cached parent and name |
| `Effects.HandleKinds` | crates/riftlessfs-core/src/handle.rs:51-75 | a handle stands for its file or directory: 9 if it is not open, 22 if it is open as the other kind |
| `Effects.ReleaseEffect` | crates/riftlessfs-core/src/handle.rs:43-49 | a release closes the handle it names and no other, or answers 9 |
| `Effects.LookupEffect` | crates/riftlessfs-core/src/passthrough.rs:79-85 | a lookup tracks the file at the name, at that name, and touches no other inode; otherwise 9, 22, 2 or the kernel's errno |
| `Effects.MakeEffect` | crates/riftlessfs-core/src/passthrough.rs:219-256 | mkdir, symlink, create: one new entry for an empty file that was not there, tracked by a new inode; 17 if the name is taken |
| `Effects.CreateEffect` | crates/riftlessfs-core/src/passthrough.rs:228-256 | create also opens one new handle, as a file, on the file it made |
| `Effects.RemoveEffect` | crates/riftlessfs-core/src/passthrough.rs:257-270 | a removal takes one entry away and nothing else; 2 if there is none, 39 for a directory with entries |
| `Effects.RenameEffect` | crates/riftlessfs-core/src/passthrough.rs:271-293 | a rename moves one entry, unless both names stand for one file already; ids, keys, handles and contents stay |
| `Effects.LinkEffect` | crates/riftlessfs-core/src/passthrough.rs:324-358 | a link enters the node's own file under one more name; 17 if the name is taken; the inode table is not told |
| `Effects.ReadEffect` | crates/riftlessfs-core/src/passthrough.rs:366-384 | a read returns bytes of the handle's own file from the offset on, some if there are any; otherwise 9, 22 or the kernel's errno |
| `Effects.SetattrEffect` | crates/riftlessfs-core/src/passthrough.rs:100-180 | setting a size cuts or fills with zeros the file that reopening reaches, and no other; which errno otherwise |
| `Effects.ListEffect` | crates/riftlessfs-core/src/passthrough.rs:466-496 | a listing is the kernel's, of a handle open as a directory |
| `Fs.InsertHandleIsFresh` | crates/riftlessfs-core/src/handle.rs:37-41 | a handle id is new when issued and below every later one |
| `Replies.RepliesTellTheTruth` | crates/riftlessfs-proto/src/fuse/dispatch.rs:70-360 | for every request the error field is 0 exactly when the payload parses and the file system did what was asked, -22 when the payload does not parse, otherwise the negated Linux errno of the failure; no reply exactly for short headers and forgets; the request's own unique comes back; which request it is goes by its number |
| `Replies.SuccessCarriesResult` | crates/riftlessfs-proto/src/fuse/dispatch.rs:117-326 | a reply with error 0 carries at fixed offsets what the file system returned for the request of that number: entry, handle, data, count, page of directory entries, attributes, or the limits of INIT; all others have no body |
| `Replies.MeaningIs` | crates/riftlessfs-proto/src/fuse/wire.rs:163-202 | all 28 handled request numbers, and no others, are taken for the requests they are; the four on extended attributes are known and not handled |
| `Dispatch.RepliesAreWellFormed` | crates/riftlessfs-proto/src/fuse/dispatch.rs:70-360 | every byte reply below 4 GiB has its real length and the request's unique, and is a success with the operation's answer or a negative Linux errno without a body |
| `Wire.ReplyIsWellFormed` | crates/riftlessfs-proto/src/fuse/wire.rs:80-94 | what a reply's header fields read back as |
| `Wire.HeaderOnlyIsReplyHeader` | crates/riftlessfs-proto/src/fuse/wire.rs:113-122 | the header-only form is the header of a reply with a body of that length |
| `Wire.BuildReply` | crates/riftlessfs-proto/src/fuse/wire.rs:80-94 | the writer produces `Wire.Reply` |
| `Wire.InHeaderFromBytes` | crates/riftlessfs-proto/src/fuse/wire.rs:43-66 | the cursor code reads the fields at their fixed offsets, or fails below 40 bytes |
| `Wire.ReadInFromBytes` | crates/riftlessfs-proto/src/fuse/wire.rs:589-595 | fields of a READ payload, or failure below 20 bytes |
| `Wire.WriteInFromBytes` | crates/riftlessfs-proto/src/fuse/wire.rs:607-617 | fields and data of a WRITE payload, or failure below 40 bytes |
| `Wire.BatchForgetFromBytes` | crates/riftlessfs-proto/src/fuse/wire.rs:666-677 | all announced entries, or failure if the buffer is too short for them |
| `Wire.ToLinuxErrno` | crates/riftlessfs-proto/src/fuse/linux_errno.rs:27-114 | an errno is kept exactly if it is listed, every other becomes 5, and the result is always listed, between 1 and 125 |
| `Wire.ErrnoSent` | crates/riftlessfs-proto/src/fuse/linux_errno.rs:27-114 | the listed errnos by number; every other is sent as 5 |
| `Session.Session.Handle` | crates/riftlessfs-proto/src/fuse/dispatch.rs:70-360 | the session object over the live file system computes `Dispatch.Handle`, whose replies and effects are stated by request number in `Replies` and `Requests` |
| `Session.PassthroughFs.Lookup` | crates/riftlessfs-core/src/passthrough.rs:79-85 | state and result of a lookup |
| `Session.PassthroughFs.Setattr` | crates/riftlessfs-core/src/passthrough.rs:100-180 | state and result of setattr: truncation by the cached location, then the other attributes |
| `Session.PassthroughFs.Rename` | crates/riftlessfs-core/src/passthrough.rs:271-293 | state and result of a rename |
| `Session.PassthroughFs.ReopenViaParent` | crates/riftlessfs-core/src/passthrough.rs:182-217 | the file a reopen reaches, errors included |
| `Session.HandleStore.Insert` | crates/riftlessfs-core/src/handle.rs:37-41 | a new handle under a new id |
| `Session.HandleStore.Remove` | crates/riftlessfs-core/src/handle.rs:43-49 | the handle is gone, or EBADF |
| `Paging.PagingOverSessions` | crates/riftlessfs-proto/src/fuse/dispatch.rs:298-335 | over every session, read off the bytes: a client that asks on at the offset in the last entry it used gets every entry of the kernel's listing exactly once and in order, with its own name, inode number and type (4, 8, 10 or 0), whatever the room, the part of each page used and all other requests; the next page starts with the next entry if it has room for it, and is empty at the end |
| `Paging.SnapshotsKept` | crates/riftlessfs-proto/src/fuse/dispatch.rs:298-333 | what every request does to the snapshots: READDIR from the start or without one takes the listing if there is one, RELEASEDIR drops its own handle's, nothing else touches any |
| `Readdir.PagingLossless` | crates/riftlessfs-proto/src/fuse/dispatch.rs:298-326 | the same for calls on the snapshot cache |
| `Readdir.ListedStands` | crates/riftlessfs-proto/src/fuse/dispatch.rs:309-321 | the entries pages are made of are those of the listing, one by one: name, inode number, and type as 4, 8, 10 or 0 |
| `Readdir.PageIsFlatten` | crates/riftlessfs-proto/src/fuse/dispatch.rs:309-325 | a page is exactly the next entries that fit |
| `Readdir.EmptyPage` | crates/riftlessfs-proto/src/fuse/dispatch.rs:309-325 | a page is empty exactly at the end or when the next entry does not fit |
| `Readdir.OtherHandles` | crates/riftlessfs-proto/src/fuse/dispatch.rs:300-307 | a snapshot stays until its own handle is read from the start or released |
| `Readdir.DecodeOfEncode` | crates/riftlessfs-proto/src/fuse/wire.rs:695-716 | decoding undoes encoding for every list of entries |
| `Readdir.PushDirent` | crates/riftlessfs-proto/src/fuse/wire.rs:695-716 | appends the padded entry if it fits, else leaves the buffer alone |
| `Readdir.FillPage` | crates/riftlessfs-proto/src/fuse/dispatch.rs:309-325 | the reply loop computes the page, and the room left never goes below zero |
| `Bytes.FromLeOfLe` | crates/riftlessfs-proto/src/fuse/bytes.rs:65-98 | little-endian encoding of a number that fits is decoded to it |
| `Bytes.LeOfFromLe` | crates/riftlessfs-proto/src/fuse/bytes.rs:12-43 | every byte string is the encoding of what it decodes to |
| `Bytes.FindNulIsFirst` | crates/riftlessfs-proto/src/fuse/bytes.rs:52-62 | the string ends at the first NUL, and there is none before |
| `Bytes.Reader.Take` | crates/riftlessfs-proto/src/fuse/bytes.rs:17-22 | returns the next n bytes and advances, or fails and stays |
| `Bytes.Reader.Cstr` | crates/riftlessfs-proto/src/fuse/bytes.rs:52-62 | a string up to its NUL, cursor just past it, or failure |

## Left out

- Real system calls, descriptors and mmap: files are byte sequences, directories a map, descriptors numbers; where a mapping lands in the host store, or that it fails, is an input of SET_MEM_TABLE.
- `Server::run`, polling, kick draining, the doorbell module and the accept path: a kick is a call of `ProcessVring`, a readable socket one of `HandleOne`.
- Threads, locks, atomics and memory barriers: the server is single-threaded and its tables are modelled sequentially; driver steps interleave with device steps, but not inside one.
- 64-bit overflow of inode ids, handle ids and lookup counts, and of ring addresses at the very top of the address space (treated as unmapped).
- Attributes, statfs, readlink, and setattr effects other than truncation: what the kernel input holds is passed on whole; nothing is said about the fields inside.
- Dot and multi-component names, symlink following on reopen, and permission checks: the kernel input decides whether such a call fails.
- Other platforms: the errno table and the empty-vector behaviour of preadv and pwritev are those of a Linux host.
- Indirect descriptors and event-index suppression: rejected or not implemented by the code.
- Receiving beyond the end of what the peer has sent: the stream is finite and then ends, so a blocked receive is not modelled.
- Serving.DrainQueue: takes a bound within which the loop stops, because a device whose buffers overlap its own rings may loop for ever; `Server.Server.ProcessConforming` needs none.
- Server.Server.ProcessVring: takes the same bound, for the same reason.
- Clients.CountsAreRead: for sessions in which node ids stay below 2^64, as all results on references; `Clients.HandlesNeverReused` likewise for handles.
- Session.PassthroughFs.Setattr: mode, owner and times are one answer of the kernel, without an effect on the model.
- Readdir.EmptyPage: for encoders that never return an empty entry, which `Readdir.Dirent` never does.
