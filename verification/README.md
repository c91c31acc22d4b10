# Hercules: a verified model

Hercules is a striped, mirrored parallel file system. Clients cut a file into stripes and store two
copies of each on data servers; metadata servers keep inodes, names and the list of servers; requests
and replies travel as framed packets over one connection per server. This project models the parts
that have to cooperate for a file to stay readable, and proves what they promise.

| file | models |
|---|---|
| `Layout.dfy` | where a byte of a file lives: slices, stripe groups, placement, and the C integer arithmetic |
| `DataServer.dfy` | a data server: extent files, the handle counter, the stripe commands |
| `Stripes.dfy` | what the extents of a file must hold, and how a write moves one copy, slice by slice |
| `StripedClient.dfy` | `hfs_write`, `hfs_read`, `hfs_getISize`, the allocation of a new file, the retry on the backup |
| `Runs.dfy` | whole runs over many files while one server stops: every outcome is that of flat files |
| `Wire.dfy` | command sizes, the word-swapping codec, the two senders |
| `Framing.dfy` | the two byte-at-a-time connection state machines |
| `Remote.dfy` | requests and replies as packets: a call to a data server from end to end |
| `ConfigPage.dfy` | a page of the server table as a packet |
| `Messages.dfy` | the header, and the requests and replies that are not about stripes, field by field |
| `ListRing.dfy` | the intrusive circular list, on the heap |
| `WorkQueue.dfy` | the semaphore-and-mutex queue, on the heap and under every interleaving |
| `Lifecycle.dfy` | requests, pending lists and the replacement of all connections, under every interleaving |
| `FsConfig.dfy` | the paged fetch of the server table |
| `Namespace.dfy` | path resolution and creation over several databases |
| `Arith.dfy`, `Bytes.dfy`, `Counting.dfy` | division and 32-bit conversion, zero-filled byte strings, counting |

Code that updates state in place is a class or a method with loops, proved against a specification
function; the properties are lemmas about that function. Where several threads take part, the methods
give the effect of a critical section, and a state machine gives all interleavings of its steps.

A send takes any positive part of what it is offered, or fails; a data file is a byte sequence, where a
write past the end fills the gap with zeros and a read past the end is short; a database is a sequence
of rows. A data server fails by stopping: sends to it fail from then on. At any moment one may stop,
and none comes back.

## What the code does that its comments do not say

- The guard of the copy loop in `hfs_write` (hercules_client_lib.c:547) compares the address of the
  extent buffer with the end of the user's buffer. The model keeps it, with the addresses as inputs:
  the file receives `Effective` bytes, equal to the user's exactly under `EffectiveExact`.
- A failed handle allocation is answered with success and handle 0 (hercules_ds_cmds.c:73-75), under the
  condition of `AllocFails`. Handle 0 is the handle of the server's own meta file. A file that carries it
  is created like any other, exactly under the condition in `Perform`; it reads and writes the handle
  counter (`MetaFileOverwritten`, `CounterSetToNine`), and two such files share that file where they use
  the same server. `Runs` keeps such files in the run, as files of which nothing can be said, and proves
  that they harm no other file.
- Neither connection state machine compares the announced payload with the buffer (hercules_inbound.c:357-371,
  hercules_client_inbound.c:178-190): a packet that is too long is stored past its end. `FreshOverrun` and
  `ReplyOverrun` give the exact condition, `OversizedWrite` an input; the requests and replies of the
  striped client and of the data server never meet it (`WritesFit`, `RequestAccepted`, `RemoteCall`).
- A write past the end of a file may be reported short, because a group that the gap crosses keeps no
  trace of it: `SizeExact` gives the condition, `SizeShort` an input.
- Positions from 2^31 on are refused by the data server's `int` seek, and from 2^32 on they wrap:
  `MachineMapExact`, `MachineMapWraps`. Requests to the client are required to stay below that capacity.
- The connections can be replaced while the reader is still unlinking an item of the old generation
  (`SwapDuringRemoval`); its counter is already zero, and closing a
  generation closes descriptors only (hercules_client.c:386-395), so the item completes.
- The reader looks a connection up anew for every `recv` (hercules_client_inbound.c:63), in what is installed
  by then. Replies are safe (`PumpFindsConnection`), since their requests hold up the swap. A notification
  is not counted, so a part of one can be stored in a connection of the next generation: `StraysExactly`
  gives the condition, `NotificationStrays` a run. The notification is then lost, and that connection reads
  out of step: after a stray head, it takes the start of its next reply for the rest (`OutOfStep`).
- A create that fails after its inode was allocated leaves the inode without a name (`Create`).
- At most 10 workers are started per queue (utils_common.h:66), though there are 16 tokens; the model
  has any number of workers.
- A queue that is paused and drained may still accept an item (`AcceptsExactly`, `AcceptedAfterDrain`)
  and may still hold one, with a worker that has yet to take it (`DrainedWithItem`) or a caller that has
  yet to post it (`DrainedWhilePosting`); `DrainedExactly` says when. Nothing posts the semaphore when a
  queue is stopped, so the empty-list branch of a worker is dead in every state (`NeverEmpty`) and a
  waiting worker does not see the stop (`WakesExactly`).
- The configuration query also selects rows of role 2, which the client refuses
  (hercules_db_lib.h:136-144, utils_config.c:550-557): the fetch then fails as a whole.
- The lookup of a server by index accepts one index too many (utils_config.c:152, 182), which yields an
  unset record, or a pointer outside the array when all its records are in use, and negative indices.
- A path that ends in two slashes makes the resolver look up the null pointer (`NullAtEndExact`).
- `hfs_create` also splits at a backslash, which `hfs_namei` does not, so no name with a backslash can be
  created: `CreatedExactly`, with the input in `BackslashRefused`.

## Choices of the model

- The connection that a worker uses is captured when it takes the mutex. The code reads
  `pQueueItem->clientIdx` again after the failure handler has signalled the waiter
  (hercules_client_outbound.c:144-154), who may by then have changed it for the retry.
- A notification is two parts for the reader, as one `recv` takes at most the length of a header
  (hercules_client_inbound.c:232-236); every server may send one at any time. A stored notification makes
  an update due, and every update that is due connects in its turn.
- The replacement of the three connection pointers (hercules_client.c:684-695) is one step.
- A worker's increment of `PendingCommands` and its list operation are one step: the mutex is held, and
  the only reader without it is the updater, which then holds all tokens.
- A retry on the backup is a new dispatch, with a new identity, of the same item.
- A reply is stored over the request it answers. The map from cookies to request buffers holds their
  contents, so a `Connection` copies the buffer where the C code writes into it.
- The stripe size is within the bounds that formatting enforces, 1024 to 32768.
- A primary metadata server and its backup are one database, so a retried lookup has the same answer.

## Model

| member | source | states |
|---|---|---|
| Runs.Run | hfs/src/client/hercules_client_lib.c:218-604 | for every sequence of creates, writes, reads and size queries on any number of files, every order of the sends and every moment at which one data server stops for good (also between the two copies of one write), each outcome is that of flat zero-filled byte arrays, also beside files that carry handle 0; if every server has two handles left for each create of the run no such file comes up, and if also all of at least three servers stay up no create fails |
| Runs.Perform | hfs/src/client/hercules_client_lib.c:218-604 | one operation of such a run, started in any state of the run, has the outcome of the flat files and keeps every live copy of every proper file equal to them; a create fails only for a stopped server or fewer than three, and one that succeeds leaves a file with handle 0 if and only if some server it places a copy on has not two handles left |
| Runs.SizesConserved | hfs/src/client/hercules_client_lib.c:1390-1403 | after any run whose writes each start at or before the end of their file, the extent lengths of every file add up to exactly its length |
| Runs.PlainRun | hfs/src/client/hercules_client_lib.c:546-565 | a run in which the copy guard of the writes drops nothing but zeros shows its user the bytes the user wrote: the flat files are those of the plain data |
| Runs.ReadsBackOwnBytes | hfs/src/client/hercules_client_lib.c:218-415 | so every read of a proper file in such a run returns the window of what its user has written |
| Runs.WriteKeeps | hfs/src/client/hercules_client_lib.c:420-604 | a write to one file, also to one that carries handle 0, leaves the flat view and the extent lengths of every other proper file as they were |
| Runs.WriteDraws | hfs/src/io/hercules_io_lib.c:225-287 | a write to a proper file takes no handle from any server |
| Runs.NewFileApart | hfs/src/client/hercules_client_lib.c:945-1063 | the extents of a new file belong to no earlier file, unless both carry handle 0 |
| Runs.CreateAdds | hfs/src/client/hercules_client_lib.c:945-1063 | a created file joins the others under every invariant of a run, as an empty file or as one that carries handle 0 |
| StripedClient.Client.Write | hfs/src/client/hercules_client_lib.c:420-604 | on every live copy a write changes exactly the bytes [offset, offset + size) of the flat view to the bytes sent, touches no extent of another file, grows each extent just as far as the write reaches, and reports the whole size; whatever handles the inode carries, it writes to those alone and removes no extent |
| StripedClient.Client.BuildWrites | hfs/src/client/hercules_client_lib.c:444-587 | the copy loop makes one primary and one backup request per stripe, each with the right server, handle, row, offset and bytes, and serves the whole buffer |
| StripedClient.Client.SendWrites | hfs/src/client/hercules_client_lib.c:589-600 | whatever order the requests are sent in, and whichever server stops between any two of them, every live extent ends with all its slices applied |
| StripedClient.EffectiveExact | hfs/src/client/hercules_client_lib.c:546-565 | the copy guard compares the address of the extent buffer, so the bytes sent are the bytes of the user exactly when every slice that the guard drops consists of zeros |
| StripedClient.EffectiveAbove | hfs/src/client/hercules_client_lib.c:546-565 | a user buffer that lies above all extent buffers is always sent faithfully |
| StripedClient.GuardIsOrder | hfs/src/client/hercules_client_lib.c:546-565 | with buffers that do not overlap the guard lets a slice through exactly if its extent buffer lies below the buffer of the user, whatever the slice |
| StripedClient.GuardLosesData | hfs/src/client/hercules_client_lib.c:546-565 | a concrete write, with the user buffer at 4096 and its extent buffer at 8192, that sends a zero for the byte 7 |
| StripedClient.WritingStep | hfs/src/client/hercules_client_lib.c:589-600 | sending one request of a write advances both copies by exactly that slice, or stops the server and leaves the bytes alone |
| StripedClient.WritingDone | hfs/src/client/hercules_client_lib.c:420-604 | when all requests are sent, every live copy holds its group of the written file and has the length that the write calls for |
| StripedClient.Client.Read | hfs/src/client/hercules_client_lib.c:218-415 | with at most one server down, the buffer receives exactly the window [offset, offset + size) of the flat zero-filled file and nothing behind it; no file changes |
| StripedClient.Client.CopySlices | hfs/src/client/hercules_client_lib.c:344-400 | the copy loop puts every slice where it belongs, never leaves the user buffer, and never reaches its "logic bug" branch |
| StripedClient.Client.QueryAll | hfs/src/client/hercules_client_lib.c:302-340 | after the round on the primaries and the retries on the backups every item holds the answer of a live copy, if no more than one server is ever down |
| StripedClient.Client.DegradedDSRequest | hfs/src/client/hercules_client_lib.c:1548-1589 | the retry goes to the server and the handle that are stripe_cnt further on in the inode, with the rest of the request as it was; that this is what the rewritten packet says is in Remote.RetriedItem |
| StripedClient.QuerySent | hfs/src/client/hercules_client_lib.c:1548-1589 | a query changes no file; it is answered by a server that is up and fails as a transmission on one that is not |
| StripedClient.ReadAnswer | hfs/src/io/hercules_io_lib.c:155-223 | the answer of either copy, completed with the zeros of the fresh reply buffer, is the stripe of the flat file |
| StripedClient.Client.GetISize | hfs/src/client/hercules_client_lib.c:1290-1403 | the reported size is the sum of the extent lengths in 32 bits, the same when one server has stopped and its extent is taken from the backup |
| StripedClient.Client.Raid5GetBlockMapping | hfs/src/client/hercules_client_lib.c:1530-1543 | the group is below the stripe count, and counting rows of that many stripes and then the group leads back to the stripe number as an unsigned word, which is the number itself unless it is negative |
| StripedClient.Client.CreateAllocDataHandle | hfs/src/client/hercules_client_lib.c:945-1063 | fewer than three servers are a configuration error that changes nothing; otherwise failure means a server has stopped, and success places n = min(dsCount, 16) groups: with f = start mod dsCount, the primaries are on the servers f, f + 1, .., f + n - 1 around the ring of all servers, group 0 at distance f mod n from f, each next group on the next of these, each backup where the next group has its primary; the extents are new, empty and pairwise distinct where the handle is not 0, handle 0 is among them if and only if a server that is used has not two handles left, and no server gives more than two |
| StripedClient.Client.PlaceExtents | hfs/src/client/hercules_client_lib.c:978-1007 | the interleaving loop fills the server column of the inode so that the groups roll over all servers from the random start on, and no server holds both copies of a group |
| StripedClient.PlacedSpread | hfs/src/client/hercules_client_lib.c:996-1002 | primaries on pairwise distinct servers, backups too, and the backup of each group on the primary server of the next |
| StripedClient.PlacedRolls | hfs/src/client/hercules_client_lib.c:1000-1002 | the servers of the primaries are exactly the n that follow the random start, cyclically over all data servers; group 0 is at distance start mod n from it, and each next group on the next of them, cyclically |
| StripedClient.AllocStep | hfs/src/client/hercules_client_lib.c:1009-1036 | allocations that reach their servers in any order never hand out one (server, handle) pair twice and keep every existing extent |
| StripedClient.SupplyStep | hfs/src/client/hercules_client_lib.c:1009-1036 | an allocation fails as a transmission only on a server that has stopped, and yields a valid handle wherever the meta file is in order and has handles left |
| StripedClient.LoadAtMostTwo | hfs/src/client/hercules_client_lib.c:978-1007 | the placement asks no server for more than two handles |
| StripedClient.AllocVerdict | hfs/src/client/hercules_client_lib.c:1027-1036 | whatever order the allocations arrive in, some copy gets handle 0 if and only if one of the servers had not two handles left, in terms of its files before |
| StripedClient.OnlyWritesStep | hfs/src/client/hercules_client_lib.c:589-600 | a write under whatever handle the inode carries touches that file of that server alone, and removes none |
| StripedClient.QueryFrame | hfs/src/client/hercules_client_lib.c:302-340 | a read or a size query changes no file of any server, under any handle |
| Layout.SliceExact | hfs/src/client/hercules_client_lib.c:347-371 | head, middle and tail slices are not empty, stay inside their stripe, follow one another and end at offset + size, for every offset and size |
| Layout.CursorExact | hfs/src/client/hercules_client_lib.c:347-398 | the slices total exactly the requested size, also for one stripe and for aligned ends |
| Layout.SlicePositions | hfs/src/client/hercules_client_lib.c:347-398 | in the extent of its own group a slice occupies exactly the positions of its file bytes, and no position of any other extent |
| Layout.FileByteOfPos | hfs/src/client/hercules_client_lib.c:1530-1543 | the map from file bytes to (group, position) is one to one |
| Layout.PosOfFileByte | hfs/src/client/hercules_client_lib.c:1530-1543 | and onto: every position of every extent holds a byte of the file |
| Layout.MachineMapExact | hfs/src/io/hercules_io_lib.c:262-268 | with the C conversions (int stripe, 32-bit product, int seek result) a byte lands where it should exactly when its position is below 2^31 |
| Layout.BelowCapacity | hfs/src/io/hercules_io_lib.c:262-268 | every request below the capacity (2^31 / ss) * n * ss has all its positions below 2^31 |
| Layout.CapacityCovers | hfs/src/io/hercules_io_lib.c:197-203 | that capacity covers every offset below n * (2^31 - ss), and so every file of less than 4 GiB |
| Layout.MachineMapWraps | hfs/src/io/hercules_io_lib.c:262-268 | two concrete offsets beyond it: one is refused by the seek, one lands on byte zero |
| Layout.PlacedDistinct | hfs/src/client/hercules_client_lib.c:996-1002 | copies of the same rank never share a server |
| Layout.BackupIsNextPrimary | hfs/src/client/hercules_client_lib.c:990-1002 | the backup of a group is on the primary server of the next group, cyclically |
| Layout.CopiesApart | hfs/src/client/hercules_client_lib.c:990-1002 | no server holds both copies of a group |
| Stripes.AdvanceOwn | hfs/src/io/hercules_io_lib.c:262-279 | writing a slice into its own extent adds exactly the bytes of that slice and just the length it needs |
| Stripes.AdvanceOther | hfs/src/client/hercules_client_lib.c:455-512 | a slice of another group has no byte of this extent |
| Stripes.AdvancedHolds | hfs/src/client/hercules_client_lib.c:420-604 | an extent that has all its slices holds its group of the flat file after the write |
| Stripes.GroupLenPrefix | hfs/src/client/hercules_client_lib.c:1530-1543 | the bytes of a group are the first positions of its extent |
| Stripes.SumGroupLens | hfs/src/client/hercules_client_lib.c:1390-1403 | the groups' shares of a file add up to its length |
| Stripes.SizeExact | hfs/src/client/hercules_client_lib.c:1390-1403 | after a write the extent lengths add up to the new file length if and only if the write leaves no group with a gap at its end |
| Stripes.SizeConserved | hfs/src/client/hercules_client_lib.c:1390-1403 | so always for a write that starts at or before the end of the file |
| Stripes.SizeShort | hfs/src/client/hercules_client_lib.c:1390-1403 | a concrete write past the end after which the size is reported short |
| DataServers.FileNameInjective | hfs/src/io/hercules_io_lib.c:345-356 | two handles never name the same file |
| DataServers.FileNameSpells | hfs/src/io/hercules_io_lib.c:345-356 | the name is nine hexadecimal digits that spell the handle, and ".dat" |
| DataServers.WriteEffect | hfs/src/io/hercules_io_lib.c:225-287 | a write puts its bytes at stripeNum * stripeSize + offset, zero-fills a gap before them, keeps every other byte and every other extent |
| DataServers.ReadEffect | hfs/src/io/hercules_io_lib.c:155-223 | a read of any number of stripes returns exactly the bytes that the extent has from stripeNum * stripeSize on, up to the length asked for, and changes nothing; completed with zeros, it is the window of the zero-filled extent |
| DataServers.FailsExactly | hfs/src/server/hercules_ds_cmds.c:123-129 | each status of each request, if and only if the extent is missing, or the 32-bit position is from 2^31 on |
| DataServers.AllocEffect | hfs/src/io/hercules_io_lib.c:77-126 | an allocation that reports a handle has created a new empty extent above the old counter and touched no other extent |
| DataServers.AllocSupplied | hfs/src/io/hercules_io_lib.c:77-126 | with the meta file in order and handles left an allocation yields counter + 1 and leaves one handle less |
| DataServers.CounterAdvances | hfs/src/io/hercules_io_lib.c:24-75 | whatever becomes of an allocation, the counter that was in place is one higher afterwards, in 32 bits |
| DataServers.AllocFails | hfs/src/server/hercules_ds_cmds.c:63-80 | an allocation answers success with handle 0 if and only if the meta file is missing or short, the counter wraps, or the file of the next handle exists |
| DataServers.MetaFileOverwritten | hfs/src/io/hercules_io_lib.c:225-287 | a write to handle 0 with a counter in place succeeds and replaces the counter by the first four bytes of its data |
| DataServers.CounterSetToNine | hfs/src/io/hercules_io_lib.c:225-287 | concrete bytes, written to handle 0, that set the counter to 9 |
| DataServers.FreeStep | hfs/src/io/hercules_io_lib.c:24-126 | a server has m + 1 allocations left exactly when the next one yields a valid handle and leaves m |
| DataServers.WriteFrame | hfs/src/io/hercules_io_lib.c:225-287 | any write, also one that fails or hits the meta file, touches no other extent and removes none |
| DataServers.HandlesIncrease | hfs/src/io/hercules_io_lib.c:24-126 | over any run of requests that does not write the meta file, below 32-bit wrap, the handles handed out strictly increase |
| DataServers.CounterStep | hfs/src/io/hercules_io_lib.c:24-75 | no request except a write to handle 0, the meta file itself, lowers the handle counter or raises it by more than one |
| DataServers.DataServer.ReadHandleFromFile | hfs/src/io/hercules_io_lib.c:24-75 | the stored counter is incremented, and only if it could be read in full |
| DataServers.DataServer.SrvAllocDataHandle | hfs/src/io/hercules_io_lib.c:77-126 | the counter advances even when the file cannot be created; the status is success exactly for a valid handle |
| DataServers.DataServer.SrvReadStripe | hfs/src/io/hercules_io_lib.c:155-223 | reply of the read, with its unknown-handle and bad-seek branches |
| DataServers.DataServer.SrvWriteStripe | hfs/src/io/hercules_io_lib.c:225-287 | files and status of the write, with its unknown-handle and bad-seek branches |
| DataServers.DataServer.SrvGetExtentSize | hfs/src/io/hercules_io_lib.c:289-343 | length of the extent in 32 bits, or an invalid handle |
| DataServers.DataServer.ProcessDSCMD | hfs/src/server/hercules_ds_cmds.c:31-134 | files and reply of every request; the status of a failed allocation is replaced by that of the unlock, so it is reported as success with handle 0 |
| Wire.ToggleInvolution | hfs/src/utils/hfs_proto_buff.c:147-155 | request and response toggle into each other and share one buffer size |
| Wire.RoundTrip | hfs/src/utils/hfs_proto_buff.c:209-330 | decoding inverts encoding for every command and every body, whatever its size modulo four |
| Wire.NetworkOrder | hfs/src/utils/hfs_proto_buff.c:209-330 | on the wire each word of the header and each whole word of the body has its most significant byte first |
| Wire.RestUnchanged | hfs/src/utils/hfs_proto_buff.c:209-330 | whatever follows the last whole word of the body is sent as it is |
| Wire.SwapInPlace | hfs/src/utils/hfs_proto_buff.c:209-227 | the in-place loop swaps exactly the given words |
| Wire.EncodeCommandBuffer | hfs/src/utils/hfs_proto_buff.c:254-291 | whole words of the body are swapped, trailing bytes and everything else stay; an unknown command leaves the buffer alone |
| Wire.DecodeCommandBuffer | hfs/src/utils/hfs_proto_buff.c:293-330 | likewise for decoding |
| Wire.SendAll | hfs/src/client/hercules_client_outbound.c:120-137 | however the socket splits the packet, what has been taken is a prefix of it, and all of it on success |
| Wire.ClientOutBoundProcessing | hfs/src/client/hercules_client_outbound.c:63-155 | a sent packet is the encoded stamped request; a failed one is put back exactly as it was queued, except for status and item cookie |
| Wire.StampKeeps | hfs/src/client/hercules_client_outbound.c:75-83 | the stamp sets the status to the code of a failed transmission, which is not that of success, sets the item cookie, and changes no other byte |
| Wire.OutBoundProcessing | hfs/src/server/hercules_outbound.c:28-112 | the reply on the wire is the encoded request buffer with its command toggled |
| Framing.FeedAppend | hfs/src/server/hercules_inbound.c:243-390 | feeding a stream in two pieces is feeding it at once: the machine does not depend on how it is cut |
| Framing.BodyStep | hfs/src/server/hercules_inbound.c:311-348 | the last byte of a body completes and decodes it, and either opens the payload or delivers the packet |
| Framing.PacketDelivered | hfs/src/server/hercules_inbound.c:243-390 | an encoded packet that fits its buffer is delivered exactly as it was before encoding, and the machine waits again with no byte pending |
| Framing.PacketOutcome | hfs/src/server/hercules_inbound.c:243-390 | one packet with a body, in either role: delivered in its buffer if it fits, an overrun of the buffer if it does not, and the connection dropped if there is no buffer for it |
| Framing.StreamOutcome | hfs/src/server/hercules_inbound.c:243-390 | a stream of such packets has the outcome of its packets one after the other, up to the first that is refused |
| Framing.RequestsDelivered | hfs/src/server/hercules_inbound.c:243-390 | a stream of requests is delivered once each, in order, each in its fresh zeroed buffer, if and only if each fits its buffer; otherwise the server writes outside one |
| Framing.RepliesDelivered | hfs/src/client/hercules_client_inbound.c:54-218 | a stream of replies, with notifications between them, is handed over in order of arrival and completes exactly the requests that the cookies name, once each, the others staying pending, if and only if each reply fits over a pending request that no earlier one has answered |
| Framing.EventsDelivered | hfs/src/client/hercules_client_inbound.c:54-218 | likewise with requests registered between the packets, also under a cookie that has been answered before: each reply goes to the request that is pending under its cookie when it arrives |
| Framing.OutOfStep | hfs/src/client/hercules_client_inbound.c:120-167 | after the header of a notification whose body does not come, the next four bytes are taken for the body and whatever is sent next is read from its fifth byte on |
| Framing.EmptyBodyRejected | hfs/src/server/hercules_inbound.c:304-309 | a command without a body is never delivered: the next byte drops the connection |
| Framing.FitsExactly | hfs/src/utils/hfs_proto_buff.c:85-145 | a packet fits the buffer of its command exactly when its payload is at most one stripe plus what the longer of the two bodies leaves |
| Framing.FreshOverrun | hfs/src/server/hercules_inbound.c:357-371 | a packet makes the receiver write outside a buffer it allocated if and only if its command has a payload and the announced size exceeds that room |
| Framing.ReplyOverrun | hfs/src/client/hercules_client_inbound.c:178-190 | likewise for a reply and the buffer of the request it answers |
| Framing.OversizedWrite | hfs/src/server/hercules_inbound.c:357-371 | concrete: with stripes of 1024 bytes a write request with 1024 bytes of payload is delivered, and one with 1025 overruns |
| Framing.StripeFitsBuffer | hfs/src/utils/hfs_proto_buff.c:26-31 | a packet whose payload is at most a stripe fits the buffer of its command |
| Framing.ReplyFitsRequest | hfs/src/utils/hfs_proto_buff.c:26-31 | a reply whose payload is at most a stripe fits the buffer that was allocated for its request |
| Framing.Connection.PumpBytesToConnSM | hfs/src/server/hercules_inbound.c:243-390 | the loop over one received chunk does what the state machine says, byte for byte, and stops at the first fault |
| Framing.Connection.HeaderByte | hfs/src/client/hercules_client_inbound.c:76-118 | a byte of the header is stored at its place, and the last one completes it |
| Framing.Connection.TakeHeader | hfs/src/client/hercules_client_inbound.c:84-118 | a complete header is decoded, selects the buffer and the body size, or drops the connection |
| Framing.Connection.BodyByte | hfs/src/client/hercules_client_inbound.c:120-167 | body stage, with its out-of-sync and overrun branches |
| Framing.Connection.ExtentByte | hfs/src/client/hercules_client_inbound.c:169-209 | payload stage, likewise |
| Framing.ReceiveRequests | hfs/src/server/hercules_inbound.c:243-390 | requests sent back to back and received in arbitrary chunks are handed over, all of them and in order, if and only if each fits its buffer; the only other end is an overrun |
| Framing.ReceiveReplies | hfs/src/client/hercules_client_inbound.c:54-218 | the same for replies and notifications at the client, with the pending requests that remain, if and only if every reply is expected |
| Framing.ReceiveEvents | hfs/src/client/hercules_client_inbound.c:54-218 | the same with the registrations of the workers in between |
| Remote.RemoteCall | hfs/src/server/hercules_ds_cmds.c:31-134 | a request built by the client, sent, received, run and answered: the server hands over a buffer that holds exactly this request, and the client ends with a buffer that reports exactly the reply of the server's files, under the request it belongs to, which alone is no longer pending |
| Remote.RequestRead | hfs/src/server/hercules_ds_cmds.c:85-120 | the server finds in its buffer the handle, stripe, offset, size and bytes that the client put into the packet |
| Remote.RequestAccepted | hfs/src/client/hercules_client_lib.c:472-587 | the packet of every request that moves at most one stripe is complete and fits the buffer the server allocates for it |
| Remote.WritesFit | hfs/src/client/hercules_client_lib.c:344-398 | every write request that hfs_write builds is such a request, for every offset, size and stripe size |
| Remote.ReadsFit | hfs/src/client/hercules_client_lib.c:275-280 | so is every read request of one stripe |
| Remote.WriteOverrun | hfs/src/server/hercules_inbound.c:357-371 | a write request with a well-formed header overruns the buffer of the server if and only if it carries more than one stripe |
| Remote.Serve | hfs/src/server/hercules_ds_cmds.c:31-134 | processing in place: the files change as the request says, and the results and the status are written over the request |
| Remote.ServedReports | hfs/src/server/hercules_ds_cmds.c:85-134 | the buffer then reports the reply of the server, whose status word is 0 exactly for a success, with command and cookie as they were |
| Remote.ReplySent | hfs/src/server/hercules_outbound.c:44-62 | what is sent back is a complete packet that reports the reply, of exactly the length that the sender computes |
| Remote.ReplyReturns | hfs/src/client/hercules_client_inbound.c:54-218 | the pump of the client stores the reply over its request, hands it over and takes it off the pending list; the status word it then reads is 0 exactly for a success |
| Remote.ReadArea | hfs/src/client/hercules_client_lib.c:344-400 | after the reply to a read the extent area of the buffer is the stripe, a short one completed with zeros |
| Remote.SentArea | hfs/src/utils/hfs_proto_buff.c:174-196 | the extent area of a read request is all zeros when its reply comes, also after encoding and sending |
| Remote.StampedItem | hfs/src/client/hercules_client_outbound.c:75-97 | the stamped queue item starts with the packet of the stamped header, and the sender computes its length |
| Remote.RetriedItem | hfs/src/client/hercules_client_lib.c:1570-1574 | the packet put back by a failed send, with two words rewritten through the overlay of a read request, is byte for byte the packet of the same query for the backup, also for GET_LENGTH |
| Remote.DegradedDSRequest | hfs/src/client/hercules_client_lib.c:1548-1589 | the rewriting in place: the cookie in the header names the failed copy, and the item becomes that packet for the extent stripe_cnt further on |
| Remote.RetriedCall | hfs/src/client/hercules_client_lib.c:1548-1589 | the retry is then a call like the first: the packet sent is that of the redirected query, the backup runs it, the client finds its answer, and the extent area of a read is all zeros until the answer comes |
| Remote.SentOverTheWire | hfs/src/server/hercules_ds_cmds.c:31-134 | what the client-side results call a send to a live server is what the packets do: the server runs the request in its buffer on its files, and the client reads that answer out of its own buffer |
| Remote.StatusRoundTrip | hfs/src/common/inc/hercules_errors.h:46-60 | the status words of the replies are told apart |
| Remote.StatusWord | hfs/src/common/inc/hercules_errors.h:46-60 | the status word of a reply is 0 if and only if the request succeeded, and each failure has the code of the error table |
| Remote.RequestFields | hfs/src/common/inc/proto_common.h:163-239 | the command, the length and each field of a data server request at its place in the packet |
| Remote.ReplyFields | hfs/src/common/inc/proto_common.h:163-239 | each result at its place in the reply: the bytes read and their number, the length of an extent, a new handle |
| ConfigPages.PageSent | hfs/src/server/hercules_mds_cmds.c:336-348 | a page of the server table is a complete packet that fits the buffer of its request; on the wire the two words of each row are in network order, and the client reads back the rows it was sent |
| ConfigPages.RowRead | hfs/src/common/inc/proto_common.h:430-440 | the fields of a row are read back from its bytes |
| Messages.HeaderFields | hfs/src/common/inc/proto_common.h:448-456 | command, payload size, status and cookies at their places in the header |
| Messages.RequestRead | hfs/src/server/hercules_inbound.c:243-390 | the packet of any request, built from its fields, is delivered by the pump of the server in a buffer from which exactly these fields are read: the inode, name or offset that the client put in |
| Messages.ReplyRead | hfs/src/client/hercules_client_inbound.c:54-218 | likewise for the reply to any of them at the client, over its pending request: the inode of a lookup, an attribute request or a create, a page of rows |
| Messages.NotificationRead | hfs/src/client/hercules_client_inbound.c:93-103 | likewise for the notification of a changed configuration, which needs no pending request |
| Messages.PacketFields | hfs/src/common/inc/proto_common.h:275-400 | the length of each packet of the namespace and of the server table, and every field of it at its offset |
| Messages.SizeOfFields | hfs/src/utils/hfs_proto_buff.c:45-82 | the body size of every such command is that of its fields laid end to end, and the payload commands are those with rows |
| Messages.OtherCommands | hfs/src/utils/hfs_proto_buff.c:45-82 | of all other command words, exactly the vector and statistics commands have an empty body, and exactly the words without a command are refused |
| ListRing.NextPrevInverse | hfs/src/common/inc/list.h:27-38 | next and prev are inverse all round a ring |
| ListRing.RingUnique | hfs/src/common/inc/list.h:27-38 | the anchor determines the ring, so a list is one sequence |
| ListRing.Rotate | hfs/src/common/inc/list.h:27-38 | a ring may be entered at any of its nodes |
| ListRing.InsertBetween | hfs/src/common/inc/list.h:46-54 | the node is linked in between two neighbours; nothing else is written |
| ListRing.ListAdd | hfs/src/common/inc/list.h:64-67 | the node becomes the first |
| ListRing.ListAddTail | hfs/src/common/inc/list.h:77-80 | the node becomes the last |
| ListRing.Unlink | hfs/src/common/inc/list.h:90-94 | the neighbours of the node point to each other |
| ListRing.ListDelInit | hfs/src/common/inc/list.h:114-118 | exactly that node leaves, and becomes a ring of its own |
| ListRing.ListMove | hfs/src/common/inc/list.h:125-129 | from one ring to the front of another, both keeping their other nodes |
| ListRing.ListMoveTail | hfs/src/common/inc/list.h:136-141 | from one ring to the end of another |
| ListRing.Requeue | hfs/src/common/inc/list.h:136-141 | inside one ring: the node goes to the end, the others keep their order |
| ListRing.MoveToFront | hfs/src/common/inc/list.h:125-129 | inside one ring: the node goes to the front, the others keep their order |
| ListRing.ForEach | hfs/src/common/inc/list.h:235-236 | the walk visits every node behind the anchor once, in order, and ends at the anchor |
| ListRing.ListEmpty | hfs/src/common/inc/list.h:147-150 | true exactly for the anchor alone |
| ListRing.Splice | hfs/src/common/inc/list.h:170-182 | the two sequences are concatenated; the spliced anchor is left as it was |
| ListRing.ListSpliceInit | hfs/src/common/inc/list.h:202-209 | concatenation, and an empty list in place of the spliced one, also when it was empty |
| WorkQueue.QueueProcessor.constructor | hfs/src/utils/utils_common.c:228-249 | a queue starts with an empty ring, a semaphore at zero and no state |
| WorkQueue.QueueProcessor.QueueItem | hfs/src/utils/utils_common.c:307-361 | every status with its condition; the item is appended and counted exactly on success, and on a failed post it is off the list again |
| WorkQueue.QueueProcessor.TakeFirst | hfs/src/utils/utils_common.c:164-181 | the head is taken and becomes a ring of its own, the others keep their order |
| WorkQueue.StepKeeps | hfs/src/utils/utils_common.c:151-197 | every step of every worker and caller keeps the queue invariant |
| WorkQueue.LengthIsSem | hfs/src/utils/utils_common.c:151-197 | in every reachable state with the lock free, the list is as long as the semaphore plus the workers past the wait |
| WorkQueue.NeverEmpty | hfs/src/utils/utils_common.c:164-176 | no worker ever finds the list empty, in any state of the queue |
| WorkQueue.Fifo | hfs/src/utils/utils_common.c:307-361 | what has been taken is a prefix of what was accepted; with the lock free the rest is on the list, in order, each item once |
| WorkQueue.TakesAll | hfs/src/utils/utils_common.c:151-194 | from every reachable state of a queue that is not stopped and has a worker left, some run without new offers and state changes ends with an empty list, every accepted item taken, and each processed once; whatever the threads do instead, such a run is finite, bounded by a measure, and can only come to rest with the same |
| WorkQueue.ProcessedOnce | hfs/src/utils/utils_common.c:151-194 | in every run the items that workers have taken are those that have been processed, each once, and those that a worker has in hand |
| WorkQueue.RoundInFull | hfs/src/utils/utils_common.c:151-194 | one round of a worker while the lock is free takes the first item, processes exactly that, and leaves the rest as it was |
| WorkQueue.OfferInFull | hfs/src/utils/utils_common.c:307-361 | one call while the lock is free appends and counts its item, or, if the post fails, leaves the queue exactly as it was |
| WorkQueue.RankFalls | hfs/src/utils/utils_common.c:151-194 | every step that is neither a new offer nor a change of state lowers that measure |
| WorkQueue.NoneLost | hfs/src/utils/utils_common.c:151-194 | while nobody stops the queue no worker ends |
| WorkQueue.EndsExactly | hfs/src/utils/utils_common.c:151-151 | a worker ends exactly by looking at a queue that is stopped |
| WorkQueue.TakesNoMore | hfs/src/utils/utils_common.c:151-151 | a worker that is back at the loop head of a stopped queue takes nothing more |
| WorkQueue.ToldTheTruth | hfs/src/utils/utils_common.c:307-361 | a caller is told success exactly in the step that accepts its item |
| WorkQueue.DrainedExactly | hfs/src/utils/utils_common.c:252-283 | when draining reads zero from the semaphore, whoever holds the lock, the list is empty if and only if no worker is between its wait and its dequeue and no caller between its append and its post |
| WorkQueue.DrainedWithItem | hfs/src/utils/utils_common.c:252-283 | a concrete run to an item listed with a worker past its wait |
| WorkQueue.DrainedWhilePosting | hfs/src/utils/utils_common.c:252-283 | a concrete run to an item listed with every worker at rest and its caller about to post |
| WorkQueue.ClosedToCallers | hfs/src/utils/utils_common.c:326-341 | a queue that is not started, and that no caller is entering, accepts nothing more |
| WorkQueue.AcceptsExactly | hfs/src/utils/utils_common.c:326-341 | from a reachable state in which the queue is not started, some run that does not change the state accepts an item if and only if some caller has passed the checks and not yet posted |
| WorkQueue.WakesExactly | hfs/src/utils/utils_common.c:151-176 | a worker that waits in a queue that is not started can come out of its wait if and only if the semaphore is posted or some caller is about to: stopping wakes nobody |
| WorkQueue.AcceptedAfterDrain | hfs/src/utils/utils_common.c:326-341 | a concrete run in which an item is accepted after the queue was paused and found drained, because the state is read before the lock is taken |
| Lifecycle.StepKeeps | hfs/src/client/hercules_client_outbound.c:112-155 | every step of workers, reader and updater keeps the invariant |
| Lifecycle.AlwaysInv | hfs/src/client/hercules_client_outbound.c:112-155 | so it holds after every interleaving |
| Lifecycle.SwapIsSafe | hfs/src/client/hercules_client.c:684-695 | when the connections are replaced, all sixteen tokens are held, no worker is in its critical section, every counter is zero, no request or reply is on the wire, the reader holds no reply that it has yet to store, and the pending lists are empty but for an item that the reader is just unlinking |
| Lifecycle.SwapDuringRemoval | hfs/src/client/hercules_client.c:583-606 | that exception is real: a run in which the swap happens while an item is still on a list, since the scan reads the counters without their mutexes |
| Lifecycle.CountsOnlyFall | hfs/src/client/hercules_client.c:550-606 | while the updater holds all tokens no counter rises, whatever the others do |
| Lifecycle.FrozenCountsFall | hfs/src/client/hercules_client.c:550-606 | over any run in which the updater keeps the tokens, no counter of any connection rises |
| Lifecycle.TokensConserved | hfs/src/client/hercules_client.c:550-606 | in every reachable state the free tokens, the workers inside and the tokens the updater holds are sixteen |
| Lifecycle.ScanIsSound | hfs/src/client/hercules_client.c:583-606 | every counter that a pass of the scan has seen at zero is zero in every later state of the same freeze, whatever the others do, with no token free and no worker inside throughout |
| Lifecycle.GivesUpAfterFour | hfs/src/client/hercules_client.c:580-606 | in every run, an update that has given up has made exactly four failed passes over the counters since it took its last token, each of which looked at a counter that was not zero, and each of which began with the first server again |
| Lifecycle.NextOfScan | hfs/src/client/hercules_client.c:580-606 | while it scans, what it may do next follows from what it has read since its last token: give up after four failed passes, replace the connections when the last pass has read every counter at zero, look at the next counter otherwise |
| Lifecycle.StillSwaps | hfs/src/client/hercules_client.c:580-695 | an update with at most three failed passes behind it still replaces the connections, by looking at each counter at most once more, if steps of the reader bring all counters to zero |
| Lifecycle.SignalledOnce | hfs/src/client/hercules_client_inbound.c:152-163 | a request is signalled at most once, on the very connection, of the very generation, over which it was sent, which is one to its own server, and only if it was dispatched |
| Lifecycle.SignalledStays | hfs/src/client/hercules_client_inbound.c:152-163 | no later step signals a completed request again |
| Lifecycle.AllDispatched | hfs/src/client/hercules_client_outbound.c:112-133 | in every run the queue holds the last of the dispatched requests, in order, so they are taken in the order in which they were dispatched, and each is sent to the server that it names |
| Lifecycle.NothingLost | hfs/src/client/hercules_client_outbound.c:31-60 | when all threads are idle, exactly the requests that the run dispatched have been signalled, each once, all lists are empty and all counters zero |
| Lifecycle.EachIsServed | hfs/src/client/hercules_client_outbound.c:63-155 | from every reachable state a request can be dispatched to any server, and the run can be finished without other new work so that it has been signalled, once, if no connection was given bytes of another |
| Lifecycle.OnlyStrayedLost | hfs/src/client/hercules_client_outbound.c:31-60 | in a state at rest every request that the run dispatched has been signalled exactly once, except those sent over an installed connection that was given bytes of another |
| Lifecycle.PendingIsLength | hfs/src/client/hercules_client_outbound.c:113-116 | with the mutex free PendingCommands is the length of the pending list, it is never negative, and an item is once on one list at most, the outbound queue included |
| Lifecycle.WireIsPending | hfs/src/client/hercules_client_inbound.c:105-109 | a request under way is on the pending list of its connection, which belongs to the installed generation and is not closed |
| Lifecycle.OneGeneration | hfs/src/client/hercules_client_outbound.c:112-155 | a worker in its critical section sees one generation of connections throughout, and shares its mutex with nobody |
| Lifecycle.PumpFindsConnection | hfs/src/client/hercules_client_inbound.c:63-63 | for a reply: the connection that the reader looks up by index is the one it received the bytes from, and that stream is in step |
| Lifecycle.StraysExactly | hfs/src/client/hercules_client_inbound.c:223-265 | for a part of a notification, in any reachable state in which the reader holds one: some run without a step of the reader makes the lookup find another connection if and only if the connections have been replaced since, or nothing is on the wire and an update is due or on its way to the swap |
| Lifecycle.NotificationStrays | hfs/src/client/hercules_client.c:684-695 | a concrete run: a second notification, received while the update of the first runs, is stored after the swap in a connection of the new generation |
| Lifecycle.NoneAhead | hfs/src/client/hercules_client.c:583-606 | without a step of the reader no step brings a replacement of the connections into reach |
| Lifecycle.ToTheSwap | hfs/src/client/hercules_client.c:550-695 | from the other states the workers inside come out with failed sends, an update that cannot succeed ends, and the next one replaces the connections |
| Lifecycle.ClosesTheOther | hfs/src/client/hercules_client.c:709-728 | on every exit path that obtained connections, the generation that is closed is not the installed one and has not been closed before |
| Lifecycle.NoneLeaks | hfs/src/client/hercules_client.c:709-728 | whenever no update is under way every generation of connections ever made is closed, except the installed one, which is not |
| Lifecycle.OneUpdateEach | hfs/src/client/hercules_client.c:522-546 | each notification that arrives whole leads to one update, which makes one generation of connections, and nothing else does; at rest all of them have run |
| Lifecycle.NoDeadlock | hfs/src/client/hercules_client.c:550-606 | in every reachable state that is not at rest some thread can take a step that brings the end of all work nearer |
| Lifecycle.RankFalls | hfs/src/client/hercules_client_outbound.c:31-155 | every step except a new dispatch and the head of a new notification lowers a measure of the work left, updates that are due included |
| Lifecycle.RunsEnd | hfs/src/client/hercules_client_outbound.c:31-155 | so without new work a run is at most as long as the measure of the state it starts in |
| Lifecycle.WorkFinishes | hfs/src/client/hercules_client.c:550-728 | from every reachable state all work can be finished, updates that are due included, and a state in which only new work is possible has everything at rest |
| FsConfig.GetSrvrListing | hfs/src/db/hercules_db_lib.c:908-944 | rows are skipped up to the offset, then a page is filled; only an offset beyond the table is an error |
| FsConfig.PageFits | hfs/src/db/hercules_db_lib.c:916-918 | a page never outgrows the payload area of its reply |
| FsConfig.SwapBytesTwice | hfs/src/utils/utils_config.c:546-548 | the two words of an entry survive the two conversions |
| FsConfig.BigEndian | hfs/src/utils/utils_config.c:546-548 | a converted word has its most significant byte first in memory |
| FsConfig.FsContext.Collect | hfs/src/utils/utils_config.c:550-557 | an entry goes to the array of its role, in order; another role is refused |
| FsConfig.ReadFSConfigFromServer | hfs/src/utils/utils_config.c:478-573 | for every table that fits the arrays and every page of at least one row, the loop ends after rows / page + 1 requests and succeeds exactly if all roles are known, having collected every row of each role in order; a smaller page collects nothing |
| FsConfig.CollectedOnce | hfs/src/utils/utils_config.c:545-558 | the two arrays together hold each row once |
| FsConfig.FsContext.GetMDSFromServIdx | hfs/src/utils/utils_config.c:133-162 | a fetched record for every index that is one, an unset record for the index just past the last (or a pointer outside the array when it is full), the null pointer beyond, a pointer outside for a negative index |
| FsConfig.FsContext.GetDSFromServIdx | hfs/src/utils/utils_config.c:164-193 | likewise for the data servers |
| Namespace.StrTok | hfs/src/client/hercules_client_lib.c:1505-1506 | the next name and the rest, so that the names come out one by one |
| Namespace.NullAtEndExact | hfs/src/client/hercules_client_lib.c:1505-1517 | the resolver asks for one name too many exactly if there is no name or the path ends in two slashes |
| Namespace.MdsCluster.Namei | hfs/src/client/hercules_client_lib.c:1479-1524 | for every string at all: the walk over the names between its slashes, each on the server of its directory |
| Namespace.MdsCluster.AllocMetaDataHandle | hfs/src/db/hercules_db_lib.c:690-753 | the handle is one more than the greatest of the inode table, and only its inode is added |
| Namespace.MdsCluster.Create | hfs/src/client/hercules_client_lib.c:1065-1159 | every status with its exact condition, a backslash in the name and the failure of each metadata request included, and a directory needs no data handles; a create adds the inode on the chosen server and the row on the server of the parent, and nothing else to any table; a created path then resolves to its new inode, which no other path leads to, a path that was not created does not resolve, every other path resolves as before, and what a failed create leaves is at most one inode that no path leads to |
| Namespace.CreatedExactly | hfs/src/client/hercules_client_lib.c:1084-1111 | of the paths whose parent exists exactly those are created whose own name has no backslash |
| Namespace.BackslashRefused | hfs/src/client/hercules_client_lib.c:1084-1111 | a concrete path, a name with a backslash in the root directory, that is refused |
| Namespace.SplitAtLast | hfs/src/client/hercules_client_lib.c:1084-1111 | what hfs_create takes for the directory resolves to the parent if the last separator is a slash and the parent exists, and to nothing otherwise |
| Namespace.MdsCluster.constructor | hfs/src/db/hercules_db_lib.c:234-271 | a formatted cluster stands for the root alone |
| Namespace.CreateRefines | hfs/src/client/hercules_client_lib.c:1144-1155 | the databases stand for a map from paths to inodes, and a create adds one entry to it, whatever servers it involves |
| Namespace.Unnamed | hfs/src/client/hercules_client_lib.c:1122-1155 | an inode whose row was not added changes nothing that resolves |
| Namespace.PathUnique | hfs/src/db/hercules_db_lib.c:442-483 | no two paths lead to one inode |
| Namespace.WalkAfter | hfs/src/db/hercules_db_lib.c:761-779 | of what did not resolve before only the path with the new name does afterwards |
| Namespace.TreeAfter | hfs/src/db/hercules_db_lib.c:761-779 | the rows stay a tree: they lead from inodes to inodes and no inode gets a second name |
| Namespace.SplitPath | hfs/src/client/hercules_client_lib.c:1084-1097 | at a slash the scan for the last separator splits a path into its parent and its name |

## Left out

- Requests of negative size, which are handed back at once (hercules_client_lib.c:238-240); sizes in the model are natural numbers.
- Sockets, poll, FUSE glue, MySQL, logging, signals, login and DES: foreign calls; their outcomes are inputs of the model.
- Connection-slot accounting on the server (`used`, `PendingCommands`): notifications are queued without the increment that their send undoes, so no count is kept there.
- Retry after a server has replied with an error: the reply has by then overwritten the request header; failures in the model are failed sends.
- What the reader makes of a reply that arrives on a connection out of step, beyond its first four bytes: the header it then reads is arbitrary, and so are the command and the address in it. `Lifecycle` reads nothing from such a connection.
- Requests in flight on a connection that drops, servers that come back, two servers down: the code has no answer to them, and nothing waits for a reply that never comes.
- What a server does with FREE_HANDLE, PING, READ_STRIPE_V, WRITE_STRIPE_V, disk usage and statistics requests on the data server; the vector and statistics commands have no body and are never delivered.
- The size of a directory, attributes other than the size, time stamps and mode conversion.
- How the metadata server fills a page of a directory; `Messages` has its rows as bytes.
- A data-server request whose read asks for more than one stripe, which no caller sends: `Remote` is about requests of at most one, apart from `WriteOverrun`.
- Rename, unlink, truncate and the other stubs; reading a directory, whose cursor is that of the server table.
- A metadata request of a create that was executed although its reply was lost; a request that fails is one that was not executed.
- Failed memory allocation, failed mutex and semaphore calls other than the failed post of a queue.
- A queue that is not started under the client's data path: there every item is accepted.
- An update that cannot connect to all new servers, whose connections to some of them are never closed (hercules_client.c:267-385, 661-666), and the early return with the update mutex held (hercules_client.c:636-640).
- The table of free metadata handles, which nothing fills, and handles from 2^31 - 1 on.
- Case folding of names by the database, names of 255 bytes or more, and names with quotes.
- Lifecycle.NoDeadlock: the step it gives is one that the thread can take; that threads are scheduled and that a server answers what it was sent are not shown.
- StripedClient.Client.Write: the caller is told the full size even when copies could not be stored, as in the code; what was stored is stated for live servers.
- Namespace.MdsCluster.Create: paths have no doubled slash, no trailing slash, no dot components, and the lookup of the path has failed before, as its comment demands (hercules_client_lib.c:1065); concurrent creates of one name are not excluded by the databases.
