# libusb-win32, modelled and proved in Dafny

This project models the parts of libusb-win32 that carry state, concurrency or parsing: the kernel driver's transfer
engine, its two lock protocols, its descriptor cache and interface ownership, and the user library's configuration
parser, device list and registry lists. `dafny verify dfyconfig.toml` checks everything.

## What is modelled

| file | subject |
|---|---|
| `SplitTransfer.dfy` | one bulk or interrupt transfer cut into chunks, against one unsplit request |
| `TransferProtocol.dfy` | any number of transfers and completions interleaved on any endpoints: the busy flag, the sequence cell, the clean-up |
| `SplitRuns.dfy`, `SplitWrites.dfy` | when the driver's interleaved transfers are the split transfer, reading and writing |
| `PipeTable.dfy` | the endpoint table and the default chunk size |
| `RemoveLock.dfy` | the remove lock: counter, pending flag, event, any number of threads |
| `IrpLock.dfy` | the lock word between a timed-out caller and the completion routine |
| `ConfigParser.dfy`, `ConfigSerializer.dfy`, `ConfigAnyBytes.dfy` | the configuration parser, its inverse, and the parser on arbitrary bytes |
| `InterfaceLookup.dfy`, `SerializedInterfaces.dfy` | the two interface descriptor walkers, and their agreement with the parser |
| `DeviceModel.dfy`, `DescriptorCache.dfy` | a device behind the bus, and the driver's reads of its descriptors |
| `InterfaceSelection.dfy`, `ConfigurationSetting.dfy` | the interfaces that a configuration selects, and setting one on any bus |
| `InterfaceOwnership.dfy`, `ClaimRace.dfy` | reset, alternate settings, claims and releases; claims that overlap |
| `DriverState.dfy`, `DriverRuns.dfy` | the driver's code for these calls, in place, and whole runs of calls |
| `DeviceList.dfy` | the doubly linked device list, its reconciliation and the array of children |
| `MultiString.dfy`, `JoinedString.dfy`, `ClassFilters.dfy` | double-NUL string lists in place, their text form, and filter installation over class keys |
| `TransferRing.dfy` | the ring of asynchronous transfers in the benchmark program |
| `Bytes.dfy`, `Arithmetic.dfy` | bytes, little-endian words, multiples |

Concurrent code is a state machine with one step per interlocked operation, event operation or hand-over to the bus;
the results hold in every state of every run. Only `DriverRuns` takes a whole call as one step; `ClaimRace` shows what
that leaves out. Code that updates structures in place is a class or a method on an array,
proved against a function of the old state; the lemmas are about that function. Bytes are read through a total source
(`Bytes.At`), because the parser peeks at headers before some of its size checks.

## What the proofs say beyond the code's own comments

* Splitting a transfer means what one request means, for every answer of the endpoint, exactly when the transfer fits
  one chunk or the chunk size is a multiple of the packet size. Chunk sizes computed by the driver always are; a chunk
  size asked for in a request need not be, and then some packet straddles the end of a chunk.
* That is so if every completion that would send the next chunk does. In the driver a transfer also stops early, as a
  success, even when it has the endpoint to itself: if its completion runs before its own submitter has cleared the busy
  flag (`LoneTransferStopsEarly`). It comes to the split transfer exactly if no completion stops (`SplitExactly`), which
  for a request with all others on the endpoint over is exactly if none overtakes its submitter and none lacks memory
  (`UndisturbedSplit`, and `UndisturbedWrite` for outgoing packets).
* The comments in `transfer_complete` speak of a *newer* pending sequence; the code tests for a *different* one. The
  model follows the code.
* A transfer that finds its endpoint busy is completed with a success status and no bytes, and no other rejected one is
  (`ReportedExactly`).
* A request is completed with the NTSTATUS of its last chunk: a request block that failed alone is reported as a success
  (`ReportedExactly`), and so is stopping early for want of memory (`StoppingIsReportedAsSuccess`).
* The last write of `transfer_complete` can follow the freeing of the context whose address it uses (`TailAfterFree`); no
  other step can (`OnlyTheTailFollows`).
* The remove lock is safe if clients release only what they acquired. Without that its counter falls short by the
  releases that follow a refused acquire (`CounterFallsShort`), as at `libusb/src/driver/ioctl.c:112-117`, and such a
  release makes it possible to remove the device under a holder (`DisciplineIsNeeded`), exactly if somebody holds the
  lock at that moment (`RefusedReleaseIsExact`).
* A call to the bus that times out gives STATUS_TIMEOUT, which NT_SUCCESS accepts. A read then reports success with no
  bytes (`ReadIsExact`); `set_configuration` can take an unfilled buffer for a descriptor, cache it and serve later reads
  from it (`TimeoutSpoilsCache`), on some bus exactly when the call is not `Trusted` (`SetConfigurationIsExact`); and
  deconfiguring a configured device can report success without having done it (`DeconfiguringIsExact`).
* An interface number from 2 to the 31st up becomes negative and passes the test against 32, so that a claim or release
  on a configured device addresses memory outside the interface table (`SafetyIsExact`).
* `claim_interface` tests and writes in separate steps without a lock: two overlapping claims can both succeed
  (`BothSucceed`), exactly if one's test falls between the other's test and write (`ClaimsExcludeExactly`).
* `set_configuration` never searches past interface number 31, but once it has found that number it keeps selecting it
  for every interface still missing, because the last descriptor found is not forgotten (`SelectInterfaces`).
* A configuration that is cut off behind its header is accepted, with empty interfaces (`HeaderAlone`).
* The FIXME branch of the configuration parser, which would drop bytes, is never reached (`NothingIsDropped`).
* `get_pipe_info` asked for address 0 finds a blank slot of a valid interface and not an endpoint (`PipeTable.Table.Find`).
* A device that answers but cannot be opened, or whose configuration cannot be parsed, joins no list; it is taken off
  the temporary list without being freed.

## Model

| member | source | states |
|---|---|---|
| `SplitTransfer.RunUrbSplits` | libusb/src/driver/transfer.c:237-257 | a request of n + m bytes, n a multiple of the packet size, is one of n bytes followed by one of m bytes if and only if the first was filled |
| `SplitTransfer.UrbEnds` | libusb/src/driver/transfer.c:200-257 | the reference request, packet by packet: after full packets that leave room it waits, fails by a bus error or an overrun with no bytes, or succeeds with a short packet or the one that fills it, with all bytes in order |
| `SplitTransfer.SplitAgrees` | libusb/src/driver/transfer.c:237-311 | with chunks of whole packets (or one chunk), and completions that all go on, status, bytes and packets consumed are those of the single request, for every stream of packets, zero-length packets, faults and silence |
| `SplitTransfer.SplitDiffers` | libusb/src/driver/transfer.c:252-260 | with any other chunk size and more than one chunk, some endpoint makes the two differ |
| `SplitTransfer.UnevenChunkEnds` | libusb/src/driver/transfer.c:252-260 | a transfer whose chunks are not whole packets is its first chunk, for every stream |
| `SplitTransfer.UnevenWriteEnds` | libusb/src/driver/transfer.c:252-260 | the same for the packets of an outgoing one |
| `SplitTransfer.FullChunkContinues` | libusb/src/driver/transfer.c:252-260 | one whose chunks are whole packets goes on exactly after a first chunk that was filled and is not all |
| `SplitTransfer.SplitPreservesMeaning` | libusb/src/driver/transfer.c:237-311 | the exact condition on the sizes: the split transfer whose completions all go on agrees with the single request for all endpoints if and only if it fits one chunk or the chunk size is a multiple of the packet size |
| `SplitTransfer.WritePreservesPackets` | libusb/src/driver/transfer.c:237-311 | an outgoing split transfer whose completions all go on puts the packets of the single request on the wire under exactly that condition |
| `SplitTransfer.WholeExactly` | libusb/src/driver/transfer.c:262-300 | a transfer that only so many completions may continue is the whole split transfer if and only if they are as many as it needs |
| `SplitTransfer.Context.constructor` | libusb/src/driver/transfer.c:148-162 | a new context has counted nothing, has everything left, and its first chunk is in bounds |
| `SplitTransfer.Context.Complete` | libusb/src/driver/transfer.c:237-302 | a completion counts what arrived, keeps counted plus left equal to the request, goes on exactly after a full chunk of whole packets with bytes left if it is free to (flag, sequence, memory), and then places the next chunk where the last ended |
| `SplitTransfer.Context.Chunk` | libusb/src/driver/transfer.c:192-331 | one chunk writes exactly the bytes received, behind those already there |
| `SplitTransfer.Context.Read` | libusb/src/driver/transfer.c:92-331 | the imperative transfer, chunk by chunk in the caller's buffer, for any number of completions that are free to go on: the bytes in order, the count, the status, the packets consumed, the rest of the buffer untouched |
| `PipeTable.TransferSizeIs` | libusb/src/driver/libusb_driver.c:746-811 | the default chunk size is the greatest multiple of the packet size within the limit of its pipe type and speed, and is positive for bulk and interrupt pipes |
| `PipeTable.TransferSizesAre` | libusb/src/driver/libusb_driver.c:746-805 | for every pipe type and speed: the greatest number of whole packets within 32 MB, 4 MB, 256 KB, 64 KB or 4 KB, or exactly 1024 or 256 packets |
| `PipeTable.RequestedChunks` | libusb/src/driver/libusb_driver.h:100-100 | a chunk size that a request asks for is taken, and preserves meaning for all endpoints if and only if no transfer is longer or it is whole packets |
| `PipeTable.DefaultChunksAreSafe` | libusb/src/driver/libusb_driver.c:800-811 | with the default chunk size every bulk or interrupt transfer whose completions all go on, of any length, agrees with the single request |
| `PipeTable.Table.Update` | libusb/src/driver/libusb_driver.c:701-815 | the slots of the interface have the address, handle, packet size, interval, type and flags of its first 32 pipes in order, the others no address or handle; other interfaces keep their slots; numbers from 32 on change nothing |
| `PipeTable.Table.Find` | libusb/src/driver/libusb_driver.c:669-694 | the first slot with the address over the valid interfaces, or none if there is none; it is a real pipe exactly when the address is not 0 |
| `PipeTable.PipeIsFound` | libusb/src/driver/libusb_driver.c:669-694 | after an update the address of a pipe leads to the handle of the first pipe with that address, unless a lower valid interface has it |
| `TransferProtocol.MoveCell` | libusb/src/driver/transfer.c:128-139 | one step of one request changes the busy flag exactly when the request starts or stops holding it; only the holder writes the sequence cell, before its first chunk; only a holder whose number is pending submits |
| `TransferProtocol.MoveAccounts` | libusb/src/driver/transfer.c:237-302 | every step keeps counted plus left equal to the request and the next chunk at a multiple of the chunk size |
| `TransferProtocol.OnlyWholePacketsContinue` | libusb/src/driver/transfer.c:252-260 | in every run only bulk or interrupt requests with chunks of whole packets send more than one |
| `TransferProtocol.StepInv` | libusb/src/driver/transfer.c:92-331 | every step of any request keeps the invariant of the whole driver |
| `TransferProtocol.NoInterleaving` | libusb/src/driver/transfer.c:128-172 | in every state of every run the submissions on one endpoint form one contiguous block per request, and an endpoint's flag is set exactly while one request holds it |
| `TransferProtocol.OvertakenForGood` | libusb/src/driver/transfer.c:262-276 | once another request has submitted on the endpoint, the earlier one never submits there again |
| `TransferProtocol.CleanedUpOnce` | libusb/src/driver/transfer.c:175-190 | at any moment a request has done an initial part of one clean-up (context freed if it existed, lock released, request completed with its status and bytes), all of it when nothing is left to do, and otherwise can always take a step |
| `TransferProtocol.FreedExactly` | libusb/src/driver/transfer.c:141-187 | a request that is over has freed a context if and only if it had allocated one |
| `TransferProtocol.StatusIsLast` | libusb/src/driver/transfer.c:209-331 | a request that went to the bus is completed with the NTSTATUS of its last chunk; one that did not fails if it had a context |
| `TransferProtocol.ReportedExactly` | libusb/src/driver/transfer.c:128-331 | a rejected request is completed as a success if and only if it found its endpoint busy; any other if and only if the NTSTATUS of its last chunk was one, so a failed request block is reported as a success exactly if the NTSTATUS did not fail with it |
| `TransferProtocol.OnlyTheTailFollows` | libusb/src/driver/transfer.c:302-326 | in every state of every run, once the context is freed the only step left that uses it is the write that clears the flag behind a chunk |
| `TransferProtocol.TailAfterFree` | libusb/src/driver/transfer.c:302-311 | a run in which that write follows the freeing |
| `TransferProtocol.Conservation` | libusb/src/driver/transfer.c:237-302 | counted plus left is the request; the submissions of a request are its consecutive chunks, disjoint, in bounds, and no more than its length needs |
| `TransferProtocol.FlagsAreGivenBack` | libusb/src/driver/transfer.c:304-319 | when every request on an endpoint is over, its busy flag is clear |
| `TransferProtocol.EndsInTime` | libusb/src/driver/transfer.c:92-331 | a request is over after a number of its own steps fixed by its length, however the others interleave |
| `SplitRuns.SplitExactly` | libusb/src/driver/transfer.c:192-331 | in every run: a request whose last chunk is over has received what the split transfer delivers, packets consumed and status included, if and only if no completion found the flag taken, another sequence pending or no memory; otherwise it has received the first part of it |
| `SplitRuns.SingleExactly` | libusb/src/driver/transfer.c:192-331 | where splitting preserves meaning, it agrees with the single request under exactly that condition |
| `SplitRuns.DefaultExactly` | libusb/src/driver/libusb_driver.c:800-811 | which covers every bulk or interrupt transfer with the default chunk size |
| `SplitRuns.StoppingIsReportedAsSuccess` | libusb/src/driver/transfer.c:262-331 | a request that stopped early is completed as a success with fewer bytes than requested |
| `SplitRuns.FlagOfItsOwn` | libusb/src/driver/transfer.c:168-172 | with all other requests on the endpoint over, the flag that a completion finds set is its own request's: that of the call or completion that submitted the chunk and has not cleared it yet |
| `SplitRuns.PendingOfItsOwn` | libusb/src/driver/transfer.c:137-139 | and the pending sequence is the request's own |
| `SplitRuns.UndisturbedSplit` | libusb/src/driver/transfer.c:168-276 | so such a request is the split transfer, and where splitting preserves meaning the single request, if and only if no completion overtakes its submitter and none runs out of memory |
| `SplitRuns.LoneTransferStopsEarly` | libusb/src/driver/transfer.c:168-267 | a run in which a transfer alone in the driver is overtaken: of 128 bytes given it reports 64 as a success |
| `SplitWrites.WritesExactly` | libusb/src/driver/transfer.c:192-331 | in every run: the chunks of an outgoing request that are all taken in full are the packets of the split transfer, and of the single request where splitting preserves them, if and only if no completion stopped early |
| `SplitWrites.UndisturbedWrite` | libusb/src/driver/transfer.c:168-276 | with all other requests on the endpoint over, if and only if no completion overtakes its submitter and none runs out of memory |
| `RemoveLock.StepCounted` | libusb/src/driver/libusb_driver.c:826-848 | every step keeps the counter equal to the units its threads own |
| `RemoveLock.ZeroDrains` | libusb/src/driver/libusb_driver.c:842-848 | a counter at zero finds the device pending, both releases of the remover done and no holder |
| `RemoveLock.RemovalIsSafe` | libusb/src/driver/libusb_driver.c:851-858 | when the remover has returned, no thread holds the lock, in every run of disciplined threads |
| `RemoveLock.RemovalIsFinal` | libusb/src/driver/libusb_driver.c:826-858 | and none ever holds it again, however the run goes on, threads caught between increment and test included |
| `RemoveLock.NoLostWakeUp` | libusb/src/driver/libusb_driver.c:842-858 | while the remover waits on an event that is not set, another thread holds the lock or is in the middle of an acquire or release |
| `RemoveLock.RefusedExactly` | libusb/src/driver/libusb_driver.c:826-840 | in every run each acquire that finds the device pending is refused, once, and no other |
| `RemoveLock.CounterFallsShort` | libusb/src/driver/libusb_driver.c:826-858 | in every run, disciplined or not, the counter falls short of the units owned by the number of releases after a refused acquire |
| `RemoveLock.DisciplineIsNeeded` | libusb/src/driver/ioctl.c:110-117 | a run in which a refused client releases and the remover returns while another thread holds the lock |
| `RemoveLock.RefusedReleaseIsExact` | libusb/src/driver/ioctl.c:110-117 | in every disciplined run, when a refused client releases: the remover never passes a holder, however the run goes on, if and only if nobody holds the lock at that moment |
| `IrpLock.FinishedOnce` | libusb/src/driver/libusb_driver.c:533-578 | each request is finished at most once, exactly once when the call returns, by the caller exactly when the routine withheld it |
| `IrpLock.AnswerIsExact` | libusb/src/driver/libusb_driver.c:533-560 | a call answers that it timed out if and only if its wait did |
| `IrpLock.CancelsExactly` | libusb/src/driver/libusb_driver.c:539-550 | a request is cancelled at most once, and if and only if the caller exchanged the lock word before the completion routine |
| `IrpLock.CallerTouchesLiveRequest` | libusb/src/driver/libusb_driver.c:542-549 | IoCancelIrp and the caller's IoCompleteRequest never see a finished request |
| `IrpLock.RoutineTouchesLiveLock` | libusb/src/driver/libusb_driver.c:564-578 | the completion routine never touches the lock word after `call_usbd_ex` has returned |
| `IrpLock.NobodyIsForgotten` | libusb/src/driver/libusb_driver.c:539-550 | a waiting caller waits for a completion side that can still move, and a request nothing can move has returned |
| `IrpLock.TenSteps` | libusb/src/driver/libusb_driver.c:496-578 | a request takes at most ten steps, whatever happens to the others |
| `ConfigParser.SkipDescriptors` | libusb/src/descriptors.c:366-390 | the skip loops, with and without the size check, end where the specification function says |
| `ConfigParser.RunEndpoint` | libusb/src/descriptors.c:83-174 | the endpoint parser computes the specification function, errors included |
| `ConfigParser.RunEndpoints` | libusb/src/descriptors.c:289-307 | the loop over the endpoints of a setting does too |
| `ConfigParser.RunAlt` | libusb/src/descriptors.c:186-320 | one turn of the interface parser does too |
| `ConfigParser.RunInterface` | libusb/src/descriptors.c:176-321 | the interface parser, which groups alternate settings, does too |
| `ConfigParser.RunGap` | libusb/src/descriptors.c:357-423 | one turn of the configuration parser does too |
| `ConfigParser.RunInterfaces` | libusb/src/descriptors.c:357-425 | the loop over the interfaces does too |
| `ConfigParser.RunConfiguration` | libusb/src/descriptors.c:323-426 | the configuration parser computes the specification function on every input, so it ends on every input |
| `ConfigSerializer.EndpointParsed` | libusb/src/descriptors.c:83-174 | a serialized endpoint, of 7 or 9 bytes, with the descriptors behind it, is parsed back |
| `ConfigSerializer.AltParsed` | libusb/src/descriptors.c:186-320 | a serialized alternate setting with its endpoints is parsed back, every extra at its owner |
| `ConfigSerializer.GroupsParsed` | libusb/src/descriptors.c:357-425 | serialized interfaces with all their settings are parsed back |
| `ConfigSerializer.ParserUndoesSerializer` | libusb/src/descriptors.c:323-426 | parsing a serialized configuration, whatever follows it in the buffer, rebuilds exactly that configuration and leaves 0 bytes |
| `ConfigSerializer.ExampleIsParsed` | libusb/src/descriptors.c:83-426 | 29 bytes with an audio endpoint and an extra descriptor, and the tree that they are parsed as |
| `ConfigAnyBytes.SkipEndsAtStop` | libusb/src/descriptors.c:121-146 | where a skip loop ends, no skip loop would skip anything more |
| `ConfigAnyBytes.LaterGapsAreEmpty` | libusb/src/descriptors.c:357-415 | on every input, behind a parsed interface the configuration's loop skips nothing |
| `ConfigAnyBytes.NothingIsDropped` | libusb/src/descriptors.c:397-415 | so the bytes skipped before the first interface are the configuration's extra, and no others are ever skipped |
| `ConfigAnyBytes.EveryInterfaceParsed` | libusb/src/descriptors.c:357-425 | an accepted configuration has every interface that it announces |
| `ConfigAnyBytes.AcceptedConfiguration` | libusb/src/descriptors.c:323-426 | on any accepted input: as many interfaces as announced, at most 32, and as extra exactly what precedes the first |
| `ConfigAnyBytes.ExtraStaysInside` | libusb/src/descriptors.c:121-146 | on any accepted input every extra, of configuration, interfaces and endpoints, is a stretch of the buffer before the place where parsing ended, so inside wTotalLength if the bytes left are not negative |
| `ConfigAnyBytes.RestIsExact` | libusb/src/descriptors.c:121-146 | on any accepted input the number of bytes left is negative if and only if a descriptor that starts inside wTotalLength, or right behind it, ends beyond it where parsing ended |
| `ConfigAnyBytes.EndpointIsRead` | libusb/src/descriptors.c:83-118 | on any bytes the fields of an endpoint by its length: seven from 7 bytes on, nine from 9 on, none of a shorter one |
| `ConfigAnyBytes.SkipFailsExactly` | libusb/src/descriptors.c:366-390 | a skip loop fails exactly if the descriptors it passes lead to one of less than two bytes or, in the strict loop, one longer than what is left |
| `ConfigAnyBytes.EndpointFailsExactly` | libusb/src/descriptors.c:83-146 | an endpoint is refused exactly if it is longer than what is left or what follows it cannot be skipped |
| `ConfigAnyBytes.AltFailsExactly` | libusb/src/descriptors.c:186-307 | an alternate setting is refused exactly if what follows it cannot be skipped, or it goes on and has more than 32 endpoints or one that is refused |
| `ConfigAnyBytes.LimitsAreKept` | libusb/src/descriptors.c:268-350 | on any accepted input at most 32 interfaces, and every setting has the endpoints that it announces, at most 32, or none |
| `ConfigAnyBytes.HeaderAlone` | libusb/src/descriptors.c:176-186 | a configuration that ends behind its header is accepted, with as many empty interfaces as it announces |
| `InterfaceLookup.FirstIs` | libusb/src/driver/libusb_driver.c:872-890 | the interface found is the first with both numbers, and none is found exactly when there is none |
| `InterfaceLookup.InterfaceIsMet` | libusb/src/driver/libusb_driver.c:872-890 | every interface listed is a descriptor of type 4 that the walk meets, with the number of byte 2 and the alternate setting of byte 3 |
| `InterfaceLookup.MetIsListed` | libusb/src/driver/libusb_driver.c:872-890 | and every such descriptor that the walk meets is listed |
| `SerializedInterfaces.WalkersAgreeWithParser` | libusb/src/driver/libusb_driver.c:861-890 | on every serialized configuration the driver's walk meets exactly the settings that the library's parser finds, in order |
| `InterfaceLookup.FindInterfaceDesc` | libusb/src/driver/libusb_driver.c:861-891 | the walk finds it, with the arguments truncated to bytes, and stops at a descriptor that does not fit; nothing in a buffer that is too short |
| `InterfaceLookup.RankTable.Enter` | libusb/src/driver/libusb_driver.c:921-936 | the local table gives each interface descriptor the first-appearance rank of its number and the count of earlier descriptors with that number |
| `InterfaceLookup.FirstMatch` | libusb/src/driver/libusb_driver.c:940-970 | the first descriptor that matches by number or index, and none before it does |
| `InterfaceLookup.FindInterfaceDescEx` | libusb/src/driver/libusb_driver.c:893-993 | the walk returns the first match, rewrites the request to its numbers and its ranks as bytes, and gives the number of bytes left |
| `InterfaceLookup.InterfaceIndexIs` | libusb/src/driver/libusb_driver.c:921-936 | the interface index of a descriptor is the rank of its number in order of first appearance |
| `InterfaceLookup.IndicesIdentify` | libusb/src/driver/libusb_driver.c:921-974 | both indices together identify a descriptor, and equal interface indices mean equal numbers |
| `InterfaceLookup.AskingAgain` | libusb/src/driver/get_interface.c:83-101 | asking again with the answer, by numbers, indices or mixed, matches that descriptor and no other: by alternate number if and only if its pair of numbers is unique, by index if and only if the index fits a byte |
| `InterfaceLookup.UniquePairsFit` | libusb/src/driver/libusb_driver.c:921-936 | with unique pairs of numbers every alternate setting index fits a byte |
| `InterfaceLookup.FoundByNumbers` | libusb/src/driver/set_interface.c:115-121 | with unique pairs the walker by numbers reaches every descriptor |
| `InterfaceSelection.SelectInterfaces` | libusb/src/driver/set_configuration.c:125-153 | in any buffer that can be walked over, selects the lowest interface numbers with a setting 0, and fails exactly when there are too few and 31 is not among them |
| `InterfaceSelection.SelectionIs` | libusb/src/driver/set_configuration.c:125-153 | as many as announced, the lowest numbers below 32 with a setting 0, ascending, only 31 repeated; nothing exactly if there are fewer and 31 is not one |
| `InterfaceSelection.SelectedHaveSettingZero` | libusb/src/driver/set_configuration.c:127-153 | every selected number has a setting 0; for a regular configuration every number with a setting 0 is selected |
| `InterfaceSelection.TableIsExact` | libusb/src/driver/set_configuration.c:187-195 | for a regular configuration the valid interfaces are exactly its numbers with a setting 0, whatever was set since |
| `DescriptorCache.ReadDeviceIs` | libusb/src/driver/get_descriptor.c:63-105 | the device descriptor is read once; later reads cannot fail; success without bytes comes exactly from a timeout that claims 18 bytes |
| `DescriptorCache.ReadConfigurationIs` | libusb/src/driver/get_descriptor.c:107-187 | a cached descriptor answers without the bus and is not replaced, the first whole one read is cached, an index out of range fails, and no bytes come exactly from a timeout |
| `DescriptorCache.ReadsAreDirect` | libusb/src/driver/get_descriptor.c:24-205 | whatever the bus does, an answer with data is what the device itself gives, truncation of the arguments included, and the cache agrees with the device; while the bus works a read fails only for a bad recipient, a missing descriptor or an index out of range |
| `DescriptorCache.ReadIsExact` | libusb/src/driver/get_descriptor.c:63-205 | no bus can make a read report success without the device's bytes if and only if the recipient is bad, the answer is cached or the index is out of range |
| `DescriptorCache.RangeIsKept` | libusb/src/driver/get_descriptor.c:111-128 | with the device descriptor known the bus is asked for no configuration beyond those announced, and for every other that is not cached |
| `ConfigurationSetting.LookKeepsGood` | libusb/src/driver/get_descriptor.c:240-283 | on any bus the search for a configuration only fills the cache, correctly, and what it hands over can be walked over |
| `ConfigurationSetting.LookIsReal` | libusb/src/driver/get_descriptor.c:240-283 | without timeouts the search hands over the whole configuration of the device that was asked for by value or index, and while the bus works finds it if it exists |
| `ConfigurationSetting.SeenIsReal` | libusb/src/driver/get_descriptor.c:240-283 | and with timeouts too if the driver has seen what it needs |
| `ConfigurationSetting.UnseenIsJunk` | libusb/src/driver/get_descriptor.c:253-281 | otherwise timeouts make it hand over a buffer that nothing has filled |
| `ConfigurationSetting.SelectIsGood` | libusb/src/driver/set_configuration.c:94-205 | with a real descriptor at hand the invariant is kept; a changed configuration gets its table and no owners, a failure changes nothing |
| `ConfigurationSetting.SetConfigurationIs` | libusb/src/driver/set_configuration.c:24-205 | on a bus without timeouts, or a trusted call on any bus: the invariant is kept, on success the value or index is the one asked for and a changed configuration has a fresh table; otherwise value, table and owners stay |
| `ConfigurationSetting.SucceedsExactly` | libusb/src/driver/set_configuration.c:24-205 | while the bus works a call succeeds if and only if it asks for 0 or for a configuration that exists and is active or can be selected |
| `ConfigurationSetting.ActiveIsLeftAlone` | libusb/src/driver/set_configuration.c:36-45 | what is active already, by value or index, succeeds on every bus and changes nothing |
| `ConfigurationSetting.IndicesAreNamed` | libusb/src/driver/set_configuration.c:70-76 | from -258 down the first configuration, above that the one of the index |
| `ConfigurationSetting.DeconfiguringFollowsTheBus` | libusb/src/driver/set_configuration.c:49-69 | deconfiguring ends as the bus does and changes the state only if it succeeds |
| `ConfigurationSetting.TimeoutSpoilsCache` | libusb/src/driver/get_descriptor.c:240-281 | a concrete call on a new device that times out, reports success and leaves a cache that later answers a read with bytes that are not the device's |
| `ConfigurationSetting.UntrustedIsSpoilt` | libusb/src/driver/set_configuration.c:80-100 | any call that is not trusted is spoilt by some bus |
| `ConfigurationSetting.SetConfigurationIsExact` | libusb/src/driver/set_configuration.c:24-205 | the invariant survives the call on every bus if and only if it asks for 0, is an early return, or asks for what the driver has seen: by index what is cached, by value what the cached first configuration settles, or nothing that exists |
| `ConfigurationSetting.DeconfiguringIsExact` | libusb/src/driver/set_configuration.c:49-69 | deconfiguring does what its success says on every bus if and only if the device is unconfigured already |
| `InterfaceOwnership.MeantIsSet` | libusb/src/driver/set_interface.c:102-122 | while the bus works set_interface_ex succeeds exactly for a setting that the active configuration has, by number or index |
| `InterfaceOwnership.SetInterfaceIsExact` | libusb/src/driver/set_interface.c:23-100 | every status exactly; success for a setting with both numbers in the active configuration's descriptor that the bus accepts, and then that interface is valid and nothing else changed |
| `InterfaceOwnership.ResetIsExact` | libusb/src/driver/reset_device.c:28-56 | every status exactly; the configuration is forgotten and the table stays |
| `InterfaceOwnership.ClaimIsExact` | libusb/src/driver/claim_interface.c:25-63 | every status exactly; success on a valid interface that is free or the file's own, which is the file's then |
| `InterfaceOwnership.ReleaseIsExact` | libusb/src/driver/release_interface.c:24-63 | every status exactly; success on the file's own interface, which is free then |
| `InterfaceOwnership.ReleaseThenClaim` | libusb/src/driver/release_interface.c:60-62 | after a release any file can claim, and the same file has nothing to release |
| `InterfaceOwnership.MeantByNumber` | libusb/src/driver/libusb_driver.c:940-970 | a request by number means the interface with that number, if there is one |
| `InterfaceOwnership.MeantByIndex` | libusb/src/driver/libusb_driver.c:921-970 | a request by index means the interface of the number in that place of first appearance |
| `InterfaceOwnership.ByRequestIsByNumber` | libusb/src/driver/claim_interface.c:65-89 | claiming and releasing by a request with a number is claiming and releasing that number |
| `InterfaceOwnership.SetByRequestIsByNumber` | libusb/src/driver/set_interface.c:102-122 | setting by a request with both numbers is setting those |
| `ClaimRace.UndisturbedClaim` | libusb/src/driver/claim_interface.c:49-62 | test and write in a row are the claim that the other modules take as one step |
| `ClaimRace.UndisturbedRelease` | libusb/src/driver/release_interface.c:24-63 | the step of a release is possible exactly when the release of the other modules succeeds, and does the same |
| `ClaimRace.OrderlyRuns` | libusb/src/driver/claim_interface.c:49-60 | in every run without a test between another file's test and its write at most one file holds the interface |
| `ClaimRace.ClaimsExcludeExactly` | libusb/src/driver/claim_interface.c:49-60 | claims exclude each other after a test, however the run goes on, if and only if it does not fall, on a free interface, between another file's test and its write |
| `ClaimRace.BothSucceed` | libusb/src/driver/claim_interface.c:49-62 | a run in which two files claim one interface and both are told success |
| `DriverState.Device.constructor` | libusb/src/driver/libusb_driver.c:455-468 | a new device is unconfigured with nothing cached, and satisfies the invariant |
| `DriverState.Device.GetDescriptor` | libusb/src/driver/get_descriptor.c:24-205 | computes the specification that `ReadsAreDirect` is about and keeps the invariant on any bus |
| `DriverState.Device.GetConfigDescriptor` | libusb/src/driver/get_descriptor.c:207-291 | the loop computes the search that `LookIsReal` and `SeenIsReal` are about and keeps the invariant on any bus |
| `DriverState.Device.FillTable` | libusb/src/driver/set_configuration.c:187-194 | after clearing and filling the table exactly the selected interfaces are valid and none is owned |
| `DriverState.Device.SetConfiguration` | libusb/src/driver/set_configuration.c:24-205 | computes the specification that `SetConfigurationIsExact` is about, with no condition on the bus |
| `DriverState.Device.SelectConfiguration` | libusb/src/driver/set_configuration.c:94-205 | the same for the part with the descriptor at hand |
| `DriverState.Device.Reset` | libusb/src/driver/reset_device.c:28-56 | forgets the configuration whether the bus obeys or not and whatever the reset type, keeps the table and the invariant, and returns the bus's status or that of an invalid parameter |
| `DriverState.Device.SetInterface` | libusb/src/driver/set_interface.c:23-100 | the status of every case; on success that interface becomes valid and nothing else changes; the invariant is kept |
| `DriverState.Device.SetInterfaceEx` | libusb/src/driver/set_interface.c:102-122 | the same for the setting that the request means by number or index |
| `DriverState.Device.Claim` | libusb/src/driver/claim_interface.c:25-63 | the status of every case, for any integer; on success the interface is owned by the file, every other owner stays |
| `DriverState.Device.ClaimEx` | libusb/src/driver/claim_interface.c:65-89 | the same for the interface that the request means |
| `DriverState.Device.Release` | libusb/src/driver/release_interface.c:24-63 | the status of every case, for any integer; on success the interface has no owner, every other owner stays |
| `DriverState.Device.ReleaseEx` | libusb/src/driver/release_interface.c:65-88 | the same for the interface that the request means |
| `DriverState.Device.ReleaseAll` | libusb/src/driver/release_interface.c:90-105 | nothing stays bound to the file, and every other owner stays |
| `DriverState.Device.Serve` | libusb/src/driver/get_descriptor.c:24-205 | any sequence of calls by any file objects, each safe when it is made, is a history of the specification, answers and states included |
| `DriverRuns.SafetyIsExact` | libusb/src/driver/ioctl.c:75-530 | for every call: the state stays good and the tables are kept to on every bus if and only if it is a trusted configuration, a claim or release not of a negative number on a configured device, or any other call |
| `DriverRuns.SuccessIsExact` | libusb/src/driver/ioctl.c:75-530 | for every call: while the bus works it succeeds if and only if the state lets it, with a condition in terms of configuration, table and owner |
| `DriverRuns.OwnerAfter` | libusb/src/driver/claim_interface.c:25-63 | who owns an interface after a call: a claim takes the interface it names only if free or its own, a release frees the interface it names only if its own, a close frees the file's, a new configuration frees all, nothing else changes it |
| `DriverRuns.UnchangedOtherwise` | libusb/src/driver/set_configuration.c:155-205 | value, descriptor, index, table and owners change only by the calls that are for it, when they succeed |
| `DriverRuns.HistoryIsGood` | libusb/src/driver/set_configuration.c:187-195 | in every state of every history the cache agrees with the device, a non-zero value belongs to the descriptor cached at the index, owned interfaces are valid, and the table of a regular configuration is exact |
| `DriverRuns.HeldUntilLetGo` | libusb/src/driver/release_interface.c:24-105 | over any history an owner keeps its interface until it asks to let this interface go, closes, or another configuration is set |
| `DriverRuns.HandsOver` | libusb/src/driver/release_interface.c:24-63 | over any history an owner's release succeeds, and then a claim by any file does, as long as nobody claimed it and the device was not configured or reset in between |
| `DriverRuns.ClaimsExclude` | libusb/src/driver/claim_interface.c:49-60 | two files can claim the same interface, by number or by a request that means it, only if the first let it go, or another configuration was set, in between |
| `DriverRuns.ClosedHoldsNothing` | libusb/src/driver/release_interface.c:90-105 | after a close an interface is not bound to the file, unless it claims it again |
| `DriverRuns.ReadsAgree` | libusb/src/driver/get_descriptor.c:63-187 | the same request is answered with the same bytes, the device's, at any two moments of a run, whatever was cached, configured or reset between |
| `DeviceList.List.Add` | libusb/src/usbi.h:15-24 | LIST_ADD puts the node in front and keeps the list well linked both ways |
| `DeviceList.List.Delete` | libusb/src/usbi.h:26-36 | LIST_DEL takes the node out, keeps the order of the others and the links both ways, and clears the node's own |
| `DeviceList.DropGone` | libusb/src/usb.c:116-149 | the first loop keeps the known devices found again, leaves the unmatched ones in the temporary list, and counts those dropped |
| `DeviceList.AddNew` | libusb/src/usb.c:155-192 | the second loop tries to open and parse every new device, puts those that have a configuration in front, and counts them |
| `DeviceList.MatchingIsByName` | libusb/src/usb.c:116-149 | with distinct names, kept are exactly the known devices whose name was found, unmatched exactly the others found, both in their order |
| `DeviceList.MatchingCounts` | libusb/src/usb.c:122-138 | every device kept uses up one found, for any names |
| `DeviceList.SettledIs` | libusb/src/usb.c:96-198 | after a scan names are distinct, the list holds exactly the known devices still there and the new ones with a configuration, and is no longer than what was found |
| `DeviceList.ChangesAre` | libusb/src/usb.c:96-198 | a change is every device on the list that was not there before and every one that was and is not any more |
| `DeviceList.NothingNew` | libusb/src/usb.c:96-198 | a scan that finds exactly the devices known leaves the list as it is |
| `DeviceList.Reconcile` | libusb/src/usb.c:116-192 | the same objects in the same order behind the new ones; the result counts devices added plus devices removed |
| `DeviceList.OsFindDevices` | libusb/src/windows.c:817-884 | the temporary list has the readable device numbers below 256, the highest first, none with a configuration |
| `DeviceList.PresentIs` | libusb/src/windows.c:817-884 | the names are those of the numbers that answer, with the vendor and product that they answer |
| `DeviceList.PresentDescends` | libusb/src/windows.c:877-877 | the highest number first |
| `DeviceList.DetermineChildren` | libusb/src/windows.c:1116-1124 | the counter, an unsigned char, does not wrap, and the array holds the list |
| `DeviceList.Scan` | libusb/src/usb.c:96-198 | a whole scan, from any list with distinct names, keeps it well formed, with distinct names and fewer than 256 devices; exactly the devices found and not known before are parsed |
| `MultiString.EntriesUndoesEncode` | libusb/src/registry.c:953-968 | reading a buffer gives back the list encoded in it |
| `MultiString.EncodeUndoesEntries` | libusb/src/registry.c:953-968 | a terminated buffer holds the encoding of the list read from it |
| `MultiString.Size` | libusb/src/registry.c:953-968 | the size is that of the encoding |
| `MultiString.FirstSame` | libusb/src/registry.c:984-1005 | the first entry that is the same, with or without regard to case, and none before it is |
| `MultiString.SameIs` | libusb/src/registry.c:984-1005 | without regard to case exactly the strings whose characters are equal but for capitals |
| `MultiString.Find` | libusb/src/registry.c:984-1005 | the search returns the place of that entry, or nothing if there is none |
| `MultiString.Insert` | libusb/src/registry.c:1007-1022 | inserting appends, and an empty string leaves the list as it is |
| `MultiString.OthersAre` | libusb/src/registry.c:1024-1053 | what remains are exactly the entries that are not the same |
| `MultiString.OthersSplit` | libusb/src/registry.c:1024-1053 | removal works on parts of a list separately, so it keeps the order |
| `MultiString.SizeAfter` | libusb/src/registry.c:1038-1045 | the inner loop counts the encoding of what follows the entry |
| `MultiString.CutOut` | libusb/src/registry.c:1047-1047 | moving what follows over an entry takes exactly that entry out of the list |
| `MultiString.Remove` | libusb/src/registry.c:1024-1053 | every matching entry is removed and the others stay in order |
| `JoinedString.MzToSz` | libusb/src/registry.c:100-115 | every NUL that another string follows becomes the separator, nothing else changes, and the result says whether there was a string |
| `JoinedString.JoinedText` | libusb/src/registry.c:100-115 | the text left is the strings with the separator between them |
| `JoinedString.SplitCommas` | libusb/src/registry.c:866-877 | every comma up to the first NUL becomes a NUL |
| `JoinedString.SplitIs` | libusb/src/registry.c:866-877 | a character changes exactly if it is a comma with no NUL before it |
| `JoinedString.SplitUndoesJoin` | libusb/src/registry.c:866-877 | splitting at commas undoes joining with commas, for lists without commas in their strings |
| `ClassFilters.TextIsRead` | libusb/src/registry.c:849-889 | a list without commas stored as text is read as that list |
| `ClassFilters.MultiIsRead` | libusb/src/registry.c:849-889 | a list stored as a multi-string is read as that list |
| `ClassFilters.Registry.GetMzValue` | libusb/src/registry.c:849-889 | the buffer is the zero-padded value, split at commas if it is text, and the result says whether there is a value |
| `ClassFilters.Registry.WriteBack` | libusb/src/registry.c:892-951 | after writing a list back the key's filters read as that list, an empty one deleting the value; it fails only to delete what is not there, and no other key changes |
| `ClassFilters.UninstallUndoesInstall` | libusb/src/registry.c:209-302 | on one list: installing is idempotent, removing after installing is removing, and gives the list back if the driver was not in it |
| `ClassFilters.Registry.InsertOne` | libusb/src/registry.c:224-253 | for one key: the driver is in its list, appended if it was not there, and the value is written only then |
| `ClassFilters.Registry.RemoveOne` | libusb/src/registry.c:273-299 | for one key: the driver is in its list no more, other filters stay in order, and the value is written only if it was there |
| `ClassFilters.TreatedNext` | libusb/src/registry.c:224-253 | treating one more key, seen before or not, extends the keys treated |
| `ClassFilters.Registry.InsertClassFilter` | libusb/src/registry.c:209-256 | over any list of keys, repeated ones included: all have the driver, other keys and values that had it stay, and the flag says whether any was changed |
| `ClassFilters.Registry.RemoveClassFilter` | libusb/src/registry.c:258-302 | the same for removing |
| `ClassFilters.InstallIsIdempotent` | libusb/src/registry.c:209-256 | installing over the same keys again writes nothing |
| `ClassFilters.UninstallAfterInstall` | libusb/src/registry.c:209-302 | installing and removing over the same keys gives every list back without the driver, an absent value counting as an empty list |
| `TransferRing.HandlesDiffer` | libusb/examples/benchmark.c:425-428 | fewer transfers in a row than there are handles use different handles |
| `TransferRing.Transfers.IndicesAgree` | libusb/examples/benchmark.c:475-510 | the next index is the wait index plus what is outstanding, modulo the number of handles |
| `TransferRing.Transfers.Submit` | libusb/examples/benchmark.c:425-484 | a submission uses a handle that carries no transfer |
| `TransferRing.Transfers.TransferAsync` | libusb/examples/benchmark.c:417-515 | transfers are reaped in the order of submission; a failed wait leaves the oldest to be waited for again |
| `TransferRing.Transfers.Close` | libusb/examples/benchmark.c:655-671 | what was not reaped is cancelled, each once, and every context is freed |

## Left out

Hypotheses of the proofs:

- Packet size and chunk size are positive (a packet size of 0 is refused by the read dispatch and left to the caller elsewhere), and the bus stack never reports more bytes than requested.
- Sequence numbers do not wrap, IoCallDriver accepts every request block, and interlocked operations are sequentially consistent.
- `SplitTransfer.SplitPreservesMeaning`: every completion that passes the test for another chunk goes on. In the driver it may find the busy flag taken, by another request or by its own submitter, another sequence pending, or no memory; `SplitRuns` and `SplitWrites` have the exact condition.
- `SplitRuns.UndisturbedSplit`: the other requests on the endpoint are over at every moment of the request's life. The bus ends a chunk as its request block ends on the endpoint, and a request's chunks are the only ones answered from its stream.
- `SplitWrites.WritesExactly`: the endpoint takes every chunk in full.
- `SplitTransfer.RunUrb`: after an error the single request reports no bytes, the split one the bytes of its earlier chunks; agreement of the bytes is claimed for success.
- The remove lock has one remover, and its clients release only what they acquired; the early exit of `dispatch_ioctl` does not.
- How calls to the bus end is a parameter of every call; a block that reports success carries the device's own data. After a read that times out its buffer holds what it held before, but for the first bytes that may have come; new buffers hold anything.
- A device's descriptors never change and are well formed: `wTotalLength` is their length, no descriptor inside has length 0 before the walk over them stops, configuration values are non-zero and distinct, and there are at most 32 interface numbers.
- `DriverRuns.HistoryIsGood`: each call is one step, and each is safe when it is made. Overlapping claims are in `ClaimRace`, where a release is one step; other overlaps of these calls are not modelled. Nothing is claimed about calls in a state that a timeout has spoilt, or after an access outside the table.
- Which devices can be opened and parsed is a parameter of a scan.
- The bus driver reports pipes with a non-zero address and handle, and packet sizes of 16 bits.
- The lists and the driver's name fit the buffer of MAX_PATH characters, and registry calls succeed.
- Device names are distinct when a scan starts; every scan keeps them so.
- Bytes past the end of a buffer read as zeros; the parser, which peeks at some headers before it checks the size, reads whatever is there.

Not modelled:

- `TransferProtocol.TailAfterFree`: the model's last write uses the address that the chunk was sent to, where `libusb/src/driver/transfer.c:310` reads it from the context again; what that read finds in freed memory is not modelled.
- Which of several failure statuses a transfer reports, other than that it is a failure.
- Isochronous transfers, request flags and frame latency; memory allocation failure other than that of a transfer's context, request block and partial descriptor list; memory descriptor lists beyond where they point.
- The parser's partial trees after an error, and reading a configuration's bytes from the device (`usb_fetch_and_parse_descriptors`).
- The endpoint pointer of an interface whose parsing stopped at a configuration or device descriptor; the model gives it no endpoints.
- `DriverState.Device.Reset`: which of the two reset types is meant, and that with both the second call's status is returned.
- `DriverState.Device.FillTable`: the endpoint slots, which `PipeTable` has with a table of valid interfaces of its own.
- The configuration handle, pipe handles' validity, and the cached string and class data of a device.
- `usb_find_busses`: the same reconciliation over at most one bus. Freeing of devices; virtual hubs.
- The action recorded for each class key, device (not class) filters, and the branches for systems where `usb_registry_is_nt` would be false.
- Power management, vendor, feature and status requests, the control dispatcher, the overlapped input and output of the user library, installers, logging, and the statistics and command line of the benchmark: nothing in them relates several operations.
