# LDS storage core: a verified model

This project models the core of the LDS block-storage server and proves properties of it with the
Dafny verifier (Dafny 4.11; `dafny verify dfyconfig.toml`). The three parts are

* **the RAID 0+1 engine**: `RAIDStorage` over its minions and its metadata store, and `LocalStorage`,
  the flat array it should agree with;
* **the thread pool**: `ThreadPool`, the blocking priority queue `WPQ` and the Suspend and Stop
  commands, with `InputMediator`, which turns each request into one queued command;
* **the byte formats**: the TCP request and reply frames over short reads and writes, the
  `.tcp_allocations` file, the metadata file and the LIST_OFFSETS payload, with the client's decoder.

Objects whose methods update fields are classes here, with the same loops; each method is proved
against a function of the old state, and the theorems are lemmas about those functions, over every
run, every fault and every interleaving.

## How the modules fit

| modules | what they are |
|---|---|
| `Bytes`, `Options`, `OrderedMaps` | byte vectors, optional values, `std::map` visited in key order |
| `Layout`, `Placements` | offset arithmetic for any stripe size dividing the minion size, and the laws the rest uses |
| `Minions`, `RaidSpec`, `RaidRuns` | minions, one `Read` or `Write` under faults, whole runs |
| `MetadataStores` | the two backends of the metadata store, and what each holds after a save |
| `Raid`, `Local`, `Requests` | the classes `RAIDStorage`, `LocalStorage`, `DriverData` |
| `ConcurrentWrites`, `ConcurrentSaves`, `ConcurrentReads` | several `Write` calls in flight with failing minion calls, what they leave of the saved index, and a `Read` among them |
| `MachineArithmetic` | the loops in `size_t` arithmetic |
| `PoolSpec`, `ThreadPools` | the pool as a step machine, and the classes `WPQ` and `ThreadPool` |
| `Wire`, `Framing`, `Streams`, `TcpDriver`, `AllocationFile`, `MetadataFile` | the formats and the classes that read and write them |
| `Mediator`, `MediatorRuns`, `Client` | request handling, replies over whole runs, the client's discovery |
| `Recovery`, `Serving`, `Startup` | discovery and restart across modules; requests served one at a time, end to end, from the start of the server |

## Main results

1. *Fault containment* (`RaidRuns.FaultContainment`): with any minion call of any run failing, a
   write possibly after part of its bytes, the copies agree at every byte except those a failed
   `Write` covered and no later successful one rewrote, and a successful `Read` returns the last
   successfully written byte there.
2. *Concurrent writes* (`ConcurrentWrites.InterleavingsAgreeIff`, `ConcurrentWritesSerialise`,
   `CopiesAgreeIff`): for any number of writes in flight, under any faults, all complete interleavings
   leave the same minions and index if and only if no two writes store different bytes at one place
   and those that succeed at one offset agree on the size; then minions, index and statuses are those
   of serving them one after another in any order. Without faults, primary and mirror end equal in
   every interleaving if and only if no two writes carry different bytes to one offset;
   `OverlappingWritesDiverge` gives the interleaving that splits any two that do.
   *The saved index* (`ConcurrentSaves.SnapshotsAgreeIff`, `SavesAgreeIff`) depends on the order even
   then (`SnapshotDependsOnOrder`); all interleavings leave the same one if and only if all saves that
   can be the last leave the same. With saves that are complete or do not open, that is: none of a
   succeeding write reaches the store, or each succeeding write has a save at its offset that does, or
   a size recorded there before.
   *A read among writes* (`ConcurrentReads.ReadAmongWrites`, `NewThenOldIff`): whatever fails and whatever
   overlaps, each byte is one from before or one of a write that covers it; a read can see a new byte
   and the next one the old byte again exactly while some write has stored it on the primary and none
   has reached it on the mirror.
3. *Refinement* (`RaidRuns.RunRefinesFlat`, `NewStorageBehavesFlat`, `LocalStepAgreesIffInRange`): without write
   faults the storage is one flat zeroed array with an offset-to-size map; `LocalStorage` serves a
   request the same way if and only if it is in range.
4. *Failover is invisible* (`RaidRuns.FailoverIsInvisible`), and only while no minion and its mirror are
   both down (`PairDownIsVisible`).
5. *64-bit safety* (`MachineArithmetic.MachineWriteIsWriteIff`, `MachineReadIsReadIff`): in `size_t`
   arithmetic a request does what it does in unbounded arithmetic if and only if it is not one whose
   first chunk, on a storage with a single primary, ends at or beyond 2^64; such a request passes the
   bounds check and leaves the minion's buffer (`LastOffsetWraps`). The bounds check of `LocalStorage` is
   right exactly if its addition does not wrap back into the array (`LocalCheckIsRightIff`).
6. *Suspend barrier*, *shutdown drain*, *resizing loses nothing* (`PoolSpec.SuspendBarrier`,
   `ShutdownDrain`, `ResizingLosesNothing`), on the step machine and on the class, for a running pool and
   for one that was stopped before. Every task above Low is executed before `Stop` returns if and only
   if some worker was live when it began or none was queued. *Progress* (`PoolSpec.EveryTaskIsDone`,
   `WorkersStay`): a pool of n threads keeps all n until the first `Stop` or `SetSize`, and with the flag
   down they execute every task submitted, in a bounded number of steps; so do those of a resized pool.
7. *One reply per request* (`MediatorRuns.OneReplyPerRequest`, `NeverTwoReplies`), at the end of a `Stop`, and
   while the server runs whenever its workers have nothing left to do (`IdleIsAllAnswered`).
8. *Formats*: round trips of both frame streams, both files and the offset list, the bytes of each by
   position (`Framing.RequestBytes`, `ReplyBytes`, `MetadataFile.EntryAt`, `AllocationFile.RecordAt`,
   `Client.PayloadAt`), and what each reader makes of truncated input.
9. *Discovery* (`Recovery.DiscoveryIsSound`) and *restart* (`Recovery.RestartFindsSavePoint`,
   `RestartFindsIndexIff`): a restarted server loads what was kept of the index at the last successful
   `Write` whose save opened the file, all of it or the entries before the byte where the save was cut
   off, and nothing if that is inside a size. That is the current index if and only if, at each offset,
   the last successful write since wrote the size kept, or there was none and none was lost. `LostSave`
   is a `Write` that reports success and is forgotten, and `CutSaveForgetsAll` one that makes the server
   forget the others too.
10. *End to end* (`Serving.Serve`, `ReaderReadsFlatAnswers`, `ClientReadsFlatAnswersIff`): from the request
   bytes on a connection, through reactor, pool, mediator, storage and driver, to reply bytes that hold
   exactly the answers of the flat array for a reader that takes each reply whole; `Startup.Session`
   begins with a server that has just started. What the answers are, by the requests alone
   (`AnswerByType`, `ReadAfter`, `SizeAfter`): a READ brings the bytes of the last WRITEs, a GET_SIZE the
   length of the last WRITE at its offset. The payloads of the WRITEs are in the allocations, in the
   order of their arrival. The client makes one
   `recv` for a header and one for a payload: it recovers the answers if and only if every `recv`
   delivers all it asks for; after a short header (`Client.ShortHeader`) it is out of step.

## Assumptions

* A storage is sound if its minions have one positive size and a buffer each, as `StorageFactory` builds
  them (services/local_storage/src/StorageFactory.cpp:40-58). The layout is proved for any stripe size that
  divides it; the constructor takes them equal (services/local_storage/src/RAIDManager.cpp:40-41).
* What the operating system does is a parameter: a `Faults` value says which minion calls of a request
  throw, and after how many stored bytes, and what becomes of its save: the file does not open, takes
  everything, or takes a prefix only, unnoticed, as after a full disk or a crash. `canOpen` says whether
  a file opens for reading; a socket delivers and takes any non-zero part of what it is asked; the host
  byte order of the metadata file is a parameter.
* A minion call is atomic under its own lock, and so is the index update with its save.
* The wait of a suspended worker is a step enabled while the flag is down. `Resume` writes the flag
  without `m_mutex` (utilities/threading/thread_pool/src/thread_pool.cpp:133-137), so a missed wake-up
  is outside the model.
* One thread calls `Suspend`, `Resume`, `Stop` and `SetSize`, on a running or a stopped pool; commands
  terminate. `AddCommand` may come between any two steps unless a theorem says otherwise.
* Replies are sent one at a time on a connection.

## Where the code and its documentation differ

The model follows the code.

* The repository's README.md:192 and :488-490 give the queue the order WRITE, READ, FLUSH. Every request
  becomes a `FunctionCommand` of the default priority `Med`
  (services/mediator/src/InputMediator.cpp:10-24, design_patterns/command/include/ICommand.hpp:23).
* README.md:156 calls `.tcp_allocations` an offset-to-size index; it holds payloads, and a WRITE appends
  to what its offset already has (services/communication_protocols/tcp/src/TCPDriverComm.cpp:345-351).
* README.md:319-320 gives each request `length` data bytes; only WRITE carries them.
* README.md:448-451 puts offsets 0 and 1 on one minion and 2 and 3 on the next; the constructor makes the
  stripe as large as a minion.
* A comment says the memory metadata store is empty on every load
  (services/local_storage/src/MemoryMetadataStore.cpp:8); `Load` returns what was saved.
* The log text of `ReceiveRequest` misnames request types
  (services/communication_protocols/tcp/src/TCPDriverComm.cpp:215-216); the model keeps the values of
  `DriverData::ActionType`.

## Model

| member | source | states |
|---|---|---|
| Layout.EveryPlaceIsUsed | services/local_storage/src/RAIDManager.cpp:56-73 | the layout is onto: every place on a primary is the place of some logical offset |
| Layout.PlaceDeterminesOffset | services/local_storage/src/RAIDManager.cpp:56-73 | the layout has an inverse: the offset is computed back from the primary index and the local offset |
| Layout.DistinctOffsetsHaveDistinctPlaces | services/local_storage/src/RAIDManager.cpp:56-73 | two offsets have the same place if and only if they are equal |
| Layout.ChunkIsContiguous | services/local_storage/src/RAIDManager.cpp:95-96 | up to the stripe boundary, consecutive offsets are consecutive local bytes of one minion |
| Layout.FitsIffBelowCapacity | services/local_storage/src/RAIDManager.cpp:40-41 | the local offset is inside the minion exactly for offsets below primaries times minion size |
| Layout.ChunkFitsWhole | services/local_storage/src/RAIDManager.cpp:154-163 | a chunk passes the minion's bounds check exactly if it starts below the capacity, and then ends at or below it |
| Layout.LocalOffsetAtMostOffset | services/local_storage/src/RAIDManager.cpp:67-73 | the local offset never exceeds the logical one |
| Layout.StripedIsLawful | services/local_storage/src/RAIDManager.cpp:56-73 | the arithmetic layout satisfies every law the storage proofs rely on, for any stripe size dividing the minion size |
| Layout.RoundRobin | services/local_storage/src/RAIDManager.cpp:56-73 | the stripes go round the primaries in order: byte j of the k-th stripe of primary p has logical offset (k * primaries + p) * stripe + j, and a chunk may run to the end of its stripe |
| Placements.ChunkFitsWhole | services/local_storage/src/RAIDManager.cpp:154-163 | under the laws alone, a chunk is inside the minions or outside them as a whole |
| Placements.PlaceInChunk | services/local_storage/src/RAIDManager.cpp:154-163 | a place lies in the local range of a chunk if and only if its offset lies in the chunk |
| Minions.StorageMinionMemory.constructor | services/local_storage/src/StorageMinionMemory.cpp:10-13 | a new memory minion holds zeros |
| Minions.WriteByte | services/local_storage/src/StorageMinionFile.cpp:70-90 | byte by byte: a write in bounds stores its bytes, as many as reached the file if it fails, and one out of bounds none |
| Minions.StorageMinionMemory.Read | services/local_storage/src/StorageMinionMemory.cpp:15-24 | returns exactly the bytes asked for, or throws when they pass the end |
| Minions.StorageMinionMemory.Write | services/local_storage/src/StorageMinionMemory.cpp:26-36 | replaces exactly the bytes of the range in place, or throws and changes nothing |
| Minions.StorageMinionFile.constructor | services/local_storage/src/StorageMinionFile.cpp:13-40 | an empty image file is filled with zeros; another keeps its bytes, up to the minion's size |
| Minions.StorageMinionFile.Read | services/local_storage/src/StorageMinionFile.cpp:50-68 | the bytes of the range; throws when out of bounds or when pread fails or is short |
| Minions.StorageMinionFile.Write | services/local_storage/src/StorageMinionFile.cpp:70-90 | as the memory minion when pwrite succeeds; otherwise throws after a prefix of the buffer reached the file |
| MetadataStores.MemoryMetadataStore.constructor | services/local_storage/src/MemoryMetadataStore.cpp:6-10 | a new memory store is empty |
| MetadataStores.MemoryMetadataStore.Load | services/local_storage/src/MemoryMetadataStore.cpp:6-10 | returns what was last saved |
| MetadataStores.MemoryMetadataStore.Save | services/local_storage/src/MemoryMetadataStore.cpp:12-15 | the whole map replaces the snapshot |
| MetadataStores.MemoryMetadataStore.Clear | services/local_storage/src/MemoryMetadataStore.cpp:17-20 | the snapshot becomes empty |
| MetadataStores.MetadataStore.Load | services/local_storage/src/RAIDManager.cpp:43-47 | whichever store it is: the map, or what the file reader makes of the bytes, empty if there is no file or it does not open |
| MetadataStores.MetadataStore.Save | services/local_storage/src/RAIDManager.cpp:177-178 | whichever store it is: the snapshot becomes the index, or the part of it a file takes before the save is cut off; nothing changes if a file does not open |
| MetadataStores.SavedThenLoaded | services/local_storage/src/FileMetadataStore.cpp:53-73 | what a restart loads after a save, for any point at which it is cut: the whole index, the entries before the cut, or nothing if the cut is inside a size; a save that does not open leaves what was there |
| Raid.RAIDStorage.Create | services/local_storage/src/RAIDManager.cpp:13-54 | throws exactly on zero or an odd number of minions; otherwise half are primaries and the index is what the store held; the storage is sound if and only if the minions have one positive size and a buffer each, and then the primaries' sizes add up to its capacity |
| Raid.RAIDStorage.Checked | services/local_storage/src/RAIDManager.cpp:33-47 | after the checks, for minions of any sizes: stripe size and minion size are those of the first minion, the index is loaded from the store |
| Raid.RAIDStorage.OneAfterAnother | services/local_storage/src/RAIDManager.cpp:40-41 | with the stripe as large as a minion, the logical array is the primaries one after another, and minion primaries + p holds the mirror of minion p |
| Raid.RAIDStorage.PrimaryIndex | services/local_storage/src/RAIDManager.cpp:56-60 | the minion that the lawful placement gives the primary copy of the offset |
| Raid.RAIDStorage.LocalOffset | services/local_storage/src/RAIDManager.cpp:67-73 | the local offset of the lawful placement |
| Raid.RAIDStorage.ChunkSize | services/local_storage/src/RAIDManager.cpp:154-155 | the chunk ends at the request's end or the stripe boundary, and is never empty while bytes remain |
| Raid.RAIDStorage.Write | services/local_storage/src/RAIDManager.cpp:133-192 | in place on the minion buffers, under any faults of minions and save: new minion contents, index, saved snapshot and status are those of the specified write |
| Raid.RAIDStorage.RecordSize | services/local_storage/src/RAIDManager.cpp:174-179 | the index gains the size and is saved, in full, cut off, or not at all if the file does not open; the minions are untouched |
| Raid.RAIDStorage.StoreChunks | services/local_storage/src/RAIDManager.cpp:146-172 | the loop leaves the minions as the specified chunked write does, stopping at the first call that throws |
| Raid.RAIDStorage.WriteChunk | services/local_storage/src/RAIDManager.cpp:150-171 | one turn: primary, then mirror; either throwing ends the write where it stands |
| Raid.RAIDStorage.WriteCopy | services/local_storage/src/RAIDManager.cpp:162-163 | one minion call changes that minion and no other |
| Raid.RAIDStorage.Read | services/local_storage/src/RAIDManager.cpp:75-131 | buffer and status are those of the specified read, the buffer resized first, and no storage state changes |
| Raid.RAIDStorage.FetchChunks | services/local_storage/src/RAIDManager.cpp:87-124 | the loop fills the buffer up to the first chunk with no good copy and leaves the rest |
| Raid.RAIDStorage.ReadCopies | services/local_storage/src/RAIDManager.cpp:100-111 | the primary's bytes, or the mirror's if the primary throws, or an exception if both do |
| Raid.RAIDStorage.GetDataSize | services/local_storage/src/RAIDManager.cpp:194-205 | the size in the index, 0 for an unknown offset |
| Raid.RAIDStorage.ListOffsets | services/local_storage/src/RAIDManager.cpp:207-219 | every index entry once, in ascending offset order |
| RaidSpec.PatchView | services/local_storage/src/RAIDManager.cpp:162-163 | a minion write of part of a chunk changes exactly those logical bytes, of that copy only |
| RaidSpec.ViewsDetermineImage | services/local_storage/src/RAIDManager.cpp:56-73 | the two logical arrays determine every byte of every minion |
| RaidSpec.WriteContained | services/local_storage/src/RAIDManager.cpp:146-191 | under any faults a write leaves each copy old outside its range, old or new inside, and all new if it reports success |
| RaidSpec.FaultFreeWrite | services/local_storage/src/RAIDManager.cpp:146-191 | without write faults both copies gain exactly the in-range bytes, and success is reported if and only if the write is empty or ends within the capacity |
| RaidSpec.ReadReturnsStoredBytes | services/local_storage/src/RAIDManager.cpp:87-130 | under any read faults every byte delivered is stored on one copy; success if and only if empty, or in range with a readable copy of each chunk |
| RaidSpec.FailoverRead | services/local_storage/src/RAIDManager.cpp:100-111 | with equal copies and a readable copy of each chunk, a read is a read of the flat array |
| RaidSpec.ReadUsesCopy | services/local_storage/src/RAIDManager.cpp:100-111 | a read takes the primaries while they answer, and the mirrors while all primaries fail |
| RaidRuns.FaultContainment | services/local_storage/src/RAIDManager.cpp:87-191 | over any run with any faults: copies agree and hold the last successfully written byte wherever no failed write is left uncorrected, and any successful read returns it; elsewhere a read returns that byte or one a failed write carried |
| RaidRuns.CopiesHoldCandidates | services/local_storage/src/RAIDManager.cpp:146-191 | over any run with any faults, each copy of each byte holds the last success or a later failed write's byte |
| RaidRuns.SettledByte | services/local_storage/src/RAIDManager.cpp:174-190 | where no failed write came after the last success, there is one candidate only |
| RaidRuns.StepEffect | services/local_storage/src/RAIDManager.cpp:146-191 | one call under any faults changes a byte only if it is a write covering it, to that write's byte |
| RaidRuns.IndexStaysInRange | services/local_storage/src/RAIDManager.cpp:174-179 | over any run with any faults every index entry ends within the capacity |
| RaidRuns.IndexRecordsSuccesses | services/local_storage/src/RAIDManager.cpp:174-190 | over any run with any faults the index gives, at each offset, the size of the last write there that succeeded; failed ones leave no trace |
| RaidRuns.GetSizeAfterRun | services/local_storage/src/RAIDManager.cpp:194-205 | after any run with any faults GetDataSize gives the length of the last successful write at the offset, else the size recorded at the start, else 0 |
| RaidRuns.PrimaryFails | services/local_storage/src/RAIDManager.cpp:157-171 | a write of one chunk whose primary call fails after k bytes: those are on the primary, the mirror is untouched, the write fails and is not recorded |
| RaidRuns.MirrorFails | services/local_storage/src/RAIDManager.cpp:157-171 | one whose mirror call fails after k bytes: all bytes are on the primary and those on the mirror, the write fails and is not recorded |
| RaidRuns.ReadBuffer | services/local_storage/src/RAIDManager.cpp:77-130 | under any faults a read leaves a buffer of the length asked for: bytes of one copy or the other as far as it got, all of it on success, and behind them the old buffer |
| RaidRuns.StepRefinesFlat | services/local_storage/src/RAIDManager.cpp:75-219 | one call without write faults changes the state as the flat storage does and keeps the copies equal; its response is the flat one unless it is a read that finds a chunk bad on both copies |
| RaidRuns.RunRefinesFlat | services/local_storage/src/RAIDManager.cpp:75-219 | over any run without write faults, the state is that of one flat array with an index and the copies stay equal; every response is the flat one, where a read needs a readable copy of each of its chunks |
| RaidRuns.NewStorageIsZeroed | services/local_storage/src/StorageMinionMemory.cpp:10-13 | new minions and an empty store are one zeroed array with an empty index |
| RaidRuns.NewStorageBehavesFlat | services/local_storage/src/RAIDManager.cpp:75-219 | from a new storage, every run without write faults answers as a flat zeroed array, and as a new LocalStorage while requests are in range, where a read needs a readable copy of each of its chunks |
| RaidRuns.FailoverIsInvisible | services/local_storage/src/RAIDManager.cpp:89-122 | after any run without write faults, whatever its reads met, a read with minions down but no minion with its mirror answers as with all up, successfully if and only if empty or in range |
| RaidRuns.NoPairDown | services/local_storage/src/RAIDManager.cpp:100-111 | if no minion is down together with its mirror, every chunk of every request has a readable copy |
| RaidRuns.PairDownIsVisible | services/local_storage/src/RAIDManager.cpp:106-130 | with a minion and its mirror down, some in-range one-byte read fails |
| RaidRuns.OverrunningWrite | services/local_storage/src/RAIDManager.cpp:148-191 | a non-empty write past the capacity fails, leaves index and snapshot, and stores exactly its in-range bytes on both copies |
| RaidRuns.LocalStepAgreesIffInRange | services/local_storage/src/LocalStorage.cpp:12-62 | LocalStorage answers a request as the flat RAID storage does if and only if the request ends within the capacity; any other request throws and changes nothing |
| RaidRuns.RaidAgreesWithLocal | services/local_storage/src/LocalStorage.cpp:12-62 | over any run of in-range requests without write faults RAIDStorage and LocalStorage end in the same state and give the same answers, where a read needs a readable copy of each of its chunks |
| RaidRuns.ListedOffsetsAreReadable | services/local_storage/src/RAIDManager.cpp:174-219 | after any run without write faults, whatever its reads met, GetDataSize of each listed offset gives its recorded size, and a read of that many bytes returns exactly the stored ones |
| Local.LocalStorage.constructor | services/local_storage/src/LocalStorage.cpp:8-10 | a zeroed array of the given size and an empty index |
| Local.LocalStorage.Read | services/local_storage/src/LocalStorage.cpp:12-24 | copies the bytes of the range into the buffer, or throws and changes nothing |
| Local.LocalStorage.Write | services/local_storage/src/LocalStorage.cpp:26-40 | stores all bytes in place and records the size, or throws, exactly when it would pass the end, and changes nothing |
| Local.LocalStorage.GetDataSize | services/local_storage/src/LocalStorage.cpp:42-51 | the size in the index, 0 for an unknown offset |
| Local.LocalStorage.ListOffsets | services/local_storage/src/LocalStorage.cpp:53-62 | every index entry once, in ascending offset order |
| ConcurrentWrites.SoloChunk | services/local_storage/src/RAIDManager.cpp:148-172 | two steps of a writer alone are one turn of the loop of Write, under any faults |
| ConcurrentWrites.SoloIsWrite | services/local_storage/src/RAIDManager.cpp:146-191 | the steps of a writer with none in between do what Write does, status, index and save included |
| ConcurrentWrites.ActIsNext | services/local_storage/src/RAIDManager.cpp:146-191 | whether a writer's call throws does not depend on what the other writers did |
| ConcurrentWrites.StepEffects | services/local_storage/src/RAIDManager.cpp:162-179 | a step lays exactly the next bytes of its writer over one copy, part of them if the call fails, or enters its size and saves |
| ConcurrentWrites.StepKeepsInv | services/local_storage/src/RAIDManager.cpp:146-184 | whichever writer steps next, each copy shows the bytes each writer has stored and old bytes elsewhere |
| ConcurrentWrites.ExecKeepsInv | services/local_storage/src/RAIDManager.cpp:146-184 | that holds after every schedule of any number of compatible writers |
| ConcurrentWrites.ExecKeepsIndexed | services/local_storage/src/RAIDManager.cpp:174-179 | after every schedule the index holds the sizes of exactly the writers that succeeded |
| ConcurrentWrites.OutcomeIsUnique | services/local_storage/src/RAIDManager.cpp:146-184 | two completed executions end in the same minions, mirrors, index and statuses |
| ConcurrentWrites.SerialIsSchedule | services/local_storage/src/RAIDManager.cpp:133-192 | serving the writes one after another in a given order is one of the schedules, and ends as the run of those calls |
| ConcurrentWrites.ConcurrentWritesSerialise | services/local_storage/src/RAIDManager.cpp:146-184 | every completed interleaving of compatible writes, under any faults, ends in the minions, mirrors, index and statuses of the run of those writes in any order |
| ConcurrentWrites.InterleavingsAgreeIff | services/local_storage/src/RAIDManager.cpp:146-184 | all complete interleavings leave the same minions and index if and only if no two writers store different bytes at one place and those that succeed at one offset agree on the size |
| ConcurrentWrites.SameBytesAreCompatible | services/local_storage/src/RAIDManager.cpp:146-184 | writers that carry the same bytes wherever they overlap are compatible, whatever fails; without faults only those are |
| ConcurrentWrites.FaultFreeSizesAgree | services/local_storage/src/RAIDManager.cpp:148-184 | without faults the writers agree on sizes if and only if those that end within the capacity, or are empty, have one length at each offset |
| ConcurrentWrites.DisjointWritesAreCompatible | services/local_storage/src/RAIDManager.cpp:146-184 | non-empty writes of disjoint ranges are compatible |
| ConcurrentWrites.OverlappingWritesDiverge | services/local_storage/src/RAIDManager.cpp:162-163 | for any two of any number of writers, and any offset to which they carry different bytes, a complete interleaving that leaves one byte on the primary and the other on the mirror |
| ConcurrentWrites.CopiesAgreeIff | services/local_storage/src/RAIDManager.cpp:162-163 | from equal copies without faults, every complete interleaving leaves the copies equal if and only if no two writers carry different bytes to one offset |
| ConcurrentSaves.ExecSnapshots | services/local_storage/src/RAIDManager.cpp:174-179 | after every schedule of compatible writers the snapshot is that of a save that can have been the last to reach the store, or the first one |
| ConcurrentSaves.Realise | services/local_storage/src/RAIDManager.cpp:174-179 | every save that can be the last one is the last one of some complete interleaving, which ends with its snapshot |
| ConcurrentSaves.SnapshotsAgreeIff | services/local_storage/src/RAIDManager.cpp:174-179 | under any faults: all complete interleavings leave the same snapshot if and only if all saves that can be the last leave the same |
| ConcurrentSaves.SavesAgreeIff | services/local_storage/src/FileMetadataStore.cpp:53-73 | with saves that are complete or do not open, those agree if and only if none reaches the store, or at the offset of each succeeding writer some save of a succeeding writer does or the index recorded its size before |
| ConcurrentSaves.SnapshotsSerialise | services/local_storage/src/RAIDManager.cpp:174-184 | then every complete interleaving leaves the snapshot of serving the writes one after another in any order |
| ConcurrentSaves.SnapshotDependsOnOrder | services/local_storage/src/FileMetadataStore.cpp:57-62 | two disjoint one-byte writes, one of whose saves does not open: a restarted server knows one offset or both, by the order they were served in |
| ConcurrentReads.SoloIsRead | services/local_storage/src/RAIDManager.cpp:87-124 | the steps of a reader with none in between return what Read copies out, whatever fails |
| ConcurrentReads.StepCarries | services/local_storage/src/RAIDManager.cpp:146-172 | any step of any writer, compatible or not, leaves each copy of each byte at one from the beginning or one that a covering writer carries |
| ConcurrentReads.ReadAmongWrites | services/local_storage/src/RAIDManager.cpp:87-130 | a Read whose minion calls fall between those of any writers, under any faults of all: each byte it returns is one of those, and it succeeds only in full and in range |
| ConcurrentReads.CopiesDiffer | services/local_storage/src/RAIDManager.cpp:162-163 | at any moment of compatible writes from equal copies, primary and mirror differ at a byte exactly if some writer stored a new one on the primary and none reached it on the mirror, which then has the old byte |
| ConcurrentReads.NewThenOldIff | services/local_storage/src/RAIDManager.cpp:100-111 | two successful Reads of a byte, the second failing over to the mirror, return the new byte and then the old one exactly at such moments |
| ConcurrentWrites.CanComplete | services/local_storage/src/RAIDManager.cpp:146-184 | every schedule of any writers under any faults can be continued until all have finished |
| MachineArithmetic.LocalOffsetDoesNotWrap | services/local_storage/src/RAIDManager.cpp:67-73 | in 64-bit arithmetic LocalOffset is the unbounded one, and at most the offset |
| MachineArithmetic.CheckIsRightIff | services/local_storage/src/StorageMinionMemory.cpp:17-31 | the 64-bit bounds check of a chunk is right if and only if its addition stays below 2^64 |
| MachineArithmetic.WrapsIff | services/local_storage/src/RAIDManager.cpp:67-73 | it wraps exactly if there is a single primary and the chunk ends at or beyond 2^64 |
| MachineArithmetic.MachineWriteIsWriteIff | services/local_storage/src/RAIDManager.cpp:133-192 | for every offset and length: Write in 64-bit arithmetic does what it does in unbounded arithmetic, except that it leaves the minion's buffer if and only if its first chunk wraps |
| MachineArithmetic.MachineReadIsReadIff | services/local_storage/src/RAIDManager.cpp:75-131 | and so does Read |
| MachineArithmetic.SafeRequests | services/local_storage/src/RAIDManager.cpp:67-73 | no request that ends below 2^64, and none at all with two primaries or more, wraps |
| MachineArithmetic.LastOffsetWraps | services/local_storage/src/StorageMinionMemory.cpp:26-36 | two minions of 1 MiB and a one-byte write at offset 2^64-1: the check passes and the copy leaves the buffer |
| MachineArithmetic.LocalCheckIsRightIff | services/local_storage/src/LocalStorage.cpp:16-19 | the bounds check of LocalStorage, in 64-bit arithmetic, is right if and only if offset plus length does not lie between 2^64 and 2^64 plus the size of the array |
| MachineArithmetic.LastOffsetPassesLocally | services/local_storage/src/LocalStorage.cpp:30-33 | a one-byte request at offset 2^64-1 passes it, whatever the size of the array |
| PoolSpec.ExecutionKeepsInv | utilities/threading/thread_pool/src/thread_pool.cpp:66-187 | over every execution: each submitted task is queued, running or done as often as it was submitted, and stop and suspend tokens are counted against workers, those of repeated Stops included |
| PoolSpec.StepKeepsInv | utilities/threading/thread_pool/src/thread_pool.cpp:66-187 | every step of the controller and of a worker keeps these counts |
| PoolSpec.PoppedIsMostUrgent | design_patterns/command/include/ICommand.hpp:21-28 | a worker takes Admin tasks before High ones and suspend tokens, those before Med, and Low tasks and stop tokens last |
| PoolSpec.WorkersStay | utilities/threading/thread_pool/src/thread_pool.cpp:51-57 | over any execution from the start of a pool of n, until the first Stop or SetSize begins, there are exactly n workers, none has exited and no stop token is queued |
| PoolSpec.WorkerCanStep | utilities/threading/thread_pool/src/thread_pool.cpp:159-177 | with live workers and the flag down some worker has a step as long as a command is queued, running or blocking |
| PoolSpec.EveryTaskIsDone | utilities/threading/thread_pool/src/thread_pool.cpp:159-177 | a pool between calls, after any history in which a stopped pool was not stopped again, with some worker and its flag down: the workers take a bounded number of steps, and when they have none left every submitted task has been executed |
| PoolSpec.FlagDownSince | utilities/threading/thread_pool/src/thread_pool.cpp:133-137 | from a Resume until the next Suspend begins the flag is down |
| PoolSpec.BarrierHoldsBack | utilities/threading/thread_pool/src/thread_pool.cpp:39-47 | with a suspend token queued or taken for each worker, no worker can pop a command below High |
| PoolSpec.BarrierSince | utilities/threading/thread_pool/src/thread_pool.cpp:121-137 | from the moment Suspend returns until a Resume or Stop begins there is such a token for each worker |
| PoolSpec.SuspendBarrier | utilities/threading/thread_pool/src/thread_pool.cpp:121-137 | between Suspend returning and the next Resume or Stop, after any history, no Low or Med task starts and no stop token is taken |
| PoolSpec.StepDecreasesMeasure | utilities/threading/thread_pool/src/thread_pool.cpp:66-83 | inside Stop or SetSize every step but AddCommand lowers an explicit measure |
| PoolSpec.StopTerminates | utilities/threading/thread_pool/src/thread_pool.cpp:66-83 | so a Stop or SetSize with nothing submitted meanwhile takes at most that many steps |
| PoolSpec.NeverStuck | utilities/threading/thread_pool/src/thread_pool.cpp:66-83 | inside Stop or SetSize some step is always enabled |
| PoolSpec.StopDrains | utilities/threading/thread_pool/src/thread_pool.cpp:66-83 | inside a Stop: if no worker is left, only Low commands are queued, unless that was not so when it began |
| PoolSpec.ExitedTookOneToken | utilities/threading/thread_pool/src/thread_pool.cpp:159-177 | a worker takes one stop token to exit and no other; one that had exited before takes none |
| PoolSpec.NothingRuns | utilities/threading/thread_pool/src/thread_pool.cpp:66-83 | with no worker left, a Stop executes nothing and only adds stop tokens |
| PoolSpec.DoneUnlessQueued | utilities/threading/thread_pool/src/thread_pool.cpp:159-177 | with every worker gone, all tasks above Low are done if and only if none is queued |
| PoolSpec.ShutdownDrain | utilities/threading/thread_pool/src/thread_pool.cpp:66-83 | every execution of Stop, of a running or a stopped pool, ends within the measure and never deadlocks; at the end each live worker took exactly one stop token; leftovers are Low, and every task above Low was executed as often as submitted, if and only if some worker was live or none such was queued |
| PoolSpec.SetSizeControls | utilities/threading/thread_pool/src/thread_pool.cpp:99-112 | SetSize stays a resize to n until it returns, and then there are n threads |
| PoolSpec.ResizingLosesNothing | utilities/threading/thread_pool/src/thread_pool.cpp:99-112 | when SetSize(n) returns there are n workers, each task ever submitted is done, running or queued as often as it was submitted, and all workers are live with no stop token queued if and only if no Stop of a stopped pool came before |
| ThreadPools.WPQ.Push | utilities/thread_safe_data_structures/priority_queue/include/wpq.hpp:54-61 | the command joins the queue |
| ThreadPools.WPQ.Pop | utilities/thread_safe_data_structures/priority_queue/include/wpq.hpp:63-71 | removes one command that none queued is above; ties are open |
| ThreadPools.WPQ.IsEmpty | utilities/thread_safe_data_structures/priority_queue/include/wpq.hpp:82-87 | true exactly for an empty queue |
| ThreadPools.ThreadPool.constructor | utilities/threading/thread_pool/src/thread_pool.cpp:51-57 | starts exactly the given number of workers, all waiting, with an empty queue and the flag down |
| ThreadPools.ThreadPool.AddCommand | utilities/threading/thread_pool/src/thread_pool.cpp:87-95 | the task is queued and counted as submitted; nothing else changes |
| ThreadPools.ThreadPool.WorkerStep | utilities/threading/thread_pool/src/thread_pool.cpp:159-177 | one worker step of the machine: pop a maximum, finish a command, or leave the wait |
| ThreadPools.ThreadPool.Work | utilities/threading/thread_pool/src/thread_pool.cpp:159-177 | any number of worker steps keep the counts, the barrier, the drain and every exit |
| ThreadPools.ThreadPool.Suspend | utilities/threading/thread_pool/src/thread_pool.cpp:121-131 | of a running or a stopped pool, with workers running between the pushes: when it returns the barrier stands, and exactly one suspend token was added for each worker |
| ThreadPools.ThreadPool.Resume | utilities/threading/thread_pool/src/thread_pool.cpp:133-137 | of a running or a stopped pool: the flag goes down and nothing else changes |
| ThreadPools.ThreadPool.PushAndJoin | utilities/threading/thread_pool/src/thread_pool.cpp:68-82 | when the joins return every worker has exited; with a live worker only Low commands are left; with none, nothing was executed |
| ThreadPools.ThreadPool.Await | utilities/threading/thread_pool/src/thread_pool.cpp:76-82 | a join returns, whichever workers run meanwhile, and its worker has exited |
| ThreadPools.ThreadPool.Stop | utilities/threading/thread_pool/src/thread_pool.cpp:66-83 | of a running or a stopped pool: all workers exited, the stop tokens left are those pushed for workers already gone, leftovers Low and every task above Low executed if and only if some worker was live or none such was queued |
| ThreadPools.ThreadPool.SetSize | utilities/threading/thread_pool/src/thread_pool.cpp:99-112 | throws exactly on 0 and changes nothing; otherwise n workers, nothing submitted is lost, no suspend token left to block a new worker, and as many stop tokens, queued or taken, as Stops of a stopped pool pushed |
| ThreadPools.ThreadPool.InitThreads | utilities/threading/thread_pool/src/thread_pool.cpp:181-187 | starts n workers, which may run while the others start |
| Wire.BigEndianRoundTrip | services/communication_protocols/tcp/src/TCPDriverComm.cpp:210-213 | an integer that fits the width is read back from its big-endian bytes |
| Wire.BigEndianDigit | services/communication_protocols/tcp/src/TCPDriverComm.cpp:293-296 | byte i of an integer on the wire is its digit of weight 256 to the width - 1 - i: the most significant one comes first |
| Wire.FromBigEndianFirst | services/communication_protocols/tcp/src/TCPDriverComm.cpp:210-213 | what is read: the first byte weighs 256 to the number of bytes behind it |
| Wire.HostDigits | services/local_storage/src/FileMetadataStore.cpp:66-67 | an integer in memory, digit by digit: least significant byte first on a little-endian host, most significant first on a big-endian one |
| Wire.HostRoundTrip | services/local_storage/src/FileMetadataStore.cpp:66-67 | an integer is read back from its bytes in memory, on either byte order |
| Framing.RequestRoundTrip | client.py:122-136 | a request frame is parsed back to exactly the request and payload, and nothing after it is consumed |
| Framing.CutRequestIsTruncated | services/communication_protocols/tcp/src/TCPDriverComm.cpp:193-244 | a request frame cut anywhere is no request |
| Framing.RequestStreamRoundTrip | services/communication_protocols/tcp/src/TCPDriverComm.cpp:193-244 | any list of requests is recovered from the concatenated frames, with neither more nor less consumed |
| Framing.RequestBytes | client.py:122-136 | a request byte by byte: type, handle, offset and length, most significant bytes first, then the payload of a WRITE |
| Framing.ReplyBytes | services/communication_protocols/tcp/src/TCPDriverComm.cpp:263-335 | a reply byte by byte: 0 or 5, the handle, the length, and the payload: of a successful READ or LIST_OFFSETS only; a successful GET_SIZE has the size for length, all others 0 |
| Framing.ReplyRoundTripIff | services/communication_protocols/tcp/src/TCPDriverComm.cpp:263-308 | a reply is read back exactly if and only if its length fits the 32-bit field |
| Framing.ReplyStreamRoundTrip | services/communication_protocols/tcp/src/TCPDriverComm.cpp:246-318 | a reader that knows the request types recovers every status, handle, length and payload, although GET_SIZE puts a value in the length field |
| Streams.Socket.Read | services/communication_protocols/tcp/src/TCPDriverComm.cpp:153-163 | read delivers any non-empty part of what is still to arrive, and nothing at the end |
| Streams.Socket.Write | services/communication_protocols/tcp/src/TCPDriverComm.cpp:177-187 | write takes any non-empty part while the connection lasts |
| Streams.InFile.Read | services/communication_protocols/tcp/src/TCPDriverComm.cpp:439-450 | a read past the end delivers what there is and clears good() |
| TcpDriver.ReadAll | services/communication_protocols/tcp/src/TCPDriverComm.cpp:145-167 | however reads split the bytes, exactly count bytes in order; it throws if and only if fewer arrive |
| TcpDriver.WriteAll | services/communication_protocols/tcp/src/TCPDriverComm.cpp:169-191 | however writes split them, the bytes go out in order, all of them unless the connection ends, and then a prefix |
| TcpDriver.TCPDriverComm.constructor | services/communication_protocols/tcp/src/TCPDriverComm.cpp:64-66 | starts from the payloads an earlier session saved |
| TcpDriver.TCPDriverComm.ReceiveRequest | services/communication_protocols/tcp/src/TCPDriverComm.cpp:193-244 | consumes one frame and yields its request; throws if and only if the frame is incomplete, then without a trace; a WRITE appends its payload to the allocations and saves them |
| TcpDriver.ReceiveRequests | services/communication_protocols/tcp/src/TCPDriverComm.cpp:193-244 | called once per request, it recovers exactly the requests the client wrote, however reads split them, and leaves what follows; each offset has what it had and then the payloads of the WRITEs there in arrival order, and after complete saves a later session loads just that |
| TcpDriver.TCPDriverComm.UpdateAllocation | services/communication_protocols/tcp/src/TCPDriverComm.cpp:345-351 | the payload is appended to what the offset has |
| TcpDriver.TCPDriverComm.SendReply | services/communication_protocols/tcp/src/TCPDriverComm.cpp:246-336 | sends the reply frame of the request, or the prefix of it that the connection takes; nothing for an invalid descriptor |
| TcpDriver.TCPDriverComm.SendFrame | services/communication_protocols/tcp/src/TCPDriverComm.cpp:302-335 | header then payload as one frame, dropping the rest when the connection ends |
| TcpDriver.TCPDriverComm.SaveAllocations | services/communication_protocols/tcp/src/TCPDriverComm.cpp:398-421 | the file becomes the records of the map in key order, or the part of them written before the save is cut off; unchanged if it does not open |
| TcpDriver.TCPDriverComm.LoadAllocations | services/communication_protocols/tcp/src/TCPDriverComm.cpp:423-458 | the loop over the stream yields what the record reader makes of the file |
| TcpDriver.TCPDriverComm.LoadRecord | services/communication_protocols/tcp/src/TCPDriverComm.cpp:438-453 | one turn takes one record, or ends the loop |
| AllocationFile.SaveThenLoad | services/communication_protocols/tcp/src/TCPDriverComm.cpp:398-458 | loading a saved allocation file gives the map |
| AllocationFile.RecordAt | services/communication_protocols/tcp/src/TCPDriverComm.cpp:409-420 | a saved file byte by byte: record after record, the offset, the payload length and the payload |
| AllocationFile.LoadMany | services/communication_protocols/tcp/src/TCPDriverComm.cpp:436-454 | complete records at the front of any file are inserted in order before what follows |
| AllocationFile.LoadTruncated | services/communication_protocols/tcp/src/TCPDriverComm.cpp:436-454 | on a cut file: complete records as they were, a record cut in its payload padded with zeros, one cut in its header dropped |
| AllocationFile.SavedFileTruncated | services/communication_protocols/tcp/src/TCPDriverComm.cpp:398-458 | the same key by key for any saved map cut to any length: which offsets are found, and with which bytes |
| MetadataFile.FileMetadataStore.Load | services/local_storage/src/FileMetadataStore.cpp:17-51 | empty without a file; otherwise what the entry reader makes of the bytes |
| MetadataFile.FileMetadataStore.Save | services/local_storage/src/FileMetadataStore.cpp:53-73 | the file becomes the 16-byte entries of the map in key order, or the part of them written before the save is cut off; unchanged if it does not open |
| MetadataFile.FileMetadataStore.Clear | services/local_storage/src/FileMetadataStore.cpp:75-84 | there is no file afterwards |
| MetadataFile.SaveThenLoad | services/local_storage/src/FileMetadataStore.cpp:17-73 | loading a saved index gives the index |
| MetadataFile.EntryAt | services/local_storage/src/FileMetadataStore.cpp:63-70 | a saved index byte by byte: entry i starts at 16 i, the offset and then the size |
| MetadataFile.LoadTruncated | services/local_storage/src/FileMetadataStore.cpp:36-46 | a file cut to 16k+r bytes gives the first k entries in key order if r is below 8, and the empty index otherwise |
| MetadataFile.LoadCut | services/local_storage/src/FileMetadataStore.cpp:36-70 | the same for a saved index cut to any number of bytes: the entries that fit whole, or nothing if the cut is inside a size |
| MetadataFile.TruncationKeepsPrefixIff | services/local_storage/src/FileMetadataStore.cpp:36-46 | the entries before a cut survive if and only if the cut is not inside a size or there are none |
| Requests.DriverData.constructor | services/communication_protocols/nbd/src/DriverData.cpp:7-12 | a new request has status SUCCESS and a zeroed buffer of its length |
| Requests.AnsweredTypes | services/communication_protocols/nbd/include/DriverData.hpp:20-29 | of the numbers on the wire 0 to 6 have handlers, and 0, 1, 3, 4, 5 and 6 are answered |
| Mediator.InputMediator.constructor | services/mediator/src/InputMediator.cpp:28-36 | a mediator with no request received |
| Mediator.InputMediator.HandleRead | services/mediator/src/InputMediator.cpp:40-43 | the storage's read, then one SendReply of the request as it is then |
| Mediator.InputMediator.HandleWrite | services/mediator/src/InputMediator.cpp:45-48 | the storage's write, then one SendReply |
| Mediator.InputMediator.HandleNothing | services/mediator/src/InputMediator.cpp:50-58 | FLUSH and TRIM: success and one SendReply, nothing else |
| Mediator.InputMediator.HandleGetSize | services/mediator/src/InputMediator.cpp:64-68 | the recorded size goes into the length, then one SendReply |
| Mediator.InputMediator.HandleListOffsets | services/mediator/src/InputMediator.cpp:70-93 | the encoded index goes into the buffer, then one SendReply |
| Mediator.InputMediator.Execute | services/mediator/src/InputMediator.cpp:38-94 | each type does its storage call and no other; exactly one SendReply with the request's handle for answered types, sending that request's reply frame; none for DISCONNECT; unknown types throw and change nothing |
| Mediator.InputMediator.ListOffsets | services/mediator/src/InputMediator.cpp:70-93 | the buffer is the big-endian list of the index entries in key order, and the length its size |
| Mediator.InputMediator.Notify | services/mediator/src/InputMediator.cpp:96-126 | a new client is watched; a complete frame becomes one Med command for its request, and the payload of a WRITE an allocation; an incomplete one queues nothing and the descriptor is no longer watched |
| MediatorRuns.RunKeepsAccount | services/mediator/src/InputMediator.cpp:96-126 | over any run: one task per received request, and replies to a request equal the executions of its task if its type is answered |
| MediatorRuns.NeverTwoReplies | services/mediator/src/InputMediator.cpp:38-126 | at no point of any run has a request been answered twice |
| MediatorRuns.OneReplyPerRequest | services/mediator/src/InputMediator.cpp:38-126 | when Stop has returned, some worker having been live or no request queued when it began and nothing having arrived since, each received request of type 0, 1, 3, 4, 5 or 6 had exactly one reply and every other none |
| MediatorRuns.IdleIsAllAnswered | services/mediator/src/InputMediator.cpp:96-126 | without any Stop: whenever the workers have nothing left to do and the flag is down, the same holds of every request received so far |
| Client.DecodePrefix | client.py:70-75 | from any prefix of the offset list the client learns exactly the keys of the complete pairs, in order |
| Client.PayloadAt | services/mediator/src/InputMediator.cpp:70-93 | the offset list byte by byte: entry i starts at 16 i, the offset and then the size, most significant bytes first |
| Client.BlockDeviceClient.constructor | client.py:21-27 | a new client knows no offset |
| Client.BlockDeviceClient.DiscoverOffsets | client.py:58-83 | sends one LIST_OFFSETS frame; after a whole header of success it takes what one recv of the length brings, and then knows what it knew and what those bytes list, ascending and without repeats |
| Client.BlockDeviceClient.AddOffsets | client.py:71-76 | the loop and the sort leave the union, ascending and without repeats |
| Client.BlockDeviceClient.RecvReply | client.py:138-149 | one recv of 16 bytes: the header fields, or nothing if fewer arrive, which are gone |
| Client.BlockDeviceClient.RecvPayload | client.py:151-157 | one recv: some prefix of what is still to arrive, no longer than asked for |
| Client.BlockDeviceClient.ReceiveReplies | client.py:138-157 | called once per reply, it takes from the connection what its recvs were given and makes of it the specified answers |
| Client.ReplyReadIff | client.py:138-157 | a reply is recovered if and only if its one or two recvs deliver in full, and then nothing of it is left |
| Client.RepliesReadIff | client.py:138-157 | a list of replies is recovered if and only if every recv delivers in full, and then exactly the bytes behind them are left |
| Client.ShortHeader | client.py:141-143 | a first recv of one byte: no reply is reported, and the rest of the header is left to be taken for the next one |
| Recovery.DiscoveryIsSound | services/mediator/src/InputMediator.cpp:70-93 | after any run without write faults from an empty index, whatever its reads met, the reply decodes at the client to exactly the index keys, ascending, and each reads back in full |
| Recovery.WholePayload | client.py:70-76 | the whole offset list decodes to the keys of the index, ascending and without repeats |
| Recovery.StepSaves | services/local_storage/src/RAIDManager.cpp:174-179 | after a call a restarting server loads what its save kept of the new index if the save opened the file, and otherwise what it would have loaded before |
| Recovery.RestartFindsSavePoint | services/local_storage/src/RAIDManager.cpp:174-184 | after any run under any faults, a restarted server loads what the last save that opened the file kept of the index of that moment: all of it, or the entries before the cut, or none |
| Recovery.RestartFindsIndexIff | services/local_storage/src/FileMetadataStore.cpp:53-73 | that is the index at the end if and only if, at each offset, the last successful write since then wrote the size that save kept, or there was none and the save kept what was recorded |
| Recovery.RestartFindsIndex | services/local_storage/src/RAIDManager.cpp:43-47 | if every save is complete, the loaded index is the index at the end |
| Recovery.LostSave | services/local_storage/src/RAIDManager.cpp:174-184 | a write whose save does not open reports success, and a restarted server does not know its offset |
| Recovery.CutSaveForgetsAll | services/local_storage/src/FileMetadataStore.cpp:57-70 | a write whose save is cut off inside a size reports success, and a restarted server knows no offset at all, those saved before included |
| Serving.ExecuteOne | services/mediator/src/InputMediator.cpp:38-94 | executing a request changes the storage, and sends, as the flat storage replies, when nothing it needs fails |
| Serving.Work | utilities/threading/thread_pool/src/thread_pool.cpp:159-177 | a worker that takes the only command executes the request the command was made for |
| Serving.ServeOne | services/mediator/src/InputMediator.cpp:107-118 | from a complete frame on the connection to its reply: Notify, one pop, one execution |
| Serving.Serve | services/mediator/src/InputMediator.cpp:96-126 | any list of requests, one at a time: the storage goes through the states of the flat storage, the bytes sent are its replies, as far as the connection takes them, and the payloads of the WRITEs are appended to the allocations in order |
| Serving.StateAfter | services/local_storage/src/RAIDManager.cpp:133-192 | the flat storage after a list of requests, by the list: each byte is that of the last WRITE covering it, each size that of the last WRITE at the offset that ended within the capacity |
| Serving.AnswerByType | services/mediator/src/InputMediator.cpp:38-94 | the answer to each type: an in-range READ the stored bytes, any other READ failure without payload, GET_SIZE the recorded size or 0, LIST_OFFSETS the list, WRITE, FLUSH and TRIM length 0, DISCONNECT and unknown types nothing |
| Serving.ReadAfter | services/mediator/src/InputMediator.cpp:40-48 | after any served requests, an in-range READ is answered with the bytes of the last WRITEs before it |
| Serving.SizeAfter | services/mediator/src/InputMediator.cpp:64-68 | after any served requests, GET_SIZE is answered with the length of the last WRITE at its offset that ended within the capacity |
| Serving.RepliesFit | services/communication_protocols/tcp/src/TCPDriverComm.cpp:263-296 | all lengths fit the 32-bit field while sizes and the offset list are below 2^32, and the replies are those of the answered requests in order |
| Serving.ReaderReadsFlatAnswers | services/communication_protocols/tcp/src/TCPDriverComm.cpp:246-318 | a reader that takes each reply whole and knows what it asked gets from those bytes exactly the answers of the flat storage |
| Serving.ClientReadsFlatAnswersIff | client.py:138-157 | the client, with one recv for each part, gets exactly those answers if and only if every recv delivers in full |
| Startup.CreateMinions | services/local_storage/src/StorageFactory.cpp:14-63 | one minion of the given size for each image, with a buffer of its own; throws on none |
| Startup.Launch | app/LDS.cpp:55-75 | the server refuses no minion or an odd number; otherwise, with new minions and an empty store, it is one zeroed array and its workers wait |
| Startup.Session | app/LDS.cpp:93-110 | a server that has just started answers a list of requests as a flat zeroed array |

## Left out

- Minions.StorageMinionFile.constructor: reads of an image file shorter than its minion are among the failing reads, not tied to the file's length.
- MachineArithmetic.MachineWriteIsWriteIff: for memory minions and the storage's own arithmetic; a file minion hands the wrapped offset to pwrite, which is not modelled. The primaries and one more minion must have fewer than 2^64 bytes.
- Local.LocalStorage.Read: offset plus length is added without bound here and in the comparison with RAIDStorage; `MachineArithmetic.LocalCheckIsRightIff` says exactly when the 64-bit check differs.
- Local.LocalStorage.Write: the same.
- ConcurrentSaves.SavesAgreeIff: for saves that are complete or do not open; with saves that are cut off, `SnapshotsAgreeIff` says when the snapshots agree, by the bytes each possible last save leaves.
- ConcurrentReads.NewThenOldIff: no Write steps between the two Reads; that they may is covered by `ReadAmongWrites`.
- Startup.Session: one accepted connection, requests one at a time, no failing calls; `Serving.Serve` lets read calls fail.
- ThreadPools.ThreadPool.Stop: the workers run between the controller's steps, not inside one; arbitrary interleavings are the executions of `PoolSpec`.
- ThreadPools.ThreadPool.SetSize: that no task is lost is the conservation part of `Valid()`; commands added by other threads during the call are covered by `PoolSpec.ResizingLosesNothing` only.
- Mediator.InputMediator.Execute: the storage is a `RAIDStorage`, as the server builds it; over a `LocalStorage` an out-of-range request would throw in its handler and get no reply.
- MediatorRuns.OneReplyPerRequest: counts SendReply calls; whether the bytes arrive is the client's connection, and pipelined replies of several workers on one descriptor, or a descriptor reused after a disconnect, have no guarantee in the code.
- Recovery.DiscoveryIsSound: needs the offset list below 2^32 bytes, the width of the length field.
- Client.BlockDeviceClient.ReceiveReplies: the client asks for each reply after sending its request; here the replies are read one after another.
- Serving.Serve: one request at a time and no write fault; several in flight are the subject of `ConcurrentWrites` and `MediatorRuns`.
- Client.BlockDeviceClient.AddOffsets: Python's in-place sort is the ascending list of the elements.
- `ForceStop`, the null check of `AddCommand`, and the destruction order in `RunServer` (app/LDS.cpp:59-61): the theorems are about `Stop` with the mediator alive.
- Lost wake-ups and the memory model of `m_suspend_flag`.
- The binary heap in `std::priority_queue` and the tree in `std::map`: a multiset with a maximum, and a map visited in key order.
- The per-minion `m_offset_sizes`, `m_client_writes` and the older `StorageMinion` class: nothing in the modelled paths reads them.
- Sockets, epoll, the NBD driver, inotify, dlopen, fork, signals and the watchdog: operating-system plumbing.
- Accepting connections, the record of client addresses, and receive timeouts.
- Logger, singleton, factory, observer, plugins, argument parsing, the client's menu and its reconnect loop.
