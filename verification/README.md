# Verified model of the study set's stateful pieces

Dafny models of the self-contained components of this C++ repository, with proofs of what
they are for. `dafny verify dfyconfig.toml` checks everything.

- **The shared-memory record ring** (`RingLayout`, `ShareMemoryRing`). Records of varying
  size lie in a flat byte segment that is written and read in laps. No marker says where a
  lap ends: the reader finds out by a header of zeros, or by standing too close to the end
  of the segment. `RingLayout` has the positions and the two laps as values, with `Write`
  and `Read` as one call of `writeData` and `readData`; `ShareMemory` is the class over the
  bytes, each of whose methods is proved to leave bytes and positions that follow them. The
  theorems are about every run of accepted and refused calls: the ring is a FIFO queue, it
  refuses a read exactly when it is empty, and it never locks up.
- **The thread pool** (`ThreadPool`, `JobList`). A transition system with one step per
  action of a thread on the mutex, the condition variable or the job list, under every
  interleaving, with spurious wake-ups and signals that wake more than one thread; and the
  two list macros over heap nodes. No wake-up is lost and no job is lost or run twice. The
  queue is a stack: a worker takes the job submitted last of those queued.
  Every run, whatever its calls and spurious wake-ups, is bounded in length by them, and
  wherever it stops some thread can go on by itself, or every submitted job has been run.
  What the threads are free to do is stated as well: submissions need no worker.
- **The prime search** (`Prime`). The unbounded outer loop ends because there is always a
  next prime; the odd trial divisors up to the square root decide primality.
- **The min-heap** (`MinHeap`). `refactor` looks one slot past the live part; the slot it
  sees there holds the very value being sifted and is never selected.
- **The hash index** (`HashTable`, `HashIndex`). Buckets of ordered maps, searched by a byte
  comparison, behave as one flat map whatever the hash. A scan visits each entry once; of
  the entries inserted while it is under way it visits exactly those that come ahead of it.
- **The failover loop** (`HeartBeat`). Retry counter, error flag and role are functions of
  the history of probes. The role never disagrees with the history at the loop's pause; the
  network interfaces can, and it is proved exactly when.
- **The sorts** (`Sorting`), **the two connection tables** (`ChatTable`, `SelectTable`) and
  **list reversal** (`ReverseList`). Bubble sort, selection sort and quicksort are proved
  against one function; quicksort's partition ends exactly when the pivot's value is unique.

Where the code falls short of what it is used for, the model keeps the code:
`JudgePrime` is wrong below 3, a refused write to the ring gives up the tail of the segment,
quicksort does not end on repeated values, and a takeover that cannot count processes leaves
the interfaces up. Each has an if-and-only-if below and an input that shows it:
`Prime.JudgePrime` gives its results below 3, and `RingLayout.TailCanBeLost`,
`Sorting.EqualPairRunsForever` and `HeartBeat.NicsCanStayUp` are the other inputs.
`TVecCharCmp` is no such case: it takes one key for another exactly when one is a prefix of
the other, and all keys of one index have one length.

## Model

| member | source | states |
|---|---|---|
| RingLayout.HeadRoundTrip | wzq_project/src/component/shm.h:42-46 | the two ints of a record header survive being stored as little-endian bytes, negative values included |
| RingLayout.RecordBytes | wzq_project/src/component/shm.cpp:216-217 | where the flag, the size and the payload lie among a record's bytes, the ints least byte first |
| RingLayout.StoredRecordReadsBack | wzq_project/src/component/shm.cpp:216-217 | the bytes `writeData` copies in are read by `readData` as the same flag, size and payload |
| RingLayout.ZeroHeadMarksLapEnd | wzq_project/src/component/shm.cpp:273-290 | when every byte outside live records is zero, the test on the bytes at the reader passes exactly when its lap has a record left |
| RingLayout.GuardsTellDirection | wzq_project/src/component/shm.cpp:241-293 | the comparisons of positions tell the lap direction, and whether there is anything to read on one lap |
| RingLayout.TurnsKeepBytes | wzq_project/src/component/shm.cpp:249-289 | moving the writer or the reader to the next lap keeps the invariant with no byte changed |
| RingLayout.AppendBytes | wzq_project/src/component/shm.cpp:216-218 | an accepted write overwrites only zero bytes and leaves the records and zeros of the next state |
| RingLayout.RemoveBytes | wzq_project/src/component/shm.cpp:178-181 | clearing the record just read leaves the records and zeros of the next state |
| RingLayout.WriteRefinesEnqueue | wzq_project/src/component/shm.cpp:238-267 | a write is accepted exactly when the record fits at the writer or, from the lead of the same lap, before the reader; it then joins the end of the queue, and a refusal leaves the queue as it was |
| RingLayout.ReadRefinesDequeue | wzq_project/src/component/shm.cpp:268-301 | a read is refused exactly on the empty queue and otherwise returns its oldest record |
| RingLayout.WriteLeavesRoom | wzq_project/src/component/shm.cpp:218-266 | the reader stays where it is, and which sizes fit next, in positions: an accepted record takes its own bytes and no more, and the tail is given up only to a record that does not fit there |
| RingLayout.ReadGivesRoom | wzq_project/src/component/shm.cpp:181-300 | the writer stays where it is, and which sizes fit next: a read gives back the bytes of its record, and the tail counts again once the reader has come round |
| RingLayout.WritesFillTheTail | wzq_project/src/component/shm.cpp:200-235 | over every run: while the records offered have room behind the writer side by side, each is accepted and the writer stands behind the last, whatever is read in between |
| RingLayout.FreshRunAcceptsAll | wzq_project/src/component/shm.cpp:121-235 | from a fresh segment, a run accepts every record as long as all offered together fit the data area |
| RingLayout.LapIsUnique | wzq_project/src/component/shm.cpp:273-279 | only one sequence of records can lie in a lap's bytes up to the zeros that end it |
| RingLayout.SegmentDeterminesQueue | wzq_project/src/component/shm.cpp:143-152 | control block and bytes alone determine the queued records, for any process that attaches |
| RingLayout.RunIsFifo | wzq_project/src/component/shm.cpp:163-235 | conservation over every run of accepted and refused calls from any well-formed state, with the invariant kept |
| RingLayout.FreshRunIsFifo | wzq_project/src/component/shm.cpp:121-235 | from a fresh segment, what was read is a prefix of what was accepted and the rest is still in the ring |
| RingLayout.DrainingReadsSucceed | wzq_project/src/component/shm.cpp:163-198 | as many reads as there are records all succeed and empty the ring |
| RingLayout.EmptyRingAccepts | wzq_project/src/component/shm.cpp:241-291 | on an empty ring a record no larger than the data area is accepted at once or after one refused write and one refused read; a larger one never is |
| RingLayout.NeverLocksUp | wzq_project/src/component/shm.cpp:238-301 | from every reachable state, draining and those two refusals make room for a record exactly when the data area can hold it |
| RingLayout.RefusalGivesUpTail | wzq_project/src/component/shm.cpp:247-251 | exactly when a record that would have been accepted is refused because a larger one was refused before it |
| RingLayout.TailCanBeLost | wzq_project/src/component/shm.cpp:247-251 | such a loss after the first write to a segment of 64 bytes |
| ShareMemoryRing.ShareMemory.Init | wzq_project/src/component/shm.cpp:121-161 | the first attach makes an empty ring of the zeroed segment, a later one changes nothing |
| ShareMemoryRing.ShareMemory.JudgeWrite | wzq_project/src/component/shm.cpp:238-267 | the position test follows the layout's, keeps the bytes and the invariant |
| ShareMemoryRing.ShareMemory.JudgeRead | wzq_project/src/component/shm.cpp:268-301 | deciding from the bytes alone agrees with the records actually there |
| ShareMemoryRing.ShareMemory.WriteData | wzq_project/src/component/shm.cpp:200-235 | the bytes and positions follow the queue operation, refused or not, whose room is stated by WriteLeavesRoom |
| ShareMemoryRing.ShareMemory.ReadData | wzq_project/src/component/shm.cpp:163-198 | returns the flag, size and payload of the oldest record, and the bytes follow |
| JobList.List.Add | temp/pthread_pool.cpp:14-19 | the node becomes first and every link agrees with the new sequence, which is the step the pool takes |
| JobList.List.Remove | temp/pthread_pool.cpp:21-26 | any member leaves a well-linked rest in order, and is itself unlinked |
| JobList.List.TakeFirst | temp/pthread_pool.cpp:78-79 | the head goes and the rest stays, which is the step the pool takes |
| JobList.LinksDetermineNodes | temp/pthread_pool.cpp:28-35 | following `next` to its end visits exactly the members in order |
| ThreadPool.StepKeepsMutex | temp/pthread_pool.cpp:64-81 | every step keeps exactly the owner of the mutex inside a critical section |
| ThreadPool.StepKeepsWake | temp/pthread_pool.cpp:62-85 | every step keeps at most one queued job per worker on its way to the queue, plus one signal owed, while any worker sleeps |
| ThreadPool.StepKeepsJob | temp/pthread_pool.cpp:78-83 | every step keeps each job counted once among queued, taken and called, and called jobs split into running and finished |
| ThreadPool.RunKeepsInv | temp/pthread_pool.cpp:58-137 | all of this over every run |
| ThreadPool.NoLostWakeup | temp/pthread_pool.cpp:62-85 | with the mutex free, if a worker sleeps the queue is no longer than the workers on their way to it, and a non-empty queue has a worker awake |
| ThreadPool.JobsAreConserved | temp/pthread_pool.cpp:131-137 | after any run each submitted job is in exactly one place and its callback was entered at most once |
| ThreadPool.StepKeepsOrder | temp/pthread_pool.cpp:14-26 | every step keeps the queue, from its head, a selection of the submitted jobs from the latest back |
| ThreadPool.TakesTheLatest | temp/pthread_pool.cpp:78-79 | in every reachable state the job a worker takes is the one submitted last of all that are queued |
| ThreadPool.AnyPoolStarts | temp/pthread_pool.cpp:95-127 | a pool may have any positive number of workers, and any number of threads may submit to it |
| ThreadPool.SubmissionsNeedNoWorker | temp/pthread_pool.cpp:131-137 | a thread can submit any new jobs in a row, four steps each, with no worker taking part and no limit to the queue, and they stand there in reverse |
| ThreadPool.WorkerServesAlone | temp/pthread_pool.cpp:64-83 | any worker awake can, with the mutex free, take the head, run it and come back, nobody else changing |
| ThreadPool.SleepAndWake | temp/pthread_pool.cpp:62-71 | an empty queue sends a worker to sleep with the mutex given back; sleepers may wake without a signal, and a signal may wake any of them |
| ThreadPool.WorkerStepCounts | temp/pthread_pool.cpp:62-85 | a step a worker takes of its own brings the pool one step nearer to rest |
| ThreadPool.WorkersCanMove | temp/pthread_pool.cpp:64-84 | short of rest, and with no submission in progress, some worker can take a step |
| ThreadPool.StepWithinAllowance | temp/pthread_pool.cpp:62-137 | every step of any thread lowers the work still to do, calls under way included, but for a new call or a spurious wake-up, which add a fixed amount |
| ThreadPool.RunWithinBudget | temp/pthread_pool.cpp:62-137 | so a run is no longer than the work at its start and what its calls and spurious wake-ups add |
| ThreadPool.CallCanMove | temp/pthread_pool.cpp:131-137 | a call under way can always take its next step |
| ThreadPool.EveryRunFinishes | temp/pthread_pool.cpp:58-137 | every run from the start is bounded by its calls and spurious wake-ups, and where it stops a worker or a call under way can go on, or no call is under way and every submitted job has been run |
| ThreadPool.EveryScheduleDrainsTheQueue | temp/pthread_pool.cpp:58-91 | from every reachable state with no submission in progress, every schedule of the workers runs exactly the steps left, never getting stuck, and ends with every submitted job finished |
| Prime.PrimeAbove | temp/prime.cpp:17-29 | there is a prime above every number, so the search ends |
| Prime.OddTrialSuffices | temp/prime.cpp:19-28 | an odd number with no odd divisor from 3 up to its integer square root is prime |
| Prime.NextCandidate | temp/prime.cpp:17-28 | a candidate that is ruled out is no prime, nor is the even number after it, and the least prime is still ahead |
| Prime.JudgePrime | temp/prime.cpp:10-31 | ends for every number, and returns the least prime not below it exactly from 3 on |
| MinHeap.BubbleStep | wzq_study/minHeap.h:56-62 | a turn of the upward loop keeps the order elsewhere, also when it goes on without a swap |
| MinHeap.ChosenChild | wzq_study/minHeap.h:123-142 | with a stale slot equal to the sifted value, the slot is never chosen and the smaller live child restores the order |
| MinHeap.DropRoot | wzq_study/minHeap.h:67-75 | the root is a minimum, and moving the last item there removes it once and leaves one place out of order |
| MinHeap.MinHeap.Reserver | wzq_study/minHeap.h:96-120 | room for one more item with the contents kept |
| MinHeap.MinHeap.AddItem | wzq_study/minHeap.h:45-63 | a heap again, with the value added once |
| MinHeap.MinHeap.Refactor | wzq_study/minHeap.h:121-143 | a heap again, the same items, the slot past the end untouched |
| MinHeap.MinHeap.TopItem | wzq_study/minHeap.h:64-78 | returns a minimum, removes one occurrence of it and leaves a heap |
| MinHeap.AddAllThenDrain | wzq_study/minHeap.h:146-169 | values added one by one and drained come out as their sorted permutation |
| HashTable.IncomparableIffPrefix | wzq_project/src/component/hash.h:91-99 | two keys compare as equal exactly when one is a prefix of the other |
| HashTable.LessIsBytewise | wzq_project/src/component/hash.h:91-99 | a key comes before another exactly when it has the smaller byte at the first place where they differ |
| HashTable.TellsApartIffPrefixFree | wzq_project/src/component/hash.h:91-99 | over any set of keys: the comparison tells every two of them apart if and only if none is a prefix of another |
| HashTable.OneLengthTellsApart | wzq_project/src/component/hash.h:170-202 | the keys an index builds, all of one length, are told apart |
| HashTable.MapFindIsLookup | wzq_project/src/component/hash.h:174-184 | searching by the comparison finds a value exactly when the entry is stored |
| HashTable.MapInsertKeepsOrder | wzq_project/src/component/hash.h:212-212 | insertion keeps keys strictly increasing |
| HashTable.InsertThenFind | wzq_project/src/component/hash.h:189-213 | insertion adds its entry when the key is new and otherwise changes no answer |
| HashTable.FindReturnsFirstInsert | wzq_project/src/component/hash.h:158-213 | after any run of insertions a key has the value first inserted with it, for every hash and table size |
| HashTable.NextTakesFirst | wzq_project/src/component/hash.h:224-244 | the next entry, over any run of empty buckets, is the first of those left, and the rest stay left |
| HashTable.ScanVisitsEachEntryOnce | wzq_project/src/component/hash.h:215-244 | the entries of a full scan have distinct keys and are exactly those `Find` returns |
| HashTable.ScanIsInOrder | wzq_project/src/component/hash.h:215-244 | of two entries of a full scan the earlier is in a smaller bucket `hash % size`, or in the same one with the bytewise smaller key |
| HashTable.InsertKeepsCursor | wzq_project/src/component/hash.h:189-213 | an insertion leaves the iterators of a scan in place; nothing left to visit is lost, and the new entry joins exactly when its bucket is a later one or its place in the same bucket is not before the iterator |
| HashTable.ScanSurvivesInserts | wzq_project/src/component/hash.h:189-244 | in every run of visits and insertions no key is visited twice, what is visited is stored, and once the scan has run out all entries present at its start have been visited |
| HashTable.ScanMeetsWhatComesAhead | wzq_project/src/component/hash.h:189-244 | of the entries inserted during a scan, one that has run out has visited exactly those whose place was ahead of it when they came |
| HashTable.ScanRunsOut | wzq_project/src/component/hash.h:224-244 | a scan has run out after one call of Next more than there are entries left |
| HashIndex.CIndex.Insert | wzq_project/src/component/hash.h:189-213 | the table changes as one insertion of the copied key and value bytes, and a scan under way stays where it stands |
| HashIndex.CIndex.Find | wzq_project/src/component/hash.h:158-187 | returns the table's answer for the first bytes of the key |
| HashIndex.CIndex.Scan | wzq_project/src/component/hash.h:215-222 | the cursor has every entry still to visit |
| HashIndex.CIndex.Next | wzq_project/src/component/hash.h:224-244 | yields the next entry over any run of empty buckets, or nothing exactly when none is left |
| HashIndex.CIndex.CollectAll | wzq_project/src/component/hash.h:215-244 | Scan and Next to exhaustion yield the values of exactly the entries `Find` knows, by bucket number and in a bucket by the bytes of the keys, the smaller first |
| HashIndex.CHash.BuildIndex | wzq_project/src/component/hash.h:282-322 | refuses an occupied slot, otherwise adds an empty index and keeps all others |
| HashIndex.CHash.Insert | wzq_project/src/component/hash.h:325-342 | an index that does not exist is reported; otherwise only the named one changes, by one insertion |
| HashIndex.CHash.Find | wzq_project/src/component/hash.h:345-362 | the three outcomes: no such index, key found with its value, key not found |
| HashIndex.CHash.Scan | wzq_project/src/component/hash.h:365-378 | starts a scan of index 0, if there is one |
| HashIndex.CHash.Next | wzq_project/src/component/hash.h:380-393 | continues the scan of index 0 |
| HeartBeat.ProbeLinks | teleHeartBeat/HeartBeat.cpp:312-338 | the inner loop ends within `RetryTimes` + 1 rounds |
| HeartBeat.ChangeRole | teleHeartBeat/HeartBeat.cpp:340-396 | role, interfaces and commands after a decision, failed process count included, as CommandsAreHistory tells them from the history |
| HeartBeat.RunAsClient | teleHeartBeat/HeartBeat.cpp:297-399 | the nested loops follow the history round by round |
| HeartBeat.StreakIsUnanswered | teleHeartBeat/HeartBeat.cpp:314-324 | the streak, by the links: its rounds had no answer on either, and the round before it had one on one of them |
| HeartBeat.RetryTimesIsStreak | teleHeartBeat/HeartBeat.cpp:318-324 | the counter is always the number of unanswered rounds in a row |
| HeartBeat.RoleIsHistory | teleHeartBeat/HeartBeat.cpp:310-397 | the node is the backup exactly when the current streak passed the threshold in a round whose processes could be counted |
| HeartBeat.RoleAtRest | teleHeartBeat/HeartBeat.cpp:396-396 | whenever the pause is reached, the role is backup exactly when the streak exceeds `RetryTimes` |
| HeartBeat.InnerLoopEnds | teleHeartBeat/HeartBeat.cpp:312-338 | among any `RetryTimes` + 1 rounds in a row one ends the inner loop |
| HeartBeat.MovesAlternate | teleHeartBeat/HeartBeat.cpp:340-394 | completed takeovers and hand-backs strictly alternate, and the last tells the role |
| HeartBeat.CommandsAreHistory | teleHeartBeat/HeartBeat.cpp:312-396 | every command of every round, from probes and counts alone: the manager is started only in a takeover that counts none, and brought back quickly in each hand-back |
| HeartBeat.CommandsCounted | teleHeartBeat/HeartBeat.cpp:340-377 | over every history the interfaces go up once for each attempt, the manager is started once for each attempt that counts no process, and the takeovers are the attempts that could count |
| HeartBeat.CommandsInPlace | teleHeartBeat/HeartBeat.cpp:342-394 | a start stands directly between its interfaces going up and its takeover, and a hand-back directly behind the interfaces going down and the quick restart |
| HeartBeat.NicsFollowLog | teleHeartBeat/HeartBeat.cpp:342-388 | the interfaces are up exactly when the last command to them was to go up |
| HeartBeat.NicsFollowRole | teleHeartBeat/HeartBeat.cpp:342-364 | the interfaces are up exactly in the backup role if and only if the latest takeover attempt could count processes |
| HeartBeat.NicsCanStayUp | teleHeartBeat/HeartBeat.cpp:353-364 | a two-round history that rests in the main role with the interfaces up |
| Sorting.SortIsUnique | wzq_study/sort.cpp:12-73 | the specification: the one sorted rearrangement, so the three routines agree |
| Sorting.BubbleSort | wzq_study/sort.cpp:12-33 | sorts |
| Sorting.SelectionSort | wzq_study/sort.cpp:35-61 | sorts |
| Sorting.RoundKeepsCells | wzq_study/sort.cpp:91-94 | a round of the partition loses no value once the pivot fills the hole |
| Sorting.RoundProgresses | wzq_study/sort.cpp:89-95 | with a unique pivot a round keeps the sides apart and brings the indices closer |
| Sorting.TwinRunsForever | wzq_study/sort.cpp:89-95 | with the pivot's value twice in the range no number of rounds ends the loop |
| Sorting.PartitionStopsIffPivotOnce | wzq_study/sort.cpp:86-99 | the partition ends exactly when the pivot's value occurs once in the range |
| Sorting.PartitionSplits | wzq_study/sort.cpp:86-99 | the pivot ends between the smaller and the greater values of the range, the rest of the array untouched |
| Sorting.SortStopsIffDistinct | wzq_study/sort.cpp:75-84 | the recursion ends exactly when no value occurs twice |
| Sorting.SortStopsFrame | wzq_study/sort.cpp:75-84 | whether the sort of a range ends depends on that range alone |
| Sorting.LeftSortKeepsStops | wzq_study/sort.cpp:80-82 | sorting the left side does not change whether the right one can be sorted |
| Sorting.EqualPairRunsForever | wzq_study/sort.cpp:75-99 | two equal values are never sorted |
| Sorting.MyPartition | wzq_study/sort.cpp:86-99 | the loops over the array compute that partition |
| Sorting.MyQuickSort | wzq_study/sort.cpp:75-84 | the slice ends up sorted, the rest as it was |
| Sorting.QuickSort | wzq_study/sort.cpp:64-73 | sorts arrays of distinct values |
| ChatTable.RemoveAtKeeps | socket/network/poll_chat_server.cpp:121-125 | the last entry takes the slot of the one that goes, every other keeps its own, and exactly one descriptor is removed |
| ChatTable.ChatServer.Poll | socket/network/poll_chat_server.cpp:66-71 | events change, connections do not |
| ChatTable.ChatServer.Turn | socket/network/poll_chat_server.cpp:75-179 | a turn of the sweep: arrival at the listener, otherwise keep and go on or remove and stay |
| ChatTable.ChatServer.Sweep | socket/network/poll_chat_server.cpp:73-180 | examines each connection once and ends; open afterwards are exactly those whose entry reported an error, or neither a hang-up nor input that failed to be received, and the caller accepted within the limit |
| ChatTable.SweepIsOrderFree | socket/network/poll_chat_server.cpp:73-180 | which connections survive does not depend on the order the swaps produce |
| ChatTable.OpenAfterSweep | socket/network/poll_chat_server.cpp:80-165 | the same of the entries: events and outcomes of recv decide alone who stays |
| SelectTable.Server.Admit | socket/server.cpp:70-89 | a new connection takes the first free slot, or the table is full |
| SelectTable.ScanEnds | socket/server.cpp:95-121 | stopping at the announced number, or at the last slot ever used, misses no ready client |
| SelectTable.Server.ScanClients | socket/server.cpp:95-121 | serves exactly the ready clients and ends with the slots a full scan would leave |
| SelectTable.Server.Turn | socket/server.cpp:52-121 | after a successful select: exactly the ready clients are served, those whose read returned 0 leave their slots, a new one takes the first free slot, all others keep theirs, and the descriptor set, the greatest index and the greatest descriptor follow |
| SelectTable.LiveAfterScan | socket/server.cpp:104-109 | exactly the ready clients whose read returned 0 leave |
| SelectTable.AfterTurn | socket/server.cpp:70-121 | slot by slot, who is in the table after a turn |
| ReverseList.EndedListIsDistinct | temp/reverse_list.cpp:12-18 | a list that ends in null has no node twice |
| ReverseList.RevTwice | temp/reverse_list.cpp:66-82 | reversing an order twice gives it back |
| ReverseList.Reverse | temp/reverse_list.cpp:66-82 | the same nodes with the same data in reversed order, ending in null |
| ReverseList.ReverseTwice | temp/reverse_list.cpp:66-82 | two reversals restore every link |
| ReverseList.Construct | temp/reverse_list.cpp:32-52 | fresh nodes holding 0, 1, 2 and so on |

## Left out

- Attaching and detaching the segment, keys, logging and `display()`: system calls and prints. A segment created for the ring is taken to be zero-filled and to stay mapped.
- Two processes in the ring at once: the code has no lock, so a call is one step.
- Integer overflow of `writePos + iSize` and of `iSize + sizeof(SHM_DATA_HEAD)`, records of zero or negative size, and a segment shorter than the control block: the ring's arithmetic is unbounded and its payloads positive.
- The control block's own bytes: its six ints are fields of the class, and the first 24 bytes of the segment are never looked at.
- `createPool`'s failure exits and the memory of workers and jobs; `terminate`, which nothing sets. Callbacks are taken to return, and a job is submitted once.
- Prime.JudgePrime: does not model negative numbers, whose square root is not a number, nor rounding and truncation of `sqrt`.
- MinHeap.MinHeap.TopItem: requires an item, because the code reads in front of the array without one.
- HashIndex.CHash.Insert: reports success where `CIndex::Insert` returns without a value.
- HashIndex.CIndex.Next: requires a scan that has not run out, because the code then reads past its buckets.
- HashIndex.CHash.Next: requires the same of the scan of index 0, and like HashIndex.CHash.Scan that the array of indexes has been built, because the code reads its first slot unasked.
- HashIndex.CHash.Scan: requires that at least one `BuildIndex` has been called, for the same reason.
- HashIndex.CIndex.constructor: gives the bucket vector its size; the code only reserves the room and then writes past the size of zero (hash.h:144-148).
- Negative hash codes, which index in front of the buckets; `m_Count`, failed allocations, and indices below zero.
- HeartBeat.RunAsClient: runs over a finite history with a retry limit that is not negative; sockets, shell commands and pauses are inputs and logged actions, and the interfaces are taken to be down at the start.
- Sorting.MyPartition: requires a unique pivot, without which it is proved not to end.
- Message buffers, event masks and `users` in the chat server; the listener is taken to report no hang-up, which it does not ask for.
- SelectTable.Server.Turn: assumes that select succeeded; the time string sent to each client before its turn is not modelled, and clients behind the last ready one do not get it.
- ReverseList.Construct: requires a positive count, because the code returns an unset pointer for zero.
- The `display` and `print_arr` routines and the program entry points; all other socket, HTTP, regex and library demonstrations.
