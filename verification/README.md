# FastDFS common library: a verified model

A Dafny model of the data structures and algorithms in `common/` of FastDFS v4.08, with proofs about
every input, every run or every interleaving. `dafny verify dfyconfig.toml` checks the whole project.

| file | what it models |
|---|---|
| `Common.dfy` | what the others share: error numbers, bytes, memcpy |
| `AvlModel.dfy`, `AvlTree.dfy` | the AVL tree: on values, and on heap nodes rewritten in place |
| `HashModel.dfy`, `HashTable.dfy` | the chained hash table with rehash, rollback, byte accounting and the capacity optimiser |
| `SchedModel.dfy`, `SchedLog.dfy`, `Scheduler.dfy` | the scheduler: an array threaded by a sorted chain, rounds, the waiting slot; whole runs and their log |
| `Md5.dfy` | streaming MD5 against RFC 1321, for any compression function |
| `ConnectionPool.dfy` | the connection pool as a protocol of lock sections |
| `MBlock.dfy` | the fixed-block allocator with its address arithmetic |
| `Base64.dfy`, `Base64Context.dfy` | the base64 codec: its laws, and its loops |
| `StrReplace.dfy` | bounded string replacement |

Code that changes things step by step is modelled by classes and loops, and each method is proved
against a function or a mathematical object (a set, a finite map, a padded message); the laws are
lemmas about those. Ghost fields hold what the program itself does not store: the shape of a tree, the
order of a chain, the message read so far, the set of held blocks.

Assumptions: a comparison function is a total preorder; a hash function is any function to 32-bit
codes; `qsort` returns a sorted permutation, any of them; `malloc` may refuse at any call, and
otherwise gives an aligned region apart from all others; each section under a lock is one step, and so
is `sched_add_entries`; the current time does not change within one scheduler round.

Where the code falls short of what it is meant to do, the model follows the code and the exact
condition is proved:

- A connect that fails leaves `total_count` incremented. The total counts the live connections iff no
  connect has failed, and after as many failures as the limit allows the pool never opens another
  connection (`TotalIsLiveIff`, `IdlePoolOpensIff`, `Starved`).
- A failed `hash_insert` of a new connection manager goes unnoticed; connections of such a manager can
  never be closed (`ClosableIffListed`, with a run in `UnlistedCannotClose`).
- The 32-bit loop test of `my_md5_update` can wrap for inputs longer than 2^32 - 64 bytes (`NoWrapIff`).
- A base64 text with more than three pads to a letter is reported with a negative length, and the terminator is
  written in front of the destination (`DecodedLengthIff`, `FourPadsUnderflow`).
- `base64_get_encode_length` is exact only for an empty separator or a line length that is 0 or a
  positive multiple of 4 (`LengthIsExactIff`); `base64_decode_auto` undoes the unpadded form only when the
  separators take a multiple of four bytes (`AutoRoundTripIff`, with an input in
  `TwoUnpaddedLinesAreLost`).
- `fast_mblock_init` without a number of elements gives empty chunks for elements larger than 1 MB - 8
  (`ElementsOnceIff`).
- `sched_add_entries` leaves its entries in the waiting slot when it returns EINVAL (`AddEntries`).
- A hash insert that frees the old node of a key and is then refused a new one has lost the key
  (`InsertLosesKeyIff`, with an input in `GrowingValueIsLost`).
- The byte limit of a hash table is stored after its first bucket array is allocated (`InitEx`).

## Model

| member | source | states |
|---|---|---|
| `AvlModel.RotateLeftKeeps` | fastdfs/FastDFS/FastDFS_v4.08/common/avl_tree.c:66-71 | A left rotation keeps the search order and the elements |
| `AvlModel.RotateRightKeeps` | fastdfs/FastDFS/FastDFS_v4.08/common/avl_tree.c:73-78 | A right rotation keeps the search order and the elements |
| `AvlModel.LeftRebalanced` | fastdfs/FastDFS/FastDFS_v4.08/common/avl_tree.c:427-466 | Every arm of the left rebalancers, from a left side two levels too high, gives exact balance fields again; the height falls by one unless the left child was even, `shorter` says so, and insertion takes the same arms |
| `AvlModel.RightRebalanced` | fastdfs/FastDFS/FastDFS_v4.08/common/avl_tree.c:468-507 | The mirror image for the right rebalancers |
| `AvlModel.DoubleRightBalances` | fastdfs/FastDFS/FastDFS_v4.08/common/avl_tree.c:95-115 | The double rotation with its three relabellings restores exact balance fields |
| `AvlModel.FixAfterLeftInsert` | fastdfs/FastDFS/FastDFS_v4.08/common/avl_tree.c:183-198 | After an insertion on the left: balanced, `taller` is set iff the height grew, and the `case 0` arm of the rebalancer is never entered |
| `AvlModel.FixAfterRightInsert` | fastdfs/FastDFS/FastDFS_v4.08/common/avl_tree.c:204-219 | The same on the right |
| `AvlModel.FixAfterLeftDelete` | fastdfs/FastDFS/FastDFS_v4.08/common/avl_tree.c:546-561 | After a deletion on the left: balanced, and `shorter` is set iff the height fell |
| `AvlModel.FixAfterRightDelete` | fastdfs/FastDFS/FastDFS_v4.08/common/avl_tree.c:573-588 | The same on the right |
| `AvlModel.InsertLoop` | fastdfs/FastDFS/FastDFS_v4.08/common/avl_tree.c:158-227 | Insert and replace keep exact balance fields; the height grows by one iff `taller` is set |
| `AvlModel.InsertMeetsSet` | fastdfs/FastDFS/FastDFS_v4.08/common/avl_tree.c:238-313 | Insert and replace refine insertion into a set: exactly the new element is added, replace swaps an equal one, insert leaves it, and the tree is unchanged on -ENOMEM |
| `AvlModel.SetInsertMeans` | fastdfs/FastDFS/FastDFS_v4.08/common/avl_tree.c:158-322 | On sets: 0 iff an equal element was stored, 1 iff none was and memory was had; replace leaves the new element in place of every equal one, insert adds it only where none was equal |
| `AvlModel.TakeMaxTakesGreatest` | fastdfs/FastDFS/FastDFS_v4.08/common/avl_tree.c:517-590 | The predecessor mode of deletion removes exactly the greatest element of a subtree |
| `AvlModel.DeleteLoop` | fastdfs/FastDFS/FastDFS_v4.08/common/avl_tree.c:509-637 | Deletion keeps exact balance fields; the height falls by one iff `shorter` is set |
| `AvlModel.DeleteMeetsSet` | fastdfs/FastDFS/FastDFS_v4.08/common/avl_tree.c:509-637 | Deletion removes exactly the element equal to the target, two-child case included, returns 1 iff there was one, and leaves the tree alone otherwise |
| `AvlModel.FindMeetsSet` | fastdfs/FastDFS/FastDFS_v4.08/common/avl_tree.c:324-357 | Find agrees with membership |
| `AvlModel.FindGeMeetsSet` | fastdfs/FastDFS/FastDFS_v4.08/common/avl_tree.c:359-393 | Find-ge gives the least element not below the target, and nothing iff all are below it |
| `AvlModel.PathDepthIsHeight` | fastdfs/FastDFS/FastDFS_v4.08/common/avl_tree.c:732-758 | The one path the balance fields choose has the length of the longest |
| `AvlModel.SizeAtLeastFib` | fastdfs/FastDFS/FastDFS_v4.08/common/avl_tree.c:704-758 | A balanced tree of height h has at least Fib(h + 2) - 1 nodes |
| `AvlModel.SizeIsCardinality` | fastdfs/FastDFS/FastDFS_v4.08/common/avl_tree.c:704-730 | No element is stored twice: the node count is the number of elements |
| `AvlModel.RunMeetsSet` | fastdfs/FastDFS/FastDFS_v4.08/common/avl_tree.c:158-650 | Over any run of insert, replace and delete with any allocation failures: contents and all result codes are those of a set, and the tree is ordered, balanced, of true depth and of logarithmic depth |
| `AvlTree.RotateLeft` | fastdfs/FastDFS/FastDFS_v4.08/common/avl_tree.c:66-71 | On heap nodes: the links after the rotation are those of the rotated tree, and nothing else is written |
| `AvlTree.RotateRight` | fastdfs/FastDFS/FastDFS_v4.08/common/avl_tree.c:73-78 | The mirror image |
| `AvlTree.LeftBalanceWhenInsert` | fastdfs/FastDFS/FastDFS_v4.08/common/avl_tree.c:80-117 | On heap nodes: the subtree left behind and the flag are those of the tree-level rebalancer |
| `AvlTree.RightBalanceWhenInsert` | fastdfs/FastDFS/FastDFS_v4.08/common/avl_tree.c:119-156 | The mirror image |
| `AvlTree.LeftBalanceWhenDelete` | fastdfs/FastDFS/FastDFS_v4.08/common/avl_tree.c:427-466 | On heap nodes: the subtree left behind and the flag are those of the tree-level rebalancer |
| `AvlTree.RightBalanceWhenDelete` | fastdfs/FastDFS/FastDFS_v4.08/common/avl_tree.c:468-507 | The mirror image |
| `AvlTree.InsertLoop` | fastdfs/FastDFS/FastDFS_v4.08/common/avl_tree.c:158-227 | On heap nodes: tree, code and `taller` of the insertion on values; every old node stays, and one new node is added iff the code is 1 |
| `AvlTree.TakeMax` | fastdfs/FastDFS/FastDFS_v4.08/common/avl_tree.c:517-590 | On heap nodes: the greatest datum moves into the given node and its own node leaves the subtree |
| `AvlTree.DeleteLoop` | fastdfs/FastDFS/FastDFS_v4.08/common/avl_tree.c:509-637 | On heap nodes: tree, code and `shorter` of the deletion on values |
| `AvlTree.FindLoop` | fastdfs/FastDFS/FastDFS_v4.08/common/avl_tree.c:324-357 | The node returned is one of the tree, and its datum is that of the search on values; none is returned iff that search finds none |
| `AvlTree.FindGeLoop` | fastdfs/FastDFS/FastDFS_v4.08/common/avl_tree.c:359-393 | The datum returned is the find-ge of the tree value |
| `AvlTree.CountLoop` | fastdfs/FastDFS/FastDFS_v4.08/common/avl_tree.c:704-717 | Adds the number of nodes |
| `AvlTree.DepthLoop` | fastdfs/FastDFS/FastDFS_v4.08/common/avl_tree.c:732-758 | The loop over one path returns its length, which in a balanced tree is the height |
| `AvlTree.AvlTreeInfo.Insert` | fastdfs/FastDFS/FastDFS_v4.08/common/avl_tree.c:229-236 | The stored set afterwards and the code are those of insertion into a set; the tree stays ordered and balanced |
| `AvlTree.AvlTreeInfo.Replace` | fastdfs/FastDFS/FastDFS_v4.08/common/avl_tree.c:315-322 | The same with an equal element overwritten |
| `AvlTree.AvlTreeInfo.Delete` | fastdfs/FastDFS/FastDFS_v4.08/common/avl_tree.c:639-650 | The stored set afterwards is the old one without the equal element; the code says whether there was one |
| `AvlTree.AvlTreeInfo.Find` | fastdfs/FastDFS/FastDFS_v4.08/common/avl_tree.c:395-408 | Some stored element equal to the target, or none iff none is stored |
| `AvlTree.AvlTreeInfo.FindGe` | fastdfs/FastDFS/FastDFS_v4.08/common/avl_tree.c:410-425 | The least stored element not below the target, or none iff there is none |
| `AvlTree.AvlTreeInfo.Count` | fastdfs/FastDFS/FastDFS_v4.08/common/avl_tree.c:719-730 | The number of stored elements |
| `AvlTree.AvlTreeInfo.Depth` | fastdfs/FastDFS/FastDFS_v4.08/common/avl_tree.c:732-758 | The height, and Fib(depth + 2) is at most one more than the number of elements |
| `HashModel.GetMeetsMap` | fastdfs/FastDFS/FastDFS_v4.08/common/hash.c:467-516 | Looking in the one bucket of a key finds what the map of all nodes holds for it |
| `HashModel.AddMeetsMap` | fastdfs/FastDFS/FastDFS_v4.08/common/hash.c:154-158 | Adding a node under a new key adds that key to the map and leaves every other |
| `HashModel.RehashMeetsMap` | fastdfs/FastDFS/FastDFS_v4.08/common/hash.c:264-308 | Moving every node to its bucket under another capacity keeps the map, one node a key |
| `HashModel.NextSlotIsFirstAbove` | fastdfs/FastDFS/FastDFS_v4.08/common/hash.c:310-355 | There is a next capacity iff the current one is below the last of prime_array, and it is the first above the current one, also after the optimiser replaced the capacity |
| `HashModel.PrimesDouble` | fastdfs/FastDFS/FastDFS_v4.08/common/hash.c:15-48 | prime_array goes from 1 to the largest signed prime, each entry more than double the one before except the last, and none with a small divisor |
| `HashModel.Rehash1Keeps` | fastdfs/FastDFS/FastDFS_v4.08/common/hash.c:264-308 | A rehash keeps contents, count and byte accounting; a refused one changes nothing but the capacity |
| `HashModel.RehashKeeps` | fastdfs/FastDFS/FastDFS_v4.08/common/hash.c:310-355 | A refused rehash is rolled back completely; a successful one keeps contents and accounting |
| `HashModel.RehashDoubles` | fastdfs/FastDFS/FastDFS_v4.08/common/hash.c:310-355 | Growing along prime_array more than doubles the capacity until the last step |
| `HashModel.Rehash1Answers` | fastdfs/FastDFS/FastDFS_v4.08/common/hash.c:50-70 | ENOSPC iff there is a limit and the new array exceeds it, ENOMEM iff that limit is kept and malloc refuses, otherwise 0 and the new capacity |
| `HashModel.UpdateKeeps` | fastdfs/FastDFS/FastDFS_v4.08/common/hash.c:546-562 | Overwriting a value in place changes that key only and keeps the byte accounting |
| `HashModel.RemoveAtKeeps` | fastdfs/FastDFS/FastDFS_v4.08/common/hash.c:160-172 | Removing a node removes exactly its key and its bytes |
| `HashModel.InsertNewKeeps` | fastdfs/FastDFS/FastDFS_v4.08/common/hash.c:568-619 | A new node: within the byte limit or refused, with or without a rehash, accounting kept |
| `HashModel.InsertNewGrowsIff` | fastdfs/FastDFS/FastDFS_v4.08/common/hash.c:568-619 | A new node under an absent key: the table takes the next prime as its capacity iff the load factor is reached, there is a next prime, memory is had, and the limit, if there is one, has room for the array besides the node; otherwise it keeps its capacity |
| `HashModel.InsertMeetsMap` | fastdfs/FastDFS/FastDFS_v4.08/common/hash.c:518-620 | Insert sets the key; a failed one leaves the map without exactly that key and otherwise unchanged |
| `HashModel.InsertGrowsIff` | fastdfs/FastDFS/FastDFS_v4.08/common/hash.c:518-620 | Any insert changes the number of buckets iff it made a new node and those four conditions hold, also where the old node of the key was removed first |
| `HashModel.InsertAnswers` | fastdfs/FastDFS/FastDFS_v4.08/common/hash.c:546-587 | The code is 0, 1, -ENOSPC or -ENOMEM exactly as the room of the old node, the limit and malloc decide before the call |
| `HashModel.InsertLosesKeyIff` | fastdfs/FastDFS/FastDFS_v4.08/common/hash.c:546-587 | A stored key is gone after an insert iff its value does not go into the old node and the limit, less that node, or malloc refuses a new one |
| `HashModel.GrowingValueIsLost` | fastdfs/FastDFS/FastDFS_v4.08/common/hash.c:546-587 | A table that loses its only key |
| `HashModel.DeleteMeetsMap` | fastdfs/FastDFS/FastDFS_v4.08/common/hash.c:622-648 | Delete removes exactly the key and reports whether it was there |
| `HashModel.RunMeetsMap` | fastdfs/FastDFS/FastDFS_v4.08/common/hash.c:406-648 | Over any run of inserts, deletes and optimisations with any failures the table refines a finite map: lookups, count, one node a key in its bucket, exact byte accounting, and never above the byte limit if it started within it |
| `HashModel.RunAnswers` | fastdfs/FastDFS/FastDFS_v4.08/common/hash.c:406-648 | Every code of a run is the one the table before it calls for: a stored key is lost exactly where the condition held; an optimisation answers 0 iff nothing collided before it, not negative iff nothing collides after it, and never negative without a limit and with memory |
| `HashModel.OptimiseMeetsMap` | fastdfs/FastDFS/FastDFS_v4.08/common/hash.c:406-465 | However far the search got, contents, placement, count and byte accounting are kept, and the limit if the table was within it |
| `HashModel.ConflictsMeanCollision` | fastdfs/FastDFS/FastDFS_v4.08/common/hash.c:357-404 | The conflict count is positive iff two stored keys with different hash codes share a bucket |
| `HashModel.LargeCapacitySeparates` | fastdfs/FastDFS/FastDFS_v4.08/common/hash.c:406-465 | A capacity above every hash code has no such pair, so the search has an end |
| `HashModel.StepTowardsOne` | fastdfs/FastDFS/FastDFS_v4.08/common/hash.c:440-444 | Every odd number that is divisible by 3, 5 or 7 is nearer to 1 modulo 210 after one step |
| `HashModel.NextCandidateIsLeast` | fastdfs/FastDFS/FastDFS_v4.08/common/hash.c:440-444 | The inner loop stops at the least odd number above that passes the test |
| `HashModel.NextCandidateMeans` | fastdfs/FastDFS/FastDFS_v4.08/common/hash.c:440-444 | It is odd, above the number given, and divisible by none of 3, 5 and 7, and every odd number in between is divisible by one |
| `HashModel.FirstTriedIs` | fastdfs/FastDFS/FastDFS_v4.08/common/hash.c:425-444 | The first capacity tried is the least such number not below the suggestion or, if that is below the item count or at most 2, not below twice the item count |
| `HashModel.RefusalMeans` | fastdfs/FastDFS/FastDFS_v4.08/common/hash.c:446-459 | A failed search stopped at the candidate after the last one it built: -ENOSPC iff the limit has no room for that array beside the table it left, and otherwise -ENOMEM, with malloc refusing |
| `HashTable.AdvanceCapacity` | fastdfs/FastDFS/FastDFS_v4.08/common/hash.c:440-444 | The inner loop ends, at that number |
| `HashTable.InitEx` | fastdfs/FastDFS/FastDFS_v4.08/common/hash.c:72-115 | Capacity is the first prime above the one asked for; EINVAL and ENOMEM cases; load factors outside 0.1 to 1 become 0.5; every field of the new table; the limit is stored after the bucket array is allocated, so the table starts within it iff that array fits |
| `HashTable.FindPrime` | fastdfs/FastDFS/FastDFS_v4.08/common/hash.c:82-89 | The index of the first prime above |
| `HashTable.HashArray.Rehash1` | fastdfs/FastDFS/FastDFS_v4.08/common/hash.c:264-308 | New buckets, capacity, count and bytes after moving every node, or the old buckets with the capacity overwritten |
| `HashTable.HashArray.Rehash` | fastdfs/FastDFS/FastDFS_v4.08/common/hash.c:310-355 | The same with the capacity taken back on failure |
| `HashTable.HashArray.Find` | fastdfs/FastDFS/FastDFS_v4.08/common/hash.c:487-516 | The item the map holds, or none |
| `HashTable.HashArray.Insert` | fastdfs/FastDFS/FastDFS_v4.08/common/hash.c:518-620 | The new state, the map afterwards and the code, for every combination of failures; the capacity is the next prime where the table grows and the old one elsewhere |
| `HashTable.HashArray.Delete` | fastdfs/FastDFS/FastDFS_v4.08/common/hash.c:622-648 | The new state; the map without the key |
| `HashTable.Conflicted` | fastdfs/FastDFS/FastDFS_v4.08/common/hash.c:375-398 | The nested loop over a chain finds a pair with different codes iff there is one |
| `HashTable.HashArray.ConflictCount` | fastdfs/FastDFS/FastDFS_v4.08/common/hash.c:357-404 | The number of buckets that mix hash codes |
| `HashTable.HashArray.BestOp` | fastdfs/FastDFS/FastDFS_v4.08/common/hash.c:406-465 | Terminates; 0 iff nothing collided; 1 at the first candidate capacity without a collision; -ENOSPC and -ENOMEM exactly for the limit and for malloc at the next candidate, so it cannot fail without a limit and with memory; a refused rehash leaves the last table built, a refused capacity the old table; contents, accounting and the byte limit are kept throughout |
| `SchedModel.FirstCallOnGrid` | fastdfs/FastDFS/FastDFS_v4.08/common/sched_thread.c:63-90 | The first call lies in the interval after now, a whole number of intervals from the time base |
| `SchedModel.InitialisedMeans` | fastdfs/FastDFS/FastDFS_v4.08/common/sched_thread.c:30-106 | Entries before the first bad interval get a first call within an interval from now, all else is unchanged, and the code is 0 iff no interval is bad |
| `SchedModel.ThreadedChained` | fastdfs/FastDFS/FastDFS_v4.08/common/sched_thread.c:124-130 | Linking a sorted array in order gives a chain through every entry once, sorted, from head to tail |
| `SchedModel.QsortKeeps` | fastdfs/FastDFS/FastDFS_v4.08/common/sched_thread.c:121-122 | Sorting gives a sorted rearrangement of the entries |
| `SchedModel.SpliceIn` | fastdfs/FastDFS/FastDFS_v4.08/common/sched_thread.c:353-371 | Linking an entry before the first one not earlier keeps the chain acyclic, sorted and complete |
| `SchedModel.SpliceLast` | fastdfs/FastDFS/FastDFS_v4.08/common/sched_thread.c:344-350 | The append case of the splice loop does too |
| `SchedModel.RanExactlyDue` | fastdfs/FastDFS/FastDFS_v4.08/common/sched_thread.c:316-327 | What runs is what is due, each once |
| `SchedModel.RoundRuns` | fastdfs/FastDFS/FastDFS_v4.08/common/sched_thread.c:316-327 | With unique ids: exactly the due tasks ran, each once, and moved on by their interval |
| `SchedModel.RunTasksMeans` | fastdfs/FastDFS/FastDFS_v4.08/common/sched_thread.c:316-327 | What ran is next due its interval after now, and everything else is as it was |
| `SchedLog.AllRunsSpaced` | fastdfs/FastDFS/FastDFS_v4.08/common/sched_thread.c:283-327 | In a log where no execution came earlier than the log before it allowed, two executions of an entry not replaced in between are at least its interval apart |
| `SchedLog.RunsAreSpaced` | fastdfs/FastDFS/FastDFS_v4.08/common/sched_thread.c:283-327 | Over any run of rounds, looks at the waiting slot, additions and deletions, every two executions of an entry not replaced in between are at least its interval apart |
| `SchedLog.RunsAgainIff` | fastdfs/FastDFS/FastDFS_v4.08/common/sched_thread.c:316-327 | A task that ran in a round runs in a later uninterrupted round iff its interval has passed |
| `SchedModel.DeletionMeetsMap` | fastdfs/FastDFS/FastDFS_v4.08/common/sched_thread.c:148-180 | Closing the gap removes exactly the task with that id |
| `SchedModel.PutAllMeetsMap` | fastdfs/FastDFS/FastDFS_v4.08/common/sched_thread.c:211-239 | Merging gives the old tasks overridden by the waiting ones, the last of equal ids winning; ids stay unique |
| `SchedModel.LastWaitingWins` | fastdfs/FastDFS/FastDFS_v4.08/common/sched_thread.c:211-239 | Of several waiting entries with an id the last one gives the function, interval and next call |
| `SchedModel.OthersStay` | fastdfs/FastDFS/FastDFS_v4.08/common/sched_thread.c:211-239 | A task no waiting entry names stays as it was |
| `SchedModel.WaitingMeetsMap` | fastdfs/FastDFS/FastDFS_v4.08/common/sched_thread.c:133-260 | With unique ids the look at the waiting slot leaves the old tasks less the deleted one, overridden by the waiting ones; ids stay unique |
| `Scheduler.InitEntries` | fastdfs/FastDFS/FastDFS_v4.08/common/sched_thread.c:30-106 | The loop over the entries: first calls set up to the first bad interval, then EINVAL |
| `Scheduler.ScheduleContext.MakeChain` | fastdfs/FastDFS/FastDFS_v4.08/common/sched_thread.c:108-131 | A complete sorted chain over a rearrangement of the entries, whatever their ids |
| `Scheduler.ScheduleContext.RunDue` | fastdfs/FastDFS/FastDFS_v4.08/common/sched_thread.c:316-327 | The loop runs the longest due prefix of the chain, or as much of it as the continue flag allows |
| `Scheduler.ScheduleContext.SpliceBack` | fastdfs/FastDFS/FastDFS_v4.08/common/sched_thread.c:340-374 | The loop splices all executed entries back into a complete sorted chain |
| `Scheduler.ScheduleContext.Round` | fastdfs/FastDFS/FastDFS_v4.08/common/sched_thread.c:316-374 | With unique ids: exactly the due tasks ran once and moved on, all of them unless the continue flag stopped it, and the chain is complete and sorted |
| `Scheduler.ScheduleContext.RoundChain` | fastdfs/FastDFS/FastDFS_v4.08/common/sched_thread.c:316-374 | Whatever the ids: the longest due prefix of the chain ran as far as the flag allowed, and the same entries, moved on, hang on a complete sorted chain |
| `Scheduler.ScheduleContext.CheckWaiting` | fastdfs/FastDFS/FastDFS_v4.08/common/sched_thread.c:133-260 | With unique ids: tasks become (old minus deleted) overridden by waiting; 0 iff entries waited and memory was had, or none waited and the pending id was that of a task; ENOENT iff none waited and nothing was deleted; ENOMEM iff entries waited and memory was refused |
| `Scheduler.ScheduleContext.CheckChain` | fastdfs/FastDFS/FastDFS_v4.08/common/sched_thread.c:133-260 | Whatever the ids: the entry deleted, the waiting ones merged, and a complete sorted chain over the result, also when allocation fails after a deletion; the code as above, by the ids in the array |
| `Scheduler.ScheduleContext.AddEntries` | fastdfs/FastDFS/FastDFS_v4.08/common/sched_thread.c:416-440 | One look at the waiting slot: what is put into it, and the code; nothing while it is taken; EINVAL leaves the entries in the slot |
| `Scheduler.ScheduleContext.DelEntry` | fastdfs/FastDFS/FastDFS_v4.08/common/sched_thread.c:442-460 | One look at the pending id: set, or nothing while another is pending, or EINVAL |
| `Scheduler.Start` | fastdfs/FastDFS/FastDFS_v4.08/common/sched_thread.c:274-280 | Nothing if an interval is bad; otherwise a complete sorted chain over the initialised entries, and with unique ids a valid state with their tasks |
| `Scheduler.RunTurns` | fastdfs/FastDFS/FastDFS_v4.08/common/sched_thread.c:274-460 | Any sequence of turns of a started thread is a run of the machine over tasks and log, keeps the state valid, and spaces all executions |
| `Md5.ZeroCountIsLeast` | fastdfs/FastDFS/FastDFS_v4.08/common/md5.c:142-147 | The zero bytes are the fewest that bring the length to 56 modulo 64 (section 3.1 of RFC 1321) |
| `Md5.AddLengthCounts` | fastdfs/FastDFS/FastDFS_v4.08/common/md5.c:101-104 | The carry arithmetic on two 32-bit words counts bits modulo 2^64 |
| `Md5.IndexIsLengthMod64` | fastdfs/FastDFS/FastDFS_v4.08/common/md5.c:98-99 | The buffer index read from the counter is the message length modulo 64 |
| `Md5.CountBytes` | fastdfs/FastDFS/FastDFS_v4.08/common/md5.c:139-140 | The two words written one after the other are the 64-bit count, low-order byte first |
| `Md5.StartBytes` | fastdfs/FastDFS/FastDFS_v4.08/common/md5.c:83-86 | The start value, as the sixteen bytes of section 3.3 of RFC 1321 |
| `Md5.PadBytes` | fastdfs/FastDFS/FastDFS_v4.08/common/md5.c:133-150 | The padded message is the message, 0x80, zeros, and eight bytes that stand for the number of bits, low-order first; it is a multiple of 64 bytes and at most 72 longer |
| `Md5.BlocksConcat` | fastdfs/FastDFS/FastDFS_v4.08/common/md5.c:108-117 | Transforming blocks in two goes is transforming them in one |
| `Md5.LongUpdate` | fastdfs/FastDFS/FastDFS_v4.08/common/md5.c:111-119 | A long update completes the waiting block and all whole blocks, and the tail of its input waits |
| `Md5.ShortUpdate` | fastdfs/FastDFS/FastDFS_v4.08/common/md5.c:120-126 | A short update only waits |
| `Md5.NoWrapIff` | fastdfs/FastDFS/FastDFS_v4.08/common/md5.c:116-117 | The 32-bit loop test does not wrap iff the last block start plus 63 stays below 2^32; where it wraps, the loop goes on beyond the input |
| `Md5.ShortUpdatesDoNotWrap` | fastdfs/FastDFS/FastDFS_v4.08/common/md5.c:116-117 | Updates of at most 2^32 - 64 bytes never wrap |
| `Md5.LongestUpdateWraps` | fastdfs/FastDFS/FastDFS_v4.08/common/md5.c:116-117 | One waiting byte and 2^32 - 1 bytes of input wrap |
| `Md5.Encode` | fastdfs/FastDFS/FastDFS_v4.08/common/md5.c:259-270 | Words as bytes, low-order byte first |
| `Md5.Md5Context.Consume` | fastdfs/FastDFS/FastDFS_v4.08/common/md5.c:111-117 | The filled buffer, then every whole block of the input, go through the transform |
| `Md5.Md5Context.Update` | fastdfs/FastDFS/FastDFS_v4.08/common/md5.c:93-127 | The context afterwards stands for the old message followed by the input |
| `Md5.Md5Context.Final` | fastdfs/FastDFS/FastDFS_v4.08/common/md5.c:133-158 | The digest of the padded message, with the count saved before padding, and a wiped context |
| `Md5.DigestOfCutting` | fastdfs/FastDFS/FastDFS_v4.08/common/md5.c:93-158 | Any cutting of a message into updates of at most 2^32 - 64 bytes gives the one-shot digest |
| `Md5.DigestOfBuffer` | fastdfs/FastDFS/FastDFS_v4.08/common/md5.c:325-333 | A single update of any 32-bit length gives the one-shot digest |
| `ConnectionPool.ConnectionManager.Get` | fastdfs/FastDFS/FastDFS_v4.08/common/connection_pool.c:158-252 | The expiry loop ends and leaves list, counts and outcome of the locked section |
| `ConnectionPool.ConnectionManager.Close` | fastdfs/FastDFS/FastDFS_v4.08/common/connection_pool.c:289-316 | A close puts the connection at the head of the list with the present time and counts it free; a forced close takes it off the total |
| `ConnectionPool.StepKeeps` | fastdfs/FastDFS/FastDFS_v4.08/common/connection_pool.c:158-316 | Every step of any thread keeps the invariant |
| `ConnectionPool.RunFromStart` | fastdfs/FastDFS/FastDFS_v4.08/common/connection_pool.c:158-316 | In every interleaving: free count is the list length; total is free + borrowed + connecting + failed connects; live connections and failures together stay within a positive limit; nobody holds a free connection |
| `ConnectionPool.OnePlace` | fastdfs/FastDFS/FastDFS_v4.08/common/connection_pool.c:158-316 | Every connection ever opened is in exactly one place, and no other is anywhere |
| `ConnectionPool.GetReusesHeadOrDiscardsAll` | fastdfs/FastDFS/FastDFS_v4.08/common/connection_pool.c:158-250 | With a clock that does not go back: a get reuses the head, not idle too long and held by nobody, or discards the whole list, all of it idle too long, and then opens or fails by the limit |
| `ConnectionPool.ReturnedIsReused` | fastdfs/FastDFS/FastDFS_v4.08/common/connection_pool.c:289-316 | A connection given back is what the next get hands out iff it has not been idle too long by then; a forced close disconnects it and leaves the free list alone |
| `ConnectionPool.TotalIsLiveIff` | fastdfs/FastDFS/FastDFS_v4.08/common/connection_pool.c:196-207 | The total counts the live connections iff no connect has failed |
| `ConnectionPool.IdlePoolOpensIff` | fastdfs/FastDFS/FastDFS_v4.08/common/connection_pool.c:162-207 | With everything returned and stale, a get opens a connection iff there is no limit or fewer connects have failed than it allows |
| `ConnectionPool.Starved` | fastdfs/FastDFS/FastDFS_v4.08/common/connection_pool.c:162-207 | Once as many connects failed as the limit allows, no later run ever opens a connection |
| `ConnectionPool.OneFailureStarves` | fastdfs/FastDFS/FastDFS_v4.08/common/connection_pool.c:162-207 | The smallest such run |
| `ConnectionPool.PoolRunKeeps` | fastdfs/FastDFS/FastDFS_v4.08/common/connection_pool.c:111-319 | Over every run of the whole pool, each manager keeps its invariant and limit |
| `ConnectionPool.StepReaches` | fastdfs/FastDFS/FastDFS_v4.08/common/connection_pool.c:111-319 | A step at one manager leaves the others and the table alone, and is that manager's own step unless it is a close at a manager the table did not take |
| `ConnectionPool.ClosableIffListed` | fastdfs/FastDFS/FastDFS_v4.08/common/connection_pool.c:129-156 | A connection can be closed iff the hash table took its manager; otherwise nothing of that manager ever becomes free |
| `ConnectionPool.UnlistedCannotClose` | fastdfs/FastDFS/FastDFS_v4.08/common/connection_pool.c:129-156 | The smallest run that leaves such a manager |
| `ConnectionPool.FoundIsOwn` | fastdfs/FastDFS/FastDFS_v4.08/common/connection_pool.c:129-156 | A get is answered by a manager of its own server, or by none iff memory or the lock failed |
| `ConnectionPool.CloseAnswers` | fastdfs/FastDFS/FastDFS_v4.08/common/connection_pool.c:269-287 | A close answers ENOENT iff the table holds no manager of the server, and EINVAL iff it holds another one than that of the connection |
| `MBlock.MemAlignIsLeast` | fastdfs/FastDFS/FastDFS_v4.08/common/common_define.h:159 | The least multiple of 8 not below |
| `MBlock.BlockHoldsElement` | fastdfs/FastDFS/FastDFS_v4.08/common/fast_mblock.c:62-63 | A block has room for its link and its element, less than a word to spare, and an aligned size |
| `MBlock.ElementsOnceIff` | fastdfs/FastDFS/FastDFS_v4.08/common/fast_mblock.c:24-35 | A chunk holds a block iff a number was asked for or the element size is at most 1 MB - 8 |
| `MBlock.ElementsOnceMeans` | fastdfs/FastDFS/FastDFS_v4.08/common/fast_mblock.c:24-35 | The number asked for, or as many blocks as fit one megabyte |
| `MBlock.ChunkSizeIs` | fastdfs/FastDFS/FastDFS_v4.08/common/fast_mblock.c:64-65 | A chunk is its header and its blocks |
| `MBlock.BlocksApart` | fastdfs/FastDFS/FastDFS_v4.08/common/fast_mblock.c:80-88 | Any two blocks of all chunks are disjoint |
| `MBlock.ChunkOf` | fastdfs/FastDFS/FastDFS_v4.08/common/fast_mblock.c:80-88 | Every block lies inside its chunk, behind the header, 8-aligned |
| `MBlock.RefilledKeeps` | fastdfs/FastDFS/FastDFS_v4.08/common/fast_mblock.c:51-95 | A new chunk adds its blocks, all new, and loses none |
| `MBlock.RunKeeps` | fastdfs/FastDFS/FastDFS_v4.08/common/fast_mblock.c:121-190 | Over any run of alloc and free, free and held blocks are exactly the blocks of all chunks, each in one place |
| `MBlock.FreeThenAlloc` | fastdfs/FastDFS/FastDFS_v4.08/common/fast_mblock.c:121-190 | An alloc after a free undoes it: the block freed last is handed out next |
| `MBlock.HeldBlocksAreDisjoint` | fastdfs/FastDFS/FastDFS_v4.08/common/fast_mblock.c:121-190 | Two blocks a run has handed out never overlap |
| `MBlock.Init` | fastdfs/FastDFS/FastDFS_v4.08/common/fast_mblock.c:11-49 | EINVAL, or an empty allocator with the stated number of elements, usable iff that number is not zero |
| `MBlock.BlockManager.ThreadBlocks` | fastdfs/FastDFS/FastDFS_v4.08/common/fast_mblock.c:82-86 | The loop chains the blocks of a chunk, disturbing no other chain |
| `MBlock.BlockManager.LastBlock` | fastdfs/FastDFS/FastDFS_v4.08/common/fast_mblock.c:81 | pLast is one block before the end of the chunk |
| `MBlock.BlockManager.Prealloc` | fastdfs/FastDFS/FastDFS_v4.08/common/fast_mblock.c:51-95 | Both chains in memory after a new chunk, or nothing changed |
| `MBlock.BlockManager.Alloc` | fastdfs/FastDFS/FastDFS_v4.08/common/fast_mblock.c:121-162 | A block nobody held, or NULL iff none was free and malloc refused |
| `MBlock.BlockManager.Free` | fastdfs/FastDFS/FastDFS_v4.08/common/fast_mblock.c:164-190 | The block is free again, nothing else changed |
| `MBlock.BlockManager.WriteInto` | fastdfs/FastDFS/FastDFS_v4.08/common/fast_mblock.c:164-190 | A store of any size and alignment inside a held block, changing any word it overlaps, disturbs neither chain |
| `MBlock.BlockManager.Count` | fastdfs/FastDFS/FastDFS_v4.08/common/fast_mblock.c:192-224 | The number of free blocks, which is all blocks less the held ones |
| `MBlock.BlockManager.Destroy` | fastdfs/FastDFS/FastDFS_v4.08/common/fast_mblock.c:97-119 | Every chunk is released once |
| `Base64.LettersAreStandard` | fastdfs/FastDFS/FastDFS_v4.08/common/base64.c:68-85 | The alphabet is A to Z, a to z and 0 to 9 in order (table 1 of RFC 4648), then the two letters of the context |
| `Base64.TableInvertsIff` | fastdfs/FastDFS/FastDFS_v4.08/common/base64.c:68-94 | The table undoes the alphabet iff plus, slash and pad are distinct and not alphanumeric |
| `Base64.QuadMeans` | fastdfs/FastDFS/FastDFS_v4.08/common/base64.c:194-206 | The four values are the base-64 digits of the 24-bit number (section 4 of RFC 4648) |
| `Base64.TextReadsBack` | fastdfs/FastDFS/FastDFS_v4.08/common/base64.c:174-215 | Separators aside, a text reads back as its values |
| `Base64.RoundTrip` | fastdfs/FastDFS/FastDFS_v4.08/common/base64.c:126-392 | Decoding undoes padded encoding, for every byte string and every line length |
| `Base64.RoundTripIff` | fastdfs/FastDFS/FastDFS_v4.08/common/base64.c:126-392 | Every byte string comes back iff plus, slash and pad are distinct and not alphanumeric and, if lines are broken, no separator byte is a letter or the pad; for every line length |
| `Base64.SeparatorLoses` | fastdfs/FastDFS/FastDFS_v4.08/common/base64.c:126-392 | A separator with a letter or a pad in it loses a message of one line and a group |
| `Base64.MisreadIsLost` | fastdfs/FastDFS/FastDFS_v4.08/common/base64.c:68-94 | A letter the table misreads loses a message of three bytes |
| `Base64.AutoRoundTripIff` | fastdfs/FastDFS/FastDFS_v4.08/common/base64.c:257-302 | The automatic decoder undoes the unpadded form iff the separators take a multiple of four bytes, as without line breaks |
| `Base64.TwoUnpaddedLinesAreLost` | fastdfs/FastDFS/FastDFS_v4.08/common/base64.c:257-302 | Every six-byte message with line length 4 and a one-byte separator is lost |
| `Base64.DecodedLengthIff` | fastdfs/FastDFS/FastDFS_v4.08/common/base64.c:379-389 | In a text of whole groups the length reported is negative iff it has more than three pads to a letter of the alphabet |
| `Base64.BrokenTextIsEmpty` | fastdfs/FastDFS/FastDFS_v4.08/common/base64.c:379-386 | Any other text decodes to nothing |
| `Base64.FourPadsUnderflow` | fastdfs/FastDFS/FastDFS_v4.08/common/base64.c:379-389 | Four pads give length -1 |
| `Base64.EncodedLength` | fastdfs/FastDFS/FastDFS_v4.08/common/base64.c:126-255 | The length of both encoded forms |
| `Base64.CountMeans` | fastdfs/FastDFS/FastDFS_v4.08/common/base64.c:103-114 | The line breaks counted are one less than the lines the letters fill, rounded up; none without a positive line length, except one for no letters at length -1 |
| `Base64.LengthIsExactIff` | fastdfs/FastDFS/FastDFS_v4.08/common/base64.c:97-117 | The length announced is that of every padded encoding iff the separator is empty or the line length is 0 or a positive multiple of 4 |
| `Base64Context.Context.constructor` | fastdfs/FastDFS/FastDFS_v4.08/common/base64.c:55-95 | The loops fill both tables |
| `Base64Context.Context.EncodeGroup` | fastdfs/FastDFS/FastDFS_v4.08/common/base64.c:183-213 | One group: separator if it does not fit the line, and four letters |
| `Base64Context.Context.EncodeEx` | fastdfs/FastDFS/FastDFS_v4.08/common/base64.c:126-255 | The loops write exactly the encoding, padded or not |
| `Base64Context.Context.DecodeText` | fastdfs/FastDFS/FastDFS_v4.08/common/base64.c:309-392 | The loop over cycle, combined and dummies leaves exactly the decoding; not a multiple of four gives nothing |
| `Base64Context.Context.DecodeAnyText` | fastdfs/FastDFS/FastDFS_v4.08/common/base64.c:257-302 | Completion with pads, and the refused buffer |
| `Base64Context.Context.GetEncodeLength` | fastdfs/FastDFS/FastDFS_v4.08/common/base64.c:97-117 | The length announced |
| `StrReplace.FindIsFirst` | fastdfs/FastDFS/FastDFS_v4.08/common/shared_func.c:851 | The search gives the leftmost position whose slice is the pattern, or none iff there is none |
| `StrReplace.NextPiece` | fastdfs/FastDFS/FastDFS_v4.08/common/shared_func.c:849-890 | What remains is the text up to the next occurrence, the substitute, and what remains after it |
| `StrReplace.LastPiece` | fastdfs/FastDFS/FastDFS_v4.08/common/shared_func.c:892-901 | Without a further occurrence what remains is the rest of the source |
| `StrReplace.ReplaceBySelf` | fastdfs/FastDFS/FastDFS_v4.08/common/shared_func.c:849-901 | Replacing a pattern by itself changes nothing |
| `StrReplace.StrReplace` | fastdfs/FastDFS/FastDFS_v4.08/common/shared_func.c:816-904 | The first min(length, dest_size - 1) bytes of the whole replacement, a terminator, and that count, whichever exit is taken; the empty pattern; nothing for dest_size <= 0; no byte beyond dest_size written |

## Left out

- 32-bit overflow of counts, sizes and times: integers are unbounded except in the MD5 counter and loop test; this includes the truncating difference in the scheduler's comparison function.
- HashTable.HashArray.Insert: requires that where it reaches a rehash prime_array has a next entry, because past its end the code reads outside the array.
- MBlock.BlockManager.Alloc: requires at least one block a chunk, because with none the code writes before the chunk; `Init` says when that is.
- Md5.Md5Context.Update: requires that the 32-bit loop test does not wrap, because beyond that the code reads outside its input; `NoWrapIff` gives the exact condition.
- Scheduler.ScheduleContext.Round: the laws about tasks need unique ids, because entries are found by id; `RoundChain` and `CheckChain` say what holds without them.
- Scheduler.ScheduleContext.AddEntries: copying and initialising the entries is one step; the window between the two is not modelled.
- AvlTree.InsertLoop: the link written through a pointer to a pointer is a returned link that the caller stores; the deletion loop is split by whether a predecessor is being looked for.
- HashTable.HashArray.Find: a bucket chain is a sequence held in an array of buckets, so the relinking of single nodes is not modelled; keys and hash codes are abstract.
- ConnectionPool.ConnectionManager.Get: the free list is a sequence; addresses that inet_aton rejects, sockets and the connect itself are outcomes, not modelled.
- StrReplace.StrReplace: requires a destination of at least dest_size bytes and a source with a zero byte at src_len; strstr is a function with its defining property.
- Base64Context.Context.EncodeEx: the destination is the sequence written; base64_set_line_length and base64_set_line_separator only set fields.
- The body of MD5Transform and its decoding of a block: any function from a state and a block to a state.
- The bodies of the hash functions in hash.c, hash_walk, hash_stat, hash_destroy, avl_tree_walk, avl_tree_destroy, avl_tree_print, my_md5_file and the reading of files.
- localtime_r, mktime and daylight saving in sched_init_entries: a time base is an instant not after now.
- free_data_func and the release of memory, logging, sleeping, and failures of the locks themselves.
- The other files of common/, and the client, tracker and storage programs: requests, sockets, files and processes.
