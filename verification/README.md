# Persistent and NUMA typing: a Dafny model

This project models five parts of the repository and proves what they promise.

- **Crash-consistent persistent memory.** `PmemPool` is the PMDK pool as `persistentLib` uses it: heap, undo log,
  blocks born in the transaction, deferred frees, nesting depth. `PersistentLib` puts the library calls on top and
  records in `images` every heap that a crash would leave to the next run. On it stand `pmem_string`, the generated
  stack, bucket, Hanoi and counter programs, and the user's own DRAM classes that they must behave like.
- **Parallel word histogram.** Chunking, counting in chained tables, merging on a node and across nodes, with one
  thread or with many under locks (`HashTable`, `TableCalls`, `HashChain`, `Barrier`, `Histogram`, `ParallelMerge`).
- **Locks and search tree of the data-structure benchmark** (`LockProtocol`, `SearchTree`).
- **UMF memspace.** Owned arrays of owned targets with failure possible at every request (`Memspace`).
- **YCSB placement.** Key hashing, prefill and workload splitting (`KeyHash`, `RecordTable`, `Prefill`, `Workload`).

`dafny verify dfyconfig.toml` checks the whole project.

What the proofs show about the code as written:

- A Hanoi run that dies in the middle of the solve leaves a valid board that no later run finishes: the seed-once
  guard sees disks and skips the solve, although the comment beside it says that a persisted board is already solved
  (`PersistentHanoi.Abandoned`).
- With an odd number of threads neither the histogram nor the YCSB prefill gets past its first barrier, which waits
  for one thread more than are started; with one thread none is started (`Barrier.PassesExactlyWhenEven`,
  `Histogram.Pipeline`, `Prefill.PrefillsExactlyWhenEven`).
- `BinarySearchTree::remove` takes out exactly the key only when the key is absent or alone (`SearchTree.RemovesExactly`);
  the branch for keys below the root is never taken.
- The allocator answers a request of size 0 with NULL, so the last target of a memspace can never be removed, an
  empty memspace can never be cloned or filtered, and a filter that rejects all of two or more targets fails even
  when no request does, and then passes destroyed handles to the re-adding loop (`Memspace.Remove`,
  `Memspace.FilterHelper`).
- A workload string whose shares all round down to nothing, such as 40 percent of two threads, makes
  `parse_mixed_workload` read outside its empty pool (`Workload.ParseMixedWorkload`, `Workload.FortyPercentOfTwo`).

## Model

| member | source | states |
|---|---|---|
| `PmemPool.CrashAtomicity` | persistentLib/pmem_allocator.hpp:80-183 | For every run of one outermost transaction, however nested: a crash after any step before the last recovers exactly the heap and live blocks it started from, the commit leaves exactly the live heap it built, an abort leaves the starting heap |
| `PmemPool.WriteDiscipline` | persistentLib/persistenttype.hpp:82-89 | Inside a transaction a raw store leaves the recovered heap alone if and only if the word was snapshotted, lies in a block of this transaction, or keeps its value |
| `PmemPool.StepKeepsImage` | persistentLib/pmem_allocator.hpp:80-183 | No guarded step before the outermost commit changes what a crash would recover |
| `PmemPool.RunKeepsImage` | persistentLib/pmem_allocator.hpp:80-183 | The same over every prefix of a run |
| `PmemPool.RecoveryRestarts` | persistentLib/pmem_allocator.hpp:175-183 | A rollback that is itself cut short and started again ends in the same heap |
| `PmemPool.UndoAt` | persistentLib/pmem_allocator.hpp:175-183 | Rollback puts into each word what its oldest log entry saved, and leaves words without entry alone |
| `PmemPool.UndoAgree` | persistentLib/pmem_allocator.hpp:175-183 | Heaps that differ only in logged words and discarded blocks roll back to the same heap |
| `PersistentLib.Pool.Store` | persistentLib/persistenttype.hpp:82-89 | A store through the log changes one live word, nothing durable; outside a transaction it fails and changes nothing |
| `PersistentLib.Pool.AddRange` | persistentLib/pmem_allocator.hpp:175-183 | A snapshot covers every word of its range and changes no live or recovered word; it fails outside a transaction |
| `PersistentLib.Pool.Alloc` | persistentLib/pmem_allocator.hpp:80-97 | A new block that nobody has, taken back by rollback inside a transaction and durable at once outside |
| `PersistentLib.Pool.Free` | persistentLib/pmem_allocator.hpp:99-112 | The block is gone for the program; inside a transaction the recovered heap still has it, outside it is gone at once |
| `PersistentLib.Pool.Begin` | persist-clang-tool/output_recurse/hanoi/user_hanoi.cpp:101-106 | Entering a transaction, nested or not, changes neither the live nor the recovered heap |
| `PersistentLib.Pool.End` | persist-clang-tool/output_recurse/hanoi/user_hanoi.cpp:101-106 | Leaving a nested transaction makes nothing durable; leaving the outermost makes exactly the live heap durable |
| `PersistentLib.GetOrCreate` | persistentLib/pmem_allocator.hpp:185-195 | For an object of any members: a non-null slot gives that object and an untouched pool; a null slot gets a new object linked into it, both durable together when outermost and both pending when nested, with no durable state in between |
| `PersistentLib.Construct` | persistentLib/persistenttype.hpp:91-92 | new of an object of any members inside a transaction: a block nobody has, holding the members, pending until the commit |
| `PmemString.Assign` | persistentLib/pmem_string.hpp:50-59 | The new payload holds what the argument held before the call, even if it points into the old payload; the old payload is freed; outside a transaction it fails before allocating and the pool is unchanged |
| `PmemString.AssignSpells` | persistentLib/pmem_string.hpp:50-59 | After assignment the string spells the argument with its length, the old payload is not live, no other block changed |
| `PmemString.Release` | persistentLib/pmem_string.hpp:27-33 | A payload, if there is one, is freed once and the header cleared |
| `PmemString.StrLen` | persistentLib/pmem_string.hpp:51 | The length of the zero-terminated text |
| `PmemString.Copy` | persistentLib/pmem_string.hpp:55 | Text and terminator are copied into the new block, nothing else changes |
| `PmemString.Equals` | persistentLib/pmem_string.hpp:81 | True exactly when the string spells the given text |
| `UserStack.Stack.Push` | hanoi/user_hanoi.cpp:54-59 | The DRAM stack gains the value on top in one new node; chain acyclic, size its length |
| `UserStack.Stack.Pop` | hanoi/user_hanoi.cpp:60-68 | The DRAM stack loses and returns its top, and that node is deleted: the live nodes stay exactly those of the chain; an empty one answers 0 and stays empty |
| `UserStack.PopUndoesPush` | hanoi/user_hanoi.cpp:54-69 | Last in, first out; an empty stack answers 0 and is empty |
| `UserStack.Stack.Print` | hanoi/user_hanoi.cpp:70-78 | All values from the top down |
| `UserStack.Stack.ServeAll` | hanoi/user_hanoi.cpp:50-79 | Any sequence of calls on the DRAM class answers as the sequence of values does |
| `PersistentStack.NewNode` | persist-clang-tool/output_recurse/hanoi/user_hanoi.cpp:57-59 | A node with the value and a null link, pending until the commit |
| `PersistentStack.Push` | persist-clang-tool/output_recurse/hanoi/user_hanoi.cpp:100-107 | One new node linked on top and size increased, as one atomic durable change |
| `PersistentStack.Pop` | persist-clang-tool/output_recurse/hanoi/user_hanoi.cpp:109-123 | Top unlinked, freed and returned in one atomic change; 0 and no change when empty |
| `PersistentStack.IsEmpty` | persist-clang-tool/output_recurse/hanoi/user_hanoi.cpp:125-131 | True exactly when the stack has no values |
| `PersistentStack.Print` | persist-clang-tool/output_recurse/hanoi/user_hanoi.cpp:133-143 | All values from the top down, nothing durable changes |
| `PersistentStack.PushKeepsStack` | persist-clang-tool/output_recurse/hanoi/user_hanoi.cpp:100-107 | After a push the chain is acyclic, spells the new value on the old ones, and size is its length |
| `PersistentStack.PopKeepsStack` | persist-clang-tool/output_recurse/hanoi/user_hanoi.cpp:109-123 | After a pop the chain spells the rest and size is its length |
| `StackRewrite.ServeAll` | persist-clang-tool/output_recurse/hanoi/user_hanoi.cpp:96-148 | For every call sequence the generated class answers what the DRAM class answers, and every durable state in between is that of some prefix of the calls, with no orphaned block |
| `StackRewrite.RunProcess` | persist-clang-tool/output_recurse/hanoi/user_hanoi.cpp:96-148 | One process that opens the pool and dies anywhere: returned calls survive, the interrupted one wholly or not at all, and the answers given are the DRAM class's |
| `StackRewrite.History` | persist-clang-tool/output_recurse/hanoi/user_hanoi.cpp:96-148 | Over any number of processes on one pool, each dying anywhere or not, every process answers as the DRAM class that saw exactly the calls surviving before it, and the pool shows their replay |
| `StackRewrite.CrashAndReopen` | persist-clang-tool/output_recurse/hanoi/user_hanoi.cpp:96-148 | The two-process history: after a crash anywhere the next process answers as the DRAM class that saw the surviving calls |
| `HanoiMoves.MoveCount` | persist-clang-tool/output_recurse/hanoi/user_hanoi.cpp:157-165 | The recursion makes 2^n - 1 moves |
| `HanoiMoves.Solve` | persist-clang-tool/output_recurse/hanoi/user_hanoi.cpp:157-165 | The moves carry n disks from one peg to another, whatever larger disks lie below |
| `HanoiMoves.SolvePrefix` | persist-clang-tool/output_recurse/hanoi/user_hanoi.cpp:157-165 | After every prefix of the moves no disk lies on a smaller one and the next move is possible |
| `HanoiMoves.SolveFromSeed` | persist-clang-tool/output_recurse/hanoi/user_hanoi.cpp:157-192 | From the seeded board every prefix of the moves keeps all pegs sorted and the disks conserved, and the board is solved exactly at the end |
| `HanoiMoves.Interrupted` | persist-clang-tool/output_recurse/hanoi/user_hanoi.cpp:182-192 | The board after fewer than all moves is neither empty nor solved |
| `PersistentHanoi.MoveDisk` | persist-clang-tool/output_recurse/hanoi/user_hanoi.cpp:160-163 | Pop and push of one move become durable together: exactly one new durable board |
| `PersistentHanoi.MoveDisks` | persist-clang-tool/output_recurse/hanoi/user_hanoi.cpp:157-165 | The durable states of the recursion are the boards after one, two, ... all moves, in this order and no others |
| `PersistentHanoi.OpenSlot` | persist-clang-tool/output_recurse/hanoi/user_hanoi.cpp:178-180 | Opening a slot never changes a board, in any durable state |
| `PersistentHanoi.SeedOnce` | persist-clang-tool/output_recurse/hanoi/user_hanoi.cpp:184-190 | All n disks or none are seeded, exactly when the board is empty, in one durable step |
| `PersistentHanoi.Run` | persist-clang-tool/output_recurse/hanoi/user_hanoi.cpp:177-198 | A completing run ends solved if and only if it started empty or solved; any other board is printed unchanged. Every durable state on the way is the old board or a prefix of the solve, and from an empty board every prefix is one of the durable states, in order |
| `PersistentHanoi.History` | persist-clang-tool/output_recurse/hanoi/user_hanoi.cpp:177-198 | Over any number of runs, each completing or crashing anywhere, every board between runs is empty or the board after some prefix of the solve, a board once seeded by a finished or crashed run never changes again, and a completing run on an empty board solves it |
| `PersistentHanoi.CrashAtMove` | persist-clang-tool/output_recurse/hanoi/user_hanoi.cpp:157-165 | For every k a first run can leave exactly the board after k moves |
| `PersistentHanoi.Abandoned` | persist-clang-tool/output_recurse/hanoi/user_hanoi.cpp:182-192 | If the first run dies after k moves, k less than all, then after any later runs a completing run prints that unfinished board: the solve is never taken up again |
| `PersistentHanoi.ReachableIsSafe` | persist-clang-tool/output_recurse/hanoi/user_hanoi.cpp:153-165 | On every such board the pegs are sorted and all n disks, or none, are on them |
| `PersistentHanoi.NoDanglingLinks` | persist-clang-tool/output_recurse/hanoi/user_hanoi.cpp:95-148 | In every such pool each walk from a slot stays in live blocks until null, meets no block twice and never a block of another slot |
| `PersistentHanoi.NoOrphans` | persistentLib/pmem_allocator.hpp:185-195 | In every such pool each live block is the root or reachable from a slot |
| `PersistentHanoi.BoardIsUnique` | persist-clang-tool/output_recurse/hanoi/user_hanoi.cpp:169-173 | A pool shows one board only |
| `UserBucket.Bucket.Insert` | kvnode/user_kvnode.cpp:31-41 | The DRAM bucket counts the word up, or puts it in front with count 1 |
| `UserBucket.Bucket.GetCount` | kvnode/user_kvnode.cpp:43-50 | The count of the word, 0 if absent |
| `UserBucket.Bucket.InsertEach` | kvnode/user_kvnode.cpp:31-41 | Any sequence of insertions on the DRAM bucket |
| `UserBucket.Bucket.ServeAll` | kvnode/user_kvnode.cpp:27-50 | Any sequence of insertions and counts on the DRAM bucket answers as the list of entries does |
| `UserBucket.AddedCounts` | kvnode/user_kvnode.cpp:31-41 | One insertion raises the count of its word by one and of no other word, and keeps words unique |
| `UserBucket.CountsOccurrences` | kvnode/user_kvnode.cpp:31-50 | After any insertions the count of every word is its number of occurrences |
| `UserBucket.OccurrencesCount` | kvnode/user_kvnode.cpp:31-50 | Occurrences are the multiplicity of the word in the sequence |
| `PersistentBucket.NewNode` | persist-clang-tool/output_recurse/kvnode/user_kvnode.cpp:35-41 | A node with count 1, null link and a key that spells the word, pending until the commit |
| `PersistentBucket.Locate` | persist-clang-tool/output_recurse/kvnode/user_kvnode.cpp:94-98 | The first node of the word, or null exactly when there is none |
| `PersistentBucket.Insert` | persist-clang-tool/output_recurse/kvnode/user_kvnode.cpp:92-104 | One atomic durable change: a count raised, or a node and its key linked in front and size increased |
| `PersistentBucket.GetCount` | persist-clang-tool/output_recurse/kvnode/user_kvnode.cpp:106-119 | The count of the word; nothing durable changes |
| `PersistentBucket.AddKeepsBucket` | persist-clang-tool/output_recurse/kvnode/user_kvnode.cpp:99-102 | Linking a new node keeps the chain acyclic and the bucket spells the new entry in front |
| `PersistentBucket.BumpKeepsBucket` | persist-clang-tool/output_recurse/kvnode/user_kvnode.cpp:96 | Raising a count changes that entry only |
| `BucketRewrite.ServeAll` | persist-clang-tool/output_recurse/kvnode/user_kvnode.cpp:88-136 | For every call sequence the generated class answers what the DRAM class answers, with no orphaned node or key in any durable state |
| `BucketRewrite.RunProcess` | persist-clang-tool/output_recurse/kvnode/user_kvnode.cpp:88-146 | One process that opens the pool and dies anywhere: returned calls survive, the interrupted one wholly or not at all |
| `BucketRewrite.History` | persist-clang-tool/output_recurse/kvnode/user_kvnode.cpp:88-146 | Over any number of processes on one pool, each dying anywhere or not, every process answers as the DRAM class that saw exactly the calls surviving before it, and the pool shows their replay |
| `BucketRewrite.CrashAndReopen` | persist-clang-tool/output_recurse/kvnode/user_kvnode.cpp:88-146 | The two-process history: after a crash anywhere the next process answers as the DRAM class that saw the surviving calls |
| `UserBucket.CountIsOccurrences` | kvnode/user_kvnode.cpp:31-50 | Every count answered is the number of insertions of that word so far |
| `PersistentCounter.Run` | persist-clang-tool/output_recurse/counter/user_counter.cpp:40-50 | Creation and increment become durable together: one new durable state per run |
| `PersistentCounter.CommitsCount` | persist-clang-tool/output_recurse/counter/user_counter.cpp:43-46 | The number of commits of a history is the multiplicity of committed runs in it |
| `PersistentCounter.History` | persist-clang-tool/output_recurse/counter/user_counter.cpp:40-50 | Over any history of completed and crashed runs the counter is the number of committed runs, and the object once created is never replaced |
| `HashTable.AddRefines` | Histogram/include/HashTable.hpp:58-87 | Adding changes the count of that word only, and keeps each word in one node of the chain of its hash |
| `HashTable.RemoveRefines` | Histogram/include/HashTable.hpp:89-106 | Removing takes out that word only, and keeps the table well formed |
| `HashTable.KeysAreTheDomain` | Histogram/include/HashTable.hpp:156-166 | The key list holds exactly the words of the table, each once |
| `HashTable.TableIsMap` | Histogram/include/HashTable.hpp:49-166 | Adding, removing, counting and looking up are the operations of a map from words to counts |
| `TableCalls.Serve` | Histogram/include/HashTable.hpp:49-166 | Each call does to the table what it does to the map, and answers what the map answers |
| `TableCalls.ServeAll` | Histogram/include/HashTable.hpp:49-166 | Over any sequence of inserts, counted inserts, updates, removes and queries the table is the replayed map, each count, existence and update answer is the map's, each key list is its domain without duplicates, and each word stays in one node of the chain of its hash |
| `HashChain.HashChain.Insert` | Histogram/include/HashTable.hpp:73-87 | On linked nodes: the count of the node raised in place, or a new node in front |
| `HashChain.HashChain.Remove` | Histogram/include/HashTable.hpp:89-106 | On linked nodes: the node is unlinked by way of its predecessor or the bucket, exactly it is deleted, the chain stays acyclic and nothing is leaked |
| `HashTable.WordTable.Hash` | Histogram/include/HashTable.hpp:49-56 | The djb2 slot of the word, modulo 2^64 and the bucket count |
| `HashTable.Djb2OfThe` | Histogram/include/HashTable.hpp:49-56 | The hash of one word |
| `HashTable.WordTable.Insert` | Histogram/include/HashTable.hpp:58-71 | Count raised by one |
| `HashTable.WordTable.InsertCount` | Histogram/include/HashTable.hpp:73-87 | Count raised by the given number |
| `HashTable.WordTable.Remove` | Histogram/include/HashTable.hpp:89-106 | The word is taken out |
| `HashTable.WordTable.GetCount` | Histogram/include/HashTable.hpp:108-118 | The count of the word, 0 if absent |
| `HashTable.WordTable.UpdateCount` | Histogram/include/HashTable.hpp:120-131 | True exactly when the word is there, and only then its count is raised |
| `HashTable.WordTable.Exists` | Histogram/include/HashTable.hpp:133-144 | True exactly when the word is there |
| `HashTable.WordTable.GetAllKeys` | Histogram/include/HashTable.hpp:156-166 | The words of all chains in order |
| `Histogram.SplitLines` | Histogram/src/main.cpp:246-284 | The chunks concatenate to the input, no chunk is longer than an earlier one, and no two differ by more than one line |
| `Histogram.CountWords` | Histogram/src/Histogram.cpp:166-175 | The table tallies the words of the chunk |
| `Histogram.PhaseOne` | Histogram/src/Histogram.cpp:166-175 | Each thread has its own table, which tallies its own chunk |
| `Histogram.Merge` | Histogram/src/Histogram.cpp:262-274 | The result is the sum of both tables, the source table is unchanged |
| `Histogram.MergeNode` | Histogram/src/Histogram.cpp:209-241 | The first table of the node tallies all chunks of the node |
| `Histogram.Pipeline` | Histogram/src/Histogram.cpp:421-434 | The whole SINGLE_THREAD program: it produces a table if and only if the number of threads is even, and the table is the word count of the whole input |
| `Histogram.CountsWholeBook` | Histogram/src/main.cpp:83-112 | The words of the chunks of node 0 followed by those of node 1 are the words of the input |
| `Histogram.PhaseTwo` | Histogram/src/Histogram.cpp:421-431 | From the input through the first barrier to the merged tables of both nodes: tables if and only if the number of threads is even, and their tallied texts make up the input |
| `Barrier.PassesExactlyWhenEven` | Histogram/src/Histogram.cpp:51-54 | For every order of arrival of the threads started, two halves of the number rounded down, at a barrier of the full number: no thread ever passes if the number is odd; once all have arrived, all have passed if it is even and all wait for ever if it is odd |
| `Barrier.Meet` | Histogram/src/Histogram.cpp:424 | All threads arrive in any order: the same outcome |
| `ParallelMerge.StepKeepsInv` | Histogram/src/Histogram.cpp:302-329 | Every locked step of every worker keeps the invariant: handled keys have the sum, others the old count |
| `ParallelMerge.EveryInterleavingSums` | Histogram/src/Histogram.cpp:294-329 | Every interleaving of all workers to their end leaves the sum of both tables |
| `ParallelMerge.EveryInterleavingCounts` | Histogram/src/Histogram.cpp:294-329 | Run on two counted halves, every interleaving gives the word count of both |
| `ParallelMerge.SameAsSequential` | Histogram/src/Histogram.cpp:262-329 | Every finished interleaving leaves the same map from words to counts as the sequential merge of the same tables |
| `ParallelMerge.ParallelPipeline` | Histogram/src/Histogram.cpp:294-329 | From the input lines, for an even number of threads, every finished interleaving of the workers of node 0 ends with the word count of the whole input |
| `ParallelMerge.RunsEnd` | Histogram/src/Histogram.cpp:302-329 | No interleaving is longer than the work at its start |
| `Strides.Stride` | Histogram/src/Histogram.cpp:303-305 | Strided shards are a partition: moving on keeps the owner and skips nothing of the same owner |
| `LockProtocol.LookupStaysHome` | Exprs/Examples/TestSuite.cpp:812-823 | A lookup calls the tree of that index on the thread's own node |
| `LockProtocol.TransfersGo` | Exprs/Examples/TestSuite.cpp:825-880 | The four kinds of transaction remove the key from one tree and insert it into another: from node 0 to 1, from 1 to 0, within 0, within 1; the last two are skipped when both trees are the same |
| `LockProtocol.PlanGuards` | Exprs/Examples/TestSuite.cpp:810-942 | The locks taken guard exactly the trees called, and no iteration calls a tree twice |
| `LockProtocol.PlanIsOrdered` | Exprs/Examples/TestSuite.cpp:810-942 | In all branches the locks, at most two and in range, are taken in strictly increasing order |
| `LockProtocol.StepKeepsInv` | Exprs/Examples/TestSuite.cpp:810-942 | A mutex is held by exactly the thread that has taken and not released it |
| `LockProtocol.SomeoneMoves` | Exprs/Examples/TestSuite.cpp:810-942 | From any unfinished thread a chain of threads, each waiting for a mutex held by the next, leads to one that can step |
| `LockProtocol.DeadlockFree` | Exprs/Examples/TestSuite.cpp:810-942 | In every reachable state an unfinished thread, or the end of a chain of threads it waits for, can step, for any number of threads and trees |
| `LockProtocol.NoSharedTree` | Exprs/Examples/TestSuite.cpp:810-942 | Two threads that hold all their locks never call the same tree |
| `LockProtocol.Guarded` | Exprs/Examples/TestSuite.cpp:810-942 | A thread at work holds the mutex of every tree that it calls |
| `LockProtocol.Serialisable` | Exprs/Examples/TestSuite.cpp:810-942 | In every interleaving, whenever no thread is between its two calls, every tree has served exactly the calls of the iterations run one after the other |
| `SearchTree.BinarySearchTree.Insert` | Exprs/include/BinarySearch.hpp:699-740 | The heap tree stays ordered and gains exactly the key in one new node, or is unchanged if it has it; the level returned is the depth of the key |
| `SearchTree.BinarySearchTree.Lookup` | Exprs/include/BinarySearch.hpp:760-789 | The depth of the key if present; the depth at which an insertion would hang it if absent; never more than the depth of the tree |
| `SearchTree.BinarySearchTree.GetDepth` | Exprs/include/BinarySearch.hpp:743-758 | The depth of the tree |
| `SearchTree.BinarySearchTree.FindMin` | Exprs/include/BinarySearch.hpp:859-863 | The leftmost node, which holds the least key of an ordered tree; null exactly for the empty tree |
| `SearchTree.BinarySearchTree.DeleteHelper` | Exprs/include/BinarySearch.hpp:866-904 | For every tree: not found, nothing changes; found with a missing child, exactly that node is spliced out; found with two children, the deleted node is used |
| `SearchTree.BinarySearchTree.Remove` | Exprs/include/BinarySearch.hpp:636-650 | The tree is dropped if its root has the key and unchanged otherwise; the key-found branch below and the third branch are never reached |
| `SearchTree.Run` | Exprs/include/BinarySearch.hpp:636-740 | In every run of insertions and removals no removal finds a key below the root, and the keys are those inserted since the last removal of the then root |
| `SearchTree.SearchIsExact` | Exprs/include/BinarySearch.hpp:760-789 | The search meets the key exactly when the ordered tree holds it, at its depth |
| `SearchTree.GrownAddsTheKey` | Exprs/include/BinarySearch.hpp:732-737 | Hanging the leaf where the search ends keeps the order and adds exactly the key, at the level counted |
| `SearchTree.DepthIsDeepest` | Exprs/include/BinarySearch.hpp:749-758 | The depth is one more than that of the deepest key |
| `SearchTree.CutTakesTheKey` | Exprs/include/BinarySearch.hpp:873-886 | Splicing out a node with a missing child keeps the order and takes out exactly the key |
| `SearchTree.CrowdedMeans` | Exprs/include/BinarySearch.hpp:873-904 | The search ends at a node with two children exactly when the tree has such a node with the key |
| `SearchTree.RemovesExactly` | Exprs/include/BinarySearch.hpp:636-650 | Removal takes out exactly the key if and only if the key is absent or the only one |
| `SearchTree.RemoveMisses` | Exprs/include/BinarySearch.hpp:636-650 | A tree of two keys where one removal does nothing and the other drops both |
| `Memspace.Memory.Alloc` | unified-memory-framework/src/base_alloc/base_alloc_global.c:151-156 | A request of size 0 gets NULL; any other may fail, or gets a block nobody has |
| `Memspace.CloneTarget` | unified-memory-framework/src/memtarget.c:56-77 | All or nothing: an alike target with two new blocks, or no block changed |
| `Memspace.DestroyTarget` | unified-memory-framework/src/memtarget.c:50-54 | Exactly the two blocks of the target are released |
| `Memspace.Compare` | unified-memory-framework/src/memtarget.c:128-156 | Negative for different types, 0 for the same target, positive for different ones |
| `Memspace.New` | unified-memory-framework/src/memspace.c:114-131 | An empty memspace in one new block, or no block changed |
| `Memspace.Destroy` | unified-memory-framework/src/memspace.c:133-141 | Every block of the memspace is released, none twice and no other |
| `Memspace.Add` | unified-memory-framework/src/memspace.c:338-383 | For every pattern of failures: a clone appended and every other block accounted for, or memspace and live blocks unchanged; without failures it succeeds exactly when the targets with the new one are pairwise different and of one type |
| `Memspace.FitsIsUniform` | unified-memory-framework/src/memspace.c:344-360 | The comparisons accept a target exactly when the targets with it are pairwise different and of one type |
| `Memspace.Remove` | unified-memory-framework/src/memspace.c:385-429 | For every pattern of failures: exactly that target gone and its blocks released, or nothing changed; without failures it succeeds exactly when the target is there and not the last one |
| `Memspace.Clone` | unified-memory-framework/src/memspace.c:143-184 | For every pattern of failures: an alike memspace in new blocks, or no block changed; without failures it succeeds exactly on a non-empty memspace |
| `Memspace.Filter` | unified-memory-framework/src/memspace.c:240-320 | For every pattern of failures: one clone for every value picked, in the order in which the values are picked first, or no block changed; a failing callback changes nothing |
| `Memspace.UniquePicks` | unified-memory-framework/src/memspace.c:255-277 | Fails exactly at a failing callback, otherwise lists every value picked once, at the positions of first picks in order |
| `Memspace.FilterHelper` | unified-memory-framework/src/memspace.c:432-482 | On success exactly the targets with a positive verdict remain, in order; a failing callback or a failing first removal changes nothing; without failures it succeeds exactly when some target is kept, and reaches the rollback exactly when two or more targets are all rejected; at the rollback the memspace is valid without the targets removed so far, and nobody owns the first handle that the rollback reads |
| `Memspace.Calls` | unified-memory-framework/src/memspace.c:114-482 | Over every sequence of additions, removals, clones, selections and filterings the targets are the replay of the calls that succeeded, pairwise different and of one type, and every block stays accounted for, unless a filtering reaches its rollback |
| `KeyHash.FoldRoundTrip` | ycsb/include/HashNode.hpp:21-23 | An xor-shift by more than a third of the word and its explicit inverse undo each other |
| `KeyHash.TimesRoundTrip` | ycsb/include/HashNode.hpp:21-22 | A product modulo 2^64 is undone by an inverse factor |
| `KeyHash.MixRoundTrip` | ycsb/include/HashNode.hpp:20-25 | mix64 is a bijection with an explicit inverse, both ways round |
| `KeyHash.MixFormula` | ycsb/include/HashNode.hpp:20-25 | mix64 by its formula, with the shifts as divisions by powers of two |
| `KeyHash.MixNeverCollides` | ycsb/include/HashNode.hpp:37-39 | In mix mode two keys have the same hash exactly when they are the same |
| `KeyHash.Djb2Collides` | ycsb/include/HashNode.hpp:29-33 | In djb2 mode two different keys may have the same hash |
| `KeyHash.Djb2Hash` | ycsb/include/HashNode.hpp:29-33 | The wrapping shift-and-add loop equals the plain polynomial: it never wraps |
| `KeyHash.Djb2Polynomial` | ycsb/include/HashNode.hpp:29-33 | The hash as a polynomial: 5381 times 33^8, and each byte with its power of 33 |
| `KeyHash.NextByte` | ycsb/include/HashNode.hpp:31 | The bytes are the digits of the key to the base 256 |
| `RecordTable.PutRefines` | ycsb/include/HashTable.hpp:48-59 | Putting a record changes that key only, and keeps each key in one node of the chain of its hash |
| `RecordTable.RecordTable.Insert` | ycsb/include/HashTable.hpp:48-59 | True exactly for a new key, which then has its first payload; no other key changes |
| `RecordTable.RecordTable.Get` | ycsb/include/HashTable.hpp:63-76 | True exactly when the key is there |
| `RecordTable.RecordTable.Update` | ycsb/include/HashTable.hpp:80-97 | Always true: the payload rewritten, or an absent key inserted; no other key changes |
| `RecordTable.RecordTable.Rewrite` | ycsb/include/HashTable.hpp:85-90 | Each byte written is the old byte mixed with the byte written before it, all bits moved up by one place and the topmost to the bottom |
| `RecordTable.ScrambleRoundTrip` | ycsb/include/HashTable.hpp:85-90 | The rewrite of a payload loses nothing: the old payload can be computed back |
| `Prefill.StepKeepsInv` | ycsb/src/ycsb_benchmark.cpp:133-148 | Every round of every thread keeps: each table holds exactly the handled keys at home there |
| `Prefill.EveryEvenKeyOnce` | ycsb/src/ycsb_benchmark.cpp:108-149 | Every execution, from the barrier through every interleaving: for an even, non-zero number of threads each even key below 2*(num_keys/2) is inserted exactly once, each insertion returns true, and table x holds exactly the even keys whose hash modulo the number of all tables is x; for any other number nothing is inserted |
| `Prefill.ThroughExactlyWhenEven` | ycsb/src/ycsb_benchmark.cpp:48-50 | The threads started get through the barrier exactly when their configured number is even and not zero |
| `Prefill.PrefillsExactlyWhenEven` | ycsb/src/ycsb_benchmark.cpp:108-149 | All even keys end up at home if and only if the number of threads is even and not zero, or there are no even keys |
| `Prefill.HomeSlot` | ycsb/src/ycsb_benchmark.cpp:135-148 | The home is the hash modulo all tables, and its slot within the node is the hash modulo the tables per node |
| `Prefill.ProbeFinds` | ycsb/src/ycsb_benchmark.cpp:206 | After the prefill a read on node 0 finds exactly the keys placed whose hash modulo all tables is below the tables per node, a read on node 1 exactly the others |
| `Workload.SelectWorkload` | ycsb/src/ycsb_benchmark.cpp:362-376 | Known names only, and the shares add up to 100 |
| `Workload.KnownMixes` | ycsb/src/ycsb_benchmark.cpp:363-374 | The mixes of the six workloads |
| `Workload.TotalSums` | ycsb/src/ycsb_benchmark.cpp:392 | The total is the sum of the percentages |
| `Workload.ShareRoundsDown` | ycsb/src/ycsb_benchmark.cpp:397 | A share is the percentage of the threads, rounded down |
| `Workload.SharesFit` | ycsb/src/ycsb_benchmark.cpp:383-401 | The rounded-down shares of at most 100 percent never exceed the threads |
| `Workload.Assign` | ycsb/src/ycsb_benchmark.cpp:402-410 | The pool is padded with its last task to exactly the threads; all indexes are in range unless the pool is empty |
| `Workload.DealPermutes` | ycsb/src/ycsb_benchmark.cpp:406-409 | Dealing an even pool to two nodes is a permutation |
| `Workload.ParseMixedWorkload` | ycsb/src/ycsb_benchmark.cpp:378-410 | Exits exactly at the first entry over 100 percent; throws exactly at the first unreadable number or unknown name; with all entries accepted, reads outside if and only if there are two or more threads and every threads * percent is below 100; otherwise one task per thread: each entry, in order, has its percentage of the places rounded down, these carry its workload and local percentage, the places left over carry the last task, even places are on the first node and odd ones on the second; a permutation of the padded pool when the number of threads is even |
| `Workload.PoolEmpty` | ycsb/src/ycsb_benchmark.cpp:396-400 | The pool is empty if and only if no entry's percentage gives it a whole thread |
| `Workload.FortyPercentOfTwo` | ycsb/src/ycsb_benchmark.cpp:402-408 | One entry of 40 percent with two threads meets the condition for reading outside |

## Left out

- PMDK itself (cache flushes, pool files, its own metadata) is the state machine of `PmemPool`; words are unbounded integers and a block is a sequence of words, so C++ layout, object destructors without effect and integer overflow are not modelled.
- Allocation failure inside a transaction is the `Abort` step of `PmemPool`; the methods on top assume that the pool has room, since an exception there leaves what a crash leaves.
- `persistent<T>` on the stack or in DRAM, `pmem_string` objects outside the pool, and its destructor, which no modelled program calls.
- PersistentLib.GetOrCreate: an object is a list of words, each stored through the log or written plainly; constructors that allocate further objects are not modelled.
- The Clang tool that generates the persistent classes: its output is modelled against its input.
- The printing of the key-value program (`printAll`), which adds nothing to what its counts already show.
- HashTable.WordTable: its chains are values; a chain of linked nodes, with the walk and the unlinking of the source, is modelled in `HashChain`, but the array of such chains is not.
- RecordTable.RecordTable: chains and payloads are values; rewriting a payload inside its buffer is not modelled as aliasing memory. The payload size is one per table, as the benchmark passes it.
- Histogram.Pipeline: lines are sequences of words; reading files and splitting lines at white space are not modelled. No threads at all divide by zero and are not modelled; the later barriers have the same width as the first.
- `multi_node_merge`, the ALL strategy and the second merge in a row of the SINGLE_NODE and MULTI_NODE strategies: as written they do not compute the word count. The thread configuration that swaps node numbers but not thread numbers.
- ParallelMerge.EveryInterleavingSums: a locked section is one step; the key list is built once before, as the barriers enforce.
- LockProtocol.Serialisable: a call on a tree is one step that adds it to the calls the tree has served; what the tree makes of its calls is modelled in `SearchTree`. Random choices and timing are not modelled.
- SearchTree.BinarySearchTree.DeleteHelper: at a node with two children the model stops, after `findMin`, where the code deletes the node it goes on to use; no run reaches this.
- Memspace.FilterHelper: the loop that adds removed targets back is not modelled beyond reaching it, because it reads handles that the removal destroyed.
- Memspace.Filter: the callback's answer is given as the index of a target of the memspace, negative for its failure.
- Memspace.Calls: the clones and selections of a sequence are destroyed again at once.
- A NULL memspace, providers, pools, topology, IPC and sorting by property in UMF.
- Prefill.EveryEvenKeyOnce: one round of a thread's loop, a locked insertion, is one step, so that every interleaving is covered; at least one table and bucket; the timed workload after it (random keys and operations, clocks, Zipfian numbers) is left out except for the slot it probes.
- Workload.ParseMixedWorkload: entries arrive split at commas and dashes, each number read or marked unreadable.
- The `numa<T>` copies of the plain classes, the stack and queue of the benchmark, and plumbing scripts: only easy members to add.
