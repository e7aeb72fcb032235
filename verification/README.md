# everdb-native: a verified model of the block-storage core

everdb-native keeps its data in 4096-byte blocks of one file. This project models four of its components in Dafny
and proves what they promise their callers:

- the **B+ tree over blocks** (`src/btree.c`): binary search, insert with split-and-retry, delete with steal-or-merge,
  root growth, over nodes that are edited in place and copied before they are written when the last commit still
  refers to them;
- **transactions** (`src/txn.c`, `src/freelist.c`, `src/math.h`): begin, allocate, modify, free, commit and abort over
  a primary and a secondary free list root and a set of marks, and the rule by which the file grows;
- the **page table and the array on top of it** (`src/page.c`, `src/page.h`, `src/array.c`): the four loops of a
  resize, the 512 direct blocks and the 1024-wide index blocks, and the array that moves between its root block and
  data blocks, down to the bytes the two layouts share;
- the **in-memory hash table** (`src/mem_hash.h`): triangular probing over prime capacities with 32-bit wrap-around, and
  why every probe loop ends.

Every operation that changes state is a method of a class (`BTreeStore.Db`, `BTreeNode.Node`, `TxnStore.Db`,
`PageStore.Store`, `PageArray.Array`, `MemHash.Table`) and is proved against a function of the old state; the
properties below are proved about those functions, for all inputs, all reachable states or all runs.

## How the files fit together

| component | values and theorems | state and methods |
|---|---|---|
| B+ tree | `SortedSlots` (bisection, sorted pair lists and their maps), `BTreeModel` (the tree as a value), `BTreeSearch`, `BTreeSet`, `BTreeOrder` (the order of node keys), `BTreePop`, `BTreeRuns`, `BTreeExamples` (concrete trees on which the conditions fail) | `BTreeHeap` and `BTreeSteps` (trees in blocks, framing), `BTreeNode` (one block), `BTreeStore` |
| transactions | `BitMath` (smearing, masks), `TxnModel`, `TxnDevice` (the block device that the B+ tree assumes) | `TxnStore` |
| page table, array | `BlockBytes`, `PageModel`, `ArrayModel` | `PageStore`, `PageArray` |
| hash table | `Primes` (Euclid's lemma, the listed capacities), `Probing` (every probe sequence visits every slot; which ones meet early) | `MemHash` |

`Words` and `Arithmetic` are shared. `dafny verify dfyconfig.toml` checks the whole project.

## Where the code does less than it seems to

These results are conditions, because the unconditional statement does not hold of the code as written. Each condition
is decided before the call, and each failing side has a concrete witness.

- **Set.** After a split, line 212 of `src/btree.c` routes the retry by the separator from before the split. In a tree
  with increasing node keys, as every valid one, a set always binds its own key (`BTreeOrder.SetBindsKey`). It leaves
  every other lookup alone if and only if it is *split-safe*: wherever a full child has to be split, the key is above
  the child's old maximum or below every key that moves to the right half (`BTreeSet.SetCorrectIff`).
  `BTreeExamples.SetLosesAKey` is a concrete tree and key for which a stored key is lost. Safe or not, sets keep depth,
  exact separators, fill and sorted leaves (`BTreeRuns.ReachedBySets`).
- **Order of separators.** In a tree whose node keys increase they still do after a set if and only if the set *keeps
  order*: wherever it retries in a right half, the left half ends above the separator before the split child
  (`BTreeOrder.OrderKeptIff`; for whole runs `BTreeRuns.OrderReachedBySets`). In a valid tree every set keeps order
  (`BTreeOrder.ValidKeepsOrder`), so it takes an unsafe set before; `BTreeExamples.SeparatorsCanFall` is a run of sets
  from an empty tree after which separators are out of order. The model therefore searches by the source's own
  bisection, which is determined for every key array (`SortedSlots.SearchHalves`), and not by a property of sorted
  arrays; in that tree it finds a key that the lower bound would miss (`BTreeExamples.SearchAmongFallen`).
- **Pop, contents.** A merge that leaves its node with SPLIT or more children still reports EMPTY to the parent, which
  then refills a node that was never short. If it merges, the joined node may exceed SIZE entries, and the loop in lines
  314 to 319 writes past its arrays, over child ids and the next block. The pop overruns a node in this way if and only
  if a condition on the sizes along the path fails (*merges fit*); when it holds, exactly the popped key is removed
  (`BTreePop.PopCorrectIff`). `BTreeExamples.PopOverruns` is a valid tree of height 2 and a stored key where 127 and
  399 children are merged.
- **Pop, value.** The same fall-through zeroes the value (lines 325 to 330). It comes back if and only if the pop is
  *merge-safe* (`BTreePop.PopCorrectIff`); `BTreeExamples.PopLosesValue` is a tree where it does not.
- **Probes.** In a table of prime size, and all listed capacities are prime (`Primes.SizesArePrime`), two probes of the
  first half period look at the same slot if and only if they lost different multiples of 2^31 to wrap-around, of the
  square or of the sum, and that loss makes up for the difference of their triangular numbers modulo the size
  (`Probing.FirstProbesMeet`). `Probing.FirstProbesCanMeet` is an input where the sum wraps around, and
  `Probing.SquaresCanMeet` one where the square does, at the listed capacity 179717. Lookups end all the same: the
  wrapped offsets are a permutation of the numbers below 2^31 (`Probing.OffsetsDiffer`), so every probe sequence visits
  every slot (`Probing.ProbesCover`), and no table built by sets is ever full. They can be long: in one three-slot table
  the first 65536 probes miss the empty slot (`MemHash.MissingKeyProbesOn`).
- **Double free.** Freeing a block twice in one transaction is refused if and only if the block was in use at begin. A
  block that came into use since loses its mark at the first free (`src/txn.c` lines 68 and 80), so the second one notes
  it as freed, and the commit lists it twice (`TxnModel.SecondFree`; in any file `TxnModel.FreeTwiceListsTwice`).
- **File growth.** The rounded size is computed correctly below 0xE000_0000 blocks; from there on the sum wraps around
  and the requested size is 0 (`BitMath.NextSize`).

## Model

| member | source | states |
|---|---|---|
| BTreeModel.Route | src/btree.c:163-182 | where the bisection sends a key: the child's separator is not below the key unless it is the last child; where it is not below, the separator before it is |
| SortedSlots.LowerBoundUnique | src/btree.c:15-29 | the position of a key in a sorted list is determined by what lies before it and at it |
| SortedSlots.SearchIncreasing | src/btree.c:15-29 | in an increasing key array the bisection ends at the first key that is not below k |
| SortedSlots.SearchUnique | src/btree.c:15-29 | in any array split into keys below k and keys not below k, in whatever order, it ends at the split |
| SortedSlots.SearchHalves | src/btree.c:15-29 | in any key array, ordered or not, the search compares with the middle key and is the search of the part behind it, or before it |
| SortedSlots.UpsertSorted | src/btree.c:164-172 | inserting or overwriting at the lower bound keeps the order and updates the map at that key only |
| SortedSlots.DeleteSorted | src/btree.c:43-52 | removing the entry at the lower bound keeps the order and removes that key only |
| BTreeSearch.GetCorrect | src/btree.c:100-119 | get returns the bound value exactly when the key is in the map of the leaves, through any height |
| BTreeSearch.GetFollowsRoute | src/btree.c:100-119 | in any tree, ordered or not, get looks below the child a set would go to, exactly when that child's separator is not below the key |
| BTreeSearch.FirstLastCorrect | src/btree.c:55-98 | first and last return the smallest and the largest pair, and nothing for an empty tree |
| BTreeSearch.RouteOwns | src/btree.c:100-119 | only the routed child can hold the key: all pairs left of it are below, all right of it above |
| BTreeSearch.NodeKeysIncrease | src/btree.c:15-29 | the key array of every node of a valid tree is strictly increasing, as the binary search needs |
| BTreeSearch.KeyInRange | src/btree.c:111-119 | a key stored below the routed child lies between its neighbours' separators |
| BTreeSet.SetFullIff | src/btree.c:173-195 | FULL is returned exactly when the key is new and every node on its path is full, and then the tree is unchanged; otherwise set succeeds |
| BTreeSet.SetKeepsWf | src/btree.c:157-227 | a successful set keeps uniform depth, exact separators and fill bounds, whether or not it is split-safe or the keys are in order |
| BTreeSet.HalvesHaveRoom | src/btree.c:195-216 | after a split both halves have room, so the retry cannot report FULL |
| BTreeSet.SplitCuts | src/btree.c:193-219 | a full child is cut into its first 127 and its other 383 entries; the half that is not retried keeps its entries, the other one gains at most one, and no other child changes |
| BTreeSet.SafeSetUpserts | src/btree.c:157-227 | a split-safe set is exactly an upsert of the sorted contents, through cascaded splits |
| BTreeSet.AboveMaxIsSafe | src/btree.c:211-216 | keys above the tree's maximum are always split-safe, so ascending loads never lose a key |
| BTreeSet.UnsafeSetLoses | src/btree.c:211-216 | every set that is not split-safe makes some other stored key unreachable |
| BTreeSet.SetCorrectIff | src/btree.c:157-227 | set updates every lookup as a map update does if and only if it is split-safe, and then the tree stays valid |
| BTreeOrder.SetBindsKey | src/btree.c:157-227 | in a well-formed tree with increasing node keys, get finds the key with its value right after any successful set, split-safe or not |
| BTreeOrder.OrderKeptIff | src/btree.c:193-219 | node keys still increase after a set if and only if, wherever it retries in a right half, the left half ends above the separator before the child |
| BTreeOrder.ValidKeepsOrder | src/btree.c:193-219 | in a valid tree the node keys increase and every set meets that condition |
| BTreeOrder.HalvesOrdered | src/btree.c:205-210 | splitting a node anywhere keeps both parts ordered, the left one ending below the right one |
| BTreePop.PopDeletes | src/btree.c:230-339 | popping a stored key removes exactly that pair from the contents, through every steal and merge, if the merges fit their nodes |
| BTreePop.PopCodeIs | src/btree.c:230-339 | the result code of popping a stored key, EMPTY, REALLY_EMPTY, success or an overrun node, is decided by the sizes along its path |
| BTreePop.RightNeighbourHelps | src/btree.c:261-328 | a child that reports EMPTY and is not the last is helped by the one behind it: success exactly when that has more than SPLIT entries, and then one entry moves; otherwise the two become one; no other child changes |
| BTreePop.LeftNeighbourHelps | src/btree.c:261-328 | the last child is helped by the one before it in the same way |
| BTreePop.PopErrorKeepsKeys | src/btree.c:237-338 | a pop that reports an error hands back 0 and leaves the keys of the node as they are, in any tree |
| BTreePop.RefillKeepsFlat | src/btree.c:283-324 | stealing from either side, and merging two nodes that fit one, move pairs between neighbours and change no contents |
| BTreePop.StealKeepsWf | src/btree.c:283-300 | a steal restores fill and separators of both neighbours |
| BTreePop.RefillKeepsWf | src/btree.c:264-328 | refilling a child that is at most one entry short, by a steal or a merge that fits, restores order, separators, depth and fill |
| BTreePop.PopKeepsWf | src/btree.c:230-339 | a pop whose merges fit keeps depth, separators and fill, unless it runs dry: the root's only child reports EMPTY |
| BTreePop.SafePopWorks | src/btree.c:230-339 | a merge-safe pop returns the value, and reports EMPTY exactly when the sizes say so |
| BTreePop.SafePopFits | src/btree.c:314-319 | no merge of a merge-safe pop exceeds SIZE entries, nor does it run dry |
| BTreePop.UnsafePopLoses | src/btree.c:322-330 | a pop that is not merge-safe hands back 0 instead of the value |
| BTreePop.PopAbsent | src/btree.c:237-250 | popping a missing key not above the last one reports INVALID_KEY and changes nothing |
| BTreePop.ReadyToPop | src/btree.c:230-339 | the precondition of the block-level pop holds in valid trees for missing keys, and for stored ones whose merges fit |
| BTreePop.PopCorrectIff | src/btree.c:230-339 | pop overruns a node if and only if a merge does not fit; otherwise it deletes exactly its key and keeps the tree valid unless it runs dry; the value comes back if and only if the pop is merge-safe |
| BTreeRuns.GrowCorrect | src/btree.c:121-155 | growing a root of two or more entries keeps the contents and adds exactly one level; the left half takes half of the entries, rounded down; the new tree is well formed exactly from 2 * SPLIT entries on |
| BTreeRuns.EntriesPerSlot | src/btree.c:193-219 | a node over h levels stores at least SPLIT^h and at most SIZE^h pairs per entry of its own |
| BTreeRuns.SetKeepsReachable | src/btree.c:121-227 | every set, split-safe or not, with grow when it reports FULL, keeps depth, separators, fill, a root of two entries and sorted leaves |
| BTreeRuns.ReachedBySets | src/btree.c:6-227 | every tree that sets reach from an empty one has all that, and over h > 0 internal levels stores at least 2 * SPLIT^h and at most SIZE^(h + 1) pairs |
| BTreeRuns.StepOrderIff | src/btree.c:121-227 | the same condition decides a set with grow, and the key that was set is found |
| BTreeRuns.RunOrderIff | src/btree.c:121-227 | node keys increase throughout a run of sets if and only if each of its sets meets the condition |
| BTreeRuns.OrderReachedBySets | src/btree.c:6-227 | so every tree on the way of a run from an empty tree has increasing node keys exactly when each set meets it |
| BTreeRuns.StepRefinesMap | src/btree.c:121-339 | one split-safe set (with grow when full), or one pop whose merges fit and that does not run dry, refines one map step |
| BTreeRuns.RunRefinesMap | src/btree.c:121-339 | any run of such sets and pops from a valid tree refines the run over the map |
| BTreeExamples.SetLosesAKey | src/btree.c:211-216 | a concrete full leaf below a root, and a key whose insertion loses key 254 |
| BTreeExamples.SeparatorsCanFall | src/btree.c:211-216 | 894 sets from an empty tree after which the separators are 508, 1527, 1016 and 1784, so that one of the sets does not keep order |
| BTreeExamples.SearchAmongFallen | src/btree.c:15-29 | in that tree a get of 1100 goes to the last child and finds it, although the first separator that is not below 1100 is that of child 1 |
| BTreeExamples.PopLosesValue | src/btree.c:322-330 | a valid tree and a stored key that is removed while its value is handed back as 0 |
| BTreeExamples.PopOverruns | src/btree.c:314-319 | a valid tree of height 2 and a stored key whose pop merges 127 and 399 entries into one node |
| BTreeHeap.OwnedFrame | src/btree.c:121-339 | a tree in blocks depends on its own blocks only |
| BTreeHeap.ForestConcat | src/btree.c:193-219 | children stored in separate blocks stay separate when node entries are joined |
| BTreeHeap.ForestCut | src/btree.c:205-210 | and when they are split |
| BTreeHeap.ReplaceRange | src/btree.c:186-219 | replacing some children of a node leaves all others where and as they were |
| BTreeHeap.OutcomeTransitive | src/btree.c:157-339 | one operation after another: only the tree's own blocks are written, new ones belong to the tree, and dropped ones are released, so none leaks |
| BTreeSteps.CommittedStays | src/txn.c:96-125 | a tree of the last commit keeps all its blocks through every tree operation of the transaction |
| BTreeSteps.SplitHolds | src/btree.c:195-210 | after the split both halves are stored apart from each other in the old blocks and one new one |
| BTreeSteps.Recut | src/btree.c:283-300 | dealing the entries of two stored nodes out again keeps both subtrees stored apart |
| BTreeSteps.MergedHolds | src/btree.c:314-322 | appending one node to another stores the joined node without the released block |
| BTreeNode.Node.Init | src/btree.c:6-12 | an initialised block is an empty leaf |
| BTreeNode.Node.Find | src/btree.c:15-29 | the binary search loop ends where the search of the key array does, which SearchHalves determines for every array |
| BTreeNode.Node.Insert | src/btree.c:31-40 | the shifting loop inserts the pair at j and moves the rest up |
| BTreeNode.Node.Remove | src/btree.c:43-52 | the shifting loop removes entry j, moves the rest down and clears the vacated place |
| BTreeNode.Node.SplitInto | src/btree.c:205-210 | the entries from n on move to the other node |
| BTreeNode.Node.Append | src/btree.c:314-319 | the merge loop appends all entries of the other node |
| BTreeStore.Db.Modify | src/txn.c:96-125 | copy on write: a block of this transaction is returned as it is, an older one is copied to a block not in use |
| BTreeStore.Db.Get | src/btree.c:100-119 | get over blocks returns what the stored tree's get does, with the error exits |
| BTreeStore.Db.First | src/btree.c:55-75 | first over blocks returns what the stored tree's first does |
| BTreeStore.Db.Last | src/btree.c:78-98 | last over blocks returns what the stored tree's last does |
| BTreeStore.Db.Set | src/btree.c:157-227 | set over blocks stores the tree that SetT computes, in the tree's own blocks or ones not in use, and writes nothing else; the keys need not be in order |
| BTreeStore.Db.SetSplit | src/btree.c:193-221 | the split and the retry together make one step of SetT; the retry ends because the height falls |
| BTreeStore.Db.Pop | src/btree.c:230-339 | pop over blocks stores the tree that PopT computes and returns its code and value |
| BTreeStore.Db.RefillChild | src/btree.c:264-328 | the steal or merge of an underfull child over blocks, including the zeroed value |
| BTreeStore.Db.Steal | src/btree.c:283-300 | moving the neighbour's last or first entry over and resealing both separators |
| BTreeStore.Db.Merge | src/btree.c:301-328 | appending, releasing the block, removing its entry from the parent and resealing |
| BTreeStore.Db.Grow | src/btree.c:121-155 | growing uses exactly two blocks not in use before, keeps the old root or its private copy as left child, and writes nothing else |
| BitMath.NextPowerOfTwo | src/math.h:10-17 | the five smearing steps give the least power of two above x, or 0 when that does not fit the word |
| BitMath.Smear | src/math.h:11-15 | shifting by c and joining doubles the run of leading ones |
| BitMath.GrownSizeIs | src/freelist.c:22-28 | the file grows to a multiple of step, above n and at most n + step, with step the least power of two above n / 8 |
| BitMath.NextSize | src/freelist.c:22-28 | clearing the low bits of n + step by the mask computes that size below 0xE000_0000 blocks, and 0 from there on |
| TxnModel.BeginStarts | src/txn.c:129-181 | begin establishes the transaction invariant and changes nothing that is live |
| TxnModel.TakeKeeps | src/freelist.c:11-37 | a block taken from the free list or from the end of the file was in use by nobody |
| TxnModel.TakeGrows | src/freelist.c:22-33 | growing hands out the first new id and lists the others in ascending order |
| TxnModel.PushThenTake | src/freelist.c:11-51 | the free list is a stack: an allocation right after a free takes that block off and restores the state |
| TxnModel.FreeThenAllocate | src/txn.c:47-84 | allocate gives back the block freed last; freeing a block got from allocate and allocating again changes nothing |
| TxnModel.AllocateKeeps | src/txn.c:47-56 | allocate keeps the transaction invariant |
| TxnModel.CopyKeeps | src/txn.c:117-125 | copying an old block keeps the invariant, copies the content and marks the copy with its original |
| TxnModel.FreeKeeps | src/txn.c:60-92 | freeing a live block keeps the invariant and takes that block, and no other, away from the client: a new one goes on top of the free list, an old one waits for the commit, and so does the original of a copy |
| TxnModel.SecondFree | src/txn.c:60-92 | a second free of the same block is refused if and only if the block was in use at begin; otherwise it is noted as freed and the commit lists it twice |
| TxnModel.FreeTwiceListsTwice | src/txn.c:60-92 | in any file: begin, allocate, free that block twice, and the committed free list has it twice |
| TxnModel.WriteKeeps | src/txn.c:96-125 | writing to a block got from allocate or modify keeps the invariant |
| TxnModel.StepKeeps | src/txn.c:47-125 | every step a well-behaved client may take keeps the invariant |
| TxnModel.RunKeeps | src/txn.c:47-125 | so does every run |
| TxnModel.CommittedUntouched | src/txn.c:47-125 | no block that the last commit refers to is written at any point of any run |
| TxnModel.AbortAfterRun | src/txn.c:340-358 | after any run abort brings back file size, free list, object list and every live block with its content |
| TxnModel.Partition | src/txn.c:46-125 | at every point each user block is in exactly one place: free list, live, or pending |
| TxnModel.ReleasedIsPending | src/txn.c:198-237 | the entries together release each pending block and the private object list, and unset entries nothing |
| TxnModel.ReleasedOnce | src/txn.c:198-237 | and each of them once |
| TxnModel.CommitPublishes | src/txn.c:185-249 | commit frees exactly the pending blocks, keeps live contents, and copies the working object list to its fixed block |
| TxnModel.CommitAfterRun | src/txn.c:185-249 | the same after any run of a well-behaved client |
| TxnModel.FreedIsListed | src/txn.c:60-237 | whichever way a block was freed, the next commit lists it and it is no longer live |
| TxnModel.CommitOrderFree | src/txn.c:198-237 | the committed free list does not depend on the order in which the marks are visited |
| TxnModel.InlineFits | src/freelist.c:40-51 | in a file of at most 1025 blocks the free list fits its root block |
| TxnModel.NoOverflow | src/freelist.c:40-51 | so neither a free nor a commit there outgrows it |
| TxnDevice.AllocateIsDevice | src/txn.c:47-56 | allocate is the allocation the tree relies on: a block not in use, and no other disturbed |
| TxnDevice.ModifyIsDevice | src/txn.c:96-125 | modify is the copy on write the tree relies on |
| TxnDevice.FreeIsDevice | src/txn.c:60-92 | freeing a block of this transaction takes it out of use; freeing an older one leaves the device as it is and makes the block wait for the commit |
| TxnDevice.WriteIsDevice | src/txn.c:96-125 | a write to a block got from allocate or modify is a write to that block of the tree's device, and to no other |
| TxnDevice.BeginIsDevice | src/txn.c:129-181 | at begin every stored tree is a committed one: none of its blocks is writable |
| TxnDevice.TreeSurvivesAbort | src/txn.c:340-358 | after any run and an abort every tree stored at begin is stored again |
| TxnDevice.TreeSurvivesCommit | src/txn.c:185-249 | a tree in live blocks at commit is what the next transaction finds |
| TxnStore.Db.FreelistAllocate | src/freelist.c:11-37 | takes the step of the model, the stack of PushThenTake and TakeGrows, in a list inside the root block |
| TxnStore.Db.FreelistFree | src/freelist.c:41-51 | push, or rejection of the fixed blocks |
| TxnStore.Db.AllocateBlock | src/txn.c:47-56 | allocate hands out the last listed id, or the first block behind the end of the file, and marks it; without a transaction it is an error |
| TxnStore.Db.ModifyBlock | src/txn.c:96-125 | modify takes the step of the model: an owned block stays, an older one is copied to the last listed id, or to the first block behind the end of the file; after a free it is an error |
| TxnStore.Db.FreeBlock | src/txn.c:60-92 | free takes the step of the model, after which a live block is live no more and all others are; a block marked as freed is refused |
| TxnStore.Db.Begin | src/txn.c:129-181 | begin takes the step of the model; a nested begin is refused and changes nothing |
| TxnStore.Db.Commit | src/txn.c:185-264 | the loop over the marks publishes the transaction, for every order of visits |
| TxnStore.Db.Abort | src/txn.c:340-370 | abort restores the state at begin |
| PageModel.GrowThenShrink | src/page.c:100-166 | one step of growing is undone exactly by one of shrinking |
| PageModel.ShrinkThenGrow | src/page.c:100-166 | and the other way round |
| PageModel.ResizeBack | src/page.c:94-169 | resizing to any size and back restores data blocks, index blocks and the free stack element for element |
| PageModel.ResizeKeeps | src/page.c:94-169 | a table of n blocks owns n data and IndexCount(n) index blocks; no block is lost; common blocks stay in place |
| PageModel.DataFromStack | src/page.c:100-134 | data block i of a grown table is the block so many places down the free stack, counting the index blocks up to its own |
| PageModel.IndexFromStack | src/page.c:108-134 | index block j is popped right before data block 512 + 1024 * j, which opens it |
| PageModel.ResizeApart | src/page.c:94-169 | data, index and free blocks and the root stay pairwise different |
| PageStore.IndexPlaces | src/page.h:13-17 | index place j is nonzero exactly when the table has more than 512 + 1024 * j blocks |
| PageStore.DataPlaces | src/page.h:13-41 | the count is the last word of the root, data blocks 0 to 511 are its first words, and block n beyond is word (n - 512) mod 1024 of the index block in word 512 + (n - 512) / 1024 |
| PageStore.RootWordsBack | src/page.c:94-169 | after a resize and one back, the table and free stack are what they were, and so is every word of the root, header included |
| PageStore.RepGrowsIndexed | src/page.c:108-134 | one turn of the second loop, with or without a new index block, keeps the stored table |
| PageStore.RepShrinksIndexed | src/page.c:136-160 | one turn of the third loop, with or without freeing the index block, keeps the stored table |
| PageStore.Store.Init | src/page.c:88-91 | a cleared root is an empty table |
| PageStore.Store.Resize | src/page.c:94-169 | the four loops take a stored table to the table of n blocks and write only its root and index blocks |
| PageStore.Store.ReadHostIndex | src/page.c:16-85 | the host block of an index is the table's, or the index is out of bounds |
| ArrayModel.HomesDiffer | src/array.c:139-166 | different items lie in different places |
| ArrayModel.CapacityIs | src/array.c:125-136 | the root holds exactly as many items as fit into 4084 bytes, a data block as many as fit into 4096 |
| ArrayModel.OneItem | src/array.c:187-202 | writing one item changes that item only, in both layouts |
| ArrayModel.PagedToPaged | src/array.c:62-101 | resizing the page table keeps the items that still have a block |
| ArrayModel.InlineToPaged | src/array.c:75-101 | moving out of the root keeps all items |
| ArrayModel.PagedToInline | src/array.c:36-59 | moving back keeps the items that fit |
| PageArray.Array.constructor | src/array.c:12-17 | an initialised root is an empty array |
| PageArray.Array.Length | src/array.c:119-122 | the number of items |
| PageArray.Array.CapacityNow | src/array.c:125-136 | inline, as many items as fit into 4084 bytes and not one more; otherwise 4096 / size for each data block |
| PageArray.Array.Locate | src/array.c:139-166 | item i lies at place i of the root, or at place i mod p of data block i / p with p = 4096 / size; or there is no such item |
| PageArray.Array.Get | src/array.c:169-184 | get returns the item of the sequence, or out of bounds |
| PageArray.Array.Set | src/array.c:187-202 | set replaces that item of the sequence and writes no other block, or out of bounds |
| PageArray.Array.Resize | src/array.c:19-116 | asked for its own capacity the array is left alone; otherwise it moves to the smallest layout with room: the root exactly when the items fit into 4084 bytes, else the least number of blocks; the items kept are the prefix that fits, blocks are conserved, and no other block is written |
| PageArray.Array.Push | src/array.c:205-222 | push appends to the sequence; the page table stays unless the array is full, and then becomes the smallest one with room for one more item |
| PageArray.Array.Pop | src/array.c:225-239 | pop takes the last item off the sequence; on an empty array it is out of bounds |
| Primes.Euclid | src/mem_hash.h:23-31 | Euclid's lemma for the prime capacities |
| Primes.SizesArePrime | src/mem_hash.h:23-31 | all 29 listed capacities are odd primes |
| Probing.FirstProbesMeet | src/mem_hash.h:63-65 | in a table of any prime size two probes of the first half period meet exactly when they lost different multiples of 2^31 to wrap-around and that makes up for the difference of their triangular numbers |
| Probing.FirstProbesDistinct | src/mem_hash.h:63-65 | probes of the first half period that lost equal multiples hit different slots |
| Probing.FirstProbesCanMeet | src/mem_hash.h:63-65 | a hash whose sum wraps around so that the first two probes look at the same one of three slots |
| Probing.SquaresCanMeet | src/mem_hash.h:63-65 | at the listed capacity 179717, for hash 0, probes 37354 and 65544 of the first half period meet, because the square wraps around |
| Probing.TrianglesApart | src/mem_hash.h:63-65 | the triangular numbers below number 2^k are different modulo 2^k |
| Probing.OffsetsDiffer | src/mem_hash.h:63-65 | the first 2^31 probe offsets, 32-bit wrap-around included, are pairwise different |
| Probing.ProbesCover | src/mem_hash.h:63-65 | for every hash, each slot of a table of at most 2^30 slots is the target of one of the first 2^31 probes |
| MemHash.CountIsOccupied | src/mem_hash.h:95-111 | the number of keys is the number of occupied slots |
| MemHash.StopDecides | src/mem_hash.h:101-105 | where the probe loop stops decides whether the key is stored, and what get returns |
| MemHash.PutStores | src/mem_hash.h:106-110 | writing where the loop stops binds the key and keeps every probe path and the uniqueness of keys |
| MemHash.FreeProbe | src/mem_hash.h:95-105 | in a table that is not full every probe sequence meets an empty slot |
| MemHash.FreeProbeSoon | src/mem_hash.h:95-105 | in a table at most half full, of odd prime size, it does so within (p + 1) / 2 probes if none of them wraps around, in the square or in the sum; that needs a size below 131072 |
| MemHash.MissingKeyProbesOn | src/mem_hash.h:113-122 | a three-slot table in which the first 65536 probes of a lookup miss the empty slot and probe 65536 meets it |
| MemHash.Table.ProbesEnd | src/mem_hash.h:95-122 | a table built by sets is never full: for every hash the probe loop of a set or a lookup ends |
| MemHash.Table.Get | src/mem_hash.h:113-122 | get returns the bound value or 0, for every key |
| MemHash.Table.Set | src/mem_hash.h:95-111 | set binds the key in the map, resizing first when the table is more than half full, and keeps the table valid |
| MemHash.Table.Resize | src/mem_hash.h:67-92 | resize moves every pair to the first listed capacity of at least 2 * count + 1; a valid table is never larger than that, so it stays valid |
| MemHash.Table.Rehash | src/mem_hash.h:84-90 | the sets during a resize rebuild the same map and never resize again |

## Left out

- Pop of a key above the last separator of a node: `src/btree.c` lines 239 and 250 read the array entry behind the last one, which may be stale; the block-level pop requires the key not to be above the last key, as for every stored key.
- Block ids and data words of B+ tree slots are natural numbers: their 32-bit width plays no part in the tree's logic.
- BTreeStore.Db.Allocate: the file grows by one block of unknown content, because the step by which it grows belongs to `TxnStore`; `TxnDevice` proves that the transaction layer behaves as the tree's device does, but the two classes share no object.
- BTreeStore.Db.Pop: requires that the pop overruns no node; what the memory holds after the merge loop ran past the arrays is not modelled (the value model reports `Overrun` there and promises nothing else).
- BTreeStore.Db.Grow: requires a root of two or more entries; with fewer the left half is empty and line 147 of `src/btree.c` reads the key array at index -1. Growing after FULL always starts from a full root.
- BTreeRuns.GrowCorrect: requires two or more entries for the same reason.
- Pops that run dry: the tree left by one, a root over a single child that reported EMPTY, is not followed further.
- REALLY_EMPTY (`src/btree.c` line 264): nothing is stated beyond when it is returned and what the contents are then.
- TxnModel.Allowed: the client uses block ids linearly: it modifies and frees only live blocks, leaves the object list root to modify, and writes only to blocks it got from allocate or modify.
- TxnStore.Db.FreelistAllocate: the free list stays inside its root block (at most 1021 entries, as the precondition says), and the file below 0xE000_0000 blocks; the paged form, whose growth re-enters the allocator, is not modelled.
- Marks are a datatype, not words: ids at or above 0xffffff01 would collide with the two marker values.
- The marks of a transaction are a map visited in any order; that the hash table holds them is not linked to `MemHash`.
- Nested transactions: begin refuses them, so the merge and undo branches of commit and abort cannot be reached.
- PageStore.Store.Resize: requires enough free blocks; a failure in the middle of a resize is not modelled, and neither is copying shared index or data blocks, since the code does not store the copies' ids back.
- PageStore.Store.ReadHostIndex: reading and writing an index are one method, as every block is already writable.
- PageArray.Array.Resize: at most 512 + 509 * 1024 data blocks, behind which the index words would run into the header.
- Item size 0 and setting hash key 0 are excluded by preconditions, as is a table beyond the last listed capacity, where the search loop of `mem_hash_resize` counts bytes instead of entries.
- MemHash.FreeProbeSoon: no bound on the number of probes is stated for tables of 131072 slots or more, where the square wraps around within the first half period; that the probes end is proved for all.
- The bit mixing of the hash function: any function will do.
- Object handles and opening and closing (`src/edb.c`), file mapping (`src/io.c`), logging, and re-reading pointers after the file was mapped again.
