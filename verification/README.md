# Verified models of the algorithm and concurrency collection

Dafny models of the hard parts of a collection of algorithm, data-structure and concurrency programs in C++, with proofs
of what those programs are for. `dafny verify dfyconfig.toml` checks everything.

The models keep the form of the code. Node-based structures (`RedBlackTree`, `Avl`, `Trie`, `MemPool`) are classes
whose nodes live in a map from addresses to cells, so that every field write, `new` and `delete` of the original is a
visible update and reading a freed node would not verify; the library list of `Lru` is a sequence of items with their
addresses. Array algorithms (`Kmp`, `LinearSieve`, `ShellSort`, `UnionFind`, `Lcs`, `Permutations`) are methods with
loops over arrays. Recursions that only compute (`KthElement`, the
value-level half of the AVL tree in `AvlTree`) are functions. The concurrent programs (`ThreadPool`, `CasList`,
`OneSlot`) are state machines: a state, the steps of each thread, and theorems over all finite runs of
any number of threads: safety, absence of deadlock, and that every run can be completed.

How the parts fit together:

- `RbTree` has the tree as a value, the path to a node (the parent chain) and the case analysis of both fix-ups;
  `RbHeap` says how trees and paths lie in memory; `RedBlackTree` is the program. `RbTree.InsertState` and
  `RbTree.RemoveState` are what every round of the two loops keeps.
- `AvlTree` has insertion and erasure as functions with their theorems; `Avl` is the in-place program refining them.
- `LruSpec` has the recency list and, independently, the history of calls, `LruHistory` determines every hit from the
  calls alone, and `Lru` is the map-plus-list program.
- `Divisibility` has Euclid's lemma and smallest prime factors, used by `LinearSieve` and `UglyNumbers`.
- `OneSlot` has the hand-off and its invariant, `OneSlotOutcome` decides which numbers of threads finish.
- `Components` uses `UnionFind`; `Memory` is the allocator and `Sequences` holds shared notions.

Results that are exact conditions rather than plain guarantees:

- The one-slot hand-off, for producers of any ids: it finishes under every scheduler if and only if no id is zero
  and the producers are as many as the consumers or one more, or there are only zero producers, or there are one
  consumer, one zero and one non-zero producer (`OneSlotOutcome.FinishesIffSure`); it finishes under some
  scheduler if and only if the producers with non-zero ids match the consumers or are one more
  (`OneSlotOutcome.FinishesIffMatched`); in between the outcome depends on the schedule, since a producer of zero may use up
  the notification another producer waits for. With as many producers as consumers, as in `main`, every
  run finishes if and only if no id is zero (`OneSlot.StuckIffUnmatched`).
- AVL erasure meets the case that insertion never meets exactly under the condition of `AvlTree.EraseMeetsZeroBalance`,
  which reads only the tree before the call.
- Deleting a trie prefix leaves the counters right if and only if the count passed is the right one
  (`Trie.Tree.Delete`).
- The LCS tables are right if and only if the border of the table passed in held zeros (`Lcs.FillTables`).
- The permutation generator repeats itself exactly when the input does (`Permutations.OnceIffDistinct`).

Preconditions come from undefined behaviour in the code: `getNext` on an empty pattern writes past an empty vector, a
capacity of zero makes the cache read the back of an empty list, `nthUglyNumber` below 1 reads before the array, the
median of an empty stream reads the top of an empty heap, deleting a prefix whose path is missing follows a null
link. A negative cache capacity is allowed and never evicts.

## Model

| member | source | states |
|---|---|---|
| `RbTree.RotateLeftOrder` | cpp/tree/rbTree.cpp:334-360 | a left rotation keeps the in-order sequence and the right rotation undoes it |
| `RbTree.RotateRightOrder` | cpp/tree/rbTree.cpp:376-403 | a right rotation keeps the in-order sequence and the left rotation undoes it |
| `RbTree.ZipInOrder` | cpp/tree/rbTree.cpp:334-403 | the order of the whole tree splits around any node reached by parent links, so a change below it is local |
| `RbTree.InsertStart` | cpp/tree/rbTree.cpp:505-518 | hanging a red leaf on any red-black tree breaks at most the link to its parent |
| `RbTree.InsertRecolor` | cpp/tree/rbTree.cpp:424-435 | red uncle: recolouring moves the only possible red-red link two levels up and keeps black heights and order |
| `RbTree.InsertInner` | cpp/tree/rbTree.cpp:437-444 | black uncle, inner child: one rotation makes it an outer child; invariant and order kept |
| `RbTree.InsertOuter` | cpp/tree/rbTree.cpp:446-449 | black uncle, outer child: the second rotation ends the red-red link; invariant and order kept |
| `RbTree.InsertDone` | cpp/tree/rbTree.cpp:480-481 | when the loop stops, blackening the root yields all red-black rules |
| `RbTree.InsertedOrder` | cpp/tree/rbTree.cpp:496-512 | equal keys go right: the new key stands after every key not greater and before every greater one |
| `RbTree.SiblingExists` | cpp/tree/rbTree.cpp:555-561 | the sibling the removal loop reads is never null; a red sibling has a black near child, so neither is the next one |
| `RbTree.RemoveRedSibling` | cpp/tree/rbTree.cpp:556-562 | case 1 keeps the one-black-missing invariant and the order |
| `RbTree.RemoveRedden` | cpp/tree/rbTree.cpp:563-568 | case 2 moves the missing black node to the parent and keeps the order |
| `RbTree.RemoveTurnNephew` | cpp/tree/rbTree.cpp:570-576 | case 3 makes the far nephew red and keeps invariant and order |
| `RbTree.RemoveLastRotation` | cpp/tree/rbTree.cpp:577-583 | case 4 supplies the missing black node: the whole tree is red-black again, same order |
| `RbTree.RemoveDone` | cpp/tree/rbTree.cpp:618-619 | at a red node or at the root, blackening it ends the repair |
| `RbTree.ReplacedState` | cpp/tree/rbTree.cpp:656-681 | colours when the successor takes over place and colour of the deleted node: red-black, or exactly one black missing below |
| `RbTree.ReplacedOrder` | cpp/tree/rbTree.cpp:635-678 | the order loses exactly the deleted node when its successor replaces it |
| `RbTree.SpliceOrder` | cpp/tree/rbTree.cpp:687-706 | the order loses exactly the deleted node when its only child replaces it |
| `RbTree.HeightBound` | cpp/tree/rbTree.cpp:416-726 | two to the height is at most the square of n + 1, that is, height at most 2 log2(n + 1) |
| `RbHeap.LinksAgree` | cpp/tree/rbTree.cpp:334-403 | parent and child links agree at every node of a represented tree |
| `RbHeap.LeftRotatedFocus` | cpp/tree/rbTree.cpp:334-360 | the pointer writes of leftRotate, in program order, turn the heap of a tree into the heap of the rotated tree, parents included |
| `RbHeap.RightRotatedFocus` | cpp/tree/rbTree.cpp:376-403 | the same for rightRotate |
| `RbHeap.ReplacedIds` | cpp/tree/rbTree.cpp:645-678 | replacing a node by its successor loses that node and no other |
| `RedBlackTree.Search` | cpp/tree/rbTree.cpp:198-206 | null exactly when no node holds the key, although equal keys may lie on both sides; otherwise such a node |
| `RedBlackTree.RBTree.LeftRotate` | cpp/tree/rbTree.cpp:334-360 | the heap then holds the rotated tree below any context |
| `RedBlackTree.RBTree.RightRotate` | cpp/tree/rbTree.cpp:376-403 | the same to the right |
| `RedBlackTree.RBTree.InsertFixUp` | cpp/tree/rbTree.cpp:416-482 | ends with a red-black tree over the same nodes in the same order; terminates |
| `RedBlackTree.RBTree.InsertNode` | cpp/tree/rbTree.cpp:492-519 | exactly one node is added, in sorted position, and the rules hold |
| `RedBlackTree.RBTree.Insert` | cpp/tree/rbTree.cpp:529-537 | every call keeps links, rules and order and adds exactly one occurrence after the equal ones |
| `RedBlackTree.RBTree.SettleLeft` | cpp/tree/rbTree.cpp:563-584 | cases 2 to 4 on the left: either done, or the deficiency is at the parent |
| `RedBlackTree.RBTree.SettleRight` | cpp/tree/rbTree.cpp:594-615 | cases 2 to 4 on the right |
| `RedBlackTree.RBTree.RemoveFixUp` | cpp/tree/rbTree.cpp:550-620 | from one missing black node to a red-black tree over the same nodes in the same order; each round lowers an explicit measure or is the last |
| `RedBlackTree.RBTree.UnlinkFull` | cpp/tree/rbTree.cpp:634-681 | removal with two children: only that node leaves the order and the heap of the tree |
| `RedBlackTree.RBTree.UnlinkSimple` | cpp/tree/rbTree.cpp:687-709 | removal with at most one child |
| `RedBlackTree.RBTree.RemoveNode` | cpp/tree/rbTree.cpp:630-711 | the node is freed, no other is, all rules hold again |
| `RedBlackTree.RBTree.Remove` | cpp/tree/rbTree.cpp:720-726 | drops exactly one node with the key if there is one, otherwise changes nothing |
| `RedBlackTree.RBTree.Minimum` | cpp/tree/rbTree.cpp:237-244 | the first node in order of the subtree, null for an empty one |
| `RedBlackTree.RBTree.Maximum` | cpp/tree/rbTree.cpp:259-266 | the last node in order of the subtree, null for an empty one |
| `RedBlackTree.RBTree.Successor` | cpp/tree/rbTree.cpp:281-296 | the next node in order, null exactly at the end |
| `RedBlackTree.RBTree.Predecessor` | cpp/tree/rbTree.cpp:302-317 | the previous node in order, null exactly at the start |
| `RedBlackTree.BagRecount` | cpp/tree/rbTree.cpp:492-726 | how often a key is there after a run, from the calls alone: the largest net of inserts over removes of any final part |
| `RedBlackTree.Run` | cpp/tree/rbTree.cpp:492-726 | any sequence of inserts and removes: links, rules, order, the exact number of each key by that recount, and the height bound |
| `AvlTree.InsertAvl` | cpp/tree/avl2.cpp:99-139 | insertion keeps true cached heights and balances in -1..1, and never meets the imbalance its four tests leave out |
| `AvlTree.EraseAvl` | cpp/tree/avl2.cpp:202-254 | erasure keeps true cached heights and balances in -1..1; it lowers the height by at most one, exactly along a path of leaning nodes read off the tree before |
| `AvlTree.EraseMeetsZeroBalance` | cpp/tree/avl2.cpp:233-243 | exactly which trees and keys meet a child of balance zero under an imbalance when erasing on the right, and that there, and only there, the tests of insertion would leave an unbalanced tree |
| `AvlTree.EraseMeetsZeroBalanceLeft` | cpp/tree/avl2.cpp:233-243 | the same on the left |
| `AvlTree.ZeroBalanceExample` | cpp/tree/avl2.cpp:237-243 | a tree, for all keys, that the tests of insertion would leave unbalanced after an erasure |
| `AvlTree.InsertKeys` | cpp/tree/avl2.cpp:99-139 | the set of keys grows by exactly the key and stays ordered |
| `AvlTree.EraseKeys` | cpp/tree/avl2.cpp:202-254 | the set of keys loses exactly the key and stays ordered, including through the copied successor |
| `AvlTree.InOrderIncreasing` | cpp/tree/avl2.cpp:99-254 | in-order is strictly increasing and lists exactly the set |
| `AvlTree.SizeBound` | cpp/tree/avl2.cpp:99-254 | n + 1 is at least Fib(h + 2) |
| `Avl.AVL.InsertReal` | cpp/tree/avl2.cpp:99-139 | the in-place recursion performs the value-level insertion, allocating one node only for a missing key and touching nothing else |
| `Avl.AVL.EraseReal` | cpp/tree/avl2.cpp:202-254 | the in-place recursion performs the value-level erasure and frees exactly the node that left |
| `Avl.AVL.LlRotate` | cpp/tree/avl2.cpp:142-152 | field writes realise the rotation with refreshed heights; other nodes untouched |
| `Avl.AVL.RrRotate` | cpp/tree/avl2.cpp:154-161 | the mirrored rotation |
| `Avl.AVL.LrRotate` | cpp/tree/avl2.cpp:163-167 | double rotation |
| `Avl.AVL.RlRotate` | cpp/tree/avl2.cpp:169-173 | mirrored double rotation |
| `Avl.AVL.InsertKey` | cpp/tree/avl2.cpp:84-86 | the set gains the key; every invariant kept |
| `Avl.AVL.EraseKey` | cpp/tree/avl2.cpp:256-258 | the set loses the key; every invariant kept |
| `Avl.AVL.LoopFind` | cpp/tree/avl2.cpp:190-199 | null exactly when the key is absent, otherwise its node |
| `Avl.AfterOpsIff` | cpp/tree/avl2.cpp:84-258 | a key is there after a run exactly when the last call about it inserts it, or none is about it and it was there before |
| `Avl.Run` | cpp/tree/avl2.cpp:84-258 | any run: true cached heights, balance, strict order, exactly those keys, and the Fibonacci bound |
| `ThreadPool.InvAlways` | cpp/thread/ThreadPool.cpp:34-108 | one invariant (mutex, tasks, stop, wake-ups) holds after every interleaving, spurious wake-ups included |
| `ThreadPool.NoLostWakeup` | cpp/thread/ThreadPool.cpp:50-51 | with a non-empty queue some worker is awake or a notification is outstanding; after notify_all nobody waits, ever |
| `ThreadPool.ExactlyOnce` | cpp/thread/ThreadPool.cpp:48-61 | accepted = taken + queued in order; nothing runs twice; when all workers have exited every accepted task has run exactly once |
| `ThreadPool.HistoryGrowsRun` | cpp/thread/ThreadPool.cpp:84-91 | histories only grow; after stop nothing is accepted |
| `ThreadPool.ExitOnlyWhenDrained` | cpp/thread/ThreadPool.cpp:53-54 | a worker exits only with stop set and the queue empty |
| `ThreadPool.NoDeadlock` | cpp/thread/ThreadPool.cpp:42-107 | a state where nobody can move is idle with an empty queue, or completely shut down; all accepted tasks done |
| `ThreadPool.ShutdownDecreases` | cpp/thread/ThreadPool.cpp:104-107 | while joining, every worker step lowers a measure and no other step raises it |
| `ThreadPool.ShutdownProgress` | cpp/thread/ThreadPool.cpp:104-107 | until the measure is zero somebody can step; at zero join returns |
| `ThreadPool.ShutdownBounded` | cpp/thread/ThreadPool.cpp:98-108 | no run takes more worker steps after notify_all than the measure |
| `ThreadPool.CallsAccounted` | cpp/thread/ThreadPool.cpp:70-95 | in every run each task passed to enqueue has been accepted, refused or is still on its way in, exactly as often as it was passed; nothing is refused before the stop |
| `ThreadPool.CallsExecuted` | cpp/thread/ThreadPool.cpp:42-108 | once the calls have returned and the workers have exited or nobody can move, what has run is exactly what was passed to enqueue, less what was refused |
| `ThreadPool.OwedDecreases` | cpp/thread/ThreadPool.cpp:42-108 | every step but a new call or a spurious wake-up lowers a measure, before and after the stop |
| `ThreadPool.ComeToRest` | cpp/thread/ThreadPool.cpp:42-108 | so the threads come to rest within that many steps, from any state |
| `ThreadPool.CanServe` | cpp/thread/ThreadPool.cpp:70-95 | after any run a free client can call enqueue with any task and the call is served (or, after the destructor was called, executed or refused) |
| `ThreadPool.CanShutDown` | cpp/thread/ThreadPool.cpp:98-108 | after any run the pool can be destroyed with every accepted task executed and every worker gone |
| `CasList.InvAlways` | cpp/base/threadtest/atomic/example8.cpp:11-18 | the invariant over heap, head and threads holds after every interleaving and spurious failure |
| `CasList.ListIsReverseOfSuccesses` | cpp/base/threadtest/atomic/example8.cpp:11-18 | the list from the head is acyclic and reading it gives the values of the threads whose push succeeded, each thread once, latest first |
| `CasList.NextEqualsOldHead` | cpp/base/threadtest/atomic/example8.cpp:13-17 | before every compare-exchange the new node links to the remembered head |
| `CasList.CompareMeansUnchanged` | cpp/base/threadtest/atomic/example8.cpp:16 | the comparison holds exactly when no push succeeded since the head was read: no ABA |
| `CasList.AllValuesAppended` | cpp/base/threadtest/atomic/example8.cpp:22-29 | when all threads are done the values read from the head are exactly the bag of arguments |
| `CasList.ReadsOnce` | cpp/base/threadtest/atomic/example8.cpp:28-29 | a list can be read in one way only |
| `CasList.CanReturn` | cpp/base/threadtest/atomic/example8.cpp:11-18 | from every reachable state each append can return by at most four steps of its own thread |
| `CasList.CanFinish` | cpp/base/threadtest/atomic/example8.cpp:11-25 | every run can be continued until all appends have returned and the list reads the bag of arguments |
| `OneSlot.HandOffInOrder` | cpp/base/threadtest/condition_variable/example8.cpp:12-25 | for any ids, in every run: the non-zero values leave the slot in the order they entered, at most one inside |
| `OneSlot.StuckIffUnmatched` | cpp/base/threadtest/condition_variable/example8.cpp:12-40 | any ids, any run that can go no further: everybody is finished only if the producers with non-zero ids match the consumers or are one more; without zero ids that is also enough; with as many producers as consumers everybody is finished if and only if no id is zero |
| `OneSlot.EveryValueConsumedOnce` | cpp/base/threadtest/condition_variable/example8.cpp:27-40 | with as many producers as consumers, every value is consumed exactly as often as it is carried if and only if no id is zero |
| `OneSlot.StepDecreases` | cpp/base/threadtest/condition_variable/example8.cpp:12-25 | every step lowers a measure, except that a spurious wake-up raises it by two |
| `OneSlot.RunsAreShort` | cpp/base/threadtest/condition_variable/example8.cpp:12-25 | the other steps of any run are bounded by the measure and twice the number of spurious wake-ups |
| `OneSlot.ZeroIsLost` | cpp/base/threadtest/condition_variable/example8.cpp:14-23 | the smallest failure: in every run of one zero producer and one consumer the consumer waits forever |
| `OneSlotOutcome.SureFinishes` | cpp/base/threadtest/condition_variable/example8.cpp:12-40 | enough: no zero ids and matched numbers, or zero producers only, or one consumer with one producer of each sort: every run finishes |
| `OneSlotOutcome.UnsureFails` | cpp/base/threadtest/condition_variable/example8.cpp:12-40 | needed: for all other numbers, a run that ends with a thread waiting forever |
| `OneSlotOutcome.FinishesIffSure` | cpp/base/threadtest/condition_variable/example8.cpp:12-40 | the hand-off finishes under every scheduler if and only if the numbers of consumers, zero and non-zero producers are of those three sorts |
| `OneSlotOutcome.FinishesIffMatched` | cpp/base/threadtest/condition_variable/example8.cpp:12-40 | some run finishes if and only if the non-zero producers match the consumers or are one more |
| `Kmp.Shorten` | cpp/string/kmp.cpp:17 | the inner loop stops at the longest border that the next character can extend |
| `Kmp.GetNext` | cpp/string/kmp.cpp:7-22 | next[i] is the length of the longest proper border of the length-i prefix |
| `Kmp.FallBack` | cpp/string/kmp.cpp:17 | falling back to the border of the border skips no candidate |
| `Kmp.Shift` | cpp/string/kmp.cpp:51-53 | after a mismatch no occurrence starts before the shifted match |
| `Kmp.Find` | cpp/string/kmp.cpp:42-61 | the first occurrence, or -1 exactly when there is none; terminates |
| `Divisibility.CompositeSplit` | cpp/race/race_template.cpp:233-237 | a composite is its smallest prime factor times a cofactor whose factors are no smaller |
| `LinearSieve.ReachedIffComposite` | cpp/race/race_template.cpp:227-229 | when the loop reaches i, i is marked exactly when it is composite |
| `LinearSieve.CrossOne` | cpp/race/race_template.cpp:231-237 | each write marks one number not marked before, by its smallest prime factor |
| `LinearSieve.CrossMultiples` | cpp/race/race_template.cpp:231-238 | one round marks exactly the composites with cofactor i |
| `LinearSieve.GetPrimes` | cpp/race/race_template.cpp:219-240 | exactly the primes up to maxV in order; every composite written exactly once, by its smallest prime factor |
| `UnionFind.CompressKeepsRoots` | cpp/race/union_find.cpp:20-24 | pointing a node at its root changes no root |
| `UnionFind.LinkRoots` | cpp/race/union_find.cpp:32 | linking two roots moves exactly one class |
| `UnionFind.MergeClosure` | cpp/race/union_find.cpp:28-33 | the root relation grows to the least equivalence with the new pair |
| `UnionFind.DisjointSets.constructor` | cpp/race/union_find.cpp:10-13 | every node alone |
| `UnionFind.DisjointSets.FindRoot` | cpp/race/union_find.cpp:15-26 | returns the root; every node on the way hangs directly below it afterwards, no other entry changes, no root changes, the forest stays acyclic |
| `UnionFind.DisjointSets.Union` | cpp/race/union_find.cpp:28-33 | merges exactly two classes |
| `UnionFind.DisjointSets.UnionAll` | cpp/race/union_find.cpp:28-33 | after any run, same root is the equivalence closure of the united pairs |
| `UnionFind.Root` | cpp/race/race_template.cpp:155-158 | find ends at a fixed point of father |
| `Components.RootsAreComponents` | cpp/race/race_template.cpp:175-180 | after the scan two cities share a root exactly when a path joins them |
| `Components.Join` | cpp/race/race_template.cpp:161-165 | merges exactly two classes |
| `Components.Count` | cpp/race/race_template.cpp:167-188 | the number of distinct roots is the number of connected components |
| `KthElement.DropHalf` | cpp/online_judge/leetcode/editor/cn/寻找两个正序数组的中位数.cpp:48-54 | dropping the smaller half changes the k-th element by exactly the dropped count |
| `KthElement.SentinelTie` | cpp/online_judge/leetcode/editor/cn/寻找两个正序数组的中位数.cpp:48-54 | a real INT_MAX that ties the sentinel: stepping past the second array still gives the right element |
| `KthElement.FindKth` | cpp/online_judge/leetcode/editor/cn/寻找两个正序数组的中位数.cpp:41-56 | the k-th smallest by counting, for every valid k |
| `KthElement.FindKthIsSortedIndex` | cpp/online_judge/leetcode/editor/cn/寻找两个正序数组的中位数.cpp:41-56 | equals index k - 1 of any sorted arrangement of both arrays |
| `KthElement.FindMedian` | cpp/online_judge/leetcode/editor/cn/寻找两个正序数组的中位数.cpp:30-38 | twice the result is the sum of the two middle elements of any sorted arrangement of both arrays |
| `FloydCycle.Meeting` | cpp/online_judge/leetcode/editor/cn/环形链表 II.cpp:58-62 | on every finite structure the pointers meet |
| `FloydCycle.EntryReturns` | cpp/online_judge/leetcode/editor/cn/环形链表 II.cpp:66-70 | from the meeting point, the distance to the entry equals that from the head, up to whole rounds |
| `FloydCycle.DetectCycle` | cpp/online_judge/leetcode/editor/cn/环形链表 II.cpp:54-73 | terminates; null exactly when acyclic, otherwise the first node on the cycle |
| `ShellSort.GapOrderSurvives` | cpp/sort/shellSort.cpp:11-19 | sorting by a gap preserves the order by any other gap |
| `ShellSort.Sift` | cpp/sort/shellSort.cpp:14-17 | the innermost loop extends the ordered prefix and moves elements only within their column |
| `ShellSort.Pass` | cpp/sort/shellSort.cpp:13-18 | a pass orders by its gap |
| `ShellSort.Sort` | cpp/sort/shellSort.cpp:7-20 | a sorted permutation, still ordered by every gap used on the way |
| `Trie.WithoutCounts` | cpp/race/Trie.cpp:39-48 | removing the words with a prefix changes the count of each prefix of it by that number and of nothing unrelated |
| `Trie.Tree.Insert` | cpp/race/Trie.cpp:16-26 | the word joins the list; counters follow |
| `Trie.Tree.Search` | cpp/race/Trie.cpp:28-37 | the number of stored words with the given non-empty prefix |
| `Trie.Tree.Delete` | cpp/race/Trie.cpp:39-48 | for any count t, the words with the prefix go; the counters are right again if and only if t was the number of those words, and otherwise off by the difference along the prefix |
| `Trie.StoredIff` | cpp/race/Trie.cpp:50-69 | a word is stored exactly when some insertion of it has no later deletion of one of its prefixes |
| `Trie.PresentIff` | cpp/race/Trie.cpp:50-69 | the count of a prefix is positive exactly when some such insertion has it as a prefix |
| `Trie.Obey` | cpp/race/Trie.cpp:58-68 | one command of main, with the guard on deletion |
| `Trie.Run` | cpp/race/Trie.cpp:50-69 | any commands on an empty trie: a query is answered with yes exactly when a word with that prefix was inserted before and no prefix of that word has been deleted since |
| `Lcs.NoneLonger` | cpp/dynamic_programming/longgestSubSequence.cpp:17-32 | no common subsequence of two prefixes is longer than the table entry |
| `Lcs.FillCell` | cpp/dynamic_programming/longgestSubSequence.cpp:19-30 | one cell of both tables, the others kept; row and column zero never written |
| `Lcs.FillTables` | cpp/dynamic_programming/longgestSubSequence.cpp:6-33 | on any tables passed in: both hold the recurrence everywhere if and only if row and column zero of the resized table held zeros |
| `Lcs.Traceback` | cpp/dynamic_programming/longgestSubSequence.cpp:35-47 | emits a common subsequence of exactly the length in the table |
| `Lcs.LongestCommon` | cpp/dynamic_programming/longgestSubSequence.cpp:56-57 | the output is a longest common subsequence |
| `MemPool.Pool.constructor` | cpp/memory/MemPool2.cpp:24-27 | an empty pool |
| `MemPool.Pool.Conservation` | cpp/memory/MemPool2.cpp:38-72 | live and free nodes are disjoint and number NumofObjects times the blocks |
| `MemPool.Pool.Grow` | cpp/memory/MemPool2.cpp:42-61 | a new block is carved into an acyclic free list and linked into the blocks; no node of another block is written |
| `MemPool.Pool.Malloc` | cpp/memory/MemPool2.cpp:38-66 | never a live node; a block is added exactly when the free list was empty; what live nodes hold stays |
| `MemPool.Pool.Free` | cpp/memory/MemPool2.cpp:68-72 | the node heads the free list and is no longer live; what the other live nodes hold stays |
| `MemPool.Pool.Scribble` | cpp/memory/MemPool2.cpp:9-12 | a user write to a live node, link field included, happens and never disturbs the pool |
| `MemPool.Call` | cpp/memory/MemPool2.cpp:38-72 | one call of a client that tracks what it holds: malloc never hands out a held node, and every node still held holds what it held or what this call wrote |
| `MemPool.Run` | cpp/memory/MemPool2.cpp:38-72 | any run of such a client: it holds exactly the live nodes, each once and with what it last wrote there, and the pool has exactly the blocks that the peak of the demand needs |
| `LruSpec.KeysFollowHistory` | cpp/linux/LRU.cpp:21-60 | the list holds exactly the most recently touched keys, in order of last touch |
| `LruSpec.RecentIsByLastTouch` | cpp/linux/LRU.cpp:44-50 | that order is by last touch, so the key dropped is the least recently used |
| `LruSpec.TouchAbsent` | cpp/linux/LRU.cpp:44-59 | a new key goes in front and, exactly when the cache is full, the least recently touched key goes |
| `LruSpec.ValuesAreLastPut` | cpp/linux/LRU.cpp:38-60 | every cached key has the value last put |
| `LruSpec.GetFollowsHistory` | cpp/linux/LRU.cpp:21-36 | what get must answer, from the history of calls alone |
| `Lru.LRUCache.Get` | cpp/linux/LRU.cpp:21-36 | map, iterators and list refine the recency list; count equals both sizes and never exceeds the capacity |
| `Lru.LRUCache.Put` | cpp/linux/LRU.cpp:38-60 | the same for put: an update moves to the front, a new key evicts the last one when full |
| `LruHistory.CachedIff` | cpp/linux/LRU.cpp:21-60 | a key is cached exactly when fewer other keys than the capacity have been used since its last use |
| `LruHistory.HitIff` | cpp/linux/LRU.cpp:21-60 | which calls hit, determined from the calls alone: uses are puts and earlier hits |
| `Lru.Run` | cpp/linux/LRU.cpp:21-60 | in every run a get that hits answers with the value last put for its key, any other with -1 |
| `LongestRun.LeftIsEnd` | cpp/online_judge/leetcode/editor/cn/最长连续序列.cpp:22 | the lookup left of a new number is never stale |
| `LongestRun.RightIsEnd` | cpp/online_judge/leetcode/editor/cn/最长连续序列.cpp:23 | nor is the one on the right |
| `LongestRun.StepKeepsEnds` | cpp/online_judge/leetcode/editor/cn/最长连续序列.cpp:24-28 | both ends of every maximal run map to its length after each element |
| `LongestRun.StepKeepsLongest` | cpp/online_judge/leetcode/editor/cn/最长连续序列.cpp:24-26 | the running result stays the longest run |
| `LongestRun.LongestConsecutive` | cpp/online_judge/leetcode/editor/cn/最长连续序列.cpp:16-30 | the length of the longest run of consecutive integers in the input |
| `UglyNumbers.UglyByPrimes` | cpp/online_judge/leetcode/editor/cn/丑数.cpp:1 | the generated numbers are exactly those with no prime factor besides 2, 3 and 5 |
| `UglyNumbers.Round` | cpp/online_judge/leetcode/editor/cn/丑数.cpp:31-34 | one round: the minimum of the three candidates is the next ugly number, none is skipped, and the pointers stand at the first multiples beyond the longer list |
| `UglyNumbers.Advance` | cpp/online_judge/leetcode/editor/cn/丑数.cpp:32-34 | the division test moves a pointer exactly when it must |
| `UglyNumbers.NthUglyNumber` | cpp/online_judge/leetcode/editor/cn/丑数.cpp:25-38 | the last of the first n ugly numbers |
| `UglyNumbers.FirstUglyUnique` | cpp/online_judge/leetcode/editor/cn/丑数.cpp:25-38 | there is only one such list |
| `Permutations.EmitsExactlyPermutations` | cpp/online_judge/leetcode/editor/cn/全排列.cpp:27-43 | the output contains a list if and only if it is a permutation of the input |
| `Permutations.OnceIffDistinct` | cpp/online_judge/leetcode/editor/cn/全排列.cpp:27-43 | each is emitted once if and only if the input holds no number twice |
| `Permutations.BT` | cpp/online_judge/leetcode/editor/cn/全排列.cpp:27-43 | appends the emission and restores the input |
| `Permutations.Permute` | cpp/online_judge/leetcode/editor/cn/全排列.cpp:21-25 | all of this for the whole call |
| `MedianStream.HalvesInOrder` | cpp/online_judge/leetcode/editor/cn/数据流中的中位数.cpp:56-67 | in any sorted arrangement the lower heap comes first |
| `MedianStream.TopsInMiddle` | cpp/online_judge/leetcode/editor/cn/数据流中的中位数.cpp:69-75 | the tops stand in the middle |
| `MedianStream.MedianFinder.AddNum` | cpp/online_judge/leetcode/editor/cn/数据流中的中位数.cpp:56-67 | keeps the halves apart and balanced; adds exactly the number |
| `MedianStream.MedianFinder.FindMedian` | cpp/online_judge/leetcode/editor/cn/数据流中的中位数.cpp:69-75 | twice the result is the sum of the two middle elements of any sorted arrangement of the history |
| `MedianStream.Run` | cpp/online_judge/leetcode/editor/cn/数据流中的中位数.cpp:56-75 | the same after every stream |

## Left out

- Machine integers: all arithmetic is unbounded, so overflow (of heights, counters, `top() + top()`, `cur - 1` at the smallest int) is not modelled; only the INT_MAX sentinel of `findKth` is.
- Weak memory and fairness: mutexes, condition variables and atomics act in sequentially consistent atomic steps, and no scheduler is assumed fair; tasks of the pool are assumed to return.
- Futures and packaged tasks: what a task computes and how its result reaches the caller.
- LinearSieve.GetPrimes: returns the list, which the original discards.
- MemPool.Pool.Free: stated for live nodes only, since the original checks nothing.
- MedianStream.MedianFinder.AddNum: the library's priority queues are multisets with their largest or smallest element on top; their inner heap order is not modelled.
- Lru.LRUCache.Put: list iterators are the addresses of list nodes; the hash table is a map.
- `kmp2` and `shellSort2`, which repeat `kmp` and `shellSort1` line by line.
- `search(int)`, `iterativeSearch(int)` and `find_real`, which lack a return, and `iterativeSearch`, which follows the path of `search`.
- `RBTree::destroy`, which returns before it frees anything, and destructors that only release memory.
- `quick_pow`, `big_add`, `gcd`, `is_prime`, `partition` and the simple sorts and searches: only easy members.
- Printing, sockets, servers, time caches, language demonstrations, wrappers over libraries, and unfinished exercises.
