# Queue, tree and list of a small C server library

This project models three linked structures of the library and proves what their callers rely on.

**The two-lock queue** (`list.c`, `queue.c`). Pushers take only `tail_lock`, poppers only `head_lock`, so both work on
one chain at the same time. `TwoLockMachine` is a transition system over any number of threads with one step per
shared read, shared write or lock operation; the client may reuse, overwrite and free nodes the queue has let go of.
`QueueRefinement` proves that every step is a step of an atomic FIFO queue or changes nothing there, and
`QueueTheorems`, `QueueProgress`, `QueueLength` and `QueueCalls` draw the consequences for whole runs.
`SequentialList` is the same code as heap methods; each method is proved to end in the state the machine reaches when
one thread runs alone.

**The ordered tree** (`rbtree.c`, `rbtree.h`, the callbacks of `test/test_rbtree.c` and `keyvalue.c`). Insertion,
rotations, deletion with its fix-up, lookups, minimum and teardown are heap methods over nodes with parent pointers
and a shared sentinel. A ghost tree says what the heap holds; while the code moves through the heap, a path with a
hole (`RbShape.Path`) says what is around the node it looks at. `RbShape` and `RbDelete` prove the algorithm on
values, `RbMemory` and `RbSurgery` prove what the pointer stores do to memory, `RbOrder`, `RbDescent` and `RbSearch`
prove order and search, and `RbTree` puts them together. `RbHistory` says what whole runs of insertions and deletions
make findable, and `RbRuns` ties it to runs on the heap.

**The pooled list** (`old/mplist.c`). A doubly linked list whose 32-bit length drives its loops, with a ghost set of
live blocks so that a block can be neither freed twice nor read after it was freed.

Memory is sequentially consistent. A lock is a mutual-exclusion lock: `splock_lock` waits until it is free, and a
nonzero `splock_try_lock` means busy. `mem_pool_alloc` gives a new block or NULL. `data` holds at least `len` bytes
wherever a callback compares bytes, and `memcmp` is the one of section 7.24.4.1 of ISO/IEC 9899:2011. Red is 1 and
black is 0 in the C code; here they are constructors.

In the table below, a row about code of `rbtree.c`, `queue.c` or `keyvalue.c` cites its declaration, its caller or its
twin, and ends with the lines of the body.

## What the proofs show about the code

- `list_tail_push_node` publishes the node (`list.c:26`) before it clears the node's `next` (`list.c:28`). Beside a
  popper this is FIFO exactly when the caller hands over a node whose `next` is NULL
  (`DirtyPush.PushIsSafeIffNextIsNull`). `test/test_list.c:15` pushes blocks straight from `malloc`. `enqueue` clears
  first (`queue.c:27`) and needs no such care.
- A popped node is the new dummy (`list.c:42`) and still belongs to the queue. It may be written, freed or pushed
  again exactly once a later pop has taken another node (`QueueTheorems.PoppedIsReusableIff`); pushing it at once
  loses all queued nodes (`SequentialList.PushedDummyLosesAll`).
- `length` is updated under two different locks. Two concurrent calls keep it exact under every schedule exactly when
  both push or both pop (`QueueLength`, `QueueSchedules.CounterIsExactIffSameSide`). A pop lowers it even when the
  queue is empty (`list.c:45`), through zero to 2^32 - 1.
- `rbtree_delete` leaves the parent pointer of a new root as it was (`rbtree.c:171-182`): after the deletion of a root
  with one child it names the deleted node, and in every other case the root's parent is what it was before
  (`RbTree.RbTree.Delete`). Insertions keep that pointer.
- `rbtree_destroy` always frees the tree's nodes in postorder, and then looks at the root's parent, or at the sentinel
  of an empty tree. It ends there exactly when that is NULL, or is outside the tree and has a NULL where the walk
  looks (`RbTree.RbTree.EndsWithTreeIff`); otherwise it frees a block outside the tree, follows one, or goes on with a
  node it has freed. This says where the walk ends, not what it frees: a block it follows may lead to a NULL, and then
  nothing more is freed. A deleted root still passes, because its child pointers were cleared
  (`RbRuns.DestroyAfterDelete`); once it is inserted again it does not (`RbRuns.DestroyAfterReinsert`). Trees that
  were only inserted into have no parent above the root, so the walk stops with the tree
  (`RbRuns.InsertAllThenDestroy`).
- An mplist is a double-ended queue for up to 2^32 values; the next add finds a zero length and drops all of them
  (`MpList.StoredIsDequeIff`, `MpList.MpList.AddAll`). With exactly 2^32, `mplist_destroy` frees only the header.
- Timers keep their order across an overflow of the key while they lie within half the key range of some base, which
  is the case exactly when "before" is an order of them, and exactly when one of them is before all the others;
  without a base "before" can be circular (`RbOrder.TimersAreOrdered`, `RbOrder.TimersFitIff`,
  `RbOrder.TimersCanCycle`).
- `rbtree_min` never returns a node with a left child, so `rbtree.c:165` is never reached.
- `rbtree.c:30` takes a NULL from the callback for "inserted, rebalance". `str_unit_rbtree_insert_value`,
  `rbtree_insert_value` and `rbtree_insert_timer_value` return nothing although the pointer type promises a value, so
  what it finds is arbitrary. Whatever it is, the order gains exactly the new node; with a NULL a red-black tree stays
  one, and without it stays one exactly when the new node's parent is black (`RbTree.RbTree.Insert`).
  `key_value_rbtree_insert_value` returns the displaced data, which `key_value_set` never lets be NULL.
- `test/test_rbtree.c:103` gives `len` 8 to a string of 7 bytes with its terminator; such a record is outside the
  tree's precondition, which asks for `len` readable bytes.

## Model

| member | source | states |
|---|---|---|
| QueueRefinement.InitRefines | list.c:3-21 | The state after initialisation refines the empty queue. |
| QueueRefinement.LinkNode | list.c:26 | A push takes effect when `tail->next` is written: the chain from `head` gains the node at its end, whatever poppers are doing. |
| QueueRefinement.MoveTail | list.c:27 | Moving `tail` changes nothing abstractly and makes it the last node again, also when poppers have overtaken it. |
| QueueRefinement.ClearNext | list.c:28 | The late clearing of `next` changes nothing abstractly. |
| QueueRefinement.PreClear | list.c:26-28 | Clearing before publishing changes nothing abstractly, whatever `next` held. Body: `queue.c:27`. |
| QueueRefinement.PopFindsBusy | list.c:36-38 | A failed try-lock pop leaves the queue as it is and happens only while another thread holds `head_lock`. |
| QueueRefinement.ReadsNode | list.c:40-41 | A pop that reads a non-NULL `head->next` has read the first queued node, and it stays first until the pop moves `head`. |
| QueueRefinement.ReadsNull | list.c:40-41 | A pop that reads NULL does so at a moment when the queue is empty. |
| QueueRefinement.MoveHead | list.c:42 | A non-empty pop takes effect when `head` moves: exactly the first queued node is taken. |
| QueueRefinement.StepRefines | list.c:23-64 | Every step of any thread or of the client, in either order of clearing, keeps the refinement and is allowed by the atomic queue. |
| QueueRefinement.RunRefines | list.c:23-64 | The same over whole runs from any refined state. |
| QueueTheorems.EveryRunIsFifo | list.c:23-64 | Every interleaving of any number of pushers and poppers, with recycling of nodes, is a run of the atomic FIFO queue. |
| QueueTheorems.EnqueueOrderIsAlwaysFifo | list.c:23-64 | With `queue.c`'s order of stores this needs nothing of the nodes that callers push. Body: `queue.c:23-66`. |
| QueueTheorems.AfterIsHistory | list.c:23-64 | The atomic queue hands out exactly what was linked, in link order, from any starting point. |
| QueueTheorems.Conservation | list.c:26-59 | Dequeued nodes are an initial segment of the linked nodes, and the chain in memory is the last dummy followed by all the others: none lost, invented or delivered twice. |
| QueueTheorems.ProducerOrder | list.c:23-64 | The dequeued nodes of one producer are the first ones it pushed, in the order of its calls. |
| QueueTheorems.LinkedInCallOrder | list.c:23-31 | Each thread's nodes are linked in call order, with at most one outstanding. |
| QueueTheorems.TailOfReachable | list.c:25-43 | In every state of every run the chain is acyclic and ends in NULL; `tail` is its last node, or exactly one behind while a pusher stands between lines 26 and 27; then it is the dummy before the present one exactly when one node is left. |
| QueueTheorems.LateClearIsHarmless | list.c:25-30 | In every state of every run, until a pusher releases the lock its node is the last of the chain with a NULL `next`, so line 28 writes what is there already. |
| QueueTheorems.MutualExclusion | list.c:25-62 | In every state of every run, dirty pushes included, a lock is taken exactly when a thread is inside its critical section, and that thread is the only one there. |
| QueueTheorems.OldDummyRetires | list.c:42 | When `head` moves on, the old dummy is no longer used, even if `tail` still names it. |
| QueueTheorems.RetiredStays | list.c:23-64 | One step keeps it so, unless it is a push or a free of that node. |
| QueueTheorems.DummyRetiresIff | list.c:40-43 | Over any run in which nobody frees or pushes it, the dummy is let go of if and only if some pop takes a node; until then it stays the dummy. |
| QueueTheorems.PoppedIsReusableIff | list.c:33-48 | A node just popped may be written, freed or pushed again exactly once a later pop has taken another node, at every later moment of every run. |
| QueueTheorems.RetiredIsForgotten | list.c:23-64 | No step of any thread reads or writes a retired node: with arbitrary contents there, every step is the same. |
| QueueCalls.ReturnsItsEffect | list.c:23-64 | Every call has exactly one effect between its start and its return, whatever nodes are pushed. A push has linked its node and returns nothing; a pop returns the node it took, and NULL if and only if it found the queue empty or, as a try only, the lock busy. |
| QueueCalls.TakesTheNext | list.c:40-48 | A pop that finds the queue empty does so when all linked nodes have been taken; any other takes the first one that has not been. |
| QueueCalls.OnlyTriesGiveUp | list.c:36-54 | A blocking pop waits: only a call of the other pop ever finds the lock busy, and then another thread is inside a pop. |
| QueueCalls.TriesNeverWait | list.c:33-48 | A thread inside a try pop can always take its next step. |
| QueueProgress.HolderIsEnabled | list.c:25-62 | A thread inside a critical section is never blocked and touches only live blocks. |
| QueueProgress.DeadlockFree | list.c:25-62 | In every state of every run in which some call is in progress, some thread can step. |
| QueueProgress.BoundedWork | list.c:23-64 | Under every schedule, whenever calls start, dirty pushes included, the threads take at most ten steps for each call that starts, besides the work under way at the beginning. |
| QueueProgress.EveryScheduleEnds | list.c:23-64 | So any finite set of calls finishes: without new calls a run ends within the work that is left, and from a quiet state its steps are at most ten times its calls. |
| QueueProgress.StuckMeansDone | list.c:23-64 | A run in which no thread can go on has returned from every call that was started, whenever that was. |
| QueueProgress.Finish | list.c:23-64 | From every reachable state all calls can be finished. |
| QueueLength.CounterIsExact | list.c:29-61 | While no two updates overlap, the 32-bit `length` is pushes minus lock-holding pops modulo 2^32 in every state. |
| QueueLength.OneSideNeverTears | list.c:25-62 | Calls of one side are serialised by their lock. |
| QueueLength.OneSideIsExact | list.c:29-61 | Pushes alone, or pops alone, keep the counter exact under every schedule. |
| QueueLength.PushesAreCounted | list.c:23-31 | With pushes alone `length` is the number of nodes, below 2^32 of them. |
| QueueLength.CountedSoFar | list.c:29-61 | In every state, linked minus taken minus empty pops equals the counted net plus what the calls in progress still owe. |
| QueueLength.QuietLength | list.c:29-61 | Between calls `length` is the true size minus the pops that found the queue empty, modulo 2^32; one such pop of an empty list leaves 0xFFFFFFFF. |
| QueueSchedules.Advance | list.c:23-64 | A thread whose lock is free can be run alone to any later point of its call. |
| QueueSchedules.MixedCallsCanTear | list.c:29-61 | From every quiet state any push and any pop can be scheduled so that one update of `length` is lost. |
| QueueSchedules.CounterIsExactIffSameSide | list.c:29-61 | Two concurrent calls keep the counter exact under every schedule if and only if both push or both pop. |
| DirtyPush.Drain | list.c:33-48 | A popper left alone takes every queued node in order. |
| DirtyPush.DirtyPushOverruns | list.c:26-28 | From any quiet state, a push of a node with non-NULL `next` lets a popper take one node more than the queue ever held. |
| DirtyPush.PushIsSafeIffNextIsNull | list.c:23-31 | Beside a popper, a push is FIFO under every schedule if and only if the node's `next` is NULL on entry. |
| SequentialList.List.Init | list.c:3-21 | A failed allocation returns 1 and changes nothing; otherwise 0 is returned and the list is a lone dummy and an initial state of the machine. |
| SequentialList.List.Push | list.c:23-31 | Alone, a push appends the node whatever its `next` was, and ends where the machine ends, having linked that node. |
| SequentialList.List.TryPop | list.c:33-48 | Busy: NULL and nothing changed. Free: the first queued node or NULL, the counter lowered either way, and the machine's final state. What the method returns is what the machine's call takes and returns. |
| SequentialList.List.BlockingPop | list.c:50-64 | As the other pop, without the busy case. |
| SequentialList.PushToEnd | list.c:23-31 | What the machine's push does, and tells the queue, when it runs alone. |
| SequentialList.PushedDummyLosesAll | list.c:26-42 | Pushing the node just popped at once loses all queued nodes and the pushed one: only the dummy is left and the next pop finds nothing. |
| SequentialList.PopToEnd | list.c:33-64 | What the machine's pop does, and tells the queue, when it runs alone. |
| Records.MemCmpIsLexicographic | test/test_rbtree.c:34-76 | The byte loop is zero exactly on equal prefixes, and its sign is that of the first difference. |
| Records.DescentsAgree | test/test_rbtree.c:27-84 | The insertion's and the lookup's choice of child follow one order, and the lookup stops exactly on equal key, length and bytes. |
| Records.LessIsStrictTotal | test/test_rbtree.c:27-84 | That order is a strict order, total up to equality of the compared fields. |
| RbOrder.TurnsAreMonotone | test/test_rbtree.c:27-42 | A turn at one node is right for everything on that side of it, under all four callbacks. Body: `rbtree.c:86-139`. |
| RbOrder.SplicePlace | test/test_rbtree.c:27-36 | Where a record goes does not depend on the tree's shape: before equal ones for strings, after them for plain keys and timers. |
| RbOrder.TurnsByValue | test/test_rbtree.c:27-36 | The turns in terms of the values: smaller keys to the left; equal plain keys to the right, equal key-value keys overwritten; strings of equal key by length and then by the first byte that differs, equal ones to the left. Body: `rbtree.c:86-139`. |
| RbOrder.KeysAscend | rbtree.h:35 | But for timers, the keys of a sorted sequence ascend. Body: `rbtree.c:86-104`. |
| RbOrder.TimersWithoutOverflow | rbtree.h:39-40 | On 64-bit keys the callback turns as the plain comparison of keys does if and only if their difference lies in [-2^63, 2^63). Body: `rbtree.c:124-125`. |
| RbOrder.TimersAreOrdered | rbtree.h:39-40 | The sign of the unsigned difference orders timers by their distance from a common base, across an overflow. Body: `rbtree.c:124-125`. |
| RbOrder.TimersFitIff | rbtree.h:39-40 | Such a base exists for a set of timers if and only if "before" is a strict order of them, total but for equal keys, and if and only if one of them is before all the others and none before it. Body: `rbtree.c:124-125`. |
| RbOrder.TimersCanCycle | rbtree.h:39-40 | Without that base three timers can each be before the next. Body: `rbtree.c:124-125`. |
| RbOrder.SearchTurnsAgree | test/test_rbtree.c:63-86 | The lookups go right, left or stop exactly as the record is smaller, larger or the one sought. Body: `keyvalue.c:245-253`. |
| RbShape.RedLeafKeeps | test/test_rbtree.c:44-49 | A red leaf in a sentinel's place keeps all black counts, and a red-red edge can only join it to its parent. |
| RbShape.LeafRises | test/test_rbtree.c:44-49 | Under a black root it leaves a red-black tree exactly when its parent is black, and otherwise one the loop can repair. |
| RbShape.RecoloredKeeps | rbtree.h:35 | Recolouring keeps the loop's state and moves the focus two levels up. Body: `rbtree.c:40-43`. |
| RbShape.RotationsKeepOrder | rbtree.h:35-36 | Rotations never reorder the elements and undo each other. Body: `rbtree.c:315-370`. |
| RbShape.StepKeeps | rbtree.h:35 | Every round of the insertion loop, on any tree with a black root, keeps the order and the black root and shortens the path; and it keeps a tree with one possible red-red edge such a tree. Body: `rbtree.c:35-79`. |
| RbShape.SettledTree | rbtree.h:35 | When the loop stops, blackening the root makes the whole tree red-black. Body: `rbtree.c:35-81`. |
| RbShape.LeftSpineIsFirst | rbtree.h:55-59 | The end of the left spine is the first element in order. |
| RbShape.HeightIsLogarithmic | rbtree.h:35-36 | A red-black tree of n nodes is at most twice the logarithm of n + 1 deep, which bounds every walk down it. |
| RbMemory.RotationHolds | rbtree.h:35-36 | The stores of a rotation turn memory holding a tree into memory holding the rotated tree, inside any larger tree. Body: `rbtree.c:315-370`. |
| RbMemory.AttachHolds | test/test_rbtree.c:44-49 | The five stores of an insertion put a red leaf into a sentinel slot of any tree. Body: `rbtree.c:100-104`. |
| RbMemory.SeesUncle | rbtree.h:35 | The loop's loads find the grandparent and the true uncle, or the black sentinel. Body: `rbtree.c:36-59`. |
| RbMemory.SeesSibling | rbtree.h:36 | The fix-up's loads find the true sibling, also when `temp` is the shared sentinel. Body: `rbtree.c:249-281`. |
| RbDelete.SunkKeeps | rbtree.h:36 | The red-sibling case keeps the debt and the order, and leaves a black sibling and a red parent. Body: `rbtree.c:253-256`. |
| RbDelete.BledKeeps | rbtree.h:36 | The black-children case moves the debt up one level. Body: `rbtree.c:259-261`. |
| RbDelete.StraightenedKeeps | rbtree.h:36 | The near-red case keeps the debt and makes the far child red. Body: `rbtree.c:265-270`. |
| RbDelete.FixedKeeps | rbtree.h:36 | The far-red case pays the debt. Body: `rbtree.c:272-276`. |
| RbDelete.PaidOff | rbtree.h:36 | At a red focus or at the root, blackening it makes the tree red-black. Body: `rbtree.c:312`. |
| RbDelete.UnlinkedKeeps | rbtree.h:36 | Unlinking takes exactly the deleted element out of the order; a red node leaves a red-black tree, a black one a debt of one. Body: `rbtree.c:151-243`. |
| RbSurgery.UnlinkHolds | rbtree.h:36 | The stores that skip a node leave memory holding the tree without it. Body: `rbtree.c:186-206`. |
| RbSurgery.ReplaceHolds | rbtree.h:36 | The stores that put `subst` in the node's place leave memory holding the same tree with that element exchanged. Body: `rbtree.c:208-232`. |
| RbSurgery.NextPlaced | rbtree.h:36 | Afterwards the fix-up starts at the right hole, with the right parent, also when `subst` was the node's own child. Body: `rbtree.c:200-232`. |
| RbDescent.InsertedInOrder | test/test_rbtree.c:23-49 | A node hung where the descent ends lies after all it passed on the right and before all it passed on the left, and the order survives. Body: `rbtree.c:86-105`. |
| RbDescent.OverwriteKeepsOrder | test/test_keyvalue.c:27-41 | Overwriting length and data of a duplicate keeps the order. Body: `keyvalue.c:22-28`. |
| RbDescent.WithoutKeepsOrder | rbtree.h:36 | A deletion keeps the order. Body: `rbtree.c:142-313`. |
| RbSearch.SearchOn | test/test_rbtree.c:63-86 | Each turn of a lookup rules out everything it turns away from, duplicates included. |
| RbHistory.RoundTrip | test/test_rbtree.c:15-91 | After any run of insertions a search succeeds exactly for records equal to an inserted one, under all callbacks. |
| RbHistory.CountsBalance | rbtree.h:35-36 | After any run of insertions and deletions as many nodes match a record as matching ones were inserted and not deleted, and a search fails exactly when none is left. Body: `rbtree.c:9-313`. |
| RbSearch.StepAddsOne | rbtree.h:35 | An insertion makes its own record findable and makes nothing else unfindable. Body: `rbtree.c:9-83`. |
| RbHistory.LastWriteWins | test/test_keyvalue.c:22-52 | With the key-value callback the tree is a map: each key holds its last write unless it was deleted since, and each insertion returns exactly the data it displaced. Body: `keyvalue.c:16-29`. |
| RbSearch.DeleteTakesOne | rbtree.h:36 | A deletion makes nothing but the deleted node unfindable. Body: `rbtree.c:142-313`. |
| RbSearch.DeletedKeyIsGone | rbtree.h:36 | In a key-value tree a search for a deleted key fails. Body: `rbtree.c:142-313`. |
| RbSearch.DeleteUndoesInsert | rbtree.h:35-36 | Deleting the node just inserted brings back the order from before. Body: `rbtree.c:9-313`. |
| RbSearch.MinAfterInsert | rbtree.h:52-60 | After an insertion the minimum is the new node exactly when it does not follow the old minimum, and otherwise the old one. |
| RbTree.RbTree.constructor | rbtree.h:29-33 | An initialised tree is empty and valid, with a black sentinel. |
| RbTree.Min | rbtree.h:52-60 | The walk returns the first element in order below its start. |
| RbTree.RbTree.RotateLeft | rbtree.h:35-36 | Memory changes by the six stores of a left rotation and no other, and the root pointer follows. Body: `rbtree.c:315-341`. |
| RbTree.RbTree.RotateRight | rbtree.h:35-36 | The mirror image. Body: `rbtree.c:344-370`. |
| RbTree.RbTree.Rotate | rbtree.h:35-36 | After either rotation the heap holds the rotated tree, the pointer that held its root holds the new one, and the parent of the whole tree's root is kept. Body: `rbtree.c:315-370`. |
| RbTree.RbTree.Recolor | rbtree.h:35 | The heap holds the recoloured tree with the grandparent in focus. Body: `rbtree.c:39-43`. |
| RbTree.RbTree.Settle | rbtree.h:35 | The heap holds the rotated and recoloured tree, for either side and an inner or outer grandchild. Body: `rbtree.c:47-54`. |
| RbTree.RbTree.RebalanceStep | rbtree.h:35 | One round on the heap, with the same promises. Body: `rbtree.c:36-78`. |
| RbTree.RbTree.RebalanceAll | rbtree.h:35 | The loop keeps the order of any tree with a black root, and turns one with a single possible red-red edge into a red-black tree. Body: `rbtree.c:35-81`. |
| RbTree.RbTree.Descend | test/test_rbtree.c:23-42 | On every sorted tree the walk ends at a duplicate, or at the one sentinel slot where the new record belongs. Body: `rbtree.c:91-98`. |
| RbTree.RbTree.InsertValue | test/test_rbtree.c:15-51 | On every sorted tree of any shape, exactly one child slot and the new node's fields change and the order is spliced at that place, or a key-value duplicate is overwritten and its old data returned. |
| RbTree.RbTree.InsertFirst | rbtree.h:35 | The first node becomes a black root without a parent. Body: `rbtree.c:18-26`. |
| RbTree.RbTree.Insert | rbtree.h:35 | On every sorted tree with a black root, whatever the callback seems to return: the order gains exactly the new node at its place, or one duplicate is overwritten; the root's parent is kept; a red-black tree stays one if a NULL was returned, and otherwise exactly if the new node's parent is black. Body: `rbtree.c:9-83`. |
| RbTree.RbTree.Lookup | test/test_rbtree.c:53-91 | On every sorted tree of any shape, the search of one path returns a node equal on hash, length and bytes, or NULL exactly when a linear search finds none. |
| RbTree.RbTree.Get | test/test_keyvalue.c:32-52 | The same by key alone. Body: `keyvalue.c:228-257`. |
| RbTree.RbTree.Choose | rbtree.h:36 | The node to unlink has at most one child, and is the next in order when the deleted node has two. Body: `rbtree.c:151-169`. |
| RbTree.RbTree.UnlinkNext | rbtree.h:36 | Memory then holds the rest of the tree but for one pointer about to be overwritten, and `temp->parent` is right even for the sentinel. Body: `rbtree.c:186-206`. |
| RbTree.RbTree.SpliceNext | rbtree.h:36 | The heap holds the tree without the deleted node, focused on the hole the next node left. Body: `rbtree.c:186-232`. |
| RbTree.RbTree.Sink | rbtree.h:36 | The red-sibling case on the heap, for either side. Body: `rbtree.c:252-257`. |
| RbTree.RbTree.Bleed | rbtree.h:36 | The black-children case on the heap. Body: `rbtree.c:259-261`. |
| RbTree.RbTree.Straighten | rbtree.h:36 | The near-red case on the heap, for either side. Body: `rbtree.c:265-270`. |
| RbTree.RbTree.Fix | rbtree.h:36 | The far-red case on the heap, for either side; the root is the new focus. Body: `rbtree.c:272-276`. |
| RbTree.RbTree.FixRound | rbtree.h:36 | One round of the fix-up moves the debt up, or makes the focus red, or pays it; the order stays. Body: `rbtree.c:247-310`. |
| RbTree.RbTree.Fixup | rbtree.h:36 | From a debt of one black node to a red-black tree of the same order. Body: `rbtree.c:247-312`. |
| RbTree.RbTree.DeleteRoot | rbtree.h:36 | The only child of the root becomes the black root and keeps its parent pointer to the deleted node. Body: `rbtree.c:171-182`. |
| RbTree.RbTree.Delete | rbtree.h:36 | The order loses exactly the given node, the tree is red-black and sorted again, the node's fields are cleared, and the root's parent is as described above. Body: `rbtree.c:142-313`. |
| RbTeardown.FreeLeaf | test/test_keyvalue.c:58 | Freeing a childless node leaves its parent next, and the rest of the plan unchanged. Body: `keyvalue.c:114-124`. |
| RbTeardown.PostorderIsInorder | test/test_keyvalue.c:58 | The plan frees each element as often as it occurs. Body: `keyvalue.c:92-128`. |
| RbTree.RbTree.DownToLeaf | test/test_keyvalue.c:58 | Inside the tree the inner loop ends at a live childless node, looks only at live nodes, and skips nothing that is still to be freed; the NULL tests inside it never succeed there. Body: `keyvalue.c:97-110`. |
| RbTree.RbTree.CutLeaf | test/test_keyvalue.c:58 | The slot above the node is cleared; what is left is the same tree without it, or, at the root, whatever its parent pointer names. Body: `keyvalue.c:114-124`. |
| RbTree.RbTree.FreeTree | test/test_keyvalue.c:58 | The rounds inside the tree free each node once, children before parents, and leave the walk at the root's parent. Body: `keyvalue.c:96-125`. |
| RbTree.RbTree.Leave | test/test_keyvalue.c:58 | Beyond the tree the walk stops at a NULL pointer or a NULL child, or goes on with a block that is not a live node. Body: `keyvalue.c:96-112`. |
| RbTree.RbTree.EndsWithTreeIff | test/test_keyvalue.c:58 | Where the walk ends: with the tree if and only if the root's parent, or an empty tree's sentinel, is NULL or outside the tree with a NULL where the walk looks; otherwise it goes on with a block: which one, and exactly when it frees it. Body: `keyvalue.c:92-128`. |
| RbTree.RbTree.Destroy | test/test_keyvalue.c:58 | On every sorted tree, the empty one included: the nodes are freed in postorder, and then comes what that condition says. Body: `keyvalue.c:92-128`. |
| RbRuns.Insert | rbtree.h:35 | On the heap, an insertion continues any run. Body: `rbtree.c:9-83`. |
| RbRuns.Delete | rbtree.h:36 | On the heap, a deletion continues any run. Body: `rbtree.c:142-313`. |
| RbRuns.InsertAll | test/test_rbtree.c:95-125 | A sequence of nodes inserted one after the other, whatever the void callbacks seem to return, leaves the run of exactly these insertions, all nodes in the tree unless they overwrote a duplicate, and no parent above the root; a red-black tree if each NULL was found. |
| RbRuns.InsertAllThenDestroy | test/test_keyvalue.c:22-58 | A tree that was only inserted into is destroyed exactly: each node in it freed once, and the walk stops. Body: `keyvalue.c:92-128`. |
| RbRuns.Smallest | rbtree.h:52-60 | On the whole tree the walk to the minimum returns the first node in order, no record must come before its own, and, but for timers, no key is smaller. |
| RbRuns.InsertThenMin | test/test_rbtree.c:124-127 | The minimum after an insertion is the new node exactly when the callback passes the old minimum on the left, and otherwise the old one; no record must come before it. |
| RbRuns.Lookup | test/test_rbtree.c:127-140 | After any run the lookup returns NULL exactly when no matching record is left; after insertions alone, exactly when none was inserted. |
| RbRuns.Get | test/test_keyvalue.c:32-52 | After any run the lookup by key returns the last record written under it, or NULL exactly when there is none or it was deleted. Body: `keyvalue.c:228-257`. |
| RbRuns.DeleteRoot | rbtree.h:36 | Two insertions and the deletion of the root leave a valid tree whose root's parent is the deleted node. Body: `rbtree.c:171-182`. |
| RbRuns.DestroyAfterDelete | test/test_keyvalue.c:58 | That tree is destroyed exactly. Body: `keyvalue.c:92-128`. |
| RbRuns.DestroyAfterReinsert | test/test_keyvalue.c:58 | With the node inserted again, destroying the tree frees both nodes and goes on with a freed one. Body: `keyvalue.c:92-128`. |
| MpList.StoredIsDequeIff | old/mplist.c:42-93 | Any run of head and tail adds stores what a double-ended queue would if and only if there are at most 2^32 of them. |
| MpList.MpList.AddAll | test/test_mplist.c:39-47 | After any run of adds on an empty list, some of which may find the pool full, the values in the list are what that run stores: up to 2^32 granted adds a double-ended queue of them, and below that `len` is their number. |
| MpList.Create | old/mplist.c:5-25 | NULL and nothing changed, or a new empty list. |
| MpList.MpList.AddHead | old/mplist.c:42-66 | A failed allocation changes nothing; otherwise the new node is first, or alone when the length was zero. |
| MpList.MpList.AddTail | old/mplist.c:69-93 | The same at the other end. |
| MpList.MpList.Traversals | old/mplist.c:53-89 | Following `next` from the head meets the nodes in order; following `prev` from the tail meets them reversed. Body: `old/mplist.h:34-35`. |
| MpList.MpList.TeardownStep | old/mplist.c:32-38 | The counter and the links stay aligned, and the node at hand is not among those freed so far. |
| MpList.MpList.LengthReachesAll | old/mplist.c:30-32 | The loop reaches every node if and only if there are fewer than 2^32. |
| MpList.MpList.Destroy | old/mplist.c:27-40 | As many nodes as the length says, in list order: with a destructor, event 2i destroys the value of node i and event 2i + 1 frees node i; without, event i frees node i. The header is freed last, no freed block is read or freed again, and all blocks are released exactly when there are fewer than 2^32 nodes. |

## Left out

- TwoLockMachine.ThreadStep: the spinning of `splock_lock` is one step enabled when the lock is free, and weaker memory orders than sequential consistency are not modelled.
- RbTree.RbTree.Destroy: the model stops where the walk leaves the tree and names the block it goes on with; what happens to memory that is not the tree's after that is not modelled. The tree is a single one, while `keyvalue.c:130-148` destroys 32 that share a sentinel. Freeing a node and freeing its data (`keyvalue.c:122-123`) is one event.
- RbTree.RbTree.EndsWithTreeIff: the converse is about where the walk ends; what a walk that follows a block outside the tree frees depends on memory that is not the tree's.
- RbTree.RbTree.Insert: a key-value duplicate's data is taken to be non-NULL, and the `expire` field (`keyvalue.c:26`) is not modelled.
- RbTree.RbTree.Get: the hash that chooses a bucket and the key is a parameter; buckets, expiry, memory limits and counters of the key-value store are left out.
- RbTree.RbTree.Delete: starts from a red-black tree, because the fix-up reads children of the sibling that only such a tree is sure to have; several trees sharing one sentinel are not modelled together, but a deletion in one of them writes only the sentinel's parent, and its colour stays black.
- MpList.MpList.AddHead: values are integers, and the unused `dup` and `match` callbacks are left out.
- The `prev` pointer that `queue.c:26` stores and nothing reads.
- The memory pool (`mem_pool.c`): allocation is a new block or NULL.
- The declared but undefined list operations of `old/mplist.h`.
- `old/list.c` is the same text as `list.c`.
- Sockets, epoll, configuration, logging, debugging helpers and the `main` functions of the test programs: I/O.
