# Verified model of c_util

c_util is a C library of in-memory structures and an event loop. This project
models its stateful cores in Dafny and proves what they keep, compute and undo.
Cited lines are those of the library's own files.

## What is modelled

**Red-black tree** (`RbModel.dfy`, `RbInsertion.dfy`, `RbDeletion.dfy`, `RbShape.dfy`, `RbTree.dfy`).
Nodes are heap objects with left, right, parent and colour; one black sentinel
stands for every leaf and its parent link is scratch space of delete. A ghost tree
says what the pointers mean, and a position in it is a zipper: a subtree and the
context around it. Pointer writes are compared with snapshots of the heap, so that
all reasoning about shape is about values. Insertion is a walk with one red-red
defect, deletion a walk with one missing black node. The root's parent is not
constrained, because delete leaves it stale when it removes the root.

**Lists and timers** (`Lists.dfy`, `TimerModel.dfy`, `TimerDeadlines.dfy`,
`Timers.dfy`, `TimerRuns.dfy`). Circular intrusive
lists, and the sorted timer queue on top of them. A pass is a function of the
queue, of the clock samples and of what each callback returns and creates; the
class computes it on the links, although callbacks insert into the very list that
is being walked and fired timers hang on a stack made of their `next` links. A ledger
of all timers ever made follows the queue through any sequence of calls.

**File events** (`Epoll.dfy`, `FileEvents.dfy`). The registry is spread over the tree, a
free list threaded through parent links, a counter and the kernel's interest map.
One invariant ties them together, and includes that no more than `setsize` nodes
exist at once. `misuses` counts epoll calls on a descriptor in the wrong state; no
sequence of requests makes one.

**Reader/writer spin lock** (`RwLock.dfy`). A step system: every load, increment,
decrement and exchange of every thread is one step, in any interleaving.

**Hashing** (`Words.dfy`, `MurmurSteps.dfy`, `Murmur.dfy`, `Murmur32.dfy`,
`Murmur128x86.dfy`, `Murmur128x64.dfy`, `MurmurAnswers.dfy`, `HashTable.dfy`). The three MurmurHash3
functions as chains of steps that can be undone, with known answers for concrete keys, and the chained table against one
list of items, newest first. Products, sums and differences of words are natural
numbers modulo the word size, shifts and exclusive or are bit-vectors.

**Max-heap** (`MaxHeap.dfy`), **decimal parser** (`Decimal.dfy`), **byte buffer**
(`ByteBuf.dfy`), **UTF-8 codec** (`Utf8.dfy`). Loops over arrays and texts, each proved
against a function, and the laws of these functions.

## Where the code departs from its promise

- Pop does not sift the moved element up, so heap order may be lost: `PopHeapExactly`
  says exactly when it is kept, `PopBreaks` shows a heap where it is not.
- UTF-8 encoding skips the character behind an ASCII one and decoding shifts by five
  bits on two bytes: `RoundTripExactly` says exactly which texts come back.
- A negative number of buckets becomes 1024, not 16, because it is compared as an
  unsigned number (`ClampBuckets`).
- A number of buckets that is no power of two leaves buckets unused: `IndexReached` says
  which, of 17 all but two (`SeventeenBuckets`).
- A descriptor from `setsize` on can be registered but not deleted: only delete looks at
  the bound. `CreateBeyondBound` does so, `ServedForEver` says that it stays for ever;
  the registry invariant holds all the same (`Serve`).
- The answer to arming the internal descriptor is ignored, so disarming is issued on an
  unknown descriptor exactly when arming was refused (`AfterPoll`).

## Assumptions

- A record and the node or list head embedded in it are tied by a constant field;
  keys of the tree are integers with their usual order, and a search procedure is
  negative, then zero, then positive along ascending keys.
- Memory from the allocator is zeroed, as `src/ez_malloc.c` does, and never runs out.
- The kernel may refuse to add or change a descriptor, keeps what it was told, and
  does not refuse to delete or narrow a registered one. Descriptors are not closed
  while registered, and the internal descriptor is not passed by callers.
- Clock samples are arbitrary integers. Timer callbacks create timers and return a
  value; from some call on they create none, which is what makes a pass end.
- Atomic operations are sequentially consistent.
- Keys of the hash table that compare equal have equal hashes; the comparison of the
  heap is an order in which different elements may be equal.
- Words are read from the key with the little end first, as on the hosts the library
  is built for, and keys are shorter than 2^31 bytes.

## Model

| member | source | states |
|---|---|---|
| RbTrees.RbTree.constructor | src/ez_rbtree.c:12-23 | an empty tree: the sentinel is black with NULL links and is the root |
| RbTrees.RbTree.SetColor | src/ez_rbtree.c:6-10 | one node changes its colour and nothing else of the tree, the order or the links changes |
| RbTrees.RbTree.LeftRotate | src/ez_rbtree.c:32-55 | the pointer writes of a left rotation, cell by cell against a snapshot, with the new root |
| RbTrees.RbTree.RightRotate | src/ez_rbtree.c:57-80 | the same for a right rotation |
| RbTrees.RbTree.LeftRotateAt | src/ez_rbtree.c:32-55 | at any position of a linked tree the rotation yields the rotated tree, keeps the in-order sequence and all links, and counts as one rotation |
| RbTrees.RbTree.RightRotateAt | src/ez_rbtree.c:57-80 | the same for a right rotation |
| RbModel.RotateInverse | src/ez_rbtree.c:32-80 | the two rotations undo each other and both keep the in-order sequence |
| RbModel.RotateLeftWhole | src/ez_rbtree.c:32-55 | changing exactly the cells of a left rotation in a heap that represents a tree gives a heap that represents the rotated tree, parent links included |
| RbModel.RotateRightWhole | src/ez_rbtree.c:57-80 | the same for a right rotation |
| RbTrees.RbTree.Min | src/ez_rbtree.c:82-88 | the node found has no left child and nothing of the subtree comes before it; NULL or the sentinel only for an empty subtree |
| RbTrees.RbTree.MinNode | src/ez_rbtree.c:27-30 | NULL exactly on the empty tree, otherwise the first node in order |
| RbTrees.RbTree.FindPlace | src/ez_rbtree.c:116-122 | the empty place reached has all keys not greater than the new one before it and all greater keys behind it |
| RbTrees.RbTree.Attach | src/ez_rbtree.c:124-128 | the new red node hangs in that place; the in-order sequence gains exactly this node there |
| RbTrees.RbTree.DefaultInsertValue | src/ez_rbtree.c:109-129 | the new node stands right behind the last one that is not greater |
| RbTrees.RbTree.InsertFirst | src/ez_rbtree.c:143-151 | the first node becomes a black root |
| RbInsertion.DefectGrandparent | src/ez_rbtree.c:156-159 | during insertion a red parent is never the root and the grandparent is black, so its fields may be read |
| RbInsertion.DefectPassUp | src/ez_rbtree.c:161-165 | red uncle: the only red-red pair moves two levels up |
| RbInsertion.DefectOuter | src/ez_rbtree.c:166-171 | black uncle, inner grandchild: after the first rotation the pair is an outer one |
| RbInsertion.DefectRotated | src/ez_rbtree.c:173-175 | black uncle, outer grandchild: recolouring and one rotation leave no red-red pair |
| RbInsertion.DefectEnd | src/ez_rbtree.c:198 | when the loop ends, blackening the root gives a red-black tree |
| RbTrees.RbTree.PassRedUp | src/ez_rbtree.c:161-165 | the pointer code of that case on both sides does this, without a rotation |
| RbTrees.RbTree.RaiseLeft | src/ez_rbtree.c:166-176 | the pointer code of the black-uncle case on the left, with at most two rotations |
| RbTrees.RbTree.RaiseRight | src/ez_rbtree.c:185-194 | the same on the right |
| RbTrees.RbTree.RebalanceInserted | src/ez_rbtree.c:156-196 | the loop ends with a tree that is red-black once its root is black; at most two rotations in all, order unchanged |
| RbTrees.RbTree.Insert | src/ez_rbtree.c:131-199 | all tree invariants are kept; the new in-order sequence is the old one with the node right behind the last element not greater than it, so equal keys keep insertion order; at most two rotations |
| RbModel.SplicedSorted | src/ez_rbtree.c:117 | putting a node there keeps the sequence sorted |
| RbTrees.RbTree.ChooseSubst | src/ez_rbtree.c:210-224 | the node to be bypassed, its only child, and where it sits: the node itself, or the smallest node of its right subtree |
| RbTrees.RbTree.RemoveRoot | src/ez_rbtree.c:226-236 | the root with at most one child: the child takes its place and turns black; its stale parent link is not constrained |
| RbTrees.RbTree.BypassLinks | src/ez_rbtree.c:240-248 | the links around a node with at most one child, cell by cell; the child, even the sentinel, gets the parent |
| RbTrees.RbTree.Bypass | src/ez_rbtree.c:240-248 | the tree and the in-order sequence without this node |
| RbTrees.RbTree.UnhookSuccessor | src/ez_rbtree.c:240-255 | the first half of the two-child case: the successor leaves its place, and its child gets the right parent also when the successor is a child of the deleted node |
| RbTrees.RbTree.TakeOver | src/ez_rbtree.c:257-278 | the second half: the successor takes over links and colour of the deleted node |
| RbTrees.RbTree.HangInstead | src/ez_rbtree.c:262-270 | the link from above, or the root pointer, leads to the successor and nothing else changes |
| RbTrees.RbTree.Adopt | src/ez_rbtree.c:272-278 | the children that are nodes get the successor as parent; the sentinel stays as it is |
| RbTrees.RbTree.Transplant | src/ez_rbtree.c:246-284 | both halves and the clearing of links: the tree with the successor in the place of the node, and its in-order sequence |
| RbModel.SuccessorWhole | src/ez_rbtree.c:240-278 | in terms of heaps the two halves together represent that tree |
| RbModel.TransplantOrder | src/ez_rbtree.c:217-278 | the in-order sequence loses exactly the deleted node, by identity |
| RbDeletion.DeficitStart | src/ez_rbtree.c:238-244 | bypassing a red node costs nothing, a black one leaves one subtree one black node short |
| RbDeletion.DeficitSuccessor | src/ez_rbtree.c:246-288 | the same when the successor takes the place of a node with two children |
| RbDeletion.DeficitBlackSiblingLeft | src/ez_rbtree.c:296-301 | red sibling: recolouring and a rotation give a black sibling and keep the deficit where it is |
| RbDeletion.DeficitUpLeft | src/ez_rbtree.c:303-305 | black sibling with black children: the deficit moves one level up |
| RbDeletion.DeficitFarRedLeft | src/ez_rbtree.c:307-312 | only the near child red: afterwards the far child is red |
| RbDeletion.DeficitSolvedLeft | src/ez_rbtree.c:314-318 | far child red: one rotation removes the deficit |
| RbDeletion.DeficitSolvedRight | src/ez_rbtree.c:341-345 | the mirror image |
| RbDeletion.DeficitEnd | src/ez_rbtree.c:350 | a red node painted black, or the root, makes up for the deficit |
| RbTrees.RbTree.BlackenSiblingLeft | src/ez_rbtree.c:293-301 | the pointer code of the red-sibling case |
| RbTrees.RbTree.BlackenSiblingRight | src/ez_rbtree.c:320-328 | its mirror image |
| RbTrees.RbTree.SolveLeft | src/ez_rbtree.c:307-318 | the pointer code that ends the loop: red-black again with at most two rotations |
| RbTrees.RbTree.SolveRight | src/ez_rbtree.c:334-345 | its mirror image |
| RbTrees.RbTree.FixLeft | src/ez_rbtree.c:293-319 | one turn of the loop on the left: it ends, or moves the deficit up without a rotation, or leaves a red node |
| RbTrees.RbTree.FixRight | src/ez_rbtree.c:320-347 | its mirror image |
| RbTrees.RbTree.RebalanceDeleted | src/ez_rbtree.c:291-350 | the loop ends with a red-black tree after at most three rotations, order unchanged |
| RbTrees.RbTree.Delete | src/ez_rbtree.c:201-351 | all tree invariants are kept; the new in-order sequence is the old one without exactly this node, whatever other nodes have its key; its links are cleared; at most three rotations |
| RbShape.BalancedPaths | src/ez_rbtree.c:138 | the recursive black-height condition holds if and only if any two paths to a leaf have equally many black nodes |
| RbShape.ColouredPaths | src/ez_rbtree.c:137 | the recursive colour condition holds if and only if no path has a red node below a red node |
| RbShape.LogarithmicPath | src/ez_rbtree.c:134-138 | every path has at most twice the binary logarithm of n + 1 nodes |
| RbTrees.RbTree.FindNode | src/ez_rbtree.c:90-106 | NULL exactly when no node matches, otherwise a matching node, after a logarithmic number of nodes; for every procedure that is negative, zero, positive along the keys |
| RbTrees.RbTree.ForEach | src/ez_rbtree.c:366-381 | the nodes visited are the pre-order sequence: every node of the tree once |
| RbTrees.RbTree.ForEachOrder | src/ez_rbtree.c:353-364 | the same for a subtree |
| RbShape.PreOrderVisits | src/ez_rbtree.c:353-381 | pre-order and in-order have the same nodes equally often |
| RbShape.PreOrderPlaces | src/ez_rbtree.c:353-381 | each node is visited before all below it, and all on its left before all on its right |
| RbTrees.RbTree.Drain | src/ez_event.c:162-166 | repeated minimum and delete ends and yields every node once in ascending order; the tree is empty afterwards |
| Lists.ListHead.Init | src/ez_list.c:5-9 | an empty circular list |
| Lists.ListIsEmpty | src/ez_list.c:11-14 | true exactly for the empty list |
| Lists.Link | src/ez_list.c:16-22 | the four pointer writes |
| Lists.ListAdd | src/ez_list.c:16-27 | behind any node or the head the list stays circular in both directions, with the new node at that place |
| Lists.Unlink | src/ez_list.c:29-33 | the two pointer writes |
| Lists.ListDel | src/ez_list.c:29-40 | the list stays circular without exactly that node, whose links are NULL |
| Lists.VisitOne | src/ez_list.c:55-58 | the next node is known before the procedure is called, so the visited node may leave |
| Lists.ListForEach2 | src/ez_list.c:42-65 | every node up to the one that breaks is visited once, in order, although visited nodes may delete themselves; the others stay in the list in order |
| TimerModel.PlaceSorted | src/ez_event.c:272-285 | inserting keeps the queue sorted by deadline |
| TimerModel.PlaceAt | src/ez_event.c:276-284 | a new timer stands before all others with its deadline and the order of ties is kept |
| TimerModel.SortedDetermined | src/ez_event.c:272-285 | a sorted queue is determined by the order of ties at each instant |
| Timers.TimerQueue.FindSlot | src/ez_event.c:274-283 | the walk stops at the first timer that is not earlier |
| Timers.TimerQueue.InsertTimeEventList | src/ez_event.c:272-285 | the linked list holds the queue with the timer put there |
| Timers.TimerQueue.CreateTimeEvent | src/ez_event.c:290-306 | a new timer with a new id and the deadline clock + period is in the queue |
| Timers.TimerQueue.DeleteTimeEvent | src/ez_event.c:308-321 | the first timer with this id leaves and the others stay in order; ids are unique, so none has it afterwards |
| Timers.TimerQueue.Callback | src/ez_event.c:371 | a callback that creates timers, in front of or behind the saved next node, leaves that node the next one |
| Timers.TimerQueue.PushBack | src/ez_event.c:378-384 | a fired timer lies on top of the stack of timers to be put back, due one period after the clock sample if the callback returned 0 and that many milliseconds after it if it returned a positive number |
| Timers.TimerQueue.FireOne | src/ez_event.c:367-385 | one due timer: unlinked, called, then ended or stacked |
| Timers.TimerQueue.FirePass | src/ez_event.c:362-390 | the loop computes the pass of the model, over the real links, with callbacks that insert into the list it walks |
| Timers.TimerQueue.PutBack | src/ez_event.c:392-400 | the stack is put back from the last fired timer to the first |
| Timers.TimerQueue.ProcessTimeEvents | src/ez_event.c:340-403 | the whole pass: queue, next id, time stamp and number of calls are those of the model; a timer is gone after a negative answer, waits its period after 0 and the answer in milliseconds otherwise, and those that did not fire are as they were |
| TimerDeadlines.PassSettled | src/ez_event.c:374-385 | for any pass and every timer fired in it, in numbers: gone after a negative answer; queued for the clock sample plus its period after 0, plus the answer after a positive one |
| TimerDeadlines.RunEnded | src/ez_event.c:374-376 | no timer with the id of an ended one is left |
| TimerDeadlines.FiresWhenReached | src/ez_event.c:356-389 | a queued timer fires only at a sample that has reached its deadline unless all fire, and fires if all do or all samples have reached it |
| TimerDeadlines.SecondPass | src/ez_event.c:340-403 | a timer that fired and goes on does not fire in the next pass before the clock reaches the deadline it was given, and fires once it is reached |
| TimerDeadlines.BornIs | src/ez_event.c:290-306 | the timers that callbacks create in a pass get the next ids in turn, and each is due one period after the clock read for it |
| TimerRuns.BooksAccounted | src/ez_event.c:290-403 | over any sequence of creations, deletions and passes the queue stays sorted, every timer ever made is either queued or gone and no id is given twice |
| TimerRuns.Perform | src/ez_event.c:290-403 | the methods, called in any sequence, follow that ledger on the links |
| TimerRuns.Lifetime | src/ez_event.c:290-403 | both together, from an empty queue |
| TimerModel.RunBag | src/ez_event.c:362-390 | no timer is lost or made up while firing |
| TimerModel.RunCores | src/ez_event.c:374-385 | each fired timer is kept with a new deadline or has ended, never both |
| TimerModel.RunOnce | src/ez_event.c:362-400 | no timer fires twice in one pass, even with zero delay |
| TimerModel.RunFires | src/ez_event.c:362-390 | of the timers there at the start those fired are a prefix in queue order; the others are later than the clock sample that stopped the loop; all fire when the clock went backwards |
| TimerModel.RunDue | src/ez_event.c:367-385 | only due timers fire, each by its own clock sample; those kept and their new deadlines, and those ended, are what the callbacks returned |
| TimerModel.ReputStable | src/ez_event.c:383-400 | timers put back with equal new deadlines keep their firing order and precede unfired ones: the two reversals cancel |
| TimerModel.PassTheorem | src/ez_event.c:340-403 | for the whole pass: sorted, ids unique, ties, conservation, at most once, exactly which timers fire and what becomes of them |
| Epoll.Instance.AddEvent | src/ez_epoll.c:65-84 | ADD or MOD by the old mask with the merged events; a wrong choice fails and is counted |
| Epoll.Instance.DelEvent | src/ez_epoll.c:86-106 | MOD with what is left of the mask or DEL; on an unknown descriptor nothing changes and it is counted |
| Epoll.MinusHas | src/ez_event.c:264 | an event is left exactly if it was registered and is not among those taken away |
| Epoll.MinusUndo | src/ez_event.c:238-264 | taking away what was united gives back the mask, where the two have nothing in common |
| Epoll.EventsExactly | src/ez_epoll.c:75-78 | EPOLLIN is asked for exactly with AE_READABLE and EPOLLOUT exactly with AE_WRITABLE, and nothing else |
| FileEvents.Registry.constructor | src/ez_event.c:113-136 | an empty registry that agrees with an empty interest map; tree, sentinel and epoll instance are new |
| FileEvents.Registry.FindFileEvent | src/ez_event.c:100-111 | the node of this descriptor, NULL exactly when it is not registered |
| FileEvents.Registry.PutToFree | src/ez_event.c:83-89 | the node is the new head of the free list |
| FileEvents.Registry.Take | src/ez_event.c:203-216 | the first free node, wiped, or a new one, holds descriptor and mask |
| FileEvents.Registry.Register | src/ez_event.c:233-235 | tree, counter and registry gain this descriptor |
| FileEvents.Registry.SetMask | src/ez_event.c:264 | the mask in the record changes and the tree stays valid |
| FileEvents.Registry.CreateNew | src/ez_event.c:198-235 | creating for an unknown descriptor, with every failure; a refused node is dropped |
| FileEvents.Registry.Extend | src/ez_event.c:222-238 | creating for a known descriptor merges the masks |
| FileEvents.Registry.CreateFileEvent | src/ez_event.c:189-252 | exactly when it succeeds; new registry, free list and node; tree, free list, counter and interest map agree afterwards in every case and no call is issued on a descriptor in the wrong state |
| FileEvents.Registry.Unregister | src/ez_event.c:265-269 | a node with an empty mask moves from the tree to the free list |
| FileEvents.Registry.DeleteFileEvent | src/ez_event.c:254-270 | what is left registered, also for descriptors from setsize on; the four structures agree and no call is misissued |
| FileEvents.Registry.Serve | src/ez_event.c:189-270 | any sequence of creations and deletions, with any refusals, gives the masks of the specification, keeps all four structures in agreement and misissues no call |
| FileEvents.AnswerEvent | src/ez_event.c:189-270 | event by event: a request gives or takes exactly the events of its mask on its descriptor, if it is not refused |
| FileEvents.EventStays | src/ez_event.c:189-270 | any sequence of requests about other descriptors or other events leaves an event as it was |
| FileEvents.CreateTwoRemoveOne | src/ez_event.c:189-270 | reading and writing created and one of them removed: exactly the other stays, in the registry and in the interest map |
| FileEvents.ServedForEver | src/ez_event.c:256-257 | a registered descriptor from setsize on stays registered with all its events through any sequence of requests |
| FileEvents.CreateBeyondBound | src/ez_event.c:189-257 | with setsize 1, descriptor 1 is created and still there after it is deleted |
| FileEvents.Registry.BeforePoll | src/ez_epoll.c:114-118 | the internal descriptor is armed unless the kernel refuses |
| FileEvents.Registry.AfterPoll | src/ez_epoll.c:120-124 | it is disarmed; one call on an unknown descriptor exactly when arming had been refused |
| FileEvents.Registry.DeleteFileEvents | src/ez_event.c:156-166 | every node, free or registered, is freed exactly once |
| FileEvents.Lifetime | src/ez_event.c:113-270 | from creation over any requests to the freeing of the nodes: one call is misissued if arming was refused and none otherwise |
| RwLocks.Step | src/ez_rwlock.c:11-47 | one atomic step of one thread leaves all other threads where they are |
| RwLocks.StepInvariant | src/ez_rwlock.c:11-47 | every step of every thread keeps the invariant |
| RwLocks.Safety | src/ez_rwlock.c:11-47 | in every state any number of threads can reach in any interleaving: at most one writer, no reader with a writer, read counts the increments not taken back, write is 1 exactly when one thread has won |
| RwLocks.InvariantExclusive | src/ez_rwlock.c:33-42 | write is 1 if and only if a thread has won the exchange, and only one has |
| RwLocks.StepRank | src/ez_rwlock.c:13-25 | while write is set each reader step lowers the rank by one and no other step changes it |
| RwLocks.BoundedDelay | src/ez_rwlock.c:13-41 | until release, reader steps taken and rank left add up to the rank at the start, and no thread starts reading |
| RwLocks.RankZero | src/ez_rwlock.c:39 | when no reader has a step left the counter is zero |
| RwLocks.WriterEnters | src/ez_rwlock.c:33-42 | whatever the interleaving, once every other thread has had three turns the winner is inside or enters with its next turn |
| RwLocks.ReaderEnters | src/ez_rwlock.c:11-26 | while no thread exchanges, a reader is inside after at most three own steps, four if it has just found a writer and must go back first: readers do not keep each other out |
| RwLocks.WriterAlone | src/ez_rwlock.c:33-42 | a lone writer that finds the lock free is inside after two steps |
| RwLocks.EntersBeforeLeaving | src/ez_rwlock.c:11-47 | over any run a thread on its way in is still in the code of what it came for, or has been inside as that |
| RwLocks.CallEndsInside | src/ez_rwlock.c:11-47 | so a thread that came to read is back outside only after it has been inside as a reader, and one that came to write as a writer |
| RwLocks.LeavesInOneTurn | src/ez_rwlock.c:28-47 | a thread inside leaves with its next step |
| Words.MulUndo32 | src/ez_hash.c:45-47 | 32-bit multiplication by an odd constant is undone by multiplication with its inverse |
| Words.MulUndo64 | src/ez_hash.c:56-58 | the same for 64 bits |
| Words.RotlUndo32 | src/ez_hash.c:16-19 | the rotations used are undone by the opposite ones |
| Words.RotlUndo64 | src/ez_hash.c:21-24 | the same for 64 bits |
| Words.ShiftXor13Undo | src/ez_hash.c:46 | a shift of a word into itself by less than half is undone in two steps |
| MurmurSteps.FmixUndo32 | src/ez_hash.c:42-51 | fmix32 is a bijection |
| MurmurSteps.FmixUndo64 | src/ez_hash.c:53-62 | fmix64 is a bijection |
| MurmurSteps.MixUndo32 | src/ez_hash.c:82-84 | mixing a word of the key is a bijection |
| MurmurSteps.LaneUndo32 | src/ez_hash.c:86-88 | for a fixed word, taking it into a lane is a bijection of the lane |
| MurmurSteps.LaneInjective32 | src/ez_hash.c:86-88 | for a fixed lane it is injective in the word |
| Murmur.FoldDiffers | src/ez_hash.c:79-89 | sequences of blocks of any length that differ in one place lead to different states |
| Murmur.TailWord32 | src/ez_hash.c:98-104 | the fall-through cases read the bytes left over as a word filled up with zeros |
| Murmur.TailWord64 | src/ez_hash.c:324-359 | the same for 64-bit words |
| Murmur32.MurmurHash3 | src/ez_hash.c:64-117 | the loop over blocks, the tail and the end compute the folded hash |
| Murmur32.SeedBijection | src/ez_hash.c:64-117 | for a key of any length the hash is a bijection of the seed, with its inverse |
| Murmur32.NoCollision | src/ez_hash.c:64-117 | keys of equal length that differ in one 4-byte block only, or in the tail only, never collide |
| Murmur32.LengthTells | src/ez_hash.c:113 | zeros behind a key change the hash although they change no block and no tail |
| MurmurAnswers.Empty32 | src/ez_hash.c:64-117 | known answer: the empty key with seed 1 |
| MurmurAnswers.Hello32 | src/ez_hash.c:64-117 | known answer: one block and a tail of one byte |
| MurmurAnswers.Quick32 | src/ez_hash.c:64-117 | known answer: two blocks and a tail of three bytes, with a seed |
| Murmur128x86.StepUndo | src/ez_hash.c:139-180 | for a fixed block the step is a bijection of the four lanes |
| Murmur128x86.StepInjective | src/ez_hash.c:139-180 | for fixed lanes it is injective in the block |
| Murmur128x86.FinishUndo | src/ez_hash.c:245-269 | finalisation is a bijection |
| Murmur128x86.StartBijection | src/ez_hash.c:119-275 | for a key of any length the output is a bijection of the four starting lanes |
| Murmur128x86.SeedsDiffer | src/ez_hash.c:125-128 | different seeds always give different outputs |
| Murmur128x86.NoCollision | src/ez_hash.c:119-275 | keys of equal length that differ in one 16-byte block only, or in the tail only, never collide |
| Murmur128x86.LengthTells | src/ez_hash.c:247-250 | zeros behind a key change the hash although they change no block and no tail |
| MurmurAnswers.Hello86 | src/ez_hash.c:119-275 | known answer: a tail of five bytes |
| MurmurAnswers.Fox86 | src/ez_hash.c:119-275 | known answer: one block and a tail of 15 bytes, with a seed, through all four lanes |
| Murmur128x86.Body | src/ez_hash.c:139-180 | the block loop folds the blocks |
| Murmur128x86.AddTail | src/ez_hash.c:185-242 | the tail cases join the padded last block; a lane that no byte reaches stays |
| Murmur128x86.Finalize | src/ez_hash.c:245-269 | the statements of the finalisation compute the invertible form |
| Murmur128x86.MurmurHash3 | src/ez_hash.c:119-275 | the whole function |
| Murmur128x64.StepUndo | src/ez_hash.c:293-314 | for a fixed block the step is a bijection of the two lanes |
| Murmur128x64.StepInjective | src/ez_hash.c:293-314 | for fixed lanes it is injective in the block |
| Murmur128x64.FinishUndo | src/ez_hash.c:367-379 | finalisation is a bijection |
| Murmur128x64.StartBijection | src/ez_hash.c:277-383 | for a key of any length the output is a bijection of the two starting lanes |
| Murmur128x64.SeedsDiffer | src/ez_hash.c:282-283 | different seeds always give different outputs |
| Murmur128x64.NoCollision | src/ez_hash.c:277-383 | keys of equal length that differ in one 16-byte block only, or in the tail only, never collide |
| Murmur128x64.LengthTells | src/ez_hash.c:369-370 | zeros behind a key change the hash although they change no block and no tail |
| MurmurAnswers.Hello64 | src/ez_hash.c:277-383 | known answer: a tail of five bytes |
| MurmurAnswers.Fox64 | src/ez_hash.c:277-383 | known answer: one block and a tail of 15 bytes, with a seed, through both lanes |
| Murmur128x64.Body | src/ez_hash.c:293-314 | the block loop folds the blocks |
| Murmur128x64.AddTail | src/ez_hash.c:319-364 | the tail cases join the padded last block |
| Murmur128x64.Finalize | src/ez_hash.c:367-379 | the statements of the finalisation compute the invertible form |
| Murmur128x64.MurmurHash3 | src/ez_hash.c:277-383 | the whole function |
| HashTables.ClampBuckets | src/ez_hash.c:405-408 | between 16 and 1024 buckets for every wish; a negative wish, compared as unsigned, gives 1024 |
| HashTables.IndexInside | src/ez_hash.c:423 | the masked hash is a bucket for every number of buckets, power of two or not |
| HashTables.IndexSame | src/ez_hash.c:423 | two hashes share a bucket exactly if they agree on the bits of the number of buckets less one |
| HashTables.IndexReached | src/ez_hash.c:423 | a bucket is ever used exactly if its number has only bits of the number of buckets less one |
| HashTables.SeventeenBuckets | src/ez_hash.c:423 | of 17 buckets only two are ever used |
| HashTables.LookupInBucket | src/ez_hash.c:435-449 | the newest match in the bucket of the key is the newest match among all items |
| HashTables.WithoutInBucket | src/ez_hash.c:451-468 | deleting in that bucket deletes the newest match among all items and leaves the other buckets alone |
| HashTables.Bucket.Put | src/ez_hash.c:421-433 | the item becomes the first of its circular list |
| HashTables.Bucket.Find | src/ez_hash.c:439-447 | the walk stops at the first match |
| HashTables.Bucket.Delete | src/ez_hash.c:456-466 | the first match leaves the list, and only it |
| HashTables.HashTable.constructor | src/ez_hash.c:405-419 | an empty table with as many buckets as wished for, 16 for a small wish, 1024 for a large or a negative one |
| HashTables.HashTable.Put | src/ez_hash.c:421-433 | the table holds the item in front of all others |
| HashTables.HashTable.Get | src/ez_hash.c:435-449 | the value of the newest item for the key, NULL if there is none |
| HashTables.HashTable.Delete | src/ez_hash.c:451-468 | the same value, and exactly that item is gone |
| HashTables.LookupAfterPut | src/ez_hash.c:421-449 | a put is seen by gets of equal keys and by no other |
| HashTables.DeleteAfterPut | src/ez_hash.c:421-468 | a delete right after a put restores the items |
| HashTables.LookupExposed | src/ez_hash.c:435-468 | after a delete the key has the value of the next older item for it, however many others there are |
| HashTables.LookupAfterDelete | src/ez_hash.c:435-468 | gets of other keys are not affected by a delete |
| MaxHeaps.PushKeeps | src/ez_max_heap.c:39-55 | push adds exactly one element, keeps heap order, and keeps the maximum at the root even where heap order was lost |
| MaxHeaps.PushLands | src/ez_max_heap.c:48-53 | the new element comes to rest right below one strictly above it, past all that are equal or below; only those it passed have moved, one level down |
| MaxHeaps.PopBag | src/ez_max_heap.c:57-77 | whatever the order of the array, pop removes exactly the element at the root |
| MaxHeaps.PopKeeps | src/ez_max_heap.c:57-77 | from a heap pop takes the maximum, the new root is the maximum of the rest, and only the edge above the filled leaf may be wrong |
| MaxHeaps.PopHeapExactly | src/ez_max_heap.c:65-72 | heap order survives if and only if the last element is not above the leaf at the end of the path of larger children |
| MaxHeaps.PopWay | src/ez_max_heap.c:63-72 | pop in terms of the array before: the elements on one way to a leaf move to their parents, of two equal children the right one, the last element fills the leaf, all else stays |
| MaxHeaps.PopBreaks | src/ez_max_heap.c:65-72 | a heap of seven elements whose order pop breaks |
| MaxHeaps.MaxHeap.Extend | src/ez_max_heap.c:12-18 | sixteen more places, contents unchanged |
| MaxHeaps.MaxHeap.Lengthen | src/ez_max_heap.c:41-44 | one more element counts, after growth if the array was full; those before it stay |
| MaxHeaps.MaxHeap.Push | src/ez_max_heap.c:39-55 | the loop over the array computes the sift of the model, across growth |
| MaxHeaps.MaxHeap.Pop | src/ez_max_heap.c:57-77 | the loop computes the descent of the model; nothing on the empty heap |
| Decimal.SkipSpace | src/ez_util.c:66-72 | it passes all white space and nothing else |
| Decimal.OneDigit | src/ez_util.c:81-88 | under the guard the wrapped arithmetic gives ten times the value plus the digit, at most UINT64_MAX - 6 |
| Decimal.TrimIs | src/ez_util.c:76-94 | white space, something without white space at its ends, white space: trimming leaves the middle |
| Decimal.PrintedIsRead | src/ez_util.c:74-100 | the decimal notation of a number, with any zeros in front and white space around, is read as this number |
| Decimal.SpaceExactly | src/ez_util.c:68 | white space is the six characters from 9 to 13 and 32 |
| Decimal.Strtoull | src/ez_util.c:74-100 | a text is taken if and only if, trimmed, it is a possibly empty run of digits of value at most UINT64_MAX - 6, and then the result is that value |
| ByteBufs.Align | src/ez_malloc.h:13-20 | the next multiple of eight |
| ByteBufs.DecodeEncode | src/ez_bytebuf.c:33-150 | reading the bytes of any typed value gives the value |
| ByteBufs.EncodeDecode | src/ez_bytebuf.c:33-150 | every run of bytes of the right length is the encoding of the value it reads as |
| ByteBufs.BigEndian16 | src/ez_bytebuf.c:46-103 | the first of the bytes written or read is worth most: the shifts of all 2 bytes |
| ByteBufs.LittleEndian16 | src/ez_bytebuf.c:105-116 | the first of the bytes written or read is worth least: the shifts of all 2 bytes |
| ByteBufs.BigEndian32 | src/ez_bytebuf.c:53-95 | the first of the bytes written or read is worth most: the shifts of all 4 bytes |
| ByteBufs.LittleEndian32 | src/ez_bytebuf.c:118-131 | the first of the bytes written or read is worth least: the shifts of all 4 bytes |
| ByteBufs.BigEndian64 | src/ez_bytebuf.c:62-86 | the first of the bytes written or read is worth most: the shifts of all 8 bytes |
| ByteBufs.LittleEndian64 | src/ez_bytebuf.c:133-150 | the first of the bytes written or read is worth least: the shifts of all 8 bytes |
| ByteBufs.EncodeAllInjective | src/ez_bytebuf.c:33-150 | values of the same kinds in a row are determined by their bytes |
| ByteBufs.ByteBuf.Reset | src/ez_bytebuf.c:20-24 | both cursors at the start |
| ByteBufs.ByteBuf.Resize | src/ez_bytebuf.c:26-31 | the cursors and the bytes that fit are kept when growing or shrinking; what is unread is kept if its end still fits |
| ByteBufs.ByteBuf.WriteInt16 | src/ez_bytebuf.c:46-51 | appends the big-endian bytes of 16 bits to what is unread |
| ByteBufs.ByteBuf.ReadInt16 | src/ez_bytebuf.c:97-103 | takes off the value whose big-endian bytes come first |
| ByteBufs.ByteBuf.WriteInt16Le | src/ez_bytebuf.c:105-110 | appends the same bytes in reverse |
| ByteBufs.ByteBuf.ReadInt16Le | src/ez_bytebuf.c:112-116 | takes off the value whose little-endian bytes come first |
| ByteBufs.ByteBuf.WriteInt32 | src/ez_bytebuf.c:53-60 | appends the big-endian bytes of 32 bits to what is unread |
| ByteBufs.ByteBuf.ReadInt32 | src/ez_bytebuf.c:88-95 | takes off the value whose big-endian bytes come first |
| ByteBufs.ByteBuf.WriteInt32Le | src/ez_bytebuf.c:118-125 | appends the same bytes in reverse |
| ByteBufs.ByteBuf.ReadInt32Le | src/ez_bytebuf.c:127-131 | takes off the value whose little-endian bytes come first |
| ByteBufs.ByteBuf.WriteInt64 | src/ez_bytebuf.c:62-73 | appends the big-endian bytes of 64 bits to what is unread |
| ByteBufs.ByteBuf.ReadInt64 | src/ez_bytebuf.c:75-86 | takes off the value whose big-endian bytes come first |
| ByteBufs.ByteBuf.WriteInt64Le | src/ez_bytebuf.c:133-144 | appends the same bytes in reverse |
| ByteBufs.ByteBuf.ReadInt64Le | src/ez_bytebuf.c:146-150 | takes off the value whose little-endian bytes come first |
| ByteBufs.ByteBuf.WriteInt8 | src/ez_bytebuf.c:33-37 | appends the byte |
| ByteBufs.ByteBuf.ReadInt8 | src/ez_bytebuf.c:39-43 | takes off the first byte |
| ByteBufs.ByteBuf.RoundTrip | src/ez_bytebuf.c:26-150 | any typed writes of mixed width and order, with growth in between, followed by the same reads return the values and leave w - r at zero |
| Utf8.Bits3 | src/ez_string.c:79-82 | three bytes carry all bits of a character up to 0xFFFF |
| Utf8.Bits4 | src/ez_string.c:83-87 | four bytes carry all bits of the others |
| Utf8.Layout | src/ez_string.c:79-87 | the bytes have the layout of section 3 of RFC 3629: a first byte from E0 or F0 on, then bytes from 80 to BF |
| Utf8.Bits2 | src/ez_string.c:118-121 | two bytes never come back: the shift by five loses the character |
| Utf8.EncodedTwo | src/ez_string.c:76-78 | the two bytes of a character stand for it under section 3 of RFC 3629, with a first byte from C2 to DF |
| Utf8.EncodedThree | src/ez_string.c:79-82 | so do three bytes |
| Utf8.EncodedFour | src/ez_string.c:83-87 | so do four bytes, with a first byte from F0 to F4 |
| Utf8.DecodedByStandard | src/ez_string.c:110-138 | one, three and four bytes decode to what they stand for; two with the upper bits one place too low; a byte that begins nothing gives no character |
| Utf8.RoundTripExactly | src/ez_string.c:70-132 | for every text, negative wide characters included: its encoding is complete and decodes to it if and only if all characters are from 0x800 to 0x10FFFF, except that the last one may be ASCII |
| Utf8.LongRoundTrip | src/ez_string.c:79-87 | on 0x800 to 0x10FFFF it always does, with three bytes a character and four beyond 0xFFFF |
| Utf8.Lost | src/ez_string.c:73-78 | concrete texts that are lost: a character behind ASCII, and one of two bytes |
| Utf8.Utf8Encode | src/ez_string.c:70-93 | the loop over indices fills in exactly these bytes and nothing behind them |
| Utf8.Utf8Decode | src/ez_string.c:110-136 | the loop fills in exactly the decoded characters |

## Left out

- Sockets, signals, daemonising, logging, AIO and the example programs: system calls around the modelled cores.
- ez_process_events (dispatch and choice of time-out): correct dispatch depends on callbacks that delete and reuse nodes while events are delivered.
- ezApiPoll and ezApiDoEventfdCmd: what the kernel reports is input only.
- Timer callbacks that delete timers during a pass: the walk saves the next pointer, so deleting the saved timer is outside its intended use.
- Callback pointers and client data of events: stored and passed on only.
- The list drain of timers in ez_delete_event_loop: it only unlinks and frees.
- Weak memory order: src/ez_atomic.h uses relaxed operations, the step system does not.
- Wrap-around of counters: the reader count, heap sizes, buffer cursors, timer ids and milliseconds are unbounded integers here.
- Allocation failure, usable-size accounting and the strtol family of wrappers.
- list_foreach: it is the walk of ListForEach2 with a procedure that never breaks.
- ByteBufs.ByteBuf.Reset: requires a buffer with room, because the code writes to the first byte even where there is none.
- Typed reads and writes outside the allocation of a byte buffer: the code does not look at its bounds; reading behind the writer index but inside the allocation is modelled.
- Utf8.Utf8Decode: requires that no character is cut off at the end, where the code reads past its input.
- The shape of some long functions: body, tail and end of the 128-bit hashes, the cases of the tree's fix-up loops and the turns of some other loops are methods of their own.
- FileEvents.Registry.CreateFileEvent: requires a descriptor other than the internal one, which is private to the loop.
- RwLocks.WriterEnters: says nothing about which waiting writer wins the exchange; the lock is not fair among writers.
