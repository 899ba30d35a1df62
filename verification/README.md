# Verified models of libuv's core algorithms

Node.js ships libuv, and libuv's event loop stands on a handful of hand-written algorithms: a
thread pool with a cancellation protocol, pointer trees kept in macros, a heap, an intrusive
queue, the IP address printer and parser, and the polling file watcher. This project models
them, together with the code index of V8's profiler tools, and proves what they are for.
`dafny verify dfyconfig.toml` checks everything.

- **Thread pool** (`ThreadPool*.dfy`). Workers, any number of loop threads and the thread that
  runs `cleanup` interleave as a step relation: one step is a lock acquisition, a critical
  section, or an access outside every lock. Spurious wakeups may happen at any time. `Good` is
  the inductive invariant, `Reachable` quantifies over all runs. A log of what an observer sees
  (submitted, taken, run, cancel result, handed back, done) carries the claims about whole
  histories; `ThreadPoolOrder` replays from it who stands in which line. Two
  duties are the caller's: a request is cancelled only by its own loop and only while it is
  pending, and it is not submitted again while pending. Posts after the exit message are allowed.
- **Trees** (`Links`, `RbBalance`, `RbTree`, `KeyOrder`, `SplayDepth`, `SplayTree`). Memory is a table from
  addresses to records held by the head, so pointers alias as in C and every assignment of the
  macros is an update of one record. `At(mem, c, t, p, root)` says that the records form tree
  `t` in the hole of context `c`, parent links included. The splay header `__node` on the stack
  is an address like any other.
- **Heap** (`HeapOrder`, `BinaryHeap`). The same memory; slots are numbered in level order.
- **Queue and uv_walk** (`Queue`, `UvWalk`). Nodes are objects with `next` and `prev`; a queue is
  a header and the sequence of nodes behind it. A callback of a walk may initialise handles and
  may itself walk the queue, to any depth: `Walked` is the resulting queue, on numbered handles, and
  `WalkTrace` lists the calls and what they did, by level.
- **Addresses** (`InetText`, `Inet4`, `Inet6`, `InetPton`, `InetNtop`, `InetForm`). The grammar is
  stated on its own, in terms of fields between separators, and the loops over characters and
  arrays are proved against it. `InetForm` states the form of RFC 5952 on the grammar and on the
  words of an address, without the printer, and shows that the printer writes that form only.
- **fs-poll** (`ChangeDetector`, `FsPollState`, `FsPollTheorems`, `FsPollCalls`, `FsPoll`). Contexts are known by address, and the
  loop's own lists (requests in flight, timer heap, closing handles) hold addresses too. Stat
  results, the clock, the allocator and user callbacks are arbitrary. `FsPollState` states each
  function as a state transformer. `FsPollTheorems` proves what holds at every moment of every run,
  where a moment lies between two events or inside a user callback that has done part of its
  script; `FsPollCalls` says what each call does and what follows for the rest of the run.
  Class `Loop` performs the assignments of the source and equals the transformers.
- **Code map** (`CodeMap`). Address ranges of dynamic code, the lookup that should agree with a
  search through all entries, and the generator that keeps entry names apart. Entries of size 0,
  which profile.js adds for function objects, are included. `After` is the state after any
  sequence of operations, and class `Map` equals it.

Keys stand for a consistent three-way `cmp` or a strict weak `less_than`: both are given by an
integer per node.

What the proofs showed about the code:

- `inet_ntop6` has a branch that never decides: with a zero run of seven words from word 0 on,
  word 6 is inside the run, so the test on `words[7]` (deps/libuv/src/inet.c:131) is unreachable;
  `InetNtop.Format` asserts it.
- `heap_remove` never executes `heap->min = NULL` (deps/libuv/src/heap-inl.h:190): unlinking the
  last slot has already cleared it.
- `SPLAY_REMOVE` removes whichever node has an equal key and returns its argument.
- The fs-poll timer is not on the grid of the first start. `timer_cb` moves `start_time` to the
  moment the timer ran, so a late timer shifts all later polls. `FsPollTheorems.LateTimerDrifts`
  runs an instance. `GridOfFirstStart` gives the exact condition in every reachable state: the sum
  of how late the timers of the context have run is a multiple of its interval.
- The check for a fifth octet in `inet_pton4` (deps/libuv/src/inet.c:206) cannot fire: the dot
  before it has been refused. `Inet4.Pton4` asserts it.
- The code map's name generator does not keep names apart. Its table is `{}`, which inherits
  properties, so every entry called `toString` becomes `toString {NaN}`
  (deps/v8/tools/codemap.js:309-318), and an entry called `f {1}` can meet the second `f`.
  `CodeMap.NamesClash` shows that these two families are all: names clash exactly if both entries
  have one name that every object has, or one is literally spelled like the other's numbered name.
- An entry of size 0 can make the code map keep overlapping entries and miss a lookup.
  `CodeMap.HiddenOverlap` is an input, `AddedDisjoint` and `LookupIsBruteForce` are the exact
  conditions.

## Model

| member | source | states |
|---|---|---|
| ThreadPool.PoolSize | deps/libuv/src/threadpool.c:146-162 | 4 threads by default, the number asked for from 1 to 128, 1 for 0, 128 for more or for a negative number, and 4 in place of more than 4 if allocation fails |
| ThreadPoolInvariant.StepInv | deps/libuv/src/threadpool.c:64-238 | every step of every thread keeps the invariant on locks, program counters, queues, links and `work` fields |
| ThreadPoolTheorems.ReachableGood | deps/libuv/src/threadpool.c:64-238 | every reachable state satisfies all invariants: locks, places, wakeups, shutdown, history |
| ThreadPoolTheorems.OnePlace | deps/libuv/src/threadpool.c:84-103 | a pending request is in exactly one of: being posted, global queue, one worker, mid-cancel, loop queue, drain queue; and in it once |
| ThreadPoolTheorems.WorkIsCallable | deps/libuv/src/threadpool.c:56-58 | no worker ever calls `uv__cancelled` or a null work function |
| ThreadPoolTheorems.DoneOncePerSubmission | deps/libuv/src/threadpool.c:230-237 | `done` has run exactly as often as the request was submitted, less one while it is pending |
| ThreadPoolTheorems.CancelPreventsRun | deps/libuv/src/threadpool.c:192-215 | after a cancel returned 0 the request is not taken, run or delivered with status 0 before its next submission, and a repeated cancel does not fail |
| ThreadPoolTheorems.StatusTellsTheTruth | deps/libuv/src/threadpool.c:235-236 | `done` gets 0 exactly if the work ran in that submission, UV_ECANCELED exactly if a cancel of it returned 0 |
| ThreadPoolOrder.TakenInOrder | deps/libuv/src/threadpool.c:79-109 | requests are taken first come, first served: one submitted earlier, and not again since, has been taken or cancelled before a later one is taken |
| ThreadPoolOrder.DeliveredInOrder | deps/libuv/src/threadpool.c:100-237 | requests handed back to one loop are delivered in that order, unless a cancel takes the earlier one out |
| ThreadPoolOrder.DeliveredAtHome | deps/libuv/src/threadpool.c:99-237 | a request is handed back to the loop that submitted it, and delivered there |
| ThreadPoolOrder.ReachableLined | deps/libuv/src/threadpool.c:79-238 | in every reachable state the queues are those an observer replays from the log, only the first in line has ever been served, and nobody has joined a line twice |
| ThreadPoolTheorems.NoLostWakeup | deps/libuv/src/threadpool.c:70-113 | `idle_threads` counts the waiters and the woken that have not reacquired the mutex; while one sleeps unsignalled, the queue is no longer than the number of workers about to look |
| ThreadPoolTheorems.MutexFree | deps/libuv/src/threadpool.c:61-63 | no state in which nobody can move has the global mutex held, although cancel nests two mutexes |
| ThreadPoolTheorems.LoopMutexFree | deps/libuv/src/threadpool.c:195-212 | nor a loop mutex |
| ThreadPoolTheorems.RestMeansDone | deps/libuv/src/threadpool.c:64-138 | no deadlock: where nothing can move, every request has been delivered or was queued behind the exit message, and a cleanup that began has joined all workers |
| ThreadPoolShutdown.StepShrinks | deps/libuv/src/threadpool.c:64-238 | every step but a new call lowers a measure: in any state if spurious wakeups and the start of cleanup are set aside, and those included once the exit message is posted |
| ThreadPoolShutdown.EveryRequestIsDelivered | deps/libuv/src/threadpool.c:64-238 | without new calls, spurious wakeups and a new cleanup every run is bounded by the measure, and where it cannot go on each request has been delivered as often as submitted, or stands behind the exit message |
| ThreadPoolShutdown.SomeRunEnds | deps/libuv/src/threadpool.c:64-238 | and from every reachable state such a run leads to where nothing can go on |
| ThreadPoolShutdown.CleanupTerminates | deps/libuv/src/threadpool.c:117-138 | from there a run without new calls is bounded by the measure and stops only when all workers have exited and been joined |
| ThreadPoolShutdown.ExitComesLast | deps/libuv/src/threadpool.c:79-92 | a worker leaves only when nothing queued ahead of the exit message is left |
| ThreadPoolShutdown.NothingOvertakes | deps/libuv/src/threadpool.c:107-113 | what stands ahead of the exit message never grows |
| ThreadPoolShutdown.DeliveredBeforeExit | deps/libuv/src/threadpool.c:107-133 | a request that was pending before the exit message was posted has been delivered wherever a run from there cannot go on |
| RbTree.Head.RotateLeft | deps/libuv/include/tree.h:342-360 | the links afterwards are exactly those of the left rotation at elm, parent links and root included |
| RbTree.Head.RotateRight | deps/libuv/include/tree.h:362-380 | the same for the right rotation |
| RbTree.Head.InsertColor | deps/libuv/include/tree.h:408-449 | from a tree whose only violation may be a red node with a red parent, the fix-up makes a valid red-black tree with the same nodes in order, and terminates |
| RbTree.Head.Insert | deps/libuv/include/tree.h:597-626 | a new key is put at its sorted place and NULL returned; for a key already there nothing changes and its node is returned; the tree stays valid |
| RbTree.Head.RemoveColor | deps/libuv/include/tree.h:452-528 | from a tree in which one subtree lacks one black node, the fix-up makes a valid red-black tree with the same nodes in order, and terminates |
| RbTree.Head.Remove | deps/libuv/include/tree.h:531-595 | any node of a valid tree is taken out, the others keep their order, and the tree stays valid |
| RbTree.Head.RemoveInner | deps/libuv/include/tree.h:541-581 | a node with two children is replaced by its successor, whether or not that is its own right child |
| RbTree.Head.Find | deps/libuv/include/tree.h:630-644 | a node with the key or NULL exactly if there is none, within a number of steps that satisfies 2^steps <= (n+1)^2 |
| RbTree.Head.NFind | deps/libuv/include/tree.h:648-666 | the least node not below the key, NULL exactly if all are below, within the same number of steps |
| RbTree.Head.Next | deps/libuv/include/tree.h:669-688 | the node at the next position of the in-order sequence, NULL at the end |
| RbTree.Head.Prev | deps/libuv/include/tree.h:691-709 | the node at the previous position, so the inverse of Next |
| RbTree.Head.MinMax | deps/libuv/include/tree.h:712-724 | the first or the last node, NULL for an empty tree |
| RbTree.Head.Run | deps/libuv/include/tree.h:531-644 | any sequence of insertions, lookups and removals on an empty tree keeps it valid, leaves exactly the nodes a finite map would hold, and its height within 2^h <= (n+1)^2 |
| RbTree.Head.ForEach | deps/libuv/include/tree.h:738-741 | visits every node once, in ascending order |
| RbTree.Head.ForEachReverse | deps/libuv/include/tree.h:753-756 | visits every node once, in descending order |
| RbBalance.HeightBound | deps/libuv/include/tree.h:53-62 | the documented bound: height h and size n of a red-black tree satisfy 2^h <= (n+1)^2 |
| RbBalance.ShortDescent | deps/libuv/include/tree.h:61-62 | so does the depth of every place in it |
| SplayTree.SplayHead.Splay | deps/libuv/include/tree.h:210-242 | keeps the in-order sequence through rotations, links and assembly on the shared header, ends with the key or a neighbour of it at the root, and brings node i of the search path to depth i/2 + 2 or less |
| SplayTree.SplayHead.Assemble | deps/libuv/include/tree.h:112-117 | the links make the tree of both side trees and the middle, and the header is gone from it |
| SplayTree.SplayHead.SplayMinMax | deps/libuv/include/tree.h:247-278 | keeps the in-order sequence, ends with the first or last node at the root, and halves the depth of the nodes on the way to it in the same sense |
| SplayTree.SplayHead.Find | deps/libuv/include/tree.h:128-137 | a node with the key or NULL exactly if there is none |
| SplayTree.SplayHead.Insert | deps/libuv/include/tree.h:164-186 | a new key is put at its sorted place; an existing one leaves the sequence alone and is returned |
| SplayTree.SplayHead.Remove | deps/libuv/include/tree.h:188-207 | the node with the key leaves the sequence; NULL exactly if there is none |
| SplayTree.SplayHead.Run | deps/libuv/include/tree.h:164-207 | any sequence of insertions and removals on an empty tree leaves exactly the nodes a finite map would hold |
| SplayTree.SplayHead.Join | deps/libuv/include/tree.h:198-203 | the second splay leaves no right child at the root, where the saved subtree is hung without losing a node |
| SplayTree.SplayHead.Next | deps/libuv/include/tree.h:139-151 | the node at the next position |
| SplayTree.SplayHead.MinMax | deps/libuv/include/tree.h:153-158 | the first or the last node, with the sequence unchanged |
| BinaryHeap.HeapHead.SwapAt | deps/libuv/src/heap-inl.h:72-104 | swapping a node with its child leaves exactly the tree with the two exchanged, every link of the six neighbours right |
| BinaryHeap.HeapHead.BitPath | deps/libuv/src/heap-inl.h:122-124 | the bits collected by halving, taken lowest first, walk from slot 1 to the slot |
| BinaryHeap.HeapHead.Follow | deps/libuv/src/heap-inl.h:126-136 | the pointer walk ends at the link of that level-order slot |
| BinaryHeap.HeapHead.SiftUp | deps/libuv/src/heap-inl.h:143-147 | from a heap with one node too low, makes a complete heap of the same nodes |
| BinaryHeap.HeapHead.SiftDown | deps/libuv/src/heap-inl.h:215-229 | moves a node that is too high down until only its ancestors can be out of order with it |
| BinaryHeap.HeapHead.Insert | deps/libuv/src/heap-inl.h:106-148 | adds exactly the node; the tree stays complete, ordered and linked both ways |
| BinaryHeap.HeapHead.Remove | deps/libuv/src/heap-inl.h:150-237 | takes out exactly the node, whichever member it is; the tree stays complete, ordered and linked; an empty heap is left alone |
| BinaryHeap.HeapHead.Dequeue | deps/libuv/src/heap-inl.h:239-241 | takes out a minimum |
| BinaryHeap.HeapHead.Min | deps/libuv/src/heap-inl.h:67-69 | a minimum of the nodes, NULL exactly if there are none |
| BinaryHeap.HeapHead.Run | deps/libuv/src/heap-inl.h:55-241 | after any sequence of insertions, removals and dequeues the heap is valid and holds exactly the nodes computed from the operations, heap_min returned a least one after each of them, and the height is at most log2 of their number |
| BinaryHeap.PopsAscend | deps/libuv/src/heap-inl.h:239-241 | nodes dequeued one after another come in ascending order |
| HeapOrder.HeightBound | deps/libuv/src/heap-inl.h:33-36 | the height of a complete tree is at most log2 of its size |
| Queue.RingUnique | deps/libuv/src/queue.h:36-43 | the links of a queue determine its sequence |
| Queue.Split | deps/libuv/src/queue.h:61-70 | the nodes before q stay, those from q on move to the other header, both in order |
| Queue.Move | deps/libuv/src/queue.h:72-81 | all nodes move to the other header and the first is empty |
| Queue.Add | deps/libuv/src/queue.h:52-59 | the nodes of the second queue, empty or not, follow those of the first |
| Queue.InsertHead | deps/libuv/src/queue.h:83-90 | q comes first |
| Queue.InsertTail | deps/libuv/src/queue.h:92-99 | q comes last |
| Queue.Remove | deps/libuv/src/queue.h:101-106 | q leaves, the others keep their order |
| Queue.ForEach | deps/libuv/src/queue.h:36-37 | visits the nodes in order, each once |
| UvWalk.Walk | deps/libuv/src/uv-common.c:347-363 | calls back exactly the external handles present at entry, once each and in order, although callbacks append handles and walk the queue themselves; all calls, nested ones included, are those of WalkTrace, and the queue afterwards is exactly Walked; it terminates |
| UvWalk.ExternalOnce | deps/libuv/src/uv-common.c:360-361 | every handle that is not internal is reported, and none twice |
| UvWalk.WalkedKeeps | deps/libuv/src/uv-common.c:352-362 | however walks nest, no handle is lost or doubled, the old ones keep their order, and every new one is in the queue |
| UvWalk.WalkLevels | deps/libuv/src/uv-common.c:347-363 | of each walk, however deep, the trace has a call for every external handle there at its start, once and in order, followed by what that callback is to do |
| UvWalk.NestedWalks | deps/libuv/src/uv-common.c:347-363 | a walk inside a callback does all that a walk over the queue of that moment is to do |
| UvWalk.WalkMakes | deps/libuv/src/uv-common.c:347-363 | the handles that exist afterwards are the old ones and those the trace tells of |
| UvWalk.CreatedBehind | deps/libuv/src/uv-common.c:357-361 | the handles a callback makes stand right behind the handle it was called for |
| Inet4.ScanIsQuad | deps/libuv/src/inet.c:186-222 | from every intermediate state the scanner of inet_pton4 computes the grammar's value: four octets below 256 without leading zeros |
| Inet4.Pton4 | deps/libuv/src/inet.c:186-222 | accepts exactly that grammar, writes its value, and otherwise leaves the destination alone |
| Inet4.Ntop4 | deps/libuv/src/inet.c:53-65 | UV_ENOSPC exactly if text and NUL do not fit; else the text, padded with NULs |
| Inet4.RoundTrip4 | deps/libuv/src/inet.c:53-65 | parsing what was printed gives the address back |
| Inet6.GrammarAccepted | deps/libuv/src/inet.c:225-309 | every text of the grammar of section 2.2 of RFC 4291 is accepted with its value |
| Inet6.AcceptedGrammar | deps/libuv/src/inet.c:225-309 | every accepted text belongs to the grammar and has that value |
| Inet6.ParseIsGrammar | deps/libuv/src/inet.c:225-309 | inet_pton6 yields v exactly if some address of the grammar is written s and has value v |
| InetPton.ShiftTail | deps/libuv/src/inet.c:294-303 | the overlapping shift in place moves the tail to the end and zero-fills the gap |
| InetPton.Pton6 | deps/libuv/src/inet.c:225-309 | the loops over src and tmp compute that parser; on failure dst is untouched |
| InetPton.AddressFits | deps/libuv/src/inet.c:164-176 | no accepted address is longer than 45 characters, so the length limit before a `%` refuses no address |
| InetPton.Pton | deps/libuv/src/inet.c:157-183 | dispatch, null arguments, and an IPv6 address with anything from `%` on ignored |
| InetNtop.BestRun | deps/libuv/src/inet.c:89-112 | finds the leftmost of the longest zero runs of at least two words (sections 4.2.2 and 4.2.3 of RFC 5952) |
| InetNtop.LongestUnique | deps/libuv/src/inet.c:89-112 | there is only one such run |
| InetNtop.Format | deps/libuv/src/inet.c:114-144 | writes the canonical text into 46 bytes without overrun; the nested inet_ntop4 never fails |
| InetNtop.ShortenedValue | deps/libuv/src/inet.c:114-144 | the text written for an address belongs to the grammar and denotes that address, both embedded IPv4 forms included |
| InetNtop.RoundTrip6 | deps/libuv/src/inet.c:68-154 | parsing what was printed gives the 16 bytes back |
| InetNtop.CanonicalUnique | deps/libuv/src/inet.c:68-154 | an address has one canonical text |
| InetNtop.Ntop6 | deps/libuv/src/inet.c:68-154 | the canonical text, at most 45 characters; UV_ENOSPC exactly if it and its NUL do not fit, and then dst is untouched |
| InetNtop.Ntop | deps/libuv/src/inet.c:40-50 | dispatch; UV_ENOSPC exactly if the text and its NUL do not fit; the text is the dotted quad or the canonical form and parses back to the source; 46 bytes are always enough |
| InetForm.PrintedIsForm | deps/libuv/src/inet.c:68-144 | the text printed for an address is the one text with lower-case groups without leading zeros, "::" for the leftmost of the longest zero runs of two or more words, and a dotted quad where section 5 of RFC 5952 has one |
| InetForm.FormUnique | deps/libuv/src/inet.c:68-144 | an address has one text of that form |
| InetForm.PrintedChars | deps/libuv/src/inet.c:131-139 | the text has only 0-9, a-f, colons and dots, and a dot exactly for IPv4-mapped and IPv4-compatible addresses |
| InetForm.ParsesLinkLocal | deps/libuv/src/inet.c:225-309 | a known address: fe80::20a has these 16 bytes |
| InetText.HexTables | deps/libuv/src/inet.c:226-247 | the value of a hexadecimal digit is its place in one of the two tables of the source, and no other character has one |
| ChangeDetector.StatEqMeaning | deps/libuv/src/fs-poll.c:227-242 | equal means equal but for link count, device number, block size and count, and access time |
| ChangeDetector.NotifyIsChange | deps/libuv/src/fs-poll.c:185-203 | the branches on `busy_polling` and `statbuf` report exactly the change from the previous result: a new error code, recovery, or a differing stat; never on a first success |
| ChangeDetector.QuietWhileUnchanged | deps/libuv/src/fs-poll.c:185-203 | a result repeated any number of times is reported at most once |
| ChangeDetector.DueIsNext | deps/libuv/src/fs-poll.c:213-217 | the timer is due strictly after now, a whole number of intervals after the poll began |
| ChangeDetector.NothingSooner | deps/libuv/src/fs-poll.c:213-217 | and at the first such moment |
| FsPollTheorems.ReachableGood | deps/libuv/src/fs-poll.c:56-224 | all invariants hold after any sequence of user calls, stat results, timer expiries, close callbacks and callback scripts |
| FsPollTheorems.MomentGood | deps/libuv/src/fs-poll.c:172-203 | and at every moment inside a user callback, whatever it has stopped, started or initialised so far |
| FsPollTheorems.CallbackReturns | deps/libuv/src/fs-poll.c:205-219 | when the callback returns, `poll_cb` finds its context alive and goes on from there to the state after the event |
| FsPollTheorems.OnePlace | deps/libuv/src/fs-poll.c:104-219 | at any moment a live context is in exactly one of: stat in flight, callback running, timer armed, timer closing; only live ones are anywhere, and the running callback is the one on the stack |
| FsPollTheorems.PointersAgree | deps/libuv/src/fs-poll.c:79-114 | at any moment an active handle and its poll_ctx point at each other, and no other pair does |
| FsPollTheorems.ReportsAreChanges | deps/libuv/src/fs-poll.c:172-203 | at any moment each context has made exactly the callbacks the change detector makes of its results, inside its own callback the result being reported included, and its statbuf is the last successful stat it has stored |
| FsPollTheorems.AssertionsHold | deps/libuv/src/fs-poll.c:104-170 | no assertion of the source fails: at any moment, inside callbacks too, a stop or a start goes through for every handle the user may pass; results, timers and close callbacks find the context they expect |
| FsPollState.OnlyUserErrors | deps/libuv/src/fs-poll.c:104-114 | in a good state an action is ruled out only by the user's own duties, never by an assertion |
| FsPollTheorems.GridOfFirstStart | deps/libuv/src/fs-poll.c:165-217 | at any moment an armed timer is due whole intervals after the first start exactly if the sum of how late the timers of its context have run is a multiple of the interval |
| FsPollTheorems.PunctualIsRegular | deps/libuv/src/fs-poll.c:159-217 | if every timer ran when it was due, that sum is 0 and every poll of the run began whole intervals after the first start |
| FsPollTheorems.LateTimerDrifts | deps/libuv/src/fs-poll.c:165-217 | a run from the start in which a timer 3 late leaves the grid: started at 100 with interval 10, due at 123 |
| FsPollState.PollGood | deps/libuv/src/fs-poll.c:172-219 | one stat result reports the change once and re-arms or closes, also when the callback stops or restarts handles |
| FsPollState.StopGood | deps/libuv/src/fs-poll.c:104-125 | stopping any handle in any reachable state is allowed and keeps the invariants |
| FsPollState.StartGood | deps/libuv/src/fs-poll.c:56-96 | so does starting one, whatever free address the allocator returns |
| FsPollState.FreeGood | deps/libuv/src/fs-poll.c:222-224 | after the close callback nothing refers to the freed context |
| FsPollTheorems.StoppedStaysSilent | deps/libuv/src/fs-poll.c:104-183 | in every later state of every run a stopped context has called back no more and is as it was, but perhaps closing, unless its close callback has freed it |
| FsPollTheorems.StoppedInside | deps/libuv/src/fs-poll.c:104-203 | a context stopped inside a callback, its own included, has made its last report whatever else the callback does |
| FsPollCalls.StopStops | deps/libuv/src/fs-poll.c:104-125 | in every good state a stop leaves the handle inactive without context, its context without parent and otherwise as it was, an armed timer closing, and all else alone |
| FsPollCalls.StartStarts | deps/libuv/src/fs-poll.c:56-96 | a start of an inactive handle with memory makes it active with a context that has the arguments' callback, path and interval (1 for 0) and a stat in flight; any other start changes nothing |
| FsPollCalls.TimerPolls | deps/libuv/src/fs-poll.c:159-170 | an expired timer starts a stat of its context at that moment and touches nothing else |
| FsPollCalls.PollConcernsOne | deps/libuv/src/fs-poll.c:172-219 | a stat result concerns its own context only |
| FsPollCalls.CloseFrees | deps/libuv/src/fs-poll.c:222-224 | the close callback frees its own context only |
| FsPollCalls.SilentAfterStop | deps/libuv/src/fs-poll.c:104-183 | in every run, the context that a stop between events stops makes no further report |
| FsPollCalls.SilentAfterInnerStop | deps/libuv/src/fs-poll.c:104-203 | nor does one that a stop inside a callback stops, its own included |
| FsPollCalls.ArgumentsKept | deps/libuv/src/fs-poll.c:76-92 | at every moment of every run a context has the callback, path and interval of the start that made it, and no other handle as parent |
| FsPoll.Loop.Start | deps/libuv/src/fs-poll.c:56-96 | the assignments make the state transformer Started and keep the invariants; UV_ENOMEM exactly if an inactive handle got no memory |
| FsPoll.Loop.Stop | deps/libuv/src/fs-poll.c:104-125 | the assignments make Stopped and keep the invariants |
| FsPoll.Loop.PollCb | deps/libuv/src/fs-poll.c:172-219 | the branches, the callback and the re-arming make Polled and keep the invariants |
| FsPoll.Loop.TimerCb | deps/libuv/src/fs-poll.c:159-170 | the assignments make Expired and keep the invariants |
| FsPoll.Loop.Run | deps/libuv/src/fs-poll.c:56-224 | any sequence of events leads to the state the theorems speak of |
| CodeMap.FindInTree | deps/v8/tools/codemap.js:176-179 | in any tree, finds an entry exactly if it covers the address and no other begins in between |
| CodeMap.LookupIsBruteForce | deps/v8/tools/codemap.js:176-179 | over disjoint ranges the lookup agrees with a search through all entries exactly if no empty entry begins inside the covering one at or before the address |
| CodeMap.Map.DeleteAllCoveredNodes | deps/v8/tools/codemap.js:151-162 | in any tree, removes exactly the overlapping entries that the downward search reaches, and none for an empty range |
| CodeMap.KeyTaken | deps/v8/tools/splaytree.js:67-77 | a new entry finds its key taken, and is dropped, exactly if an entry is there and one of the two is empty |
| CodeMap.AddedDisjoint | deps/v8/tools/codemap.js:81-84 | adding an entry keeps the ranges disjoint exactly if it is empty, is dropped for an empty one at its key, or no entry begins between the start of one it overlaps and its own |
| CodeMap.AddedExactly | deps/v8/tools/codemap.js:81-84 | without empty entries the new entry replaces exactly those it overlaps, and ranges stay disjoint |
| CodeMap.AddedAnywhere | deps/v8/tools/codemap.js:81-84 | in any tree: the new entry is at its key unless that is still taken, an entry goes exactly if it overlaps and the search reaches it, and the others are as before |
| CodeMap.MovedAnywhere | deps/v8/tools/codemap.js:94-98 | in any tree: the moved entry, name and all, is at its new key unless that is still taken, and the old key is free |
| CodeMap.MovedExactly | deps/v8/tools/codemap.js:94-98 | without empty entries it is there, exactly those it then overlaps are gone, and the others are as before |
| CodeMap.DeletedExactly | deps/v8/tools/codemap.js:107-109 | that entry goes and all others stay as they are |
| CodeMap.FoundNamed | deps/v8/tools/codemap.js:203-211 | the entry a lookup finds has its final name afterwards, given by the request this lookup made unless it had one; all else is as before |
| CodeMap.FoundNothing | deps/v8/tools/codemap.js:189-215 | a lookup in static pages, or one that finds nothing, changes nothing |
| CodeMap.AddedThere | deps/v8/tools/codemap.js:81-84 | an added entry is at its key, not yet named by the generator, unless the key is still taken; the entries that stay are as before |
| CodeMap.HiddenOverlap | deps/v8/tools/codemap.js:151-162 | an input with an empty entry after which two entries cover one address and a covered address is not found |
| CodeMap.Map.AddCode | deps/v8/tools/codemap.js:81-84 | entries of any size: the search's overlaps go, and the new entry is there unless its key is taken |
| CodeMap.Map.MoveCode | deps/v8/tools/codemap.js:94-98 | makes the state of which MovedAnywhere and MovedExactly speak; an unknown address changes nothing |
| CodeMap.Map.DeleteCode | deps/v8/tools/codemap.js:107-109 | makes the state of which DeletedExactly speaks; an unknown address is reported |
| CodeMap.Map.FindAddress | deps/v8/tools/codemap.js:189-215 | outside static pages the result is the entry that covers the address, if no other begins in between, with the offset into it; nothing changes but that entry's name, once |
| CodeMap.RunDisjoint | deps/v8/tools/codemap.js:81-215 | after any sequence of operations that adds no empty entry, ranges are disjoint and every lookup agrees with a search through all entries |
| CodeMap.Map.GetName | deps/v8/tools/codemap.js:308-320 | the answer to a request follows from the requests before it: the plain name, then numbered ones, and NaN for a name that every object has |
| CodeMap.NamesClash | deps/v8/tools/codemap.js:308-320 | two requests get the same name exactly if both ask for one name that every object has, or one asks for a fresh name spelled like the numbered name of the other |
| CodeMap.ClashingNames | deps/v8/tools/codemap.js:308-320 | an input for either case |
| CodeMap.NamedApart | deps/v8/tools/codemap.js:207-210 | in every run, two entries named by lookups have the same name exactly in those cases |
| CodeMap.Map.Run | deps/v8/tools/codemap.js:81-215 | any sequence of operations leads to the state the theorems speak of |

## Left out

- Thread pool: mutexes, condition variable and threads are abstract steps; `uv_queue_work`, the
  dispatch on request types in `uv_cancel` and Windows' lack of `cleanup` are not modelled. Memory
  is sequentially consistent.
- Thread pool: cancelling a request after its `done` was entered is outside the caller's duties.
- Trees and heap: `cmp` and `less_than` are integer keys; the in-place record updates and their
  aliasing are kept, object identity beyond the address is not.
- RbTree.Head.Insert: does not say what becomes of records of nodes outside the tree, which carry no
  information to it; likewise for Remove and for the heap. The splay operations do state that frame.
- Trees: `RB_AUGMENT` (a no-op here), the `_SAFE` and `_FROM` loop forms, and the amortised bounds
  of splaying.
- SplayTree.SplayHead.SplayMinMax: requires a nonzero comparison value; with 0 the source's loop
  would not end, and no caller passes 0.
- BinaryHeap.HeapHead.Insert: does not model a heap that already has UINT_MAX nodes, where `1 + nelts`
  would wrap; `Run` passes over such an insertion.
- Heap: the traps for corrupted nodes.
- uv_walk: a callback that closes a handle, which does not unlink it at once.
- inet: `uv_ip6_addr`, interface indexes, and the C library calls `strchr`, `snprintf`, `strncpy`
  (modelled by what they compute). `|=` of disjoint bits is addition.
- fs-poll: failures of timer and stat submission after allocation; the 64-bit clamp of
  `uv_timer_start`; `uv_fs_poll_getpath`; uv_close on the watcher beyond stopping it.
- Code map: marking pages, static and library insertion; addresses are below 2^43, where the `|0`
  page index does not wrap. The splay tree it imports is a map from keys here. Clients
  that add one entry object twice or assign to its name are not modelled.
