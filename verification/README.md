# Verified models of libuv, LuaJIT and DynASM components

This project models the parts of the vendored libraries that carry the most logic and proves what they promise:

- **DynASM's x86 encoding engine** (`Dynasm*.dfy`): three passes that record actions, shrink branches and write
  machine code. The main theorem says what the finished code means, for every program the encoder accepts.
- **libuv's red-black tree, splay tree and binary heap** (`Rb*.dfy`, `Splay*.dfy`, `HeapShape.dfy`,
  `BinaryHeap.dfy`): linked nodes, updated in place, against the sequence of elements they stand for.
- **LuaJIT's allocator** (`Alloc*.dfy`): boundary tags, small bins, tries of large chunks, best fit, and `malloc`,
  `free` and `realloc` within one segment.
- **libuv's thread pool** (`ThreadPool*.dfy`, `QueueRing.dfy`): a transition system with workers, two kinds of mutex, a
  condition variable, cancellation and shutdown; safety over all runs, exactly when a cancel succeeds, the order of
  service, absence of deadlock, and coming to rest.
- **Lua's pattern matcher** (`Lua*.dfy`), against an ordered list of all parses, and for patterns printed from elements
  against runs over these: the answer is the outcome of the first run in the order of preference.
- **libuv's address text codec** (`Inet*.dfy`): what is printed is read back, in the form of sections 4.1 to 4.3 of
  RFC 5952, and the texts that the parsers accept are exactly those of section 2.2 of RFC 4291.
- **`table.sort`** (`TableSort.dfy`), for a strict weak order and for anything else a caller passes as one.
- **libuv's file polling** (`FsPoll*.dfy`): the life of a poll context under every interleaving of stops, restarts and
  callbacks.
- **References into a Lua table** (`RegistryRefs.dfy`): `luaL_ref` and `luaL_unref`, against the history of a caller.

Code that updates objects is modelled by classes and methods that update fields; each method is proved against a
specification function or a predicate on values, and the laws are lemmas about these.

`dafny verify dfyconfig.toml` checks everything.

## How the source is modelled

- **DynASM.** An action list is a sequence of actions rather than of bytes, so `start` counts actions. Buffers are one
  map from positions to cells, a position being section times 2^24 plus index as in the source. The checks that
  `DASM_CHECKS` switches on are modelled as being on, which is how LuaJIT's generator builds the encoder
  (`core/luajit/src/host/buildvm.c:42`), and the client's protocol is the one of that generator
  (`core/luajit/src/host/buildvm.c:189-200`): puts, one `dasm_checkstep`, `dasm_link`, `dasm_encode`. A *trace* records
  what the puts ran through. It is the reference for all three passes: `IsTarget` says, from the trace alone, which
  definition a reference means. `Flat` is the final order of the code, and `Cursor(all, dl, i)` is the offset event `i`
  is written at, `dl` being how much pass 2 has saved up to it.
- **Trees and the heap.** A node is a number, 0 is NULL, and the link fields are maps: `child` is keyed by a node and a
  side, so that the mirror images the macros spell out are one text with the side as a parameter. A *focus* is a
  subtree with its context, the path of parents up to the root. The splay tree's assembling node on the stack is node 1.
- **The allocator.** Heads and footers are maps from addresses. Each tree bin is a trie as a value, each of its nodes
  with the ring of chunks of its size; each small bin is a sequence; bit maps are sets of marked indices. Words are 64
  bits wide, and the wrap-around that `tmalloc_large` relies on is written out (`Remainder`). One segment, no system
  calls: a request the segment cannot serve returns null. The bytes of the payloads are kept apart from the
  tags, in `AllocMemory`.
- **The thread pool.** A step is what one thread does up to its next interaction with another one. Callers keep to the
  rules of `uv_cancel`: on the thread of the loop, and not after the `done` callback of the request has begun.
- **The matcher.** The test of a character against a class letter (`match_class`) is a parameter. An error is one of
  three outcomes, beside a match and no match.
- **File polling.** The stat requests in flight, the armed timers and the closing timers are what the loop holds; a
  context leaves the memory when it is freed, so that touching it later would not be well defined. The user's callback
  is any sequence of starts, stops and clock updates. Allocation, `uv_timer_init` and `uv_fs_stat` succeed. Closing a
  handle is, for its context, the same as stopping it.
- **References.** What the length operator returns is any border that Lua allows, chosen by an adversary.
- **`table.sort`.** The order is a function of the two elements. Slot 0 of the array is the key 0 of the table.

## Model

| member | source | states |
|---|---|---|
| DynasmTrace.VisibleIsLatest | core/luajit/dynasm/dasm_x86.h:224-226 | a label shows the latest definition since the last reset, and exactly that |
| DynasmTrace.PendingMeans | core/luajit/dynasm/dasm_x86.h:217-231 | a reference is waiting if and only if it refers to the label, looks forward, and no definition followed it |
| DynasmTrace.EveryReferenceResolves | core/luajit/dynasm/dasm_x86.h:213-244 | when nothing waits for a label, every reference to it has a target: the latest earlier definition, or the next later one |
| DynasmTrace.CellsDisjoint | core/luajit/dynasm/dasm_x86.h:184-251 | no two events share a buffer cell, and positions order events within and across sections |
| DynasmTrace.VisibleExactly | core/luajit/dynasm/dasm_x86.h:213-219 | a definition is what a backward reference sees if and only if no redefinition, forward reference or reset came after it |
| DynasmTrace.BackwardAccepted | core/luajit/dynasm/dasm_x86.h:216-217 | pass 1 accepts a backward local reference if and only if such a definition exists |
| DynasmPass1.WriteFresh | core/luajit/dynasm/dasm_x86.h:184-251 | storing the cells of a new event disturbs no cell of an earlier one |
| DynasmPass1.ReferToShown | core/luajit/dynasm/dasm_x86.h:224-226 | a reference to a label that exists keeps all chains and targets right |
| DynasmPass1.ReferToChain | core/luajit/dynasm/dasm_x86.h:227-231 | a reference to a label that does not exist joins the chain of that label, and no other |
| DynasmPass1.DefineStep | core/luajit/dynasm/dasm_x86.h:239-244 | a definition gives its position to exactly the references that waited for it, and leaves the other chains alone |
| DynasmPass1.WalkDone | core/luajit/dynasm/dasm_x86.h:240-241 | walking the chain to its end overwrites the cells of exactly the waiting references |
| DynasmPass1.ForgetLocals | core/luajit/dynasm/dasm_x86.h:460-466 | a check step forgets the local labels and nothing else |
| DynasmLayout.FlatOrdered | core/luajit/dynasm/dasm_x86.h:291-341 | the final order is section by section, increasing in position, each opcode beside its branch |
| DynasmLayout.FlatEstimates | core/luajit/dynasm/dasm_x86.h:233-247 | an estimate plus the estimated sizes of the sections before is the sum of the maximal sizes before it |
| DynasmLayout.LocatedNext | core/luajit/dynasm/dasm_x86.h:298-337 | the walks of passes 2 and 3 meet the events one after the other, at the positions pass 1 stored them |
| DynasmLink.DistanceFormula | core/luajit/dynasm/dasm_x86.h:309-317 | the value compared with the limits is the distance under the current estimates, within and across sections, forward and backward |
| DynasmLink.ShrinkIsRight | core/luajit/dynasm/dasm_x86.h:305-320 | pass 2 shrinks exactly the shrinkable branches whose estimated distance fits |
| DynasmFields.LongOnlyIfNeeded | core/luajit/dynasm/dasm_x86.h:305-320 | a branch that has a short form stays long if and only if its short displacement, by what is known when it is decided, is outside -128..127 |
| DynasmLink.OnlyShrinks | core/luajit/dynasm/dasm_x86.h:318-331 | from one event to a later one the code shrinks and never grows |
| DynasmLink.ShortBranchReaches | core/luajit/dynasm/dasm_x86.h:303-324 | a branch that was shortened has a final displacement in -128..127, though forward decisions use estimates |
| DynasmLink.EmittedLength | core/luajit/dynasm/dasm_x86.h:367-438 | pass 3 reaches each event with exactly as many bytes written as pass 2 computed |
| DynasmLink.BranchToLabelLands | core/luajit/dynasm/dasm_x86.h:398-405 | the displacement read back from the finished bytes leads from the end of the branch to the label |
| DynasmLink.ForeignIsUndefined | core/luajit/dynasm/dasm_x86.h:282-289 | a reference is marked as foreign only if no definition in this unit is its target |
| DynasmMeaning.BytePatched | core/luajit/dynasm/dasm_x86.h:387-392 | a byte of the action list is in the finished code as it is, but for the opcode two before a short immediate |
| DynasmMeaning.ContentEmitted | core/luajit/dynasm/dasm_x86.h:379-430 | every event's bytes, immediate, fill and padding are in the finished code at its cursor, and padding ends aligned |
| DynasmMeaning.FieldReadBack | core/luajit/dynasm/dasm_x86.h:379-393 | whatever immediate was accepted, the bytes in its field of the finished code are read as its argument |
| DynasmMeaning.AssembledCodeMeans | core/luajit/dynasm/dasm_x86.h:360-439 | after the three passes the code means what the trace says: layout, bytes, fields that are read as their arguments, branches, addresses and foreign references |
| DynasmMeaning.LabelOffset | core/luajit/dynasm/dasm_x86.h:329-330 | after pass 2 the cell of a label holds the offset at which pass 3 reaches it |
| DynasmEngine.State.Put | core/luajit/dynasm/dasm_x86.h:167-262 | one call either extends the trace as the actions say (CallAdds, CallAction, CallArguments) and keeps the invariant of pass 1, or sets the status the checks give |
| DynasmFields.ImmediateAccepted | core/luajit/dynasm/dasm_x86.h:197-203 | an immediate is accepted if and only if some bytes in its field are read as its argument: signed or unsigned, a byte or a word |
| DynasmFields.FieldReads | core/luajit/dynasm/dasm_x86.h:379-393 | the bytes that are written for an immediate are read as its argument |
| DynasmFields.LabelAccepted | core/luajit/dynasm/dasm_x86.h:213-244 | a label action is accepted if and only if its cell exists and, for a backward local reference, a definition is visible |
| DynasmFields.SectionAccepted | core/luajit/dynasm/dasm_x86.h:252-253 | a section is accepted if and only if it exists |
| DynasmFields.CallAdds | core/luajit/dynasm/dasm_x86.h:167-262 | a call keeps the trace so far and adds its events to the section it was called in |
| DynasmFields.CallAction | core/luajit/dynasm/dasm_x86.h:167-262 | the k-th event of a call is the k-th action from where it starts, and the call ends at the first end marker |
| DynasmFields.CallArguments | core/luajit/dynasm/dasm_x86.h:187-237 | the actions that take arguments are given those of the call, in order |
| DynasmEngine.State.PutLabel | core/luajit/dynasm/dasm_x86.h:237-244 | defining a label keeps the invariant of pass 1 for the extended trace |
| DynasmEngine.State.PutReference | core/luajit/dynasm/dasm_x86.h:213-235 | recording a reference keeps the invariant of pass 1 for the extended trace |
| DynasmEngine.State.Link | core/luajit/dynasm/dasm_x86.h:266-346 | it fails if and only if a PC label is awaited and undefined, naming the first; otherwise every cell, shrink and size is as specified |
| DynasmEngine.State.Encode | core/luajit/dynasm/dasm_x86.h:360-439 | the phase check never fails, the buffer holds the emitted bytes, and the globals array the addresses of the labels |
| DynasmEngine.State.GetPcLabel | core/luajit/dynasm/dasm_x86.h:442-451 | the final offset of the latest definition, or -2 if and only if there is none |
| DynasmEngine.State.CheckBetween | core/luajit/dynasm/dasm_x86.h:455-470 | the status is the first awaited local label, else the section if it is not the one asked for, else good; the local labels are forgotten exactly if none was awaited |
| DynasmEngine.Assemble | core/luajit/src/host/buildvm.c:189-200 | for every program: the status is that of the action refused, or the one verdict on the trace; if it is good, the code means what the trace says |
| DynasmStatus.OneVerdict | core/luajit/dynasm/dasm_x86.h:274-279 | what is complained about a finished trace is unique: the first awaited local label, else the first awaited PC label |
| DynasmStatus.VerdictKeys | core/luajit/dynasm/dasm_x86.h:455-464 | the verdict is good if and only if no local and no PC label is awaited |
| DynasmLimits.EarlierDefinitionNotEnough | core/luajit/dynasm/dasm_x86.h:216-219 | a program with an earlier definition whose backward reference is refused |
| DynasmLimits.PositionsFit | core/luajit/dynasm/dasm_x86.h:44-48 | up to 128 sections every position is a non-negative C int |
| DynasmLimits.SectionTooHigh | core/luajit/dynasm/dasm_x86.h:46 | with more sections there is a run that defines a label at a position that is not |
| RbLinks.Rotate | core/libuv/include/tree.h:342-380 | a rotation anywhere in a tree keeps the links, parents included, and the order of the elements |
| RbLinks.Splice | core/libuv/include/tree.h:579-590 | putting the only child of a node in its place removes that node and keeps all links |
| RbLinks.Rename | core/libuv/include/tree.h:559-570 | giving a node the fields of another and redirecting all links to that one replaces it in the tree |
| RbBalance.PushedUpOk | core/libuv/include/tree.h:416-421 | with a red uncle, recolouring moves the red-red edge up by two levels |
| RbBalance.SettledOk | core/libuv/include/tree.h:422-429 | with a black uncle, one or two rotations end the repair: black at the top, nothing red below red, the order kept |
| RbBalance.RaisedOk | core/libuv/include/tree.h:459-464 | a red sibling is raised; the focus has a black sibling then, the same elements and the same missing black node |
| RbBalance.PassedOk | core/libuv/include/tree.h:465-471 | with black nephews the missing black node passes to the parent |
| RbBalance.RestoredOk | core/libuv/include/tree.h:472-490 | with a red nephew the missing black node is made up for |
| RbBalance.HeightBound | core/libuv/include/tree.h:407-528 | a tree of black height b has at least 2^b - 1 elements and is at most 2b high, one more under a red root |
| RbTree.Head.InsertColor | core/libuv/include/tree.h:407-449 | from one red-red edge at the focus to a red-black tree with the same elements in order |
| RbTree.Head.RemoveColor | core/libuv/include/tree.h:451-528 | from one missing black node at the focus to a red-black tree with the same elements in order |
| RbTree.Head.Insert | core/libuv/include/tree.h:598-626 | the element goes into the order at its place and the tree stays red-black; an equal one is returned and nothing changes |
| RbTree.Head.Remove | core/libuv/include/tree.h:530-595 | exactly this element leaves the order, and the tree stays red-black with consistent links |
| RbTree.Head.Find | core/libuv/include/tree.h:629-644 | an equal element, or none if and only if there is none |
| RbTree.Head.NFind | core/libuv/include/tree.h:647-665 | the first element that is not less, or none |
| RbTree.Head.Step | core/libuv/include/tree.h:668-709 | the next or the previous element in the order |
| RbTree.Head.MinMax | core/libuv/include/tree.h:711-724 | the first or the last element |
| SplayTree.Head.Round | core/libuv/include/tree.h:215-239 | one turn of the loop keeps the three trees linked and their elements in one unchanged order |
| SplayTree.Head.Splay | core/libuv/include/tree.h:209-242 | the elements stay in order, and everything left of the new root is before the key, everything right of it behind |
| SplayTree.Head.MinMax | core/libuv/include/tree.h:247-278 | the smallest or the largest element becomes the root |
| SplayTree.Head.Find | core/libuv/include/tree.h:128-137 | an equal element, now the root, or none if and only if there is none |
| SplayTree.Head.Insert | core/libuv/include/tree.h:164-186 | the element goes into the order at its place; an equal one is returned and the order stays |
| SplayTree.Head.Remove | core/libuv/include/tree.h:188-207 | an element equal to the argument leaves the order, or nothing changes if there is none; the argument is returned, which is the element that left if and only if it was one |
| SplayTree.EqualIsSelf | core/libuv/include/tree.h:188-207 | the element that leaves is the argument if and only if the argument is an element |
| SplayTree.RemovesAnother | core/libuv/include/tree.h:195-204 | on a tree of one node, removing a node that only compares equal returns that node while the other one leaves |
| SplayTree.Head.JoinLeft | core/libuv/include/tree.h:199-202 | after the left part is splayed for the removed key its root has no right child, so the right part is attached and nothing lost |
| HeapShape.SwapRep | core/libuv/src/heap-inl.h:72-104 | exchanging a node with its parent exchanges two places of the level order and keeps every link |
| BinaryHeap.Path | core/libuv/src/heap-inl.h:119-124 | the path bits are those of the number below its highest, reversed |
| BinaryHeap.Heap.Locate | core/libuv/src/heap-inl.h:126-136 | following the path leads to the place with that number in level order, and to its parent |
| BinaryHeap.Heap.Swap | core/libuv/src/heap-inl.h:72-104 | the two nodes exchange their places, with all links and the pointer to the smallest |
| BinaryHeap.Heap.Insert | core/libuv/src/heap-inl.h:106-148 | the heap gains this node and stays complete, linked and ordered |
| BinaryHeap.Heap.Remove | core/libuv/src/heap-inl.h:150-237 | the heap loses exactly this node, wherever it is, and stays complete, linked and ordered |
| BinaryHeap.Heap.Min | core/libuv/src/heap-inl.h:67-69 | no node is less than the one returned |
| BinaryHeap.Heap.Dequeue | core/libuv/src/heap-inl.h:239-241 | the heap loses the node that was first |
| AllocTrie.InsertedOk | core/luajit/src/lj_alloc.c:647-683 | insertion keeps the trie: sizes below a node agree with the bits of the path, and each size has one node |
| AllocTrie.InsertedBag | core/luajit/src/lj_alloc.c:647-683 | insertion adds exactly this chunk |
| AllocTrie.UnlinkedOk | core/luajit/src/lj_alloc.c:686-730 | unlinking, with a leaf taking the place of an inner node, keeps the trie |
| AllocTrie.UnlinkedBag | core/luajit/src/lj_alloc.c:686-730 | unlinking removes exactly this chunk |
| AllocTrie.StoredReached | core/luajit/src/lj_alloc.c:656-680 | the bits of its size lead to every chunk that is stored |
| AllocBins.IndexInside | core/luajit/src/lj_alloc.c:533-558 | below 2^40 a size lies between the smallest size of its bin and that of the next |
| AllocLimits.IndexExactly | core/luajit/src/lj_alloc.c:533-558 | for every size: it lies within its bin if and only if it is below 2^40, or the bits left by the cast are those of the last bin |
| AllocLimits.IndexAstray | core/luajit/src/lj_alloc.c:533-544 | a size of 2^40 is put into the bin of the smallest sizes, the one just below it into the last |
| AllocLimits.SegmentExactly | core/luajit/src/lj_alloc.c:533-558 | every size that a segment can hold lies within its bin if and only if the segment is smaller than 2^40 |
| AllocLimits.RequestLeast | core/luajit/src/lj_alloc.c:352-357 | a request is given the least size that is aligned, has room for the header and is large enough for a free chunk |
| AllocBins.FindLarge | core/luajit/src/lj_alloc.c:1048-1093 | a chunk of the smallest sufficient size among all trees, or none if and only if none is large enough |
| AllocBins.FindSmallest | core/luajit/src/lj_alloc.c:1112-1128 | the smallest chunk of all trees |
| AllocBins.LeastIsBest | core/luajit/src/lj_alloc.c:1086-1093 | the smallest chunk of a tree is on its leftmost path |
| AllocBins.RemainderIs | core/luajit/src/lj_alloc.c:1051-1096 | the wrapped remainder orders the chunks as the best fit does, those that are too small last |
| AllocTiles.NeverBothFree | core/luajit/src/lj_alloc.c:1263-1332 | no two neighbours are both free |
| AllocTiles.BackwardLink | core/luajit/src/lj_alloc.c:1270-1280 | the footer before a chunk leads to the free chunk that precedes it |
| AllocTiles.Covered | core/luajit/src/lj_alloc.c:342-378 | every address of the segment is in one chunk, and in no other |
| AllocTiles.Split | core/luajit/src/lj_alloc.c:1238-1242 | cutting a chunk keeps the tiling and the tags |
| AllocTiles.Join | core/luajit/src/lj_alloc.c:1278-1320 | making a run of chunks one free chunk keeps the tiling and the tags |
| AllocTiles.MoveTop | core/luajit/src/lj_alloc.c:1358-1368 | moving the border between a used chunk and the top chunk keeps the tiling and the tags |
| AllocStore.AddLarge | core/luajit/src/lj_alloc.c:647-683 | inserting into a tree bin stores this chunk once more and no other, in the bin of its size |
| AllocStore.RemoveLarge | core/luajit/src/lj_alloc.c:686-730 | unlinking from a tree bin removes this chunk and no other |
| AllocStore.AddSmall | core/luajit/src/lj_alloc.c:594-606 | inserting into a small bin stores this chunk once more and no other |
| AllocStore.RemoveSmall | core/luajit/src/lj_alloc.c:609-619 | unlinking from a small bin removes this chunk and no other |
| Allocator.State.constructor | core/luajit/src/lj_alloc.c:1144-1163 | a fresh segment satisfies the invariant |
| Allocator.State.UnlinkChunk | core/luajit/src/lj_alloc.c:738-740 | a binned chunk becomes the one free chunk outside of all bins |
| Allocator.State.InsertChunk | core/luajit/src/lj_alloc.c:734-736 | a free chunk outside of all bins becomes a member of its own bin |
| Allocator.State.ReplaceDv | core/luajit/src/lj_alloc.c:634-641 | the old designated victim goes to a small bin, which its size allows |
| Allocator.State.TmallocLarge | core/luajit/src/lj_alloc.c:1048-1109 | the chunk used is a best fit among all free chunks, or the designated victim fits better, or nothing in the trees fits |
| Allocator.State.TmallocSmall | core/luajit/src/lj_alloc.c:1112-1140 | a small request is granted from the smallest of the large free chunks, the designated victim apart |
| Allocator.State.Malloc | core/luajit/src/lj_alloc.c:1180-1261 | the invariant is kept, exactly one chunk comes into use, aligned and large enough; it has less than MIN_CHUNK_SIZE bytes more than the request size, what was cut off is free, all other free chunks stay; it comes from top only if nothing else serves, from the designated victim only if no small bin fits or the victim fits best, and else from the smallest chunk that serves; null only if no free chunk can serve |
| Allocator.State.Free | core/luajit/src/lj_alloc.c:1263-1332 | the invariant is kept, with no free neighbours, and exactly this chunk goes out of use |
| Allocator.State.ResizeInPlace | core/luajit/src/lj_alloc.c:1346-1368 | the chunk keeps its place and is large enough then, by less than MIN_CHUNK_SIZE, or nothing has changed |
| AllocMemory.Memory.Realloc | core/luajit/src/lj_alloc.c:1334-1382 | the invariant is kept, this chunk is replaced by one that is large enough, by less than MIN_CHUNK_SIZE, and begins with the same bytes, no other payload changes; null only if nothing can serve, and then nothing changes |
| AllocMemory.Elsewhere | core/luajit/src/lj_alloc.c:1373-1377 | a payload in use does not overlap that of a chunk that has just been taken, so copying to it spoils nothing |
| Allocator.Disjoint | core/luajit/src/lj_alloc.c:342 | live payloads do not overlap |
| QueueRing.InsertTail | core/libuv/src/queue.h:76-83 | the node is queued last, for every ring |
| QueueRing.Remove | core/libuv/src/queue.h:85-90 | the node leaves its ring and keeps its stale links |
| QueueRing.Split | core/libuv/src/queue.h:56-65 | the node and all behind it move to another ring, in order |
| QueueRing.TakeHead | core/libuv/src/threadpool.c:75-81 | the first node leaves the ring and links to itself, the sign that it is no longer queued |
| QueueRing.EmptyIff | core/libuv/src/queue.h:34-38 | a head links to itself if and only if nothing is queued, and otherwise to the first node |
| ThreadPoolSafety.StepKeeps | core/libuv/src/threadpool.c:63-133 | every step of every thread keeps the invariant: places, mutexes, wake-ups and bookkeeping |
| ThreadPoolSafety.RunsOk | core/libuv/src/threadpool.c:63-133 | it holds in every state of every run |
| ThreadPoolRuns.SomeSpot | core/libuv/src/threadpool.c:103-108 | every submitted request is somewhere |
| ThreadPoolRuns.OneSpot | core/libuv/src/threadpool.c:63-108 | and in one place only |
| ThreadPoolRuns.Outcome | core/libuv/src/threadpool.c:213-238 | in every run a request's work and its callback run at most once, and its work never if it was cancelled |
| ThreadPoolRuns.CallbackMeans | core/libuv/src/threadpool.c:187-238 | the callback is given the error if and only if a cancel succeeded, and otherwise the work ran once before it |
| ThreadPoolCancel.CancelExactly | core/libuv/src/threadpool.c:187-202 | in every run the test of a cancel succeeds if and only if the request is queued and its work has not been called; one that fails changes nothing |
| ThreadPoolCancel.CarriedThrough | core/libuv/src/threadpool.c:197-209 | a cancel whose test succeeded is on its way until it has returned success |
| ThreadPoolCancel.ReturnsAtRest | core/libuv/src/threadpool.c:197-209 | when the threads are at rest, a cancel of a request that was waiting has returned success |
| ThreadPoolCancel.Repeated | core/libuv/src/threadpool.c:194-202 | a cancel that is repeated before the request is reported succeeds again |
| ThreadPoolCancel.CallsAllowed | core/libuv/src/threadpool.c:187-198 | a loop that is not in the library may submit a new request, and cancel any of its own that is not reported yet |
| ThreadPoolOrder.TakenInOrder | core/libuv/src/threadpool.c:69-108 | the pool is served in order: when a request is taken, none that was queued before it is left there |
| ThreadPoolOrder.ReportedInOrder | core/libuv/src/threadpool.c:93-98 | completed requests are reported in the order in which they were queued, but for those that are queued again by a cancel |
| ThreadPoolRuns.FinishedStays | core/libuv/src/threadpool.c:213-238 | what has been reported stays reported |
| ThreadPoolRuns.NeverCallsMarker | core/libuv/src/threadpool.c:55-97 | a worker never calls the marker that says cancelled |
| ThreadPoolRuns.NoLostWakeUp | core/libuv/src/threadpool.c:69-85 | with the mutex free and work queued some worker is active or signalled, unless all have left |
| ThreadPoolRuns.NeverBoth | core/libuv/src/threadpool.c:69-99 | a worker never holds both mutexes |
| ThreadPoolLiveness.NoDeadlock | core/libuv/src/threadpool.c:187-198 | in every reachable state that is not at rest some thread can move |
| ThreadPoolLiveness.RestMeans | core/libuv/src/threadpool.c:113-133 | at rest every request is reported; after the exit message all workers have left, and what is left is still queued |
| ThreadPoolLiveness.ComesToRest | core/libuv/src/threadpool.c:113-133 | without new calls every run comes to rest within a bound, and shutting down releases every worker |
| LuaPattern.NextAdvances | core/luajit/src/lib_string.c:368-451 | every item makes the rest of the pattern shorter |
| LuaPattern.ClosingIs | core/luajit/src/lib_string.c:281-300 | the counter finds the character that closes the balance, and no other |
| LuaPattern.ParseIsChain | core/luajit/src/lib_string.c:368-451 | whatever is listed as a parse is a way through the items of the pattern |
| LuaPattern.ChainIsParse | core/luajit/src/lib_string.c:368-451 | every way through the items of the pattern is listed |
| LuaPattern.EmptyMeansNone | core/luajit/src/lib_string.c:368-451 | no parse is listed only if there is no way through |
| LuaPattern.GreedyTakesMost | core/luajit/src/lib_string.c:302-315 | among the repetitions that can go on the greedy ones prefer the most |
| LuaPattern.LazyTakesLeast | core/luajit/src/lib_string.c:317-329 | and the lazy one the least |
| LuaMatcher.MatchState.FindClassEnd | core/luajit/src/lib_string.c:205-224 | where a class ends, or that it is malformed |
| LuaMatcher.MatchState.MatchBracketClass | core/luajit/src/lib_string.c:246-267 | acceptance by a set, which BracketMeans says in terms of its items |
| LuaMatcher.MatchState.SingleMatch | core/luajit/src/lib_string.c:269-277 | acceptance by a single character class |
| LuaMatcher.MatchState.MatchBalance | core/luajit/src/lib_string.c:281-300 | the end of the balanced string, if there is one |
| LuaMatcher.MatchState.MaxExpand | core/luajit/src/lib_string.c:302-315 | the first parse of the repetitions from most to fewest, captures restored if there is none |
| LuaMatcher.MatchState.MinExpand | core/luajit/src/lib_string.c:317-329 | the first parse of the repetitions from fewest to most, captures restored if there is none |
| LuaMatcher.MatchState.StartCapture | core/luajit/src/lib_string.c:331-343 | the first parse with a new capture, which is taken back if there is none |
| LuaMatcher.MatchState.EndCapture | core/luajit/src/lib_string.c:345-354 | the first parse with the innermost capture closed, which is opened again if there is none |
| LuaMatcher.MatchState.MatchCapture | core/luajit/src/lib_string.c:356-366 | the text of an earlier capture, or an error for one that is open |
| LuaMatcher.MatchState.Match | core/luajit/src/lib_string.c:368-451 | the end and the captures of the first parse; null if and only if there is none, captures restored; it terminates, and gives up for its depth only if the pattern is long enough; AnswerMeans says what that is in terms of elements |
| LuaMatcher.MatchState.Find | core/luajit/src/lib_string.c:537-555 | the match starts at the first place where there is a parse, or only at the first one when anchored |
| LuaMatcher.LMemFind | core/luajit/src/lib_string.c:453-475 | the first occurrence of a plain text, or none if and only if there is none |
| LuaSets.SetItems | core/luajit/src/lib_string.c:246-267 | every text between brackets is a list of items: characters, ranges and escaped classes |
| LuaSets.SetMeans | core/luajit/src/lib_string.c:253-266 | a set holds a character if and only if one of its items does |
| LuaSets.BracketMeans | core/luajit/src/lib_string.c:246-267 | a set accepts a character if and only if some item holds it, and a complemented one if and only if none does |
| LuaSets.SetEnds | core/luajit/src/lib_string.c:211-221 | a set whose items are printed ends behind the bracket that follows them |
| LuaElements.KindMeans | core/luajit/src/lib_string.c:269-277 | the dot accepts everything, a plain character itself, an escaped letter its class, brackets what their items say |
| LuaElements.ItemStands | core/luajit/src/lib_string.c:368-451 | the code takes every element of a printed pattern for what it is and goes on behind it |
| LuaMeaning.CharsMean | core/luajit/src/lib_string.c:302-329 | a character class with its repetition leads to exactly the states it may, the most characters first, or the fewest if it is lazy |
| LuaMeaning.BorderMeans | core/luajit/src/lib_string.c:390-400 | a frontier is passed if and only if the set fits the next character and not the previous one |
| LuaMeaning.CaptureMeans | core/luajit/src/lib_string.c:331-354 | opening and closing of captures, the innermost open one, and exactly when they are errors |
| LuaMeaning.EarlierMeans | core/luajit/src/lib_string.c:356-366 | a back reference repeats the text of its capture, and is an error if and only if that is not closed or does not exist |
| LuaMeaning.ElemMeans | core/luajit/src/lib_string.c:368-451 | every element leads to exactly the states it may, in order of preference, and fails exactly when it is an error |
| LuaRuns.ParsesDecide | core/luajit/src/lib_string.c:368-451 | for every pattern made of elements, the first entry of the list of parses is the outcome of the run over the elements that comes before all others, and the list is empty if and only if there is no run |
| LuaRuns.OneFirst | core/luajit/src/lib_string.c:368-451 | there is at most one such run |
| LuaRuns.AnswerMeans | core/luajit/src/lib_string.c:368-451 | so a match is the first of all runs, null means that there is none, and an error that the first run comes to one |
| InetText.ReadDotted | core/libuv/src/inet.c:190-226 | what is printed for an IPv4 address is read back |
| InetText.Exact4 | core/libuv/src/inet.c:190-226 | the IPv4 parser accepts a string if and only if it is what is printed for an address, and returns that address |
| InetText.HexDigits | core/libuv/src/inet.c:143 | groups are in lower case and without leading zeros |
| InetText6.LongBack | core/libuv/src/inet.c:229-313 | a text without a double colon is read back |
| InetText6.ShortBack | core/libuv/src/inet.c:229-313 | a text with a double colon, plain or with an embedded IPv4 address, is read back |
| InetAccept.DigitExactly | core/libuv/src/inet.c:230-250 | a character has the value v if and only if it is the digit for v in the lower-case or the upper-case list |
| InetAccept.LeadingZero | core/libuv/src/inet.c:247-255 | zeros in front of a group do not change its value |
| InetAccept.Accepts6 | core/libuv/src/inet.c:229-313 | the IPv6 parser accepts a string as an address if and only if it is written in one of the forms: groups of one to four digits of either case, at most one double colon for any run of zero groups, an IPv4 address at the end if given, sixteen bytes in all |
| InetAccept.EitherCase | core/libuv/src/inet.c:230-250 | texts that differ only in the case of digits are read alike |
| Inet.BestRun | core/libuv/src/inet.c:93-116 | the leftmost longest run of at least two zero words, or that there is none |
| Inet.Ntop4 | core/libuv/src/inet.c:53-69 | the dotted text, if it fits |
| Inet.Text6 | core/libuv/src/inet.c:90-148 | the one text that stands for the address, which always fits the buffer on the stack |
| Inet.Ntop6 | core/libuv/src/inet.c:72-158 | that text if it fits, and no space only if it does not |
| Inet.OneText | core/libuv/src/inet.c:93-148 | an address has one text |
| InetForms.CompatibleForm | core/libuv/src/inet.c:133-142 | an address of six zero words and one that is not zero is printed as two colons and an IPv4 address |
| InetForms.MappedForm | core/libuv/src/inet.c:133-142 | one of five zero words and ffff as `::ffff:` and an IPv4 address |
| InetForms.PlainForm | core/libuv/src/inet.c:133-143 | no other address is printed with a dot |
| Inet.RoundTrip6 | core/libuv/src/inet.c:72-313 | for every address, reading its text gives the address back |
| Inet.ParseIPv4 | core/libuv/src/inet.c:190-226 | the loop with its counters computes the parser's function |
| Inet.ParseIPv6 | core/libuv/src/inet.c:229-313 | the loop that moves bytes in the buffer computes the parser that Accepts6 characterises |
| Inet.Pton6WithZone | core/libuv/src/inet.c:168-182 | the zone is cut off, and an over-long address before it refused |
| TableSort.Partition | core/luajit/src/lib_table.c:226-243 | the scans stay in l..u whatever the order function; for a strict weak order they never reach the error and split the range |
| TableSort.SplitRange | core/luajit/src/lib_table.c:199-247 | one round: up to three elements are sorted, more are split at the pivot |
| TableSort.SortSmaller | core/luajit/src/lib_table.c:248-254 | the smaller side is sorted by a call that nests only as deep as the logarithm of half the length |
| TableSort.AuxSort | core/luajit/src/lib_table.c:195-256 | for every function a rearrangement; for a strict weak order sorted and without the error; calls nest at most log2 of the length deep |
| TableSort.Sort | core/luajit/src/lib_table.c:258-267 | the same for the elements 1 to n of a table, slot 0 untouched |
| TableSort.RearrangedAround | core/luajit/src/lib_table.c:225-247 | rearranging what is left keeps every other pair in order |
| TableSort.RearrangedSplit | core/luajit/src/lib_table.c:247-254 | sorting one side leaves the pivot where it splits |
| FsPoll.UpToDate | core/libuv/src/fs-poll.c:183-203 | the last report is of the last outcome; without a report the file was found from the start and has not changed |
| FsPoll.FiresOnNews | core/libuv/src/fs-poll.c:183-203 | the user is called exactly when the outcome is not the same as the one before, or a failure to begin with, with the right arguments |
| FsPoll.SilentExactly | core/libuv/src/fs-poll.c:226-241 | a file found again is not news if and only if it differs in nothing but its links, device number, block size, blocks and time of access |
| FsPoll.ChangeNotTold | core/libuv/src/fs-poll.c:226-241 | a file that has changed in two of these is not news |
| FsPollRounds.NewsExactly | core/libuv/src/fs-poll.c:183-203 | case by case what is news: a first failure, a file that is gone or there again, another error, another stat |
| FsPollRounds.ToldWith | core/libuv/src/fs-poll.c:183-202 | a report has how the file was when it was last found, zeros if it never was, and how it is now |
| FsPoll.DueNext | core/libuv/src/fs-poll.c:212-217 | the timer is due in 1 to interval, at the first point left of the grid of the round |
| FsPoll.ActKeeps | core/libuv/src/fs-poll.c:56-125 | starting and stopping, also from within a callback, keep the invariant |
| FsPoll.RearmedKeeps | core/libuv/src/fs-poll.c:212-217 | so does arming the timer |
| FsPollRounds.StartStarts | core/libuv/src/fs-poll.c:56-101 | starting gives the handle a fresh context with the interval asked for, at least 1, whose stat is under way |
| FsPollRounds.StopStops | core/libuv/src/fs-poll.c:104-125 | stopping takes the context from its handle, and it closes at once unless its stat is under way; no other context changes |
| FsPollRounds.StatLeads | core/libuv/src/fs-poll.c:171-218 | after a stat the context waits for its timer if it has a handle, and is closing if it has not |
| FsPollRounds.TimerBegins | core/libuv/src/fs-poll.c:158-168 | when the timer is due the next stat and the next round begin |
| FsPollRounds.RoundGoesOn | core/libuv/src/fs-poll.c:158-218 | until the timer of a context fires, its interval, the start of its round and the time its timer is due stay, in every run |
| FsPollRounds.IntervalStays | core/libuv/src/fs-poll.c:77-78 | the interval of a context never changes |
| FsPollRuns.EveryRun | core/libuv/src/fs-poll.c:56-223 | in every run each context is in exactly one place while it exists and in none afterwards, and the reports are those due for all outcomes it saw |
| FsPollRuns.StoppedForGood | core/libuv/src/fs-poll.c:104-125 | once stopped nothing is reported any more, and every event of its own brings the context nearer to being freed, once, after two at most |
| FsPollRuns.SeesAll | core/libuv/src/fs-poll.c:171-203 | a context that is not stopped takes note of every outcome delivered to it |
| FsPollRuns.HandlesKnown | core/libuv/src/fs-poll.c:158-168 | no context points to an inactive handle, and the assertions of the timer callback hold |
| FsPollRuns.ArmedFor | core/libuv/src/fs-poll.c:171-218 | after any callback the timer is due as the round's start demands, whatever the callback did with the clock |
| FsPollLoop.Loop.PollStart | core/libuv/src/fs-poll.c:56-101 | starting in place is the step of the specification |
| FsPollLoop.Loop.PollStop | core/libuv/src/fs-poll.c:104-125 | stopping in place is the step of the specification |
| FsPollLoop.Loop.TimerCb | core/libuv/src/fs-poll.c:158-168 | so is the timer's callback, which touches a context in memory only |
| FsPollLoop.Loop.PollCb | core/libuv/src/fs-poll.c:171-218 | so is the callback of the stat, around whatever the user's callback does |
| FsPollLoop.Loop.TimerCloseCb | core/libuv/src/fs-poll.c:221-223 | so is the one that frees the context |
| RegistryRefs.Registry.Ref | core/luajit/src/lib_aux.c:258-278 | the key is not live, the live values stay, a listed key is used first, and the keys never exceed the most that were ever live |
| RegistryRefs.Registry.Unref | core/luajit/src/lib_aux.c:280-289 | for any key what becomes of the table; a live one goes out of use and is the next to be handed out, a negative one is ignored, and of every other it is said exactly whether the table stays in order |
| RegistryRefs.NoHole | core/luajit/src/lib_aux.c:272-275 | with an empty list every border is the number of live keys, so that length + 1 is fresh |
| RegistryRefs.HandedOutTwice | core/luajit/src/lib_aux.c:258-289 | a key that is handed out twice was given back in between |
| RegistryRefs.KeepsItsValue | core/luajit/src/lib_aux.c:258-289 | a key that is not given back has the value it was handed out for |
| RegistryRefs.GiveBackExactly | core/luajit/src/lib_aux.c:280-289 | giving back any key that is not negative keeps the table in order if and only if it is not listed and not above the first one never handed out, or, for key 0, if no listed key is lost |
| RegistryRefs.ZeroExactly | core/luajit/src/lib_aux.c:280-289 | giving back key 0 does no harm if and only if the list is empty, or holds only the last slot with nothing in it |
| RegistryRefs.GivenBackTwice | core/luajit/src/lib_aux.c:280-289 | a key given back twice is handed out twice |

## Findings

- **A backward local label can be refused although it is defined** (`core/luajit/dynasm/dasm_x86.h:216-219`). A pending
  forward reference to the same label number resets the cell the backward reference looks at: after `1:`, `jmp >1`,
  the reference `jmp <1` is refused with `RANGE_LG`. `DynasmLimits.EarlierDefinitionNotEnough` runs this program, and
  `DynasmTrace.BackwardAccepted` with `DynasmTrace.VisibleExactly` say exactly when a reference is accepted.
- **Sections from 128 on do not work** (`core/luajit/dynasm/dasm_x86.h:44-48`). Positions are C ints, `sec << 24` is
  negative from there on, and negative cells mean something else. `DynasmLimits.SectionTooHigh` is a run that defines a
  label there; `DynasmLimits.PositionsFit` shows that up to 128 sections all positions fit, and `State`'s constructor
  and `Assemble` ask for that (`MAX_SECTIONS`). A section number fits a byte, so the action list allows 256.
- **The embedded form for a run of seven words is never printed** (`core/libuv/src/inet.c:134-136`). With
  `best.base == 0` and `best.len == 7` the loop skips word 6, so the test is not reached; `Embedded` lists the two
  other forms, which are the reachable ones.
- **The tree index goes astray for large chunks** (`core/luajit/src/lj_alloc.c:533-544`). The size shifted right by eight
  is cast to 32 bits: `AllocLimits.IndexAstray` is a chunk of 2^40 bytes, which is put into the bin of the smallest sizes.
  `AllocLimits.IndexExactly` says for every size whether it is put into its bin: if it is below 2^40, or if what is left
  of it by the cast is 0xC000 or more. `AllocLimits.SegmentExactly` turns that into the condition on a segment that the
  allocator's constructor asks for: all sizes it can hold are indexed rightly if and only if it is smaller than 2^40.
- **`SPLAY_REMOVE` returns its argument**, not the element it removed (`core/libuv/include/tree.h:204`).
  `SplayTree.RemovesAnother` runs it on a tree of one node with another node that compares equal; by
  `SplayTree.Head.Remove` and `SplayTree.EqualIsSelf` the two are the same if and only if the argument is in the tree.
- **Some changes of a file are not reported** (`core/libuv/src/fs-poll.c:226-241`), although the documentation promises a
  call when any change happens (`core/libuv/docs/src/fs_poll.rst:21-22`). The model follows the code (`StatEq`).
  `FsPoll.SilentExactly` says that a change is silent if and only if it is one of the link count, the device number of
  a special file, the block size, the number of blocks and the time of access; `FsPoll.ChangeNotTold` is such a change.
- **Giving a reference back twice makes its list circular** (`core/luajit/src/lib_aux.c:280-289`), after which two
  callers get the same one (`RegistryRefs.GivenBackTwice`). `RegistryRefs.GiveBackExactly` is the exact condition for
  all keys, and part of the contract of `Unref`.

## Left out

- DynASM: the ModRM displacement, mark and VREG patching, `SETLABEL`, `REL_A`, externs and absolute addresses; growing
  buffers and label arrays; the other processors. The theorem about the code asks for less than 2 GB of it.
- DynasmEngine.State.Put: is called only while the status is good. A refused action leaves chains that lead through
  cells which the next put overwrites, so that nothing can be said of later puts; the source reports the status at the
  check step and when it links.
- Allocator: mapping and unmapping memory, more than one segment, direct chunks, trimming; exhaustion is a null result.
- AllocTrie: the pointers between the nodes of a tree and the links of its rings and of the small bins are not
  modelled; a trie is a value and a ring a sequence.
- RbTree.Head.Insert: the mirror images that the macros spell out are one text with a side as parameter, so a slip in
  only one of the two copies would not show.
- LuaMatcher.MatchState.Match: says that patterns of less than 200 characters never hit the limit on the depth, not
  which longer ones do.
- LuaRuns.ParsesDecide: is about patterns that are the text of elements. Malformed patterns, and sets whose last class
  takes the closing bracket for its letter, are covered by the list of parses alone.
- LuaMatcher: `string.format`, `gsub`, `gmatch` and the class tables.
- Inet: the strings are sequences of characters without the null at the end; address families other than the two.
- ThreadPool: creating the threads, `uv_cancel` for the other request types, and the wake-up of the loop's event queue,
  which is a flag here.
- SplayTree: amortised cost, and the traversal macros.
- TableSort.Sort: an order function that changes the table, or answers differently from call to call, is not modelled.
- FsPoll: failures of allocation, of the timer and of starting a stat; `uv_fs_poll_getpath`; clock overflow at 2^64.
- The glue code of the repository itself (`bpf/`, `perf/`, `core/shark.c`), `luv` and the rest of LuaJIT and libuv.
