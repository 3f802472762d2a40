# Verified models of the clojure-rt runtime

This project models the parts of the clojure-rt runtime that are hardest to get right and proves what they
promise: the lock-free hash map, epoch-based reclamation, the persistent vector with its shared and in-place
paths, keyword interning, the reference-count word, the inline-cache slot, the compile-time cleanup chain, rope
strings and the word mixers. `dafny verify dfyconfig.toml` checks all of it.

## How the system is modelled

**Leapfrog hash map** (`LeapfrogTable`, `LeapfrogProtocol`, `LeapfrogInvariant`, `LeapfrogSteps`,
`LeapfrogLinearizability`, `LeapfrogRuns`, `LeapfrogHistory`). Any number of threads run assoc, putIfAbsent, dissoc and get;
every step is one atomic access to a cell. A cell is claimed by its hash, linked by byte-sized leaps, and published by storing
its key last. The invariant holds in every reachable state, and one sequential history of finite-map operations, in an
order that respects the calls, explains each run as a whole.
`LeapfrogMap` is the same code as a class over an array of cells, run by one thread: its loops end and it refines a
finite map, in a full table too, where `LeapfrogFull` says which insertions end. `LeapfrogRefusal` says when a concurrent
insertion is refused, and that a call that runs alone ends. In the concurrent runs one cell stays unclaimed throughout. The
probe limit is a parameter between 1 and 128; a key stands for its class under `equals`.

**Epoch-based reclamation** (`Ebr`). Threads register, enter, flush, leave, retire and unregister while one
reclaimer at a time reads `active` and `local_epoch` in separate steps, advances, takes the pending list and sweeps
it node by node. Besides safety: when a pass advances the epoch, that it ends, and what two passes release.

**Persistent vector.** `Shifts` turns shifts and masks into arithmetic. `VectorTree` holds the trie as a value and its
canonical shape; `VectorOps` has conj, assoc, pop and the descent on that value, and shows that they append,
update, drop and index a sequence at any depth. `VectorNodes` and `PersistentVector` are the same operations on node
and vector objects that may share nodes, with both the copying and the in-place path; the reuse tests read the set of nodes
whose count is one and the transient ids. `Holds(n, d, t, fp)` says that object `n` represents tree `t` with nodes in `fp`;
`Route` adds exclusive ownership of the nodes that are written, which assoc and pop ask for and conj does not need. Of
the nodes conj or assoc writes in place only the deepest, the pivot, changes. `VectorSharing` says, in terms of counts and ids,
which nodes each operation writes and what that does to other vectors.
`VectorSeqs` and `ChunkedSeq` cover lookup, iteration, chunks and folds; `VectorReduce` is the reduce that frees the nodes
nobody else refers to as it leaves them.

**Protocols on top.** `Keywords` uses two maps through the finite-map specification the hash map linearizes to.
`CountWord` splits local retain and release into a load and a store. `InlineCache` lets the program free and reuse addresses
while threads look callables up. `LandingPads` treats emitted blocks as data and executes them. `Rope` covers strings,
for any function that mixes a character into a hash; `Mixer` has the runtime's.

Atomic accesses are sequentially consistent; epochs, ids, counts and indices are unbounded naturals, while hashes are
reduced modulo 2^64 (or 2^32) explicitly.

## Where the code falls short of its promise

Each of these is stated with the condition under which the code is right, for all inputs, and a concrete case where it is
not.

- conj on a vector whose header is reusable writes into a tail with room without asking whether the tail is shared. The comment at
  backend/runtime/PersistentVector.c:281 says it cannot be, but assoc shares it (backend/runtime/PersistentVector.c:214-215).
  Another vector keeps its value exactly when the header is not reusable (by its count or by a transient id) or it has a different
  tail (`VectorSharing.ConjBeside`, `VectorSharing.ConjSpoilsTailSharer`).
- The reuse test at backend/runtime/PersistentVectorNode.c:93 accepts equal transient ids also when both are zero, so assoc on
  a persistent vector writes into shared nodes. Another vector keeps its value exactly when it makes do without the reused nodes
  of the path, those with a count of one or the vector's id (zero included), or the element was there already
  (`VectorSharing.AssocBeside`, `VectorSharing.SharesNoPath`, `VectorSharing.AssocSpoilsRootSharer`).
- The same test at :136 lets conj of a full tail write into the shared right spine. Another vector keeps its value exactly when it
  makes do without the reused spine nodes (`VectorSharing.ConjFullBeside`, `VectorSharing.SharesNoSpine`,
  `VectorSharing.ConjSpoilsSpineSharer`). The test of popTail at :202 has the missing check: beside a persistent vector
  every vector survives pop that uses no node with a count of one (`VectorSharing.PopBeside`, `VectorSharing.PopSparesRootSharer`).
- The landing-pad cache is keyed by the skip count alone, although backend/codegen/MemoryManagement.h describes its key as
  based on the number of pushes too. With the guided variables bound as they were, a cached pad is right exactly when the managed
  survivors are the same; with the same survivors, exactly when the guided actions are; in general, when the requests differ at
  most by releases moved across the start of the chain (`LandingPads.MemoryManagement.GetLandingPad`,
  `LandingPads.CachedPadIsRightIff`). It fails after a pop and a push (`LandingPads.StalePad`) and after a guided variable is bound
  anew (`LandingPads.StaleBinding`).
- An empty inline-cache slot has key 0, which is also the bit pattern of 0.0: looking 0.0 up "hits" and yields a null pointer,
  where the slow path would throw. Every other value gets the right method or the exception (`InlineCache.LookupIsRight`,
  `InlineCache.LookupThrowsIff`,
  `InlineCache.ZeroHitsEmptySlot`, `InlineCache.ZeroIsFound`).
- A walk over a rope ends at the first empty piece. A rope with text after such a piece compares equal to strings that differ
  there; comparison is text equality against all clean strings exactly when the rope is clean (`Rope.CleanIsNeeded`,
  `Rope.CleanIsNeededRight`). charAt and subs are right exactly before that piece: they read its terminator, and then what lies
  behind it in memory (`Rope.CharacterAtIsRightIff`, `Rope.SubsIsSliceIff`). `Rope.EmptyPieceInside` shows it on "a" + "" + "b".
- In a full table a linear probe can come round to the bucket it started from. It then links the chain into a circle and
  follows it for ever. An insertion ends exactly when a cell is unclaimed, the key has a cell, or no cell of its bucket is within
  a probe's reach of the bucket's next cell past the end of the table (`LeapfrogMap.ConcurrentHashMap.InsertOrFind`,
  `LeapfrogFull.NeverReturns`). `LeapfrogMap.SecondKeyNeverReturns` shows it on a table of one cell.
- getOrCreate takes a stored nil for an absent key and answers with a value it did not store; otherwise it answers with the value
  the key has (`LeapfrogMap.ConcurrentHashMap.GetOrCreate`, `LeapfrogMap.GetOrCreateMissesNil`).

## Model

| member | source | states |
|---|---|---|
| `LeapfrogTable.ClaimKeepsTable` | backend/runtime/ConcurrentHashMap.c:91-99 | claiming an unclaimed cell reached over claimed ones keeps: no unclaimed cell between a home cell and a cell of its bucket, and leaps lead to the next cell of the bucket |
| `LeapfrogTable.LinkKeepsTable` | backend/runtime/ConcurrentHashMap.c:141-156 | storing a leap to the next cell of the bucket keeps the table invariant and all other leaps |
| `LeapfrogTable.LeapIsDetermined` | backend/runtime/ConcurrentHashMap.c:141-156 | two threads that link behind the same node store the same leap |
| `LeapfrogTable.FreeBoundsRun` | backend/runtime/ConcurrentHashMap.c:132-136 | with one cell unclaimed, a walk over claimed cells never wraps around |
| `LeapfrogSteps.KeyIsNew` | backend/runtime/ConcurrentHashMap.c:132-145 | a thread about to claim a cell for a key has passed every cell the key could have: no cell belongs to it |
| `LeapfrogSteps.StepKeepsInv` | backend/runtime/ConcurrentHashMap.c:82-163 | every atomic step of every thread keeps the table, claim, link and per-thread invariants |
| `LeapfrogSteps.RunKeepsInv` | backend/runtime/ConcurrentHashMap.c:82-163 | the invariant holds in every state of every interleaving |
| `LeapfrogLinearizability.ActEffect` | backend/runtime/ConcurrentHashMap.c:208-310 | each step leaves the map alone, or is the one at which its operation happens with the map's own change and result |
| `LeapfrogLinearizability.PublishedIsLinked` | backend/runtime/ConcurrentHashMap.c:141-143 | a chain node in front of a published cell of its bucket has its leap |
| `LeapfrogLinearizability.WalkStaysBehind` | backend/runtime/ConcurrentHashMap.c:384-404 | a walk that has not passed a present key's cell does not skip it |
| `LeapfrogRuns.LeapsAreForever` | backend/runtime/ConcurrentHashMap.c:107-162 | a claim, a non-zero leap and a published key never change in any run |
| `LeapfrogRuns.LeapsFitInByte` | backend/runtime/ConcurrentHashMap.c:141-142 | in every reachable state every leap fits into the byte it is stored in |
| `LeapfrogRuns.KeysAreUnique` | backend/runtime/ConcurrentHashMap.c:82-163 | in no state of any run do two cells hold equal keys |
| `LeapfrogRuns.StepEffect` | backend/runtime/ConcurrentHashMap.c:224-246 | the map changes only in a step that decides the result of its operation |
| `LeapfrogRuns.Linearizable` | backend/runtime/ConcurrentHashMap.c:208-408 | every call takes effect at one moment of its duration with the result and change of the finite-map operation; a refused insertion changes nothing |
| `LeapfrogHistory.RunIsLinearizable` | backend/runtime/ConcurrentHashMap.c:208-408 | every run has one sequential history of finite-map operations, from the empty map to the final one, with every decided call exactly once and its result, in an order that respects which calls ended before others began |
| `LeapfrogRuns.GetNeverMisses` | backend/runtime/ConcurrentHashMap.c:373-408 | a get returns a value the key had during the call if the key is in the map throughout |
| `LeapfrogRuns.StaysUntilDissoc` | backend/runtime/ConcurrentHashMap.c:337-363 | once in, a key stays in the map as long as no dissoc of it runs |
| `LeapfrogRuns.GetAfterInsert` | backend/runtime/ConcurrentHashMap.c:373-408 | a get that starts after an insertion of the key finished, with no dissoc of it under way, returns a value the key had |
| `LeapfrogRuns.PutHasWinner` | backend/runtime/ConcurrentHashMap.c:279-296 | a key in the map was put by a putIfAbsent that was told nil |
| `LeapfrogRuns.OneWinner` | backend/runtime/ConcurrentHashMap.c:263-310 | of concurrent putIfAbsent calls on a key exactly one is told nil, all others its value |
| `LeapfrogRefusal.RefusalIsJustified` | backend/runtime/ConcurrentHashMap.c:130-160 | a refused insertion found the table closed: no cell for the key, its home cell taken, and every cell within the probe limit of the last node of its bucket |
| `LeapfrogRefusal.ClosedIsRefused` | backend/runtime/ConcurrentHashMap.c:82-163 | an insertion called when the table is closed to its key is refused, whatever runs beside it |
| `LeapfrogRefusal.SoloReturns` | backend/runtime/ConcurrentHashMap.c:82-163 | with no insertion half made, and a free cell for an insertion, a call that runs alone returns within 8 steps for each cell and 11 more |
| `LeapfrogFull.FullProbe` | backend/runtime/ConcurrentHashMap.c:130-160 | in a full table whose probe does not come round, the probe from the end of a chain meets cells of other buckets only |
| `LeapfrogFull.EndIsCrowded` | backend/runtime/ConcurrentHashMap.c:130-160 | behind the end of a chain the claimed cells within the probe limit belong to other buckets |
| `LeapfrogFull.LinkKeepsCircle` | backend/runtime/ConcurrentHashMap.c:153-157 | once a bucket is in reach of itself, every link the probe stores leads on round the circle |
| `LeapfrogFull.NeverReturns` | backend/runtime/ConcurrentHashMap.c:103-162 | an insertion without room makes any number of steps without returning |
| `LeapfrogMap.SecondKeyNeverReturns` | backend/runtime/ConcurrentHashMap.c:153-157 | a table of one cell takes one key, and the next key's assoc never returns |
| `LeapfrogMap.ConcurrentHashMap.constructor` | backend/runtime/ConcurrentHashMap.c:168-198 | a new table is valid, empty and has a free cell |
| `LeapfrogMap.ConcurrentHashMap.LinearProbe` | backend/runtime/ConcurrentHashMap.c:130-160 | with room, the probe ends, keeps the map, and gives up exactly when every cell within the limit is claimed for another bucket; otherwise it finds the key, claims a cell or links one |
| `LeapfrogMap.ConcurrentHashMap.InsertOrFind` | backend/runtime/ConcurrentHashMap.c:82-163 | with room, the search ends and keeps the map; it finds the key exactly when a cell holds it, and overflows exactly when the key is not stored, its home cell is claimed, and so is every cell within the limit of the last node of its bucket |
| `LeapfrogMap.ConcurrentHashMap.Assoc` | backend/runtime/ConcurrentHashMap.c:208-247 | the key has the value afterwards, all others are as before; a call is refused exactly when the table is closed to the key, and then changes nothing |
| `LeapfrogMap.ConcurrentHashMap.PutIfAbsent` | backend/runtime/ConcurrentHashMap.c:263-310 | nil and the new value if the key was absent, else the old value and no change; refused exactly when the table is closed to the key |
| `LeapfrogMap.ConcurrentHashMap.GetOrCreate` | backend/runtime/ConcurrentHashMap.c:249-260 | the result is the key's value exactly when the key was not there with nil (or nil was offered) |
| `LeapfrogMap.GetOrCreateMissesNil` | backend/runtime/ConcurrentHashMap.c:253-257 | nil is stored, and getOrCreate answers with another value |
| `LeapfrogMap.ConcurrentHashMap.Get` | backend/runtime/ConcurrentHashMap.c:373-408 | the walk ends with the key's value, or nil if the key is absent |
| `LeapfrogMap.ConcurrentHashMap.Dissoc` | backend/runtime/ConcurrentHashMap.c:337-363 | the key is gone, the rest of the map unchanged |
| `LeapfrogMap.ConcurrentHashMap.TryDeleting` | backend/runtime/ConcurrentHashMap.c:42-69 | true when the search is over and the key gone, false with nothing changed |
| `Ebr.StepKeepsInv` | backend/runtime/Ebr.c:278-358 | every step keeps: epochs of threads and scans, no node overdue, every retired object in one place |
| `Ebr.RunKeepsInv` | backend/runtime/Ebr.c:125-358 | the invariant holds in every run; in particular the epoch difference of the sweep never wraps |
| `Ebr.PinnedStep` | backend/runtime/Ebr.c:287-313 | while a thread stays in its critical section the epoch advances at most once past the one it settled in |
| `Ebr.NotReleasedWhilePinned` | backend/runtime/Ebr.c:223-346 | an object retired after a thread finished entering or last flushed is not released before that thread flushes, leaves or unregisters |
| `Ebr.ExactlyOnePlace` | backend/runtime/Ebr.c:250-358 | each retired object is pending, in the reclaimer's hands or released, in exactly one of them once |
| `Ebr.ReleasedAfterTwoAdvances` | backend/runtime/Ebr.c:309-347 | an object is released by the second advance after its push |
| `Ebr.AdvancesIff` | backend/runtime/Ebr.c:287-313 | a complete pass advances the epoch by one exactly when no slot it read was active with another epoch |
| `Ebr.AdvancesWhenQuiet` | backend/runtime/Ebr.c:287-313 | it does so whenever every slot stays outside a critical section, or at the current epoch |
| `Ebr.HeldBack` | backend/runtime/Ebr.c:291-306 | a thread that stays inside with another epoch holds the epoch back |
| `Ebr.FlushedIsQuiet` | backend/runtime/Ebr.c:233-306 | if everyone inside has flushed and nobody enters meanwhile, the pass advances the epoch |
| `Ebr.StoresWhatItRead` | backend/runtime/Ebr.c:223-242 | a flush, and the end of entering, store the epoch that was current at the start |
| `Ebr.PassEnds` | backend/runtime/Ebr.c:278-358 | a pass is over after at most 2 steps for each slot, one for each object retired, and 5 more of its own |
| `Ebr.TwoPassesRelease` | backend/runtime/Ebr.c:278-358 | two passes in a quiet time release every object that was pending before them |
| `Ebr.NothingLeft` | backend/runtime/Ebr.c:177-221 | with nothing retired meanwhile, two such passes leave nothing pending, so Ebr_force_reclaim ends |
| `Shifts.ShrIsDiv` | backend/runtime/PersistentVector.c:444-448 | shifting by 5 d bits divides by 32^d |
| `Shifts.SlotSplits` | backend/runtime/PersistentVectorNode.c:92 | the masked shift splits an index into child slot and remainder |
| `VectorTree.SpineSize` | backend/runtime/PersistentVector.c:160-162 | a tree of full leaves with a right spine holds a positive multiple of 32 elements |
| `VectorTree.CanonicalIsUnique` | backend/runtime/PersistentVector.c:263-339 | a canonical vector is determined by its elements: shift, tree and tail |
| `VectorTree.ShapeIsFunctionOfCount` | backend/runtime/PersistentVector.c:304-325 | vectors of equal count have the same shift, tail length and tree shape |
| `VectorTree.NodeEqualsIsEquality` | backend/runtime/PersistentVectorNode.c:32-36 | comparing node by node decides equality of trees |
| `VectorTree.EqualsIsElementwise` | backend/runtime/PersistentVector.c:87-95 | node-by-node equality of canonical vectors is equality of their elements |
| `VectorOps.PushTailSpec` | backend/runtime/PersistentVectorNode.c:118-191 | a full tail is appended in place of a node with room, starts a sibling of a full node, or grows a full root by a level |
| `VectorOps.PopTailSpec` | backend/runtime/PersistentVectorNode.c:193-236 | the last 32 elements come off as a leaf; the node disappears only when nothing else was in it |
| `VectorOps.ReplacePathSpec` | backend/runtime/PersistentVectorNode.c:91-115 | exactly the element at the index changes, the shape does not |
| `VectorOps.ConjAppends` | backend/runtime/PersistentVector.c:263-339 | conj appends one element and keeps the canonical shape |
| `VectorOps.AssocUpdates` | backend/runtime/PersistentVector.c:151-223 | assoc updates one position, is conj at the end, and fails exactly beyond it |
| `VectorOps.PopDropsLast` | backend/runtime/PersistentVector.c:645-730 | pop drops the last element, keeps the shape canonical, and fails exactly on the empty vector |
| `VectorOps.PopAfterConj` | backend/runtime/PersistentVector.c:304-339 | pop after conj gives the same vector back, shift and tree included |
| `VectorOps.ConjAfterPop` | backend/runtime/PersistentVector.c:695-730 | conj of the last element after pop gives the same vector back |
| `VectorOps.LeafForSpec` | backend/runtime/PersistentVector.c:419-451 | the descent ends in the leaf with the aligned run of 32 elements around the index |
| `VectorOps.BlockForSpec` | backend/runtime/PersistentVector.c:355-399 | nthBlock yields the aligned block of the index or the tail, and nothing out of range |
| `PersistentVector.CreateMany` | backend/runtime/PersistentVector.c:48-68 | on fresh objects updated in place: the result represents the one canonical vector with these elements |
| `VectorNodes.CopyingNeedsNoOwnership` | backend/runtime/PersistentVectorNode.c:91-115 | when reuse is off, any shared tree satisfies the precondition and nothing is written |
| `VectorNodes.WrittenIsReused` | backend/runtime/PersistentVectorNode.c:93-136 | replacePath and pushTail write the path nodes with a count of one or the vector's id, zero included, from the top down to the first that has neither |
| `VectorNodes.ExclusiveRoute` | backend/runtime/PersistentVectorNode.c:93-202 | exclusive ownership of the nodes of the path that are reused is all that replacePath and popTail need |
| `VectorNodes.ReplacePath` | backend/runtime/PersistentVectorNode.c:91-115 | copying or in place, the result represents the updated tree; a reused node is returned itself, and of the nodes written only the deepest changes |
| `VectorNodes.PushTail` | backend/runtime/PersistentVectorNode.c:118-191 | copying or in place, the result represents the tree with the tail pushed; of the spine nodes written only the deepest changes, and then the reused root is returned; without `copied` nothing is written |
| `VectorNodes.PushRoute` | backend/runtime/PersistentVectorNode.c:134-147 | the nodes pushTail writes have room, so they occur nowhere else in the tree: it needs no ownership |
| `VectorNodes.WrittenLeadToPivot` | backend/runtime/PersistentVectorNode.c:136-147 | from every written node the path leads on to the one that changes; none is written exactly when none changes |
| `VectorNodes.ReplaceSub` | backend/runtime/PersistentVectorNode.c:102-109 | replacing an element replaces it in every subtree on its path |
| `VectorNodes.PushSub` | backend/runtime/PersistentVectorNode.c:141-147 | pushing a tail changes every subtree of the spine down to where the tail goes |
| `VectorNodes.PopTail` | backend/runtime/PersistentVectorNode.c:193-236 | copying or in place, the results represent the remaining tree and the popped leaf; a reused node is returned itself, a copy has the vector's id, and every written node has lost the leaf |
| `PersistentVector.Vector.Conj` | backend/runtime/PersistentVector.c:263-339 | for any shared vector the result represents the appended one; copying modifies nothing, in place exactly a tail with room or the reused spine nodes with room are written, of which only the deepest changes |
| `PersistentVector.Vector.PushRoot` | backend/runtime/PersistentVector.c:304-325 | the root after pushing a full tail, and the shift that fits it |
| `PersistentVector.Vector.Assoc` | backend/runtime/PersistentVector.c:151-223 | the result represents the updated vector; null exactly on an index error, with nothing changed |
| `PersistentVector.Vector.AssocTail` | backend/runtime/PersistentVector.c:164-202 | an index in the tail: the tail alone is replaced or written |
| `PersistentVector.Vector.AssocTree` | backend/runtime/PersistentVector.c:204-223 | an index in the tree: the tail object is shared, the path is copied or written |
| `PersistentVector.Vector.Pop` | backend/runtime/PersistentVector.c:645-730 | the result represents the vector without its last element; null exactly on the empty vector, with nothing changed |
| `PersistentVector.Vector.PopFromTail` | backend/runtime/PersistentVector.c:664-694 | a tail of several elements loses its last one |
| `PersistentVector.Vector.PopFromTree` | backend/runtime/PersistentVector.c:695-720 | the last leaf becomes the tail, and a root left with one child gives way to it |
| `VectorSharing.Copying` | backend/runtime/PersistentVector.c:266-302 | one operation on a shared persistent vector modifies no existing object |
| `VectorSharing.History` | backend/runtime/PersistentVector.c:164-339 | after any run of copying operations on any versions, every version still represents the value it was made with |
| `VectorSharing.ConjBeside` | backend/runtime/PersistentVector.c:266-300 | another vector keeps its value exactly when the header is not reusable, by its count or a transient id, or the tails are different objects |
| `VectorSharing.ConjFullBeside` | backend/runtime/PersistentVectorNode.c:136-147 | when a full tail is pushed, another vector keeps its value exactly when it makes do without the reused spine nodes: count one or the vector's id, zero included, as far as there is room below |
| `VectorSharing.SharesNoSpine` | backend/runtime/PersistentVectorNode.c:136-147 | these are the nodes written, and making do without them is making do without the deepest, which alone changes |
| `VectorSharing.AfterChange` | backend/runtime/PersistentVectorNode.c:103-109 | when one node turns from one subtree to another, a tree survives exactly when it makes do without the node or the two are the same |
| `VectorSharing.AfterChanges` | backend/runtime/PersistentVectorNode.c:212-235 | when several nodes stop standing for what they stood for, a tree survives exactly when it makes do without them |
| `VectorSharing.AssocBeside` | backend/runtime/PersistentVectorNode.c:93-109 | with any transient ids, another vector keeps its value exactly when it makes do without the reused path nodes, count one or the vector's id, zero included, or the element was there already |
| `VectorSharing.SharesNoPath` | backend/runtime/PersistentVectorNode.c:93-109 | making do without the reused nodes is making do without the deepest, which alone changes |
| `VectorSharing.AssocTailBeside` | backend/runtime/PersistentVector.c:166-200 | assoc in the tail: another vector keeps its value exactly when it makes do without a reused tail, or the element was there already |
| `VectorSharing.PopBeside` | backend/runtime/PersistentVector.c:645-733 | another vector keeps its value exactly when it makes do without the nodes pop writes: a reused tail, or the spine nodes with a count of one or a transient vector's id; beside a persistent vector all survive that use no node with a count of one |
| `VectorSharing.PopSparesRootSharer` | backend/runtime/PersistentVectorNode.c:202 | a run with 65 elements in which pop copies a shared root and the other vector keeps its value |
| `VectorSharing.ConjSpoilsTailSharer` | backend/runtime/PersistentVector.c:279-286 | a run in which conj changes the tail of a vector that is still referenced |
| `VectorSharing.AssocSpoilsRootSharer` | backend/runtime/PersistentVectorNode.c:93 | a run in which assoc changes the root of a vector that is still referenced |
| `VectorSharing.ConjSpoilsSpineSharer` | backend/runtime/PersistentVectorNode.c:136 | a run with 1088 elements in which conj changes the root of a vector that is still referenced |
| `VectorSeqs.DescendUnrolled` | backend/runtime/PersistentVector.c:422-442 | the fall-through switch reaches the leaf of the index |
| `VectorSeqs.DescendLoop` | backend/runtime/PersistentVector.c:443-449 | the generic loop reaches the same leaf, at any depth |
| `VectorSeqs.NthBlock` | backend/runtime/PersistentVector.c:355-399 | the block object of the index with the aligned elements, null exactly out of range |
| `VectorSeqs.Nth` | backend/runtime/PersistentVector.c:402-455 | the element at the index, an error exactly out of range |
| `VectorSeqs.FoldConcat` | backend/runtime/PersistentVector.c:803-836 | folding two parts one after the other is folding the whole |
| `VectorReduce.ReduceNode` | backend/runtime/PersistentVector.c:803-836 | the recursive reduce is the left fold of the tree's elements in index order; it visits no freed node, frees a node once, and leaves no reference to it outside; it frees every node reached through nodes with a count of one |
| `VectorReduce.Reduce` | backend/runtime/PersistentVector.c:838-883 | reduce is one left fold of all elements; of the places that remain only its own header referred to what it freed; it frees every node of the vector reached through nodes with a count of one |
| `VectorReduce.ReduceSparesOthers` | backend/runtime/PersistentVector.c:849-879 | every other vector keeps its value in the nodes that remain |
| `VectorSeqs.NodeContains` | backend/runtime/PersistentVectorNode.c:238-261 | true exactly when the element is in the tree |
| `VectorSeqs.Contains` | backend/runtime/PersistentVector.c:754-769 | true exactly when the element is in the vector |
| `VectorSeqs.SameBlock` | backend/runtime/PersistentVectorIterator.c:24-29 | indices with the same leading bits are in the same block object |
| `VectorSeqs.Iterator.Get` | backend/runtime/PersistentVectorIterator.c:18-21 | the element at the iterator's index |
| `VectorSeqs.Iterator.Next` | backend/runtime/PersistentVectorIterator.c:24-36 | the index moves by one, the block follows it, and the result is that element or the end |
| `ChunkedSeqs.Start` | backend/runtime/PersistentVectorIterator.c:7-15 | a new iterator stands at index 0 |
| `ChunkedSeqs.NextsIsSum` | backend/runtime/PersistentVectorChunkedSeq.c:248-257 | n calls of next end n places on, or at nil |
| `ChunkedSeqs.AllChunks` | backend/runtime/PersistentVectorChunkedSeq.c:120-156 | chunkedFirst over repeated chunkedNext, in place or on copies, yields the remaining elements in order |
| `ChunkedSeqs.NextTimes` | backend/runtime/PersistentVectorChunkedSeq.c:83-104 | n calls of next, in place or on copies, end where drop(n) ends |
| `ChunkedSeqs.ChunkedSeq.Next` | backend/runtime/PersistentVectorChunkedSeq.c:83-104 | the position moves by one, in place or on a copy; nil exactly at the end |
| `ChunkedSeqs.ChunkedSeq.ChunkedFirst` | backend/runtime/PersistentVectorChunkedSeq.c:120-124 | the elements from the position to the end of its block |
| `ChunkedSeqs.ChunkedSeq.ChunkedNext` | backend/runtime/PersistentVectorChunkedSeq.c:126-156 | the position moves to the end of its block; nil exactly at the end |
| `ChunkedSeqs.ChunkedSeq.Drop` | backend/runtime/PersistentVectorChunkedSeq.c:248-278 | drop(n) ends where n calls of next end |
| `ChunkedSeqs.ChunkedSeq.Reduce` | backend/runtime/PersistentVectorChunkedSeq.c:166-211 | the left fold of the elements from the position on |
| `ChunkedSeqs.ChunkedSeq.Reduce2` | backend/runtime/PersistentVectorChunkedSeq.c:213-231 | the left fold that starts with the element at the position, or the no-argument call |
| `ChunkedSeqs.ReduceBlocks` | backend/runtime/PersistentVectorChunkedSeq.c:182-194 | the loop over trie-resident blocks folds exactly the elements before the tail |
| `ChunkedSeqs.Iterate` | backend/runtime/PersistentVectorChunkedSeq.c:55-65 | walking the iterator to the end visits every remaining element once, in order |
| `ChunkedSeqs.Reduce2` | backend/runtime/PersistentVector.c:885-914 | the left fold of the vector that starts with its first element, or the no-argument call |
| `Keywords.AccessesAreMapOperations` | backend/runtime/Keyword.c:22-46 | each map access is one operation of the finite map the hash map linearizes to |
| `Keywords.StepKeepsInv` | backend/runtime/Keyword.c:19-60 | every step keeps: interned ids resolve, drawn ids are private and unpublished |
| `Keywords.CallEnds` | backend/runtime/Keyword.c:19-60 | a call interns the string it was made with, and is over after at most six steps of its own |
| `Keywords.InternedForGood` | backend/runtime/Keyword.c:40-49 | an interned string keeps its id for good |
| `Keywords.SameIdIffSameString` | backend/runtime/Keyword.c:19-60 | two calls return the same id exactly when their strings are equal |
| `Keywords.ReturnedIdResolves` | backend/runtime/Keyword.c:63-67 | a returned id leads back to its string in every later state |
| `Keywords.MapsAreInverse` | backend/runtime/Keyword.c:43-49 | losers take their ids back: without an overflow the two maps are inverse to each other whenever no call is under way |
| `CountWord.StepKeepsInv` | backend/runtime/Object.h:126-151 | every load, store or atomic update keeps the count equal to the references and local words to one holder |
| `CountWord.CountIsReferences` | backend/runtime/Object.h:396-460 | in every run the count is the number of references, the object lives exactly as long as there are any, and nobody operates on a destroyed one |
| `CountWord.DestroyedAtLastRelease` | backend/runtime/Object.h:415-458 | the object is destroyed once, by the step that gives up the last reference |
| `CountWord.DemotionIsExclusive` | backend/runtime/Object.h:376-390 | the shared mark is taken off only by the holder of the only reference |
| `CountWord.ReusableIsExclusive` | backend/runtime/Object.h:376-390 | a thread told "reusable" holds the only reference |
| `CountWord.ReusableIff` | backend/runtime/Object.h:376-390 | the answer is yes exactly when there was one reference at the moment of the load |
| `CountWord.ReferencesAreRetainsLessReleases` | backend/runtime/Object.h:125-151 | in every run the references are the first one, plus the retains that ended, less the releases that ended |
| `CountWord.PromotionShares` | backend/runtime/Object.h:463-482 | when a promotion ends the word is marked shared, with the same count |
| `CountWord.OperationEnds` | backend/runtime/Object.h:376-482 | an operation is over after at most three steps of its own, whatever the others do |
| `InlineCache.ExtractMethod` | backend/runtime/Function.c:181-205 | the first exact match, else the first variadic one that fits, else the arity error |
| `InlineCache.PickIsUnique` | backend/runtime/Function.c:188-204 | that choice is unique |
| `InlineCache.UsedIsKept` | backend/runtime/Function.c:285-308 | a value being looked up or held by the slot is not freed, so its address is not reused |
| `InlineCache.StepKeepsInv` | backend/runtime/Function.c:260-310 | every step keeps the slot's method right and every reference accounted for |
| `InlineCache.SlowIsRight` | backend/runtime/Function.c:260-283 | the slow path finds the method its function object picks, or the descriptor of the value's kind and this many arguments, and throws exactly when there is none |
| `InlineCache.LookupIsRight` | backend/codegen/invoke/InvokeManager.cpp:565-592 | for every value but 0.0, hit or miss, the pointer is to the method picked, or the descriptor of the value's kind and arity; for 0.0 it is null |
| `InlineCache.LookupThrowsIff` | backend/runtime/Function.c:188-283 | a lookup throws exactly when a function has no method for this many arguments, a keyword, map or vector no descriptor, or the value cannot be called |
| `InlineCache.SecondLookupHits` | backend/codegen/invoke/InvokeManager.cpp:544-571 | after a miss the next lookup of the value hits, with the same method, unless another was stored in between |
| `InlineCache.MissFillsSlot` | backend/runtime/Function.c:285-308 | every miss has stored its pair into the slot |
| `InlineCache.LookupEnds` | backend/codegen/invoke/InvokeManager.cpp:544-592 | a lookup is of the value it was called with, and is over after at most five steps of its own |
| `InlineCache.ZeroIsFound` | backend/codegen/invoke/InvokeManager.cpp:544-571 | a run in which looking up 0.0 yields the null pointer |
| `InlineCache.ZeroHitsEmptySlot` | backend/codegen/invoke/InvokeManager.cpp:544-571 | looking up 0.0 hits exactly while the slot is empty |
| `InlineCache.SlotOwnsOneReference` | backend/runtime/Function.c:285-308 | counts balance in every run, with exactly one reference owned by the slot for its key |
| `LandingPads.TraceIsStable` | backend/codegen/MemoryManagement.cpp:140-159 | emitting more blocks does not change what an existing block does |
| `LandingPads.UnwindReverses` | backend/codegen/MemoryManagement.cpp:139-159 | the chain releases each resource once, the last pushed first |
| `LandingPads.UnwindIsBelow` | backend/codegen/MemoryManagement.cpp:122-159 | unwinding the survivors releases exactly the managed resources at the positions below, the highest first, each once |
| `LandingPads.MemoryManagement.PushResource` | backend/codegen/MemoryManagement.cpp:91-94 | the resource is active, chain and pads stay valid |
| `LandingPads.MemoryManagement.PopResource` | backend/codegen/MemoryManagement.cpp:96-112 | the last resource is gone, and its link with it if it had one; an error on the empty stack changes nothing |
| `LandingPads.MemoryManagement.SuspendForNestedFunction` | backend/codegen/MemoryManagement.cpp:40-46 | the state is saved and a fresh one starts |
| `LandingPads.MemoryManagement.RestoreFromNestedFunction` | backend/codegen/MemoryManagement.cpp:48-64 | the state is exactly the one saved last; an error on the empty stack changes nothing |
| `LandingPads.MemoryManagement.SetActiveUnwindGuidance` | backend/codegen/MemoryManagement.cpp:291-298 | the guidance is replaced and the cache emptied |
| `LandingPads.MemoryManagement.FillCleanupStack` | backend/codegen/MemoryManagement.cpp:139-159 | afterwards every managed survivor has a link that releases it and everything below; links are emitted for the survivors that had none, and no others |
| `LandingPads.MemoryManagement.Prelude` | backend/codegen/MemoryManagement.cpp:170-199 | extra cleanup in order, then the retains and releases the guidance asks for |
| `LandingPads.MemoryManagement.GetLandingPad` | backend/codegen/MemoryManagement.cpp:114-212 | a new pad makes the extra cleanup, the guided actions, and then the releases of the managed resources at the positions below the top skipCount, the highest first and each once; a cached one was built under the same guidance and is right, with the same bindings, exactly when the survivors are the same, and, with the same survivors, exactly when the guided actions are; no earlier pad changes |
| `LandingPads.GuidanceIsMet` | backend/codegen/MemoryManagement.cpp:177-199 | a managed resource is retained less released by exactly what guidance asks for the variables bound to it |
| `LandingPads.GuidedIs` | backend/codegen/MemoryManagement.cpp:177-199 | as many actions as the change, all retains or all releases of the managed resource the variable is bound to |
| `LandingPads.CleanupIsMet` | backend/codegen/MemoryManagement.cpp:170-175 | extra cleanup releases a managed resource as often as it is listed |
| `LandingPads.CleanupChainGuard.PopAll` | backend/codegen/MemoryManagement.cpp:327-332 | the resource stack is back below the guard's pushes, emitted pads unchanged |
| `LandingPads.CleanupChainGuard.Push` | backend/codegen/MemoryManagement.cpp:320-325 | managed values are pushed and counted, others not |
| `LandingPads.CachedPadIsRightIff` | backend/codegen/MemoryManagement.cpp:117-119 | under the same guidance, one request's pad serves another exactly when they differ at most by releases moved across the start of the chain; with the same bindings, exactly when the survivors are the same; with the same survivors, exactly when the guided actions are |
| `LandingPads.StalePad` | backend/codegen/MemoryManagement.cpp:117-119 | push, request, pop, push, request: the second pad releases the resource that is gone |
| `LandingPads.StaleBinding` | backend/codegen/MemoryManagement.cpp:117-119 | request, bind the guided variable anew, request: the second pad releases the old value |
| `LandingPads.SkipOne` | backend/codegen/MemoryManagement.cpp:122-203 | with two resources pushed, a pad that skips one releases the lower one alone |
| `Rope.ComputeHash` | backend/runtime/String.c:10-17 | the loop computes the additive hash modulo 2^64 |
| `Rope.CreateStatic` | backend/runtime/String.c:44-52 | a flat string with its text, length and the runtime's hash |
| `Rope.HashNext` | backend/runtime/String.c:10-17 | a character adds its mixed word, modulo 2^64 |
| `Rope.SignedCharacter` | backend/runtime/String.c:14-15 | a character above 127 is widened with its sign before it is mixed |
| `Rope.HashConcat` | backend/runtime/String.c:98 | the hash of a concatenation follows from the two hashes |
| `Rope.CreateCompound` | backend/runtime/String.c:93-132 | the result is one level of flat pieces with the text of both, its length and its hash |
| `Rope.Build` | backend/runtime/String.c:93-132 | any tree of concatenations yields a valid rope with the concatenated text |
| `Rope.Compactify` | backend/runtime/String.c:180-207 | one buffer with exactly the text, and the same hash |
| `Rope.StringIterator.Next` | backend/runtime/String.c:141-158 | moves by one character across pieces, reports the end exactly on the last, and from an inner terminator moves on beyond it |
| `Rope.Equals` | backend/runtime/String.c:216-239 | on any two strings: equal counts and texts, or for ropes, what is visible of the left is a prefix of what is visible of the right |
| `Rope.EqualsIsTextEquality` | backend/runtime/String.c:216-239 | without empty pieces inside, comparison is text equality |
| `Rope.CleanIsNeeded` | backend/runtime/String.c:226-238 | a rope on the left compares as its text with every clean string exactly when it is clean |
| `Rope.CleanIsNeededRight` | backend/runtime/String.c:226-238 | a rope on the right equals its own flat copy exactly when it is clean |
| `Rope.IndexOfFrom` | backend/runtime/String.c:270-317 | the first match at or after the start, -1 exactly when there is none; the empty target and a start past the end |
| `Rope.Subs` | backend/runtime/String.c:375-400 | on any rope: the bytes a walk reads from start to end, whatever lies in memory, with the hash of that C string; an error exactly for bad bounds |
| `Rope.SubsIsSliceIff` | backend/runtime/String.c:386-396 | they are the slice of the text exactly when it is empty or ends before the first empty piece inside, and the hash is then the slice's |
| `Rope.EmptyPieceInside` | backend/runtime/String.c:141-239 | "a" + "" + "b" equals "ac", is not equalled by "ab", and its second character and slice read as the terminator |
| `Rope.CharacterAt` | backend/runtime/String.c:359-373 | on any rope: the byte a walk reads at the index; an error exactly out of range |
| `Rope.CharacterAtIsRightIff` | backend/runtime/String.c:366-370 | it is the character of the text exactly for an index before the first empty piece inside |
| `Mixer.TimesInverse` | backend/runtime/Hash.h:26-28 | multiplying by a factor and its inverse modulo the word restores the word |
| `Mixer.FoldTwice` | backend/runtime/Hash.h:25 | xor with a shift of at least half the word is its own inverse |
| `Mixer.Inverse64` | backend/runtime/Hash.h:24-40 | the 64-bit mixer and its inverse undo each other, in both orders, on every word |
| `Mixer.Inverse32` | backend/runtime/Hash.h:6-22 | the 32-bit mixer and its inverse undo each other, in both orders, on every word |
| `Mixer.CollidesIff` | backend/runtime/Hash.h:42-49 | two words share a hash exactly when they are equal or their mixed forms differ in the reserved bit only |
| `Mixer.KnownValues` | backend/runtime/Hash.h:6-31 | the mixers take one to the values known for the finalizers of MurmurHash3 |
| `Mixer.KnownTop` | backend/runtime/Hash.h:42-45 | the hash of the word of all ones, with its reserved bit set |

## Left out

- Hardware memory orders, barriers and condition variables: every access is atomic and sequentially consistent.
- Wrap-around of epochs, keyword ids, reference counts and vector indices.
- Whole-program reference balance and metadata: reference counts enter the vector model as the set of nodes whose count is one.
- The establishment of exclusive ownership by reference counts: it is a precondition of in-place assoc and pop.
- The writes with which reduce empties a node just before it frees it, and functions passed to it that are not pure.
- transient and persistent! (backend/runtime/PersistentVector.c:600-643), hash and toString of vectors and nodes.
- Concurrent runs that claim the last cell of the hash map; a full table is covered for one thread at a time.
- Resizing of the hash map, which the code does not implement, and the formula for its probe limit.
- Keyword_resetInterns, and the unused id that an overflow in Keyword_create leaves in the inverted map.
- Promotion of the children of a shared object; only the object's own count word is modelled.
- The debug assertion that a rope's hash is not zero, String_replace, and characters as anything but bytes.
- The emission of LLVM code, exception values, variable lookup (a parameter of the landing-pad model) and labels of blocks.
- BigInteger, Ratio, Numbers, lists and maps other than the concurrent one, and the instance-call cache.
