# Verified models of TensorStore's context, batching, chunk layout and index arithmetic

This project models six parts of TensorStore in Dafny and proves what they are for.

* **Contexts** (`Graph`, `ResourceContainers`, `Deadlock`, `Resolver`, `ConcurrentResolver`,
  `BuilderKeys`). Threads create context resources lazily, and the root mutex is released during a creation. Each container records
  what its creation is blocked on; a waiter that times out looks for a cycle and fails it. The search
  and the kill are methods on linked containers; the concurrency is a state machine over the critical
  sections. Named references resolve through a tree of contexts with memoised containers, one request
  at a time on the heap and under every interleaving in the state machine. A builder invents fresh
  identifiers for shared resources.
* **Batches** (`BatchProtocol`, `BatchImpl`). A reference count whose low bit says "submitted" hands
  a submit loop from thread to thread. The loop removes one nesting depth after another while
  operations in flight still add entries. The protocol is a state machine over atomic steps; the hash
  table and the linked lists that hang off the depth tree are methods on nodes.
* **Chunk layouts** (`ChunkConstraints`, `ChunkTransform`, `NearestSizes`, `ChunkSizeSearch`,
  `SearchConvergence`, `ChosenShapes`, `ReadWriteShapes`). Hard and soft constraints, chunk grids moved through index
  maps, a binary search for chunk sizes and why 100 rounds suffice, and read shapes that divide write
  shapes.
* **Index intervals** (`Int64`, `IndexIntervals`, `StridedSlices`). Preimages, ranges and strided
  slices in bounded arithmetic with infinite sentinels; each unchecked operation of the source is an
  operation on an `int64` type, so that overflow is a proof obligation.
* **Contiguous layouts** (`ContiguousLayouts`): offsets, strides and permutations.
* **Unbroadcasting** (`Unbroadcast`): a normal form for strided layouts.

`Results` holds the option and result types. The text of an error is not modelled.

## What the proofs found

These are places where the code does less than its documentation or name suggests. Each has an
exact condition and a concrete example among the members below.

* The header says that `GetAffineTransformInverseDomain` rounds toward zero. It rounds down; the two
  agree exactly for the intervals described by `IgnoresRounding`.
* The domain of an inverse domain can be refused although the inverse domain was computed, when a
  scaled bound leaves `int64` (`RoundTripFits`).
* `GetAffineTransformDomain`, `GetAffineTransformRange` and `GetAffineTransformInverseDomain` of an
  empty interval return an interval that is not valid when the transformed origin is the least finite
  index.
* A sized slice does not have the requested size, and is not even bounded, when its start or its
  computed stop is an infinite index.
* A chunk origin pushed through an index map comes back only if its scaled value is itself finite.
* An origin pulled back through a map of stride -1 can become the infinite index, which is not a valid
  origin.
* A pushed chunk shape `-1` becomes `-|stride|`, which is not a valid shape.
* `TransformInputVector` copies its input because it may be aliased, but reads the original again for
  its last check. In the aliased case a hard constraint can be dropped without an error.
* `FindNearestDivisor` falls back to the dividend when no divisor is within the search distance,
  although a nearer one may exist further away (`FindsNearestDivisor`).
* `SetPermutationFromStrides` recovers the permutation of a layout exactly when every dimension in it
  but the first has an extent of at least two, or has extent one and comes right after a dimension of
  lower index. Extents of one make equal strides, which it orders by index; an empty dimension after
  the first makes strides of zero, which it moves to the end.
* Unbroadcasting a layout with a zero extent whose stride is also zero makes an empty layout nonempty.
* A resource name that refers to itself is an error; it does not reach the parent's resource.

## Model

| member | source | states |
|---|---|---|
| ResourceContainers.FindCycle | tensorstore/context.cc:158-176 | returns nothing exactly when the chain ends; otherwise a reachable node on the cycle, also from its tail; at most 3N pointer reads for N containers |
| ResourceContainers.KillCycle | tensorstore/context.cc:179-211 | terminates; exactly the containers of the cycle become failed and unblocked, all others keep their fields |
| ResourceContainers.DescribeCycle | tensorstore/context.cc:179-200 | visits each container of the cycle once, from the given one on, without changing any |
| ResourceContainers.FailOrbit | tensorstore/context.cc:201-211 | clears and fails each container of the cycle, and no other |
| ResourceContainers.CheckForDeadlock | tensorstore/context.cc:213-233 | a timed-out wait removes the edges of the cycle that its container leads to, if the container is not ready, and changes nothing else |
| ResourceContainers.BlockOn | tensorstore/context.cc:213-219 | adds exactly the edge from the trigger to the container |
| ResourceContainers.FinishCreation | tensorstore/context.cc:269-273 | stores the result, even over an earlier one, and removes exactly the trigger's edge |
| Graph.WalkEndsOrRepeats | tensorstore/context.cc:158-176 | a walk through N nodes ends or repeats within N steps: what the search's bound rests on |
| Graph.CycleIffEndless | tensorstore/context.cc:158-176 | a container leads to a cycle exactly when its chain never ends |
| Graph.SameCycle | tensorstore/context.cc:152-176 | whatever node of the cycle the search returns, it is the same cycle |
| Deadlock.StepKeepsInv | tensorstore/context.cc:213-275 | every creation, wait, timed check, wake-up and completion keeps the invariant |
| Deadlock.ReachableCyclesAreWatched | tensorstore/context.cc:213-233 | in every reachable state each cycle contains a waiter that has added its edge but not yet looked for a deadlock |
| Deadlock.AllCheckedIsAcyclic | tensorstore/context.cc:213-233 | once all waiters have looked, the graph is acyclic |
| Deadlock.KilledCycleIsNotReady | tensorstore/context.cc:179-233 | a cycle that is killed consists of containers that are not ready |
| Deadlock.ReadyIsForGood | tensorstore/context.cc:201-275 | a ready container stays ready over every run, and a killed one never succeeds, whatever its creator stores while unwinding |
| Deadlock.NewEdgeReplacesNone | tensorstore/context.cc:215-217 | the asserted fact that a trigger is not blocked already holds in every reachable state |
| Deadlock.NeverStuck | tensorstore/context.cc:213-275 | no deadlock: in every reachable state with anything unfinished some thread can complete a step |
| Deadlock.EveryScheduleFinishes | tensorstore/context.cc:213-275 | without new requests every schedule is bounded and can only stop when everything is finished |
| Deadlock.QuiescentIsReady | tensorstore/context.cc:235-275 | when nothing is unfinished, every container is ready and none is blocked |
| Resolver.ParseResourceProvider | tensorstore/context.cc:443-445 | the longest prefix of the key without a number sign |
| Resolver.MeaningFollows | tensorstore/context.cc:340-387 | the meaning of a name, defined from the specs alone, is the meaning of where its reference leads |
| Resolver.SearchFindsNearest | tensorstore/context.cc:362-386 | a reference leads to the nearest enclosing context that declares it, else to the root's default if it names the provider, else nowhere |
| Resolver.DirectMeansMade | tensorstore/context.cc:235-275 | a resource that is declared directly is made by the context that declares it, under its own key |
| Resolver.NullInRootMeansDefault | tensorstore/context.cc:348-359 | an empty referent in the root means a default under the key itself |
| Resolver.NullMeansNearest | tensorstore/context.cc:348-378 | below the root it means what the nearest proper ancestor that declares the provider gives |
| Resolver.NullMeansDefault | tensorstore/context.cc:348-386 | or the root's default for the provider, if none declares it |
| Resolver.ReferenceMeansNearest | tensorstore/context.cc:361-378 | a nonempty referent means what the nearest context that declares it gives, from the referring one upwards |
| Resolver.ReferenceMeansDefault | tensorstore/context.cc:378-386 | if none declares it, the root's default if it is a provider, and else an error |
| Resolver.ReferenceCycleMeansError | tensorstore/context.cc:340-387 | specs that refer to one another in a circle, each to the nearest declaration, mean errors |
| Resolver.CycleMeansError | tensorstore/context.cc:340-387 | references that lead back to themselves mean an error |
| Resolver.SelfReferenceMeansError | tensorstore/context.cc:460-462 | a name that refers to itself is an error, whatever the parent declares |
| Resolver.SelfReferenceExample | tensorstore/context.cc:460-462 | such a name below a context that defines it |
| Resolver.GetOrCreateResource | tensorstore/context.cc:277-319 | whatever was requested before, the memoised lookup returns what the name means, stores it, and only adds entries |
| Resolver.CreateResource | tensorstore/context.cc:235-275 | keeps the memo right: declared keys hold their meaning, other keys only the root's defaults |
| Resolver.CreateReference | tensorstore/context.cc:340-360 | a reference, also an empty one, yields the meaning of what it leads to |
| ConcurrentResolver.ReadyHoldsMeaning | tensorstore/context.cc:213-387 | under every interleaving of requests, a ready container holds what its name means by the specs alone |
| ConcurrentResolver.ReceivedIsMeaning | tensorstore/context.cc:340-387 | and a request made by a creation returns what the name means that it asked for |
| ConcurrentResolver.AskedIsAnswered | tensorstore/context.cc:213-318 | over every run, each request by a thread outside any creation is recorded, and is still outstanding or its container is ready and it returned what the name means |
| ConcurrentResolver.QuiescentIsAnswered | tensorstore/context.cc:213-318 | when nothing is unfinished, each of them has returned what its name means |
| ConcurrentResolver.KilledMeansError | tensorstore/context.cc:179-211 | the deadlock check only fails containers whose names mean an error |
| ConcurrentResolver.NamesOnCycleMeanError | tensorstore/context.cc:158-211 | a cycle of blocked containers is a cycle of references, whose names have no other meaning |
| ConcurrentResolver.TaskMeaning | tensorstore/context.cc:340-387 | a name means what its creation stores, or what the name means that its creation requests |
| ConcurrentResolver.OneContainerPerName | tensorstore/context.cc:308-318 | a declared name, or a default of the root, is created once |
| ConcurrentResolver.StepKeepsInv | tensorstore/context.cc:213-387 | every creation, wait, timed check, wake-up and completion keeps names, requests, stored and received results right |
| ConcurrentResolver.NeverStuck | tensorstore/context.cc:213-387 | no deadlock when each creation makes the requests that the specs call for |
| Resolver.Lookup | tensorstore/context.cc:361-387 | the walk up the parents terminates and agrees with the search through the specs |
| BuilderKeys.BuilderImpl.Destroy | tensorstore/context.cc:635-670 | in whatever order the table is iterated, the root gains exactly the shared resources in registration order under the assigned keys, and loses nothing |
| BuilderKeys.BuilderImpl.FindUnusedKey | tensorstore/context.cc:656-662 | the search ends, at the first unused candidate |
| BuilderKeys.BuilderImpl.CountAndCollect | tensorstore/context.cc:639-647 | counts every own key and collects exactly the shared resources |
| BuilderKeys.BuilderImpl.SortByRegistration | tensorstore/context.cc:649-652 | the collected resources in strict order of registration |
| BuilderKeys.BuilderImpl.Publish | tensorstore/context.cc:653-669 | inserts the resources one by one under their assigned keys |
| BuilderKeys.BuilderImpl.AddResource | tensorstore/context.cc:737-768 | registration numbers stay distinct; a second registration makes a resource shared |
| BuilderKeys.BuilderImpl.Make | tensorstore/context.cc:685-717 | exactly one more use is counted for each key of an existing spec and each referent in it; the spec of a new builder becomes its root |
| BuilderKeys.CandidatesAreMany | tensorstore/context.cc:656-662 | pigeonhole: a table that contains the first n candidates has at least n entries |
| BuilderKeys.CandidateIsMadeUp | tensorstore/context.cc:656-660 | the keys that are tried are exactly the provider, a number sign and a decimal number without leading zeros, and are parsed back as keys of that provider |
| BuilderKeys.DecimalIsNumeral | tensorstore/context.cc:659 | the number is read back from its digits |
| BuilderKeys.MadeUpKeyIsFirst | tensorstore/context.cc:653-663 | a resource that cannot keep its own key gets the one with the least number that is not reserved, nor any resource's own key, nor assigned before |
| BuilderKeys.SharedKeysAreUnique | tensorstore/context.cc:635-670 | each shared resource's key was not reserved, differs from every other resource's own and new key, and is its own key exactly when nothing else uses that |
| BuilderKeys.OrderIsUnique | tensorstore/context.cc:649-652 | the order of the shared resources does not depend on the hash table |
| BatchProtocol.StepKeepsInv | tensorstore/batch.cc:58-102 | every atomic step of every thread keeps the invariant |
| BatchProtocol.ReferenceCount | tensorstore/batch.h:107-115 | the count is twice the references, including a submitter's own, plus the submitted bit; at most one thread submits |
| BatchProtocol.CountNeverUnderflows | tensorstore/batch.cc:61-62 | the submit loop is entered with a count of at most one, and no decrement starts below two |
| BatchProtocol.LevelStartsAlone | tensorstore/batch.cc:64-76 | the unlocked reads of the depth tree happen with no handle alive, so no operation of a deeper level is in progress |
| BatchProtocol.SubmittedForGood | tensorstore/batch.h:96-99 | over every run, a submitted batch is never deferred again |
| BatchProtocol.SubmissionOrder | tensorstore/batch.cc:64-87 | entries are submitted at most once, in order of decreasing depth, and levels strictly descend |
| BatchProtocol.DescentIsBounded | tensorstore/batch_impl.h:31-37 | so there are at most as many levels as the first depth allows |
| BatchProtocol.TableAndTreeAgree | tensorstore/batch_impl.h:75-86 | the entry table and the per-depth lists hold the same entries in every reachable state |
| BatchProtocol.RequestFindsOrInserts | tensorstore/batch_impl.h:75-86 | in every reachable state a request for a key changes nothing if there is an entry with it, and else adds exactly one, with that key and depth, second in the list of its depth |
| BatchProtocol.RequestIsSubmitted | tensorstore/batch.cc:33-102 | at deletion, every request of the run has been answered by an entry with its key that was submitted after the request, with the requested depth if the request inserted it |
| BatchProtocol.TakeLevelTakesDeepest | tensorstore/batch.cc:64-76 | the loop takes the whole list of the greatest depth in the table, and exactly the entries of that depth |
| BatchProtocol.LevelIsSubmittedInOrder | tensorstore/batch.cc:80-87 | whatever other threads do, the entries of a level are submitted in the order of its list |
| BatchProtocol.StepChangesHandles | tensorstore/batch.h:89-115 | a copy has the bound of its original and an operation's reference that of its entry; only copying, acquiring and dropping change the references |
| BatchProtocol.HandlesAreCounted | tensorstore/batch.h:89-115 | over every run the references are the initial ones and those added, less those dropped |
| BatchProtocol.DeletedMeansDone | tensorstore/batch.cc:53-102 | the batch is deleted at most once; then nothing is left and every inserted entry was submitted exactly once |
| BatchProtocol.EveryDrainDeletes | tensorstore/batch.cc:58-102 | when nothing more is added, every schedule is bounded and can only stop with the batch deleted |
| BatchImpl.Impl.GetEntry | tensorstore/batch_impl.h:75-86 | finds the entry with the key, or inserts one into the table and the list of its depth; on any state of the protocol that the nodes represent this is the protocol's step |
| BatchImpl.Impl.InsertNode | tensorstore/batch.cc:33-51 | links an entry in as a new level, or second in the list of its level; the protocol's function of the lists |
| BatchImpl.Impl.TakeDeepestLevel | tensorstore/batch.cc:64-76 | removes the deepest level from the tree and exactly its entries from the table; on any state of the protocol that the nodes represent this is the protocol's step, with the same list |
| BatchImpl.SubmitChain | tensorstore/batch.cc:80-87 | visits every entry of the list once, in order, although each loses its link when visited |
| ChunkConstraints.ConstraintVector.MergeVectorInto | tensorstore/chunk_layout.cc:399-433 | fails exactly when two hard values differ, changing nothing; otherwise merges slot by slot |
| ChunkConstraints.ConstraintVector.ValidateAndMergeVectorInto | tensorstore/chunk_layout.cc:452-471 | also fails on an invalid value; values that can only be soft lose their hard bit |
| ChunkConstraints.MergeAllKeepsPromise | tensorstore/chunk_layout.h:92-110 | any sequence of requests succeeds exactly when the hard ones agree; the result is the agreed value, else the first soft one; a hard bit implies a value |
| ChunkConstraints.MergeOrderIsIrrelevant | tensorstore/chunk_layout.h:92-110 | reordering requests changes neither success nor the hard outcome |
| ChunkConstraints.VectorsMergeByDimension | tensorstore/chunk_layout.cc:399-433 | vector merges succeed exactly when every dimension's requests do, with their results |
| ChunkConstraints.ScalarConstraints.SetChunkElements | tensorstore/chunk_layout.cc:614-634 | the same rule for the number of elements, after a range check |
| ChunkConstraints.ScalarConstraints.SetInnerOrder | tensorstore/chunk_layout.cc:527-555 | the same rule for the inner order as one value, after a permutation check, also at rank 0 |
| ChunkTransform.PushOrigin | tensorstore/chunk_layout.cc:97-110 | exactly when a pushed origin is defined, and its value |
| ChunkTransform.PullOrigin | tensorstore/chunk_layout.cc:112-124 | exactly when a pulled origin is defined, and its value |
| ChunkTransform.PushShape | tensorstore/chunk_layout.cc:137-147 | exactly when a pushed shape is defined, and its value |
| ChunkTransform.PulledShapeIsExact | tensorstore/chunk_layout.cc:149-154 | the new size times the stride is a whole number of old chunks, and the new size divides the old one |
| ChunkTransform.GcdIsGreatest | tensorstore/util/division.h:145-163 | every common divisor divides the result |
| ChunkTransform.PulledChunk | tensorstore/chunk_layout.cc:112-154 | the new chunk of an index is a function of the old chunk of its image |
| ChunkTransform.NoChunkIsSplit | tensorstore/chunk_layout.cc:112-154 | indices whose images share an output chunk share an input chunk, for either sign of the stride |
| ChunkTransform.PulledGridSplitsNoChunk | tensorstore/chunk_layout.cc:1247-1293 | for the origins and shapes that the propagation writes: index vectors whose images share an output chunk share an input chunk in every dimension with a pulled origin and size |
| ChunkTransform.OriginRoundTrip | tensorstore/chunk_layout.cc:97-124 | a pushed origin is pulled back to itself exactly when its scaled value is finite, else refused |
| ChunkTransform.OriginRoundTripExample | tensorstore/chunk_layout.cc:97-124 | an origin that is refused on the way back |
| ChunkTransform.PulledOriginIsValid | tensorstore/chunk_layout.cc:112-124 | a pulled origin is a valid origin except for stride -1 and one difference |
| ChunkTransform.PulledOriginExample | tensorstore/chunk_layout.cc:112-124 | a pulled origin that is the infinite index |
| ChunkTransform.ShapeRoundTrip | tensorstore/chunk_layout.cc:137-154 | a pushed shape is pulled back to itself, also `-1` |
| ChunkTransform.PushedShapeIsValid | tensorstore/chunk_layout.cc:133-147 | a pushed shape is a valid shape exactly unless it is `-1` with a stride other than 1 and -1 |
| ChunkTransform.PushedShapeExample | tensorstore/chunk_layout.cc:133-147 | `-1` pushed through stride 2 |
| ChunkTransform.GetOneToOneInputDimensions | tensorstore/index_space/index_transform.cc:551-593 | exactly the input dimensions used by one output dimension only, through an invertible stride |
| ChunkTransform.DimensionsExactly | tensorstore/index_space/index_transform.cc:551-593 | which dimensions are one-to-one, and which are linked, in terms of the output maps themselves |
| ChunkTransform.TransformInputVector | tensorstore/chunk_layout.cc:1170-1222 | exactly when propagation succeeds, for separate or shared vectors, and all resulting values and hard bits |
| ChunkTransform.PushedValues | tensorstore/chunk_layout.cc:1170-1222 | exactly when an output dimension can receive a constraint, and its value: the scaled origin plus the offset, the size times the magnitude of the stride |
| ChunkTransform.PushedChunk | tensorstore/chunk_layout.cc:97-147 | the chunk of an image in the pushed grid is the chunk of the index, counted in the direction of the stride |
| ChunkTransform.PushedGridKeepsChunks | tensorstore/chunk_layout.cc:1170-1222 | for the origins and shapes that the propagation writes, images share a chunk exactly if the indices do |
| ChunkTransform.SeparateVectorsKeepHardConstraints | tensorstore/chunk_layout.cc:1216-1222 | between two vectors, success means exactly that every hard constraint arrives as one |
| ChunkTransform.SharedVectorLosesHardConstraints | tensorstore/chunk_layout.cc:1183-1222 | with a shared vector, exactly when a hard constraint is lost without an error |
| ChunkTransform.SharedVectorExample | tensorstore/chunk_layout.cc:1183-1222 | a lost hard chunk size |
| ChunkTransform.TransformOutputVector | tensorstore/chunk_layout.cc:1247-1293 | exactly when propagation succeeds, and all resulting values and hard bits |
| ChunkTransform.PulledValues | tensorstore/chunk_layout.cc:1247-1293 | exactly when a one-to-one dimension can receive a constraint, and its value |
| ChunkTransform.VectorRoundTrip | tensorstore/chunk_layout.cc:1170-1293 | along one-to-one dimensions pushing and pulling returns each constraint, with the one exception for origins |
| NearestSizes.FindNearestDivisor | tensorstore/chunk_layout.cc:1818-1836 | the loop computes the nearest-divisor function, without overflow |
| NearestSizes.NearestDivisorIsNearest | tensorstore/chunk_layout.cc:1817-1836 | the result is the nearest divisor, the smaller of two, exactly when the target is not below the dividend, a divisor lies within the search distance, or the dividend is nearer than all others; otherwise it is the dividend |
| NearestSizes.NearestDivisorExample | tensorstore/chunk_layout.cc:1817-1836 | a nearer divisor missed beyond the search distance |
| NearestSizes.NearestMultipleIsNearest | tensorstore/chunk_layout.cc:1838-1853 | no positive multiple that is a finite index is nearer; the smaller of two |
| ChunkSizeSearch.GetTotalElements | tensorstore/chunk_layout.cc:1576-1598 | the product of the sizes, saturated |
| ChunkSizeSearch.ProductOfJoined | tensorstore/chunk_layout.cc:1576-1598 | the product of joined shapes is the product of theirs, and of one size that size |
| ChunkSizeSearch.FindFactor | tensorstore/chunk_layout.cc:1601-1643 | the bracket is the iterated halving of the first one; the number of rounds, and that fewer than 100 mean the gap test or a midpoint outside the bracket; the low end fits the target and the high end reaches it, unless never moved |
| ChunkSizeSearch.ChooseChunkSizeFromAspectRatio | tensorstore/chunk_layout.cc:1517-1649 | the free sizes become those of the factor chosen at the end of that search, all others stay |
| ChunkSizeSearch.BisectKeepsBracket | tensorstore/chunk_layout.cc:1618-1636 | any number of rounds keeps what the ends of the bracket promise |
| ChunkSizeSearch.ElementsAreMonotone | tensorstore/chunk_layout.cc:1561-1598 | sizes and the saturated total grow with the factor |
| ChunkSizeSearch.ChosenFitsTarget | tensorstore/chunk_layout.cc:1638-1643 | with or without a size map, the chosen total is within the target exactly when the least possible shape is, which is otherwise the result |
| ChunkSizeSearch.SizesFitDomain | tensorstore/chunk_layout.cc:1526-1535 | a free size lies between one and the size of a bounded domain, and within the target |
| ChunkSizeSearch.EndsDifferByOne | tensorstore/chunk_layout.cc:1638-1639 | between close ends, absolutely or relatively, the shapes differ by at most one per dimension |
| ChunkSizeSearch.NearlyOptimal | tensorstore/chunk_layout.cc:1618-1643 | then no factor whose shape fits the target has a size that exceeds the chosen one by more than one |
| SearchConvergence.MidpointIsInside | tensorstore/chunk_layout.cc:1621-1627 | the midpoint rule never leaves the bracket, so that only the gap test or the number of rounds ends the search |
| SearchConvergence.RuleCanBeFollowed | tensorstore/chunk_layout.cc:1621-1627 | there is a function that follows the rule |
| SearchConvergence.GeometricPhase | tensorstore/chunk_layout.cc:1618-1636 | from ends any number of squarings apart, as many rounds make them comparable, and each further round halves their distance |
| SearchConvergence.MeanPhase | tensorstore/chunk_layout.cc:1618-1636 | between comparable ends every round halves the distance |
| SearchConvergence.SearchEndsClose | tensorstore/chunk_layout.cc:1638-1639 | the ends are close when the search stops within 100 rounds, for ratios as far apart as any two positive doubles |
| SearchConvergence.SearchEndsWithGapTest | tensorstore/chunk_layout.cc:1619-1620 | for normalized ratios of at least 2^-29 it is the gap test that ends the search |
| SearchConvergence.ChosenShapeIsNearlyOptimal | tensorstore/chunk_layout.cc:1517-1649 | for all aspect ratios in the range of doubles, no shape of the search that fits the target has a size that exceeds the chosen one by more than one |
| ChosenShapes.ProportionalIsClamped | tensorstore/chunk_layout.cc:1526-1570 | the size that the search computes is the greatest one within both the scaled ratio and the cap (target, domain, 2^62), at least one |
| ChosenShapes.ChosenIsInProportion | tensorstore/chunk_layout.cc:1517-1649 | without a size map, the free sizes are those of one positive proportion to the requested ratios |
| ChosenShapes.ChosenIsLargest | tensorstore/chunk_layout.cc:1517-1649 | for ratios that are doubles, no shape in any proportion to them that fits the target is larger by more than one in any dimension; if one fits, the chosen one fits |
| ChosenShapes.ProposalsAreInProportion | tensorstore/chunk_layout.cc:1555-1570 | what the search proposes is in proportion to the ratios, also if it is then mapped |
| ChosenShapes.NextProposalsReachTarget | tensorstore/chunk_layout.cc:1601-1649 | with a size map, proposals at least as great, by at most one, would reach the target once mapped, unless no proportion makes them greater |
| ReadWriteShapes.InitializeChunkShape | tensorstore/chunk_layout.cc:1691-1727 | exactly when explicit sizes are usable, the sizes they prescribe, and which stay hard |
| ReadWriteShapes.CompleteChunkShapeFromAspectRatio | tensorstore/chunk_layout.cc:1729-1773 | fails exactly on bad ratios for free sizes, changing nothing; otherwise the shape is the completion by the search |
| ReadWriteShapes.CompletedFitsTarget | tensorstore/chunk_layout.cc:1729-1773 | unmapped, read and write shapes have at most the target number of elements, unless their least completion does not, which is then the result |
| ReadWriteShapes.ChooseChunkShape | tensorstore/chunk_layout.cc:1776-1787 | exactly when a shape can be chosen; it is the completion of the explicit sizes |
| ReadWriteShapes.ChosenSizesFitDomain | tensorstore/chunk_layout.cc:1776-1787 | explicit sizes are kept, the others lie within a bounded domain |
| ReadWriteShapes.ChosenShapeIsOptimal | tensorstore/chunk_layout.cc:1776-1787 | end to end, for aspect ratios that are doubles: no factor whose shape fits the target has a size that exceeds the chosen one by more than one |
| ReadWriteShapes.CompletedIsInProportion | tensorstore/chunk_layout.cc:1729-1787 | the free sizes are in one proportion to the requested ratios, those left out or 0 counting as 1, with a target of 2^20 elements if none is given |
| ReadWriteShapes.CompletedIsLargest | tensorstore/chunk_layout.cc:1729-1787 | and no shape in any proportion to them that fits that target is larger by more than one in any dimension |
| ReadWriteShapes.ProposedIsInProportion | tensorstore/chunk_layout.cc:1729-1773 | the proposals for mapped read and write sizes are in one proportion to the requested ratios |
| ReadWriteShapes.NextProposedReachTarget | tensorstore/chunk_layout.cc:1729-1773 | and nearly reach the target once mapped, unless no proportion makes them greater |
| ReadWriteShapes.Reconcile | tensorstore/chunk_layout.cc:1875-1904 | fails exactly on incompatible hard sizes; otherwise two explicit sizes divide and hard ones are kept |
| ReadWriteShapes.ReconcileSizes | tensorstore/chunk_layout.cc:1875-1904 | reconciles every dimension, or fails exactly if one cannot be |
| ReadWriteShapes.CompleteReadWriteShapes | tensorstore/chunk_layout.cc:1906-1928 | exactly when both can be completed; the read shape is the completion against the write sizes, the write shape the completion against that read shape |
| ReadWriteShapes.ChooseExplicitSizes | tensorstore/chunk_layout.cc:1855-1904 | fails exactly on unusable or incompatible explicit sizes; otherwise yields both vectors of reconciled sizes |
| ReadWriteShapes.ChooseReadWriteChunkShapes | tensorstore/chunk_layout.cc:1855-1930 | exactly when it succeeds; the two final shapes are those completions of the reconciled sizes; every read size is positive and divides the write size |
| ReadWriteShapes.FinalSizesAreNearest | tensorstore/chunk_layout.cc:1906-1928 | explicit sizes stay; a free read size is the proposal of its search, or the nearest divisor of the explicit write size to it; a free write size is the nearest multiple of the read size to the proposal of its search |
| ReadWriteShapes.HardSizesAreKept | tensorstore/chunk_layout.cc:1855-1930 | a positive size, or for -1 the size of the domain and at least one, reaches the final shape unchanged if it is hard or the other shape gives none |
| ReadWriteShapes.GivenSizesAreReconciled | tensorstore/chunk_layout.cc:1872-1904 | where both shapes give a size: dividing ones stay; next to a hard read size the write size becomes its nearest multiple, else the read size becomes the nearest divisor of the write size, or the write size if none is found |
| ReadWriteShapes.AcceptedExactly | tensorstore/chunk_layout.cc:1855-1930 | both shapes are chosen exactly for shapes that suit the domain, ratios that are not negative where they are needed, and hard sizes that divide |
| Int64.CeilOfRatio | tensorstore/util/division.h:91-134 | the branch-free code computes the ceiling, with no overflow but for one input pair |
| Int64.FloorOfRatio | tensorstore/util/division.h:91-134 | likewise the floor |
| IndexIntervals.IndexRange | tensorstore/index.h:40-73 | which integers are finite indices, valid indices, and the implicit value |
| IndexIntervals.GetAffineTransformDomain | tensorstore/index_interval.cc:415-472 | exactly when it succeeds; an integer is in the result exactly when its image is in the interval; an empty result is invalid exactly when the rounded-up lower bound is the least finite index |
| IndexIntervals.DomainSucceedsExactly | tensorstore/index_interval.cc:415-472 | the success condition in terms of the bounds of the interval, and the first index of an empty result |
| IndexIntervals.PreimageContains | tensorstore/index_interval.cc:415-472 | the same for the containment of finite indices with finite images |
| IndexIntervals.EmptyPreimageExample | tensorstore/index_interval.cc:415-472 | an empty interval with an invalid preimage |
| IndexIntervals.GetAffineTransformRange | tensorstore/index_interval.cc:495-519 | exactly when it succeeds, and the ends of the result, also for multiplier 0; an empty result is invalid exactly when its origin is the least finite index |
| IndexIntervals.EmptyRangeExample | tensorstore/index_interval.cc:495-519 | an empty interval with an invalid range |
| IndexIntervals.RangeContainsImage | tensorstore/index_interval.cc:495-519 | the range contains the image |
| IndexIntervals.RangeIsLeast | tensorstore/index_interval.cc:495-519 | and is the least interval that does |
| IndexIntervals.GetAffineTransformInverseDomain | tensorstore/index_interval.cc:521-548 | exactly when it succeeds, and the ends of the result, also for divisor 0 and empty intervals |
| IndexIntervals.InverseDomainIsExact | tensorstore/index_interval.cc:521-548 | the result holds exactly the indices whose ratio, rounded down, is in the interval |
| IndexIntervals.InverseDomainIsLargest | tensorstore/index_interval.cc:521-548 | it is the largest one-sided extension of the range with the original preimage |
| IndexIntervals.InverseDomainThenDomain | tensorstore/index_interval.cc:415-548 | the domain of the inverse domain is the original interval, exactly when scaled bounds fit |
| IndexIntervals.RoundTripExample | tensorstore/index_interval.cc:415-548 | an inverse domain whose domain is refused |
| IndexIntervals.RoundingTowardZero | tensorstore/index_interval.h:1157-1165 | the documented rounding is right exactly for intervals that ignore it |
| IndexIntervals.RoundingTowardZeroExample | tensorstore/index_interval.h:1157-1165 | an interval for which it is wrong |
| IndexIntervals.AdmitsDetermines | tensorstore/index_interval.cc:415-472 | a nonempty interval is determined by what it admits |
| StridedSlices.ExtractStridedSlice | tensorstore/index_interval.cc:276-365 | exactly when it succeeds for the three interval forms; the first index, the new domain, mapped exactly onto what the request selects, and its implicit bounds |
| StridedSlices.ComputeStridedSliceMap | tensorstore/index_interval.cc:387-413 | exactly when it succeeds; the image of the new domain is exactly what the request selects in its own terms: from the given start, or the end of the domain, in steps of the stride, before the half-open stop, up to the closed stop, fewer than the size, or within the domain |
| StridedSlices.SliceMapsOntoRequest | tensorstore/index_interval.cc:276-365 | the resolved first and last indices enumerate exactly what the request selects, for all forms, strides and infinite bounds |
| StridedSlices.AcceptedExactly | tensorstore/index_interval.cc:276-356 | exactly which starts, stops, sizes and strides are accepted, in the request's own terms |
| StridedSlices.SliceMapEnumerates | tensorstore/index_interval.cc:276-413 | a slice map reaches exactly the points start + k * stride within the slice |
| StridedSlices.SliceMapIsInOrder | tensorstore/index_interval.cc:276-413 | one-to-one and in order: the k-th index of the new domain, and no other, is mapped to the k-th point of the slice |
| StridedSlices.UnboundedSliceIsIdentity | tensorstore/index_interval.cc:276-413 | an unbounded start is only possible with a unit stride, and then nothing is lost |
| StridedSlices.SliceStaysInDomain | tensorstore/index_interval.cc:276-365 | every point of a slice lies in the explicit bounds of the original domain |
| StridedSlices.SizedSliceHasSize | tensorstore/index_interval.cc:299-321 | an accepted request for a positive size yields an interval of that size, bounded on both sides, exactly when neither its start nor its stop is infinite |
| StridedSlices.SizedSliceExample | tensorstore/index_interval.cc:299-321 | a sized slice whose stop is the infinite index |
| StridedSlices.UnboundedStartExample | tensorstore/index_interval.cc:299-321 | a sized slice whose start is the infinite index |
| StridedSlices.ShiftInterval | tensorstore/index_interval.cc:202-225 | exactly when both bounds can be moved, infinite ones staying; the result is valid exactly when its last index is not more than one below its first |
| StridedSlices.ShiftIntervalTo | tensorstore/index_interval.cc:252-268 | exactly when the interval can be moved to a new origin |
| ContiguousLayouts.GetContiguousOffset | tensorstore/contiguous_layout.h:201-214 | the mixed-radix offset, in C and Fortran order |
| ContiguousLayouts.GetContiguousIndices | tensorstore/contiguous_layout.h:227-241 | the mixed-radix indices, in C and Fortran order |
| ContiguousLayouts.IndicesOfOffset | tensorstore/contiguous_layout.h:201-241 | the indices of an offset of indices are those indices |
| ContiguousLayouts.OffsetOfIndices | tensorstore/contiguous_layout.h:201-241 | the offset of the indices of an offset is that offset, and they are in bounds |
| ContiguousLayouts.OffsetIsRank | tensorstore/contiguous_layout.h:201-214 | offsets follow the lexicographic order of indices |
| ContiguousLayouts.OffsetIsRankInOrder | tensorstore/contiguous_layout.h:201-214 | in C order the first differing index decides, in Fortran order the last |
| ContiguousLayouts.IsValidPermutation | tensorstore/contiguous_layout.cc:46-58 | accepts exactly the permutations |
| ContiguousLayouts.InvertPermutation | tensorstore/contiguous_layout.cc:74-80 | the inverse on both sides |
| ContiguousLayouts.ComputeStrides | tensorstore/contiguous_layout.cc:82-98 | both orders give the strides of their permutation |
| ContiguousLayouts.ComputeStridesFromPermutation | tensorstore/contiguous_layout.cc:100-114 | each stride is the element stride times the extents after it in the permutation; if `StepsFit` holds, each product fits in 64 bits where it is computed |
| ContiguousLayouts.StridesMultiply | tensorstore/contiguous_layout.cc:100-114 | the last dimension of the permutation has the element stride, each one before it the next stride times the next extent |
| ContiguousLayouts.StridesFit | tensorstore/contiguous_layout.cc:82-114 | `StepsFit` holds exactly when the product from after the last empty dimension on fits in 64 bits |
| ContiguousLayouts.AddressIsOffset | tensorstore/contiguous_layout.cc:82-114 | the address of indices is the element stride times their offset in the permuted shape |
| ContiguousLayouts.AddressesAreDistinct | tensorstore/contiguous_layout.cc:82-114 | distinct indices have distinct addresses |
| ContiguousLayouts.AddressesAreContiguous | tensorstore/contiguous_layout.cc:82-114 | the addresses are exactly 0 to N-1 times the element stride |
| ContiguousLayouts.ProductOfPermuted | tensorstore/contiguous_layout.cc:82-114 | N does not depend on the permutation |
| ContiguousLayouts.SetPermutationFromStrides | tensorstore/contiguous_layout.cc:116-134 | a permutation in decreasing order of stride magnitude, then by index |
| ContiguousLayouts.StrideOrderIsUnique | tensorstore/contiguous_layout.cc:116-134 | which is the only one |
| ContiguousLayouts.PermutationIsRecovered | tensorstore/contiguous_layout.h:243-251 | for all extents and nonzero element strides, it is the permutation the strides were computed with exactly when every dimension but the first has extent at least two, or extent one after a dimension of lower index |
| ContiguousLayouts.UnrecoveredExample | tensorstore/contiguous_layout.cc:116-134 | a permutation that is not recovered, with extents of one |
| ContiguousLayouts.UnrecoveredEmptyExample | tensorstore/contiguous_layout.cc:116-134 | another, with an empty dimension |
| Unbroadcast.UnbroadcastStridedLayout | tensorstore/array.cc:259-274 | drops leading trivial dimensions, normalizes the others, and yields a normal layout |
| Unbroadcast.NormalizeDimensions | tensorstore/array.cc:242-257 | normalizes every dimension in place |
| Unbroadcast.SameOffset | tensorstore/array.cc:242-274 | every index has the offset of its clamped index in the result |
| Unbroadcast.SameOffsets | tensorstore/array.cc:242-274 | the result addresses exactly the same offsets, unless it makes an empty layout nonempty |
| Unbroadcast.BecomesNonEmptyExample | tensorstore/array.cc:242-274 | a layout that becomes nonempty |
| Unbroadcast.NormalIsFixed | tensorstore/array.cc:242-274 | a normal layout is left as it is |
| Unbroadcast.UnbroadcastTwice | tensorstore/array.cc:242-274 | unbroadcasting twice is unbroadcasting once |

## Left out

- Deadlock: assumes that a creator issues one request at a time, stops at the first one that fails, and that its `Create` returns; real condition variables, clocks and memory orders are replaced by nondeterministic steps. Unnamed containers are treated like named ones that nobody else waits for.
- Resolver.GetOrCreateResource: requests are served one after another; concurrent requests are the subject of `ConcurrentResolver`, whose states are values. In both, requests that a directly created resource makes while it is being created, failures of its own, and resources without a key that are not references are not part of the model.
- BuilderKeys.BuilderImpl.AddResource: the recursion into the resources that a resource itself refers to is left out, and so is `config_only_`.
- BatchProtocol.EveryDrainDeletes: assumes that handles are dropped eventually; entries and operations that never release their handle are outside the model. Atomics are sequentially consistent.
- BatchImpl.Impl: the red-black tree and the hash set are used by their contracts.
- ChunkSizeSearch.ChooseChunkSizeFromAspectRatio: doubles are real numbers, without rounding, infinities or NaN. Its contract holds for every midpoint function; what is said about convergence holds for the rule of the source, the mean or, far apart, the geometric mean up to a factor of two in its square.
- ChunkTransform.TransformInputVector: aspect ratios and inner orders under index transforms, which scale and permute without further conditions.
- ContiguousLayouts.ComputeStrides: strides are unbounded integers; when each product fits in 64 bits is stated by `StridesFit`, and what the source computes otherwise is not modelled. In `Unbroadcast` strides and offsets are unbounded too.
- `ChooseChunkGridOrigin`, `ChooseReadWriteChunkGrid` and `Finalize`, which combine or reduce what is modelled.
- Copy-on-write of the layout storage, JSON, serialization, string formatting and error texts.
- The implicit-bound variants of the affine functions, which copy two flags.
- Template, rank and data-type dispatch in the array headers.
