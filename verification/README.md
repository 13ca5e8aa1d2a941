# Replicated data and synchronisation of the Mintter backend, in Dafny

This project models the parts of the Go backend that many peers must agree on, and proves what
they rely on. Every module stands for one source file or one protocol.

- **Ordered lists and trees** (`Crdt`, `Rga`, `RgaList`, `MoveTree`, `LateMove`, `Siblings`, `TreeSteps`, `TreeCalls`, `Trees`,
  `TreeShape`, `TreeRuns`, `TreeWalk`, `LateMoveLimits`, `WalkLimits`): a replicated list kept as a ring of linked
  positions, a tree whose moves are undone and redone so that they take effect in identifier order, and its iterator. The
  list converges under every delivery order. Replayed in identifier order the tree never has a cycle;
  integrating a move, in order or late, equals that replay, sibling order included, where wrong undo records do
  no harm, as `TreeSteps` says.
- **Position strings** (`Lex`, `Base52`, `PosNames`, `PosStrings`, `PosBetween`, `PosWorld`, `PosTyping`): sources that mint
  strings between two given ones. Over every run of any number of sources no request fails, every answer lies
  strictly between its inputs, and no string is returned twice. Typing from left to right stays under one prefix,
  with strings that grow as a logarithm.
- **Last-writer-wins map** (`MergeKeys`, `MergeMap`, `MergeRuns`): patches flattened into a tree of keys
  that is read by range scans. The state depends on the set of patches only; reads find the last
  writer; forgetting a patch leaves no trace.
- **Entities** (`EntityGraph`, `Entities`, `EntityRuns`, `EntityHistories`, `EntityReplicas`, `LoadVersion`): the
  graph of changes, its heads and dependencies, replacing a change, and loading a version from its heads.
  Replicas with the same changes agree.
- **Hybrid clocks** (`Hlc`): 64-bit timestamps over any number of clocks; causally later is greater.
- **Blobs and cursors** (`BlobTable`, `BlobOutcomes`, `BlobStore`, `BlobSync`): transactions over the tables of blobs
  and drafts, and peers that follow by cursor. No interleaving makes a peer miss a listable blob, and one whole call
  brings a peer everything.
- **Comment threads** (`Threads`) and the **sync worker** (`Worker`): replies always lead to the root they
  name, and a tick syncs exactly when it should, with backoff as long as it should be.

Objects that the source updates in place are classes here, with its fields and its loops; what they do
is tied to functions on values, and the theorems are about those. What each operation achieves is told a second time
without these functions, by relations between the fields before and after, and the methods promise both. Automatic induction is off
(`{:induction false}` on every lemma): each induction is written out.

Strings are sequences of bytes (`char`), compared as Go compares them. Integers are unbounded except
where 64-bit arithmetic matters (`Int64`, for `Hlc` and `Worker`): there wrapping is explicit. Clock readings, signing,
peer states, and whether a blob can be indexed are parameters.

Where the code does not do what its comments or its purpose suggest, the code is followed:

- `Deps` does not always return a minimal set, as its comment says it does; `EntityRuns.MinimalWithoutGaps`
  says when it does.
- A move log does not always replay as if moves had arrived in order, as the comment on `Tree` says: undo records
  can be wrong. Undoing works exactly if they are not (`LateMove.UndoneExactly`). While every search for an ancestor
  still comes out right, the tree comes out right exactly if each node undone wrongly has a move that goes through
  again (`TreeSteps.FaithfulExactly`). That no search meets such a node before it is moved again can be told from the
  log and is sufficient for right searches (`TreeSteps.NoneMetIsRight`), not necessary; right searches are necessary
  where no node is moved twice behind the late move (`TreeSteps.FaithfulExactlyOnceEach`). `LateMoveLimits` has runs
  of a new tree that end in another tree, with wrong searches and with right ones, that do not end at all, and two in
  which a wrong record does no harm.
- The iterator need not come to an end: `WalkLimits.WalkNeedNotEnd` puts the root below itself. It ends exactly if
  the root is not there (`TreeWalk.WalkEndsExactly`).
- `ReplaceChange` forgets the old change before it makes the new one. If that fails the entity has no heads any more
  (`EntityHistories.FailedReplacement`).
- Clocks guarantee greater timestamps exactly while differences fit (`Hlc.GoesForward`); `Hlc.ClockGoesBack` is a
  run in which one goes back.
- `addUnique` puts a number greater than all others at the front: lists it assumes to be sorted need not be, nor
  free of repeats (`Entities.StaysAscending`, `Entities.StaysWithoutRepeats`).

## Model

| member | source | states |
|---|---|---|
| `Crdt.IdTrichotomy` | backend/crdt/crdt.go:22-40 | of two identifiers exactly one is less, or they are equal |
| `Crdt.IdTransitive` | backend/crdt/crdt.go:22-40 | the order of identifiers is transitive |
| `Crdt.IdOrder` | backend/crdt/crdt.go:22-40 | the clock decides; at equal clocks the origin, byte by byte; at equal origins the index |
| `Crdt.VectorClock.NewID` | backend/crdt/crdt.go:57-59 | a new identifier is above every identifier tracked so far |
| `Crdt.VectorClock.Track` | backend/crdt/crdt.go:62-73 | fails, changing nothing, exactly for an identifier below the last one of its origin; otherwise that origin and the maximal clock move, and nothing else |
| `RgaList.List.constructor` | backend/crdt/list.go:20-33 | a new list is a ring of its root alone, filed under both the start and the end identifier |
| `RgaList.List.Integrate` | backend/crdt/list.go:35-70 | fails exactly for a known identifier; otherwise the ring stays a well-linked circular list with one new position spliced in (so the order of the others never changes), and what the ring shows is the abstract insert |
| `RgaList.List.Attach` | backend/crdt/list.go:63-69 | linking in and filing a position is the abstract insert behind its reference |
| `RgaList.List.InsertAfter` | backend/crdt/list.go:85-93 | relinking four pointers leaves every neighbour pair of the ring linked both ways |
| `RgaList.List.FindPos` | backend/crdt/list.go:72-79 | finds a position exactly for known identifiers and the two names of the root |
| `RgaList.List.Append` | backend/crdt/list.go:81-83 | ends up behind everything, whatever its identifier |
| `RgaList.List.NextAlive` | backend/crdt/list.go:151-170 | the nearest alive position to the right: all in between are dead, and there is none exactly when the rest of the ring is dead |
| `RgaList.List.PrevAlive` | backend/crdt/list.go:128-147 | the nearest alive position to the left, in the same sense; from the root it is the last alive one |
| `Rga.InsertAt` | backend/crdt/list.go:47-61 | the recursive insert and the scan agree: the atom goes into the first gap at or behind its reference whose right neighbour is smaller |
| `Rga.InsertSplits` | backend/crdt/list.go:35-70 | every insert with a known reference is a splice into such a gap |
| `Rga.InsertKeeps` | backend/crdt/list.go:35-70 | identifiers stay distinct, and exactly the new one is added |
| `Rga.InsertsCommute` | backend/crdt/list.go:47-61 | two inserts neither of which refers to the other commute |
| `Rga.RunKeeps` | backend/crdt/list.go:35-70 | a delivery adds exactly the identifiers delivered |
| `Rga.MoveToFront` | backend/crdt/list.go:47-61 | in any delivery, an insert whose reference is already there may as well come first |
| `Rga.StartWith` | backend/crdt/list.go:47-61 | a delivery may be rearranged to start with any insert that refers into what is there |
| `Rga.Convergence` | backend/crdt/list.go:35-70 | strong convergence: any two delivery orders of the same inserts, each insert behind its reference, give the same sequence |
| `Rga.LateInsert` | backend/crdt/list.go:35-70 | an insert delivered late lands where it would have landed had it been delivered earlier |
| `Rga.RunWellPlaced` | backend/crdt/list.go:47-54 | in every run, every atom stands behind its reference with only greater atoms in between |
| `Rga.BlocksAreContiguous` | backend/crdt/list.go:47-54 | with Lamport identifiers an atom and all its causal descendants form one contiguous block |
| `Rga.NoInterleaving` | backend/crdt/list.go:47-54 | in every run of Lamport-stamped inserts, whatever lies between an insert and one made behind it was made behind it too |
| `MoveTree.EndsWithinSize` | backend/crdt/tree.go:335-348 | a chain of parents that ends does so within the number of placed nodes |
| `MoveTree.NotOwnAncestor` | backend/crdt/tree.go:335-348 | a node whose chain ends is not its own ancestor |
| `MoveTree.PlaceKeepsAcyclic` | backend/crdt/tree.go:278-290 | a move to a place that is not the node itself keeps the tree free of cycles |
| `MoveTree.PlaceKeepsAlive` | backend/crdt/tree.go:278-290 | a move keeps positions alive exactly when they are current |
| `MoveTree.ReplayInvariant` | backend/crdt/tree.go:278-290 | after every log in identifier order the tree has no cycle, and a position is alive exactly when it is the current position of its node |
| `MoveTree.NoCycles` | backend/crdt/tree.go:335-348 | after every such log the parents of any node lead, within the number of placed nodes, to a node without a position, and no node is its own ancestor |
| `MoveTree.CyclicMoveIsSkipped` | backend/crdt/tree.go:278-282 | a move changes no position exactly if it would close a cycle, and then it changes nothing at all |
| `LateMove.EveryMovedNodeIsPlaced` | backend/crdt/tree.go:278-290 | when parents are placed before they are used, the placed nodes are exactly those moved, each below a known one |
| `LateMove.ReplayPlaces` | backend/crdt/tree.go:278-290 | in the ordered replay a node is where its last move that goes through puts it |
| `LateMove.NeverPlaced` | backend/crdt/tree.go:278-290 | a node none of whose moves goes through is nowhere |
| `LateMove.AncestorsAgree` | backend/crdt/tree.go:335-348 | a search that meets no badly undone node before it finds what it looks for ends, and comes out as in the ordered replay, whatever dangles elsewhere |
| `LateMove.PlaceTracks` | backend/crdt/tree.go:305-332 | doing or redoing the next move, from links that dangle or are bad, still tracks the ordered replay if its search comes out right, and a bad node that goes through is good again |
| `LateMove.UndoneButBad` | backend/crdt/tree.go:251-303 | for all records: undoing leads back to the ordered replay of the smaller moves on all nodes these know but those whose oldest undone record is wrong, and each of these is not back |
| `LateMove.UndoneExactly` | backend/crdt/tree.go:251-303 | undoing leads back to the ordered replay of the smaller moves, on the nodes these know, exactly if the oldest undone record of each such node holds its position there |
| `LateMove.AccurateIsOk` | backend/crdt/tree.go:224-230 | records that hold the replayed positions of nodes known by then meet that condition |
| `LateMove.RedoTracks` | backend/crdt/tree.go:268-332 | redoing, from links that dangle or are bad, tracks the ordered replay all the way, as long as the searches come out right |
| `LateMove.UnmetRedo` | backend/crdt/tree.go:268-348 | they do as long as in the ordered replay no search meets a node that is bad then |
| `LateMove.AllDone` | backend/crdt/tree.go:268-276 | once everything is redone the links are those of the ordered replay exactly if no bad node is left |
| `LateMove.LastVerdict` | backend/crdt/tree.go:278-290 | if redoing ends at the ordered replay, the last search for each node has come out as there |
| `LateMove.MergedIsOrdered` | backend/crdt/tree.go:251-264 | the log with a late move filed where its identifier belongs is in identifier order |
| `LateMove.MergedIsClosed` | backend/crdt/tree.go:251-264 | filing a late move whose parent is known there keeps every parent known before it is used |
| `LateMove.DestBelongs` | backend/crdt/tree.go:251-260 | the place found for a late move separates the smaller identifiers from the greater ones |
| `Siblings.MergedLists` | backend/crdt/tree.go:232-235 | the sibling lists after a late move are those of the log with the move filed in its place |
| `TreeSteps.StaysFaithful` | backend/crdt/tree.go:177-276 | a move in order, or a late one that is ready in its turn, whose searches come out right and behind which each badly undone node is moved again, leaves the whole tree (parents, alive positions, sibling lists) as replaying all its moves in identifier order would; no search for an ancestor goes on for ever, the log is the old one with the move in its place, and every record is known |
| `TreeSteps.FaithfulExactly` | backend/crdt/tree.go:177-276 | for a late move that is ready and whose searches come out right: the records are known, and the tree is the ordered replay of its moves exactly if every badly undone node has a move that goes through again |
| `TreeSteps.NoneMetIsRight` | backend/crdt/tree.go:335-348 | the searches come out right if in the ordered replay none of them meets a badly undone node before it finds what it looks for, which the log tells in advance |
| `TreeSteps.LastSearchIsRight` | backend/crdt/tree.go:278-290 | for every move: if the tree is the ordered replay in the end, the search for the last move of each node has come out right |
| `TreeSteps.FaithfulExactlyOnceEach` | backend/crdt/tree.go:177-276 | where no node is moved twice from the late move on: no search hangs and the tree is the ordered replay exactly if all searches come out right and every badly undone node is moved again |
| `TreeSteps.GoodRecordsAreHandled` | backend/crdt/tree.go:224-230 | when no record is wrong no search meets a bad node, and the move does no harm |
| `TreeSteps.UndoneIffRecordsOk` | backend/crdt/tree.go:251-303 | for every tree that is the ordered replay of its moves and every late move ready in its turn: undoing leads back to the replay of the smaller moves exactly if the records are good |
| `TreeSteps.RedoneRecord` | backend/crdt/tree.go:318-327 | the record of a redone move: kept when the ordered replay skips the move, else the replayed position of its node if an earlier move knows it and it is not bad |
| `TreeSteps.LateLinks` | backend/crdt/tree.go:247-273 | undo, do and redo of a late move whose searches come out right end at the links of the ordered replay of the merged log exactly if every badly undone node has a move that goes through again |
| `TreeSteps.GrownLists` | backend/crdt/tree.go:232-235 | the sibling lists follow the merged log |
| `Trees.Tree.constructor` | backend/crdt/tree.go:55-71 | a new tree holds both sentinels and no moves, and is what replaying no moves gives |
| `Trees.Tree.IsAncestor` | backend/crdt/tree.go:335-348 | decides exactly the transitive parent relation, and terminates whenever the ancestor or the top is reached |
| `Trees.Tree.DoMove` | backend/crdt/tree.go:278-290 | does the abstract move, or only kills the new position when the node is above it |
| `Trees.Tree.UndoMove` | backend/crdt/tree.go:292-303 | puts the recorded position back; without one the current position is left dangling and dead |
| `Trees.Tree.RedoMove` | backend/crdt/tree.go:305-332 | does the move again and refreshes its record only, unless the move is skipped |
| `Trees.Tree.UndoNewer` | backend/crdt/tree.go:251-260 | for every log: finds the place of the identifier and undoes exactly the moves behind it, newest first |
| `Trees.Tree.FileLate` | backend/crdt/tree.go:262-266 | files the late move, with the position its node had on arrival, and does it |
| `Trees.Tree.RedoNewer` | backend/crdt/tree.go:268-273 | redoes the moves behind it in order, each on the links the ones before it left, with their records |
| `Trees.Tree.Apply` | backend/crdt/tree.go:237-276 | the short way for a newest move and the long way for others give the same function of log and links |
| `Trees.Tree.Integrate` | backend/crdt/tree.go:177-276 | for every tree and every move whose searches end: the move is taken exactly if the node is not empty and not the parent, the parent and the reference are known, the first alive position behind the reference does not hold the node, and the identifier is fresh and not below the last one of its origin; otherwise the first of these in the order of the source is the answer, and log, links and lists stay as they are; a move taken is in the log where its identifier belongs and in the list of its parent where the scan stops, greater moves are taken back, newest first, and made again with it, oldest first; a tree that is the ordered replay of its moves stays so for moves in order and late ones that do no harm |
| `TreeCalls.VerdictMeans` | backend/crdt/tree.go:177-222 | the checks, made one by one, take exactly the moves described so, and name the first thing wrong with others |
| `TreeCalls.CallMeans` | backend/crdt/tree.go:177-276 | the step from one tree to the next, told by log, links, lists and identifiers before and after: what a move taken changes, and that a move refused changes at most the nodes and identifiers heard of |
| `TreeCalls.InOrderGoes` | backend/crdt/tree.go:237-245 | a move taken in order puts its node behind its reference at once and its old position dies, unless the node is above its new parent, when nothing moves |
| `TreeRuns.OrderIsUnique` | backend/crdt/tree.go:30-36 | a log in identifier order is determined by its moves |
| `TreeRuns.TreesConverge` | backend/crdt/tree.go:30-38 | trees that hold the same moves, whatever order these arrived in, have the same nodes at the same places and the same order of siblings |
| `TreeRuns.InOrderLog` | backend/crdt/tree.go:239-245 | moves in order that go through the checks make up the log, and the tree is their replay |
| `TreeRuns.AnyOneLateMove` | backend/crdt/tree.go:247-276 | after any moves in order all records are accurate, and any one late move that is ready in its turn gives the ordered replay |
| `TreeRuns.InOrderThenLate` | backend/crdt/tree.go:177-276 | a new tree is given any moves in identifier order and then a late one: verdict by verdict it is in the state of the run, and in the end it is the replay of the merged log |
| `TreeRuns.CreationsAreOk` | backend/crdt/tree.go:292-303 | nothing can be wrong with the record of the only move of a node |
| `TreeRuns.CreatedInAnyOrder` | backend/crdt/tree.go:30-36 | nodes created once each, parents and siblings before what needs them in identifier order, arriving in any order, late ones again and again: no call hangs and the tree is always the ordered replay |
| `TreeRuns.CapturesReplayed` | backend/crdt/tree.go:224-230 | a late move that arrives before all greater moves of its node captures the position the smaller moves gave it |
| `TreeRuns.LateAgainAndAgain` | backend/crdt/tree.go:30-36 | however many moves are late: as long as each arrives before all greater moves of its node and makes the ordered replay skip no greater move, no call hangs and the tree is always the ordered replay |
| `LateMoveLimits.SecondLateMoveDiverges` | backend/crdt/tree.go:224-230 | a run of five moves from a new tree, one of them late, after which a second late move that is ready gives another tree than the ordered replay: its predecessor captured a position from the future |
| `LateMoveLimits.LateMoveNeverEnds` | backend/crdt/tree.go:334-348 | after the same run, undoing for another late move closes a cycle, and the search for an ancestor, which is neither found nor excluded, never comes to an end |
| `LateMoveLimits.LateMoveBelowMovedSentinelDiverges` | backend/crdt/tree.go:295-302 | a run that moves the root below the trash, after which a late move with good records gives another tree than the ordered replay |
| `LateMoveLimits.WrongRecordWithoutHarm` | backend/crdt/tree.go:224-230 | a run after which a record is wrong, no search meets the node, and a late move is integrated as if in order all the same |
| `LateMoveLimits.WrongRecordMetWithoutHarm` | backend/crdt/tree.go:335-348 | after the same run a late move whose first search starts at the badly undone node, with the right outcome, and is integrated as if in order |
| `LateMoveLimits.SkippedMoveBringsBack` | backend/crdt/tree.go:306-327 | a run after which a late move of another node, all searches being right, takes a node out of the trash for good: undoing a skipped move restores its old record, and redoing skips it again |
| `TreeShape.StaysShaped` | backend/crdt/tree.go:177-276 | whatever the move and the records: lists hold no position twice, alive positions are current ones of their nodes, and all positions linked or logged are in their lists |
| `TreeWalk.ShapedViewIsWellFormed` | backend/crdt/tree.go:108-118 | every tree, whatever moves it got, can be looked at by the iterator |
| `TreeWalk.FaithfulIsLive` | backend/crdt/tree.go:108-118 | in a tree that is the ordered replay of its moves nothing dangles, and the root is on top |
| `TreeWalk.StillBelowRoot` | backend/crdt/tree.go:375-398 | leaving out a link of the root changes nothing below it, unless the root is below itself |
| `TreeWalk.PreorderMembers` | backend/crdt/tree.go:375-398 | the walk of a list meets exactly the nodes in it and below them |
| `TreeWalk.PreorderNoRepeats` | backend/crdt/tree.go:375-398 | the walk of a list meets no node twice |
| `TreeWalk.WalkIsComplete` | backend/crdt/tree.go:367-398 | the walk from the root meets exactly the nodes whose parents lead to the root over alive positions, each once |
| `TreeWalk.TreeIterator.constructor` | backend/crdt/tree.go:108-118 | the walk starts at the first alive position below the root, for every tree |
| `TreeWalk.TreeIterator.Next` | backend/crdt/tree.go:375-398 | terminates and makes one step of the walk: the node of the topmost position is given, its next sibling takes its place and its first child goes on top |
| `TreeWalk.StepYields` | backend/crdt/tree.go:375-398 | with the root on top, a step gives the first node of the preorder still to come and leaves the others; nothing exactly when nothing is left |
| `TreeWalk.WalkNeverEnds` | backend/crdt/tree.go:375-398 | with the root below itself over alive positions, there is one more node to give after any number of steps |
| `TreeWalk.WalkEndsExactly` | backend/crdt/tree.go:375-398 | for every tree the moves can have led to: the walk ends exactly if the root is not below itself over alive positions, and then it has given exactly the nodes below the root, each once |
| `WalkLimits.WalkNeedNotEnd` | backend/crdt/tree.go:292-332 | a run of six moves from a new tree, every search of which ends, after which the root is below itself and the walk never ends |
| `Base52.StringifyBase52` | backend/pkg/posstrings/posstrings.go:175-194 | the loop gives the numeral of the number |
| `Base52.ParseBase52` | backend/pkg/posstrings/posstrings.go:196-210 | the loop gives the number a numeral stands for |
| `Base52.ParseInvertsNumeral` | backend/pkg/posstrings/posstrings.go:175-210 | parsing inverts stringifying for every natural number |
| `Base52.CodesOrderedPrefixFree` | backend/pkg/posstrings/posstrings.go:212-225 | numerals of used numbers are in lexicographic order, and none is a prefix of another |
| `Base52.NextIsOddCode` | backend/pkg/posstrings/posstrings.go:212-225 | the next value after an odd code is a greater odd code, and the even numbers before both are codes |
| `Base52.NextIsLeast` | backend/pkg/posstrings/posstrings.go:212-225 | it is the least odd code above it |
| `Base52.NothingSkipped` | backend/pkg/posstrings/posstrings.go:212-225 | every odd code is given out in its turn |
| `Base52.ValueLength` | backend/pkg/posstrings/posstrings.go:212-225 | the k-th value has d digits exactly if 25 k lies from 13 (26^(d-1) - 1) up to 13 (26^d - 1) |
| `Base52.SequenceIsOrderedPrefixFree` | backend/pkg/posstrings/posstrings.go:212-225 | the values given out, with the even left version of each, are strictly increasing strings, none a prefix of another |
| `PosNames.LastIndex` | backend/pkg/posstrings/posstrings.go:124-127 | the greatest index at which a name occurs, if any |
| `PosNames.WaypointIsNamed` | backend/pkg/posstrings/posstrings.go:116-136 | a source is named in full behind an ancestor that does not name it; otherwise the short name is the number of dots behind the dot of the naming that counts, the one at the start or else the last |
| `PosNames.PositionParts` | backend/pkg/posstrings/posstrings.go:150-158 | a position has one prefix and one value only |
| `PosNames.SameDotsSameSource` | backend/pkg/posstrings/posstrings.go:124-136 | a short name counts back to one source only |
| `PosNames.OneOwner` | backend/pkg/posstrings/posstrings.go:116-140 | no two sources put values behind the same prefix |
| `PosStrings.PositionSource.AppendWaypoint` | backend/pkg/posstrings/posstrings.go:116-148 | the position is the next value under the waypoint of this source, and only the last value of that prefix moves |
| `PosStrings.PositionSource.GetPrefix` | backend/pkg/posstrings/posstrings.go:150-158 | the loop finds the last waypoint character in front of the value |
| `PosStrings.PositionSource.GetLeftVersion` | backend/pkg/posstrings/posstrings.go:160-166 | the position with its odd last value lowered by one, or an error; a last byte from 128 on counts as the two bytes of its UTF-8 form |
| `PosStrings.PositionSource.CreateBetween` | backend/pkg/posstrings/posstrings.go:54-114 | the first of the errors of the source that applies, told by the inputs, with no value given out; otherwise the least new value under the place the inputs tell, which is the answer if it lies between and else used up with an error |
| `PosStrings.CreatedIsOutcome` | backend/pkg/posstrings/posstrings.go:54-114 | the same of the step function for all inputs, without its parts |
| `PosStrings.LeftVersionExactly` | backend/pkg/posstrings/posstrings.go:160-166 | the left version is refused exactly if the last byte is odd or below B |
| `PosStrings.PrefixMeans` | backend/pkg/posstrings/posstrings.go:150-158 | the prefix ends at the last dot or digit that is not the last byte; there is none exactly if there is no such byte |
| `PosBetween.LeftVersionOfPosition` | backend/pkg/posstrings/posstrings.go:160-166 | the left version of a minted position is the same prefix with the even value in front |
| `PosBetween.PrefixOfPosition` | backend/pkg/posstrings/posstrings.go:150-158 | the prefix found for a position is the one it was minted under |
| `PosBetween.LeftOfRight` | backend/pkg/posstrings/posstrings.go:79-85 | between "" or a prefix of the right input and the right input: the chosen prefix is owned and the result lies strictly between |
| `PosBetween.RightOfLeft` | backend/pkg/posstrings/posstrings.go:89-106 | right of the left input, reusing a prefix or not: the chosen prefix is owned and the result lies strictly between |
| `PosWorld.AnswerIsFresh` | backend/pkg/posstrings/posstrings.go:54-114 | what a source returns was never returned before, by it or by another |
| `PosWorld.CreateBetweenSucceeds` | backend/pkg/posstrings/posstrings.go:54-114 | in every reachable world a request between earlier positions succeeds, strictly between, with a new position |
| `PosWorld.NoPositionTwice` | backend/pkg/posstrings/posstrings.go:54-114 | over every run of any sources with distinct ids: no request fails, every answer lies strictly between its inputs, and no position is returned twice |
| `PosWorld.FreshSourcesNeverFail` | backend/pkg/posstrings/posstrings.go:27-44 | the same from newly made sources |
| `PosTyping.GoesOnExactly` | backend/pkg/posstrings/posstrings.go:89-106 | in every reachable world a source goes on under the prefix of its left input exactly if it minted that input itself and the prefix does not lead to the right input; otherwise the answer is longer than the left input |
| `PosTyping.TypingStaysUnderOnePrefix` | backend/pkg/posstrings/posstrings.go:54-114 | in every reachable world, asking again and again behind the last answer and in front of the same right input: all answers stand under one prefix and take its values in turn, from the first one if the prefix is new, so that their lengths grow as the logarithm of their number |
| `MergeKeys.KeyLess` | backend/crdt2/map.go:245-277 | the loop decides the order by length of path, path, time and origin |
| `MergeKeys.SamePath` | backend/crdt2/map.go:279-292 | the loop decides equality of paths |
| `MergeKeys.KeyTrichotomy` | backend/crdt2/map.go:245-277 | of two keys exactly one is less, or they are equal |
| `MergeKeys.KeyTransitive` | backend/crdt2/map.go:245-277 | the order of keys is transitive |
| `MergeKeys.KeyOrder` | backend/crdt2/map.go:245-277 | the shorter path comes first, then the path whose first differing name is smaller, then the earlier time, then the smaller origin |
| `MergeKeys.PutWorks` | backend/crdt2/map.go:74-86 | setting a node replaces the one with its key and keeps all others in order |
| `MergeKeys.SortedIsUnique` | backend/crdt2/map.go:15-22 | the tree is determined by the nodes in it |
| `MergeKeys.ChildrenBetween` | backend/crdt2/map.go:152-165 | keys between two children of a path are of children of it |
| `MergeMap.ReachThrough` | backend/crdt2/map.go:42-68 | what a queued map leads to is what the patch leads to at that path |
| `MergeMap.Map.ApplyPatch` | backend/crdt2/map.go:28-72 | terminates for every nesting and every order of map entries; wherever the patch leads there is an entry under its time and origin: of a list or map tag what it holds, as a chunk or as a value, and of all else the value as it is; the other nodes are exactly the old ones with other keys |
| `MergeMap.UnwrapStores` | backend/crdt2/map.go:45-68 | an object with a list or map tag as its only entry is stored as what the tag holds, and every other value as it is |
| `MergeMap.LeadsToEntries` | backend/crdt2/map.go:42-68 | a path leads to an entry of the patch, and from any object that is none of the special ones on to its entries, however many it has |
| `MergeMap.Map.Set` | backend/crdt2/map.go:24-26 | replaces the value of one key only |
| `MergeMap.Map.Get` | backend/crdt2/map.go:88-106 | the value with the greatest time and origin at the path, nothing if that entry is a list chunk or there is none; the empty path of a map without an entry there gives a nil value |
| `MergeMap.Map.List` | backend/crdt2/map.go:128-149 | the items of the leading list chunks at the path, in order |
| `MergeMap.Map.Keys` | backend/crdt2/map.go:152-171 | exactly the names of the children the scan sees, each once, in ascending order |
| `MergeMap.Map.ForgetState` | backend/crdt2/map.go:197-211 | removes exactly the nodes of one time and origin, and never fails to delete |
| `MergeRuns.RunIsWhatIsWritten` | backend/crdt2/map.go:28-86 | patches with distinct stamps leave exactly what some patch writes |
| `MergeRuns.Converges` | backend/crdt2/map.go:28-86 | the same patches in any order, with any repeats, give the same tree |
| `MergeRuns.LastWriterWins` | backend/crdt2/map.go:88-106 | the entry read at a path is the one of the patch with the greatest time and origin among those that have a value there |
| `MergeRuns.LastValueIsRead` | backend/crdt2/map.go:28-106 | reading a path gives the value that the last visible patch leading there has there: x of a map tag around x, nothing of a list tag, and every other value as it is; nothing where no visible patch leads |
| `MergeRuns.ChunkIsHeld` | backend/crdt2/map.go:45-68 | what a list tag of a patch holds is a list chunk under its path, time and origin |
| `MergeRuns.NothingMeansNeverWritten` | backend/crdt2/map.go:88-106 | nothing is found at a path exactly if no visible patch leads there |
| `MergeRuns.ForgetCommutes` | backend/crdt2/map.go:197-211 | forgetting a stamp commutes with patches of other stamps |
| `MergeRuns.ForgetUndoes` | backend/crdt2/map.go:197-211 | forgetting undoes a patch exactly when no other node had its time and origin |
| `MergeRuns.ForgottenLeaveNoTrace` | backend/crdt2/map.go:197-211 | forgetting a stamp gives the history without the patches of that stamp, wherever they stood |
| `MergeRuns.EntriesAtAll` | backend/crdt2/map.go:128-149 | the entries scanned for a list are all at the path from time zero on, in the order of stamps |
| `MergeRuns.LeadingChunks` | backend/crdt2/map.go:128-149 | the list is what the leading chunks insert, up to the first entry that is none; a leading chunk that inserts nothing makes it panic |
| `MergeRuns.ListIsAllChunks` | backend/crdt2/map.go:128-149 | when every entry at a path is a list chunk with a time of at least zero, the list is the concatenation of all chunks in the order of time and origin |
| `MergeRuns.SeenUnlessEmptyAndNegative` | backend/crdt2/map.go:152-165 | the scan for children misses only an empty name at a negative time |
| `MergeRuns.KeysAreAllChildren` | backend/crdt2/map.go:152-171 | with times of at least zero the keys listed are all direct child names |
| `Hlc.Clock.Now` | backend/hlc/hlc.go:77-91 | while the difference fits: a reading fails exactly if the clock is a minute ahead, else it is the greater of the wall and the next timestamp and becomes the greatest known; beyond, the result of 64-bit arithmetic |
| `Hlc.Clock.Track` | backend/hlc/hlc.go:104-111 | while the difference fits: refuses, changing nothing, exactly what is a minute ahead of the wall, else the greatest known is the maximum |
| `Hlc.NowIsNext` | backend/hlc/hlc.go:77-91 | while the difference fits, a reading fails exactly when the clock is a minute or more ahead; otherwise it is the greater of the wall and the next timestamp, at most 60,000,000 microseconds ahead, except that the very last timestamp wraps around |
| `Hlc.TrackIsMax` | backend/hlc/hlc.go:104-117 | while the difference fits, tracking takes the maximum, or nothing from a minute ahead on |
| `Hlc.GoesForward` | backend/hlc/hlc.go:77-91 | for every wall from 1970 on, a minute away from where time ends: a timestamp given is above the greatest known exactly if there is a next one and the difference, in nanoseconds, fits |
| `Hlc.ClockGoesBack` | backend/hlc/hlc.go:119-127 | a run of two new clocks, one in 2262 and one in 1970, in which a causally later timestamp is smaller |
| `Hlc.RunStaysInRange` | backend/hlc/hlc.go:77-127 | in every run with sane walls all timestamps stay in the range where clocks go forward |
| `Hlc.NodeRemembers` | backend/hlc/hlc.go:113-117 | what a node knows is never lowered by its later events |
| `Hlc.CausesAreKnown` | backend/hlc/hlc.go:102-117 | whatever happens before an event is known to its node then |
| `Hlc.CausallyLaterIsGreater` | backend/hlc/hlc.go:4-9 | over every run of any number of clocks whose wall readings are from 1970 on and at least a minute below 2^63 nanoseconds: a causally later timestamp is strictly greater |
| `EntityGraph.AddedKeepsSound` | backend/hyper/entity.go:235-252 | adding a change keeps: indices are a bijection, edges point down, both directions agree, heads are exactly the changes nobody depends on |
| `EntityGraph.ReachesTransitive` | backend/hyper/entity.go:302-336 | being an ancestor is transitive |
| `EntityGraph.EveryChangeUnderAHead` | backend/hyper/entity.go:238-247 | every change is an ancestor of some head |
| `EntityGraph.HeadsApart` | backend/hyper/entity.go:245-247 | no head is an ancestor of another change |
| `Entities.AddUnique` | backend/hyper/entity.go:346-364 | the list with the number in front of the first greater one, unless it is found before that, or at the very front; the set is that of the list and the number |
| `Entities.StaysAscending` | backend/hyper/entity.go:346-364 | an ascending list stays ascending exactly if it is empty, holds the number, or ends above it |
| `Entities.StaysWithoutRepeats` | backend/hyper/entity.go:346-364 | a list without repeats gets one exactly if it holds the number behind a greater one |
| `Entities.NeedNotStaySorted` | backend/hyper/entity.go:346-364 | adding 5 to [3] gives [5, 3], and adding 3 to that gives [3, 5, 3] |
| `Entities.Entity.constructor` | backend/hyper/entity.go:95-105 | a new entity holds nothing |
| `Entities.Entity.ApplyChange` | backend/hyper/entity.go:189-255 | accepts exactly a new change of the entity, behind all its dependencies, not older than the last change applied or the last of its signer, and not ahead of the wall; then it is the last change, a head in place of its dependencies, with an edge to each of them and back, and its values are in the state; otherwise the first thing wrong in the order of the source is the answer and at most the time of its signer stays |
| `Entities.RefusalMeans` | backend/hyper/entity.go:189-232 | the checks, made one by one, accept exactly these changes, and name the first thing wrong with others |
| `Entities.ChangeTakesEffect` | backend/hyper/entity.go:189-255 | the step from one entity to the next, told by its fields before and after, for accepted and refused changes |
| `Entities.Entity.Append` | backend/hyper/entity.go:235-252 | records the change, its edges in both directions as sets, and the heads without its dependencies |
| `Entities.Entity.Link` | backend/hyper/entity.go:245-252 | edges as sets: those of the new change, and one back edge for each dependency |
| `Entities.Entity.Deps` | backend/hyper/entity.go:268-344 | nothing without heads, the dependencies of a single head as they are, and for several exactly the collected ones without a collected direct successor |
| `Entities.Entity.Reduce` | backend/hyper/entity.go:302-336 | the walk terminates and keeps exactly the collected dependencies without a collected direct successor |
| `Entities.Entity.CreateChange` | backend/hyper/entity.go:403-414 | a change on top of exactly the heads, in ascending order, is offered to the entity, unless it cannot be signed or is empty on a single head |
| `Entities.Entity.ReplaceChange` | backend/hyper/entity.go:417-449 | fails without effect unless the change is the only head; otherwise the old change is forgotten for good, and a new one with its dependencies in ascending order is offered, unless it cannot be made; the entity then is the one without the old change after that offer |
| `Entities.SortsCids` | backend/hyper/entity.go:451-456 | the dependencies of a change made are in ascending order, each as often as given |
| `EntityRuns.RunIsSound` | backend/hyper/entity.go:189-255 | the graph is sound after every history of changes given, refused ones included |
| `EntityRuns.RunIsOwn` | backend/hyper/entity.go:189-192 | in every history all changes applied are of the entity |
| `EntityRuns.RunIsTimely` | backend/hyper/entity.go:209-217 | changes are applied in the order of their times, all at least zero, and the clock shows the last |
| `EntityRuns.AncestorsAreOlder` | backend/hyper/entity.go:215-228 | an ancestor has a smaller index and no later time |
| `EntityRuns.CollectedUnderReturned` | backend/hyper/entity.go:257-343 | no history is lost: every collected dependency is returned or an ancestor of a returned one |
| `EntityRuns.MinimalWithoutGaps` | backend/hyper/entity.go:257-343 | what is returned is minimal exactly when every collected dependency with a collected descendant has a collected direct successor |
| `EntityRuns.ReturnedNeedNotBeMinimal` | backend/hyper/entity.go:257-343 | a history of five changes in which a returned dependency is an ancestor of another |
| `EntityRuns.AllReachTheOnlyHead` | backend/hyper/entity.go:417-424 | the only head is the change applied last |
| `EntityRuns.NodesAreFromChanges` | backend/hyper/entity.go:234-235 | every value in the state has the time and origin of a change applied |
| `EntityRuns.ReplacedAsIfNeverApplied` | backend/hyper/entity.go:417-449 | a replacement that succeeds leaves state, changes applied and heads as the new change alone would have |
| `EntityRuns.ReplacedInRun` | backend/hyper/entity.go:417-449 | after every history, when no other change has its time and origin: a replacement gives a history that never had the change replaced |
| `EntityHistories.ReplacedLeaveNoTrace` | backend/hyper/entity.go:417-449 | after any mix of changes given and changes replaced, where each replacement that is let through succeeds and the stamp of the old change is its own: state, changes applied, heads and dependencies for the next change are those of the accepted changes with each replaced one left out, although the old changes keep their places and edges |
| `EntityHistories.HistoryIsOwn` | backend/hyper/entity.go:189-192 | the same where changes are replaced |
| `EntityHistories.SameChangesSameDeps` | backend/hyper/entity.go:257-343 | whatever else is still in the lists, the same changes applied and the same heads give the same dependencies |
| `EntityHistories.FailedReplacement` | backend/hyper/entity.go:435-449 | a replacement that fails once the old change is forgotten leaves the state before that change without its heads, which is what was there before exactly if the old change was the only one |
| `EntityReplicas.StateIsPatched` | backend/hyper/entity.go:234-235 | the state is what the patches of the changes come to, in their order |
| `EntityReplicas.HeadUnlessDependedOn` | backend/hyper/entity.go:245-247 | an applied change is a head unless another applied one depends on it |
| `EntityReplicas.ReplicasConverge` | backend/hyper/entity.go:189-255 | replicas that accepted the same changes, in whatever order and with whatever refusals, hold the same state and are at the same version |
| `EntityReplicas.NextTimestampFits` | backend/hyper/entity.go:380-414 | a change on top of the heads with the next timestamp of the clock is accepted unless its signer was seen later or the wall stayed at the edge of the skew allowed, and becomes the only head |
| `EntityReplicas.SignersBehindClock` | backend/hyper/entity.go:209-217 | in a history without refusals no signer is ahead of the clock |
| `EntityReplicas.RefusedChangeBarsSigner` | backend/hyper/entity.go:213-224 | a refused change still moves the time of its signer and bars a change that would have been accepted |
| `LoadVersion.ResolveHeads` | backend/hyper/hypersql/queries.gen.go:977-981 | for every store: the recursive query gives exactly the heads and their ancestors, stored or not |
| `LoadVersion.ListByTime` | backend/hyper/hypersql/queries.gen.go:891-896 | each stored change of the entity once, none before an older one |
| `LoadVersion.NextIsAccepted` | backend/hyper/entity.go:865-879 | in time order, the next change is accepted exactly if it is not from before 1970, not ahead of the wall, and behind all its dependencies |
| `LoadVersion.NeededUnlessTop` | backend/hyper/entity.go:845-885 | among heads and ancestors, when dependencies are older, nothing depends on a change exactly if it is a given head not below another |
| `LoadVersion.LoadsVersion` | backend/hyper/entity.go:845-885 | when dependencies are stored and strictly older, whatever order the database picks for equal times: loading succeeds exactly if all heads and ancestors are acceptable, applies exactly these, and ends at the given heads not below another |
| `LoadVersion.LoadingIsDeterministic` | backend/hyper/entity.go:845-885 | two orders of the same changes that both load give the same state and heads |
| `LoadVersion.TieDecides` | backend/hyper/hypersql/queries.gen.go:891-896 | a change and its dependency made at the same time: both orders are in order of time, and only one of them loads |
| `LoadVersion.LoadFromHeads` | backend/hyper/entity.go:845-885 | for every store: the changes listed are the stored ones of the entity among the heads and their ancestors, once each in order of time; it succeeds exactly if each is acceptable and behind its dependencies, gives no entity when there are none, and otherwise an entity with exactly these, at those no other one depends on |
| `BlobTable.PutBlockKeeps` | backend/hyper/blockstore.go:183-226 | a blob whose data comes in gets an id above all given out |
| `BlobTable.SaveBlobKeeps` | backend/hyper/hyper.go:103-120 | indexing adds only hashes without data |
| `BlobTable.ReplaceDraftKeeps` | backend/hyper/hyper.go:399-442 | a blob put at the id of a deleted one is hidden by its draft |
| `BlobTable.PublishDraftKeeps` | backend/hyper/hyper.go:289-331 | a published draft becomes listable at an id above all given out |
| `BlobTable.PublishBlobKeeps` | backend/hyper/hyper.go:251-286 | a blob published again moves to an id above all given out |
| `BlobTable.DeletedKeeps` | backend/hyper/hypersql/queries.gen.go:162-176 | deleting, with the drafts of the row, makes nothing else listable |
| `BlobTable.EmptiedKeeps` | backend/hyper/hypersql/queries.gen.go:190-201 | dropping data makes nothing listable |
| `BlobOutcomes.SaveStores` | backend/hyper/hyper.go:103-120 | which blobs the step function stores, and what it leaves, told by the rows before and after |
| `BlobOutcomes.NewIsListable` | backend/hyper/hyper.go:673-695 | a blob stored has its data, and is listable unless its data was there before as a draft |
| `BlobOutcomes.ManyStored` | backend/hyper/hyper.go:698-726 | storing many succeeds exactly if each can be stored in its turn, one transaction after another |
| `BlobOutcomes.DraftSaved` | backend/hyper/hyper.go:148-175 | a draft saved is stored and hidden, exactly if there is none |
| `BlobOutcomes.DraftIsReplaced` | backend/hyper/hyper.go:399-442 | when a draft can be replaced, and what that leaves |
| `BlobOutcomes.PublishesDraft` | backend/hyper/hyper.go:289-331 | a published draft is a draft no more, and listable above all ids given out |
| `BlobOutcomes.PublishesBlob` | backend/hyper/hyper.go:251-286 | which blobs can be published again, and that they are listable above all ids given out |
| `BlobOutcomes.DeletesDraft` | backend/hyper/hyper.go:339-371 | the row of a deleted draft is gone and no other |
| `BlobOutcomes.DeletesMany` | backend/hyper/hypersql/queries.gen.go:162-176 | the rows deleted are gone, with the drafts at them, and no others |
| `BlobOutcomes.BecomesKnown` | backend/hyper/indexing_structural_blob.go:245-273 | a hash becomes known without data, and emptying keeps the row and its id |
| `BlobStore.Storage.PutBlock` | backend/hyper/blockstore.go:183-226 | fails exactly for data that is new at the row of a draft; data that is there stays, with its id; other data gets a row with its length, at the next id, or at the id given if its hash is not known |
| `BlobStore.Storage.AllocateBlobID` | backend/hyper/blockstore.go:228-249 | the id is above those of all rows and all given out before, and nothing else changes; fails exactly while none was given out |
| `BlobStore.Storage.EnsureBlob` | backend/hyper/indexing_structural_blob.go:245-273 | the hash has a row afterwards, without data if it is new; all other rows, the drafts and everything listed stay as they are |
| `BlobStore.Storage.Put` | backend/hyper/hyper.go:673-695 | succeeds exactly if the data is there already, or can be indexed and no draft is at its row; then the hash has a row with the length of its data, at an id above all given out unless the data was there, what it links to is known, no other row has changed, and the blob is listable unless its data was there as a draft; otherwise nothing has changed |
| `BlobStore.Storage.PutMany` | backend/hyper/hyper.go:698-726 | each blob is stored as by a transaction of its own, in their order, or some blob cannot be in its turn and nothing has changed |
| `BlobStore.Storage.SaveDraftBlob` | backend/hyper/hyper.go:148-175 | succeeds exactly if the blob can be stored and the resource has no draft; then it is stored and the draft is at its id, so it is not listed; otherwise nothing has changed |
| `BlobStore.Storage.ReplaceDraftBlob` | backend/hyper/hyper.go:399-442 | the old row is gone with its drafts, and the new blob has its data in a row at the same id, as the draft; if its data was there already it stays as it is; nothing changed when it cannot be stored, the resource has another draft, or another blob links to the old one |
| `BlobStore.Storage.PublishDraft` | backend/hyper/hyper.go:289-338 | succeeds exactly for a draft; then no draft is at that id any more and the row is at an id above all given out, listable if its data is there |
| `BlobStore.Storage.PublishBlob` | backend/hyper/hyper.go:251-286 | a blob with its data moves to an id above all given out and is listable; fails exactly for a draft, and before any id was given out |
| `BlobStore.Storage.DeleteDraft` | backend/hyper/hyper.go:339-371 | the row of the draft and all drafts at it are gone and nothing else has changed; nothing changed at all if there is no such draft or another blob links to it |
| `BlobStore.Storage.DeleteEntity` | backend/hyper/hyper.go:374-397 | exactly the rows of the changes are gone, with the drafts at them; nothing changed when the entity is not found or a foreign key keeps it or one of them |
| `BlobStore.Storage.StartListing` | backend/mttnet/list_blobs.go:33-50 | no listing when the cursor is the greatest id, one from the beginning when the cursor is beyond it, and one from the cursor else |
| `BlobStore.Storage.ListBlobs` | backend/mttnet/list_blobs.go:52-83 | all listable blobs above the id in the order of ids, from the table as it is by then |
| `BlobSync.OperationKeeps` | backend/hyper/blockstore.go:183-242 | no transaction, kept or rolled back, makes a blob listable at an id given out before |
| `BlobSync.AskIsSafe` | backend/mttnet/list_blobs.go:33-50 | whatever the cursor, a listing starts at or below it, and none is needed when it is the greatest id |
| `BlobSync.ListIsSafe` | backend/mttnet/list_blobs.go:52-70 | a listing taken from a later table than the greatest id still holds what the peer misses |
| `BlobSync.ReceiveIsSafe` | backend/mttnet/list_blobs.go:52-70 | receiving one item of a listing moves the cursor past sent blobs only |
| `BlobSync.RunIsSafe` | backend/mttnet/list_blobs.go:17-71 | every interleaving of transactions with the two statements of each listing call and with partial listings keeps every peer safe |
| `BlobSync.NoPeerMissesABlob` | backend/mttnet/list_blobs.go:17-71 | after every run, a peer was sent every listable blob with an id up to the cursor it received last |
| `BlobSync.WholeListingIsComplete` | backend/mttnet/list_blobs.go:52-83 | a listing read to its end leaves no listable blob behind up to the ids given out when it was taken |
| `BlobSync.OneCallCatchesUp` | backend/mttnet/list_blobs.go:17-83 | after every history, a peer whose next call is served in one go and received to its end was sent everything that is listable |
| `Threads.BlobIndex.IndexComment` | backend/hyper/indexing.go:524-588 | exactly the acceptable comments are indexed: on a hypermedia page that is not removed, by a known author, top-level or linked to a stored comment on a target that agrees up to its first question mark; others are refused for the first thing wrong with them |
| `Threads.BlobIndex.Put` | backend/hyper/hyper.go:673-695 | accepted are exactly blobs that are there, blobs that are no comments, and acceptable comments; of these the new ones are stored, and nothing else changes; a refusal gives a reason that holds of the comment |
| `Threads.CutMeans` | backend/hyper/indexing.go:562-567 | cutting keeps what is in front of the first occurrence of the mark, or everything if it does not occur |
| `Threads.PageDecides` | backend/hyper/indexing.go:562-567 | two targets are on one page exactly if they agree up to their first question marks, or ends |
| `Threads.AcceptedIsWellPlaced` | backend/hyper/indexing.go:538-583 | an accepted reply is linked to a comment accepted before it |
| `Threads.RunIsSound` | backend/hyper/indexing.go:524-583 | in every history of arrivals and removals each stored comment was accepted, and each accepted one is well placed |
| `Threads.ThreadExists` | backend/hyper/indexing.go:571-582 | from every accepted comment the replies lead to a top-level one, on targets that agree up to the first question mark, times not rising upwards, and all name it as root |
| `Threads.ThreadHasNoCycle` | backend/hyper/indexing.go:538-583 | no thread meets a comment twice |
| `Threads.EveryCommentHasAThread` | backend/hyper/indexing.go:538-583 | in every history every stored comment has such a thread |
| `Threads.ThreadIsStored` | backend/hyper/indexing.go:545-558 | as long as no blob is emptied the whole thread is stored |
| `Worker.SyncWorker.Tick` | backend/syncing/worker.go:125-168 | the loop is the state machine: transitions from a tick until the worker sleeps or its inputs end; it syncs exactly where the inputs say so, then sleeps with no failure counted and no deadline |
| `Worker.TickSyncsExactly` | backend/syncing/worker.go:125-168 | a tick syncs at its second transition if the peer is online when the connection is checked; else exactly if no deadline is ahead, after the first attempt to find the peer online, where all attempts before it found no address and their delays were over when looked at |
| `Worker.NothingSyncs` | backend/syncing/worker.go:132-161 | a deadline ahead, an attempt that finds the peer offline, or a failure whose delay is not over, and the tick never syncs |
| `Worker.EveryTickSleeps` | backend/syncing/worker.go:128-168 | a tick takes at most four transitions exactly if less than the delay passes between setting a deadline and checking it |
| `Worker.TickNeedNotEnd` | backend/syncing/worker.go:144-149 | once the shift has dropped all bits a tick goes on for as long as the peer has no address |
| `Worker.FirstTickNeedNotEnd` | backend/syncing/worker.go:125-168 | started with an interval of 2^62 and a peer that never has an address, the worker never sleeps again |
| `Worker.AttemptsAreFailures` | backend/syncing/worker.go:144-155 | the attempts counted are the failures in a row since the last sync |
| `Worker.DeadlineStays` | backend/syncing/worker.go:147-161 | the deadline is kept until the next failure or sync |
| `Worker.NextAttemptIsLater` | backend/syncing/worker.go:144-161 | after the k-th failure in a row the next attempt starts at least the interval times 2^k later, unless a sync intervenes, as long as that product fits |
| `Worker.FirstTickIsOffset` | backend/syncing/worker.go:257-283 | the first delay is within one interval and starts at the hash of the peer modulo the interval, exactly if the offsets do not overflow |
| `Worker.FirstDelayCanWrap` | backend/syncing/worker.go:271-282 | a huge interval makes the first delay negative |

## Left out

- Trees.Tree.Integrate: requires that every search for an ancestor it makes comes to an end, as the source would not
  return otherwise (`LateMoveLimits.LateMoveNeverEnds`).
- TreeSteps.StaysFaithful: the condition on late moves is sufficient. It is exact where the searches come out right
  (`TreeSteps.FaithfulExactly`) and where no node is moved twice behind the late move
  (`TreeSteps.FaithfulExactlyOnceEach`). Where a search comes out wrong and its node is moved again behind it, only
  the last search for each node is known to matter (`TreeSteps.LastSearchIsRight`). Late moves that are not ready in
  their turn have the step function only.
- MergeMap.Map.ApplyPatch: replicated arrays (`#rga`) are excluded, because the source panics on them.
- Entities.Entity.ApplyChange: patches with `#rga` are excluded here too, for the same reason.
- LoadVersion.LoadFromHeads: patches with `#rga` are excluded here as well.
- Pointers between tree and lists: positions of the tree are named by list and identifier instead of pointed to, and
  sibling lists are sequences; `RgaList` has the pointers and proves that the ring shows the sequence.
- Floating point in position strings: numbers are exact naturals; the floating-point digits of the source are exact up to
  2^53 only.
- `SetNodePosition`, `MoveNode`, `DeleteNode` and the lookups beside them: they only prepare calls of `Integrate`.
- Sharing of a backing array between sibling paths in `ApplyPatch` and sorting dependencies in place in
  `ReplaceChange`: paths and dependencies are immutable values.
- Interning of signers (`actorsIntern`): it changes no result.
- `ForEachListChunk` and `GetWithOrigin`: the scans of `List` and `Get` with other results.
- SQLite, compression, encoding, signatures, hashing, and the network: tables are maps, transactions are
  rolled back by restoring them, CIDs are names. Tables other than `blobs` and `drafts` are not part of
  this model; whether their foreign keys refuse a delete is a parameter.
- Encoding of cursors and of version strings.
- The semaphore, timers and timeouts of the worker: only what they come to is an input.
- Checks of changes, profiles and groups in the indexer, and everything else of the backend and the frontend.
