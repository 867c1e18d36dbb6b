# Verified model of parts of Genius TCAD Open

A Dafny 4.11 model of six pieces of the simulator whose correctness rests on loops, recursion or interleaving, with
proofs of what those pieces are for. `dafny verify dfyconfig.toml` checks everything.

- **Refraction tables** (`RealArith`, `Tridiagonal`, `SplineSystem`, `SplineCurve`, `SplineInterp`). The spline of an
  optical material: packed assembly, elimination without pivoting, in-place back substitution, the halving search and
  the cubic. The reference is an independent definition of a natural cubic spline (`NaturalSpline`: one cubic per
  interval, through the data, C2 at the knots, no end curvature). The evaluated curve is such a spline exactly when
  its second derivatives solve the table's system, every such spline is the evaluated curve, and the solver returns the
  only solution. Pivot bounds, a stability bound and an error bound against the chord hold for every table.
- **Refinement tree** (`ElemTree`, `MeshRefinement`). Elements are heap objects. `SetPLevel` writes up the parent chain
  and keeps every parent's p level the minimum of its children's. The level is stored in an unsigned char, and the
  model keeps that: the minimum survives exactly when `Fits` holds, which is always so below 256, and this wherever it
  held before, in any tree. Construction, refinement, coarsening (with contraction) and the whole-mesh p operations keep
  the invariant, so it holds in every mesh these operations can reach, and there each level is the minimum over the
  active descendants.
- **Command loop** (`CommandText`, `CommandLoop`, `ScriptMeaning`, `Replication`, `MissingDecks`,
  `ReplicationTheorems`). Text and regular expressions of the commands, the queue, the loops of processor 0 and of the
  others, and the system of any number of followers under every interleaving of submissions, receptions and the steps
  of processor 0: broadcasting a command, broadcasting its deck, and the end of its do(). The program loops are proved
  to be runs of this system, and what they do with any script of submitted strings and outcomes of do() is described
  tick by tick without them (`Played`).
- **Filtered iteration** (`FilterIterator`). Predicates are partial functions, undefined at the end position, so that
  an evaluation there would not verify.
- **Element identity** (`SortedIds`, `ElemKeys`, `ElemHash`). Side keys by sorting networks, equality of elements,
  and the order and hash of `ElemKey`.
- **Abbreviation lookup and interpolation** (`PatternMatch`, `Interpolation`).

`Wrappers` holds the `Option` datatype they share.

Where the code does not do what its comments say, the code is modelled and the exact condition is proved:

- `SetActiveLevel`, `OverflowExample`: a p level of 256 or more may break the parent's minimum; the comment at
  elem.h:2018 promises it unconditionally.
- `UniquenessCheckExact`, `AmbiguousAccepted`: the `// unique?` check of the abbreviation lookup misses a second
  match unless it extends the first.
- `LockStuckExactly`, `LockedIsFinal`: a submitted string that cannot be parsed raises inside the lock, which is then
  never released.
- `FaithfulExactly`, `LossyExamples`: a follower repeats the leader exactly as long as the commands are canonical, which
  those that come from text always are, and processor 0 gets as far as sending the text of every deck it runs.
- `QuitHeardExactly`, `FollowersStopTogether`, `MissingDeckExample`: when a deck file is missing, processor 0 sends
  nothing and the followers take the text of the next command for the deck. They lose the leader's quit exactly if an
  odd number of decks right before it are missing; decks that themselves read like commands are covered by `Astray` and
  `Derailed`.
- `WithoutNotNull`: `Subdomain` announces two predicates and pushes one; without `not_null` it is safe exactly on
  entries that point to an element.

## Model

| member | source | states |
|---|---|---|
| Tridiagonal.EliminationKeepsSolutions | examples/Material/PMI.cc:454-459 | the swept rows have the same solutions as the original rows, for any system whose pivots do not vanish |
| Tridiagonal.Eliminate | examples/Material/PMI.cc:449-459 | the in-place sweep over the packed store leaves the pivots on the diagonal and the reduced right-hand side in the vector |
| Tridiagonal.BackSubstitute | examples/Material/PMI.cc:461-465 | in-place back substitution leaves a vector that satisfies every row of the original system |
| SplineSystem.SystemMeaning | examples/Material/PMI.cc:410-433 | the assembled matrix says: 0 at both ends and every interior spline row |
| SplineSystem.PivotBound | examples/Material/PMI.cc:454-465 | interior pivots stay above h_i/3 and the end pivots are 1, so nothing is divided by zero, for every table size |
| SplineSystem.Stability | examples/Material/PMI.cc:419-425 | every second derivative is bounded by any bound on 6 times the slope jumps over the two steps |
| SplineSystem.UniqueSolution | examples/Material/PMI.cc:410-433 | at most one vector satisfies the system |
| SplineSystem.Superposition | examples/Material/PMI.cc:410-433 | solutions combine linearly with their right-hand sides |
| SplineInterp.RefractionSplineInterp.Assemble | examples/Material/PMI.cc:402-433 | the packed store and right-hand side hold exactly the entries of the table's system |
| SplineInterp.RefractionSplineInterp.BuildTable | examples/Material/PMI.cc:399-467 | the result satisfies both end rows and all interior rows, and nothing else does |
| SplineCurve.Expansion | examples/Material/PMI.cc:510-512 | slope and curvature of a cubic are its first and second derivatives |
| SplineCurve.SlopesAgree | examples/Material/PMI.cc:419-425 | neighbouring pieces join smoothly at a knot if and only if that knot's row holds |
| SplineCurve.CurveIsNaturalSpline | examples/Material/PMI.cc:408-433 | the evaluated pieces form a natural cubic spline if and only if the second derivatives solve the system |
| SplineCurve.NaturalSplineUnique | examples/Material/PMI.cc:399-517 | any natural cubic spline through the table equals the evaluated pieces |
| SplineCurve.DeviationFromChord | examples/Material/PMI.cc:507-512 | between two knots the curve leaves the chord by at most h*h/8 times the stability bound |
| SplineCurve.AffineReproduced | examples/Material/PMI.cc:399-517 | affine data gives zero second derivatives and pieces that are the line |
| SplineCurve.AffineOnCurve | examples/Material/PMI.cc:470-517 | on affine data the evaluated value is the affine value everywhere inside the table |
| SplineCurve.OnCurveUnique | examples/Material/PMI.cc:473-517 | a spline with clamping has one value at every abscissa |
| SplineInterp.ScanSkips | examples/Material/PMI.cc:483-501 | starting the scan at any knot not beyond the argument finds the same interval |
| SplineInterp.RefractionSplineInterp.FindInterval | examples/Material/PMI.cc:477-501 | the halving search with its short scan finds the interval of the full scan, and that interval contains the argument |
| SplineInterp.RefractionSplineInterp.Eval | examples/Material/PMI.cc:470-517 | clamps outside, agrees inside with every piece that covers the argument, and returns y[i] at every knot, the last included |
| SplineInterp.CoveringPiecesAgree | examples/Material/PMI.cc:503-512 | two pieces that cover the same argument agree there, at the datum |
| SplineInterp.RefractionSplineInterp.AddNkSorted | examples/Material/include/PMI.h:225-230 | appends one row to the three columns and leaves the derivatives alone |
| SplineInterp.RefractionSplineInterp.Build | examples/Material/include/PMI.h:239-243 | both columns' curves are natural cubic splines afterwards |
| SplineInterp.RefractionSplineInterp.Nk | examples/Material/include/PMI.h:232-237 | each component is the value of the natural cubic spline through its column, however obtained, cut off at 0 |
| ElemTree.Elem.constructor | include/geom/elem.h:1413-1468 | a new element takes p level, subdomain and processor of its parent, in any tree, and disturbs nothing |
| ElemTree.Elem.Active | include/geom/elem.h:1711-1722 | an element is active in every refinement state but the two inactive ones |
| ElemTree.Elem.SetPLevel | include/geom/elem.h:2004-2046 | in any tree: stores p modulo 256 and changes only the element and its ancestors; if the value fits, every other element at which the minimum held keeps it, and otherwise the parent loses it |
| ElemTree.Elem.RaiseFromMinimum | include/geom/elem.h:2028-2042 | raising an element that held its parent's level moves the parent to the least level of all its children |
| ElemTree.Elem.MaxDescendantPLevel | include/geom/elem.h:1986-2000 | the maximum p level over the element and its descendants, which in a consistent mesh is the maximum over the active ones |
| ElemTree.Elem.Level | include/geom/elem.h:1860-1883 | the number of steps to the level-0 element |
| ElemTree.Elem.IsAncestorOf | include/geom/elem.h:1798-1815 | true exactly if this element lies on the other's parent chain; false for NULL |
| ElemTree.Elem.TopParent | include/geom/elem.h:1842-1856 | the one ancestor without a parent |
| ElemTree.Elem.WhichNeighborAmI | include/geom/elem.h:1685-1706 | the first slot that holds e's ancestor on this element's level, or none |
| ElemTree.LeafAboveMin | include/geom/elem.h:956-961 | no active descendant has a smaller level than the element |
| ElemTree.LeafAtMin | include/geom/elem.h:956-961 | some active descendant has exactly the element's level |
| MeshRefinement.LevelIsLeafMinimum | include/geom/elem.h:956-961 | in a consistent mesh p_level is the minimum over active descendants |
| MeshRefinement.LevelsFollowLeaves | include/geom/elem.h:956-961 | all levels are a function of the leaf levels, and follow any monotone change of these |
| MeshRefinement.SetActiveLevel | include/geom/elem.h:2018-2046 | on an active element a consistent mesh stays consistent if and only if the level fits, and no other leaf changes |
| MeshRefinement.OverflowExample | include/geom/elem.h:2007-2045 | a consistent mesh and a leaf one level above its parent: setting 256 stores 0 and loses the minimum |
| MeshRefinement.AddRoot | include/geom/elem.h:1413-1468 | a new element without parent extends any tree to a tree, and a consistent mesh to a consistent one |
| MeshRefinement.RefineElem | src/geom/elem_refinement.cc:39-141 | children appear on the parent's level with its p flag, subdomain and processor, just refined and without neighbours; the element itself ends inactive in both flags; the mesh stays a tree, and consistent if it was |
| MeshRefinement.CoarsenElem | src/geom/elem_refinement.cc:149-221 | the element takes the largest level of its children, the children leave, and in a consistent mesh every ancestor is a minimum again |
| MeshRefinement.UniformlyPRefine | src/mesh/mesh_refinement.cc:1235-1250 | every active element ends n levels higher modulo 256, and every p flag is named; if none wraps around, a consistent mesh stays so and every element, active or not, ends n levels higher |
| MeshRefinement.UniformlyPCoarsen | src/mesh/mesh_refinement.cc:1254-1272 | every active element, and in a consistent mesh every element, ends n levels lower, or at 0; every p flag is named |
| CommandText.ArgGroup | bin/GeniusCtrl.py:92-98 | finds the group a backtracking engine finds first, and fails exactly when nothing matches |
| CommandText.IsBare | bin/GeniusCtrl.py:30-33 | accepts exactly the strings the pattern without argument matches |
| CommandText.OpcodesPrefixFree | bin/GeniusCtrl.py:410 | at most one valid opcode starts a string |
| CommandText.MakeCommand | bin/GeniusCtrl.py:39-47 | the loop over the valid commands yields the meaning of the one opcode the string starts with, and a nop where none of the six names starts it |
| CommandText.BareMeaning | bin/GeniusCtrl.py:30-33 | nop, quit and reset are parsed exactly from their names with nothing after them but the six blank characters |
| CommandText.ArgumentMeaning | bin/GeniusCtrl.py:92-98 | the argument parsed is the text between the white space after the name and the white space at the end of its line; further lines are ignored by chdir and query-struct, and make run-deck fail but for one newline |
| CommandText.ArgumentDivides | bin/GeniusCtrl.py:92-98 | every string with white space after the name divides in that way |
| CommandText.NoArgument | bin/GeniusCtrl.py:92-96 | run-deck, chdir and query-struct without white space after the name raise |
| CommandText.PrintedDivides | bin/GeniusCtrl.py:89-90 | a printed command is its name, one blank and the argument unchanged, and a canonical argument is the one the parser finds there |
| CommandText.ParsedIsCanonical | bin/GeniusCtrl.py:92-98 | whatever parses has a one-line argument without white space at its ends |
| CommandText.PrintParse | bin/GeniusCtrl.py:89-98 | parsing the printed command gives the command back if and only if its argument is canonical |
| CommandText.CanonicalAfterOneParse | bin/GeniusCtrl.py:39-47 | for every accepted string, printing and parsing the result again changes nothing |
| CommandText.KindSurvivesPrinting | bin/GeniusCtrl.py:169-175 | a printed command that parses at all keeps its kind |
| CommandText.AcceptedExactly | bin/GeniusCtrl.py:169-175 | which strings each opcode accepts: run-deck needs one line, chdir and query-struct a blank after the name, the others only white space |
| CommandText.LossyExamples | bin/GeniusCtrl.py:58-61 | a string that is rejected and a command object that does not survive printing |
| CommandLoop.CmdQueue.GetCmd | bin/GeniusCtrl.py:227-236 | removes and returns the first command, or returns None |
| CommandLoop.CmdQueue.AddText | bin/GeniusCtrl.py:238-250 | appends the parsed command; the lock is given back exactly when parsing succeeds |
| CommandLoop.CmdQueue.AddObject | bin/GeniusCtrl.py:244-250 | appends the object as it is |
| CommandLoop.GeniusCtrl.BroadcastNext | bin/GeniusCtrl.py:363-385 | the first half of an iteration: the queue's first command, or a nop when the queue is empty and the idle count is 0, is broadcast as text and begun; the idle count goes down from 10 in polls that do neither |
| CommandLoop.GeniusCtrl.Execute | bin/GeniusCtrl.py:394-403 | the second half: a run-deck broadcasts exactly the deck it read, the job is recorded as raised exactly if do() raised or no deck could be read, and the event is set either way; quit has no do() and leaves the loop |
| CommandLoop.GeniusCtrl.Run | bin/GeniusCtrl.py:362-403 | the loop of processor 0, for every script of submitted strings and outcomes of do(), ends in the state the step functions lead to; ScriptMeaning.LoopPlays says tick by tick what that state is |
| ScriptMeaning.ArrivalsMeaning | bin/GeniusCtrl.py:238-250 | the strings submitted between two iterations are appended to the queue as parsed, in order, up to the first that cannot be parsed, which leaves the lock taken |
| ScriptMeaning.LoopPlays | bin/GeniusCtrl.py:362-403 | for every script, in terms of strings, decks and counts only: the accepted commands are the parses of all strings of the ticks played, in order; each tick runs the oldest command not yet begun, with the deck read in that tick, or every eleventh idle poll a heartbeat; all begun are finished in order; the loop ends with the script, with a quit, or where a string cannot be parsed, and then the lock is stuck |
| ScriptMeaning.PlayedOnce | bin/GeniusCtrl.py:362-403 | that description leaves nothing open: a script has one outcome |
| Replication.Follow | bin/GeniusCtrl.py:387-403 | the loop of the other processors, the reception of decks included, does what the follower's step function says; ReplicationTheorems.FollowersRunTheLoop makes every follower of the system its result |
| Replication.Invariant | bin/GeniusCtrl.py:362-403 | in every reachable state, also between a broadcast and the end of its do(): the log is the messages of the commands begun, one command is over before the next begins, nothing submitted is lost or reordered, and each follower is in step or met a command it could not repeat |
| ReplicationTheorems.FollowersRunTheLoop | bin/GeniusCtrl.py:387-403 | in every reachable state each follower is what the loop of the other processors makes of the broadcasts received so far |
| ReplicationTheorems.ScriptIsRun | bin/GeniusCtrl.py:362-403 | every script of the program loop is a run of the system, so all theorems about runs hold of the loop |
| ReplicationTheorems.ScriptTheorem | bin/GeniusCtrl.py:362-403 | both loops end to end: processor 0 does tick by tick what ScriptMeaning.Played says of the script; commands are finished in submission order; a processor that hears all broadcasts executes exactly the same commands and decks if and only if every deck run could be read; and it stops exactly under the condition of MissingDecks.QuitHeardExactly, or with harmless decks exactly if processor 0 does after an even number of missing decks |
| ReplicationTheorems.RunBoth | bin/GeniusCtrl.py:362-403 | the same of the two programs run one after the other on a new queue: the queue, the lock, the jobs and the finished commands come out as the script says, and both equivalences hold |
| MissingDecks.FollowerMeaning | bin/GeniusCtrl.py:387-403 | what one broadcast more does to another processor, in terms of parsing it: nothing once ended; the deck of the run-deck it waits for; else death, a wait for a deck, or a command executed, at which quit ends the loop |
| ReplicationTheorems.FaithfulExactly | bin/GeniusCtrl.py:385-403 | a follower has executed a prefix of what the leader has begun, decks included, if and only if those commands of the leader's were canonical and their decks were sent |
| ReplicationTheorems.ReplicationTheorem | bin/GeniusCtrl.py:385-403 | with canonical submissions and readable decks, in every reachable state every follower's executions are a prefix of the commands the leader has begun, at most one of them not yet finished there, and all there is once everything is received |
| ReplicationTheorems.ExecutionOrder | bin/GeniusCtrl.py:227-250 | commands begun followed by the queue are the submissions; events are set in that order, once each, whether or not do() raised, for all commands begun but one in progress |
| ReplicationTheorems.AcceptedUntilStuck | bin/GeniusCtrl.py:238-250 | the accepted commands are those of the submissions before the first that does not parse, in order |
| ReplicationTheorems.HeartbeatClock | bin/GeniusCtrl.py:363-381 | at most ten polls in a row pass silently, and idle polls and heartbeats keep the ratio eleven to one |
| ReplicationTheorems.NoLongSilence | bin/GeniusCtrl.py:363-381 | whatever happens in between, no eleven polls of an idle leader pass without a broadcast, as long as the lock is free |
| ReplicationTheorems.QuitIsFinal | bin/GeniusCtrl.py:394-396 | once quit is broadcast nothing more is broadcast or begun, and a stopped leader changes no more |
| ReplicationTheorems.FollowersStopTogether | bin/GeniusCtrl.py:394-396 | with canonical submissions and decks that are harmless where they are read as commands, in every reachable state no follower has died, and one has stopped if and only if it has received everything, quit included, and an even number of decks right before quit are missing; the leader has stopped when it has finished that quit |
| ReplicationTheorems.QuitHeard | bin/GeniusCtrl.py:184-194 | whatever the decks: a follower that has received everything up to quit has stopped if and only if it was not astray before, and one that died or stopped elsewhere was derailed |
| ReplicationTheorems.DecksSentSuffices | bin/GeniusCtrl.py:184-194 | where every deck was sent the conditions hold, with no deck missing before quit |
| MissingDecks.PhaseAfter | bin/GeniusCtrl.py:177-215 | after any broadcasts a follower is ready, waiting, stopped or dead as the commands taken one by one leave it |
| MissingDecks.HeardExactly | bin/GeniusCtrl.py:177-215 | for canonical commands short of quit: it is over exactly if a deck read as a command was a quit or unparsable, and otherwise waits exactly if the decks missing leave it astray |
| MissingDecks.QuitHeardExactly | bin/GeniusCtrl.py:394-396 | the leader's quit is received and obeyed if and only if the follower is neither derailed nor astray before it |
| MissingDecks.AstrayByCount | bin/GeniusCtrl.py:184-194 | with harmless decks a follower is never derailed, and astray exactly if the number of missing decks right before is odd |
| MissingDecks.OrdinaryDeckHarmless | bin/GeniusCtrl.py:39-47 | a deck that starts with no opcode is read as a nop and harmless |
| ReplicationTheorems.MissingDeckExample | bin/GeniusCtrl.py:184-194 | a run in which a missing deck makes the follower take quit for the deck and wait for ever |
| ReplicationTheorems.BoundedWaiting | bin/GeniusCtrl.py:362-385 | a submitted command is begun after as many rounds (the running command ends, the loop polls again) as there are commands up to it, unless the loop stopped or the lock is stuck |
| ReplicationTheorems.LockStuckExactly | bin/GeniusCtrl.py:243-250 | the lock is stuck if and only if some submitted string did not parse |
| ReplicationTheorems.LockedIsFinal | bin/GeniusCtrl.py:230-249 | with the lock stuck nothing is accepted or begun; the leader can only finish the command in progress |
| FilterIterator.FilterMeaning | include/base/variant_filter_iterator.h:352-356 | filtering yields exactly the satisfying positions, once each, in order |
| FilterIterator.VariantFilterIterator.constructor | include/base/variant_filter_iterator.h:357-366 | the new iterator has all satisfying entries ahead of it |
| FilterIterator.VariantFilterIterator.SatisfyPredicate | include/base/variant_filter_iterator.h:504-508 | skips only entries that fail, and never evaluates the predicate at the end |
| FilterIterator.VariantFilterIterator.Next | include/base/variant_filter_iterator.h:442-447 | drops the current entry and nothing else |
| FilterIterator.VariantFilterIterator.PostNext | include/base/variant_filter_iterator.h:452-458 | as Next, and returns a separate iterator at the old place |
| FilterIterator.VariantFilterIterator.VisitAll | include/base/variant_filter_iterator.h:442-469 | iterating to the end iterator visits exactly the filtered entries in order |
| FilterIterator.VisitRange | include/base/variant_filter_iterator.h:357-366 | iterating a whole range visits exactly the satisfying positions, in order |
| FilterIterator.EqualMeansSameRemaining | include/base/variant_filter_iterator.h:460-469 | iterators over one range are equal exactly if the same entries lie ahead |
| FilterIterator.EvaluateAll | include/base/multi_predicates.h:68-81 | the loop with early return computes the conjunction, each predicate evaluated only after all before it held |
| FilterIterator.ConjunctionMeaning | include/base/multi_predicates.h:68-81 | the conjunction holds exactly if every predicate does, and is defined exactly if each predicate is defined where all before it hold |
| FilterIterator.NotNullFirstIsSafe | include/base/multi_predicates.h:141-179 | with not_null first, any dereferencing predicates are safe on empty entries, which are left out |
| FilterIterator.WithoutNotNull | include/base/multi_predicates.h:197-206 | a list of dereferencing predicates without not_null in front is safe exactly on entries that point to an element |
| FilterIterator.SubdomainSafe | include/base/multi_predicates.h:197-206 | Subdomain itself is safe exactly on entries that point to an element, and then tests the subdomain |
| FilterIterator.VisitMatching | include/base/multi_predicates.h:68-179 | iterating a container with not_null followed by any dereferencing predicates visits exactly the non-empty entries with all the properties, in order |
| FilterIterator.VisitActive | include/base/multi_predicates.h:237-290 | the active elements of a processor and those of all others, as ActivePID and ActiveNotThisPid select them, each once and in order |
| FilterIterator.BoundarySides | include/geom/elem.h:2203-2281 | side iteration yields exactly the sides without neighbour, in order, and never looks up side n_neighbors |
| SortedIds.SortedUnique | include/geom/elem_ukey.h:84-104 | a multiset of ids has one sorted arrangement |
| ElemKeys.ComputeKey2 | include/geom/elem.h:2069-2080 | the exchange sorts, and the key is the key of the sorted nodes: as numbers, id i times 32 to the i in 32 bits, modulo 65449, summed |
| ElemKeys.ComputeKey3 | include/geom/elem.h:2084-2119 | the three-node network sorts distinct ids, and the key is the key of the sorted nodes: as numbers, id i times 32 to the i in 32 bits, modulo 65449, summed |
| ElemKeys.ComputeKey4 | include/geom/elem.h:2123-2150 | the four-node network sorts distinct ids, and the key is the key of the sorted nodes: as numbers, id i times 32 to the i in 32 bits, modulo 65449, summed |
| ElemKeys.Key | src/geom/elem.cc:322-338 | the key of an edge, triangle or quadrilateral, in plain arithmetic on its sorted ids |
| ElemKeys.SmallEdgeKeys | include/geom/elem.h:2069-2080 | two edges between ids below 2045 have equal keys if and only if n0 + 32*n1 agree |
| ElemKeys.KeysAgree | include/geom/elem.h:2069-2150 | two elements on the same nodes get the same key from compute_key, however each numbers them |
| ElemKeys.ElemsEqual | include/geom/elem.h:197-221 | true exactly if both elements have the same nodes as multisets |
| ElemKeys.ElemKey.FromElem | include/geom/elem_ukey.h:84-89 | the key holds the sorted node ids |
| ElemKeys.ElemKey.FromLocal | include/geom/elem_ukey.h:99-104 | the key holds the sorted ids of the chosen nodes |
| ElemKeys.Equal | include/geom/elem_ukey.h:138-149 | true exactly if the keys hold the same vertices |
| ElemKeys.EqualKeysMeanEqualElems | include/geom/elem_ukey.h:40-46 | whole-element keys are equal if and only if operator== holds |
| ElemKeys.Less | include/geom/elem_ukey.h:151-162 | the shorter key is less, and among equally long ones the first difference decides |
| ElemKeys.PrecedesTrichotomy | include/geom/elem_ukey.h:151-162 | irreflexive, asymmetric, and incomparable exactly for equal keys |
| ElemKeys.PrecedesTransitive | include/geom/elem_ukey.h:151-162 | transitive, for keys of any length |
| ElemHash.Hash | include/geom/elem_ukey.h:107-136 | the nested loops compute the one-at-a-time hash of all bytes, the four base-256 digits of each id in turn (BytesAreDigits) |
| ElemHash.BytesAreDigits | include/geom/elem_ukey.h:120-129 | the bytes mixed for an id are its base-256 digits, lowest first, and no other four numbers are |
| ElemHash.KnownHashes | include/geom/elem_ukey.h:107-136 | two hash values worked out in full |
| ElemHash.MixUndone | include/geom/elem_ukey.h:125-127 | mixing a byte loses nothing: state plus byte can be recovered |
| ElemHash.FinishUndone | include/geom/elem_ukey.h:131-133 | the final avalanche is invertible |
| ElemHash.HashesAgree | include/geom/elem_ukey.h:40-136 | operator==, equality of the whole-element keys and their hash are consistent: the keys are equal if and only if the elements are, and then Hash returns the same |
| ElemHash.OneByteNeverCollides | include/geom/elem_ukey.h:107-136 | keys that agree in all ids but one, and there differ in one base-256 digit, never collide |
| PatternMatch.StringPatternMatch | examples/Material/parser_parameter.cc:110-130 | exact matches succeed unchanged; otherwise it succeeds exactly if the least extension is not extended by its successor; s ends, found or not, as the last of the run of patterns from the least extension on in which each extends the one before; and where one pattern only extends s, that is the result |
| PatternMatch.LexMeaning | examples/Material/parser_parameter.cc:120-124 | the order of the set: a proper prefix first, otherwise the first difference decides |
| PatternMatch.CompletesPlainly | examples/Material/parser_parameter.cc:120-126 | what succeeds, in terms of prefixes only: some pattern extends s, none before it does, and none after it extends that pattern |
| PatternMatch.NothingAfterRun | examples/Material/parser_parameter.cc:120-124 | where the next pattern does not extend one, no later pattern does |
| PatternMatch.SuccessorDecides | examples/Material/parser_parameter.cc:120-126 | if any later pattern extends the least extension, the next one does |
| PatternMatch.UniqueBySuccessor | examples/Material/parser_parameter.cc:125-126 | the next pattern tells whether the extension is the only one |
| PatternMatch.UniqueIsCompleted | examples/Material/parser_parameter.cc:117-126 | a single extending pattern is always found |
| PatternMatch.UniquenessCheckExact | examples/Material/parser_parameter.cc:123-126 | the uniqueness check is right if and only if a second extension, where there is one, extends the first |
| PatternMatch.AmbiguousAccepted | examples/Material/parser_parameter.cc:123-126 | an ambiguous abbreviation that is accepted |
| Interpolation.Interpolate | include/geom/elem.h:635-647 | the weighted mean, between every lower and upper bound of the nodal values; with two nodes, in coordinates, each value counts in proportion to the other node's squared distance plus 1e-6 |
| Interpolation.LengthLaws | include/math/type_vector.h:883-886 | squared length is the square on each axis, adds up over the axes, and vanishes at the origin only |
| Interpolation.DifferenceLaws | include/geom/elem.h:641 | the squared distance is symmetric and 0 for equal points only, and adding the difference leads back |
| Interpolation.ConstantReproduced | include/geom/elem.h:635-647 | constant data is reproduced exactly at every point |
| Interpolation.MeanIgnoresOrder | include/geom/elem.h:635-647 | the result does not depend on the order of the nodes |
| Interpolation.TakeOut | include/geom/elem.h:637-646 | taking any one node out takes its weight and its weighted value out of the two sums |
| Interpolation.InverseDistance | include/geom/elem.h:641-645 | weights are inversely proportional to squared distance plus 1e-6, nearer nodes weigh more, and a node at the point weighs 1e6 |
| Interpolation.MeanOfAffine | include/geom/elem.h:635-647 | scaling and shifting the data scales and shifts the result |

## Left out

- Floating point: the spline and the interpolation are over exact reals, so rounding, overflow and NaN are not modelled.
- Spline tables with fewer than two rows or repeated abscissae, for which the source reads out of bounds or divides by zero.
- std::sort and std::set: a specified sort function and a strictly ordered sequence stand for them.
- MeshRefinement.RefineElem: requires an element without children; the source also refines an active element whose children still wait for contract, which is not part of this model.
- MeshRefinement.CoarsenElem: coarsening and contraction are one step, and node positions are not computed.
- Node coordinates, embedding matrices and node sharing of refinement and coarsening; only the tree, the flags and the ids are modelled.
- The p level bound check compiled in only for debugging: the model follows the build without it.
- Atomicity: taking a command from the queue and broadcasting it are one step, and so are a follower's reception of a command and its execution.
- What do() does besides broadcasting a deck: it is a step that may raise an exception caught by the loop; exceptions the loop does not catch are not modelled.
- CommandLoop.GeniusCtrl.Run: a script has its submissions between iterations; one that arrives during do() is the same as one before the next iteration, since only getCmd looks at the queue. The system of `Replication` allows them at any point.
- The checks of run for a missing queue and for queue entries that are not commands, which the types rule out here.
- ElemTree.Elem.WhichNeighborAmI: the abort of the program for an element that is no neighbour is the result None.
- CmdRunPython, which is not among the valid commands, and commands whose argument is None.
- The heap layout of iterators and predicates (cloning, polymorphic pointers, assignment of compound predicates): positions and partial functions stand for them.
- ElemHash.OneByteNeverCollides: says nothing about keys that differ in more than one byte, which can collide.
- ElemKeys.Key: the keys of volume elements, which are sums of side keys, are not part of this model.
- The 1-node compute_key, the setters of Parameter, and the printing of keys, which would add only easy members.
- HTTP front end, MPI, PETSc, deck execution, logging and the boundary condition and finite element headers.
