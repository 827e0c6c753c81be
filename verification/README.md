# A model of netalgo's graph store, query language and reachability labels

These Dafny modules model the parts of the repository that carry an algorithm, and
prove what each of them promises.  `dafny verify dfyconfig.toml` checks all of them.

* **Reachability labels** (`Paths`, `Numbering`, `Tarjan`, `Condensation`, `Topological`,
  `Folding`, `Labels`, `Passes`, `TfLabel`, `Pipeline`): compression of the input numbers,
  strongly connected components, their condensation, levels by longest paths, and
  topological folding in rounds.  The main results are `Tarjan.SccFinder.FindScc`,
  `Topological.Toposort`, `TfLabel.Folder.Round`, `TfLabel.Folder.Construct` and, from the
  pairs in the file to the labels, `Pipeline.BuildIndex`.  It says which questions the index
  is sure to answer, and which it is sure to miss: the index is truthful, but not complete.
* **The store** (`MruMap`, `Index`, `Batches`, `CachedSteps`, `LossyRuns`, `Store`): in- and
  out-indexes behind two bounded caches, with writes collected in batches.  `Index` says
  what an operation does to the stored form, and `Index.RunExact` is the invariant over
  every run.  `Batches` and `CachedSteps` say what the same operations do behind the caches:
  `CachedSteps.ExactIffLossless` is the exact condition under which they are right, and
  `LossyRuns.RunLoses` a run for every cache size from nineteen on that loses an edge.  The
  class in `Store` reads and writes as the original does, and follows that state machine.
* **Path queries** (`Planner`, `PlanOrder`, `Backtracking`, `Visits`, `Matching`,
  `Enumeration`, `SafePlans`, `Failures`, `QueryEngine`, `StoredQuery`): the plan, the
  recursive search for the first match, the step from one match to the next, and the
  assertions that fail on the way.  `QueryEngine.Run` is exact about both for plans that are
  not safe, too.  `QueryEngine.Query` is the result over a whole run,
  `SafePlans.ExactIffNear` says for which patterns it holds, and `StoredQuery.QueryAfterRun`
  that it holds on the store after any run, removals included.
* **The query language** (`Lexer`, `Lexemes`, `Spelling`, `Parser`, `Grammar`, `CutOff`,
  `MissingNode`, `QueryText`, `Pattern`): a stream lexer and a recursive-descent parser, each
  with a writer and a round trip.  `Lexemes.TokensExact` and `Grammar.ParserExact` say exactly
  which texts are read as which tokens and which tokens as which sentence,
  `QueryText.TextExact` puts both together, and `CutOff.TextUndefined` and
  `MissingNode.TextMissing` tell the kinds of failure apart.

`Options` holds the optional value that several modules use.

Where the code differs from what it seems to be meant for, the model follows the code:

* A node that is derived from the edge on its right gets the wrong end of that edge
  (`include/backend/leveldbgraph_iterator.inc:703-720`), and a directly named node cannot
  be checked against the edge on its left (`include/backend/leveldbgraph_iterator.inc:452`
  asks for the edge number of a node, against the assertion at
  `include/backend/leveldbgraph_deduction.inc:25`).  A plan that needs neither is called
  safe.  `SafePlans.UnsafeMisses` gives, for every other plan, a database with a match
  that is not found; `SafePlans.ExactIffSafe` and `SafePlans.ExactIffNear` give the exact
  condition.  `QueryEngine.Query` and `Enumeration.AllMatches` therefore ask for a safe
  plan, while the constructor and `SearchPossible` are proved for all plans, and `Run` and
  the step to the next match for all plans without a node that is derived from both sides.
  For all of them the flag for a failed assertion is set exactly if `Failures.Fails` holds of
  a step and of choices that the search has come to.
* Removing an edge or a node leaves edge records behind
  (`include/backend/leveldbgraph.hpp:651-699`), and a named edge is looked up by its record.
  In a safe plan a named edge is always checked against the index on its left
  (`Planner.SafeAnchored`, `Matching.SafeIsSure`), so that no match contains a removed edge.
* The constrained node cases of `findNextPossible` leave the switch and run off the end
  of the function (`include/backend/leveldbgraph_iterator.inc:769-787`); this is read as
  returning true.
* A live edge that is set again with another end leaves a stale index entry behind
  (`Index.SetEdgeExact`); the conditions on callers in `Index.Allowed` are these.
* An entry that is evicted while its write waits in a batch is read back from the database
  without that write.  `Batches.BatchExact` and `CachedSteps.ExactIffLossless` say exactly
  which bundles and node removals this spoils: those in which an update that makes a
  difference is followed by one of the same node that finds it evicted, and is not repeated
  later.  Operations on cached nodes, or with room for the others, are never among them.
* The reference returned by the index operator of the cache is dangling if the clean-up
  removes the new entry (`include/typedmrumap.hpp:161-163`).  `MruMap.Assignable` is the
  exact condition under which it is not, and all that `Store` asks of its callers.  The count
  of insertions never falls, so that past the bound each new key costs nine cached ones
  (`Batches.OverflowBudget`) until no uncached node can be updated any more
  (`Batches.DrainedForGood`).
* The closure loop runs over positions of `order` and uses them as vertex numbers
  (`include/algorithm/tflabel.hpp:483-497`).  It is modelled so, and shown to be harmless.
* `getId` takes the first property called id, whatever its operator, and strips two
  characters from numbers too (`Pattern.NameLookedUp`, `Pattern.WrongName`).
* The parser reads the front of the queue in places where it may be empty; these reads
  are the error `Undefined`.  So not every text is parsed or rejected with an exception: the
  empty one is neither (`CutOff.EmptyText`), and `CutOff.UndefinedExact` says which token
  lists are not.  An edge may be a single dash, and the first returned name is not checked.

## Model

| member | source | states |
|---|---|---|
| `Tarjan.SccFinder.FindScc` | `include/algorithm/tflabel.hpp:151-158` | from all-zero `pre` and an empty stack: two vertices get the same number iff each reaches the other, the numbers used are exactly 1..`sccCnt`, no edge goes to a larger number, the stack is empty again |
| `Tarjan.SccFinder.Dfs` | `include/algorithm/tflabel.hpp:118-149` | the call numbers its vertex next, keeps the search invariant and everything below the old stack, and either closes the component, with the stack as before, or leaves a vertex that it reaches lower on the stack as the witness of `lowlink` |
| `Tarjan.SccFinder.CloseRoot` | `include/algorithm/tflabel.hpp:137-148` | at `lowlink == pre` exactly the vertices above `u` on the stack, which are mutually reachable and closed under edges, become the next component |
| `Tarjan.RootClosed` | `include/algorithm/tflabel.hpp:137-147` | closing a root turns the search invariant with the root open into the one with its component numbered and the old stack back |
| `Tarjan.TopMutual` | `include/algorithm/tflabel.hpp:137-147` | the vertices from the root up on the stack reach each other |
| `Tarjan.AllFinished` | `include/algorithm/tflabel.hpp:151-158` | when every vertex is visited and none is open, the numbering is the partition into strongly connected components |
| `Condensation.Condense` | `include/algorithm/tflabel.hpp:216-233` | the adjacency lists built from the components hold, in order and with repeats, one entry for each edge between different components, and `fa` is the identity |
| `Condensation.EdgesDescend` | `include/algorithm/tflabel.hpp:137-147` | every edge of the condensation goes from a larger to a smaller component number |
| `Condensation.CondensationAcyclic` | `include/algorithm/tflabel.hpp:216-228` | so the condensation has no cycle, which is what the topological sort needs |
| `Condensation.CondensationReach` | `include/algorithm/tflabel.hpp:216-228` | one component reaches another in the condensation iff its vertices reach the other's in the input graph |
| `Topological.Toposort` | `include/algorithm/tflabel.hpp:237-291` | on an acyclic graph with repeated edges: no vertex is dequeued twice, and all of them are iff the graph is acyclic; then all counters end at zero; `tln[v]` is the number of vertices on a longest path ending at `v`; `maxx` is their maximum, or 0 if no level is above 1 |
| `Topological.Relax` | `include/algorithm/tflabel.hpp:265-280` | one round of the queue keeps the working invariant: counters count the pending edges, levels are longest paths over the edges already taken |
| `Topological.Drained` | `include/algorithm/tflabel.hpp:265-291` | when the queue is empty, everything has been dequeued iff the graph has no cycle |
| `Topological.BackwardCycle` | `include/algorithm/tflabel.hpp:237-291` | if every vertex of a nonempty finite set has a predecessor in the set, the graph has a cycle |
| `Topological.DistinctBound` | `include/algorithm/tflabel.hpp:237-291` | a path longer than the number of vertices repeats a vertex |
| `Folding.SplitOutReach` | `include/algorithm/tflabel.hpp:351-380` | replacing far edges of a vertex by edges through a new dummy leaves reachability among the old vertices as it was, in both directions |
| `Folding.SplitInReach` | `include/algorithm/tflabel.hpp:393-426` | the same for the dummy below a vertex |
| `Folding.BridgeReach` | `include/algorithm/tflabel.hpp:438-477` | joining all predecessors of a removed vertex with all its successors leaves reachability among the remaining vertices as it was, in both directions |
| `Folding.SplitOutTight` | `include/algorithm/tflabel.hpp:351-380` | after pass a at an odd vertex its edges go exactly one level up |
| `Folding.SplitInTight` | `include/algorithm/tflabel.hpp:393-426` | after pass b at an odd vertex its edges come from exactly one level below |
| `Folding.SplitInKeepsOut` | `include/algorithm/tflabel.hpp:393-426` | pass b at one vertex does not undo what pass a achieved at the others |
| `Folding.LowerNeighbour` | `include/algorithm/tflabel.hpp:337-428` | after pass a an edge into an odd level either comes from the level below or from an even one, so no edge joins two odd levels |
| `Folding.BridgeLevels` | `include/algorithm/tflabel.hpp:432-477` | bridging over an odd vertex keeps edges rising and the other odd vertices tight on both sides, and no edge touches the removed vertex |
| `Passes.EndC` | `include/algorithm/tflabel.hpp:429-481` | at the end of pass c exactly the even vertices are left, on half their levels, with rising edges, the old reachability, sound labels and every removed vertex in `order` |
| `Labels.SoundGrow` | `include/algorithm/tflabel.hpp:442-461` | label growth at a vertex keeps every in-label entry reachable from, and every out-label entry reaching, the vertex it stands for |
| `Labels.SoundClose` | `include/algorithm/tflabel.hpp:482-498` | the closure step at any index, which need not be the index of a removed vertex, keeps the labels sound |
| `Labels.LabelsWitness` | `include/algorithm/tflabel.hpp:330-333` | if the in-label of one vertex meets the out-label of another, the first reaches the second |
| `Labels.RoundsSuffice` | `include/algorithm/tflabel.hpp:281-335` | halving `maxx` for floor(log2 maxx)+1 rounds ends at 0, and one round fewer leaves 1 |
| `Labels.OrderFits` | `include/algorithm/tflabel.hpp:334-335` | the removed vertices never outnumber the vertices there are, so the closure loop stays within the label arrays |
| `TfLabel.Folder.SplitAbove` | `include/algorithm/tflabel.hpp:342-380` | the loop of pass a at one vertex adds one dummy, if any far edge exists, and moves all far edges to it, in whatever order the edges come |
| `TfLabel.Folder.SplitBelow` | `include/algorithm/tflabel.hpp:389-426` | the loop of pass b at one vertex, for edges from even vertices far below |
| `TfLabel.Folder.RemoveOdd` | `include/algorithm/tflabel.hpp:438-478` | the body of pass c at an odd vertex: labels of both sides, bridging edges, removal, and its place in the order |
| `TfLabel.Folder.PassA` | `include/algorithm/tflabel.hpp:337-383` | a scan of a store that grows meanwhile visits every odd vertex; afterwards edges leave odd levels one level up and old vertices reach each other as before |
| `TfLabel.Folder.PassB` | `include/algorithm/tflabel.hpp:385-428` | afterwards also edges into odd levels come from one level below, with reachability unchanged |
| `TfLabel.Folder.PassC` | `include/algorithm/tflabel.hpp:430-481` | while the scan removes vertices: exactly the even ones remain, levels halved, reachability among them unchanged |
| `TfLabel.Folder.CloseLabels` | `include/algorithm/tflabel.hpp:482-498` | for every position and every entry that the label of this position had before, all that the label of that entry had before is in the label of this position afterwards; the closure is exactly the one that goes from the last position down; labels stay sound, lose nothing, and stranded vertices stay so |
| `Labels.ClosedBrings` | `include/algorithm/tflabel.hpp:482-498` | the closure from the last position down brings, for every entry of a label, that entry's old label along, although it uses labels that are closed already |
| `Labels.AnswersStay` | `include/algorithm/tflabel.hpp:335-514` | what the labels answer at some point of the construction they answer at all later ones |
| `Labels.EdgeAnswered` | `include/algorithm/tflabel.hpp:442-498` | an edge whose levels meet is noted in the label of its lower or its upper end, and answered |
| `Labels.ChainAnswered` | `include/algorithm/tflabel.hpp:442-498` | two edges one behind the other whose levels meet are answered as one, unless the levels meet below the middle vertex with an even and above it with an odd lower end; for two of the same kind it is the closure that brings the answer |
| `Labels.StrandedLost` | `include/algorithm/tflabel.hpp:312-531` | a vertex that is stranded while it is folded is answered for itself only |
| `TfLabel.Folder.Relabel` | `include/algorithm/tflabel.hpp:499-514` | replacing entries by the vertices they stand for changes nothing, since the closed labels hold original vertices only |
| `TfLabel.Folder.Round` | `include/algorithm/tflabel.hpp:335-514` | a whole round: survivors are the even vertices on half their levels, and for any two survivors one reaches the other afterwards iff it did before; labels stay sound and lose nothing, and the round ends with a closure of all labels |
| `TfLabel.Folder.Construct` | `include/algorithm/tflabel.hpp:312-531` | after the rounds the working graph is empty, every vertex, dummies included, has been removed exactly once, the labels are sound for the initial graph; edges whose levels meet are answered, and so are the ends of two of them one behind the other of the same kind; a vertex all of whose edges miss their upper ends is answered for itself only |
| `Pipeline.Preprocess` | `include/algorithm/tflabel.hpp:107-112` | levels by longest paths followed by the construction satisfy all of the above for every acyclic graph with an edge |
| `Numbering.Compress` | `include/algorithm/tflabel.hpp:167-193` | the vertices stand for the different numbers in the file, in ascending order, and one has an edge to another iff the file has that pair |
| `Numbering.NumberingReach` | `include/algorithm/tflabel.hpp:167-193` | vertices reach each other in the compressed graph iff their numbers do along the pairs of the file |
| `Pipeline.Read` | `include/algorithm/tflabel.hpp:194-233` | components and condensation of any compressed graph |
| `Pipeline.BuildIndex` | `include/algorithm/tflabel.hpp:107-235` | from the pairs in the file, of which one leads out of a component, through all phases: if the labels of two numbers meet, the file has a way from the first to the second; they do meet within a component and along a pair whose levels meet; and for a number whose component's edges all miss their upper ends they meet within the component only |
| `Pipeline.LevelsRise` | `include/algorithm/tflabel.hpp:273-274` | longest-path levels are at least 1 and strictly rise along edges, which is what folding starts from |
| `Pipeline.IndexIsTruthful` | `include/algorithm/tflabel.hpp:161-235` | end to end: if the labels of the components of two input vertices meet, the first reaches the second in the input graph |
| `Pipeline.IndexAnswers` | `include/algorithm/tflabel.hpp:312-531` | within a component, and along edges whose levels meet in some round, the labels do meet |
| `Pipeline.GapUnanswered` | `include/algorithm/tflabel.hpp:312-531` | so the index is not complete: in a chain of three vertices with an edge from a fourth vertex to the last, no run of the construction answers that edge |
| `MruMap.TypedMRUMap.ClearNotUsedCache` | `include/typedmrumap.hpp:76-90` | removes exactly the min(10, size) keys with the oldest stamps, and nothing else |
| `MruMap.TypedMRUMap.Insert` | `include/typedmrumap.hpp:92-120` | an absent key gets the newest stamp; over the bound the ten oldest go; the size stays within the bound and the insert count; retained values agree with an unbounded map; the new key survives iff no pass is made or at least ten others are present |
| `MruMap.TypedMRUMap.Find` | `include/typedmrumap.hpp:122-139` | a hit returns the stored value and makes its key the newest; a miss changes nothing |
| `MruMap.TypedMRUMap.Assign` | `include/typedmrumap.hpp:156-167` | assignment through the index operator: the new value is there; with a key that was present all stamps and counts stay; a new key gets the newest stamp, the others that are left keep theirs, and the size grows by one or, past the bound, falls by nine |
| `MruMap.NewEntry` | `include/typedmrumap.hpp:92-167` | entries, stamps and size after an assignment to a new key |
| `MruMap.AssignableStays` | `include/typedmrumap.hpp:76-120` | the new key survives its own insertion iff there is room or at least ten keys are present |
| `MruMap.OldestCount` | `include/typedmrumap.hpp:76-90` | with different stamps there are as many oldest keys as asked for, or all |
| `MruMap.OverflowShrinks` | `include/typedmrumap.hpp:92-120` | past its bound the cache loses nine of its keys with each new key |
| `MruMap.NewestEvicted` | `include/typedmrumap.hpp:76-90` | the newest key is among the evicted iff at most ten keys are present |
| `MruMap.OldestUnique` | `include/typedmrumap.hpp:76-90` | the set of the n oldest keys is unique, so the eviction is determined by the stamps |
| `Index.SetEdgeExact` | `include/backend/leveldbgraph.hpp:472-500` | setting an edge between stored nodes keeps both indexes exact iff a live edge of that id keeps its ends; otherwise the old end keeps a stale entry |
| `Index.SetEdgesExact` | `include/backend/leveldbgraph.hpp:532-561` | a bundle of storable edges keeps the indexes exact |
| `Index.RemoveEdgeExact` | `include/backend/leveldbgraph.hpp:639-699` | removing an edge takes it out of both indexes although its record stays |
| `Index.RemoveNodeExact` | `include/backend/leveldbgraph.hpp:594-614` | removing a node with its two passes over in- and out-edges, self-loops included, leaves the indexes of all other live nodes exact |
| `Index.RunExact` | `include/backend/leveldbgraph.hpp:426-699` | after every run of allowed operations the in- and out-index of every stored node are exactly its live edges |
| `Batches.WrittenMember` | `include/backend/leveldbgraph.hpp:366-404` | an edge is in the index after a batch iff an update of it survived that adds it, or none survived and it was stored before |
| `Batches.BatchExact` | `include/backend/leveldbgraph.hpp:532-561` | a batch amounts to its updates one after the other iff each update survives eviction, perhaps as a repetition, or makes no difference |
| `Batches.NoneRereadSuffices` | `include/backend/leveldbgraph.hpp:532-561` | so it does if no node written in the batch is evicted and looked up again |
| `Batches.FitsSuffices` | `include/backend/leveldbgraph.hpp:532-561` | a batch over cached nodes, or with room for its other nodes, meets no dangling reference and rereads no evicted node |
| `Batches.OverflowBudget` | `include/typedmrumap.hpp:92-167` | past the bound each update of an uncached node costs nine cached ones, so that fewer than a ninth of the cached nodes' number of them are possible |
| `Batches.DrainedForGood` | `include/typedmrumap.hpp:92-167` | with fewer than ten nodes left, a batch can be executed iff all its nodes are cached |
| `Batches.LapLoses` | `include/backend/leveldbgraph.hpp:532-561` | in an overflowed cache, a batch over all cached nodes, then a new one, then the first again loses its first update; with nineteen cached nodes no reference dangles |
| `Batches.FillsUp` | `include/typedmrumap.hpp:92-167` | updates of as many different nodes as a new cache has room for bring it into that state |
| `CachedSteps.BundleIdeal` | `include/backend/leveldbgraph.hpp:532-561` | the updates of a bundle one after the other are the bundle's effect on both indexes |
| `CachedSteps.OutReadEnough` | `include/backend/leveldbgraph.hpp:604-610` | the second pass of a node's removal, which reads the out-set again behind the first, misses no edge to another node, whether the entry was evicted or not |
| `CachedSteps.StepIffLossless` | `include/backend/leveldbgraph.hpp:472-699` | behind the caches an allowed operation is its step of the specification iff no update is lost |
| `CachedSteps.ExactIffLossless` | `include/backend/leveldbgraph.hpp:472-699` | it leaves the indexes exact iff no update is lost |
| `CachedSteps.RoomSuffices` | `include/backend/leveldbgraph.hpp:472-699` | an operation on cached nodes, or with room for the others, can be executed and loses nothing |
| `CachedSteps.RunsExact` | `include/backend/leveldbgraph.hpp:426-699` | after any run behind the caches in which no update is lost, the indexes are exact |
| `LossyRuns.RunLoses` | `include/backend/leveldbgraph.hpp:532-561` | for every cache size from nineteen on: a run of nodes and two bundles, all allowed and without a dangling reference, after which a live edge is not in the index of its source |
| `Store.LevelDbGraph.GetOutEdge` | `include/backend/leveldbgraph.hpp:285-302` | the cached entry, or else the stored one; a hit is the newest key now; between operations it is the out-index of the database |
| `Store.LevelDbGraph.GetInEdge` | `include/backend/leveldbgraph.hpp:263-281` | the same for the in-index |
| `Store.LevelDbGraph.SetOutEdge` | `include/backend/leveldbgraph.hpp:387-404` | appends to the batch, and puts the entry into the cache, from which exactly the determined keys are evicted |
| `Store.LevelDbGraph.SetInEdge` | `include/backend/leveldbgraph.hpp:366-383` | the same for the in-index |
| `Store.LevelDbGraph.UpdateOutEdge` | `include/backend/leveldbgraph.hpp:483-486` | looking up, changing and setting an entry is one update of the batch as `Batches` describes it, hit or miss |
| `Store.LevelDbGraph.SetNode` | `include/backend/leveldbgraph.hpp:426-434` | stores the record and nothing else |
| `Store.LevelDbGraph.SetEdge` | `include/backend/leveldbgraph.hpp:472-500` | the step of the state machine, database and both caches; the caches agree with the database afterwards |
| `Store.LevelDbGraph.SetEdgesBundle` | `include/backend/leveldbgraph.hpp:532-561` | the step of the state machine for any bundle without a dangling reference, lossy or not; the caches agree with the database afterwards |
| `Store.LevelDbGraph.RemoveEdge` | `include/backend/leveldbgraph.hpp:639-699` | the step of the state machine |
| `Store.LevelDbGraph.RemoveNode` | `include/backend/leveldbgraph.hpp:594-614` | the step of the state machine with both passes in one batch, in the order in which the sets are iterated |
| `Store.LevelDbGraph.Execute` | `include/backend/leveldbgraph.hpp:426-699` | any list of operations leads where the state machine leads |
| `Store.RunAndRead` | `include/backend/leveldbgraph.hpp:263-302` | a new store after any operations in which no update is lost: the sets read for a stored node are its live edges |
| `Planner.AddToDeductionSteps` | `include/backend/leveldbgraph_deduction.inc:100-142` | fills a gap alternately from both ends, with the constraint of each step |
| `Planner.GenerateDeductionSteps` | `include/backend/leveldbgraph_deduction.inc:144-185` | the direct steps and then the gaps give the plan whose order `PlanOrder` states by positions and whose flags the lemmas below are about |
| `PlanOrder.NamedFirst` | `include/backend/leveldbgraph_deduction.inc:151-172` | the step for a named position comes behind as many steps as there are named positions before it: the direct steps come first, in ascending order |
| `PlanOrder.GapOrder` | `include/backend/leveldbgraph_deduction.inc:100-185` | behind them come the gaps from left to right; in the gap between l and r, step j is for l+j/2+1 if j is even and for r-j/2-1 if it is odd |
| `PlanOrder.NothingNamed` | `include/backend/leveldbgraph_deduction.inc:100-185` | without named positions step 2i is for position i and step 2i+1 for the position that is i places from the right end |
| `Planner.PlanExact` | `include/backend/leveldbgraph_deduction.inc:144-185` | the plan visits each position once, and flags a step left (right) iff its left (right) neighbour was visited before |
| `Planner.PlanLength` | `include/backend/leveldbgraph_deduction.inc:144-185` | the plan has as many steps as the pattern has positions |
| `Planner.PlanShape` | `include/backend/leveldbgraph_deduction.inc:144-185` | direct steps come first and are the named positions; an unconstrained other step is for a node |
| `Planner.EachPairOnce` | `include/backend/leveldbgraph_deduction.inc:100-185` | each pair of neighbours is checked at exactly one of its two steps, the later one |
| `Planner.GapStepExact` | `include/backend/leveldbgraph_deduction.inc:100-142` | the flags inside a gap are right for every gap and every step, both ends of the pattern included |
| `Planner.SafeAnchored` | `include/backend/leveldbgraph_deduction.inc:144-185` | in a safe plan every named edge is checked against the node on its left |
| `Planner.PlanSafe` | `include/backend/leveldbgraph_deduction.inc:144-185` | a plan asks for no node from the right and for no direct node check from the left iff the named positions are close together as `SafeGap` says |
| `Matching.CandsMeaning` | `include/backend/leveldbgraph_iterator.inc:1173-1360` | for a step of a safe plan the elements tried are exactly the stored nodes or live edges that fit the position and belong to the neighbours it is flagged for, although records of removed edges are tried as well |
| `Matching.SafeIsSure` | `include/backend/leveldbgraph_deduction.inc:144-185` | a plan is safe iff in addition it checks every named edge against the index, which sorts out removed ones |
| `Matching.PartialNext` | `include/backend/leveldbgraph_iterator.inc:1173-1360` | filling in an element continues a partial match iff it is a candidate |
| `Matching.StepsArePlan` | `include/backend/leveldbgraph_deduction.inc:144-185` | the planner's steps suit the search: every position once, neighbours exactly flagged, edges never unconstrained |
| `Backtracking.PrefixesOrdered` | `include/backend/leveldbgraph_iterator.inc:1173-1360` | candidates in rank order make the results come in lexicographic order |
| `Backtracking.Locate` | `include/backend/leveldbgraph_iterator.inc:746-985` | every prefix of the next length comes from one shorter prefix and one candidate, at a known offset |
| `Visits.OccursFirst` | `include/backend/leveldbgraph_iterator.inc:1173-1260` | a search for the first result goes on to later candidates iff the earlier ones lead to nothing |
| `Visits.MetParent` | `include/backend/leveldbgraph_iterator.inc:746-985` | what a run has met on the way to a prefix is what it has met on the way to the shorter prefix, and at the step in between |
| `Visits.MetInTheEnd` | `include/backend/leveldbgraph_iterator.inc:169-258` | by its end a run has met every event at every prefix |
| `Enumeration.PrefixesPartial` | `include/backend/leveldbgraph_iterator.inc:1173-1360` | the choices for the first k steps are exactly the partial matches on them |
| `Enumeration.CandsRise` | `include/backend/leveldbgraph_iterator.inc:1225-1360` | candidates for a step come in the order of the store, for all kinds of steps |
| `Enumeration.AllMatches` | `include/backend/leveldbgraph_iterator.inc:169-258` | for a safe plan the choices lead to exactly the matches of the pattern among stored nodes and live edges, each once, in the lexicographic order of the plan |
| `SafePlans.UnsafeMisses` | `include/backend/leveldbgraph_iterator.inc:701-720` | for every pattern with an unsafe plan there is a database with a match on which the search finds nothing |
| `SafePlans.ExactIffSafe` | `include/backend/leveldbgraph_iterator.inc:442-455` | the engine is right about a pattern on every database iff its plan is safe |
| `SafePlans.ExactIffNear` | `include/backend/leveldbgraph_deduction.inc:144-185` | so it is right iff the named positions of the pattern are close together |
| `QueryEngine.PathIterator.SearchPossible` | `include/backend/leveldbgraph_iterator.inc:1173-1360` | for every plan: `found` is set iff the choices made so far lead to a result, and then the first one has been filled in; an assertion has failed iff one fails on the way to that result, or anywhere ahead if there is none |
| `QueryEngine.PathIterator.CheckLeftConstrained` | `include/backend/leveldbgraph_iterator.inc:422-463` | an edge is checked against the index of its left node; for a node the edge number asked for is that of the node and an assertion fails |
| `QueryEngine.PathIterator.CheckRightConstrained` | `include/backend/leveldbgraph_iterator.inc:498-538` | an edge against its right node, a node against the edge on its right |
| `QueryEngine.PathIterator.CheckDirect` | `include/backend/leveldbgraph_iterator.inc:1185-1200` | a named element passes iff it is a candidate of its step, and an assertion fails iff it is a node with the properties asked for whose left neighbour has been visited |
| `QueryEngine.PathIterator.NodeFromRightEdge` | `include/backend/leveldbgraph_iterator.inc:701-720` | yields the far end of the edge, not the end at this node |
| `QueryEngine.PathIterator.NodeFromLeftEdge` | `include/backend/leveldbgraph_iterator.inc:656-675` | yields the end of the edge at this node |
| `QueryEngine.PathIterator.FindNextPossible` | `include/backend/leveldbgraph_iterator.inc:746-985` | from the prefix number j of the plan to number j+1, rebuilt from the current elements, or false iff there is none; an assertion has failed iff one fails on the way to number j+1 |
| `QueryEngine.PathIterator.NextNode` | `include/backend/leveldbgraph_iterator.inc:763-778` | the loops for a node that depends on the edge on its left, or on its right, with the end that the code takes |
| `QueryEngine.PathIterator.NextInList` | `include/backend/leveldbgraph_iterator.inc:788-983` | the loops that go on after the current element of a scan, an index entry or an intersection, and start over for the next shorter prefix |
| `QueryEngine.PathIterator.constructor` | `include/backend/leveldbgraph_iterator.inc:169-185` | the iterator starts at the first result, or at the end iff there is none, for every plan; an assertion has failed iff one fails on the way there |
| `QueryEngine.PathIterator.Advance` | `include/backend/leveldbgraph_iterator.inc:223-233` | ++ goes to the next result or to the end, and throws iff it is at the end; the flag for a failed assertion stays exact |
| `QueryEngine.Run` | `include/backend/leveldbgraph_iterator.inc:169-258` | construction followed by ++ until the end yields all choices of the plan, safe or not, unless a node is derived from both sides, and an assertion fails iff some step fails on choices that the plan leads to |
| `QueryEngine.NamedNodeFails` | `include/backend/leveldbgraph_iterator.inc:452-455` | if the steps before lead to a named node with the properties asked for whose left neighbour has been visited, the assertion has failed before the first match, whatever comes later |
| `QueryEngine.DirectMet` | `include/backend/leveldbgraph_iterator.inc:1185-1200` | on the direct steps of a plan an assertion fails before the first result iff one of them fails on the only choices that lead to it |
| `QueryEngine.StopsInTheEnd` | `include/backend/leveldbgraph_iterator.inc:169-258` | at the end of a run the events on the way are all the failing steps there are |
| `Failures.SureNeverFails` | `include/backend/leveldbgraph_iterator.inc:656-675` | no step of a sure plan fails: the edges that nodes are derived from are live, and the named nodes are not checked against edges |
| `Failures.SafeNeverStops` | `include/backend/leveldbgraph_iterator.inc:169-258` | so no assertion fails in a run on a safe plan |
| `QueryEngine.Query` | `include/backend/leveldbgraph_iterator.inc:169-258` | construction followed by ++ until the end yields exactly the matches, each once, in the lexicographic order of the plan, and fails no assertion |
| `StoredQuery.StoreWellFormed` | `include/backend/leveldbgraph.hpp:594-699` | a store with exact indexes, records of removed edges included, is a database that queries are proved for |
| `StoredQuery.EntriesAreStored` | `include/backend/leveldbgraph.hpp:263-302` | the index entries that the engine reads are those of the store |
| `StoredQuery.MatchIsPath` | `include/backend/leveldbgraph_iterator.inc:169-258` | the matches are the paths of stored nodes and live edges in the store |
| `StoredQuery.QueryAfterRun` | `include/backend/leveldbgraph_iterator.inc:169-258` | after any run of allowed operations a query with a safe plan yields exactly the paths in the store, each once, in order, and fails no assertion |
| `StoredQuery.QueryAfterCachedRun` | `include/backend/leveldbgraph_iterator.inc:169-258` | the same after any run behind the caches in which no update is lost |
| `Lexer.CharStream.EatWhite` | `src/graphdsl.cpp:97-109` | skips the longest run of blanks, with the stream's flags at the end of the text |
| `Lexer.CharStream.GetNumber` | `src/graphdsl.cpp:113-135` | signs and then digits with at most one dot; a second dot is an error |
| `Lexer.CharStream.GetIdentifier` | `src/graphdsl.cpp:137-153` | a letter, colon or underscore and the word characters after it |
| `Lexer.CharStream.GetString` | `src/graphdsl.cpp:213-231` | takes in escaped characters; without a closing quote the end mark becomes part of the token |
| `Lexer.CharStream.GetToken` | `src/graphdsl.cpp:165-245` | each call yields the first token of the rest of the text, as `Lexemes.TokenExact` characterizes it, and leaves what follows it |
| `Lexer.TokenConsumes` | `src/graphdsl.cpp:165-245` | every token but the end takes at least one character |
| `Lexer.Tokenize` | `src/graphdsl.cpp:421-426` | the loop terminates with the tokens up to the end |
| `Lexemes.WordLexes` | `src/graphdsl.cpp:137-153` | a word in front of any text is read, with all of that text left over, iff no letter, digit or underscore follows it |
| `Lexemes.NumberLexes` | `src/graphdsl.cpp:113-135` | the same for numbers, with or without the plus sign that the lexer drops, iff no digit or dot follows, nor a sign behind signs only |
| `Lexemes.LiteralReads` | `src/graphdsl.cpp:213-231` | a string literal is closed by the first quote without a backslash before it, and stands for its characters without the backslashes, whatever follows |
| `Lexemes.KeywordInAnyCase` | `src/graphdsl.cpp:236-241` | exactly the words that are `select` or `return` in any case of letters are keywords |
| `Lexemes.TokenReads` | `src/graphdsl.cpp:165-245` | any text of any token, in front of any other text, is read as this token, with the other text left over, iff that one does not continue it |
| `Lexemes.TokenExact` | `src/graphdsl.cpp:165-245` | the lexer takes a closed token off a text and leaves a rest iff the text is blanks, a text of the token, and the rest, which does not continue it |
| `Lexemes.EndExact` | `src/graphdsl.cpp:165-245` | the lexer finds no token iff nothing but blanks is left before the end or its mark |
| `Lexemes.UnclosedExact` | `src/graphdsl.cpp:213-231` | a string literal takes in the end mark iff none of its quotes closes it |
| `Lexemes.TokensExact` | `src/graphdsl.cpp:421-426` | the lexer reads a text as a list of closed tokens iff it is a text of this list, with any blanks between and none where nothing runs together |
| `Spelling.TokenLexes` | `src/graphdsl.cpp:165-245` | the spelling of a canonical token in front of any text is read as that token, with the text left over, iff the text does not continue it; a blank never does |
| `Spelling.SpellingLexes` | `src/graphdsl.cpp:165-245` | any list of canonical tokens, written down with blanks only where two of them would run together, is read back as the same list |
| `Spelling.TextIsCanonical` | `src/graphdsl.cpp:165-245` | every token read is canonical, except that the last may be an unclosed string |
| `Spelling.RespellingLexes` | `src/graphdsl.cpp:165-245` | reading, writing and reading again gives the same tokens |
| `Parser.TokenQueue.GetProperty` | `src/graphdsl.cpp:247-279` | name, operator, constant; the errors in between |
| `Parser.TokenQueue.GetPropertyList` | `src/graphdsl.cpp:281-296` | properties up to the closing bracket |
| `Parser.TokenQueue.GetId` | `src/graphdsl.cpp:308-322` | an identifier is an id unless it begins with a colon or an operator follows, and then it is pushed back |
| `Parser.TokenQueue.GetNode` | `src/graphdsl.cpp:325-342` | a node and what is left of the queue, or the error, of which `MissingNode.NodeMissing` and `CutOff.NodeUndefined` say when it is which |
| `Parser.TokenQueue.EdgeTrailingDir` | `src/graphdsl.cpp:344-352` | a dash and a possible arrow head |
| `Parser.TokenQueue.GetEdge` | `src/graphdsl.cpp:354-407` | an edge in any of its spellings; if there is none the queue is as before; an arrow on both sides is an error |
| `Parser.TokenQueue.GetTail` | `src/graphdsl.cpp:445-456` | the loop over edges and nodes ends at the first token that begins no edge |
| `Parser.TokenQueue.GetNames` | `src/graphdsl.cpp:472-481` | the names after the first are ids of nodes or edges |
| `Parser.TokenQueue.GetSentence` | `src/graphdsl.cpp:421-483` | the whole parser, with reads from an empty queue as errors of their own |
| `Grammar.SentenceReads` | `src/graphdsl.cpp:421-483` | every well-formed sentence is read back from its tokens, however its edges are written |
| `Grammar.SentenceFound` | `src/graphdsl.cpp:421-483` | whatever is accepted is a well-formed sentence, one more node than edges, in one of its spellings |
| `Grammar.ParserExact` | `src/graphdsl.cpp:421-483` | the parser accepts a token list as a sentence iff the list is a spelling of that well-formed sentence |
| `Grammar.EdgeReads` | `src/graphdsl.cpp:354-407` | an edge in any of its spellings, the single dash included, is read as that edge, with all that follows left over, iff what follows is not read as a part of it |
| `Grammar.InsideReads` | `src/graphdsl.cpp:308-340` | ids and properties are told apart by the token after the name |
| `Grammar.TailReads` | `src/graphdsl.cpp:445-456` | edges and nodes in front of any list are read, and the parser goes on behind them |
| `CutOff.UndefinedExact` | `src/graphdsl.cpp:421-483` | the parser reads the front of an empty queue iff the list is empty or, behind a proper beginning, ends before a node, behind an opening bracket or the name in it, behind a complete edge, or behind `return` |
| `CutOff.NodeUndefined` | `src/graphdsl.cpp:308-342` | the same for a node: it is missing, or ends behind its bracket or its name |
| `CutOff.EdgeUndefined` | `src/graphdsl.cpp:354-407` | the same for an edge |
| `CutOff.TextUndefined` | `src/graphdsl.cpp:421-483` | every text is parsed or rejected with an exception iff its tokens do not break off so |
| `CutOff.EmptyText` | `src/graphdsl.cpp:438` | the empty text is neither parsed nor rejected |
| `CutOff.CutInFirstNode` | `src/graphdsl.cpp:308-342` | nor are texts that end behind `select`, an opening bracket, or a name behind it |
| `CutOff.CutBehindNode` | `src/graphdsl.cpp:445-464` | nor those that end behind an edge, the bracket of an edge, or `return` |
| `MissingNode.NodeMissing` | `src/graphdsl.cpp:325-329` | the exception for a missing node is raised iff a token other than an opening bracket stands there |
| `MissingNode.EdgeMissing` | `src/graphdsl.cpp:354-369` | the exception for a missing edge, which ends the path, is raised iff a token other than a dash and a left arrow head stands there |
| `MissingNode.MissingExact` | `src/graphdsl.cpp:421-483` | the parser ends with the exception for a missing node iff behind `select`, or behind a proper beginning and a complete edge, stands a token other than an opening bracket; it never ends with the one for a missing edge |
| `MissingNode.TextMissing` | `src/graphdsl.cpp:421-483` | the same for texts |
| `MissingNode.TextErrors` | `src/graphdsl.cpp:421-483` | the general exception is raised for all texts that are not accepted, do not break off, and miss no node |
| `MissingNode.NameWithoutBrackets` | `src/graphdsl.cpp:325-329` | a query for a name without its brackets misses a node |
| `QueryText.ParseGraphSql` | `src/graphdsl.cpp:421-483` | lexer and parser together compute `SentenceOf` |
| `QueryText.TextReads` | `src/graphdsl.cpp:421-483` | every well-formed sentence with writable names and values is read back from its text, which has blanks only where tokens would run together |
| `QueryText.AcceptedText` | `src/graphdsl.cpp:421-483` | an accepted text has the tokens of a well-formed sentence, with every string closed |
| `QueryText.TextExact` | `src/graphdsl.cpp:421-483` | a text is accepted as a sentence iff the sentence is well-formed and writable and the text is one of its texts: any allowed style of its edges, any text of each token, any blanks where nothing runs together |
| `QueryText.AllNodesQuery` | `include/algorithm/tflabel.hpp:207` | the query for all nodes that the construction of the index runs, with its keywords in any case of letters, is read as one node with its name |
| `QueryText.ParseWriteParse` | `src/graphdsl.cpp:421-483` | parsing, writing and parsing again gives the same sentence, for every accepted text |
| `Pattern.NameIffQuoted` | `include/backend/leveldbgraph_deduction.inc:75-96` | with one property called id, the element looked up is the one meant iff the name is written as a string; a number loses its first and last digit |
| `Pattern.NameLookedUp` | `include/backend/leveldbgraph_deduction.inc:75-96` | for any properties: the element that some property names is the one looked up iff the first property called id is a string for that name, or is another property that becomes it by losing two characters |
| `Pattern.WrongName` | `include/backend/leveldbgraph_deduction.inc:75-96` | two properties on the id, of which the wrong one is looked up |
| `Pattern.NamelessNotDirect` | `include/backend/leveldbgraph_deduction.inc:75-96` | an element without a property called id is not named directly, and has no name to look up |
| `Pattern.OtherProperty` | `include/backend/leveldbgraph_deduction.inc:75-83` | a property that is no equality on the id does not change whether the element is named directly |
| `Pattern.AcceptedPlanned` | `include/backend/leveldbgraph_deduction.inc:144-185` | every accepted query has an exact plan with one step for each of its nodes and edges |

## Left out

- Completeness of the labels does not hold (`Pipeline.GapUnanswered`): dummies get no label of their own, and the closure loop uses positions as vertex numbers. Between the questions that are shown to be answered and those that are shown to be missed lie others, of which nothing is claimed but that an answer is true.
- TfLabel.Folder.Construct: the number of rounds is the integer floor of the base-2 logarithm plus one instead of a floating-point quotient, and at least one edge is assumed, since the logarithm of zero is taken otherwise.
- TfLabel.Folder.PassA: the working graph is a set of edges and a map of levels; edge ids, which are derived from the ends, and the scan of the database by keys are replaced by an arbitrary injective order on vertices. A set of edges is run through in no particular order.
- Pipeline.Read: the file is its list of pairs, and copies of nodes and edges in the database are not modelled; arrays have the size of the graph instead of a fixed capacity.
- Pipeline.BuildIndex: some pair leads out of its component, since otherwise the condensation has no edge and the logarithm of zero is taken.
- Numbering.Compress: sorting and removal of duplicates, library calls in the original, are an insertion into a sorted list; numbers are not negative, since they index an array.
- Recursion depth of the component search and of the query search, and overflow of counters, time stamps and sizes.
- MruMap.TypedMRUMap.Insert: exceptions from allocation and their roll-back; a pair counts as size 1, as in the instances that are used.
- Store.LevelDbGraph.RemoveEdge: the branch of `removeEdgeImpl` that updates neither end, which is never taken; errors of the database; `destroy`, which does not reset the caches.
- Store.LevelDbGraph.RemoveNode: the order in which a set of edges is iterated is a given function; what the entries of the removed node itself hold afterwards is part of the state but of no promise. As for `SetEdgesBundle`, a call that goes through a dangling reference is not modelled.
- LevelDB, cereal and protobuf: the database is four finite maps, a batch a list of writes; node bundles are repeated `SetNode`.
- The undirected store, which repeats the directed one with one index, and the undirected query, which throws.
- QueryEngine.PathIterator.FindNextPossible: for plans without a node that is derived from both sides; such a node is searched by comparing both ends, but the step to the next match tests only the right one. Undirected edges in a query throw and are not modelled.
- QueryEngine.PathIterator.NextNode: for the same plans.
- QueryEngine.PathIterator.NextInList: for the same plans.
- QueryEngine.PathIterator.Advance: for the same plans.
- QueryEngine.Query: for safe plans; `SafePlans.ExactIffNear` says which patterns these are, and that no other pattern is answered rightly on every database.
- QueryEngine.PathIterator.SearchPossible: the failing assertions, on the edge number of a node and on a node without a record, which only unsafe plans meet, set a flag exactly when they fail; the search goes on as if the check had failed, while the original is aborted.
- Lexer.Tokenize: the text is a C string, without a null character in it.
- Matching.CandsMeaning: an element that is not stored has no properties that could be asked for; directly named nodes are stored. Comparison of properties is a given relation between positions and stored elements; a query runs on a database that does not change meanwhile.
- The chosen nodes and edges are two vectors in the original and one sequence by position here.
- Reading the results through `*` and `->`, and comparison of iterators.
- Lexer.CharStream.GetString: the exception for a backslash at the end of the text cannot occur, since the end flag is not yet set there.
- The texts of exceptions and the context they quote, and the cache of parsed sentences keyed by pointers.
- `diskset.hpp`, `lazycache.hpp`, `graph.hpp`, `graph_interface.hpp`, `reflection.hpp`, logging, timing and the tests.
