# Bayesian network — a Dafny model

This project models the core of a small Go library for discrete Bayesian
networks over two-valued variables ("T"/"F"). It covers:

- how a network is built from nodes: registering names, linking parents and
  children, checking CPT sizes, and a breadth-first index;
- how assignments are reset and set from an observation map;
- recursive ancestral sampling of a node;
- the two sampling drivers (ancestral sampling and the Gibbs loop);
- the frequency statistics the drivers report.

The library has two network files, `bn.go` (the `*Node` version) and `dag.go`
(the interface version). Their `indexNetwork`, `addNode`, `addConnections`
and `validateCPTs` are the same code (dag.go:244-329). Their constructors take
the same steps (dag.go:26-55); bn.go panics where dag.go returns the error. One
Dafny member models both versions, and the table cites `bn.go`.

## How the model represents the program

- **Arena.** Every node is a `Nodes.Node` record: id, name, declared parent
  names, parent and child links, and CPT. A node is addressed by its position
  in the list given to the constructor, so node references become positions.
- **Assignments.** The per-node sample (`sample` in `node.go`, `assignment` in
  the newer node type that `bn.go` uses) is one vector `assign: seq<string>`
  in the network. `""` means unset, as in `IsSampled`.
- **Map iteration order.** Where the code ranges over a Go map, the order is an
  explicit parameter: a permutation of the nodes (`IsOrdering`) or of the map's
  keys (`IsKeyOrder`). This applies to `bn.nodes` in `validateCPTs` and
  `indexNetwork`, and to the observation map. Every contract holds for every
  such order.
- **Randomness.** `rand.Float64()` becomes a stream `draws: nat -> real`
  together with a counter of draws used (`Sampling.Trace`).
- **Gibbs step.** The value a Gibbs step or a `bn.go` ancestral step gives a
  node is an abstract function of the step number, the current assignment and
  the node (`pick`/`choose`).
- **Numbers.** Floats are reals.
- **Panics.** A panic or a returned error becomes an `Errors.Result` failure or
  an `Errors.Status` error.
- **Acyclicity.** Where recursion needs the graph to be acyclic, a rank that
  every parent has below its child witnesses it (`Networks.RankedDag`).
- **Verifier settings.** The proofs are meant for
  `dafny verify --resource-limit 2000000 --verification-time-limit 0 --warn-contradictory-assumptions`
  on all the .dfy files together. The last flag makes the verifier check the
  assertions of a proof in smaller batches. Without it, some proofs
  (`Construction.ConnectAllLater`) exceed the default time limit.

Where the code and its documentation disagree, the model follows the code:

- A parent name that does not exist does not stop construction. The
  constructor drops the error `addConnections` returns, so the node keeps only
  the parents linked before that name. If that name comes first, the node
  becomes a root (`ConstructionFacts.DanglingParentMakesRoot`).
- The parent loop of `addConnections` also ends early, without error, at a
  parent whose edge is already recorded (`ConstructionFacts.StopExamples`).
- The comment on `indexNetwork` (bn.go:245-247) says every parent gets a
  larger id than its children. The index check in bn_test.go:23-32 demands the
  reverse. The breadth-first loop guarantees neither. In a diamond R→X, R→Z,
  X→Y, Y→Z, as the constructor links it (`DiamondNetwork.DiamondIsLinked`),
  the ids are R=1, X=2, Z=3 and Y=4 (`NetworkIndex.DiamondIds`).
  So R (1) is a parent of X (2), and Y (4) is a parent of Z (3). What does hold
  is weaker: every indexed node with a linked parent has some parent indexed
  before it, with a smaller, non-zero id (`NetworkIndex.EarlierParent`).
- `NetworkStat.Update` counts every assignment other than "F". An unset node
  therefore counts as true.
- `GetStats` reports every indexed node, including observed ones. An observed
  node reports [1, 0] or [0, 1] (`Inference.ObservedReport`).

## Model

| member | source | states |
|---|---|---|
| Nodes.NewRootNode | node.go:34-41 | a fresh root with CPT keys exactly "T" and "F", where P(T) is the given value and the two entries sum to 1 |
| Nodes.NewNode | node.go:43-52 | a fresh, unlinked node that keeps the given name, declared parent names and CPT |
| Nodes.TruthKey | node.go:124-131 | the key of the given length made only of 'T', and it is a binary key |
| Nodes.ProbTruth | node.go:109-122 | a root's value is its "T" entry (0 when absent); a non-root's value is the entry under the one all-'T' key as long as its parent list, or 0 when that key is absent |
| Nodes.TruthKeyUnique | node.go:124-131 | the key truthKey builds is the only all-'T' key of its length |
| Nodes.RootProbTruth | node.go:34-41 | a root built with probability p reports p as its probability of "T" |
| Nodes.ValidateCPT | node.go:246-268 | accepts exactly when the CPT has 2 entries (root) or 2^k entries (k parents); otherwise it reports the name, the expected size and the actual size |
| Nodes.RootNodeIsValid | node.go:34-41 | every node built by NewRootNode passes the CPT check |
| Nodes.AllKeysDistinct | node.go:256-261 | the 2^k binary keys of length k are pairwise different |
| Nodes.AllKeysComplete | node.go:256-261 | every binary key of length k is among the enumerated keys |
| Nodes.CompleteCptIsValid | node.go:256-261 | a non-root whose CPT holds exactly the binary keys of its parent count passes the check |
| Nodes.KeysAreNotChecked | node.go:256-261 | only the size is checked: a CPT with keys that are not parent-sample strings still passes |
| Nodes.AddChild | node.go:133-142 | the child is in the list afterwards, the old list is a prefix, at most one entry is added, duplicate-freedom is kept, and nothing else changes |
| Nodes.AddParent | node.go:144-154 | the same as AddChild, for the parent list |
| Nodes.AddIsIdempotent | node.go:133-154 | adding the same link twice equals adding it once, and adding a present link changes nothing |
| Nodes.ValidateParents | node.go:167-178 | true exactly when the given names are the names of the linked parents, in order |
| Nodes.Less | node.go:281-283 | on a list whose k-th node has id k+1, Less(i, j) holds exactly when i < j |
| Indexing.Visit | bn.go:262-272 | one round of the outer loop extends the index (the old index is a prefix), keeps it duplicate-free, and leaves the next frontier alone when nothing new was indexed |
| Indexing.Expand | bn.go:259-275 | the whole outer loop gives a duplicate-free index that extends the starting one |
| Indexing.VisitCovers | bn.go:262-272 | after a round, every frontier node is indexed and nodes already waiting for the next round are still waiting |
| Indexing.ExpandCovers | bn.go:259-275 | every start node ends up indexed |
| Indexing.VisitPending | bn.go:262-272 | after a round, every child of an indexed node is indexed or in the next frontier |
| Indexing.ExpandClosed | bn.go:259-275 | the finished index is closed under taking children |
| Indexing.VisitJustified | bn.go:262-272 | after a round, every indexed node is a root or a child of a node indexed before it, and so is every node of the next frontier |
| Indexing.ExpandJustified | bn.go:259-275 | every indexed node is a root or a child of a node indexed before it |
| Indexing.VisitFresh | bn.go:262-272 | a frontier of new, distinct nodes is appended to the index in order |
| Indexing.RootsFirst | bn.go:250-275 | the roots, in the order collected, take the first positions of the index |
| Indexing.DiamondIndex | bn.go:259-275 | on the diamond the index is R, X, Z, Y, and Z is indexed before its parent Y |
| NetworkIndex.Roots | bn.go:250-257 | the collected roots are exactly the parentless nodes, in the given map order |
| NetworkIndex.SetIds | bn.go:266-268 | the j-th indexed node gets id j+1, and other nodes and fields are unchanged |
| NetworkIndex.IndexNetwork | bn.go:248-276 | the loop computes the reference index, the result is Indexed, and only ids change |
| NetworkIndex.CollectRoots | bn.go:250-257 | the root-collecting loop computes Roots |
| NetworkIndex.IndexRound | bn.go:261-272 | the inner loop computes one Visit round and sets the ids of the nodes it indexes |
| NetworkIndex.IndexIsIndexed | bn.go:248-276 | after indexing, nodeIndex[i] has id i+1, it is duplicate-free, and unindexed nodes keep id 0 |
| NetworkIndex.RootsTakeFirstIds | bn.go:250-268 | the roots get ids 1..r in map order |
| NetworkIndex.EarlierParent | bn.go:245-276 | every indexed node with a linked parent has a parent that is indexed before it and has a smaller, non-zero id |
| NetworkIndex.IndexCoversAcyclic | bn.go:259-275 | in an acyclic, consistently linked network every node is indexed |
| NetworkIndex.DiamondIds | bn.go:245-276 | on the diamond, Z gets id 3 and its parent Y gets id 4 |
| Construction.AddNode | bn.go:278-288 | a registered name is rejected with DuplicateName; otherwise the name maps to the node with an empty edge list, and nothing else changes |
| Construction.AddNodes | bn.go:32-37 | the first loop succeeds exactly when all names are distinct and then registers every node; otherwise it names a name held by two nodes |
| Construction.StopIndex | bn.go:302-313 | the parents linked before the loop stops are all registered names |
| Construction.ConnectParents | bn.go:302-319 | the parent loop keeps the registry, changes only link lists, and touches no other node's parents |
| Construction.ConnectParentsLinks | bn.go:302-317 | the child's parents grow by exactly the positions of the names before the stopping point, in order |
| Construction.ConnectParentsStatus | bn.go:302-319 | the loop returns an error exactly when it stopped at an unknown parent name, and that error names it |
| Construction.ConnectParentsWired | bn.go:302-317 | the parent loop keeps parent/child links paired and the edge map mirroring the child links |
| Construction.AddConnections | bn.go:295-320 | an unknown child gives MissingChild and changes nothing; otherwise the parent loop runs for that child |
| Construction.ConnectAll | bn.go:39-42 | the second loop only changes links, keeps the registry, and ignores every status |
| Construction.ConnectAllWired | bn.go:39-42 | the second loop keeps the network consistently linked |
| Construction.ConnectAllParents | bn.go:39-42 | each node ends with the positions of its declared parents up to where its own parent loop stopped |
| Construction.ValidateCPTs | bn.go:235-243 | accepts exactly when every node in the map order passes its CPT check; otherwise it returns one node's error |
| Construction.ValidateAll | bn.go:235-243 | under any order of the nodes, the check accepts exactly when every node passes |
| Construction.NewBayesianNetwork | bn.go:25-54 | fails only with DuplicateName or CptDimension; on success the names are distinct and the network is the linked network, indexed, with each indexed node holding its position plus one as id and every other node id 0 |
| Construction.Linking | bn.go:32-42 | the network after both loops is consistently linked, registered, not yet indexed, and unassigned |
| Construction.NewRejectsDuplicates | bn.go:32-37 | a repeated name makes construction fail with DuplicateName, naming a name held by two nodes |
| Construction.NewAcceptsValidCpts | bn.go:44-48 | with distinct names, construction succeeds exactly when every linked node passes its CPT check |
| Construction.NewIsValid | bn.go:25-54 | a constructed network satisfies every invariant, holds the linked nodes with ids added, and has nothing assigned |
| ConstructionFacts.StopIndexAll | bn.go:302-317 | with every parent registered and none repeated, the parent loop runs to the end |
| DiamondNetwork.DiamondInputBuilt | node.go:34-52 | the four diamond nodes are what NewRootNode and NewNode build |
| DiamondNetwork.DiamondRegistered | bn.go:32-37 | the first loop registers R, X, Z, Y at positions 0..3, each with no edges |
| DiamondNetwork.ConnectX | bn.go:295-320 | linking X to its parent R adds the link both ways and records the edge under "R" |
| DiamondNetwork.ConnectZ | bn.go:302-317 | Z's parents are linked in their declared order, R then Y |
| DiamondNetwork.ConnectY | bn.go:295-320 | linking Y to its parent X completes the diamond |
| DiamondNetwork.DiamondIsLinked | bn.go:32-42 | the constructor's two loops on R, X, Z, Y link exactly the diamond R -> X, R -> Z, Y -> Z, X -> Y |
| ConstructionFacts.DeclaredParentsLinked | bn.go:39-42 | when a node's declared parents exist and are distinct, ValidateParents accepts the declared names after construction |
| ConstructionFacts.DanglingParentMakesRoot | bn.go:302-306 | a node whose first declared parent does not exist ends with no parents at all |
| ConstructionFacts.StopExamples | bn.go:309-313 | a repeated parent name ends the loop early without error; an unknown one ends it with MissingParent |
| Assignments.Reset | bn.go:187-191 | every indexed node becomes unset; unindexed nodes and the rest of the network are unchanged |
| Assignments.ResetIdempotent | bn.go:187-191 | resetting twice is the same as resetting once |
| Assignments.ResetWithAssignment | bn.go:193-202 | succeeds exactly for "T" or "F" and otherwise reports InvalidAssignment; on success every indexed node holds the value and the others are unchanged |
| Assignments.ResetWithAssignmentSamples | bn.go:193-202 | after a successful call every indexed node is sampled |
| Assignments.ApplyMappingStatus | bn.go:158-167 | the walk over the observations returns Ok exactly when no key in the visit order is unknown or refused; otherwise it returns the complaint about the first such key |
| Assignments.ApplyMappingFrame | bn.go:158-167 | a node whose value changes is named in the keys visited and holds its observed value |
| Assignments.ApplyMappingOverlay | bn.go:158-167 | a walk that returns Ok stores exactly the observation overlay, independent of map order |
| Assignments.UpdateGraphValues | bn.go:158-167 | Ok exactly when every observed name is a node; otherwise an UnknownNode error for an observed name outside the network; on Ok the assignment is the overlay |
| Assignments.UpdateGraphValuesFrame | bn.go:158-167 | nodes that are not observed keep their assignment, even on error |
| Assignments.UpdateGraph | dag.go:146-160 | Ok exactly when every observed name is a node and its value is accepted; otherwise it reports a name that is unknown or refused; on Ok the assignment is the overlay |
| Assignments.GatherNodesCorrect | dag.go:183-195 | succeeds exactly when every name is known, returning their nodes in order; otherwise it reports the first unknown name |
| Assignments.MapNodes | dag.go:331-338 | one node per key of the name map, in the key order |
| Assignments.MapNodesOrdering | dag.go:331-338 | the returned list holds every node exactly once |
| Assignments.GetNodes | bn.go:327-329 | the nodes in id order, distinct, with the i-th node holding id i+1 |
| Assignments.NodeCount | bn.go:322-324 | the number of indexed nodes, at most the number of nodes |
| Assignments.NodeCountAcyclic | bn.go:322-324 | for an acyclic network built by the constructor, the count is the number of nodes given |
| Sampling.Sample | node.go:185-190 | an already sampled node returns its cached value with no draw |
| Sampling.SampleGrows | node.go:185-237 | sampling fills only unset slots, of nodes ranked no higher than the node; it never gives back draws; on success the node is sampled |
| Sampling.ParentsGrow | node.go:204-217 | the parent loop fills only unset slots of strictly lower-ranked nodes and, on success, samples every remaining parent |
| Sampling.ParentsKey | node.go:204-221 | on success the key is the parents' samples concatenated in link order |
| Sampling.SampleBinary | node.go:185-237 | sampling writes only "T" or "F" |
| Sampling.SamplesOfBinary | node.go:216-221 | with sampled binary parents, the key has one 'T'/'F' character per parent |
| Sampling.SampleDecision | node.go:185-237 | a fresh sample uses one new draw: a root is "T" iff the draw is at most P(T); a non-root's key is in its CPT and it is "T" iff the draw is below the entry for that key |
| Sampling.SampleError | node.go:204-225 | a failure leaves the node unset and only happens at a non-root; if the parents succeeded, it is InvalidKey for the missing key |
| Sampling.SampleClosed | node.go:185-237 | sampling keeps every sampled node's parents sampled |
| Sampling.ClosedAncestors | node.go:204-217 | in such an assignment every ancestor of a sampled node is sampled |
| Sampling.SampleTotal | node.go:185-237 | with every binary key in each non-root's CPT, sampling never fails |
| Sampling.SampleAllSamples | dag.go:177-179 | sampling each indexed node in turn samples all of them with "T"/"F" and keeps earlier values |
| Sampling.AncestralSampling | dag.go:163-181 | only assignments change; an unknown requested name leaves exactly the reset network |
| Sampling.AncestralSamplingSamples | dag.go:163-181 | with known names and complete CPTs, every indexed node ends with "T" or "F", whatever it held before; only the nodes outside the index, which the reset leaves alone, must hold unset, "T" or "F" |
| Stats.Hit | stat.go:28-34 | an assignment counts exactly when it is not "F" |
| Stats.NewNetworkStat | stat.go:17-23 | no updates and one zero counter per indexed node |
| Stats.Update | stat.go:27-36 | one more update; each counter rises by one exactly when its node is not "F", and stays otherwise |
| Stats.UpdateBounded | stat.go:27-36 | counters stay between 0 and the number of updates |
| Stats.FreqIsDistribution | stat.go:43-46 | for 0 <= count <= total the pair is two probabilities summing to 1; it is [1, 0] when all counted and [0, 1] when none |
| Stats.GetStats | stat.go:39-49 | one entry per indexed node name |
| Stats.StatsUpToEntry | stat.go:42-47 | once the loop has passed node i, its entry is its own frequency pair |
| Stats.GetStatsEntries | stat.go:39-49 | each indexed node's entry is the frequency pair of its counter, and a distribution |
| Stats.NewNodeStat | stat.go:56-62 | a zero counter and no updates |
| Stats.NodeUpdate | stat.go:64-71 | one more update; the counter rises exactly when the assignment is not "F" |
| Stats.NodeGetStats | stat.go:73-78 | two shares whose products with the total are the count and the rest of the updates; for a counter within its total they lie in [0, 1] and sum to 1 |
| Stats.NodeStatAgreesWithGetStats | stat.go:73-78 | a node's own statistics report the pair the network statistics report for it |
| Stats.UpdateAgreesWithNodeStat | stat.go:27-36 | a network counter moves exactly as a node counter fed that node's assignment |
| Inference.Sweep | bn.go:98-101 | one pass over the free nodes counts one step per node, changes no other node, and writes "T"/"F" when the step does |
| Inference.Unassigned | bn.go:85-90 | the free nodes are exactly the indexed nodes left unset, duplicate-free |
| Inference.GibbsSetup | bn.go:62-91 | only assignments change and the free nodes are nodes of the network |
| Inference.GibbsSetupFails | bn.go:62-81 | setup fails exactly when there are more observations than indexed nodes or an observed name is unknown |
| Inference.GibbsSetupFacts | bn.go:68-91 | after setup no indexed node is unset; with no observations every indexed node is free; otherwise the free nodes are the indexed nodes the observations leave unset; free nodes hold "F" and the rest hold the observed state |
| Inference.GibbsSetupFrame | bn.go:68-91 | every observed node is not free and holds its observed value |
| Inference.Verdict | bn.go:99-100 | the value a step stores is one of "T" and "F", and it is "T" exactly when the sampler's test holds |
| Inference.BurnIn | bn.go:96-102 | n sweeps take n times the number of free nodes in steps, touch only free nodes, and leave them at "T"/"F" |
| Inference.Record | bn.go:104-112 | m recorded sweeps make m updates with bounded counters, and a node that is not free is counted m times or never, as its fixed value says |
| Inference.GibbsSampling | bn.go:62-118 | fails exactly when setup fails; on success every indexed node is unset again, other nodes hold the observed state, there are m updates, and an observed node's counter is m or 0 by its observed value |
| Inference.ObservedReport | bn.go:114-117 | after m > 0 updates an observed node reports [0, 1] when observed "F" and [1, 0] otherwise |
| Inference.AncestralSampling | bn.go:170-184 | n updates with bounded counters; afterwards every indexed node is unset and no other node changes |

## Left out

- Random numbers: `rand.Float64()` and its seeding in `init` become the `draws` input stream.
- MarkovBlanketSample (bn.go) and MarkovBlanketSampling (dag.go): their product of CPT entries is not modelled; the choice a Gibbs step makes is the abstract `pick`.
- JointProbability (bn.go, dag.go): a floating-point product over the nodes; the model has no node-probability accessor.
- PrintNetwork, String and BayNodes.String: text formatting only. The `Println` inside BayNodes.Len and the `Println` of the error in dag.go's AncestralSampling are output and are left out.
- BayNodes.Len and Swap, and the `sort.Sort` in dag.go's AncestralSampling: the sorted list is never used, so the model does not sort it.
- Node.prob: the raw draw a node keeps beside its sample is never read by the modelled code.
- Node.SetSample (dag.go's node type) is not part of this model; UpdateGraph takes the test it applies to a value as the `accepts` parameter.
- SetAssignment, GetAssignment and the Sample variant that bn.go calls come from a node type that is not part of this model; bn.go's drivers use the abstract `choose`/`pick` for the values they store.
- Floating point: float64 becomes real, so rounding is not modelled.
- Nodes.ValidateCPT: uses the exact 2^k. `math.Pow(2, k)` is exact in float64 for every k up to 1023, but Go's `int(...)` of a value at or above 2^63 (63 or more parents) is implementation-defined and is not modelled.
- Stats.GetStats: requires at least one update. With none, Go divides by zero and reports NaN; NaN is not modelled.
- Inference.GibbsSampling: does not state the frequency map GetStats returns. It states the counters and their total, and Inference.ObservedReport derives the reported pairs for observed nodes from them.
- Inference.AncestralSampling: returns the counters, not the frequency map GetStats builds from them (bn.go:183). That map is not stated, and neither are the NaN pairs Go reports when n = 0. The contract states the counters: their total is n, there is one per indexed node, and each lies within the total.
- Sampling.Sample: requires an acyclic graph (a rank). On a cycle the Go recursion does not terminate.
- Reusing a node in two networks: the constructor takes fresh nodes (id 0, no links), as NewNode and NewRootNode build them.
- Panics (duplicate name, bad CPT, bad assignment, negative capacity) are modelled as failures, not as aborts.
- GetNode is a plain map lookup; it is used inside the model but has no member of its own.
