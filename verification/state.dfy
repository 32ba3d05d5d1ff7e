/** The operations of bn.go and dag.go that read or write the nodes' current
    samples: Reset, ResetWithAssignment, UpdateGraphValues / UpdateGraph,
    GatherNodes and the two node listings. */
module Assignments {
  import opened Errors
  import opened Seqs
  import opened Nodes
  import opened Networks
  import opened NetworkIndex
  import opened Construction

  /** Every network the library builds has one sample slot per node and an index
      inside the arena; the operations below need no more than that. */
  predicate Shaped(net: Network) {
    |net.assign| == |net.arena| && InRange(net.nodeIndex, |net.arena|)
  }

  lemma ValidShaped(net: Network)
    requires Valid(net)
    ensures Shaped(net)
  {
  }

  /** Store `value` in the slot of every node listed in `index`, front to back. */
  function SetAll(assign: seq<string>, index: seq<nat>, value: string): (r: seq<string>)
    requires InRange(index, |assign|)
    ensures |r| == |assign|
    ensures forall v :: 0 <= v < |assign| ==> r[v] == (if v in index then value else assign[v])
    decreases |index|
  {
    if index == [] then assign
    else SetAll(assign[index[0] := value], index[1..], value)
  }

  /** Reset (bn.go, dag.go): clear the sample of every indexed node. */
  function Reset(net: Network): (r: Network)
    requires Shaped(net)
    ensures Shaped(r) && r == net.(assign := r.assign)
    ensures forall v :: 0 <= v < |net.arena| && v in net.nodeIndex ==> !IsSampled(r.assign[v])
    ensures forall v :: 0 <= v < |net.arena| && v !in net.nodeIndex ==> r.assign[v] == net.assign[v]
  {
    net.(assign := SetAll(net.assign, net.nodeIndex, Unset))
  }

  /** Resetting twice is resetting once. */
  lemma ResetIdempotent(net: Network)
    requires Shaped(net)
    ensures Reset(Reset(net)) == Reset(net)
  {
    var once := Reset(net);
    var twice := Reset(once);
    assert twice.assign == once.assign;
  }

  /** ResetWithAssignment (bn.go): only "T" and "F" are accepted (anything else
      panics); every indexed node then holds that value. */
  function ResetWithAssignment(net: Network, value: string): (r: Result<Network>)
    requires Shaped(net)
    ensures r.Success? <==> value == "T" || value == "F"
    ensures r.Failure? ==> r.error == InvalidAssignment(value)
    ensures r.Success? ==> Shaped(r.value) && r.value == net.(assign := r.value.assign)
    ensures r.Success? ==> forall v :: 0 <= v < |net.arena| ==>
      r.value.assign[v] == (if v in net.nodeIndex then value else net.assign[v])
  {
    if value != "F" && value != "T" then Failure(InvalidAssignment(value))
    else Success(net.(assign := SetAll(net.assign, net.nodeIndex, value)))
  }

  /** After a successful ResetWithAssignment, every indexed node is sampled. */
  lemma ResetWithAssignmentSamples(net: Network, value: string)
    requires Shaped(net)
    requires ResetWithAssignment(net, value).Success?
    ensures forall i :: 0 <= i < |net.nodeIndex| ==>
      IsSampled(ResetWithAssignment(net, value).value.assign[net.nodeIndex[i]])
  {
  }

  /** The walk shared by bn.go's UpdateGraphValues and dag.go's UpdateGraph:
      visit the observed names in `keys` (Go's map order); an unknown name stops
      the walk with an error, and so does a value that `accepts` (dag.go's
      SetSample) refuses. The samples stored before the error stay stored. */
  function ApplyMapping(net: Network, mapping: map<string, string>, keys: seq<string>,
                        accepts: string -> bool): (r: (Network, Status))
    requires |net.assign| == |net.arena| && Registered(net)
    requires forall i :: 0 <= i < |keys| ==> keys[i] in mapping
    ensures r.0 == net.(assign := r.0.assign) && |r.0.assign| == |net.assign|
    decreases |keys|
  {
    if keys == [] then (net, Ok)
    else if keys[0] !in net.nodes then (net, Err(UnknownNode(keys[0])))
    else if !accepts(mapping[keys[0]]) then (net, Err(InvalidAssignment(mapping[keys[0]])))
    else
      var stored := net.(assign := net.assign[net.nodes[keys[0]] := mapping[keys[0]]]);
      ApplyMapping(stored, mapping, keys[1..], accepts)
  }

  /** The reference result: every named node shows its observed value. */
  function Overlay(net: Network, mapping: map<string, string>): (r: seq<string>)
    requires |net.assign| == |net.arena|
    ensures |r| == |net.assign|
  {
    seq(|net.assign|, v requires 0 <= v < |net.assign| =>
      if net.arena[v].name in mapping then mapping[net.arena[v].name] else net.assign[v])
  }

  /** The observed name `k` is known and its value accepted. */
  predicate Storable(nodes: map<string, nat>, mapping: map<string, string>, accepts: string -> bool, k: string)
    requires k in mapping
  {
    k in nodes && accepts(mapping[k])
  }

  /** The error the walk reports for a name it cannot store. */
  function Complaint(nodes: map<string, nat>, mapping: map<string, string>, k: string): (s: Status)
    requires k in mapping
    ensures s != Ok
  {
    if k !in nodes then Err(UnknownNode(k)) else Err(InvalidAssignment(mapping[k]))
  }

  /** The position of the first name that cannot be stored, |keys| if none. */
  function FirstBad(nodes: map<string, nat>, mapping: map<string, string>, keys: seq<string>,
                    accepts: string -> bool): (b: nat)
    requires forall i :: 0 <= i < |keys| ==> keys[i] in mapping
    ensures b <= |keys|
    ensures forall j :: 0 <= j < b ==> Storable(nodes, mapping, accepts, keys[j])
    ensures b < |keys| ==> !Storable(nodes, mapping, accepts, keys[b])
    decreases |keys|
  {
    if keys == [] || !Storable(nodes, mapping, accepts, keys[0]) then 0
    else
      var b := 1 + FirstBad(nodes, mapping, keys[1..], accepts);
      assert forall j :: 1 <= j < |keys| ==> keys[j] == keys[1..][j - 1];
      b
  }

  /** The walk succeeds exactly when every name can be stored, and otherwise
      reports the first name that cannot. */
  lemma {:induction false} ApplyMappingStatus(net: Network, mapping: map<string, string>,
                                              keys: seq<string>, accepts: string -> bool)
    requires |net.assign| == |net.arena| && Registered(net)
    requires forall i :: 0 <= i < |keys| ==> keys[i] in mapping
    ensures var b := FirstBad(net.nodes, mapping, keys, accepts);
      ApplyMapping(net, mapping, keys, accepts).1 ==
        if b == |keys| then Ok else Complaint(net.nodes, mapping, keys[b])
    decreases |keys|
  {
    if keys != [] && Storable(net.nodes, mapping, accepts, keys[0]) {
      var stored := net.(assign := net.assign[net.nodes[keys[0]] := mapping[keys[0]]]);
      ApplyMappingStatus(stored, mapping, keys[1..], accepts);
      assert stored.nodes == net.nodes;
      var b := FirstBad(net.nodes, mapping, keys[1..], accepts);
      assert b < |keys[1..]| ==> keys[1..][b] == keys[b + 1];
    }
  }

  /** Only named nodes change, and a changed node holds its observed value. */
  lemma {:induction false} ApplyMappingFrame(net: Network, mapping: map<string, string>,
                                             keys: seq<string>, accepts: string -> bool)
    requires |net.assign| == |net.arena| && Registered(net)
    requires forall i :: 0 <= i < |keys| ==> keys[i] in mapping
    ensures forall v :: 0 <= v < |net.arena| ==>
      ApplyMapping(net, mapping, keys, accepts).0.assign[v] == net.assign[v] ||
      (net.arena[v].name in keys &&
       ApplyMapping(net, mapping, keys, accepts).0.assign[v] == mapping[net.arena[v].name])
    decreases |keys|
  {
    if keys != [] && keys[0] in net.nodes && accepts(mapping[keys[0]]) {
      var stored := net.(assign := net.assign[net.nodes[keys[0]] := mapping[keys[0]]]);
      ApplyMappingFrame(stored, mapping, keys[1..], accepts);
      forall v | 0 <= v < |net.arena| && net.arena[v].name in keys[1..]
        ensures net.arena[v].name in keys
      {
      }
    }
  }

  /** A walk that succeeds leaves exactly the overlay of the observations on the
      previous samples; the map order does not matter. */
  lemma {:induction false} ApplyMappingOverlay(net: Network, mapping: map<string, string>,
                                               keys: seq<string>, accepts: string -> bool)
    requires |net.assign| == |net.arena| && Registered(net)
    requires IsKeyOrder(keys, mapping)
    requires ApplyMapping(net, mapping, keys, accepts).1 == Ok
    ensures ApplyMapping(net, mapping, keys, accepts).0.assign == Overlay(net, mapping)
  {
    OverlaySuffix(net, mapping, keys, accepts);
    assert Elems(keys) == mapping.Keys;
    var r := ApplyMapping(net, mapping, keys, accepts).0.assign;
    forall v | 0 <= v < |net.arena|
      ensures r[v] == Overlay(net, mapping)[v]
    {
      assert net.arena[v].name in keys <==> net.arena[v].name in mapping;
    }
  }

  /** The induction behind ApplyMappingOverlay, over the remaining keys. */
  lemma {:induction false} OverlaySuffix(net: Network, mapping: map<string, string>,
                                         keys: seq<string>, accepts: string -> bool)
    requires |net.assign| == |net.arena| && Registered(net)
    requires forall i :: 0 <= i < |keys| ==> keys[i] in mapping
    requires ApplyMapping(net, mapping, keys, accepts).1 == Ok
    ensures forall v :: 0 <= v < |net.arena| ==>
      ApplyMapping(net, mapping, keys, accepts).0.assign[v] ==
        if net.arena[v].name in keys then mapping[net.arena[v].name] else net.assign[v]
    decreases |keys|
  {
    if keys != [] {
      var stored := net.(assign := net.assign[net.nodes[keys[0]] := mapping[keys[0]]]);
      OverlaySuffix(stored, mapping, keys[1..], accepts);
      forall v | 0 <= v < |net.arena|
        ensures net.arena[v].name in keys <==> net.arena[v].name in keys[1..] || v == net.nodes[keys[0]]
      {
        assert net.arena[v].name in keys <==> net.arena[v].name == keys[0] || net.arena[v].name in keys[1..];
      }
    }
  }

  /** Any value is accepted by bn.go's SetAssignment. */
  function AnyValue(value: string): bool {
    true
  }

  /** UpdateGraphValues (bn.go): store every observed value, failing on the first
      name the network does not know. */
  function UpdateGraphValues(net: Network, mapping: map<string, string>, keys: seq<string>): (r: (Network, Status))
    requires |net.assign| == |net.arena| && Registered(net)
    requires IsKeyOrder(keys, mapping)
    ensures r.0 == net.(assign := r.0.assign) && |r.0.assign| == |net.assign|
    ensures r.1 == Ok <==> mapping.Keys <= net.nodes.Keys
    ensures r.1 != Ok ==> exists name :: name in mapping && name !in net.nodes && r.1 == Err(UnknownNode(name))
    ensures r.1 == Ok ==> r.0.assign == Overlay(net, mapping)
  {
    var r := ApplyMapping(net, mapping, keys, AnyValue);
    ApplyMappingStatus(net, mapping, keys, AnyValue);
    var b := FirstBad(net.nodes, mapping, keys, AnyValue);
    if r.1 == Ok then
      assert forall name :: name in mapping ==> name in keys;
      ApplyMappingOverlay(net, mapping, keys, AnyValue);
      r
    else
      assert keys[b] in mapping && keys[b] !in net.nodes;
      r
  }

  /** On every outcome, UpdateGraphValues changes only nodes it was given a value for. */
  lemma UpdateGraphValuesFrame(net: Network, mapping: map<string, string>, keys: seq<string>)
    requires |net.assign| == |net.arena| && Registered(net)
    requires IsKeyOrder(keys, mapping)
    ensures forall v :: 0 <= v < |net.arena| && net.arena[v].name !in mapping ==>
      UpdateGraphValues(net, mapping, keys).0.assign[v] == net.assign[v]
  {
    ApplyMappingFrame(net, mapping, keys, AnyValue);
  }

  /** UpdateGraph (dag.go): the same walk, where the node's SetSample may also
      refuse a value. SetSample is not part of this model, so the values it
      accepts are the parameter `accepts`. */
  function UpdateGraph(net: Network, mapping: map<string, string>, keys: seq<string>,
                       accepts: string -> bool): (r: (Network, Status))
    requires |net.assign| == |net.arena| && Registered(net)
    requires IsKeyOrder(keys, mapping)
    ensures r.0 == net.(assign := r.0.assign) && |r.0.assign| == |net.assign|
    ensures r.1 == Ok <==> forall name :: name in mapping ==> name in net.nodes && accepts(mapping[name])
    ensures r.1 != Ok ==> exists name :: (name in mapping && !Storable(net.nodes, mapping, accepts, name) &&
      r.1 == Complaint(net.nodes, mapping, name))
    ensures r.1 == Ok ==> r.0.assign == Overlay(net, mapping)
  {
    var r := ApplyMapping(net, mapping, keys, accepts);
    ApplyMappingStatus(net, mapping, keys, accepts);
    var b := FirstBad(net.nodes, mapping, keys, accepts);
    if r.1 == Ok then
      assert forall name :: name in mapping ==> name in keys;
      ApplyMappingOverlay(net, mapping, keys, accepts);
      r
    else
      assert keys[b] in mapping && !Storable(net.nodes, mapping, accepts, keys[b]);
      r
  }

  /** GatherNodes (dag.go): the node of every name, in the order given; the first
      unknown name is the error. */
  function GatherNodes(net: Network, names: seq<string>): (r: Result<seq<nat>>)
    ensures r.Success? ==> |r.value| == |names|
    decreases |names|
  {
    if names == [] then Success([])
    else if names[0] !in net.nodes then Failure(UnknownNode(names[0]))
    else
      var rest :- GatherNodes(net, names[1..]);
      Success([net.nodes[names[0]]] + rest)
  }

  /** GatherNodes succeeds iff every name is known; it then returns, position by
      position, the node carrying that name; otherwise it names the first unknown. */
  lemma {:induction false} GatherNodesCorrect(net: Network, names: seq<string>)
    requires Registered(net)
    ensures GatherNodes(net, names).Success? <==> forall i :: 0 <= i < |names| ==> names[i] in net.nodes
    ensures GatherNodes(net, names).Success? ==> forall i :: 0 <= i < |names| ==>
      GatherNodes(net, names).value[i] < |net.arena| &&
      net.arena[GatherNodes(net, names).value[i]].name == names[i]
    ensures GatherNodes(net, names).Failure? ==> exists i :: (0 <= i < |names| &&
      names[i] !in net.nodes && GatherNodes(net, names).error == UnknownNode(names[i]) &&
      (forall j :: 0 <= j < i ==> names[j] in net.nodes))
    decreases |names|
  {
    if names != [] && names[0] in net.nodes {
      GatherNodesCorrect(net, names[1..]);
      assert forall i :: 1 <= i < |names| ==> names[i] == names[1..][i - 1];
      var r := GatherNodes(net, names);
      if r.Failure? {
        var i :| 0 <= i < |names[1..]| && names[1..][i] !in net.nodes &&
          r.error == UnknownNode(names[1..][i]) && forall j :: 0 <= j < i ==> names[1..][j] in net.nodes;
        assert forall j :: 0 <= j < i + 1 ==> names[j] in net.nodes by {
          forall j | 0 <= j < i + 1 ensures names[j] in net.nodes {
            if j > 0 { assert names[j] == names[1..][j - 1]; }
          }
        }
      }
    }
  }

  /** GetNodes (dag.go): the values of the `nodes` map in Go's map order `keys`. */
  function MapNodes(net: Network, keys: seq<string>): (r: seq<nat>)
    requires IsKeyOrder(keys, net.nodes)
    ensures |r| == |keys| == |net.nodes|
    ensures forall i :: 0 <= i < |keys| ==> r[i] == net.nodes[keys[i]]
  {
    KeyOrderLength(keys, net.nodes);
    seq(|keys|, i requires 0 <= i < |keys| => net.nodes[keys[i]])
  }

  /** ... and on a registered network that lists every node exactly once. */
  lemma MapNodesOrdering(net: Network, keys: seq<string>)
    requires Registered(net) && IsKeyOrder(keys, net.nodes)
    ensures IsOrdering(MapNodes(net, keys), |net.arena|)
  {
    var r := MapNodes(net, keys);
    forall i, j | 0 <= i < j < |r| ensures r[i] != r[j] {
      assert net.arena[r[i]].name == keys[i] && net.arena[r[j]].name == keys[j];
    }
    forall v | 0 <= v < |net.arena| ensures v in r {
      assert net.arena[v].name in net.nodes;
      assert net.arena[v].name in keys;
      var i :| 0 <= i < |keys| && keys[i] == net.arena[v].name;
      assert r[i] == v;
    }
  }

  /** GetNodes (bn.go): the indexed nodes, in id order. */
  function GetNodes(net: Network): (r: seq<nat>)
    requires Indexed(net)
    ensures IsOrderingOfSome(r, |net.arena|)
    ensures forall i :: 0 <= i < |r| ==> net.arena[r[i]].id == i + 1
  {
    net.nodeIndex
  }

  /** Distinct positions inside the arena. */
  predicate IsOrderingOfSome(s: seq<nat>, n: nat) {
    InRange(s, n) && Distinct(s)
  }

  /** NodeCount (bn.go): the number of indexed nodes. */
  function NodeCount(net: Network): (r: nat)
    requires Indexed(net)
    ensures r <= |net.arena|
  {
    DistinctBound(net.nodeIndex, |net.arena|);
    |net.nodeIndex|
  }

  /** On an acyclic graph every node is indexed, so NodeCount is the number of
      nodes the network was built from. */
  lemma NodeCountAcyclic(input: seq<Node>, cptOrder: seq<nat>, rootOrder: seq<nat>, rank: seq<nat>)
    requires forall v :: 0 <= v < |input| ==> IsFresh(input[v])
    requires IsOrdering(cptOrder, |input|) && IsOrdering(rootOrder, |input|)
    requires NewBayesianNetwork(input, cptOrder, rootOrder).Success?
    requires RankedDag(NewBayesianNetwork(input, cptOrder, rootOrder).value.arena, rank)
    ensures NodeCount(NewBayesianNetwork(input, cptOrder, rootOrder).value) == |input|
  {
    var linked := Linking(input);
    IndexIsIndexed(linked, rootOrder);
    IndexCount(linked, rootOrder, rank);
  }

  /** Indexing a linked acyclic network indexes every node. */
  lemma IndexCount(net: Network, order: seq<nat>, rank: seq<nat>)
    requires Linked(net.arena) && IsOrdering(order, |net.arena|)
    requires RankedDag(Index(net, order).arena, rank) && Indexed(Index(net, order))
    ensures NodeCount(Index(net, order)) == |net.arena|
  {
    IndexKeepsParents(net, order);
    RankedDagSameParents(Index(net, order).arena, net.arena, rank);
    IndexCoversAcyclic(net, order, rank);
  }

  /** Indexing changes ids only, so every parent list survives it. */
  lemma IndexKeepsParents(net: Network, order: seq<nat>)
    requires LinksInRange(net.arena) && InRange(order, |net.arena|)
    ensures |Index(net, order).arena| == |net.arena|
    ensures forall v :: 0 <= v < |net.arena| ==> Index(net, order).arena[v].parents == net.arena[v].parents
  {
  }

  /** The rank witness depends on the parent lists only. */
  lemma RankedDagSameParents(a: seq<Node>, b: seq<Node>, rank: seq<nat>)
    requires RankedDag(a, rank) && LinksInRange(b) && |a| == |b|
    requires forall v :: 0 <= v < |b| ==> b[v].parents == a[v].parents
    ensures RankedDag(b, rank)
  {
  }
}
