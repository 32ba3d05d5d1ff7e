/** Building a network (NewBayesianNetwork in bn.go and dag.go): register every
    node by name, link parents and children, check the CPT sizes, index. */
module Construction {
  import opened Errors
  import opened Seqs
  import opened Nodes
  import opened Networks
  import opened NetworkIndex

  // ------------------------------------------------------------------- addNode

  /** bn.nodes after the first k nodes are added: each name to its position. */
  function NameMap(arena: seq<Node>, k: nat): (m: map<string, nat>)
    requires k <= |arena|
  {
    if k == 0 then map[] else NameMap(arena, k - 1)[arena[k - 1].name := k - 1]
  }

  /** The first k nodes have pairwise different names. */
  predicate DistinctNames(arena: seq<Node>, k: nat)
    requires k <= |arena|
  {
    forall i, j :: 0 <= i < j < k ==> arena[i].name != arena[j].name
  }

  lemma {:induction false} NameMapKeys(arena: seq<Node>, k: nat, name: string)
    requires k <= |arena|
    ensures name in NameMap(arena, k) <==> exists v :: 0 <= v < k && arena[v].name == name
  {
    if k > 0 {
      NameMapKeys(arena, k - 1, name);
    }
  }

  lemma {:induction false} NameMapValues(arena: seq<Node>, k: nat, v: nat)
    requires v < k <= |arena| && DistinctNames(arena, k)
    ensures arena[v].name in NameMap(arena, k) && NameMap(arena, k)[arena[v].name] == v
  {
    if v < k - 1 {
      NameMapValues(arena, k - 1, v);
      assert arena[v].name != arena[k - 1].name;
    }
  }

  /** An empty child list for every registered name. */
  function NoEdges(nodes: map<string, nat>): (edges: map<string, seq<string>>)
    ensures edges.Keys == nodes.Keys
    ensures forall name :: name in edges ==> edges[name] == []
  {
    map name | name in nodes :: []
  }

  /** addNode: a name already registered is rejected; otherwise the name now
      leads to node v with an empty child list, and every other name keeps its node. */
  function AddNode(net: Network, v: nat): (r: Result<Network>)
    requires v < |net.arena|
    ensures r.Failure? <==> net.arena[v].name in net.nodes
    ensures r.Failure? ==> r.error == DuplicateName(net.arena[v].name)
    ensures r.Success? ==>
      && r.value.nodes == net.nodes[net.arena[v].name := v]
      && r.value.edges == net.edges[net.arena[v].name := []]
      && r.value.arena == net.arena && r.value.nodeIndex == net.nodeIndex && r.value.assign == net.assign
  {
    var name := net.arena[v].name;
    if name in net.nodes then Failure(DuplicateName(name))
    else Success(net.(nodes := net.nodes[name := v], edges := net.edges[name := []]))
  }

  /** The constructor's first loop, from node k on: it fails exactly when two
      nodes share a name, and otherwise registers every node under its name. */
  function AddNodes(net: Network, k: nat): (r: Result<Network>)
    requires k <= |net.arena| && DistinctNames(net.arena, k)
    requires net.nodes == NameMap(net.arena, k) && net.edges == NoEdges(net.nodes)
    ensures r.Success? <==> DistinctNames(net.arena, |net.arena|)
    ensures r.Success? ==>
      r.value == net.(nodes := NameMap(net.arena, |net.arena|), edges := NoEdges(NameMap(net.arena, |net.arena|)))
    ensures r.Failure? ==> r.error.DuplicateName?
    ensures r.Failure? ==>
      exists i, j :: 0 <= i < j < |net.arena| && net.arena[i].name == r.error.name && net.arena[j].name == r.error.name
    decreases |net.arena| - k
  {
    if k == |net.arena| then Success(net)
    else
      var name := net.arena[k].name;
      NameMapKeys(net.arena, k, name);
      var next :- AddNode(net, k);
      assert DistinctNames(net.arena, k + 1);
      assert next.edges == NoEdges(next.nodes);
      AddNodes(next, k + 1)
  }

  // ---------------------------------------------------------- addConnections

  /** Positions of the given (registered) names. */
  function Positions(nodes: map<string, nat>, names: seq<string>): (ps: seq<nat>)
    requires forall n :: n in names ==> n in nodes
    ensures |ps| == |names|
    ensures forall i :: 0 <= i < |names| ==> ps[i] == nodes[names[i]]
  {
    seq(|names|, i requires 0 <= i < |names| => nodes[names[i]])
  }

  /** How many of `names` addConnections links when the child already has the
      parents `linked`: it stops at the first unknown name (returning an error)
      and at the first name already linked (returning nil early). */
  function StopIndex(nodes: map<string, nat>, names: seq<string>, linked: seq<nat>): (k: nat)
    ensures k <= |names|
    ensures forall i :: 0 <= i < k ==> names[i] in nodes
  {
    if names == [] then 0
    else if names[0] !in nodes || nodes[names[0]] in linked then 0
    else 1 + StopIndex(nodes, names[1..], linked + [nodes[names[0]]])
  }

  /** The status addConnections returns: an error exactly when it stopped at an
      unknown parent name. */
  function StopStatus(nodes: map<string, nat>, names: seq<string>, k: nat): Status
    requires k <= |names|
  {
    if k < |names| && names[k] !in nodes then Err(MissingParent(names[k])) else Ok
  }

  /** Link p as a parent of c and c as a child of p (AddChild, then AddParent),
      each only if not yet there. */
  function Link(arena: seq<Node>, p: nat, c: nat): (r: seq<Node>)
    requires p < |arena| && c < |arena|
    ensures |r| == |arena|
    ensures forall u :: 0 <= u < |arena| ==>
      r[u] == arena[u].(parents := if u == c then AddOnce(arena[u].parents, p) else arena[u].parents,
                        children := if u == p then AddOnce(arena[u].children, c) else arena[u].children)
  {
    var a1 := arena[p := AddChild(arena[p], c)];
    a1[c := AddParent(a1[c], p)]
  }

  /** The nodes differ at most in their links. */
  predicate SameButLinks(a: seq<Node>, b: seq<Node>) {
    |a| == |b| && forall u :: 0 <= u < |a| ==> b[u] == a[u].(parents := b[u].parents, children := b[u].children)
  }

  lemma LinkFacts(arena: seq<Node>, p: nat, c: nat)
    requires Linked(arena) && p < |arena| && c < |arena|
    ensures Linked(Link(arena, p, c))
  {
    var r := Link(arena, p, c);
    LinkInRange(arena, p, c);
    LinkParentsBack(arena, p, c);
    LinkChildrenBack(arena, p, c);
  }

  lemma LinkInRange(arena: seq<Node>, p: nat, c: nat)
    requires Linked(arena) && p < |arena| && c < |arena|
    ensures LinksInRange(Link(arena, p, c))
    ensures forall v :: 0 <= v < |arena| ==>
      Distinct(Link(arena, p, c)[v].parents) && Distinct(Link(arena, p, c)[v].children)
  {
    var r := Link(arena, p, c);
    forall v | 0 <= v < |r|
      ensures InRange(r[v].parents, |r|) && InRange(r[v].children, |r|)
    {
      AddOnceInRange(arena[v].parents, p, |r|);
      AddOnceInRange(arena[v].children, c, |r|);
    }
  }

  lemma AddOnceInRange(s: seq<nat>, x: nat, n: nat)
    requires InRange(s, n) && x < n
    ensures InRange(AddOnce(s, x), n)
  {
  }

  lemma LinkParentsBack(arena: seq<Node>, p: nat, c: nat)
    requires Linked(arena) && p < |arena| && c < |arena|
    ensures var r := Link(arena, p, c);
      forall v, i :: 0 <= v < |r| && 0 <= i < |r[v].parents| ==> v in r[r[v].parents[i]].children
  {
    var r := Link(arena, p, c);
    forall v, i | 0 <= v < |r| && 0 <= i < |r[v].parents|
      ensures v in r[r[v].parents[i]].children
    {
      var q := r[v].parents[i];
      assert q in Elems(r[v].parents);
      if v == c && q == p {
        assert c in Elems(r[p].children);
      } else {
        assert q in Elems(arena[v].parents);
        var j :| 0 <= j < |arena[v].parents| && arena[v].parents[j] == q;
        assert v in Elems(arena[q].children);
        assert v in Elems(r[q].children);
      }
    }
  }

  lemma LinkChildrenBack(arena: seq<Node>, p: nat, c: nat)
    requires Linked(arena) && p < |arena| && c < |arena|
    ensures var r := Link(arena, p, c);
      forall u, i :: 0 <= u < |r| && 0 <= i < |r[u].children| ==> u in r[r[u].children[i]].parents
  {
    var r := Link(arena, p, c);
    forall u, i | 0 <= u < |r| && 0 <= i < |r[u].children|
      ensures u in r[r[u].children[i]].parents
    {
      var q := r[u].children[i];
      assert q in Elems(r[u].children);
      if u == p && q == c {
        assert p in Elems(r[c].parents);
      } else {
        assert q in Elems(arena[u].children);
        var j :| 0 <= j < |arena[u].children| && arena[u].children[j] == q;
        assert u in Elems(arena[q].parents);
        assert u in Elems(r[q].parents);
      }
    }
  }

  /** The structural invariants that linking keeps. */
  predicate Wired(net: Network) {
    Registered(net) && Linked(net.arena) && EdgesMirror(net)
  }

  /** Record c's name as a child of p under the name `name`. */
  function RecordEdge(net: Network, name: string, c: nat): (r: Network)
    requires name in net.edges && c < |net.arena|
    ensures r.edges.Keys == net.edges.Keys
    ensures r.edges[name] == net.edges[name] + [net.arena[c].name]
  {
    net.(edges := net.edges[name := net.edges[name] + [net.arena[c].name]])
  }

  /** The parent loop of addConnections for child c. Each parent is linked first;
      an edge already recorded then ends the loop. */
  function ConnectParents(net: Network, names: seq<string>, c: nat): (r: (Network, Status))
    requires c < |net.arena| && Registered(net)
    ensures Registered(r.0) && SameButLinks(net.arena, r.0.arena)
    ensures r.0.nodes == net.nodes && r.0.nodeIndex == net.nodeIndex && r.0.assign == net.assign
    ensures forall u :: 0 <= u < |net.arena| && u != c ==> r.0.arena[u].parents == net.arena[u].parents
    decreases |names|
  {
    if names == [] then (net, Ok)
    else
      var name := names[0];
      if name !in net.nodes then (net, Err(MissingParent(name)))
      else
        var linked := net.(arena := Link(net.arena, net.nodes[name], c));
        if net.arena[c].name in net.edges[name] then (linked, Ok)
        else ConnectParents(RecordEdge(linked, name, c), names[1..], c)
  }

  /** One full round of the parent loop: link and record. */
  function Connect(net: Network, name: string, c: nat): (r: Network)
    requires Registered(net) && name in net.nodes && c < |net.arena|
  {
    RecordEdge(net.(arena := Link(net.arena, net.nodes[name], c)), name, c)
  }

  lemma ConnectParentsUnfold(net: Network, names: seq<string>, c: nat)
    requires c < |net.arena| && Registered(net)
    requires names != [] && names[0] in net.nodes && net.arena[c].name !in net.edges[names[0]]
    ensures ConnectParents(net, names, c) == ConnectParents(Connect(net, names[0], c), names[1..], c)
  {
  }

  /** An edge already recorded means the link already exists in both directions:
      re-linking before addConnections' early return changes nothing. */
  lemma ExistingEdge(net: Network, name: string, c: nat)
    requires Wired(net) && name in net.nodes && c < |net.arena|
    requires net.arena[c].name in net.edges[name]
    ensures Link(net.arena, net.nodes[name], c) == net.arena
    ensures net.nodes[name] in net.arena[c].parents
  {
    var p := net.nodes[name];
    assert net.arena[p].name == name;
    assert c in net.arena[p].children;
    var j :| 0 <= j < |net.arena[p].children| && net.arena[p].children[j] == c;
    assert net.arena[p].children[j] == c;
    assert Link(net.arena, p, c)[p] == net.arena[p];
  }

  /** Linking p -> c and recording the edge keeps the invariants. */
  lemma NewEdge(net: Network, name: string, c: nat)
    requires Wired(net) && name in net.nodes && c < |net.arena|
    requires net.arena[c].name !in net.edges[name]
    ensures Wired(Connect(net, name, c)) && net.nodes[name] !in net.arena[c].parents
  {
    LinkFacts(net.arena, net.nodes[name], c);
    NotYetParent(net, name, c);
    ConnectRegistered(net, name, c);
    ConnectEdgeLists(net, name, c);
    ConnectMirror(net, name, c);
  }

  /** No recorded edge means no link. */
  lemma NotYetParent(net: Network, name: string, c: nat)
    requires Wired(net) && name in net.nodes && c < |net.arena|
    requires net.arena[c].name !in net.edges[name]
    ensures net.nodes[name] !in net.arena[c].parents
  {
    var p := net.nodes[name];
    assert net.arena[p].name == name;
    assert c !in net.arena[p].children;
    forall i | 0 <= i < |net.arena[c].parents| ensures net.arena[c].parents[i] != p {
      assert c in net.arena[net.arena[c].parents[i]].children;
    }
  }

  lemma ConnectRegistered(net: Network, name: string, c: nat)
    requires Registered(net) && name in net.nodes && c < |net.arena|
    ensures Registered(Connect(net, name, c))
  {
    var next := Connect(net, name, c);
    assert forall v :: 0 <= v < |net.arena| ==> next.arena[v].name == net.arena[v].name;
  }

  lemma ConnectEdgeLists(net: Network, name: string, c: nat)
    requires Wired(net) && name in net.nodes && c < |net.arena|
    requires net.arena[c].name !in net.edges[name]
    ensures var next := Connect(net, name, c);
      && (forall n :: n in next.edges ==> Distinct(next.edges[n]))
      && (forall n, i :: n in next.edges && 0 <= i < |next.edges[n]| ==> next.edges[n][i] in next.nodes)
  {
    var next := Connect(net, name, c);
    var x := net.arena[c].name;
    DistinctAppend(net.edges[name], x);
    forall n, i | n in next.edges && 0 <= i < |next.edges[n]| ensures next.edges[n][i] in next.nodes {
      if n == name && i == |net.edges[name]| {
        assert next.edges[n][i] == x;
      } else {
        assert next.edges[n][i] == net.edges[n][i];
      }
    }
  }

  lemma DistinctAppend<T>(s: seq<T>, x: T)
    requires Distinct(s) && x !in s
    ensures Distinct(s + [x])
  {
  }

  lemma ConnectMirror(net: Network, name: string, c: nat)
    requires Wired(net) && name in net.nodes && c < |net.arena|
    requires net.arena[c].name !in net.edges[name]
    ensures Registered(Connect(net, name, c)) && LinksInRange(Connect(net, name, c).arena)
    ensures var next := Connect(net, name, c);
      forall q, d :: 0 <= q < |next.arena| && 0 <= d < |next.arena| ==>
        (d in next.arena[q].children <==> next.arena[d].name in next.edges[next.arena[q].name])
  {
    var next := Connect(net, name, c);
    ConnectRegistered(net, name, c);
    LinkInRange(net.arena, net.nodes[name], c);
    forall q, d | 0 <= q < |next.arena| && 0 <= d < |next.arena|
      ensures d in next.arena[q].children <==> next.arena[d].name in next.edges[next.arena[q].name]
    {
      ConnectMirrorAt(net, name, c, q, d);
    }
  }

  lemma ConnectMirrorAt(net: Network, name: string, c: nat, q: nat, d: nat)
    requires Wired(net) && name in net.nodes && c < |net.arena| && q < |net.arena| && d < |net.arena|
    requires net.arena[c].name !in net.edges[name]
    ensures var next := Connect(net, name, c);
      d in next.arena[q].children <==> next.arena[d].name in next.edges[next.arena[q].name]
  {
    if q == net.nodes[name] {
      ConnectMirrorParent(net, name, c, d);
    } else {
      ConnectMirrorOther(net, name, c, q, d);
    }
  }

  lemma ConnectMirrorParent(net: Network, name: string, c: nat, d: nat)
    requires Wired(net) && name in net.nodes && c < |net.arena| && d < |net.arena|
    requires net.arena[c].name !in net.edges[name]
    ensures var next := Connect(net, name, c); var p := net.nodes[name];
      d in next.arena[p].children <==> next.arena[d].name in next.edges[next.arena[p].name]
  {
    var p := net.nodes[name];
    var next := Connect(net, name, c);
    assert net.arena[p].name == name;
    assert d in net.arena[p].children <==> net.arena[d].name in net.edges[name];
    assert Elems(next.arena[p].children) == Elems(net.arena[p].children) + {c};
    assert net.arena[d].name == net.arena[c].name <==> d == c;
  }

  lemma ConnectMirrorOther(net: Network, name: string, c: nat, q: nat, d: nat)
    requires Wired(net) && name in net.nodes && c < |net.arena| && q < |net.arena| && d < |net.arena|
    requires q != net.nodes[name]
    ensures var next := Connect(net, name, c);
      d in next.arena[q].children <==> next.arena[d].name in next.edges[next.arena[q].name]
  {
    assert net.arena[q].name != name;
    assert d in net.arena[q].children <==> net.arena[d].name in net.edges[net.arena[q].name];
  }

  /** The parent loop keeps the invariants. */
  lemma {:induction false} ConnectParentsWired(net: Network, names: seq<string>, c: nat)
    requires c < |net.arena| && Wired(net)
    ensures Wired(ConnectParents(net, names, c).0)
    decreases |names|
  {
    if names != [] && names[0] in net.nodes {
      if net.arena[c].name in net.edges[names[0]] {
        ExistingEdge(net, names[0], c);
        assert ConnectParents(net, names, c).0 == net;
      } else {
        NewEdge(net, names[0], c);
        ConnectParentsUnfold(net, names, c);
        ConnectParentsWired(Connect(net, names[0], c), names[1..], c);
      }
    }
  }

  /** What the parent loop relies on for child c alone: an edge p -> c is recorded
      exactly when p is already one of c's parents. */
  predicate Tracks(net: Network, c: nat)
    requires Registered(net) && c < |net.arena|
  {
    forall n :: n in net.nodes ==> (net.arena[c].name in net.edges[n] <==> net.nodes[n] in net.arena[c].parents)
  }

  lemma WiredTracks(net: Network, c: nat)
    requires Wired(net) && c < |net.arena|
    ensures Tracks(net, c)
  {
    forall n | n in net.nodes
      ensures net.arena[c].name in net.edges[n] <==> net.nodes[n] in net.arena[c].parents
    {
      var p := net.nodes[n];
      assert net.arena[p].name == n;
      assert c in net.arena[p].children <==> net.arena[c].name in net.edges[n];
      if c in net.arena[p].children {
        var i :| 0 <= i < |net.arena[p].children| && net.arena[p].children[i] == c;
        assert p in net.arena[net.arena[p].children[i]].parents;
      }
      if p in net.arena[c].parents {
        var i :| 0 <= i < |net.arena[c].parents| && net.arena[c].parents[i] == p;
        assert c in net.arena[net.arena[c].parents[i]].children;
      }
    }
  }

  /** A new edge is recorded together with the new parent. */
  lemma ConnectTracks(net: Network, name: string, c: nat)
    requires Registered(net) && name in net.nodes && c < |net.arena| && Tracks(net, c)
    requires net.arena[c].name !in net.edges[name]
    ensures Registered(Connect(net, name, c)) && Tracks(Connect(net, name, c), c)
    ensures Connect(net, name, c).arena[c].parents == net.arena[c].parents + [net.nodes[name]]
  {
    ConnectRegistered(net, name, c);
    var next := Connect(net, name, c);
    var p := net.nodes[name];
    assert p !in net.arena[c].parents;
    assert next.arena[c].parents == net.arena[c].parents + [p];
    forall n | n in next.nodes
      ensures next.arena[c].name in next.edges[n] <==> next.nodes[n] in next.arena[c].parents
    {
      if n != name {
        assert net.nodes[n] != p by {
          assert net.arena[net.nodes[n]].name == n && net.arena[p].name == name;
        }
      }
    }
  }

  /** The parent loop links the declared parents in order up to StopIndex. */
  lemma {:induction false} ConnectParentsLinks(net: Network, names: seq<string>, c: nat)
    requires c < |net.arena| && Registered(net) && Tracks(net, c)
    ensures var k := StopIndex(net.nodes, names, net.arena[c].parents);
            ConnectParents(net, names, c).0.arena[c].parents == net.arena[c].parents + Positions(net.nodes, names[..k])
    decreases |names|, 1
  {
    var k := StopIndex(net.nodes, names, net.arena[c].parents);
    if names == [] || names[0] !in net.nodes {
      assert k == 0;
    } else if net.arena[c].name in net.edges[names[0]] {
      assert k == 0;
      var linked := Link(net.arena, net.nodes[names[0]], c);
      assert linked[c].parents == net.arena[c].parents;
    } else {
      ConnectTracks(net, names[0], c);
      ConnectStep(net, names, c);
    }
  }

  lemma {:induction false} ConnectStep(net: Network, names: seq<string>, c: nat)
    requires c < |net.arena| && Registered(net)
    requires names != [] && names[0] in net.nodes
    requires net.arena[c].name !in net.edges[names[0]]
    requires Registered(Connect(net, names[0], c)) && Tracks(Connect(net, names[0], c), c)
    requires Connect(net, names[0], c).arena[c].parents == net.arena[c].parents + [net.nodes[names[0]]]
    requires net.nodes[names[0]] !in net.arena[c].parents
    ensures var k := StopIndex(net.nodes, names, net.arena[c].parents);
            ConnectParents(net, names, c).0.arena[c].parents == net.arena[c].parents + Positions(net.nodes, names[..k])
    decreases |names|, 0
  {
    var p := net.nodes[names[0]];
    var next := Connect(net, names[0], c);
    var base := net.arena[c].parents;
    ConnectParentsUnfold(net, names, c);
    ConnectParentsLinks(next, names[1..], c);
    StopIndexStep(net.nodes, names, base);
    var k := StopIndex(net.nodes, names, base);
    var tail := Positions(net.nodes, names[1..][..k - 1]);
    PositionsCons(net.nodes, names, k);
    AppendAssoc(base, p, tail);
  }

  lemma StopIndexStep(nodes: map<string, nat>, names: seq<string>, linked: seq<nat>)
    requires names != [] && names[0] in nodes && nodes[names[0]] !in linked
    ensures StopIndex(nodes, names, linked) == 1 + StopIndex(nodes, names[1..], linked + [nodes[names[0]]])
  {
  }

  lemma AppendAssoc(base: seq<nat>, p: nat, tail: seq<nat>)
    ensures (base + [p]) + tail == base + ([p] + tail)
  {
  }

  lemma PositionsCons(nodes: map<string, nat>, names: seq<string>, k: nat)
    requires 1 <= k <= |names| && forall i :: 0 <= i < k ==> names[i] in nodes
    ensures Positions(nodes, names[..k]) == [nodes[names[0]]] + Positions(nodes, names[1..][..k - 1])
  {
    var t := names[1..][..k - 1];
    assert forall i :: 0 <= i < k - 1 ==> t[i] == names[i + 1];
  }

  /** The status the parent loop returns. */
  lemma {:induction false} ConnectParentsStatus(net: Network, names: seq<string>, c: nat)
    requires c < |net.arena| && Registered(net) && Tracks(net, c)
    ensures ConnectParents(net, names, c).1 == StopStatus(net.nodes, names, StopIndex(net.nodes, names, net.arena[c].parents))
    decreases |names|, 1
  {
    if names != [] && names[0] in net.nodes && net.arena[c].name !in net.edges[names[0]] {
      ConnectTracks(net, names[0], c);
      StatusStep(net, names, c);
    }
  }

  lemma {:induction false} StatusStep(net: Network, names: seq<string>, c: nat)
    requires c < |net.arena| && Registered(net)
    requires names != [] && names[0] in net.nodes
    requires net.arena[c].name !in net.edges[names[0]]
    requires Registered(Connect(net, names[0], c)) && Tracks(Connect(net, names[0], c), c)
    requires Connect(net, names[0], c).arena[c].parents == net.arena[c].parents + [net.nodes[names[0]]]
    requires net.nodes[names[0]] !in net.arena[c].parents
    ensures ConnectParents(net, names, c).1 == StopStatus(net.nodes, names, StopIndex(net.nodes, names, net.arena[c].parents))
    decreases |names|, 0
  {
    var base := net.arena[c].parents;
    var next := Connect(net, names[0], c);
    assert next.nodes == net.nodes;
    ConnectParentsUnfold(net, names, c);
    ConnectParentsStatus(next, names[1..], c);
    var k := StopIndex(net.nodes, names[1..], base + [net.nodes[names[0]]]);
    assert ConnectParents(next, names[1..], c).1 == StopStatus(net.nodes, names[1..], k);
    StopIndexStep(net.nodes, names, base);
    StopStatusStep(net.nodes, names, k + 1);
  }

  lemma StopStatusStep(nodes: map<string, nat>, names: seq<string>, k: nat)
    requires 1 <= k <= |names|
    ensures StopStatus(nodes, names, k) == StopStatus(nodes, names[1..], k - 1)
  {
  }

  /** addConnections: the child is looked up first; an unknown child is an error. */
  function AddConnections(net: Network, parentNames: seq<string>, childName: string): (r: (Network, Status))
    requires Registered(net)
    ensures Registered(r.0) && SameButLinks(net.arena, r.0.arena)
    ensures r.0.nodes == net.nodes && r.0.nodeIndex == net.nodeIndex && r.0.assign == net.assign
    ensures forall u :: 0 <= u < |net.arena| && net.arena[u].name != childName ==>
      r.0.arena[u].parents == net.arena[u].parents
    ensures childName !in net.nodes ==> r == (net, Err(MissingChild(childName)))
    ensures childName in net.nodes ==> r == ConnectParents(net, parentNames, net.nodes[childName])
  {
    if childName !in net.nodes then (net, Err(MissingChild(childName)))
    else ConnectParents(net, parentNames, net.nodes[childName])
  }

  /** The constructor's second loop, from node k on. The status of every
      addConnections call is dropped. */
  function ConnectAll(net: Network, k: nat): (r: Network)
    requires k <= |net.arena| && Registered(net)
    ensures Registered(r) && SameButLinks(net.arena, r.arena)
    ensures r.nodes == net.nodes && r.nodeIndex == net.nodeIndex && r.assign == net.assign
    ensures forall v :: 0 <= v < k ==> r.arena[v].parents == net.arena[v].parents
    decreases |net.arena| - k
  {
    if k == |net.arena| then net
    else
      var next := AddConnections(net, net.arena[k].parentNames, net.arena[k].name).0;
      var r := ConnectAll(next, k + 1);
      SameButLinksTrans(net.arena, next.arena, r.arena);
      r
  }

  lemma SameButLinksTrans(a: seq<Node>, b: seq<Node>, c: seq<Node>)
    requires SameButLinks(a, b) && SameButLinks(b, c)
    ensures SameButLinks(a, c)
  {
  }

  lemma ConnectAllUnfold(net: Network, k: nat)
    requires k < |net.arena| && Registered(net)
    ensures ConnectAll(net, k) == ConnectAll(AddConnections(net, net.arena[k].parentNames, net.arena[k].name).0, k + 1)
  {
  }

  /** The second loop keeps the invariants. */
  lemma {:induction false} ConnectAllWired(net: Network, k: nat)
    requires k <= |net.arena| && Wired(net)
    ensures Wired(ConnectAll(net, k))
    decreases |net.arena| - k
  {
    if k < |net.arena| {
      var node := net.arena[k];
      assert node.name in net.nodes && net.nodes[node.name] == k;
      ConnectParentsWired(net, node.parentNames, k);
      ConnectAllUnfold(net, k);
      ConnectAllWired(AddConnections(net, node.parentNames, node.name).0, k + 1);
    }
  }

  /** Node v, still without parents when the loop reaches it, ends up linked to its
      declared parents up to the first unknown or repeated name. */
  lemma {:induction false} ConnectAllParents(net: Network, k: nat, v: nat)
    requires k <= v < |net.arena| && Wired(net) && net.arena[v].parents == []
    ensures var names := net.arena[v].parentNames;
      ConnectAll(net, k).arena[v].parents == Positions(net.nodes, names[..StopIndex(net.nodes, names, [])])
    decreases |net.arena| - k, 1
  {
    if v == k {
      ConnectAllHere(net, k);
    } else {
      ConnectAllLater(net, k, v);
    }
  }

  lemma ConnectAllHere(net: Network, k: nat)
    requires k < |net.arena| && Wired(net) && net.arena[k].parents == []
    ensures var names := net.arena[k].parentNames;
      ConnectAll(net, k).arena[k].parents == Positions(net.nodes, names[..StopIndex(net.nodes, names, [])])
  {
    var node := net.arena[k];
    assert node.name in net.nodes && net.nodes[node.name] == k;
    ConnectAllUnfold(net, k);
    WiredTracks(net, k);
    ConnectParentsLinks(net, node.parentNames, k);
    assert [] + Positions(net.nodes, node.parentNames[..StopIndex(net.nodes, node.parentNames, [])])
        == Positions(net.nodes, node.parentNames[..StopIndex(net.nodes, node.parentNames, [])]);
  }

  lemma {:induction false} ConnectAllLater(net: Network, k: nat, v: nat)
    requires k < v < |net.arena| && Wired(net) && net.arena[v].parents == []
    ensures var names := net.arena[v].parentNames;
      ConnectAll(net, k).arena[v].parents == Positions(net.nodes, names[..StopIndex(net.nodes, names, [])])
    decreases |net.arena| - k, 0
  {
    var next := AddConnections(net, net.arena[k].parentNames, net.arena[k].name).0;
    var names := net.arena[v].parentNames;
    assert ConnectAll(net, k) == ConnectAll(next, k + 1) && next.nodes == net.nodes
        && next.arena[v].parentNames == names by {
      ConnectRoundKeeps(net, k, v);
    }
    assert ConnectAll(next, k + 1).arena[v].parents
        == Positions(next.nodes, names[..StopIndex(next.nodes, names, [])]) by {
      ConnectRoundKeeps(net, k, v);
      ConnectAllParents(next, k + 1, v);
    }
  }

  /** One round of the second loop, seen from a later node v: the network stays
      wired, the registry and v's declared parents are kept, and v is still
      unlinked. */
  lemma ConnectRoundKeeps(net: Network, k: nat, v: nat)
    requires k < v < |net.arena| && Wired(net) && net.arena[v].parents == []
    ensures var next := AddConnections(net, net.arena[k].parentNames, net.arena[k].name).0;
      && |next.arena| == |net.arena| && Wired(next) && next.nodes == net.nodes
      && ConnectAll(net, k) == ConnectAll(next, k + 1)
      && next.arena[v].parents == [] && next.arena[v].parentNames == net.arena[v].parentNames
  {
    var node := net.arena[k];
    assert node.name in net.nodes && net.nodes[node.name] == k;
    ConnectParentsWired(net, node.parentNames, k);
    ConnectAllUnfold(net, k);
    ConnectionsKeep(net, k, v);
  }

  /** addConnections for node k changes no other node's parents. */
  lemma ConnectionsKeep(net: Network, k: nat, v: nat)
    requires k < |net.arena| && v < |net.arena| && v != k && Registered(net)
    ensures AddConnections(net, net.arena[k].parentNames, net.arena[k].name).0.arena[v].parents == net.arena[v].parents
  {
    assert net.arena[v].name != net.arena[k].name;
  }

  // ------------------------------------------------------------ validateCPTs

  /** validateCPTs: the first node, in the given order, whose CPT is rejected. */
  function ValidateCPTs(arena: seq<Node>, order: seq<nat>): (s: Status)
    requires InRange(order, |arena|)
    ensures s == Ok <==> forall i :: 0 <= i < |order| ==> ValidateCPT(arena[order[i]]) == Ok
    ensures s.Err? ==> exists i :: 0 <= i < |order| && s == ValidateCPT(arena[order[i]])
  {
    if order == [] then Ok
    else
      var s := ValidateCPT(arena[order[0]]);
      if s.Err? then s
      else
        var rest := ValidateCPTs(arena, order[1..]);
        assert forall i :: 1 <= i < |order| ==> order[i] == order[1..][i - 1];
        rest
  }

  /** With an ordering of the nodes, validateCPTs accepts exactly when every node's
      CPT has the right size. */
  lemma ValidateAll(arena: seq<Node>, order: seq<nat>)
    requires IsOrdering(order, |arena|)
    ensures ValidateCPTs(arena, order) == Ok <==> forall v :: 0 <= v < |arena| ==> ValidateCPT(arena[v]) == Ok
  {
    if ValidateCPTs(arena, order) == Ok {
      forall v | 0 <= v < |arena| ensures ValidateCPT(arena[v]) == Ok {
        assert v in order;
        var i :| 0 <= i < |order| && order[i] == v;
      }
    }
  }

  // -------------------------------------------------------------- constructor

  /** The network before the first loop: every node present, nothing registered. */
  function Empty(input: seq<Node>): (net: Network)
    ensures net.arena == input && net.nodes == map[] && net.edges == NoEdges(map[])
    ensures |net.assign| == |input| && forall v :: 0 <= v < |input| ==> net.assign[v] == Unset
  {
    Network(input, map[], map[], [], seq(|input|, _ => Unset))
  }

  /** The network after the first loop, when the names are distinct. */
  function Registration(input: seq<Node>): (net: Network)
    requires DistinctNames(input, |input|)
    ensures Registered(net)
  {
    var nodes := NameMap(input, |input|);
    var net := Empty(input).(nodes := nodes, edges := NoEdges(nodes));
    NameMapRegistered(input, net);
    net
  }

  lemma NameMapRegistered(input: seq<Node>, net: Network)
    requires DistinctNames(input, |input|)
    requires net.arena == input && net.nodes == NameMap(input, |input|) && net.edges.Keys == net.nodes.Keys
    ensures Registered(net)
  {
    forall name | name in net.nodes
      ensures net.nodes[name] < |input| && input[net.nodes[name]].name == name
    {
      NameMapKeys(input, |input|, name);
      var v :| 0 <= v < |input| && input[v].name == name;
      NameMapValues(input, |input|, v);
    }
    forall v | 0 <= v < |input|
      ensures input[v].name in net.nodes && net.nodes[input[v].name] == v
    {
      NameMapValues(input, |input|, v);
    }
  }

  /** Fresh nodes with distinct names, once registered, satisfy every structural
      invariant: nothing is linked and no edge is recorded. */
  lemma RegistrationWired(input: seq<Node>)
    requires DistinctNames(input, |input|)
    requires forall v :: 0 <= v < |input| ==> IsFresh(input[v])
    ensures Wired(Registration(input))
  {
    var net := Registration(input);
    assert Linked(net.arena);
    assert forall name :: name in net.edges ==> net.edges[name] == [];
  }

  /** Giving ids keeps the structural invariants. */
  lemma IndexKeepsWired(net: Network, order: seq<nat>)
    requires Wired(net) && InRange(order, |net.arena|)
    ensures Wired(Index(net, order))
  {
    var r := Index(net, order);
    assert forall v :: 0 <= v < |net.arena| ==> r.arena[v] == net.arena[v].(id := r.arena[v].id);
    SameButIdsWired(net, r);
  }

  /** The invariants do not look at ids. */
  lemma SameButIdsWired(net: Network, r: Network)
    requires Wired(net) && r.nodes == net.nodes && r.edges == net.edges && |r.arena| == |net.arena|
    requires forall v :: 0 <= v < |net.arena| ==> r.arena[v] == net.arena[v].(id := r.arena[v].id)
    ensures Wired(r)
  {
    assert forall v :: 0 <= v < |net.arena| ==> r.arena[v].name == net.arena[v].name;
    assert forall v :: 0 <= v < |net.arena| ==>
      r.arena[v].parents == net.arena[v].parents && r.arena[v].children == net.arena[v].children;
    assert Registered(r);
    assert LinksInRange(r.arena);
    assert Linked(r.arena);
  }

  /** NewBayesianNetwork: register, link, validate, index. A duplicate name and a
      CPT of the wrong size are errors (bn.go panics on both, dag.go returns them). */
  function NewBayesianNetwork(input: seq<Node>, cptOrder: seq<nat>, rootOrder: seq<nat>): (r: Result<Network>)
    requires forall v :: 0 <= v < |input| ==> IsFresh(input[v])
    requires IsOrdering(cptOrder, |input|) && InRange(rootOrder, |input|)
    ensures r.Failure? ==> r.error.DuplicateName? || r.error.CptDimension?
    ensures r.Success? ==> DistinctNames(input, |input|) && r.value == Index(Linking(input), rootOrder)
    ensures r.Success? ==> Indexed(r.value)
  {
    var registered :- AddNodes(Empty(input), 0);
    assert registered == Registration(input);
    var linked := ConnectAll(registered, 0);
    assert linked == Linking(input);
    var status := ValidateCPTs(linked.arena, cptOrder);
    if status.Err? then Failure(status.error)
    else
      IndexIsIndexed(linked, rootOrder);
      Success(Index(linked, rootOrder))
  }

  /** The network after the second loop. */
  function Linking(input: seq<Node>): (net: Network)
    requires DistinctNames(input, |input|)
    requires forall v :: 0 <= v < |input| ==> IsFresh(input[v])
    ensures Wired(net) && SameButLinks(input, net.arena) && Unindexed(net)
    ensures |net.assign| == |input| && forall v :: 0 <= v < |input| ==> net.assign[v] == Unset
  {
    RegistrationWired(input);
    ConnectAllWired(Registration(input), 0);
    ConnectAll(Registration(input), 0)
  }

  /** Two nodes with one name: construction fails, naming the shared name. */
  lemma NewRejectsDuplicates(input: seq<Node>, cptOrder: seq<nat>, rootOrder: seq<nat>)
    requires forall v :: 0 <= v < |input| ==> IsFresh(input[v])
    requires IsOrdering(cptOrder, |input|) && InRange(rootOrder, |input|)
    ensures var r := NewBayesianNetwork(input, cptOrder, rootOrder);
      && (!DistinctNames(input, |input|) ==> r.Failure? && r.error.DuplicateName?)
      && (r.Failure? && r.error.DuplicateName? ==>
            exists i, j :: 0 <= i < j < |input| && input[i].name == r.error.name && input[j].name == r.error.name)
  {
    var added := AddNodes(Empty(input), 0);
    if added.Success? {
      assert added.value == Registration(input);
      var status := ValidateCPTs(ConnectAll(added.value, 0).arena, cptOrder);
      if status.Err? {
        var i :| 0 <= i < |cptOrder| && status == ValidateCPT(ConnectAll(added.value, 0).arena[cptOrder[i]]);
      }
    }
  }

  /** With distinct names, construction succeeds exactly when every linked node's
      CPT has the size its parent count calls for. */
  lemma NewAcceptsValidCpts(input: seq<Node>, cptOrder: seq<nat>, rootOrder: seq<nat>)
    requires forall v :: 0 <= v < |input| ==> IsFresh(input[v])
    requires IsOrdering(cptOrder, |input|) && InRange(rootOrder, |input|)
    requires DistinctNames(input, |input|)
    ensures NewBayesianNetwork(input, cptOrder, rootOrder).Success? <==>
      forall v :: 0 <= v < |input| ==> ValidateCPT(Linking(input).arena[v]) == Ok
  {
    var added := AddNodes(Empty(input), 0);
    assert added == Success(Registration(input));
    ValidateAll(Linking(input).arena, cptOrder);
  }

  /** A constructed network keeps every invariant, holds the linked nodes with ids
      added, and has no sample set. */
  lemma NewIsValid(input: seq<Node>, cptOrder: seq<nat>, rootOrder: seq<nat>)
    requires forall v :: 0 <= v < |input| ==> IsFresh(input[v])
    requires IsOrdering(cptOrder, |input|) && InRange(rootOrder, |input|)
    requires NewBayesianNetwork(input, cptOrder, rootOrder).Success?
    ensures var net := NewBayesianNetwork(input, cptOrder, rootOrder).value;
      && DistinctNames(input, |input|)
      && Valid(net)
      && |net.arena| == |input|
      && (forall v :: 0 <= v < |input| ==> net.arena[v] == Linking(input).arena[v].(id := net.arena[v].id))
      && (forall v :: 0 <= v < |input| ==> net.assign[v] == Unset)
  {
    var linked := Linking(input);
    IndexKeepsWired(linked, rootOrder);
    IndexIsIndexed(linked, rootOrder);
  }
}

module ConstructionFacts {
  import opened Errors
  import opened Seqs
  import opened Nodes
  import opened Networks
  import opened Construction

  /** With every declared parent registered and no name repeated, the parent loop
      runs to the end. */
  lemma {:induction false} StopIndexAll(nodes: map<string, nat>, names: seq<string>, linked: seq<nat>)
    requires forall i :: 0 <= i < |names| ==> names[i] in nodes
    requires Distinct(Positions(nodes, names))
    requires forall i :: 0 <= i < |names| ==> nodes[names[i]] !in linked
    ensures StopIndex(nodes, names, linked) == |names|
    decreases |names|
  {
    if names != [] {
      var p := nodes[names[0]];
      var rest := names[1..];
      assert Positions(nodes, rest) == Positions(nodes, names)[1..];
      forall i | 0 <= i < |rest| ensures nodes[rest[i]] !in linked + [p] {
        assert Positions(nodes, names)[i + 1] != Positions(nodes, names)[0];
      }
      StopIndexAll(nodes, rest, linked + [p]);
    }
  }

  /** Distinct registered names lead to distinct nodes. */
  lemma DistinctPositions(net: Network, names: seq<string>)
    requires Registered(net) && Distinct(names)
    requires forall i :: 0 <= i < |names| ==> names[i] in net.nodes
    ensures Distinct(Positions(net.nodes, names))
  {
    var ps := Positions(net.nodes, names);
    forall i, j | 0 <= i < j < |names| ensures ps[i] != ps[j] {
      assert net.arena[ps[i]].name == names[i] && net.arena[ps[j]].name == names[j];
    }
  }

  /** When a node's declared parents are all present and pairwise different, the
      constructor links exactly them, in the declared order: ValidateParents
      accepts the declared names. */
  lemma DeclaredParentsLinked(input: seq<Node>, v: nat)
    requires DistinctNames(input, |input|)
    requires forall u :: 0 <= u < |input| ==> IsFresh(input[u])
    requires v < |input|
    requires Distinct(input[v].parentNames)
    requires forall n :: n in input[v].parentNames ==> exists u :: 0 <= u < |input| && input[u].name == n
    ensures var arena := Linking(input).arena;
      LinkedNames(arena, arena[v]) == input[v].parentNames
  {
    var reg := Registration(input);
    RegistrationWired(input);
    var names := input[v].parentNames;
    forall i | 0 <= i < |names| ensures names[i] in reg.nodes {
      assert names[i] in names;
      NameMapKeys(input, |input|, names[i]);
    }
    DistinctPositions(reg, names);
    StopIndexAll(reg.nodes, names, []);
    ConnectAllParents(reg, 0, v);
    assert names[..|names|] == names;
    NamesOfPositions(Linking(input), names, v);
  }

  /** A node linked to the positions of some names has those names as its parents'. */
  lemma NamesOfPositions(net: Network, names: seq<string>, v: nat)
    requires Registered(net) && v < |net.arena| && LinksInRange(net.arena)
    requires forall i :: 0 <= i < |names| ==> names[i] in net.nodes
    requires net.arena[v].parents == Positions(net.nodes, names)
    ensures LinkedNames(net.arena, net.arena[v]) == names
  {
  }

  /** A node whose first declared parent does not exist gets no parent at all: the
      lookup error is dropped and the node becomes a root. */
  lemma DanglingParentMakesRoot(input: seq<Node>, v: nat)
    requires DistinctNames(input, |input|)
    requires forall u :: 0 <= u < |input| ==> IsFresh(input[u])
    requires v < |input| && input[v].parentNames != []
    requires forall u :: 0 <= u < |input| ==> input[u].name != input[v].parentNames[0]
    ensures IsRoot(Linking(input).arena[v])
  {
    var reg := Registration(input);
    RegistrationWired(input);
    var names := input[v].parentNames;
    NameMapKeys(input, |input|, names[0]);
    ConnectAllParents(reg, 0, v);
    assert StopIndex(reg.nodes, names, []) == 0;
  }

  /** Examples of where the parent loop stops: a repeated name ends it early with no
      error, so later parents are never linked; an unknown name ends it with one. */
  lemma StopExamples()
    ensures var nodes := map["A" := 0, "B" := 1];
      && StopIndex(nodes, ["A", "A", "B"], []) == 1
      && StopStatus(nodes, ["A", "A", "B"], 1) == Ok
      && StopIndex(nodes, ["Ghost", "A"], []) == 0
      && StopStatus(nodes, ["Ghost", "A"], 0) == Err(MissingParent("Ghost"))
  {
    var nodes := map["A" := 0, "B" := 1];
    assert ["A", "A", "B"][1..] == ["A", "B"];
    assert [] + [0] == [0];
    assert StopIndex(nodes, ["A", "B"], [0]) == 0;
  }
}

/** The four-node diamond used as the worked example of indexing, rebuilt here
    through the constructor's own registration and linking loops. */
module DiamondNetwork {
  import opened Seqs
  import opened Nodes
  import opened Networks
  import opened NetworkIndex
  import opened Construction

  /** A CPT with 0.5 for every entry, over no parents and over two parents. */
  function HalfCpt(): map<string, real> { map["T" := 0.5, "F" := 0.5] }
  function PairCpt(): map<string, real> { map["TT" := 0.5, "TF" := 0.5, "FT" := 0.5, "FF" := 0.5] }

  /** The diamond's nodes as NewRootNode and NewNode build them, in the order R, X, Z, Y. */
  function DiamondInput(): seq<Node> {
    [ Node(0, "R", [], [], [], HalfCpt()), Node(0, "X", ["R"], [], [], HalfCpt()),
      Node(0, "Z", ["R", "Y"], [], [], PairCpt()), Node(0, "Y", ["X"], [], [], HalfCpt()) ]
  }

  /** Each entry is what NewRootNode or NewNode returns for it. */
  lemma DiamondInputBuilt()
    ensures DiamondInput() == [NewRootNode("R", 0.5), NewNode("X", ["R"], HalfCpt()),
                               NewNode("Z", ["R", "Y"], PairCpt()), NewNode("Y", ["X"], HalfCpt())]
  {
  }

  /** The arena after X is linked to R, after Z is linked to R, and after Z is
      linked to Y. */
  function LinkedX(): seq<Node> {
    [ Node(0, "R", [], [], [1], HalfCpt()), Node(0, "X", ["R"], [0], [], HalfCpt()),
      Node(0, "Z", ["R", "Y"], [], [], PairCpt()), Node(0, "Y", ["X"], [], [], HalfCpt()) ]
  }
  function LinkedZR(): seq<Node> {
    [ Node(0, "R", [], [], [1, 2], HalfCpt()), Node(0, "X", ["R"], [0], [], HalfCpt()),
      Node(0, "Z", ["R", "Y"], [0], [], PairCpt()), Node(0, "Y", ["X"], [], [], HalfCpt()) ]
  }
  function LinkedZ(): seq<Node> {
    [ Node(0, "R", [], [], [1, 2], HalfCpt()), Node(0, "X", ["R"], [0], [], HalfCpt()),
      Node(0, "Z", ["R", "Y"], [0, 3], [], PairCpt()), Node(0, "Y", ["X"], [], [2], HalfCpt()) ]
  }

  /** Each Link adds the child to the parent and the parent to the child. */
  lemma LinkRX() ensures Link(DiamondInput(), 0, 1) == LinkedX() {
    var a := DiamondInput();
    LinkRXEnds();
    var a1 := a[0 := AddChild(a[0], 1)];
    assert a1[1 := AddParent(a1[1], 0)] == LinkedX();
  }
  lemma LinkRXEnds()
    ensures AddChild(DiamondInput()[0], 1) == LinkedX()[0]
    ensures AddParent(DiamondInput()[1], 0) == LinkedX()[1]
  {
    assert AddOnce([], 1) == [1] && AddOnce([], 0) == [0];
  }
  lemma LinkRZ() ensures Link(LinkedX(), 0, 2) == LinkedZR() {
    var a := LinkedX();
    LinkRZEnds();
    var a1 := a[0 := AddChild(a[0], 2)];
    assert a1[2 := AddParent(a1[2], 0)] == LinkedZR();
  }
  lemma LinkRZEnds()
    ensures AddChild(LinkedX()[0], 2) == LinkedZR()[0]
    ensures AddParent(LinkedX()[2], 0) == LinkedZR()[2]
  {
    assert AddOnce([1], 2) == [1, 2] && AddOnce([], 0) == [0];
  }
  lemma LinkYZ() ensures Link(LinkedZR(), 3, 2) == LinkedZ() {
    var a := LinkedZR();
    LinkYZEnds();
    var a1 := a[3 := AddChild(a[3], 2)];
    assert a1[2 := AddParent(a1[2], 3)] == LinkedZ();
  }
  lemma LinkYZEnds()
    ensures AddChild(LinkedZR()[3], 2) == LinkedZ()[3]
    ensures AddParent(LinkedZR()[2], 3) == LinkedZ()[2]
  {
    assert AddOnce([], 2) == [2] && AddOnce([0], 3) == [0, 3];
  }
  lemma LinkXY() ensures Link(LinkedZ(), 1, 3) == Diamond() {
    var a := LinkedZ();
    LinkXYEnds();
    var a1 := a[1 := AddChild(a[1], 3)];
    assert a1[3 := AddParent(a1[3], 1)] == Diamond();
  }
  lemma LinkXYEnds()
    ensures AddChild(LinkedZ()[1], 3) == Diamond()[1]
    ensures AddParent(LinkedZ()[3], 1) == Diamond()[3]
  {
    assert AddOnce([], 3) == [3] && AddOnce([], 1) == [1];
  }

  /** bn.nodes after the first loop. */
  function DiamondNames(): map<string, nat> {
    map["R" := 0, "X" := 1, "Z" := 2, "Y" := 3]
  }

  /** The first loop registers each name at its position and gives it no edges. */
  lemma DiamondRegistered()
    ensures DistinctNames(DiamondInput(), 4)
    ensures Registration(DiamondInput()).arena == DiamondInput()
    ensures Registration(DiamondInput()).nodes == DiamondNames()
    ensures Registration(DiamondInput()).edges == NoEdges(DiamondNames())
  {
    assert DistinctNames(DiamondInput(), 4);
  }

  /** One parent not yet recorded: the loop makes one full round and stops. */
  lemma ConnectOneParent(net: Network, name: string, c: nat)
    requires Registered(net) && name in net.nodes && c < |net.arena|
    requires net.arena[c].name !in net.edges[name]
    ensures ConnectParents(net, [name], c).0 == Connect(net, name, c)
  {
    ConnectParentsUnfold(net, [name], c);
    assert [name][1..] == [];
  }

  /** addConnections for X links R -> X and records the edge under "R". */
  lemma ConnectX(net: Network)
    requires Registered(net) && net.arena == DiamondInput() && net.nodes == DiamondNames()
    requires net.edges == NoEdges(DiamondNames())
    ensures var r := AddConnections(net, ["R"], "X").0;
      r.arena == LinkedX() && r.edges["R"] == ["X"] && r.edges["Y"] == [] && r.edges["X"] == []
  {
    ConnectOneParent(net, "R", 1);
    LinkRX();
  }

  /** addConnections for Z links R -> Z, then Y -> Z, in its parent order. */
  lemma ConnectZ(net: Network)
    requires Registered(net) && net.arena == LinkedX() && net.nodes == DiamondNames()
    requires net.edges["R"] == ["X"] && net.edges["Y"] == []
    ensures var r := AddConnections(net, ["R", "Y"], "Z").0;
      r.arena == LinkedZ() && r.edges["X"] == net.edges["X"]
  {
    ConnectParentsUnfold(net, ["R", "Y"], 2);
    assert ["R", "Y"][1..] == ["Y"];
    var n1 := Connect(net, "R", 2);
    ConnectZR(net);
    ConnectZY(n1);
  }

  lemma ConnectZR(net: Network)
    requires Registered(net) && net.arena == LinkedX() && net.nodes == DiamondNames()
    ensures var r := Connect(net, "R", 2);
      && Registered(r) && r.nodes == net.nodes
      && r.arena == LinkedZR() && r.edges["Y"] == net.edges["Y"] && r.edges["X"] == net.edges["X"]
  {
    LinkRZ();
  }

  lemma ConnectZY(net: Network)
    requires Registered(net) && net.arena == LinkedZR() && net.nodes == DiamondNames()
    requires net.edges["Y"] == []
    ensures var r := ConnectParents(net, ["Y"], 2).0;
      r.arena == LinkedZ() && r.edges["X"] == net.edges["X"]
  {
    ConnectOneParent(net, "Y", 2);
    LinkYZ();
  }

  /** addConnections for Y links X -> Y, which completes the diamond. */
  lemma ConnectY(net: Network)
    requires Registered(net) && net.arena == LinkedZ() && net.nodes == DiamondNames()
    requires net.edges["X"] == []
    ensures AddConnections(net, ["X"], "Y").0.arena == Diamond()
  {
    ConnectOneParent(net, "X", 3);
    LinkXY();
  }

  /** Every input node still has no links. */
  lemma DiamondFresh()
    ensures forall v :: 0 <= v < |DiamondInput()| ==> IsFresh(DiamondInput()[v])
  {
  }

  /** One round of the second loop with the node's parent names spelled out. */
  lemma ConnectRound(net: Network, k: nat, parentNames: seq<string>, name: string)
    requires k < |net.arena| && Registered(net)
    requires net.arena[k].parentNames == parentNames && net.arena[k].name == name
    ensures ConnectAll(net, k) == ConnectAll(AddConnections(net, parentNames, name).0, k + 1)
  {
    ConnectAllUnfold(net, k);
  }

  /** The second loop turns the registered input into the diamond arena. */
  lemma DiamondConnected()
    ensures DistinctNames(DiamondInput(), 4)
    ensures ConnectAll(Registration(DiamondInput()), 0).arena == Diamond()
  {
    DiamondRegistered();
    var reg := Registration(DiamondInput());
    ConnectRound(reg, 0, [], "R");
    var n1 := AddConnections(reg, [], "R").0;
    assert n1 == reg;
    ConnectRound(n1, 1, ["R"], "X");
    ConnectX(n1);
    ConnectFromZ(AddConnections(n1, ["R"], "X").0);
  }

  /** Once R and X are linked, the rounds for Z and Y finish the diamond. */
  lemma ConnectFromZ(net: Network)
    requires Registered(net) && net.arena == LinkedX() && net.nodes == DiamondNames()
    requires net.edges["R"] == ["X"] && net.edges["Y"] == [] && net.edges["X"] == []
    ensures ConnectAll(net, 2).arena == Diamond()
  {
    ConnectRound(net, 2, ["R", "Y"], "Z");
    ConnectZ(net);
    var n3 := AddConnections(net, ["R", "Y"], "Z").0;
    assert n3.arena[3] == LinkedZ()[3];
    ConnectRound(n3, 3, ["X"], "Y");
    ConnectY(n3);
    var n4 := AddConnections(n3, ["X"], "Y").0;
    assert ConnectAll(n4, 4) == n4;
  }

  /** The diamond arena is exactly what the constructor links from the nodes
      R, X, Z, Y (in that order): R -> X, R -> Z, Y -> Z, X -> Y. */
  lemma DiamondIsLinked()
    ensures DistinctNames(DiamondInput(), 4)
    ensures forall v :: 0 <= v < |DiamondInput()| ==> IsFresh(DiamondInput()[v])
    ensures Linking(DiamondInput()).arena == Diamond()
  {
    DiamondFresh();
    DiamondConnected();
  }
}
