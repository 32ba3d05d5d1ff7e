/** indexNetwork (bn.go, dag.go): number the nodes 1..N by frontier expansion
    from the roots, and what that numbering does and does not guarantee. */
module NetworkIndex {
  import opened Seqs
  import opened Nodes
  import opened Networks
  import opened Indexing

  /** The child lists of the arena, the graph the expansion walks. */
  function Children(arena: seq<Node>): (ch: seq<seq<nat>>)
    requires LinksInRange(arena)
    ensures |ch| == |arena| && WellFormed(ch)
    ensures forall v :: 0 <= v < |arena| ==> ch[v] == arena[v].children
  {
    seq(|arena|, v requires 0 <= v < |arena| => arena[v].children)
  }

  /** The roots in the order `order` visits the nodes (Go's map order). */
  function Roots(arena: seq<Node>, order: seq<nat>): (roots: seq<nat>)
    requires InRange(order, |arena|)
    ensures InRange(roots, |arena|)
    ensures forall v :: v in roots <==> v in order && IsRoot(arena[v])
    ensures Distinct(order) ==> Distinct(roots)
  {
    if order == [] then []
    else
      var last := order[|order| - 1];
      var rest := Roots(arena, order[..|order| - 1]);
      assert forall v :: v in order <==> v in order[..|order| - 1] || v == last;
      if IsRoot(arena[last]) then rest + [last] else rest
  }

  /** Give node index[j] the id j + 1. */
  function SetIds(arena: seq<Node>, index: seq<nat>): (r: seq<Node>)
    requires InRange(index, |arena|) && Distinct(index)
    ensures |r| == |arena|
    ensures forall j :: 0 <= j < |index| ==> r[index[j]].id == j + 1
    ensures forall v :: 0 <= v < |arena| && v !in index ==> r[v] == arena[v]
    ensures forall v :: 0 <= v < |arena| ==> r[v] == arena[v].(id := r[v].id)
  {
    if index == [] then arena
    else
      var last := index[|index| - 1];
      var prefix := index[..|index| - 1];
      var a := SetIds(arena, prefix);
      assert forall v :: v in index <==> v in prefix || v == last;
      assert last !in prefix;
      a[last := a[last].(id := |index|)]
  }

  /** The network after indexNetwork, as a function of the root order. */
  function Index(net: Network, order: seq<nat>): (r: Network)
    requires LinksInRange(net.arena) && InRange(order, |net.arena|)
  {
    var index := Expand(Children(net.arena), Roots(net.arena, order), []);
    net.(arena := SetIds(net.arena, index), nodeIndex := index)
  }

  /** No node has an id yet and nothing is indexed. */
  predicate Unindexed(net: Network) {
    net.nodeIndex == [] && forall v :: 0 <= v < |net.arena| ==> net.arena[v].id == 0
  }

  /** indexNetwork, loop for loop: collect the roots, then repeatedly give every
      frontier node without an id the next id and make its children the next
      frontier, until the frontier is empty. */
  method IndexNetwork(net: Network, order: seq<nat>) returns (r: Network)
    requires LinksInRange(net.arena) && InRange(order, |net.arena|)
    requires Unindexed(net)
    ensures r == Index(net, order)
    ensures Indexed(r)
    ensures |r.arena| == |net.arena|
    ensures forall v :: 0 <= v < |net.arena| ==> r.arena[v] == net.arena[v].(id := r.arena[v].id)
  {
    var roots := CollectRoots(net.arena, order);
    var ch := Children(net.arena);
    ghost var finalIndex := Expand(ch, roots, []);
    var arena := net.arena;
    var nodeIndex: seq<nat> := [];
    while |roots| > 0
      invariant InRange(roots, |ch|) && InRange(nodeIndex, |ch|) && Distinct(nodeIndex)
      invariant Expand(ch, roots, nodeIndex) == finalIndex
      invariant arena == SetIds(net.arena, nodeIndex)
      decreases |ch| - |nodeIndex|, |roots|
    {
      DistinctBound(nodeIndex, |ch|);
      var children;
      arena, nodeIndex, children := IndexRound(net.arena, ch, arena, roots, nodeIndex);
      DistinctBound(nodeIndex, |ch|);
      roots := children;
    }
    r := net.(arena := arena, nodeIndex := nodeIndex);
    IndexIsIndexed(net, order);
  }

  /** indexNetwork's first loop: the nodes without parents, in the given order. */
  method CollectRoots(arena: seq<Node>, order: seq<nat>) returns (roots: seq<nat>)
    requires InRange(order, |arena|)
    ensures roots == Roots(arena, order)
  {
    roots := [];
    var k := 0;
    while k < |order|
      invariant 0 <= k <= |order|
      invariant roots == Roots(arena, order[..k])
    {
      assert order[..k + 1][..k] == order[..k];
      if |arena[order[k]].parents| == 0 {
        roots := roots + [order[k]];
      }
      k := k + 1;
    }
    assert order[..|order|] == order;
  }

  /** With no ids to begin with, a node has an id exactly when it is indexed. */
  lemma SetIdsMarks(base: seq<Node>, index: seq<nat>, v: nat)
    requires forall u :: 0 <= u < |base| ==> base[u].id == 0
    requires InRange(index, |base|) && Distinct(index) && v < |base|
    ensures SetIds(base, index)[v].id != 0 <==> v in index
  {
    if v in index {
      var j :| 0 <= j < |index| && index[j] == v;
    }
  }

  /** Indexing one more node gives it the next id and changes nothing else. */
  lemma SetIdsAppend(base: seq<Node>, index: seq<nat>, v: nat)
    requires InRange(index, |base|) && Distinct(index) && v < |base| && v !in index
    ensures Distinct(index + [v])
    ensures var a := SetIds(base, index);
            SetIds(base, index + [v]) == a[v := a[v].(id := |index| + 1)]
  {
    assert (index + [v])[..|index|] == index;
  }

  /** The inner loop's body for the first frontier node: a node that already has
      an id is passed over; otherwise it gets the next id and its children join
      the next frontier. */
  method VisitNode(base: seq<Node>, ch: seq<seq<nat>>, arena0: seq<Node>, index0: seq<nat>,
                   children0: seq<nat>, id0: nat, frontier: seq<nat>)
    returns (arena: seq<Node>, nodeIndex: seq<nat>, children: seq<nat>, id: nat)
    requires LinksInRange(base) && ch == Children(base)
    requires forall v :: 0 <= v < |base| ==> base[v].id == 0
    requires frontier != [] && InRange(frontier, |ch|)
    requires InRange(index0, |ch|) && Distinct(index0) && InRange(children0, |ch|)
    requires arena0 == SetIds(base, index0) && id0 == |index0| + 1
    ensures InRange(nodeIndex, |ch|) && Distinct(nodeIndex) && InRange(children, |ch|)
    ensures arena == SetIds(base, nodeIndex) && id == |nodeIndex| + 1
    ensures Visit(ch, frontier[1..], nodeIndex, children) == Visit(ch, frontier, index0, children0)
  {
    var node := frontier[0];
    SetIdsMarks(base, index0, node);
    if arena0[node].id != 0 {
      VisitSkip(ch, frontier, index0, children0);
      return arena0, index0, children0, id0;
    }
    VisitTake(ch, frontier, index0, children0);
    SetIdsAppend(base, index0, node);
    arena := arena0[node := arena0[node].(id := id0)];
    nodeIndex := index0 + [node];
    id := id0 + 1;
    children := children0 + arena[node].children;
  }

  /** One round of indexNetwork's outer loop: the inner loop over the frontier. */
  method IndexRound(base: seq<Node>, ch: seq<seq<nat>>, arena0: seq<Node>, roots: seq<nat>, index0: seq<nat>)
    returns (arena: seq<Node>, nodeIndex: seq<nat>, children: seq<nat>)
    requires LinksInRange(base) && ch == Children(base)
    requires forall v :: 0 <= v < |base| ==> base[v].id == 0
    requires InRange(roots, |ch|) && InRange(index0, |ch|) && Distinct(index0)
    requires arena0 == SetIds(base, index0)
    ensures (nodeIndex, children) == Visit(ch, roots, index0, [])
    ensures Distinct(nodeIndex) && arena == SetIds(base, nodeIndex)
  {
    arena, nodeIndex, children := arena0, index0, [];
    var id := |index0| + 1;
    var j := 0;
    while j < |roots|
      invariant 0 <= j <= |roots|
      invariant InRange(nodeIndex, |ch|) && Distinct(nodeIndex) && InRange(children, |ch|)
      invariant Visit(ch, roots[j..], nodeIndex, children) == Visit(ch, roots, index0, [])
      invariant arena == SetIds(base, nodeIndex)
      invariant id == |nodeIndex| + 1
    {
      arena, nodeIndex, children, id := VisitNode(base, ch, arena, nodeIndex, children, id, roots[j..]);
      assert roots[j..][1..] == roots[j + 1..];
      j := j + 1;
    }
    assert roots[|roots|..] == [];
  }

  // ---------------------------------------------------------------- properties

  lemma IndexIsIndexed(net: Network, order: seq<nat>)
    requires LinksInRange(net.arena) && InRange(order, |net.arena|) && Unindexed(net)
    ensures Indexed(Index(net, order))
    ensures LinksInRange(Index(net, order).arena)
  {
    var r := Index(net, order);
    assert forall v :: 0 <= v < |net.arena| ==> r.arena[v].children == net.arena[v].children;
  }

  /** The roots take the ids 1 .. #roots, in the order the root loop met them. */
  lemma RootsTakeFirstIds(net: Network, order: seq<nat>)
    requires LinksInRange(net.arena) && InRange(order, |net.arena|) && Distinct(order)
    ensures var r := Index(net, order);
            var roots := Roots(net.arena, order);
            && |roots| <= |r.nodeIndex|
            && forall j :: 0 <= j < |roots| ==> r.nodeIndex[j] == roots[j] && r.arena[roots[j]].id == j + 1
  {
    RootsFirst(Children(net.arena), Roots(net.arena, order));
  }

  /** Every indexed node with a linked parent has a parent indexed before it:
      that parent is in the index and has a smaller, non-zero id. */
  lemma EarlierParent(net: Network, order: seq<nat>)
    requires Linked(net.arena) && InRange(order, |net.arena|)
    ensures var r := Index(net, order);
            forall j :: 0 <= j < |r.nodeIndex| && !IsRoot(net.arena[r.nodeIndex[j]]) ==>
              exists p :: (p in net.arena[r.nodeIndex[j]].parents && p in r.nodeIndex[..j] &&
                           0 < r.arena[p].id < r.arena[r.nodeIndex[j]].id)
  {
    var r := Index(net, order);
    forall j | 0 <= j < |r.nodeIndex| && !IsRoot(net.arena[r.nodeIndex[j]])
      ensures exists p :: (p in net.arena[r.nodeIndex[j]].parents && p in r.nodeIndex[..j] &&
                           0 < r.arena[p].id < r.arena[r.nodeIndex[j]].id)
    {
      EarlierParentAt(net, order, j);
    }
  }

  lemma EarlierParentAt(net: Network, order: seq<nat>, j: nat)
    requires Linked(net.arena) && InRange(order, |net.arena|)
    requires j < |Index(net, order).nodeIndex| && !IsRoot(net.arena[Index(net, order).nodeIndex[j]])
    ensures var r := Index(net, order);
            exists p :: (p in net.arena[r.nodeIndex[j]].parents && p in r.nodeIndex[..j] &&
                         0 < r.arena[p].id < r.arena[r.nodeIndex[j]].id)
  {
    var r := Index(net, order);
    var i := LinkedBefore(net, order, j);
    var p := r.nodeIndex[i];
    assert r.arena[p].id == i + 1 && r.arena[r.nodeIndex[j]].id == j + 1;
    assert r.nodeIndex[..j][i] == p;
  }

  /** The node at position j of the index, not being a root, was reached as a
      child of the node at some earlier position i, which is therefore one of
      its parents. */
  lemma LinkedBefore(net: Network, order: seq<nat>, j: nat) returns (i: nat)
    requires Linked(net.arena) && InRange(order, |net.arena|)
    requires j < |Index(net, order).nodeIndex| && !IsRoot(net.arena[Index(net, order).nodeIndex[j]])
    ensures var index := Index(net, order).nodeIndex;
            i < j && index[i] in net.arena[index[j]].parents
  {
    var ch := Children(net.arena);
    var roots := Roots(net.arena, order);
    var index := Expand(ch, roots, []);
    ExpandJustified(ch, roots, roots, []);
    var v := index[j];
    assert v !in roots;
    i :| 0 <= i < j && v in ch[index[i]];
    var p := index[i];
    var k :| 0 <= k < |net.arena[p].children| && net.arena[p].children[k] == v;
    assert p in net.arena[v].parents;
  }

  /** On an acyclic graph every node is reached: the index lists all N nodes, so
      NodeCount equals the number of nodes. */
  lemma IndexCoversAcyclic(net: Network, order: seq<nat>, rank: seq<nat>)
    requires Linked(net.arena) && IsOrdering(order, |net.arena|)
    requires RankedDag(net.arena, rank)
    ensures |Index(net, order).nodeIndex| == |net.arena|
  {
    var ch := Children(net.arena);
    var roots := Roots(net.arena, order);
    var index := Expand(ch, roots, []);
    ExpandCovers(ch, roots, []);
    ExpandClosed(ch, roots, []);
    forall i, j | 0 <= i < |index| && 0 <= j < |net.arena[index[i]].children|
      ensures net.arena[index[i]].children[j] in index
    {
      assert Closed(ch, index);
      assert ch[index[i]] == net.arena[index[i]].children;
      assert ch[index[i]][j] in index;
    }
    forall v | 0 <= v < |net.arena|
      ensures v in index
    {
      Reached(net.arena, order, rank, index, v);
    }
    CoveringLength(index, |net.arena|);
  }

  lemma {:induction false} Reached(arena: seq<Node>, order: seq<nat>, rank: seq<nat>, index: seq<nat>, v: nat)
    requires Linked(arena) && IsOrdering(order, |arena|) && RankedDag(arena, rank)
    requires InRange(index, |arena|) && v < |arena|
    requires forall u :: u in Roots(arena, order) ==> u in index
    requires forall i, j :: 0 <= i < |index| && 0 <= j < |arena[index[i]].children| ==> arena[index[i]].children[j] in index
    ensures v in index
    decreases rank[v]
  {
    if IsRoot(arena[v]) {
      assert v in order;
    } else {
      var p := arena[v].parents[0];
      Reached(arena, order, rank, index, p);
      var i :| 0 <= i < |index| && index[i] == p;
      var k :| 0 <= k < |arena[p].children| && arena[p].children[k] == v;
    }
  }

  // ------------------------------------------------------------- the example

  /** R, X, Z, Y at positions 0..3, linked as R -> X, R -> Z, X -> Y, Y -> Z: the
      arena the constructor links from these nodes in this order
      (DiamondNetwork.DiamondIsLinked). */
  function Diamond(): seq<Node> {
    [ Node(0, "R", [], [], [1, 2], map["T" := 0.5, "F" := 0.5]),
      Node(0, "X", ["R"], [0], [3], map["T" := 0.5, "F" := 0.5]),
      Node(0, "Z", ["R", "Y"], [0, 3], [], map["TT" := 0.5, "TF" := 0.5, "FT" := 0.5, "FF" := 0.5]),
      Node(0, "Y", ["X"], [1], [2], map["T" := 0.5, "F" := 0.5]) ]
  }

  /** Indexing R -> X, R -> Z, X -> Y, Y -> Z gives R = 1, X = 2, Z = 3, Y = 4:
      the parent Y gets a LARGER id than its child Z, while the parent R gets a
      smaller id than its child X. Neither "every parent below every child" nor
      "every parent above every child" holds. */
  lemma DiamondIds()
    ensures var r := Index(Network(Diamond(), map[], map[], [], ["", "", "", ""]), [0, 1, 2, 3]);
            && r.nodeIndex == [0, 1, 2, 3]
            && r.arena[0].id == 1 && r.arena[1].id == 2 && r.arena[2].id == 3 && r.arena[3].id == 4
            && 3 in r.arena[2].parents && r.arena[3].id > r.arena[2].id
            && 0 in r.arena[1].parents && r.arena[0].id < r.arena[1].id
  {
    var net := Network(Diamond(), map[], map[], [], ["", "", "", ""]);
    assert Children(Diamond()) == DiamondChildren();
    assert Roots(Diamond(), [0, 1, 2, 3]) == [0] by {
      assert [0, 1, 2, 3][..3] == [0, 1, 2];
      assert [0, 1, 2][..2] == [0, 1];
      assert [0, 1][..1] == [0];
      assert [0][..0] == [];
    }
    DiamondIndex();
  }
}
