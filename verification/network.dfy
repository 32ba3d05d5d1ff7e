/** The BayesianNetwork record shared by bn.go and dag.go, and the invariants
    that its constructor establishes. */
module Networks {
  import opened Seqs
  import opened Nodes

  datatype Network = Network(
    arena: seq<Node>,                 // the nodes, in the order given to the constructor
    nodes: map<string, nat>,          // name -> arena position
    edges: map<string, seq<string>>,  // parent name -> names of its children
    nodeIndex: seq<nat>,              // the indexed nodes, in id order
    assign: seq<string>)              // the current sample of every arena node

  /** The names of the arena's nodes, by position. */
  function Names(arena: seq<Node>): (names: seq<string>)
    ensures |names| == |arena|
    ensures forall v :: 0 <= v < |arena| ==> names[v] == arena[v].name
  {
    seq(|arena|, v requires 0 <= v < |arena| => arena[v].name)
  }

  /** `nodes` maps every arena name to its own position and nothing else. */
  predicate Registered(net: Network) {
    && (forall name :: name in net.nodes ==>
          net.nodes[name] < |net.arena| && net.arena[net.nodes[name]].name == name)
    && (forall v :: 0 <= v < |net.arena| ==>
          net.arena[v].name in net.nodes && net.nodes[net.arena[v].name] == v)
    && net.edges.Keys == net.nodes.Keys
  }

  predicate LinksInRange(arena: seq<Node>) {
    forall v :: 0 <= v < |arena| ==>
      InRange(arena[v].parents, |arena|) && InRange(arena[v].children, |arena|)
  }

  /** Parent and child links are duplicate-free and always made in pairs. */
  predicate Linked(arena: seq<Node>) {
    && LinksInRange(arena)
    && (forall v :: 0 <= v < |arena| ==> Distinct(arena[v].parents) && Distinct(arena[v].children))
    && (forall v, i :: 0 <= v < |arena| && 0 <= i < |arena[v].parents| ==>
          v in arena[arena[v].parents[i]].children)
    && (forall p, i :: 0 <= p < |arena| && 0 <= i < |arena[p].children| ==>
          p in arena[arena[p].children[i]].parents)
  }

  /** `edges` holds no child twice, and p -> c is an edge exactly when c is linked
      as a child of p. */
  predicate EdgesMirror(net: Network)
    requires Registered(net) && LinksInRange(net.arena)
  {
    && (forall name :: name in net.edges ==> Distinct(net.edges[name]))
    && (forall name, i :: name in net.edges && 0 <= i < |net.edges[name]| ==> net.edges[name][i] in net.nodes)
    && (forall p, c :: 0 <= p < |net.arena| && 0 <= c < |net.arena| ==>
          (c in net.arena[p].children <==> net.arena[c].name in net.edges[net.arena[p].name]))
  }

  /** nodeIndex[i] has id i + 1, each node is indexed at most once, and a node
      outside the index keeps id 0. */
  predicate Indexed(net: Network) {
    && InRange(net.nodeIndex, |net.arena|)
    && Distinct(net.nodeIndex)
    && (forall i :: 0 <= i < |net.nodeIndex| ==> net.arena[net.nodeIndex[i]].id == i + 1)
    && (forall v :: 0 <= v < |net.arena| && v !in net.nodeIndex ==> net.arena[v].id == 0)
  }

  predicate Valid(net: Network) {
    && |net.assign| == |net.arena|
    && Registered(net)
    && Linked(net.arena)
    && EdgesMirror(net)
    && Indexed(net)
  }

  /** The graph is acyclic, witnessed by a rank that every parent has below its child. */
  predicate RankedDag(arena: seq<Node>, rank: seq<nat>) {
    && |rank| == |arena|
    && LinksInRange(arena)
    && forall v, i :: 0 <= v < |arena| && 0 <= i < |arena[v].parents| ==>
         rank[arena[v].parents[i]] < rank[v]
  }
}
