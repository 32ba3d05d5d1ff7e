/** One binary random variable of the network (node.go): its name, the parent
    names it declares, the parent and child links made when the network is
    built, and its conditional probability table (CPT).

    Nodes live in an arena (the network's sequence of nodes) and refer to each
    other by position; the node's current sample is kept by the network in a
    vector parallel to the arena (see Networks). */
module Nodes {
  import opened Errors
  import opened Seqs

  datatype Node = Node(
    id: nat,                   // 0 until indexed, then the 1-based place in the index
    name: string,
    parentNames: seq<string>,  // declared parents; their order is the CPT key order
    parents: seq<nat>,         // linked parents (arena positions), in link order
    children: seq<nat>,        // linked children (arena positions), in link order
    cpt: map<string, real>)    // key of parent samples -> probability of "T"

  /** A node as NewNode and NewRootNode build it: not indexed and not linked. */
  predicate IsFresh(n: Node) {
    n.id == 0 && n.parents == [] && n.children == []
  }

  /** A root is a node with no LINKED parent; declared names do not count. */
  predicate IsRoot(n: Node) {
    |n.parents| == 0
  }

  /** The CPT {"T": dist, "F": 1 - dist} of a root variable. */
  function NewRootNode(name: string, dist: real): (n: Node)
    ensures IsFresh(n) && n.name == name && n.parentNames == []
    ensures n.cpt.Keys == {"T", "F"} && n.cpt["T"] + n.cpt["F"] == 1.0
    ensures n.cpt["T"] == dist
  {
    Node(0, name, [], [], [], map["T" := dist, "F" := 1.0 - dist])
  }

  function NewNode(name: string, parents: seq<string>, dist: map<string, real>): (n: Node)
    ensures IsFresh(n) && n.name == name && n.parentNames == parents && n.cpt == dist
  {
    Node(0, name, parents, [], [], dist)
  }

  // ---------------------------------------------------------------- CPT keys

  /** A CPT key: one "T" or "F" per parent. */
  predicate IsBinaryKey(key: string) {
    forall i :: 0 <= i < |key| ==> key[i] == 'T' || key[i] == 'F'
  }

  /** Go's `cpt[key]`: the zero value when the key is absent. */
  function CptLookup(cpt: map<string, real>, key: string): real {
    if key in cpt then cpt[key] else 0.0
  }

  /** truthKey: the key in which every one of `n` parents is "T". */
  function TruthKey(n: nat): (key: string)
    ensures |key| == n && IsBinaryKey(key)
    ensures forall i :: 0 <= i < n ==> key[i] == 'T'
  {
    if n == 0 then "" else TruthKey(n - 1) + "T"
  }

  /** A key in which every parent is "T". */
  predicate AllTrue(key: string) {
    forall i :: 0 <= i < |key| ==> key[i] == 'T'
  }

  /** There is one all-"T" key of each length, and truthKey builds it. */
  lemma TruthKeyUnique(n: nat)
    ensures AllTrue(TruthKey(n))
    ensures forall key :: |key| == n && AllTrue(key) ==> key == TruthKey(n)
  {
    forall key | |key| == n && AllTrue(key) ensures key == TruthKey(n) {
      assert forall i :: 0 <= i < n ==> key[i] == TruthKey(n)[i];
    }
  }

  /** ProbTruth: P(node = T) when every parent is "T"; a root reads its "T" entry. */
  function ProbTruth(n: Node): (p: real)
    ensures IsRoot(n) && "T" in n.cpt ==> p == n.cpt["T"]
    ensures IsRoot(n) && "T" !in n.cpt ==> p == 0.0
    ensures forall key :: !IsRoot(n) && |key| == |n.parents| && AllTrue(key) ==>
      (key in n.cpt ==> p == n.cpt[key]) && (key !in n.cpt ==> p == 0.0)
  {
    if IsRoot(n) then CptLookup(n.cpt, "T")
    else
      TruthKeyUnique(|n.parents|);
      CptLookup(n.cpt, TruthKey(|n.parents|))
  }

  /** A root built by NewRootNode reports the probability it was built with. */
  lemma RootProbTruth(name: string, dist: real)
    ensures ProbTruth(NewRootNode(name, dist)) == dist
  {
  }

  function Pow2(k: nat): (r: nat)
    ensures r >= 1
  {
    if k == 0 then 1 else 2 * Pow2(k - 1)
  }

  /** The CPT size ValidateCPT demands: 2 for a root, 2^k for k linked parents. */
  function ExpectedCptSize(n: Node): nat {
    if IsRoot(n) then 2 else Pow2(|n.parents|)
  }

  /** ValidateCPT compares only the NUMBER of entries with the linked-parent
      count; key lengths and characters are not looked at. */
  function ValidateCPT(n: Node): (s: Status)
    ensures s == Ok <==> (if |n.parents| == 0 then |n.cpt| == 2 else |n.cpt| == Pow2(|n.parents|))
    ensures s.Err? ==> s.error == CptDimension(n.name, ExpectedCptSize(n), |n.cpt|)
  {
    if IsRoot(n) then
      if |n.cpt| != 2 then Err(CptDimension(n.name, 2, |n.cpt|)) else Ok
    else
      var expected := Pow2(|n.parents|);
      if |n.cpt| != expected then Err(CptDimension(n.name, expected, |n.cpt|)) else Ok
  }

  /** A root built by NewRootNode always passes ValidateCPT. */
  lemma RootNodeIsValid(name: string, dist: real)
    ensures ValidateCPT(NewRootNode(name, dist)) == Ok
  {
    var n := NewRootNode(name, dist);
    assert "T" != "F" by { assert "T"[0] != "F"[0]; }
    assert |n.cpt.Keys| == |{"T", "F"}| == 2;
  }

  /** Every key of length k, "T..T" first, each with the last parent varying slowest. */
  function AllKeys(k: nat): (keys: seq<string>)
    ensures |keys| == Pow2(k)
    ensures forall i :: 0 <= i < |keys| ==> |keys[i]| == k && IsBinaryKey(keys[i])
  {
    if k == 0 then [""]
    else
      var shorter := AllKeys(k - 1);
      seq(|shorter|, i requires 0 <= i < |shorter| => shorter[i] + "T")
        + seq(|shorter|, i requires 0 <= i < |shorter| => shorter[i] + "F")
  }

  lemma {:induction false} AllKeysDistinct(k: nat)
    ensures Distinct(AllKeys(k))
  {
    if k > 0 {
      AllKeysDistinct(k - 1);
      var shorter := AllKeys(k - 1);
      var keys := AllKeys(k);
      var m := |shorter|;
      forall i, j | 0 <= i < j < |keys|
        ensures keys[i] != keys[j]
      {
        if i < m && j < m {
          AppendInjective(shorter[i], shorter[j], 'T', 'T');
        } else if i >= m && j >= m {
          AppendInjective(shorter[i - m], shorter[j - m], 'F', 'F');
        } else {
          AppendInjective(shorter[i], shorter[j - m], 'T', 'F');
        }
      }
    }
  }

  lemma AppendInjective(a: string, b: string, x: char, y: char)
    requires |a| == |b|
    ensures a + [x] == b + [y] ==> a == b && x == y
  {
    if a + [x] == b + [y] {
      assert (a + [x])[..|a|] == a;
      assert (b + [y])[..|b|] == b;
      assert (a + [x])[|a|] == x;
    }
  }

  lemma {:induction false} AllKeysComplete(k: nat, key: string)
    requires |key| == k && IsBinaryKey(key)
    ensures key in AllKeys(k)
  {
    if k > 0 {
      var prefix := key[..k - 1];
      AllKeysComplete(k - 1, prefix);
      var shorter := AllKeys(k - 1);
      var i :| 0 <= i < |shorter| && shorter[i] == prefix;
      assert key == prefix + [key[k - 1]];
      if key[k - 1] == 'T' {
        assert AllKeys(k)[i] == key;
      } else {
        assert AllKeys(k)[|shorter| + i] == key;
      }
    }
  }

  /** A CPT holding exactly the 2^k binary keys of length k passes ValidateCPT. */
  lemma CompleteCptIsValid(n: Node)
    requires !IsRoot(n)
    requires forall key :: key in n.cpt <==> |key| == |n.parents| && IsBinaryKey(key)
    ensures ValidateCPT(n) == Ok
  {
    var keys := AllKeys(|n.parents|);
    AllKeysDistinct(|n.parents|);
    DistinctCard(keys);
    forall key | key in n.cpt
      ensures key in Elems(keys)
    {
      AllKeysComplete(|n.parents|, key);
    }
    assert n.cpt.Keys == Elems(keys);
  }

  /** ValidateCPT does not inspect keys: one parent and the keys "X", "Y" pass. */
  lemma KeysAreNotChecked()
    ensures var n := Node(0, "C", ["P"], [0], [], map["X" := 0.5, "Y" := 0.5]);
            ValidateCPT(n) == Ok && !IsBinaryKey("X")
  {
    var n := Node(0, "C", ["P"], [0], [], map["X" := 0.5, "Y" := 0.5]);
    assert "X" != "Y" by { assert "X"[0] != "Y"[0]; }
    assert |n.cpt.Keys| == |{"X", "Y"}| == 2;
  }

  // ------------------------------------------------------------------- links

  /** The de-duplicating append of AddChild and AddParent. */
  function AddOnce(s: seq<nat>, x: nat): (r: seq<nat>)
    ensures Elems(r) == Elems(s) + {x}
    ensures |s| <= |r| <= |s| + 1 && r[..|s|] == s
    ensures Distinct(s) ==> Distinct(r)
  {
    if x in s then s else s + [x]
  }

  /** AddChild: the child is present afterwards, nothing else is added, and no
      existing child moves. */
  function AddChild(n: Node, child: nat): (r: Node)
    ensures |n.children| <= |r.children| && r.children[..|n.children|] == n.children
    ensures child in r.children
    ensures Elems(r.children) == Elems(n.children) + {child}
    ensures Distinct(n.children) ==> Distinct(r.children)
    ensures r == n.(children := r.children)
  {
    n.(children := AddOnce(n.children, child))
  }

  /** AddParent: as AddChild, on the parent links. */
  function AddParent(n: Node, parent: nat): (r: Node)
    ensures |n.parents| <= |r.parents| && r.parents[..|n.parents|] == n.parents
    ensures parent in r.parents
    ensures Elems(r.parents) == Elems(n.parents) + {parent}
    ensures Distinct(n.parents) ==> Distinct(r.parents)
    ensures r == n.(parents := r.parents)
  {
    n.(parents := AddOnce(n.parents, parent))
  }

  /** Adding the same child or parent twice is the same as adding it once. */
  lemma AddIsIdempotent(n: Node, x: nat)
    ensures AddChild(AddChild(n, x), x) == AddChild(n, x)
    ensures AddParent(AddParent(n, x), x) == AddParent(n, x)
    ensures x in n.children ==> AddChild(n, x) == n
    ensures x in n.parents ==> AddParent(n, x) == n
  {
  }

  /** The names of the linked parents, in link order. */
  function LinkedNames(arena: seq<Node>, n: Node): (names: seq<string>)
    requires InRange(n.parents, |arena|)
    ensures |names| == |n.parents|
  {
    seq(|n.parents|, i requires 0 <= i < |n.parents| => arena[n.parents[i]].name)
  }

  /** ValidateParents: the names given are exactly the linked parents' names,
      position by position. */
  method ValidateParents(arena: seq<Node>, n: Node, names: seq<string>) returns (ok: bool)
    requires InRange(n.parents, |arena|)
    ensures ok <==> names == LinkedNames(arena, n)
  {
    if |names| != |n.parents| {
      return false;
    }
    var i := 0;
    while i < |names|
      invariant 0 <= i <= |names|
      invariant forall j :: 0 <= j < i ==> arena[n.parents[j]].name == names[j]
    {
      if arena[n.parents[i]].name != names[i] {
        return false;
      }
      i := i + 1;
    }
    return true;
  }

  // ------------------------------------------------------------- assignment

  /** The value every sample or assignment takes when it is not set. */
  const Unset: string := ""

  /** IsSampled: the node holds a sample; Reset stores Unset. */
  predicate IsSampled(assignment: string) {
    assignment != Unset
  }

  /** BayNodes.Less: order nodes of a list by their id. */
  function Less(arena: seq<Node>, list: seq<nat>, i: nat, j: nat): (less: bool)
    requires i < |list| && j < |list| && InRange(list, |arena|)
    ensures (forall k :: 0 <= k < |list| ==> arena[list[k]].id == k + 1) ==> (less <==> i < j)
  {
    arena[list[i]].id < arena[list[j]].id
  }
}
