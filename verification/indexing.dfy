/** The breadth-first frontier expansion behind indexNetwork (bn.go and dag.go),
    stated over the children lists of an arena.

    `index` is the list of nodes indexed so far (node index[i] gets id i+1); a node
    counts as indexed exactly when it is in `index`, which is what the source's
    `Id() != 0` test observes. */
module Indexing {
  import opened Seqs

  /** Every child link points into the arena. */
  predicate WellFormed(ch: seq<seq<nat>>) {
    forall v, i :: 0 <= v < |ch| && 0 <= i < |ch[v]| ==> ch[v][i] < |ch|
  }

  /** One round of the outer loop: walk the frontier, index each node not yet
      indexed, and collect its children into the next frontier. */
  function Visit(ch: seq<seq<nat>>, frontier: seq<nat>, index: seq<nat>, next: seq<nat>): (r: (seq<nat>, seq<nat>))
    requires WellFormed(ch) && InRange(frontier, |ch|) && InRange(index, |ch|) && InRange(next, |ch|)
    ensures InRange(r.0, |ch|) && InRange(r.1, |ch|)
    ensures Distinct(index) ==> Distinct(r.0)
    ensures |index| <= |r.0| && r.0[..|index|] == index
    ensures |r.0| == |index| ==> r.1 == next
    decreases |frontier|
  {
    if frontier == [] then (index, next)
    else if frontier[0] in index then Visit(ch, frontier[1..], index, next)
    else Visit(ch, frontier[1..], index + [frontier[0]], next + ch[frontier[0]])
  }

  /** indexNetwork's outer loop, from the given frontier: the finished index.
      It terminates because every round either indexes a new node or leaves an
      empty frontier behind. */
  function Expand(ch: seq<seq<nat>>, frontier: seq<nat>, index: seq<nat>): (r: seq<nat>)
    requires WellFormed(ch) && InRange(frontier, |ch|) && InRange(index, |ch|) && Distinct(index)
    ensures InRange(r, |ch|) && Distinct(r)
    ensures |index| <= |r| && r[..|index|] == index
    decreases |ch| - |index|, |frontier|
  {
    DistinctBound(index, |ch|);
    if frontier == [] then index
    else
      var (index', next) := Visit(ch, frontier, index, []);
      DistinctBound(index', |ch|);
      Expand(ch, next, index')
  }

  // ------------------------------------------------------------ every node of the frontier

  lemma {:induction false} VisitCovers(ch: seq<seq<nat>>, frontier: seq<nat>, index: seq<nat>, next: seq<nat>)
    requires WellFormed(ch) && InRange(frontier, |ch|) && InRange(index, |ch|) && InRange(next, |ch|)
    ensures forall f :: f in frontier ==> f in Visit(ch, frontier, index, next).0
    ensures forall u :: u in next ==> u in Visit(ch, frontier, index, next).1
    decreases |frontier|
  {
    if frontier != [] {
      var f := frontier[0];
      var index' := if f in index then index else index + [f];
      var next' := if f in index then next else next + ch[f];
      VisitCovers(ch, frontier[1..], index', next');
      var r := Visit(ch, frontier, index, next);
      assert r == Visit(ch, frontier[1..], index', next');
      assert f in index';
      assert index' == r.0[..|index'|];
      forall g | g in frontier
        ensures g in r.0
      {
        if g != f {
          assert g in frontier[1..];
        }
      }
    }
  }

  /** Nothing of the starting frontier is left out of the index. */
  lemma {:induction false} ExpandCovers(ch: seq<seq<nat>>, frontier: seq<nat>, index: seq<nat>)
    requires WellFormed(ch) && InRange(frontier, |ch|) && InRange(index, |ch|) && Distinct(index)
    ensures forall f :: f in frontier ==> f in Expand(ch, frontier, index)
    ensures forall u :: u in index ==> u in Expand(ch, frontier, index)
    decreases |ch| - |index|, |frontier|
  {
    var r := Expand(ch, frontier, index);
    assert r[..|index|] == index;
    if frontier != [] {
      DistinctBound(index, |ch|);
      var (index', next) := Visit(ch, frontier, index, []);
      DistinctBound(index', |ch|);
      VisitCovers(ch, frontier, index, []);
      ExpandCovers(ch, next, index');
    }
  }

  // --------------------------------------------------------------------- closure

  /** Every child of an indexed node is indexed or waiting in the frontier. */
  predicate Pending(ch: seq<seq<nat>>, index: seq<nat>, frontier: seq<nat>)
    requires WellFormed(ch) && InRange(index, |ch|)
  {
    forall i, j :: 0 <= i < |index| && 0 <= j < |ch[index[i]]| ==>
      ch[index[i]][j] in index || ch[index[i]][j] in frontier
  }

  lemma {:induction false} VisitPending(ch: seq<seq<nat>>, frontier: seq<nat>, index: seq<nat>, next: seq<nat>)
    requires WellFormed(ch) && InRange(frontier, |ch|) && InRange(index, |ch|) && InRange(next, |ch|)
    requires forall i, j :: 0 <= i < |index| && 0 <= j < |ch[index[i]]| ==>
      ch[index[i]][j] in index || ch[index[i]][j] in frontier || ch[index[i]][j] in next
    ensures Pending(ch, Visit(ch, frontier, index, next).0, Visit(ch, frontier, index, next).1)
    decreases |frontier|
  {
    if frontier != [] {
      var f := frontier[0];
      var rest := frontier[1..];
      assert frontier == [f] + rest;
      var index' := if f in index then index else index + [f];
      var next' := if f in index then next else next + ch[f];
      forall i, j | 0 <= i < |index'| && 0 <= j < |ch[index'[i]]|
        ensures ch[index'[i]][j] in index' || ch[index'[i]][j] in rest || ch[index'[i]][j] in next'
      {
        var c := ch[index'[i]][j];
        if i < |index| {
          assert index'[i] == index[i];
          assert c in index || c in frontier || c in next;
          if c in frontier && c != f {
            assert c in rest;
          }
        } else {
          assert index'[i] == f && c in ch[f];
        }
      }
      VisitPending(ch, rest, index', next');
    }
  }

  /** Every child of a listed node is listed. */
  predicate Closed(ch: seq<seq<nat>>, index: seq<nat>)
    requires WellFormed(ch) && InRange(index, |ch|)
  {
    forall i, j :: 0 <= i < |index| && 0 <= j < |ch[index[i]]| ==> ch[index[i]][j] in index
  }

  /** When the loop stops, the indexed nodes are closed under the child links. */
  lemma {:induction false} ExpandClosed(ch: seq<seq<nat>>, frontier: seq<nat>, index: seq<nat>)
    requires WellFormed(ch) && InRange(frontier, |ch|) && InRange(index, |ch|) && Distinct(index)
    requires Pending(ch, index, frontier)
    ensures Closed(ch, Expand(ch, frontier, index))
    decreases |ch| - |index|, |frontier|
  {
    DistinctBound(index, |ch|);
    if frontier != [] {
      var (index', next) := Visit(ch, frontier, index, []);
      DistinctBound(index', |ch|);
      VisitPending(ch, frontier, index, []);
      ExpandClosed(ch, next, index');
      assert Expand(ch, frontier, index) == Expand(ch, next, index');
    }
  }

  // ---------------------------------------------------- how each node was reached

  /** Each indexed node is one of the roots or a child of a node indexed before it. */
  predicate Justified(ch: seq<seq<nat>>, roots: seq<nat>, index: seq<nat>)
    requires WellFormed(ch) && InRange(index, |ch|)
  {
    forall j :: 0 <= j < |index| ==>
      index[j] in roots || exists i :: 0 <= i < j && index[j] in ch[index[i]]
  }

  /** Each frontier node is a root or a child of an indexed node. */
  predicate FrontierJustified(ch: seq<seq<nat>>, roots: seq<nat>, index: seq<nat>, frontier: seq<nat>)
    requires WellFormed(ch) && InRange(index, |ch|)
  {
    forall f :: f in frontier ==>
      f in roots || exists i :: 0 <= i < |index| && f in ch[index[i]]
  }

  lemma {:induction false} VisitJustified(ch: seq<seq<nat>>, roots: seq<nat>, frontier: seq<nat>, index: seq<nat>, next: seq<nat>)
    requires WellFormed(ch) && InRange(frontier, |ch|) && InRange(index, |ch|) && InRange(next, |ch|)
    requires Justified(ch, roots, index)
    requires FrontierJustified(ch, roots, index, frontier) && FrontierJustified(ch, roots, index, next)
    ensures var r := Visit(ch, frontier, index, next);
            Justified(ch, roots, r.0) && FrontierJustified(ch, roots, r.0, r.1)
    decreases |frontier|
  {
    if frontier != [] {
      var f := frontier[0];
      var rest := frontier[1..];
      if f in index {
        assert FrontierJustified(ch, roots, index, rest);
        VisitJustified(ch, roots, rest, index, next);
      } else {
        var index' := index + [f];
        var next' := next + ch[f];
        forall j | 0 <= j < |index'|
          ensures index'[j] in roots || exists i :: 0 <= i < j && index'[j] in ch[index'[i]]
        {
          if j < |index| {
            if index[j] !in roots {
              var i :| 0 <= i < j && index[j] in ch[index[i]];
              assert index'[i] == index[i];
            }
          } else {
            assert index'[j] == f;
            if f !in roots {
              var i :| 0 <= i < |index| && f in ch[index[i]];
              assert index'[i] == index[i];
            }
          }
        }
        forall g | g in rest || g in next'
          ensures g in roots || exists i :: 0 <= i < |index'| && g in ch[index'[i]]
        {
          if g in ch[f] && g !in next {
            assert index'[|index|] == f;
          } else if g !in roots {
            assert g in frontier || g in next;
            var i :| 0 <= i < |index| && g in ch[index[i]];
            assert index'[i] == index[i];
          }
        }
        VisitJustified(ch, roots, rest, index', next');
      }
    }
  }

  lemma {:induction false} ExpandJustified(ch: seq<seq<nat>>, roots: seq<nat>, frontier: seq<nat>, index: seq<nat>)
    requires WellFormed(ch) && InRange(frontier, |ch|) && InRange(index, |ch|) && Distinct(index)
    requires Justified(ch, roots, index) && FrontierJustified(ch, roots, index, frontier)
    ensures Justified(ch, roots, Expand(ch, frontier, index))
    decreases |ch| - |index|, |frontier|
  {
    DistinctBound(index, |ch|);
    if frontier != [] {
      var (index', next) := Visit(ch, frontier, index, []);
      DistinctBound(index', |ch|);
      VisitJustified(ch, roots, frontier, index, []);
      ExpandJustified(ch, roots, next, index');
    }
  }

  // --------------------------------------------------------------- roots first

  /** A frontier of new, distinct nodes is indexed in its own order. */
  lemma {:induction false} VisitFresh(ch: seq<seq<nat>>, frontier: seq<nat>, index: seq<nat>, next: seq<nat>)
    requires WellFormed(ch) && InRange(frontier, |ch|) && InRange(index, |ch|) && InRange(next, |ch|)
    requires Distinct(frontier) && forall f :: f in frontier ==> f !in index
    ensures Visit(ch, frontier, index, next).0 == index + frontier
    decreases |frontier|
  {
    if frontier != [] {
      var f := frontier[0];
      assert f !in index;
      forall g | g in frontier[1..]
        ensures g !in index + [f]
      {
        assert g in frontier;
      }
      VisitFresh(ch, frontier[1..], index + [f], next + ch[f]);
      assert index + [f] + frontier[1..] == index + frontier;
    }
  }

  /** The roots get the first ids, 1 .. |roots|, in their own order. */
  lemma RootsFirst(ch: seq<seq<nat>>, roots: seq<nat>)
    requires WellFormed(ch) && InRange(roots, |ch|) && Distinct(roots)
    ensures var r := Expand(ch, roots, []);
            |roots| <= |r| && r[..|roots|] == roots
  {
    if roots != [] {
      VisitFresh(ch, roots, [], []);
      var (index', next) := Visit(ch, roots, [], []);
      assert index' == roots;
    }
  }

  // ---------------------------------------------------------------- the example

  /** The graph R -> X, R -> Z, X -> Y, Y -> Z with R, X, Z, Y at positions 0, 1, 2, 3. */
  function DiamondChildren(): seq<seq<nat>> {
    [[1, 2], [3], [], [2]]
  }

  /** The frontier expansion indexes R, X, Z, Y: Z (id 3) gets its id before
      its parent Y (id 4), so the expansion does not order every parent before
      every child, and no parent is numbered above all of its children either
      (R = 1 is the parent of X = 2). */
  lemma DiamondIndex()
    ensures Expand(DiamondChildren(), [0], []) == [0, 1, 2, 3]
    ensures 2 in DiamondChildren()[3]      // Y is a parent of Z
    ensures 1 in DiamondChildren()[0]      // R is a parent of X
  {
    var ch := DiamondChildren();
    DiamondWellFormed();
    DiamondRounds();
    ExpandStep(ch, [0], []);
    ExpandStep(ch, [1, 2], [0]);
    ExpandStep(ch, [3], [0, 1, 2]);
    ExpandStep(ch, [2], [0, 1, 2, 3]);
    assert Expand(ch, [], [0, 1, 2, 3]) == [0, 1, 2, 3];
  }

  /** One round of the outer loop. */
  lemma ExpandStep(ch: seq<seq<nat>>, frontier: seq<nat>, index: seq<nat>)
    requires WellFormed(ch) && InRange(frontier, |ch|) && InRange(index, |ch|) && Distinct(index)
    requires frontier != []
    ensures var (index', next) := Visit(ch, frontier, index, []);
      Expand(ch, frontier, index) == Expand(ch, next, index')
  {
  }

  lemma DiamondWellFormed()
    ensures WellFormed(DiamondChildren())
  {
    var ch := DiamondChildren();
    forall v, i | 0 <= v < |ch| && 0 <= i < |ch[v]| ensures ch[v][i] < |ch| {
      assert v == 0 || v == 1 || v == 2 || v == 3;
    }
  }

  /** The four rounds of the expansion on the example graph. */
  lemma DiamondRounds()
    ensures Visit(DiamondChildren(), [0], [], []) == ([0], [1, 2])
    ensures Visit(DiamondChildren(), [1, 2], [0], []) == ([0, 1, 2], [3])
    ensures Visit(DiamondChildren(), [3], [0, 1, 2], []) == ([0, 1, 2, 3], [2])
    ensures Visit(DiamondChildren(), [2], [0, 1, 2, 3], []) == ([0, 1, 2, 3], [])
  {
    DiamondRound1();
    DiamondRound2();
    DiamondRound3();
    DiamondRound4();
  }

  lemma DiamondRound1()
    ensures Visit(DiamondChildren(), [0], [], []) == ([0], [1, 2])
  {
    var ch := DiamondChildren();
    DiamondWellFormed();
    VisitTake(ch, [0], [], []);
    assert [0][1..] == [] && [] + [0] == [0] && [] + ch[0] == [1, 2];
  }

  lemma DiamondRound2()
    ensures Visit(DiamondChildren(), [1, 2], [0], []) == ([0, 1, 2], [3])
  {
    var ch := DiamondChildren();
    DiamondWellFormed();
    VisitTake(ch, [1, 2], [0], []);
    assert [1, 2][1..] == [2] && [0] + [1] == [0, 1] && [] + ch[1] == [3];
    DiamondRound2Tail();
  }

  lemma DiamondRound2Tail()
    ensures Visit(DiamondChildren(), [2], [0, 1], [3]) == ([0, 1, 2], [3])
  {
    var ch := DiamondChildren();
    DiamondWellFormed();
    VisitTake(ch, [2], [0, 1], [3]);
    assert [2][1..] == [] && [0, 1] + [2] == [0, 1, 2] && [3] + ch[2] == [3];
  }

  lemma DiamondRound3()
    ensures Visit(DiamondChildren(), [3], [0, 1, 2], []) == ([0, 1, 2, 3], [2])
  {
    var ch := DiamondChildren();
    DiamondWellFormed();
    VisitTake(ch, [3], [0, 1, 2], []);
    assert [3][1..] == [] && [0, 1, 2] + [3] == [0, 1, 2, 3] && [] + ch[3] == [2];
  }

  lemma DiamondRound4()
    ensures Visit(DiamondChildren(), [2], [0, 1, 2, 3], []) == ([0, 1, 2, 3], [])
  {
    var ch := DiamondChildren();
    DiamondWellFormed();
    VisitSkip(ch, [2], [0, 1, 2, 3], []);
    assert [2][1..] == [];
  }

  /** A frontier node not yet indexed is indexed and its children collected. */
  lemma VisitTake(ch: seq<seq<nat>>, frontier: seq<nat>, index: seq<nat>, next: seq<nat>)
    requires WellFormed(ch) && InRange(frontier, |ch|) && InRange(index, |ch|) && InRange(next, |ch|)
    requires frontier != [] && frontier[0] !in index
    ensures Visit(ch, frontier, index, next) == Visit(ch, frontier[1..], index + [frontier[0]], next + ch[frontier[0]])
  {
  }

  /** A frontier node already indexed is passed over. */
  lemma VisitSkip(ch: seq<seq<nat>>, frontier: seq<nat>, index: seq<nat>, next: seq<nat>)
    requires WellFormed(ch) && InRange(frontier, |ch|) && InRange(index, |ch|) && InRange(next, |ch|)
    requires frontier != [] && frontier[0] in index
    ensures Visit(ch, frontier, index, next) == Visit(ch, frontier[1..], index, next)
  {
  }
}
