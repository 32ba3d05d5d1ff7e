/** Node.Sample (node.go) and the ancestral sampling of dag.go. Go's
    rand.Float64() is the stream `draws`: the k-th call returns draws(k), and a
    Trace counts the calls made so far. */
module Sampling {
  import opened Errors
  import opened Seqs
  import opened Nodes
  import opened Networks
  import opened Assignments

  /** The sample of every node and the number of random draws consumed. */
  datatype Trace = Trace(assign: seq<string>, drawn: nat)

  /** Sample: a sampled node returns its cached value; a root compares one draw
      with its "T" entry; any other node first samples its linked parents in link
      order, concatenates their samples into a CPT key, and compares one draw
      with that entry. A key missing from the CPT is an error. */
  function Sample(arena: seq<Node>, rank: seq<nat>, draws: nat -> real, t: Trace, v: nat): (r: (Trace, Status))
    requires RankedDag(arena, rank) && |t.assign| == |arena| && v < |arena|
    ensures |r.0.assign| == |arena|
    ensures IsSampled(t.assign[v]) ==> r == (t, Ok)
    decreases rank[v], 1, 0
  {
    if IsSampled(t.assign[v]) then (t, Ok)
    else if IsRoot(arena[v]) then
      var d := draws(t.drawn);
      (Trace(t.assign[v := if d > CptLookup(arena[v].cpt, "T") then "F" else "T"], t.drawn + 1), Ok)
    else
      var p := SampleParents(arena, rank, draws, t, v, 0, "");
      if p.1 != Ok then (p.0, p.1)
      else if p.2 !in arena[v].cpt then (p.0, Err(InvalidKey(p.2)))
      else
        var d := draws(p.0.drawn);
        (Trace(p.0.assign[v := if d < arena[v].cpt[p.2] then "T" else "F"], p.0.drawn + 1), Ok)
  }

  /** The parent loop of Sample from parent i on, with the key built so far. */
  function SampleParents(arena: seq<Node>, rank: seq<nat>, draws: nat -> real, t: Trace,
                         v: nat, i: nat, key: string): (r: (Trace, Status, string))
    requires RankedDag(arena, rank) && |t.assign| == |arena| && v < |arena|
    requires i <= |arena[v].parents|
    ensures |r.0.assign| == |arena|
    decreases rank[v], 0, |arena[v].parents| - i
  {
    if i == |arena[v].parents| then (t, Ok, key)
    else
      var p := arena[v].parents[i];
      var s := Sample(arena, rank, draws, t, p);
      if s.1 != Ok then (s.0, s.1, "")
      else SampleParents(arena, rank, draws, s.0, v, i + 1, key + s.0.assign[p])
  }

  /** The samples of the nodes `ps`, concatenated in order. */
  function SamplesOf(assign: seq<string>, ps: seq<nat>): string
    requires InRange(ps, |assign|)
  {
    if ps == [] then "" else assign[ps[0]] + SamplesOf(assign, ps[1..])
  }

  /** Every sample already taken is kept. */
  predicate Grows(a: seq<string>, b: seq<string>) {
    |a| == |b| && forall w :: 0 <= w < |a| && IsSampled(a[w]) ==> b[w] == a[w]
  }

  /** Sampling v fills empty slots only, and only of nodes ranked no higher than
      v; on success v is sampled. */
  lemma {:induction false} SampleGrows(arena: seq<Node>, rank: seq<nat>, draws: nat -> real, t: Trace, v: nat)
    requires RankedDag(arena, rank) && |t.assign| == |arena| && v < |arena|
    ensures var r := Sample(arena, rank, draws, t, v);
      && Grows(t.assign, r.0.assign) && t.drawn <= r.0.drawn
      && (forall w :: 0 <= w < |arena| && rank[w] > rank[v] ==> r.0.assign[w] == t.assign[w])
      && (r.1 == Ok ==> IsSampled(r.0.assign[v]))
    decreases rank[v], 1, 0
  {
    if !IsSampled(t.assign[v]) && !IsRoot(arena[v]) {
      ParentsGrow(arena, rank, draws, t, v, 0, "");
    }
  }

  /** The parent loop fills empty slots of nodes ranked below v only; on success
      every remaining parent is sampled. */
  lemma {:induction false} ParentsGrow(arena: seq<Node>, rank: seq<nat>, draws: nat -> real, t: Trace,
                                       v: nat, i: nat, key: string)
    requires RankedDag(arena, rank) && |t.assign| == |arena| && v < |arena|
    requires i <= |arena[v].parents|
    ensures var r := SampleParents(arena, rank, draws, t, v, i, key);
      && Grows(t.assign, r.0.assign) && t.drawn <= r.0.drawn
      && (forall w :: 0 <= w < |arena| && rank[w] >= rank[v] ==> r.0.assign[w] == t.assign[w])
      && (r.1 == Ok ==> forall j :: i <= j < |arena[v].parents| ==> IsSampled(r.0.assign[arena[v].parents[j]]))
    decreases rank[v], 0, |arena[v].parents| - i
  {
    if i < |arena[v].parents| {
      var p := arena[v].parents[i];
      SampleGrows(arena, rank, draws, t, p);
      var s := Sample(arena, rank, draws, t, p);
      if s.1 == Ok {
        ParentsGrow(arena, rank, draws, s.0, v, i + 1, key + s.0.assign[p]);
      }
    }
  }

  /** On success the parent loop's key is the concatenation of the parents'
      samples, in link order, as they stand afterwards. */
  lemma {:induction false} ParentsKey(arena: seq<Node>, rank: seq<nat>, draws: nat -> real, t: Trace,
                                      v: nat, i: nat, key: string)
    requires RankedDag(arena, rank) && |t.assign| == |arena| && v < |arena|
    requires i <= |arena[v].parents|
    requires SampleParents(arena, rank, draws, t, v, i, key).1 == Ok
    ensures var r := SampleParents(arena, rank, draws, t, v, i, key);
      r.2 == key + SamplesOf(r.0.assign, arena[v].parents[i..])
    decreases |arena[v].parents| - i
  {
    var ps := arena[v].parents;
    if i == |ps| {
      assert ps[i..] == [];
    } else {
      var p := ps[i];
      SampleGrows(arena, rank, draws, t, p);
      var s := Sample(arena, rank, draws, t, p);
      ParentsKey(arena, rank, draws, s.0, v, i + 1, key + s.0.assign[p]);
      ParentsGrow(arena, rank, draws, s.0, v, i + 1, key + s.0.assign[p]);
      var r := SampleParents(arena, rank, draws, s.0, v, i + 1, key + s.0.assign[p]);
      assert r.0.assign[p] == s.0.assign[p];
      assert ps[i..][1..] == ps[i + 1..];
      AppendAssoc3(key, s.0.assign[p], SamplesOf(r.0.assign, ps[i + 1..]));
    }
  }

  lemma AppendAssoc3(a: string, b: string, c: string)
    ensures (a + b) + c == a + (b + c)
  {
  }

  /** Sample values are "T", "F" or unset. */
  predicate Binary(assign: seq<string>) {
    forall w :: 0 <= w < |assign| ==> assign[w] == Unset || assign[w] == "T" || assign[w] == "F"
  }

  /** Sampling writes "T" or "F" only. */
  lemma {:induction false} SampleBinary(arena: seq<Node>, rank: seq<nat>, draws: nat -> real, t: Trace, v: nat)
    requires RankedDag(arena, rank) && |t.assign| == |arena| && v < |arena|
    requires Binary(t.assign)
    ensures Binary(Sample(arena, rank, draws, t, v).0.assign)
    decreases rank[v], 1, 0
  {
    if !IsSampled(t.assign[v]) && !IsRoot(arena[v]) {
      ParentsBinary(arena, rank, draws, t, v, 0, "");
    }
  }

  lemma {:induction false} ParentsBinary(arena: seq<Node>, rank: seq<nat>, draws: nat -> real, t: Trace,
                                         v: nat, i: nat, key: string)
    requires RankedDag(arena, rank) && |t.assign| == |arena| && v < |arena|
    requires i <= |arena[v].parents|
    requires Binary(t.assign)
    ensures Binary(SampleParents(arena, rank, draws, t, v, i, key).0.assign)
    decreases rank[v], 0, |arena[v].parents| - i
  {
    if i < |arena[v].parents| {
      var p := arena[v].parents[i];
      SampleBinary(arena, rank, draws, t, p);
      var s := Sample(arena, rank, draws, t, p);
      if s.1 == Ok {
        ParentsBinary(arena, rank, draws, s.0, v, i + 1, key + s.0.assign[p]);
      }
    }
  }

  /** With every node in `ps` holding "T" or "F", their samples form a binary key
      with one letter per node. */
  lemma {:induction false} SamplesOfBinary(assign: seq<string>, ps: seq<nat>)
    requires InRange(ps, |assign|) && Binary(assign)
    requires forall j :: 0 <= j < |ps| ==> IsSampled(assign[ps[j]])
    ensures |SamplesOf(assign, ps)| == |ps| && IsBinaryKey(SamplesOf(assign, ps))
  {
    if ps != [] {
      SamplesOfBinary(assign, ps[1..]);
      var head := assign[ps[0]];
      assert head == "T" || head == "F";
      var key := SamplesOf(assign, ps);
      assert key == head + SamplesOf(assign, ps[1..]);
      forall k | 0 <= k < |key| ensures key[k] == 'T' || key[k] == 'F' {
        if k > 0 { assert key[k] == SamplesOf(assign, ps[1..])[k - 1]; }
      }
    }
  }

  /** Slots outside `ps` do not affect the key. */
  lemma {:induction false} SamplesOfFrame(a: seq<string>, b: seq<string>, ps: seq<nat>)
    requires InRange(ps, |a|) && |a| == |b|
    requires forall j :: 0 <= j < |ps| ==> a[ps[j]] == b[ps[j]]
    ensures SamplesOf(a, ps) == SamplesOf(b, ps)
  {
    if ps != [] {
      SamplesOfFrame(a, b, ps[1..]);
    }
  }

  /** The decision of a fresh sample. A root takes "T" iff its draw is at most
      cpt["T"]; any other node takes "T" iff its draw is below the CPT entry of
      its parents' samples; either way exactly the last draw is used. */
  lemma SampleDecision(arena: seq<Node>, rank: seq<nat>, draws: nat -> real, t: Trace, v: nat)
    requires RankedDag(arena, rank) && |t.assign| == |arena| && v < |arena|
    requires !IsSampled(t.assign[v])
    requires Sample(arena, rank, draws, t, v).1 == Ok
    ensures var r := Sample(arena, rank, draws, t, v).0;
      && t.drawn < r.drawn
      && (IsRoot(arena[v]) ==>
           r.drawn == t.drawn + 1 && (r.assign[v] == "T" <==> draws(t.drawn) <= CptLookup(arena[v].cpt, "T")))
      && (!IsRoot(arena[v]) ==>
           var key := SamplesOf(r.assign, arena[v].parents);
           key in arena[v].cpt &&
           (r.assign[v] == "T" <==> draws(r.drawn - 1) < arena[v].cpt[key]))
      && (r.assign[v] == "T" || r.assign[v] == "F")
  {
    if !IsRoot(arena[v]) {
      var p := SampleParents(arena, rank, draws, t, v, 0, "");
      ParentsKey(arena, rank, draws, t, v, 0, "");
      ParentsGrow(arena, rank, draws, t, v, 0, "");
      var r := Sample(arena, rank, draws, t, v).0;
      assert arena[v].parents[0..] == arena[v].parents;
      assert p.2 == SamplesOf(p.0.assign, arena[v].parents) by {
        assert "" + SamplesOf(p.0.assign, arena[v].parents) == SamplesOf(p.0.assign, arena[v].parents);
      }
      assert p.1 == Ok && p.2 in arena[v].cpt;
      assert r.drawn - 1 == p.0.drawn;
      assert r.assign == p.0.assign[v := r.assign[v]];
      forall j | 0 <= j < |arena[v].parents| ensures arena[v].parents[j] != v {
        assert rank[arena[v].parents[j]] < rank[v];
      }
      SamplesOfFrame(p.0.assign, r.assign, arena[v].parents);
    }
  }

  /** A failed Sample leaves the node unsampled; when the parents were sampled
      and only the key is missing, the error names that key. */
  lemma SampleError(arena: seq<Node>, rank: seq<nat>, draws: nat -> real, t: Trace, v: nat)
    requires RankedDag(arena, rank) && |t.assign| == |arena| && v < |arena|
    requires Sample(arena, rank, draws, t, v).1 != Ok
    ensures !IsSampled(Sample(arena, rank, draws, t, v).0.assign[v])
    ensures !IsRoot(arena[v])
    ensures var p := SampleParents(arena, rank, draws, t, v, 0, "");
      p.1 == Ok ==> p.2 !in arena[v].cpt && Sample(arena, rank, draws, t, v).1 == Err(InvalidKey(p.2))
  {
    ParentsGrow(arena, rank, draws, t, v, 0, "");
  }

  /** Each sampled node has its linked parents sampled. */
  predicate SampledClosed(arena: seq<Node>, assign: seq<string>)
    requires LinksInRange(arena) && |assign| == |arena|
  {
    forall w, j :: 0 <= w < |arena| && 0 <= j < |arena[w].parents| && IsSampled(assign[w]) ==>
      IsSampled(assign[arena[w].parents[j]])
  }

  /** Sampling keeps samples closed under parents. */
  lemma {:induction false} SampleClosed(arena: seq<Node>, rank: seq<nat>, draws: nat -> real, t: Trace, v: nat)
    requires RankedDag(arena, rank) && |t.assign| == |arena| && v < |arena|
    requires SampledClosed(arena, t.assign)
    ensures SampledClosed(arena, Sample(arena, rank, draws, t, v).0.assign)
    decreases rank[v], 1, 0
  {
    if !IsSampled(t.assign[v]) && !IsRoot(arena[v]) {
      ParentsClosed(arena, rank, draws, t, v, 0, "");
      ParentsGrow(arena, rank, draws, t, v, 0, "");
      var p := SampleParents(arena, rank, draws, t, v, 0, "");
      var r := Sample(arena, rank, draws, t, v).0;
      if p.1 == Ok && p.2 in arena[v].cpt {
        forall w, j | 0 <= w < |arena| && 0 <= j < |arena[w].parents| && IsSampled(r.assign[w])
          ensures IsSampled(r.assign[arena[w].parents[j]])
        {
          if w != v {
            assert IsSampled(p.0.assign[w]);
          }
        }
      }
    }
  }

  lemma {:induction false} ParentsClosed(arena: seq<Node>, rank: seq<nat>, draws: nat -> real, t: Trace,
                                         v: nat, i: nat, key: string)
    requires RankedDag(arena, rank) && |t.assign| == |arena| && v < |arena|
    requires i <= |arena[v].parents|
    requires SampledClosed(arena, t.assign)
    ensures SampledClosed(arena, SampleParents(arena, rank, draws, t, v, i, key).0.assign)
    decreases rank[v], 0, |arena[v].parents| - i
  {
    if i < |arena[v].parents| {
      var p := arena[v].parents[i];
      SampleClosed(arena, rank, draws, t, p);
      var s := Sample(arena, rank, draws, t, p);
      if s.1 == Ok {
        ParentsClosed(arena, rank, draws, s.0, v, i + 1, key + s.0.assign[p]);
      }
    }
  }

  /** `path` climbs from a node to one of its ancestors, one linked parent at a time. */
  predicate IsAncestry(arena: seq<Node>, path: seq<nat>) {
    && InRange(path, |arena|)
    && forall k :: 0 <= k < |path| - 1 ==> path[k + 1] in arena[path[k]].parents
  }

  /** In a closed assignment a sampled node has all its ancestors sampled. */
  lemma {:induction false} ClosedAncestors(arena: seq<Node>, assign: seq<string>, path: seq<nat>)
    requires LinksInRange(arena) && |assign| == |arena| && SampledClosed(arena, assign)
    requires IsAncestry(arena, path) && |path| > 0 && IsSampled(assign[path[0]])
    ensures forall k :: 0 <= k < |path| ==> IsSampled(assign[path[k]])
  {
    if |path| > 1 {
      var j :| 0 <= j < |arena[path[0]].parents| && arena[path[0]].parents[j] == path[1];
      assert IsAncestry(arena, path[1..]);
      ClosedAncestors(arena, assign, path[1..]);
      forall k | 0 <= k < |path| ensures IsSampled(assign[path[k]]) {
        if k > 0 { assert path[k] == path[1..][k - 1]; }
      }
    }
  }

  /** Sampling succeeds on every node whose CPT, and whose ancestors' CPTs, hold
      every binary key of the right length, starting from "T"/"F"/unset samples. */
  ghost predicate CompleteCpts(arena: seq<Node>) {
    forall w, key :: 0 <= w < |arena| && !IsRoot(arena[w]) && |key| == |arena[w].parents| && IsBinaryKey(key) ==>
      key in arena[w].cpt
  }

  lemma {:induction false} SampleTotal(arena: seq<Node>, rank: seq<nat>, draws: nat -> real, t: Trace, v: nat)
    requires RankedDag(arena, rank) && |t.assign| == |arena| && v < |arena|
    requires CompleteCpts(arena) && Binary(t.assign)
    ensures Sample(arena, rank, draws, t, v).1 == Ok
    decreases rank[v], 1, 0
  {
    if !IsSampled(t.assign[v]) && !IsRoot(arena[v]) {
      ParentsTotal(arena, rank, draws, t, v, 0, "");
      ParentsKey(arena, rank, draws, t, v, 0, "");
      ParentsGrow(arena, rank, draws, t, v, 0, "");
      ParentsBinary(arena, rank, draws, t, v, 0, "");
      var p := SampleParents(arena, rank, draws, t, v, 0, "");
      assert arena[v].parents[0..] == arena[v].parents;
      SamplesOfBinary(p.0.assign, arena[v].parents);
    }
  }

  lemma {:induction false} ParentsTotal(arena: seq<Node>, rank: seq<nat>, draws: nat -> real, t: Trace,
                                        v: nat, i: nat, key: string)
    requires RankedDag(arena, rank) && |t.assign| == |arena| && v < |arena|
    requires i <= |arena[v].parents|
    requires CompleteCpts(arena) && Binary(t.assign)
    ensures SampleParents(arena, rank, draws, t, v, i, key).1 == Ok
    decreases rank[v], 0, |arena[v].parents| - i
  {
    if i < |arena[v].parents| {
      var p := arena[v].parents[i];
      SampleTotal(arena, rank, draws, t, p);
      SampleBinary(arena, rank, draws, t, p);
      var s := Sample(arena, rank, draws, t, p);
      ParentsTotal(arena, rank, draws, s.0, v, i + 1, key + s.0.assign[p]);
    }
  }

  /** Call Sample on every node of `index` in turn; dag.go ignores the results. */
  function SampleAll(arena: seq<Node>, rank: seq<nat>, draws: nat -> real, t: Trace, index: seq<nat>): (r: Trace)
    requires RankedDag(arena, rank) && |t.assign| == |arena| && InRange(index, |arena|)
    ensures |r.assign| == |arena|
    decreases |index|
  {
    if index == [] then t
    else SampleAll(arena, rank, draws, Sample(arena, rank, draws, t, index[0]).0, index[1..])
  }

  /** With complete CPTs, SampleAll leaves every listed node sampled and keeps
      every sample that was already there. */
  lemma {:induction false} SampleAllSamples(arena: seq<Node>, rank: seq<nat>, draws: nat -> real,
                                            t: Trace, index: seq<nat>)
    requires RankedDag(arena, rank) && |t.assign| == |arena| && InRange(index, |arena|)
    requires CompleteCpts(arena) && Binary(t.assign)
    ensures var r := SampleAll(arena, rank, draws, t, index);
      && Grows(t.assign, r.assign) && Binary(r.assign)
      && forall j :: 0 <= j < |index| ==> IsSampled(r.assign[index[j]])
    decreases |index|
  {
    if index != [] {
      var v := index[0];
      SampleTotal(arena, rank, draws, t, v);
      SampleGrows(arena, rank, draws, t, v);
      SampleBinary(arena, rank, draws, t, v);
      var s := Sample(arena, rank, draws, t, v).0;
      SampleAllSamples(arena, rank, draws, s, index[1..]);
      var r := SampleAll(arena, rank, draws, s, index[1..]);
      forall j | 0 <= j < |index| ensures IsSampled(r.assign[index[j]]) {
        if j > 0 { assert index[j] == index[1..][j - 1]; }
      }
    }
  }

  /** AncestralSampling (dag.go): reset, look up the requested names, and give up
      (after printing the error) if one is unknown; otherwise call Sample on every
      indexed node. The sorted copy of the requested nodes is never used, so it
      does not appear. Go recurses without bound on a cyclic graph; the model
      takes the rank of an acyclic one. */
  function AncestralSampling(net: Network, names: seq<string>, rank: seq<nat>, draws: nat -> real): (r: Network)
    requires Shaped(net) && RankedDag(net.arena, rank)
    ensures r == net.(assign := r.assign) && |r.assign| == |net.assign|
    ensures GatherNodes(net, names).Failure? ==> r == Reset(net)
  {
    var reset := Reset(net);
    if GatherNodes(net, names).Failure? then reset
    else reset.(assign := SampleAll(net.arena, rank, draws, Trace(reset.assign, 0), net.nodeIndex).assign)
  }

  /** When every name is known and the CPTs are complete, ancestral sampling
      leaves every indexed node sampled with "T" or "F". Indexed nodes may hold
      anything beforehand, since the reset clears them; only the nodes outside
      the index, which keep their values, must hold unset, "T" or "F". */
  lemma AncestralSamplingSamples(net: Network, names: seq<string>, rank: seq<nat>, draws: nat -> real)
    requires Shaped(net) && RankedDag(net.arena, rank)
    requires Registered(net) && forall i :: 0 <= i < |names| ==> names[i] in net.nodes
    requires CompleteCpts(net.arena)
    requires forall w :: 0 <= w < |net.assign| && w !in net.nodeIndex ==>
      net.assign[w] == Unset || net.assign[w] == "T" || net.assign[w] == "F"
    ensures var r := AncestralSampling(net, names, rank, draws);
      forall i :: 0 <= i < |net.nodeIndex| ==>
        r.assign[net.nodeIndex[i]] == "T" || r.assign[net.nodeIndex[i]] == "F"
  {
    var reset := Reset(net);
    GatherNodesCorrect(net, names);
    assert Binary(reset.assign);
    SampleAllSamples(net.arena, rank, draws, Trace(reset.assign, 0), net.nodeIndex);
  }
}
