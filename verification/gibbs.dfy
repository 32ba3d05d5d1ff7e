/** The control flow of bn.go's GibbsSampling and AncestralSampling: which
    nodes are resampled, what they start from, and how often the statistics
    are updated. The value a resampled node receives (MarkovBlanketSample, or
    the newer revision's Node.Sample) is the parameter `choose`: it sees the
    number of values chosen so far, the current samples and the node. */
module Inference {
  import opened Errors
  import opened Seqs
  import opened Nodes
  import opened Networks
  import opened Assignments
  import opened Stats

  /** Give each node of `nodes` in turn the value `choose` picks for it. */
  function Sweep(assign: seq<string>, nodes: seq<nat>, choose: (nat, seq<string>, nat) -> string,
                 step: nat): (r: (seq<string>, nat))
    requires InRange(nodes, |assign|)
    ensures |r.0| == |assign| && r.1 == step + |nodes|
    ensures forall v :: 0 <= v < |assign| && v !in nodes ==> r.0[v] == assign[v]
    ensures TwoValued(choose) ==>
      forall v :: 0 <= v < |assign| && v in nodes ==> r.0[v] == "T" || r.0[v] == "F"
    decreases |nodes|
  {
    if nodes == [] then (assign, step)
    else
      var v := nodes[0];
      Sweep(assign[v := choose(step, assign, v)], nodes[1..], choose, step + 1)
  }

  /** The unset nodes of `index`, in index order. */
  function Unassigned(assign: seq<string>, index: seq<nat>): (free: seq<nat>)
    requires InRange(index, |assign|)
    ensures InRange(free, |assign|)
    ensures forall v :: v in free <==> v in index && !IsSampled(assign[v])
    ensures Distinct(index) ==> Distinct(free)
    decreases |index|
  {
    if index == [] then []
    else
      var rest := Unassigned(assign, index[1..]);
      assert forall v :: v in index <==> v == index[0] || v in index[1..];
      if !IsSampled(assign[index[0]]) then [index[0]] + rest else rest
  }

  /** The network GibbsSampling works on and the nodes it resamples. */
  datatype Setup = Setup(net: Network, free: seq<nat>)

  /** GibbsSampling up to its first sweep. Allocating the list of free nodes
      with capacity |nodeIndex| - |observations| panics when that is negative;
      then the network is reset. Without observations every indexed node is free
      and starts at "F". Otherwise the observations are stored (an unknown name
      panics), and every indexed node still unset becomes free, starting at "F". */
  function GibbsSetup(net: Network, obs: map<string, string>, keys: seq<string>): (r: Result<Setup>)
    requires Shaped(net) && Registered(net) && IsKeyOrder(keys, obs)
    ensures r.Success? ==> Shaped(r.value.net) && r.value.net == net.(assign := r.value.net.assign)
    ensures r.Success? ==> InRange(r.value.free, |net.arena|)
  {
    if |net.nodeIndex| - |obs| < 0 then Failure(CapacityOutOfRange)
    else
      var reset := Reset(net);
      if |obs| == 0 then
        Success(Setup(ResetWithAssignment(reset, "F").value, net.nodeIndex))
      else
        var stored := UpdateGraphValues(reset, obs, keys);
        if stored.1 != Ok then Failure(stored.1.error)
        else
          var free := Unassigned(stored.0.assign, net.nodeIndex);
          Success(Setup(stored.0.(assign := SetAll(stored.0.assign, free, "F")), free))
  }

  /** The samples right after the observations are stored on a reset network. */
  function Observed(net: Network, obs: map<string, string>): (a: seq<string>)
    requires Shaped(net)
    ensures |a| == |net.arena|
  {
    Overlay(Reset(net), obs)
  }

  /** Setup fails exactly when there are more observations than indexed nodes
      or an observation names an unknown node. */
  lemma GibbsSetupFails(net: Network, obs: map<string, string>, keys: seq<string>)
    requires Shaped(net) && Registered(net) && IsKeyOrder(keys, obs)
    ensures GibbsSetup(net, obs, keys).Failure? <==>
      |obs| > |net.nodeIndex| || !(obs.Keys <= net.nodes.Keys)
  {
    if |obs| == 0 {
      assert obs.Keys == {};
    }
  }

  /** After a successful setup: no indexed node is unset; the free nodes are all
      indexed nodes when nothing is observed, else exactly the indexed nodes the
      observations left unset; every free node holds "F"; every other node holds
      what the observations gave it on the reset network. */
  lemma GibbsSetupFacts(net: Network, obs: map<string, string>, keys: seq<string>)
    requires Shaped(net) && Registered(net) && IsKeyOrder(keys, obs)
    requires GibbsSetup(net, obs, keys).Success?
    ensures var s := GibbsSetup(net, obs, keys).value;
      && (forall i :: 0 <= i < |net.nodeIndex| ==> IsSampled(s.net.assign[net.nodeIndex[i]]))
      && (|obs| == 0 ==> s.free == net.nodeIndex)
      && (|obs| > 0 ==> forall v :: v in s.free <==>
            v in net.nodeIndex && !IsSampled(Observed(net, obs)[v]))
      && (forall v :: v in s.free ==> s.net.assign[v] == "F")
      && (forall v :: 0 <= v < |net.arena| && v !in s.free ==> s.net.assign[v] == Observed(net, obs)[v])
  {
    var s := GibbsSetup(net, obs, keys).value;
    if |obs| == 0 {
      assert obs.Keys == {};
      var reset := Reset(net);
      forall v | 0 <= v < |net.arena| ensures Observed(net, obs)[v] == reset.assign[v] {
      }
    }
  }

  /** The samples agree with `base` outside `free`, and every node of `free` is
      "T" or "F". */
  predicate Sweeping(assign: seq<string>, base: seq<string>, free: seq<nat>) {
    && |assign| == |base|
    && (forall v :: 0 <= v < |base| && v !in free ==> assign[v] == base[v])
    && (forall v :: 0 <= v < |base| && v in free ==> assign[v] == "T" || assign[v] == "F")
  }

  /** The value a Gibbs step gives: "T" when `pick` says so, else "F". */
  function Verdict(pick: (nat, seq<string>, nat) -> bool): (choose: (nat, seq<string>, nat) -> string)
    ensures forall s, a, v :: choose(s, a, v) == "T" <==> pick(s, a, v)
    ensures TwoValued(choose)
  {
    (s: nat, a: seq<string>, v: nat) => if pick(s, a, v) then "T" else "F"
  }

  /** Node v is observed: the observations name it with a value other than unset. */
  predicate IsObserved(net: Network, obs: map<string, string>, v: nat)
    requires v < |net.arena|
  {
    net.arena[v].name in obs && IsSampled(obs[net.arena[v].name])
  }

  /** What the sweeps rely on after setup: the free nodes are indexed, they and
      only they may change, observed nodes are not among them, and every other
      node holds its observed (or previous) value. */
  lemma GibbsSetupFrame(net: Network, obs: map<string, string>, keys: seq<string>)
    requires Shaped(net) && Registered(net) && IsKeyOrder(keys, obs)
    requires GibbsSetup(net, obs, keys).Success?
    ensures var s := GibbsSetup(net, obs, keys).value;
      && Sweeping(s.net.assign, s.net.assign, s.free)
      && (forall v :: v in s.free ==> v in net.nodeIndex)
      && (forall v :: 0 <= v < |net.arena| && v !in s.free ==> s.net.assign[v] == Observed(net, obs)[v])
      && (forall v :: 0 <= v < |net.arena| && IsObserved(net, obs, v) ==>
            v !in s.free && s.net.assign[v] == obs[net.arena[v].name])
  {
    GibbsSetupFacts(net, obs, keys);
    var s := GibbsSetup(net, obs, keys).value;
    forall v | 0 <= v < |net.arena| && IsObserved(net, obs, v)
      ensures v !in s.free && s.net.assign[v] == obs[net.arena[v].name]
    {
      assert Observed(net, obs)[v] == obs[net.arena[v].name];
      assert |obs| > 0 by { assert net.arena[v].name in obs.Keys; }
    }
  }

  /** Every chooser of Gibbs values gives "T" or "F". */
  ghost predicate TwoValued(choose: (nat, seq<string>, nat) -> string) {
    forall s, a, v :: choose(s, a, v) == "T" || choose(s, a, v) == "F"
  }

  /** The burn-in: n sweeps over the free nodes, without statistics. */
  method BurnIn(assign: seq<string>, free: seq<nat>, choose: (nat, seq<string>, nat) -> string, n: nat)
    returns (after: seq<string>, step: nat)
    requires InRange(free, |assign|) && TwoValued(choose)
    requires Sweeping(assign, assign, free)
    ensures Sweeping(after, assign, free)
    ensures step == n * |free|
  {
    after, step := assign, 0;
    var i := 0;
    while i < n
      invariant i <= n && step == i * |free|
      invariant Sweeping(after, assign, free)
    {
      var swept := Sweep(after, free, choose, step);
      after, step := swept.0, swept.1;
      i := i + 1;
    }
  }

  /** The recorded part: m sweeps over the free nodes, each followed by a
      statistics update on the whole index. A node outside `free` is counted in
      every update or in none, by its value in `base`. */
  method Record(base: Network, free: seq<nat>, choose: (nat, seq<string>, nat) -> string,
                assign: seq<string>, step: nat, m: nat)
    returns (after: seq<string>, ns: NetworkStat)
    requires Shaped(base) && InRange(free, |base.arena|) && TwoValued(choose)
    requires Sweeping(assign, base.assign, free)
    ensures Sweeping(after, base.assign, free)
    ensures ns.total == m && |ns.count| == |base.nodeIndex| && Bounded(ns)
    ensures forall k :: 0 <= k < |base.nodeIndex| && base.nodeIndex[k] !in free ==>
      ns.count[k] == m * Hit(base.assign[base.nodeIndex[k]])
  {
    after := assign;
    ns := NewNetworkStat(base);
    var j := 0;
    var next := step;
    while j < m
      invariant j <= m
      invariant Sweeping(after, base.assign, free)
      invariant ns.total == j && |ns.count| == |base.nodeIndex| && Bounded(ns)
      invariant forall k :: 0 <= k < |base.nodeIndex| && base.nodeIndex[k] !in free ==>
        ns.count[k] == j * Hit(base.assign[base.nodeIndex[k]])
    {
      var swept := Sweep(after, free, choose, next);
      after, next := swept.0, swept.1;
      var current := base.(assign := after);
      UpdateBounded(ns, current);
      ns := Update(ns, current);
      j := j + 1;
    }
  }

  /** GibbsSampling: set up, run n burn-in sweeps over the free nodes, then m
      sweeps each followed by a statistics update, and reset. The result holds
      the final network and the counters that GetStats turns into frequencies.
      The value of a resampled node is "T" exactly when `pick` says so. */
  method GibbsSampling(net: Network, obs: map<string, string>, keys: seq<string>, n: nat, m: nat,
                       pick: (nat, seq<string>, nat) -> bool)
    returns (r: Result<(Network, NetworkStat)>)
    requires Shaped(net) && Registered(net) && IsKeyOrder(keys, obs)
    ensures r.Success? <==> GibbsSetup(net, obs, keys).Success?
    ensures r.Failure? ==> r == GibbsSetup(net, obs, keys).PropagateFailure()
    ensures r.Success? ==> var (done, stat) := r.value;
      && done == net.(assign := done.assign) && |done.assign| == |net.assign|
      && (forall i :: 0 <= i < |net.nodeIndex| ==> !IsSampled(done.assign[net.nodeIndex[i]]))
      && (forall v :: 0 <= v < |net.arena| && v !in net.nodeIndex ==> done.assign[v] == Observed(net, obs)[v])
      && stat.total == m && |stat.count| == |net.nodeIndex| && Bounded(stat)
      && (forall i :: 0 <= i < |net.nodeIndex| && IsObserved(net, obs, net.nodeIndex[i]) ==>
            stat.count[i] == m * Hit(obs[net.arena[net.nodeIndex[i]].name]))
  {
    var setup := GibbsSetup(net, obs, keys);
    if setup.Failure? {
      return setup.PropagateFailure();
    }
    GibbsSetupFrame(net, obs, keys);
    var base := setup.value.net;
    var free := setup.value.free;
    var choose := Verdict(pick);
    var assign, step := BurnIn(base.assign, free, choose, n);
    var ns;
    assign, ns := Record(base, free, choose, assign, step, m);
    var done := Reset(base.(assign := assign));
    r := Success((done, ns));
  }

  /** With m > 0, GetStats reports an observed indexed node counted in every
      update as (1, 0), and one counted in none as (0, 1): an observed "T" (or
      any value but "F") comes out certain, an observed "F" impossible. */
  lemma ObservedReport(done: Network, obs: map<string, string>, stat: NetworkStat, m: nat)
    requires Shaped(done) && Registered(done) && Distinct(done.nodeIndex)
    requires m > 0 && stat.total == m && |stat.count| == |done.nodeIndex| && Bounded(stat)
    requires forall i :: 0 <= i < |done.nodeIndex| && IsObserved(done, obs, done.nodeIndex[i]) ==>
      stat.count[i] == m * Hit(obs[done.arena[done.nodeIndex[i]].name])
    ensures forall i :: 0 <= i < |done.nodeIndex| && IsObserved(done, obs, done.nodeIndex[i]) ==>
      GetStats(stat, done)[done.arena[done.nodeIndex[i]].name] ==
        if obs[done.arena[done.nodeIndex[i]].name] == "F" then [0.0, 1.0] else [1.0, 0.0]
  {
    GetStatsEntries(stat, done);
    forall i | 0 <= i < |done.nodeIndex| && IsObserved(done, obs, done.nodeIndex[i])
      ensures GetStats(stat, done)[done.arena[done.nodeIndex[i]].name] ==
        if obs[done.arena[done.nodeIndex[i]].name] == "F" then [0.0, 1.0] else [1.0, 0.0]
    {
      FreqIsDistribution(stat.count[i], m);
    }
  }

  /** AncestralSampling (bn.go): n rounds, each giving every indexed node in
      index order the value `choose` picks and then updating the statistics;
      finally the network is reset. */
  method AncestralSampling(net: Network, n: nat, choose: (nat, seq<string>, nat) -> string)
    returns (done: Network, stat: NetworkStat)
    requires Shaped(net)
    ensures done == net.(assign := done.assign) && |done.assign| == |net.assign|
    ensures forall i :: 0 <= i < |net.nodeIndex| ==> !IsSampled(done.assign[net.nodeIndex[i]])
    ensures forall v :: 0 <= v < |net.arena| && v !in net.nodeIndex ==> done.assign[v] == net.assign[v]
    ensures stat.total == n && |stat.count| == |net.nodeIndex| && Bounded(stat)
  {
    stat := NewNetworkStat(net);
    var assign := net.assign;
    var step := 0;
    var i := 0;
    while i < n
      invariant |assign| == |net.assign|
      invariant forall v :: 0 <= v < |net.arena| && v !in net.nodeIndex ==> assign[v] == net.assign[v]
      invariant i <= n
      invariant stat.total == i && |stat.count| == |net.nodeIndex| && Bounded(stat)
    {
      assign, step := Sweep(assign, net.nodeIndex, choose, step).0, Sweep(assign, net.nodeIndex, choose, step).1;
      var current := net.(assign := assign);
      UpdateBounded(stat, current);
      stat := Update(stat, current);
      i := i + 1;
    }
    done := Reset(net.(assign := assign));
  }
}
