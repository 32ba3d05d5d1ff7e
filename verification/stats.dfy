/** stat.go: counting, per indexed node, the sweeps in which it was not "F",
    and turning the counts into frequencies. Go's float64 division is real
    division here. */
module Stats {
  import opened Seqs
  import opened Nodes
  import opened Networks

  /** NetworkStat: one counter per indexed node (same positions as nodeIndex)
      and the number of updates. */
  datatype NetworkStat = NetworkStat(count: seq<int>, total: int)

  /** NodeStat: the counter of a single node. */
  datatype NodeStat = NodeStat(count: int, total: int)

  /** Counters never exceed the number of updates and are never negative. */
  predicate Bounded(s: NetworkStat) {
    0 <= s.total && forall i :: 0 <= i < |s.count| ==> 0 <= s.count[i] <= s.total
  }

  /** Whether an assignment is counted: anything but "F", so an unset node counts. */
  function Hit(assignment: string): (h: int)
    ensures h == 0 <==> assignment == "F"
    ensures 0 <= h <= 1
  {
    if assignment == "F" then 0 else 1
  }

  /** NewNetworkStat: no updates and a zero counter per indexed node. */
  function NewNetworkStat(net: Network): (s: NetworkStat)
    ensures s.total == 0 && |s.count| == |net.nodeIndex|
    ensures Bounded(s)
  {
    NetworkStat(seq(|net.nodeIndex|, i => 0), 0)
  }

  /** Update: one more update; the counter of every indexed node not at "F" goes up. */
  function Update(s: NetworkStat, net: Network): (r: NetworkStat)
    requires |s.count| == |net.nodeIndex| && InRange(net.nodeIndex, |net.assign|)
    ensures r.total == s.total + 1 && |r.count| == |s.count|
    ensures forall i :: 0 <= i < |s.count| ==>
      (r.count[i] == s.count[i] + 1 <==> net.assign[net.nodeIndex[i]] != "F") &&
      (r.count[i] == s.count[i] <==> net.assign[net.nodeIndex[i]] == "F")
  {
    NetworkStat(seq(|s.count|, i requires 0 <= i < |s.count| => s.count[i] + Hit(net.assign[net.nodeIndex[i]])),
                s.total + 1)
  }

  /** Update keeps every counter between 0 and the number of updates. */
  lemma UpdateBounded(s: NetworkStat, net: Network)
    requires |s.count| == |net.nodeIndex| && InRange(net.nodeIndex, |net.assign|)
    requires Bounded(s)
    ensures Bounded(Update(s, net))
  {
    var r := Update(s, net);
    forall i | 0 <= i < |r.count| ensures 0 <= r.count[i] <= r.total {
      assert r.count[i] == s.count[i] || r.count[i] == s.count[i] + 1;
    }
  }

  /** The pair (count / total, (total - count) / total). */
  function Freq(count: int, total: int): (f: seq<real>)
    requires total > 0
    ensures |f| == 2
  {
    [count as real / total as real, (total - count) as real / total as real]
  }

  /** For a bounded counter the pair is two probabilities summing to one. */
  lemma FreqIsDistribution(count: int, total: int)
    requires 0 <= count <= total && total > 0
    ensures 0.0 <= Freq(count, total)[0] <= 1.0 && 0.0 <= Freq(count, total)[1] <= 1.0
    ensures Freq(count, total)[0] + Freq(count, total)[1] == 1.0
    ensures count == total ==> Freq(count, total) == [1.0, 0.0]
    ensures count == 0 ==> Freq(count, total) == [0.0, 1.0]
  {
    var t := total as real;
    var c := count as real;
    var x := c / t;
    var y := (t - c) / t;
    assert x * t == c && y * t == t - c;
    assert (x + y - 1.0) * t == 0.0;
    assert 0.0 <= x <= 1.0 by {
      assert x * t <= 1.0 * t;
    }
    assert 0.0 <= y <= 1.0 by {
      assert y * t <= 1.0 * t;
    }
  }

  /** The names of the first k indexed nodes. */
  function IndexedNames(net: Network, k: nat): set<string>
    requires k <= |net.nodeIndex| && InRange(net.nodeIndex, |net.arena|)
  {
    set i | 0 <= i < k :: net.arena[net.nodeIndex[i]].name
  }

  /** GetStats: the frequency pair of every indexed node, under its name. Go
      divides by zero when there was no update; here that is excluded. */
  function GetStats(s: NetworkStat, net: Network): (m: map<string, seq<real>>)
    requires |s.count| == |net.nodeIndex| && InRange(net.nodeIndex, |net.arena|)
    requires s.total > 0
    ensures m.Keys == IndexedNames(net, |net.nodeIndex|)
  {
    StatsUpTo(s, net, |net.nodeIndex|)
  }

  /** The loop of GetStats after k rounds. */
  function StatsUpTo(s: NetworkStat, net: Network, k: nat): (m: map<string, seq<real>>)
    requires |s.count| == |net.nodeIndex| && InRange(net.nodeIndex, |net.arena|)
    requires s.total > 0 && k <= |net.nodeIndex|
    ensures m.Keys == IndexedNames(net, k)
  {
    if k == 0 then map[]
    else
      var m := StatsUpTo(s, net, k - 1);
      assert IndexedNames(net, k) == IndexedNames(net, k - 1) + {net.arena[net.nodeIndex[k - 1]].name};
      m[net.arena[net.nodeIndex[k - 1]].name := Freq(s.count[k - 1], s.total)]
  }

  /** No two indexed nodes share a name. */
  predicate NamesApart(net: Network)
    requires InRange(net.nodeIndex, |net.arena|)
  {
    forall i, j :: 0 <= i < j < |net.nodeIndex| ==>
      net.arena[net.nodeIndex[i]].name != net.arena[net.nodeIndex[j]].name
  }

  lemma RegisteredNamesApart(net: Network)
    requires InRange(net.nodeIndex, |net.arena|) && Registered(net) && Distinct(net.nodeIndex)
    ensures NamesApart(net)
  {
    forall i, j | 0 <= i < j < |net.nodeIndex|
      ensures net.arena[net.nodeIndex[i]].name != net.arena[net.nodeIndex[j]].name
    {
      assert net.nodes[net.arena[net.nodeIndex[i]].name] == net.nodeIndex[i];
      assert net.nodes[net.arena[net.nodeIndex[j]].name] == net.nodeIndex[j];
    }
  }

  /** With distinct node names, indexed node i's entry is its own pair once the
      loop has passed it. */
  lemma {:induction false} StatsUpToEntry(s: NetworkStat, net: Network, k: nat, i: nat)
    requires |s.count| == |net.nodeIndex| && InRange(net.nodeIndex, |net.arena|)
    requires s.total > 0 && k <= |net.nodeIndex| && i < k
    requires NamesApart(net)
    ensures StatsUpTo(s, net, k)[net.arena[net.nodeIndex[i]].name] == Freq(s.count[i], s.total)
    decreases k
  {
    var m := StatsUpTo(s, net, k - 1);
    var last := net.arena[net.nodeIndex[k - 1]].name;
    assert StatsUpTo(s, net, k) == m[last := Freq(s.count[k - 1], s.total)];
    if i < k - 1 {
      StatsUpToEntry(s, net, k - 1, i);
      assert net.arena[net.nodeIndex[i]].name != last;
    }
  }

  /** GetStats reports every indexed node, observed or not, by its counter; for
      bounded counters each entry is a distribution. */
  lemma GetStatsEntries(s: NetworkStat, net: Network)
    requires |s.count| == |net.nodeIndex| && InRange(net.nodeIndex, |net.arena|)
    requires s.total > 0 && Bounded(s)
    requires Registered(net) && Distinct(net.nodeIndex)
    ensures forall i :: 0 <= i < |net.nodeIndex| ==>
      var f := GetStats(s, net)[net.arena[net.nodeIndex[i]].name];
      f == Freq(s.count[i], s.total) && 0.0 <= f[0] <= 1.0 && 0.0 <= f[1] <= 1.0 && f[0] + f[1] == 1.0
  {
    RegisteredNamesApart(net);
    forall i | 0 <= i < |net.nodeIndex| ensures var f := GetStats(s, net)[net.arena[net.nodeIndex[i]].name];
      f == Freq(s.count[i], s.total) && 0.0 <= f[0] <= 1.0 && 0.0 <= f[1] <= 1.0 && f[0] + f[1] == 1.0
    {
      StatsUpToEntry(s, net, |net.nodeIndex|, i);
      FreqIsDistribution(s.count[i], s.total);
    }
  }

  /** NewNodeStat. */
  function NewNodeStat(): (ns: NodeStat)
    ensures ns.count == 0 && ns.total == 0
  {
    NodeStat(0, 0)
  }

  /** NodeStat.Update: always one more update; the counter goes up unless "F". */
  function NodeUpdate(ns: NodeStat, assignment: string): (r: NodeStat)
    ensures r.total == ns.total + 1
    ensures r.count == ns.count + 1 <==> assignment != "F"
    ensures r.count == ns.count <==> assignment == "F"
  {
    if assignment == "F" then ns.(total := ns.total + 1)
    else NodeStat(ns.count + 1, ns.total + 1)
  }

  /** NodeStat.GetStats: the share of counted updates and the share of the rest;
      for a bounded counter the pair is a distribution. */
  function NodeGetStats(ns: NodeStat): (f: seq<real>)
    requires ns.total > 0
    ensures |f| == 2
    ensures f[0] * ns.total as real == ns.count as real
    ensures f[1] * ns.total as real == (ns.total - ns.count) as real
    ensures 0 <= ns.count <= ns.total ==> 0.0 <= f[0] <= 1.0 && 0.0 <= f[1] <= 1.0 && f[0] + f[1] == 1.0
  {
    var f := [ns.count as real / ns.total as real, (ns.total - ns.count) as real / ns.total as real];
    if 0 <= ns.count <= ns.total then FreqIsDistribution(ns.count, ns.total); f else f
  }

  /** A node's own statistics report the same pair as the network's statistics
      report for it. */
  lemma NodeStatAgreesWithGetStats(s: NetworkStat, net: Network, i: nat)
    requires |s.count| == |net.nodeIndex| && InRange(net.nodeIndex, |net.arena|)
    requires s.total > 0 && Bounded(s)
    requires Registered(net) && Distinct(net.nodeIndex)
    requires i < |net.nodeIndex|
    ensures GetStats(s, net)[net.arena[net.nodeIndex[i]].name] == NodeGetStats(NodeStat(s.count[i], s.total))
  {
    GetStatsEntries(s, net);
  }

  /** A NetworkStat counter moves exactly as a NodeStat fed that node's assignment. */
  lemma UpdateAgreesWithNodeStat(s: NetworkStat, net: Network, i: nat)
    requires |s.count| == |net.nodeIndex| && InRange(net.nodeIndex, |net.assign|)
    requires i < |s.count|
    ensures NodeUpdate(NodeStat(s.count[i], s.total), net.assign[net.nodeIndex[i]]) ==
      NodeStat(Update(s, net).count[i], Update(s, net).total)
  {
  }
}
