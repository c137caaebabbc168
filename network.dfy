/** The simulated network used to provoke partitions: an unordered set of cut node pairs, a
    latency table, whole-group partitions and node isolation on top of it, and a split-brain
    detector that counts groups holding a quorum. */
module Network {
  import opened Common

  type NodeId = int

  /** The stored form of an unordered pair: `(min(a, b), max(a, b))`. */
  function Key(a: NodeId, b: NodeId): (r: (NodeId, NodeId))
    ensures r.0 <= r.1
    ensures {r.0, r.1} == {a, b}
  {
    (Min(a, b), Max(a, b))
  }

  /** Two calls name the same stored pair exactly when they name the same two nodes in
      either order. */
  lemma KeySame(a: NodeId, b: NodeId, c: NodeId, d: NodeId)
    ensures Key(a, b) == Key(c, d) <==> (a == c && b == d) || (a == d && b == c)
  {
  }

  /** The pairs between two groups. */
  ghost function Cross(groupA: seq<NodeId>, groupB: seq<NodeId>): set<(NodeId, NodeId)> {
    set a, b | a in groupA && b in groupB :: Key(a, b)
  }

  /** The pairs between a node and every other node of a list. */
  ghost function Around(n: NodeId, nodes: seq<NodeId>): set<(NodeId, NodeId)> {
    set o | o in nodes && o != n :: Key(n, o)
  }

  class NetworkSimulator {
    var partitions: set<(NodeId, NodeId)>
    var latency: map<(NodeId, NodeId), int>

    /** Every stored pair is normalised. */
    ghost predicate Valid()
      reads this
    {
      (forall p :: p in partitions ==> p.0 <= p.1) && (forall p :: p in latency ==> p.0 <= p.1)
    }

    constructor ()
      ensures partitions == {} && latency == map[] && Valid()
    {
      partitions, latency := {}, map[];
    }

    /** `add_partition(a, b)` */
    method AddPartition(a: NodeId, b: NodeId)
      requires Valid()
      modifies this
      ensures Valid() && partitions == old(partitions) + {Key(a, b)} && latency == old(latency)
    {
      partitions := partitions + {Key(a, b)};
    }

    /** `remove_partition(a, b)` */
    method RemovePartition(a: NodeId, b: NodeId)
      requires Valid()
      modifies this
      ensures Valid() && partitions == old(partitions) - {Key(a, b)} && latency == old(latency)
    {
      partitions := partitions - {Key(a, b)};
    }

    /** `clear_partitions()` */
    method ClearPartitions()
      requires Valid()
      modifies this
      ensures Valid() && partitions == {} && latency == old(latency)
    {
      partitions := {};
    }

    /** `is_partitioned(a, b)` */
    function IsPartitioned(a: NodeId, b: NodeId): (r: bool)
      reads this
      ensures r <==> Key(b, a) in partitions
    {
      Key(a, b) in partitions
    }

    /** `set_latency(a, b, ms)` */
    method SetLatency(a: NodeId, b: NodeId, ms: int)
      requires Valid()
      modifies this
      ensures Valid() && latency == old(latency)[Key(a, b) := ms] && partitions == old(partitions)
    {
      latency := latency[Key(a, b) := ms];
    }

    /** `get_latency(a, b)`: 0 for a pair never set. */
    function GetLatency(a: NodeId, b: NodeId): (r: int)
      reads this
      ensures Key(a, b) !in latency ==> r == 0
      ensures Key(a, b) in latency ==> r == latency[Key(a, b)]
    {
      GetOr(latency, Key(a, b), 0)
    }
  }

  /** `is_partitioned` and `get_latency` do not depend on the order of the two nodes. */
  lemma Symmetric(net: NetworkSimulator, a: NodeId, b: NodeId)
    ensures net.IsPartitioned(a, b) == net.IsPartitioned(b, a)
    ensures net.GetLatency(a, b) == net.GetLatency(b, a)
  {
    KeySame(a, b, b, a);
  }

  /** After `add_partition(a, b)` the pair is cut in both directions, and no other pair
      changes. */
  lemma AddPartitionEffect(before: set<(NodeId, NodeId)>, a: NodeId, b: NodeId, x: NodeId, y: NodeId)
    ensures Key(x, y) in before + {Key(a, b)} <==>
      Key(x, y) in before || (x == a && y == b) || (x == b && y == a)
  {
    KeySame(x, y, a, b);
  }

  /** `remove_partition` undoes an `add_partition` of a pair that was not cut before. */
  lemma RemoveUndoesAdd(before: set<(NodeId, NodeId)>, a: NodeId, b: NodeId)
    requires Key(a, b) !in before
    ensures (before + {Key(a, b)}) - {Key(b, a)} == before
  {
  }

  /** After `set_latency(a, b, ms)` both directions answer `ms`, and other pairs keep theirs. */
  lemma SetLatencyEffect(before: map<(NodeId, NodeId), int>, a: NodeId, b: NodeId, ms: int, x: NodeId, y: NodeId)
    ensures var after := before[Key(a, b) := ms];
      ((x == a && y == b) || (x == b && y == a) ==> GetOr(after, Key(x, y), 0) == ms) &&
      ({x, y} != {a, b} ==> GetOr(after, Key(x, y), 0) == GetOr(before, Key(x, y), 0))
  {
    KeySame(x, y, a, b);
  }

  /** Healing two groups after partitioning them restores the cut pairs as they were, when
      none of the pairs between the groups was cut beforehand. */
  lemma HealUndoesCreate(before: set<(NodeId, NodeId)>, groupA: seq<NodeId>, groupB: seq<NodeId>)
    requires before * Cross(groupA, groupB) == {}
    ensures (before + Cross(groupA, groupB)) - Cross(groupA, groupB) == before
  {
    var c := Cross(groupA, groupB);
    forall p | p in before ensures p !in c {
      assert p !in before * c;
    }
  }

  lemma CrossSnoc(groupA: seq<NodeId>, groupB: seq<NodeId>, i: nat)
    requires i < |groupA|
    ensures Cross(groupA[..i + 1], groupB) == Cross(groupA[..i], groupB) + Around(groupA[i], groupB) + CrossSelf(groupA[i], groupB)
  {
    PrefixSnoc(groupA, i);
    var lhs := Cross(groupA[..i + 1], groupB);
    var rhs := Cross(groupA[..i], groupB) + Around(groupA[i], groupB) + CrossSelf(groupA[i], groupB);
    forall p | p in lhs ensures p in rhs {
      var a, b :| a in groupA[..i + 1] && b in groupB && p == Key(a, b);
      if a != groupA[i] {
        assert a in groupA[..i];
      }
    }
  }

  /** The pair of a node with itself, when it occurs in the list. */
  ghost function CrossSelf(n: NodeId, nodes: seq<NodeId>): set<(NodeId, NodeId)> {
    if n in nodes then {Key(n, n)} else {}
  }

  lemma AroundSnoc(n: NodeId, nodes: seq<NodeId>, j: nat)
    requires j < |nodes|
    ensures Around(n, nodes[..j + 1]) == Around(n, nodes[..j]) + (if nodes[j] != n then {Key(n, nodes[j])} else {})
  {
    PrefixSnoc(nodes, j);
  }

  lemma CrossSelfSnoc(n: NodeId, nodes: seq<NodeId>, j: nat)
    requires j < |nodes|
    ensures CrossSelf(n, nodes[..j + 1]) == CrossSelf(n, nodes[..j]) + (if nodes[j] == n then {Key(n, n)} else {})
  {
    PrefixSnoc(nodes, j);
  }

  class PartitionManager {
    const nodes: seq<NodeId>
    const network: NetworkSimulator

    ghost predicate Valid()
      reads this, network
    {
      network.Valid()
    }

    constructor (nodes: seq<NodeId>)
      ensures this.nodes == nodes && fresh(network)
      ensures network.partitions == {} && network.latency == map[] && Valid()
    {
      this.nodes := nodes;
      network := new NetworkSimulator();
    }

    /** The pairs between `a` and every element of `groupB`, added (or removed) one call at a
        time. */
    method Link(a: NodeId, groupB: seq<NodeId>, cut: bool)
      requires Valid()
      modifies network
      ensures Valid() && network.latency == old(network.latency)
      ensures cut ==> network.partitions == old(network.partitions) + Around(a, groupB) + CrossSelf(a, groupB)
      ensures !cut ==> network.partitions == old(network.partitions) - (Around(a, groupB) + CrossSelf(a, groupB))
    {
      var j := 0;
      while j < |groupB|
        invariant 0 <= j <= |groupB| && Valid() && network.latency == old(network.latency)
        invariant cut ==> network.partitions == old(network.partitions) + Around(a, groupB[..j]) + CrossSelf(a, groupB[..j])
        invariant !cut ==> network.partitions == old(network.partitions) - (Around(a, groupB[..j]) + CrossSelf(a, groupB[..j]))
      {
        AroundSnoc(a, groupB, j);
        CrossSelfSnoc(a, groupB, j);
        if cut {
          network.AddPartition(a, groupB[j]);
        } else {
          network.RemovePartition(a, groupB[j]);
        }
        j := j + 1;
      }
      assert groupB[..j] == groupB;
    }

    /** `create_partition(group_a, group_b)`: every pair between the groups is cut. */
    method CreatePartition(groupA: seq<NodeId>, groupB: seq<NodeId>)
      requires Valid()
      modifies network
      ensures Valid() && network.latency == old(network.latency)
      ensures network.partitions == old(network.partitions) + Cross(groupA, groupB)
    {
      var i := 0;
      while i < |groupA|
        invariant 0 <= i <= |groupA| && Valid() && network.latency == old(network.latency)
        invariant network.partitions == old(network.partitions) + Cross(groupA[..i], groupB)
      {
        CrossSnoc(groupA, groupB, i);
        Link(groupA[i], groupB, true);
        i := i + 1;
      }
      assert groupA[..i] == groupA;
    }

    /** `heal_partition(group_a, group_b)`: exactly the pairs between the groups are uncut. */
    method HealPartition(groupA: seq<NodeId>, groupB: seq<NodeId>)
      requires Valid()
      modifies network
      ensures Valid() && network.latency == old(network.latency)
      ensures network.partitions == old(network.partitions) - Cross(groupA, groupB)
    {
      var i := 0;
      while i < |groupA|
        invariant 0 <= i <= |groupA| && Valid() && network.latency == old(network.latency)
        invariant network.partitions == old(network.partitions) - Cross(groupA[..i], groupB)
      {
        CrossSnoc(groupA, groupB, i);
        Link(groupA[i], groupB, false);
        i := i + 1;
      }
      assert groupA[..i] == groupA;
    }

    /** `isolate_node(n)`: n is cut from every other node. */
    method IsolateNode(n: NodeId)
      requires Valid()
      modifies network
      ensures Valid() && network.latency == old(network.latency)
      ensures network.partitions == old(network.partitions) + Around(n, nodes)
    {
      Spread(n, true);
    }

    /** `reconnect_node(n)`: the pairs between n and every other node are uncut. */
    method ReconnectNode(n: NodeId)
      requires Valid()
      modifies network
      ensures Valid() && network.latency == old(network.latency)
      ensures network.partitions == old(network.partitions) - Around(n, nodes)
    {
      Spread(n, false);
    }

    method Spread(n: NodeId, cut: bool)
      requires Valid()
      modifies network
      ensures Valid() && network.latency == old(network.latency)
      ensures cut ==> network.partitions == old(network.partitions) + Around(n, nodes)
      ensures !cut ==> network.partitions == old(network.partitions) - Around(n, nodes)
    {
      var j := 0;
      while j < |nodes|
        invariant 0 <= j <= |nodes| && Valid() && network.latency == old(network.latency)
        invariant cut ==> network.partitions == old(network.partitions) + Around(n, nodes[..j])
        invariant !cut ==> network.partitions == old(network.partitions) - Around(n, nodes[..j])
      {
        AroundSnoc(n, nodes, j);
        if nodes[j] != n {
          if cut {
            network.AddPartition(n, nodes[j]);
          } else {
            network.RemovePartition(n, nodes[j]);
          }
        }
        j := j + 1;
      }
      assert nodes[..j] == nodes;
    }

    /** `get_partition_state()`: the cut pairs. */
    function PartitionState(): (r: set<(NodeId, NodeId)>)
      reads this, network
      requires Valid()
      ensures forall p :: p in r ==> p.0 <= p.1
    {
      network.partitions
    }
  }

  /** Isolating a node cuts it from every other listed node in both directions. */
  lemma IsolatedEverywhere(before: set<(NodeId, NodeId)>, n: NodeId, nodes: seq<NodeId>, o: NodeId)
    requires o in nodes && o != n
    ensures Key(n, o) in before + Around(n, nodes) && Key(o, n) in before + Around(n, nodes)
  {
  }

  // ---------------------------------------------------------------------------------------
  // Split-brain detection

  /** `check_quorum(visible)`: the visible group counts towards a split brain. */
  function CheckQuorum(visible: seq<NodeId>, quorumSize: int): (r: bool)
    ensures r <==> Quorate([visible], quorumSize) == 1
  {
    |visible| >= quorumSize
  }

  /** The number of groups holding at least `quorumSize` members. */
  function Quorate(groups: seq<seq<NodeId>>, quorumSize: int): (r: nat)
    ensures r <= |groups|
  {
    if |groups| == 0 then 0
    else Quorate(groups[..|groups| - 1], quorumSize) + (if |groups[|groups| - 1]| >= quorumSize then 1 else 0)
  }

  /** `detect_split_brain(groups)`: more than one group could elect a leader. */
  method DetectSplitBrain(groups: seq<seq<NodeId>>, quorumSize: int) returns (split: bool)
    ensures split <==> Quorate(groups, quorumSize) > 1
  {
    var leaders := 0;
    var i := 0;
    while i < |groups|
      invariant 0 <= i <= |groups| && leaders == Quorate(groups[..i], quorumSize)
    {
      PrefixSnoc(groups, i);
      if |groups[i]| >= quorumSize {
        leaders := leaders + 1;
      }
      i := i + 1;
    }
    assert groups[..i] == groups;
    split := leaders > 1;
  }

  /** Split brain means two different groups both reach the quorum size. */
  lemma {:induction false} SplitBrainIff(groups: seq<seq<NodeId>>, quorumSize: int)
    ensures Quorate(groups, quorumSize) > 1 <==>
      exists i, j :: 0 <= i < j < |groups| && CheckQuorum(groups[i], quorumSize) && CheckQuorum(groups[j], quorumSize)
    decreases |groups|
  {
    if |groups| > 0 {
      var n := |groups| - 1;
      var init := groups[..n];
      SplitBrainIff(init, quorumSize);
      if |groups[n]| >= quorumSize && Quorate(init, quorumSize) == 1 {
        var i := OneQuorate(init, quorumSize);
        assert CheckQuorum(groups[i], quorumSize) && CheckQuorum(groups[n], quorumSize);
      }
      if exists i, j :: 0 <= i < j < |groups| && CheckQuorum(groups[i], quorumSize) && CheckQuorum(groups[j], quorumSize) {
        var i, j :| 0 <= i < j < |groups| && CheckQuorum(groups[i], quorumSize) && CheckQuorum(groups[j], quorumSize);
        if j < n {
          assert groups[i] == init[i] && groups[j] == init[j];
        } else {
          QuorateWitness(init, quorumSize, i);
        }
      }
    }
  }

  /** A group that reaches the quorum is counted. */
  lemma {:induction false} QuorateWitness(groups: seq<seq<NodeId>>, quorumSize: int, i: nat)
    requires i < |groups| && |groups[i]| >= quorumSize
    ensures Quorate(groups, quorumSize) >= 1
    decreases |groups|
  {
    if i < |groups| - 1 {
      QuorateWitness(groups[..|groups| - 1], quorumSize, i);
    }
  }

  /** A positive count has a group behind it. */
  lemma {:induction false} OneQuorate(groups: seq<seq<NodeId>>, quorumSize: int) returns (i: nat)
    requires Quorate(groups, quorumSize) >= 1
    ensures i < |groups| && |groups[i]| >= quorumSize
    decreases |groups|
  {
    var n := |groups| - 1;
    if |groups[n]| >= quorumSize {
      i := n;
    } else {
      i := OneQuorate(groups[..n], quorumSize);
    }
  }
}
