/** Cluster membership for the replicated store: each node's manager tracks its peers' liveness
    from heartbeats, elects the smallest live id as leader, and hands leader changes to a
    failover manager that switches the local storage node's role. A replica set keeps the
    known nodes and a designated leader. Clock readings are integer parameters `now`; the
    `on_leader_change` callback is the id a method returns, which the failover manager
    dispatches. */
module Cluster {
  import opened Common
  import ReplicatedNode

  type NodeId = int

  /** A `ClusterNode` as seen by a manager: its last heartbeat time and liveness flag. */
  datatype Peer = Peer(lastHeartbeat: int, isAlive: bool)

  /** A freshly constructed `ClusterNode`. */
  const NewPeer := Peer(0, true)

  /** `now - peer.last_heartbeat > failure_timeout` */
  predicate Expired(p: Peer, now: int, timeout: int) {
    now - p.lastHeartbeat > timeout
  }

  /** The peers after `_check_peers()`. */
  function Checked(peers: map<NodeId, Peer>, now: int, timeout: int): map<NodeId, Peer> {
    map id | id in peers :: if Expired(peers[id], now, timeout) then peers[id].(isAlive := false) else peers[id]
  }

  /** `_check_peers` marks dead exactly the peers whose last heartbeat is too old, keeps every
      heartbeat time, and never brings a peer back to life. */
  lemma CheckedMarksExpired(peers: map<NodeId, Peer>, now: int, timeout: int)
    ensures Checked(peers, now, timeout).Keys == peers.Keys
    ensures forall id :: id in peers ==>
      Checked(peers, now, timeout)[id].lastHeartbeat == peers[id].lastHeartbeat &&
      (Checked(peers, now, timeout)[id].isAlive <==> peers[id].isAlive && !Expired(peers[id], now, timeout))
  {
  }

  /** The ids `_elect_leader` considers: its own and those of the live peers. */
  function Candidates(localId: NodeId, peers: map<NodeId, Peer>): set<NodeId> {
    {localId} + set id | id in peers && peers[id].isAlive
  }

  /** `m` is `min(s)`. */
  predicate Least(m: int, s: set<int>) {
    m in s && forall c :: c in s ==> m <= c
  }

  lemma LeastUnique(a: int, b: int, s: set<int>)
    requires Least(a, s) && Least(b, s)
    ensures a == b
  {
  }

  /** The outcome of `_elect_leader()`: the new leader is the smallest candidate, and
      `on_leader_change` receives it exactly when it differs from the old leader. */
  predicate Elected(before: Option<NodeId>, after: Option<NodeId>, fired: Option<NodeId>,
                    localId: NodeId, peers: map<NodeId, Peer>)
  {
    after.Some? && Least(after.value, Candidates(localId, peers)) &&
    fired == (if after == before then None else after)
  }

  /** The condition under which `_check_leader()` calls `_elect_leader()`: no leader yet, or
      the leader is another node that is a peer marked dead. */
  predicate NeedsElection(localId: NodeId, peers: map<NodeId, Peer>, leader: Option<NodeId>) {
    leader.None? || (leader.value != localId && leader.value in peers && !peers[leader.value].isAlive)
  }

  /** Electing again over the same peers keeps the leader and calls nobody. */
  lemma ElectionIdempotent(l0: Option<NodeId>, l1: Option<NodeId>, f1: Option<NodeId>,
                           l2: Option<NodeId>, f2: Option<NodeId>, localId: NodeId, peers: map<NodeId, Peer>)
    requires Elected(l0, l1, f1, localId, peers) && Elected(l1, l2, f2, localId, peers)
    ensures l2 == l1 && f2.None?
  {
    LeastUnique(l1.value, l2.value, Candidates(localId, peers));
  }

  /** After an election the leader is the local node or a live peer, and no live peer has a
      smaller id; so the monitor never re-elects right after it elected. */
  lemma ElectedIsLive(l0: Option<NodeId>, l1: Option<NodeId>, f: Option<NodeId>, localId: NodeId, peers: map<NodeId, Peer>)
    requires Elected(l0, l1, f, localId, peers)
    ensures l1.value == localId || (l1.value in peers && peers[l1.value].isAlive)
    ensures l1.value <= localId && forall id :: id in peers && peers[id].isAlive ==> l1.value <= id
    ensures !NeedsElection(localId, peers, l1)
  {
    var c := Candidates(localId, peers);
    assert localId in c;
    forall id | id in peers && peers[id].isAlive
      ensures l1.value <= id
    {
      assert id in c;
    }
  }

  /** A dead peer that led is never re-elected: marking it dead and electing moves the
      leadership elsewhere and announces the change. */
  lemma DeadLeaderReplaced(l0: Option<NodeId>, l1: Option<NodeId>, f: Option<NodeId>, localId: NodeId, peers: map<NodeId, Peer>)
    requires l0.Some? && l0.value != localId && l0.value in peers && !peers[l0.value].isAlive
    requires Elected(l0, l1, f, localId, peers)
    ensures l1 != l0 && f == l1
  {
    assert l1.value in Candidates(localId, peers);
  }

  /** `ClusterManager`: the local id, the peers by id, the failure timeout and the leader. */
  class ClusterManager {
    const localId: NodeId
    const failureTimeout: int
    var peers: map<NodeId, Peer>
    var leaderId: Option<NodeId>

    /** `ClusterManager(local_node, peers)`: each listed peer, keyed by its id, starts alive
        with heartbeat time 0. */
    constructor(localId: NodeId, peerIds: seq<NodeId>, failureTimeout: int)
      ensures this.localId == localId && this.failureTimeout == failureTimeout
      ensures peers == map id | id in peerIds :: NewPeer
      ensures leaderId.None?
    {
      this.localId, this.failureTimeout := localId, failureTimeout;
      peers := map id | id in peerIds :: NewPeer;
      leaderId := None;
    }

    /** The answered heartbeat in `_send_heartbeat(peer)`: the peer is stamped and alive. */
    method HeartbeatAnswered(id: NodeId, now: int)
      requires id in peers
      modifies this
      ensures peers == old(peers)[id := Peer(now, true)] && leaderId == old(leaderId)
    {
      peers := peers[id := Peer(now, true)];
    }

    /** `_check_peers()` */
    method CheckPeers(now: int)
      modifies this
      ensures peers == Checked(old(peers), now, failureTimeout) && leaderId == old(leaderId)
    {
      ghost var p0 := peers;
      var todo := peers.Keys;
      while todo != {}
        invariant todo <= p0.Keys && peers.Keys == p0.Keys && leaderId == old(leaderId)
        invariant forall id :: id in todo ==> peers[id] == p0[id]
        invariant forall id :: id in p0 && id !in todo ==> peers[id] == Checked(p0, now, failureTimeout)[id]
        decreases todo
      {
        Inhabited(todo);
        var id :| id in todo;
        var peer := peers[id];
        if now - peer.lastHeartbeat > failureTimeout {
          if peer.isAlive {
            peers := peers[id := peer.(isAlive := false)];
          }
        }
        todo := todo - {id};
      }
      var c := Checked(p0, now, failureTimeout);
      forall id | id in peers
        ensures id in c && c[id] == peers[id]
      {
        assert id in p0 && id !in todo;
      }
      MapExt(peers, c);
    }

    /** `_elect_leader()`: returns the id handed to `on_leader_change`, if it fires. */
    method ElectLeader() returns (fired: Option<NodeId>)
      modifies this
      ensures peers == old(peers) && Elected(old(leaderId), leaderId, fired, localId, peers)
    {
      var m := localId;
      var todo := peers.Keys;
      while todo != {}
        invariant todo <= peers.Keys && peers == old(peers) && leaderId == old(leaderId)
        invariant m in Candidates(localId, peers) && m <= localId
        invariant forall id :: id in peers && id !in todo && peers[id].isAlive ==> m <= id
        decreases todo
      {
        Inhabited(todo);
        var id :| id in todo;
        if peers[id].isAlive && id < m {
          m := id;
        }
        todo := todo - {id};
      }
      if Some(m) != leaderId {
        leaderId := Some(m);
        fired := Some(m);
      } else {
        fired := None;
      }
    }

    /** `_check_leader()` */
    method CheckLeader() returns (fired: Option<NodeId>)
      modifies this
      ensures peers == old(peers)
      ensures NeedsElection(localId, peers, old(leaderId)) ==> Elected(old(leaderId), leaderId, fired, localId, peers)
      ensures !NeedsElection(localId, peers, old(leaderId)) ==> leaderId == old(leaderId) && fired.None?
    {
      fired := None;
      if leaderId.None? {
        fired := ElectLeader();
      } else if leaderId.value != localId {
        if leaderId.value in peers && !peers[leaderId.value].isAlive {
          fired := ElectLeader();
        }
      }
    }

    /** `force_failover()`, the part under the manager's lock: the leader, when it is a
        peer, is marked dead, and a leader is elected. */
    method MarkLeaderDeadAndElect() returns (fired: Option<NodeId>)
      modifies this
      ensures old(leaderId).Some? && old(leaderId).value in old(peers) ==>
        peers == old(peers)[old(leaderId).value := old(peers)[old(leaderId).value].(isAlive := false)]
      ensures !(old(leaderId).Some? && old(leaderId).value in old(peers)) ==> peers == old(peers)
      ensures Elected(old(leaderId), leaderId, fired, localId, peers)
    {
      if leaderId.Some? && leaderId.value in peers {
        var l := leaderId.value;
        peers := peers[l := peers[l].(isAlive := false)];
      }
      fired := ElectLeader();
    }

    /** `get_leader()`: the elected leader, the local node's own id exactly when
        `is_leader()` holds. */
    function GetLeader(): (r: Option<NodeId>)
      reads this
      ensures r == leaderId
      ensures r == Some(localId) <==> IsLeader()
    {
      leaderId
    }

    /** `is_leader()` */
    function IsLeader(): (r: bool)
      reads this
      ensures r <==> leaderId == Some(localId)
    {
      leaderId == Some(localId)
    }

    /** `get_alive_peers()`, as the set of their ids. */
    function GetAlivePeers(): (r: set<NodeId>)
      reads this
      ensures forall id :: id in r <==> id in peers && peers[id].isAlive
    {
      set id | id in peers && peers[id].isAlive
    }
  }

  lemma Inhabited(s: set<NodeId>)
    requires s != {}
    ensures exists k :: k in s
  {
    if forall k :: k !in s {
      assert false;
    }
  }

  /** The storage role that `_handle_leader_change(new_leader_id)` leaves behind. */
  function RoleFor(storageId: NodeId, newLeader: NodeId): ReplicatedNode.Role {
    if newLeader == storageId then ReplicatedNode.Leader else ReplicatedNode.Follower
  }

  /** `FailoverManager`: hooks a cluster manager's leader changes to the local storage node
      and, when one is given, to a replication manager that runs only on the leader. */
  class FailoverManager {
    const cluster: ClusterManager
    const storage: ReplicatedNode.StorageNode
    const hasReplication: bool
    /** Whether the replication manager's sender is started. */
    var replicating: bool

    /** The storage node follows the cluster's leader: it leads exactly when the cluster
        elected it, and otherwise follows the elected node. */
    ghost predicate Synced()
      reads this, cluster, storage
    {
      cluster.leaderId.Some? ==>
        storage.leaderId == cluster.leaderId &&
        storage.role == RoleFor(storage.nodeId, cluster.leaderId.value) &&
        (hasReplication ==> replicating == (cluster.leaderId.value == storage.nodeId))
    }

    constructor(cluster: ClusterManager, storage: ReplicatedNode.StorageNode, hasReplication: bool)
      ensures this.cluster == cluster && this.storage == storage && this.hasReplication == hasReplication
      ensures !replicating
    {
      this.cluster, this.storage, this.hasReplication := cluster, storage, hasReplication;
      replicating := false;
    }

    /** `_handle_leader_change(new_leader_id)` */
    method HandleLeaderChange(newLeader: NodeId)
      modifies this, storage
      ensures storage.View() == old(storage.View()).(role := RoleFor(storage.nodeId, newLeader), leaderId := Some(newLeader))
      ensures replicating == if hasReplication then newLeader == storage.nodeId else old(replicating)
    {
      if newLeader == storage.nodeId {
        storage.BecomeLeader();
        if hasReplication {
          replicating := true;
        }
      } else {
        storage.BecomeFollower(newLeader);
        if hasReplication {
          replicating := false;
        }
      }
    }

    /** One pass of the monitor's `_check_leader()` with the callback installed. */
    method CheckLeader()
      modifies this, cluster, storage
      ensures cluster.peers == old(cluster.peers)
      ensures NeedsElection(cluster.localId, cluster.peers, old(cluster.leaderId)) ==>
        exists f :: Elected(old(cluster.leaderId), cluster.leaderId, f, cluster.localId, cluster.peers)
      ensures !NeedsElection(cluster.localId, cluster.peers, old(cluster.leaderId)) ==>
        cluster.leaderId == old(cluster.leaderId) && storage.View() == old(storage.View())
      ensures cluster.leaderId != old(cluster.leaderId) || old(Synced()) ==> Synced()
    {
      var fired := cluster.CheckLeader();
      if fired.Some? {
        HandleLeaderChange(fired.value);
      }
    }

    /** `force_failover()` */
    method ForceFailover()
      modifies this, cluster, storage
      ensures Elected(old(cluster.leaderId), cluster.leaderId, if cluster.leaderId == old(cluster.leaderId) then None else cluster.leaderId,
                      cluster.localId, cluster.peers)
      ensures (old(cluster.leaderId).Some? && old(cluster.leaderId).value != cluster.localId &&
               old(cluster.leaderId).value in old(cluster.peers)) ==> cluster.leaderId != old(cluster.leaderId)
      ensures cluster.leaderId != old(cluster.leaderId) || old(Synced()) ==> Synced()
    {
      var fired := cluster.MarkLeaderDeadAndElect();
      if fired.Some? {
        HandleLeaderChange(fired.value);
      }
      if old(cluster.leaderId).Some? && old(cluster.leaderId).value != cluster.localId && old(cluster.leaderId).value in old(cluster.peers) {
        DeadLeaderReplaced(old(cluster.leaderId), cluster.leaderId, fired, cluster.localId, cluster.peers);
      }
    }
  }

  /** `get_leader()` as written: a leader id that Python reads as false (node 0) hides the
      leader. */
  function LeaderOf(ids: seq<NodeId>, leader: Option<NodeId>): (r: Option<NodeId>)
    ensures r.Some? <==> leader.Some? && leader.value != 0 && leader.value in ids
    ensures r.Some? ==> r == leader
  {
    if leader.Some? && leader.value != 0 && leader.value in ids then leader else None
  }

  /** `get_leader()` testing `leader_id is not None`. */
  function LeaderOfFixed(ids: seq<NodeId>, leader: Option<NodeId>): (r: Option<NodeId>)
    ensures r.Some? <==> leader.Some? && leader.value in ids
    ensures r.Some? ==> r == leader
  {
    if leader.Some? && leader.value in ids then leader else None
  }

  /** Node 0 can be made leader, yet `get_leader()` then reports no leader. */
  lemma ZeroLeaderHidden(ids: seq<NodeId>)
    requires 0 in ids
    ensures LeaderOf(ids, Some(0)) == None && LeaderOfFixed(ids, Some(0)) == Some(0)
  {
  }

  /** The two agree for every leader id other than 0. */
  lemma LeaderOfAgrees(ids: seq<NodeId>, leader: Option<NodeId>)
    requires leader != Some(0)
    ensures LeaderOf(ids, leader) == LeaderOfFixed(ids, leader)
  {
  }

  /** `ids` without `x`, in order: `dict.pop` on the key list. */
  function Drop(ids: seq<NodeId>, x: NodeId): (r: seq<NodeId>)
    ensures forall y :: y in r <==> y in ids && y != x
  {
    if ids == [] then [] else (if ids[0] == x then [] else [ids[0]]) + Drop(ids[1..], x)
  }

  /** Dropping an id keeps the rest distinct. */
  lemma {:induction false} DropDistinct(ids: seq<NodeId>, x: NodeId)
    requires Distinct(ids)
    ensures Distinct(Drop(ids, x))
  {
    if ids != [] {
      assert Distinct(ids[1..]) by {
        forall i, j | 0 <= i < j < |ids[1..]|
          ensures ids[1..][i] != ids[1..][j]
        {
          assert ids[1..][i] == ids[i + 1] && ids[1..][j] == ids[j + 1];
        }
      }
      DropDistinct(ids[1..], x);
      var t := Drop(ids[1..], x);
      if ids[0] != x {
        assert ids[0] !in ids[1..];
        assert ids[0] !in t;
        var r := [ids[0]] + t;
        forall i, j | 0 <= i < j < |r|
          ensures r[i] != r[j]
        {
          if i > 0 {
            assert r[i] == t[i - 1] && r[j] == t[j - 1];
          } else {
            assert r[j] in t;
          }
        }
      }
    }
  }

  /** The key order of `{n.node_id: n for n in nodes}`: first occurrences, in order. */
  function Keys(ns: seq<NodeId>, acc: seq<NodeId>): (r: seq<NodeId>)
    requires Distinct(acc)
    ensures Distinct(r) && forall y :: y in r <==> y in acc || y in ns
    decreases ns
  {
    if ns == [] then acc
    else if ns[0] in acc then Keys(ns[1..], acc)
    else Keys(ns[1..], acc + [ns[0]])
  }

  /** The nodes other than the leader, in key order. */
  function Followers(ids: seq<NodeId>, leader: Option<NodeId>): (r: seq<NodeId>)
    ensures forall y :: y in r <==> y in ids && Some(y) != leader
  {
    if ids == [] then [] else (if Some(ids[0]) == leader then [] else [ids[0]]) + Followers(ids[1..], leader)
  }

  lemma {:induction false} FollowersShorter(ids: seq<NodeId>, leader: Option<NodeId>)
    ensures |Followers(ids, leader)| <= |ids|
  {
    if ids != [] {
      FollowersShorter(ids[1..], leader);
    }
  }

  /** `Followers` is `Drop` of the leader, so with distinct ids it is one node shorter than
      the set exactly when the leader is a member. */
  lemma {:induction false} FollowersCount(ids: seq<NodeId>, leader: Option<NodeId>)
    requires Distinct(ids)
    ensures leader.Some? ==> Followers(ids, leader) == Drop(ids, leader.value)
    ensures leader.None? ==> Followers(ids, leader) == ids
    ensures |Followers(ids, leader)| == if leader.Some? && leader.value in ids then |ids| - 1 else |ids|
  {
    if ids != [] {
      FollowersCount(ids[1..], leader);
      assert ids == [ids[0]] + ids[1..];
    }
  }

  /** `ReplicaSet`: the member nodes in insertion order, identified by their ids, and the
      designated leader. */
  class ReplicaSet {
    var ids: seq<NodeId>
    var leaderId: Option<NodeId>

    /** Members are distinct, and the leader is a member. */
    ghost predicate Valid()
      reads this
    {
      Distinct(ids) && (leaderId.Some? ==> leaderId.value in ids)
    }

    constructor(nodes: seq<NodeId>)
      ensures Valid() && ids == Keys(nodes, []) && leaderId.None?
    {
      ids := Keys(nodes, []);
      leaderId := None;
    }

    /** `add_node(node)`: a new id goes last; a known one keeps its place. */
    method AddNode(id: NodeId)
      requires Valid()
      modifies this
      ensures Valid() && leaderId == old(leaderId)
      ensures ids == if id in old(ids) then old(ids) else old(ids) + [id]
    {
      if id !in ids {
        ids := ids + [id];
      }
    }

    /** `remove_node(node_id)`: an absent id is fine; removing the leader clears it. */
    method RemoveNode(id: NodeId)
      requires Valid()
      modifies this
      ensures Valid() && ids == Drop(old(ids), id)
      ensures leaderId == if old(leaderId) == Some(id) then None else old(leaderId)
    {
      DropDistinct(ids, id);
      ids := Drop(ids, id);
      if leaderId == Some(id) {
        leaderId := None;
      }
    }

    /** `set_leader(node_id)`: unknown ids are ignored. */
    method SetLeader(id: NodeId)
      requires Valid()
      modifies this
      ensures Valid() && ids == old(ids)
      ensures leaderId == if id in ids then Some(id) else old(leaderId)
    {
      if id in ids {
        leaderId := Some(id);
      }
    }

    /** `get_leader()`, as the id of the node it returns: the designated leader when it is
        a member and its id is not 0. */
    function GetLeader(): (r: Option<NodeId>)
      reads this
      ensures r.Some? <==> leaderId.Some? && leaderId.value != 0 && leaderId.value in ids
      ensures r.Some? ==> r == leaderId
    {
      LeaderOf(ids, leaderId)
    }

    /** `get_followers()`, as the ids of the nodes it returns: every member but the
        leader. */
    function GetFollowers(): (r: seq<NodeId>)
      reads this
      ensures forall y :: y in r <==> y in ids && Some(y) != leaderId
      ensures |r| <= |ids|
    {
      FollowersShorter(ids, leaderId);
      Followers(ids, leaderId)
    }
  }

  /** With the leader check fixed, a valid replica set reports exactly its designated leader,
      and the followers are all the other members. */
  lemma ReplicaSetLeader(ids: seq<NodeId>, leader: Option<NodeId>)
    requires Distinct(ids) && (leader.Some? ==> leader.value in ids)
    ensures LeaderOfFixed(ids, leader) == leader
    ensures |Followers(ids, leader)| == if leader.Some? then |ids| - 1 else |ids|
  {
    FollowersCount(ids, leader);
  }
}
