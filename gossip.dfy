/** The gossip failure detector: every node counts its own heartbeats, adopts larger counters
    it hears about, and classifies the nodes it has heard from as suspected or failed by how
    long ago their counter last advanced. The clock is an integer parameter `now`. */
module Gossip {
  import opened Common

  type NodeId = int

  /** The nodes whose gossiped counter is new or strictly larger than the known one. */
  ghost function Newer(counters: map<NodeId, int>, remote: map<NodeId, int>): set<NodeId> {
    set k | k in remote && (k !in counters || remote[k] > counters[k])
  }

  /** The counters after adopting every newer gossiped one. */
  ghost function Adopt(counters: map<NodeId, int>, remote: map<NodeId, int>): map<NodeId, int> {
    map k | k in counters.Keys + remote.Keys :: if k in Newer(counters, remote) then remote[k] else counters[k]
  }

  /** Heartbeat counters never go down: a known counter is kept or raised, and every node
      gossiped about becomes known with at least the gossiped counter. */
  lemma AdoptNeverLowers(counters: map<NodeId, int>, remote: map<NodeId, int>)
    ensures forall k :: k in counters ==> k in Adopt(counters, remote) && Adopt(counters, remote)[k] >= counters[k]
    ensures forall k :: k in remote ==> k in Adopt(counters, remote) && Adopt(counters, remote)[k] >= remote[k]
    ensures forall k :: k in Adopt(counters, remote) ==> k in counters || k in remote
  {
  }

  /** Gossip that is not newer for any node changes no counter. */
  lemma AdoptStale(counters: map<NodeId, int>, remote: map<NodeId, int>)
    requires forall k :: k in remote ==> k in counters && remote[k] <= counters[k]
    ensures Adopt(counters, remote) == counters
  {
    var a := Adopt(counters, remote);
    forall k | k in a ensures k in counters && counters[k] == a[k] {
      assert k in counters.Keys + remote.Keys;
    }
    MapExt(a, counters);
  }

  /** The verdict `check_nodes` gives one node, as (suspected, failed), from its age and its
      current two flags. */
  function Verdict(inSuspected: bool, inFailed: bool, age: int, suspectTimeout: int, failTimeout: int): (r: (bool, bool))
    ensures age > failTimeout ==> r == (false, true)
    ensures suspectTimeout < age <= failTimeout ==> r == (if inFailed then (inSuspected, true) else (true, false))
    ensures age <= failTimeout && age <= suspectTimeout ==> r == (false, false)
  {
    if age > failTimeout then (false, true)
    else if age > suspectTimeout then (if inFailed then (inSuspected, inFailed) else (true, inFailed))
    else (false, false)
  }

  /** The node is one `check_nodes` classifies. */
  predicate Checked(lastUpdate: map<NodeId, int>, local: NodeId, k: NodeId) {
    k in lastUpdate && k != local
  }

  /** The suspected set after `check_nodes` has visited every node of `lastUpdate`. */
  ghost function SuspectedAfter(suspected: set<NodeId>, failed: set<NodeId>, lastUpdate: map<NodeId, int>, local: NodeId,
                                now: int, suspectTimeout: int, failTimeout: int): set<NodeId>
  {
    set k | k in suspected + lastUpdate.Keys &&
      (if Checked(lastUpdate, local, k)
       then Verdict(k in suspected, k in failed, now - lastUpdate[k], suspectTimeout, failTimeout).0
       else k in suspected)
  }

  /** The failed set after `check_nodes` has visited every node of `lastUpdate`. */
  ghost function FailedAfter(suspected: set<NodeId>, failed: set<NodeId>, lastUpdate: map<NodeId, int>, local: NodeId,
                             now: int, suspectTimeout: int, failTimeout: int): set<NodeId>
  {
    set k | k in failed + lastUpdate.Keys &&
      (if Checked(lastUpdate, local, k)
       then Verdict(k in suspected, k in failed, now - lastUpdate[k], suspectTimeout, failTimeout).1
       else k in failed)
  }

  /** `check_nodes` keeps suspected and failed disjoint, never classifies the local node, and
      decides every other node it has heard from by its age alone. */
  lemma ClassifyRule(suspected: set<NodeId>, failed: set<NodeId>, lastUpdate: map<NodeId, int>, local: NodeId,
                     now: int, suspectTimeout: int, failTimeout: int, k: NodeId)
    requires suspected * failed == {}
    ensures var s := SuspectedAfter(suspected, failed, lastUpdate, local, now, suspectTimeout, failTimeout);
      var f := FailedAfter(suspected, failed, lastUpdate, local, now, suspectTimeout, failTimeout);
      s * f == {} &&
      (!Checked(lastUpdate, local, k) ==> (k in s <==> k in suspected) && (k in f <==> k in failed)) &&
      (Checked(lastUpdate, local, k) ==>
        var age := now - lastUpdate[k];
        (age > failTimeout ==> k in f && k !in s) &&
        (suspectTimeout < age <= failTimeout ==> (k in f <==> k in failed) && (k in s <==> k !in failed)) &&
        (age <= failTimeout && age <= suspectTimeout ==> k !in f && k !in s))
  {
    var s := SuspectedAfter(suspected, failed, lastUpdate, local, now, suspectTimeout, failTimeout);
    var f := FailedAfter(suspected, failed, lastUpdate, local, now, suspectTimeout, failTimeout);
    forall j | j in s ensures j !in f {
      assert j !in suspected * failed;
    }
  }

  class GossipDetector {
    const localId: NodeId
    const suspectTimeout: int
    const failTimeout: int
    var counters: map<NodeId, int>
    var lastUpdate: map<NodeId, int>
    var suspected: set<NodeId>
    var failed: set<NodeId>

    /** No node is both suspected and failed. */
    ghost predicate Valid()
      reads this
    {
      suspected * failed == {}
    }

    constructor (localId: NodeId, suspectTimeout: int, failTimeout: int)
      ensures this.localId == localId && this.suspectTimeout == suspectTimeout && this.failTimeout == failTimeout
      ensures counters == map[] && lastUpdate == map[] && suspected == {} && failed == {} && Valid()
    {
      this.localId, this.suspectTimeout, this.failTimeout := localId, suspectTimeout, failTimeout;
      counters, lastUpdate, suspected, failed := map[], map[], {}, {};
    }

    /** `local_heartbeat()` at time `now`: the local counter goes up by one. */
    method LocalHeartbeat(now: int)
      requires Valid()
      modifies this
      ensures Valid() && counters == old(counters)[localId := GetOr(old(counters), localId, 0) + 1]
      ensures lastUpdate == old(lastUpdate)[localId := now]
      ensures suspected == old(suspected) && failed == old(failed)
    {
      counters := counters[localId := GetOr(counters, localId, 0) + 1];
      lastUpdate := lastUpdate[localId := now];
    }

    /** `receive_gossip(remote)` at time `now`: every newer counter is adopted, stamped with
        `now`, and clears the node's suspicion and failure. */
    method ReceiveGossip(remote: map<NodeId, int>, now: int)
      requires Valid()
      modifies this
      ensures Valid() && counters == Adopt(old(counters), remote)
      ensures lastUpdate == Stamp(old(lastUpdate), Newer(old(counters), remote), now)
      ensures suspected == old(suspected) - Newer(old(counters), remote)
      ensures failed == old(failed) - Newer(old(counters), remote)
    {
      counters, lastUpdate, suspected, failed := Absorb(counters, lastUpdate, suspected, failed, remote, now);
    }

    /** `check_nodes()` at time `now` */
    method CheckNodes(now: int)
      requires Valid()
      modifies this
      ensures Valid() && counters == old(counters) && lastUpdate == old(lastUpdate)
      ensures suspected == SuspectedAfter(old(suspected), old(failed), lastUpdate, localId, now, suspectTimeout, failTimeout)
      ensures failed == FailedAfter(old(suspected), old(failed), lastUpdate, localId, now, suspectTimeout, failTimeout)
    {
      var todo := lastUpdate.Keys;
      ghost var s0, f0, lu := suspected, failed, lastUpdate;
      ClassifyEmpty(s0, f0, localId, now, suspectTimeout, failTimeout);
      while todo != {}
        invariant todo <= lu.Keys && Valid()
        invariant counters == old(counters) && lastUpdate == lu
        invariant suspected == SuspectedAfter(s0, f0, Without(lu, todo), localId, now, suspectTimeout, failTimeout)
        invariant failed == FailedAfter(s0, f0, Without(lu, todo), localId, now, suspectTimeout, failTimeout)
        decreases todo
      {
        Inhabited(todo);
        var k :| k in todo;
        ClassifyStep(s0, f0, lu, todo, k, localId, now, suspectTimeout, failTimeout);
        if k != localId {
          var age := now - lastUpdate[k];
          if age > failTimeout {
            suspected := suspected - {k};
            failed := failed + {k};
          } else if age > suspectTimeout {
            if k !in failed {
              suspected := suspected + {k};
            }
          } else {
            suspected := suspected - {k};
            failed := failed - {k};
          }
        }
        todo := todo - {k};
      }
      assert Without(lastUpdate, todo) == lastUpdate;
    }

    /** `get_gossip_state()` */
    function GossipState(): (r: map<NodeId, int>)
      reads this
      ensures r == counters
      ensures AliveNodes() <= r.Keys
    {
      counters
    }

    /** `get_alive_nodes()`: the known nodes neither suspected nor failed. */
    function AliveNodes(): (r: set<NodeId>)
      reads this
      ensures forall k :: k in r <==> k in counters && k !in suspected && k !in failed
    {
      set k | k in counters && k !in suspected && k !in failed
    }
  }

  lemma Inhabited(s: set<NodeId>)
    requires s != {}
    ensures exists k :: k in s
  {
    if forall k :: k !in s {
      assert false;
    }
  }

  /** The entries of `m` outside `todo`: the part of the loop already visited. */
  ghost function Without(m: map<NodeId, int>, todo: set<NodeId>): map<NodeId, int> {
    map k | k in m && k !in todo :: m[k]
  }

  /** The state after `receive_gossip` has taken in the counters of `done`. */
  ghost predicate Absorbed(c0: map<NodeId, int>, lu0: map<NodeId, int>, s0: set<NodeId>, f0: set<NodeId>,
                           done: map<NodeId, int>, now: int,
                           counters: map<NodeId, int>, lastUpdate: map<NodeId, int>, suspected: set<NodeId>, failed: set<NodeId>)
  {
    counters == Adopt(c0, done) && lastUpdate == Stamp(lu0, Newer(c0, done), now) &&
    suspected == s0 - Newer(c0, done) && failed == f0 - Newer(c0, done)
  }

  /** One more remote counter taken in. */
  lemma AbsorbStep(c0: map<NodeId, int>, lu0: map<NodeId, int>, s0: set<NodeId>, f0: set<NodeId>,
                   remote: map<NodeId, int>, todo: set<NodeId>, k: NodeId, now: int,
                   counters: map<NodeId, int>, lastUpdate: map<NodeId, int>, suspected: set<NodeId>, failed: set<NodeId>)
    requires k in todo && todo <= remote.Keys
    requires Absorbed(c0, lu0, s0, f0, Without(remote, todo), now, counters, lastUpdate, suspected, failed)
    ensures (k !in counters || remote[k] > counters[k]) <==> (k !in c0 || remote[k] > c0[k])
    ensures var b := k !in counters || remote[k] > counters[k];
      Absorbed(c0, lu0, s0, f0, Without(remote, todo - {k}), now,
        if b then counters[k := remote[k]] else counters,
        if b then lastUpdate[k := now] else lastUpdate,
        if b then suspected - {k} else suspected,
        if b then failed - {k} else failed)
  {
    var done, done' := Without(remote, todo), Without(remote, todo - {k});
    var n := Newer(c0, done);
    AdoptStep(c0, remote, todo, k);
    if k !in c0 || remote[k] > c0[k] {
      assert Newer(c0, done') == n + {k};
      StampStep(lu0, n, k, now);
      assert s0 - (n + {k}) == (s0 - n) - {k};
      assert f0 - (n + {k}) == (f0 - n) - {k};
    } else {
      assert Newer(c0, done') == n;
    }
  }

  /** The loop of `receive_gossip` over the remote counters. */
  method Absorb(c0: map<NodeId, int>, lu0: map<NodeId, int>, s0: set<NodeId>, f0: set<NodeId>, remote: map<NodeId, int>, now: int)
    returns (counters: map<NodeId, int>, lastUpdate: map<NodeId, int>, suspected: set<NodeId>, failed: set<NodeId>)
    requires s0 * f0 == {}
    ensures suspected * failed == {}
    ensures Absorbed(c0, lu0, s0, f0, remote, now, counters, lastUpdate, suspected, failed)
  {
    counters, lastUpdate, suspected, failed := c0, lu0, s0, f0;
    var todo := remote.Keys;
    AdoptEmpty(c0, lu0, now);
    assert Without(remote, todo) == map[];
    while todo != {}
      invariant todo <= remote.Keys && suspected * failed == {}
      invariant Absorbed(c0, lu0, s0, f0, Without(remote, todo), now, counters, lastUpdate, suspected, failed)
      decreases todo
    {
      Inhabited(todo);
      var k :| k in todo;
      AbsorbStep(c0, lu0, s0, f0, remote, todo, k, now, counters, lastUpdate, suspected, failed);
      if k !in counters || remote[k] > counters[k] {
        counters := counters[k := remote[k]];
        lastUpdate := lastUpdate[k := now];
        suspected := suspected - {k};
        failed := failed - {k};
      }
      todo := todo - {k};
    }
    assert Without(remote, todo) == remote;
  }

  /** `lastUpdate` with every node of `ks` stamped `now`. */
  ghost function Stamp(lastUpdate: map<NodeId, int>, ks: set<NodeId>, now: int): map<NodeId, int> {
    lastUpdate + map k | k in ks :: now
  }

  lemma StampStep(lastUpdate: map<NodeId, int>, ks: set<NodeId>, k: NodeId, now: int)
    ensures Stamp(lastUpdate, ks + {k}, now) == Stamp(lastUpdate, ks, now)[k := now]
  {
  }

  lemma AdoptEmpty(counters: map<NodeId, int>, lastUpdate: map<NodeId, int>, now: int)
    ensures var e: map<NodeId, int> := map[];
      Newer(counters, e) == {} && Adopt(counters, e) == counters && Stamp(lastUpdate, {}, now) == lastUpdate
  {
    var e: map<NodeId, int> := map[];
    assert counters.Keys + e.Keys == counters.Keys;
  }

  lemma AdoptStep(c0: map<NodeId, int>, remote: map<NodeId, int>, todo: set<NodeId>, k: NodeId)
    requires k in todo && todo <= remote.Keys
    ensures var done, done' := Without(remote, todo), Without(remote, todo - {k});
      var a := Adopt(c0, done);
      (k in a <==> k in c0) && (k in c0 ==> a[k] == c0[k]) &&
      Newer(c0, done') == Newer(c0, done) + (if k !in c0 || remote[k] > c0[k] then {k} else {}) &&
      Adopt(c0, done') == (if k !in c0 || remote[k] > c0[k] then a[k := remote[k]] else a)
  {
    var done, done' := Without(remote, todo), Without(remote, todo - {k});
    assert done' == done[k := remote[k]];
    var a, a' := Adopt(c0, done), Adopt(c0, done');
    var b := if k !in c0 || remote[k] > c0[k] then a[k := remote[k]] else a;
    forall j | j in a' ensures j in b && b[j] == a'[j] {
      assert j in c0.Keys + done'.Keys;
      if j != k {
        assert j in c0.Keys + done.Keys;
      }
    }
    forall j | j in b ensures j in a' {
      if j != k {
        assert j in c0.Keys + done.Keys;
      }
    }
    MapExt(a', b);
  }

  lemma ClassifyEmpty(s: set<NodeId>, f: set<NodeId>, local: NodeId, now: int, suspectTimeout: int, failTimeout: int)
    ensures SuspectedAfter(s, f, map[], local, now, suspectTimeout, failTimeout) == s
    ensures FailedAfter(s, f, map[], local, now, suspectTimeout, failTimeout) == f
  {
    var e: map<NodeId, int> := map[];
    assert s + e.Keys == s;
    assert f + e.Keys == f;
  }

  lemma ClassifyStep(s0: set<NodeId>, f0: set<NodeId>, lastUpdate: map<NodeId, int>, todo: set<NodeId>, k: NodeId,
                     local: NodeId, now: int, suspectTimeout: int, failTimeout: int)
    requires k in todo && todo <= lastUpdate.Keys
    ensures var done, done' := Without(lastUpdate, todo), Without(lastUpdate, todo - {k});
      var s := SuspectedAfter(s0, f0, done, local, now, suspectTimeout, failTimeout);
      var f := FailedAfter(s0, f0, done, local, now, suspectTimeout, failTimeout);
      var v := Verdict(k in s0, k in f0, now - lastUpdate[k], suspectTimeout, failTimeout);
      (k in s <==> k in s0) && (k in f <==> k in f0) &&
      SuspectedAfter(s0, f0, done', local, now, suspectTimeout, failTimeout) == (if k == local then s else if v.0 then s + {k} else s - {k}) &&
      FailedAfter(s0, f0, done', local, now, suspectTimeout, failTimeout) == (if k == local then f else if v.1 then f + {k} else f - {k})
  {
    var done, done' := Without(lastUpdate, todo), Without(lastUpdate, todo - {k});
    assert done' == done[k := lastUpdate[k]];
  }
}
