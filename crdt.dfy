/** The counter nodes of the partition experiments: a plain counter with a vector clock, a
    grow-only counter (G-Counter) and a positive-negative counter (PN-Counter), each merging a
    peer's state by a pointwise maximum. Python's `defaultdict(int)` is a map read with
    default 0. */
module Crdt {
  import opened Common

  type NodeId = int

  /** `d[k] += 1` on a `defaultdict(int)`. */
  function Bump(m: map<NodeId, int>, k: NodeId): (r: map<NodeId, int>)
    ensures r.Keys == m.Keys + {k}
    ensures r[k] == GetOr(m, k, 0) + 1
    ensures forall j :: j in m && j != k ==> r[j] == m[j]
  {
    m[k := GetOr(m, k, 0) + 1]
  }

  /** The map after `for k, v in remote.items(): local[k] = max(local[k], v)`. */
  ghost function MergeMax(local: map<NodeId, int>, remote: map<NodeId, int>): map<NodeId, int> {
    map k | k in local.Keys + remote.Keys :: if k in remote then Max(GetOr(local, k, 0), remote[k]) else local[k]
  }

  /** The pointwise-maximum loop over a remote map. */
  method MergeInto(local: map<NodeId, int>, remote: map<NodeId, int>) returns (r: map<NodeId, int>)
    ensures r == MergeMax(local, remote)
  {
    r := local;
    var todo := remote.Keys;
    while todo != {}
      invariant todo <= remote.Keys
      invariant r == MergeMax(local, map k | k in remote && k !in todo :: remote[k])
      decreases todo
    {
      Inhabited(todo);
      var k :| k in todo;
      ghost var done := map j | j in remote && j !in todo :: remote[j];
      ghost var done' := map j | j in remote && j !in todo - {k} :: remote[j];
      assert done' == done[k := remote[k]];
      assert GetOr(r, k, 0) == GetOr(local, k, 0);
      r := r[k := Max(GetOr(r, k, 0), remote[k])];
      todo := todo - {k};
    }
    assert (map k | k in remote && k !in todo :: remote[k]) == remote;
  }

  /** `sum(d.values())`, as a loop over the keys. */
  method SumValues(m: map<NodeId, int>) returns (s: int)
    ensures s == MapSum(m)
  {
    s := 0;
    var rest := m;
    while rest != map[]
      invariant s + MapSum(rest) == MapSum(m)
      decreases |rest|
    {
      Inhabited(rest.Keys);
      var k :| k in rest;
      MapSumRemove(rest, k);
      s := s + rest[k];
      rest := rest - {k};
    }
  }

  lemma Inhabited(s: set<NodeId>)
    requires s != {}
    ensures exists k :: k in s
  {
    if forall k :: k !in s {
      assert false;
    }
  }

  ghost predicate NonNegative(m: map<NodeId, int>) {
    forall k :: k in m ==> m[k] >= 0
  }

  /** The entries of `a` are dominated by those of `b`, reading missing ones as 0. */
  ghost predicate Below(a: map<NodeId, int>, b: map<NodeId, int>) {
    forall k :: k in a ==> a[k] <= GetOr(b, k, 0)
  }

  /** Merging never lowers an entry and never loses a key, and the result dominates both
      sides. */
  lemma MergeGrows(local: map<NodeId, int>, remote: map<NodeId, int>)
    ensures local.Keys + remote.Keys == MergeMax(local, remote).Keys
    ensures forall k :: k in local ==> MergeMax(local, remote)[k] >= local[k]
    ensures Below(remote, MergeMax(local, remote))
    ensures NonNegative(local) ==> NonNegative(MergeMax(local, remote))
  {
  }

  /** Merging a state into itself changes nothing. */
  lemma MergeIdempotent(m: map<NodeId, int>)
    ensures MergeMax(m, m) == m
  {
    var r := MergeMax(m, m);
    forall k | k in r ensures k in m && m[k] == r[k] {
      assert k in m.Keys + m.Keys;
    }
    MapExt(r, m);
  }

  /** On non-negative maps (the only ones the counters produce) merge is commutative. */
  lemma MergeCommutative(a: map<NodeId, int>, b: map<NodeId, int>)
    requires NonNegative(a) && NonNegative(b)
    ensures MergeMax(a, b) == MergeMax(b, a)
  {
    var l, r := MergeMax(a, b), MergeMax(b, a);
    forall k | k in l ensures k in r && r[k] == l[k] {
      assert k in a.Keys + b.Keys;
    }
    MapExt(l, r);
  }

  /** ... and associative. */
  lemma MergeAssociative(a: map<NodeId, int>, b: map<NodeId, int>, c: map<NodeId, int>)
    requires NonNegative(a) && NonNegative(b) && NonNegative(c)
    ensures MergeMax(MergeMax(a, b), c) == MergeMax(a, MergeMax(b, c))
  {
    var ab, bc := MergeMax(a, b), MergeMax(b, c);
    var l, r := MergeMax(ab, c), MergeMax(a, bc);
    forall k | k in l ensures k in r && r[k] == l[k] {
      assert k in ab.Keys + c.Keys;
    }
    MapExt(l, r);
  }

  /** `sync_with_peer` between nodes A and B: B merges A's state and answers with what it
      then holds, which A merges in turn. Both end with B's merged state. */
  lemma ExchangeConverges(a: map<NodeId, int>, b: map<NodeId, int>)
    requires NonNegative(b)
    ensures MergeMax(a, MergeMax(b, a)) == MergeMax(b, a)
  {
    var m := MergeMax(b, a);
    var l := MergeMax(a, m);
    forall k | k in l ensures k in m && m[k] == l[k] {
      assert k in a.Keys + m.Keys;
    }
    MapExt(l, m);
  }

  /** A dominated non-negative map has no larger sum. */
  lemma {:induction false} SumBelow(a: map<NodeId, int>, b: map<NodeId, int>)
    requires NonNegative(a) && NonNegative(b) && Below(a, b)
    ensures MapSum(a) <= MapSum(b)
    decreases |a|
  {
    if |a| == 0 {
      SumNonNegative(b);
    } else {
      var k := MapSumUnfold(a);
      if k in b {
        MapSumRemove(b, k);
        SumBelow(a - {k}, b - {k});
      } else {
        SumBelow(a - {k}, b);
      }
    }
  }

  lemma {:induction false} SumNonNegative(m: map<NodeId, int>)
    requires NonNegative(m)
    ensures MapSum(m) >= 0
    decreases |m|
  {
    if |m| > 0 {
      var k := MapSumUnfold(m);
      SumNonNegative(m - {k});
    }
  }

  /** The increment of one entry raises the sum by one. */
  lemma BumpSum(m: map<NodeId, int>, k: NodeId)
    ensures MapSum(Bump(m, k)) == MapSum(m) + 1
  {
    MapSumUpdate(m, k, GetOr(m, k, 0) + 1);
  }

  // ---------------------------------------------------------------------------------------
  // Plain counter with a vector clock

  class CounterNode {
    const nodeId: NodeId
    var counter: int
    var clock: map<NodeId, int>

    constructor (nodeId: NodeId)
      ensures this.nodeId == nodeId && counter == 0 && clock == map[]
    {
      this.nodeId := nodeId;
      counter, clock := 0, map[];
    }

    /** `increment()`: the counter goes up by one and only this node's clock entry ticks. */
    method Increment() returns (c: int, vc: map<NodeId, int>)
      modifies this
      ensures counter == old(counter) + 1 && clock == Bump(old(clock), nodeId)
      ensures c == counter && vc == clock
    {
      counter := counter + 1;
      clock := Bump(clock, nodeId);
      c, vc := counter, clock;
    }

    /** `decrement()`: the counter goes down by one and only this node's clock entry ticks. */
    method Decrement() returns (c: int, vc: map<NodeId, int>)
      modifies this
      ensures counter == old(counter) - 1 && clock == Bump(old(clock), nodeId)
      ensures c == counter && vc == clock
    {
      counter := counter - 1;
      clock := Bump(clock, nodeId);
      c, vc := counter, clock;
    }

    /** `merge(remote_counter, remote_clock, remote_node)`: the clock is merged; the remote
        counter is ignored, so the counter does not change. */
    method Merge(remoteCounter: int, remoteClock: map<NodeId, int>, remoteNode: NodeId) returns (c: int, vc: map<NodeId, int>)
      modifies this
      ensures counter == old(counter) && clock == MergeMax(old(clock), remoteClock)
      ensures c == counter && vc == clock
    {
      clock := MergeInto(clock, remoteClock);
      c, vc := counter, clock;
    }

    /** `get()`: the counter and a copy of the clock. */
    function Get(): (r: (int, map<NodeId, int>))
      reads this
      ensures r.0 == counter && r.1 == clock
    {
      (counter, clock)
    }
  }

  // ---------------------------------------------------------------------------------------
  // G-Counter

  class GCounterNode {
    const nodeId: NodeId
    var counter: int
    var clock: map<NodeId, int>
    var increments: map<NodeId, int>

    /** Every per-node increment is non-negative: entries start at 0 and only grow. */
    ghost predicate Valid()
      reads this
    {
      NonNegative(increments)
    }

    /** The counter shows the total of the per-node increments. The inherited `decrement`
        breaks this; the next `increment` or `merge` re-sums and restores it. */
    ghost predicate Consistent()
      reads this
    {
      counter == MapSum(increments)
    }

    constructor (nodeId: NodeId)
      ensures this.nodeId == nodeId && clock == map[] && increments == map[]
      ensures Valid() && Consistent()
    {
      this.nodeId := nodeId;
      counter, clock, increments := 0, map[], map[];
    }

    /** `increment()`: only this node's increment entry grows, and the counter is re-summed,
        one more than before when it showed the total. */
    method Increment() returns (c: int, vc: map<NodeId, int>)
      requires Valid()
      modifies this
      ensures Valid() && Consistent()
      ensures increments == Bump(old(increments), nodeId) && clock == Bump(old(clock), nodeId)
      ensures counter == MapSum(old(increments)) + 1
      ensures old(Consistent()) ==> counter == old(counter) + 1
      ensures c == counter && vc == clock
    {
      increments := Bump(increments, nodeId);
      BumpSum(old(increments), nodeId);
      counter := SumValues(increments);
      clock := Bump(clock, nodeId);
      c, vc := counter, clock;
    }

    /** The inherited `CounterNode.decrement()`: the counter goes down by one and the clock
        ticks, but the increments stay, so a consistent counter stops showing their total. */
    method Decrement() returns (c: int, vc: map<NodeId, int>)
      modifies this
      ensures increments == old(increments) && counter == old(counter) - 1
      ensures clock == Bump(old(clock), nodeId)
      ensures old(Valid()) ==> Valid()
      ensures old(Consistent()) ==> !Consistent()
      ensures c == counter && vc == clock
    {
      counter := counter - 1;
      clock := Bump(clock, nodeId);
      c, vc := counter, clock;
    }

    /** A grow-only counter that answers `decrement` as an unknown command: nothing changes
        and the request is refused, so the counter keeps showing the increments' total. */
    method DecrementRefused() returns (ok: bool, c: int, vc: map<NodeId, int>)
      ensures !ok && c == counter && vc == clock
      ensures Consistent() ==> c == MapSum(increments)
    {
      ok, c, vc := false, counter, clock;
    }

    /** `merge(remote_increments, remote_clock, remote_node)`: pointwise maximum of increments
        and clocks, the counter re-summed. It never falls below the old total, since a
        missing local entry reads as 0 and every kept entry is at least what it was. */
    method Merge(remoteIncrements: map<NodeId, int>, remoteClock: map<NodeId, int>, remoteNode: NodeId) returns (c: int, vc: map<NodeId, int>)
      requires Valid()
      modifies this
      ensures Valid() && Consistent()
      ensures increments == MergeMax(old(increments), remoteIncrements) && clock == MergeMax(old(clock), remoteClock)
      ensures counter >= MapSum(old(increments))
      ensures old(Consistent()) ==> counter >= old(counter)
      ensures c == counter && vc == clock
    {
      increments := MergeInto(increments, remoteIncrements);
      MergeGrows(old(increments), remoteIncrements);
      SumBelow(old(increments), increments);
      counter := SumValues(increments);
      clock := MergeInto(clock, remoteClock);
      c, vc := counter, clock;
    }

    /** `get()`: the counter with copies of the increments and the clock. */
    function Get(): (r: (int, map<NodeId, int>, map<NodeId, int>))
      reads this
      ensures r.0 == counter && r.1 == increments && r.2 == clock
      ensures Consistent() ==> r.0 == MapSum(r.1)
    {
      (counter, increments, clock)
    }
  }

  /** As written, a fresh G-Counter node answers `decrement` with -1 and the next `increment`
      with 1: the increment re-sums the increments, so the decrement is lost. */
  method GCounterDecrementLost(n: NodeId) returns (afterDecrement: int, afterIncrement: int)
    ensures afterDecrement == -1 && afterIncrement == 1
  {
    var node := new GCounterNode(n);
    var vc;
    afterDecrement, vc := node.Decrement();
    BumpSum(map[], n);
    afterIncrement, vc := node.Increment();
  }

  /** With `decrement` refused, the same two requests leave the counter at 0 and then 1. */
  method GCounterDecrementRefused(n: NodeId) returns (afterDecrement: int, afterIncrement: int)
    ensures afterDecrement == 0 && afterIncrement == 1
  {
    var node := new GCounterNode(n);
    var ok, vc;
    ok, afterDecrement, vc := node.DecrementRefused();
    BumpSum(map[], n);
    afterIncrement, vc := node.Increment();
  }

  // ---------------------------------------------------------------------------------------
  // PN-Counter

  class PNCounterNode {
    const nodeId: NodeId
    var counter: int
    var clock: map<NodeId, int>
    var increments: map<NodeId, int>
    var decrements: map<NodeId, int>

    ghost predicate Valid()
      reads this
    {
      NonNegative(increments) && NonNegative(decrements)
    }

    /** The counter shows increments minus decrements. */
    ghost predicate Consistent()
      reads this
    {
      counter == MapSum(increments) - MapSum(decrements)
    }

    constructor (nodeId: NodeId)
      ensures this.nodeId == nodeId && clock == map[] && increments == map[] && decrements == map[]
      ensures Valid() && Consistent()
    {
      this.nodeId := nodeId;
      counter, clock, increments, decrements := 0, map[], map[], map[];
    }

    /** The inherited `GCounterNode.increment()`: it re-sums the increments only, so the
        counter then ignores every decrement. */
    method Increment() returns (c: int, vc: map<NodeId, int>)
      requires Valid()
      modifies this
      ensures Valid() && increments == Bump(old(increments), nodeId) && clock == Bump(old(clock), nodeId)
      ensures decrements == old(decrements) && counter == MapSum(increments)
      ensures c == counter && vc == clock
    {
      increments := Bump(increments, nodeId);
      counter := SumValues(increments);
      clock := Bump(clock, nodeId);
      c, vc := counter, clock;
    }

    /** An increment that keeps the counter consistent: increments minus decrements, one
        higher than before. */
    method IncrementCorrected() returns (c: int, vc: map<NodeId, int>)
      requires Valid() && Consistent()
      modifies this
      ensures Valid() && Consistent()
      ensures increments == Bump(old(increments), nodeId) && clock == Bump(old(clock), nodeId)
      ensures decrements == old(decrements) && counter == old(counter) + 1
      ensures c == counter && vc == clock
    {
      increments := Bump(increments, nodeId);
      BumpSum(old(increments), nodeId);
      var inc := SumValues(increments);
      var dec := SumValues(decrements);
      counter := inc - dec;
      clock := Bump(clock, nodeId);
      c, vc := counter, clock;
    }

    /** `decrement()`: only this node's decrement entry grows; the counter is re-summed as
        increments minus decrements. */
    method Decrement() returns (c: int, vc: map<NodeId, int>)
      requires Valid()
      modifies this
      ensures Valid() && Consistent()
      ensures decrements == Bump(old(decrements), nodeId) && clock == Bump(old(clock), nodeId)
      ensures increments == old(increments)
      ensures old(Consistent()) ==> counter == old(counter) - 1
      ensures c == counter && vc == clock
    {
      decrements := Bump(decrements, nodeId);
      BumpSum(old(decrements), nodeId);
      var inc := SumValues(increments);
      var dec := SumValues(decrements);
      counter := inc - dec;
      clock := Bump(clock, nodeId);
      c, vc := counter, clock;
    }

    /** `merge(remote_increments, remote_decrements, remote_clock, remote_node)` */
    method Merge(remoteIncrements: map<NodeId, int>, remoteDecrements: map<NodeId, int>, remoteClock: map<NodeId, int>, remoteNode: NodeId)
      returns (c: int, vc: map<NodeId, int>)
      requires Valid()
      modifies this
      ensures Valid() && Consistent()
      ensures increments == MergeMax(old(increments), remoteIncrements)
      ensures decrements == MergeMax(old(decrements), remoteDecrements)
      ensures clock == MergeMax(old(clock), remoteClock)
      ensures c == counter && vc == clock
    {
      increments := MergeInto(increments, remoteIncrements);
      decrements := MergeInto(decrements, remoteDecrements);
      MergeGrows(old(increments), remoteIncrements);
      MergeGrows(old(decrements), remoteDecrements);
      var inc := SumValues(increments);
      var dec := SumValues(decrements);
      counter := inc - dec;
      clock := MergeInto(clock, remoteClock);
      c, vc := counter, clock;
    }

    /** `get()`: the counter with copies of the increments, the decrements and the clock. */
    function Get(): (r: (int, map<NodeId, int>, map<NodeId, int>, map<NodeId, int>))
      reads this
      ensures r.0 == counter && r.1 == increments && r.2 == decrements && r.3 == clock
      ensures Consistent() ==> r.0 == MapSum(r.1) - MapSum(r.2)
    {
      (counter, increments, decrements, clock)
    }
  }

  /** After a decrement, the inherited increment shows a counter that has forgotten it.
      `PNCounterNode.Increment` leaves the counter at `MapSum(increments)` (its ensures), and
      on a fresh node one decrement and then one increment bump each map once; so the
      counter reads 1 where increments minus decrements is 0. */
  lemma IncrementForgetsDecrements(n: NodeId)
    ensures var dec := Bump(map[], n); var inc := Bump(map[], n);
      MapSum(inc) == 1 && MapSum(inc) - MapSum(dec) == 0
  {
    BumpSum(map[], n);
  }
}
