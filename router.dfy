/** The request routers of the sharded store: a consistent-hash ring of virtual nodes, a
    router that groups keys by the shard the ring assigns, and a router over sorted key
    ranges. The ring's hash (md5 of the key's text, read as an integer) is a function the
    ring is built with; the shard clients are their addresses, and every reply of a shard
    is an input. */
module Router {
  import opened Common
  import opened Ordering
  import Sorting

  /** A dictionary lookup that may raise `KeyError`. */
  datatype Outcome<T> = Ok(value: T) | KeyError

  /** `f'{i}'` for a natural number. */
  function Decimal(n: nat): (r: string)
    ensures |r| > 0
    ensures forall c :: c in r ==> '0' <= c <= '9'
    decreases n
  {
    if n < 10 then [('0' as int + n) as char] else Decimal(n / 10) + [('0' as int + n % 10) as char]
  }

  /** `f'{node}:{i}'`, the name of the `i`-th virtual node of `node`. */
  function VirtualKey(node: string, i: nat): string {
    node + ":" + Decimal(i)
  }

  /** The ring points of the first `k` virtual nodes of `node`. */
  function Points(hash: string -> nat, node: string, k: nat): (r: seq<nat>)
    ensures |r| == k
  {
    seq<nat>(k, i requires 0 <= i < k => hash(VirtualKey(node, i)))
  }

  /** `range(replicas)` is empty for a negative count. */
  function Replicas(replicas: int): nat {
    if replicas < 0 then 0 else replicas
  }

  ghost predicate SortedInts(s: seq<nat>) {
    forall i, j :: 0 <= i < j < |s| ==> s[i] <= s[j]
  }

  function ToSet(s: seq<nat>): (r: set<nat>)
    ensures forall x :: x in r <==> x in s
  {
    set x | x in s
  }

  /** `bisect.bisect_right(a, x)`: the number of leading elements not above `x`. */
  function BisectRight(a: seq<nat>, x: nat): (r: nat)
    ensures r <= |a|
    decreases |a|
  {
    if |a| == 0 || x < a[0] then 0 else 1 + BisectRight(a[1..], x)
  }

  /** On a sorted sequence the elements before the insertion point are at most `x` and
      those from it on are above `x`. */
  lemma {:induction false} BisectRightSplit(a: seq<nat>, x: nat)
    requires SortedInts(a)
    ensures forall i :: 0 <= i < BisectRight(a, x) ==> a[i] <= x
    ensures forall i :: BisectRight(a, x) <= i < |a| ==> a[i] > x
    decreases |a|
  {
    if |a| > 0 && x >= a[0] {
      BisectRightSplit(a[1..], x);
      forall i | 1 <= i < BisectRight(a, x) ensures a[i] <= x {
        assert a[i] == a[1..][i - 1];
      }
      forall i | BisectRight(a, x) <= i < |a| ensures a[i] > x {
        assert a[i] == a[1..][i - 1];
      }
    }
  }

  /** `bisect.insort(a, x)`. */
  function Insort(a: seq<nat>, x: nat): (r: seq<nat>)
    ensures multiset(r) == multiset(a) + multiset{x}
  {
    var b := BisectRight(a, x);
    assert a == a[..b] + a[b..];
    a[..b] + [x] + a[b..]
  }

  lemma InsortSorted(a: seq<nat>, x: nat)
    requires SortedInts(a)
    ensures SortedInts(Insort(a, x))
  {
    BisectRightSplit(a, x);
    var b := BisectRight(a, x);
    var r := Insort(a, x);
    forall i, j | 0 <= i < j < |r| ensures r[i] <= r[j] {
      if j < b {
      } else if i > b {
      } else if i == b {
        assert r[j] == a[j - 1];
      } else {
        assert r[i] == a[i];
        if j > b {
          assert r[j] == a[j - 1];
        }
      }
    }
  }

  /** `list.remove(x)`: drops the first occurrence of `x`. */
  function RemoveFirst(a: seq<nat>, x: nat): seq<nat>
    requires x in a
    decreases |a|
  {
    if a[0] == x then a[1..] else [a[0]] + RemoveFirst(a[1..], x)
  }

  /** `list.remove(x)` cuts out the first occurrence of `x`. */
  lemma {:induction false} RemoveFirstCut(a: seq<nat>, x: nat) returns (i: nat)
    requires x in a
    ensures i < |a| && a[i] == x && x !in a[..i]
    ensures RemoveFirst(a, x) == a[..i] + a[i + 1..]
    decreases |a|
  {
    if a[0] == x {
      i := 0;
    } else {
      var j := RemoveFirstCut(a[1..], x);
      i := j + 1;
      assert a[..i] == [a[0]] + a[1..][..j];
      assert a[i + 1..] == a[1..][j + 1..];
    }
  }

  lemma RemoveFirstMultiset(a: seq<nat>, x: nat)
    requires x in a
    ensures multiset(RemoveFirst(a, x)) == multiset(a) - multiset{x}
  {
    var i := RemoveFirstCut(a, x);
    var l, r := a[..i], a[i + 1..];
    assert a == l + [x] + r;
    assert multiset(a) == multiset(l) + multiset{x} + multiset(r);
    assert multiset(l + r) == multiset(l) + multiset(r);
  }

  lemma RemoveFirstSorted(a: seq<nat>, x: nat)
    requires x in a && SortedInts(a)
    ensures SortedInts(RemoveFirst(a, x))
  {
    var i := RemoveFirstCut(a, x);
    var r := a[..i] + a[i + 1..];
    forall p | 0 <= p < |r| ensures r[p] == a[if p < i then p else p + 1] {
      if p < i { assert r[p] == a[..i][p]; } else { assert r[p] == a[i + 1..][p - i]; }
    }
    forall p, q | 0 <= p < q < |r| ensures r[p] <= r[q] {
      assert r[p] == a[if p < i then p else p + 1] && r[q] == a[if q < i then q else q + 1];
    }
  }

  /** Every mapped point is on the ring. */
  ghost predicate Covered(ring: seq<nat>, nodeMap: map<nat, string>) {
    forall h :: h in nodeMap ==> h in ring
  }

  /** Every mapped point is one of its node's virtual points. */
  ghost predicate Owned(hash: string -> nat, replicas: int, nodeMap: map<nat, string>) {
    forall h :: h in nodeMap ==> h in Points(hash, nodeMap[h], Replicas(replicas))
  }

  /** `get_node` on a ring and its point-to-node map, for a key of hash `h`: `None` on an
      empty ring, otherwise the node of the first point above `h`, wrapping round to the
      first point; a point missing from the map raises `KeyError`. */
  function Locate(ring: seq<nat>, nodeMap: map<nat, string>, h: nat): (r: Outcome<Option<string>>)
    ensures r == Ok(None) <==> |ring| == 0
    ensures r.Ok? && r.value.Some? ==> r.value.value in nodeMap.Values
    ensures Covered(ring, nodeMap) && (forall p :: p in ring ==> p in nodeMap) ==> r.Ok?
  {
    if |ring| == 0 then Ok(None)
    else
      var idx := BisectRight(ring, h);
      var p := ring[if idx == |ring| then 0 else idx];
      if p in nodeMap then Ok(Some(nodeMap[p])) else KeyError
  }

  /** The point `get_node` reads is the least point above `h`, or the least point of all
      when none is above `h`. */
  lemma LocatePoint(ring: seq<nat>, nodeMap: map<nat, string>, h: nat) returns (p: nat)
    requires SortedInts(ring) && |ring| > 0
    ensures p in ring
    ensures Locate(ring, nodeMap, h) == if p in nodeMap then Ok(Some(nodeMap[p])) else KeyError
    ensures (exists q :: q in ring && q > h) ==> p > h && forall q :: q in ring && q > h ==> p <= q
    ensures (forall q :: q in ring ==> q <= h) ==> forall q :: q in ring ==> p <= q
  {
    BisectRightSplit(ring, h);
    var idx := BisectRight(ring, h);
    p := ring[if idx == |ring| then 0 else idx];
    if idx < |ring| {
      forall q | q in ring && q > h ensures p <= q {
        var j :| 0 <= j < |ring| && ring[j] == q;
      }
    } else {
      forall q | q in ring ensures p <= q {
        var j :| 0 <= j < |ring| && ring[j] == q;
      }
      assert forall q :: q in ring ==> q <= h;
    }
  }

  /** The walk of `get_nodes`: every ring point once, starting at index `idx`. */
  function Walk(ring: seq<nat>, idx: nat): (r: seq<nat>)
    requires idx <= |ring|
    ensures |r| == |ring|
  {
    ring[idx..] + ring[..idx]
  }

  lemma WalkAt(ring: seq<nat>, idx: nat, i: nat)
    requires idx <= |ring| && i < |ring|
    ensures Walk(ring, idx)[i] == ring[(idx + i) % |ring|]
  {
    if idx + i < |ring| {
      assert (idx + i) % |ring| == idx + i;
    } else {
      assert (idx + i) % |ring| == idx + i - |ring|;
    }
  }

  /** What remains of the `get_nodes` loop: the walked points `pts` still to visit and the
      nodes collected so far. */
  function Gather(pts: seq<nat>, nodeMap: map<nat, string>, count: int, acc: seq<string>): Outcome<seq<string>>
    decreases |pts|
  {
    if |pts| == 0 then Ok(acc)
    else if pts[0] !in nodeMap then KeyError
    else if nodeMap[pts[0]] in acc then Gather(pts[1..], nodeMap, count, acc)
    else if |acc + [nodeMap[pts[0]]]| >= count then Ok(acc + [nodeMap[pts[0]]])
    else Gather(pts[1..], nodeMap, count, acc + [nodeMap[pts[0]]])
  }

  /** `get_nodes` returns distinct mapped nodes, at most `count` of them (one when `count`
      is below one), extending what it had collected. */
  lemma {:induction false} GatherShape(pts: seq<nat>, nodeMap: map<nat, string>, count: int, acc: seq<string>)
    requires Distinct(acc) && |acc| < Max(count, 1)
    requires forall n :: n in acc ==> n in nodeMap.Values
    ensures var r := Gather(pts, nodeMap, count, acc);
      r.Ok? ==> (Distinct(r.value) && |r.value| <= Max(count, 1) && |acc| <= |r.value| &&
        r.value[..|acc|] == acc && forall n :: n in r.value ==> n in nodeMap.Values)
    decreases |pts|
  {
    if |pts| > 0 && pts[0] in nodeMap {
      var n := nodeMap[pts[0]];
      if n in acc {
        GatherShape(pts[1..], nodeMap, count, acc);
      } else {
        var acc' := acc + [n];
        assert Distinct(acc') by {
          forall i, j | 0 <= i < j < |acc'| ensures acc'[i] != acc'[j] {
            if j == |acc| {
              assert acc'[i] in acc;
            } else {
              assert acc'[i] == acc[i] && acc'[j] == acc[j];
            }
          }
        }
        if |acc'| < count {
          GatherShape(pts[1..], nodeMap, count, acc');
          var r := Gather(pts[1..], nodeMap, count, acc');
          if r.Ok? {
            assert r.value[..|acc|] == r.value[..|acc'|][..|acc|];
          }
        }
      }
    }
  }

  /** When `get_nodes` collects fewer nodes than were asked for, it has visited every point
      and holds the node of each one. */
  lemma {:induction false} GatherComplete(pts: seq<nat>, nodeMap: map<nat, string>, count: int, acc: seq<string>)
    ensures var r := Gather(pts, nodeMap, count, acc);
      r.Ok? && |r.value| < count ==>
        ((forall n :: n in acc ==> n in r.value) && forall p :: p in pts ==> p in nodeMap && nodeMap[p] in r.value)
    decreases |pts|
  {
    if |pts| > 0 && pts[0] in nodeMap {
      var n := nodeMap[pts[0]];
      var acc' := if n in acc then acc else acc + [n];
      if n in acc || |acc'| < count {
        GatherComplete(pts[1..], nodeMap, count, acc');
        var r := Gather(pts, nodeMap, count, acc);
        if r.Ok? && |r.value| < count {
          forall p | p in pts ensures p in nodeMap && nodeMap[p] in r.value {
            if p != pts[0] {
              assert p in pts[1..];
            }
          }
        }
      }
    }
  }

  /** The first node `get_nodes` returns is the node `get_node` returns. */
  lemma GatherFirst(pts: seq<nat>, nodeMap: map<nat, string>, count: int)
    requires |pts| > 0
    ensures pts[0] !in nodeMap ==> Gather(pts, nodeMap, count, []) == KeyError
    ensures pts[0] in nodeMap && Gather(pts, nodeMap, count, []).Ok? ==>
      |Gather(pts, nodeMap, count, []).value| > 0 && Gather(pts, nodeMap, count, []).value[0] == nodeMap[pts[0]]
  {
    if pts[0] in nodeMap {
      var n := nodeMap[pts[0]];
      assert [] + [n] == [n];
      if 1 < count {
        GatherShape(pts[1..], nodeMap, count, [n]);
        var r := Gather(pts[1..], nodeMap, count, [n]);
        if r.Ok? {
          assert r.value[0] == r.value[..1][0];
        }
      }
    }
  }

  /** The points a node's virtual nodes produce, with `AddNode`'s loop done `k` times. */
  ghost function Claimed(pts: seq<nat>, node: string): map<nat, string> {
    map h | h in pts :: node
  }

  /** The state `add_node`'s loop has reached after the first `i` points. */
  ghost predicate Added(ring0: seq<nat>, nodeMap0: map<nat, string>, pts: seq<nat>, node: string,
                        i: nat, ring: seq<nat>, nodeMap: map<nat, string>)
    requires i <= |pts|
  {
    SortedInts(ring) && Covered(ring, nodeMap) &&
    multiset(ring) == multiset(ring0) + multiset(pts[..i]) &&
    nodeMap == nodeMap0 + Claimed(pts[..i], node)
  }

  lemma AddStep(ring0: seq<nat>, nodeMap0: map<nat, string>, pts: seq<nat>, node: string,
                i: nat, ring: seq<nat>, nodeMap: map<nat, string>)
    requires i < |pts| && Added(ring0, nodeMap0, pts, node, i, ring, nodeMap)
    ensures Added(ring0, nodeMap0, pts, node, i + 1, Insort(ring, pts[i]), nodeMap[pts[i] := node])
  {
    var r, m := Insort(ring, pts[i]), nodeMap[pts[i] := node];
    InsortSorted(ring, pts[i]);
    forall h | h in m ensures h in r {
      if h != pts[i] {
        assert h in multiset(ring);
      }
      assert h in multiset(r);
    }
    PrefixSnoc(pts, i);
    assert multiset(r) == multiset(ring0) + multiset(pts[..i + 1]);
    ClaimedSnoc(pts[..i], pts[i], node);
    MapExt(m, nodeMap0 + Claimed(pts[..i + 1], node));
  }

  lemma ClaimedSnoc(pts: seq<nat>, h: nat, node: string)
    ensures Claimed(pts + [h], node) == Claimed(pts, node)[h := node]
  {
    MapExt(Claimed(pts + [h], node), Claimed(pts, node)[h := node]);
  }

  /** One pass of `add_node`'s loop on the ring's state. */
  method AddPoints(ring0: seq<nat>, nodeMap0: map<nat, string>, pts: seq<nat>, node: string)
    returns (ring: seq<nat>, nodeMap: map<nat, string>)
    requires SortedInts(ring0) && Covered(ring0, nodeMap0)
    ensures SortedInts(ring) && Covered(ring, nodeMap)
    ensures multiset(ring) == multiset(ring0) + multiset(pts)
    ensures nodeMap == nodeMap0 + Claimed(pts, node)
  {
    ring, nodeMap := ring0, nodeMap0;
    var i := 0;
    assert nodeMap0 + Claimed(pts[..0], node) == nodeMap0 by {
      MapExt(nodeMap0 + Claimed(pts[..0], node), nodeMap0);
    }
    while i < |pts|
      invariant 0 <= i <= |pts|
      invariant Added(ring0, nodeMap0, pts, node, i, ring, nodeMap)
    {
      AddStep(ring0, nodeMap0, pts, node, i, ring, nodeMap);
      ring := Insort(ring, pts[i]);
      nodeMap := nodeMap[pts[i] := node];
      i := i + 1;
    }
    assert pts[..i] == pts;
  }

  /** The state `remove_node`'s loop has reached after visiting the points `done`. */
  ghost predicate Removed(ring0: seq<nat>, nodeMap0: map<nat, string>, done: set<nat>,
                          ring: seq<nat>, nodeMap: map<nat, string>)
  {
    SortedInts(ring) && Covered(ring, nodeMap) &&
    multiset(ring) == multiset(ring0) - multiset(nodeMap0.Keys * done) &&
    nodeMap == nodeMap0 - done
  }

  lemma RemoveHit(ring0: seq<nat>, nodeMap0: map<nat, string>, done: set<nat>, h: nat,
                  ring: seq<nat>, nodeMap: map<nat, string>)
    requires Removed(ring0, nodeMap0, done, ring, nodeMap) && h in nodeMap
    ensures h in ring
    ensures Removed(ring0, nodeMap0, done + {h}, RemoveFirst(ring, h), nodeMap - {h})
  {
    assert h in nodeMap0 && h !in done;
    assert h in ring;
    var ring', nodeMap' := RemoveFirst(ring, h), nodeMap - {h};
    RemoveFirstSorted(ring, h);
    RemoveFirstMultiset(ring, h);
    RemoveCovered(ring, nodeMap, h);
    RemoveHitMultiset(ring0, nodeMap0.Keys, done, h, ring);
    RemoveHitMap(nodeMap0, done, h, nodeMap);
    assert SortedInts(ring') && Covered(ring', nodeMap');
  }

  lemma RemoveHitMultiset(ring0: seq<nat>, keys: set<nat>, done: set<nat>, h: nat, ring: seq<nat>)
    requires h in keys && h !in done && h in ring
    requires multiset(ring) == multiset(ring0) - multiset(keys * done)
    ensures multiset(ring) - multiset{h} == multiset(ring0) - multiset(keys * (done + {h}))
  {
    var gone := keys * done;
    assert keys * (done + {h}) == gone + {h};
    RemoveStep(ring0, gone, h, ring);
  }

  lemma RemoveHitMap(nodeMap0: map<nat, string>, done: set<nat>, h: nat, nodeMap: map<nat, string>)
    requires nodeMap == nodeMap0 - done
    ensures nodeMap - {h} == nodeMap0 - (done + {h})
  {
    MapExt(nodeMap - {h}, nodeMap0 - (done + {h}));
  }

  lemma RemoveCovered(ring: seq<nat>, nodeMap: map<nat, string>, h: nat)
    requires Covered(ring, nodeMap) && h in ring
    requires multiset(RemoveFirst(ring, h)) == multiset(ring) - multiset{h}
    ensures Covered(RemoveFirst(ring, h), nodeMap - {h})
  {
    var r := RemoveFirst(ring, h);
    forall k | k in nodeMap - {h} ensures k in r {
      assert k in multiset(ring) && k != h;
      assert k in multiset(r);
    }
  }

  lemma RemoveMiss(ring0: seq<nat>, nodeMap0: map<nat, string>, done: set<nat>, h: nat,
                   ring: seq<nat>, nodeMap: map<nat, string>)
    requires Removed(ring0, nodeMap0, done, ring, nodeMap) && h !in nodeMap
    ensures Removed(ring0, nodeMap0, done + {h}, ring, nodeMap)
  {
    assert nodeMap0.Keys * (done + {h}) == nodeMap0.Keys * done;
    MapExt(nodeMap, nodeMap0 - (done + {h}));
  }

  lemma RemovedInit(ring0: seq<nat>, nodeMap0: map<nat, string>)
    requires SortedInts(ring0) && Covered(ring0, nodeMap0)
    ensures Removed(ring0, nodeMap0, {}, ring0, nodeMap0)
  {
    assert nodeMap0.Keys * {} == {};
    MapExt(nodeMap0 - {}, nodeMap0);
  }

  /** One pass of `remove_node`'s loop on the ring's state. */
  method RemovePoints(ring0: seq<nat>, nodeMap0: map<nat, string>, pts: seq<nat>)
    returns (ring: seq<nat>, nodeMap: map<nat, string>)
    requires SortedInts(ring0) && Covered(ring0, nodeMap0)
    ensures Removed(ring0, nodeMap0, ToSet(pts), ring, nodeMap)
  {
    ring, nodeMap := ring0, nodeMap0;
    RemovedInit(ring0, nodeMap0);
    ghost var done: set<nat> := {};
    var i := 0;
    while i < |pts|
      invariant 0 <= i <= |pts|
      invariant done == ToSet(pts[..i])
      invariant Removed(ring0, nodeMap0, done, ring, nodeMap)
    {
      var h := pts[i];
      if h in nodeMap {
        RemoveHit(ring0, nodeMap0, done, h, ring, nodeMap);
        ring := RemoveFirst(ring, h);
        nodeMap := nodeMap - {h};
      } else {
        RemoveMiss(ring0, nodeMap0, done, h, ring, nodeMap);
      }
      PrefixSnoc(pts, i);
      done := done + {h};
      i := i + 1;
    }
    assert pts[..i] == pts;
  }

  lemma RemoveStep(ring0: seq<nat>, gone: set<nat>, h: nat, ring: seq<nat>)
    requires h !in gone
    requires multiset(ring) == multiset(ring0) - multiset(gone)
    requires h in ring
    ensures multiset(ring) - multiset{h} == multiset(ring0) - multiset(gone + {h})
  {
    var m := multiset(ring0);
    assert h in multiset(ring);
    forall x ensures (multiset(ring) - multiset{h})[x] == (m - multiset(gone + {h}))[x] {
      if x == h {
        assert multiset(gone)[x] == 0;
      }
    }
  }

  /** A consistent-hash ring: `replicas` virtual points per node, kept sorted, and the node
      each point belongs to. */
  class ConsistentHash {
    const replicas: int
    const hash: string -> nat
    var ring: seq<nat>
    var nodeMap: map<nat, string>

    ghost predicate Valid()
      reads this
    {
      SortedInts(ring) && Covered(ring, nodeMap) && Owned(hash, replicas, nodeMap)
    }

    /** The points `add_node` and `remove_node` visit for `node`. */
    function NodePoints(node: string): seq<nat> {
      Points(hash, node, Replicas(replicas))
    }

    /** `ConsistentHash(nodes, replicas)`: an empty ring with each node added in turn. */
    constructor(nodes: seq<string>, replicas: int, hash: string -> nat)
      ensures Valid() && this.replicas == replicas && this.hash == hash
      ensures forall n :: n in nodes ==> (forall h :: h in NodePoints(n) ==> h in nodeMap)
      ensures forall n :: n in nodeMap.Values ==> n in nodes
    {
      this.replicas := replicas;
      this.hash := hash;
      ring := [];
      nodeMap := map[];
      new;
      var i := 0;
      while i < |nodes|
        invariant 0 <= i <= |nodes|
        invariant Valid() && this.replicas == replicas && this.hash == hash
        invariant forall n :: n in nodes[..i] ==> (forall h :: h in NodePoints(n) ==> h in nodeMap)
        invariant forall n :: n in nodeMap.Values ==> n in nodes[..i]
      {
        AddNode(nodes[i]);
        PrefixSnoc(nodes, i);
        i := i + 1;
      }
      assert nodes[..i] == nodes;
    }

    /** `add_node`: every virtual point of `node` goes into the ring, kept sorted, and is
        mapped to `node`. */
    method AddNode(node: string)
      requires Valid()
      modifies this
      ensures Valid()
      ensures multiset(ring) == old(multiset(ring)) + multiset(NodePoints(node))
      ensures nodeMap == old(nodeMap) + Claimed(NodePoints(node), node)
    {
      var pts := NodePoints(node);
      var r, m := AddPoints(ring, nodeMap, pts, node);
      assert Owned(hash, replicas, m) by {
        forall h | h in m ensures h in Points(hash, m[h], Replicas(replicas)) {
          if h !in pts {
            assert h in nodeMap;
          }
        }
      }
      ring, nodeMap := r, m;
    }

    /** `remove_node`: every virtual point of `node` still mapped is dropped from the map
        and one copy of it from the ring; afterwards no point maps to `node`. */
    method RemoveNode(node: string)
      requires Valid()
      modifies this
      ensures Valid()
      ensures multiset(ring) == old(multiset(ring)) - multiset(old(nodeMap).Keys * ToSet(NodePoints(node)))
      ensures nodeMap == old(nodeMap) - ToSet(NodePoints(node))
      ensures node !in nodeMap.Values
    {
      var pts := NodePoints(node);
      var r, m := RemovePoints(ring, nodeMap, pts);
      assert node !in m.Values by {
        forall h | h in m ensures m[h] != node {
          assert h in nodeMap && h !in pts;
        }
      }
      ring, nodeMap := r, m;
    }

    /** `get_node(key)`. */
    function GetNode(key: string): (r: Outcome<Option<string>>)
      reads this
      ensures r == Ok(None) <==> |ring| == 0
      ensures r.Ok? && r.value.Some? ==> r.value.value in nodeMap.Values
    {
      Locate(ring, nodeMap, hash(key))
    }

    /** `get_nodes(key, count)`: the walk round the ring from the point after the key,
        collecting each node the first time it is met until `count` are collected. */
    method GetNodes(key: string, count: int) returns (r: Outcome<seq<string>>)
      requires Valid()
      ensures |ring| == 0 ==> r == Ok([])
      ensures |ring| > 0 ==> r == Gather(Walk(ring, BisectRight(ring, hash(key))), nodeMap, count, [])
      ensures r.Ok? ==> Distinct(r.value) && |r.value| <= Max(count, 1)
      ensures r.Ok? ==> forall n :: n in r.value ==> n in nodeMap.Values
      ensures GetNode(key) == KeyError ==> r == KeyError
      ensures r.Ok? && |ring| > 0 ==> |r.value| > 0 && GetNode(key) == Ok(Some(r.value[0]))
      ensures r.Ok? && |r.value| < count ==> forall h :: h in ring ==> h in nodeMap && nodeMap[h] in r.value
    {
      var ring := this.ring;
      var nodeMap := this.nodeMap;
      if |ring| == 0 {
        return Ok([]);
      }
      var idx := BisectRight(ring, hash(key));
      ghost var walk := Walk(ring, idx);
      var nodes: seq<string> := [];
      var seen: set<string> := {};
      var i := 0;
      r := Ok([]);
      var done := false;
      while i < |ring| && !done
        invariant 0 <= i <= |ring|
        invariant forall n :: n in seen <==> n in nodes
        invariant !done ==> Gather(walk[i..], nodeMap, count, nodes) == Gather(walk, nodeMap, count, [])
        invariant !done ==> r == Ok(nodes)
        invariant done ==> r == Gather(walk, nodeMap, count, [])
        decreases |ring| - i, if done then 0 else 1
      {
        WalkAt(ring, idx, i);
        var p := ring[(idx + i) % |ring|];
        assert walk[i..][0] == p && walk[i..][1..] == walk[i + 1..];
        if p !in nodeMap {
          r := KeyError;
          done := true;
        } else {
          var node := nodeMap[p];
          if node !in seen {
            seen := seen + {node};
            nodes := nodes + [node];
            if |nodes| >= count {
              r := Ok(nodes);
              done := true;
            }
          }
          if !done {
            r := Ok(nodes);
            i := i + 1;
          }
        }
      }
      if !done {
        assert walk[i..] == [];
      }
      GetNodesFacts(ring, nodeMap, hash(key), count);
    }
  }

  /** The facts `GetNodes` promises about the walk it makes. */
  lemma GetNodesFacts(ring: seq<nat>, nodeMap: map<nat, string>, h: nat, count: int)
    requires |ring| > 0
    ensures var r := Gather(Walk(ring, BisectRight(ring, h)), nodeMap, count, []);
      (r.Ok? ==> Distinct(r.value) && |r.value| <= Max(count, 1)) &&
      (r.Ok? ==> forall n :: n in r.value ==> n in nodeMap.Values) &&
      (Locate(ring, nodeMap, h) == KeyError ==> r == KeyError) &&
      (r.Ok? ==> |r.value| > 0 && Locate(ring, nodeMap, h) == Ok(Some(r.value[0]))) &&
      (r.Ok? && |r.value| < count ==> forall p :: p in ring ==> p in nodeMap && nodeMap[p] in r.value)
  {
    var idx := BisectRight(ring, h);
    var walk := Walk(ring, idx);
    assert walk[0] == ring[if idx == |ring| then 0 else idx];
    GatherShape(walk, nodeMap, count, []);
    GatherFirst(walk, nodeMap, count);
    GatherComplete(walk, nodeMap, count, []);
    WalkCovers(ring, idx);
  }

  /** The walk meets every point of the ring. */
  lemma WalkCovers(ring: seq<nat>, idx: nat)
    requires idx <= |ring|
    ensures forall p :: p in ring ==> p in Walk(ring, idx)
  {
    var walk := Walk(ring, idx);
    forall p | p in ring ensures p in walk {
      var j :| 0 <= j < |ring| && ring[j] == p;
      if j < idx {
        assert walk[|ring| - idx + j] == p;
      } else {
        assert walk[j - idx] == p;
      }
    }
  }

  /** A shard's client, standing for `ShardClient(host, port)`. */
  datatype Address = Address(host: string, port: int)

  /** `self.clients.get(node_key)` for the ring's answer. */
  function ClientOf(clients: map<string, Address>, node: Outcome<Option<string>>): (r: Outcome<Option<Address>>)
    ensures r.KeyError? <==> node.KeyError?
    ensures r.Ok? && r.value.Some? <==> node.Ok? && node.value.Some? && node.value.value in clients
    ensures r.Ok? && r.value.Some? ==> r.value.value == clients[node.value.value]
  {
    match node
    case KeyError => KeyError
    case Ok(None) => Ok(None)
    case Ok(Some(n)) => Ok(if n in clients then Some(clients[n]) else None)
  }

  /** The keys of `keys`, in order, that the ring sends to `node`. */
  ghost function KeysTo(ring: seq<nat>, nodeMap: map<nat, string>, hash: string -> nat,
                        keys: seq<string>, node: Option<string>): seq<string>
    decreases |keys|
  {
    if |keys| == 0 then []
    else
      var here := if Locate(ring, nodeMap, hash(keys[0])) == Ok(node) then [keys[0]] else [];
      here + KeysTo(ring, nodeMap, hash, keys[1..], node)
  }

  lemma {:induction false} KeysToSnoc(ring: seq<nat>, nodeMap: map<nat, string>, hash: string -> nat,
                                      keys: seq<string>, k: string, node: Option<string>)
    ensures KeysTo(ring, nodeMap, hash, keys + [k], node) ==
      KeysTo(ring, nodeMap, hash, keys, node) + (if Locate(ring, nodeMap, hash(k)) == Ok(node) then [k] else [])
    decreases |keys|
  {
    if |keys| == 0 {
      assert keys + [k] == [k];
    } else {
      assert (keys + [k])[0] == keys[0] && (keys + [k])[1..] == keys[1..] + [k];
      KeysToSnoc(ring, nodeMap, hash, keys[1..], k, node);
    }
  }

  /** The grouping of `multi_get` after the first keys: each node the ring gives for one of
      them holds exactly those keys, in order. */
  ghost predicate GroupedSeq(ring: seq<nat>, nodeMap: map<nat, string>, hash: string -> nat,
                             keys: seq<string>, groups: map<Option<string>, seq<string>>)
  {
    (forall k :: k in keys ==> Locate(ring, nodeMap, hash(k)).Ok?) &&
    (forall g :: g in groups <==> exists k :: k in keys && Locate(ring, nodeMap, hash(k)) == Ok(g)) &&
    (forall g :: g in groups ==> groups[g] == KeysTo(ring, nodeMap, hash, keys, g))
  }

  lemma KeysToNone(ring: seq<nat>, nodeMap: map<nat, string>, hash: string -> nat,
                   keys: seq<string>, node: Option<string>)
    requires forall k :: k in keys ==> Locate(ring, nodeMap, hash(k)) != Ok(node)
    ensures KeysTo(ring, nodeMap, hash, keys, node) == []
    decreases |keys|
  {
    if |keys| > 0 {
      KeysToNone(ring, nodeMap, hash, keys[1..], node);
    }
  }

  lemma GroupStep(ring: seq<nat>, nodeMap: map<nat, string>, hash: string -> nat,
                  keys: seq<string>, groups: map<Option<string>, seq<string>>, k: string, g: Option<string>)
    requires GroupedSeq(ring, nodeMap, hash, keys, groups)
    requires Locate(ring, nodeMap, hash(k)) == Ok(g)
    ensures GroupedSeq(ring, nodeMap, hash, keys + [k], groups[g := GetOr(groups, g, []) + [k]])
  {
    var keys', groups' := keys + [k], groups[g := GetOr(groups, g, []) + [k]];
    forall j | j in groups' ensures groups'[j] == KeysTo(ring, nodeMap, hash, keys', j) {
      KeysToSnoc(ring, nodeMap, hash, keys, k, j);
      if j == g && g !in groups {
        KeysToNone(ring, nodeMap, hash, keys, g);
      }
    }
    forall j ensures j in groups' <==> exists x :: x in keys' && Locate(ring, nodeMap, hash(x)) == Ok(j) {
      if j in groups' && j != g {
        var x :| x in keys && Locate(ring, nodeMap, hash(x)) == Ok(j);
        assert x in keys';
      }
      if j == g {
        assert k in keys';
      }
    }
  }

  /** The grouping of `multi_put` after the keys `done`: each node the ring gives for one of
      them holds exactly those items. */
  ghost predicate GroupedMap<V>(ring: seq<nat>, nodeMap: map<nat, string>, hash: string -> nat,
                                items: map<string, V>, done: set<string>, groups: map<Option<string>, map<string, V>>)
  {
    done <= items.Keys &&
    (forall k :: k in done ==> Locate(ring, nodeMap, hash(k)).Ok?) &&
    (forall g :: g in groups <==> exists k :: k in done && Locate(ring, nodeMap, hash(k)) == Ok(g)) &&
    (forall g :: g in groups ==> groups[g] == ItemsTo(ring, nodeMap, hash, items, done, g))
  }

  /** The items among the keys `done` that the ring sends to `node`. */
  ghost function ItemsTo<V>(ring: seq<nat>, nodeMap: map<nat, string>, hash: string -> nat,
                            items: map<string, V>, done: set<string>, node: Option<string>): map<string, V>
  {
    map k | k in items && k in done && Locate(ring, nodeMap, hash(k)) == Ok(node) :: items[k]
  }

  lemma GroupMapStep<V>(ring: seq<nat>, nodeMap: map<nat, string>, hash: string -> nat, items: map<string, V>,
                        done: set<string>, groups: map<Option<string>, map<string, V>>, k: string, g: Option<string>)
    requires GroupedMap(ring, nodeMap, hash, items, done, groups)
    requires k in items && k !in done && Locate(ring, nodeMap, hash(k)) == Ok(g)
    ensures GroupedMap(ring, nodeMap, hash, items, done + {k}, groups[g := GetOr(groups, g, map[])[k := items[k]]])
  {
    var done', groups' := done + {k}, groups[g := GetOr(groups, g, map[])[k := items[k]]];
    forall j | j in groups' ensures groups'[j] == ItemsTo(ring, nodeMap, hash, items, done', j) {
      if j == g {
        if g !in groups {
          assert ItemsTo(ring, nodeMap, hash, items, done, g) == map[] by {
            MapExt(ItemsTo(ring, nodeMap, hash, items, done, g), map[]);
          }
        }
        MapExt(groups'[j], ItemsTo(ring, nodeMap, hash, items, done', j));
      } else {
        MapExt(groups'[j], ItemsTo(ring, nodeMap, hash, items, done', j));
      }
    }
    forall j ensures j in groups' <==> exists x :: x in done' && Locate(ring, nodeMap, hash(x)) == Ok(j) {
      if j in groups' && j != g {
        var x :| x in done && Locate(ring, nodeMap, hash(x)) == Ok(j);
        assert x in done';
      }
      if j == g {
        assert k in done';
      }
    }
  }

  lemma InhabitedKeys(s: set<string>)
    requires s != {}
    ensures exists k :: k in s
  {
    if forall k :: k !in s {
      assert false;
    }
  }

  /** A router that sends each key to the shard its consistent-hash ring picks. Shard ids are
      their own node keys (`f'{shard_id}'` of a string is the string). */
  class ShardRouter {
    var shardAddrs: map<string, Address>
    const hashRing: ConsistentHash
    var clients: map<string, Address>

    ghost predicate Valid()
      reads this, hashRing
    {
      hashRing.Valid() && clients == shardAddrs &&
      forall n :: n in hashRing.nodeMap.Values ==> n in clients
    }

    /** `ShardRouter(shard_addrs)`: a ring of 150 virtual nodes per shard, and a client for
        each shard, taken in the dictionary's order. */
    constructor(shards: seq<(string, Address)>, hash: string -> nat)
      ensures Valid() && fresh(hashRing)
      ensures hashRing.replicas == 150 && hashRing.hash == hash
      ensures forall i :: 0 <= i < |shards| ==> shards[i].0 in clients
      ensures forall n :: n in clients ==> exists i :: (0 <= i < |shards| && shards[i].0 == n &&
        forall h :: h in hashRing.NodePoints(n) ==> h in hashRing.nodeMap)
    {
      shardAddrs := map[];
      clients := map[];
      hashRing := new ConsistentHash([], 150, hash);
      new;
      var i := 0;
      while i < |shards|
        invariant 0 <= i <= |shards|
        invariant Valid() && fresh(hashRing)
        invariant hashRing.replicas == 150 && hashRing.hash == hash
        invariant forall j :: 0 <= j < i ==> shards[j].0 in clients
        invariant forall n :: n in clients ==> exists j :: (0 <= j < i && shards[j].0 == n &&
          forall h :: h in hashRing.NodePoints(n) ==> h in hashRing.nodeMap)
        modifies this, hashRing
      {
        var (id, addr) := shards[i];
        AddShard(id, addr);
        i := i + 1;
      }
    }

    /** `_get_shard(key)`. */
    function GetShard(key: string): (r: Outcome<Option<Address>>)
      reads this, hashRing
      requires Valid()
      ensures r == ClientOf(clients, hashRing.GetNode(key))
      ensures hashRing.GetNode(key).Ok? && hashRing.GetNode(key).value.Some? ==> r.Ok? && r.value.Some?
    {
      ClientOf(clients, hashRing.GetNode(key))
    }

    /** The key grouping of `multi_get`: each key goes into the list of the node the ring
        gives for it, in the order of `keys`. */
    method GroupKeys(keys: seq<string>) returns (r: Outcome<map<Option<string>, seq<string>>>)
      requires Valid()
      ensures r.Ok? <==> forall k :: k in keys ==> hashRing.GetNode(k).Ok?
      ensures r.Ok? ==> GroupedSeq(hashRing.ring, hashRing.nodeMap, hashRing.hash, keys, r.value)
    {
      r := GroupSeq(hashRing.ring, hashRing.nodeMap, hashRing.hash, keys);
    }

    /** The item grouping of `multi_put`: each item goes into the dictionary of the node the
        ring gives for its key. */
    method GroupItems<V>(items: map<string, V>) returns (r: Outcome<map<Option<string>, map<string, V>>>)
      requires Valid()
      ensures r.Ok? <==> forall k :: k in items ==> hashRing.GetNode(k).Ok?
      ensures r.Ok? ==> GroupedMap(hashRing.ring, hashRing.nodeMap, hashRing.hash, items, items.Keys, r.value)
    {
      r := GroupMap(hashRing.ring, hashRing.nodeMap, hashRing.hash, items);
    }

    /** `add_shard(shard_id, host, port)`. */
    method AddShard(id: string, addr: Address)
      requires Valid()
      modifies this, hashRing
      ensures Valid()
      ensures shardAddrs == old(shardAddrs)[id := addr] && clients == old(clients)[id := addr]
      ensures hashRing.nodeMap == old(hashRing.nodeMap) + Claimed(hashRing.NodePoints(id), id)
      ensures multiset(hashRing.ring) == old(multiset(hashRing.ring)) + multiset(hashRing.NodePoints(id))
    {
      shardAddrs := shardAddrs[id := addr];
      hashRing.AddNode(id);
      clients := clients[id := addr];
    }

    /** `remove_shard(shard_id)`: afterwards the ring gives the shard for no key. */
    method RemoveShard(id: string)
      requires Valid()
      modifies this, hashRing
      ensures Valid()
      ensures shardAddrs == old(shardAddrs) - {id} && clients == old(clients) - {id}
      ensures hashRing.nodeMap == old(hashRing.nodeMap) - ToSet(hashRing.NodePoints(id))
      ensures forall key :: hashRing.GetNode(key) != Ok(Some(id))
    {
      hashRing.RemoveNode(id);
      clients := clients - {id};
      shardAddrs := shardAddrs - {id};
    }
  }


  /** The loop of `multi_get` that builds `key_groups`. */
  method GroupSeq(ring: seq<nat>, nodeMap: map<nat, string>, hash: string -> nat, keys: seq<string>)
    returns (r: Outcome<map<Option<string>, seq<string>>>)
    ensures r.Ok? <==> forall k :: k in keys ==> Locate(ring, nodeMap, hash(k)).Ok?
    ensures r.Ok? ==> GroupedSeq(ring, nodeMap, hash, keys, r.value)
  {
    var groups: map<Option<string>, seq<string>> := map[];
    var i := 0;
    assert keys[..0] == [];
    while i < |keys|
      invariant 0 <= i <= |keys|
      invariant GroupedSeq(ring, nodeMap, hash, keys[..i], groups)
    {
      var node := Locate(ring, nodeMap, hash(keys[i]));
      if node.KeyError? {
        assert keys[i] in keys;
        return KeyError;
      }
      GroupStep(ring, nodeMap, hash, keys[..i], groups, keys[i], node.value);
      groups := groups[node.value := GetOr(groups, node.value, []) + [keys[i]]];
      PrefixSnoc(keys, i);
      i := i + 1;
    }
    assert keys[..i] == keys;
    return Ok(groups);
  }

  /** The loop of `multi_put` that builds `key_groups`. */
  method GroupMap<V>(ring: seq<nat>, nodeMap: map<nat, string>, hash: string -> nat, items: map<string, V>)
    returns (r: Outcome<map<Option<string>, map<string, V>>>)
    ensures r.Ok? <==> forall k :: k in items ==> Locate(ring, nodeMap, hash(k)).Ok?
    ensures r.Ok? ==> GroupedMap(ring, nodeMap, hash, items, items.Keys, r.value)
  {
    var groups: map<Option<string>, map<string, V>> := map[];
    var todo := items.Keys;
    while todo != {}
      invariant todo <= items.Keys
      invariant GroupedMap(ring, nodeMap, hash, items, items.Keys - todo, groups)
      decreases |todo|
    {
      InhabitedKeys(todo);
      var k :| k in todo;
      var node := Locate(ring, nodeMap, hash(k));
      if node.KeyError? {
        return KeyError;
      }
      GroupMapStep(ring, nodeMap, hash, items, items.Keys - todo, groups, k, node.value);
      groups := groups[node.value := GetOr(groups, node.value, map[])[k := items[k]]];
      assert items.Keys - todo + {k} == items.Keys - (todo - {k});
      todo := todo - {k};
    }
    return Ok(groups);
  }

  lemma {:induction false} KeysToMembers(ring: seq<nat>, nodeMap: map<nat, string>, hash: string -> nat,
                                         keys: seq<string>, node: Option<string>)
    ensures forall x :: x in KeysTo(ring, nodeMap, hash, keys, node) <==>
      x in keys && Locate(ring, nodeMap, hash(x)) == Ok(node)
    decreases |keys|
  {
    if |keys| > 0 {
      KeysToMembers(ring, nodeMap, hash, keys[1..], node);
      forall x ensures x in keys <==> x == keys[0] || x in keys[1..] {
        assert keys == [keys[0]] + keys[1..];
      }
    }
  }

  /** `multi_get` puts every key into one group, that of the node the ring gives for it. */
  lemma GroupsPartitionKeys(ring: seq<nat>, nodeMap: map<nat, string>, hash: string -> nat,
                            keys: seq<string>, groups: map<Option<string>, seq<string>>, k: string)
    requires GroupedSeq(ring, nodeMap, hash, keys, groups) && k in keys
    ensures Locate(ring, nodeMap, hash(k)).Ok?
    ensures var g := Locate(ring, nodeMap, hash(k)).value; g in groups && k in groups[g]
    ensures forall g :: g in groups && k in groups[g] ==> Locate(ring, nodeMap, hash(k)) == Ok(g)
  {
    forall g | g in groups {
      KeysToMembers(ring, nodeMap, hash, keys, g);
    }
    var g := Locate(ring, nodeMap, hash(k)).value;
    assert g in groups;
    KeysToMembers(ring, nodeMap, hash, keys, g);
  }

  /** `multi_put` puts every item into one group, that of the node the ring gives for its key. */
  lemma GroupsPartitionItems<V>(ring: seq<nat>, nodeMap: map<nat, string>, hash: string -> nat,
                                items: map<string, V>, groups: map<Option<string>, map<string, V>>, k: string)
    requires GroupedMap(ring, nodeMap, hash, items, items.Keys, groups) && k in items
    ensures Locate(ring, nodeMap, hash(k)).Ok?
    ensures var g := Locate(ring, nodeMap, hash(k)).value; g in groups && k in groups[g] && groups[g][k] == items[k]
    ensures forall g :: g in groups && k in groups[g] ==> Locate(ring, nodeMap, hash(k)) == Ok(g)
  {
  }

  /** One of the configured key ranges: `(start, end, shard_id)`. */
  datatype KeyRange = KeyRange(start: string, end: string, shard: string)

  /** `start <= key < end`. */
  predicate InRange(start: string, end: string, key: string) {
    StrLe(start, key) && StrLt(key, end)
  }

  /** The index of the first range holding `key`, if any. */
  function FirstRange(ranges: seq<KeyRange>, key: string): (r: Option<nat>)
    ensures r.Some? ==> r.value < |ranges| && InRange(ranges[r.value].start, ranges[r.value].end, key)
    ensures r.Some? ==> forall j :: 0 <= j < r.value ==> !InRange(ranges[j].start, ranges[j].end, key)
    ensures r.None? ==> forall j :: 0 <= j < |ranges| ==> !InRange(ranges[j].start, ranges[j].end, key)
    decreases |ranges|
  {
    if |ranges| == 0 then None
    else if InRange(ranges[0].start, ranges[0].end, key) then Some(0)
    else
      match FirstRange(ranges[1..], key)
      case None => None
      case Some(i) => Some(i + 1)
  }

  function RangeStart(r: KeyRange): string { r.start }

  /** `a <= b <= c` rules out `c < a`. */
  lemma NotAround(a: string, b: string, c: string)
    ensures StrLe(a, b) && StrLe(b, c) ==> !StrLt(c, a)
  {
    if StrLe(a, b) && StrLe(b, c) && StrLt(c, a) {
      if a != b {
        StrLtTransitive(c, a, b);
      }
      if b != c {
        StrLtTransitive(c, b, c);
      }
      StrLtIrreflexive(c);
    }
  }

  /** The result of `range_query(start_key, end_key)` after the ranges `ranges`, given what
      each reachable shard holds: a shard is read when its range meets the query, it has a
      client, and it answers. */
  ghost function Query<V>(ranges: seq<KeyRange>, clients: map<string, Address>, stored: map<string, map<string, V>>,
                          lo: string, hi: string, acc: map<string, V>): map<string, V>
    decreases |ranges|
  {
    if |ranges| == 0 then acc
    else
      var r := ranges[0];
      var skip := StrLe(r.end, lo) || StrLe(hi, r.start);
      var acc' := if !skip && r.shard in clients && r.shard in stored then acc + Within(stored[r.shard], lo, hi) else acc;
      Query(ranges[1..], clients, stored, lo, hi, acc')
  }

  /** The part of a shard's contents with `lo <= k < hi`. */
  ghost function Within<V>(m: map<string, V>, lo: string, hi: string): map<string, V> {
    map k | k in m && InRange(lo, hi, k) :: m[k]
  }

  lemma QueryStep<V>(ranges: seq<KeyRange>, clients: map<string, Address>, stored: map<string, map<string, V>>,
                     lo: string, hi: string, acc: map<string, V>, i: nat)
    requires i < |ranges|
    ensures Query(ranges[i..], clients, stored, lo, hi, acc) ==
      var r := ranges[i];
      var skip := StrLe(r.end, lo) || StrLe(hi, r.start);
      Query(ranges[i + 1..], clients, stored, lo, hi,
            if !skip && r.shard in clients && r.shard in stored then acc + Within(stored[r.shard], lo, hi) else acc)
  {
    assert ranges[i..][0] == ranges[i] && ranges[i..][1..] == ranges[i + 1..];
  }

  /** A key is in the result exactly when it lies in the query and some shard that was read
      holds it; its value is that shard's. */
  lemma {:induction false} QueryKeys<V>(ranges: seq<KeyRange>, clients: map<string, Address>, stored: map<string, map<string, V>>,
                                        lo: string, hi: string, acc: map<string, V>, k: string)
    ensures k in Query(ranges, clients, stored, lo, hi, acc) <==>
      k in acc || exists i :: (0 <= i < |ranges| && Read(ranges[i], clients, stored, lo, hi) &&
        k in stored[ranges[i].shard] && InRange(lo, hi, k))
    decreases |ranges|
  {
    if |ranges| > 0 {
      var r := ranges[0];
      var acc' := if Read(r, clients, stored, lo, hi) then acc + Within(stored[r.shard], lo, hi) else acc;
      QueryKeys(ranges[1..], clients, stored, lo, hi, acc', k);
      if k in Query(ranges, clients, stored, lo, hi, acc) && k !in acc {
        if k in acc' {
          assert Read(ranges[0], clients, stored, lo, hi);
        } else {
          var i :| 0 <= i < |ranges[1..]| && Read(ranges[1..][i], clients, stored, lo, hi) &&
            k in stored[ranges[1..][i].shard] && InRange(lo, hi, k);
          assert ranges[i + 1] == ranges[1..][i];
        }
      }
      if exists i :: 0 <= i < |ranges| && Read(ranges[i], clients, stored, lo, hi) &&
          k in stored[ranges[i].shard] && InRange(lo, hi, k) {
        var i :| 0 <= i < |ranges| && Read(ranges[i], clients, stored, lo, hi) &&
          k in stored[ranges[i].shard] && InRange(lo, hi, k);
        if i > 0 {
          assert ranges[1..][i - 1] == ranges[i];
        }
      }
    }
  }

  /** Range `r` is one `range_query` reads. */
  ghost predicate Read<V>(r: KeyRange, clients: map<string, Address>, stored: map<string, map<string, V>>,
                          lo: string, hi: string)
  {
    !(StrLe(r.end, lo) || StrLe(hi, r.start)) && r.shard in clients && r.shard in stored
  }

  /** Every key a shard holds lies in one of that shard's ranges. */
  ghost predicate WellPlaced<V>(ranges: seq<KeyRange>, stored: map<string, map<string, V>>) {
    forall sid, k :: sid in stored && k in stored[sid] ==>
      exists i :: 0 <= i < |ranges| && ranges[i].shard == sid && InRange(ranges[i].start, ranges[i].end, k)
  }

  /** Skipping ranges that do not meet the query loses nothing when every shard holds only
      keys of its own ranges: the result holds every key in the query that a shard with a
      client holds. */
  lemma QuerySkipsOnlyEmptyRanges<V>(ranges: seq<KeyRange>, clients: map<string, Address>,
                                     stored: map<string, map<string, V>>, lo: string, hi: string, sid: string, k: string)
    requires WellPlaced(ranges, stored)
    requires sid in clients && sid in stored && k in stored[sid] && InRange(lo, hi, k)
    ensures k in Query(ranges, clients, stored, lo, hi, map[])
  {
    var i :| 0 <= i < |ranges| && ranges[i].shard == sid && InRange(ranges[i].start, ranges[i].end, k);
    var r := ranges[i];
    NotAround(r.end, lo, k);
    NotAround(hi, r.start, k);
    assert Read(r, clients, stored, lo, hi);
    QueryKeys(ranges, clients, stored, lo, hi, map[], k);
  }

  /** A router over key ranges, each served by one shard. */
  class RangeRouter {
    var shardAddrs: map<string, Address>
    var keyRanges: seq<KeyRange>
    var clients: map<string, Address>

    /** `RangeRouter(shard_addrs, key_ranges)`: the ranges sorted by their start, stably. */
    constructor(shardAddrs: map<string, Address>, ranges: seq<KeyRange>)
      ensures this.shardAddrs == shardAddrs && clients == shardAddrs
      ensures keyRanges == Sorting.SortBy(ranges, RangeStart, Sorting.StrLeFn())
      ensures Sorting.SortedBy(keyRanges, RangeStart, Sorting.StrLeFn())
      ensures multiset(keyRanges) == multiset(ranges)
    {
      this.shardAddrs := shardAddrs;
      keyRanges := Sorting.SortBy(ranges, RangeStart, Sorting.StrLeFn());
      clients := shardAddrs;
      Sorting.StrLeTotalPreorder();
      Sorting.SortBySorted(ranges, RangeStart, Sorting.StrLeFn());
      Sorting.SortByPermutation(ranges, RangeStart, Sorting.StrLeFn());
    }

    /** `_get_shard_for_key(key)`: the client of the first range holding `key`, if that
        shard has one. */
    method ShardForKey(key: string) returns (r: Option<Address>)
      ensures r == match FirstRange(keyRanges, key)
        case None => None
        case Some(i) => if keyRanges[i].shard in clients then Some(clients[keyRanges[i].shard]) else None
    {
      var ranges := keyRanges;
      var i := 0;
      while i < |ranges|
        invariant 0 <= i <= |ranges|
        invariant forall j :: 0 <= j < i ==> !InRange(ranges[j].start, ranges[j].end, key)
      {
        if StrLe(ranges[i].start, key) && StrLt(key, ranges[i].end) {
          FirstRangeIs(ranges, key, i);
          return if ranges[i].shard in clients then Some(clients[ranges[i].shard]) else None;
        }
        i := i + 1;
      }
      FirstRangeIs(ranges, key, |ranges|);
      return None;
    }

    /** `range_query(start_key, end_key)`, given the contents of every shard that answers. */
    method RangeQuery<V>(lo: string, hi: string, stored: map<string, map<string, V>>) returns (results: map<string, V>)
      ensures results == Query(keyRanges, clients, stored, lo, hi, map[])
    {
      results := map[];
      var ranges := keyRanges;
      var i := 0;
      while i < |ranges|
        invariant 0 <= i <= |ranges|
        invariant Query(ranges[i..], clients, stored, lo, hi, results) == Query(ranges, clients, stored, lo, hi, map[])
      {
        QueryStep(ranges, clients, stored, lo, hi, results, i);
        var r := ranges[i];
        if !(StrLe(r.end, lo) || StrLe(hi, r.start)) && r.shard in clients && r.shard in stored {
          results := Collect(results, stored[r.shard], lo, hi);
        }
        i := i + 1;
      }
      assert ranges[i..] == [];
    }
  }

  /** The index where the search of `_get_shard_for_key` stops is `FirstRange`'s. */
  lemma FirstRangeIs(ranges: seq<KeyRange>, key: string, i: nat)
    requires i <= |ranges|
    requires forall j :: 0 <= j < i ==> !InRange(ranges[j].start, ranges[j].end, key)
    requires i < |ranges| ==> InRange(ranges[i].start, ranges[i].end, key)
    ensures FirstRange(ranges, key) == if i < |ranges| then Some(i) else None
  {
    var f := FirstRange(ranges, key);
  }

  /** The range a key is sent to starts no later than any other range holding the key. */
  lemma FirstRangeLeastStart(ranges: seq<KeyRange>, key: string, j: nat)
    requires Sorting.SortedBy(ranges, RangeStart, Sorting.StrLeFn())
    requires j < |ranges| && InRange(ranges[j].start, ranges[j].end, key)
    ensures FirstRange(ranges, key).Some?
    ensures StrLe(ranges[FirstRange(ranges, key).value].start, ranges[j].start)
  {
    var i := FirstRange(ranges, key).value;
    if i < j {
      assert Sorting.StrLeFn()(RangeStart(ranges[i]), RangeStart(ranges[j]));
    }
  }

  /** The inner loop of `range_query` over one shard's keys. */
  method Collect<V>(acc: map<string, V>, m: map<string, V>, lo: string, hi: string) returns (r: map<string, V>)
    ensures r == acc + Within(m, lo, hi)
  {
    r := acc;
    var todo := m.Keys;
    while todo != {}
      invariant todo <= m.Keys
      invariant r == acc + Within(m - todo, lo, hi)
      decreases |todo|
    {
      InhabitedKeys(todo);
      var k :| k in todo;
      if StrLe(lo, k) && StrLt(k, hi) {
        r := r[k := m[k]];
      }
      MapExt(r, acc + Within(m - (todo - {k}), lo, hi));
      todo := todo - {k};
    }
    MapExt(m - todo, m);
  }
}
