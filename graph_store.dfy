// The in-memory graph store of the multi-model API: user nodes holding attribute maps, a
// list of outgoing relationships per user, and the matching list of incoming ones.
module Graph {
  import opened Common
  import Mapper

  type UserId = string

  /** An attribute value: a string, or any other JSON value carried as the text `str()`
      gives for it. */
  datatype Value = Str(s: string) | Other(text: string)

  /** A user node: its attributes, `id` among them. */
  type Node = map<string, Value>

  /** An entry of `edges[from]`: `{'to': to, 'type': kind}`. */
  datatype Edge = Edge(to: UserId, kind: string)

  /** An entry of `reverse_edges[to]`: `{'from': from, 'type': kind}`. */
  datatype Back = Back(from: UserId, kind: string)

  /** `edges.get(u, [])`; also what either `defaultdict` yields for a missing key. */
  function Out<T>(m: map<UserId, seq<T>>, u: UserId): seq<T> {
    if u in m then m[u] else []
  }

  /** The store: node ids in the order `nodes` iterates them, the nodes, `edges` and
      `reverse_edges`. */
  datatype State = State(ids: seq<UserId>, nodes: map<UserId, Node>,
                         edges: map<UserId, seq<Edge>>, reverse: map<UserId, seq<Back>>)

  /** Every relationship is recorded at both ends. */
  ghost predicate Linked(edges: map<UserId, seq<Edge>>, reverse: map<UserId, seq<Back>>) {
    forall a, b, t :: Edge(b, t) in Out(edges, a) <==> Back(a, t) in Out(reverse, b)
  }

  /** No list holds an entry twice. */
  ghost predicate NoRepeats(edges: map<UserId, seq<Edge>>, reverse: map<UserId, seq<Back>>) {
    (forall a :: a in edges ==> Distinct(edges[a])) && (forall b :: b in reverse ==> Distinct(reverse[b]))
  }

  ghost predicate Good(g: State) {
    Distinct(g.ids) && (forall u :: u in g.nodes <==> u in g.ids) &&
    Linked(g.edges, g.reverse) && NoRepeats(g.edges, g.reverse)
  }

  const Empty: State := State([], map[], map[], map[])

  lemma EmptyGood()
    ensures Good(Empty)
  {
  }

  // ---------------------------------------------------------------------------------------
  // Users

  /** `create_user(u, data)`: the node is a copy of `data` with `id` set to `u`; a new user
      goes last in iteration order, an existing one keeps its place. */
  function CreateStep(g: State, u: UserId, data: Node): State {
    g.(ids := if u in g.nodes then g.ids else g.ids + [u], nodes := g.nodes[u := data["id" := Str(u)]])
  }

  /** `update_user(u, data)`: an existing node takes `data`'s entries; otherwise nothing. */
  function UpdateStep(g: State, u: UserId, data: Node): State {
    if u in g.nodes then g.(nodes := g.nodes[u := g.nodes[u] + data]) else g
  }

  /** `get_user(u)`: a copy of the node, or None when it is missing or empty. */
  function GetUserOf(nodes: map<UserId, Node>, u: UserId): (r: Option<Node>)
    ensures r.Some? <==> u in nodes && nodes[u] != map[]
    ensures r.Some? ==> r.value == nodes[u]
  {
    if u in nodes && nodes[u] != map[] then Some(nodes[u]) else None
  }

  /** A created user reads back as its data with `id` set, every other user reads as before,
      and the store stays well formed. */
  lemma CreateThenGet(g: State, u: UserId, data: Node)
    requires Good(g)
    ensures var g' := CreateStep(g, u, data);
      Good(g') && GetUserOf(g'.nodes, u) == Some(data["id" := Str(u)]) &&
      g'.nodes[u]["id"] == Str(u) && (forall k :: k in data && k != "id" ==> g'.nodes[u][k] == data[k]) &&
      forall v :: v != u ==> GetUserOf(g'.nodes, v) == GetUserOf(g.nodes, v)
  {
    var g' := CreateStep(g, u, data);
    assert "id" in g'.nodes[u];
    if u !in g.nodes {
      assert u !in g.ids;
      forall i, j | 0 <= i < j < |g'.ids| ensures g'.ids[i] != g'.ids[j] {
        if j == |g.ids| { assert g.ids[i] in g.ids; }
      }
    }
    forall v ensures v in g'.nodes <==> v in g'.ids {
      if v != u { assert v in g'.ids <==> v in g.ids; }
    }
  }

  /** `update_user` merges: `data`'s attributes win, the others stay; a missing user is left
      alone. */
  lemma UpdateMerges(g: State, u: UserId, data: Node)
    requires Good(g)
    ensures var g' := UpdateStep(g, u, data);
      Good(g') && g'.ids == g.ids && g'.nodes.Keys == g.nodes.Keys &&
      (u !in g.nodes ==> g' == g) &&
      (u in g.nodes ==> g'.nodes[u].Keys == g.nodes[u].Keys + data.Keys &&
                        (forall k :: k in data ==> g'.nodes[u][k] == data[k]) &&
                        (forall k :: k in g.nodes[u] && k !in data ==> g'.nodes[u][k] == g.nodes[u][k])) &&
      forall v :: v != u && v in g.nodes ==> g'.nodes[v] == g.nodes[v]
  {
  }

  // ---------------------------------------------------------------------------------------
  // Relationships

  /** `add_relationship(a, b, t)`: a no-op when `a` already has an edge to `b` of type `t`
      (though looking creates `edges[a]`); otherwise the edge is recorded at both ends. */
  function AddStep(g: State, a: UserId, b: UserId, t: string): State {
    var out := Out(g.edges, a);
    if Edge(b, t) in out then g.(edges := g.edges[a := out])
    else g.(edges := g.edges[a := out + [Edge(b, t)]], reverse := g.reverse[b := Out(g.reverse, b) + [Back(a, t)]])
  }

  /** Adding a relationship keeps every relationship recorded once at each end, makes the
      new one present, and leaves every other list as it was. */
  lemma AddKeepsLinks(g: State, a: UserId, b: UserId, t: string)
    requires Good(g)
    ensures var g' := AddStep(g, a, b, t);
      Good(g') && Edge(b, t) in Out(g'.edges, a) && Back(a, t) in Out(g'.reverse, b) &&
      g'.ids == g.ids && g'.nodes == g.nodes &&
      (forall x :: x != a ==> Out(g'.edges, x) == Out(g.edges, x)) &&
      (forall y :: y != b ==> Out(g'.reverse, y) == Out(g.reverse, y))
  {
    var g' := AddStep(g, a, b, t);
    var out := Out(g.edges, a);
    if Edge(b, t) !in out {
      assert Back(a, t) !in Out(g.reverse, b);
      forall x, y, s ensures Edge(y, s) in Out(g'.edges, x) <==> Back(x, s) in Out(g'.reverse, y) {
        assert Edge(y, s) in Out(g.edges, x) <==> Back(x, s) in Out(g.reverse, y);
      }
      DistinctSnoc(out, Edge(b, t));
      DistinctSnoc(Out(g.reverse, b), Back(a, t));
    }
  }

  /** `add_relationship` is idempotent. */
  lemma AddIdempotent(g: State, a: UserId, b: UserId, t: string)
    ensures AddStep(AddStep(g, a, b, t), a, b, t) == AddStep(g, a, b, t)
  {
    var g1 := AddStep(g, a, b, t);
    assert Edge(b, t) in Out(g1.edges, a);
  }

  lemma DistinctSnoc<T>(s: seq<T>, x: T)
    requires Distinct(s) && x !in s
    ensures Distinct(s + [x])
  {
    forall i, j | 0 <= i < j < |s + [x]| ensures (s + [x])[i] != (s + [x])[j] {
      if j == |s| { assert s[i] in s; }
    }
  }

  /** `[r for r in rs if r['from'] != u]` */
  function WithoutFrom(rs: seq<Back>, u: UserId): (r: seq<Back>)
    ensures forall x :: x in r <==> x in rs && x.from != u
    ensures Distinct(rs) ==> Distinct(r)
  {
    if rs == [] then []
    else if rs[0].from != u then [rs[0]] + WithoutFrom(rs[1..], u)
    else WithoutFrom(rs[1..], u)
  }

  /** `[r for r in rs if r['to'] != u]` */
  function WithoutTo(rs: seq<Edge>, u: UserId): (r: seq<Edge>)
    ensures forall x :: x in r <==> x in rs && x.to != u
    ensures Distinct(rs) ==> Distinct(r)
  {
    if rs == [] then []
    else if rs[0].to != u then [rs[0]] + WithoutTo(rs[1..], u)
    else WithoutTo(rs[1..], u)
  }

  lemma {:induction false} WithoutFromNone(rs: seq<Back>, u: UserId)
    requires forall x :: x in rs ==> x.from != u
    ensures WithoutFrom(rs, u) == rs
  {
    if rs != [] {
      assert rs[0] in rs;
      assert forall x :: x in rs[1..] ==> x in rs;
      WithoutFromNone(rs[1..], u);
    }
  }

  lemma {:induction false} WithoutToNone(rs: seq<Edge>, u: UserId)
    requires forall x :: x in rs ==> x.to != u
    ensures WithoutTo(rs, u) == rs
  {
    if rs != [] {
      assert rs[0] in rs;
      assert forall x :: x in rs[1..] ==> x in rs;
      WithoutToNone(rs[1..], u);
    }
  }

  /** The first loop of `delete_user(u)`: for each of `u`'s edges, the target's incoming list
      loses the entries from `u`. */
  function DropBacks(reverse: map<UserId, seq<Back>>, out: seq<Edge>, u: UserId): map<UserId, seq<Back>>
    decreases out
  {
    if out == [] then reverse
    else DropBacks(reverse[out[0].to := WithoutFrom(Out(reverse, out[0].to), u)], out[1..], u)
  }

  /** The second loop: for each of `u`'s incoming entries, the source's list loses the
      edges to `u`. */
  function DropEdges(edges: map<UserId, seq<Edge>>, back: seq<Back>, u: UserId): map<UserId, seq<Edge>>
    decreases back
  {
    if back == [] then edges
    else DropEdges(edges[back[0].from := WithoutTo(Out(edges, back[0].from), u)], back[1..], u)
  }

  lemma {:induction false} DropBacksOut(reverse: map<UserId, seq<Back>>, out: seq<Edge>, u: UserId, y: UserId)
    ensures Out(DropBacks(reverse, out, u), y) ==
            if exists k :: 0 <= k < |out| && out[k].to == y then WithoutFrom(Out(reverse, y), u) else Out(reverse, y)
    decreases out
  {
    if out != [] {
      var r1 := reverse[out[0].to := WithoutFrom(Out(reverse, out[0].to), u)];
      DropBacksOut(r1, out[1..], u, y);
      if out[0].to == y {
        WithoutFromNone(WithoutFrom(Out(reverse, y), u), u);
      } else {
        assert (exists k :: 0 <= k < |out| && out[k].to == y) <==> (exists k :: 0 <= k < |out[1..]| && out[1..][k].to == y) by {
          if k :| 0 <= k < |out| && out[k].to == y { assert out[1..][k - 1] == out[k]; }
        }
      }
    }
  }

  lemma {:induction false} DropEdgesOut(edges: map<UserId, seq<Edge>>, back: seq<Back>, u: UserId, x: UserId)
    ensures Out(DropEdges(edges, back, u), x) ==
            if exists k :: 0 <= k < |back| && back[k].from == x then WithoutTo(Out(edges, x), u) else Out(edges, x)
    decreases back
  {
    if back != [] {
      var e1 := edges[back[0].from := WithoutTo(Out(edges, back[0].from), u)];
      DropEdgesOut(e1, back[1..], u, x);
      if back[0].from == x {
        WithoutToNone(WithoutTo(Out(edges, x), u), u);
      } else {
        assert (exists k :: 0 <= k < |back| && back[k].from == x) <==> (exists k :: 0 <= k < |back[1..]| && back[1..][k].from == x) by {
          if k :| 0 <= k < |back| && back[k].from == x { assert back[1..][k - 1] == back[k]; }
        }
      }
    }
  }

  /** The ids without `u`, in order. */
  function Unlisted(ids: seq<UserId>, u: UserId): (r: seq<UserId>)
    ensures forall v :: v in r <==> v in ids && v != u
    ensures Distinct(ids) ==> Distinct(r)
  {
    if ids == [] then []
    else if ids[0] == u then Unlisted(ids[1..], u)
    else
      var rest := Unlisted(ids[1..], u);
      assert Distinct(ids) ==> Distinct([ids[0]] + rest) by {
        if Distinct(ids) {
          forall j | 0 <= j < |ids[1..]| ensures ids[1..][j] != ids[0] {
            assert ids[1..][j] == ids[j + 1];
          }
          DistinctCons(ids[0], rest);
        }
      }
      [ids[0]] + rest
  }

  lemma DistinctCons<T>(x: T, s: seq<T>)
    requires Distinct(s) && x !in s
    ensures Distinct([x] + s)
  {
    forall i, j | 0 <= i < j < |[x] + s| ensures ([x] + s)[i] != ([x] + s)[j] {
      if i == 0 { assert s[j - 1] in s; }
    }
  }

  /** `del nodes[u]` when present. */
  function RemoveNode(g: State, u: UserId): State {
    if u in g.nodes then g.(ids := Unlisted(g.ids, u), nodes := g.nodes - {u}) else g
  }

  /** The outgoing half of the cascade. */
  function CutOut(g: State, u: UserId): State {
    if u in g.edges then g.(edges := g.edges - {u}, reverse := DropBacks(g.reverse, g.edges[u], u)) else g
  }

  /** The incoming half of the cascade. */
  function CutIn(g: State, u: UserId): State {
    if u in g.reverse then g.(edges := DropEdges(g.edges, g.reverse[u], u), reverse := g.reverse - {u}) else g
  }

  /** `delete_user(u)` */
  function DeleteStep(g: State, u: UserId): State {
    CutIn(CutOut(RemoveNode(g, u), u), u)
  }

  /** After the outgoing half of the cascade, every other user's incoming list has lost
      exactly its entries from `u`. */
  lemma CutOutIncoming(g: State, u: UserId, y: UserId)
    requires Linked(g.edges, g.reverse) && y != u
    ensures Out(CutOut(g, u).reverse, y) == WithoutFrom(Out(g.reverse, y), u)
  {
    if u in g.edges {
      DropBacksOut(g.reverse, g.edges[u], u, y);
    }
    if !(u in g.edges && exists k :: 0 <= k < |g.edges[u]| && g.edges[u][k].to == y) {
      forall x | x in Out(g.reverse, y) ensures x.from != u {
        assert forall k :: 0 <= k < |Out(g.edges, u)| ==> Out(g.edges, u)[k] != Edge(y, x.kind);
        assert Back(u, x.kind) !in Out(g.reverse, y);
        assert x == Back(x.from, x.kind);
      }
      WithoutFromNone(Out(g.reverse, y), u);
    }
  }

  /** After both halves, every other user's outgoing list has lost exactly its edges to `u`,
      and `u` has none left. */
  lemma CutInOutgoing(g: State, u: UserId, x: UserId)
    requires Linked(g.edges, g.reverse)
    ensures var g' := CutIn(CutOut(g, u), u);
      Out(g'.edges, x) == if x == u then [] else WithoutTo(Out(g.edges, x), u)
  {
    var g1 := CutOut(g, u);
    if u in g1.reverse {
      DropEdgesOut(g1.edges, g1.reverse[u], u, x);
    }
    if x != u {
      assert Out(g1.edges, x) == Out(g.edges, x);
      if !(u in g1.reverse && exists k :: 0 <= k < |g1.reverse[u]| && g1.reverse[u][k].from == x) {
        forall e | e in Out(g.edges, x) ensures e.to != u {
          assert forall k :: 0 <= k < |Out(g1.reverse, u)| ==> Out(g1.reverse, u)[k] != Back(x, e.kind);
          CutOutKeepsOthers(g, u, x, e.kind);
          assert Back(x, e.kind) !in Out(g.reverse, u);
          assert Edge(u, e.kind) !in Out(g.edges, x);
          assert e == Edge(e.to, e.kind);
        }
        WithoutToNone(Out(g.edges, x), u);
      }
    } else {
      assert Out(g1.edges, u) == [];
    }
  }

  /** `delete_user(u)` removes the node and exactly the relationships into or out of `u`:
      every other list keeps its other entries, in order, and the store stays well formed. */
  lemma DeleteCascade(g: State, u: UserId)
    requires Good(g)
    ensures var g' := DeleteStep(g, u);
      Good(g') && u !in g'.nodes && g'.ids == Unlisted(g.ids, u) &&
      (forall v :: v != u ==> (v in g'.nodes <==> v in g.nodes) && (v in g.nodes ==> g'.nodes[v] == g.nodes[v])) &&
      Out(g'.edges, u) == [] && Out(g'.reverse, u) == [] &&
      (forall x :: x != u ==> Out(g'.edges, x) == WithoutTo(Out(g.edges, x), u)) &&
      (forall y :: y != u ==> Out(g'.reverse, y) == WithoutFrom(Out(g.reverse, y), u))
  {
    DeleteUsers(g, u);
    DeleteLinks(g, u);
  }

  /** The user half of `DeleteCascade`: ids and nodes. */
  lemma DeleteUsers(g: State, u: UserId)
    requires Distinct(g.ids) && (forall v :: v in g.nodes <==> v in g.ids)
    ensures var g' := DeleteStep(g, u);
      Distinct(g'.ids) && (forall v :: v in g'.nodes <==> v in g'.ids) &&
      u !in g'.nodes && g'.ids == Unlisted(g.ids, u) && g'.nodes == g.nodes - {u}
  {
    var g0 := RemoveNode(g, u);
    CutsKeepUsers(g0, u);
    if u !in g.nodes {
      assert u !in g.ids;
      UnlistedNone(g.ids, u);
    }
  }

  lemma CutsKeepUsers(g: State, u: UserId)
    ensures CutIn(CutOut(g, u), u).ids == g.ids && CutIn(CutOut(g, u), u).nodes == g.nodes
  {
    assert CutOut(g, u).ids == g.ids && CutOut(g, u).nodes == g.nodes;
  }

  /** The relationship half of `DeleteCascade`. */
  lemma DeleteLinks(g: State, u: UserId)
    requires Linked(g.edges, g.reverse) && NoRepeats(g.edges, g.reverse)
    ensures var g' := DeleteStep(g, u);
      Linked(g'.edges, g'.reverse) && NoRepeats(g'.edges, g'.reverse) &&
      Out(g'.edges, u) == [] && Out(g'.reverse, u) == [] &&
      (forall x :: x != u ==> Out(g'.edges, x) == WithoutTo(Out(g.edges, x), u)) &&
      (forall y :: y != u ==> Out(g'.reverse, y) == WithoutFrom(Out(g.reverse, y), u))
  {
    var g0 := RemoveNode(g, u);
    var g' := DeleteStep(g, u);
    assert g0.edges == g.edges && g0.reverse == g.reverse;
    forall x ensures Out(g'.edges, x) == if x == u then [] else WithoutTo(Out(g.edges, x), u) {
      CutInOutgoing(g0, u, x);
    }
    forall y | y != u ensures Out(g'.reverse, y) == WithoutFrom(Out(g.reverse, y), u) {
      CutOutIncoming(g0, u, y);
    }
    assert Out(g'.reverse, u) == [];
    CutKeepsGood(g, g', u);
  }

  /** Lists that lost exactly the entries naming `u`, and `u`'s own lists emptied, keep
      every relationship recorded at both ends and no entry repeated. */
  lemma CutKeepsGood(g: State, g': State, u: UserId)
    requires Linked(g.edges, g.reverse) && NoRepeats(g.edges, g.reverse)
    requires Out(g'.edges, u) == [] && Out(g'.reverse, u) == []
    requires forall x :: x != u ==> Out(g'.edges, x) == WithoutTo(Out(g.edges, x), u)
    requires forall y :: y != u ==> Out(g'.reverse, y) == WithoutFrom(Out(g.reverse, y), u)
    ensures Linked(g'.edges, g'.reverse) && NoRepeats(g'.edges, g'.reverse)
  {
    forall a, b, t ensures Edge(b, t) in Out(g'.edges, a) <==> Back(a, t) in Out(g'.reverse, b) {
      assert Edge(b, t) in Out(g.edges, a) <==> Back(a, t) in Out(g.reverse, b);
    }
    forall a | a in g'.edges ensures Distinct(g'.edges[a]) {
      assert g'.edges[a] == Out(g'.edges, a);
      if a != u { assert Distinct(Out(g.edges, a)); }
    }
    forall b | b in g'.reverse ensures Distinct(g'.reverse[b]) {
      assert g'.reverse[b] == Out(g'.reverse, b);
      if b != u { assert Distinct(Out(g.reverse, b)); }
    }
  }

  /** The outgoing half leaves an incoming entry of `u` from another user in place. */
  lemma CutOutKeepsOthers(g: State, u: UserId, x: UserId, t: string)
    requires x != u
    ensures Back(x, t) in Out(g.reverse, u) ==> Back(x, t) in Out(CutOut(g, u).reverse, u)
  {
    if u in g.edges {
      DropBacksOut(g.reverse, g.edges[u], u, u);
    }
  }

  lemma {:induction false} UnlistedNone(ids: seq<UserId>, u: UserId)
    requires u !in ids
    ensures Unlisted(ids, u) == ids
  {
    if ids != [] {
      assert ids[0] != u;
      assert u !in ids[1..];
      UnlistedNone(ids[1..], u);
    }
  }

  // ---------------------------------------------------------------------------------------
  // Reading relationships and querying users

  /** `[r for r in rs if r['type'] == t]` */
  function OfType(rs: seq<Edge>, t: string): (r: seq<Edge>)
    ensures forall e :: e in r <==> e in rs && e.kind == t
    ensures |r| <= |rs|
  {
    if rs == [] then []
    else if rs[0].kind == t then [rs[0]] + OfType(rs[1..], t)
    else OfType(rs[1..], t)
  }

  /** Filtering keeps insertion order: it distributes over concatenation. */
  lemma {:induction false} OfTypeAppend(a: seq<Edge>, b: seq<Edge>, t: string)
    ensures OfType(a + b, t) == OfType(a, t) + OfType(b, t)
  {
    if a == [] {
      assert a + b == b;
    } else {
      assert (a + b)[0] == a[0] && (a + b)[1..] == a[1..] + b;
      OfTypeAppend(a[1..], b, t);
      if a[0].kind == t {
        assert OfType(a + b, t) == [a[0]] + (OfType(a[1..], t) + OfType(b, t));
      }
    }
  }

  /** What `str()` gives for an attribute value. */
  function Text(v: Value): string {
    match v
    case Str(s) => s
    case Other(t) => t
  }

  /** Python's `part in s` on strings: `part` occurs as a contiguous piece of `s`. */
  function Contains(s: string, part: string): bool {
    exists i | 0 <= i <= |s| - |part| :: OccursAt(s, part, i)
  }

  function OccursAt(s: string, part: string, i: nat): bool {
    i + |part| <= |s| && s[i..i + |part|] == part
  }

  lemma ContainsIff(s: string, part: string)
    ensures Contains(s, part) <==> exists a, b :: s == a + part + b
  {
    if Contains(s, part) {
      var i :| 0 <= i <= |s| - |part| && OccursAt(s, part, i);
      assert s == s[..i] + part + s[i + |part|..];
    }
    if a, b :| s == a + part + b {
      assert s[|a|..|a| + |part|] == part;
      assert OccursAt(s, part, |a|);
    }
  }

  /** One filter of `query_users` against one node: missing key fails; a string attribute
      needs a string filter (anything else has no `lower()`, which raises, modelled as None)
      and matches by case-insensitive substring; any other attribute matches when the two
      `str()` texts are equal. */
  function FilterMatch(node: Node, key: string, value: Value): Option<bool> {
    if key !in node then Some(false)
    else match node[key]
      case Str(s) => if value.Str? then Some(Contains(Mapper.Lower(s), Mapper.Lower(value.s))) else None
      case Other(t) => Some(t == Text(value))
  }

  /** The inner loop of `query_users`: filters in order, stopping at the first that fails or
      raises. */
  function Matches(node: Node, filters: seq<(string, Value)>): Option<bool> {
    if filters == [] then Some(true)
    else
      var m := FilterMatch(node, filters[0].0, filters[0].1);
      if m == Some(true) then Matches(node, filters[1..]) else m
  }

  /** A node matches exactly when every filter matches it. */
  lemma {:induction false} MatchesAll(node: Node, filters: seq<(string, Value)>)
    ensures Matches(node, filters) == Some(true) <==>
            forall i :: 0 <= i < |filters| ==> FilterMatch(node, filters[i].0, filters[i].1) == Some(true)
  {
    if filters != [] {
      MatchesAll(node, filters[1..]);
      assert forall i :: 0 < i < |filters| ==> filters[i] == filters[1..][i - 1];
    }
  }

  /** Filter i raises on the node, and every filter before it matched it. */
  ghost predicate RaisesAt(node: Node, filters: seq<(string, Value)>, i: int) {
    0 <= i < |filters| && FilterMatch(node, filters[i].0, filters[i].1) == None &&
    forall j :: 0 <= j < i ==> FilterMatch(node, filters[j].0, filters[j].1) == Some(true)
  }

  /** The query raises on a node exactly when some filter raises before any has failed. */
  lemma {:induction false} MatchesRaises(node: Node, filters: seq<(string, Value)>)
    ensures Matches(node, filters) == None <==> exists i :: RaisesAt(node, filters, i)
  {
    if filters != [] {
      var m := FilterMatch(node, filters[0].0, filters[0].1);
      if m == Some(true) {
        MatchesRaises(node, filters[1..]);
        forall i ensures RaisesAt(node, filters, i + 1) <==> RaisesAt(node, filters[1..], i) {
          assert forall j :: 0 < j < |filters| ==> filters[j] == filters[1..][j - 1];
        }
        assert !RaisesAt(node, filters, 0);
        if i :| RaisesAt(node, filters, i) {
          assert RaisesAt(node, filters[1..], i - 1);
        }
      } else if m == None {
        assert RaisesAt(node, filters, 0);
      } else {
        forall i ensures !RaisesAt(node, filters, i) {
          if 0 < i < |filters| {
            assert FilterMatch(node, filters[0].0, filters[0].1) != Some(true);
          }
        }
      }
    }
  }

  /** The outcome of `query_users`: the matching nodes, or the AttributeError a string
      attribute raises against a filter value that is not a string. */
  datatype QueryResult = Found(users: seq<Node>) | NonStringFilter

  /** `query_users(filters)` over the users `ids`, in order. */
  function Query(ids: seq<UserId>, nodes: map<UserId, Node>, filters: seq<(string, Value)>): QueryResult {
    if ids == [] then Found([])
    else
      var rest := Query(ids[1..], nodes, filters);
      if ids[0] !in nodes then rest
      else match Matches(nodes[ids[0]], filters)
        case None => NonStringFilter
        case Some(b) => if b then Prefix([nodes[ids[0]]], rest) else rest
  }

  /** Matches found before the rest of the scan. */
  function Prefix(found: seq<Node>, rest: QueryResult): QueryResult {
    if rest.Found? then Found(found + rest.users) else rest
  }

  /** The query raises exactly when some user makes the filters raise; otherwise it returns
      exactly the nodes of the users every filter matches. */
  lemma {:induction false} QueryIff(ids: seq<UserId>, nodes: map<UserId, Node>, filters: seq<(string, Value)>)
    ensures Query(ids, nodes, filters).Found? <==>
            forall i :: 0 <= i < |ids| && ids[i] in nodes ==> Matches(nodes[ids[i]], filters).Some?
    ensures Query(ids, nodes, filters).Found? ==>
            forall n :: n in Query(ids, nodes, filters).users <==>
              exists i :: 0 <= i < |ids| && ids[i] in nodes && nodes[ids[i]] == n && Matches(n, filters) == Some(true)
  {
    if ids != [] {
      QueryIff(ids[1..], nodes, filters);
      assert forall i :: 0 < i < |ids| ==> ids[i] == ids[1..][i - 1];
      var r := Query(ids, nodes, filters);
      if r.Found? {
        forall n ensures n in r.users <==>
            exists i :: 0 <= i < |ids| && ids[i] in nodes && nodes[ids[i]] == n && Matches(n, filters) == Some(true) {
          if exists i :: 0 <= i < |ids| && ids[i] in nodes && nodes[ids[i]] == n && Matches(n, filters) == Some(true) {
            var i :| 0 <= i < |ids| && ids[i] in nodes && nodes[ids[i]] == n && Matches(n, filters) == Some(true);
            if i > 0 { assert ids[1..][i - 1] == ids[i]; }
          }
        }
      }
    }
  }

  // ---------------------------------------------------------------------------------------
  // Walks

  /** Which relationship types a walk may follow. */
  datatype TypeFilter = AnyType | OnlyType(kind: string)

  function Admits(f: TypeFilter, t: string): bool {
    f.AnyType? || f.kind == t
  }

  /** `shortest_path` tests `if rel_type and ...`: None and "" both follow every type. */
  function PathFilter(relType: Option<string>): TypeFilter {
    if relType.None? || relType.value == "" then AnyType else OnlyType(relType.value)
  }

  /** `traverse` tests `rel_type is None or ...`: only None follows every type. */
  function TraverseFilter(relType: Option<string>): TypeFilter {
    if relType.None? then AnyType else OnlyType(relType.value)
  }

  /** The users one admitted relationship away from `x`. */
  ghost function Succ(edges: map<UserId, seq<Edge>>, f: TypeFilter, x: UserId): set<UserId> {
    set e | e in Out(edges, x) && Admits(f, e.kind) :: e.to
  }

  /** A walk along admitted relationships. */
  ghost predicate IsPath(edges: map<UserId, seq<Edge>>, f: TypeFilter, p: seq<UserId>) {
    |p| >= 1 && forall i :: 0 <= i < |p| - 1 ==> p[i + 1] in Succ(edges, f, p[i])
  }

  ghost predicate Route(edges: map<UserId, seq<Edge>>, f: TypeFilter, from: UserId, to: UserId, p: seq<UserId>) {
    IsPath(edges, f, p) && p[0] == from && p[|p| - 1] == to
  }

  /** The users at most `k` admitted relationships away from `from` (none when k < 0). */
  ghost function Within(edges: map<UserId, seq<Edge>>, f: TypeFilter, from: UserId, k: int): set<UserId>
    decreases k
  {
    if k < 0 then {}
    else if k == 0 then {from}
    else
      var b := Within(edges, f, from, k - 1);
      b + (set x, y | x in b && y in Succ(edges, f, x) :: y)
  }

  lemma WithinStep(edges: map<UserId, seq<Edge>>, f: TypeFilter, from: UserId, k: nat, x: UserId, y: UserId)
    requires x in Within(edges, f, from, k) && y in Succ(edges, f, x)
    ensures y in Within(edges, f, from, k + 1)
  {
  }

  lemma {:induction false} WithinMono(edges: map<UserId, seq<Edge>>, f: TypeFilter, from: UserId, j: int, k: int)
    requires j <= k
    ensures Within(edges, f, from, j) <= Within(edges, f, from, k)
    decreases k - j
  {
    if j < k {
      WithinMono(edges, f, from, j, k - 1);
    }
  }

  /** A walk of n steps from `from` ends within n steps of it. */
  lemma {:induction false} PathWithin(edges: map<UserId, seq<Edge>>, f: TypeFilter, from: UserId, p: seq<UserId>)
    requires IsPath(edges, f, p) && p[0] == from
    ensures p[|p| - 1] in Within(edges, f, from, |p| - 1)
    decreases |p|
  {
    if |p| > 1 {
      var q := p[..|p| - 1];
      assert IsPath(edges, f, q) by {
        forall i | 0 <= i < |q| - 1 ensures q[i + 1] in Succ(edges, f, q[i]) {
          assert q[i] == p[i] && q[i + 1] == p[i + 1];
        }
      }
      PathWithin(edges, f, from, q);
      assert p[|p| - 1] in Succ(edges, f, p[|p| - 2]);
      WithinStep(edges, f, from, |p| - 2, q[|q| - 1], p[|p| - 1]);
    }
  }

  lemma PathSnoc(edges: map<UserId, seq<Edge>>, f: TypeFilter, p: seq<UserId>, y: UserId)
    requires IsPath(edges, f, p) && y in Succ(edges, f, p[|p| - 1])
    ensures IsPath(edges, f, p + [y])
  {
    var q := p + [y];
    forall i | 0 <= i < |q| - 1 ensures q[i + 1] in Succ(edges, f, q[i]) {
      if i < |p| - 1 { assert q[i] == p[i] && q[i + 1] == p[i + 1]; }
    }
  }

  /** Everyone within k steps has a walk of at most k steps from `from`, and conversely. */
  lemma WithinIffRoute(edges: map<UserId, seq<Edge>>, f: TypeFilter, from: UserId, k: nat, y: UserId)
    ensures y in Within(edges, f, from, k) <==> exists p :: Route(edges, f, from, y, p) && |p| <= k + 1
  {
    if y in Within(edges, f, from, k) {
      WithinHasRoute(edges, f, from, k, y);
      assert RouteWithin(edges, f, from, y, k);
    }
    if p :| Route(edges, f, from, y, p) && |p| <= k + 1 {
      PathWithin(edges, f, from, p);
      WithinMono(edges, f, from, |p| - 1, k);
    }
  }

  /** Some walk of at most k steps leads from `from` to `y`. */
  ghost predicate RouteWithin(edges: map<UserId, seq<Edge>>, f: TypeFilter, from: UserId, y: UserId, k: nat) {
    exists p :: Route(edges, f, from, y, p) && |p| <= k + 1
  }

  lemma {:induction false} WithinHasRoute(edges: map<UserId, seq<Edge>>, f: TypeFilter, from: UserId, k: nat, y: UserId)
    requires y in Within(edges, f, from, k)
    ensures RouteWithin(edges, f, from, y, k)
  {
    if k == 0 {
      assert Route(edges, f, from, y, [from]);
    } else if y in Within(edges, f, from, k - 1) {
      WithinHasRoute(edges, f, from, k - 1, y);
      var p :| Route(edges, f, from, y, p) && |p| <= k;
      assert |p| <= k + 1;
    } else {
      var x :| x in Within(edges, f, from, k - 1) && y in Succ(edges, f, x);
      WithinHasRoute(edges, f, from, k - 1, x);
      RouteExtends(edges, f, from, x, y, k - 1);
    }
  }

  lemma RouteExtends(edges: map<UserId, seq<Edge>>, f: TypeFilter, from: UserId, x: UserId, y: UserId, k: nat)
    requires RouteWithin(edges, f, from, x, k) && y in Succ(edges, f, x)
    ensures RouteWithin(edges, f, from, y, k + 1)
  {
    var p :| Route(edges, f, from, x, p) && |p| <= k + 1;
    PathSnoc(edges, f, p, y);
    assert Route(edges, f, from, y, p + [y]);
  }

  /** A set that holds `T`'s successors of everything in `S`, and `S` itself, holds
      everything one step beyond `Within(k)` when `S` holds `Within(k)`. */
  lemma Covered(edges: map<UserId, seq<Edge>>, f: TypeFilter, from: UserId, k: nat, S: set<UserId>, T: set<UserId>)
    requires Within(edges, f, from, k) <= S <= T
    requires forall x :: x in S ==> Succ(edges, f, x) <= T
    ensures Within(edges, f, from, k + 1) <= T
  {
  }

  /** A set holding `from` and closed under successors holds everyone reachable. */
  lemma {:induction false} ClosedHoldsWithin(edges: map<UserId, seq<Edge>>, f: TypeFilter, from: UserId, S: set<UserId>, k: nat)
    requires from in S && forall x :: x in S ==> Succ(edges, f, x) <= S
    ensures Within(edges, f, from, k) <= S
  {
    if k > 0 {
      ClosedHoldsWithin(edges, f, from, S, k - 1);
      Covered(edges, f, from, k - 1, S, S);
    }
  }

  /** The node set of a search queue. */
  ghost function QueueNodes(queue: seq<(UserId, seq<UserId>)>): set<UserId> {
    set i | 0 <= i < |queue| :: queue[i].0
  }

  /** A queue entry of `shortest_path`: a walk from `from` to the entry's user, whose level
      (its number of steps) is L or L + 1, with no shorter walk to that user. */
  ghost predicate Entry(edges: map<UserId, seq<Edge>>, f: TypeFilter, from: UserId, e: (UserId, seq<UserId>), L: int) {
    Route(edges, f, from, e.0, e.1) && L + 1 <= |e.1| <= L + 2 && e.0 !in Within(edges, f, from, |e.1| - 2)
  }

  /** The search queue: well-formed entries in nondecreasing level order. */
  ghost predicate Queued(edges: map<UserId, seq<Edge>>, f: TypeFilter, from: UserId, queue: seq<(UserId, seq<UserId>)>, L: int) {
    (forall i :: 0 <= i < |queue| ==> Entry(edges, f, from, queue[i], L)) &&
    (forall i, j :: 0 <= i < j < |queue| ==> |queue[i].1| <= |queue[j].1|)
  }

  /** Every target of a relationship, and `from`. */
  ghost function Universe(edges: map<UserId, seq<Edge>>, from: UserId): set<UserId> {
    {from} + set a, e | a in edges && e in edges[a] :: e.to
  }

  lemma SuccInUniverse(edges: map<UserId, seq<Edge>>, f: TypeFilter, from: UserId, x: UserId)
    ensures Succ(edges, f, x) <= Universe(edges, from)
  {
    forall y | y in Succ(edges, f, x) ensures y in Universe(edges, from) {
      var e :| e in Out(edges, x) && Admits(f, e.kind) && e.to == y;
      assert x in edges && e in edges[x];
    }
  }

  /** Popping the head of the queue at level `l` keeps everything nearer than `l` expanded. */
  lemma PopKeeps(edges: map<UserId, seq<Edge>>, f: TypeFilter, from: UserId, queue: seq<(UserId, seq<UserId>)>,
                 L: int, done: set<UserId>, visited: set<UserId>, l: int)
    requires L >= 0 && queue != [] && Queued(edges, f, from, queue, L)
    requires Within(edges, f, from, L - 1) <= done && from in visited
    requires visited == done + QueueNodes(queue)
    requires forall x :: x in done ==> Succ(edges, f, x) <= visited
    requires l == |queue[0].1| - 1
    ensures L <= l <= L + 1 && Within(edges, f, from, l - 1) <= done && Queued(edges, f, from, queue[1..], l)
    ensures Route(edges, f, from, queue[0].0, queue[0].1) && queue[0].0 !in Within(edges, f, from, l - 1)
  {
    assert Entry(edges, f, from, queue[0], L);
    if |queue[0].1| - 1 == L + 1 {
      forall x | x in Within(edges, f, from, L) ensures x in done {
        NearIsDone(edges, f, from, queue, L, done, visited, x);
      }
    }
    PopQueued(edges, f, from, queue, L);
  }

  lemma NearIsDone(edges: map<UserId, seq<Edge>>, f: TypeFilter, from: UserId, queue: seq<(UserId, seq<UserId>)>,
                   L: nat, done: set<UserId>, visited: set<UserId>, x: UserId)
    requires queue != [] && Queued(edges, f, from, queue, L) && |queue[0].1| == L + 2
    requires Within(edges, f, from, L - 1) <= done && from in visited
    requires visited == done + QueueNodes(queue)
    requires forall x :: x in done ==> Succ(edges, f, x) <= visited
    requires x in Within(edges, f, from, L)
    ensures x in done
  {
    if x !in Within(edges, f, from, L - 1) {
      if L == 0 {
        assert x == from;
      } else {
        var w :| w in Within(edges, f, from, L - 1) && x in Succ(edges, f, w);
        assert w in done;
      }
      forall i | 0 <= i < |queue| ensures queue[i].0 != x {
        assert i == 0 || |queue[0].1| <= |queue[i].1|;
        NotQueued(edges, f, from, queue[i], L, x);
      }
    }
  }

  /** A queue entry of level at least L + 1 is not within L steps. */
  lemma NotQueued(edges: map<UserId, seq<Edge>>, f: TypeFilter, from: UserId, e: (UserId, seq<UserId>), L: nat, x: UserId)
    requires Entry(edges, f, from, e, L) && |e.1| >= L + 2 && x in Within(edges, f, from, L)
    ensures e.0 != x
  {
    WithinMono(edges, f, from, L, |e.1| - 2);
  }

  lemma PopQueued(edges: map<UserId, seq<Edge>>, f: TypeFilter, from: UserId, queue: seq<(UserId, seq<UserId>)>, L: int)
    requires queue != [] && Queued(edges, f, from, queue, L)
    ensures var l := |queue[0].1| - 1;
      L <= l <= L + 1 && Queued(edges, f, from, queue[1..], l)
  {
    assert Entry(edges, f, from, queue[0], L);
    var l := |queue[0].1| - 1;
    forall i | 0 <= i < |queue[1..]| ensures Entry(edges, f, from, queue[1..][i], l) {
      assert queue[1..][i] == queue[i + 1] && Entry(edges, f, from, queue[i + 1], L);
      assert |queue[0].1| <= |queue[i + 1].1|;
    }
    forall i, j | 0 <= i < j < |queue[1..]| ensures |queue[1..][i].1| <= |queue[1..][j].1| {
      assert queue[1..][i] == queue[i + 1] && queue[1..][j] == queue[j + 1];
    }
  }

  /** Appending an entry of level L + 1 keeps the queue well formed. */
  lemma Enqueue(edges: map<UserId, seq<Edge>>, f: TypeFilter, from: UserId, queue: seq<(UserId, seq<UserId>)>, L: int, e: (UserId, seq<UserId>))
    requires Queued(edges, f, from, queue, L) && Entry(edges, f, from, e, L) && |e.1| == L + 2
    ensures Queued(edges, f, from, queue + [e], L) && QueueNodes(queue + [e]) == QueueNodes(queue) + {e.0}
  {
    var q := queue + [e];
    forall i | 0 <= i < |q| ensures Entry(edges, f, from, q[i], L) {
      if i < |queue| { assert q[i] == queue[i]; }
    }
    forall i, j | 0 <= i < j < |q| ensures |q[i].1| <= |q[j].1| {
      assert q[i] == if i < |queue| then queue[i] else e;
      assert q[j] == if j < |queue| then queue[j] else e;
      if i < |queue| { assert Entry(edges, f, from, queue[i], L); }
    }
    forall x ensures x in QueueNodes(q) <==> x in QueueNodes(queue) + {e.0} {
      if x in QueueNodes(q) {
        var i :| 0 <= i < |q| && q[i].0 == x;
        if i < |queue| { assert queue[i].0 == x; }
      }
      if x in QueueNodes(queue) {
        var i :| 0 <= i < |queue| && queue[i].0 == x;
        assert q[i].0 == x;
      }
      assert q[|queue|].0 == e.0;
    }
  }

  /** What holds while the search expands `current`, the user at level L it took off the
      queue: the right users are visited and queued, and only `current` may still have
      successors outside `visited`. */
  ghost predicate Frontier(edges: map<UserId, seq<Edge>>, f: TypeFilter, from: UserId, to: UserId, done: set<UserId>,
                           current: UserId, visited: set<UserId>, queue: seq<(UserId, seq<UserId>)>, L: int) {
    from in visited && to !in visited && visited <= Universe(edges, from) &&
    visited == done + QueueNodes(queue) &&
    (forall x :: x in done && x != current ==> Succ(edges, f, x) <= visited) &&
    Queued(edges, f, from, queue, L) && Within(edges, f, from, L) <= visited
  }

  /** Queuing an unvisited successor of `current` keeps the frontier. */
  lemma EnqueueKeeps(edges: map<UserId, seq<Edge>>, f: TypeFilter, from: UserId, to: UserId, done: set<UserId>,
                     current: UserId, visited: set<UserId>, queue: seq<(UserId, seq<UserId>)>, L: nat,
                     path: seq<UserId>, next: UserId)
    requires Frontier(edges, f, from, to, done, current, visited, queue, L)
    requires Route(edges, f, from, current, path) && |path| == L + 1
    requires next in Succ(edges, f, current) && next !in visited && next != to
    ensures Route(edges, f, from, next, path + [next])
    ensures Frontier(edges, f, from, to, done, current, visited + {next}, queue + [(next, path + [next])], L)
  {
    PathSnoc(edges, f, path, next);
    SuccInUniverse(edges, f, from, current);
    Enqueue(edges, f, from, queue, L, (next, path + [next]));
  }

  /** What holds within `shortest_path`'s relationship loop for `current` after j relationships. */
  ghost predicate Expanding(edges: map<UserId, seq<Edge>>, f: TypeFilter, from: UserId, to: UserId, done: set<UserId>,
                            current: UserId, path: seq<UserId>, L: nat, j: int, visited0: set<UserId>,
                            queue0: seq<(UserId, seq<UserId>)>, visited: set<UserId>, queue: seq<(UserId, seq<UserId>)>) {
    Route(edges, f, from, current, path) && |path| == L + 1 && 0 <= j <= |Out(edges, current)| &&
    Frontier(edges, f, from, to, done, current, visited, queue, L) &&
    (forall e :: e in Out(edges, current)[..j] && Admits(f, e.kind) ==> e.to in visited) &&
    visited0 <= visited && (visited == visited0 ==> queue == queue0)
  }

  /** A relationship of another type, or to a visited user, changes nothing. */
  lemma ExpandSkip(edges: map<UserId, seq<Edge>>, f: TypeFilter, from: UserId, to: UserId, done: set<UserId>,
                   current: UserId, path: seq<UserId>, L: nat, j: int, visited0: set<UserId>,
                   queue0: seq<(UserId, seq<UserId>)>, visited: set<UserId>, queue: seq<(UserId, seq<UserId>)>)
    requires Expanding(edges, f, from, to, done, current, path, L, j, visited0, queue0, visited, queue)
    requires j < |Out(edges, current)|
    requires !Admits(f, Out(edges, current)[j].kind) || Out(edges, current)[j].to in visited
    ensures Expanding(edges, f, from, to, done, current, path, L, j + 1, visited0, queue0, visited, queue)
  {
    var out := Out(edges, current);
    assert out[..j + 1] == out[..j] + [out[j]];
  }

  /** An admitted relationship to an unvisited user other than `to` queues that user. */
  lemma ExpandAdd(edges: map<UserId, seq<Edge>>, f: TypeFilter, from: UserId, to: UserId, done: set<UserId>,
                  current: UserId, path: seq<UserId>, L: nat, j: int, visited0: set<UserId>,
                  queue0: seq<(UserId, seq<UserId>)>, visited: set<UserId>, queue: seq<(UserId, seq<UserId>)>)
    requires Expanding(edges, f, from, to, done, current, path, L, j, visited0, queue0, visited, queue)
    requires j < |Out(edges, current)| && Admits(f, Out(edges, current)[j].kind)
    requires Out(edges, current)[j].to != to && Out(edges, current)[j].to !in visited
    ensures Expanding(edges, f, from, to, done, current, path, L, j + 1, visited0, queue0,
                      visited + {Out(edges, current)[j].to},
                      queue + [(Out(edges, current)[j].to, path + [Out(edges, current)[j].to])])
  {
    var out := Out(edges, current);
    var next := out[j].to;
    assert next in Succ(edges, f, current);
    EnqueueKeeps(edges, f, from, to, done, current, visited, queue, L, path, next);
    assert out[..j + 1] == out[..j] + [out[j]];
  }

  /** An admitted relationship to `to` completes a shortest walk. */
  lemma ExpandMeets(edges: map<UserId, seq<Edge>>, f: TypeFilter, from: UserId, to: UserId, done: set<UserId>,
                    current: UserId, path: seq<UserId>, L: nat, j: int, visited0: set<UserId>,
                    queue0: seq<(UserId, seq<UserId>)>, visited: set<UserId>, queue: seq<(UserId, seq<UserId>)>)
    requires Expanding(edges, f, from, to, done, current, path, L, j, visited0, queue0, visited, queue)
    requires j < |Out(edges, current)| && Admits(f, Out(edges, current)[j].kind) && Out(edges, current)[j].to == to
    ensures Route(edges, f, from, to, path + [to]) && forall p :: Route(edges, f, from, to, p) ==> |path + [to]| <= |p|
  {
    assert to in Succ(edges, f, current);
    PathSnoc(edges, f, path, to);
    assert to !in Within(edges, f, from, L);
    Shortest(edges, f, from, to, L, path + [to]);
  }

  /** After the loop every admitted successor of `current` has been visited. */
  lemma ExpandDone(edges: map<UserId, seq<Edge>>, f: TypeFilter, from: UserId, to: UserId, done: set<UserId>,
                   current: UserId, path: seq<UserId>, L: nat, visited0: set<UserId>,
                   queue0: seq<(UserId, seq<UserId>)>, visited: set<UserId>, queue: seq<(UserId, seq<UserId>)>)
    requires Expanding(edges, f, from, to, done, current, path, L, |Out(edges, current)|, visited0, queue0, visited, queue)
    ensures Succ(edges, f, current) <= visited
  {
    var out := Out(edges, current);
    assert out[..|out|] == out;
    forall y | y in Succ(edges, f, current) ensures y in visited {
      var e :| e in out && Admits(f, e.kind) && e.to == y;
    }
  }

  /** What holds between turns of `shortest_path`'s loop: everything `done` has had its
      successors visited, and everything nearer than level L is done. */
  ghost predicate Searching(edges: map<UserId, seq<Edge>>, f: TypeFilter, from: UserId, to: UserId, done: set<UserId>,
                            visited: set<UserId>, queue: seq<(UserId, seq<UserId>)>, L: int) {
    from in visited && to !in visited && visited <= Universe(edges, from) &&
    visited == done + QueueNodes(queue) &&
    (forall x :: x in done ==> Succ(edges, f, x) <= visited) &&
    L >= 0 && Queued(edges, f, from, queue, L) && Within(edges, f, from, L - 1) <= done
  }

  /** Taking the head off the queue readies the next turn of the search. */
  lemma PopReady(edges: map<UserId, seq<Edge>>, f: TypeFilter, from: UserId, to: UserId, done: set<UserId>,
                 visited: set<UserId>, queue: seq<(UserId, seq<UserId>)>, L: int,
                 c: UserId, p: seq<UserId>, l: int, rest: seq<(UserId, seq<UserId>)>, done': set<UserId>)
    requires queue != [] && Searching(edges, f, from, to, done, visited, queue, L)
    requires c == queue[0].0 && p == queue[0].1 && l == |p| - 1 && rest == queue[1..] && done' == done + {c}
    ensures l >= 0 && Route(edges, f, from, c, p) && |p| == l + 1 && c in done'
    ensures Frontier(edges, f, from, to, done', c, visited, rest, l)
    ensures Within(edges, f, from, l - 1) <= done'
  {
    PopKeeps(edges, f, from, queue, L, done, visited, l);
    QueuePop(queue);
    PoppedFrontier(edges, f, from, to, done, visited, c, l, rest, done');
  }

  lemma PoppedFrontier(edges: map<UserId, seq<Edge>>, f: TypeFilter, from: UserId, to: UserId, done: set<UserId>,
                       visited: set<UserId>, c: UserId, l: int, rest: seq<(UserId, seq<UserId>)>, done': set<UserId>)
    requires from in visited && to !in visited && visited <= Universe(edges, from)
    requires visited == done + ({c} + QueueNodes(rest)) && done' == done + {c}
    requires forall x :: x in done ==> Succ(edges, f, x) <= visited
    requires l >= 0 && Queued(edges, f, from, rest, l)
    requires Within(edges, f, from, l - 1) <= done && c !in Within(edges, f, from, l - 1)
    ensures Frontier(edges, f, from, to, done', c, visited, rest, l)
  {
    assert visited == done' + QueueNodes(rest);
    if l == 0 {
      assert Within(edges, f, from, l) == {from};
    } else {
      assert Within(edges, f, from, l - 1) <= done - {c};
      Covered(edges, f, from, l - 1, done - {c}, visited);
    }
  }

  /** A fully expanded user rejoins the done set. */
  lemma Expanded(edges: map<UserId, seq<Edge>>, f: TypeFilter, from: UserId, to: UserId, done: set<UserId>,
                 current: UserId, visited: set<UserId>, queue: seq<(UserId, seq<UserId>)>, L: nat)
    requires Frontier(edges, f, from, to, done, current, visited, queue, L)
    requires Succ(edges, f, current) <= visited && Within(edges, f, from, L - 1) <= done
    ensures Searching(edges, f, from, to, done, visited, queue, L)
  {
  }

  /** The search starts with `from` queued. */
  lemma SearchStarts(edges: map<UserId, seq<Edge>>, f: TypeFilter, from: UserId, to: UserId)
    requires from != to
    ensures Searching(edges, f, from, to, {}, {from}, [(from, [from])], 0)
  {
    assert Route(edges, f, from, from, [from]);
    var queue := [(from, [from])];
    assert queue[0].0 == from && QueueNodes(queue) == {from};
  }

  lemma QueuePop(queue: seq<(UserId, seq<UserId>)>)
    requires queue != []
    ensures QueueNodes(queue) == {queue[0].0} + QueueNodes(queue[1..])
  {
    forall x ensures x in QueueNodes(queue) <==> x == queue[0].0 || x in QueueNodes(queue[1..]) {
      if x in QueueNodes(queue) {
        var i :| 0 <= i < |queue| && queue[i].0 == x;
        if i > 0 { assert queue[1..][i - 1].0 == x; }
      }
      if x in QueueNodes(queue[1..]) {
        var i :| 0 <= i < |queue[1..]| && queue[1..][i].0 == x;
        assert queue[i + 1].0 == x;
      }
    }
  }

  /** Growing a subset of `U` shrinks what is left of `U`. */
  lemma Shrinks<T>(U: set<T>, a: set<T>, b: set<T>)
    requires a <= b <= U && a != b
    ensures |U - b| < |U - a|
  {
    var x :| x in b && x !in a;
    SubsetCard(U - b, (U - a) - {x});
  }

  lemma {:induction false} SubsetCard<T>(a: set<T>, b: set<T>)
    requires a <= b
    ensures |a| <= |b|
    decreases |a|
  {
    if a != {} {
      var x :| x in a;
      SubsetCard(a - {x}, b - {x});
    }
  }

  /** A walk to `to` of level L + 1 is shortest when `to` is not within L steps. */
  lemma Shortest(edges: map<UserId, seq<Edge>>, f: TypeFilter, from: UserId, to: UserId, L: nat, route: seq<UserId>)
    requires Route(edges, f, from, to, route) && |route| == L + 2
    requires to !in Within(edges, f, from, L)
    ensures forall p :: Route(edges, f, from, to, p) ==> |route| <= |p|
  {
    forall p | Route(edges, f, from, to, p) ensures |route| <= |p| {
      PathWithin(edges, f, from, p);
      if |p| - 1 <= L { WithinMono(edges, f, from, |p| - 1, L); }
    }
  }

  /** When the search has expanded a closed set without meeting `to`, there is no walk. */
  lemma Unreachable(edges: map<UserId, seq<Edge>>, f: TypeFilter, from: UserId, to: UserId, S: set<UserId>)
    requires from in S && to !in S && forall x :: x in S ==> Succ(edges, f, x) <= S
    ensures forall p :: !Route(edges, f, from, to, p)
  {
    forall p | Route(edges, f, from, to, p) ensures false {
      PathWithin(edges, f, from, p);
      ClosedHoldsWithin(edges, f, from, S, |p| - 1);
    }
  }

  /** What `traverse` has reported so far: each result is the node of a user in `seen`, and
      every user in `seen` with a non-empty node has its node among the results. */
  ghost predicate Reported(nodes: map<UserId, Node>, results: seq<Node>, rids: seq<UserId>, seen: set<UserId>) {
    |rids| == |results| &&
    (forall k :: 0 <= k < |rids| ==> rids[k] in seen && rids[k] in nodes && nodes[rids[k]] != map[] && results[k] == nodes[rids[k]]) &&
    (forall v :: v in seen && v in nodes && nodes[v] != map[] ==> nodes[v] in results)
  }

  /** What `traverse` keeps at the start of level `d` (its loop's d-th turn): `current` is
      within d steps; everyone within d steps is visited or current; a visited user's
      successors are visited or current; everyone visited or current was reported, or is
      `start`; and everyone reported lies between 1 and d steps away. */
  ghost predicate Levelled(edges: map<UserId, seq<Edge>>, f: TypeFilter, start: UserId, d: nat,
                           visited: set<UserId>, current: set<UserId>, seen: set<UserId>) {
    current <= Within(edges, f, start, d) && Within(edges, f, start, d) <= visited + current &&
    (forall y :: y in visited ==> Succ(edges, f, y) <= visited + current) &&
    visited + current <= seen + {start} && seen <= Within(edges, f, start, d) && start !in seen &&
    (d == 0 ==> current == {start} && visited == {}) && (d > 0 ==> start in visited)
  }

  /** `n` is the non-empty node of a user other than `start` within `depth` steps of it. */
  ghost predicate Reached(edges: map<UserId, seq<Edge>>, f: TypeFilter, start: UserId, depth: int, nodes: map<UserId, Node>, n: Node) {
    exists v :: v != start && v in Within(edges, f, start, depth) && v in nodes && nodes[v] != map[] && n == nodes[v]
  }

  /** After the last level, the results are exactly what `Traverse` promises. */
  lemma TraverseMeets(edges: map<UserId, seq<Edge>>, f: TypeFilter, start: UserId, depth: int, d: nat,
                      visited: set<UserId>, current: set<UserId>, seen: set<UserId>,
                      nodes: map<UserId, Node>, results: seq<Node>, rids: seq<UserId>)
    requires Levelled(edges, f, start, d, visited, current, seen) && Reported(nodes, results, rids, seen)
    requires d == depth || (d == 0 && depth < 0)
    ensures forall k :: 0 <= k < |results| ==> Reached(edges, f, start, depth, nodes, results[k])
    ensures forall v :: v != start && v in Within(edges, f, start, depth) && v in nodes && nodes[v] != map[] ==> nodes[v] in results
  {
    if depth < 0 {
      assert seen == {};
    } else {
      forall k | 0 <= k < |results| ensures Reached(edges, f, start, depth, nodes, results[k]) {
        var v := rids[k];
        assert v in seen;
        assert v != start && v in Within(edges, f, start, depth) && v in nodes && nodes[v] != map[] && results[k] == nodes[v];
      }
    }
  }

  /** What holds within `traverse`'s loop over level d once the users of `current` outside
      `rest` have been handled. */
  ghost predicate Visiting(edges: map<UserId, seq<Edge>>, nodes: map<UserId, Node>, f: TypeFilter, start: UserId, d: nat,
                           visited0: set<UserId>, current: set<UserId>, seen0: set<UserId>, rest: set<UserId>,
                           visited: set<UserId>, next: set<UserId>, results: seq<Node>, rids: seq<UserId>, seen: set<UserId>) {
    rest <= current && current - rest <= visited && visited0 <= visited <= visited0 + current &&
    (forall y :: y in visited ==> Succ(edges, f, y) <= visited + current + next) &&
    visited <= seen + {start} && next <= seen && seen0 <= seen &&
    seen <= Within(edges, f, start, d + 1) && start !in seen &&
    (start in visited || rest == current) &&
    Reported(nodes, results, rids, seen)
  }

  /** A user of the level already visited is skipped. */
  lemma LevelSkip(edges: map<UserId, seq<Edge>>, nodes: map<UserId, Node>, f: TypeFilter, start: UserId, d: nat,
                  visited0: set<UserId>, current: set<UserId>, seen0: set<UserId>, rest: set<UserId>,
                  visited: set<UserId>, next: set<UserId>, results: seq<Node>, rids: seq<UserId>, seen: set<UserId>, x: UserId)
    requires Levelled(edges, f, start, d, visited0, current, seen0)
    requires Visiting(edges, nodes, f, start, d, visited0, current, seen0, rest, visited, next, results, rids, seen)
    requires x in rest && x in visited
    ensures Visiting(edges, nodes, f, start, d, visited0, current, seen0, rest - {x}, visited, next, results, rids, seen)
  {
  }

  /** Visiting an unvisited user of the level, as `VisitNode` promises, keeps the loop's facts. */
  lemma LevelVisit(edges: map<UserId, seq<Edge>>, nodes: map<UserId, Node>, f: TypeFilter, start: UserId, d: nat,
                   visited0: set<UserId>, current: set<UserId>, seen0: set<UserId>, rest: set<UserId>,
                   visited: set<UserId>, next: set<UserId>, results: seq<Node>, rids: seq<UserId>, seen: set<UserId>, x: UserId,
                   next': set<UserId>, results': seq<Node>, rids': seq<UserId>, seen': set<UserId>, added: set<UserId>)
    requires Levelled(edges, f, start, d, visited0, current, seen0)
    requires Visiting(edges, nodes, f, start, d, visited0, current, seen0, rest, visited, next, results, rids, seen)
    requires x in rest && x !in visited
    requires next' == next + added && seen' == seen + added
    requires added <= Succ(edges, f, x) && added !! visited + {x}
    requires Succ(edges, f, x) <= visited + {x} + next' && Reported(nodes, results', rids', seen')
    ensures Visiting(edges, nodes, f, start, d, visited0, current, seen0, rest - {x}, visited + {x}, next', results', rids', seen')
  {
    forall y | y in added ensures y in Within(edges, f, start, d + 1) {
      WithinStep(edges, f, start, d, x, y);
    }
  }

  /** Once the whole level is handled, the next level's facts hold. */
  lemma LevelDone(edges: map<UserId, seq<Edge>>, nodes: map<UserId, Node>, f: TypeFilter, start: UserId, d: nat,
                  visited0: set<UserId>, current: set<UserId>, seen0: set<UserId>,
                  visited: set<UserId>, next: set<UserId>, results: seq<Node>, rids: seq<UserId>, seen: set<UserId>)
    requires Levelled(edges, f, start, d, visited0, current, seen0)
    requires Visiting(edges, nodes, f, start, d, visited0, current, seen0, {}, visited, next, results, rids, seen)
    ensures Levelled(edges, f, start, d + 1, visited, next, seen) && Reported(nodes, results, rids, seen)
  {
    Covered(edges, f, start, d, visited, visited + next);
    WithinMono(edges, f, start, d, d + 1);
  }

  // ---------------------------------------------------------------------------------------
  // The store

  /** The graph store, with `ids` recording the order in which `nodes` iterates. */
  class GraphStore {
    var ids: seq<UserId>
    var nodes: map<UserId, Node>
    var edges: map<UserId, seq<Edge>>
    var reverseEdges: map<UserId, seq<Back>>

    ghost function View(): State
      reads this
    {
      State(ids, nodes, edges, reverseEdges)
    }

    ghost predicate Valid()
      reads this
    {
      Good(View())
    }

    constructor ()
      ensures View() == Empty && Valid()
    {
      ids := [];
      nodes := map[];
      edges := map[];
      reverseEdges := map[];
      EmptyGood();
    }

    method CreateUser(u: UserId, data: Node)
      requires Valid()
      modifies this
      ensures View() == CreateStep(old(View()), u, data) && Valid()
    {
      ghost var g := View();
      if u !in nodes {
        ids := ids + [u];
      }
      nodes := nodes[u := data["id" := Str(u)]];
      CreateThenGet(g, u, data);
    }

    method GetUser(u: UserId) returns (r: Option<Node>)
      ensures r == GetUserOf(nodes, u)
    {
      if u in nodes && nodes[u] != map[] {
        r := Some(nodes[u]);
      } else {
        r := None;
      }
    }

    method UpdateUser(u: UserId, data: Node)
      requires Valid()
      modifies this
      ensures View() == UpdateStep(old(View()), u, data) && Valid()
    {
      ghost var g := View();
      if u in nodes {
        nodes := nodes[u := nodes[u] + data];
      }
      UpdateMerges(g, u, data);
    }

    method DeleteUser(u: UserId)
      requires Valid()
      modifies this
      ensures View() == DeleteStep(old(View()), u) && Valid()
    {
      ghost var g := View();
      if u in nodes {
        nodes := nodes - {u};
        ids := Unlisted(ids, u);
      }
      DropOutgoing(u);
      DropIncoming(u);
      DeleteCascade(g, u);
    }

    /** The first loop of `delete_user`. */
    method DropOutgoing(u: UserId)
      modifies this
      ensures View() == CutOut(old(View()), u)
    {
      if u in edges {
        var out := edges[u];
        var i := 0;
        while i < |out|
          invariant 0 <= i <= |out|
          invariant ids == old(ids) && nodes == old(nodes) && edges == old(edges)
          invariant DropBacks(old(reverseEdges), out, u) == DropBacks(reverseEdges, out[i..], u)
        {
          assert out[i..][0] == out[i] && out[i..][1..] == out[i + 1..];
          var to := out[i].to;
          reverseEdges := reverseEdges[to := WithoutFrom(Out(reverseEdges, to), u)];
          i := i + 1;
        }
        assert out[i..] == [];
        edges := edges - {u};
      }
    }

    /** The second loop of `delete_user`. */
    method DropIncoming(u: UserId)
      modifies this
      ensures View() == CutIn(old(View()), u)
    {
      if u in reverseEdges {
        var back := reverseEdges[u];
        var i := 0;
        while i < |back|
          invariant 0 <= i <= |back|
          invariant ids == old(ids) && nodes == old(nodes) && reverseEdges == old(reverseEdges)
          invariant DropEdges(old(edges), back, u) == DropEdges(edges, back[i..], u)
        {
          assert back[i..][0] == back[i] && back[i..][1..] == back[i + 1..];
          var from := back[i].from;
          edges := edges[from := WithoutTo(Out(edges, from), u)];
          i := i + 1;
        }
        assert back[i..] == [];
        reverseEdges := reverseEdges - {u};
      }
    }

    method AddRelationship(a: UserId, b: UserId, t: string)
      requires Valid()
      modifies this
      ensures View() == AddStep(old(View()), a, b, t) && Valid()
    {
      ghost var g := View();
      ghost var g' := AddStep(g, a, b, t);
      AddKeepsLinks(g, a, b, t);
      var out := Out(edges, a);
      edges := edges[a := out];
      var present := HasEdge(out, b, t);
      if !present {
        edges := edges[a := out + [Edge(b, t)]];
        reverseEdges := reverseEdges[b := Out(reverseEdges, b) + [Back(a, t)]];
      }
      assert View() == g';
    }

    /** `get_relationships(u, rel_type)`: `u`'s outgoing relationships in insertion order,
        only those of type `rel_type` unless it is None or "". */
    function GetRelationships(u: UserId, relType: Option<string>): (r: seq<Edge>)
      reads this
      ensures relType.None? || relType.value == "" ==> r == Out(edges, u)
      ensures relType.Some? && relType.value != "" ==> forall e :: e in r <==> e in Out(edges, u) && e.kind == relType.value
      ensures relType.Some? && relType.value != "" ==> r == OfType(Out(edges, u), relType.value)
    {
      if relType.None? || relType.value == "" then Out(edges, u) else OfType(Out(edges, u), relType.value)
    }

    method QueryUsers(filters: seq<(string, Value)>) returns (r: QueryResult)
      ensures r == Query(ids, nodes, filters)
    {
      var found: seq<Node> := [];
      var i := 0;
      while i < |ids|
        invariant 0 <= i <= |ids|
        invariant Query(ids, nodes, filters) == Prefix(found, Query(ids[i..], nodes, filters))
      {
        var u := ids[i];
        assert ids[i..][0] == u && ids[i..][1..] == ids[i + 1..];
        if u in nodes {
          var m := MatchFilters(nodes[u], filters);
          if m.None? {
            return NonStringFilter;
          }
          if m.value {
            found := found + [nodes[u]];
          }
        }
        i := i + 1;
      }
      assert ids[i..] == [];
      r := Found(found);
    }

    /** `traverse(start, rel_type, depth)`: the nodes of the users first met on each of
        `depth` breadth-first levels from `start` along relationships of type `rel_type` (any
        type when None). Sets are iterated in no particular order, so the contract speaks of
        which nodes appear, not their order or how often. */
    method Traverse(start: UserId, relType: Option<string>, depth: int) returns (results: seq<Node>)
      ensures forall k :: 0 <= k < |results| ==> Reached(edges, TraverseFilter(relType), start, depth, nodes, results[k])
      ensures forall v :: (v != start && v in Within(edges, TraverseFilter(relType), start, depth) &&
                           v in nodes && nodes[v] != map[]) ==> nodes[v] in results
    {
      var f := TraverseFilter(relType);
      var visited: set<UserId> := {};
      var current := {start};
      results := [];
      ghost var rids: seq<UserId> := [];
      ghost var seen: set<UserId> := {};
      var d := 0;
      while d < depth
        invariant 0 <= d && (d <= depth || d == 0)
        invariant Levelled(edges, f, start, d, visited, current, seen)
        invariant Reported(nodes, results, rids, seen)
        decreases depth - d
      {
        visited, current, results, rids, seen := TraverseLevel(edges, nodes, f, start, d, visited, current, results, rids, seen);
        d := d + 1;
      }
      TraverseMeets(edges, f, start, depth, d, visited, current, seen, nodes, results, rids);
    }

    /** `shortest_path(from, to, rel_type)`: a breadth-first search that returns a shortest
        walk along admitted relationships, or None when `to` cannot be reached. */
    method ShortestPath(from: UserId, to: UserId, relType: Option<string>) returns (r: Option<seq<UserId>>)
      ensures from == to ==> r == Some([from])
      ensures r.Some? ==> Route(edges, PathFilter(relType), from, to, r.value) &&
                          forall p :: Route(edges, PathFilter(relType), from, to, p) ==> |r.value| <= |p|
      ensures r.None? ==> forall p :: !Route(edges, PathFilter(relType), from, to, p)
    {
      if from == to {
        return Some([from]);
      }
      var f := PathFilter(relType);
      var visited := {from};
      var queue := [(from, [from])];
      ghost var done: set<UserId> := {};
      ghost var L := 0;
      ghost var U := Universe(edges, from);
      SearchStarts(edges, f, from, to);
      while queue != []
        invariant Searching(edges, f, from, to, done, visited, queue, L)
        decreases |U - visited|, |queue|
      {
        var current := queue[0].0;
        var path := queue[0].1;
        var rest := queue[1..];
        ghost var before := visited;
        ghost var l := |path| - 1;
        ghost var done' := done + {current};
        PopReady(edges, f, from, to, done, visited, queue, L, current, path, l, rest, done');
        L, queue, done := l, rest, done';
        r, visited, queue := ExpandSearch(edges, f, from, to, current, path, L, visited, queue, done);
        if r.Some? {
          return;
        }
        Expanded(edges, f, from, to, done, current, visited, queue, L);
        if visited != before {
          Shrinks(U, before, visited);
        }
      }
      Unreachable(edges, f, from, to, visited);
      r := None;
    }
  }

  /** One turn of `traverse`'s level loop: each user of the level not yet visited is
      visited and its admitted relationships followed. */
  method TraverseLevel(edges: map<UserId, seq<Edge>>, nodes: map<UserId, Node>, f: TypeFilter, start: UserId, ghost d: nat,
                       visited0: set<UserId>, current: set<UserId>, results0: seq<Node>, ghost rids0: seq<UserId>, ghost seen0: set<UserId>)
    returns (visited: set<UserId>, next: set<UserId>, results: seq<Node>, ghost rids: seq<UserId>, ghost seen: set<UserId>)
    requires Levelled(edges, f, start, d, visited0, current, seen0) && Reported(nodes, results0, rids0, seen0)
    ensures Levelled(edges, f, start, d + 1, visited, next, seen) && Reported(nodes, results, rids, seen)
  {
    visited, next, results, rids, seen := visited0, {}, results0, rids0, seen0;
    var rest := current;
    while rest != {}
      invariant Visiting(edges, nodes, f, start, d, visited0, current, seen0, rest, visited, next, results, rids, seen)
      decreases |rest|
    {
      var x :| x in rest;
      if x !in visited {
        var next': set<UserId>, results': seq<Node>;
        ghost var rids': seq<UserId>, seen': set<UserId>, added: set<UserId>;
        next', results', rids', seen', added := VisitNode(edges, nodes, f, x, visited + {x}, next, results, rids, seen);
        LevelVisit(edges, nodes, f, start, d, visited0, current, seen0, rest, visited, next, results, rids, seen,
                   x, next', results', rids', seen', added);
        visited, next, results, rids, seen := visited + {x}, next', results', rids', seen';
      } else {
        LevelSkip(edges, nodes, f, start, d, visited0, current, seen0, rest, visited, next, results, rids, seen, x);
      }
      rest := rest - {x};
    }
    LevelDone(edges, nodes, f, start, d, visited0, current, seen0, visited, next, results, rids, seen);
  }

  /** The relationship loop of `traverse` for one visited user `x`. */
  method VisitNode(edges: map<UserId, seq<Edge>>, nodes: map<UserId, Node>, f: TypeFilter, x: UserId, visited: set<UserId>, next0: set<UserId>,
                   results0: seq<Node>, ghost rids0: seq<UserId>, ghost seen0: set<UserId>)
    returns (next: set<UserId>, results: seq<Node>, ghost rids: seq<UserId>, ghost seen: set<UserId>, ghost added: set<UserId>)
    requires Reported(nodes, results0, rids0, seen0)
    ensures next == next0 + added && seen == seen0 + added
    ensures added <= Succ(edges, f, x) && added !! visited
    ensures Succ(edges, f, x) <= visited + next
    ensures Reported(nodes, results, rids, seen)
  {
    next, results, rids, seen, added := next0, results0, rids0, seen0, {};
    var out := Out(edges, x);
    var j := 0;
    while j < |out|
      invariant 0 <= j <= |out|
      invariant next == next0 + added && seen == seen0 + added
      invariant added <= Succ(edges, f, x) && added !! visited
      invariant forall e :: e in out[..j] && Admits(f, e.kind) ==> e.to in visited + next
      invariant Reported(nodes, results, rids, seen)
    {
      if Admits(f, out[j].kind) {
        var to := out[j].to;
        assert to in Succ(edges, f, x);
        if to !in visited {
          next := next + {to};
          seen := seen + {to};
          added := added + {to};
          var node := GetUserOf(nodes, to);
          if node.Some? {
            results := results + [node.value];
            rids := rids + [to];
          }
        }
      }
      assert out[..j + 1] == out[..j] + [out[j]];
      j := j + 1;
    }
    assert out[..j] == out;
    forall y | y in Succ(edges, f, x) ensures y in visited + next {
      var e :| e in out && Admits(f, e.kind) && e.to == y;
    }
  }

  /** One turn of `shortest_path`'s loop: the admitted relationships of the user just
      taken off the queue, in order; returns the walk when one reaches `to`. */
  method ExpandSearch(edges: map<UserId, seq<Edge>>, f: TypeFilter, from: UserId, to: UserId, current: UserId,
                      path: seq<UserId>, ghost L: nat, visited0: set<UserId>, queue0: seq<(UserId, seq<UserId>)>, ghost done: set<UserId>)
    returns (found: Option<seq<UserId>>, visited: set<UserId>, queue: seq<(UserId, seq<UserId>)>)
    requires Route(edges, f, from, current, path) && |path| == L + 1 && current in done
    requires Frontier(edges, f, from, to, done, current, visited0, queue0, L)
    ensures found.Some? ==> Route(edges, f, from, to, found.value) &&
                            forall p :: Route(edges, f, from, to, p) ==> |found.value| <= |p|
    ensures found.None? ==> Frontier(edges, f, from, to, done, current, visited, queue, L) &&
                            Succ(edges, f, current) <= visited && visited0 <= visited &&
                            (visited == visited0 ==> queue == queue0)
  {
    visited, queue := visited0, queue0;
    var out := Out(edges, current);
    var j := 0;
    while j < |out|
      invariant Expanding(edges, f, from, to, done, current, path, L, j, visited0, queue0, visited, queue)
      decreases |out| - j
    {
      var e := out[j];
      if !Admits(f, e.kind) {
        ExpandSkip(edges, f, from, to, done, current, path, L, j, visited0, queue0, visited, queue);
      } else if e.to == to {
        ExpandMeets(edges, f, from, to, done, current, path, L, j, visited0, queue0, visited, queue);
        return Some(path + [e.to]), visited, queue;
      } else if e.to !in visited {
        ExpandAdd(edges, f, from, to, done, current, path, L, j, visited0, queue0, visited, queue);
        visited := visited + {e.to};
        queue := queue + [(e.to, path + [e.to])];
      } else {
        ExpandSkip(edges, f, from, to, done, current, path, L, j, visited0, queue0, visited, queue);
      }
      j := j + 1;
    }
    ExpandDone(edges, f, from, to, done, current, path, L, visited0, queue0, visited, queue);
    found := None;
  }

  /** The duplicate check of `add_relationship`: scans for an edge to `b` of type `t`. */
  method HasEdge(out: seq<Edge>, b: UserId, t: string) returns (present: bool)
    ensures present <==> Edge(b, t) in out
  {
    var i := 0;
    while i < |out|
      invariant 0 <= i <= |out|
      invariant Edge(b, t) !in out[..i]
    {
      if out[i].to == b && out[i].kind == t {
        assert out[i] == Edge(b, t);
        return true;
      }
      assert out[..i + 1] == out[..i] + [out[i]];
      i := i + 1;
    }
    assert out[..i] == out;
    present := false;
  }

  /** The filter loop of `query_users` for one node. */
  method MatchFilters(node: Node, filters: seq<(string, Value)>) returns (m: Option<bool>)
    ensures m == Matches(node, filters)
  {
    var j := 0;
    while j < |filters|
      invariant 0 <= j <= |filters|
      invariant Matches(node, filters) == Matches(node, filters[j..])
    {
      assert filters[j..][0] == filters[j] && filters[j..][1..] == filters[j + 1..];
      var key := filters[j].0;
      var value := filters[j].1;
      if key !in node {
        return Some(false);
      }
      var nodeValue := node[key];
      if nodeValue.Str? {
        if !value.Str? {
          return None;
        }
        if !Contains(Mapper.Lower(nodeValue.s), Mapper.Lower(value.s)) {
          return Some(false);
        }
      } else if Text(nodeValue) != Text(value) {
        return Some(false);
      }
      j := j + 1;
    }
    m := Some(true);
  }
}
