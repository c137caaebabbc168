/** The LSM tree of the storage engine: writes go to a memtable; a full memtable is frozen
    and flushed to a new SSTable; reads look in the memtable, then the frozen memtable,
    then the SSTables newest first. A flushed SSTable is modelled as the sorted map it
    holds. */
module LSM {
  import opened Common
  import opened Ordering
  import SSTableIndex

  /** A memtable: a key's value, or None for a tombstone. */
  type Memtable = map<string, Option<string>>

  /** A flushed SSTable, as the map of its records. */
  type Table = map<string, string>

  /** The sparse interval `_flush_to_sstable` builds with (the default of
      `build_from_records`). */
  const FlushInterval: int := 100

  /** `start_key <= k <= end_key`. */
  predicate InBounds(lo: string, k: string, hi: string)
  {
    StrLe(lo, k) && StrLe(k, hi)
  }

  /** The value of `key` in the newest table that has it. */
  function Newest(tables: seq<Table>, key: string): (r: Option<string>)
    ensures r.Some? ==> exists i :: 0 <= i < |tables| && key in tables[i] && tables[i][key] == r.value &&
                                    forall j :: i < j < |tables| ==> key !in tables[j]
    ensures r.None? ==> forall i :: 0 <= i < |tables| ==> key !in tables[i]
  {
    if |tables| == 0 then None
    else if key in tables[|tables| - 1] then Some(tables[|tables| - 1][key])
    else
      var r := Newest(tables[..|tables| - 1], key);
      assert forall i :: 0 <= i < |tables| - 1 ==> tables[..|tables| - 1][i] == tables[i];
      r
  }

  /** The value of `key` in the earliest-listed table that has it. */
  function Earliest(tables: seq<Table>, key: string): (r: Option<string>)
    ensures r.Some? ==> exists i :: 0 <= i < |tables| && key in tables[i] && tables[i][key] == r.value &&
                                    forall j :: 0 <= j < i ==> key !in tables[j]
    ensures r.None? ==> forall i :: 0 <= i < |tables| ==> key !in tables[i]
  {
    if |tables| == 0 then None
    else if key in tables[0] then Some(tables[0][key])
    else
      var r := Earliest(tables[1..], key);
      assert forall i :: 1 <= i < |tables| ==> tables[1..][i - 1] == tables[i];
      r
  }

  /** The memtable shadows the frozen memtable, which shadows what the tables give; a
      tombstone met on the way answers None. */
  function Shadowed(memtable: Memtable, immutable: Memtable, fromTables: Option<string>, key: string): Option<string>
  {
    if key in memtable then memtable[key]
    else if key in immutable then immutable[key]
    else fromTables
  }

  /** What `get(key)` answers: the memtable, then the frozen memtable, then the tables
      newest first. */
  function Resolve(memtable: Memtable, immutable: Memtable, tables: seq<Table>, key: string): Option<string>
  {
    Shadowed(memtable, immutable, Newest(tables, key), key)
  }

  /** The records of a memtable that carry a value. */
  function Live(m: Memtable): (t: Table)
    ensures forall k :: k in t <==> k in m && m[k].Some?
    ensures forall k :: k in t ==> m[k] == Some(t[k])
  {
    map k | k in m && m[k].Some? :: m[k].value
  }

  /** No record of the memtable is a tombstone. */
  predicate NoTombstone(m: Memtable)
  {
    forall k :: k in m ==> m[k].Some?
  }

  /** A memtable without tombstones flushed to a new newest table answers every key as
      before. */
  lemma FlushKeeps(memtable: Memtable, tables: seq<Table>, key: string)
    requires NoTombstone(memtable)
    ensures Resolve(map[], map[], tables + [Live(memtable)], key) == Resolve(memtable, map[], tables, key)
  {
    assert (tables + [Live(memtable)])[..|tables|] == tables;
  }

  /** A memtable frozen but not flushed answers every key as before. */
  lemma FreezeKeeps(memtable: Memtable, tables: seq<Table>, key: string)
    ensures Resolve(map[], memtable, tables, key) == Resolve(memtable, map[], tables, key)
  {
  }

  /** A write answers its own key with the value written and no other key differently. */
  lemma PutResolves(memtable: Memtable, immutable: Memtable, tables: seq<Table>, key: string, value: Option<string>, k: string)
    ensures Resolve(memtable[key := value], immutable, tables, k) ==
      if k == key then value else Resolve(memtable, immutable, tables, k)
  {
  }

  /** Pairs with strictly ascending keys. */
  predicate SortedPairs(r: seq<(string, string)>)
  {
    forall i, j :: 0 <= i < j < |r| ==> StrLt(r[i].0, r[j].0)
  }

  /** `range_query` as written keeps, among the tables, the value of the earliest-listed
      one: where an older and a newer table both hold `"a"`, the range query reports the
      older value while `get` reports the newer. */
  lemma RangeQueryDisagrees()
    ensures var tables := [map["a" := "1"], map["a" := "2"]];
      Shadowed(map[], map[], Earliest(tables, "a"), "a") == Some("1") &&
      Resolve(map[], map[], tables, "a") == Some("2")
  {
    var tables := [map["a" := "1"], map["a" := "2"]];
    assert tables[..1] == [map["a" := "1"]];
  }

  class LSMTree {
    const memtableSize: int
    var memtable: Memtable
    /** The frozen memtable; the empty map stands for `None`. */
    var immutable: Memtable
    /** The flushed SSTables, oldest first. */
    var tables: seq<Table>

    /** `LSMTree(data_dir, memtable_size)` */
    constructor (memtableSize: int)
      ensures this.memtableSize == memtableSize
      ensures memtable == map[] && immutable == map[] && tables == []
    {
      this.memtableSize := memtableSize;
      memtable := map[];
      immutable := map[];
      tables := [];
    }

    /** `put(key, value)`: the key answers `value` from then on, whatever the flush
        does; a key the write did not touch answers as before unless a freeze drops a
        frozen memtable left over from a failed flush. The flush fails (encoding a
        tombstone's value raises) exactly when the frozen memtable holds a tombstone. */
    method Put(key: string, value: Option<string>) returns (ok: bool)
      modifies this
      ensures memtableSize > 0 ==> |memtable| < memtableSize
      ensures Resolve(memtable, immutable, tables, key) == value
      ensures old(immutable) == map[] || |old(memtable)[key := value]| < memtableSize ==>
        forall k :: k != key ==> Resolve(memtable, immutable, tables, k) == old(Resolve(memtable, immutable, tables, k))
      ensures var m := old(memtable)[key := value];
        if |m| < memtableSize then ok && memtable == m && immutable == old(immutable) && tables == old(tables)
        else memtable == map[] && ok == NoTombstone(m) &&
             (if ok then immutable == map[] && tables == old(tables) + [Live(m)]
              else immutable == m && tables == old(tables))
    {
      memtable := memtable[key := value];
      ok := true;
      if |memtable| >= memtableSize {
        ghost var m := memtable;
        ok := FreezeMemtable();
        forall k
          ensures Resolve(memtable, immutable, tables, k) == Resolve(m, map[], old(tables), k)
        {
          if ok {
            FlushKeeps(m, old(tables), k);
          } else {
            FreezeKeeps(m, old(tables), k);
          }
        }
      }
      forall k
        ensures Resolve(old(memtable)[key := value], old(immutable), old(tables), k) ==
          if k == key then value else Resolve(old(memtable), old(immutable), old(tables), k)
      {
        PutResolves(old(memtable), old(immutable), old(tables), key, value, k);
      }
    }

    /** `_freeze_memtable`: the memtable becomes the frozen one, a new empty one takes
        its place, and the frozen one is flushed. */
    method FreezeMemtable() returns (ok: bool)
      modifies this
      ensures memtable == map[]
      ensures var m := old(memtable);
        if m == map[] then ok && immutable == map[] && tables == old(tables)
        else ok == NoTombstone(m) &&
             (if ok then immutable == map[] && tables == old(tables) + [Live(m)]
              else immutable == m && tables == old(tables))
    {
      immutable := memtable;
      memtable := map[];
      ok := FlushToSSTable();
    }

    /** `_flush_to_sstable`: nothing happens with no frozen records; otherwise an SSTable
        is built from them and appended, and the frozen memtable cleared. The build
        raises at the first tombstone in key order; the table is then not appended and
        the frozen memtable stays. */
    method FlushToSSTable() returns (ok: bool)
      modifies this
      ensures memtable == old(memtable)
      ensures var m := old(immutable);
        if m == map[] then ok && immutable == m && tables == old(tables)
        else ok == NoTombstone(m) &&
             (if ok then immutable == map[] && tables == old(tables) + [Live(m)]
              else immutable == m && tables == old(tables))
    {
      if immutable == map[] {
        return true;
      }
      ok := Build(immutable);
      if ok {
        tables := tables + [Live(immutable)];
        immutable := map[];
      }
    }

    /** `SSTableIndex(path).build_from_records(records)`: it gets through exactly when
        no record is a tombstone. */
    static method Build(records: Memtable) returns (ok: bool)
      ensures ok == NoTombstone(records)
    {
      var sstable := new SSTableIndex.SSTable();
      ok := sstable.BuildFromRecords(records, FlushInterval);
      SSTableIndex.BuildSucceeds(records, FlushInterval);
    }

    /** `get(key)`: the memtable, then the frozen memtable, then the SSTables newest
        first. */
    method Get(key: string) returns (r: Option<string>)
      ensures r == Resolve(memtable, immutable, tables, key)
    {
      if key in memtable {
        return memtable[key];
      }
      if immutable != map[] && key in immutable {
        return immutable[key];
      }
      var i := |tables|;
      while i > 0
        invariant 0 <= i <= |tables|
        invariant Newest(tables, key) == Newest(tables[..i], key)
        decreases i
      {
        i := i - 1;
        assert tables[..i + 1][..i] == tables[..i];
        if key in tables[i] {
          return Some(tables[i][key]);
        }
      }
      return None;
    }

    /** `delete(key)` is `put(key, None)`: the key answers None from then on. */
    method Delete(key: string) returns (ok: bool)
      modifies this
      ensures memtableSize > 0 ==> |memtable| < memtableSize
      ensures Resolve(memtable, immutable, tables, key) == None
      ensures old(immutable) == map[] || |old(memtable)[key := None]| < memtableSize ==>
        forall k :: k != key ==> Resolve(memtable, immutable, tables, k) == old(Resolve(memtable, immutable, tables, k))
    {
      ok := Put(key, None);
    }

    /** `range_query(start_key, end_key)` as written: the keys in range in ascending
        order with the values that are not tombstones, the memtable shadowing the frozen
        memtable, which shadows the tables; among the tables the earliest-listed wins. */
    method RangeQuery(lo: string, hi: string) returns (r: seq<(string, string)>)
      ensures SortedPairs(r)
      ensures forall k, v :: (k, v) in r <==>
        InBounds(lo, k, hi) && Shadowed(memtable, immutable, Earliest(tables, k), k) == Some(v)
    {
      var results := FromTables(tables, lo, hi, false);
      if immutable != map[] {
        results := Overlay(results, immutable, lo, hi);
      }
      results := Overlay(results, memtable, lo, hi);
      r := LiveSorted(results);
    }

    /** `range_query` with the tables visited newest first, so every key it reports has
        the value `get` answers. */
    method RangeQueryFixed(lo: string, hi: string) returns (r: seq<(string, string)>)
      ensures SortedPairs(r)
      ensures forall k, v :: (k, v) in r <==> InBounds(lo, k, hi) && Resolve(memtable, immutable, tables, k) == Some(v)
    {
      var results := FromTables(tables, lo, hi, true);
      if immutable != map[] {
        results := Overlay(results, immutable, lo, hi);
      }
      results := Overlay(results, memtable, lo, hi);
      r := LiveSorted(results);
    }

    /** The table loop of `range_query`: each table's records in range, a key keeping
        the value of the first table visited that has it; the tables are visited in list
        order, or newest first where `newestFirst`. */
    static method FromTables(tables: seq<Table>, lo: string, hi: string, newestFirst: bool) returns (results: Memtable)
      ensures forall k :: k in results <==> InBounds(lo, k, hi) && Newest(tables, k).Some?
      ensures forall k :: k in results ==> results[k] == if newestFirst then Newest(tables, k) else Earliest(tables, k)
    {
      var order := if newestFirst then Reversed(tables) else tables;
      results := Collect(order, lo, hi);
      forall k
        ensures Earliest(order, k) == if newestFirst then Newest(tables, k) else Earliest(tables, k)
      {
        if newestFirst {
          EarliestReversed(tables, k);
        }
      }
    }

    /** The table loop over the tables in the order visited: a key keeps the value of the
        first table that has it. */
    static method Collect(order: seq<Table>, lo: string, hi: string) returns (results: Memtable)
      ensures forall k :: k in results <==> InBounds(lo, k, hi) && Earliest(order, k).Some?
      ensures forall k :: k in results ==> results[k] == Earliest(order, k)
    {
      results := map[];
      var n := 0;
      while n < |order|
        invariant 0 <= n <= |order|
        invariant forall k :: k in results <==> InBounds(lo, k, hi) && Earliest(order[..n], k).Some?
        invariant forall k :: k in results ==> results[k] == Earliest(order[..n], k)
      {
        ghost var before := results;
        results := AddTable(results, order[n], lo, hi);
        VisitStep(order, n, lo, hi, before, results);
        n := n + 1;
      }
      assert order[..n] == order;
    }

    /** One table of the table loop: each of its keys in range that no table visited
        before had takes its value. */
    static method AddTable(results: Memtable, t: Table, lo: string, hi: string) returns (r: Memtable)
      ensures forall k :: k in r <==> k in results || (k in t && InBounds(lo, k, hi))
      ensures forall k :: k in r ==> r[k] == if k in results then results[k] else Some(t[k])
    {
      r := results;
      var ks := SortedKeys(t);
      var j := 0;
      while j < |ks|
        invariant 0 <= j <= |ks|
        invariant forall k :: k in r <==> k in results || (k in ks[..j] && InBounds(lo, k, hi))
        invariant forall k :: k in r ==> r[k] == if k in results then results[k] else Some(t[k])
      {
        var k := ks[j];
        if InBounds(lo, k, hi) && k !in r {
          r := r[k := Some(t[k])];
        }
        assert ks[..j + 1] == ks[..j] + [k];
        j := j + 1;
      }
      assert ks[..j] == ks;
    }

    /** The frozen memtable's or the memtable's loop: each of their keys in range takes
        their value, tombstones included. */
    static method Overlay(results: Memtable, m: Memtable, lo: string, hi: string) returns (r: Memtable)
      ensures forall k :: k in r <==> k in results || (k in m && InBounds(lo, k, hi))
      ensures forall k :: k in r ==> r[k] == if k in m && InBounds(lo, k, hi) then m[k] else results[k]
    {
      r := results;
      var rest := m.Keys;
      while rest != {}
        invariant rest <= m.Keys
        invariant forall k :: k in r <==> k in results || (k in m && k !in rest && InBounds(lo, k, hi))
        invariant forall k :: k in r ==> r[k] == if k in m && k !in rest && InBounds(lo, k, hi) then m[k] else results[k]
        decreases |rest|
      {
        var k :| k in rest;
        if InBounds(lo, k, hi) {
          r := r[k := m[k]];
        }
        rest := rest - {k};
      }
    }

    /** `[(k, v) for k, v in sorted(results.items()) if v is not None]` */
    static method LiveSorted(results: Memtable) returns (r: seq<(string, string)>)
      ensures SortedPairs(r)
      ensures forall k, v :: (k, v) in r <==> k in results && results[k] == Some(v)
    {
      var ks := SortedKeys(results);
      r := [];
      var i := 0;
      while i < |ks|
        invariant 0 <= i <= |ks|
        invariant r == LivePairs(results, ks[..i])
      {
        var k := ks[i];
        assert ks[..i + 1][..i] == ks[..i];
        if results[k].Some? {
          r := r + [(k, results[k].value)];
        }
        i := i + 1;
      }
      assert ks[..i] == ks;
      LivePairsMembers(results, ks);
      LivePairsSorted(results, ks);
    }
  }

  /** The pairs of `results` with a value, in the order of `ks`. */
  function LivePairs(results: Memtable, ks: seq<string>): seq<(string, string)>
    requires forall k :: k in ks ==> k in results
  {
    if |ks| == 0 then []
    else
      var k := ks[|ks| - 1];
      LivePairs(results, ks[..|ks| - 1]) + if results[k].Some? then [(k, results[k].value)] else []
  }

  lemma {:induction false} LivePairsMembers(results: Memtable, ks: seq<string>)
    requires forall k :: k in ks ==> k in results
    ensures forall k, v :: (k, v) in LivePairs(results, ks) <==> k in ks && results[k] == Some(v)
  {
    if |ks| > 0 {
      var init := ks[..|ks| - 1];
      LivePairsMembers(results, init);
      assert ks == init + [ks[|ks| - 1]];
    }
  }

  lemma {:induction false} LivePairsSorted(results: Memtable, ks: seq<string>)
    requires forall k :: k in ks ==> k in results
    requires SortedStrict(ks)
    ensures SortedPairs(LivePairs(results, ks))
    ensures forall p :: p in LivePairs(results, ks) ==> p.0 in ks
  {
    if |ks| > 0 {
      var init := ks[..|ks| - 1];
      var last := ks[|ks| - 1];
      LivePairsSorted(results, init);
      var r := LivePairs(results, init);
      forall a | 0 <= a < |r|
        ensures StrLt(r[a].0, last)
      {
        assert r[a] in r;
        var j :| 0 <= j < |init| && init[j] == r[a].0;
      }
      assert ks == init + [last];
    }
  }

  /** The tables newest first. */
  function Reversed(s: seq<Table>): (r: seq<Table>)
    ensures |r| == |s| && forall i :: 0 <= i < |s| ==> r[i] == s[|s| - 1 - i]
  {
    if |s| == 0 then [] else [s[|s| - 1]] + Reversed(s[..|s| - 1])
  }

  /** Earliest over the reversed tables is Newest. */
  lemma {:induction false} EarliestReversed(tables: seq<Table>, key: string)
    ensures Earliest(Reversed(tables), key) == Newest(tables, key)
  {
    var r := Reversed(tables);
    var e := Earliest(r, key);
    var w := Newest(tables, key);
    if e.Some? {
      var i :| 0 <= i < |r| && key in r[i] && r[i][key] == e.value && forall j :: 0 <= j < i ==> key !in r[j];
      var p := |tables| - 1 - i;
      assert forall j :: p < j < |tables| ==> key !in tables[j] by {
        forall j | p < j < |tables| ensures key !in tables[j] {
          assert r[|tables| - 1 - j] == tables[j];
        }
      }
      assert r[i] == tables[p];
      NewestAt(tables, key, p);
    } else {
      forall i | 0 <= i < |tables| ensures key !in tables[i] {
        assert r[|tables| - 1 - i] == tables[i];
      }
      NewestAbsent(tables, key);
    }
  }

  /** No table has the key: Newest answers None. */
  lemma {:induction false} NewestAbsent(tables: seq<Table>, key: string)
    requires forall i :: 0 <= i < |tables| ==> key !in tables[i]
    ensures Newest(tables, key).None?
  {
    if |tables| > 0 {
      NewestAbsent(tables[..|tables| - 1], key);
    }
  }

  /** The newest table that has the key answers Newest. */
  lemma {:induction false} NewestAt(tables: seq<Table>, key: string, p: nat)
    requires p < |tables| && key in tables[p] && forall j :: p < j < |tables| ==> key !in tables[j]
    ensures Newest(tables, key) == Some(tables[p][key])
    decreases |tables|
  {
    if p < |tables| - 1 {
      NewestAt(tables[..|tables| - 1], key, p);
    }
  }

  /** Newest and Earliest agree on which keys the tables have. */
  lemma EarliestSome(tables: seq<Table>, key: string)
    ensures Earliest(tables, key).Some? <==> Newest(tables, key).Some?
  {
  }

  /** One more table visited. */
  lemma VisitStep(order: seq<Table>, n: nat, lo: string, hi: string, before: Memtable, results: Memtable)
    requires n < |order|
    requires forall k :: k in before <==> InBounds(lo, k, hi) && Earliest(order[..n], k).Some?
    requires forall k :: k in before ==> before[k] == Earliest(order[..n], k)
    requires forall k :: k in results <==> k in before || (k in order[n] && InBounds(lo, k, hi))
    requires forall k :: k in results ==> results[k] == if k in before then before[k] else Some(order[n][k])
    ensures forall k :: k in results <==> InBounds(lo, k, hi) && Earliest(order[..n + 1], k).Some?
    ensures forall k :: k in results ==> results[k] == Earliest(order[..n + 1], k)
  {
    assert order[..n + 1] == order[..n] + [order[n]];
    forall k
      ensures Earliest(order[..n] + [order[n]], k) ==
        if Earliest(order[..n], k).Some? then Earliest(order[..n], k) else if k in order[n] then Some(order[n][k]) else None
    {
      EarliestSnoc(order[..n], order[n], k);
    }
  }

  /** Earliest over a list with one more table at the end. */
  lemma {:induction false} EarliestSnoc(v: seq<Table>, t: Table, k: string)
    ensures Earliest(v + [t], k) == if Earliest(v, k).Some? then Earliest(v, k) else if k in t then Some(t[k]) else None
    decreases |v|
  {
    if |v| > 0 {
      assert (v + [t])[1..] == v[1..] + [t];
      EarliestSnoc(v[1..], t, k);
    }
  }
}
