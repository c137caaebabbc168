/** The SSTable of the storage engine: records written in ascending key order with a
    sparse index of every `interval`-th record, point lookups through the sparse index and
    range scans. A record's position in the table stands for its byte offset in the data
    file. */
module SSTableIndex {
  import opened Common
  import opened Ordering

  /** The records of the data file, in file order. */
  type Rows = seq<(string, string)>

  /** The sparse index: a key and the position of its record. */
  type Sparse = seq<(string, nat)>

  /** Keys strictly ascending along the rows. */
  predicate SortedRows(data: Rows)
  {
    forall i, j :: 0 <= i < j < |data| ==> StrLt(data[i].0, data[j].0)
  }

  // ---------------------------------------------------------------------------------------
  // build_from_records

  /** What `build_from_records` has written after the keys `ks`, in order: the rows, the
      sparse entries it appended, and whether it got so far. It stops at a key whose value
      is None (`.encode` on None raises) and, when `interval` is 0, at the first record
      (`count % interval` raises); what was written before stays written. */
  function Build(records: map<string, Option<string>>, ks: seq<string>, interval: int): (r: (Rows, Sparse, bool))
    requires forall k :: k in ks ==> k in records
    ensures |r.0| <= |ks|
  {
    if |ks| == 0 then ([], [], true)
    else
      var (data, sparse, ok) := Build(records, ks[..|ks| - 1], interval);
      var k := ks[|ks| - 1];
      if !ok || records[k].None? || interval == 0 then (data, sparse, false)
      else
        (data + [(k, records[k].value)],
         if |data| % interval == 0 then sparse + [(k, |data|)] else sparse,
         true)
  }

  /** A build of strictly ascending keys that got through: one row per key, in key order,
      with its value, and a sparse entry exactly at the positions divisible by `interval`. */
  lemma {:induction false} BuildRows(records: map<string, Option<string>>, ks: seq<string>, interval: int)
    requires forall k :: k in ks ==> k in records
    requires SortedStrict(ks) && Build(records, ks, interval).2
    ensures var (data, sparse, _) := Build(records, ks, interval);
      |data| == |ks| &&
      (forall p :: 0 <= p < |ks| ==> records[ks[p]].Some? && data[p] == (ks[p], records[ks[p]].value)) &&
      (interval != 0 ==> Sampled(data, sparse, interval))
  {
    BuildLive(records, ks, interval);
    if |ks| > 0 {
      var init := ks[..|ks| - 1];
      assert SortedStrict(init);
      BuildRows(records, init, interval);
      var (d, s, _) := Build(records, init, interval);
      var (data, sparse, _) := Build(records, ks, interval);
      assert data == d + [(ks[|ks| - 1], records[ks[|ks| - 1]].value)];
      SampledSnoc(d, s, interval, data, sparse);
    }
  }

  /** The sparse entries are the rows at the positions divisible by `interval`, in order. */
  predicate Sampled(data: Rows, sparse: Sparse, interval: int)
  {
    interval != 0 &&
    (forall i :: 0 <= i < |sparse| ==>
       sparse[i].1 < |data| && sparse[i].1 % interval == 0 && sparse[i].0 == data[sparse[i].1].0) &&
    (forall i, j :: 0 <= i < j < |sparse| ==> sparse[i].1 < sparse[j].1) &&
    (forall p :: 0 <= p < |data| && p % interval == 0 ==> exists i :: 0 <= i < |sparse| && sparse[i].1 == p)
  }

  lemma SampledSnoc(d: Rows, s: Sparse, interval: int, data: Rows, sparse: Sparse)
    requires Sampled(d, s, interval) || (d == [] && s == [] && interval != 0)
    requires |data| == |d| + 1 && data[..|d|] == d
    requires sparse == if |d| % interval == 0 then s + [(data[|d|].0, |d|)] else s
    ensures Sampled(data, sparse, interval)
  {
    forall p | 0 <= p < |data| && p % interval == 0
      ensures exists i :: 0 <= i < |sparse| && sparse[i].1 == p
    {
      if p < |d| {
        var i :| 0 <= i < |s| && s[i].1 == p;
        assert sparse[i] == s[i];
      } else {
        assert sparse[|s|].1 == p;
      }
    }
    forall i | 0 <= i < |sparse|
      ensures sparse[i].1 < |data| && sparse[i].1 % interval == 0 && sparse[i].0 == data[sparse[i].1].0
    {
      if i < |s| {
        assert data[s[i].1] == d[s[i].1];
      }
    }
  }

  /** A table whose build got through has strictly sorted rows and a sampled sparse index,
      and it holds exactly the records' key-value pairs. */
  lemma BuildTable(records: map<string, Option<string>>, interval: int)
    requires Build(records, SortedKeysOf(records), interval).2
    ensures var (data, sparse, _) := Build(records, SortedKeysOf(records), interval);
      SortedRows(data) && (interval != 0 ==> Sampled(data, sparse, interval)) &&
      forall k, v :: (k, v) in data <==> k in records && records[k] == Some(v)
  {
    var ks := SortedKeysOf(records);
    BuildRows(records, ks, interval);
    BuildLive(records, ks, interval);
    var (data, sparse, _) := Build(records, ks, interval);
    forall k, v
      ensures (k, v) in data <==> k in records && records[k] == Some(v)
    {
      if k in records && records[k] == Some(v) {
        var p :| 0 <= p < |ks| && ks[p] == k;
        assert data[p] == (k, v);
      }
    }
  }

  /** The build gets through exactly when no value is None and, for a non-empty map, the
      interval is not 0. */
  lemma {:induction false} BuildLive(records: map<string, Option<string>>, ks: seq<string>, interval: int)
    requires forall k :: k in ks ==> k in records
    ensures Build(records, ks, interval).2 <==>
      (|ks| == 0 || interval != 0) && forall j :: 0 <= j < |ks| ==> records[ks[j]].Some?
  {
    if |ks| > 0 {
      var init := ks[..|ks| - 1];
      BuildLive(records, init, interval);
      assert forall j :: 0 <= j < |init| ==> init[j] == ks[j];
    }
  }

  /** `build_from_records` gets through exactly when no value is None and, for a non-empty
      map, the interval is not 0. */
  lemma BuildSucceeds(records: map<string, Option<string>>, interval: int)
    ensures Build(records, SortedKeysOf(records), interval).2 <==>
      (records == map[] || interval != 0) && forall k :: k in records ==> records[k].Some?
  {
    var ks := SortedKeysOf(records);
    BuildLive(records, ks, interval);
    if forall j :: 0 <= j < |ks| ==> records[ks[j]].Some? {
      forall k | k in records ensures records[k].Some? {
        var j :| 0 <= j < |ks| && ks[j] == k;
      }
    }
    if records != map[] {
      var k :| k in records;
      assert k in ks;
    }
  }

  // ---------------------------------------------------------------------------------------
  // get

  /** `bisect_right(sparse_index, (key,))`: on a list of `(k, offset)` pairs ascending by
      key, the number of entries whose key is strictly below `key` (an entry with key `key`
      sorts after the 1-tuple `(key,)`). */
  function PairsBelow(sparse: Sparse, key: string): (n: nat)
    ensures n <= |sparse|
    ensures forall j :: 0 <= j < n ==> StrLt(sparse[j].0, key)
    ensures n < |sparse| ==> !StrLt(sparse[n].0, key)
  {
    if |sparse| == 0 || !StrLt(sparse[0].0, key) then 0 else 1 + PairsBelow(sparse[1..], key)
  }

  /** The scan from position `p` up to `end`: the value at the first row whose key is `key`,
      None at the first row whose key is above `key`, and None at `end` or the end of the
      data. */
  function ScanFrom(data: Rows, p: nat, end: int, key: string): (r: Option<string>)
    decreases |data| - p
  {
    if p >= end || p >= |data| then None
    else if data[p].0 == key then Some(data[p].1)
    else if StrLt(key, data[p].0) then None
    else ScanFrom(data, p + 1, end, key)
  }

  /** The scan window of `get` for sparse index position `idx` (-1 for none): from the
      entry's record, or the start, to the next entry's record, or the end of the data. */
  function Window(data: Rows, sparse: Sparse, idx: int): (w: (nat, int))
    requires -1 <= idx < |sparse|
  {
    (if idx < 0 then 0 else sparse[idx].1,
     if idx + 1 < |sparse| then sparse[idx + 1].1 else |data|)
  }

  /** `get(key)` as written: None with no sparse index; otherwise the scan of the window
      before the first sparse entry whose key is not below `key`. */
  function Lookup(data: Rows, sparse: Sparse, key: string): Option<string>
  {
    if |sparse| == 0 then None
    else
      var w := Window(data, sparse, PairsBelow(sparse, key) - 1);
      ScanFrom(data, w.0, w.1, key)
  }

  /** The scan finds nothing in a window without the key. */
  lemma {:induction false} ScanMisses(data: Rows, p: nat, end: int, key: string)
    requires forall q :: p <= q < end && q < |data| ==> data[q].0 != key
    ensures ScanFrom(data, p, end, key) == None
    decreases |data| - p
  {
    if p < end && p < |data| && !StrLt(key, data[p].0) {
      ScanMisses(data, p + 1, end, key);
    }
  }

  /** On an index ascending by key, `PairsBelow` counts the entries below `key`. */
  lemma {:induction false} PairsBelowCount(sparse: Sparse, key: string, i: nat)
    requires forall a, b :: 0 <= a < b < |sparse| ==> StrLt(sparse[a].0, sparse[b].0)
    requires i < |sparse| && !StrLt(sparse[i].0, key)
    requires forall j :: 0 <= j < i ==> StrLt(sparse[j].0, key)
    ensures PairsBelow(sparse, key) == i
    decreases i
  {
    if i > 0 {
      PairsBelowCount(sparse[1..], key, i - 1);
    }
  }

  /** The sparse entries of sorted rows are sorted by key. */
  lemma SampledSorted(data: Rows, sparse: Sparse, interval: int)
    requires SortedRows(data) && Sampled(data, sparse, interval)
    ensures forall a, b :: 0 <= a < b < |sparse| ==> StrLt(sparse[a].0, sparse[b].0)
  {
  }

  /** `get` as written misses every key that has a sparse entry of its own: the window it
      scans ends just before that key's record. */
  lemma LookupMissesSparseKey(data: Rows, sparse: Sparse, interval: int, i: nat)
    requires SortedRows(data) && Sampled(data, sparse, interval) && i < |sparse|
    ensures (sparse[i].0, data[sparse[i].1].1) in data
    ensures Lookup(data, sparse, sparse[i].0) == None
  {
    var key := sparse[i].0;
    SampledSorted(data, sparse, interval);
    StrLtIrreflexive(key);
    PairsBelowCount(sparse, key, i);
    var w := Window(data, sparse, i - 1);
    assert w.1 == sparse[i].1;
    forall q | w.0 <= q < w.1 && q < |data|
      ensures data[q].0 != key
    {
      StrLtIrreflexive(data[q].0);
    }
    ScanMisses(data, w.0, w.1, key);
  }

  /** The smallest key of any non-empty table built with any interval is one of those
      misses: a table holding only `"a" -> "1"` answers None for `"a"`. */
  lemma LookupMissesFirstKey()
    ensures var (data, sparse, ok) := Build(map["a" := Some("1")], SortedKeysOf(map["a" := Some("1")]), 1);
      ok && data == [("a", "1")] && Lookup(data, sparse, "a") == None
  {
    var records := map["a" := Some("1")];
    var ks := SortedKeysOf(records);
    assert ks == ["a"] by {
      assert records.Keys == {"a"};
      assert "a" in ks;
    }
    assert ks[..0] == [];
    StrLtIrreflexive("a");
  }

  /** `bisect_right(sparse_index, (key, <above every offset>))`: the entries whose key is at
      most `key`. */
  function PairsAtMost(sparse: Sparse, key: string): (n: nat)
    ensures n <= |sparse|
  {
    if |sparse| == 0 || !StrLe(sparse[0].0, key) then 0 else 1 + PairsAtMost(sparse[1..], key)
  }

  /** `get(key)` with the window chosen by the last sparse entry at or below `key`. */
  function LookupFixed(data: Rows, sparse: Sparse, key: string): Option<string>
  {
    if |sparse| == 0 then None
    else
      var w := Window(data, sparse, PairsAtMost(sparse, key) - 1);
      ScanFrom(data, w.0, w.1, key)
  }

  /** `PairsAtMost` is the length of the leading run of entries at or below `key`. */
  lemma {:induction false} PairsAtMostRun(sparse: Sparse, key: string)
    ensures forall j :: 0 <= j < PairsAtMost(sparse, key) ==> StrLe(sparse[j].0, key)
    ensures PairsAtMost(sparse, key) < |sparse| ==> !StrLe(sparse[PairsAtMost(sparse, key)].0, key)
  {
    if |sparse| > 0 && StrLe(sparse[0].0, key) {
      PairsAtMostRun(sparse[1..], key);
    }
  }

  /** On sorted rows, key order is position order. */
  lemma RowsOrder(data: Rows, a: nat, b: nat)
    requires SortedRows(data) && a < |data| && b < |data|
    ensures StrLe(data[a].0, data[b].0) ==> a <= b
    ensures StrLt(data[a].0, data[b].0) ==> a < b
  {
    if a > b {
      StrLtAsymmetric(data[b].0, data[a].0);
    } else if a == b {
      StrLtIrreflexive(data[a].0);
    }
  }

  /** The scan from below a key's row reaches it when every row before it is below it. */
  lemma {:induction false} ScanFinds(data: Rows, p: nat, q: nat, end: int, key: string)
    requires p <= q < |data| && q < end && data[q].0 == key
    requires forall r :: p <= r < q ==> StrLt(data[r].0, key)
    ensures ScanFrom(data, p, end, key) == Some(data[q].1)
    decreases q - p
  {
    if p < q {
      StrLtIrreflexive(data[p].0);
      StrLtAsymmetric(data[p].0, key);
      ScanFinds(data, p + 1, q, end, key);
    }
  }

  /** Row 0 is always sampled, so the sparse index of a non-empty table starts there. */
  lemma SampledFirst(data: Rows, sparse: Sparse, interval: int)
    requires Sampled(data, sparse, interval) && |data| > 0
    ensures |sparse| > 0 && sparse[0].1 == 0
  {
    assert 0 % interval == 0;
    var z :| 0 <= z < |sparse| && sparse[z].1 == 0;
    assert sparse[0].1 <= sparse[z].1;
  }

  /** The last sparse entry at or below a row's key comes at or before that row, and the
      next one after it. */
  lemma WindowHolds(data: Rows, sparse: Sparse, interval: int, q: nat)
    requires SortedRows(data) && Sampled(data, sparse, interval) && q < |data|
    ensures |sparse| > 0
    ensures var w := Window(data, sparse, PairsAtMost(sparse, data[q].0) - 1);
      w.0 <= q < w.1
  {
    var key := data[q].0;
    var n := PairsAtMost(sparse, key);
    PairsAtMostRun(sparse, key);
    SampledFirst(data, sparse, interval);
    assert n > 0 by {
      RowsOrder(data, q, 0);
      StrLtTotal(data[0].0, key);
    }
    WindowLow(data, sparse, interval, q, n);
    if n < |sparse| {
      StrLtTotal(key, sparse[n].0);
      RowsOrder(data, q, sparse[n].1);
    }
  }

  /** The window's start, the last sampled row at or below a row's key, is at or before it. */
  lemma WindowLow(data: Rows, sparse: Sparse, interval: int, q: nat, n: nat)
    requires SortedRows(data) && Sampled(data, sparse, interval) && q < |data|
    requires 0 < n <= |sparse| && StrLe(sparse[n - 1].0, data[q].0)
    ensures sparse[n - 1].1 <= q
  {
    RowsOrder(data, sparse[n - 1].1, q);
  }

  /** The corrected `get` answers exactly what the table holds: the stored value of a
      written key, and None for any other key. */
  lemma LookupFixedCorrect(data: Rows, sparse: Sparse, interval: int, key: string, v: string)
    requires SortedRows(data) && Sampled(data, sparse, interval)
    ensures LookupFixed(data, sparse, key) == Some(v) <==> (key, v) in data
    ensures LookupFixed(data, sparse, key) == None <==> forall q :: 0 <= q < |data| ==> data[q].0 != key
  {
    if q :| 0 <= q < |data| && data[q].0 == key {
      WindowHolds(data, sparse, interval, q);
      var w := Window(data, sparse, PairsAtMost(sparse, key) - 1);
      forall r | w.0 <= r < q
        ensures StrLt(data[r].0, key)
      {
      }
      ScanFinds(data, w.0, q, w.1, key);
      if (key, v) in data {
        var q' :| 0 <= q' < |data| && data[q'] == (key, v);
        if q' != q {
          StrLtIrreflexive(key);
        }
      }
    } else if |sparse| > 0 {
      var w := Window(data, sparse, PairsAtMost(sparse, key) - 1);
      ScanMisses(data, w.0, w.1, key);
    }
  }

  /** A table built from records with no None value answers the corrected lookup with the
      record's value, and None for a key it was not given. */
  lemma BuiltLookup(records: map<string, Option<string>>, interval: int, key: string)
    requires interval != 0 && forall k :: k in records ==> records[k].Some?
    ensures var (data, sparse, _) := Build(records, SortedKeysOf(records), interval);
      LookupFixed(data, sparse, key) == if key in records then records[key] else None
  {
    BuildSucceeds(records, interval);
    BuildTable(records, interval);
    var (data, sparse, _) := Build(records, SortedKeysOf(records), interval);
    if key in records {
      LookupFixedCorrect(data, sparse, interval, key, records[key].value);
    } else {
      LookupFixedCorrect(data, sparse, interval, key, "");
      forall q | 0 <= q < |data| ensures data[q].0 != key {
        assert (data[q].0, data[q].1) in data;
      }
    }
  }

  // ---------------------------------------------------------------------------------------
  // range_scan

  /** The pairs the scan of `range_scan` collects from `data`: it stops at the first key
      above `hi` and keeps the keys at or above `lo`. */
  function Scanned(data: Rows, lo: string, hi: string): (r: Rows)
    ensures |r| <= |data|
  {
    if |data| == 0 || StrLt(hi, data[0].0) then []
    else (if StrLe(lo, data[0].0) then [data[0]] else []) + Scanned(data[1..], lo, hi)
  }

  /** The rows with `lo <= key <= hi`, in table order. */
  function InRange(data: Rows, lo: string, hi: string): (r: Rows)
  {
    if |data| == 0 then []
    else (if StrLe(lo, data[0].0) && StrLe(data[0].0, hi) then [data[0]] else []) + InRange(data[1..], lo, hi)
  }

  /** On sorted rows the scan is exactly the rows in range. */
  lemma {:induction false} ScannedInRange(data: Rows, lo: string, hi: string)
    requires SortedRows(data)
    ensures Scanned(data, lo, hi) == InRange(data, lo, hi)
  {
    if |data| > 0 {
      ScannedInRange(data[1..], lo, hi);
      if StrLt(hi, data[0].0) {
        InRangeAbove(data, lo, hi);
      } else {
        StrLtTotal(hi, data[0].0);
      }
    }
  }

  /** No row of a sorted table is in range once the first key is above `hi`. */
  lemma InRangeAbove(data: Rows, lo: string, hi: string)
    requires SortedRows(data) && |data| > 0 && StrLt(hi, data[0].0)
    ensures InRange(data, lo, hi) == []
  {
    forall q | 0 <= q < |data|
      ensures !StrLe(data[q].0, hi)
    {
      if q > 0 {
        StrLtTransitive(hi, data[0].0, data[q].0);
      }
      StrLtAsymmetric(hi, data[q].0);
    }
    InRangeNone(data, lo, hi);
  }

  lemma {:induction false} InRangeNone(data: Rows, lo: string, hi: string)
    requires forall q :: 0 <= q < |data| ==> !StrLe(data[q].0, hi)
    ensures InRange(data, lo, hi) == []
  {
    if |data| > 0 {
      InRangeNone(data[1..], lo, hi);
    }
  }

  /** The rows in range are exactly the table's pairs with `lo <= key <= hi`, in table
      order (so ascending on a sorted table). */
  lemma {:induction false} InRangeMembers(data: Rows, lo: string, hi: string)
    ensures forall p :: p in InRange(data, lo, hi) <==> p in data && StrLe(lo, p.0) && StrLe(p.0, hi)
    ensures SortedRows(data) ==> SortedRows(InRange(data, lo, hi))
  {
    if |data| > 0 {
      InRangeMembers(data[1..], lo, hi);
      assert data == [data[0]] + data[1..];
      if SortedRows(data) {
        assert SortedRows(data[1..]);
        var r := InRange(data, lo, hi);
        var t := InRange(data[1..], lo, hi);
        forall i, j | 0 <= i < j < |r|
          ensures StrLt(r[i].0, r[j].0)
        {
          if r != t && i == 0 {
            assert r[j] in t;
          }
        }
      }
    }
  }

  // ---------------------------------------------------------------------------------------
  // SSTableIndex

  class SSTable {
    var data: Rows
    var sparse: Sparse

    constructor ()
      ensures data == [] && sparse == []
    {
      data := [];
      sparse := [];
    }

    /** `build_from_records(records, sparse_interval)`: the data file is rewritten with the
        records in key order; the sparse entries are appended to those already held. */
    method BuildFromRecords(records: map<string, Option<string>>, interval: int) returns (ok: bool)
      modifies this
      ensures var (rows, added, done) := Build(records, SortedKeysOf(records), interval);
        ok == done && data == rows && sparse == old(sparse) + added
    {
      var keys := SortedKeys(records);
      SortedUnique(keys, SortedKeysOf(records));
      var rows, added;
      rows, added, ok := Write(records, keys, interval);
      data := rows;
      sparse := sparse + added;
    }

    /** The write loop of `build_from_records` over the sorted keys. */
    static method Write(records: map<string, Option<string>>, keys: seq<string>, interval: int)
      returns (rows: Rows, added: Sparse, ok: bool)
      requires forall k :: k in keys ==> k in records
      ensures (rows, added, ok) == Build(records, keys, interval)
    {
      rows, added := [], [];
      var i := 0;
      assert keys[..0] == [];
      while i < |keys|
        invariant 0 <= i <= |keys|
        invariant Build(records, keys[..i], interval) == (rows, added, true)
      {
        var key := keys[i];
        if records[key].None? || interval == 0 {
          BuildStops(records, keys, i, interval);
          return rows, added, false;
        }
        var next := added;
        if |rows| % interval == 0 {
          var at: nat := |rows|;
          next := added + [(key, at)];
        }
        BuildStep(records, keys, i, interval, rows, added, next);
        rows, added := rows + [(key, records[key].value)], next;
        i := i + 1;
      }
      assert keys[..i] == keys;
      return rows, added, true;
    }

    /** `get(key)` as written. */
    method Get(key: string) returns (r: Option<string>)
      ensures r == Lookup(data, sparse, key)
    {
      if |sparse| == 0 {
        return None;
      }
      var w := Window(data, sparse, PairsBelow(sparse, key) - 1);
      r := Scan(data, w.0, w.1, key);
    }

    /** `get(key)` with the window of the last sparse entry at or below `key`. */
    method GetCorrected(key: string) returns (r: Option<string>)
      ensures r == LookupFixed(data, sparse, key)
    {
      if |sparse| == 0 {
        return None;
      }
      var w := Window(data, sparse, PairsAtMost(sparse, key) - 1);
      r := Scan(data, w.0, w.1, key);
    }

    /** The read loop of `get` from `start` while below `end`. */
    static method Scan(data: Rows, start: nat, end: int, key: string) returns (r: Option<string>)
      ensures r == ScanFrom(data, start, end, key)
    {
      var p := start;
      while p < end
        invariant start <= p
        invariant ScanFrom(data, p, end, key) == ScanFrom(data, start, end, key)
        decreases end - p
      {
        if p >= |data| {
          break;
        }
        if data[p].0 == key {
          return Some(data[p].1);
        } else if StrLt(key, data[p].0) {
          return None;
        }
        p := p + 1;
      }
      return None;
    }

    /** `range_scan(start_key, end_key)`: on a sorted table, the pairs with
        `lo <= key <= hi` in ascending order. */
    method RangeScan(lo: string, hi: string) returns (r: Rows)
      ensures r == Scanned(data, lo, hi)
      ensures SortedRows(data) ==> r == InRange(data, lo, hi)
    {
      r := [];
      var p := 0;
      while p < |data|
        invariant 0 <= p <= |data|
        invariant r + Scanned(data[p..], lo, hi) == Scanned(data, lo, hi)
      {
        var (key, value) := data[p];
        if StrLt(hi, key) {
          break;
        }
        if StrLe(lo, key) {
          r := r + [(key, value)];
        }
        assert data[p..][1..] == data[p + 1..];
        p := p + 1;
      }
      if SortedRows(data) {
        ScannedInRange(data, lo, hi);
      }
    }
  }

  /** One written record. */
  lemma BuildStep(records: map<string, Option<string>>, keys: seq<string>, i: nat, interval: int,
                  rows: Rows, added: Sparse, next: Sparse)
    requires i < |keys| && forall k :: k in keys ==> k in records
    requires Build(records, keys[..i], interval) == (rows, added, true)
    requires records[keys[i]].Some? && interval != 0
    requires next == if |rows| % interval == 0 then added + [(keys[i], |rows|)] else added
    ensures Build(records, keys[..i + 1], interval) == (rows + [(keys[i], records[keys[i]].value)], next, true)
  {
    assert keys[..i + 1][..i] == keys[..i];
  }

  /** A build that stops at key `i` has the result the loop holds then. */
  lemma BuildStops(records: map<string, Option<string>>, keys: seq<string>, i: nat, interval: int)
    requires i < |keys| && forall k :: k in keys ==> k in records
    requires Build(records, keys[..i], interval).2
    requires records[keys[i]].None? || interval == 0
    ensures Build(records, keys, interval) == (Build(records, keys[..i], interval).0, Build(records, keys[..i], interval).1, false)
  {
    assert keys[..i + 1][..i] == keys[..i];
    BuildFailed(records, keys, i + 1, interval);
  }

  /** A build that has failed stays failed with what it had written. */
  lemma {:induction false} BuildFailed(records: map<string, Option<string>>, keys: seq<string>, n: nat, interval: int)
    requires n <= |keys| && forall k :: k in keys ==> k in records
    requires !Build(records, keys[..n], interval).2
    ensures Build(records, keys, interval) == Build(records, keys[..n], interval)
    decreases |keys| - n
  {
    if n < |keys| {
      assert keys[..n + 1][..n] == keys[..n];
      BuildFailed(records, keys, n + 1, interval);
    } else {
      assert keys[..n] == keys;
    }
  }
}
