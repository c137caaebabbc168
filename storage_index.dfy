/** The indexes of the storage engine: the hash index rebuilt by replaying the segments,
    the sorted sparse index, the SSTable with its sparse index, and the Bloom filter. */
module StorageIndex {
  import opened Common
  import opened Ordering
  import opened SegmentLog
  import opened SegmentStore

  // ---------------------------------------------------------------------------------------
  // HashIndex

  /** Where a key's live record is: segment id and byte offset. */
  datatype Location = Location(segment: int, offset: nat)

  /** The locations of a `get_all_records`-style dictionary, without the values. */
  function Locations(m: map<string, Located>): (r: map<string, Location>)
  {
    map k | k in m :: Location(m[k].segment, m[k].offset)
  }

  /** One step of `HashIndex.rebuild`: a tombstone pops the key, a value points it here. */
  function Relocate(m: map<string, Location>, t: Tagged): map<string, Location>
  {
    var r := t.entry.record;
    if r.value.None? then m - {r.key} else m[r.key := Location(t.segment, t.entry.offset)]
  }

  /** The index `rebuild` builds from the records in order. */
  function Reindex(ts: seq<Tagged>): map<string, Location>
  {
    if |ts| == 0 then map[] else Relocate(Reindex(ts[..|ts| - 1]), ts[|ts| - 1])
  }

  lemma RelocateApply(m: map<string, Located>, t: Tagged)
    ensures Locations(Apply(m, t)) == Relocate(Locations(m), t)
  {
    MapExt(Locations(Apply(m, t)), Relocate(Locations(m), t));
  }

  /** The hash index holds the keys of the record dictionary `get_all_records` builds
      from the same records, at the same places. */
  lemma {:induction false} ReindexReplay(ts: seq<Tagged>)
    ensures Reindex(ts) == Locations(Replay(ts))
  {
    if |ts| > 0 {
      ReindexReplay(ts[..|ts| - 1]);
      RelocateApply(Replay(ts[..|ts| - 1]), ts[|ts| - 1]);
    } else {
      MapExt(Reindex(ts), Locations(Replay(ts)));
    }
  }

  /** After a rebuild a key is indexed exactly when its last record in segment order is no
      tombstone, and it is then indexed at that record. */
  lemma RebuildLastWrite(ts: seq<Tagged>, k: string)
    ensures k in Reindex(ts) <==>
      LastWrite(ts, k).Some? && ts[LastWrite(ts, k).value].entry.record.value.Some?
    ensures k in Reindex(ts) ==>
      var t := ts[LastWrite(ts, k).value];
      Reindex(ts)[k] == Location(t.segment, t.entry.offset)
  {
    ReindexReplay(ts);
    ReplayLastWrite(ts, k);
  }

  /** The records read so far grow by one record of segment `id`. */
  lemma TagStep(done: seq<Tagged>, id: int, entries: seq<Entry>, j: nat)
    requires j < |entries|
    ensures done + Tag(id, entries[..j + 1]) == (done + Tag(id, entries[..j])) + [Tagged(id, entries[j])]
  {
    TagSnoc(id, entries[..j], entries[j]);
    assert entries[..j + 1] == entries[..j] + [entries[j]];
  }

  lemma ReindexSnoc(ts: seq<Tagged>, t: Tagged)
    ensures Reindex(ts + [t]) == Relocate(Reindex(ts), t)
  {
    assert (ts + [t])[..|ts|] == ts;
  }

  /** A whole segment has been read once its records up to the last are. */
  lemma SegmentDone(vs: seq<View>, i: nat, id: int, entries: seq<Entry>)
    requires i < |vs| && vs[i] == View(id, entries)
    ensures Flatten(vs[..i + 1]) == Flatten(vs[..i]) + Tag(id, entries[..|entries|])
  {
    assert entries[..|entries|] == entries;
    FlattenSnoc(vs[..i], vs[i]);
    assert vs[..i + 1] == vs[..i] + [vs[i]];
  }

  class HashIndex {
    var index: map<string, Location>

    constructor ()
      ensures index == map[]
    {
      index := map[];
    }

    method Put(key: string, segment: int, offset: nat)
      modifies this
      ensures index == old(index)[key := Location(segment, offset)]
    {
      index := index[key := Location(segment, offset)];
    }

    /** `index.get(key)` */
    function Get(key: string): (r: Option<Location>)
      reads this
      ensures r.Some? <==> key in index
      ensures r.Some? ==> r.value == index[key]
    {
      if key in index then Some(index[key]) else None
    }

    /** `index.pop(key, None)`: no error for an absent key. */
    method Delete(key: string)
      modifies this
      ensures index == old(index) - {key}
    {
      index := index - {key};
    }

    /** `list(index.keys())`: every indexed key once. */
    method Keys() returns (ks: seq<string>)
      ensures forall k :: k in ks <==> k in index
      ensures |ks| == |index.Keys|
    {
      ks := SortedKeys(index);
    }

    /** `rebuild(log_store)`: clear, then replay every record of every segment in order. */
    method Rebuild(store: LogStore)
      requires store.Valid()
      modifies this
      ensures old(AllWritable(store.segments))
      ensures index == Reindex(Flatten(old(Views(store.segments))))
    {
      index := IndexStore(store);
    }

    /** The loops of `rebuild`, building the new dictionary. */
    static method IndexStore(store: LogStore) returns (m: map<string, Location>)
      requires store.Valid()
      ensures AllWritable(store.segments)
      ensures m == Reindex(Flatten(Views(store.segments)))
    {
      ValidWritable(store.segments);
      ghost var vs := Views(store.segments);
      m := map[];
      var i := 0;
      while i < |store.segments|
        invariant 0 <= i <= |store.segments|
        invariant m == Reindex(Flatten(vs[..i]))
      {
        ViewsAt(store.segments, i);
        var s := store.segments[i];
        var es := s.Iterate();
        m := IndexSegment(m, vs, i, s.id, es.value);
        i := i + 1;
      }
      assert vs[..i] == vs;
    }

    /** The inner loop of `rebuild` over the `i`-th segment's records. */
    static method IndexSegment(m0: map<string, Location>, ghost vs: seq<View>, ghost i: nat, id: int, entries: seq<Entry>)
      returns (m: map<string, Location>)
      requires i < |vs| && vs[i] == View(id, entries) && m0 == Reindex(Flatten(vs[..i]))
      ensures m == Reindex(Flatten(vs[..i + 1]))
    {
      ghost var done := Flatten(vs[..i]);
      m := m0;
      var j := 0;
      assert done + Tag(id, entries[..0]) == done;
      while j < |entries|
        invariant 0 <= j <= |entries|
        invariant m == Reindex(done + Tag(id, entries[..j]))
      {
        var e := entries[j];
        TagStep(done, id, entries, j);
        ReindexSnoc(done + Tag(id, entries[..j]), Tagged(id, e));
        if e.record.value.None? {
          m := m - {e.record.key};
        } else {
          m := m[e.record.key := Location(id, e.offset)];
        }
        j := j + 1;
      }
      SegmentDone(vs, i, id, entries);
    }
  }

  // ---------------------------------------------------------------------------------------
  // SparseIndex

  /** A sparse index entry, compared as Python compares the tuple (key, segment, offset). */
  datatype SparseEntry = SparseEntry(key: string, segment: int, offset: nat)

  predicate EntryLt(a: SparseEntry, b: SparseEntry)
  {
    StrLt(a.key, b.key) ||
    (a.key == b.key && (a.segment < b.segment || (a.segment == b.segment && a.offset < b.offset)))
  }

  predicate EntryLe(a: SparseEntry, b: SparseEntry)
  {
    a == b || EntryLt(a, b)
  }

  lemma EntryLtTotal(a: SparseEntry, b: SparseEntry)
    ensures a == b || EntryLt(a, b) || EntryLt(b, a)
  {
    StrLtTotal(a.key, b.key);
  }

  lemma EntryLtTransitive(a: SparseEntry, b: SparseEntry, c: SparseEntry)
    requires EntryLt(a, b) && EntryLt(b, c)
    ensures EntryLt(a, c)
  {
    if StrLt(a.key, b.key) && StrLt(b.key, c.key) {
      StrLtTransitive(a.key, b.key, c.key);
    }
  }

  lemma EntryLtAsymmetric(a: SparseEntry, b: SparseEntry)
    requires EntryLt(a, b)
    ensures !EntryLt(b, a) && a != b
  {
    if StrLt(a.key, b.key) {
      StrLtAsymmetric(a.key, b.key);
    } else {
      StrLtIrreflexive(a.key);
    }
  }

  lemma EntryLeTransitive(a: SparseEntry, b: SparseEntry, c: SparseEntry)
    requires EntryLe(a, b) && EntryLe(b, c)
    ensures EntryLe(a, c)
  {
    if a != b && b != c {
      EntryLtTransitive(a, b, c);
    }
  }

  /** What `sort` and `insort` keep: no entry after a larger one. */
  predicate Ascending(es: seq<SparseEntry>)
  {
    forall i, j :: 0 <= i < j < |es| ==> EntryLe(es[i], es[j])
  }

  /** `bisect_left(es, e)` on a sorted list: the first position whose entry is not below `e`. */
  function BisectLeft(es: seq<SparseEntry>, e: SparseEntry): (r: nat)
    ensures r <= |es|
    ensures forall j :: 0 <= j < r ==> EntryLt(es[j], e)
    ensures r < |es| ==> !EntryLt(es[r], e)
  {
    if |es| == 0 || !EntryLt(es[0], e) then 0 else 1 + BisectLeft(es[1..], e)
  }

  /** `bisect_right(es, (key,))` on a sorted list: the tuple `(key,)` sorts before every
      tuple starting with `key`, so this is the first position whose key is not below `key`. */
  function KeysBelow(es: seq<SparseEntry>, key: string): (r: nat)
    ensures r <= |es|
    ensures forall j :: 0 <= j < r ==> StrLt(es[j].key, key)
    ensures r < |es| ==> !StrLt(es[r].key, key)
  {
    if |es| == 0 || !StrLt(es[0].key, key) then 0 else 1 + KeysBelow(es[1..], key)
  }

  /** `add`: the entry goes to its `bisect_left` position, replacing the entry there when
      that one has the same key. */
  function Added(es: seq<SparseEntry>, e: SparseEntry): seq<SparseEntry>
  {
    var idx := BisectLeft(es, e);
    if idx < |es| && es[idx].key == e.key then es[idx := e] else es[..idx] + [e] + es[idx..]
  }

  /** `add` keeps the list sorted and holds the new entry afterwards; every other entry
      stays, except the one with the same key at the insertion point, which is replaced. */
  lemma AddedSorted(es: seq<SparseEntry>, e: SparseEntry)
    requires Ascending(es)
    ensures Ascending(Added(es, e))
    ensures e in Added(es, e)
    ensures var idx := BisectLeft(es, e);
      if idx < |es| && es[idx].key == e.key then
        multiset(Added(es, e)) == multiset(es) - multiset{es[idx]} + multiset{e}
      else multiset(Added(es, e)) == multiset(es) + multiset{e}
  {
    var idx := BisectLeft(es, e);
    if idx < |es| {
      EntryLtTotal(es[idx], e);
    }
    if idx < |es| && es[idx].key == e.key {
      ReplaceSorted(es, idx, e);
    } else {
      InsertAtSorted(es, idx, e);
    }
  }

  lemma ReplaceSorted(es: seq<SparseEntry>, idx: nat, e: SparseEntry)
    requires Ascending(es) && idx < |es|
    requires forall j :: 0 <= j < idx ==> EntryLt(es[j], e)
    requires EntryLe(e, es[idx])
    ensures Ascending(es[idx := e]) && e in es[idx := e]
    ensures multiset(es[idx := e]) == multiset(es) - multiset{es[idx]} + multiset{e}
  {
    assert es[idx := e][idx] == e;
    assert es == es[..idx] + [es[idx]] + es[idx + 1..];
    assert es[idx := e] == es[..idx] + [e] + es[idx + 1..];
    var r := es[idx := e];
    forall i, j | 0 <= i < j < |r| ensures EntryLe(r[i], r[j]) {
      if i == idx {
        EntryLeTransitive(e, es[idx], es[j]);
      } else if j != idx {
        assert r[i] == es[i] && r[j] == es[j];
      }
    }
  }

  lemma InsertAtSorted(es: seq<SparseEntry>, idx: nat, e: SparseEntry)
    requires Ascending(es) && idx <= |es|
    requires forall j :: 0 <= j < idx ==> EntryLt(es[j], e)
    requires idx < |es| ==> EntryLe(e, es[idx])
    ensures Ascending(es[..idx] + [e] + es[idx..])
    ensures e in es[..idx] + [e] + es[idx..]
    ensures multiset(es[..idx] + [e] + es[idx..]) == multiset(es) + multiset{e}
  {
    InsertAtPerm(es, idx, e);
    var r := es[..idx] + [e] + es[idx..];
    assert forall k :: 0 <= k < idx ==> r[k] == es[k];
    assert forall k :: idx < k < |r| ==> r[k] == es[k - 1];
    forall i, j | 0 <= i < j < |r| ensures EntryLe(r[i], r[j]) {
      if i == idx {
        EntryLeTransitive(e, es[idx], es[j - 1]);
      } else if i < idx && j > idx {
        assert EntryLe(es[i], es[j - 1]);
      } else if i > idx {
        assert EntryLe(es[i - 1], es[j - 1]);
      }
    }
  }

  /** `sort()` of a list of entries: insertion of each element into the sorted rest. */
  function Sort(es: seq<SparseEntry>): seq<SparseEntry>
  {
    if |es| == 0 then [] else Insert(es[0], Sort(es[1..]))
  }

  function Insert(e: SparseEntry, es: seq<SparseEntry>): seq<SparseEntry>
  {
    if |es| == 0 || EntryLe(e, es[0]) then [e] + es else [es[0]] + Insert(e, es[1..])
  }

  lemma InsertAtPerm<T>(es: seq<T>, idx: nat, e: T)
    requires idx <= |es|
    ensures e in es[..idx] + [e] + es[idx..]
    ensures multiset(es[..idx] + [e] + es[idx..]) == multiset(es) + multiset{e}
  {
    assert (es[..idx] + [e] + es[idx..])[idx] == e;
    assert es == es[..idx] + es[idx..];
  }

  lemma {:induction false} InsertSorted(e: SparseEntry, es: seq<SparseEntry>)
    requires Ascending(es)
    ensures Ascending(Insert(e, es))
    decreases |es|
  {
    if |es| > 0 && !EntryLe(e, es[0]) {
      var t := es[1..];
      assert Ascending(t);
      InsertSorted(e, t);
      EntryLtTotal(e, es[0]);
      InsertBound(es[0], e, t);
      ConsSorted(es[0], Insert(e, t));
    } else if |es| > 0 {
      ConsSorted(e, es);
    }
  }

  /** Every element of `Insert(e, t)` is at least `x` when `e` and all of `t` are. */
  lemma {:induction false} InsertBound(x: SparseEntry, e: SparseEntry, t: seq<SparseEntry>)
    requires EntryLe(x, e)
    requires forall k :: 0 <= k < |t| ==> EntryLe(x, t[k])
    ensures forall k :: 0 <= k < |Insert(e, t)| ==> EntryLe(x, Insert(e, t)[k])
    decreases |t|
  {
    if |t| > 0 && !EntryLe(e, t[0]) {
      InsertBound(x, e, t[1..]);
    }
  }

  lemma ConsSorted(x: SparseEntry, t: seq<SparseEntry>)
    requires Ascending(t)
    requires |t| > 0 ==> EntryLe(x, t[0])
    ensures Ascending([x] + t)
  {
    var r := [x] + t;
    forall i, j | 0 <= i < j < |r| ensures EntryLe(r[i], r[j]) {
      if i == 0 {
        EntryLeTransitive(x, t[0], t[j - 1]);
      } else {
        assert EntryLe(t[i - 1], t[j - 1]);
      }
    }
  }

  lemma {:induction false} InsertPerm(e: SparseEntry, es: seq<SparseEntry>)
    ensures multiset(Insert(e, es)) == multiset(es) + multiset{e}
    decreases |es|
  {
    if |es| > 0 && !EntryLe(e, es[0]) {
      InsertPerm(e, es[1..]);
      assert es == [es[0]] + es[1..];
    }
  }

  /** `sort()` gives an ascending permutation of the list. */
  lemma {:induction false} SortSorted(es: seq<SparseEntry>)
    ensures Ascending(Sort(es))
    ensures multiset(Sort(es)) == multiset(es)
  {
    if |es| > 0 {
      SortSorted(es[1..]);
      InsertSorted(es[0], Sort(es[1..]));
      InsertPerm(es[0], Sort(es[1..]));
      assert es == [es[0]] + es[1..];
    }
  }

  /** The `i`-th position of a sorted list is at or below every later one, and keys
      follow: no later key is below a key that is not below `key`. */
  lemma KeysAbove(es: seq<SparseEntry>, key: string, n: nat)
    requires Ascending(es) && n < |es| && !StrLt(es[n].key, key)
    ensures forall j :: n <= j < |es| ==> !StrLt(es[j].key, key)
  {
    forall j | n < j < |es| ensures !StrLt(es[j].key, key) {
      assert EntryLe(es[n], es[j]);
      if StrLt(es[j].key, key) {
        if es[n].key != es[j].key {
          StrLtTransitive(es[n].key, es[j].key, key);
        }
      }
    }
  }

  function EntryOf(t: Tagged): SparseEntry
  {
    SparseEntry(t.entry.record.key, t.segment, t.entry.offset)
  }

  /** The entries `SparseIndex.rebuild` collects before sorting: the live records at every
      `interval`-th read position (tombstones are counted but not taken); None where
      `count % interval` divides by zero, at the first live record. */
  function Sampled(ts: seq<Tagged>, interval: int): Option<seq<SparseEntry>>
  {
    if |ts| == 0 then Some([])
    else match Sampled(ts[..|ts| - 1], interval)
      case None => None
      case Some(es) => Sample1(es, ts[|ts| - 1], |ts| - 1, interval)
  }

  /** The record read at position `count` is taken, skipped, or stops the rebuild. */
  function Sample1(es: seq<SparseEntry>, t: Tagged, count: nat, interval: int): Option<seq<SparseEntry>>
  {
    if t.entry.record.value.None? then Some(es)
    else if interval == 0 then None
    else if count % interval == 0 then Some(es + [EntryOf(t)])
    else Some(es)
  }

  /** Some record among `ts` carries a value. */
  predicate SomeLive(ts: seq<Tagged>)
  {
    exists j :: 0 <= j < |ts| && ts[j].entry.record.value.Some?
  }

  /** The rebuild fails exactly for a zero interval over a store holding a live record. */
  lemma {:induction false} SampledFails(ts: seq<Tagged>, interval: int)
    ensures Sampled(ts, interval).None? <==> interval == 0 && SomeLive(ts)
  {
    if |ts| > 0 {
      SampledFails(ts[..|ts| - 1], interval);
      SomeLiveSnoc(ts);
    }
  }

  lemma SomeLiveSnoc(ts: seq<Tagged>)
    requires |ts| > 0
    ensures SomeLive(ts) <==> SomeLive(ts[..|ts| - 1]) || ts[|ts| - 1].entry.record.value.Some?
  {
    var init := ts[..|ts| - 1];
    assert forall j :: 0 <= j < |init| ==> init[j] == ts[j];
  }

  /** With a nonzero interval the sample holds exactly the live records at positions
      divisible by the interval. */
  lemma {:induction false} SampledMembers(ts: seq<Tagged>, interval: int, e: SparseEntry)
    requires interval != 0
    ensures Sampled(ts, interval).Some?
    ensures e in Sampled(ts, interval).value <==>
      exists p :: 0 <= p < |ts| && p % interval == 0 && ts[p].entry.record.value.Some? && e == EntryOf(ts[p])
  {
    if |ts| > 0 {
      var init := ts[..|ts| - 1];
      SampledMembers(init, interval, e);
      var last := |ts| - 1;
      if e in Sampled(ts, interval).value && e !in Sampled(init, interval).value {
        assert e == EntryOf(ts[last]) && last % interval == 0;
      }
      if exists p :: 0 <= p < |ts| && p % interval == 0 && ts[p].entry.record.value.Some? && e == EntryOf(ts[p]) {
        var p :| 0 <= p < |ts| && p % interval == 0 && ts[p].entry.record.value.Some? && e == EntryOf(ts[p]);
        if p < |init| {
          assert init[p] == ts[p];
        }
      }
    }
  }

  lemma SampledSnoc(ts: seq<Tagged>, t: Tagged, interval: int)
    ensures Sampled(ts + [t], interval) ==
      if Sampled(ts, interval).None? then None else Sample1(Sampled(ts, interval).value, t, |ts|, interval)
  {
    assert (ts + [t])[..|ts|] == ts;
  }

  /** One more record read by the rebuild loop. */
  lemma SampleStep(done: seq<Tagged>, id: int, entries: seq<Entry>, j: nat, es: seq<SparseEntry>, count: nat, interval: int, next: seq<SparseEntry>)
    requires j < |entries|
    requires Sampled(done + Tag(id, entries[..j]), interval) == Some(es)
    requires count == |done + Tag(id, entries[..j])|
    requires entries[j].record.value.Some? ==> interval != 0
    requires next == if entries[j].record.value.Some? && count % interval == 0 then es + [EntryOf(Tagged(id, entries[j]))] else es
    ensures Sampled(done + Tag(id, entries[..j + 1]), interval) == Some(next)
    ensures count + 1 == |done + Tag(id, entries[..j + 1])|
  {
    TagStep(done, id, entries, j);
    SampledSnoc(done + Tag(id, entries[..j]), Tagged(id, entries[j]), interval);
  }

  /** A live record met with a zero interval: the rebuild of the whole segment fails. */
  lemma SegmentFails(vs: seq<View>, i: nat, id: int, entries: seq<Entry>, j: nat, es: seq<SparseEntry>, interval: int)
    requires i < |vs| && vs[i] == View(id, entries) && j < |entries|
    requires Sampled(Flatten(vs[..i]) + Tag(id, entries[..j]), interval) == Some(es)
    requires entries[j].record.value.Some? && interval == 0
    ensures Sampled(Flatten(vs[..i + 1]), interval).None?
  {
    var done := Flatten(vs[..i]);
    TagStep(done, id, entries, j);
    SampledSnoc(done + Tag(id, entries[..j]), Tagged(id, entries[j]), interval);
    SegmentDone(vs, i, id, entries);
    TagPrefix(done, id, entries, j + 1);
    SampledPrefix(Flatten(vs[..i + 1]), |done| + j + 1, interval);
  }

  /** Once the rebuild has failed on the records read so far it fails on all of them. */
  lemma {:induction false} SampledPrefix(ts: seq<Tagged>, n: nat, interval: int)
    requires n <= |ts| && Sampled(ts[..n], interval).None?
    ensures Sampled(ts, interval).None?
    decreases |ts|
  {
    if n < |ts| {
      var init := ts[..|ts| - 1];
      assert init[..n] == ts[..n];
      SampledPrefix(init, n, interval);
    } else {
      assert ts[..n] == ts;
    }
  }

  class SparseIndex {
    var entries: seq<SparseEntry>
    const interval: int

    ghost predicate Valid()
      reads this
    {
      Ascending(entries)
    }

    constructor (interval: int)
      ensures entries == [] && this.interval == interval && Valid()
    {
      entries := [];
      this.interval := interval;
    }

    /** `add(key, segment_id, offset)` */
    method Add(key: string, segment: int, offset: nat)
      requires Valid()
      modifies this
      ensures Valid()
      ensures entries == Added(old(entries), SparseEntry(key, segment, offset))
    {
      var e := SparseEntry(key, segment, offset);
      AddedSorted(entries, e);
      var idx := BisectLeft(entries, e);
      if idx < |entries| && entries[idx].key == key {
        entries := entries[idx := e];
      } else {
        entries := entries[..idx] + [e] + entries[idx..];
      }
    }

    /** `find_range(key)`: the entry to start scanning from and the one to stop at. */
    function FindRange(key: string): (r: (Option<SparseEntry>, Option<SparseEntry>))
      reads this
      ensures |entries| == 0 ==> r == (None, None)
      ensures r.0.Some? ==> r.0.value in entries && StrLt(r.0.value.key, key)
      ensures r.1.Some? ==> r.1.value in entries && !StrLt(r.1.value.key, key)
      ensures r.0.None? && |entries| > 0 ==> r.1 == Some(entries[0])
    {
      if |entries| == 0 then (None, None)
      else
        var idx := KeysBelow(entries, key) - 1;
        if idx < 0 then (None, Some(entries[0]))
        else (Some(entries[idx]), if idx + 1 < |entries| then Some(entries[idx + 1]) else None)
    }

    /** `rebuild(log_store)`: every `interval`-th record read, then sorted; false where
        `count % interval` divides by zero, with the index left cleared. */
    method Rebuild(store: LogStore) returns (ok: bool)
      requires store.Valid()
      modifies this
      ensures old(AllWritable(store.segments))
      ensures var sampled := Sampled(Flatten(old(Views(store.segments))), interval);
        ok == sampled.Some? && entries == (if ok then Sort(sampled.value) else [])
      ensures Valid()
    {
      var collected;
      ok, collected := SampleStore(store, interval);
      if !ok {
        entries := [];
        return;
      }
      SortSorted(collected);
      entries := Sort(collected);
    }

    /** The loops of `rebuild`. */
    static method SampleStore(store: LogStore, interval: int) returns (ok: bool, es: seq<SparseEntry>)
      requires store.Valid()
      ensures AllWritable(store.segments)
      ensures var sampled := Sampled(Flatten(Views(store.segments)), interval);
        ok == sampled.Some? && (ok ==> es == sampled.value)
    {
      ValidWritable(store.segments);
      ghost var vs := Views(store.segments);
      es := [];
      var count := 0;
      var i := 0;
      while i < |store.segments|
        invariant 0 <= i <= |store.segments|
        invariant Sampled(Flatten(vs[..i]), interval) == Some(es) && count == |Flatten(vs[..i])|
      {
        ViewsAt(store.segments, i);
        var s := store.segments[i];
        var entries := s.Iterate();
        ok, es, count := SampleSegment(es, count, interval, vs, i, s.id, entries.value);
        if !ok {
          StoreFails(vs, i, interval);
          return false, [];
        }
        i := i + 1;
      }
      assert vs[..i] == vs;
      return true, es;
    }

    /** The inner loop of `rebuild` over the `i`-th segment's records. */
    static method SampleSegment(es0: seq<SparseEntry>, count0: nat, interval: int, ghost vs: seq<View>, ghost i: nat, id: int, entries: seq<Entry>)
      returns (ok: bool, es: seq<SparseEntry>, count: nat)
      requires i < |vs| && vs[i] == View(id, entries)
      requires Sampled(Flatten(vs[..i]), interval) == Some(es0) && count0 == |Flatten(vs[..i])|
      ensures ok == Sampled(Flatten(vs[..i + 1]), interval).Some?
      ensures ok ==> Sampled(Flatten(vs[..i + 1]), interval) == Some(es) && count == |Flatten(vs[..i + 1])|
    {
      ghost var done := Flatten(vs[..i]);
      es, count := es0, count0;
      var j := 0;
      assert done + Tag(id, entries[..0]) == done;
      while j < |entries|
        invariant 0 <= j <= |entries|
        invariant Sampled(done + Tag(id, entries[..j]), interval) == Some(es)
        invariant count == |done + Tag(id, entries[..j])|
      {
        var e := entries[j];
        if e.record.value.Some? && interval == 0 {
          SegmentFails(vs, i, id, entries, j, es, interval);
          return false, es, count;
        }
        var next := es;
        if e.record.value.Some? && count % interval == 0 {
          next := es + [SparseEntry(e.record.key, id, e.offset)];
        }
        SampleStep(done, id, entries, j, es, count, interval, next);
        es := next;
        count := count + 1;
        j := j + 1;
      }
      SegmentDone(vs, i, id, entries);
      return true, es, count;
    }
  }

  /** A rebuild that failed on the first segments fails on all of them. */
  lemma StoreFails(vs: seq<View>, i: nat, interval: int)
    requires i < |vs| && Sampled(Flatten(vs[..i + 1]), interval).None?
    ensures Sampled(Flatten(vs), interval).None?
  {
    FlattenPrefix(vs, i + 1);
    SampledPrefix(Flatten(vs), |Flatten(vs[..i + 1])|, interval);
  }

  /** The records read so far are a prefix of the segment's records. */
  lemma TagPrefix(done: seq<Tagged>, id: int, entries: seq<Entry>, n: nat)
    requires n <= |entries|
    ensures |done + Tag(id, entries[..n])| == |done| + n
    ensures (done + Tag(id, entries[..|entries|]))[..|done| + n] == done + Tag(id, entries[..n])
  {
    var whole := done + Tag(id, entries[..|entries|]);
    assert whole[..|done| + n] == done + Tag(id, entries[..n]) by {
      forall k | 0 <= k < |done| + n
        ensures whole[..|done| + n][k] == (done + Tag(id, entries[..n]))[k]
      {
        if k >= |done| {
          assert entries[..|entries|][k - |done|] == entries[..n][k - |done|];
        }
      }
    }
  }

  /** The records of the first segments come first among all records. */
  lemma {:induction false} FlattenPrefix(vs: seq<View>, i: nat)
    requires i <= |vs|
    ensures |Flatten(vs[..i])| <= |Flatten(vs)|
    ensures Flatten(vs[..i]) == Flatten(vs)[..|Flatten(vs[..i])|]
    decreases |vs|
  {
    if i < |vs| {
      var init := vs[..|vs| - 1];
      FlattenPrefix(init, i);
      assert init[..i] == vs[..i];
      FlattenSnoc(init, vs[|vs| - 1]);
      assert vs == init + [vs[|vs| - 1]];
    } else {
      assert vs[..i] == vs;
    }
  }

  /** Entry `i` is the last one whose key is strictly below `key`. */
  predicate LastBelow(es: seq<SparseEntry>, key: string, i: nat)
    requires i < |es|
  {
    StrLt(es[i].key, key) && forall j :: i < j < |es| ==> !StrLt(es[j].key, key)
  }

  /** `find_range` on a sorted index: nothing before the first entry when no key is below
      `key`; otherwise the start is the last entry whose key is strictly below `key`, and
      the end is the entry after it, if any. */
  lemma FindRangeBounds(ix: SparseIndex, key: string)
    requires ix.Valid()
    ensures |ix.entries| == 0 ==> ix.FindRange(key) == (None, None)
    ensures ix.FindRange(key).0.None? <==> forall j :: 0 <= j < |ix.entries| ==> !StrLt(ix.entries[j].key, key)
    ensures ix.FindRange(key).0.None? && |ix.entries| > 0 ==> ix.FindRange(key).1 == Some(ix.entries[0])
    ensures ix.FindRange(key).0.Some? ==>
      exists i :: 0 <= i < |ix.entries| && LastBelow(ix.entries, key, i) &&
        ix.FindRange(key) == (Some(ix.entries[i]), if i + 1 < |ix.entries| then Some(ix.entries[i + 1]) else None)
  {
    var es := ix.entries;
    var n := KeysBelow(es, key);
    if n < |es| {
      KeysAbove(es, key, n);
    }
    if n > 0 {
      assert LastBelow(es, key, n - 1);
      assert StrLt(es[0].key, key);
    }
  }
}
