/** The hash-indexed storage engine: an append-only segment log with an in-memory hash
    index and a Bloom filter in front of it. */
module Engine {
  import opened Common
  import opened Ordering
  import opened SegmentLog
  import opened SegmentStore
  import opened StorageIndex
  import opened Bloom
  import SSTableIndex

  // ---------------------------------------------------------------------------------------
  // StorageEngine

  /** The index location `loc` holds record `r`: the segment at position `loc.segment` has
      `r` beginning at `loc.offset`. */
  predicate Points(recs: seq<seq<Record>>, loc: Location, r: Record)
  {
    0 <= loc.segment < |recs| && Writable(recs[loc.segment]) &&
    RecordAt(recs[loc.segment], 0, loc.offset) == Some(r)
  }

  /** The index has exactly the keys of `values`, each pointing at a live record of that
      key with its value. */
  predicate Consistent(recs: seq<seq<Record>>, index: map<string, Location>, values: map<string, string>)
  {
    index.Keys == values.Keys &&
    forall k :: k in index ==> Points(recs, index[k], Record(k, Some(values[k])))
  }

  /** Appending a record to a segment moves no record the index points at, and the new
      record sits at the segment's old end. */
  lemma ConsistentAppend(recs: seq<seq<Record>>, index: map<string, Location>, values: map<string, string>, i: nat, r: Record)
    requires Consistent(recs, index, values) && i < |recs| && Writable(recs[i]) && RecordBytes(r).Some?
    ensures Writable(recs[i] + [r])
    ensures Consistent(recs[i := recs[i] + [r]], index, values)
    ensures Points(recs[i := recs[i] + [r]], Location(i, |Log(recs[i])|), r)
  {
    var recs' := recs[i := recs[i] + [r]];
    RecordAtSnoc(recs[i], r, 0, |Log(recs[i])|);
    forall k | k in index
      ensures Points(recs', index[k], Record(k, Some(values[k])))
    {
      var loc := index[k];
      if loc.segment == i {
        RecordAtBound(recs[i], 0, loc.offset);
        RecordAtSnoc(recs[i], r, 0, loc.offset);
      }
    }
  }

  /** A new empty segment at the end moves nothing the index points at. */
  lemma ConsistentExtend(recs: seq<seq<Record>>, index: map<string, Location>, values: map<string, string>)
    requires Consistent(recs, index, values)
    ensures Consistent(recs + [[]], index, values)
  {
    forall k | k in index
      ensures Points(recs + [[]], index[k], Record(k, Some(values[k])))
    {
    }
  }

  /** A key pointed at a fresh record of its own stays consistent. */
  lemma ConsistentPut(recs: seq<seq<Record>>, index: map<string, Location>, values: map<string, string>, key: string, value: string, loc: Location)
    requires Consistent(recs, index, values) && Points(recs, loc, Record(key, Some(value)))
    ensures Consistent(recs, index[key := loc], values[key := value])
  {
  }

  /** A key taken out of the index stays consistent. */
  lemma ConsistentDelete(recs: seq<seq<Record>>, index: map<string, Location>, values: map<string, string>, key: string)
    requires Consistent(recs, index, values)
    ensures Consistent(recs, index - {key}, values - {key})
  {
  }

  /** The segments numbered by position, the active one last. */
  ghost predicate Numbered(store: LogStore)
    reads store, store.active, set s | s in store.segments
  {
    store.Valid() && |store.segments| > 0 && store.active == store.segments[|store.segments| - 1] &&
    Positions(store.segments)
  }

  /** Each segment's id is its position in the list. */
  predicate Positions(ss: seq<LogSegment>)
  {
    forall i :: 0 <= i < |ss| ==> ss[i].id == i
  }

  /** A segment numbered by the length of the list extends the numbering, and numbered
      segments are distinct objects. */
  lemma PositionsSnoc(ss: seq<LogSegment>, s: LogSegment)
    requires Positions(ss) && s.id == |ss|
    ensures Positions(ss + [s])
    ensures forall j :: 0 <= j < |ss| ==> ss[j] != s
  {
    assert forall j :: 0 <= j < |ss| ==> (ss + [s])[j] == ss[j];
  }

  /** `Consistent`, read off the segments themselves. */
  ghost predicate Indexed(ss: seq<LogSegment>, index: map<string, Location>, values: map<string, string>)
    reads set s | s in ss
  {
    index.Keys == values.Keys &&
    forall k :: k in index ==>
      0 <= index[k].segment < |ss| && Writable(ss[index[k].segment].records) &&
      RecordAt(ss[index[k].segment].records, 0, index[k].offset) == Some(Record(k, Some(values[k])))
  }

  lemma IndexedConsistent(ss: seq<LogSegment>, index: map<string, Location>, values: map<string, string>)
    ensures Indexed(ss, index, values) <==> Consistent(RecordsOf(ss), index, values)
  {
  }

  /** Segments holding the records `recs` are indexed as `recs` is. */
  lemma IndexedFrom(ss: seq<LogSegment>, recs: seq<seq<Record>>, index: map<string, Location>, values: map<string, string>)
    requires |ss| == |recs| && (forall i :: 0 <= i < |ss| ==> ss[i].records == recs[i])
    requires Consistent(recs, index, values)
    ensures Indexed(ss, index, values)
  {
  }

  /** `log_store.put` over segments holding `before`: the record lands at the end of the
      last segment, or of a new empty one where the last is full. */
  method PutRecord(store: LogStore, rec: Record, ghost before: seq<seq<Record>>)
    returns (r: Option<(int, nat)>, ghost recs: seq<seq<Record>>, ghost i: nat)
    requires Numbered(store)
    requires |before| == |store.segments| && forall j :: 0 <= j < |before| ==> store.segments[j].records == before[j]
    modifies store, store.active
    ensures Numbered(store)
    ensures |recs| == |store.segments| && forall j :: 0 <= j < |recs| ==> store.segments[j].records == recs[j]
    ensures var base := if old(store.active.IsFull()) then before + [[]] else before;
      i == |base| - 1 && Writable(base[i]) &&
      if RecordBytes(rec).Some? then r == Some((i, |Log(base[i])|)) && recs == base[i := base[i] + [rec]]
      else r.None? && recs == base
  {
    ghost var n := |store.segments|;
    ghost var full := store.active.IsFull();
    ghost var olds := store.segments;
    ghost var last := store.active;
    PositionsSnoc(olds[..n - 1], last);
    assert olds == olds[..n - 1] + [last];
    ghost var size := |Log(before[n - 1])|;
    assert last.Size() == size by {
      assert last.records == before[n - 1];
    }
    r := store.Put(rec.key, rec.value);
    if full {
      PositionsSnoc(olds, store.active);
    }
    i := if full then n else n - 1;
    ghost var base := if full then before + [[]] else before;
    assert |Log(base[i])| == if full then 0 else size;
    recs := if r.None? then base else base[i := base[i] + [rec]];
    assert forall j :: 0 <= j < n - 1 ==> olds[j].records == before[j];
    assert forall j :: 0 <= j < n - 1 ==> store.segments[j] == olds[j];
    assert store.segments[n - 1] == last;
  }

  class StorageEngine {
    const store: LogStore
    const index: HashIndex
    const bloom: BloomFilter
    /** The value each key was last put with, for the keys not deleted since. */
    ghost var values: map<string, string>

    /** Segments numbered by position with the active one last, the Bloom filter holding
        every indexed key, and the index pointing every key at its live record. */
    ghost predicate Valid()
      reads this, store, store.active, (set s | s in store.segments), index, bloom, bloom.bits
    {
      Numbered(store) && bloom.Valid() && bloom.size > 0 &&
      (forall k :: k in index.index ==> k in bloom.added) &&
      Indexed(store.segments, index.index, values)
    }

    /** `StorageEngine(data_dir)` over an empty directory, with the Bloom filter's string
        hash as a parameter. */
    constructor (hash: string -> int)
      ensures Valid() && values == map[]
    {
      store := new LogStore();
      index := new HashIndex();
      bloom := new BloomFilter(100000, 4, hash);
      values := map[];
      new;
      RebuildIndex();
    }

    /** `_rebuild_index` over a store whose only segment is empty. */
    method RebuildIndex()
      requires store.Valid() && bloom.Valid() && bloom.size > 0 && |store.segments| == 1
      requires store.active == store.segments[0] && store.active.id == 0 && store.active.records == []
      requires values == map[]
      modifies index, bloom
      ensures Valid() && values == map[] && index.index == map[]
    {
      index.Rebuild(store);
      assert Views(store.segments) == [View(0, [])];
      assert Flatten([View(0, [])]) == [];
      var ks := index.Keys();
      var _ := bloom.Rebuild(ks);
    }

    /** `log_store.put(key, value)` as the engine uses it: where the record is written, the
        location returned holds it and every indexed key still points at its record. */
    method Append(rec: Record) returns (loc: Option<Location>, ghost recs: seq<seq<Record>>)
      requires Valid()
      modifies store, store.active
      ensures Numbered(store)
      ensures |recs| == |store.segments| && forall i :: 0 <= i < |recs| ==> store.segments[i].records == recs[i]
      ensures Consistent(recs, index.index, values)
      ensures loc.Some? <==> RecordBytes(rec).Some?
      ensures loc.Some? ==> Points(recs, loc.value, rec)
    {
      IndexedConsistent(store.segments, index.index, values);
      ghost var before := RecordsOf(store.segments);
      ghost var full := store.active.IsFull();
      var r;
      ghost var i;
      r, recs, i := PutRecord(store, rec, before);
      ghost var base := if full then before + [[]] else before;
      if full {
        ConsistentExtend(before, index.index, values);
      }
      if r.Some? {
        ConsistentAppend(base, index.index, values, i, rec);
        loc := Some(Location(r.value.0, r.value.1));
      } else {
        loc := None;
      }
    }

    /** `put(key, value)`: append to the log, point the index at the new record, add the
        key to the Bloom filter. Fails, changing no key, where the record is too long to
        pack. */
    method Put(key: string, value: string) returns (ok: bool)
      requires Valid()
      modifies this, store, store.active, index, bloom, bloom.bits
      ensures Valid()
      ensures ok == RecordBytes(Record(key, Some(value))).Some?
      ensures values == if ok then old(values)[key := value] else old(values)
    {
      var loc, recs := Append(Record(key, Some(value)));
      if loc.None? {
        IndexedFrom(store.segments, recs, index.index, values);
        return false;
      }
      Point(key, value, loc.value, recs);
      return true;
    }

    /** The index and filter half of `put`: the key points at its new record. */
    method Point(key: string, value: string, loc: Location, ghost recs: seq<seq<Record>>)
      requires Numbered(store) && bloom.Valid() && bloom.size > 0 && forall k :: k in index.index ==> k in bloom.added
      requires |recs| == |store.segments| && forall i :: 0 <= i < |recs| ==> store.segments[i].records == recs[i]
      requires Consistent(recs, index.index, values) && Points(recs, loc, Record(key, Some(value)))
      modifies this, index, bloom, bloom.bits
      ensures Valid() && values == old(values)[key := value]
    {
      ConsistentPut(recs, index.index, values, key, value, loc);
      values := values[key := value];
      Remember(index, bloom, key, loc);
      IndexedFrom(store.segments, recs, index.index, values);
    }

    /** `index.put(key, ...)` and `bloom.add(key)`, stated by the index map and the filter's
        invariant alone. */
    static method Remember(index: HashIndex, bloom: BloomFilter, key: string, loc: Location)
      requires bloom.Valid() && bloom.size > 0
      modifies index, bloom, bloom.bits
      ensures index.index == old(index.index)[key := loc]
      ensures bloom.Valid() && bloom.added == old(bloom.added) + {key} && bloom.bits == old(bloom.bits)
    {
      index.Put(key, loc.segment, loc.offset);
      var _ := bloom.Add(key);
    }

    /** `get(key)`: None where the Bloom filter rules the key out, the index lacks it, the
        segment is gone, or the record read is a tombstone or another key's; otherwise the
        value read at the indexed offset. */
    method Get(key: string) returns (r: Option<string>)
      requires Valid()
      ensures bloom.MightContain(key) == Some(false) ==> r.None?
      ensures r == if key in values then Some(values[key]) else None
    {
      if bloom.MightContain(key) == Some(false) {
        return None;
      }
      var location := index.Get(key);
      if location.None? {
        return None;
      }
      var loc := location.value;
      var segment := store.GetSegment(loc.segment);
      ghost var recs := RecordsOf(store.segments);
      assert Points(recs, loc, Record(key, Some(values[key])));
      assert store.segments[loc.segment].id == loc.segment;
      if segment.None? {
        return None;
      }
      var s := segment.value;
      assert s == store.segments[loc.segment];
      assert s.data[0..|s.data|] == s.data;
      RecordAtRead(s.records, s.data, 0, loc.offset);
      var read := s.ReadAt(loc.offset);
      if !read.Read? || read.record.value.None? || read.record.key != key {
        return None;
      }
      return read.record.value;
    }

    /** `delete(key)`: append a tombstone and take the key out of the index. Fails,
        changing no key, where the tombstone is too long to pack. */
    method Delete(key: string) returns (ok: bool)
      requires Valid()
      modifies this, store, store.active, index
      ensures Valid()
      ensures ok == RecordBytes(Record(key, None)).Some?
      ensures values == if ok then old(values) - {key} else old(values)
    {
      var loc, recs := Append(Record(key, None));
      if loc.None? {
        IndexedFrom(store.segments, recs, index.index, values);
        return false;
      }
      Unpoint(key, recs);
      return true;
    }

    /** The index half of `delete`: the key leaves the index. */
    method Unpoint(key: string, ghost recs: seq<seq<Record>>)
      requires Numbered(store) && bloom.Valid() && bloom.size > 0 && forall k :: k in index.index ==> k in bloom.added
      requires |recs| == |store.segments| && forall i :: 0 <= i < |recs| ==> store.segments[i].records == recs[i]
      requires Consistent(recs, index.index, values)
      modifies this, index
      ensures Valid() && values == old(values) - {key}
    {
      ConsistentDelete(recs, index.index, values, key);
      index.Delete(key);
      values := values - {key};
      IndexedFrom(store.segments, recs, index.index, values);
    }

    /** `exists(key)`: the Bloom filter and the index both have the key. */
    function Exists(key: string): (r: bool)
      reads this, store, store.active, (set s | s in store.segments), index, bloom, bloom.bits
      requires Valid()
      ensures r <==> key in values
    {
      bloom.MightContain(key) == Some(true) && index.Get(key).Some?
    }

    /** `keys()`: every key that has a value. */
    method Keys() returns (ks: seq<string>)
      requires Valid()
      ensures forall k :: k in ks <==> k in values
    {
      ks := index.Keys();
    }
  }
}
