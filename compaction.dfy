/** Compaction of the segment log: `Compactor.compact` merges the oldest segments into one
    segment holding each key's last live value, and `LeveledCompactor` moves segments
    down a fixed number of levels. */
module Compaction {
  import opened Common
  import opened Ordering
  import opened SegmentLog
  import opened SegmentStore

  // ---------------------------------------------------------------------------------------
  // Merging records, last write wins

  /** One record applied to the merged map: a tombstone pops the key, a value (re)places
      it. */
  function Merge1(m: map<string, string>, r: Record): map<string, string>
  {
    if r.value.None? then m - {r.key} else m[r.key := r.value.value]
  }

  /** The records applied in order. */
  function MergeAll(m: map<string, string>, rs: seq<Record>): map<string, string>
  {
    if |rs| == 0 then m else Merge1(MergeAll(m, rs[..|rs| - 1]), rs[|rs| - 1])
  }

  /** The records of the segments, segment after segment. */
  function Concat(rss: seq<seq<Record>>): seq<Record>
  {
    if |rss| == 0 then [] else Concat(rss[..|rss| - 1]) + rss[|rss| - 1]
  }

  /** The position of the last record for `k`, if there is one. */
  function LastFor(rs: seq<Record>, k: string): (r: Option<nat>)
    ensures r.Some? ==> r.value < |rs| && rs[r.value].key == k
    ensures r.Some? ==> forall j :: r.value < j < |rs| ==> rs[j].key != k
    ensures r.None? ==> forall j :: 0 <= j < |rs| ==> rs[j].key != k
  {
    if |rs| == 0 then None
    else if rs[|rs| - 1].key == k then Some(|rs| - 1)
    else LastFor(rs[..|rs| - 1], k)
  }

  /** Last write wins: a key is merged exactly when its last record is not a tombstone,
      and then with that record's value. */
  lemma {:induction false} MergeLastWrite(rs: seq<Record>, k: string)
    ensures k in MergeAll(map[], rs) <==> LastFor(rs, k).Some? && rs[LastFor(rs, k).value].value.Some?
    ensures k in MergeAll(map[], rs) ==> MergeAll(map[], rs)[k] == rs[LastFor(rs, k).value].value.value
  {
    if |rs| > 0 {
      var init := rs[..|rs| - 1];
      MergeLastWrite(init, k);
      if rs[|rs| - 1].key != k && LastFor(init, k).Some? {
        assert rs[LastFor(init, k).value] == init[LastFor(init, k).value];
      }
    }
  }

  /** Every merged key-value pair is one of the records written, so it packs wherever
      they did. */
  lemma MergeWritable(rs: seq<Record>)
    requires Writable(rs)
    ensures forall k :: k in MergeAll(map[], rs) ==> Record(k, Some(MergeAll(map[], rs)[k])) in rs
    ensures Packable(MergeAll(map[], rs))
  {
    forall k | k in MergeAll(map[], rs)
      ensures Record(k, Some(MergeAll(map[], rs)[k])) in rs
    {
      MergeLastWrite(rs, k);
      assert rs[LastFor(rs, k).value] == Record(k, Some(MergeAll(map[], rs)[k]));
    }
  }

  /** One record per key of `m`, in the order of `ks`, none of them a tombstone. */
  function RowsOf(ks: seq<string>, m: map<string, string>): (rs: seq<Record>)
    requires forall k :: k in ks ==> k in m
    ensures |rs| == |ks| && forall i :: 0 <= i < |ks| ==> rs[i] == Record(ks[i], Some(m[ks[i]]))
  {
    if |ks| == 0 then [] else RowsOf(ks[..|ks| - 1], m) + [Record(ks[|ks| - 1], Some(m[ks[|ks| - 1]]))]
  }

  /** The records a compacted segment is written with: one per key in ascending key
      order, each with the key's merged value, and no tombstone. */
  lemma RowsSorted(m: map<string, string>)
    ensures var rs := RowsOf(SortedKeysOf(m), m);
      |rs| == |m| &&
      (forall i, j :: 0 <= i < j < |rs| ==> StrLt(rs[i].key, rs[j].key)) &&
      (forall r :: r in rs <==> r.key in m && r.value == Some(m[r.key]))
  {
    var ks := SortedKeysOf(m);
    var rs := RowsOf(ks, m);
    forall r: Record | r.key in m && r.value == Some(m[r.key])
      ensures r in rs
    {
      var i :| 0 <= i < |ks| && ks[i] == r.key;
      assert rs[i] == r;
    }
  }

  // ---------------------------------------------------------------------------------------
  // Compactor

  /** `min(s.segment_id for s in segments)` */
  function MinId(ss: seq<LogSegment>): (id: int)
    requires |ss| > 0
    ensures (exists i :: 0 <= i < |ss| && ss[i].id == id) && forall i :: 0 <= i < |ss| ==> id <= ss[i].id
  {
    if |ss| == 1 then ss[0].id
    else
      var rest := MinId(ss[1..]);
      assert forall i :: 1 <= i < |ss| ==> ss[1..][i - 1] == ss[i];
      if ss[0].id <= rest then ss[0].id else rest
  }

  /** `compact()`: fewer than two candidates, or candidates whose records all cancel out,
      change nothing; otherwise the candidates are replaced by one new segment that takes
      their smallest id and holds each key's last live value, one record per key in
      ascending key order. */
  method Compact(store: LogStore) returns (ok: bool, ghost merged: map<string, string>, ghost made: Option<LogSegment>)
    requires store.Valid()
    modifies store
    ensures store.Valid() && store.active == old(store.active)
    ensures var cands := old(store.SegmentsToCompact(2));
      merged == (if |cands| < 2 then map[] else MergeAll(map[], Concat(old(RecordsOf(cands)))))
    ensures ok <==> made.Some?
    ensures !ok ==> store.segments == old(store.segments)
    ensures ok <==> |old(store.SegmentsToCompact(2))| >= 2 && merged != map[]
    ensures ok ==> var cands := old(store.SegmentsToCompact(2)); var n := made.value;
      fresh(n) && n.id == MinId(cands) && n.records == RowsOf(SortedKeysOf(merged), merged) &&
      store.segments == Inserted(OutsideIds(old(store.segments), IdsOf(cands)), n)
  {
    var segments, m := Plan(store);
    merged := m;
    made := None;
    if |segments| < 2 || m == map[] {
      return false, merged, made;
    }
    var n := Rewrite(store, segments, m);
    made := Some(n);
    return true, merged, made;
  }

  /** The reading half of `compact`: the candidates and, where there are two or more,
      what merging them gives. */
  method Plan(store: LogStore) returns (segments: seq<LogSegment>, m: map<string, string>)
    requires store.Valid()
    ensures segments == store.SegmentsToCompact(2)
    ensures m == (if |segments| < 2 then map[] else MergeAll(map[], Concat(RecordsOf(segments))))
    ensures Packable(m)
  {
    segments := store.SegmentsToCompact(2);
    if |segments| < 2 {
      return segments, map[];
    }
    Candidates(store, segments);
    m := MergeSegments(segments);
    PackableMerge(RecordsOf(segments));
  }

  /** The writing half of `compact`: the new segment, then `replace_segments`. */
  method Rewrite(store: LogStore, segments: seq<LogSegment>, m: map<string, string>) returns (n: LogSegment)
    requires store.Valid() && |segments| > 0 && Packable(m)
    modifies store
    ensures store.Valid() && store.active == old(store.active)
    ensures fresh(n) && n.id == MinId(segments) && n.records == RowsOf(SortedKeysOf(m), m)
    ensures store.segments == Inserted(OutsideIds(old(store.segments), IdsOf(segments)), n)
  {
    RowsWritable(m);
    var rows := SortedRows(m);
    n := WriteSegment(MinId(segments), rows);
    store.ReplaceSegments(segments, n);
  }

  // ---------------------------------------------------------------------------------------
  // The data directory during `compact`

  /** The files `compact` names: `segment_{id:06d}.log` and the temporary
      `segment_{id:06d}_compacted.log`. Formatting an id with `06d` is one-to-one, so a file
      name is its kind and its id. */
  datatype FileName = SegmentFile(id: int) | CompactedFile(id: int)

  /** The directory after `new_segment.append` has added `data` to the temporary file of
      `newId` (created when missing) and `rename` has moved that file onto the segment file
      of `newId`, replacing any file there. */
  function Renamed(dir: map<FileName, seq<byte>>, newId: int, data: seq<byte>): (r: map<FileName, seq<byte>>)
    ensures CompactedFile(newId) !in r
    ensures SegmentFile(newId) in r &&
      r[SegmentFile(newId)] == (if CompactedFile(newId) in dir then dir[CompactedFile(newId)] else []) + data
    ensures forall f :: f != CompactedFile(newId) && f != SegmentFile(newId) ==>
      (f in r <==> f in dir) && (f in r ==> r[f] == dir[f])
  {
    var temp := (if CompactedFile(newId) in dir then dir[CompactedFile(newId)] else []) + data;
    (dir - {CompactedFile(newId)})[SegmentFile(newId) := temp]
  }

  /** The directory after a compaction that wrote `data`, as written: the rename, then the
      unlink loop of `replace_segments` over the segment file of every old id. */
  function CompactFiles(dir: map<FileName, seq<byte>>, oldIds: set<int>, newId: int, data: seq<byte>)
    : map<FileName, seq<byte>>
  {
    Renamed(dir, newId, data) - set id | id in oldIds :: SegmentFile(id)
  }

  /** The corrected unlink loop, which spares the file the new segment now lives in. */
  function CompactFilesFixed(dir: map<FileName, seq<byte>>, oldIds: set<int>, newId: int, data: seq<byte>)
    : map<FileName, seq<byte>>
  {
    Renamed(dir, newId, data) - set id | id in oldIds && id != newId :: SegmentFile(id)
  }

  /** As written, a compaction deletes its own output: the new segment takes the smallest id
      of the candidates, so its file is one of the old segment files `replace_segments`
      unlinks, and `iterate` then finds no file to read. */
  lemma CompactUnlinksOwnOutput(cands: seq<LogSegment>, dir: map<FileName, seq<byte>>, data: seq<byte>)
    requires |cands| > 0
    ensures SegmentFile(MinId(cands)) !in CompactFiles(dir, IdsOf(cands), MinId(cands), data)
  {
    assert MinId(cands) in IdsOf(cands);
  }

  /** With the corrected unlink, the new segment's file holds what was written to it, every
      other old segment file is gone, and no other file changes. */
  lemma CompactFilesFixedKeeps(dir: map<FileName, seq<byte>>, oldIds: set<int>, newId: int, data: seq<byte>)
    ensures var r := CompactFilesFixed(dir, oldIds, newId, data);
      SegmentFile(newId) in r && CompactedFile(newId) !in r &&
      r[SegmentFile(newId)] == (if CompactedFile(newId) in dir then dir[CompactedFile(newId)] else []) + data &&
      (forall id :: id in oldIds && id != newId ==> SegmentFile(id) !in r) &&
      forall f :: f != CompactedFile(newId) && f != SegmentFile(newId) && !(f.SegmentFile? && f.id in oldIds) ==>
        (f in r <==> f in dir) && (f in r ==> r[f] == dir[f])
  {
  }

  /** With the corrected unlink, the compacted segment reads back: when no temporary file was
      left over, `iterate` over the new segment's file reports exactly the rows written. */
  lemma CompactedReadsBack(cands: seq<LogSegment>, dir: map<FileName, seq<byte>>, rows: seq<Record>)
    requires |cands| > 0 && Writable(rows) && CompactedFile(MinId(cands)) !in dir
    ensures var r := CompactFilesFixed(dir, IdsOf(cands), MinId(cands), Log(rows));
      SegmentFile(MinId(cands)) in r && Scan(r[SegmentFile(MinId(cands))], 0) == Some(Entries(rows, 0))
  {
    var r := CompactFilesFixed(dir, IdsOf(cands), MinId(cands), Log(rows));
    CompactFilesFixedKeeps(dir, IdsOf(cands), MinId(cands), Log(rows));
    assert r[SegmentFile(MinId(cands))] == Log(rows);
    assert Log(rows)[0..|Log(rows)|] == Log(rows);
    ScanLog(rows, Log(rows), 0);
  }

  /** The candidates `get_segments_to_compact` returns are segments of a valid store. */
  lemma Candidates(store: LogStore, cands: seq<LogSegment>)
    requires store.Valid() && cands == store.SegmentsToCompact(2)
    ensures AllValid(cands)
  {
    PySliceWithin(store.segments, 0, -1);
    forall i | 0 <= i < |cands| ensures cands[i].Valid() {
      var j :| 0 <= j < |store.segments| && store.segments[j] == cands[i];
    }
  }

  /** The merge loop of `compact`: every record of every candidate, in order, last write
      wins. */
  method MergeSegments(segments: seq<LogSegment>) returns (m: map<string, string>)
    requires AllValid(segments)
    ensures m == MergeAll(map[], Concat(RecordsOf(segments)))
  {
    ghost var rss := RecordsOf(segments);
    m := map[];
    var s := 0;
    assert rss[..0] == [];
    while s < |segments|
      invariant 0 <= s <= |segments|
      invariant m == MergeAll(map[], Concat(rss[..s]))
    {
      assert segments[s].Valid();
      IterateRecords(segments[s]);
      var es := segments[s].Iterate();
      EntriesRecords(segments[s].records, 0);
      m := ApplyRecords(m, EntryRecords(es.value), Concat(rss[..s]));
      ConcatSnoc(rss, s);
      s := s + 1;
    }
    assert rss[..s] == rss;
  }

  /** The records applied in order to `m0`, the merge of `base`. */
  method ApplyRecords(m0: map<string, string>, rs: seq<Record>, ghost base: seq<Record>) returns (m: map<string, string>)
    requires m0 == MergeAll(map[], base)
    ensures m == MergeAll(map[], base + rs)
  {
    m := m0;
    var j := 0;
    assert base + rs[..0] == base;
    while j < |rs|
      invariant 0 <= j <= |rs| && m == MergeAll(map[], base + rs[..j])
    {
      m := Merge1(m, rs[j]);
      MergeStep(base, rs, j);
      j := j + 1;
    }
    assert rs[..j] == rs;
  }

  lemma MergeStep(base: seq<Record>, rs: seq<Record>, j: nat)
    requires j < |rs|
    ensures MergeAll(map[], base + rs[..j + 1]) == Merge1(MergeAll(map[], base + rs[..j]), rs[j])
  {
    var t := base + rs[..j + 1];
    assert t[..|t| - 1] == base + rs[..j];
  }

  /** The records of what `iterate` reports. */
  function EntryRecords(es: seq<Entry>): (rs: seq<Record>)
    ensures |rs| == |es| && forall j :: 0 <= j < |es| ==> rs[j] == es[j].record
  {
    seq(|es|, j requires 0 <= j < |es| => es[j].record)
  }

  lemma ConcatSnoc(rss: seq<seq<Record>>, s: nat)
    requires s < |rss|
    ensures Concat(rss[..s + 1]) == Concat(rss[..s]) + rss[s]
  {
    assert rss[..s + 1][..s] == rss[..s];
  }

  /** `iterate` reports the records in order. */
  lemma {:induction false} EntriesRecords(rs: seq<Record>, off: nat)
    requires Writable(rs)
    ensures EntryRecords(Entries(rs, off)) == rs
  {
    if |rs| > 0 {
      EntriesRecords(rs[1..], off + |RecordBytes(rs[0]).value|);
    }
  }

  /** The write loop of `compact`: a new segment with the rows appended in order. */
  method WriteSegment(id: int, rows: seq<Record>) returns (n: LogSegment)
    requires Writable(rows)
    ensures fresh(n) && n.Valid() && n.id == id && n.records == rows
  {
    n := new LogSegment(id);
    var i := 0;
    while i < |rows|
      invariant 0 <= i <= |rows| && fresh(n) && n.Valid() && n.id == id && n.records == rows[..i]
    {
      assert RecordBytes(rows[i]).Some?;
      AppendRecord(n, rows[i]);
      PrefixSnoc(rows, i);
      i := i + 1;
    }
    assert rows[..i] == rows;
  }

  /** `new_segment.append(key, value)` of a record that packs. */
  method AppendRecord(n: LogSegment, r: Record)
    requires n.Valid() && RecordBytes(r).Some?
    modifies n
    ensures n.Valid() && n.records == old(n.records) + [r]
  {
    var _ := n.Append(r.key, r.value);
  }

  /** `sorted(records.keys())` with each key's value: one record per key, in ascending
      key order. */
  method SortedRows(m: map<string, string>) returns (rows: seq<Record>)
    ensures rows == RowsOf(SortedKeysOf(m), m)
  {
    var ks := SortedKeys(m);
    SortedUnique(ks, SortedKeysOf(m));
    rows := [];
    var i := 0;
    while i < |ks|
      invariant 0 <= i <= |ks| && |rows| == i
      invariant forall j :: 0 <= j < i ==> rows[j] == Record(ks[j], Some(m[ks[j]]))
    {
      rows := rows + [Record(ks[i], Some(m[ks[i]]))];
      i := i + 1;
    }
  }

  /** The rows of a packable map pack. */
  lemma RowsWritable(m: map<string, string>)
    requires Packable(m)
    ensures Writable(RowsOf(SortedKeysOf(m), m))
  {
    var rs := RowsOf(SortedKeysOf(m), m);
    forall i | 0 <= i < |rs| ensures RecordBytes(rs[i]).Some? {
      assert SortedKeysOf(m)[i] in SortedKeysOf(m);
    }
  }

  /** Every key-value pair of `m` packs into a record. */
  predicate Packable(m: map<string, string>)
  {
    forall k :: k in m ==> RecordBytes(Record(k, Some(m[k]))).Some?
  }

  /** The merge of packable segments is packable. */
  lemma PackableMerge(rss: seq<seq<Record>>)
    requires forall i :: 0 <= i < |rss| ==> Writable(rss[i])
    ensures Packable(MergeAll(map[], Concat(rss)))
  {
    ConcatWritable(rss);
    MergeWritable(Concat(rss));
  }

  lemma {:induction false} ConcatWritable(rss: seq<seq<Record>>)
    requires forall i :: 0 <= i < |rss| ==> Writable(rss[i])
    ensures Writable(Concat(rss))
  {
    if |rss| > 0 {
      ConcatWritable(rss[..|rss| - 1]);
      WritableAppend(Concat(rss[..|rss| - 1]), rss[|rss| - 1]);
    }
  }

  lemma WritableAppend(a: seq<Record>, b: seq<Record>)
    requires Writable(a) && Writable(b)
    ensures Writable(a + b)
  {
    forall j | 0 <= j < |a + b| ensures RecordBytes((a + b)[j]).Some? {
      if j >= |a| {
        assert (a + b)[j] == b[j - |a|];
      }
    }
  }


  // ---------------------------------------------------------------------------------------
  // LeveledCompactor

  /** A segment of a level: its id and the records appended to it. */
  datatype Seg = Seg(id: int, records: seq<Record>)

  /** The bytes one record takes in a segment: the nine header bytes, the key, the
      value. */
  function RecordSize(r: Record): nat
  {
    9 + |Utf8.Encode(r.key)| + |ValueBytes(r)|
  }

  /** `segment.size`: the bytes of its records. */
  function Size(rs: seq<Record>): nat
  {
    if |rs| == 0 then 0 else RecordSize(rs[0]) + Size(rs[1..])
  }

  /** The size of a segment is the length of its data file. */
  lemma {:induction false} SizeIsLog(rs: seq<Record>)
    requires Writable(rs)
    ensures Size(rs) == |Log(rs)|
  {
    if |rs| > 0 {
      SizeIsLog(rs[1..]);
    }
  }

  function Pow(b: int, e: nat): int
  {
    if e == 0 then 1 else b * Pow(b, e - 1)
  }

  /** `_level_size_limit(level)`: `ratio ** (level + 1)` megabytes. */
  function LevelSizeLimit(ratio: int, level: nat): int
  {
    Pow(ratio, level + 1) * 1024 * 1024
  }

  /** With a ratio of at least one, every level holds at least `ratio` megabytes, and
      each level holds `ratio` times as much as the one above it. */
  lemma LevelLimitGrows(ratio: int, level: nat)
    requires ratio >= 1
    ensures LevelSizeLimit(ratio, level) >= 1024 * 1024 * ratio
    ensures LevelSizeLimit(ratio, level + 1) == ratio * LevelSizeLimit(ratio, level)
  {
    PowPositive(ratio, level);
    var p := Pow(ratio, level + 1);
    assert p == ratio * Pow(ratio, level);
    assert p >= ratio;
    assert Pow(ratio, level + 2) == ratio * p;
    assert ratio * p * 1024 * 1024 == ratio * (p * 1024 * 1024);
  }

  lemma {:induction false} PowPositive(b: int, e: nat)
    requires b >= 1
    ensures Pow(b, e) >= 1
  {
    if e > 0 {
      PowPositive(b, e - 1);
    }
  }

  /** `_level_size(level)`: the sum of its segments' sizes. */
  function LevelSize(segs: seq<Seg>): nat
  {
    if |segs| == 0 then 0 else LevelSize(segs[..|segs| - 1]) + Size(segs[|segs| - 1].records)
  }

  /** Every record of the segments, segment after segment. */
  function SegRecords(segs: seq<Seg>): seq<Record>
  {
    if |segs| == 0 then [] else SegRecords(segs[..|segs| - 1]) + segs[|segs| - 1].records
  }

  /** The merge of `_compact_level` as written: the upper segment's records last write
      wins, then each key not yet present takes the first live value met in the lower
      level's records; a tombstone in either level never removes a lower value. */
  function LevelMerge(upper: seq<Record>, lower: seq<Record>): map<string, string>
  {
    FillFirst(MergeAll(map[], upper), lower)
  }

  function FillFirst(m: map<string, string>, rs: seq<Record>): map<string, string>
  {
    if |rs| == 0 then m
    else
      var m' := FillFirst(m, rs[..|rs| - 1]);
      var r := rs[|rs| - 1];
      if r.key in m' || r.value.None? then m' else m'[r.key := r.value.value]
  }

  /** The lower level's loop: a record only fills in a key not yet present. */
  method FillRecords(m0: map<string, string>, rs: seq<Record>, ghost up: map<string, string>, ghost base: seq<Record>)
    returns (m: map<string, string>)
    requires m0 == FillFirst(up, base)
    ensures m == FillFirst(up, base + rs)
  {
    m := m0;
    var j := 0;
    assert base + rs[..0] == base;
    while j < |rs|
      invariant 0 <= j <= |rs| && m == FillFirst(up, base + rs[..j])
    {
      if rs[j].key !in m && rs[j].value.Some? {
        m := m[rs[j].key := rs[j].value.value];
      }
      FillStep(up, base, rs, j);
      j := j + 1;
    }
    assert rs[..j] == rs;
  }

  lemma FillStep(up: map<string, string>, base: seq<Record>, rs: seq<Record>, j: nat)
    requires j < |rs|
    ensures var m := FillFirst(up, base + rs[..j]);
      FillFirst(up, base + rs[..j + 1]) == if rs[j].key in m || rs[j].value.None? then m else m[rs[j].key := rs[j].value.value]
  {
    var t := base + rs[..j + 1];
    assert t[..|t| - 1] == base + rs[..j];
  }

  /** A key the upper segment deleted comes back with its value from the lower level. */
  lemma LevelMergeResurrects()
    ensures var upper := [Record("a", None)];
      var lower := [Record("a", Some("1"))];
      LevelMerge(upper, lower) == map["a" := "1"] && "a" !in LevelMergeFixed(upper, lower)
  {
    var upper := [Record("a", None)];
    var lower := [Record("a", Some("1"))];
    assert upper[..0] == [] && lower[..0] == [];
    assert (lower + upper)[..1] == lower;
  }

  /** Within the lower level the oldest value wins, not the newest. */
  lemma LevelMergeKeepsOldest()
    ensures var lower := [Record("a", Some("1")), Record("a", Some("2"))];
      LevelMerge([], lower) == map["a" := "1"] && LevelMergeFixed([], lower) == map["a" := "2"]
  {
    var lower := [Record("a", Some("1")), Record("a", Some("2"))];
    assert lower[..1][..0] == [];
    assert lower[..1] == [Record("a", Some("1"))];
    assert FillFirst(map[], lower[..1]) == map["a" := "1"];
    assert lower + [] == lower;
    assert MergeAll(map[], lower[..1]) == map["a" := "1"];
  }

  /** The merge `_compact_level` evidently means: the lower level's records and then the
      upper segment's, last write wins, so the newer level wins, tombstones included. */
  function LevelMergeFixed(upper: seq<Record>, lower: seq<Record>): map<string, string>
  {
    MergeAll(map[], lower + upper)
  }

  /** The corrected merge holds a key exactly when its newest record across both levels is
      not a tombstone, with that record's value; an upper record always beats a lower
      one. */
  lemma LevelMergeFixedNewest(upper: seq<Record>, lower: seq<Record>, k: string)
    ensures var rs := lower + upper;
      (k in LevelMergeFixed(upper, lower) <==> LastFor(rs, k).Some? && rs[LastFor(rs, k).value].value.Some?) &&
      (k in LevelMergeFixed(upper, lower) ==> LevelMergeFixed(upper, lower)[k] == rs[LastFor(rs, k).value].value.value)
    ensures LastFor(upper, k).Some? ==>
      (k in LevelMergeFixed(upper, lower) <==> upper[LastFor(upper, k).value].value.Some?)
  {
    MergeLastWrite(lower + upper, k);
    if LastFor(upper, k).Some? {
      LastForAppend(lower, upper, k);
    }
  }

  lemma {:induction false} LastForAppend(a: seq<Record>, b: seq<Record>, k: string)
    requires LastFor(b, k).Some?
    ensures LastFor(a + b, k) == Some(|a| + LastFor(b, k).value)
  {
    var rs := a + b;
    var p := |a| + LastFor(b, k).value;
    assert rs[p] == b[LastFor(b, k).value];
    LastForAt(rs, k, p);
  }

  lemma {:induction false} LastForAt(rs: seq<Record>, k: string, p: nat)
    requires p < |rs| && rs[p].key == k && forall j :: p < j < |rs| ==> rs[j].key != k
    ensures LastFor(rs, k) == Some(p)
    decreases |rs|
  {
    if p < |rs| - 1 {
      LastForAt(rs[..|rs| - 1], k, p);
    }
  }

  /** The position of the first live record for `k`, if there is one. */
  function FirstLive(rs: seq<Record>, k: string): (r: Option<nat>)
    ensures r.Some? ==> r.value < |rs| && rs[r.value].key == k && rs[r.value].value.Some?
    ensures r.None? ==> forall j :: 0 <= j < |rs| && rs[j].key == k ==> rs[j].value.None?
  {
    if |rs| == 0 then None
    else
      match FirstLive(rs[..|rs| - 1], k)
      case Some(p) => Some(p)
      case None => if rs[|rs| - 1].key == k && rs[|rs| - 1].value.Some? then Some(|rs| - 1) else None
  }

  /** Filling in keeps every key already present with its value and adds each absent key
      with its first live value. */
  lemma {:induction false} FillFirstChar(m: map<string, string>, rs: seq<Record>, k: string)
    ensures k in FillFirst(m, rs) <==> k in m || FirstLive(rs, k).Some?
    ensures k in FillFirst(m, rs) ==>
      FillFirst(m, rs)[k] == if k in m then m[k] else rs[FirstLive(rs, k).value].value.value
  {
    if |rs| > 0 {
      var init := rs[..|rs| - 1];
      FillFirstChar(m, init, k);
      var m' := FillFirst(m, init);
      if FirstLive(init, k).Some? {
        assert rs[FirstLive(init, k).value] == init[FirstLive(init, k).value];
      }
      assert k in m' <==> k in m || FirstLive(init, k).Some?;
    }
  }

  /** What the merge as written holds: a key live after the upper segment's records keeps
      that value, and any other key takes its first live value in the lower level. */
  lemma LevelMergeChar(upper: seq<Record>, lower: seq<Record>, k: string)
    ensures k in LevelMerge(upper, lower) <==> k in MergeAll(map[], upper) || FirstLive(lower, k).Some?
    ensures k in LevelMerge(upper, lower) ==>
      LevelMerge(upper, lower)[k] ==
        if k in MergeAll(map[], upper) then MergeAll(map[], upper)[k] else lower[FirstLive(lower, k).value].value.value
  {
    FillFirstChar(MergeAll(map[], upper), lower, k);
  }

  /** The lower level holds each key at most once. */
  predicate DistinctKeys(rs: seq<Record>)
  {
    forall i, j :: 0 <= i < j < |rs| ==> rs[i].key != rs[j].key
  }

  /** The merge as written and the corrected merge agree when the lower level holds each
      key at most once and the upper segment never deletes a key the lower level holds. */
  lemma LevelMergeAgrees(upper: seq<Record>, lower: seq<Record>)
    requires DistinctKeys(lower)
    requires forall i, j :: 0 <= i < |upper| && 0 <= j < |lower| && upper[i].key == lower[j].key ==> upper[i].value.Some?
    ensures LevelMerge(upper, lower) == LevelMergeFixed(upper, lower)
  {
    forall k
      ensures (k in LevelMerge(upper, lower) <==> k in LevelMergeFixed(upper, lower)) &&
              (k in LevelMerge(upper, lower) ==> LevelMerge(upper, lower)[k] == LevelMergeFixed(upper, lower)[k])
    {
      LevelMergeKey(upper, lower, k);
    }
  }

  lemma LevelMergeKey(upper: seq<Record>, lower: seq<Record>, k: string)
    requires DistinctKeys(lower)
    requires forall i, j :: 0 <= i < |upper| && 0 <= j < |lower| && upper[i].key == lower[j].key ==> upper[i].value.Some?
    ensures k in LevelMerge(upper, lower) <==> k in LevelMergeFixed(upper, lower)
    ensures k in LevelMerge(upper, lower) ==> LevelMerge(upper, lower)[k] == LevelMergeFixed(upper, lower)[k]
  {
    LevelMergeChar(upper, lower, k);
    LevelMergeFixedNewest(upper, lower, k);
    MergeLastWrite(upper, k);
    if LastFor(upper, k).None? {
      LastForSkip(lower, upper, k);
      if LastFor(lower, k).Some? && FirstLive(lower, k).Some? {
        assert FirstLive(lower, k) == LastFor(lower, k);
      }
    } else if FirstLive(lower, k).Some? {
      assert upper[LastFor(upper, k).value].value.Some?;
      LastForAppend(lower, upper, k);
    } else {
      LastForAppend(lower, upper, k);
    }
  }

  /** Records after the last one for `k` that are all for other keys do not move it. */
  lemma LastForSkip(a: seq<Record>, b: seq<Record>, k: string)
    requires LastFor(b, k).None?
    ensures LastFor(a + b, k) == LastFor(a, k)
  {
    var rs := a + b;
    if LastFor(a, k).Some? {
      LastForAt(rs, k, LastFor(a, k).value);
    }
  }

  /** The levels after `_compact_level(level)` at time `now`, with its merge as written:
      the level's first segment and every segment of the next level are replaced by one
      segment holding the merge, appended to the next level where the merge is not
      empty. None where the next level does not exist and there is something to write
      (the source indexes past the end of `levels`); a level with no segment is left
      as it is. */
  ghost function CompactedLevels(levels: seq<seq<Seg>>, level: nat, now: int): (r: Option<seq<seq<Seg>>>)
    requires level < |levels|
  {
    if |levels[level]| == 0 then Some(levels)
    else
      var upper := levels[level][0];
      var popped := levels[level := levels[level][1..]];
      if level + 1 < |levels| then
        var records := LevelMerge(upper.records, SegRecords(levels[level + 1]));
        var next := if records == map[] then [] else [Seg(now, RowsOf(SortedKeysOf(records), records))];
        Some(popped[level + 1 := next])
      else if MergeAll(map[], upper.records) == map[] then Some(popped)
      else None
  }

  /** Compaction keeps the number of levels, touches only the level and the next, takes
      the level's first segment and leaves the next level with at most one segment, whose
      records are sorted by key with no tombstone. */
  lemma CompactedShape(levels: seq<seq<Seg>>, level: nat, now: int)
    requires level < |levels|
    ensures var r := CompactedLevels(levels, level, now);
      r.Some? ==> (|r.value| == |levels| &&
                   forall l :: 0 <= l < |levels| && l != level && l != level + 1 ==> r.value[l] == levels[l])
    ensures var r := CompactedLevels(levels, level, now);
      r.Some? && |levels[level]| > 0 ==> r.value[level] == levels[level][1..]
    ensures var r := CompactedLevels(levels, level, now);
      r.Some? && |levels[level]| > 0 && level + 1 < |levels| ==>
        (|r.value[level + 1]| <= 1 &&
         forall s, i, j :: s in r.value[level + 1] && 0 <= i < j < |s.records| ==>
           StrLt(s.records[i].key, s.records[j].key) && s.records[i].value.Some?)
    ensures CompactedLevels(levels, level, now).None? <==>
      |levels[level]| > 0 && level + 1 >= |levels| && MergeAll(map[], levels[level][0].records) != map[]
  {
    if |levels[level]| > 0 && level + 1 < |levels| {
      var records := LevelMerge(levels[level][0].records, SegRecords(levels[level + 1]));
      RowsSorted(records);
    }
  }

  /** `_check_levels()` from `level` on: each level up to the last but one is compacted
      when its size exceeds its limit, in order, each seeing what the one before did. */
  ghost function CheckedFrom(ratio: int, levels: seq<seq<Seg>>, level: nat, now: int): (r: Option<seq<seq<Seg>>>)
    decreases |levels| - level
  {
    if level + 1 >= |levels| then Some(levels)
    else if LevelSize(levels[level]) > LevelSizeLimit(ratio, level) then
      match CompactedLevels(levels, level, now)
      case None => None
      case Some(next) =>
        CompactedShape(levels, level, now);
        CheckedFrom(ratio, next, level + 1, now)
    else CheckedFrom(ratio, levels, level + 1, now)
  }

  /** Checking keeps the number of levels. */
  lemma {:induction false} CheckedKeepsLevels(ratio: int, levels: seq<seq<Seg>>, level: nat, now: int)
    ensures CheckedFrom(ratio, levels, level, now).Some? ==> |CheckedFrom(ratio, levels, level, now).value| == |levels|
    decreases |levels| - level
  {
    if level + 1 < |levels| {
      if LevelSize(levels[level]) > LevelSizeLimit(ratio, level) {
        CompactedShape(levels, level, now);
        if CompactedLevels(levels, level, now).Some? {
          CheckedKeepsLevels(ratio, CompactedLevels(levels, level, now).value, level + 1, now);
        }
      } else {
        CheckedKeepsLevels(ratio, levels, level + 1, now);
      }
    }
  }

  class LeveledCompactor {
    const ratio: int
    const maxLevels: int
    var levels: seq<seq<Seg>>

    /** `levels` has one list per level. */
    ghost predicate Valid()
      reads this
    {
      |levels| == Max(maxLevels, 0)
    }

    /** `LeveledCompactor(log_store, level_size_ratio, max_levels)`: `max_levels` empty
        levels. */
    constructor (ratio: int, maxLevels: int)
      ensures Valid() && this.ratio == ratio && this.maxLevels == maxLevels
      ensures forall l :: 0 <= l < |levels| ==> levels[l] == []
    {
      this.ratio := ratio;
      this.maxLevels := maxLevels;
      levels := seq(Max(maxLevels, 0), _ => []);
    }

    /** `_check_levels()` at time `now`; false where a compaction raised. */
    method CheckLevels(now: int) returns (ok: bool)
      requires Valid()
      modifies this
      ensures ok == CheckedFrom(ratio, old(levels), 0, now).Some?
      ensures ok ==> levels == CheckedFrom(ratio, old(levels), 0, now).value
    {
      var level := 0;
      while level + 1 < maxLevels
        invariant 0 <= level && Valid()
        invariant CheckedFrom(ratio, old(levels), 0, now) == CheckedFrom(ratio, levels, level, now)
        decreases maxLevels - level
      {
        if LevelSize(levels[level]) > LevelSizeLimit(ratio, level) {
          ghost var before := levels;
          ok := CompactLevel(level, now);
          if !ok {
            assert CheckedFrom(ratio, before, level, now).None?;
            return false;
          }
        }
        level := level + 1;
      }
      return true;
    }

    /** `_compact_level(level)` at time `now`; false where it raises. */
    method CompactLevel(level: nat, now: int) returns (ok: bool)
      requires Valid() && level < |levels|
      modifies this
      ensures Valid()
      ensures ok == CompactedLevels(old(levels), level, now).Some?
      ensures ok ==> levels == CompactedLevels(old(levels), level, now).value
      ensures !ok ==> levels == old(levels)[level := old(levels)[level][1..]]
    {
      var r := Compacted(levels, level, now);
      if r.None? {
        levels := levels[level := levels[level][1..]];
        return false;
      }
      CompactedShape(levels, level, now);
      levels := r.value;
      return true;
    }

    /** The levels `_compact_level` leaves, or None where it raises. */
    static method Compacted(levels: seq<seq<Seg>>, level: nat, now: int) returns (r: Option<seq<seq<Seg>>>)
      requires level < |levels|
      ensures r == CompactedLevels(levels, level, now)
    {
      if |levels[level]| == 0 {
        return Some(levels);
      }
      var segment := levels[level][0];
      var popped := levels[level := levels[level][1..]];
      var upper := ApplyRecords(map[], segment.records, []);
      assert [] + segment.records == segment.records;
      if level + 1 < |levels| {
        var records := MergeLower(segment.records, popped[level + 1]);
        if records == map[] {
          return Some(popped[level + 1 := []]);
        }
        var rows := SortedRows(records);
        return Some(popped[level + 1 := [Seg(now, rows)]]);
      }
      if upper != map[] {
        return None;
      }
      return Some(popped);
    }

    /** The upper segment's records, last write wins, and then the loop over the next
        level's segments, which only fills in keys not yet present. */
    static method MergeLower(top: seq<Record>, lower: seq<Seg>) returns (m: map<string, string>)
      ensures m == LevelMerge(top, SegRecords(lower))
    {
      m := ApplyRecords(map[], top, []);
      assert [] + top == top;
      ghost var up := m;
      var s := 0;
      while s < |lower|
        invariant 0 <= s <= |lower| && m == FillFirst(up, SegRecords(lower[..s]))
      {
        assert lower[..s + 1][..s] == lower[..s];
        m := FillRecords(m, lower[s].records, up, SegRecords(lower[..s]));
        s := s + 1;
      }
      assert lower[..s] == lower;
    }
  }
}
