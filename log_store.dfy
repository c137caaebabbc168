/** The log-structured store: records appended to segment files and replayed with the
    last write winning. A segment's file is modelled as its bytes. */
module SegmentLog {
  import opened Common
  import BigEndian
  import Utf8

  const SegmentMaxSize: nat := 1024 * 1024
  const Two32: nat := 0x1_0000_0000

  /** A key with its value, or a tombstone (no value) that deletes the key. */
  datatype Record = Record(key: string, value: Option<string>)

  function ValueBytes(r: Record): seq<byte>
  {
    if r.value.Some? then Utf8.Encode(r.value.value) else []
  }

  /** The bytes `LogSegment.append` writes: the key's and the value's byte lengths as
      unsigned 32-bit big-endian numbers, the deleted flag, the key, the value. None
      where `struct.pack('>I I B', ...)` rejects a length of 2^32 or more. */
  function RecordBytes(r: Record): (b: Option<seq<byte>>)
    ensures b.Some? <==> |Utf8.Encode(r.key)| < Two32 && |ValueBytes(r)| < Two32
    ensures b.Some? ==> |b.value| == 9 + |Utf8.Encode(r.key)| + |ValueBytes(r)|
  {
    var kb := Utf8.Encode(r.key);
    var vb := ValueBytes(r);
    if |kb| < Two32 && |vb| < Two32 then
      Some(Header(|kb|, |vb|, if r.value.None? then 1 else 0) + kb + vb)
    else None
  }

  /** What reading at an offset finds: fewer than nine header bytes (`read_at` returns
      `(None, None, False)` and `iterate` stops), bytes that are not UTF-8 (decoding
      raises), or a record and the offset just after what was read. */
  datatype ReadResult = Short | Garbled | Read(record: Record, next: nat)

  /** `read_at(offset)`, and one step of `iterate`: key and value are read as far as
      the data goes; a tombstone's value bytes are not read. */
  function ReadRecord(data: seq<byte>, off: nat): (r: ReadResult)
    ensures r.Read? ==> off + 9 <= r.next <= |data|
  {
    if off + 9 > |data| then Short
    else ReadBody(data, off + 9, BigEndian.Decode(data[off..off + 4]), BigEndian.Decode(data[off + 4..off + 8]), data[off + 8] != 0)
  }

  /** The key and value after a header giving their lengths and the deleted flag. */
  function ReadBody(data: seq<byte>, ks: nat, kl: nat, vl: nat, deleted: bool): (r: ReadResult)
    requires ks <= |data|
    ensures r.Read? ==> ks <= r.next <= |data|
  {
    var kEnd: nat := Min(ks + kl, |data|);
    match Utf8.Decode(data[ks..kEnd])
    case None => Garbled
    case Some(k) => if deleted then Read(Record(k, None), kEnd) else ReadValue(data, k, kEnd, vl)
  }

  function ReadValue(data: seq<byte>, k: string, kEnd: nat, vl: nat): (r: ReadResult)
    requires kEnd <= |data|
    ensures r.Read? ==> kEnd <= r.next <= |data|
  {
    var vEnd: nat := Min(kEnd + vl, |data|);
    match Utf8.Decode(data[kEnd..vEnd])
    case None => Garbled
    case Some(v) => Read(Record(k, Some(v)), vEnd)
  }

  /** A record read back with the offset it starts at. */
  datatype Entry = Entry(offset: nat, record: Record)

  /** `iterate()` from `off`: the records in order with their offsets, or None where a
      record does not decode. */
  function Scan(data: seq<byte>, off: nat): Option<seq<Entry>>
    decreases |data| - off
  {
    match ReadRecord(data, off)
    case Short => Some([])
    case Garbled => None
    case Read(r, next) =>
      match Scan(data, next)
      case None => None
      case Some(rest) => Some([Entry(off, r)] + rest)
  }

  predicate Writable(rs: seq<Record>)
  {
    forall i :: 0 <= i < |rs| ==> RecordBytes(rs[i]).Some?
  }

  /** The bytes of a segment that has had `rs` appended, in order. */
  function Log(rs: seq<Record>): seq<byte>
    requires Writable(rs)
  {
    if |rs| == 0 then [] else RecordBytes(rs[0]).value + Log(rs[1..])
  }

  /** The records `rs` as `iterate` reports them when they start at `off`. */
  function Entries(rs: seq<Record>, off: nat): seq<Entry>
    requires Writable(rs)
  {
    if |rs| == 0 then [] else [Entry(off, rs[0])] + Entries(rs[1..], off + |RecordBytes(rs[0]).value|)
  }

  /** A record reads back as itself, ending right after its bytes. */
  lemma ReadRoundTrip(r: Record, data: seq<byte>, off: nat, b: seq<byte>, e: nat)
    requires RecordBytes(r) == Some(b) && At(data, off, b) && e == off + |b|
    ensures ReadRecord(data, off) == Read(r, e)
  {
    var kb := Utf8.Encode(r.key);
    var vb := ValueBytes(r);
    var flag: byte := if r.value.None? then 1 else 0;
    var h := Header(|kb|, |vb|, flag);
    assert b == h + (kb + vb);
    AtSplit(data, off, h, kb + vb);
    HeaderRead(data, off, |kb|, |vb|, flag);
    Utf8.RoundTrip(r.key);
    if r.value.Some? {
      Utf8.RoundTrip(r.value.value);
    }
    ReadBodyOf(data, off + 9, kb, vb, r, e);
  }

  /** The nine header bytes: both lengths and the deleted flag. */
  function Header(kl: nat, vl: nat, flag: byte): (h: seq<byte>)
    requires kl < Two32 && vl < Two32
    ensures |h| == 9
  {
    assert BigEndian.Pow256(4) == Two32;
    BigEndian.Encode(kl, 4) + BigEndian.Encode(vl, 4) + [flag]
  }

  lemma HeaderRead(data: seq<byte>, off: nat, kl: nat, vl: nat, flag: byte)
    requires kl < Two32 && vl < Two32 && At(data, off, Header(kl, vl, flag))
    ensures off + 9 <= |data|
    ensures BigEndian.Decode(data[off..off + 4]) == kl && BigEndian.Decode(data[off + 4..off + 8]) == vl
    ensures data[off + 8] == flag
  {
    assert BigEndian.Pow256(4) == Two32;
    var h1 := BigEndian.Encode(kl, 4);
    var h2 := BigEndian.Encode(vl, 4);
    AtSplit(data, off, h1 + h2, [flag]);
    AtSplit(data, off, h1, h2);
    BigEndian.DecodeEncode(kl, 4);
    BigEndian.DecodeEncode(vl, 4);
  }

  lemma ReadBodyOf(data: seq<byte>, ks: nat, kb: seq<byte>, vb: seq<byte>, r: Record, e: nat)
    requires At(data, ks, kb + vb) && e == ks + |kb| + |vb|
    requires Utf8.Decode(kb) == Some(r.key)
    requires r.value.Some? ==> Utf8.Decode(vb) == Some(r.value.value)
    requires r.value.None? ==> vb == []
    ensures ReadBody(data, ks, |kb|, |vb|, r.value.None?) == Read(r, e)
  {
    var kEnd := KeyAt(data, ks, kb, vb);
    if r.value.Some? {
      ReadValueOf(data, r.key, kEnd, vb, r.value.value, e);
    }
  }

  /** The key's bytes, cut out where the header says they end. */
  lemma KeyAt(data: seq<byte>, ks: nat, kb: seq<byte>, vb: seq<byte>) returns (kEnd: nat)
    requires At(data, ks, kb + vb)
    ensures kEnd == ks + |kb| && Min(ks + |kb|, |data|) == kEnd && data[ks..kEnd] == kb
    ensures At(data, kEnd, vb)
  {
    AtSplit(data, ks, kb, vb);
    kEnd := ks + |kb|;
  }

  lemma ReadValueOf(data: seq<byte>, k: string, kEnd: nat, vb: seq<byte>, v: string, e: nat)
    requires At(data, kEnd, vb) && e == kEnd + |vb|
    requires Utf8.Decode(vb) == Some(v)
    ensures ReadValue(data, k, kEnd, |vb|) == Read(Record(k, Some(v)), e)
  {
  }

  /** `iterate` over a segment written by appends reports every record in append
      order, each at the offset it was written at. */
  lemma {:induction false} ScanLog(rs: seq<Record>, data: seq<byte>, off: nat)
    requires Writable(rs) && At(data, off, Log(rs)) && off + |Log(rs)| == |data|
    ensures Scan(data, off) == Some(Entries(rs, off))
    decreases |rs|
  {
    if |rs| > 0 {
      var b, n := LogFront(rs, data, off);
      ReadRoundTrip(rs[0], data, off, b, n);
      ScanLog(rs[1..], data, n);
      ScanStep(data, off, rs[0], n, Entries(rs[1..], n));
    } else {
      ScanEnd(data, off);
    }
  }

  lemma ScanEnd(data: seq<byte>, off: nat)
    requires off == |data|
    ensures Scan(data, off) == Some([])
  {
  }

  /** The first record of a written log and the records after it. */
  lemma LogFront(rs: seq<Record>, data: seq<byte>, off: nat) returns (b: seq<byte>, n: nat)
    requires Writable(rs) && |rs| > 0 && At(data, off, Log(rs)) && off + |Log(rs)| == |data|
    ensures Writable(rs[1..]) && RecordBytes(rs[0]) == Some(b) && n == off + |b|
    ensures At(data, off, b) && At(data, n, Log(rs[1..])) && n + |Log(rs[1..])| == |data|
    ensures Entries(rs, off) == [Entry(off, rs[0])] + Entries(rs[1..], n)
  {
    b := RecordBytes(rs[0]).value;
    n := off + |b|;
    EntriesCons(rs, off, b, n);
    AtSplit(data, off, b, Log(rs[1..]));
  }

  lemma EntriesCons(rs: seq<Record>, off: nat, b: seq<byte>, n: nat)
    requires Writable(rs) && |rs| > 0 && RecordBytes(rs[0]) == Some(b) && n == off + |b|
    ensures Writable(rs[1..])
    ensures Entries(rs, off) == [Entry(off, rs[0])] + Entries(rs[1..], n)
    ensures Log(rs) == b + Log(rs[1..])
  {
  }

  lemma ScanStep(data: seq<byte>, off: nat, r: Record, n: nat, rest: seq<Entry>)
    requires ReadRecord(data, off) == Read(r, n) && Scan(data, n) == Some(rest)
    ensures Scan(data, off) == Some([Entry(off, r)] + rest)
  {
  }

  /** Appending a record adds its bytes at the end, and its entry at the end, at the
      offset the segment's size was. */
  lemma LogSnoc(rs: seq<Record>, r: Record)
    requires Writable(rs) && RecordBytes(r).Some?
    ensures Writable(rs + [r])
    ensures Log(rs + [r]) == Log(rs) + RecordBytes(r).value
    ensures Entries(rs + [r], 0) == Entries(rs, 0) + [Entry(|Log(rs)|, r)]
  {
    LogSnocBytes(rs, r);
    EntriesSnoc(rs, r, 0, |Log(rs)|);
  }

  lemma {:induction false} LogSnocBytes(rs: seq<Record>, r: Record)
    requires Writable(rs) && RecordBytes(r).Some?
    ensures Writable(rs + [r])
    ensures Log(rs + [r]) == Log(rs) + RecordBytes(r).value
    decreases |rs|
  {
    WritableSnoc(rs, r);
    if |rs| > 0 {
      LogSnocBytes(rs[1..], r);
      LogSnocCons(rs, r, RecordBytes(rs[0]).value);
    } else {
      assert rs + [r] == [r];
    }
  }

  /** One step of `LogSnocBytes`: the first record's bytes stay in front. */
  lemma LogSnocCons(rs: seq<Record>, r: Record, b: seq<byte>)
    requires Writable(rs) && |rs| > 0 && RecordBytes(rs[0]) == Some(b) && RecordBytes(r).Some?
    requires Writable(rs[1..] + [r]) && Log(rs[1..] + [r]) == Log(rs[1..]) + RecordBytes(r).value
    ensures Writable(rs + [r]) && Log(rs + [r]) == Log(rs) + RecordBytes(r).value
  {
    var rs' := rs + [r];
    WritableSnoc(rs, r);
    TailSnoc(rs, r);
    LogCons(rs, b);
    LogCons(rs', b);
    AppendAssoc(b, Log(rs[1..]), RecordBytes(r).value);
  }

  lemma LogCons(rs: seq<Record>, b: seq<byte>)
    requires Writable(rs) && |rs| > 0 && RecordBytes(rs[0]) == Some(b)
    ensures Writable(rs[1..]) && Log(rs) == b + Log(rs[1..])
  {
  }

  lemma {:induction false} EntriesSnoc(rs: seq<Record>, r: Record, off: nat, e: nat)
    requires Writable(rs) && RecordBytes(r).Some? && e == off + |Log(rs)|
    ensures Writable(rs + [r])
    ensures Entries(rs + [r], off) == Entries(rs, off) + [Entry(e, r)]
    decreases |rs|
  {
    var rs' := rs + [r];
    WritableSnoc(rs, r);
    var last := Entry(e, r);
    if |rs| > 0 {
      var b := RecordBytes(rs[0]).value;
      var n := off + |b|;
      assert rs'[1..] == rs[1..] + [r];
      EntriesCons(rs, off, b, n);
      EntriesCons(rs', off, b, n);
      EntriesSnoc(rs[1..], r, n, e);
      var tail := Entries(rs[1..], n);
      assert [Entry(off, rs[0])] + (tail + [last]) == ([Entry(off, rs[0])] + tail) + [last];
    } else {
      assert rs' == [r];
      EntriesCons(rs', off, RecordBytes(r).value, off + |RecordBytes(r).value|);
    }
  }

  lemma WritableSnoc(rs: seq<Record>, r: Record)
    requires Writable(rs) && RecordBytes(r).Some?
    ensures Writable(rs + [r])
  {
    var rs' := rs + [r];
    forall i | 0 <= i < |rs'| ensures RecordBytes(rs'[i]).Some? {
      if i < |rs| { assert rs'[i] == rs[i]; }
    }
  }

  /** `Then(acc, rest)` prefixes what is still to be read with what was read. */
  function Then(acc: seq<Entry>, rest: Option<seq<Entry>>): Option<seq<Entry>>
  {
    if rest.Some? then Some(acc + rest.value) else None
  }

  /** A segment file, held as its bytes. */
  class LogSegment {
    const id: int
    var data: seq<byte>
    /** The records appended so far. */
    ghost var records: seq<Record>

    ghost predicate Valid()
      reads this
    {
      Writable(records) && data == Log(records)
    }

    /** A segment whose file does not exist yet. */
    constructor (id: int)
      ensures this.id == id && records == [] && data == [] && Valid()
    {
      this.id := id;
      data := [];
      records := [];
    }

    /** `size`, the number of bytes in the file. */
    function Size(): nat
      reads this
    {
      |data|
    }

    /** `append(key, value)`: the offset the record starts at, the old size; None where
        packing the header raises, and then nothing is written. */
    method Append(key: string, value: Option<string>) returns (offset: Option<nat>)
      requires Valid()
      modifies this
      ensures Valid()
      ensures RecordBytes(Record(key, value)).Some? ==>
        offset == Some(old(Size())) && records == old(records) + [Record(key, value)] &&
        data == old(data) + RecordBytes(Record(key, value)).value
      ensures RecordBytes(Record(key, value)).None? ==>
        offset.None? && records == old(records) && data == old(data)
    {
      var r := Record(key, value);
      var b := RecordBytes(r);
      if b.None? {
        return None;
      }
      LogSnoc(records, r);
      offset := Some(|data|);
      data := data + b.value;
      records := records + [r];
    }

    /** `read_at(offset)`: nothing when fewer than the 9 header bytes remain; a record read
        ends after its header and inside the file. */
    function ReadAt(offset: nat): (r: ReadResult)
      reads this
      ensures offset + 9 > |data| <==> r.Short?
      ensures r.Read? ==> offset + 9 <= r.next <= |data|
    {
      ReadRecord(data, offset)
    }

    /** `iterate()`: the loop reading one record after another until the header
        runs short. */
    method Iterate() returns (r: Option<seq<Entry>>)
      ensures r == Scan(data, 0)
    {
      var off: nat := 0;
      var acc: seq<Entry> := [];
      assert Scan(data, 0).Some? ==> [] + Scan(data, 0).value == Scan(data, 0).value;
      while true
        invariant Scan(data, 0) == Then(acc, Scan(data, off))
        decreases |data| - off
      {
        match ReadRecord(data, off)
        case Short =>
          assert acc + [] == acc;
          return Some(acc);
        case Garbled =>
          return None;
        case Read(rec, next) =>
          assert Then(acc, Scan(data, off)) == Then(acc + [Entry(off, rec)], Scan(data, next)) by {
            if Scan(data, next).Some? {
              assert acc + ([Entry(off, rec)] + Scan(data, next).value) == acc + [Entry(off, rec)] + Scan(data, next).value;
            }
          }
          acc := acc + [Entry(off, rec)];
          off := next;
      }
    }

    /** `is_full()`: the file has reached the 1 MiB segment size. */
    function IsFull(): (r: bool)
      reads this
      ensures r <==> Size() >= SegmentMaxSize
    {
      |data| >= SegmentMaxSize
    }
  }

  /** A segment that was only ever appended to reads back as its records, at the
      offsets `append` returned. */
  lemma IterateRecords(s: LogSegment)
    requires s.Valid()
    ensures Scan(s.data, 0) == Some(Entries(s.records, 0))
  {
    assert s.data[0..|s.data|] == s.data;
    ScanLog(s.records, s.data, 0);
  }

  /** The record of `rs`, laid out from `start`, that begins at offset `off`. */
  function RecordAt(rs: seq<Record>, start: nat, off: nat): Option<Record>
    requires Writable(rs)
  {
    if |rs| == 0 then None
    else if off == start then Some(rs[0])
    else RecordAt(rs[1..], start + |RecordBytes(rs[0]).value|, off)
  }

  /** Records begin inside the log. */
  lemma {:induction false} RecordAtBound(rs: seq<Record>, start: nat, off: nat)
    requires Writable(rs) && RecordAt(rs, start, off).Some?
    ensures start <= off < start + |Log(rs)|
  {
    if off != start {
      RecordAtBound(rs[1..], start + |RecordBytes(rs[0]).value|, off);
    }
  }

  /** Appending a record keeps every earlier record where it was and puts the new one at
      the old end of the log. */
  lemma {:induction false} RecordAtSnoc(rs: seq<Record>, r: Record, start: nat, off: nat)
    requires Writable(rs) && RecordBytes(r).Some?
    ensures Writable(rs + [r])
    ensures off < start + |Log(rs)| ==> RecordAt(rs + [r], start, off) == RecordAt(rs, start, off)
    ensures off == start + |Log(rs)| ==> RecordAt(rs + [r], start, off) == Some(r)
  {
    WritableSnoc(rs, r);
    if |rs| > 0 {
      var b := RecordBytes(rs[0]).value;
      LogCons(rs, b);
      TailSnoc(rs, r);
      if off != start {
        RecordAtSnoc(rs[1..], r, start + |b|, off);
      }
    } else {
      assert (rs + [r])[1..] == [];
    }
  }

  /** A record that begins at `off` in a segment's bytes is what `read_at(off)` reads. */
  lemma {:induction false} RecordAtRead(rs: seq<Record>, data: seq<byte>, start: nat, off: nat)
    requires Writable(rs) && At(data, start, Log(rs)) && start + |Log(rs)| == |data|
    requires RecordAt(rs, start, off).Some?
    ensures ReadRecord(data, off).Read? && ReadRecord(data, off).record == RecordAt(rs, start, off).value
  {
    var b, n := LogFront(rs, data, start);
    if off == start {
      ReadRoundTrip(rs[0], data, start, b, n);
    } else {
      RecordAtRead(rs[1..], data, n, off);
    }
  }
}

/** The store over a list of segments: put with rollover, last-write-wins replay,
    and the segment list bookkeeping compaction relies on. */
module SegmentStore {
  import opened Common
  import opened SegmentLog

  /** Where `get_all_records` says a key's live value is: segment id, offset, value. */
  datatype Located = Located(segment: int, offset: nat, value: string)

  /** A record read back from a segment, with that segment's id. */
  datatype Tagged = Tagged(segment: int, entry: Entry)

  function Tag(id: int, es: seq<Entry>): (ts: seq<Tagged>)
    ensures |ts| == |es|
    ensures forall i :: 0 <= i < |es| ==> ts[i] == Tagged(id, es[i])
  {
    if |es| == 0 then [] else Tag(id, es[..|es| - 1]) + [Tagged(id, es[|es| - 1])]
  }

  /** A segment's id with the records `iterate` reports for it. */
  datatype View = View(id: int, entries: seq<Entry>)

  /** All records of all segments, in segment-list order. */
  function Flatten(vs: seq<View>): seq<Tagged>
  {
    if |vs| == 0 then [] else Flatten(vs[..|vs| - 1]) + Tag(vs[|vs| - 1].id, vs[|vs| - 1].entries)
  }

  /** One step of `get_all_records`: a tombstone pops the key, a value (re)places it. */
  function Apply(m: map<string, Located>, t: Tagged): map<string, Located>
  {
    var r := t.entry.record;
    if r.value.None? then m - {r.key} else m[r.key := Located(t.segment, t.entry.offset, r.value.value)]
  }

  /** The dictionary built by applying the records in order. */
  function Replay(ts: seq<Tagged>): map<string, Located>
  {
    if |ts| == 0 then map[] else Apply(Replay(ts[..|ts| - 1]), ts[|ts| - 1])
  }

  /** The position of the last record for `k`, if there is one. */
  function LastWrite(ts: seq<Tagged>, k: string): (r: Option<nat>)
    ensures r.Some? ==> r.value < |ts| && ts[r.value].entry.record.key == k
    ensures r.Some? ==> forall j :: r.value < j < |ts| ==> ts[j].entry.record.key != k
    ensures r.None? ==> forall j :: 0 <= j < |ts| ==> ts[j].entry.record.key != k
  {
    if |ts| == 0 then None
    else if ts[|ts| - 1].entry.record.key == k then Some(|ts| - 1)
    else LastWrite(ts[..|ts| - 1], k)
  }

  /** Last write wins: a key is live exactly when its last record is not a tombstone,
      and it is then located at that record. */
  lemma {:induction false} ReplayLastWrite(ts: seq<Tagged>, k: string)
    ensures k in Replay(ts) <==> LastWrite(ts, k).Some? && ts[LastWrite(ts, k).value].entry.record.value.Some?
    ensures k in Replay(ts) ==>
      var t := ts[LastWrite(ts, k).value];
      Replay(ts)[k] == Located(t.segment, t.entry.offset, t.entry.record.value.value)
  {
    if |ts| > 0 {
      var init := ts[..|ts| - 1];
      ReplayLastWrite(init, k);
      if ts[|ts| - 1].entry.record.key != k {
        assert LastWrite(ts, k) == LastWrite(init, k);
        if LastWrite(init, k).Some? {
          assert ts[LastWrite(init, k).value] == init[LastWrite(init, k).value];
        }
      }
    }
  }

  lemma FlattenSnoc(vs: seq<View>, v: View)
    ensures Flatten(vs + [v]) == Flatten(vs) + Tag(v.id, v.entries)
  {
    assert (vs + [v])[..|vs|] == vs;
  }

  lemma TagSnoc(id: int, es: seq<Entry>, e: Entry)
    ensures Tag(id, es + [e]) == Tag(id, es) + [Tagged(id, e)]
  {
    assert (es + [e])[..|es|] == es;
  }

  lemma ReplayStep(done: seq<Tagged>, id: int, entries: seq<Entry>, j: nat)
    requires j < |entries|
    ensures Replay(done + Tag(id, entries[..j + 1])) == Apply(Replay(done + Tag(id, entries[..j])), Tagged(id, entries[j]))
  {
    TagSnoc(id, entries[..j], entries[j]);
    assert entries[..j + 1] == entries[..j] + [entries[j]];
    assert done + Tag(id, entries[..j + 1]) == (done + Tag(id, entries[..j])) + [Tagged(id, entries[j])];
    ReplaySnoc(done + Tag(id, entries[..j]), Tagged(id, entries[j]));
  }

  lemma ReplaySnoc(ts: seq<Tagged>, t: Tagged)
    ensures Replay(ts + [t]) == Apply(Replay(ts), t)
  {
    assert (ts + [t])[..|ts|] == ts;
  }

  /** The records of each segment, in segment-list order. */
  ghost function RecordsOf(ss: seq<LogSegment>): (rs: seq<seq<Record>>)
    reads set s | s in ss
    ensures |rs| == |ss| && forall i :: 0 <= i < |ss| ==> rs[i] == ss[i].records
  {
    if |ss| == 0 then [] else RecordsOf(ss[..|ss| - 1]) + [ss[|ss| - 1].records]
  }

  /** Every segment holds exactly the bytes of the records appended to it. */
  ghost predicate AllValid(ss: seq<LogSegment>)
    reads set s | s in ss
  {
    forall i :: 0 <= i < |ss| ==> ss[i].Valid()
  }

  /** The list `replace_segments` builds holds only valid segments. */
  lemma ReplaceValid(ss: seq<LogSegment>, ids: set<int>, n: LogSegment)
    requires AllValid(ss) && n.Valid()
    ensures AllValid(Inserted(OutsideIds(ss, ids), n))
  {
    OutsideValid(ss, ids);
    var kept := OutsideIds(ss, ids);
    InsertedAt(kept, n);
  }

  lemma {:induction false} OutsideValid(ss: seq<LogSegment>, ids: set<int>)
    requires AllValid(ss)
    ensures AllValid(OutsideIds(ss, ids))
  {
    if |ss| > 0 {
      assert AllValid(ss[1..]);
      OutsideValid(ss[1..], ids);
    }
  }

  ghost predicate AllWritable(ss: seq<LogSegment>)
    reads set s | s in ss
  {
    forall i :: 0 <= i < |ss| ==> Writable(ss[i].records)
  }

  lemma ValidWritable(ss: seq<LogSegment>)
    requires AllValid(ss)
    ensures AllWritable(ss) && |Views(ss)| == |ss|
  {
    assert AllWritable(ss);
    ViewsLength(ss);
  }

  /** The view of the `i`-th segment: its id and the records `iterate` reports. */
  lemma {:induction false} ViewsAt(ss: seq<LogSegment>, i: nat)
    requires i < |ss| && AllValid(ss)
    ensures AllWritable(ss) && |Views(ss)| == |ss|
    ensures Views(ss)[i] == View(ss[i].id, Entries(ss[i].records, 0))
    ensures Scan(ss[i].data, 0) == Some(Entries(ss[i].records, 0))
  {
    assert ss[i].Valid();
    IterateRecords(ss[i]);
    ViewsShape(ss, i);
  }

  lemma {:induction false} ViewsShape(ss: seq<LogSegment>, i: nat)
    requires i < |ss| && AllWritable(ss)
    ensures |Views(ss)| == |ss|
    ensures Views(ss)[i] == View(ss[i].id, Entries(ss[i].records, 0))
    decreases |ss|
  {
    var init := ss[..|ss| - 1];
    assert AllWritable(init);
    ViewsLength(init);
    if i < |ss| - 1 {
      ViewsShape(init, i);
    }
  }

  lemma {:induction false} ViewsLength(ss: seq<LogSegment>)
    requires AllWritable(ss)
    ensures |Views(ss)| == |ss|
    decreases |ss|
  {
    if |ss| > 0 {
      var init := ss[..|ss| - 1];
      assert AllWritable(init);
      ViewsLength(init);
    }
  }

  /** The segments a store holds, with what `iterate` reports for each. */
  ghost function Views(ss: seq<LogSegment>): (vs: seq<View>)
    reads set s | s in ss
    requires AllWritable(ss)
  {
    if |ss| == 0 then [] else Views(ss[..|ss| - 1]) + [View(ss[|ss| - 1].id, Entries(ss[|ss| - 1].records, 0))]
  }

  /** The whole store: the segment list in order and the segment being appended to. */
  class LogStore {
    var segments: seq<LogSegment>
    var active: LogSegment

    ghost predicate Valid()
      reads this, active, set s | s in segments
    {
      active.Valid() && AllValid(segments)
    }

    /** A store over an empty directory: one new segment, number 0. */
    constructor ()
      ensures Valid() && |segments| == 1 && active == segments[0]
      ensures active.id == 0 && active.records == []
    {
      var s := new LogSegment(0);
      segments := [s];
      active := s;
    }

    /** `_create_new_segment`: the next id is the current number of segments. */
    method CreateNewSegment() returns (s: LogSegment)
      requires Valid()
      modifies this
      ensures fresh(s) && s.id == |old(segments)| && s.records == []
      ensures segments == old(segments) + [s] && active == s
      ensures Valid()
    {
      s := new LogSegment(|segments|);
      segments := segments + [s];
      active := s;
    }

    /** `put(key, value)`: roll over to a new segment when the active one is full, then
        append there; the segment id and offset, or None where packing the record fails. */
    method Put(key: string, value: Option<string>) returns (r: Option<(int, nat)>)
      requires Valid()
      modifies this, active
      ensures Valid()
      ensures old(active.IsFull()) ==>
        fresh(active) && active.id == |old(segments)| && segments == old(segments) + [active]
      ensures !old(active.IsFull()) ==> active == old(active) && segments == old(segments)
      ensures old(active.IsFull()) ==> old(active).records == old(active.records)
      ensures var before := if old(active.IsFull()) then [] else old(active.records);
        var before_size := if old(active.IsFull()) then 0 else old(active.Size());
        if RecordBytes(Record(key, value)).Some? then
          r == Some((active.id, before_size)) && active.records == before + [Record(key, value)]
        else r.None? && active.records == before
    {
      if active.IsFull() {
        var _ := CreateNewSegment();
      }
      var offset := active.Append(key, value);
      if offset.None? {
        return None;
      }
      r := Some((active.id, offset.value));
    }

    /** `delete(key)`: appends a tombstone. */
    method Delete(key: string) returns (r: Option<(int, nat)>)
      requires Valid()
      modifies this, active
      ensures Valid()
      ensures old(active.IsFull()) ==>
        fresh(active) && active.id == |old(segments)| && segments == old(segments) + [active]
      ensures !old(active.IsFull()) ==> active == old(active) && segments == old(segments)
      ensures old(active.IsFull()) ==> old(active).records == old(active.records)
      ensures var before := if old(active.IsFull()) then [] else old(active.records);
        var before_size := if old(active.IsFull()) then 0 else old(active.Size());
        if RecordBytes(Record(key, None)).Some? then
          r == Some((active.id, before_size)) && active.records == before + [Record(key, None)]
        else r.None? && active.records == before
    {
      r := Put(key, None);
    }

    /** `get_all_records()`: every record of every segment applied in order. */
    method GetAllRecords() returns (m: map<string, Located>)
      requires Valid()
      ensures AllWritable(segments) && m == Replay(Flatten(Views(segments)))
    {
      ValidWritable(segments);
      ghost var vs := Views(segments);
      m := map[];
      var i := 0;
      while i < |segments|
        invariant 0 <= i <= |segments|
        invariant m == Replay(Flatten(vs[..i]))
      {
        ViewsAt(segments, i);
        var es := segments[i].Iterate();
        m := ApplySegment(m, vs, i, segments[i].id, es.value);
        i := i + 1;
      }
      assert vs[..i] == vs;
    }

    /** The inner loop of `get_all_records`: the `i`-th segment's records applied in
        order. */
    static method ApplySegment(m0: map<string, Located>, ghost vs: seq<View>, ghost i: nat, id: int, entries: seq<Entry>)
      returns (m: map<string, Located>)
      requires i < |vs| && vs[i] == View(id, entries) && m0 == Replay(Flatten(vs[..i]))
      ensures m == Replay(Flatten(vs[..i + 1]))
    {
      ghost var done := Flatten(vs[..i]);
      m := m0;
      var j := 0;
      assert done + Tag(id, entries[..0]) == done;
      while j < |entries|
        invariant 0 <= j <= |entries|
        invariant m == Replay(done + Tag(id, entries[..j]))
      {
        var e := entries[j];
        ReplayStep(done, id, entries, j);
        if e.record.value.None? {
          m := m - {e.record.key};
        } else {
          m := m[e.record.key := Located(id, e.offset, e.record.value.value)];
        }
        j := j + 1;
      }
      assert entries[..j] == entries;
      FlattenSnoc(vs[..i], vs[i]);
      assert vs[..i + 1] == vs[..i] + [vs[i]];
    }

    /** `get_segment(id)`: the first segment with that id. */
    method GetSegment(id: int) returns (r: Option<LogSegment>)
      ensures r.Some? ==> exists i :: FirstWithId(segments, id, i) && segments[i] == r.value
      ensures r.None? <==> forall i :: 0 <= i < |segments| ==> segments[i].id != id
    {
      var i := 0;
      while i < |segments|
        invariant 0 <= i <= |segments|
        invariant forall j :: 0 <= j < i ==> segments[j].id != id
      {
        if segments[i].id == id {
          return Some(segments[i]);
        }
        i := i + 1;
      }
      return None;
    }

    /** `get_segments_to_compact(threshold)`: up to `threshold` segments, leaving out the
        last one and the active one. */
    function SegmentsToCompact(threshold: int): (r: seq<LogSegment>)
      reads this
      ensures threshold >= 0 ==> |r| <= threshold
      ensures forall i :: 0 <= i < |r| ==> r[i] in PySlice(segments, 0, -1) && r[i] != active
    {
      var candidates := Without(PySlice(segments, 0, -1), active);
      WithoutHas(PySlice(segments, 0, -1), active);
      PySliceWithin(candidates, 0, threshold);
      PySlice(candidates, 0, threshold)
    }

    /** `replace_segments(old, new)`: drop every segment whose id is among the old ones,
        then insert the new one before the first remaining segment with a larger id. */
    method ReplaceSegments(olds: seq<LogSegment>, n: LogSegment)
      requires Valid() && n.Valid()
      modifies this
      ensures Valid() && active == old(active)
      ensures segments == Inserted(OutsideIds(old(segments), IdsOf(olds)), n)
    {
      var oldIds := IdsOf(olds);
      var kept := OutsideIds(segments, oldIds);
      var pos := InsertPosition(kept, n);
      ReplaceValid(segments, oldIds, n);
      segments := kept[..pos] + [n] + kept[pos..];
    }
  }

  /** The `for` loop of `replace_segments`: the first position whose id exceeds the new
      segment's, or the end. */
  method InsertPosition(kept: seq<LogSegment>, n: LogSegment) returns (pos: nat)
    ensures pos <= |kept| && pos == InsertionPoint(kept, n.id)
    ensures Inserted(kept, n) == kept[..pos] + [n] + kept[pos..]
  {
    pos := 0;
    var i := 0;
    while i < |kept|
      invariant 0 <= i <= |kept| && pos == i
      invariant forall j :: 0 <= j < i ==> kept[j].id <= n.id
    {
      if kept[i].id > n.id {
        pos := i;
        break;
      }
      pos := i + 1;
      i := i + 1;
    }
    InsertPos(kept, n, pos);
  }

  /** `i` is the position of the first segment with id `id`. */
  predicate FirstWithId(ss: seq<LogSegment>, id: int, i: int)
  {
    0 <= i < |ss| && ss[i].id == id && forall j :: 0 <= j < i ==> ss[j].id != id
  }

  /** The segments other than `x`, in order. */
  function Without(ss: seq<LogSegment>, x: LogSegment): seq<LogSegment>
  {
    if |ss| == 0 then [] else (if ss[0] == x then [] else [ss[0]]) + Without(ss[1..], x)
  }

  /** `Without` keeps exactly the segments other than `x`. */
  lemma {:induction false} WithoutHas(ss: seq<LogSegment>, x: LogSegment)
    ensures forall s :: s in Without(ss, x) <==> s in ss && s != x
  {
    if |ss| > 0 {
      WithoutHas(ss[1..], x);
      assert ss == [ss[0]] + ss[1..];
    }
  }

  /** `{s.segment_id for s in old_segments}` */
  function IdsOf(ss: seq<LogSegment>): (ids: set<int>)
    ensures forall i :: 0 <= i < |ss| ==> ss[i].id in ids
    ensures forall id :: id in ids ==> exists i :: 0 <= i < |ss| && ss[i].id == id
  {
    set i | 0 <= i < |ss| :: ss[i].id
  }

  /** The segments whose id is not among `ids`, in order. */
  function OutsideIds(ss: seq<LogSegment>, ids: set<int>): seq<LogSegment>
  {
    if |ss| == 0 then []
    else
      var rest := OutsideIds(ss[1..], ids);
      if ss[0].id in ids then rest
      else
        [ss[0]] + rest
  }

  /** `OutsideIds` keeps exactly the segments whose id is not among `ids`, in their
      order. */
  lemma {:induction false} OutsideIdsHas(ss: seq<LogSegment>, ids: set<int>)
    ensures forall s :: s in OutsideIds(ss, ids) <==> s in ss && s.id !in ids
  {
    if |ss| > 0 {
      OutsideIdsHas(ss[1..], ids);
      assert ss == [ss[0]] + ss[1..];
    }
  }

  lemma {:induction false} OutsideIdsSorted(ss: seq<LogSegment>, ids: set<int>)
    requires SortedIds(ss)
    ensures SortedIds(OutsideIds(ss, ids))
  {
    if |ss| > 0 {
      OutsideIdsSorted(ss[1..], ids);
      if ss[0].id !in ids {
        OutsideIdsBound(ss[1..], ids, ss[0].id);
        SortedCons(ss[0], OutsideIds(ss[1..], ids));
      }
    }
  }

  lemma {:induction false} OutsideIdsBound(ss: seq<LogSegment>, ids: set<int>, x: int)
    requires AtLeast(x, ss)
    ensures AtLeast(x, OutsideIds(ss, ids))
  {
    if |ss| > 0 {
      OutsideIdsBound(ss[1..], ids, x);
    }
  }

  /** The ids ascend along the list (repeats allowed). */
  predicate SortedIds(ss: seq<LogSegment>)
  {
    forall i, j :: 0 <= i < j < |ss| ==> ss[i].id <= ss[j].id
  }

  /** The position of the first segment whose id exceeds `id`, or the end. */
  function InsertionPoint(ss: seq<LogSegment>, id: int): (p: nat)
    ensures p <= |ss|
    ensures forall j :: 0 <= j < p ==> ss[j].id <= id
    ensures p < |ss| ==> ss[p].id > id
  {
    if |ss| == 0 || ss[0].id > id then 0 else 1 + InsertionPoint(ss[1..], id)
  }

  /** The list with `n` put in at its insertion point. */
  function Inserted(ss: seq<LogSegment>, n: LogSegment): (r: seq<LogSegment>)
    ensures |r| == |ss| + 1
  {
    var p := InsertionPoint(ss, n.id);
    ss[..p] + [n] + ss[p..]
  }

  /** The position the `for` loop of `replace_segments` settles on is the insertion
      point: the first id that exceeds the new one, or the end. */
  lemma {:induction false} InsertPos(ss: seq<LogSegment>, n: LogSegment, p: nat)
    requires p <= |ss| && forall j :: 0 <= j < p ==> ss[j].id <= n.id
    requires p < |ss| ==> ss[p].id > n.id
    ensures InsertionPoint(ss, n.id) == p
    ensures Inserted(ss, n) == ss[..p] + [n] + ss[p..]
  {
    if p > 0 {
      InsertPos(ss[1..], n, p - 1);
    }
  }

  /** Replacing segments keeps the list in ascending id order, and leaves no segment
      carrying one of the old ids other than the new one. */
  lemma ReplaceKeepsOrder(ss: seq<LogSegment>, ids: set<int>, n: LogSegment)
    requires SortedIds(ss)
    ensures SortedIds(Inserted(OutsideIds(ss, ids), n))
    ensures var r := Inserted(OutsideIds(ss, ids), n);
      forall i :: 0 <= i < |r| && r[i] != n ==> r[i].id !in ids
  {
    var kept := OutsideIds(ss, ids);
    OutsideIdsHas(ss, ids);
    OutsideIdsSorted(ss, ids);
    InsertedSorted(kept, n);
    InsertedHas(kept, n);
    var r := Inserted(kept, n);
    forall i | 0 <= i < |r| && r[i] != n ensures r[i].id !in ids {
      assert r[i] in r;
    }
  }

  lemma {:induction false} InsertedSorted(ss: seq<LogSegment>, n: LogSegment)
    requires SortedIds(ss)
    ensures SortedIds(Inserted(ss, n))
  {
    if |ss| == 0 || ss[0].id > n.id {
      InsertedFront(ss, n);
      SortedCons(n, ss);
    } else {
      var t := ss[1..];
      InsertedCons(ss, n);
      InsertedSorted(t, n);
      InsertedBound(t, n, ss[0].id);
      SortedCons(ss[0], Inserted(t, n));
    }
  }

  lemma InsertedFront(ss: seq<LogSegment>, n: LogSegment)
    requires |ss| == 0 || ss[0].id > n.id
    ensures Inserted(ss, n) == [n] + ss
  {
  }

  lemma InsertedCons(ss: seq<LogSegment>, n: LogSegment)
    requires |ss| > 0 && ss[0].id <= n.id
    ensures Inserted(ss, n) == [ss[0]] + Inserted(ss[1..], n)
  {
    var t := ss[1..];
    var p := InsertionPoint(ss, n.id);
    assert ss[..p] == [ss[0]] + t[..p - 1] && ss[p..] == t[p - 1..];
  }

  /** Every id in the list is at least `x`. */
  predicate AtLeast(x: int, ss: seq<LogSegment>)
  {
    forall i :: 0 <= i < |ss| ==> x <= ss[i].id
  }

  lemma InsertedBound(ss: seq<LogSegment>, n: LogSegment, x: int)
    requires AtLeast(x, ss) && x <= n.id
    ensures AtLeast(x, Inserted(ss, n))
  {
    InsertedAt(ss, n);
  }

  lemma SortedCons(x: LogSegment, t: seq<LogSegment>)
    requires SortedIds(t) && AtLeast(x.id, t)
    ensures SortedIds([x] + t)
  {
    var r := [x] + t;
    forall i, j | 0 <= i < j < |r| ensures r[i].id <= r[j].id {
      if i > 0 {
        assert r[i] == t[i - 1] && r[j] == t[j - 1];
      }
    }
  }

  /** Where everything ends up in `Inserted`. */
  lemma InsertedAt(ss: seq<LogSegment>, n: LogSegment)
    ensures var p := InsertionPoint(ss, n.id); var r := Inserted(ss, n);
      r[p] == n && (forall i :: 0 <= i < p ==> r[i] == ss[i]) && (forall i :: p < i < |r| ==> r[i] == ss[i - 1])
  {
  }

  lemma InsertedHas(ss: seq<LogSegment>, n: LogSegment)
    ensures forall s :: s in Inserted(ss, n) <==> s in ss || s == n
  {
    var p := InsertionPoint(ss, n.id);
    assert ss == ss[..p] + ss[p..];
    assert Inserted(ss, n) == ss[..p] + ([n] + ss[p..]);
  }
}
