/** A node of the primary-backup replicated store: the write-ahead log with its binary
    entry format, and the storage node that applies log entries to a key-value map,
    accepts writes only as leader and applies entries shipped to it by the leader. */
module ReplicatedNode {
  import opened Common
  import opened BigEndian
  import Utf8

  datatype Role = Follower | Leader

  datatype OpType = Put | Delete

  function OpCode(op: OpType): byte {
    match op
    case Put => 1
    case Delete => 2
  }

  /** `OpType(code)`: None where the enum constructor raises ValueError. */
  function OpOf(code: byte): (r: Option<OpType>)
    ensures r.Some? <==> code == 1 || code == 2
    ensures r.Some? ==> OpCode(r.value) == code
  {
    if code == 1 then Some(Put) else if code == 2 then Some(Delete) else None
  }

  /** The eight bytes of the IEEE 754 double that the entry's timestamp packs to. The value
      itself is never inspected, except for being zero. */
  type Stamp = b: seq<byte> | |b| == 8 witness [0, 0, 0, 0, 0, 0, 0, 0]

  /** The bit pattern of +0.0 or -0.0: the only doubles Python treats as false. */
  predicate IsZeroStamp(b: Stamp) {
    (b[0] == 0 || b[0] == 0x80) && forall i :: 1 <= i < 8 ==> b[i] == 0
  }

  /** `timestamp or time.time()`, with the clock reading as a parameter. */
  function StampOr(b: Stamp, clock: Stamp): (r: Stamp)
    ensures !IsZeroStamp(b) ==> r == b
  {
    if IsZeroStamp(b) then clock else b
  }

  datatype WalEntry = WalEntry(seqNo: int, op: OpType, key: string, value: Option<string>, stamp: Stamp)

  // The entry format: '>Q B I I d' (seq, op, key length, value length, timestamp), then the
  // UTF-8 key and the UTF-8 value.

  const HeaderSize: nat := 25

  /** `s.encode('utf-8')`. */
  function TextBytes(s: string): seq<byte> {
    Utf8.Encode(s)
  }

  /** The value bytes: empty when the value is None or the empty string. */
  function ValueBytes(v: Option<string>): (r: seq<byte>)
    ensures r == [] <==> v.None? || v.value == ""
  {
    if v.Some? && v.value != "" then TextBytes(v.value) else []
  }

  function Header(seqNo: nat, code: byte, keyLen: nat, valueLen: nat, stamp: Stamp): (r: seq<byte>)
    requires FitsUnsigned(seqNo, 8) && FitsUnsigned(keyLen, 4) && FitsUnsigned(valueLen, 4)
    ensures |r| == HeaderSize
  {
    Encode(seqNo, 8) + [code] + Encode(keyLen, 4) + Encode(valueLen, 4) + stamp
  }

  /** `to_bytes()`: None where `struct.pack` raises (a sequence number outside the
      unsigned 64-bit range, a key or value longer than the unsigned 32-bit range). */
  function ToBytes(e: WalEntry): (r: Option<seq<byte>>)
    ensures r.Some? <==> FitsUnsigned(e.seqNo, 8) && FitsUnsigned(|TextBytes(e.key)|, 4)
                         && FitsUnsigned(|ValueBytes(e.value)|, 4)
    ensures r.Some? ==> |r.value| == HeaderSize + |TextBytes(e.key)| + |ValueBytes(e.value)|
  {
    var kb := TextBytes(e.key);
    var vb := ValueBytes(e.value);
    if FitsUnsigned(e.seqNo, 8) && FitsUnsigned(|kb|, 4) && FitsUnsigned(|vb|, 4) then
      Some(Header(e.seqNo, OpCode(e.op), |kb|, |vb|, e.stamp) + kb + vb)
    else None
  }

  /** The five fields unpacked from a 25-byte header. */
  datatype RawHeader = RawHeader(seqNo: nat, code: byte, keyLen: nat, valueLen: nat, stamp: Stamp)

  /** The unsigned big-endian field of `w` bytes at `off`. */
  function ReadUnsigned(b: seq<byte>, off: nat, w: nat): nat
    requires off + w <= |b|
  {
    if w == 0 then 0 else ReadUnsigned(b, off, w - 1) * 256 + b[off + w - 1]
  }

  lemma {:induction false} ReadUnsignedDecode(b: seq<byte>, off: nat, w: nat)
    requires off + w <= |b|
    ensures ReadUnsigned(b, off, w) == Decode(b[off..off + w])
  {
    if w > 0 {
      ReadUnsignedDecode(b, off, w - 1);
      assert b[off..off + w][..w - 1] == b[off..off + w - 1];
    }
  }

  /** The five fields of the header at `off`. */
  function HeaderAt(data: seq<byte>, off: nat): RawHeader
    requires off + HeaderSize <= |data|
  {
    RawHeader(ReadUnsigned(data, off, 8), data[off + 8], ReadUnsigned(data, off + 9, 4),
              ReadUnsigned(data, off + 13, 4), data[off + 17..off + 25])
  }

  /** `WALEntry.from_bytes(data, offset)`: the entry and the offset after it, or None where
      Python raises (fewer than 25 header bytes, an unknown op code, bytes that are not
      UTF-8). The key and value are Python slices, so a record cut short at the end of the
      data still decodes, with a short key or value, and the offset returned lies past the
      end of the data. */
  function FromBytes(data: seq<byte>, off: nat, clock: Stamp): (r: Option<(WalEntry, nat)>)
    ensures r.Some? ==> r.value.1 >= off + HeaderSize
  {
    if |data| < off + HeaderSize then None
    else ReadBody(data, off + HeaderSize, HeaderAt(data, off), clock)
  }

  /** `bytes.decode('utf-8')`: None where Python raises UnicodeDecodeError. */
  function Text(b: seq<byte>): Option<string> {
    Utf8.Decode(b)
  }

  lemma TextRoundTrip(s: string)
    ensures Text(TextBytes(s)) == Some(s)
  {
    Utf8.RoundTrip(s);
  }

  /** The key and value that follow a header at `o1`. */
  function ReadBody(data: seq<byte>, o1: nat, h: RawHeader, clock: Stamp): (r: Option<(WalEntry, nat)>)
    ensures r.Some? ==> r.value.1 >= o1
  {
    var o2 := o1 + h.keyLen;
    match (OpOf(h.code), Text(PySlice(data, o1, o2)))
    case (Some(op), Some(key)) =>
      if h.valueLen == 0 then Some((WalEntry(h.seqNo, op, key, None, StampOr(h.stamp, clock)), o2))
      else
        (match Text(PySlice(data, o2, o2 + h.valueLen))
        case Some(v) => Some((WalEntry(h.seqNo, op, key, Some(v), StampOr(h.stamp, clock)), o2 + h.valueLen))
        case None => None)
    case _ => None
  }

  /** What an entry looks like after a trip through the log file: an empty value comes
      back as None, and a zero timestamp as the clock reading. */
  function Normalised(e: WalEntry, clock: Stamp): (r: WalEntry)
    ensures r.seqNo == e.seqNo && r.op == e.op && r.key == e.key
  {
    e.(value := if e.value == Some("") then None else e.value, stamp := StampOr(e.stamp, clock))
  }

  lemma HeaderFields(data: seq<byte>, off: nat, seqNo: nat, code: byte, keyLen: nat, valueLen: nat, stamp: Stamp)
    requires FitsUnsigned(seqNo, 8) && FitsUnsigned(keyLen, 4) && FitsUnsigned(valueLen, 4)
    requires At(data, off, Header(seqNo, code, keyLen, valueLen, stamp))
    ensures HeaderAt(data, off) == RawHeader(seqNo, code, keyLen, valueLen, stamp)
  {
    var s, k, v := Encode(seqNo, 8), Encode(keyLen, 4), Encode(valueLen, 4);
    AtSplit(data, off, s + [code] + k + v, stamp);
    AtSplit(data, off, s + [code] + k, v);
    AtSplit(data, off, s + [code], k);
    AtSplit(data, off, s, [code]);
    ReadAt(data, off, 8, seqNo);
    ReadAt(data, off + 9, 4, keyLen);
    ReadAt(data, off + 13, 4, valueLen);
  }

  /** An unsigned field reads back as the number packed into it. */
  lemma ReadAt(data: seq<byte>, off: nat, w: nat, n: nat)
    requires FitsUnsigned(n, w) && At(data, off, Encode(n, w))
    ensures ReadUnsigned(data, off, w) == n
  {
    ReadUnsignedDecode(data, off, w);
    DecodeEncode(n, w);
  }

  lemma SliceAt(data: seq<byte>, off: nat, b: seq<byte>, end: nat)
    requires At(data, off, b) && end == off + |b|
    ensures PySlice(data, off, end) == b
  {
  }

  lemma DecodeValue(v: Option<string>)
    requires ValueBytes(v) != []
    ensures Text(ValueBytes(v)) == Some(v.value) && v.Some? && v.value != ""
  {
    TextRoundTrip(v.value);
  }

  lemma ReadBodyRoundTrip(data: seq<byte>, o1: nat, e: WalEntry, kb: seq<byte>, vb: seq<byte>, o3: nat, clock: Stamp)
    requires 0 <= e.seqNo && Text(kb) == Some(e.key)
    requires vb == [] <==> e.value.None? || e.value == Some("")
    requires vb != [] ==> Text(vb) == e.value
    requires At(data, o1, kb) && At(data, o1 + |kb|, vb) && o3 == o1 + |kb| + |vb|
    ensures ReadBody(data, o1, RawHeader(e.seqNo, OpCode(e.op), |kb|, |vb|, e.stamp), clock) == Some((Normalised(e, clock), o3))
  {
    SliceAt(data, o1, kb, o1 + |kb|);
    SliceAt(data, o1 + |kb|, vb, o3);
    var h := RawHeader(e.seqNo, OpCode(e.op), |kb|, |vb|, e.stamp);
    assert OpOf(h.code) == Some(e.op) by {
      if e.op == Put { assert h.code == 1; } else { assert h.code == 2; }
    }
    var value := if vb != [] then e.value else None;
    ReadBodyOf(data, o1, h, clock, e.key, value, o1 + |kb|, o3);
    assert WalEntry(h.seqNo, e.op, e.key, value, StampOr(h.stamp, clock)) == Normalised(e, clock);
  }

  lemma ReadBodyOf(data: seq<byte>, o1: nat, h: RawHeader, clock: Stamp, key: string, value: Option<string>,
                   o2: nat, o3: nat)
    requires OpOf(h.code).Some? && o2 == o1 + h.keyLen && o3 == o2 + h.valueLen
    requires Text(PySlice(data, o1, o2)) == Some(key)
    requires h.valueLen == 0 ==> value.None?
    requires h.valueLen != 0 ==> value.Some? && Text(PySlice(data, o2, o3)) == value
    ensures ReadBody(data, o1, h, clock) ==
      Some((WalEntry(h.seqNo, OpOf(h.code).value, key, value, StampOr(h.stamp, clock)), o3))
  {
  }

  /** `from_bytes(to_bytes(e))` restores the entry, up to the normalisation of the file
      format, and the offset advances by the record's length: 25 header bytes plus the
      UTF-8 key and value. */
  lemma FromToBytes(data: seq<byte>, off: nat, e: WalEntry, b: seq<byte>, clock: Stamp)
    requires ToBytes(e) == Some(b) && At(data, off, b)
    ensures off + HeaderSize <= |data|
    ensures FromBytes(data, off, clock) == Some((Normalised(e, clock), off + |b|))
  {
    var kb, vb, o := Layout(data, off, e, b);
    EntryAt(data, off, e, kb, vb, o, clock);
  }

  /** The packed key and value decode back to the entry's key and value. */
  lemma PackedText(e: WalEntry)
    ensures Text(TextBytes(e.key)) == Some(e.key)
    ensures ValueBytes(e.value) == [] <==> e.value.None? || e.value == Some("")
    ensures ValueBytes(e.value) != [] ==> Text(ValueBytes(e.value)) == e.value
  {
    TextRoundTrip(e.key);
    if ValueBytes(e.value) != [] {
      DecodeValue(e.value);
    }
  }

  /** Where the header, key and value of a packed entry lie. */
  lemma Layout(data: seq<byte>, off: nat, e: WalEntry, b: seq<byte>) returns (kb: seq<byte>, vb: seq<byte>, o: nat)
    requires ToBytes(e) == Some(b) && At(data, off, b)
    ensures 0 <= e.seqNo && off + HeaderSize <= |data|
    ensures HeaderAt(data, off) == RawHeader(e.seqNo, OpCode(e.op), |kb|, |vb|, e.stamp)
    ensures Text(kb) == Some(e.key) && (vb == [] <==> e.value.None? || e.value == Some(""))
    ensures vb != [] ==> Text(vb) == e.value
    ensures At(data, off + HeaderSize, kb) && At(data, off + HeaderSize + |kb|, vb)
    ensures o == off + |b| && o == off + HeaderSize + |kb| + |vb|
  {
    kb, vb := TextBytes(e.key), ValueBytes(e.value);
    o := off + |b|;
    PackedText(e);
    var o1, o2 := AtSplit3(data, off, Header(e.seqNo, OpCode(e.op), |kb|, |vb|, e.stamp), kb, vb);
    HeaderFields(data, off, e.seqNo, OpCode(e.op), |kb|, |vb|, e.stamp);
  }


  /** The byte-level half of the round trip: a header, key and value laid out at `off`. */
  lemma EntryAt(data: seq<byte>, off: nat, e: WalEntry, kb: seq<byte>, vb: seq<byte>, o: nat, clock: Stamp)
    requires 0 <= e.seqNo && off + HeaderSize <= |data|
    requires HeaderAt(data, off) == RawHeader(e.seqNo, OpCode(e.op), |kb|, |vb|, e.stamp)
    requires Text(kb) == Some(e.key) && (vb == [] <==> e.value.None? || e.value == Some(""))
    requires vb != [] ==> Text(vb) == e.value
    requires At(data, off + HeaderSize, kb) && At(data, off + HeaderSize + |kb|, vb)
    requires o == off + HeaderSize + |kb| + |vb|
    ensures FromBytes(data, off, clock) == Some((Normalised(e, clock), o))
  {
    var h := RawHeader(e.seqNo, OpCode(e.op), |kb|, |vb|, e.stamp);
    assert ReadBody(data, off + HeaderSize, h, clock) == Some((Normalised(e, clock), o)) by {
      ReadBodyRoundTrip(data, off + HeaderSize, e, kb, vb, o, clock);
    }
    FromBytesOf(data, off, clock, h);
  }

  lemma FromBytesOf(data: seq<byte>, off: nat, clock: Stamp, h: RawHeader)
    requires |data| >= off + HeaderSize && HeaderAt(data, off) == h
    ensures FromBytes(data, off, clock) == ReadBody(data, off + HeaderSize, h, clock)
  {
  }

  // The log

  datatype WalState = WalState(entries: seq<WalEntry>, nextSeq: int, file: seq<byte>)

  /** The loop of `_load` from `off` on, with the entries and next sequence number read so
      far: it stops at the end of the data or at the first record that does not decode.
      Facts about loads are stated over this non-recursive name, so that two of them
      chain by plain equality. */
  function LoadFrom(data: seq<byte>, off: nat, clock: Stamp, entries: seq<WalEntry>, nextSeq: int): (seq<WalEntry>, int) {
    LoadLoop(data, off, clock, entries, nextSeq)
  }

  function LoadLoop(data: seq<byte>, off: nat, clock: Stamp, entries: seq<WalEntry>, nextSeq: int): (seq<WalEntry>, int)
    decreases |data| - off, 1
  {
    if off >= |data| then (entries, nextSeq) else LoadRecord(data, off, clock, entries, nextSeq)
  }

  /** One pass of the `_load` loop, at an offset inside the data. */
  function LoadRecord(data: seq<byte>, off: nat, clock: Stamp, entries: seq<WalEntry>, nextSeq: int): (seq<WalEntry>, int)
    requires off < |data|
    decreases |data| - off, 0
  {
    match FromBytes(data, off, clock)
    case None => (entries, nextSeq)
    case Some((e, o)) => LoadLoop(data, o, clock, entries + [e], Max(nextSeq, e.seqNo + 1))
  }

  /** `WAL(path)`: an empty log when the file does not exist, otherwise what `_load` reads. */
  function Loaded(file: Option<seq<byte>>, clock: Stamp): WalState {
    match file
    case None => WalState([], 0, [])
    case Some(data) =>
      var (es, n) := LoadFrom(data, 0, clock, [], 0);
      WalState(es, n, data)
  }

  /** The bytes of a sequence of entries written one after the other, or None when one of
      them cannot be packed. */
  function LogBytes(es: seq<WalEntry>): Option<seq<byte>> {
    if es == [] then Some([])
    else match (ToBytes(es[0]), LogBytes(es[1..]))
      case (Some(b), Some(rest)) => Some(b + rest)
      case _ => None
  }

  function NormalisedAll(es: seq<WalEntry>, clock: Stamp): (r: seq<WalEntry>)
    ensures |r| == |es|
  {
    if es == [] then [] else [Normalised(es[0], clock)] + NormalisedAll(es[1..], clock)
  }

  /** `max(next_seq, seq + 1)` over the entries in turn. */
  function NextAfter(n: int, es: seq<WalEntry>): int
    decreases |es|
  {
    if es == [] then n else NextAfter(Max(n, es[0].seqNo + 1), es[1..])
  }

  /** Reading back a log file that ends with the records of `es` yields those entries,
      normalised, and the next sequence number past all of them. */
  lemma {:induction false} LoadLog(data: seq<byte>, off: nat, es: seq<WalEntry>, b: seq<byte>, clock: Stamp,
                                   acc: seq<WalEntry>, n: int)
    requires LogBytes(es) == Some(b) && At(data, off, b) && off + |b| == |data|
    ensures LoadFrom(data, off, clock, acc, n) == (acc + NormalisedAll(es, clock), NextAfter(n, es))
    decreases |es|
  {
    if es == [] {
      assert |b| == 0 && off == |data|;
      assert NormalisedAll(es, clock) == [] && acc + [] == acc;
      LoadFromStops(data, off, clock, acc, n);
    } else {
      var o, rest := LoadHead(data, off, es, b, clock, acc, n);
      LoadLog(data, o, es[1..], rest, clock, acc + [Normalised(es[0], clock)], Max(n, es[0].seqNo + 1));
      NormalisedCons(acc, es, clock, n);
    }
  }

  /** The first record of a log: it loads, and the rest of the log follows it. */
  lemma LoadHead(data: seq<byte>, off: nat, es: seq<WalEntry>, b: seq<byte>, clock: Stamp, acc: seq<WalEntry>, n: int)
    returns (o: nat, rest: seq<byte>)
    requires LogBytes(es) == Some(b) && At(data, off, b) && off + |b| == |data| && es != []
    ensures LogBytes(es[1..]) == Some(rest) && At(data, o, rest) && o + |rest| == |data|
    ensures LoadFrom(data, off, clock, acc, n) ==
      LoadFrom(data, o, clock, acc + [Normalised(es[0], clock)], Max(n, es[0].seqNo + 1))
  {
    var b0;
    b0, rest := LogHead(es, b);
    AtSplit(data, off, b0, rest);
    var kb, vb;
    kb, vb, o := Layout(data, off, es[0], b0);
    LoadStep(data, off, es[0], kb, vb, o, clock, acc, n);
  }

  lemma LogHead(es: seq<WalEntry>, b: seq<byte>) returns (b0: seq<byte>, rest: seq<byte>)
    requires LogBytes(es) == Some(b) && es != []
    ensures ToBytes(es[0]) == Some(b0) && LogBytes(es[1..]) == Some(rest) && b == b0 + rest
  {
    b0, rest := ToBytes(es[0]).value, LogBytes(es[1..]).value;
  }

  lemma NormalisedCons(acc: seq<WalEntry>, es: seq<WalEntry>, clock: Stamp, n: int)
    requires es != []
    ensures acc + [Normalised(es[0], clock)] + NormalisedAll(es[1..], clock) == acc + NormalisedAll(es, clock)
    ensures NextAfter(n, es) == NextAfter(Max(n, es[0].seqNo + 1), es[1..])
  {
    assert NormalisedAll(es, clock) == [Normalised(es[0], clock)] + NormalisedAll(es[1..], clock);
  }

  /** One record of the loop, laid out as `EntryAt` describes. */
  lemma LoadStep(data: seq<byte>, off: nat, e: WalEntry, kb: seq<byte>, vb: seq<byte>, o: nat, clock: Stamp,
                 acc: seq<WalEntry>, n: int)
    requires 0 <= e.seqNo && off + HeaderSize <= |data|
    requires HeaderAt(data, off) == RawHeader(e.seqNo, OpCode(e.op), |kb|, |vb|, e.stamp)
    requires Text(kb) == Some(e.key) && (vb == [] <==> e.value.None? || e.value == Some(""))
    requires vb != [] ==> Text(vb) == e.value
    requires At(data, off + HeaderSize, kb) && At(data, off + HeaderSize + |kb|, vb)
    requires o == off + HeaderSize + |kb| + |vb|
    ensures LoadFrom(data, off, clock, acc, n) == LoadFrom(data, o, clock, acc + [Normalised(e, clock)], Max(n, e.seqNo + 1))
  {
    EntryAt(data, off, e, kb, vb, o, clock);
    LoadFromOf(data, off, clock, acc, n, Normalised(e, clock), o, e.seqNo);
  }

  lemma LoadFromOf(data: seq<byte>, off: nat, clock: Stamp, acc: seq<WalEntry>, n: int, e: WalEntry, o: nat, s: int)
    requires off < |data| && FromBytes(data, off, clock) == Some((e, o)) && e.seqNo == s
    ensures LoadFrom(data, off, clock, acc, n) == LoadFrom(data, o, clock, acc + [e], Max(n, s + 1))
  {
    assert LoadLoop(data, off, clock, acc, n) == LoadRecord(data, off, clock, acc, n);
  }

  lemma LoadFromStops(data: seq<byte>, off: nat, clock: Stamp, acc: seq<WalEntry>, n: int)
    requires off >= |data| || FromBytes(data, off, clock).None?
    ensures LoadFrom(data, off, clock, acc, n) == (acc, n)
  {
    if off < |data| {
      assert LoadLoop(data, off, clock, acc, n) == LoadRecord(data, off, clock, acc, n);
    }
  }

  /** A whole log file of packable entries is read back completely. */
  lemma LoadedLog(es: seq<WalEntry>, b: seq<byte>, clock: Stamp)
    requires LogBytes(es) == Some(b)
    ensures Loaded(Some(b), clock) == WalState(NormalisedAll(es, clock), NextAfter(0, es), b)
  {
    LoadLog(b, 0, es, b, clock, [], 0);
  }

  /** `append(op_type, key, value)` at clock reading `clock`: the entry takes the next
      sequence number and goes into the list before it is packed; when packing raises, the
      list and the counter have already changed and the file has not. */
  function AppendStep(w: WalState, op: OpType, key: string, value: Option<string>, clock: Stamp): (r: (WalState, WalEntry, bool))
    ensures r.1.seqNo == w.nextSeq && r.0.entries == w.entries + [r.1] && r.0.nextSeq == w.nextSeq + 1
    ensures r.2 <==> ToBytes(r.1).Some?
    ensures r.0.file == if r.2 then w.file + ToBytes(r.1).value else w.file
  {
    var e := WalEntry(w.nextSeq, op, key, value, clock);
    var w' := w.(entries := w.entries + [e], nextSeq := w.nextSeq + 1);
    match ToBytes(e)
    case None => (w', e, false)
    case Some(b) => (w'.(file := w.file + b), e, true)
  }

  /** `get_entries_from(seq)`: the entries numbered `seq` or later, in log order. */
  function EntriesFrom(es: seq<WalEntry>, s: int): (r: seq<WalEntry>)
    ensures forall e :: e in r <==> e in es && e.seqNo >= s
    ensures |r| <= |es|
  {
    if es == [] then []
    else (if es[0].seqNo >= s then [es[0]] else []) + EntriesFrom(es[1..], s)
  }

  /** The filter keeps log order: filtering a concatenation concatenates the filtered parts. */
  lemma {:induction false} EntriesFromAppend(a: seq<WalEntry>, b: seq<WalEntry>, s: int)
    ensures EntriesFrom(a + b, s) == EntriesFrom(a, s) + EntriesFrom(b, s)
  {
    if a == [] {
      assert a + b == b;
    } else {
      var head := if a[0].seqNo >= s then [a[0]] else [];
      assert (a + b)[1..] == a[1..] + b && (a + b)[0] == a[0];
      assert EntriesFrom(a + b, s) == head + EntriesFrom(a[1..] + b, s);
      EntriesFromAppend(a[1..], b, s);
      assert EntriesFrom(a, s) == head + EntriesFrom(a[1..], s);
      AppendAssoc(head, EntriesFrom(a[1..], s), EntriesFrom(b, s));
    }
  }

  /** `get_last_seq()` */
  function LastSeq(w: WalState): int {
    if |w.entries| > 0 then w.nextSeq - 1 else -1
  }

  /** A log numbered from zero without gaps, as `append` alone builds it. */
  ghost predicate Numbered(w: WalState) {
    w.nextSeq == |w.entries| && forall i :: 0 <= i < |w.entries| ==> w.entries[i].seqNo == i
  }

  /** Appending keeps the numbering consecutive, and `get_last_seq` then names the entry
      just appended. */
  lemma AppendNumbered(w: WalState, op: OpType, key: string, value: Option<string>, clock: Stamp)
    requires Numbered(w)
    ensures Numbered(AppendStep(w, op, key, value, clock).0)
    ensures LastSeq(AppendStep(w, op, key, value, clock).0) == AppendStep(w, op, key, value, clock).1.seqNo
  {
  }

  /** In a numbered log, `get_last_seq` is the number of the last entry, and the entries
      from `s` on are the suffix starting at position `s`. */
  lemma {:induction false} NumberedQueries(w: WalState, s: nat)
    requires Numbered(w) && s <= |w.entries|
    ensures LastSeq(w) == if w.entries == [] then -1 else w.entries[|w.entries| - 1].seqNo
    ensures EntriesFrom(w.entries, s) == w.entries[s..]
  {
    var es := w.entries;
    assert es == es[..s] + es[s..];
    EntriesFromAppend(es[..s], es[s..], s);
    NoneFrom(es[..s], s);
    AllFrom(es[s..], s);
  }

  lemma NumberedLastSeq(w: WalState)
    ensures Numbered(w) ==> LastSeq(w) == if w.entries == [] then -1 else w.entries[|w.entries| - 1].seqNo
  {
    if Numbered(w) {
      NumberedQueries(w, 0);
    }
  }

  lemma {:induction false} NoneFrom(es: seq<WalEntry>, s: int)
    requires forall i :: 0 <= i < |es| ==> es[i].seqNo < s
    ensures EntriesFrom(es, s) == []
  {
    if es != [] {
      NoneFrom(es[1..], s);
    }
  }

  lemma {:induction false} AllFrom(es: seq<WalEntry>, s: int)
    requires forall i :: 0 <= i < |es| ==> es[i].seqNo >= s
    ensures EntriesFrom(es, s) == es
  {
    if es != [] {
      AllFrom(es[1..], s);
    }
  }

  // Applying entries

  /** The node's key-value map (a PUT may store None) and the last applied sequence number. */
  datatype Store = Store(data: map<string, Option<string>>, appliedSeq: int)

  /** `_apply_entry(entry)` */
  function Apply(st: Store, e: WalEntry): (r: Store)
    ensures r.appliedSeq == Max(st.appliedSeq, e.seqNo)
  {
    if e.seqNo <= st.appliedSeq then st
    else match e.op
      case Put => Store(st.data[e.key := e.value], e.seqNo)
      case Delete => Store(st.data - {e.key}, e.seqNo)
  }

  /** `_apply_entry` over the entries in turn (`_replay_wal`). */
  function ApplyAll(st: Store, es: seq<WalEntry>): Store
    decreases |es|
  {
    if es == [] then st else ApplyAll(Apply(st, es[0]), es[1..])
  }

  /** An entry at or below the applied number changes nothing; a newer PUT binds its key to
      its value and a newer DELETE removes its key, present or not; either way the applied
      number only grows and a second application is a no-op. */
  lemma ApplyRule(st: Store, e: WalEntry)
    ensures e.seqNo <= st.appliedSeq ==> Apply(st, e) == st
    ensures e.seqNo > st.appliedSeq && e.op == Put ==>
      Apply(st, e).data == st.data[e.key := e.value] && Apply(st, e).data[e.key] == e.value
    ensures e.seqNo > st.appliedSeq && e.op == Delete ==>
      Apply(st, e).data == st.data - {e.key} && e.key !in Apply(st, e).data
    ensures Apply(st, e).appliedSeq >= st.appliedSeq
    ensures Apply(Apply(st, e), e) == Apply(st, e)
  {
  }

  /** Replaying never lowers the applied number and ends at or above every replayed
      entry's number; replaying the same entries again changes nothing more when they are
      in increasing order. */
  lemma {:induction false} ApplyAllBounds(st: Store, es: seq<WalEntry>)
    ensures ApplyAll(st, es).appliedSeq >= st.appliedSeq
    ensures forall i :: 0 <= i < |es| ==> ApplyAll(st, es).appliedSeq >= es[i].seqNo
    decreases |es|
  {
    if es != [] {
      ApplyAllBounds(Apply(st, es[0]), es[1..]);
      assert forall i :: 1 <= i < |es| ==> es[i] == es[1..][i - 1];
    }
  }

  /** Every entry below `n` keeps the applied number below `n`. */
  lemma {:induction false} ApplyAllBelow(st: Store, es: seq<WalEntry>, n: int)
    requires st.appliedSeq < n && forall i :: 0 <= i < |es| ==> es[i].seqNo < n
    ensures ApplyAll(st, es).appliedSeq < n
    decreases |es|
  {
    if es != [] {
      assert es[0].seqNo < n;
      ApplyAllBelow(Apply(st, es[0]), es[1..], n);
    }
  }

  /** The next sequence number `_load` computes lies above every entry it read. */
  lemma {:induction false} LoadFromBelow(data: seq<byte>, off: nat, clock: Stamp, entries: seq<WalEntry>, nextSeq: int)
    requires forall i :: 0 <= i < |entries| ==> entries[i].seqNo < nextSeq
    ensures var (es, n) := LoadFrom(data, off, clock, entries, nextSeq);
      n >= nextSeq && forall i :: 0 <= i < |es| ==> es[i].seqNo < n
    decreases |data| - off
  {
    if off < |data| && FromBytes(data, off, clock).Some? {
      var (e, o) := FromBytes(data, off, clock).value;
      var m := Max(nextSeq, e.seqNo + 1);
      LoadFromOf(data, off, clock, entries, nextSeq, e, o, e.seqNo);
      assert forall i :: 0 <= i < |entries + [e]| ==> (entries + [e])[i].seqNo < m by {
        forall i | 0 <= i < |entries + [e]| ensures (entries + [e])[i].seqNo < m {
          if i < |entries| {
            assert (entries + [e])[i] == entries[i];
          }
        }
      }
      LoadFromBelow(data, o, clock, entries + [e], m);
    } else {
      LoadFromStops(data, off, clock, entries, nextSeq);
    }
  }

  // The node

  datatype NodeState = NodeState(role: Role, leaderId: Option<int>, store: Store, wal: WalState)

  /** `StorageNode(node_id)` over a log file (None when it does not exist): a follower with
      no leader that has replayed its log. */
  function Started(file: Option<seq<byte>>, clock: Stamp): NodeState {
    var w := Loaded(file, clock);
    NodeState(Follower, None, ApplyAll(Store(map[], -1), w.entries), w)
  }

  datatype Reply = NotLeader | Accepted(seqNo: int) | Raised

  /** The common body of `put` and `delete`: a follower answers 'not leader' and changes
      nothing; a leader appends to its log and applies the entry, unless packing the entry
      raised, which leaves the entry in the log unapplied. */
  function WriteStep(n: NodeState, op: OpType, key: string, value: Option<string>, clock: Stamp): (r: (NodeState, Reply))
    ensures n.role != Leader ==> r == (n, NotLeader)
    ensures r.1.Accepted? ==> r.1.seqNo == n.wal.nextSeq
    ensures r.0.role == n.role && r.0.leaderId == n.leaderId
  {
    if n.role != Leader then (n, NotLeader)
    else
      var (w, e, written) := AppendStep(n.wal, op, key, value, clock);
      if !written then (n.(wal := w), Raised)
      else (n.(wal := w, store := Apply(n.store, e)), Accepted(e.seqNo))
  }

  /** `put(key, value)` */
  function PutStep(n: NodeState, key: string, value: string, clock: Stamp): (NodeState, Reply) {
    WriteStep(n, Put, key, Some(value), clock)
  }

  /** `delete(key)` */
  function DeleteStep(n: NodeState, key: string, clock: Stamp): (NodeState, Reply) {
    WriteStep(n, Delete, key, None, clock)
  }

  /** `apply_replication(entries)`, with `fixed` false as written: each entry newer than
      the applied number goes into the log list and the file and is applied; older ones are
      skipped. The log's next sequence number is left alone; with `fixed` true it is raised
      past each appended entry, as `_load` does. The reply is the final applied number, or
      None when packing an entry raised (after it entered the list). */
  function Replicate(n: NodeState, es: seq<WalEntry>, fixed: bool): (r: (NodeState, Option<int>))
    ensures r.0.role == n.role && r.0.leaderId == n.leaderId
    ensures r.1.Some? ==> r.1.value == r.0.store.appliedSeq
    decreases |es|
  {
    if es == [] then (n, Some(n.store.appliedSeq))
    else
      var e := es[0];
      if e.seqNo <= n.store.appliedSeq then Replicate(n, es[1..], fixed)
      else
        var w := n.wal.(entries := n.wal.entries + [e],
                        nextSeq := if fixed then Max(n.wal.nextSeq, e.seqNo + 1) else n.wal.nextSeq);
        match ToBytes(e)
        case None => (n.(wal := w), None)
        case Some(b) => Replicate(n.(wal := w.(file := w.file + b), store := Apply(n.store, e)), es[1..], fixed)
  }

  /** The highest sequence number among `es`, or `n` when none is higher. */
  function MaxSeq(n: int, es: seq<WalEntry>): int
    decreases |es|
  {
    if es == [] then n else MaxSeq(Max(n, es[0].seqNo), es[1..])
  }

  /** The state after replicating entry `e` when it is newer than the applied number and
      packs to `b`. */
  function ReplicatedOne(n: NodeState, e: WalEntry, b: seq<byte>, fixed: bool): NodeState {
    var w := n.wal.(entries := n.wal.entries + [e],
                    nextSeq := if fixed then Max(n.wal.nextSeq, e.seqNo + 1) else n.wal.nextSeq);
    n.(wal := w.(file := w.file + b), store := Apply(n.store, e))
  }

  lemma ReplicateUnfold(n: NodeState, es: seq<WalEntry>, fixed: bool)
    requires es != [] && ToBytes(es[0]).Some?
    ensures Replicate(n, es, fixed) ==
      if es[0].seqNo <= n.store.appliedSeq then Replicate(n, es[1..], fixed)
      else Replicate(ReplicatedOne(n, es[0], ToBytes(es[0]).value, fixed), es[1..], fixed)
  {
  }

  /** When every entry can be packed, `apply_replication` returns the largest of the old
      applied number and the entries' numbers. */
  lemma {:induction false} ReplicateReply(n: NodeState, es: seq<WalEntry>, fixed: bool)
    requires forall i :: 0 <= i < |es| ==> ToBytes(es[i]).Some?
    ensures Replicate(n, es, fixed).1 == Some(MaxSeq(n.store.appliedSeq, es))
    decreases |es|
  {
    if es != [] {
      assert ToBytes(es[0]).Some?;
      assert forall i :: 0 <= i < |es[1..]| ==> ToBytes(es[1..][i]).Some? by {
        forall i | 0 <= i < |es[1..]| ensures ToBytes(es[1..][i]).Some? {
          assert es[1..][i] == es[i + 1];
        }
      }
      ReplicateUnfold(n, es, fixed);
      if es[0].seqNo <= n.store.appliedSeq {
        ReplicateReply(n, es[1..], fixed);
      } else {
        ReplicateReply(ReplicatedOne(n, es[0], ToBytes(es[0]).value, fixed), es[1..], fixed);
      }
    }
  }

  /** The entry numbers rise strictly from above `lo`. */
  ghost predicate RisingAbove(lo: int, es: seq<WalEntry>) {
    (|es| > 0 ==> es[0].seqNo > lo) && forall i :: 1 <= i < |es| ==> es[i].seqNo > es[i - 1].seqNo
  }

  /** Entries arriving in increasing order above the applied number, all packable, are all
      appended to the log, in order. */
  lemma {:induction false} ReplicateAppends(n: NodeState, es: seq<WalEntry>, fixed: bool)
    requires forall i :: 0 <= i < |es| ==> ToBytes(es[i]).Some?
    requires RisingAbove(n.store.appliedSeq, es)
    ensures Replicate(n, es, fixed).0.wal.entries == n.wal.entries + es
    decreases |es|
  {
    if es == [] {
      assert n.wal.entries + es == n.wal.entries;
    } else {
      var e := es[0];
      assert ToBytes(e).Some? && e.seqNo > n.store.appliedSeq;
      var n' := ReplicatedOne(n, e, ToBytes(e).value, fixed);
      assert n'.store.appliedSeq == e.seqNo;
      assert forall i :: 0 <= i < |es[1..]| ==> ToBytes(es[1..][i]).Some? by {
        forall i | 0 <= i < |es[1..]| ensures ToBytes(es[1..][i]).Some? {
          assert es[1..][i] == es[i + 1];
        }
      }
      assert RisingAbove(e.seqNo, es[1..]) by {
        forall i | 1 <= i < |es[1..]| ensures es[1..][i].seqNo > es[1..][i - 1].seqNo {
          assert es[1..][i] == es[i + 1] && es[1..][i - 1] == es[i];
        }
        if |es| > 1 {
          assert es[1..][0] == es[1];
        }
      }
      ReplicateUnfold(n, es, fixed);
      ReplicateAppends(n', es[1..], fixed);
      AppendCons(n.wal.entries, es);
    }
  }

  // The applied number stays below the log's next sequence number: the property every
  // leader write relies on, since a write whose number is not above the applied one is
  // skipped by `_apply_entry`.

  ghost predicate AppliedBelowNext(n: NodeState) {
    n.store.appliedSeq < n.wal.nextSeq
  }

  /** A freshly started node satisfies it, whatever its log file holds. */
  lemma StartedBelowNext(file: Option<seq<byte>>, clock: Stamp)
    ensures AppliedBelowNext(Started(file, clock))
  {
    if file.Some? {
      LoadFromBelow(file.value, 0, clock, [], 0);
      var w := Loaded(file, clock);
      ApplyAllBelow(Store(map[], -1), w.entries, w.nextSeq);
    }
  }

  /** Writes keep it, and under it an accepted PUT is applied: the key then holds the value
      written. */
  lemma WriteBelowNext(n: NodeState, op: OpType, key: string, value: Option<string>, clock: Stamp)
    requires AppliedBelowNext(n)
    ensures AppliedBelowNext(WriteStep(n, op, key, value, clock).0)
    ensures var (n', reply) := WriteStep(n, op, key, value, clock);
      reply.Accepted? ==>
        n'.store.appliedSeq == reply.seqNo
        && (op == Put ==> key in n'.store.data && n'.store.data[key] == value)
        && (op == Delete ==> key !in n'.store.data)
  {
  }

  /** The corrected replication keeps it too. */
  lemma {:induction false} ReplicateFixedBelowNext(n: NodeState, es: seq<WalEntry>)
    requires AppliedBelowNext(n)
    ensures AppliedBelowNext(Replicate(n, es, true).0)
    decreases |es|
  {
    if es != [] {
      var e := es[0];
      if e.seqNo <= n.store.appliedSeq {
        ReplicateFixedBelowNext(n, es[1..]);
      } else if ToBytes(e).Some? {
        ReplicateFixedBelowNext(ReplicatedOne(n, e, ToBytes(e).value, true), es[1..]);
      }
    }
  }

  /** A fresh node whose log file does not exist, after entry 0 arrived by replication. */
  lemma PromotedFollower(clock: Stamp, fixed: bool) returns (n1: NodeState)
    ensures var e := WalEntry(0, Put, "a", Some("x"), clock);
      n1 == Replicate(Started(None, clock), [e], fixed).0
    ensures n1.store == Store(map["a" := Some("x")], 0) && n1.wal.entries == [WalEntry(0, Put, "a", Some("x"), clock)]
    ensures n1.wal.nextSeq == if fixed then 1 else 0
  {
    var n0 := Started(None, clock);
    var e := WalEntry(0, Put, "a", Some("x"), clock);
    assert n0 == NodeState(Follower, None, Store(map[], -1), WalState([], 0, []));
    assert Utf8.Encode("a") == [97] && Utf8.Encode("x") == [120];
    assert ToBytes(e).Some?;
    ReplicateUnfold(n0, [e], fixed);
    assert [e][1..] == [];
    n1 := ReplicatedOne(n0, e, ToBytes(e).value, fixed);
    assert n1.wal.entries == [e];
  }

  /** As written, a follower that received entry 0 by replication and is then promoted
      numbers its first write 0 as well: `put` answers success with sequence number 0, yet
      `_apply_entry` skips the entry and the key stays unset. */
  lemma PromotedFollowerDropsWrite(clock: Stamp)
    requires !IsZeroStamp(clock)
    ensures var n0 := Started(None, clock);
      var e := WalEntry(0, Put, "a", Some("x"), clock);
      var n1 := Replicate(n0, [e], false).0;
      var (n2, reply) := PutStep(n1.(role := Leader, leaderId := Some(1)), "k", "v", clock);
      reply == Accepted(0) && "k" !in n2.store.data && |n2.wal.entries| == 2 && n2.wal.entries[1].key == "k"
  {
    var n1 := PromotedFollower(clock, false);
    assert n1.store == Store(map["a" := Some("x")], 0) && n1.wal.nextSeq == 0;
    assert Utf8.Encode("k") == [107] && Utf8.Encode("v") == [118];
  }

  /** With the corrected replication the same promoted follower numbers its write 1 and
      applies it. */
  lemma ReplicateFixed(clock: Stamp)
    requires !IsZeroStamp(clock)
    ensures var n0 := Started(None, clock);
      var e := WalEntry(0, Put, "a", Some("x"), clock);
      var n1 := Replicate(n0, [e], true).0;
      var (n2, reply) := PutStep(n1.(role := Leader, leaderId := Some(1)), "k", "v", clock);
      reply == Accepted(1) && "k" in n2.store.data && n2.store.data["k"] == Some("v")
  {
    var n1 := PromotedFollower(clock, true);
    assert n1.store == Store(map["a" := Some("x")], 0) && n1.wal.nextSeq == 1;
    assert Utf8.Encode("k") == [107] && Utf8.Encode("v") == [118];
  }

  // The objects

  /** `WAL`: the entry list, the next sequence number and the bytes of the log file. */
  class Wal {
    var entries: seq<WalEntry>
    var nextSeq: int
    var file: seq<byte>

    ghost function View(): WalState
      reads this
    {
      WalState(entries, nextSeq, file)
    }

    /** `WAL(path)` over the file's contents, None when it does not exist. */
    constructor(contents: Option<seq<byte>>, clock: Stamp)
      ensures View() == Loaded(contents, clock)
    {
      entries, nextSeq, file := [], 0, [];
      new;
      if contents.Some? {
        file := contents.value;
        Load(contents.value, clock);
      }
    }

    /** `_load()`: decode records until the data ends or one fails to decode. */
    method Load(data: seq<byte>, clock: Stamp)
      requires entries == [] && nextSeq == 0
      modifies this
      ensures (entries, nextSeq) == LoadFrom(data, 0, clock, [], 0) && file == old(file)
    {
      var offset: nat := 0;
      while offset < |data|
        invariant LoadFrom(data, offset, clock, entries, nextSeq) == LoadFrom(data, 0, clock, [], 0)
        invariant file == old(file)
        decreases |data| - offset
      {
        var decoded := FromBytes(data, offset, clock);
        if decoded.None? {
          LoadFromStops(data, offset, clock, entries, nextSeq);
          break;
        }
        var (entry, o) := decoded.value;
        LoadFromOf(data, offset, clock, entries, nextSeq, entry, o, entry.seqNo);
        entries := entries + [entry];
        nextSeq := Max(nextSeq, entry.seqNo + 1);
        offset := o;
      }
      if offset >= |data| {
        LoadFromStops(data, offset, clock, entries, nextSeq);
      }
    }

    /** `append(op_type, key, value)` */
    method Append(op: OpType, key: string, value: Option<string>, clock: Stamp) returns (entry: WalEntry, written: bool)
      modifies this
      ensures (View(), entry, written) == AppendStep(old(View()), op, key, value, clock)
    {
      entry := WalEntry(nextSeq, op, key, value, clock);
      entries := entries + [entry];
      nextSeq := nextSeq + 1;
      var b := ToBytes(entry);
      written := b.Some?;
      if written {
        file := file + b.value;
      }
    }

    /** `get_entries_from(seq)` */
    function GetEntriesFrom(s: int): (r: seq<WalEntry>)
      reads this
      ensures forall e :: e in r <==> e in entries && e.seqNo >= s
    {
      EntriesFrom(entries, s)
    }

    /** `get_last_seq()` */
    function GetLastSeq(): (r: int)
      reads this
      ensures Numbered(View()) ==> r == if entries == [] then -1 else entries[|entries| - 1].seqNo
    {
      NumberedLastSeq(View());
      if entries != [] then nextSeq - 1 else -1
    }
  }

  /** `StorageNode`: role, leader, key-value map and applied number over its own log. */
  class StorageNode {
    const nodeId: int
    var role: Role
    var leaderId: Option<int>
    var data: map<string, Option<string>>
    var appliedSeq: int
    const wal: Wal

    ghost function View(): NodeState
      reads this, wal
    {
      NodeState(role, leaderId, Store(data, appliedSeq), wal.View())
    }

    /** `StorageNode(node_id)` over the contents of its log file. */
    constructor(nodeId: int, contents: Option<seq<byte>>, clock: Stamp)
      ensures View() == Started(contents, clock) && this.nodeId == nodeId && fresh(wal)
    {
      this.nodeId := nodeId;
      role, leaderId, data, appliedSeq := Follower, None, map[], -1;
      wal := new Wal(contents, clock);
      new;
      ReplayWal();
    }

    /** `_replay_wal()` */
    method ReplayWal()
      modifies this
      ensures Store(data, appliedSeq) == ApplyAll(old(Store(data, appliedSeq)), wal.entries)
      ensures role == old(role) && leaderId == old(leaderId)
    {
      var es := wal.entries;
      for i := 0 to |es|
        invariant ApplyAll(old(Store(data, appliedSeq)), es) == ApplyAll(Store(data, appliedSeq), es[i..])
        invariant role == old(role) && leaderId == old(leaderId)
      {
        assert es[i..][1..] == es[i + 1..];
        ApplyEntry(es[i]);
      }
    }

    /** `_apply_entry(entry)` */
    method ApplyEntry(e: WalEntry)
      modifies this
      ensures Store(data, appliedSeq) == Apply(old(Store(data, appliedSeq)), e)
      ensures role == old(role) && leaderId == old(leaderId)
    {
      if e.seqNo <= appliedSeq {
        return;
      }
      if e.op == OpType.Put {
        data := data[e.key := e.value];
      } else {
        data := data - {e.key};
      }
      appliedSeq := e.seqNo;
    }

    /** `become_leader()` */
    method BecomeLeader()
      modifies this
      ensures View() == old(View()).(role := Leader, leaderId := Some(nodeId))
    {
      role, leaderId := Leader, Some(nodeId);
    }

    /** `become_follower(leader_id)` */
    method BecomeFollower(leader: int)
      modifies this
      ensures View() == old(View()).(role := Follower, leaderId := Some(leader))
    {
      role, leaderId := Follower, Some(leader);
    }

    method Write(op: OpType, key: string, value: Option<string>, clock: Stamp) returns (reply: Reply)
      modifies this, wal
      ensures (View(), reply) == WriteStep(old(View()), op, key, value, clock)
    {
      if role != Leader {
        return NotLeader;
      }
      var entry, written := wal.Append(op, key, value, clock);
      if !written {
        return Raised;
      }
      ApplyEntry(entry);
      return Accepted(entry.seqNo);
    }

    /** `put(key, value)` */
    method Put(key: string, value: string, clock: Stamp) returns (reply: Reply)
      modifies this, wal
      ensures (View(), reply) == PutStep(old(View()), key, value, clock)
    {
      reply := Write(OpType.Put, key, Some(value), clock);
    }

    /** `delete(key)` */
    method Delete(key: string, clock: Stamp) returns (reply: Reply)
      modifies this, wal
      ensures (View(), reply) == DeleteStep(old(View()), key, clock)
    {
      reply := Write(OpType.Delete, key, None, clock);
    }

    /** `get(key)` */
    function Get(key: string): (r: Option<string>)
      reads this
      ensures key !in data ==> r == None
      ensures key in data ==> r == data[key]
    {
      if key in data then data[key] else None
    }

    /** `apply_replication(entries)` as written. */
    method ApplyReplication(es: seq<WalEntry>) returns (applied: Option<int>)
      modifies this, wal
      ensures (View(), applied) == Replicate(old(View()), es, false)
    {
      var i := 0;
      while i < |es|
        invariant 0 <= i <= |es|
        invariant Replicate(old(View()), es, false) == Replicate(View(), es[i..], false)
      {
        assert es[i..][1..] == es[i + 1..];
        var e := es[i];
        if e.seqNo > appliedSeq {
          wal.entries := wal.entries + [e];
          var b := ToBytes(e);
          if b.None? {
            return None;
          }
          wal.file := wal.file + b.value;
          ApplyEntry(e);
        }
        i := i + 1;
      }
      return Some(appliedSeq);
    }
  }
}
