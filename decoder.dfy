/** The reader of the versioned binary format. It reads the header, picks the schema
    to decode with (the reader's target schema if given, else the writer's schema
    found in the registry), reads (tag, value) pairs until a zero tag or the end of
    the data, skips tags the schema does not know, and fills in defaults. Every
    function here is None where the Python decoder raises. */
module Decoder {
  import opened Common
  import BigEndian
  import Utf8
  import opened Schemas
  import Encoder

  /** `decode_varint(data, offset)`: the value and the offset after it; None when the
      data ends before a byte without the continuation bit. */
  function ReadVarint(data: seq<byte>, off: nat): (r: Option<(nat, nat)>)
    ensures r.Some? ==> off < r.value.1 <= |data|
    decreases |data| - off
  {
    if off >= |data| then None
    else if data[off] < 0x80 then Some((data[off], off + 1))
    else match ReadVarint(data, off + 1)
      case None => None
      case Some((v, o)) => Some((data[off] - 0x80 + 128 * v, o))
  }

  /** `decode_string`: a varint length, then that many bytes as strict UTF-8. A length
      running past the end reads what is there (Python's slice), and the offset
      returned is still `offset + length`. */
  function ReadString(data: seq<byte>, off: nat): (r: Option<(string, nat)>)
    ensures r.Some? ==> r.value.1 > off
  {
    match ReadVarint(data, off)
    case None => None
    case Some((len, o)) =>
      (match Utf8.Decode(PySlice(data, o, o + len))
      case None => None
      case Some(s) => Some((s, o + len)))
  }

  /** `decode_bytes` */
  function ReadBytes(data: seq<byte>, off: nat): (r: Option<(seq<byte>, nat)>)
    ensures r.Some? ==> r.value.1 > off
  {
    match ReadVarint(data, off)
    case None => None
    case Some((len, o)) => Some((PySlice(data, o, o + len), o + len))
  }

  /** `struct.unpack` of a `width`-byte format over `data[offset:offset + width]`,
      which raises unless exactly `width` bytes are there. */
  function ReadFixed(data: seq<byte>, off: nat, width: nat): (r: Option<seq<byte>>)
    requires width > 0
    ensures r.Some? <==> off + width <= |data|
    ensures r.Some? ==> r.value == data[off..off + width]
  {
    var b := PySlice(data, off, off + width);
    if |b| == width then Some(b) else None
  }

  /** `result[key] = value` on a dict kept in insertion order: an existing key keeps
      its place and takes the new value, a new key goes last. */
  function DictPut(es: seq<(Value, Value)>, k: Value, v: Value): (r: seq<(Value, Value)>)
    ensures |r| == |es| || |r| == |es| + 1
  {
    if |es| == 0 then [(k, v)]
    else if es[0].0 == k then [(k, v)] + es[1..]
    else [es[0]] + DictPut(es[1..], k, v)
  }

  /** After `result[key] = value` the key maps to the value; a key not yet present is
      added at the end and every other entry stays where it was. */
  lemma {:induction false} DictPutRule(es: seq<(Value, Value)>, k: Value, v: Value)
    ensures (k, v) in DictPut(es, k, v)
    ensures (forall i :: 0 <= i < |es| ==> es[i].0 != k) ==> DictPut(es, k, v) == es + [(k, v)]
    decreases |es|
  {
    if |es| > 0 && es[0].0 != k {
      DictPutRule(es[1..], k, v);
      if forall i :: 0 <= i < |es| ==> es[i].0 != k {
        assert forall i :: 0 <= i < |es[1..]| ==> es[1..][i].0 != k by {
          forall i | 0 <= i < |es[1..]| ensures es[1..][i].0 != k {
            assert es[1..][i] == es[i + 1];
          }
        }
        assert [es[0]] + (es[1..] + [(k, v)]) == es + [(k, v)];
      }
    }
  }

  /** `_decode_value` with the temporary field definition array items are read
      through: no element type and no nested schema, so an ARRAY's items are STRINGs
      and a NESTED value is skipped over and read as `{}`. */
  function ReadValue(data: seq<byte>, off: nat, t: FieldType): (r: Option<(Value, nat)>)
    ensures r.Some? ==> r.value.1 > off
    decreases Encoder.Rank(t), 1, 0
  {
    match t
    case Int32 => ReadInt(data, off, 4)
    case Int64 => ReadInt(data, off, 8)
    case Float32 => ReadFloat(data, off, 4)
    case Float64 => ReadFloat(data, off, 8)
    case String => ReadStringValue(data, off)
    case Bytes => ReadBytesValue(data, off)
    case Bool => ReadBool(data, off)
    case Array => ReadArray(data, off, String)
    case Map => ReadMap(data, off)
    case Nested => ReadSkippedRecord(data, off)
  }

  /** `struct.unpack('>i' or '>q', ...)`: a signed big-endian integer. */
  function ReadInt(data: seq<byte>, off: nat, width: nat): (r: Option<(Value, nat)>)
    requires width > 0
    ensures r.Some? ==> r.value.1 == off + width
  {
    var b := ReadFixed(data, off, width);
    if b.Some? then Some((IntV(BigEndian.DecodeSigned(b.value)), off + width)) else None
  }

  /** `struct.unpack('>f' or '>d', ...)`, kept as the raw bits (floats are not modelled). */
  function ReadFloat(data: seq<byte>, off: nat, width: nat): (r: Option<(Value, nat)>)
    requires width > 0
    ensures r.Some? ==> r.value.1 == off + width
  {
    var b := ReadFixed(data, off, width);
    if b.Some? then Some((FloatV(b.value), off + width)) else None
  }

  /** `struct.unpack('>?', ...)`: any non-zero byte is True. */
  function ReadBool(data: seq<byte>, off: nat): (r: Option<(Value, nat)>)
    ensures r.Some? ==> r.value.1 == off + 1
  {
    var b := ReadFixed(data, off, 1);
    if b.Some? then Some((BoolV(b.value[0] != 0), off + 1)) else None
  }

  function ReadStringValue(data: seq<byte>, off: nat): (r: Option<(Value, nat)>)
    ensures r.Some? ==> r.value.1 > off
  {
    match ReadString(data, off)
    case None => None
    case Some((s, o)) => Some((StrV(s), o))
  }

  function ReadBytesValue(data: seq<byte>, off: nat): (r: Option<(Value, nat)>)
    ensures r.Some? ==> r.value.1 > off
  {
    match ReadBytes(data, off)
    case None => None
    case Some((b, o)) => Some((BytesV(b), o))
  }

  /** An ARRAY value: a varint count, then that many items read as `elem`. */
  function ReadArray(data: seq<byte>, off: nat, elem: FieldType): (r: Option<(Value, nat)>)
    ensures r.Some? ==> r.value.1 > off
    decreases Encoder.Rank(elem), 3, 0
  {
    match ReadVarint(data, off)
    case None => None
    case Some((count, o)) =>
      match ReadItems(data, o, elem, count, [])
      case None => None
      case Some((items, o2)) => Some((ListV(items), o2))
  }

  /** A MAP value: a varint count, then that many string keys and string values. */
  function ReadMap(data: seq<byte>, off: nat): (r: Option<(Value, nat)>)
    ensures r.Some? ==> r.value.1 > off
  {
    match ReadVarint(data, off)
    case None => None
    case Some((count, o)) =>
      match ReadEntries(data, o, count, [])
      case None => None
      case Some((entries, o2)) => Some((DictV(entries), o2))
  }

  /** A NESTED value with no schema to read it by: its length-prefixed bytes are
      stepped over and the value is `{}`. */
  function ReadSkippedRecord(data: seq<byte>, off: nat): (r: Option<(Value, nat)>)
    ensures r.Some? ==> r.value.1 > off
  {
    match ReadVarint(data, off)
    case None => None
    case Some((len, o)) => Some((RecordV(map[]), o + len))
  }

  /** The `for _ in range(count)` loop over an array's items, each read as `t` and
      appended to `acc`. */
  function ReadItems(data: seq<byte>, off: nat, t: FieldType, count: nat, acc: seq<Value>): (r: Option<(seq<Value>, nat)>)
    ensures r.Some? ==> r.value.1 >= off
    decreases Encoder.Rank(t), 2, count
  {
    if count == 0 then Some((acc, off))
    else match ReadValue(data, off, t)
      case None => None
      case Some((v, o)) => ReadItems(data, o, t, count - 1, acc + [v])
  }

  /** The loop over a MAP's entries: a string key, a string value, stored in `acc`. */
  function ReadEntries(data: seq<byte>, off: nat, count: nat, acc: seq<(Value, Value)>): (r: Option<(seq<(Value, Value)>, nat)>)
    ensures r.Some? ==> r.value.1 >= off
    decreases count, 1
  {
    if count == 0 then Some((acc, off)) else ReadEntry(data, off, count, acc)
  }

  /** One key/value pair of a MAP read into `acc`, then the remaining `count - 1`. */
  function ReadEntry(data: seq<byte>, off: nat, count: nat, acc: seq<(Value, Value)>): (r: Option<(seq<(Value, Value)>, nat)>)
    requires count > 0
    ensures r.Some? ==> r.value.1 > off
    decreases count, 0
  {
    match ReadString(data, off)
    case None => None
    case Some((k, o)) =>
      match ReadString(data, o)
      case None => None
      case Some((v, o2)) => ReadEntries(data, o2, count - 1, DictPut(acc, StrV(k), StrV(v)))
  }

  /** `_decode_value(data, offset, field_def)` for a field of a schema: an ARRAY's items
      are read as its element type (STRING when none is declared), a NESTED value with
      a schema is decoded from its own slice of the data with that schema alone. */
  function ReadFieldValue(data: seq<byte>, off: nat, f: FieldDef): (r: Option<(Value, nat)>)
    ensures r.Some? ==> r.value.1 > off
    decreases f
  {
    match f.fieldType
    case Array => ReadArray(data, off, ElementTypeOf(f))
    case Nested =>
      if f.nestedSchema.Some? then ReadNested(data, off, f.nestedSchema.value)
      else ReadSkippedRecord(data, off)
    case _ => ReadValue(data, off, f.fieldType)
  }

  /** A NESTED value with schema `s`: a varint length, then a body of that length,
      decoded on its own with `s` alone. */
  function ReadNested(data: seq<byte>, off: nat, s: Schema): (r: Option<(Value, nat)>)
    ensures r.Some? ==> r.value.1 > off
    decreases s, |data| + 2
  {
    match ReadVarint(data, off)
    case None => None
    case Some((len, o)) => ReadRecordBody(PySlice(data, o, o + len), s, o + len)
  }

  /** The body of a NESTED value, read with its schema alone; the reader then goes on at
      `e`, just after the body. */
  function ReadRecordBody(body: seq<byte>, s: Schema, e: nat): (r: Option<(Value, nat)>)
    ensures r.Some? ==> r.value.1 == e
    decreases s, |body| + 1
  {
    match ReadFields(body, 0, s, None, map[], {})
    case None => None
    case Some((m, _)) => Some((RecordV(m), e))
  }

  /** `_skip_field`: the offset after a value the reading schema does not know, sized
      by the writer's definition of it when there is one, and read as a varint length
      and that many bytes when there is none. */
  function SkipTo(data: seq<byte>, off: nat, src: Option<FieldDef>): (r: Option<nat>)
    ensures r.Some? ==> r.value >= off
  {
    if src.None? then
      (match ReadVarint(data, off)
      case None => None
      case Some((len, o)) => Some(o + len))
    else match src.value.fieldType
      case Int32 => Some(off + 4)
      case Float32 => Some(off + 4)
      case Int64 => Some(off + 8)
      case Float64 => Some(off + 8)
      case Bool => Some(off + 1)
      case Array =>
        var a := ReadArray(data, off, ElementTypeOf(src.value));
        if a.Some? then Some(a.value.1) else None
      case Map =>
        var m := ReadMap(data, off);
        if m.Some? then Some(m.value.1) else None
      case _ =>
        (match ReadVarint(data, off)
        case None => None
        case Some((len, o)) => Some(o + len))
  }

  /** `source_schema.get_field_by_tag(tag) if source_schema else None` */
  function SourceField(src: Option<Schema>, tag: int): Option<FieldDef>
  {
    if src.Some? then FieldAt(src.value.fields, TagIndex(src.value.fields, tag)) else None
  }

  /** The closing loop of `_decode_fields` over `fs`: a field whose tag was not seen
      takes its default; without a default, a required one raises. */
  function ApplyDefaults(fs: seq<FieldDef>, seen: set<int>, result: map<string, Value>): Option<map<string, Value>>
  {
    if |fs| == 0 then Some(result)
    else
      var f := fs[0];
      if f.tag !in seen && !f.defaultValue.Null? then ApplyDefaults(fs[1..], seen, result[f.name := f.defaultValue])
      else if f.tag !in seen && f.required then None
      else ApplyDefaults(fs[1..], seen, result)
  }

  /** The end of `_decode_fields`: defaults applied, the offset where reading stopped. */
  function Finish(s: Schema, seen: set<int>, result: map<string, Value>, off: nat): Option<(map<string, Value>, nat)>
  {
    match ApplyDefaults(s.fields, seen, result)
    case None => None
    case Some(m) => Some((m, off))
  }

  /** `_decode_fields` from `off` on, with the values in `result` and the tags in
      `seen` read so far: the result and the offset where reading stopped. */
  function ReadFields(data: seq<byte>, off: nat, s: Schema, src: Option<Schema>,
                      result: map<string, Value>, seen: set<int>): (r: Option<(map<string, Value>, nat)>)
    decreases s, |data| - off
  {
    if off >= |data| then Finish(s, seen, result, off)
    else match ReadVarint(data, off)
      case None => None
      case Some((tag, o)) =>
        if tag == 0 then Finish(s, seen, result, o)
        else match TagIndex(s.fields, tag)
          case None =>
            (match SkipTo(data, o, SourceField(src, tag))
            case None => None
            case Some(o2) => ReadFields(data, o2, s, src, result, seen + {tag}))
          case Some(i) =>
            (match ReadFieldValue(data, o, s.fields[i])
            case None => None
            case Some((v, o2)) => ReadFields(data, o2, s, src, result[s.fields[i].name := v], seen + {tag}))
  }

  /** `self.registry.get(name, version) if self.registry else None` */
  function Lookup(registry: Option<map<(string, int), Schema>>, name: string, version: int): (r: Option<Schema>)
    ensures r.Some? <==> registry.Some? && (name, version) in registry.value
    ensures r.Some? ==> r.value == registry.value[(name, version)]
  {
    if registry.Some? && (name, version) in registry.value then Some(registry.value[(name, version)]) else None
  }

  /** `Decoder(registry, target_schema).decode(data)`, with the registry given by its
      contents. */
  function DecodeMessage(data: seq<byte>, registry: Option<map<(string, int), Schema>>, target: Option<Schema>): Option<map<string, Value>>
  {
    match ReadHeader(data)
    case None => None
    case Some((name, version, off)) =>
      var src := Lookup(registry, name, version);
      var schema := if target.Some? then target else src;
      if schema.None? then None
      else match ReadFields(data, off, schema.value, src, map[], {})
        case None => None
        case Some((m, _)) => Some(m)
  }

  /** The header `decode` reads: the magic bytes, the version and the name's length as
      big-endian 16-bit numbers, then the name as strict UTF-8. The schema name, the
      version and the offset where the fields start; None where any of it fails. */
  function ReadHeader(data: seq<byte>): (r: Option<(string, int, nat)>)
    ensures r.Some? ==>
      |data| >= Encoder.HeaderSize && data[..4] == Encoder.Magic &&
      r.value.1 == BigEndian.Decode(data[4..6]) && r.value.2 == 8 + BigEndian.Decode(data[6..8]) &&
      Utf8.Decode(PySlice(data, 8, r.value.2)) == Some(r.value.0)
  {
    if |data| < Encoder.HeaderSize || data[..4] != Encoder.Magic then None
    else
      var version := BigEndian.Decode(data[4..6]);
      var nameLen := BigEndian.Decode(data[6..8]);
      match Utf8.Decode(PySlice(data, 8, 8 + nameLen))
      case None => None
      case Some(name) => Some((name, version, 8 + nameLen))
  }

  // ---- the loops of the decoder, as methods ----

  /** What the varint still to be read at `rest` makes of the low bits `result`
      already collected, when its first group has place value `scale`. */
  function Shifted(result: nat, scale: nat, rest: Option<(nat, nat)>): Option<(nat, nat)>
  {
    match rest
    case None => None
    case Some((v, o)) => Some((result + scale * v, o))
  }

  /** The last byte of a varint: its seven bits join `result` at place value `scale`. */
  lemma ShiftedLast(data: seq<byte>, off: nat, result: nat, scale: nat, low: nat)
    requires off < |data| && data[off] < 0x80 && low == data[off]
    ensures Shifted(result, scale, ReadVarint(data, off)) == Some((result + low * scale, off + 1))
  {
    assert scale * low == low * scale;
  }

  /** A byte with the continuation bit: its low seven bits join `result` at place value
      `scale`, and the rest of the varint continues at place value `scale * 128`. */
  lemma ShiftedMore(data: seq<byte>, off: nat, result: nat, scale: nat, low: nat)
    requires off < |data| && data[off] >= 0x80 && low == data[off] - 0x80
    ensures Shifted(result, scale, ReadVarint(data, off)) == Shifted(result + low * scale, scale * 128, ReadVarint(data, off + 1))
  {
    match ReadVarint(data, off + 1)
    case None =>
    case Some((v, o)) => ShiftCombine(result, scale, low, v);
  }

  lemma ShiftBound(result: nat, scale: nat, low: nat)
    requires result < scale && low < 128
    ensures 0 <= low * scale && result + low * scale < scale * 128
  {
    assert low * scale <= 127 * scale;
  }

  lemma ShiftCombine(result: nat, scale: nat, low: nat, v: nat)
    ensures result + scale * (low + 128 * v) == (result + low * scale) + (scale * 128) * v
  {
    assert scale * (low + 128 * v) == scale * low + scale * (128 * v);
  }

  /** `result |= (byte & 0x7f) << shift` is an addition here: `scale` is `1 << shift`
      and every bit collected so far lies below it. */
  method DecodeVarint(data: seq<byte>, offset: nat) returns (r: Option<(nat, nat)>)
    ensures r == ReadVarint(data, offset)
  {
    var result: nat := 0;
    var scale: nat := 1;
    var off := offset;
    while true
      invariant off == offset || off <= |data|
      invariant 0 <= result < scale
      invariant ReadVarint(data, offset) == Shifted(result, scale, ReadVarint(data, off))
      decreases |data| - off
    {
      if off >= |data| {
        return None;
      }
      var b := data[off];
      var low: nat := b % 128;
      ShiftBound(result, scale, low);
      if b < 0x80 {
        ShiftedLast(data, off, result, scale, low);
      } else {
        ShiftedMore(data, off, result, scale, low);
      }
      result := result + low * scale;
      off := off + 1;
      if b < 0x80 {
        return Some((result, off));
      }
      scale := scale * 128;
    }
  }

  method DecodeString(data: seq<byte>, offset: nat) returns (r: Option<(string, nat)>)
    ensures r == ReadString(data, offset)
  {
    var lv := DecodeVarint(data, offset);
    if lv.None? {
      return None;
    }
    var (length, off) := lv.value;
    var s := Utf8.Decode(PySlice(data, off, off + length));
    if s.None? {
      return None;
    }
    return Some((s.value, off + length));
  }

  method DecodeBytes(data: seq<byte>, offset: nat) returns (r: Option<(seq<byte>, nat)>)
    ensures r == ReadBytes(data, offset)
  {
    var lv := DecodeVarint(data, offset);
    if lv.None? {
      return None;
    }
    var (length, off) := lv.value;
    return Some((PySlice(data, off, off + length), off + length));
  }

  /** One turn of the ARRAY loop: the item read, or the failure that ends the loop. */
  lemma ItemsStep(data: seq<byte>, off: nat, t: FieldType, n: nat, acc: seq<Value>, x: Option<(Value, nat)>)
    requires n > 0 && x == ReadValue(data, off, t)
    ensures x.None? ==> ReadItems(data, off, t, n, acc) == None
    ensures x.Some? ==> ReadItems(data, off, t, n, acc) == ReadItems(data, x.value.1, t, n - 1, acc + [x.value.0])
  {
  }

  method DecodeItems(data: seq<byte>, offset: nat, t: FieldType, count: nat) returns (r: Option<(seq<Value>, nat)>)
    ensures r == ReadItems(data, offset, t, count, [])
    decreases Encoder.Rank(t), 2, 0
  {
    var items: seq<Value> := [];
    var off := offset;
    var n := count;
    while n > 0
      invariant ReadItems(data, offset, t, count, []) == ReadItems(data, off, t, n, items)
    {
      var x := DecodeValue(data, off, t);
      ItemsStep(data, off, t, n, items, x);
      if x.None? {
        return None;
      }
      items, off, n := items + [x.value.0], x.value.1, n - 1;
    }
    return Some((items, off));
  }

  /** One turn of the MAP loop: the key and the value read and stored into `acc`, leaving
      `left` of the `n` entries to read, or the failure that ends the loop. */
  method DecodeEntry(data: seq<byte>, off: nat, n: nat, acc: seq<(Value, Value)>)
    returns (ok: bool, next: seq<(Value, Value)>, o: nat, left: nat)
    requires n > 0
    ensures left < n
    ensures !ok ==> ReadEntries(data, off, n, acc) == None
    ensures ok ==> ReadEntries(data, off, n, acc) == ReadEntries(data, o, left, next)
  {
    next, o, left := acc, off, n - 1;
    var key := DecodeString(data, off);
    var value: Option<(string, nat)> := None;
    if key.Some? {
      value := DecodeString(data, key.value.1);
    }
    EntryStep(data, off, n, acc, key, value, left);
    if key.Some? && value.Some? {
      ok, next, o := true, DictPut(acc, StrV(key.value.0), StrV(value.value.0)), value.value.1;
    } else {
      ok := false;
    }
  }

  /** Reading one entry in terms of the two strings read for it. */
  lemma EntryStep(data: seq<byte>, off: nat, n: nat, acc: seq<(Value, Value)>,
                  key: Option<(string, nat)>, value: Option<(string, nat)>, left: nat)
    requires key == ReadString(data, off) && left + 1 == n
    requires value == if key.Some? then ReadString(data, key.value.1) else None
    ensures key.None? || value.None? ==> ReadEntries(data, off, n, acc) == None
    ensures key.Some? && value.Some? ==>
      ReadEntries(data, off, n, acc) == ReadEntries(data, value.value.1, left, DictPut(acc, StrV(key.value.0), StrV(value.value.0)))
  {
  }

  method DecodeEntries(data: seq<byte>, offset: nat, count: nat) returns (r: Option<(seq<(Value, Value)>, nat)>)
    ensures r == ReadEntries(data, offset, count, [])
  {
    var result: seq<(Value, Value)> := [];
    var off := offset;
    var n := count;
    while n > 0
      invariant ReadEntries(data, offset, count, []) == ReadEntries(data, off, n, result)
    {
      var ok;
      ok, result, off, n := DecodeEntry(data, off, n, result);
      if !ok {
        return None;
      }
    }
    return Some((result, off));
  }

  method DecodeValue(data: seq<byte>, offset: nat, t: FieldType) returns (r: Option<(Value, nat)>)
    ensures r == ReadValue(data, offset, t)
    decreases Encoder.Rank(t), 1, 0
  {
    match t
    case String =>
      var x := DecodeString(data, offset);
      r := if x.Some? then Some((StrV(x.value.0), x.value.1)) else None;
    case Bytes =>
      var x := DecodeBytes(data, offset);
      r := if x.Some? then Some((BytesV(x.value.0), x.value.1)) else None;
    case Array =>
      r := DecodeArray(data, offset, String);
    case Map =>
      r := DecodeMap(data, offset);
    case Nested =>
      var lv := DecodeVarint(data, offset);
      r := if lv.Some? then Some((RecordV(map[]), lv.value.1 + lv.value.0)) else None;
    case _ =>
      r := ReadValue(data, offset, t);
  }

  method DecodeArray(data: seq<byte>, offset: nat, elem: FieldType) returns (r: Option<(Value, nat)>)
    ensures r == ReadArray(data, offset, elem)
    decreases Encoder.Rank(elem), 3, 0
  {
    var c := DecodeVarint(data, offset);
    if c.None? {
      return None;
    }
    var items := DecodeItems(data, c.value.1, elem, c.value.0);
    r := if items.Some? then Some((ListV(items.value.0), items.value.1)) else None;
  }

  method DecodeMap(data: seq<byte>, offset: nat) returns (r: Option<(Value, nat)>)
    ensures r == ReadMap(data, offset)
  {
    var c := DecodeVarint(data, offset);
    if c.None? {
      return None;
    }
    var entries := DecodeEntries(data, c.value.1, c.value.0);
    r := if entries.Some? then Some((DictV(entries.value.0), entries.value.1)) else None;
  }

  method DecodeFieldValue(data: seq<byte>, offset: nat, f: FieldDef) returns (r: Option<(Value, nat)>)
    ensures r == ReadFieldValue(data, offset, f)
    decreases f, 1
  {
    match f.fieldType
    case Array =>
      r := DecodeArray(data, offset, ElementTypeOf(f));
    case Nested =>
      var lv := DecodeVarint(data, offset);
      if lv.None? {
        return None;
      }
      var (length, off) := lv.value;
      if f.nestedSchema.None? {
        return Some((RecordV(map[]), off + length));
      }
      r := DecodeRecordBody(PySlice(data, off, off + length), f.nestedSchema.value, off + length);
    case _ =>
      r := DecodeValue(data, offset, f.fieldType);
  }

  method DecodeRecordBody(body: seq<byte>, s: Schema, e: nat) returns (r: Option<(Value, nat)>)
    ensures r == ReadRecordBody(body, s, e)
    decreases s, 1
  {
    var nested := DecodeFields(body, 0, s, None);
    r := if nested.Some? then Some((RecordV(nested.value.0), e)) else None;
  }

  method SkipField(data: seq<byte>, offset: nat, src: Option<FieldDef>) returns (r: Option<nat>)
    ensures r == SkipTo(data, offset, src)
  {
    if src.Some? {
      match src.value.fieldType
      case Int32 => return Some(offset + 4);
      case Float32 => return Some(offset + 4);
      case Int64 => return Some(offset + 8);
      case Float64 => return Some(offset + 8);
      case Bool => return Some(offset + 1);
      case Array =>
        var a := DecodeArray(data, offset, ElementTypeOf(src.value));
        return if a.Some? then Some(a.value.1) else None;
      case Map =>
        var m := DecodeMap(data, offset);
        return if m.Some? then Some(m.value.1) else None;
      case _ =>
    }
    var lv := DecodeVarint(data, offset);
    return if lv.Some? then Some(lv.value.1 + lv.value.0) else None;
  }

  method DecodeFields(data: seq<byte>, offset: nat, s: Schema, src: Option<Schema>) returns (r: Option<(map<string, Value>, nat)>)
    ensures r == ReadFields(data, offset, s, src, map[], {})
    decreases s, 0
  {
    var result: map<string, Value> := map[];
    var seen: set<int> := {};
    var off := offset;
    while off < |data|
      invariant ReadFields(data, offset, s, src, map[], {}) == ReadFields(data, off, s, src, result, seen)
      decreases |data| - off
    {
      var tv := DecodeVarint(data, off);
      if tv.None? {
        return None;
      }
      var tag := tv.value.0;
      if tag == 0 {
        off := tv.value.1;
        break;
      }
      var fieldDef := GetFieldByTag(s, tag);
      var sourceField: Option<FieldDef> := None;
      if src.Some? {
        sourceField := GetFieldByTag(src.value, tag);
      }
      if fieldDef.None? {
        var next := SkipField(data, tv.value.1, sourceField);
        if next.None? {
          return None;
        }
        off := next.value;
      } else {
        assert fieldDef.value in s.fields;
        var x := DecodeFieldValue(data, tv.value.1, fieldDef.value);
        if x.None? {
          return None;
        }
        result := result[fieldDef.value.name := x.value.0];
        off := x.value.1;
      }
      seen := seen + {tag};
    }
    assert ReadFields(data, offset, s, src, map[], {}) == Finish(s, seen, result, off);
    ghost var collected := result;
    var k := 0;
    while k < |s.fields|
      invariant k <= |s.fields|
      invariant ApplyDefaults(s.fields, seen, collected) == ApplyDefaults(s.fields[k..], seen, result)
    {
      var f := s.fields[k];
      assert s.fields[k..][1..] == s.fields[k + 1..];
      if f.tag !in seen {
        if !f.defaultValue.Null? {
          result := result[f.name := f.defaultValue];
        } else if f.required {
          return None;
        }
      }
      k := k + 1;
    }
    return Some((result, off));
  }

  /** `decode(data, registry, target_schema)`; `null` is a decoder without a registry. */
  method Decode(data: seq<byte>, registry: SchemaRegistry?, target: Option<Schema>) returns (r: Option<map<string, Value>>)
    ensures r == DecodeMessage(data, if registry != null then Some(registry.schemas) else None, target)
  {
    var header := DecodeHeader(data);
    if header.None? {
      return None;
    }
    var (name, version, off) := header.value;
    var src := if registry != null then registry.Get(name, version) else None;
    var schema := if target.Some? then target else src;
    if schema.None? {
      return None;
    }
    var fields := DecodeFields(data, off, schema.value, src);
    r := if fields.Some? then Some(fields.value.0) else None;
  }

  /** The header part of `decode`. */
  method DecodeHeader(data: seq<byte>) returns (r: Option<(string, int, nat)>)
    ensures r == ReadHeader(data)
  {
    if |data| < Encoder.HeaderSize {
      return None;
    }
    var magic := data[..4];
    var version := BigEndian.Decode(data[4..6]);
    var nameLen := BigEndian.Decode(data[6..8]);
    if magic != Encoder.Magic {
      return None;
    }
    var name := Utf8.Decode(PySlice(data, 8, 8 + nameLen));
    if name.None? {
      return None;
    }
    return Some((name.value, version, 8 + nameLen));
  }
}
