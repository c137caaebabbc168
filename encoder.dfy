/** The writer of the versioned binary format: base-128 varints, length-prefixed
    strings and bytes, the `VENC` header, and a record body of (tag, value) pairs in
    schema order closed by a zero tag. Every function here is None where the Python
    encoder raises. */
module Encoder {
  import opened Common
  import BigEndian
  import Utf8
  import opened Schemas

  /** `b'VENC'` */
  const Magic: seq<byte> := [0x56, 0x45, 0x4E, 0x43]
  /** `struct.calcsize('>4s H H')` */
  const HeaderSize: nat := 8
  const Two64: int := 0x1_0000_0000_0000_0000

  /** What the byte values of a varint stand for: seven payload bits per byte, the
      first byte carrying the lowest group, i.e. the sum of (b_i & 0x7f) * 2^(7i). */
  function VarintValue(bs: seq<byte>): nat
  {
    if |bs| == 0 then 0 else bs[0] % 128 + 128 * VarintValue(bs[1..])
  }

  /** `encode_varint` of a non-negative value. */
  function Varint(n: nat): (r: seq<byte>)
    ensures |r| >= 1
  {
    if n <= 0x7f then [n] else [n % 128 + 128] + Varint(n / 128)
  }

  /** Every byte but the last carries the continuation bit 0x80, the last does not. */
  lemma {:induction false} VarintShape(n: nat)
    ensures var r := Varint(n); r[|r| - 1] < 0x80 && forall i :: 0 <= i < |r| - 1 ==> r[i] >= 0x80
  {
    if n > 0x7f {
      VarintShape(n / 128);
      var r := Varint(n);
      assert r[1..] == Varint(n / 128);
      assert forall i :: 1 <= i < |r| ==> r[i] == r[1..][i - 1];
    }
  }

  /** The varint's bytes sum back to the value. */
  lemma {:induction false} VarintDigits(n: nat)
    ensures VarintValue(Varint(n)) == n
  {
    if n > 0x7f {
      VarintDigits(n / 128);
      assert Varint(n)[1..] == Varint(n / 128);
    }
  }

  /** `encode_varint` of any int: a negative value is first taken modulo 2^64 (as
      `(1 << 64) + value`); one still negative fails, since `bytes()` rejects it. */
  function VarintOf(v: int): (r: Option<seq<byte>>)
    ensures v >= 0 ==> r == Some(Varint(v))
    ensures -Two64 <= v < 0 ==> r == Some(Varint(v + Two64))
    ensures r.None? <==> v < -Two64
  {
    if v >= 0 then Some(Varint(v))
    else if v + Two64 >= 0 then Some(Varint(v + Two64))
    else None
  }

  method EncodeVarint(v: int) returns (r: Option<seq<byte>>)
    ensures r == VarintOf(v)
  {
    var value := v;
    if value < 0 {
      value := Two64 + value;
    }
    if value < 0 {
      return None;
    }
    var start: nat := value;
    var result: seq<byte> := [];
    while value > 0x7f
      invariant value >= 0
      invariant result + Varint(value) == Varint(start)
      decreases value
    {
      var low: byte := value % 128 + 128;
      assert Varint(value) == [low] + Varint(value / 128);
      assert result + Varint(value) == (result + [low]) + Varint(value / 128);
      result := result + [low];
      value := value / 128;
    }
    result := result + [value];
    return Some(result);
  }

  /** `encode_string`: the varint byte length, then the UTF-8 bytes. */
  function EncodeString(s: string): (r: seq<byte>)
  {
    Varint(|Utf8.Encode(s)|) + Utf8.Encode(s)
  }

  /** `encode_bytes`: the varint length, then the bytes. */
  function EncodeBytes(b: seq<byte>): (r: seq<byte>)
  {
    Varint(|b|) + b
  }

  /** Both are a varint of the payload's length followed by the payload. */
  lemma LengthPrefixed(s: string, b: seq<byte>)
    ensures EncodeString(s) == Varint(|Utf8.Encode(s)|) + Utf8.Encode(s)
    ensures EncodeBytes(b)[..|Varint(|b|)|] == Varint(|b|) && EncodeBytes(b)[|Varint(|b|)|..] == b
    ensures VarintValue(EncodeBytes(b)[..|Varint(|b|)|]) == |b|
  {
    VarintDigits(|b|);
    BigEndian.SplitPrefix(Varint(|b|), b);
  }

  /** The corrected header: the length written is the name's length in bytes, which is
      what the reader takes. */
  function HeaderFixed(s: Schema): (r: Option<seq<byte>>)
    ensures r.Some? <==> 0 <= s.version < 0x10000 && |Utf8.Encode(s.name)| < 0x10000
    ensures r.Some? ==> |r.value| == HeaderSize + |Utf8.Encode(s.name)|
  {
    var nameBytes := Utf8.Encode(s.name);
    if 0 <= s.version < 0x10000 && |nameBytes| < 0x10000 then
      Some(Magic + BigEndian.Encode(s.version, 2) + BigEndian.Encode(|nameBytes|, 2) + nameBytes)
    else None
  }

  /** The 8-byte header `struct.pack('>4s H H', MAGIC, version, len(name))` and the
      UTF-8 name after it; `H` takes 0..65535 and raises outside. `len(self.schema.name)`
      counts characters, while the name is written as its UTF-8 bytes. */
  function Header(s: Schema): (r: Option<seq<byte>>)
    ensures r.Some? <==> 0 <= s.version < 0x10000 && |s.name| < 0x10000
  {
    var nameBytes := Utf8.Encode(s.name);
    if 0 <= s.version < 0x10000 && |s.name| < 0x10000 then
      Some(Magic + BigEndian.Encode(s.version, 2) + BigEndian.Encode(|s.name|, 2) + nameBytes)
    else None
  }

  /** The two agree exactly when the name's byte and character counts agree. */
  lemma HeaderAgreesOnAscii(s: Schema)
    requires forall i :: 0 <= i < |s.name| ==> (s.name[i] as int) < 0x80
    ensures Header(s) == HeaderFixed(s)
  {
    Utf8.LengthIsCharCountOnlyForAscii(s.name);
  }

  function Prefixed(a: seq<byte>, rest: Option<seq<byte>>): Option<seq<byte>>
  {
    if rest.Some? then Some(a + rest.value) else None
  }

  lemma PrefixedEmpty(rest: Option<seq<byte>>)
    ensures Prefixed([], rest) == rest
  {
    if rest.Some? {
      assert [] + rest.value == rest.value;
    }
  }

  lemma PrefixedTwice(a: seq<byte>, b: seq<byte>, rest: Option<seq<byte>>)
    ensures Prefixed(a, Prefixed(b, rest)) == Prefixed(a + b, rest)
  {
    if rest.Some? {
      assert a + (b + rest.value) == (a + b) + rest.value;
    }
  }

  function Concat(first: Option<seq<byte>>, rest: Option<seq<byte>>): Option<seq<byte>>
  {
    if first.Some? then Prefixed(first.value, rest) else None
  }

  /** Python's truth value, which `struct.pack('>?', value)` writes as 1 or 0. A float
      is false only as +0.0 or -0.0. */
  predicate Truthy(v: Value)
  {
    match v
    case Null => false
    case IntV(i) => i != 0
    case FloatV(bits) => exists k :: 0 <= k < |bits| && (if k == 0 then bits[k] % 128 else bits[k]) != 0
    case BoolV(b) => b
    case StrV(s) => |s| > 0
    case BytesV(b) => |b| > 0
    case ListV(items) => |items| > 0
    case DictV(entries) => |entries| > 0
    case RecordV(fields) => |fields| > 0
  }

  /** `struct.pack('>i' or '>q', value)`: an int (a bool counts as 0 or 1) in the
      signed range of the width, big-endian two's complement. */
  function IntBytes(v: Value, width: nat): (r: Option<seq<byte>>)
    requires width == 4 || width == 8
    ensures r.Some? ==> |r.value| == width
  {
    var x := if v.IntV? then v.i else if v.BoolV? then (if v.b then 1 else 0) else 0;
    if (v.IntV? || v.BoolV?) && BigEndian.FitsSigned(x, width) then Some(BigEndian.EncodeSigned(x, width))
    else None
  }

  /** A float is written as its bit pattern of the field's width. */
  function FloatBytes(v: Value, width: nat): (r: Option<seq<byte>>)
    ensures r.Some? ==> |r.value| == width
  {
    if v.FloatV? && |v.bits| == width then Some(v.bits) else None
  }

  /** Decimal digits of a non-negative int. */
  function Digits(n: nat): (r: string)
    ensures |r| >= 1
    ensures forall i :: 0 <= i < |r| ==> '0' <= r[i] <= '9'
    decreases n
  {
    var d := [(48 + n % 10) as char];
    if n < 10 then d else Digits(n / 10) + d
  }

  /** `str(x)` for the values whose text the model knows; None for the rest. A string is
      its own text, and an integer's text starts with a minus sign exactly when it is
      negative. */
  function StrOf(v: Value): (r: Option<string>)
    ensures r.Some? <==> v.StrV? || v.IntV? || v.BoolV? || v.Null?
    ensures v.StrV? ==> r == Some(v.s)
    ensures v.IntV? ==> r.Some? && |r.value| >= 1 && (r.value[0] == '-' <==> v.i < 0)
  {
    match v
    case StrV(s) => Some(s)
    case IntV(i) => Some(if i < 0 then "-" + Digits(-i) else Digits(i))
    case BoolV(b) => Some(if b then "True" else "False")
    case Null => Some("None")
    case _ => None
  }

  /** Field types whose values hold values: an ARRAY is encoded through its items. */
  function Rank(t: FieldType): nat { if t == Array then 1 else 0 }

  /** `_encode_value(value, t)` without a field definition, as array items are
      encoded: an ARRAY's items are then STRINGs and a NESTED value is empty bytes. */
  function ValueBytes(v: Value, t: FieldType): (r: Option<seq<byte>>)
    decreases Rank(t), 1, 0
  {
    match t
    case Int32 => IntBytes(v, 4)
    case Int64 => IntBytes(v, 8)
    case Float32 => FloatBytes(v, 4)
    case Float64 => FloatBytes(v, 8)
    case String => if v.StrV? then Some(EncodeString(v.s)) else None
    case Bytes => if v.BytesV? then Some(EncodeBytes(v.bytes)) else None
    case Bool => Some([if Truthy(v) then 1 else 0])
    case Array => if v.ListV? then Prefixed(Varint(|v.items|), ItemsBytes(v.items, String)) else None
    case Map => if v.DictV? then Prefixed(Varint(|v.entries|), EntriesBytes(v.entries)) else None
    case Nested => Some(EncodeBytes([]))
  }

  /** The loop over an array's items, each encoded as `t`. */
  function ItemsBytes(items: seq<Value>, t: FieldType): Option<seq<byte>>
    decreases Rank(t), 2, |items|
  {
    if |items| == 0 then Some([])
    else Concat(ValueBytes(items[0], t), ItemsBytes(items[1..], t))
  }

  /** The loop over a MAP value's entries: `str(k)` and `str(v)` as strings. */
  function EntriesBytes(entries: seq<(Value, Value)>): Option<seq<byte>>
  {
    if |entries| == 0 then Some([])
    else
      var k := StrOf(entries[0].0);
      var v := StrOf(entries[0].1);
      if k.Some? && v.Some? then Prefixed(EncodeString(k.value) + EncodeString(v.value), EntriesBytes(entries[1..]))
      else None
  }

  /** The ARRAY branch as the source writes it: with no declared element type the
      items are encoded as type None, which raises `unknown field type`. */
  function ArrayBytesAsWritten(items: seq<Value>, elementType: Option<FieldType>): Option<seq<byte>>
  {
    if elementType.Some? then Prefixed(Varint(|items|), ItemsBytes(items, elementType.value))
    else if |items| == 0 then Some(Varint(0))
    else None
  }

  /** `_encode_value(value, f.field_type, f)`, as the field loop calls it. As written
      (`fixed` false) an ARRAY's items take the declared element type, which may be
      None; corrected, a missing element type defaults to STRING as in the decoder. */
  function FieldValueBytes(v: Value, f: FieldDef, fixed: bool): (r: Option<seq<byte>>)
    ensures f.fieldType == Array && r.Some? ==> v.ListV?
    ensures f.fieldType == Array && v.ListV? && !fixed && f.elementType.None? ==> (r.Some? <==> |v.items| == 0)
    ensures f.fieldType == Nested && f.nestedSchema.Some? && r.Some? ==> v.RecordV?
    decreases f
  {
    match f.fieldType
    case Array =>
      if !v.ListV? then None
      else if fixed then Prefixed(Varint(|v.items|), ItemsBytes(v.items, ElementTypeOf(f)))
      else ArrayBytesAsWritten(v.items, f.elementType)
    case Nested =>
      if f.nestedSchema.Some? then
        if v.RecordV? then
          var body := FieldsBytes(f.nestedSchema.value, v.fields, 0, fixed);
          if body.Some? then Some(EncodeBytes(body.value)) else None
        else None
      else Some(EncodeBytes([]))
    case _ => ValueBytes(v, f.fieldType)
  }

  /** `_encode_fields` from field i on: each present, non-None field as its tag then
      its value, in schema order; a missing required field raises; a zero tag ends
      the body. */
  function FieldsBytes(s: Schema, d: map<string, Value>, i: nat, fixed: bool): (r: Option<seq<byte>>)
    requires i <= |s.fields|
    decreases s, |s.fields| - i
  {
    if i == |s.fields| then Some(Varint(0))
    else
      var f := s.fields[i];
      if f.name !in d then
        if f.required then None else FieldsBytes(s, d, i + 1, fixed)
      else if d[f.name].Null? then FieldsBytes(s, d, i + 1, fixed)
      else Concat(Concat(VarintOf(f.tag), FieldValueBytes(d[f.name], f, fixed)), FieldsBytes(s, d, i + 1, fixed))
  }

  /** `Encoder.encode`: header, name, body. */
  function EncodeRecord(s: Schema, d: map<string, Value>): (r: Option<seq<byte>>)
    ensures r.Some? <==> Header(s).Some? && FieldsBytes(s, d, 0, false).Some?
  {
    Concat(Header(s), FieldsBytes(s, d, 0, false))
  }

  /** The corrected encoder: the header counts the name in bytes and an untyped ARRAY
      holds strings. */
  function EncodeRecordFixed(s: Schema, d: map<string, Value>): (r: Option<seq<byte>>)
    ensures r.Some? <==> HeaderFixed(s).Some? && FieldsBytes(s, d, 0, true).Some?
  {
    Concat(HeaderFixed(s), FieldsBytes(s, d, 0, true))
  }

  /** The body always closes with a single zero byte. */
  lemma {:induction false} BodyEndsWithZero(s: Schema, d: map<string, Value>, i: nat, fixed: bool)
    requires i <= |s.fields|
    requires FieldsBytes(s, d, i, fixed).Some?
    ensures var b := FieldsBytes(s, d, i, fixed).value; |b| >= 1 && b[|b| - 1] == 0
    decreases |s.fields| - i
  {
    if i < |s.fields| {
      BodyEndsWithZero(s, d, i + 1, fixed);
    }
  }

  /** A required field that is absent makes encoding fail; an absent or None optional
      field contributes no bytes. */
  lemma FieldsRule(s: Schema, d: map<string, Value>, i: nat, fixed: bool)
    requires i < |s.fields|
    ensures var f := s.fields[i];
      f.name !in d && f.required ==> FieldsBytes(s, d, i, fixed).None?
    ensures var f := s.fields[i];
      (f.name !in d && !f.required) || (f.name in d && d[f.name].Null?) ==> FieldsBytes(s, d, i, fixed) == FieldsBytes(s, d, i + 1, fixed)
    ensures var f := s.fields[i];
      f.name in d && !d[f.name].Null? && FieldsBytes(s, d, i, fixed).Some? ==>
        VarintOf(f.tag).Some? && FieldValueBytes(d[f.name], f, fixed).Some? && FieldsBytes(s, d, i + 1, fixed).Some? &&
        FieldsBytes(s, d, i, fixed).value == VarintOf(f.tag).value + FieldValueBytes(d[f.name], f, fixed).value + FieldsBytes(s, d, i + 1, fixed).value
  {
  }

  /** The wire forms of the fixed-width and counted types. */
  lemma ValueForms(v: Value, f: FieldDef, fixed: bool)
    ensures f.fieldType == Int32 && v.IntV? && BigEndian.FitsSigned(v.i, 4) ==>
      FieldValueBytes(v, f, fixed) == Some(BigEndian.EncodeSigned(v.i, 4))
    ensures f.fieldType == Int64 && v.IntV? && BigEndian.FitsSigned(v.i, 8) ==>
      FieldValueBytes(v, f, fixed) == Some(BigEndian.EncodeSigned(v.i, 8))
    ensures f.fieldType == Bool ==> FieldValueBytes(v, f, fixed) == Some([if Truthy(v) then 1 else 0])
    ensures f.fieldType == Array && v.ListV? && FieldValueBytes(v, f, fixed).Some? ==>
      FieldValueBytes(v, f, fixed).value[..|Varint(|v.items|)|] == Varint(|v.items|)
    ensures f.fieldType == Map && v.DictV? && FieldValueBytes(v, f, fixed).Some? ==>
      FieldValueBytes(v, f, fixed).value[..|Varint(|v.entries|)|] == Varint(|v.entries|)
    ensures f.fieldType == Nested && f.nestedSchema.Some? && v.RecordV? && FieldsBytes(f.nestedSchema.value, v.fields, 0, fixed).Some? ==>
      FieldValueBytes(v, f, fixed) == Some(EncodeBytes(FieldsBytes(f.nestedSchema.value, v.fields, 0, fixed).value))
  {
  }

  /** Every ARRAY field declares its element type, in the schema and in every nested
      one. */
  predicate ArraysTyped(s: Schema)
    decreases s
  {
    forall i :: 0 <= i < |s.fields| ==> FieldTyped(s.fields[i])
  }

  predicate FieldTyped(f: FieldDef)
    decreases f
  {
    (f.fieldType == Array ==> f.elementType.Some?) &&
    (f.nestedSchema.Some? ==> ArraysTyped(f.nestedSchema.value))
  }

  /** The body as written and the corrected body agree when every ARRAY is typed. */
  lemma {:induction false} FieldsAgree(s: Schema, d: map<string, Value>, i: nat)
    requires i <= |s.fields| && ArraysTyped(s)
    ensures FieldsBytes(s, d, i, false) == FieldsBytes(s, d, i, true)
    decreases s, |s.fields| - i
  {
    if i < |s.fields| {
      var f := s.fields[i];
      if f.name in d && !d[f.name].Null? {
        FieldValueAgree(d[f.name], f);
      }
      FieldsAgree(s, d, i + 1);
    }
  }

  lemma {:induction false} FieldValueAgree(v: Value, f: FieldDef)
    requires FieldTyped(f)
    ensures FieldValueBytes(v, f, false) == FieldValueBytes(v, f, true)
    decreases f
  {
    if f.fieldType == Nested && f.nestedSchema.Some? && v.RecordV? {
      FieldsAgree(f.nestedSchema.value, v.fields, 0);
    }
  }

  /** `Encoder.encode` as written and the corrected encoder agree on an ASCII name and a
      schema whose ARRAY fields are all typed. */
  lemma EncodeAgrees(s: Schema, d: map<string, Value>)
    requires forall i :: 0 <= i < |s.name| ==> (s.name[i] as int) < 0x80
    requires ArraysTyped(s)
    ensures EncodeRecord(s, d) == EncodeRecordFixed(s, d)
  {
    HeaderAgreesOnAscii(s);
    FieldsAgree(s, d, 0);
  }

  // ---- the loops of the encoder, as methods ----

  method EncodeItems(items: seq<Value>, t: FieldType) returns (r: Option<seq<byte>>)
    ensures r == ItemsBytes(items, t)
    decreases Rank(t), 2, 0
  {
    var result: seq<byte> := [];
    var i := 0;
    assert items[0..] == items;
    PrefixedEmpty(ItemsBytes(items, t));
    while i < |items|
      invariant 0 <= i <= |items|
      invariant ItemsBytes(items, t) == Prefixed(result, ItemsBytes(items[i..], t))
    {
      assert items[i..][1..] == items[i + 1..];
      var b := EncodeValue(items[i], t);
      if b.None? {
        return None;
      }
      PrefixedTwice(result, b.value, ItemsBytes(items[i + 1..], t));
      result := result + b.value;
      i := i + 1;
    }
    assert items[i..] == [] && result + [] == result;
    return Some(result);
  }

  method EncodeEntries(entries: seq<(Value, Value)>) returns (r: Option<seq<byte>>)
    ensures r == EntriesBytes(entries)
  {
    var result: seq<byte> := [];
    var i := 0;
    assert entries[0..] == entries;
    PrefixedEmpty(EntriesBytes(entries));
    while i < |entries|
      invariant 0 <= i <= |entries|
      invariant EntriesBytes(entries) == Prefixed(result, EntriesBytes(entries[i..]))
    {
      assert entries[i..][1..] == entries[i + 1..];
      var k := StrOf(entries[i].0);
      var v := StrOf(entries[i].1);
      if k.None? || v.None? {
        return None;
      }
      var pair := EncodeString(k.value) + EncodeString(v.value);
      PrefixedTwice(result, pair, EntriesBytes(entries[i + 1..]));
      result := result + pair;
      i := i + 1;
    }
    assert entries[i..] == [] && result + [] == result;
    return Some(result);
  }

  method EncodeValue(v: Value, t: FieldType) returns (r: Option<seq<byte>>)
    ensures r == ValueBytes(v, t)
    decreases Rank(t), 1, 0
  {
    match t
    case Array =>
      if !v.ListV? {
        return None;
      }
      var items := EncodeItems(v.items, String);
      r := Prefixed(Varint(|v.items|), items);
    case Map =>
      if !v.DictV? {
        return None;
      }
      var entries := EncodeEntries(v.entries);
      r := Prefixed(Varint(|v.entries|), entries);
    case _ =>
      r := ValueBytes(v, t);
  }

  method EncodeFieldValue(v: Value, f: FieldDef) returns (r: Option<seq<byte>>)
    ensures r == FieldValueBytes(v, f, false)
    decreases f, 0
  {
    match f.fieldType
    case Array =>
      if !v.ListV? {
        return None;
      }
      if f.elementType.None? {
        // each item is encoded with type None, which raises
        if |v.items| > 0 {
          return None;
        }
        return Some(Varint(0));
      }
      var items := EncodeItems(v.items, f.elementType.value);
      r := Prefixed(Varint(|v.items|), items);
    case Nested =>
      if f.nestedSchema.None? {
        return Some(EncodeBytes([]));
      }
      if !v.RecordV? {
        return None;
      }
      var body := EncodeFields(f.nestedSchema.value, v.fields);
      if body.None? {
        return None;
      }
      r := Some(EncodeBytes(body.value));
    case _ =>
      r := EncodeValue(v, f.fieldType);
  }

  method EncodeFields(s: Schema, d: map<string, Value>) returns (r: Option<seq<byte>>)
    ensures r == FieldsBytes(s, d, 0, false)
    decreases s, 0
  {
    var result: seq<byte> := [];
    var i := 0;
    PrefixedEmpty(FieldsBytes(s, d, 0, false));
    while i < |s.fields|
      invariant 0 <= i <= |s.fields|
      invariant FieldsBytes(s, d, 0, false) == Prefixed(result, FieldsBytes(s, d, i, false))
    {
      var f := s.fields[i];
      if f.name !in d {
        if f.required {
          return None;
        }
      } else if !d[f.name].Null? {
        var tag := EncodeVarint(f.tag);
        if tag.None? {
          return None;
        }
        var value := EncodeFieldValue(d[f.name], f);
        if value.None? {
          return None;
        }
        PrefixedTwice(tag.value, value.value, FieldsBytes(s, d, i + 1, false));
        PrefixedTwice(result, tag.value + value.value, FieldsBytes(s, d, i + 1, false));
        result := result + (tag.value + value.value);
      }
      i := i + 1;
    }
    result := result + Varint(0);
    return Some(result);
  }

  method Encode(s: Schema, d: map<string, Value>) returns (r: Option<seq<byte>>)
    ensures r == EncodeRecord(s, d)
  {
    var header := Header(s);
    if header.None? {
      return None;
    }
    var body := EncodeFields(s, d);
    r := Prefixed(header.value, body);
  }
}
