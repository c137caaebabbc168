/** What the encoder writes for one value, the decoder reads back: varints, strings,
    bytes, fixed-width values, arrays and maps, each in the canonical form reading
    produces. */
module RoundTrip {
  import opened Common
  import BigEndian
  import Utf8
  import opened Schemas
  import opened Encoder
  import opened Decoder

  // ---- varints, strings, bytes ----

  /** A varint reads back as the value it encodes, ending right after its bytes. */
  lemma {:induction false} VarintRoundTrip(n: nat, data: seq<byte>, off: nat)
    requires At(data, off, Varint(n))
    ensures ReadVarint(data, off) == Some((n, off + |Varint(n)|))
    decreases n
  {
    if n > 0x7f {
      var low: byte := n % 128 + 128;
      assert Varint(n) == [low] + Varint(n / 128);
      AtSplit(data, off, [low], Varint(n / 128));
      assert data[off] == low;
      VarintRoundTrip(n / 128, data, off + 1);
    } else {
      assert data[off] == Varint(n)[0];
    }
  }

  /** The decoder takes the bytes it reads as the sum of their seven-bit groups. */
  lemma {:induction false} VarintReadsDigits(data: seq<byte>, off: nat)
    requires ReadVarint(data, off).Some?
    ensures var (v, o) := ReadVarint(data, off).value; v == VarintValue(data[off..o])
    decreases |data| - off
  {
    var (v, o) := ReadVarint(data, off).value;
    assert data[off..o][1..] == data[off + 1..o];
    if data[off] >= 0x80 {
      VarintReadsDigits(data, off + 1);
    }
  }

  /** Reading a varint fails exactly when every byte left has the continuation bit. */
  lemma {:induction false} VarintTruncated(data: seq<byte>, off: nat)
    ensures ReadVarint(data, off).None? <==> forall k :: off <= k < |data| ==> data[k] >= 0x80
    decreases |data| - off
  {
    if off < |data| && data[off] >= 0x80 {
      VarintTruncated(data, off + 1);
    }
  }

  lemma StringRoundTrip(s: string, data: seq<byte>, off: nat, e: nat)
    requires At(data, off, EncodeString(s)) && e == off + |EncodeString(s)|
    ensures ReadString(data, off) == Some((s, e))
  {
    var b := Utf8.Encode(s);
    var o := LengthPrefixed(data, off, b);
    Utf8.RoundTrip(s);
    StringReadOf(data, off, s, b, o, e);
  }

  lemma StringReadOf(data: seq<byte>, off: nat, s: string, b: seq<byte>, o: nat, e: nat)
    requires ReadVarint(data, off) == Some((|b|, o)) && PySlice(data, o, o + |b|) == b
    requires Utf8.Decode(b) == Some(s) && e == o + |b|
    ensures ReadString(data, off) == Some((s, e))
  {
  }

  lemma BytesRoundTrip(b: seq<byte>, data: seq<byte>, off: nat, e: nat)
    requires At(data, off, EncodeBytes(b)) && e == off + |EncodeBytes(b)|
    ensures ReadBytes(data, off) == Some((b, e))
  {
    assert EncodeBytes(b) == Varint(|b|) + b;
    var o := LengthPrefixed(data, off, b);
  }

  /** A varint length followed by that many bytes: the length reads back, and the
      slice after it is the bytes. */
  lemma LengthPrefixed(data: seq<byte>, off: nat, b: seq<byte>) returns (o: nat)
    requires At(data, off, Varint(|b|) + b)
    ensures o == off + |Varint(|b|)|
    ensures ReadVarint(data, off) == Some((|b|, o)) && PySlice(data, o, o + |b|) == b
  {
    AtSplit(data, off, Varint(|b|), b);
    VarintRoundTrip(|b|, data, off);
    o := off + |Varint(|b|)|;
  }

  // ---- the values the decoder gives back unchanged ----

  predicate DistinctKeys(es: seq<(Value, Value)>)
  {
    forall i, j :: 0 <= i < j < |es| ==> es[i].0 != es[j].0
  }

  /** A value in the form reading type `t` produces: an int in the width's range, a
      float of the width's bits, a bool, a string; an ARRAY item's items as strings; a
      MAP of string keys (each once) to strings; an empty record for NESTED. */
  predicate CanonicalValue(v: Value, t: FieldType)
    decreases Rank(t), 1
  {
    match t
    case Int32 => v.IntV? && BigEndian.FitsSigned(v.i, 4)
    case Int64 => v.IntV? && BigEndian.FitsSigned(v.i, 8)
    case Float32 => v.FloatV? && |v.bits| == 4
    case Float64 => v.FloatV? && |v.bits| == 8
    case String => v.StrV?
    case Bytes => v.BytesV?
    case Bool => v.BoolV?
    case Array => v.ListV? && CanonicalItems(v.items, String)
    case Map => v.DictV? && DistinctKeys(v.entries) && StringEntries(v.entries)
    case Nested => v == RecordV(map[])
  }

  predicate CanonicalItems(items: seq<Value>, t: FieldType)
    decreases Rank(t), 2, |items|
  {
    |items| == 0 || (CanonicalValue(items[0], t) && CanonicalItems(items[1..], t))
  }

  /** Keys and values are all strings. */
  predicate StringEntries(es: seq<(Value, Value)>)
  {
    |es| == 0 || (es[0].0.StrV? && es[0].1.StrV? && StringEntries(es[1..]))
  }

  // ---- one value ----

  /** A value in its canonical form reads back as itself, ending right after its
      bytes. (The end offset `e` is a parameter: stated as a sum, it makes the
      solver's work on the callers blow up.) */
  lemma {:induction false} ValueRoundTrip(v: Value, t: FieldType, data: seq<byte>, off: nat, b: seq<byte>, e: nat)
    requires CanonicalValue(v, t)
    requires ValueBytes(v, t) == Some(b) && At(data, off, b) && e == off + |b|
    ensures ReadValue(data, off, t) == Some((v, e))
    decreases Rank(t), 1, 0
  {
    match t
    case Int32 => FixedRoundTrip(v, t, data, off, b, e);
    case Int64 => FixedRoundTrip(v, t, data, off, b, e);
    case Float32 => FixedRoundTrip(v, t, data, off, b, e);
    case Float64 => FixedRoundTrip(v, t, data, off, b, e);
    case Bool => FixedRoundTrip(v, t, data, off, b, e);
    case String => StringRoundTrip(v.s, data, off, e);
    case Bytes => BytesRoundTrip(v.bytes, data, off, e);
    case Array => ArrayRoundTrip(v.items, String, data, off, b, e);
    case Map => MapRoundTrip(v.entries, data, off, b, e);
    case Nested => VarintRoundTrip(0, data, off);
  }

  /** An ARRAY value: its count, then its items. */
  lemma {:induction false} ArrayRoundTrip(items: seq<Value>, elem: FieldType, data: seq<byte>, off: nat, b: seq<byte>, e: nat)
    requires CanonicalItems(items, elem)
    requires Prefixed(Varint(|items|), ItemsBytes(items, elem)) == Some(b) && At(data, off, b) && e == off + |b|
    ensures ReadArray(data, off, elem) == Some((ListV(items), e))
    decreases Rank(elem), 3, 0
  {
    var o := CountPrefix(|items|, ItemsBytes(items, elem), data, off, b, e);
    ItemsRoundTrip(items, elem, data, o, [], ItemsBytes(items, elem).value, e);
    ArrayStep(data, off, elem, items, o, e);
  }

  lemma ArrayStep(data: seq<byte>, off: nat, elem: FieldType, items: seq<Value>, o: nat, e: nat)
    requires ReadVarint(data, off) == Some((|items|, o))
    requires ReadItems(data, o, elem, |items|, []) == Some(([] + items, e))
    ensures ReadArray(data, off, elem) == Some((ListV(items), e))
  {
    EmptyAppend(items);
  }

  /** A MAP value: its count, then its entries. */
  lemma MapRoundTrip(es: seq<(Value, Value)>, data: seq<byte>, off: nat, b: seq<byte>, e: nat)
    requires StringEntries(es) && DistinctKeys(es)
    requires Prefixed(Varint(|es|), EntriesBytes(es)) == Some(b) && At(data, off, b) && e == off + |b|
    ensures ReadMap(data, off) == Some((DictV(es), e))
  {
    var o := MapLayout(es, data, off, b, e);
    MapStep(data, off, es, o, e);
  }

  /** A written MAP is its entry count as a varint, then its entries laid out. */
  lemma MapLayout(es: seq<(Value, Value)>, data: seq<byte>, off: nat, b: seq<byte>, e: nat) returns (o: nat)
    requires StringEntries(es)
    requires Prefixed(Varint(|es|), EntriesBytes(es)) == Some(b) && At(data, off, b) && e == off + |b|
    ensures ReadVarint(data, off) == Some((|es|, o)) && EntriesReadAt(data, o, es, e)
  {
    o := CountPrefix(|es|, EntriesBytes(es), data, off, b, e);
    EntriesLayout(es, data, o, EntriesBytes(es).value, e);
  }

  /** A count written as a varint in front of other bytes reads back, leaving the reader
      at those bytes. */
  lemma CountPrefix(count: nat, rest: Option<seq<byte>>, data: seq<byte>, off: nat, b: seq<byte>, e: nat) returns (o: nat)
    requires Prefixed(Varint(count), rest) == Some(b) && At(data, off, b) && e == off + |b|
    ensures rest.Some? && ReadVarint(data, off) == Some((count, o))
    ensures At(data, o, rest.value) && e == o + |rest.value|
  {
    var n := Varint(count);
    assert b == n + rest.value;
    AtSplit(data, off, n, rest.value);
    VarintRoundTrip(count, data, off);
    o := off + |n|;
  }

  lemma MapStep(data: seq<byte>, off: nat, es: seq<(Value, Value)>, o: nat, e: nat)
    requires ReadVarint(data, off) == Some((|es|, o))
    requires EntriesReadAt(data, o, es, e) && DistinctKeys(es)
    ensures ReadMap(data, off) == Some((DictV(es), e))
  {
    EmptyAppend(es);
    EntriesRoundTrip(es, data, o, [], e);
    MapRead(data, off, es, o, e);
  }

  lemma MapRead(data: seq<byte>, off: nat, es: seq<(Value, Value)>, o: nat, e: nat)
    requires ReadVarint(data, off) == Some((|es|, o))
    requires ReadEntries(data, o, |es|, []) == Some(([] + es, e))
    ensures ReadMap(data, off) == Some((DictV(es), e))
  {
    EmptyAppend(es);
  }

  /** The fixed-width types: ints, floats, bools. */
  lemma FixedRoundTrip(v: Value, t: FieldType, data: seq<byte>, off: nat, b: seq<byte>, e: nat)
    requires t in {Int32, Int64, Float32, Float64, Bool}
    requires CanonicalValue(v, t)
    requires ValueBytes(v, t) == Some(b) && At(data, off, b) && e == off + |b|
    ensures ReadValue(data, off, t) == Some((v, e))
  {
    assert data[off..off + |b|] == b;
    if t == Int32 {
      BigEndian.DecodeEncodeSigned(v.i, 4);
    } else if t == Int64 {
      BigEndian.DecodeEncodeSigned(v.i, 8);
    } else if t == Bool {
      assert data[off] == b[0];
    }
  }

  /** The items of an array, each read as `t` and appended to `acc`. */
  lemma {:induction false} ItemsRoundTrip(items: seq<Value>, t: FieldType, data: seq<byte>, off: nat, acc: seq<Value>, b: seq<byte>, e: nat)
    requires CanonicalItems(items, t)
    requires ItemsBytes(items, t) == Some(b) && At(data, off, b) && e == off + |b|
    ensures ReadItems(data, off, t, |items|, acc) == Some((acc + items, e))
    decreases Rank(t), 2, |items|
  {
    if |items| == 0 {
      assert acc + items == acc;
      assert b == [];
    } else {
      var vb, rest, o := ItemsSplit(items, t, data, off, b, e);
      ValueRoundTrip(items[0], t, data, off, vb, o);
      ItemsRoundTrip(items[1..], t, data, o, acc + [items[0]], rest, e);
      ItemsCons(data, off, t, items, acc, o, e);
    }
  }

  /** The first item's bytes, then the other items' bytes. */
  lemma ItemsSplit(items: seq<Value>, t: FieldType, data: seq<byte>, off: nat, b: seq<byte>, e: nat)
      returns (vb: seq<byte>, rest: seq<byte>, o: nat)
    requires |items| > 0 && CanonicalItems(items, t)
    requires ItemsBytes(items, t) == Some(b) && At(data, off, b) && e == off + |b|
    ensures CanonicalValue(items[0], t) && CanonicalItems(items[1..], t)
    ensures ValueBytes(items[0], t) == Some(vb) && ItemsBytes(items[1..], t) == Some(rest)
    ensures At(data, off, vb) && At(data, o, rest) && o == off + |vb| && e == o + |rest|
  {
    vb := ValueBytes(items[0], t).value;
    rest := ItemsBytes(items[1..], t).value;
    assert b == vb + rest;
    AtSplit(data, off, vb, rest);
    o := off + |vb|;
  }

  /** One step of reading an array's items. */
  lemma ItemsCons(data: seq<byte>, off: nat, t: FieldType, items: seq<Value>, acc: seq<Value>, o: nat, e: nat)
    requires |items| > 0
    requires ReadValue(data, off, t) == Some((items[0], o))
    requires ReadItems(data, o, t, |items[1..]|, acc + [items[0]]) == Some((acc + [items[0]] + items[1..], e))
    ensures ReadItems(data, off, t, |items|, acc) == Some((acc + items, e))
  {
    assert acc + [items[0]] + items[1..] == acc + items;
  }

  lemma ConsAppend<T>(acc: seq<T>, items: seq<T>)
    requires |items| > 0
    ensures acc + [items[0]] + items[1..] == acc + items
  {
  }

  /** The entries' keys and values read back, one string after the other, from
      `off` to `e`. */
  predicate EntriesReadAt(data: seq<byte>, off: nat, es: seq<(Value, Value)>, e: nat)
    decreases |es|
  {
    if |es| == 0 then off == e
    else
      var k := ReadString(data, off);
      k.Some? && es[0].0 == StrV(k.value.0) &&
      var v := ReadString(data, k.value.1);
      v.Some? && es[0].1 == StrV(v.value.0) && EntriesReadAt(data, v.value.1, es[1..], e)
  }

  lemma EntriesReadCons(data: seq<byte>, off: nat, es: seq<(Value, Value)>, e: nat)
      returns (k: string, v: string, o1: nat, o2: nat)
    requires |es| > 0 && EntriesReadAt(data, off, es, e)
    ensures ReadString(data, off) == Some((k, o1)) && ReadString(data, o1) == Some((v, o2))
    ensures es[0] == (StrV(k), StrV(v)) && EntriesReadAt(data, o2, es[1..], e)
  {
    k, o1 := ReadString(data, off).value.0, ReadString(data, off).value.1;
    v, o2 := ReadString(data, o1).value.0, ReadString(data, o1).value.1;
  }

  /** The bytes of string entries read back as those entries. */
  lemma {:induction false} EntriesLayout(es: seq<(Value, Value)>, data: seq<byte>, off: nat, b: seq<byte>, e: nat)
    requires StringEntries(es)
    requires EntriesBytes(es) == Some(b) && At(data, off, b) && e == off + |b|
    ensures EntriesReadAt(data, off, es, e)
    decreases |es|
  {
    if |es| == 0 {
      assert b == [];
    } else {
      var k, v, o1, o2, rest := EntryAt(es, data, off, b, e);
      EntriesLayout(es[1..], data, o2, rest, e);
    }
  }

  /** Reading entries whose keys are all new stores each in order. */
  lemma {:induction false} EntriesRoundTrip(es: seq<(Value, Value)>, data: seq<byte>, off: nat, acc: seq<(Value, Value)>, e: nat)
    requires EntriesReadAt(data, off, es, e)
    requires DistinctKeys(acc + es)
    ensures ReadEntries(data, off, |es|, acc) == Some((acc + es, e))
    decreases |es|
  {
    if |es| == 0 {
      assert acc + es == acc;
    } else {
      var k, v, o1, o2 := EntriesReadCons(data, off, es, e);
      NewKey(acc, es);
      DistinctKeysTail(acc, es);
      EntriesRoundTrip(es[1..], data, o2, acc + [es[0]], e);
      ConsAppend(acc, es);
      EntriesCons(data, off, |es[1..]|, acc, k, v, o1, o2, acc + es, e);
    }
  }

  /** The first entry's key and value read back as strings, and the later entries'
      bytes follow them. */
  lemma EntryAt(es: seq<(Value, Value)>, data: seq<byte>, off: nat, b: seq<byte>, e: nat)
      returns (k: string, v: string, o1: nat, o2: nat, rest: seq<byte>)
    requires |es| > 0 && StringEntries(es)
    requires EntriesBytes(es) == Some(b) && At(data, off, b) && e == off + |b|
    ensures es[0] == (StrV(k), StrV(v)) && StringEntries(es[1..])
    ensures ReadString(data, off) == Some((k, o1)) && ReadString(data, o1) == Some((v, o2))
    ensures EntriesBytes(es[1..]) == Some(rest) && At(data, o2, rest) && e == o2 + |rest|
  {
    k, v, o1, o2, rest := EntrySplit(es, data, off, b, e);
    StringRoundTrip(k, data, off, o1);
    StringRoundTrip(v, data, o1, o2);
  }

  lemma EntrySplit(es: seq<(Value, Value)>, data: seq<byte>, off: nat, b: seq<byte>, e: nat)
      returns (k: string, v: string, o1: nat, o2: nat, rest: seq<byte>)
    requires |es| > 0 && StringEntries(es)
    requires EntriesBytes(es) == Some(b) && At(data, off, b) && e == off + |b|
    ensures es[0] == (StrV(k), StrV(v)) && StringEntries(es[1..])
    ensures At(data, off, EncodeString(k)) && o1 == off + |EncodeString(k)|
    ensures At(data, o1, EncodeString(v)) && o2 == o1 + |EncodeString(v)|
    ensures EntriesBytes(es[1..]) == Some(rest) && At(data, o2, rest) && e == o2 + |rest|
  {
    k := es[0].0.s;
    v := es[0].1.s;
    var kb := EncodeString(k);
    var vb := EncodeString(v);
    rest := EntriesBytes(es[1..]).value;
    assert b == kb + vb + rest;
    AtSplit(data, off, kb + vb, rest);
    AtSplit(data, off, kb, vb);
    o1 := off + |kb|;
    o2 := o1 + |vb|;
  }

  /** The first of the remaining entries has a key none of the entries read so far has. */
  lemma NewKey(acc: seq<(Value, Value)>, es: seq<(Value, Value)>)
    requires |es| > 0 && DistinctKeys(acc + es)
    ensures forall i :: 0 <= i < |acc| ==> acc[i].0 != es[0].0
  {
    forall i | 0 <= i < |acc|
      ensures acc[i].0 != es[0].0
    {
      assert (acc + es)[i] == acc[i] && (acc + es)[|acc|] == es[0];
    }
  }

  lemma DistinctKeysTail(acc: seq<(Value, Value)>, es: seq<(Value, Value)>)
    requires |es| > 0 && DistinctKeys(acc + es)
    ensures DistinctKeys(acc + [es[0]] + es[1..])
  {
    assert acc + [es[0]] + es[1..] == acc + es;
  }

  /** One step of reading a map's entries when the key is new. */
  lemma EntriesCons(data: seq<byte>, off: nat, n: nat, acc: seq<(Value, Value)>, k: string, v: string, o1: nat, o2: nat, r: seq<(Value, Value)>, e: nat)
    requires forall i :: 0 <= i < |acc| ==> acc[i].0 != StrV(k)
    requires ReadString(data, off) == Some((k, o1))
    requires ReadString(data, o1) == Some((v, o2))
    requires ReadEntries(data, o2, n, acc + [(StrV(k), StrV(v))]) == Some((r, e))
    ensures ReadEntries(data, off, n + 1, acc) == Some((r, e))
  {
    DictPutRule(acc, StrV(k), StrV(v));
  }
}
