/** What the format promises for whole records: a reader using the writer's schema
    gets the record back, and a reader using another version of the schema gets the
    writer's values for the tags both versions share, its own defaults for the rest,
    and steps over what it does not know. */
module Evolution {
  import opened Common
  import BigEndian
  import Utf8
  import opened Schemas
  import opened Encoder
  import opened Decoder
  import opened RoundTrip

  /** A field holds a value. */
  predicate Present(d: map<string, Value>, f: FieldDef)
  {
    f.name in d && !d[f.name].Null?
  }

  /** A value in the form reading field `f` produces. */
  predicate CanonicalField(v: Value, f: FieldDef)
    decreases f
  {
    match f.fieldType
    case Array => v.ListV? && CanonicalItems(v.items, ElementTypeOf(f))
    case Nested =>
      v.RecordV? && if f.nestedSchema.Some? then CanonicalRecord(f.nestedSchema.value, v.fields) else v.fields == map[]
    case _ => CanonicalValue(v, f.fieldType)
  }

  /** A record exactly as decoding it with `s` produces it: only fields of `s`, each
      with a canonical value, and every field it lacks neither required nor with a
      default. */
  predicate CanonicalRecord(s: Schema, m: map<string, Value>)
    decreases s
  {
    (forall k :: k in m ==> !m[k].Null? && NameIndex(s.fields, k).Some?) &&
    forall i :: 0 <= i < |s.fields| ==>
      (Present(m, s.fields[i]) ==> CanonicalField(m[s.fields[i].name], s.fields[i])) &&
      (!Present(m, s.fields[i]) ==> !s.fields[i].required && s.fields[i].defaultValue.Null?)
  }

  predicate DistinctTags(fs: seq<FieldDef>)
  {
    forall i, j :: 0 <= i < j < |fs| ==> fs[i].tag != fs[j].tag
  }

  predicate DistinctNames(fs: seq<FieldDef>)
  {
    forall i, j :: 0 <= i < j < |fs| ==> fs[i].name != fs[j].name
  }

  /** Tags are positive (zero ends a body) and unique, names are unique, and so are
      those of every nested schema. */
  predicate WellFormed(s: Schema)
    decreases s
  {
    DistinctTags(s.fields) && DistinctNames(s.fields) &&
    forall i :: 0 <= i < |s.fields| ==>
      s.fields[i].tag >= 1 &&
      (s.fields[i].nestedSchema.Some? ==> WellFormed(s.fields[i].nestedSchema.value))
  }

  /** The reader's definition `g` reads what the writer's `f` writes. */
  predicate SameWire(g: FieldDef, f: FieldDef)
  {
    g.fieldType == f.fieldType &&
    (g.fieldType == Array ==> ElementTypeOf(g) == ElementTypeOf(f)) &&
    (g.fieldType == Nested ==> g.nestedSchema == f.nestedSchema)
  }

  /** Fields of the reader's and the writer's schema that share a tag share a wire form. */
  predicate Agree(t: Schema, src: Schema)
  {
    forall i, j :: 0 <= i < |t.fields| && 0 <= j < |src.fields| && t.fields[i].tag == src.fields[j].tag ==>
      SameWire(t.fields[i], src.fields[j])
  }

  lemma TagIndexOfDistinct(fs: seq<FieldDef>, i: nat)
    requires DistinctTags(fs) && i < |fs|
    ensures TagIndex(fs, fs[i].tag) == Some(i)
  {
  }

  lemma AgreeSelf(s: Schema)
    requires DistinctTags(s.fields)
    ensures Agree(s, s)
  {
  }


  // ---- the decoder on its own ----

  /** Reading a field needs only its wire form. */
  lemma SameWireReads(data: seq<byte>, off: nat, g: FieldDef, f: FieldDef)
    requires SameWire(g, f)
    ensures ReadFieldValue(data, off, g) == ReadFieldValue(data, off, f)
  {
  }

  /** `_skip_field` with the writer's definition ends where `_decode_value` with that
      definition ends, whenever the latter succeeds. */
  lemma SkipAgrees(data: seq<byte>, off: nat, f: FieldDef)
    requires ReadFieldValue(data, off, f).Some?
    ensures SkipTo(data, off, Some(f)) == Some(ReadFieldValue(data, off, f).value.1)
  {
  }

  /** The zero tag closes a body: defaults are applied there. */
  lemma ReadFieldsEnd(data: seq<byte>, off: nat, t: Schema, src: Option<Schema>, result: map<string, Value>, seen: set<int>, e: nat)
    requires ReadVarint(data, off) == Some((0, e))
    ensures ReadFields(data, off, t, src, result, seen) == Finish(t, seen, result, e)
  {
  }

  /** A tag the reader does not know is stepped over and remembered as seen. */
  lemma ReadFieldsSkip(data: seq<byte>, off: nat, t: Schema, src: Option<Schema>, result: map<string, Value>, seen: set<int>,
                       tag: nat, o: nat, o2: nat)
    requires ReadVarint(data, off) == Some((tag, o)) && tag != 0
    requires TagIndex(t.fields, tag).None?
    requires SkipTo(data, o, SourceField(src, tag)) == Some(o2)
    ensures ReadFields(data, off, t, src, result, seen) == ReadFields(data, o2, t, src, result, seen + {tag})
  {
  }

  /** A tag the reader knows is read with the reader's definition and stored under the
      reader's name for it. */
  lemma ReadFieldsKnown(data: seq<byte>, off: nat, t: Schema, src: Option<Schema>, result: map<string, Value>, seen: set<int>,
                        tag: nat, o: nat, k: nat, v: Value, o2: nat)
    requires ReadVarint(data, off) == Some((tag, o)) && tag != 0
    requires TagIndex(t.fields, tag) == Some(k)
    requires ReadFieldValue(data, o, t.fields[k]) == Some((v, o2))
    ensures ReadFields(data, off, t, src, result, seen) == ReadFields(data, o2, t, src, result[t.fields[k].name := v], seen + {tag})
  {
  }

  // ---- what a body carries ----

  /** The tags of the fields of `src` from `i` on that `d` holds a value for. */
  function SentTags(src: Schema, d: map<string, Value>, i: nat): set<int>
    requires i <= |src.fields|
    decreases |src.fields| - i
  {
    if i == |src.fields| then {}
    else (if Present(d, src.fields[i]) then {src.fields[i].tag} else {}) + SentTags(src, d, i + 1)
  }

  /** `result` after a reader with schema `t` has taken in the sent fields of `src` from
      `i` on: each one `t` knows by its tag, under `t`'s name for it. */
  function Receive(t: Schema, src: Schema, d: map<string, Value>, i: nat, result: map<string, Value>): map<string, Value>
    requires i <= |src.fields|
    decreases |src.fields| - i
  {
    if i == |src.fields| then result
    else
      var f := src.fields[i];
      var k := TagIndex(t.fields, f.tag);
      if Present(d, f) && k.Some? then Receive(t, src, d, i + 1, result[t.fields[k.value].name := d[f.name]])
      else Receive(t, src, d, i + 1, result)
  }

  /** The bytes at `off` hold the sent fields of `src` from `i` on, each a tag and a
      value reading back as `d`'s, and then the zero tag, ending at `e`. */
  predicate BodyAt(data: seq<byte>, off: nat, src: Schema, d: map<string, Value>, i: nat, e: nat)
    requires i <= |src.fields|
    decreases |src.fields| - i
  {
    if i == |src.fields| then ReadVarint(data, off) == Some((0, e))
    else
      var f := src.fields[i];
      if !Present(d, f) then BodyAt(data, off, src, d, i + 1, e)
      else
        var tg := ReadVarint(data, off);
        tg.Some? && tg.value.0 == f.tag &&
        var fv := ReadFieldValue(data, tg.value.1, f);
        fv.Some? && fv.value.0 == d[f.name] && BodyAt(data, fv.value.1, src, d, i + 1, e)
  }

  /** Every sent field from `i` on has a tag the reader knows. */
  predicate AllKnown(t: Schema, src: Schema, d: map<string, Value>, i: nat)
    requires i <= |src.fields|
  {
    forall j :: i <= j < |src.fields| && Present(d, src.fields[j]) ==> TagIndex(t.fields, src.fields[j].tag).Some?
  }

  /** The fields of `d` that `src` sends have values in canonical form. */
  predicate CanonicalSent(src: Schema, d: map<string, Value>)
  {
    forall j :: 0 <= j < |src.fields| && Present(d, src.fields[j]) ==> CanonicalField(d[src.fields[j].name], src.fields[j])
  }

  // ---- writing a body lays it out ----

  /** A field's value reads back, with any definition of the same wire form. */
  lemma {:induction false} FieldValueRoundTrip(v: Value, f: FieldDef, g: FieldDef, data: seq<byte>, off: nat, b: seq<byte>, e: nat)
    requires SameWire(g, f) && CanonicalField(v, f)
    requires f.nestedSchema.Some? ==> WellFormed(f.nestedSchema.value)
    requires FieldValueBytes(v, f, true) == Some(b) && At(data, off, b) && e == off + |b|
    ensures ReadFieldValue(data, off, g) == Some((v, e))
    decreases f, 1
  {
    SameWireReads(data, off, g, f);
    match f.fieldType
    case Array => ArrayRoundTrip(v.items, ElementTypeOf(f), data, off, b, e);
    case Nested =>
      if f.nestedSchema.Some? {
        var body := NestedBytes(v.fields, f, b);
        NestedRoundTrip(f.nestedSchema.value, v.fields, data, off, body, e);
      } else {
        VarintRoundTrip(0, data, off);
      }
    case _ => ValueRoundTrip(v, f.fieldType, data, off, b, e);
  }

  /** A NESTED value with a schema: its body, cut out of the data, reads back as the
      record with that schema alone. */
  lemma {:induction false} NestedRoundTrip(s: Schema, m: map<string, Value>, data: seq<byte>, off: nat, body: seq<byte>, e: nat)
    requires WellFormed(s) && CanonicalRecord(s, m) && FieldsBytes(s, m, 0, true) == Some(body)
    requires At(data, off, Varint(|body|) + body) && e == off + |Varint(|body|)| + |body|
    ensures ReadNested(data, off, s) == Some((RecordV(m), e))
    decreases s, |s.fields| + 2
  {
    SelfBody(s, m, body);
    NestedRead(data, off, s, m, body, e);
  }

  /** A length-prefixed body that reads back as `m` is read as the nested record `m`. */
  lemma NestedRead(data: seq<byte>, off: nat, s: Schema, m: map<string, Value>, body: seq<byte>, e: nat)
    requires At(data, off, Varint(|body|) + body) && e == off + |Varint(|body|)| + |body|
    requires ReadFields(body, 0, s, None, map[], {}) == Some((m, |body|))
    ensures ReadNested(data, off, s) == Some((RecordV(m), e))
  {
    var o := RoundTrip.LengthPrefixed(data, off, body);
    BodyReadsAs(body, s, m, e);
    NestedReadAt(data, off, s, body, o, e);
  }

  lemma BodyReadsAs(body: seq<byte>, s: Schema, m: map<string, Value>, e: nat)
    requires ReadFields(body, 0, s, None, map[], {}) == Some((m, |body|))
    ensures ReadRecordBody(body, s, e) == Some((RecordV(m), e))
  {
  }

  lemma NestedReadAt(data: seq<byte>, off: nat, s: Schema, body: seq<byte>, o: nat, e: nat)
    requires ReadVarint(data, off) == Some((|body|, o)) && PySlice(data, o, o + |body|) == body
    requires e == o + |body|
    ensures ReadNested(data, off, s) == ReadRecordBody(body, s, e)
  {
  }

  /** A nested record is written as its body's length, then its body. */
  lemma NestedBytes(m: map<string, Value>, f: FieldDef, b: seq<byte>) returns (body: seq<byte>)
    requires f.fieldType == Nested && f.nestedSchema.Some?
    requires FieldValueBytes(RecordV(m), f, true) == Some(b)
    ensures FieldsBytes(f.nestedSchema.value, m, 0, true) == Some(body) && b == Varint(|body|) + body
  {
    body := FieldsBytes(f.nestedSchema.value, m, 0, true).value;
  }

  /** A record body, with the writer's schema as the reader's and no other, reads back
      as the record. */
  lemma SelfBody(s: Schema, m: map<string, Value>, body: seq<byte>)
    requires WellFormed(s) && CanonicalRecord(s, m)
    requires FieldsBytes(s, m, 0, true) == Some(body)
    ensures ReadFields(body, 0, s, None, map[], {}) == Some((m, |body|))
    decreases s, |s.fields| + 1, 1
  {
    SelfLayout(s, m, body);
    SelfBodyRead(s, m, body);
  }

  lemma SelfLayout(s: Schema, m: map<string, Value>, body: seq<byte>)
    requires WellFormed(s) && CanonicalRecord(s, m)
    requires FieldsBytes(s, m, 0, true) == Some(body)
    ensures CanonicalSent(s, m) && BodyAt(body, 0, s, m, 0, |body|)
    decreases s, |s.fields| + 1, 0
  {
    assert body[0..|body|] == body;
    CanonicalRecordSent(s, m);
    BodyLayout(s, m, 0, body, 0, body, |body|);
  }

  lemma SelfBodyRead(s: Schema, m: map<string, Value>, body: seq<byte>)
    requires WellFormed(s) && CanonicalRecord(s, m) && CanonicalSent(s, m)
    requires BodyAt(body, 0, s, m, 0, |body|)
    ensures ReadFields(body, 0, s, None, map[], {}) == Some((m, |body|))
  {
    SelfKnown(s, m);
    BodyRead(body, 0, s, m, 0, s, None, map[], {}, |body|);
    assert {} + SentTags(s, m, 0) == SentTags(s, m, 0);
    SelfFinish(s, m, |body|);
  }

  lemma CanonicalRecordSent(s: Schema, m: map<string, Value>)
    requires CanonicalRecord(s, m)
    ensures CanonicalSent(s, m)
  {
  }

  /** A reader with the writer's schema knows every tag. */
  lemma SelfKnown(s: Schema, d: map<string, Value>)
    ensures AllKnown(s, s, d, 0)
  {
    forall j | 0 <= j < |s.fields| && Present(d, s.fields[j])
      ensures TagIndex(s.fields, s.fields[j].tag).Some?
    {
    }
  }

  /** The fields of `src` from `i` on, as written, lie in the data as `BodyAt` says. */
  lemma {:induction false} BodyLayout(src: Schema, d: map<string, Value>, i: nat, data: seq<byte>, off: nat, b: seq<byte>, e: nat)
    requires i <= |src.fields|
    requires WellFormed(src) && CanonicalSent(src, d)
    requires FieldsBytes(src, d, i, true) == Some(b) && At(data, off, b) && e == off + |b|
    ensures BodyAt(data, off, src, d, i, e)
    decreases src, |src.fields| - i, 1
  {
    if i == |src.fields| {
      assert b == [0];
      VarintRoundTrip(0, data, off);
    } else if !Present(d, src.fields[i]) {
      BodyLayout(src, d, i + 1, data, off, b, e);
    } else {
      var f := src.fields[i];
      var o, o2, vb, rest := FieldSplit(src, d, i, data, off, b, e);
      FieldValueRoundTrip(d[f.name], f, f, data, o, vb, o2);
      BodyLayout(src, d, i + 1, data, o2, rest, e);
    }
  }

  /** A sent field's bytes: its tag, its value, then the later fields. */
  lemma FieldSplit(src: Schema, d: map<string, Value>, i: nat, data: seq<byte>, off: nat, b: seq<byte>, e: nat)
      returns (o: nat, o2: nat, vb: seq<byte>, rest: seq<byte>)
    requires i < |src.fields| && Present(d, src.fields[i]) && WellFormed(src) && CanonicalSent(src, d)
    requires FieldsBytes(src, d, i, true) == Some(b) && At(data, off, b) && e == off + |b|
    ensures ReadVarint(data, off) == Some((src.fields[i].tag, o))
    ensures CanonicalField(d[src.fields[i].name], src.fields[i])
    ensures src.fields[i].nestedSchema.Some? ==> WellFormed(src.fields[i].nestedSchema.value)
    ensures FieldValueBytes(d[src.fields[i].name], src.fields[i], true) == Some(vb) && At(data, o, vb) && o2 == o + |vb|
    ensures FieldsBytes(src, d, i + 1, true) == Some(rest) && At(data, o2, rest) && e == o2 + |rest|
  {
    var f := src.fields[i];
    vb, rest := FieldParts(src, d, i, b);
    AppendAssoc(Varint(f.tag), vb, rest);
    o, o2 := AtSplit3(data, off, Varint(f.tag), vb, rest);
    VarintRoundTrip(f.tag, data, off);
  }

  lemma FieldParts(src: Schema, d: map<string, Value>, i: nat, b: seq<byte>) returns (vb: seq<byte>, rest: seq<byte>)
    requires i < |src.fields| && Present(d, src.fields[i]) && WellFormed(src)
    requires FieldsBytes(src, d, i, true) == Some(b)
    ensures FieldValueBytes(d[src.fields[i].name], src.fields[i], true) == Some(vb)
    ensures FieldsBytes(src, d, i + 1, true) == Some(rest) && b == Varint(src.fields[i].tag) + vb + rest
  {
    var f := src.fields[i];
    vb := FieldValueBytes(d[f.name], f, true).value;
    rest := FieldsBytes(src, d, i + 1, true).value;
  }

  // ---- reading a body ----

  /** Reading a laid-out body: the reader ends with the sent tags seen and the sent
      fields it knows taken in, and then applies its defaults. Tags it does not know
      are stepped over by the writer's definitions when it has the writer's schema. */
  lemma {:induction false} BodyRead(data: seq<byte>, off: nat, src: Schema, d: map<string, Value>, i: nat,
                                    t: Schema, srcOpt: Option<Schema>, result: map<string, Value>, seen: set<int>, e: nat)
    requires i <= |src.fields| && BodyAt(data, off, src, d, i, e)
    requires WellFormed(src) && Agree(t, src)
    requires srcOpt == Some(src) || AllKnown(t, src, d, i)
    ensures ReadFields(data, off, t, srcOpt, result, seen) == Finish(t, seen + SentTags(src, d, i), Receive(t, src, d, i, result), e)
    decreases |src.fields| - i, 1
  {
    if i == |src.fields| {
      ReadFieldsEnd(data, off, t, srcOpt, result, seen, e);
      assert seen + {} == seen;
    } else if !Present(d, src.fields[i]) {
      assert SentTags(src, d, i) == SentTags(src, d, i + 1);
      BodyRead(data, off, src, d, i + 1, t, srcOpt, result, seen, e);
    } else {
      BodyReadField(data, off, src, d, i, t, srcOpt, result, seen, e);
    }
  }

  /** `BodyRead` at a field the writer sends: its tag is read, then its value is taken
      in or stepped over. */
  lemma {:induction false} BodyReadField(data: seq<byte>, off: nat, src: Schema, d: map<string, Value>, i: nat,
                                         t: Schema, srcOpt: Option<Schema>, result: map<string, Value>, seen: set<int>, e: nat)
    requires i < |src.fields| && Present(d, src.fields[i]) && BodyAt(data, off, src, d, i, e)
    requires WellFormed(src) && Agree(t, src)
    requires srcOpt == Some(src) || AllKnown(t, src, d, i)
    ensures ReadFields(data, off, t, srcOpt, result, seen) == Finish(t, seen + SentTags(src, d, i), Receive(t, src, d, i, result), e)
    decreases |src.fields| - i, 0
  {
    var f := src.fields[i];
    var (tag, o) := ReadVarint(data, off).value;
    var (v, o2) := ReadFieldValue(data, o, f).value;
    assert f.tag >= 1;
    var S := SentTags(src, d, i + 1);
    assert SentTags(src, d, i) == {tag} + S;
    assert seen + {tag} + S == seen + SentTags(src, d, i);
    match TagIndex(t.fields, tag)
    case None =>
      TagIndexOfDistinct(src.fields, i);
      SkipAgrees(data, o, f);
      ReadFieldsSkip(data, off, t, srcOpt, result, seen, tag, o, o2);
      BodyRead(data, o2, src, d, i + 1, t, srcOpt, result, seen + {tag}, e);
    case Some(k) =>
      SameWireReads(data, o, t.fields[k], f);
      ReadFieldsKnown(data, off, t, srcOpt, result, seen, tag, o, k, v, o2);
      BodyRead(data, o2, src, d, i + 1, t, srcOpt, result[t.fields[k].name := v], seen + {tag}, e);
  }

  // ---- what the reader ends with ----

  /** The writer sends a value under `tag`: its schema has a field with that tag and
      the record holds a value for it. */
  predicate Sent(src: Schema, d: map<string, Value>, tag: int)
  {
    var f := SourceField(Some(src), tag);
    f.Some? && Present(d, f.value)
  }

  /** Decoding succeeds exactly when every field of the reader's schema that the writer
      did not send and that has no default is optional. */
  predicate Complete(t: Schema, src: Schema, d: map<string, Value>)
  {
    forall k :: 0 <= k < |t.fields| && !Sent(src, d, t.fields[k].tag) && t.fields[k].defaultValue.Null? ==>
      !t.fields[k].required
  }

  /** What a reader with schema `t` gets from a record `d` written with `src`: only
      names of `t`; under each, the writer's value when its tag was sent, else the
      reader's default when it has one, else nothing. */
  predicate Expected(t: Schema, src: Schema, d: map<string, Value>, r: map<string, Value>)
  {
    (forall key :: key in r ==> NameIndex(t.fields, key).Some?) &&
    forall k :: 0 <= k < |t.fields| ==>
      (Sent(src, d, t.fields[k].tag) ==>
        t.fields[k].name in r && r[t.fields[k].name] == d[SourceField(Some(src), t.fields[k].tag).value.name]) &&
      (!Sent(src, d, t.fields[k].tag) && !t.fields[k].defaultValue.Null? ==>
        t.fields[k].name in r && r[t.fields[k].name] == t.fields[k].defaultValue) &&
      (!Sent(src, d, t.fields[k].tag) && t.fields[k].defaultValue.Null? ==> t.fields[k].name !in r)
  }

  lemma {:induction false} SentTagsHas(src: Schema, d: map<string, Value>, i: nat, tag: int)
    requires i <= |src.fields|
    ensures tag in SentTags(src, d, i) <==>
      exists j :: i <= j < |src.fields| && src.fields[j].tag == tag && Present(d, src.fields[j])
    decreases |src.fields| - i
  {
    if i < |src.fields| {
      SentTagsHas(src, d, i + 1, tag);
    }
  }

  /** The tags the body carries are exactly the sent ones. */
  lemma SentTagsSent(src: Schema, d: map<string, Value>, tag: int)
    requires DistinctTags(src.fields)
    ensures tag in SentTags(src, d, 0) <==> Sent(src, d, tag)
  {
    SentTagsHas(src, d, 0, tag);
    if tag in SentTags(src, d, 0) {
      var j :| 0 <= j < |src.fields| && src.fields[j].tag == tag && Present(d, src.fields[j]);
      TagIndexOfDistinct(src.fields, j);
    }
  }

  /** Taking in the sent fields from `i` on sets the reader's field `k` to the value
      sent under its tag, and leaves it alone when its tag is not sent. */
  lemma {:induction false} ReceiveSpec(t: Schema, src: Schema, d: map<string, Value>, i: nat, result: map<string, Value>, k: nat)
    requires i <= |src.fields| && k < |t.fields|
    requires DistinctTags(src.fields) && DistinctTags(t.fields) && DistinctNames(t.fields)
    ensures forall j :: i <= j < |src.fields| && src.fields[j].tag == t.fields[k].tag && Present(d, src.fields[j]) ==>
      t.fields[k].name in Receive(t, src, d, i, result) && Receive(t, src, d, i, result)[t.fields[k].name] == d[src.fields[j].name]
    ensures (forall j :: i <= j < |src.fields| && Present(d, src.fields[j]) ==> src.fields[j].tag != t.fields[k].tag) ==>
      (t.fields[k].name in Receive(t, src, d, i, result) <==> t.fields[k].name in result) &&
      (t.fields[k].name in result ==> Receive(t, src, d, i, result)[t.fields[k].name] == result[t.fields[k].name])
    decreases |src.fields| - i
  {
    if i < |src.fields| {
      var f := src.fields[i];
      var g := t.fields[k];
      var K := TagIndex(t.fields, f.tag);
      TagIndexOfDistinct(t.fields, k);
      if Present(d, f) && K.Some? {
        var result' := result[t.fields[K.value].name := d[f.name]];
        ReceiveSpec(t, src, d, i + 1, result', k);
        if f.tag != g.tag {
          assert K.value != k;
          assert t.fields[K.value].name != g.name;
        }
      } else {
        ReceiveSpec(t, src, d, i + 1, result, k);
      }
    }
  }

  /** Taking in fields adds only names of the reader's schema. */
  lemma {:induction false} ReceiveKeys(t: Schema, src: Schema, d: map<string, Value>, i: nat, result: map<string, Value>)
    requires i <= |src.fields|
    ensures forall key :: key in Receive(t, src, d, i, result) ==> key in result || NameIndex(t.fields, key).Some?
    decreases |src.fields| - i
  {
    if i < |src.fields| {
      var f := src.fields[i];
      var K := TagIndex(t.fields, f.tag);
      if Present(d, f) && K.Some? {
        var name := t.fields[K.value].name;
        assert NameIndex(t.fields, name).Some?;
        ReceiveKeys(t, src, d, i + 1, result[name := d[f.name]]);
      } else {
        ReceiveKeys(t, src, d, i + 1, result);
      }
    }
  }

  /** Applying defaults fails exactly on a required field never seen and without a default. */
  lemma {:induction false} DefaultsOk(fs: seq<FieldDef>, seen: set<int>, result: map<string, Value>)
    ensures ApplyDefaults(fs, seen, result).Some? <==>
      forall j :: 0 <= j < |fs| && fs[j].tag !in seen && fs[j].defaultValue.Null? ==> !fs[j].required
  {
    if |fs| > 0 {
      var f := fs[0];
      if f.tag !in seen && !f.defaultValue.Null? {
        DefaultsOk(fs[1..], seen, result[f.name := f.defaultValue]);
      } else {
        DefaultsOk(fs[1..], seen, result);
      }
      assert forall j :: 1 <= j < |fs| ==> fs[j] == fs[1..][j - 1];
    }
  }

  /** Applying defaults leaves a name that no field has alone. */
  lemma {:induction false} DefaultsOther(fs: seq<FieldDef>, seen: set<int>, result: map<string, Value>, name: string)
    requires forall j :: 0 <= j < |fs| ==> fs[j].name != name
    requires ApplyDefaults(fs, seen, result).Some?
    ensures (name in ApplyDefaults(fs, seen, result).value <==> name in result)
    ensures name in result ==> ApplyDefaults(fs, seen, result).value[name] == result[name]
  {
    if |fs| > 0 {
      var f := fs[0];
      assert forall j :: 0 <= j < |fs[1..]| ==> fs[1..][j] == fs[j + 1];
      if f.tag !in seen && !f.defaultValue.Null? {
        DefaultsOther(fs[1..], seen, result[f.name := f.defaultValue], name);
      } else {
        DefaultsOther(fs[1..], seen, result, name);
      }
    }
  }

  /** Field `k` takes its default when its tag was not seen and it has one, and is
      otherwise left as it was. */
  lemma {:induction false} DefaultsSpec(fs: seq<FieldDef>, seen: set<int>, result: map<string, Value>, k: nat)
    requires DistinctNames(fs) && k < |fs|
    requires ApplyDefaults(fs, seen, result).Some?
    ensures fs[k].tag !in seen && !fs[k].defaultValue.Null? ==>
      fs[k].name in ApplyDefaults(fs, seen, result).value && ApplyDefaults(fs, seen, result).value[fs[k].name] == fs[k].defaultValue
    ensures fs[k].tag in seen || fs[k].defaultValue.Null? ==>
      (fs[k].name in ApplyDefaults(fs, seen, result).value <==> fs[k].name in result) &&
      (fs[k].name in result ==> ApplyDefaults(fs, seen, result).value[fs[k].name] == result[fs[k].name])
  {
    var f := fs[0];
    var result' := if f.tag !in seen && !f.defaultValue.Null? then result[f.name := f.defaultValue] else result;
    assert ApplyDefaults(fs, seen, result) == ApplyDefaults(fs[1..], seen, result');
    assert forall j :: 0 <= j < |fs[1..]| ==> fs[1..][j] == fs[j + 1];
    if k == 0 {
      DefaultsOther(fs[1..], seen, result', f.name);
    } else {
      assert f.name != fs[k].name;
      DefaultsSpec(fs[1..], seen, result', k - 1);
    }
  }

  /** Applying defaults adds only names of the fields. */
  lemma {:induction false} DefaultsKeys(fs: seq<FieldDef>, seen: set<int>, result: map<string, Value>)
    requires ApplyDefaults(fs, seen, result).Some?
    ensures forall key :: key in ApplyDefaults(fs, seen, result).value ==> key in result || NameIndex(fs, key).Some?
  {
    if |fs| > 0 {
      var f := fs[0];
      if f.tag !in seen && !f.defaultValue.Null? {
        DefaultsKeys(fs[1..], seen, result[f.name := f.defaultValue]);
      } else {
        DefaultsKeys(fs[1..], seen, result);
      }
      forall key | NameIndex(fs[1..], key).Some?
        ensures NameIndex(fs, key).Some?
      {
        assert fs[1..][NameIndex(fs[1..], key).value] == fs[NameIndex(fs[1..], key).value + 1];
      }
    }
  }

  /** How a body ends, whichever versions wrote and read it: the reader fails exactly
      when a required field is missing, and otherwise holds the expected record. */
  lemma Outcome(t: Schema, src: Schema, d: map<string, Value>, e: nat)
    requires WellFormed(t) && WellFormed(src)
    ensures var F := Finish(t, SentTags(src, d, 0), Receive(t, src, d, 0, map[]), e);
      (F.Some? <==> Complete(t, src, d)) && (F.Some? ==> F.value.1 == e && Expected(t, src, d, F.value.0))
  {
    var S := SentTags(src, d, 0);
    var R := Receive(t, src, d, 0, map[]);
    forall tag
      ensures tag in S <==> Sent(src, d, tag)
    {
      SentTagsSent(src, d, tag);
    }
    DefaultsOk(t.fields, S, R);
    if ApplyDefaults(t.fields, S, R).Some? {
      var r := ApplyDefaults(t.fields, S, R).value;
      ReceiveKeys(t, src, d, 0, map[]);
      DefaultsKeys(t.fields, S, R);
      forall k | 0 <= k < |t.fields|
        ensures Sent(src, d, t.fields[k].tag) ==>
          t.fields[k].name in r && r[t.fields[k].name] == d[SourceField(Some(src), t.fields[k].tag).value.name]
        ensures !Sent(src, d, t.fields[k].tag) && !t.fields[k].defaultValue.Null? ==>
          t.fields[k].name in r && r[t.fields[k].name] == t.fields[k].defaultValue
        ensures !Sent(src, d, t.fields[k].tag) && t.fields[k].defaultValue.Null? ==> t.fields[k].name !in r
      {
        ReceiveSpec(t, src, d, 0, map[], k);
        DefaultsSpec(t.fields, S, R, k);
        if Sent(src, d, t.fields[k].tag) {
          var j := TagIndex(src.fields, t.fields[k].tag).value;
          assert src.fields[j].tag == t.fields[k].tag && Present(d, src.fields[j]);
        }
      }
    }
  }

  /** With the writer's schema as the reader's, the expected record is the record. */
  lemma ExpectedSelf(s: Schema, m: map<string, Value>, r: map<string, Value>)
    requires WellFormed(s) && CanonicalRecord(s, m) && Expected(s, s, m, r)
    ensures r == m
  {
    ExpectedSelfIn(s, m, r);
    ExpectedSelfOut(s, m, r);
    MapExt(r, m);
  }

  lemma ExpectedSelfIn(s: Schema, m: map<string, Value>, r: map<string, Value>)
    requires WellFormed(s) && CanonicalRecord(s, m) && Expected(s, s, m, r)
    ensures forall key :: key in r ==> key in m && m[key] == r[key]
  {
    forall key | key in r
      ensures key in m && m[key] == r[key]
    {
      var k := NameIndex(s.fields, key).value;
      ExpectedSelfAt(s, m, r, k);
    }
  }

  lemma ExpectedSelfOut(s: Schema, m: map<string, Value>, r: map<string, Value>)
    requires WellFormed(s) && CanonicalRecord(s, m) && Expected(s, s, m, r)
    ensures forall key :: key in m ==> key in r
  {
    forall key | key in m
      ensures key in r
    {
      var k := NameIndex(s.fields, key).value;
      ExpectedSelfAt(s, m, r, k);
    }
  }

  lemma ExpectedSelfAt(s: Schema, m: map<string, Value>, r: map<string, Value>, k: nat)
    requires WellFormed(s) && CanonicalRecord(s, m) && Expected(s, s, m, r) && k < |s.fields|
    ensures s.fields[k].name in r <==> s.fields[k].name in m
    ensures s.fields[k].name in r ==> r[s.fields[k].name] == m[s.fields[k].name]
  {
    var g := s.fields[k];
    TagIndexOfDistinct(s.fields, k);
    assert Sent(s, m, g.tag) <==> Present(m, g);
  }

  /** A canonical record is complete for its own schema. */
  lemma CompleteSelf(s: Schema, m: map<string, Value>)
    requires WellFormed(s) && CanonicalRecord(s, m)
    ensures Complete(s, s, m)
  {
    forall k | 0 <= k < |s.fields|
      ensures !Sent(s, m, s.fields[k].tag) ==> !Present(m, s.fields[k])
    {
      TagIndexOfDistinct(s.fields, k);
    }
  }

  lemma SelfFinish(s: Schema, m: map<string, Value>, e: nat)
    requires WellFormed(s) && CanonicalRecord(s, m)
    ensures Finish(s, SentTags(s, m, 0), Receive(s, s, m, 0, map[]), e) == Some((m, e))
  {
    Outcome(s, s, m, e);
    CompleteSelf(s, m);
    ExpectedSelf(s, m, Finish(s, SentTags(s, m, 0), Receive(s, s, m, 0, map[]), e).value.0);
  }

  // ---- whole messages ----

  /** The header written for `s` reads back as its version, the byte length of its
      name and the name, and the body follows it. */
  lemma HeaderRoundTrip(s: Schema, hb: seq<byte>, body: seq<byte>)
    requires HeaderFixed(s) == Some(hb)
    ensures var data := hb + body; var n := |Utf8.Encode(s.name)|;
      |data| >= HeaderSize && data[..4] == Magic &&
      BigEndian.Decode(data[4..6]) == s.version && BigEndian.Decode(data[6..8]) == n &&
      Utf8.Decode(PySlice(data, 8, 8 + n)) == Some(s.name) && |hb| == 8 + n
  {
    var data := hb + body;
    var nb := Utf8.Encode(s.name);
    assert BigEndian.Pow256(2) == 65536;
    var vb := BigEndian.Encode(s.version, 2);
    var lb := BigEndian.Encode(|nb|, 2);
    assert hb == Magic + vb + lb + nb;
    assert data[..4] == Magic;
    assert data[4..6] == vb;
    assert data[6..8] == lb;
    assert data[8..8 + |nb|] == nb;
    BigEndian.DecodeEncode(s.version, 2);
    BigEndian.DecodeEncode(|nb|, 2);
    Utf8.RoundTrip(s.name);
  }

  /** The header of a message from `off - 8` bytes of name on reads as `name` and `version`. */
  predicate HeaderAt(data: seq<byte>, name: string, version: int, off: nat)
  {
    |data| >= HeaderSize && off >= 8 && data[..4] == Magic &&
    BigEndian.Decode(data[4..6]) == version && BigEndian.Decode(data[6..8]) == off - 8 &&
    Utf8.Decode(PySlice(data, 8, off)) == Some(name)
  }

  /** A written message is a readable header followed by a laid-out body. */
  lemma MessageLayout(src: Schema, d: map<string, Value>, data: seq<byte>) returns (off: nat)
    requires WellFormed(src) && CanonicalSent(src, d)
    requires EncodeRecordFixed(src, d) == Some(data)
    ensures HeaderAt(data, src.name, src.version, off) && BodyAt(data, off, src, d, 0, |data|)
  {
    var hb, body := MessageParts(src, d, data);
    HeaderRoundTrip(src, hb, body);
    off := |hb|;
    assert data[off..off + |body|] == body;
    BodyLayout(src, d, 0, data, off, body, |data|);
  }

  /** A written message is its header followed by its body. */
  lemma MessageParts(src: Schema, d: map<string, Value>, data: seq<byte>) returns (hb: seq<byte>, body: seq<byte>)
    requires EncodeRecordFixed(src, d) == Some(data)
    ensures HeaderFixed(src) == Some(hb) && FieldsBytes(src, d, 0, true) == Some(body) && data == hb + body
  {
    hb := HeaderFixed(src).value;
    body := FieldsBytes(src, d, 0, true).value;
  }

  /** Reading a message whose body is laid out: the body's outcome, without the offset. */
  lemma MessageRead(src: Schema, d: map<string, Value>, data: seq<byte>, off: nat,
                    registry: Option<map<(string, int), Schema>>, target: Option<Schema>, t: Schema)
    requires HeaderAt(data, src.name, src.version, off) && BodyAt(data, off, src, d, 0, |data|)
    requires WellFormed(src) && Agree(t, src)
    requires (if target.Some? then target else Lookup(registry, src.name, src.version)) == Some(t)
    requires Lookup(registry, src.name, src.version) == Some(src) || AllKnown(t, src, d, 0)
    ensures var F := Finish(t, SentTags(src, d, 0), Receive(t, src, d, 0, map[]), |data|);
      DecodeMessage(data, registry, target) == if F.Some? then Some(F.value.0) else None
  {
    var srcOpt := Lookup(registry, src.name, src.version);
    BodyRead(data, off, src, d, 0, t, srcOpt, map[], {}, |data|);
    EmptyUnion(SentTags(src, d, 0));
    HeaderReads(data, src.name, src.version, off);
    MessageOf(data, registry, target, src.name, src.version, off, t,
              Finish(t, SentTags(src, d, 0), Receive(t, src, d, 0, map[]), |data|));
  }

  lemma HeaderReads(data: seq<byte>, name: string, version: int, off: nat)
    requires HeaderAt(data, name, version, off)
    ensures ReadHeader(data) == Some((name, version, off))
  {
  }

  /** `decode` once the header is read: the fields read with the chosen schema. */
  lemma MessageOf(data: seq<byte>, registry: Option<map<(string, int), Schema>>, target: Option<Schema>,
                  name: string, version: int, off: nat, t: Schema, F: Option<(map<string, Value>, nat)>)
    requires ReadHeader(data) == Some((name, version, off))
    requires (if target.Some? then target else Lookup(registry, name, version)) == Some(t)
    requires ReadFields(data, off, t, Lookup(registry, name, version), map[], {}) == F
    ensures DecodeMessage(data, registry, target) == if F.Some? then Some(F.value.0) else None
  {
  }

  /** A record written with `src` and read with `t` (the target schema, or the schema
      the registry holds for the writer's name and version): decoding succeeds exactly
      when every required field of `t` is sent or has a default, and then gives the
      expected record. The writer's schema must be in the registry unless `t` knows
      every tag sent. */
  lemma Evolution(src: Schema, d: map<string, Value>, data: seq<byte>,
                  registry: Option<map<(string, int), Schema>>, target: Option<Schema>, t: Schema)
    requires WellFormed(src) && WellFormed(t) && Agree(t, src) && CanonicalSent(src, d)
    requires EncodeRecordFixed(src, d) == Some(data)
    requires (if target.Some? then target else Lookup(registry, src.name, src.version)) == Some(t)
    requires Lookup(registry, src.name, src.version) == Some(src) || AllKnown(t, src, d, 0)
    ensures DecodeMessage(data, registry, target).Some? <==> Complete(t, src, d)
    ensures DecodeMessage(data, registry, target).Some? ==> Expected(t, src, d, DecodeMessage(data, registry, target).value)
  {
    var off := MessageLayout(src, d, data);
    MessageRead(src, d, data, off, registry, target, t);
    Outcome(t, src, d, |data|);
  }

  /** Without a target schema and without the writer's schema in the registry, a
      message cannot be read. */
  lemma NoSchema(src: Schema, d: map<string, Value>, data: seq<byte>, registry: Option<map<(string, int), Schema>>)
    requires EncodeRecordFixed(src, d) == Some(data)
    requires Lookup(registry, src.name, src.version).None?
    ensures DecodeMessage(data, registry, None) == None
  {
    var hb := HeaderFixed(src).value;
    var body := FieldsBytes(src, d, 0, true).value;
    assert data == hb + body;
    HeaderRoundTrip(src, hb, body);
  }

  /** decode(encode(d)) == d, reading with the writer's schema as the target. */
  lemma SelfRoundTrip(s: Schema, d: map<string, Value>, data: seq<byte>, registry: Option<map<(string, int), Schema>>)
    requires WellFormed(s) && CanonicalRecord(s, d)
    requires EncodeRecordFixed(s, d) == Some(data)
    ensures DecodeMessage(data, registry, Some(s)) == Some(d)
  {
    SelfReads(s, d, data, registry, Some(s));
  }

  /** decode(encode(d)) == d, reading with the schema the registry holds for the
      writer's name and version. */
  lemma RegistryRoundTrip(s: Schema, d: map<string, Value>, data: seq<byte>, registry: map<(string, int), Schema>)
    requires WellFormed(s) && CanonicalRecord(s, d)
    requires EncodeRecordFixed(s, d) == Some(data)
    requires (s.name, s.version) in registry && registry[(s.name, s.version)] == s
    ensures DecodeMessage(data, Some(registry), None) == Some(d)
  {
    SelfReads(s, d, data, Some(registry), None);
  }

  lemma SelfReads(s: Schema, d: map<string, Value>, data: seq<byte>,
                  registry: Option<map<(string, int), Schema>>, target: Option<Schema>)
    requires WellFormed(s) && CanonicalRecord(s, d)
    requires EncodeRecordFixed(s, d) == Some(data)
    requires (if target.Some? then target else Lookup(registry, s.name, s.version)) == Some(s)
    ensures DecodeMessage(data, registry, target) == Some(d)
  {
    AgreeSelf(s);
    CanonicalRecordSent(s, d);
    SelfKnown(s, d);
    CompleteSelf(s, d);
    Evolution(s, d, data, registry, target, s);
    ExpectedSelf(s, d, DecodeMessage(data, registry, target).value);
  }
}
