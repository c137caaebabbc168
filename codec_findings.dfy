/** Two places where the encoder as written disagrees with its decoder, each shown on
    a concrete input, next to the corrected behaviour the round-trip theorems are about. */
module CodecFindings {
  import opened Common
  import Utf8
  import BigEndian
  import opened Schemas
  import opened Encoder
  import opened Decoder
  import opened RoundTrip
  import opened Evolution

  /** A schema whose name is one character of two UTF-8 bytes. */
  function Accented(): Schema
  {
    Schema("\U{00E9}", 1, [])
  }

  /** As written, the reader takes one byte of the two-byte name, which is not valid
      UTF-8, and the message cannot be read back even with its own schema. */
  lemma AccentedNameUnreadable()
    ensures EncodeRecord(Accented(), map[]).Some?
    ensures DecodeMessage(EncodeRecord(Accented(), map[]).value, None, Some(Accented())) == None
  {
    var data := AccentedBytes();
    assert data[..4] == Magic;
    assert data[4..6] == [0, 1] && data[6..8] == [0, 1];
    assert BigEndian.Decode([0, 1]) == 1 by {
      assert [0, 1][..1] == [0];
      assert [0][..0] == [];
    }
    assert PySlice(data, 8, 9) == [0xC3];
    assert Utf8.DecodeChar([0xC3]) == None;
  }

  lemma AccentedBytes() returns (data: seq<byte>)
    ensures EncodeRecord(Accented(), map[]) == Some(data)
    ensures data == Magic + [0, 1] + [0, 1] + [0xC3, 0xA9] + [0]
  {
    var s := Accented();
    assert Utf8.Encode(s.name) == [0xC3, 0xA9];
    assert BigEndian.Pow256(2) == 65536;
    assert BigEndian.Encode(1, 2) == [0, 1] by {
      assert BigEndian.Encode(0, 1) == [0];
    }
    assert Header(s) == Some(Magic + [0, 1] + [0, 1] + [0xC3, 0xA9]);
    assert FieldsBytes(s, map[], 0, false) == Some([0]);
    data := Magic + [0, 1] + [0, 1] + [0xC3, 0xA9] + [0];
  }

  /** With the header counting bytes, the same message reads back. */
  lemma AccentedNameReadable()
    ensures EncodeRecordFixed(Accented(), map[]).Some?
    ensures DecodeMessage(EncodeRecordFixed(Accented(), map[]).value, None, Some(Accented())) == Some(map[])
  {
    var s := Accented();
    assert Utf8.Encode(s.name) == [0xC3, 0xA9];
    assert BigEndian.Pow256(2) == 65536;
    SelfRoundTrip(s, map[], EncodeRecordFixed(s, map[]).value, None);
  }

  /** An ARRAY field that declares no element type. */
  function Untyped(): FieldDef
  {
    FieldDef(1, "tags", Array, false, Null, None, None)
  }

  /** As written, the items of such a field are encoded with type None, which the
      encoder rejects, while the decoder reads them as strings. */
  lemma UntypedArrayUnwritable()
    ensures FieldValueBytes(ListV([StrV("a")]), Untyped(), false) == None
  {
  }

  /** With the element type defaulting to STRING as in the decoder, the field is
      written and read back. */
  lemma UntypedArrayRoundTrip(data: seq<byte>, off: nat, b: seq<byte>, e: nat)
    requires FieldValueBytes(ListV([StrV("a")]), Untyped(), true) == Some(b)
    requires At(data, off, b) && e == off + |b|
    ensures ReadFieldValue(data, off, Untyped()) == Some((ListV([StrV("a")]), e))
  {
    var items := [StrV("a")];
    assert CanonicalItems(items[1..], String);
    assert CanonicalItems(items, String);
    FieldValueRoundTrip(ListV(items), Untyped(), Untyped(), data, off, b, e);
  }

  /** The field is written at all. */
  lemma UntypedArrayWritable()
    ensures FieldValueBytes(ListV([StrV("a")]), Untyped(), true).Some?
  {
    assert ItemsBytes([StrV("a")][1..], String).Some?;
  }
}
