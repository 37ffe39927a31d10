/** Concrete encodings under the default settings (long enums, properties
    and fields, no handlers, the header as the code writes it), and the
    nested-list round trip the repository's own tests exercise. */
module WireSamples {
  import opened LittleEndian
  import opened Results
  import opened ByteMarkUtils
  import opened Shapes
  import D = BsfDumper
  import M = BsfMapper
  import opened Steps
  import opened RoundTrip

  const Defaults: D.Settings := D.Settings(false, true, map[], D.AsWritten)
  const MapperDefaults: M.Settings := M.Settings(true)
  const Memory: D.Sink := D.Sink(true, true)
  const Readable: M.Source := M.Source(true)

  /** The string "Hi" is mark 2 and its two UTF-8 bytes, and reads back. */
  lemma StringHi()
    ensures D.Serialize(Defaults, Memory, Bytes([0x48, 0x69]), Str) == Ok([2, 0x48, 0x69])
    ensures M.Deserialize(MapperDefaults, Readable, [2, 0x48, 0x69], Str) == Ok(M.Parsed(Bytes([0x48, 0x69]), []))
  {
    assert [2 as byte] + [0x48, 0x69] == [2, 0x48, 0x69];
    RoundTripBytes(Defaults, MapperDefaults, Memory, Readable, Bytes([0x48, 0x69]), Str, []);
    assert [2, 0x48, 0x69] + [] == [2, 0x48, 0x69];
  }

  /** The int 300 is a four-byte little-endian Sequence. */
  lemma Int300()
    ensures D.Serialize(Defaults, Memory, Bytes([0x2C, 1, 0, 0]), Prim(Int)) == Ok([4, 0x2C, 1, 0, 0])
    ensures FromLE([0x2C, 1, 0, 0]) == 300
  {
    assert [4 as byte] + [0x2C, 1, 0, 0] == [4, 0x2C, 1, 0, 0];
    assert FromLE([0x2C, 1, 0, 0]) == 0x2C + 256 * FromLE([1, 0, 0]);
  }

  /** An empty list and null share the single byte 0; a list target reads
      it back as an empty list. */
  lemma EmptyList()
    ensures D.Serialize(Defaults, Memory, Array([]), List(Prim(Int))) == Ok([0])
    ensures D.Serialize(Defaults, Memory, Null, List(Prim(Int))) == Ok([0])
    ensures M.Deserialize(MapperDefaults, Readable, [0], List(Prim(Int))) == Ok(M.Parsed(Array([]), []))
  {
    assert D.PatchHeader([0], []) == [0];
    NullDecoding(MapperDefaults, Readable, List(Prim(Int)), []);
    assert [NullMark] + [] == [0];
  }

  /** A list of lists of ints whose first inner list is empty comes back
      as it went in. */
  lemma NestedListRoundTrip(rest: seq<byte>)
    ensures D.Serialize(Defaults, Memory, Nested, List(List(Prim(Int)))).Ok?
    ensures M.Deserialize(MapperDefaults, Readable,
                          D.Serialize(Defaults, Memory, Nested, List(List(Prim(Int)))).value + rest, List(List(Prim(Int))))
         == Ok(M.Parsed(Nested, rest))
  {
    NestedIsExact();
    RoundTripValue(Defaults, MapperDefaults, Memory, Readable, Nested, List(List(Prim(Int))), rest);
  }

  const Nested: Value := Array([Array([]), Array([Bytes([3, 0, 0, 0]), Bytes([4, 0, 0, 0])])])

  /** The nested list is decodable and normalisation leaves it unchanged. */
  lemma NestedIsExact()
    ensures Conforms(Nested, List(List(Prim(Int))))
    ensures Decodable(Defaults, Nested, List(List(Prim(Int))))
    ensures Expected(Defaults, Nested, List(List(Prim(Int)))) == Nested
  {
    var inner := List(Prim(Int));
    var a := Nested.items[0];
    var b := Nested.items[1];
    InnerIsExact(b);
    assert ExpectedItems(Defaults, Nested.items[1..], inner) == [b];
    assert ExpectedItems(Defaults, Nested.items, inner) == [a, b];
  }

  lemma InnerIsExact(b: Value)
    requires b == Array([Bytes([3, 0, 0, 0]), Bytes([4, 0, 0, 0])])
    ensures Conforms(b, List(Prim(Int))) && Decodable(Defaults, b, List(Prim(Int)))
    ensures Expected(Defaults, b, List(Prim(Int))) == b
  {
    assert ExpectedItems(Defaults, b.items[1..], Prim(Int)) == [b.items[1]];
    assert ExpectedItems(Defaults, b.items, Prim(Int)) == b.items;
  }

  /** A list of enums is written like any list: the Array mark for one
      item and the enum as a two-byte Sequence. */
  lemma EnumListWritten()
    ensures D.Serialize(Defaults, Memory, Array([EnumValue(5)]), List(Enum)) == Ok([86, 2, 5, 0])
  {
    assert D.Serialize(Defaults, Memory, EnumValue(5), Enum) == Ok([2, 5, 0]) by {
      assert ToLE(0, 1) == [0] + ToLE(0, 0);
      assert ToLE(5, 2) == [5, 0];
      assert [2 as byte] + [5, 0] == [2, 5, 0];
      assert D.SerializePrimitive(D.AsWritten, UShort, [5, 0]) == Ok([2, 5, 0]);
    }
    assert D.SerializeItems(Defaults, Memory, [EnumValue(5)], Enum) == Ok([2, 5, 0]) by {
      assert D.SerializeItems(Defaults, Memory, [EnumValue(5)][1..], Enum) == Ok([]);
      assert [2 as byte, 5, 0] + [] == [2, 5, 0];
    }
    assert GetMarkForLength(ArrayKind, 1) == 86;
    assert [86 as byte] + [2, 5, 0] == [86, 2, 5, 0];
  }

  /** Reading that list back fails: the element is decoded as a boxed
      ushort, which does not unbox to the enum. */
  lemma EnumListRejected()
    ensures M.Deserialize(MapperDefaults, Readable, [86, 2, 5, 0], List(Enum)) == Err(InvalidCast)
  {
    var input: seq<byte> := [86, 2, 5, 0];
    assert input[1..] == [2, 5, 0];
    assert M.ReadHeader(input) == Ok(M.Parsed(M.Header(86, 1), [2, 5, 0]));
    assert M.Deserialize(MapperDefaults, Readable, [2, 5, 0], Enum).Ok? by {
      EnumTopLevelRejected();
    }
  }

  /** A null element of a list of ints reaches the cast to int, which
      fails. */
  lemma NullIntElementRejected()
    ensures M.Deserialize(MapperDefaults, Readable, [86, 0], List(Prim(Int))) == Err(InvalidCast)
  {
    var input: seq<byte> := [86, 0];
    assert input[1..] == [0];
    assert M.ReadHeader(input) == Ok(M.Parsed(M.Header(86, 1), [0]));
    NullDecoding(MapperDefaults, Readable, Prim(Int), []);
    assert [NullMark] + [] == [0];
  }

  /** An enum read at the top level decodes, and the final cast to the
      requested type rejects it. */
  lemma EnumTopLevelRejected()
    ensures M.Deserialize(MapperDefaults, Readable, [2, 5, 0], Enum) == Ok(M.Parsed(EnumValue(5), []))
    ensures M.DeserializeAs(MapperDefaults, Readable, [2, 5, 0], Enum) == Err(InvalidCast)
  {
    var input: seq<byte> := [2, 5, 0];
    assert input[1..] == [5, 0];
    assert M.ReadHeader(input) == Ok(M.Parsed(M.Header(2, 2), [5, 0]));
    assert [5 as byte, 0][..2] == [5, 0] && [5 as byte, 0][2..] == [];
    assert M.Read([5, 0], 2) == Ok(M.Parsed([5, 0], []));
    assert M.ReadSequence(input) == Ok(M.Parsed([5, 0], []));
    assert FromLE([5, 0]) == 5 + 256 * FromLE([0]);
    assert FromLE([0]) == 0 + 256 * FromLE([]);
  }

  /** A Guid: a struct without the model attribute, written through the
      handler the repository's ComplexTest registers, as its bytes. */
  const Guid: Descriptor := Opaque([71, 117, 105, 100])

  function GuidBytes(g: Value): seq<byte>
  {
    if g.Bytes? then g.data else []
  }

  const WithGuid: D.Settings := D.Settings(false, true, map[Guid := GuidBytes], D.AsWritten)

  /** TestClass2: properties Id (Guid), Number (double) and Enum; the
      preferred constructor takes the id as a byte array, the other one as
      a Guid. */
  const TestClass2: Descriptor :=
    Class([84, 101, 115, 116, 67, 108, 97, 115, 115, 50],
          [Member([73, 100], Guid, false),
           Member([78, 117, 109, 98, 101, 114], Prim(Double), false),
           Member([69, 110, 117, 109], Enum, false)],
          [],
          [Ctor([Param([105, 100], RawBytes),
                 Param([110, 117, 109, 98, 101, 114], Prim(Double)),
                 Param([101, 110, 117, 109], Enum)], true),
           Ctor([Param([103, 117, 105, 100], Guid),
                 Param([110, 117, 109, 98, 101, 114], Prim(Double)),
                 Param([101, 110, 117, 109], Enum)], false)])

  /** A TestClass2 object with the given id bytes, number bytes and enum
      value. */
  function Sample2(id: seq<byte>, number: seq<byte>, e: nat): (v: Value)
    requires |id| == 16 && |number| == 8 && e < 0x1_0000
    ensures Conforms(v, TestClass2)
  {
    var v := Obj([Bytes(id), Bytes(number), EnumValue(e)], []);
    assert MembersConform(v.properties, TestClass2.properties);
    assert MembersConform(v.fields, TestClass2.fields);
    v
  }

  /** The handler's bytes for Id reach the preferred constructor's byte
      array parameter, so the object comes back with the same id, number
      and enum value. */
  lemma GuidMemberRoundTrip(id: seq<byte>, number: seq<byte>, e: nat, rest: seq<byte>)
    requires |id| == 16 && |number| == 8 && e < 0x1_0000
    ensures D.Serialize(WithGuid, Memory, Sample2(id, number, e), TestClass2).Ok?
    ensures M.Deserialize(MapperDefaults, Readable,
                          D.Serialize(WithGuid, Memory, Sample2(id, number, e), TestClass2).value + rest, TestClass2)
         == Ok(M.Parsed(Constructed(0, [Bytes(id), Bytes(number), EnumValue(e)]), rest))
  {
    var v := Sample2(id, number, e);
    TestClass2Decodable(id, number, e);
    assert Expected(WithGuid, v, TestClass2) == Constructed(0, [Bytes(id), Bytes(number), EnumValue(e)]) by {
      TestClass2Args(id, number, e);
    }
    RoundTripValue(WithGuid, MapperDefaults, Memory, Readable, v, TestClass2, rest);
  }

  lemma TestClass2Params()
    ensures M.SelectCtor(TestClass2.ctors) == Ok(0)
    ensures M.FindParam(TestClass2.ctors[0].params, Bytes(TestClass2.properties[0].name)) == Some(0)
    ensures M.FindParam(TestClass2.ctors[0].params, Bytes(TestClass2.properties[1].name)) == Some(1)
    ensures M.FindParam(TestClass2.ctors[0].params, Bytes(TestClass2.properties[2].name)) == Some(2)
  {
    var d := TestClass2;
    var params := d.ctors[0].params;
    assert M.PreferredFrom(d.ctors, 2) == [];
    assert M.PreferredFrom(d.ctors, 1) == [];
    assert M.PreferredFrom(d.ctors, 0) == [0];
    assert M.FindName(params[1..], d.properties[1].name) == Some(0);
    assert M.FindName(params[2..], d.properties[2].name) == Some(0);
    assert M.FindName(params[1..], d.properties[2].name) == Some(1);
  }

  lemma TestClass2Decodable(id: seq<byte>, number: seq<byte>, e: nat)
    requires |id| == 16 && |number| == 8 && e < 0x1_0000
    ensures Decodable(WithGuid, Sample2(id, number, e), TestClass2)
  {
    var d := TestClass2;
    var v := Sample2(id, number, e);
    var params := d.ctors[0].params;
    TestClass2Params();
    assert D.EntryCount(WithGuid, d) == 3 by {
      assert IncludedCount(d.properties[2..]) == 1;
      assert IncludedCount(d.properties[1..]) == 2;
    }
    assert MembersDecodable(WithGuid, params, v.properties, d.properties) by {
      assert MemberDecodable(WithGuid, params, v.properties[0], d.properties[0]);
      assert MemberDecodable(WithGuid, params, v.properties[1], d.properties[1]);
      assert MemberDecodable(WithGuid, params, v.properties[2], d.properties[2]);
    }
  }

  lemma TestClass2Args(id: seq<byte>, number: seq<byte>, e: nat)
    requires |id| == 16 && |number| == 8 && e < 0x1_0000
    ensures ExpectedArgs(WithGuid, Sample2(id, number, e), TestClass2, 0) == [Bytes(id), Bytes(number), EnumValue(e)]
  {
    var d := TestClass2;
    var v := Sample2(id, number, e);
    var params := d.ctors[0].params;
    TestClass2Params();
    var a0 := M.Nulls(3);
    var a1 := a0[0 := Bytes(id)];
    var a2 := a1[1 := Bytes(number)];
    var a3 := a2[2 := EnumValue(e)];
    assert a3 == [Bytes(id), Bytes(number), EnumValue(e)];
    assert PlaceMembers(WithGuid, a3, params, v.properties[3..], d.properties[3..]) == a3;
    assert ExpectedMember(WithGuid, v.properties[1], d.properties[1]) == Bytes(number);
    assert ExpectedMember(WithGuid, v.properties[2], d.properties[2]) == EnumValue(e);
    assert v.properties[2..][0] == v.properties[2] && d.properties[2..][0] == d.properties[2];
    assert v.properties[2..][1..] == v.properties[3..] && d.properties[2..][1..] == d.properties[3..];
    assert PlaceMembers(WithGuid, a2, params, v.properties[2..], d.properties[2..]) == a3;
    assert v.properties[1..][0] == v.properties[1] && d.properties[1..][0] == d.properties[1];
    assert v.properties[1..][1..] == v.properties[2..] && d.properties[1..][1..] == d.properties[2..];
    assert PlaceMembers(WithGuid, a1, params, v.properties[1..], d.properties[1..]) == a3;
    assert PlaceMembers(WithGuid, a0, params, v.properties, d.properties) == a3;
  }

  /** The null mark through the typed entry point: a primitive or enum
      target fails the final cast, a string target gives null, and a byte
      array target gives an empty array rather than null. */
  lemma NullThroughTypedEntry()
    ensures M.DeserializeAs(MapperDefaults, Readable, [0], Prim(Int)) == Err(InvalidCast)
    ensures M.DeserializeAs(MapperDefaults, Readable, [0], Enum) == Err(InvalidCast)
    ensures M.DeserializeAs(MapperDefaults, Readable, [0], Str) == Ok(M.Parsed(Null, []))
    ensures M.DeserializeAs(MapperDefaults, Readable, [0], RawBytes) == Ok(M.Parsed(Bytes([]), []))
  {
    assert [NullMark] + [] == [0];
    NullDecoding(MapperDefaults, Readable, Prim(Int), []);
    NullDecoding(MapperDefaults, Readable, Enum, []);
    NullDecoding(MapperDefaults, Readable, Str, []);
    NullDecoding(MapperDefaults, Readable, RawBytes, []);
  }
}
