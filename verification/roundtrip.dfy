/** Encoding then decoding with the same descriptor. Null and empty share
    one wire form, so the decoder gives back a normalised value: Expected
    says which. Lengths must fit the header the mode writes: the direct
    range for the code as written, a signed long for the corrected header. */
module RoundTrip {
  import opened LittleEndian
  import opened Results
  import opened ByteMarkUtils
  import opened Shapes
  import D = BsfDumper
  import M = BsfMapper
  import opened Steps

  /** n items of kind k can be announced and read back. */
  predicate LengthOk(s: D.Settings, k: Kind, n: nat)
  {
    if s.mode == D.Corrected then n <= M.MaxLong else n <= DirectMax(k)
  }

  function EnumRange(s: D.Settings): nat
  {
    if s.longEnums then 0x1_0000 else 0x100
  }

  /** What decoding the encoding of v gives back. */
  function Expected(s: D.Settings, v: Value, d: Descriptor): Value
    requires Conforms(v, d)
    decreases v, 1
  {
    match d
    case Prim(_) => v
    case Str => if v.Bytes? && |v.data| == 0 then Null else v
    case RawBytes => if v.Null? then Bytes([]) else v
    case Enum => if v.Null? then Null else EnumValue(v.number % EnumRange(s))
    case List(e) => if v.Null? then Array([]) else Array(ExpectedItems(s, v.items, e))
    case Class(_, _, _, ctors) =>
      (match M.SelectCtor(ctors)
       case Err(_) => Null
       case Ok(c) =>
         if v.Null? || |ctors[c].params| == 0 then Constructed(c, [])
         else Constructed(c, ExpectedArgs(s, v, d, c)))
    case _ => Null
  }

  function ExpectedItems(s: D.Settings, items: seq<Value>, e: Descriptor): (r: seq<Value>)
    requires forall i | 0 <= i < |items| :: Conforms(items[i], e)
    ensures |r| == |items|
    decreases items, 0
  {
    if |items| == 0 then [] else [Expected(s, items[0], e)] + ExpectedItems(s, items[1..], e)
  }

  /** The constructor arguments: properties first, then fields unless only
      properties were written, each at the parameter its name matches. */
  function ExpectedArgs(s: D.Settings, v: Value, d: Descriptor, c: nat): seq<Value>
    requires v.Obj? && d.Class? && Conforms(v, d) && c < |d.ctors|
    decreases v, 0
  {
    var params := d.ctors[c].params;
    var afterProps := PlaceMembers(s, M.Nulls(|params|), params, v.properties, d.properties);
    if s.propertiesOnly then afterProps
    else PlaceMembers(s, afterProps, params, v.fields, d.fields)
  }

  /** What the decoder stores for a written member: a member whose type
      has a registered handler reaches its byte-array parameter as the
      handler's bytes (or as an empty array when null); any other member
      as its own expected value. */
  function ExpectedMember(s: D.Settings, v: Value, m: Member): Value
    requires Conforms(v, m.desc)
    decreases v, 2
  {
    if m.desc !in s.handlers then Expected(s, v, m.desc)
    else if v.Null? then Bytes([])
    else Bytes(s.handlers[m.desc](v))
  }

  /** Each included member, in order, overwrites the argument at the
      position of the first parameter its name matches. */
  function PlaceMembers(s: D.Settings, args: seq<Value>, params: seq<Param>, vals: seq<Value>, members: seq<Member>)
    : (r: seq<Value>)
    requires MembersConform(vals, members) && |args| == |params|
    ensures |r| == |args|
    decreases vals, 0
  {
    if |vals| == 0 then args
    else
      var next :=
        if members[0].ignored then args
        else match M.FindParam(params, Bytes(members[0].name))
          case None => args
          case Some(j) => args[j := ExpectedMember(s, vals[0], members[0])];
      PlaceMembers(s, next, params, vals[1..], members[1..])
  }

  /** The values whose round trip is exact up to Expected. A value whose
      type has a registered handler is written as the handler's bytes,
      which only a byte-array parameter reads back (MemberDecodable); list
      elements must survive the cast to the element type. */
  predicate Decodable(s: D.Settings, v: Value, d: Descriptor)
    requires Conforms(v, d)
    decreases v, 1
  {
    (d in s.handlers ==> v.Null?) &&
    match d
    case Prim(k) => v.Null? || Supported(k)
    case Str => v.Bytes? ==> LengthOk(s, SequenceKind, |v.data|)
    case RawBytes => v.Bytes? ==> LengthOk(s, SequenceKind, |v.data|)
    case Enum => true
    case List(e) =>
      v.Array? ==>
        && LengthOk(s, ArrayKind, |v.items|)
        && forall i | 0 <= i < |v.items| :: Decodable(s, v.items[i], e) && M.Unboxes(e, Expected(s, v.items[i], e))
    case Class(_, props, fields, ctors) =>
      && M.SelectCtor(ctors).Ok?
      && (var params := ctors[M.SelectCtor(ctors).value].params;
          && (v.Null? ==> |params| == 0)
          && (v.Obj? ==>
                && D.EntryCount(s, d) == |params|
                && LengthOk(s, DictionaryKind, |params|)
                && MembersDecodable(s, params, v.properties, props)
                && (!s.propertiesOnly ==> MembersDecodable(s, params, v.fields, fields))))
    case _ => false
  }

  predicate MembersDecodable(s: D.Settings, params: seq<Param>, vals: seq<Value>, members: seq<Member>)
    requires MembersConform(vals, members)
    decreases vals, 0
  {
    forall i | 0 <= i < |vals| :: !members[i].ignored ==> MemberDecodable(s, params, vals[i], members[i])
  }

  /** A written member: a non-empty name that some parameter matches. That
      parameter has the member's type and the value is decodable, or, when
      the member's type has a handler, the parameter is a byte array and
      the handler's bytes fit a Sequence. */
  predicate MemberDecodable(s: D.Settings, params: seq<Param>, v: Value, m: Member)
    requires Conforms(v, m.desc)
    decreases v, 2
  {
    && 0 < |m.name|
    && LengthOk(s, SequenceKind, |m.name|)
    && M.FindParam(params, Bytes(m.name)).Some?
    && var p := params[M.FindParam(params, Bytes(m.name)).value].desc;
       if m.desc in s.handlers then
         p == RawBytes && (!v.Null? ==> LengthOk(s, SequenceKind, |s.handlers[m.desc](v)|))
       else
         p == m.desc && Decodable(s, v, m.desc)
  }

  /** A decodable list of enums is empty, and a decodable list of
      primitives holds no null: anything else fails the element cast. */
  lemma DecodableListCases(s: D.Settings, v: Value, e: Descriptor)
    requires Conforms(v, List(e)) && v.Array? && Decodable(s, v, List(e))
    ensures e.Enum? ==> v.items == []
    ensures e.Prim? ==> forall i | 0 <= i < |v.items| :: !v.items[i].Null?
  {
    if e.Prim? {
      forall i | 0 <= i < |v.items|
        ensures !v.items[i].Null?
      {
        assert M.Unboxes(e, Expected(s, v.items[i], e));
      }
    }
    if |v.items| > 0 {
      assert M.Unboxes(e, Expected(s, v.items[0], e));
    }
  }

  /** A length header reads back as the mark and the length it was
      written for. */
  lemma HeaderRoundTrip(s: D.Settings, k: Kind, n: nat, rest: seq<byte>)
    requires LengthOk(s, k, n)
    ensures D.LengthHeader(s.mode, k, n).Ok?
    ensures M.ReadHeader(D.LengthHeader(s.mode, k, n).value + rest)
         == Ok(M.Parsed(M.Header(GetMarkForLength(k, n), n), rest))
  {
    var mark := GetMarkForLength(k, n);
    var h := D.LengthHeader(s.mode, k, n).value;
    var input := h + rest;
    if n <= DirectMax(k) {
      assert h == [mark];
      if n > 0 {
        DirectRoundTrip(k, n);
      }
      assert input[1..] == rest;
    } else {
      assert s.mode == D.Corrected;
      EscapeWidthIsSmallest(k, n);
      Pow256Values();
      var w := GetLength(mark).length;
      assert h == D.WriteLengthHeader(mark, n);
      D.LengthHeaderHoldsLength(mark, n);
      assert input[1..1 + w] == h[1..];
      assert input[1 + w..] == rest;
    }
  }

  /** WriteSequence and ReadSequence are inverse. */
  lemma SequenceRoundTrip(s: D.Settings, payload: seq<byte>, rest: seq<byte>)
    requires LengthOk(s, SequenceKind, |payload|)
    ensures D.WriteSequence(s.mode, payload).Ok?
    ensures M.ReadSequence(D.WriteSequence(s.mode, payload).value + rest) == Ok(M.Parsed(payload, rest))
  {
    HeaderRoundTrip(s, SequenceKind, |payload|, payload + rest);
    var h := D.LengthHeader(s.mode, SequenceKind, |payload|).value;
    assert D.WriteSequence(s.mode, payload).value + rest == h + (payload + rest);
    assert (payload + rest)[..|payload|] == payload;
    assert (payload + rest)[|payload|..] == rest;
  }

  /** The setting under which the round trip is stated: the same enum
      width on both sides, and streams that can be written, sought and
      read. */
  predicate Compatible(s: D.Settings, ms: M.Settings, sink: D.Sink, src: M.Source)
  {
    && ms.longEnums == s.longEnums
    && sink.canWrite && sink.canSeek && src.canRead
  }

  /** Decoding the encoding of v, followed by anything, gives back
      Expected(v) and stops exactly where the encoding ends. */
  lemma {:induction false} RoundTripValue(s: D.Settings, ms: M.Settings, sink: D.Sink, src: M.Source,
                                          v: Value, d: Descriptor, rest: seq<byte>)
    requires Compatible(s, ms, sink, src)
    requires Conforms(v, d) && Decodable(s, v, d)
    ensures D.Serialize(s, sink, v, d).Ok?
    ensures M.Deserialize(ms, src, D.Serialize(s, sink, v, d).value + rest, d)
         == Ok(M.Parsed(Expected(s, v, d), rest))
    decreases v, 2
  {
    if v.Null? {
      RoundTripNull(s, ms, sink, src, d, rest);
    } else if d.Enum? {
      RoundTripEnum(s, ms, sink, src, v, d, rest);
    } else if d.List? {
      RoundTripList(s, ms, sink, src, v, d, rest);
    } else if d.Class? {
      RoundTripClass(s, ms, sink, src, v, d, rest);
    } else {
      RoundTripBytes(s, ms, sink, src, v, d, rest);
    }
  }

  /** A written member's value reads back, with the type of the parameter
      its name matches, as ExpectedMember. */
  lemma RoundTripMemberValue(s: D.Settings, ms: M.Settings, sink: D.Sink, src: M.Source,
                             params: seq<Param>, v: Value, m: Member, rest: seq<byte>)
    requires Compatible(s, ms, sink, src)
    requires Conforms(v, m.desc) && MemberDecodable(s, params, v, m)
    ensures D.Serialize(s, sink, v, m.desc).Ok?
    ensures M.Deserialize(ms, src, D.Serialize(s, sink, v, m.desc).value + rest,
                          params[M.FindParam(params, Bytes(m.name)).value].desc)
         == Ok(M.Parsed(ExpectedMember(s, v, m), rest))
    decreases v, 3
  {
    if m.desc !in s.handlers {
      RoundTripValue(s, ms, sink, src, v, m.desc, rest);
    } else if v.Null? {
      NullDecoding(ms, src, RawBytes, rest);
    } else {
      SequenceRoundTrip(s, s.handlers[m.desc](v), rest);
    }
  }

  /** Deserialize<T>: the round trip completes exactly when the decoded
      value survives the cast to T; otherwise the cast fails. */
  lemma RoundTripAs(s: D.Settings, ms: M.Settings, sink: D.Sink, src: M.Source,
                    v: Value, d: Descriptor, rest: seq<byte>)
    requires Compatible(s, ms, sink, src)
    requires Conforms(v, d) && Decodable(s, v, d)
    ensures D.Serialize(s, sink, v, d).Ok?
    ensures M.Unboxes(d, Expected(s, v, d)) ==>
      M.DeserializeAs(ms, src, D.Serialize(s, sink, v, d).value + rest, d) == Ok(M.Parsed(Expected(s, v, d), rest))
    ensures !M.Unboxes(d, Expected(s, v, d)) ==>
      M.DeserializeAs(ms, src, D.Serialize(s, sink, v, d).value + rest, d) == Err(InvalidCast)
  {
    RoundTripValue(s, ms, sink, src, v, d, rest);
  }

  /** The null mark, read back per target type: null for primitives,
      strings and enums, an empty array for byte arrays and lists, and for
      a class the parameterless construction; a class whose constructor
      takes parameters cannot be rebuilt from null. */
  lemma NullDecoding(ms: M.Settings, src: M.Source, d: Descriptor, rest: seq<byte>)
    requires src.canRead
    ensures M.Deserialize(ms, src, [NullMark] + rest, d)
         == match d
            case Prim(_) => Ok(M.Parsed(Null, rest))
            case Str => Ok(M.Parsed(Null, rest))
            case RawBytes => Ok(M.Parsed(Bytes([]), rest))
            case Enum => Ok(M.Parsed(Null, rest))
            case List(_) => Ok(M.Parsed(Array([]), rest))
            case Class(_, _, _, ctors) =>
              (match M.SelectCtor(ctors)
               case Err(e) => Err(e)
               case Ok(c) =>
                 if |ctors[c].params| == 0 then Ok(M.Parsed(Constructed(c, []), rest))
                 else Err(ParamCountMismatch))
            case _ => Err(Unsupported)
  {
    DropFirst(NullMark, rest);
    assert M.ReadHeader([NullMark] + rest) == Ok(M.Parsed(M.Header(NullMark, 0), rest));
  }

  lemma RoundTripNull(s: D.Settings, ms: M.Settings, sink: D.Sink, src: M.Source, d: Descriptor, rest: seq<byte>)
    requires Compatible(s, ms, sink, src)
    requires Decodable(s, Null, d)
    ensures D.Serialize(s, sink, Null, d) == Ok([NullMark])
    ensures M.Deserialize(ms, src, [NullMark] + rest, d) == Ok(M.Parsed(Expected(s, Null, d), rest))
  {
    NullDecoding(ms, src, d, rest);
  }

  /** Primitives, strings and byte arrays: one Sequence. */
  lemma RoundTripBytes(s: D.Settings, ms: M.Settings, sink: D.Sink, src: M.Source,
                       v: Value, d: Descriptor, rest: seq<byte>)
    requires Compatible(s, ms, sink, src)
    requires v.Bytes? && (d.Prim? || d.Str? || d.RawBytes?) && Conforms(v, d) && Decodable(s, v, d)
    ensures D.Serialize(s, sink, v, d) == D.WriteSequence(s.mode, v.data)
    ensures D.Serialize(s, sink, v, d).Ok?
    ensures M.Deserialize(ms, src, D.Serialize(s, sink, v, d).value + rest, d)
         == Ok(M.Parsed(Expected(s, v, d), rest))
  {
    if d.Prim? {
      assert LengthOk(s, SequenceKind, |v.data|);
      assert M.Interpret(d.kind, v.data) == v.data;
    }
    SequenceRoundTrip(s, v.data, rest);
  }

  /** Enums: the number truncated to an unsigned short or a byte. */
  lemma RoundTripEnum(s: D.Settings, ms: M.Settings, sink: D.Sink, src: M.Source,
                      v: Value, d: Descriptor, rest: seq<byte>)
    requires Compatible(s, ms, sink, src)
    requires v.EnumValue? && d.Enum? && Conforms(v, d) && d !in s.handlers
    ensures D.Serialize(s, sink, v, d).Ok?
    ensures M.Deserialize(ms, src, D.Serialize(s, sink, v, d).value + rest, d)
         == Ok(M.Parsed(Expected(s, v, d), rest))
  {
    Pow256Values();
    var n := v.number % EnumRange(s);
    var bytes := if s.longEnums then ToLE(v.number % 0x1_0000, 2) else ToLE(v.number % 0x100, 1);
    assert D.Serialize(s, sink, v, d) == D.WriteSequence(s.mode, bytes);
    SequenceRoundTrip(s, bytes, rest);
    LERoundTrip(n, |bytes|);
    assert M.Interpret(if s.longEnums then UShort else Byte, bytes) == bytes;
  }

  lemma {:induction false} RoundTripList(s: D.Settings, ms: M.Settings, sink: D.Sink, src: M.Source,
                                         v: Value, d: Descriptor, rest: seq<byte>)
    requires Compatible(s, ms, sink, src)
    requires v.Array? && d.List? && Conforms(v, d) && Decodable(s, v, d)
    ensures D.Serialize(s, sink, v, d).Ok?
    ensures M.Deserialize(ms, src, D.Serialize(s, sink, v, d).value + rest, d)
         == Ok(M.Parsed(Expected(s, v, d), rest))
    decreases v, 1
  {
    var items := v.items;
    var n := |items|;
    RoundTripItems(s, ms, sink, src, items, d.elem, rest);
    var body := D.SerializeItems(s, sink, items, d.elem).value;
    EncodeListStep(s, sink, v, d);
    var h := D.LengthHeader(s.mode, ArrayKind, n).value;
    HeaderRoundTrip(s, ArrayKind, n, body + rest);
    Assoc(h, body, rest);
    if n == 0 {
      assert body == [];
    }
    DecodeEnumerableStep(ms, src, h + (body + rest), d, M.Header(GetMarkForLength(ArrayKind, n), n),
                         body + rest, ExpectedItems(s, items, d.elem), rest);
  }

  lemma {:induction false} RoundTripItems(s: D.Settings, ms: M.Settings, sink: D.Sink, src: M.Source,
                                          items: seq<Value>, e: Descriptor, rest: seq<byte>)
    requires Compatible(s, ms, sink, src)
    requires forall i | 0 <= i < |items| :: Conforms(items[i], e) && Decodable(s, items[i], e)
    requires forall i | 0 <= i < |items| :: M.Unboxes(e, Expected(s, items[i], e))
    ensures D.SerializeItems(s, sink, items, e).Ok?
    ensures M.DeserializeItems(ms, src, D.SerializeItems(s, sink, items, e).value + rest, List(e), |items|)
         == Ok(M.Parsed(ExpectedItems(s, items, e), rest))
    decreases items, 0
  {
    if |items| == 0 {
      EmptyPrefix(rest);
    } else {
      var tail := items[1..];
      assert forall i | 0 <= i < |tail| :: tail[i] == items[i + 1];
      RoundTripItems(s, ms, sink, src, tail, e, rest);
      var tailBytes := D.SerializeItems(s, sink, tail, e).value;
      RoundTripValue(s, ms, sink, src, items[0], e, tailBytes + rest);
      var headBytes := D.Serialize(s, sink, items[0], e).value;
      EncodeItemsStep(s, sink, items, e);
      Assoc(headBytes, tailBytes, rest);
      DecodeItemsStep(ms, src, headBytes + (tailBytes + rest), e, |items|, |tail|, Expected(s, items[0], e),
                      tailBytes + rest, ExpectedItems(s, tail, e), rest);
    }
  }

  /** A class whose members are all ignored writes no entries. */
  lemma {:induction false} AllIgnoredWritesNothing(s: D.Settings, sink: D.Sink, vals: seq<Value>, members: seq<Member>)
    requires MembersConform(vals, members) && IncludedCount(members) == 0
    ensures D.SerializeMembers(s, sink, vals, members) == Ok([])
    decreases vals
  {
    if |vals| > 0 {
      assert forall i | 0 <= i < |vals| - 1 :: vals[1..][i] == vals[i + 1] && members[1..][i] == members[i + 1];
      AllIgnoredWritesNothing(s, sink, vals[1..], members[1..]);
      EncodeIgnoredStep(s, sink, vals, members);
    }
  }

  lemma {:induction false} RoundTripClass(s: D.Settings, ms: M.Settings, sink: D.Sink, src: M.Source,
                                          v: Value, d: Descriptor, rest: seq<byte>)
    requires Compatible(s, ms, sink, src)
    requires v.Obj? && d.Class? && Conforms(v, d) && Decodable(s, v, d)
    ensures D.Serialize(s, sink, v, d).Ok?
    ensures M.Deserialize(ms, src, D.Serialize(s, sink, v, d).value + rest, d)
         == Ok(M.Parsed(Expected(s, v, d), rest))
    decreases v, 1
  {
    var c := M.SelectCtor(d.ctors).value;
    var params := d.ctors[c].params;
    var count := D.EntryCount(s, d);
    var nulls := M.Nulls(|params|);
    if |params| == 0 {
      AllIgnoredWritesNothing(s, sink, v.properties, d.properties);
      if !s.propertiesOnly {
        AllIgnoredWritesNothing(s, sink, v.fields, d.fields);
      }
    } else {
      RoundTripMembers(s, ms, sink, src, d, c, v.properties, d.properties, nulls, IncludedCount(d.properties), 0, []);
      if !s.propertiesOnly {
        RoundTripMembers(s, ms, sink, src, d, c, v.fields, d.fields, nulls, IncludedCount(d.fields), 0, []);
      }
    }
    EncodeClassStep(s, sink, v, d);
    var body := ClassBody(s, sink, v, d);
    var h := D.LengthHeader(s.mode, DictionaryKind, count).value;
    HeaderRoundTrip(s, DictionaryKind, count, body + rest);
    Assoc(h, body, rest);
    var header := M.Header(GetMarkForLength(DictionaryKind, count), count);
    if |params| == 0 {
      assert body == [];
      DecodeClassStep(ms, src, h + (body + rest), d, c, header, body + rest, [], rest);
    } else {
      ClassEntriesRoundTrip(s, ms, sink, src, v, d, c, rest);
      DecodeClassStep(ms, src, h + (body + rest), d, c, header, body + rest, ExpectedArgs(s, v, d, c), rest);
    }
  }

  /** The entries of a class with a parameterised constructor read back
      as ExpectedArgs. */
  lemma ClassEntriesRoundTrip(s: D.Settings, ms: M.Settings, sink: D.Sink, src: M.Source,
                              v: Value, d: Descriptor, c: nat, rest: seq<byte>)
    requires Compatible(s, ms, sink, src)
    requires v.Obj? && d.Class? && Conforms(v, d) && Decodable(s, v, d)
    requires M.SelectCtor(d.ctors) == Ok(c) && |d.ctors[c].params| > 0
    ensures D.SerializeMembers(s, sink, v.properties, d.properties).Ok?
    ensures !s.propertiesOnly ==> D.SerializeMembers(s, sink, v.fields, d.fields).Ok?
    ensures M.DeserializeEntries(ms, src, ClassBody(s, sink, v, d) + rest, d, c, D.EntryCount(s, d),
                                 M.Nulls(|d.ctors[c].params|))
         == Ok(M.Parsed(ExpectedArgs(s, v, d, c), rest))
    decreases v, 0
  {
    var params := d.ctors[c].params;
    var nulls := M.Nulls(|params|);
    var afterProps := PlaceMembers(s, nulls, params, v.properties, d.properties);
    if s.propertiesOnly {
      RoundTripMembers(s, ms, sink, src, d, c, v.properties, d.properties, nulls, D.EntryCount(s, d), 0, rest);
    } else {
      RoundTripMembers(s, ms, sink, src, d, c, v.fields, d.fields, afterProps, IncludedCount(d.fields), 0, rest);
      var fEnc := D.SerializeMembers(s, sink, v.fields, d.fields).value;
      RoundTripMembers(s, ms, sink, src, d, c, v.properties, d.properties, nulls,
                       D.EntryCount(s, d), IncludedCount(d.fields), fEnc + rest);
      var pEnc := D.SerializeMembers(s, sink, v.properties, d.properties).value;
      Assoc(pEnc, fEnc, rest);
    }
  }

  /** Splitting a member list into its head and tail keeps both halves
      conforming and decodable, and the head adds one entry if written. */
  lemma MembersTail(s: D.Settings, params: seq<Param>, vals: seq<Value>, members: seq<Member>)
    requires MembersConform(vals, members) && MembersDecodable(s, params, vals, members) && |vals| > 0
    ensures Conforms(vals[0], members[0].desc)
    ensures !members[0].ignored ==> MemberDecodable(s, params, vals[0], members[0])
    ensures MembersConform(vals[1..], members[1..]) && MembersDecodable(s, params, vals[1..], members[1..])
    ensures IncludedCount(members) == (if members[0].ignored then 0 else 1) + IncludedCount(members[1..])
  {
    assert forall i | 0 <= i < |vals| - 1 :: vals[1..][i] == vals[i + 1] && members[1..][i] == members[i + 1];
  }

  lemma PlaceIgnoredStep(s: D.Settings, args: seq<Value>, params: seq<Param>, vals: seq<Value>, members: seq<Member>)
    requires MembersConform(vals, members) && |args| == |params| && |vals| > 0 && members[0].ignored
    ensures PlaceMembers(s, args, params, vals, members) == PlaceMembers(s, args, params, vals[1..], members[1..])
  {
  }

  lemma PlaceFoundStep(s: D.Settings, args: seq<Value>, params: seq<Param>, vals: seq<Value>, members: seq<Member>, j: nat)
    requires MembersConform(vals, members) && |args| == |params| && |vals| > 0 && !members[0].ignored
    requires M.FindParam(params, Bytes(members[0].name)) == Some(j)
    ensures j < |args|
    ensures PlaceMembers(s, args, params, vals, members)
         == PlaceMembers(s, args[j := ExpectedMember(s, vals[0], members[0])], params, vals[1..], members[1..])
  {
  }

  /** The entries a member list writes are read back into the constructor
      arguments exactly as PlaceMembers places them: a decoder expecting k
      entries, k being these plus n more, is left expecting the next n. */
  lemma {:induction false} RoundTripMembers(s: D.Settings, ms: M.Settings, sink: D.Sink, src: M.Source,
                                            d: Descriptor, c: nat, vals: seq<Value>, members: seq<Member>,
                                            args: seq<Value>, k: nat, n: nat, rest: seq<byte>)
    requires Compatible(s, ms, sink, src)
    requires d.Class? && c < |d.ctors| && |args| == |d.ctors[c].params|
    requires MembersConform(vals, members) && MembersDecodable(s, d.ctors[c].params, vals, members)
    requires k == IncludedCount(members) + n
    ensures D.SerializeMembers(s, sink, vals, members).Ok?
    ensures M.DeserializeEntries(ms, src, D.SerializeMembers(s, sink, vals, members).value + rest, d, c, k, args)
         == M.DeserializeEntries(ms, src, rest, d, c, n, PlaceMembers(s, args, d.ctors[c].params, vals, members))
    decreases vals, 1
  {
    var params := d.ctors[c].params;
    if |vals| == 0 {
      AllIgnoredWritesNothing(s, sink, vals, members);
      EmptyPrefix(rest);
      assert k == n;
    } else {
      var m := members[0];
      var tailVals := vals[1..];
      var tailMembers := members[1..];
      MembersTail(s, params, vals, members);
      if m.ignored {
        RoundTripMembers(s, ms, sink, src, d, c, tailVals, tailMembers, args, k, n, rest);
        EncodeIgnoredStep(s, sink, vals, members);
        PlaceIgnoredStep(s, args, params, vals, members);
      } else {
        var j := M.FindParam(params, Bytes(m.name)).value;
        var x := ExpectedMember(s, vals[0], m);
        var k' := k - 1;
        var args' := args[j := x];
        RoundTripMembers(s, ms, sink, src, d, c, tailVals, tailMembers, args', k', n, rest);
        WrittenMemberStep(s, ms, sink, src, d, c, vals, members, args, k, k', n, j, x, args',
                          D.SerializeMembers(s, sink, tailVals, tailMembers).value, rest);
      }
    }
  }

  /** One written member in front of the rest of the member list: its
      entry is decoded into parameter j, and the decoder continues with
      the rest. */
  lemma WrittenMemberStep(s: D.Settings, ms: M.Settings, sink: D.Sink, src: M.Source,
                          d: Descriptor, c: nat, vals: seq<Value>, members: seq<Member>,
                          args: seq<Value>, k: nat, k': nat, n: nat, j: nat, x: Value, args': seq<Value>,
                          tailEnc: seq<byte>, rest: seq<byte>)
    requires Compatible(s, ms, sink, src)
    requires d.Class? && c < |d.ctors| && |args| == |d.ctors[c].params| && k == k' + 1
    requires MembersConform(vals, members) && |vals| > 0 && !members[0].ignored
    requires M.FindParam(d.ctors[c].params, Bytes(members[0].name)) == Some(j) && j < |args| && args' == args[j := x]
    requires D.SerializeMembers(s, sink, vals[1..], members[1..]) == Ok(tailEnc)
    requires M.DeserializeEntries(ms, src, tailEnc + rest, d, c, k', args')
          == M.DeserializeEntries(ms, src, rest, d, c, n, PlaceMembers(s, args', d.ctors[c].params, vals[1..], members[1..]))
    requires x == ExpectedMember(s, vals[0], members[0])
    requires MemberDecodable(s, d.ctors[c].params, vals[0], members[0])
    ensures D.SerializeMembers(s, sink, vals, members).Ok?
    ensures M.DeserializeEntries(ms, src, D.SerializeMembers(s, sink, vals, members).value + rest, d, c, k, args)
         == M.DeserializeEntries(ms, src, rest, d, c, n, PlaceMembers(s, args, d.ctors[c].params, vals, members))
    decreases vals, 0
  {
    var params := d.ctors[c].params;
    var m := members[0];
    assert |args'| == |params|;
    RoundTripMemberValue(s, ms, sink, src, params, vals[0], m, tailEnc + rest);
    var valEnc := D.Serialize(s, sink, vals[0], m.desc).value;
    SequenceRoundTrip(s, m.name, valEnc + (tailEnc + rest));
    var nameEnc := D.WriteSequence(s.mode, m.name).value;
    assert D.SerializeMembers(s, sink, vals, members) == Ok(nameEnc + valEnc + tailEnc) by {
      EncodeMemberStep(s, sink, vals[0], m);
      EncodeMembersStep(s, sink, vals, members);
    }
    calc {
      M.DeserializeEntries(ms, src, D.SerializeMembers(s, sink, vals, members).value + rest, d, c, k, args);
      M.DeserializeEntries(ms, src, nameEnc + valEnc + tailEnc + rest, d, c, k, args);
      { WrittenEntryStep(ms, src, d, c, nameEnc, valEnc, tailEnc, rest, k, k', args, args', m.name, j, x); }
      M.DeserializeEntries(ms, src, tailEnc + rest, d, c, k', args');
      M.DeserializeEntries(ms, src, rest, d, c, n, PlaceMembers(s, args', params, vals[1..], members[1..]));
      { PlaceFoundStep(s, args, params, vals, members, j); }
      M.DeserializeEntries(ms, src, rest, d, c, n, PlaceMembers(s, args, params, vals, members));
    }
  }

  /** The entry a member writes is consumed by one step of the reader,
      which stores the decoded value at the matched parameter. */
  lemma WrittenEntryStep(ms: M.Settings, src: M.Source, d: Descriptor, c: nat,
                         nameEnc: seq<byte>, valEnc: seq<byte>, tailEnc: seq<byte>, rest: seq<byte>,
                         k: nat, k': nat, args: seq<Value>, args': seq<Value>, name: seq<byte>, j: nat, x: Value)
    requires d.Class? && c < |d.ctors| && |args| == |d.ctors[c].params| && k == k' + 1
    requires M.ReadSequence(nameEnc + (valEnc + (tailEnc + rest))) == Ok(M.Parsed(name, valEnc + (tailEnc + rest)))
    requires |name| > 0 && M.FindParam(d.ctors[c].params, Bytes(name)) == Some(j)
    requires M.Deserialize(ms, src, valEnc + (tailEnc + rest), d.ctors[c].params[j].desc) == Ok(M.Parsed(x, tailEnc + rest))
    requires args' == args[j := x]
    ensures |args'| == |args|
    ensures M.DeserializeEntries(ms, src, nameEnc + valEnc + tailEnc + rest, d, c, k, args)
         == M.DeserializeEntries(ms, src, tailEnc + rest, d, c, k', args')
  {
    Assoc(nameEnc + valEnc, tailEnc, rest);
    Assoc(nameEnc, valEnc, tailEnc + rest);
    DecodeEntryStep(ms, src, nameEnc + (valEnc + (tailEnc + rest)), d, c, k, args,
                    name, valEnc + (tailEnc + rest), j, x, tailEnc + rest);
  }
}
