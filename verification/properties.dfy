/** Facts about single operations of the encoder and the decoder that the
    round-trip theorem does not already state: failure order, the byte
    layout of primitives and enums, what ignored members and the
    properties-only switch leave out, and the decoder's error cases. */
module Properties {
  import opened LittleEndian
  import opened Results
  import opened ByteMarkUtils
  import opened Shapes
  import D = BsfDumper
  import M = BsfMapper
  import opened Steps

  /** An unwritable sink fails for every value, before any byte. */
  lemma NotWritableFails(s: D.Settings, sink: D.Sink, v: Value, d: Descriptor)
    requires Conforms(v, d) && !sink.canWrite
    ensures D.Serialize(s, sink, v, d) == Err(NotWritable)
  {
  }

  /** A sink that cannot seek fails for every non-null collection or class
      (their headers are back-patched), but not for anything else. */
  lemma NotSeekableFails(s: D.Settings, sink: D.Sink, v: Value, d: Descriptor)
    requires Conforms(v, d) && sink.canWrite && !sink.canSeek && !v.Null? && d !in s.handlers
    ensures d.List? || d.Class? ==> D.Serialize(s, sink, v, d) == Err(NotSeekable)
    ensures d.Prim? || d.Str? || d.RawBytes? || d.Enum? ==> D.Serialize(s, sink, v, d) != Err(NotSeekable)
  {
  }

  /** A supported primitive is one Sequence: its width as the mark, then
      its bytes; an unsupported one fails. */
  lemma PrimitiveLayout(s: D.Settings, sink: D.Sink, v: Value, k: PrimKind)
    requires sink.canWrite && Prim(k) !in s.handlers
    requires v.Bytes? && Conforms(v, Prim(k))
    ensures Supported(k) ==> D.Serialize(s, sink, v, Prim(k)) == Ok([PrimWidth(k) as byte] + v.data)
    ensures !Supported(k) ==> D.Serialize(s, sink, v, Prim(k)) == Err(Unsupported)
    ensures D.Serialize(s, sink, v, Prim(k)).Ok? ==> |D.Serialize(s, sink, v, Prim(k)).value| == 1 + PrimWidth(k)
  {
  }

  /** Entry i of a dictionary: its key and its value both encode. */
  predicate EntryWrites(s: D.Settings, sink: D.Sink, v: Value, d: Descriptor, i: nat)
    requires v.Dict? && d.Map? && Conforms(v, d) && i < |v.entries|
  {
    && EntryConforms(v, i, d)
    && D.Serialize(s, sink, v.entries[i].key, d.key).Ok?
    && D.Serialize(s, sink, v.entries[i].value, d.val).Ok?
  }

  /** The first n entries of a dictionary as the format lays them out:
      each entry is its key's encoding followed by its value's. */
  function EntriesWritten(s: D.Settings, sink: D.Sink, v: Value, d: Descriptor, n: nat): seq<byte>
    requires v.Dict? && d.Map? && Conforms(v, d) && n <= |v.entries|
    requires forall i | 0 <= i < n :: EntryWrites(s, sink, v, d, i)
  {
    if n == 0 then []
    else
      assert EntryWrites(s, sink, v, d, n - 1);
      EntriesWritten(s, sink, v, d, n - 1)
        + D.Serialize(s, sink, v.entries[n - 1].key, d.key).value
        + D.Serialize(s, sink, v.entries[n - 1].value, d.val).value
  }

  /** A dictionary is its Dictionary length header, written first, then
      key and value of each entry in order. No seek is involved: the
      layout holds for a sink that cannot seek as well. */
  lemma DictionaryLayout(s: D.Settings, sink: D.Sink, v: Value, d: Descriptor)
    requires sink.canWrite && d !in s.handlers && v.Dict? && d.Map? && Conforms(v, d)
    requires D.LengthHeader(s.mode, DictionaryKind, |v.entries|).Ok?
    requires forall i | 0 <= i < |v.entries| :: EntryWrites(s, sink, v, d, i)
    ensures D.Serialize(s, sink, v, d)
         == Ok(D.LengthHeader(s.mode, DictionaryKind, |v.entries|).value + EntriesWritten(s, sink, v, d, |v.entries|))
  {
    EntriesLayout(s, sink, v, d, 0);
    assert EntriesWritten(s, sink, v, d, 0) == [];
    assert [] + D.SerializeEntries(s, sink, v, d, 0).value == D.SerializeEntries(s, sink, v, d, 0).value;
  }

  lemma {:induction false} EntriesLayout(s: D.Settings, sink: D.Sink, v: Value, d: Descriptor, i: nat)
    requires v.Dict? && d.Map? && Conforms(v, d) && i <= |v.entries|
    requires forall j | 0 <= j < |v.entries| :: EntryWrites(s, sink, v, d, j)
    ensures D.SerializeEntries(s, sink, v, d, i).Ok?
    ensures EntriesWritten(s, sink, v, d, i) + D.SerializeEntries(s, sink, v, d, i).value
         == EntriesWritten(s, sink, v, d, |v.entries|)
    decreases |v.entries| - i
  {
    if i < |v.entries| {
      EntriesLayout(s, sink, v, d, i + 1);
      assert D.SerializeEntries(s, sink, v, d, i).Ok? by {
        EntriesStep(s, sink, v, d, i);
      }
      assert EntriesWritten(s, sink, v, d, i) + D.SerializeEntries(s, sink, v, d, i).value
          == EntriesWritten(s, sink, v, d, |v.entries|) by {
        assert EntryWrites(s, sink, v, d, i);
        var key := D.Serialize(s, sink, v.entries[i].key, d.key).value;
        var value := D.Serialize(s, sink, v.entries[i].value, d.val).value;
        var tail := D.SerializeEntries(s, sink, v, d, i + 1).value;
        EntriesStep(s, sink, v, d, i);
        WrittenStep(s, sink, v, d, i + 1);
        ConcatStep(EntriesWritten(s, sink, v, d, i), key, value, tail);
      }
    } else {
      assert EntriesWritten(s, sink, v, d, i) + [] == EntriesWritten(s, sink, v, d, i);
    }
  }

  lemma ConcatStep(before: seq<byte>, key: seq<byte>, value: seq<byte>, tail: seq<byte>)
    ensures before + (key + value + tail) == before + key + value + tail
  {
  }

  lemma WrittenStep(s: D.Settings, sink: D.Sink, v: Value, d: Descriptor, n: nat)
    requires v.Dict? && d.Map? && Conforms(v, d) && 0 < n <= |v.entries|
    requires forall i | 0 <= i < |v.entries| :: EntryWrites(s, sink, v, d, i)
    ensures EntryWrites(s, sink, v, d, n - 1)
    ensures EntriesWritten(s, sink, v, d, n)
         == EntriesWritten(s, sink, v, d, n - 1)
            + D.Serialize(s, sink, v.entries[n - 1].key, d.key).value
            + D.Serialize(s, sink, v.entries[n - 1].value, d.val).value
  {
  }

  lemma EntriesStep(s: D.Settings, sink: D.Sink, v: Value, d: Descriptor, i: nat)
    requires v.Dict? && d.Map? && Conforms(v, d) && i < |v.entries| && EntryWrites(s, sink, v, d, i)
    requires D.SerializeEntries(s, sink, v, d, i + 1).Ok?
    ensures D.SerializeEntries(s, sink, v, d, i)
         == Ok(D.Serialize(s, sink, v.entries[i].key, d.key).value
               + D.Serialize(s, sink, v.entries[i].value, d.val).value
               + D.SerializeEntries(s, sink, v, d, i + 1).value)
  {
  }

  /** An enum is written as its number truncated to an unsigned short
      (two little-endian bytes) when long enums are on, else to a byte. */
  lemma EnumLayout(s: D.Settings, sink: D.Sink, n: int)
    requires sink.canWrite && Enum !in s.handlers && Conforms(EnumValue(n), Enum)
    ensures s.longEnums ==>
      D.Serialize(s, sink, EnumValue(n), Enum) == Ok([2, (n % 256) as byte, ((n % 0x1_0000) / 256) as byte])
    ensures !s.longEnums ==> D.Serialize(s, sink, EnumValue(n), Enum) == Ok([1, (n % 256) as byte])
  {
    if s.longEnums {
      var u := n % 0x1_0000;
      ModOfMod(n);
      var bytes := ToLE(u, 2);
      assert ToLE(u / 256, 1) == [(u / 256) % 256] + ToLE(u / 256 / 256, 0);
      assert bytes == [(n % 256) as byte, (u / 256) as byte];
      assert D.Serialize(s, sink, EnumValue(n), Enum) == D.SerializePrimitive(s.mode, UShort, bytes);
      assert [2 as byte] + bytes == [2, (n % 256) as byte, (u / 256) as byte];
    } else {
      var bytes := ToLE(n % 0x100, 1);
      assert bytes == [(n % 256) as byte];
      assert D.Serialize(s, sink, EnumValue(n), Enum) == D.SerializePrimitive(s.mode, Byte, bytes);
      assert [1 as byte] + bytes == [1, (n % 256) as byte];
    }
  }

  /** Truncating to 16 bits keeps the low byte. */
  lemma ModOfMod(n: int)
    ensures (n % 0x1_0000) % 256 == n % 256
  {
    var q := n / 0x1_0000;
    assert n == 0x1_0000 * q + n % 0x1_0000;
    assert 0x1_0000 * q == 256 * (256 * q);
  }

  /** Changing the value of an ignored member does not change the bytes
      written for a member list. */
  lemma {:induction false} IgnoredMemberInvisible(s: D.Settings, sink: D.Sink, vals: seq<Value>, members: seq<Member>,
                                                  i: nat, x: Value)
    requires MembersConform(vals, members) && i < |vals| && members[i].ignored && Conforms(x, members[i].desc)
    ensures MembersConform(vals[i := x], members)
    ensures D.SerializeMembers(s, sink, vals[i := x], members) == D.SerializeMembers(s, sink, vals, members)
    decreases vals
  {
    var vals' := vals[i := x];
    if i == 0 {
      assert vals'[1..] == vals[1..];
      EncodeIgnoredStep(s, sink, vals, members);
      EncodeIgnoredStep(s, sink, vals', members);
    } else {
      assert vals'[1..] == vals[1..][i - 1 := x];
      IgnoredMemberInvisible(s, sink, vals[1..], members[1..], i - 1, x);
      assert vals'[0] == vals[0];
    }
  }

  /** With IncludePropertiesOnly the fields of a class write nothing: the
      bytes do not depend on them. */
  lemma PropertiesOnlyIgnoresFields(s: D.Settings, sink: D.Sink, props: seq<Value>, fields: seq<Value>,
                                    fields': seq<Value>, d: Descriptor)
    requires s.propertiesOnly && d.Class? && d !in s.handlers
    requires Conforms(Obj(props, fields), d) && MembersConform(fields', d.fields)
    ensures Conforms(Obj(props, fields'), d)
    ensures D.Serialize(s, sink, Obj(props, fields), d) == D.Serialize(s, sink, Obj(props, fields'), d)
  {
  }

  /** ReadSequence succeeds exactly when the header reads, is of Sequence
      kind (or null) and is followed by at least as many bytes as it
      announces; it then returns those bytes. */
  lemma ReadSequenceCases(input: seq<byte>)
    ensures M.ReadSequence(input).Ok? <==>
      && M.ReadHeader(input).Ok?
      && M.ReadHeader(input).value.value.mark < ArrayMark
      && M.ReadHeader(input).value.value.length <= |M.ReadHeader(input).value.rest|
    ensures M.ReadHeader(input).Ok? && M.ReadHeader(input).value.value.mark >= ArrayMark ==>
      M.ReadSequence(input) == Err(KindMismatch)
    ensures M.ReadSequence(input).Ok? ==>
      var h := M.ReadHeader(input).value;
      M.ReadSequence(input).value == M.Parsed(h.rest[..h.value.length], h.rest[h.value.length..])
  {
  }

  /** A zero-length Sequence, however its header is written, is null to a
      string or primitive target and never an empty value. */
  lemma EmptySequenceIsNull(ms: M.Settings, src: M.Source, input: seq<byte>, d: Descriptor)
    requires src.canRead && (d.Str? || d.Prim?)
    requires M.ReadSequence(input).Ok? && M.ReadSequence(input).value.value == []
    ensures M.Deserialize(ms, src, input, d) == Ok(M.Parsed(Null, M.ReadSequence(input).value.rest))
  {
  }

  /** The checks a class target makes, in order: the mark's band, then the
      preferred-constructor count, then that a constructor exists, then
      (for a constructor with parameters) the entry count. */
  lemma ClassDecodeErrors(ms: M.Settings, src: M.Source, input: seq<byte>, d: Descriptor)
    requires src.canRead && d.Class? && M.ReadHeader(input).Ok?
    ensures var h := M.ReadHeader(input).value.value;
      h.mark != NullMark && h.mark < DictionaryMark ==> M.Deserialize(ms, src, input, d) == Err(KindMismatch)
    ensures var h := M.ReadHeader(input).value.value;
      (h.mark == NullMark || h.mark >= DictionaryMark) ==>
        && ((exists i, j | 0 <= i < j < |d.ctors| :: d.ctors[i].preferred && d.ctors[j].preferred) ==>
              M.Deserialize(ms, src, input, d) == Err(ManyPreferred))
        && (|d.ctors| == 0 ==> M.Deserialize(ms, src, input, d) == Err(NoConstructor))
        && (M.SelectCtor(d.ctors).Ok? && |d.ctors[M.SelectCtor(d.ctors).value].params| != 0
            && |d.ctors[M.SelectCtor(d.ctors).value].params| != h.length ==>
              M.Deserialize(ms, src, input, d) == Err(ParamCountMismatch))
  {
  }

  /** A parameterless constructor is invoked at once: the entries after
      the header, whatever they are, are left unread. */
  lemma ParameterlessLeavesEntries(ms: M.Settings, src: M.Source, input: seq<byte>, d: Descriptor, c: nat)
    requires src.canRead && d.Class? && M.SelectCtor(d.ctors) == Ok(c) && |d.ctors[c].params| == 0
    requires M.ReadHeader(input).Ok?
    requires M.ReadHeader(input).value.value.mark == NullMark || M.ReadHeader(input).value.value.mark >= DictionaryMark
    ensures M.Deserialize(ms, src, input, d) == Ok(M.Parsed(Constructed(c, []), M.ReadHeader(input).value.rest))
  {
  }

  /** An entry whose name matches no parameter (or is empty, hence null)
      stops the decoding. */
  lemma UnknownNameFails(ms: M.Settings, src: M.Source, input: seq<byte>, d: Descriptor, c: nat, n: nat, args: seq<Value>)
    requires d.Class? && c < |d.ctors| && |args| == |d.ctors[c].params| && n > 0
    requires M.DeserializeString(input).Ok?
    requires M.FindParam(d.ctors[c].params, M.DeserializeString(input).value.value).None?
    ensures M.DeserializeEntries(ms, src, input, d, c, n, args) == Err(UnknownParam)
  {
  }

  /** A list target rejects a non-null mark outside the Array band, and
      reads the null mark as an empty list. */
  lemma ListDecodeMarks(ms: M.Settings, src: M.Source, input: seq<byte>, d: Descriptor)
    requires src.canRead && d.List? && M.ReadHeader(input).Ok?
    ensures var h := M.ReadHeader(input).value.value;
      h.mark != NullMark && !InBand(ArrayKind, h.mark) ==> M.Deserialize(ms, src, input, d) == Err(KindMismatch)
    ensures M.ReadHeader(input).value.value.mark == NullMark ==>
      M.Deserialize(ms, src, input, d) == Ok(M.Parsed(Array([]), M.ReadHeader(input).value.rest))
  {
  }
}
