/** One-step unfoldings of the encoder and the decoder. Each lemma states
    what one construct of the wire format contributes, so that the
    round-trip proofs can compose them without re-deriving the definitions. */
module Steps {
  import opened LittleEndian
  import opened Results
  import opened ByteMarkUtils
  import opened Shapes
  import D = BsfDumper
  import M = BsfMapper

  lemma Assoc(a: seq<byte>, b: seq<byte>, c: seq<byte>)
    ensures a + b + c == a + (b + c)
  {
  }

  lemma EmptyPrefix(rest: seq<byte>)
    ensures [] + rest == rest
  {
  }

  lemma DropFirst(x: byte, rest: seq<byte>)
    ensures ([x] + rest)[1..] == rest
  {
  }

  /** The header a back-patched collection ends up with is the plain length
      header in front of the body, unless the code as written overwrites. */
  lemma BackpatchPrefix(mode: D.HeaderMode, k: Kind, count: nat, body: seq<byte>)
    requires count <= |body| && (mode == D.Corrected || count <= DirectMax(k))
    ensures D.LengthHeader(mode, k, count).Ok?
    ensures D.Backpatch(mode, k, count, body) == Ok(D.LengthHeader(mode, k, count).value + body)
  {
  }

  lemma EncodeItemsStep(s: D.Settings, sink: D.Sink, items: seq<Value>, e: Descriptor)
    requires |items| > 0 && forall i | 0 <= i < |items| :: Conforms(items[i], e)
    requires D.Serialize(s, sink, items[0], e).Ok? && D.SerializeItems(s, sink, items[1..], e).Ok?
    ensures D.SerializeItems(s, sink, items, e)
         == Ok(D.Serialize(s, sink, items[0], e).value + D.SerializeItems(s, sink, items[1..], e).value)
  {
  }

  lemma EncodeListStep(s: D.Settings, sink: D.Sink, v: Value, d: Descriptor)
    requires sink.canWrite && sink.canSeek && d !in s.handlers
    requires v.Array? && d.List? && Conforms(v, d)
    requires s.mode == D.Corrected || |v.items| <= DirectMax(ArrayKind)
    requires D.SerializeItems(s, sink, v.items, d.elem).Ok?
    ensures D.LengthHeader(s.mode, ArrayKind, |v.items|).Ok?
    ensures D.Serialize(s, sink, v, d)
         == Ok(D.LengthHeader(s.mode, ArrayKind, |v.items|).value + D.SerializeItems(s, sink, v.items, d.elem).value)
  {
    BackpatchPrefix(s.mode, ArrayKind, |v.items|, D.SerializeItems(s, sink, v.items, d.elem).value);
  }

  lemma EncodeMemberStep(s: D.Settings, sink: D.Sink, v: Value, m: Member)
    requires Conforms(v, m.desc) && !m.ignored
    requires D.WriteSequence(s.mode, m.name).Ok? && D.Serialize(s, sink, v, m.desc).Ok?
    ensures D.SerializeMember(s, sink, v, m)
         == Ok(D.WriteSequence(s.mode, m.name).value + D.Serialize(s, sink, v, m.desc).value)
  {
  }

  lemma EncodeMembersStep(s: D.Settings, sink: D.Sink, vals: seq<Value>, members: seq<Member>)
    requires MembersConform(vals, members) && |vals| > 0
    requires D.SerializeMember(s, sink, vals[0], members[0]).Ok?
    requires D.SerializeMembers(s, sink, vals[1..], members[1..]).Ok?
    ensures D.SerializeMembers(s, sink, vals, members)
         == Ok(D.SerializeMember(s, sink, vals[0], members[0]).value
               + D.SerializeMembers(s, sink, vals[1..], members[1..]).value)
  {
  }

  lemma EncodeIgnoredStep(s: D.Settings, sink: D.Sink, vals: seq<Value>, members: seq<Member>)
    requires MembersConform(vals, members) && |vals| > 0 && members[0].ignored
    ensures D.SerializeMembers(s, sink, vals, members) == D.SerializeMembers(s, sink, vals[1..], members[1..])
  {
    assert D.SerializeMember(s, sink, vals[0], members[0]) == Ok([]);
    var tail := D.SerializeMembers(s, sink, vals[1..], members[1..]);
    if tail.Ok? {
      assert [] + tail.value == tail.value;
    }
  }

  /** The bytes of a class: its included properties, then its included
      fields unless only properties are written. */
  function ClassBody(s: D.Settings, sink: D.Sink, v: Value, d: Descriptor): seq<byte>
    requires v.Obj? && d.Class? && Conforms(v, d)
    requires D.SerializeMembers(s, sink, v.properties, d.properties).Ok?
    requires !s.propertiesOnly ==> D.SerializeMembers(s, sink, v.fields, d.fields).Ok?
  {
    var props := D.SerializeMembers(s, sink, v.properties, d.properties).value;
    if s.propertiesOnly then props else props + D.SerializeMembers(s, sink, v.fields, d.fields).value
  }

  lemma EncodeClassStep(s: D.Settings, sink: D.Sink, v: Value, d: Descriptor)
    requires sink.canWrite && sink.canSeek && d !in s.handlers
    requires v.Obj? && d.Class? && Conforms(v, d)
    requires s.mode == D.Corrected || D.EntryCount(s, d) <= DirectMax(DictionaryKind)
    requires D.SerializeMembers(s, sink, v.properties, d.properties).Ok?
    requires !s.propertiesOnly ==> D.SerializeMembers(s, sink, v.fields, d.fields).Ok?
    ensures D.LengthHeader(s.mode, DictionaryKind, D.EntryCount(s, d)).Ok?
    ensures D.Serialize(s, sink, v, d)
         == Ok(D.LengthHeader(s.mode, DictionaryKind, D.EntryCount(s, d)).value + ClassBody(s, sink, v, d))
  {
    var props := D.SerializeMembers(s, sink, v.properties, d.properties).value;
    var fields := if s.propertiesOnly then [] else D.SerializeMembers(s, sink, v.fields, d.fields).value;
    assert props + fields == ClassBody(s, sink, v, d);
    BackpatchPrefix(s.mode, DictionaryKind, D.EntryCount(s, d), props + fields);
  }

  lemma DecodeItemsStep(ms: M.Settings, src: M.Source, input: seq<byte>, e: Descriptor, n: nat, n': nat,
                        x: Value, mid: seq<byte>, xs: seq<Value>, rest: seq<byte>)
    requires n == n' + 1
    requires M.Deserialize(ms, src, input, e) == Ok(M.Parsed(x, mid)) && M.Unboxes(e, x)
    requires M.DeserializeItems(ms, src, mid, List(e), n') == Ok(M.Parsed(xs, rest))
    ensures M.DeserializeItems(ms, src, input, List(e), n) == Ok(M.Parsed([x] + xs, rest))
  {
    assert n - 1 == n';
  }

  lemma DecodeEnumerableStep(ms: M.Settings, src: M.Source, input: seq<byte>, d: Descriptor,
                             h: M.Header, after: seq<byte>, xs: seq<Value>, rest: seq<byte>)
    requires d.List? && src.canRead
    requires M.ReadHeader(input) == Ok(M.Parsed(h, after))
    requires h.mark == NullMark || InBand(ArrayKind, h.mark)
    requires h.length == 0 ==> xs == [] && rest == after
    requires h.length > 0 ==> M.DeserializeItems(ms, src, after, d, h.length) == Ok(M.Parsed(xs, rest))
    ensures M.Deserialize(ms, src, input, d) == Ok(M.Parsed(Array(xs), rest))
  {
  }

  lemma DecodeEntryStep(ms: M.Settings, src: M.Source, input: seq<byte>, d: Descriptor, c: nat, n: nat,
                        args: seq<Value>, name: seq<byte>, mid: seq<byte>, j: nat, x: Value, mid2: seq<byte>)
    requires d.Class? && c < |d.ctors| && |args| == |d.ctors[c].params| && n > 0
    requires M.ReadSequence(input) == Ok(M.Parsed(name, mid)) && |name| > 0
    requires M.FindParam(d.ctors[c].params, Bytes(name)) == Some(j)
    requires M.Deserialize(ms, src, mid, d.ctors[c].params[j].desc) == Ok(M.Parsed(x, mid2))
    ensures j < |args|
    ensures M.DeserializeEntries(ms, src, input, d, c, n, args)
         == M.DeserializeEntries(ms, src, mid2, d, c, n - 1, args[j := x])
  {
    assert M.DeserializeString(input) == Ok(M.Parsed(Bytes(name), mid));
  }

  lemma DecodeClassStep(ms: M.Settings, src: M.Source, input: seq<byte>, d: Descriptor, c: nat,
                        h: M.Header, after: seq<byte>, args: seq<Value>, rest: seq<byte>)
    requires d.Class? && src.canRead && M.SelectCtor(d.ctors) == Ok(c)
    requires M.ReadHeader(input) == Ok(M.Parsed(h, after))
    requires h.mark == NullMark || h.mark >= DictionaryMark
    requires |d.ctors[c].params| == 0 ==> args == [] && rest == after
    requires |d.ctors[c].params| > 0 ==>
      && h.length == |d.ctors[c].params|
      && M.DeserializeEntries(ms, src, after, d, c, h.length, M.Nulls(h.length)) == Ok(M.Parsed(args, rest))
    ensures M.Deserialize(ms, src, input, d) == Ok(M.Parsed(Constructed(c, args), rest))
  {
  }
}
