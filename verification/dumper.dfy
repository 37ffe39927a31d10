/** The encoder (BsfDumper). A value is written, guided by its run-time
    type, as a tree of marks, length headers and payload bytes. Each
    function returns the bytes it appends to the stream. */
module BsfDumper {
  import opened LittleEndian
  import opened Results
  import opened ByteMarkUtils
  import opened Shapes

  /** AsWritten follows the source byte for byte. Corrected writes the real
      length in escape headers and inserts a back-patched header instead of
      overwriting the payload (see the Findings module). */
  datatype HeaderMode = AsWritten | Corrected

  datatype Settings = Settings(
    propertiesOnly: bool,                           // IncludePropertiesOnly
    longEnums: bool,                                // LongEnums
    handlers: map<Descriptor, Value -> seq<byte>>,  // RegisterType<T>
    mode: HeaderMode)

  /** The capabilities of the output stream. */
  datatype Sink = Sink(canWrite: bool, canSeek: bool)

  /** WriteHeader as written: after the mark, an escape writes the header
      WIDTH rather than the length; width 4 is written as an 8-byte long and
      width 8 has no case at all. */
  function WriteHeader(mark: byte): (r: Result<seq<byte>>)
    ensures !IsEscape(mark) ==> r == Ok([mark])
    ensures r.Ok? ==> |r.value| >= 1 && r.value[0] == mark
    ensures IsEscape(mark) && GetLength(mark).length < 8 ==>
      r.Ok? && FromLE(r.value[1..]) == GetLength(mark).length
    ensures IsEscape(mark) && GetLength(mark).length <= 2 ==>
      r.Ok? && |r.value| == 1 + GetLength(mark).length
    ensures IsEscape(mark) && GetLength(mark).length == 4 ==> |r.value| == 9
    ensures IsEscape(mark) && GetLength(mark).length == 8 ==> r == Err(Unreachable)
  {
    var ml := GetLength(mark);
    if !ml.isHeader then Ok([mark])
    else if ml.length == 1 then Ok([mark] + [ml.length])
    else if ml.length == 2 then
      Pow256Values(); LERoundTrip(ml.length, 2);
      Ok([mark] + ToLE(ml.length, 2))
    else if ml.length == 4 then
      Pow256Values(); LERoundTrip(ml.length, 8);
      Ok([mark] + ToLE(ml.length, 8))
    else Err(Unreachable)
  }

  /** The header the format calls for: the mark, then for an escape the
      length itself in the mark's header width, little-endian. */
  function WriteLengthHeader(mark: byte, length: nat): (r: seq<byte>)
    ensures |r| >= 1 && r[0] == mark
    ensures !IsEscape(mark) ==> r == [mark]
    ensures IsEscape(mark) ==> |r| == 1 + GetLength(mark).length
  {
    var ml := GetLength(mark);
    if ml.isHeader then [mark] + ToLE(length, ml.length) else [mark]
  }

  /** The corrected header holds the length itself, whenever the length
      fits the header width the mark selects. */
  lemma LengthHeaderHoldsLength(mark: byte, length: nat)
    requires IsEscape(mark) && length < Pow256(GetLength(mark).length)
    ensures FromLE(WriteLengthHeader(mark, length)[1..]) == length
  {
    var w := GetLength(mark).length;
    assert WriteLengthHeader(mark, length)[1..] == ToLE(length, w);
    LERoundTrip(length, w);
  }

  /** The header announcing `length` items of kind k. */
  function LengthHeader(mode: HeaderMode, k: Kind, length: nat): (r: Result<seq<byte>>)
    ensures length <= DirectMax(k) ==> r == Ok([GetMarkForLength(k, length)])
    ensures mode == Corrected ==> r.Ok?
    ensures r.Ok? ==> 1 <= |r.value| <= 9 && r.value[0] == GetMarkForLength(k, length)
    ensures r.Ok? && |r.value| > 1 ==> length > DirectMax(k)
  {
    var mark := GetMarkForLength(k, length);
    if length > 0 && length <= DirectMax(k) then DirectRoundTrip(k, length); LengthHeaderOf(mode, mark, length)
    else LengthHeaderOf(mode, mark, length)
  }

  function LengthHeaderOf(mode: HeaderMode, mark: byte, length: nat): Result<seq<byte>>
  {
    match mode
    case AsWritten => WriteHeader(mark)
    case Corrected => Ok(WriteLengthHeader(mark, length))
  }

  /** WriteSequence: the Sequence header, then the payload unmodified. */
  function WriteSequence(mode: HeaderMode, payload: seq<byte>): (r: Result<seq<byte>>)
    ensures |payload| <= 80 ==> r == Ok([GetMarkForLength(SequenceKind, |payload|)] + payload)
    ensures |payload| == 0 ==> r == Ok([NullMark])
    ensures mode == Corrected ==> r.Ok?
    ensures r.Ok? ==> |r.value| > |payload| && r.value[|r.value| - |payload|..] == payload
    ensures r.Ok? ==> r.value[0] == NullMark || InBand(SequenceKind, r.value[0])
  {
    var header :- LengthHeader(mode, SequenceKind, |payload|);
    assert |payload| == 0 ==> header + payload == header;
    Ok(header + payload)
  }

  /** Back-patching as written: one byte is reserved, the body is written
      after it, then the header is written at the reserved position,
      overwriting the body's first |header| - 1 bytes. */
  function PatchHeader(header: seq<byte>, body: seq<byte>): (r: seq<byte>)
    requires 1 <= |header| <= 1 + |body|
    ensures |r| == 1 + |body|
    ensures r[..|header|] == header
    ensures r[|header|..] == body[|header| - 1..]
  {
    header + ([0] + body)[|header|..]
  }

  /** A header known only after the body, placed in front of it. */
  function Backpatch(mode: HeaderMode, k: Kind, count: nat, body: seq<byte>): (r: Result<seq<byte>>)
    requires count <= |body|
    ensures count <= DirectMax(k) ==> r == Ok([GetMarkForLength(k, count)] + body)
    ensures mode == Corrected ==> r == Ok(WriteLengthHeader(GetMarkForLength(k, count), count) + body)
    ensures r.Ok? ==> |r.value| > |body| && r.value[0] == GetMarkForLength(k, count)
  {
    var header :- LengthHeader(mode, k, count);
    match mode
    case AsWritten => Ok(PatchHeader(header, body))
    case Corrected => Ok(header + body)
  }

  /** The band a value of type d is announced in. */
  function WireKind(s: Settings, d: Descriptor): Kind
  {
    if d in s.handlers then SequenceKind
    else match d
      case List(_) => ArrayKind
      case Map(_, _) => DictionaryKind
      case Class(_, _, _, _) => DictionaryKind
      case _ => SequenceKind
  }

  /** Serialize: null first, then a registered handler, then the structural
      rules by type. */
  function Serialize(s: Settings, sink: Sink, v: Value, d: Descriptor): (r: Result<seq<byte>>)
    requires Conforms(v, d)
    ensures !sink.canWrite ==> r == Err(NotWritable)
    ensures sink.canWrite && v.Null? ==> r == Ok([NullMark])
    ensures sink.canWrite && !v.Null? && d in s.handlers ==> r == WriteSequence(s.mode, s.handlers[d](v))
    ensures r.Ok? ==> |r.value| >= 1
    ensures r.Ok? ==> r.value[0] == NullMark || InBand(WireKind(s, d), r.value[0])
    decreases v, 2
  {
    if !sink.canWrite then Err(NotWritable)
    else if v.Null? then WriteSequence(s.mode, [])
    else if d in s.handlers then WriteSequence(s.mode, s.handlers[d](v))
    else
      match d
      case Prim(k) => SerializePrimitive(s.mode, k, v.data)
      case Str => SerializeString(s.mode, v.data)
      case RawBytes => WriteSequence(s.mode, v.data)
      case List(e) => SerializeCollection(s, sink, v.items, e)
      case Map(_, _) => SerializeDictionary(s, sink, v, d)
      case Enum =>
        if s.longEnums then SerializePrimitive(s.mode, UShort, ToLE(v.number % 0x1_0000, 2))
        else SerializePrimitive(s.mode, Byte, ToLE(v.number % 0x100, 1))
      case Class(_, _, _, _) => SerializeClass(s, sink, v, d)
      case Opaque(_) => Err(Unsupported)
  }

  /** A primitive is its fixed-width little-endian bytes as a Sequence. */
  function SerializePrimitive(mode: HeaderMode, k: PrimKind, bytes: seq<byte>): (r: Result<seq<byte>>)
    requires |bytes| == PrimWidth(k)
    ensures !Supported(k) ==> r == Err(Unsupported)
    ensures Supported(k) ==> r == Ok([|bytes|] + bytes)
  {
    if !Supported(k) then Err(Unsupported)
    else WriteSequence(mode, bytes)
  }

  /** A string is its UTF-8 bytes as a Sequence. */
  function SerializeString(mode: HeaderMode, utf8: seq<byte>): (r: Result<seq<byte>>)
    ensures |utf8| == 0 ==> r == Ok([NullMark])
    ensures 1 <= |utf8| <= 80 ==> r == Ok([|utf8| as byte] + utf8)
    ensures r.Ok? ==> |r.value| > |utf8| && r.value[|r.value| - |utf8|..] == utf8
  {
    WriteSequence(mode, utf8)
  }

  /** A collection: a reserved header byte, the elements in order, and the
      Array header patched in with the element count. */
  function SerializeCollection(s: Settings, sink: Sink, items: seq<Value>, e: Descriptor): (r: Result<seq<byte>>)
    requires sink.canWrite
    requires forall i | 0 <= i < |items| :: Conforms(items[i], e)
    ensures !sink.canSeek ==> r == Err(NotSeekable)
    ensures r.Ok? ==> |r.value| >= 1 && r.value[0] == GetMarkForLength(ArrayKind, |items|)
    decreases items, 1
  {
    if !sink.canSeek then Err(NotSeekable)
    else
      var body :- SerializeItems(s, sink, items, e);
      Backpatch(s.mode, ArrayKind, |items|, body)
  }

  function SerializeItems(s: Settings, sink: Sink, items: seq<Value>, e: Descriptor): (r: Result<seq<byte>>)
    requires forall i | 0 <= i < |items| :: Conforms(items[i], e)
    ensures r.Ok? ==> |r.value| >= |items|
    decreases items, 0
  {
    if |items| == 0 then Ok([])
    else
      var head :- Serialize(s, sink, items[0], e);
      var tail :- SerializeItems(s, sink, items[1..], e);
      Ok(head + tail)
  }

  /** A dictionary: the count is known, so the header comes first, then key
      and value of each entry. No seeking is needed. */
  function SerializeDictionary(s: Settings, sink: Sink, v: Value, d: Descriptor): (r: Result<seq<byte>>)
    requires v.Dict? && d.Map? && Conforms(v, d)
    ensures r.Ok? ==> |r.value| >= 1 && r.value[0] == GetMarkForLength(DictionaryKind, |v.entries|)
    decreases v, 1
  {
    var header :- LengthHeader(s.mode, DictionaryKind, |v.entries|);
    var body :- SerializeEntries(s, sink, v, d, 0);
    Ok(header + body)
  }

  function SerializeEntries(s: Settings, sink: Sink, v: Value, d: Descriptor, i: nat): (r: Result<seq<byte>>)
    requires v.Dict? && d.Map? && Conforms(v, d)
    ensures r.Ok? ==> |r.value| >= 2 * (|v.entries| - i)
    decreases v, 0, |v.entries| - i
  {
    if i >= |v.entries| then Ok([])
    else
      assert EntryConforms(v, i, d);
      assert v.entries[i] in v.entries;
      var key :- Serialize(s, sink, v.entries[i].key, d.key);
      var value :- Serialize(s, sink, v.entries[i].value, d.val);
      var rest :- SerializeEntries(s, sink, v, d, i + 1);
      Ok(key + value + rest)
  }

  /** Number of entries a class writes: its included properties, then its
      included fields unless only properties are written. */
  function EntryCount(s: Settings, d: Descriptor): nat
    requires d.Class?
  {
    IncludedCount(d.properties) + (if s.propertiesOnly then 0 else IncludedCount(d.fields))
  }

  /** A class: a reserved header byte, name and value of each included
      property and then each included field, and the Dictionary header
      patched in with the number of entries written. */
  function SerializeClass(s: Settings, sink: Sink, v: Value, d: Descriptor): (r: Result<seq<byte>>)
    requires sink.canWrite && v.Obj? && d.Class? && Conforms(v, d)
    ensures !sink.canSeek ==> r == Err(NotSeekable)
    ensures r.Ok? ==> |r.value| >= 1 && r.value[0] == GetMarkForLength(DictionaryKind, EntryCount(s, d))
    decreases v, 1
  {
    if !sink.canSeek then Err(NotSeekable)
    else
      var props :- SerializeMembers(s, sink, v.properties, d.properties);
      var fields :- if s.propertiesOnly then Ok([]) else SerializeMembers(s, sink, v.fields, d.fields);
      Backpatch(s.mode, DictionaryKind, EntryCount(s, d), props + fields)
  }

  function SerializeMembers(s: Settings, sink: Sink, vals: seq<Value>, members: seq<Member>): (r: Result<seq<byte>>)
    requires MembersConform(vals, members)
    ensures r.Ok? ==> |r.value| >= 2 * IncludedCount(members)
    decreases vals, 0
  {
    if |vals| == 0 then Ok([])
    else
      var head :- SerializeMember(s, sink, vals[0], members[0]);
      var tail :- SerializeMembers(s, sink, vals[1..], members[1..]);
      Ok(head + tail)
  }

  /** One member: nothing if ignored, else its name then its value. */
  function SerializeMember(s: Settings, sink: Sink, v: Value, m: Member): (r: Result<seq<byte>>)
    requires Conforms(v, m.desc)
    ensures m.ignored ==> r == Ok([])
    ensures r.Ok? && !m.ignored ==> |r.value| >= 2
    decreases v, 3
  {
    if m.ignored then Ok([])
    else
      var name :- SerializeString(s.mode, m.name);
      var value :- Serialize(s, sink, v, m.desc);
      Ok(name + value)
  }
}
