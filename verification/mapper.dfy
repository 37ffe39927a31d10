/** The decoder (BsfMapper). Decoding is driven by the TARGET descriptor:
    the wire carries marks and lengths but no type tags. Each function
    takes the unread input and returns what it decoded together with the
    input left after it (the stream position, as a suffix). */
module BsfMapper {
  import opened LittleEndian
  import opened Results
  import opened ByteMarkUtils
  import opened Shapes

  datatype Settings = Settings(longEnums: bool)

  /** The capabilities of the input stream. */
  datatype Source = Source(canRead: bool)

  /** A decoded mark and the length it announces. */
  datatype Header = Header(mark: byte, length: nat)

  datatype Parsed<+T> = Parsed(value: T, rest: seq<byte>)

  /** Largest value of a signed 64-bit long. */
  const MaxLong: nat := 0x7FFF_FFFF_FFFF_FFFF

  /** Read: exactly n bytes, or failure on a short stream. */
  function Read(input: seq<byte>, n: nat): (r: Result<Parsed<seq<byte>>>)
    ensures r.Ok? <==> n <= |input|
    ensures r.Ok? ==> |r.value.value| == n && r.value.value + r.value.rest == input
    ensures r.Err? ==> r.error == EndOfStream
  {
    if n <= |input| then Ok(Parsed(input[..n], input[n..])) else Err(EndOfStream)
  }

  /** ReadHeader: one mark byte, then for an escape mark a little-endian
      length of the width the mark gives. An 8-byte length is a signed long
      and a negative one fails. */
  function ReadHeader(input: seq<byte>): (r: Result<Parsed<Header>>)
    ensures |input| == 0 ==> r == Err(EndOfStream)
    ensures |input| > 0 && !IsEscape(input[0]) ==>
      r == Ok(Parsed(Header(input[0], GetLength(input[0]).length), input[1..]))
    ensures |input| > 0 && IsEscape(input[0]) ==>
      var w := GetLength(input[0]).length;
      && (r.Ok? <==> 1 + w <= |input| && (w == 8 ==> FromLE(input[1..1 + w]) <= MaxLong))
      && (r.Ok? ==> r == Ok(Parsed(Header(input[0], FromLE(input[1..1 + w])), input[1 + w..])))
    ensures r.Ok? ==> |input| > 0 && r.value.value.mark == input[0] && |r.value.rest| < |input|
    ensures r.Ok? ==> r.value.value.length <= MaxLong
  {
    if |input| == 0 then Err(EndOfStream)
    else
      var mark := input[0];
      var ml := GetLength(mark);
      if ml.length == 0 then Ok(Parsed(Header(0, 0), input[1..]))
      else if !ml.isHeader then Ok(Parsed(Header(mark, ml.length), input[1..]))
      else
        var buf :- Read(input[1..], ml.length);
        assert buf.value == input[1..1 + ml.length] && buf.rest == input[1 + ml.length..];
        Pow256Values();
        var n := FromLE(buf.value);
        if ml.length == 8 && n > MaxLong then Err(NegativeLength)
        else Ok(Parsed(Header(mark, n), buf.rest))
  }

  /** ReadSequence: a header of Sequence kind (or the null mark) and
      exactly that many payload bytes. */
  function ReadSequence(input: seq<byte>): (r: Result<Parsed<seq<byte>>>)
    ensures |input| > 0 && input[0] >= ArrayMark ==> r.Err?
    ensures |input| > 0 && input[0] == NullMark ==> r == Ok(Parsed([], input[1..]))
    ensures r.Ok? ==> |input| > 0 && input[0] < ArrayMark
    ensures r.Ok? ==> ReadHeader(input).Ok? && var h := ReadHeader(input).value;
      r.value.value + r.value.rest == h.rest && |r.value.value| == h.value.length
    ensures r.Ok? ==> |r.value.rest| < |input|
  {
    var h :- ReadHeader(input);
    if h.value.mark >= ArrayMark then Err(KindMismatch)
    else
      var buf :- Read(h.rest, h.value.length);
      assert buf.rest == h.rest[h.value.length..];
      Ok(buf)
  }

  /** DeserializeString: an empty Sequence is null, never "". */
  function DeserializeString(input: seq<byte>): (r: Result<Parsed<Value>>)
    ensures |input| > 0 && input[0] == NullMark ==> r == Ok(Parsed(Null, input[1..]))
    ensures r.Ok? ==> r.value.value.Null? || (r.value.value.Bytes? && |r.value.value.data| > 0)
    ensures r.Ok? ==> |input| > 0 && |r.value.rest| < |input|
    ensures ReadSequence(input).Ok? <==> r.Ok?
  {
    var buf :- ReadSequence(input);
    if |buf.value| == 0 then Ok(Parsed(Null, buf.rest))
    else Ok(Parsed(Bytes(buf.value), buf.rest))
  }

  /** The value a primitive type reads from the front of its bytes:
      BitConverter uses the first width bytes; a bool is any non-zero byte. */
  function Interpret(k: PrimKind, bytes: seq<byte>): seq<byte>
    requires |bytes| >= PrimWidth(k)
  {
    if k == Bool then [if bytes[0] != 0 then 1 else 0] else bytes[..PrimWidth(k)]
  }

  /** DeserializePrimitive: an empty Sequence is null; otherwise the
      payload must hold at least the primitive's width, and the value is
      its first width bytes (a bool: whether the first byte is non-zero). */
  function DeserializePrimitive(k: PrimKind, input: seq<byte>): (r: Result<Parsed<Value>>)
    ensures ReadSequence(input).Err? ==> r.Err?
    ensures ReadSequence(input).Ok? ==> var p := ReadSequence(input).value;
      && (|p.value| == 0 ==> r == Ok(Parsed(Null, p.rest)))
      && (0 < |p.value| && !Supported(k) ==> r == Err(Unsupported))
      && (0 < |p.value| < PrimWidth(k) && Supported(k) ==> r == Err(ShortPrimitive))
      && (PrimWidth(k) <= |p.value| && Supported(k) ==>
            && r.Ok? && r.value.rest == p.rest && r.value.value.Bytes?
            && (k != Bool ==> r.value.value.data == p.value[..PrimWidth(k)])
            && (k == Bool ==> (r.value.value.data == [1] <==> p.value[0] != 0)))
    ensures |input| > 0 && input[0] == NullMark ==> r == Ok(Parsed(Null, input[1..]))
    ensures r.Ok? ==> r.value.value.Null? || (r.value.value.Bytes? && Conforms(r.value.value, Prim(k)))
    ensures r.Ok? && r.value.value.Bytes? ==> Supported(k)
    ensures r.Ok? ==> |input| > 0 && |r.value.rest| < |input|
  {
    var buf :- ReadSequence(input);
    if |buf.value| == 0 then Ok(Parsed(Null, buf.rest))
    else if !Supported(k) then Err(Unsupported)
    else if |buf.value| < PrimWidth(k) then Err(ShortPrimitive)
    else Ok(Parsed(Bytes(Interpret(k, buf.value)), buf.rest))
  }

  /** Whether the cast `(T)obj` accepts what the decoder returned for a
      target of type d. A value type rejects null, and an int-backed enum
      rejects both null and the boxed ushort or byte that the enum decoder
      returns; every other target gets an object of its own type. */
  predicate Unboxes(d: Descriptor, x: Value)
  {
    match d
    case Prim(_) => !x.Null?
    case Enum => false
    case _ => true
  }

  /** Deserialize<T>: the object decoded for T is cast to T. For an
      unconstrained T, `T?` of a value type is T itself, so a null
      primitive fails here, and so does every enum. */
  function DeserializeAs(s: Settings, src: Source, input: seq<byte>, d: Descriptor): (r: Result<Parsed<Value>>)
    ensures d.Enum? ==> r.Err?
    ensures Deserialize(s, src, input, d).Err? ==> r == Deserialize(s, src, input, d)
    ensures Deserialize(s, src, input, d).Ok? ==>
      var x := Deserialize(s, src, input, d).value.value;
      && (!Unboxes(d, x) ==> r == Err(InvalidCast))
      && (Unboxes(d, x) ==> r == Deserialize(s, src, input, d))
    ensures r.Ok? && d.Prim? ==> r.value.value.Bytes?
  {
    var p :- Deserialize(s, src, input, d);
    if Unboxes(d, p.value) then Ok(p) else Err(InvalidCast)
  }

  /** Deserialize: dispatch on the target type. */
  function Deserialize(s: Settings, src: Source, input: seq<byte>, d: Descriptor): (r: Result<Parsed<Value>>)
    ensures !src.canRead ==> r == Err(NotReadable)
    ensures d.Map? || d.Opaque? ==> r.Err?
    ensures r.Ok? ==> |input| > 0 && |r.value.rest| < |input|
    ensures r.Ok? && d.List? ==> r.value.value.Array?
    ensures r.Ok? && d.Class? ==> r.value.value.Constructed?
    decreases d, 3, 0
  {
    if !src.canRead then Err(NotReadable)
    else
      match d
      case Prim(k) => DeserializePrimitive(k, input)
      case Str => DeserializeString(input)
      case RawBytes =>
        var buf :- ReadSequence(input);
        Ok(Parsed(Bytes(buf.value), buf.rest))
      case List(_) => DeserializeEnumerable(s, src, input, d)
      case Map(_, _) => Err(Unsupported)
      case Enum =>
        var p :- DeserializePrimitive(if s.longEnums then UShort else Byte, input);
        Ok(Parsed(if p.value.Null? then Null else EnumValue(FromLE(p.value.data)), p.rest))
      case Class(_, _, _, _) => DeserializeClass(s, src, input, d)
      case Opaque(_) => Err(Unsupported)
  }

  /** DeserializeEnumerable: an Array header (or the null mark, read as an
      empty list) and exactly that many elements. */
  function DeserializeEnumerable(s: Settings, src: Source, input: seq<byte>, d: Descriptor): (r: Result<Parsed<Value>>)
    requires d.List?
    ensures |input| > 0 && input[0] != NullMark && !InBand(ArrayKind, input[0]) ==> r.Err?
    ensures |input| > 0 && input[0] == NullMark ==> r == Ok(Parsed(Array([]), input[1..]))
    ensures r.Ok? ==> ReadHeader(input).Ok? && r.value.value.Array?
    ensures r.Ok? ==> |r.value.value.items| == ReadHeader(input).value.value.length
    ensures r.Ok? ==> forall i | 0 <= i < |r.value.value.items| :: Unboxes(d.elem, r.value.value.items[i])
    ensures r.Ok? && d.elem.Enum? ==> r.value.value.items == []
    ensures r.Ok? ==> |input| > 0 && |r.value.rest| < |input|
    decreases d, 2, 0
  {
    var h :- ReadHeader(input);
    if h.value.mark != NullMark && (h.value.mark < ArrayMark || h.value.mark >= DictionaryMark) then
      Err(KindMismatch)
    else if h.value.length == 0 then Ok(Parsed(Array([]), h.rest))
    else
      var items :- DeserializeItems(s, src, h.rest, d, h.value.length);
      Ok(Parsed(Array(items.value), items.rest))
  }

  /** n elements of the list's element type, one after the other; each
      takes at least one byte. ToArray and ToList pull every element
      through Enumerable.Cast, so each is cast to the element type as soon
      as it is decoded, before the next is read. */
  function DeserializeItems(s: Settings, src: Source, input: seq<byte>, d: Descriptor, n: nat): (r: Result<Parsed<seq<Value>>>)
    requires d.List?
    ensures r.Ok? ==> |r.value.value| == n && |r.value.rest| + n <= |input|
    ensures r.Ok? ==> forall i | 0 <= i < n :: Unboxes(d.elem, r.value.value[i])
    decreases d, 1, n
  {
    if n == 0 then Ok(Parsed([], input))
    else
      var x :- Deserialize(s, src, input, d.elem);
      if !Unboxes(d.elem, x.value) then Err(InvalidCast)
      else
        var xs :- DeserializeItems(s, src, x.rest, d, n - 1);
        Ok(Parsed([x.value] + xs.value, xs.rest))
  }

  /** Indices of the constructors marked preferred, from i on, in order. */
  function PreferredFrom(ctors: seq<Ctor>, i: nat): (r: seq<nat>)
    requires i <= |ctors|
    ensures forall k | 0 <= k < |r| :: i <= r[k] < |ctors| && ctors[r[k]].preferred
    ensures forall j | i <= j < |ctors| && ctors[j].preferred :: j in r
    ensures forall k, l | 0 <= k < l < |r| :: r[k] < r[l]
    decreases |ctors| - i
  {
    if i == |ctors| then []
    else if ctors[i].preferred then [i] + PreferredFrom(ctors, i + 1)
    else PreferredFrom(ctors, i + 1)
  }

  /** The constructor used: the single preferred one, else the first. */
  function SelectCtor(ctors: seq<Ctor>): (r: Result<nat>)
    ensures r.Ok? ==> r.value < |ctors|
    ensures (exists i, j | 0 <= i < j < |ctors| :: ctors[i].preferred && ctors[j].preferred) <==> r == Err(ManyPreferred)
    ensures forall i | 0 <= i < |ctors| && ctors[i].preferred :: r.Err? || r.value == i
    ensures (forall i | 0 <= i < |ctors| :: !ctors[i].preferred) ==> r == if |ctors| == 0 then Err(NoConstructor) else Ok(0)
  {
    var preferred := PreferredFrom(ctors, 0);
    if |preferred| > 1 then
      assert ctors[preferred[0]].preferred && ctors[preferred[1]].preferred;
      Err(ManyPreferred)
    else if |preferred| == 1 then Ok(preferred[0])
    else if |ctors| == 0 then Err(NoConstructor)
    else Ok(0)
  }

  /** The parameter a key names, ignoring case; a key that is not a byte
      string names none. Which one, when several match, is FindParamFirst. */
  function FindParam(params: seq<Param>, key: Value): (r: Option<nat>)
    ensures r.Some? ==> key.Bytes? && r.value < |params| && NameEquals(params[r.value].name, key.data)
  {
    if !key.Bytes? then None else FindName(params, key.data)
  }

  function FindName(params: seq<Param>, name: seq<byte>): (r: Option<nat>)
    ensures r.Some? ==> r.value < |params| && NameEquals(params[r.value].name, name)
  {
    if |params| == 0 then None
    else if NameEquals(params[0].name, name) then Some(0)
    else
      match FindName(params[1..], name)
      case None => None
      case Some(j) => Some(j + 1)
  }

  /** The match is the first parameter whose name equals the key, and no
      match means no parameter's name does. */
  lemma FindParamFirst(params: seq<Param>, key: Value)
    requires key.Bytes?
    ensures FindParam(params, key).Some? ==>
      forall j | 0 <= j < FindParam(params, key).value :: !NameEquals(params[j].name, key.data)
    ensures FindParam(params, key).None? ==>
      forall j | 0 <= j < |params| :: !NameEquals(params[j].name, key.data)
  {
    FindNameFirst(params, key.data);
  }

  lemma {:induction false} FindNameFirst(params: seq<Param>, name: seq<byte>)
    ensures FindName(params, name).Some? ==>
      forall j | 0 <= j < FindName(params, name).value :: !NameEquals(params[j].name, name)
    ensures FindName(params, name).None? ==>
      forall j | 0 <= j < |params| :: !NameEquals(params[j].name, name)
  {
    if |params| > 0 && !NameEquals(params[0].name, name) {
      FindNameFirst(params[1..], name);
      assert forall j | 1 <= j < |params| :: params[j] == params[1..][j - 1];
    }
  }

  /** The argument list before any entry is read: every argument null. */
  function Nulls(n: nat): (r: seq<Value>)
    ensures |r| == n && forall i | 0 <= i < n :: r[i].Null?
  {
    if n == 0 then [] else [Null] + Nulls(n - 1)
  }

  /** DeserializeClass: a Dictionary header (or the null mark), then the
      constructor is chosen; a parameterless one is invoked at once, without
      reading any entries, otherwise the entry count must equal its arity
      and every entry fills the parameter its name matches. */
  function DeserializeClass(s: Settings, src: Source, input: seq<byte>, d: Descriptor): (r: Result<Parsed<Value>>)
    requires d.Class?
    ensures |input| > 0 && input[0] != NullMark && input[0] < DictionaryMark ==> r.Err?
    ensures SelectCtor(d.ctors).Err? ==> r.Err?
    ensures r.Ok? ==> r.value.value.Constructed? && SelectCtor(d.ctors) == Ok(r.value.value.ctor)
    ensures r.Ok? ==> |r.value.value.args| == |d.ctors[r.value.value.ctor].params|
    ensures r.Ok? ==> ReadHeader(input).Ok?
    ensures r.Ok? && |d.ctors[r.value.value.ctor].params| > 0 ==>
      ReadHeader(input).value.value.length == |d.ctors[r.value.value.ctor].params|
    ensures r.Ok? && |d.ctors[r.value.value.ctor].params| == 0 ==> r.value.rest == ReadHeader(input).value.rest
    ensures r.Ok? ==> |input| > 0 && |r.value.rest| < |input|
    decreases d, 2, 0
  {
    var h :- ReadHeader(input);
    if h.value.mark != NullMark && h.value.mark < DictionaryMark then Err(KindMismatch)
    else
      var c :- SelectCtor(d.ctors);
      var params := d.ctors[c].params;
      if |params| == 0 then Ok(Parsed(Constructed(c, []), h.rest))
      else if |params| != h.value.length then Err(ParamCountMismatch)
      else
        var args :- DeserializeEntries(s, src, h.rest, d, c, h.value.length, Nulls(|params|));
        Ok(Parsed(Constructed(c, args.value), args.rest))
  }

  /** n entries, each a name and a value; the value is decoded with the
      matched parameter's type and stored at that parameter's position. */
  function DeserializeEntries(s: Settings, src: Source, input: seq<byte>, d: Descriptor, c: nat, n: nat, args: seq<Value>)
    : (r: Result<Parsed<seq<Value>>>)
    requires d.Class? && c < |d.ctors| && |args| == |d.ctors[c].params|
    ensures r.Ok? ==> |r.value.value| == |args| && |r.value.rest| + 2 * n <= |input|
    decreases d, 1, n
  {
    if n == 0 then Ok(Parsed(args, input))
    else
      var key :- DeserializeString(input);
      match FindParam(d.ctors[c].params, key.value)
      case None => Err(UnknownParam)
      case Some(j) =>
        assert d.ctors[c] in d.ctors;
        assert d.ctors[c].params[j] in d.ctors[c].params;
        var x :- Deserialize(s, src, key.rest, d.ctors[c].params[j].desc);
        DeserializeEntries(s, src, x.rest, d, c, n - 1, args[j := x.value])
  }
}
