/** Type descriptors and values. The C# code discovers a type's shape by
    reflection at each call; here the shape is an explicit descriptor, and
    a value is a tree that conforms to its descriptor. Strings and member
    names are their UTF-8 bytes. */
module Shapes {
  import opened LittleEndian

  /** The .NET primitive types. */
  datatype PrimKind =
    | Bool | Byte | SByte | Char | Short | UShort | Int | UInt
    | Long | ULong | Float | Double | IntPtr | UIntPtr

  /** Size in bytes of the primitive's in-memory representation. */
  function PrimWidth(k: PrimKind): nat
  {
    match k
    case Bool => 1
    case Byte => 1
    case SByte => 1
    case Char => 2
    case Short => 2
    case UShort => 2
    case Int => 4
    case UInt => 4
    case Float => 4
    case Long => 8
    case ULong => 8
    case Double => 8
    case IntPtr => 8
    case UIntPtr => 8
  }

  /** The primitives the codec has a case for (sbyte and the native-size
      integers fall through to "Unsupported type"). */
  predicate Supported(k: PrimKind)
  {
    k != SByte && k != IntPtr && k != UIntPtr
  }

  /** A public property or field: its name, its type, and whether it
      carries the ignore attribute. */
  datatype Member = Member(name: seq<byte>, desc: Descriptor, ignored: bool)

  datatype Param = Param(name: seq<byte>, desc: Descriptor)

  /** A public constructor; `preferred` marks the BsfConstructor attribute. */
  datatype Ctor = Ctor(params: seq<Param>, preferred: bool)

  datatype Descriptor =
    | Prim(kind: PrimKind)
    | Str
    | RawBytes                                   // byte[]
    | List(elem: Descriptor)                     // T[], List<T>, jagged arrays
    | Map(key: Descriptor, val: Descriptor)      // IDictionary
    | Enum                                       // an enum with int underlying type
    | Class(name: seq<byte>, properties: seq<Member>, fields: seq<Member>, ctors: seq<Ctor>)
    | Opaque(name: seq<byte>)                    // a struct without the model attribute

  datatype Value =
    | Null
    | Bytes(data: seq<byte>)          // primitive bit pattern, string, byte[] or struct state
    | EnumValue(number: int)
    | Array(items: seq<Value>)
    | Dict(entries: seq<Pair>)
    | Obj(properties: seq<Value>, fields: seq<Value>)
    | Constructed(ctor: nat, args: seq<Value>)  // what a constructor returns when decoding

  datatype Pair = Pair(key: Value, value: Value)

  /** `v` is a value whose run-time type is `d`. Decoded objects
      (Constructed) are not re-encoded by the model. */
  predicate Conforms(v: Value, d: Descriptor)
    decreases v
  {
    match v
    case Null => true
    case Bytes(b) =>
      (match d
       case Prim(k) => |b| == PrimWidth(k) && (k == Bool ==> b == [0] || b == [1])
       case Str => true
       case RawBytes => true
       case Opaque(_) => true
       case _ => false)
    case EnumValue(n) => d.Enum? && -0x8000_0000 <= n < 0x8000_0000
    case Array(items) =>
      d.List? && forall i | 0 <= i < |items| :: Conforms(items[i], d.elem)
    case Dict(entries) =>
      d.Map? && forall i | 0 <= i < |entries| :: EntryConforms(v, i, d)
    case Obj(pv, fv) =>
      && d.Class?
      && MembersConform(pv, d.properties)
      && MembersConform(fv, d.fields)
    case Constructed(_, _) => false
  }

  predicate EntryConforms(parent: Value, i: nat, d: Descriptor)
    requires parent.Dict? && i < |parent.entries| && d.Map?
    decreases parent, 0
  {
    assert parent.entries[i] in parent.entries;
    Conforms(parent.entries[i].key, d.key) && Conforms(parent.entries[i].value, d.val)
  }

  predicate MembersConform(vals: seq<Value>, members: seq<Member>)
    decreases vals, 0
  {
    |vals| == |members| && forall i | 0 <= i < |vals| :: Conforms(vals[i], members[i].desc)
  }

  /** Case-insensitive comparison of ASCII names (OrdinalIgnoreCase). */
  function FoldCase(b: byte): byte
  {
    if 97 <= b <= 122 then b - 32 else b
  }

  predicate NameEquals(a: seq<byte>, b: seq<byte>)
  {
    |a| == |b| && forall i | 0 <= i < |a| :: FoldCase(a[i]) == FoldCase(b[i])
  }

  /** Number of members that are written: those not ignored. */
  function IncludedCount(members: seq<Member>): (n: nat)
    ensures n <= |members|
    ensures n == |members| <==> forall i | 0 <= i < |members| :: !members[i].ignored
    ensures n == 0 <==> forall i | 0 <= i < |members| :: members[i].ignored
  {
    if |members| == 0 then 0
    else
      var rest := IncludedCount(members[1..]);
      assert forall i | 1 <= i < |members| :: members[i] == members[1..][i - 1];
      (if members[0].ignored then 0 else 1) + rest
  }
}
