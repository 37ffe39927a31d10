# BSF codec model

A Dafny model of the BSF binary codec of BsfConverter (C#). The model has three layers:

- **The mark codec** (`ByteMarkUtils`). This is the one-byte tag that starts every encoded value. It gives the value's kind (Sequence, Array, Dictionary) and its length. A small length sits in the mark itself. A larger one is announced by one of four escape marks per band, followed by a little-endian length header of 1, 2, 4 or 8 bytes.
- **Header framing.** Writing uses `WriteHeader` and `WriteSequence` in `BsfDumper`. Reading uses `Read`, `ReadHeader` and `ReadSequence` in `BsfMapper`. The model works over `seq<byte>`. A decoder returns what it read together with the unread input (`Parsed(value, rest)`).
- **The recursive encoder (`BsfDumper`) and decoder (`BsfMapper`).** They run over an abstract `Value` tree and a `Descriptor` that stands in for .NET reflection on non-recursive types (see "## Left out"):
  - primitives, strings and `byte[]`;
  - lists;
  - dictionaries;
  - enums;
  - classes, with ordered properties and fields, ignore flags, and constructors with a preferred flag.

Exceptions become `Err` values of one `Error` enumeration. Stream capabilities become flags (`Sink`, `Source`).

The main theorem is `RoundTrip.RoundTripValue`. For any decodable value (see `RoundTrip.Decodable`), under settings the encoder and decoder share, the encoder succeeds, and decoding its bytes, followed by anything, gives back `Expected(v)` and stops exactly where the encoding ends. `Expected(v)` is `v` with null and empty identified, as the wire format does. The typed entry point `Deserialize<T>` adds a final cast, modelled by `BsfMapper.DeserializeAs`. `RoundTrip.RoundTripAs` states what that cast does to the round trip.

The model covers two header modes:

- `AsWritten` follows the code byte for byte. The round trip holds for every length in the direct range.
- `Corrected` writes the real length in escape headers, and writes a back-patched header in front of the body instead of over it. The round trip holds for every length up to a signed long.

The two defects are listed under "## Findings".

Modules, one per file:

- `results.dfy`: `Result`, `Option` and the error causes.
- `little_endian.dfy`: the byte type and the little-endian layout that BitConverter uses.
- `marks.dfy`: the mark codec.
- `shapes.dfy`: descriptors, values and case-insensitive names.
- `dumper.dfy`: the encoder.
- `mapper.dfy`: the decoder.
- `steps.dfy`: one-step unfoldings used by the proofs. These are proof helpers and have no row in the table below.
- `roundtrip.dfy`: the round-trip theorem.
- `properties.dfy`: single-operation facts.
- `wire_samples.dfy`: concrete encodings.
- `findings.dfy`: the two defects.

## Model

| member | source | states |
|---|---|---|
| ByteMarkUtils.GetLength | BsfConverter.Core/ByteMarkUtils.cs:15-56 | A mark is a header width exactly when it is one of the last four of its band. Otherwise the length is 0/1 for marks 0/1, the mark itself up to 81, mark−85 for Array marks and mark−169 for Dictionary marks. Escapes give widths 1, 2, 4, 8 in ascending mark order. |
| ByteMarkUtils.GetMarkForLength | BsfConverter.Core/ByteMarkUtils.cs:58-71 | Length 0 gets mark 0 for every kind, and a Sequence of length 1 gets mark 1. Any positive length gets a mark inside its kind's band, so the byte casts never wrap. The mark is an escape exactly when the length exceeds the direct range (80, or 82 for a Dictionary). |
| ByteMarkUtils.EscapeMark | BsfConverter.Core/ByteMarkUtils.cs:63-68 | Above the direct range the mark is an escape of the kind's band. Its position among the four escapes is 3, 2, 1 or 0 as the length exceeds uint, ushort, byte or none of them. |
| ByteMarkUtils.DirectRoundTrip | BsfConverter.Core/ByteMarkUtils.cs:15-71 | For 1 ≤ L ≤ 80 (82 for a Dictionary), reading the mark chosen for L gives back L with no header. |
| ByteMarkUtils.EscapeWidthIsSmallest | BsfConverter.Core/ByteMarkUtils.cs:65-68 | Above the direct range the header width w of the chosen escape is the smallest of 1, 2, 4, 8 with L < 256^w. |
| ByteMarkUtils.Mark81NeverProduced | BsfConverter.Core/ByteMarkUtils.cs:15-71 | Mark 81 reads as a direct length 81, yet no kind and length is ever given mark 81. Length 81 gets escape 82. |
| ByteMarkUtils.DirectMarkInverse | BsfConverter.Core/ByteMarkUtils.cs:15-71 | Every direct non-zero mark other than 81 is the mark the encoder picks for the length it reads as, in its own band. |
| LittleEndian.LERoundTrip | BsfConverter.Core/BsfMapper.cs:275-282 | A value below 256^w written as w little-endian bytes reads back unchanged. |
| LittleEndian.ToLETruncates | BsfConverter.Core/BsfDumper.cs:74-77 | Writing w bytes of n keeps exactly n mod 256^w, as the narrowing casts of enum values do. |
| LittleEndian.LEBytesRoundTrip | BsfConverter.Core/BsfMapper.cs:275-282 | Reading a byte string as a number and writing it back at the same width gives the same bytes. |
| Shapes.IncludedCount | BsfConverter.Core/BsfDumper.cs:187-211 | The count of written members is at most the number of members. It equals that number exactly when none is ignored, and it is 0 exactly when all are ignored. |
| BsfDumper.WriteHeader | BsfConverter.Core/BsfDumper.cs:265-284 | A non-escape mark is written alone. After an escape the WIDTH is written, not the length. Widths 1 and 2 write the width in exactly 1 and 2 bytes, width 4 writes it as an 8-byte long (9 bytes in all), and width 8 fails. |
| BsfDumper.WriteLengthHeader | BsfConverter.Core/BsfDumper.cs:265-284 | The corrected header is the mark and, for an escape, exactly as many bytes as the mark's header width. |
| BsfDumper.LengthHeaderHoldsLength | BsfConverter.Core/BsfDumper.cs:265-284 | The corrected escape header reads back as the length whenever the length fits the width. |
| BsfDumper.LengthHeader | BsfConverter.Core/BsfDumper.cs:288-289 | In the direct range the header is the single mark. The corrected header never fails. Any header is 1 to 9 bytes, starting with the mark for the length, and is longer than one byte only above the direct range. |
| BsfDumper.WriteSequence | BsfConverter.Core/BsfDumper.cs:286-291 | Up to 80 bytes, the output is the mark followed by the payload unmodified; an empty payload is the single byte 0. Otherwise the payload ends the output. The corrected mode never fails. |
| BsfDumper.PatchHeader | BsfConverter.Core/BsfDumper.cs:238-244 | The header written at the one reserved byte overwrites the first \|header\|−1 bytes of the body, and the output keeps the body's end position. |
| BsfDumper.Backpatch | BsfConverter.Core/BsfDumper.cs:222-245 | In the direct range the result is the mark then the body, and in corrected mode it is the full header then the body. Either way it starts with the count's mark. |
| BsfDumper.Serialize | BsfConverter.Core/BsfDumper.cs:26-89 | Checks run in this order: an unwritable sink fails; null writes exactly the byte 0; a registered handler takes precedence over every structural rule and its bytes are written as a Sequence. Every output starts with the null mark or a mark of the band the type is written in. |
| BsfDumper.SerializePrimitive | BsfConverter.Core/BsfDumper.cs:91-160 | A supported primitive is its width as the mark followed by its bytes; sbyte and the native-size integers fail. |
| BsfDumper.SerializeString | BsfConverter.Core/BsfDumper.cs:260-263 | The empty string writes the byte 0. A string of 1 to 80 bytes writes its length as the mark followed by its bytes. In every case the bytes end the output. |
| BsfDumper.SerializeCollection | BsfConverter.Core/BsfDumper.cs:222-245 | A non-seekable sink fails. Otherwise the output starts with the Array mark for the element count. |
| BsfDumper.SerializeItems | BsfConverter.Core/BsfDumper.cs:232-236 | Every element takes at least one byte. |
| BsfDumper.SerializeDictionary | BsfConverter.Core/BsfDumper.cs:247-258 | The Dictionary mark for the entry count comes first, with no seek needed. |
| Properties.DictionaryLayout | BsfConverter.Core/BsfDumper.cs:247-258 | A dictionary is its Dictionary length header, then the key and the value of each entry, in entry order. This needs only a writable sink, so a non-seekable sink succeeds whenever the keys and values need no seek. |
| Properties.EntriesLayout | BsfConverter.Core/BsfDumper.cs:252-257 | The entries from position i on are written as the key then the value of each, in order. |
| BsfDumper.SerializeEntries | BsfConverter.Core/BsfDumper.cs:252-257 | Every remaining entry takes at least two bytes (key and value). |
| BsfDumper.SerializeClass | BsfConverter.Core/BsfDumper.cs:177-220 | A non-seekable sink fails. Otherwise the output starts with the Dictionary mark for the number of included properties, plus included fields unless only properties are written. |
| BsfDumper.SerializeMembers | BsfConverter.Core/BsfDumper.cs:187-211 | Every included member takes at least two bytes. |
| BsfDumper.SerializeMember | BsfConverter.Core/BsfDumper.cs:189-197 | An ignored member writes nothing, and an included one at least a name and a value. |
| BsfMapper.Read | BsfConverter.Core/BsfMapper.cs:241-250 | Succeeds exactly when at least n bytes remain. It then returns those n bytes and the rest. Otherwise it fails with end of stream. |
| BsfMapper.ReadHeader | BsfConverter.Core/BsfMapper.cs:252-289 | Empty input fails. A direct mark is consumed alone with its length, so mark 0 gives (0, 0). An escape succeeds exactly when its width in bytes follows and an 8-byte value is not negative as a long; it then consumes exactly those bytes as a little-endian length. Success always consumes input. |
| BsfMapper.ReadSequence | BsfConverter.Core/BsfMapper.cs:291-305 | Marks ≥ 86 are rejected and mark 0 reads as empty. On success the header reads and exactly its length in bytes is returned from what follows. |
| BsfMapper.DeserializeString | BsfConverter.Core/BsfMapper.cs:104-109 | A zero-length Sequence is null and never an empty string. It succeeds exactly when the Sequence reads, and always consumes input. |
| BsfMapper.DeserializePrimitive | BsfConverter.Core/BsfMapper.cs:111-173 | Errors reading the Sequence propagate. A zero-length Sequence is null. A non-empty one fails for sbyte and the native-size integers, and fails as too short when it holds fewer bytes than the type's width. Otherwise the value is the first width bytes of the payload (a bool is 1 exactly when the first byte is non-zero), and the rest follows the whole payload. |
| BsfMapper.Deserialize | BsfConverter.Core/BsfMapper.cs:21-102 | An unreadable source fails. Dictionary and opaque targets fail. Success consumes input, gives an array for a list target and a constructed object for a class target. |
| BsfMapper.DeserializeAs | BsfConverter.Core/BsfMapper.cs:14-19 | The final cast to the requested type. An enum target always fails with an invalid cast, because the decoder returns a boxed ushort or byte. A null read for a primitive target fails too. Any other decoded value passes through unchanged, and decoding errors propagate. |
| BsfMapper.DeserializeEnumerable | BsfConverter.Core/BsfMapper.cs:175-189 | A non-zero mark outside 86..169 fails. Mark 0 is an empty list. Otherwise exactly as many elements are decoded as the header announces. Every element survives the cast to the element type: none is null for a primitive element type, and a list of enums is never returned non-empty. |
| BsfMapper.DeserializeItems | BsfConverter.Core/BsfMapper.cs:76-86 | n elements are returned and at least n bytes are consumed. Each element passes the cast to the element type, which `Enumerable.Cast` applies as `ToArray` or `ToList` pulls it. |
| BsfMapper.PreferredFrom | BsfConverter.Core/BsfMapper.cs:199-200 | The result is exactly the indices of the preferred constructors, in increasing order. |
| BsfMapper.SelectCtor | BsfConverter.Core/BsfMapper.cs:199-210 | Two preferred constructors fail, and only they give that error. A single preferred constructor is chosen. With none preferred the first is chosen, or the call fails when there is no constructor. |
| BsfMapper.FindParam | BsfConverter.Core/BsfMapper.cs:225-231 | A match is a parameter whose name equals the key ignoring case. A null key matches nothing. |
| BsfMapper.FindName | BsfConverter.Core/BsfMapper.cs:225-231 | A match is a position whose parameter name equals the name ignoring case. |
| BsfMapper.FindParamFirst | BsfConverter.Core/BsfMapper.cs:225-231 | The match is the first such parameter, and no match means no parameter's name equals the key. |
| BsfMapper.Nulls | BsfConverter.Core/BsfMapper.cs:214 | The argument array starts with one null per parameter. |
| BsfMapper.DeserializeClass | BsfConverter.Core/BsfMapper.cs:191-239 | A non-zero mark below 170 fails, and a failing constructor selection fails. On success the chosen constructor is the selected one and gets one argument per parameter. A constructor with parameters needs a header count equal to their number. A parameterless one consumes nothing after the header. |
| BsfMapper.DeserializeEntries | BsfConverter.Core/BsfMapper.cs:221-236 | Reading n entries keeps one argument per parameter and consumes at least two bytes per entry. |
| RoundTrip.HeaderRoundTrip | BsfConverter.Core/BsfMapper.cs:252-289 | Every length header the mode can write reads back as the mark and the length it was written for, stopping right after itself. |
| RoundTrip.SequenceRoundTrip | BsfConverter.Core/BsfMapper.cs:291-305 | ReadSequence inverts WriteSequence, followed by any input. |
| RoundTrip.RoundTripValue | BsfConverter.Core/BsfMapper.cs:21-102 | Decoding the encoding of any decodable value, followed by anything, gives Expected(v) and stops where the encoding ends. |
| RoundTrip.RoundTripAs | BsfConverter.Core/BsfMapper.cs:14-19 | Through the typed entry point, the round trip gives Expected(v) when that value survives the final cast, and an invalid cast otherwise (any enum target, or a null for a primitive target). |
| RoundTrip.NullDecoding | BsfConverter.Core/BsfMapper.cs:21-102 | The byte 0 reads back as null for primitive, string and enum targets, and as an empty array for byte-array and list targets. For a class it is the parameterless construction; a constructor with parameters gives a count mismatch. Map and opaque targets fail. |
| RoundTrip.RoundTripNull | BsfConverter.Core/BsfDumper.cs:31-35 | Null is written as the single byte 0 and decodes back to the target's normalised null. |
| RoundTrip.RoundTripBytes | BsfConverter.Core/BsfMapper.cs:104-173 | Primitives, strings and byte arrays are a single Sequence and come back exactly, except that an empty string becomes null. |
| RoundTrip.RoundTripEnum | BsfConverter.Core/BsfMapper.cs:91-94 | An enum comes back as its number truncated to the configured width. |
| RoundTrip.RoundTripList | BsfConverter.Core/BsfMapper.cs:76-86 | A list whose elements survive the cast to the element type comes back with each element's expected value. |
| RoundTrip.DecodableListCases | BsfConverter.Core/BsfMapper.cs:76-86 | A list that survives the element cast holds no element when its elements are enums, and no null when they are primitives. |
| RoundTrip.RoundTripItems | BsfConverter.Core/BsfMapper.cs:76-86 | A run of encoded elements, each surviving the cast, reads back as their expected values, in order. |
| RoundTrip.AllIgnoredWritesNothing | BsfConverter.Core/BsfDumper.cs:189-197 | A member list whose members are all ignored writes no bytes. |
| RoundTrip.RoundTripClass | BsfConverter.Core/BsfMapper.cs:191-239 | An object comes back as the selected constructor applied to its members placed by name: properties first, then fields unless only properties are written. Members with a registered handler arrive as the handler's bytes. |
| RoundTrip.ClassEntriesRoundTrip | BsfConverter.Core/BsfMapper.cs:216-236 | The entries a class writes read back into the argument array that name-matching placement predicts. |
| RoundTrip.RoundTripMembers | BsfConverter.Core/BsfMapper.cs:221-236 | Each written member lands at the first parameter its name matches, ignoring case. A member with a registered handler lands there as the handler's bytes. Ignored members are skipped. Exactly the written entries are consumed. |
| RoundTrip.WrittenMemberStep | BsfConverter.Core/BsfMapper.cs:221-236 | One written member followed by the rest: its entry stores the member's expected value at the matched parameter, and reading continues with the remaining entries. |
| RoundTrip.RoundTripMemberValue | BsfConverter.Core/BsfMapper.cs:229-234 | A member's value reads back with the type of the parameter its name matches. A member without a handler comes back as its expected value. A member with a handler comes back through a byte-array parameter as the handler's bytes, or as an empty array when null. |
| Properties.NotWritableFails | BsfConverter.Core/BsfDumper.cs:28-29 | An unwritable sink fails for every value. |
| Properties.NotSeekableFails | BsfConverter.Core/BsfDumper.cs:177-230 | A non-seekable sink fails for every non-null list or class, and never with that error for primitives, strings, byte arrays or enums. |
| Properties.PrimitiveLayout | BsfConverter.Core/BsfDumper.cs:91-160 | A supported primitive writes exactly 1 + width bytes: its width as the mark, then its bytes. An unsupported one fails. |
| Properties.EnumLayout | BsfConverter.Core/BsfDumper.cs:72-80 | With long enums an enum is mark 2 and the low two bytes of its number, little-endian. Otherwise it is mark 1 and the low byte. |
| Properties.IgnoredMemberInvisible | BsfConverter.Core/BsfDumper.cs:189-191 | Changing an ignored member's value never changes the bytes written. |
| Properties.PropertiesOnlyIgnoresFields | BsfConverter.Core/BsfDumper.cs:199-211 | With IncludePropertiesOnly the encoding of an object does not depend on its fields. |
| Properties.ReadSequenceCases | BsfConverter.Core/BsfMapper.cs:291-305 | ReadSequence succeeds exactly when the header reads, is below 86, and is followed by at least its length in bytes. It then returns exactly those bytes. A mark ≥ 86 is a kind mismatch. |
| Properties.EmptySequenceIsNull | BsfConverter.Core/BsfMapper.cs:104-115 | A zero-length Sequence is null to string and primitive targets, however its header is written. |
| Properties.ClassDecodeErrors | BsfConverter.Core/BsfMapper.cs:191-217 | A class target checks in order: a non-zero mark below 170 fails, then two preferred constructors fail, then a missing constructor fails, then a count differing from a non-zero arity fails. |
| Properties.ParameterlessLeavesEntries | BsfConverter.Core/BsfMapper.cs:212 | A parameterless constructor is invoked right after the header, leaving whatever follows unread. |
| Properties.UnknownNameFails | BsfConverter.Core/BsfMapper.cs:223-229 | An entry whose name matches no parameter, or is empty, stops decoding with an error. |
| Properties.ListDecodeMarks | BsfConverter.Core/BsfMapper.cs:175-183 | A list target rejects a non-zero mark outside the Array band and reads mark 0 as an empty list. |
| WireSamples.StringHi | BsfConverter.Core/BsfDumper.cs:260-263 | "Hi" is the bytes 2, 0x48, 0x69, and those bytes read back as "Hi". |
| WireSamples.Int300 | BsfConverter.Core/BsfDumper.cs:111-115 | The int 300 is the bytes 4, 0x2C, 1, 0, 0. |
| WireSamples.EmptyList | BsfConverter.Core/BsfDumper.cs:222-245 | An empty list and null both write the single byte 0, which a list target reads as an empty list. |
| WireSamples.NestedListRoundTrip | BsfConverter.Test/BasicFunctionalityTests.cs:80-113 | A list of int lists whose first inner list is empty comes back unchanged. |
| WireSamples.EnumListWritten | BsfConverter.Core/BsfDumper.cs:222-245 | A one-item list holding enum value 5 is written as 86, 2, 5, 0. |
| WireSamples.EnumListRejected | BsfConverter.Core/BsfMapper.cs:76-86 | Those bytes, read as a list of enums, fail with an invalid cast. |
| WireSamples.NullIntElementRejected | BsfConverter.Core/BsfMapper.cs:76-86 | A one-item list whose item is null, read as a list of ints, fails the cast. |
| WireSamples.NullThroughTypedEntry | BsfConverter.Core/BsfMapper.cs:14-19 | The byte 0 read through the typed entry point fails the cast for an int or an enum target, is null for a string target, and is an empty array for a byte-array target. |
| WireSamples.EnumTopLevelRejected | BsfConverter.Core/BsfMapper.cs:14-19 | The bytes 2, 5, 0 decode as enum value 5, and the typed entry point then rejects them with an invalid cast. |
| WireSamples.GuidMemberRoundTrip | BsfConverter.Test/TestClass2.cs:3-22 | As in the repository's ComplexTest, a TestClass2 whose Guid is written through a registered handler comes back through the preferred constructor: the id as the handler's 16 bytes, with the same number and enum value. |
| Findings.EscapedSequenceAsWritten | BsfConverter.Core/BsfDumper.cs:265-291 | As written, 81 zero bytes are written as 82, 1 and the payload. They read back as a one-byte payload, so the round trip fails. |
| Findings.WideHeadersAsWritten | BsfConverter.Core/BsfDumper.cs:273-280 | As written, header width 8 fails, and width 4 writes 9 bytes. |
| Findings.EscapedSequenceCorrected | BsfConverter.Core/BsfDumper.cs:265-291 | With the length in the header, a Sequence of any length up to a signed long reads back whole. |
| Findings.PatchOverwritesAsWritten | BsfConverter.Core/BsfDumper.cs:222-245 | As written, an 81-item list's two-byte header loses the body's first byte, and it reads back as announcing one item. |
| Findings.PatchCorrected | BsfConverter.Core/BsfDumper.cs:222-245 | Corrected, the full header is placed in front of the untouched body. |

## Left out

- Reflection is replaced by the `Descriptor`: `GetProperties`, `GetFields`, `GetConstructors` and `MakeGenericMethod`. `ToArray` and `ToList` are one `Array` value. `Enumerable.Cast` and the final `(T?)` cast are kept only as the check `BsfMapper.Unboxes`: a boxed ushort or byte never unboxes to an enum, and null never unboxes to a primitive. Arrays, jagged arrays and `List<T>` are all one `List` descriptor.
- BsfMapper.DeserializeAs: the invalid cast and the null reference on unboxing are one `InvalidCast` error.
- Shapes.Descriptor: self-referential types cannot be described, such as a tree class with a `List<Tree>` field or a node whose `Next` is a node. `Descriptor` is an inductive datatype, so every descriptor is finite, and the decoder's termination rests on that. The round-trip theorem therefore says nothing about such types, although the source encodes and decodes them for any finite object graph: its decoder ends because every read consumes input. A cyclic object graph makes the source's encoder recurse without bound, which the model cannot express either.
- Multi-rank arrays (rank 2 or more) and their element-type arithmetic are not modelled.
- Other generic enumerables are not modelled. The encoder writes them as collections; the decoder rejects every one but arrays and `List<T>`.
- Streams are byte sequences plus capability flags. Positions, partial reads by `Stream.Read`, and the positions in error messages are not modelled. Restoring the position after a back-patch shows only as the output length.
- Floats and doubles are opaque 4- and 8-byte patterns.
- Strings and member names are their UTF-8 bytes; no encoding or decoding is modelled. Case-insensitive matching folds ASCII letters only.
- Handler bodies (e.g. `Guid.ToByteArray`) are functions held in the settings. The decoder has no counterpart for them. The round trip covers a handled value only as a class member whose matching parameter is a byte array, which receives the handler's bytes. A handled value at the top level or inside a list is excluded.
- Constructor invocation is the value `Constructed(index, arguments)`. What a constructor does with its arguments is outside the model.
- An enum whose underlying type is not `int` would fail the `(int)` unboxing; only `int` enums are modelled.
- Dictionary key order is the order of the entry list.
- BsfMapper.Deserialize: the decoder progress contracts state only that input is consumed (`|rest| < |input|`), not that `rest` is a suffix of the input. The round-trip lemmas pin down `rest` exactly.
- RoundTrip.RoundTripValue: the round trip is stated for decodable values only. Excluded are:
  - lengths beyond the header mode's range;
  - classes whose number of written members differs from the selected constructor's arity;
  - class members that match no parameter of the same type, or, for a member with a handler, no byte-array parameter;
  - list elements that fail the cast to the element type, i.e. any non-empty list of enums, and null elements of primitive lists;
  - values with a handler outside a class member;
  - dictionaries and opaque structs, which the decoder rejects.

Where the format's documented behaviour and the code disagree, the model follows the code:

- A Map target is described as decodable. The code rejects it, because `Dictionary<,>` is neither an array nor a `List<>`.
- Null decoded against any target is described as never failing. The code fails for Map and opaque targets (`NullDecoding`). It fails for a class whose selected constructor has parameters (count mismatch), for a class with two preferred constructors, and for a class with no public constructor. Through `Deserialize<T>` it also fails for every primitive and every enum target, because null does not unbox to a value type (`NullThroughTypedEntry`).
- A zero-length Sequence is described as null for a byte-array target. The code returns an empty array, because reading zero bytes gives a new empty array (`NullDecoding`, `NullThroughTypedEntry`).
- The int 300 is described as the six bytes 0x52, 0x04, 0x2C, 0x01, 0x00, 0x00, with an escape mark and a length header. The code writes 4, 0x2C, 1, 0, 0: a four-byte payload is in the direct range, so mark 4 is its length (`Int300`).
- Two preferred constructors are described as failing at encode time too. The encoder never inspects constructors.
- Escape headers are described as holding the length. The code writes the width; see Findings.
- Sequence mark 81 is described as a direct length. No length is ever encoded with it (`Mark81NeverProduced`).
- An enum target is described as decoding to the enumeration's value. The code fails for a non-empty list of enums and for an enum requested at the top level, because a boxed ushort or byte does not unbox to an enum (`EnumListRejected`, `EnumTopLevelRejected`). Enum members of a class are fine: the constructor call converts them.

## Findings

| source | as written | input that shows it | evidently intended | confidence | as-written member | corrected member |
|---|---|---|---|---|---|---|
| BsfConverter.Core/BsfDumper.cs:267-282 | The header after an escape mark holds `GetLength(mark)`, i.e. the header width, instead of the length. Width 4 is written as an 8-byte long, width 8 throws, and case 3 is dead. | A byte array of 81 zero bytes is written as 82, 1 and then the payload. It reads back as the one-byte payload [0] with 80 bytes left over. A length above 2^32−1 throws on writing. | The header holds the real length in the width the mark selects. | not executed | Findings.EscapedSequenceAsWritten | Findings.EscapedSequenceCorrected |
| BsfConverter.Core/BsfDumper.cs:229-244 | A list or class reserves one byte for its header and writes the header there after the body. A header longer than one byte overwrites the body. | A list of 81 items gets header 166, 1 over the reserved byte and the first body byte. The first element is corrupted and the reader expects one item. | The full header goes in front of the untouched body. | not executed | Findings.PatchOverwritesAsWritten | Findings.PatchCorrected |
