/** The mark codec: the one-byte tag that starts every encoded value and
    tells its kind (raw byte sequence, array, dictionary) and its length,
    either directly or as the width of a little-endian length header that
    follows the mark. */
module ByteMarkUtils {
  import opened LittleEndian

  const NullMark: byte := 0
  const SingleMark: byte := 1
  const SequenceMark: byte := 2
  const ArrayMark: byte := 86
  const DictionaryMark: byte := 170
  const SequenceSoftLimit: byte := ArrayMark - 4
  const ArraySoftLimit: byte := DictionaryMark - 4

  /** The three length-carrying kinds of the wire format. */
  datatype Kind = SequenceKind | ArrayKind | DictionaryKind

  /** The base mark the encoder passes for each kind. */
  function BaseMark(k: Kind): byte
  {
    match k
    case SequenceKind => SequenceMark
    case ArrayKind => ArrayMark
    case DictionaryKind => DictionaryMark
  }

  /** Largest length a kind carries in the mark itself. */
  function DirectMax(k: Kind): nat
  {
    if k == DictionaryKind then 82 else 80
  }

  /** The widths of the length header, in ascending escape-mark order. */
  const HeaderWidths: seq<nat> := [1, 2, 4, 8]

  /** The first of the four escape marks closing each band. */
  function FirstEscape(k: Kind): byte
  {
    match k
    case SequenceKind => 82
    case ArrayKind => 166
    case DictionaryKind => 252
  }

  /** The band of the wire table a non-zero mark falls in. */
  function KindOf(mark: byte): Kind
    requires mark != NullMark
  {
    if mark < 86 then SequenceKind else if mark < 170 then ArrayKind else DictionaryKind
  }

  /** Marks of kind k, as the wire table lays them out. */
  predicate InBand(k: Kind, mark: byte)
  {
    match k
    case SequenceKind => 1 <= mark <= 85
    case ArrayKind => 86 <= mark <= 169
    case DictionaryKind => 170 <= mark
  }

  predicate IsEscape(mark: byte)
  {
    82 <= mark <= 85 || 166 <= mark <= 169 || 252 <= mark
  }

  /** What a mark says: a length, or (isHeader) the width of the header
      holding the length. */
  datatype MarkLength = MarkLength(length: nat, isHeader: bool)

  /** Reads a mark. Direct marks give their length; each band's last four
      marks give header widths 1, 2, 4 and 8. */
  function GetLength(mark: byte): (r: MarkLength)
    ensures r.isHeader <==> IsEscape(mark)
    ensures mark < 82 ==> r.length == mark
    ensures 86 <= mark < 166 ==> r.length == mark - 85
    ensures 170 <= mark < 252 ==> r.length == mark - 169
    ensures IsEscape(mark) ==> r.length == HeaderWidths[mark - FirstEscape(KindOf(mark))]
  {
    if mark < 2 then MarkLength(mark, false)
    else if mark < ArrayMark - 4 then MarkLength(mark - SequenceMark + 2, false)
    else if mark < ArrayMark then EscapeWidth(mark - SequenceSoftLimit + 1)
    else if mark < ArraySoftLimit then MarkLength(mark - ArrayMark + 1, false)
    else if mark < DictionaryMark then EscapeWidth(mark - ArraySoftLimit + 1)
    else if mark < 252 then MarkLength(mark - DictionaryMark + 1, false)
    else EscapeWidth(mark - 251)
  }

  /** The `diff switch` of GetLength: escape position 1..4 to width. */
  function EscapeWidth(diff: int): MarkLength
    requires 1 <= diff <= 4
  {
    MarkLength(if diff == 3 then 4 else if diff == 4 then 8 else diff, true)
  }

  /** The mark for a length of kind k. The narrowing (byte) casts of the
      source are written out as `% 256`; the contract shows they never
      wrap. Above the direct range the mark is the escape whose header is
      the narrowest of 1, 2, 4, 8 bytes that can hold the length. */
  function GetMarkForLength(k: Kind, length: nat): (mark: byte)
    ensures length == 0 ==> mark == NullMark
    ensures length > 0 ==> InBand(k, mark)
    ensures k == SequenceKind && length == 1 ==> mark == SingleMark
    ensures length > DirectMax(k) <==> IsEscape(mark)
  {
    var base := BaseMark(k);
    if length == 0 then 0
    else if length == 1 && base < ArrayMark then 1
    else if length > DirectMax(k) then EscapeMark(k, length)
    else (base + length - (if base < ArrayMark then 2 else 1)) % 256
  }

  /** The escape-mark cascade of GetMarkForLength, taken once the length
      exceeds the kind's direct range (80, or 82 for a dictionary). */
  function EscapeMark(k: Kind, length: nat): (mark: byte)
    requires length > DirectMax(k)
    ensures IsEscape(mark) && InBand(k, mark)
    ensures mark - FirstEscape(k) == (if length > 0xFFFF_FFFF then 3 else if length > 0xFFFF then 2
                                      else if length > 255 then 1 else 0)
  {
    var base := BaseMark(k);
    var range := if base >= DictionaryMark then 82 else 80;
    if length > 0xFFFF_FFFF then (base + range + 3) % 256
    else if length > 0xFFFF then (base + range + 2) % 256
    else if length > 255 then (base + range + 1) % 256
    else (base + range) % 256
  }

  /** Lengths in the direct range come back from the mark alone. */
  lemma DirectRoundTrip(k: Kind, length: nat)
    requires 1 <= length <= DirectMax(k)
    ensures GetLength(GetMarkForLength(k, length)) == MarkLength(length, false)
  {
  }

  /** Above the direct range the mark is an escape whose header width w is
      the smallest of 1, 2, 4, 8 with length < 256^w. */
  lemma EscapeWidthIsSmallest(k: Kind, length: nat)
    requires length > DirectMax(k)
    ensures GetLength(GetMarkForLength(k, length)).isHeader
    ensures var w := GetLength(GetMarkForLength(k, length)).length;
      && (length < Pow256(8) ==> length < Pow256(w))
      && (w > 1 ==> length >= Pow256(w / 2))
  {
    Pow256Values();
  }

  /** Mark 81 reads as a Sequence of length 81, yet no length is ever
      given mark 81: length 81 goes to the first Sequence escape. */
  lemma Mark81NeverProduced(k: Kind, length: nat)
    ensures GetLength(81) == MarkLength(81, false)
    ensures GetMarkForLength(k, length) != 81
    ensures GetMarkForLength(SequenceKind, 81) == 82
  {
  }

  /** Every direct mark other than 81 is what the encoder picks for the
      length it reads as, in its own band. */
  lemma DirectMarkInverse(mark: byte)
    requires mark != NullMark && !IsEscape(mark) && mark != 81
    ensures GetMarkForLength(KindOf(mark), GetLength(mark).length) == mark
  {
  }
}
