/** Two defects of the header writer, each shown on the code as written
    (HeaderMode AsWritten) next to the corrected behaviour (Corrected)
    that the round-trip theorem is proved for.

    1. WriteHeader writes the header WIDTH the mark selects, not the
       length, after an escape mark; width 4 is written as an 8-byte long
       and width 8 has no case.
    2. A collection or class reserves one byte for a header that is
       written after the body; a longer header overwrites the body. */
module Findings {
  import opened LittleEndian
  import opened Results
  import opened ByteMarkUtils
  import opened Shapes
  import D = BsfDumper
  import M = BsfMapper
  import opened Steps
  import opened RoundTrip

  const Zeros81: seq<byte> := seq(81, _ => 0)

  /** As written: 81 payload bytes get mark 82 and a header byte 1, so the
      reader takes a one-byte payload and leaves the other 80 bytes
      behind. */
  lemma EscapedSequenceAsWritten()
    ensures D.WriteSequence(D.AsWritten, Zeros81) == Ok([82, 1] + Zeros81)
    ensures M.ReadSequence([82, 1] + Zeros81) == Ok(M.Parsed([0], Zeros81[1..]))
    ensures M.ReadSequence(D.WriteSequence(D.AsWritten, Zeros81).value) != Ok(M.Parsed(Zeros81, []))
  {
    Mark81NeverProduced(SequenceKind, 81);
    assert D.WriteHeader(82) == Ok([82] + [1]);
    assert [82 as byte] + [1] + Zeros81 == [82, 1] + Zeros81;
    var input: seq<byte> := [82, 1] + Zeros81;
    assert input[1..2] == [1];
    assert FromLE([1]) == 1 + 256 * FromLE([]);
    assert input[2..] == Zeros81;
    assert M.ReadHeader(input) == Ok(M.Parsed(M.Header(82, 1), Zeros81));
    assert Zeros81[..1] == [0];
  }

  /** As written, the widest headers cannot be produced at all: width 8
      fails, and width 4 writes eight bytes instead of four. */
  lemma WideHeadersAsWritten()
    ensures D.WriteHeader(85) == Err(Unreachable)
    ensures D.WriteHeader(84).Ok? && |D.WriteHeader(84).value| == 9
    ensures GetLength(84).length == 4
  {
  }

  /** Corrected: an escape header holds the length itself, so a Sequence
      of any length up to a signed long reads back whole. */
  lemma EscapedSequenceCorrected(payload: seq<byte>, rest: seq<byte>)
    requires |payload| <= M.MaxLong
    ensures D.WriteSequence(D.Corrected, payload).Ok?
    ensures M.ReadSequence(D.WriteSequence(D.Corrected, payload).value + rest) == Ok(M.Parsed(payload, rest))
  {
    SequenceRoundTrip(D.Settings(false, true, map[], D.Corrected), payload, rest);
  }

  /** As written: the header of an 81-item list is two bytes in a one-byte
      slot, so the first body byte is lost, and the header read back
      announces one item. */
  lemma PatchOverwritesAsWritten(body: seq<byte>)
    requires |body| >= 81
    ensures D.Backpatch(D.AsWritten, ArrayKind, 81, body) == Ok([166, 1] + body[1..])
    ensures |D.Backpatch(D.AsWritten, ArrayKind, 81, body).value| == 1 + |body|
    ensures M.ReadHeader(D.Backpatch(D.AsWritten, ArrayKind, 81, body).value) == Ok(M.Parsed(M.Header(166, 1), body[1..]))
  {
    assert GetMarkForLength(ArrayKind, 81) == 166;
    assert D.WriteHeader(166) == Ok([166] + [1]);
    assert [166 as byte] + [1] == [166, 1];
    assert D.LengthHeader(D.AsWritten, ArrayKind, 81) == Ok([166, 1]);
    var r := [166 as byte, 1] + body[1..];
    assert D.PatchHeader([166, 1], body) == r;
    assert r[1..2] == [1];
    assert FromLE([1]) == 1 + 256 * FromLE([]);
    assert r[2..] == body[1..];
    assert M.ReadHeader(r) == Ok(M.Parsed(M.Header(166, 1), body[1..]));
  }

  /** Corrected: the header is placed in front of the untouched body,
      whatever its width. */
  lemma PatchCorrected(k: Kind, count: nat, body: seq<byte>)
    requires count <= |body|
    ensures D.Backpatch(D.Corrected, k, count, body).Ok?
    ensures var r := D.Backpatch(D.Corrected, k, count, body).value;
      r[|r| - |body|..] == body && r[..|r| - |body|] == D.LengthHeader(D.Corrected, k, count).value
  {
    BackpatchPrefix(D.Corrected, k, count, body);
    var h := D.LengthHeader(D.Corrected, k, count).value;
    assert (h + body)[|h|..] == body;
    assert (h + body)[..|h|] == h;
  }
}
