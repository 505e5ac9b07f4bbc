/** Records of consecutive byte fields. */
module FieldCodec {
  import opened Wrappers
  import opened Sequences
  import opened Wire

  /** Where piece `i` of a record starts. */
  function PieceStart(pieces: seq<seq<byte>>, i: nat): nat
    requires i <= |pieces|
  {
    if i == 0 then 0 else PieceStart(pieces, i - 1) + |pieces[i - 1]|
  }

  lemma {:induction false} StartSkipsFirst(pieces: seq<seq<byte>>, i: nat)
    requires 0 < i <= |pieces|
    ensures PieceStart(pieces, i) == |pieces[0]| + PieceStart(pieces[1..], i - 1)
  {
    if i > 1 {
      StartSkipsFirst(pieces, i - 1);
    }
  }

  lemma {:induction false} RecordLength(pieces: seq<seq<byte>>)
    ensures |Flatten(pieces)| == PieceStart(pieces, |pieces|)
  {
    if pieces != [] {
      RecordLength(pieces[1..]);
      StartSkipsFirst(pieces, |pieces|);
    }
  }

  /** A piece of a record is found at its own place, whatever follows the record. */
  lemma {:induction false} PieceReadsBack(pieces: seq<seq<byte>>, i: nat, after: seq<byte>)
    requires i < |pieces|
    ensures var bytes, at := Flatten(pieces) + after, PieceStart(pieces, i);
      at + |pieces[i]| <= |bytes| && bytes[at..at + |pieces[i]|] == pieces[i]
  {
    var head, rest := pieces[0], Flatten(pieces[1..]);
    var bytes := Flatten(pieces) + after;
    assert bytes == head + (rest + after);
    hide Flatten;
    if i == 0 {
      assert bytes[0..|head|] == head;
    } else {
      PieceReadsBack(pieces[1..], i - 1, after);
      StartSkipsFirst(pieces, i);
      var at, n := PieceStart(pieces[1..], i - 1), |pieces[i]|;
      assert bytes[|head| + at..|head| + at + n] == (rest + after)[at..at + n];
    }
  }

  /** A number written as a piece of a record reads back. */
  lemma NumberReadsBack(pieces: seq<seq<byte>>, i: nat, v: nat, n: nat, after: seq<byte>)
    requires i < |pieces| && pieces[i] == ToLE(v, n) && v < Pow256(n)
    ensures var bytes, at := Flatten(pieces) + after, PieceStart(pieces, i);
      at + n <= |bytes| && FromLE(bytes[at..at + n]) == v
  {
    PieceReadsBack(pieces, i, after);
    FromToLE(v, n);
  }

  function U16At(bytes: seq<byte>, at: nat): (v: nat)
    requires at + 2 <= |bytes|
    ensures v < TWO_16 && v == FromLE(bytes[at..at + 2])
  {
    ToFromLE(bytes[at..at + 2]);
    Pow256Values();
    FromLE(bytes[at..at + 2])
  }

  function U32At(bytes: seq<byte>, at: nat): (v: u32)
    requires at + 4 <= |bytes|
    ensures v == FromLE(bytes[at..at + 4])
  {
    ToFromLE(bytes[at..at + 4]);
    Pow256Values();
    FromLE(bytes[at..at + 4])
  }

  function U64At(bytes: seq<byte>, at: nat): (v: u64)
    requires at + 8 <= |bytes|
    ensures v == FromLE(bytes[at..at + 8])
  {
    ToFromLE(bytes[at..at + 8]);
    Pow256Values();
    FromLE(bytes[at..at + 8])
  }

  // ---- arrays of u32 ------------------------------------------------------------------------------

  function WriteWords(words: seq<u32>): (bytes: seq<byte>)
    ensures |bytes| == 4 * |words|
  {
    if words == [] then [] else WriteWords(words[..|words| - 1]) + ToLE(words[|words| - 1], 4)
  }

  function ReadWords(bytes: seq<byte>, at: nat, n: nat): (words: seq<u32>)
    requires at + 4 * n <= |bytes|
    ensures |words| == n
  {
    if n == 0 then [] else ReadWords(bytes, at, n - 1) + [U32At(bytes, at + 4 * (n - 1))]
  }

  lemma {:induction false} WordsReadBack(bytes: seq<byte>, before: seq<byte>, words: seq<u32>, after: seq<byte>)
    requires bytes == before + WriteWords(words) + after
    ensures ReadWords(bytes, |before|, |words|) == words
  {
    if words != [] {
      var init, last := words[..|words| - 1], words[|words| - 1];
      assert bytes == before + WriteWords(init) + (ToLE(last, 4) + after);
      WordsReadBack(bytes, before, init, ToLE(last, 4) + after);
      hide ToLE, FromLE, WriteWords;
      var at := |before| + 4 * |init|;
      assert bytes[at..at + 4] == ToLE(last, 4);
      Pow256Values();
      FromToLE(last, 4);
    }
  }
}
