/** Column domains (`domain.rs`): the FileCodes of a column in order, and the dense map from FileCode to rank. */
module Domain {
  import opened Wrappers
  import opened Sequences
  import opened Wire
  import opened FieldCodec

  const COLUMN_DOMAIN_HEADER_LEN := 40
  const INVALID_RANK := TWO_32 - 1

  datatype Header = Header(
    tableId: u32, columnId: u32, logicalType: nat, collationId: nat, domainCount: u32,
    sortedOffset: u64, rankOffset: u64, flags: u32, checksum: u32)

  datatype ColumnDomain = ColumnDomain(header: Header, sortedCodes: seq<u32>, codeToRank: seq<u32>)

  method CheckAscending(codes: seq<nat>) returns (ascending: bool)
    ensures ascending <==> Ascends(codes)
  {
    var i := 1;
    while i < |codes|
      invariant i >= 1 && forall k :: 0 < k < i && k < |codes| ==> codes[k - 1] < codes[k]
    {
      if codes[i - 1] >= codes[i] {
        return false;
      }
      i := i + 1;
    }
    return true;
  }

  // ---- ranks --------------------------------------------------------------------------------------

  /** `rank_of`. */
  function RankOf(d: ColumnDomain, code: u32): Option<nat> {
    if code >= |d.codeToRank| || d.codeToRank[code] == INVALID_RANK then None
    else Some(d.codeToRank[code])
  }

  /** Every rank given out leads back to its FileCode. */
  predicate Safe(d: ColumnDomain) {
    forall code: u32 :: RankOf(d, code).Some? ==>
      RankOf(d, code).value < |d.sortedCodes| && d.sortedCodes[RankOf(d, code).value] == code
  }

  /** The ranks below `n` entries of the table, checked as `is_safe` does: the number of codes and the
      index are both cut to 32 bits. */
  predicate CheckedUpTo(d: ColumnDomain, n: nat) {
    forall i :: 0 <= i < n <= |d.codeToRank| && d.codeToRank[i] != INVALID_RANK ==>
      d.codeToRank[i] < |d.sortedCodes| % TWO_32 && d.sortedCodes[d.codeToRank[i]] == i % TWO_32
  }

  method IsSafe(d: ColumnDomain) returns (safe: bool)
    ensures safe <==> CheckedUpTo(d, |d.codeToRank|)
  {
    var n := |d.sortedCodes| % TWO_32;
    for i := 0 to |d.codeToRank|
      invariant CheckedUpTo(d, i)
    {
      var rank := d.codeToRank[i];
      if rank != INVALID_RANK {
        if rank >= n {
          return false;
        }
        if d.sortedCodes[rank] != i % TWO_32 {
          return false;
        }
      }
    }
    return true;
  }

  /** What the two cuts ask for beyond safety: with `2^32` codes or more, ranks below the cut number of
      codes; in a table of more than `2^32` entries, the entries no FileCode reaches to agree as well. */
  predicate CutsPass(d: ColumnDomain) {
    forall i :: 0 <= i < |d.codeToRank| && d.codeToRank[i] != INVALID_RANK ==>
      && (|d.sortedCodes| >= TWO_32 ==> d.codeToRank[i] < |d.sortedCodes| % TWO_32)
      && (i >= TWO_32 ==> d.codeToRank[i] < |d.sortedCodes| && d.sortedCodes[d.codeToRank[i]] == i % TWO_32)
  }

  /** `is_safe` accepts exactly the safe domains that the cuts let pass. Below `2^32` codes and up to `2^32`
      table entries that is every safe domain. */
  lemma IsSafeExactly(d: ColumnDomain)
    ensures CheckedUpTo(d, |d.codeToRank|) <==> Safe(d) && CutsPass(d)
    ensures |d.sortedCodes| < TWO_32 && |d.codeToRank| <= TWO_32 ==> CutsPass(d)
  {
    if CheckedUpTo(d, |d.codeToRank|) {
      forall code: u32 | RankOf(d, code).Some?
        ensures RankOf(d, code).value < |d.sortedCodes| && d.sortedCodes[RankOf(d, code).value] == code
      {
        assert code % TWO_32 == code;
        CutShortens(|d.sortedCodes|);
      }
      CutShortens(|d.sortedCodes|);
    }
    if Safe(d) && CutsPass(d) {
      forall i | 0 <= i < |d.codeToRank| && d.codeToRank[i] != INVALID_RANK
        ensures d.codeToRank[i] < |d.sortedCodes| % TWO_32 && d.sortedCodes[d.codeToRank[i]] == i % TWO_32
      {
        if i < TWO_32 {
          assert RankOf(d, i).Some?;
        }
      }
    }
  }

  lemma CutShortens(n: nat)
    ensures n % TWO_32 <= n && (n < TWO_32 ==> n % TWO_32 == n)
  {
  }

  /** A safe domain of `2^32` codes that `is_safe` refuses: the cut leaves no code to rank. */
  lemma SafeButRefused() returns (d: ColumnDomain)
    ensures |d.sortedCodes| == TWO_32 && Ascends(d.sortedCodes) && d.codeToRank == [0]
    ensures Safe(d) && !CheckedUpTo(d, |d.codeToRank|)
  {
    d := ColumnDomain(Header(0, 0, 0, 0, 0, 0, 0, 0, 0), seq(TWO_32, i requires 0 <= i < TWO_32 => i), [0]);
    assert d.codeToRank[0] == 0 && |d.sortedCodes| % TWO_32 == 0;
  }

  /** In a safe domain ranks identify FileCodes, and order them when the codes are listed in order. */
  lemma SafeRanksOrder(d: ColumnDomain, a: u32, b: u32)
    requires Safe(d) && RankOf(d, a).Some? && RankOf(d, b).Some?
    ensures RankOf(d, a) == RankOf(d, b) ==> a == b
    ensures Ascends(d.sortedCodes) ==> (RankOf(d, a).value < RankOf(d, b).value <==> a < b)
  {
    assert a < |d.codeToRank| && b < |d.codeToRank|;
    var i, j := RankOf(d, a).value, RankOf(d, b).value;
    if Ascends(d.sortedCodes) {
      if i < j {
        AscendsFar(d.sortedCodes, i, j);
      } else if j < i {
        AscendsFar(d.sortedCodes, j, i);
      }
    }
  }

  // ---- building -----------------------------------------------------------------------------------

  /** The table holds the rank of each of the first `n` codes and nothing else. */
  predicate RanksOf(table: seq<u32>, codes: seq<int>, n: nat)
    requires n <= |codes|
  {
    && (forall i :: 0 <= i < n ==> 0 <= codes[i] < |table| && table[codes[i]] == i)
    && forall c :: 0 <= c < |table| && table[c] != INVALID_RANK ==> table[c] < n && codes[table[c]] == c
  }

  /** Strictly ascending codes below a bound are no more than the bound. */
  lemma {:induction false} CodesBelow(codes: seq<nat>, bound: nat, i: nat)
    requires Ascends(codes) && i < |codes| && forall k :: 0 <= k < |codes| ==> codes[k] < bound
    ensures i <= codes[i] < bound
  {
    if i > 0 {
      CodesBelow(codes, bound, i - 1);
    }
  }

  predicate CodesBounded(codes: seq<int>, bound: nat) {
    forall i :: 0 <= i < |codes| ==> codes[i] < bound
  }

  /** `from_sorted_present_codes`. */
  method FromSortedPresentCodes(codes: seq<u32>, entryCount: u32, tableId: u32, columnId: u32,
      logicalType: nat, collationId: nat, flags: u32)
    returns (r: Result<ColumnDomain>)
    ensures !Ascends(codes) ==> r == Err(BadDomain)
    ensures Ascends(codes) && !CodesBounded(codes, entryCount) ==> r == Err(BadFileCode)
    ensures Ascends(codes) && CodesBounded(codes, entryCount) ==> r.Ok?
    ensures r.Ok? ==>
      && |codes| < TWO_32 && r.value.sortedCodes == codes
      && |r.value.codeToRank| == entryCount && RanksOf(r.value.codeToRank, codes, |codes|)
      && r.value.header == CanonicalHeader(Header(tableId, columnId, logicalType, collationId, 0, 0, 0, flags, 0),
        |codes|)
  {
    var ascending := CheckAscending(codes);
    if !ascending {
      return Err(BadDomain);
    }
    for i := 0 to |codes|
      invariant forall k :: 0 <= k < i ==> codes[k] < entryCount
    {
      if codes[i] >= entryCount {
        return Err(BadFileCode);
      }
    }
    if codes != [] {
      CodesBelow(codes, entryCount, |codes| - 1);
    }
    var ranks := FillRanks(codes, entryCount);
    return Ok(ColumnDomain(
      CanonicalHeader(Header(tableId, columnId, logicalType, collationId, 0, 0, 0, flags, 0), |codes|), codes, ranks));
  }

  method FillRanks(codes: seq<u32>, entryCount: u32) returns (ranks: seq<u32>)
    requires Ascends(codes) && CodesBounded(codes, entryCount)
    ensures |ranks| == entryCount && RanksOf(ranks, codes, |codes|)
  {
    var table := new u32[entryCount](_ => INVALID_RANK);
    for rank := 0 to |codes|
      invariant RanksOf(table[..], codes, rank)
    {
      CodesBelow(codes, entryCount, rank);
      forall i | 0 <= i < rank ensures codes[i] < codes[rank] {
        AscendsFar(codes, i, rank);
      }
      table[codes[rank]] := rank;
    }
    return table[..];
  }

  /** A built domain ranks exactly its codes, in order, and is safe. */
  lemma BuiltDomainIsSafe(d: ColumnDomain, code: u32, i: nat)
    requires |d.sortedCodes| < TWO_32 && RanksOf(d.codeToRank, d.sortedCodes, |d.sortedCodes|)
    ensures Safe(d)
    ensures RankOf(d, code) == Some(i) <==> i < |d.sortedCodes| && d.sortedCodes[i] == code
  {
  }

  // ---- the section bytes --------------------------------------------------------------------------

  /** The header `serialize` writes: layout and count recomputed. */
  function CanonicalHeader(h: Header, count: nat): Header
    requires count < TWO_32
  {
    h.(
      domainCount := count, sortedOffset := COLUMN_DOMAIN_HEADER_LEN,
      rankOffset := COLUMN_DOMAIN_HEADER_LEN + 4 * count)
  }

  predicate HeaderFits(h: Header) {
    h.logicalType < TWO_16 && h.collationId < TWO_16
  }

  function HeaderPieces(h: Header): seq<seq<byte>> {
    [ToLE(h.tableId, 4), ToLE(h.columnId, 4), ToLE(h.logicalType, 2), ToLE(h.collationId, 2), ToLE(h.domainCount, 4),
     ToLE(h.sortedOffset, 8), ToLE(h.rankOffset, 8), ToLE(h.flags, 4)]
  }

  const ZERO_CHECKSUM: seq<byte> := [0, 0, 0, 0]

  /** The header with its checksum over the bytes with the checksum field zeroed. */
  function HeaderBytes(crc: seq<byte> -> u32, h: Header): seq<byte> {
    var body := Flatten(HeaderPieces(h));
    body + ToLE(crc(body + ZERO_CHECKSUM), 4)
  }

  function ParseHeader(crc: seq<byte> -> u32, bytes: seq<byte>): Result<Header> {
    if |bytes| < COLUMN_DOMAIN_HEADER_LEN then Err(BufferTooShort)
    else
      var h := Header(U32At(bytes, 0), U32At(bytes, 4), U16At(bytes, 8), U16At(bytes, 10), U32At(bytes, 12),
                      U64At(bytes, 16), U64At(bytes, 24), U32At(bytes, 32), U32At(bytes, 36));
      if crc(bytes[..36] + ZERO_CHECKSUM) != h.checksum then Err(ChecksumMismatch) else Ok(h)
  }

  lemma HeaderStarts(h: Header)
    ensures var p := HeaderPieces(h);
      && PieceStart(p, 0) == 0 && PieceStart(p, 1) == 4 && PieceStart(p, 2) == 8 && PieceStart(p, 3) == 10
      && PieceStart(p, 4) == 12 && PieceStart(p, 5) == 16 && PieceStart(p, 6) == 24 && PieceStart(p, 7) == 32
      && |Flatten(p)| == 36
  {
    var p := HeaderPieces(h);
    assert PieceStart(p, 0) == 0;
    assert PieceStart(p, 1) == 4;
    assert PieceStart(p, 2) == 8;
    assert PieceStart(p, 3) == 10;
    assert PieceStart(p, 4) == 12;
    assert PieceStart(p, 5) == 16;
    assert PieceStart(p, 6) == 24;
    assert PieceStart(p, 7) == 32;
    RecordLength(p);
  }

  /** The fields of a written header, read back from their places. */
  lemma HeaderFieldsReadBack(h: Header, rest: seq<byte>)
    requires HeaderFits(h)
    ensures var bytes := Flatten(HeaderPieces(h)) + rest;
      && |bytes| == 36 + |rest|
      && U32At(bytes, 0) == h.tableId && U32At(bytes, 4) == h.columnId && U16At(bytes, 8) == h.logicalType
      && U16At(bytes, 10) == h.collationId && U32At(bytes, 12) == h.domainCount && U64At(bytes, 16) == h.sortedOffset
      && U64At(bytes, 24) == h.rankOffset && U32At(bytes, 32) == h.flags
  {
    var p := HeaderPieces(h);
    HeaderStarts(h);
    hide ToLE, FromLE, Flatten, PieceStart, Pow256;
    Pow256Values();
    NumberReadsBack(p, 0, h.tableId, 4, rest);
    NumberReadsBack(p, 1, h.columnId, 4, rest);
    NumberReadsBack(p, 2, h.logicalType, 2, rest);
    NumberReadsBack(p, 3, h.collationId, 2, rest);
    NumberReadsBack(p, 4, h.domainCount, 4, rest);
    NumberReadsBack(p, 5, h.sortedOffset, 8, rest);
    NumberReadsBack(p, 6, h.rankOffset, 8, rest);
    NumberReadsBack(p, 7, h.flags, 4, rest);
  }

  /** A written header reads back, whatever follows it, with its checksum filled in. */
  lemma HeaderReadsBack(crc: seq<byte> -> u32, h: Header, after: seq<byte>)
    requires HeaderFits(h)
    ensures |HeaderBytes(crc, h)| == COLUMN_DOMAIN_HEADER_LEN
    ensures ParseHeader(crc, HeaderBytes(crc, h) + after)
            == Ok(h.(checksum := crc(Flatten(HeaderPieces(h)) + ZERO_CHECKSUM)))
  {
    var body := Flatten(HeaderPieces(h));
    var checksum := crc(body + ZERO_CHECKSUM);
    var rest := ToLE(checksum, 4) + after;
    var bytes := HeaderBytes(crc, h) + after;
    assert bytes == body + rest;
    HeaderFieldsReadBack(h, rest);
    hide ToLE, FromLE, Flatten, HeaderPieces;
    Pow256Values();
    FromToLE(checksum, 4);
    assert bytes[36..40] == ToLE(checksum, 4);
    assert bytes[..36] == body;
  }

  /** `serialize`. */
  function SectionBytes(crc: seq<byte> -> u32, d: ColumnDomain): Result<seq<byte>> {
    if |d.sortedCodes| >= TWO_32 then Err(BadDomain)
    else Ok(HeaderBytes(crc, CanonicalHeader(d.header, |d.sortedCodes|)) + WriteWords(d.sortedCodes)
      + WriteWords(d.codeToRank))
  }

  method Serialize(crc: seq<byte> -> u32, d: ColumnDomain) returns (r: Result<seq<byte>>)
    ensures r == SectionBytes(crc, d)
  {
    hide HeaderBytes;
    if |d.sortedCodes| >= TWO_32 {
      return Err(BadDomain);
    }
    var head := HeaderBytes(crc, CanonicalHeader(d.header, |d.sortedCodes|));
    var out := AppendWords(head, d.sortedCodes);
    out := AppendWords(out, d.codeToRank);
    return Ok(out);
  }

  method AppendWords(prefix: seq<byte>, words: seq<u32>) returns (out: seq<byte>)
    ensures out == prefix + WriteWords(words)
  {
    out := prefix;
    for i := 0 to |words|
      invariant out == prefix + WriteWords(words[..i])
    {
      assert words[..i + 1][..i] == words[..i];
      out := out + ToLE(words[i], 4);
    }
    assert words[..|words|] == words;
  }

  /** `parse`: the sorted codes must lie behind the header, ascend, and the ranks fill the rest of the section. */
  function ParseSection(crc: seq<byte> -> u32, bytes: seq<byte>): Result<ColumnDomain> {
    var h :- ParseHeader(crc, bytes);
    var end := h.sortedOffset + 4 * h.domainCount;
    if end >= TWO_64 then Err(ArithOverflow)
    else if end > |bytes| then Err(OffsetRange)
    else if h.sortedOffset < COLUMN_DOMAIN_HEADER_LEN then Err(BadDomain)
    else
      var codes := ReadWords(bytes, h.sortedOffset, h.domainCount);
      if !Ascends(codes) then Err(BadDomain)
      else if h.rankOffset < COLUMN_DOMAIN_HEADER_LEN || h.rankOffset > |bytes| then Err(OffsetRange)
      else if (|bytes| - h.rankOffset) % 4 != 0 then Err(BadDomain)
      else Ok(ColumnDomain(h, codes, ReadWords(bytes, h.rankOffset, (|bytes| - h.rankOffset) / 4)))
  }

  method Parse(crc: seq<byte> -> u32, bytes: seq<byte>) returns (r: Result<ColumnDomain>)
    ensures r == ParseSection(crc, bytes)
  {
    hide ParseHeader;
    var header := ParseHeader(crc, bytes);
    if header.Err? {
      return Err(header.error);
    }
    var h := header.value;
    var end := h.sortedOffset + 4 * h.domainCount;
    if end >= TWO_64 {
      return Err(ArithOverflow);
    }
    if end > |bytes| {
      return Err(OffsetRange);
    }
    if h.sortedOffset < COLUMN_DOMAIN_HEADER_LEN {
      return Err(BadDomain);
    }
    var codes := CollectWords(bytes, h.sortedOffset, h.domainCount);
    var ascending := CheckAscending(codes);
    if !ascending {
      return Err(BadDomain);
    }
    if h.rankOffset < COLUMN_DOMAIN_HEADER_LEN || h.rankOffset > |bytes| {
      return Err(OffsetRange);
    }
    if (|bytes| - h.rankOffset) % 4 != 0 {
      return Err(BadDomain);
    }
    var ranks := CollectWords(bytes, h.rankOffset, (|bytes| - h.rankOffset) / 4);
    return Ok(ColumnDomain(h, codes, ranks));
  }

  method CollectWords(bytes: seq<byte>, at: nat, n: nat) returns (words: seq<u32>)
    requires at + 4 * n <= |bytes|
    ensures words == ReadWords(bytes, at, n)
  {
    words := [];
    for i := 0 to n
      invariant words == ReadWords(bytes, at, i)
    {
      words := words + [U32At(bytes, at + 4 * i)];
    }
  }

  /** What comes back from the section `d` was written to. */
  function Reread(crc: seq<byte> -> u32, d: ColumnDomain): ColumnDomain
    requires |d.sortedCodes| < TWO_32
  {
    var h := CanonicalHeader(d.header, |d.sortedCodes|);
    d.(header := h.(checksum := crc(Flatten(HeaderPieces(h)) + ZERO_CHECKSUM)))
  }

  /** A section whose parts read back is that domain, provided its codes ascend. */
  lemma ParseParts(crc: seq<byte> -> u32, bytes: seq<byte>, h: Header, codes: seq<u32>, ranks: seq<u32>)
    requires ParseHeader(crc, bytes) == Ok(h) && h.domainCount == |codes|
    requires h.sortedOffset == COLUMN_DOMAIN_HEADER_LEN && h.rankOffset == COLUMN_DOMAIN_HEADER_LEN + 4 * |codes|
    requires |bytes| == h.rankOffset + 4 * |ranks|
    requires ReadWords(bytes, h.sortedOffset, |codes|) == codes && ReadWords(bytes, h.rankOffset, |ranks|) == ranks
    ensures ParseSection(crc, bytes) == if Ascends(codes) then Ok(ColumnDomain(h, codes, ranks)) else Err(BadDomain)
  {
    hide ParseHeader, ReadWords, Ascends;
    var end := h.sortedOffset + 4 * h.domainCount;
    assert end == h.rankOffset <= |bytes| && end < TWO_64;
    assert (|bytes| - h.rankOffset) % 4 == 0 && (|bytes| - h.rankOffset) / 4 == |ranks|;
  }

  lemma SectionSplit(head: seq<byte>, codes: seq<byte>, ranks: seq<byte>)
    ensures head + codes + ranks == head + (codes + ranks)
    ensures head + codes + ranks + [] == head + codes + ranks
    ensures |head + codes| == |head| + |codes|
  {
  }

  lemma WordsInSection(bytes: seq<byte>, head: seq<byte>, codes: seq<u32>, ranks: seq<u32>, at: nat)
    requires bytes == head + WriteWords(codes) + WriteWords(ranks) && at == |head| + 4 * |codes|
    ensures bytes == head + (WriteWords(codes) + WriteWords(ranks)) && |bytes| == at + 4 * |ranks|
    ensures ReadWords(bytes, |head|, |codes|) == codes && ReadWords(bytes, at, |ranks|) == ranks
  {
    var w, before: seq<byte>, none: seq<byte> := WriteWords(ranks), head + WriteWords(codes), [];
    SectionSplit(head, WriteWords(codes), w);
    assert |before| == at;
    hide ReadWords, WriteWords;
    WordsReadBack(bytes, head, codes, w);
    WordsReadBack(bytes, before, ranks, none);
  }

  /** `parse` undoes `serialize` exactly on the domains whose codes ascend; it refuses the others. */
  lemma ParseUndoesSerialize(crc: seq<byte> -> u32, d: ColumnDomain)
    requires HeaderFits(d.header) && SectionBytes(crc, d).Ok?
    ensures ParseSection(crc, SectionBytes(crc, d).value) ==
      if Ascends(d.sortedCodes) then Ok(Reread(crc, d)) else Err(BadDomain)
  {
    var h, bytes := CanonicalHeader(d.header, |d.sortedCodes|), SectionBytes(crc, d).value;
    var written := Reread(crc, d).header;
    hide HeaderBytes, ParseHeader, WriteWords, ReadWords, Flatten, ParseSection, Ascends, HeaderPieces;
    HeaderReadsBack(crc, h, WriteWords(d.sortedCodes) + WriteWords(d.codeToRank));
    WordsInSection(bytes, HeaderBytes(crc, h), d.sortedCodes, d.codeToRank, written.rankOffset);
    assert ParseHeader(crc, bytes) == Ok(written);
    ParseParts(crc, bytes, written, d.sortedCodes, d.codeToRank);
  }

  /** A domain whose two codes descend is written, and refused when read. */
  lemma DescendingIsRefused(crc: seq<byte> -> u32) returns (d: ColumnDomain)
    ensures d.sortedCodes == [1, 0] && HeaderFits(d.header)
    ensures SectionBytes(crc, d).Ok? && ParseSection(crc, SectionBytes(crc, d).value) == Err(BadDomain)
  {
    d := ColumnDomain(Header(0, 0, 0, 0, 0, 0, 0, 0, 0), [1, 0], []);
    hide HeaderBytes, WriteWords, ParseSection;
    assert d.sortedCodes[0] == 1 && d.sortedCodes[1] == 0;
    ParseUndoesSerialize(crc, d);
  }
}
