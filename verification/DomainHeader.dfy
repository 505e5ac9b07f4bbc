/** Which bytes are a domain header: exactly those the writer produces, so a damaged header is refused. */
module DomainHeader {
  import opened Wrappers
  import opened Sequences
  import opened Wire
  import opened FieldCodec
  import opened Domain

  /** The 36 bytes in front of the checksum, cut at the fields. */
  function FieldSlices(bytes: seq<byte>): seq<seq<byte>>
    requires |bytes| >= 36
  {
    [bytes[0..4], bytes[4..8], bytes[8..10], bytes[10..12], bytes[12..16], bytes[16..24], bytes[24..32], bytes[32..36]]
  }

  lemma SlicesJoin(bytes: seq<byte>)
    requires |bytes| >= 36
    ensures Flatten(FieldSlices(bytes)) == bytes[..36]
  {
    var s := FieldSlices(bytes);
    FlattenEight(s);
    assert s[0] + s[1] == bytes[..8];
    assert bytes[..8] + s[2] == bytes[..10];
    assert bytes[..10] + s[3] == bytes[..12];
    assert bytes[..12] + s[4] == bytes[..16];
    assert bytes[..16] + s[5] == bytes[..24];
    assert bytes[..24] + s[6] == bytes[..32];
    assert bytes[..32] + s[7] == bytes[..36];
  }

  lemma FlattenEight(s: seq<seq<byte>>)
    requires |s| == 8
    ensures Flatten(s) == s[0] + s[1] + s[2] + s[3] + s[4] + s[5] + s[6] + s[7]
  {
    FlattenFour(s[..4]);
    FlattenFour(s[4..]);
    assert s == s[..4] + s[4..];
    FlattenAppend(s[..4], s[4..]);
  }

  lemma FlattenFour(s: seq<seq<byte>>)
    requires |s| == 4
    ensures Flatten(s) == s[0] + s[1] + s[2] + s[3]
  {
    assert Flatten(s) == s[0] + Flatten(s[1..]);
    assert Flatten(s[1..]) == s[1] + Flatten(s[2..]) by {
      assert s[1..][1..] == s[2..];
    }
    assert Flatten(s[2..]) == s[2] + Flatten(s[3..]) by {
      assert s[2..][1..] == s[3..];
    }
    assert Flatten(s[3..]) == s[3] + [] by {
      assert s[3..][1..] == [];
    }
  }

  /** The header whose fields stand at their places. */
  function FieldsOf(bytes: seq<byte>): (h: Header)
    requires |bytes| >= COLUMN_DOMAIN_HEADER_LEN
    ensures HeaderFits(h)
  {
    Header(U32At(bytes, 0), U32At(bytes, 4), U16At(bytes, 8), U16At(bytes, 10), U32At(bytes, 12),
           U64At(bytes, 16), U64At(bytes, 24), U32At(bytes, 32), U32At(bytes, 36))
  }

  lemma FieldsAreSlices(bytes: seq<byte>)
    requires |bytes| >= COLUMN_DOMAIN_HEADER_LEN
    ensures HeaderPieces(FieldsOf(bytes)) == FieldSlices(bytes)
    ensures ToLE(U32At(bytes, 36), 4) == bytes[36..40]
  {
    hide ToLE, FromLE;
    ToFromLE(bytes[0..4]);
    ToFromLE(bytes[4..8]);
    ToFromLE(bytes[8..10]);
    ToFromLE(bytes[10..12]);
    ToFromLE(bytes[12..16]);
    ToFromLE(bytes[16..24]);
    ToFromLE(bytes[24..32]);
    ToFromLE(bytes[32..36]);
    ToFromLE(bytes[36..40]);
  }

  /** The bytes start with a header as the writer writes it. */
  ghost predicate StartsWithHeader(crc: seq<byte> -> u32, bytes: seq<byte>, h: Header) {
    HeaderFits(h) && |bytes| >= COLUMN_DOMAIN_HEADER_LEN && bytes[..COLUMN_DOMAIN_HEADER_LEN] == HeaderBytes(crc, h)
  }

  /** Bytes that parse start with the header that was written for the fields they hold. */
  lemma ParsedIsWritten(crc: seq<byte> -> u32, bytes: seq<byte>)
    requires ParseHeader(crc, bytes).Ok?
    ensures StartsWithHeader(crc, bytes, ParseHeader(crc, bytes).value)
  {
    FieldsAreSlices(bytes);
    SlicesJoin(bytes);
    hide ToLE, FromLE, Flatten, HeaderPieces, FieldSlices;
    assert ParseHeader(crc, bytes).value == FieldsOf(bytes);
    assert bytes[..40] == bytes[..36] + bytes[36..40];
  }

  /** A header is accepted exactly when its 40 bytes are what the writer produces for some fields. */
  lemma HeaderAcceptedExactly(crc: seq<byte> -> u32, bytes: seq<byte>)
    ensures ParseHeader(crc, bytes).Ok? <==> exists h :: StartsWithHeader(crc, bytes, h)
  {
    hide ParseHeader, HeaderBytes;
    if ParseHeader(crc, bytes).Ok? {
      ParsedIsWritten(crc, bytes);
    }
    forall h | StartsWithHeader(crc, bytes, h) ensures ParseHeader(crc, bytes).Ok? {
      HeaderReadsBack(crc, h, bytes[COLUMN_DOMAIN_HEADER_LEN..]);
      assert bytes == HeaderBytes(crc, h) + bytes[COLUMN_DOMAIN_HEADER_LEN..];
    }
  }

  /** Damage: other bytes in the place of the header's. Fields whose checksum differs are refused, and so is any other
      checksum over the same fields. */
  lemma DamageIsRefused(crc: seq<byte> -> u32, h: Header, damaged: seq<byte>, after: seq<byte>)
    requires HeaderFits(h) && |damaged| == COLUMN_DOMAIN_HEADER_LEN
    requires var body := Flatten(HeaderPieces(h)); var stored := crc(body + ZERO_CHECKSUM);
      || (damaged[36..] == ToLE(stored, 4) && crc(damaged[..36] + ZERO_CHECKSUM) != stored)
      || (damaged[..36] == body && damaged[36..] != ToLE(stored, 4))
    ensures ParseHeader(crc, damaged + after) == Err(ChecksumMismatch)
  {
    var written, bytes := HeaderBytes(crc, h), damaged + after;
    HeaderReadsBack(crc, h, []);
    assert written + [] == written;
    var body := Flatten(HeaderPieces(h));
    HeaderStarts(h);
    var stored := crc(body + ZERO_CHECKSUM);
    hide ToLE, FromLE, Flatten, HeaderPieces, PieceStart;
    assert written[..36] == body && written[36..] == ToLE(stored, 4);
    assert bytes[..36] == damaged[..36] && bytes[36..40] == damaged[36..];
    Pow256Values();
    FromToLE(stored, 4);
    ToFromLE(damaged[36..]);
  }
}
