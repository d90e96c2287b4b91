/** The two packed little-endian structures the tool reads: the 24-byte firmware file header
    (EFI_FFS_FILE_HEADER, UEFI Platform Initialization Specification, Volume 3, section 3.2.3)
    and the 48-byte microcode update header (Intel 64 and IA-32 Architectures Software
    Developer's Manual, Volume 3A, section 9.11.1). Decoding never fails on bit patterns: any
    long enough buffer decodes to some header. */
module Headers {
  import opened Bytes

  const FfsHeaderSize: nat := 24
  const UcodeHeaderSize: nat := 48
  /** Where TotalSize sits in the microcode update header. */
  const TotalSizeOffset: nat := 32

  /** 2^24: the packed 32-bit word at offset 20 holds Size in its low 24 bits, State above. */
  const SizeLimit: nat := 0x100_0000

  datatype FfsHeader = FfsHeader(
    guid: seq<byte>,
    chkHdr: byte,
    chkData: byte,
    fileType: byte,
    attributes: byte,
    size: nat,
    state: nat)
  {
    /** The field ranges the 24-byte layout can hold. */
    predicate WellFormed() {
      |guid| == 16 && size < SizeLimit && state < 0x100
    }
  }

  datatype UcodeHeader = UcodeHeader(
    headerType: nat,
    updateRevision: nat,
    year: nat,
    day: byte,
    month: byte,
    processorSignature: nat,
    checksum: nat,
    loaderRevision: nat,
    platformIds: nat,
    dataSize: nat,
    totalSize: nat,
    metadataSize: nat,
    updateRevisionMin: nat,
    reserved: nat)
  {
    /** The field ranges the 48-byte layout can hold: 32-bit fields, and a 16-bit year. */
    predicate WellFormed() {
      && headerType < 0x1_0000_0000 && updateRevision < 0x1_0000_0000
      && year < 0x1_0000
      && processorSignature < 0x1_0000_0000 && checksum < 0x1_0000_0000
      && loaderRevision < 0x1_0000_0000 && platformIds < 0x1_0000_0000
      && dataSize < 0x1_0000_0000 && totalSize < 0x1_0000_0000
      && metadataSize < 0x1_0000_0000 && updateRevisionMin < 0x1_0000_0000
      && reserved < 0x1_0000_0000
    }
  }

  /** The little-endian unsigned integer of `width` bytes at offset `off`. */
  function FieldAt(s: seq<byte>, off: nat, width: nat): (n: nat)
    requires off + width <= |s|
    ensures n < Pow256(width)
  {
    LittleEndian(s[off..off + width])
  }

  function DecodeFfsHeader(s: seq<byte>): (h: FfsHeader)
    requires |s| == FfsHeaderSize
    ensures h.WellFormed()
  {
    Pow256Values();
    var packed := FieldAt(s, 20, 4);
    FfsHeader(s[..16], s[16], s[17], s[18], s[19], packed % 0x100_0000, packed / 0x100_0000)
  }

  function EncodeFfsHeader(h: FfsHeader): (s: seq<byte>)
    requires h.WellFormed()
    ensures |s| == FfsHeaderSize
  {
    h.guid + [h.chkHdr, h.chkData, h.fileType, h.attributes]
      + ToLittleEndian(h.size + h.state * 0x100_0000, 4)
  }

  /** Size is the little-endian value of bytes 20..22, State is byte 23, and together they
      make up the 32-bit word at offset 20. */
  lemma PackedSizeAndState(s: seq<byte>)
    requires |s| == FfsHeaderSize
    ensures DecodeFfsHeader(s).size == LittleEndian(s[20..23])
    ensures DecodeFfsHeader(s).state == s[23]
    ensures DecodeFfsHeader(s).size + DecodeFfsHeader(s).state * 0x100_0000
            == LittleEndian(s[20..24])
  {
    var word := s[20..24];
    LittleEndianSplit(word, 3);
    Pow256Values();
    assert word[..3] == s[20..23];
    assert LittleEndian(word[3..]) == s[23] by {
      assert word[3..][1..] == [];
    }
    var lo: nat, hi: nat := LittleEndian(s[20..23]), s[23];
    assert lo < 0x100_0000;
    assert LittleEndian(word) == lo + 0x100_0000 * hi;
    DivModSplit(lo, hi);
  }

  lemma DivModSplit(lo: nat, hi: nat)
    requires lo < 0x100_0000
    ensures (lo + 0x100_0000 * hi) % 0x100_0000 == lo
    ensures (lo + 0x100_0000 * hi) / 0x100_0000 == hi
  {
  }

  lemma FfsHeaderRoundTrip(h: FfsHeader)
    requires h.WellFormed()
    ensures DecodeFfsHeader(EncodeFfsHeader(h)) == h
  {
    var s := EncodeFfsHeader(h);
    var packed := h.size + h.state * 0x100_0000;
    Pow256Values();
    assert s[20..24] == ToLittleEndian(packed, 4);
    DecodeEncode(packed, 4);
    assert s[..16] == h.guid;
  }

  lemma FfsHeaderBytesRoundTrip(s: seq<byte>)
    requires |s| == FfsHeaderSize
    ensures EncodeFfsHeader(DecodeFfsHeader(s)) == s
  {
    PackedSizeAndState(s);
    EncodeDecode(s[20..24]);
    assert s == s[..16] + [s[16], s[17], s[18], s[19]] + s[20..24];
  }

  function DecodeUcodeHeader(s: seq<byte>): (h: UcodeHeader)
    requires |s| == UcodeHeaderSize
    ensures h.WellFormed()
  {
    Pow256Values();
    UcodeHeader(
      FieldAt(s, 0, 4), FieldAt(s, 4, 4), FieldAt(s, 8, 2), s[10], s[11],
      FieldAt(s, 12, 4), FieldAt(s, 16, 4), FieldAt(s, 20, 4), FieldAt(s, 24, 4),
      FieldAt(s, 28, 4), FieldAt(s, 32, 4), FieldAt(s, 36, 4), FieldAt(s, 40, 4),
      FieldAt(s, 44, 4))
  }

  function EncodeUcodeHeader(h: UcodeHeader): (s: seq<byte>)
    requires h.WellFormed()
    ensures |s| == UcodeHeaderSize
  {
    ToLittleEndian(h.headerType, 4) + ToLittleEndian(h.updateRevision, 4)
      + ToLittleEndian(h.year, 2) + [h.day, h.month]
      + ToLittleEndian(h.processorSignature, 4) + ToLittleEndian(h.checksum, 4)
      + ToLittleEndian(h.loaderRevision, 4) + ToLittleEndian(h.platformIds, 4)
      + ToLittleEndian(h.dataSize, 4) + ToLittleEndian(h.totalSize, 4)
      + ToLittleEndian(h.metadataSize, 4) + ToLittleEndian(h.updateRevisionMin, 4)
      + ToLittleEndian(h.reserved, 4)
  }

  /** Where each field of an encoded header lands: the first five fields. */
  lemma EncodedUcodeFieldsLow(h: UcodeHeader)
    requires h.WellFormed()
    ensures var s := EncodeUcodeHeader(h);
      && s[0..4] == ToLittleEndian(h.headerType, 4)
      && s[4..8] == ToLittleEndian(h.updateRevision, 4)
      && s[8..10] == ToLittleEndian(h.year, 2)
      && s[10] == h.day && s[11] == h.month
  {
  }

  /** Where each field of an encoded header lands: the nine 32-bit fields from offset 12. */
  lemma EncodedUcodeFieldsHigh(h: UcodeHeader)
    requires h.WellFormed()
    ensures var s := EncodeUcodeHeader(h);
      && s[12..16] == ToLittleEndian(h.processorSignature, 4)
      && s[16..20] == ToLittleEndian(h.checksum, 4)
      && s[20..24] == ToLittleEndian(h.loaderRevision, 4)
      && s[24..28] == ToLittleEndian(h.platformIds, 4)
      && s[28..32] == ToLittleEndian(h.dataSize, 4)
      && s[32..36] == ToLittleEndian(h.totalSize, 4)
      && s[36..40] == ToLittleEndian(h.metadataSize, 4)
      && s[40..44] == ToLittleEndian(h.updateRevisionMin, 4)
      && s[44..48] == ToLittleEndian(h.reserved, 4)
  {
  }

  lemma UcodeHeaderRoundTrip(h: UcodeHeader)
    requires h.WellFormed()
    ensures DecodeUcodeHeader(EncodeUcodeHeader(h)) == h
  {
    Pow256Values();
    EncodedUcodeFieldsLow(h);
    EncodedUcodeFieldsHigh(h);
    DecodeEncode(h.headerType, 4);
    DecodeEncode(h.updateRevision, 4);
    DecodeEncode(h.year, 2);
    DecodeEncode(h.processorSignature, 4);
    DecodeEncode(h.checksum, 4);
    DecodeEncode(h.loaderRevision, 4);
    DecodeEncode(h.platformIds, 4);
    DecodeEncode(h.dataSize, 4);
    DecodeEncode(h.totalSize, 4);
    DecodeEncode(h.metadataSize, 4);
    DecodeEncode(h.updateRevisionMin, 4);
    DecodeEncode(h.reserved, 4);
  }

  lemma UcodeHeaderBytesRoundTrip(s: seq<byte>)
    requires |s| == UcodeHeaderSize
    ensures EncodeUcodeHeader(DecodeUcodeHeader(s)) == s
  {
    EncodeDecode(s[0..4]);
    EncodeDecode(s[4..8]);
    EncodeDecode(s[8..10]);
    assert s[10..12] == [s[10], s[11]];
    EncodeDecode(s[12..16]);
    EncodeDecode(s[16..20]);
    EncodeDecode(s[20..24]);
    EncodeDecode(s[24..28]);
    EncodeDecode(s[28..32]);
    EncodeDecode(s[32..36]);
    EncodeDecode(s[36..40]);
    EncodeDecode(s[40..44]);
    EncodeDecode(s[44..48]);
    SliceJoin(s, 0, 4, 8);
    SliceJoin(s, 0, 8, 10);
    SliceJoin(s, 0, 10, 12);
    SliceJoin(s, 0, 12, 16);
    SliceJoin(s, 0, 16, 20);
    SliceJoin(s, 0, 20, 24);
    SliceJoin(s, 0, 24, 28);
    SliceJoin(s, 0, 28, 32);
    SliceJoin(s, 0, 32, 36);
    SliceJoin(s, 0, 36, 40);
    SliceJoin(s, 0, 40, 44);
    SliceJoin(s, 0, 44, 48);
    assert s == s[0..48];
  }
}
