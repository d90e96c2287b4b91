/** The two validating constructors of the tool: an FFS file seen through a view of the image
    (class FFS) and a microcode update (class IntelUCode). Both decode their header, check a
    checksum and keep a slice of their input. */
module Records {
  import opened Wrappers
  import opened Bytes
  import opened Checksum
  import opened Headers

  /** Why a constructor refused its input: too few bytes for the header (the ValueError that
      ctypes raises) or a checksum that does not come out right (ChksumError). */
  datatype ParseError = TooShort | BadChecksum

  /** An accepted FFS file: its header, and the length of its body, which starts right after
      the header in the same view (bytes 24 .. 24 + bodyLen). */
  datatype Ffs = Ffs(hdr: FfsHeader, bodyLen: nat)

  /** An accepted microcode update: the 48 bytes its header was copied from and the length of
      the data it keeps, the first `length` bytes of its input. */
  datatype Ucode = Ucode(hdrBytes: seq<byte>, length: nat)
  {
    /** The decoded header (the fields of IntelUcodeHeader). */
    function Header(): (h: UcodeHeader)
      requires |hdrBytes| == UcodeHeaderSize
      ensures h.WellFormed()
    {
      DecodeUcodeHeader(hdrBytes)
    }
  }

  function Min(a: nat, b: nat): nat {
    if a <= b then a else b
  }

  /** The 8-bit sum of the 24 header bytes, less the two bytes the header checksum does not
      cover (ChkData, byte 17, and State, byte 23); Python's `& 0xff` of a negative number is
      the Euclidean remainder. In plain terms: the byte total without bytes 17 and 23 is a
      multiple of 256. */
  predicate FfsChecksumOk(hdrBytes: seq<byte>): (ok: bool)
    requires |hdrBytes| == FfsHeaderSize
    ensures ok <==> (ByteTotal(hdrBytes) - hdrBytes[17] - hdrBytes[23]) % 0x100 == 0
  {
    var hdr := DecodeFfsHeader(hdrBytes);
    PackedSizeAndState(hdrBytes);
    ChecksumAsByteTotal(hdrBytes);
    (ArraySum(hdrBytes, 1) - hdr.chkData - hdr.state) % 0x100 == 0
  }

  /** The length of the slice `view[24:size]` of a view of `n` bytes: Python clamps the end to
      the view and gives an empty slice when `size` is at most 24. */
  function BodyLength(size: nat, n: nat): (len: nat)
    requires n >= FfsHeaderSize
    ensures FfsHeaderSize + len <= n
    ensures len == 0 || FfsHeaderSize + len == size || FfsHeaderSize + len == n
  {
    if size <= FfsHeaderSize then 0 else Min(size, n) - FfsHeaderSize
  }

  function ParseFfs(view: seq<byte>): (r: Result<Ffs, ParseError>)
    ensures r == Err(TooShort) <==> |view| < FfsHeaderSize
    ensures r.Ok? ==> FfsHeaderSize + r.value.bodyLen <= |view|
  {
    if |view| < FfsHeaderSize then Err(TooShort)
    else if !FfsChecksumOk(view[..FfsHeaderSize]) then Err(BadChecksum)
    else
      var hdr := DecodeFfsHeader(view[..FfsHeaderSize]);
      Ok(Ffs(hdr, BodyLength(hdr.size, |view|)))
  }

  /** The header checksum in plain terms: the first 24 bytes, without bytes 17 and 23, add up
      to a multiple of 256. */
  lemma FfsAcceptedIff(view: seq<byte>)
    ensures ParseFfs(view).Ok? <==>
      |view| >= FfsHeaderSize
      && (ByteTotal(view[..FfsHeaderSize]) - view[17] - view[23]) % 0x100 == 0
  {
    if |view| >= FfsHeaderSize {
      var hdrBytes := view[..FfsHeaderSize];
      assert hdrBytes[17] == view[17] && hdrBytes[23] == view[23];
    }
  }

  lemma ChecksumAsByteTotal(hdrBytes: seq<byte>)
    requires |hdrBytes| == FfsHeaderSize
    ensures ((ArraySum(hdrBytes, 1) - hdrBytes[17] - hdrBytes[23]) % 0x100 == 0)
      == ((ByteTotal(hdrBytes) - hdrBytes[17] - hdrBytes[23]) % 0x100 == 0)
  {
    ByteSumLessTwo(hdrBytes, hdrBytes[17], hdrBytes[23]);
  }

  /** Taking two values off the masked byte sum, or off the plain byte total, gives the same
      verdict modulo 256. */
  lemma ByteSumLessTwo(data: seq<byte>, a: int, b: int)
    ensures ((ArraySum(data, 1) - a - b) % 0x100 == 0) == ((ByteTotal(data) - a - b) % 0x100 == 0)
  {
    ArraySumOfBytes(data);
    ReduceFirst(ByteTotal(data), ArraySum(data, 1), a, b);
  }

  lemma ReduceFirst(total: int, sum: int, a: int, b: int)
    requires sum == total % 0x100
    ensures ((sum - a - b) % 0x100 == 0) == ((total - a - b) % 0x100 == 0)
  {
    assert total - a - b == 0x100 * (total / 0x100) + (sum - a - b);
  }

  /** The body of an accepted file is bytes 24 .. min(Size, |view|) of the view, where Size is
      the little-endian value of bytes 20..22, and it is empty when Size is at most 24. */
  lemma FfsBodyBounds(view: seq<byte>)
    requires ParseFfs(view).Ok?
    ensures var size := LittleEndian(view[20..23]);
      ParseFfs(view).value.bodyLen
        == if size <= FfsHeaderSize then 0 else Min(size, |view|) - FfsHeaderSize
  {
    PackedSizeAndState(view[..FfsHeaderSize]);
    assert view[..FfsHeaderSize][20..23] == view[20..23];
  }

  /** Changing any one covered header byte of an accepted file makes the checksum fail. */
  lemma CorruptedFfsHeaderRejected(view: seq<byte>, i: nat, v: byte)
    requires ParseFfs(view).Ok?
    requires i < FfsHeaderSize && i != 17 && i != 23 && v != view[i]
    ensures ParseFfs(view[i := v]) == Err(BadChecksum)
  {
    var changed := view[i := v];
    FfsAcceptedIff(view);
    FfsAcceptedIff(changed);
    assert changed[..FfsHeaderSize] == view[..FfsHeaderSize][i := v];
    ByteTotalUpdate(view[..FfsHeaderSize], i, v);
    assert changed[17] == view[17] && changed[23] == view[23];
    ShiftBreaksChecksum(ByteTotal(view[..FfsHeaderSize]) - view[17] - view[23],
      view[i], v);
  }

  lemma ShiftBreaksChecksum(t: int, was: int, now: int)
    requires t % 0x100 == 0
    requires 0 <= was < 0x100 && 0 <= now < 0x100 && was != now
    ensures (t - was + now) % 0x100 != 0
  {
  }

  /** ChkData (byte 17) and State (byte 23) may hold anything: the header checksum ignores them. */
  lemma UncoveredBytesIgnored(view: seq<byte>, i: nat, v: byte)
    requires |view| >= FfsHeaderSize && (i == 17 || i == 23)
    ensures ParseFfs(view[i := v]).Ok? == ParseFfs(view).Ok?
  {
    var changed := view[i := v];
    FfsAcceptedIff(view);
    FfsAcceptedIff(changed);
    assert changed[..FfsHeaderSize] == view[..FfsHeaderSize][i := v];
    ByteTotalUpdate(view[..FfsHeaderSize], i, v);
  }

  function ParseUcode(data: seq<byte>): (r: Result<Ucode, ParseError>)
    ensures r == Err(TooShort) <==> |data| < UcodeHeaderSize
    ensures r.Ok? ==> r.value.length <= |data| && |r.value.hdrBytes| == UcodeHeaderSize
  {
    if |data| < UcodeHeaderSize then Err(TooShort)
    else
      var length := Min(FieldAt(data, TotalSizeOffset, 4), |data|);
      if ArraySum(data[..length], 4) != 0 then Err(BadChecksum)
      else Ok(Ucode(data[..UcodeHeaderSize], length))
  }

  /** The update keeps min(TotalSize, |data|) bytes, TotalSize read from its decoded header. */
  lemma UcodeLengthFromHeader(data: seq<byte>)
    requires ParseUcode(data).Ok?
    ensures var u := ParseUcode(data).value;
      && u.hdrBytes == data[..UcodeHeaderSize]
      && u.length == Min(u.Header().totalSize, |data|)
  {
    assert data[..UcodeHeaderSize][32..36] == data[32..36];
  }

  /** The microcode check in plain terms: at least a header's worth of bytes, and the whole
      32-bit words among the first min(TotalSize, |data|) bytes add up to a multiple of 2^32;
      the update keeps exactly those bytes. TotalSize is the 32-bit field at offset 32, read
      straight from the data rather than through the decoded header. What `Words` yields is
      fixed by `Checksum.WordsAt` (word k is the little-endian value of bytes 4k .. 4k+4), so
      this reads as a statement about the raw bytes, not about the constructor's own steps. */
  lemma UcodeAcceptedIff(data: seq<byte>)
    ensures var length := if |data| < 36 then 0 else Min(LittleEndian(data[32..36]), |data|);
      && (ParseUcode(data).Ok? <==>
           |data| >= UcodeHeaderSize && Sum(Words(data[..length], 4)) % 0x1_0000_0000 == 0)
      && (ParseUcode(data).Ok? ==> ParseUcode(data).value.length == length)
  {
    Pow256Values();
    if |data| >= UcodeHeaderSize {
      assert data[..UcodeHeaderSize][32..36] == data[32..36];
    }
  }

  /** Bytes after the declared total size never matter: the update reads the same when more
      data follows it, which is what lets updates sit back to back. */
  lemma UcodeIgnoresTrailingData(blob: seq<byte>, rest: seq<byte>)
    requires |blob| >= UcodeHeaderSize
    requires DecodeUcodeHeader(blob[..UcodeHeaderSize]).totalSize == |blob|
    ensures ParseUcode(blob + rest) == ParseUcode(blob)
  {
    var data := blob + rest;
    assert data[..UcodeHeaderSize] == blob[..UcodeHeaderSize];
    assert blob[..UcodeHeaderSize][32..36] == blob[32..36] == data[32..36];
    assert data[..|blob|] == blob[..|blob|];
  }
}
