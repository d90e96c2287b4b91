/** The walk over microcode updates stored back to back (print_concatenated_ucode without its
    printing): accept one update after another until one is refused, and report how many
    were accepted and how many bytes they cover. */
module Chain {
  import opened Wrappers
  import opened Bytes
  import opened Checksum
  import opened Headers
  import opened Records

  /** The lengths of the updates accepted one after another from offset `off`. The walk stops
      at the first offset where the constructor refuses (too few bytes for a header, or a bad
      checksum) and, unlike the source, also at an update that keeps no bytes, which would not
      move the walk forward. */
  function ChainFrom(data: seq<byte>, off: nat): (lengths: seq<nat>)
    requires off <= |data|
    ensures forall k :: 0 <= k < |lengths| ==> lengths[k] > 0
    ensures off + Sum(lengths) <= |data|
    decreases |data| - off
  {
    match ParseUcode(data[off..])
    case Err(_) => []
    case Ok(u) =>
      if u.length == 0 then []
      else
        var rest := ChainFrom(data, off + u.length);
        assert ([u.length] + rest)[1..] == rest;
        [u.length] + rest
  }

  /** The constructor accepts an update of exactly `length` bytes at offset `at`. */
  predicate AcceptedAt(data: seq<byte>, at: nat, length: nat) {
    at <= |data| && ParseUcode(data[at..]).Ok? && ParseUcode(data[at..]).value.length == length
  }

  /** The walk cannot go on from offset `at`: the constructor refuses, or keeps no bytes. */
  predicate StopsAt(data: seq<byte>, at: nat) {
    at <= |data| && (ParseUcode(data[at..]).Err? || ParseUcode(data[at..]).value.length == 0)
  }

  /** `lengths` is a complete walk from `off`: each update is accepted, with a non-zero length,
      at the offset where the previous ones end, and the walk stops after the last of them. */
  predicate ChainValid(data: seq<byte>, off: nat, lengths: seq<nat>)
    decreases |lengths|
  {
    if lengths == [] then StopsAt(data, off)
    else
      lengths[0] > 0 && AcceptedAt(data, off, lengths[0])
      && ChainValid(data, off + lengths[0], lengths[1..])
  }

  /** The walk computed by ChainFrom is a complete walk. */
  lemma {:induction false} ChainFromValid(data: seq<byte>, off: nat)
    requires off <= |data|
    ensures ChainValid(data, off, ChainFrom(data, off))
    decreases |data| - off
  {
    var parsed := ParseUcode(data[off..]);
    if parsed.Ok? && parsed.value.length != 0 {
      var n := parsed.value.length;
      ChainFromValid(data, off + n);
      ChainFromValidStep(data, off, n);
    } else {
      ChainStops(data, off);
      assert ChainValid(data, off, []);
    }
  }

  lemma ChainFromValidStep(data: seq<byte>, off: nat, n: nat)
    requires AcceptedAt(data, off, n) && n > 0 && ChainValid(data, off + n, ChainFrom(data, off + n))
    ensures ChainValid(data, off, ChainFrom(data, off))
  {
    ChainUnfold(data, off, n);
    ValidCons(data, off, n, ChainFrom(data, off + n));
  }

  /** ... and it is the only one: the walk from an offset is determined by the data. */
  lemma {:induction false} ChainValidUnique(data: seq<byte>, off: nat, lengths: seq<nat>)
    requires ChainValid(data, off, lengths)
    ensures off <= |data| && lengths == ChainFrom(data, off)
    decreases |lengths|
  {
    if lengths == [] {
      ChainStops(data, off);
    } else {
      var n := lengths[0];
      assert AcceptedAt(data, off, n) && n > 0;
      ChainValidUnique(data, off + n, lengths[1..]);
      ChainUnfold(data, off, n);
      assert lengths == [n] + lengths[1..];
    }
  }

  lemma ValidCons(data: seq<byte>, off: nat, n: nat, rest: seq<nat>)
    requires AcceptedAt(data, off, n) && n > 0 && ChainValid(data, off + n, rest)
    ensures ChainValid(data, off, [n] + rest)
  {
    assert ([n] + rest)[1..] == rest;
  }

  lemma ChainUnfold(data: seq<byte>, off: nat, n: nat)
    requires AcceptedAt(data, off, n) && n > 0
    ensures ChainFrom(data, off) == [n] + ChainFrom(data, off + n)
  {
  }

  lemma ChainStops(data: seq<byte>, off: nat)
    requires StopsAt(data, off)
    ensures ChainFrom(data, off) == []
  {
  }

  /** Accepting one more update at `off`, ending at `next`, moves it from the rest of the walk
      to the part done. */
  lemma ChainStep(data: seq<byte>, off: nat, next: nat)
    requires off < next && AcceptedAt(data, off, next - off)
    ensures |ChainFrom(data, off)| == 1 + |ChainFrom(data, next)|
    ensures Sum(ChainFrom(data, off)) == next - off + Sum(ChainFrom(data, next))
  {
    var n := next - off;
    ChainUnfold(data, off, n);
    var rest := ChainFrom(data, off + n);
    assert rest == ChainFrom(data, next);
    assert ([n] + rest)[1..] == rest;
  }

  /** The walk as a loop over `offset`, as in the source: `blobs` updates were accepted and
      they cover the first `consumed` bytes; none were found exactly when nothing was
      consumed. */
  method WalkChain(data: seq<byte>) returns (blobs: nat, consumed: nat)
    ensures blobs == |ChainFrom(data, 0)| && consumed == Sum(ChainFrom(data, 0))
    ensures consumed <= |data|
    ensures consumed == 0 <==> blobs == 0
  {
    var offset := 0;
    blobs := 0;
    while true
      invariant offset <= |data|
      invariant |ChainFrom(data, 0)| == blobs + |ChainFrom(data, offset)|
      invariant Sum(ChainFrom(data, 0)) == offset + Sum(ChainFrom(data, offset))
      invariant blobs <= offset && (blobs == 0 ==> offset == 0)
      decreases |data| - offset
    {
      var next := AcceptAt(data, offset);
      if next == offset {
        break;
      }
      offset := next;
      blobs := blobs + 1;
    }
    consumed := offset;
  }

  /** The constructor call inside the walk's loop: the offset just past the update accepted
      at `offset`, or `offset` itself where the walk stops. */
  method AcceptAt(data: seq<byte>, offset: nat) returns (next: nat)
    requires offset <= |data|
    ensures offset <= next <= |data|
    ensures next == offset ==> ChainFrom(data, offset) == []
    ensures next > offset ==> |ChainFrom(data, offset)| == 1 + |ChainFrom(data, next)|
    ensures next > offset ==> Sum(ChainFrom(data, offset)) == next - offset + Sum(ChainFrom(data, next))
  {
    var parsed := ParseUcode(data[offset..]);
    if parsed.Err? || parsed.value.length == 0 {
      ChainStops(data, offset);
      return offset;
    }
    next := offset + parsed.value.length;
    ChainStep(data, offset, next);
  }

  /** One pass of the source's loop body: on acceptance the offset moves on by the length the
      update keeps, which is 0 when its TotalSize field is 0. */
  function WalkStepAsWritten(data: seq<byte>, off: nat): (next: Option<nat>)
    requires off <= |data|
    ensures next.None? <==> ParseUcode(data[off..]).Err?
    ensures next.Some? ==> next.value == off + ParseUcode(data[off..]).value.length
    ensures next.Some? ==> off <= next.value <= |data|
  {
    match ParseUcode(data[off..])
    case Err(_) => None
    case Ok(u) => Some(off + u.length)
  }

  /** An update header whose TotalSize is 0 is accepted (the empty slice sums to 0) and the
      source's offset does not move: its loop runs forever. The walk modelled here stops. */
  lemma ZeroTotalSizeStalls(data: seq<byte>, off: nat)
    requires off + UcodeHeaderSize <= |data|
    requires LittleEndian(data[off + 32..off + 36]) == 0
    ensures WalkStepAsWritten(data, off) == Some(off)
    ensures ChainFrom(data, off) == []
  {
    var view := data[off..];
    assert view[32..36] == data[off + 32..off + 36];
    assert view[..0] == [];
  }

  /** A concrete input: 48 zero bytes. */
  lemma ZeroBytesStall()
    ensures WalkStepAsWritten(seq(48, _ => 0), 0) == Some(0)
  {
    var zeros: seq<byte> := seq(48, _ => 0);
    assert zeros[32..36] == [0, 0, 0, 0];
    assert [0, 0, 0, 0][1..] == [0, 0, 0] && [0, 0, 0][1..] == [0, 0] && [0, 0][1..] == [0];
    assert LittleEndian([0]) == 0;
    assert LittleEndian([0, 0, 0, 0]) == 0;
    ZeroTotalSizeStalls(zeros, 0);
  }
}
