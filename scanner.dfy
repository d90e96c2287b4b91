/** The search for the microcode FFS files: every occurrence of a 16-byte GUID in the image,
    left to right, resuming after the end of each match (find_all). */
module Scanner {
  import opened Wrappers
  import opened Bytes

  /** GUID 197DB236-F856-4924-90F8-CDF12FB875F3 in its mixed-endian byte form (Python's
      `uuid.UUID(...).bytes_le`): the first three fields little-endian, the last eight bytes
      as written. */
  const UcodeFfsGuid: seq<byte> :=
    [0x36, 0xB2, 0x7D, 0x19, 0x56, 0xF8, 0x24, 0x49,
     0x90, 0xF8, 0xCD, 0xF1, 0x2F, 0xB8, 0x75, 0xF3]

  /** The byte form of a GUID whose fields are d1 (32 bits), d2 and d3 (16 bits) and d4
      (eight bytes): what `bytes_le` produces. */
  function GuidBytesLe(d1: nat, d2: nat, d3: nat, d4: seq<byte>): (s: seq<byte>)
    requires |d4| == 8
    ensures |s| == 16
  {
    ToLittleEndian(d1, 4) + ToLittleEndian(d2, 2) + ToLittleEndian(d3, 2) + d4
  }

  lemma SearchedGuid()
    ensures UcodeFfsGuid
      == GuidBytesLe(0x197DB236, 0xF856, 0x4924, [0x90, 0xF8, 0xCD, 0xF1, 0x2F, 0xB8, 0x75, 0xF3])
  {
  }

  predicate OccursAt(haystack: seq<byte>, needle: seq<byte>, p: int) {
    0 <= p && p + |needle| <= |haystack| && haystack[p..p + |needle|] == needle
  }

  /** `haystack.find(needle, pos)`: the leftmost occurrence at or after `pos`, if any. */
  function Find(haystack: seq<byte>, needle: seq<byte>, pos: nat): (r: Option<nat>)
    ensures r.Some? ==> pos <= r.value && OccursAt(haystack, needle, r.value)
    ensures r.Some? ==> forall p :: pos <= p < r.value ==> !OccursAt(haystack, needle, p)
    ensures r.None? ==> forall p :: pos <= p ==> !OccursAt(haystack, needle, p)
    decreases |haystack| - pos
  {
    if pos + |needle| > |haystack| then None
    else if haystack[pos..pos + |needle|] == needle then Some(pos)
    else Find(haystack, needle, pos + 1)
  }

  /** Where the search for the i-th hit starts: 0, or just past the previous hit. */
  function ResumeAt(hits: seq<nat>, i: nat, width: nat): nat
    requires i <= |hits|
  {
    if i == 0 then 0 else hits[i - 1] + width
  }

  /** `p` lies in the window [hit, hit + width) of one of the hits. */
  predicate InSomeWindow(hits: seq<nat>, width: nat, p: int) {
    exists i :: 0 <= i < |hits| && hits[i] <= p < hits[i] + width
  }

  /** No occurrence starts in [lo, hi). */
  predicate NoneBetween(haystack: seq<byte>, needle: seq<byte>, lo: int, hi: int) {
    forall p :: lo <= p < hi ==> !OccursAt(haystack, needle, p)
  }

  /** The i-th hit is the leftmost occurrence at or after the place its search started. */
  predicate LeftmostHit(haystack: seq<byte>, needle: seq<byte>, hits: seq<nat>, i: nat)
    requires i < |hits|
  {
    var from := ResumeAt(hits, i, |needle|);
    from <= hits[i] && OccursAt(haystack, needle, hits[i])
    && NoneBetween(haystack, needle, from, hits[i])
  }

  /** What the scan has established once it is about to search from `pos`: each hit so far is
      the leftmost occurrence from where its search started, the hits are in order and do not
      overlap, and every occurrence before `pos` lies in some hit's window. */
  predicate Scanned(haystack: seq<byte>, needle: seq<byte>, hits: seq<nat>, pos: nat) {
    && pos <= |haystack| && pos == ResumeAt(hits, |hits|, |needle|)
    && (forall i :: 0 <= i < |hits| ==> LeftmostHit(haystack, needle, hits, i))
    && (forall i, j :: 0 <= i < j < |hits| ==> hits[i] + |needle| <= hits[j])
    && (forall i :: 0 <= i < |hits| ==> hits[i] + |needle| <= pos)
    && (forall p :: 0 <= p < pos && OccursAt(haystack, needle, p) ==>
         InSomeWindow(hits, |needle|, p))
  }

  /** Recording the next hit and resuming past it keeps what the scan has established. */
  lemma ScannedExtend(haystack: seq<byte>, needle: seq<byte>, hits: seq<nat>, pos: nat, hit: nat)
    requires |needle| > 0 && Scanned(haystack, needle, hits, pos)
    requires Find(haystack, needle, pos) == Some(hit)
    ensures Scanned(haystack, needle, hits + [hit], hit + |needle|)
  {
    var more := hits + [hit];
    forall i | 0 <= i < |more|
      ensures LeftmostHit(haystack, needle, more, i)
    {
      if i < |hits| {
        assert ResumeAt(more, i, |needle|) == ResumeAt(hits, i, |needle|);
        assert LeftmostHit(haystack, needle, hits, i);
      } else {
        assert ResumeAt(more, i, |needle|) == pos;
      }
    }
    WindowsExtend(haystack, needle, hits, pos, hit);
  }

  lemma WindowsExtend(haystack: seq<byte>, needle: seq<byte>, hits: seq<nat>, pos: nat, hit: nat)
    requires pos <= hit && NoneBetween(haystack, needle, pos, hit)
    requires forall p :: 0 <= p < pos && OccursAt(haystack, needle, p) ==>
      InSomeWindow(hits, |needle|, p)
    ensures forall p :: 0 <= p < hit + |needle| && OccursAt(haystack, needle, p) ==>
      InSomeWindow(hits + [hit], |needle|, p)
  {
    var more := hits + [hit];
    forall p | 0 <= p < hit + |needle| && OccursAt(haystack, needle, p)
      ensures InSomeWindow(more, |needle|, p)
    {
      if p < pos {
        var i :| 0 <= i < |hits| && hits[i] <= p < hits[i] + |needle|;
        assert more[i] == hits[i];
      } else {
        assert more[|hits|] <= p;
      }
    }
  }

  /** With `h` the only place the needle occurs, a search from at most `h` finds `h` and a
      search from past `h` finds nothing. */
  lemma FindOnly(haystack: seq<byte>, needle: seq<byte>, h: nat, from: nat)
    requires forall p :: OccursAt(haystack, needle, p) ==> p == h
    ensures from <= h && OccursAt(haystack, needle, h) ==> Find(haystack, needle, from) == Some(h)
    ensures from > h ==> Find(haystack, needle, from) == None
  {
  }

  /** Whether the needle occurs at `p` depends only on the bytes before `bound` once the
      occurrence would end by then. */
  lemma OccursAtFrame(a: seq<byte>, b: seq<byte>, needle: seq<byte>, p: nat, bound: nat)
    requires |a| == |b| && p + |needle| <= bound
    requires forall i :: 0 <= i < bound && i < |a| ==> a[i] == b[i]
    ensures OccursAt(a, needle, p) == OccursAt(b, needle, p)
  {
    if p + |needle| <= |a| {
      assert a[p..p + |needle|] == b[p..p + |needle|];
    }
  }

  /** What the scan has established before searching from `pos` reads only the bytes before
      `pos`: an occurrence that would reach past `pos` starts inside the last hit's window.
      So bytes at or after `pos` may change without undoing it. */
  lemma ScannedFrame(a: seq<byte>, b: seq<byte>, needle: seq<byte>, hits: seq<nat>, pos: nat)
    requires |needle| > 0 && Scanned(a, needle, hits, pos)
    requires |a| == |b| && forall i :: 0 <= i < pos ==> a[i] == b[i]
    ensures Scanned(b, needle, hits, pos)
  {
    forall p: nat | p + |needle| <= pos
      ensures OccursAt(a, needle, p) == OccursAt(b, needle, p)
    {
      OccursAtFrame(a, b, needle, p, pos);
    }
    forall i | 0 <= i < |hits|
      ensures LeftmostHit(b, needle, hits, i)
    {
      assert LeftmostHit(a, needle, hits, i);
    }
    forall p | 0 <= p < pos && OccursAt(b, needle, p)
      ensures InSomeWindow(hits, |needle|, p)
    {
      var last := |hits| - 1;
      if hits[last] > p {
        assert OccursAt(a, needle, p);
      } else {
        assert hits[last] <= p < hits[last] + |needle|;
      }
    }
  }

  /** find_all over a buffer that does not change: the hits in order, each the leftmost
      occurrence at or after the end of the previous one (or at or after 0 for the first),
      no occurrence after the end of the last, and every occurrence inside some hit's window
      (occurrences that overlap a hit are skipped). An empty needle would make the source
      loop forever, so it is excluded. */
  method FindAll(haystack: seq<byte>, needle: seq<byte>) returns (hits: seq<nat>)
    requires |needle| > 0
    ensures forall i :: 0 <= i < |hits| ==> LeftmostHit(haystack, needle, hits, i)
    ensures forall i, j :: 0 <= i < j < |hits| ==> hits[i] + |needle| <= hits[j]
    ensures forall p :: p >= ResumeAt(hits, |hits|, |needle|) ==> !OccursAt(haystack, needle, p)
    ensures forall p :: OccursAt(haystack, needle, p) ==> InSomeWindow(hits, |needle|, p)
  {
    hits := [];
    var pos := 0;
    while true
      invariant Scanned(haystack, needle, hits, pos)
      decreases |haystack| - pos
    {
      var found := Find(haystack, needle, pos);
      if found.None? {
        return;
      }
      ScannedExtend(haystack, needle, hits, pos, found.value);
      hits, pos := hits + [found.value], found.value + |needle|;
    }
  }
}
