/** The main program of the tool without its file handling: validate the replacement update,
    then visit every occurrence of the microcode FFS GUID in the image, and for each FFS file
    whose header checksum holds, erase its body to 0xFF and copy the replacement update to the
    front of it. The image is one mutable buffer; the search runs over that same buffer, so it
    sees bytes already patched. */
module Patcher {
  import opened Wrappers
  import opened Bytes
  import opened Checksum
  import opened Headers
  import opened Records
  import opened Scanner
  import opened Chain

  /** The value an erased body byte takes. */
  const Erased: byte := 0xFF

  /** The length of the searched GUID, and so the step the search resumes by after a hit. */
  const GuidLength: nat := |UcodeFfsGuid|

  /** `s` with the `len` bytes from `start` all set to `b`. */
  function Filled(s: seq<byte>, start: nat, len: nat, b: byte): (r: seq<byte>)
    requires start + len <= |s|
    ensures |r| == |s|
    ensures forall i :: 0 <= i < |s| ==> r[i] == if start <= i < start + len then b else s[i]
  {
    s[..start] + seq(len, _ => b) + s[start + len..]
  }

  /** `s` with the bytes from `start` on replaced by `src`. */
  function Spliced(s: seq<byte>, start: nat, src: seq<byte>): (r: seq<byte>)
    requires start + |src| <= |s|
    ensures |r| == |s|
    ensures forall i :: 0 <= i < |s| ==> r[i] == if start <= i < start + |src| then src[i - start] else s[i]
  {
    s[..start] + src + s[start + |src|..]
  }

  /** What the two slice assignments do to a body of `len` bytes at `start`: erase it, then
      write `u` over its front. The body then starts with the replacement update and the rest
      of it is 0xFF; nothing outside it changed, and the image keeps its length. */
  function PatchBody(img: seq<byte>, start: nat, len: nat, u: seq<byte>): (r: seq<byte>)
    requires start + len <= |img| && |u| <= len
    ensures |r| == |img|
    ensures r[start..start + |u|] == u
    ensures forall i :: start + |u| <= i < start + len ==> r[i] == Erased
    ensures forall i :: 0 <= i < |img| && !(start <= i < start + len) ==> r[i] == img[i]
  {
    var r := Spliced(Filled(img, start, len, Erased), start, u);
    assert forall k :: 0 <= k < |u| ==> r[start..start + |u|][k] == r[start + k] == u[k];
    r
  }

  /** slice assignment `body[:] = bytes([0xff] * len(body))` on the shared buffer. */
  method FillRange(a: array<byte>, start: nat, len: nat, b: byte)
    requires start + len <= a.Length
    modifies a
    ensures a[..] == Filled(old(a[..]), start, len, b)
  {
    forall i | start <= i < start + len {
      a[i] := b;
    }
  }

  /** slice assignment `body[:len(src)] = src` on the shared buffer. */
  method CopyInto(a: array<byte>, start: nat, src: seq<byte>)
    requires start + |src| <= a.Length
    modifies a
    ensures a[..] == Spliced(old(a[..]), start, src)
  {
    forall i | start <= i < start + |src| {
      a[i] := src[i - start];
    }
  }

  /** What the walk over a run of updates reports: how many were accepted and how many bytes
      they cover. */
  datatype Walk = Walk(blobs: nat, consumed: nat)

  /** The walk over `data` that the loop reports: the updates it accepts lie within the
      data, and it finds none exactly when it consumes nothing, which is when the first
      update is refused or keeps no bytes. */
  function WalkOf(data: seq<byte>): (w: Walk)
    ensures w.consumed <= |data|
    ensures w.blobs == 0 <==> w.consumed == 0
    ensures w.blobs == 0 <==> ParseUcode(data).Err? || ParseUcode(data).value.length == 0
  {
    var lengths := ChainFrom(data, 0);
    assert lengths != [] ==> Sum(lengths) >= lengths[0] > 0;
    assert data[0..] == data;
    Walk(|lengths|, Sum(lengths))
  }

  /** One visited GUID occurrence: an FFS file whose header checksum failed, or one that was
      patched, with where its body lies in the image and what the walk found in the body
      before it was erased. */
  datatype HitReport =
    | Skipped(offset: nat)
    | Patched(offset: nat, bodyStart: nat, bodyLen: nat, found: Walk)

  /** Why no output is written: the replacement update is refused before the image is touched; a GUID
      occurrence is too close to the end of the image for an FFS header; the replacement does
      not fit the body; or the image came out identical to the input. */
  datatype Failure =
    | UcodeRejected(why: ParseError)
    | HeaderTruncated(at: nat)
    | BodyTooSmall(at: nat)
    | Unchanged

  /** A run either writes the patched image, or stops; `image` is the buffer as it stands at
      that point (a failed copy leaves the body it erased). */
  datatype Outcome =
    | Written(image: seq<byte>, ucode: Walk, hits: seq<HitReport>)
    | Aborted(failure: Failure, image: seq<byte>)

  /** What visiting one GUID occurrence leads to: the scan goes on over `image` after
      recording `report`, or the run stops with `failure` and the buffer as `image`. */
  datatype Step =
    | Continue(image: seq<byte>, report: HitReport)
    | Stop(failure: Failure, image: seq<byte>)

  /** The body of the scan loop for an occurrence at `hit`: an FFS header too close to the end
      of the image stops the run (ctypes' ValueError is not caught); a bad header checksum is
      skipped; otherwise the walk reads the body, the body is erased, and the replacement is
      copied over its front, which stops the run if the replacement is the longer (the
      memoryview assignment raises ValueError after the erase took place). */
  function VisitHit(img: seq<byte>, u: seq<byte>, hit: nat): (r: Step)
    requires hit <= |img|
    ensures |r.image| == |img|
    ensures r.Continue? ==> r.report.offset == hit
    ensures r.Continue? && r.report.Skipped? ==> r.image == img
    ensures ParseFfs(img[hit..]) == Err(TooShort) <==> r == Stop(HeaderTruncated(hit), img)
    ensures ParseFfs(img[hit..]) == Err(BadChecksum) <==> r == Continue(img, Skipped(hit))
    ensures r.Continue? && r.report.Patched? <==>
      ParseFfs(img[hit..]).Ok? && |u| <= ParseFfs(img[hit..]).value.bodyLen
    ensures r.Stop? && r.failure == BodyTooSmall(hit) <==>
      ParseFfs(img[hit..]).Ok? && |u| > ParseFfs(img[hit..]).value.bodyLen
    ensures r.Continue? && r.report.Patched? ==>
      && r.report.bodyStart == hit + FfsHeaderSize
      && r.report.bodyLen == ParseFfs(img[hit..]).value.bodyLen
      && r.report.bodyStart + r.report.bodyLen <= |img|
      && |u| <= r.report.bodyLen
      && r.image == PatchBody(img, r.report.bodyStart, r.report.bodyLen, u)
  {
    match ParseFfs(img[hit..])
    case Err(TooShort) => Stop(HeaderTruncated(hit), img)
    case Err(BadChecksum) => Continue(img, Skipped(hit))
    case Ok(ffs) => PatchFile(img, u, hit, ffs.bodyLen)
  }

  /** An accepted FFS file at `hit` with a body of `len` bytes: walk the body, erase it, copy
      the replacement over its front. */
  function PatchFile(img: seq<byte>, u: seq<byte>, hit: nat, len: nat): (r: Step)
    requires hit + FfsHeaderSize + len <= |img|
    ensures |r.image| == |img|
    ensures |u| > len <==> r.Stop?
    ensures r.Stop? ==> r == Stop(BodyTooSmall(hit), Filled(img, hit + FfsHeaderSize, len, Erased))
    ensures r.Continue? ==>
      var start := hit + FfsHeaderSize;
      && r.report == Patched(hit, start, len, WalkOf(img[start..start + len]))
      && r.image == PatchBody(img, start, len, u)
  {
    var start := hit + FfsHeaderSize;
    var found := WalkOf(img[start..start + len]);
    if |u| > len then Stop(BodyTooSmall(hit), Filled(img, start, len, Erased))
    else Continue(PatchBody(img, start, len, u), Patched(hit, start, len, found))
  }

  /** The scan loop from search position `pos` on, over the image as it currently stands. */
  function ScanFrom(img: seq<byte>, u: seq<byte>, ucode: Walk, pos: nat, hits: seq<HitReport>)
    : (r: Outcome)
    ensures |r.image| == |img|
    decreases |img| - pos
  {
    match Find(img, UcodeFfsGuid, pos)
    case None => Written(img, ucode, hits)
    case Some(hit) =>
      match VisitHit(img, u, hit)
      case Stop(failure, image) => Aborted(failure, image)
      case Continue(image, report) => ScanFrom(image, u, ucode, hit + GuidLength, hits + [report])
  }

  /** The scan ends with the current image once no further marker occurs. */
  lemma ScanDone(img: seq<byte>, u: seq<byte>, ucode: Walk, pos: nat, hits: seq<HitReport>)
    requires Find(img, UcodeFfsGuid, pos).None?
    ensures ScanFrom(img, u, ucode, pos, hits) == Written(img, ucode, hits)
  {
  }

  /** The scan stops at the first hit whose visit fails. */
  lemma ScanStops(img: seq<byte>, u: seq<byte>, ucode: Walk, pos: nat, hits: seq<HitReport>, hit: nat)
    requires Find(img, UcodeFfsGuid, pos) == Some(hit)
    requires VisitHit(img, u, hit).Stop?
    ensures ScanFrom(img, u, ucode, pos, hits)
            == Aborted(VisitHit(img, u, hit).failure, VisitHit(img, u, hit).image)
  {
  }

  /** A successful visit hands its image and report on to the rest of the scan. */
  lemma ScanContinues(img: seq<byte>, u: seq<byte>, ucode: Walk, pos: nat, hits: seq<HitReport>, hit: nat)
    requires Find(img, UcodeFfsGuid, pos) == Some(hit)
    requires VisitHit(img, u, hit).Continue?
    ensures var step := VisitHit(img, u, hit);
      ScanFrom(img, u, ucode, pos, hits)
        == ScanFrom(step.image, u, ucode, hit + GuidLength, hits + [step.report])
  {
  }

  /** The whole run on image `img` with replacement update `u`. */
  function Run(img: seq<byte>, u: seq<byte>): (r: Outcome)
    ensures |r.image| == |img|
    ensures ParseUcode(u).Err? ==> r == Aborted(UcodeRejected(ParseUcode(u).error), img)
    ensures r.Written? ==> r.image != img
  {
    match ParseUcode(u)
    case Err(e) => Aborted(UcodeRejected(e), img)
    case Ok(_) =>
      var scanned := ScanFrom(img, u, WalkOf(u), 0, []);
      if scanned.Written? && scanned.image == img then Aborted(Unchanged, img) else scanned
  }

  /** Each visited occurrence lies at least a GUID's length past the one before. */
  predicate Ordered(hits: seq<HitReport>) {
    forall i, j :: 0 <= i < j < |hits| ==> hits[i].offset + GuidLength <= hits[j].offset
  }

  /** Byte `i` of the image lies in the body of some patched file. */
  predicate Covered(hits: seq<HitReport>, i: int) {
    exists k :: 0 <= k < |hits| && InBody(hits[k], i)
  }

  predicate InBody(report: HitReport, i: int) {
    report.Patched? && report.bodyStart <= i < report.bodyStart + report.bodyLen
  }

  lemma {:induction false} ScanCovered(orig: seq<byte>, img: seq<byte>, u: seq<byte>, ucode: Walk,
                                        pos: nat, hits: seq<HitReport>)
    requires |img| == |orig|
    requires forall i :: 0 <= i < |img| && img[i] != orig[i] ==> Covered(hits, i)
    ensures var r := ScanFrom(img, u, ucode, pos, hits);
      r.Written? ==> forall i :: 0 <= i < |orig| && r.image[i] != orig[i] ==> Covered(r.hits, i)
    decreases |img| - pos
  {
    var found := Find(img, UcodeFfsGuid, pos);
    if found.Some? && VisitHit(img, u, found.value).Continue? {
      var hit := found.value;
      var step := VisitHit(img, u, hit);
      ScanContinues(img, u, ucode, pos, hits, hit);
      CoveredAppend(orig, img, u, hits, step);
      ScanCovered(orig, step.image, u, ucode, hit + GuidLength, hits + [step.report]);
    }
  }

  /** A visit changes only bytes in the body it reports, so every changed byte stays covered. */
  lemma CoveredAppend(orig: seq<byte>, img: seq<byte>, u: seq<byte>, hits: seq<HitReport>, step: Step)
    requires |img| == |orig|
    requires forall i :: 0 <= i < |img| && img[i] != orig[i] ==> Covered(hits, i)
    requires step.Continue? && |step.image| == |img|
    requires step.report.Skipped? ==> step.image == img
    requires step.report.Patched? ==>
      step.report.bodyStart + step.report.bodyLen <= |img| && |u| <= step.report.bodyLen
      && step.image == PatchBody(img, step.report.bodyStart, step.report.bodyLen, u)
    ensures forall i :: 0 <= i < |step.image| && step.image[i] != orig[i] ==> Covered(hits + [step.report], i)
  {
    var more, image, report := hits + [step.report], step.image, step.report;
    forall i | 0 <= i < |image| && image[i] != orig[i]
      ensures Covered(more, i)
    {
      if image[i] != img[i] {
        assert report.Patched?;
        assert InBody(more[|hits|], i);
      } else {
        var k :| 0 <= k < |hits| && InBody(hits[k], i);
        assert more[k] == hits[k];
      }
    }
  }

  /** Every byte a written run changes lies in the body of a file it reports as patched:
      headers and everything outside the FFS bodies are left as they were. */
  lemma RunChangesOnlyBodies(img: seq<byte>, u: seq<byte>)
    ensures var r := Run(img, u);
      r.Written? ==> forall i :: 0 <= i < |img| && r.image[i] != img[i] ==> Covered(r.hits, i)
  {
    ScanCovered(img, img, u, WalkOf(u), 0, []);
  }

  /** The offsets of the visited occurrences, in visiting order. */
  function Offsets(hits: seq<HitReport>): (offsets: seq<nat>)
    ensures |offsets| == |hits|
    ensures forall k :: 0 <= k < |hits| ==> offsets[k] == hits[k].offset
  {
    seq(|hits|, k requires 0 <= k < |hits| => hits[k].offset)
  }

  /** `report` is what visiting a file whose header parses as `parsed` records: a skip for a
      bad header checksum, and otherwise the body right after the header, at the length the
      header gives, with room for the replacement `u`. */
  predicate Reports(report: HitReport, parsed: Result<Ffs, ParseError>, u: seq<byte>) {
    match report
    case Skipped(_) => parsed == Err(BadChecksum)
    case Patched(offset, start, len, _) =>
      parsed.Ok? && start == offset + FfsHeaderSize && len == parsed.value.bodyLen && |u| <= len
  }

  /** Every report agrees with the FFS header at its offset in `img`. */
  predicate ReportsAgree(img: seq<byte>, hits: seq<HitReport>, u: seq<byte>) {
    forall k :: 0 <= k < |hits| ==>
      hits[k].offset <= |img| && Reports(hits[k], ParseFfs(img[hits[k].offset..]), u)
  }

  /** An FFS header at `at` is read from the 24 bytes from `at` and the image length alone. */
  lemma ParseFfsFrame(a: seq<byte>, b: seq<byte>, at: nat)
    requires |a| == |b| && at <= |a|
    requires forall i :: at <= i < at + FfsHeaderSize && i < |a| ==> a[i] == b[i]
    ensures ParseFfs(a[at..]) == ParseFfs(b[at..])
  {
    if at + FfsHeaderSize <= |a| {
      assert a[at..][..FfsHeaderSize] == b[at..][..FfsHeaderSize];
    }
  }

  /** A written outcome visited what find_all reports on the image it writes: the same hits,
      and no occurrence after the last one. */
  predicate FoundHits(r: Outcome) {
    r.Written? ==>
      var offsets := Offsets(r.hits);
      var end := ResumeAt(offsets, |offsets|, GuidLength);
      Scanned(r.image, UcodeFfsGuid, offsets, end) && NoneBetween(r.image, UcodeFfsGuid, end, |r.image|)
  }

  /** The scan from `pos` on, started where find_all's own loop would stand over `img`, ends
      (if it writes) where find_all over the final image would end. Later writes begin 24
      bytes past a hit, so they never touch a GUID already visited. */
  lemma {:induction false} ScanFindsHits(img: seq<byte>, u: seq<byte>, ucode: Walk, pos: nat,
                                          hits: seq<HitReport>)
    requires Scanned(img, UcodeFfsGuid, Offsets(hits), pos)
    ensures FoundHits(ScanFrom(img, u, ucode, pos, hits))
    decreases |img| - pos
  {
    var found := Find(img, UcodeFfsGuid, pos);
    if found.None? {
      ScanDone(img, u, ucode, pos, hits);
    } else if VisitHit(img, u, found.value).Continue? {
      var hit := found.value;
      var step := VisitHit(img, u, hit);
      VisitReports(img, u, hit);
      VisitKeepsHits(img, step.image, pos, hits, hit, step.report);
      ScanFindsHits(step.image, u, ucode, hit + GuidLength, hits + [step.report]);
      ScanContinues(img, u, ucode, pos, hits, hit);
    }
  }

  /** Recording the visit of `hit` keeps what find_all's loop has established: the visit
      changed nothing before hit + 24, past every byte the search has read so far. */
  lemma VisitKeepsHits(img: seq<byte>, image: seq<byte>, pos: nat, hits: seq<HitReport>, hit: nat,
                       report: HitReport)
    requires Scanned(img, UcodeFfsGuid, Offsets(hits), pos)
    requires Find(img, UcodeFfsGuid, pos) == Some(hit)
    requires |image| == |img| && forall i :: 0 <= i < hit + FfsHeaderSize && i < |img| ==> image[i] == img[i]
    requires report.offset == hit
    ensures Scanned(image, UcodeFfsGuid, Offsets(hits + [report]), hit + GuidLength)
  {
    ScannedExtend(img, UcodeFfsGuid, Offsets(hits), pos, hit);
    assert Offsets(hits) + [hit] == Offsets(hits + [report]);
    ScannedFrame(img, image, UcodeFfsGuid, Offsets(hits + [report]), hit + GuidLength);
  }

  /** The scan from `pos` on, started with reports that agree with the headers they name
      and lie before `pos`, ends (if it writes) with every report agreeing with the header
      at its offset in the final image: later writes begin 24 bytes past a hit at or after
      `pos`, so no header already visited changes. */
  lemma {:induction false} ScanReportsAgree(img: seq<byte>, u: seq<byte>, ucode: Walk, pos: nat,
                                             hits: seq<HitReport>)
    requires ReportsAgree(img, hits, u)
    requires forall k :: 0 <= k < |hits| ==> hits[k].offset + GuidLength <= pos
    ensures var r := ScanFrom(img, u, ucode, pos, hits);
      r.Written? ==> ReportsAgree(r.image, r.hits, u)
    decreases |img| - pos
  {
    var found := Find(img, UcodeFfsGuid, pos);
    if found.Some? && VisitHit(img, u, found.value).Continue? {
      var hit := found.value;
      var step := VisitHit(img, u, hit);
      VisitReports(img, u, hit);
      VisitKeepsReports(img, step.image, u, pos, hits, hit, step.report);
      ScanReportsAgree(step.image, u, ucode, hit + GuidLength, hits + [step.report]);
      ScanContinues(img, u, ucode, pos, hits, hit);
    }
  }

  /** A visit at `hit` >= `pos` keeps every report agreeing with its header, and adds its own. */
  lemma VisitKeepsReports(img: seq<byte>, image: seq<byte>, u: seq<byte>, pos: nat,
                          hits: seq<HitReport>, hit: nat, report: HitReport)
    requires ReportsAgree(img, hits, u)
    requires forall k :: 0 <= k < |hits| ==> hits[k].offset + GuidLength <= pos
    requires pos <= hit <= |img|
    requires |image| == |img| && forall i :: 0 <= i < hit + FfsHeaderSize && i < |img| ==> image[i] == img[i]
    requires report.offset == hit && Reports(report, ParseFfs(img[hit..]), u)
    ensures ReportsAgree(image, hits + [report], u)
    ensures forall k :: 0 <= k < |hits| + 1 ==> (hits + [report])[k].offset + GuidLength <= hit + GuidLength
  {
    var more := hits + [report];
    forall k | 0 <= k < |more|
      ensures more[k].offset <= |image| && Reports(more[k], ParseFfs(image[more[k].offset..]), u)
    {
      if k < |hits| {
        assert more[k] == hits[k];
      }
      ParseFfsFrame(img, image, more[k].offset);
    }
  }

  /** A successful visit leaves the bytes before hit + 24 (the header, and so the GUID) as
      they were, and its report agrees with the header at `hit`. */
  lemma VisitReports(img: seq<byte>, u: seq<byte>, hit: nat)
    requires hit <= |img| && VisitHit(img, u, hit).Continue?
    ensures var step := VisitHit(img, u, hit);
      && |step.image| == |img|
      && (forall i :: 0 <= i < hit + FfsHeaderSize && i < |img| ==> step.image[i] == img[i])
      && step.report.offset == hit
      && Reports(step.report, ParseFfs(img[hit..]), u)
  {
  }

  /** A written run visited exactly the occurrences find_all reports on the image it
      writes, in order: each the leftmost from where its search started, none after the
      last, every occurrence inside a visited GUID; and each report agrees with the FFS
      header at its offset in that image (skipped for a bad checksum, otherwise the body that
      header gives, with room for the replacement). What the patched bodies then hold is
      `RunApplies`. */
  lemma RunFindsEveryFile(img: seq<byte>, u: seq<byte>)
    ensures var r := Run(img, u);
      r.Written? ==>
        var offsets := Offsets(r.hits);
        && (forall i :: 0 <= i < |offsets| ==> LeftmostHit(r.image, UcodeFfsGuid, offsets, i))
        && (forall i, j :: 0 <= i < j < |offsets| ==> offsets[i] + GuidLength <= offsets[j])
        && (forall p :: p >= ResumeAt(offsets, |offsets|, GuidLength) ==>
              !OccursAt(r.image, UcodeFfsGuid, p))
        && (forall p :: OccursAt(r.image, UcodeFfsGuid, p) ==> InSomeWindow(offsets, GuidLength, p))
        && ReportsAgree(r.image, r.hits, u)
  {
    if ParseUcode(u).Ok? {
      ScanFindsHits(img, u, WalkOf(u), 0, []);
      ScanReportsAgree(img, u, WalkOf(u), 0, []);
    }
  }

  /** The occurrences a written run reports are in increasing order, each at least 16 bytes
      past the one before: the search resumes after each GUID. */
  lemma RunHitsOrdered(img: seq<byte>, u: seq<byte>)
    ensures Run(img, u).Written? ==> Ordered(Run(img, u).hits)
  {
    RunFindsEveryFile(img, u);
  }

  /** `img` with the patch of every report that patched a body applied in order: the body
      erased and `u` copied over its front. A report whose body does not fit, or does not
      hold `u`, leaves the image as it is; no report of a run is of that kind. */
  function Apply(img: seq<byte>, hits: seq<HitReport>, u: seq<byte>): (r: seq<byte>)
    ensures |r| == |img|
    ensures forall i :: 0 <= i < |img| && r[i] != img[i] ==> Covered(hits, i)
    decreases |hits|
  {
    if hits == [] then img
    else
      var earlier := hits[..|hits| - 1];
      var acc := Apply(img, earlier, u);
      var last := hits[|hits| - 1];
      assert forall k :: 0 <= k < |earlier| ==> earlier[k] == hits[k];
      if last.Patched? && last.bodyStart + last.bodyLen <= |acc| && |u| <= last.bodyLen then
        assert forall i :: 0 <= i < |img| && !InBody(last, i) ==> PatchBody(acc, last.bodyStart, last.bodyLen, u)[i] == acc[i];
        PatchBody(acc, last.bodyStart, last.bodyLen, u)
      else acc
  }

  /** The scan from `pos` on, started over the image that the reports so far leave when
      applied to `orig`, ends (if it writes) with the image all its reports leave. */
  lemma {:induction false} ScanApplies(orig: seq<byte>, img: seq<byte>, u: seq<byte>, ucode: Walk,
                                        pos: nat, hits: seq<HitReport>)
    requires img == Apply(orig, hits, u)
    ensures var r := ScanFrom(img, u, ucode, pos, hits);
      r.Written? ==> r.image == Apply(orig, r.hits, u)
    decreases |img| - pos
  {
    var found := Find(img, UcodeFfsGuid, pos);
    if found.Some? && VisitHit(img, u, found.value).Continue? {
      var hit := found.value;
      var step := VisitHit(img, u, hit);
      ApplyStep(orig, img, u, hits, step);
      ScanContinues(img, u, ucode, pos, hits, hit);
      ScanApplies(orig, step.image, u, ucode, hit + GuidLength, hits + [step.report]);
    }
  }

  /** A visit that skips leaves the image, and one that patches applies its own report. */
  lemma ApplyStep(orig: seq<byte>, img: seq<byte>, u: seq<byte>, hits: seq<HitReport>, step: Step)
    requires img == Apply(orig, hits, u)
    requires step.Continue?
    requires step.report.Skipped? ==> step.image == img
    requires step.report.Patched? ==>
      step.report.bodyStart + step.report.bodyLen <= |img| && |u| <= step.report.bodyLen
      && step.image == PatchBody(img, step.report.bodyStart, step.report.bodyLen, u)
    ensures step.image == Apply(orig, hits + [step.report], u)
  {
    var more := hits + [step.report];
    assert more[..|more| - 1] == hits;
  }

  /** The image a written run produces is the input with each reported patch applied in
      turn: every file reported as patched had its body erased and the replacement copied
      over its front, in the order of the reports, and nothing else was done to the image. */
  lemma RunApplies(img: seq<byte>, u: seq<byte>)
    ensures Run(img, u).Written? ==> Run(img, u).image == Apply(img, Run(img, u).hits, u)
  {
    if ParseUcode(u).Ok? {
      ScanApplies(img, img, u, WalkOf(u), 0, []);
    }
  }

  /** The common case end to end: a valid replacement, and a first GUID at `h` that starts
      an FFS file with a good header checksum and a body large enough for the replacement,
      and no GUID past it once that body is patched. The run writes the image with that body
      erased and the replacement at its front, and reports that one file with what its body
      held before. */
  lemma SingleFilePatched(img: seq<byte>, u: seq<byte>, h: nat)
    requires ParseUcode(u).Ok?
    requires Find(img, UcodeFfsGuid, 0) == Some(h)
    requires ParseFfs(img[h..]).Ok? && |u| <= ParseFfs(img[h..]).value.bodyLen
    requires var patched := PatchBody(img, h + FfsHeaderSize, ParseFfs(img[h..]).value.bodyLen, u);
      patched != img && Find(patched, UcodeFfsGuid, h + GuidLength).None?
    ensures var len, start := ParseFfs(img[h..]).value.bodyLen, h + FfsHeaderSize;
      Run(img, u) == Written(PatchBody(img, start, len, u), WalkOf(u),
                             [Patched(h, start, len, WalkOf(img[start..start + len]))])
  {
    var len, start := ParseFfs(img[h..]).value.bodyLen, h + FfsHeaderSize;
    var patched := PatchBody(img, start, len, u);
    var report := Patched(h, start, len, WalkOf(img[start..start + len]));
    ScanOnce(img, u, WalkOf(u), h);
  }

  /** In particular when `h` is the only place the GUID occurs, before and after the patch. */
  lemma OnlyFilePatched(img: seq<byte>, u: seq<byte>, h: nat)
    requires ParseUcode(u).Ok?
    requires OccursAt(img, UcodeFfsGuid, h) && forall p :: OccursAt(img, UcodeFfsGuid, p) ==> p == h
    requires ParseFfs(img[h..]).Ok? && |u| <= ParseFfs(img[h..]).value.bodyLen
    requires var patched := PatchBody(img, h + FfsHeaderSize, ParseFfs(img[h..]).value.bodyLen, u);
      patched != img && forall p :: OccursAt(patched, UcodeFfsGuid, p) ==> p == h
    ensures var len, start := ParseFfs(img[h..]).value.bodyLen, h + FfsHeaderSize;
      Run(img, u) == Written(PatchBody(img, start, len, u), WalkOf(u),
                             [Patched(h, start, len, WalkOf(img[start..start + len]))])
  {
    var len, start := ParseFfs(img[h..]).value.bodyLen, h + FfsHeaderSize;
    FindOnly(img, UcodeFfsGuid, h, 0);
    FindOnly(PatchBody(img, start, len, u), UcodeFfsGuid, h, h + GuidLength);
    SingleFilePatched(img, u, h);
  }

  /** A visit to an accepted FFS file whose body has room for the replacement patches that body. */
  lemma VisitPatches(img: seq<byte>, u: seq<byte>, h: nat)
    requires h <= |img|
    requires ParseFfs(img[h..]).Ok? && |u| <= ParseFfs(img[h..]).value.bodyLen
    ensures var len, start := ParseFfs(img[h..]).value.bodyLen, h + FfsHeaderSize;
      VisitHit(img, u, h) == Continue(PatchBody(img, start, len, u), Patched(h, start, len, WalkOf(img[start..start + len])))
  {
    assert VisitHit(img, u, h) == PatchFile(img, u, h, ParseFfs(img[h..]).value.bodyLen);
  }

  /** A scan whose first hit is a file that takes the replacement, with no GUID past it
      once patched, writes the image that one visit left, with that one report. */
  lemma ScanOnce(img: seq<byte>, u: seq<byte>, ucode: Walk, h: nat)
    requires Find(img, UcodeFfsGuid, 0) == Some(h)
    requires ParseFfs(img[h..]).Ok? && |u| <= ParseFfs(img[h..]).value.bodyLen
    requires Find(PatchBody(img, h + FfsHeaderSize, ParseFfs(img[h..]).value.bodyLen, u),
                  UcodeFfsGuid, h + GuidLength).None?
    ensures var len, start := ParseFfs(img[h..]).value.bodyLen, h + FfsHeaderSize;
      ScanFrom(img, u, ucode, 0, []) == Written(PatchBody(img, start, len, u), ucode,
                                                [Patched(h, start, len, WalkOf(img[start..start + len]))])
  {
    var len, start := ParseFfs(img[h..]).value.bodyLen, h + FfsHeaderSize;
    var patched := PatchBody(img, start, len, u);
    VisitPatches(img, u, h);
    ScanContinues(img, u, ucode, 0, [], h);
    ScanDone(patched, u, ucode, h + GuidLength, [Patched(h, start, len, WalkOf(img[start..start + len]))]);
  }

  /** An image without the GUID is never written: with a valid replacement the run ends with
      the image unchanged. */
  lemma NoGuidNoOutput(img: seq<byte>, u: seq<byte>)
    requires forall p :: !OccursAt(img, UcodeFfsGuid, p)
    ensures ParseUcode(u).Ok? ==> Run(img, u) == Aborted(Unchanged, img)
    ensures ParseUcode(u).Err? ==> Run(img, u) == Aborted(UcodeRejected(ParseUcode(u).error), img)
  {
  }

  /** The main program on the image buffer `rom`: the replacement is validated before anything
      is touched; then the search resumes 16 bytes past each hit, over the buffer as patched so
      far. The buffer ends as the outcome's image. */
  method PatchImage(rom: array<byte>, newUcode: seq<byte>) returns (outcome: Outcome)
    modifies rom
    ensures outcome == Run(old(rom[..]), newUcode)
    ensures rom[..] == outcome.image
  {
    var orig := rom[..];
    var parsed := ParseUcode(newUcode);
    if parsed.Err? {
      return Aborted(UcodeRejected(parsed.error), rom[..]);
    }
    var ucode := WalkBody(newUcode);
    outcome := ScanInPlace(rom, newUcode, ucode);
    if outcome.Written? && rom[..] == orig {
      outcome := Aborted(Unchanged, rom[..]);
    }
  }

  /** The scan loop on the buffer itself: find the next GUID from `pos`, visit the file there,
      and resume 16 bytes past the hit. */
  method ScanInPlace(rom: array<byte>, newUcode: seq<byte>, ucode: Walk) returns (outcome: Outcome)
    modifies rom
    ensures outcome == ScanFrom(old(rom[..]), newUcode, ucode, 0, [])
    ensures rom[..] == outcome.image
  {
    ghost var orig := rom[..];
    var hits: seq<HitReport> := [];
    var pos := 0;
    while true
      invariant rom.Length == |orig|
      invariant ScanFrom(rom[..], newUcode, ucode, pos, hits) == ScanFrom(orig, newUcode, ucode, 0, [])
      decreases rom.Length - pos
    {
      var before := rom[..];
      var found := Find(before, UcodeFfsGuid, pos);
      if found.None? {
        ScanDone(before, newUcode, ucode, pos, hits);
        return Written(before, ucode, hits);
      }
      var hit := found.value;
      var step := VisitHitInPlace(rom, newUcode, hit);
      if step.Stop? {
        ScanStops(before, newUcode, ucode, pos, hits, hit);
        return Aborted(step.failure, rom[..]);
      }
      ScanContinues(before, newUcode, ucode, pos, hits, hit);
      hits := hits + [step.report];
      pos := hit + GuidLength;
    }
  }

  /** The loop of print_concatenated_ucode over `data`, summed up as a `Walk`. */
  method WalkBody(data: seq<byte>) returns (w: Walk)
    ensures w == WalkOf(data)
  {
    var blobs, consumed := WalkChain(data);
    w := Walk(blobs, consumed);
  }

  /** `PatchFile` in terms of the buffer after the erase and after the copy. */
  lemma PatchFileSteps(before: seq<byte>, erased: seq<byte>, patched: seq<byte>, u: seq<byte>,
                       hit: nat, len: nat)
    requires hit + FfsHeaderSize + len <= |before|
    requires erased == Filled(before, hit + FfsHeaderSize, len, Erased)
    ensures |u| > len ==> PatchFile(before, u, hit, len) == Stop(BodyTooSmall(hit), erased)
    ensures |u| <= len && patched == Spliced(erased, hit + FfsHeaderSize, u) ==>
      var start := hit + FfsHeaderSize;
      PatchFile(before, u, hit, len) == Continue(patched, Patched(hit, start, len, WalkOf(before[start..start + len])))
  {
  }

  /** One pass of the scan loop's body on the buffer itself. */
  method VisitHitInPlace(rom: array<byte>, newUcode: seq<byte>, hit: nat) returns (step: Step)
    requires hit <= rom.Length
    modifies rom
    ensures step == VisitHit(old(rom[..]), newUcode, hit)
    ensures rom[..] == step.image
  {
    var ffs := ParseFfs(rom[hit..]);
    if ffs == Err(TooShort) {
      return Stop(HeaderTruncated(hit), rom[..]);
    }
    if ffs.Err? {
      return Continue(rom[..], Skipped(hit));
    }
    step := PatchFileInPlace(rom, newUcode, hit, ffs.value.bodyLen);
  }

  /** The erase and the copy on the buffer itself. */
  method PatchFileInPlace(rom: array<byte>, newUcode: seq<byte>, hit: nat, len: nat)
    returns (step: Step)
    requires hit + FfsHeaderSize + len <= rom.Length
    modifies rom
    ensures step == PatchFile(old(rom[..]), newUcode, hit, len)
    ensures rom[..] == step.image
  {
    ghost var before := rom[..];
    var start := hit + FfsHeaderSize;
    var body := rom[start..start + len];
    assert body == before[start..start + len];
    var found := WalkBody(body);
    FillRange(rom, start, len, Erased);
    ghost var erased := rom[..];
    if |newUcode| > len {
      PatchFileSteps(before, erased, erased, newUcode, hit, len);
      return Stop(BodyTooSmall(hit), rom[..]);
    }
    CopyInto(rom, start, newUcode);
    PatchFileSteps(before, erased, rom[..], newUcode, hit, len);
    step := Continue(rom[..], Patched(hit, start, len, found));
  }
}
