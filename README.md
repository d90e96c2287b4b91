# replace_ucode in Dafny

This project models `replace_ucode.py`, a small tool that replaces the Intel microcode stored
inside a UEFI firmware image. The tool does the following:

- It validates a replacement microcode update. The update needs a 48-byte header, and the 32-bit
  little-endian words of its first TotalSize bytes must add up to 0 modulo 2^32.
- It searches the image for the GUID 197DB236-F856-4924-90F8-CDF12FB875F3 of the microcode FFS
  files. FFS (firmware file system) files are described in the UEFI Platform Initialization
  Specification, Volume 3, section 3.2.3.
- For each hit it checks the 24-byte FFS header checksum. If the checksum holds, it erases the
  file body to 0xFF and copies the replacement over the front of the body.
- It writes the image out only if some byte changed.

The model has eight modules, one file each:

- `Wrappers`: the `Option` and `Result` types.
- `Bytes`: bytes and little-endian integers.
- `Checksum`: `array_sum`, the word sum with wrap-around.
- `Headers`: the two packed header layouts. They are pure decoders, with encoders and
  round-trip lemmas.
- `Records`: the validating constructors `FFS` and `IntelUCode`, as functions that return a
  `Result`.
- `Scanner`: `bytes.find` and the `find_all` loop.
- `Chain`: the walk over back-to-back updates in `print_concatenated_ucode`, with the printing
  removed.
- `Patcher`: the main program. It works on an `array<byte>` that stands for the shared
  `bytearray`. `Run` specifies it, and the method `PatchImage` performs it in place.

Some modelling decisions:

- A byte is an integer from 0 to 255 (`Bytes.byte`). Python's `& 0xff` of a negative number is
  Dafny's Euclidean `%`.
- The decoders take exactly the bytes of a header. Callers pass the first 24 or 48 bytes, as
  `from_buffer_copy` copies them.
- An FFS hit with fewer than 24 bytes left is an uncaught `ValueError` in the source. So is a
  replacement longer than the body. Both end the run without output, and both are `Aborted`
  outcomes here.
- The search reads the same buffer that the patching writes. The main loop therefore looks for
  the next GUID in the image as patched so far. `Scanner.FindAll` models `find_all` over a
  buffer that does not change. `Patcher.RunFindsEveryFile` shows that the two agree: every
  write starts 24 bytes past a hit, so the hits of a written run are what `find_all` reports
  on the image it writes.

## Model

| member | source | states |
|---|---|---|
| Bytes.LittleEndian | replace_ucode.py:40-43 | the value of a little-endian byte string is below 256^n, as the ctypes integer fields read it |
| Bytes.DecodeEncode | replace_ucode.py:40-43 | encoding a value that fits in `width` bytes and decoding it gives the value back |
| Bytes.EncodeDecode | replace_ucode.py:40-43 | decoding bytes and re-encoding at the same width gives the same bytes |
| Bytes.LittleEndianSplit | replace_ucode.py:92-93 | a little-endian number splits into its low k bytes plus 256^k times the rest; the Size/State bit fields rest on this |
| Checksum.Words | replace_ucode.py:98-99 | the ctypes array over the data has floor(len/w) elements, each below 2^(8w) |
| Checksum.ArraySum | replace_ucode.py:97-100 | the masked sum is below 2^(8w) |
| Checksum.WordsAt | replace_ucode.py:98-99 | word k is the little-endian value of bytes k*w .. k*w+w |
| Checksum.ArraySumIgnoresTail | replace_ucode.py:98-100 | a trailing partial word takes no part in the sum |
| Checksum.ArraySumAppend | replace_ucode.py:97-100 | the sum of two word-aligned pieces is the wrapped sum of their sums |
| Checksum.ArraySumOfBytes | replace_ucode.py:97-100 | with 8-bit words the sum is the plain byte total modulo 256 |
| Checksum.ByteTotalUpdate | replace_ucode.py:107 | replacing one byte moves the byte total by the difference of the two values |
| Headers.DecodeFfsHeader | replace_ucode.py:84-94 | the decoded FFS header has a 16-byte GUID, Size below 2^24 and State below 2^8 |
| Headers.PackedSizeAndState | replace_ucode.py:92-93 | Size is bytes 20..22 little-endian, State is byte 23, and Size + State*2^24 is the 32-bit word at offset 20 |
| Headers.FfsHeaderRoundTrip | replace_ucode.py:84-94 | encoding a well-formed FFS header and decoding it gives the header back |
| Headers.FfsHeaderBytesRoundTrip | replace_ucode.py:84-94 | decoding 24 bytes and re-encoding gives the same bytes: the layout has no padding |
| Headers.DecodeUcodeHeader | replace_ucode.py:61-82 | the decoded update header has 32-bit fields and a 16-bit year |
| Headers.UcodeHeaderRoundTrip | replace_ucode.py:61-82 | encoding a well-formed update header and decoding it gives the header back |
| Headers.UcodeHeaderBytesRoundTrip | replace_ucode.py:61-82 | decoding 48 bytes and re-encoding gives the same bytes |
| Records.Ucode.Header | replace_ucode.py:121 | the header kept by an accepted update decodes to well-formed fields |
| Records.BodyLength | replace_ucode.py:114 | the body slice ends inside the view; it is empty, or it ends at Size, or it ends at the end of the view |
| Records.ParseFfs | replace_ucode.py:104-114 | the constructor fails for lack of bytes exactly when the view is shorter than 24 bytes; an accepted body fits in the view |
| Records.FfsAcceptedIff | replace_ucode.py:104-112 | an FFS header is accepted iff the view has 24 bytes and the byte total of bytes 0..23, less bytes 17 and 23, is 0 modulo 256 |
| Records.FfsChecksumOk | replace_ucode.py:107-111 | the header checksum holds exactly when the byte total of the 24 header bytes, less bytes 17 (ChkData) and 23 (State), is a multiple of 256 |
| Records.FfsBodyBounds | replace_ucode.py:114 | the body is bytes 24 .. min(Size, len) of the view, and empty when Size is at most 24 |
| Records.CorruptedFfsHeaderRejected | replace_ucode.py:107-112 | changing any one byte of an accepted header other than 17 and 23 makes the checksum fail |
| Records.UncoveredBytesIgnored | replace_ucode.py:108-109 | bytes 17 (ChkData) and 23 (State) may take any value without changing acceptance |
| Records.ParseUcode | replace_ucode.py:120-125 | the constructor fails for lack of bytes exactly when fewer than 48 are given; an accepted update keeps at most its input and a 48-byte header |
| Records.UcodeLengthFromHeader | replace_ucode.py:121-122 | an accepted update keeps min(TotalSize, len) bytes, TotalSize read from its own header |
| Records.UcodeAcceptedIff | replace_ucode.py:120-125 | an update is accepted iff it has 48 bytes and the 32-bit words of its first min(TotalSize, len) bytes sum to 0 modulo 2^32; it keeps exactly that many bytes |
| Records.UcodeIgnoresTrailingData | replace_ucode.py:122 | bytes after TotalSize never change how an update parses |
| Scanner.GuidBytesLe | replace_ucode.py:45 | the mixed-endian form of a GUID is 16 bytes |
| Scanner.SearchedGuid | replace_ucode.py:182 | the searched needle is the `bytes_le` form of 197DB236-F856-4924-90F8-CDF12FB875F3 |
| Scanner.Find | replace_ucode.py:134-136 | `find` returns the leftmost occurrence at or after `pos`, or nothing when no occurrence lies at or after `pos` |
| Scanner.FindOnly | replace_ucode.py:134-136 | with a single occurrence, a search from at most it finds it and a search from past it finds nothing |
| Scanner.ScannedExtend | replace_ucode.py:134-138 | one more find step keeps the scan invariant: every hit is leftmost after the previous window, and nothing is missed before the resume point |
| Scanner.FindAll | replace_ucode.py:131-138 | the hits are each the leftmost occurrence at or after the previous hit + 16, strictly increasing, none remain after the last, and every occurrence lies in some hit's window |
| Chain.ChainFromValid | replace_ucode.py:142-149 | the walk is complete: each update is accepted, with a non-zero length, where the previous ones end, and the walk stops after the last |
| Chain.ChainFrom | replace_ucode.py:140-149 | the lengths of the updates the walk accepts back to back from an offset are each non-zero and together end inside the data |
| Chain.ChainValidUnique | replace_ucode.py:142-149 | any complete walk from an offset is the one ChainFrom computes |
| Chain.ChainStep | replace_ucode.py:144-147 | accepting one update that ends at the next offset moves it, and its length, from the rest of the walk to the part done |
| Chain.AcceptAt | replace_ucode.py:144-149 | one pass of the loop: the offset moves past the accepted update, taking one update and its length off the rest of the walk, and stays put exactly where the walk is over |
| Chain.WalkChain | replace_ucode.py:140-151 | the loop returns the number of updates in the walk and the bytes they cover; the bytes never exceed the data, and none are consumed exactly when none are found |
| Chain.WalkStepAsWritten | replace_ucode.py:143-149 | one pass of the source's loop body breaks out exactly when no update is accepted at the offset; otherwise it moves the offset forward by the length the update keeps, staying inside the data |
| Chain.ZeroTotalSizeStalls | replace_ucode.py:122-123 | an update header with TotalSize 0 is accepted and the source's offset does not move |
| Chain.ZeroBytesStall | replace_ucode.py:140-149 | 48 zero bytes make the source's walk stay at offset 0 |
| Patcher.Filled | replace_ucode.py:192 | erasing a range sets exactly that range and keeps the length |
| Patcher.Spliced | replace_ucode.py:195 | copying over a range replaces exactly that range and keeps the length |
| Patcher.PatchBody | replace_ucode.py:191-195 | a patched body starts with the replacement and is 0xFF after it; bytes outside the body and the image length are unchanged |
| Patcher.WalkOf | replace_ucode.py:140-151 | the walk consumes at most the data, and it finds no update (with `Chain.ChainFrom`'s guard, the "No ucode found" case) exactly when it consumes no bytes, exactly when the data does not start with an accepted update of non-zero length |
| Patcher.WalkBody | replace_ucode.py:140-149 | the loop over back-to-back updates returns the walk `WalkOf` describes |
| Patcher.FillRange | replace_ucode.py:192 | the buffer after the erase is the erased sequence |
| Patcher.CopyInto | replace_ucode.py:195 | the buffer after the copy is the spliced sequence |
| Patcher.VisitHit | replace_ucode.py:185-198 | which outcome a visit has, by what the FFS header at the hit parses as: fewer than 24 bytes stops the run with the image as it was; a bad checksum is skipped and changes nothing; an accepted header whose body is smaller than the replacement stops the run (BodyTooSmall); otherwise the body is patched: it starts 24 bytes after the hit, has the length the header gives, lies in the image, and the image is that body erased with the replacement at its front |
| Patcher.VisitPatches | replace_ucode.py:185-195 | an accepted file whose body has room for the replacement is patched, and the walk of its old body is reported |
| Patcher.PatchFile | replace_ucode.py:189-195 | a replacement longer than the body stops the run after the erase; otherwise the report holds the walk of the old body and the image is the body patched; the length never changes |
| Patcher.ScanFrom | replace_ucode.py:182-200 | the scan loop keeps the image length; what it finds is stated by `ScanFindsHits` and `ScanReportsAgree` |
| Patcher.Run | replace_ucode.py:175-203 | the image length never changes; a refused replacement stops the run before the image is touched; an image is written only if it differs from the input |
| Patcher.ScanCovered | replace_ucode.py:185-195 | the scan loop keeps every changed byte inside the body of a reported patched file |
| Patcher.RunHitsOrdered | replace_ucode.py:182 | a written run reports its hits in increasing order, at least 16 bytes apart (derived from RunFindsEveryFile) |
| Patcher.RunChangesOnlyBodies | replace_ucode.py:191-195 | every byte a written run changes lies in the body of a patched file |
| Patcher.ScanFindsHits | replace_ucode.py:134-138 | a scan begun where find_all's loop stands ends, if it writes, with exactly the hits find_all reports on the final image and no occurrence after the last |
| Patcher.ScanReportsAgree | replace_ucode.py:185-198 | a scan begun with reports that agree with their headers ends, if it writes, with every report agreeing with the header at its offset in the final image |
| Patcher.RunFindsEveryFile | replace_ucode.py:182-198 | a written run visited exactly the occurrences find_all reports on the image it writes: each the leftmost from where its search started, none after the last, every occurrence inside a visited GUID; each report agrees with the FFS header at its offset: skipped for a bad checksum, otherwise the body right after the header, at the length the header gives, with room for the replacement; the hits are also pairwise at least 16 bytes apart |
| Patcher.Apply | replace_ucode.py:191-195 | applying the reports' patches in order keeps the length and changes only bytes inside a reported patched body |
| Patcher.ScanApplies | replace_ucode.py:182-198 | the scan loop keeps the image equal to the input with every report so far applied |
| Patcher.RunApplies | replace_ucode.py:182-198 | the image a written run produces is the input with each reported patch applied in turn: every file reported as patched holds the replacement at the front of its body and 0xFF after it, unless a later patch wrote over it |
| Patcher.ScanOnce | replace_ucode.py:182-200 | a scan whose first hit is a file that takes the replacement, with no GUID past it once patched, writes that one patched image with that one report |
| Patcher.SingleFilePatched | replace_ucode.py:175-206 | with a valid replacement, a first GUID at h that starts an accepted FFS file whose body has room for the replacement, and no GUID past it once patched, the run writes the image with that body erased and the replacement at its front, and reports that one file |
| Patcher.OnlyFilePatched | replace_ucode.py:175-206 | the same when h is the only place the GUID occurs, before and after the patch |
| Patcher.NoGuidNoOutput | replace_ucode.py:182-203 | an image without the GUID is never written: a valid replacement ends with the image unchanged |
| Patcher.PatchImage | replace_ucode.py:166-203 | the method on the buffer produces the outcome `Run` specifies and leaves the buffer as that outcome's image |
| Patcher.ScanInPlace | replace_ucode.py:182-200 | the scan loop on the buffer produces the outcome `ScanFrom` specifies from offset 0 and leaves the buffer as that outcome's image |
| Patcher.VisitHitInPlace | replace_ucode.py:185-198 | one pass of the loop body on the buffer is `VisitHit` |
| Patcher.PatchFileInPlace | replace_ucode.py:189-195 | the walk, erase and copy on the buffer are `PatchFile` |

## Left out

- File I/O (lines 166, 171, 206) and argument parsing (lines 159-164): the image and the
  replacement are parameters, and the written image is the `Written` outcome.
- Printing (`PrettyStructPrinter`, the `__str__` methods, every `print`). The "No ucode found"
  warning and the trailing-bytes note are left out too. The walk keeps the numbers they are
  computed from (`Patcher.Walk`).
- The `uuid` module and the ctypes machinery: the needle is a 16-byte literal, and the fields are
  explicit offsets with little-endian arithmetic.
- Chain.ChainFrom: unlike the source, the walk also stops at an update that keeps no bytes.
  That update is accepted, but the source would loop forever on it. See Findings.
- Chain.WalkChain: counts the same walk as `Chain.ChainFrom`, so it also stops at an update that
  keeps no bytes.
- Patcher.Run: reports the walks of the replacement (line 177) and of each body (line 189) with
  the guarded walk. The source instead never ends once its walk reaches an accepted update with
  TotalSize 0: at the start of the data, or right after the accepted updates before it. Such an
  update further on, past a refused one, is never reached and does no harm.
- Scanner.FindAll: requires a non-empty needle. The source's search with an empty needle never
  ends, and the tool only ever searches for the 16-byte GUID.
- Header fields are decoded but never interpreted (Type, Attributes, dates, signatures). The
  source does not look at them either.
- Both `AssertionError`s (lines 202-203) are outcomes: the length one cannot fail (`Run` keeps
  the length), and the identical-image one is `Aborted(Unchanged, ...)`.

## Findings

| source | as written | input that shows it | evidently intended | confidence | as-written member | corrected member |
|---|---|---|---|---|---|---|
| replace_ucode.py:122-123, 147 | an update whose TotalSize is 0 passes the checksum, because the empty slice sums to 0; the walk then adds 0 to its offset and loops forever, both on the replacement file (line 177) and on an FFS body (line 189) | 48 zero bytes as the replacement file, or as the start of a microcode FFS body | the walk stops when an update would not move it forward | not executed | Chain.ZeroTotalSizeStalls | Chain.WalkChain |
