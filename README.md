# jch-metadata, modelled in Dafny

jch-metadata is a command-line viewer and cleaner for the metadata in media
and executable files. It dispatches each file, or each embedded file at an
offset, to the first parser whose signature matches. Each parser walks its
container's records and can then show the metadata, strip it in place or
rewrite the file without it, or extract an embedded thumbnail. The formats
are FLAC, PNG, WebP, JPEG (with its EXIF and ICC segments), Matroska/WebM
(EBML), MP4 (ISO base media) and ELF.

This project models those walkers on a file given as a sequence of bytes
(`seq<byte>`). Clears that rewrite the file in place take an `array<byte>`,
except the Matroska clear: its writes may land past the end of the file
and grow it, so it works on a `Bytes.File` object whose content it
replaces.
Every loop of the modelled walkers, readers and clears is a method with
invariants, proved equal to a specification function, and the format
properties are proved about those functions as lemmas. The exceptions
are listed under "## Left out": the per-format Handle loops and the
printing loops of the Show routines are modelled only where they select
or filter, the Matroska attachment loop only as one dispatch per
attachment (`Mkv.AttachmentDispatchSkipsContainers`), and the ELF
string obfuscation runs the corrected scan bound rather than the loop
as written (see "## Findings"). The modules follow the source
files:

- `Bytes`: bytes, big- and little-endian numbers, Go's `ReadAt` outcomes,
  decimal text, and 16/32-bit wrap-around.
- `Parsers`: `internal/parser/interface.go`, the action conversion and the
  parser dispatch.
- `Ebml` and `EbmlCache`: `internal/parser/mkv/ebml.go`, variable-size
  integers, the element walk, the lazily filled child cache (a class) and
  the value readers.
- `Mkv`: `internal/parser/mkv/mkv.go`. `MkvLegacy`: the older
  `internal/parser/mkv.go`.
- `Mp4`, `Mp4Box`, `Mp4Meta`, `Mp4Trak`: the four files of
  `internal/parser/mp4`.
- `Flac`, `Png`, `WebP`, `Elf`: one module per parser.
- `Jpeg`, `JpegExif`, `Icc`: the three files of `internal/parser/jpeg`.
  `Tiff` holds the IFD entry decoding that both EXIF readers share.
- `SharedExif`, `SharedIcc`: `internal/parser/shared`, the readers WebP uses.

Go's run-time panics (a slice out of range, a nil dereference) are
preconditions of the members that model the code that would panic. Loops
that the original does not bound are given a step bound or a
well-formedness precondition, as listed below.

## Model

| member | source | states |
|---|---|---|
| Parsers.ConvertAction | internal/parser/interface.go:11-26 | an accepted argument is the spelling of the action returned; the result is an error exactly when no action has that spelling, with the message "invalid action: " followed by the argument |
| Parsers.ConvertActionRoundTrip | internal/parser/interface.go:11-26 | each of show, clear and extract converts back to its own action |
| Parsers.StartParsing | internal/parser/interface.go:35-58 | the loop's parsed flag, error and the sequence of Support/Handle calls equal the dispatch specification `Dispatch` over the whole registry |
| Parsers.Decider | internal/parser/interface.go:37-47 | the deciding parser is eligible and does not answer "unsupported"; every eligible parser before it answered "unsupported"; with no decider, all eligible parsers did |
| Parsers.DispatchByDecider | internal/parser/interface.go:35-58 | with no decider nothing is parsed, no error is returned and every eligible parser's Support is called in order; otherwise a Support error is returned as is, or the decider's Handle is called last and its result sets parsed and the error |
| Parsers.NestedSkipsContainers | internal/parser/interface.go:38-40 | with a positive start offset no container parser's Support or Handle is ever called |
| Parsers.HandleAtMostOnce | internal/parser/interface.go:49-55 | Handle is called at most once, only as the last call, and a parsed outcome ends with a Handle call |
| Parsers.ParsedExcludesError | internal/parser/interface.go:42-57 | a parsed outcome carries no error and an error outcome is never parsed |
| Ebml.VintWidth | internal/parser/mkv/ebml.go:202-209 | the width of a VINT is one more than the number of leading zero bits of its non-zero first byte, so it lies in 1..8 and the first byte lies in [2^(8-w), 2^(9-w)) |
| Ebml.VintMarkerAt | internal/parser/mkv/ebml.go:203-208 | the marker search stops at bit i exactly when the first byte lies in [2^(7-i), 2^(8-i)), giving width i+1 |
| Ebml.BitTest | internal/parser/mkv/ebml.go:204 | for a byte below 2^(8-i), the mask test `v[0] & (128 >> i) == 128 >> i` holds iff the byte is at least 2^(7-i) |
| Ebml.VSize | internal/parser/mkv/ebml.go:198-219 | a VINT's width is between 1 and 8 and never exceeds the bytes read; a zero first byte reads as value 0 of width 1 |
| Ebml.GetVSize | internal/parser/mkv/ebml.go:198-219 | the loop that finds the marker bit and copies the remaining bytes into a right-aligned eight-byte buffer returns exactly the value and width of VSize |
| Ebml.VSizeBound | internal/parser/mkv/ebml.go:210-218 | a VINT of width w carries a value below 2^(7w): the marker bit is not part of the value |
| Ebml.NewEBMLElement | internal/parser/mkv/ebml.go:170-196 | an element header is an ID VINT followed by a size VINT; the payload starts after both and the next element starts where the payload ends; the read fails exactly when either eight-byte read runs past the file |
| Ebml.ElementAdvances | internal/parser/mkv/ebml.go:182-195 | every element header occupies at least two bytes, so a walk always moves forward |
| Ebml.GetEBMLElements | internal/parser/mkv/ebml.go:144-159 | the loop returns the same result as the recursive walk: up to `count` elements read back to back while the offset is below the limit, or the first read error with nothing else |
| Ebml.WalkShape | internal/parser/mkv/ebml.go:144-159 | a successful walk yields at most `count` contiguous elements, each starting before the limit; a walk that yields fewer has reached the limit |
| Ebml.Search | internal/parser/mkv/ebml.go:161-168 | nothing is found iff no element has the ID; a found element is one of the list and has the ID |
| Ebml.SearchFindsFirst | internal/parser/mkv/ebml.go:161-168 | the search returns the first element with the ID, not a later one |
| Ebml.SearchEBMLElements | internal/parser/mkv/ebml.go:161-168 | the loop over the elements returns what Search specifies |
| Ebml.GetBytes | internal/parser/mkv/ebml.go:73-80 | reading a payload succeeds iff it lies inside the file (an empty payload always reads), and yields exactly the payload's `size` bytes |
| Ebml.StringValue | internal/parser/mkv/ebml.go:82-91 | an empty payload is the empty string without a read; otherwise the payload bytes or the read error |
| Ebml.UintOf | internal/parser/mkv/ebml.go:93-112 | an empty payload is 0; otherwise the read fails iff the payload cannot be read, and the value is the payload read big-endian, below 256^size |
| Ebml.UintValue | internal/parser/mkv/ebml.go:93-112 | the loops that left-pad the payload with zeros to eight bytes compute UintOf |
| Ebml.DateValue | internal/parser/mkv/ebml.go:114-127 | an empty payload or a stored zero is the Unix epoch; a read error is passed on; a positive stored value lies after 2001-01-01 and a negative one (as int64) before it; any other date is 2001-01-01 plus an int64 offset whose uint64 bit pattern is the stored value |
| Ebml.DateRoundTrip | internal/parser/mkv/ebml.go:114-127 | a non-zero int64 offset stored as its eight two's-complement big-endian bytes reads back as 2001-01-01 plus that offset |
| Ebml.ClearValue | internal/parser/mkv/ebml.go:129-142 | an empty payload leaves the file unchanged and succeeds; a non-empty payload at a negative offset is WriteAt's error, with the file untouched; otherwise exactly the payload's bytes become zero, a payload past the end growing the file with zeros |
| EbmlCache.FirstMatch | internal/parser/mkv/ebml.go:25-37 | no child matches iff none has the ID (and, when a value is given, that payload); a found child is one of the cached children and matches |
| EbmlCache.SearchCache | internal/parser/mkv/ebml.go:23-38 | the loop over the cached children finds the first match and, when none matches, resumes reading after the last cached child |
| EbmlCache.ScanChildren | internal/parser/mkv/ebml.go:39-60 | the loop that reads children one at a time returns the first matching child, the empty element at the limit, or nil on a read error, as ScanFor specifies |
| EbmlCache.EBMLElement.constructor | internal/parser/mkv/ebml.go:11-18 | a parsed element starts with its header fields, its file and no cached children |
| EbmlCache.EBMLElement.FindFirstElement | internal/parser/mkv/ebml.go:22-61 | a cached match is returned and the cache kept; otherwise the children after the last cached one are scanned, and a match found there is appended to the cache |
| EbmlCache.EBMLElement.GetElements | internal/parser/mkv/ebml.go:63-71 | a non-empty cache is returned as is; otherwise up to 9999 children are read from the payload (nil on a read error) and become the cache |
| EbmlCache.ScanAgreesWithWalk | internal/parser/mkv/ebml.go:40-59 | when a full walk of the children succeeds, scanning them one by one finds the same element as searching the walked list |
| EbmlCache.CacheHidesEarlierChildren | internal/parser/mkv/ebml.go:36-40 | because reading resumes after the last cached child, a child that precedes a cached one is reported missing although a scan from the start finds it |
| Mkv.IsMkv | internal/parser/mkv/mkv.go:93-100 | an error exactly when the four bytes at the start offset cannot be read; otherwise true iff they are the EBML magic 1A 45 DF A3 |
| Mkv.ReadHeader | internal/parser/mkv/mkv.go:207-229 | the inline header read of the walk (ID VINT, then size VINT, each from an eight-byte read) yields exactly the element and next offset of the shared element reader |
| Mkv.GetEBMLElements | internal/parser/mkv/mkv.go:202-239 | the loop returns what the recursive walk specifies: elements read back to back until one ends at or past the limit, or the first read error with nothing else |
| Mkv.WalkAllStep | internal/parser/mkv/mkv.go:231-236 | one step of the walk: the element just read is the last one iff it ends at or past the limit |
| Mkv.WalkAllShape | internal/parser/mkv/mkv.go:205-237 | a successful walk yields at least one element; every element but the last ends before the limit and the last ends at or past it |
| Mkv.EmptyRangeReadsOne | internal/parser/mkv/mkv.go:205-237 | the loop tests the limit only after reading, so an empty range still yields the one element found at its start |
| Mkv.ParseFile | internal/parser/mkv/mkv.go:250-257 | a file shorter than eight bytes cannot be parsed; a parsed file is a non-empty run of contiguous top-level elements from offset 0 whose last one reaches the end of the file |
| Mkv.Children | internal/parser/mkv/mkv.go:133-135 | the children of an element, when there are any, lie back to back from the start of its payload |
| Mkv.GetStringValue | internal/parser/mkv/mkv.go:259-266 | empty when no element has the ID or its payload cannot be read; otherwise the payload of the first element with the ID |
| Mkv.GetUInt64Value | internal/parser/mkv/mkv.go:268-275 | zero when no element has the ID or it cannot be read; otherwise the big-endian value of the first such element, which fits 64 bits |
| Mkv.DateValue | internal/parser/mkv/mkv.go:171-185 | an empty payload or a stored zero is the Unix epoch; the eight-byte read fails iff it runs past the file; a positive stored value lies after 2001-01-01 and a negative one before it; any other date is 2001-01-01 plus an int64 offset whose uint64 bit pattern is the eight bytes read |
| Mkv.DateValueAgrees | internal/parser/mkv/mkv.go:171-185 | for a readable payload of at least eight bytes, this file's date reader and the one in ebml.go agree |
| Mkv.GetDateValue | internal/parser/mkv/mkv.go:277-284 | the epoch when no element has the ID or its date cannot be read; otherwise the date of the first such element |
| Mkv.GetTrackType | internal/parser/mkv/mkv.go:293-314 | "unknown" exactly for the codes outside 1, 2, 3, 16, 17, 18, 32 and 33 |
| Mkv.TrackTypeInjective | internal/parser/mkv/mkv.go:293-314 | two codes with the same known name are the same code |
| Mkv.OfId | internal/parser/mkv/mkv.go:341-342 | the children kept are exactly those with the ID, no more than there were |
| Mkv.TrackEntries | internal/parser/mkv/mkv.go:337-354 | one track per TrackEntry child, in order, read from that entry's children |
| Mkv.AttachmentOf | internal/parser/mkv/mkv.go:362-370 | an attachment's data offset is that of its FileData payload, which lies past the first two bytes of the file |
| Mkv.AttachmentEntries | internal/parser/mkv/mkv.go:356-374 | one attachment per AttachedFile child, in order |
| Mkv.TaggedEntries | internal/parser/mkv/mkv.go:380-393 | the Tag children kept are exactly those holding a SimpleTag |
| Mkv.TagEntries | internal/parser/mkv/mkv.go:376-398 | one tag per Tag child that holds a SimpleTag, in order |
| Mkv.SegmentMetadata | internal/parser/mkv/mkv.go:326-400 | the metadata of one Segment; each of its attachments points past the start of the file |
| Mkv.SegmentsMetadata | internal/parser/mkv/mkv.go:322-401 | one Metadata per top-level Segment, in file order; other top-level elements are skipped |
| Mkv.GetMetadata | internal/parser/mkv/mkv.go:316-403 | fails exactly when the top-level walk fails; otherwise holds as many entries as there are Segments |
| Mkv.AttachmentsLieInside | internal/parser/mkv/mkv.go:362-370 | every attachment of a parsed file points past the start of the file, where the parsers can be started on it |
| Mkv.ShownTags | internal/parser/mkv/mkv.go:80-83 | the tags shown are exactly those not named "BPS" |
| Mkv.AttachmentDispatchSkipsContainers | internal/parser/mkv/mkv.go:64-78 | starting the parsers on an attachment never hands it to a container parser |
| Mkv.ClearOne | internal/parser/mkv/mkv.go:286-292 | the file grows to the end of the payload written when that lies past its end and otherwise keeps its length; exactly the payload bytes of the first element with the ID, and the bytes the file grew by, are zero; every other byte is unchanged |
| Mkv.Reach | internal/parser/mkv/ebml.go:129-142 | a write of a found non-empty payload at a non-negative offset makes the file as long as the larger of its old length and the payload's end; any other call keeps the length |
| Mkv.TargetedCons | internal/parser/mkv/mkv.go:419-438 | a byte is targeted by a list of IDs iff the first ID's element covers it or the rest of the list targets it |
| Mkv.ClearAll | internal/parser/mkv/mkv.go:419-438 | when no call fails, clearing a list of IDs never shortens the file, zeroes exactly the bytes some targeted payload covers and the bytes the file grew by, and leaves every other byte |
| Mkv.ReachAllIsMax | internal/parser/mkv/mkv.go:419-438 | after the calls for a list of IDs the file is exactly as long as the largest of its old length and the ends of the payloads written |
| Mkv.ChildrenNeverFail | internal/parser/mkv/mkv.go:414-438 | ClearValue on the children of a walked element never returns WriteAt's error: every walked element lies at a non-negative offset |
| Mkv.ClearAllFive | internal/parser/mkv/mkv.go:419-438 | clearing the five Info IDs at once is the five ClearValue calls in the source's order |
| Mkv.ClearSegment | internal/parser/mkv/mkv.go:414-438 | in a Segment, exactly the payloads of FileName, Title, DateUTC, MuxingApp and WritingApp among the Info children become zero, with the file grown where one lies past its end; nothing else changes |
| Mkv.ClearSegmentKeepsLength | internal/parser/mkv/mkv.go:414-438 | when every payload cleared ends inside the file, clearing a Segment keeps the file's length |
| Mkv.ClearOnlyZeroes | internal/parser/mkv/mkv.go:410-439 | clearing every Segment never shortens the file and only ever writes zeros, over old bytes or new ones |
| Mkv.ClearValue | internal/parser/mkv/mkv.go:286-292 | WriteAt's error exactly when the element found has a non-empty payload at a negative offset; the file is left as ClearOne describes |
| Mkv.ClearSegmentInfo | internal/parser/mkv/mkv.go:414-438 | the five ClearValue calls, stopping at the first error, all succeed and leave the file as ClearSegment describes |
| Mkv.ClearSegmentsStep | internal/parser/mkv/mkv.go:410-439 | a non-Segment top-level element is skipped; a Segment is cleared and the loop goes on from the result |
| Mkv.ClearTopElement | internal/parser/mkv/mkv.go:410-439 | one iteration of the loop over top-level elements keeps the rest of the loop's outcome |
| Mkv.ClearSegmentsInPlace | internal/parser/mkv/mkv.go:410-439 | the loop over top-level elements leaves the file as ClearSegments describes |
| Mkv.ClearMetadata | internal/parser/mkv/mkv.go:405-441 | an error exactly when the file cannot be walked, with the file unchanged; otherwise each Segment in turn has its five Info values zeroed, as ClearSegments describes, the file growing where one lies past its end |
| MkvLegacy.IsMkv | internal/parser/mkv.go:86-96 | an error exactly when the file holds fewer than four bytes; otherwise true iff the first four are the EBML magic 1A 45 DF A3 |
| MkvLegacy.IsMkvAtStart | internal/parser/mkv.go:86-96 | the flat check agrees with the package's check at offset 0, in outcome and in answer |
| MkvLegacy.AttachmentEntries | internal/parser/mkv.go:352-368 | one attachment per AttachedFile child, in order, with name, media type and description only |
| MkvLegacy.SegmentsMetadata | internal/parser/mkv.go:318-396 | one Metadata per top-level Segment, in file order; other top-level elements are skipped |
| MkvLegacy.GetMetadata | internal/parser/mkv.go:312-397 | fails exactly when the top-level walk fails; otherwise holds as many entries as there are Segments |
| MkvLegacy.AgreesWithPackage | internal/parser/mkv.go:312-397 | wherever the package's GetMetadata succeeds, the flat one succeeds too and reports the same metadata less the attachment offsets |
| MkvLegacy.SegmentAgrees | internal/parser/mkv.go:322-394 | a Segment the package can read, the flat parser can read, with the same metadata less the attachment offsets |
| MkvLegacy.AttachmentsAgree | internal/parser/mkv.go:352-368 | the flat attachments are the package's with the offsets dropped |
| Mp4.IsMP4 | internal/parser/mp4/mp4.go:41-48 | always reads at absolute offset 4: an error exactly when bytes 4..8 are not all in the file, otherwise true iff they are "ftyp" |
| Mp4.BoxAt | internal/parser/mp4/mp4.go:88-131 | the walk stops at end of file or once the position reaches the range bound, start offset + length - 8 computed with int64 wrap-around; a box found there has its header at that position (size below the file size; every rune the type decodes to as UTF-8 has a low byte in 'a'..'z'; large size or uuid as the size field and type say); with a valid small header the only failures are the large-size and uuid reads |
| Mp4.ReadBox | internal/parser/mp4/mp4.go:88-131 | one loop pass, decoding the type rune by rune, reads the box header at the position as BoxAt describes, including the int64 range bound |
| Mp4.ValidFromStep | internal/parser/mp4/mp4.go:109-113 | the type test from a position passes exactly when the rune decoded there has a low byte in 'a'..'z' and the test passes from after it |
| Mp4.AsciiType | internal/parser/mp4/mp4.go:109-113 | for a type of ASCII bytes the test passes exactly when every byte is in 'a'..'z' |
| Mp4.LowerType | internal/parser/mp4/mp4.go:109-113 | a type of bytes in 'a'..'z' passes the test |
| Mp4.RuneLowBytesPass | internal/parser/mp4/mp4.go:109-113 | the type bytes 61 C5 A1 62 pass although two of them are not lowercase letters: C5 A1 decodes to U+0161, whose low byte is 'a' |
| Mp4.WalkStep | internal/parser/mp4/mp4.go:132-136 | a found box of size 0 ends the walk with it; otherwise the walk goes on at start + size |
| Mp4.PrependAppend | internal/parser/mp4/mp4.go:132 | appending a box, then the rest of the walk, is the walk that starts with that box |
| Mp4.GetBoxes | internal/parser/mp4/mp4.go:83-139 | the loop returns the boxes of the walk from the start offset, or the walk's first error; a 64-bit size that wraps the next position below zero gives the read error |
| Mp4.WrappedOffsetEnds | internal/parser/mp4/mp4.go:93-101 | at a negative position the walk stops if the range bound is passed and otherwise fails with the read error |
| Mp4.WrappedFails | internal/parser/mp4/mp4.go:93-101 | a box of non-zero size whose 64-bit size wraps the next position below zero ends the walk with the read error |
| Mp4.WalkFront | internal/parser/mp4/mp4.go:83-139 | the first box of a completed walk has its header at the start, inside the range, and when more boxes follow it has a size and they are the walk from start + size |
| Mp4.BoxWalkShape | internal/parser/mp4/mp4.go:83-139 | every walked box has a valid header at its start, below the int64 range bound; the first is at the walk's start; each box but the last has a non-zero size and the next starts size bytes later |
| Mp4.NextIsEnd | internal/parser/mp4/mp4.go:136 | the next position is the box's start plus its size |
| Mp4.SampleLayout | internal/parser/test/mp4_test.go:38-85 | a file laid out as the test fixture (ftyp of 28 at 0, moov of 3937 at 28, mdat of 1293680 at 3965) walks to exactly those three boxes |
| Mp4.SampleMdat | internal/parser/test/mp4_test.go:38-85 | the fixture's walk from 3965 is the mdat box alone |
| Mp4.SampleMoov | internal/parser/test/mp4_test.go:38-85 | the fixture's walk from 28 is moov, then the rest |
| Mp4.SampleFtyp | internal/parser/test/mp4_test.go:38-85 | the fixture's walk from 0 is ftyp, then the rest |
| Mp4.SampleSizes | internal/parser/test/mp4_test.go:38-85 | the fixture's size fields read 28, 3937 and 1293680 |
| Mp4.BoundIsWrapped | internal/parser/mp4/mp4.go:97 | the range bound is an int64 equal to start offset + length - 8 modulo 2^64, Go's left-to-right int64 evaluation, and exactly start offset + length - 8 when that fits |
| Mp4.WrappedRangeIsEmpty | internal/parser/mp4/mp4.go:93-101 | when start offset + length lies in [2^63 + 8, 2^64) the bound wraps below zero and a walk from any non-negative position finds no box |
| Mp4.OverlongBoxHasNoChildren | internal/parser/mp4/mp4.go:163-166 | a box whose start of data plus 64-bit size lies in [2^63 + 8, 2^64) has no children, so a meta box inside such a moov is not found |
| Mp4.WalkEnds | internal/parser/mp4/mp4.go:93-96 | a header that cannot be read ends the walk with no box |
| Mp4.PlainStep | internal/parser/mp4/mp4.go:88-136 | a plain box header (size above 1, lower-case non-uuid type) gives that box with data at +8, then the walk after it |
| Mp4.FirstStep | internal/parser/mp4/mp4.go:88-136 | the same step for a box at offset 0 |
| Mp4.WalkCons | internal/parser/mp4/mp4.go:132-136 | a found box of non-zero size followed by the walk after it is the walk |
| Mp4.PlainBoxAt | internal/parser/mp4/mp4.go:103-131 | a plain box header decodes to that box with data at +8 |
| Mp4.GetData | internal/parser/mp4/mp4.go:154-161 | a negative data offset is an error; otherwise size minus header length bytes from the data offset, zero past the end of the file (a short read is not an error) |
| Mp4.FirstOfType | internal/parser/mp4/mp4.go:176-181 | no box when none has the type; otherwise a box of the list with that type |
| Mp4.FirstOfTypeIsFirst | internal/parser/mp4/mp4.go:176-181 | the box found is the first one with the type |
| Mp4.FindNestedBoxByType | internal/parser/mp4/mp4.go:171-182 | the first child of the box, walked over its payload with the box's int64 size as the range length (a range end past 2^63 - 1 gives no children), with the type, if any |
| Mp4.FindFirst | internal/parser/mp4/mp4.go:176-181 | the loop returns the first box with the type |
| Mp4.FreeBox | internal/parser/mp4/mp4.go:201-207 | the free form keeps the length and the size bytes, writes "free" as the type and zeroes every byte from 8 on |
| Mp4.ToFreeBox | internal/parser/mp4/mp4.go:195-209 | an error exactly when the size bytes at the box's start cannot be read; otherwise the box's start and its free form |
| Mp4.MetaTarget | internal/parser/mp4/mp4.go:56-71 | of a walk that holds a moov: the box rewritten is a meta child of the first moov, and there is none exactly when that moov has size 0 or no meta child; children are walked with the int64 range bound |
| Mp4.Rewrite | internal/parser/mp4/mp4.go:72-80 | no meta box leaves the file as it is; otherwise an error exactly when it cannot be read, and else only its bytes change, into its free form |
| Mp4.MetaOf | internal/parser/mp4/mp4.go:50-71 | the box found by the walk, which must hold a moov, can be rewritten |
| Mp4.OverlongMoovHidesMeta | internal/parser/mp4/mp4.go:50-71 | a 56-byte file holding ftyp, then a moov of large size 2^63 - 30 with a meta box at its payload start: the moov's int64 range bound wraps, so the clear finds no meta box and the file stays as it is |
| Mp4.FreedBoxReadsAsFree | internal/parser/mp4/mp4.go:195-209 | after the rewrite the box reads back as a "free" box of the same size at the same place |
| Mp4.ClearMetadata | internal/parser/mp4/mp4.go:50-81 | the walk's error or the meta read error leaves the file unchanged; otherwise the file is the first meta inside the first moov rewritten as free space, or unchanged when that moov has size 0 or no meta |
| Mp4.RewriteMeta | internal/parser/mp4/mp4.go:72-80 | the file becomes the rewrite of the meta box, or stays unchanged with the read error |
| Mp4.FindMeta | internal/parser/mp4/mp4.go:52-71 | the walk's error, or the first meta inside the first moov, none when that moov has size 0; children are walked with the int64 range bound |
| Mp4Box.ConvertBox | internal/parser/mp4/box.go:18-47 | a wrapped kind is the one named by the box type; the plain box is chosen exactly when no wrapped kind has that name |
| Mp4Box.ConvertBoxRoundTrip | internal/parser/mp4/box.go:18-47 | each of ftyp, moov, mvhd, meta, trak, tkhd, mdia, mdhd, hdlr, minf, dinf and udta converts to its own wrapper |
| Mp4Box.GetFileType | internal/parser/mp4/box.go:53-68 | a failed payload read is an error; otherwise the compatible brands are the successive four-byte groups of the payload from offset 8, and together they are the whole payload from 8 on |
| Mp4Box.SecondsAsDuration | internal/parser/mp4/box.go:137-138 | stored seconds become a nanosecond duration within int64, wrapping as Go's time.Duration does |
| Mp4Box.GetHeader | internal/parser/mp4/box.go:118-140 | a failed payload read is an error; otherwise the fields are read at the offsets the version byte selects, with a 32-bit timescale |
| Mp4Box.Version0RoundTrip | internal/parser/mp4/box.go:131-136 | a version 0 payload with 32-bit fields at 4, 8, 12 and 16 decodes to those fields, times in nanoseconds from the 1904 epoch |
| Mp4Box.Version1RoundTrip | internal/parser/mp4/box.go:126-130 | a version 1 payload with 64-bit times at 4 and 12, timescale at 20 and 64-bit duration at 24 decodes to those fields |
| Mp4Box.SampleMovieHeader | internal/parser/test/mp4_test.go:106-139 | the test fixture's header, created 2003-03-03 10:03:03 UTC with timescale 25000 and duration 100000, lasts four seconds |
| Mp4Box.DurationNanos | internal/parser/mp4/box.go:157-159 | DurationString's duration lies within int64 |
| Mp4Box.DurationWholeSeconds | internal/parser/mp4/box.go:157-159 | below the int64 limit the duration is a whole number of seconds, the largest not above duration / timescale |
| Mp4Box.WholeSeconds | internal/parser/mp4/box.go:158 | whole seconds converted to nanoseconds survive the uint64 and int64 conversions |
| Mp4Box.FloorDivision | internal/parser/mp4/box.go:158 | the quotient is rounded down |
| Mp4Box.RecordsTile | internal/parser/mp4/box.go:173-180 | the udta records tile the payload in order, and none of them is empty |
| Mp4Box.UserDataRecords | internal/parser/mp4/box.go:173-180 | the loop visits each record from its length field to the next, until the end of the payload |
| Mp4Meta.KeysAt | internal/parser/mp4/meta.go:94-101 | the entry loop yields exactly the declared number of names |
| Mp4Meta.GetKeys | internal/parser/mp4/meta.go:82-103 | "keys box not found" when meta has no keys child; a failed payload read is that error; otherwise the names of the entry_count entries (count at payload bytes 4..8), each the entry's bytes after its size and namespace, in order; children are walked with the int64 range bound |
| Mp4Meta.ReadKeys | internal/parser/mp4/meta.go:91-102 | the loop returns the entry_count names from offset 8 on, each entry starting where the previous one's size ends |
| Mp4Meta.KeysAtStep | internal/parser/mp4/meta.go:95-100 | one loop pass: the entry's name is appended and the next entry starts size bytes on |
| Mp4Meta.KeysRoundTrip | internal/parser/mp4/meta.go:91-102 | reading back key entries laid out as size, namespace and name gives the names in order |
| Mp4Meta.EntryThenKeys | internal/parser/mp4/meta.go:95-100 | a laid-out entry followed by more reads as its name then the rest |
| Mp4Meta.KeysCons | internal/parser/mp4/meta.go:95-100 | an entry whose size field fits is read, then the entries after it |
| Mp4Meta.KeyEntryReads | internal/parser/mp4/meta.go:95-97 | a laid-out entry's size field reads back its length |
| Mp4Meta.PrependAllStep | internal/parser/mp4/meta.go:127 | appending a value, then the rest, is the values with it in front |
| Mp4Meta.GetValues | internal/parser/mp4/meta.go:105-131 | "ilst box not found" when meta has no ilst child; a failed payload read is that error; otherwise the entries in order, or "invalid data identifier" for the first whose bytes 12..16 are not "data"; children are walked with the int64 range bound |
| Mp4Meta.ReadValues | internal/parser/mp4/meta.go:115-130 | the loop returns the entries from offset 0, each with index at +4, type at +16, locale at +20 and the value bytes from +24, moving on by each entry's size |
| Mp4Meta.ReadEntry | internal/parser/mp4/meta.go:116-128 | one loop pass: an identifier other than "data" is the loop's error; otherwise the entry decoded at the offset, then the entries size bytes on |
| Mp4Meta.AssignLastWins | internal/parser/mp4/meta.go:71-73 | a key is present exactly when some value's index names it, and it holds the last value that does |
| Mp4Meta.GetMdta | internal/parser/mp4/meta.go:57-75 | "empty meta box" for a meta box without children, then the keys' or values' error; otherwise each value stored under the key its 1-based index names, in order; children are walked with the int64 range bound |
| Mp4Meta.Fill | internal/parser/mp4/meta.go:71-73 | the loop stores each value in turn under its key |
| Mp4Meta.ValueString | internal/parser/mp4/meta.go:140-146 | a type up to 5 gives the raw value bytes; any other type gives the decimal digits, with no sign and no leading zero, that Atoi reads back as the big-endian uint32 of the first four value bytes |
| Mp4Meta.GetHandler | internal/parser/mp4/meta.go:152-161 | a failed payload read is an error; otherwise a four-byte handler type |
| Mp4Meta.HandlerRoundTrip | internal/parser/mp4/meta.go:152-161 | a handler payload laid out as version and flags, predefined word, type, three reserved words and name reads back the type (bytes 8..12) and the name (bytes 24 on) |
| Mp4Meta.SkippedChildren | internal/parser/mp4/meta.go:44-53 | Print reports exactly the children other than mdta, hdlr, keys and ilst as skipped |
| Mp4Trak.TrackId | internal/parser/mp4/trak.go:34-39 | the track id is a 32-bit value |
| Mp4Trak.TrackIdRoundTrip | internal/parser/mp4/trak.go:34-39 | the id written into a track header is read back: from bytes 20..24 for version 1 and 12..16 otherwise |
| Mp4Trak.UsedAndPreviewNeverShown | internal/parser/mp4/trak.go:40-51 | as written, the flag text is "Enabled" when bit 0 is set and "Disabled" otherwise, whatever the other bits: ", Used" and ", Preview" are never appended |
| Mp4Trak.FlagTextNames | internal/parser/mp4/trak.go:40-51 | the flag text opens with the state, names Used right after it exactly when that bit is set, and ends with Preview exactly when that bit is set |
| Mp4Trak.FlagStringNamesBits | internal/parser/mp4/trak.go:40-51 | testing bits 0x2 and 0x4 against zero, the text names Used and Preview exactly when those bits are set |
| Mp4Trak.FlagTextsDiffer | internal/parser/mp4/trak.go:46-51 | the text as written and the intended text differ exactly when bit 0x2 or 0x4 is set |
| Mp4Trak.Without | internal/parser/mp4/trak.go:15-18 | the children shown are those of the list whose type is not excluded, in order |
| Mp4Trak.WithoutIdempotent | internal/parser/mp4/trak.go:15-18 | filtering twice is filtering once; a list with nothing to exclude is kept as it is |
| Mp4Trak.TrakShown | internal/parser/mp4/trak.go:13-22 | TrakBox.Print shows every child except edts |
| Mp4Trak.MinfShown | internal/parser/mp4/trak.go:90-97 | MediaInformationBox.Print shows every child except nmhd, stbl, smhd and vmhd |
| Mp4Trak.DrefAt | internal/parser/mp4/trak.go:112-118 | the dref loop yields exactly the declared number of entries |
| Mp4Trak.ReadDataRefs | internal/parser/mp4/trak.go:109-118 | the loop returns the entry count's references from offset 8, each with its type at +4..+8 and its value from +12 to the entry's size |
| Mp4Trak.ReadDataRef | internal/parser/mp4/trak.go:113-117 | one loop pass: appends the entry at the offset and moves on by its size |
| Mp4Trak.DrefRoundTrip | internal/parser/mp4/trak.go:109-118 | reading back laid-out dref entries gives the references in order |
| Mp4Trak.EntryThenRefs | internal/parser/mp4/trak.go:113-117 | a laid-out entry followed by more reads as its reference then the rest |
| Mp4Trak.DrefCons | internal/parser/mp4/trak.go:113-117 | an entry whose size fits is read, then the entries after it |
| Mp4Trak.DrefEntryReads | internal/parser/mp4/trak.go:114-115 | a laid-out entry reads back its type and value |
| Flac.IsFLAC | internal/parser/flac/flac.go:66-73 | an error exactly when the four bytes at the start offset cannot be read; otherwise true iff they are "fLaC" |
| Flac.HeaderBlock | internal/parser/flac/flac.go:84-90 | a block header gives a type below 128 (the top bit masked off), a 24-bit length, and the top bit as the last-block flag |
| Flac.Header | internal/parser/flac/flac.go:79-90 | a header is read exactly when its four bytes lie in the file, and is then decoded from them |
| Flac.Unmark | internal/parser/flac/flac.go:89-95 | the returned blocks are the walked blocks, one for one, with the last flag cleared |
| Flac.GetMetadata | internal/parser/flac/flac.go:75-99 | the loop returns the blocks of the chain walked from start offset + 4, with the last flag cleared, and the walk's read error, if any |
| Flac.NextBlock | internal/parser/flac/flac.go:79-96 | one loop pass: the offset advances; a non-last block appends it and continues at start + 4 + length; a last block ends the walk without error |
| Flac.WalkLink | internal/parser/flac/flac.go:84-96 | where a header can be read the chain is that block followed by nothing (last flag set) or the chain at start + 4 + length |
| Flac.LengthField | internal/parser/flac/flac.go:87 | the length is the big-endian value of 0, header[1], header[2], header[3] |
| Flac.WalkShape | internal/parser/flac/flac.go:75-99 | a chain without error has a block; the first block is at the start; every block's header lies in the file; each block starts 4 + length after the previous one; the last flag is set on exactly the final block of a chain that ended without error |
| Flac.LastNeverSet | internal/parser/flac/flac.go:89-95 | no returned block has the last flag, even when the walk ended on a last block |
| Flac.WalkHeader | internal/parser/flac/flac.go:79-90 | every walked block is what the header at its own offset decodes to |
| Flac.WalkAfter | internal/parser/flac/flac.go:77-92 | every walked block starts at or after the walk's start |
| Flac.WalkSuffix | internal/parser/flac/flac.go:75-99 | the walk from an offset depends only on the bytes from that offset on |
| Flac.Padding | internal/parser/flac/flac.go:136-155 | a rewrite of n bytes succeeds exactly when they lie in the file, and keeps the file's length |
| Flac.ConvertToPadding | internal/parser/flac/flac.go:136-155 | succeeds exactly when the 6 + length bytes from the block's start can be read; then the type byte is 0x81 or 0x01 by the last flag, the length bytes are kept and the rest becomes zero; a failed read leaves the file unchanged |
| Flac.AsWrittenZeroesNextHeader | internal/parser/flac/flac.go:137-149 | the as-written rewrite zeroes the two bytes right after the block, which belong to the next block's header |
| Flac.AsWrittenBreaksChain | internal/parser/flac/flac.go:137-150 | for an empty Vorbis comment followed by a last padding block, the walk after the as-written rewrite no longer ends and fails on a read |
| Flac.OriginalChain | internal/parser/flac/flac.go:75-99 | the eight-byte example chain walks to a Vorbis comment block then a last padding block |
| Flac.BrokenChain | internal/parser/flac/flac.go:75-99 | the rewritten example walks to a padding block and a zero header block, then a read failure |
| Flac.ZeroLengthHeader | internal/parser/flac/flac.go:84-90 | a header with zero length bytes decodes to its type (top bit masked), length 0 and its last flag |
| Flac.PaddingKeepsChain | internal/parser/flac/flac.go:136-155 | a conversion confined to the block leaves the chain as it was, except that block's type becomes padding: same offsets, lengths, last flags and ending |
| Flac.ChainKept | internal/parser/flac/flac.go:75-99 | headers unchanged before the converted block, and a retyped walk from it, give a retyped walk from any earlier chain point |
| Flac.KeptStep | internal/parser/flac/flac.go:84-96 | one step of ChainKept: the next chain point is further on, still reaches the block, and its retyped walk extends back |
| Flac.RetypedLink | internal/parser/flac/flac.go:84-96 | a link that is not the converted block is kept by retyping when its rest is |
| Flac.ConvertedHead | internal/parser/flac/flac.go:142-149 | the walk from the converted block is the original walk with that block retyped |
| Flac.RetypedAfter | internal/parser/flac/flac.go:77-92 | retyping a block before the walk's start changes nothing |
| Flac.HeaderKept | internal/parser/flac/flac.go:136-155 | a header that ends before the converted block reads the same after conversion |
| Flac.PaddedParts | internal/parser/flac/flac.go:136-155 | the confined conversion rewrites only the type byte (keeping the last flag) and the payload, and keeps the length |
| Flac.RetypedHeader | internal/parser/flac/flac.go:142-146 | after conversion the block's header reads as a padding block with the same length and last flag |
| Flac.CommentsAt | internal/parser/flac/flac.go:126-132 | the comment loop yields exactly the declared number of comments |
| Flac.GetVorbisComment | internal/parser/flac/flac.go:109-134 | a block not of type 4 is an error; a failed payload read is an error; otherwise the vendor string after its LE length, then the declared count of LE-length-prefixed comments |
| Flac.ReadComment | internal/parser/flac/flac.go:127-131 | one loop pass: reads one length-prefixed comment and moves past it, so the collected comments plus the rest are unchanged |
| Flac.VorbisRoundTrip | internal/parser/flac/flac.go:118-133 | decoding the LE-length-prefixed encoding of a vendor string and comments gives them back |
| Flac.CommentsRoundTrip | internal/parser/flac/flac.go:126-132 | decoding encoded comments after any prefix gives them back |
| Flac.FieldThenComments | internal/parser/flac/flac.go:127-131 | an encoded comment followed by more decodes as that comment then the rest |
| Flac.CommentCons | internal/parser/flac/flac.go:127-131 | a comment whose length field and bytes fit is read, then the rest from after it |
| Png.IsPNG | internal/parser/png/png.go:59-66 | an error exactly when the eight bytes at the start offset cannot be read; otherwise true iff they are the PNG signature 89 50 4E 47 0D 0A 1A 0A |
| Png.ChunkAt | internal/parser/png/png.go:80-85 | a chunk header gives its start, its type as header bytes 4..8, and a 32-bit length |
| Png.GetChunks | internal/parser/png/png.go:68-93 | an error exactly when the first offset, start offset + 8, is negative; otherwise the chunks of the walk from there, bounded by start offset + length |
| Png.NextChunk | internal/parser/png/png.go:72-90 | one loop pass: the offset advances by 12 + length; the collected chunks plus the rest of the walk are unchanged |
| Png.WalkStep | internal/parser/png/png.go:80-90 | where a header can be read, the walk starts with the chunk it describes |
| Png.ChunkStep | internal/parser/png/png.go:80-90 | the chunk list is that chunk followed by the rest of the walk |
| Png.WalkHead | internal/parser/png/png.go:72-76 | the walk is empty exactly when no header can be read at its start, and otherwise begins there |
| Png.ChunksPlaced | internal/parser/png/png.go:72-86 | every walked chunk is what the eight header bytes at its own offset describe |
| Png.ChunksFollow | internal/parser/png/png.go:87-90 | each chunk starts 12 + length after the previous one, and before the end bound |
| Png.FirstNul | internal/parser/png/png.go:159-164 | the index of the first zero byte of the payload |
| Png.FirstNulIs | internal/parser/png/png.go:159-164 | an index before which no byte is zero and at which one is, is the first NUL |
| Png.SplitJoins | internal/parser/png/png.go:156-166 | keyword, NUL and value put back together give the payload; the keyword holds no NUL |
| Png.JoinSplits | internal/parser/png/png.go:156-166 | splitting keyword + NUL + value, for a NUL-free keyword, gives keyword and value back |
| Png.ParseText | internal/parser/png/png.go:156-166 | the index scan returns the bytes before the first NUL and the bytes after it |
| Png.MapOfKeys | internal/parser/png/png.go:101-106 | a keyword is in the map exactly when some tEXt entry has it |
| Png.MapOfLast | internal/parser/png/png.go:101-106 | a keyword maps to the value of its last entry: no later entry has the same keyword |
| Png.EntriesCount | internal/parser/png/png.go:101-106 | there are at most as many entries as chunks, and none exactly when no chunk is tEXt |
| Png.EntriesOfText | internal/parser/png/png.go:101-106 | every tEXt chunk's split payload is an entry, and every entry comes from a tEXt chunk |
| Png.GetTextData | internal/parser/png/png.go:95-108 | an error exactly when the chunk walk fails; otherwise the keyword-to-value map of the tEXt chunks in walk order |
| Png.AddText | internal/parser/png/png.go:101-106 | one loop pass: the map of the entries so far grows by the next chunk's entry, if it is tEXt |
| Png.EntriesStep | internal/parser/png/png.go:101-106 | the entries of one more chunk are the earlier entries plus that chunk's split payload, if it is tEXt |
| Png.MapOfSnoc | internal/parser/png/png.go:104 | a later entry overwrites its keyword's value |
| Png.RemoveTextData | internal/parser/png/png.go:110-147 | the bytes written are the signature, then the 12 + length bytes of each non-tEXt chunk walked from offset 0, in order; a failed read is an error |
| Bytes.PrefixedTwice | internal/parser/png/png.go:120-137 | putting two pieces in front of a result in turn is putting their concatenation in front, and a failure stays a failure; the PNG and WebP rewrite loops and both EBML walks keep their invariants through it |
| Png.RemovedWalk | internal/parser/png/png.go:110-147 | the rewritten file walks as the kept chunks, with the same lengths and types, and none of them is tEXt |
| Png.ClearTwice | internal/parser/png/png.go:38-51 | clearing the output of a clear writes nothing: it holds no textual data |
| Png.KeptHasNoText | internal/parser/png/png.go:124-127 | the kept chunks hold no tEXt chunk |
| Png.KindsAgree | internal/parser/png/png.go:80-85 | equal (length, type) lists pair chunks one for one with equal lengths and types |
| Png.WalkOfKept | internal/parser/png/png.go:124-137 | the chunks copied one after another walk as the kept chunks |
| Png.CopiedHead | internal/parser/png/png.go:128-136 | the first copied chunk's header reads back its length and type, and the copy continues after its 12 + length bytes |
| Png.AfterPrefix | internal/parser/png/png.go:133 | the bytes after a written prefix are the rest |
| Png.KeptFront | internal/parser/png/png.go:128-133 | the first kept chunk is its own 12 + length bytes, read from the file, followed by the rest |
| Png.CopiedHeader | internal/parser/png/png.go:128-133 | the copy's header bytes are the source chunk's header bytes |
| Png.KindsCons | internal/parser/png/png.go:80-86 | a chunk added in front adds its (length, type) in front |
| Png.KeptSize | internal/parser/png/png.go:124-137 | nothing is copied when no chunk is kept; otherwise at least a 12-byte chunk is |
| Jpeg.IsJPEG | internal/parser/jpeg/jpeg.go:110-117 | an error exactly when the three bytes at the start offset cannot be read; otherwise true iff they are FF D8 FF |
| Jpeg.ReadFull | internal/parser/jpeg/jpeg.go:131-156 | a full read fills the buffer from the file with no error iff enough bytes remain; EOF exactly when nothing is left, an unexpected EOF when only part was read, and a short read puts the remaining file bytes in front of the buffer's old tail, which is kept whole |
| Jpeg.Round | internal/parser/jpeg/jpeg.go:131-165 | one round of the scan steps over a non-APPn marker pair by two bytes, or records an APPn segment that lies in the file where it was found and moves past its `length + 2` bytes |
| Jpeg.AppSegment | internal/parser/jpeg/jpeg.go:142-165 | an APPn marker is never stepped over: it is recorded as marker, big-endian length and body, in place in the file, or the round fails |
| Jpeg.FindApplicationSegments | internal/parser/jpeg/jpeg.go:119-168 | the loop returns what the recursive scan specifies: the discard error for a negative or too large offset, the first read error, or the APPn segments up to EOF or FF D9, in order |
| Jpeg.ReadSegment | internal/parser/jpeg/jpeg.go:131-165 | the body of the loop performs exactly one round of the scan |
| Jpeg.ScanLaid | internal/parser/jpeg/jpeg.go:130-166 | every segment the scan records lies in the file where it says, after where the scan started and after the previous segment |
| Jpeg.LaidPlaced | internal/parser/jpeg/jpeg.go:143-161 | each recorded segment is an APPn marker, its length field and its body, copied from the file at its offset |
| Jpeg.LaidOrdered | internal/parser/jpeg/jpeg.go:143-161 | recorded segments do not overlap and come in file order |
| Jpeg.CollectIsSegs | internal/parser/jpeg/jpeg.go:161-167 | a scan that returns no error returns exactly the segments it recorded |
| Jpeg.SegmentsPlaced | internal/parser/jpeg/jpeg.go:119-168 | every segment FindApplicationSegments returns lies in the file at its offset from the start offset, and each ends before the next begins |
| Jpeg.KindByMarker | internal/parser/jpeg/jpeg.go:297-349 | the kind is decided by the marker and the identifier after the length field: FF E0 with JFIF or JFXX, FF E1 with Exif or an XMP namespace, FF E2 with ICC_PROFILE; any other APPn marker is unsupported |
| Jpeg.PlacedWellFormed | internal/parser/jpeg/jpeg.go:150-156 | a segment found in the file has Raw equal to its marker followed by `length` more bytes |
| Jpeg.SegmentsWellFormed | internal/parser/jpeg/jpeg.go:119-168 | every segment FindApplicationSegments returns is well formed |
| Jpeg.AbsorbSegment | internal/parser/jpeg/jpeg.go:179-194 | one round of ParseFile's if-else chain updates only the field its segment's kind names |
| Jpeg.JfifStopsAtZero | internal/parser/jpeg/jpeg.go:180-181 | a 17-byte JFIF segment whose byte 16 is zero is absorbed without a panic, because the test stops at its first half, and records no JFIF thumbnail |
| Jpeg.ParseFile | internal/parser/jpeg/jpeg.go:170-197 | the scan's error, or the metadata obtained by folding the segments in file order into the empty metadata |
| Jpeg.AbsorbXmp | internal/parser/jpeg/jpeg.go:188-191 | a segment adds to the XMP list exactly its body after the namespace, and only for the two XMP kinds |
| Jpeg.XmpInOrder | internal/parser/jpeg/jpeg.go:179-195 | the XMP list is the XMP bodies of the segments in file order |
| Jpeg.JfxxIffPresent | internal/parser/jpeg/jpeg.go:182-183 | the JFXX flag is set iff some segment is a JFXX segment |
| Jpeg.IfdsUntouched | internal/parser/jpeg/jpeg.go:184-185 | without an EXIF segment the IFD list stays as it was |
| Jpeg.LastExifWins | internal/parser/jpeg/jpeg.go:184-185 | the IFDs reported are those of the last EXIF segment |
| Jpeg.ProfileUntouched | internal/parser/jpeg/jpeg.go:186-187 | without an ICC segment the profile stays as it was |
| Jpeg.LastProfileWins | internal/parser/jpeg/jpeg.go:186-187 | the profile reported is that of the last ICC segment |
| Jpeg.FirstExif | internal/parser/jpeg/jpeg.go:204-210 | a found index is in range and names an EXIF segment |
| Jpeg.FirstExifIsFirst | internal/parser/jpeg/jpeg.go:204-210 | no EXIF segment precedes the one found, and none exists when none is found |
| Jpeg.ExtractThumbnail | internal/parser/jpeg/jpeg.go:199-238 | the loops return what Thumbnail specifies: the scan's error, nothing without an EXIF segment, else the first IFD answer of the first EXIF segment |
| Jpeg.ThumbnailInSegment | internal/parser/jpeg/jpeg.go:204-235 | a thumbnail comes from the first EXIF segment: Compression is "6", and it is the segment bytes from the decimal offset tag plus 10, as many as the decimal length tag says |
| Jpeg.ThumbnailInFile | internal/parser/jpeg/jpeg.go:199-238 | an extracted thumbnail is a run of bytes of the file inside the first EXIF segment |
| Jpeg.SliceOfIfd | internal/parser/jpeg/jpeg.go:215-235 | an IFD that yields a thumbnail has Compression "6" and both tags, and the thumbnail is the slice they name |
| Jpeg.SegmentBytes | internal/parser/jpeg/jpeg.go:150-156 | a returned segment's Raw is the file's bytes at its position |
| Jpeg.RemoveApplicationSegment | internal/parser/jpeg/jpeg.go:240-288 | the loop writes the bytes below `length` that no segment covers, in order; a length past the end of the file makes the read fail |
| Jpeg.InSegment | internal/parser/jpeg/jpeg.go:252-258 | the inner loop says whether the position lies in some segment's range, its end computed in 16 bits as Go does |
| Jpeg.KeptGap | internal/parser/jpeg/jpeg.go:251-274 | over a run of uncovered positions every byte is copied |
| Jpeg.KeptCut | internal/parser/jpeg/jpeg.go:251-274 | over a run of covered positions nothing is copied |
| Jpeg.KeptAll | internal/parser/jpeg/jpeg.go:251-274 | with no segments the first `n` bytes are copied unchanged |
| Jpeg.KeptOneSegment | internal/parser/jpeg/jpeg.go:251-274 | removing one segment found at offset 0 yields the bytes before it followed by the bytes after it |
| JpegExif.ParseIFD | internal/parser/jpeg/exif.go:28-58 | reading the directory at `start` stores its entries into the shared map and returns its link values and next offset |
| JpegExif.ReadDirectory | internal/parser/jpeg/exif.go:15-19 | a directory and then its sub-directories, read into the shared map |
| JpegExif.NextDirectory | internal/parser/jpeg/exif.go:14-24 | one pass of ParseExif's loop consumes fuel and either ends the chain at a next offset of 0 or continues it from the next offset |
| JpegExif.ParseLinks | internal/parser/jpeg/exif.go:17-19 | each sub-directory is read once, in order, into the shared map; its own links and next offset are dropped |
| JpegExif.ParseExif | internal/parser/jpeg/exif.go:8-26 | the loop returns the map the chain specifies: the byte order from bytes 0..2, the first directory at the u32 in bytes 4..8, every directory and sub-directory writing into one map |
| JpegExif.LinkedIntoKeys | internal/parser/jpeg/exif.go:17-19 | reading sub-directories keeps every key already in the map and never adds 0x8769 |
| JpegExif.AfterDirectoryKeys | internal/parser/jpeg/exif.go:15-19 | reading a directory and its sub-directories keeps every key already in the map and never adds 0x8769 |
| JpegExif.ExifFromKeys | internal/parser/jpeg/exif.go:14-24 | the whole chain keeps every key already in the map and never adds 0x8769 |
| JpegExif.LinkNeverStored | internal/parser/jpeg/exif.go:42-44 | tag 0x8769 never appears in the result: its value is followed, not stored |
| JpegExif.ExifFromFuel | internal/parser/jpeg/exif.go:14-24 | a chain that ends within some fuel gives the same map with more fuel |
| JpegExif.FuelIrrelevant | internal/parser/jpeg/exif.go:8-26 | whenever the chain ends, the result does not depend on the fuel bound |
| JpegExif.SelfLoopNeverEnds | internal/parser/jpeg/exif.go:14-24 | a directory whose next offset is its own offset makes the loop run forever |
| Icc.Header | internal/parser/jpeg/icc.go:9-16 | the header fields are fixed-width slices of the first 83 bytes (four bytes each, three for the creator) and the copyright starts empty |
| Icc.DataOffset | internal/parser/jpeg/icc.go:21 | a tag's data offset is a big-endian u32 |
| Icc.DataSize | internal/parser/jpeg/icc.go:22 | a tag's data size is a big-endian u32 |
| Icc.ParseICC | internal/parser/jpeg/icc.go:8-33 | the loop over the tag table returns the profile ProfileOf specifies: the header fields and the copyright of the first "cprt" tag |
| Icc.ScanStep | internal/parser/jpeg/icc.go:19-31 | a table slot that is not "cprt" is stepped over and the search goes on 12 bytes further |
| Icc.FirstCprtIsFirst | internal/parser/jpeg/icc.go:19-31 | the tag found is a "cprt" slot with no "cprt" slot before it, and none is found only when no slot among the tag count is "cprt" |
| Icc.CopyrightMeaning | internal/parser/jpeg/icc.go:23-27 | a "text" copyright is the data from offset + 8 to one byte before its end, a "mluc" copyright from offset + 28; any other type leaves the copyright empty |
| Icc.HeaderIsFixed | internal/parser/jpeg/icc.go:9-16 | the header fields depend only on the first 83 bytes |
| Tiff.Uint16 | internal/parser/jpeg/exif.go:64-72 | a two-byte read fits 16 bits |
| Tiff.Uint32 | internal/parser/jpeg/exif.go:74-82 | a four-byte read fits 32 bits |
| Tiff.ReadsAreEndian | internal/parser/jpeg/exif.go:64-82 | "II" reads are the little-endian value of the bytes and "MM" reads the big-endian value |
| Tiff.ReadsBack | internal/parser/jpeg/exif.go:64-82 | a 16- or 32-bit value encoded in the announced order reads back as itself; the order is unknown exactly when the mark is neither "II" nor "MM", and then every read is 0 |
| Tiff.EntryAt | internal/parser/jpeg/exif.go:34-41 | an entry's tag fits 16 bits and its value field 32 bits |
| Tiff.NextOffset | internal/parser/jpeg/exif.go:56-57 | the next-directory offset after the entries fits 32 bits |
| Tiff.LinksMeaning | internal/parser/jpeg/exif.go:42-43 | a value is among the links iff some entry of the directory has tag 0x8769 and that value |
| Tiff.WrittenMeaning | internal/parser/jpeg/exif.go:45-53 | a text entry (type 2 or 129) with a non-empty count stores its count minus one bytes from its offset, or nothing when they run past the buffer; any other entry stores the decimal of its value field, which reads back as that value |
| Tiff.EmptyTextPanics | internal/parser/jpeg/exif.go:46-50 | a text entry with count 0 and a non-zero offset inside the buffer makes the end wrap below the start, and the slice panics |
| Tiff.StoreFromSplit | internal/parser/jpeg/exif.go:33-55 | storing the first `a + b` entries is storing the first `a` and then the next `b` |
| Tiff.StoreFromKeys | internal/parser/jpeg/exif.go:33-55 | storing entries keeps every earlier key and adds only tags of the directory's entries, never 0x8769 |
| Tiff.StoreFromLast | internal/parser/jpeg/exif.go:33-55 | when several entries share a tag, the last one that stores a value wins |
| Tiff.StoreFromUntouched | internal/parser/jpeg/exif.go:33-55 | a key no entry names keeps its earlier value |
| Tiff.StoreEntries | internal/parser/jpeg/exif.go:33-55 | the entry loop leaves the map and the link list as the recursive definitions say, with the cursor after the last entry |
| Tiff.StoreEntry | internal/parser/jpeg/exif.go:34-54 | one pass of the entry loop moves the cursor by 12 and keeps what the rest of the loop produces |
| Tiff.StoreValue | internal/parser/jpeg/exif.go:45-53 | a non-link entry leaves the map as Stored specifies, with start and end computed in 32 bits |
| SharedExif.FirstOffset | internal/parser/shared/exif.go:15-28 | when the header checks pass, the buffer holds at least the 14 header bytes |
| SharedExif.HeaderChecks | internal/parser/shared/exif.go:16-28 | the header is accepted iff it starts with "Exif", byte 4 or byte 5 is NUL (the test as written accepts either), the byte order is "II" or "MM", and the TIFF magic is 42 |
| SharedExif.Position | internal/parser/shared/exif.go:52 | a directory at TIFF offset `start` is read at `start + 6`, added in 32 bits |
| SharedExif.Reads | internal/parser/shared/exif.go:35-41 | one read per link, in order |
| SharedExif.Directory | internal/parser/shared/exif.go:33-41 | a pass that succeeds has read its own directory without a panic |
| SharedExif.ParseExif | internal/parser/shared/exif.go:15-49 | the loop returns what ExifOf specifies: nil when a header check fails, otherwise every directory of the chain followed by its sub-directories, in reading order |
| SharedExif.NextDirectory | internal/parser/shared/exif.go:31-47 | one pass of the loop consumes fuel and either ends the chain at a next offset of 0 or continues it from the next offset |
| SharedExif.ReadDirectory | internal/parser/shared/exif.go:32-41 | a pass returns its directory and sub-directories and the next offset |
| SharedExif.ParseLinks | internal/parser/shared/exif.go:35-41 | each sub-directory becomes its own IFD, in link order |
| SharedExif.ParseIFD | internal/parser/shared/exif.go:51-83 | the directory at a TIFF offset is read into a fresh map, and its link values and next offset are returned |
| SharedExif.LinkedCount | internal/parser/shared/exif.go:35-41 | as many sub-directories are returned as there are links |
| SharedExif.LinkedAt | internal/parser/shared/exif.go:35-41 | the k-th sub-directory returned is the one read at the k-th link |
| SharedExif.ChainStep | internal/parser/shared/exif.go:31-47 | the chain from an offset is that offset's directories followed by the chain from the next offset, or ends there when it is 0 |
| SharedExif.DirectoryOrder | internal/parser/shared/exif.go:32-41 | a pass yields its own directory first, then one IFD per link in link order |
| SharedExif.OwnTagsOnly | internal/parser/shared/exif.go:56-80 | every tag of an IFD comes from one of its own entries and is never 0x8769 |
| SharedExif.ValueOfEntry | internal/parser/shared/exif.go:66-79 | for the last entry with a tag, a fitting text value is stored as its bytes from offset + 6 without the final NUL, and any other value as its decimal |
| SharedExif.FirstIsMain | internal/parser/shared/exif.go:28-34 | the first IFD returned is the directory at the header's first offset |
| SharedExif.FuelIrrelevant | internal/parser/shared/exif.go:31-47 | whenever the chain ends, the result does not depend on the fuel bound |
| SharedExif.WalkLoops | internal/parser/shared/exif.go:31-47 | a pass that leads back to its own offset never ends the loop |
| SharedExif.SelfLoopNeverEnds | internal/parser/shared/exif.go:31-47 | a directory whose next offset is its own offset makes ParseExif run forever |
| SharedExif.PrintExif | internal/parser/shared/exif.go:109-127 | the lines printed are each IFD's block in order; nothing is printed iff there are no IFDs |
| SharedExif.PrintIfd | internal/parser/shared/exif.go:113-126 | one IFD prints as its heading, its tags, and a blank line |
| SharedExif.SortTags | internal/parser/shared/exif.go:115-121 | the tags are collected and sorted into the one ascending list of the map's keys |
| SharedExif.Insert | internal/parser/shared/exif.go:121 | inserting a new key into an ascending list keeps it ascending and adds exactly that key |
| SharedExif.AscendMeaning | internal/parser/shared/exif.go:115-121 | the sorted tag list is ascending and holds exactly the map's keys |
| SharedExif.AscendingUnique | internal/parser/shared/exif.go:121 | two ascending lists with the same elements are equal, so the printed order is determined |
| SharedExif.BlockAt | internal/parser/shared/exif.go:122-124 | every field line shows a tag of the IFD with its value, in strictly ascending tag order |
| SharedExif.TagListed | internal/parser/shared/exif.go:122-124 | every tag of the IFD is printed with its value |
| SharedIcc.ParseICC | internal/parser/shared/icc.go:9-34 | the shared reader never returns nil and gives the same profile as the JPEG reader |
| SharedIcc.Fields | internal/parser/shared/icc.go:46-58 | one printed value per label |
| SharedIcc.PrintReadsBack | internal/parser/shared/icc.go:46-58 | nothing is printed iff there is no profile; otherwise a heading and seven forms from which the profile can be read back |
| SharedIcc.ParsedPrints | internal/parser/shared/icc.go:46-58 | a parsed profile prints its creator from bytes 80..83 and its copyright in the last two forms |
| WebP.IsWebp | internal/parser/webp/webp.go:71-88 | an error exactly when the 24 bytes at the start offset cannot be read; otherwise true iff they begin with "RIFF", a little-endian size equal to length - 8 as a uint32, and "WEBP" |
| WebP.FourCC | internal/parser/webp/webp.go:100-106 | the FourCC keeps the first three header bytes and never ends in NUL; a non-NUL last byte is kept |
| WebP.ChunkAt | internal/parser/webp/webp.go:105-110 | a chunk header gives its start and a 32-bit little-endian size |
| WebP.GetChunks | internal/parser/webp/webp.go:90-118 | an error exactly when the first offset, start offset + 12, is negative; otherwise the chunks of the walk from there, bounded by length |
| WebP.NextChunk | internal/parser/webp/webp.go:94-115 | one loop pass: the offset advances by 8 + size; the collected chunks plus the rest of the walk are unchanged |
| WebP.ReadChunk | internal/parser/webp/webp.go:102-110 | the chunk recorded for a header read at an offset is the one the header describes |
| WebP.PatchHeader | internal/parser/webp/webp.go:102-104 | the patched header holds the FourCC, a NUL last byte replaced by a space, and keeps the size bytes |
| WebP.ChunkStep | internal/parser/webp/webp.go:105-115 | where a header can be read, the walk is that chunk followed by nothing (its end reaches length) or the walk from 8 + size after its start |
| WebP.WalkHead | internal/parser/webp/webp.go:95-99 | the walk is empty exactly when no header can be read at its start, and otherwise begins there |
| WebP.ChunksPlaced | internal/parser/webp/webp.go:95-110 | every walked chunk is what the eight header bytes at its own offset describe |
| WebP.ChunksWellFormed | internal/parser/webp/webp.go:102-110 | every walked chunk has a four-byte FourCC whose last byte is not NUL and a 32-bit size |
| WebP.ChunksFollow | internal/parser/webp/webp.go:112-115 | each chunk starts 8 + size after the previous one, with no pad byte, and below length |
| WebP.FollowsCons | internal/parser/webp/webp.go:112-115 | a chunk followed by a contiguous walk starting right after it is a contiguous walk |
| WebP.GetData | internal/parser/webp/webp.go:163-170 | the read succeeds exactly when the payload lies in the file (or is empty at a non-negative offset), and then gives the size bytes after the header |
| WebP.GetExif | internal/parser/webp/webp.go:172-178 | a failed payload read is an error; otherwise the payload parsed by the shared Exif parser |
| WebP.GetXMP | internal/parser/webp/webp.go:180-186 | succeeds exactly when the payload read does, and then gives the size payload bytes |
| WebP.GetICC | internal/parser/webp/webp.go:188-194 | a failed payload read is an error; otherwise the payload parsed as an ICC profile, never nil |
| WebP.XmpNeverShown | internal/parser/webp/webp.go:24-47 | as written, no walked chunk is ever shown as XMP, and an "XMP " chunk, though metadata, is shown in no section |
| WebP.ShowMatchesMetadata | internal/parser/webp/webp.go:24-47 | comparing with "XMP " shows exactly the metadata chunks, and the XMP section exactly for "XMP " chunks |
| WebP.HasMetadataMeaning | internal/parser/webp/webp.go:196-198 | the chunk list has metadata exactly when some chunk is EXIF, "XMP " or ICCP |
| WebP.FindMetadata | internal/parser/webp/webp.go:49-55 | the early-exit scan reports whether some chunk is metadata |
| WebP.ClearMetadata | internal/parser/webp/webp.go:120-153 | the buffer is "RIFF", a little-endian size of its length - 8, "WEBP", then FourCC, little-endian size and payload of each non-metadata chunk in order; a failed payload read is an error |
| WebP.PatchSize | internal/parser/webp/webp.go:136 | patching bytes 4..8 writes the buffer's length - 8 as a little-endian uint32 and keeps the rest |
| WebP.AppendChunk | internal/parser/webp/webp.go:122-135 | one loop pass: a failed read is the rebuild's error; otherwise the header is kept and the records so far plus the rest are the whole rebuild |
| WebP.ClearAction | internal/parser/webp/webp.go:19-66 | the Clear branch of Handle: the walk's error, nothing written when no chunk is metadata, else the rebuilt file |
| WebP.RebuiltIsWebp | internal/parser/webp/webp.go:120-136 | a rebuilt file of at least 24 bytes passes IsWebp (lines 71-88) for its own length |
| WebP.RebuiltWalk | internal/parser/webp/webp.go:90-136 | walking the rebuilt file finds the kept chunks again, with the same FourCCs and sizes, and no metadata |
| WebP.ClearTwice | internal/parser/webp/webp.go:48-66 | clearing the output of a clear writes nothing |
| WebP.NoMetadataNoWrite | internal/parser/webp/webp.go:49-59 | Clear writes nothing when no walked chunk is metadata |
| WebP.KeptHasNoMetadata | internal/parser/webp/webp.go:122-125 | the kept chunks hold no metadata chunk |
| WebP.MetadataByKinds | internal/parser/webp/webp.go:196-198 | whether a chunk list has metadata depends only on its FourCCs |
| WebP.WalkOfRecords | internal/parser/webp/webp.go:122-135 | the records appended one after another walk as the kept chunks |
| WebP.KeptStep | internal/parser/webp/webp.go:111-114 | a record followed by records that walk as the later chunks walks as that chunk then them |
| WebP.RecordFront | internal/parser/webp/webp.go:126-134 | the first kept chunk's record is its FourCC, size and payload, followed by the rest |
| WebP.RecordHeader | internal/parser/webp/webp.go:130-134 | a record's header reads back its FourCC and size, and the rest follows its payload |
| WebP.KindsCons | internal/parser/webp/webp.go:105-111 | a chunk added in front adds its FourCC and size in front |
| WebP.RecordsSize | internal/parser/webp/webp.go:122-135 | the records are empty exactly when no chunk is kept |
| Elf.IsELF | internal/parser/elf/elf.go:39-46 | an error exactly when the four bytes at the start offset cannot be read; otherwise true iff they are 7F 45 4C 46 |
| Elf.BuildIdRoundTrip | internal/parser/elf/elf.go:170-184 | the build ID of a note is what lies between its 16-byte header and its last byte; an absent section gives the empty string |
| Elf.GetBuildId | internal/parser/elf/elf.go:175-184 | no section gives the empty ID; otherwise the ID is the note's bytes from offset 16 up to, and without, its last byte |
| Elf.ScrambleBuildId | internal/parser/elf/elf.go:226-230 | the loop keeps the length, the first 16 bytes, the last byte and every '/', and turns each other byte into a letter 'a'..'z' |
| Elf.ScrambledBuildId | internal/parser/elf/elf.go:226-230 | after the scramble the build ID keeps its length and has a '/' exactly where it had one, with a letter at every other position; header and trailing byte are unchanged |
| Elf.Scan | internal/parser/elf/elf.go:247-251 | the scan over the start positions keeps the source's length |
| Elf.End | internal/parser/elf/elf.go:246 | every start position at which the target fits is scanned: length(source) - length(target) + 1 of them |
| Elf.EndAsWritten | internal/parser/elf/elf.go:246 | the bound as written keeps every scanned window inside the source |
| Elf.ObfuscateString | internal/parser/elf/elf.go:240-252 | draws one string of letters as long as the target, then the source becomes the left-to-right scan that overwrites each window equal to the target when reached, testing every start position (see Findings) |
| Elf.ScanWritesLetters | internal/parser/elf/elf.go:247-251 | the scan changes bytes only into letters, and only inside the windows it tests |
| Elf.ScanNoMatch | internal/parser/elf/elf.go:247-251 | a scan that meets no occurrence of the target at any start position it examines changes nothing |
| Elf.Frontier | internal/parser/elf/elf.go:247-251 | every original occurrence below the bound ends up with a letter at its first byte, whether overwritten itself or reached by an earlier overwrite |
| Elf.ScanDestroys | internal/parser/elf/elf.go:247-251 | a target starting with a non-letter (a path's '/') no longer occurs at any visited start position where it occurred |
| Elf.ObfuscatedHidesTarget | internal/parser/elf/elf.go:240-252 | the length is kept, no original occurrence survives, changed bytes are letters, and a source without the target is unchanged |
| Elf.LastWindowMissed | internal/parser/elf/elf.go:246-247 | as written, a source equal to the target is left as it is; testing every start position replaces it |
| Elf.ObfuscateAll | internal/parser/elf/elf.go:210-212 | obfuscating every file name in turn keeps the section's length |
| Elf.ObfuscateAllLetters | internal/parser/elf/elf.go:210-212 | after all file names are obfuscated every changed byte is a letter |
| Elf.SectionData | internal/parser/elf/elf.go:205-206 | a fresh buffer holding the section's bytes |
| Elf.ObfuscateSection | internal/parser/elf/elf.go:205-216 | the section's bytes become the file-name obfuscation of their old value, using the corrected scan that examines every start position (see Findings), written back at the section's offset; all other bytes are unchanged |
| Elf.ScrambleSection | internal/parser/elf/elf.go:219-236 | the section's bytes become a build-ID scramble of their old value, written back at the section's offset; all other bytes are unchanged |
| Elf.ClearMetadata | internal/parser/elf/elf.go:194-238 | an error exactly when listing the pclntab files fails, and then the file is unchanged; otherwise the pclntab section is obfuscated with the corrected scan (see Findings) if files were listed, the build-ID section scrambled if present, and every other byte kept |

## Left out

- Command-line handling, the recursive directory walk, opening and closing files, and the summary output of `cmd/jch-metadata/main.go` are not part of this model.
- ANSI colours, console setup and column padding in `internal/output` are not modelled. Show and Print bodies are modelled only where they select or filter: MKV tag and attachment selection, WebP's section choice, the MP4 child filters, and the EXIF and ICC printers.
- File plumbing is not modelled: temporary files, buffered writers, renames, directory creation and the thumbnail written by Extract. Each clear is modelled as the bytes it writes. PNG `RemoveTextData`, JPEG `RemoveApplicationSegment` and WebP `ClearMetadata` are modelled as the byte sequence the new file receives.
- The ELF wrappers over Go's `debug/elf`, `debug/dwarf`, `debug/gosym` and `debug/buildinfo` are not modelled: `GetDWARFFiles`, `GetPclntabFiles`, `GetBuildInfo` and the ELF show routine. Section lookups and the pclntab file list are inputs, and a failing `Section.Data` is not modelled.
- The random letters of the ELF scramblers are a nondeterministic choice of letters in 'a'..'z', given as a parameter.
- Elf.ClearMetadata: requires the pclntab and build-ID sections to be disjoint in the file; overlapping sections are not modelled.
- Elf.ObfuscateString: runs the corrected scan bound `End`, which examines every start position, and so do Elf.ObfuscateSection and Elf.ClearMetadata through it; the loop as written at internal/parser/elf/elf.go:246, which stops one position early, is modelled only as `Elf.EndAsWritten` and `Elf.ObfuscatedAsWritten`, with `Elf.LastWindowMissed` showing the difference (see Findings).
- Elf.ObfuscateString: does not claim that the target is gone afterwards. A replacement made of random letters next to kept bytes can form a new occurrence, for example target "/ab" in "/a/ab".
- The Matroska Show loop over attachments, which starts the parser dispatch on each attachment through the same file handle, is modelled only as the dispatch of one attachment (`Mkv.AttachmentDispatchSkipsContainers`); the printed output and the sequence of calls are not modelled.
- The per-format `Handle` loops, and the `Support`/`Handle` signatures with and without a length, are modelled only through the dispatch in `Parsers`. The registry's `Support` and `Handle` results are parameters.
- `time.Time` formatting and local time are not modelled. MKV dates are nanoseconds since the Unix epoch and MP4 times are seconds since 1904-01-01, both as integers. Floating-point and human-readable duration text are not modelled.
- JpegExif.ParseExif: the next-directory chain need not end, so the model requires a step bound within which the chain reaches offset 0. Chains that loop for ever are not modelled.
- SharedExif.ParseExif: the same step bound is required; a next-directory chain that loops for ever is not modelled.
- Mp4Box.UserDataRecords: a record of length 0 would make the loop spin for ever, so records are required to be non-empty.
- Mp4Meta.GetValues / Mp4Meta.ReadValues: an `ilst` entry of size 0 would make the loop spin for ever, so entries are required to have a non-zero size.
- Mp4.GetBoxes: a 64-bit size that sends the next position back to a non-negative offset at or before the box's start makes the source re-read earlier bytes, possibly for ever. Such walks are required away. A size that wraps the position below zero is modelled: the next read fails.
- Mp4.ClearMetadata: a completed walk with no moov box makes the source read the size through a nil box pointer and panic. Such files are required away.
- Mkv.ClearMetadata: a Segment without an Info child makes the source call GetElements on a nil element and panic. Such files are required away.
- Jpeg.FindApplicationSegments: scans the file from the start offset as if the file handle were positioned at byte 0. The source reads through a buffered reader from the handle's current seek position, so a second scan through a handle that an earlier read has moved (the Matroska attachment loop hands the same handle to the JPEG parser for each attachment) may start elsewhere; handle positions are not modelled. Jpeg.ParseFile and Jpeg.ExtractThumbnail inherit this.
- Jpeg.ParseFile: `internal/parser/jpeg/jpeg.go` expects the EXIF reader to return a list of IFDs, while `internal/parser/jpeg/exif.go` returns one map. The model wraps the single merged map as one IFD.
- Jpeg.RemoveApplicationSegment: segment offsets are counted from the start offset while removal counts from byte 0. The removal lemmas are stated for segments found at start offset 0, where the two agree.
- WebP.ClearMetadata: the rebuilt buffer is the new content of the whole file, because the source renames it over the file. When the image was found at a non-zero offset inside another file, the bytes around it are lost; the model keeps that behaviour and proves nothing about the enclosing file.
- Code duplicated across files is modelled once: `GetVSize`, `GetEBMLElements`, `SearchEBMLElements`, `GetTrackType` and the EBML value readers shared by `mkv/mkv.go`, `mkv/ebml.go` and `mkv.go`; `ByteOrder` of the two EXIF readers (in `Tiff`); `ParseICC` of `jpeg/icc.go` and `shared/icc.go` (in `Icc`, with `SharedIcc` proved to give the same profile).
- `internal/parser/test/jpeg_test.go` calls a `FindApplicationMarkers` that no file defines; it is not part of this model.

## Findings

| source | as written | input that shows it | evidently intended | confidence | as-written member | corrected member |
|---|---|---|---|---|---|---|
| internal/parser/flac/flac.go:136-155 | ConvertToPadding reads and writes 6+Length bytes from the block's start, so it zeroes the two bytes after the block, which are the next block's header | an empty Vorbis comment block followed by a last padding block | rewrite only the block's 4+Length bytes | not executed | Flac.AsWrittenBreaksChain | Flac.PaddingKeepsChain |
| internal/parser/flac/flac.go:89-95 | Last is set on the local block after it has been appended, so no returned block is flagged last and a cleared last block loses its flag | any FLAC file | the final block of the chain is flagged last | not executed | Flac.LastNeverSet | Flac.WalkShape |
| internal/parser/mp4/trak.go:46-51 | the Used and Preview bits are compared with 1 after masking with 2 and 4, which is never true | flags byte 0x07 | test the masked bits against zero | not executed | Mp4Trak.UsedAndPreviewNeverShown | Mp4Trak.FlagStringNamesBits |
| internal/parser/elf/elf.go:246-247 | the scan runs while i < len(source) - len(target), so the last start position is never examined | a source equal to the target | run while i <= len(source) - len(target) | not executed | Elf.LastWindowMissed | Elf.ObfuscatedHidesTarget |
| internal/parser/webp/webp.go:32 | Show compares the FourCC with the three-letter "XMP", which no four-byte FourCC equals | any file with an "XMP " chunk | compare with "XMP " | not executed | WebP.XmpNeverShown | WebP.ShowMatchesMetadata |
