/**
 * The Matroska parser. It reads EBML elements without a cache: a top-level
 * walk over the whole file, then the Info, Tracks, Attachments and Tags of
 * every Segment. Clearing zeroes the five text and date values of each
 * Segment's Info in place.
 */
module Mkv {
  import opened Bytes
  import Ebml
  import Parsers

  type Element = Ebml.Element

  /** The EBML header ID, which opens every Matroska file. */
  const Magic: seq<byte> := [0x1A, 0x45, 0xDF, 0xA3]

  const SegmentId: seq<byte> := [0x18, 0x53, 0x80, 0x67]
  const InfoId: seq<byte> := [0x15, 0x49, 0xA9, 0x66]
  const FilenameId: seq<byte> := [0x73, 0x84]
  const TitleId: seq<byte> := [0x7B, 0xA9]
  const DateUtcId: seq<byte> := [0x44, 0x61]
  const MuxingAppId: seq<byte> := [0x4D, 0x80]
  const WritingAppId: seq<byte> := [0x57, 0x41]
  const TracksId: seq<byte> := [0x16, 0x54, 0xAE, 0x6B]
  const TrackEntryId: seq<byte> := [0xAE]
  const TrackNumberId: seq<byte> := [0xD7]
  const TrackNameId: seq<byte> := [0x53, 0x6E]
  const TrackTypeId: seq<byte> := [0x83]
  const TrackLanguageId: seq<byte> := [0x22, 0xB5, 0x9C]
  const AttachmentsId: seq<byte> := [0x19, 0x41, 0xA4, 0x69]
  const AttachedFileId: seq<byte> := [0x61, 0xA7]
  const FileNameId: seq<byte> := [0x46, 0x6E]
  const FileDescriptionId: seq<byte> := [0x46, 0x7E]
  const FileMediaTypeId: seq<byte> := [0x46, 0x60]
  const FileDataId: seq<byte> := [0x46, 0x5C]
  const TagsId: seq<byte> := [0x12, 0x54, 0xC3, 0x67]
  const TagId: seq<byte> := [0x73, 0x73]
  const TargetTypeId: seq<byte> := [0x63, 0xCA]
  const SimpleTagId: seq<byte> := [0x67, 0xC8]
  const TagNameId: seq<byte> := [0x45, 0xA3]
  const TagLanguageId: seq<byte> := [0x44, 0x7A]
  const TagStringId: seq<byte> := [0x44, 0x87]

  /** IsMkv: the four bytes at the start offset are the EBML header ID; fewer than four bytes there is a read error. */
  function IsMkv(f: seq<byte>, startOffset: int): (r: Result<bool>)
    ensures r.Failure? <==> startOffset < 0 || startOffset + 4 > |f|
    ensures r.Ok? ==> (r.value <==> f[startOffset..startOffset + 4] == Magic)
  {
    match ReadAt(f, startOffset, 4)
    case Data(magicBytes) => Ok(magicBytes == Magic)
    case _ => Failure(Ebml.ReadFailed)
  }

  // ---- walking elements ----

  /**
   * The elements from `off` on: one element is always read, and the walk
   * goes on while the offset after the last payload is still below `limit`.
   * Any read error discards what was read.
   */
  function WalkAll(f: seq<byte>, off: int, limit: int): Result<seq<Element>>
    decreases if off < limit then limit - off else 0
  {
    match Ebml.NewEBMLElement(f, off)
    case Failure(m) => Failure(m)
    case Ok((e, next)) =>
      if next >= limit then Ok([e])
      else
        Ebml.ElementAdvances(f, off);
        Prefixed([e], WalkAll(f, next, limit))
  }

  /**
   * The header reads of GetEBMLElements: eight bytes for the ID VINT at
   * `off`, eight more for the size VINT after it; the element and the
   * offset right after its payload.
   */
  method ReadHeader(f: seq<byte>, off: int) returns (r: Result<(Element, int)>)
    ensures r == Ebml.NewEBMLElement(f, off)
  {
    var idRead := ReadAt(f, off, 8);
    if !idRead.Data? {
      return Failure(Ebml.ReadFailed);
    }
    var elementIdData := idRead.bytes;
    var _, idWidth := Ebml.GetVSize(elementIdData);
    var sizeRead := ReadAt(f, off + idWidth, 8);
    if !sizeRead.Data? {
      return Failure(Ebml.ReadFailed);
    }
    var size, sizeWidth := Ebml.GetVSize(sizeRead.bytes);
    var element := Ebml.Element(elementIdData[0..idWidth], size, off, off + idWidth + sizeWidth);
    HeaderRead(f, off, elementIdData, idWidth, sizeRead.bytes, size, sizeWidth, element);
    return Ok((element, element.End()));
  }

  /** Both header reads succeeded: NewEBMLElement yields the element they describe. */
  lemma HeaderRead(f: seq<byte>, off: int, idData: seq<byte>, idWidth: nat, sizeData: seq<byte>,
                   size: nat, sizeWidth: nat, e: Element)
    requires ReadAt(f, off, 8) == Data(idData) && Ebml.VintReadable(idData) && idWidth == Ebml.VSize(idData).1
    requires ReadAt(f, off + idWidth, 8) == Data(sizeData) && Ebml.VintReadable(sizeData)
    requires (size, sizeWidth) == Ebml.VSize(sizeData)
    requires idWidth <= |idData| && e == Ebml.Element(idData[0..idWidth], size, off, off + idWidth + sizeWidth)
    ensures Ebml.NewEBMLElement(f, off) == Ok((e, e.End()))
  {
    Ebml.ReadsMakeElement(f, off, idData, sizeData);
    assert idData[..idWidth] == idData[0..idWidth];
  }

  /**
   * GetEBMLElements: reads a header, skips the payload, and stops after the
   * first element whose payload reaches `limit`, so at least one element is
   * read whatever the limit.
   */
  method GetEBMLElements(f: seq<byte>, fileOffset: int, limit: int) returns (r: Result<seq<Element>>)
    ensures r == WalkAll(f, fileOffset, limit)
  {
    var result: seq<Element> := [];
    var off := fileOffset;
    var whole := WalkAll(f, fileOffset, limit);
    assert whole.Ok? ==> [] + whole.value == whole.value;
    while true
      invariant WalkAll(f, fileOffset, limit) == Prefixed(result, WalkAll(f, off, limit))
      decreases if off < limit then limit - off else 0
    {
      var header := ReadHeader(f, off);
      if header.Failure? {
        return Failure(header.msg);
      }
      var (element, next) := header.value;
      WalkAllStep(f, off, limit);
      if next >= limit {
        return Ok(result + [element]);
      }
      PrefixedTwice(result, [element], WalkAll(f, next, limit));
      result := result + [element];
      off := next;
    }
  }

  /** One step of the walk, unfolded. */
  lemma WalkAllStep(f: seq<byte>, off: int, limit: int)
    requires Ebml.NewEBMLElement(f, off).Ok?
    ensures var (e, next) := Ebml.NewEBMLElement(f, off).value;
      WalkAll(f, off, limit) == if next >= limit then Ok([e]) else Prefixed([e], WalkAll(f, next, limit))
  {
  }

  /** Every element lies in the file, after its header, and the elements lie back to back from `off`. */
  predicate WellPlaced(es: seq<Element>, off: int)
  {
    (forall i :: 0 <= i < |es| ==> 0 <= es[i].startAt && 1 <= |es[i].id| && es[i].startAt + |es[i].id| < es[i].dataAt)
    && Ebml.Contiguous(es, off)
  }

  /**
   * A successful walk yields at least one element, back to back from `off`;
   * every element but the last ends below `limit` and the last reaches it.
   */
  lemma {:induction false} WalkAllShape(f: seq<byte>, off: int, limit: int)
    requires WalkAll(f, off, limit).Ok?
    ensures var es := WalkAll(f, off, limit).value;
      |es| >= 1 && WellPlaced(es, off)
      && (forall i :: 0 <= i < |es| - 1 ==> es[i].End() < limit)
      && es[|es| - 1].End() >= limit
    decreases if off < limit then limit - off else 0
  {
    var (e, next) := Ebml.NewEBMLElement(f, off).value;
    if next < limit {
      Ebml.ElementAdvances(f, off);
      WalkAllShape(f, next, limit);
      var rest := WalkAll(f, next, limit).value;
      assert WalkAll(f, off, limit).value == [e] + rest;
      PlacedCons(e, rest, limit);
    } else {
      assert WalkAll(f, off, limit).value == [e];
    }
  }

  lemma PlacedCons(e: Element, rest: seq<Element>, limit: int)
    requires 0 <= e.startAt && 1 <= |e.id| && e.startAt + |e.id| < e.dataAt && e.End() < limit
    requires |rest| >= 1 && WellPlaced(rest, e.End())
    requires (forall i :: 0 <= i < |rest| - 1 ==> rest[i].End() < limit) && rest[|rest| - 1].End() >= limit
    ensures var es := [e] + rest;
      |es| >= 1 && WellPlaced(es, e.startAt)
      && (forall i :: 0 <= i < |es| - 1 ==> es[i].End() < limit)
      && es[|es| - 1].End() >= limit
  {
    var es := [e] + rest;
    assert forall i :: 1 <= i < |es| ==> es[i] == rest[i - 1];
  }

  /**
   * The walk reads one element even when the range is empty, so an empty
   * master element seems to hold the element that follows it.
   */
  lemma EmptyRangeReadsOne(f: seq<byte>, off: int)
    requires Ebml.NewEBMLElement(f, off).Ok?
    ensures WalkAll(f, off, off) == Ok([Ebml.NewEBMLElement(f, off).value.0])
    ensures WalkAll(f, off, off).value[0].startAt == off
  {
  }

  /** The elements of the whole file; an unreadable file is an error. */
  function ParseFile(f: seq<byte>): (r: Result<seq<Element>>)
    ensures |f| < 8 ==> r.Failure?
    ensures r.Ok? ==> |r.value| >= 1 && WellPlaced(r.value, 0) && r.value[|r.value| - 1].End() >= |f|
  {
    var r := WalkAll(f, 0, |f|);
    if r.Ok? then WalkAllShape(f, 0, |f|); r else r
  }

  /** GetElements with its error dropped: the children of `e`, or none when they cannot all be read. */
  function Children(f: seq<byte>, e: Element): (cs: seq<Element>)
    ensures cs != [] ==> WellPlaced(cs, e.dataAt)
  {
    var w := WalkAll(f, e.dataAt, e.End());
    if w.Ok? then WalkAllShape(f, e.dataAt, e.End()); w.value else []
  }

  // ---- values with errors ignored ----

  /** The text of the first element with the ID; empty when it is missing or unreadable. */
  function GetStringValue(f: seq<byte>, elementId: seq<byte>, elements: seq<Element>): (r: seq<byte>)
    ensures Ebml.Search(elementId, elements).None? ==> r == []
    ensures Ebml.Search(elementId, elements).Some? ==>
      (var e := Ebml.Search(elementId, elements).value;
       r == (if Ebml.StringValue(f, e).Ok? then Ebml.StringValue(f, e).value else []))
    ensures r != [] ==> exists e :: e in elements && e.id == elementId && 0 <= e.dataAt <= e.End() <= |f| && r == f[e.dataAt..e.End()]
  {
    match Ebml.Search(elementId, elements)
    case None => []
    case Some(e) =>
      match Ebml.StringValue(f, e)
      case Ok(s) => s
      case Failure(_) => []
  }

  /** The integer value of the first element with the ID can be read without overrunning the eight-byte buffer. */
  predicate UintReadable(f: seq<byte>, elementId: seq<byte>, elements: seq<Element>)
  {
    var t := Ebml.Search(elementId, elements);
    t.None? || t.value.size <= 8 || Ebml.GetBytes(f, t.value).Failure?
  }

  /** The unsigned value of the first element with the ID; zero when it is missing or unreadable. */
  function GetUInt64Value(f: seq<byte>, elementId: seq<byte>, elements: seq<Element>): (r: nat)
    requires UintReadable(f, elementId, elements)
    ensures r < 0x1_0000_0000_0000_0000
    ensures Ebml.Search(elementId, elements).None? ==> r == 0
    ensures Ebml.Search(elementId, elements).Some? ==>
      (var e := Ebml.Search(elementId, elements).value;
       r == (if Ebml.UintOf(f, e).Ok? then Ebml.UintOf(f, e).value else 0))
  {
    match Ebml.Search(elementId, elements)
    case None => 0
    case Some(e) =>
      match Ebml.UintOf(f, e)
      case Ok(v) =>
        assert Pow256(8) == 0x1_0000_0000_0000_0000;
        PowMonotone(e.size, 8);
        v
      case Failure(_) => 0
  }

  lemma {:induction false} PowMonotone(a: nat, b: nat)
    requires a <= b
    ensures Pow256(a) <= Pow256(b)
    decreases b
  {
    if a < b {
      PowMonotone(a, b - 1);
    }
  }

  /**
   * The date of a non-empty element, in nanoseconds since the Unix epoch:
   * eight bytes are read at the payload whatever its size, a stored zero is
   * the epoch, and other values count signed nanoseconds from 2001-01-01.
   */
  function DateValue(f: seq<byte>, e: Element): (r: Result<int>)
    ensures e.size == 0 ==> r == Ok(0)
    ensures e.size > 0 ==> (r.Failure? <==> e.dataAt < 0 || e.dataAt + 8 > |f|)
    ensures r.Ok? && r.value != 0 ==> (var stored := BE(f[e.dataAt..e.dataAt + 8]);
      stored != 0
      && (stored < 0x8000_0000_0000_0000 ==> r.value > Ebml.MillenniumSeconds * Ebml.NanosPerSecond)
      && (stored >= 0x8000_0000_0000_0000 ==> r.value < Ebml.MillenniumSeconds * Ebml.NanosPerSecond))
    ensures r.Ok? && r.value != 0 ==> (var d := r.value - Ebml.MillenniumSeconds * Ebml.NanosPerSecond;
      -0x8000_0000_0000_0000 <= d < 0x8000_0000_0000_0000 && U64(d) == BE(f[e.dataAt..e.dataAt + 8]))
  {
    if e.size == 0 then Ok(0)
    else match ReadAt(f, e.dataAt, 8)
      case Data(data) =>
        var stored := BE(data);
        BEBound(data);
        assert Pow256(8) == 0x1_0000_0000_0000_0000;
        if stored == 0 then Ok(0)
        else Ok(Ebml.MillenniumSeconds * Ebml.NanosPerSecond + Ebml.Int64(stored))
      case _ => Failure(Ebml.ReadFailed)
  }

  /**
   * Where the payload holds at least eight readable bytes, the fixed
   * eight-byte read agrees with the cached walker's date, which reads the
   * whole payload.
   */
  lemma DateValueAgrees(f: seq<byte>, e: Element)
    requires e.size == 0 || (e.size >= 8 && Ebml.GetBytes(f, e).Ok?)
    ensures DateValue(f, e) == Ebml.DateValue(f, e)
  {
    if e.size > 0 {
      var data := Ebml.GetBytes(f, e).value;
      assert data[..8] == f[e.dataAt..e.dataAt + 8];
    }
  }

  /** The date of the first element with the ID; the epoch when it is missing or unreadable. */
  function GetDateValue(f: seq<byte>, elementId: seq<byte>, elements: seq<Element>): (r: int)
    ensures Ebml.Search(elementId, elements).None? ==> r == 0
    ensures Ebml.Search(elementId, elements).Some? ==>
      (var e := Ebml.Search(elementId, elements).value;
       r == (if DateValue(f, e).Ok? then DateValue(f, e).value else 0))
  {
    match Ebml.Search(elementId, elements)
    case None => 0
    case Some(e) =>
      match DateValue(f, e)
      case Ok(d) => d
      case Failure(_) => 0
  }

  // ---- track types ----

  const KnownTrackTypes: set<nat> := {1, 2, 3, 16, 17, 18, 32, 33}

  /** The name of a TrackType code. */
  function GetTrackType(value: nat): (r: string)
    ensures r == "unknown" <==> value !in KnownTrackTypes
  {
    match value
    case 1 => "video"
    case 2 => "audio"
    case 3 => "complex"
    case 16 => "logo"
    case 17 => "subtitle"
    case 18 => "buttons"
    case 32 => "control"
    case 33 => "metadata"
    case _ => "unknown"
  }

  /** Distinct known codes have distinct names. */
  lemma TrackTypeInjective(a: nat, b: nat)
    requires GetTrackType(a) == GetTrackType(b) != "unknown"
    ensures a == b
  {
  }

  // ---- metadata ----

  datatype Info = Info(filename: seq<byte>, dateUtc: int, title: seq<byte>, muxingApp: seq<byte>, writingApp: seq<byte>)
  datatype Track = Track(number: nat, name: seq<byte>, trackType: nat, language: seq<byte>)
  datatype Attachment = Attachment(name: seq<byte>, mediaType: seq<byte>, description: seq<byte>, dataAt: int)
  datatype Tag = Tag(name: seq<byte>, targetType: seq<byte>, language: seq<byte>, value: seq<byte>)
  datatype Metadata = Metadata(info: Info, tracks: seq<Track>, attachments: seq<Attachment>, tags: seq<Tag>)

  /** The elements with the given ID, in file order. */
  function OfId(cs: seq<Element>, id: seq<byte>): (r: seq<Element>)
    ensures forall e :: e in r ==> e in cs && e.id == id
    ensures forall e :: e in cs && e.id == id ==> e in r
    ensures |r| <= |cs|
  {
    if cs == [] then []
    else (if cs[0].id == id then [cs[0]] else []) + OfId(cs[1..], id)
  }

  function InfoOf(f: seq<byte>, infoElements: seq<Element>): Info
  {
    Info(GetStringValue(f, FilenameId, infoElements), GetDateValue(f, DateUtcId, infoElements),
         GetStringValue(f, TitleId, infoElements), GetStringValue(f, MuxingAppId, infoElements),
         GetStringValue(f, WritingAppId, infoElements))
  }

  predicate TrackReadable(f: seq<byte>, t: Element)
  {
    UintReadable(f, TrackNumberId, Children(f, t)) && UintReadable(f, TrackTypeId, Children(f, t))
  }

  function TrackOf(f: seq<byte>, t: Element): Track
    requires TrackReadable(f, t)
  {
    var els := Children(f, t);
    Track(GetUInt64Value(f, TrackNumberId, els), GetStringValue(f, TrackNameId, els),
          GetUInt64Value(f, TrackTypeId, els), GetStringValue(f, TrackLanguageId, els))
  }

  /** The tracks of a Tracks element's children: one per TrackEntry, in order, and nothing from other children. */
  function TrackEntries(f: seq<byte>, cs: seq<Element>): (r: seq<Track>)
    requires forall e :: e in cs && e.id == TrackEntryId ==> TrackReadable(f, e)
    ensures var entries := OfId(cs, TrackEntryId);
      |r| == |entries| && forall i :: 0 <= i < |r| ==> r[i] == TrackOf(f, entries[i])
  {
    var entries := OfId(cs, TrackEntryId);
    seq(|entries|, i requires 0 <= i < |entries| => assert entries[i] in entries; TrackOf(f, entries[i]))
  }

  /** An attached file whose FileData is missing makes the parser dereference nil. */
  predicate AttachmentReadable(f: seq<byte>, a: Element)
  {
    Ebml.Search(FileDataId, Children(f, a)).Some?
  }

  function AttachmentOf(f: seq<byte>, a: Element): (r: Attachment)
    requires AttachmentReadable(f, a)
    ensures r.dataAt >= 2
  {
    var els := Children(f, a);
    var data := Ebml.Search(FileDataId, els).value;
    assert data in els;
    Attachment(GetStringValue(f, FileNameId, els), GetStringValue(f, FileMediaTypeId, els),
               GetStringValue(f, FileDescriptionId, els), data.dataAt)
  }

  /** The attachments of an Attachments element's children: one per AttachedFile, in order. */
  function AttachmentEntries(f: seq<byte>, cs: seq<Element>): (r: seq<Attachment>)
    requires forall e :: e in cs && e.id == AttachedFileId ==> AttachmentReadable(f, e)
    ensures var entries := OfId(cs, AttachedFileId);
      |r| == |entries| && forall i :: 0 <= i < |r| ==> r[i] == AttachmentOf(f, entries[i])
  {
    var entries := OfId(cs, AttachedFileId);
    seq(|entries|, i requires 0 <= i < |entries| => assert entries[i] in entries; AttachmentOf(f, entries[i]))
  }

  lemma AttachmentsAfterStart(f: seq<byte>, cs: seq<Element>)
    requires forall e :: e in cs && e.id == AttachedFileId ==> AttachmentReadable(f, e)
    ensures forall a :: a in AttachmentEntries(f, cs) ==> a.dataAt >= 2
  {
    var r := AttachmentEntries(f, cs);
    forall a | a in r
      ensures a.dataAt >= 2
    {
      var i :| 0 <= i < |r| && r[i] == a;
    }
  }

  /** Tag elements that hold a SimpleTag, in order; the others produce no tag. */
  function TaggedEntries(f: seq<byte>, cs: seq<Element>): (r: seq<Element>)
    ensures forall e :: e in r <==> e in cs && e.id == TagId && Ebml.Search(SimpleTagId, Children(f, e)).Some?
  {
    if cs == [] then []
    else
      (if cs[0].id == TagId && Ebml.Search(SimpleTagId, Children(f, cs[0])).Some? then [cs[0]] else [])
      + TaggedEntries(f, cs[1..])
  }

  function TagOf(f: seq<byte>, t: Element): Tag
    requires Ebml.Search(SimpleTagId, Children(f, t)).Some?
  {
    var els := Children(f, t);
    var simple := Children(f, Ebml.Search(SimpleTagId, els).value);
    Tag(GetStringValue(f, TagNameId, simple), GetStringValue(f, TargetTypeId, els),
        GetStringValue(f, TagLanguageId, simple), GetStringValue(f, TagStringId, simple))
  }

  /** The tags of a Tags element's children: one per Tag that holds a SimpleTag, in order. */
  function TagEntries(f: seq<byte>, cs: seq<Element>): (r: seq<Tag>)
    ensures var entries := TaggedEntries(f, cs);
      |r| == |entries| && forall i :: 0 <= i < |r| ==> r[i] == TagOf(f, entries[i])
  {
    var entries := TaggedEntries(f, cs);
    seq(|entries|, i requires 0 <= i < |entries| => assert entries[i] in entries; TagOf(f, entries[i]))
  }

  /** The children of the first element with the ID, or none when there is no such element. */
  function ChildrenOf(f: seq<byte>, id: seq<byte>, e: seq<Element>): seq<Element>
  {
    match Ebml.Search(id, e)
    case None => []
    case Some(x) => Children(f, x)
  }

  /**
   * What GetMetadata needs of a Segment to finish without a panic: an Info
   * element, track numbers and types that fit eight bytes, and FileData in
   * every attached file.
   */
  predicate SegmentReadable(f: seq<byte>, seg: Element)
  {
    var e := Children(f, seg);
    Ebml.Search(InfoId, e).Some?
    && (forall t :: t in ChildrenOf(f, TracksId, e) && t.id == TrackEntryId ==> TrackReadable(f, t))
    && (forall a :: a in ChildrenOf(f, AttachmentsId, e) && a.id == AttachedFileId ==> AttachmentReadable(f, a))
  }

  function SegmentMetadata(f: seq<byte>, seg: Element): (m: Metadata)
    requires SegmentReadable(f, seg)
    ensures forall a :: a in m.attachments ==> a.dataAt >= 2
  {
    var e := Children(f, seg);
    var infoElements := Children(f, Ebml.Search(InfoId, e).value);
    var attachments := AttachmentEntries(f, ChildrenOf(f, AttachmentsId, e));
    AttachmentsAfterStart(f, ChildrenOf(f, AttachmentsId, e));
    Metadata(InfoOf(f, infoElements),
             TrackEntries(f, ChildrenOf(f, TracksId, e)),
             attachments,
             TagEntries(f, ChildrenOf(f, TagsId, e)))
  }

  predicate AllSegmentsReadable(f: seq<byte>, tops: seq<Element>)
  {
    forall s :: s in tops && s.id == SegmentId ==> SegmentReadable(f, s)
  }

  /** One Metadata per top-level Segment, in file order; other top-level elements are skipped. */
  function SegmentsMetadata(f: seq<byte>, tops: seq<Element>): (r: seq<Metadata>)
    requires AllSegmentsReadable(f, tops)
    ensures var segs := OfId(tops, SegmentId);
      |r| == |segs| && forall i :: 0 <= i < |r| ==> r[i] == SegmentMetadata(f, segs[i])
  {
    var entries := OfId(tops, SegmentId);
    seq(|entries|, i requires 0 <= i < |entries| => assert entries[i] in entries; SegmentMetadata(f, entries[i]))
  }

  /** GetMetadata: the metadata of every Segment; a top-level walk that fails is the only error. */
  function GetMetadata(f: seq<byte>): (r: Result<seq<Metadata>>)
    requires ParseFile(f).Ok? ==> AllSegmentsReadable(f, ParseFile(f).value)
    ensures r.Failure? <==> ParseFile(f).Failure?
    ensures r.Ok? ==> |r.value| == |OfId(ParseFile(f).value, SegmentId)|
  {
    match ParseFile(f)
    case Failure(m) => Failure("failed to read file stat: " + m)
    case Ok(elements) => Ok(SegmentsMetadata(f, elements))
  }

  /** Every attachment of a parsed file points past the start of the file. */
  lemma AttachmentsLieInside(f: seq<byte>)
    requires ParseFile(f).Ok? && AllSegmentsReadable(f, ParseFile(f).value)
    ensures forall m, a :: m in GetMetadata(f).value && a in m.attachments ==> a.dataAt >= 2
  {
    var tops := ParseFile(f).value;
    var ms := SegmentsMetadata(f, tops);
    assert GetMetadata(f).value == ms;
    var segs := OfId(tops, SegmentId);
    forall m, a | m in ms && a in m.attachments
      ensures a.dataAt >= 2
    {
      var i :| 0 <= i < |ms| && ms[i] == m;
      assert segs[i] in segs;
      assert m == SegmentMetadata(f, segs[i]);
    }
  }

  // ---- what Show does with the metadata ----

  const BpsName: seq<byte> := [0x42, 0x50, 0x53]

  /** The tags Show prints: every tag except those named BPS, in order. */
  function ShownTags(tags: seq<Tag>): (r: seq<Tag>)
    ensures forall t :: t in r <==> t in tags && t.name != BpsName
    ensures |r| <= |tags|
  {
    if tags == [] then []
    else (if tags[0].name == BpsName then [] else [tags[0]]) + ShownTags(tags[1..])
  }

  /**
   * Show hands each attachment's payload offset to the parser dispatcher.
   * That offset is never zero, so an attachment is never handed to a
   * container parser, and a Matroska file inside a Matroska file is not
   * walked again.
   */
  lemma AttachmentDispatchSkipsContainers(f: seq<byte>, parsers: seq<Parsers.Parser>)
    requires ParseFile(f).Ok? && AllSegmentsReadable(f, ParseFile(f).value)
    ensures forall m, a, c :: (m in GetMetadata(f).value && a in m.attachments
      && c in Parsers.Dispatch(parsers, a.dataAt, 0).calls) ==> c.index < |parsers| && !parsers[c.index].container
  {
    AttachmentsLieInside(f);
    forall m, a | m in GetMetadata(f).value && a in m.attachments
      ensures forall c :: c in Parsers.Dispatch(parsers, a.dataAt, 0).calls ==> c.index < |parsers| && !parsers[c.index].container
    {
      Parsers.NestedSkipsContainers(parsers, a.dataAt, 0);
    }
  }

  // ---- clearing ----

  /** The Info children that ClearMetadata empties, in the order it empties them. */
  const ClearedIds: seq<seq<byte>> := [FilenameId, TitleId, DateUtcId, MuxingAppId, WritingAppId]

  /** ClearValue writes zeros for `t`: it was found, its payload is not empty and its offset is not negative. */
  predicate Writes(t: Option<Element>)
  {
    t.Some? && t.value.size > 0 && t.value.dataAt >= 0
  }

  /** ClearValue returns WriteAt's error for `t`: a non-empty payload at a negative offset. */
  predicate Fails(t: Option<Element>)
  {
    t.Some? && t.value.size > 0 && t.value.dataAt < 0
  }

  /** No ClearValue call for one of `ids` fails. */
  predicate NoneFails(elements: seq<Element>, ids: seq<seq<byte>>)
  {
    forall id :: id in ids ==> !Fails(Ebml.Search(id, elements))
  }

  /** Byte `i` lies in the payload that ClearValue zeroes for `id`. */
  predicate Hits(elements: seq<Element>, id: seq<byte>, i: int)
  {
    Writes(Ebml.Search(id, elements)) && Ebml.Search(id, elements).value.dataAt <= i < Ebml.Search(id, elements).value.End()
  }

  /** The length of a file of `n` bytes once the payload of `t` is zeroed: a payload past the end grows it. */
  function Reach(n: nat, t: Option<Element>): (r: nat)
    ensures r >= n
    ensures Writes(t) ==> r >= t.value.End() && (r == n || r == t.value.End())
    ensures !Writes(t) ==> r == n
  {
    if Writes(t) then Max(n, t.value.End()) else n
  }

  /** What ClearValue leaves: the payload of the first element with the ID zeroed, if there is one. */
  function ClearOne(f: seq<byte>, elementId: seq<byte>, elements: seq<Element>): (r: seq<byte>)
    ensures |r| == Reach(|f|, Ebml.Search(elementId, elements))
    ensures forall i :: 0 <= i < |r| ==> r[i] == (if Hits(elements, elementId, i) || i >= |f| then 0 else f[i])
  {
    var t := Ebml.Search(elementId, elements);
    if Writes(t) then Grown(f, t.value.dataAt, Zeros(t.value.size)) else f
  }

  /** Byte `i` belongs to the payload of the first element carrying one of `ids`. */
  predicate Targeted(elements: seq<Element>, ids: seq<seq<byte>>, i: int)
  {
    exists k :: 0 <= k < |ids| && Hits(elements, ids[k], i)
  }

  lemma TargetedCons(elements: seq<Element>, ids: seq<seq<byte>>, i: int)
    requires |ids| > 0
    ensures Targeted(elements, ids, i) <==> Hits(elements, ids[0], i) || Targeted(elements, ids[1..], i)
  {
    if Targeted(elements, ids[1..], i) {
      var k :| 0 <= k < |ids[1..]| && Hits(elements, ids[1..][k], i);
      assert ids[k + 1] == ids[1..][k];
    }
    if Targeted(elements, ids, i) && !Hits(elements, ids[0], i) {
      var k :| 0 <= k < |ids| && Hits(elements, ids[k], i);
      assert ids[1..][k - 1] == ids[k];
    }
  }

  /** The end of the payload written for `id`, or 0 when nothing is written. */
  function WrittenEnd(elements: seq<Element>, id: seq<byte>): nat
  {
    if Writes(Ebml.Search(id, elements)) then Ebml.Search(id, elements).value.End() else 0
  }

  /**
   * The length of a file of `n` bytes after the ClearValue calls for `ids`:
   * the largest of `n` and the ends of the payloads written.
   */
  function ReachAll(n: nat, elements: seq<Element>, ids: seq<seq<byte>>): (r: nat)
    decreases |ids|
  {
    if ids == [] then n else ReachAll(Reach(n, Ebml.Search(ids[0], elements)), elements, ids[1..])
  }

  /** ReachAll is the maximum of `n` and every written payload's end. */
  lemma {:induction false} ReachAllIsMax(n: nat, elements: seq<Element>, ids: seq<seq<byte>>)
    ensures var r := ReachAll(n, elements, ids);
      r >= n && (forall k :: 0 <= k < |ids| ==> WrittenEnd(elements, ids[k]) <= r)
      && (r == n || exists k :: 0 <= k < |ids| && WrittenEnd(elements, ids[k]) == r)
    decreases |ids|
  {
    if ids != [] {
      var m := Reach(n, Ebml.Search(ids[0], elements));
      ReachAllIsMax(m, elements, ids[1..]);
      var r := ReachAll(n, elements, ids);
      assert r == ReachAll(m, elements, ids[1..]);
      forall k | 0 <= k < |ids|
        ensures WrittenEnd(elements, ids[k]) <= r
      {
        if k > 0 {
          assert ids[k] == ids[1..][k - 1];
        }
      }
      if r != n {
        if r == m {
          assert WrittenEnd(elements, ids[0]) == r;
        } else {
          var j :| 0 <= j < |ids[1..]| && WrittenEnd(elements, ids[1..][j]) == r;
          assert ids[j + 1] == ids[1..][j];
        }
      }
    }
  }

  /** The ClearValue calls in sequence, none of which fails: exactly the targeted payload bytes, and any bytes the file grew by, are zero. */
  function ClearAll(f: seq<byte>, elements: seq<Element>, ids: seq<seq<byte>>): (r: seq<byte>)
    requires NoneFails(elements, ids)
    ensures |r| == ReachAll(|f|, elements, ids) && |r| >= |f|
    ensures forall i :: 0 <= i < |r| ==> r[i] == (if Targeted(elements, ids, i) || i >= |f| then 0 else f[i])
    decreases |ids|
  {
    if ids == [] then f
    else
      var g := ClearOne(f, ids[0], elements);
      assert forall id :: id in ids[1..] ==> id in ids;
      var r := ClearAll(g, elements, ids[1..]);
      forall i | 0 <= i < |r|
        ensures r[i] == (if Targeted(elements, ids, i) || i >= |f| then 0 else f[i])
      {
        TargetedCons(elements, ids, i);
      }
      r
  }

  /** A walked element lies at a non-negative offset, so no ClearValue call on the children of an element fails. */
  lemma ChildrenNeverFail(f: seq<byte>, e: Element, ids: seq<seq<byte>>)
    ensures NoneFails(Children(f, e), ids)
  {
    var cs := Children(f, e);
    forall id | id in ids
      ensures !Fails(Ebml.Search(id, cs))
    {
      var t := Ebml.Search(id, cs);
      if t.Some? {
        var k :| 0 <= k < |cs| && cs[k] == t.value;
      }
    }
  }

  /** The Info children of a Segment, read from the file as it is now. */
  function InfoChildren(f: seq<byte>, seg: Element): seq<Element>
    requires Ebml.Search(InfoId, Children(f, seg)).Some?
  {
    Children(f, Ebml.Search(InfoId, Children(f, seg)).value)
  }

  /** A Segment can be cleared without a panic: it holds an Info element. */
  predicate SegmentClearable(f: seq<byte>, seg: Element)
  {
    Ebml.Search(InfoId, Children(f, seg)).Some?
  }

  /** The five Info values of one Segment zeroed; the file grows where one of them lies past its end. */
  function ClearSegment(f: seq<byte>, seg: Element): (r: seq<byte>)
    requires SegmentClearable(f, seg)
    ensures |r| == ReachAll(|f|, InfoChildren(f, seg), ClearedIds) && |r| >= |f|
    ensures forall i :: 0 <= i < |r| ==> r[i] == (if Targeted(InfoChildren(f, seg), ClearedIds, i) || i >= |f| then 0 else f[i])
  {
    ChildrenNeverFail(f, Ebml.Search(InfoId, Children(f, seg)).value, ClearedIds);
    ClearAll(f, InfoChildren(f, seg), ClearedIds)
  }

  /** Every Segment from the `k`-th top-level element on holds an Info, each read after the previous one was cleared. */
  predicate Clearable(f: seq<byte>, tops: seq<Element>, k: nat)
    decreases |tops| - k
  {
    k >= |tops|
    || (tops[k].id != SegmentId && Clearable(f, tops, k + 1))
    || (tops[k].id == SegmentId && SegmentClearable(f, tops[k]) && Clearable(ClearSegment(f, tops[k]), tops, k + 1))
  }

  /** The file after clearing every Segment from the `k`-th top-level element on. */
  function ClearSegments(f: seq<byte>, tops: seq<Element>, k: nat): (r: seq<byte>)
    requires Clearable(f, tops, k)
    decreases |tops| - k
  {
    if k >= |tops| then f
    else if tops[k].id != SegmentId then ClearSegments(f, tops, k + 1)
    else ClearSegments(ClearSegment(f, tops[k]), tops, k + 1)
  }

  /** Clearing never shortens the file and only ever writes zeros, over old bytes or new ones. */
  lemma {:induction false} ClearOnlyZeroes(f: seq<byte>, tops: seq<Element>, k: nat)
    requires Clearable(f, tops, k)
    ensures var r := ClearSegments(f, tops, k);
      |r| >= |f| && forall i :: 0 <= i < |r| ==> r[i] == 0 || (i < |f| && r[i] == f[i])
    decreases |tops| - k
  {
    if k < |tops| {
      if tops[k].id != SegmentId {
        ClearOnlyZeroes(f, tops, k + 1);
      } else {
        ClearOnlyZeroes(ClearSegment(f, tops[k]), tops, k + 1);
      }
    }
  }

  /** When every payload written lies inside the file, clearing a Segment keeps the file's length. */
  lemma ClearSegmentKeepsLength(f: seq<byte>, seg: Element)
    requires SegmentClearable(f, seg)
    requires forall k :: 0 <= k < |ClearedIds| ==> WrittenEnd(InfoChildren(f, seg), ClearedIds[k]) <= |f|
    ensures |ClearSegment(f, seg)| == |f|
  {
    ReachAllIsMax(|f|, InfoChildren(f, seg), ClearedIds);
  }

  /** ClearValue: zeroes the payload of the first element with the ID, if there is one; WriteAt's error is returned. */
  method ClearValue(file: File, elementId: seq<byte>, elements: seq<Element>) returns (err: Option<string>)
    modifies file
    ensures err.Some? <==> Fails(Ebml.Search(elementId, elements))
    ensures file.content == ClearOne(old(file.content), elementId, elements)
  {
    var element := Ebml.SearchEBMLElements(elementId, elements);
    if element.None? {
      return None;
    }
    err := Ebml.ClearValue(file, element.value);
  }

  lemma ClearAllCons(f: seq<byte>, els: seq<Element>, id: seq<byte>, rest: seq<seq<byte>>)
    requires NoneFails(els, [id] + rest)
    ensures !Fails(Ebml.Search(id, els)) && NoneFails(els, rest)
    ensures ClearAll(f, els, [id] + rest) == ClearAll(ClearOne(f, id, els), els, rest)
  {
    var ids := [id] + rest;
    assert ids[0] == id && ids[1..] == rest;
    assert forall x :: x in rest ==> x in ids;
  }

  /** ClearAll over the five Info IDs is the five ClearValue calls in turn. */
  lemma ClearAllFive(f: seq<byte>, els: seq<Element>)
    requires NoneFails(els, ClearedIds)
    ensures var f1 := ClearOne(f, FilenameId, els);
      var f2 := ClearOne(f1, TitleId, els);
      var f3 := ClearOne(f2, DateUtcId, els);
      var f4 := ClearOne(f3, MuxingAppId, els);
      ClearAll(f, els, ClearedIds) == ClearOne(f4, WritingAppId, els)
  {
    var r4 := [WritingAppId];
    var r3 := [MuxingAppId] + r4;
    var r2 := [DateUtcId] + r3;
    var r1 := [TitleId] + r2;
    assert ClearedIds == [FilenameId] + r1;
    ClearAllCons(f, els, FilenameId, r1);
    var f1 := ClearOne(f, FilenameId, els);
    ClearAllCons(f1, els, TitleId, r2);
    var f2 := ClearOne(f1, TitleId, els);
    ClearAllCons(f2, els, DateUtcId, r3);
    var f3 := ClearOne(f2, DateUtcId, els);
    ClearAllCons(f3, els, MuxingAppId, r4);
    var f4 := ClearOne(f3, MuxingAppId, els);
    assert r4 == [WritingAppId] + [];
    ClearAllCons(f4, els, WritingAppId, []);
    var f5 := ClearOne(f4, WritingAppId, els);
    assert ClearAll(f5, els, []) == f5;
  }

  /**
   * The body of the Segment loop: the Segment's Info re-read, then its five
   * values cleared. The source returns the first ClearValue error; none can
   * arise, since every Info child was walked at a non-negative offset.
   */
  method ClearSegmentInfo(file: File, v: Element) returns (err: Option<string>)
    requires SegmentClearable(file.content, v)
    modifies file
    ensures err.None?
    ensures file.content == ClearSegment(old(file.content), v)
  {
    ghost var before := file.content;
    var walked := GetEBMLElements(file.content, v.dataAt, v.End());
    var e := if walked.Ok? then walked.value else [];
    var infoElement := Ebml.SearchEBMLElements(InfoId, e);
    var info := infoElement.value;
    var infoWalked := GetEBMLElements(file.content, info.dataAt, info.End());
    var infoElements := if infoWalked.Ok? then infoWalked.value else [];
    assert infoElements == InfoChildren(before, v);
    ChildrenNeverFail(before, info, ClearedIds);
    ClearAllFive(before, infoElements);
    err := ClearValue(file, FilenameId, infoElements);
    if err.None? {
      err := ClearValue(file, TitleId, infoElements);
    }
    if err.None? {
      err := ClearValue(file, DateUtcId, infoElements);
    }
    if err.None? {
      err := ClearValue(file, MuxingAppId, infoElements);
    }
    if err.None? {
      err := ClearValue(file, WritingAppId, infoElements);
    }
  }

  /**
   * ClearMetadata: walks the top-level elements once, then for each Segment
   * re-reads its children and its Info from the file as already modified,
   * and zeroes Filename, Title, DateUTC, MuxingApp and WritingApp.
   */
  method ClearMetadata(file: File) returns (err: Option<string>)
    requires ParseFile(file.content).Ok? ==> Clearable(file.content, ParseFile(file.content).value, 0)
    modifies file
    ensures err.Some? <==> ParseFile(old(file.content)).Failure?
    ensures err.Some? ==> file.content == old(file.content)
    ensures err.None? ==> file.content == ClearSegments(old(file.content), ParseFile(old(file.content)).value, 0)
  {
    var parsed := GetEBMLElements(file.content, 0, |file.content|);
    if parsed.Failure? {
      return Some(parsed.msg);
    }
    ClearSegmentsInPlace(file, parsed.value);
    return None;
  }

  /** The Segment loop of ClearMetadata over the top-level elements. */
  method ClearSegmentsInPlace(file: File, elements: seq<Element>)
    requires Clearable(file.content, elements, 0)
    modifies file
    ensures file.content == ClearSegments(old(file.content), elements, 0)
  {
    ghost var cleared := ClearSegments(file.content, elements, 0);
    var k := 0;
    while k < |elements|
      invariant 0 <= k <= |elements|
      invariant Clearable(file.content, elements, k)
      invariant ClearSegments(file.content, elements, k) == cleared
    {
      ClearTopElement(file, elements, k);
      k := k + 1;
    }
  }

  /** One pass of the Segment loop: the `k`-th top-level element is cleared if it is a Segment. */
  method ClearTopElement(file: File, elements: seq<Element>, k: nat)
    requires k < |elements| && Clearable(file.content, elements, k)
    modifies file
    ensures Clearable(file.content, elements, k + 1)
    ensures ClearSegments(file.content, elements, k + 1) == ClearSegments(old(file.content), elements, k)
  {
    ClearSegmentsStep(file.content, elements, k);
    if elements[k].id == SegmentId {
      var _ := ClearSegmentInfo(file, elements[k]);
    }
  }

  /** One Segment of the loop, unfolded. */
  lemma ClearSegmentsStep(f: seq<byte>, tops: seq<Element>, k: nat)
    requires k < |tops| && Clearable(f, tops, k)
    ensures tops[k].id != SegmentId ==> Clearable(f, tops, k + 1) && ClearSegments(f, tops, k) == ClearSegments(f, tops, k + 1)
    ensures tops[k].id == SegmentId ==>
      SegmentClearable(f, tops[k]) && Clearable(ClearSegment(f, tops[k]), tops, k + 1)
      && ClearSegments(f, tops, k) == ClearSegments(ClearSegment(f, tops[k]), tops, k + 1)
  {
  }
}
