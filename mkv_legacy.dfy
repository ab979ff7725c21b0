/**
 * The earlier, flat Matroska parser. Its element walk, value getters,
 * track types and clearing are the same code as the Matroska package's and
 * are modelled once, in module Mkv. What differs is the signature check,
 * which always looks at offset 0, and the metadata, whose attachments carry
 * no payload offset.
 */
module MkvLegacy {
  import opened Bytes
  import Ebml
  import Mkv

  type Element = Ebml.Element

  /**
   * IsMkv reads four bytes at offset 0. Its check on the byte count can
   * never fire: a read that succeeds has filled all four bytes.
   */
  function IsMkv(f: seq<byte>): (r: Result<bool>)
    ensures r.Failure? <==> |f| < 4
    ensures r.Ok? ==> (r.value <==> f[..4] == Mkv.Magic)
  {
    match ReadAt(f, 0, 4)
    case Data(magicBytes) => if |magicBytes| != 4 then Failure("unexpected bytes returned") else Ok(magicBytes == Mkv.Magic)
    case _ => Failure(Ebml.ReadFailed)
  }

  /** The flat check agrees with the package's check at offset 0. */
  lemma IsMkvAtStart(f: seq<byte>)
    ensures IsMkv(f).Ok? <==> Mkv.IsMkv(f, 0).Ok?
    ensures IsMkv(f).Ok? ==> IsMkv(f).value == Mkv.IsMkv(f, 0).value
  {
  }

  datatype Attachment = Attachment(name: seq<byte>, mediaType: seq<byte>, description: seq<byte>)
  datatype Metadata = Metadata(info: Mkv.Info, tracks: seq<Mkv.Track>, attachments: seq<Attachment>, tags: seq<Mkv.Tag>)

  function AttachmentOf(f: seq<byte>, a: Element): Attachment
  {
    var els := Mkv.Children(f, a);
    Attachment(Mkv.GetStringValue(f, Mkv.FileNameId, els), Mkv.GetStringValue(f, Mkv.FileMediaTypeId, els),
               Mkv.GetStringValue(f, Mkv.FileDescriptionId, els))
  }

  /** One attachment per AttachedFile child, in order; FileData is not looked at. */
  function AttachmentEntries(f: seq<byte>, cs: seq<Element>): (r: seq<Attachment>)
    ensures var entries := Mkv.OfId(cs, Mkv.AttachedFileId);
      |r| == |entries| && forall i :: 0 <= i < |r| ==> r[i] == AttachmentOf(f, entries[i])
  {
    var entries := Mkv.OfId(cs, Mkv.AttachedFileId);
    seq(|entries|, i requires 0 <= i < |entries| => AttachmentOf(f, entries[i]))
  }

  /** What the flat GetMetadata needs of a Segment: an Info element and track numbers and types that fit eight bytes. */
  predicate SegmentReadable(f: seq<byte>, seg: Element)
  {
    var e := Mkv.Children(f, seg);
    Ebml.Search(Mkv.InfoId, e).Some?
    && (forall t :: t in Mkv.ChildrenOf(f, Mkv.TracksId, e) && t.id == Mkv.TrackEntryId ==> Mkv.TrackReadable(f, t))
  }

  function SegmentMetadata(f: seq<byte>, seg: Element): Metadata
    requires SegmentReadable(f, seg)
  {
    var e := Mkv.Children(f, seg);
    var infoElements := Mkv.Children(f, Ebml.Search(Mkv.InfoId, e).value);
    Metadata(Mkv.InfoOf(f, infoElements),
             Mkv.TrackEntries(f, Mkv.ChildrenOf(f, Mkv.TracksId, e)),
             AttachmentEntries(f, Mkv.ChildrenOf(f, Mkv.AttachmentsId, e)),
             Mkv.TagEntries(f, Mkv.ChildrenOf(f, Mkv.TagsId, e)))
  }

  predicate AllSegmentsReadable(f: seq<byte>, tops: seq<Element>)
  {
    forall s :: s in tops && s.id == Mkv.SegmentId ==> SegmentReadable(f, s)
  }

  /** One Metadata per top-level Segment, in file order. */
  function SegmentsMetadata(f: seq<byte>, tops: seq<Element>): (r: seq<Metadata>)
    requires AllSegmentsReadable(f, tops)
    ensures var segs := Mkv.OfId(tops, Mkv.SegmentId);
      |r| == |segs| && forall i :: 0 <= i < |r| ==> r[i] == SegmentMetadata(f, segs[i])
  {
    var entries := Mkv.OfId(tops, Mkv.SegmentId);
    seq(|entries|, i requires 0 <= i < |entries| => assert entries[i] in entries; SegmentMetadata(f, entries[i]))
  }

  /** GetMetadata of the flat parser: a failed top-level walk is the only error. */
  function GetMetadata(f: seq<byte>): (r: Result<seq<Metadata>>)
    requires Mkv.ParseFile(f).Ok? ==> AllSegmentsReadable(f, Mkv.ParseFile(f).value)
    ensures r.Failure? <==> Mkv.ParseFile(f).Failure?
    ensures r.Ok? ==> |r.value| == |Mkv.OfId(Mkv.ParseFile(f).value, Mkv.SegmentId)|
  {
    match Mkv.ParseFile(f)
    case Failure(m) => Failure("failed to read file stat: " + m)
    case Ok(elements) => Ok(SegmentsMetadata(f, elements))
  }

  /** The package's metadata with the attachment offsets dropped. */
  function Flatten(m: Mkv.Metadata): Metadata
  {
    Metadata(m.info, m.tracks, FlattenAttachments(m.attachments), m.tags)
  }

  function FlattenAttachments(list: seq<Mkv.Attachment>): seq<Attachment>
  {
    seq(|list|, i requires 0 <= i < |list| => Attachment(list[i].name, list[i].mediaType, list[i].description))
  }

  /**
   * Wherever the package's GetMetadata succeeds, the flat one succeeds too
   * and reports the same metadata, less the attachment offsets.
   */
  lemma AgreesWithPackage(f: seq<byte>)
    requires Mkv.ParseFile(f).Ok? ==> Mkv.AllSegmentsReadable(f, Mkv.ParseFile(f).value)
    ensures Mkv.ParseFile(f).Ok? ==> AllSegmentsReadable(f, Mkv.ParseFile(f).value)
    ensures GetMetadata(f).Ok? <==> Mkv.GetMetadata(f).Ok?
    ensures GetMetadata(f).Ok? ==> (|GetMetadata(f).value| == |Mkv.GetMetadata(f).value|
      && forall i :: 0 <= i < |GetMetadata(f).value| ==> GetMetadata(f).value[i] == Flatten(Mkv.GetMetadata(f).value[i]))
  {
    if Mkv.ParseFile(f).Ok? {
      SegmentsAgree(f, Mkv.ParseFile(f).value);
    }
  }

  lemma SegmentsAgree(f: seq<byte>, tops: seq<Element>)
    requires Mkv.AllSegmentsReadable(f, tops)
    ensures AllSegmentsReadable(f, tops)
    ensures var flat := SegmentsMetadata(f, tops);
      var full := Mkv.SegmentsMetadata(f, tops);
      |flat| == |full| && forall i :: 0 <= i < |flat| ==> flat[i] == Flatten(full[i])
  {
    var segs := Mkv.OfId(tops, Mkv.SegmentId);
    forall s | s in tops && s.id == Mkv.SegmentId
      ensures SegmentReadable(f, s)
    {
      SegmentAgrees(f, s);
    }
    forall i | 0 <= i < |segs|
      ensures SegmentMetadata(f, segs[i]) == Flatten(Mkv.SegmentMetadata(f, segs[i]))
    {
      assert segs[i] in segs;
      SegmentAgrees(f, segs[i]);
    }
  }

  lemma SegmentAgrees(f: seq<byte>, seg: Element)
    requires Mkv.SegmentReadable(f, seg)
    ensures SegmentReadable(f, seg)
    ensures SegmentMetadata(f, seg) == Flatten(Mkv.SegmentMetadata(f, seg))
  {
    AttachmentsAgree(f, Mkv.ChildrenOf(f, Mkv.AttachmentsId, Mkv.Children(f, seg)));
  }

  /** The flat attachments are the package's with the offsets dropped. */
  lemma AttachmentsAgree(f: seq<byte>, cs: seq<Element>)
    requires forall a :: a in cs && a.id == Mkv.AttachedFileId ==> Mkv.AttachmentReadable(f, a)
    ensures AttachmentEntries(f, cs) == FlattenAttachments(Mkv.AttachmentEntries(f, cs))
  {
    var flat := AttachmentEntries(f, cs);
    var full := Mkv.AttachmentEntries(f, cs);
    var entries := Mkv.OfId(cs, Mkv.AttachedFileId);
    forall i | 0 <= i < |flat|
      ensures flat[i] == Attachment(full[i].name, full[i].mediaType, full[i].description)
    {
      assert entries[i] in entries;
    }
  }
}
