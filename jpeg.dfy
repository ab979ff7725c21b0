/**
 * The JPEG parser: the start-of-image sniff, the scan for APPn segments
 * (markers FF E0 to FF EF), the classification of each segment, the
 * metadata a Show gathers from them, the thumbnail an Extract slices out
 * of the EXIF segment and the byte filter a Clear writes.
 */
module Jpeg {
  import opened Bytes
  import Tiff
  import JpegExif
  import Icc

  const Eof := "EOF"
  const UnexpectedEof := "unexpected EOF"
  const NegativeCount := "bufio: negative count"
  const ReadFailed := "failed to read file"

  /** IsJPEG: the three bytes at `startOffset` are FF D8 FF; a short read is an error. */
  function IsJPEG(f: seq<byte>, startOffset: int): (r: Result<bool>)
    ensures r.Failure? <==> startOffset < 0 || startOffset + 3 > |f|
    ensures r.Ok? ==> (r.value <==> f[startOffset] == 0xFF && f[startOffset + 1] == 0xD8 && f[startOffset + 2] == 0xFF)
  {
    match ReadAt(f, startOffset, 3)
    case Data(magicBytes) =>
      assert magicBytes[0] == f[startOffset] && magicBytes[1] == f[startOffset + 1] && magicBytes[2] == f[startOffset + 2];
      Ok(magicBytes == [0xFF, 0xD8, 0xFF])
    case _ => Failure(ReadFailed)
  }

  // ---- the segment scan ----

  /**
   * What `io.ReadFull` leaves in a buffer read from position `pos` of a
   * buffered reader over the file: the bytes the file still holds copied
   * over the front of `buf`, and io.EOF when none was left, or
   * io.ErrUnexpectedEOF when only some were.
   */
  datatype Fill = Fill(bytes: seq<byte>, err: Option<string>)

  function ReadFull(f: seq<byte>, pos: nat, buf: seq<byte>): (r: Fill)
    requires pos <= |f|
    ensures |r.bytes| == |buf|
    ensures r.err.None? <==> pos + |buf| <= |f|
    ensures r.err.None? ==> r.bytes == f[pos..pos + |buf|]
    ensures r.err == Some(Eof) <==> |buf| > 0 && pos == |f|
    ensures r.err.Some? ==> r.bytes[0] == (if pos < |f| then f[pos] else buf[0])
    ensures r.err.Some? ==> r.bytes == f[pos..] + buf[|f| - pos..]
  {
    var n := Min(|buf|, |f| - pos);
    Fill(f[pos..pos + n] + buf[n..], if n == |buf| then None else if n == 0 then Some(Eof) else Some(UnexpectedEof))
  }

  /** An APPn segment: where its marker lies counted from `startOffset`, the marker, the length field and the whole `length + 2` bytes. */
  datatype Segment = Segment(startOffset: nat, marker: seq<byte>, length: nat, raw: seq<byte>)

  predicate IsAppMarker(m: seq<byte>)
    requires |m| == 2
  {
    m[0] == 0xFF && 0xE0 <= m[1] <= 0xEF
  }

  const EndOfImage: seq<byte> := [0xFF, 0xD9]

  /**
   * The scan as a linked list of the segments it records, ending where the
   * loop ends: a clean stop, the error it returns, or a slice panic (a
   * length field below 2 or above 0xFFFD makes Go slice a buffer short of
   * four bytes).
   */
  datatype Scan = Found(segment: Segment, rest: Scan) | Stop | Fail(msg: string) | Panic

  /** What one round of the scan loop does; a crash is a Go slice panic. */
  datatype Step = Ended | Failed(msg: string) | Skipped(marker: seq<byte>) | Recorded(segment: Segment) | Crashed

  /**
   * One round of the scan once `i` bytes after `startOffset` are consumed,
   * with `marker` the marker buffer's bytes from the previous round, and
   * the count of bytes consumed after it. A marker pair that is not FF D9
   * and not an APPn marker is stepped over; an APPn marker is followed by
   * its big-endian length, which counts itself, and the segment is the
   * marker, the length field and `length - 2` further bytes. A failed read
   * of the marker that still leaves FF D9 in the buffer ends the scan
   * cleanly. A length below 2 or above 0xFFFD makes Go slice a buffer
   * shorter than four bytes.
   */
  function Round(f: seq<byte>, startOffset: nat, i: nat, marker: seq<byte>): (r: (Step, nat))
    requires startOffset + i <= |f| && |marker| == 2
    ensures r.0.Skipped? ==> r.1 == i + 2 && |r.0.marker| == 2 && startOffset + r.1 <= |f|
    ensures r.0.Recorded? ==>
      (Placed(f, startOffset, r.0.segment) && r.0.segment.startOffset == i
       && r.1 == i + 2 + r.0.segment.length && startOffset + r.1 <= |f|)
  {
    var pos := startOffset + i;
    var read := ReadFull(f, pos, marker);
    var m := read.bytes;
    if read.err == Some(Eof) then (Ended, i + 2)
    else if m == EndOfImage then (Ended, i + 2)
    else if read.err.Some? then (Failed(read.err.value), i + 2)
    else if !IsAppMarker(m) then (Skipped(m), i + 2)
    else AppSegment(f, startOffset, i, m)
  }

  /** The rest of a round once an APPn marker is read at `i`: the length field, then the body. */
  function AppSegment(f: seq<byte>, startOffset: nat, i: nat, m: seq<byte>): (r: (Step, nat))
    requires startOffset + i + 2 <= |f| && m == f[startOffset + i..startOffset + i + 2] && IsAppMarker(m)
    ensures !r.0.Skipped?
    ensures r.0.Recorded? ==>
      (Placed(f, startOffset, r.0.segment) && r.0.segment.startOffset == i
       && r.1 == i + 2 + r.0.segment.length && startOffset + r.1 <= |f|)
  {
    var pos := startOffset + i;
    var lengthRaw := ReadFull(f, pos + 2, [0, 0]);
    if lengthRaw.err.Some? then (Failed(lengthRaw.err.value), i + 2)
    else
      var length := Uint16BE(lengthRaw.bytes);
      if length < 2 || length > 0xFFFD then (Crashed, i + 4)
      else
        var body := ReadFull(f, pos + 4, Zeros(length - 2));
        if body.err.Some? then (Failed(body.err.value), i + 4)
        else
          SlicesJoin(f, pos, pos + 2, pos + 4, pos + length + 2);
          var seg := Segment(i, m, length, m + lengthRaw.bytes + body.bytes);
          AppPlaced(f, startOffset, seg);
          (Recorded(seg), i + 2 + length)
  }

  /** A segment read from its marker, its length field and its body lies where the scan found it. */
  lemma AppPlaced(f: seq<byte>, startOffset: nat, seg: Segment)
    requires var at := startOffset + seg.startOffset;
      at + seg.length + 2 <= |f| && 2 <= seg.length <= 0xFFFD && seg.raw == f[at..at + seg.length + 2]
      && seg.marker == f[at..at + 2] && IsAppMarker(seg.marker) && seg.length == Uint16BE(f[at + 2..at + 4])
    ensures Placed(f, startOffset, seg)
  {
  }

  /** The scan from `i` on: its rounds, until one ends it. */
  function ScanFrom(f: seq<byte>, startOffset: nat, i: nat, marker: seq<byte>): Scan
    requires startOffset + i <= |f| && |marker| == 2
    decreases |f| - (startOffset + i)
  {
    var (step, i') := Round(f, startOffset, i, marker);
    match step
    case Ended => Stop
    case Failed(e) => Fail(e)
    case Crashed => Panic
    case Skipped(m) => ScanFrom(f, startOffset, i', m)
    case Recorded(seg) => Found(seg, ScanFrom(f, startOffset, i', [0, 0]))
  }

  predicate Panics(s: Scan)
  {
    match s
    case Found(_, rest) => Panics(rest)
    case Panic => true
    case _ => false
  }

  /** The segments a scan records, in order. */
  function Segs(s: Scan): seq<Segment>
  {
    match s
    case Found(seg, rest) => [seg] + Segs(rest)
    case _ => []
  }

  /** What FindApplicationSegments returns for a scan: its segments, or only its error. */
  function Collect(s: Scan): Result<seq<Segment>>
    requires !Panics(s)
  {
    match s
    case Found(seg, rest) => (match Collect(rest) case Ok(v) => Ok([seg] + v) case Failure(e) => Failure(e))
    case Fail(e) => Failure(e)
    case _ => Ok([])
  }

  /** The scan FindApplicationSegments runs after discarding `startOffset` bytes. */
  predicate ScanSafe(f: seq<byte>, startOffset: int)
  {
    0 <= startOffset <= |f| ==> !Panics(ScanFrom(f, startOffset, 0, [0, 0]))
  }

  /** FindApplicationSegments' result: the discard fails on a negative or too large offset. */
  function Segments(f: seq<byte>, startOffset: int): Result<seq<Segment>>
    requires ScanSafe(f, startOffset)
  {
    if startOffset < 0 then Failure(NegativeCount)
    else if startOffset > |f| then Failure(Eof)
    else Collect(ScanFrom(f, startOffset, 0, [0, 0]))
  }

  function Then(pre: seq<Segment>, r: Result<seq<Segment>>): Result<seq<Segment>>
  {
    match r
    case Ok(v) => Ok(pre + v)
    case Failure(e) => Failure(e)
  }

  method FindApplicationSegments(f: seq<byte>, startOffset: int) returns (r: Result<seq<Segment>>)
    requires ScanSafe(f, startOffset)
    ensures r == Segments(f, startOffset)
  {
    if startOffset < 0 {
      return Failure(NegativeCount);
    }
    if startOffset > |f| {
      return Failure(Eof);
    }
    var result: seq<Segment> := [];
    var marker: seq<byte> := [0, 0];
    var i: nat := 0;
    ThenNil(Collect(ScanFrom(f, startOffset, i, marker)));
    while true
      invariant startOffset + i <= |f| && |marker| == 2 && !Panics(ScanFrom(f, startOffset, i, marker))
      invariant Segments(f, startOffset) == Then(result, Collect(ScanFrom(f, startOffset, i, marker)))
      decreases |f| - (startOffset + i)
    {
      ghost var sc := ScanFrom(f, startOffset, i, marker);
      assert !Round(f, startOffset, i, marker).0.Crashed?;
      var step, i' := ReadSegment(f, startOffset, i, marker);
      match step {
        case Crashed =>
          assert false;
        case Ended =>
          assert result + [] == result;
          return Ok(result);
        case Failed(e) =>
          return Failure(e);
        case Skipped(m) =>
          i, marker := i', m;
        case Recorded(seg) =>
          ThenFound(result, seg, ScanFrom(f, startOffset, i', [0, 0]));
          result := result + [seg];
          i, marker := i', [0, 0];
      }
    }
  }

  /** One round of the scan loop: the marker pair, and for an APPn marker its length and body. */
  method ReadSegment(f: seq<byte>, startOffset: nat, i: nat, marker: seq<byte>) returns (step: Step, i': nat)
    requires startOffset + i <= |f| && |marker| == 2 && !Round(f, startOffset, i, marker).0.Crashed?
    ensures (step, i') == Round(f, startOffset, i, marker)
  {
    var read := ReadFull(f, startOffset + i, marker);
    i' := i + 2;
    if read.err == Some(Eof) {
      return Ended, i';
    }
    var m := read.bytes;
    if m[0] == 0xFF && m[1] == 0xD9 {
      return Ended, i';
    }
    if read.err.Some? {
      return Failed(read.err.value), i';
    }
    if !(m[0] == 0xFF && m[1] >= 0xE0 && m[1] <= 0xEF) {
      return Skipped(m), i';
    }
    var lengthRaw := ReadFull(f, startOffset + i', [0, 0]);
    if lengthRaw.err.Some? {
      return Failed(lengthRaw.err.value), i';
    }
    i' := i' + 2;
    var length := Uint16BE(lengthRaw.bytes);
    var body := ReadFull(f, startOffset + i', Zeros(length - 2));
    if body.err.Some? {
      return Failed(body.err.value), i';
    }
    i' := i' + length - 2;
    step := Recorded(Segment(i, m, length, m + lengthRaw.bytes + body.bytes));
  }

  lemma SlicesJoin(f: seq<byte>, a: nat, b: nat, c: nat, d: nat)
    requires a <= b <= c <= d <= |f|
    ensures f[a..b] + f[b..c] + f[c..d] == f[a..d]
  {
  }

  lemma ThenNil(r: Result<seq<Segment>>)
    ensures Then([], r) == r
  {
    match r
    case Ok(v) => assert [] + v == v;
    case Failure(e) =>
  }

  lemma ThenFound(pre: seq<Segment>, seg: Segment, rest: Scan)
    requires !Panics(rest)
    ensures Then(pre, Collect(Found(seg, rest))) == Then(pre + [seg], Collect(rest))
  {
    match Collect(rest)
    case Ok(v) => assert pre + ([seg] + v) == pre + [seg] + v;
    case Failure(e) =>
  }

  /**
   * Segment `seg` of a scan from `startOffset` is the `length + 2` bytes of
   * the file at its offset: an APPn marker, then the big-endian length
   * field, then the body.
   */
  predicate Placed(f: seq<byte>, startOffset: nat, seg: Segment)
  {
    var at := startOffset + seg.startOffset;
    at + seg.length + 2 <= |f| && 2 <= seg.length <= 0xFFFD
    && seg.raw == f[at..at + seg.length + 2]
    && seg.marker == f[at..at + 2] && IsAppMarker(seg.marker)
    && seg.length == Uint16BE(f[at + 2..at + 4])
  }

  /** The scan from `i`: one round, then the scan from where it leaves off. */
  lemma ScanUnfold(f: seq<byte>, startOffset: nat, i: nat, marker: seq<byte>) returns (step: Step, i': nat)
    requires startOffset + i <= |f| && |marker| == 2
    ensures (step, i') == Round(f, startOffset, i, marker)
    ensures step.Skipped? ==> ScanFrom(f, startOffset, i, marker) == ScanFrom(f, startOffset, i', step.marker)
    ensures step.Recorded? ==> ScanFrom(f, startOffset, i, marker) == Found(step.segment, ScanFrom(f, startOffset, i', [0, 0]))
    ensures !step.Skipped? && !step.Recorded? ==> Segs(ScanFrom(f, startOffset, i, marker)) == []
  {
    var r := Round(f, startOffset, i, marker);
    step, i' := r.0, r.1;
  }

  /**
   * The segments of `sc` lie in the file in order from `i` on: each is
   * where its bytes say, and the next one starts after its end.
   */
  predicate Laid(f: seq<byte>, startOffset: nat, sc: Scan, i: nat)
  {
    match sc
    case Found(seg, rest) =>
      Placed(f, startOffset, seg) && seg.startOffset >= i && Laid(f, startOffset, rest, seg.startOffset + seg.length + 2)
    case _ => true
  }

  /** A layout that holds from `i` holds from any earlier position. */
  lemma LaidEarlier(f: seq<byte>, startOffset: nat, sc: Scan, i: nat, j: nat)
    requires Laid(f, startOffset, sc, i) && j <= i
    ensures Laid(f, startOffset, sc, j)
  {
  }

  /** The scan from `i` lays its segments out in order from `i` on. */
  lemma {:induction false} ScanLaid(f: seq<byte>, startOffset: nat, i: nat, marker: seq<byte>)
    requires startOffset + i <= |f| && |marker| == 2
    ensures Laid(f, startOffset, ScanFrom(f, startOffset, i, marker), i)
    decreases |f| - (startOffset + i)
  {
    var step, i' := ScanUnfold(f, startOffset, i, marker);
    if step.Skipped? {
      ScanLaid(f, startOffset, i', step.marker);
      LaidEarlier(f, startOffset, ScanFrom(f, startOffset, i', step.marker), i', i);
    } else if step.Recorded? {
      ScanLaid(f, startOffset, i', [0, 0]);
    }
  }

  /** Each segment of a laid-out scan is where its bytes say, at `i` or later. */
  lemma {:induction false} LaidPlaced(f: seq<byte>, startOffset: nat, sc: Scan, i: nat, k: nat)
    requires Laid(f, startOffset, sc, i) && k < |Segs(sc)|
    ensures Placed(f, startOffset, Segs(sc)[k]) && Segs(sc)[k].startOffset >= i
  {
    var seg, rest := sc.segment, sc.rest;
    SegsFound(seg, rest, k);
    if k > 0 {
      LaidPlaced(f, startOffset, rest, seg.startOffset + seg.length + 2, k - 1);
    }
  }

  /** In a laid-out scan each segment starts after the end of the one before. */
  lemma {:induction false} LaidOrdered(f: seq<byte>, startOffset: nat, sc: Scan, i: nat, k: nat)
    requires Laid(f, startOffset, sc, i) && 0 < k < |Segs(sc)|
    ensures Segs(sc)[k - 1].startOffset + Segs(sc)[k - 1].length + 2 <= Segs(sc)[k].startOffset
  {
    var seg, rest := sc.segment, sc.rest;
    var j := seg.startOffset + seg.length + 2;
    SegsFound(seg, rest, k);
    SegsFound(seg, rest, k - 1);
    if k > 1 {
      LaidOrdered(f, startOffset, rest, j, k - 1);
    } else {
      LaidPlaced(f, startOffset, rest, j, 0);
    }
  }

  /** Segment `k` of a scan that records `seg` first. */
  lemma SegsFound(seg: Segment, rest: Scan, k: nat)
    requires k < |Segs(Found(seg, rest))|
    ensures k == 0 ==> Segs(Found(seg, rest))[k] == seg
    ensures k > 0 ==> k - 1 < |Segs(rest)| && Segs(Found(seg, rest))[k] == Segs(rest)[k - 1]
  {
  }

  /** A scan that returns its segments returns exactly the segments it records. */
  lemma {:induction false} CollectIsSegs(s: Scan)
    requires !Panics(s) && Collect(s).Ok?
    ensures Collect(s).value == Segs(s)
  {
    match s
    case Found(seg, rest) => CollectIsSegs(rest);
    case _ =>
  }

  /**
   * Each segment FindApplicationSegments returns is `length + 2` bytes of
   * the file at `startOffset` plus its offset, an APPn marker followed by
   * its big-endian length field, and the next one begins after its end.
   */
  lemma SegmentsPlaced(f: seq<byte>, startOffset: int, k: nat)
    requires ScanSafe(f, startOffset) && Segments(f, startOffset).Ok? && k < |Segments(f, startOffset).value|
    ensures startOffset >= 0
    ensures Placed(f, startOffset, Segments(f, startOffset).value[k])
    ensures k > 0 ==> (var segs := Segments(f, startOffset).value;
      segs[k - 1].startOffset + segs[k - 1].length + 2 <= segs[k].startOffset)
  {
    var sc := ScanFrom(f, startOffset, 0, [0, 0]);
    CollectIsSegs(sc);
    ScanLaid(f, startOffset, 0, [0, 0]);
    LaidPlaced(f, startOffset, sc, 0, k);
    if k > 0 {
      LaidOrdered(f, startOffset, sc, 0, k);
    }
  }

  // ---- classification ----

  /** "JFIF" */
  const Jfif: seq<byte> := [0x4A, 0x46, 0x49, 0x46]
  /** "JFXX" */
  const Jfxx: seq<byte> := [0x4A, 0x46, 0x58, 0x58]
  /** "Exif" and two NUL bytes */
  const ExifHeader: seq<byte> := [0x45, 0x78, 0x69, 0x66, 0x00, 0x00]
  /** "ICC_PROFILE" */
  const IccProfileId: seq<byte> := [0x49, 0x43, 0x43, 0x5F, 0x50, 0x52, 0x4F, 0x46, 0x49, 0x4C, 0x45]
  /** "http://ns.adobe.com/xap/1.0/" */
  const XmpNamespace: seq<byte> := [0x68, 0x74, 0x74, 0x70, 0x3A, 0x2F, 0x2F, 0x6E, 0x73, 0x2E, 0x61, 0x64, 0x6F, 0x62, 0x65, 0x2E, 0x63, 0x6F, 0x6D, 0x2F, 0x78, 0x61, 0x70, 0x2F, 0x31, 0x2E, 0x30, 0x2F]
  /** "http://ns.adobe.com/xmp/extension/" */
  const ExtendedXmpNamespace: seq<byte> := [0x68, 0x74, 0x74, 0x70, 0x3A, 0x2F, 0x2F, 0x6E, 0x73, 0x2E, 0x61, 0x64, 0x6F, 0x62, 0x65, 0x2E, 0x63, 0x6F, 0x6D, 0x2F, 0x78, 0x6D, 0x70, 0x2F, 0x65, 0x78, 0x74, 0x65, 0x6E, 0x73, 0x69, 0x6F, 0x6E, 0x2F]

  /** A segment as the scan builds it: Raw is the marker, then `length` more bytes. */
  predicate WellFormed(s: Segment)
  {
    |s.marker| == 2 && |s.raw| == s.length + 2 && s.raw[..2] == s.marker && 2 <= s.length <= 0xFFFD
  }

  predicate IsJFIF(s: Segment)
    requires WellFormed(s)
  {
    s.marker == [0xFF, 0xE0] && s.length >= 9 && s.raw[4..8] == Jfif
  }

  predicate IsJFXX(s: Segment)
    requires WellFormed(s)
  {
    s.marker == [0xFF, 0xE0] && s.length >= 9 && s.raw[4..8] == Jfxx
  }

  predicate IsEXIF(s: Segment)
    requires WellFormed(s)
  {
    s.marker == [0xFF, 0xE1] && s.length >= 11 && s.raw[4..10] == ExifHeader
  }

  /** Go slices Raw[4:15] without a length check, so an FF E2 segment must be 15 bytes long. */
  predicate IsICCProfile(s: Segment)
    requires WellFormed(s) && (s.marker == [0xFF, 0xE2] ==> |s.raw| >= 15)
  {
    s.marker == [0xFF, 0xE2] && s.raw[4..15] == IccProfileId
  }

  predicate IsXMP(s: Segment)
    requires WellFormed(s) && (s.marker == [0xFF, 0xE1] ==> |s.raw| >= 32)
  {
    s.marker == [0xFF, 0xE1] && s.raw[4..32] == XmpNamespace
  }

  predicate IsExtendedXMP(s: Segment)
    requires WellFormed(s) && (s.marker == [0xFF, 0xE1] ==> |s.raw| >= 38)
  {
    s.marker == [0xFF, 0xE1] && s.raw[4..38] == ExtendedXmpNamespace
  }

  /** The if-else chain of ParseFile reaches each test only with Raw long enough for its slice. */
  predicate Classifiable(s: Segment)
  {
    WellFormed(s)
    && (s.marker == [0xFF, 0xE2] ==> |s.raw| >= 15)
    && (s.marker == [0xFF, 0xE1] && !IsEXIF(s) ==>
          |s.raw| >= 32 && (s.raw[4..32] != XmpNamespace ==> |s.raw| >= 38))
  }

  datatype Kind = JfifSegment | JfxxSegment | ExifSegment | IccSegment | XmpSegment | ExtendedXmpSegment | Unsupported

  /** The first test of the chain that holds names the segment's kind. */
  function KindOf(s: Segment): Kind
    requires Classifiable(s)
  {
    if IsJFIF(s) then JfifSegment
    else if IsJFXX(s) then JfxxSegment
    else if IsEXIF(s) then ExifSegment
    else if IsICCProfile(s) then IccSegment
    else if IsXMP(s) then XmpSegment
    else if IsExtendedXMP(s) then ExtendedXmpSegment
    else Unsupported
  }

  /**
   * The kind is decided by the marker and the identifier after the length
   * field: FF E0 with "JFIF" or "JFXX", FF E1 with "Exif\0\0" or one of
   * the two XMP namespaces, FF E2 with "ICC_PROFILE"; every other APPn
   * segment is unsupported.
   */
  lemma KindByMarker(s: Segment)
    requires Classifiable(s)
    ensures KindOf(s) in {JfifSegment, JfxxSegment} ==> s.marker == [0xFF, 0xE0] && s.length >= 9
    ensures KindOf(s) in {ExifSegment, XmpSegment, ExtendedXmpSegment} ==> s.marker == [0xFF, 0xE1]
    ensures KindOf(s) == IccSegment <==> s.marker == [0xFF, 0xE2] && s.raw[4..15] == IccProfileId
    ensures KindOf(s) == ExifSegment <==> s.marker == [0xFF, 0xE1] && s.length >= 11 && s.raw[4..10] == ExifHeader
    ensures s.marker != [0xFF, 0xE0] && s.marker != [0xFF, 0xE1] && s.marker != [0xFF, 0xE2] ==> KindOf(s) == Unsupported
  {
    if s.marker == [0xFF, 0xE0] {
      assert s.marker != [0xFF, 0xE1] && s.marker != [0xFF, 0xE2];
    } else if s.marker == [0xFF, 0xE1] {
      assert s.marker != [0xFF, 0xE2];
    }
  }

  /** The scan's segments are well formed. */
  lemma PlacedWellFormed(f: seq<byte>, startOffset: nat, s: Segment)
    requires Placed(f, startOffset, s)
    ensures WellFormed(s)
  {
    var at := startOffset + s.startOffset;
    assert s.raw[..2] == f[at..at + 2];
  }

  // ---- ParseFile ----

  /** An EXIF IFD as ParseFile keeps it: the tag map ParseExif returns. */
  datatype Ifd = Ifd(tags: Tiff.Tags)

  datatype Metadata = Metadata(
    jfifThumbnail: bool,
    jfxxThumbnail: bool,
    ifds: seq<Ifd>,
    iccProfile: Icc.Profile,
    unsupportedMarkers: seq<Segment>,
    xmp: seq<seq<byte>>)

  const NoProfile := Icc.Profile([], [], [], [], [], [], [])
  const NoMetadata := Metadata(false, false, [], NoProfile, [], [])

  /**
   * The getter the chain calls on a segment of its kind runs without a
   * panic: Raw[16] and Raw[17] for JFIF, Raw[16] and Raw[18:] and the
   * profile read for ICC, Raw[33:] and Raw[79:] for the two XMP kinds,
   * and an EXIF chain that ends within `fuel` directories.
   */
  predicate Absorbable(s: Segment, fuel: nat)
  {
    Classifiable(s)
    && match KindOf(s)
      case JfifSegment => |s.raw| >= 17 && (s.raw[16] > 0 ==> |s.raw| >= 18)
      case IccSegment => |s.raw| >= 17 && (s.raw[16] == 1 ==> |s.raw| >= 18 && Icc.Parses(s.raw[18..]))
      case ExifSegment => JpegExif.ExifOf(s.raw[10..], fuel).Some?
      case XmpSegment => |s.raw| >= 33
      case ExtendedXmpSegment => |s.raw| >= 79
      case _ => true
  }

  /** GetIFDs: the tags of the TIFF data after "Exif\0\0". */
  function IfdsOf(s: Segment, fuel: nat): seq<Ifd>
    requires |s.raw| >= 10 && JpegExif.ExifOf(s.raw[10..], fuel).Some?
  {
    [Ifd(JpegExif.ExifOf(s.raw[10..], fuel).value)]
  }

  /** GetICCProfile: the profile after the sequence number byte, or nothing unless that byte is 1. */
  function ProfileIn(s: Segment): Icc.Profile
    requires |s.raw| >= 17 && (s.raw[16] == 1 ==> |s.raw| >= 18 && Icc.Parses(s.raw[18..]))
  {
    if s.raw[16] != 1 then NoProfile else Icc.ProfileOf(s.raw[18..])
  }

  /** One round of ParseFile's loop. */
  function Absorb(md: Metadata, s: Segment, fuel: nat): Metadata
    requires Absorbable(s, fuel)
  {
    match KindOf(s)
    case JfifSegment => md.(jfifThumbnail := s.raw[16] > 0 && s.raw[17] > 0)
    case JfxxSegment => md.(jfxxThumbnail := true)
    case ExifSegment => md.(ifds := IfdsOf(s, fuel))
    case IccSegment => md.(iccProfile := ProfileIn(s))
    case XmpSegment => md.(xmp := md.xmp + [s.raw[33..]])
    case ExtendedXmpSegment => md.(xmp := md.xmp + [s.raw[79..]])
    case Unsupported => md.(unsupportedMarkers := md.unsupportedMarkers + [s])
  }

  /**
   * A JFIF segment whose byte 16 is zero is read no further: the test
   * `Raw[16] > 0 && Raw[17] > 0` stops at its first half, so a 17-byte
   * Raw does not panic, and no thumbnail is recorded.
   */
  lemma JfifStopsAtZero(md: Metadata, s: Segment, fuel: nat)
    requires Classifiable(s) && KindOf(s) == JfifSegment && |s.raw| == 17 && s.raw[16] == 0
    ensures Absorbable(s, fuel) && !Absorb(md, s, fuel).jfifThumbnail
  {
  }

  predicate AllAbsorbable(segs: seq<Segment>, fuel: nat)
  {
    forall k :: 0 <= k < |segs| ==> Absorbable(segs[k], fuel)
  }

  /** The metadata after the segments from `i` on, starting from `md`. */
  function MetadataFrom(md: Metadata, segs: seq<Segment>, i: nat, fuel: nat): Metadata
    requires i <= |segs| && AllAbsorbable(segs, fuel)
    decreases |segs| - i
  {
    if i == |segs| then md else MetadataFrom(Absorb(md, segs[i], fuel), segs, i + 1, fuel)
  }

  /** ParseFile runs without a panic, with every EXIF chain ending within `fuel` directories. */
  predicate ParseSafe(f: seq<byte>, startOffset: int, fuel: nat)
  {
    ScanSafe(f, startOffset) && (Segments(f, startOffset).Ok? ==> AllAbsorbable(Segments(f, startOffset).value, fuel))
  }

  function FileMetadata(f: seq<byte>, startOffset: int, fuel: nat): Result<Metadata>
    requires ParseSafe(f, startOffset, fuel)
  {
    match Segments(f, startOffset)
    case Failure(e) => Failure(e)
    case Ok(segs) => Ok(MetadataFrom(NoMetadata, segs, 0, fuel))
  }

  /** ParseFile: the scan's error, or the metadata of its segments in order. */
  method ParseFile(f: seq<byte>, startOffset: int, ghost fuel: nat) returns (r: Result<Metadata>)
    requires ParseSafe(f, startOffset, fuel)
    ensures r == FileMetadata(f, startOffset, fuel)
  {
    var markers := FindApplicationSegments(f, startOffset);
    if markers.Failure? {
      return Failure(markers.msg);
    }
    var segs := markers.value;
    var result := NoMetadata;
    for k := 0 to |segs|
      invariant MetadataFrom(result, segs, k, fuel) == MetadataFrom(NoMetadata, segs, 0, fuel)
    {
      result := AbsorbSegment(result, segs[k], fuel);
    }
    return Ok(result);
  }

  /** The body of ParseFile's loop: the classification chain and the getter it picks. */
  method AbsorbSegment(md: Metadata, m: Segment, ghost fuel: nat) returns (md': Metadata)
    requires Absorbable(m, fuel)
    ensures md' == Absorb(md, m, fuel)
  {
    if IsJFIF(m) {
      md' := md.(jfifThumbnail := m.raw[16] > 0 && m.raw[17] > 0);
    } else if IsJFXX(m) {
      md' := md.(jfxxThumbnail := true);
    } else if IsEXIF(m) {
      var tags := JpegExif.ParseExif(m.raw[10..], fuel);
      md' := md.(ifds := [Ifd(tags)]);
    } else if IsICCProfile(m) {
      var profile := NoProfile;
      if m.raw[16] == 1 {
        profile := Icc.ParseICC(m.raw[18..]);
      }
      md' := md.(iccProfile := profile);
    } else if IsXMP(m) {
      md' := md.(xmp := md.xmp + [m.raw[33..]]);
    } else if IsExtendedXMP(m) {
      md' := md.(xmp := md.xmp + [m.raw[79..]]);
    } else {
      md' := md.(unsupportedMarkers := md.unsupportedMarkers + [m]);
    }
  }

  /** The XMP text a segment contributes: the body after the namespace, for the two XMP kinds only. */
  function XmpBody(s: Segment, fuel: nat): seq<seq<byte>>
    requires Absorbable(s, fuel)
  {
    match KindOf(s)
    case XmpSegment => [s.raw[33..]]
    case ExtendedXmpSegment => [s.raw[79..]]
    case _ => []
  }

  /** The XMP texts of the segments from `i` on, in order. */
  function XmpBodies(segs: seq<Segment>, i: nat, fuel: nat): seq<seq<byte>>
    requires i <= |segs| && AllAbsorbable(segs, fuel)
    decreases |segs| - i
  {
    if i == |segs| then [] else XmpBody(segs[i], fuel) + XmpBodies(segs, i + 1, fuel)
  }

  lemma AbsorbXmp(md: Metadata, s: Segment, fuel: nat, md1: Metadata)
    requires Absorbable(s, fuel) && md1 == Absorb(md, s, fuel)
    ensures md1.xmp == md.xmp + XmpBody(s, fuel)
  {
    if KindOf(s) !in {XmpSegment, ExtendedXmpSegment} {
      assert md.xmp + [] == md.xmp;
    }
  }

  /** XMP texts accumulate in segment order; no other kind touches them. */
  lemma {:induction false} XmpInOrder(md: Metadata, segs: seq<Segment>, i: nat, fuel: nat)
    requires i <= |segs| && AllAbsorbable(segs, fuel)
    ensures MetadataFrom(md, segs, i, fuel).xmp == md.xmp + XmpBodies(segs, i, fuel)
    decreases |segs| - i
  {
    if i < |segs| {
      var md1 := Absorb(md, segs[i], fuel);
      var here, rest := XmpBody(segs[i], fuel), XmpBodies(segs, i + 1, fuel);
      AbsorbXmp(md, segs[i], fuel, md1);
      XmpInOrder(md1, segs, i + 1, fuel);
      AppendAssoc(md.xmp, here, rest);
    } else {
      assert md.xmp + [] == md.xmp;
    }
  }

  /** A JFXX thumbnail is reported exactly when some segment is a JFXX segment. */
  lemma {:induction false} JfxxIffPresent(md: Metadata, segs: seq<Segment>, i: nat, fuel: nat)
    requires i <= |segs| && AllAbsorbable(segs, fuel)
    ensures MetadataFrom(md, segs, i, fuel).jfxxThumbnail <==>
      md.jfxxThumbnail || exists k :: i <= k < |segs| && KindOf(segs[k]) == JfxxSegment
    decreases |segs| - i
  {
    if i < |segs| {
      JfxxIffPresent(Absorb(md, segs[i], fuel), segs, i + 1, fuel);
    }
  }

  /** Segments of other kinds leave the IFDs alone. */
  lemma {:induction false} IfdsUntouched(md: Metadata, segs: seq<Segment>, i: nat, fuel: nat)
    requires i <= |segs| && AllAbsorbable(segs, fuel)
    requires forall k :: i <= k < |segs| ==> KindOf(segs[k]) != ExifSegment
    ensures MetadataFrom(md, segs, i, fuel).ifds == md.ifds
    decreases |segs| - i
  {
    if i < |segs| {
      IfdsUntouched(Absorb(md, segs[i], fuel), segs, i + 1, fuel);
    }
  }

  /** The last EXIF segment decides the IFDs: a later one overwrites an earlier one. */
  lemma {:induction false} LastExifWins(md: Metadata, segs: seq<Segment>, i: nat, k: nat, fuel: nat)
    requires i <= k < |segs| && AllAbsorbable(segs, fuel) && KindOf(segs[k]) == ExifSegment
    requires forall j :: k < j < |segs| ==> KindOf(segs[j]) != ExifSegment
    ensures MetadataFrom(md, segs, i, fuel).ifds == IfdsOf(segs[k], fuel)
    decreases k - i
  {
    var md1 := Absorb(md, segs[i], fuel);
    if i < k {
      LastExifWins(md1, segs, i + 1, k, fuel);
    } else {
      IfdsUntouched(md1, segs, i + 1, fuel);
    }
  }

  /** Segments of other kinds leave the ICC profile alone. */
  lemma {:induction false} ProfileUntouched(md: Metadata, segs: seq<Segment>, i: nat, fuel: nat)
    requires i <= |segs| && AllAbsorbable(segs, fuel)
    requires forall k :: i <= k < |segs| ==> KindOf(segs[k]) != IccSegment
    ensures MetadataFrom(md, segs, i, fuel).iccProfile == md.iccProfile
    decreases |segs| - i
  {
    if i < |segs| {
      ProfileUntouched(Absorb(md, segs[i], fuel), segs, i + 1, fuel);
    }
  }

  /** The last ICC segment decides the profile. */
  lemma {:induction false} LastProfileWins(md: Metadata, segs: seq<Segment>, i: nat, k: nat, fuel: nat)
    requires i <= k < |segs| && AllAbsorbable(segs, fuel) && KindOf(segs[k]) == IccSegment
    requires forall j :: k < j < |segs| ==> KindOf(segs[j]) != IccSegment
    ensures MetadataFrom(md, segs, i, fuel).iccProfile == ProfileIn(segs[k])
    decreases k - i
  {
    var md1 := Absorb(md, segs[i], fuel);
    if i < k {
      LastProfileWins(md1, segs, i + 1, k, fuel);
    } else {
      ProfileUntouched(md1, segs, i + 1, fuel);
    }
  }

  /** Every segment the scan returns is well formed. */
  lemma SegmentsWellFormed(f: seq<byte>, startOffset: int)
    requires ScanSafe(f, startOffset) && Segments(f, startOffset).Ok?
    ensures AllWellFormed(Segments(f, startOffset).value)
  {
    var segs := Segments(f, startOffset).value;
    forall k | 0 <= k < |segs|
      ensures WellFormed(segs[k])
    {
      SegmentsPlaced(f, startOffset, k);
      PlacedWellFormed(f, startOffset, segs[k]);
    }
  }

  // ---- ExtractThumbnail ----

  const Compression: nat := 0x0103
  const ThumbnailOffset: nat := 0x0201
  const ThumbnailLength: nat := 0x0202
  /** "6": the Compression value of a JPEG-compressed thumbnail. */
  const JpegCompressed: seq<byte> := [0x36]
  const BadOffset := "failed to parse thumbnail offset"
  const BadSize := "failed to parse thumbnail size"

  /** A Go map read: the value, or "" for a missing key. */
  function TagValue(tags: Tiff.Tags, t: nat): seq<byte>
  {
    if t in tags then tags[t] else []
  }

  predicate AllWellFormed(segs: seq<Segment>)
  {
    forall k :: 0 <= k < |segs| ==> WellFormed(segs[k])
  }

  /** The index of the first EXIF segment from `i` on. */
  function FirstExif(segs: seq<Segment>, i: nat): (r: Option<nat>)
    requires i <= |segs| && AllWellFormed(segs)
    ensures r.Some? ==> i <= r.value < |segs| && IsEXIF(segs[r.value])
    decreases |segs| - i
  {
    if i == |segs| then None else if IsEXIF(segs[i]) then Some(i) else FirstExif(segs, i + 1)
  }

  /** No EXIF segment comes before the one FirstExif names, and None means there is none. */
  lemma {:induction false} FirstExifIsFirst(segs: seq<Segment>, i: nat)
    requires i <= |segs| && AllWellFormed(segs)
    ensures FirstExif(segs, i).Some? ==> forall j :: i <= j < FirstExif(segs, i).value ==> !IsEXIF(segs[j])
    ensures FirstExif(segs, i).None? ==> forall j :: i <= j < |segs| ==> !IsEXIF(segs[j])
    decreases |segs| - i
  {
    if i < |segs| && !IsEXIF(segs[i]) {
      FirstExifIsFirst(segs, i + 1);
    }
  }

  /** The slice Raw[offset+10 : offset+10+size] an IFD with both thumbnail tags asks for is inside Raw. */
  predicate SliceFits(raw: seq<byte>, tags: Tiff.Tags)
  {
    TagValue(tags, Compression) == JpegCompressed && ThumbnailOffset in tags && ThumbnailLength in tags
    && Atoi(tags[ThumbnailOffset]).Some? && Atoi(tags[ThumbnailLength]).Some? ==>
      var start := Atoi(tags[ThumbnailOffset]).value + 10;
      0 <= start <= start + Atoi(tags[ThumbnailLength]).value <= |raw|
  }

  /** What the IFD loop makes of one IFD: None to go on with the next one, else the slice or the parse error. */
  function ThumbnailIn(raw: seq<byte>, tags: Tiff.Tags): Option<Result<seq<byte>>>
    requires SliceFits(raw, tags)
  {
    if TagValue(tags, Compression) != JpegCompressed || ThumbnailOffset !in tags then None
    else match Atoi(tags[ThumbnailOffset])
      case None => Some(Failure(BadOffset))
      case Some(offset) =>
        if ThumbnailLength !in tags then None
        else match Atoi(tags[ThumbnailLength])
          case None => Some(Failure(BadSize))
          case Some(size) => Some(Ok(raw[offset + 10..offset + 10 + size]))
  }

  /** The IFD loop from IFD `i` on. */
  function ThumbnailFrom(raw: seq<byte>, ifds: seq<Ifd>, i: nat): Result<Option<seq<byte>>>
    requires i <= |ifds| && forall j :: 0 <= j < |ifds| ==> SliceFits(raw, ifds[j].tags)
    decreases |ifds| - i
  {
    if i == |ifds| then Ok(None)
    else match ThumbnailIn(raw, ifds[i].tags)
      case None => ThumbnailFrom(raw, ifds, i + 1)
      case Some(Ok(t)) => Ok(Some(t))
      case Some(Failure(e)) => Failure(e)
  }

  /** The thumbnail read of ExtractThumbnail runs without a panic: the first EXIF segment's chain ends within `fuel`, and its slice fits. */
  predicate ThumbnailSafe(segs: seq<Segment>, fuel: nat)
  {
    AllWellFormed(segs)
    && (FirstExif(segs, 0).Some? ==>
          var s := segs[FirstExif(segs, 0).value];
          JpegExif.ExifOf(s.raw[10..], fuel).Some? && SliceFits(s.raw, JpegExif.ExifOf(s.raw[10..], fuel).value))
  }

  predicate ExtractSafe(f: seq<byte>, startOffset: int, fuel: nat)
  {
    ScanSafe(f, startOffset) && (Segments(f, startOffset).Ok? ==> ThumbnailSafe(Segments(f, startOffset).value, fuel))
  }

  /** The thumbnail of a list of segments: nothing without an EXIF segment, else what the first one's IFDs give. */
  function ThumbnailOf(segs: seq<Segment>, fuel: nat): Result<Option<seq<byte>>>
    requires ThumbnailSafe(segs, fuel)
  {
    match FirstExif(segs, 0)
    case None => Ok(None)
    case Some(k) => ThumbnailFrom(segs[k].raw, IfdsOf(segs[k], fuel), 0)
  }

  /** ExtractThumbnail's result. */
  function Thumbnail(f: seq<byte>, startOffset: int, fuel: nat): Result<Option<seq<byte>>>
    requires ExtractSafe(f, startOffset, fuel)
  {
    match Segments(f, startOffset)
    case Failure(e) => Failure(e)
    case Ok(segs) => ThumbnailOf(segs, fuel)
  }

  method ExtractThumbnail(f: seq<byte>, startOffset: int, ghost fuel: nat) returns (r: Result<Option<seq<byte>>>)
    requires ExtractSafe(f, startOffset, fuel)
    ensures r == Thumbnail(f, startOffset, fuel)
  {
    var markers := FindApplicationSegments(f, startOffset);
    if markers.Failure? {
      return Failure(markers.msg);
    }
    var segs := markers.value;
    var k := 0;
    while k < |segs| && !IsEXIF(segs[k])
      invariant k <= |segs| && FirstExif(segs, k) == FirstExif(segs, 0)
    {
      k := k + 1;
    }
    if k == |segs| {
      return Ok(None);
    }
    var exifSegment := segs[k];
    var tags := JpegExif.ParseExif(exifSegment.raw[10..], fuel);
    var ifds := [Ifd(tags)];
    for i := 0 to |ifds|
      invariant ThumbnailFrom(exifSegment.raw, ifds, i) == ThumbnailOf(segs, fuel)
    {
      var found := ThumbnailIn(exifSegment.raw, ifds[i].tags);
      if found.Some? {
        match found.value {
          case Ok(t) => return Ok(Some(t));
          case Failure(e) => return Failure(e);
        }
      }
    }
    return Ok(None);
  }

  /**
   * A thumbnail comes from the first EXIF segment, from an IFD whose
   * Compression tag 0x0103 is "6": it is the bytes of the segment from
   * the decimal offset tag 0x0201 plus 10 (the marker, the length field
   * and "Exif\0\0" before the TIFF data), as many as the decimal tag
   * 0x0202 says.
   */
  lemma ThumbnailInSegment(segs: seq<Segment>, fuel: nat, t: seq<byte>) returns (k: nat, start: nat)
    requires ThumbnailSafe(segs, fuel) && ThumbnailOf(segs, fuel) == Ok(Some(t))
    ensures FirstExif(segs, 0) == Some(k) && k < |segs|
    ensures IsEXIF(segs[k]) && forall j :: 0 <= j < k ==> !IsEXIF(segs[j])
    ensures var tags := JpegExif.ExifOf(segs[k].raw[10..], fuel).value;
      TagValue(tags, Compression) == JpegCompressed
      && Atoi(TagValue(tags, ThumbnailOffset)) == Some(start - 10)
      && Atoi(TagValue(tags, ThumbnailLength)) == Some(|t|)
      && start + |t| <= |segs[k].raw| && t == segs[k].raw[start..start + |t|]
  {
    FirstExifIsFirst(segs, 0);
    k := FirstExif(segs, 0).value;
    start := SliceOfIfd(segs[k].raw, JpegExif.ExifOf(segs[k].raw[10..], fuel).value, t);
  }

  /**
   * An extracted thumbnail is a run of the file's own bytes inside the
   * first EXIF segment: at the segment's position in the file plus the
   * offset tag plus 10.
   */
  lemma ThumbnailInFile(f: seq<byte>, startOffset: int, fuel: nat, segs: seq<Segment>, t: seq<byte>) returns (k: nat, at: nat)
    requires ScanSafe(f, startOffset) && Segments(f, startOffset) == Ok(segs)
    requires ThumbnailSafe(segs, fuel) && ThumbnailOf(segs, fuel) == Ok(Some(t))
    ensures startOffset >= 0 && FirstExif(segs, 0) == Some(k)
    ensures var pos := startOffset + segs[k].startOffset;
      pos <= at && at + |t| <= pos + segs[k].length + 2 <= |f| && t == f[at..at + |t|]
  {
    var start;
    k, start := ThumbnailInSegment(segs, fuel, t);
    var pos := SegmentBytes(f, startOffset, segs, k);
    at := InsideSegment(f, pos, segs[k].raw, segs[k].length, start, t);
  }

  /** An IFD that yields a thumbnail has Compression "6" and both tags, and the thumbnail is the slice they name. */
  lemma SliceOfIfd(raw: seq<byte>, tags: Tiff.Tags, t: seq<byte>) returns (start: nat)
    requires SliceFits(raw, tags) && ThumbnailFrom(raw, [Ifd(tags)], 0) == Ok(Some(t))
    ensures TagValue(tags, Compression) == JpegCompressed
    ensures Atoi(TagValue(tags, ThumbnailOffset)) == Some(start - 10)
    ensures Atoi(TagValue(tags, ThumbnailLength)) == Some(|t|)
    ensures start + |t| <= |raw| && t == raw[start..start + |t|]
  {
    assert ThumbnailIn(raw, tags) == Some(Ok(t));
    start := Atoi(tags[ThumbnailOffset]).value + 10;
  }

  /** Where segment `k` lies in the file. */
  lemma SegmentBytes(f: seq<byte>, startOffset: int, segs: seq<Segment>, k: nat) returns (pos: nat)
    requires ScanSafe(f, startOffset) && Segments(f, startOffset) == Ok(segs) && k < |segs|
    ensures startOffset >= 0 && pos == startOffset + segs[k].startOffset
    ensures pos + segs[k].length + 2 <= |f| && segs[k].raw == f[pos..pos + segs[k].length + 2]
  {
    SegmentsPlaced(f, startOffset, k);
    pos := startOffset + segs[k].startOffset;
  }

  /** A slice `t` of a segment placed at `pos` is the file's bytes at `pos` plus where the slice starts. */
  lemma InsideSegment(f: seq<byte>, pos: nat, raw: seq<byte>, length: nat, start: nat, t: seq<byte>) returns (at: nat)
    requires pos + length + 2 <= |f| && raw == f[pos..pos + length + 2] && start + |t| <= |raw| && t == raw[start..start + |t|]
    ensures at == pos + start && at + |t| <= pos + length + 2 && t == f[at..at + |t|]
  {
    at := pos + start;
    forall j | 0 <= j < |t|
      ensures t[j] == f[at + j]
    {
      assert t[j] == raw[start + j];
    }
  }

  // ---- RemoveApplicationSegment ----

  /**
   * Whether position `i` of the file lies in some segment's range, its
   * end computed as Go computes `Length + 2`, in 16 bits.
   */
  predicate Covered(segs: seq<Segment>, i: int)
  {
    exists k :: 0 <= k < |segs| && segs[k].startOffset <= i < segs[k].startOffset + U16(segs[k].length + 2)
  }

  /** The bytes of the first `n` of the file that no segment covers, in order. */
  function Kept(f: seq<byte>, segs: seq<Segment>, n: nat): seq<byte>
    requires n <= |f|
  {
    if n == 0 then [] else Kept(f, segs, n - 1) + (if Covered(segs, n - 1) then [] else [f[n - 1]])
  }

  /**
   * What RemoveApplicationSegment writes over the file: the uncovered
   * bytes below `length`; a length past the file's end makes the read at
   * the end fail, and the file is not replaced.
   */
  function Removed(f: seq<byte>, segs: seq<Segment>, length: int): Result<seq<byte>>
  {
    if length > |f| then Failure(Eof)
    else if length <= 0 then Ok([])
    else Ok(Kept(f, segs, length))
  }

  method RemoveApplicationSegment(f: seq<byte>, appSegments: seq<Segment>, length: int) returns (r: Result<seq<byte>>)
    ensures r == Removed(f, appSegments, length)
  {
    var written: seq<byte> := [];
    var i: nat := 0;
    while i < length
      invariant i <= |f| && (if length <= 0 then i == 0 else i <= length) && written == Kept(f, appSegments, i)
      decreases length - i
    {
      var isAppSegment := InSegment(appSegments, i);
      if i == |f| {
        return Failure(Eof);
      }
      if !isAppSegment {
        written := written + [f[i]];
      }
      i := i + 1;
    }
    return Ok(written);
  }

  /** The inner loop of the remover: is position `i` inside one of the segments? */
  method InSegment(segs: seq<Segment>, i: int) returns (isAppSegment: bool)
    ensures isAppSegment == Covered(segs, i)
  {
    isAppSegment := false;
    for k := 0 to |segs|
      invariant forall j :: 0 <= j < k ==> !(segs[j].startOffset <= i < segs[j].startOffset + U16(segs[j].length + 2))
    {
      var a := segs[k];
      if i >= a.startOffset && i < a.startOffset + U16(a.length + 2) {
        isAppSegment := true;
        break;
      }
    }
  }

  /** Over a stretch no segment covers, every byte is kept, in order. */
  lemma {:induction false} KeptGap(f: seq<byte>, segs: seq<Segment>, m: nat, n: nat)
    requires m <= n <= |f| && forall i :: m <= i < n ==> !Covered(segs, i)
    ensures Kept(f, segs, n) == Kept(f, segs, m) + f[m..n]
    decreases n - m
  {
    if m < n {
      KeptGap(f, segs, m, n - 1);
      assert f[m..n] == f[m..n - 1] + [f[n - 1]];
      AppendAssoc(Kept(f, segs, m), f[m..n - 1], [f[n - 1]]);
    } else {
      assert Kept(f, segs, m) + [] == Kept(f, segs, m);
    }
  }

  /** Over a stretch some segment covers, nothing is kept. */
  lemma {:induction false} KeptCut(f: seq<byte>, segs: seq<Segment>, m: nat, n: nat)
    requires m <= n <= |f| && forall i :: m <= i < n ==> Covered(segs, i)
    ensures Kept(f, segs, n) == Kept(f, segs, m)
    decreases n - m
  {
    if m < n {
      KeptCut(f, segs, m, n - 1);
      assert Kept(f, segs, n - 1) + [] == Kept(f, segs, n - 1);
    }
  }

  /** Without segments the remover copies the first `n` bytes unchanged. */
  lemma KeptAll(f: seq<byte>, n: nat)
    requires n <= |f|
    ensures Kept(f, [], n) == f[..n]
  {
    KeptGap(f, [], 0, n);
  }

  /**
   * One segment as the scan returns it (offsets counted from byte 0) is
   * cut out exactly: the bytes before it and the bytes after it are kept.
   */
  lemma KeptOneSegment(f: seq<byte>, s: Segment, n: nat)
    requires Placed(f, 0, s) && s.startOffset + s.length + 2 <= n <= |f|
    ensures Kept(f, [s], n) == f[..s.startOffset] + f[s.startOffset + s.length + 2..n]
  {
    KeptSpan(f, s, n);
  }

  /** A segment whose length fits 16 bits covers exactly its own bytes. */
  lemma KeptSpan(f: seq<byte>, s: Segment, n: nat)
    requires s.length + 2 < 0x1_0000 && s.startOffset + s.length + 2 <= n <= |f|
    ensures Kept(f, [s], n) == f[..s.startOffset] + f[s.startOffset + s.length + 2..n]
  {
    var a, b := s.startOffset, s.startOffset + s.length + 2;
    assert U16(s.length + 2) == s.length + 2;
    forall i | 0 <= i < a
      ensures !Covered([s], i)
    {
    }
    forall i | a <= i < b
      ensures Covered([s], i)
    {
      assert [s][0] == s;
    }
    forall i | b <= i < n
      ensures !Covered([s], i)
    {
    }
    KeptGap(f, [s], 0, a);
    KeptCut(f, [s], a, b);
    KeptGap(f, [s], b, n);
    assert Kept(f, [s], 0) == [];
    assert f[0..a] == f[..a];
  }
}
