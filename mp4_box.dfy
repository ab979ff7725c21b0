/**
 * The box kinds the ISO base media walker knows, and the payload layouts it
 * decodes directly: the file type box, the movie and media header boxes
 * (ISO/IEC 14496-12 sections 4.3, 8.2.2 and 8.4.2) and the user data box's
 * size-prefixed records.
 */
module Mp4Box {
  import opened Bytes
  import Mp4

  /** The wrappers ConvertBox chooses between; `Plain` is the bare box. */
  datatype Kind =
    | FileType | Movie | MovieHeader | MetaData | Track | TrackHeader | TrackMedia
    | TrackMediaHeader | Handler | MediaInformation | DataInformation | UserData | Plain

  /** The four type bytes each wrapper is chosen for. */
  function KindName(k: Kind): seq<byte>
    requires k != Plain
  {
    match k
    case FileType => [0x66, 0x74, 0x79, 0x70]          // ftyp
    case Movie => [0x6D, 0x6F, 0x6F, 0x76]             // moov
    case MovieHeader => [0x6D, 0x76, 0x68, 0x64]       // mvhd
    case MetaData => [0x6D, 0x65, 0x74, 0x61]          // meta
    case Track => [0x74, 0x72, 0x61, 0x6B]             // trak
    case TrackHeader => [0x74, 0x6B, 0x68, 0x64]       // tkhd
    case TrackMedia => [0x6D, 0x64, 0x69, 0x61]        // mdia
    case TrackMediaHeader => [0x6D, 0x64, 0x68, 0x64]  // mdhd
    case Handler => [0x68, 0x64, 0x6C, 0x72]           // hdlr
    case MediaInformation => [0x6D, 0x69, 0x6E, 0x66]  // minf
    case DataInformation => [0x64, 0x69, 0x6E, 0x66]   // dinf
    case UserData => [0x75, 0x64, 0x74, 0x61]          // udta
  }

  /** ConvertBox: the wrapper for a box type; every type without one stays a plain box. */
  function ConvertBox(boxType: seq<byte>): (k: Kind)
    ensures k != Plain ==> KindName(k) == boxType
    ensures k == Plain <==> forall other: Kind :: other != Plain ==> KindName(other) != boxType
  {
    if boxType == KindName(FileType) then FileType
    else if boxType == KindName(Movie) then Movie
    else if boxType == KindName(MovieHeader) then MovieHeader
    else if boxType == KindName(MetaData) then MetaData
    else if boxType == KindName(Track) then Track
    else if boxType == KindName(TrackHeader) then TrackHeader
    else if boxType == KindName(TrackMedia) then TrackMedia
    else if boxType == KindName(TrackMediaHeader) then TrackMediaHeader
    else if boxType == KindName(Handler) then Handler
    else if boxType == KindName(MediaInformation) then MediaInformation
    else if boxType == KindName(DataInformation) then DataInformation
    else if boxType == KindName(UserData) then UserData
    else Plain
  }

  /** Every wrapper is chosen for its own type name, and for no other kind's. */
  lemma ConvertBoxRoundTrip(k: Kind)
    requires k != Plain
    ensures ConvertBox(KindName(k)) == k
  {
  }

  // ---- ftyp ----

  datatype FileTypeInfo = FileTypeInfo(brand: seq<byte>, minorVersion: nat, compatibleBrands: seq<seq<byte>>)

  /** The payload has a brand and a minor version, then whole four-byte brands; anything else makes a slice panic. */
  predicate FileTypeReadable(data: seq<byte>)
  {
    |data| >= 8 && (|data| - 8) % 4 == 0
  }

  /**
   * GetFileType: the major brand, the big-endian minor version and the
   * compatible brands, four bytes each, in order from offset 8.
   */
  method GetFileType(f: seq<byte>, b: Mp4.Box) returns (r: Result<FileTypeInfo>)
    requires Mp4.HeaderLength(b) <= b.size
    requires Mp4.GetData(f, b).Ok? ==> FileTypeReadable(Mp4.GetData(f, b).value)
    ensures r.Failure? <==> Mp4.GetData(f, b).Failure?
    ensures r.Ok? ==> (var data := Mp4.GetData(f, b).value;
      r.value.brand == data[0..4] && r.value.minorVersion == BE(data[4..8])
      && |r.value.compatibleBrands| == (|data| - 8) / 4
      && (forall k :: 0 <= k < |r.value.compatibleBrands| ==> r.value.compatibleBrands[k] == data[8 + 4 * k..12 + 4 * k])
      && Concat(r.value.compatibleBrands) == data[8..])
  {
    var read := Mp4.GetData(f, b);
    if read.Failure? {
      return Failure(read.msg);
    }
    var data := read.value;
    var compatibleBrands: seq<seq<byte>> := [];
    var i := 8;
    while i < |data|
      invariant i <= |data| && i == 8 + 4 * |compatibleBrands|
      invariant forall k :: 0 <= k < |compatibleBrands| ==> compatibleBrands[k] == data[8 + 4 * k..12 + 4 * k]
      invariant Concat(compatibleBrands) == data[8..i]
    {
      ConcatSnoc(compatibleBrands, data[i..i + 4]);
      compatibleBrands := compatibleBrands + [data[i..i + 4]];
      assert data[8..i + 4] == data[8..i] + data[i..i + 4];
      i := i + 4;
    }
    assert |compatibleBrands| == (|data| - 8) / 4;
    return Ok(FileTypeInfo(data[0..4], BE(data[4..8]), compatibleBrands));
  }

  // ---- mvhd and mdhd ----

  /**
   * A movie or media header. Times are nanoseconds after midnight UTC,
   * 1 January 1904, as Go's time.Duration computes them.
   */
  datatype Header = Header(creationTime: int, modificationTime: int, timescale: nat, duration: nat)

  const NanosPerSecond: int := 1_000_000_000

  /** Stored seconds as a Go time.Duration: converted to int64, then multiplied by a second, both wrapping. */
  function SecondsAsDuration(seconds: nat): (d: int)
    ensures -0x8000_0000_0000_0000 <= d < 0x8000_0000_0000_0000
  {
    I64(I64(seconds) * NanosPerSecond)
  }

  /** Version 1 headers carry 64-bit times and duration and need 32 bytes; version 0 ones 32-bit fields and 20 bytes. */
  predicate HeaderReadable(data: seq<byte>)
  {
    |data| >= 20 && (data[0] == 1 ==> |data| >= 32)
  }

  /** The header fields, laid out according to the version byte. */
  function HeaderOf(data: seq<byte>): Header
    requires HeaderReadable(data)
  {
    if data[0] == 1 then
      Header(SecondsAsDuration(BE(data[4..12])), SecondsAsDuration(BE(data[12..20])), BE(data[20..24]), BE(data[24..32]))
    else
      Header(SecondsAsDuration(BE(data[4..8])), SecondsAsDuration(BE(data[8..12])), BE(data[12..16]), BE(data[16..20]))
  }

  /** GetHeader: the header of a movie or media header box's payload. */
  function GetHeader(f: seq<byte>, b: Mp4.Box): (r: Result<Header>)
    requires Mp4.HeaderLength(b) <= b.size
    requires Mp4.GetData(f, b).Ok? ==> HeaderReadable(Mp4.GetData(f, b).value)
    ensures r.Failure? <==> Mp4.GetData(f, b).Failure?
    ensures r.Ok? ==> r.value == HeaderOf(Mp4.GetData(f, b).value) && r.value.timescale < 0x1_0000_0000
  {
    match Mp4.GetData(f, b)
    case Failure(m) => Failure(m)
    case Ok(data) =>
      if data[0] == 1 then BEBound(data[20..24]); Ok(HeaderOf(data))
      else BEBound(data[12..16]); Ok(HeaderOf(data))
  }

  /** A version 0 payload with the given fields (flags zero). */
  function Version0(creation: nat, modification: nat, timescale: nat, duration: nat): seq<byte>
  {
    [0, 0, 0, 0] + BEBytes(creation, 4) + BEBytes(modification, 4) + BEBytes(timescale, 4) + BEBytes(duration, 4)
  }

  /** A version 1 payload with the given fields (flags zero). */
  function Version1(creation: nat, modification: nat, timescale: nat, duration: nat): seq<byte>
  {
    [1, 0, 0, 0] + BEBytes(creation, 8) + BEBytes(modification, 8) + BEBytes(timescale, 4) + BEBytes(duration, 8)
  }

  /**
   * Decoding a version 0 header gives back what was laid out, and its
   * 32-bit times never wrap: they are exactly the stored seconds.
   */
  lemma Version0RoundTrip(creation: nat, modification: nat, timescale: nat, duration: nat)
    requires creation < 0x1_0000_0000 && modification < 0x1_0000_0000
    requires timescale < 0x1_0000_0000 && duration < 0x1_0000_0000
    ensures HeaderReadable(Version0(creation, modification, timescale, duration))
    ensures HeaderOf(Version0(creation, modification, timescale, duration))
      == Header(creation * NanosPerSecond, modification * NanosPerSecond, timescale, duration)
  {
    var d := Version0(creation, modification, timescale, duration);
    var p1 := [0, 0, 0, 0] + BEBytes(creation, 4);
    var p2 := p1 + BEBytes(modification, 4);
    var p3 := p2 + BEBytes(timescale, 4);
    assert d == p3 + BEBytes(duration, 4) && |p3| == 16;
    assert d[..16] == p3 && p3[..12] == p2 && p2[..8] == p1;
    assert d[4..8] == p1[4..8] == BEBytes(creation, 4);
    assert d[8..12] == p2[8..12] == BEBytes(modification, 4);
    assert d[12..16] == p3[12..16] == BEBytes(timescale, 4);
    assert d[16..20] == BEBytes(duration, 4);
    Pow256Widths();
    BEBytesRoundTrip(creation, 4);
    BEBytesRoundTrip(modification, 4);
    BEBytesRoundTrip(timescale, 4);
    BEBytesRoundTrip(duration, 4);
  }

  /** Decoding a version 1 header gives back the fields that were laid out. */
  lemma Version1RoundTrip(creation: nat, modification: nat, timescale: nat, duration: nat)
    requires creation < 0x1_0000_0000_0000_0000 && modification < 0x1_0000_0000_0000_0000
    requires timescale < 0x1_0000_0000 && duration < 0x1_0000_0000_0000_0000
    ensures HeaderReadable(Version1(creation, modification, timescale, duration))
    ensures HeaderOf(Version1(creation, modification, timescale, duration))
      == Header(SecondsAsDuration(creation), SecondsAsDuration(modification), timescale, duration)
  {
    var d := Version1(creation, modification, timescale, duration);
    var front := [1, 0, 0, 0] + BEBytes(creation, 8) + BEBytes(modification, 8) + BEBytes(timescale, 4);
    assert d == front + BEBytes(duration, 8) && |front| == 24;
    assert d[4..12] == BEBytes(creation, 8);
    assert d[12..20] == BEBytes(modification, 8);
    assert d[20..24] == BEBytes(timescale, 4);
    assert d[24..32] == BEBytes(duration, 8);
    Pow256Widths();
    assert Pow256(8) == 0x1_0000_0000_0000_0000;
    BEBytesRoundTrip(creation, 8);
    BEBytesRoundTrip(modification, 8);
    BEBytesRoundTrip(timescale, 4);
    BEBytesRoundTrip(duration, 8);
  }

  /**
   * The repository's sample movie header: created and modified
   * 2003-03-03 10:03:03 UTC, which is 3129530583 seconds after the 1904
   * epoch, with timescale 25000 and duration 100000, lasts four seconds.
   */
  lemma SampleMovieHeader()
    ensures HeaderOf(Version0(3129530583, 3129530583, 25000, 100000))
      == Header(3129530583 * NanosPerSecond, 3129530583 * NanosPerSecond, 25000, 100000)
    ensures DurationNanos(Header(3129530583 * NanosPerSecond, 3129530583 * NanosPerSecond, 25000, 100000)) == 4 * NanosPerSecond
  {
    Version0RoundTrip(3129530583, 3129530583, 25000, 100000);
  }

  /**
   * DurationString's value: whole seconds (the duration divided by the
   * timescale, rounded down) times a second, in uint64 and then int64.
   */
  function DurationNanos(h: Header): (d: int)
    requires h.timescale != 0
    ensures -0x8000_0000_0000_0000 <= d < 0x8000_0000_0000_0000
  {
    I64(U64((h.duration / h.timescale) * NanosPerSecond))
  }

  /** Below the int64 limit the duration is a whole number of seconds, the largest not above duration / timescale. */
  lemma DurationWholeSeconds(h: Header)
    requires h.timescale != 0 && h.duration < 0x1_0000_0000_0000_0000
    requires h.duration / h.timescale < 9_223_372_036
    ensures DurationNanos(h) % NanosPerSecond == 0
    ensures DurationNanos(h) / NanosPerSecond * h.timescale <= h.duration
    ensures h.duration < (DurationNanos(h) / NanosPerSecond + 1) * h.timescale
  {
    var s := h.duration / h.timescale;
    WholeSeconds(s);
    FloorDivision(h.duration, h.timescale, s);
  }

  /** A whole number of seconds that fits int64 nanoseconds survives both conversions. */
  lemma WholeSeconds(s: nat)
    requires s < 9_223_372_036
    ensures I64(U64(s * NanosPerSecond)) == s * NanosPerSecond
    ensures s * NanosPerSecond / NanosPerSecond == s && s * NanosPerSecond % NanosPerSecond == 0
  {
    assert s * NanosPerSecond < 0x8000_0000_0000_0000;
  }

  lemma FloorDivision(d: nat, t: nat, q: int)
    requires t != 0 && q == d / t
    ensures q * t <= d < (q + 1) * t
  {
    var m := d % t;
    assert d == q * t + m && 0 <= m < t;
    assert (q + 1) * t == q * t + t;
  }

  // ---- udta ----

  /**
   * From `off`, the payload is a run of records, each starting with its
   * own big-endian 32-bit length, at least 1 and within the payload; a
   * length of 0 would never advance and a record past the end would panic.
   */
  predicate RecordsFrom(data: seq<byte>, off: nat)
    requires off <= |data|
    decreases |data| - off
  {
    off == |data|
    || (off + 4 <= |data| && 0 < BE(data[off..off + 4]) && off + BE(data[off..off + 4]) <= |data|
        && RecordsFrom(data, off + BE(data[off..off + 4])))
  }

  /** The records from `off`, in order. */
  function Records(data: seq<byte>, off: nat): (rs: seq<seq<byte>>)
    requires off <= |data| && RecordsFrom(data, off)
    decreases |data| - off
  {
    if off == |data| then []
    else
      var n := BE(data[off..off + 4]);
      [data[off..off + n]] + Records(data, off + n)
  }

  /** The records tile the payload from `off` in order, and none of them is empty. */
  lemma {:induction false} RecordsTile(data: seq<byte>, off: nat)
    requires off <= |data| && RecordsFrom(data, off)
    ensures var rs := Records(data, off);
      Concat(rs) == data[off..]
      && forall k :: 0 <= k < |rs| ==> |rs[k]| > 0
    decreases |data| - off
  {
    if off < |data| {
      var n := BE(data[off..off + 4]);
      RecordsTile(data, off + n);
      var rs := Records(data, off);
      assert rs == [data[off..off + n]] + Records(data, off + n);
      assert data[off..] == data[off..off + n] + data[off + n..];
    }
  }

  /** The udta Print loop: each record from its length field to the next, until the end of the payload. */
  method UserDataRecords(data: seq<byte>) returns (records: seq<seq<byte>>)
    requires RecordsFrom(data, 0)
    ensures records == Records(data, 0)
  {
    records := [];
    var offset := 0;
    while offset < |data|
      invariant offset <= |data| && RecordsFrom(data, offset)
      invariant Records(data, 0) == records + Records(data, offset)
      decreases |data| - offset
    {
      var length := BE(data[offset..offset + 4]);
      var dataValue := data[offset..offset + length];
      records := records + [dataValue];
      offset := offset + length;
    }
  }
}
