/**
 * The WebP parser: the RIFF header check, the walk over the chunks that
 * follow it, and the rebuilt RIFF file that Clear writes, which keeps every
 * chunk except the metadata ones (EXIF, XMP and ICC profile). A chunk's
 * payload follows its eight-byte header directly; the walk adds no pad
 * byte after a chunk of odd size.
 */
module WebP {
  import opened Bytes
  import SharedExif
  import SharedIcc
  import Icc

  const Riff: seq<byte> := [0x52, 0x49, 0x46, 0x46] // RIFF
  const Webp: seq<byte> := [0x57, 0x45, 0x42, 0x50] // WEBP
  const Exif: seq<byte> := [0x45, 0x58, 0x49, 0x46] // EXIF
  const XmpSpace: seq<byte> := [0x58, 0x4D, 0x50, 0x20] // "XMP "
  const Xmp: seq<byte> := [0x58, 0x4D, 0x50] // "XMP"
  const Iccp: seq<byte> := [0x49, 0x43, 0x43, 0x50] // ICCP

  const ReadFailed := "failed to read file"
  const NegativeOffset := "negative offset"
  const DataReadFailed := "error reading data"

  /**
   * IsWebp: 24 bytes are read at the start offset (a short read is an
   * error); the file is WebP when they open with RIFF, a little-endian size
   * equal to `length - 8` taken as a uint32, and WEBP.
   */
  function IsWebp(f: seq<byte>, startOffset: int, length: int): (r: Result<bool>)
    ensures r.Failure? <==> startOffset < 0 || startOffset + 24 > |f|
    ensures r.Ok? ==> (r.value <==>
      f[startOffset..startOffset + 4] == Riff && LE(f[startOffset + 4..startOffset + 8]) == U32(length - 8)
      && f[startOffset + 8..startOffset + 12] == Webp)
  {
    match ReadAt(f, startOffset, 24)
    case Data(magicBytes) =>
      assert forall k :: 0 <= k < 24 ==> magicBytes[k] == f[startOffset + k];
      assert magicBytes[0..4] == f[startOffset..startOffset + 4];
      assert magicBytes[4..8] == f[startOffset + 4..startOffset + 8];
      assert magicBytes[8..12] == f[startOffset + 8..startOffset + 12];
      if magicBytes[0..4] != Riff then Ok(false)
      else if LE(magicBytes[4..8]) != U32(length - 8) then Ok(false)
      else Ok(magicBytes[8..12] == Webp)
    case _ => Failure(ReadFailed)
  }

  // ---- the chunk walk ----

  /** A chunk as the walk records it: its FourCC, its little-endian size and where its header starts. */
  datatype Chunk = Chunk(fourC: seq<byte>, size: nat, startAt: int)

  /** The FourCC of a header: its first four bytes, with a NUL in the last one read as a space. */
  function FourCC(h: seq<byte>): (r: seq<byte>)
    requires |h| >= 4
    ensures |r| == 4 && r[..3] == h[..3] && r[3] != 0
    ensures h[3] != 0 ==> r == h[..4]
  {
    h[..3] + [if h[3] == 0 then 0x20 else h[3]]
  }

  /** The chunk an eight-byte header at `at` describes. */
  function ChunkAt(at: int, h: seq<byte>): (c: Chunk)
    requires |h| == 8
    ensures c.startAt == at && c.size < 0x1_0000_0000
  {
    LEBound(h[4..8]);
    Pow256Widths();
    Chunk(FourCC(h), LE(h[4..8]), at)
  }

  /**
   * The chunks from `off`: the next header lies 8 + size bytes on; the walk
   * ends where ReadAt cannot fill an eight-byte header (a negative offset,
   * or a header that runs past the end of the file), and right after a
   * chunk whose successor would start at or beyond `length`.
   */
  function ChunksFrom(f: seq<byte>, off: int, length: int): seq<Chunk>
    decreases |f| - off
  {
    if off < 0 || off + 8 > |f| then []
    else
      var c := ChunkAt(off, f[off..off + 8]);
      [c] + (if off + 8 + c.size >= length then [] else ChunksFrom(f, off + 8 + c.size, length))
  }

  /** GetChunks: the walk from just after the 12-byte RIFF header. */
  method GetChunks(f: seq<byte>, startOffset: int, length: int) returns (r: Result<seq<Chunk>>)
    ensures r.Failure? <==> startOffset + 12 < 0
    ensures r.Failure? ==> r.msg == NegativeOffset
    ensures r.Ok? ==> r.value == ChunksFrom(f, startOffset + 12, length)
  {
    var result: seq<Chunk> := [];
    var offset := startOffset + 12;
    while true
      invariant ChunksFrom(f, startOffset + 12, length) == result + ChunksFrom(f, offset, length)
      invariant startOffset + 12 >= 0 || offset == startOffset + 12
      decreases |f| - offset
    {
      var read := ReadAt(f, offset, 8);
      if read.EndOfFile? {
        assert result + [] == result;
        return Ok(result);
      }
      if read.BadOffset? {
        return Failure(NegativeOffset);
      }
      var done;
      result, offset, done := NextChunk(f, offset, length, read.bytes, result);
      if done {
        return Ok(result);
      }
    }
  }

  /**
   * One round of GetChunks' loop: the header's NUL patched, the chunk it
   * describes appended, the offset of the next header, and whether that
   * offset reached `length`.
   */
  method NextChunk(f: seq<byte>, offset: int, length: int, h: seq<byte>, result: seq<Chunk>)
    returns (result': seq<Chunk>, next: int, done: bool)
    requires 0 <= offset && offset + 8 <= |f| && h == f[offset..offset + 8]
    ensures offset < next
    ensures done ==> result + ChunksFrom(f, offset, length) == result'
    ensures !done ==> result + ChunksFrom(f, offset, length) == result' + ChunksFrom(f, next, length)
  {
    var chunk := ReadChunk(offset, h);
    next := offset + 8 + chunk.size;
    done := next >= length;
    ghost var rest := ChunkStep(f, offset, length, h);
    result' := result + [chunk];
    assert result + ([chunk] + rest) == result' + rest;
    if done {
      assert rest == [] && result' + [] == result';
    } else {
      assert rest == ChunksFrom(f, next, length);
    }
  }

  /** The chunk an eight-byte header at `offset` describes, read after the NUL patch. */
  method ReadChunk(offset: int, h: seq<byte>) returns (chunk: Chunk)
    requires |h| == 8
    ensures chunk == ChunkAt(offset, h)
  {
    var header := PatchHeader(h);
    chunk := Chunk(header[0..4], LE(header[4..8]), offset);
  }

  /** The NUL patch of a header: a NUL in its last FourCC byte becomes a space. */
  method PatchHeader(h: seq<byte>) returns (header: seq<byte>)
    requires |h| == 8
    ensures |header| == 8 && header[0..4] == FourCC(h) && header[4..8] == h[4..8]
  {
    header := h;
    if header[3] == 0x00 {
      header := header[3 := 0x20];
    }
    assert header[..3] == h[..3];
  }

  /** One step of the walk: the header at `off`, then the chunks after it. */
  lemma ChunkStep(f: seq<byte>, off: int, length: int, h: seq<byte>) returns (rest: seq<Chunk>)
    requires 0 <= off && off + 8 <= |f| && h == f[off..off + 8]
    ensures ChunksFrom(f, off, length) == [ChunkAt(off, h)] + rest
    ensures off + 8 + ChunkAt(off, h).size >= length ==> rest == []
    ensures off + 8 + ChunkAt(off, h).size < length ==> rest == ChunksFrom(f, off + 8 + ChunkAt(off, h).size, length)
  {
    var c := ChunkAt(off, h);
    rest := if off + 8 + c.size >= length then [] else ChunksFrom(f, off + 8 + c.size, length);
  }

  /** The walk from `off` is empty exactly when no header can be read there, and otherwise starts there. */
  lemma WalkHead(f: seq<byte>, off: int, length: int)
    ensures var cs := ChunksFrom(f, off, length);
      (cs == [] <==> off < 0 || off + 8 > |f|) && (cs != [] ==> cs[0].startAt == off)
  {
    if 0 <= off && off + 8 <= |f| {
      var rest := ChunkStep(f, off, length, f[off..off + 8]);
    }
  }

  /** `c` is the chunk its header bytes in `f` describe. */
  predicate Placed(f: seq<byte>, c: Chunk)
  {
    0 <= c.startAt && c.startAt + 8 <= |f| && c == ChunkAt(c.startAt, f[c.startAt..c.startAt + 8])
  }

  /** Each chunk of the walk lies in the file and is what its header says. */
  lemma {:induction false} ChunksPlaced(f: seq<byte>, off: int, length: int)
    ensures forall c :: c in ChunksFrom(f, off, length) ==> Placed(f, c)
    decreases |f| - off
  {
    if 0 <= off && off + 8 <= |f| {
      var h := f[off..off + 8];
      var rest := ChunkStep(f, off, length, h);
      var c := ChunkAt(off, h);
      if off + 8 + c.size < length {
        ChunksPlaced(f, off + 8 + c.size, length);
      }
      assert c.startAt == off;
      PlacedCons(f, c, rest);
    }
  }

  lemma PlacedCons(f: seq<byte>, c: Chunk, rest: seq<Chunk>)
    requires Placed(f, c) && forall x :: x in rest ==> Placed(f, x)
    ensures forall x :: x in [c] + rest ==> Placed(f, x)
  {
  }

  /** A chunk the walk records: a four-byte FourCC whose last byte is never NUL, and a size that fits 32 bits. */
  predicate WellFormed(c: Chunk)
  {
    |c.fourC| == 4 && c.fourC[3] != 0 && c.size < 0x1_0000_0000
  }

  /** Every chunk the walk records is well formed. */
  lemma ChunksWellFormed(f: seq<byte>, off: int, length: int)
    ensures forall c :: c in ChunksFrom(f, off, length) ==> WellFormed(c)
  {
    var cs := ChunksFrom(f, off, length);
    ChunksPlaced(f, off, length);
    forall c | c in cs
      ensures WellFormed(c)
    {
      assert Placed(f, c);
      assert c.fourC == FourCC(f[c.startAt..c.startAt + 8]);
    }
  }

  /** Each chunk after the first starts where the previous chunk's payload ends, below `length`. */
  predicate Follows(cs: seq<Chunk>, length: int)
  {
    forall j, k {:trigger cs[j], cs[k]} :: 0 <= j < |cs| && 0 <= k < |cs| && k == j + 1 ==>
      cs[k].startAt == cs[j].startAt + 8 + cs[j].size && cs[k].startAt < length
  }

  /**
   * The walk reads every header where the previous chunk's payload ends,
   * 8 + size bytes on with no pad byte, and each successor starts below
   * `length`.
   */
  lemma {:induction false} ChunksFollow(f: seq<byte>, off: int, length: int)
    ensures Follows(ChunksFrom(f, off, length), length)
    decreases |f| - off
  {
    if 0 <= off && off + 8 <= |f| {
      var c, rest := ChunkFront(f, off, length);
      if off + 8 + c.size < length {
        WalkHead(f, off + 8 + c.size, length);
        ChunksFollow(f, off + 8 + c.size, length);
      }
      FollowsCons(c, rest, length);
    }
  }

  /** The first chunk of a walk that can read its header, and the chunks after it. */
  lemma ChunkFront(f: seq<byte>, off: int, length: int) returns (c: Chunk, rest: seq<Chunk>)
    requires 0 <= off && off + 8 <= |f|
    ensures ChunksFrom(f, off, length) == [c] + rest && c.startAt == off
    ensures off + 8 + c.size >= length ==> rest == []
    ensures off + 8 + c.size < length ==> rest == ChunksFrom(f, off + 8 + c.size, length)
  {
    var h := f[off..off + 8];
    rest := ChunkStep(f, off, length, h);
    c := ChunkAt(off, h);
  }

  lemma FollowsCons(c: Chunk, rest: seq<Chunk>, length: int)
    requires rest != [] ==> rest[0].startAt == c.startAt + 8 + c.size && rest[0].startAt < length
    requires Follows(rest, length)
    ensures Follows([c] + rest, length)
  {
    var cs := [c] + rest;
    forall j, k | 0 <= j < |cs| && 0 <= k < |cs| && k == j + 1
      ensures cs[k].startAt == cs[j].startAt + 8 + cs[j].size && cs[k].startAt < length
    {
      assert cs[k] == rest[j];
      if j > 0 {
        assert cs[j] == rest[j - 1];
      }
    }
  }

  // ---- chunk data ----

  /** IsMetadata: EXIF, "XMP " (with its trailing space) and ICCP chunks hold metadata. */
  predicate IsMetadata(c: Chunk)
  {
    c.fourC == Exif || c.fourC == XmpSpace || c.fourC == Iccp
  }

  /** GetData: the `size` payload bytes after the chunk's header; a short read is an error. */
  function GetData(f: seq<byte>, c: Chunk): (r: Result<seq<byte>>)
    ensures r.Ok? <==> 0 <= c.startAt + 8 && (c.size == 0 || c.startAt + 8 + c.size <= |f|)
    ensures r.Ok? ==> |r.value| == c.size && (c.size > 0 ==> r.value == f[c.startAt + 8..c.startAt + 8 + c.size])
  {
    match ReadAt(f, c.startAt + 8, c.size)
    case Data(d) => Ok(d)
    case _ => Failure(DataReadFailed)
  }

  /** GetExif: the chunk's payload parsed as Exif (a nil result when it is not Exif). */
  method GetExif(f: seq<byte>, c: Chunk, ghost fuel: nat) returns (r: Result<Option<seq<SharedExif.Ifd>>>)
    requires GetData(f, c).Ok? ==> SharedExif.Parses(GetData(f, c).value, fuel)
    ensures GetData(f, c).Failure? ==> r.Failure?
    ensures GetData(f, c).Ok? ==> r == Ok(SharedExif.ExifOf(GetData(f, c).value, fuel))
  {
    var data := GetData(f, c);
    if data.Failure? {
      return Failure(data.msg);
    }
    var ifds := SharedExif.ParseExif(data.value, fuel);
    r := Ok(ifds);
  }

  /** GetXMP: the chunk's payload as a string. */
  function GetXMP(f: seq<byte>, c: Chunk): (r: Result<seq<byte>>)
    ensures r.Ok? <==> GetData(f, c).Ok?
    ensures r.Ok? ==> |r.value| == c.size && (c.size > 0 ==> r.value == f[c.startAt + 8..c.startAt + 8 + c.size])
  {
    GetData(f, c)
  }

  /** GetICC: the chunk's payload parsed as an ICC profile, which is never nil. */
  method GetICC(f: seq<byte>, c: Chunk) returns (r: Result<Option<Icc.Profile>>)
    requires GetData(f, c).Ok? ==> Icc.Parses(GetData(f, c).value)
    ensures GetData(f, c).Failure? ==> r.Failure?
    ensures GetData(f, c).Ok? ==> r == Ok(Some(Icc.ProfileOf(GetData(f, c).value)))
  {
    var data := GetData(f, c);
    if data.Failure? {
      return Failure(data.msg);
    }
    var profile := SharedIcc.ParseICC(data.value);
    r := Ok(profile);
  }

  // ---- what Show prints ----

  /** The section Show prints for a chunk. */
  datatype Shown = ExifShown | XmpShown | IccShown | NotShown

  /** Show's dispatch as written: it compares the FourCC with "XMP", three bytes long. */
  function ShowAsWritten(c: Chunk): Shown
  {
    if c.fourC == Exif then ExifShown
    else if c.fourC == Xmp then XmpShown
    else if c.fourC == Iccp then IccShown
    else NotShown
  }

  /** Show's dispatch with the FourCC IsMetadata uses, "XMP " with its trailing space. */
  function Show(c: Chunk): Shown
  {
    if c.fourC == Exif then ExifShown
    else if c.fourC == XmpSpace then XmpShown
    else if c.fourC == Iccp then IccShown
    else NotShown
  }

  /**
   * As written, no chunk the walk records is ever shown as XMP: every
   * FourCC is four bytes long. An XMP chunk is metadata, and Clear removes
   * it, yet Show passes it over.
   */
  lemma XmpNeverShown(f: seq<byte>, off: int, length: int)
    ensures var cs := ChunksFrom(f, off, length);
      forall k :: 0 <= k < |cs| ==>
        ShowAsWritten(cs[k]) != XmpShown && (cs[k].fourC == XmpSpace ==> IsMetadata(cs[k]) && ShowAsWritten(cs[k]) == NotShown)
  {
    var cs := ChunksFrom(f, off, length);
    ChunksWellFormed(f, off, length);
    assert forall k :: 0 <= k < |cs| ==> cs[k] in cs;
  }

  /** With "XMP " the dispatch shows exactly the chunks that are metadata, each in its own section. */
  lemma ShowMatchesMetadata(c: Chunk)
    ensures Show(c) != NotShown <==> IsMetadata(c)
    ensures Show(c) == XmpShown <==> c.fourC == XmpSpace
  {
  }

  // ---- clearing ----

  /** HasMetadata: some chunk of `cs` is metadata. */
  predicate HasMetadata(cs: seq<Chunk>)
  {
    cs != [] && (IsMetadata(cs[0]) || HasMetadata(cs[1..]))
  }

  lemma {:induction false} HasMetadataMeaning(cs: seq<Chunk>)
    ensures HasMetadata(cs) <==> exists k :: 0 <= k < |cs| && IsMetadata(cs[k])
    decreases |cs|
  {
    if cs != [] {
      HasMetadataMeaning(cs[1..]);
      if !IsMetadata(cs[0]) && exists k :: 0 <= k < |cs| && IsMetadata(cs[k]) {
        var k :| 0 <= k < |cs| && IsMetadata(cs[k]);
        assert cs[1..][k - 1] == cs[k];
      }
    }
  }

  /** The scan of Clear for a metadata chunk, stopping at the first. */
  method FindMetadata(cs: seq<Chunk>) returns (hasMetadata: bool)
    ensures hasMetadata == HasMetadata(cs)
  {
    hasMetadata := false;
    var i := 0;
    while i < |cs|
      invariant 0 <= i <= |cs| && HasMetadata(cs) == HasMetadata(cs[i..])
    {
      assert cs[i..][1..] == cs[i + 1..];
      if IsMetadata(cs[i]) {
        hasMetadata := true;
        break;
      }
      i := i + 1;
    }
  }

  /** The bytes written for a kept chunk: its FourCC, its size as a little-endian uint32, its payload. */
  function Record(c: Chunk, data: seq<byte>): seq<byte>
  {
    c.fourC + LEBytes(c.size, 4) + data
  }

  /** The records of the chunks of `cs` that are not metadata, in order; a failed payload read stops the rebuild. */
  function Records(f: seq<byte>, cs: seq<Chunk>): Result<seq<byte>>
    decreases |cs|
  {
    if cs == [] then Ok([])
    else if IsMetadata(cs[0]) then Records(f, cs[1..])
    else
      match GetData(f, cs[0])
      case Ok(d) => Prefixed(Record(cs[0], d), Records(f, cs[1..]))
      case Failure(e) => Failure(e)
  }

  /** The RIFF header of a file of `total` bytes: RIFF, the size after the first eight bytes as a uint32, WEBP. */
  function RiffHeader(total: nat): (h: seq<byte>)
    ensures |h| == 12
  {
    Riff + LEBytes(U32(total - 8), 4) + Webp
  }

  /** The file ClearMetadata writes: the RIFF header, then the records of the kept chunks. */
  function Rebuilt(f: seq<byte>, cs: seq<Chunk>): Result<seq<byte>>
  {
    match Records(f, cs)
    case Ok(body) => Ok(RiffHeader(12 + |body|) + body)
    case Failure(e) => Failure(e)
  }

  /**
   * ClearMetadata: a RIFF header with a zero size, each kept chunk's
   * record appended in order, then the size patched into bytes 4..8.
   */
  method ClearMetadata(f: seq<byte>, chunks: seq<Chunk>) returns (r: Result<seq<byte>>)
    ensures r == Rebuilt(f, chunks)
  {
    var result: seq<byte> := Riff + [0, 0, 0, 0] + Webp;
    var i := 0;
    assert result[12..] == [];
    match Records(f, chunks) {
      case Ok(all) => assert [] + all == all;
      case Failure(_) =>
    }
    while i < |chunks|
      invariant 0 <= i <= |chunks| && |result| >= 12
      invariant Prefixed(result[12..], Records(f, chunks[i..])) == Records(f, chunks)
      invariant result[..4] == Riff && result[8..12] == Webp
    {
      var ok, msg;
      ok, msg, result := AppendChunk(f, chunks, i, result);
      if !ok {
        return Failure(msg);
      }
      i := i + 1;
    }
    assert Records(f, chunks[i..]) == Ok([]) && result[12..] + [] == result[12..];
    result := PatchSize(result);
    r := Ok(result);
  }

  /** The size patch: bytes 4..8 of the rebuilt file become its length less 8, as a little-endian uint32. */
  method PatchSize(result: seq<byte>) returns (patched: seq<byte>)
    requires |result| >= 12 && result[..4] == Riff && result[8..12] == Webp
    ensures patched == RiffHeader(|result|) + result[12..]
  {
    patched := result[..4] + LEBytes(U32(|result| - 8), 4) + result[8..];
    assert result[8..] == Webp + result[12..];
  }

  /**
   * One round of ClearMetadata's loop: a metadata chunk is skipped, a kept
   * chunk's record is appended, and a failed payload read ends the rebuild.
   */
  method AppendChunk(f: seq<byte>, chunks: seq<Chunk>, i: nat, result: seq<byte>)
    returns (ok: bool, msg: string, result': seq<byte>)
    requires i < |chunks| && |result| >= 12 && result[..4] == Riff && result[8..12] == Webp
    requires Prefixed(result[12..], Records(f, chunks[i..])) == Records(f, chunks)
    ensures !ok ==> Records(f, chunks) == Failure(msg)
    ensures ok ==> |result'| >= 12 && result'[..4] == Riff && result'[8..12] == Webp
    ensures ok ==> Prefixed(result'[12..], Records(f, chunks[i + 1..])) == Records(f, chunks)
  {
    var c := chunks[i];
    assert chunks[i..][1..] == chunks[i + 1..];
    result' := result;
    ok, msg := true, "";
    if !IsMetadata(c) {
      var data := GetData(f, c);
      if data.Failure? {
        return false, data.msg, result;
      }
      var record := c.fourC + LEBytes(c.size, 4) + data.value;
      PrefixedTwice(result[12..], record, Records(f, chunks[i + 1..]));
      result' := result + record;
      assert result'[12..] == result[12..] + record;
    }
  }

  /** The chunks of `cs` that are not metadata, in order. */
  function Kept(cs: seq<Chunk>): seq<Chunk>
  {
    if cs == [] then [] else (if IsMetadata(cs[0]) then [] else [cs[0]]) + Kept(cs[1..])
  }

  /** The FourCC and size of each chunk, in order: what a walk sees independently of where the chunks sit. */
  function Kinds(cs: seq<Chunk>): seq<(seq<byte>, nat)>
  {
    if cs == [] then [] else [(cs[0].fourC, cs[0].size)] + Kinds(cs[1..])
  }

  /** Clear as Handle performs it: nothing is written when no chunk is metadata; otherwise the rebuilt file. */
  function Clear(f: seq<byte>, startOffset: int, length: int): Result<Option<seq<byte>>>
  {
    if startOffset + 12 < 0 then Failure(NegativeOffset)
    else if !HasMetadata(ChunksFrom(f, startOffset + 12, length)) then Ok(None)
    else
      match Rebuilt(f, ChunksFrom(f, startOffset + 12, length))
      case Ok(out) => Ok(Some(out))
      case Failure(e) => Failure(e)
  }

  /** The Clear action of Handle: the walk, the scan for metadata, then the rebuild. */
  method ClearAction(f: seq<byte>, startOffset: int, length: int) returns (r: Result<Option<seq<byte>>>)
    ensures r == Clear(f, startOffset, length)
  {
    var chunks := GetChunks(f, startOffset, length);
    if chunks.Failure? {
      return Failure(chunks.msg);
    }
    var hasMetadata := FindMetadata(chunks.value);
    if !hasMetadata {
      return Ok(None);
    }
    var out := ClearMetadata(f, chunks.value);
    if out.Failure? {
      return Failure(out.msg);
    }
    r := Ok(Some(out.value));
  }

  /**
   * The rebuilt file passes IsWebp's check for its own length once it is
   * long enough for the 24-byte read: the stored size and the checked one
   * are both the length less 8, taken as a uint32.
   */
  lemma RebuiltIsWebp(f: seq<byte>, cs: seq<Chunk>)
    requires Rebuilt(f, cs).Ok? && |Rebuilt(f, cs).value| >= 24
    ensures var out := Rebuilt(f, cs).value; IsWebp(out, 0, |out|) == Ok(true)
  {
    var out := Rebuilt(f, cs).value;
    var size := U32(|out| - 8);
    assert out[0..4] == Riff && out[4..8] == LEBytes(size, 4) && out[8..12] == Webp;
    Pow256Widths();
    LEBytesRoundTrip(size, 4);
  }

  /**
   * Walking the rebuilt file from offset 0 over its whole length finds the
   * kept chunks again, with the same FourCCs and sizes, and none of them is
   * metadata.
   */
  lemma RebuiltWalk(f: seq<byte>, cs: seq<Chunk>)
    requires Rebuilt(f, cs).Ok? && forall k :: 0 <= k < |cs| ==> WellFormed(cs[k])
    ensures var out := Rebuilt(f, cs).value;
      Kinds(ChunksFrom(out, 12, |out|)) == Kinds(Kept(cs)) && !HasMetadata(ChunksFrom(out, 12, |out|))
  {
    var out := Rebuilt(f, cs).value;
    assert out[12..] == Records(f, cs).value;
    WalkOfRecords(f, cs, 12, out);
    KeptHasNoMetadata(cs);
    MetadataByKinds(ChunksFrom(out, 12, |out|), Kept(cs));
  }

  /** Clearing a cleared file writes nothing: the first rebuild left no metadata chunk. */
  lemma ClearTwice(f: seq<byte>, startOffset: int, length: int)
    requires Clear(f, startOffset, length).Ok? && Clear(f, startOffset, length).value.Some?
    ensures var out := Clear(f, startOffset, length).value.value; Clear(out, 0, |out|) == Ok(None)
  {
    var cs := ChunksFrom(f, startOffset + 12, length);
    ChunksWellFormed(f, startOffset + 12, length);
    assert startOffset + 12 >= 0 && HasMetadata(cs);
    assert Rebuilt(f, cs).Ok?;
    assert forall k :: 0 <= k < |cs| ==> cs[k] in cs;
    RebuiltWalk(f, cs);
  }

  /** Clear writes nothing when no chunk is metadata. */
  lemma NoMetadataNoWrite(f: seq<byte>, startOffset: int, length: int)
    requires startOffset + 12 >= 0
    requires forall c :: c in ChunksFrom(f, startOffset + 12, length) ==> !IsMetadata(c)
    ensures Clear(f, startOffset, length) == Ok(None)
  {
    var cs := ChunksFrom(f, startOffset + 12, length);
    HasMetadataMeaning(cs);
    assert forall k :: 0 <= k < |cs| ==> cs[k] in cs;
  }

  lemma {:induction false} KeptHasNoMetadata(cs: seq<Chunk>)
    ensures !HasMetadata(Kept(cs))
    decreases |cs|
  {
    if cs != [] {
      KeptHasNoMetadata(cs[1..]);
      if !IsMetadata(cs[0]) {
        assert Kept(cs)[1..] == Kept(cs[1..]);
      } else {
        assert Kept(cs) == Kept(cs[1..]);
      }
    }
  }

  /** Whether a chunk is metadata depends on its FourCC alone, so chunks of the same kinds agree on it. */
  lemma {:induction false} MetadataByKinds(a: seq<Chunk>, b: seq<Chunk>)
    requires Kinds(a) == Kinds(b)
    ensures HasMetadata(a) == HasMetadata(b)
    decreases |a|
  {
    if a != [] && b != [] {
      assert Kinds(a)[0] == Kinds(b)[0];
      assert Kinds(a)[1..] == Kinds(a[1..]) && Kinds(b)[1..] == Kinds(b[1..]);
      MetadataByKinds(a[1..], b[1..]);
    }
  }

  /**
   * Walking bytes that hold, from `p` to the end, the records of the kept
   * chunks of `cs` finds those chunks again.
   */
  lemma {:induction false} WalkOfRecords(f: seq<byte>, cs: seq<Chunk>, p: nat, out: seq<byte>)
    requires forall k :: 0 <= k < |cs| ==> WellFormed(cs[k])
    requires Records(f, cs).Ok? && p <= |out| && out[p..] == Records(f, cs).value
    ensures Kinds(ChunksFrom(out, p, |out|)) == Kinds(Kept(cs))
    decreases |cs|
  {
    if cs == [] {
      assert ChunksFrom(out, p, |out|) == [] && Kept(cs) == [];
      assert Kinds(ChunksFrom(out, p, |out|)) == Kinds(Kept(cs));
    } else if IsMetadata(cs[0]) {
      assert Kept(cs) == Kept(cs[1..]);
      WalkOfRecords(f, cs[1..], p, out);
      assert Kinds(ChunksFrom(out, p, |out|)) == Kinds(Kept(cs));
    } else {
      var c := cs[0];
      var d, rest := RecordFront(f, cs);
      RecordHeader(c, d, rest, p, out);
      var next := p + 8 + c.size;
      RecordsSize(f, cs[1..]);
      assert Kept(cs) == [c] + Kept(cs[1..]);
      if next < |out| {
        WalkOfRecords(f, cs[1..], next, out);
      } else {
        assert rest == [] && Kept(cs[1..]) == [];
      }
      KeptStep(out, p, c, Kept(cs[1..]));
    }
  }

  /**
   * The walk over the header of a kept chunk at `p` finds that chunk, then
   * goes on where its payload ends and finds there what `later` holds.
   */
  lemma KeptStep(out: seq<byte>, p: nat, c: Chunk, later: seq<Chunk>)
    requires WellFormed(c) && p + 8 + c.size <= |out|
    requires out[p..p + 4] == c.fourC && LE(out[p + 4..p + 8]) == c.size
    requires p + 8 + c.size < |out| ==> Kinds(ChunksFrom(out, p + 8 + c.size, |out|)) == Kinds(later)
    requires p + 8 + c.size == |out| ==> later == []
    ensures Kinds(ChunksFrom(out, p, |out|)) == Kinds([c] + later)
  {
    var h := out[p..p + 8];
    var walked := ChunkStep(out, p, |out|, h);
    assert h[..4] == c.fourC && h[4..8] == out[p + 4..p + 8];
    var first := Chunk(c.fourC, c.size, p);
    assert ChunkAt(p, h) == first;
    KindsCons(first, walked);
    KindsCons(c, later);
  }

  /** The records of a kept first chunk: its record, then the records of the rest. */
  lemma RecordFront(f: seq<byte>, cs: seq<Chunk>) returns (d: seq<byte>, rest: seq<byte>)
    requires cs != [] && !IsMetadata(cs[0]) && Records(f, cs).Ok?
    ensures GetData(f, cs[0]) == Ok(d) && |d| == cs[0].size
    ensures Records(f, cs[1..]) == Ok(rest) && Records(f, cs).value == Record(cs[0], d) + rest
  {
    d := GetData(f, cs[0]).value;
    rest := Records(f, cs[1..]).value;
  }

  /** A record placed at `p` reads back, through its header, as the chunk it records, and the rest follows it. */
  lemma RecordHeader(c: Chunk, d: seq<byte>, rest: seq<byte>, p: nat, out: seq<byte>)
    requires WellFormed(c) && |d| == c.size && p <= |out| && out[p..] == Record(c, d) + rest
    ensures p + 8 <= |out|
    ensures out[p..p + 4] == c.fourC && LE(out[p + 4..p + 8]) == c.size
    ensures |out| == p + 8 + c.size + |rest| && out[p + 8 + c.size..] == rest
  {
    var r := Record(c, d);
    assert out[p..p + 4] == r[..4] == c.fourC;
    assert out[p + 4..p + 8] == r[4..8] == LEBytes(c.size, 4);
    Pow256Widths();
    LEBytesRoundTrip(c.size, 4);
    assert out[p + 8 + c.size..] == out[p..][|r|..];
  }

  lemma KindsCons(c: Chunk, cs: seq<Chunk>)
    ensures Kinds([c] + cs) == [(c.fourC, c.size)] + Kinds(cs)
  {
    assert ([c] + cs)[1..] == cs;
  }

  /** The records are empty exactly when no chunk is kept. */
  lemma {:induction false} RecordsSize(f: seq<byte>, cs: seq<Chunk>)
    requires forall k :: 0 <= k < |cs| ==> WellFormed(cs[k])
    requires Records(f, cs).Ok?
    ensures Kept(cs) == [] <==> Records(f, cs).value == []
    decreases |cs|
  {
    if cs != [] {
      if IsMetadata(cs[0]) {
        assert Kept(cs) == [] + Kept(cs[1..]);
        RecordsSize(f, cs[1..]);
      } else {
        var d, rest := RecordFront(f, cs);
        assert Kept(cs) == [cs[0]] + Kept(cs[1..]);
      }
    }
  }
}
