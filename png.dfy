/**
 * PNG: the signature check, the chunk walk (section 5.3 of ISO/IEC 15948),
 * the keyword/value split of a tEXt chunk, the keyword map over all tEXt
 * chunks, and the rewrite that drops every tEXt chunk.
 */
module Png {
  import opened Bytes

  /** 89 50 4E 47 0D 0A 1A 0A */
  const Signature: seq<byte> := [0x89, 0x50, 0x4E, 0x47, 0x0D, 0x0A, 0x1A, 0x0A]
  /** "tEXt" */
  const Text: seq<byte> := [0x74, 0x45, 0x58, 0x74]
  const ReadFailed := "failed to read file"
  const NegativeOffset := "negative offset"
  const Eof := "EOF"

  /** IsPNG: the eight bytes at `startOffset` are the signature; a short read is an error. */
  function IsPNG(f: seq<byte>, startOffset: int): (r: Result<bool>)
    ensures r.Failure? <==> startOffset < 0 || startOffset + 8 > |f|
    ensures r.Ok? ==> (r.value <==> forall k :: 0 <= k < 8 ==> f[startOffset + k] == Signature[k])
  {
    match ReadAt(f, startOffset, 8)
    case Data(magicBytes) =>
      assert forall k :: 0 <= k < 8 ==> magicBytes[k] == f[startOffset + k];
      Ok(magicBytes == Signature)
    case _ => Failure(ReadFailed)
  }

  // ---- the chunk walk ----

  /** A chunk as the walk records it: its length field, its type bytes and where its header starts. */
  datatype Chunk = Chunk(length: nat, chunkType: seq<byte>, startAt: int)

  /** The chunk an eight-byte header at `at` describes: a big-endian u32 length, then the type. */
  function ChunkAt(at: int, h: seq<byte>): (c: Chunk)
    requires |h| == 8
    ensures c.startAt == at && c.chunkType == h[4..8] && c.length < 0x1_0000_0000
  {
    BEBound(h[0..4]);
    Pow256Widths();
    Chunk(BE(h[0..4]), h[4..8], at)
  }

  /** The walk as a linked list of chunks: each link records one header; the list stops where the walk stops. */
  datatype Walk = Next(chunk: Chunk, rest: Walk) | Stop

  /**
   * The walk from `off`: the next header lies 12 + length bytes on (length
   * field, type, payload, CRC); the walk ends at a header that runs past the
   * end of the file, and right after a chunk whose successor would start at
   * or beyond `end`.
   */
  function WalkFrom(f: seq<byte>, off: int, end: int): Walk
    decreases |f| - off
  {
    match ReadAt(f, off, 8)
    case Data(h) =>
      var c := ChunkAt(off, h);
      Next(c, if off + 12 + c.length >= end then Stop else WalkFrom(f, off + 12 + c.length, end))
    case _ => Stop
  }

  /** The chunks of a walk, in order. */
  function Chunks(w: Walk): seq<Chunk>
  {
    match w
    case Next(c, rest) => [c] + Chunks(rest)
    case Stop => []
  }

  /** The chunks the walk from `off` records. */
  function ChunksFrom(f: seq<byte>, off: int, end: int): seq<Chunk>
  {
    Chunks(WalkFrom(f, off, end))
  }

  /** GetChunks: the walk from just after the signature, bounded by `startOffset + length`. */
  method GetChunks(f: seq<byte>, startOffset: int, length: int) returns (r: Result<seq<Chunk>>)
    ensures r.Failure? <==> startOffset + 8 < 0
    ensures r.Ok? ==> r.value == ChunksFrom(f, startOffset + 8, startOffset + length)
  {
    var result: seq<Chunk> := [];
    var offset := startOffset + 8;
    while true
      invariant Chunks(WalkFrom(f, startOffset + 8, startOffset + length)) == result + Chunks(WalkFrom(f, offset, startOffset + length))
      invariant startOffset + 8 >= 0 || offset == startOffset + 8
      decreases |f| - offset
    {
      match ReadAt(f, offset, 8) {
        case EndOfFile =>
          assert result + [] == result;
          return Ok(result);
        case BadOffset =>
          return Failure(NegativeOffset);
        case Data(header) =>
          var done;
          result, offset, done := NextChunk(f, offset, startOffset + length, header, result);
          if done {
            return Ok(result);
          }
      }
    }
  }

  /**
   * One round of GetChunks' loop: the chunk the header describes appended,
   * the offset of the next header, and whether that offset reached `end`.
   */
  method NextChunk(f: seq<byte>, offset: int, end: int, h: seq<byte>, result: seq<Chunk>)
    returns (result': seq<Chunk>, next: int, done: bool)
    requires ReadAt(f, offset, 8) == Data(h)
    ensures offset < next
    ensures done ==> result + Chunks(WalkFrom(f, offset, end)) == result'
    ensures !done ==> result + Chunks(WalkFrom(f, offset, end)) == result' + Chunks(WalkFrom(f, next, end))
  {
    var chunk := Chunk(BE(h[0..4]), h[4..8], offset);
    next := offset + 12 + chunk.length;
    done := next >= end;
    ghost var rest := WalkStep(f, offset, end, h);
    result' := result + [chunk];
    assert result + ([chunk] + Chunks(rest)) == result' + Chunks(rest);
    assert result' + [] == result';
  }

  /** One link of the walk: the header at `off` and the walk after it. */
  lemma WalkStep(f: seq<byte>, off: int, end: int, h: seq<byte>) returns (rest: Walk)
    requires ReadAt(f, off, 8) == Data(h)
    ensures var len := BE(h[0..4]);
      rest == (if off + 12 + len >= end then Stop else WalkFrom(f, off + 12 + len, end))
      && WalkFrom(f, off, end) == Next(Chunk(len, h[4..8], off), rest)
  {
    var c := ChunkAt(off, h);
    rest := if off + 12 + c.length >= end then Stop else WalkFrom(f, off + 12 + c.length, end);
  }

  /** The same step over the chunk sequences. */
  lemma ChunkStep(f: seq<byte>, off: int, end: int, h: seq<byte>) returns (rest: seq<Chunk>)
    requires ReadAt(f, off, 8) == Data(h)
    ensures var len := BE(h[0..4]);
      rest == (if off + 12 + len >= end then [] else ChunksFrom(f, off + 12 + len, end))
      && ChunksFrom(f, off, end) == [Chunk(len, h[4..8], off)] + rest
  {
    var w := WalkStep(f, off, end, h);
    rest := Chunks(w);
  }

  /** The walk from `off` is empty exactly when no header can be read there, and otherwise starts there. */
  lemma WalkHead(f: seq<byte>, off: int, end: int)
    ensures var cs := ChunksFrom(f, off, end);
      (cs == [] <==> off < 0 || off + 8 > |f|) && (|cs| > 0 ==> cs[0].startAt == off)
  {
    if 0 <= off && off + 8 <= |f| {
      var rest := ChunkStep(f, off, end, f[off..off + 8]);
    } else {
      assert WalkFrom(f, off, end) == Stop;
    }
  }

  /** Each header of the walk lies in the file and is what its bytes say. */
  lemma {:induction false} ChunksPlaced(f: seq<byte>, off: int, end: int)
    ensures var cs := ChunksFrom(f, off, end); forall k :: 0 <= k < |cs| ==> Placed(f, cs[k])
    decreases |f| - off
  {
    if 0 <= off && off + 8 <= |f| {
      var h := f[off..off + 8];
      var rest := ChunkStep(f, off, end, h);
      var next := off + 12 + ChunkAt(off, h).length;
      if next < end {
        ChunksPlaced(f, next, end);
      }
    } else {
      assert WalkFrom(f, off, end) == Stop;
    }
  }

  /** Each next chunk of the walk starts 12 + length after the previous one, and before `end`. */
  lemma {:induction false} ChunksFollow(f: seq<byte>, off: int, end: int)
    ensures var cs := ChunksFrom(f, off, end);
      forall k :: 0 < k < |cs| ==> cs[k].startAt == cs[k - 1].startAt + 12 + cs[k - 1].length && cs[k].startAt < end
    decreases |f| - off
  {
    if 0 <= off && off + 8 <= |f| {
      var h := f[off..off + 8];
      var rest := ChunkStep(f, off, end, h);
      var next := off + 12 + ChunkAt(off, h).length;
      if next < end {
        WalkHead(f, next, end);
        ChunksFollow(f, next, end);
      }
    } else {
      assert WalkFrom(f, off, end) == Stop;
    }
  }

  /** `c` is the chunk its header bytes in `f` describe. */
  predicate Placed(f: seq<byte>, c: Chunk)
  {
    0 <= c.startAt && c.startAt + 8 <= |f| && c == ChunkAt(c.startAt, f[c.startAt..c.startAt + 8])
  }

  // ---- tEXt ----

  predicate IsText(c: Chunk)
  {
    c.chunkType == Text
  }

  /** The payload ParseText reads: `length` bytes after the header, zero past the end of the file. */
  function Payload(f: seq<byte>, c: Chunk): seq<byte>
    requires c.startAt >= 0
  {
    ReadPadded(f, c.startAt + 8, c.length)
  }

  /** Where the first NUL of `data` is. */
  function FirstNul(data: seq<byte>): (i: nat)
    requires 0 in data
    ensures i < |data| && data[i] == 0 && forall j :: 0 <= j < i ==> data[j] != 0
  {
    if data[0] == 0 then 0
    else
      assert data == [data[0]] + data[1..];
      FirstNul(data[1..]) + 1
  }

  /** The first NUL is the only NUL with none before it. */
  lemma FirstNulIs(data: seq<byte>, i: nat)
    requires 0 in data && i <= |data| && forall j :: 0 <= j < i ==> data[j] != 0
    requires i < |data| ==> data[i] == 0
    ensures i == FirstNul(data)
  {
    var n := FirstNul(data);
  }

  /** A tEXt payload split at its first NUL: the keyword before it, the value after it. */
  function SplitText(data: seq<byte>): (seq<byte>, seq<byte>)
    requires 0 in data
  {
    var i := FirstNul(data);
    (data[..i], data[i + 1..])
  }

  /** The payload is the keyword, a NUL and the value, and the keyword holds no NUL. */
  lemma SplitJoins(data: seq<byte>)
    requires 0 in data
    ensures data == SplitText(data).0 + [0] + SplitText(data).1
    ensures 0 !in SplitText(data).0
  {
    var i := FirstNul(data);
    assert data == data[..i] + [data[i]] + data[i + 1..];
  }

  /** A keyword without a NUL, a NUL and any value split back into that keyword and value. */
  lemma JoinSplits(keyword: seq<byte>, value: seq<byte>)
    requires 0 !in keyword
    ensures 0 in keyword + [0] + value
    ensures SplitText(keyword + [0] + value) == (keyword, value)
  {
    var data := keyword + [0] + value;
    assert data[|keyword|] == 0;
    var i := FirstNul(data);
    assert forall j :: 0 <= j < |keyword| ==> data[j] == keyword[j];
    assert i == |keyword|;
    assert data[..i] == keyword;
    assert data[i + 1..] == value;
  }

  /** ParseText: the payload scanned up to its first NUL; a payload without one makes the slice after it panic. */
  method ParseText(f: seq<byte>, c: Chunk) returns (keyword: seq<byte>, value: seq<byte>)
    requires c.startAt >= 0 && 0 in Payload(f, c)
    ensures (keyword, value) == SplitText(Payload(f, c))
  {
    var data := ReadPadded(f, c.startAt + 8, c.length);
    var i := 0;
    while i < |data|
      invariant 0 <= i <= |data|
      invariant forall j :: 0 <= j < i ==> data[j] != 0
    {
      if data[i] == 0 {
        break;
      }
      i := i + 1;
    }
    FirstNulIs(data, i);
    keyword := data[0..i];
    value := data[i + 1..];
  }

  /** Every tEXt chunk of `cs` can be split. */
  predicate TextReadable(f: seq<byte>, cs: seq<Chunk>)
  {
    forall k :: 0 <= k < |cs| && IsText(cs[k]) ==> cs[k].startAt >= 0 && 0 in Payload(f, cs[k])
  }

  /** The (keyword, value) pairs of the tEXt chunks of `cs`, in order. */
  function Entries(f: seq<byte>, cs: seq<Chunk>): seq<(seq<byte>, seq<byte>)>
    requires TextReadable(f, cs)
    decreases |cs|
  {
    if cs == [] then []
    else
      var c := cs[|cs| - 1];
      Entries(f, cs[..|cs| - 1]) + (if IsText(c) then [SplitText(Payload(f, c))] else [])
  }

  /** A map filled from `es` in order: a later keyword replaces an earlier one. */
  function MapOf(es: seq<(seq<byte>, seq<byte>)>): map<seq<byte>, seq<byte>>
  {
    if es == [] then map[]
    else MapOf(es[..|es| - 1])[es[|es| - 1].0 := es[|es| - 1].1]
  }

  /** The keyword map GetTextData builds over the chunks `cs`. */
  function TextMap(f: seq<byte>, cs: seq<Chunk>): map<seq<byte>, seq<byte>>
    requires TextReadable(f, cs)
  {
    MapOf(Entries(f, cs))
  }

  /** A keyword is in the map exactly when some pair carries it. */
  lemma {:induction false} MapOfKeys(es: seq<(seq<byte>, seq<byte>)>, key: seq<byte>)
    ensures key in MapOf(es) <==> exists k :: 0 <= k < |es| && es[k].0 == key
    decreases |es|
  {
    if es != [] {
      var n := |es| - 1;
      var init := es[..n];
      assert es == init + [es[n]];
      MapOfSnoc(init, es[n]);
      MapOfKeys(init, key);
      if es[n].0 != key && exists k :: 0 <= k < |es| && es[k].0 == key {
        var k :| 0 <= k < |es| && es[k].0 == key;
        assert init[k].0 == key;
      }
    }
  }

  /** The value of a keyword in the map is the one of the last pair that carries it. */
  lemma {:induction false} MapOfLast(es: seq<(seq<byte>, seq<byte>)>, key: seq<byte>)
    requires key in MapOf(es)
    ensures exists k :: 0 <= k < |es| && es[k].0 == key && MapOf(es)[key] == es[k].1 && (forall j :: k < j < |es| ==> es[j].0 != key)
    decreases |es|
  {
    var n := |es| - 1;
    var init := es[..n];
    assert es == init + [es[n]];
    MapOfSnoc(init, es[n]);
    if es[n].0 == key {
      assert es[n].0 == key && MapOf(es)[key] == es[n].1;
    } else {
      MapOfLast(init, key);
      var k :| 0 <= k < n && init[k].0 == key && MapOf(init)[key] == init[k].1 && (forall j :: k < j < n ==> init[j].0 != key);
      assert es[k].0 == key && MapOf(es)[key] == es[k].1;
    }
  }

  /** There are no more pairs than chunks, and none exactly when no chunk is tEXt. */
  lemma {:induction false} EntriesCount(f: seq<byte>, cs: seq<Chunk>)
    requires TextReadable(f, cs)
    ensures |Entries(f, cs)| <= |cs|
    ensures (forall k :: 0 <= k < |cs| ==> !IsText(cs[k])) <==> Entries(f, cs) == []
    decreases |cs|
  {
    if cs != [] {
      var n := |cs| - 1;
      var init := cs[..n];
      EntriesStep(f, cs, n);
      assert cs[..n + 1] == cs;
      assert forall k :: 0 <= k < n ==> init[k] == cs[k];
      EntriesCount(f, init);
    }
  }

  /** The pairs are the split payloads of the tEXt chunks, and only of those. */
  lemma {:induction false} EntriesOfText(f: seq<byte>, cs: seq<Chunk>)
    requires TextReadable(f, cs)
    ensures forall k :: 0 <= k < |cs| && IsText(cs[k]) ==> SplitText(Payload(f, cs[k])) in Entries(f, cs)
    ensures forall e :: e in Entries(f, cs) ==>
      exists k :: 0 <= k < |cs| && IsText(cs[k]) && e == SplitText(Payload(f, cs[k]))
    decreases |cs|
  {
    if cs != [] {
      var n := |cs| - 1;
      var init := cs[..n];
      EntriesStep(f, cs, n);
      assert cs[..n + 1] == cs;
      assert forall k :: 0 <= k < n ==> init[k] == cs[k];
      EntriesOfText(f, init);
      forall e | e in Entries(f, cs)
        ensures exists k :: 0 <= k < |cs| && IsText(cs[k]) && e == SplitText(Payload(f, cs[k]))
      {
        if e !in Entries(f, init) {
          assert IsText(cs[n]) && e == SplitText(Payload(f, cs[n]));
        }
      }
    }
  }

  /** The walk GetTextData reads never makes ParseText panic. */
  predicate TextSafe(f: seq<byte>, startOffset: int, length: int)
  {
    startOffset + 8 >= 0 ==> TextReadable(f, ChunksFrom(f, startOffset + 8, startOffset + length))
  }

  /** GetTextData: the keyword map of the tEXt chunks of the walk. */
  method GetTextData(f: seq<byte>, startOffset: int, length: int) returns (r: Result<map<seq<byte>, seq<byte>>>)
    requires TextSafe(f, startOffset, length)
    ensures r.Failure? <==> startOffset + 8 < 0
    ensures r.Ok? ==> r.value == TextMap(f, ChunksFrom(f, startOffset + 8, startOffset + length))
  {
    var chunks := GetChunks(f, startOffset, length);
    if chunks.Failure? {
      return Failure(chunks.msg);
    }
    var cs := chunks.value;
    var result: map<seq<byte>, seq<byte>> := map[];
    var i := 0;
    while i < |cs|
      invariant 0 <= i <= |cs|
      invariant TextReadable(f, cs[..i]) && result == MapOf(Entries(f, cs[..i]))
    {
      result := AddText(f, cs, i, result);
      i := i + 1;
    }
    assert cs[..|cs|] == cs;
    return Ok(result);
  }

  /** One round of GetTextData's loop: a tEXt chunk's keyword set to its value, any other chunk skipped. */
  method AddText(f: seq<byte>, cs: seq<Chunk>, i: nat, result: map<seq<byte>, seq<byte>>)
    returns (result': map<seq<byte>, seq<byte>>)
    requires i < |cs| && TextReadable(f, cs)
    requires TextReadable(f, cs[..i]) && result == MapOf(Entries(f, cs[..i]))
    ensures TextReadable(f, cs[..i + 1]) && result' == MapOf(Entries(f, cs[..i + 1]))
  {
    var chunk := cs[i];
    EntriesStep(f, cs, i);
    if chunk.chunkType == Text {
      var keyword, value := ParseText(f, chunk);
      MapOfSnoc(Entries(f, cs[..i]), (keyword, value));
      result' := result[keyword := value];
    } else {
      assert Entries(f, cs[..i]) + [] == Entries(f, cs[..i]);
      result' := result;
    }
  }

  /** The pairs of one more chunk: those before it, then its own when it is tEXt. */
  lemma EntriesStep(f: seq<byte>, cs: seq<Chunk>, i: nat)
    requires i < |cs| && TextReadable(f, cs)
    ensures TextReadable(f, cs[..i]) && TextReadable(f, cs[..i + 1])
    ensures Entries(f, cs[..i + 1]) == Entries(f, cs[..i]) + (if IsText(cs[i]) then [SplitText(Payload(f, cs[i]))] else [])
  {
    assert cs[..i + 1][..i] == cs[..i];
  }

  /** One more pair sets its keyword to its value. */
  lemma MapOfSnoc(es: seq<(seq<byte>, seq<byte>)>, e: (seq<byte>, seq<byte>))
    ensures MapOf(es + [e]) == MapOf(es)[e.0 := e.1]
  {
    assert (es + [e])[..|es|] == es;
  }

  // ---- removing the textual data ----

  /** How many bytes the rewrite copies for a chunk: 12 + length, computed in 32 bits. */
  function CopySize(c: Chunk): nat
  {
    (c.length + 12) % 0x1_0000_0000
  }

  /** The bytes written for `cs`: every chunk but the tEXt ones, whole and in order; a failed read stops the rewrite. */
  function KeptBytes(f: seq<byte>, cs: seq<Chunk>): Result<seq<byte>>
    decreases |cs|
  {
    if cs == [] then Ok([])
    else if IsText(cs[0]) then KeptBytes(f, cs[1..])
    else
      match ReadAt(f, cs[0].startAt, CopySize(cs[0]))
      case Data(d) => Prefixed(d, KeptBytes(f, cs[1..]))
      case _ => Failure(Eof)
  }

  /** The file RemoveTextData writes: the signature, then the kept chunks of the walk from offset 0 over the whole file. */
  function Removed(f: seq<byte>): Result<seq<byte>>
  {
    Prefixed(Signature, KeptBytes(f, ChunksFrom(f, 8, |f|)))
  }

  /** RemoveTextData: the signature and every chunk but the tEXt ones, copied whole, in file order. */
  method RemoveTextData(f: seq<byte>) returns (r: Result<seq<byte>>)
    ensures r == Removed(f)
  {
    var chunks := GetChunks(f, 0, |f|);
    var cs := chunks.value;
    var out := Signature;
    var i := 0;
    while i < |cs|
      invariant 0 <= i <= |cs|
      invariant Removed(f) == Prefixed(out, KeptBytes(f, cs[i..]))
    {
      var chunk := cs[i];
      assert cs[i..][1..] == cs[i + 1..];
      if chunk.chunkType != Text {
        var chunkData := ReadAt(f, chunk.startAt, CopySize(chunk));
        if !chunkData.Data? {
          return Failure(Eof);
        }
        PrefixedTwice(out, chunkData.bytes, KeptBytes(f, cs[i + 1..]));
        out := out + chunkData.bytes;
      }
      i := i + 1;
    }
    assert out + [] == out;
    return Ok(out);
  }

  /** The chunks of `cs` that are not tEXt, in order. */
  function Kept(cs: seq<Chunk>): seq<Chunk>
  {
    if cs == [] then [] else (if IsText(cs[0]) then [] else [cs[0]]) + Kept(cs[1..])
  }

  /** The length and type of each chunk, in order: what a walk sees independently of where the chunks sit. */
  function Kinds(cs: seq<Chunk>): seq<(nat, seq<byte>)>
  {
    if cs == [] then [] else [(cs[0].length, cs[0].chunkType)] + Kinds(cs[1..])
  }

  /**
   * Clear as Handle performs it: nothing is rewritten when the walk from
   * `startOffset` finds no textual data; otherwise the file becomes what
   * RemoveTextData writes.
   */
  function Clear(f: seq<byte>, startOffset: int, length: int): Result<Option<seq<byte>>>
    requires TextSafe(f, startOffset, length)
  {
    if startOffset + 8 < 0 then Failure(NegativeOffset)
    else if |TextMap(f, ChunksFrom(f, startOffset + 8, startOffset + length))| == 0 then Ok(None)
    else
      match Removed(f)
      case Ok(out) => Ok(Some(out))
      case Failure(e) => Failure(e)
  }

  /** No chunk of the walk over `f` is so long that 12 + length wraps around in 32 bits. */
  predicate NoWrap(f: seq<byte>)
  {
    var cs := ChunksFrom(f, 8, |f|);
    forall k :: 0 <= k < |cs| ==> cs[k].length + 12 < 0x1_0000_0000
  }

  /**
   * The rewritten file walks as the kept chunks, one after the other, with
   * the same lengths and types; none of them is tEXt.
   */
  lemma RemovedWalk(f: seq<byte>)
    requires Removed(f).Ok? && NoWrap(f)
    ensures var out := Removed(f).value;
      Kinds(ChunksFrom(out, 8, |out|)) == Kinds(Kept(ChunksFrom(f, 8, |f|)))
      && forall k :: 0 <= k < |ChunksFrom(out, 8, |out|)| ==> !IsText(ChunksFrom(out, 8, |out|)[k])
  {
    var cs := ChunksFrom(f, 8, |f|);
    var out := Removed(f).value;
    ChunksPlaced(f, 8, |f|);
    assert out[8..] == KeptBytes(f, cs).value;
    WalkOfKept(f, cs, 8, out);
    KeptHasNoText(cs);
    KindsAgree(ChunksFrom(out, 8, |out|), Kept(cs));
  }

  /** Clearing a file a second time rewrites nothing: the first rewrite left no textual data. */
  lemma ClearTwice(f: seq<byte>, startOffset: int, length: int)
    requires TextSafe(f, startOffset, length) && NoWrap(f)
    requires Clear(f, startOffset, length).Ok? && Clear(f, startOffset, length).value.Some?
    ensures var out := Clear(f, startOffset, length).value.value;
      TextSafe(out, 0, |out|) && Clear(out, 0, |out|) == Ok(None)
  {
    var out := Removed(f).value;
    RemovedWalk(f);
    var ws := ChunksFrom(out, 8, |out|);
    assert TextReadable(out, ws);
    EntriesCount(out, ws);
  }

  lemma {:induction false} KeptHasNoText(cs: seq<Chunk>)
    ensures forall k :: 0 <= k < |Kept(cs)| ==> !IsText(Kept(cs)[k])
    decreases |cs|
  {
    if cs != [] {
      KeptHasNoText(cs[1..]);
    }
  }

  lemma {:induction false} KindsAgree(a: seq<Chunk>, b: seq<Chunk>)
    requires Kinds(a) == Kinds(b)
    ensures |a| == |b| && forall k :: 0 <= k < |a| ==> a[k].chunkType == b[k].chunkType && a[k].length == b[k].length
    decreases |a|
  {
    if a != [] && b != [] {
      assert Kinds(a)[0] == Kinds(b)[0];
      assert Kinds(a)[1..] == Kinds(a[1..]);
      assert Kinds(b)[1..] == Kinds(b[1..]);
      KindsAgree(a[1..], b[1..]);
    }
  }

  /**
   * Walking bytes that hold, from `p` to the end, the kept chunks of `cs`
   * copied whole finds those chunks again.
   */
  lemma {:induction false} WalkOfKept(f: seq<byte>, cs: seq<Chunk>, p: nat, out: seq<byte>)
    requires forall k :: 0 <= k < |cs| ==> Placed(f, cs[k]) && cs[k].length + 12 < 0x1_0000_0000
    requires KeptBytes(f, cs).Ok? && p <= |out| && out[p..] == KeptBytes(f, cs).value
    ensures Kinds(ChunksFrom(out, p, |out|)) == Kinds(Kept(cs))
    decreases |cs|
  {
    if cs == [] {
      assert ReadAt(out, p, 8).EndOfFile?;
    } else if IsText(cs[0]) {
      assert Kept(cs) == [] + Kept(cs[1..]);
      WalkOfKept(f, cs[1..], p, out);
      assert Kept(cs) == Kept(cs[1..]);
      assert Kinds(ChunksFrom(out, p, |out|)) == Kinds(Kept(cs[1..]));
    } else {
      var c := cs[0];
      var h, rest := CopiedHead(f, cs, p, out);
      var walked := ChunkStep(out, p, |out|, h);
      var next := p + 12 + c.length;
      KeptSize(f, cs[1..]);
      assert Kept(cs) == [c] + Kept(cs[1..]);
      KindsCons(c, Kept(cs[1..]));
      KindsCons(Chunk(c.length, c.chunkType, p), walked);
      if next < |out| {
        WalkOfKept(f, cs[1..], next, out);
      } else {
        assert walked == [] && Kept(cs[1..]) == [];
      }
      assert Kinds(walked) == Kinds(Kept(cs[1..]));
    }
  }

  /** The first kept chunk, copied whole to `p`, brings its header along, and the later kept chunks follow it. */
  lemma CopiedHead(f: seq<byte>, cs: seq<Chunk>, p: nat, out: seq<byte>) returns (h: seq<byte>, rest: seq<byte>)
    requires cs != [] && !IsText(cs[0]) && Placed(f, cs[0]) && cs[0].length + 12 < 0x1_0000_0000
    requires KeptBytes(f, cs).Ok? && p <= |out| && out[p..] == KeptBytes(f, cs).value
    ensures ReadAt(out, p, 8) == Data(h) && BE(h[0..4]) == cs[0].length && h[4..8] == cs[0].chunkType
    ensures KeptBytes(f, cs[1..]) == Ok(rest)
    ensures |out| == p + 12 + cs[0].length + |rest| && out[p + 12 + cs[0].length..] == rest
  {
    var d;
    d, rest := KeptFront(f, cs);
    h := CopiedHeader(f, cs[0].startAt, d, rest, p, out);
    AfterPrefix(out, p, d, rest);
  }

  /** What follows a prefix `d` placed at `p`. */
  lemma AfterPrefix(out: seq<byte>, p: nat, d: seq<byte>, rest: seq<byte>)
    requires p <= |out| && out[p..] == d + rest
    ensures |out| == p + |d| + |rest| && out[p + |d|..] == rest
  {
    assert out[p + |d|..] == out[p..][|d|..];
  }

  /** The bytes kept for a non-tEXt first chunk: that chunk read whole, then the rest. */
  lemma KeptFront(f: seq<byte>, cs: seq<Chunk>) returns (d: seq<byte>, rest: seq<byte>)
    requires cs != [] && !IsText(cs[0]) && cs[0].length + 12 < 0x1_0000_0000
    requires KeptBytes(f, cs).Ok?
    ensures ReadAt(f, cs[0].startAt, 12 + cs[0].length) == Data(d)
    ensures KeptBytes(f, cs[1..]) == Ok(rest) && KeptBytes(f, cs).value == d + rest
  {
    assert CopySize(cs[0]) == 12 + cs[0].length;
    d := ReadAt(f, cs[0].startAt, CopySize(cs[0])).bytes;
    rest := KeptBytes(f, cs[1..]).value;
  }

  /** A chunk copied to `p` brings its 8 header bytes along. */
  lemma CopiedHeader(f: seq<byte>, at: int, d: seq<byte>, rest: seq<byte>, p: nat, out: seq<byte>) returns (h: seq<byte>)
    requires |d| >= 12 && ReadAt(f, at, |d|) == Data(d)
    requires p <= |out| && out[p..] == d + rest
    ensures p + 8 <= |out| && 0 <= at && at + 8 <= |f|
    ensures h == out[p..p + 8] && h == f[at..at + 8]
  {
    h := out[p..p + 8];
    forall i | 0 <= i < 8
      ensures h[i] == f[at + i]
    {
      assert h[i] == out[p..][i] == d[i];
    }
  }

  lemma KindsCons(c: Chunk, cs: seq<Chunk>)
    ensures Kinds([c] + cs) == [(c.length, c.chunkType)] + Kinds(cs)
  {
    assert ([c] + cs)[1..] == cs;
  }

  /** The kept bytes are empty exactly when no chunk is kept, and at least one whole header long otherwise. */
  lemma {:induction false} KeptSize(f: seq<byte>, cs: seq<Chunk>)
    requires forall k :: 0 <= k < |cs| ==> cs[k].length + 12 < 0x1_0000_0000
    requires KeptBytes(f, cs).Ok?
    ensures Kept(cs) == [] ==> KeptBytes(f, cs).value == []
    ensures Kept(cs) != [] ==> |KeptBytes(f, cs).value| >= 12
    decreases |cs|
  {
    if cs != [] {
      if IsText(cs[0]) {
        assert Kept(cs) == [] + Kept(cs[1..]);
        KeptSize(f, cs[1..]);
      } else {
        var d, rest := KeptFront(f, cs);
        assert Kept(cs) == [cs[0]] + Kept(cs[1..]);
      }
    }
  }
}
