/**
 * FLAC: the chain of metadata blocks after the "fLaC" marker (section 8.1
 * of RFC 9639), the Vorbis comment block (section 8.6 of RFC 9639), and
 * the in-place conversion of a block into padding.
 */
module Flac {
  import opened Bytes

  /** "fLaC" */
  const Magic: seq<byte> := [0x66, 0x4C, 0x61, 0x43]
  const ReadFailed := "failed to read file"
  const NotVorbisComment := "this metadata type doesn't contain Vorbis Comment"
  const VorbisCommentType: byte := 4
  const PaddingType: byte := 1

  /** IsFLAC: the four bytes at `startOffset` are the marker; a short read is an error. */
  function IsFLAC(f: seq<byte>, startOffset: int): (r: Result<bool>)
    ensures r.Failure? <==> startOffset < 0 || startOffset + 4 > |f|
    ensures r.Ok? ==> (r.value <==> forall k :: 0 <= k < 4 ==> f[startOffset + k] == Magic[k])
  {
    match ReadAt(f, startOffset, 4)
    case Data(magicBytes) =>
      assert forall k :: 0 <= k < 4 ==> magicBytes[k] == f[startOffset + k];
      Ok(magicBytes == Magic)
    case _ => Failure(ReadFailed)
  }

  // ---- the block chain ----

  /** A metadata block header: where it starts, its 7-bit type, its 24-bit payload length and its last-block flag. */
  datatype Block = Block(startAt: int, blockType: byte, length: nat, last: bool)

  /**
   * The chain a walk follows: a block and the chain after it, the end
   * after the last block, or the error that stopped the walk.
   */
  datatype Chain = Link(block: Block, rest: Chain) | End | Failed(msg: string)

  /** The blocks of a chain, in order. */
  function Blocks(c: Chain): seq<Block>
  {
    match c
    case Link(b, rest) => [b] + Blocks(rest)
    case _ => []
  }

  /** The error a chain ends in, if it does. */
  function Error(c: Chain): Option<string>
  {
    match c
    case Link(_, rest) => Error(rest)
    case End => None
    case Failed(msg) => Some(msg)
  }

  /** The block a four-byte header at `at` describes: the low seven bits of byte 0, the big-endian bytes 1..3. */
  function HeaderBlock(at: int, h: seq<byte>): (b: Block)
    requires |h| == 4
    ensures b.startAt == at && b.blockType < 128 && b.length < 0x100_0000
    ensures b.last <==> h[0] >= 128
  {
    BEBound(h[1..4]);
    assert Pow256(3) == 0x100_0000;
    Block(at, h[0] % 128, BE(h[1..4]), h[0] >= 128)
  }

  /** The header at `off`, if four bytes can be read there. */
  function Header(f: seq<byte>, off: int): (r: Option<Block>)
    ensures r.Some? <==> 0 <= off && off + 4 <= |f|
    ensures r.Some? ==> r.value == HeaderBlock(off, f[off..off + 4])
  {
    match ReadAt(f, off, 4)
    case Data(h) => Some(HeaderBlock(off, h))
    case _ => None
  }

  /**
   * The chain from `off` as the headers lay it out: each block is followed
   * by the next header 4 + length bytes on, the block whose header has the
   * top bit set is the last, and a header that cannot be read ends the walk
   * with an error. Each block's last flag is its header's top bit.
   */
  function Walk(f: seq<byte>, off: int): Chain
    decreases |f| - off
  {
    match Header(f, off)
    case Some(b) => Link(b, if b.last then End else Walk(f, off + 4 + b.length))
    case None => Failed(ReadFailed)
  }

  /** The blocks with their last flag cleared. */
  function Unmark(bs: seq<Block>): (r: seq<Block>)
    ensures |r| == |bs| && forall k :: 0 <= k < |bs| ==> r[k] == bs[k].(last := false)
  {
    seq(|bs|, k requires 0 <= k < |bs| => bs[k].(last := false))
  }

  /**
   * GetMetadata: the blocks from `startOffset + 4` up to and including the
   * one whose header has the top bit set, or up to a failed read. Every
   * block comes back with its last flag false: the flag is set on the local
   * copy after that copy was appended.
   */
  method GetMetadata(f: seq<byte>, startOffset: int) returns (blocks: seq<Block>, err: Option<string>)
    ensures blocks == Unmark(Blocks(Walk(f, startOffset + 4)))
    ensures err == Error(Walk(f, startOffset + 4))
  {
    var offset := startOffset + 4;
    blocks := [];
    ghost var marked: seq<Block> := [];
    while true
      invariant Blocks(Walk(f, startOffset + 4)) == marked + Blocks(Walk(f, offset))
      invariant Error(Walk(f, startOffset + 4)) == Error(Walk(f, offset))
      invariant blocks == Unmark(marked)
      decreases |f| - offset
    {
      var header := ReadAt(f, offset, 4);
      if !header.Data? {
        assert marked + Blocks(Failed(ReadFailed)) == marked;
        return blocks, Some(ReadFailed);
      }
      var last;
      blocks, marked, offset, last := NextBlock(f, offset, header.bytes, blocks, marked);
      if last {
        return blocks, None;
      }
    }
  }

  /**
   * One round of GetMetadata's loop: the header's block appended with its
   * last flag cleared, the offset of the next header, and whether the top
   * bit of the header was set.
   */
  method NextBlock(f: seq<byte>, offset: int, h: seq<byte>, blocks: seq<Block>, ghost marked: seq<Block>)
    returns (blocks': seq<Block>, ghost marked': seq<Block>, next: int, last: bool)
    requires ReadAt(f, offset, 4) == Data(h) && blocks == Unmark(marked)
    ensures blocks' == Unmark(marked') && offset < next
    ensures !last ==> marked + Blocks(Walk(f, offset)) == marked' + Blocks(Walk(f, next))
    ensures !last ==> Error(Walk(f, offset)) == Error(Walk(f, next))
    ensures last ==> marked + Blocks(Walk(f, offset)) == marked' && Error(Walk(f, offset)).None?
  {
    var length := BE([0, h[1], h[2], h[3]]);
    LengthField(h);
    var metadata := Block(offset, h[0] % 128, length, false);
    blocks' := blocks + [metadata];
    next := offset + length + 4;
    last := h[0] / 128 == 1;
    ghost var b := WalkLink(f, offset);
    marked' := marked + [b];
    UnmarkSnoc(marked, b);
    ChainStep(marked, b, if last then End else Walk(f, next));
  }

  /** The first link of a walk that can read its header. */
  lemma WalkLink(f: seq<byte>, off: int) returns (b: Block)
    requires Header(f, off).Some?
    ensures Header(f, off) == Some(b) && b == HeaderBlock(off, f[off..off + 4])
    ensures Walk(f, off) == Link(b, if b.last then End else Walk(f, off + 4 + b.length))
  {
    b := Header(f, off).value;
  }

  /** Taking one link off a chain moves its block to the blocks already collected. */
  lemma ChainStep(marked: seq<Block>, b: Block, rest: Chain)
    ensures marked + Blocks(Link(b, rest)) == (marked + [b]) + Blocks(rest)
    ensures Error(Link(b, rest)) == Error(rest)
    ensures marked + Blocks(End) == marked
  {
  }

  /** The length field is the big-endian value of header bytes 1..3, read through a leading zero. */
  lemma LengthField(h: seq<byte>)
    requires |h| == 4
    ensures BE([0, h[1], h[2], h[3]]) == HeaderBlock(0, h).length
  {
    assert [0, h[1], h[2], h[3]] == Zeros(1) + h[1..4];
    BELeadingZeros(1, h[1..4]);
  }

  lemma UnmarkSnoc(bs: seq<Block>, b: Block)
    ensures Unmark(bs + [b]) == Unmark(bs) + [b.(last := false)]
  {
  }

  /**
   * The layout of a walk: blocks start at `off` and follow each other at
   * 4 + length, every header lies within the file, and exactly the final
   * block of a walk that ended without error is marked last.
   */
  lemma {:induction false} WalkShape(f: seq<byte>, off: int)
    ensures var bs, e := Blocks(Walk(f, off)), Error(Walk(f, off));
      (e.None? ==> |bs| > 0)
      && (|bs| > 0 ==> bs[0].startAt == off)
      && (forall k :: 0 <= k < |bs| ==> 0 <= bs[k].startAt && bs[k].startAt + 4 <= |f|)
      && (forall k :: 0 < k < |bs| ==> bs[k].startAt == bs[k - 1].startAt + 4 + bs[k - 1].length)
      && (forall k :: 0 <= k < |bs| ==> (bs[k].last <==> k == |bs| - 1 && e.None?))
    decreases |f| - off
  {
    if Header(f, off).Some? {
      var b := Header(f, off).value;
      if !b.last {
        WalkShape(f, off + 4 + b.length);
      }
    }
  }

  /**
   * What GetMetadata returns disagrees with the headers on every chain that
   * ends normally: no block is flagged last, while the final header has its
   * top bit set.
   */
  lemma LastNeverSet(f: seq<byte>, off: int)
    ensures forall b :: b in Unmark(Blocks(Walk(f, off))) ==> !b.last
    ensures var bs := Blocks(Walk(f, off));
      Error(Walk(f, off)).None? ==>
        |bs| > 0 && (var b := bs[|bs| - 1]; b.last && 0 <= b.startAt < |f| && f[b.startAt] >= 128)
  {
    WalkShape(f, off);
    var bs := Blocks(Walk(f, off));
    if Error(Walk(f, off)).None? {
      WalkHeader(f, off, bs[|bs| - 1]);
    }
  }

  /** Each block of a walk is what its own header says. */
  lemma {:induction false} WalkHeader(f: seq<byte>, off: int, m: Block)
    requires m in Blocks(Walk(f, off))
    ensures Header(f, m.startAt) == Some(m)
    decreases |f| - off
  {
    var b := Header(f, off).value;
    if m != b {
      WalkHeader(f, off + 4 + b.length, m);
    }
  }

  /** Every block of a walk starts at or after where the walk started. */
  lemma {:induction false} WalkAfter(f: seq<byte>, off: int, m: Block)
    requires m in Blocks(Walk(f, off))
    ensures m.startAt >= off
    decreases |f| - off
  {
    var b := Header(f, off).value;
    if m != b {
      WalkAfter(f, off + 4 + b.length, m);
    }
  }

  /** A walk reads nothing before its start. */
  lemma {:induction false} WalkSuffix(f: seq<byte>, g: seq<byte>, off: int)
    requires |f| == |g| && forall i :: 0 <= i < |f| && off <= i ==> f[i] == g[i]
    ensures Walk(f, off) == Walk(g, off)
    decreases |f| - off
  {
    if Header(f, off).Some? {
      assert f[off..off + 4] == g[off..off + 4];
      var b := Header(f, off).value;
      if !b.last {
        WalkSuffix(f, g, off + 4 + b.length);
      }
    }
  }

  // ---- padding ----

  /**
   * The file after rewriting the `n` bytes from a block's start: the type
   * byte becomes padding (keeping the block's last flag), the length bytes
   * stay, everything after them becomes zero. A failed read leaves the file
   * as it was and reports the error.
   */
  function Padding(f: seq<byte>, m: Block, n: nat): (r: Result<seq<byte>>)
    requires n >= 4
    ensures r.Ok? <==> 0 <= m.startAt && m.startAt + n <= |f|
    ensures r.Ok? ==> |r.value| == |f|
  {
    match ReadAt(f, m.startAt, n)
    case Data(data) =>
      var head: byte := if m.last then 0x81 else 0x01;
      Ok(Overwrite(f, m.startAt, [head] + data[1..4] + Zeros(n - 4)))
    case _ => Failure(ReadFailed)
  }

  /** ConvertToPadding as written rewrites 6 + length bytes: the header, the payload and two more. */
  function PaddedAsWritten(f: seq<byte>, m: Block): Result<seq<byte>>
  {
    Padding(f, m, 6 + m.length)
  }

  /** The conversion confined to the block itself: its header and its payload. */
  function Padded(f: seq<byte>, m: Block): Result<seq<byte>>
  {
    Padding(f, m, 4 + m.length)
  }

  /** ConvertToPadding: the file after the as-written rewrite, or unchanged with the read error. */
  method ConvertToPadding(file: array<byte>, m: Block) returns (err: Option<string>)
    modifies file
    ensures err.None? <==> PaddedAsWritten(old(file[..]), m).Ok?
    ensures file[..] == (if err.None? then PaddedAsWritten(old(file[..]), m).value else old(file[..]))
  {
    var n := 6 + m.length;
    var f := file[..];
    var read := ReadAt(f, m.startAt, n);
    if !read.Data? {
      return Some(ReadFailed);
    }
    var data := new byte[n];
    forall i | 0 <= i < n {
      data[i] := read.bytes[i];
    }
    if m.last {
      data[0] := 0x81;
    } else {
      data[0] := 0x01;
    }
    var i := 4;
    while i < data.Length
      modifies data
      invariant 4 <= i <= data.Length
      invariant data[0] == (if m.last then 0x81 else 0x01)
      invariant forall j :: 1 <= j < data.Length ==> data[j] == (if 4 <= j < i then 0 else read.bytes[j])
    {
      data[i] := 0;
      i := i + 1;
    }
    var head: byte := if m.last then 0x81 else 0x01;
    assert data[..] == [head] + read.bytes[1..4] + Zeros(n - 4);
    assert PaddedAsWritten(f, m) == Ok(Overwrite(f, m.startAt, data[..]));
    WriteAt(file, m.startAt, data[..]);
    return None;
  }

  /** The as-written rewrite zeroes the two bytes that follow the block, which belong to the next header. */
  lemma AsWrittenZeroesNextHeader(f: seq<byte>, m: Block)
    requires PaddedAsWritten(f, m).Ok?
    ensures var end := m.startAt + 4 + m.length;
      PaddedAsWritten(f, m).value[end] == 0 && PaddedAsWritten(f, m).value[end + 1] == 0
  {
  }

  /**
   * A file whose Vorbis comment (empty, at offset 4) is followed by a last
   * padding block: after the as-written rewrite the walk no longer finds
   * the last block and runs into a failed read.
   */
  lemma AsWrittenBreaksChain()
    ensures var f := Magic + [0x04, 0, 0, 0] + [0x81, 0, 0, 0];
      Walk(f, 4) == Link(Block(4, 4, 0, false), Link(Block(8, 1, 0, true), End))
      && PaddedAsWritten(f, Block(4, 4, 0, false)).Ok?
      && Error(Walk(PaddedAsWritten(f, Block(4, 4, 0, false)).value, 4)) == Some(ReadFailed)
  {
    var f := Magic + [0x04, 0, 0, 0] + [0x81, 0, 0, 0];
    OriginalChain(f);
    var m := Block(4, 4, 0, false);
    var data := f[4..10];
    assert data == [0x04, 0, 0, 0, 0x81, 0];
    assert ReadAt(f, 4, 6) == Data(data);
    assert [0x01] + data[1..4] + Zeros(2) == [0x01, 0, 0, 0, 0, 0];
    var g := Overwrite(f, 4, [0x01] + data[1..4] + Zeros(2));
    assert PaddedAsWritten(f, m) == Ok(g);
    assert g == Magic + [0x01, 0, 0, 0] + [0, 0, 0, 0];
    BrokenChain(g);
  }

  lemma OriginalChain(f: seq<byte>)
    requires f == Magic + [0x04, 0, 0, 0] + [0x81, 0, 0, 0]
    ensures Walk(f, 4) == Link(Block(4, 4, 0, false), Link(Block(8, 1, 0, true), End))
  {
    assert f[8..12] == [0x81, 0, 0, 0];
    ZeroLengthHeader(8, f[8..12]);
    assert Walk(f, 8) == Link(Block(8, 1, 0, true), End);
    assert f[4..8] == [0x04, 0, 0, 0];
    ZeroLengthHeader(4, f[4..8]);
  }

  lemma BrokenChain(g: seq<byte>)
    requires g == Magic + [0x01, 0, 0, 0] + [0, 0, 0, 0]
    ensures Walk(g, 4) == Link(Block(4, 1, 0, false), Link(Block(8, 0, 0, false), Failed(ReadFailed)))
  {
    assert g[8..12] == [0, 0, 0, 0];
    ZeroLengthHeader(8, g[8..12]);
    assert Walk(g, 12) == Failed(ReadFailed);
    assert g[4..8] == [0x01, 0, 0, 0];
    ZeroLengthHeader(4, g[4..8]);
  }

  lemma ZeroLengthHeader(at: int, h: seq<byte>)
    requires |h| == 4 && h[1..4] == [0, 0, 0]
    ensures HeaderBlock(at, h) == Block(at, h[0] % 128, 0, h[0] >= 128)
  {
    assert h[1..4] == Zeros(3);
    BEAllZeros(3);
  }

  /** A block turned into padding when it is the one at `at`. */
  function Retype(b: Block, at: int): Block
  {
    if b.startAt == at then b.(blockType := PaddingType) else b
  }

  /** The chain with the block at `at` turned into padding. */
  function Retyped(c: Chain, at: int): Chain
  {
    match c
    case Link(b, rest) => Link(Retype(b, at), Retyped(rest, at))
    case _ => c
  }

  /**
   * Converting a block of the chain into padding, confined to the block,
   * leaves the chain as it was but for that block's type: the same offsets,
   * lengths and last flags, ending the same way.
   */
  lemma PaddingKeepsChain(f: seq<byte>, off: int, m: Block)
    requires m in Blocks(Walk(f, off)) && Padded(f, m).Ok?
    ensures Walk(Padded(f, m).value, off) == Retyped(Walk(f, off), m.startAt)
  {
    var g := Padded(f, m).value;
    WalkHeader(f, off, m);
    PaddedParts(f, m);
    ConvertedHead(f, m, g);
    forall o | o + 4 <= m.startAt
      ensures Header(g, o) == Header(f, o)
    {
      HeaderKept(f, g, m, o);
    }
    ChainKept(f, g, off, m);
  }

  /** `g` is `f` with the block `m` converted: the type byte rewritten keeping the top bit, the length bytes and everything outside the block kept. */
  predicate ConvertedAt(f: seq<byte>, g: seq<byte>, m: Block)
  {
    var at := m.startAt;
    |g| == |f| && 0 <= at && at + 4 + m.length <= |f|
    && g[at] == (if m.last then 0x81 else 0x01)
    && forall i :: 0 <= i < |f| && i != at && !(at + 4 <= i < at + 4 + m.length) ==> g[i] == f[i]
  }

  /**
   * The walk over the converted file, from any point of the chain up to
   * `m`: the headers before `m` read the same, and from `m` on the walk is
   * retyped.
   */
  lemma {:induction false} ChainKept(f: seq<byte>, g: seq<byte>, off: int, m: Block)
    requires m in Blocks(Walk(f, off))
    requires forall o :: o + 4 <= m.startAt ==> Header(g, o) == Header(f, o)
    requires Walk(g, m.startAt) == Retyped(Walk(f, m.startAt), m.startAt)
    ensures Walk(g, off) == Retyped(Walk(f, off), m.startAt)
    decreases |f| - off
  {
    if off != m.startAt {
      var next := KeptStep(f, g, off, m);
      ChainKept(f, g, next, m);
    }
  }

  /** One link of the walk before `m`: it reads the same in both files, and `m` lies further on. */
  lemma KeptStep(f: seq<byte>, g: seq<byte>, off: int, m: Block) returns (next: int)
    requires m in Blocks(Walk(f, off)) && off != m.startAt
    requires forall o :: o + 4 <= m.startAt ==> Header(g, o) == Header(f, o)
    ensures off < next && off + 4 <= |f| && m in Blocks(Walk(f, next))
    ensures Walk(g, next) == Retyped(Walk(f, next), m.startAt) ==> Walk(g, off) == Retyped(Walk(f, off), m.startAt)
  {
    var b := WalkLink(f, off);
    next := off + 4 + b.length;
    assert m != b && !b.last;
    WalkAfter(f, next, m);
    assert Header(g, off) == Header(f, off);
    var b' := WalkLink(g, off);
    RetypedLink(Walk(f, off), Walk(g, off), Walk(f, next), Walk(g, next), b, m.startAt);
  }

  /** A link before the retyped block is kept as it is. */
  lemma RetypedLink(cf: Chain, cg: Chain, restf: Chain, restg: Chain, b: Block, at: int)
    requires cf == Link(b, restf) && cg == Link(b, restg) && b.startAt != at
    ensures restg == Retyped(restf, at) ==> cg == Retyped(cf, at)
  {
  }

  /** The converted block's header reads as padding, and what follows the block is untouched. */
  lemma ConvertedHead(f: seq<byte>, m: Block, g: seq<byte>)
    requires Header(f, m.startAt) == Some(m) && ConvertedAt(f, g, m)
    ensures Walk(g, m.startAt) == Retyped(Walk(f, m.startAt), m.startAt)
  {
    var at := m.startAt;
    RetypedHeader(f, g, m);
    if !m.last {
      var next := at + 4 + m.length;
      WalkSuffix(f, g, next);
      RetypedAfter(f, next, at);
    }
  }

  /** Blocks after `at` are not retyped. */
  lemma {:induction false} RetypedAfter(f: seq<byte>, off: int, at: int)
    requires at < off
    ensures Retyped(Walk(f, off), at) == Walk(f, off)
    decreases |f| - off
  {
    if Header(f, off).Some? {
      var b := Header(f, off).value;
      if !b.last {
        RetypedAfter(f, off + 4 + b.length, at);
      }
    }
  }

  /** A header before the converted block reads the same after the conversion. */
  lemma HeaderKept(f: seq<byte>, g: seq<byte>, m: Block, off: int)
    requires ConvertedAt(f, g, m) && off + 4 <= m.startAt
    ensures Header(g, off) == Header(f, off)
  {
    if 0 <= off {
      assert g[off..off + 4] == f[off..off + 4];
    }
  }

  /** The bytes the confined conversion changes: the type byte and the payload, nothing else. */
  lemma PaddedParts(f: seq<byte>, m: Block)
    requires Padded(f, m).Ok?
    ensures ConvertedAt(f, Padded(f, m).value, m)
  {
    var at := m.startAt;
    var data := f[at..at + 4 + m.length];
    var head: byte := if m.last then 0x81 else 0x01;
    var w := [head] + data[1..4] + Zeros(m.length);
    assert Padded(f, m) == Ok(Overwrite(f, at, w));
    forall i | at < i < at + 4
      ensures w[i - at] == f[i]
    {
      assert w[i - at] == data[i - at];
    }
  }

  /** The converted block's header reads as a padding block of the same length and last flag. */
  lemma RetypedHeader(f: seq<byte>, g: seq<byte>, m: Block)
    requires ConvertedAt(f, g, m) && Header(f, m.startAt) == Some(m)
    ensures Header(g, m.startAt) == Some(m.(blockType := PaddingType))
  {
    var at := m.startAt;
    var h := f[at..at + 4];
    var h' := g[at..at + 4];
    assert g[at + 1] == f[at + 1] && g[at + 2] == f[at + 2] && g[at + 3] == f[at + 3];
    assert h'[1..4] == [h'[1], h'[2], h'[3]];
    assert h[1..4] == [h[1], h[2], h[3]];
    assert h'[1..4] == h[1..4];
  }

  // ---- Vorbis comment ----

  /** A decoded Vorbis comment block: the vendor string and the user comments, in order. */
  datatype VorbisComment = VorbisComment(vendor: seq<byte>, comments: seq<seq<byte>>)

  /** `count` more comments from `off`: each a little-endian u32 length and that many bytes, within the payload. */
  predicate CommentsFrom(data: seq<byte>, off: nat, count: nat)
    decreases count
  {
    count == 0
    || (off + 4 <= |data| && off + 4 + LE(data[off..off + 4]) <= |data|
        && CommentsFrom(data, off + 4 + LE(data[off..off + 4]), count - 1))
  }

  function CommentsAt(data: seq<byte>, off: nat, count: nat): (r: seq<seq<byte>>)
    requires CommentsFrom(data, off, count)
    ensures |r| == count
    decreases count
  {
    if count == 0 then []
    else
      var len := LE(data[off..off + 4]);
      [data[off + 4..off + 4 + len]] + CommentsAt(data, off + 4 + len, count - 1)
  }

  /** A payload the decoder reads without a slice running out of range. */
  predicate VorbisReadable(data: seq<byte>)
  {
    |data| >= 4
    && var at := 4 + LE(data[0..4]);
       at + 4 <= |data| && CommentsFrom(data, at + 4, LE(data[at..at + 4]))
  }

  function VorbisOf(data: seq<byte>): VorbisComment
    requires VorbisReadable(data)
  {
    var at := 4 + LE(data[0..4]);
    VorbisComment(data[4..at], CommentsAt(data, at + 4, LE(data[at..at + 4])))
  }

  /** The payloads GetVorbisComment decodes are well formed. */
  predicate VorbisSafe(f: seq<byte>, m: Block)
  {
    m.blockType == VorbisCommentType ==>
      match ReadAt(f, m.startAt + 4, m.length)
      case Data(data) => VorbisReadable(data)
      case _ => true
  }

  /** What GetVorbisComment returns for a block. */
  function VorbisSpec(f: seq<byte>, m: Block): Result<VorbisComment>
    requires VorbisSafe(f, m)
  {
    if m.blockType != VorbisCommentType then Failure(NotVorbisComment)
    else
      match ReadAt(f, m.startAt + 4, m.length)
      case Data(data) => Ok(VorbisOf(data))
      case _ => Failure(ReadFailed)
  }

  /** GetVorbisComment: only a type 4 block has one; its payload's vendor string, then its comments. */
  method GetVorbisComment(f: seq<byte>, m: Block) returns (r: Result<VorbisComment>)
    requires VorbisSafe(f, m)
    ensures r == VorbisSpec(f, m)
  {
    if m.blockType != VorbisCommentType {
      return Failure(NotVorbisComment);
    }
    var read := ReadAt(f, m.startAt + 4, m.length);
    if !read.Data? {
      return Failure(ReadFailed);
    }
    var data := read.bytes;
    var vendorLength := LE(data[0..4]);
    var vendor := data[4..4 + vendorLength];
    var offset := 4 + vendorLength;
    var numOfUserComments := LE(data[offset..offset + 4]);
    offset := offset + 4;
    var comments: seq<seq<byte>> := [];
    var remaining: nat := numOfUserComments;
    while remaining > 0
      invariant CommentsFrom(data, offset, remaining)
      invariant VorbisOf(data).comments == comments + CommentsAt(data, offset, remaining)
    {
      comments, offset := ReadComment(data, offset, remaining, comments);
      remaining := remaining - 1;
    }
    assert comments + CommentsAt(data, offset, 0) == comments;
    return Ok(VorbisComment(vendor, comments));
  }

  /** One comment of the loop appended to `comments`, and where the next one starts. */
  method ReadComment(data: seq<byte>, offset: nat, count: nat, comments: seq<seq<byte>>)
    returns (comments': seq<seq<byte>>, next: nat)
    requires count > 0 && CommentsFrom(data, offset, count)
    ensures next > offset && CommentsFrom(data, next, count - 1)
    ensures comments + CommentsAt(data, offset, count) == comments' + CommentsAt(data, next, count - 1)
  {
    var commentLength := LE(data[offset..offset + 4]);
    var comment := data[offset + 4..offset + 4 + commentLength];
    next := offset + 4 + commentLength;
    comments' := comments + [comment];
    ghost var tail := CommentsAt(data, next, count - 1);
    CommentCons(data, offset, commentLength, count);
    assert comments + ([comment] + tail) == comments' + tail;
  }

  /** A string with its little-endian u32 length in front, as an encoder writes it. */
  function Field(s: seq<byte>): seq<byte>
  {
    LEBytes(|s|, 4) + s
  }

  function Fields(ss: seq<seq<byte>>): seq<byte>
  {
    if ss == [] then [] else Field(ss[0]) + Fields(ss[1..])
  }

  /** A Vorbis comment payload: vendor field, comment count, comment fields. */
  function VorbisBytes(vc: VorbisComment): seq<byte>
  {
    Field(vc.vendor) + LEBytes(|vc.comments|, 4) + Fields(vc.comments)
  }

  predicate Encodable(vc: VorbisComment)
  {
    |vc.vendor| < 0x1_0000_0000 && |vc.comments| < 0x1_0000_0000
    && forall k :: 0 <= k < |vc.comments| ==> |vc.comments[k]| < 0x1_0000_0000
  }

  /** Decoding an encoded Vorbis comment gives back its vendor string and its comments. */
  lemma VorbisRoundTrip(vc: VorbisComment)
    requires Encodable(vc)
    ensures VorbisReadable(VorbisBytes(vc))
    ensures VorbisOf(VorbisBytes(vc)) == vc
  {
    var data := VorbisBytes(vc);
    var at := 4 + |vc.vendor|;
    Pow256Widths();
    LEBytesRoundTrip(|vc.vendor|, 4);
    assert data[0..4] == LEBytes(|vc.vendor|, 4);
    assert data[4..at] == vc.vendor;
    LEBytesRoundTrip(|vc.comments|, 4);
    assert data[at..at + 4] == LEBytes(|vc.comments|, 4);
    assert data == data[..at + 4] + Fields(vc.comments);
    CommentsRoundTrip(data[..at + 4], vc.comments);
  }

  /** Reading back encoded comments gives the comments that were encoded, in order. */
  lemma {:induction false} CommentsRoundTrip(prefix: seq<byte>, ss: seq<seq<byte>>)
    requires forall k :: 0 <= k < |ss| ==> |ss[k]| < 0x1_0000_0000
    ensures CommentsFrom(prefix + Fields(ss), |prefix|, |ss|)
    ensures CommentsAt(prefix + Fields(ss), |prefix|, |ss|) == ss
    decreases |ss|
  {
    if ss != [] {
      var field := Field(ss[0]);
      var rest := Fields(ss[1..]);
      assert prefix + Fields(ss) == (prefix + field) + rest;
      CommentsRoundTrip(prefix + field, ss[1..]);
      FieldThenComments(prefix, ss[0], rest, |ss|);
      assert ss == [ss[0]] + ss[1..];
    }
  }

  lemma FieldThenComments(prefix: seq<byte>, s: seq<byte>, rest: seq<byte>, n: nat)
    requires n > 0 && |s| < 0x1_0000_0000
    requires CommentsFrom(prefix + Field(s) + rest, |prefix + Field(s)|, n - 1)
    ensures var data := prefix + Field(s) + rest;
      CommentsFrom(data, |prefix|, n)
      && CommentsAt(data, |prefix|, n) == [s] + CommentsAt(data, |prefix + Field(s)|, n - 1)
  {
    var data := prefix + Field(s) + rest;
    var at := |prefix|;
    assert data[at..at + 4] == LEBytes(|s|, 4);
    assert data[at + 4..at + 4 + |s|] == s;
    Pow256Widths();
    LEBytesRoundTrip(|s|, 4);
    CommentCons(data, at, |s|, n);
  }

  lemma CommentCons(data: seq<byte>, at: nat, len: nat, n: nat)
    requires n > 0 && at + 4 <= |data| && LE(data[at..at + 4]) == len && at + 4 + len <= |data|
    requires CommentsFrom(data, at + 4 + len, n - 1)
    ensures CommentsFrom(data, at, n)
    ensures CommentsAt(data, at, n) == [data[at + 4..at + 4 + len]] + CommentsAt(data, at + 4 + len, n - 1)
  {
  }
}
