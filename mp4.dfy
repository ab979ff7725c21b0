/**
 * The ISO base media file format walker (ISO/IEC 14496-12 section 4.2):
 * box headers read one after another, nested boxes read from a box's
 * payload, and the in-place rewrite of the `meta` box inside `moov` into a
 * `free` box of the same size.
 */
module Mp4 {
  import opened Bytes

  const Ftyp: seq<byte> := [0x66, 0x74, 0x79, 0x70]
  const Uuid: seq<byte> := [0x75, 0x75, 0x69, 0x64]
  const Free: seq<byte> := [0x66, 0x72, 0x65, 0x65]
  const Moov: seq<byte> := [0x6D, 0x6F, 0x6F, 0x76]
  const Meta: seq<byte> := [0x6D, 0x65, 0x74, 0x61]

  /** IsMP4: bytes 4 to 8 of the file spell "ftyp". They are read at absolute offset 4, whatever the start offset. */
  function IsMP4(f: seq<byte>): (r: Result<bool>)
    ensures r.Failure? <==> |f| < 8
    ensures r.Ok? ==> (r.value <==> f[4..8] == Ftyp)
  {
    match ReadAt(f, 4, 4)
    case Data(magicBytes) => Ok(magicBytes == Ftyp)
    case _ => Failure("failed to read file")
  }

  /** A box header as read from the file; `size` counts the whole box, header included. */
  datatype Box = Box(boxType: seq<byte>, uuid: seq<byte>, startOffset: int, startData: int, size: nat)

  predicate IsLower(c: byte) { 97 <= c <= 122 }

  /** `s[k]` exists and lies in `lo..hi`: a UTF-8 continuation byte in the range the lead byte allows. */
  predicate ByteIn(s: seq<byte>, k: nat, lo: int, hi: int)
  {
    k < |s| && lo <= s[k] as int <= hi
  }

  /**
   * The rune Go's `range` over a string decodes at the front of `s`, and
   * how many bytes it takes: a valid UTF-8 sequence of one to four bytes,
   * or U+FFFD for a single byte that does not start one.
   */
  function DecodeRune(s: seq<byte>): (r: (int, nat))
    requires |s| > 0
    ensures 1 <= r.1 <= |s| && 0 <= r.0 < 0x11_0000
    ensures s[0] < 0x80 ==> r == (s[0] as int, 1)
  {
    var b := s[0] as int;
    if b < 0x80 then (b, 1)
    else if 0xC2 <= b <= 0xDF && ByteIn(s, 1, 0x80, 0xBF) then
      ((b - 0xC0) * 0x40 + (s[1] as int - 0x80), 2)
    else if 0xE0 <= b <= 0xEF && ByteIn(s, 1, if b == 0xE0 then 0xA0 else 0x80, if b == 0xED then 0x9F else 0xBF)
      && ByteIn(s, 2, 0x80, 0xBF) then
      ((b - 0xE0) * 0x1000 + (s[1] as int - 0x80) * 0x40 + (s[2] as int - 0x80), 3)
    else if 0xF0 <= b <= 0xF4 && ByteIn(s, 1, if b == 0xF0 then 0x90 else 0x80, if b == 0xF4 then 0x8F else 0xBF)
      && ByteIn(s, 2, 0x80, 0xBF) && ByteIn(s, 3, 0x80, 0xBF) then
      ((b - 0xF0) * 0x4_0000 + (s[1] as int - 0x80) * 0x1000 + (s[2] as int - 0x80) * 0x40 + (s[3] as int - 0x80), 4)
    else (0xFFFD, 1)
  }

  /** `byte(c)` of a rune is a lowercase ASCII letter: the test is on the rune's low eight bits only. */
  predicate LowByteLower(c: int)
  {
    97 <= c % 256 <= 122
  }

  /** Decoding from `j` reaches a rune boundary at `m`: each rune starts where the one before it ends. */
  predicate StartsFrom(t: seq<byte>, j: nat, m: nat)
    requires j <= |t|
    decreases m - j
  {
    j == m || (j < m && j < |t| && StartsFrom(t, j + DecodeRune(t[j..]).1, m))
  }

  /** Every rune decoded from `j` on has a lowercase letter as its low byte. */
  predicate ValidFrom(t: seq<byte>, j: nat)
    requires j <= |t|
  {
    forall m: nat :: j <= m < |t| && StartsFrom(t, j, m) ==> LowByteLower(DecodeRune(t[m..]).0)
  }

  /** Every rune the type decodes to, as Go's `range` yields them, has a lowercase letter as its low byte. */
  predicate ValidType(t: seq<byte>)
  {
    ValidFrom(t, 0)
  }

  /** One rune of the test: the rune at `j` passes and so do all the runes after it. */
  lemma ValidFromStep(t: seq<byte>, j: nat)
    requires j < |t|
    ensures var (c, w) := DecodeRune(t[j..]);
      ValidFrom(t, j) <==> LowByteLower(c) && ValidFrom(t, j + w)
  {
    var w := DecodeRune(t[j..]).1;
    assert forall m: nat :: j < m ==> (StartsFrom(t, j, m) <==> StartsFrom(t, j + w, m));
    assert StartsFrom(t, j, j);
  }

  /** On ASCII bytes the rune test is the byte test: every byte from `j` on a lowercase letter. */
  lemma {:induction false} AsciiFrom(t: seq<byte>, j: nat)
    requires j <= |t| && forall k :: 0 <= k < |t| ==> t[k] < 0x80
    ensures ValidFrom(t, j) <==> forall k :: j <= k < |t| ==> IsLower(t[k])
    decreases |t| - j
  {
    if j < |t| {
      ValidFromStep(t, j);
      AsciiFrom(t, j + 1);
    }
  }

  /** On ASCII bytes the rune test is the byte test: every byte a lowercase letter. */
  lemma AsciiType(t: seq<byte>)
    requires forall k :: 0 <= k < |t| ==> t[k] < 0x80
    ensures ValidType(t) <==> forall k :: 0 <= k < |t| ==> IsLower(t[k])
  {
    AsciiFrom(t, 0);
  }

  /** A type of lowercase ASCII letters passes the test. */
  lemma LowerType(t: seq<byte>)
    requires forall k :: 0 <= k < |t| ==> IsLower(t[k])
    ensures ValidType(t)
  {
    AsciiType(t);
  }

  /**
   * The bytes 61 C5 A1 62 decode to 'a', U+0161 and 'b', whose low bytes
   * are 'a', 'a' and 'b', so they pass as a box type although C5 and A1
   * are not letters.
   */
  lemma RuneLowBytesPass()
    ensures ValidType([0x61, 0xC5, 0xA1, 0x62]) && !IsLower(0xC5) && !IsLower(0xA1)
  {
    var t: seq<byte> := [0x61, 0xC5, 0xA1, 0x62];
    assert t[0..] == t && DecodeRune(t) == (0x61, 1);
    assert t[1..] == [0xC5, 0xA1, 0x62] && DecodeRune(t[1..]) == (0x161, 2);
    assert t[3..] == [0x62] && DecodeRune(t[3..]) == (0x62, 1);
    ValidFromStep(t, 0);
    ValidFromStep(t, 1);
    ValidFromStep(t, 3);
  }

  /**
   * `b` is the box whose header starts at `b.startOffset`: a 32-bit size
   * below the file size, a lowercase type, then a 64-bit size when the
   * 32-bit one is 1, or a 16-byte user type when the type is "uuid".
   */
  predicate HeaderAt(f: seq<byte>, b: Box)
  {
    var so := b.startOffset;
    0 <= so && so + 8 <= |f|
    && b.boxType == f[so + 4..so + 8] && ValidType(b.boxType)
    && BE(f[so..so + 4]) < |f|
    && if BE(f[so..so + 4]) == 1 then
         so + 16 <= |f| && b.startData == so + 16 && b.size == BE(f[so + 8..so + 16]) && b.uuid == []
       else if b.boxType == Uuid then
         so + 24 <= |f| && b.startData == so + 24 && b.size == BE(f[so..so + 4]) && b.uuid == f[so + 8..so + 24]
       else
         b.startData == so + 8 && b.size == BE(f[so..so + 4]) && b.uuid == []
  }

  /** What one turn of the walk finds at an offset. */
  datatype Step = Stop | Fail(msg: string) | Found(box: Box)

  const ReadSizeFailed: string := "error reading box size"
  const InvalidSize: string := "invalid box size"
  const InvalidType: string := "invalid box type"
  const ReadLargeSizeFailed: string := "error reading box large size"
  const ReadUuidFailed: string := "error reading user type uuid"
  const ReadDataFailed: string := "error reading data"

  /**
   * Eight bytes before the end of the range, computed in int64 arithmetic:
   * a range whose end passes 2^63 - 1 wraps to a negative bound.
   */
  function Bound(startOffset: int, length: int): int
  {
    I64(startOffset + length - 8)
  }

  /**
   * The bound is an int64 equal to start offset + length - 8 modulo 2^64,
   * and exactly that value when the range end and the bound fit an int64.
   */
  lemma BoundIsWrapped(startOffset: int, length: int)
    ensures -0x8000_0000_0000_0000 <= Bound(startOffset, length) < 0x8000_0000_0000_0000
    ensures (Bound(startOffset, length) - (startOffset + length - 8)) % 0x1_0000_0000_0000_0000 == 0
    ensures -0x8000_0000_0000_0000 + 8 <= startOffset + length < 0x8000_0000_0000_0000 ==>
      Bound(startOffset, length) == startOffset + length - 8
    ensures Bound(startOffset, length) == I64(I64(startOffset + length) - 8)
  {
    var x := startOffset + length;
    assert (I64(I64(x) - 8) - (x - 8)) % 0x1_0000_0000_0000_0000 == 0;
  }

  /**
   * One turn of the walk at `i`. It stops when the eight header bytes run
   * past the end of the file or `i` has reached the range bound; a
   * negative offset, a size not below the file size, a type that is not
   * lowercase, or a short extended header is an error.
   */
  function BoxAt(f: seq<byte>, startOffset: int, length: int, i: int): (r: Step)
    ensures r.Stop? <==> (0 <= i && i + 8 > |f|) || i >= Bound(startOffset, length)
    ensures r.Found? ==> r.box.startOffset == i && HeaderAt(f, r.box) && i < Bound(startOffset, length)
    ensures r.Found? ==> r.box.size < 0x1_0000_0000_0000_0000
    ensures r.Fail? && 0 <= i && i + 8 <= |f| && BE(f[i..i + 4]) < |f| && ValidType(f[i + 4..i + 8]) ==>
      (BE(f[i..i + 4]) == 1 && r.msg == ReadLargeSizeFailed) || (f[i + 4..i + 8] == Uuid && r.msg == ReadUuidFailed)
  {
    var header := ReadAt(f, i, 8);
    if header.EndOfFile? then Stop
    else if i >= Bound(startOffset, length) then Stop
    else if header.BadOffset? then Fail(ReadSizeFailed)
    else
      var size32 := BE(header.bytes[0..4]);
      var t := header.bytes[4..8];
      assert header.bytes[0..4] == f[i..i + 4] && t == f[i + 4..i + 8];
      BEBound(header.bytes[0..4]);
      assert Pow256(4) < Pow256(8) == 0x1_0000_0000_0000_0000;
      if size32 >= |f| then Fail(InvalidSize)
      else if !ValidType(t) then Fail(InvalidType)
      else if size32 == 1 then
        match ReadAt(f, i + 8, 8)
        case Data(large) => BEBound(large); Found(Box(t, [], i, i + 16, BE(large)))
        case _ => Fail(ReadLargeSizeFailed)
      else if t == Uuid then
        match ReadAt(f, i + 8, 16)
        case Data(userType) => Found(Box(t, userType, i, i + 24, size32))
        case _ => Fail(ReadUuidFailed)
      else Found(Box(t, [], i, i + 8, size32))
  }

  /** Where the walk goes after `b`: its start plus its size, in int64 arithmetic. */
  function Next(b: Box): int
  {
    I64(b.startOffset + I64(b.size))
  }

  /**
   * The outcome of a walk. `Backwards` marks a walk that reached a box whose
   * 64-bit size sends the offset back to a non-negative position at or
   * before where that box began; the source's loop then reads earlier bytes
   * again and may run forever, and callers exclude it. An offset that wraps
   * below zero is no such case: the next read fails.
   */
  datatype Walk = Walked(boxes: seq<Box>) | Failed(msg: string) | Backwards

  function Prepend(b: Box, w: Walk): Walk
  {
    match w
    case Walked(bs) => Walked([b] + bs)
    case _ => w
  }

  /** What is left of the walk: nothing below offset 0, and forward steps shrink it. */
  function Room(f: seq<byte>, i: int): nat
  {
    if i < 0 then 0 else if i < |f| then |f| - i + 1 else 1
  }

  /** The boxes from `i` on; a box of size 0 is the last one. */
  function BoxWalk(f: seq<byte>, startOffset: int, length: int, i: int): Walk
    decreases Room(f, i)
  {
    match BoxAt(f, startOffset, length, i)
    case Stop => Walked([])
    case Fail(m) => Failed(m)
    case Found(b) =>
      if b.size == 0 then Walked([b])
      else if 0 <= Next(b) <= i then Backwards
      else Prepend(b, BoxWalk(f, startOffset, length, Next(b)))
  }

  function AsResult(w: Walk): Result<seq<Box>>
    requires !w.Backwards?
  {
    match w
    case Walked(bs) => Ok(bs)
    case Failed(m) => Failure(m)
  }

  /** The body of the GetBoxes loop: the header at `i`, read field by field. */
  method ReadBox(f: seq<byte>, startOffset: int, length: int, i: int) returns (s: Step)
    ensures s == BoxAt(f, startOffset, length, i)
  {
    var header := ReadAt(f, i, 8);
    if header.EndOfFile? {
      return Stop;
    }
    if i >= Bound(startOffset, length) {
      return Stop;
    }
    if header.BadOffset? {
      return Fail(ReadSizeFailed);
    }
    var size := BE(header.bytes[0..4]);
    if size >= |f| {
      return Fail(InvalidSize);
    }
    var boxType := header.bytes[4..8];
    var k := 0;
    while k < |boxType|
      invariant 0 <= k <= |boxType|
      invariant ValidType(boxType) == ValidFrom(boxType, k)
      decreases |boxType| - k
    {
      var (c, w) := DecodeRune(boxType[k..]);
      ValidFromStep(boxType, k);
      if !LowByteLower(c) {
        return Fail(InvalidType);
      }
      k := k + w;
    }
    var uuid: seq<byte> := [];
    var startData := i + 8;
    if size == 1 {
      var largeSize := ReadAt(f, startData, 8);
      if !largeSize.Data? {
        return Fail(ReadLargeSizeFailed);
      }
      startData := startData + 8;
      size := BE(largeSize.bytes);
    } else if boxType == Uuid {
      var userType := ReadAt(f, startData, 16);
      if !userType.Data? {
        return Fail(ReadUuidFailed);
      }
      startData := startData + 16;
      uuid := userType.bytes;
    }
    return Found(Box(boxType, uuid, i, startData, size));
  }

  lemma WalkStep(f: seq<byte>, startOffset: int, length: int, i: int)
    requires BoxAt(f, startOffset, length, i).Found?
    ensures var b := BoxAt(f, startOffset, length, i).box;
      BoxWalk(f, startOffset, length, i) ==
        if b.size == 0 then Walked([b])
        else if 0 <= Next(b) <= i then Backwards
        else Prepend(b, BoxWalk(f, startOffset, length, Next(b)))
  {
  }

  /**
   * A 64-bit size that wraps the next offset below zero ends the walk:
   * the read at a negative offset fails, which is an error unless the
   * range bound has already been passed.
   */
  lemma {:induction false} WrappedOffsetEnds(f: seq<byte>, startOffset: int, length: int, i: int)
    requires i < 0
    ensures BoxWalk(f, startOffset, length, i) ==
      if i >= Bound(startOffset, length) then Walked([]) else Failed(ReadSizeFailed)
  {
    assert ReadAt(f, i, 8) == BadOffset;
  }

  lemma PrependAppend(bs: seq<Box>, b: Box, w: Walk)
    ensures !w.Backwards? ==> (var whole := Prepend(b, w); !whole.Backwards?)
    ensures w.Walked? ==> (bs + [b]) + w.boxes == bs + Prepend(b, w).boxes
  {
  }

  /**
   * GetBoxes: reads box headers from `startOffset`, each box starting where
   * the previous one ended, until the range or the file runs out or a box of
   * size 0 is found.
   */
  method GetBoxes(f: seq<byte>, startOffset: int, length: int) returns (r: Result<seq<Box>>)
    requires !BoxWalk(f, startOffset, length, startOffset).Backwards?
    ensures r == AsResult(BoxWalk(f, startOffset, length, startOffset))
  {
    var result: seq<Box> := [];
    var i := startOffset;
    while true
      invariant !BoxWalk(f, startOffset, length, i).Backwards?
      invariant BoxWalk(f, startOffset, length, startOffset) ==
        (match BoxWalk(f, startOffset, length, i)
         case Walked(bs) => Walked(result + bs)
         case other => other)
      decreases Room(f, i)
    {
      var step := ReadBox(f, startOffset, length, i);
      if step.Stop? {
        assert result + [] == result;
        return Ok(result);
      }
      if step.Fail? {
        return Failure(step.msg);
      }
      var box := step.box;
      WalkStep(f, startOffset, length, i);
      if box.size == 0 {
        return Ok(result + [box]);
      }
      PrependAppend(result, box, BoxWalk(f, startOffset, length, Next(box)));
      result := result + [box];
      i := Next(box);
    }
  }

  /**
   * A completed walk from `i`: every box has a well-formed header and
   * starts inside the range, the first starts at `i`, each following box
   * starts exactly where the previous one ends, and only the last may have
   * size 0.
   */
  lemma {:induction false} BoxWalkShape(f: seq<byte>, startOffset: int, length: int, i: int)
    requires BoxWalk(f, startOffset, length, i).Walked?
    ensures var bs := BoxWalk(f, startOffset, length, i).boxes;
      (forall k :: 0 <= k < |bs| ==> HeaderAt(f, bs[k]) && bs[k].startOffset < Bound(startOffset, length))
      && (|bs| > 0 ==> bs[0].startOffset == i)
      && (forall k :: 0 <= k < |bs| - 1 ==> bs[k].size > 0 && bs[k + 1].startOffset == bs[k].startOffset + bs[k].size)
    decreases Room(f, i)
  {
    var bs := BoxWalk(f, startOffset, length, i).boxes;
    if bs != [] {
      var b := WalkFront(f, startOffset, length, i);
      if |bs| > 1 {
        BoxWalkShape(f, startOffset, length, Next(b));
        var rest := BoxWalk(f, startOffset, length, Next(b)).boxes;
        assert forall k :: 1 <= k < |bs| ==> bs[k] == rest[k - 1];
      }
    }
  }

  /**
   * The first box of a completed walk: its header is at `i`, inside the
   * range, and when more boxes follow it has a size and they are the walk
   * from right after it.
   */
  lemma WalkFront(f: seq<byte>, startOffset: int, length: int, i: int) returns (b: Box)
    requires BoxWalk(f, startOffset, length, i).Walked? && BoxWalk(f, startOffset, length, i).boxes != []
    ensures var bs := BoxWalk(f, startOffset, length, i).boxes;
      bs[0] == b && HeaderAt(f, b) && b.startOffset == i && i < Bound(startOffset, length)
      && (|bs| > 1 ==>
            b.size > 0 && Next(b) == i + b.size && BoxWalk(f, startOffset, length, Next(b)).Walked?
            && bs[1..] == BoxWalk(f, startOffset, length, Next(b)).boxes)
  {
    b := BoxAt(f, startOffset, length, i).box;
    if b.size != 0 && Next(b) < 0 {
      WrappedFails(f, startOffset, length, i, b);
      assert false;
    } else if b.size != 0 {
      NextIsEnd(b);
    }
  }

  /**
   * A box whose 64-bit size wraps the next offset below zero ends the walk
   * with the read error: the box lies below the range bound, so the read
   * at the negative offset is an error, not a stop.
   */
  lemma WrappedFails(f: seq<byte>, startOffset: int, length: int, i: int, b: Box)
    requires BoxAt(f, startOffset, length, i) == Found(b) && b.size != 0 && Next(b) < 0
    ensures BoxWalk(f, startOffset, length, i) == Failed(ReadSizeFailed)
  {
    WrappedOffsetEnds(f, startOffset, length, Next(b));
  }

  /** A walk that moves forward from a box at a non-negative offset did not wrap: it lands right after the box. */
  lemma NextIsEnd(b: Box)
    requires 0 <= b.startOffset && b.size < 0x1_0000_0000_0000_0000 && Next(b) > b.startOffset
    ensures Next(b) == b.startOffset + b.size
  {
  }

  /**
   * The layout of the repository's sample file: an 1297645-byte file whose
   * headers say ftyp of 28 bytes at 0, moov of 3937 bytes at 28 and mdat of
   * 1293680 bytes at 3965 walks to exactly those three boxes.
   */
  lemma SampleLayout(f: seq<byte>)
    requires |f| == 1297645
    requires BE(f[0..4]) == 28 && f[4..8] == Ftyp
    requires BE(f[28..32]) == 3937 && f[32..36] == Moov
    requires BE(f[3965..3969]) == 1293680 && f[3969..3973] == [0x6D, 0x64, 0x61, 0x74]
    ensures var w := BoxWalk(f, 0, |f|, 0);
      w.Walked? && |w.boxes| == 3 && w.boxes[0] == Box(Ftyp, [], 0, 8, 28) && w.boxes[1] == Box(Moov, [], 28, 36, 3937)
      && w.boxes[2] == Box([0x6D, 0x64, 0x61, 0x74], [], 3965, 3973, 1293680)
  {
    var mdat: seq<byte> := [0x6D, 0x64, 0x61, 0x74];
    var fromMdat := SampleMdat(f);
    var fromMoov := SampleMoov(f, fromMdat);
    SampleFtyp(f, fromMoov);
  }

  lemma SampleMdat(f: seq<byte>) returns (bs: seq<Box>)
    requires |f| == 1297645
    requires BE(f[3965..3969]) == 1293680 && f[3969..3973] == [0x6D, 0x64, 0x61, 0x74]
    ensures bs == [Box([0x6D, 0x64, 0x61, 0x74], [], 3965, 3973, 1293680)]
    ensures BoxWalk(f, 0, |f|, 3965) == Walked(bs)
  {
    var mdat: seq<byte> := [0x6D, 0x64, 0x61, 0x74];
    LowerType(mdat);
    WalkEnds(f, 0, |f|, 1297645);
    PlainStep(f, 0, |f|, 3965, 1293680, mdat, []);
    bs := [Box(mdat, [], 3965, 3973, 1293680)] + [];
  }

  lemma SampleMoov(f: seq<byte>, rest: seq<Box>) returns (bs: seq<Box>)
    requires |f| == 1297645
    requires BE(f[28..32]) == 3937 && f[32..36] == Moov
    requires BoxWalk(f, 0, |f|, 3965) == Walked(rest)
    ensures bs == [Box(Moov, [], 28, 36, 3937)] + rest
    ensures BoxWalk(f, 0, |f|, 28) == Walked(bs)
  {
    LowerType(Moov);
    PlainStep(f, 0, |f|, 28, 3937, Moov, rest);
    bs := [Box(Moov, [], 28, 36, 3937)] + rest;
  }

  lemma SampleFtyp(f: seq<byte>, rest: seq<Box>)
    requires |f| == 1297645
    requires BE(f[0..4]) == 28 && f[4..8] == Ftyp
    requires BoxWalk(f, 0, |f|, 28) == Walked(rest)
    ensures BoxWalk(f, 0, |f|, 0) == Walked([Box(Ftyp, [], 0, 8, 28)] + rest)
  {
    LowerType(Ftyp);
    FirstStep(f, 0, |f|, 28, Ftyp, rest);
  }

  /** The header bytes of the sample file give its three box sizes. */
  lemma SampleSizes(f: seq<byte>)
    requires |f| == 1297645
    requires f[0..4] == [0x00, 0x00, 0x00, 0x1C] && f[28..32] == [0x00, 0x00, 0x0F, 0x61] && f[3965..3969] == [0x00, 0x13, 0xBD, 0x70]
    ensures BE(f[0..4]) == 28 && BE(f[28..32]) == 3937 && BE(f[3965..3969]) == 1293680
  {
    BE4(f[0..4]);
    BE4(f[28..32]);
    BE4(f[3965..3969]);
  }

  /** A walk that reaches the last eight bytes of the file stops there. */
  lemma WalkEnds(f: seq<byte>, startOffset: int, length: int, i: int)
    requires 0 <= i && i + 8 > |f|
    ensures BoxWalk(f, startOffset, length, i) == Walked([])
  {
  }

  /**
   * A range whose end passes 2^63 - 1 has a negative int64 bound, so a
   * walk over it finds no box at all: a nested walk inside a box whose
   * 64-bit size reaches that far sees no children.
   */
  lemma {:induction false} WrappedRangeIsEmpty(f: seq<byte>, startOffset: int, length: int, i: int)
    requires 0 <= i && 0x8000_0000_0000_0008 <= startOffset + length < 0x1_0000_0000_0000_0000
    ensures Bound(startOffset, length) == startOffset + length - 8 - 0x1_0000_0000_0000_0000 < 0
    ensures BoxWalk(f, startOffset, length, i) == Walked([])
  {
    assert I64(startOffset + length) == startOffset + length - 0x1_0000_0000_0000_0000;
  }

  /** A box with a plain header in front of a completed walk that starts where the box ends. */
  lemma PlainStep(f: seq<byte>, startOffset: int, length: int, i: nat, size: nat, t: seq<byte>, bs: seq<Box>)
    requires i + 8 <= |f| && i < Bound(startOffset, length)
    requires BE(f[i..i + 4]) == size && 1 < size < |f| && i + size < 0x8000_0000_0000_0000
    requires f[i + 4..i + 8] == t && |t| == 4 && ValidType(t) && t != Uuid
    requires BoxWalk(f, startOffset, length, i + size) == Walked(bs)
    ensures BoxWalk(f, startOffset, length, i) == Walked([Box(t, [], i, i + 8, size)] + bs)
  {
    var b := Box(t, [], i, i + 8, size);
    PlainBoxAt(f, startOffset, length, i, size, t);
    NextInRange(b);
    WalkCons(f, startOffset, length, i, b, bs);
  }

  /** PlainStep for the box at the very start of the file. */
  lemma FirstStep(f: seq<byte>, startOffset: int, length: int, size: nat, t: seq<byte>, bs: seq<Box>)
    requires 8 <= |f| && 0 < Bound(startOffset, length)
    requires BE(f[0..4]) == size && 1 < size < |f| && size < 0x8000_0000_0000_0000
    requires f[4..8] == t && |t| == 4 && ValidType(t) && t != Uuid
    requires BoxWalk(f, startOffset, length, size) == Walked(bs)
    ensures BoxWalk(f, startOffset, length, 0) == Walked([Box(t, [], 0, 8, size)] + bs)
  {
    PlainStep(f, startOffset, length, 0, size, t, bs);
  }

  /** A box that ends below 2^63 sends the walk right after it. */
  lemma NextInRange(b: Box)
    requires 0 <= b.startOffset && b.startOffset + b.size < 0x8000_0000_0000_0000
    ensures Next(b) == b.startOffset + b.size
  {
    assert I64(b.size) == b.size;
  }

  /** One more box in front of a completed walk. */
  lemma WalkCons(f: seq<byte>, startOffset: int, length: int, i: int, b: Box, bs: seq<Box>)
    requires BoxAt(f, startOffset, length, i) == Found(b) && b.size != 0 && Next(b) > i
    requires BoxWalk(f, startOffset, length, Next(b)) == Walked(bs)
    ensures BoxWalk(f, startOffset, length, i) == Walked([b] + bs)
  {
  }

  /** A header with a 32-bit size above 1 and a lowercase type other than uuid is a box with an eight-byte header. */
  lemma PlainBoxAt(f: seq<byte>, startOffset: int, length: int, i: nat, size: nat, t: seq<byte>)
    requires i + 8 <= |f| && i < Bound(startOffset, length)
    requires BE(f[i..i + 4]) == size && 1 < size < |f|
    requires f[i + 4..i + 8] == t && |t| == 4 && ValidType(t) && t != Uuid
    ensures BoxAt(f, startOffset, length, i) == Found(Box(t, [], i, i + 8, size))
  {
    var header := f[i..i + 8];
    assert header[0..4] == f[i..i + 4] && header[4..8] == t;
  }

  // ---- payloads and nested boxes ----

  /** The header length of a box, as the walk found it. */
  function HeaderLength(b: Box): int { b.startData - b.startOffset }

  /**
   * GetData: the `size` minus header-length bytes from the payload start;
   * bytes past the end of the file read as zero. A size below the header
   * length would make the buffer length wrap and the allocation panic.
   */
  function GetData(f: seq<byte>, b: Box): (r: Result<seq<byte>>)
    requires HeaderLength(b) <= b.size
    ensures r.Failure? <==> b.startData < 0
    ensures r.Ok? ==> (|r.value| == b.size - HeaderLength(b)
      && forall k :: 0 <= k < |r.value| ==> r.value[k] == (if b.startData + k < |f| then f[b.startData + k] else 0))
  {
    if b.startData < 0 then Failure("error reading box data")
    else Ok(ReadPadded(f, b.startData, b.size - HeaderLength(b)))
  }

  /** The nested walk of a box never moves backwards. */
  predicate NestedWalks(f: seq<byte>, b: Box)
  {
    !BoxWalk(f, b.startData, I64(b.size), b.startData).Backwards?
  }

  /**
   * The boxes nested in `b`, read from its payload start with its whole
   * size, header included, as the range length; an error gives none.
   */
  function Children(f: seq<byte>, b: Box): seq<Box>
    requires NestedWalks(f, b)
  {
    match BoxWalk(f, b.startData, I64(b.size), b.startData)
    case Walked(bs) => bs
    case Failed(_) => []
  }

  /**
   * A box whose 64-bit size carries the end of its range past 2^63 - 1 has
   * no children: its nested walk stops before the first read, so a meta box
   * inside such a moov is never found.
   */
  lemma OverlongBoxHasNoChildren(f: seq<byte>, b: Box)
    requires 0 <= b.startData && b.size < 0x8000_0000_0000_0000
    requires 0x8000_0000_0000_0008 <= b.startData + b.size < 0x1_0000_0000_0000_0000
    ensures NestedWalks(f, b) && Children(f, b) == []
  {
    WrappedRangeIsEmpty(f, b.startData, I64(b.size), b.startData);
  }

  /** The first box of the given type, if any. */
  function FirstOfType(bs: seq<Box>, t: seq<byte>): (r: Option<Box>)
    ensures r.None? <==> forall b :: b in bs ==> b.boxType != t
    ensures r.Some? ==> r.value in bs && r.value.boxType == t
  {
    if bs == [] then None
    else if bs[0].boxType == t then Some(bs[0])
    else
      var r := FirstOfType(bs[1..], t);
      assert forall b :: b in bs[1..] ==> b in bs;
      assert bs == [bs[0]] + bs[1..];
      r
  }

  /** The box found is the one at the first index whose type matches. */
  lemma {:induction false} FirstOfTypeIsFirst(bs: seq<Box>, t: seq<byte>, k: nat)
    requires k < |bs| && bs[k].boxType == t
    requires forall j :: 0 <= j < k ==> bs[j].boxType != t
    ensures FirstOfType(bs, t) == Some(bs[k])
    decreases k
  {
    if k > 0 {
      FirstOfTypeIsFirst(bs[1..], t, k - 1);
    }
  }

  /** FindNestedBoxByType: the first nested box of the given type. */
  method FindNestedBoxByType(f: seq<byte>, b: Box, boxType: seq<byte>) returns (r: Option<Box>)
    requires NestedWalks(f, b)
    ensures r == FirstOfType(Children(f, b), boxType)
  {
    var walked := GetBoxes(f, b.startData, I64(b.size));
    if walked.Failure? {
      return None;
    }
    r := FindFirst(walked.value, boxType);
  }

  /** The search loop shared by ClearMetadata and FindNestedBoxByType. */
  method FindFirst(boxes: seq<Box>, boxType: seq<byte>) returns (r: Option<Box>)
    ensures r == FirstOfType(boxes, boxType)
  {
    var i := 0;
    while i < |boxes|
      invariant 0 <= i <= |boxes|
      invariant FirstOfType(boxes, boxType) == FirstOfType(boxes[i..], boxType)
    {
      assert boxes[i..][1..] == boxes[i + 1..];
      if boxes[i].boxType == boxType {
        return Some(boxes[i]);
      }
      i := i + 1;
    }
    assert boxes[i..] == [];
    return None;
  }

  // ---- meta to free ----

  /** A box turned into free space: its size field kept, its type "free", everything after the type zero. */
  function FreeBox(box: seq<byte>): (r: seq<byte>)
    requires |box| >= 8
    ensures |r| == |box| && r[..4] == box[..4] && r[4..8] == Free
    ensures forall k :: 8 <= k < |r| ==> r[k] == 0
  {
    box[..4] + Free + Zeros(|box| - 8)
  }

  /**
   * ToFreeBox: reads the whole box from its start and rewrites it in
   * place as free space; returns where it goes. A box shorter than eight
   * bytes would make the type writes panic.
   */
  method ToFreeBox(f: seq<byte>, b: Box) returns (r: Result<(int, seq<byte>)>)
    requires b.size >= 8 || !ReadAt(f, b.startOffset, b.size).Data?
    ensures r.Failure? <==> !ReadAt(f, b.startOffset, b.size).Data?
    ensures r.Failure? ==> r.msg == ReadDataFailed
    ensures r.Ok? ==> r.value.0 == b.startOffset && r.value.1 == FreeBox(f[b.startOffset..b.startOffset + b.size])
  {
    var read := ReadAt(f, b.startOffset, b.size);
    if !read.Data? {
      return Failure(ReadDataFailed);
    }
    var box := read.bytes;
    assert box == f[b.startOffset..b.startOffset + b.size];
    var data := new byte[b.size](k requires 0 <= k < b.size => box[k]);
    data[4], data[5], data[6], data[7] := 0x66, 0x72, 0x65, 0x65;
    var i := 8;
    while i < data.Length
      invariant 8 <= i <= data.Length
      invariant data[..4] == box[..4] && data[4..8] == Free
      invariant forall k :: 8 <= k < i ==> data[k] == 0
    {
      data[i] := 0;
      i := i + 1;
    }
    assert data[..] == FreeBox(box);
    return Ok((b.startOffset, data[..]));
  }

  /** The first moov of a walk, when it has a size, walks its own payload without moving backwards. */
  predicate MoovWalks(f: seq<byte>, bs: seq<Box>)
  {
    var moov := FirstOfType(bs, Moov);
    moov.Some? && moov.value.size != 0 ==> NestedWalks(f, moov.value)
  }

  /**
   * The meta box ClearMetadata targets: the first meta inside the first
   * moov; there is none when that moov has size 0 or holds no meta. A walk
   * without any moov is excluded: the source then reads the size through
   * the nil box pointer of an empty MoovBox and panics.
   */
  function MetaTarget(f: seq<byte>, bs: seq<Box>): (r: Option<Box>)
    requires MoovWalks(f, bs) && FirstOfType(bs, Moov).Some?
    ensures r.Some? ==> r.value.boxType == Meta && r.value in Children(f, FirstOfType(bs, Moov).value)
    ensures r.None? <==> (var moov := FirstOfType(bs, Moov).value;
      moov.size == 0 || forall c :: c in Children(f, moov) ==> c.boxType != Meta)
  {
    var moov := FirstOfType(bs, Moov).value;
    if moov.size == 0 then None else FirstOfType(Children(f, moov), Meta)
  }

  /** Rewriting `meta` can go ahead: a box shorter than eight bytes must fail to read. */
  predicate Rewritable(f: seq<byte>, meta: Option<Box>)
  {
    meta.Some? ==> meta.value.size >= 8 || !ReadAt(f, meta.value.startOffset, meta.value.size).Data?
  }

  /**
   * ClearMetadata runs to completion: no walk moves backwards, a completed
   * walk holds a moov (without one the source dereferences a nil pointer),
   * and the meta box, if read, has room for its type.
   */
  predicate ClearSafe(f: seq<byte>, offset: int, length: int)
  {
    var w := BoxWalk(f, offset, length, offset);
    !w.Backwards?
    && (w.Walked? ==> FirstOfType(w.boxes, Moov).Some? && MoovWalks(f, w.boxes) && Rewritable(f, MetaTarget(f, w.boxes)))
  }

  /** The file after `meta`, if any, is rewritten as free space, or the read error. */
  function Rewrite(f: seq<byte>, meta: Option<Box>): (r: Result<seq<byte>>)
    requires Rewritable(f, meta)
    ensures meta.None? ==> r == Ok(f)
    ensures r.Failure? <==> meta.Some? && !ReadAt(f, meta.value.startOffset, meta.value.size).Data?
    ensures r.Ok? && meta.Some? ==> (var so := meta.value.startOffset; var n := meta.value.size;
      0 <= so && so + n <= |f| && |r.value| == |f|
      && (forall k :: 0 <= k < |f| && !(so <= k < so + n) ==> r.value[k] == f[k])
      && r.value[so..so + n] == FreeBox(f[so..so + n])
      && r.value == Overwrite(f, so, FreeBox(f[so..so + n])))
  {
    match meta
    case None => Ok(f)
    case Some(m) =>
      match ReadAt(f, m.startOffset, m.size)
      case Data(box) =>
        var g := Overwrite(f, m.startOffset, FreeBox(box));
        assert g[m.startOffset..m.startOffset + m.size] == FreeBox(box);
        Ok(g)
      case _ => Failure(ReadDataFailed)
  }

  /**
   * The file after ClearMetadata, or its error: a failed walk is an error;
   * a moov of size 0 or without a meta inside it leaves the file as it
   * is; otherwise only the bytes of the meta box change, and they become a
   * free box of the same size.
   */
  function Cleared(f: seq<byte>, offset: int, length: int): (r: Result<seq<byte>>)
    requires ClearSafe(f, offset, length)
  {
    match MetaOf(f, offset, length)
    case Failure(m) => Failure(m)
    case Ok(meta) => Rewrite(f, meta)
  }

  /** The box ClearMetadata rewrites, if any, or the error of the top-level walk. */
  function MetaOf(f: seq<byte>, offset: int, length: int): (r: Result<Option<Box>>)
    requires ClearSafe(f, offset, length)
    ensures r.Ok? ==> Rewritable(f, r.value)
  {
    var w := BoxWalk(f, offset, length, offset);
    if w.Failed? then Failure(w.msg) else Ok(MetaTarget(f, w.boxes))
  }

  /**
   * A 56-byte file: ftyp of size 28, then a moov with the large size
   * 2^63 - 30 whose payload starts at 44, where a meta box of size 12 lies.
   * The moov's range ends past 2^63 - 1, its bound wraps, and the clear
   * finds no meta box to rewrite.
   */
  lemma OverlongMoovHidesMeta(f: seq<byte>)
    requires |f| == 56
    requires BE(f[0..4]) == 28 && f[4..8] == Ftyp
    requires BE(f[28..32]) == 1 && f[32..36] == Moov && BE(f[36..44]) == 0x7FFF_FFFF_FFFF_FFE2
    requires BE(f[44..48]) == 12 && f[48..52] == Meta
    ensures ClearSafe(f, 0, 56) && MetaOf(f, 0, 56) == Ok(None)
  {
    var moov := OverlongMoovWalk(f);
    OverlongFtyp(f, [moov]);
    OverlongWalkFindsNoMeta(f, [Box(Ftyp, [], 0, 8, 28)] + [moov]);
  }

  /** A top-level walk of ftyp and then that moov gives the clear no meta box to rewrite. */
  lemma OverlongWalkFindsNoMeta(f: seq<byte>, bs: seq<Box>)
    requires bs == [Box(Ftyp, [], 0, 8, 28), Box(Moov, [], 28, 44, 0x7FFF_FFFF_FFFF_FFE2)]
    requires BoxWalk(f, 0, 56, 0) == Walked(bs)
    ensures ClearSafe(f, 0, 56) && MetaOf(f, 0, 56) == Ok(None)
  {
    FirstOfTypeIsFirst(bs, Moov, 1);
    OverlongBoxHasNoChildren(f, bs[1]);
    assert MetaTarget(f, bs) == None;
  }

  /** The top-level walk of that file starts with its ftyp box, then goes on at 28. */
  lemma OverlongFtyp(f: seq<byte>, rest: seq<Box>)
    requires |f| == 56
    requires BE(f[0..4]) == 28 && f[4..8] == Ftyp
    requires BoxWalk(f, 0, 56, 28) == Walked(rest)
    ensures BoxWalk(f, 0, 56, 0) == Walked([Box(Ftyp, [], 0, 8, 28)] + rest)
  {
    LowerType(Ftyp);
    FirstStep(f, 0, 56, 28, Ftyp, rest);
  }

  /** The walk from the moov of that file finds the moov alone. */
  lemma OverlongMoovWalk(f: seq<byte>) returns (moov: Box)
    requires |f| == 56
    requires BE(f[28..32]) == 1 && f[32..36] == Moov && BE(f[36..44]) == 0x7FFF_FFFF_FFFF_FFE2
    ensures moov == Box(Moov, [], 28, 44, 0x7FFF_FFFF_FFFF_FFE2)
    ensures BoxWalk(f, 0, 56, 28) == Walked([moov])
  {
    moov := OverlongMoovAt(f);
    WalkEnds(f, 0, 56, Next(moov));
    WalkCons(f, 0, 56, 28, moov, []);
  }

  /** The moov header of that file: a large-size box whose walk moves on to 2^63 - 2. */
  lemma OverlongMoovAt(f: seq<byte>) returns (moov: Box)
    requires |f| == 56
    requires BE(f[28..32]) == 1 && f[32..36] == Moov && BE(f[36..44]) == 0x7FFF_FFFF_FFFF_FFE2
    ensures moov == Box(Moov, [], 28, 44, 0x7FFF_FFFF_FFFF_FFE2)
    ensures BoxAt(f, 0, 56, 28) == Found(moov) && Next(moov) == 0x7FFF_FFFF_FFFF_FFFE
  {
    moov := Box(Moov, [], 28, 44, 0x7FFF_FFFF_FFFF_FFE2);
    LowerType(Moov);
    var header := f[28..36];
    assert header[0..4] == f[28..32] && header[4..8] == Moov;
  }

  /**
   * A box whose header holds a 32-bit size of at least eight reads back,
   * after the rewrite, as a "free" box of the same size at the same place,
   * so later walks skip it.
   */
  lemma FreedBoxReadsAsFree(f: seq<byte>, startOffset: int, length: int, so: nat, n: nat)
    requires 8 <= n && so + n <= |f| && so < Bound(startOffset, length)
    requires BE(f[so..so + 4]) == n < |f|
    ensures var g := Overwrite(f, so, FreeBox(f[so..so + n]));
      BoxAt(g, startOffset, length, so) == Found(Box(Free, [], so, so + 8, n))
  {
    var g := FreedHeader(f, so, n);
    LowerType(Free);
    PlainBoxAt(g, startOffset, length, so, n, Free);
  }

  /** The rewritten box keeps its size field and reads "free" as its type; the file keeps its length. */
  lemma FreedHeader(f: seq<byte>, so: nat, n: nat) returns (g: seq<byte>)
    requires 8 <= n && so + n <= |f|
    ensures g == Overwrite(f, so, FreeBox(f[so..so + n]))
    ensures |g| == |f| && g[so..so + 4] == f[so..so + 4] && g[so + 4..so + 8] == Free
  {
    var box := f[so..so + n];
    g := Overwrite(f, so, FreeBox(box));
    assert g == f[..so] + FreeBox(box) + f[so + n..];
    assert FreeBox(box) == box[..4] + Free + Zeros(n - 8);
    assert g[so..so + 4] == box[..4] == f[so..so + 4];
    assert g[so + 4..so + 8] == Free;
  }


  /**
   * ClearMetadata: walks the boxes of the range, finds the first moov and
   * the first meta inside it, and overwrites that meta box in place with
   * its free-space form.
   */
  method ClearMetadata(file: array<byte>, offset: int, length: int) returns (err: Option<string>)
    requires ClearSafe(file[..], offset, length)
    modifies file
    ensures err.Some? <==> Cleared(old(file[..]), offset, length).Failure?
    ensures err.Some? ==> file[..] == old(file[..]) && err.value == Cleared(old(file[..]), offset, length).msg
    ensures err.None? ==> file[..] == Cleared(old(file[..]), offset, length).value
  {
    var found := FindMeta(file[..], offset, length);
    if found.Failure? {
      return Some(found.msg);
    }
    err := RewriteMeta(file, found.value);
  }

  /** The rewrite half of ClearMetadata: the meta box, if any, read whole and written back as free space. */
  method RewriteMeta(file: array<byte>, meta: Option<Box>) returns (err: Option<string>)
    requires Rewritable(file[..], meta)
    modifies file
    ensures err.Some? <==> Rewrite(old(file[..]), meta).Failure?
    ensures err.Some? ==> file[..] == old(file[..]) && err.value == Rewrite(old(file[..]), meta).msg
    ensures err.None? ==> file[..] == Rewrite(old(file[..]), meta).value
  {
    if meta.None? {
      return None;
    }
    var freed := ToFreeBox(file[..], meta.value);
    if freed.Failure? {
      return Some(freed.msg);
    }
    var (metaOffset, metaData) := freed.value;
    WriteAt(file, metaOffset, metaData);
    return None;
  }

  /** The lookup half of ClearMetadata: the top-level walk, the first moov and the first meta inside it. */
  method FindMeta(f: seq<byte>, offset: int, length: int) returns (r: Result<Option<Box>>)
    requires ClearSafe(f, offset, length)
    ensures r == MetaOf(f, offset, length)
  {
    var boxes := GetBoxes(f, offset, length);
    if boxes.Failure? {
      return Failure(boxes.msg);
    }
    var moovBox := FindFirst(boxes.value, Moov);
    if moovBox.value.size == 0 {
      return Ok(None);
    }
    var meta := FindNestedBoxByType(f, moovBox.value, Meta);
    return Ok(meta);
  }
}
