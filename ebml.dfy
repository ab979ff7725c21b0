/**
 * EBML, the element layer of Matroska: every element is an ID and a payload
 * size, both written as variable-length integers (VINTs), followed by the
 * payload. This module is the cached, class-based element walker of
 * mkv/ebml.go; the same VINT decoder and ID search also serve mkv/mkv.go.
 */
module Ebml {
  import opened Bytes

  // ---- variable-length integers ----

  /**
   * The width announced by a VINT's first byte: one more than its number of
   * leading zero bits, so the highest set bit is the length marker.
   */
  function VintWidth(b: byte): (w: nat)
    requires b != 0
    ensures 1 <= w <= 8
    ensures Pow2(8 - w) <= b as nat < Pow2(9 - w)
  {
    PowersOfTwo();
    if b >= 128 then 1 else if b >= 64 then 2 else if b >= 32 then 3
    else if b >= 16 then 4 else if b >= 8 then 5 else if b >= 4 then 6
    else if b >= 2 then 7 else 8
  }

  /** The marker bit found at position `i` from the top gives the width `i` + 1, the only one compatible with the byte's value. */
  lemma VintMarkerAt(b: byte, i: nat)
    requires i <= 7 && Pow2(7 - i) <= b as nat < Pow2(8 - i)
    ensures b != 0 && VintWidth(b) == i + 1
  {
    PowersOfTwo();
  }

  lemma PowersOfTwo()
    ensures Pow2(0) == 1 && Pow2(1) == 2 && Pow2(2) == 4 && Pow2(3) == 8 && Pow2(4) == 16
    ensures Pow2(5) == 32 && Pow2(6) == 64 && Pow2(7) == 128 && Pow2(8) == 256
  {
  }

  /** A VINT whose first byte announces no more bytes than `v` holds. */
  predicate VintReadable(v: seq<byte>)
  {
    |v| >= 1 && (v[0] != 0 ==> VintWidth(v[0]) <= |v|)
  }

  /**
   * The value and width of the VINT at the start of `v`: a zero first byte
   * reads as the value 0 of width 1; otherwise the marker bit is cleared and
   * the remaining width bytes are read big-endian.
   */
  function VSize(v: seq<byte>): (r: (nat, nat))
    requires VintReadable(v)
    ensures 1 <= r.1 <= 8 && r.1 <= |v|
  {
    if v[0] == 0 then (0, 1)
    else
      var w := VintWidth(v[0]);
      (BE([Unmarked(v[0], w)] + v[1..w]), w)
  }

  /** `b & (0xFF >> w)`: the first VINT byte without its marker bit. */
  function Unmarked(b: byte, w: nat): (u: byte)
    requires b != 0 && w == VintWidth(b)
    ensures u as nat < Pow2(8 - w)
  {
    (b as nat % Pow2(8 - w)) as byte
  }

  /** Bit `7 - i` of `b` (bit 7 is the most significant) is set. */
  predicate BitSet(b: byte, i: nat)
    requires i <= 7
  {
    (b as nat / Pow2(7 - i)) % 2 == 1
  }

  lemma BitTest(b: byte, i: nat)
    requires i <= 7 && b as nat < Pow2(8 - i)
    ensures BitSet(b, i) <==> b as nat >= Pow2(7 - i)
  {
    PowersOfTwo();
    if i == 0 {} else if i == 1 {} else if i == 2 {} else if i == 3 {}
    else if i == 4 {} else if i == 5 {} else if i == 6 {} else {}
  }

  /**
   * Decodes the VINT at the start of `v`: finds the marker bit, then copies
   * the masked first byte and the following bytes into the low end of an
   * eight-byte big-endian buffer.
   */
  method GetVSize(v: seq<byte>) returns (value: nat, width: nat)
    requires VintReadable(v)
    ensures (value, width) == VSize(v)
  {
    if v[0] == 0 {
      return 0, 1;
    }
    PowersOfTwo();
    var i := 0;
    while !BitSet(v[0], i)
      invariant 0 <= i <= 7
      invariant v[0] as nat < Pow2(8 - i)
      decreases 7 - i
    {
      BitTest(v[0], i);
      i := i + 1;
    }
    BitTest(v[0], i);
    VintMarkerAt(v[0], i);
    i := i + 1;
    var m := Unmarked(v[0], i);
    var result := new byte[8](_ => 0);
    var startIndex := 8 - i;
    result[startIndex] := m;
    startIndex := startIndex + 1;
    var j := 1;
    while j < i
      invariant 1 <= j <= i
      invariant startIndex == 8 - i + j
      invariant forall k :: 0 <= k < 8 ==>
        result[k] == (if k < 8 - i then 0 else if k == 8 - i then m else if k < 8 - i + j then v[k - (8 - i)] else 0)
    {
      result[startIndex] := v[j];
      startIndex := startIndex + 1;
      j := j + 1;
    }
    assert result[..] == Zeros(8 - i) + ([m] + v[1..i]);
    BELeadingZeros(8 - i, [m] + v[1..i]);
    value := BE(result[..]);
    width := i;
  }

  /** The decoded value always fits the 7 data bits per byte a VINT carries. */
  lemma VSizeBound(v: seq<byte>)
    requires VintReadable(v)
    ensures VSize(v).0 < Pow2(7 * VSize(v).1)
  {
    if v[0] != 0 {
      var w := VintWidth(v[0]);
      var head := [Unmarked(v[0], w)];
      var rest := v[1..w];
      assert VSize(v) == (BE(head + rest), w);
      BEAppend(head, rest);
      assert BE(head) == head[0] as nat by { assert head[..0] == []; }
      BEBound(rest);
      MarkedBound(head[0] as nat, BE(rest), w);
    }
  }

  /** A value below 2^(8-w) followed by w-1 bytes stays below 2^(7w). */
  lemma MarkedBound(m: nat, b: nat, w: nat)
    requires 1 <= w <= 8 && m < Pow2(8 - w) && b < Pow256(w - 1)
    ensures m * Pow256(w - 1) + b < Pow2(7 * w)
  {
    var p := Pow256(w - 1);
    var q := Pow2(8 - w);
    MulSucc(m, p);
    assert m * p + b < (m + 1) * p;
    MulMonotone(m + 1, q, p);
    MarkerSplit(w);
    assert q * p == Pow2(7 * w);
  }

  /** 2^(8-w) * 256^(w-1) == 2^(7w). */
  lemma MarkerSplit(w: nat)
    requires 1 <= w <= 8
    ensures Pow2(8 - w) * Pow256(w - 1) == Pow2(7 * w)
  {
    Pow256IsPow2(w - 1);
    Pow2Add(8 - w, 8 * (w - 1));
    assert 8 - w + 8 * (w - 1) == 7 * w;
  }

  lemma MulSucc(m: nat, p: nat)
    ensures (m + 1) * p == m * p + p
  {
  }

  lemma MulMonotone(a: nat, b: nat, c: nat)
    requires a <= b
    ensures a * c <= b * c
  {
  }

  lemma {:induction false} Pow2Add(a: nat, b: nat)
    ensures Pow2(a) * Pow2(b) == Pow2(a + b)
    decreases a
  {
    if a > 0 {
      Pow2Add(a - 1, b);
    }
  }

  lemma {:induction false} Pow256IsPow2(n: nat)
    ensures Pow256(n) == Pow2(8 * n)
    decreases n
  {
    if n > 0 {
      Pow256IsPow2(n - 1);
      Pow2Add(8, 8 * (n - 1));
      PowersOfTwo();
    }
  }

  // ---- elements ----

  /** An element header as found in the file; `id` is the raw ID VINT, marker included. */
  datatype Element = Element(id: seq<byte>, size: nat, startAt: int, dataAt: int)
  {
    /** Where the payload, and so the element, ends. */
    function End(): int { dataAt + size }
  }

  const ReadFailed: string := "failed to read file"

  /**
   * Reads the element header at `off`: eight bytes are fetched for the ID
   * VINT, then eight more after it for the size VINT, so an element needs
   * eight readable bytes past each VINT start. Returns the element and the
   * offset right after its payload.
   */
  function NewEBMLElement(f: seq<byte>, off: int): (r: Result<(Element, int)>)
    ensures r.Ok? ==> (var e := r.value.0;
      0 <= off && off + 8 <= |f| && e.startAt == off && 1 <= |e.id| <= 8 && e.id == f[off..off + |e.id|]
      && off + |e.id| < e.dataAt <= off + |e.id| + 8 && r.value.1 == e.End())
    ensures r.Failure? <==> off < 0 || off + 8 > |f| || off + VSize(f[off..off + 8]).1 + 8 > |f|
  {
    match ReadAt(f, off, 8)
    case Data(idData) =>
      var idWidth := VSize(idData).1;
      (match ReadAt(f, off + idWidth, 8)
       case Data(sizeData) =>
         var (size, sizeWidth) := VSize(sizeData);
         var e := Element(idData[..idWidth], size, off, off + idWidth + sizeWidth);
         Ok((e, e.End()))
       case _ => Failure(ReadFailed))
    case _ => Failure(ReadFailed)
  }

  /** Both header reads succeed: the element is the one the two VINTs they return describe. */
  lemma {:induction false} ReadsMakeElement(f: seq<byte>, off: int, idData: seq<byte>, sizeData: seq<byte>)
    requires ReadAt(f, off, 8) == Data(idData)
    requires ReadAt(f, off + VSize(idData).1, 8) == Data(sizeData)
    ensures var (idWidth, (size, sizeWidth)) := (VSize(idData).1, VSize(sizeData));
      NewEBMLElement(f, off) == Ok((Element(idData[..idWidth], size, off, off + idWidth + sizeWidth), off + idWidth + sizeWidth + size))
  {
  }

  /** An element always ends beyond its start, so every walk makes progress. */
  lemma ElementAdvances(f: seq<byte>, off: int)
    requires NewEBMLElement(f, off).Ok?
    ensures NewEBMLElement(f, off).value.1 >= off + 2
  {
  }

  /** Up to `count` consecutive elements from `off` while they start before `limit`; any read error discards them all. */
  function Walk(f: seq<byte>, off: int, limit: int, count: int): Result<seq<Element>>
    decreases if off < limit then limit - off else 0
  {
    if off < limit && count > 0 then
      match NewEBMLElement(f, off)
      case Failure(m) => Failure(m)
      case Ok((e, next)) => Prefixed([e], Walk(f, next, limit, count - 1))
    else Ok([])
  }

  method GetEBMLElements(f: seq<byte>, fileOffset: int, limit: int, count: int)
    returns (r: Result<seq<Element>>)
    ensures r == Walk(f, fileOffset, limit, count)
  {
    var result: seq<Element> := [];
    var c := 0;
    var off := fileOffset;
    WalkEnds(f, fileOffset, limit, count, []);
    while off < limit && c < count
      invariant Walk(f, fileOffset, limit, count) == Prefixed(result, Walk(f, off, limit, count - c))
      decreases count - c
    {
      var step := NewEBMLElement(f, off);
      if step.Failure? {
        WalkFails(f, off, limit, count - c, result);
        return Failure(step.msg);
      }
      var (e, next) := step.value;
      WalkAdvances(f, off, limit, count - c, result, e, next);
      result := result + [e];
      off := next;
      c := c + 1;
    }
    WalkEnds(f, off, limit, count - c, result);
    return Ok(result);
  }

  lemma WalkAdvances(f: seq<byte>, off: int, limit: int, n: int, result: seq<Element>, e: Element, next: int)
    requires off < limit && n > 0 && NewEBMLElement(f, off) == Ok((e, next))
    ensures Prefixed(result, Walk(f, off, limit, n)) == Prefixed(result + [e], Walk(f, next, limit, n - 1))
  {
    PrefixedTwice(result, [e], Walk(f, next, limit, n - 1));
  }

  lemma WalkFails(f: seq<byte>, off: int, limit: int, n: int, result: seq<Element>)
    requires off < limit && n > 0 && NewEBMLElement(f, off).Failure?
    ensures Prefixed(result, Walk(f, off, limit, n)) == Failure(NewEBMLElement(f, off).msg)
  {
  }

  /** Where the walk stops, or once `result` is all it read, the prefix is the whole result. */
  lemma WalkEnds(f: seq<byte>, off: int, limit: int, n: int, result: seq<Element>)
    ensures !(off < limit && n > 0) ==> Prefixed(result, Walk(f, off, limit, n)) == Ok(result)
    ensures Prefixed([], Walk(f, off, limit, n)) == Walk(f, off, limit, n)
  {
    assert result + [] == result;
    var w := Walk(f, off, limit, n);
    if w.Ok? {
      assert [] + w.value == w.value;
    }
  }

  /** The elements lie back to back from `off`. */
  predicate Contiguous(es: seq<Element>, off: int)
  {
    (|es| > 0 ==> es[0].startAt == off)
    && forall i :: 0 <= i < |es| - 1 ==> es[i + 1].startAt == es[i].End()
  }

  /** Where a walk over `es` from `off` stopped. */
  function StopsAt(es: seq<Element>, off: int): int
  {
    if |es| == 0 then off else es[|es| - 1].End()
  }

  /**
   * A successful walk yields at most `count` back-to-back elements, each
   * starting before `limit`; when it yields fewer, the last one reaches
   * `limit`.
   */
  lemma {:induction false} WalkShape(f: seq<byte>, off: int, limit: int, count: int)
    requires Walk(f, off, limit, count).Ok?
    ensures var es := Walk(f, off, limit, count).value;
      |es| <= (if count < 0 then 0 else count) && Contiguous(es, off)
      && (forall i :: 0 <= i < |es| ==> es[i].startAt < limit)
      && (|es| < count ==> StopsAt(es, off) >= limit)
    decreases if off < limit then limit - off else 0
  {
    if off < limit && count > 0 {
      var (e, next) := NewEBMLElement(f, off).value;
      WalkShape(f, next, limit, count - 1);
      var es := Walk(f, off, limit, count).value;
      var rest := Walk(f, next, limit, count - 1).value;
      assert es == [e] + rest;
      assert forall i :: 1 <= i < |es| ==> es[i] == rest[i - 1];
    }
  }

  // ---- finding elements by ID ----

  /** The first element carrying `id`, if any. */
  function Search(id: seq<byte>, els: seq<Element>): (r: Option<Element>)
    ensures r.None? <==> forall e :: e in els ==> e.id != id
    ensures r.Some? ==> r.value in els && r.value.id == id
  {
    if |els| == 0 then None
    else if els[0].id == id then Some(els[0])
    else
      assert forall e :: e in els[1..] ==> e in els;
      assert els == [els[0]] + els[1..];
      Search(id, els[1..])
  }

  /** An element carrying `id` with none before it is the one Search finds. */
  lemma {:induction false} SearchFindsFirst(id: seq<byte>, els: seq<Element>, k: nat)
    requires k < |els| && els[k].id == id
    requires forall j :: 0 <= j < k ==> els[j].id != id
    ensures Search(id, els) == Some(els[k])
  {
    if k > 0 {
      SearchFindsFirst(id, els[1..], k - 1);
    }
  }

  /** SearchEBMLElements: a linear scan returning the first element with the given ID, or nil. */
  method SearchEBMLElements(elementID: seq<byte>, elements: seq<Element>) returns (r: Option<Element>)
    ensures r == Search(elementID, elements)
  {
    var i := 0;
    while i < |elements|
      invariant 0 <= i <= |elements|
      invariant Search(elementID, elements) == Search(elementID, elements[i..])
    {
      assert elements[i..][1..] == elements[i + 1..];
      if elements[i].id == elementID {
        return Some(elements[i]);
      }
      i := i + 1;
    }
    return None;
  }

  // ---- payload values ----

  /** The payload bytes of `e`; a payload running past the end of the file is a read error. */
  function GetBytes(f: seq<byte>, e: Element): (r: Result<seq<byte>>)
    ensures r.Ok? <==> 0 <= e.dataAt && (e.size == 0 || e.End() <= |f|)
    ensures r.Ok? ==> |r.value| == e.size && (e.size > 0 ==> r.value == f[e.dataAt..e.End()])
  {
    match ReadAt(f, e.dataAt, e.size)
    case Data(bytes) => Ok(bytes)
    case _ => Failure(ReadFailed)
  }

  /** The payload as text; an empty payload needs no read at all. */
  function StringValue(f: seq<byte>, e: Element): (r: Result<seq<byte>>)
    ensures e.size == 0 ==> r == Ok([])
    ensures e.size > 0 ==> r == GetBytes(f, e)
  {
    if e.size == 0 then Ok([]) else GetBytes(f, e)
  }

  /**
   * The payload as an unsigned integer: zero for an empty payload, otherwise
   * its bytes read big-endian; an unreadable payload is an error.
   */
  function UintOf(f: seq<byte>, e: Element): (r: Result<nat>)
    ensures e.size == 0 ==> r == Ok(0)
    ensures e.size > 0 ==> (r.Failure? <==> GetBytes(f, e).Failure?)
    ensures e.size > 0 && r.Ok? ==> r.value == BE(f[e.dataAt..e.End()])
    ensures r.Ok? ==> r.value < Pow256(e.size)
  {
    if e.size == 0 then Ok(0)
    else match GetBytes(f, e)
      case Failure(m) => Failure(m)
      case Ok(data) => BEBound(data); Ok(BE(data))
  }

  /**
   * UintValue copies the payload right-aligned into an eight-byte buffer and
   * reads that big-endian. A readable payload of more than eight bytes would
   * overrun the buffer.
   */
  method UintValue(f: seq<byte>, e: Element) returns (r: Result<nat>)
    requires e.size <= 8 || GetBytes(f, e).Failure?
    ensures r == UintOf(f, e)
  {
    if e.size == 0 {
      return Ok(0);
    }
    var got := GetBytes(f, e);
    if got.Failure? {
      return Failure(got.msg);
    }
    var data := got.value;
    var tmp := new byte[8](_ => 0);
    var startIndex := 0;
    var i := 0;
    while i < 8 - |data|
      invariant 0 <= i <= 8 - |data| && startIndex == i
      invariant forall k :: 0 <= k < 8 ==> tmp[k] == 0
    {
      tmp[startIndex] := 0;
      startIndex := startIndex + 1;
      i := i + 1;
    }
    i := 0;
    while i < |data|
      invariant 0 <= i <= |data| && startIndex == 8 - |data| + i
      invariant forall k :: 0 <= k < 8 ==>
        tmp[k] == (if 8 - |data| <= k < 8 - |data| + i then data[k - (8 - |data|)] else 0)
    {
      tmp[startIndex] := data[i];
      startIndex := startIndex + 1;
      i := i + 1;
    }
    assert tmp[..] == Zeros(8 - |data|) + data;
    BELeadingZeros(8 - |data|, data);
    return Ok(BE(tmp[..]));
  }

  const NanosPerSecond: int := 1_000_000_000
  /** 2001-01-01T00:00:00Z, the Matroska date origin, in Unix seconds. */
  const MillenniumSeconds: int := 978307200

  /** Go's conversion of a uint64 to int64. */
  function Int64(x: nat): int
  {
    if x < 0x8000_0000_0000_0000 then x else x - 0x1_0000_0000_0000_0000
  }

  /**
   * A date as nanoseconds since the Unix epoch: an empty payload or a stored
   * zero is the Unix epoch itself; otherwise the first eight payload bytes
   * count signed nanoseconds from 2001-01-01. Fewer than eight readable bytes
   * would make the big-endian read panic.
   */
  function DateValue(f: seq<byte>, e: Element): (r: Result<int>)
    requires e.size == 0 || e.size >= 8 || GetBytes(f, e).Failure?
    ensures e.size == 0 ==> r == Ok(0)
    ensures e.size > 0 ==> (r.Failure? <==> GetBytes(f, e).Failure?)
    ensures r.Ok? && r.value != 0 ==> (var stored := BE(GetBytes(f, e).value[..8]);
      (stored < 0x8000_0000_0000_0000 ==> r.value > MillenniumSeconds * NanosPerSecond)
      && (stored >= 0x8000_0000_0000_0000 ==> r.value < MillenniumSeconds * NanosPerSecond))
    ensures r.Ok? && r.value != 0 ==> (var d := r.value - MillenniumSeconds * NanosPerSecond;
      -0x8000_0000_0000_0000 <= d < 0x8000_0000_0000_0000 && U64(d) == BE(GetBytes(f, e).value[..8]))
  {
    if e.size == 0 then Ok(0)
    else match GetBytes(f, e)
      case Failure(m) => Failure(m)
      case Ok(data) =>
        var stored := BE(data[..8]);
        BEBound(data[..8]);
        assert Pow256(8) == 0x1_0000_0000_0000_0000;
        if stored == 0 then Ok(0)
        else Ok(MillenniumSeconds * NanosPerSecond + Int64(stored))
  }

  /**
   * A non-zero offset from 2001-01-01 stored as its eight two's-complement
   * big-endian bytes at the start of the payload reads back as that date.
   */
  lemma DateRoundTrip(f: seq<byte>, e: Element, d: int)
    requires -0x8000_0000_0000_0000 <= d < 0x8000_0000_0000_0000 && d != 0
    requires e.size >= 8 && GetBytes(f, e).Ok? && GetBytes(f, e).value[..8] == BEBytes(U64(d), 8)
    ensures DateValue(f, e) == Ok(MillenniumSeconds * NanosPerSecond + d)
  {
    var stored := BE(GetBytes(f, e).value[..8]);
    assert Pow256(8) == 0x1_0000_0000_0000_0000;
    BEBytesRoundTrip(U64(d), 8);
    assert stored == U64(d);
    Int64OfU64(d);
  }

  /** Go's uint64 conversion followed by the int64 one gives back any int64. */
  lemma Int64OfU64(d: int)
    requires -0x8000_0000_0000_0000 <= d < 0x8000_0000_0000_0000
    ensures Int64(U64(d)) == d
  {
    if d < 0 {
      assert U64(d) == d + 0x1_0000_0000_0000_0000;
    }
  }

  const NegativeOffset: string := "negative offset"

  /**
   * Overwrites a non-empty payload with zeros; a payload that lies past the
   * end of the file grows it. A negative offset is refused by WriteAt and
   * its error returned, with the file untouched.
   */
  method ClearValue(file: File, e: Element) returns (err: Option<string>)
    modifies file
    ensures err.Some? <==> e.size > 0 && e.dataAt < 0
    ensures e.size == 0 || e.dataAt < 0 ==> file.content == old(file.content)
    ensures e.size > 0 && e.dataAt >= 0 ==> file.content == Grown(old(file.content), e.dataAt, Zeros(e.size))
  {
    if e.size == 0 {
      return None;
    }
    var data := Zeros(e.size);
    if e.dataAt < 0 {
      return Some(NegativeOffset);
    }
    file.WriteAt(e.dataAt, data);
    return None;
  }
}

module EbmlCache {
  import opened Bytes
  import opened Ebml

  /** The payload as FindFirstElement compares it: an unreadable payload counts as nil, which equals only an empty value. */
  function PayloadOrNil(f: seq<byte>, e: Element): seq<byte>
  {
    match GetBytes(f, e)
    case Ok(data) => data
    case Failure(_) => []
  }

  /** FindFirstElement's match rule: same ID and, when a value is given, the same payload. */
  predicate Matches(f: seq<byte>, e: Element, id: seq<byte>, value: Option<seq<byte>>)
  {
    e.id == id && (value.None? || PayloadOrNil(f, e) == value.value)
  }

  /** The first element of `els` that matches. */
  function FirstMatch(f: seq<byte>, els: seq<Element>, id: seq<byte>, value: Option<seq<byte>>): (r: Option<Element>)
    ensures r.None? <==> forall e :: e in els ==> !Matches(f, e, id, value)
    ensures r.Some? ==> r.value in els && Matches(f, r.value, id, value)
  {
    if |els| == 0 then None
    else if Matches(f, els[0], id, value) then Some(els[0])
    else
      assert forall e :: e in els ==> e == els[0] || e in els[1..];
      FirstMatch(f, els[1..], id, value)
  }

  /** Where a lookup that misses the cache resumes reading: after the last cached child. */
  function ResumeAt(cache: seq<Element>, dataAt: int): int
  {
    if |cache| == 0 then dataAt else cache[|cache| - 1].End()
  }

  /** What FindFirstElement hands back: the element, the shared empty element, or nil after a read error. */
  datatype Lookup = Hit(element: Element) | Miss | ReadFailure

  /** Reads children one by one from `off` until one matches, the limit is reached, or a read fails. */
  function ScanFor(f: seq<byte>, off: int, limit: int, id: seq<byte>, value: Option<seq<byte>>): Lookup
    decreases if off < limit then limit - off else 0
  {
    if off >= limit then Miss
    else match NewEBMLElement(f, off)
      case Failure(_) => ReadFailure
      case Ok((e, next)) => if Matches(f, e, id, value) then Hit(e) else ScanFor(f, next, limit, id, value)
  }

  /** GetElements reads at most this many children. */
  const MaxChildren: int := 9999

  /** The elements of a walk, or nil when it failed. */
  function OrNil(w: Result<seq<Element>>): seq<Element>
  {
    if w.Ok? then w.value else []
  }

  /** The first loop of FindFirstElement: the cached children in order, and where reading would resume. */
  method SearchCache(f: seq<byte>, cache: seq<Element>, dataAt: int, id: seq<byte>, value: Option<seq<byte>>)
    returns (found: Option<Element>, resume: int)
    ensures found == FirstMatch(f, cache, id, value)
    ensures found.None? ==> resume == ResumeAt(cache, dataAt)
  {
    resume := dataAt;
    var i := 0;
    while i < |cache|
      invariant 0 <= i <= |cache|
      invariant resume == ResumeAt(cache[..i], dataAt)
      invariant FirstMatch(f, cache, id, value) == FirstMatch(f, cache[i..], id, value)
    {
      var child := cache[i];
      assert cache[i..][1..] == cache[i + 1..];
      if child.id == id {
        if value.None? {
          return Some(child), resume;
        } else {
          var data := PayloadOrNil(f, child);
          if data == value.value {
            return Some(child), resume;
          }
        }
      }
      resume := child.End();
      i := i + 1;
      assert cache[..i][i - 1] == child;
    }
    assert cache[..i] == cache;
    return None, resume;
  }

  /** The second loop of FindFirstElement: children read from the file until one matches. */
  method ScanChildren(f: seq<byte>, off: int, limit: int, id: seq<byte>, value: Option<seq<byte>>) returns (r: Lookup)
    ensures r == ScanFor(f, off, limit, id, value)
  {
    var fileOffset := off;
    while fileOffset < limit
      invariant ScanFor(f, off, limit, id, value) == ScanFor(f, fileOffset, limit, id, value)
      decreases limit - fileOffset
    {
      var step := NewEBMLElement(f, fileOffset);
      if step.Failure? {
        return ReadFailure;
      }
      var (element, next) := step.value;
      fileOffset := next;
      if element.id == id {
        if value.None? {
          return Hit(element);
        } else {
          var data := PayloadOrNil(f, element);
          if data == value.value {
            return Hit(element);
          }
        }
      }
    }
    return Miss;
  }

  /**
   * An element together with its lazily filled cache of children. Go marks
   * an unfilled cache with a nil slice, and a walk that finds no child also
   * yields nil, so the empty sequence here stands for "not cached".
   */
  class EBMLElement {
    const ElementID: seq<byte>
    const Size: nat
    const StartAt: int
    const DataAt: int
    const File: array<byte>
    var Elements: seq<Element>

    constructor (header: Element, file: array<byte>)
      ensures ElementID == header.id && Size == header.size
      ensures StartAt == header.startAt && DataAt == header.dataAt
      ensures File == file && Elements == []
    {
      ElementID := header.id;
      Size := header.size;
      StartAt := header.startAt;
      DataAt := header.dataAt;
      File := file;
      Elements := [];
    }

    /**
     * Looks a child up: first among the cached children, then by reading on
     * from the end of the last cached child; a child found by reading is
     * appended to the cache.
     */
    method FindFirstElement(elementId: seq<byte>, value: Option<seq<byte>>) returns (r: Lookup)
      modifies this
      ensures FirstMatch(old(File[..]), old(Elements), elementId, value).Some? ==>
        r == Hit(FirstMatch(old(File[..]), old(Elements), elementId, value).value) && Elements == old(Elements)
      ensures FirstMatch(old(File[..]), old(Elements), elementId, value).None? ==>
        r == ScanFor(old(File[..]), ResumeAt(old(Elements), DataAt), DataAt + Size, elementId, value)
        && Elements == (if r.Hit? then old(Elements) + [r.element] else old(Elements))
    {
      var f := File[..];
      var cached, resume := SearchCache(f, Elements, DataAt, elementId, value);
      if cached.Some? {
        return Hit(cached.value);
      }
      r := ScanChildren(f, resume, DataAt + Size, elementId, value);
      if r.Hit? {
        Elements := Elements + [r.element];
      }
    }

    /** Returns the cached children, or walks (at most MaxChildren of) them and caches the result. */
    method GetElements() returns (r: seq<Element>)
      modifies this
      ensures old(Elements) != [] ==> r == old(Elements)
      ensures old(Elements) == [] ==> r == OrNil(Walk(old(File[..]), DataAt, DataAt + Size, MaxChildren))
      ensures Elements == r
    {
      var f := File[..];
      if Elements != [] {
        return Elements;
      }
      var walked := GetEBMLElements(f, DataAt, DataAt + Size, MaxChildren);
      assert walked == Walk(f, DataAt, DataAt + Size, MaxChildren);
      r := OrNil(walked);
      Elements := r;
    }
  }

  /** A search result as a lookup: found, or the empty element. */
  function AsLookup(found: Option<Element>): Lookup
  {
    if found.Some? then Hit(found.value) else Miss
  }

  /**
   * Reading children lazily finds exactly what searching the complete child
   * list finds, provided the walk of that list ended on its own.
   */
  lemma {:induction false} ScanAgreesWithWalk(f: seq<byte>, off: int, limit: int, n: int,
                                               id: seq<byte>, value: Option<seq<byte>>)
    requires Walk(f, off, limit, n).Ok? && |Walk(f, off, limit, n).value| < n
    ensures ScanFor(f, off, limit, id, value) == AsLookup(FirstMatch(f, Walk(f, off, limit, n).value, id, value))
    decreases if off < limit then limit - off else 0
  {
    if off < limit {
      var e, next, rest := WalkStep(f, off, limit, n);
      if !Matches(f, e, id, value) {
        ScanAgreesWithWalk(f, next, limit, n - 1, id, value);
      }
      ScanAgreesStep(f, off, limit, n, id, value, e, next, rest);
    } else {
      assert Walk(f, off, limit, n).value == [];
    }
  }

  /** The induction step of ScanAgreesWithWalk. */
  lemma ScanAgreesStep(f: seq<byte>, off: int, limit: int, n: int, id: seq<byte>, value: Option<seq<byte>>,
                       e: Element, next: int, rest: seq<Element>)
    requires off < limit && NewEBMLElement(f, off) == Ok((e, next))
    requires Walk(f, off, limit, n).Ok? && Walk(f, off, limit, n).value == [e] + rest
    requires !Matches(f, e, id, value) ==> ScanFor(f, next, limit, id, value) == AsLookup(FirstMatch(f, rest, id, value))
    ensures ScanFor(f, off, limit, id, value) == AsLookup(FirstMatch(f, Walk(f, off, limit, n).value, id, value))
  {
    ScanStep(f, off, limit, id, value, e, next);
    FirstMatchCons(f, e, rest, id, value);
  }

  /** The first step of a successful walk that has not reached its limit. */
  lemma WalkStep(f: seq<byte>, off: int, limit: int, n: int) returns (e: Element, next: int, rest: seq<Element>)
    requires off < limit && Walk(f, off, limit, n).Ok? && |Walk(f, off, limit, n).value| < n
    ensures NewEBMLElement(f, off) == Ok((e, next)) && next > off
    ensures Walk(f, next, limit, n - 1) == Ok(rest) && |rest| < n - 1
    ensures Walk(f, off, limit, n).value == [e] + rest
  {
    ElementAdvances(f, off);
    e := NewEBMLElement(f, off).value.0;
    next := NewEBMLElement(f, off).value.1;
    rest := Walk(f, next, limit, n - 1).value;
  }

  lemma FirstMatchCons(f: seq<byte>, e: Element, rest: seq<Element>, id: seq<byte>, value: Option<seq<byte>>)
    ensures FirstMatch(f, [e] + rest, id, value) == if Matches(f, e, id, value) then Some(e) else FirstMatch(f, rest, id, value)
  {
    assert ([e] + rest)[1..] == rest;
  }

  /**
   * The resume rule hides children: once a later child is cached, an
   * earlier one is never found, although a scan from the start finds it.
   */
  lemma CacheHidesEarlierChildren(f: seq<byte>)
    requires |f| >= 11 && f[0] == 0x81 && f[1] == 0x80 && f[2] == 0x82 && f[3] == 0x80
    ensures var first := Element([0x81], 0, 0, 2);
      var second := Element([0x82], 0, 2, 4);
      ScanFor(f, 0, 4, [0x82], None) == Hit(second)
      && ScanFor(f, 0, 4, [0x81], None) == Hit(first)
      && FirstMatch(f, [second], [0x81], None).None?
      && ScanFor(f, ResumeAt([second], 0), 4, [0x81], None) == Miss
  {
    var first := Element([0x81], 0, 0, 2);
    var second := Element([0x82], 0, 2, 4);
    HeaderAt(f, 0, 1, [0x81], first, 2);
    HeaderAt(f, 2, 2, [0x82], second, 4);
    TwoChildren(f, [0x81], [0x82], first, second);
  }

  /** Two empty children back to back in [0, 4): each is found by a scan from 0, and the second hides the first. */
  lemma TwoChildren(f: seq<byte>, id1: seq<byte>, id2: seq<byte>, first: Element, second: Element)
    requires id1 == [0x81] && id2 == [0x82] && first == Element(id1, 0, 0, 2) && second == Element(id2, 0, 2, 4)
    requires NewEBMLElement(f, 0) == Ok((first, 2)) && NewEBMLElement(f, 2) == Ok((second, 4))
    ensures ScanFor(f, 0, 4, id2, None) == Hit(second)
      && ScanFor(f, 0, 4, id1, None) == Hit(first)
      && FirstMatch(f, [second], id1, None).None?
      && ScanFor(f, ResumeAt([second], 0), 4, id1, None) == Miss
  {
    assert id1 != id2 by {
      assert id1[0] != id2[0];
    }
    ScanStep(f, 2, 4, id2, None, second, 4);
    ScanStep(f, 0, 4, id2, None, first, 2);
    ScanStep(f, 0, 4, id1, None, first, 2);
    assert !Matches(f, second, id1, None);
    assert ResumeAt([second], 0) == 4;
  }

  /** One step of the scan, unfolded. */
  lemma ScanStep(f: seq<byte>, off: int, limit: int, id: seq<byte>, value: Option<seq<byte>>, e: Element, next: int)
    requires off < limit && NewEBMLElement(f, off) == Ok((e, next))
    ensures ScanFor(f, off, limit, id, value) == if Matches(f, e, id, value) then Hit(e) else ScanFor(f, next, limit, id, value)
  {
  }

  /** A one-byte ID 0x80|x followed by the one-byte size 0x80 is an empty element two bytes long. */
  lemma HeaderAt(f: seq<byte>, off: nat, x: nat, id: seq<byte>, e: Element, next: int)
    requires off + 9 <= |f| && x < 128 && f[off] as nat == 128 + x && f[off + 1] == 0x80 && id == [f[off]]
    requires e == Element(id, 0, off, off + 2) && next == off + 2
    ensures NewEBMLElement(f, off) == Ok((e, next))
  {
    ShortVint(f[off..off + 8], x);
    ShortVint(f[off + 1..off + 9], 0);
    assert ReadAt(f, off, 8) == Data(f[off..off + 8]) && ReadAt(f, off + 1, 8) == Data(f[off + 1..off + 9]);
    assert f[off..off + 8][..1] == id;
  }

  /** A one-byte VINT 0x80|x decodes to x. */
  lemma ShortVint(v: seq<byte>, x: nat)
    requires |v| == 8 && x < 128 && v[0] as nat == 128 + x
    ensures VSize(v) == (x, 1)
  {
    PowersOfTwo();
    assert VintWidth(v[0]) == 1;
    assert Unmarked(v[0], 1) as nat == x;
    assert v[1..1] == [];
    var u := [Unmarked(v[0], 1)];
    assert BE(u) == x by { assert u[..0] == []; }
  }
}
