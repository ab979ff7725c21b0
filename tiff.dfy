/**
 * What both EXIF readers share (section 2 of TIFF 6.0): the byte-order
 * switch ("II" little-endian, "MM" big-endian, any other pair makes every
 * read return 0), the layout of an image file directory (a u16 entry
 * count, 12-byte entries, a u32 next offset), and how one entry lands in
 * a tag map. The two readers differ only in where TIFF offsets point into
 * the buffer, which is the `shift` parameter below (0 in the JPEG reader,
 * 6 in the shared one).
 */
module Tiff {
  import opened Bytes

  datatype Order = Little | Big | Unknown

  /** The order a two-byte mark announces. */
  function OrderOf(mark: seq<byte>): Order
    requires |mark| >= 2
  {
    if mark[0] == 0x49 && mark[1] == 0x49 then Little
    else if mark[0] == 0x4D && mark[1] == 0x4D then Big
    else Unknown
  }

  /** getUint16: two bytes in the announced order. */
  function Uint16(o: Order, v: seq<byte>): (r: nat)
    requires |v| == 2
    ensures r < 0x1_0000
  {
    match o
    case Little => v[0] as nat + 0x100 * v[1] as nat
    case Big => 0x100 * v[0] as nat + v[1] as nat
    case Unknown => 0
  }

  /** getUint32: four bytes in the announced order. */
  function Uint32(o: Order, v: seq<byte>): (r: nat)
    requires |v| == 4
    ensures r < 0x1_0000_0000
  {
    match o
    case Little => v[0] as nat + 0x100 * v[1] as nat + 0x1_0000 * v[2] as nat + 0x100_0000 * v[3] as nat
    case Big => 0x100_0000 * v[0] as nat + 0x1_0000 * v[1] as nat + 0x100 * v[2] as nat + v[3] as nat
    case Unknown => 0
  }

  /** The reads above are the little- and big-endian values of the bytes. */
  lemma ReadsAreEndian(v: seq<byte>, w: seq<byte>)
    requires |v| == 2 && |w| == 4
    ensures Uint16(Little, v) == LE(v) && Uint16(Big, v) == BE(v)
    ensures Uint32(Little, w) == LE(w) && Uint32(Big, w) == BE(w)
  {
    assert LE(v[1..][1..]) == 0 && LE(v[1..]) == v[1] as nat;
    assert BE(v[..1][..0]) == 0 && BE(v[..1]) == v[0] as nat;
    var w1, w2, w3 := w[1..], w[1..][1..], w[1..][1..][1..];
    assert LE(w3[1..]) == 0 && LE(w3) == w[3] as nat;
    assert LE(w2) == w[2] as nat + 0x100 * w[3] as nat;
    assert LE(w1) == w[1] as nat + 0x100 * w[2] as nat + 0x1_0000 * w[3] as nat;
    BE4(w);
  }

  /**
   * A value written in the order an "II" or "MM" mark announces reads back
   * as itself; under any other mark it reads as 0.
   */
  lemma ReadsBack(mark: seq<byte>, x: nat, y: nat)
    requires |mark| >= 2 && x < 0x1_0000 && y < 0x1_0000_0000
    ensures mark[0] == 0x49 && mark[1] == 0x49 ==>
      Uint16(OrderOf(mark), LEBytes(x, 2)) == x && Uint32(OrderOf(mark), LEBytes(y, 4)) == y
    ensures mark[0] == 0x4D && mark[1] == 0x4D ==>
      Uint16(OrderOf(mark), BEBytes(x, 2)) == x && Uint32(OrderOf(mark), BEBytes(y, 4)) == y
    ensures OrderOf(mark) == Unknown <==> !(mark[0] == mark[1] && (mark[0] == 0x49 || mark[0] == 0x4D))
    ensures OrderOf(mark) == Unknown ==>
      forall v: seq<byte>, w: seq<byte> :: |v| == 2 && |w| == 4 ==> Uint16(OrderOf(mark), v) == 0 && Uint32(OrderOf(mark), w) == 0
  {
    Pow256Widths();
    ReadsAreEndian(LEBytes(x, 2), LEBytes(y, 4));
    ReadsAreEndian(BEBytes(x, 2), BEBytes(y, 4));
    LEBytesRoundTrip(x, 2);
    LEBytesRoundTrip(y, 4);
    BEBytesRoundTrip(x, 2);
    BEBytesRoundTrip(y, 4);
  }

  // ---- the image file directory ----

  /** Tag 0x8769: its value is the offset of the Exif sub-directory, and it is never stored. */
  const ExifLink: nat := 0x8769

  /** One 12-byte directory entry: tag, field type, value count, value (or value offset). */
  datatype Entry = Entry(tag: nat, kind: nat, count: nat, value: nat)

  /** The entry at buffer position `p`. */
  function EntryAt(raw: seq<byte>, o: Order, p: nat): (e: Entry)
    requires p + 12 <= |raw|
    ensures e.value < 0x1_0000_0000 && e.tag < 0x1_0000
  {
    Entry(Uint16(o, raw[p..p + 2]), Uint16(o, raw[p + 2..p + 4]), Uint32(o, raw[p + 4..p + 8]), Uint32(o, raw[p + 8..p + 12]))
  }

  /** The entry count of the directory at buffer position `p`. */
  function TagCount(raw: seq<byte>, o: Order, p: nat): nat
    requires p + 2 <= |raw|
  {
    Uint16(o, raw[p..p + 2])
  }

  /**
   * Every slice the directory reader takes at buffer position `p` lies
   * inside the buffer and no uint32 cursor wraps; otherwise it panics.
   */
  predicate IfdFits(raw: seq<byte>, o: Order, p: nat)
  {
    p + 2 <= |raw| && p + 6 + 12 * TagCount(raw, o, p) <= |raw| && p + 6 + 12 * TagCount(raw, o, p) < 0x1_0000_0000
  }

  /** The `k`-th entry of those laid out from `p`. */
  function EntryNo(raw: seq<byte>, o: Order, p: nat, k: nat): Entry
    requires p + 12 * k + 12 <= |raw|
  {
    EntryAt(raw, o, p + 12 * k)
  }

  /** The u32 after the entries: the offset of the next directory, 0 for none. */
  function NextOffset(raw: seq<byte>, o: Order, p: nat): (r: nat)
    requires IfdFits(raw, o, p)
    ensures r < 0x1_0000_0000
  {
    var q := p + 2 + 12 * TagCount(raw, o, p);
    Uint32(o, raw[q..q + 4])
  }

  /** The values of the link entries among the `n` entries from `p`, in entry order. */
  function LinksFrom(raw: seq<byte>, o: Order, p: nat, n: nat): seq<nat>
    requires p + 12 * n <= |raw|
    decreases n
  {
    if n == 0 then []
    else (if EntryAt(raw, o, p).tag == ExifLink then [EntryAt(raw, o, p).value] else []) + LinksFrom(raw, o, p + 12, n - 1)
  }

  /** The link values of the directory at `p`. */
  function DirectoryLinks(raw: seq<byte>, o: Order, p: nat): seq<nat>
    requires IfdFits(raw, o, p)
  {
    LinksFrom(raw, o, p + 2, TagCount(raw, o, p))
  }

  /** Numbering the entries from the next one on (at `q`) shifts every index by one. */
  lemma EntryNoShift(raw: seq<byte>, o: Order, p: nat, q: nat, n: nat)
    requires p + 12 * n <= |raw| && q == p + 12
    ensures forall k :: 0 < k < n ==> EntryNo(raw, o, p, k) == EntryNo(raw, o, q, k - 1)
    ensures forall k :: 0 <= k < n - 1 ==> EntryNo(raw, o, q, k) == EntryNo(raw, o, p, k + 1)
    ensures n > 0 ==> EntryNo(raw, o, p, 0) == EntryAt(raw, o, p)
  {
    forall k | 0 < k < n
      ensures EntryNo(raw, o, p, k) == EntryNo(raw, o, q, k - 1)
    {
      assert p + 12 * k == q + 12 * (k - 1);
    }
    forall k | 0 <= k < n - 1
      ensures EntryNo(raw, o, q, k) == EntryNo(raw, o, p, k + 1)
    {
      assert p + 12 * (k + 1) == q + 12 * k;
    }
  }

  /** The links are exactly the values of the entries tagged 0x8769. */
  lemma {:induction false} LinksMeaning(raw: seq<byte>, o: Order, p: nat, n: nat)
    requires p + 12 * n <= |raw|
    ensures forall v :: v in LinksFrom(raw, o, p, n) <==> exists k :: 0 <= k < n && EntryNo(raw, o, p, k).tag == ExifLink && EntryNo(raw, o, p, k).value == v
    decreases n
  {
    if n > 0 {
      LinksMeaning(raw, o, p + 12, n - 1);
      EntryNoShift(raw, o, p, p + 12, n);
    }
  }

  // ---- storing entries ----

  type Tags = map<nat, seq<byte>>

  /** Field types 2 (ASCII) and 129 (UTF-8) hold text; every other type is stored as the decimal of its value field. */
  predicate IsText(e: Entry) { e.kind == 2 || e.kind == 129 }

  /** Where a text value starts in the buffer, and where the slice ends (one byte short of the count, dropping the NUL); both wrap as uint32. */
  function TextStart(e: Entry, shift: nat): nat { U32(e.value + shift) }
  function TextEnd(e: Entry, shift: nat): nat { U32(TextStart(e, shift) + e.count - 1) }

  /** A text slice whose end is inside the buffer but before its start panics. */
  predicate Panics(raw: seq<byte>, e: Entry, shift: nat)
  {
    e.tag != ExifLink && IsText(e) && TextEnd(e, shift) <= |raw| && TextStart(e, shift) > TextEnd(e, shift)
  }

  /** The string an entry writes under its tag; None for a link and for a text value whose end lies past the buffer. */
  function Written(raw: seq<byte>, e: Entry, shift: nat): Option<seq<byte>>
    requires !Panics(raw, e, shift)
  {
    if e.tag == ExifLink then None
    else if IsText(e) then
      if TextEnd(e, shift) > |raw| then None else Some(raw[TextStart(e, shift)..TextEnd(e, shift)])
    else Some(Decimal(e.value))
  }

  /** The map after one entry; None when the entry panics. */
  function Stored(m: Tags, raw: seq<byte>, e: Entry, shift: nat): Option<Tags>
  {
    if Panics(raw, e, shift) then None
    else match Written(raw, e, shift)
      case Some(v) => Some(m[e.tag := v])
      case None => Some(m)
  }

  /** The map after the `n` entries from `p`, in order; None when one of them panics. */
  function StoreFrom(m: Tags, raw: seq<byte>, o: Order, p: nat, n: nat, shift: nat): Option<Tags>
    requires p + 12 * n <= |raw|
    decreases n
  {
    if n == 0 then Some(m)
    else match Stored(m, raw, EntryAt(raw, o, p), shift)
      case None => None
      case Some(m1) => StoreFrom(m1, raw, o, p + 12, n - 1, shift)
  }

  /** The map after the entries of the directory at `p`. */
  function StoreDirectory(m: Tags, raw: seq<byte>, o: Order, p: nat, shift: nat): Option<Tags>
    requires IfdFits(raw, o, p)
  {
    StoreFrom(m, raw, o, p + 2, TagCount(raw, o, p), shift)
  }

  /**
   * A text entry with a non-empty count whose bytes do not wrap stores
   * `count - 1` bytes from its start, or nothing when they run past the
   * buffer; any other non-link entry stores the decimal of its value
   * field, which reads back as that value.
   */
  lemma WrittenMeaning(raw: seq<byte>, e: Entry, shift: nat)
    requires e.tag != ExifLink && e.value + shift + e.count <= 0x1_0000_0000
    ensures IsText(e) && e.count >= 1 ==>
      !Panics(raw, e, shift)
      && (e.value + shift + e.count - 1 <= |raw| ==> Written(raw, e, shift) == Some(raw[e.value + shift..e.value + shift + e.count - 1]))
      && (e.value + shift + e.count - 1 > |raw| ==> Written(raw, e, shift) == None)
    ensures !IsText(e) ==> !Panics(raw, e, shift) && Written(raw, e, shift) == Some(Decimal(e.value)) && Atoi(Decimal(e.value)) == Some(e.value)
  {
    if !IsText(e) {
      DecimalAtoi(e.value);
    }
  }

  /** A text entry with count 0 and a start inside the buffer panics: its end lies one before its start. */
  lemma EmptyTextPanics(raw: seq<byte>, e: Entry, shift: nat)
    requires e.tag != ExifLink && IsText(e) && e.count == 0 && 0 < e.value + shift <= |raw| && e.value + shift < 0x1_0000_0000
    ensures Panics(raw, e, shift) && Stored(map[], raw, e, shift) == None
  {
  }

  /** The first entry, then the rest from `q` on. */
  lemma StoreFromStep(m: Tags, raw: seq<byte>, o: Order, p: nat, n: nat, q: nat, n': nat, shift: nat) returns (m1: Tags)
    requires p + 12 * n <= |raw| && n > 0 && q == p + 12 && n' + 1 == n && StoreFrom(m, raw, o, p, n, shift).Some?
    ensures Stored(m, raw, EntryAt(raw, o, p), shift) == Some(m1)
    ensures StoreFrom(m, raw, o, p, n, shift) == StoreFrom(m1, raw, o, q, n', shift)
  {
    m1 := Stored(m, raw, EntryAt(raw, o, p), shift).value;
  }

  /** The link values: the first entry's, then the rest from `q` on. */
  lemma LinksFromStep(raw: seq<byte>, o: Order, p: nat, n: nat, q: nat, n': nat)
    requires p + 12 * n <= |raw| && n > 0 && q == p + 12 && n' + 1 == n
    ensures LinksFrom(raw, o, p, n) == (if EntryAt(raw, o, p).tag == ExifLink then [EntryAt(raw, o, p).value] else []) + LinksFrom(raw, o, q, n')
  {
  }

  /** Storing `n == a + b` entries stores the first `a`, then the `b` from `r == p + 12 * a` on into the result. */
  lemma {:induction false} StoreFromSplit(m: Tags, raw: seq<byte>, o: Order, p: nat, a: nat, b: nat, n: nat, r: nat, shift: nat)
    requires n == a + b && r == p + 12 * a && p + 12 * n <= |raw|
    ensures StoreFrom(m, raw, o, p, n, shift)
      == (match StoreFrom(m, raw, o, p, a, shift) case None => None case Some(m1) => StoreFrom(m1, raw, o, r, b, shift))
    decreases a
  {
    if a == 0 {
      assert StoreFrom(m, raw, o, p, a, shift) == Some(m);
    } else {
      var q, a', n' := p + 12, a - 1, n - 1;
      match Stored(m, raw, EntryAt(raw, o, p), shift)
      case None =>
        assert StoreFrom(m, raw, o, p, n, shift) == None;
        assert StoreFrom(m, raw, o, p, a, shift) == None;
      case Some(m1) =>
        assert StoreFrom(m, raw, o, p, n, shift) == StoreFrom(m1, raw, o, q, n', shift);
        assert StoreFrom(m, raw, o, p, a, shift) == StoreFrom(m1, raw, o, q, a', shift);
        StoreFromSplit(m1, raw, o, q, a', b, n', r, shift);
    }
  }

  /**
   * Storing keeps every key already present and adds only tags of the
   * entries, never the link tag.
   */
  lemma {:induction false} StoreFromKeys(m: Tags, raw: seq<byte>, o: Order, p: nat, n: nat, shift: nat)
    requires p + 12 * n <= |raw| && StoreFrom(m, raw, o, p, n, shift).Some?
    ensures forall t :: t in m ==> t in StoreFrom(m, raw, o, p, n, shift).value
    ensures forall t :: t in StoreFrom(m, raw, o, p, n, shift).value ==>
      t in m || (t != ExifLink && exists k :: 0 <= k < n && EntryNo(raw, o, p, k).tag == t)
    decreases n
  {
    if n > 0 {
      var q, n' := p + 12, n - 1;
      var m1 := StoreFromStep(m, raw, o, p, n, q, n', shift);
      StoreFromKeys(m1, raw, o, q, n', shift);
      EntryNoShift(raw, o, p, q, n);
    }
  }

  /** The last entry that writes a tag decides its value: later writers overwrite earlier ones. */
  lemma {:induction false} StoreFromLast(m: Tags, raw: seq<byte>, o: Order, p: nat, n: nat, shift: nat, k: nat)
    requires p + 12 * n <= |raw| && StoreFrom(m, raw, o, p, n, shift).Some? && k < n
    requires !Panics(raw, EntryNo(raw, o, p, k), shift) && Written(raw, EntryNo(raw, o, p, k), shift).Some?
    requires forall j :: k < j < n ==> EntryNo(raw, o, p, j).tag != EntryNo(raw, o, p, k).tag
    ensures EntryNo(raw, o, p, k).tag in StoreFrom(m, raw, o, p, n, shift).value
    ensures StoreFrom(m, raw, o, p, n, shift).value[EntryNo(raw, o, p, k).tag] == Written(raw, EntryNo(raw, o, p, k), shift).value
    decreases n
  {
    var q, n' := p + 12, n - 1;
    var m1 := StoreFromStep(m, raw, o, p, n, q, n', shift);
    EntryNoShift(raw, o, p, q, n);
    var e := EntryNo(raw, o, p, k);
    if k == 0 {
      assert e == EntryAt(raw, o, p);
      assert m1 == m[e.tag := Written(raw, e, shift).value];
      assert forall j :: 0 <= j < n' ==> EntryNo(raw, o, q, j).tag != e.tag;
      StoreFromUntouched(m1, raw, o, q, n', shift, e.tag);
    } else {
      var k' := k - 1;
      assert EntryNo(raw, o, q, k') == e;
      assert forall j :: k' < j < n' ==> EntryNo(raw, o, q, j).tag != e.tag;
      StoreFromLast(m1, raw, o, q, n', shift, k');
    }
  }

  /** A tag no entry carries keeps its value. */
  lemma {:induction false} StoreFromUntouched(m: Tags, raw: seq<byte>, o: Order, p: nat, n: nat, shift: nat, t: nat)
    requires p + 12 * n <= |raw| && StoreFrom(m, raw, o, p, n, shift).Some? && t in m
    requires forall j :: 0 <= j < n ==> EntryNo(raw, o, p, j).tag != t
    ensures t in StoreFrom(m, raw, o, p, n, shift).value && StoreFrom(m, raw, o, p, n, shift).value[t] == m[t]
    decreases n
  {
    if n > 0 {
      var q, n' := p + 12, n - 1;
      var m1 := StoreFromStep(m, raw, o, p, n, q, n', shift);
      EntryNoShift(raw, o, p, q, n);
      assert forall j :: 0 <= j < n' ==> EntryNo(raw, o, q, j).tag != t;
      StoreFromUntouched(m1, raw, o, q, n', shift, t);
    }
  }

  // ---- the entry loop ----

  /** The entry loop of both readers' ParseIFD over the `n` entries from `p`. */
  method StoreEntries(result: Tags, raw: seq<byte>, o: Order, p: nat, n: nat, shift: nat) returns (result': Tags, links: seq<nat>, i: nat)
    requires p + 12 * n <= |raw| && StoreFrom(result, raw, o, p, n, shift).Some?
    ensures result' == StoreFrom(result, raw, o, p, n, shift).value
    ensures links == LinksFrom(raw, o, p, n) && i == p + 12 * n
  {
    ghost var stored := StoreFrom(result, raw, o, p, n, shift);
    ghost var all := LinksFrom(raw, o, p, n);
    i := p;
    links := [];
    result' := result;
    var left: nat := n;
    while left > 0
      invariant i + 12 * left == p + 12 * n
      invariant StoreFrom(result', raw, o, i, left, shift) == stored
      invariant links + LinksFrom(raw, o, i, left) == all
    {
      result', links, i, left := StoreEntry(result', raw, o, i, left, links, shift);
    }
    assert links + [] == links;
  }

  /**
   * One pass of ParseIFD's entry loop: the entry at `i` goes into the map,
   * or into the links when it is tag 0x8769. A text value starts `shift`
   * bytes after its TIFF offset; with shift 0 that is the offset itself.
   */
  method StoreEntry(result: Tags, raw: seq<byte>, o: Order, i: nat, k: nat, links: seq<nat>, shift: nat)
    returns (result': Tags, links': seq<nat>, i': nat, k': nat)
    requires k > 0 && i + 12 * k <= |raw| && StoreFrom(result, raw, o, i, k, shift).Some?
    ensures i' == i + 12 && k' + 1 == k
    ensures StoreFrom(result', raw, o, i', k', shift) == StoreFrom(result, raw, o, i, k, shift)
    ensures links' + LinksFrom(raw, o, i', k') == links + LinksFrom(raw, o, i, k)
  {
    i', k' := i + 12, k - 1;
    ghost var m1 := StoreFromStep(result, raw, o, i, k, i', k', shift);
    LinksFromStep(raw, o, i, k, i', k');
    var tagId := Uint16(o, raw[i..i + 2]);
    var tagType := Uint16(o, raw[i + 2..i + 4]);
    var valueCount := Uint32(o, raw[i + 4..i + 8]);
    var valueOffset := Uint32(o, raw[i + 8..i + 12]);
    var e := Entry(tagId, tagType, valueCount, valueOffset);
    assert e == EntryAt(raw, o, i);
    ghost var rest := LinksFrom(raw, o, i', k');
    result', links' := result, links;
    if tagId == ExifLink {
      links' := links + [valueOffset];
      assert links' + rest == links + ([valueOffset] + rest);
    } else {
      assert [] + rest == rest;
      result' := StoreValue(result, raw, e, shift);
    }
  }

  /** The map after one entry that is not a link: a text value's slice, or the decimal of the value field. */
  method StoreValue(result: Tags, raw: seq<byte>, e: Entry, shift: nat) returns (result': Tags)
    requires e.tag != ExifLink && Stored(result, raw, e, shift).Some?
    ensures Stored(result, raw, e, shift) == Some(result')
  {
    if e.kind == 2 || e.kind == 129 {
      var start := U32(e.value + shift);
      var end := U32(start as int + e.count - 1);
      assert start == TextStart(e, shift) && end == TextEnd(e, shift);
      result' := result;
      if end <= |raw| {
        result' := result[e.tag := raw[start..end]];
      }
    } else {
      result' := result[e.tag := Decimal(e.value)];
    }
  }
}
