/**
 * The EXIF reader that the WebP parser uses. Its buffer starts with
 * "Exif" and two NUL bytes, so every TIFF offset lands 6 bytes further
 * on. Unlike the JPEG reader, it returns one directory per IFD, each with
 * its own tag map. The order is each directory of the next-offset chain,
 * then the sub-directories its 0x8769 entries name, then the next
 * directory. PrintExif lists every directory's tags in ascending tag
 * order.
 */
module SharedExif {
  import opened Bytes
  import opened Tiff

  /** One directory as the reader returns it: its TIFF offset and its own tag map. */
  datatype Ifd = Ifd(startOffset: nat, tags: Tags)

  /** "Exif". */
  const ExifMark: seq<byte> := [0x45, 0x78, 0x69, 0x66]

  /** The TIFF magic number 42 (section 2 of TIFF 6.0). */
  const TiffMagic: nat := 0x2A

  /** TIFF offsets count from byte 6, after "Exif" and its two NUL bytes. */
  const Shift: nat := 6

  // ---- the header ----

  /**
   * The header reads stay inside `raw`. The NUL test reads raw[5] only when
   * raw[4] is not NUL, and each later read happens only once the test
   * before it has passed.
   */
  predicate HeaderFits(raw: seq<byte>)
  {
    |raw| >= 4
    && (raw[0..4] == ExifMark ==>
          |raw| >= 5 && (raw[4] != 0 ==> |raw| >= 6)
          && (!(raw[4] != 0 && raw[5] != 0) ==>
                |raw| >= 10 && (Uint16(OrderOf(raw[6..8]), raw[8..10]) == TiffMagic ==> |raw| >= 14)))
  }

  /** The byte order the header announces in bytes 6..8. */
  function OrderIn(raw: seq<byte>): Order
    requires |raw| >= 8
  {
    OrderOf(raw[6..8])
  }

  /** The TIFF offset of the first directory, or None when a header check makes ParseExif return nil. */
  function FirstOffset(raw: seq<byte>): (r: Option<nat>)
    requires HeaderFits(raw)
    ensures r.Some? ==> |raw| >= 14
  {
    if raw[0..4] != ExifMark then None
    else if raw[4] != 0 && raw[5] != 0 then None
    else if Uint16(OrderIn(raw), raw[8..10]) != TiffMagic then None
    else Some(Uint32(OrderIn(raw), raw[10..14]))
  }

  // ---- the directories ----

  /** Where ParseIFD reads the directory at TIFF offset `start`: 6 bytes on, added in 32 bits. */
  function Position(start: nat): (p: nat)
    ensures p == U32(start + Shift)
  {
    if start + Shift < 0x1_0000_0000 then start + Shift else U32(start + Shift)
  }

  /** The directory at `start`, its entries stored into a fresh map; None when reading it panics. */
  function ReadIfd(raw: seq<byte>, o: Order, start: nat): Option<Ifd>
  {
    if !IfdFits(raw, o, Position(start)) then None
    else match StoreDirectory(map[], raw, o, Position(start), Shift)
      case None => None
      case Some(tags) => Some(Ifd(start, tags))
  }

  /** The directory at `start` is read without a panic. */
  predicate Readable(raw: seq<byte>, o: Order, start: nat)
  {
    ReadIfd(raw, o, start).Some?
  }

  /** The directory at `start`. */
  function IfdAt(raw: seq<byte>, o: Order, start: nat): Ifd
    requires Readable(raw, o, start)
  {
    ReadIfd(raw, o, start).value
  }

  /** The values of the 0x8769 entries of the directory at `start`. */
  function LinksAt(raw: seq<byte>, o: Order, start: nat): seq<nat>
    requires IfdFits(raw, o, Position(start))
  {
    DirectoryLinks(raw, o, Position(start))
  }

  /** The next offset of the directory at `start`. */
  function NextAt(raw: seq<byte>, o: Order, start: nat): nat
    requires IfdFits(raw, o, Position(start))
  {
    NextOffset(raw, o, Position(start))
  }

  /** The reads of the directories at `links`, one per link. */
  function Reads(raw: seq<byte>, o: Order, links: seq<nat>): (r: seq<Option<Ifd>>)
    ensures |r| == |links| && forall i :: 0 <= i < |links| ==> r[i] == ReadIfd(raw, o, links[i])
  {
    seq(|links|, i requires 0 <= i < |links| => ReadIfd(raw, o, links[i]))
  }

  /**
   * The sub-directories read by `found[j..]`, in order; None when one of
   * the reads panics.
   */
  function LinkedFrom(found: seq<Option<Ifd>>, j: nat): Option<seq<Ifd>>
    requires j <= |found|
    decreases |found| - j
  {
    if j == |found| then Some([])
    else match found[j]
      case None => None
      case Some(ifd) =>
        match LinkedFrom(found, j + 1)
        case None => None
        case Some(rest) => Some([ifd] + rest)
  }

  /**
   * The directory at `off` followed by the sub-directories its links name,
   * whose own links and next offsets are dropped; None when reading them
   * panics.
   */
  function Directory(raw: seq<byte>, o: Order, off: nat): (r: Option<seq<Ifd>>)
    ensures r.Some? ==> Readable(raw, o, off)
  {
    match ReadIfd(raw, o, off)
    case None => None
    case Some(ifd) =>
      match LinkedFrom(Reads(raw, o, LinksAt(raw, o, off)), 0)
      case None => None
      case Some(linked) => Some([ifd] + linked)
  }

  /**
   * The passes of ParseExif's loop from one offset on: each pass reads a
   * directory and its sub-directories, and the chain goes on at the next
   * offset, or ends when that is 0. `Fails` stands for a read that panics
   * or a chain that does not end within the fuel.
   */
  datatype Chain = Pass(here: seq<Ifd>, rest: Chain) | Last(here: seq<Ifd>) | Fails

  /** One pass of the loop: the directories it reads and the next offset. */
  datatype Step = Step(here: seq<Ifd>, next: nat)

  /** The pass at `off`; None when reading it panics. */
  function PassAt(raw: seq<byte>, o: Order, off: nat): Option<Step>
  {
    match Directory(raw, o, off)
    case None => None
    case Some(here) => Some(Step(here, NextAt(raw, o, off)))
  }

  /** The passes of `raw`, as a function of their offset. */
  function Passes(raw: seq<byte>, o: Order): nat -> Option<Step>
  {
    (off: nat) => PassAt(raw, o, off)
  }

  /** The chain that the passes `pass` make from `off`, within `fuel` passes. */
  function Walk(pass: nat -> Option<Step>, off: nat, fuel: nat): Chain
    decreases fuel
  {
    if fuel == 0 then Fails
    else match pass(off)
      case None => Fails
      case Some(st) => if st.next == 0 then Last(st.here) else Pass(st.here, Walk(pass, st.next, fuel - 1))
  }

  /** The chain of `raw` from `off`, within `fuel` passes. */
  function ChainFrom(raw: seq<byte>, o: Order, off: nat, fuel: nat): Chain
  {
    Walk(Passes(raw, o), off, fuel)
  }

  /** The chain reaches its end. */
  predicate Ends(c: Chain)
  {
    match c
    case Pass(_, rest) => Ends(rest)
    case Last(_) => true
    case Fails => false
  }

  /** The directories of a chain that ends, pass by pass. */
  function Flatten(c: Chain): seq<Ifd>
    requires Ends(c)
  {
    match c
    case Pass(here, rest) => here + Flatten(rest)
    case Last(here) => here
  }

  /** ParseExif runs without a panic and its chain ends within `fuel` passes. */
  predicate Parses(raw: seq<byte>, fuel: nat)
  {
    HeaderFits(raw)
    && (FirstOffset(raw).Some? ==> Ends(ChainFrom(raw, OrderIn(raw), FirstOffset(raw).value, fuel)))
  }

  /** What ParseExif returns: None for nil, otherwise the directories in reading order. */
  function ExifOf(raw: seq<byte>, fuel: nat): Option<seq<Ifd>>
    requires Parses(raw, fuel)
  {
    match FirstOffset(raw)
    case None => None
    case Some(off) => Some(Flatten(ChainFrom(raw, OrderIn(raw), off, fuel)))
  }

  // ---- the reader ----

  /**
   * ParseExif. The directory chain need not end, so the caller names a
   * `fuel` within which it does. The method then returns the directories
   * the chain visits, or None where the source returns nil.
   */
  method ParseExif(raw: seq<byte>, ghost fuel: nat) returns (result: Option<seq<Ifd>>)
    requires Parses(raw, fuel)
    ensures result == ExifOf(raw, fuel)
  {
    if raw[0..4] != ExifMark {
      return None;
    }
    if raw[4] != 0 && raw[5] != 0 {
      return None;
    }
    var o := OrderOf(raw[6..8]);
    if Uint16(o, raw[8..10]) != TiffMagic {
      return None;
    }
    var offsetIFD := Uint32(o, raw[10..14]);
    var ifds: seq<Ifd> := [];
    ghost var left := fuel;
    ghost var goal := Flatten(ChainFrom(raw, o, offsetIFD, fuel));
    while true
      invariant Ends(ChainFrom(raw, o, offsetIFD, left)) && ifds + Flatten(ChainFrom(raw, o, offsetIFD, left)) == goal
      decreases left
    {
      var here, next;
      ghost var before := ifds;
      here, next, left := NextDirectory(raw, o, offsetIFD, left);
      ifds := ifds + here;
      if next == 0 {
        break;
      }
      AppendAssoc(before, here, Flatten(ChainFrom(raw, o, next, left)));
      offsetIFD := next;
    }
    result := Some(ifds);
  }

  /** One pass of ParseExif's loop, against the chain it walks. */
  method NextDirectory(raw: seq<byte>, o: Order, off: nat, ghost left: nat)
    returns (here: seq<Ifd>, next: nat, ghost left': nat)
    requires Ends(ChainFrom(raw, o, off, left))
    ensures left' < left
    ensures next == 0 ==> ChainFrom(raw, o, off, left) == Last(here)
    ensures next != 0 ==> ChainFrom(raw, o, off, left) == Pass(here, ChainFrom(raw, o, next, left'))
  {
    left' := ChainStep(raw, o, off, left);
    here, next := ReadDirectory(raw, o, off);
  }

  /** The directory at `off`, then each of its sub-directories. */
  method ReadDirectory(raw: seq<byte>, o: Order, off: nat) returns (here: seq<Ifd>, next: nat)
    requires Directory(raw, o, off).Some?
    ensures Directory(raw, o, off) == Some(here)
    ensures next == NextAt(raw, o, off)
  {
    var ifd, links;
    ifd, links, next := ParseIFD(raw, o, off);
    var linked := ParseLinks(raw, o, links);
    here := [ifd] + linked;
  }

  /** The sub-directory loop of ParseExif: each link read as a fresh directory, in order. */
  method ParseLinks(raw: seq<byte>, o: Order, links: seq<nat>) returns (linked: seq<Ifd>)
    requires LinkedFrom(Reads(raw, o, links), 0).Some?
    ensures Some(linked) == LinkedFrom(Reads(raw, o, links), 0)
  {
    ghost var found := Reads(raw, o, links);
    ghost var all := LinkedFrom(found, 0).value;
    linked := [];
    for j := 0 to |links|
      invariant LinkedFrom(found, j).Some? && linked + LinkedFrom(found, j).value == all
    {
      ghost var rest := LinkedStep(found, j);
      var ifd, ignoredLinks, ignoredNext := ParseIFD(raw, o, links[j]);
      AppendAssoc(linked, [ifd], rest);
      linked := linked + [ifd];
    }
    assert linked + [] == linked;
  }

  /**
   * ParseIFD: reads the directory at TIFF offset `start` (buffer position
   * `start + 6`) into a fresh map, and returns the link values and the
   * next offset.
   */
  method ParseIFD(raw: seq<byte>, o: Order, start: nat) returns (ifd: Ifd, links: seq<nat>, next: nat)
    requires Readable(raw, o, start)
    ensures Some(ifd) == ReadIfd(raw, o, start)
    ensures links == LinksAt(raw, o, start) && next == NextAt(raw, o, start)
  {
    var i := U32(start + Shift);
    ghost var p := Position(start);
    assert i == p;
    var numberOfTags := Uint16(o, raw[i..i + 2]);
    assert numberOfTags == TagCount(raw, o, p);
    var tags;
    tags, links, i := StoreEntries(map[], raw, o, i + 2, numberOfTags, Shift);
    next := Uint32(o, raw[i..i + 4]);
    ifd := Ifd(start, tags);
  }

  // ---- properties of the header ----

  /**
   * The header is accepted exactly when it starts "Exif", one of bytes 4
   * and 5 is NUL (the test lets "Exif\0" and any byte through), the byte
   * order is "II" or "MM", and the magic reads 42 in that order. An unknown
   * order reads every value as 0, so it always fails the magic test.
   */
  lemma HeaderChecks(raw: seq<byte>)
    requires HeaderFits(raw)
    ensures FirstOffset(raw).Some? <==>
      raw[0..4] == ExifMark && (raw[4] == 0 || raw[5] == 0)
      && OrderIn(raw) != Unknown && Uint16(OrderIn(raw), raw[8..10]) == TiffMagic
  {
  }

  // ---- properties of the chain ----

  /** A list of sub-directories that is read in full starts with the first read's directory. */
  lemma LinkedStep(found: seq<Option<Ifd>>, j: nat) returns (rest: seq<Ifd>)
    requires j < |found| && LinkedFrom(found, j).Some?
    ensures found[j].Some? && LinkedFrom(found, j + 1) == Some(rest)
    ensures LinkedFrom(found, j).value == [found[j].value] + rest
  {
    rest := LinkedFrom(found, j + 1).value;
  }

  /** The sub-directories come out one per read, in order. */
  lemma {:induction false} LinkedCount(found: seq<Option<Ifd>>, j: nat)
    requires j <= |found| && LinkedFrom(found, j).Some?
    ensures |LinkedFrom(found, j).value| == |found| - j
    decreases |found| - j
  {
    if j < |found| {
      var rest := LinkedStep(found, j);
      LinkedCount(found, j + 1);
    }
  }

  /** Sub-directory `k` is the one read at position `j + k`. */
  lemma {:induction false} LinkedAt(found: seq<Option<Ifd>>, j: nat, k: nat, at: nat)
    requires at == j + k && at < |found| && LinkedFrom(found, j).Some?
    ensures found[at].Some? && |LinkedFrom(found, j).value| > k
    ensures LinkedFrom(found, j).value[k] == found[at].value
    decreases k
  {
    var rest := LinkedStep(found, j);
    if k > 0 {
      LinkedAt(found, j + 1, k - 1, at);
      assert LinkedFrom(found, j).value[k] == rest[k - 1];
    }
  }

  /** A walk that ends starts with a pass, and goes on from its next offset unless that is 0. */
  lemma WalkStep(pass: nat -> Option<Step>, off: nat, fuel: nat) returns (st: Step, fuel': nat)
    requires Ends(Walk(pass, off, fuel))
    ensures fuel' + 1 == fuel && pass(off) == Some(st)
    ensures Walk(pass, off, fuel) == if st.next == 0 then Last(st.here) else Pass(st.here, Walk(pass, st.next, fuel'))
  {
    st, fuel' := pass(off).value, fuel - 1;
  }

  /** A chain that ends within `fuel` passes starts with one directory and its sub-directories, and goes on from the next offset. */
  lemma ChainStep(raw: seq<byte>, o: Order, off: nat, fuel: nat) returns (fuel': nat)
    requires Ends(ChainFrom(raw, o, off, fuel))
    ensures fuel' + 1 == fuel && Directory(raw, o, off).Some?
    ensures NextAt(raw, o, off) == 0 ==> ChainFrom(raw, o, off, fuel) == Last(Directory(raw, o, off).value)
    ensures NextAt(raw, o, off) != 0 ==>
      ChainFrom(raw, o, off, fuel) == Pass(Directory(raw, o, off).value, ChainFrom(raw, o, NextAt(raw, o, off), fuel'))
  {
    var st;
    st, fuel' := WalkStep(Passes(raw, o), off, fuel);
    assert PassAt(raw, o, off) == Some(st);
  }

  /**
   * The order within one pass: the directory at `off` first, then the
   * sub-directory named by each of its links, in link order. `ChainStep`
   * puts the chain from the next offset after them.
   */
  lemma DirectoryOrder(raw: seq<byte>, o: Order, off: nat, k: nat)
    requires Directory(raw, o, off).Some?
    ensures |Directory(raw, o, off).value| == 1 + |LinksAt(raw, o, off)|
    ensures Directory(raw, o, off).value[0] == IfdAt(raw, o, off)
    ensures k < |LinksAt(raw, o, off)| ==>
      Readable(raw, o, LinksAt(raw, o, off)[k]) && Directory(raw, o, off).value[1 + k] == IfdAt(raw, o, LinksAt(raw, o, off)[k])
  {
    var found := Reads(raw, o, LinksAt(raw, o, off));
    var linked := LinkedFrom(found, 0).value;
    assert Directory(raw, o, off).value == [IfdAt(raw, o, off)] + linked;
    LinkedCount(found, 0);
    if k < |found| {
      LinkedAt(found, 0, k, k);
    }
  }

  /**
   * Each directory gets a fresh map: its tags are tags of its own entries,
   * and never the link tag 0x8769.
   */
  lemma OwnTagsOnly(raw: seq<byte>, o: Order, start: nat, p: nat, t: nat)
    requires Readable(raw, o, start) && p == Position(start) + 2 && t in IfdAt(raw, o, start).tags
    ensures t != ExifLink
    ensures exists k :: 0 <= k < TagCount(raw, o, Position(start)) && EntryNo(raw, o, p, k).tag == t
  {
    StoreFromKeys(map[], raw, o, p, TagCount(raw, o, Position(start)), Shift);
  }

  /**
   * The value stored under an entry's tag, when no later entry of the
   * directory carries the same tag. A text entry holds `count - 1` bytes
   * from its TIFF offset plus 6. It is absent when those bytes run past
   * the buffer. Any other entry holds the decimal of its whole value field.
   */
  lemma ValueOfEntry(raw: seq<byte>, o: Order, start: nat, k: nat)
    requires Readable(raw, o, start) && k < TagCount(raw, o, Position(start))
    requires var p := Position(start) + 2; var e := EntryNo(raw, o, p, k);
      e.tag != ExifLink && e.value + Shift + e.count <= 0x1_0000_0000 && (IsText(e) ==> e.count >= 1)
      && forall j :: k < j < TagCount(raw, o, Position(start)) ==> EntryNo(raw, o, p, j).tag != e.tag
    ensures var e := EntryNo(raw, o, Position(start) + 2, k); var tags := IfdAt(raw, o, start).tags;
      (IsText(e) && e.value + Shift + e.count - 1 <= |raw| ==> e.tag in tags && tags[e.tag] == raw[e.value + Shift..e.value + Shift + e.count - 1])
      && (!IsText(e) ==> e.tag in tags && tags[e.tag] == Decimal(e.value))
  {
    var p := Position(start) + 2;
    var e := EntryNo(raw, o, p, k);
    WrittenMeaning(raw, e, Shift);
    if Written(raw, e, Shift).Some? {
      StoreFromLast(map[], raw, o, p, TagCount(raw, o, Position(start)), Shift, k);
    }
  }

  /** A result that is not nil starts with the directory at the offset the header names. */
  lemma FirstIsMain(raw: seq<byte>, fuel: nat)
    requires Parses(raw, fuel) && ExifOf(raw, fuel).Some?
    ensures Readable(raw, OrderIn(raw), FirstOffset(raw).value) && |ExifOf(raw, fuel).value| >= 1
    ensures ExifOf(raw, fuel).value[0] == IfdAt(raw, OrderIn(raw), FirstOffset(raw).value)
  {
    var o, off := OrderIn(raw), FirstOffset(raw).value;
    var fuel' := ChainStep(raw, o, off, fuel);
    DirectoryOrder(raw, o, off, 0);
  }

  /** More fuel does not change a walk that already ends. */
  lemma {:induction false} WalkFuel(pass: nat -> Option<Step>, off: nat, fuel: nat, more: nat)
    requires Ends(Walk(pass, off, fuel)) && more >= fuel
    ensures Walk(pass, off, more) == Walk(pass, off, fuel)
    decreases fuel
  {
    var st, fuel' := WalkStep(pass, off, fuel);
    if st.next != 0 {
      WalkFuel(pass, st.next, fuel', more - 1);
    }
  }

  /** Any fuel within which the chain ends gives the same directories. */
  lemma FuelIrrelevant(raw: seq<byte>, fuel: nat, fuel': nat)
    requires Parses(raw, fuel) && Parses(raw, fuel') && ExifOf(raw, fuel).Some? && ExifOf(raw, fuel').Some?
    ensures ExifOf(raw, fuel) == ExifOf(raw, fuel')
  {
    var off := FirstOffset(raw).value;
    if fuel <= fuel' {
      WalkFuel(Passes(raw, OrderIn(raw)), off, fuel, fuel');
    } else {
      WalkFuel(Passes(raw, OrderIn(raw)), off, fuel', fuel);
    }
  }

  /** A pass whose next offset is its own (and not 0) repeats for ever: the walk never ends. */
  lemma {:induction false} WalkLoops(pass: nat -> Option<Step>, off: nat, fuel: nat)
    requires off != 0 && (pass(off).Some? ==> pass(off).value.next == off)
    ensures !Ends(Walk(pass, off, fuel))
    decreases fuel
  {
    if fuel > 0 && pass(off).Some? {
      WalkLoops(pass, off, fuel - 1);
    }
  }

  /** A directory whose next offset is itself (and not 0) makes ParseExif loop for ever: no fuel is enough. */
  lemma SelfLoopNeverEnds(raw: seq<byte>, o: Order, off: nat, fuel: nat)
    requires IfdFits(raw, o, Position(off)) && NextAt(raw, o, off) == off && off != 0
    ensures !Ends(ChainFrom(raw, o, off, fuel))
  {
    assert Passes(raw, o)(off) == PassAt(raw, o, off);
    WalkLoops(Passes(raw, o), off, fuel);
  }

  // ---- printing ----

  /** One line of PrintExif's output: a directory heading with its offset, a tag with its value, or the blank line after a directory. */
  datatype Line = Heading(offset: nat) | Field(tag: nat, value: seq<byte>) | Blank

  predicate Ascending(s: seq<nat>)
  {
    forall i, j :: 0 <= i < j < |s| ==> s[i] < s[j]
  }

  /** The least of a non-empty set of tags. */
  ghost function Least(keys: set<nat>): (t: nat)
    requires keys != {}
    ensures t in keys && forall u :: u in keys ==> t <= u
  {
    LeastExists(keys);
    var t :| t in keys && forall u :: u in keys ==> t <= u;
    t
  }

  /** The tags of `keys` in ascending order: the least, then the rest. */
  ghost function Ascend(keys: set<nat>): seq<nat>
    decreases keys
  {
    if keys == {} then [] else var t := Least(keys); [t] + Ascend(keys - {t})
  }

  /** The tags of a directory in the order PrintExif lists them. */
  ghost function SortedTags(m: Tags): seq<nat>
  {
    Ascend(m.Keys)
  }

  /** The lines for the tags `keys` of `m`, in the order given. */
  function Fields(m: Tags, keys: seq<nat>): (r: seq<Line>)
    ensures |r| == |keys|
    decreases |keys|
  {
    if keys == [] then []
    else [Field(keys[0], if keys[0] in m then m[keys[0]] else [])] + Fields(m, keys[1..])
  }

  /** The lines for one directory: its heading, its tags in ascending order, a blank line. */
  ghost function Block(ifd: Ifd): seq<Line>
  {
    [Heading(ifd.startOffset)] + Fields(ifd.tags, SortedTags(ifd.tags)) + [Blank]
  }

  /** The lines for `ifds[j..]`. */
  ghost function Listing(ifds: seq<Ifd>, j: nat): seq<Line>
    requires j <= |ifds|
    decreases |ifds| - j
  {
    if j == |ifds| then [] else Block(ifds[j]) + Listing(ifds, j + 1)
  }

  /** PrintExif: nothing for no directories, otherwise one block per directory, in order. */
  method PrintExif(ifds: seq<Ifd>) returns (lines: seq<Line>)
    ensures lines == Listing(ifds, 0)
    ensures lines == [] <==> ifds == []
  {
    lines := [];
    if |ifds| == 0 {
      return;
    }
    for j := 0 to |ifds|
      invariant lines + Listing(ifds, j) == Listing(ifds, 0)
    {
      var block := PrintIfd(ifds[j]);
      AppendAssoc(lines, block, Listing(ifds, j + 1));
      lines := lines + block;
    }
    assert lines + [] == lines;
  }

  /** The block of one directory: the heading, each tag in ascending order with its value, then a blank line. */
  method PrintIfd(ifd: Ifd) returns (block: seq<Line>)
    ensures block == Block(ifd)
  {
    var tags := SortTags(ifd.tags);
    AscendMeaning(ifd.tags.Keys);
    var fields := [];
    for k := 0 to |tags|
      invariant fields == Fields(ifd.tags, tags[..k])
    {
      FieldsSnoc(ifd.tags, tags[..k], tags[k]);
      assert tags[..k + 1] == tags[..k] + [tags[k]];
      fields := fields + [Field(tags[k], ifd.tags[tags[k]])];
    }
    assert tags[..|tags|] == tags;
    block := [Heading(ifd.startOffset)] + fields + [Blank];
  }

  /**
   * The keys of `m` in ascending order. The source collects them in map
   * order and sorts them; here each key is inserted into an ascending
   * list, which comes to the same list whatever the map order.
   */
  method SortTags(m: Tags) returns (tags: seq<nat>)
    ensures tags == SortedTags(m)
  {
    var rest := m.Keys;
    tags := [];
    while rest != {}
      invariant rest <= m.Keys && Ascending(tags)
      invariant forall t :: t in tags <==> t in m && t !in rest
      decreases rest
    {
      var t :| t in rest;
      tags := Insert(tags, t);
      rest := rest - {t};
    }
    AscendMeaning(m.Keys);
    AscendingUnique(tags, SortedTags(m));
  }

  /** Inserts `x`, which is not yet there, into an ascending list. */
  method Insert(s: seq<nat>, x: nat) returns (s': seq<nat>)
    requires Ascending(s) && x !in s
    ensures Ascending(s') && forall t :: t in s' <==> t in s || t == x
  {
    var i := 0;
    while i < |s| && s[i] < x
      invariant i <= |s| && forall j :: 0 <= j < i ==> s[j] < x
    {
      i := i + 1;
    }
    assert forall j :: i <= j < |s| ==> x < s[j] by {
      forall j | i <= j < |s|
        ensures x < s[j]
      {
        assert s[i] != x && s[i] >= x;
      }
    }
    s' := s[..i] + [x] + s[i..];
    assert forall j :: 0 <= j < |s'| ==> s'[j] == (if j < i then s[j] else if j == i then x else s[j - 1]);
  }

  /** Appending one tag to the list appends its line. */
  lemma {:induction false} FieldsSnoc(m: Tags, keys: seq<nat>, t: nat)
    ensures Fields(m, keys + [t]) == Fields(m, keys) + [Field(t, if t in m then m[t] else [])]
    decreases |keys|
  {
    if keys == [] {
      assert [t][1..] == [];
    } else {
      assert (keys + [t])[1..] == keys[1..] + [t];
      FieldsSnoc(m, keys[1..], t);
    }
  }

  /** A non-empty set of tags has a least one. */
  lemma LeastExists(keys: set<nat>)
    requires keys != {}
    ensures exists t :: t in keys && forall u :: u in keys ==> t <= u
  {
    var t := LeastOf(keys);
  }

  /** The least of a non-empty set of tags, found by taking one out and comparing it with the least of the rest. */
  lemma {:induction false} LeastOf(keys: set<nat>) returns (t: nat)
    requires keys != {}
    ensures t in keys && forall u :: u in keys ==> t <= u
    decreases keys
  {
    var x :| x in keys;
    var others := keys - {x};
    if others == {} {
      t := x;
      forall u | u in keys
        ensures t <= u
      {
        assert u !in others;
      }
    } else {
      var y := LeastOf(others);
      t := if x < y then x else y;
      forall u | u in keys
        ensures t <= u
      {
        if u != x {
          assert u in others;
        }
      }
    }
  }

  /** `Ascend` is strictly ascending and holds exactly the tags it is given. */
  lemma {:induction false} AscendMeaning(keys: set<nat>)
    ensures Ascending(Ascend(keys))
    ensures forall t :: t in Ascend(keys) <==> t in keys
    decreases keys
  {
    if keys != {} {
      var t := Least(keys);
      AscendMeaning(keys - {t});
      var rest := Ascend(keys - {t});
      assert Ascend(keys) == [t] + rest;
      assert forall i :: 0 <= i < |rest| ==> t < rest[i] by {
        forall i | 0 <= i < |rest|
          ensures t < rest[i]
        {
          assert rest[i] in keys - {t};
        }
      }
    }
  }

  /** Two ascending lists with the same elements are the same list, so the listing order does not depend on the map's iteration order. */
  lemma {:induction false} AscendingUnique(s: seq<nat>, s': seq<nat>)
    requires Ascending(s) && Ascending(s')
    requires forall t :: t in s <==> t in s'
    ensures s == s'
    decreases |s|
  {
    if s != [] {
      assert s[0] in s';
    }
    if s' != [] {
      assert s'[0] in s;
    }
    if s != [] && s' != [] {
      forall t
        ensures t in s[1..] <==> t in s'[1..]
      {
        if t in s[1..] {
          assert t in s' && t != s'[0];
        }
        if t in s'[1..] {
          assert t in s && t != s[0];
        }
      }
      AscendingUnique(s[1..], s'[1..]);
      assert s == [s[0]] + s[1..] && s' == [s'[0]] + s'[1..];
    }
  }

  /** Line `i` of the tag lines is the field of the `i`-th tag. */
  lemma {:induction false} FieldAt(m: Tags, keys: seq<nat>, i: nat)
    requires i < |keys|
    ensures Fields(m, keys)[i] == Field(keys[i], if keys[i] in m then m[keys[i]] else [])
    decreases i
  {
    if i > 0 {
      FieldAt(m, keys[1..], i - 1);
    }
  }

  /**
   * What one directory's block says: it opens with the directory's offset
   * and closes with a blank line. Every line in between is a tag of the
   * directory with that tag's value, in strictly ascending tag order.
   */
  lemma BlockAt(ifd: Ifd, i: nat)
    ensures var b := Block(ifd);
      |b| == |SortedTags(ifd.tags)| + 2 && b[0] == Heading(ifd.startOffset) && b[|b| - 1] == Blank
      && (0 < i < |b| - 1 ==> b[i].Field? && b[i].tag in ifd.tags && b[i].value == ifd.tags[b[i].tag])
      && (1 < i < |b| - 1 ==> b[i - 1].Field? && b[i - 1].tag < b[i].tag)
  {
    var keys := SortedTags(ifd.tags);
    var f := Fields(ifd.tags, keys);
    var b := Block(ifd);
    assert b == [Heading(ifd.startOffset)] + f + [Blank];
    if 0 < i < |b| - 1 {
      AscendMeaning(ifd.tags.Keys);
      FieldAt(ifd.tags, keys, i - 1);
      assert keys[i - 1] in ifd.tags;
      assert b[i] == f[i - 1];
      if i > 1 {
        FieldAt(ifd.tags, keys, i - 2);
        assert keys[i - 2] < keys[i - 1];
        assert b[i - 1] == f[i - 2];
      }
    }
  }

  /** Every tag of the directory is listed in its block, with its value. */
  lemma TagListed(ifd: Ifd, t: nat) returns (i: nat)
    requires t in ifd.tags
    ensures 0 < i < |Block(ifd)| - 1 && Block(ifd)[i] == Field(t, ifd.tags[t])
  {
    var keys := SortedTags(ifd.tags);
    AscendMeaning(ifd.tags.Keys);
    var k :| 0 <= k < |keys| && keys[k] == t;
    FieldAt(ifd.tags, keys, k);
    i := k + 1;
    assert Block(ifd)[i] == Fields(ifd.tags, keys)[k];
  }
}
