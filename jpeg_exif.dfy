/**
 * The EXIF reader of the JPEG parser: a TIFF header at the start of the
 * buffer, a chain of image file directories linked by their next offsets,
 * and Exif sub-directories named by tag 0x8769. Every directory writes
 * into one tag map, so a tag read later overwrites the earlier value.
 * TIFF offsets index the buffer directly (shift 0).
 */
module JpegExif {
  import opened Bytes
  import opened Tiff

  /**
   * The map after the sub-directories at `links`, in order, each read
   * once (their own links and next offsets are dropped); None when one of
   * them panics.
   */
  function LinkedInto(m: Tags, raw: seq<byte>, o: Order, links: seq<nat>): Option<Tags>
    decreases |links|
  {
    if links == [] then Some(m)
    else if !IfdFits(raw, o, links[0]) then None
    else match StoreDirectory(m, raw, o, links[0], 0)
      case None => None
      case Some(m1) => LinkedInto(m1, raw, o, links[1..])
  }

  /** The map after the directory at `off` and then its sub-directories; None when reading them panics. */
  function AfterDirectory(m: Tags, raw: seq<byte>, o: Order, off: nat): Option<Tags>
  {
    if !IfdFits(raw, o, off) then None
    else match StoreDirectory(m, raw, o, off, 0)
      case None => None
      case Some(m1) => LinkedInto(m1, raw, o, DirectoryLinks(raw, o, off))
  }

  /**
   * The map after the directory chain from `off`: each directory, then its
   * sub-directories, then the next directory, ending at a next offset of 0.
   * A chain that does not end within `fuel` directories is None, as is one
   * whose reading panics.
   */
  function ExifFrom(m: Tags, raw: seq<byte>, o: Order, off: nat, fuel: nat): Option<Tags>
    decreases fuel
  {
    if fuel == 0 then None
    else match AfterDirectory(m, raw, o, off)
      case None => None
      case Some(m2) =>
        if NextOffset(raw, o, off) == 0 then Some(m2) else ExifFrom(m2, raw, o, NextOffset(raw, o, off), fuel - 1)
  }

  /**
   * ParseExif as a function: the byte order from bytes 0..2, the first
   * directory at the u32 in bytes 4..8 (the 0x002A magic is not checked),
   * starting from an empty map.
   */
  function ExifOf(raw: seq<byte>, fuel: nat): Option<Tags>
  {
    if |raw| < 8 then None
    else
      var o := OrderOf(raw[0..2]);
      ExifFrom(map[], raw, o, Uint32(o, raw[4..8]), fuel)
  }

  /** ParseIFD: stores the entries of the directory at `start` into `result`, and returns the link values and the next offset. */
  method ParseIFD(result: Tags, raw: seq<byte>, o: Order, start: nat) returns (result': Tags, links: seq<nat>, next: nat)
    requires IfdFits(raw, o, start) && StoreDirectory(result, raw, o, start, 0).Some?
    ensures result' == StoreDirectory(result, raw, o, start, 0).value
    ensures links == DirectoryLinks(raw, o, start) && next == NextOffset(raw, o, start)
  {
    var numberOfTags := TagCount(raw, o, start);
    ghost var q := start + 2 + 12 * numberOfTags;
    assert q + 4 <= |raw| && NextOffset(raw, o, start) == Uint32(o, raw[q..q + 4]);
    var i;
    result', links, i := StoreEntries(result, raw, o, start + 2, numberOfTags, 0);
    assert i == q;
    next := Uint32(o, raw[i..i + 4]);
  }

  /** One pass of ParseExif's loop: the directory at `off` and its sub-directories. */
  method ReadDirectory(result: Tags, raw: seq<byte>, o: Order, off: nat) returns (result': Tags, next: nat)
    requires AfterDirectory(result, raw, o, off).Some?
    ensures IfdFits(raw, o, off) && next == NextOffset(raw, o, off)
    ensures AfterDirectory(result, raw, o, off) == Some(result')
  {
    var links;
    result', links, next := ParseIFD(result, raw, o, off);
    result' := ParseLinks(result', raw, o, links);
  }

  /** One pass of ParseExif's loop, against the chain it walks. */
  method NextDirectory(result: Tags, raw: seq<byte>, o: Order, off: nat, ghost left: nat, ghost goal: Option<Tags>)
    returns (result': Tags, next: nat, ghost left': nat)
    requires goal.Some? && ExifFrom(result, raw, o, off, left) == goal
    ensures left' < left
    ensures next == 0 ==> goal == Some(result')
    ensures next != 0 ==> ExifFrom(result', raw, o, next, left') == goal
  {
    ghost var m2, n2;
    m2, n2, left' := ChainStep(result, raw, o, off, left);
    result', next := ReadDirectory(result, raw, o, off);
  }

  /** The sub-directory loop of ParseExif. */
  method ParseLinks(result: Tags, raw: seq<byte>, o: Order, links: seq<nat>) returns (result': Tags)
    requires LinkedInto(result, raw, o, links).Some?
    ensures result' == LinkedInto(result, raw, o, links).value
  {
    result' := result;
    for j := 0 to |links|
      invariant LinkedInto(result', raw, o, links[j..]) == LinkedInto(result, raw, o, links)
    {
      assert links[j..][1..] == links[j + 1..];
      var ignoredLinks, ignoredNext;
      result', ignoredLinks, ignoredNext := ParseIFD(result', raw, o, links[j]);
    }
  }

  /**
   * ParseExif. The directory chain need not end, so the caller names a
   * `fuel` within which it does; the method then computes the map that the
   * chain leaves.
   */
  method ParseExif(raw: seq<byte>, ghost fuel: nat) returns (result: Tags)
    requires ExifOf(raw, fuel).Some?
    ensures result == ExifOf(raw, fuel).value
  {
    var o := OrderOf(raw[0..2]);
    var offsetIFD := Uint32(o, raw[4..8]);
    result := map[];
    ghost var left := fuel;
    ghost var goal := ExifOf(raw, fuel);
    while true
      invariant ExifFrom(result, raw, o, offsetIFD, left) == goal
      decreases left
    {
      var next;
      result, next, left := NextDirectory(result, raw, o, offsetIFD, left, goal);
      if next == 0 {
        break;
      }
      offsetIFD := next;
    }
  }

  // ---- properties of the chain ----

  /** The sub-directories keep every key and never add the link tag. */
  lemma {:induction false} LinkedIntoKeys(m: Tags, raw: seq<byte>, o: Order, links: seq<nat>)
    requires LinkedInto(m, raw, o, links).Some?
    ensures forall t :: t in m ==> t in LinkedInto(m, raw, o, links).value
    ensures ExifLink !in m ==> ExifLink !in LinkedInto(m, raw, o, links).value
    decreases |links|
  {
    if links != [] {
      var m1 := StoreDirectory(m, raw, o, links[0], 0).value;
      StoreFromKeys(m, raw, o, links[0] + 2, TagCount(raw, o, links[0]), 0);
      LinkedIntoKeys(m1, raw, o, links[1..]);
    }
  }

  /** One directory with its sub-directories keeps every key and never adds the link tag. */
  lemma AfterDirectoryKeys(m: Tags, raw: seq<byte>, o: Order, off: nat)
    requires AfterDirectory(m, raw, o, off).Some?
    ensures forall t :: t in m ==> t in AfterDirectory(m, raw, o, off).value
    ensures ExifLink !in m ==> ExifLink !in AfterDirectory(m, raw, o, off).value
  {
    var m1 := StoreDirectory(m, raw, o, off, 0).value;
    StoreFromKeys(m, raw, o, off + 2, TagCount(raw, o, off), 0);
    LinkedIntoKeys(m1, raw, o, DirectoryLinks(raw, o, off));
  }

  /** One link of the chain. */
  lemma ChainStep(m: Tags, raw: seq<byte>, o: Order, off: nat, fuel: nat) returns (m2: Tags, next: nat, fuel': nat)
    requires ExifFrom(m, raw, o, off, fuel).Some?
    ensures fuel' < fuel && AfterDirectory(m, raw, o, off) == Some(m2) && IfdFits(raw, o, off) && next == NextOffset(raw, o, off)
    ensures next == 0 ==> ExifFrom(m, raw, o, off, fuel) == Some(m2)
    ensures next != 0 ==> ExifFrom(m, raw, o, off, fuel) == ExifFrom(m2, raw, o, next, fuel')
  {
    m2 := AfterDirectory(m, raw, o, off).value;
    next := NextOffset(raw, o, off);
    fuel' := ChainUnfold(m, raw, o, off, fuel, m2);
  }

  /** Unfolding the chain once, whatever the fuel. */
  lemma ChainUnfold(m: Tags, raw: seq<byte>, o: Order, off: nat, fuel: nat, m2: Tags) returns (fuel': nat)
    requires fuel > 0 && AfterDirectory(m, raw, o, off) == Some(m2)
    ensures IfdFits(raw, o, off) && fuel' + 1 == fuel
    ensures ExifFrom(m, raw, o, off, fuel) == if NextOffset(raw, o, off) == 0 then Some(m2) else ExifFrom(m2, raw, o, NextOffset(raw, o, off), fuel')
  {
    fuel' := fuel - 1;
  }

  /** The whole chain keeps every key it starts with and never adds the link tag. */
  lemma {:induction false} ExifFromKeys(m: Tags, raw: seq<byte>, o: Order, off: nat, fuel: nat)
    requires ExifFrom(m, raw, o, off, fuel).Some?
    ensures forall t :: t in m ==> t in ExifFrom(m, raw, o, off, fuel).value
    ensures ExifLink !in m ==> ExifLink !in ExifFrom(m, raw, o, off, fuel).value
    decreases fuel
  {
    var m2, next, fuel' := ChainStep(m, raw, o, off, fuel);
    AfterDirectoryKeys(m, raw, o, off);
    if next != 0 {
      ExifFromKeys(m2, raw, o, next, fuel');
    }
  }

  /** Tag 0x8769 never appears in ParseExif's map. */
  lemma LinkNeverStored(raw: seq<byte>, fuel: nat)
    requires ExifOf(raw, fuel).Some?
    ensures ExifLink !in ExifOf(raw, fuel).value
  {
    var o := OrderOf(raw[0..2]);
    ExifFromKeys(map[], raw, o, Uint32(o, raw[4..8]), fuel);
  }

  /** Fuel only bounds the chain: once it suffices, more fuel gives the same map. */
  lemma {:induction false} ExifFromFuel(m: Tags, raw: seq<byte>, o: Order, off: nat, fuel: nat, more: nat)
    requires ExifFrom(m, raw, o, off, fuel).Some? && fuel <= more
    ensures ExifFrom(m, raw, o, off, more) == ExifFrom(m, raw, o, off, fuel)
    decreases fuel
  {
    var m2, next, fuel' := ChainStep(m, raw, o, off, fuel);
    var more' := ChainUnfold(m, raw, o, off, more, m2);
    if next != 0 {
      ExifFromFuel(m2, raw, o, next, fuel', more');
    }
  }

  /** ParseExif's map does not depend on the fuel named for it. */
  lemma FuelIrrelevant(raw: seq<byte>, fuel: nat, fuel': nat)
    requires ExifOf(raw, fuel).Some? && ExifOf(raw, fuel').Some?
    ensures ExifOf(raw, fuel) == ExifOf(raw, fuel')
  {
    var o := OrderOf(raw[0..2]);
    var first := Uint32(o, raw[4..8]);
    if fuel <= fuel' {
      ExifFromFuel(map[], raw, o, first, fuel, fuel');
    } else {
      ExifFromFuel(map[], raw, o, first, fuel', fuel);
    }
  }

  /** A chain whose next offset points back at its own directory never ends: no fuel suffices. */
  lemma {:induction false} SelfLoopNeverEnds(m: Tags, raw: seq<byte>, o: Order, off: nat, fuel: nat)
    requires IfdFits(raw, o, off) && NextOffset(raw, o, off) == off && off != 0
    ensures ExifFrom(m, raw, o, off, fuel).None?
    decreases fuel
  {
    if fuel > 0 {
      match AfterDirectory(m, raw, o, off)
      case None =>
      case Some(m2) => SelfLoopNeverEnds(m2, raw, o, off, fuel - 1);
    }
  }
}
