/**
 * The track boxes: the track id and flags of a track header (tkhd), the
 * children a track (trak) and a media information box (minf) report, and
 * the data reference (dref) entries of a data information box (dinf).
 */
module Mp4Trak {
  import opened Bytes
  import Mp4

  const Edts: seq<byte> := [0x65, 0x64, 0x74, 0x73] // edts
  const Nmhd: seq<byte> := [0x6E, 0x6D, 0x68, 0x64] // nmhd
  const Stbl: seq<byte> := [0x73, 0x74, 0x62, 0x6C] // stbl
  const Smhd: seq<byte> := [0x73, 0x6D, 0x68, 0x64] // smhd
  const Vmhd: seq<byte> := [0x76, 0x6D, 0x68, 0x64] // vmhd

  // ---- tkhd ----

  /** The track header fields the reader slices: version 1 keeps the id at 20, version 0 at 12. */
  predicate TrackHeaderReadable(data: seq<byte>)
  {
    |data| >= 4 && (if data[0] == 1 then |data| >= 24 else |data| >= 16)
  }

  /** The track id: a big-endian u32 after the creation and modification times, whose width the version byte sets. */
  function TrackId(data: seq<byte>): (id: nat)
    requires TrackHeaderReadable(data)
    ensures id < 0x1_0000_0000
  {
    var at := if data[0] == 1 then 20 else 12;
    BE4(data[at..at + 4]);
    BE(data[at..at + 4])
  }

  /** A tkhd payload as a muxer writes it: version, flags, two times of the version's width, then the id. */
  function TrackHeaderPayload(version: byte, flags: byte, id: nat): (data: seq<byte>)
  {
    var times := if version == 1 then 16 else 8;
    [version, 0, 0, flags] + Zeros(times) + BEBytes(id, 4)
  }

  /** The id written into a track header of either version is the id read back. */
  lemma TrackIdRoundTrip(version: byte, flags: byte, id: nat)
    requires id < 0x1_0000_0000
    ensures TrackHeaderReadable(TrackHeaderPayload(version, flags, id))
    ensures TrackId(TrackHeaderPayload(version, flags, id)) == id
  {
    var data := TrackHeaderPayload(version, flags, id);
    var at := if version == 1 then 20 else 12;
    assert data[at..at + 4] == BEBytes(id, 4);
    Pow256Widths();
    BEBytesRoundTrip(id, 4);
  }

  /** `b & mask` for a byte. */
  function Masked(b: byte, mask: bv8): nat
  {
    ((b as bv8) & mask) as nat
  }

  /**
   * The flag text as the reader builds it: bit 0 chooses between Enabled
   * and Disabled; the bits 0x2 and 0x4 are masked and then compared with 1,
   * a value the masked byte never takes.
   */
  function FlagAsWritten(b: byte): string
  {
    var flag := if Masked(b, 0x1) == 0 then "Disabled" else if Masked(b, 0x1) == 1 then "Enabled" else "";
    var flag := if Masked(b, 0x2) == 1 then flag + ", Used" else flag;
    if Masked(b, 0x4) == 1 then flag + ", Preview" else flag
  }

  /** Whatever the flag byte, the text never mentions Used or Preview. */
  lemma UsedAndPreviewNeverShown(b: byte)
    ensures FlagAsWritten(b) == if Masked(b, 0x1) == 1 then "Enabled" else "Disabled"
  {
    var v := b as bv8;
    assert Masked(b, 0x2) == 1 ==> false by {
      assert (v & 0x2) != 1;
    }
    assert Masked(b, 0x4) == 1 ==> false by {
      assert (v & 0x4) != 1;
    }
    assert Masked(b, 0x1) <= 1 by {
      assert (v & 0x1) <= 1;
    }
  }

  /** The flag text for the three bits as written: Enabled or Disabled, then Used, then Preview. */
  function FlagText(enabled: bool, used: bool, preview: bool): string
  {
    (if enabled then "Enabled" else "Disabled") + (if used then ", Used" else "") + (if preview then ", Preview" else "")
  }

  /** The flag text with each bit compared with zero, as the three appends evidently intend. */
  function FlagString(b: byte): string
  {
    FlagText(Masked(b, 0x1) != 0, Masked(b, 0x2) != 0, Masked(b, 0x4) != 0)
  }

  /** The text opens with the state, names Used right after it iff that bit is set, and ends with Preview iff that bit is set. */
  lemma FlagTextNames(enabled: bool, used: bool, preview: bool)
    ensures var s := FlagText(enabled, used, preview); var head := if enabled then "Enabled" else "Disabled";
      s[..|head|] == head
      && (used <==> |s| >= |head| + 6 && s[|head|..|head| + 6] == ", Used")
      && (preview <==> |s| >= 9 && s[|s| - 9..] == ", Preview")
  {
    var head := if enabled then "Enabled" else "Disabled";
    var u := if used then ", Used" else "";
    var p := if preview then ", Preview" else "";
    var s := FlagText(enabled, used, preview);
    assert s == head + u + p;
    assert s[..|head|] == head;
    if used {
      assert s[|head|..|head| + 6] == ", Used";
    } else if |s| >= |head| + 6 {
      assert s[|head| + 2] == p[2] != 'U';
    }
    if preview {
      assert s[|s| - 9..] == ", Preview";
    } else if |s| >= 9 {
      assert s == head + u;
      assert s[|s| - 1] != 'w';
    }
  }

  /** The corrected text names each set flag bit: Used iff bit 0x2, Preview iff bit 0x4, after Enabled or Disabled. */
  lemma FlagStringNamesBits(b: byte)
    ensures var s := FlagString(b); var head := if Masked(b, 0x1) != 0 then "Enabled" else "Disabled";
      s[..|head|] == head
      && (Masked(b, 0x2) != 0 <==> |s| >= |head| + 6 && s[|head|..|head| + 6] == ", Used")
      && (Masked(b, 0x4) != 0 <==> |s| >= 9 && s[|s| - 9..] == ", Preview")
  {
    FlagTextNames(Masked(b, 0x1) != 0, Masked(b, 0x2) != 0, Masked(b, 0x4) != 0);
  }

  /** The two texts differ exactly on headers that carry the Used or Preview bit. */
  lemma FlagTextsDiffer(b: byte)
    ensures FlagAsWritten(b) != FlagString(b) <==> Masked(b, 0x2) != 0 || Masked(b, 0x4) != 0
  {
    UsedAndPreviewNeverShown(b);
    var head := if Masked(b, 0x1) != 0 then "Enabled" else "Disabled";
    assert Masked(b, 0x1) <= 1 by {
      assert ((b as bv8) & 0x1) <= 1;
    }
    if Masked(b, 0x2) != 0 || Masked(b, 0x4) != 0 {
      assert |FlagString(b)| > |head|;
    }
  }

  // ---- child filters ----

  /** The boxes whose type is not excluded, in their original order. */
  function Without(bs: seq<Mp4.Box>, excluded: set<seq<byte>>): (r: seq<Mp4.Box>)
    ensures forall b :: b in r <==> b in bs && b.boxType !in excluded
    ensures |r| <= |bs|
  {
    if bs == [] then []
    else
      var rest := Without(bs[1..], excluded);
      assert forall b :: b in bs <==> b == bs[0] || b in bs[1..];
      if bs[0].boxType in excluded then rest else [bs[0]] + rest
  }

  /** Filtering keeps the order of what it keeps: dropping nothing is the identity, and a second pass changes nothing. */
  lemma {:induction false} WithoutIdempotent(bs: seq<Mp4.Box>, excluded: set<seq<byte>>)
    ensures Without(Without(bs, excluded), excluded) == Without(bs, excluded)
    ensures (forall b :: b in bs ==> b.boxType !in excluded) ==> Without(bs, excluded) == bs
  {
    if bs != [] {
      WithoutIdempotent(bs[1..], excluded);
      var rest := Without(bs[1..], excluded);
      if bs[0].boxType !in excluded {
        assert ([bs[0]] + rest)[1..] == rest;
      }
      if forall b :: b in bs ==> b.boxType !in excluded {
        assert forall b :: b in bs[1..] ==> b in bs;
        assert bs == [bs[0]] + bs[1..];
      }
    }
  }

  /** The children TrakBox.Print shows: every one but edts. */
  function TrakShown(children: seq<Mp4.Box>): (r: seq<Mp4.Box>)
    ensures forall b :: b in r <==> b in children && b.boxType != Edts
  {
    Without(children, {Edts})
  }

  /** The children MediaInformationBox.Print shows: all but the nmhd, stbl, smhd and vmhd boxes. */
  function MinfShown(children: seq<Mp4.Box>): (r: seq<Mp4.Box>)
    ensures forall b :: b in r <==> b in children && b.boxType !in {Nmhd, Stbl, Smhd, Vmhd}
  {
    Without(children, {Nmhd, Stbl, Smhd, Vmhd})
  }

  // ---- dref ----

  /** A data reference: its type and the bytes after its version and flags. */
  datatype DataRef = DataRef(refType: seq<byte>, value: seq<byte>)

  /**
   * `count` more entries from `off`: each holds a big-endian size of at
   * least 12 (size, type, version and flags) and ends within the payload;
   * anything else makes a slice panic.
   */
  predicate DrefFrom(data: seq<byte>, off: nat, count: nat)
    decreases count
  {
    count == 0
    || (off + 4 <= |data| && 12 <= BE(data[off..off + 4]) && off + BE(data[off..off + 4]) <= |data|
        && DrefFrom(data, off + BE(data[off..off + 4]), count - 1))
  }

  /** The entries from `off`: each entry's type at 4..8 and its value from 12 to its end. */
  function DrefAt(data: seq<byte>, off: nat, count: nat): (r: seq<DataRef>)
    requires DrefFrom(data, off, count)
    ensures |r| == count
    decreases count
  {
    if count == 0 then []
    else
      var size := BE(data[off..off + 4]);
      [DataRef(data[off + 4..off + 8], data[off + 12..off + size])] + DrefAt(data, off + size, count - 1)
  }

  /** A dref payload: version and flags, the entry count, then that many entries. */
  predicate DrefReadable(data: seq<byte>)
  {
    |data| >= 8 && DrefFrom(data, 8, BE(data[4..8]))
  }

  function DrefEntries(data: seq<byte>): seq<DataRef>
    requires DrefReadable(data)
  {
    DrefAt(data, 8, BE(data[4..8]))
  }

  /** The entry loop of DataInformationBox.Print for a dref child. */
  method ReadDataRefs(data: seq<byte>) returns (refs: seq<DataRef>)
    requires DrefReadable(data)
    ensures refs == DrefEntries(data)
  {
    var numberOfEntries := BE(data[4..8]);
    var offset: nat := 8;
    refs := [];
    var remaining: nat := numberOfEntries;
    while remaining > 0
      invariant DrefFrom(data, offset, remaining)
      invariant DrefEntries(data) == refs + DrefAt(data, offset, remaining)
    {
      refs, offset := ReadDataRef(data, offset, remaining, refs);
      remaining := remaining - 1;
    }
  }

  /** One entry of the loop: its type and value appended to `refs`, and where the next entry starts. */
  method ReadDataRef(data: seq<byte>, offset: nat, count: nat, refs: seq<DataRef>) returns (refs': seq<DataRef>, next: nat)
    requires count > 0 && DrefFrom(data, offset, count)
    ensures next > offset && DrefFrom(data, next, count - 1)
    ensures refs' == refs + [DrefAt(data, offset, count)[0]]
    ensures refs + DrefAt(data, offset, count) == refs' + DrefAt(data, next, count - 1)
  {
    var size := BE(data[offset..offset + 4]);
    var r := DataRef(data[offset + 4..offset + 8], data[offset + 12..offset + size]);
    next := offset + size;
    refs' := refs + [r];
    ghost var tail := DrefAt(data, next, count - 1);
    assert DrefAt(data, offset, count) == [r] + tail;
    assert refs + ([r] + tail) == refs' + tail;
  }

  /** A dref entry as a muxer lays it out: size, type, version and flags, then the value. */
  function DrefEntry(r: DataRef, flags: seq<byte>): seq<byte>
    requires |r.refType| == 4 && |flags| == 4
  {
    BEBytes(|r.value| + 12, 4) + r.refType + flags + r.value
  }

  function DrefEntryList(refs: seq<DataRef>, flags: seq<byte>): seq<byte>
    requires |flags| == 4 && forall k :: 0 <= k < |refs| ==> |refs[k].refType| == 4
  {
    if refs == [] then [] else DrefEntry(refs[0], flags) + DrefEntryList(refs[1..], flags)
  }

  /** Reading back laid-out entries gives the references that were laid out, in order. */
  lemma {:induction false} DrefRoundTrip(prefix: seq<byte>, refs: seq<DataRef>, flags: seq<byte>)
    requires |flags| == 4
    requires forall k :: 0 <= k < |refs| ==> |refs[k].refType| == 4 && |refs[k].value| + 12 < 0x1_0000_0000
    ensures DrefFrom(prefix + DrefEntryList(refs, flags), |prefix|, |refs|)
    ensures DrefAt(prefix + DrefEntryList(refs, flags), |prefix|, |refs|) == refs
    decreases |refs|
  {
    if refs != [] {
      var entry := DrefEntry(refs[0], flags);
      var rest := DrefEntryList(refs[1..], flags);
      assert prefix + DrefEntryList(refs, flags) == (prefix + entry) + rest;
      DrefRoundTrip(prefix + entry, refs[1..], flags);
      EntryThenRefs(prefix, refs[0], flags, rest, |refs[1..]|);
      assert refs == [refs[0]] + refs[1..];
    }
  }

  lemma EntryThenRefs(prefix: seq<byte>, r: DataRef, flags: seq<byte>, rest: seq<byte>, count: nat)
    requires |r.refType| == 4 && |flags| == 4 && |r.value| + 12 < 0x1_0000_0000
    requires DrefFrom(prefix + DrefEntry(r, flags) + rest, |prefix + DrefEntry(r, flags)|, count)
    ensures var data := prefix + DrefEntry(r, flags) + rest;
      DrefFrom(data, |prefix|, count + 1)
      && DrefAt(data, |prefix|, count + 1) == [r] + DrefAt(data, |prefix + DrefEntry(r, flags)|, count)
  {
    var data := prefix + DrefEntry(r, flags) + rest;
    assert |prefix + DrefEntry(r, flags)| == |prefix| + |r.value| + 12;
    DrefEntryReads(prefix, r, flags, rest);
    DrefCons(data, |prefix|, |r.value| + 12, count + 1);
  }

  lemma DrefCons(data: seq<byte>, at: nat, size: nat, n: nat)
    requires n > 0 && at + 4 <= |data| && BE(data[at..at + 4]) == size && 12 <= size && at + size <= |data|
    requires DrefFrom(data, at + size, n - 1)
    ensures DrefFrom(data, at, n)
    ensures DrefAt(data, at, n) == [DataRef(data[at + 4..at + 8], data[at + 12..at + size])] + DrefAt(data, at + size, n - 1)
  {
  }

  lemma DrefEntryReads(prefix: seq<byte>, r: DataRef, flags: seq<byte>, rest: seq<byte>)
    requires |r.refType| == 4 && |flags| == 4 && |r.value| + 12 < 0x1_0000_0000
    ensures var data := prefix + DrefEntry(r, flags) + rest; var at := |prefix|;
      at + |r.value| + 12 <= |data| && BE(data[at..at + 4]) == |r.value| + 12
      && data[at + 4..at + 8] == r.refType && data[at + 12..at + 12 + |r.value|] == r.value
  {
    var data := prefix + DrefEntry(r, flags) + rest;
    var at := |prefix|;
    assert data[at..at + 4] == BEBytes(|r.value| + 12, 4);
    assert data[at + 4..at + 8] == r.refType;
    assert data[at + 12..at + 12 + |r.value|] == r.value;
    Pow256Widths();
    BEBytesRoundTrip(|r.value| + 12, 4);
  }
}
