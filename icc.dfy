/**
 * The ICC profile reader of the JPEG parser: a handful of fixed fields of
 * the 128-byte profile header (ICC.1 section 7.2), then a scan of the tag
 * table (ICC.1 section 7.3) for the first `cprt` entry, whose `text` or
 * `mluc` element supplies the copyright string. Every slice the reader
 * takes must lie inside the profile; a Go slice that would not is a
 * precondition here.
 */
module Icc {
  import opened Bytes

  /** The fields the reader reports; strings are the raw bytes Go copies. */
  datatype Profile = Profile(
    cmmType: seq<byte>,
    profileClass: seq<byte>,
    primaryPlatform: seq<byte>,
    deviceManufacturer: seq<byte>,
    deviceModel: seq<byte>,
    profileCreator: seq<byte>,
    copyright: seq<byte>)

  const Cprt: seq<byte> := [0x63, 0x70, 0x72, 0x74]
  const TextType: seq<byte> := [0x74, 0x65, 0x78, 0x74]
  const MlucType: seq<byte> := [0x6D, 0x6C, 0x75, 0x63]

  /** The tag table: a big-endian count at 128, then 12-byte entries from 132 on. */
  const CountAt: nat := 128
  const TableAt: nat := 132

  /** The header fields, with the copyright still empty. */
  function Header(raw: seq<byte>): (r: Profile)
    requires |raw| >= TableAt
    ensures |r.cmmType| == |r.profileClass| == |r.primaryPlatform| == |r.deviceManufacturer| == |r.deviceModel| == 4
    ensures |r.profileCreator| == 3 && r.copyright == []
  {
    Profile(raw[4..8], raw[12..16], raw[40..44], raw[48..52], raw[52..56], raw[80..83], [])
  }

  function TagCount(raw: seq<byte>): nat
    requires |raw| >= TableAt
  {
    Uint32BE(raw[CountAt..TableAt])
  }

  /** The position of entry `k` of a table whose entries start at `p`. */
  function Slot(p: nat, k: nat): nat { p + 12 * k }

  /** Whether a `cprt` signature sits at `q`. */
  predicate IsCprt(raw: seq<byte>, q: nat)
  {
    q + 4 <= |raw| && raw[q..q + 4] == Cprt
  }

  /** The scan of `n` entries from `p` reads only inside `raw`, up to the entry where it stops. */
  predicate ScanFits(raw: seq<byte>, p: nat, n: nat)
    decreases n
  {
    n == 0 || (p + 4 <= |raw| && (raw[p..p + 4] == Cprt || ScanFits(raw, p + 12, n - 1)))
  }

  /** The position of the first `cprt` entry among `n` entries from `p`. */
  function FirstCprt(raw: seq<byte>, p: nat, n: nat): Option<nat>
    requires ScanFits(raw, p, n)
    decreases n
  {
    if n == 0 then None
    else if raw[p..p + 4] == Cprt then Some(p)
    else FirstCprt(raw, p + 12, n - 1)
  }

  /** The element offset and size of the entry at `p`. */
  function DataOffset(raw: seq<byte>, p: nat): (r: nat)
    requires p + 12 <= |raw|
    ensures r < 0x1_0000_0000
  {
    Uint32BE(raw[p + 4..p + 8])
  }

  function DataSize(raw: seq<byte>, p: nat): (r: nat)
    requires p + 12 <= |raw|
    ensures r < 0x1_0000_0000
  {
    Uint32BE(raw[p + 8..p + 12])
  }

  /**
   * The slices the copyright read takes lie inside `raw`; the offsets are
   * added in 32 bits, as Go adds two `uint32` values.
   */
  predicate CopyrightFits(raw: seq<byte>, p: nat)
  {
    p + 12 <= |raw|
    && var d, size := DataOffset(raw, p), DataSize(raw, p);
    d <= U32(d + 4) <= |raw|
    && (raw[d..U32(d + 4)] == TextType ==> U32(d + 8) <= U32(d as int + size - 1) <= |raw|)
    && (raw[d..U32(d + 4)] == MlucType ==> U32(d + 28) <= U32(d as int + size - 1) <= |raw|)
  }

  /** The copyright the `cprt` entry at `p` names: the body of a `text` or `mluc` element, else nothing. */
  function Copyright(raw: seq<byte>, p: nat): seq<byte>
    requires CopyrightFits(raw, p)
  {
    var d, size := DataOffset(raw, p), DataSize(raw, p);
    var kind := raw[d..U32(d + 4)];
    if kind == TextType then raw[U32(d + 8)..U32(d as int + size - 1)]
    else if kind == MlucType then raw[U32(d + 28)..U32(d as int + size - 1)]
    else []
  }

  /** ParseICC runs without a slice panic. */
  predicate Parses(raw: seq<byte>)
  {
    |raw| >= TableAt
    && ScanFits(raw, TableAt, TagCount(raw))
    && (FirstCprt(raw, TableAt, TagCount(raw)).Some? ==> CopyrightFits(raw, FirstCprt(raw, TableAt, TagCount(raw)).value))
  }

  /** The profile ParseICC returns. */
  function ProfileOf(raw: seq<byte>): Profile
    requires Parses(raw)
  {
    match FirstCprt(raw, TableAt, TagCount(raw))
    case None => Header(raw)
    case Some(p) => Header(raw).(copyright := Copyright(raw, p))
  }

  /** Reads the header fields, then scans the tag table and stops at the first `cprt` entry. */
  method ParseICC(raw: seq<byte>) returns (result: Profile)
    requires Parses(raw)
    ensures result == ProfileOf(raw)
  {
    result := Profile(raw[4..8], raw[12..16], raw[40..44], raw[48..52], raw[52..56], raw[80..83], []);
    var tagCount := Uint32BE(raw[128..132]);
    var offset := 132;
    var i := 0;
    ghost var left := tagCount;
    while i < tagCount
      invariant i + left == tagCount && offset == TableAt + 12 * i
      invariant ScanFits(raw, offset, left) && FirstCprt(raw, offset, left) == FirstCprt(raw, TableAt, tagCount)
      invariant result == Header(raw)
    {
      if raw[offset..offset + 4] == Cprt {
        var dataOffset := Uint32BE(raw[offset + 4..offset + 8]);
        var size := Uint32BE(raw[offset + 8..offset + 12]);
        if raw[dataOffset..U32(dataOffset + 4)] == TextType {
          result := result.(copyright := raw[U32(dataOffset + 8)..U32(dataOffset as int + size - 1)]);
        } else if raw[dataOffset..U32(dataOffset + 4)] == MlucType {
          result := result.(copyright := raw[U32(dataOffset + 28)..U32(dataOffset as int + size - 1)]);
        }
        return;
      }
      ghost var left' := ScanStep(raw, offset, left, offset + 12);
      offset, i, left := offset + 12, i + 1, left';
    }
  }

  /** A scan that passes a non-`cprt` entry goes on from the next one. */
  lemma ScanStep(raw: seq<byte>, p: nat, n: nat, q: nat) returns (n': nat)
    requires n > 0 && q == p + 12 && ScanFits(raw, p, n) && raw[p..p + 4] != Cprt
    ensures n' + 1 == n && ScanFits(raw, q, n') && FirstCprt(raw, q, n') == FirstCprt(raw, p, n)
  {
    n' := n - 1;
  }

  /**
   * The scan finds exactly the first `cprt` entry: `Some(q)` names an entry
   * `k` below `n` that is one, with none before it, and `None` means that
   * no entry is.
   */
  lemma {:induction false} FirstCprtIsFirst(raw: seq<byte>, p: nat, n: nat)
    requires ScanFits(raw, p, n)
    ensures FirstCprt(raw, p, n).Some? ==>
      exists k :: 0 <= k < n && FirstCprt(raw, p, n).value == Slot(p, k) && IsCprt(raw, Slot(p, k))
        && forall j :: 0 <= j < k ==> !IsCprt(raw, Slot(p, j))
    ensures FirstCprt(raw, p, n).None? ==> forall j :: 0 <= j < n ==> !IsCprt(raw, Slot(p, j))
    decreases n
  {
    if n > 0 && raw[p..p + 4] != Cprt {
      var q := p + 12;
      FirstCprtIsFirst(raw, q, n - 1);
      forall j | 0 < j < n
        ensures Slot(p, j) == Slot(q, j - 1)
      {
      }
      assert Slot(p, 0) == p;
      if FirstCprt(raw, q, n - 1).Some? {
        var k :| 0 <= k < n - 1 && FirstCprt(raw, q, n - 1).value == Slot(q, k) && IsCprt(raw, Slot(q, k))
          && forall j :: 0 <= j < k ==> !IsCprt(raw, Slot(q, j));
        assert Slot(p, k + 1) == Slot(q, k);
        assert forall j :: 0 <= j < k + 1 ==> !IsCprt(raw, Slot(p, j)) by {
          forall j | 0 <= j < k + 1
            ensures !IsCprt(raw, Slot(p, j))
          {
            if j > 0 {
              assert !IsCprt(raw, Slot(q, j - 1));
            }
          }
        }
      }
    } else if n > 0 {
      assert Slot(p, 0) == p;
    }
  }

  /**
   * A `text` element holds its string from byte 8 and an `mluc` element
   * from byte 28, both up to one before the element's end, so a readable
   * copyright is `size - 9` or `size - 29` bytes long; an element of any
   * other type gives no copyright. (A profile shorter than 4 GiB keeps
   * every sum below 2^32, so none of them wraps.)
   */
  lemma CopyrightMeaning(raw: seq<byte>, p: nat)
    requires CopyrightFits(raw, p) && DataSize(raw, p) >= 1 && |raw| < 0x1_0000_0000 - 24
    ensures var d, size := DataOffset(raw, p), DataSize(raw, p);
      d + 4 <= |raw|
      && (raw[d..d + 4] == TextType ==>
            size >= 9 && d + size - 1 <= |raw| && Copyright(raw, p) == raw[d + 8..d + size - 1] && |Copyright(raw, p)| == size - 9)
      && (raw[d..d + 4] == MlucType ==>
            size >= 29 && d + size - 1 <= |raw| && Copyright(raw, p) == raw[d + 28..d + size - 1] && |Copyright(raw, p)| == size - 29)
      && (raw[d..d + 4] != TextType && raw[d..d + 4] != MlucType ==> Copyright(raw, p) == [])
  {
    var d, size := DataOffset(raw, p), DataSize(raw, p);
    assert U32(d + 4) == d + 4 && U32(d + 8) == d + 8 && U32(d + 28) == d + 28;
    if d + size - 1 >= 0x1_0000_0000 {
      assert U32(d as int + size - 1) == d + size - 1 - 0x1_0000_0000 < d;
    }
  }

  /** The header fields come from the first 83 bytes alone: the tag table does not change them. */
  lemma HeaderIsFixed(raw: seq<byte>, raw': seq<byte>)
    requires |raw| >= TableAt && |raw'| >= TableAt && raw[..83] == raw'[..83]
    ensures Header(raw) == Header(raw')
  {
    assert raw[4..8] == raw[..83][4..8] && raw'[4..8] == raw'[..83][4..8];
    assert raw[12..16] == raw[..83][12..16] && raw'[12..16] == raw'[..83][12..16];
    assert raw[40..44] == raw[..83][40..44] && raw'[40..44] == raw'[..83][40..44];
    assert raw[48..52] == raw[..83][48..52] && raw'[48..52] == raw'[..83][48..52];
    assert raw[52..56] == raw[..83][52..56] && raw'[52..56] == raw'[..83][52..56];
    assert raw[80..83] == raw[..83][80..83] && raw'[80..83] == raw'[..83][80..83];
  }
}
