/**
 * The ELF parser's byte-level parts: the magic check, the build ID sliced
 * out of the `.note.go.buildid` section, and the two in-place scramblers
 * Clear runs: the file-name obfuscation of `.gopclntab` and the build-ID
 * scramble. Both write random lowercase letters; the model draws them as a
 * nondeterministic choice. The ELF, DWARF, gosym and buildinfo libraries
 * are not modelled: the sections they locate and the file names they list
 * are inputs.
 */
module Elf {
  import opened Bytes

  /** The four bytes every ELF file opens with: 0x7F, 'E', 'L', 'F'. */
  const Magic: seq<byte> := [0x7F, 0x45, 0x4C, 0x46]

  const ReadFailed := "failed to read file"
  const PclntabFailed := "error reading .gopclntab section: "

  /** The separator '/' between the parts of a Go build ID. */
  const Slash: byte := 0x2F

  /** A lowercase ASCII letter, 'a' to 'z': what the scramblers write. */
  predicate IsLetter(b: byte)
  {
    97 <= b <= 122
  }

  predicate AllLetters(s: seq<byte>)
  {
    forall k :: 0 <= k < |s| ==> IsLetter(s[k])
  }

  /** IsELF: four bytes are read at the start offset (a short read is an error) and compared with the magic. */
  function IsELF(f: seq<byte>, startOffset: int): (r: Result<bool>)
    ensures r.Failure? <==> startOffset < 0 || startOffset + 4 > |f|
    ensures r.Ok? ==> (r.value <==> f[startOffset..startOffset + 4] == Magic)
  {
    match ReadAt(f, startOffset, 4)
    case Data(magicBytes) => Ok(magicBytes == Magic)
    case _ => Failure(ReadFailed)
  }

  // ---- the build ID ----

  /**
   * GetBuildId: the note's bytes from offset 16 up to, and without, its last
   * byte; nothing when the file has no `.note.go.buildid` section. A note
   * shorter than 17 bytes makes the slice panic.
   */
  function GetBuildId(note: Option<seq<byte>>): (id: seq<byte>)
    requires note.Some? ==> |note.value| >= 17
    ensures note.None? ==> id == []
    ensures note.Some? ==> |id| == |note.value| - 17 && forall k :: 0 <= k < |id| ==> id[k] == note.value[16 + k]
  {
    match note
    case None => []
    case Some(data) => data[16..|data| - 1]
  }

  /**
   * The build ID read back from a note laid out as a 16-byte header, the ID
   * and one trailing byte is exactly that ID, whatever the header and the
   * trailing byte hold; and a missing note reads as the empty ID.
   */
  lemma BuildIdRoundTrip(header: seq<byte>, id: seq<byte>, last: byte)
    requires |header| == 16
    ensures GetBuildId(Some(header + id + [last])) == id
    ensures GetBuildId(None) == []
  {
    assert (header + id + [last])[16..16 + |id|] == id;
  }

  /**
   * What the build-ID scramble leaves: the same length; the 16-byte header
   * and the last byte unchanged; between them every '/' kept and every
   * other byte replaced by a lowercase letter.
   */
  predicate BuildIdScrambled(before: seq<byte>, after: seq<byte>)
  {
    |after| == |before|
    && forall j :: 0 <= j < |before| ==>
      if 16 <= j < |before| - 1 && before[j] != Slash then IsLetter(after[j]) else after[j] == before[j]
  }

  /** The build-ID scramble of Clear: each byte from 16 to the last but one that is not '/' becomes a random letter. */
  method ScrambleBuildId(data: array<byte>)
    modifies data
    ensures BuildIdScrambled(old(data[..]), data[..])
  {
    var i := 16;
    while i < data.Length - 1
      invariant 16 <= i
      invariant forall j :: 0 <= j < data.Length ==>
        if 16 <= j < i && j < data.Length - 1 && old(data[j]) != Slash then IsLetter(data[j]) else data[j] == old(data[j])
    {
      if data[i] != Slash {
        assert IsLetter(97);
        var c: byte :| IsLetter(c);
        data[i] := c;
      }
      i := i + 1;
    }
  }

  /**
   * After the scramble the build ID keeps its length and its '/'
   * separators, each in its place, and no other '/' appears; every other
   * byte is a letter. The note's header and trailing byte are unchanged.
   */
  lemma ScrambledBuildId(before: seq<byte>, after: seq<byte>)
    requires BuildIdScrambled(before, after) && |before| >= 17
    ensures var a, b := GetBuildId(Some(before)), GetBuildId(Some(after));
      |b| == |a| && forall k :: 0 <= k < |a| ==> (b[k] == Slash <==> a[k] == Slash) && (a[k] != Slash ==> IsLetter(b[k]))
    ensures after[..16] == before[..16] && after[|after| - 1] == before[|before| - 1]
  {
    var a, b := GetBuildId(Some(before)), GetBuildId(Some(after));
    forall k | 0 <= k < |a|
      ensures (b[k] == Slash <==> a[k] == Slash) && (a[k] != Slash ==> IsLetter(b[k]))
    {
      assert a[k] == before[16 + k] && b[k] == after[16 + k];
    }
    assert forall j :: 0 <= j < 16 ==> after[j] == before[j];
  }

  // ---- the file-name obfuscation ----

  /** `t` occurs in `s` at position `k`. */
  predicate Occurs(s: seq<byte>, t: seq<byte>, k: nat)
  {
    k + |t| <= |s| && s[k..k + |t|] == t
  }

  /**
   * The scan of ObfuscateString from start position `i` up to, and without,
   * `stop`: wherever the current window equals `t`, the replacement `r` is
   * copied over it, and the scan goes on over the bytes as they now are.
   */
  function Scan(s: seq<byte>, t: seq<byte>, r: seq<byte>, i: nat, stop: nat): (out: seq<byte>)
    requires |r| == |t| && (stop == 0 || stop + |t| <= |s| + 1)
    ensures |out| == |s|
    decreases stop - i
  {
    if i >= stop then s
    else Scan(if s[i..i + |t|] == t then Overwrite(s, i, r) else s, t, r, i + 1, stop)
  }

  /** The bound of the scan as written: `len(source) - len(target)` start positions, none when that is negative. */
  function EndAsWritten(sourceLength: nat, targetLength: nat): (stop: nat)
    ensures stop == 0 || stop + targetLength <= sourceLength + 1
  {
    if sourceLength >= targetLength then sourceLength - targetLength else 0
  }

  /** Every start position at which the target fits: one more than the scan as written tests. */
  function End(sourceLength: nat, targetLength: nat): (stop: nat)
    ensures stop == 0 || stop + targetLength <= sourceLength + 1
    ensures targetLength <= sourceLength ==> stop == sourceLength - targetLength + 1
  {
    if sourceLength >= targetLength then sourceLength - targetLength + 1 else 0
  }

  /** ObfuscateString as written, on the bytes: the scan stops before the last start position. */
  function ObfuscatedAsWritten(s: seq<byte>, t: seq<byte>, r: seq<byte>): seq<byte>
    requires |r| == |t|
  {
    Scan(s, t, r, 0, EndAsWritten(|s|, |t|))
  }

  /** ObfuscateString with the last start position examined too. */
  function Obfuscated(s: seq<byte>, t: seq<byte>, r: seq<byte>): seq<byte>
    requires |r| == |t|
  {
    Scan(s, t, r, 0, End(|s|, |t|))
  }

  /**
   * ObfuscateString: one string of random letters as long as the target is
   * drawn, then every window that equals the target when the scan reaches
   * it is overwritten with that string, in place.
   */
  method ObfuscateString(source: array<byte>, target: seq<byte>) returns (obfuscated: seq<byte>)
    modifies source
    ensures |obfuscated| == |target| && AllLetters(obfuscated)
    ensures source[..] == Obfuscated(old(source[..]), target, obfuscated)
  {
    obfuscated := [];
    while |obfuscated| < |target|
      invariant |obfuscated| <= |target| && AllLetters(obfuscated)
    {
      assert IsLetter(97);
      var c: byte :| IsLetter(c);
      obfuscated := obfuscated + [c];
    }
    var end := End(source.Length, |target|);
    var i := 0;
    while i < end
      invariant i <= end
      invariant Scan(source[..], target, obfuscated, i, end) == Obfuscated(old(source[..]), target, obfuscated)
    {
      assert source[..][i..i + |target|] == source[i..i + |target|];
      if source[i..i + |target|] == target {
        WriteAt(source, i, obfuscated);
      }
      i := i + 1;
    }
  }

  /**
   * The scan writes only letters of the replacement, and only at positions
   * a visited window covers: from `i` up to the last byte of the window at
   * `stop - 1`. Everything else keeps its byte.
   */
  lemma {:induction false} ScanWritesLetters(s: seq<byte>, t: seq<byte>, r: seq<byte>, i: nat, stop: nat)
    requires |r| == |t| && (stop == 0 || stop + |t| <= |s| + 1) && AllLetters(r)
    ensures var out := Scan(s, t, r, i, stop);
      forall p :: 0 <= p < |s| ==> out[p] == s[p] || (IsLetter(out[p]) && i <= p < stop + |t| - 1)
    decreases stop - i
  {
    if i < stop {
      var next := if s[i..i + |t|] == t then Overwrite(s, i, r) else s;
      ScanWritesLetters(next, t, r, i + 1, stop);
    }
  }

  /** A scan that meets no window equal to the target changes nothing. */
  lemma {:induction false} ScanNoMatch(s: seq<byte>, t: seq<byte>, r: seq<byte>, i: nat, stop: nat)
    requires |r| == |t| && (stop == 0 || stop + |t| <= |s| + 1)
    requires forall k: nat :: i <= k < stop ==> !Occurs(s, t, k)
    ensures Scan(s, t, r, i, stop) == s
    decreases stop - i
  {
    if i < stop {
      assert !Occurs(s, t, i);
      ScanNoMatch(s, t, r, i + 1, stop);
    }
  }

  /**
   * The frontier argument of the scan. `w` bounds the bytes already
   * overwritten: from the current position `i` up to `w` they are letters,
   * from `w` on they are the original bytes `s0`. Then, for a target whose
   * first byte is not a letter, every original occurrence the scan passes
   * ends with a letter at its first byte, whether the scan finds it intact
   * and overwrites it or an earlier overwrite already reached into it.
   */
  lemma {:induction false} Frontier(s0: seq<byte>, cur: seq<byte>, t: seq<byte>, r: seq<byte>, i: nat, stop: nat, w: nat)
    requires |cur| == |s0| && |r| == |t| && |t| > 0 && !IsLetter(t[0]) && AllLetters(r)
    requires (stop == 0 || stop + |t| <= |s0| + 1) && i <= stop && i <= w <= |s0|
    requires forall k: nat :: k < i && Occurs(s0, t, k) ==> IsLetter(cur[k])
    requires forall p :: i <= p < w ==> IsLetter(cur[p])
    requires forall p :: w <= p < |s0| ==> cur[p] == s0[p]
    ensures var out := Scan(cur, t, r, i, stop);
      forall k: nat :: k < stop && Occurs(s0, t, k) ==> IsLetter(out[k])
    decreases stop - i
  {
    if i < stop {
      var n := |t|;
      if cur[i..i + n] == t {
        var next := Overwrite(cur, i, r);
        var w' := if w < i + n then i + n else w;
        assert next[i] == r[0];
        Frontier(s0, next, t, r, i + 1, stop, w');
      } else {
        if w <= i {
          assert cur[i..i + n] == s0[i..i + n] by {
            assert forall p :: i <= p < i + n ==> cur[p] == s0[p];
          }
        }
        var w' := if w < i + 1 then i + 1 else w;
        Frontier(s0, cur, t, r, i + 1, stop, w');
      }
    }
  }

  /**
   * A scan from the start destroys every occurrence of a target whose
   * first byte is not a letter (a file path starts with '/') at each start
   * position it tests.
   */
  lemma ScanDestroys(s: seq<byte>, t: seq<byte>, r: seq<byte>, stop: nat)
    requires |r| == |t| && |t| > 0 && !IsLetter(t[0]) && AllLetters(r) && (stop == 0 || stop + |t| <= |s| + 1)
    ensures var out := Scan(s, t, r, 0, stop);
      forall k: nat :: k < stop && Occurs(s, t, k) ==> !Occurs(out, t, k)
  {
    var out := Scan(s, t, r, 0, stop);
    Frontier(s, s, t, r, 0, stop, 0);
    forall k: nat | k < stop && Occurs(s, t, k)
      ensures !Occurs(out, t, k)
    {
      assert out[k..k + |t|][0] == out[k];
    }
  }

  /**
   * ObfuscateString destroys every occurrence the source held of a target
   * that starts with a non-letter, including one that ends at the last
   * byte, keeps the length, and changes bytes only into letters; a source
   * without the target is left as it is.
   */
  lemma ObfuscatedHidesTarget(s: seq<byte>, t: seq<byte>, r: seq<byte>)
    requires |r| == |t| && |t| > 0 && !IsLetter(t[0]) && AllLetters(r)
    ensures var out := Obfuscated(s, t, r);
      |out| == |s| && (forall k: nat :: Occurs(s, t, k) ==> !Occurs(out, t, k))
      && (forall p :: 0 <= p < |s| ==> out[p] == s[p] || IsLetter(out[p]))
    ensures (forall k: nat :: !Occurs(s, t, k)) ==> Obfuscated(s, t, r) == s
  {
    var stop := End(|s|, |t|);
    ScanDestroys(s, t, r, stop);
    ScanWritesLetters(s, t, r, 0, stop);
    if forall k: nat :: !Occurs(s, t, k) {
      ScanNoMatch(s, t, r, 0, stop);
    }
  }

  /** With the scan bound as written, a source that is exactly the target keeps it. */
  lemma LastWindowMissed(t: seq<byte>, r: seq<byte>)
    requires |r| == |t| && |t| > 0
    ensures ObfuscatedAsWritten(t, t, r) == t
    ensures Obfuscated(t, t, r) == r
  {
    assert t[0..|t|] == t;
    assert Overwrite(t, 0, r) == r;
    assert Scan(t, t, r, 0, 1) == Scan(Overwrite(t, 0, r), t, r, 1, 1);
  }

  // ---- Clear ----

  /** Where a section lies in the file, as its section header gives it. */
  datatype Section = Section(offset: nat, size: nat)

  predicate Within(fileLength: nat, sec: Section)
  {
    sec.offset + sec.size <= fileLength
  }

  predicate InSection(p: int, sec: Section)
  {
    sec.offset <= p < sec.offset + sec.size
  }

  /** Two sections that share no byte, as the sections of an ELF file never do. */
  predicate Disjoint(a: Section, b: Section)
  {
    a.offset + a.size <= b.offset || b.offset + b.size <= a.offset
  }

  /** A replacement string for each target, as long as the target and made of letters. */
  predicate Draws(targets: seq<seq<byte>>, draws: seq<seq<byte>>)
  {
    |draws| == |targets| && forall k :: 0 <= k < |draws| ==> |draws[k]| == |targets[k]| && AllLetters(draws[k])
  }

  /** The bytes after ObfuscateString has run for each target in turn, each with its own letters. */
  function ObfuscateAll(s: seq<byte>, targets: seq<seq<byte>>, draws: seq<seq<byte>>): (out: seq<byte>)
    requires Draws(targets, draws)
    ensures |out| == |s|
    decreases |targets|
  {
    if targets == [] then s
    else
      var n := |targets| - 1;
      Obfuscated(ObfuscateAll(s, targets[..n], draws[..n]), targets[n], draws[n])
  }

  /** However many file names are obfuscated, every byte that changes becomes a letter. */
  lemma {:induction false} ObfuscateAllLetters(s: seq<byte>, targets: seq<seq<byte>>, draws: seq<seq<byte>>)
    requires Draws(targets, draws)
    ensures var out := ObfuscateAll(s, targets, draws);
      forall p :: 0 <= p < |s| ==> out[p] == s[p] || IsLetter(out[p])
    decreases |targets|
  {
    if targets != [] {
      var n := |targets| - 1;
      var mid := ObfuscateAll(s, targets[..n], draws[..n]);
      ObfuscateAllLetters(s, targets[..n], draws[..n]);
      ScanWritesLetters(mid, targets[n], draws[n], 0, End(|mid|, |targets[n]|));
    }
  }

  /** Section.Data(): a fresh copy of the section's bytes. */
  method SectionData(file: array<byte>, sec: Section) returns (data: array<byte>)
    requires Within(file.Length, sec)
    ensures fresh(data) && data[..] == file[sec.offset..sec.offset + sec.size]
  {
    data := new byte[sec.size];
    forall k | 0 <= k < sec.size {
      data[k] := file[sec.offset + k];
    }
  }

  /**
   * The `.gopclntab` part of Clear: the section's bytes are read, every file
   * name is obfuscated in them in turn, and they are written back at the
   * section's offset.
   */
  method ObfuscateSection(file: array<byte>, sec: Section, targets: seq<seq<byte>>) returns (ghost draws: seq<seq<byte>>)
    requires Within(file.Length, sec)
    modifies file
    ensures Draws(targets, draws)
    ensures forall p :: 0 <= p < file.Length && !InSection(p, sec) ==> file[p] == old(file[p])
    ensures file[sec.offset..sec.offset + sec.size] == ObfuscateAll(old(file[sec.offset..sec.offset + sec.size]), targets, draws)
  {
    var data := SectionData(file, sec);
    ghost var original := data[..];
    draws := [];
    var i := 0;
    while i < |targets|
      invariant i <= |targets| && Draws(targets[..i], draws)
      invariant data[..] == ObfuscateAll(original, targets[..i], draws)
      invariant file[..] == old(file[..])
    {
      var d := ObfuscateString(data, targets[i]);
      assert targets[..i + 1][..i] == targets[..i];
      draws := draws + [d];
      assert draws[..i] == draws[..|draws| - 1];
      i := i + 1;
    }
    assert targets[..i] == targets;
    WriteAt(file, sec.offset, data[..]);
    assert file[sec.offset..sec.offset + sec.size] == data[..];
  }

  /** The `.note.go.buildid` part of Clear: the note is read, scrambled and written back at its offset. */
  method ScrambleSection(file: array<byte>, sec: Section)
    requires Within(file.Length, sec)
    modifies file
    ensures forall p :: 0 <= p < file.Length && !InSection(p, sec) ==> file[p] == old(file[p])
    ensures BuildIdScrambled(old(file[sec.offset..sec.offset + sec.size]), file[sec.offset..sec.offset + sec.size])
  {
    var data := SectionData(file, sec);
    ScrambleBuildId(data);
    WriteAt(file, sec.offset, data[..]);
    assert file[sec.offset..sec.offset + sec.size] == data[..];
  }

  /** A section keeps its bytes through writes that stay inside another section. */
  lemma SliceKept(f: seq<byte>, g: seq<byte>, a: Section, b: Section)
    requires |g| == |f| && Within(|f|, a) && Disjoint(a, b)
    requires forall p :: 0 <= p < |f| && !InSection(p, b) ==> g[p] == f[p]
    ensures g[a.offset..a.offset + a.size] == f[a.offset..a.offset + a.size]
  {
    assert forall p :: a.offset <= p < a.offset + a.size ==> !InSection(p, b);
  }

  /**
   * ClearMetadata: when the symbol table lists file names, they are
   * obfuscated in `.gopclntab`; when the file has a `.note.go.buildid`
   * section, its build ID is scrambled. A failed listing stops Clear before
   * any write. No byte outside the two sections changes.
   */
  method ClearMetadata(file: array<byte>, pclntabFiles: Result<Option<seq<seq<byte>>>>, pclntab: Option<Section>, buildId: Option<Section>)
    returns (r: Result<()>, ghost draws: seq<seq<byte>>)
    requires pclntabFiles.Ok? && pclntabFiles.value.Some? ==> pclntab.Some? && Within(file.Length, pclntab.value)
    requires buildId.Some? ==> Within(file.Length, buildId.value)
    requires pclntab.Some? && buildId.Some? ==> Disjoint(pclntab.value, buildId.value)
    modifies file
    ensures r.Failure? <==> pclntabFiles.Failure?
    ensures r.Failure? ==> r.msg == PclntabFailed + pclntabFiles.msg && file[..] == old(file[..])
    ensures forall p :: (0 <= p < file.Length && (pclntab.None? || !InSection(p, pclntab.value))
      && (buildId.None? || !InSection(p, buildId.value))) ==> file[p] == old(file[p])
    ensures pclntabFiles.Ok? && pclntabFiles.value.Some? ==>
      (var sec, targets := pclntab.value, pclntabFiles.value.value;
       Draws(targets, draws)
       && file[sec.offset..sec.offset + sec.size] == ObfuscateAll(old(file[sec.offset..sec.offset + sec.size]), targets, draws))
    ensures pclntabFiles.Ok? && buildId.Some? ==>
      (var sec := buildId.value;
       BuildIdScrambled(old(file[sec.offset..sec.offset + sec.size]), file[sec.offset..sec.offset + sec.size]))
  {
    draws := [];
    if pclntabFiles.Failure? {
      return Failure(PclntabFailed + pclntabFiles.msg), draws;
    }
    if pclntabFiles.value.Some? {
      draws := ObfuscateSection(file, pclntab.value, pclntabFiles.value.value);
    }
    ghost var mid := file[..];
    if buildId.Some? {
      var sec := buildId.value;
      ScrambleSection(file, sec);
      if pclntabFiles.value.Some? {
        SliceKept(mid, file[..], pclntab.value, sec);
        SliceKept(old(file[..]), mid, sec, pclntab.value);
      }
    }
    r := Ok(());
  }
}
