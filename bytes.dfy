/**
 * Byte-level vocabulary shared by every container parser: a file image is a
 * sequence of bytes, reads follow the contract of Go's `(*os.File).ReadAt`,
 * and multi-byte integers are decoded big- or little-endian.
 */
module Bytes {
  /** One octet of a file. */
  newtype byte = x: int | 0 <= x < 256

  datatype Option<T> = None | Some(value: T)

  /** A Go `(value, error)` pair: the value, or the error's message. */
  datatype Result<T> = Ok(value: T) | Failure(msg: string)

  /** What `(*os.File).ReadAt(buf, off)` reports for a buffer of `n` bytes. */
  datatype Read = Data(bytes: seq<byte>) | EndOfFile | BadOffset

  /**
   * ReadAt on a file image: a negative offset is rejected, an empty buffer
   * is always filled, and any read that runs past the end of the file
   * reports io.EOF, even when some bytes were copied.
   */
  function ReadAt(f: seq<byte>, off: int, n: nat): (r: Read)
    ensures r.BadOffset? <==> off < 0
    ensures r.Data? <==> 0 <= off && (n == 0 || off + n <= |f|)
    ensures r.Data? ==> |r.bytes| == n && (n > 0 ==> r.bytes == f[off..off + n])
  {
    if off < 0 then BadOffset
    else if n == 0 then Data([])
    else if off + n > |f| then EndOfFile
    else Data(f[off..off + n])
  }

  /** `n` zero bytes: a freshly made Go byte slice. */
  function Zeros(n: nat): (z: seq<byte>)
    ensures |z| == n && forall i :: 0 <= i < n ==> z[i] == 0
  {
    seq(n, _ => 0)
  }

  function Min(a: int, b: int): int { if a <= b then a else b }

  /**
   * The buffer a caller that tolerates io.EOF ends up with: the bytes the
   * file holds from `off`, then the zeros the buffer was made with.
   */
  function ReadPadded(f: seq<byte>, off: nat, n: nat): (r: seq<byte>)
    ensures |r| == n
    ensures forall i :: 0 <= i < n ==> r[i] == (if off + i < |f| then f[off + i] else 0)
  {
    var got := if off >= |f| then [] else f[off..Min(off + n, |f|)];
    got + Zeros(n - |got|)
  }

  function Pow2(n: nat): (p: nat)
    ensures p >= 1
  {
    if n == 0 then 1 else 2 * Pow2(n - 1)
  }

  /** A result with `pre` in front of its value; a failure stays as it is. */
  function Prefixed<T>(pre: seq<T>, r: Result<seq<T>>): Result<seq<T>>
  {
    match r
    case Ok(rest) => Ok(pre + rest)
    case Failure(m) => Failure(m)
  }

  /** Putting two pieces in front in turn is putting their concatenation in front. */
  lemma PrefixedTwice<T>(a: seq<T>, b: seq<T>, r: Result<seq<T>>)
    ensures Prefixed(a, Prefixed(b, r)) == Prefixed(a + b, r)
  {
    if r.Ok? {
      assert a + (b + r.value) == (a + b) + r.value;
    }
  }

  /**
   * The file after `(*os.File).WriteAt(data, off)` over bytes it already
   * holds: `data` replaces the bytes at `off`, nothing else changes.
   */
  function Overwrite(f: seq<byte>, off: nat, data: seq<byte>): (r: seq<byte>)
    requires off + |data| <= |f|
    ensures |r| == |f|
    ensures forall i :: 0 <= i < |f| ==> r[i] == (if off <= i < off + |data| then data[i - off] else f[i])
  {
    f[..off] + data + f[off + |data|..]
  }

  function Max(a: int, b: int): int { if a >= b then a else b }

  /**
   * The file after `(*os.File).WriteAt(data, off)` at any non-negative
   * offset: a write past the end grows the file, and the gap between the
   * old end and `off` reads back as zeros.
   */
  function Grown(f: seq<byte>, off: nat, data: seq<byte>): (r: seq<byte>)
    ensures |r| == (if data == [] then |f| else Max(|f|, off + |data|))
    ensures forall i :: 0 <= i < |r| ==>
      r[i] == (if off <= i < off + |data| then data[i - off] else if i < |f| then f[i] else 0)
    ensures off + |data| <= |f| ==> r == Overwrite(f, off, data)
  {
    if data == [] then f
    else if off + |data| <= |f| then Overwrite(f, off, data)
    else if off <= |f| then f[..off] + data
    else f + Zeros(off - |f|) + data
  }

  /** An open file whose length can change: its whole content as one value. */
  class File {
    var content: seq<byte>

    constructor(content: seq<byte>)
      ensures this.content == content
    {
      this.content := content;
    }

    /** `(*os.File).WriteAt` at a non-negative offset. */
    method WriteAt(off: nat, data: seq<byte>)
      modifies this
      ensures content == Grown(old(content), off, data)
    {
      content := Grown(content, off, data);
    }
  }

  /** `(*os.File).WriteAt` on a file image held in an array. */
  method WriteAt(file: array<byte>, off: nat, data: seq<byte>)
    requires off + |data| <= file.Length
    modifies file
    ensures file[..] == Overwrite(old(file[..]), off, data)
  {
    var i := 0;
    while i < |data|
      invariant 0 <= i <= |data|
      invariant forall j :: 0 <= j < file.Length ==>
        file[j] == (if off <= j < off + i then data[j - off] else old(file[j]))
    {
      file[off + i] := data[i];
      i := i + 1;
    }
  }

  function Pow256(n: nat): (p: nat)
    ensures p >= 1
  {
    if n == 0 then 1 else 256 * Pow256(n - 1)
  }

  /** The ranges of 16-bit and 32-bit fields. */
  lemma Pow256Widths()
    ensures Pow256(2) == 0x1_0000 && Pow256(4) == 0x1_0000_0000
  {
    assert Pow256(2) == 0x1_0000;
  }

  /** Big-endian (network order) unsigned value of `s`. */
  function BE(s: seq<byte>): nat
  {
    if |s| == 0 then 0 else BE(s[..|s| - 1]) * 256 + s[|s| - 1] as nat
  }

  /** Little-endian unsigned value of `s`. */
  function LE(s: seq<byte>): nat
  {
    if |s| == 0 then 0 else s[0] as nat + 256 * LE(s[1..])
  }

  /** Big-endian value of the `n` bytes of `s` starting at `i`. */
  function BEAt(s: seq<byte>, i: nat, n: nat): nat
    requires i + n <= |s|
  {
    BE(s[i..i + n])
  }

  /** Little-endian value of the `n` bytes of `s` starting at `i`. */
  function LEAt(s: seq<byte>, i: nat, n: nat): nat
    requires i + n <= |s|
  {
    LE(s[i..i + n])
  }

  /** Encodes `x` as `n` little-endian bytes, keeping the low `n` bytes. */
  function LEBytes(x: nat, n: nat): (r: seq<byte>)
    ensures |r| == n
  {
    if n == 0 then [] else [(x % 256) as byte] + LEBytes(x / 256, n - 1)
  }

  /** Encodes `x` as `n` big-endian bytes, keeping the low `n` bytes. */
  function BEBytes(x: nat, n: nat): (r: seq<byte>)
    ensures |r| == n
  {
    if n == 0 then [] else BEBytes(x / 256, n - 1) + [(x % 256) as byte]
  }

  /** Go's conversion of an integer to `uint64`. */
  function U64(x: int): (r: nat)
    ensures r < 0x1_0000_0000_0000_0000
    ensures 0 <= x < 0x1_0000_0000_0000_0000 ==> r == x
  {
    x % 0x1_0000_0000_0000_0000
  }

  /** Go's conversion of an integer to `int64`: the two's-complement wrap into the signed range. */
  function I64(x: int): (r: int)
    ensures -0x8000_0000_0000_0000 <= r < 0x8000_0000_0000_0000
    ensures -0x8000_0000_0000_0000 <= x < 0x8000_0000_0000_0000 ==> r == x
    ensures (r - x) % 0x1_0000_0000_0000_0000 == 0
  {
    (x + 0x8000_0000_0000_0000) % 0x1_0000_0000_0000_0000 - 0x8000_0000_0000_0000
  }

  /** Go's conversion of an integer to `uint32`. */
  function U32(x: int): (r: nat)
    ensures r < 0x1_0000_0000
    ensures 0 <= x < 0x1_0000_0000 ==> r == x
  {
    x % 0x1_0000_0000
  }

  /** Go's conversion of an integer to `uint16`. */
  function U16(x: int): (r: nat)
    ensures r < 0x1_0000
    ensures 0 <= x < 0x1_0000 ==> r == x
  {
    x % 0x1_0000
  }

  lemma {:induction false} BEBound(s: seq<byte>)
    ensures BE(s) < Pow256(|s|)
    decreases |s|
  {
    if |s| > 0 {
      BEBound(s[..|s| - 1]);
    }
  }

  lemma {:induction false} LEBound(s: seq<byte>)
    ensures LE(s) < Pow256(|s|)
    decreases |s|
  {
    if |s| > 0 {
      LEBound(s[1..]);
    }
  }

  /** Leading zero bytes do not change a big-endian value. */
  lemma {:induction false} BELeadingZeros(k: nat, s: seq<byte>)
    ensures BE(Zeros(k) + s) == BE(s)
    decreases |s|
  {
    if |s| == 0 {
      assert Zeros(k) + s == Zeros(k);
      BEAllZeros(k);
    } else {
      assert (Zeros(k) + s)[..|Zeros(k) + s| - 1] == Zeros(k) + s[..|s| - 1];
      BELeadingZeros(k, s[..|s| - 1]);
    }
  }

  lemma {:induction false} BEAllZeros(k: nat)
    ensures BE(Zeros(k)) == 0
    decreases k
  {
    if k > 0 {
      assert Zeros(k)[..k - 1] == Zeros(k - 1);
      BEAllZeros(k - 1);
    }
  }

  /** Big-endian decoding splits at any point of the sequence. */
  lemma {:induction false} BEAppend(a: seq<byte>, b: seq<byte>)
    ensures BE(a + b) == BE(a) * Pow256(|b|) + BE(b)
    decreases |b|
  {
    if |b| == 0 {
      assert a + b == a;
    } else {
      var b' := b[..|b| - 1];
      var last := b[|b| - 1] as nat;
      assert (a + b)[..|a + b| - 1] == a + b';
      BEAppend(a, b');
      assert BE(a + b) == BE(a + b') * 256 + last;
      assert Pow256(|b|) == Pow256(|b'|) * 256;
      ShiftByte(BE(a), Pow256(|b'|), BE(b'), last);
    }
  }

  lemma ShiftByte(x: nat, p: nat, y: nat, z: nat)
    ensures (x * p + y) * 256 + z == x * (p * 256) + (y * 256 + z)
  {
  }

  /** A four-byte big-endian value, digit by digit. */
  lemma BE4(s: seq<byte>)
    requires |s| == 4
    ensures BE(s) == s[0] as nat * 0x100_0000 + s[1] as nat * 0x1_0000 + s[2] as nat * 0x100 + s[3] as nat
  {
    assert s[..3][..2] == s[..2] && s[..2][..1] == s[..1] && s[..1][..0] == [];
    assert BE(s[..1]) == s[0] as nat;
    assert BE(s[..2]) == s[0] as nat * 0x100 + s[1] as nat;
    assert BE(s[..3]) == s[0] as nat * 0x1_0000 + s[1] as nat * 0x100 + s[2] as nat;
  }

  /** `binary.BigEndian.Uint16`: two bytes, most significant first. */
  function Uint16BE(s: seq<byte>): (r: nat)
    requires |s| == 2
    ensures r < 0x1_0000
  {
    s[0] as nat * 0x100 + s[1] as nat
  }

  /** `binary.BigEndian.Uint32`: four bytes, most significant first. */
  function Uint32BE(s: seq<byte>): (r: nat)
    requires |s| == 4
    ensures r < 0x1_0000_0000
  {
    s[0] as nat * 0x100_0000 + s[1] as nat * 0x1_0000 + s[2] as nat * 0x100 + s[3] as nat
  }

  /** LEBytes is the inverse of little-endian decoding on values that fit. */
  lemma {:induction false} LEBytesRoundTrip(x: nat, n: nat)
    requires x < Pow256(n)
    ensures LE(LEBytes(x, n)) == x
    decreases n
  {
    if n > 0 {
      LEBytesRoundTrip(x / 256, n - 1);
      assert LEBytes(x, n)[1..] == LEBytes(x / 256, n - 1);
    }
  }

  lemma {:induction false} BEBytesRoundTrip(x: nat, n: nat)
    requires x < Pow256(n)
    ensures BE(BEBytes(x, n)) == x
    decreases n
  {
    if n > 0 {
      BEBytesRoundTrip(x / 256, n - 1);
      var s := BEBytes(x, n);
      assert s[..|s| - 1] == BEBytes(x / 256, n - 1);
    }
  }

  /** The byte strings of `ss` joined in order. */
  function Concat(ss: seq<seq<byte>>): seq<byte>
  {
    if ss == [] then [] else ss[0] + Concat(ss[1..])
  }

  lemma {:induction false} ConcatSnoc(ss: seq<seq<byte>>, s: seq<byte>)
    ensures Concat(ss + [s]) == Concat(ss) + s
    decreases |ss|
  {
    if ss == [] {
      assert [] + [s] == [s];
    } else {
      assert (ss + [s])[1..] == ss[1..] + [s];
      ConcatSnoc(ss[1..], s);
    }
  }

  // ---- decimal text, as produced by fmt's %v and read by strconv.Atoi ----

  function DigitChar(d: nat): byte
    requires d < 10
  {
    (48 + d) as byte
  }

  predicate IsDigit(c: byte) { 48 <= c <= 57 }

  /** The decimal spelling of `n` (fmt.Sprintf("%v", n) for an unsigned n). */
  function Decimal(n: nat): (r: seq<byte>)
    ensures |r| >= 1 && forall i :: 0 <= i < |r| ==> IsDigit(r[i])
    decreases n
  {
    if n < 10 then [DigitChar(n)] else Decimal(n / 10) + [DigitChar(n % 10)]
  }

  /** The value of a run of decimal digits. */
  function DigitsValue(s: seq<byte>): nat
    requires forall i :: 0 <= i < |s| ==> IsDigit(s[i])
  {
    if |s| == 0 then 0
    else
      var c := s[|s| - 1];
      assert IsDigit(c);
      DigitsValue(s[..|s| - 1]) * 10 + (c as int - 48)
  }

  const MaxInt64: int := 0x7FFF_FFFF_FFFF_FFFF

  /**
   * strconv.Atoi on a 64-bit platform: an optional sign followed by at least
   * one decimal digit, whose value must fit an int64.
   */
  function Atoi(s: seq<byte>): (r: Option<int>)
    ensures r.Some? ==> -MaxInt64 - 1 <= r.value <= MaxInt64
  {
    var neg := |s| > 0 && s[0] == 45;
    var body := if |s| > 0 && (s[0] == 43 || s[0] == 45) then s[1..] else s;
    if |body| == 0 || !(forall i :: 0 <= i < |body| ==> IsDigit(body[i])) then None
    else
      var v := DigitsValue(body);
      if neg && v <= MaxInt64 + 1 then Some(0 - v)
      else if !neg && v <= MaxInt64 then Some(v)
      else None
  }

  lemma {:induction false} DecimalValue(n: nat)
    ensures DigitsValue(Decimal(n)) == n
    decreases n
  {
    if n >= 10 {
      var d := Decimal(n);
      assert d[..|d| - 1] == Decimal(n / 10);
      DecimalValue(n / 10);
      assert (d[|d| - 1] as int) - 48 == n % 10;
      assert n == (n / 10) * 10 + n % 10;
    }
  }

  /** A decimal spelling has no leading zero: only the spelling of 0 starts with '0', and that one is a single digit. */
  lemma {:induction false} DecimalCanonical(n: nat)
    ensures Decimal(n)[0] == 48 <==> n == 0
    ensures |Decimal(n)| == 1 <==> n < 10
    decreases n
  {
    if n >= 10 {
      DecimalCanonical(n / 10);
      assert Decimal(n)[0] == Decimal(n / 10)[0];
    }
  }

  /** Reading back a decimal spelling gives the number that was spelled. */
  lemma DecimalAtoi(n: nat)
    requires n <= MaxInt64
    ensures Atoi(Decimal(n)) == Some(n)
  {
    DecimalValue(n);
    var d := Decimal(n);
    assert d[0] != 43 && d[0] != 45 by { assert IsDigit(d[0]); }
  }

  /** Regrouping a concatenation; stated once so that proofs about long sequences need not rediscover it. */
  lemma AppendAssoc<T>(a: seq<T>, b: seq<T>, c: seq<T>)
    ensures (a + b) + c == a + (b + c)
  {
  }
}
