/** Byte-level building blocks shared by every tool: the byte type, Python's
    zip-XOR and slicing, little/big-endian integers, hex text and ASCII case. */
module Bytes {
  import opened Wrappers

  type byte = bv8

  function Min(a: int, b: int): int { if a <= b then a else b }
  function Max(a: int, b: int): int { if a <= b then b else a }

  /** Python's `bytes(a ^ b for a, b in zip(x, y))`: the pairing stops at the shorter input. */
  function ZipXor(x: seq<byte>, y: seq<byte>): (r: seq<byte>)
    ensures |r| == Min(|x|, |y|)
    ensures forall i :: 0 <= i < |r| ==> r[i] == x[i] ^ y[i]
  {
    seq(Min(|x|, |y|), i requires 0 <= i < Min(|x|, |y|) => x[i] ^ y[i])
  }

  /** XOR is self-inverse: decrypting with the derived key gives back either side. */
  lemma ZipXorSelfInverse(p: seq<byte>, r: seq<byte>)
    requires |p| == |r|
    ensures ZipXor(p, ZipXor(p, r)) == r
    ensures ZipXor(r, ZipXor(p, r)) == p
  {
    var k := ZipXor(p, r);
    assert forall i :: 0 <= i < |r| ==> p[i] ^ (p[i] ^ r[i]) == r[i];
    assert forall i :: 0 <= i < |r| ==> r[i] ^ (p[i] ^ r[i]) == p[i];
  }

  /** Python's `s[lo:hi]` for non-negative bounds: both bounds are clamped to the length. */
  function Slice<T>(s: seq<T>, lo: nat, hi: nat): (r: seq<T>)
    ensures |r| == Max(0, Min(hi, |s|) - Min(lo, |s|))
  {
    var h := Min(hi, |s|);
    var l := Min(lo, h);
    s[l..h]
  }

  /** Python's `s[:n]` for an integer n that may be negative (`s[:-k]` drops the last k). */
  function PyPrefix<T>(s: seq<T>, n: int): (r: seq<T>)
    ensures |r| <= |s|
    ensures r == s[..|r|]
  {
    if n >= 0 then s[..Min(n, |s|)]
    else if -n >= |s| then []
    else s[..|s| + n]
  }

  /** The concatenation of a list of byte chunks (`b''.join(...)`). */
  function Concat<T>(chunks: seq<seq<T>>): seq<T>
  {
    if chunks == [] then [] else Concat(chunks[..|chunks| - 1]) + chunks[|chunks| - 1]
  }

  lemma {:induction false} ConcatAppend<T>(a: seq<seq<T>>, b: seq<seq<T>>)
    ensures Concat(a + b) == Concat(a) + Concat(b)
  {
    if b == [] {
      assert a + b == a;
    } else {
      assert (a + b)[..|a + b| - 1] == a + b[..|b| - 1];
      ConcatAppend(a, b[..|b| - 1]);
    }
  }

  /** When every chunk has width w, the concatenation has w bytes per chunk. */
  lemma {:induction false} ConcatUniformLength<T>(chunks: seq<seq<T>>, w: nat)
    requires forall i :: 0 <= i < |chunks| ==> |chunks[i]| == w
    ensures |Concat(chunks)| == w * |chunks|
  {
    if chunks != [] {
      ConcatUniformLength(chunks[..|chunks| - 1], w);
      MulSucc(w, |chunks| - 1);
    }
  }

  /** Chunk i of a uniform-width concatenation sits at offset w * i. */
  lemma {:induction false} ConcatUniformAt<T>(chunks: seq<seq<T>>, w: nat, i: nat)
    requires forall j :: 0 <= j < |chunks| ==> |chunks[j]| == w
    requires i < |chunks|
    ensures |Concat(chunks)| == w * |chunks|
    ensures 0 <= w * i && w * i + w <= |Concat(chunks)| && Concat(chunks)[w * i..w * i + w] == chunks[i]
  {
    var n := |chunks|;
    MulMono(w, 0, i);
    var front := chunks[..n - 1];
    var last := chunks[n - 1];
    ConcatUniformLength(front, w);
    assert Concat(chunks) == Concat(front) + last;
    MulSucc(w, n - 1);
    if i < n - 1 {
      ConcatUniformAt(front, w, i);
      MulSucc(w, i);
      MulMono(w, i + 1, n - 1);
      SliceLeft(Concat(front), last, w * i, w * i + w);
    } else {
      SliceRight(Concat(front), last);
    }
  }

  /** Chunk t of a uniform-width concatenation lies inside it, at offset w * t. */
  lemma ChunkBounds<T>(chunks: seq<seq<T>>, w: nat, t: nat)
    requires forall j :: 0 <= j < |chunks| ==> |chunks[j]| == w
    requires t < |chunks|
    ensures |Concat(chunks)| == w * |chunks|
    ensures 0 <= w * t && w * t + w <= |Concat(chunks)|
    ensures Concat(chunks)[w * t..w * t + w] == chunks[t]
  {
    ConcatUniformAt(chunks, w, t);
    MulSucc(w, t);
    MulMono(w, 0, t);
    MulMono(w, t + 1, |chunks|);
  }

  /** A window of a chunk found at `off` in c, seen through a prefix. */
  lemma WindowOfShifted<T>(prefix: seq<T>, c: seq<T>, chunk: seq<T>, off: nat, w: nat, lo: nat, hi: nat)
    requires off + w <= |c| && c[off..off + w] == chunk && lo <= hi <= w
    ensures (prefix + c)[|prefix| + off + lo..|prefix| + off + hi] == chunk[lo..hi]
  {
    SliceShift(prefix, c, off + lo, off + hi);
    SliceSlice(c, off, off + w, lo, hi);
  }

  /** A window inside chunk t of a concatenation of equal-width chunks that follows a
      prefix is the same window of chunk t. */
  lemma SliceOfConcat<T>(prefix: seq<T>, chunks: seq<seq<T>>, w: nat, t: nat, lo: nat, hi: nat)
    requires forall j :: 0 <= j < |chunks| ==> |chunks[j]| == w
    requires t < |chunks| && lo <= hi <= w
    ensures |prefix + Concat(chunks)| == |prefix| + w * |chunks|
    ensures |prefix| + w * t + hi <= |prefix + Concat(chunks)|
    ensures (prefix + Concat(chunks))[|prefix| + w * t + lo..|prefix| + w * t + hi] == chunks[t][lo..hi]
  {
    ChunkBounds(chunks, w, t);
    WindowOfShifted(prefix, Concat(chunks), chunks[t], w * t, w, lo, hi);
  }

  lemma SliceShift<T>(p: seq<T>, c: seq<T>, a: nat, b: nat)
    requires a <= b <= |c|
    ensures (p + c)[|p| + a..|p| + b] == c[a..b]
  {
  }

  lemma SliceSlice<T>(s: seq<T>, x: nat, y: nat, lo: nat, hi: nat)
    requires x <= y <= |s| && lo <= hi <= y - x
    ensures s[x..y][lo..hi] == s[x + lo..x + hi]
  {
    var a := s[x..y][lo..hi];
    var b := s[x + lo..x + hi];
    forall k | 0 <= k < hi - lo
      ensures a[k] == b[k]
    {
      assert a[k] == s[x..y][lo + k] == s[x + lo + k];
    }
  }

  lemma MulSucc(w: nat, a: nat)
    ensures w * (a + 1) == w * a + w
  {
  }

  lemma SliceLeft<T>(a: seq<T>, b: seq<T>, lo: nat, hi: nat)
    requires lo <= hi <= |a|
    ensures (a + b)[lo..hi] == a[lo..hi]
  {
  }

  lemma SliceRight<T>(a: seq<T>, b: seq<T>)
    ensures (a + b)[|a|..|a| + |b|] == b
  {
  }

  lemma MulMono(w: nat, a: nat, b: nat)
    requires a <= b
    ensures w * a <= w * b
  {
  }

  /** The value of a byte as a number. */
  function U8(b: byte): (n: nat)
    ensures n < 0x100
  {
    b as nat
  }

  /** The bytes as Python sees them when iterating a `bytes` object: integers 0..255. */
  function Ints(s: seq<byte>): (r: seq<nat>)
    ensures |r| == |s| && forall i :: 0 <= i < |s| ==> r[i] == U8(s[i])
  {
    seq(|s|, i requires 0 <= i < |s| => U8(s[i]))
  }

  lemma U8Injective(a: byte, b: byte)
    ensures U8(a) == U8(b) <==> a == b
  {
    ByteOfU8(a);
    ByteOfU8(b);
  }

  /** Value of 4 bytes read as a little-endian uint32 (`struct.unpack('<I', ...)`). */
  function LeU32(b: seq<byte>): (v: nat)
    requires |b| == 4
    ensures v < 0x1_0000_0000
  {
    Place(U8(b[0]), Place(U8(b[1]), Place(U8(b[2]), U8(b[3]), 0x100), 0x1_0000), 0x100_0000)
  }

  /** A low byte plus 256 times a higher part below `bound` stays below 256 * bound. */
  function Place(lo: nat, hi: nat, bound: nat): (v: nat)
    requires lo < 0x100 && hi < bound
    ensures v < 0x100 * bound
  {
    lo + 0x100 * hi
  }

  /** Value of 4 bytes read as a big-endian uint32 (`struct.unpack('>I', ...)`). */
  function BeU32(b: seq<byte>): (v: nat)
    requires |b| == 4
    ensures v < 0x1_0000_0000
  {
    Place(U8(b[3]), Place(U8(b[2]), Place(U8(b[1]), U8(b[0]), 0x100), 0x1_0000), 0x100_0000)
  }

  /** Value of 4 bytes read as a little-endian int32 (`struct.unpack('<i', ...)`). */
  function LeI32(b: seq<byte>): (v: int)
    requires |b| == 4
    ensures -0x8000_0000 <= v < 0x8000_0000
    ensures v == LeU32(b) || v == LeU32(b) - 0x1_0000_0000
  {
    var u := LeU32(b);
    if u < 0x8000_0000 then u else u - 0x1_0000_0000
  }

  /** Value of 2 bytes read as a little-endian int16 (`struct.unpack('<h', ...)`). */
  function LeI16(lo: byte, hi: byte): (v: int)
    ensures -0x8000 <= v < 0x8000
    ensures v == U8(lo) + 0x100 * U8(hi) || v == U8(lo) + 0x100 * U8(hi) - 0x1_0000
  {
    var u := U8(lo) + 0x100 * U8(hi);
    if u < 0x8000 then u else u - 0x1_0000
  }

  /** `struct.pack('<I', n)`; Python raises `struct.error` outside 0 <= n < 2^32. */
  function PackU32Le(n: nat): (r: seq<byte>)
    requires n < 0x1_0000_0000
    ensures |r| == 4
  {
    var q1 := n / 0x100;
    var q2 := q1 / 0x100;
    var q3 := q2 / 0x100;
    [(n % 0x100) as byte, (q1 % 0x100) as byte, (q2 % 0x100) as byte, (q3 % 0x100) as byte]
  }

  lemma ByteOfSmall(n: nat)
    requires n < 0x100
    ensures U8(n as byte) == n
  {
  }

  /** Splitting n into its low byte and the rest. */
  lemma DivMod256(n: nat)
    ensures n == n % 0x100 + 0x100 * (n / 0x100)
    ensures n % 0x100 < 0x100
  {
  }

  /** The quotient and remainder of lo + 256 * hi are hi and lo. */
  lemma Div256Unique(lo: nat, hi: nat)
    requires lo < 0x100
    ensures (lo + 0x100 * hi) / 0x100 == hi
    ensures (lo + 0x100 * hi) % 0x100 == lo
  {
    var n := lo + 0x100 * hi;
    DivMod256(n);
    var d := n / 0x100 - hi;
    assert 0x100 * d == lo - n % 0x100;
  }

  lemma ByteOfU8(b: byte)
    ensures U8(b) as byte == b
  {
  }

  /** Packing then unpacking a uint32 gives the value back. */
  lemma PackU32LeRoundTrip(n: nat)
    requires n < 0x1_0000_0000
    ensures LeU32(PackU32Le(n)) == n
  {
    var q1 := n / 0x100;
    var q2 := q1 / 0x100;
    var q3 := q2 / 0x100;
    DivMod256(n);
    DivMod256(q1);
    DivMod256(q2);
    DivMod256(q3);
    assert q3 < 0x100 by {
      assert n == n % 0x100 + 0x100 * (q1 % 0x100 + 0x100 * (q2 % 0x100 + 0x100 * q3));
    }
    var b := PackU32Le(n);
    ByteOfSmall(n % 0x100);
    ByteOfSmall(q1 % 0x100);
    ByteOfSmall(q2 % 0x100);
    ByteOfSmall(q3 % 0x100);
    assert U8(b[0]) == n % 0x100 && U8(b[1]) == q1 % 0x100;
    assert U8(b[2]) == q2 % 0x100 && U8(b[3]) == q3 % 0x100;
    assert q3 % 0x100 == q3;
  }

  /** The successive base-256 quotients of a number given by its four digits. */
  lemma Digits(n: nat, a0: nat, a1: nat, a2: nat, a3: nat)
    requires a0 < 0x100 && a1 < 0x100 && a2 < 0x100 && a3 < 0x100
    requires n == a0 + 0x100 * (a1 + 0x100 * (a2 + 0x100 * a3))
    ensures n < 0x1_0000_0000
    ensures n % 0x100 == a0 && (n / 0x100) % 0x100 == a1
    ensures (n / 0x100 / 0x100) % 0x100 == a2 && (n / 0x100 / 0x100 / 0x100) % 0x100 == a3
  {
    var m2 := a2 + 0x100 * a3;
    var m1 := a1 + 0x100 * m2;
    Div256Unique(a0, m1);
    Div256Unique(a1, m2);
    Div256Unique(a2, a3);
    Div256Unique(a3, 0);
  }

  /** The bytes packed for a number given by its four base-256 digits. */
  lemma PackDigits(n: nat, a0: nat, a1: nat, a2: nat, a3: nat)
    requires a0 < 0x100 && a1 < 0x100 && a2 < 0x100 && a3 < 0x100
    requires n == a0 + 0x100 * (a1 + 0x100 * (a2 + 0x100 * a3))
    ensures n < 0x1_0000_0000
    ensures PackU32Le(n) == [a0 as byte, a1 as byte, a2 as byte, a3 as byte]
  {
    Digits(n, a0, a1, a2, a3);
  }

  /** Unpacking then packing 4 bytes gives the bytes back. */
  lemma UnpackU32LeRoundTrip(b: seq<byte>)
    requires |b| == 4
    ensures PackU32Le(LeU32(b)) == b
  {
    assert LeU32(b) == U8(b[0]) + 0x100 * (U8(b[1]) + 0x100 * (U8(b[2]) + 0x100 * U8(b[3])));
    PackDigits(LeU32(b), U8(b[0]), U8(b[1]), U8(b[2]), U8(b[3]));
    ByteOfU8(b[0]);
    ByteOfU8(b[1]);
    ByteOfU8(b[2]);
    ByteOfU8(b[3]);
  }

  /** Python lower-casing of one ASCII byte (`bytes.lower`). */
  function LowerByte(b: byte): byte
  {
    if 0x41 <= b <= 0x5A then b + 0x20 else b
  }

  function LowerBytes(s: seq<byte>): (r: seq<byte>)
    ensures |r| == |s|
  {
    seq(|s|, i requires 0 <= i < |s| => LowerByte(s[i]))
  }

  /** Python's `pat in s` for byte strings: pat occurs as a contiguous block. */
  predicate Contains(s: seq<byte>, pat: seq<byte>)
  {
    exists i :: 0 <= i <= |s| - |pat| && OccursAt(s, pat, i)
  }

  predicate OccursAt(s: seq<byte>, pat: seq<byte>, i: nat)
    requires i + |pat| <= |s|
  {
    s[i..i + |pat|] == pat
  }

  /** Lower-case hexadecimal digit of a nibble. */
  function HexDigit(n: nat): char
    requires n < 16
  {
    if n < 10 then ('0' as int + n) as char else ('a' as int + n - 10) as char
  }

  /** Python's `bytes.hex()`: two lower-case digits per byte. */
  function Hex(s: seq<byte>): (r: string)
    ensures |r| == 2 * |s|
  {
    if s == [] then []
    else Hex(s[..|s| - 1]) + [HexDigit(s[|s| - 1] as nat / 16), HexDigit(s[|s| - 1] as nat % 16)]
  }

  /** The nibble a hex digit stands for, either case. */
  function HexValue(c: char): Option<nat>
  {
    if '0' <= c <= '9' then Some(c as int - '0' as int)
    else if 'a' <= c <= 'f' then Some(c as int - 'a' as int + 10)
    else if 'A' <= c <= 'F' then Some(c as int - 'A' as int + 10)
    else None
  }

  /** `bytes.fromhex(s)` for strings of digit pairs; None where Python raises ValueError. */
  function FromHex(s: string): Option<seq<byte>>
    decreases |s|
  {
    if s == [] then Some([])
    else if |s| == 1 then None
    else match (HexValue(s[0]), HexValue(s[1]), FromHex(s[2..]))
      case (Some(h), Some(l), Some(rest)) =>
        if h < 16 && l < 16 then Some([(16 * h + l) as byte] + rest) else None
      case _ => None
  }

  lemma {:induction false} HexAppend(a: seq<byte>, b: seq<byte>)
    ensures Hex(a + b) == Hex(a) + Hex(b)
  {
    if b == [] {
      assert a + b == a;
    } else {
      assert (a + b)[..|a + b| - 1] == a + b[..|b| - 1];
      HexAppend(a, b[..|b| - 1]);
    }
  }

  lemma HexDigitValue(n: nat)
    requires n < 16
    ensures HexValue(HexDigit(n)) == Some(n)
  {
  }

  lemma NibblesRecombine(x: byte)
    ensures (16 * (x as nat / 16) + x as nat % 16) as byte == x
  {
  }

  lemma FromHexPair(c1: char, c2: char, rest: string, h: nat, l: nat, tail: seq<byte>)
    requires HexValue(c1) == Some(h) && HexValue(c2) == Some(l) && h < 16 && l < 16
    requires FromHex(rest) == Some(tail)
    ensures FromHex([c1, c2] + rest) == Some([(16 * h + l) as byte] + tail)
  {
    assert ([c1, c2] + rest)[2..] == rest;
  }

  /** A byte's two digits in front of a readable string read back as that byte. */
  lemma HexPairValue(x: byte, rest: string, tail: seq<byte>)
    requires FromHex(rest) == Some(tail)
    ensures FromHex([HexDigit(x as nat / 16), HexDigit(x as nat % 16)] + rest) == Some([x] + tail)
  {
    var h, l := x as nat / 16, x as nat % 16;
    assert (16 * h + l) as byte == x by {
      NibblesRecombine(x);
    }
    assert HexValue(HexDigit(h)) == Some(h) && HexValue(HexDigit(l)) == Some(l) by {
      HexDigitValue(h);
      HexDigitValue(l);
    }
    FromHexPair(HexDigit(h), HexDigit(l), rest, h, l, tail);
  }

  /** `bytes.fromhex` reads back what `bytes.hex` writes. */
  lemma {:induction false} HexRoundTrip(s: seq<byte>)
    ensures FromHex(Hex(s)) == Some(s)
  {
    if s != [] {
      var x := s[0];
      var rest := s[1..];
      assert s == [x] + rest;
      HexAppend([x], rest);
      assert [x][..0] == [];
      assert Hex([x]) == [HexDigit(x as nat / 16), HexDigit(x as nat % 16)];
      HexRoundTrip(rest);
      HexPairValue(x, Hex(rest), rest);
    }
  }

  /** Decimal text of a natural number, as Python's `str(n)`. */
  function DecimalString(n: nat): string
  {
    if n < 10 then [('0' as int + n) as char]
    else DecimalString(n / 10) + [('0' as int + n % 10) as char]
  }

  predicate IsDigit(c: char)
  {
    '0' <= c <= '9'
  }

  /** Every character of the decimal text is a digit. */
  lemma {:induction false} DecimalDigits(n: nat)
    ensures |DecimalString(n)| >= 1
    ensures forall i :: 0 <= i < |DecimalString(n)| ==> IsDigit(DecimalString(n)[i])
  {
    if n >= 10 {
      DecimalDigits(n / 10);
    }
  }

  /** The number a string of digits denotes. */
  function DecimalValue(s: string): nat
  {
    if s == [] then 0
    else 10 * DecimalValue(s[..|s| - 1]) + (if IsDigit(s[|s| - 1]) then s[|s| - 1] as int - '0' as int else 0)
  }

  /** Reading the decimal text back gives the number. */
  lemma {:induction false} DecimalRoundTrip(n: nat)
    ensures DecimalValue(DecimalString(n)) == n
  {
    var s := DecimalString(n);
    if n >= 10 {
      DecimalRoundTrip(n / 10);
      assert s[..|s| - 1] == DecimalString(n / 10);
    }
  }

  /** Decimal text of an integer, with a leading minus sign when negative. */
  function IntString(n: int): (s: string)
    ensures |s| >= 1
    ensures forall i :: 0 <= i < |s| ==> IsDigit(s[i]) || (i == 0 && s[i] == '-')
    ensures s[0] == '-' <==> n < 0
  {
    if n < 0 then
      DecimalDigits(-n);
      "-" + DecimalString(-n)
    else
      DecimalDigits(n);
      DecimalString(n)
  }

  function IntValue(s: string): int
  {
    if s != [] && s[0] == '-' then -(DecimalValue(s[1..]) as int) else DecimalValue(s)
  }

  /** The decimal text of an integer determines it. */
  lemma IntRoundTrip(n: int)
    ensures IntValue(IntString(n)) == n
  {
    if n < 0 {
      assert IntString(n)[1..] == DecimalString(-n);
      DecimalRoundTrip(-n);
    } else {
      DecimalRoundTrip(n);
    }
  }
}
