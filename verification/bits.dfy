/**
  Bit buffers in the convention of java.util.BitSet as the hub driver uses it:
  a buffer is a `seq<bool>`, and bit i of a byte array is bit (i % 8) of byte (i / 8),
  least significant bit first (`BitSet.valueOf` / `BitSet.toByteArray`).
  Reading past the end of a buffer yields `false`, as `BitSet.get` does.
 */
module Bits {

  /** A byte as the driver stores it in a `byte[]`; arithmetic on it is by bit pattern. */
  type byte = bv8

  function Pow2(n: nat): (r: nat)
    ensures r >= 1
  {
    if n == 0 then 1 else 2 * Pow2(n - 1)
  }

  lemma {:induction false} Pow2Monotone(m: nat, n: nat)
    requires m <= n
    ensures Pow2(m) <= Pow2(n)
    decreases n
  {
    if m < n {
      Pow2Monotone(m, n - 1);
    }
  }

  lemma Pow2Values()
    ensures Pow2(8) == 0x100 && Pow2(11) == 0x800 && Pow2(12) == 0x1000
    ensures Pow2(15) == 0x8000 && Pow2(16) == 0x1_0000 && Pow2(20) == 0x10_0000
    ensures Pow2(31) == 0x8000_0000 && Pow2(32) == 0x1_0000_0000
  {
  }

  function Zeros(n: nat): (r: seq<bool>)
    ensures |r| == n
  {
    seq(n, _ => false)
  }

  /** The n low-order bits of v, least significant first: bit j is `(v >> j & 1) == 1`. */
  function LsbBits(v: nat, n: nat): (r: seq<bool>)
    ensures |r| == n
  {
    if n == 0 then [] else [v % 2 == 1] + LsbBits(v / 2, n - 1)
  }

  /** The unsigned value of a bit string read least significant bit first. */
  function Unsigned(bits: seq<bool>): (r: nat)
    ensures r < Pow2(|bits|)
  {
    if |bits| == 0 then 0 else (if bits[0] then 1 else 0) + 2 * Unsigned(bits[1..])
  }

  /** Division by 2p splits into division by 2 and then by p. */
  lemma ModDouble(v: nat, p: nat)
    requires p >= 1
    ensures v % (2 * p) == v % 2 + 2 * ((v / 2) % p)
  {
    var q := (v / 2) / p;
    var r := (v / 2) % p;
    assert v / 2 == p * q + r;
    assert v == 2 * p * q + (2 * r + v % 2);
    ModUnique(v, 2 * p, q, 2 * r + v % 2);
  }

  /** The remainder is the unique r in [0, d) with v == d * q + r. */
  lemma ModUnique(v: int, d: int, q: int, r: int)
    requires d > 0 && 0 <= r < d && v == d * q + r
    ensures v % d == r && v / d == q
  {
    var q' := v / d;
    var r' := v % d;
    assert d * q' + r' == d * q + r;
    assert d * (q' - q) == r - r';
    MultipleInOpenInterval(d, q' - q);
  }

  /** The only multiple of d strictly between -d and d is 0. */
  lemma MultipleInOpenInterval(d: int, k: int)
    requires d > 0 && -d < d * k < d
    ensures k == 0
  {
  }

  lemma AppendStep(bit: int, x: int, p: int, u: int)
    ensures bit + 2 * (x + p * u) == (bit + 2 * x) + (2 * p) * u
  {
  }

  /** Writing v into n bits and reading them back gives v modulo 2^n. */
  lemma {:induction false} UnsignedOfLsbBits(v: nat, n: nat)
    ensures Unsigned(LsbBits(v, n)) == v % Pow2(n)
    decreases n
  {
    if n > 0 {
      UnsignedOfLsbBits(v / 2, n - 1);
      assert LsbBits(v, n)[1..] == LsbBits(v / 2, n - 1);
      ModDouble(v, Pow2(n - 1));
    }
  }

  /** A value below 2^n survives the trip through n bits unchanged. */
  lemma LsbBitsRoundTrip(v: nat, n: nat)
    requires v < Pow2(n)
    ensures Unsigned(LsbBits(v, n)) == v
  {
    UnsignedOfLsbBits(v, n);
  }

  /** Reading bits as a value and writing it into n >= |bits| bits pads with zeros. */
  lemma {:induction false} LsbBitsOfUnsigned(bits: seq<bool>, n: nat)
    requires |bits| <= n
    ensures LsbBits(Unsigned(bits), n) == bits + Zeros(n - |bits|)
    decreases n
  {
    if n > 0 {
      var v := Unsigned(bits);
      if |bits| == 0 {
        LsbBitsOfUnsigned([], n - 1);
        assert LsbBits(0, n) == [false] + Zeros(n - 1);
      } else {
        assert v % 2 == (if bits[0] then 1 else 0);
        assert v / 2 == Unsigned(bits[1..]);
        LsbBitsOfUnsigned(bits[1..], n - 1);
        assert bits == [bits[0]] + bits[1..];
      }
    }
  }

  /** Least-significant-first concatenation: the second part carries the high-order bits. */
  lemma {:induction false} UnsignedAppend(a: seq<bool>, b: seq<bool>)
    ensures Unsigned(a + b) == Unsigned(a) + Pow2(|a|) * Unsigned(b)
    decreases |a|
  {
    if |a| > 0 {
      assert (a + b)[1..] == a[1..] + b;
      UnsignedAppend(a[1..], b);
      var bit := if a[0] then 1 else 0;
      var p, u := Pow2(|a| - 1), Unsigned(b);
      assert Pow2(|a|) == 2 * p;
      AppendStep(bit, Unsigned(a[1..]), p, u);
    } else {
      assert a + b == b;
    }
  }

  lemma {:induction false} UnsignedZeros(n: nat)
    ensures Unsigned(Zeros(n)) == 0
    decreases n
  {
    if n > 0 {
      assert Zeros(n)[1..] == Zeros(n - 1);
      UnsignedZeros(n - 1);
    }
  }

  /** The eight bits of a byte, least significant first. */
  function ByteBits(b: byte): (bits: seq<bool>)
    ensures |bits| == 8
  {
    [b & 0x01 != 0, b & 0x02 != 0, b & 0x04 != 0, b & 0x08 != 0,
     b & 0x10 != 0, b & 0x20 != 0, b & 0x40 != 0, b & 0x80 != 0]
  }

  /** The byte whose bits, least significant first, are `bits`. */
  function PackByte(bits: seq<bool>): byte
    requires |bits| == 8
  {
    (if bits[0] then 0x01 else 0) | (if bits[1] then 0x02 else 0) |
    (if bits[2] then 0x04 else 0) | (if bits[3] then 0x08 else 0) |
    (if bits[4] then 0x10 else 0) | (if bits[5] then 0x20 else 0) |
    (if bits[6] then 0x40 else 0) | (if bits[7] then 0x80 else 0)
  }

  lemma PackByteBits(b: byte)
    ensures PackByte(ByteBits(b)) == b
  {
  }

  lemma ByteBitsPack(bits: seq<bool>)
    requires |bits| == 8
    ensures ByteBits(PackByte(bits)) == bits
  {
  }

  /** The unsigned value of a byte, `b & 0xFF`. */
  function ByteValue(b: byte): (v: nat)
    ensures v < 256
  {
    Pow2Values();
    Unsigned(ByteBits(b))
  }

  /** `BitSet.valueOf(bytes)`: eight bits per byte, least significant first. */
  function FromBytes(bs: seq<byte>): (r: seq<bool>)
    ensures |r| == 8 * |bs|
  {
    if |bs| == 0 then [] else ByteBits(bs[0]) + FromBytes(bs[1..])
  }

  /**
    The bytes of a bit buffer, zero-padding the final partial byte: what `new byte[(n + 7) / 8]`
    holds after `BitSet.toByteArray()` has been copied into it.
   */
  function ToBytes(bits: seq<bool>): (r: seq<byte>)
    ensures |r| == (|bits| + 7) / 8
    decreases |bits|
  {
    if |bits| == 0 then []
    else if |bits| <= 8 then [PackByte(bits + Zeros(8 - |bits|))]
    else [PackByte(bits[..8])] + ToBytes(bits[8..])
  }

  /** Bit i of a byte buffer is bit i % 8 of byte i / 8. */
  lemma {:induction false} FromBytesIndex(bs: seq<byte>, i: nat)
    requires i < 8 * |bs|
    ensures FromBytes(bs)[i] == ByteBits(bs[i / 8])[i % 8]
    decreases |bs|
  {
    if i >= 8 {
      FromBytesIndex(bs[1..], i - 8);
    }
  }

  lemma {:induction false} FromBytesAppend(a: seq<byte>, b: seq<byte>)
    ensures FromBytes(a + b) == FromBytes(a) + FromBytes(b)
    decreases |a|
  {
    if |a| > 0 {
      assert (a + b)[1..] == a[1..] + b;
      FromBytesAppend(a[1..], b);
    } else {
      assert a + b == b;
    }
  }

  /** Unpacking bytes into bits and packing them again gives the same bytes. */
  lemma {:induction false} ToBytesFromBytes(bs: seq<byte>)
    ensures ToBytes(FromBytes(bs)) == bs
    decreases |bs|
  {
    if |bs| > 0 {
      var bits := FromBytes(bs);
      PackByteBits(bs[0]);
      assert bits[..8] == ByteBits(bs[0]);
      assert bits[8..] == FromBytes(bs[1..]);
      ToBytesFromBytes(bs[1..]);
      if |bs| == 1 {
        assert bits + Zeros(0) == ByteBits(bs[0]);
      }
    }
  }

  /** Packing bits into bytes and unpacking them again gives the bits followed by the zero padding. */
  lemma {:induction false} FromBytesToBytes(bits: seq<bool>)
    ensures FromBytes(ToBytes(bits)) == bits + Zeros(8 * ((|bits| + 7) / 8) - |bits|)
    decreases |bits|
  {
    if |bits| == 0 {
    } else if |bits| <= 8 {
      ByteBitsPack(bits + Zeros(8 - |bits|));
      assert FromBytes(ToBytes(bits)) == ByteBits(PackByte(bits + Zeros(8 - |bits|))) + FromBytes([]);
    } else {
      ByteBitsPack(bits[..8]);
      FromBytesToBytes(bits[8..]);
      var pad := Zeros(8 * ((|bits| + 7) / 8) - |bits|);
      assert FromBytes(ToBytes(bits)) == bits[..8] + (bits[8..] + pad);
      assert bits == bits[..8] + bits[8..];
    }
  }

  /** `BitSet.get(i)`: bits past the end of the buffer read as false. */
  function Get(bits: seq<bool>, i: nat): bool
  {
    i < |bits| && bits[i]
  }

  /** `BitSet.get(start, start + n)`: an n-bit window, zero-filled past the end of the buffer. */
  function Range(bits: seq<bool>, start: nat, n: nat): (r: seq<bool>)
    ensures |r| == n
  {
    seq(n, k requires 0 <= k < n => Get(bits, start + k))
  }

  /**
    The unsigned value of an n-bit field at `start`: the driver copies the window's bytes into a
    zero-filled little-endian buffer of 2 or 4 bytes and reads it back, which is this value
    zero-extended.
   */
  function Field(bits: seq<bool>, start: nat, n: nat): (r: nat)
    ensures r < Pow2(n)
  {
    Unsigned(Range(bits, start, n))
  }

  lemma RangeWithin(bits: seq<bool>, start: nat, n: nat)
    requires start + n <= |bits|
    ensures Range(bits, start, n) == bits[start..start + n]
  {
    var r := Range(bits, start, n);
    forall k | 0 <= k < n
      ensures r[k] == bits[start..start + n][k]
    {
    }
  }

  lemma RangeOfRange(bits: seq<bool>, start: nat, len: nat, off: nat, n: nat)
    requires off + n <= len
    ensures Range(Range(bits, start, len), off, n) == Range(bits, start + off, n)
  {
    var r := Range(Range(bits, start, len), off, n);
    forall k | 0 <= k < n
      ensures r[k] == Range(bits, start + off, n)[k]
    {
      var inner := Range(bits, start, len);
      assert r[k] == Get(inner, off + k);
      assert inner[off + k] == Get(bits, start + (off + k));
    }
  }

  /** A window that lies inside `bits` does not see what follows it. */
  lemma RangeOfPrefix(bits: seq<bool>, ext: seq<bool>, start: nat, n: nat)
    requires start + n <= |bits|
    ensures Range(bits + ext, start, n) == bits[start..start + n]
  {
    var r := Range(bits + ext, start, n);
    forall k | 0 <= k < n
      ensures r[k] == bits[start..start + n][k]
    {
    }
  }

  /** A window placed exactly over the middle part of a concatenation sees that part. */
  lemma RangeOfConcat(a: seq<bool>, m: seq<bool>, c: seq<bool>)
    ensures Range(a + m + c, |a|, |m|) == m
  {
    RangeOfPrefix(a + m, c, |a|, |m|);
    assert (a + m)[|a|..|a| + |m|] == m;
  }

  /** A value written into n bits at offset |a| is read back by `Field`. */
  lemma FieldOfConcat(a: seq<bool>, v: nat, n: nat, c: seq<bool>)
    requires v < Pow2(n)
    ensures Field(a + LsbBits(v, n) + c, |a|, n) == v
  {
    RangeOfConcat(a, LsbBits(v, n), c);
    LsbBitsRoundTrip(v, n);
  }

  /** A field inside the first part of a concatenation is the field of that part. */
  lemma FieldOfPrefix(a: seq<bool>, ext: seq<bool>, off: nat, n: nat)
    requires off + n <= |a|
    ensures Field(a + ext, off, n) == Field(a, off, n)
  {
    RangeOfPrefix(a, ext, off, n);
    RangeWithin(a, off, n);
  }

  /** A window past a prefix sees only what follows the prefix. */
  lemma RangeShift(a: seq<bool>, rest: seq<bool>, pos: nat, off: nat, n: nat)
    requires pos == |a| + off
    ensures Range(a + rest, pos, n) == Range(rest, off, n)
  {
    var r := Range(a + rest, pos, n);
    forall k | 0 <= k < n
      ensures r[k] == Range(rest, off, n)[k]
    {
      assert r[k] == Get(a + rest, pos + k);
      assert Range(rest, off, n)[k] == Get(rest, off + k);
      if off + k < |rest| {
        assert (a + rest)[pos + k] == rest[off + k];
      }
    }
  }

  /** A field past a prefix is the field of what follows the prefix. */
  lemma FieldShift(a: seq<bool>, rest: seq<bool>, pos: nat, off: nat, n: nat)
    requires pos == |a| + off
    ensures Field(a + rest, pos, n) == Field(rest, off, n)
  {
    RangeShift(a, rest, pos, off, n);
  }

  /** A value written into the first n bits is read back by `Field`. */
  lemma FieldHead(v: nat, n: nat, rest: seq<bool>)
    requires v < Pow2(n)
    ensures Field(LsbBits(v, n) + rest, 0, n) == v
  {
    RangeOfPrefix(LsbBits(v, n), rest, 0, n);
    assert LsbBits(v, n)[0..n] == LsbBits(v, n);
    LsbBitsRoundTrip(v, n);
  }

  /** A value written into n bits right after a prefix is read back at the prefix's length. */
  lemma FieldAfter(a: seq<bool>, v: nat, n: nat, rest: seq<bool>, pos: nat)
    requires v < Pow2(n) && pos == |a|
    ensures Field(a + (LsbBits(v, n) + rest), pos, n) == v
  {
    FieldShift(a, LsbBits(v, n) + rest, pos, 0, n);
    FieldHead(v, n, rest);
  }

  /** A window over the last part of a concatenation sees exactly that part. */
  lemma RangeTail(a: seq<bool>, m: seq<bool>)
    ensures Range(a + m, |a|, |m|) == m
  {
    RangeShift(a, m, |a|, 0, |m|);
    RangeWithin(m, 0, |m|);
    assert m[0..|m|] == m;
  }

  /** The field that ends a concatenation is the unsigned value of its last part. */
  lemma FieldTail(a: seq<bool>, m: seq<bool>, pos: nat, n: nat)
    requires pos == |a| && n == |m|
    ensures Field(a + m, pos, n) == Unsigned(m)
  {
    RangeTail(a, m);
  }

  /** A field read from a window is the field read from the buffer at the shifted offset. */
  lemma FieldOfRange(bits: seq<bool>, start: nat, len: nat, off: nat, n: nat)
    requires off + n <= len
    ensures Field(Range(bits, start, len), off, n) == Field(bits, start + off, n)
  {
    RangeOfRange(bits, start, len, off, n);
  }

  /** `ByteBuffer.getShort()`: a 16-bit two's-complement reading. */
  function Signed16(v: nat): (r: int)
    requires v < 0x1_0000
    ensures -0x8000 <= r < 0x8000
    ensures r % 0x1_0000 == v
    ensures (r >= 0) == (v < 0x8000)
  {
    if v < 0x8000 then v else v - 0x1_0000
  }

  /** An n-bit value fits a w-bit word, and its sign bit is clear when n < w. */
  lemma WidthBounds(n: nat, w: nat)
    requires 0 < w && n <= w
    ensures Pow2(n) <= Pow2(w) && Pow2(w) == 2 * Pow2(w - 1)
    ensures n < w ==> Pow2(n) <= Pow2(w - 1)
  {
    Pow2Monotone(n, w);
    if n < w {
      Pow2Monotone(n, w - 1);
    }
  }

  /** `ByteBuffer.getInt()`: a 32-bit two's-complement reading. */
  function Signed32(v: nat): (r: int)
    requires v < 0x1_0000_0000
    ensures -0x8000_0000 <= r < 0x8000_0000
    ensures r % 0x1_0000_0000 == v
    ensures (r >= 0) == (v < 0x8000_0000)
  {
    if v < 0x8000_0000 then v else v - 0x1_0000_0000
  }

  /**
    `ByteBuffer.getShort()` in little-endian order on the bytes of an n-bit window copied into a
    zero-filled two-byte buffer: the window's value read as 16-bit two's complement.
   */
  function ShortAt(bits: seq<bool>, start: nat, n: nat): (r: int)
    requires n <= 16
    ensures -0x8000 <= r < 0x8000
    ensures r % 0x1_0000 == Field(bits, start, n)
    ensures n < 16 ==> r == Field(bits, start, n)
  {
    Pow2Values();
    WidthBounds(n, 16);
    Signed16(Field(bits, start, n))
  }

  /** `ByteBuffer.getInt()` in little-endian order on an n-bit window zero-padded to four bytes. */
  function IntAt(bits: seq<bool>, start: nat, n: nat): (r: int)
    requires n <= 32
    ensures -0x8000_0000 <= r < 0x8000_0000
    ensures r % 0x1_0000_0000 == Field(bits, start, n)
    ensures n < 32 ==> r == Field(bits, start, n)
  {
    Pow2Values();
    WidthBounds(n, 32);
    Signed32(Field(bits, start, n))
  }

  /** Splitting a window in two. */
  lemma RangeSplit(bits: seq<bool>, start: nat, a: nat, b: nat)
    ensures Range(bits, start, a + b) == Range(bits, start, a) + Range(bits, start + a, b)
  {
    var r := Range(bits, start, a + b);
    var q := Range(bits, start, a) + Range(bits, start + a, b);
    forall k | 0 <= k < a + b
      ensures r[k] == q[k]
    {
      if k >= a {
        assert q[k] == Range(bits, start + a, b)[k - a];
      }
    }
  }

  /** A window read as a value and written back into the same number of bits is unchanged. */
  lemma LsbBitsOfField(bits: seq<bool>, start: nat, n: nat)
    ensures LsbBits(Field(bits, start, n), n) == Range(bits, start, n)
  {
    LsbBitsOfUnsigned(Range(bits, start, n), n);
    assert Range(bits, start, n) + Zeros(0) == Range(bits, start, n);
  }

  /** The first bit of a window, followed by the rest of the window. */
  lemma PeelFlag(bits: seq<bool>, start: nat, total: nat, next: nat, rest: nat)
    requires total == rest + 1 && next == start + 1
    ensures Range(bits, start, total) == [Get(bits, start)] + Range(bits, next, rest)
  {
    RangeSplit(bits, start, 1, rest);
  }

  /** The first n bits of a window, as a value, followed by the rest of the window. */
  lemma PeelField(bits: seq<bool>, start: nat, n: nat, total: nat, next: nat, rest: nat)
    requires total == n + rest && next == start + n
    ensures Range(bits, start, total) == LsbBits(Field(bits, start, n), n) + Range(bits, next, rest)
  {
    RangeSplit(bits, start, n, rest);
    LsbBitsOfField(bits, start, n);
  }

  /** A window known to hold `a + b` holds `a` first and `b` after it. */
  lemma WindowSplit(bits: seq<bool>, pos: nat, total: nat, a: seq<bool>, b: seq<bool>, mid: nat)
    requires total == |a| + |b| && mid == pos + |a| && Range(bits, pos, total) == a + b
    ensures Range(bits, pos, |a|) == a && Range(bits, mid, |b|) == b
  {
    RangeSplit(bits, pos, |a|, |b|);
    var x := Range(bits, pos, |a|);
    var y := Range(bits, mid, |b|);
    assert x == (x + y)[..|a|] && a == (a + b)[..|a|];
    assert y == (x + y)[|a|..] && b == (a + b)[|a|..];
  }

  /** A window known to hold the n-bit layout of v reads back as v. */
  lemma WindowField(bits: seq<bool>, pos: nat, v: nat, n: nat)
    requires v < Pow2(n) && Range(bits, pos, n) == LsbBits(v, n)
    ensures Field(bits, pos, n) == v
  {
    LsbBitsRoundTrip(v, n);
  }

  /** A buffer followed by padding holds the buffer in its first window. */
  lemma WindowOfPadded(bits: seq<bool>, pad: seq<bool>)
    ensures Range(bits + pad, 0, |bits|) == bits
  {
    RangeOfPrefix(bits, pad, 0, |bits|);
    assert bits[0..|bits|] == bits;
  }

  /** Java `int` arithmetic: the unique value in [-2^31, 2^31) congruent to x modulo 2^32. */
  function Int32(x: int): (r: int)
    ensures -0x8000_0000 <= r < 0x8000_0000
    ensures (x - r) % 0x1_0000_0000 == 0
  {
    var m := (x + 0x8000_0000) % 0x1_0000_0000;
    ModUnique(x + 0x8000_0000, 0x1_0000_0000, (x + 0x8000_0000) / 0x1_0000_0000, m);
    ModUnique(x - (m - 0x8000_0000), 0x1_0000_0000, (x + 0x8000_0000) / 0x1_0000_0000, 0);
    m - 0x8000_0000
  }

  /** Wrapping after every addition is the same as wrapping once at the end. */
  lemma Int32Add(a: int, b: int)
    ensures Int32(Int32(a) + b) == Int32(a + b)
  {
    var M := 0x1_0000_0000;
    var t := a + 0x8000_0000;
    var q := t / M;
    assert Int32(a) + b + 0x8000_0000 == t % M + b;
    assert t + b == (t % M + b) + M * q;
    var q' := (t % M + b) / M;
    var r' := (t % M + b) % M;
    assert t + b == M * (q + q') + r';
    ModUnique(t + b, M, q + q', r');
  }

  /** Values in Java `int` range are left alone. */
  lemma Int32Identity(x: int)
    requires -0x8000_0000 <= x < 0x8000_0000
    ensures Int32(x) == x
  {
    ModUnique(x + 0x8000_0000, 0x1_0000_0000, 0, x + 0x8000_0000);
  }
}
