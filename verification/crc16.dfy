/**
  The checksum that guards every telemetry frame (`computeCRC16` in SRSHub.java): polynomial
  0x1021, register initialised to 0x0000, each byte fed most significant bit first, no reflection
  and no final XOR. In the Williams/reveng catalogue of CRC parameters this is CRC-16/XMODEM (the
  CCITT-FALSE variant starts from 0xFFFF instead). It covers every byte of a frame except the
  last two, which carry the checksum big-endian.
 */
module Crc16 {
  import opened Bits

  /**
    One step of the shift register: the bit shifted out at the top selects whether the polynomial
    is folded in. `ShiftTopSet` and `ShiftTopClear` show this is the driver's
    `if ((crc & 0x8000) != 0)` step.
   */
  function Shift(crc: bv16): bv16
  {
    (crc << 1) ^ ((0 - (crc >> 15)) & 0x1021)
  }

  lemma ShiftTopSet(crc: bv16)
    requires crc & 0x8000 != 0
    ensures Shift(crc) == (crc << 1) ^ 0x1021
  {
  }

  lemma ShiftTopClear(crc: bv16)
    requires crc & 0x8000 == 0
    ensures Shift(crc) == crc << 1
  {
  }

  /** The register after n steps. */
  function Shifts(crc: bv16, n: nat): bv16
    decreases n
  {
    if n == 0 then crc else Shift(Shifts(crc, n - 1))
  }

  /** `(b & 0xFF) << 8`: the byte placed in the high half of the register. */
  function HighByte(b: byte): bv16
  {
    (b as bv16) << 8
  }

  /** The register with the next message byte XORed into its high half. */
  function Key(crc: bv16, b: byte): bv16
  {
    crc ^ HighByte(b)
  }

  /** One byte of `computeCRC16`: XOR it into the high half, then eight register steps. */
  function FeedByte(crc: bv16, b: byte): bv16
  {
    Shifts(Key(crc, b), 8)
  }

  /** The register after feeding `message` byte by byte into a register holding `crc`. */
  function Register(crc: bv16, message: seq<byte>): bv16
    decreases |message|
  {
    if |message| == 0 then crc else Register(FeedByte(crc, message[0]), message[1..])
  }

  /** CRC-16/XMODEM of a message. */
  function Checksum(message: seq<byte>): bv16
  {
    Register(0, message)
  }

  /** `computeCRC16(frame)`: the checksum of every byte but the last two (none if there are fewer). */
  function FrameCrc(frame: seq<byte>): (r: bv16)
    ensures |frame| >= 2 ==> r == Checksum(frame[..|frame| - 2])
    ensures |frame| < 2 ==> r == 0
  {
    if |frame| < 2 then 0 else Checksum(frame[..|frame| - 2])
  }

  /** The high byte of a 16-bit value, `(c >> 8) & 0xFF`. */
  function HighHalf(c: bv16): byte
  {
    (c >> 8) as byte
  }

  /** The low byte of a 16-bit value, `c & 0xFF`. */
  function LowHalf(c: bv16): byte
  {
    (c & 0xFF) as byte
  }

  /** Two bytes read big-endian, `((hi & 0xFF) << 8) | (lo & 0xFF)`. */
  function Join(hi: byte, lo: byte): (c: bv16)
    ensures HighHalf(c) == hi && LowHalf(c) == lo
  {
    ((hi as bv16) << 8) | (lo as bv16)
  }

  /** Splitting a value into its two bytes and joining them again gives the value back. */
  lemma JoinHalves(c: bv16)
    ensures Join(HighHalf(c), LowHalf(c)) == c
  {
  }

  /** The checksum a frame carries: its last two bytes, big-endian. */
  function ReceivedCrc(frame: seq<byte>): bv16
    requires |frame| >= 2
  {
    Join(frame[|frame| - 2], frame[|frame| - 1])
  }

  predicate CrcMatches(frame: seq<byte>)
    requires |frame| >= 2
  {
    ReceivedCrc(frame) == FrameCrc(frame)
  }

  /** A message followed by its checksum, big-endian: a frame as the hub sends it. */
  function Seal(message: seq<byte>): (frame: seq<byte>)
    ensures |frame| == |message| + 2 && frame[..|message|] == message
  {
    var c := Checksum(message);
    message + [HighHalf(c), LowHalf(c)]
  }

  /**
    `computeCRC16` as written: a loop over all bytes but the last two, each followed by an inner
    loop of eight conditional shifts.
   */
  method ComputeCrc16(data: seq<byte>) returns (crc: int)
    ensures 0 <= crc < 0x1_0000
    ensures crc == FrameCrc(data) as int
  {
    var reg: bv16 := 0;
    var i := 0;
    while i < |data| - 2
      invariant 0 <= i <= (if |data| >= 2 then |data| - 2 else 0)
      invariant |data| >= 2 ==> Register(reg, data[i..|data| - 2]) == Register(0, data[..|data| - 2])
      invariant |data| < 2 ==> reg == 0
    {
      assert data[i..|data| - 2][1..] == data[i + 1..|data| - 2];
      reg := ShiftInByte(reg, data[i]);
      i := i + 1;
    }
    if |data| >= 2 {
      assert data[i..|data| - 2] == [];
      assert reg == Register(0, data[..|data| - 2]) == FrameCrc(data);
    } else {
      assert reg == 0 == FrameCrc(data);
    }
    crc := reg as int;
  }

  /** The body of the outer loop of `computeCRC16`. */
  method ShiftInByte(crc: bv16, b: byte) returns (reg: bv16)
    ensures reg == FeedByte(crc, b)
  {
    reg := Key(crc, b);
    ghost var start := reg;
    var j := 0;
    while j < 8
      invariant 0 <= j <= 8
      invariant reg == Shifts(start, j)
    {
      if reg & 0x8000 != 0 {
        ShiftTopSet(reg);
        reg := (reg << 1) ^ 0x1021;
      } else {
        ShiftTopClear(reg);
        reg := reg << 1;
      }
      j := j + 1;
    }
  }

  /** The catalogue check value of CRC-16/XMODEM: the checksum of ASCII "123456789" is 0x31C3. */
  lemma CheckValue()
    ensures Checksum([0x31, 0x32, 0x33, 0x34, 0x35, 0x36, 0x37, 0x38, 0x39]) == 0x31C3
  {
    assert FeedByte(0, 0x31) == 0x2672;
    assert FeedByte(0x2672, 0x32) == 0x20B5;
    assert FeedByte(0x20B5, 0x33) == 0x9752;
    assert FeedByte(0x9752, 0x34) == 0xD789;
    assert FeedByte(0xD789, 0x35) == 0x546C;
    assert FeedByte(0x546C, 0x36) == 0x20E4;
    assert FeedByte(0x20E4, 0x37) == 0x86D6;
    assert FeedByte(0x86D6, 0x38) == 0x9015;
    assert FeedByte(0x9015, 0x39) == 0x31C3;
  }

  /** The trailing checksum bytes never influence the computed checksum. */
  lemma FrameCrcIgnoresTrailer(frame: seq<byte>, hi: byte, lo: byte)
    requires |frame| >= 2
    ensures FrameCrc(frame[..|frame| - 2] + [hi, lo]) == FrameCrc(frame)
  {
    var f := frame[..|frame| - 2] + [hi, lo];
    assert f[..|f| - 2] == frame[..|frame| - 2];
  }

  /** Round trip: a sealed message passes the check, and only sealed messages do. */
  lemma SealMatches(frame: seq<byte>)
    requires |frame| >= 2
    ensures CrcMatches(frame) <==> frame == Seal(frame[..|frame| - 2])
  {
    var m := frame[..|frame| - 2];
    var c := Checksum(m);
    assert FrameCrc(frame) == c;
    assert frame == m + [frame[|frame| - 2], frame[|frame| - 1]];
    if frame == Seal(m) {
      JoinHalves(c);
    }
  }

  /** Every sealed message passes the check. */
  lemma SealedFrameMatches(message: seq<byte>)
    ensures |Seal(message)| >= 2 && CrcMatches(Seal(message))
  {
    var s := Seal(message);
    assert s[..|s| - 2] == message;
    SealMatches(s);
  }

  // Detection of corrupted bytes. A register step is a bijection on 16-bit values, so registers
  // that differ stay different whatever bytes follow, and two different bytes XORed into the same
  // register give different registers.

  lemma ShiftInjective(x: bv16, y: bv16)
    requires x != y
    ensures Shift(x) != Shift(y)
  {
  }

  lemma {:induction false} ShiftsInjective(x: bv16, y: bv16, n: nat)
    requires x != y
    ensures Shifts(x, n) != Shifts(y, n)
    decreases n
  {
    if n > 0 {
      ShiftsInjective(x, y, n - 1);
      ShiftInjective(Shifts(x, n - 1), Shifts(y, n - 1));
    }
  }

  lemma XorKeepsDistinct(x: bv16, y: bv16, k: bv16)
    requires x != y
    ensures x ^ k != y ^ k
  {
  }

  lemma XorDistinctKeys(x: bv16, k1: bv16, k2: bv16)
    requires k1 != k2
    ensures x ^ k1 != x ^ k2
  {
  }

  lemma HighByteInjective(b1: byte, b2: byte)
    requires b1 != b2
    ensures HighByte(b1) != HighByte(b2)
  {
  }

  lemma KeyDistinctRegisters(s1: bv16, s2: bv16, b: byte)
    requires s1 != s2
    ensures Key(s1, b) != Key(s2, b)
  {
    XorKeepsDistinct(s1, s2, HighByte(b));
  }

  lemma KeyDistinctBytes(s: bv16, b1: byte, b2: byte)
    requires b1 != b2
    ensures Key(s, b1) != Key(s, b2)
  {
    HighByteInjective(b1, b2);
    XorDistinctKeys(s, HighByte(b1), HighByte(b2));
  }

  /** Feeding the same byte into different registers gives different registers. */
  lemma FeedDistinctRegisters(s1: bv16, s2: bv16, b: byte)
    requires s1 != s2
    ensures FeedByte(s1, b) != FeedByte(s2, b)
  {
    KeyDistinctRegisters(s1, s2, b);
    ShiftsInjective(Key(s1, b), Key(s2, b), 8);
  }

  /** Feeding different bytes into the same register gives different registers. */
  lemma FeedDistinctBytes(s: bv16, b1: byte, b2: byte)
    requires b1 != b2
    ensures FeedByte(s, b1) != FeedByte(s, b2)
  {
    KeyDistinctBytes(s, b1, b2);
    ShiftsInjective(Key(s, b1), Key(s, b2), 8);
  }

  lemma {:induction false} RegisterDistinct(s1: bv16, s2: bv16, rest: seq<byte>)
    requires s1 != s2
    ensures Register(s1, rest) != Register(s2, rest)
    decreases |rest|
  {
    if |rest| > 0 {
      FeedDistinctRegisters(s1, s2, rest[0]);
      RegisterDistinct(FeedByte(s1, rest[0]), FeedByte(s2, rest[0]), rest[1..]);
    }
  }

  lemma {:induction false} RegisterAppend(s: bv16, a: seq<byte>, b: seq<byte>)
    ensures Register(s, a + b) == Register(Register(s, a), b)
    decreases |a|
  {
    if |a| > 0 {
      assert (a + b)[1..] == a[1..] + b;
      RegisterAppend(FeedByte(s, a[0]), a[1..], b);
    } else {
      assert a + b == b;
    }
  }

  /** Changing any single byte of a message changes its checksum. */
  lemma ChecksumDetectsByteChange(m: seq<byte>, i: nat, b: byte)
    requires i < |m| && b != m[i]
    ensures Checksum(m[i := b]) != Checksum(m)
  {
    var m' := m[i := b];
    assert m == (m[..i] + [m[i]]) + m[i + 1..];
    assert m' == (m[..i] + [b]) + m[i + 1..];
    RegisterAppend(0, m[..i] + [m[i]], m[i + 1..]);
    RegisterAppend(0, m[..i] + [b], m[i + 1..]);
    RegisterAppend(0, m[..i], [m[i]]);
    RegisterAppend(0, m[..i], [b]);
    var s := Register(0, m[..i]);
    FeedDistinctBytes(s, m[i], b);
    RegisterDistinct(FeedByte(s, m[i]), FeedByte(s, b), m[i + 1..]);
  }

  /** A frame that passed the check fails it once any one payload byte is replaced by another value. */
  lemma CorruptedByteDetected(frame: seq<byte>, i: nat, b: byte)
    requires |frame| >= 2 && CrcMatches(frame)
    requires i < |frame| - 2 && b != frame[i]
    ensures !CrcMatches(frame[i := b])
  {
    var m := frame[..|frame| - 2];
    var f := frame[i := b];
    assert f[..|f| - 2] == m[i := b];
    ChecksumDetectsByteChange(m, i, b);
  }

  /** Bit j of a byte inverted. */
  function FlipBit(b: byte, j: nat): (r: byte)
    requires j < 8
    ensures ByteBits(r) == ByteBits(b)[j := !ByteBits(b)[j]]
    ensures r != b
  {
    ByteBitsPack(ByteBits(b)[j := !ByteBits(b)[j]]);
    PackByte(ByteBits(b)[j := !ByteBits(b)[j]])
  }

  /** Flipping any single bit of the payload of a frame that passed the check makes it fail. */
  lemma SingleBitFlipDetected(frame: seq<byte>, i: nat, j: nat)
    requires |frame| >= 2 && CrcMatches(frame)
    requires i < |frame| - 2 && j < 8
    ensures !CrcMatches(frame[i := FlipBit(frame[i], j)])
  {
    CorruptedByteDetected(frame, i, FlipBit(frame[i], j));
  }
}
