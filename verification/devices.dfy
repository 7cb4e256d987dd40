/**
  The I2C devices the hub can poll: the four subclasses of `I2CDevice` in SRSHub.java. Each one
  announces itself in the initialisation frame with a 4-bit tag followed by its configuration bits,
  and owns a fixed-width slice of every telemetry frame, which `Parse` decodes.
 */
module Devices {
  import opened Bits
  import opened Errors

  /** A raw 32-bit pattern. The driver's `float` fields are kept as their IEEE-754 bit patterns. */
  type word32 = w: nat | w < 0x1_0000_0000

  datatype Resolution = Grid4x4 | Grid8x8

  datatype Direction = Forward | Reversed

  /** The Java class of a device. A bus holds at most one device of each class. */
  datatype DeviceClass = APDS9151Class | VL53L5CXClass | VL53L0XClass | PinpointClass

  /** A device as the user constructs it, with its constructor arguments. */
  datatype DeviceKind =
    | APDS9151
    | VL53L5CX(resolution: Resolution)
    | VL53L0X
    | GoBildaPinpoint(xPodOffset: word32, yPodOffset: word32, encoderResolution: word32,
                      xDirection: Direction, yDirection: Direction)
  {
    function Class(): DeviceClass
    {
      match this
      case APDS9151 => APDS9151Class
      case VL53L5CX(_) => VL53L5CXClass
      case VL53L0X => VL53L0XClass
      case GoBildaPinpoint(_, _, _, _, _) => PinpointClass
    }

    /** `getValue()`: the tag that announces the device in the initialisation frame. */
    function Tag(): nat
    {
      match this
      case APDS9151 => 0
      case VL53L5CX(_) => 1
      case VL53L0X => 2
      case GoBildaPinpoint(_, _, _, _, _) => 3
    }

    /** `getAddress()`: the device's 7-bit I2C address. */
    function Address(): nat
    {
      match this
      case APDS9151 => 0x52
      case VL53L5CX(_) => 0x29
      case VL53L0X => 0x29
      case GoBildaPinpoint(_, _, _, _, _) => 0x31
    }

    /** `getInitLength()`: how many configuration bits follow the tag. */
    function InitLength(): nat
    {
      match this
      case APDS9151 => 0
      case VL53L5CX(_) => 1
      case VL53L0X => 0
      case GoBildaPinpoint(_, _, _, _, _) => 98
    }

    /** `getUpdateLength()`: how many bits of each telemetry frame belong to the device. */
    function UpdateLength(): nat
    {
      match this
      case APDS9151 => 92
      case VL53L5CX(resolution) => if resolution == Grid8x8 then 705 else 177
      case VL53L0X => 17
      case GoBildaPinpoint(_, _, _, _, _) => 201
    }

    /** The number of ranging zones of a VL53L5CX, the length of its `distances` array. */
    function Zones(): nat
    {
      if this == VL53L5CX(Grid8x8) then 64 else if this.VL53L5CX? then 16 else 0
    }

    /** `getConfig()`: the configuration bits, of which the first `InitLength()` are sent. */
    function ConfigBits(): (r: seq<bool>)
      ensures |r| == InitLength()
    {
      match this
      case APDS9151 => []
      case VL53L5CX(resolution) => [resolution == Grid8x8]
      case VL53L0X => []
      case GoBildaPinpoint(x, y, res, xd, yd) =>
        BigEndian32(x) + BigEndian32(y) + BigEndian32(res) + [xd == Reversed, yd == Reversed]
    }
  }

  /**
    The bits of a 32-bit pattern written with `ByteBuffer.putFloat` (most significant byte first)
    and then read with `BitSet.valueOf` (each byte least significant bit first).
   */
  function BigEndian32(v: word32): (r: seq<bool>)
    ensures |r| == 32
  {
    var w := LsbBits(v, 32);
    w[24..32] + w[16..24] + w[8..16] + w[..8]
  }

  /** The 32-bit pattern whose big-endian bytes carry `bits`. */
  function FromBigEndian32(bits: seq<bool>): (v: word32)
    requires |bits| == 32
  {
    Pow2Values();
    Unsigned(bits[24..32] + bits[16..24] + bits[8..16] + bits[..8])
  }

  /** The first `n` big-endian 32-bit patterns of `bits`. */
  function Words(bits: seq<bool>, n: nat): (words: seq<word32>)
    requires |bits| >= 32 * n
    ensures |words| == n
  {
    if n == 0 then [] else [FromBigEndian32(bits[..32])] + Words(bits[32..], n - 1)
  }

  lemma FromBigEndian32Inverse(v: word32)
    ensures FromBigEndian32(BigEndian32(v)) == v
  {
    var w := LsbBits(v, 32);
    var b := BigEndian32(v);
    assert b[24..32] == w[..8] && b[16..24] == w[8..16] && b[8..16] == w[16..24] && b[..8] == w[24..32];
    assert w == w[..8] + w[8..16] + w[16..24] + w[24..32];
    Pow2Values();
    LsbBitsRoundTrip(v, 32);
  }

  /**
    What the hub makes of a tag and the configuration bits that follow it: the inverse of
    `Tag` and `ConfigBits`. Tags above 3 name no device.
   */
  function KindOf(tag: nat, config: seq<bool>): Option<DeviceKind>
  {
    if tag == 0 then Some(APDS9151)
    else if tag == 1 && |config| >= 1 then Some(VL53L5CX(if config[0] then Grid8x8 else Grid4x4))
    else if tag == 2 then Some(VL53L0X)
    else if tag == 3 && |config| >= 98 then
      var words := Words(config, 3);
      Some(GoBildaPinpoint(words[0], words[1], words[2],
                           if config[96] then Reversed else Forward,
                           if config[97] then Reversed else Forward))
    else None
  }

  /** The tag and configuration bits identify the device and all its constructor arguments. */
  lemma KindOfConfigBits(k: DeviceKind)
    ensures KindOf(k.Tag(), k.ConfigBits()) == Some(k)
  {
    if k.GoBildaPinpoint? {
      var c := k.ConfigBits();
      assert c[..32] == BigEndian32(k.xPodOffset);
      assert c[32..][..32] == BigEndian32(k.yPodOffset);
      assert c[32..][32..][..32] == BigEndian32(k.encoderResolution);
      FromBigEndian32Inverse(k.xPodOffset);
      FromBigEndian32Inverse(k.yPodOffset);
      FromBigEndian32Inverse(k.encoderResolution);
      assert Words(c[32..][32..], 1) == [k.encoderResolution];
      assert Words(c[32..], 2) == [k.yPodOffset, k.encoderResolution];
      assert Words(c, 3) == [k.xPodOffset, k.yPodOffset, k.encoderResolution];
    }
  }

  /** The tag names the class: two devices share a tag exactly when they share a class. */
  lemma TagNamesClass(k1: DeviceKind, k2: DeviceKind)
    ensures k1.Tag() == k2.Tag() <==> k1.Class() == k2.Class()
  {
  }

  /** The two time-of-flight sensors answer at the same I2C address; all other pairs differ. */
  lemma AddressesClash(k1: DeviceKind, k2: DeviceKind)
    ensures k1.Address() == k2.Address() <==>
      k1.Class() == k2.Class() || {k1.Class(), k2.Class()} == {VL53L5CXClass, VL53L0XClass}
  {
  }

  /** The values a device holds after its most recent telemetry frame (the public fields). */
  datatype Reading =
    | ColorReading(disconnected: bool, proximity: int, infrared: int, red: int, green: int, blue: int)
    | ZoneReading(disconnected: bool, distances: seq<int>)
    | RangeReading(disconnected: bool, distance: int)
    | PoseReading(disconnected: bool, deviceStatus: int,
                  xPosition: word32, yPosition: word32, hOrientation: word32,
                  xVelocity: word32, yVelocity: word32, hVelocity: word32)

  /** The fields of a freshly constructed device: Java's zero defaults. */
  function InitialReading(k: DeviceKind): (r: Reading)
    ensures Encodable(k, r)
  {
    match k
    case APDS9151 => ColorReading(false, 0, 0, 0, 0, 0)
    case VL53L5CX(_) => ZoneReading(false, seq(k.Zones(), _ => 0))
    case VL53L0X => RangeReading(false, 0)
    case GoBildaPinpoint(_, _, _, _, _) => PoseReading(false, 0, 0, 0, 0, 0, 0, 0)
  }

  /** Every distance fits the 11 bits the hub sends it in. */
  predicate ZoneDistances(ds: seq<int>)
  {
    forall i :: 0 <= i < |ds| ==> 0 <= ds[i] < 0x800
  }

  /** A reading of the right shape for the device, with every field inside its bit width. */
  predicate Encodable(k: DeviceKind, r: Reading)
  {
    match k
    case APDS9151 =>
      r.ColorReading? && 0 <= r.proximity < 0x800 && 0 <= r.infrared < 0x10_0000
      && 0 <= r.red < 0x10_0000 && 0 <= r.green < 0x10_0000 && 0 <= r.blue < 0x10_0000
    case VL53L5CX(_) => r.ZoneReading? && |r.distances| == k.Zones() && ZoneDistances(r.distances)
    case VL53L0X => r.RangeReading? && 0 <= r.distance < 0x1_0000
    case GoBildaPinpoint(_, _, _, _, _) => r.PoseReading? && 0 <= r.deviceStatus < 0x100
  }

  /** The distances of a VL53L5CX: consecutive 11-bit fields read with `getShort`. */
  function ParseZones(bits: seq<bool>, start: nat, n: nat): (ds: seq<int>)
    ensures |ds| == n && ZoneDistances(ds)
    decreases n
  {
    Pow2Values();
    if n == 0 then [] else [ShortAt(bits, start, 11)] + ParseZones(bits, start + 11, n - 1)
  }

  /**
    `parseUpdate(data, start)`: the first bit is the disconnected flag, then the fields in
    declaration order, each read with `getShort` or `getInt` of a zero-padded little-endian buffer;
    the VL53L0X distance is taken `& 0xFFFF`, and the Pinpoint's floats keep their bit patterns.
   */
  function Parse(k: DeviceKind, bits: seq<bool>, start: nat): (r: Reading)
    ensures Encodable(k, r)
    ensures r.disconnected == Get(bits, start)
  {
    Pow2Values();
    var d := Get(bits, start);
    match k
    case APDS9151 =>
      ColorReading(d, ShortAt(bits, start + 1, 11), IntAt(bits, start + 12, 20),
                   IntAt(bits, start + 32, 20), IntAt(bits, start + 52, 20), IntAt(bits, start + 72, 20))
    case VL53L5CX(_) => ZoneReading(d, ParseZones(bits, start + 1, (k.UpdateLength() - 1) / 11))
    case VL53L0X => RangeReading(d, ShortAt(bits, start + 1, 16) % 0x1_0000)
    case GoBildaPinpoint(_, _, _, _, _) =>
      PoseReading(d, ShortAt(bits, start + 1, 8),
                  Field(bits, start + 9, 32), Field(bits, start + 41, 32), Field(bits, start + 73, 32),
                  Field(bits, start + 105, 32), Field(bits, start + 137, 32), Field(bits, start + 169, 32))
  }

  /** The bits of a run of 11-bit distances, as the hub sends them. */
  function ZoneBits(ds: seq<int>): (r: seq<bool>)
    requires ZoneDistances(ds)
    ensures |r| == 11 * |ds|
  {
    if |ds| == 0 then [] else LsbBits(ds[0], 11) + ZoneBits(ds[1..])
  }

  /** The device's slice of a telemetry frame as the hub lays it out: the inverse of `Parse`. */
  function ReadingBits(k: DeviceKind, r: Reading): (bits: seq<bool>)
    requires Encodable(k, r)
    ensures |bits| == k.UpdateLength()
  {
    match k
    case APDS9151 =>
      [r.disconnected] + (LsbBits(r.proximity, 11) + (LsbBits(r.infrared, 20) + (LsbBits(r.red, 20)
      + (LsbBits(r.green, 20) + LsbBits(r.blue, 20)))))
    case VL53L5CX(_) => [r.disconnected] + ZoneBits(r.distances)
    case VL53L0X => [r.disconnected] + LsbBits(r.distance, 16)
    case GoBildaPinpoint(_, _, _, _, _) =>
      [r.disconnected] + (LsbBits(r.deviceStatus, 8)
      + (LsbBits(r.xPosition, 32) + (LsbBits(r.yPosition, 32) + (LsbBits(r.hOrientation, 32)
      + (LsbBits(r.xVelocity, 32) + (LsbBits(r.yVelocity, 32) + LsbBits(r.hVelocity, 32)))))))
  }

  /** The parse loop of a VL53L5CX fills exactly its `distances` array. */
  lemma ZoneCount(k: DeviceKind)
    requires k.VL53L5CX?
    ensures (k.UpdateLength() - 1) % 11 == 0 && (k.UpdateLength() - 1) / 11 == k.Zones()
    ensures k.Zones() == if k.resolution == Grid8x8 then 64 else 16
  {
  }
  /** Reading back a run of distances laid out by `ZoneBits` after a prefix. */
  lemma {:induction false} ParseZoneBits(pre: seq<bool>, ds: seq<int>)
    requires ZoneDistances(ds)
    decreases |ds|
    ensures ParseZones(pre + ZoneBits(ds), |pre|, |ds|) == ds
  {
    if ds != [] {
      Pow2Values();
      var head := LsbBits(ds[0], 11);
      var rest := ZoneBits(ds[1..]);
      FieldAfter(pre, ds[0], 11, rest, |pre|);
      assert pre + ZoneBits(ds) == (pre + head) + rest;
      ParseZoneBits(pre + head, ds[1..]);
    }
  }

  /** Laying out the distances parsed from a window reproduces the window. */
  lemma {:induction false} ZoneBitsOfParse(bits: seq<bool>, start: nat, n: nat)
    decreases n
    ensures ZoneBits(ParseZones(bits, start, n)) == Range(bits, start, 11 * n)
  {
    if n > 0 {
      ZoneBitsOfParse(bits, start + 11, n - 1);
      RangeSplit(bits, start, 11, 11 * (n - 1));
      LsbBitsOfField(bits, start, 11);
    }
  }

  /** Moving a run of distances into a window that contains it does not change them. */
  lemma {:induction false} ZonesLocal(bits: seq<bool>, start: nat, len: nat, off: nat, n: nat)
    requires off + 11 * n <= len
    decreases n
    ensures ParseZones(Range(bits, start, len), off, n) == ParseZones(bits, start + off, n)
  {
    if n > 0 {
      FieldOfRange(bits, start, len, off, 11);
      ZonesLocal(bits, start, len, off + 11, n - 1);
    }
  }

  /** A device's reading depends only on its own `UpdateLength()` bits of the frame. */
  lemma ParseLocal(k: DeviceKind, bits: seq<bool>, start: nat)
    ensures Parse(k, bits, start) == Parse(k, Range(bits, start, k.UpdateLength()), 0)
  {
    match k {
      case APDS9151 => ColorLocal(bits, start);
      case VL53L5CX(_) => ZoneLocal(k, bits, start);
      case VL53L0X => RangeLocal(bits, start);
      case GoBildaPinpoint(_, _, _, _, _) => PoseLocal(k, bits, start);
    }
  }

  lemma ZoneLocal(k: DeviceKind, bits: seq<bool>, start: nat)
    requires k.VL53L5CX?
    ensures Parse(k, bits, start) == Parse(k, Range(bits, start, k.UpdateLength()), 0)
  {
    var len := k.UpdateLength();
    WindowFlag(bits, start, len);
    ZonesLocal(bits, start, len, 1, (len - 1) / 11);
  }

  lemma RangeLocal(bits: seq<bool>, start: nat)
    ensures Parse(VL53L0X, bits, start) == Parse(VL53L0X, Range(bits, start, 17), 0)
  {
    WindowFlag(bits, start, 17);
    FieldOfRange(bits, start, 17, 1, 16);
  }

  /** The first bit of a window is the bit at its start. */
  lemma WindowFlag(bits: seq<bool>, start: nat, len: nat)
    requires len > 0
    ensures Get(Range(bits, start, len), 0) == Get(bits, start)
  {
  }

  lemma ColorLocal(bits: seq<bool>, start: nat)
    ensures Parse(APDS9151, bits, start) == Parse(APDS9151, Range(bits, start, 92), 0)
  {
    WindowFlag(bits, start, 92);
    ColorWindow(bits, start, Range(bits, start, 92));
  }

  lemma ColorWindow(bits: seq<bool>, start: nat, w: seq<bool>)
    requires w == Range(bits, start, 92)
    ensures Field(w, 1, 11) == Field(bits, start + 1, 11)
    ensures Field(w, 12, 20) == Field(bits, start + 12, 20)
    ensures Field(w, 32, 20) == Field(bits, start + 32, 20)
    ensures Field(w, 52, 20) == Field(bits, start + 52, 20)
    ensures Field(w, 72, 20) == Field(bits, start + 72, 20)
  {
    FieldOfRange(bits, start, 92, 1, 11);
    FieldOfRange(bits, start, 92, 12, 20);
    FieldOfRange(bits, start, 92, 32, 20);
    FieldOfRange(bits, start, 92, 52, 20);
    FieldOfRange(bits, start, 92, 72, 20);
  }

  lemma PoseLocal(k: DeviceKind, bits: seq<bool>, start: nat)
    requires k.GoBildaPinpoint?
    ensures Parse(k, bits, start) == Parse(k, Range(bits, start, 201), 0)
  {
    WindowFlag(bits, start, 201);
    PoseWindow(bits, start, Range(bits, start, 201));
  }

  lemma PoseWindow(bits: seq<bool>, start: nat, w: seq<bool>)
    requires w == Range(bits, start, 201)
    ensures Field(w, 1, 8) == Field(bits, start + 1, 8)
    ensures Field(w, 9, 32) == Field(bits, start + 9, 32)
    ensures Field(w, 41, 32) == Field(bits, start + 41, 32)
    ensures Field(w, 73, 32) == Field(bits, start + 73, 32)
    ensures Field(w, 105, 32) == Field(bits, start + 105, 32)
    ensures Field(w, 137, 32) == Field(bits, start + 137, 32)
    ensures Field(w, 169, 32) == Field(bits, start + 169, 32)
  {
    FieldOfRange(bits, start, 201, 1, 8);
    FieldOfRange(bits, start, 201, 9, 32);
    FieldOfRange(bits, start, 201, 41, 32);
    FieldOfRange(bits, start, 201, 73, 32);
    FieldOfRange(bits, start, 201, 105, 32);
    FieldOfRange(bits, start, 201, 137, 32);
    FieldOfRange(bits, start, 201, 169, 32);
  }

  /** Parsing the hub's own layout of a reading gives the reading back. */
  lemma ParseOwnBits(k: DeviceKind, r: Reading)
    requires Encodable(k, r)
    ensures Parse(k, ReadingBits(k, r), 0) == r
  {
    match k {
      case APDS9151 => ColorRoundTrip(r);
      case VL53L5CX(_) =>
        ZoneCount(k);
        ParseZoneBits([r.disconnected], r.distances);
      case VL53L0X =>
        Pow2Values();
        FieldTail([r.disconnected], LsbBits(r.distance, 16), 1, 16);
        LsbBitsRoundTrip(r.distance, 16);
      case GoBildaPinpoint(_, _, _, _, _) => PoseRoundTrip(k, r);
    }
  }

  lemma ColorRoundTrip(r: Reading)
    requires Encodable(APDS9151, r)
    ensures Parse(APDS9151, ReadingBits(APDS9151, r), 0) == r
  {
    ColorFields(r);
  }

  /** Where the hub's layout puts each field of an APDS9151 reading. */
  lemma ColorFields(r: Reading)
    requires Encodable(APDS9151, r)
    ensures var bits := ReadingBits(APDS9151, r);
      Field(bits, 1, 11) == r.proximity && Field(bits, 12, 20) == r.infrared
      && Field(bits, 32, 20) == r.red && Field(bits, 52, 20) == r.green && Field(bits, 72, 20) == r.blue
  {
    Pow2Values();
    var d := [r.disconnected];
    var p := LsbBits(r.proximity, 11);
    var colors := LsbBits(r.infrared, 20) + (LsbBits(r.red, 20) + (LsbBits(r.green, 20) + LsbBits(r.blue, 20)));
    FieldAfter(d, r.proximity, 11, colors, 1);
    FourFields(r.infrared, r.red, r.green, r.blue, 20);
    forall off: nat, n: nat | off + n <= 80
      ensures Field(d + (p + colors), 12 + off, n) == Field(colors, off, n)
    {
      FieldShift(d, p + colors, 12 + off, 11 + off, n);
      FieldShift(p, colors, 11 + off, off, n);
    }
  }

  /** Four n-bit values laid out one after another are read back at offsets 0, n, 2n and 3n. */
  lemma FourFields(a: nat, b: nat, c: nat, e: nat, n: nat)
    requires a < Pow2(n) && b < Pow2(n) && c < Pow2(n) && e < Pow2(n)
    ensures var bits := LsbBits(a, n) + (LsbBits(b, n) + (LsbBits(c, n) + LsbBits(e, n)));
      Field(bits, 0, n) == a && Field(bits, n, n) == b && Field(bits, 2 * n, n) == c
      && Field(bits, 3 * n, n) == e
  {
    var x := LsbBits(a, n);
    var rest := LsbBits(b, n) + (LsbBits(c, n) + LsbBits(e, n));
    FieldHead(a, n, rest);
    ThreeFields(b, c, e, n);
    assert Field(rest, 0, n) == b && Field(rest, n, n) == c && Field(rest, 2 * n, n) == e;
    FieldShift(x, rest, n, 0, n);
    FieldShift(x, rest, 2 * n, n, n);
    FieldShift(x, rest, 3 * n, 2 * n, n);
  }

  /** Three n-bit values laid out one after another are read back at offsets 0, n and 2n. */
  lemma ThreeFields(a: nat, b: nat, c: nat, n: nat)
    requires a < Pow2(n) && b < Pow2(n) && c < Pow2(n)
    ensures var bits := LsbBits(a, n) + (LsbBits(b, n) + LsbBits(c, n));
      Field(bits, 0, n) == a && Field(bits, n, n) == b && Field(bits, 2 * n, n) == c
  {
    var x := LsbBits(a, n);
    var y := LsbBits(b, n);
    var z := LsbBits(c, n);
    FieldHead(a, n, y + z);
    FieldAfter(x, b, n, z, n);
    FieldShift(x, y + z, 2 * n, n, n);
    FieldTail(y, z, n, n);
    LsbBitsRoundTrip(c, n);
  }

  lemma PoseRoundTrip(k: DeviceKind, r: Reading)
    requires k.GoBildaPinpoint? && Encodable(k, r)
    ensures Parse(k, ReadingBits(k, r), 0) == r
  {
    PoseFields(r);
  }

  /** Where the hub's layout puts each field of a Pinpoint reading. */
  lemma PoseFields(r: Reading)
    requires r.PoseReading? && 0 <= r.deviceStatus < 0x100
    ensures var bits := ReadingBits(GoBildaPinpoint(0, 0, 0, Forward, Forward), r);
      Field(bits, 1, 8) == r.deviceStatus && Field(bits, 9, 32) == r.xPosition
      && Field(bits, 41, 32) == r.yPosition && Field(bits, 73, 32) == r.hOrientation
      && Field(bits, 105, 32) == r.xVelocity && Field(bits, 137, 32) == r.yVelocity
      && Field(bits, 169, 32) == r.hVelocity
  {
    Pow2Values();
    var d := [r.disconnected];
    var s := LsbBits(r.deviceStatus, 8);
    var pos := LsbBits(r.xPosition, 32) + (LsbBits(r.yPosition, 32) + LsbBits(r.hOrientation, 32));
    var vel := LsbBits(r.xVelocity, 32) + (LsbBits(r.yVelocity, 32) + LsbBits(r.hVelocity, 32));
    var t1 := s + (pos + vel);
    assert ReadingBits(GoBildaPinpoint(0, 0, 0, Forward, Forward), r) == d + t1 by {
      assert LsbBits(r.xPosition, 32) + (LsbBits(r.yPosition, 32) + (LsbBits(r.hOrientation, 32) + vel))
        == pos + vel;
    }
    FieldAfter(d, r.deviceStatus, 8, pos + vel, 1);
    ThreeFields(r.xPosition, r.yPosition, r.hOrientation, 32);
    ThreeFields(r.xVelocity, r.yVelocity, r.hVelocity, 32);
    PoseSkip(d, s, pos, vel);
  }

  /** The Pinpoint's position fields sit 9 bits in, its velocities 105 bits in. */
  lemma PoseSkip(d: seq<bool>, s: seq<bool>, pos: seq<bool>, vel: seq<bool>)
    requires |d| == 1 && |s| == 8 && |pos| == 96
    ensures forall off: nat, n: nat :: off + n <= 96 ==>
      Field(d + (s + (pos + vel)), 9 + off, n) == Field(pos, off, n)
    ensures forall off: nat, n: nat ::
      Field(d + (s + (pos + vel)), 105 + off, n) == Field(vel, off, n)
  {
    forall off: nat, n: nat | off + n <= 96
      ensures Field(d + (s + (pos + vel)), 9 + off, n) == Field(pos, off, n)
    {
      FieldShift(d, s + (pos + vel), 9 + off, 8 + off, n);
      FieldShift(s, pos + vel, 8 + off, off, n);
      FieldOfPrefix(pos, vel, off, n);
    }
    forall off: nat, n: nat
      ensures Field(d + (s + (pos + vel)), 105 + off, n) == Field(vel, off, n)
    {
      FieldShift(d, s + (pos + vel), 105 + off, 104 + off, n);
      FieldShift(s, pos + vel, 104 + off, 96 + off, n);
      FieldShift(pos, vel, 96 + off, off, n);
    }
  }

  /**
    Every window of `UpdateLength()` bits is the layout of the reading parsed from it: together
    with `ParseOwnBits`, `Parse` and `ReadingBits` are inverse bijections between windows and
    encodable readings.
   */
  lemma ReadingBitsOfParse(k: DeviceKind, bits: seq<bool>, start: nat)
    ensures ReadingBits(k, Parse(k, bits, start)) == Range(bits, start, k.UpdateLength())
  {
    var len := k.UpdateLength();
    match k {
      case APDS9151 => ColorWindowBits(bits, start);
      case VL53L5CX(_) =>
        ZoneCount(k);
        PeelFlag(bits, start, len, start + 1, len - 1);
        ZoneBitsOfParse(bits, start + 1, (len - 1) / 11);
      case VL53L0X =>
        PeelFlag(bits, start, 17, start + 1, 16);
        LsbBitsOfField(bits, start + 1, 16);
      case GoBildaPinpoint(_, _, _, _, _) => PoseWindowBits(bits, start);
    }
  }

  /** An APDS9151 window cut into its flag and five fields. */
  lemma ColorWindowBits(bits: seq<bool>, start: nat)
    ensures Range(bits, start, 92) == [Get(bits, start)] + (LsbBits(Field(bits, start + 1, 11), 11)
      + (LsbBits(Field(bits, start + 12, 20), 20) + (LsbBits(Field(bits, start + 32, 20), 20)
      + (LsbBits(Field(bits, start + 52, 20), 20) + LsbBits(Field(bits, start + 72, 20), 20)))))
  {
    PeelFlag(bits, start, 92, start + 1, 91);
    PeelField(bits, start + 1, 11, 91, start + 12, 80);
    PeelField(bits, start + 12, 20, 80, start + 32, 60);
    PeelField(bits, start + 32, 20, 60, start + 52, 40);
    PeelField(bits, start + 52, 20, 40, start + 72, 20);
    LsbBitsOfField(bits, start + 72, 20);
  }

  /** A Pinpoint window cut into its flag, status byte and six 32-bit fields. */
  lemma PoseWindowBits(bits: seq<bool>, start: nat)
    ensures Range(bits, start, 201) == [Get(bits, start)] + (LsbBits(Field(bits, start + 1, 8), 8)
      + (LsbBits(Field(bits, start + 9, 32), 32) + (LsbBits(Field(bits, start + 41, 32), 32)
      + (LsbBits(Field(bits, start + 73, 32), 32) + (LsbBits(Field(bits, start + 105, 32), 32)
      + (LsbBits(Field(bits, start + 137, 32), 32) + LsbBits(Field(bits, start + 169, 32), 32)))))))
  {
    PeelFlag(bits, start, 201, start + 1, 200);
    PeelField(bits, start + 1, 8, 200, start + 9, 192);
    PeelField(bits, start + 9, 32, 192, start + 41, 160);
    PeelField(bits, start + 41, 32, 160, start + 73, 128);
    PeelField(bits, start + 73, 32, 128, start + 105, 96);
    PeelField(bits, start + 105, 32, 96, start + 137, 64);
    PeelField(bits, start + 137, 32, 64, start + 169, 32);
    LsbBitsOfField(bits, start + 169, 32);
  }

  /**
    Where a device's slice sits in a larger frame does not matter: the hub's layout of a reading,
    placed after any prefix, parses back to the reading.
   */
  lemma ParseInFrame(k: DeviceKind, r: Reading, pre: seq<bool>, post: seq<bool>)
    requires Encodable(k, r)
    ensures Parse(k, pre + ReadingBits(k, r) + post, |pre|) == r
  {
    var m := ReadingBits(k, r);
    ParseLocal(k, pre + m + post, |pre|);
    RangeOfConcat(pre, m, post);
    ParseOwnBits(k, r);
  }
}
