/**
  The telemetry frame `update` bulk-reads from the READ register, and the driver's walk over it.
  A frame is the identity byte 0x61, then the reading of every configured pin, encoder port and
  I2C device in configuration order, packed least significant bit first and padded to a whole
  byte, then the CRC-16/XMODEM of everything before it, big-endian.
 */
module Telemetry {
  import opened Bits
  import opened Errors
  import opened Devices
  import opened HubConfig
  import opened Crc16
  import InitFrame

  /** `DEVICE_ID`: the first byte of every frame and of the DEVICE_INFO register. */
  const DeviceId: byte := 0x61
  /** The walk over a frame starts after the identity byte. */
  const HeaderBits := 8
  const AnalogBits := 12
  /** An analog reading is a 12-bit count divided by `4095`. */
  const AnalogFullScale := 4095
  const PositionBits := 16
  const VelocityBits := 32
  /** The bulk-read limit `init` enforces, in bytes. */
  const MaxFrameLength := 100

  /** `PosVel`: an encoder's position and velocity, both Java `int`s. */
  datatype PosVel = PosVel(position: int, velocity: int)

  /** The bits a pin's reading takes in a frame. */
  function PinWidth(p: PinDevice): nat
  {
    match p
    case Analog => AnalogBits
    case Digital => 1
    case NoPinDevice => 0
  }

  /** The bits an encoder port's reading takes in a frame: a position and a velocity, or nothing. */
  function EncoderWidth(e: EncoderMode): nat
  {
    if e == NoEncoder then 0 else PositionBits + VelocityBits
  }

  function PinsWidth(pins: seq<PinDevice>): nat
  {
    if |pins| == 0 then 0 else PinWidth(pins[0]) + PinsWidth(pins[1..])
  }

  function EncodersWidth(encoders: seq<EncoderMode>): nat
  {
    if |encoders| == 0 then 0 else EncoderWidth(encoders[0]) + EncodersWidth(encoders[1..])
  }

  function DevicesWidth(devs: seq<Device>): nat
  {
    if |devs| == 0 then 0 else devs[0].kind.UpdateLength() + DevicesWidth(devs[1..])
  }

  function BusesWidth(buses: seq<seq<Device>>): nat
  {
    if |buses| == 0 then 0 else DevicesWidth(buses[0]) + BusesWidth(buses[1..])
  }

  /** `updateLength` before rounding: the identity byte and every reading, in bits. */
  function TelemetryBits(c: Config): nat
  {
    HeaderBits + PinsWidth(c.pins) + EncodersWidth(c.encoders) + BusesWidth(c.buses)
  }

  /** `updateLength` once `init` has rounded it: whole bytes for the readings, and two CRC bytes. */
  function FrameLength(c: Config): nat
  {
    2 + (TelemetryBits(c) + 7) / 8
  }

  /** The frame is the shortest whole number of bytes that holds the readings ahead of the CRC. */
  lemma FrameLengthTight(c: Config)
    ensures FrameLength(c) >= 3
    ensures TelemetryBits(c) <= 8 * (FrameLength(c) - 2) < TelemetryBits(c) + 8
  {
  }

  /**
    The loops of `init` that total `updateLength`: 8 bits for the identity byte, 12 per analog
    pin, 1 per digital pin, 48 per used encoder port and each device's update length, in the order
    `init` visits them, then rounded up to bytes with two added for the CRC.
   */
  method AccumulateUpdateLength(c: Config) returns (updateLength: int)
    ensures updateLength == FrameLength(c)
  {
    updateLength := HeaderBits;
    for i := 0 to |c.pins|
      invariant updateLength == HeaderBits + PinsWidth(c.pins[..i])
    {
      match c.pins[i] {
        case Analog => updateLength := updateLength + 12;
        case Digital => updateLength := updateLength + 1;
        case NoPinDevice =>
      }
      PinsWidthSnoc(c.pins[..i + 1]);
      assert c.pins[..i + 1][..i] == c.pins[..i];
    }
    assert c.pins[..|c.pins|] == c.pins;
    for i := 0 to |c.encoders|
      invariant updateLength == HeaderBits + PinsWidth(c.pins) + EncodersWidth(c.encoders[..i])
    {
      if c.encoders[i] != NoEncoder {
        updateLength := updateLength + 48;
      }
      EncodersWidthSnoc(c.encoders[..i + 1]);
      assert c.encoders[..i + 1][..i] == c.encoders[..i];
    }
    assert c.encoders[..|c.encoders|] == c.encoders;
    var before := updateLength;
    for b := 0 to |c.buses|
      invariant updateLength == before + BusesWidth(c.buses[..b])
    {
      var devs := c.buses[b];
      var busStart := updateLength;
      for j := 0 to |devs|
        invariant updateLength == busStart + DevicesWidth(devs[..j])
      {
        updateLength := updateLength + devs[j].kind.UpdateLength();
        DevicesWidthSnoc(devs[..j + 1]);
        assert devs[..j + 1][..j] == devs[..j];
      }
      assert devs[..|devs|] == devs;
      BusesWidthSnoc(c.buses[..b + 1]);
      assert c.buses[..b + 1][..b] == c.buses[..b];
    }
    assert c.buses[..|c.buses|] == c.buses;
    updateLength := 2 + (updateLength + 7) / 8;
  }

  lemma {:induction false} PinsWidthSnoc(pins: seq<PinDevice>)
    requires |pins| > 0
    ensures PinsWidth(pins) == PinsWidth(pins[..|pins| - 1]) + PinWidth(pins[|pins| - 1])
    decreases |pins|
  {
    if |pins| > 1 {
      PinsWidthSnoc(pins[1..]);
      assert pins[1..][..|pins| - 2] == pins[..|pins| - 1][1..];
    }
  }

  lemma {:induction false} EncodersWidthSnoc(encoders: seq<EncoderMode>)
    requires |encoders| > 0
    ensures EncodersWidth(encoders) == EncodersWidth(encoders[..|encoders| - 1]) + EncoderWidth(encoders[|encoders| - 1])
    decreases |encoders|
  {
    if |encoders| > 1 {
      EncodersWidthSnoc(encoders[1..]);
      assert encoders[1..][..|encoders| - 2] == encoders[..|encoders| - 1][1..];
    }
  }

  lemma {:induction false} DevicesWidthSnoc(devs: seq<Device>)
    requires |devs| > 0
    ensures DevicesWidth(devs) == DevicesWidth(devs[..|devs| - 1]) + devs[|devs| - 1].kind.UpdateLength()
    decreases |devs|
  {
    if |devs| > 1 {
      DevicesWidthSnoc(devs[1..]);
      assert devs[1..][..|devs| - 2] == devs[..|devs| - 1][1..];
    }
  }

  lemma {:induction false} BusesWidthSnoc(buses: seq<seq<Device>>)
    requires |buses| > 0
    ensures BusesWidth(buses) == BusesWidth(buses[..|buses| - 1]) + DevicesWidth(buses[|buses| - 1])
    decreases |buses|
  {
    if |buses| > 1 {
      BusesWidthSnoc(buses[1..]);
      assert buses[1..][..|buses| - 2] == buses[..|buses| - 1][1..];
    }
  }

  /** One pin's value as `update` reads it at `pos`; an unused pin keeps the value it had. */
  function PinValue(bits: seq<bool>, pos: nat, p: PinDevice, last: real): real
  {
    match p
    case Analog => Field(bits, pos, AnalogBits) as real / AnalogFullScale as real
    case Digital => if Get(bits, pos) then 1.0 else 0.0
    case NoPinDevice => last
  }

  /** The pin loop of `update`, from bit `pos`. */
  function ReadPins(bits: seq<bool>, pos: nat, pins: seq<PinDevice>, values: seq<real>): (r: seq<real>)
    requires |values| == |pins|
    ensures |r| == |pins|
    decreases |pins|
  {
    if |pins| == 0 then []
    else [PinValue(bits, pos, pins[0], values[0])] + ReadPins(bits, pos + PinWidth(pins[0]), pins[1..], values[1..])
  }

  /**
    One encoder port's value as `update` reads it at `pos`: a 16-bit two's-complement count and a
    32-bit two's-complement velocity. A quadrature count is added to the last position in Java
    `int` arithmetic; a PWM count replaces it. An unused port keeps its value.
   */
  function EncoderValue(bits: seq<bool>, pos: nat, e: EncoderMode, last: PosVel): PosVel
  {
    match e
    case Quadrature =>
      PosVel(Int32(last.position + ShortAt(bits, pos, PositionBits)), IntAt(bits, pos + PositionBits, VelocityBits))
    case Pwm => PosVel(ShortAt(bits, pos, PositionBits), IntAt(bits, pos + PositionBits, VelocityBits))
    case NoEncoder => last
  }

  /** The encoder loop of `update`, from bit `pos`. */
  function ReadEncoders(bits: seq<bool>, pos: nat, encoders: seq<EncoderMode>, values: seq<PosVel>): (r: seq<PosVel>)
    requires |values| == |encoders|
    ensures |r| == |encoders|
    decreases |encoders|
  {
    if |encoders| == 0 then []
    else [EncoderValue(bits, pos, encoders[0], values[0])]
         + ReadEncoders(bits, pos + EncoderWidth(encoders[0]), encoders[1..], values[1..])
  }

  /** `parseUpdate` on each device of a bus in turn, each reading its own slice. */
  function ReadDevices(bits: seq<bool>, pos: nat, devs: seq<Device>): (r: seq<Device>)
    ensures |r| == |devs|
    decreases |devs|
  {
    if |devs| == 0 then []
    else [Device(devs[0].kind, Parse(devs[0].kind, bits, pos))]
         + ReadDevices(bits, pos + devs[0].kind.UpdateLength(), devs[1..])
  }

  /** The bus loop of `update`, from bit `pos`. */
  function ReadBuses(bits: seq<bool>, pos: nat, buses: seq<seq<Device>>): (r: seq<seq<Device>>)
    ensures |r| == |buses|
    decreases |buses|
  {
    if |buses| == 0 then []
    else [ReadDevices(bits, pos, buses[0])] + ReadBuses(bits, pos + DevicesWidth(buses[0]), buses[1..])
  }

  /** What `update` refreshes: the pin values, the encoder values and every device's fields. */
  datatype Readout = Readout(analog: seq<real>, encoders: seq<PosVel>, buses: seq<seq<Device>>)

  /** The walk of `update` over a frame whose CRC matched, starting after the identity byte. */
  function Walk(c: Config, bits: seq<bool>, analog: seq<real>, encoders: seq<PosVel>): Readout
    requires |analog| == |c.pins| && |encoders| == |c.encoders|
  {
    Readout(ReadPins(bits, HeaderBits, c.pins, analog), ReadEncoders(bits, EncodersAt(c), c.encoders, encoders),
            ReadBuses(bits, BusesAt(c), c.buses))
  }

  /** Where the encoder readings start: after the identity byte and the pin readings. */
  function EncodersAt(c: Config): nat
  {
    HeaderBits + PinsWidth(c.pins)
  }

  /** Where the device readings start: after the encoder readings. */
  function BusesAt(c: Config): nat
  {
    EncodersAt(c) + EncodersWidth(c.encoders)
  }

  /** Pin `i` is read at `pos` plus the widths of the pins before it. */
  lemma {:induction false} ReadPinsAt(bits: seq<bool>, pos: nat, pins: seq<PinDevice>, values: seq<real>, i: nat,
                                      at: nat)
    requires |values| == |pins| && i < |pins| && at == pos + PinsWidth(pins[..i])
    ensures ReadPins(bits, pos, pins, values)[i] == PinValue(bits, at, pins[i], values[i])
    decreases i
  {
    if i > 0 {
      var next := pos + PinWidth(pins[0]);
      assert pins[..i][1..] == pins[1..][..i - 1];
      ReadPinsAt(bits, next, pins[1..], values[1..], i - 1, at);
      ReadPinsTail(bits, pos, next, pins, values, i);
    }
  }

  lemma ReadPinsTail(bits: seq<bool>, pos: nat, next: nat, pins: seq<PinDevice>, values: seq<real>, i: nat)
    requires |values| == |pins| && 0 < i < |pins| && next == pos + PinWidth(pins[0])
    ensures ReadPins(bits, pos, pins, values)[i] == ReadPins(bits, next, pins[1..], values[1..])[i - 1]
    ensures pins[1..][i - 1] == pins[i] && values[1..][i - 1] == values[i]
  {
  }

  /** Encoder port `i` is read at `pos` plus the widths of the ports before it. */
  lemma {:induction false} ReadEncodersAt(bits: seq<bool>, pos: nat, encoders: seq<EncoderMode>, values: seq<PosVel>,
                                          i: nat, at: nat)
    requires |values| == |encoders| && i < |encoders| && at == pos + EncodersWidth(encoders[..i])
    ensures ReadEncoders(bits, pos, encoders, values)[i] == EncoderValue(bits, at, encoders[i], values[i])
    decreases i
  {
    if i > 0 {
      var next := pos + EncoderWidth(encoders[0]);
      assert encoders[..i][1..] == encoders[1..][..i - 1];
      ReadEncodersAt(bits, next, encoders[1..], values[1..], i - 1, at);
      ReadEncodersTail(bits, pos, next, encoders, values, i);
    }
  }

  lemma ReadEncodersTail(bits: seq<bool>, pos: nat, next: nat, encoders: seq<EncoderMode>, values: seq<PosVel>,
                         i: nat)
    requires |values| == |encoders| && 0 < i < |encoders| && next == pos + EncoderWidth(encoders[0])
    ensures ReadEncoders(bits, pos, encoders, values)[i] == ReadEncoders(bits, next, encoders[1..], values[1..])[i - 1]
    ensures encoders[1..][i - 1] == encoders[i] && values[1..][i - 1] == values[i]
  {
  }

  lemma ReadDevicesTail(bits: seq<bool>, pos: nat, devs: seq<Device>, j: nat)
    requires 0 < j < |devs|
    ensures ReadDevices(bits, pos, devs)[j]
            == ReadDevices(bits, pos + devs[0].kind.UpdateLength(), devs[1..])[j - 1]
    ensures devs[1..][j - 1] == devs[j]
  {
  }

  /** Bus `b` is read after the devices of the buses before it. */
  lemma {:induction false} ReadBusesAt(bits: seq<bool>, pos: nat, buses: seq<seq<Device>>, b: nat, at: nat)
    requires b < |buses| && at == pos + BusesWidth(buses[..b])
    ensures ReadBuses(bits, pos, buses)[b] == ReadDevices(bits, at, buses[b])
    decreases b
  {
    if b > 0 {
      var next := pos + DevicesWidth(buses[0]);
      assert at == next + BusesWidth(buses[1..][..b - 1]) by {
        assert buses[..b][1..] == buses[1..][..b - 1];
      }
      ReadBusesAt(bits, next, buses[1..], b - 1, at);
      ReadBusesTail(bits, pos, buses, b);
    }
  }

  lemma ReadBusesTail(bits: seq<bool>, pos: nat, buses: seq<seq<Device>>, b: nat)
    requires 0 < b < |buses|
    ensures ReadBuses(bits, pos, buses)[b] == ReadBuses(bits, pos + DevicesWidth(buses[0]), buses[1..])[b - 1]
    ensures buses[1..][b - 1] == buses[b]
  {
    var tail := ReadBuses(bits, pos + DevicesWidth(buses[0]), buses[1..]);
    assert ReadBuses(bits, pos, buses) == [ReadDevices(bits, pos, buses[0])] + tail;
  }

  /** The value of an analog pin lies in [0, 1], and that of a digital pin is 0 or 1. */
  lemma PinValueRange(bits: seq<bool>, pos: nat, p: PinDevice, last: real)
    requires p != NoPinDevice
    ensures 0.0 <= PinValue(bits, pos, p, last) <= 1.0
    ensures p == Digital ==> PinValue(bits, pos, p, last) == 0.0 || PinValue(bits, pos, p, last) == 1.0
  {
    Pow2Values();
  }

  /**
    `update` never reads past the readings into the CRC bytes at the end of the frame: the walk
    sees only the first `TelemetryBits(c)` bits, and those end before the last two bytes.
   */
  lemma WalkStaysInFrame(c: Config, bits: seq<bool>, analog: seq<real>, encoders: seq<PosVel>)
    requires |analog| == |c.pins| && |encoders| == |c.encoders|
    ensures TelemetryBits(c) <= 8 * (FrameLength(c) - 2)
    ensures Walk(c, Range(bits, 0, TelemetryBits(c)), analog, encoders) == Walk(c, bits, analog, encoders)
  {
    FrameLengthTight(c);
    var n := TelemetryBits(c);
    ReadPinsPrefix(bits, n, HeaderBits, c.pins, analog);
    RangeOfRange(bits, 0, n, EncodersAt(c), EncodersWidth(c.encoders));
    ReadEncodersAgree(Range(bits, 0, n), bits, EncodersAt(c), c.encoders, encoders);
    RangeOfRange(bits, 0, n, BusesAt(c), BusesWidth(c.buses));
    ReadBusesAgree(Range(bits, 0, n), bits, BusesAt(c), c.buses);
  }

  // Each reader sees only its own window, so cutting the buffer after the window changes nothing.

  lemma PinValuePrefix(bits: seq<bool>, n: nat, pos: nat, p: PinDevice, last: real)
    requires pos + PinWidth(p) <= n
    ensures PinValue(Range(bits, 0, n), pos, p, last) == PinValue(bits, pos, p, last)
  {
    if p == Analog {
      FieldOfRange(bits, 0, n, pos, AnalogBits);
    }
  }

  lemma {:induction false} ReadPinsPrefix(bits: seq<bool>, n: nat, pos: nat, pins: seq<PinDevice>, values: seq<real>)
    requires |values| == |pins| && pos + PinsWidth(pins) <= n
    ensures ReadPins(Range(bits, 0, n), pos, pins, values) == ReadPins(bits, pos, pins, values)
    decreases |pins|
  {
    if |pins| > 0 {
      PinValuePrefix(bits, n, pos, pins[0], values[0]);
      ReadPinsPrefix(bits, n, pos + PinWidth(pins[0]), pins[1..], values[1..]);
    }
  }

  /** The counts a window of encoder readings holds, as the hub wrote them. */
  function CountsOf(bits: seq<bool>, pos: nat, encoders: seq<EncoderMode>): (r: seq<Count>)
    ensures |r| == |encoders| && CountsFit(r)
    decreases |encoders|
  {
    Pow2Values();
    if |encoders| == 0 then []
    else [Count(Field(bits, pos, PositionBits), Field(bits, pos + PositionBits, VelocityBits))]
         + CountsOf(bits, pos + EncoderWidth(encoders[0]), encoders[1..])
  }

  /** The counts read from a window of encoder readings, written back, are that window. */
  lemma {:induction false} CountsOfBits(bits: seq<bool>, pos: nat, encoders: seq<EncoderMode>)
    ensures CountsBits(encoders, CountsOf(bits, pos, encoders)) == Range(bits, pos, EncodersWidth(encoders))
    decreases |encoders|
  {
    if |encoders| > 0 {
      var next := pos + EncoderWidth(encoders[0]);
      var counts := CountsOf(bits, pos, encoders);
      CountsOfBits(bits, next, encoders[1..]);
      assert counts[1..] == CountsOf(bits, next, encoders[1..]);
      CountOfBits(bits, pos, encoders[0], counts[0]);
      RangeSplit(bits, pos, EncoderWidth(encoders[0]), EncodersWidth(encoders[1..]));
    }
  }

  lemma CountOfBits(bits: seq<bool>, pos: nat, e: EncoderMode, count: Count)
    requires count == Count(Field(bits, pos, PositionBits), Field(bits, pos + PositionBits, VelocityBits))
    ensures CountBits(e, count) == Range(bits, pos, EncoderWidth(e))
  {
    if e != NoEncoder {
      LsbBitsOfField(bits, pos, PositionBits);
      LsbBitsOfField(bits, pos + PositionBits, VelocityBits);
      RangeSplit(bits, pos, PositionBits, VelocityBits);
    }
  }

  /** Two buffers that agree on the encoder readings' window read the same values from it. */
  lemma ReadEncodersAgree(b1: seq<bool>, b2: seq<bool>, pos: nat, encoders: seq<EncoderMode>, values: seq<PosVel>)
    requires |values| == |encoders| && Range(b1, pos, EncodersWidth(encoders)) == Range(b2, pos, EncodersWidth(encoders))
    ensures ReadEncoders(b1, pos, encoders, values) == ReadEncoders(b2, pos, encoders, values)
  {
    var counts := CountsOf(b2, pos, encoders);
    CountsOfBits(b2, pos, encoders);
    EncodersWindow(b1, pos, encoders, counts, values);
    EncodersWindow(b2, pos, encoders, counts, values);
  }

  /** The readings a window of device readings holds, as the hub wrote them. */
  function ParsedReadings(bits: seq<bool>, pos: nat, devs: seq<Device>): (r: seq<Reading>)
    ensures ReadingsFit(devs, r)
    decreases |devs|
  {
    if |devs| == 0 then []
    else
      var rest := ParsedReadings(bits, pos + devs[0].kind.UpdateLength(), devs[1..]);
      assert forall j | 0 < j < |devs| :: devs[j] == devs[1..][j - 1];
      [Parse(devs[0].kind, bits, pos)] + rest
  }

  /** The readings parsed from a bus's window, written back, are that window. */
  lemma {:induction false} ParsedReadingsBits(bits: seq<bool>, pos: nat, devs: seq<Device>)
    ensures DeviceReadingsBits(devs, ParsedReadings(bits, pos, devs)) == Range(bits, pos, DevicesWidth(devs))
    decreases |devs|
  {
    if |devs| > 0 {
      var k := devs[0].kind;
      var len := k.UpdateLength();
      var readings := ParsedReadings(bits, pos, devs);
      ParsedReadingsBits(bits, pos + len, devs[1..]);
      assert readings[1..] == ParsedReadings(bits, pos + len, devs[1..]);
      ReadingBitsOfParse(k, bits, pos);
      RangeSplit(bits, pos, len, DevicesWidth(devs[1..]));
    }
  }

  /** Two buffers that agree on a bus's window read the same devices from it. */
  lemma ReadDevicesAgree(b1: seq<bool>, b2: seq<bool>, pos: nat, devs: seq<Device>)
    requires Range(b1, pos, DevicesWidth(devs)) == Range(b2, pos, DevicesWidth(devs))
    ensures ReadDevices(b1, pos, devs) == ReadDevices(b2, pos, devs)
  {
    var rs := ParsedReadings(b2, pos, devs);
    ParsedReadingsBits(b2, pos, devs);
    DevicesWindow(b1, pos, devs, rs);
    DevicesWindow(b2, pos, devs, rs);
  }

  /** The readings of every bus, parsed from a window of device readings. */
  function BusReadingsAt(bits: seq<bool>, pos: nat, buses: seq<seq<Device>>): (r: seq<seq<Reading>>)
    ensures BusReadingsFit(buses, r)
    decreases |buses|
  {
    if |buses| == 0 then []
    else
      var rest := BusReadingsAt(bits, pos + DevicesWidth(buses[0]), buses[1..]);
      assert forall b | 0 < b < |buses| :: buses[b] == buses[1..][b - 1];
      [ParsedReadings(bits, pos, buses[0])] + rest
  }

  /** The readings parsed from a window of device readings, written back, are that window. */
  lemma {:induction false} BusReadingsAtBits(bits: seq<bool>, pos: nat, buses: seq<seq<Device>>)
    ensures BusReadingsBits(buses, BusReadingsAt(bits, pos, buses)) == Range(bits, pos, BusesWidth(buses))
    decreases |buses|
  {
    if |buses| > 0 {
      var next := pos + DevicesWidth(buses[0]);
      var readings := BusReadingsAt(bits, pos, buses);
      BusReadingsAtBits(bits, next, buses[1..]);
      assert readings[0] == ParsedReadings(bits, pos, buses[0]);
      assert readings[1..] == BusReadingsAt(bits, next, buses[1..]);
      BusReadingsBitsCons(buses, readings);
      ParsedReadingsBits(bits, pos, buses[0]);
      RangeSplit(bits, pos, DevicesWidth(buses[0]), BusesWidth(buses[1..]));
    }
  }

  lemma BusReadingsBitsCons(buses: seq<seq<Device>>, readings: seq<seq<Reading>>)
    requires |buses| > 0 && BusReadingsFit(buses, readings)
    ensures BusReadingsFit(buses[1..], readings[1..])
    ensures BusReadingsBits(buses, readings) == DeviceReadingsBits(buses[0], readings[0]) + BusReadingsBits(buses[1..], readings[1..])
  {
    assert forall b | 0 <= b < |buses| - 1 :: buses[1..][b] == buses[b + 1] && readings[1..][b] == readings[b + 1];
  }

  /** Two buffers that agree on the device readings' window read the same devices from it. */
  lemma ReadBusesAgree(b1: seq<bool>, b2: seq<bool>, pos: nat, buses: seq<seq<Device>>)
    requires Range(b1, pos, BusesWidth(buses)) == Range(b2, pos, BusesWidth(buses))
    ensures ReadBuses(b1, pos, buses) == ReadBuses(b2, pos, buses)
  {
    var readings := BusReadingsAt(b2, pos, buses);
    BusReadingsAtBits(b2, pos, buses);
    BusesWindow(b1, pos, buses, readings);
    BusesWindow(b2, pos, buses, readings);
  }

  // The hub's side of a frame: what it measured, in the raw form it sends.

  /** A pin's raw reading fits its width: a 12-bit count, one bit, or nothing. */
  predicate LevelFits(p: PinDevice, level: nat)
  {
    level < Pow2(PinWidth(p))
  }

  predicate LevelsFit(pins: seq<PinDevice>, levels: seq<nat>)
    decreases |pins|
  {
    |levels| == |pins| && (|pins| == 0 || (LevelFits(pins[0], levels[0]) && LevelsFit(pins[1..], levels[1..])))
  }

  /** An encoder port's raw reading: a 16-bit count and a 32-bit velocity. */
  datatype Count = Count(position: nat, velocity: nat)

  predicate CountsFit(counts: seq<Count>)
  {
    forall i | 0 <= i < |counts| :: counts[i].position < 0x1_0000 && counts[i].velocity < 0x1_0000_0000
  }

  predicate ReadingsFit(devs: seq<Device>, readings: seq<Reading>)
  {
    |readings| == |devs| && forall j | 0 <= j < |devs| :: Encodable(devs[j].kind, readings[j])
  }

  predicate BusReadingsFit(buses: seq<seq<Device>>, readings: seq<seq<Reading>>)
  {
    |readings| == |buses| && forall b | 0 <= b < |buses| :: ReadingsFit(buses[b], readings[b])
  }

  /** What the hub measured for a configuration: pin levels, encoder counts and device readings. */
  datatype Sample = Sample(levels: seq<nat>, counts: seq<Count>, readings: seq<seq<Reading>>)

  predicate SampleFits(c: Config, s: Sample)
  {
    LevelsFit(c.pins, s.levels) && |s.counts| == |c.encoders| && CountsFit(s.counts)
    && BusReadingsFit(c.buses, s.readings)
  }

  function LevelBits(pins: seq<PinDevice>, levels: seq<nat>): (r: seq<bool>)
    requires LevelsFit(pins, levels)
    ensures |r| == PinsWidth(pins)
    decreases |pins|
  {
    if |pins| == 0 then [] else LsbBits(levels[0], PinWidth(pins[0])) + LevelBits(pins[1..], levels[1..])
  }

  function CountBits(e: EncoderMode, count: Count): (r: seq<bool>)
    ensures |r| == EncoderWidth(e)
  {
    if e == NoEncoder then [] else LsbBits(count.position, PositionBits) + LsbBits(count.velocity, VelocityBits)
  }

  function CountsBits(encoders: seq<EncoderMode>, counts: seq<Count>): (r: seq<bool>)
    requires |counts| == |encoders|
    ensures |r| == EncodersWidth(encoders)
    decreases |encoders|
  {
    if |encoders| == 0 then [] else CountBits(encoders[0], counts[0]) + CountsBits(encoders[1..], counts[1..])
  }

  function DeviceReadingsBits(devs: seq<Device>, readings: seq<Reading>): (r: seq<bool>)
    requires ReadingsFit(devs, readings)
    ensures |r| == DevicesWidth(devs)
    decreases |devs|
  {
    if |devs| == 0 then []
    else
      assert ReadingsFit(devs[1..], readings[1..]) by {
        assert forall j | 0 <= j < |devs| - 1 :: devs[1..][j] == devs[j + 1] && readings[1..][j] == readings[j + 1];
      }
      ReadingBits(devs[0].kind, readings[0]) + DeviceReadingsBits(devs[1..], readings[1..])
  }

  function BusReadingsBits(buses: seq<seq<Device>>, readings: seq<seq<Reading>>): (r: seq<bool>)
    requires BusReadingsFit(buses, readings)
    ensures |r| == BusesWidth(buses)
    decreases |buses|
  {
    if |buses| == 0 then []
    else
      assert BusReadingsFit(buses[1..], readings[1..]) by {
        assert forall b | 0 <= b < |buses| - 1 :: buses[1..][b] == buses[b + 1] && readings[1..][b] == readings[b + 1];
      }
      DeviceReadingsBits(buses[0], readings[0]) + BusReadingsBits(buses[1..], readings[1..])
  }

  /** Every reading, in the order `update` walks them. */
  function Payload(c: Config, s: Sample): (r: seq<bool>)
    requires SampleFits(c, s)
    ensures |r| == PinsWidth(c.pins) + EncodersWidth(c.encoders) + BusesWidth(c.buses)
  {
    LevelBits(c.pins, s.levels) + (CountsBits(c.encoders, s.counts) + BusReadingsBits(c.buses, s.readings))
  }

  /** The frame the hub answers a READ with: identity byte, readings, zero padding, CRC. */
  function TelemetryFrame(c: Config, s: Sample): (frame: seq<byte>)
    requires SampleFits(c, s)
    ensures |frame| == FrameLength(c) && frame[0] == DeviceId
    ensures CrcMatches(frame)
  {
    SealedFrameMatches([DeviceId] + ToBytes(Payload(c, s)));
    Seal([DeviceId] + ToBytes(Payload(c, s)))
  }

  // What `update` should make of a sample, stated without reference to bits.

  /** An analog count scaled to [0, 1], a digital bit as 0 or 1; an unused pin keeps its value. */
  function ExpectedPin(p: PinDevice, level: nat, last: real): real
  {
    match p
    case Analog => level as real / AnalogFullScale as real
    case Digital => level as real
    case NoPinDevice => last
  }

  function ExpectedPins(pins: seq<PinDevice>, levels: seq<nat>, values: seq<real>): (r: seq<real>)
    requires |levels| == |pins| && |values| == |pins|
    ensures |r| == |pins|
    decreases |pins|
  {
    if |pins| == 0 then []
    else [ExpectedPin(pins[0], levels[0], values[0])] + ExpectedPins(pins[1..], levels[1..], values[1..])
  }

  /**
    A quadrature count is a signed 16-bit step added to the last position with Java `int`
    wrap-around; a PWM count is the position itself. Velocities are signed 32-bit values.
   */
  function ExpectedEncoder(e: EncoderMode, count: Count, last: PosVel): PosVel
    requires count.position < 0x1_0000 && count.velocity < 0x1_0000_0000
  {
    match e
    case Quadrature => PosVel(Int32(last.position + Signed16(count.position)), Signed32(count.velocity))
    case Pwm => PosVel(Signed16(count.position), Signed32(count.velocity))
    case NoEncoder => last
  }

  function ExpectedEncoders(encoders: seq<EncoderMode>, counts: seq<Count>, values: seq<PosVel>): (r: seq<PosVel>)
    requires |counts| == |encoders| && |values| == |encoders| && CountsFit(counts)
    ensures |r| == |encoders|
    decreases |encoders|
  {
    if |encoders| == 0 then []
    else
      assert CountsFit(counts[1..]) by {
        assert forall i | 0 <= i < |counts| - 1 :: counts[1..][i] == counts[i + 1];
      }
      [ExpectedEncoder(encoders[0], counts[0], values[0])] + ExpectedEncoders(encoders[1..], counts[1..], values[1..])
  }

  function ExpectedDevices(devs: seq<Device>, readings: seq<Reading>): (r: seq<Device>)
    requires |readings| == |devs|
    ensures |r| == |devs|
    decreases |devs|
  {
    if |devs| == 0 then [] else [Device(devs[0].kind, readings[0])] + ExpectedDevices(devs[1..], readings[1..])
  }

  function ExpectedBuses(buses: seq<seq<Device>>, readings: seq<seq<Reading>>): (r: seq<seq<Device>>)
    requires BusReadingsFit(buses, readings)
    ensures |r| == |buses|
    decreases |buses|
  {
    if |buses| == 0 then []
    else
      assert BusReadingsFit(buses[1..], readings[1..]) by {
        assert forall b | 0 <= b < |buses| - 1 :: buses[1..][b] == buses[b + 1] && readings[1..][b] == readings[b + 1];
      }
      [ExpectedDevices(buses[0], readings[0])] + ExpectedBuses(buses[1..], readings[1..])
  }

  function Expected(c: Config, s: Sample, analog: seq<real>, encoders: seq<PosVel>): Readout
    requires SampleFits(c, s) && |analog| == |c.pins| && |encoders| == |c.encoders|
  {
    Readout(ExpectedPins(c.pins, s.levels, analog), ExpectedEncoders(c.encoders, s.counts, encoders),
            ExpectedBuses(c.buses, s.readings))
  }

  // Reading a sample back out of its frame.

  lemma PinStep(bits: seq<bool>, pos: nat, p: PinDevice, level: nat, last: real)
    requires LevelFits(p, level) && Range(bits, pos, PinWidth(p)) == LsbBits(level, PinWidth(p))
    ensures PinValue(bits, pos, p, last) == ExpectedPin(p, level, last)
  {
    WindowField(bits, pos, level, PinWidth(p));
    if p == Digital {
      assert Range(bits, pos, 1)[0] == Get(bits, pos);
    }
  }

  lemma {:induction false} PinsWindow(bits: seq<bool>, pos: nat, pins: seq<PinDevice>, levels: seq<nat>, values: seq<real>)
    requires LevelsFit(pins, levels) && |values| == |pins|
    requires Range(bits, pos, |LevelBits(pins, levels)|) == LevelBits(pins, levels)
    ensures ReadPins(bits, pos, pins, values) == ExpectedPins(pins, levels, values)
    decreases |pins|
  {
    if |pins| > 0 {
      var w := PinWidth(pins[0]);
      WindowSplit(bits, pos, |LevelBits(pins, levels)|, LsbBits(levels[0], w), LevelBits(pins[1..], levels[1..]), pos + w);
      PinStep(bits, pos, pins[0], levels[0], values[0]);
      PinsWindow(bits, pos + w, pins[1..], levels[1..], values[1..]);
    }
  }

  lemma EncoderStep(bits: seq<bool>, pos: nat, e: EncoderMode, count: Count, last: PosVel)
    requires count.position < 0x1_0000 && count.velocity < 0x1_0000_0000
    requires Range(bits, pos, EncoderWidth(e)) == CountBits(e, count)
    ensures EncoderValue(bits, pos, e, last) == ExpectedEncoder(e, count, last)
  {
    if e != NoEncoder {
      Pow2Values();
      WindowSplit(bits, pos, EncoderWidth(e), LsbBits(count.position, PositionBits),
                  LsbBits(count.velocity, VelocityBits), pos + PositionBits);
      WindowField(bits, pos, count.position, PositionBits);
      WindowField(bits, pos + PositionBits, count.velocity, VelocityBits);
    }
  }

  lemma {:induction false} EncodersWindow(bits: seq<bool>, pos: nat, encoders: seq<EncoderMode>, counts: seq<Count>,
                                          values: seq<PosVel>)
    requires |counts| == |encoders| && |values| == |encoders| && CountsFit(counts)
    requires Range(bits, pos, |CountsBits(encoders, counts)|) == CountsBits(encoders, counts)
    ensures ReadEncoders(bits, pos, encoders, values) == ExpectedEncoders(encoders, counts, values)
    decreases |encoders|
  {
    if |encoders| > 0 {
      var next := pos + EncoderWidth(encoders[0]);
      EncodersWindowStep(bits, pos, next, encoders, counts, values);
      EncodersWindow(bits, next, encoders[1..], counts[1..], values[1..]);
    }
  }

  /** The first port's value comes from its own bits, and the rest of the window holds the rest. */
  lemma EncodersWindowStep(bits: seq<bool>, pos: nat, next: nat, encoders: seq<EncoderMode>, counts: seq<Count>,
                           values: seq<PosVel>)
    requires 0 < |encoders| && |counts| == |encoders| && |values| == |encoders| && CountsFit(counts)
    requires next == pos + EncoderWidth(encoders[0])
    requires Range(bits, pos, |CountsBits(encoders, counts)|) == CountsBits(encoders, counts)
    ensures CountsFit(counts[1..])
    ensures Range(bits, next, |CountsBits(encoders[1..], counts[1..])|) == CountsBits(encoders[1..], counts[1..])
    ensures ReadEncoders(bits, pos, encoders, values)
      == [ExpectedEncoder(encoders[0], counts[0], values[0])] + ReadEncoders(bits, next, encoders[1..], values[1..])
    ensures ExpectedEncoders(encoders, counts, values)
      == [ExpectedEncoder(encoders[0], counts[0], values[0])] + ExpectedEncoders(encoders[1..], counts[1..], values[1..])
  {
    EncodersCons(bits, pos, encoders, counts, values);
    WindowSplit(bits, pos, |CountsBits(encoders, counts)|, CountBits(encoders[0], counts[0]),
                CountsBits(encoders[1..], counts[1..]), pos + EncoderWidth(encoders[0]));
    EncoderStep(bits, pos, encoders[0], counts[0], values[0]);
  }

  lemma EncodersCons(bits: seq<bool>, pos: nat, encoders: seq<EncoderMode>, counts: seq<Count>,
                     values: seq<PosVel>)
    requires 0 < |encoders| && |counts| == |encoders| && |values| == |encoders| && CountsFit(counts)
    ensures CountsFit(counts[1..]) && counts[0].position < 0x1_0000 && counts[0].velocity < 0x1_0000_0000
    ensures CountsBits(encoders, counts) == CountBits(encoders[0], counts[0]) + CountsBits(encoders[1..], counts[1..])
    ensures ReadEncoders(bits, pos, encoders, values)
      == [EncoderValue(bits, pos, encoders[0], values[0])] + ReadEncoders(bits, pos + EncoderWidth(encoders[0]), encoders[1..], values[1..])
    ensures ExpectedEncoders(encoders, counts, values)
      == [ExpectedEncoder(encoders[0], counts[0], values[0])] + ExpectedEncoders(encoders[1..], counts[1..], values[1..])
  {
    assert forall i | 0 <= i < |counts| - 1 :: counts[1..][i] == counts[i + 1];
  }

  lemma DeviceStep(bits: seq<bool>, pos: nat, k: DeviceKind, r: Reading)
    requires Encodable(k, r) && Range(bits, pos, k.UpdateLength()) == ReadingBits(k, r)
    ensures Parse(k, bits, pos) == r
  {
    ParseLocal(k, bits, pos);
    ParseOwnBits(k, r);
  }

  lemma {:induction false} DevicesWindow(bits: seq<bool>, pos: nat, devs: seq<Device>, readings: seq<Reading>)
    requires ReadingsFit(devs, readings)
    requires Range(bits, pos, |DeviceReadingsBits(devs, readings)|) == DeviceReadingsBits(devs, readings)
    ensures ReadDevices(bits, pos, devs) == ExpectedDevices(devs, readings)
    decreases |devs|
  {
    if |devs| > 0 {
      var k := devs[0].kind;
      var next := pos + k.UpdateLength();
      assert ReadingsFit(devs[1..], readings[1..]) by {
        assert forall j | 0 <= j < |devs| - 1 :: devs[1..][j] == devs[j + 1] && readings[1..][j] == readings[j + 1];
      }
      WindowSplit(bits, pos, |DeviceReadingsBits(devs, readings)|, ReadingBits(k, readings[0]),
                  DeviceReadingsBits(devs[1..], readings[1..]), next);
      DeviceStep(bits, pos, k, readings[0]);
      DevicesWindow(bits, next, devs[1..], readings[1..]);
    }
  }

  lemma {:induction false} BusesWindow(bits: seq<bool>, pos: nat, buses: seq<seq<Device>>, readings: seq<seq<Reading>>)
    requires BusReadingsFit(buses, readings)
    requires Range(bits, pos, |BusReadingsBits(buses, readings)|) == BusReadingsBits(buses, readings)
    ensures ReadBuses(bits, pos, buses) == ExpectedBuses(buses, readings)
    decreases |buses|
  {
    if |buses| > 0 {
      var next := pos + DevicesWidth(buses[0]);
      assert BusReadingsFit(buses[1..], readings[1..]) by {
        assert forall b | 0 <= b < |buses| - 1 :: buses[1..][b] == buses[b + 1] && readings[1..][b] == readings[b + 1];
      }
      WindowSplit(bits, pos, |BusReadingsBits(buses, readings)|, DeviceReadingsBits(buses[0], readings[0]),
                  BusReadingsBits(buses[1..], readings[1..]), next);
      DevicesWindow(bits, pos, buses[0], readings[0]);
      BusesWindow(bits, next, buses[1..], readings[1..]);
    }
  }

  /** After the identity byte, a sealed frame carries its payload bit for bit. */
  lemma SealedWindow(p: seq<bool>)
    ensures Range(FromBytes(Seal([DeviceId] + ToBytes(p))), HeaderBits, |p|) == p
  {
    var m := [DeviceId] + ToBytes(p);
    FramedWindow(Seal(m), m, p);
  }

  /** Any frame that starts with the identity byte and the payload's bytes carries it bit for bit. */
  lemma FramedWindow(frame: seq<byte>, m: seq<byte>, p: seq<bool>)
    requires m == [DeviceId] + ToBytes(p) && |m| <= |frame| && frame[..|m|] == m
    ensures Range(FromBytes(frame), HeaderBits, |p|) == p
  {
    var crc := frame[|m|..];
    var pad := Zeros(8 * ((|p| + 7) / 8) - |p|);
    assert FromBytes(frame) == FromBytes(m) + FromBytes(crc) by {
      assert frame == m + crc;
      FromBytesAppend(m, crc);
    }
    assert FromBytes(m) == ByteBits(DeviceId) + (p + pad) by {
      assert m[1..] == ToBytes(p);
      FromBytesToBytes(p);
    }
    RangeOfPrefix(FromBytes(m), FromBytes(crc), HeaderBits, |p|);
    MiddleSlice(ByteBits(DeviceId), p, pad);
  }

  lemma MiddleSlice(a: seq<bool>, m: seq<bool>, c: seq<bool>)
    ensures (a + (m + c))[|a|..|a| + |m|] == m
  {
  }

  /** Three consecutive windows from one. */
  lemma ThreeWindows(bits: seq<bool>, pos: nat, a: seq<bool>, b: seq<bool>, d: seq<bool>, mid: nat, last: nat)
    requires mid == pos + |a| && last == mid + |b|
    requires Range(bits, pos, |a + (b + d)|) == a + (b + d)
    ensures Range(bits, pos, |a|) == a && Range(bits, mid, |b|) == b && Range(bits, last, |d|) == d
  {
    WindowSplit(bits, pos, |a + (b + d)|, a, b + d, mid);
    WindowSplit(bits, mid, |b + d|, b, d, last);
  }

  /** `update` reads back a sample from any bits that carry its payload after the identity byte. */
  lemma WalkWindows(c: Config, s: Sample, bits: seq<bool>, analog: seq<real>, encoders: seq<PosVel>)
    requires SampleFits(c, s) && |analog| == |c.pins| && |encoders| == |c.encoders|
    requires Range(bits, HeaderBits, |Payload(c, s)|) == Payload(c, s)
    ensures Walk(c, bits, analog, encoders) == Expected(c, s, analog, encoders)
  {
    var levels := LevelBits(c.pins, s.levels);
    var counts := CountsBits(c.encoders, s.counts);
    var readings := BusReadingsBits(c.buses, s.readings);
    var encodersAt := EncodersAt(c);
    var busesAt := BusesAt(c);
    ThreeWindows(bits, HeaderBits, levels, counts, readings, encodersAt, busesAt);
    PinsWindow(bits, HeaderBits, c.pins, s.levels, analog);
    EncodersWindow(bits, encodersAt, c.encoders, s.counts, encoders);
    BusesWindow(bits, busesAt, c.buses, s.readings);
    WalkPins(c, bits, analog, encoders);
    WalkEncoders(c, bits, analog, encoders);
    WalkBuses(c, bits, analog, encoders);
    var e := Expected(c, s, analog, encoders);
    assert e.analog == ExpectedPins(c.pins, s.levels, analog);
    assert e.encoders == ExpectedEncoders(c.encoders, s.counts, encoders);
    assert e.buses == ExpectedBuses(c.buses, s.readings);
    var w := Walk(c, bits, analog, encoders);
    assert w.analog == e.analog;
    assert w.encoders == e.encoders;
    assert w.buses == e.buses;
    ReadoutEqual(w, e);
  }

  lemma ReadoutEqual(a: Readout, b: Readout)
    requires a.analog == b.analog && a.encoders == b.encoders && a.buses == b.buses
    ensures a == b
  {
  }

  lemma WalkPins(c: Config, bits: seq<bool>, analog: seq<real>, encoders: seq<PosVel>)
    requires |analog| == |c.pins| && |encoders| == |c.encoders|
    ensures Walk(c, bits, analog, encoders).analog == ReadPins(bits, HeaderBits, c.pins, analog)
  {
  }

  lemma WalkEncoders(c: Config, bits: seq<bool>, analog: seq<real>, encoders: seq<PosVel>)
    requires |analog| == |c.pins| && |encoders| == |c.encoders|
    ensures Walk(c, bits, analog, encoders).encoders == ReadEncoders(bits, EncodersAt(c), c.encoders, encoders)
  {
  }

  lemma WalkBuses(c: Config, bits: seq<bool>, analog: seq<real>, encoders: seq<PosVel>)
    requires |analog| == |c.pins| && |encoders| == |c.encoders|
    ensures Walk(c, bits, analog, encoders).buses == ReadBuses(bits, BusesAt(c), c.buses)
  {
  }

  /**
    Round trip: `update` on the frame the hub builds from a sample reads back exactly that
    sample — every analog level scaled, every digital bit, every encoder count (quadrature ones
    added to the last position) and every device's fields.
   */
  lemma WalkFrame(c: Config, s: Sample, analog: seq<real>, encoders: seq<PosVel>)
    requires SampleFits(c, s) && |analog| == |c.pins| && |encoders| == |c.encoders|
    ensures Walk(c, FromBytes(TelemetryFrame(c, s)), analog, encoders) == Expected(c, s, analog, encoders)
  {
    SealedWindow(Payload(c, s));
    WalkWindows(c, s, FromBytes(TelemetryFrame(c, s)), analog, encoders);
  }

  // Element-wise views of the walk and of the expected readout, for the readers.

  /** The walk keeps every device's kind and leaves each with a reading the hub can send. */
  lemma {:induction false} ReadDevicesShape(bits: seq<bool>, pos: nat, devs: seq<Device>)
    ensures forall j | 0 <= j < |devs| :: ReadDevices(bits, pos, devs)[j].kind == devs[j].kind
    ensures forall j | 0 <= j < |devs| :: Encodable(devs[j].kind, ReadDevices(bits, pos, devs)[j].reading)
    decreases |devs|
  {
    if |devs| > 0 {
      ReadDevicesShape(bits, pos + devs[0].kind.UpdateLength(), devs[1..]);
      forall j | 0 < j < |devs|
        ensures ReadDevices(bits, pos, devs)[j].kind == devs[j].kind
        ensures Encodable(devs[j].kind, ReadDevices(bits, pos, devs)[j].reading)
      {
        ReadDevicesTail(bits, pos, devs, j);
      }
    }
  }

  /** The walk keeps a valid bus valid: the same devices, in the same order, with fresh readings. */
  lemma ReadBusesKeepValid(bits: seq<bool>, pos: nat, buses: seq<seq<Device>>)
    requires forall b | 0 <= b < |buses| :: BusValid(buses[b])
    ensures forall b | 0 <= b < |buses| :: BusValid(ReadBuses(bits, pos, buses)[b])
  {
    forall b | 0 <= b < |buses|
      ensures BusValid(ReadBuses(bits, pos, buses)[b])
    {
      var at := pos + BusesWidth(buses[..b]);
      ReadBusesAt(bits, pos, buses, b, at);
      ReadDevicesShape(bits, at, buses[b]);
    }
  }

  /** A pin's value after the walk is in [0, 1] if it was before, and 0 or 1 if the pin is digital. */
  lemma ReadPinsRange(bits: seq<bool>, pos: nat, pins: seq<PinDevice>, values: seq<real>)
    requires |values| == |pins| && forall i | 0 <= i < |pins| :: 0.0 <= values[i] <= 1.0
    ensures forall i | 0 <= i < |pins| :: 0.0 <= ReadPins(bits, pos, pins, values)[i] <= 1.0
    ensures forall i | 0 <= i < |pins| && pins[i] == Digital ::
      ReadPins(bits, pos, pins, values)[i] == 0.0 || ReadPins(bits, pos, pins, values)[i] == 1.0
  {
    forall i | 0 <= i < |pins|
      ensures 0.0 <= ReadPins(bits, pos, pins, values)[i] <= 1.0
      ensures pins[i] == Digital ==>
        ReadPins(bits, pos, pins, values)[i] == 0.0 || ReadPins(bits, pos, pins, values)[i] == 1.0
    {
      var at := pos + PinsWidth(pins[..i]);
      ReadPinsAt(bits, pos, pins, values, i, at);
      if pins[i] != NoPinDevice {
        PinValueRange(bits, at, pins[i], values[i]);
      }
    }
  }

  lemma {:induction false} ExpectedPinsAt(pins: seq<PinDevice>, levels: seq<nat>, values: seq<real>, i: nat)
    requires |levels| == |pins| && |values| == |pins| && i < |pins|
    ensures ExpectedPins(pins, levels, values)[i] == ExpectedPin(pins[i], levels[i], values[i])
    decreases i
  {
    if i > 0 {
      ExpectedPinsAt(pins[1..], levels[1..], values[1..], i - 1);
    }
  }

  lemma {:induction false} ExpectedEncodersAt(encoders: seq<EncoderMode>, counts: seq<Count>, values: seq<PosVel>,
                                              i: nat)
    requires |counts| == |encoders| && |values| == |encoders| && CountsFit(counts) && i < |encoders|
    ensures ExpectedEncoders(encoders, counts, values)[i] == ExpectedEncoder(encoders[i], counts[i], values[i])
    decreases i
  {
    if i > 0 {
      ExpectedEncodersTail(encoders, counts, values, i);
      ExpectedEncodersAt(encoders[1..], counts[1..], values[1..], i - 1);
    }
  }

  lemma ExpectedEncodersTail(encoders: seq<EncoderMode>, counts: seq<Count>, values: seq<PosVel>, i: nat)
    requires |counts| == |encoders| && |values| == |encoders| && CountsFit(counts) && 0 < i < |encoders|
    ensures CountsFit(counts[1..])
    ensures ExpectedEncoders(encoders, counts, values)[i]
            == ExpectedEncoders(encoders[1..], counts[1..], values[1..])[i - 1]
    ensures encoders[1..][i - 1] == encoders[i] && counts[1..][i - 1] == counts[i] && values[1..][i - 1] == values[i]
  {
    assert forall j | 0 <= j < |counts| - 1 :: counts[1..][j] == counts[j + 1];
  }

  lemma {:induction false} ExpectedDevicesAt(devs: seq<Device>, readings: seq<Reading>, j: nat)
    requires |readings| == |devs| && j < |devs|
    ensures ExpectedDevices(devs, readings)[j] == Device(devs[j].kind, readings[j])
    decreases j
  {
    if j > 0 {
      ExpectedDevicesAt(devs[1..], readings[1..], j - 1);
    }
  }

  lemma {:induction false} ExpectedBusesAt(buses: seq<seq<Device>>, readings: seq<seq<Reading>>, b: nat)
    requires BusReadingsFit(buses, readings) && b < |buses|
    ensures ExpectedBuses(buses, readings)[b] == ExpectedDevices(buses[b], readings[b])
    decreases b
  {
    if b > 0 {
      assert BusReadingsFit(buses[1..], readings[1..]) by {
        assert forall k | 0 <= k < |buses| - 1 :: buses[1..][k] == buses[k + 1] && readings[1..][k] == readings[k + 1];
      }
      ExpectedBusesAt(buses[1..], readings[1..], b - 1);
    }
  }

  /**
    Quadrature positions accumulate: two frames with steps d1 and d2 leave the position the
    last one plus both steps, wrapped to a Java `int` once.
   */
  lemma QuadratureAccumulates(last: PosVel, c1: Count, c2: Count)
    requires c1.position < 0x1_0000 && c1.velocity < 0x1_0000_0000
    requires c2.position < 0x1_0000 && c2.velocity < 0x1_0000_0000
    ensures ExpectedEncoder(Quadrature, c2, ExpectedEncoder(Quadrature, c1, last)).position
      == Int32(last.position + Signed16(c1.position) + Signed16(c2.position))
  {
    Int32Add(last.position + Signed16(c1.position), Signed16(c2.position));
  }

  /**
    How far a quadrature port's samples move it: the sum of their signed 16-bit steps, before
    any wrap-around.
   */
  function Travel(samples: seq<Sample>, i: nat): int
    requires forall k | 0 <= k < |samples| :: i < |samples[k].counts| && CountsFit(samples[k].counts)
    decreases |samples|
  {
    if |samples| == 0 then 0
    else
      assert CountsFit(samples[0].counts);
      assert forall k | 0 <= k < |samples| - 1 :: samples[1..][k] == samples[k + 1];
      Signed16(samples[0].counts[i].position) + Travel(samples[1..], i)
  }

  // The frame depends on the kinds of the configured devices, not on their last readings.

  lemma {:induction false} DeviceReadingsBitsKinds(d1: seq<Device>, d2: seq<Device>, readings: seq<Reading>)
    requires InitFrame.Kinds(d1) == InitFrame.Kinds(d2) && ReadingsFit(d1, readings)
    ensures ReadingsFit(d2, readings) && DevicesWidth(d2) == DevicesWidth(d1)
    ensures DeviceReadingsBits(d2, readings) == DeviceReadingsBits(d1, readings)
    decreases |d1|
  {
    assert forall j | 0 <= j < |d1| :: d1[j].kind == InitFrame.Kinds(d1)[j] == d2[j].kind;
    if |d1| > 0 {
      assert InitFrame.Kinds(d1[1..]) == InitFrame.Kinds(d2[1..]) by {
        assert InitFrame.Kinds(d1[1..]) == InitFrame.Kinds(d1)[1..];
        assert InitFrame.Kinds(d2[1..]) == InitFrame.Kinds(d2)[1..];
      }
      assert ReadingsFit(d1[1..], readings[1..]) by {
        assert forall j | 0 <= j < |d1| - 1 :: d1[1..][j] == d1[j + 1] && readings[1..][j] == readings[j + 1];
      }
      DeviceReadingsBitsKinds(d1[1..], d2[1..], readings[1..]);
    }
  }

  lemma {:induction false} BusReadingsBitsKinds(b1: seq<seq<Device>>, b2: seq<seq<Device>>, readings: seq<seq<Reading>>)
    requires InitFrame.BusKinds(b1) == InitFrame.BusKinds(b2) && BusReadingsFit(b1, readings)
    ensures BusReadingsFit(b2, readings) && BusesWidth(b2) == BusesWidth(b1)
    ensures BusReadingsBits(b2, readings) == BusReadingsBits(b1, readings)
    decreases |b1|
  {
    BusReadingsFitKinds(b1, b2, readings);
    if |b1| > 0 {
      BusKindsCons(b1, b2);
      DeviceReadingsBitsKinds(b1[0], b2[0], readings[0]);
      BusReadingsBitsCons(b1, readings);
      BusReadingsBitsCons(b2, readings);
      BusReadingsBitsKinds(b1[1..], b2[1..], readings[1..]);
    }
  }

  lemma BusReadingsFitKinds(b1: seq<seq<Device>>, b2: seq<seq<Device>>, readings: seq<seq<Reading>>)
    requires InitFrame.BusKinds(b1) == InitFrame.BusKinds(b2) && BusReadingsFit(b1, readings)
    ensures BusReadingsFit(b2, readings)
  {
    forall b | 0 <= b < |b1|
      ensures ReadingsFit(b2[b], readings[b])
    {
      assert InitFrame.Kinds(b1[b]) == InitFrame.BusKinds(b1)[b] == InitFrame.Kinds(b2[b]);
      DeviceReadingsBitsKinds(b1[b], b2[b], readings[b]);
    }
  }

  lemma BusKindsCons(b1: seq<seq<Device>>, b2: seq<seq<Device>>)
    requires InitFrame.BusKinds(b1) == InitFrame.BusKinds(b2) && |b1| > 0
    ensures InitFrame.Kinds(b1[0]) == InitFrame.Kinds(b2[0])
    ensures InitFrame.BusKinds(b1[1..]) == InitFrame.BusKinds(b2[1..])
  {
    assert InitFrame.Kinds(b1[0]) == InitFrame.BusKinds(b1)[0];
    assert InitFrame.Kinds(b2[0]) == InitFrame.BusKinds(b2)[0];
    assert forall b | 0 <= b < |b1| - 1 :: b1[1..][b] == b1[b + 1] && b2[1..][b] == b2[b + 1];
    assert forall b | 0 <= b < |b1| - 1 :: InitFrame.BusKinds(b1[1..])[b] == InitFrame.BusKinds(b2[1..])[b];
  }

  /** Two configurations with the same pins, ports and device kinds get the same frame for a sample. */
  lemma FrameDependsOnKinds(c1: Config, c2: Config, s: Sample)
    requires c1.pins == c2.pins && c1.encoders == c2.encoders
    requires InitFrame.BusKinds(c1.buses) == InitFrame.BusKinds(c2.buses) && SampleFits(c1, s)
    ensures SampleFits(c2, s) && TelemetryFrame(c2, s) == TelemetryFrame(c1, s)
  {
    BusReadingsBitsKinds(c1.buses, c2.buses, s.readings);
    assert Payload(c2, s) == Payload(c1, s);
  }

  /** Fresh readings change no device's kind. */
  lemma ExpectedBusesKinds(buses: seq<seq<Device>>, readings: seq<seq<Reading>>)
    requires BusReadingsFit(buses, readings)
    ensures InitFrame.BusKinds(ExpectedBuses(buses, readings)) == InitFrame.BusKinds(buses)
  {
    var after := ExpectedBuses(buses, readings);
    forall b | 0 <= b < |buses|
      ensures InitFrame.BusKinds(after)[b] == InitFrame.BusKinds(buses)[b]
    {
      ExpectedBusesAt(buses, readings, b);
      forall j | 0 <= j < |buses[b]|
        ensures after[b][j].kind == buses[b][j].kind
      {
        ExpectedDevicesAt(buses[b], readings[b], j);
      }
    }
  }
}
