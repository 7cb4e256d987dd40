/**
  The initialisation frame `init` writes to the INIT register: the configuration announced to the
  hub as a bit string, least significant bit first. It holds a 2-bit code per pin, a 2-bit code per
  encoder port, and per bus a 16-bit length followed by each device's 4-bit tag and configuration
  bits. `Decode` is what the hub makes of such a frame; it recovers the whole configuration.
 */
module InitFrame {
  import opened Bits
  import opened Errors
  import opened Devices
  import opened HubConfig

  const BitsPerPin := 2
  const BitsPerEncoder := 2
  const BusHeaderBits := 16
  const TagBits := 4

  /** The pin codes in pin order. */
  function PinBits(pins: seq<PinDevice>): (r: seq<bool>)
    ensures |r| == BitsPerPin * |pins|
  {
    if |pins| == 0 then [] else LsbBits(pins[0].Code(), BitsPerPin) + PinBits(pins[1..])
  }

  /** The encoder codes in port order. */
  function EncoderBits(encoders: seq<EncoderMode>): (r: seq<bool>)
    ensures |r| == BitsPerEncoder * |encoders|
  {
    if |encoders| == 0 then [] else LsbBits(encoders[0].Code(), BitsPerEncoder) + EncoderBits(encoders[1..])
  }

  /** A device's announcement: its tag, then its configuration bits. */
  function DeviceBits(k: DeviceKind): (r: seq<bool>)
    ensures |r| == TagBits + k.InitLength()
  {
    LsbBits(k.Tag(), TagBits) + k.ConfigBits()
  }

  /** `busLengths[i]`: the bits the devices of a bus take in the frame, not counting the header. */
  function BusLength(devs: seq<Device>): nat
  {
    if |devs| == 0 then 0 else TagBits + devs[0].kind.InitLength() + BusLength(devs[1..])
  }

  /** The devices of a bus in the order they were added. */
  function DevicesBits(devs: seq<Device>): (r: seq<bool>)
    ensures |r| == BusLength(devs)
  {
    if |devs| == 0 then [] else DeviceBits(devs[0].kind) + DevicesBits(devs[1..])
  }

  /** A bus: the low 16 bits of its length, then its devices. */
  function BusBits(devs: seq<Device>): (r: seq<bool>)
    ensures |r| == BusHeaderBits + BusLength(devs)
  {
    LsbBits(BusLength(devs), BusHeaderBits) + DevicesBits(devs)
  }

  function BusLengths(buses: seq<seq<Device>>): nat
  {
    if |buses| == 0 then 0 else BusLength(buses[0]) + BusLengths(buses[1..])
  }

  function BusesBits(buses: seq<seq<Device>>): (r: seq<bool>)
    ensures |r| == BusHeaderBits * |buses| + BusLengths(buses)
  {
    if |buses| == 0 then [] else BusBits(buses[0]) + BusesBits(buses[1..])
  }

  /** `initLength`: two bits per pin and per port, 16 per bus, and the buses' lengths. */
  function InitLength(c: Config): nat
  {
    BitsPerPin * |c.pins| + BitsPerEncoder * |c.encoders| + BusHeaderBits * |c.buses| + BusLengths(c.buses)
  }

  /** The `init` bit set, in the order the three loops of `init` fill it. */
  function InitBits(c: Config): (r: seq<bool>)
    ensures |r| == InitLength(c)
  {
    PinBits(c.pins) + (EncoderBits(c.encoders) + BusesBits(c.buses))
  }

  /**
    `data`: the bit set as `(initLength + 7) / 8` bytes. `toByteArray` drops trailing zero bytes
    and the copy into the zeroed array restores them, so the last byte is padded with zero bits.
   */
  function InitData(c: Config): (r: seq<byte>)
    ensures |r| == (InitLength(c) + 7) / 8
    ensures FromBytes(r) == InitBits(c) + Zeros(8 * ((InitLength(c) + 7) / 8) - InitLength(c))
  {
    FromBytesToBytes(InitBits(c));
    ToBytes(InitBits(c))
  }

  /** The configuration as the hub sees it: the device classes and arguments, not their readings. */
  datatype Announcement = Announcement(pins: seq<PinDevice>, encoders: seq<EncoderMode>,
                                       buses: seq<seq<DeviceKind>>)

  function Kinds(devs: seq<Device>): (r: seq<DeviceKind>)
    ensures |r| == |devs| && forall i | 0 <= i < |devs| :: r[i] == devs[i].kind
  {
    seq(|devs|, i requires 0 <= i < |devs| => devs[i].kind)
  }

  function BusKinds(buses: seq<seq<Device>>): (r: seq<seq<DeviceKind>>)
    ensures |r| == |buses| && forall b | 0 <= b < |buses| :: r[b] == Kinds(buses[b])
  {
    if |buses| == 0 then [] else [Kinds(buses[0])] + BusKinds(buses[1..])
  }

  function Announced(c: Config): Announcement
  {
    Announcement(c.pins, c.encoders, BusKinds(c.buses))
  }

  /** How many configuration bits follow a tag; tags above 3 name no device. */
  function InitLengthOfTag(tag: nat): Option<nat>
  {
    if tag == 0 || tag == 2 then Some(0) else if tag == 1 then Some(1)
    else if tag == 3 then Some(98) else None
  }

  function DecodePins(bits: seq<bool>, pos: nat, n: nat): Option<seq<PinDevice>>
    decreases n
  {
    if n == 0 then Some([])
    else match (PinDeviceOf(Field(bits, pos, BitsPerPin)), DecodePins(bits, pos + BitsPerPin, n - 1))
      case (Some(p), Some(rest)) => Some([p] + rest)
      case _ => None
  }

  function DecodeEncoders(bits: seq<bool>, pos: nat, n: nat): Option<seq<EncoderMode>>
    decreases n
  {
    if n == 0 then Some([])
    else match (EncoderModeOf(Field(bits, pos, BitsPerEncoder)), DecodeEncoders(bits, pos + BitsPerEncoder, n - 1))
      case (Some(e), Some(rest)) => Some([e] + rest)
      case _ => None
  }

  /** The devices announced in the `remaining` bits from `pos`, which they must fill exactly. */
  function DecodeDevices(bits: seq<bool>, pos: nat, remaining: nat): Option<seq<DeviceKind>>
    decreases remaining
  {
    if remaining == 0 then Some([])
    else
      var tag := Field(bits, pos, TagBits);
      match InitLengthOfTag(tag)
      case None => None
      case Some(len) =>
        if remaining < TagBits + len then None
        else match (KindOf(tag, Range(bits, pos + TagBits, len)),
                    DecodeDevices(bits, pos + TagBits + len, remaining - TagBits - len))
          case (Some(k), Some(rest)) => Some([k] + rest)
          case _ => None
  }

  function DecodeBuses(bits: seq<bool>, pos: nat, n: nat): Option<seq<seq<DeviceKind>>>
    decreases n
  {
    if n == 0 then Some([])
    else
      var len := Field(bits, pos, BusHeaderBits);
      match (DecodeDevices(bits, pos + BusHeaderBits, len), DecodeBuses(bits, pos + BusHeaderBits + len, n - 1))
      case (Some(devs), Some(rest)) => Some([devs] + rest)
      case _ => None
  }

  /** The hub's reading of an initialisation frame. */
  function Decode(data: seq<byte>): Option<Announcement>
  {
    var bits := FromBytes(data);
    var encodersAt := BitsPerPin * PinCount;
    var busesAt := encodersAt + BitsPerEncoder * EncoderCount;
    match (DecodePins(bits, 0, PinCount), DecodeEncoders(bits, encodersAt, EncoderCount),
           DecodeBuses(bits, busesAt, BusCount))
    case (Some(pins), Some(encoders), Some(buses)) => Some(Announcement(pins, encoders, buses))
    case _ => None
  }

  lemma {:induction false} DecodePinsWindow(bits: seq<bool>, pos: nat, pins: seq<PinDevice>)
    requires Range(bits, pos, |PinBits(pins)|) == PinBits(pins)
    ensures DecodePins(bits, pos, |pins|) == Some(pins)
    decreases |pins|
  {
    if |pins| > 0 {
      var head := LsbBits(pins[0].Code(), BitsPerPin);
      WindowSplit(bits, pos, |PinBits(pins)|, head, PinBits(pins[1..]), pos + BitsPerPin);
      WindowField(bits, pos, pins[0].Code(), BitsPerPin);
      CodesRoundTrip(pins[0], NoEncoder);
      DecodePinsWindow(bits, pos + BitsPerPin, pins[1..]);
      assert [pins[0]] + pins[1..] == pins;
    }
  }

  lemma {:induction false} DecodeEncodersWindow(bits: seq<bool>, pos: nat, encoders: seq<EncoderMode>)
    requires Range(bits, pos, |EncoderBits(encoders)|) == EncoderBits(encoders)
    ensures DecodeEncoders(bits, pos, |encoders|) == Some(encoders)
    decreases |encoders|
  {
    if |encoders| > 0 {
      var head := LsbBits(encoders[0].Code(), BitsPerEncoder);
      WindowSplit(bits, pos, |EncoderBits(encoders)|, head, EncoderBits(encoders[1..]), pos + BitsPerEncoder);
      WindowField(bits, pos, encoders[0].Code(), BitsPerEncoder);
      CodesRoundTrip(NoPinDevice, encoders[0]);
      DecodeEncodersWindow(bits, pos + BitsPerEncoder, encoders[1..]);
      assert [encoders[0]] + encoders[1..] == encoders;
    }
  }

  /** How the hub reads one device's announcement from a window that holds it. */
  lemma DeviceWindow(bits: seq<bool>, pos: nat, k: DeviceKind)
    requires Range(bits, pos, TagBits + k.InitLength()) == DeviceBits(k)
    ensures Field(bits, pos, TagBits) == k.Tag()
    ensures InitLengthOfTag(k.Tag()) == Some(k.InitLength())
    ensures KindOf(k.Tag(), Range(bits, pos + TagBits, k.InitLength())) == Some(k)
  {
    WindowSplit(bits, pos, TagBits + k.InitLength(), LsbBits(k.Tag(), TagBits), k.ConfigBits(), pos + TagBits);
    WindowField(bits, pos, k.Tag(), TagBits);
    KindOfConfigBits(k);
  }

  /** One step of `DecodeDevices`: a tag, the configuration bits it calls for, then the rest. */
  lemma DecodeDevicesCons(bits: seq<bool>, pos: nat, remaining: nat, tag: nat, len: nat, k: DeviceKind,
                          next: nat, rem: nat, rest: seq<DeviceKind>)
    requires tag == Field(bits, pos, TagBits) && InitLengthOfTag(tag) == Some(len)
    requires remaining == TagBits + len + rem && KindOf(tag, Range(bits, pos + TagBits, len)) == Some(k)
    requires next == pos + TagBits + len && DecodeDevices(bits, next, rem) == Some(rest)
    ensures DecodeDevices(bits, pos, remaining) == Some([k] + rest)
  {
  }

  lemma {:induction false} DecodeDevicesWindow(bits: seq<bool>, pos: nat, devs: seq<Device>)
    requires Range(bits, pos, BusLength(devs)) == DevicesBits(devs)
    ensures DecodeDevices(bits, pos, BusLength(devs)) == Some(Kinds(devs))
    decreases |devs|
  {
    if |devs| > 0 {
      var k := devs[0].kind;
      var next := pos + TagBits + k.InitLength();
      WindowSplit(bits, pos, BusLength(devs), DeviceBits(k), DevicesBits(devs[1..]), next);
      DeviceWindow(bits, pos, k);
      DecodeDevicesWindow(bits, next, devs[1..]);
      DecodeDevicesCons(bits, pos, BusLength(devs), k.Tag(), k.InitLength(), k, next, BusLength(devs[1..]),
                        Kinds(devs[1..]));
      assert Kinds(devs) == [k] + Kinds(devs[1..]);
    }
  }

  /** Every announcement fits its 4-bit tag and configuration bits in 102 bits. */
  lemma {:induction false} BusLengthBound(devs: seq<Device>)
    ensures BusLength(devs) <= 102 * |devs|
    decreases |devs|
  {
    if |devs| > 0 {
      BusLengthBound(devs[1..]);
    }
  }

  /** How the hub reads one bus from a window that holds it: the header, then the devices. */
  lemma BusWindow(bits: seq<bool>, pos: nat, devs: seq<Device>)
    requires BusLength(devs) < 0x1_0000
    requires Range(bits, pos, BusHeaderBits + BusLength(devs)) == BusBits(devs)
    ensures Field(bits, pos, BusHeaderBits) == BusLength(devs)
    ensures DecodeDevices(bits, pos + BusHeaderBits, BusLength(devs)) == Some(Kinds(devs))
  {
    BusHeaderWindow(bits, pos, devs);
    DecodeDevicesWindow(bits, pos + BusHeaderBits, devs);
  }

  lemma BusHeaderWindow(bits: seq<bool>, pos: nat, devs: seq<Device>)
    requires BusLength(devs) < 0x1_0000
    requires Range(bits, pos, BusHeaderBits + BusLength(devs)) == BusBits(devs)
    ensures Field(bits, pos, BusHeaderBits) == BusLength(devs)
    ensures Range(bits, pos + BusHeaderBits, BusLength(devs)) == DevicesBits(devs)
  {
    var len := BusLength(devs);
    WindowSplit(bits, pos, BusHeaderBits + len, LsbBits(len, BusHeaderBits), DevicesBits(devs), pos + BusHeaderBits);
    Pow2Values();
    WindowField(bits, pos, len, BusHeaderBits);
  }

  /** One step of `DecodeBuses`: a header, the devices it spans, then the remaining buses. */
  lemma DecodeBusesCons(bits: seq<bool>, pos: nat, n: nat, len: nat, devs: seq<DeviceKind>,
                        next: nat, m: nat, rest: seq<seq<DeviceKind>>)
    requires n > 0 && Field(bits, pos, BusHeaderBits) == len
    requires DecodeDevices(bits, pos + BusHeaderBits, len) == Some(devs)
    requires next == pos + BusHeaderBits + len && m == n - 1 && DecodeBuses(bits, next, m) == Some(rest)
    ensures DecodeBuses(bits, pos, n) == Some([devs] + rest)
  {
  }

  /** The window of several buses starts with the first bus, and the rest follow it. */
  lemma BusesWindowStep(bits: seq<bool>, pos: nat, next: nat, buses: seq<seq<Device>>)
    requires |buses| > 0 && BusLength(buses[0]) < 0x1_0000
    requires next == pos + BusHeaderBits + BusLength(buses[0])
    requires Range(bits, pos, |BusesBits(buses)|) == BusesBits(buses)
    ensures Field(bits, pos, BusHeaderBits) == BusLength(buses[0])
    ensures DecodeDevices(bits, pos + BusHeaderBits, BusLength(buses[0])) == Some(Kinds(buses[0]))
    ensures Range(bits, next, |BusesBits(buses[1..])|) == BusesBits(buses[1..])
  {
    var a, b := BusBits(buses[0]), BusesBits(buses[1..]);
    assert Range(bits, pos, |BusesBits(buses)|) == a + b;
    WindowSplit(bits, pos, |BusesBits(buses)|, a, b, next);
    BusWindow(bits, pos, buses[0]);
  }

  lemma {:induction false} DecodeBusesWindow(bits: seq<bool>, pos: nat, buses: seq<seq<Device>>)
    requires forall b | 0 <= b < |buses| :: BusLength(buses[b]) < 0x1_0000
    requires Range(bits, pos, |BusesBits(buses)|) == BusesBits(buses)
    ensures DecodeBuses(bits, pos, |buses|) == Some(BusKinds(buses))
    decreases |buses|
  {
    if |buses| > 0 {
      var devs, tail := buses[0], buses[1..];
      var next := pos + BusHeaderBits + BusLength(devs);
      BusesWindowStep(bits, pos, next, buses);
      assert forall b | 0 <= b < |tail| :: BusLength(tail[b]) < 0x1_0000 by {
        assert forall b | 0 <= b < |tail| :: tail[b] == buses[b + 1];
      }
      DecodeBusesWindow(bits, next, tail);
      DecodeBusesCons(bits, pos, |buses|, BusLength(devs), Kinds(devs), next, |tail|, BusKinds(tail));
    }
  }

  /** The buses of a valid configuration are short enough for their 16-bit headers. */
  lemma ValidBusLengths(c: Config)
    requires c.Valid()
    ensures forall b | 0 <= b < |c.buses| :: BusLength(c.buses[b]) < 0x1_0000
  {
    forall b | 0 <= b < |c.buses|
      ensures BusLength(c.buses[b]) < 0x1_0000
    {
      BusCapacity(c.buses[b]);
      BusLengthBound(c.buses[b]);
    }
  }

  /** Where the pins, the encoder ports and the buses sit in a well-formed configuration's frame. */
  lemma InitWindows(c: Config)
    requires c.WellFormed()
    ensures Range(FromBytes(InitData(c)), 0, |PinBits(c.pins)|) == PinBits(c.pins)
    ensures Range(FromBytes(InitData(c)), 24, |EncoderBits(c.encoders)|) == EncoderBits(c.encoders)
    ensures Range(FromBytes(InitData(c)), 36, |BusesBits(c.buses)|) == BusesBits(c.buses)
  {
    var bits := FromBytes(InitData(c));
    var rest := EncoderBits(c.encoders) + BusesBits(c.buses);
    WindowOfPadded(InitBits(c), Zeros(8 * ((InitLength(c) + 7) / 8) - InitLength(c)));
    WindowSplit(bits, 0, InitLength(c), PinBits(c.pins), rest, 24);
    WindowSplit(bits, 24, |rest|, EncoderBits(c.encoders), BusesBits(c.buses), 36);
  }

  /**
    The hub recovers the whole configuration from the frame `init` writes: every pin and encoder
    mode, and every device of every bus, in order, with its constructor arguments.
   */
  lemma DecodeInitData(c: Config)
    requires c.Valid()
    ensures Decode(InitData(c)) == Some(Announced(c))
  {
    var bits := FromBytes(InitData(c));
    InitWindows(c);
    DecodePinsWindow(bits, 0, c.pins);
    DecodeEncodersWindow(bits, 24, c.encoders);
    ValidBusLengths(c);
    DecodeBusesWindow(bits, 36, c.buses);
  }
}
