/**
  The driver object itself: the configuration it was initialised with, the values the last
  good telemetry frame left behind, the `ready` and `disconnected` flags, and the writes it has
  sent to the hub's registers. Every bus transfer is a parameter: `init` is given the bytes the
  DEVICE_INFO read returns and the bytes its closing `update` reads; `update` is given the bytes
  the READ returns. A call that throws in Java returns here the state at the throw together with
  the error.
 */
module Session {
  import opened Bits
  import opened Errors
  import opened Devices
  import opened HubConfig
  import opened Crc16
  import opened InitFrame
  import opened Telemetry

  /** The 7-bit I2C address the driver talks to. */
  const HubAddress := 0x57
  /** The firmware version the driver accepts, and only that one. */
  const MajorVersion := 1
  const MinorVersion := 1
  const PatchVersion := 1

  /** The hub's registers. DEVICE_INFO is read as 4 bytes and RESTART written as 1 byte. */
  datatype Register = DeviceInfoRegister | RestartRegister | InitRegister | ReadRegister
  {
    function Address(): byte
    {
      match this
      case DeviceInfoRegister => 0x00
      case RestartRegister => 0x01
      case InitRegister => 0x02
      case ReadRegister => 0x03
    }
  }

  /** A write the driver sent: the register and the bytes. */
  datatype Write = Write(register: Register, data: seq<byte>)

  /** The four bytes of DEVICE_INFO: identity byte, then major, minor and patch version. */
  datatype DeviceInfo = DeviceInfo(id: byte, major: byte, minor: byte, patch: byte)

  /** A Java `byte` read as an `int`: sign-extended. */
  function SignedByte(b: byte): (r: int)
    ensures -128 <= r < 128 && r % 256 == b as int % 256
  {
    if b < 0x80 then b as int else b as int - 256
  }

  predicate VersionMatches(info: DeviceInfo)
  {
    SignedByte(info.major) == MajorVersion && SignedByte(info.minor) == MinorVersion
    && SignedByte(info.patch) == PatchVersion
  }

  datatype Hub = Hub(config: Option<Config>, analog: seq<real>, encoders: seq<PosVel>, ready: bool,
                     disconnected: bool, initialized: bool, updateLength: int, writes: seq<Write>)
  {
    /**
      What the driver maintains: twelve pin values and six encoder values; a configuration, once
      there, locked and valid; every pin value in [0, 1], and 0 or 1 on a digital pin.
     */
    predicate Valid()
    {
      && |analog| == PinCount && |encoders| == EncoderCount
      && (config.Some? ==> config.value.Valid() && config.value.locked)
      && (forall i | 0 <= i < PinCount :: 0.0 <= analog[i] <= 1.0)
      && (config.Some? ==> forall i | 0 <= i < PinCount && config.value.pins[i] == Digital ::
            analog[i] == 0.0 || analog[i] == 1.0)
    }
  }

  /** What a call leaves behind: the new state, and the error if the Java call throws. */
  datatype Outcome = Outcome(hub: Hub, failure: Option<HubError>)

  function NoValues(): (r: seq<real>)
    ensures |r| == PinCount && forall i | 0 <= i < PinCount :: r[i] == 0.0
  {
    seq(PinCount, _ => 0.0)
  }

  function NoMotion(): (r: seq<PosVel>)
    ensures |r| == EncoderCount && forall j | 0 <= j < EncoderCount :: r[j] == PosVel(0, 0)
  {
    seq(EncoderCount, _ => PosVel(0, 0))
  }

  /** A freshly constructed driver: no configuration, `updateLength` 8, both flags clear. */
  function NewHub(): (h: Hub)
    ensures h.Valid() && h.config.None? && !h.ready && !h.disconnected && !h.initialized
    ensures h.writes == []
  {
    Hub(None, NoValues(), NoMotion(), false, false, false, 8, [])
  }

  /**
    `verifyInitialization`: only while not yet initialised, look at DEVICE_INFO. Another device
    marks the hub disconnected without failing; the hub with other firmware fails; the hub with
    the expected firmware counts as initialised.
   */
  function VerifyInitialization(h: Hub, info: DeviceInfo): (r: Outcome)
    ensures r.failure.Some? <==> !h.initialized && info.id == DeviceId && !VersionMatches(info)
    ensures r.failure.Some? ==> r.hub == h
    ensures r.failure.Some? ==>
      r.failure.value == FirmwareMismatch(SignedByte(info.major), SignedByte(info.minor), SignedByte(info.patch))
    ensures r.failure.None? ==> r.hub.initialized == (h.initialized || info.id == DeviceId)
    ensures r.failure.None? ==> r.hub.disconnected == (h.disconnected || (!h.initialized && info.id != DeviceId))
    ensures r.hub.(initialized := h.initialized, disconnected := h.disconnected) == h
  {
    if h.initialized then Outcome(h, None)
    else if info.id != DeviceId then Outcome(h.(disconnected := true), None)
    else if !VersionMatches(info) then
      Outcome(h, Some(FirmwareMismatch(SignedByte(info.major), SignedByte(info.minor), SignedByte(info.patch))))
    else Outcome(h.(initialized := true), None)
  }

  /** `doInitialize`: forget any earlier identification and verify again. */
  function DoInitialize(h: Hub, info: DeviceInfo): (r: Outcome)
    ensures r.failure.None? ==> r.hub.initialized == (info.id == DeviceId)
    ensures r.failure.Some? <==> info.id == DeviceId && !VersionMatches(info)
  {
    VerifyInitialization(h.(initialized := false), info)
  }

  /**
    The walk of a good frame applied to the driver: the `disconnected` flag cleared and every
    value refreshed. The invariant survives: the walk keeps the devices and gives each a reading
    the hub could have sent, and a pin's value stays in [0, 1], 0 or 1 if it is digital.
   */
  function Refreshed(h: Hub, bits: seq<bool>): (r: Hub)
    requires h.Valid() && h.config.Some?
    ensures r.Valid() && !r.disconnected && r.config.Some?
    ensures r == h.(disconnected := false, analog := r.analog, encoders := r.encoders, config := r.config)
    ensures r.config.value == h.config.value.(buses := r.config.value.buses)
  {
    var c := h.config.value;
    var busesAt := BusesAt(c);
    WalkPins(c, bits, h.analog, h.encoders);
    WalkBuses(c, bits, h.analog, h.encoders);
    ReadPinsRange(bits, HeaderBits, c.pins, h.analog);
    ReadBusesKeepValid(bits, busesAt, c.buses);
    var w := Walk(c, bits, h.analog, h.encoders);
    h.(disconnected := false, analog := w.analog, encoders := w.encoders, config := Some(c.(buses := w.buses)))
  }

  /**
    `update`: bulk-read a frame. Without a configuration it fails; an empty frame or one that does
    not start with the identity byte only marks the hub disconnected; a one-byte frame fails on
    the CRC read; a frame whose CRC does not match is ignored, leaving even the `disconnected`
    flag as it was; a good frame clears the flag and refreshes every value in walk order.
   */
  function Update(h: Hub, raw: seq<byte>): (r: Outcome)
    requires h.Valid()
    ensures r.hub.Valid()
    ensures h.config.None? ==> r == Outcome(h, Some(NotInitialized))
    ensures h.config.Some? && (|raw| == 0 || raw[0] != DeviceId) ==> r == Outcome(h.(disconnected := true), None)
    ensures h.config.Some? && |raw| == 1 && raw[0] == DeviceId ==> r == Outcome(h, Some(FrameTooShort))
    ensures h.config.Some? && |raw| >= 2 && raw[0] == DeviceId && !CrcMatches(raw) ==> r == Outcome(h, None)
    ensures h.config.Some? && |raw| >= 2 && raw[0] == DeviceId && CrcMatches(raw) ==>
      r.failure.None? && !r.hub.disconnected && r.hub.config.Some?
      && r.hub == h.(disconnected := false, analog := r.hub.analog, encoders := r.hub.encoders, config := r.hub.config)
      && r.hub.config.value == h.config.value.(buses := r.hub.config.value.buses)
  {
    match h.config
    case None => Outcome(h, Some(NotInitialized))
    case Some(c) =>
      if |raw| == 0 || raw[0] != DeviceId then Outcome(h.(disconnected := true), None)
      else if |raw| == 1 then Outcome(h, Some(FrameTooShort))
      else if !CrcMatches(raw) then Outcome(h, None)
      else Outcome(Refreshed(h, FromBytes(raw)), None)
  }

  /**
    The first steps of `init(config)`: lock the configuration and adopt it, clear both flags,
    RESTART the hub, forget the identification, zero every value, and store the telemetry frame
    length.
   */
  function Restarted(h: Hub, c: Config): (r: Hub)
    requires c.Valid()
    ensures r.Valid() && r.config == Some(Lock(c)) && !r.ready && !r.disconnected && !r.initialized
    ensures r.analog == NoValues() && r.encoders == NoMotion() && r.updateLength == FrameLength(c)
    ensures r.writes == h.writes + [Write(RestartRegister, [0])]
  {
    Hub(Some(Lock(c)), NoValues(), NoMotion(), false, false, false, FrameLength(c),
        h.writes + [Write(RestartRegister, [0])])
  }

  /**
    The last steps of `init`: verify the hub, write the initialisation frame to INIT, run one
    `update`, and only then report ready.
   */
  function Handshake(h: Hub, info: DeviceInfo, data: seq<byte>, raw: seq<byte>): (r: Outcome)
    requires h.Valid() && h.config.Some? && !h.ready
    ensures r.hub.config.Some? && r.hub.config.value.locked
    ensures r.hub.config.value.pins == h.config.value.pins && r.hub.config.value.encoders == h.config.value.encoders
    ensures r.hub.updateLength == h.updateLength
    ensures r.failure.None? <==> r.hub.ready
    ensures r.hub.Valid()
  {
    var verified := VerifyInitialization(h, info);
    if verified.failure.Some? then verified
    else
      var sent := verified.hub.(writes := verified.hub.writes + [Write(InitRegister, data)]);
      var updated := Update(sent, raw);
      if updated.failure.Some? then updated
      else Outcome(updated.hub.(ready := true), None)
  }

  /**
    `init(config)`: the restart steps, then a failure if the telemetry frame would exceed 100
    bytes, then the handshake. A failure leaves everything done before it in place.
   */
  function Init(h: Hub, c: Config, info: DeviceInfo, raw: seq<byte>): (r: Outcome)
    requires h.Valid() && c.Valid()
    ensures r.hub.Valid() && r.hub.config.Some? && r.hub.config.value.locked
    ensures r.hub.config.value.pins == c.pins && r.hub.config.value.encoders == c.encoders
    ensures r.hub.updateLength == FrameLength(c)
    ensures r.failure == Some(BulkReadTooLong) <==> FrameLength(c) > MaxFrameLength
    ensures r.hub.ready <==> r.failure.None?
  {
    var restarted := Restarted(h, c);
    if FrameLength(c) > MaxFrameLength then Outcome(restarted, Some(BulkReadTooLong))
    else Handshake(restarted, info, InitData(c), raw)
  }

  /**
    `init` locks the configuration it is given, whatever happens after the lock: the copy the
    driver keeps, which is the one every later call sees, rejects every pin, port and device
    change, reporting the lock for an argument in range and the range error otherwise.
   */
  lemma InitLocksConfig(h: Hub, c: Config, info: DeviceInfo, raw: seq<byte>, n: int, p: PinDevice, e: EncoderMode,
                        kind: DeviceKind)
    requires h.Valid() && c.Valid()
    ensures Init(h, c, info, raw).hub.config.Some?
    ensures SetAnalogDigitalDevice(Init(h, c, info, raw).hub.config.value, n, p)
      == Err(if 1 <= n <= PinCount then ConfigLocked else PinOutOfRange)
    ensures SetEncoder(Init(h, c, info, raw).hub.config.value, n, e)
      == Err(if 1 <= n <= EncoderCount then ConfigLocked else EncoderPortOutOfRange)
    ensures AddI2CDevice(Init(h, c, info, raw).hub.config.value, n, kind)
      == Err(if 1 <= n <= BusCount then ConfigLocked else BusOutOfRange)
  {
    var kept := Init(h, c, info, raw).hub.config.value;
    LockedRejectsChanges(kept, n, p, e, kind);
  }

  /**
    Round trip: `update` on the frame the hub builds from a sample clears the `disconnected`
    flag and leaves exactly the expected values: scaled analog levels, digital bits, encoder
    counts and device readings. Nothing else changes.
   */
  lemma UpdateReadsFrame(h: Hub, c: Config, s: Sample)
    requires h.Valid() && h.config == Some(c) && SampleFits(c, s)
    ensures Update(h, TelemetryFrame(c, s)) == Outcome(h.(disconnected := false,
      analog := ExpectedPins(c.pins, s.levels, h.analog), encoders := ExpectedEncoders(c.encoders, s.counts, h.encoders),
      config := Some(c.(buses := ExpectedBuses(c.buses, s.readings)))), None)
  {
    WalkFrame(c, s, h.analog, h.encoders);
  }

  /**
    A frame damaged in any one byte after the identity byte and before the CRC is ignored
    outright: the state, `disconnected` included, stays as it was.
   */
  lemma UpdateIgnoresCorruption(h: Hub, c: Config, s: Sample, i: nat, b: byte)
    requires h.Valid() && h.config == Some(c) && SampleFits(c, s)
    requires 1 <= i < |TelemetryFrame(c, s)| - 2 && b != TelemetryFrame(c, s)[i]
    ensures Update(h, TelemetryFrame(c, s)[i := b]) == Outcome(h, None)
  {
    CorruptedByteDetected(TelemetryFrame(c, s), i, b);
  }

  /** A frame that does not come from the hub marks it disconnected and changes nothing else. */
  lemma UpdateForeignFrame(h: Hub, c: Config, s: Sample, b: byte)
    requires h.Valid() && h.config == Some(c) && SampleFits(c, s) && b != DeviceId
    ensures Update(h, TelemetryFrame(c, s)[0 := b]) == Outcome(h.(disconnected := true), None)
    ensures Update(h, []) == Outcome(h.(disconnected := true), None)
  {
  }

  /**
    A configuration whose frame would exceed 100 bytes is rejected after the RESTART and before
    anything is verified or written to INIT; the driver keeps the oversized frame length and is
    not ready.
   */
  lemma InitRejectsLongFrames(h: Hub, c: Config, info: DeviceInfo, raw: seq<byte>)
    requires h.Valid() && c.Valid() && FrameLength(c) > MaxFrameLength
    ensures Init(h, c, info, raw).failure == Some(BulkReadTooLong)
    ensures Init(h, c, info, raw).hub.writes == h.writes + [Write(RestartRegister, [0])]
    ensures !Init(h, c, info, raw).hub.ready && !Init(h, c, info, raw).hub.initialized
  {
  }

  /** A hub that reports other firmware makes `init` fail before the INIT write. */
  lemma InitRejectsFirmware(h: Hub, c: Config, info: DeviceInfo, raw: seq<byte>)
    requires h.Valid() && c.Valid() && FrameLength(c) <= MaxFrameLength
    requires info.id == DeviceId && !VersionMatches(info)
    ensures Init(h, c, info, raw).failure
      == Some(FirmwareMismatch(SignedByte(info.major), SignedByte(info.minor), SignedByte(info.patch)))
    ensures Init(h, c, info, raw).hub.writes == h.writes + [Write(RestartRegister, [0])]
    ensures !Init(h, c, info, raw).hub.ready
  {
  }

  /**
    Once the frame length fits and the firmware is not rejected, `init` writes RESTART and then
    INIT, and the hub decodes the INIT bytes back into exactly the configured pins, encoder ports
    and devices.
   */
  lemma InitAnnouncesConfig(h: Hub, c: Config, info: DeviceInfo, raw: seq<byte>)
    requires h.Valid() && c.Valid() && FrameLength(c) <= MaxFrameLength
    requires info.id != DeviceId || VersionMatches(info)
    ensures Init(h, c, info, raw).hub.writes
      == h.writes + [Write(RestartRegister, [0]), Write(InitRegister, InitData(c))]
    ensures InitFrame.Decode(Init(h, c, info, raw).hub.writes[|h.writes| + 1].data) == Some(Announced(c))
  {
    InitWrites(h, c, info, raw);
    DecodeInitData(c);
  }

  lemma InitWrites(h: Hub, c: Config, info: DeviceInfo, raw: seq<byte>)
    requires h.Valid() && c.Valid() && FrameLength(c) <= MaxFrameLength
    requires info.id != DeviceId || VersionMatches(info)
    ensures Init(h, c, info, raw).hub.writes
      == h.writes + [Write(RestartRegister, [0]), Write(InitRegister, InitData(c))]
  {
    HandshakeWrites(Restarted(h, c), info, InitData(c), raw);
  }

  /** Unless the firmware is rejected, the handshake writes the data to INIT and nothing else. */
  lemma HandshakeWrites(h: Hub, info: DeviceInfo, data: seq<byte>, raw: seq<byte>)
    requires h.Valid() && h.config.Some? && !h.ready
    requires h.initialized || info.id != DeviceId || VersionMatches(info)
    ensures Handshake(h, info, data, raw).hub.writes == h.writes + [Write(InitRegister, data)]
  {
  }

  /**
    `init` goes on when DEVICE_INFO shows another device: it still writes INIT and reports
    ready, though the hub stays unidentified and, if nothing answers the READ, disconnected.
   */
  lemma InitWithoutIdentity(h: Hub, c: Config, info: DeviceInfo)
    requires h.Valid() && c.Valid() && FrameLength(c) <= MaxFrameLength && info.id != DeviceId
    ensures Init(h, c, info, []).failure.None?
    ensures Init(h, c, info, []).hub.ready && Init(h, c, info, []).hub.disconnected
    ensures !Init(h, c, info, []).hub.initialized
  {
  }

  /**
    The normal start: the expected firmware and a good first frame leave the driver identified,
    connected and ready, every value read from that frame on top of zeroed values.
   */
  lemma InitThenReady(h: Hub, c: Config, info: DeviceInfo, s: Sample)
    requires h.Valid() && c.Valid() && FrameLength(c) <= MaxFrameLength
    requires info.id == DeviceId && VersionMatches(info) && SampleFits(c, s)
    ensures Init(h, c, info, TelemetryFrame(c, s)).failure.None?
    ensures Init(h, c, info, TelemetryFrame(c, s)).hub.ready && Init(h, c, info, TelemetryFrame(c, s)).hub.initialized
    ensures !Init(h, c, info, TelemetryFrame(c, s)).hub.disconnected
    ensures Init(h, c, info, TelemetryFrame(c, s)).hub.analog == ExpectedPins(c.pins, s.levels, NoValues())
    ensures Init(h, c, info, TelemetryFrame(c, s)).hub.encoders == ExpectedEncoders(c.encoders, s.counts, NoMotion())
  {
    FrameIgnoresLock(c, s);
    HandshakeReads(Restarted(h, c), Lock(c), info, InitData(c), s);
  }

  /** The telemetry frame depends on the configured devices, not on the lock. */
  lemma FrameIgnoresLock(c: Config, s: Sample)
    requires SampleFits(c, s)
    ensures SampleFits(Lock(c), s) && TelemetryFrame(Lock(c), s) == TelemetryFrame(c, s)
  {
    assert Payload(Lock(c), s) == Payload(c, s);
  }

  /** With the expected firmware and a good frame, the handshake ends ready with the frame's values. */
  lemma HandshakeReads(h: Hub, c: Config, info: DeviceInfo, data: seq<byte>, s: Sample)
    requires h.Valid() && h.config == Some(c) && !h.ready && info.id == DeviceId && VersionMatches(info)
    requires SampleFits(c, s)
    ensures Handshake(h, info, data, TelemetryFrame(c, s)).failure.None?
    ensures Handshake(h, info, data, TelemetryFrame(c, s)).hub == h.(initialized := true, ready := true,
      writes := h.writes + [Write(InitRegister, data)], disconnected := false,
      analog := ExpectedPins(c.pins, s.levels, h.analog), encoders := ExpectedEncoders(c.encoders, s.counts, h.encoders),
      config := Some(c.(buses := ExpectedBuses(c.buses, s.readings))))
  {
    var verified := VerifyInitialization(h, info);
    var sent := verified.hub.(writes := verified.hub.writes + [Write(InitRegister, data)]);
    UpdateReadsFrame(sent, c, s);
  }

  // The readers. Each checks its argument's range first, then that `init` has run, then that
  // the pin, port or device was configured.

  /** `readAnalogDigitalDevice(pin)`: pins are numbered from 1. */
  function ReadAnalogDigitalDevice(h: Hub, pin: int): (r: Result<real>)
    requires h.Valid()
    ensures r.Ok? <==> 1 <= pin <= PinCount && h.config.Some? && h.config.value.pins[pin - 1] != NoPinDevice
    ensures !(1 <= pin <= PinCount) ==> r == Err(PinOutOfRange)
    ensures 1 <= pin <= PinCount && h.config.None? ==> r == Err(NotInitialized)
    ensures 1 <= pin <= PinCount && h.config.Some? && h.config.value.pins[pin - 1] == NoPinDevice ==>
      r == Err(PinNotConfigured)
    ensures r.Ok? ==> r.value == h.analog[pin - 1] && 0.0 <= r.value <= 1.0
    ensures r.Ok? && h.config.value.pins[pin - 1] == Digital ==> r.value == 0.0 || r.value == 1.0
  {
    if pin < 1 || pin > PinCount then Err(PinOutOfRange)
    else if h.config.None? then Err(NotInitialized)
    else if h.config.value.pins[pin - 1] == NoPinDevice then Err(PinNotConfigured)
    else Ok(h.analog[pin - 1])
  }

  /** `readEncoder(port)`: ports are numbered from 1. */
  function ReadEncoder(h: Hub, port: int): (r: Result<PosVel>)
    requires h.Valid()
    ensures r.Ok? <==> 1 <= port <= EncoderCount && h.config.Some? && h.config.value.encoders[port - 1] != NoEncoder
    ensures !(1 <= port <= EncoderCount) ==> r == Err(EncoderPortOutOfRange)
    ensures 1 <= port <= EncoderCount && h.config.None? ==> r == Err(NotInitialized)
    ensures 1 <= port <= EncoderCount && h.config.Some? && h.config.value.encoders[port - 1] == NoEncoder ==>
      r == Err(EncoderNotConfigured)
    ensures r.Ok? ==> r.value == h.encoders[port - 1]
  {
    if port < 1 || port > EncoderCount then Err(EncoderPortOutOfRange)
    else if h.config.None? then Err(NotInitialized)
    else if h.config.value.encoders[port - 1] == NoEncoder then Err(EncoderNotConfigured)
    else Ok(h.encoders[port - 1])
  }

  /** The first device of a class on a bus, in the order the devices were added. */
  function FirstOfClass(devs: seq<Device>, cls: DeviceClass): (r: Option<nat>)
    ensures r.None? <==> forall j | 0 <= j < |devs| :: devs[j].kind.Class() != cls
    ensures r.Some? ==> r.value < |devs| && devs[r.value].kind.Class() == cls
    ensures r.Some? ==> forall j | 0 <= j < r.value :: devs[j].kind.Class() != cls
  {
    if |devs| == 0 then None
    else if devs[0].kind.Class() == cls then Some(0)
    else
      var rest := FirstOfClass(devs[1..], cls);
      assert forall j | 1 <= j < |devs| :: devs[j] == devs[1..][j - 1];
      if rest.None? then None else Some(rest.value + 1)
  }

  /** `getI2CDevice(bus, deviceClass)`: buses are numbered from 1; the first device of the class. */
  function GetI2CDevice(h: Hub, bus: int, cls: DeviceClass): (r: Result<Device>)
    requires h.Valid()
    ensures !(1 <= bus <= BusCount) ==> r == Err(BusOutOfRange)
    ensures 1 <= bus <= BusCount && h.config.None? ==> r == Err(NotInitialized)
    ensures r.Ok? <==> (1 <= bus <= BusCount && h.config.Some?
      && exists d | d in h.config.value.buses[bus - 1] :: d.kind.Class() == cls)
    ensures r.Err? && 1 <= bus <= BusCount && h.config.Some? ==> r == Err(DeviceNotConfigured)
    ensures r.Ok? ==> r.value in h.config.value.buses[bus - 1] && r.value.kind.Class() == cls
  {
    if bus < 1 || bus > BusCount then Err(BusOutOfRange)
    else if h.config.None? then Err(NotInitialized)
    else
      var devs := h.config.value.buses[bus - 1];
      match FirstOfClass(devs, cls)
      case None => Err(DeviceNotConfigured)
      case Some(j) => Ok(devs[j])
  }

  /** On a valid bus the device of a class is unique, so `getI2CDevice` finds exactly that one. */
  lemma GetI2CDeviceUnique(h: Hub, bus: int, j: nat)
    requires h.Valid() && h.config.Some? && 1 <= bus <= BusCount && j < |h.config.value.buses[bus - 1]|
    ensures GetI2CDevice(h, bus, h.config.value.buses[bus - 1][j].kind.Class()) == Ok(h.config.value.buses[bus - 1][j])
  {
    var devs := h.config.value.buses[bus - 1];
    assert BusValid(devs);
  }

  /** After a good frame, a configured pin reads the frame's level: scaled if analog, the bit if digital. */
  lemma ReadPinAfterUpdate(h: Hub, c: Config, s: Sample, pin: int)
    requires h.Valid() && h.config == Some(c) && SampleFits(c, s)
    requires 1 <= pin <= PinCount && c.pins[pin - 1] != NoPinDevice
    ensures ReadAnalogDigitalDevice(Update(h, TelemetryFrame(c, s)).hub, pin)
      == Ok(ExpectedPin(c.pins[pin - 1], s.levels[pin - 1], h.analog[pin - 1]))
  {
    UpdateReadsFrame(h, c, s);
    ReadExpectedPin(h, c, s, pin, Update(h, TelemetryFrame(c, s)).hub);
  }

  lemma ReadExpectedPin(h: Hub, c: Config, s: Sample, pin: int, after: Hub)
    requires h.Valid() && h.config == Some(c) && SampleFits(c, s)
    requires 1 <= pin <= PinCount && c.pins[pin - 1] != NoPinDevice
    requires after.Valid() && after.config.Some? && after.config.value.pins == c.pins
    requires after.analog == ExpectedPins(c.pins, s.levels, h.analog)
    ensures ReadAnalogDigitalDevice(after, pin) == Ok(ExpectedPin(c.pins[pin - 1], s.levels[pin - 1], h.analog[pin - 1]))
  {
    ExpectedPinsAt(c.pins, s.levels, h.analog, pin - 1);
  }

  /** After a good frame, a configured encoder port reads the frame's count and velocity. */
  lemma ReadEncoderAfterUpdate(h: Hub, c: Config, s: Sample, port: int)
    requires h.Valid() && h.config == Some(c) && SampleFits(c, s)
    requires 1 <= port <= EncoderCount && c.encoders[port - 1] != NoEncoder
    ensures ReadEncoder(Update(h, TelemetryFrame(c, s)).hub, port)
      == Ok(ExpectedEncoder(c.encoders[port - 1], s.counts[port - 1], h.encoders[port - 1]))
  {
    UpdateReadsFrame(h, c, s);
    ReadExpectedEncoder(h, c, s, port, Update(h, TelemetryFrame(c, s)).hub);
  }

  lemma ReadExpectedEncoder(h: Hub, c: Config, s: Sample, port: int, after: Hub)
    requires h.Valid() && h.config == Some(c) && SampleFits(c, s)
    requires 1 <= port <= EncoderCount && c.encoders[port - 1] != NoEncoder
    requires after.Valid() && after.config.Some? && after.config.value.encoders == c.encoders
    requires after.encoders == ExpectedEncoders(c.encoders, s.counts, h.encoders)
    ensures ReadEncoder(after, port) == Ok(ExpectedEncoder(c.encoders[port - 1], s.counts[port - 1], h.encoders[port - 1]))
  {
    ExpectedEncodersAt(c.encoders, s.counts, h.encoders, port - 1);
  }

  /** A run of `update` calls, the k-th reading the good frame configuration `c` gives sample k. */
  function UpdateAll(h: Hub, c: Config, samples: seq<Sample>): (r: Hub)
    requires h.Valid() && forall k | 0 <= k < |samples| :: SampleFits(c, samples[k])
    ensures r.Valid()
    ensures h.config.Some? ==>
      r.config.Some? && r.config.value.pins == h.config.value.pins && r.config.value.encoders == h.config.value.encoders
    decreases |samples|
  {
    if |samples| == 0 then h
    else UpdateAll(Update(h, TelemetryFrame(c, samples[0])).hub, c, samples[1..])
  }

  /**
    A quadrature port accumulates: after any run of good frames its position is the start
    position plus every step the frames carried, wrapped once to a Java `int`. The driver's own
    configuration may hold other readings than `c` as long as the devices are of the same kinds.
   */
  lemma {:induction false} UpdatesAccumulate(h: Hub, c: Config, samples: seq<Sample>, i: nat)
    requires h.Valid() && h.config.Some? && h.config.value.pins == c.pins && h.config.value.encoders == c.encoders
    requires BusKinds(h.config.value.buses) == BusKinds(c.buses)
    requires forall k | 0 <= k < |samples| :: SampleFits(c, samples[k])
    requires i < |c.encoders| && c.encoders[i] == Quadrature
    requires -0x8000_0000 <= h.encoders[i].position < 0x8000_0000
    ensures UpdateAll(h, c, samples).encoders[i].position == Int32(h.encoders[i].position + Travel(samples, i))
    decreases |samples|
  {
    if |samples| == 0 {
      Int32Identity(h.encoders[i].position);
    } else {
      var s, rest := samples[0], samples[1..];
      var after := UpdateAllCons(h, c, samples);
      QuadratureStep(h, c, s, i, after);
      UpdatesAccumulate(after, c, rest, i);
      TravelChain(h, after, UpdateAll(after, c, rest), s, rest, samples, i);
    }
  }

  /** The positions before, between and after the first frame of a run chain up. */
  lemma TravelChain(h: Hub, after: Hub, last: Hub, s: Sample, rest: seq<Sample>, samples: seq<Sample>, i: nat)
    requires |samples| > 0 && s == samples[0] && rest == samples[1..]
    requires forall k | 0 <= k < |samples| :: i < |samples[k].counts| && CountsFit(samples[k].counts)
    requires i < |s.counts| && CountsFit(s.counts)
    requires i < |h.encoders| && i < |after.encoders| && i < |last.encoders|
    requires after.encoders[i].position == Int32(h.encoders[i].position + Signed16(s.counts[i].position))
    requires last.encoders[i].position == Int32(after.encoders[i].position + Travel(rest, i))
    ensures last.encoders[i].position == Int32(h.encoders[i].position + Travel(samples, i))
  {
    Int32Add(h.encoders[i].position + Signed16(s.counts[i].position), Travel(rest, i));
  }

  lemma UpdateAllCons(h: Hub, c: Config, samples: seq<Sample>) returns (after: Hub)
    requires h.Valid() && |samples| > 0 && forall k | 0 <= k < |samples| :: SampleFits(c, samples[k])
    ensures after == Update(h, TelemetryFrame(c, samples[0])).hub
    ensures forall k | 0 <= k < |samples| - 1 :: SampleFits(c, samples[1..][k])
    ensures UpdateAll(h, c, samples) == UpdateAll(after, c, samples[1..])
  {
    after := Update(h, TelemetryFrame(c, samples[0])).hub;
    assert forall k | 0 <= k < |samples| - 1 :: samples[1..][k] == samples[k + 1];
  }

  /** One good frame moves a quadrature port by its step and keeps the devices' kinds. */
  lemma QuadratureStep(h: Hub, c: Config, s: Sample, i: nat, after: Hub)
    requires h.Valid() && h.config.Some? && h.config.value.pins == c.pins && h.config.value.encoders == c.encoders
    requires BusKinds(h.config.value.buses) == BusKinds(c.buses) && SampleFits(c, s)
    requires i < |c.encoders| && c.encoders[i] == Quadrature
    requires after == Update(h, TelemetryFrame(c, s)).hub
    ensures after.config.Some? && after.config.value.pins == c.pins && after.config.value.encoders == c.encoders
    ensures BusKinds(after.config.value.buses) == BusKinds(c.buses)
    ensures after.encoders[i].position == Int32(h.encoders[i].position + Signed16(s.counts[i].position))
  {
    var kept := h.config.value;
    FrameDependsOnKinds(c, kept, s);
    UpdateReadsFrame(h, kept, s);
    ExpectedEncodersAt(kept.encoders, s.counts, h.encoders, i);
    ExpectedBusesKinds(kept.buses, s.readings);
  }

  /**
    From `init` on, a quadrature port reads the sum of the steps of every frame so far, the one
    `init` reads included, wrapped to a Java `int`: `init` zeroes the position first.
   */
  lemma InitThenTravel(h: Hub, c: Config, info: DeviceInfo, first: Sample, samples: seq<Sample>, i: nat)
    requires h.Valid() && c.Valid() && FrameLength(c) <= MaxFrameLength
    requires info.id == DeviceId && VersionMatches(info)
    requires SampleFits(c, first) && forall k | 0 <= k < |samples| :: SampleFits(c, samples[k])
    requires i < |c.encoders| && c.encoders[i] == Quadrature
    ensures UpdateAll(Init(h, c, info, TelemetryFrame(c, first)).hub, c, samples).encoders[i].position
      == Int32(Signed16(first.counts[i].position) + Travel(samples, i))
  {
    var start := Init(h, c, info, TelemetryFrame(c, first)).hub;
    InitTravels(h, c, info, first, i, start);
    UpdatesAccumulate(start, c, samples, i);
    InitChain(start, UpdateAll(start, c, samples), first, samples, i);
  }

  lemma InitChain(start: Hub, last: Hub, first: Sample, samples: seq<Sample>, i: nat)
    requires forall k | 0 <= k < |samples| :: i < |samples[k].counts| && CountsFit(samples[k].counts)
    requires i < |first.counts| && CountsFit(first.counts) && i < |start.encoders| && i < |last.encoders|
    requires start.encoders[i].position == Int32(Signed16(first.counts[i].position))
    requires last.encoders[i].position == Int32(start.encoders[i].position + Travel(samples, i))
    ensures last.encoders[i].position == Int32(Signed16(first.counts[i].position) + Travel(samples, i))
  {
    Int32Add(Signed16(first.counts[i].position), Travel(samples, i));
  }

  /** The first frame, read by `init`, moves the zeroed position by its step. */
  lemma InitTravels(h: Hub, c: Config, info: DeviceInfo, s: Sample, i: nat, first: Hub)
    requires h.Valid() && c.Valid() && FrameLength(c) <= MaxFrameLength
    requires info.id == DeviceId && VersionMatches(info) && SampleFits(c, s)
    requires i < |c.encoders| && c.encoders[i] == Quadrature
    requires first == Init(h, c, info, TelemetryFrame(c, s)).hub
    ensures first.config.Some? && first.config.value.pins == c.pins && first.config.value.encoders == c.encoders
    ensures BusKinds(first.config.value.buses) == BusKinds(c.buses)
    ensures first.encoders[i].position == Int32(Signed16(s.counts[i].position))
  {
    FrameIgnoresLock(c, s);
    HandshakeReads(Restarted(h, c), Lock(c), info, InitData(c), s);
    ExpectedEncodersAt(c.encoders, s.counts, NoMotion(), i);
    ExpectedBusesKinds(c.buses, s.readings);
  }

  /** After a good frame, every configured device is found by its class with the frame's reading. */
  lemma GetI2CDeviceAfterUpdate(h: Hub, c: Config, s: Sample, bus: int, j: nat)
    requires h.Valid() && h.config == Some(c) && SampleFits(c, s)
    requires 1 <= bus <= BusCount && j < |c.buses[bus - 1]|
    ensures GetI2CDevice(Update(h, TelemetryFrame(c, s)).hub, bus, c.buses[bus - 1][j].kind.Class())
      == Ok(Device(c.buses[bus - 1][j].kind, s.readings[bus - 1][j]))
  {
    UpdateReadsFrame(h, c, s);
    GetExpectedDevice(c, s, bus, j, Update(h, TelemetryFrame(c, s)).hub);
  }

  lemma GetExpectedDevice(c: Config, s: Sample, bus: int, j: nat, after: Hub)
    requires c.Valid() && SampleFits(c, s) && 1 <= bus <= BusCount && j < |c.buses[bus - 1]|
    requires after.Valid() && after.config == Some(c.(buses := ExpectedBuses(c.buses, s.readings)))
    ensures GetI2CDevice(after, bus, c.buses[bus - 1][j].kind.Class())
      == Ok(Device(c.buses[bus - 1][j].kind, s.readings[bus - 1][j]))
  {
    ExpectedBusesAt(c.buses, s.readings, bus - 1);
    ExpectedDevicesAt(c.buses[bus - 1], s.readings[bus - 1], j);
    GetI2CDeviceUnique(after, bus, j);
  }

  /**
    Pin 0 is out of range, which the documentation promises to report as an
    `IndexOutOfBoundsException`; as written, the caller receives a `RuntimeException` instead.
   */
  lemma PinZeroFailureWrapped(h: Hub)
    requires h.Valid()
    ensures ReadAnalogDigitalDevice(h, 0) == Err(PinOutOfRange)
    ensures ReadAnalogDigitalDevice(h, 0).error.Class() == IndexOutOfBounds
    ensures ReadAnalogDigitalDevice(h, 0).error.ThrownClass() == Runtime
  {
  }
}
