/**
  `SRSHub.Config`: what is attached to the hub. Twelve analog-digital pins, six encoder ports and
  three I2C buses, each an ordered list of devices. The configuration can be edited until it is
  passed to `init`, which locks it for good.
 */
module HubConfig {
  import opened Errors
  import opened Devices

  const PinCount := 12
  const EncoderCount := 6
  const BusCount := 3

  /** `AnalogDigitalDevice`: what a pin is used as. */
  datatype PinDevice = Analog | Digital | NoPinDevice
  {
    /** The enum's `value`, sent as a 2-bit code in the initialisation frame. */
    function Code(): nat
    {
      match this
      case Analog => 0
      case Digital => 1
      case NoPinDevice => 2
    }
  }

  /** `Encoder`: what an encoder port is used as. */
  datatype EncoderMode = Quadrature | Pwm | NoEncoder
  {
    /** The enum's `value`, sent as a 2-bit code in the initialisation frame. */
    function Code(): nat
    {
      match this
      case Quadrature => 0
      case Pwm => 1
      case NoEncoder => 2
    }
  }

  /** What the hub makes of a 2-bit pin code; the code 3 names no pin device. */
  function PinDeviceOf(code: nat): Option<PinDevice>
  {
    if code == 0 then Some(Analog) else if code == 1 then Some(Digital)
    else if code == 2 then Some(NoPinDevice) else None
  }

  /** What the hub makes of a 2-bit encoder code; the code 3 names no encoder mode. */
  function EncoderModeOf(code: nat): Option<EncoderMode>
  {
    if code == 0 then Some(Quadrature) else if code == 1 then Some(Pwm)
    else if code == 2 then Some(NoEncoder) else None
  }

  /** The codes are two bits wide and each names exactly one enum constant. */
  lemma CodesRoundTrip(p: PinDevice, e: EncoderMode)
    ensures p.Code() < 4 && PinDeviceOf(p.Code()) == Some(p)
    ensures e.Code() < 4 && EncoderModeOf(e.Code()) == Some(e)
  {
  }

  /** A device on a bus together with the fields its last telemetry frame set. */
  datatype Device = Device(kind: DeviceKind, reading: Reading)

  datatype Config = Config(locked: bool, pins: seq<PinDevice>, encoders: seq<EncoderMode>,
                           buses: seq<seq<Device>>)
  {
    /** The array sizes the constructor fixes. */
    predicate WellFormed()
    {
      |pins| == PinCount && |encoders| == EncoderCount && |buses| == BusCount
    }

    /** What `addI2CDevice` maintains: on every bus, classes and addresses are pairwise distinct. */
    predicate Valid()
    {
      WellFormed() && forall b | 0 <= b < BusCount :: BusValid(buses[b])
    }
  }

  predicate BusValid(devs: seq<Device>)
  {
    && (forall i, j | 0 <= i < j < |devs| ::
          devs[i].kind.Class() != devs[j].kind.Class() && devs[i].kind.Address() != devs[j].kind.Address())
    && (forall i | 0 <= i < |devs| :: Encodable(devs[i].kind, devs[i].reading))
  }

  /** `new Config()`: every pin and encoder port unused, every bus empty, not locked. */
  function NewConfig(): (c: Config)
    ensures c.Valid() && !c.locked
    ensures forall i | 0 <= i < PinCount :: c.pins[i] == NoPinDevice
    ensures forall j | 0 <= j < EncoderCount :: c.encoders[j] == NoEncoder
    ensures forall b | 0 <= b < BusCount :: c.buses[b] == []
  {
    Config(false, seq(PinCount, _ => NoPinDevice), seq(EncoderCount, _ => NoEncoder), [[], [], []])
  }

  /**
    `setAnalogDigitalDevice(pin, device)`: pins are numbered from 1. The range is checked before
    the lock.
   */
  function SetAnalogDigitalDevice(c: Config, pin: int, device: PinDevice): (r: Result<Config>)
    requires c.WellFormed()
    ensures r.Ok? <==> 1 <= pin <= PinCount && !c.locked
    ensures r.Err? ==> r.error == if 1 <= pin <= PinCount then ConfigLocked else PinOutOfRange
    ensures r.Ok? ==> (r.value.WellFormed() && r.value.pins[pin - 1] == device
      && (forall i | 0 <= i < PinCount && i != pin - 1 :: r.value.pins[i] == c.pins[i])
      && r.value.encoders == c.encoders && r.value.buses == c.buses && !r.value.locked)
  {
    if pin < 1 || pin > PinCount then Err(PinOutOfRange)
    else if c.locked then Err(ConfigLocked)
    else Ok(c.(pins := c.pins[pin - 1 := device]))
  }

  /** `setEncoder(port, device)`: ports are numbered from 1. The range is checked before the lock. */
  function SetEncoder(c: Config, port: int, mode: EncoderMode): (r: Result<Config>)
    requires c.WellFormed()
    ensures r.Ok? <==> 1 <= port <= EncoderCount && !c.locked
    ensures r.Err? ==> r.error == if 1 <= port <= EncoderCount then ConfigLocked else EncoderPortOutOfRange
    ensures r.Ok? ==> (r.value.WellFormed() && r.value.encoders[port - 1] == mode
      && (forall j | 0 <= j < EncoderCount && j != port - 1 :: r.value.encoders[j] == c.encoders[j])
      && r.value.pins == c.pins && r.value.buses == c.buses && !r.value.locked)
  {
    if port < 1 || port > EncoderCount then Err(EncoderPortOutOfRange)
    else if c.locked then Err(ConfigLocked)
    else Ok(c.(encoders := c.encoders[port - 1 := mode]))
  }

  /** Whether a device already on a bus stops another from joining it, and why. */
  function Conflict(existing: DeviceKind, added: DeviceKind): Option<HubError>
  {
    if existing.Class() == added.Class() then Some(DuplicateDeviceType)
    else if existing.Address() == added.Address() then Some(AddressConflict)
    else None
  }

  /** The loop of `addI2CDevice`: the first device on the bus, in order, that conflicts. */
  function FirstConflict(devs: seq<Device>, added: DeviceKind): (r: Option<HubError>)
    ensures r.None? <==> forall i | 0 <= i < |devs| :: Conflict(devs[i].kind, added).None?
    ensures r.Some? ==> exists i | 0 <= i < |devs| ::
      r == Conflict(devs[i].kind, added) && forall j | 0 <= j < i :: Conflict(devs[j].kind, added).None?
  {
    if |devs| == 0 then None
    else if Conflict(devs[0].kind, added).Some? then Conflict(devs[0].kind, added)
    else
      var rest := FirstConflict(devs[1..], added);
      assert forall i | 1 <= i < |devs| :: devs[i] == devs[1..][i - 1];
      rest
  }

  /**
    `addI2CDevice(bus, device)`: buses are numbered from 1; the range is checked, then the lock,
    then the devices already on the bus in order; the new device, with its fields at their
    defaults, goes at the end of the bus.
   */
  function AddI2CDevice(c: Config, bus: int, kind: DeviceKind): (r: Result<Config>)
    requires c.WellFormed()
    ensures r.Ok? <==> 1 <= bus <= BusCount && !c.locked && FirstConflict(c.buses[bus - 1], kind).None?
    ensures r.Err? && !(1 <= bus <= BusCount) ==> r.error == BusOutOfRange
    ensures r.Err? && 1 <= bus <= BusCount && c.locked ==> r.error == ConfigLocked
    ensures r.Err? && 1 <= bus <= BusCount && !c.locked ==>
      Some(r.error) == FirstConflict(c.buses[bus - 1], kind)
    ensures r.Ok? ==> (r.value.WellFormed()
      && r.value.buses[bus - 1] == c.buses[bus - 1] + [Device(kind, InitialReading(kind))]
      && (forall b | 0 <= b < BusCount && b != bus - 1 :: r.value.buses[b] == c.buses[b])
      && r.value.pins == c.pins && r.value.encoders == c.encoders && !r.value.locked)
  {
    if bus < 1 || bus > BusCount then Err(BusOutOfRange)
    else if c.locked then Err(ConfigLocked)
    else
      match FirstConflict(c.buses[bus - 1], kind)
      case Some(e) => Err(e)
      case None => Ok(c.(buses := c.buses[bus - 1 := c.buses[bus - 1] + [Device(kind, InitialReading(kind))]]))
  }

  /** `lock()`: done by `init` before anything else. Nothing else changes. */
  function Lock(c: Config): (r: Config)
    ensures r.locked && r.pins == c.pins && r.encoders == c.encoders && r.buses == c.buses
  {
    c.(locked := true)
  }

  /** Adding a device keeps every bus free of duplicate classes and addresses. */
  lemma AddKeepsValid(c: Config, bus: int, kind: DeviceKind)
    requires c.Valid()
    ensures AddI2CDevice(c, bus, kind).Ok? ==> AddI2CDevice(c, bus, kind).value.Valid()
  {
    var r := AddI2CDevice(c, bus, kind);
    if r.Ok? {
      var devs := c.buses[bus - 1];
      var added := devs + [Device(kind, InitialReading(kind))];
      assert forall i | 0 <= i < |devs| :: Conflict(devs[i].kind, kind).None?;
      assert BusValid(added);
      forall b | 0 <= b < BusCount
        ensures BusValid(r.value.buses[b])
      {
        if b != bus - 1 {
          assert r.value.buses[b] == c.buses[b];
        }
      }
    }
  }

  /** The pin and encoder setters never touch the buses, so they keep a configuration valid. */
  lemma SettersKeepValid(c: Config, n: int, p: PinDevice, e: EncoderMode)
    requires c.Valid()
    ensures SetAnalogDigitalDevice(c, n, p).Ok? ==> SetAnalogDigitalDevice(c, n, p).value.Valid()
    ensures SetEncoder(c, n, e).Ok? ==> SetEncoder(c, n, e).value.Valid()
  {
  }

  /** Once locked, a configuration rejects every change to an existing pin, port or bus. */
  lemma LockedRejectsChanges(c: Config, n: int, p: PinDevice, e: EncoderMode, kind: DeviceKind)
    requires c.WellFormed() && c.locked
    ensures SetAnalogDigitalDevice(c, n, p).Err? && SetEncoder(c, n, e).Err? && AddI2CDevice(c, n, kind).Err?
  {
  }

  /** Only three I2C addresses exist among the devices, so four devices always share one. */
  lemma FourDevicesShareAddress(devs: seq<Device>)
    requires |devs| >= 4
    ensures exists i, j | 0 <= i < j < 4 :: devs[i].kind.Address() == devs[j].kind.Address()
  {
    var a0, a1, a2, a3 := devs[0].kind.Address(), devs[1].kind.Address(),
                          devs[2].kind.Address(), devs[3].kind.Address();
    if a0 == a1 {
      assert devs[0].kind.Address() == devs[1].kind.Address();
    } else if a0 == a2 {
      assert devs[0].kind.Address() == devs[2].kind.Address();
    } else if a0 == a3 {
      assert devs[0].kind.Address() == devs[3].kind.Address();
    } else if a1 == a2 {
      assert devs[1].kind.Address() == devs[2].kind.Address();
    } else if a1 == a3 {
      assert devs[1].kind.Address() == devs[3].kind.Address();
    } else {
      assert devs[2].kind.Address() == devs[3].kind.Address();
    }
  }

  /** A valid bus holds at most three devices, and never both time-of-flight sensors. */
  lemma BusCapacity(devs: seq<Device>)
    requires BusValid(devs)
    ensures |devs| <= 3
    ensures forall i, j | 0 <= i < |devs| && 0 <= j < |devs| ::
      !(devs[i].kind.VL53L5CX? && devs[j].kind.VL53L0X?)
  {
    if |devs| >= 4 {
      FourDevicesShareAddress(devs);
    }
  }
}
