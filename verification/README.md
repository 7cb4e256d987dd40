# SRSHub driver model

A Dafny model of the `SRSHub` I2C driver (`SRSHub.java`, package `org.openftc.i2cdrivers`). The
driver configures an SRS hub and reads its telemetry:

- `Config` records what hangs off the hub: a mode for each of the 12 analog/digital pins, a mode
  for each of the 6 encoder ports, and an ordered list of I2C devices on each of 3 buses.
- `init` locks the configuration and restarts the hub. It packs the configuration into an
  initialisation frame, least significant bit first, and writes that frame to the INIT register.
- `update` bulk-reads a telemetry frame. It checks the identity byte 0x61 and the CRC-16/XMODEM
  trailer. It then walks the pins, the encoder ports and every device's `parseUpdate` slice in
  configuration order.
- The readers `readAnalogDigitalDevice`, `readEncoder` and `getI2CDevice` hand out the values the
  last good frame left behind.

The model has one module per concern:

| module | file | models |
|---|---|---|
| `Bits` | bits.dfy | `BitSet.valueOf` and `toByteArray` bit order; little-endian `getShort`/`getInt` of zero-padded chunks; Java `int` wrap-around |
| `Errors` | errors.dfy | the failures the driver throws, as values |
| `Crc16` | crc16.dfy | `computeCRC16` and the CRC comparison of `update` |
| `Devices` | devices.dfy | the four `I2CDevice` descriptors and their `parseUpdate` layouts |
| `HubConfig` | config.dfy | `Config` and its setters |
| `InitFrame` | layout.dfy | the initialisation frame `init` builds, and the hub's reading of it |
| `Telemetry` | telemetry.dfy | the telemetry frame length, the frame the hub sends, and the `update` walk over it |
| `Session` | session.dfy | the driver state: `verifyInitialization`, `init`, `update` and the readers |

`doInitialize` is modelled as Session.DoInitialize. It clears the identification flag and then runs the same `verifyInitialization` that `init` runs. Its `setBusSpeed` call is transport.

The bus is not modelled:

- Each read is a parameter: the DEVICE_INFO bytes and the READ frame.
- Each write is appended to the hub's `writes` log.
- A call that throws in Java returns the state at the throw together with a `HubError`.

Every operation has a partner it is proved against:

- The CRC check is proved against `Seal`, the hub's side of the trailer.
- The initialisation frame is proved against a decoder that recovers the configuration.
- The telemetry walk is proved against the frame the hub builds from a `Sample` of raw
  measurements. The walk yields exactly the values that sample describes (`WalkFrame`,
  `UpdateReadsFrame`).

## Model

Source paths are relative to the repository root.

| member | source | states |
|---|---|---|
| Crc16.ComputeCrc16 | i2cdrivers/src/main/java/org/openftc/i2cdrivers/SRSHub.java:901-920 | the nested loop returns a value in 0..0xFFFF equal to the CRC-16/XMODEM register of every byte but the last two, as the byte-at-a-time reference definition gives it |
| Crc16.ShiftInByte | i2cdrivers/src/main/java/org/openftc/i2cdrivers/SRSHub.java:904-917 | one pass of the outer loop: eight conditional shifts by polynomial 0x1021 agree with the reference `FeedByte` |
| Crc16.CheckValue | i2cdrivers/src/main/java/org/openftc/i2cdrivers/SRSHub.java:901-920 | the checksum of ASCII "123456789" is 0x31C3, the catalogue check value of CRC-16/XMODEM |
| Crc16.FrameCrcIgnoresTrailer | i2cdrivers/src/main/java/org/openftc/i2cdrivers/SRSHub.java:904 | replacing the last two bytes never changes the computed CRC |
| Crc16.SealMatches | i2cdrivers/src/main/java/org/openftc/i2cdrivers/SRSHub.java:1103-1111 | a frame passes the received-versus-computed comparison exactly when its last two bytes are the big-endian CRC of the rest |
| Crc16.SealedFrameMatches | i2cdrivers/src/main/java/org/openftc/i2cdrivers/SRSHub.java:1103-1111 | every message with its CRC appended passes the comparison |
| Crc16.CorruptedByteDetected | i2cdrivers/src/main/java/org/openftc/i2cdrivers/SRSHub.java:1103-1111 | changing any single payload byte of a passing frame makes it fail |
| Crc16.SingleBitFlipDetected | i2cdrivers/src/main/java/org/openftc/i2cdrivers/SRSHub.java:1103-1111 | flipping any single payload bit of a passing frame makes it fail |
| HubConfig.CodesRoundTrip | i2cdrivers/src/main/java/org/openftc/i2cdrivers/SRSHub.java:50-72 | the pin and encoder mode codes fit the 2 bits sent and decode back to the same mode |
| HubConfig.NewConfig | i2cdrivers/src/main/java/org/openftc/i2cdrivers/SRSHub.java:641-665 | a new configuration is unlocked, with every pin and port NONE and every bus empty |
| HubConfig.SetAnalogDigitalDevice | i2cdrivers/src/main/java/org/openftc/i2cdrivers/SRSHub.java:676-697 | succeeds iff the pin is in 1..12 and the configuration is unlocked; otherwise fails out-of-range before locked; on success only that pin changes |
| HubConfig.SetEncoder | i2cdrivers/src/main/java/org/openftc/i2cdrivers/SRSHub.java:708-728 | the same for encoder ports 1..6 |
| HubConfig.FirstConflict | i2cdrivers/src/main/java/org/openftc/i2cdrivers/SRSHub.java:754-777 | reports nothing iff no device on the bus shares the new device's class or address; otherwise reports the first conflicting device in order, class checked before address |
| HubConfig.AddI2CDevice | i2cdrivers/src/main/java/org/openftc/i2cdrivers/SRSHub.java:737-780 | checks the bus range, then the lock, then conflicts in order; on success appends the device with default fields to that bus only |
| HubConfig.Lock | i2cdrivers/src/main/java/org/openftc/i2cdrivers/SRSHub.java:782-784 | sets the lock and nothing else |
| HubConfig.AddKeepsValid | i2cdrivers/src/main/java/org/openftc/i2cdrivers/SRSHub.java:754-779 | adding a device keeps classes and addresses distinct on every bus |
| HubConfig.SettersKeepValid | i2cdrivers/src/main/java/org/openftc/i2cdrivers/SRSHub.java:676-728 | the pin and encoder setters keep that invariant |
| HubConfig.LockedRejectsChanges | i2cdrivers/src/main/java/org/openftc/i2cdrivers/SRSHub.java:687-693 | a locked configuration rejects every setter call |
| HubConfig.FourDevicesShareAddress | i2cdrivers/src/main/java/org/openftc/i2cdrivers/SRSHub.java:765-777 | among any four devices two share an I2C address |
| HubConfig.BusCapacity | i2cdrivers/src/main/java/org/openftc/i2cdrivers/SRSHub.java:754-779 | a bus holds at most three devices, and never both time-of-flight sensors (both at 0x29) |
| Devices.KindOfConfigBits | i2cdrivers/src/main/java/org/openftc/i2cdrivers/SRSHub.java:420-446 | a device's tag and configuration bits determine its class and every constructor argument: Pinpoint offsets, resolution and directions, VL53L5CX grid size |
| Devices.TagNamesClass | i2cdrivers/src/main/java/org/openftc/i2cdrivers/SRSHub.java:104-106 | two devices share a tag iff they share a class |
| Devices.AddressesClash | i2cdrivers/src/main/java/org/openftc/i2cdrivers/SRSHub.java:348-350 | two devices share an address iff they share a class or are the VL53L5CX and VL53L0X |
| Devices.ZoneCount | i2cdrivers/src/main/java/org/openftc/i2cdrivers/SRSHub.java:267-286 | a VL53L5CX's update length is 1 + 11 bits per zone, with 16 zones for 4x4 and 64 for 8x8, the size of `distances` |
| Devices.InitialReading | i2cdrivers/src/main/java/org/openftc/i2cdrivers/SRSHub.java:93-102 | a fresh device's fields fit its telemetry slice |
| Devices.Parse | i2cdrivers/src/main/java/org/openftc/i2cdrivers/SRSHub.java:124-638 | `parseUpdate`: the first bit is the disconnected flag, and every field lands within its bit width |
| Devices.ParseZoneBits | i2cdrivers/src/main/java/org/openftc/i2cdrivers/SRSHub.java:300-325 | the VL53L5CX loop reads back every 11-bit distance the hub sent |
| Devices.ZoneBitsOfParse | i2cdrivers/src/main/java/org/openftc/i2cdrivers/SRSHub.java:300-325 | and the distances it reads re-encode to exactly the bits it consumed |
| Devices.ColorRoundTrip | i2cdrivers/src/main/java/org/openftc/i2cdrivers/SRSHub.java:124-246 | the APDS9151 layout (1+11+4·20 bits) reads back the reading the hub encoded |
| Devices.PoseRoundTrip | i2cdrivers/src/main/java/org/openftc/i2cdrivers/SRSHub.java:468-638 | the Pinpoint layout (1+8+6·32 bits) reads back the reading the hub encoded |
| Devices.ParseOwnBits | i2cdrivers/src/main/java/org/openftc/i2cdrivers/SRSHub.java:356-382 | every device's `parseUpdate` reads back the reading the hub encoded in its slice (VL53L0X: 1+16 bits) |
| Devices.ReadingBitsOfParse | i2cdrivers/src/main/java/org/openftc/i2cdrivers/SRSHub.java:124-638 | the reading parsed from any slice re-encodes to exactly that slice, so `parseUpdate` consumes exactly `getUpdateLength()` bits |
| Devices.ParseLocal | i2cdrivers/src/main/java/org/openftc/i2cdrivers/SRSHub.java:1265-1273 | a device's reading depends only on the `getUpdateLength()` bits from its start |
| Devices.ParseInFrame | i2cdrivers/src/main/java/org/openftc/i2cdrivers/SRSHub.java:1265-1273 | a device's slice reads back its reading whatever surrounds it in the frame |
| InitFrame.InitBits | i2cdrivers/src/main/java/org/openftc/i2cdrivers/SRSHub.java:954-967 | the initialisation bits number 12·2 + 6·2 + 3·16 plus 4 + `getInitLength()` per device |
| InitFrame.InitData | i2cdrivers/src/main/java/org/openftc/i2cdrivers/SRSHub.java:1046-1056 | the sent array has (initLength + 7) / 8 bytes, holds the initialisation bits, and is zero after them |
| InitFrame.DecodePinsWindow | i2cdrivers/src/main/java/org/openftc/i2cdrivers/SRSHub.java:973-993 | the pin codes read back as the pin modes, in pin order |
| InitFrame.DecodeEncodersWindow | i2cdrivers/src/main/java/org/openftc/i2cdrivers/SRSHub.java:995-1006 | the encoder codes read back as the encoder modes, in port order |
| InitFrame.DeviceWindow | i2cdrivers/src/main/java/org/openftc/i2cdrivers/SRSHub.java:1017-1032 | a device's 4-bit tag and configuration bits read back as that device |
| InitFrame.DecodeDevicesWindow | i2cdrivers/src/main/java/org/openftc/i2cdrivers/SRSHub.java:1017-1033 | a bus's devices read back in the order they were added, filling its length exactly |
| InitFrame.BusLengthBound | i2cdrivers/src/main/java/org/openftc/i2cdrivers/SRSHub.java:959-966 | a bus's length is at most 102 bits per device |
| InitFrame.ValidBusLengths | i2cdrivers/src/main/java/org/openftc/i2cdrivers/SRSHub.java:1008-1014 | on a valid configuration every bus length fits its 16-bit header |
| InitFrame.BusWindow | i2cdrivers/src/main/java/org/openftc/i2cdrivers/SRSHub.java:1008-1033 | a bus's 16-bit header holds the bits its devices take, and those devices follow it |
| InitFrame.DecodeBusesWindow | i2cdrivers/src/main/java/org/openftc/i2cdrivers/SRSHub.java:1008-1034 | the three buses read back in order |
| InitFrame.InitWindows | i2cdrivers/src/main/java/org/openftc/i2cdrivers/SRSHub.java:971-1034 | the pin codes start at bit 0, the encoder codes at bit 24, the buses at bit 36 |
| InitFrame.DecodeInitData | i2cdrivers/src/main/java/org/openftc/i2cdrivers/SRSHub.java:954-1056 | the hub recovers the whole configuration from the sent frame: every mode, and every device of every bus in order with its arguments |
| Telemetry.AccumulateUpdateLength | i2cdrivers/src/main/java/org/openftc/i2cdrivers/SRSHub.java:973-1037 | the loops that total `updateLength` give 2 + ceil((8 + 12·analog + digital + 48·used ports + Σ update lengths) / 8) |
| Telemetry.FrameLengthTight | i2cdrivers/src/main/java/org/openftc/i2cdrivers/SRSHub.java:1037 | the frame is the fewest whole bytes that hold the readings, plus two CRC bytes |
| Telemetry.WalkStaysInFrame | i2cdrivers/src/main/java/org/openftc/i2cdrivers/SRSHub.java:1115-1273 | the walk reads nothing past the first `updateLength` bits before rounding: cutting the frame there changes no pin, encoder or device value it yields, and those bits end before the two CRC bytes |
| Telemetry.TelemetryFrame | i2cdrivers/src/main/java/org/openftc/i2cdrivers/SRSHub.java:1097-1111 | the frame the hub answers with has `updateLength` bytes, starts with 0x61 and passes the CRC comparison |
| Telemetry.PinValueRange | i2cdrivers/src/main/java/org/openftc/i2cdrivers/SRSHub.java:1119-1154 | an analog value lies in [0, 1]; a digital value is 0 or 1 |
| Telemetry.ReadPinsRange | i2cdrivers/src/main/java/org/openftc/i2cdrivers/SRSHub.java:1119-1154 | so does every value the pin loop writes |
| Telemetry.ReadPinsAt | i2cdrivers/src/main/java/org/openftc/i2cdrivers/SRSHub.java:1119-1154 | pin i is read at the widths of the pins before it; a NONE pin takes no bits |
| Telemetry.ReadEncodersAt | i2cdrivers/src/main/java/org/openftc/i2cdrivers/SRSHub.java:1156-1263 | port i is read at 48 bits per used port before it |
| Telemetry.ReadBusesAt | i2cdrivers/src/main/java/org/openftc/i2cdrivers/SRSHub.java:1265-1273 | bus b is read after the update lengths of the buses before it |
| Telemetry.PinStep | i2cdrivers/src/main/java/org/openftc/i2cdrivers/SRSHub.java:1121-1150 | an analog pin reads its 12-bit level / 4095, a digital pin its bit |
| Telemetry.EncoderStep | i2cdrivers/src/main/java/org/openftc/i2cdrivers/SRSHub.java:1158-1259 | quadrature adds the signed 16-bit step to the last position with `int` wrap-around; PWM replaces the position; both read a signed 32-bit velocity |
| Telemetry.PinsWindow | i2cdrivers/src/main/java/org/openftc/i2cdrivers/SRSHub.java:1119-1154 | the pin loop yields exactly the levels the hub sent |
| Telemetry.EncodersWindow | i2cdrivers/src/main/java/org/openftc/i2cdrivers/SRSHub.java:1156-1263 | the encoder loop yields exactly the counts the hub sent |
| Telemetry.DeviceStep | i2cdrivers/src/main/java/org/openftc/i2cdrivers/SRSHub.java:1269-1270 | a device parses the reading the hub sent in its slice |
| Telemetry.DevicesWindow | i2cdrivers/src/main/java/org/openftc/i2cdrivers/SRSHub.java:1266-1272 | the devices of a bus yield exactly the readings the hub sent |
| Telemetry.BusesWindow | i2cdrivers/src/main/java/org/openftc/i2cdrivers/SRSHub.java:1265-1273 | every bus yields exactly the readings the hub sent |
| Telemetry.WalkFrame | i2cdrivers/src/main/java/org/openftc/i2cdrivers/SRSHub.java:1115-1273 | round trip: the walk over the hub's frame yields exactly the sample the frame was built from |
| Telemetry.ReadDevicesShape | i2cdrivers/src/main/java/org/openftc/i2cdrivers/SRSHub.java:1265-1273 | the walk keeps every device's class and leaves it fields that fit its slice |
| Telemetry.ReadBusesKeepValid | i2cdrivers/src/main/java/org/openftc/i2cdrivers/SRSHub.java:1265-1273 | the walk keeps each bus free of duplicate classes and addresses |
| Telemetry.QuadratureAccumulates | i2cdrivers/src/main/java/org/openftc/i2cdrivers/SRSHub.java:1159-1182 | two quadrature frames leave the last position plus both steps, wrapped once |
| Telemetry.FrameDependsOnKinds | i2cdrivers/src/main/java/org/openftc/i2cdrivers/SRSHub.java:1265-1273 | the frame layout depends on the pins, the ports and the kinds of the devices, not on the readings the devices hold: such configurations agree on every frame |
| Telemetry.ExpectedBusesKinds | i2cdrivers/src/main/java/org/openftc/i2cdrivers/SRSHub.java:1265-1273 | storing a frame's readings changes no device's kind on any bus |
| Session.SignedByte | i2cdrivers/src/main/java/org/openftc/i2cdrivers/SRSHub.java:855-869 | a Java `byte` widened to `int` is its two's-complement value |
| Session.NewHub | i2cdrivers/src/main/java/org/openftc/i2cdrivers/SRSHub.java:38-48 | a new driver has no configuration, both flags clear and every value zero |
| Session.VerifyInitialization | i2cdrivers/src/main/java/org/openftc/i2cdrivers/SRSHub.java:848-888 | fails iff not yet initialised, the identity byte is 0x61 and the version is not 1.1.1; another identity only sets `disconnected`; nothing else changes |
| Session.DoInitialize | i2cdrivers/src/main/java/org/openftc/i2cdrivers/SRSHub.java:800-808 | re-identifies from scratch: initialised iff the identity byte is 0x61; fails iff that hub has other firmware |
| Session.Refreshed | i2cdrivers/src/main/java/org/openftc/i2cdrivers/SRSHub.java:1113-1273 | a walk clears `disconnected`, rewrites only values and device fields, and keeps the driver's invariant |
| Session.Update | i2cdrivers/src/main/java/org/openftc/i2cdrivers/SRSHub.java:1083-1274 | no configuration fails; an empty or foreign frame only sets `disconnected`; a one-byte frame fails; a CRC mismatch changes nothing; a good frame clears `disconnected` and rewrites only values |
| Session.UpdateReadsFrame | i2cdrivers/src/main/java/org/openftc/i2cdrivers/SRSHub.java:1113-1273 | on the hub's frame `update` leaves exactly the sample's values, and nothing else changes |
| Session.UpdateIgnoresCorruption | i2cdrivers/src/main/java/org/openftc/i2cdrivers/SRSHub.java:1103-1111 | a hub frame with one payload byte altered changes nothing |
| Session.UpdateForeignFrame | i2cdrivers/src/main/java/org/openftc/i2cdrivers/SRSHub.java:1097-1101 | a frame with another first byte, or an empty one, only sets `disconnected` |
| Session.Restarted | i2cdrivers/src/main/java/org/openftc/i2cdrivers/SRSHub.java:930-952 | `init` first locks and adopts the configuration, clears the flags, writes RESTART and zeroes every value |
| Session.Handshake | i2cdrivers/src/main/java/org/openftc/i2cdrivers/SRSHub.java:1065-1074 | ready iff verification and the closing `update` succeed |
| Session.Init | i2cdrivers/src/main/java/org/openftc/i2cdrivers/SRSHub.java:927-1075 | the configuration is locked in every outcome; fails with the 100-byte error iff the frame would be longer; ready iff no failure |
| Session.InitLocksConfig | i2cdrivers/src/main/java/org/openftc/i2cdrivers/SRSHub.java:927-931 | whatever `init` ends in, the configuration it keeps rejects every pin, port and device change: the lock for an argument in range, the range error otherwise |
| Session.InitRejectsLongFrames | i2cdrivers/src/main/java/org/openftc/i2cdrivers/SRSHub.java:1039-1044 | a frame over 100 bytes fails after RESTART and before INIT is written |
| Session.InitRejectsFirmware | i2cdrivers/src/main/java/org/openftc/i2cdrivers/SRSHub.java:1065 | a hub with other firmware fails `init` before INIT is written |
| Session.InitWrites | i2cdrivers/src/main/java/org/openftc/i2cdrivers/SRSHub.java:938-1070 | a successful `init` writes RESTART, then the initialisation frame to INIT |
| Session.InitAnnouncesConfig | i2cdrivers/src/main/java/org/openftc/i2cdrivers/SRSHub.java:1046-1070 | the frame written to INIT decodes to the configuration |
| Session.HandshakeWrites | i2cdrivers/src/main/java/org/openftc/i2cdrivers/SRSHub.java:1067-1070 | verification that passes is followed by exactly one INIT write |
| Session.InitWithoutIdentity | i2cdrivers/src/main/java/org/openftc/i2cdrivers/SRSHub.java:1065-1074 | with no hub answering, `init` still reports ready, with `disconnected` set |
| Session.InitThenReady | i2cdrivers/src/main/java/org/openftc/i2cdrivers/SRSHub.java:927-1075 | with the right hub answering, `init` is ready and connected, and quadrature positions are the first frame's steps from zero |
| Session.FrameIgnoresLock | i2cdrivers/src/main/java/org/openftc/i2cdrivers/SRSHub.java:930 | locking does not change the telemetry frame |
| Session.HandshakeReads | i2cdrivers/src/main/java/org/openftc/i2cdrivers/SRSHub.java:1065-1074 | with the right hub answering, the handshake leaves the sample's values and reports ready |
| Session.UpdateAll | i2cdrivers/src/main/java/org/openftc/i2cdrivers/SRSHub.java:1083-1274 | any run of `update` calls keeps the driver's invariant, its pins and its ports |
| Session.UpdatesAccumulate | i2cdrivers/src/main/java/org/openftc/i2cdrivers/SRSHub.java:1159-1182 | over any run of good frames a quadrature port ends at its start position plus the sum of the frames' signed 16-bit steps, wrapped once to a Java `int` |
| Session.InitThenTravel | i2cdrivers/src/main/java/org/openftc/i2cdrivers/SRSHub.java:945-952 | from `init` on, which zeroes the position, a quadrature port reads the sum of the steps of every frame read, the one `init` reads included, wrapped to a Java `int` |
| Session.ReadAnalogDigitalDevice | i2cdrivers/src/main/java/org/openftc/i2cdrivers/SRSHub.java:1301-1327 | succeeds iff the pin is in 1..12, `init` has run and the pin is configured, with errors in that order; the value is in [0, 1], and 0 or 1 on a digital pin |
| Session.ReadEncoder | i2cdrivers/src/main/java/org/openftc/i2cdrivers/SRSHub.java:1341-1367 | the same for ports 1..6, returning the stored position and velocity |
| Session.FirstOfClass | i2cdrivers/src/main/java/org/openftc/i2cdrivers/SRSHub.java:1396-1400 | finds the first device of the class on the bus, or reports none has it |
| Session.GetI2CDevice | i2cdrivers/src/main/java/org/openftc/i2cdrivers/SRSHub.java:1381-1409 | checks the bus range, then `init`, then returns a device of that class on that bus or fails |
| Session.GetI2CDeviceUnique | i2cdrivers/src/main/java/org/openftc/i2cdrivers/SRSHub.java:1396-1400 | on a valid bus every configured device is the one found for its class |
| Session.ReadPinAfterUpdate | i2cdrivers/src/main/java/org/openftc/i2cdrivers/SRSHub.java:1301-1327 | after a good frame, a configured pin reads the frame's scaled level |
| Session.ReadEncoderAfterUpdate | i2cdrivers/src/main/java/org/openftc/i2cdrivers/SRSHub.java:1341-1367 | after a good frame, a configured port reads the frame's count |
| Session.GetI2CDeviceAfterUpdate | i2cdrivers/src/main/java/org/openftc/i2cdrivers/SRSHub.java:1381-1409 | after a good frame, every configured device is found with the frame's reading |
| Errors.WrappedClassDiffers | i2cdrivers/src/main/java/org/openftc/i2cdrivers/SRSHub.java:890-899 | as written, every failure raised through the helper, other than a firmware mismatch, reaches the caller as `RuntimeException` rather than its documented class |
| Session.PinZeroFailureWrapped | i2cdrivers/src/main/java/org/openftc/i2cdrivers/SRSHub.java:1301-1307 | reading pin 0 fails out of range, documented as `IndexOutOfBoundsException` but thrown as `RuntimeException` |
| Errors.ClassSeparatesFailures | i2cdrivers/src/main/java/org/openftc/i2cdrivers/SRSHub.java:1297-1299 | the documented classes: out-of-range arguments are `IndexOutOfBoundsException`, firmware mismatch is `RuntimeException`, a one-byte frame is `ArrayIndexOutOfBoundsException`, and the rest are `IllegalStateException` |

## Left out

- Transport: `deviceClient.read`/`write`, `setBusSpeed`, the constructor's address setup, and `getManufacturer`/`getDeviceName`. Reads are parameters and writes are logged. Each DEVICE_INFO read is taken to return its 4 bytes.
- `sleep(2500)` in `init` (SRSHub.java:1058-1063). An uninterrupted sleep is a delay that changes no state. If the sleep is interrupted, `init` throws a `RuntimeException` after the RESTART write and the 100-byte check, and before `verifyInitialization` and the INIT write, so `ready` stays false. That interrupted path is not modelled.
- Null arguments. `setAnalogDigitalDevice(pin, null)` stores the null (SRSHub.java:696), and a later `init` throws a `NullPointerException` after the lock and the RESTART write. `addI2CDevice(bus, null)` on a bus that already has a device throws a `NullPointerException` at `device.getClass()` (SRSHub.java:755). In the model a pin mode and a device are always present, so neither path exists.
- Session.Init: Java locks the caller's own `Config` object (SRSHub.java:930-931), so the caller's later setter calls throw `IllegalStateException`. Here `Config` is a value, so the lock reaches the copy the driver keeps, `Init(...).hub.config`, and not the argument. Session.InitLocksConfig proves that every setter fails on that kept copy.
- `RobotLog` messages and the reflective construction of exceptions. Failures are `HubError` values, and `HubError.Class`/`ThrownClass` give the Java class (see Findings).
- Devices.Parse: the Pinpoint's six float fields, and the floats of its configuration, are kept as their raw 32-bit patterns; no IEEE-754 value is modelled.
- Telemetry.PinStep: an analog value is the exact real level / 4095, not the nearest `double`.
- `packConfigFloat`: it is never called.
- `ready()` and `disconnected()` are plain fields of the model's `Hub`.
- A `null` frame from the bus is modelled as the empty frame; both only set `disconnected`.
- Devices are values inside the configuration rather than shared mutable objects. A reading updated by `update` is what `getI2CDevice` returns, but aliasing of device objects or `PosVel` objects by the caller is not modelled.
- `encoderValues` is null before the first `init`. The model holds `PosVel(0, 0)` there; the readers fail before reading it in that state anyway.
- A device's class is identified through its tag (`DeviceClass`), not through `Class<T>` reflection.
- doc/HubTest.java is a usage example that polls hardware; it is not part of this model.

## Findings

| source | as written | input that shows it | evidently intended | confidence | as-written member | corrected member |
|---|---|---|---|---|---|---|
| i2cdrivers/src/main/java/org/openftc/i2cdrivers/SRSHub.java:890-899 | `throwException` throws the requested exception inside a `try` whose `catch (Exception e)` catches it and rethrows it wrapped in `RuntimeException` | `readAnalogDigitalDevice(0)` throws `RuntimeException`, where its documentation promises `IndexOutOfBoundsException`; likewise every `IllegalStateException` of the setters, `update` and the readers | the documented class reaches the caller (`IndexOutOfBoundsException` for a bad pin, port or bus, `IllegalStateException` for the state failures) | not executed; medium: reading of the Java `try`/`catch` semantics | Errors.WrappedClassDiffers | Errors.ClassSeparatesFailures |
