# sondbus master driver in Dafny

This project models the master side of sondbus, a half-duplex serial bus on
which a master polls the logical memory of slave devices. It models the whole
driver in `sondbus.py`:

- **CRC engine** (`Crc8.dfy`): the CRC-8/AUTOSAR checksum, written out as
  bit-at-a-time polynomial division. The parameters are polynomial 0x2F,
  initial register 0xFF, no reflection and final XOR 0xFF.
- **Frame codec** (`Frame.dfy`): the command byte, which carries the two low
  bits of the rolling sequence counter in bits 7-6. Also the 19-byte sync
  frame and the 9-byte read-logical request, each with a receiver-side parser
  proved to be its exact inverse.
- **Master session** (`Sondbus.dfy`): the class `Master`. It holds the counter
  `syncSequence` and a ghost log `wire` of everything done on the port. Its
  methods are `MakeCmd`, `Sync` and `ReadLogical`. The function `CheckReply`
  is the reply check. It computes the CRC over the request frame (its own CRC
  included) followed by the received payload.
- **Usage** (`Sensor.dfy`): how the sensor updates call the driver. A fresh
  session sends 100 sync frames, then reads 4 bytes of slave 0. The
  registered sensor `VorlaufSensor` reads offset 0 (sensor.py:51-57).
  `RuecklaufSensor`, which is defined but never registered, reads offset 4
  (sensor.py:78-84). `PollTemperature` takes the offset, so it covers both.

`Master.Valid()` is the session invariant. The counter equals the number of
frames written. Frame number `i` starts with 0x55, ends with its correct CRC,
and its command byte's sequence field is `i mod 4`. `Sync` and `ReadLogical`
both preserve it, so the counter advances by exactly one per command, whatever
its kind (`SessionSequenceRolls`).

The methods build each frame the way the driver does. They start from an
empty buffer and extend it step by step. Then they append the buffer's
checksum. For a read they append the received payload to the same buffer
before computing the second checksum. Each method's `ensures` equates the
frame it writes with `SyncFrame` or `ReadRequest`. The layout facts and round
trips are proved about those two functions.

Two consequences of the CRC profile are proved as well:

- Any single corrupted or wrong byte in a reply is always rejected
  (`CorruptedReplyRejected`, from `SingleByteErrorDetected`).
- A message followed by its own CRC always leaves the register at 0x42
  (`ResidueAfterChecksum`). So the extended reply checksum gives the same
  verdict for every well-formed request (`ReplyCheckIgnoresRequest`). It
  therefore does not bind a reply to the request that asked for it.

The CRC profile and the counter follow the code:

- The `crc` package's `Crc8.AUTOSAR`, which `calc_crc` uses
  (sondbus.py:31-33), has polynomial 0x2F. The polynomial 0x1D belongs to the
  SAE-J1850 profile, which is a different one. The model uses 0x2F and proves
  the profile's catalogue check value 0xDF for "123456789" (`CheckValue`).
- The driver keeps the counter as an unbounded integer and puts only its two
  low bits on the wire (sondbus.py:46-49). The model keeps a `nat` and reduces
  it modulo 4 at the same point.

The serial port is not an object here. A write appends `Write(frame)` to the
ghost log. A read appends `Read(n)`, and the bytes it returns are the
parameter `rx` of `ReadLogical`. `rx` may have any length. If it has fewer
than `len + 1` bytes, the driver's `rx[len]` raises an index error, which the
model returns as `Err(ShortRead)`. `CRCError` becomes `Err(CrcError)`.

Python's `x & 0xFFFF` on an arbitrary-precision integer equals `x mod 65536`,
including for negative `x`. Dafny's `%` with a positive divisor gives the same
value. `Field16` takes the two low bytes of the argument, and `Field16Value`
proves that the resulting 16-bit field, read as a number, is the argument
modulo 65536.

## Model

| member | source | states |
|---|---|---|
| `Crc8.Checksum` | sondbus.py:31-33 | `calc_crc`: the CRC-8/AUTOSAR register after feeding the data from initial value 0xFF, XORed with 0xFF; its properties are carried by `CheckValue`, `RegisterAppend`, `SingleByteErrorDetected` and `ResidueAfterChecksum` |
| `Crc8.CheckValue` | sondbus.py:31-33 | the checksum of the ASCII digits "123456789" is 0xDF, the catalogue check value of CRC-8/AUTOSAR, so the bitwise definition has the profile's parameters |
| `Crc8.RegisterAppend` | sondbus.py:31-33 | feeding `a + b` equals feeding `a` and then `b`, so a checksum over a buffer that was extended in place can be computed incrementally |
| `Crc8.SingleByteErrorDetected` | sondbus.py:31-33 | two messages that differ in exactly one byte always have different checksums |
| `Crc8.ResidueAfterChecksum` | sondbus.py:31-33 | for every message, feeding the message and then its own checksum leaves the register at the constant 0x42 |
| `Crc8.RegisterInjective` | sondbus.py:31-33 | two different registers stay different after feeding the same bytes |
| `Frame.CommandByte` | sondbus.py:45-49 | for a command code below 64, bits 5-0 of the command byte are the code and bits 7-6 are the counter mod 4 |
| `Frame.CommandByteRolls` | sondbus.py:45-49 | adding 4 to the counter leaves the command byte unchanged; adding 1 advances the sequence field by one mod 4, wrapping 3 to 0 |
| `Frame.ReadLogicalCmdValue` | sondbus.py:65 | the opcode assembled from bits 5, 4, 3 and the field 2 << 1 is 0x3C and leaves bits 7-6 free |
| `Frame.Field16` | sondbus.py:61-63 | the argument masked with `& 0xFFFF`, as a 16-bit field made of the argument's two low bytes; its value is stated by `Field16Value`, `Field16InRange` and `Field16Wraps` |
| `Frame.Field16Value` | sondbus.py:61-63 | the field, read as a number, is the argument modulo 65536, for every integer argument, negative ones included |
| `Frame.Field16InRange` | sondbus.py:61-63 | an argument from 0 to 65535 is sent unchanged |
| `Frame.Field16Wraps` | sondbus.py:61-63 | masking to 16 bits never rejects: arguments that differ by 2^16 give the same field, 0x10000 becomes 0 and -1 becomes 0xFFFF |
| `Frame.BigEndian16` | sondbus.py:69-71 | a 16-bit field is two bytes that decode back, high byte first, to the same value |
| `Frame.BigEndian16OfDecoded` | sondbus.py:69-71 | re-encoding the value decoded from any two bytes gives back those two bytes |
| `Frame.SyncFrame` | sondbus.py:51-56 | the 19-byte sync frame the driver builds for a counter value; its bytes are stated by `SyncFrameLayout` and its decoding by `SyncRoundTrip` and `ParseSyncExact` |
| `Frame.SyncFrameLayout` | sondbus.py:51-56 | the sync frame (19 bytes long) is: 0x55, 0x01 OR (counter mod 4) << 6, the 15-byte marker 1F 2E … F1, 0x01, then the CRC of the first 18 bytes |
| `Frame.SyncRoundTrip` | sondbus.py:51-56 | a receiver parses every sync frame back to its counter value mod 4 |
| `Frame.ParseSyncExact` | sondbus.py:51-56 | every frame the sync parser accepts is exactly the sync frame the master builds for that sequence field |
| `Frame.ConsecutiveSyncFrames` | sondbus.py:51-58 | two consecutive sync frames agree on every byte except byte 1 and byte 18; byte 1's sequence field advances by one mod 4, and both byte 1 and the CRC byte differ |
| `Frame.ReadRequest` | sondbus.py:65-72 | the 9-byte read-logical request for a counter value and three 16-bit fields; its bytes are stated by `ReadRequestLayout` and its decoding by `ReadRequestRoundTrip` and `ParseReadRequestExact` |
| `Frame.ReadRequestLayout` | sondbus.py:60-72 | the request (9 bytes long) is: 0x55, 0x3C OR (counter mod 4) << 6, slave, offset and length each big-endian, then the CRC of the first 8 bytes |
| `Frame.ReadRequestLengthField` | sondbus.py:62-76 | the length field of a request built from an integer `len` reads back as `len` mod 65536, one less than the `len + 1` bytes the driver then reads |
| `Frame.ReadRequestRoundTrip` | sondbus.py:60-72 | a receiver parses every request back to its sequence field, slave, offset and length |
| `Frame.ParseReadRequestExact` | sondbus.py:60-72 | every frame the request parser accepts is exactly the request built from the parsed fields, so distinct field values never share a frame |
| `Frame.SyncFrameIsFrame` | sondbus.py:51-56 | the sync frame starts with 0x55, carries the counter mod 4 in bits 7-6 of byte 1, and ends with the CRC of all preceding bytes |
| `Frame.ReadRequestIsFrame` | sondbus.py:67-72 | the request starts with 0x55, carries the counter mod 4 in bits 7-6 of byte 1, and ends with the CRC of all preceding bytes |
| `Sondbus.SessionAppend` | sondbus.py:45-49 | appending a frame that carries the next counter value keeps the session invariant on the list of written frames |
| `Sondbus.SessionSequenceRolls` | sondbus.py:45-49 | in a session, each frame's sequence field is the previous frame's plus one mod 4, whatever the two commands are |
| `Sondbus.CheckReply` | sondbus.py:76-87 | the reply check on the bytes a read returned: the payload is all but the last byte, a reply without byte `len` is a short read, and otherwise byte `len` must equal the CRC of the request followed by the payload; its behaviour is stated by `ReplyAcceptedIff`, `ShortReplyRejected`, `AuthenticReplyAccepted`, `CorruptedReplyRejected` and `ReplyCheckIgnoresRequest` |
| `Sondbus.ReplyAcceptedIff` | sondbus.py:76-87 | with the `len + 1` bytes requested, the reply is accepted if and only if its last byte is the CRC of the request frame followed by the first `len` bytes; then it returns those bytes unchanged and in order, and otherwise fails with `CrcError` |
| `Sondbus.ShortReplyRejected` | sondbus.py:76-82 | a reply with fewer than `len + 1` bytes is never accepted |
| `Sondbus.AuthenticReplyAccepted` | sondbus.py:76-87 | a reply made of a payload and the CRC over the request and that payload is accepted, and the master returns that payload |
| `Sondbus.CorruptedReplyRejected` | sondbus.py:79-85 | changing any one byte of an authentic reply, in the payload or the CRC, makes the transaction fail with `CrcError` |
| `Sondbus.ReplyCheckIgnoresRequest` | sondbus.py:67-81 | for any two requests that each end in their own correct CRC, the extended reply check gives the same verdict on the same received bytes |
| `Sondbus.Master.constructor` | sondbus.py:41-43 | a new session has counter 0, has used the port for nothing, and satisfies the session invariant |
| `Sondbus.Master.MakeCmd` | sondbus.py:45-49 | returns cmd OR (old counter mod 4) << 6 and increments the counter by exactly one |
| `Sondbus.Master.Sync` | sondbus.py:51-58 | appends exactly one write of `SyncFrame(old counter)` to the port log and no read; the counter goes up by one and the session invariant holds |
| `Sondbus.Master.ReadLogical` | sondbus.py:60-87 | reduces the three arguments mod 65536 without rejecting any value (`Field16`); writes `ReadRequest` for them and the old counter, then reads `len + 1` bytes, one more than the length field holds (`ReadRequestLengthField`); returns `CheckReply` of the sent frame and the received bytes; the counter goes up by one and the session invariant holds |
| `Sensor.Startup` | sensor.py:51-55 | a fresh session after 100 sync calls: the counter is 100, the session invariant holds, and the port has seen exactly the sync frames of counter values 0 to 99, in order |
| `Sensor.PollTemperature` | sensor.py:51-84 | one sensor update: 100 sync calls on a fresh session and then `read_logical(0, offset, 4)`. The port log is the 100 sync frames, then the request of counter value 100 for slave 0, the masked offset and length 4, then a read of 5 bytes. The poll succeeds if and only if 5 bytes arrive whose last is the CRC over that request and the first 4, and it then returns those 4. Afterwards the session is fresh, valid and at counter 101 |
| `Sensor.VorlaufRequestBytes` | sensor.py:57 | the `VorlaufSensor` request (offset 0) is exactly 55 3C 00 00 00 00 00 04 BF |
| `Sensor.RuecklaufRequestBytes` | sensor.py:84 | the `RuecklaufSensor` request (offset 4) is exactly 55 3C 00 00 00 04 00 04 87 |

## Left out

- The serial port itself is not modelled: its writes and reads appear only in the ghost log `wire`, and the received bytes are a parameter. Transport errors and timeouts are not modelled.
- Sensor.PollTemperature: requires the port to return at most the 5 bytes requested. `serial.Serial.read(n)` never returns more than `n`.
- Sondbus.Master.MakeCmd: takes the command code as a byte, while the driver accepts any integer. The driver only ever passes 0x01 and 0x3C.
- The internals of the `crc` package are not part of this model. Its `Crc8.AUTOSAR` profile is modelled by its bitwise definition and pinned down by the check value.
- `sensor.py` beyond its call pattern: registering the entities (sensor.py:33 registers only `VorlaufSensor`), decoding the four bytes as a little-endian IEEE float (floating point) and the home-automation entity attributes.
- `config_flow.py`: a user-interface configuration step with no protocol logic.
