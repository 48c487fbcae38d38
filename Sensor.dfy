/** How the sensors use the driver (sensor.py): each update opens a session,
    sends 100 sync frames, then reads the four bytes of one temperature from
    slave 0. The registered sensor `VorlaufSensor` reads logical offset 0
    (sensor.py:51-57); `RuecklaufSensor`, which is defined but not registered,
    reads logical offset 4 (sensor.py:78-84). Turning the four bytes into a
    temperature is not part of this model. */
module Sensor {
  import opened Crc8
  import opened Frame
  import opened Sondbus

  /** How many sync frames a sensor sends before it reads. */
  const SyncCalls: nat := 100

  /** The logical offsets the two sensors read. */
  const VorlaufOffset: int := 0
  const RuecklaufOffset: int := 4

  /** The port log of a fresh session after `n` sync calls. */
  function SyncLog(n: nat): seq<PortEvent> {
    if n == 0 then [] else SyncLog(n - 1) + [Write(SyncFrame(n - 1))]
  }

  /** A fresh session after the sensor's sync calls. */
  method Startup() returns (bus: Master)
    ensures fresh(bus) && bus.Valid()
    ensures bus.syncSequence == SyncCalls && bus.wire == SyncLog(SyncCalls)
  {
    bus := new Master();
    for i := 0 to SyncCalls
      invariant bus.Valid()
      invariant bus.syncSequence == i
      invariant bus.wire == SyncLog(i)
    {
      bus.Sync();
    }
  }

  /** One sensor update on a fresh session, reading four bytes at logical
      offset `offset` of slave 0; `rx` is what the port returns for the read.
      The port sees the sync frames of counter values 0 to 99, then the
      read-logical request of counter value 100 and a read of five bytes; a
      reply the master accepts carries exactly four payload bytes. The
      session stays usable afterwards. */
  method PollTemperature(offset: int, rx: seq<bv8>) returns (r: Result<seq<bv8>>, bus: Master)
    requires |rx| <= 5
    ensures fresh(bus) && bus.Valid() && bus.syncSequence == SyncCalls + 1
    ensures bus.wire == SyncLog(SyncCalls) + [Write(ReadRequest(SyncCalls, 0, Field16(offset), 4)), Read(5)]
    ensures r == CheckReply(ReadRequest(SyncCalls, 0, Field16(offset), 4), 4, rx)
    ensures r.Ok? <==> |rx| == 5 && rx[4] == Checksum(ReadRequest(SyncCalls, 0, Field16(offset), 4) + rx[..4])
    ensures r.Ok? ==> r.value == rx[..4]
  {
    bus := Startup();
    assert Field16(0) == 0 && Field16(4) == 4 && 4 % 0x1_0000 == 4;
    r := bus.ReadLogical(0, offset, 4, rx);
    ghost var request := ReadRequest(SyncCalls, 0, Field16(offset), 4);
    if |rx| == 5 {
      ReplyAcceptedIff(request, 4, rx);
    } else {
      ShortReplyRejected(request, 4, rx);
    }
  }

  /** The request of the `VorlaufSensor` poll, byte for byte: the sequence
      field of the 101st command is 100 mod 4 = 0, so the command byte is the
      bare opcode. */
  lemma VorlaufRequestBytes()
    ensures ReadRequest(SyncCalls, 0, Field16(VorlaufOffset), 4)
            == [0x55, 0x3C, 0x00, 0x00, 0x00, 0x00, 0x00, 0x04, 0xBF]
  {
    assert Field16(VorlaufOffset) == 0;
    var f := ReadRequest(SyncCalls, 0, 0, 4);
    ReadLogicalCmdValue();
    assert f[..8] == [0x55, 0x3C, 0x00, 0x00] + [0x00, 0x00, 0x00, 0x04];
    RequestHead();
    VorlaufTail();
    RegisterAppend(Init, [0x55, 0x3C, 0x00, 0x00], [0x00, 0x00, 0x00, 0x04]);
    assert f == f[..8] + [f[8]];
  }

  /** The request of the `RuecklaufSensor` poll, byte for byte: it differs
      from the one above in the offset field and the CRC. */
  lemma RuecklaufRequestBytes()
    ensures ReadRequest(SyncCalls, 0, Field16(RuecklaufOffset), 4)
            == [0x55, 0x3C, 0x00, 0x00, 0x00, 0x04, 0x00, 0x04, 0x87]
  {
    assert Field16(4) == 4;
    RuecklaufRequest();
  }

  lemma RuecklaufRequest()
    ensures ReadRequest(SyncCalls, 0, 4, 4) == [0x55, 0x3C, 0x00, 0x00, 0x00, 0x04, 0x00, 0x04, 0x87]
  {
    var f := ReadRequest(SyncCalls, 0, 4, 4);
    ReadLogicalCmdValue();
    assert f[..8] == [0x55, 0x3C, 0x00, 0x00] + [0x00, 0x04, 0x00, 0x04];
    RequestHead();
    RuecklaufTail();
    RegisterAppend(Init, [0x55, 0x3C, 0x00, 0x00], [0x00, 0x04, 0x00, 0x04]);
    assert f == f[..8] + [f[8]];
  }

  /** The register after the start byte, the command byte and the slave field
      of both requests. */
  lemma RequestHead()
    ensures Register(Init, [0x55, 0x3C, 0x00, 0x00]) == 0x14
  {
    RegisterCons(0xFF, 0x55, [0x3C, 0x00, 0x00]);
    FeedByteUnrolled(0xFF, 0x55);
    assert FeedByte(0xFF, 0x55) == 0x99;
    RegisterCons(0x99, 0x3C, [0x00, 0x00]);
    FeedByteUnrolled(0x99, 0x3C);
    assert FeedByte(0x99, 0x3C) == 0x03;
    RegisterCons(0x03, 0x00, [0x00]);
    FeedByteUnrolled(0x03, 0x00);
    assert FeedByte(0x03, 0x00) == 0x71;
    RegisterCons(0x71, 0x00, []);
    FeedByteUnrolled(0x71, 0x00);
    assert FeedByte(0x71, 0x00) == 0x14;
  }

  /** Offset 0 and length 4; 0x40 ^ 0xFF == 0xBF. */
  lemma VorlaufTail()
    ensures Register(0x14, [0x00, 0x00, 0x00, 0x04]) == 0x40
  {
    RegisterCons(0x14, 0x00, [0x00, 0x00, 0x04]);
    FeedByteUnrolled(0x14, 0x00);
    assert FeedByte(0x14, 0x00) == 0x12;
    RegisterCons(0x12, 0x00, [0x00, 0x04]);
    FeedByteUnrolled(0x12, 0x00);
    assert FeedByte(0x12, 0x00) == 0xF0;
    RegisterCons(0xF0, 0x00, [0x04]);
    FeedByteUnrolled(0xF0, 0x00);
    assert FeedByte(0xF0, 0x00) == 0xD8;
    RegisterCons(0xD8, 0x04, []);
    FeedByteUnrolled(0xD8, 0x04);
    assert FeedByte(0xD8, 0x04) == 0x40;
  }

  /** Offset 4 and length 4; 0x78 ^ 0xFF == 0x87. */
  lemma RuecklaufTail()
    ensures Register(0x14, [0x00, 0x04, 0x00, 0x04]) == 0x78
  {
    RegisterCons(0x14, 0x00, [0x04, 0x00, 0x04]);
    FeedByteUnrolled(0x14, 0x00);
    assert FeedByte(0x14, 0x00) == 0x12;
    RegisterCons(0x12, 0x04, [0x00, 0x04]);
    FeedByteUnrolled(0x12, 0x04);
    assert FeedByte(0x12, 0x04) == 0x4C;
    RegisterCons(0x4C, 0x00, [0x04]);
    FeedByteUnrolled(0x4C, 0x00);
    assert FeedByte(0x4C, 0x00) == 0x0D;
    RegisterCons(0x0D, 0x04, []);
    FeedByteUnrolled(0x0D, 0x04);
    assert FeedByte(0x0D, 0x04) == 0x78;
  }
}
