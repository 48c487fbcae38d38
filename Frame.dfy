/** The sondbus frame codec. A frame is one transmission unit on the wire:

      start byte 0x55 | command byte | payload | CRC-8/AUTOSAR of all preceding bytes

    The command byte carries the two low bits of the master's rolling
    sequence counter in bits 7-6 and the command code in bits 5-0. */
module Frame {
  import opened Crc8

  type u16 = x: int | 0 <= x < 0x1_0000

  const StartByte: bv8 := 0x55
  const CmdSync: bv8 := 0x01

  /** The fixed 15-byte marker of every sync frame. */
  const SyncSequence: seq<bv8> :=
    [0x1F, 0x2E, 0x3D, 0x4C, 0x5B, 0x6A, 0x79, 0x88, 0x97, 0xA6, 0xB5, 0xC4, 0xD3, 0xE2, 0xF1]

  /** The single byte that follows the marker in a sync frame. */
  const SyncTrailer: bv8 := 1

  /** The read-logical opcode, assembled from its bit fields as the driver does. */
  const ReadLogicalCmd: bv8 := 0 | (1 << 5) | (1 << 4) | (1 << 3) | (2 << 1) | (0 << 0)

  lemma ReadLogicalCmdValue()
    ensures ReadLogicalCmd == 0x3C && ReadLogicalCmd & 0xC0 == 0
  {
  }

  /** The command byte for command code `cmd` issued while the sequence counter
      holds `counter`. A code that fits in six bits comes back unchanged in
      bits 5-0, and bits 7-6 hold the counter modulo 4. */
  function CommandByte(cmd: bv8, counter: nat): (b: bv8)
    ensures cmd & 0xC0 == 0 ==> b & 0x3F == cmd && (b >> 6) as nat == counter % 4
  {
    cmd | (LowBits(counter) << 6)
  }

  /** The counter's two low bits, as a byte. */
  function LowBits(counter: nat): (b: bv8)
    ensures b as nat == counter % 4
  {
    match counter % 4
    case 0 => 0
    case 1 => 1
    case 2 => 2
    case _ => 3
  }

  /** The two-bit sequence field of a command byte. */
  function SeqField(b: bv8): nat {
    (b >> 6) as nat
  }

  /** The counter only matters modulo 4, and successive counter values give
      successive sequence fields, wrapping from 3 to 0. */
  lemma CommandByteRolls(cmd: bv8, counter: nat)
    requires cmd & 0xC0 == 0
    ensures CommandByte(cmd, counter + 4) == CommandByte(cmd, counter)
    ensures SeqField(CommandByte(cmd, counter + 1)) == (SeqField(CommandByte(cmd, counter)) + 1) % 4
  {
  }

  /** `body` followed by its checksum. */
  function WithCrc(body: seq<bv8>): seq<bv8> {
    body + [Checksum(body)]
  }

  /** The last byte of `f` is the checksum of all bytes before it. */
  predicate CrcTrailed(f: seq<bv8>) {
    |f| >= 1 && f[|f| - 1] == Checksum(f[..|f| - 1])
  }

  /** What every frame the master sends looks like: the start byte, a command
      byte whose sequence field is `counter % 4`, and a correct trailer. */
  predicate IsFrameOf(f: seq<bv8>, counter: nat) {
    |f| >= 3 && f[0] == StartByte && SeqField(f[1]) == counter % 4 && CrcTrailed(f)
  }

  /** A number below 16 as a byte. */
  function Nibble(n: int): (b: bv8)
    requires 0 <= n < 0x10
    ensures b as int == n
  {
    match n
    case 0 => 0x0 case 1 => 0x1 case 2 => 0x2 case 3 => 0x3
    case 4 => 0x4 case 5 => 0x5 case 6 => 0x6 case 7 => 0x7
    case 8 => 0x8 case 9 => 0x9 case 10 => 0xA case 11 => 0xB
    case 12 => 0xC case 13 => 0xD case 14 => 0xE case _ => 0xF
  }

  /** A number below 256 as a byte, assembled from its two hexadecimal
      digits. */
  function Byte(n: int): bv8
    requires 0 <= n < 0x100
  {
    (Nibble(n / 0x10) << 4) | Nibble(n % 0x10)
  }

  lemma JoinNibbles(h: bv8, l: bv8)
    requires h as int < 0x10 && l as int < 0x10
    ensures ((h << 4) | l) as int == (h as int) * 0x10 + (l as int)
  {
  }

  /** The byte has the value of the number. */
  lemma ByteValue(n: int)
    requires 0 <= n < 0x100
    ensures Byte(n) as int == n
  {
    var h, l := Nibble(n / 0x10), Nibble(n % 0x10);
    assert Byte(n) == (h << 4) | l;
    JoinNibbles(h, l);
  }

  /** Two bytes as a 16-bit value, high byte first. */
  function Join16(h: bv8, l: bv8): bv16 {
    ((h as bv16) << 8) | (l as bv16)
  }

  /** The bit-vector fact behind `Join16Value`, stated on the expression
      itself: stated on the function application, the solver needs far more
      work for it. */
  lemma JoinBytes(h: bv8, l: bv8)
    ensures (((h as bv16) << 8) | (l as bv16)) as int == (h as int) * 0x100 + (l as int)
  {
  }

  /** The value of two joined bytes as a number. */
  lemma Join16Value(h: bv8, l: bv8)
    ensures Join16(h, l) as int == (h as int) * 0x100 + (l as int)
  {
    var j := Join16(h, l);
    assert j == ((h as bv16) << 8) | (l as bv16);
    JoinBytes(h, l);
  }

  /** An integer argument reduced modulo 2^16, as a 16-bit field. No value is
      rejected: out-of-range arguments wrap around. The field is assembled
      from the argument's two low bytes; `Field16Value` proves that it equals
      the driver's mask `x & 0xFFFF`, that is `x mod 65536`, for every `x`. */
  function Field16(x: int): bv16 {
    Join16(Byte(x / 0x100 % 0x100), Byte(x % 0x100))
  }

  /** The residue modulo 2^16 is made of the two low bytes. */
  lemma Residue16(x: int)
    ensures x % 0x1_0000 == (x / 0x100 % 0x100) * 0x100 + x % 0x100
  {
    var q := x / 0x100;
    assert x == q * 0x100 + x % 0x100;
    assert q == (q / 0x100) * 0x100 + q % 0x100;
    assert x == (q / 0x100) * 0x1_0000 + ((q % 0x100) * 0x100 + x % 0x100);
  }

  lemma Field16OfBytes(x: int)
    ensures Field16(x) as int == (x / 0x100 % 0x100) * 0x100 + x % 0x100
  {
    var h, l := Byte(x / 0x100 % 0x100), Byte(x % 0x100);
    assert Field16(x) == Join16(h, l);
    ByteValue(x / 0x100 % 0x100);
    ByteValue(x % 0x100);
    Join16Value(h, l);
  }

  /** The field holds the argument's residue modulo 2^16. */
  lemma Field16Value(x: int)
    ensures Field16(x) as int == x % 0x1_0000
  {
    Field16OfBytes(x);
    Residue16(x);
  }

  /** An argument already in range is sent unchanged. */
  lemma Field16InRange(x: int)
    requires 0 <= x < 0x1_0000
    ensures Field16(x) as int == x
  {
    Field16Value(x);
    SmallResidue(x);
  }

  /** Kept apart from the bit-vector facts above, which make it expensive. */
  lemma SmallResidue(x: int)
    requires 0 <= x < 0x1_0000
    ensures x % 0x1_0000 == x
  {
  }

  /** Arguments that differ by 2^16 give the same field, so 0x10000 is sent
      as 0 and -1 as 0xFFFF. */
  lemma Field16Wraps(x: int)
    ensures Field16(x + 0x1_0000) == Field16(x)
    ensures Field16(0x1_0000) == 0 && Field16(-1) == 0xFFFF
  {
    assert (x + 0x1_0000) / 0x100 == x / 0x100 + 0x100;
    assert (x + 0x1_0000) / 0x100 % 0x100 == x / 0x100 % 0x100;
    assert (x + 0x1_0000) % 0x100 == x % 0x100;
    assert 0x1_0000 / 0x100 % 0x100 == 0 && 0x1_0000 % 0x100 == 0;
    assert -1 / 0x100 % 0x100 == 0xFF && -1 % 0x100 == 0xFF;
  }

  /** A 16-bit value, most significant byte first. */
  function BigEndian16(v: bv16): (s: seq<bv8>)
    ensures |s| == 2 && FromBigEndian16(s) == v
  {
    [(v >> 8) as bv8, (v & 0xFF) as bv8]
  }

  function FromBigEndian16(s: seq<bv8>): bv16
    requires |s| == 2
  {
    Join16(s[0], s[1])
  }

  lemma BigEndian16OfDecoded(s: seq<bv8>)
    requires |s| == 2
    ensures BigEndian16(FromBigEndian16(s)) == s
  {
    var t := BigEndian16(FromBigEndian16(s));
    assert t[0] == s[0] && t[1] == s[1];
  }

  // ---------------------------------------------------------------- sync

  /** The sync frame sent while the counter holds `counter`. */
  function SyncFrame(counter: nat): (f: seq<bv8>)
    ensures |f| == 19
  {
    WithCrc([StartByte, CommandByte(CmdSync, counter)] + SyncSequence + [SyncTrailer])
  }

  /** The sync frame byte by byte. */
  lemma SyncFrameLayout(counter: nat)
    ensures var f := SyncFrame(counter);
            f[0] == 0x55 && f[1] == 0x01 | (LowBits(counter) << 6) &&
            f[2..17] == SyncSequence && f[17] == 0x01 && f[18] == Checksum(f[..18])
  {
    var f := SyncFrame(counter);
    assert f[..18] == [StartByte, CommandByte(CmdSync, counter)] + SyncSequence + [SyncTrailer];
  }

  /** How a receiver recognises a sync frame; it yields the sequence field. */
  function ParseSync(f: seq<bv8>): Option<nat> {
    if |f| == 19 && f[0] == StartByte && f[1] & 0x3F == CmdSync
       && f[2..17] == SyncSequence && f[17] == SyncTrailer && CrcTrailed(f)
    then Some(SeqField(f[1]))
    else None
  }

  /** A receiver decodes a sync frame to the counter it was sent with, modulo 4. */
  lemma SyncRoundTrip(counter: nat)
    ensures ParseSync(SyncFrame(counter)) == Some(counter % 4)
  {
    var f := SyncFrame(counter);
    SyncFrameLayout(counter);
    assert f[..18] == f[..|f| - 1];
  }

  /** Conversely, every frame a receiver accepts as sync is exactly the frame
      the master builds for that sequence field. */
  lemma ParseSyncExact(f: seq<bv8>)
    requires ParseSync(f).Some?
    ensures f == SyncFrame(ParseSync(f).value)
  {
    var c := ParseSync(f).value;
    var g := SyncFrame(c);
    SyncFrameLayout(c);
    assert f[1] == CommandByte(CmdSync, c);
    assert f[..18] == g[..18] by {
      forall k | 0 <= k < 18 ensures f[k] == g[k] {
        if 2 <= k < 17 {
          assert f[k] == f[2..17][k - 2] && g[k] == g[2..17][k - 2];
        }
      }
    }
    assert f == f[..18] + [f[18]];
    assert g == g[..18] + [g[18]];
  }

  /** Two consecutive sync frames agree on every byte except the command byte
      and the CRC; the sequence field advances by one modulo 4 and the CRC
      necessarily differs as well. */
  lemma ConsecutiveSyncFrames(counter: nat)
    ensures forall k :: 0 <= k < 19 && k != 1 && k != 18 ==> SyncFrame(counter)[k] == SyncFrame(counter + 1)[k]
    ensures SeqField(SyncFrame(counter + 1)[1]) == (SeqField(SyncFrame(counter)[1]) + 1) % 4
    ensures SyncFrame(counter)[1] != SyncFrame(counter + 1)[1]
    ensures SyncFrame(counter)[18] != SyncFrame(counter + 1)[18]
  {
    var f, g := SyncFrame(counter), SyncFrame(counter + 1);
    SyncFrameLayout(counter);
    SyncFrameLayout(counter + 1);
    var rest := SyncSequence + [SyncTrailer];
    assert f[..18] == [StartByte] + [f[1]] + rest;
    assert g[..18] == [StartByte] + [g[1]] + rest;
    CommandByteRolls(CmdSync, counter);
    SingleByteErrorDetected([StartByte], f[1], g[1], rest);
  }

  // --------------------------------------------------------- read logical

  /** The read-logical request sent while the counter holds `counter`, for
      slave `slave`, logical offset `offset` and `len` bytes. */
  function ReadRequest(counter: nat, slave: bv16, offset: bv16, len: bv16): (f: seq<bv8>)
    ensures |f| == 9
  {
    WithCrc([StartByte, CommandByte(ReadLogicalCmd, counter)]
            + BigEndian16(slave) + BigEndian16(offset) + BigEndian16(len))
  }

  /** The read-logical request byte by byte. */
  lemma ReadRequestLayout(counter: nat, slave: bv16, offset: bv16, len: bv16)
    ensures var f := ReadRequest(counter, slave, offset, len);
            f[0] == 0x55 && f[1] == 0x3C | (LowBits(counter) << 6) &&
            f[2..4] == BigEndian16(slave) && f[4..6] == BigEndian16(offset) &&
            f[6..8] == BigEndian16(len) && f[8] == Checksum(f[..8])
  {
    var f := ReadRequest(counter, slave, offset, len);
    var body := [StartByte, CommandByte(ReadLogicalCmd, counter)]
                + BigEndian16(slave) + BigEndian16(offset) + BigEndian16(len);
    assert f[..8] == body;
    ReadLogicalCmdValue();
  }

  /** The length field of a request built from an integer `len` reads back as
      `len` modulo 2^16, one less than the number of bytes the master then
      asks the port for. */
  lemma ReadRequestLengthField(counter: nat, slave: int, offset: int, len: int)
    ensures FromBigEndian16(ReadRequest(counter, Field16(slave), Field16(offset), Field16(len))[6..8]) as int
            == len % 0x1_0000
  {
    ReadRequestLayout(counter, Field16(slave), Field16(offset), Field16(len));
    Field16Value(len);
  }

  /** The fields a receiver reads out of a read-logical request. */
  datatype Request = Request(seqField: nat, slave: bv16, offset: bv16, len: bv16)

  function ParseReadRequest(f: seq<bv8>): Option<Request> {
    if |f| == 9 && f[0] == StartByte && f[1] & 0x3F == ReadLogicalCmd && CrcTrailed(f)
    then Some(Request(SeqField(f[1]), FromBigEndian16(f[2..4]),
                      FromBigEndian16(f[4..6]), FromBigEndian16(f[6..8])))
    else None
  }

  /** A receiver decodes a request to exactly the fields it was built from. */
  lemma ReadRequestRoundTrip(counter: nat, slave: bv16, offset: bv16, len: bv16)
    ensures ParseReadRequest(ReadRequest(counter, slave, offset, len))
            == Some(Request(counter % 4, slave, offset, len))
  {
    var f := ReadRequest(counter, slave, offset, len);
    ReadRequestLayout(counter, slave, offset, len);
    ReadLogicalCmdValue();
    assert f[..8] == f[..|f| - 1];
  }

  /** Conversely, every frame a receiver accepts as a read-logical request is
      exactly the request the master builds for those fields: different field
      values never share a frame. */
  lemma ParseReadRequestExact(f: seq<bv8>)
    requires ParseReadRequest(f).Some?
    ensures var q := ParseReadRequest(f).value;
            f == ReadRequest(q.seqField, q.slave, q.offset, q.len)
  {
    var q := ParseReadRequest(f).value;
    var g := ReadRequest(q.seqField, q.slave, q.offset, q.len);
    ReadRequestLayout(q.seqField, q.slave, q.offset, q.len);
    ReadLogicalCmdValue();
    assert f[1] == CommandByte(ReadLogicalCmd, q.seqField);
    BigEndian16OfDecoded(f[2..4]);
    BigEndian16OfDecoded(f[4..6]);
    BigEndian16OfDecoded(f[6..8]);
    assert f[..8] == g[..8] by {
      forall k | 0 <= k < 8 ensures f[k] == g[k] {
        if 2 <= k < 4 {
          assert f[k] == f[2..4][k - 2] && g[k] == g[2..4][k - 2];
        } else if 4 <= k < 6 {
          assert f[k] == f[4..6][k - 4] && g[k] == g[4..6][k - 4];
        } else if 6 <= k < 8 {
          assert f[k] == f[6..8][k - 6] && g[k] == g[6..8][k - 6];
        }
      }
    }
    assert f == f[..8] + [f[8]];
    assert g == g[..8] + [g[8]];
  }

  /** Both kinds of frame are frames of the counter they were built with. */
  lemma SyncFrameIsFrame(counter: nat)
    ensures IsFrameOf(SyncFrame(counter), counter)
  {
    var f := SyncFrame(counter);
    SyncFrameLayout(counter);
    assert f[..18] == f[..|f| - 1];
  }

  lemma ReadRequestIsFrame(counter: nat, slave: bv16, offset: bv16, len: bv16)
    ensures IsFrameOf(ReadRequest(counter, slave, offset, len), counter)
  {
    var f := ReadRequest(counter, slave, offset, len);
    ReadRequestLayout(counter, slave, offset, len);
    assert f[..8] == f[..|f| - 1];
  }

  datatype Option<+T> = None | Some(value: T)
}
