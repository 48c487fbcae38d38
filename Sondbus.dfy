/** The sondbus master: a session on one serial connection, holding the rolling
    sequence counter, with the sync and read-logical transactions.

    The serial port is not modelled as an object. What the master writes and
    how many bytes it asks to read are recorded in the ghost log `wire`; the
    bytes a read returns are a parameter of the transaction. */
module Sondbus {
  import opened Crc8
  import opened Frame

  /** Why a read-logical transaction fails. `CrcError` is the driver's own
      exception; `ShortRead` is the index error the driver runs into when the
      port returns fewer bytes than requested. */
  datatype ReadError = CrcError | ShortRead

  datatype Result<+T> = Ok(value: T) | Err(error: ReadError)

  /** One use of the port: a frame written, or a read of `count` bytes. */
  datatype PortEvent = Write(frame: seq<bv8>) | Read(count: nat)

  /** The frames written, in order, by a log of port events. */
  function Written(log: seq<PortEvent>): seq<seq<bv8>>
    decreases |log|
  {
    if log == [] then []
    else
      var rest := Written(log[..|log| - 1]);
      match log[|log| - 1]
      case Write(f) => rest + [f]
      case Read(_) => rest
  }

  lemma WrittenSnoc(log: seq<PortEvent>, e: PortEvent)
    ensures Written(log + [e]) == Written(log) + (if e.Write? then [e.frame] else [])
  {
    assert (log + [e])[..|log|] == log;
  }

  /** Frame number `i` of a session is a frame of counter value `i`. */
  predicate SessionFrames(frames: seq<seq<bv8>>) {
    forall i :: 0 <= i < |frames| ==> IsFrameOf(frames[i], i)
  }

  /** In a session, each command byte's sequence field is the previous one's
      plus one, modulo 4, whatever kinds of command the two frames carry. */
  lemma SessionSequenceRolls(frames: seq<seq<bv8>>, i: nat)
    requires SessionFrames(frames)
    requires i + 1 < |frames|
    ensures SeqField(frames[i + 1][1]) == (SeqField(frames[i][1]) + 1) % 4
  {
    assert IsFrameOf(frames[i], i) && IsFrameOf(frames[i + 1], i + 1);
  }

  /** A session whose next frame carries the next counter value is still a
      session. */
  lemma SessionAppend(frames: seq<seq<bv8>>, f: seq<bv8>)
    requires SessionFrames(frames) && IsFrameOf(f, |frames|)
    ensures SessionFrames(frames + [f])
  {
  }

  /** Checks the bytes `rx` returned for a read of `len + 1` bytes after
      `request` was sent: all but the last received byte are the payload, and
      the byte at index `len` must equal the checksum of the request frame
      (its own CRC included) followed by the payload. */
  function CheckReply(request: seq<bv8>, len: u16, rx: seq<bv8>): Result<seq<bv8>> {
    var payload := if |rx| == 0 then [] else rx[..|rx| - 1];
    var calced := Checksum(request + payload);
    if |rx| <= len then Err(ShortRead)
    else if rx[len] != calced then Err(CrcError)
    else Ok(payload)
  }

  /** When the port delivers the `len + 1` bytes requested, the reply is
      accepted exactly when its last byte is the checksum of the request
      followed by the first `len` bytes, and then the result is those `len`
      bytes, unchanged and in order; otherwise the failure is a CRC error. */
  lemma ReplyAcceptedIff(request: seq<bv8>, len: u16, rx: seq<bv8>)
    requires |rx| == len + 1
    ensures CheckReply(request, len, rx).Ok? <==> rx[len] == Checksum(request + rx[..len])
    ensures CheckReply(request, len, rx).Ok? ==> CheckReply(request, len, rx).value == rx[..len]
    ensures CheckReply(request, len, rx).Err? ==> CheckReply(request, len, rx).error == CrcError
  {
  }

  /** A reply shorter than requested is never accepted. */
  lemma ShortReplyRejected(request: seq<bv8>, len: u16, rx: seq<bv8>)
    requires |rx| < len + 1
    ensures CheckReply(request, len, rx) == Err(ShortRead)
  {
  }

  /** A slave that answers with the requested number of bytes followed by the
      checksum over the request and those bytes is always accepted, and the
      master gets back exactly what the slave sent. */
  lemma AuthenticReplyAccepted(request: seq<bv8>, payload: seq<bv8>)
    requires |payload| < 0x1_0000
    ensures CheckReply(request, |payload|, payload + [Checksum(request + payload)]) == Ok(payload)
  {
    var rx := payload + [Checksum(request + payload)];
    assert rx[..|rx| - 1] == payload;
  }

  /** Any one byte of an authentic reply that is corrupted on the wire, payload
      or CRC alike, makes the transaction fail with a CRC error. */
  lemma CorruptedReplyRejected(request: seq<bv8>, payload: seq<bv8>, i: nat, b: bv8)
    requires |payload| < 0x1_0000
    requires i <= |payload|
    requires b != (payload + [Checksum(request + payload)])[i]
    ensures CheckReply(request, |payload|, (payload + [Checksum(request + payload)])[i := b]) == Err(CrcError)
  {
    var good := payload + [Checksum(request + payload)];
    var rx := good[i := b];
    var len := |payload|;
    if i < len {
      var bad := rx[..len];
      assert request + payload == (request + payload[..i]) + [payload[i]] + payload[i + 1..];
      assert request + bad == (request + payload[..i]) + [b] + payload[i + 1..];
      SingleByteErrorDetected(request + payload[..i], payload[i], b, payload[i + 1..]);
      assert rx[len] == Checksum(request + payload);
      assert rx[..|rx| - 1] == bad;
    } else {
      assert rx[..|rx| - 1] == payload;
    }
  }

  /** The checksum over a request frame and a payload depends on the request
      only through the fact that the request ends in its own correct CRC: for
      any two such requests the reply check gives the same verdict. The
      extended checksum therefore does not tie a reply to the request that
      asked for it. */
  lemma ReplyCheckIgnoresRequest(req1: seq<bv8>, req2: seq<bv8>, len: u16, rx: seq<bv8>)
    requires CrcTrailed(req1) && CrcTrailed(req2)
    ensures CheckReply(req1, len, rx) == CheckReply(req2, len, rx)
  {
    var payload := if |rx| == 0 then [] else rx[..|rx| - 1];
    forall req | CrcTrailed(req)
      ensures Checksum(req + payload) == Register(Residue, payload) ^ XorOut
    {
      var body := req[..|req| - 1];
      assert req == body + [Checksum(body)];
      ResidueAfterChecksum(body);
      RegisterAppend(Init, req, payload);
    }
  }

  /** A master session. */
  class Master {
    /** The rolling sequence counter; only its two low bits reach the wire. */
    var syncSequence: nat
    /** Everything done on the port so far. */
    ghost var wire: seq<PortEvent>

    /** The session invariant: the counter equals the number of frames
        written, and frame number `i` is a well-formed frame whose command
        byte carries `i` modulo 4. */
    ghost predicate Valid()
      reads this
    {
      syncSequence == |Written(wire)| && SessionFrames(Written(wire))
    }

    /** A new session starts with the counter at 0 and an unused port. */
    constructor ()
      ensures Valid()
      ensures syncSequence == 0 && wire == []
    {
      syncSequence := 0;
      wire := [];
    }

    /** Stamps the counter's two low bits into bits 7-6 of `cmd` and advances
        the counter by one. */
    method MakeCmd(cmd: bv8) returns (b: bv8)
      modifies this`syncSequence
      ensures syncSequence == old(syncSequence) + 1
      ensures b == CommandByte(cmd, old(syncSequence))
      ensures cmd & 0xC0 == 0 ==> b & 0x3F == cmd && SeqField(b) == old(syncSequence) % 4
    {
      var sync := syncSequence;
      syncSequence := syncSequence + 1;
      b := cmd | (LowBits(sync) << 6);
    }

    /** Writes one sync frame and reads nothing. */
    method Sync()
      requires Valid()
      modifies this
      ensures Valid()
      ensures syncSequence == old(syncSequence) + 1
      ensures wire == old(wire) + [Write(SyncFrame(old(syncSequence)))]
    {
      ghost var n := syncSequence;
      var data: seq<bv8> := [];
      var cmd := MakeCmd(CmdSync);
      data := data + [StartByte, cmd];
      data := data + SyncSequence;
      data := data + [SyncTrailer];
      assert data == [StartByte, CommandByte(CmdSync, n)] + SyncSequence + [SyncTrailer];
      data := data + [Checksum(data)];
      // the port write
      WrittenSnoc(wire, Write(data));
      SyncFrameIsFrame(n);
      SessionAppend(Written(wire), data);
      wire := wire + [Write(data)];
    }

    /** Reads `len` bytes of logical memory at `offset` from slave `slave`.
        The three arguments are reduced modulo 2^16, never rejected; `rx` is
        what the port returns for the read of `len + 1` bytes. */
    method ReadLogical(slave: int, offset: int, len: int, rx: seq<bv8>) returns (r: Result<seq<bv8>>)
      requires Valid()
      modifies this
      ensures Valid()
      ensures syncSequence == old(syncSequence) + 1
      ensures var request := ReadRequest(old(syncSequence), Field16(slave), Field16(offset), Field16(len));
              wire == old(wire) + [Write(request), Read(len % 0x1_0000 + 1)] &&
              r == CheckReply(request, len % 0x1_0000, rx)
    {
      ghost var n := syncSequence;
      var l: u16 := len % 0x1_0000;
      var slaveField, offsetField, lenField := Field16(slave), Field16(offset), Field16(len);

      var cmdByte := ReadLogicalCmd;

      var data: seq<bv8> := [];
      var cmd := MakeCmd(cmdByte);
      data := data + [StartByte, cmd];
      data := data + BigEndian16(slaveField);
      data := data + BigEndian16(offsetField);
      data := data + BigEndian16(lenField);
      assert data == [StartByte, CommandByte(ReadLogicalCmd, n)]
                     + BigEndian16(slaveField) + BigEndian16(offsetField) + BigEndian16(lenField);
      data := data + [Checksum(data)];
      ghost var request := data;
      assert request == ReadRequest(n, slaveField, offsetField, lenField);

      // the port write, then the read of l + 1 bytes
      WrittenSnoc(wire, Write(data));
      ReadRequestIsFrame(n, slaveField, offsetField, lenField);
      SessionAppend(Written(wire), data);
      wire := wire + [Write(data)];
      WrittenSnoc(wire, Read(l + 1));
      wire := wire + [Read(l + 1)];

      var payload := if |rx| == 0 then [] else rx[..|rx| - 1];
      data := data + payload;

      var calcedCrc := Checksum(data);
      assert calcedCrc == Checksum(request + payload);
      if |rx| <= l {
        r := Err(ShortRead);
      } else {
        var crc := rx[l];
        if crc != calcedCrc {
          r := Err(CrcError);
        } else {
          r := Ok(payload);
        }
      }
      assert r == CheckReply(request, l, rx);
    }
  }
}
