/**
 Reading the RC-S320's answers. The reader may leave out the ACK of a command or
 send one more, so the driver puts back what turns out not to be an ACK and skips
 one that comes late.
 */
module Rcs320Reader {
  import opened Bytes
  import opened Wrappers
  import opened Framing
  import opened Transport

  // ------------------------------------------------ what a read takes off the stream

  /** What is ahead once the ACK of a command has been waited for. */
  function AfterAck(stream: seq<byte>): Option<seq<byte>> {
    if |stream| < 6 then None
    else if stream[..6] == ACK_BYTES then Some(stream[6..])
    else if HasSof(stream) then Some(stream)
    else None
  }

  /** The bytes of the frame at the head of the stream; a zero length with checksum FF is an ACK. */
  function FrameLength(stream: seq<byte>): (r: Option<nat>)
    ensures r.Some? ==> r.value <= |stream|
  {
    if |stream| < 5 || !HasSof(stream) then None
    else
      var total := if stream[3] == 0x00 && stream[4] == 0xFF then 6 else stream[3] as int + 7;
      if |stream| < total then None else Some(total)
  }

  /** The frame at the head of the stream, and what follows it. */
  function TakeFrame(stream: seq<byte>): Option<(Frame, seq<byte>)> {
    match FrameLength(stream)
    case None => None
    case Some(total) =>
      match Parse(stream[..total], RCS320)
      case None => None
      case Some(frame) => Some((frame, stream[total..]))
  }

  function TakeData(stream: seq<byte>): Option<(seq<byte>, seq<byte>)> {
    match TakeFrame(stream)
    case None => None
    case Some((frame, rest)) => if frame.frameType.Data? then Some((frame.frameType.payload, rest)) else None
  }

  /** The payload of the next response, behind at most one ACK, and what follows it. */
  function Response(stream: seq<byte>): Option<(seq<byte>, seq<byte>)> {
    match TakeFrame(stream)
    case None => None
    case Some((frame, rest)) =>
      match frame.frameType
      case Ack => TakeData(rest)
      case Error => None
      case Data(payload) => Some((payload, rest))
  }

  /** The answer to one command. */
  function Exchange(stream: seq<byte>): Option<(seq<byte>, seq<byte>)> {
    match AfterAck(stream)
    case None => None
    case Some(ahead) => Response(ahead)
  }

  // ------------------------------------------------------- what a read leaves behind

  function AckWaited(input: Input): (Result<(), DriverError>, Input) {
    var (taken, left) := Take(input, |ACK_BYTES|);
    match taken
    case Err(error) => (Err(error), left)
    case Ok(bytes) =>
      if bytes == ACK_BYTES then (Ok(()), left)
      else if bytes[..3] == SOF then (Ok(()), left.Behind(bytes))
      else (Err(ProtocolError), left)
  }

  function FrameBytesRead(input: Input): (Result<seq<byte>, DriverError>, Input) {
    var (header, left) := Take(input, 5);
    match header
    case Err(error) => (Err(error), left)
    case Ok(frame) =>
      if frame[..3] != SOF then (Err(ProtocolError), left)
      else
        var (tail, behind) := Take(left, if frame[3] == 0x00 && frame[4] == 0xFF then 1 else frame[3] as int + 2);
        match tail
        case Err(error) => (Err(error), behind)
        case Ok(bytes) => (Ok(frame + bytes), behind)
  }

  function FrameRead(input: Input): (Result<Frame, DriverError>, Input) {
    var (bytes, left) := FrameBytesRead(input);
    match bytes
    case Err(error) => (Err(error), left)
    case Ok(raw) =>
      match Parse(raw, RCS320)
      case None => (Err(ProtocolError), left)
      case Some(frame) => (Ok(frame), left)
  }

  function Received(input: Input): (Result<seq<byte>, DriverError>, Input) {
    var (first, left) := FrameRead(input);
    match first
    case Err(error) => (Err(error), left)
    case Ok(frame) =>
      match frame.frameType
      case Error => (Err(ProtocolError), left)
      case Data(payload) => (Ok(payload), left)
      case Ack =>
        var (second, behind) := FrameRead(left);
        match second
        case Err(error) => (Err(error), behind)
        case Ok(late) =>
          (if late.frameType.Data? then Ok(late.frameType.payload) else Err(ProtocolError), behind)
  }

  function Exchanged(input: Input): (Result<seq<byte>, DriverError>, Input) {
    var (ack, left) := AckWaited(input);
    match ack
    case Err(error) => (Err(error), left)
    case Ok(_) => Received(left)
  }

  // ------------------------------------------------------- what stays ahead, come what may

  /** Reading asked for the first `n` bytes of the stream: they are gone, or all up to the next failure is. */
  ghost predicate TakesOff(input: Input, n: nat, left: Input) {
    if n <= |input.Stream()| then
      && left.Stream() == input.Stream()[n..]
      && NextFault(left.script) == NextFault(input.script) && AfterFault(left.script) == AfterFault(input.script)
    else left == Input([], AfterFault(input.script))
  }

  /** How many bytes a read asks for, by what it sees of the stream. */
  function FrameAsked(stream: seq<byte>): nat {
    if |stream| < 5 || !HasSof(stream) then 5
    else if stream[3] == 0x00 && stream[4] == 0xFF then 6
    else stream[3] as int + 7
  }

  function ResponseAsked(stream: seq<byte>): nat {
    match TakeFrame(stream)
    case None => FrameAsked(stream)
    case Some((frame, rest)) => FrameAsked(stream) + if frame.frameType.Ack? then FrameAsked(rest) else 0
  }

  function ExchangeAsked(stream: seq<byte>): nat {
    if |stream| < 6 || (stream[..6] != ACK_BYTES && !HasSof(stream)) then 6
    else if stream[..6] == ACK_BYTES then 6 + ResponseAsked(stream[6..])
    else ResponseAsked(stream)
  }

  lemma TakesOffMore(input: Input, a: nat, middle: Input, b: nat, left: Input)
    requires a <= |input.Stream()| && TakesOff(input, a, middle) && TakesOff(middle, b, left)
    ensures TakesOff(input, a + b, left)
  {
    if a + b <= |input.Stream()| {
      assert input.Stream()[a..][b..] == input.Stream()[a + b..];
    }
  }

  lemma TakeTakesOff(input: Input, len: nat)
    ensures TakesOff(input, len, Take(input, len).1)
    ensures Take(input, len).0.Ok? <==> len <= |input.Stream()|
    ensures Take(input, len).0.Ok? ==> Take(input, len).0.value == input.Stream()[..len]
  {
    TakeSplits(input, len);
  }

  lemma FrameBytesTakeOff(input: Input)
    ensures TakesOff(input, FrameAsked(input.Stream()), FrameBytesRead(input).1)
    ensures FrameBytesRead(input).0.Ok? <==> FrameLength(input.Stream()).Some?
    ensures FrameBytesRead(input).0.Ok? ==>
              && FrameLength(input.Stream()).value == FrameAsked(input.Stream()) <= |input.Stream()|
              && FrameBytesRead(input).0.value == input.Stream()[..FrameAsked(input.Stream())]
              && FrameBytesRead(input).1.Stream() == input.Stream()[FrameAsked(input.Stream())..]
  {
    hide Take, TakesOff;
    var stream := input.Stream();
    TakeTakesOff(input, 5);
    var (header, left) := Take(input, 5);
    if header.Ok? {
      assert header.value[..3] == stream[..3] && header.value[3] == stream[3] && header.value[4] == stream[4];
      if stream[..3] == SOF {
        var n := FrameAsked(stream) - 5;
        TakeTakesOff(left, n);
        TakesOffMore(input, 5, left, n, Take(left, n).1);
        TailOf(input, left, n);
      }
    }
  }

  lemma FrameTakesOff(input: Input)
    ensures TakesOff(input, FrameAsked(input.Stream()), FrameRead(input).1)
    ensures FrameRead(input).0.Ok? <==> TakeFrame(input.Stream()).Some?
    ensures FrameRead(input).0.Ok? ==>
              && FrameAsked(input.Stream()) <= |input.Stream()|
              && TakeFrame(input.Stream()) == Some((FrameRead(input).0.value, FrameRead(input).1.Stream()))
  {
    hide FrameBytesRead, FrameLength, FrameAsked, TakesOff, Parse;
    FrameBytesTakeOff(input);
  }

  lemma TailOf(input: Input, left: Input, n: nat)
    requires |input.Stream()| >= 5 && TakesOff(input, 5, left)
    ensures n <= |left.Stream()| <==> 5 + n <= |input.Stream()|
    ensures n <= |left.Stream()| ==> input.Stream()[..5] + left.Stream()[..n] == input.Stream()[..5 + n]
    ensures n <= |left.Stream()| && TakesOff(input, 5 + n, Take(left, n).1) ==>
              Take(left, n).1.Stream() == input.Stream()[5 + n..]
  {
  }

  lemma ResponseTakesOff(input: Input)
    ensures TakesOff(input, ResponseAsked(input.Stream()), Received(input).1)
  {
    hide TakesOff, FrameRead, TakeFrame, FrameAsked;
    FrameTakesOff(input);
    var (first, left) := FrameRead(input);
    if first.Ok? && first.value.frameType.Ack? {
      FrameTakesOff(left);
      TakesOffMore(input, FrameAsked(input.Stream()), left, FrameAsked(left.Stream()), FrameRead(left).1);
    }
  }

  /**
   Whether an exchange succeeds or fails, exactly the bytes it asked for are off the stream,
   or everything up to the failure that kept them back: nothing is drained, and a frame that
   came instead of the ACK is not lost.
   */
  lemma ExchangeTakesOff(input: Input)
    ensures TakesOff(input, ExchangeAsked(input.Stream()), Exchanged(input).1)
  {
    hide Take, FrameRead, Received, ResponseAsked;
    var stream := input.Stream();
    TakeTakesOff(input, 6);
    var (taken, left) := Take(input, 6);
    if taken.Ok? {
      assert taken.value[..3] == stream[..3];
      if taken.value == ACK_BYTES {
        ResponseTakesOff(left);
        TakesOffMore(input, 6, left, ResponseAsked(left.Stream()), Received(left).1);
      } else if taken.value[..3] == SOF {
        var again := left.Behind(taken.value);
        PutBack(left, taken.value);
        assert stream[..6] + stream[6..] == stream;
        assert TakesOff(input, 0, again) by { assert stream[0..] == stream; }
        ResponseTakesOff(again);
        TakesOffMore(input, 0, again, ResponseAsked(stream), Received(again).1);
      }
    }
  }

  lemma PutBack(input: Input, bytes: seq<byte>)
    ensures input.Behind(bytes).Stream() == bytes + input.Stream()
  {
    assert bytes + input.buffer + Deliverable(input.script) == bytes + (input.buffer + Deliverable(input.script));
  }

  // --------------------------------------------------------------------- the reader

  class Chipset {
    const io: BufferedReader
    var written: seq<byte>

    constructor (io: BufferedReader)
      ensures this.io == io && written == []
    {
      this.io := io;
      written := [];
    }

    /** Frames a command, sends it and waits for its ACK. */
    method PacketWrite(data: seq<byte>) returns (result: Result<(), DriverError>)
      requires |data| < NORMAL_LENGTH_LIMIT  // the program panics otherwise
      modifies this`written, io
      ensures written == old(written) + NormalEnvelope(data)
      ensures (result, io.Ahead()) == AckWaited(old(io.Ahead()))
      ensures result.Ok? <==> AfterAck(old(io.Stream())).Some?
      ensures result.Ok? ==> AfterAck(old(io.Stream())) == Some(io.Stream())
    {
      var frame := Build(data, RCS320);
      written := written + frame.raw;
      result := WaitForAck();
    }

    /** Takes the ACK off the stream, or puts what came instead back if it starts a frame. */
    method WaitForAck() returns (result: Result<(), DriverError>)
      modifies io
      ensures (result, io.Ahead()) == AckWaited(old(io.Ahead()))
      ensures result.Ok? <==> AfterAck(old(io.Stream())).Some?
      ensures result.Ok? ==> AfterAck(old(io.Stream())) == Some(io.Stream())
    {
      ghost var stream := io.Stream();
      var bytes := io.ReadExact(|ACK_BYTES|);
      if bytes.Err? {
        return Err(bytes.error);
      }
      assert bytes.value == stream[..6] && io.Stream() == stream[6..];
      assert bytes.value[..3] == stream[..3];
      if bytes.value != ACK_BYTES {
        if bytes.value[..3] == SOF {
          io.PushBack(bytes.value);
          return Ok(());
        }
        return Err(ProtocolError);
      }
      result := Ok(());
    }

    method ReadFrameBytes() returns (result: Result<seq<byte>, DriverError>)
      modifies io
      ensures (result, io.Ahead()) == FrameBytesRead(old(io.Ahead()))
      ensures result.Ok? <==> FrameLength(old(io.Stream())).Some?
      ensures result.Ok? ==>
                var total := FrameLength(old(io.Stream())).value;
                result.value == old(io.Stream())[..total] && io.Stream() == old(io.Stream())[total..]
    {
      hide Take, FrameLength;
      FrameBytesTakeOff(io.Ahead());
      var header := io.ReadExact(5);
      if header.Err? {
        return Err(header.error);
      }
      var frame := header.value;
      if frame[..3] != SOF {
        return Err(ProtocolError);
      }
      if frame[3] == 0x00 && frame[4] == 0xFF {
        var postamble := io.ReadExact(1);
        if postamble.Err? {
          return Err(postamble.error);
        }
        return Ok(frame + postamble.value);
      }
      var len: nat := frame[3];
      var tail := io.ReadExact(len + 2);
      if tail.Err? {
        return Err(tail.error);
      }
      result := Ok(frame + tail.value);
    }

    method ReadFrame() returns (result: Result<Frame, DriverError>)
      modifies io
      ensures (result, io.Ahead()) == FrameRead(old(io.Ahead()))
      ensures result.Ok? <==> TakeFrame(old(io.Stream())).Some?
      ensures result.Ok? ==> TakeFrame(old(io.Stream())) == Some((result.value, io.Stream()))
    {
      var bytes := ReadFrameBytes();
      if bytes.Err? {
        return Err(bytes.error);
      }
      match Parse(bytes.value, RCS320)
      case None => result := Err(ProtocolError);
      case Some(frame) => result := Ok(frame);
    }

    method RecvResponse() returns (result: Result<seq<byte>, DriverError>)
      modifies io
      ensures (result, io.Ahead()) == Received(old(io.Ahead()))
      ensures result.Ok? <==> Response(old(io.Stream())).Some?
      ensures result.Ok? ==> Response(old(io.Stream())) == Some((result.value, io.Stream()))
    {
      var first := ReadFrame();
      if first.Err? {
        return Err(first.error);
      }
      match first.value.frameType
      case Ack =>
        var second := ReadFrame();
        if second.Err? {
          return Err(second.error);
        }
        result := if second.value.frameType.Data? then Ok(second.value.frameType.payload) else Err(ProtocolError);
      case Error =>
        result := Err(ProtocolError);
      case Data(payload) =>
        result := Ok(payload);
    }

    /** One command and its answer; both depend on the stream alone, on no cutting into chunks. */
    method WriteThenRead(data: seq<byte>) returns (result: Result<seq<byte>, DriverError>)
      requires |data| < NORMAL_LENGTH_LIMIT  // the program panics otherwise
      modifies this`written, io
      ensures written == old(written) + NormalEnvelope(data)
      ensures (result, io.Ahead()) == Exchanged(old(io.Ahead()))
      ensures result.Ok? <==> Exchange(old(io.Stream())).Some?
      ensures result.Ok? ==> Exchange(old(io.Stream())) == Some((result.value, io.Stream()))
    {
      var ack := PacketWrite(data);
      if ack.Err? {
        return Err(ack.error);
      }
      result := RecvResponse();
    }
  }

  // -------------------------------------------------------------------- the theorems

  function Acks(n: nat): seq<byte> {
    if n == 0 then [] else ACK_BYTES + Acks(n - 1)
  }

  lemma AckIsTaken(rest: seq<byte>)
    ensures TakeFrame(ACK_BYTES + rest) == Some((Frame(ACK_BYTES, Ack), rest))
    ensures AfterAck(ACK_BYTES + rest) == Some(rest)
  {
    var stream := ACK_BYTES + rest;
    assert stream[..6] == ACK_BYTES && stream[6..] == rest;
    assert stream[..3] == ACK_BYTES[..3] == SOF;
    assert ACK_BYTES[..6] == ACK_BYTES;
  }

  predicate ReportsError(payload: seq<byte>) {
    payload != [] && payload[0] == STATUS_ERROR_BYTE
  }

  /** A data frame is taken whole; it is an error report exactly when its payload starts with 7F. */
  lemma DataIsTaken(payload: seq<byte>, rest: seq<byte>)
    requires |payload| < NORMAL_LENGTH_LIMIT
    ensures var raw := NormalEnvelope(payload);
            TakeFrame(raw + rest)
            == Some((Frame(raw, if ReportsError(payload) then Error else Data(payload)), rest))
    ensures AfterAck(NormalEnvelope(payload) + rest) == Some(NormalEnvelope(payload) + rest)
  {
    var raw, n := NormalEnvelope(payload), |payload|;
    var stream := raw + rest;
    assert stream[..|raw|] == raw && stream[|raw|..] == rest && |raw| == n + 7;
    assert stream[..3] == raw[..3] == SOF;
    assert stream[3] == raw[3] == n && stream[4] == raw[4] == Checksum([n]);
    LengthChecksum(n);
    assert FrameLength(stream) == Some(n + 7);
    FirstPayloadByte(payload, []);
    assert raw + [] == raw;
    if ReportsError(payload) {
      assert raw[..3] == SOF;
      assert Parse(raw, RCS320) == Some(Frame(raw[..|raw|], Error));
      assert raw[..|raw|] == raw;
    } else {
      ParseIsExact(raw, RCS320, raw, payload);
    }
    assert stream[..6][3] == n && stream[..6][4] == Checksum([n]);
  }

  /** Only an ACK has length 00 with checksum FF. */
  lemma LengthChecksum(n: byte)
    ensures !(n == 0 && Checksum([n]) == 0xFF)
  {
    assert [n][..0] == [];
    ChecksumIsExact([n], Checksum([n]));
    assert Sum([n]) == n;
  }

  /** What a data frame answers, whether or not one late ACK was skipped before it. */
  lemma DataIsAnswered(payload: seq<byte>, rest: seq<byte>)
    requires |payload| < NORMAL_LENGTH_LIMIT
    ensures var data := NormalEnvelope(payload) + rest;
            var answer := if ReportsError(payload) then None else Some((payload, rest));
            Exchange(data) == answer && Response(data) == answer && TakeData(data) == answer
  {
    DataIsTaken(payload, rest);
  }

  lemma AcksAreSkipped(ahead: seq<byte>)
    ensures Exchange(ACK_BYTES + ahead) == Response(ahead)
    ensures Response(ACK_BYTES + ahead) == TakeData(ahead)
    ensures TakeData(ACK_BYTES + ahead) == None
  {
    AckIsTaken(ahead);
  }

  /**
   ACK tolerance: behind `n` ACK frames the answer is read back, leaving exactly the
   bytes behind it, if and only if there are at most two of them and the payload is
   no error report.
   */
  lemma AcksAreTolerated(n: nat, payload: seq<byte>, rest: seq<byte>)
    requires |payload| < NORMAL_LENGTH_LIMIT
    ensures Exchange(Acks(n) + (NormalEnvelope(payload) + rest))
            == if n <= 2 && !ReportsError(payload) then Some((payload, rest)) else None
  {
    var data := NormalEnvelope(payload) + rest;
    DataIsAnswered(payload, rest);
    if n == 0 {
      assert Acks(0) + data == data;
    } else {
      PeelAck(n, data);
      AcksAreSkipped(Acks(n - 1) + data);
      if n == 1 {
        assert Acks(0) + data == data;
      } else {
        PeelAck(n - 1, data);
        AcksAreSkipped(Acks(n - 2) + data);
        if n == 2 {
          assert Acks(0) + data == data;
        } else {
          PeelAck(n - 2, data);
          AcksAreSkipped(Acks(n - 3) + data);
        }
      }
    }
  }

  lemma PeelAck(n: nat, data: seq<byte>)
    requires n > 0
    ensures Acks(n) + data == ACK_BYTES + (Acks(n - 1) + data)
  {
  }
}
