/**
 Reading the Port-100's answers: an ACK frame and then a response frame for every
 command, taken from a stream that may be cut into chunks anywhere.
 */
module Port100Reader {
  import opened Bytes
  import opened Wrappers
  import opened Framing
  import opened Transport

  // ------------------------------------------------ what a read takes off the stream

  /** How many bytes introduce the payload of the next frame, and how long it says it is. */
  function Header(stream: seq<byte>): (r: Option<(nat, nat)>)
    ensures r.Some? ==> r.value.0 <= |stream|
  {
    if |stream| < 5 || !HasSof(stream) then None
    else if stream[3] == 0xFF && stream[4] == 0xFF then
      if |stream| < 8 then None else Some((8, FromBytes(stream[5], stream[6])))
    else Some((5, stream[3]))
  }

  /** The size of the frame at the head of the stream, by its length field alone. */
  function FrameLength(stream: seq<byte>): (r: Option<nat>)
    ensures r.Some? ==> r.value <= |stream|
  {
    match Header(stream)
    case None => None
    case Some((start, len)) => if start + len + 2 <= |stream| then Some(start + len + 2) else None
  }

  /** A whole frame of some kind is at the head of the stream. */
  predicate HoldsFrame(stream: seq<byte>) {
    FrameLength(stream).Some? && Parse(stream[..FrameLength(stream).value], PORT100).Some?
  }

  /** The payload of the response frame at the head of the stream, and what follows it. */
  function Response(stream: seq<byte>, code: byte): Option<(seq<byte>, seq<byte>)> {
    match FrameLength(stream)
    case None => None
    case Some(total) =>
      match Parse(stream[..total], PORT100)
      case None => None
      case Some(frame) =>
        if frame.frameType.Data? && IsResponseTo(frame.frameType.payload, code) then
          Some((frame.frameType.payload[2..], stream[total..]))
        else None
  }

  predicate IsResponseTo(payload: seq<byte>, code: byte) {
    |payload| >= 2 && payload[0] == 0xD7 && payload[1] == (code + 1) % 0x100
  }

  /** The ACK and the response to one command. */
  function CommandResponse(stream: seq<byte>, code: byte): Option<(seq<byte>, seq<byte>)> {
    if ACK_BYTES <= stream then Response(stream[6..], code) else None
  }

  /** Successive answers to a run of commands. */
  function CommandResponses(stream: seq<byte>, codes: seq<byte>): Option<(seq<seq<byte>>, seq<byte>)> {
    if codes == [] then Some(([], stream))
    else
      match CommandResponse(stream, codes[0])
      case None => None
      case Some((data, rest)) =>
        match CommandResponses(rest, codes[1..])
        case None => None
        case Some((more, end)) => Some(([data] + more, end))
  }

  // ------------------------------------------------------- what a read leaves behind

  function AckRead(input: Input): (Result<(), DriverError>, Input) {
    var (bytes, left) := Take(input, |ACK_BYTES|);
    match bytes
    case Err(error) => (Err(error), left)
    case Ok(ack) =>
      match Parse(ack, PORT100)
      case None => (Err(ProtocolError), left)
      case Some(frame) => (if frame.frameType.Ack? then Ok(()) else Err(ProtocolError), left)
  }

  /** The header of a frame with its extended length, if it announces one, and the length it says. */
  function HeaderRead(input: Input): (r: (Result<(seq<byte>, nat), DriverError>, Input)) {
    var (header, left) := Take(input, 5);
    match header
    case Err(error) => (Err(error), left)
    case Ok(frame) =>
      if frame[..3] != SOF then (Err(ProtocolError), left)
      else if frame[3] == 0xFF && frame[4] == 0xFF then
        var (extended, behind) := Take(left, 3);
        match extended
        case Err(error) => (Err(error), behind)
        case Ok(length) => (Ok((frame + length, FromBytes(length[0], length[1]))), behind)
      else (Ok((frame, frame[3])), left)
  }

  function FrameRead(input: Input): (Result<seq<byte>, DriverError>, Input) {
    var (header, left) := HeaderRead(input);
    match header
    case Err(error) => (Err(error), left)
    case Ok((frame, len)) =>
      var (tail, behind) := Take(left, len + 2);
      match tail
      case Err(error) => (Err(error), behind)
      case Ok(bytes) => (Ok(frame + bytes), behind)
  }

  function ResponseRead(input: Input): (Result<Frame, DriverError>, Input) {
    var (bytes, left) := FrameRead(input);
    match bytes
    case Err(error) => (Err(error), left)
    case Ok(raw) =>
      match Parse(raw, PORT100)
      case None => (Err(ProtocolError), left)
      case Some(frame) => (Ok(frame), left)
  }

  /** The answer to one command, what is left of the input, and what is written meanwhile. */
  datatype Answer = Answer(result: Result<seq<byte>, DriverError>, left: Input, written: seq<byte>)

  function Answered(input: Input, code: byte): Answer {
    var (ack, ahead) := AckRead(input);
    match ack
    case Err(error) => Answer(Err(error), Input([], ahead.script), ACK_BYTES)
    case Ok(_) =>
      var (response, left) := ResponseRead(ahead);
      match response
      case Err(error) => Answer(Err(error), Input([], Drained(left.script)), ACK_BYTES)
      case Ok(frame) => Answer(ExtractResponsePayload(frame, code), left, [])
  }

  function ExtractResponsePayload(frame: Frame, code: byte): Result<seq<byte>, DriverError> {
    if !frame.frameType.Data? then Err(ProtocolError)
    else
      var payload := frame.frameType.payload;
      if |payload| >= 1 && payload[0] == 0xD7 && |payload| >= 2 && payload[1] == (code + 1) % 0x100 then
        Ok(payload[2..])
      else Err(ProtocolError)
  }

  /** How many bytes reading a header asks for, and reading a frame, by what they see of the stream. */
  function HeaderAsked(stream: seq<byte>): nat {
    if |stream| >= 5 && HasSof(stream) && stream[3] == 0xFF && stream[4] == 0xFF then 8 else 5
  }

  function Asked(stream: seq<byte>): nat {
    match Header(stream)
    case None => HeaderAsked(stream)
    case Some((start, len)) => start + len + 2
  }

  lemma HeaderReadIs(input: Input)
    ensures var (header, left) := HeaderRead(input);
            var stream := input.Stream();
            && left == Take(input, HeaderAsked(stream)).1
            && (header.Ok? <==> Header(stream).Some?)
            && (header.Ok? ==>
                  && Take(input, HeaderAsked(stream)).0.Ok? && HeaderAsked(stream) == Header(stream).value.0
                  && header.value == (stream[..Header(stream).value.0], Header(stream).value.1)
                  && left.Stream() == stream[Header(stream).value.0..])
  {
    var stream := input.Stream();
    TakeSplits(input, 5);
    var (header, left) := Take(input, 5);
    if header.Ok? {
      assert header.value[..3] == stream[..3] && header.value[3] == stream[3] && header.value[4] == stream[4];
      if HeaderAsked(stream) == 8 {
        TakeSplits(left, 3);
        TakeTwice(input, 5, 3);
        JoinParts(stream, 5, 3);
      }
    }
  }

  lemma JoinParts(stream: seq<byte>, a: nat, b: nat)
    requires a <= |stream|
    ensures a + b <= |stream| ==>
              && stream[..a] + stream[a..][..b] == stream[..a + b] && stream[a..][b..] == stream[a + b..]
              && (forall i | 0 <= i < b :: stream[a..][..b][i] == stream[a + i])
  {
  }

  /** Reading a frame stops as if all the bytes it asks for were taken at once, and succeeds if they are there. */
  lemma FrameReadIs(input: Input)
    ensures var (frame, left) := FrameRead(input);
            var stream := input.Stream();
            && left == Take(input, Asked(stream)).1
            && (frame.Ok? <==> FrameLength(stream).Some?)
            && (frame.Ok? ==>
                  && frame.value == stream[..FrameLength(stream).value]
                  && left.Stream() == stream[FrameLength(stream).value..])
  {
    hide HeaderRead, HeaderAsked;
    var stream := input.Stream();
    HeaderReadIs(input);
    var (header, left) := HeaderRead(input);
    if header.Ok? {
      var (start, len) := Header(stream).value;
      TakeSplits(left, len + 2);
      TakeTwice(input, start, len + 2);
      JoinParts(stream, start, len + 2);
    }
  }

  // --------------------------------------------------------------------- the reader

  class Chipset {
    const io: BufferedReader
    var written: seq<byte>

    constructor (io: BufferedReader)
      ensures this.io == io && written == []
    {
      this.io := io;
      written := [];
    }

    method ReadAckFrame() returns (result: Result<(), DriverError>)
      modifies io
      ensures (result, io.Ahead()) == AckRead(old(io.Ahead()))
      ensures result.Ok? <==> ACK_BYTES <= old(io.Stream())
      ensures result.Ok? ==> io.Stream() == old(io.Stream())[6..]
    {
      var bytes := io.ReadExact(|ACK_BYTES|);
      if bytes.Err? {
        return Err(bytes.error);
      }
      assert bytes.value == old(io.Stream())[..6];
      assert io.Stream() == old(io.Stream())[6..];
      match Parse(bytes.value, PORT100)
      case None => return Err(ProtocolError);
      case Some(frame) =>
        if !frame.frameType.Ack? {
          return Err(ProtocolError);
        }
        return Ok(());
    }

    /** Reads the header of a frame, and its extended length if it announces one. */
    method ReadHeader() returns (result: Result<(seq<byte>, nat), DriverError>)
      modifies io
      ensures (result, io.Ahead()) == HeaderRead(old(io.Ahead()))
      ensures result.Ok? <==> Header(old(io.Stream())).Some?
      ensures result.Ok? ==>
                var (start, len) := Header(old(io.Stream())).value;
                result.value == (old(io.Stream())[..start], len) && io.Stream() == old(io.Stream())[start..]
    {
      HeaderReadIs(io.Ahead());
      var header := io.ReadExact(5);
      if header.Err? {
        return Err(header.error);
      }
      var frame := header.value;
      if frame[..3] != SOF {
        return Err(ProtocolError);
      }
      if frame[3] == 0xFF && frame[4] == 0xFF {
        var extended := io.ReadExact(3);
        if extended.Err? {
          return Err(extended.error);
        }
        frame := frame + extended.value;
        result := Ok((frame, FromBytes(extended.value[0], extended.value[1])));
      } else {
        result := Ok((frame, frame[3]));
      }
    }

    method ReadFrameBytes() returns (result: Result<seq<byte>, DriverError>)
      modifies io
      ensures (result, io.Ahead()) == FrameRead(old(io.Ahead()))
      ensures result.Ok? <==> FrameLength(old(io.Stream())).Some?
      ensures result.Ok? ==>
                var total := FrameLength(old(io.Stream())).value;
                result.value == old(io.Stream())[..total] && io.Stream() == old(io.Stream())[total..]
    {
      hide Take, HeaderRead;
      FrameReadIs(io.Ahead());
      var header := ReadHeader();
      if header.Err? {
        return Err(header.error);
      }
      var (frame, len) := header.value;
      var tail := io.ReadExact(len + 2);
      if tail.Err? {
        return Err(tail.error);
      }
      result := Ok(frame + tail.value);
    }

    method ReadResponseFrame() returns (result: Result<Frame, DriverError>)
      modifies io
      ensures (result, io.Ahead()) == ResponseRead(old(io.Ahead()))
      ensures result.Ok? <==> HoldsFrame(old(io.Stream()))
      ensures result.Ok? ==>
                var stream := old(io.Stream());
                && Parse(stream[..FrameLength(stream).value], PORT100) == Some(result.value)
                && io.Stream() == stream[FrameLength(stream).value..]
    {
      var bytes := ReadFrameBytes();
      if bytes.Err? {
        return Err(bytes.error);
      }
      match Parse(bytes.value, PORT100)
      case None => result := Err(ProtocolError);
      case Some(frame) => result := Ok(frame);
    }

    /** After a failed read: an ACK goes out, input is drained if asked for, and the buffer is cleared. */
    method RecoverAfterError(drain: bool)
      modifies this`written, io
      ensures written == old(written) + ACK_BYTES && io.buffer == []
      ensures io.script == if drain then Drained(old(io.script)) else old(io.script)
    {
      written := written + ACK_BYTES;
      if drain {
        io.DrainInput();
      }
      io.buffer := [];
    }

    /**
     Reads the answer to one command. The result and the bytes left ahead depend on
     the stream alone, so on no way of cutting it into chunks. Where no ACK or no frame
     can be read, the reader is sent an ACK and nothing stays buffered; a frame that is
     no answer to the command is taken off the stream all the same. After a failed
     response, but not after a failed ACK, the input is drained.
     */
    method ReadCommandResponse(code: byte) returns (result: Result<seq<byte>, DriverError>)
      modifies this`written, io
      ensures var answer := Answered(old(io.Ahead()), code);
              result == answer.result && io.Ahead() == answer.left && written == old(written) + answer.written
      ensures result.Ok? <==> CommandResponse(old(io.Stream()), code).Some?
      ensures result.Ok? ==> CommandResponse(old(io.Stream()), code) == Some((result.value, io.Stream()))
      ensures var stream := old(io.Stream());
              if ACK_BYTES <= stream && HoldsFrame(stream[6..]) then
                written == old(written) && io.Stream() == stream[6..][FrameLength(stream[6..]).value..]
              else
                result.Err? && written == old(written) + ACK_BYTES && io.buffer == []
    {
      var ack := ReadAckFrame();
      if ack.Err? {
        RecoverAfterError(false);
        return Err(ack.error);
      }
      var response := ReadResponseFrame();
      if response.Err? {
        RecoverAfterError(true);
        return Err(response.error);
      }
      result := ExtractResponsePayload(response.value, code);
    }
  }

  // -------------------------------------------------------------------- the theorems

  /** One frame the reader may send: any payload, in the normal or the extended form. */
  datatype SentFrame = SentFrame(payload: seq<byte>, extended: bool)
  {
    ghost predicate Valid() {
      |payload| < if extended then 0x1_0000 else NORMAL_LENGTH_LIMIT
    }

    ghost function Raw(): seq<byte>
      requires Valid()
    {
      if extended then ExtendedEnvelope(LeBytes(|payload|), payload) else NormalEnvelope(payload)
    }
  }

  lemma FrameIsMeasured(sent: SentFrame, rest: seq<byte>)
    requires sent.Valid()
    ensures FrameLength(sent.Raw() + rest) == Some(|sent.Raw()|)
  {
    var raw, n := sent.Raw(), |sent.payload|;
    var stream := raw + rest;
    if sent.extended {
      ExtendedFields(LeBytes(n), sent.payload, stream);
      assert FromBytes(LowByte(n), HighByte(n)) == n;
    } else {
      assert stream[..3] == raw[..3] == SOF;
      assert stream[3] == raw[3] == n && stream[4] == raw[4] == Checksum([n]);
      LengthIsNoMarker(n);
      assert stream[3..5] == [n, Checksum([n])];
    }
  }

  /** A sent frame is read back, and is the answer to a command exactly when its payload says so. */
  lemma FrameIsRead(sent: SentFrame, rest: seq<byte>, code: byte)
    requires sent.Valid()
    ensures CommandResponse(ACK_BYTES + sent.Raw() + rest, code)
            == if IsResponseTo(sent.payload, code) then Some((sent.payload[2..], rest)) else None
  {
    var stream := sent.Raw() + rest;
    assert (ACK_BYTES + sent.Raw() + rest)[6..] == stream;
    FrameIsMeasured(sent, rest);
    assert stream[..|sent.Raw()|] == sent.Raw() && stream[|sent.Raw()|..] == rest;
    RawIsParsed(sent);
    hide FrameLength, Parse, SentFrame.Raw;
    assert ACK_BYTES <= ACK_BYTES + sent.Raw() + rest;
  }

  lemma RawIsParsed(sent: SentFrame)
    requires sent.Valid()
    ensures Parse(sent.Raw(), PORT100) == Some(Frame(sent.Raw(), Data(sent.payload)))
  {
    hide Parse;
    ParseIsExact(sent.Raw(), PORT100, sent.Raw(), sent.payload);
  }

  /** The stream of a run of answered commands. */
  ghost function Answers(sent: seq<SentFrame>, rest: seq<byte>): seq<byte>
    requires forall s | s in sent :: s.Valid()
  {
    if sent == [] then rest else ACK_BYTES + sent[0].Raw() + Answers(sent[1..], rest)
  }

  /** What each answer carries behind its two header bytes. */
  ghost function Contents(sent: seq<SentFrame>): seq<seq<byte>>
    requires forall s | s in sent :: |s.payload| >= 2
  {
    if sent == [] then [] else [sent[0].payload[2..]] + Contents(sent[1..])
  }

  /**
   Reading ACK, frame, ACK, frame, ... returns exactly the framed payloads, in order,
   and leaves exactly the bytes behind them.
   */
  lemma {:induction false} RunIsRead(sent: seq<SentFrame>, codes: seq<byte>, rest: seq<byte>)
    requires |sent| == |codes|
    requires forall s | s in sent :: s.Valid()
    requires forall i | 0 <= i < |sent| :: IsResponseTo(sent[i].payload, codes[i])
    ensures forall s | s in sent :: |s.payload| >= 2
    ensures CommandResponses(Answers(sent, rest), codes) == Some((Contents(sent), rest))
  {
    if sent != [] {
      var tail := sent[1..];
      forall i | 0 <= i < |tail|
        ensures IsResponseTo(tail[i].payload, codes[1..][i])
      {
        assert tail[i] == sent[i + 1] && codes[1..][i] == codes[i + 1];
      }
      RunIsRead(tail, codes[1..], rest);
      FrameIsRead(sent[0], Answers(tail, rest), codes[0]);
    }
  }
}
