/**
 How a Port-100 driver gets back in step: what a failed read leaves of the input, told by
 positions in the transport's script, and how the commands behind it are answered.
 */
module Port100Recovery {
  import opened Bytes
  import opened Wrappers
  import opened Framing
  import opened Transport
  import opened Port100Reader

  /** The ACK of a command is not ahead: something else is, or not enough. */
  predicate AckFails(input: Input) { |input.Stream()| < 6 || input.Stream()[..6] != ACK_BYTES }

  /** It is, but no frame can be read behind it. */
  predicate ResponseFails(input: Input) {
    ACK_BYTES <= input.Stream() && !HoldsFrame(input.Stream()[6..])
  }

  lemma AckReadIs(input: Input)
    ensures AckRead(input).1 == Take(input, 6).1
    ensures AckRead(input).0.Ok? <==> ACK_BYTES <= input.Stream()
    ensures AckRead(input).0.Ok? ==> Take(input, 6).0.Ok? && AckRead(input).1.Stream() == input.Stream()[6..]
  {
    TakeSplits(input, 6);
    if Take(input, 6).0.Ok? && Parse(Take(input, 6).0.value, PORT100).Some? {
      assert input.Stream()[..6] == Take(input, 6).0.value;
    }
  }

  lemma ResponseReadIs(input: Input)
    ensures ResponseRead(input).1 == Take(input, Asked(input.Stream())).1
    ensures ResponseRead(input).0.Ok? <==> HoldsFrame(input.Stream())
    ensures ResponseRead(input).0.Ok? ==>
              var (stream, total) := (input.Stream(), FrameLength(input.Stream()).value);
              && ResponseRead(input).1.Stream() == stream[total..]
              && Parse(stream[..total], PORT100) == Some(ResponseRead(input).0.value)
  {
    hide FrameRead, Parse, Take;
    FrameReadIs(input);
  }

  /** Whatever the chunks: the answer and the bytes behind it by the stream, if the reads succeed. */
  lemma AnsweredIs(input: Input, code: byte)
    ensures var answer, stream := Answered(input, code), input.Stream();
            && (answer.result.Ok? <==> CommandResponse(stream, code).Some?)
            && (answer.result.Ok? ==>
                  CommandResponse(stream, code) == Some((answer.result.value, answer.left.Stream())))
  {
    hide AckRead, ResponseRead, Parse, FrameLength;
    AckReadIs(input);
    var ahead := AckRead(input).1;
    if AckRead(input).0.Ok? {
      ResponseReadIs(ahead);
    }
  }

  /**
   A failed ACK drains nothing: with the outcomes its six bytes used up, what else these
   brought is dropped, and every outcome behind them is still to come.
   */
  lemma FailedAckKeepsTheRest(input: Input, code: byte)
    requires AckFails(input)
    ensures Answered(input, code).result.Err? && Answered(input, code).written == ACK_BYTES
    ensures Answered(input, code).left == Input([], input.script[StopsAt(input, 6)..])
  {
    hide Take, Parse;
    AckReadIs(input);
    TakeStops(input, 6);
  }

  /** How many bytes the reads of an ACK and a response ask for. */
  function BytesAsked(input: Input): nat
    requires |input.Stream()| >= 6
  {
    6 + Asked(input.Stream()[6..])
  }

  lemma FailedResponseTakes(input: Input, code: byte)
    requires ResponseFails(input)
    ensures var answer := Answered(input, code);
            && answer.result.Err? && answer.written == ACK_BYTES
            && answer.left == Input([], Drained(Take(input, BytesAsked(input)).1.script))
  {
    hide AckRead, ResponseRead, Take, Asked, Drained, Deliverable;
    AckReadIs(input);
    ResponseReadIs(AckRead(input).1);
    TakeTwice(input, 6, Asked(input.Stream()[6..]));
  }

  /** The first quiet outcome at or behind `k`, or the end of the script. */
  ghost predicate GoesQuietAt(script: seq<ReadOutcome>, k: nat, q: nat) {
    && k <= q <= |script| && (forall i | k <= i < q :: !Quiet(script[i]))
    && (q < |script| ==> Quiet(script[q]))
  }

  /**
   After a failed response the input is drained: everything up to the first quiet outcome
   behind those that the bytes asked for used up is gone, and exactly what is behind that
   one is left.
   */
  lemma FailedResponseDrains(input: Input, code: byte, q: nat)
    requires ResponseFails(input) && GoesQuietAt(input.script, StopsAt(input, BytesAsked(input)), q)
    ensures Answered(input, code).result.Err? && Answered(input, code).written == ACK_BYTES
    ensures Answered(input, code).left == Input([], if q < |input.script| then input.script[q + 1..] else [])
  {
    hide Answered, Take, Asked, Drained, Deliverable, Quiet;
    var asked, script := BytesAsked(input), input.script;
    var k := StopsAt(input, asked);
    FailedResponseTakes(input, code);
    TakeStops(input, asked);
    assert forall i | 0 <= i < q - k :: script[k..][i] == script[k + i];
    DrainedAt(script[k..], q - k);
    assert q < |script| ==> script[k..][q - k + 1..] == script[q + 1..];
  }

  // -------------------------------------------------------------------- whole runs

  /** The results of a run of commands, whatever fails on the way. */
  function Results(input: Input, codes: seq<byte>): (results: seq<Result<seq<byte>, DriverError>>)
    ensures |results| == |codes|
    decreases |codes|
  {
    if codes == [] then []
    else
      var answer := Answered(input, codes[0]);
      [answer.result] + Results(answer.left, codes[1..])
  }

  lemma FirstAnswer(sent: seq<SentFrame>, rest: seq<byte>)
    requires sent != [] && (forall s | s in sent :: s.Valid())
    ensures Answers(sent, rest) == ACK_BYTES + sent[0].Raw() + Answers(sent[1..], rest)
  {
  }

  /** What each frame answers: its payload behind two header bytes. */
  ghost function Successes(sent: seq<SentFrame>): (results: seq<Result<seq<byte>, DriverError>>)
    requires forall s | s in sent :: |s.payload| >= 2
    ensures |results| == |sent|
    ensures forall i | 0 <= i < |sent| :: results[i] == Ok(sent[i].payload[2..])
  {
    seq(|sent|, i requires 0 <= i < |sent| => Ok(sent[i].payload[2..]))
  }

  /** The frames are proper answers to the commands. */
  ghost predicate AreAnswers(sent: seq<SentFrame>, codes: seq<byte>) {
    && |sent| == |codes| && (forall s | s in sent :: s.Valid() && |s.payload| >= 2)
    && (forall i | 0 <= i < |sent| :: IsResponseTo(sent[i].payload, codes[i]))
  }

  /** Commands answered by proper frames all succeed, however the bytes arrive. */
  lemma {:induction false} AllAnswered(input: Input, sent: seq<SentFrame>, codes: seq<byte>, rest: seq<byte>)
    requires AreAnswers(sent, codes) && input.Stream() == Answers(sent, rest)
    ensures Results(input, codes) == Successes(sent)
    decreases |codes|
  {
    if codes == [] {
      assert Successes(sent) == [];
    } else {
      hide Answered, CommandResponse, Answers, SentFrame.Raw, SentFrame.Valid, Successes;
      FirstAnswer(sent, rest);
      FrameIsRead(sent[0], Answers(sent[1..], rest), codes[0]);
      AnsweredIs(input, codes[0]);
      LaterAnswers(sent, codes);
      AllAnswered(Answered(input, codes[0]).left, sent[1..], codes[1..], rest);
    }
  }

  lemma LaterAnswers(sent: seq<SentFrame>, codes: seq<byte>)
    requires AreAnswers(sent, codes) && sent != []
    ensures AreAnswers(sent[1..], codes[1..])
    ensures Successes(sent) == [Ok(sent[0].payload[2..])] + Successes(sent[1..])
  {
    hide IsResponseTo, SentFrame.Valid;
    assert forall i | 0 <= i < |sent| - 1 :: sent[1..][i] == sent[i + 1] && codes[1..][i] == codes[i + 1];
  }

  /**
   Back in step: once a response could not be read and the input has gone quiet at `q`, the
   commands that follow are answered from what is behind `q` alone, whatever stood before it.
   */
  lemma BackInStep(input: Input, code: byte, q: nat, sent: seq<SentFrame>, codes: seq<byte>, rest: seq<byte>)
    requires ResponseFails(input) && GoesQuietAt(input.script, StopsAt(input, BytesAsked(input)), q)
    requires AreAnswers(sent, codes)
    requires q < |input.script| && Deliverable(input.script[q + 1..]) == Answers(sent, rest)
    ensures Results(input, [code] + codes) == [Answered(input, code).result] + Successes(sent)
    ensures Answered(input, code).result.Err?
  {
    hide Answered, ResponseFails, BytesAsked, Deliverable, Answers, SentFrame.Valid;
    FailedResponseDrains(input, code, q);
    var behind := Input([], input.script[q + 1..]);
    assert behind.Stream() == Deliverable(input.script[q + 1..]);
    AllAnswered(behind, sent, codes, rest);
    assert ([code] + codes)[1..] == codes;
  }

  /** Six bytes in one chunk that are no ACK fail, and nothing else is taken. */
  lemma OneChunkFails(bad: seq<byte>, rest: seq<ReadOutcome>, code: byte)
    requires |bad| == 6 && bad != ACK_BYTES
    ensures Answered(Input([], [Chunk(bad)] + rest), code).result.Err?
    ensures Answered(Input([], [Chunk(bad)] + rest), code).left == Input([], rest)
  {
    var input := Input([], [Chunk(bad)] + rest);
    assert input.script[1..] == rest;
    assert input.Stream()[..6] == bad;
    FailedAckKeepsTheRest(input, code);
    assert [] + bad == bad;
    assert Take(input, 6) == Take(Input(bad, rest), 6);
  }

  /**
   Not so after a failed ACK: stale bytes behind it are still ahead, and the next command
   meets them instead of its own ACK, even where the input went quiet before that came.
   */
  lemma StaleAfterFailedAck(bad: seq<byte>, stale: seq<byte>, rest: seq<ReadOutcome>, code: byte, next: byte)
    requires |bad| == 6 && bad != ACK_BYTES && |stale| == 6 && stale != ACK_BYTES
    ensures var results := Results(Input([], [Chunk(bad)] + ([Chunk(stale)] + rest)), [code, next]);
            results[0].Err? && results[1].Err?
  {
    hide Answered;
    OneChunkFails(bad, [Chunk(stale)] + rest, code);
    OneChunkFails(stale, rest, next);
    assert [code, next][1..] == [next];
  }
}
