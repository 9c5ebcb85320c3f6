/**
 Buffered reads from a transport that delivers whole packets.

 The transport is a finite script of what its successive reads give: a chunk of
 bytes, a timeout, or another failure; a script that has run out times out. Wall
 clock deadlines are timeouts placed anywhere in the script.
 */
module Transport {
  import opened Bytes
  import opened Wrappers

  datatype ReadOutcome = Chunk(bytes: seq<byte>) | TimedOut | Broken

  datatype DriverError = TimeoutError | TransportError | ProtocolError

  /** What can still be read before the next failure. */
  function Deliverable(script: seq<ReadOutcome>): seq<byte> {
    if script == [] || !script[0].Chunk? then [] else script[0].bytes + Deliverable(script[1..])
  }

  /** The failure that ends the deliverable bytes. */
  function NextFault(script: seq<ReadOutcome>): DriverError {
    if script == [] || script[0].TimedOut? then TimeoutError
    else if script[0].Broken? then TransportError
    else NextFault(script[1..])
  }

  /** The script behind that failure. */
  function AfterFault(script: seq<ReadOutcome>): seq<ReadOutcome> {
    if script == [] then []
    else if !script[0].Chunk? then script[1..]
    else AfterFault(script[1..])
  }

  /** The script behind the first empty read or timeout. */
  function Drained(script: seq<ReadOutcome>): seq<ReadOutcome> {
    if script == [] then []
    else if script[0].TimedOut? || (script[0].Chunk? && script[0].bytes == []) then script[1..]
    else Drained(script[1..])
  }

  /** What is buffered, and what the transport has still to give. */
  datatype Input = Input(buffer: seq<byte>, script: seq<ReadOutcome>)
  {
    /** The bytes ahead of the reader, however they are cut into chunks. */
    function Stream(): seq<byte> { buffer + Deliverable(script) }

    /** This input with `bytes` put back in front. */
    function Behind(bytes: seq<byte>): Input { Input(bytes + buffer, script) }
  }

  /** Exactly `len` bytes and what is left, taking outcomes until they are there or one of them is a failure. */
  function Take(input: Input, len: nat): (taken: (Result<seq<byte>, DriverError>, Input))
    ensures taken.0.Ok? ==> |taken.0.value| == len
    decreases |input.script|
  {
    if len <= |input.buffer| then (Ok(input.buffer[..len]), Input(input.buffer[len..], input.script))
    else if input.script == [] then (Err(TimeoutError), Input([], []))
    else
      match input.script[0]
      case Chunk(bytes) => Take(Input(input.buffer + bytes, input.script[1..]), len)
      case TimedOut => (Err(TimeoutError), Input([], input.script[1..]))
      case Broken => (Err(TransportError), Input([], input.script[1..]))
  }

  /** Taking splits the stream, or uses up everything before the next failure and reports that. */
  lemma {:induction false} TakeSplits(input: Input, len: nat)
    ensures var (taken, left) := Take(input, len);
            && (taken.Ok? <==> len <= |input.Stream()|)
            && (taken.Ok? ==> && taken.value == input.Stream()[..len] && left.Stream() == input.Stream()[len..]
                              && NextFault(left.script) == NextFault(input.script)
                              && AfterFault(left.script) == AfterFault(input.script))
            && (taken.Err? ==> taken.error == NextFault(input.script) && left == Input([], AfterFault(input.script)))
    decreases |input.script|
  {
    if len <= |input.buffer| {
      assert input.Stream()[..len] == input.buffer[..len];
      assert input.Stream()[len..] == input.buffer[len..] + Deliverable(input.script);
    } else if input.script != [] && input.script[0].Chunk? {
      var next := Input(input.buffer + input.script[0].bytes, input.script[1..]);
      assert next.Stream() == input.Stream();
      TakeSplits(next, len);
    }
  }

  /** Taking twice is taking once, up to the first failure. */
  lemma {:induction false} TakeTwice(input: Input, a: nat, b: nat)
    requires Take(input, a).0.Ok?
    ensures Take(Take(input, a).1, b).1 == Take(input, a + b).1
    ensures Take(Take(input, a).1, b).0.Ok? <==> Take(input, a + b).0.Ok?
    decreases |input.script|
  {
    if a <= |input.buffer| {
      TakeBehind(input.buffer[..a], Input(input.buffer[a..], input.script), b);
      assert input.buffer[..a] + input.buffer[a..] == input.buffer;
    } else {
      TakeTwice(Input(input.buffer + input.script[0].bytes, input.script[1..]), a, b);
    }
  }

  /** Bytes in front only make for more to take. */
  lemma {:induction false} TakeBehind(bytes: seq<byte>, input: Input, len: nat)
    ensures Take(input.Behind(bytes), |bytes| + len).1 == Take(input, len).1
    ensures Take(input.Behind(bytes), |bytes| + len).0.Ok? <==> Take(input, len).0.Ok?
    decreases |input.script|
  {
    if len <= |input.buffer| {
      assert (bytes + input.buffer)[|bytes| + len..] == input.buffer[len..];
    } else if input.script != [] && input.script[0].Chunk? {
      var more := input.script[0].bytes;
      assert bytes + input.buffer + more == bytes + (input.buffer + more);
      TakeBehind(bytes, Input(input.buffer + more, input.script[1..]), len);
    }
  }

  /** Taking only uses up outcomes. */
  lemma {:induction false} TakeShortens(input: Input, len: nat)
    ensures |Take(input, len).1.script| <= |input.script|
    decreases |input.script|
  {
    if len > |input.buffer| && input.script != [] && input.script[0].Chunk? {
      TakeShortens(Input(input.buffer + input.script[0].bytes, input.script[1..]), len);
    }
  }

  /** How many outcomes taking uses up. */
  function StopsAt(input: Input, len: nat): (k: nat)
    ensures k <= |input.script|
  {
    TakeShortens(input, len);
    |input.script| - |Take(input, len).1.script|
  }

  /** Taking stops behind the first outcome that brings enough, or that fails. */
  lemma {:induction false} TakeStops(input: Input, len: nat)
    ensures var (taken, left) := Take(input, len);
            var k, script := StopsAt(input, len), input.script;
            && left.script == script[k..]
            && (taken.Ok? ==>
                  && (forall j | 0 <= j < k :: script[j].Chunk?)
                  && len <= |input.buffer| + |Deliverable(script[..k])|
                  && (k > 0 ==> |input.buffer| + |Deliverable(script[..k - 1])| < len))
            && (taken.Err? ==>
                  && (forall j | 0 <= j < k - 1 :: script[j].Chunk?)
                  && (k == 0 || script[k - 1].Chunk? ==> k == |script|)
                  && |input.buffer| + |Deliverable(script[..k])| < len)
    decreases |input.script|
  {
    var script := input.script;
    if len > |input.buffer| && script != [] {
      if script[0].Chunk? {
        var next := Input(input.buffer + script[0].bytes, script[1..]);
        TakeStops(next, len);
        var m := StopsAt(next, len);
        var k := m + 1;
        assert StopsAt(input, len) == k;
        assert script[1..][m..] == script[k..];
        assert script[..k][0] == script[0] && script[..k][1..] == script[1..][..m];
        assert forall j | 1 <= j < k :: script[j] == script[1..][j - 1];
        if m > 0 {
          assert script[..m][0] == script[0] && script[..m][1..] == script[1..][..m - 1];
        } else {
          assert script[..0] == [];
        }
      } else {
        assert script[..1][0] == script[0];
      }
    }
  }

  /** The transport has gone quiet: an empty read, or a timeout. */
  predicate Quiet(outcome: ReadOutcome) {
    outcome.TimedOut? || (outcome.Chunk? && outcome.bytes == [])
  }

  /** Draining takes everything up to the first quiet outcome, and that one. */
  lemma {:induction false} DrainedAt(script: seq<ReadOutcome>, q: nat)
    requires q <= |script| && forall i | 0 <= i < q :: !Quiet(script[i])
    requires q < |script| ==> Quiet(script[q])
    ensures Drained(script) == if q < |script| then script[q + 1..] else []
    decreases q
  {
    if q > 0 {
      assert forall i | 0 <= i < q - 1 :: script[1..][i] == script[i + 1];
      DrainedAt(script[1..], q - 1);
      assert q < |script| ==> script[1..][q..] == script[q + 1..];
    }
  }

  class BufferedReader {
    var script: seq<ReadOutcome>
    var buffer: seq<byte>

    constructor (script: seq<ReadOutcome>)
      ensures this.script == script && buffer == []
    {
      this.script := script;
      buffer := [];
    }

    ghost function Ahead(): Input
      reads this
    {
      Input(buffer, script)
    }

    /** The bytes ahead of the reader, however they are cut into chunks. */
    ghost function Stream(): seq<byte>
      reads this
    {
      Ahead().Stream()
    }

    /** Takes as many of the missing bytes as are buffered: none is lost and none reordered. */
    method TakeFromBuffer(out: seq<byte>, len: nat) returns (taken: seq<byte>)
      requires |out| <= len
      modifies this`buffer
      ensures taken + buffer == out + old(buffer)
      ensures |taken| <= len && (|taken| == len || buffer == [])
    {
      taken := out;
      while |taken| < len
        invariant |taken| <= len
        invariant taken + buffer == out + old(buffer)
        decreases |buffer|
      {
        if buffer == [] {
          break;
        }
        ghost var before := buffer;
        taken := taken + [buffer[0]];
        buffer := buffer[1..];
        assert before == [before[0]] + buffer;
      }
    }

    /** Takes one outcome off the script: its bytes go behind the buffer, or it is the failure. */
    method ReadChunk() returns (fault: Option<DriverError>)
      modifies this
      ensures var outcome := if old(script) == [] then TimedOut else old(script)[0];
              && script == (if old(script) == [] then [] else old(script)[1..])
              && buffer == old(buffer) + (if outcome.Chunk? then outcome.bytes else [])
              && match outcome
                 case Chunk(_) => fault == None
                 case TimedOut => fault == Some(TimeoutError)
                 case Broken => fault == Some(TransportError)
    {
      if script == [] {
        return Some(TimeoutError);
      }
      var outcome := script[0];
      script := script[1..];
      match outcome {
        case Chunk(bytes) =>
          buffer := buffer + bytes;
          fault := None;
        case TimedOut =>
          fault := Some(TimeoutError);
        case Broken =>
          fault := Some(TransportError);
      }
    }

    /**
     Reads exactly `len` bytes. It succeeds exactly when they arrive before the next
     failure, and then splits them off the stream; otherwise it reports that failure,
     having used up everything before it.
     */
    method ReadExact(len: nat) returns (result: Result<seq<byte>, DriverError>)
      modifies this
      ensures (result, Ahead()) == Take(old(Ahead()), len)
      ensures result.Ok? <==> len <= |old(Stream())|
      ensures result.Ok? ==>
                && |result.value| == len
                && result.value + Stream() == old(Stream())
      ensures result.Err? ==>
                && result.error == old(NextFault(script))
                && buffer == [] && script == old(AfterFault(script))
    {
      hide NextFault, AfterFault, Deliverable;
      TakeSplits(Ahead(), len);
      var out: seq<byte> := [];
      assert out + buffer == buffer;
      while |out| < len
        invariant |out| <= len
        invariant Take(Input(out + buffer, script), len) == Take(old(Ahead()), len)
        decreases |script|, len - |out|
      {
        out := TakeFromBuffer(out, len);
        if |out| == len {
          break;
        }
        assert out + buffer == out;
        ghost var before := script;
        var fault := ReadChunk();
        if fault.Some? {
          return Err(fault.value);
        }
        assert out + buffer == out + before[0].bytes;
      }
      assert (out + buffer)[..len] == out && (out + buffer)[len..] == buffer;
      result := Ok(out);
      assert old(Stream()) == old(Stream())[..len] + old(Stream())[len..];
    }

    /**
     Discards what is buffered and what the transport still delivers, up to the first
     empty read or timeout; other failures on the way are ignored.
     */
    method DrainInput()
      modifies this
      ensures buffer == [] && script == Drained(old(script))
    {
      buffer := [];
      while script != []
        invariant buffer == []
        invariant Drained(script) == Drained(old(script))
        decreases |script|
      {
        var outcome := script[0];
        script := script[1..];
        if outcome.TimedOut? || (outcome.Chunk? && outcome.bytes == []) {
          return;
        }
      }
    }

    /** Puts bytes that were read back in front of the buffer, last byte first. */
    method PushBack(bytes: seq<byte>)
      modifies this`buffer
      ensures Ahead() == old(Ahead()).Behind(bytes)
      ensures Stream() == bytes + old(Stream())
    {
      for i := |bytes| downto 0
        invariant buffer == bytes[i..] + old(buffer)
      {
        buffer := [bytes[i]] + buffer;
      }
      assert bytes[0..] == bytes;
      assert bytes + old(buffer) + Deliverable(script) == bytes + (old(buffer) + Deliverable(script));
    }
  }
}
