/**
 The blocks of ISO-DEP and their chaining, section 7 of ISO/IEC 14443-4, as the
 Port-400 driver builds and parses them.
 */
module IsoDep {
  import opened Bytes
  import opened Wrappers

  // ------------------------------------------------------------------ block layout

  const PCB_I_BLOCK: byte := 0x02
  const PCB_TYPE_R: byte := 0x80
  const PCB_TYPE_S: byte := 0xC0
  const PCB_CHAINING: byte := 0x10
  const PCB_CID: byte := 0x08
  const PCB_NAD: byte := 0x04

  /** Block numbers, and the addresses that blocks carry. */
  datatype State = State(txBlockNumber: byte, piccBlockNumber: byte, cid: Option<byte>, nad: Option<byte>)
  {
    function HeaderLen(): nat { 1 + (if cid.Some? then 1 else 0) + (if nad.Some? then 1 else 0) }

    /** Whether a block sent under this state is addressed as the receiving state expects. */
    predicate Reaches(receiver: State) { cid.None? || receiver.cid.None? || cid == receiver.cid }
  }

  function Address(address: Option<byte>): seq<byte> {
    match address
    case None => []
    case Some(value) => [value]
  }

  function Flag(present: bool, bit: byte): byte { if present then bit else 0 }

  predicate HasBit(pcb: byte, bit: byte)
    requires bit > 0
  {
    pcb / bit % 2 == 1
  }

  function BuildIBlock(state: State, payload: seq<byte>, chaining: bool): (frame: seq<byte>)
    ensures |frame| == state.HeaderLen() + |payload|
  {
    var pcb := PCB_I_BLOCK + state.txBlockNumber % 2 + Flag(chaining, PCB_CHAINING)
               + Flag(state.cid.Some?, PCB_CID) + Flag(state.nad.Some?, PCB_NAD);
    [pcb] + Address(state.cid) + Address(state.nad) + payload
  }

  function Or(a: nat, b: nat): nat { if a == 0 && b == 0 then 0 else 1 }

  /** The bits of an S-block's code, its type, and those of the block number and the CID flag. */
  function SBlockPcb(code: byte, cid: nat, number: nat): int {
    PCB_TYPE_S + code / 0x10 % 4 * 0x10 + 8 * Or(code / 8 % 2, cid) + 4 * (code / 4 % 2) + 2 * (code / 2 % 2)
    + Or(code % 2, number)
  }

  function Bit(b: bool): nat { if b then 1 else 0 }

  function BuildSBlock(state: State, code: byte, includeBlockNumber: bool, payload: seq<byte>): seq<byte> {
    var number := if includeBlockNumber then state.txBlockNumber % 2 else 0;
    [SBlockPcb(code, Bit(state.cid.Some?), number)] + Address(state.cid) + payload
  }

  function BuildRBlock(state: State, ack: bool): seq<byte> {
    var pcb := PCB_TYPE_R + state.piccBlockNumber % 2 + Flag(!ack, PCB_CHAINING) + Flag(state.cid.Some?, PCB_CID);
    [pcb] + Address(state.cid)
  }

  datatype BlockType = I(payload: seq<byte>) | R(ack: bool) | S(code: byte, sPayload: seq<byte>) | Unknown(kind: byte)
  datatype Response = Response(blockType: BlockType, chaining: bool, blockNumber: byte)

  datatype ParseError = Empty | MissingCid | CidMismatch | MissingNad

  function ParseResponse(state: State, data: seq<byte>): Result<Response, ParseError> {
    if data == [] then Err(Empty)
    else
      var pcb := data[0];
      var afterCid := if HasBit(pcb, PCB_CID) then 2 else 1;
      if HasBit(pcb, PCB_CID) && |data| < 2 then Err(MissingCid)
      else if HasBit(pcb, PCB_CID) && state.cid.Some? && data[1] != state.cid.value then Err(CidMismatch)
      else if HasBit(pcb, PCB_NAD) && |data| <= afterCid then Err(MissingNad)
      else
        var offset := if HasBit(pcb, PCB_NAD) then afterCid + 1 else afterCid;
        Ok(Response(ParseBlockType(pcb, data[offset..]), HasBit(pcb, PCB_CHAINING), pcb % 2))
  }

  function ParseBlockType(pcb: byte, payload: seq<byte>): BlockType {
    match pcb / 0x40
    case 0 => I(payload)
    case 2 => R(!HasBit(pcb, PCB_CHAINING))
    case 3 => S(pcb / 0x10 % 4 * 0x10, payload)
    case _ => Unknown(0x40)
  }

  /** A byte put together from its bits, and these bits read from it again. */
  lemma BitsAreRead(kind: nat, rfu: nat, chaining: nat, cid: nat, nad: nat, low: nat, number: nat)
    requires kind < 4 && rfu < 2 && chaining < 2 && cid < 2 && nad < 2 && low < 2 && number < 2
    ensures var pcb := 0x40 * kind + 0x20 * rfu + 0x10 * chaining + 8 * cid + 4 * nad + 2 * low + number;
            && pcb < 0x100 && pcb / 0x40 == kind && pcb / 0x10 % 4 == 2 * rfu + chaining
            && pcb / 0x10 % 2 == chaining && pcb / 8 % 2 == cid && pcb / 4 % 2 == nad && pcb % 2 == number
  {
    var pcb := 0x40 * kind + 0x20 * rfu + 0x10 * chaining + 8 * cid + 4 * nad + 2 * low + number;
    assert pcb / 4 == 2 * (8 * kind + 4 * rfu + 2 * chaining + cid) + nad;
    assert pcb / 8 == 2 * (4 * kind + 2 * rfu + chaining) + cid;
    assert pcb / 0x10 == 4 * kind + 2 * rfu + chaining;
  }

  /** An I-block is parsed back exactly if it is addressed to its receiver. */
  lemma IBlockRoundTrip(sender: State, receiver: State, payload: seq<byte>, chaining: bool)
    ensures ParseResponse(receiver, BuildIBlock(sender, payload, chaining))
            == if sender.Reaches(receiver) then Ok(Response(I(payload), chaining, sender.txBlockNumber % 2))
               else Err(CidMismatch)
  {
    var frame := BuildIBlock(sender, payload, chaining);
    BitsAreRead(0, 0, Bit(chaining), Bit(sender.cid.Some?), Bit(sender.nad.Some?), 1, sender.txBlockNumber % 2);
    assert frame[sender.HeaderLen()..] == payload;
  }

  /** So is an R-block; its chaining flag is the negative acknowledgement. */
  lemma RBlockRoundTrip(sender: State, receiver: State, ack: bool)
    ensures ParseResponse(receiver, BuildRBlock(sender, ack))
            == if sender.Reaches(receiver) then Ok(Response(R(ack), !ack, sender.piccBlockNumber % 2))
               else Err(CidMismatch)
  {
    BitsAreRead(2, 0, Bit(!ack), Bit(sender.cid.Some?), 0, 0, sender.piccBlockNumber % 2);
  }

  /** The bits of an S-block's first byte, read one by one. */
  lemma SBlockBits(code: byte, cid: nat, number: nat)
    requires cid < 2 && number < 2
    ensures var pcb := SBlockPcb(code, cid, number);
            && 0 <= pcb < 0x100 && pcb / 0x40 == 3 && pcb / 0x10 % 4 == code / 0x10 % 4
            && pcb / 0x10 % 2 == code / 0x10 % 2 && pcb / 8 % 2 == Or(code / 8 % 2, cid)
            && pcb / 4 % 2 == code / 4 % 2 && pcb % 2 == Or(code % 2, number)
  {
    var bits := code / 0x10 % 4;
    assert bits == 2 * (bits / 2) + bits % 2 && bits % 2 == code / 0x10 % 2;
    BitsAreRead(3, bits / 2, bits % 2, Or(code / 8 % 2, cid), code / 4 % 2, code / 2 % 2, Or(code % 2, number));
  }

  /** A code that claims no address the block does not carry. */
  predicate ClaimsNoAddress(code: byte, state: State) {
    code / 4 % 2 == 0 && (code / 8 % 2 == 0 || state.cid.Some?)
  }

  /**
   An S-block of any code is parsed back, its code masked, exactly if it is addressed to
   its receiver and its code claims no other address; one that does loses its first
   byte or bytes to it. The chaining flag is part of the code.
   */
  lemma SBlockRoundTrip(sender: State, receiver: State, code: byte, includeBlockNumber: bool, payload: seq<byte>)
    ensures var parsed := ParseResponse(receiver, BuildSBlock(sender, code, includeBlockNumber, payload));
            var number := Or(code % 2, if includeBlockNumber then sender.txBlockNumber % 2 else 0);
            if ClaimsNoAddress(code, sender) then
              parsed == if sender.Reaches(receiver) then
                          Ok(Response(S(code / 0x10 % 4 * 0x10, payload), code / 0x10 % 2 == 1, number))
                        else Err(CidMismatch)
            else
              parsed.Ok? ==> parsed.value.blockType.S? && |parsed.value.blockType.sPayload| < |payload|
  {
    var frame := BuildSBlock(sender, code, includeBlockNumber, payload);
    var number := Or(code % 2, if includeBlockNumber then sender.txBlockNumber % 2 else 0);
    SBlockBits(code, Bit(sender.cid.Some?), if includeBlockNumber then sender.txBlockNumber % 2 else 0);
    hide SBlockPcb;
    assert frame[if sender.cid.Some? then 2 else 1..] == payload;
  }

  // ------------------------------------------------------------------------ chaining

  datatype IFrame = IFrame(frame: seq<byte>, chaining: bool)

  function Min(a: nat, b: nat): nat { if a < b then a else b }
  function Max(a: nat, b: nat): nat { if a < b then b else a }

  /** The next frame of a payload, with the offset behind it; an empty payload has one empty frame. */
  function NextIFrame(state: State, payload: seq<byte>, offset: nat, maxInf: nat, chaining: bool, sentEmpty: bool)
    : Option<(IFrame, nat, bool)>
  {
    if offset >= |payload| then
      if payload == [] && !sentEmpty then Some((IFrame(BuildIBlock(state, [], chaining), chaining), offset, true))
      else None
    else
      var next := offset + Min(|payload| - offset, Max(maxInf, 1));
      var more := next < |payload| || chaining;
      Some((IFrame(BuildIBlock(state, payload[offset..next], more), more), next, sentEmpty))
  }

  /** All frames of a payload from an offset on, the `i`th built under the `i`th state. */
  function Frames(states: nat -> State, i: nat, payload: seq<byte>, offset: nat, maxInf: nat, chaining: bool,
                  sentEmpty: bool)
    : seq<IFrame>
    decreases |payload| - offset, if sentEmpty then 0 else 1
  {
    match NextIFrame(states(i), payload, offset, maxInf, chaining, sentEmpty)
    case None => []
    case Some(step) =>
      [step.0] + Frames(states, i + 1, payload, step.1, maxInf, chaining, step.2)
  }

  /** How many frames of at most `size` bytes hold `n`. */
  function FrameCount(n: nat, size: nat): nat
    requires size > 0
  {
    if n == 0 then 1 else (n + size - 1) / size
  }

  /** Where the `k`th chunk of `n` bytes starts. */
  function Start(n: nat, size: nat, k: nat): (start: nat)
    ensures start <= n
  {
    Min(k * size, n)
  }

  lemma NextStart(n: nat, size: nat, k: nat)
    ensures Start(n, size, 0) == 0
    ensures Start(n, size, k + 1) == Min(Start(n, size, k) + size, n)
  {
    assert (k + 1) * size == k * size + size;
  }

  lemma Product(a: nat, b: nat, size: nat)
    ensures a <= b ==> a * size <= b * size
    ensures a * size > 0 ==> a > 0
  {
    if a <= b {
      assert b * size == a * size + (b - a) * size;
    }
  }

  /** The chunks that start within the payload are those counted. */
  lemma CountedStarts(n: nat, size: nat, k: nat)
    requires size > 0
    ensures FrameCount(n, size) >= 1
    ensures n > 0 ==> (Start(n, size, k) < n <==> k < FrameCount(n, size))
  {
    if n > 0 {
      var count, r := (n + size - 1) / size, (n + size - 1) % size;
      assert n + size - 1 == count * size + r;
      Product(count, count, size);
      assert (count - 1) * size == count * size - size;
      if k < count {
        Product(k, count - 1, size);
      } else {
        Product(count, k, size);
      }
    }
  }

  /** The bytes of the `k`th frame. */
  function Chunk(payload: seq<byte>, size: nat, k: nat): (chunk: seq<byte>) {
    var start := Start(|payload|, size, k);
    payload[start..Min(start + size, |payload|)]
  }

  /** The frame a payload's `k`th chunk is sent in: all but the last say that more follows. */
  ghost predicate IsChunkFrame(frame: IFrame, state: State, payload: seq<byte>, size: nat, k: nat, chaining: bool)
    requires size > 0
  {
    var more := k + 1 < FrameCount(|payload|, size) || chaining;
    frame == IFrame(BuildIBlock(state, Chunk(payload, size, k), more), more)
  }

  /** The next frame carries the next chunk, as long as there is one. */
  lemma ChunkIsNext(state: State, k: nat, payload: seq<byte>, maxInf: nat, chaining: bool, sentEmpty: bool)
    requires payload != []
    ensures var size, n := Max(maxInf, 1), |payload|;
            var next := NextIFrame(state, payload, Start(n, size, k), maxInf, chaining, sentEmpty);
            if k < FrameCount(n, size) then
              && next.Some? && next.value.1 == Start(n, size, k + 1) && next.value.2 == sentEmpty
              && IsChunkFrame(next.value.0, state, payload, size, k, chaining)
            else next.None?
  {
    hide Start, FrameCount, BuildIBlock;
    var size, n := Max(maxInf, 1), |payload|;
    CountedStarts(n, size, k);
    CountedStarts(n, size, k + 1);
    NextStart(n, size, k);
  }

  lemma {:induction false} FramesFrom(states: nat -> State, k: nat, payload: seq<byte>, maxInf: nat, chaining: bool,
                                      sentEmpty: bool)
    requires payload != [] && k <= FrameCount(|payload|, Max(maxInf, 1))
    ensures var size := Max(maxInf, 1);
            var frames := Frames(states, k, payload, Start(|payload|, size, k), maxInf, chaining, sentEmpty);
            && |frames| == FrameCount(|payload|, size) - k
            && (forall j | 0 <= j < |frames| :: IsChunkFrame(frames[j], states(k + j), payload, size, k + j, chaining))
    decreases FrameCount(|payload|, Max(maxInf, 1)) - k
  {
    hide Start, FrameCount, NextIFrame, Frames, IsChunkFrame;
    var size, n := Max(maxInf, 1), |payload|;
    FramesStep(states, k, payload, Start(n, size, k), maxInf, chaining, sentEmpty);
    ChunkIsNext(states(k), k, payload, maxInf, chaining, sentEmpty);
    var frames := Frames(states, k, payload, Start(n, size, k), maxInf, chaining, sentEmpty);
    if k < FrameCount(n, size) {
      FramesFrom(states, k + 1, payload, maxInf, chaining, sentEmpty);
      var rest := Frames(states, k + 1, payload, Start(n, size, k + 1), maxInf, chaining, sentEmpty);
      assert frames == [frames[0]] + rest;
      forall j | 0 <= j < |frames|
        ensures IsChunkFrame(frames[j], states(k + j), payload, size, k + j, chaining)
      {
        if j > 0 {
          assert frames[j] == rest[j - 1];
          assert IsChunkFrame(rest[j - 1], states(k + 1 + (j - 1)), payload, size, k + 1 + (j - 1), chaining);
        }
      }
    }
  }

  /**
   A payload of n bytes takes max(1, ceil(n / max(1, max_inf))) frames; they carry its
   chunks in order, and all but the last say that more follows.
   */
  lemma ChainingIsComplete(states: nat -> State, payload: seq<byte>, maxInf: nat, chaining: bool)
    ensures var size := Max(maxInf, 1); var frames := Frames(states, 0, payload, 0, maxInf, chaining, false);
            && |frames| == FrameCount(|payload|, size)
            && (forall k | 0 <= k < |frames| :: IsChunkFrame(frames[k], states(k), payload, size, k, chaining))
  {
    if payload == [] {
      EmptyPayload(states, payload, maxInf, chaining);
    } else {
      hide FrameCount, Frames, Start;
      CountedStarts(|payload|, Max(maxInf, 1), 0);
      NextStart(|payload|, Max(maxInf, 1), 0);
      FramesFrom(states, 0, payload, maxInf, chaining, false);
      var frames := Frames(states, 0, payload, 0, maxInf, chaining, false);
      forall k | 0 <= k < |frames|
        ensures IsChunkFrame(frames[k], states(k), payload, Max(maxInf, 1), k, chaining)
      {
        assert IsChunkFrame(frames[k], states(0 + k), payload, Max(maxInf, 1), 0 + k, chaining);
      }
    }
  }

  lemma EmptyPayload(states: nat -> State, payload: seq<byte>, maxInf: nat, chaining: bool)
    requires payload == []
    ensures Frames(states, 0, payload, 0, maxInf, chaining, false)
            == [IFrame(BuildIBlock(states(0), [], chaining), chaining)]
    ensures Chunk(payload, Max(maxInf, 1), 0) == []
  {
    hide BuildIBlock;
    assert Frames(states, 1, payload, 0, maxInf, chaining, true) == [];
  }

  /** What a receiver makes of frames: their payloads up to the first frame that announces no other. */
  function Receive(receiver: State, frames: seq<IFrame>): Option<seq<byte>> {
    if frames == [] then None
    else
      match ParseResponse(receiver, frames[0].frame)
      case Err(_) => None
      case Ok(response) =>
        if !response.blockType.I? then None
        else if !response.chaining then if |frames| == 1 then Some(response.blockType.payload) else None
        else
          match Receive(receiver, frames[1..])
          case None => None
          case Some(rest) => Some(response.blockType.payload + rest)
  }

  lemma {:induction false} ReceiveFrom(states: nat -> State, receiver: State, frames: seq<IFrame>,
                                       payload: seq<byte>, size: nat, k: nat)
    requires size > 0 && k < FrameCount(|payload|, size) && |frames| == FrameCount(|payload|, size) - k
    requires forall i :: states(i).Reaches(receiver)
    requires forall j | 0 <= j < |frames| :: IsChunkFrame(frames[j], states(k + j), payload, size, k + j, false)
    ensures Receive(receiver, frames) == Some(payload[Start(|payload|, size, k)..])
    decreases |frames|
  {
    hide Start, FrameCount, BuildIBlock, ParseResponse;
    var n, chunk := |payload|, Chunk(payload, size, k);
    assert IsChunkFrame(frames[0], states(k + 0), payload, size, k + 0, false);
    IBlockRoundTrip(states(k), receiver, chunk, |frames| > 1);
    CountedStarts(n, size, k);
    CountedStarts(n, size, k + 1);
    NextStart(n, size, k);
    if |frames| > 1 {
      var rest := frames[1..];
      forall j | 0 <= j < |rest|
        ensures IsChunkFrame(rest[j], states(k + 1 + j), payload, size, k + 1 + j, false)
      {
        assert rest[j] == frames[1 + j];
        assert IsChunkFrame(frames[1 + j], states(k + (1 + j)), payload, size, k + (1 + j), false);
      }
      ReceiveFrom(states, receiver, rest, payload, size, k + 1);
      assert chunk + payload[Start(n, size, k + 1)..] == payload[Start(n, size, k)..];
    } else {
      assert chunk == payload[Start(n, size, k)..];
    }
  }

  /** What is sent unchained is what is received, whatever the chunk size and the block numbers. */
  lemma ChainIsReassembled(states: nat -> State, receiver: State, payload: seq<byte>, maxInf: nat)
    requires forall i :: states(i).Reaches(receiver)
    ensures Receive(receiver, Frames(states, 0, payload, 0, maxInf, false, false)) == Some(payload)
  {
    hide Start, FrameCount, Frames, Receive, BuildIBlock, ParseResponse;
    var size := Max(maxInf, 1);
    ChainingIsComplete(states, payload, maxInf, false);
    CountedStarts(|payload|, size, 0);
    NextStart(|payload|, size, 0);
    var frames := Frames(states, 0, payload, 0, maxInf, false, false);
    forall j | 0 <= j < |frames|
      ensures IsChunkFrame(frames[j], states(0 + j), payload, size, 0 + j, false)
    {
      assert IsChunkFrame(frames[j], states(j), payload, size, j, false);
    }
    ReceiveFrom(states, receiver, frames, payload, size, 0);
    assert payload[0..] == payload;
  }

  // --------------------------------------------------------------------- frame sizes

  const MAX_FSI: byte := 8

  /** The frame size of an index. */
  function FrameSize(index: byte): (size: nat)
    ensures 16 <= size <= 256
  {
    if index == 0 then 16
    else if index == 1 then 24
    else if index == 2 then 32
    else if index == 3 then 40
    else if index == 4 then 48
    else if index == 5 then 64
    else if index == 6 then 96
    else if index == 7 then 128
    else 256
  }

  function ToFsdi(value: nat, index: byte): byte
    requires index <= MAX_FSI
    decreases MAX_FSI - index
  {
    if FrameSize(index) >= value || index == MAX_FSI then index else ToFsdi(value, index + 1)
  }

  datatype Config = Config(fsdi: byte, fsci: byte, cid: byte, useCid: bool, nad: byte, useNad: bool)
  {
    function Fsc(): nat { FrameSize(fsci) }
    function Fsd(): nat { FrameSize(fsdi) }
    function HeaderLen(): nat { 1 + (if useCid then 1 else 0) + (if useNad then 1 else 0) }
    function MaxInfLenPicc(): nat { Fsc() - HeaderLen() }
    function MaxInfLenPcd(): nat { Fsd() - HeaderLen() }

    /** The state of a session under this configuration. */
    function InitialState(): State {
      State(0, 0, if useCid then Some(cid) else None, if useNad then Some(nad) else None)
    }

    function UpdatePcdIfs(ifs: byte): Config {
      this.(fsdi := ToFsdi(if ifs < 16 then 16 else ifs, 0))
    }
  }

  function TypeADefaults(): Config { Config(8, 2, 0x02, true, 0x00, false) }

  /** The size index an IFS request selects is that of the smallest frame that is large enough. */
  lemma UpdatePcdIfsIsLeast(config: Config, ifs: byte)
    ensures var updated, wanted := config.UpdatePcdIfs(ifs), if ifs < 16 then 16 else ifs;
            && updated == config.(fsdi := updated.fsdi)
            && updated.Fsd() >= wanted
            && (forall index: byte | FrameSize(index) >= wanted :: FrameSize(index) >= updated.Fsd())
  {
    ToFsdiIsLeast(if ifs < 16 then 16 else ifs, 0);
  }

  lemma {:induction false} ToFsdiIsLeast(value: nat, index: byte)
    requires index <= MAX_FSI && value <= 256
    requires forall i: byte | i < index :: FrameSize(i) < value
    ensures var found := ToFsdi(value, index);
            FrameSize(found) >= value && (forall i: byte | FrameSize(i) >= value :: FrameSize(i) >= FrameSize(found))
    decreases MAX_FSI - index
  {
    if FrameSize(index) < value && index < MAX_FSI {
      ToFsdiIsLeast(value, index + 1);
    }
  }

  /** Whether every frame of a payload is within a size. */
  ghost predicate AllFit(states: nat -> State, payload: seq<byte>, maxInf: nat, chaining: bool, size: nat) {
    var frames := Frames(states, 0, payload, 0, maxInf, chaining, false);
    forall k | 0 <= k < |frames| :: |frames[k].frame| <= size
  }

  /** The first frame is the largest, so all fit exactly if it does. */
  lemma AllFitIfFirstDoes(states: nat -> State, header: nat, payload: seq<byte>, maxInf: nat, chaining: bool, size: nat)
    requires forall i :: states(i).HeaderLen() == header
    requires maxInf > 0
    ensures AllFit(states, payload, maxInf, chaining, size) <==> header + Min(|payload|, maxInf) <= size
  {
    hide Frames, FrameCount, Start, BuildIBlock;
    ChainingIsComplete(states, payload, maxInf, chaining);
    CountedStarts(|payload|, maxInf, 0);
    NextStart(|payload|, maxInf, 0);
    var frames := Frames(states, 0, payload, 0, maxInf, chaining, false);
    forall k | 0 <= k < |frames|
      ensures |frames[k].frame| == header + |Chunk(payload, maxInf, k)| <= header + Min(|payload|, maxInf)
    {
      assert IsChunkFrame(frames[k], states(k), payload, maxInf, k, chaining);
    }
    assert |Chunk(payload, maxInf, 0)| == Min(|payload|, maxInf);
    assert |frames[0].frame| == header + |Chunk(payload, maxInf, 0)|;
  }

  /**
   The exchange cuts its payload by the size of the frames the reader accepts, so the
   card's limit is kept exactly if that is no larger or the payload fits one frame.
   Cutting by the size of the card's frames would always keep it.
   */
  lemma FramesFitTheCard(config: Config, states: nat -> State, payload: seq<byte>, chaining: bool)
    requires forall i :: states(i).HeaderLen() == config.HeaderLen()
    ensures AllFit(states, payload, config.MaxInfLenPcd(), chaining, config.Fsc())
            <==> config.Fsd() <= config.Fsc() || config.HeaderLen() + |payload| <= config.Fsc()
    ensures AllFit(states, payload, config.MaxInfLenPicc(), chaining, config.Fsc())
  {
    hide AllFit;
    AllFitIfFirstDoes(states, config.HeaderLen(), payload, config.MaxInfLenPcd(), chaining, config.Fsc());
    AllFitIfFirstDoes(states, config.HeaderLen(), payload, config.MaxInfLenPicc(), chaining, config.Fsc());
  }

  /** So in an exchange of a session under the configuration. */
  lemma ExchangeFitsTheCard(config: Config, payload: seq<byte>, chaining: bool)
    ensures AllFit(Alternating(config.InitialState()), payload, config.MaxInfLenPcd(), chaining, config.Fsc())
            <==> config.Fsd() <= config.Fsc() || config.HeaderLen() + |payload| <= config.Fsc()
  {
    hide AllFit;
    FramesFitTheCard(config, Alternating(config.InitialState()), payload, chaining);
  }

  /** With the Type A defaults, the card's 32-byte frames are overrun by any payload above 30 bytes. */
  lemma TypeADefaultsOverrun(states: nat -> State, payload: seq<byte>, chaining: bool)
    requires forall i :: states(i).HeaderLen() == TypeADefaults().HeaderLen()
    ensures AllFit(states, payload, TypeADefaults().MaxInfLenPcd(), chaining, TypeADefaults().Fsc())
            <==> |payload| <= 30
  {
    hide AllFit;
    FramesFitTheCard(TypeADefaults(), states, payload, chaining);
  }

  // -------------------------------------------------------------------- the exchange

  /** The states of a session that advances its block number after every frame. */
  function Alternating(state: State): nat -> State {
    (i: nat) => if i % 2 == 0 then state else state.(txBlockNumber := Toggled(state.txBlockNumber))
  }

  /** The other block number. */
  function Toggled(number: byte): (toggled: byte)
    ensures toggled % 2 != number % 2
  {
    if number % 2 == 0 then number + 1 else number - 1
  }

  // ------------------------------------------------------------------ acknowledgements

  /** An R-block as it is parsed: an acknowledgement or a request to repeat, with a block number. */
  datatype RBlock = RBlock(ack: bool, number: byte)

  /** Why sending stopped: for want of an R-block, at the end of an open chain, or in failure. */
  datatype Outcome = Waiting | Finished | NumberMismatch | UnexpectedAck | RetriesUsedUp

  datatype Sent = Sent(frames: seq<IFrame>, outcome: Outcome)
  {
    function After(frame: IFrame): Sent { Sent([frame] + frames, outcome) }
  }

  /** The frames sent from the `k`th on while these R-blocks come in. */
  function Transmission(all: seq<IFrame>, states: nat -> State, k: nat, retries: nat, rBlocks: seq<RBlock>): Sent
    requires k < |all|
    decreases |rBlocks|
  {
    if rBlocks == [] then Sent([all[k]], Waiting)
    else if rBlocks[0].number != Toggled(states(k).txBlockNumber) then Sent([all[k]], NumberMismatch)
    else if rBlocks[0].ack then
      if k + 1 < |all| then Transmission(all, states, k + 1, retries, rBlocks[1..]).After(all[k])
      else Sent([all[k]], if all[k].chaining then Finished else UnexpectedAck)
    else if retries == 0 then Sent([all[k]], RetriesUsedUp)
    else Transmission(all, states, k, retries - 1, rBlocks[1..]).After(all[k])
  }

  /** The sending side of an exchange: where it is in its payload, and the block numbers. */
  class Exchange {
    const payload: seq<byte>
    const chaining: bool
    const maxInf: nat
    var state: State
    var txOffset: nat
    var sentEmptyFrame: bool
    var currentFrame: IFrame
    var nakRetries: nat

    /** Where the exchange stands before the `k`th of its frames is answered. */
    ghost predicate IsAt(states: nat -> State, all: seq<IFrame>, k: nat)
      reads this
    {
      && k < |all| && state == states(k) && currentFrame == all[k]
      && Frames(states, k + 1, payload, txOffset, maxInf, chaining, sentEmptyFrame) == all[k + 1..]
    }

    constructor (state: State, payload: seq<byte>, chaining: bool, maxInf: nat, maxRetryRNak: nat)
      ensures this.payload == payload && this.chaining == chaining && this.maxInf == maxInf
      ensures nakRetries == Max(maxRetryRNak, 1)
      ensures var states := Alternating(state);
              IsAt(states, Frames(states, 0, payload, 0, maxInf, chaining, false), 0)
    {
      hide BuildIBlock;
      AlternatingStep(state, 0);
      FramesStep(Alternating(state), 0, payload, 0, maxInf, chaining, false);
      var first := NextIFrame(state, payload, 0, maxInf, chaining, false);
      this.state, this.payload, this.chaining, this.maxInf := state, payload, chaining, maxInf;
      currentFrame, txOffset, sentEmptyFrame := first.value.0, first.value.1, first.value.2;
      nakRetries := Max(maxRetryRNak, 1);
    }

    method NextTxBlock()
      modifies this`state
      ensures state == old(state).(txBlockNumber := Toggled(old(state).txBlockNumber))
    {
      state := state.(txBlockNumber := Toggled(state.txBlockNumber));
    }

    method NextFrame() returns (frame: Option<IFrame>)
      modifies this`txOffset, this`sentEmptyFrame
      ensures match NextIFrame(state, payload, old(txOffset), maxInf, chaining, old(sentEmptyFrame))
              case None => frame == None && txOffset == old(txOffset) && sentEmptyFrame == old(sentEmptyFrame)
              case Some(step) => frame == Some(step.0) && txOffset == step.1 && sentEmptyFrame == step.2
    {
      if txOffset >= |payload| {
        if payload == [] && !sentEmptyFrame {
          sentEmptyFrame := true;
          return Some(IFrame(BuildIBlock(state, [], chaining), chaining));
        }
        return None;
      }
      var remaining := |payload| - txOffset;
      var take := Min(remaining, Max(maxInf, 1));
      var chunk := payload[txOffset..txOffset + take];
      txOffset := txOffset + take;
      var hasMore := txOffset < |payload|;
      var blockChaining := hasMore || chaining;
      frame := Some(IFrame(BuildIBlock(state, chunk, blockChaining), blockChaining));
    }

    /** Takes an R-block: the outcome if sending stops there, none if the current frame goes out next. */
    method HandleRBlock(rBlock: RBlock, ghost states: nat -> State, ghost all: seq<IFrame>, ghost k: nat)
      returns (outcome: Option<Outcome>)
      requires IsAt(states, all, k)
      requires states(k + 1) == states(k).(txBlockNumber := Toggled(states(k).txBlockNumber))
      modifies this
      ensures if rBlock.number != Toggled(states(k).txBlockNumber) then outcome == Some(NumberMismatch)
              else if rBlock.ack then
                if k + 1 < |all| then outcome == None && IsAt(states, all, k + 1) && nakRetries == old(nakRetries)
                else outcome == Some(if all[k].chaining then Finished else UnexpectedAck)
              else if old(nakRetries) == 0 then outcome == Some(RetriesUsedUp)
              else outcome == None && IsAt(states, all, k) && nakRetries == old(nakRetries) - 1
    {
      hide NextIFrame, Frames, Toggled;
      var expectedNr := Toggled(state.txBlockNumber);
      if rBlock.number != expectedNr {
        return Some(NumberMismatch);
      }
      if rBlock.ack {
        FramesStep(states, k + 1, payload, txOffset, maxInf, chaining, sentEmptyFrame);
        NextTxBlock();
        var next := NextFrame();
        if next.Some? {
          currentFrame := next.value;
          assert all[k + 1..][0] == all[k + 1] && all[k + 1..][1..] == all[k + 1 + 1..];
          return None;
        }
        return Some(if currentFrame.chaining then Finished else UnexpectedAck);
      }
      if nakRetries == 0 {
        return Some(RetriesUsedUp);
      }
      nakRetries := nakRetries - 1;
      outcome := None;
    }

    /** Sends the current frame, and again or the next one, for as long as R-blocks call for it. */
    method Transmit(rBlocks: seq<RBlock>, ghost first: State) returns (sent: Sent)
      requires IsAt(Alternating(first), Frames(Alternating(first), 0, payload, 0, maxInf, chaining, false), 0)
      modifies this
      ensures var states := Alternating(first);
              sent == Transmission(Frames(states, 0, payload, 0, maxInf, chaining, false), states, 0,
                                   old(nakRetries), rBlocks)
    {
      hide NextIFrame, Frames, Alternating, Toggled;
      ghost var states := Alternating(first);
      ghost var all := Frames(states, 0, payload, 0, maxInf, chaining, false);
      ghost var k, whole := 0, Transmission(all, states, 0, nakRetries, rBlocks);
      var frames: seq<IFrame> := [];
      for i := 0 to |rBlocks|
        invariant IsAt(states, all, k)
        invariant whole == Behind(frames, Transmission(all, states, k, nakRetries, rBlocks[i..]))
      {
        assert rBlocks[i..][0] == rBlocks[i] && rBlocks[i..][1..] == rBlocks[i + 1..];
        AlternatingStep(first, k);
        ghost var next, before := if rBlocks[i].ack then k + 1 else k, frames;
        frames := frames + [currentFrame];
        var outcome := HandleRBlock(rBlocks[i], states, all, k);
        if outcome.Some? {
          return Sent(frames, outcome.value);
        }
        BehindOne(before, all[k], Transmission(all, states, next, nakRetries, rBlocks[i + 1..]));
        k := next;
      }
      sent := Sent(frames + [currentFrame], Waiting);
    }
  }

  /** What was sent first, and then the rest. */
  function Behind(first: seq<IFrame>, rest: Sent): (all: Sent)
    ensures first == [] ==> all == rest
  {
    assert first == [] ==> first + rest.frames == rest.frames;
    Sent(first + rest.frames, rest.outcome)
  }

  lemma BehindOne(first: seq<IFrame>, frame: IFrame, rest: Sent)
    ensures Behind(first, rest.After(frame)) == Behind(first + [frame], rest)
  {
    assert first + ([frame] + rest.frames) == first + [frame] + rest.frames;
  }

  lemma FramesStep(states: nat -> State, i: nat, payload: seq<byte>, offset: nat, maxInf: nat, chaining: bool,
                   sentEmpty: bool)
    ensures var next := NextIFrame(states(i), payload, offset, maxInf, chaining, sentEmpty);
            Frames(states, i, payload, offset, maxInf, chaining, sentEmpty)
            == if next.None? then []
               else [next.value.0] + Frames(states, i + 1, payload, next.value.1, maxInf, chaining, next.value.2)
    ensures offset == 0 && !sentEmpty ==> NextIFrame(states(i), payload, offset, maxInf, chaining, sentEmpty).Some?
  {
  }

  lemma AlternatingStep(state: State, i: nat)
    ensures Alternating(state)(0) == state
    ensures var now := Alternating(state)(i);
            Alternating(state)(i + 1) == now.(txBlockNumber := Toggled(now.txBlockNumber))
  {
  }

  /** The acknowledgements among R-blocks. */
  function Acks(rBlocks: seq<RBlock>): nat {
    if rBlocks == [] then 0 else Acks(rBlocks[..|rBlocks| - 1]) + if rBlocks[|rBlocks| - 1].ack then 1 else 0
  }

  lemma {:induction false} AcksBehind(first: RBlock, rBlocks: seq<RBlock>)
    ensures Acks([first] + rBlocks) == (if first.ack then 1 else 0) + Acks(rBlocks)
    decreases |rBlocks|
  {
    var all := [first] + rBlocks;
    if rBlocks == [] {
      assert all[..0] == [] && all == [first];
    } else {
      var front := rBlocks[..|rBlocks| - 1];
      assert all[..|all| - 1] == [first] + front;
      AcksBehind(first, front);
    }
  }

  /** Whatever R-blocks come in, a frame is sent as often as it is asked for, and the next once it is acknowledged. */
  lemma {:induction false} SentFollowsAcks(all: seq<IFrame>, states: nat -> State, k: nat, retries: nat,
                                           rBlocks: seq<RBlock>, i: nat)
    requires k < |all| && i < |Transmission(all, states, k, retries, rBlocks).frames|
    ensures i <= |rBlocks| && k + Acks(rBlocks[..i]) < |all|
    ensures Transmission(all, states, k, retries, rBlocks).frames[i] == all[k + Acks(rBlocks[..i])]
    decreases |rBlocks|
  {
    if i == 0 {
      assert rBlocks[..0] == [];
    } else {
      hide Toggled, Acks;
      var rest := rBlocks[1..];
      if rBlocks[0].ack {
        SentFollowsAcks(all, states, k + 1, retries, rest, i - 1);
      } else {
        SentFollowsAcks(all, states, k, retries - 1, rest, i - 1);
      }
      AcksBehind(rBlocks[0], rest[..i - 1]);
      assert rBlocks[..i] == [rBlocks[0]] + rest[..i - 1];
    }
  }

  /** Every R-block acknowledges, and as many come in as there are frames behind the `k`th. */
  ghost predicate AllAcknowledged(all: seq<IFrame>, k: nat, rBlocks: seq<RBlock>) {
    k < |all| && |rBlocks| == |all| - 1 - k && forall i | 0 <= i < |rBlocks| :: rBlocks[i].ack
  }

  /** Each acknowledgement carries the number that its block does not. */
  ghost predicate NumbersDiffer(states: nat -> State, k: nat, rBlocks: seq<RBlock>) {
    forall i | 0 <= i < |rBlocks| :: rBlocks[i].number == Toggled(states(k + i).txBlockNumber)
  }

  /** When every frame is acknowledged, all go out exactly if no acknowledgement carries its block's own number. */
  lemma {:induction false} AllFramesGoOut(all: seq<IFrame>, states: nat -> State, k: nat, retries: nat,
                                          rBlocks: seq<RBlock>)
    requires AllAcknowledged(all, k, rBlocks)
    ensures Transmission(all, states, k, retries, rBlocks).frames == all[k..] <==> NumbersDiffer(states, k, rBlocks)
    decreases |rBlocks|
  {
    var sent := Transmission(all, states, k, retries, rBlocks);
    if rBlocks == [] {
      assert all[k..] == [all[k]];
    } else {
      var rest := rBlocks[1..];
      assert forall i | 0 <= i < |rest| :: rest[i] == rBlocks[i + 1];
      assert all[k..] == [all[k]] + all[k + 1..];
      AllFramesGoOut(all, states, k + 1, retries, rest);
      if rBlocks[0].number == Toggled(states(k).txBlockNumber) {
        var later := Transmission(all, states, k + 1, retries, rest);
        assert sent.frames == [all[k]] + later.frames;
        assert sent.frames[1..] == later.frames && all[k..][1..] == all[k + 1..];
        DifferLater(states, k, rBlocks);
      } else {
        assert |sent.frames| == 1;
        assert rBlocks[0].number != Toggled(states(k + 0).txBlockNumber);
      }
    }
  }

  lemma DifferLater(states: nat -> State, k: nat, rBlocks: seq<RBlock>)
    requires rBlocks != [] && rBlocks[0].number == Toggled(states(k).txBlockNumber)
    ensures NumbersDiffer(states, k, rBlocks) <==> NumbersDiffer(states, k + 1, rBlocks[1..])
  {
    var rest := rBlocks[1..];
    assert forall i | 0 <= i < |rest| :: rest[i] == rBlocks[i + 1] && k + 1 + i == k + (i + 1);
    if NumbersDiffer(states, k + 1, rest) {
      forall i | 0 <= i < |rBlocks|
        ensures rBlocks[i].number == Toggled(states(k + i).txBlockNumber)
      {
        if i > 0 {
          assert rest[i - 1].number == Toggled(states(k + 1 + (i - 1)).txBlockNumber);
        }
      }
    } else {
      var i :| 0 <= i < |rest| && rest[i].number != Toggled(states(k + 1 + i).txBlockNumber);
      assert rBlocks[i + 1].number != Toggled(states(k + (i + 1)).txBlockNumber);
    }
  }

  /**
   A card that acknowledges with the number of the block it received stops every
   payload of more than one frame after the first.
   */
  lemma EqualNumbersStopTheChain(state: State, payload: seq<byte>, maxInf: nat, chaining: bool, retries: nat,
                                 rBlocks: seq<RBlock>)
    requires |payload| > Max(maxInf, 1) && rBlocks != [] && rBlocks[0].number == state.txBlockNumber
    ensures var states := Alternating(state);
            var all := Frames(states, 0, payload, 0, maxInf, chaining, false);
            && |all| > 1
            && Transmission(all, states, 0, retries, rBlocks) == Sent([all[0]], NumberMismatch)
  {
    hide Frames, Alternating;
    var size := Max(maxInf, 1);
    ChainingIsComplete(Alternating(state), payload, maxInf, chaining);
    CountedStarts(|payload|, size, 1);
    NextStart(|payload|, size, 0);
    AlternatingStep(state, 0);
    assert Toggled(state.txBlockNumber) != state.txBlockNumber;
  }
}
