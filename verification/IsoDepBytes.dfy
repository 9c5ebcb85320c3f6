/** The bytes of ISO-DEP blocks bit by bit, as they are built and for all that is received, and the frame sizes. */
module IsoDepBytes {
  import opened Bytes
  import opened Wrappers
  import opened IsoDep

  // ------------------------------------------------------------------- what is sent

  /** The bits of a block's first byte, highest first, the two of its type as one number. */
  predicate HasBits(pcb: byte, kind: nat, b5: nat, b4: nat, b3: nat, b2: nat, b1: nat, b0: nat) {
    && pcb / 64 == kind && pcb / 32 % 2 == b5 && pcb / 16 % 2 == b4 && pcb / 8 % 2 == b3 && pcb / 4 % 2 == b2
    && pcb / 2 % 2 == b1 && pcb % 2 == b0
  }

  lemma BitsOf(kind: nat, b5: nat, b4: nat, b3: nat, b2: nat, b1: nat, b0: nat)
    requires kind < 4 && b5 < 2 && b4 < 2 && b3 < 2 && b2 < 2 && b1 < 2 && b0 < 2
    ensures var pcb := 64 * kind + 32 * b5 + 16 * b4 + 8 * b3 + 4 * b2 + 2 * b1 + b0;
            pcb < 256 && HasBits(pcb, kind, b5, b4, b3, b2, b1, b0)
  {
    var pcb := 64 * kind + 32 * b5 + 16 * b4 + 8 * b3 + 4 * b2 + 2 * b1 + b0;
    assert pcb / 2 == 32 * kind + 16 * b5 + 8 * b4 + 4 * b3 + 2 * b2 + b1;
    assert pcb / 4 == 16 * kind + 8 * b5 + 4 * b4 + 2 * b3 + b2;
    assert pcb / 8 == 8 * kind + 4 * b5 + 2 * b4 + b3;
    assert pcb / 16 == 4 * kind + 2 * b5 + b4;
    assert pcb / 32 == 2 * kind + b5;
  }

  /** An I-block: 00, chaining, CID, NAD, 1, the block number; then CID and NAD, and the payload. */
  lemma IBlockIs(state: State, payload: seq<byte>, chaining: bool)
    ensures var frame := BuildIBlock(state, payload, chaining);
            var cid, nad := Bit(state.cid.Some?), Bit(state.nad.Some?);
            && |frame| == 1 + cid + nad + |payload|
            && HasBits(frame[0], 0, 0, Bit(chaining), cid, nad, 1, state.txBlockNumber % 2)
            && (state.cid.Some? ==> frame[1] == state.cid.value)
            && (state.nad.Some? ==> frame[1 + cid] == state.nad.value)
            && frame[1 + cid + nad..] == payload
  {
    BitsOf(0, 0, Bit(chaining), Bit(state.cid.Some?), Bit(state.nad.Some?), 1, state.txBlockNumber % 2);
    hide HasBits;
  }

  /** An R-block: 10, negative acknowledgement, CID, the number of the block expected; then CID. */
  lemma RBlockIs(state: State, ack: bool)
    ensures var frame := BuildRBlock(state, ack);
            && |frame| == 1 + Bit(state.cid.Some?)
            && HasBits(frame[0], 2, 0, Bit(!ack), Bit(state.cid.Some?), 0, 0, state.piccBlockNumber % 2)
            && (state.cid.Some? ==> frame[1] == state.cid.value)
  {
    BitsOf(2, 0, Bit(!ack), Bit(state.cid.Some?), 0, 0, state.piccBlockNumber % 2);
    hide HasBits;
  }

  /** An S-block: 11, and each bit of its code, with those for CID and block number set if they are there. */
  lemma SBlockIs(state: State, code: byte, includeBlockNumber: bool, payload: seq<byte>)
    ensures var frame := BuildSBlock(state, code, includeBlockNumber, payload);
            var cid, number := Bit(state.cid.Some?), if includeBlockNumber then state.txBlockNumber % 2 else 0;
            && |frame| == 1 + cid + |payload| && 0 <= SBlockPcb(code, cid, number) < 256
            && HasBits(frame[0], 3, code / 32 % 2, code / 16 % 2, if code / 8 % 2 == 1 then 1 else cid,
                       code / 4 % 2, code / 2 % 2, if code % 2 == 1 then 1 else number)
            && (state.cid.Some? ==> frame[1] == state.cid.value)
            && frame[1 + cid..] == payload
  {
    var cid, number := Bit(state.cid.Some?), if includeBlockNumber then state.txBlockNumber % 2 else 0;
    assert code / 16 % 4 == 2 * (code / 32 % 2) + code / 16 % 2 by { assert code / 32 == code / 16 / 2; }
    BitsOf(3, code / 32 % 2, code / 16 % 2, if code / 8 % 2 == 1 then 1 else cid, code / 4 % 2, code / 2 % 2,
           if code % 2 == 1 then 1 else number);
    hide HasBits;
  }

  // --------------------------------------------------------------- what is received

  /** Where the payload of a received block starts, by the bits for CID and NAD. */
  function PayloadStart(pcb: byte): nat { 1 + pcb / 8 % 2 + pcb / 4 % 2 }

  /**
   Everything received is taken by its first byte's bits: the type by the upper two, chaining
   by the fifth, the number by the lowest. It is refused if it is empty, if a CID or NAD is
   announced that is not there, or for another CID than the session's.
   */
  lemma ReceivedIs(state: State, data: seq<byte>)
    ensures ParseResponse(state, data) == Err(Empty) <==> |data| == 0
    ensures |data| > 0 ==>
              var pcb, parsed := data[0], ParseResponse(state, data);
              var hasCid, hasNad := pcb / 8 % 2 == 1, pcb / 4 % 2 == 1;
              var otherCid := hasCid && |data| > 1 && state.cid.Some? && data[1] != state.cid.value;
              && (parsed == Err(MissingCid) <==> hasCid && |data| == 1)
              && (parsed == Err(CidMismatch) <==> otherCid)
              && (parsed == Err(MissingNad) <==> hasNad && !otherCid && |data| == PayloadStart(pcb) - 1
                                                 && !(hasCid && |data| == 1))
              && (parsed.Ok? <==> !otherCid && |data| >= PayloadStart(pcb))
              && (parsed.Ok? ==>
                    && parsed.value.chaining == (pcb / 16 % 2 == 1) && parsed.value.blockNumber == pcb % 2
                    && parsed.value.blockType
                       == if pcb < 64 then I(data[PayloadStart(pcb)..])
                          else if pcb < 128 then Unknown(64)
                          else if pcb < 192 then R(pcb / 16 % 2 == 0)
                          else S(pcb / 16 % 4 * 16, data[PayloadStart(pcb)..]))
  {
    if |data| > 0 {
      assert data[0] / 0x40 == if data[0] < 64 then 0 else if data[0] < 128 then 1 else if data[0] < 192 then 2 else 3;
    }
  }

  // ------------------------------------------------------------------------- sizes

  lemma FrameSizesAre(index: byte)
    ensures FrameSize(index) == [16, 24, 32, 40, 48, 64, 96, 128, 256][if index < 8 then index else 8]
  {
  }

  /** How much of a payload fits a frame: its size but for the header of one to three bytes. */
  lemma PayloadsFit(config: Config)
    ensures var header := 1 + Bit(config.useCid) + Bit(config.useNad);
            && config.MaxInfLenPcd() + header == FrameSize(config.fsdi)
            && config.MaxInfLenPicc() + header == FrameSize(config.fsci)
            && config.InitialState().HeaderLen() == header
            && config.InitialState().txBlockNumber == 0 && config.InitialState().piccBlockNumber == 0
            && (config.useCid ==> config.InitialState().cid == Some(config.cid))
            && (config.useNad ==> config.InitialState().nad == Some(config.nad))
  {
  }

  /** Under the Type A defaults the reader takes 256 bytes and the card 32, with a CID of 2 in every block. */
  lemma TypeADefaultsAre()
    ensures var config := TypeADefaults();
            && config.fsdi == 8 && config.fsci == 2 && config.cid == 2 && config.useCid && !config.useNad
            && config.nad == 0 && config.MaxInfLenPcd() == 254 && config.MaxInfLenPicc() == 30
            && config.InitialState() == State(0, 0, Some(2), None)
  {
  }
}
