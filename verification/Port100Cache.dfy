/**
 What a Port-100 driver remembers of its reader's initiator settings, and why skipping
 the writes of values the reader holds already leaves the reader as full writes would.

 The reader answers a command from a script: it carries the command out, refuses it
 without effect, or carries it out and the answer is lost. Changing the RF or the mode
 may leave the registers, and where the mode changes also the RF, in any state.
 */
module Port100Cache {
  import opened Bytes
  import opened Wrappers

  // ------------------------------------------------------------------- the reader

  type Registers = r: seq<byte> | |r| == 0x100 witness seq(0x100, i => 0)

  datatype RfSettings = RfSettings(send: byte, sendSpeed: byte, recv: byte, recvSpeed: byte)
  datatype Reader = Reader(registers: Registers, rf: Option<RfSettings>)
  datatype Entry = Entry(key: byte, value: byte)

  datatype Command =
    | SetCommandType(kind: byte)
    | ResetDevice(startupDelay: u16)
    | SwitchRf(on: bool)
    | InSetRf(settings: RfSettings)
    | InSetProtocol(entries: seq<Entry>)
    | TgSetRf(kind: byte, speed: byte)

  datatype Reply = Done(reset: Reader) | Refused | Lost(reset: Reader)

  /** The register contents once the entries are written in order. */
  function Overwrite(registers: Registers, entries: seq<Entry>): Registers
    decreases |entries|
  {
    if entries == [] then registers
    else Overwrite(registers[entries[0].key := entries[0].value], entries[1..])
  }

  /** What carrying out a command makes of the reader. */
  function Effect(reader: Reader, command: Command, reset: Reader): Reader {
    match command
    case InSetProtocol(entries) => reader.(registers := Overwrite(reader.registers, entries))
    case InSetRf(settings) => Reader(reset.registers, Some(settings))
    case _ => reset
  }

  /** The reader, the answers it has still to give, and the commands it was sent. */
  datatype Link = Link(reader: Reader, replies: seq<Reply>, sent: seq<Command>)
  {
    /** The next reply; a reader that has none left does not answer. */
    function NextReply(): Reply { if replies == [] then Refused else replies[0] }

    function After(command: Command): Link {
      Link(if NextReply().Refused? then reader else Effect(reader, command, NextReply().reset),
           if replies == [] then [] else replies[1..],
           sent + [command])
    }
  }

  // ------------------------------------------------------------------- the driver

  const INITIATOR_PROTOCOL_KEYS := 0x14

  type Protocol = p: seq<Option<byte>> | |p| == INITIATOR_PROTOCOL_KEYS
    witness NothingKnown()

  function NothingKnown(): (protocol: seq<Option<byte>>)
    ensures |protocol| == INITIATOR_PROTOCOL_KEYS && forall k | 0 <= k < |protocol| :: protocol[k] == None
  {
    seq(INITIATOR_PROTOCOL_KEYS, i => None)
  }

  const IN_SET_PROTOCOL_DEFAULTS: seq<Entry> := [
    Entry(0x00, 0x18), Entry(0x01, 0x01), Entry(0x02, 0x01), Entry(0x03, 0x00), Entry(0x04, 0x00),
    Entry(0x05, 0x00), Entry(0x06, 0x00), Entry(0x07, 0x08), Entry(0x08, 0x00), Entry(0x09, 0x00),
    Entry(0x0A, 0x00), Entry(0x0B, 0x00), Entry(0x0C, 0x00), Entry(0x0E, 0x04), Entry(0x0F, 0x00),
    Entry(0x10, 0x00), Entry(0x11, 0x00), Entry(0x12, 0x00), Entry(0x13, 0x06)]

  /** The driver's memory of the reader, and the reader. */
  datatype State = State(bitrate: Option<(string, string)>, protocol: Protocol, link: Link)
  {
    function Forgetful(): State { State(None, NothingKnown(), link) }
  }

  /** Whether an operation succeeded, and the state after it. */
  datatype Outcome = Outcome(ok: bool, state: State)

  /** The entries whose value is not known to be in place. */
  function Pending(protocol: Protocol, entries: seq<Entry>): seq<Entry>
    decreases |entries|
  {
    if entries == [] then []
    else (if InPlace(protocol, entries[0]) then [] else [entries[0]]) + Pending(protocol, entries[1..])
  }

  predicate InPlace(protocol: Protocol, entry: Entry) {
    entry.key < INITIATOR_PROTOCOL_KEYS && protocol[entry.key] == Some(entry.value)
  }

  /** What is known once the entries are written. */
  function Remember(protocol: Protocol, entries: seq<Entry>): Protocol
    decreases |entries|
  {
    if entries == [] then protocol
    else
      var entry := entries[0];
      Remember(if entry.key < INITIATOR_PROTOCOL_KEYS then protocol[entry.key := Some(entry.value)] else protocol,
               entries[1..])
  }

  function Send(s: State, command: Command): Outcome {
    Outcome(s.link.NextReply().Done?, s.(link := s.link.After(command)))
  }

  function WriteProtocol(s: State, entries: seq<Entry>): Outcome {
    var pending := Pending(s.protocol, entries);
    if pending == [] then Outcome(true, s)
    else
      var sent := Send(s, InSetProtocol(pending));
      if sent.ok then Outcome(true, sent.state.(protocol := Remember(s.protocol, pending))) else sent
  }

  /** A command after which nothing is known of the initiator settings. */
  function Disturb(s: State, command: Command): Outcome {
    var sent := Send(s, command);
    if sent.ok then Outcome(true, sent.state.Forgetful()) else sent
  }

  function Settings(bitrate: string): Option<RfSettings> {
    if bitrate == "212F" then Some(RfSettings(1, 1, 15, 1))
    else if bitrate == "424F" then Some(RfSettings(1, 2, 15, 2))
    else if bitrate == "106A" then Some(RfSettings(2, 3, 15, 3))
    else if bitrate == "212A" then Some(RfSettings(4, 4, 15, 4))
    else if bitrate == "424A" then Some(RfSettings(5, 5, 15, 5))
    else if bitrate == "106B" then Some(RfSettings(3, 7, 15, 7))
    else if bitrate == "212B" then Some(RfSettings(3, 8, 15, 8))
    else if bitrate == "424B" then Some(RfSettings(3, 9, 15, 9))
    else None
  }

  /** The settings for a pair of speeds: the send half of one and the receive half of the other. */
  function PairSettings(send: string, recv: string): Option<RfSettings> {
    var s, r := Settings(send), Settings(recv);
    if s.None? || r.None? then None
    else Some(RfSettings(s.value.send, s.value.sendSpeed, r.value.recv, r.value.recvSpeed))
  }

  function SetInitiatorRf(s: State, send: string, recv: string): Outcome {
    if s.bitrate == Some((send, recv)) then Outcome(true, s)
    else if PairSettings(send, recv).None? then Outcome(false, s)
    else
      var sent := Send(s, InSetRf(PairSettings(send, recv).value));
      if sent.ok then Outcome(true, sent.state.Forgetful().(bitrate := Some((send, recv)))) else sent
  }

  // ------------------------------------------------------------------- the profile

  datatype Param =
    | InitialGuardTime | AddCrc | CheckCrc | MultiCard | AddParity | CheckParity | BitwiseAnticoll
    | LastByteBitCount | MifareCrypto | AddSof | CheckSof | AddEof | CheckEof | Rfu | DeafTime
    | ContinuousReceiveMode | MinLenForCrm | Type1TagRrdd | Rfca | GuardTime | Unknown(name: string)

  function ParamIndex(param: Param): Option<byte> {
    match param
    case InitialGuardTime => Some(0)
    case AddCrc => Some(1)
    case CheckCrc => Some(2)
    case MultiCard => Some(3)
    case AddParity => Some(4)
    case CheckParity => Some(5)
    case BitwiseAnticoll => Some(6)
    case LastByteBitCount => Some(7)
    case MifareCrypto => Some(8)
    case AddSof => Some(9)
    case CheckSof => Some(10)
    case AddEof => Some(11)
    case CheckEof => Some(12)
    case Rfu => Some(13)
    case DeafTime => Some(14)
    case ContinuousReceiveMode => Some(15)
    case MinLenForCrm => Some(16)
    case Type1TagRrdd => Some(17)
    case Rfca => Some(18)
    case GuardTime => Some(19)
    case Unknown(_) => None
  }

  /** The entries of named parameters, unless a name is not known. */
  function Entries(params: seq<(Param, byte)>): Option<seq<Entry>> {
    if params == [] then Some([])
    else
      var key, rest := ParamIndex(params[0].0), Entries(params[1..]);
      if key.None? || rest.None? then None else Some([Entry(key.value, params[0].1)] + rest.value)
  }

  function ConfigureInitiator(s: State, params: seq<(Param, byte)>): Outcome {
    match Entries(params)
    case None => Outcome(false, s)
    case Some(entries) => WriteProtocol(s, entries)
  }

  /** A card found at a pair of speeds; `selRes` identifies Type A cards. */
  datatype Target = Target(send: string, recv: string, selRes: Option<seq<byte>>)
  {
    predicate EndsWith(c: char) { |send| > 0 && send[|send| - 1] == c }

    predicate IsType2() {
      send == "106A" && selRes.Some? && selRes.value != [] && selRes.value[0] / 32 % 4 == 0
    }

    function Profile(): seq<(Param, byte)> {
      (if EndsWith('A') then [(AddParity, 1), (CheckParity, 1)] else [])
      + (if EndsWith('B') then
           [(InitialGuardTime, 20), (AddSof, 1), (CheckSof, 1), (AddEof, 1), (CheckEof, 1)] else [])
      + (if IsType2() then [(CheckCrc, 0)] else [])
    }
  }

  /** The settings of every exchange: the speeds, the defaults, and then the card's profile. */
  function Prepare(s: State, target: Target): Outcome {
    var rfSet := SetInitiatorRf(s, target.send, target.recv);
    if !rfSet.ok then rfSet
    else
      var defaultsSet := WriteProtocol(rfSet.state, IN_SET_PROTOCOL_DEFAULTS);
      if !defaultsSet.ok || target.Profile() == [] then defaultsSet
      else ConfigureInitiator(defaultsSet.state, target.Profile())
  }

  // ------------------------------------------------------------- what entries come to

  /** The value the last entry of a key gives it. */
  function Last(entries: seq<Entry>, key: byte): Option<byte>
    decreases |entries|
  {
    if entries == [] then None
    else
      var later := Last(entries[1..], key);
      if later.Some? then later
      else if entries[0].key == key then Some(entries[0].value)
      else None
  }

  lemma {:induction false} OverwriteIsLast(registers: Registers, entries: seq<Entry>, key: byte)
    ensures Overwrite(registers, entries)[key]
            == if Last(entries, key).Some? then Last(entries, key).value else registers[key]
    decreases |entries|
  {
    if entries != [] {
      OverwriteIsLast(registers[entries[0].key := entries[0].value], entries[1..], key);
    }
  }

  lemma {:induction false} RememberIsLast(protocol: Protocol, entries: seq<Entry>, key: byte)
    requires key < INITIATOR_PROTOCOL_KEYS
    ensures Remember(protocol, entries)[key] == if Last(entries, key).Some? then Last(entries, key) else protocol[key]
    decreases |entries|
  {
    if entries != [] {
      var entry := entries[0];
      RememberIsLast(if entry.key < INITIATOR_PROTOCOL_KEYS then protocol[entry.key := Some(entry.value)] else protocol,
                     entries[1..], key);
    }
  }

  /** Every entry of the key gives it this value. */
  predicate Only(entries: seq<Entry>, key: byte, value: byte) {
    forall i | 0 <= i < |entries| && entries[i].key == key :: entries[i].value == value
  }

  lemma {:induction false} LastOfOnly(entries: seq<Entry>, key: byte, value: byte)
    ensures Last(entries, key).None? <==> forall i | 0 <= i < |entries| :: entries[i].key != key
    ensures Only(entries, key, value) && Last(entries, key).Some? ==> Last(entries, key) == Some(value)
    decreases |entries|
  {
    if entries != [] {
      var rest := entries[1..];
      LastOfOnly(rest, key, value);
      assert forall i | 0 <= i < |rest| :: rest[i] == entries[i + 1];
      assert forall i | 1 <= i < |entries| :: entries[i] == rest[i - 1];
      assert Only(entries, key, value) ==> Only(rest, key, value);
    }
  }

  /**
   What the pending entries give a key: the same as all entries, unless the last entry
   repeats a known value that an earlier entry of the key departs from.
   */
  lemma {:induction false} PendingIsLast(protocol: Protocol, entries: seq<Entry>, key: byte)
    ensures var known := if key < INITIATOR_PROTOCOL_KEYS then protocol[key] else None;
            if known.None? || Last(entries, key) != known then
              Last(Pending(protocol, entries), key) == Last(entries, key)
            else Last(Pending(protocol, entries), key).None? <==> Only(entries, key, known.value)
    ensures var known := if key < INITIATOR_PROTOCOL_KEYS then protocol[key] else None;
            known.Some? ==> Last(Pending(protocol, entries), key) != known
    decreases |entries|
  {
    if entries != [] {
      var rest := entries[1..];
      var pending := Pending(protocol, rest);
      PendingIsLast(protocol, rest, key);
      assert ([entries[0]] + pending)[1..] == pending;
      assert [] + pending == pending;
      assert forall i | 1 <= i < |entries| :: entries[i] == rest[i - 1];
      assert forall i | 0 <= i < |rest| :: rest[i] == entries[i + 1];
      var known := if key < INITIATOR_PROTOCOL_KEYS then protocol[key] else None;
      if known.Some? {
        assert Only(entries, key, known.value)
               <==> Only(rest, key, known.value) && (entries[0].key == key ==> entries[0].value == known.value);
        if Last(rest, key).None? {
          LastOfOnly(rest, key, known.value);
        }
      }
    }
  }

  // ------------------------------------------------------ skipping what is in place

  /** Every known value is the reader's, and the known speeds are those of its RF. */
  ghost predicate Consistent(s: State) {
    && Agree(s.protocol, s.link.reader.registers)
    && (s.bitrate.Some? ==>
          var speeds := PairSettings(s.bitrate.value.0, s.bitrate.value.1);
          speeds.Some? && s.link.reader.rf == speeds)
  }

  ghost predicate Agree(protocol: Protocol, registers: Registers) {
    forall key: byte | key < INITIATOR_PROTOCOL_KEYS && protocol[key].Some? :: registers[key] == protocol[key].value
  }

  /** No key's last entry repeats its known value after an entry that departs from it. */
  ghost predicate NoStaleRepeat(protocol: Protocol, entries: seq<Entry>) {
    forall key: byte | key < INITIATOR_PROTOCOL_KEYS && protocol[key].Some? && Last(entries, key) == protocol[key] ::
      Only(entries, key, protocol[key].value)
  }

  /** Writing what is not in place leaves the reader as writing everything, exactly without a stale repeat. */
  lemma SkippingIsHarmless(registers: Registers, protocol: Protocol, entries: seq<Entry>)
    requires Agree(protocol, registers)
    ensures Overwrite(registers, Pending(protocol, entries)) == Overwrite(registers, entries)
            <==> NoStaleRepeat(protocol, entries)
  {
    var skipped, full := Overwrite(registers, Pending(protocol, entries)), Overwrite(registers, entries);
    forall key: byte
      ensures skipped[key] == full[key] <==>
              (key < INITIATOR_PROTOCOL_KEYS && protocol[key].Some? && Last(entries, key) == protocol[key]
               ==> Only(entries, key, protocol[key].value))
    {
      OverwriteIsLast(registers, Pending(protocol, entries), key);
      OverwriteIsLast(registers, entries, key);
      PendingIsLast(protocol, entries, key);
    }
    if NoStaleRepeat(protocol, entries) {
      assert forall key: byte :: skipped[key] == full[key];
    }
  }

  ghost predicate DistinctKeys(entries: seq<Entry>) {
    forall i, j | 0 <= i < j < |entries| :: entries[i].key != entries[j].key
  }

  lemma DistinctKeysAreHarmless(protocol: Protocol, entries: seq<Entry>)
    requires DistinctKeys(entries)
    ensures NoStaleRepeat(protocol, entries)
  {
    forall key: byte | key < INITIATOR_PROTOCOL_KEYS && protocol[key].Some? && Last(entries, key) == protocol[key]
      ensures Only(entries, key, protocol[key].value)
    {
      forall i | 0 <= i < |entries| && entries[i].key == key
        ensures entries[i].value == protocol[key].value
      {
        LastIsTheOne(entries, i);
      }
    }
  }

  lemma {:induction false} LastIsTheOne(entries: seq<Entry>, i: nat)
    requires DistinctKeys(entries) && i < |entries|
    ensures Last(entries, entries[i].key) == Some(entries[i].value)
    decreases |entries|
  {
    var rest := entries[1..];
    assert forall j | 0 <= j < |rest| :: rest[j] == entries[j + 1];
    if i > 0 {
      LastIsTheOne(rest, i - 1);
    } else {
      LastOfOnly(rest, entries[0].key, 0);
    }
  }

  /** With a repeated key, skipping can go wrong: the reader is left at 5 where 7 was asked for last. */
  lemma RepeatedKeyGoesWrong(registers: Registers, key: byte)
    requires key < INITIATOR_PROTOCOL_KEYS && registers[key] == 7
    ensures var protocol: Protocol, entries := NothingKnown()[key := Some(7)], [Entry(key, 5), Entry(key, 7)];
            && Agree(protocol, registers)
            && Overwrite(registers, Pending(protocol, entries))[key] == 5 && Overwrite(registers, entries)[key] == 7
  {
    var protocol: Protocol, entries := NothingKnown()[key := Some(7)], [Entry(key, 5), Entry(key, 7)];
    assert entries[1..] == [Entry(key, 7)] && [Entry(key, 7)][1..] == [];
    assert Pending(protocol, [Entry(key, 7)]) == [];
    assert Pending(protocol, entries) == [Entry(key, 5)] && [Entry(key, 5)][1..] == [];
    LastIsTheOne([Entry(key, 5)], 0);
    LastIsTheOne([Entry(key, 7)], 0);
    OverwriteIsLast(registers, [Entry(key, 5)], key);
    OverwriteIsLast(registers, entries, key);
  }

  // -------------------------------------------------------------------- whole runs

  /** The assumption on the reader: an answer that is not a success means no effect. */
  ghost predicate Honest(replies: seq<Reply>) {
    forall i | 0 <= i < |replies| :: !replies[i].Lost?
  }

  datatype Operation =
    | Exchange(target: Target)
    | SetRf(send: string, recv: string)
    | ApplyDefaults
    | Configure(params: seq<(Param, byte)>)
    | ChangeMode(command: Command)

  /** The commands after which the driver forgets the initiator settings. */
  predicate Disturbing(command: Command) {
    !command.InSetRf? && !command.InSetProtocol?
  }

  function Perform(s: State, operation: Operation): Outcome {
    match operation
    case Exchange(target) => Prepare(s, target)
    case SetRf(send, recv) => SetInitiatorRf(s, send, recv)
    case ApplyDefaults => WriteProtocol(s, IN_SET_PROTOCOL_DEFAULTS)
    case Configure(params) => ConfigureInitiator(s, params)
    case ChangeMode(command) => if Disturbing(command) then Disturb(s, command) else Outcome(false, s)
  }

  function Run(s: State, operations: seq<Operation>): State
    decreases |operations|
  {
    if operations == [] then s else Run(Perform(s, operations[0]).state, operations[1..])
  }

  ghost predicate Sound(s: State) { Consistent(s) && Honest(s.link.replies) }

  lemma SendStaysHonest(s: State, command: Command)
    requires Honest(s.link.replies)
    ensures Honest(Send(s, command).state.link.replies) && !s.link.NextReply().Lost?
  {
    var rest := if s.link.replies == [] then [] else s.link.replies[1..];
    assert forall i | 0 <= i < |rest| :: rest[i] == s.link.replies[i + 1];
  }

  lemma WriteIsSound(s: State, entries: seq<Entry>)
    requires Sound(s)
    ensures Sound(WriteProtocol(s, entries).state)
  {
    var pending := Pending(s.protocol, entries);
    if pending != [] {
      SendStaysHonest(s, InSetProtocol(pending));
      if s.link.NextReply().Done? {
        forall key: byte | key < INITIATOR_PROTOCOL_KEYS && Remember(s.protocol, pending)[key].Some?
          ensures Overwrite(s.link.reader.registers, pending)[key] == Remember(s.protocol, pending)[key].value
        {
          OverwriteIsLast(s.link.reader.registers, pending, key);
          RememberIsLast(s.protocol, pending, key);
        }
      }
    }
  }

  lemma SetRfIsSound(s: State, send: string, recv: string)
    requires Sound(s)
    ensures Sound(SetInitiatorRf(s, send, recv).state)
  {
    if PairSettings(send, recv).Some? {
      SendStaysHonest(s, InSetRf(PairSettings(send, recv).value));
    }
  }

  lemma DisturbIsSound(s: State, command: Command)
    requires Sound(s)
    ensures Sound(Disturb(s, command).state)
  {
    SendStaysHonest(s, command);
  }

  lemma PrepareIsSound(s: State, target: Target)
    requires Sound(s)
    ensures Sound(Prepare(s, target).state)
  {
    hide Sound, WriteProtocol, SetInitiatorRf, IN_SET_PROTOCOL_DEFAULTS;
    SetRfIsSound(s, target.send, target.recv);
    var rfSet := SetInitiatorRf(s, target.send, target.recv);
    WriteIsSound(rfSet.state, IN_SET_PROTOCOL_DEFAULTS);
    var defaultsSet := WriteProtocol(rfSet.state, IN_SET_PROTOCOL_DEFAULTS);
    var entries := Entries(target.Profile());
    if entries.Some? {
      WriteIsSound(defaultsSet.state, entries.value);
    }
  }

  lemma PerformIsSound(s: State, operation: Operation)
    requires Sound(s)
    ensures Sound(Perform(s, operation).state)
  {
    hide Sound, WriteProtocol, SetInitiatorRf, Prepare, Disturb, IN_SET_PROTOCOL_DEFAULTS;
    match operation
    case Exchange(target) => PrepareIsSound(s, target);
    case SetRf(send, recv) => SetRfIsSound(s, send, recv);
    case ApplyDefaults => WriteIsSound(s, IN_SET_PROTOCOL_DEFAULTS);
    case Configure(params) =>
      if Entries(params).Some? {
        WriteIsSound(s, Entries(params).value);
      }
    case ChangeMode(command) =>
      if Disturbing(command) {
        DisturbIsSound(s, command);
      }
  }

  /** Whatever is done, and whatever fails, nothing false is ever remembered. */
  lemma {:induction false} RunIsSound(s: State, operations: seq<Operation>)
    requires Sound(s)
    ensures Sound(Run(s, operations))
    decreases |operations|
  {
    if operations != [] {
      PerformIsSound(s, operations[0]);
      RunIsSound(Perform(s, operations[0]).state, operations[1..]);
    }
  }

  /** So from a new driver on, whatever its reader holds. */
  lemma NewDriverIsSound(link: Link, operations: seq<Operation>)
    requires Honest(link.replies)
    ensures Consistent(Run(State(None, NothingKnown(), link), operations))
  {
    hide Run;
    RunIsSound(State(None, NothingKnown(), link), operations);
  }

  /** When a write's answer is lost, the memory stays true exactly if it held none of the keys written. */
  lemma LostWrite(s: State, entries: seq<Entry>)
    requires Consistent(s) && Pending(s.protocol, entries) != [] && s.link.NextReply().Lost?
    ensures !WriteProtocol(s, entries).ok
    ensures Consistent(WriteProtocol(s, entries).state)
            <==> forall key: byte | key < INITIATOR_PROTOCOL_KEYS && s.protocol[key].Some? ::
                   Last(Pending(s.protocol, entries), key).None?
  {
    var pending := Pending(s.protocol, entries);
    var after := Overwrite(s.link.reader.registers, pending);
    forall key: byte | key < INITIATOR_PROTOCOL_KEYS && s.protocol[key].Some?
      ensures after[key] == s.protocol[key].value <==> Last(pending, key).None?
    {
      OverwriteIsLast(s.link.reader.registers, pending, key);
      PendingIsLast(s.protocol, entries, key);
    }
  }

  /** Different speeds have different settings. */
  lemma SettingsTellSpeeds(send: string, recv: string, otherSend: string, otherRecv: string)
    requires PairSettings(send, recv).Some? && PairSettings(send, recv) == PairSettings(otherSend, otherRecv)
    ensures send == otherSend && recv == otherRecv
  {
    SpeedIsTold(send, otherSend);
    SpeedIsTold(recv, otherRecv);
  }

  lemma SpeedIsTold(a: string, b: string)
    requires Settings(a).Some? && Settings(b).Some?
    requires Settings(a).value.sendSpeed == Settings(b).value.sendSpeed
             || Settings(a).value.recvSpeed == Settings(b).value.recvSpeed
    ensures a == b
  {
  }

  /**
   When the answer to setting the RF is lost, the memory stays true exactly if no speed
   was known and the reset left every known register as it was. If another speed was
   known, asking for that one again is skipped although the RF has left it.
   */
  lemma LostRf(s: State, send: string, recv: string)
    requires Consistent(s) && s.bitrate != Some((send, recv)) && PairSettings(send, recv).Some?
    requires s.link.NextReply().Lost?
    ensures var t := SetInitiatorRf(s, send, recv);
            && !t.ok
            && (Consistent(t.state) <==> s.bitrate.None? && Agree(s.protocol, s.link.NextReply().reset.registers))
            && (s.bitrate.Some? ==>
                  var known := s.bitrate.value;
                  && SetInitiatorRf(t.state, known.0, known.1) == Outcome(true, t.state)
                  && t.state.link.reader.rf != PairSettings(known.0, known.1))
  {
    hide Settings, PairSettings;
    if s.bitrate.Some? && PairSettings(s.bitrate.value.0, s.bitrate.value.1) == PairSettings(send, recv) {
      SettingsTellSpeeds(send, recv, s.bitrate.value.0, s.bitrate.value.1);
    }
  }

  /**
   When the answer to a mode change is lost, the memory stays true exactly if the reset
   left all it held. A remembered value that the reset changed is not written again.
   */
  lemma LostDisturb(s: State, command: Command)
    requires Consistent(s) && Disturbing(command) && s.link.NextReply().Lost?
    ensures var t, reset := Disturb(s, command), s.link.NextReply().reset;
            && !t.ok
            && (Consistent(t.state)
                <==> && Agree(s.protocol, reset.registers)
                     && (s.bitrate.Some? ==> reset.rf == PairSettings(s.bitrate.value.0, s.bitrate.value.1)))
            && (forall key: byte | key < INITIATOR_PROTOCOL_KEYS && s.protocol[key].Some?
                                   && reset.registers[key] != s.protocol[key].value ::
                  && WriteProtocol(t.state, [Entry(key, s.protocol[key].value)]) == Outcome(true, t.state)
                  && t.state.link.reader.registers[key] != s.protocol[key].value)
  {
    hide Settings, PairSettings;
    var t := Disturb(s, command).state;
    forall key: byte | key < INITIATOR_PROTOCOL_KEYS && s.protocol[key].Some?
      ensures WriteProtocol(t, [Entry(key, s.protocol[key].value)]) == Outcome(true, t)
    {
      var entries := [Entry(key, s.protocol[key].value)];
      assert entries[1..] == [] && InPlace(t.protocol, entries[0]);
      assert Pending(t.protocol, []) == [] && Pending(t.protocol, entries) == [];
    }
  }

  // ------------------------------------------------------------- what an exchange finds

  /** The value of a key in the defaults of `IN_SET_PROTOCOL_DEFAULTS`. */
  function Default(key: byte): byte {
    match key
    case 0x00 => 0x18
    case 0x01 => 0x01
    case 0x02 => 0x01
    case 0x07 => 0x08
    case 0x0E => 0x04
    case 0x13 => 0x06
    case _ => 0x00
  }

  /** The value a card's exchanges run with. */
  function Setting(target: Target, key: byte): byte {
    if target.IsType2() && key == 0x02 then 0
    else if target.EndsWith('A') && (key == 0x04 || key == 0x05) then 1
    else if target.EndsWith('B') && key == 0x00 then 20
    else if target.EndsWith('B') && 0x09 <= key <= 0x0C then 1
    else Default(key)
  }

  /** The keys the driver sets: all but the reserved 0D. */
  predicate Managed(key: byte) {
    key < INITIATOR_PROTOCOL_KEYS && key != 0x0D
  }

  lemma DefaultsAreDistinct()
    ensures DistinctKeys(IN_SET_PROTOCOL_DEFAULTS)
  {
    var entries := IN_SET_PROTOCOL_DEFAULTS;
    assert forall i | 0 <= i < |entries| :: entries[i].key as int == if i < 13 then i else i + 1;
  }

  lemma DefaultsAre(key: byte)
    ensures Last(IN_SET_PROTOCOL_DEFAULTS, key) == if Managed(key) then Some(Default(key)) else None
  {
    hide Last;
    var entries := IN_SET_PROTOCOL_DEFAULTS;
    DefaultsAreDistinct();
    assert |entries| == 19;
    assert forall i | 0 <= i < 19 :: entries[i].key as int == if i < 13 then i else i + 1;
    if Managed(key) {
      var i := if key < 13 then key as int else key - 1;
      LastIsTheOne(entries, i);
      assert entries[i].value == Default(key);
    } else {
      LastOfOnly(entries, key, 0);
    }
  }

  lemma {:induction false} EntriesAre(params: seq<(Param, byte)>)
    requires forall i | 0 <= i < |params| :: ParamIndex(params[i].0).Some?
    ensures var entries := Entries(params);
            && entries.Some? && |entries.value| == |params|
            && forall i | 0 <= i < |params| :: entries.value[i] == Entry(ParamIndex(params[i].0).value, params[i].1)
    decreases |params|
  {
    if params != [] {
      var rest := params[1..];
      assert forall i | 0 <= i < |rest| :: rest[i] == params[i + 1];
      EntriesAre(rest);
      assert forall i | 1 <= i < |params| :: params[i] == rest[i - 1];
    }
  }

  /** A profile sets each of its keys once, and makes of the defaults what the card needs. */
  lemma ProfileIs(target: Target, key: byte)
    ensures Entries(target.Profile()).Some?
    ensures var entries := Entries(target.Profile()).value;
            && DistinctKeys(entries)
            && Setting(target, key) == (if Last(entries, key).Some? then Last(entries, key).value else Default(key))
            && (Last(entries, key).Some? ==> Managed(key))
  {
    hide Last, Entries;
    var profile := target.Profile();
    EntriesAre(profile);
    var entries := Entries(profile).value;
    assert DistinctKeys(entries);
    if target.EndsWith('A') {
      assert entries[0].key == 0x04 && entries[1].key == 0x05;
    }
    if target.EndsWith('B') {
      assert entries[0].key == 0x00 && entries[1].key == 0x09 && entries[2].key == 0x0A;
      assert entries[3].key == 0x0B && entries[4].key == 0x0C;
    }
    if target.IsType2() {
      assert entries[|entries| - 1].key == 0x02;
    }
    if i :| 0 <= i < |entries| && entries[i].key == key {
      LastIsTheOne(entries, i);
    } else {
      LastOfOnly(entries, key, 0);
    }
  }

  /** A successful write of distinct keys: all of them are known, and are what the reader holds. */
  lemma WriteEstablishes(s: State, entries: seq<Entry>)
    requires Sound(s) && DistinctKeys(entries) && WriteProtocol(s, entries).ok
    ensures var t := WriteProtocol(s, entries).state;
            && t.bitrate == s.bitrate && t.link.reader.rf == s.link.reader.rf
            && t.link.reader.registers == Overwrite(s.link.reader.registers, entries)
            && (forall key: byte | key < INITIATOR_PROTOCOL_KEYS ::
                  t.protocol[key] == if Last(entries, key).Some? then Last(entries, key) else s.protocol[key])
  {
    var pending := Pending(s.protocol, entries);
    DistinctKeysAreHarmless(s.protocol, entries);
    SkippingIsHarmless(s.link.reader.registers, s.protocol, entries);
    assert Overwrite(s.link.reader.registers, []) == s.link.reader.registers;
    forall key: byte | key < INITIATOR_PROTOCOL_KEYS
      ensures Remember(s.protocol, pending)[key]
              == if Last(entries, key).Some? then Last(entries, key) else s.protocol[key]
    {
      RememberIsLast(s.protocol, pending, key);
      PendingIsLast(s.protocol, entries, key);
    }
    assert Remember(s.protocol, []) == s.protocol;
  }

  /** The reader of a driver that remembers nothing and writes everything for each exchange. */
  function WriteEverything(reader: Reader, target: Target, reset: Reader): Reader
    requires PairSettings(target.send, target.recv).Some?
  {
    var rfSet := Effect(reader, InSetRf(PairSettings(target.send, target.recv).value), reset);
    var defaultsSet := Effect(rfSet, InSetProtocol(IN_SET_PROTOCOL_DEFAULTS), reset);
    match Entries(target.Profile())
    case None => defaultsSet
    case Some(entries) => Effect(defaultsSet, InSetProtocol(entries), reset)
  }

  lemma WritingEverything(reader: Reader, target: Target, reset: Reader)
    requires PairSettings(target.send, target.recv).Some?
    ensures var after := WriteEverything(reader, target, reset);
            && after.rf == PairSettings(target.send, target.recv)
            && (forall key: byte | Managed(key) :: after.registers[key] == Setting(target, key))
  {
    hide Last, Entries, Overwrite, IN_SET_PROTOCOL_DEFAULTS;
    forall key: byte | Managed(key)
      ensures WriteEverything(reader, target, reset).registers[key] == Setting(target, key)
    {
      ProfileIs(target, key);
      DefaultsAre(key);
      OverwriteIsLast(reset.registers, IN_SET_PROTOCOL_DEFAULTS, key);
      OverwriteIsLast(Overwrite(reset.registers, IN_SET_PROTOCOL_DEFAULTS), Entries(target.Profile()).value, key);
    }
  }

  ghost predicate Prepared(s: State, target: Target) {
    && Consistent(s)
    && s.bitrate == Some((target.send, target.recv))
    && PairSettings(target.send, target.recv).Some?
    && forall key: byte | Managed(key) :: s.protocol[key] == Some(Setting(target, key))
  }

  lemma SetRfEstablishes(s: State, target: Target)
    requires Sound(s) && SetInitiatorRf(s, target.send, target.recv).ok
    ensures var t := SetInitiatorRf(s, target.send, target.recv).state;
            && Sound(t) && t.bitrate == Some((target.send, target.recv))
            && PairSettings(target.send, target.recv).Some?
  {
    SetRfIsSound(s, target.send, target.recv);
  }

  /** After every successful preparation the driver knows every setting of the exchange. */
  lemma PrepareEstablishes(s: State, target: Target)
    requires Sound(s)
    ensures Prepare(s, target).ok ==> Prepared(Prepare(s, target).state, target)
    ensures var rfSet, after := SetInitiatorRf(s, target.send, target.recv).state, Prepare(s, target).state;
            Prepare(s, target).ok ==>
              forall key: byte | !Managed(key) :: after.link.reader.registers[key] == rfSet.link.reader.registers[key]
  {
    if Prepare(s, target).ok {
      SuccessEstablishes(s, target);
    }
  }

  lemma SuccessEstablishes(s: State, target: Target)
    requires Sound(s) && Prepare(s, target).ok
    ensures Prepared(Prepare(s, target).state, target)
    ensures var rfSet, after := SetInitiatorRf(s, target.send, target.recv).state, Prepare(s, target).state;
            forall key: byte | !Managed(key) :: after.link.reader.registers[key] == rfSet.link.reader.registers[key]
  {
    hide Last, Entries, Overwrite, WriteProtocol, SetInitiatorRf, Consistent, Honest, IN_SET_PROTOCOL_DEFAULTS;
    var defaults, profile := IN_SET_PROTOCOL_DEFAULTS, target.Profile();
    SetRfEstablishes(s, target);
    var t := SetInitiatorRf(s, target.send, target.recv).state;
    DefaultsAreDistinct();
    WriteEstablishes(t, defaults);
    WriteIsSound(t, defaults);
    var u := WriteProtocol(t, defaults).state;
    ProfileIs(target, 0);
    var entries := Entries(profile).value;
    if profile != [] {
      WriteEstablishes(u, entries);
      WriteIsSound(u, entries);
    } else {
      EntriesAre(profile);
    }
    forall key: byte
      ensures Managed(key) ==> Prepare(s, target).state.protocol[key] == Some(Setting(target, key))
      ensures !Managed(key) ==> Prepare(s, target).state.link.reader.registers[key] == t.link.reader.registers[key]
    {
      DefaultsAre(key);
      ProfileIs(target, key);
      LastOfOnly(entries, key, 0);
      OverwriteIsLast(t.link.reader.registers, defaults, key);
      OverwriteIsLast(u.link.reader.registers, entries, key);
    }
  }

  /**
   After every successful preparation the reader runs at the card's speeds and holds the
   defaults overridden by the card's profile, as after a driver that writes everything.
   */
  lemma SkippingRefinesWriting(s: State, target: Target, reset: Reader)
    requires Sound(s)
    ensures Prepare(s, target).ok ==>
              && PairSettings(target.send, target.recv).Some?
              && var after := Prepare(s, target).state.link.reader;
              && var plain := WriteEverything(s.link.reader, target, reset);
              && after.rf == plain.rf
              && (forall key: byte | Managed(key) ::
                    after.registers[key] == plain.registers[key] == Setting(target, key))
  {
    hide Prepare, WriteEverything, Setting;
    PrepareEstablishes(s, target);
    if Prepare(s, target).ok {
      WritingEverything(s.link.reader, target, reset);
    }
  }

  lemma {:induction false} PendingNothing(protocol: Protocol, entries: seq<Entry>)
    ensures Pending(protocol, entries) == [] <==> forall i | 0 <= i < |entries| :: InPlace(protocol, entries[i])
    decreases |entries|
  {
    if entries != [] {
      var rest := entries[1..];
      PendingNothing(protocol, rest);
      assert forall i | 0 <= i < |rest| :: rest[i] == entries[i + 1];
      assert forall i | 1 <= i < |entries| :: entries[i] == rest[i - 1];
    }
  }

  lemma DefaultsInPlace(s: State, target: Target)
    requires Prepared(s, target)
    ensures Pending(s.protocol, IN_SET_PROTOCOL_DEFAULTS) == [] <==> target.Profile() == []
  {
    hide Last, Pending, Consistent;
    var entries := IN_SET_PROTOCOL_DEFAULTS;
    PendingNothing(s.protocol, entries);
    assert forall i | 0 <= i < |entries| :: Managed(entries[i].key) && entries[i].value == Default(entries[i].key);
    assert entries[0].key == 0x00 && entries[4].key == 0x04;
    assert target.IsType2() ==> target.EndsWith('A');
  }

  /**
   Preparing once more for the same card sends nothing, exactly when the card's profile
   is empty: a Type A or Type B profile is undone by the defaults and written again.
   */
  lemma RepeatedPrepare(s: State, target: Target)
    requires Prepared(s, target)
    ensures Prepare(s, target).state.link.sent == s.link.sent
            <==> !target.EndsWith('A') && !target.EndsWith('B')
    ensures Prepare(s, target).state.link.sent == s.link.sent ==> Prepare(s, target) == Outcome(true, s)
  {
    hide Entries, Pending, Consistent, IN_SET_PROTOCOL_DEFAULTS;
    DefaultsInPlace(s, target);
    assert target.Profile() == [] <==> !target.EndsWith('A') && !target.EndsWith('B');
  }
}
