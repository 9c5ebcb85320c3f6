/**
 The values a Port-100 is sent: those its RF is set to for each speed, told by the speed's
 rate and modulation, in every command and every exchange, and the keys of its parameters.
 */
module Port100Values {
  import opened Bytes
  import opened Wrappers
  import opened Port100Cache

  /** 106, 212 or 424 kbit/s with modulation A or B, and the two upper ones with F. */
  predicate Supported(speed: string) {
    && |speed| == 4
    && (speed[3] == 'A' || speed[3] == 'B' || speed[3] == 'F')
    && (speed[..3] == "212" || speed[..3] == "424" || (speed[..3] == "106" && speed[3] != 'F'))
  }

  /** 0, 1 and 2 for 106, 212 and 424 kbit/s. */
  function Rate(speed: string): byte
    requires Supported(speed)
  {
    if speed[0] == '1' then 0 else if speed[0] == '2' then 1 else 2
  }

  /** The number of a speed: F from 1 on, A from 3 on, B from 7 on, by rate. */
  function SpeedNumber(speed: string): byte
    requires Supported(speed)
  {
    Rate(speed) + if speed[3] == 'F' then 0 else if speed[3] == 'A' then 3 else 7
  }

  /** The kind of sender: one for F, one for B, and one for each rate of A. */
  function SendKind(speed: string): byte
    requires Supported(speed)
  {
    if speed[3] == 'F' then 1
    else if speed[3] == 'B' then 3
    else if Rate(speed) == 0 then 2
    else 3 + Rate(speed)
  }

  const RECEIVE_KIND: byte := 15

  /** The RF settings of a send and a receive speed. */
  function Expected(send: string, recv: string): RfSettings
    requires Supported(send) && Supported(recv)
  {
    RfSettings(SendKind(send), SpeedNumber(send), RECEIVE_KIND, SpeedNumber(recv))
  }

  lemma SettingsAre(speed: string)
    ensures Settings(speed).Some? <==> Supported(speed)
    ensures Supported(speed) ==> Settings(speed) == Some(Expected(speed, speed))
  {
    if Supported(speed) {
      assert speed == speed[..3] + [speed[3]];
      assert speed[0] == speed[..3][0];
    }
  }

  lemma PairsAre(send: string, recv: string)
    ensures PairSettings(send, recv)
            == if Supported(send) && Supported(recv) then Some(Expected(send, recv)) else None
  {
    SettingsAre(send);
    SettingsAre(recv);
    hide Settings, Supported, SpeedNumber, SendKind;
  }

  /** Setting the RF does nothing for the known speeds, refuses unsupported ones, and else sends these values. */
  lemma SetRfSends(s: State, send: string, recv: string)
    ensures var done := SetInitiatorRf(s, send, recv);
            if s.bitrate == Some((send, recv)) then done == Outcome(true, s)
            else if !Supported(send) || !Supported(recv) then done == Outcome(false, s)
            else
              && done.state.link.sent == s.link.sent + [InSetRf(Expected(send, recv))]
              && (done.ok ==> done.state.bitrate == Some((send, recv)))
              && (done.ok ==> done.state.link.reader.rf == Some(Expected(send, recv)))
  {
    PairsAre(send, recv);
    hide PairSettings, Supported, Expected;
  }

  /** After every successful preparation the RF holds exactly the values of the card's speeds. */
  lemma PreparedRf(s: State, target: Target)
    requires Sound(s) && Prepare(s, target).ok
    ensures Supported(target.send) && Supported(target.recv)
    ensures Prepare(s, target).state.link.reader.rf == Some(Expected(target.send, target.recv))
  {
    PairsAre(target.send, target.recv);
    PrepareEstablishes(s, target);
    hide PairSettings, Prepare, Supported, Expected, Sound, Setting;
  }

  /** A card at an unsupported speed is refused before anything is sent. */
  lemma UnsupportedIsRefused(s: State, target: Target)
    requires Sound(s) && !(Supported(target.send) && Supported(target.recv))
    ensures Prepare(s, target) == Outcome(false, s)
  {
    PairsAre(target.send, target.recv);
    hide PairSettings, Supported;
  }

  /** The named parameters in the order of their keys. */
  const PARAMS := [
    InitialGuardTime, AddCrc, CheckCrc, MultiCard, AddParity, CheckParity, BitwiseAnticoll, LastByteBitCount,
    MifareCrypto, AddSof, CheckSof, AddEof, CheckEof, Rfu, DeafTime, ContinuousReceiveMode, MinLenForCrm,
    Type1TagRrdd, Rfca, GuardTime]

  lemma ParamsAre(param: Param, key: byte)
    ensures ParamIndex(param) == Some(key) <==> key as int < |PARAMS| == 20 && param == PARAMS[key]
    ensures ParamIndex(param) == None <==> param.Unknown?
  {
    assert key < 20 ==> PARAMS[key] == PARAMS[key as int];
  }

  // ------------------------------------------------------------------ when it succeeds

  /** Every entry is known to be in place. */
  predicate AllInPlace(protocol: Protocol, entries: seq<Entry>) {
    forall i | 0 <= i < |entries| ::
      entries[i].key < 20 && protocol[entries[i].key] == Some(entries[i].value)
  }

  /** A write succeeds if there is nothing to send, and else exactly if the answer to its one command is a success. */
  lemma WhenWritten(s: State, entries: seq<Entry>)
    ensures var done := WriteProtocol(s, entries);
            && (done.ok <==> AllInPlace(s.protocol, entries) || s.link.NextReply().Done?)
            && |done.state.link.sent| == |s.link.sent| + if AllInPlace(s.protocol, entries) then 0 else 1
  {
    PendingNothing(s.protocol, entries);
    hide Remember;
  }

  /** A change of mode succeeds exactly if its answer is a success, and then nothing is remembered. */
  lemma WhenChanged(s: State, command: Command)
    ensures var done := Disturb(s, command);
            && (done.ok <==> s.link.NextReply().Done?)
            && done.state.link.sent == s.link.sent + [command]
            && (done.ok ==> done.state.bitrate == None && forall k | 0 <= k < 20 :: done.state.protocol[k] == None)
            && (!done.ok ==> done.state.bitrate == s.bitrate && done.state.protocol == s.protocol)
  {
  }

  /** So is a change of speed, which then remembers the speed alone. */
  lemma WhenRfIsSet(s: State, send: string, recv: string)
    requires s.bitrate != Some((send, recv)) && Supported(send) && Supported(recv)
    ensures var done := SetInitiatorRf(s, send, recv);
            && (done.ok <==> s.link.NextReply().Done?)
            && (done.ok ==> done.state.bitrate == Some((send, recv))
                            && forall k | 0 <= k < 20 :: done.state.protocol[k] == None)
            && (!done.ok ==> done.state.bitrate == s.bitrate && done.state.protocol == s.protocol)
  {
    PairsAre(send, recv);
    hide PairSettings, Supported;
  }

  /** With successes ahead, a step succeeds and takes at most one of them. */
  ghost predicate Goes(s: State, done: Outcome) {
    done.ok && (done.state.link.replies == s.link.replies
                || (s.link.replies != [] && done.state.link.replies == s.link.replies[1..]))
  }

  lemma RfTakesOne(s: State, send: string, recv: string)
    requires s.link.NextReply().Done? && Supported(send) && Supported(recv)
    ensures Goes(s, SetInitiatorRf(s, send, recv))
  {
    PairsAre(send, recv);
    hide PairSettings, Supported;
  }

  lemma WriteTakesOne(s: State, entries: seq<Entry>)
    requires s.link.NextReply().Done?
    ensures Goes(s, WriteProtocol(s, entries))
  {
    hide Remember, Pending;
  }

  ghost predicate Successes(s: State, n: nat) {
    n <= |s.link.replies| && forall i | 0 <= i < n :: s.link.replies[i].Done?
  }

  lemma OneFewer(s: State, done: Outcome, n: nat)
    requires Successes(s, n + 1) && Goes(s, done)
    ensures Successes(done.state, n)
  {
    assert forall i | 0 <= i < n :: s.link.replies[1..][i] == s.link.replies[i + 1];
  }

  /** With three successes to come, preparing succeeds exactly for supported speeds. */
  lemma WhenPrepared(s: State, target: Target)
    requires Sound(s) && Successes(s, 3)
    ensures Prepare(s, target).ok <==> Supported(target.send) && Supported(target.recv)
  {
    if Supported(target.send) && Supported(target.recv) {
      RfTakesOne(s, target.send, target.recv);
      var rfSet := SetInitiatorRf(s, target.send, target.recv);
      OneFewer(s, rfSet, 2);
      WritesGo(rfSet.state, target);
      hide Supported, Sound, Target.Profile, SetInitiatorRf, WriteProtocol, IN_SET_PROTOCOL_DEFAULTS, Entries;
    } else {
      UnsupportedIsRefused(s, target);
    }
  }

  lemma WritesGo(s: State, target: Target)
    requires Successes(s, 2)
    ensures Entries(target.Profile()).Some?
    ensures var defaultsSet := WriteProtocol(s, IN_SET_PROTOCOL_DEFAULTS);
            defaultsSet.ok && WriteProtocol(defaultsSet.state, Entries(target.Profile()).value).ok
  {
    hide Target.Profile, WriteProtocol, IN_SET_PROTOCOL_DEFAULTS, Entries;
    WriteTakesOne(s, IN_SET_PROTOCOL_DEFAULTS);
    var defaultsSet := WriteProtocol(s, IN_SET_PROTOCOL_DEFAULTS);
    OneFewer(s, defaultsSet, 1);
    ProfileIs(target, 0);
    WriteTakesOne(defaultsSet.state, Entries(target.Profile()).value);
  }

  /** Naming an unknown parameter writes nothing; all else is written as its entries, in order. */
  lemma WhenConfigured(s: State, params: seq<(Param, byte)>)
    ensures if exists i :: 0 <= i < |params| && params[i].0.Unknown? then
              ConfigureInitiator(s, params) == Outcome(false, s)
            else
              exists entries: seq<Entry> ::
                && |entries| == |params|
                && (forall i | 0 <= i < |params| ::
                      ParamIndex(params[i].0) == Some(entries[i].key) && entries[i].value == params[i].1)
                && ConfigureInitiator(s, params) == WriteProtocol(s, entries)
  {
    hide WriteProtocol, ParamIndex;
    forall i | 0 <= i < |params|
      ensures ParamIndex(params[i].0).None? <==> params[i].0.Unknown?
    {
      ParamsAre(params[i].0, 0);
    }
    if i :| 0 <= i < |params| && params[i].0.Unknown? {
      UnknownName(params, i);
    } else {
      EntriesAre(params);
      var entries := Entries(params).value;
      hide Entries;
      assert |entries| == |params| && ConfigureInitiator(s, params) == WriteProtocol(s, entries);
    }
  }

  lemma {:induction false} UnknownName(params: seq<(Param, byte)>, i: nat)
    requires i < |params| && ParamIndex(params[i].0).None?
    ensures Entries(params) == None
    decreases |params|
  {
    hide ParamIndex;
    if i > 0 {
      UnknownName(params[1..], i - 1);
    }
  }

  // ------------------------------------------------------------------ what cards need

  /** A card at 106 kbit/s of Type A whose answer to being selected, if it is known, has bits 5 and 6 clear. */
  predicate IsPlainType2(target: Target) {
    target.send == "106A" && target.selRes.Some? && |target.selRes.value| > 0 && target.selRes.value[0] % 128 < 32
  }

  /** The value of every key an exchange runs with, for every card at a supported speed. */
  lemma CardsNeed(target: Target, key: byte)
    requires Supported(target.send)
    ensures Setting(target, key)
            == (if key == 0x00 then (if target.send[3] == 'B' then 20 else 0x18)
                else if key == 0x01 then 1
                else if key == 0x02 then (if IsPlainType2(target) then 0 else 1)
                else if key == 0x04 || key == 0x05 then (if target.send[3] == 'A' then 1 else 0)
                else if key == 0x07 then 8
                else if 0x09 <= key <= 0x0C then (if target.send[3] == 'B' then 1 else 0)
                else if key == 0x0E then 4
                else if key == 0x13 then 6
                else 0)
  {
    Type2Is(target);
  }

  lemma Type2Is(target: Target)
    ensures target.IsType2() <==> IsPlainType2(target)
  {
    if target.selRes.Some? && target.selRes.value != [] {
      var b := target.selRes.value[0];
      assert b / 32 % 4 == 0 <==> b % 128 < 32 by { assert b == 128 * (b / 128) + b % 128; }
    }
  }
}
