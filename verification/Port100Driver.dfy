/** The Port-100 driver's initiator settings, updated in place. */
module Port100Driver {
  import opened Bytes
  import opened Wrappers
  import opened Port100Cache

  /** The connection to the reader. */
  class Connection {
    var reader: Reader
    var replies: seq<Reply>
    var sent: seq<Command>

    constructor (reader: Reader, replies: seq<Reply>)
      ensures AsLink() == Link(reader, replies, [])
    {
      this.reader, this.replies, this.sent := reader, replies, [];
    }

    ghost function AsLink(): Link
      reads this
    {
      Link(reader, replies, sent)
    }

    /** Sends a command and reads its status. */
    method Send(command: Command) returns (ok: bool)
      modifies this
      ensures ok == old(AsLink().NextReply().Done?)
      ensures AsLink() == old(AsLink()).After(command)
    {
      sent := sent + [command];
      if replies == [] {
        return false;
      }
      var reply := replies[0];
      replies := replies[1..];
      match reply {
        case Done(reset) =>
          reader := Effect(reader, command, reset);
          ok := true;
        case Lost(reset) =>
          reader := Effect(reader, command, reset);
          ok := false;
        case Refused =>
          ok := false;
      }
    }
  }

  lemma NextPending(known: Protocol, entries: seq<Entry>, i: nat, payload: seq<Entry>)
    requires i < |entries|
    ensures payload + Pending(known, entries[i..])
            == (if InPlace(known, entries[i]) then payload else payload + [entries[i]])
               + Pending(known, entries[i + 1..])
  {
    assert entries[i..][1..] == entries[i + 1..];
    assert payload + ([entries[i]] + Pending(known, entries[i + 1..]))
           == payload + [entries[i]] + Pending(known, entries[i + 1..]);
  }

  /** The rest of the entries, if there are any to be had, behind the first. */
  function Behind(first: seq<Entry>, rest: Option<seq<Entry>>): (all: Option<seq<Entry>>)
    ensures first == [] ==> all == rest
  {
    if rest.None? then None
    else
      assert first == [] ==> first + rest.value == rest.value;
      Some(first + rest.value)
  }

  lemma NextEntry(first: seq<Entry>, params: seq<(Param, byte)>, i: nat)
    requires i < |params|
    ensures var key := ParamIndex(params[i].0);
            Behind(first, Entries(params[i..]))
            == if key.None? then None else Behind(first + [Entry(key.value, params[i].1)], Entries(params[i + 1..]))
  {
    assert params[i..][1..] == params[i + 1..];
    var key, rest := ParamIndex(params[i].0), Entries(params[i + 1..]);
    if key.Some? && rest.Some? {
      var entry := Entry(key.value, params[i].1);
      assert first + ([entry] + rest.value) == first + [entry] + rest.value;
    }
  }

  class Chipset {
    const connection: Connection
    var initiatorBitrate: Option<(string, string)>
    const initiatorProtocol: array<Option<byte>>

    ghost predicate Valid()
      reads this
    {
      initiatorProtocol.Length == INITIATOR_PROTOCOL_KEYS
    }

    ghost function State(): State
      requires Valid()
      reads this, connection, initiatorProtocol
    {
      Port100Cache.State(initiatorBitrate, initiatorProtocol[..], connection.AsLink())
    }

    constructor (connection: Connection)
      ensures Valid() && fresh(initiatorProtocol) && this.connection == connection
      ensures State() == Port100Cache.State(None, NothingKnown(), connection.AsLink())
    {
      this.connection := connection;
      initiatorBitrate := None;
      initiatorProtocol := new Option<byte>[INITIATOR_PROTOCOL_KEYS](i => None);
      new;
      assert initiatorProtocol[..] == NothingKnown();
    }

    /** Drops what is known, so that the next exchange establishes it again. */
    method ForgetInitiatorSettings()
      requires Valid()
      modifies this`initiatorBitrate, initiatorProtocol
      ensures State() == old(State()).Forgetful()
    {
      initiatorBitrate := None;
      forall i | 0 <= i < initiatorProtocol.Length {
        initiatorProtocol[i] := None;
      }
      assert initiatorProtocol[..] == NothingKnown();
    }

    /** A command that changes the mode: resetting, switching the RF, the command type, target mode. */
    method ChangeMode(command: Command) returns (ok: bool)
      requires Valid()
      modifies this`initiatorBitrate, initiatorProtocol, connection
      ensures Outcome(ok, State()) == Disturb(old(State()), command)
    {
      ok := connection.Send(command);
      if ok {
        ForgetInitiatorSettings();
      }
    }

    method SetInitiatorRf(bitrateSend: string, bitrateRecv: Option<string>) returns (ok: bool)
      requires Valid()
      modifies this`initiatorBitrate, initiatorProtocol, connection
      ensures var recv := if bitrateRecv.Some? then bitrateRecv.value else bitrateSend;
              Outcome(ok, State()) == Port100Cache.SetInitiatorRf(old(State()), bitrateSend, recv)
    {
      var recv := if bitrateRecv.Some? then bitrateRecv.value else bitrateSend;
      if initiatorBitrate == Some((bitrateSend, recv)) {
        return true;
      }
      var settings := PairSettings(bitrateSend, recv);
      if settings.None? {
        return false;
      }
      ok := connection.Send(InSetRf(settings.value));
      if ok {
        ForgetInitiatorSettings();
        initiatorBitrate := Some((bitrateSend, recv));
      }
    }

    /** Collects the entries not known to be in place. */
    method CollectPending(entries: seq<Entry>) returns (payload: seq<Entry>)
      requires Valid()
      ensures payload == Pending(State().protocol, entries)
    {
      payload := [];
      ghost var known := State().protocol;
      for i := 0 to |entries|
        invariant Pending(known, entries) == payload + Pending(known, entries[i..])
      {
        var entry := entries[i];
        NextPending(known, entries, i, payload);
        if entry.key < INITIATOR_PROTOCOL_KEYS && initiatorProtocol[entry.key] == Some(entry.value) {
          continue;
        }
        payload := payload + [entry];
      }
    }

    method RememberAll(payload: seq<Entry>)
      requires Valid()
      modifies initiatorProtocol
      ensures initiatorProtocol[..] == Remember(old(State()).protocol, payload)
    {
      for i := 0 to |payload|
        invariant Remember(old(State()).protocol, payload) == Remember(initiatorProtocol[..], payload[i..])
      {
        assert payload[i..][1..] == payload[i + 1..];
        var entry := payload[i];
        ghost var before := initiatorProtocol[..];
        if entry.key < INITIATOR_PROTOCOL_KEYS {
          initiatorProtocol[entry.key] := Some(entry.value);
          assert initiatorProtocol[..] == before[entry.key := Some(entry.value)];
        }
      }
    }

    method WriteInitiatorProtocol(entries: seq<Entry>) returns (ok: bool)
      requires Valid()
      modifies initiatorProtocol, connection
      ensures Outcome(ok, State()) == WriteProtocol(old(State()), entries)
    {
      var payload := CollectPending(entries);
      if payload == [] {
        return true;
      }
      ok := connection.Send(InSetProtocol(payload));
      if ok {
        RememberAll(payload);
      }
    }

    method ApplyInitiatorDefaults() returns (ok: bool)
      requires Valid()
      modifies initiatorProtocol, connection
      ensures Outcome(ok, State()) == WriteProtocol(old(State()), IN_SET_PROTOCOL_DEFAULTS)
    {
      ok := WriteInitiatorProtocol(IN_SET_PROTOCOL_DEFAULTS);
    }

    method ConfigureInitiator(params: seq<(Param, byte)>) returns (ok: bool)
      requires Valid()
      modifies initiatorProtocol, connection
      ensures Outcome(ok, State()) == Port100Cache.ConfigureInitiator(old(State()), params)
    {
      var entries: seq<Entry> := [];
      for i := 0 to |params|
        invariant State() == old(State())
        invariant Entries(params) == Behind(entries, Entries(params[i..]))
      {
        NextEntry(entries, params, i);
        var key := ParamIndex(params[i].0);
        if key.None? {
          assert Entries(params) == None;
          return false;
        }
        entries := entries + [Entry(key.value, params[i].1)];
      }
      assert entries + [] == entries;
      ok := WriteInitiatorProtocol(entries);
    }
  }

  class Device {
    const chipset: Chipset

    constructor (chipset: Chipset)
      ensures this.chipset == chipset
    {
      this.chipset := chipset;
    }

    method PrepareInitiatorExchange(target: Target) returns (ok: bool)
      requires chipset.Valid()
      modifies chipset`initiatorBitrate, chipset.initiatorProtocol, chipset.connection
      ensures Outcome(ok, chipset.State()) == Prepare(old(chipset.State()), target)
    {
      ok := chipset.SetInitiatorRf(target.send, Some(target.recv));
      if !ok {
        return;
      }
      ok := chipset.ApplyInitiatorDefaults();
      if !ok {
        return;
      }
      var params := target.Profile();
      if params != [] {
        ok := chipset.ConfigureInitiator(params);
      }
    }
  }
}
