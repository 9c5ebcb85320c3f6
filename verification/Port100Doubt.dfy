/**
 What the Port-100 driver's memory is still worth when answers are lost: which values
 are in doubt follows from the commands sent and their answers alone, and a successful
 change of mode or speed leaves nothing in doubt.
 */
module Port100Doubt {
  import opened Bytes
  import opened Wrappers
  import opened Port100Cache

  // -------------------------------------------------------------------- the doubt

  /** The keys whose remembered value need not be the reader's, and whether the speed is in doubt. */
  datatype Doubt = Doubt(keys: set<byte>, speed: bool)
  {
    /** A lost answer puts in doubt what the command changes; a command known to be carried out settles it. */
    function After(command: Command, reply: Reply): Doubt {
      match reply
      case Refused => this
      case Done(_) => if command.InSetProtocol? then this.(keys := keys - Keys(command.entries)) else NOTHING
      case Lost(_) => if command.InSetProtocol? then this.(keys := keys + Keys(command.entries)) else Everything()
    }
  }

  const NOTHING := Doubt({}, false)

  predicate IsRemembered(key: byte) { key < INITIATOR_PROTOCOL_KEYS }

  function Everything(): Doubt { Doubt(set key: byte | IsRemembered(key), true) }

  function Keys(entries: seq<Entry>): set<byte> { set i | 0 <= i < |entries| :: entries[i].key }

  function Next(replies: seq<Reply>): Reply { if replies == [] then Refused else replies[0] }

  function Later(replies: seq<Reply>, n: nat): seq<Reply> {
    if n <= |replies| then replies[n..] else []
  }

  /** The doubt once the commands were sent and answered. */
  function Doubts(doubt: Doubt, commands: seq<Command>, replies: seq<Reply>): Doubt
    decreases |commands|
  {
    if commands == [] then doubt
    else Doubts(doubt.After(commands[0], Next(replies)), commands[1..], Later(replies, 1))
  }

  /** Every remembered value that is not in doubt is the reader's. */
  ghost predicate TrueBut(s: State, doubt: Doubt) {
    && (forall key: byte | IsRemembered(key) && key !in doubt.keys && s.protocol[key].Some? ::
          s.link.reader.registers[key] == s.protocol[key].value)
    && (s.bitrate.Some? && !doubt.speed ==>
          var speeds := PairSettings(s.bitrate.value.0, s.bitrate.value.1);
          speeds.Some? && s.link.reader.rf == speeds)
  }

  lemma NoDoubt(s: State)
    ensures TrueBut(s, NOTHING) <==> Consistent(s)
  {
  }

  // ---------------------------------------------------------------- what runs send

  /** The state `t` comes from `s` by commands that leave this doubt. */
  ghost predicate Leads(s: State, doubt: Doubt, t: State) {
    && s.link.sent <= t.link.sent
    && t.link.replies == Later(s.link.replies, |t.link.sent| - |s.link.sent|)
    && TrueBut(t, DoubtIn(s, doubt, t))
  }

  /** The doubt the commands sent from `s` to `t` leave. */
  function DoubtIn(s: State, doubt: Doubt, t: State): Doubt
    requires s.link.sent <= t.link.sent
  {
    Doubts(doubt, t.link.sent[|s.link.sent|..], s.link.replies)
  }

  lemma {:induction false} DoubtsAppend(doubt: Doubt, a: seq<Command>, b: seq<Command>, replies: seq<Reply>)
    ensures Doubts(doubt, a + b, replies) == Doubts(Doubts(doubt, a, replies), b, Later(replies, |a|))
    decreases |a|
  {
    if a == [] {
      assert a + b == b;
    } else {
      assert (a + b)[1..] == a[1..] + b;
      assert Later(Later(replies, 1), |a| - 1) == Later(replies, |a|);
      DoubtsAppend(doubt.After(a[0], Next(replies)), a[1..], b, Later(replies, 1));
    }
  }

  lemma LeadsOn(s: State, doubt: Doubt, t: State, u: State)
    requires Leads(s, doubt, t) && Leads(t, DoubtIn(s, doubt, t), u)
    ensures Leads(s, doubt, u) && DoubtIn(s, doubt, u) == DoubtIn(t, DoubtIn(s, doubt, t), u)
  {
    hide TrueBut, Doubts;
    var a, b := t.link.sent[|s.link.sent|..], u.link.sent[|t.link.sent|..];
    assert u.link.sent[|s.link.sent|..] == a + b;
    DoubtsAppend(doubt, a, b, s.link.replies);
    assert Later(Later(s.link.replies, |a|), |b|) == Later(s.link.replies, |a| + |b|);
  }

  lemma Stays(s: State, doubt: Doubt)
    requires TrueBut(s, doubt)
    ensures Leads(s, doubt, s) && DoubtIn(s, doubt, s) == doubt
  {
    assert s.link.sent[|s.link.sent|..] == [];
  }

  /** One command sent. */
  lemma SendLeads(s: State, doubt: Doubt, command: Command, t: State)
    requires t.link == s.link.After(command) && TrueBut(t, doubt.After(command, s.link.NextReply()))
    ensures Leads(s, doubt, t)
    ensures DoubtIn(s, doubt, t) == doubt.After(command, s.link.NextReply())
  {
    hide TrueBut;
    var sent := t.link.sent[|s.link.sent|..];
    assert sent == [command] && sent[1..] == [];
    assert Next(s.link.replies) == s.link.NextReply();
    assert Doubts(doubt, sent, s.link.replies) == doubt.After(command, s.link.NextReply());
  }

  lemma WriteLeads(s: State, doubt: Doubt, entries: seq<Entry>)
    requires TrueBut(s, doubt)
    ensures Leads(s, doubt, WriteProtocol(s, entries).state)
  {
    var pending, t := Pending(s.protocol, entries), WriteProtocol(s, entries).state;
    if pending == [] {
      Stays(s, doubt);
    } else {
      forall key: byte | key < INITIATOR_PROTOCOL_KEYS
        ensures key !in Keys(pending) <==> Last(pending, key).None?
        ensures Overwrite(s.link.reader.registers, pending)[key]
                == if Last(pending, key).Some? then Last(pending, key).value else s.link.reader.registers[key]
        ensures Remember(s.protocol, pending)[key]
                == if Last(pending, key).Some? then Last(pending, key) else s.protocol[key]
      {
        LastOfOnly(pending, key, 0);
        OverwriteIsLast(s.link.reader.registers, pending, key);
        RememberIsLast(s.protocol, pending, key);
      }
      hide Overwrite, Remember, Last, Pending, PairSettings;
      SendLeads(s, doubt, InSetProtocol(pending), t);
    }
  }

  lemma SetRfLeads(s: State, doubt: Doubt, send: string, recv: string)
    requires TrueBut(s, doubt)
    ensures Leads(s, doubt, SetInitiatorRf(s, send, recv).state)
  {
    hide PairSettings;
    var t := SetInitiatorRf(s, send, recv).state;
    if t == s {
      Stays(s, doubt);
    } else {
      SendLeads(s, doubt, InSetRf(PairSettings(send, recv).value), t);
    }
  }

  lemma DisturbLeads(s: State, doubt: Doubt, command: Command)
    requires TrueBut(s, doubt) && Disturbing(command)
    ensures Leads(s, doubt, Disturb(s, command).state)
  {
    hide PairSettings;
    SendLeads(s, doubt, command, Disturb(s, command).state);
  }

  lemma PrepareLeads(s: State, doubt: Doubt, target: Target)
    requires TrueBut(s, doubt)
    ensures Leads(s, doubt, Prepare(s, target).state)
  {
    hide TrueBut, WriteProtocol, SetInitiatorRf, IN_SET_PROTOCOL_DEFAULTS, Doubts;
    var rfSet := SetInitiatorRf(s, target.send, target.recv);
    SetRfLeads(s, doubt, target.send, target.recv);
    if rfSet.ok {
      var doubtThen := DoubtIn(s, doubt, rfSet.state);
      var defaultsSet := WriteProtocol(rfSet.state, IN_SET_PROTOCOL_DEFAULTS);
      WriteLeads(rfSet.state, doubtThen, IN_SET_PROTOCOL_DEFAULTS);
      LeadsOn(s, doubt, rfSet.state, defaultsSet.state);
      var entries := Entries(target.Profile());
      if defaultsSet.ok && entries.Some? {
        WriteLeads(defaultsSet.state, DoubtIn(s, doubt, defaultsSet.state), entries.value);
        LeadsOn(s, doubt, defaultsSet.state, WriteProtocol(defaultsSet.state, entries.value).state);
      }
    }
  }

  lemma PerformLeads(s: State, doubt: Doubt, operation: Operation)
    requires TrueBut(s, doubt)
    ensures Leads(s, doubt, Perform(s, operation).state)
  {
    hide TrueBut, WriteProtocol, SetInitiatorRf, Prepare, Disturb, IN_SET_PROTOCOL_DEFAULTS, Leads;
    Stays(s, doubt);
    match operation
    case Exchange(target) => PrepareLeads(s, doubt, target);
    case SetRf(send, recv) => SetRfLeads(s, doubt, send, recv);
    case ApplyDefaults => WriteLeads(s, doubt, IN_SET_PROTOCOL_DEFAULTS);
    case Configure(params) =>
      if Entries(params).Some? {
        WriteLeads(s, doubt, Entries(params).value);
      }
    case ChangeMode(command) =>
      if Disturbing(command) {
        DisturbLeads(s, doubt, command);
      }
  }

  // ------------------------------------------------------------------- the theorems

  /**
   Over any run, whatever answers are lost: everything remembered is the reader's but for
   what the commands sent and their answers leave in doubt.
   */
  lemma {:induction false} RunLeads(s: State, doubt: Doubt, operations: seq<Operation>)
    requires TrueBut(s, doubt)
    ensures Leads(s, doubt, Run(s, operations))
    decreases |operations|
  {
    if operations == [] {
      Stays(s, doubt);
    } else {
      hide TrueBut, Leads, Perform;
      var t := Perform(s, operations[0]).state;
      PerformLeads(s, doubt, operations[0]);
      StillTrue(s, doubt, t);
      RunLeads(t, DoubtIn(s, doubt, t), operations[1..]);
      LeadsOn(s, doubt, t, Run(t, operations[1..]));
    }
  }

  lemma StillTrue(s: State, doubt: Doubt, t: State)
    requires Leads(s, doubt, t)
    ensures s.link.sent <= t.link.sent && TrueBut(t, DoubtIn(s, doubt, t))
  {
  }

  /** So from a new driver on, whatever its reader holds. */
  lemma NewDriverIsTrueBut(link: Link, operations: seq<Operation>)
    ensures var s := State(None, NothingKnown(), link);
            Leads(s, NOTHING, Run(s, operations))
  {
    hide Run, Leads;
    RunLeads(State(None, NothingKnown(), link), NOTHING, operations);
  }

  /** Without lost answers nothing is in doubt. */
  lemma {:induction false} HonestLeavesNoDoubt(commands: seq<Command>, replies: seq<Reply>)
    requires Honest(replies)
    ensures Doubts(NOTHING, commands, replies) == NOTHING
    decreases |commands|
  {
    if commands != [] {
      assert forall i | 0 <= i < |Later(replies, 1)| :: Later(replies, 1)[i] == replies[i + 1];
      assert NOTHING.After(commands[0], Next(replies)) == NOTHING;
      HonestLeavesNoDoubt(commands[1..], Later(replies, 1));
    }
  }

  /** The operation changes the mode, or a speed other than the known one. */
  predicate Renews(s: State, operation: Operation) {
    match operation
    case ChangeMode(command) => Disturbing(command)
    case SetRf(send, recv) => s.bitrate != Some((send, recv))
    case _ => false
  }

  /** From any state at all, a successful change of mode or speed leaves nothing false in memory. */
  lemma Recovers(s: State, operation: Operation)
    requires Renews(s, operation) && Perform(s, operation).ok
    ensures Consistent(Perform(s, operation).state)
  {
    hide PairSettings;
  }

  /**
   So over any run: after one such change, and without further lost answers, everything
   remembered is the reader's again, whatever was lost before.
   */
  lemma RunRecovers(s: State, before: seq<Operation>, operation: Operation, after: seq<Operation>)
    requires var t := Run(s, before);
             && Renews(t, operation) && Perform(t, operation).ok
             && Honest(Perform(t, operation).state.link.replies)
    ensures Consistent(Run(s, before + [operation] + after))
  {
    hide Perform, Consistent, Honest;
    var t := Run(s, before);
    Recovers(t, operation);
    RunAppend(s, before, [operation] + after);
    assert before + ([operation] + after) == before + [operation] + after;
    assert ([operation] + after)[1..] == after;
    RunIsSound(Perform(t, operation).state, after);
  }

  lemma {:induction false} RunAppend(s: State, a: seq<Operation>, b: seq<Operation>)
    ensures Run(s, a + b) == Run(Run(s, a), b)
    decreases |a|
  {
    if a == [] {
      assert a + b == b;
    } else {
      assert (a + b)[1..] == a[1..] + b;
      RunAppend(Perform(s, a[0]).state, a[1..], b);
    }
  }
}
