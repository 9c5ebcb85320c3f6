/**
 Writes to a purse block: sections 3.4.4 and 3.4.4.1 of the FeliCa Card User's
 Manual, Excerpted Edition, as the emulator applies them.

 A block holds the purse in D0-D3, the cashback data in D4-D7, user data in D8-D11
 and the execution ID in D12-D15. An ordinary purse counts in unsigned numbers, a
 limit purse in signed ones between two limits.
 */
module Purse {
  import opened Bytes
  import opened Wrappers
  import opened ServiceCodes

  const SF2_PURSE_RESULT_OUT_OF_RANGE: byte := 0x01
  const SF2_CASHBACK_EXCEEDS_STORED: byte := 0x02
  const SF2_LIMIT_PURSE_OUT_OF_RANGE: byte := 0x03
  const SF2_ACCESS_NOT_PERMITTED: byte := 0xA5

  const PURSE_MAX_UNSIGNED: int := 0xFFFF_FFFF

  type Block = b: seq<byte> | |b| == 16 witness seq(16, i => 0)
  type i32 = v: int | -0x8000_0000 <= v < 0x8000_0000

  datatype PurseOperation = Direct | Decrement | Cashback

  /** The limits of a limit purse; its generation number plays no part in a write. */
  datatype Limits = Limits(lower: i32, upper: i32)

  /** The operation a service attribute and an access mode select. */
  function Resolve(attribute: ServiceAttribute, accessMode: byte): Result<PurseOperation, byte> {
    match (attribute, accessMode)
    case (PurseDirect, 0) => Ok(Direct)
    case (PurseDecrement, 0) => Ok(Decrement)
    case (PurseCashback, 0) => Ok(Decrement)
    case (PurseCashback, 1) => Ok(Cashback)
    case _ => Err(SF2_ACCESS_NOT_PERMITTED)
  }

  // ------------------------------------------------------------------ four-byte values

  function ReadValue(bytes: seq<byte>, signed: bool): (v: int)
    requires |bytes| == 4
    ensures if signed then -0x8000_0000 <= v < 0x8000_0000 else 0 <= v <= PURSE_MAX_UNSIGNED
  {
    var raw := bytes[0] + 0x100 * (bytes[1] + 0x100 * (bytes[2] + 0x100 * bytes[3] as int));
    if signed && raw >= 0x8000_0000 then raw - 0x1_0000_0000 else raw
  }

  /** The four bytes a value is cast to, low byte first. */
  function ValueBytes(value: int): (bytes: seq<byte>)
    ensures |bytes| == 4
  {
    var raw := value % 0x1_0000_0000;
    [raw % 0x100, raw / 0x100 % 0x100, raw / 0x1_0000 % 0x100, raw / 0x100_0000]
  }

  /** A value survives its four bytes exactly when they can express it. */
  lemma ValueRoundTrip(value: int, signed: bool)
    ensures ReadValue(ValueBytes(value), signed) == value
            <==> if signed then -0x8000_0000 <= value < 0x8000_0000 else 0 <= value <= PURSE_MAX_UNSIGNED
  {
    var raw := value % 0x1_0000_0000;
    var b0, b1, b2, b3 := raw % 0x100, raw / 0x100 % 0x100, raw / 0x1_0000 % 0x100, raw / 0x100_0000;
    assert raw / 0x100 == b1 + 0x100 * (raw / 0x1_0000);
    assert raw / 0x1_0000 == b2 + 0x100 * b3;
    assert raw == b0 + 0x100 * (raw / 0x100);
    assert ReadValue(ValueBytes(value), false) == raw;
  }

  // --------------------------------------------------------------- what a write does

  function PurseOf(block: Block, limit: Option<Limits>): int { ReadValue(block[0..4], limit.Some?) }
  function CashbackOf(block: Block, limit: Option<Limits>): int { ReadValue(block[4..8], limit.Some?) }
  function UserData(block: Block): seq<byte> { block[8..12] }
  function ExecutionId(block: Block): seq<byte> { block[12..16] }

  /** The value a decrement or cashback command carries. */
  function AmountOf(command: Block, limit: Option<Limits>): int { PurseOf(command, limit) }

  function Floor(limit: Option<Limits>): int { if limit.Some? then limit.value.lower else 0 }
  function Ceiling(limit: Option<Limits>): int { if limit.Some? then limit.value.upper else PURSE_MAX_UNSIGNED }

  function OutOfRange(limit: Option<Limits>): byte {
    if limit.Some? then SF2_LIMIT_PURSE_OUT_OF_RANGE else SF2_PURSE_RESULT_OUT_OF_RANGE
  }

  /** A block made of a new purse, new cashback data, kept user data and the command's execution ID. */
  function Updated(purse: int, cashback: int, stored: Block, command: Block): Block {
    ValueBytes(purse) + ValueBytes(cashback) + UserData(stored) + ExecutionId(command)
  }

  /** The block to store, none when the write is a repeat, or the status flag of a refusal. */
  function Write(stored: Block, command: Block, operation: PurseOperation, limit: Option<Limits>)
    : Result<Option<Block>, byte>
  {
    var purse, cashback, amount := PurseOf(stored, limit), CashbackOf(stored, limit), AmountOf(command, limit);
    if !operation.Direct? && ExecutionId(command) == ExecutionId(stored) then Ok(None)
    else
      match operation
      case Direct =>
        if amount > purse || CashbackOf(command, limit) > cashback then Err(SF2_ACCESS_NOT_PERMITTED)
        else if purse + CashbackOf(command, limit) > PURSE_MAX_UNSIGNED then Err(SF2_ACCESS_NOT_PERMITTED)
        else if amount < Floor(limit) || amount > Ceiling(limit) then Err(OutOfRange(limit))
        else Ok(Some(command))
      case Decrement =>
        if purse - amount < Floor(limit) || purse - amount > Ceiling(limit) then Err(OutOfRange(limit))
        else Ok(Some(Updated(purse - amount, amount, stored, command)))
      case Cashback =>
        if amount > cashback then Err(SF2_CASHBACK_EXCEEDS_STORED)
        else if purse + amount > Ceiling(limit) || purse + amount < Floor(limit) then Err(OutOfRange(limit))
        else Ok(Some(Updated(purse + amount, 0, stored, command)))
  }

  // -------------------------------------------------------------- the write in place

  method WriteValue(target: array<byte>, at: nat, value: int)
    requires at + 4 <= target.Length
    modifies target
    ensures target[..] == old(target[..at]) + ValueBytes(value) + old(target[at + 4..])
  {
    var raw := ValueBytes(value);
    forall i | 0 <= i < 4 {
      target[at + i] := raw[i];
    }
    assert target[..] == target[..at] + target[at..at + 4] + target[at + 4..];
    assert target[at..at + 4] == raw;
  }

  method ApplyPurseWrite(stored: Block, command: Block, operation: PurseOperation, limit: Option<Limits>)
    returns (result: Result<Option<Block>, byte>)
    ensures result == Write(stored, command, operation, limit)
  {
    hide ReadValue, ValueBytes, Updated;
    var signed := limit.Some?;
    var floor, ceiling := Floor(limit), Ceiling(limit);
    var outOfRange := OutOfRange(limit);
    if operation != Direct && command[12..16] == stored[12..16] {
      return Ok(None);
    }
    var storedPurse := ReadValue(stored[0..4], signed);
    var storedCashback := ReadValue(stored[4..8], signed);
    var updated := new byte[16](i requires 0 <= i < 16 => command[i]);
    assert updated[..] == command;
    match operation {
      case Direct =>
        var newPurse := ReadValue(command[0..4], signed);
        var newCashback := ReadValue(command[4..8], signed);
        if newPurse > storedPurse || newCashback > storedCashback {
          return Err(SF2_ACCESS_NOT_PERMITTED);
        }
        if storedPurse + newCashback > PURSE_MAX_UNSIGNED {
          return Err(SF2_ACCESS_NOT_PERMITTED);
        }
        if newPurse < floor || newPurse > ceiling {
          return Err(outOfRange);
        }
      case Decrement =>
        var amount := ReadValue(command[0..4], signed);
        var difference := storedPurse - amount;
        if difference < floor {
          return Err(outOfRange);
        }
        if difference > ceiling {
          return Err(outOfRange);
        }
        Overwrite(updated, command, difference, amount, stored);
      case Cashback =>
        var amount := ReadValue(command[0..4], signed);
        if amount > storedCashback {
          return Err(SF2_CASHBACK_EXCEEDS_STORED);
        }
        var sum := storedPurse + amount;
        if sum > ceiling {
          return Err(outOfRange);
        }
        if sum < floor {
          return Err(outOfRange);
        }
        Overwrite(updated, command, sum, 0, stored);
    }
    result := Ok(Some(updated[..]));
  }

  /** Writes the two values and the kept user data over a copy of the command. */
  method Overwrite(block: array<byte>, ghost command: Block, purse: int, cashback: int, stored: Block)
    requires block.Length == 16 && block[..] == command
    modifies block
    ensures block[..] == Updated(purse, cashback, stored, command)
  {
    WriteValue(block, 0, purse);
    WriteValue(block, 4, cashback);
    ghost var values := ValueBytes(purse) + ValueBytes(cashback);
    assert block[..8] == values && block[8..] == command[8..];
    forall i | 8 <= i < 12 {
      block[i] := stored[i];
    }
    assert block[..8] == values && block[8..12] == stored[8..12] && block[12..] == command[12..];
    assert block[..] == block[..8] + block[8..12] + block[12..];
  }

  // -------------------------------------------------------------------- one write

  /** The fields of an updated block read back as the numbers that were written. */
  lemma UpdatedFields(purse: int, cashback: int, stored: Block, command: Block, limit: Option<Limits>)
    requires Floor(limit) <= purse <= Ceiling(limit)
    requires cashback == 0 || cashback == AmountOf(command, limit)
    ensures var block := Updated(purse, cashback, stored, command);
            && PurseOf(block, limit) == purse && CashbackOf(block, limit) == cashback
            && UserData(block) == UserData(stored) && ExecutionId(block) == ExecutionId(command)
  {
    var block := Updated(purse, cashback, stored, command);
    ValueRoundTrip(purse, limit.Some?);
    ValueRoundTrip(cashback, limit.Some?);
    assert block[0..4] == ValueBytes(purse) && block[4..8] == ValueBytes(cashback);
  }

  /** What a successful update leaves in the block, per operation. */
  lemma UpdateEffect(stored: Block, command: Block, operation: PurseOperation, limit: Option<Limits>)
    requires Write(stored, command, operation, limit).Ok? && Write(stored, command, operation, limit).value.Some?
    ensures var block := Write(stored, command, operation, limit).value.value;
            var amount := AmountOf(command, limit);
            && Floor(limit) <= PurseOf(block, limit) <= Ceiling(limit)
            && ExecutionId(block) == ExecutionId(command)
            && match operation
               case Direct =>
                 block == command && PurseOf(block, limit) <= PurseOf(stored, limit)
                 && CashbackOf(block, limit) <= CashbackOf(stored, limit)
               case Decrement =>
                 PurseOf(block, limit) == PurseOf(stored, limit) - amount
                 && CashbackOf(block, limit) == amount && UserData(block) == UserData(stored)
               case Cashback =>
                 PurseOf(block, limit) == PurseOf(stored, limit) + amount && amount <= CashbackOf(stored, limit)
                 && CashbackOf(block, limit) == 0 && UserData(block) == UserData(stored)
  {
    hide ReadValue, ValueBytes, Updated;
    var purse, amount := PurseOf(stored, limit), AmountOf(command, limit);
    match operation
    case Direct =>
    case Decrement => UpdatedFields(purse - amount, amount, stored, command, limit);
    case Cashback => UpdatedFields(purse + amount, 0, stored, command, limit);
  }

  /** Every update of a limit purse reads back between its limits. */
  lemma LimitsAreKept(stored: Block, command: Block, operation: PurseOperation, limits: Limits)
    requires var result := Write(stored, command, operation, Some(limits)); result.Ok? && result.value.Some?
    ensures var block := Write(stored, command, operation, Some(limits)).value.value;
            limits.lower <= PurseOf(block, Some(limits)) <= limits.upper
  {
    UpdateEffect(stored, command, operation, Some(limits));
  }

  // ----------------------------------------------------------------- at most once

  /** The stored block after a write, refused and repeated writes leaving it alone. */
  function After(stored: Block, command: Block, operation: PurseOperation, limit: Option<Limits>): Block {
    match Write(stored, command, operation, limit)
    case Ok(Some(block)) => block
    case _ => stored
  }

  function AfterTimes(n: nat, stored: Block, command: Block, operation: PurseOperation, limit: Option<Limits>): Block {
    if n == 0 then stored else AfterTimes(n - 1, After(stored, command, operation, limit), command, operation, limit)
  }

  /** A second copy of a command finds the block the first one left and changes nothing. */
  lemma SecondWriteChangesNothing(stored: Block, command: Block, operation: PurseOperation, limit: Option<Limits>)
    ensures var once := After(stored, command, operation, limit);
            After(once, command, operation, limit) == once
  {
    var result := Write(stored, command, operation, limit);
    if result.Ok? && result.value.Some? {
      UpdateEffect(stored, command, operation, limit);
    }
  }

  /** A command sent any number of times has the effect of sending it once. */
  lemma {:induction false} AtMostOnce(n: nat, stored: Block, command: Block, operation: PurseOperation,
                                      limit: Option<Limits>)
    requires n > 0
    ensures AfterTimes(n, stored, command, operation, limit) == After(stored, command, operation, limit)
    decreases n
  {
    var once := After(stored, command, operation, limit);
    if n > 1 {
      AtMostOnce(n - 1, once, command, operation, limit);
      SecondWriteChangesNothing(stored, command, operation, limit);
    }
  }

  // -------------------------------------------------------------------- whole runs

  datatype Command = Command(block: Block, operation: PurseOperation)

  function RunWrites(stored: Block, commands: seq<Command>, limit: Option<Limits>): Block
    decreases |commands|
  {
    if commands == [] then stored
    else RunWrites(After(stored, commands[0].block, commands[0].operation, limit), commands[1..], limit)
  }

  /** What the executed writes of a run took, gave back and directly reduced. */
  datatype Totals = Totals(decremented: int, cashedBack: int, reduced: int)
  {
    function Plus(other: Totals): Totals {
      Totals(decremented + other.decremented, cashedBack + other.cashedBack, reduced + other.reduced)
    }
  }

  function Effect(stored: Block, command: Command, limit: Option<Limits>): Totals {
    match Write(stored, command.block, command.operation, limit)
    case Ok(Some(block)) =>
      var amount := AmountOf(command.block, limit);
      (match command.operation
       case Direct => Totals(0, 0, PurseOf(stored, limit) - amount)
       case Decrement => Totals(amount, 0, 0)
       case Cashback => Totals(0, amount, 0))
    case _ => Totals(0, 0, 0)
  }

  function RunTotals(stored: Block, commands: seq<Command>, limit: Option<Limits>): Totals
    decreases |commands|
  {
    if commands == [] then Totals(0, 0, 0)
    else
      Effect(stored, commands[0], limit)
      .Plus(RunTotals(After(stored, commands[0].block, commands[0].operation, limit), commands[1..], limit))
  }

  /** Conservation: the purse moves by exactly what the executed writes moved. */
  lemma {:induction false} PurseIsConserved(stored: Block, commands: seq<Command>, limit: Option<Limits>)
    ensures var totals := RunTotals(stored, commands, limit);
            PurseOf(RunWrites(stored, commands, limit), limit)
            == PurseOf(stored, limit) - totals.decremented + totals.cashedBack - totals.reduced
    ensures RunTotals(stored, commands, limit).reduced >= 0
    decreases |commands|
  {
    if commands != [] {
      StepMovesPurse(stored, commands[0], limit);
      PurseIsConserved(After(stored, commands[0].block, commands[0].operation, limit), commands[1..], limit);
    }
  }

  lemma StepMovesPurse(stored: Block, command: Command, limit: Option<Limits>)
    ensures var moved := Effect(stored, command, limit);
            PurseOf(After(stored, command.block, command.operation, limit), limit)
            == PurseOf(stored, limit) - moved.decremented + moved.cashedBack - moved.reduced
    ensures Effect(stored, command, limit).reduced >= 0
  {
    var result := Write(stored, command.block, command.operation, limit);
    if result.Ok? && result.value.Some? {
      UpdateEffect(stored, command.block, command.operation, limit);
    }
  }

  function Total(block: Block, limit: Option<Limits>): int {
    PurseOf(block, limit) + CashbackOf(block, limit)
  }

  /** A decrement that is executed over negative cashback data, which only a limit purse can hold. */
  predicate DecrementsOverNegative(stored: Block, command: Command, limit: Option<Limits>) {
    && command.operation.Decrement? && CashbackOf(stored, limit) < 0
    && ExecutionId(command.block) != ExecutionId(stored)
    && Floor(limit) <= PurseOf(stored, limit) - AmountOf(command.block, limit) <= Ceiling(limit)
  }

  /** What a write does to purse and cashback data, whether or not it is executed. */
  lemma StepOf(stored: Block, command: Command, limit: Option<Limits>)
    ensures var next, moved := After(stored, command.block, command.operation, limit), Effect(stored, command, limit);
            if DecrementsOverNegative(stored, command, limit) then
              && Total(next, limit) == PurseOf(stored, limit) && moved.cashedBack == 0
              && CashbackOf(next, limit) == moved.decremented
            else
              && Total(next, limit) <= Total(stored, limit)
              && moved.cashedBack + CashbackOf(next, limit) <= CashbackOf(stored, limit) + moved.decremented
  {
    var result := Write(stored, command.block, command.operation, limit);
    if result.Ok? && result.value.Some? {
      UpdateEffect(stored, command.block, command.operation, limit);
    }
  }

  /** Purse and cashback data together grow in exactly these writes. */
  lemma WhenTotalGrows(stored: Block, command: Command, limit: Option<Limits>)
    ensures Total(After(stored, command.block, command.operation, limit), limit) > Total(stored, limit)
            <==> DecrementsOverNegative(stored, command, limit)
  {
    hide Write, After, Effect, PurseOf, CashbackOf, AmountOf, Floor, Ceiling;
    StepOf(stored, command, limit);
  }

  /** And exactly these let more be cashed back than was there and was taken. */
  lemma WhenMoreIsCashedBack(stored: Block, command: Command, limit: Option<Limits>)
    ensures var next, moved := After(stored, command.block, command.operation, limit), Effect(stored, command, limit);
            moved.cashedBack + CashbackOf(next, limit) > CashbackOf(stored, limit) + moved.decremented
            <==> DecrementsOverNegative(stored, command, limit)
  {
    hide Write, After, Effect, PurseOf, CashbackOf, AmountOf, Floor, Ceiling;
    StepOf(stored, command, limit);
  }

  /** No write of the run decrements over negative cashback data. */
  predicate NeverOverNegative(stored: Block, commands: seq<Command>, limit: Option<Limits>)
    decreases |commands|
  {
    commands == [] ||
    (&& !DecrementsOverNegative(stored, commands[0], limit)
     && NeverOverNegative(After(stored, commands[0].block, commands[0].operation, limit), commands[1..], limit))
  }

  /**
   No money from nothing, on any purse: over a run that never decrements over negative
   cashback data the purse and the cashback data together never grow, and no more is
   cashed back than was there to begin with plus what was taken.
   */
  lemma {:induction false} RunCreatesNothing(stored: Block, commands: seq<Command>, limit: Option<Limits>)
    requires NeverOverNegative(stored, commands, limit)
    ensures var end, totals := RunWrites(stored, commands, limit), RunTotals(stored, commands, limit);
            && Total(end, limit) <= Total(stored, limit)
            && totals.cashedBack + CashbackOf(end, limit) <= CashbackOf(stored, limit) + totals.decremented
    decreases |commands|
  {
    hide Write, After, Effect, PurseOf, CashbackOf, AmountOf, Floor, Ceiling, DecrementsOverNegative, Total;
    if commands != [] {
      StepOf(stored, commands[0], limit);
      RunCreatesNothing(After(stored, commands[0].block, commands[0].operation, limit), commands[1..], limit);
    }
  }

  /** A write that leaves no negative cashback data behind: each one to an ordinary purse. */
  predicate NeverNegative(command: Command, limit: Option<Limits>) {
    limit.Some? ==>
      match command.operation
      case Direct => CashbackOf(command.block, limit) >= 0
      case Decrement => AmountOf(command.block, limit) >= 0
      case Cashback => true
  }

  lemma StaysNonNegative(stored: Block, command: Command, limit: Option<Limits>)
    requires CashbackOf(stored, limit) >= 0 && NeverNegative(command, limit)
    ensures CashbackOf(After(stored, command.block, command.operation, limit), limit) >= 0
    ensures !DecrementsOverNegative(stored, command, limit)
  {
    var result := Write(stored, command.block, command.operation, limit);
    if result.Ok? && result.value.Some? {
      UpdateEffect(stored, command.block, command.operation, limit);
    }
  }

  /** Every run on an ordinary purse qualifies; one on a limit purse does without negative cashback data. */
  lemma {:induction false} NothingIsCreated(stored: Block, commands: seq<Command>, limit: Option<Limits>)
    requires CashbackOf(stored, limit) >= 0
    requires forall i | 0 <= i < |commands| :: NeverNegative(commands[i], limit)
    ensures var end := RunWrites(stored, commands, limit);
            var totals := RunTotals(stored, commands, limit);
            && Total(end, limit) <= Total(stored, limit) && CashbackOf(end, limit) >= 0
            && totals.cashedBack + CashbackOf(end, limit) <= CashbackOf(stored, limit) + totals.decremented
    decreases |commands|
  {
    hide Write, After, Effect, PurseOf, CashbackOf, AmountOf, Floor, Ceiling, DecrementsOverNegative, NeverNegative,
         Total;
    if commands != [] {
      StaysNonNegative(stored, commands[0], limit);
      StepOf(stored, commands[0], limit);
      NothingIsCreated(After(stored, commands[0].block, commands[0].operation, limit), commands[1..], limit);
    }
  }

  /** On an ordinary purse no run of writes creates value, without further condition. */
  lemma OrdinaryPurseCreatesNothing(stored: Block, commands: seq<Command>)
    ensures var end, totals := RunWrites(stored, commands, None), RunTotals(stored, commands, None);
            && Total(end, None) <= Total(stored, None)
            && totals.cashedBack <= CashbackOf(stored, None) + totals.decremented
  {
    NothingIsCreated(stored, commands, None);
  }

  // ---------------------------------------------------------------- access to a purse

  /** A write through a service of an attribute, in an access mode. */
  datatype Access = Access(attribute: ServiceAttribute, mode: byte, block: Block)

  /** The block after an access; one that resolves to no operation is refused. */
  function AfterAccess(stored: Block, access: Access, limit: Option<Limits>): Block {
    match Resolve(access.attribute, access.mode)
    case Err(_) => stored
    case Ok(operation) => After(stored, access.block, operation, limit)
  }

  function AfterAccesses(stored: Block, accesses: seq<Access>, limit: Option<Limits>): Block
    decreases |accesses|
  {
    if accesses == [] then stored else AfterAccesses(AfterAccess(stored, accesses[0], limit), accesses[1..], limit)
  }

  /** An ordinary purse rises in one access exactly if that cashes back, through a cashback service. */
  lemma WhenPurseRises(stored: Block, access: Access)
    ensures PurseOf(AfterAccess(stored, access, None), None) > PurseOf(stored, None)
            <==> && access.attribute.PurseCashback? && access.mode == 1
                 && ExecutionId(access.block) != ExecutionId(stored)
                 && 0 < AmountOf(access.block, None) <= CashbackOf(stored, None)
                 && PurseOf(stored, None) + AmountOf(access.block, None) <= PURSE_MAX_UNSIGNED
  {
    var operation := Resolve(access.attribute, access.mode);
    if operation.Ok? {
      var result := Write(stored, access.block, operation.value, None);
      if result.Ok? && result.value.Some? {
        UpdateEffect(stored, access.block, operation.value, None);
      }
    }
  }

  /** So no run of other accesses ever raises it. */
  lemma {:induction false} OthersNeverRaise(stored: Block, accesses: seq<Access>)
    requires forall i | 0 <= i < |accesses| :: !(accesses[i].attribute.PurseCashback? && accesses[i].mode == 1)
    ensures PurseOf(AfterAccesses(stored, accesses, None), None) <= PurseOf(stored, None)
    decreases |accesses|
  {
    if accesses != [] {
      WhenPurseRises(stored, accesses[0]);
      OthersNeverRaise(AfterAccess(stored, accesses[0], None), accesses[1..]);
    }
  }

  // ------------------------------------------------------------------------ an example

  function ExampleBlock(purse: int, id: byte): Block {
    ValueBytes(purse) + ValueBytes(0) + [0, 0, 0, 0] + [0, 0, 0, id]
  }

  lemma ExampleFields(purse: int, id: byte, limit: Option<Limits>)
    requires limit.Some? && -0x8000_0000 <= purse < 0x8000_0000
    ensures var block := ExampleBlock(purse, id);
            PurseOf(block, limit) == purse && CashbackOf(block, limit) == 0 && ExecutionId(block) == [0, 0, 0, id]
  {
    var block := ExampleBlock(purse, id);
    ValueRoundTrip(purse, true);
    ValueRoundTrip(0, true);
    assert block[0..4] == ValueBytes(purse) && block[4..8] == ValueBytes(0) && block[12..16] == [0, 0, 0, id];
  }

  /**
   Without that condition a limit purse can grow: decrementing -5 and then 0 leaves 5
   in a purse that started empty, with nothing to cash back.
   */
  lemma LimitPurseCanGrow(limit: Option<Limits>)
    requires limit == Some(Limits(-100, 100))
    ensures var stored := ExampleBlock(0, 0);
            var run := [Command(ExampleBlock(-5, 1), Decrement), Command(ExampleBlock(0, 2), Decrement)];
            Total(stored, limit) == 0 && Total(RunWrites(stored, run, limit), limit) == 5
  {
    var stored, first, second := ExampleBlock(0, 0), ExampleBlock(-5, 1), ExampleBlock(0, 2);
    ExampleFields(0, 0, limit);
    ExampleFields(-5, 1, limit);
    ExampleFields(0, 2, limit);
    UpdateEffect(stored, first, Decrement, limit);
    var middle := After(stored, first, Decrement, limit);
    UpdateEffect(middle, second, Decrement, limit);
    var run := [Command(first, Decrement), Command(second, Decrement)];
    assert run[1..] == [Command(second, Decrement)] && run[1..][1..] == [];
  }
}
