/**
 When a purse write stores a block, is taken for a repeat, or is refused, and with which
 status flag 2: for every purse, command, operation and limits, by the numbers in the
 blocks; and for every access, by the attribute of its service and its mode.
 */
module PurseOutcome {
  import opened Bytes
  import opened Wrappers
  import opened ServiceCodes
  import opened Purse

  // -------------------------------------------------------------- where the fields are

  /** Four bytes as an unsigned number, low byte first. */
  function Unsigned(b0: byte, b1: byte, b2: byte, b3: byte): int {
    b0 + 0x100 * b1 as int + 0x1_0000 * b2 as int + 0x100_0000 * b3 as int
  }

  /** The same in two's complement. */
  function Signed(b0: byte, b1: byte, b2: byte, b3: byte): int {
    Unsigned(b0, b1, b2, b3) - if b3 >= 0x80 then 0x1_0000_0000 else 0
  }

  /** The purse stands in bytes 0 to 3, the cashback data in 4 to 7, user data and execution ID behind. */
  lemma FieldsAre(block: Block, limits: Limits)
    ensures PurseOf(block, None) == Unsigned(block[0], block[1], block[2], block[3])
    ensures PurseOf(block, Some(limits)) == Signed(block[0], block[1], block[2], block[3])
    ensures CashbackOf(block, None) == Unsigned(block[4], block[5], block[6], block[7])
    ensures CashbackOf(block, Some(limits)) == Signed(block[4], block[5], block[6], block[7])
    ensures UserData(block) == [block[8], block[9], block[10], block[11]]
    ensures ExecutionId(block) == [block[12], block[13], block[14], block[15]]
  {
    assert block[0..4] == [block[0], block[1], block[2], block[3]];
    assert block[4..8] == [block[4], block[5], block[6], block[7]];
    FourBytes(block[0], block[1], block[2], block[3]);
    FourBytes(block[4], block[5], block[6], block[7]);
  }

  lemma FourBytes(b0: byte, b1: byte, b2: byte, b3: byte)
    ensures ReadValue([b0, b1, b2, b3], false) == Unsigned(b0, b1, b2, b3)
    ensures ReadValue([b0, b1, b2, b3], true) == Signed(b0, b1, b2, b3)
  {
  }

  // ---------------------------------------------------------------- when what happens

  predicate Stores(result: Result<Option<Block>, byte>) { result.Ok? && result.value.Some? }

  predicate Repeats(result: Result<Option<Block>, byte>) { result == Ok(None) }

  predicate Refuses(result: Result<Option<Block>, byte>, flag: byte) { result == Err(flag) }

  lemma DecrementOnOrdinary(stored: Block, command: Block)
    ensures var result := Write(stored, command, Decrement, None);
            var purse, amount := PurseOf(stored, None), PurseOf(command, None);
            var repeated := ExecutionId(command) == ExecutionId(stored);
            && (Repeats(result) <==> repeated)
            && (Stores(result) <==> !repeated && amount <= purse)
            && (Refuses(result, 0x01) <==> !repeated && amount > purse)
  {
  }

  lemma DecrementOnLimit(stored: Block, command: Block, limits: Limits)
    ensures var result := Write(stored, command, Decrement, Some(limits));
            var left := PurseOf(stored, Some(limits)) - PurseOf(command, Some(limits));
            var repeated := ExecutionId(command) == ExecutionId(stored);
            && (Repeats(result) <==> repeated)
            && (Stores(result) <==> !repeated && limits.lower <= left <= limits.upper)
            && (Refuses(result, 0x03) <==> !repeated && (left < limits.lower || left > limits.upper))
  {
  }

  lemma CashbackOnOrdinary(stored: Block, command: Block)
    ensures var result := Write(stored, command, Cashback, None);
            var purse, cashback, amount := PurseOf(stored, None), CashbackOf(stored, None), PurseOf(command, None);
            var repeated := ExecutionId(command) == ExecutionId(stored);
            && (Repeats(result) <==> repeated)
            && (Stores(result) <==> !repeated && amount <= cashback && purse + amount < 0x1_0000_0000)
            && (Refuses(result, 0x02) <==> !repeated && amount > cashback)
            && (Refuses(result, 0x01) <==> !repeated && amount <= cashback && purse + amount >= 0x1_0000_0000)
  {
  }

  lemma CashbackOnLimit(stored: Block, command: Block, limits: Limits)
    ensures var limit := Some(limits);
            var result := Write(stored, command, Cashback, limit);
            var cashback, amount := CashbackOf(stored, limit), PurseOf(command, limit);
            var sum := PurseOf(stored, limit) + amount;
            var repeated := ExecutionId(command) == ExecutionId(stored);
            && (Repeats(result) <==> repeated)
            && (Stores(result) <==> !repeated && amount <= cashback && limits.lower <= sum <= limits.upper)
            && (Refuses(result, 0x02) <==> !repeated && amount > cashback)
            && (Refuses(result, 0x03)
                <==> !repeated && amount <= cashback && (sum < limits.lower || sum > limits.upper))
  {
  }

  /** Direct access never counts as a repeat, and never takes an ordinary purse out of range. */
  lemma DirectOnOrdinary(stored: Block, command: Block)
    ensures var result := Write(stored, command, Direct, None);
            var purse, cashback := PurseOf(stored, None), CashbackOf(stored, None);
            var newPurse, newCashback := PurseOf(command, None), CashbackOf(command, None);
            && (Stores(result)
                <==> newPurse <= purse && newCashback <= cashback && purse + newCashback < 0x1_0000_0000)
            && (Refuses(result, 0xA5)
                <==> newPurse > purse || newCashback > cashback || purse + newCashback >= 0x1_0000_0000)
  {
  }

  /** On a limit purse, stored purse and new cashback data cannot overflow four bytes. */
  lemma DirectOnLimit(stored: Block, command: Block, limits: Limits)
    ensures var limit := Some(limits);
            var result := Write(stored, command, Direct, limit);
            var newPurse := PurseOf(command, limit);
            var grows := newPurse > PurseOf(stored, limit) || CashbackOf(command, limit) > CashbackOf(stored, limit);
            && (Stores(result) <==> !grows && limits.lower <= newPurse <= limits.upper)
            && (Refuses(result, 0xA5) <==> grows)
            && (Refuses(result, 0x03) <==> !grows && (newPurse < limits.lower || newPurse > limits.upper))
  {
  }

  // --------------------------------------------------------- what is stored, by its bytes

  /** What a stored block holds, field by field. */
  lemma StoredFields(stored: Block, command: Block, operation: PurseOperation, limit: Option<Limits>)
    requires Stores(Write(stored, command, operation, limit))
    ensures var block := Write(stored, command, operation, limit).value.value;
            && ExecutionId(block) == ExecutionId(command)
            && match operation
               case Direct => block == command
               case Decrement =>
                 && PurseOf(block, limit) == PurseOf(stored, limit) - PurseOf(command, limit)
                 && block[4..8] == command[0..4] && UserData(block) == UserData(stored)
               case Cashback =>
                 && PurseOf(block, limit) == PurseOf(stored, limit) + PurseOf(command, limit)
                 && block[4..8] == [0, 0, 0, 0] && UserData(block) == UserData(stored)
  {
    hide ReadValue, ValueBytes, Updated, Write;
    UpdateEffect(stored, command, operation, limit);
    var block := Write(stored, command, operation, limit).value.value;
    if operation.Decrement? {
      SameValue(block[4..8], command[0..4], limit.Some?);
    } else if operation.Cashback? {
      NoValue(block[4..8], limit.Some?);
    }
  }

  lemma NoValue(bytes: seq<byte>, signed: bool)
    requires |bytes| == 4 && ReadValue(bytes, signed) == 0
    ensures bytes == [0, 0, 0, 0]
  {
    assert bytes == [bytes[0], bytes[1], bytes[2], bytes[3]];
    FourBytes(bytes[0], bytes[1], bytes[2], bytes[3]);
  }

  /** Four bytes are told by the number they say. */
  lemma SameValue(a: seq<byte>, b: seq<byte>, signed: bool)
    requires |a| == 4 && |b| == 4 && ReadValue(a, signed) == ReadValue(b, signed)
    ensures a == b
  {
    var c3: int, d3: int := a[3], b[3];
    var c2, d2 := a[2] as int + 0x100 * c3, b[2] as int + 0x100 * d3;
    var c1, d1 := a[1] as int + 0x100 * c2, b[1] as int + 0x100 * d2;
    assert a[0] as int + 0x100 * c1 == b[0] as int + 0x100 * d1;
    hide ReadValue;
    LowByteTold(a[0], c1, b[0], d1);
    LowByteTold(a[1], c2, b[1], d2);
    LowByteTold(a[2], c3, b[2], d3);
    assert a == [a[0], a[1], a[2], a[3]] && b == [b[0], b[1], b[2], b[3]];
  }

  lemma LowByteTold(a: byte, c: int, b: byte, d: int)
    requires a + 0x100 * c == b + 0x100 * d
    ensures a == b && c == d
  {
  }

  // ------------------------------------------------------------------ access to a purse

  /** The answer to an access: its service and mode select an operation or are refused. */
  function Answer(stored: Block, access: Access, limit: Option<Limits>): Result<Option<Block>, byte> {
    match Resolve(access.attribute, access.mode)
    case Err(flag) => Err(flag)
    case Ok(operation) => Write(stored, access.block, operation, limit)
  }

  /**
   What the attribute of a service and an access mode do: direct writes through a direct
   service, decrements through a decrement or cashback service, all three in mode 0, and
   cashback through a cashback service in mode 1; everything else is refused with A5h.
   */
  lemma AnswerIs(stored: Block, access: Access, limit: Option<Limits>)
    ensures var attribute, mode, answer := access.attribute, access.mode, Answer(stored, access, limit);
            if attribute.PurseDirect? && mode == 0 then answer == Write(stored, access.block, Direct, limit)
            else if (attribute.PurseDecrement? || attribute.PurseCashback?) && mode == 0 then
              answer == Write(stored, access.block, Decrement, limit)
            else if attribute.PurseCashback? && mode == 1 then answer == Write(stored, access.block, Cashback, limit)
            else Refuses(answer, 0xA5)
    ensures AfterAccess(stored, access, limit)
            == if Stores(Answer(stored, access, limit)) then Answer(stored, access, limit).value.value else stored
  {
  }

  /**
   For every access to an ordinary purse, from its bytes: what is stored, what is taken for
   a repeat, and each status flag.
   */
  lemma OrdinaryAccess(stored: Block, access: Access)
    ensures var answer := Answer(stored, access, None);
            var purse := Unsigned(stored[0], stored[1], stored[2], stored[3]);
            var cashback := Unsigned(stored[4], stored[5], stored[6], stored[7]);
            var amount := Unsigned(access.block[0], access.block[1], access.block[2], access.block[3]);
            var newCashback := Unsigned(access.block[4], access.block[5], access.block[6], access.block[7]);
            var direct := access.attribute.PurseDirect? && access.mode == 0;
            var decrement := (access.attribute.PurseDecrement? || access.attribute.PurseCashback?) && access.mode == 0;
            var cashesBack := access.attribute.PurseCashback? && access.mode == 1;
            var repeated := access.block[12..16] == stored[12..16];
            && (Repeats(answer) <==> (decrement || cashesBack) && repeated)
            && (Refuses(answer, 0x01)
                <==> !repeated && ((decrement && amount > purse)
                                   || (cashesBack && amount <= cashback && purse + amount >= 0x1_0000_0000)))
            && (Refuses(answer, 0x02) <==> !repeated && cashesBack && amount > cashback)
            && (Refuses(answer, 0xA5)
                <==> || (!direct && !decrement && !cashesBack)
                     || (direct && (amount > purse || newCashback > cashback
                                    || purse + newCashback >= 0x1_0000_0000)))
            && (Stores(answer)
                <==> || (direct && amount <= purse && newCashback <= cashback && purse + newCashback < 0x1_0000_0000)
                     || (decrement && !repeated && amount <= purse)
                     || (cashesBack && !repeated && amount <= cashback && purse + amount < 0x1_0000_0000))
  {
    FieldsAre(stored, Limits(0, 0));
    FieldsAre(access.block, Limits(0, 0));
    AnswerIs(stored, access, None);
    DirectOnOrdinary(stored, access.block);
    DecrementOnOrdinary(stored, access.block);
    CashbackOnOrdinary(stored, access.block);
    hide Write, Answer, PurseOf, CashbackOf, Unsigned;
  }

  /** And for every access to a limit purse. */
  lemma LimitAccess(stored: Block, access: Access, limits: Limits)
    ensures var answer := Answer(stored, access, Some(limits));
            var purse := Signed(stored[0], stored[1], stored[2], stored[3]);
            var cashback := Signed(stored[4], stored[5], stored[6], stored[7]);
            var amount := Signed(access.block[0], access.block[1], access.block[2], access.block[3]);
            var newCashback := Signed(access.block[4], access.block[5], access.block[6], access.block[7]);
            var direct := access.attribute.PurseDirect? && access.mode == 0;
            var decrement := (access.attribute.PurseDecrement? || access.attribute.PurseCashback?) && access.mode == 0;
            var cashesBack := access.attribute.PurseCashback? && access.mode == 1;
            var repeated := access.block[12..16] == stored[12..16];
            var grows := amount > purse || newCashback > cashback;
            && (Repeats(answer) <==> (decrement || cashesBack) && repeated)
            && (Refuses(answer, 0x03)
                <==> || (direct && !grows && !(limits.lower <= amount <= limits.upper))
                     || (decrement && !repeated && !(limits.lower <= purse - amount <= limits.upper))
                     || (cashesBack && !repeated && amount <= cashback
                         && !(limits.lower <= purse + amount <= limits.upper)))
            && (Refuses(answer, 0x02) <==> !repeated && cashesBack && amount > cashback)
            && (Refuses(answer, 0xA5) <==> (!direct && !decrement && !cashesBack) || (direct && grows))
            && (Stores(answer)
                <==> || (direct && !grows && limits.lower <= amount <= limits.upper)
                     || (decrement && !repeated && limits.lower <= purse - amount <= limits.upper)
                     || (cashesBack && !repeated && amount <= cashback
                         && limits.lower <= purse + amount <= limits.upper))
  {
    FieldsAre(stored, limits);
    FieldsAre(access.block, limits);
    AnswerIs(stored, access, Some(limits));
    DirectOnLimit(stored, access.block, limits);
    DecrementOnLimit(stored, access.block, limits);
    CashbackOnLimit(stored, access.block, limits);
    hide Write, Answer, PurseOf, CashbackOf, Signed;
  }
}
