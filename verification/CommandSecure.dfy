/** Printing and parsing the payloads of secure commands, which encryption pads. */
module CommandSecure {
  import opened Bytes
  import opened Wrappers
  import opened Commands
  import opened CommandParser
  import opened CommandRoundTrip

  // ------------------------------------------------------------------- print, parse

  /** Padding behind the payload of a read or write is ignored; it becomes part of a registration's package. */
  function Padded(c: Command, padding: seq<byte>): Option<Command> {
    match c
    case RegisterIssueId(issueId, parameter, package) => Some(RegisterIssueId(issueId, parameter, package + padding))
    case RegisterArea(code, package) => Some(RegisterArea(code, package + padding))
    case RegisterService(code, package) => Some(RegisterService(code, package + padding))
    case ChangeSystemBlock => if padding == [] then Some(c) else None
    case _ => Some(Canonical(c))
  }

  lemma SecureReadRoundTrip(blocks: seq<BlockListElement>, padding: seq<byte>)
    requires InLimit(|blocks|, MAX_BLOCK_COUNT)
    ensures ParseSecurePayload(0x14, CountedBlocks(blocks) + padding) == Some(Read(MaskedBlocks(blocks)))
    ensures ParseSecurePayload(0x44, CountedBlocks(blocks) + padding) == Some(ReadV2(MaskedBlocks(blocks)))
  {
    hide TakeCountedBlocks, CountedBlocks;
    BlocksTaken(blocks, padding);
  }

  lemma SecureWriteRoundTrip(blocks: seq<BlockListElement>, data: seq<byte>, padding: seq<byte>)
    requires InLimit(|blocks|, MAX_BLOCK_COUNT) && |data| == |blocks| * BLOCK_SIZE
    ensures var payload := (CountedBlocks(blocks) + data) + padding;
            && ParseSecurePayload(0x16, payload) == Some(Write(MaskedBlocks(blocks), data))
            && ParseSecurePayload(0x46, payload) == Some(WriteV2(MaskedBlocks(blocks), data))
  {
    hide TakeCountedBlocks, CountedBlocks;
    BlocksAndDataTaken(blocks, data, padding);
  }

  lemma RegistrationRoundTrip(c: Command, padding: seq<byte>)
    requires c.RegisterIssueId? || c.RegisterArea? || c.RegisterService? || c.ChangeSystemBlock?
    ensures ParseSecurePayload(c.Code(), c.Fields() + padding) == Padded(c, padding)
  {
    hide TakeCountedBlocks, LeBytes, FromBytes;
    match c
    case RegisterIssueId(issueId, parameter, package) => IssueFields(issueId, parameter, package, padding);
    case RegisterArea(code, package) => CodeFields(code, package, padding);
    case RegisterService(code, package) => CodeFields(code, package, padding);
    case ChangeSystemBlock =>
  }

  lemma IssueFields(issueId: EightBytes, parameter: EightBytes, package: seq<byte>, padding: seq<byte>)
    ensures var payload := (issueId + (parameter + package)) + padding;
            payload[..8] == issueId && payload[8..16] == parameter && payload[16..] == package + padding
  {
  }

  lemma CodeFields(code: u16, package: seq<byte>, padding: seq<byte>)
    ensures var payload := (LeBytes(code) + package) + padding;
            |payload| >= 2 && FromBytes(payload[0], payload[1]) == code && payload[2..] == package + padding
  {
    NumberTaken(code);
    assert ((LeBytes(code) + package) + padding)[2..] == package + padding;
  }

  lemma SecureIsEncoded(c: Command)
    requires c.IsSecure() && WithinLimits(c)
    ensures Encode(c) == Ok(Secure(c.Code(), c.Fields()))
  {
    hide Command.Fields;
  }

  /** A decrypted payload yields the command it was printed from, whatever padding follows a read or write. */
  lemma SecurePayloadRoundTrip(c: Command, padding: seq<byte>)
    requires c.IsSecure() && WithinLimits(c)
    ensures Encode(c) == Ok(Secure(c.Code(), c.Fields()))
    ensures ParseSecurePayload(c.Code(), c.Fields() + padding) == Padded(c, padding)
  {
    SecureIsEncoded(c);
    hide ParseSecurePayload, Encode, Padded, WithinLimits, Command.Fields, Command.Code;
    if c.Read? || c.ReadV2? {
      SecureReadIsParsed(c, padding);
    } else if c.Write? || c.WriteV2? {
      SecureWriteIsParsed(c, padding);
    } else {
      OnlyRegistrationsLeft(c);
      RegistrationRoundTrip(c, padding);
    }
  }

  lemma OnlyRegistrationsLeft(c: Command)
    requires c.IsSecure() && !c.Read? && !c.ReadV2? && !c.Write? && !c.WriteV2?
    ensures c.RegisterIssueId? || c.RegisterArea? || c.RegisterService? || c.ChangeSystemBlock?
  {
  }

  lemma SecureReadIsParsed(c: Command, padding: seq<byte>)
    requires (c.Read? || c.ReadV2?) && WithinLimits(c)
    ensures ParseSecurePayload(c.Code(), c.Fields() + padding) == Padded(c, padding)
  {
    hide ParseSecurePayload, CountedBlocks;
    SecureReadRoundTrip(c.blockList, padding);
  }

  lemma SecureWriteIsParsed(c: Command, padding: seq<byte>)
    requires (c.Write? || c.WriteV2?) && WithinLimits(c)
    ensures ParseSecurePayload(c.Code(), c.Fields() + padding) == Padded(c, padding)
  {
    hide ParseSecurePayload, CountedBlocks;
    SecureWriteRoundTrip(c.blockList, c.data, padding);
  }

  lemma BlocksAndDataTaken(blocks: seq<BlockListElement>, data: seq<byte>, padding: seq<byte>)
    requires InLimit(|blocks|, MAX_BLOCK_COUNT) && |data| == |blocks| * BLOCK_SIZE
    ensures TakeCountedBlocks((CountedBlocks(blocks) + data) + padding)
            == Some(Taken(MaskedBlocks(blocks), data + padding))
    ensures (data + padding)[..|blocks| * BLOCK_SIZE] == data
  {
    hide TakeCountedBlocks, CountedBlocks;
    assert CountedBlocks(blocks) + (data + padding) == (CountedBlocks(blocks) + data) + padding;
    BlocksTaken(blocks, data + padding);
  }

  // ------------------------------------------------------------------- parse, print

  predicate IsRead(code: byte) { code == 0x14 || code == 0x44 }
  predicate IsWrite(code: byte) { code == 0x16 || code == 0x46 }

  /** What follows the fields of a parsed read or write: padding, which the command does not keep. */
  function Padding(code: byte, payload: seq<byte>): seq<byte>
    requires ParseSecurePayload(code, payload).Some?
  {
    if IsRead(code) then TakeCountedBlocks(payload).value.rest
    else if IsWrite(code) then
      var blocks := TakeCountedBlocks(payload).value;
      blocks.rest[|blocks.value| * BLOCK_SIZE..]
    else []
  }

  /** A payload whose block list uses the three-byte form for a number below 256. */
  predicate SecureHasWide(code: byte, payload: seq<byte>) {
    (IsRead(code) || IsWrite(code)) && HasWideBlock(payload)
  }

  /** The command has its code and, behind canonical fields, keeps all of the payload but the padding. */
  ghost predicate SecureReprints(c: Command, code: byte, payload: seq<byte>, padding: seq<byte>, wide: bool) {
    && c.Code() == code && c.IsSecure() && WithinLimits(c) && IsExpressible(c)
    && |c.Fields() + padding| <= |payload| && (c.Fields() + padding == payload <==> !wide)
  }

  lemma ReadIsGiven(code: byte, payload: seq<byte>)
    requires IsRead(code) && ParseSecurePayload(code, payload).Some?
    ensures SecureReprints(ParseSecurePayload(code, payload).value, code, payload, Padding(code, payload),
                           SecureHasWide(code, payload))
  {
    hide TakeCountedBlocks, CountedBlocks, HasWideBlock;
    BlocksGiven(payload);
  }

  lemma WriteIsGiven(code: byte, payload: seq<byte>)
    requires IsWrite(code) && ParseSecurePayload(code, payload).Some?
    ensures SecureReprints(ParseSecurePayload(code, payload).value, code, payload, Padding(code, payload),
                           SecureHasWide(code, payload))
  {
    hide TakeCountedBlocks, CountedBlocks, HasWideBlock;
    BlocksGiven(payload);
    var blocks := TakeCountedBlocks(payload).value;
    var n := |blocks.value| * BLOCK_SIZE;
    assert CountedBlocks(blocks.value) + blocks.rest[..n] + blocks.rest[n..]
           == CountedBlocks(blocks.value) + blocks.rest;
  }

  lemma RegistrationIsGiven(code: byte, payload: seq<byte>)
    requires !IsRead(code) && !IsWrite(code) && ParseSecurePayload(code, payload).Some?
    ensures SecureReprints(ParseSecurePayload(code, payload).value, code, payload, [], false)
  {
    hide TakeCountedBlocks;
    var c := ParseSecurePayload(code, payload).value;
    if c.RegisterIssueId? {
      assert payload == payload[..8] + (payload[8..16] + payload[16..]);
    } else if c.RegisterArea? || c.RegisterService? {
      NumberParts(payload[0], payload[1]);
      assert payload == [payload[0], payload[1]] + payload[2..];
    }
    assert c.Fields() + [] == c.Fields();
  }

  /**
   Whatever is parsed from a decrypted payload prints again: to the payload without its
   padding exactly if no block element is wide, never to more, and to a payload that
   parses to the same command.
   */
  lemma SecurePrintUndoesParse(code: byte, payload: seq<byte>)
    requires ParseSecurePayload(code, payload).Some?
    ensures var c, padding := ParseSecurePayload(code, payload).value, Padding(code, payload);
            && SecureReprints(c, code, payload, padding, SecureHasWide(code, payload))
            && Encode(c) == Ok(Secure(code, c.Fields()))
            && ParseSecurePayload(code, c.Fields()) == Some(c)
  {
    var c := ParseSecurePayload(code, payload).value;
    if IsRead(code) {
      ReadIsGiven(code, payload);
    } else if IsWrite(code) {
      WriteIsGiven(code, payload);
    } else {
      RegistrationIsGiven(code, payload);
    }
    hide ParseSecurePayload, WithinLimits, IsExpressible, Command.Fields, Command.Code, Encode;
    SecurePayloadRoundTrip(c, []);
    CanonicalIsExpressible(c);
    assert c.Fields() + [] == c.Fields();
    NoPadding(c);
  }

  lemma NoPadding(c: Command)
    requires c.IsSecure() && Canonical(c) == c
    ensures Padded(c, []) == Some(c)
  {
    hide Command.Fields;
    if c.RegisterIssueId? || c.RegisterArea? || c.RegisterService? {
      assert c.package + [] == c.package;
    }
  }
}
