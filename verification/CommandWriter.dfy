/** The command encoder as it appends to a payload, and the list parsers as they advance through one. */
module CommandWriter {
  import opened Bytes
  import opened Wrappers
  import opened Commands
  import opened CommandParser

  class PayloadWriter {
    var buf: seq<byte>

    constructor (opcode: byte)
      ensures buf == [opcode]
    {
      buf := [opcode];
    }

    /** Starts a payload without an opcode. */
    constructor WithCapacity()
      ensures buf == []
    {
      buf := [];
    }

    method PushU8(value: byte)
      modifies this
      ensures buf == old(buf) + [value]
    {
      buf := buf + [value];
    }

    method ExtendBytes(bytes: seq<byte>)
      modifies this
      ensures buf == old(buf) + bytes
    {
      buf := buf + bytes;
    }

    method ExtendU16Le(value: u16)
      modifies this
      ensures buf == old(buf) + LeBytes(value)
    {
      buf := buf + LeBytes(value);
    }

    method ExtendU16Be(value: u16)
      modifies this
      ensures buf == old(buf) + BeBytes(value)
    {
      buf := buf + BeBytes(value);
    }

    method ExtendU16ListLe(values: seq<u16>)
      modifies this
      ensures buf == old(buf) + U16ListBytes(values)
    {
      for i := 0 to |values|
        invariant buf + U16ListBytes(values[i..]) == old(buf) + U16ListBytes(values)
      {
        ghost var before, rest := buf, U16ListBytes(values[i + 1..]);
        assert values[i..][1..] == values[i + 1..];
        assert U16ListBytes(values[i..]) == LeBytes(values[i]) + rest;
        ExtendU16Le(values[i]);
        assert buf + rest == before + (LeBytes(values[i]) + rest);
      }
      assert values[|values|..] == [];
    }

    /** A one-byte count, truncated if need be, and the values. */
    method ExtendCounted(values: seq<u16>)
      modifies this
      ensures buf == old(buf) + Counted(values)
    {
      PushU8(|values| % 0x100);
      ExtendU16ListLe(values);
    }

    method ExtendBlockList(blocks: seq<BlockListElement>)
      modifies this
      ensures buf == old(buf) + BlockListBytes(blocks)
    {
      for i := 0 to |blocks|
        invariant buf + BlockListBytes(blocks[i..]) == old(buf) + BlockListBytes(blocks)
      {
        ghost var before, rest := buf, BlockListBytes(blocks[i + 1..]);
        assert blocks[i..][1..] == blocks[i + 1..];
        assert BlockListBytes(blocks[i..]) == blocks[i].Pack() + rest;
        ExtendBytes(blocks[i].Pack());
        assert buf + rest == before + (blocks[i].Pack() + rest);
      }
      assert blocks[|blocks|..] == [];
    }

    method ExtendCountedBlocks(blocks: seq<BlockListElement>)
      modifies this
      ensures buf == old(buf) + CountedBlocks(blocks)
    {
      PushU8(|blocks| % 0x100);
      ExtendBlockList(blocks);
    }
  }

  lemma Regroup(a: seq<byte>, b: seq<byte>, c: seq<byte>)
    ensures a + b + c == a + (b + c)
  {
  }

  predicate NamesBlocks(c: Command) {
    c.ReadWithoutEncryption? || c.WriteWithoutEncryption? || c.Read? || c.Write? ||
    c.ReadV2? || c.WriteV2?
  }

  /** Appends the fields of a command that names blocks. */
  method WriteBlocks(c: Command, payload: PayloadWriter)
    requires NamesBlocks(c)
    modifies payload
    ensures payload.buf == old(payload.buf) + c.Fields()
  {
    hide Counted, CountedBlocks;
    ghost var start := payload.buf;
    match c {
      case ReadWithoutEncryption(idm, codes, blocks) =>
        payload.ExtendBytes(idm);
        payload.ExtendCounted(codes);
        payload.ExtendCountedBlocks(blocks);
        Regroup(start, idm, Counted(codes));
        Regroup(start, idm + Counted(codes), CountedBlocks(blocks));
        Regroup(idm, Counted(codes), CountedBlocks(blocks));
      case WriteWithoutEncryption(idm, codes, blocks, data) =>
        payload.ExtendBytes(idm);
        payload.ExtendCounted(codes);
        payload.ExtendCountedBlocks(blocks);
        payload.ExtendBytes(data);
        Regroup(start + idm + Counted(codes), CountedBlocks(blocks), data);
        Regroup(start + idm, Counted(codes), CountedBlocks(blocks) + data);
        Regroup(start, idm, Counted(codes) + (CountedBlocks(blocks) + data));
      case Read(blocks) =>
        payload.ExtendCountedBlocks(blocks);
      case Write(blocks, data) =>
        payload.ExtendCountedBlocks(blocks);
        payload.ExtendBytes(data);
        Regroup(start, CountedBlocks(blocks), data);
      case ReadV2(blocks) =>
        payload.ExtendCountedBlocks(blocks);
      case WriteV2(blocks, data) =>
        payload.ExtendCountedBlocks(blocks);
        payload.ExtendBytes(data);
        Regroup(start, CountedBlocks(blocks), data);
    }
  }

  predicate ListsCodes(c: Command) {
    c.RequestService? || c.RequestBlockInformation? || c.Authentication1? || c.RequestBlockInformationEx? ||
    c.GetNodeProperty? || c.RequestServiceV2? || c.Authentication1V2?
  }

  /** Appends the fields of a command that lists services, areas or nodes. */
  method WriteCodes(c: Command, payload: PayloadWriter)
    requires ListsCodes(c)
    modifies payload
    ensures payload.buf == old(payload.buf) + c.Fields()
  {
    hide Counted, CountedBlocks;
    ghost var start := payload.buf;
    match c {
      case RequestService(idm, codes) =>
        payload.ExtendBytes(idm);
        payload.ExtendCounted(codes);
        Regroup(start, idm, Counted(codes));
      case RequestBlockInformation(idm, codes) =>
        payload.ExtendBytes(idm);
        payload.ExtendCounted(codes);
        Regroup(start, idm, Counted(codes));
      case Authentication1(idm, areas, services, challenge) =>
        payload.ExtendBytes(idm);
        payload.ExtendCounted(areas);
        payload.ExtendCounted(services);
        payload.ExtendBytes(challenge);
        Regroup(start + idm + Counted(areas), Counted(services), challenge);
        Regroup(start + idm, Counted(areas), Counted(services) + challenge);
        Regroup(start, idm, Counted(areas) + (Counted(services) + challenge));
      case RequestBlockInformationEx(idm, codes) =>
        payload.ExtendBytes(idm);
        payload.ExtendCounted(codes);
        Regroup(start, idm, Counted(codes));
      case GetNodeProperty(idm, kind, codes) =>
        payload.ExtendBytes(idm);
        payload.PushU8(kind.ToByte());
        payload.ExtendCounted(codes);
        Regroup(start + idm, [kind.ToByte()], Counted(codes));
        Regroup(start, idm, [kind.ToByte()] + Counted(codes));
      case RequestServiceV2(idm, codes) =>
        payload.ExtendBytes(idm);
        payload.ExtendCounted(codes);
        Regroup(start, idm, Counted(codes));
      case Authentication1V2(idm, parameter, nodes, challenge) =>
        payload.ExtendBytes(idm);
        payload.PushU8(parameter);
        payload.ExtendCounted(nodes);
        payload.ExtendBytes(challenge);
        Regroup(start + idm + [parameter], Counted(nodes), challenge);
        Regroup(start + idm, [parameter], Counted(nodes) + challenge);
        Regroup(start, idm, [parameter] + (Counted(nodes) + challenge));
    }
  }

  predicate CarriesIdm(c: Command) {
    c.RequestResponse? || c.RequestSystemCode? || c.GetContainerIssueInformation? || c.GetSystemStatus? ||
    c.RequestProductInformation? || c.RequestSpecificationVersion? || c.ResetMode? || c.Authentication2? ||
    c.Authentication2V2?
  }

  /** Appends the fields of a command that carries no more than an IDm, a challenge and reserved bytes. */
  method WriteIdm(c: Command, payload: PayloadWriter)
    requires CarriesIdm(c)
    modifies payload
    ensures payload.buf == old(payload.buf) + c.Fields()
  {
    hide LeBytes;
    ghost var start := payload.buf;
    match c {
      case RequestResponse(idm) =>
        payload.ExtendBytes(idm);
      case RequestSystemCode(idm) =>
        payload.ExtendBytes(idm);
      case GetContainerIssueInformation(idm) =>
        payload.ExtendBytes(idm);
        payload.ExtendBytes([0, 0]);
        Regroup(start, idm, RESERVED);
      case GetSystemStatus(idm) =>
        payload.ExtendBytes(idm);
        payload.ExtendBytes([0, 0]);
        Regroup(start, idm, RESERVED);
      case RequestProductInformation(idm) =>
        payload.ExtendBytes(idm);
      case RequestSpecificationVersion(idm) =>
        payload.ExtendBytes(idm);
        payload.ExtendBytes([0, 0]);
        Regroup(start, idm, RESERVED);
      case ResetMode(idm) =>
        payload.ExtendBytes(idm);
        payload.ExtendBytes([0, 0]);
        Regroup(start, idm, RESERVED);
      case Authentication2(idm, challenge) =>
        payload.ExtendBytes(idm);
        payload.ExtendBytes(challenge);
        Regroup(start, idm, challenge);
      case Authentication2V2(idm, challenge) =>
        payload.ExtendBytes(idm);
        payload.ExtendBytes(challenge);
        Regroup(start, idm, challenge);
    }
  }

  predicate Registers(c: Command) {
    c.RegisterIssueId? || c.RegisterArea? || c.RegisterService? || c.ChangeSystemBlock?
  }

  /** Appends the fields of a registration. */
  method WriteRegistration(c: Command, payload: PayloadWriter)
    requires Registers(c)
    modifies payload
    ensures payload.buf == old(payload.buf) + c.Fields()
  {
    hide LeBytes;
    ghost var start := payload.buf;
    match c {
      case RegisterIssueId(issueId, parameter, package) =>
        payload.ExtendBytes(issueId);
        payload.ExtendBytes(parameter);
        payload.ExtendBytes(package);
        Regroup(start + issueId, parameter, package);
        Regroup(start, issueId, parameter + package);
      case RegisterArea(code, package) =>
        payload.ExtendU16Le(code);
        payload.ExtendBytes(package);
        Regroup(start, LeBytes(code), package);
      case RegisterService(code, package) =>
        payload.ExtendU16Le(code);
        payload.ExtendBytes(package);
        Regroup(start, LeBytes(code), package);
      case ChangeSystemBlock =>
    }
  }

  predicate CarriesValues(c: Command) {
    c.Polling? || c.SearchServiceCode? || c.RequestCodeList? || c.SetParameter? ||
    c.GetAreaInformation? || c.GetContainerProperty? || c.GetContainerId?
  }

  /** Appends the fields of a command that carries single values. */
  method WriteValues(c: Command, payload: PayloadWriter)
    requires CarriesValues(c)
    modifies payload
    ensures payload.buf == old(payload.buf) + c.Fields()
  {
    hide LeBytes, BeBytes;
    ghost var start := payload.buf;
    match c {
      case Polling(systemCode, requestCode, timeSlots) =>
        payload.ExtendU16Be(systemCode);
        payload.PushU8(requestCode);
        payload.PushU8(timeSlots);
        assert [requestCode] + [timeSlots] == [requestCode, timeSlots];
        Regroup(start + BeBytes(systemCode), [requestCode], [timeSlots]);
        Regroup(start, BeBytes(systemCode), [requestCode, timeSlots]);
      case SearchServiceCode(idm, index) =>
        payload.ExtendBytes(idm);
        payload.ExtendU16Le(index);
        Regroup(start, idm, LeBytes(index));
      case RequestCodeList(idm, parent, index) =>
        payload.ExtendBytes(idm);
        payload.ExtendU16Le(parent);
        payload.ExtendU16Le(index);
        Regroup(start + idm, LeBytes(parent), LeBytes(index));
        Regroup(start, idm, LeBytes(parent) + LeBytes(index));
      case SetParameter(idm, encryption, packet) =>
        payload.ExtendBytes(idm);
        payload.ExtendBytes([0, 0, 0, 0]);
        payload.PushU8(encryption.ToByte());
        payload.PushU8(packet.ToByte());
        payload.ExtendBytes([0, 0]);
        assert payload.buf
               == start + idm + [0, 0, 0, 0, encryption.ToByte(), packet.ToByte(), 0, 0];
        Regroup(start, idm, [0, 0, 0, 0, encryption.ToByte(), packet.ToByte(), 0, 0]);
      case GetAreaInformation(idm, code) =>
        payload.ExtendBytes(idm);
        payload.ExtendU16Le(code);
        Regroup(start, idm, LeBytes(code));
      case GetContainerProperty(property) =>
        payload.ExtendU16Le(property.ToIndex());
      case GetContainerId =>
        payload.ExtendBytes([0, 0]);
    }
  }

  /** Encodes a command: a whole frame, or the code and payload of a secure one. */
  method EncodeCommand(c: Command) returns (result: Result<Encoding, Failure>)
    ensures result == Encode(c)
  {
    hide Command.Fields, Command.Code;
    if c.Polling? && !(PollingRequestCode(c.requestCode) && PollingTimeSlots(c.timeSlots)) {
      return Err(Refused);
    }
    if CountOverflows(c) {
      return Err(Panicked);
    }
    var payload: PayloadWriter;
    if c.IsSecure() {
      payload := new PayloadWriter.WithCapacity();
    } else {
      payload := new PayloadWriter(c.Code());
    }
    if NamesBlocks(c) {
      WriteBlocks(c, payload);
    } else if ListsCodes(c) {
      WriteCodes(c, payload);
    } else if CarriesIdm(c) {
      WriteIdm(c, payload);
    } else if Registers(c) {
      WriteRegistration(c, payload);
    } else {
      WriteValues(c, payload);
    }
    if c.IsSecure() {
      assert payload.buf == c.Fields();
      return Ok(Secure(c.Code(), payload.buf));
    }
    var frameLen := |payload.buf| + 1;
    if frameLen > MAX_PACKET_LEN {
      return Err(Refused);
    }
    result := Ok(Plain([frameLen] + payload.buf));
  }

  // ------------------------------------------------------------------ parsing loops

  /** Takes block list elements by an offset that advances with each. */
  method TakeBlocks(data: seq<byte>, count: nat) returns (result: Option<Taken<seq<BlockListElement>>>)
    ensures result == TakeBlockList(data, count)
  {
    var blocks: seq<BlockListElement>, offset := [], 0;
    for i := 0 to count
      invariant offset <= |data|
      invariant TakeBlockList(data, count) == AfterBlocks(blocks, TakeBlockList(data[offset..], count - i))
    {
      ghost var rest := data[offset..];
      NextBlock(blocks, rest, count - i);
      if offset >= |data| {
        return None;
      }
      var header := data[offset];
      assert rest[0] == header;
      offset := offset + 1;
      var accessMode, index := header / 16 % 8, header % 16;
      var number: u16;
      if header >= 0x80 {
        if offset >= |data| {
          return None;
        }
        number := data[offset];
        assert rest[1] == number && rest[2..] == data[offset + 1..];
        offset := offset + 1;
      } else {
        if offset + 2 > |data| {
          return None;
        }
        number := FromBytes(data[offset], data[offset + 1]);
        assert rest[1] == data[offset] && rest[2] == data[offset + 1] && rest[3..] == data[offset + 2..];
        offset := offset + 2;
      }
      assert TakeElement(rest) == Some(Taken(BlockListElement(number, index, accessMode), data[offset..]));
      blocks := blocks + [BlockListElement(number, index, accessMode)];
    }
    assert blocks + [] == blocks;
    result := Some(Taken(blocks, data[offset..]));
  }

  /** The elements taken so far and then the others, if these can be taken. */
  function AfterBlocks(blocks: seq<BlockListElement>, others: Option<Taken<seq<BlockListElement>>>)
    : (all: Option<Taken<seq<BlockListElement>>>)
    ensures blocks == [] ==> all == others
  {
    match others
    case None => None
    case Some(t) =>
      assert blocks == [] ==> blocks + t.value == t.value;
      Some(Taken(blocks + t.value, t.rest))
  }

  lemma NextBlock(blocks: seq<BlockListElement>, data: seq<byte>, count: nat)
    requires count > 0
    ensures var first := TakeElement(data);
            AfterBlocks(blocks, TakeBlockList(data, count))
            == if first.None? then None
               else AfterBlocks(blocks + [first.value.value], TakeBlockList(first.value.rest, count - 1))
  {
    hide TakeElement;
    var first := TakeElement(data);
    if first.Some? && TakeBlockList(first.value.rest, count - 1).Some? {
      var others := TakeBlockList(first.value.rest, count - 1).value.value;
      assert blocks + ([first.value.value] + others) == blocks + [first.value.value] + others;
    }
  }

  method ReadU16ListLe(data: seq<byte>, count: nat) returns (result: Option<seq<u16>>)
    ensures result == ParseU16ListLe(data, count)
  {
    var expected := count * 2;
    if |data| < expected {
      return None;
    }
    hide U16List, FromBytes;
    var out: seq<u16> := [];
    ghost var bytes := data[..expected];
    assert bytes[0..] == bytes;
    for i := 0 to count
      invariant U16List(bytes) == out + U16List(bytes[2 * i..])
    {
      ghost var before, rest := out, U16List(bytes[2 * (i + 1)..]);
      NextU16(bytes, i);
      out := out + [FromBytes(data[2 * i], data[2 * i + 1])];
      assert before + ([FromBytes(data[2 * i], data[2 * i + 1])] + rest) == out + rest;
    }
    assert bytes[expected..] == [] && U16List([]) == [] && out + [] == out;
    result := Some(out);
  }

  lemma NextU16(bytes: seq<byte>, i: nat)
    requires |bytes| % 2 == 0 && 2 * i < |bytes|
    ensures U16List(bytes[2 * i..]) == [FromBytes(bytes[2 * i], bytes[2 * i + 1])] + U16List(bytes[2 * (i + 1)..])
  {
    assert bytes[2 * i..][2..] == bytes[2 * (i + 1)..];
  }

  lemma DropDrop(data: seq<byte>, a: nat, b: nat)
    requires a + b <= |data|
    ensures data[a..][b..] == data[a + b..]
  {
  }

  /** A counted list whose count is at the front of the data. */
  lemma CountedAt(data: seq<byte>)
    ensures TakeU16List(data, 0, MAX_SERVICE_CODES)
            == if data == [] || data[0] > MAX_SERVICE_CODES then None
               else
                 var count: nat := data[0];
                 if ParseU16ListLe(data[1..], count).None? then None
                 else Some(Taken(ParseU16ListLe(data[1..], count).value, data[1 + count * 2..]))
    ensures data != [] && ParseU16ListLe(data[1..], data[0]).Some? ==> 1 + data[0] as nat * 2 <= |data|
  {
    hide U16List;
    if data != [] && |data| >= 1 + data[0] as nat * 2 {
      assert data[1..][data[0] as nat * 2..] == data[1 + data[0] as nat * 2..];
    }
  }

  /** Reads a counted list at the cursor, and moves the cursor behind it. */
  method ReadCountedList(data: seq<byte>, start: nat) returns (values: Option<seq<u16>>, cursor: nat)
    requires start <= |data|
    ensures values.Some? ==> cursor <= |data|
    ensures TakeU16List(data[start..], 0, MAX_SERVICE_CODES)
            == if values.None? then None else Some(Taken(values.value, data[cursor..]))
  {
    hide TakeU16List, ParseU16ListLe;
    CountedAt(data[start..]);
    cursor := start;
    if cursor >= |data| {
      return None, cursor;
    }
    var count := data[cursor];
    cursor := cursor + 1;
    if count > MAX_SERVICE_CODES {
      return None, cursor;
    }
    DropDrop(data, start, 1);
    values := ReadU16ListLe(data[cursor..], count);
    if values.Some? {
      cursor := cursor + count * 2;
      DropDrop(data, start, cursor - start);
    }
  }

  /** Parses Authentication1 by a cursor over what follows the IDm. */
  method ReadAuthentication1(body: seq<byte>) returns (result: Option<Command>)
    ensures result == ParseAuthentication1(body)
  {
    hide TakeU16List;
    var idm := TakeIdm(body);
    if idm.None? {
      return None;
    }
    var rest := idm.value.rest;
    assert rest[0..] == rest;
    var areas, cursor := ReadCountedList(rest, 0);
    if areas.None? {
      return None;
    }
    var services: Option<seq<u16>>;
    services, cursor := ReadCountedList(rest, cursor);
    if services.None? || cursor + 8 > |rest| {
      return None;
    }
    var challenge := rest[cursor..cursor + 8];
    if cursor + 8 != |rest| {
      return None;
    }
    assert challenge == rest[cursor..];
    result := Some(Authentication1(idm.value.value, areas.value, services.value, challenge));
  }
}
