/** Parsing command packets: a packet that is malformed anywhere yields no command. */
module CommandParser {
  import opened Bytes
  import opened Wrappers
  import opened Commands

  /** A value taken off the front of some bytes, and the bytes behind it. */
  datatype Taken<+T> = Taken(value: T, rest: seq<byte>)

  // ------------------------------------------------------------------------ pieces

  function TakeIdm(data: seq<byte>): Option<Taken<Idm>> {
    if |data| < 8 then None else Some(Taken(data[..8], data[8..]))
  }

  function TakeCount(data: seq<byte>, min: nat, max: nat): Option<Taken<nat>> {
    if data == [] || !(min <= data[0] as int <= max) then None else Some(Taken(data[0], data[1..]))
  }

  function U16List(bytes: seq<byte>): (values: seq<u16>)
    requires |bytes| % 2 == 0
    ensures |values| == |bytes| / 2
  {
    if bytes == [] then [] else [FromBytes(bytes[0], bytes[1])] + U16List(bytes[2..])
  }

  function ParseU16ListLe(data: seq<byte>, count: nat): Option<seq<u16>> {
    if |data| < count * 2 then None else Some(U16List(data[..count * 2]))
  }

  function TakeU16List(data: seq<byte>, min: nat, max: nat): Option<Taken<seq<u16>>> {
    match TakeCount(data, min, max)
    case None => None
    case Some(count) =>
      match ParseU16ListLe(count.rest, count.value)
      case None => None
      case Some(values) => Some(Taken(values, count.rest[count.value * 2..]))
  }

  function TakeElement(data: seq<byte>): Option<Taken<BlockListElement>> {
    if data == [] then None
    else
      var header := data[0];
      var mode, index := header / 16 % 8, header % 16;
      if header >= 0x80 then
        if |data| < 2 then None else Some(Taken(BlockListElement(data[1], index, mode), data[2..]))
      else if |data| < 3 then None
      else Some(Taken(BlockListElement(FromBytes(data[1], data[2]), index, mode), data[3..]))
  }

  function TakeBlockList(data: seq<byte>, count: nat): Option<Taken<seq<BlockListElement>>> {
    if count == 0 then Some(Taken([], data))
    else
      match TakeElement(data)
      case None => None
      case Some(first) =>
        match TakeBlockList(first.rest, count - 1)
        case None => None
        case Some(others) => Some(Taken([first.value] + others.value, others.rest))
  }

  function TakeCountedBlocks(data: seq<byte>): Option<Taken<seq<BlockListElement>>> {
    match TakeCount(data, 1, MAX_BLOCK_COUNT)
    case None => None
    case Some(count) => TakeBlockList(count.rest, count.value)
  }

  // -------------------------------------------------------------------- plain bodies

  /** An IDm and nothing else. */
  function ParseIdm(body: seq<byte>): Option<Idm> {
    match TakeIdm(body)
    case None => None
    case Some(idm) => if idm.rest == [] then Some(idm.value) else None
  }

  /** An IDm and two zero bytes. */
  function ParseIdmReserved(body: seq<byte>): Option<Idm> {
    match TakeIdm(body)
    case None => None
    case Some(idm) => if idm.rest == RESERVED then Some(idm.value) else None
  }

  /** An IDm and one 16-bit value. */
  function ParseIdmValue(body: seq<byte>): Option<(Idm, u16)> {
    match TakeIdm(body)
    case None => None
    case Some(idm) => if |idm.rest| == 2 then Some((idm.value, FromBytes(idm.rest[0], idm.rest[1]))) else None
  }

  /** An IDm and one list of 16-bit values. */
  function ParseIdmList(body: seq<byte>, max: nat): Option<(Idm, seq<u16>)> {
    match TakeIdm(body)
    case None => None
    case Some(idm) =>
      match TakeU16List(idm.rest, 1, max)
      case None => None
      case Some(list) => if list.rest == [] then Some((idm.value, list.value)) else None
  }

  function ParsePolling(body: seq<byte>): Option<Command> {
    if |body| != 4 || !PollingRequestCode(body[2]) || !PollingTimeSlots(body[3]) then None
    else Some(Polling(FromBytes(body[1], body[0]), body[2], body[3]))
  }

  function ParseReadWithoutEncryption(body: seq<byte>): Option<Command> {
    match TakeIdm(body)
    case None => None
    case Some(idm) =>
      match TakeU16List(idm.rest, 1, MAX_RW_SERVICE_CODES)
      case None => None
      case Some(codes) =>
        match TakeCountedBlocks(codes.rest)
        case None => None
        case Some(blocks) =>
          if blocks.rest == [] then Some(ReadWithoutEncryption(idm.value, codes.value, blocks.value)) else None
  }

  function ParseWriteWithoutEncryption(body: seq<byte>): Option<Command> {
    match TakeIdm(body)
    case None => None
    case Some(idm) =>
      match TakeU16List(idm.rest, 1, MAX_RW_SERVICE_CODES)
      case None => None
      case Some(codes) =>
        match TakeCountedBlocks(codes.rest)
        case None => None
        case Some(blocks) =>
          if |blocks.rest| == |blocks.value| * BLOCK_SIZE then
            Some(WriteWithoutEncryption(idm.value, codes.value, blocks.value, blocks.rest))
          else None
  }

  function ParseAuthentication1(body: seq<byte>): Option<Command> {
    match TakeIdm(body)
    case None => None
    case Some(idm) =>
      match TakeU16List(idm.rest, 0, MAX_SERVICE_CODES)
      case None => None
      case Some(areas) =>
        match TakeU16List(areas.rest, 0, MAX_SERVICE_CODES)
        case None => None
        case Some(services) =>
          if |services.rest| == 8 then Some(Authentication1(idm.value, areas.value, services.value, services.rest))
          else None
  }

  function ParseAuthentication2(body: seq<byte>): Option<Command> {
    match TakeIdm(body)
    case None => None
    case Some(idm) => if |idm.rest| == 8 then Some(Authentication2(idm.value, idm.rest)) else None
  }

  function ParseRequestCodeList(body: seq<byte>): Option<Command> {
    match TakeIdm(body)
    case None => None
    case Some(idm) =>
      if |idm.rest| == 4 then
        Some(RequestCodeList(idm.value, FromBytes(idm.rest[0], idm.rest[1]), FromBytes(idm.rest[2], idm.rest[3])))
      else None
  }

  function ParseSetParameter(body: seq<byte>): Option<Command> {
    match TakeIdm(body)
    case None => None
    case Some(idm) =>
      if |idm.rest| != 8 || idm.rest[..4] != [0, 0, 0, 0] || idm.rest[6..] != [0, 0] then None
      else
        var encryption, packet := EncryptionType.FromByte(idm.rest[4]), PacketType.FromByte(idm.rest[5]);
        if encryption.None? || packet.None? then None
        else Some(SetParameter(idm.value, encryption.value, packet.value))
  }

  function ParseGetNodeProperty(body: seq<byte>): Option<Command> {
    match TakeIdm(body)
    case None => None
    case Some(idm) =>
      if idm.rest == [] || NodePropertyType.FromByte(idm.rest[0]).None? then None
      else
        match TakeU16List(idm.rest[1..], 1, MAX_NODE_PROPERTY_CODES)
        case None => None
        case Some(codes) =>
          if codes.rest == [] then
            Some(GetNodeProperty(idm.value, NodePropertyType.FromByte(idm.rest[0]).value, codes.value))
          else None
  }

  function ParseGetContainerProperty(body: seq<byte>): Option<Command> {
    if |body| != 2 then None
    else Some(GetContainerProperty(ContainerProperty.FromIndex(FromBytes(body[0], body[1]))))
  }

  function ParseAuthentication1V2(body: seq<byte>): Option<Command> {
    match TakeIdm(body)
    case None => None
    case Some(idm) =>
      if idm.rest == [] then None
      else
        match TakeU16List(idm.rest[1..], 1, MAX_SERVICE_CODES)
        case None => None
        case Some(nodes) =>
          if |nodes.rest| == 16 then Some(Authentication1V2(idm.value, idm.rest[0], nodes.value, nodes.rest)) else None
  }

  function ParseAuthentication2V2(body: seq<byte>): Option<Command> {
    match TakeIdm(body)
    case None => None
    case Some(idm) => if |idm.rest| == 16 then Some(Authentication2V2(idm.value, idm.rest)) else None
  }

  function Map<T, U>(o: Option<T>, f: T -> U): Option<U> {
    match o
    case None => None
    case Some(x) => Some(f(x))
  }

  // ------------------------------------------------------------------------ packets

  /** The command of a code and the bytes behind it. */
  function ParseBody(code: byte, body: seq<byte>): Option<Command> {
    match code
    case 0x00 => ParsePolling(body)
    case 0x02 => Map(ParseIdmList(body, MAX_SERVICE_CODES), (p: (Idm, seq<u16>)) => RequestService(p.0, p.1))
    case 0x04 => Map(ParseIdm(body), idm => RequestResponse(idm))
    case 0x06 => ParseReadWithoutEncryption(body)
    case 0x08 => ParseWriteWithoutEncryption(body)
    case 0x0A => Map(ParseIdmValue(body), (p: (Idm, u16)) => SearchServiceCode(p.0, p.1))
    case 0x0C => Map(ParseIdm(body), idm => RequestSystemCode(idm))
    case 0x0E => Map(ParseIdmList(body, MAX_NODE_CODES), (p: (Idm, seq<u16>)) => RequestBlockInformation(p.0, p.1))
    case 0x10 => ParseAuthentication1(body)
    case 0x12 => ParseAuthentication2(body)
    case 0x1A => ParseRequestCodeList(body)
    case 0x1E => Map(ParseIdmList(body, MAX_NODE_CODES), (p: (Idm, seq<u16>)) => RequestBlockInformationEx(p.0, p.1))
    case 0x20 => ParseSetParameter(body)
    case 0x22 => Map(ParseIdmReserved(body), idm => GetContainerIssueInformation(idm))
    case 0x24 => Map(ParseIdmValue(body), (p: (Idm, u16)) => GetAreaInformation(p.0, p.1))
    case 0x28 => ParseGetNodeProperty(body)
    case 0x2E => ParseGetContainerProperty(body)
    case 0x32 => Map(ParseIdmList(body, MAX_SERVICE_CODES), (p: (Idm, seq<u16>)) => RequestServiceV2(p.0, p.1))
    case 0x38 => Map(ParseIdmReserved(body), idm => GetSystemStatus(idm))
    case 0x3A => Map(ParseIdm(body), idm => RequestProductInformation(idm))
    case 0x3C => Map(ParseIdmReserved(body), idm => RequestSpecificationVersion(idm))
    case 0x3E => Map(ParseIdmReserved(body), idm => ResetMode(idm))
    case 0x40 => ParseAuthentication1V2(body)
    case 0x42 => ParseAuthentication2V2(body)
    case 0x70 => if body == RESERVED then Some(GetContainerId) else None
    case _ => None
  }

  function ParsePayload(payload: seq<byte>): Option<Command> {
    if payload == [] then None else ParseBody(payload[0], payload[1..])
  }

  function ParseFrame(frame: seq<byte>): Option<Command> {
    if frame == [] || frame[0] as int != |frame| then None else ParsePayload(frame[1..])
  }

  /** The command of a secure code and its decrypted payload, which may carry padding. */
  function ParseSecurePayload(code: byte, payload: seq<byte>): Option<Command> {
    match code
    case 0x14 => Map(TakeCountedBlocks(payload), (t: Taken<seq<BlockListElement>>) => Read(t.value))
    case 0x44 => Map(TakeCountedBlocks(payload), (t: Taken<seq<BlockListElement>>) => ReadV2(t.value))
    case 0x16 =>
      var blocks := TakeCountedBlocks(payload);
      if blocks.None? || |blocks.value.rest| < |blocks.value.value| * BLOCK_SIZE then None
      else Some(Write(blocks.value.value, blocks.value.rest[..|blocks.value.value| * BLOCK_SIZE]))
    case 0x46 =>
      var blocks := TakeCountedBlocks(payload);
      if blocks.None? || |blocks.value.rest| < |blocks.value.value| * BLOCK_SIZE then None
      else Some(WriteV2(blocks.value.value, blocks.value.rest[..|blocks.value.value| * BLOCK_SIZE]))
    case 0x80 => if |payload| < 16 then None else Some(RegisterIssueId(payload[..8], payload[8..16], payload[16..]))
    case 0x82 => if |payload| < 2 then None else Some(RegisterArea(FromBytes(payload[0], payload[1]), payload[2..]))
    case 0x84 => if |payload| < 2 then None else Some(RegisterService(FromBytes(payload[0], payload[1]), payload[2..]))
    case 0x8E => if payload == [] then Some(ChangeSystemBlock) else None
    case _ => None
  }
}
