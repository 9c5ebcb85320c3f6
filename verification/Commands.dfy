/** The commands of FeliCa Standard cards: their fields, and the bytes these are written as. */
module Commands {
  import opened Bytes
  import opened Wrappers

  const MAX_SERVICE_CODES := 0x20
  const MAX_RW_SERVICE_CODES := 0x10
  const MAX_BLOCK_COUNT := 0xFF
  const MAX_NODE_CODES := 0x20
  const MAX_NODE_PROPERTY_CODES := 0x10
  const MAX_PACKET_LEN := 0xFF
  const BLOCK_SIZE := 16

  type EightBytes = b: seq<byte> | |b| == 8 witness [0, 0, 0, 0, 0, 0, 0, 0]
  type SixteenBytes = b: seq<byte> | |b| == 16 witness [0, 0, 0, 0, 0, 0, 0, 0, 0, 0, 0, 0, 0, 0, 0, 0]
  type Idm = EightBytes

  // ----------------------------------------------------------------- field values

  /** A block of one of the services a command names. */
  datatype BlockListElement = BlockListElement(number: u16, serviceCodeListIndex: byte, accessMode: byte)
  {
    /** The header of an element, without the bit that tells the short form. */
    function Header(): byte { accessMode % 8 * 16 + serviceCodeListIndex % 16 }

    /** Two bytes for a number below 256, three for others. */
    function Pack(): seq<byte> {
      if number < 256 then [0x80 + Header(), number] else [Header()] + LeBytes(number)
    }

    /** What four bits of index and three of access mode keep. */
    function Masked(): BlockListElement {
      BlockListElement(number, serviceCodeListIndex % 16, accessMode % 8)
    }

    predicate InRange() { serviceCodeListIndex < 16 && accessMode < 8 }
  }

  datatype ContainerProperty = Property1 | Property2 | UnknownProperty(index: u16)
  {
    function ToIndex(): u16 {
      match this
      case Property1 => 0
      case Property2 => 1
      case UnknownProperty(index) => index
    }

    static function FromIndex(index: u16): ContainerProperty {
      match index
      case 0 => Property1
      case 1 => Property2
      case _ => UnknownProperty(index)
    }
  }

  datatype NodePropertyType = ValueLimitedPurseService | MacCommunication
  {
    function ToByte(): byte { if this.ValueLimitedPurseService? then 0 else 1 }

    static function FromByte(value: byte): Option<NodePropertyType> {
      match value
      case 0 => Some(ValueLimitedPurseService)
      case 1 => Some(MacCommunication)
      case _ => None
    }
  }

  datatype EncryptionType = SrmType1 | SrmType2
  {
    function ToByte(): byte { if this.SrmType1? then 0 else 1 }

    static function FromByte(value: byte): Option<EncryptionType> {
      match value
      case 0 => Some(SrmType1)
      case 1 => Some(SrmType2)
      case _ => None
    }
  }

  datatype PacketType = NodeCodeSize2 | NodeCodeSize4
  {
    function ToByte(): byte { if this.NodeCodeSize2? then 0 else 1 }

    static function FromByte(value: byte): Option<PacketType> {
      match value
      case 0 => Some(NodeCodeSize2)
      case 1 => Some(NodeCodeSize4)
      case _ => None
    }
  }

  // --------------------------------------------------------------------- commands

  datatype Command =
    | Polling(systemCode: u16, requestCode: byte, timeSlots: byte)
    | RequestService(idm: Idm, serviceCodes: seq<u16>)
    | RequestResponse(idm: Idm)
    | ReadWithoutEncryption(idm: Idm, serviceCodes: seq<u16>, blockList: seq<BlockListElement>)
    | WriteWithoutEncryption(idm: Idm, serviceCodes: seq<u16>, blockList: seq<BlockListElement>, data: seq<byte>)
    | SearchServiceCode(idm: Idm, serviceIndex: u16)
    | RequestSystemCode(idm: Idm)
    | RequestBlockInformation(idm: Idm, nodeCodes: seq<u16>)
    | Authentication1(idm: Idm, areas: seq<u16>, services: seq<u16>, challenge1A: EightBytes)
    | Authentication2(idm: Idm, challenge2B: EightBytes)
    | Read(blockList: seq<BlockListElement>)
    | Write(blockList: seq<BlockListElement>, data: seq<byte>)
    | ReadV2(blockList: seq<BlockListElement>)
    | WriteV2(blockList: seq<BlockListElement>, data: seq<byte>)
    | RequestCodeList(idm: Idm, parentNodeCode: u16, index: u16)
    | RequestBlockInformationEx(idm: Idm, nodeCodes: seq<u16>)
    | SetParameter(idm: Idm, encryptionType: EncryptionType, packetType: PacketType)
    | GetContainerIssueInformation(idm: Idm)
    | GetAreaInformation(idm: Idm, nodeCode: u16)
    | GetNodeProperty(idm: Idm, nodePropertyType: NodePropertyType, nodeCodes: seq<u16>)
    | GetContainerProperty(property: ContainerProperty)
    | RequestServiceV2(idm: Idm, serviceCodes: seq<u16>)
    | GetSystemStatus(idm: Idm)
    | RequestProductInformation(idm: Idm)
    | RequestSpecificationVersion(idm: Idm)
    | ResetMode(idm: Idm)
    | Authentication1V2(idm: Idm, operationParameter: byte, nodes: seq<u16>, challenge1AV2: SixteenBytes)
    | Authentication2V2(idm: Idm, challenge2BV2: SixteenBytes)
    | GetContainerId
    | RegisterIssueId(issueId: EightBytes, issueParameter: EightBytes, package: seq<byte>)
    | RegisterArea(areaCode: u16, package: seq<byte>)
    | RegisterService(serviceCode: u16, package: seq<byte>)
    | ChangeSystemBlock
  {
    function Code(): byte {
      match this
      case Polling(_, _, _) => 0x00
      case RequestService(_, _) => 0x02
      case RequestResponse(_) => 0x04
      case ReadWithoutEncryption(_, _, _) => 0x06
      case WriteWithoutEncryption(_, _, _, _) => 0x08
      case SearchServiceCode(_, _) => 0x0A
      case RequestSystemCode(_) => 0x0C
      case RequestBlockInformation(_, _) => 0x0E
      case Authentication1(_, _, _, _) => 0x10
      case Authentication2(_, _) => 0x12
      case Read(_) => 0x14
      case Write(_, _) => 0x16
      case RequestCodeList(_, _, _) => 0x1A
      case RequestBlockInformationEx(_, _) => 0x1E
      case SetParameter(_, _, _) => 0x20
      case GetContainerIssueInformation(_) => 0x22
      case GetAreaInformation(_, _) => 0x24
      case GetNodeProperty(_, _, _) => 0x28
      case GetContainerProperty(_) => 0x2E
      case RequestServiceV2(_, _) => 0x32
      case GetSystemStatus(_) => 0x38
      case RequestProductInformation(_) => 0x3A
      case RequestSpecificationVersion(_) => 0x3C
      case ResetMode(_) => 0x3E
      case Authentication1V2(_, _, _, _) => 0x40
      case Authentication2V2(_, _) => 0x42
      case ReadV2(_) => 0x44
      case WriteV2(_, _) => 0x46
      case GetContainerId => 0x70
      case RegisterIssueId(_, _, _) => 0x80
      case RegisterArea(_, _) => 0x82
      case RegisterService(_, _) => 0x84
      case ChangeSystemBlock => 0x8E
    }

    /** A command that only travels encrypted, inside a session. */
    predicate IsSecure() { IsSecureCode(Code()) }

    /** The bytes behind the command code. */
    function Fields(): seq<byte> {
      match this
      case Polling(systemCode, requestCode, timeSlots) => BeBytes(systemCode) + [requestCode, timeSlots]
      case RequestService(idm, codes) => idm + Counted(codes)
      case RequestResponse(idm) => idm
      case ReadWithoutEncryption(idm, codes, blocks) => idm + (Counted(codes) + CountedBlocks(blocks))
      case WriteWithoutEncryption(idm, codes, blocks, data) => idm + (Counted(codes) + (CountedBlocks(blocks) + data))
      case SearchServiceCode(idm, index) => idm + LeBytes(index)
      case RequestSystemCode(idm) => idm
      case RequestBlockInformation(idm, codes) => idm + Counted(codes)
      case Authentication1(idm, areas, services, challenge) => idm + (Counted(areas) + (Counted(services) + challenge))
      case Authentication2(idm, challenge) => idm + challenge
      case Read(blocks) => CountedBlocks(blocks)
      case Write(blocks, data) => CountedBlocks(blocks) + data
      case ReadV2(blocks) => CountedBlocks(blocks)
      case WriteV2(blocks, data) => CountedBlocks(blocks) + data
      case RequestCodeList(idm, parent, index) => idm + (LeBytes(parent) + LeBytes(index))
      case RequestBlockInformationEx(idm, codes) => idm + Counted(codes)
      case SetParameter(idm, encryption, packet) => idm + [0, 0, 0, 0, encryption.ToByte(), packet.ToByte(), 0, 0]
      case GetContainerIssueInformation(idm) => idm + RESERVED
      case GetAreaInformation(idm, code) => idm + LeBytes(code)
      case GetNodeProperty(idm, kind, codes) => idm + ([kind.ToByte()] + Counted(codes))
      case GetContainerProperty(property) => LeBytes(property.ToIndex())
      case RequestServiceV2(idm, codes) => idm + Counted(codes)
      case GetSystemStatus(idm) => idm + RESERVED
      case RequestProductInformation(idm) => idm
      case RequestSpecificationVersion(idm) => idm + RESERVED
      case ResetMode(idm) => idm + RESERVED
      case Authentication1V2(idm, parameter, nodes, challenge) => idm + ([parameter] + (Counted(nodes) + challenge))
      case Authentication2V2(idm, challenge) => idm + challenge
      case GetContainerId => RESERVED
      case RegisterIssueId(issueId, parameter, package) => issueId + (parameter + package)
      case RegisterArea(code, package) => LeBytes(code) + package
      case RegisterService(code, package) => LeBytes(code) + package
      case ChangeSystemBlock => []
    }
  }

  const RESERVED: seq<byte> := [0, 0]

  predicate IsSecureCode(code: byte) {
    code == 0x14 || code == 0x16 || code == 0x44 || code == 0x46
    || code == 0x80 || code == 0x82 || code == 0x84 || code == 0x8E
  }

  predicate PollingRequestCode(code: byte) { code <= 2 }
  predicate PollingTimeSlots(slots: byte) { slots == 0 || slots == 1 || slots == 3 || slots == 7 || slots == 0xF }

  // ------------------------------------------------------------------------ lists

  function U16ListBytes(values: seq<u16>): (bytes: seq<byte>)
    ensures |bytes| == 2 * |values|
  {
    if values == [] then [] else LeBytes(values[0]) + U16ListBytes(values[1..])
  }

  /** A list behind its one-byte count. */
  function Counted(values: seq<u16>): seq<byte> { [|values| % 0x100] + U16ListBytes(values) }

  function BlockListBytes(blocks: seq<BlockListElement>): seq<byte> {
    if blocks == [] then [] else blocks[0].Pack() + BlockListBytes(blocks[1..])
  }

  function CountedBlocks(blocks: seq<BlockListElement>): seq<byte> { [|blocks| % 0x100] + BlockListBytes(blocks) }

  function MaskedBlocks(blocks: seq<BlockListElement>): (masked: seq<BlockListElement>)
    ensures |masked| == |blocks|
    ensures forall i | 0 <= i < |blocks| :: masked[i] == blocks[i].Masked()
  {
    seq(|blocks|, i requires 0 <= i < |blocks| => blocks[i].Masked())
  }

  // --------------------------------------------------------------------- encoding

  /** A refusal is reported; a count beyond its byte is a panic. */
  datatype Failure = Refused | Panicked

  datatype Encoding = Plain(frame: seq<byte>) | Secure(opcode: byte, payload: seq<byte>)

  /** Whether a list is longer than the count that is pushed for it can tell. */
  predicate CountOverflows(c: Command) {
    match c
    case RequestService(_, codes) => |codes| > 0xFF
    case ReadWithoutEncryption(_, codes, blocks) => |codes| > 0xFF || |blocks| > 0xFF
    case WriteWithoutEncryption(_, codes, blocks, _) => |codes| > 0xFF || |blocks| > 0xFF
    case RequestBlockInformation(_, codes) => |codes| > 0xFF
    case Read(blocks) => |blocks| > 0xFF
    case Write(blocks, _) => |blocks| > 0xFF
    case ReadV2(blocks) => |blocks| > 0xFF
    case WriteV2(blocks, _) => |blocks| > 0xFF
    case RequestBlockInformationEx(_, codes) => |codes| > 0xFF
    case GetNodeProperty(_, _, codes) => |codes| > 0xFF
    case RequestServiceV2(_, codes) => |codes| > 0xFF
    case _ => false
  }

  /** A packet behind its length byte, unless it is too long for one. */
  function FrameWithLengthPrefix(payload: seq<byte>): Result<seq<byte>, Failure> {
    if |payload| + 1 > MAX_PACKET_LEN then Err(Refused) else Ok([|payload| + 1] + payload)
  }

  function Encode(c: Command): Result<Encoding, Failure> {
    if c.Polling? && !(PollingRequestCode(c.requestCode) && PollingTimeSlots(c.timeSlots)) then Err(Refused)
    else if CountOverflows(c) then Err(Panicked)
    else if c.IsSecure() then Ok(Secure(c.Code(), c.Fields()))
    else
      match FrameWithLengthPrefix([c.Code()] + c.Fields())
      case Err(failure) => Err(failure)
      case Ok(frame) => Ok(Plain(frame))
  }

  function ToFrame(c: Command): Result<seq<byte>, Failure> {
    match Encode(c)
    case Err(failure) => Err(failure)
    case Ok(Secure(_, _)) => Err(Refused)
    case Ok(Plain(frame)) => Ok(frame)
  }

  // ------------------------------------------------------------------------ limits

  predicate InLimit(count: nat, max: nat) { 1 <= count <= max }

  /** The list limits, data lengths and defined codes the protocol sets a command. */
  predicate WithinLimits(c: Command) {
    match c
    case Polling(_, requestCode, timeSlots) => PollingRequestCode(requestCode) && PollingTimeSlots(timeSlots)
    case RequestService(_, codes) => InLimit(|codes|, MAX_SERVICE_CODES)
    case ReadWithoutEncryption(_, codes, blocks) =>
      InLimit(|codes|, MAX_RW_SERVICE_CODES) && InLimit(|blocks|, MAX_BLOCK_COUNT)
    case WriteWithoutEncryption(_, codes, blocks, data) =>
      InLimit(|codes|, MAX_RW_SERVICE_CODES) && InLimit(|blocks|, MAX_BLOCK_COUNT) && |data| == |blocks| * BLOCK_SIZE
    case RequestBlockInformation(_, codes) => InLimit(|codes|, MAX_NODE_CODES)
    case Authentication1(_, areas, services, _) => |areas| <= MAX_SERVICE_CODES && |services| <= MAX_SERVICE_CODES
    case Read(blocks) => InLimit(|blocks|, MAX_BLOCK_COUNT)
    case Write(blocks, data) => InLimit(|blocks|, MAX_BLOCK_COUNT) && |data| == |blocks| * BLOCK_SIZE
    case ReadV2(blocks) => InLimit(|blocks|, MAX_BLOCK_COUNT)
    case WriteV2(blocks, data) => InLimit(|blocks|, MAX_BLOCK_COUNT) && |data| == |blocks| * BLOCK_SIZE
    case RequestBlockInformationEx(_, codes) => InLimit(|codes|, MAX_NODE_CODES)
    case GetNodeProperty(_, _, codes) => InLimit(|codes|, MAX_NODE_PROPERTY_CODES)
    case RequestServiceV2(_, codes) => InLimit(|codes|, MAX_SERVICE_CODES)
    case Authentication1V2(_, _, nodes, _) => InLimit(|nodes|, MAX_SERVICE_CODES)
    case _ => true
  }

  /** The command whose fields are those the bytes of `c` can express. */
  function Canonical(c: Command): Command {
    match c
    case ReadWithoutEncryption(idm, codes, blocks) => ReadWithoutEncryption(idm, codes, MaskedBlocks(blocks))
    case WriteWithoutEncryption(idm, codes, blocks, data) =>
      WriteWithoutEncryption(idm, codes, MaskedBlocks(blocks), data)
    case Read(blocks) => Read(MaskedBlocks(blocks))
    case Write(blocks, data) => Write(MaskedBlocks(blocks), data)
    case ReadV2(blocks) => ReadV2(MaskedBlocks(blocks))
    case WriteV2(blocks, data) => WriteV2(MaskedBlocks(blocks), data)
    case GetContainerProperty(property) => GetContainerProperty(ContainerProperty.FromIndex(property.ToIndex()))
    case _ => c
  }

  /** The fields a command's bytes can express: index below 16, mode below 8, properties by their names. */
  predicate IsExpressible(c: Command) {
    match c
    case ReadWithoutEncryption(_, _, blocks) => BlocksInRange(blocks)
    case WriteWithoutEncryption(_, _, blocks, _) => BlocksInRange(blocks)
    case Read(blocks) => BlocksInRange(blocks)
    case Write(blocks, _) => BlocksInRange(blocks)
    case ReadV2(blocks) => BlocksInRange(blocks)
    case WriteV2(blocks, _) => BlocksInRange(blocks)
    case GetContainerProperty(property) => property.UnknownProperty? ==> property.index > 1
    case _ => true
  }

  predicate BlocksInRange(blocks: seq<BlockListElement>) {
    forall i | 0 <= i < |blocks| :: blocks[i].InRange()
  }

  lemma MaskedIsInRange(blocks: seq<BlockListElement>)
    ensures MaskedBlocks(blocks) == blocks <==> BlocksInRange(blocks)
  {
    if MaskedBlocks(blocks) == blocks {
      forall i | 0 <= i < |blocks|
        ensures blocks[i].InRange()
      {
        assert blocks[i] == blocks[i].Masked();
      }
    } else {
      var i :| 0 <= i < |blocks| && blocks[i].Masked() != blocks[i];
    }
  }

  lemma CanonicalIsExpressible(c: Command)
    ensures Canonical(c) == c <==> IsExpressible(c)
  {
    hide MaskedBlocks, BlocksInRange, Command.Code, Command.Fields;
    match c
    case ReadWithoutEncryption(_, _, blocks) => MaskedIsInRange(blocks);
    case WriteWithoutEncryption(_, _, blocks, _) => MaskedIsInRange(blocks);
    case Read(blocks) => MaskedIsInRange(blocks);
    case Write(blocks, _) => MaskedIsInRange(blocks);
    case ReadV2(blocks) => MaskedIsInRange(blocks);
    case WriteV2(blocks, _) => MaskedIsInRange(blocks);
    case _ =>
  }
}
