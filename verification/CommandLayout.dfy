/**
 Where each field of a command stands in the bytes that are sent, which commands are
 refused and which panic, and the limits of their lists: by positions and numbers.
 */
module CommandLayout {
  import opened Bytes
  import opened Wrappers
  import opened Commands

  // ---------------------------------------------------------------- fields at positions

  predicate BytesAt(bytes: seq<byte>, p: nat, field: seq<byte>) {
    p + |field| <= |bytes| && bytes[p..p + |field|] == field
  }

  /** Two bytes that say a number, low byte first. */
  predicate LowFirstAt(bytes: seq<byte>, p: nat, value: u16) {
    p + 2 <= |bytes| && bytes[p] as int + 256 * bytes[p + 1] as int == value
  }

  /** A count, and that many numbers of two bytes. */
  predicate ListAt(bytes: seq<byte>, p: nat, values: seq<u16>) {
    && p + 1 + 2 * |values| <= |bytes| && bytes[p] as int == |values|
    && forall i | 0 <= i < |values| :: LowFirstAt(bytes, p + 1 + 2 * i, values[i])
  }

  /** A block list element: four bits of index, three of mode, and the top bit if the number takes one byte. */
  predicate ElementAt(bytes: seq<byte>, p: nat, e: BlockListElement) {
    if e.number < 256 then
      && p + 2 <= |bytes| && bytes[p] as int == 128 + 16 * (e.accessMode % 8) + e.serviceCodeListIndex % 16
      && bytes[p + 1] as int == e.number
    else
      && p + 3 <= |bytes| && bytes[p] as int == 16 * (e.accessMode % 8) + e.serviceCodeListIndex % 16
      && LowFirstAt(bytes, p + 1, e.number)
  }

  function ElementSize(e: BlockListElement): nat { if e.number < 256 then 2 else 3 }

  function ElementsSize(blocks: seq<BlockListElement>): nat {
    if blocks == [] then 0 else ElementSize(blocks[0]) + ElementsSize(blocks[1..])
  }

  predicate ElementsAt(bytes: seq<byte>, p: nat, blocks: seq<BlockListElement>)
    decreases |blocks|
  {
    blocks == [] || (ElementAt(bytes, p, blocks[0]) && ElementsAt(bytes, p + ElementSize(blocks[0]), blocks[1..]))
  }

  predicate BlocksAt(bytes: seq<byte>, p: nat, blocks: seq<BlockListElement>) {
    p < |bytes| && bytes[p] as int == |blocks| && ElementsAt(bytes, p + 1, blocks)
  }

  // ------------------------------------------------------------------ the layouts

  /** A plain command's frame: its length, the command code, and the fields from byte 2 on. */
  predicate IsFrameOf(f: seq<byte>, c: Command) {
    && |f| >= 2 && f[0] as int == |f| <= 255
    && match c
       case Polling(systemCode, requestCode, timeSlots) =>
         && |f| == 6 && f[1] == 0x00 && 256 * f[2] as int + f[3] as int == systemCode
         && f[4] == requestCode && f[5] == timeSlots
       case RequestService(idm, codes) =>
         |f| == 11 + 2 * |codes| && f[1] == 0x02 && BytesAt(f, 2, idm) && ListAt(f, 10, codes)
       case RequestResponse(idm) => |f| == 10 && f[1] == 0x04 && BytesAt(f, 2, idm)
       case ReadWithoutEncryption(idm, codes, blocks) =>
         && |f| == 12 + 2 * |codes| + ElementsSize(blocks) && f[1] == 0x06
         && BytesAt(f, 2, idm) && ListAt(f, 10, codes) && BlocksAt(f, 11 + 2 * |codes|, blocks)
       case WriteWithoutEncryption(idm, codes, blocks, data) =>
         && |f| == 12 + 2 * |codes| + ElementsSize(blocks) + |data| && f[1] == 0x08
         && BytesAt(f, 2, idm) && ListAt(f, 10, codes) && BlocksAt(f, 11 + 2 * |codes|, blocks)
         && BytesAt(f, 12 + 2 * |codes| + ElementsSize(blocks), data)
       case SearchServiceCode(idm, index) =>
         |f| == 12 && f[1] == 0x0A && BytesAt(f, 2, idm) && LowFirstAt(f, 10, index)
       case RequestSystemCode(idm) => |f| == 10 && f[1] == 0x0C && BytesAt(f, 2, idm)
       case RequestBlockInformation(idm, codes) =>
         |f| == 11 + 2 * |codes| && f[1] == 0x0E && BytesAt(f, 2, idm) && ListAt(f, 10, codes)
       case Authentication1(idm, areas, services, challenge) =>
         && |f| == 20 + 2 * |areas| + 2 * |services| && f[1] == 0x10 && BytesAt(f, 2, idm) && ListAt(f, 10, areas)
         && ListAt(f, 11 + 2 * |areas|, services) && BytesAt(f, 12 + 2 * |areas| + 2 * |services|, challenge)
       case Authentication2(idm, challenge) =>
         |f| == 18 && f[1] == 0x12 && BytesAt(f, 2, idm) && BytesAt(f, 10, challenge)
       case RequestCodeList(idm, parent, index) =>
         |f| == 14 && f[1] == 0x1A && BytesAt(f, 2, idm) && LowFirstAt(f, 10, parent) && LowFirstAt(f, 12, index)
       case RequestBlockInformationEx(idm, codes) =>
         |f| == 11 + 2 * |codes| && f[1] == 0x1E && BytesAt(f, 2, idm) && ListAt(f, 10, codes)
       case SetParameter(idm, encryption, packet) =>
         && |f| == 18 && f[1] == 0x20 && BytesAt(f, 2, idm) && BytesAt(f, 10, [0, 0, 0, 0])
         && f[14] == (if encryption.SrmType1? then 0 else 1) && f[15] == (if packet.NodeCodeSize2? then 0 else 1)
         && BytesAt(f, 16, [0, 0])
       case GetContainerIssueInformation(idm) =>
         |f| == 12 && f[1] == 0x22 && BytesAt(f, 2, idm) && BytesAt(f, 10, [0, 0])
       case GetAreaInformation(idm, code) =>
         |f| == 12 && f[1] == 0x24 && BytesAt(f, 2, idm) && LowFirstAt(f, 10, code)
       case GetNodeProperty(idm, kind, codes) =>
         && |f| == 12 + 2 * |codes| && f[1] == 0x28 && BytesAt(f, 2, idm)
         && f[10] == (if kind.ValueLimitedPurseService? then 0 else 1) && ListAt(f, 11, codes)
       case GetContainerProperty(property) =>
         && |f| == 4 && f[1] == 0x2E
         && LowFirstAt(f, 2, match property
                             case Property1 => 0
                             case Property2 => 1
                             case UnknownProperty(index) => index)
       case RequestServiceV2(idm, codes) =>
         |f| == 11 + 2 * |codes| && f[1] == 0x32 && BytesAt(f, 2, idm) && ListAt(f, 10, codes)
       case GetSystemStatus(idm) => |f| == 12 && f[1] == 0x38 && BytesAt(f, 2, idm) && BytesAt(f, 10, [0, 0])
       case RequestProductInformation(idm) => |f| == 10 && f[1] == 0x3A && BytesAt(f, 2, idm)
       case RequestSpecificationVersion(idm) =>
         |f| == 12 && f[1] == 0x3C && BytesAt(f, 2, idm) && BytesAt(f, 10, [0, 0])
       case ResetMode(idm) => |f| == 12 && f[1] == 0x3E && BytesAt(f, 2, idm) && BytesAt(f, 10, [0, 0])
       case Authentication1V2(idm, parameter, nodes, challenge) =>
         && |f| == 28 + 2 * |nodes| && f[1] == 0x40 && BytesAt(f, 2, idm) && f[10] == parameter
         && ListAt(f, 11, nodes) && BytesAt(f, 12 + 2 * |nodes|, challenge)
       case Authentication2V2(idm, challenge) =>
         |f| == 26 && f[1] == 0x42 && BytesAt(f, 2, idm) && BytesAt(f, 10, challenge)
       case GetContainerId => |f| == 4 && f[1] == 0x70 && BytesAt(f, 2, [0, 0])
       case _ => false
  }

  /** A secure command's code, and its payload from byte 0 on. */
  predicate IsPayloadOf(opcode: byte, f: seq<byte>, c: Command) {
    match c
    case Read(blocks) => opcode == 0x14 && |f| == 1 + ElementsSize(blocks) && BlocksAt(f, 0, blocks)
    case Write(blocks, data) =>
      && opcode == 0x16 && |f| == 1 + ElementsSize(blocks) + |data|
      && BlocksAt(f, 0, blocks) && BytesAt(f, 1 + ElementsSize(blocks), data)
    case ReadV2(blocks) => opcode == 0x44 && |f| == 1 + ElementsSize(blocks) && BlocksAt(f, 0, blocks)
    case WriteV2(blocks, data) =>
      && opcode == 0x46 && |f| == 1 + ElementsSize(blocks) + |data|
      && BlocksAt(f, 0, blocks) && BytesAt(f, 1 + ElementsSize(blocks), data)
    case RegisterIssueId(issueId, parameter, package) =>
      && opcode == 0x80 && |f| == 16 + |package|
      && BytesAt(f, 0, issueId) && BytesAt(f, 8, parameter) && BytesAt(f, 16, package)
    case RegisterArea(code, package) =>
      opcode == 0x82 && |f| == 2 + |package| && LowFirstAt(f, 0, code) && BytesAt(f, 2, package)
    case RegisterService(code, package) =>
      opcode == 0x84 && |f| == 2 + |package| && LowFirstAt(f, 0, code) && BytesAt(f, 2, package)
    case ChangeSystemBlock => opcode == 0x8E && |f| == 0
    case _ => false
  }

  // ------------------------------------------------------------------------- proofs

  lemma {:induction false} ValueAt(before: seq<byte>, values: seq<u16>, after: seq<byte>, i: nat)
    requires i < |values|
    ensures LowFirstAt(before + (U16ListBytes(values) + after), |before| + 2 * i, values[i])
    decreases |values|
  {
    var rest := U16ListBytes(values[1..]) + after;
    var next := before + LeBytes(values[0]);
    assert before + (U16ListBytes(values) + after) == before + (LeBytes(values[0]) + rest) == next + rest;
    if i == 0 {
      FirstValueAt(before, values[0], rest);
    } else {
      ValueAt(next, values[1..], after, i - 1);
    }
  }

  lemma FirstValueAt(before: seq<byte>, value: u16, after: seq<byte>)
    ensures LowFirstAt(before + (LeBytes(value) + after), |before|, value)
  {
  }

  lemma CountedAt(before: seq<byte>, values: seq<u16>, after: seq<byte>)
    requires |values| <= 0xFF
    ensures ListAt(before + (Counted(values) + after), |before|, values)
  {
    var bytes := before + (Counted(values) + after);
    assert bytes == (before + [|values|]) + (U16ListBytes(values) + after);
    hide LowFirstAt, U16ListBytes;
    forall i | 0 <= i < |values|
      ensures LowFirstAt(bytes, |before| + 1 + 2 * i, values[i])
    {
      ValueAt(before + [|values|], values, after, i);
    }
  }

  lemma FieldAt(before: seq<byte>, field: seq<byte>, after: seq<byte>)
    ensures BytesAt(before + (field + after), |before|, field)
  {
  }

  lemma PackedAt(before: seq<byte>, e: BlockListElement, after: seq<byte>)
    ensures ElementAt(before + (e.Pack() + after), |before|, e) && |e.Pack()| == ElementSize(e)
  {
    var bytes := before + (e.Pack() + after);
    assert bytes[|before|] == e.Pack()[0] && bytes[|before| + 1] == e.Pack()[1];
    if e.number >= 256 {
      assert bytes[|before| + 2] == e.Pack()[2];
    }
  }

  lemma {:induction false} PackedListAt(before: seq<byte>, blocks: seq<BlockListElement>, after: seq<byte>)
    ensures ElementsAt(before + (BlockListBytes(blocks) + after), |before|, blocks)
    ensures |BlockListBytes(blocks)| == ElementsSize(blocks)
    decreases |blocks|
  {
    if blocks != [] {
      var first, rest := blocks[0].Pack(), BlockListBytes(blocks[1..]);
      PackedAt(before, blocks[0], rest + after);
      PackedListAt(before + first, blocks[1..], after);
      hide ElementAt, BlockListElement.Pack;
      Regrouped(before, first, rest, after);
      assert BlockListBytes(blocks) == first + rest;
    }
  }

  lemma Regrouped(a: seq<byte>, b: seq<byte>, c: seq<byte>, d: seq<byte>)
    ensures a + (b + (c + d)) == a + ((b + c) + d) == (a + b) + (c + d)
  {
  }

  lemma CountedBlocksAt(before: seq<byte>, blocks: seq<BlockListElement>, after: seq<byte>)
    requires |blocks| <= 0xFF
    ensures BlocksAt(before + (CountedBlocks(blocks) + after), |before|, blocks)
    ensures |CountedBlocks(blocks)| == 1 + ElementsSize(blocks)
  {
    var bytes := before + (CountedBlocks(blocks) + after);
    assert bytes == (before + [|blocks|]) + (BlockListBytes(blocks) + after);
    PackedListAt(before + [|blocks|], blocks, after);
  }

  // ---------------------------------------------------------------------- the theorems

  /** A command whose frame is sent unencrypted, behind its length and code. */
  predicate Framed(c: Command, f: seq<byte>) {
    && !CountOverflows(c) && !c.IsSecure()
    && |c.Fields()| + 2 <= 255 && f == [|c.Fields()| + 2, c.Code()] + c.Fields()
  }

  lemma PrintsAreFramed(c: Command)
    ensures ToFrame(c).Ok? ==> Framed(c, ToFrame(c).value)
  {
    if ToFrame(c).Ok? {
      var payload := [c.Code()] + c.Fields();
      assert [|payload| + 1] + payload == [|c.Fields()| + 2, c.Code()] + c.Fields();
    }
  }

  /** The frame of a list of codes behind an IDm. */
  lemma IdmListAt(f: seq<byte>, head: seq<byte>, idm: Idm, codes: seq<u16>, after: seq<byte>)
    requires |head| == 2 && |codes| <= 0xFF && f == head + (idm + (Counted(codes) + after))
    ensures BytesAt(f, 2, idm) && ListAt(f, 10, codes)
    ensures f == (head + idm + Counted(codes)) + after && |head + idm + Counted(codes)| == 11 + 2 * |codes|
  {
    FieldAt(head, idm, Counted(codes) + after);
    CountedAt(head + idm, codes, after);
    assert f == (head + idm) + (Counted(codes) + after);
  }

  /** A field behind an IDm. */
  lemma IdmFieldAt(f: seq<byte>, head: seq<byte>, idm: Idm, field: seq<byte>)
    requires |head| == 2 && f == head + (idm + field)
    ensures BytesAt(f, 2, idm) && BytesAt(f, 10, field)
  {
    assert f == (head + idm) + field;
  }

  lemma ReadAt(f: seq<byte>, c: Command)
    requires Framed(c, f) && c.ReadWithoutEncryption?
    ensures IsFrameOf(f, c)
  {
    hide ElementsAt, Counted, CountedBlocks;
    var head := [|c.Fields()| + 2, c.Code()];
    assert CountedBlocks(c.blockList) + [] == CountedBlocks(c.blockList);
    IdmListAt(f, head, c.idm, c.serviceCodes, CountedBlocks(c.blockList) + []);
    CountedBlocksAt(head + c.idm + Counted(c.serviceCodes), c.blockList, []);
  }

  lemma WriteAt(f: seq<byte>, c: Command)
    requires Framed(c, f) && c.WriteWithoutEncryption?
    ensures IsFrameOf(f, c)
  {
    hide ElementsAt, Counted, CountedBlocks;
    var head := [|c.Fields()| + 2, c.Code()];
    IdmListAt(f, head, c.idm, c.serviceCodes, CountedBlocks(c.blockList) + c.data);
    var front := head + c.idm + Counted(c.serviceCodes);
    CountedBlocksAt(front, c.blockList, c.data);
    assert f == (front + CountedBlocks(c.blockList)) + c.data;
  }

  /** Two lists and a field behind an IDm. */
  lemma TwoListsAt(f: seq<byte>, head: seq<byte>, idm: Idm, a: seq<u16>, b: seq<u16>, field: seq<byte>)
    requires |head| == 2 && |a| <= 0xFF && |b| <= 0xFF
    requires f == head + (idm + (Counted(a) + (Counted(b) + field)))
    ensures BytesAt(f, 2, idm) && ListAt(f, 10, a) && ListAt(f, 11 + 2 * |a|, b)
    ensures BytesAt(f, 12 + 2 * |a| + 2 * |b|, field) && |f| == 12 + 2 * |a| + 2 * |b| + |field|
  {
    IdmListAt(f, head, idm, a, Counted(b) + field);
    var front := head + idm + Counted(a);
    CountedAt(front, b, field);
    hide ListAt;
    assert f == (front + Counted(b)) + field;
  }

  /** A byte, a list and a field behind an IDm. */
  lemma ByteListAt(f: seq<byte>, head: seq<byte>, idm: Idm, b: byte, codes: seq<u16>, field: seq<byte>)
    requires |head| == 2 && |codes| <= 0xFF && f == head + (idm + ([b] + (Counted(codes) + field)))
    ensures BytesAt(f, 2, idm) && |f| == 12 + 2 * |codes| + |field| && f[10] == b && ListAt(f, 11, codes)
    ensures BytesAt(f, 12 + 2 * |codes|, field)
  {
    FieldAt(head, idm, [b] + (Counted(codes) + field));
    var front := head + idm + [b];
    assert f == front + (Counted(codes) + field);
    CountedAt(front, codes, field);
    hide ListAt;
    assert f == (front + Counted(codes)) + field;
  }

  lemma AuthenticationAt(f: seq<byte>, c: Command)
    requires Framed(c, f) && (c.Authentication1? || c.Authentication1V2?)
    ensures IsFrameOf(f, c)
  {
    hide ListAt, BytesAt;
    var head := [|c.Fields()| + 2, c.Code()];
    if c.Authentication1? {
      TwoListsAt(f, head, c.idm, c.areas, c.services, c.challenge1A);
    } else {
      ByteListAt(f, head, c.idm, c.operationParameter, c.nodes, c.challenge1AV2);
    }
    assert f[0] == head[0] && f[1] == head[1];
  }

  lemma GetNodePropertyAt(f: seq<byte>, c: Command)
    requires Framed(c, f) && c.GetNodeProperty?
    ensures IsFrameOf(f, c)
  {
    hide ListAt, BytesAt;
    var head := [|c.Fields()| + 2, c.Code()];
    assert Counted(c.nodeCodes) + [] == Counted(c.nodeCodes);
    ByteListAt(f, head, c.idm, c.nodePropertyType.ToByte(), c.nodeCodes, []);
    assert f[0] == head[0] && f[1] == head[1];
  }

  predicate IsIdmList(c: Command) {
    c.RequestService? || c.RequestServiceV2? || c.RequestBlockInformation? || c.RequestBlockInformationEx?
  }

  lemma IdmListsAt(f: seq<byte>, c: Command)
    requires Framed(c, f) && IsIdmList(c)
    ensures IsFrameOf(f, c)
  {
    hide ListAt, Counted, BytesAt;
    var head := [|c.Fields()| + 2, c.Code()];
    var codes := match c
      case RequestService(_, codes) => codes
      case RequestServiceV2(_, codes) => codes
      case RequestBlockInformation(_, codes) => codes
      case RequestBlockInformationEx(_, codes) => codes
      case _ => [];
    assert Counted(codes) + [] == Counted(codes);
    IdmListAt(f, head, c.idm, codes, []);
    assert f[0] == head[0] && f[1] == head[1];
  }

  predicate HasLists(c: Command) {
    || IsIdmList(c) || c.ReadWithoutEncryption? || c.WriteWithoutEncryption? || c.GetNodeProperty?
    || c.Authentication1? || c.Authentication1V2?
  }

  /** The bytes behind the IDm of a command that has no list. */
  function BehindIdm(c: Command): seq<byte> {
    match c
    case SearchServiceCode(_, index) => LeBytes(index)
    case Authentication2(_, challenge) => challenge
    case Authentication2V2(_, challenge) => challenge
    case RequestCodeList(_, parent, index) => LeBytes(parent) + LeBytes(index)
    case SetParameter(_, encryption, packet) => [0, 0, 0, 0, encryption.ToByte(), packet.ToByte(), 0, 0]
    case GetAreaInformation(_, code) => LeBytes(code)
    case GetContainerIssueInformation(_) => RESERVED
    case GetSystemStatus(_) => RESERVED
    case RequestSpecificationVersion(_) => RESERVED
    case ResetMode(_) => RESERVED
    case _ => []
  }

  predicate IsFixed(c: Command) {
    !HasLists(c) && !c.IsSecure() && !c.Polling? && !c.GetContainerProperty? && !c.GetContainerId?
  }

  lemma FixedFields(c: Command)
    requires IsFixed(c)
    ensures c.Fields() == c.idm + BehindIdm(c)
  {
    assert c.idm + [] == c.idm;
  }

  lemma FixedAt(f: seq<byte>, c: Command)
    requires Framed(c, f) && IsFixed(c)
    ensures IsFrameOf(f, c)
  {
    var head, field := [|c.Fields()| + 2, c.Code()], BehindIdm(c);
    FixedFields(c);
    IdmFieldAt(f, head, c.idm, field);
    assert f[0] == head[0] && f[1] == head[1] && |f| == 10 + |field|;
    FieldsBehindIdm(f, c);
    hide Command.Fields, BehindIdm, BytesAt, LowFirstAt, HasLists;
  }

  lemma FieldsBehindIdm(f: seq<byte>, c: Command)
    requires IsFixed(c) && |f| == 10 + |BehindIdm(c)| && BytesAt(f, 10, BehindIdm(c))
    ensures |f| == if c.SetParameter? || c.Authentication2? then 18 else if c.Authentication2V2? then 26
                   else if c.RequestCodeList? then 14
                   else if c.RequestResponse? || c.RequestSystemCode? || c.RequestProductInformation? then 10
                   else 12
    ensures c.SearchServiceCode? ==> LowFirstAt(f, 10, c.serviceIndex)
    ensures c.GetAreaInformation? ==> LowFirstAt(f, 10, c.nodeCode)
    ensures c.RequestCodeList? ==> LowFirstAt(f, 10, c.parentNodeCode) && LowFirstAt(f, 12, c.index)
    ensures c.Authentication2? ==> BytesAt(f, 10, c.challenge2B)
    ensures c.Authentication2V2? ==> BytesAt(f, 10, c.challenge2BV2)
    ensures c.GetContainerIssueInformation? || c.GetSystemStatus? || c.RequestSpecificationVersion? || c.ResetMode? ==>
              BytesAt(f, 10, [0, 0])
    ensures c.SetParameter? ==>
              && BytesAt(f, 10, [0, 0, 0, 0]) && BytesAt(f, 16, [0, 0])
              && f[14] == (if c.encryptionType.SrmType1? then 0 else 1)
              && f[15] == (if c.packetType.NodeCodeSize2? then 0 else 1)
  {
    var field := BehindIdm(c);
    assert f[10..] == field;
    if c.SetParameter? {
      ParametersAt(f, field, c.encryptionType.ToByte(), c.packetType.ToByte());
    } else if c.RequestCodeList? {
      assert f[12] == f[10..][2] && f[13] == f[10..][3];
    }
  }

  lemma ParametersAt(f: seq<byte>, field: seq<byte>, encryption: byte, packet: byte)
    requires field == [0, 0, 0, 0, encryption, packet, 0, 0] && |f| == 18 && f[10..] == field
    ensures BytesAt(f, 10, [0, 0, 0, 0]) && f[14] == encryption && f[15] == packet && BytesAt(f, 16, [0, 0])
  {
    assert f[10..14] == f[10..][..4] && f[14] == f[10..][4] && f[15] == f[10..][5] && f[16..18] == f[10..][6..];
  }

  /** In every frame a command prints, each field stands at its place, from the length and code to the last byte. */
  lemma FrameIsLaidOut(c: Command)
    ensures ToFrame(c).Ok? ==> IsFrameOf(ToFrame(c).value, c)
  {
    if ToFrame(c).Ok? {
      var f := ToFrame(c).value;
      PrintsAreFramed(c);
      FramedIsLaidOut(f, c);
    }
  }

  lemma FramedIsLaidOut(f: seq<byte>, c: Command)
    requires Framed(c, f)
    ensures IsFrameOf(f, c)
  {
    if IsIdmList(c) {
      IdmListsAt(f, c);
    } else if c.ReadWithoutEncryption? {
      ReadAt(f, c);
    } else if c.WriteWithoutEncryption? {
      WriteAt(f, c);
    } else if c.GetNodeProperty? {
      GetNodePropertyAt(f, c);
    } else if c.Authentication1? || c.Authentication1V2? {
      AuthenticationAt(f, c);
    } else if !c.Polling? && !c.GetContainerProperty? && !c.GetContainerId? {
      FixedAt(f, c);
    }
  }

  predicate IsRegistration(c: Command) {
    c.RegisterIssueId? || c.RegisterArea? || c.RegisterService? || c.ChangeSystemBlock?
  }

  lemma BlockPayloadIsLaidOut(c: Command)
    requires c.IsSecure() && !IsRegistration(c) && !CountOverflows(c)
    ensures IsPayloadOf(c.Code(), c.Fields(), c)
  {
    hide BlocksAt, BytesAt, CountedBlocks, ElementsSize;
    var f := c.Fields();
    match c
    case Read(blocks) => OnlyBlocksAt(f, blocks);
    case ReadV2(blocks) => OnlyBlocksAt(f, blocks);
    case Write(blocks, data) => PayloadBlocksAt(f, blocks, data);
    case WriteV2(blocks, data) => PayloadBlocksAt(f, blocks, data);
  }

  lemma RegistrationIsLaidOut(c: Command)
    requires IsRegistration(c)
    ensures IsPayloadOf(c.Code(), c.Fields(), c)
  {
    hide BytesAt;
    var f := c.Fields();
    match c
    case RegisterIssueId(issueId, parameter, package) => RegistrationAt(f, issueId, parameter, package);
    case RegisterArea(code, package) => FieldBehindCode(f, code, package);
    case RegisterService(code, package) => FieldBehindCode(f, code, package);
    case ChangeSystemBlock =>
  }

  /** So it does in every secure payload. */
  lemma PayloadIsLaidOut(c: Command)
    requires c.IsSecure()
    ensures Encode(c).Ok? ==>
              Encode(c).value.Secure? && IsPayloadOf(Encode(c).value.opcode, Encode(c).value.payload, c)
  {
    if Encode(c).Ok? {
      hide IsPayloadOf, Command.Fields;
      if IsRegistration(c) {
        RegistrationIsLaidOut(c);
      } else {
        BlockPayloadIsLaidOut(c);
      }
    }
  }

  lemma FieldBehindCode(f: seq<byte>, code: u16, package: seq<byte>)
    requires f == LeBytes(code) + package
    ensures |f| == 2 + |package| && LowFirstAt(f, 0, code) && BytesAt(f, 2, package)
  {
  }

  lemma OnlyBlocksAt(f: seq<byte>, blocks: seq<BlockListElement>)
    requires |blocks| <= 0xFF && f == CountedBlocks(blocks)
    ensures |f| == 1 + ElementsSize(blocks) && BlocksAt(f, 0, blocks)
  {
    hide CountedBlocks, BlocksAt;
    assert f == CountedBlocks(blocks) + [];
    PayloadBlocksAt(f, blocks, []);
  }

  lemma RegistrationAt(f: seq<byte>, issueId: EightBytes, parameter: EightBytes, package: seq<byte>)
    requires f == issueId + (parameter + package)
    ensures |f| == 16 + |package| && BytesAt(f, 0, issueId) && BytesAt(f, 8, parameter) && BytesAt(f, 16, package)
  {
    assert f == (issueId + parameter) + package;
  }

  lemma PayloadBlocksAt(f: seq<byte>, blocks: seq<BlockListElement>, data: seq<byte>)
    requires |blocks| <= 0xFF && f == CountedBlocks(blocks) + data
    ensures |f| == 1 + ElementsSize(blocks) + |data| && BlocksAt(f, 0, blocks)
    ensures BytesAt(f, 1 + ElementsSize(blocks), data)
  {
    hide CountedBlocks, ElementsSize, ElementsAt;
    CountedBlocksAt([], blocks, data);
    assert [] + (CountedBlocks(blocks) + data) == f;
  }

  // --------------------------------------------------------- refusals, panics and limits

  /** The longest of the lists a command counts in one byte, where that counting can panic. */
  function LongestCounted(c: Command): nat {
    match c
    case RequestService(_, codes) => |codes|
    case RequestServiceV2(_, codes) => |codes|
    case RequestBlockInformation(_, codes) => |codes|
    case RequestBlockInformationEx(_, codes) => |codes|
    case GetNodeProperty(_, _, codes) => |codes|
    case ReadWithoutEncryption(_, codes, blocks) => Max(|codes|, |blocks|)
    case WriteWithoutEncryption(_, codes, blocks, _) => Max(|codes|, |blocks|)
    case Read(blocks) => |blocks|
    case ReadV2(blocks) => |blocks|
    case Write(blocks, _) => |blocks|
    case WriteV2(blocks, _) => |blocks|
    case _ => 0
  }

  function Max(a: nat, b: nat): nat { if a < b then b else a }

  /**
   A poll for anything but request codes 0 to 2 and 1, 2, 4, 8 or 16 slots is refused; a list
   beyond 255 panics; a plain command of more than 255 bytes is refused; all else is sent.
   */
  lemma WhenEncoded(c: Command)
    ensures var result := Encode(c);
            var badPoll := c.Polling? && (c.requestCode > 2 || c.timeSlots !in [0, 1, 3, 7, 15]);
            && (result == Err(Panicked) <==> LongestCounted(c) > 255)
            && (result == Err(Refused)
                <==> badPoll || (!c.IsSecure() && LongestCounted(c) <= 255 && |c.Fields()| + 2 > 255))
  {
  }

  /** Which codes are those of commands that only travel encrypted. */
  lemma SecureCodesAre(code: byte)
    ensures IsSecureCode(code) <==> code in [0x14, 0x16, 0x44, 0x46, 0x80, 0x82, 0x84, 0x8E]
  {
  }

  /** The limits by numbers: 1 to 32 codes, or 16, and 1 to 255 blocks, with 16 bytes each in a write. */
  lemma LimitsAre(c: Command)
    ensures WithinLimits(c)
            <==> match c
                 case Polling(_, requestCode, timeSlots) => requestCode <= 2 && timeSlots in [0, 1, 3, 7, 15]
                 case RequestService(_, codes) => 1 <= |codes| <= 32
                 case RequestServiceV2(_, codes) => 1 <= |codes| <= 32
                 case RequestBlockInformation(_, codes) => 1 <= |codes| <= 32
                 case RequestBlockInformationEx(_, codes) => 1 <= |codes| <= 32
                 case GetNodeProperty(_, _, codes) => 1 <= |codes| <= 16
                 case Authentication1(_, areas, services, _) => |areas| <= 32 && |services| <= 32
                 case Authentication1V2(_, _, nodes, _) => 1 <= |nodes| <= 32
                 case ReadWithoutEncryption(_, codes, blocks) => 1 <= |codes| <= 16 && 1 <= |blocks| <= 255
                 case WriteWithoutEncryption(_, codes, blocks, data) =>
                   1 <= |codes| <= 16 && 1 <= |blocks| <= 255 && |data| == 16 * |blocks|
                 case Read(blocks) => 1 <= |blocks| <= 255
                 case ReadV2(blocks) => 1 <= |blocks| <= 255
                 case Write(blocks, data) => 1 <= |blocks| <= 255 && |data| == 16 * |blocks|
                 case WriteV2(blocks, data) => 1 <= |blocks| <= 255 && |data| == 16 * |blocks|
                 case _ => true
  {
  }
}
