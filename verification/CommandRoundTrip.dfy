/** Printing and parsing commands undo each other. */
module CommandRoundTrip {
  import opened Bytes
  import opened Wrappers
  import opened Commands
  import opened CommandParser

  // ----------------------------------------------------------- pieces, printed first

  lemma IdmTaken(idm: Idm, rest: seq<byte>)
    ensures TakeIdm(idm + rest) == Some(Taken(idm, rest))
  {
    assert (idm + rest)[..8] == idm && (idm + rest)[8..] == rest;
  }

  lemma {:induction false} U16ListRoundTrip(values: seq<u16>)
    ensures U16List(U16ListBytes(values)) == values
    decreases |values|
  {
    if values != [] {
      var bytes := U16ListBytes(values);
      assert bytes[0] == LowByte(values[0]) && bytes[1] == HighByte(values[0]);
      assert bytes[2..] == U16ListBytes(values[1..]);
      U16ListRoundTrip(values[1..]);
    }
  }

  lemma ListTaken(values: seq<u16>, rest: seq<byte>, min: nat, max: nat)
    requires |values| <= 0xFF
    ensures TakeU16List(Counted(values) + rest, min, max)
            == if min <= |values| <= max then Some(Taken(values, rest)) else None
  {
    var data, bytes := Counted(values) + rest, U16ListBytes(values);
    assert data[0] == |values| && data[1..] == bytes + rest;
    assert (bytes + rest)[..2 * |values|] == bytes && (bytes + rest)[2 * |values|..] == rest;
    U16ListRoundTrip(values);
  }

  lemma HeaderTaken(block: BlockListElement)
    ensures var header := block.Header();
            && header < 0x80
            && header / 16 % 8 == block.accessMode % 8 && header % 16 == block.serviceCodeListIndex % 16
            && (0x80 + header) / 16 % 8 == header / 16 % 8 && (0x80 + header) % 16 == header % 16
  {
  }

  lemma ElementTaken(block: BlockListElement, rest: seq<byte>)
    ensures TakeElement(block.Pack() + rest) == Some(Taken(block.Masked(), rest))
  {
    hide BlockListElement.Header, LeBytes;
    var data, header := block.Pack() + rest, block.Header();
    HeaderTaken(block);
    if block.number < 256 {
      assert data[0] == 0x80 + header && data[1] == block.number && data[2..] == rest;
    } else {
      NumberTaken(block.number);
      assert data[0] == header && data[1] == LowByte(block.number) && data[2] == HighByte(block.number);
      assert data[3..] == rest;
    }
  }

  lemma NumberTaken(number: u16)
    ensures LeBytes(number) == [LowByte(number), HighByte(number)]
    ensures FromBytes(LowByte(number), HighByte(number)) == number
  {
  }

  lemma {:induction false} BlockListTaken(blocks: seq<BlockListElement>, rest: seq<byte>)
    ensures TakeBlockList(BlockListBytes(blocks) + rest, |blocks|) == Some(Taken(MaskedBlocks(blocks), rest))
    decreases |blocks|
  {
    if blocks == [] {
      assert BlockListBytes(blocks) + rest == rest;
      assert MaskedBlocks(blocks) == [];
    } else {
      var others := blocks[1..];
      assert BlockListBytes(blocks) + rest == blocks[0].Pack() + (BlockListBytes(others) + rest);
      ElementTaken(blocks[0], BlockListBytes(others) + rest);
      BlockListTaken(others, rest);
      assert MaskedBlocks(blocks) == [blocks[0].Masked()] + MaskedBlocks(others);
    }
  }

  lemma BlocksTaken(blocks: seq<BlockListElement>, rest: seq<byte>)
    requires |blocks| <= 0xFF
    ensures TakeCountedBlocks(CountedBlocks(blocks) + rest)
            == if blocks == [] then None else Some(Taken(MaskedBlocks(blocks), rest))
  {
    var data := CountedBlocks(blocks) + rest;
    assert data[0] == |blocks| && data[1..] == BlockListBytes(blocks) + rest;
    BlockListTaken(blocks, rest);
  }

  // ------------------------------------------------------------ pieces, parsed first

  /** A parsed element is written in the three-byte form although its number is below 256. */
  predicate IsWide(data: seq<byte>) {
    |data| >= 3 && data[0] < 0x80 && data[2] == 0
  }

  predicate HasWideElement(data: seq<byte>, count: nat) {
    count > 0 && TakeElement(data).Some?
    && (IsWide(data) || HasWideElement(TakeElement(data).value.rest, count - 1))
  }

  lemma HeaderParts(header: byte, number: u16)
    ensures var block := BlockListElement(number, header % 16, header / 16 % 8);
            block.Header() == header % 0x80 && block.InRange()
  {
  }

  lemma NumberParts(low: byte, high: byte)
    ensures FromBytes(low, high) < 256 <==> high == 0
    ensures LeBytes(FromBytes(low, high)) == [low, high]
  {
  }

  lemma ElementGiven(data: seq<byte>)
    requires TakeElement(data).Some?
    ensures var t := TakeElement(data).value;
            && t.value.InRange() && |t.value.Pack() + t.rest| <= |data|
            && |t.rest| <= |data| && data[|data| - |t.rest|..] == t.rest
            && (t.value.Pack() + t.rest == data <==> !IsWide(data))
  {
    hide BlockListElement.Header, BlockListElement.InRange, FromBytes, LeBytes;
    var t := TakeElement(data).value;
    HeaderParts(data[0], t.value.number);
    if data[0] >= 0x80 {
      assert data == [data[0], data[1]] + t.rest;
      assert t.value.Pack() == [data[0], data[1]];
    } else {
      NumberParts(data[1], data[2]);
      assert data == [data[0]] + [data[1], data[2]] + t.rest;
      if data[2] == 0 {
        assert |t.value.Pack()| == 2;
      } else {
        assert t.value.Pack() == [data[0]] + [data[1], data[2]];
      }
    }
  }

  lemma {:induction false} BlockListGiven(data: seq<byte>, count: nat)
    requires TakeBlockList(data, count).Some?
    ensures var t := TakeBlockList(data, count).value;
            && |t.value| == count && BlocksInRange(t.value) && |BlockListBytes(t.value) + t.rest| <= |data|
            && (BlockListBytes(t.value) + t.rest == data <==> !HasWideElement(data, count))
    decreases count
  {
    hide TakeElement, IsWide;
    var t := TakeBlockList(data, count).value;
    if count == 0 {
      assert BlockListBytes([]) + data == data;
    } else {
      var first := TakeElement(data).value;
      ElementGiven(data);
      BlockListGiven(first.rest, count - 1);
      var others := TakeBlockList(first.rest, count - 1).value;
      assert t.value[1..] == others.value;
      var pack, behind := first.value.Pack(), BlockListBytes(others.value) + t.rest;
      assert BlockListBytes(t.value) + t.rest == pack + behind;
      SameParts(pack, behind, first.rest, data);
    }
  }

  /** Bytes are those of the data exactly if the front and the back both are. */
  lemma SameParts(front: seq<byte>, back: seq<byte>, rest: seq<byte>, data: seq<byte>)
    requires |rest| <= |data| && data[|data| - |rest|..] == rest
    requires |front + rest| <= |data| && |back| <= |rest|
    ensures front + back == data <==> front + rest == data && back == rest
  {
    if front + back == data {
      assert |front| + |rest| == |data| && |back| == |rest|;
      assert back == data[|front|..];
    }
  }

  lemma {:induction false} U16ListGiven(bytes: seq<byte>)
    requires |bytes| % 2 == 0
    ensures U16ListBytes(U16List(bytes)) == bytes
    decreases |bytes|
  {
    if bytes != [] {
      U16ListGiven(bytes[2..]);
      assert U16List(bytes)[1..] == U16List(bytes[2..]);
      assert bytes == [bytes[0], bytes[1]] + bytes[2..];
    }
  }

  lemma ListGiven(data: seq<byte>, min: nat, max: nat)
    requires max <= 0xFF && TakeU16List(data, min, max).Some?
    ensures var t := TakeU16List(data, min, max).value;
            min <= |t.value| <= max && data == Counted(t.value) + t.rest
  {
    hide U16List, U16ListBytes;
    var count: nat, rest := data[0], data[1..];
    var t := TakeU16List(data, min, max).value;
    U16ListGiven(rest[..count * 2]);
    assert data == [data[0]] + (rest[..count * 2] + rest[count * 2..]);
    assert Counted(t.value) == [data[0]] + rest[..count * 2];
  }

  predicate HasWideBlock(data: seq<byte>) {
    TakeCount(data, 1, MAX_BLOCK_COUNT).Some? && HasWideElement(data[1..], data[0])
  }

  lemma BlocksGiven(data: seq<byte>)
    requires TakeCountedBlocks(data).Some?
    ensures var t := TakeCountedBlocks(data).value;
            && InLimit(|t.value|, MAX_BLOCK_COUNT) && BlocksInRange(t.value)
            && |CountedBlocks(t.value) + t.rest| <= |data|
            && (CountedBlocks(t.value) + t.rest == data <==> !HasWideBlock(data))
  {
    hide TakeBlockList, BlockListBytes, HasWideElement, BlocksInRange;
    var t := TakeCountedBlocks(data).value;
    BlockListGiven(data[1..], data[0]);
    assert data == [data[0]] + data[1..];
    assert CountedBlocks(t.value) + t.rest == [data[0]] + (BlockListBytes(t.value) + t.rest);
    if CountedBlocks(t.value) + t.rest == data {
      assert BlockListBytes(t.value) + t.rest == data[1..];
    }
  }

  lemma IdmGiven(data: seq<byte>)
    requires TakeIdm(data).Some?
    ensures data == TakeIdm(data).value.value + TakeIdm(data).value.rest
  {
  }

  // ------------------------------------------------------------------- print, parse

  /** The counts of the lists of a command are what their bytes say. */
  predicate CountsFit(c: Command) {
    && !CountOverflows(c)
    && (c.Authentication1? ==> |c.areas| <= 0xFF && |c.services| <= 0xFF)
    && (c.Authentication1V2? ==> |c.nodes| <= 0xFF)
  }

  /** What parsing the fields of a command should yield. */
  function Expected(c: Command): Option<Command> {
    if WithinLimits(c) then Some(Canonical(c)) else None
  }

  lemma ReadIsParsed(c: Command)
    requires c.ReadWithoutEncryption? && CountsFit(c)
    ensures ParseReadWithoutEncryption(c.Fields()) == Expected(c)
  {
    hide TakeIdm, TakeU16List, TakeCountedBlocks, Counted, CountedBlocks;
    IdmTaken(c.idm, Counted(c.serviceCodes) + CountedBlocks(c.blockList));
    ListTaken(c.serviceCodes, CountedBlocks(c.blockList), 1, MAX_RW_SERVICE_CODES);
    BlocksTaken(c.blockList, []);
    assert CountedBlocks(c.blockList) + [] == CountedBlocks(c.blockList);
  }

  lemma WriteIsParsed(c: Command)
    requires c.WriteWithoutEncryption? && CountsFit(c)
    ensures ParseWriteWithoutEncryption(c.Fields()) == Expected(c)
  {
    hide TakeIdm, TakeU16List, TakeCountedBlocks, Counted, CountedBlocks;
    IdmTaken(c.idm, Counted(c.serviceCodes) + (CountedBlocks(c.blockList) + c.data));
    ListTaken(c.serviceCodes, CountedBlocks(c.blockList) + c.data, 1, MAX_RW_SERVICE_CODES);
    BlocksTaken(c.blockList, c.data);
  }

  lemma Authentication1IsParsed(c: Command)
    requires c.Authentication1? && CountsFit(c)
    ensures ParseAuthentication1(c.Fields()) == Expected(c)
  {
    hide TakeIdm, TakeU16List, Counted;
    IdmTaken(c.idm, Counted(c.areas) + (Counted(c.services) + c.challenge1A));
    ListTaken(c.areas, Counted(c.services) + c.challenge1A, 0, MAX_SERVICE_CODES);
    ListTaken(c.services, c.challenge1A, 0, MAX_SERVICE_CODES);
  }

  lemma Authentication1V2IsParsed(c: Command)
    requires c.Authentication1V2? && CountsFit(c)
    ensures ParseAuthentication1V2(c.Fields()) == Expected(c)
  {
    hide TakeIdm, TakeU16List, Counted;
    var rest := [c.operationParameter] + (Counted(c.nodes) + c.challenge1AV2);
    IdmTaken(c.idm, rest);
    assert rest[1..] == Counted(c.nodes) + c.challenge1AV2;
    ListTaken(c.nodes, c.challenge1AV2, 1, MAX_SERVICE_CODES);
  }

  lemma GetNodePropertyIsParsed(c: Command)
    requires c.GetNodeProperty? && CountsFit(c)
    ensures ParseGetNodeProperty(c.Fields()) == Expected(c)
  {
    hide TakeIdm, TakeU16List, Counted;
    var rest := [c.nodePropertyType.ToByte()] + Counted(c.nodeCodes);
    IdmTaken(c.idm, rest);
    assert rest[1..] == Counted(c.nodeCodes) + [];
    ListTaken(c.nodeCodes, [], 1, MAX_NODE_PROPERTY_CODES);
  }

  lemma IdmListIsParsed(idm: Idm, values: seq<u16>, max: nat)
    requires |values| <= 0xFF
    ensures ParseIdmList(idm + Counted(values), max) == if InLimit(|values|, max) then Some((idm, values)) else None
  {
    IdmTaken(idm, Counted(values));
    ListTaken(values, [], 1, max);
    assert Counted(values) + [] == Counted(values);
  }

  lemma FixedIsParsed(idm: Idm, value: u16)
    ensures ParseIdm(idm) == Some(idm)
    ensures ParseIdmReserved(idm + RESERVED) == Some(idm)
    ensures ParseIdmValue(idm + LeBytes(value)) == Some((idm, value))
  {
    assert idm + [] == idm;
    IdmTaken(idm, []);
    IdmTaken(idm, RESERVED);
    IdmTaken(idm, LeBytes(value));
  }

  lemma ChallengeIsParsed(c: Command)
    ensures c.Authentication2? ==> ParseAuthentication2(c.Fields()) == Some(c)
    ensures c.Authentication2V2? ==> ParseAuthentication2V2(c.Fields()) == Some(c)
  {
    hide TakeIdm;
    if c.Authentication2? {
      IdmTaken(c.idm, c.challenge2B);
    } else if c.Authentication2V2? {
      IdmTaken(c.idm, c.challenge2BV2);
    }
  }

  lemma RequestCodeListIsParsed(c: Command)
    requires c.RequestCodeList?
    ensures ParseRequestCodeList(c.Fields()) == Some(c)
  {
    hide TakeIdm;
    IdmTaken(c.idm, LeBytes(c.parentNodeCode) + LeBytes(c.index));
  }

  lemma SetParameterIsParsed(c: Command)
    requires c.SetParameter?
    ensures ParseSetParameter(c.Fields()) == Some(c)
  {
    hide TakeIdm;
    var rest := [0, 0, 0, 0, c.encryptionType.ToByte(), c.packetType.ToByte(), 0, 0];
    IdmTaken(c.idm, rest);
    assert rest[..4] == [0, 0, 0, 0] && rest[6..] == [0, 0];
  }

  predicate HasOneList(c: Command) {
    c.RequestService? || c.RequestServiceV2? || c.RequestBlockInformation? || c.RequestBlockInformationEx?
  }

  predicate IsFixed(c: Command) {
    c.RequestResponse? || c.SearchServiceCode? || c.RequestSystemCode? || c.GetContainerIssueInformation?
    || c.GetAreaInformation? || c.GetSystemStatus? || c.RequestProductInformation?
    || c.RequestSpecificationVersion? || c.ResetMode?
  }

  lemma OneListIsParsed(c: Command)
    requires HasOneList(c) && CountsFit(c)
    ensures ParseBody(c.Code(), c.Fields()) == Expected(c)
  {
    hide ParseIdmList, Counted;
    match c
    case RequestService(idm, codes) => IdmListIsParsed(idm, codes, MAX_SERVICE_CODES);
    case RequestServiceV2(idm, codes) => IdmListIsParsed(idm, codes, MAX_SERVICE_CODES);
    case RequestBlockInformation(idm, codes) => IdmListIsParsed(idm, codes, MAX_NODE_CODES);
    case RequestBlockInformationEx(idm, codes) => IdmListIsParsed(idm, codes, MAX_NODE_CODES);
  }

  predicate IsIdmOnly(c: Command) {
    c.RequestResponse? || c.RequestSystemCode? || c.RequestProductInformation?
  }

  predicate IsIdmAndValue(c: Command) { c.SearchServiceCode? || c.GetAreaInformation? }

  lemma IdmOnlyIsParsed(c: Command)
    requires IsIdmOnly(c)
    ensures ParseBody(c.Code(), c.Fields()) == Expected(c)
  {
    hide ParseIdm, ParseIdmReserved, ParseIdmValue, ParseIdmList, ParsePolling, ParseReadWithoutEncryption,
         ParseWriteWithoutEncryption, ParseAuthentication1, ParseAuthentication2, ParseRequestCodeList,
         ParseSetParameter, ParseGetNodeProperty, ParseGetContainerProperty, ParseAuthentication1V2,
         ParseAuthentication2V2;
    FixedIsParsed(c.idm, 0);
  }

  lemma IdmAndValueIsParsed(c: Command)
    requires IsIdmAndValue(c)
    ensures ParseBody(c.Code(), c.Fields()) == Expected(c)
  {
    hide ParseIdm, ParseIdmReserved, ParseIdmValue, ParseIdmList, ParsePolling, ParseReadWithoutEncryption,
         ParseWriteWithoutEncryption, ParseAuthentication1, ParseAuthentication2, ParseRequestCodeList,
         ParseSetParameter, ParseGetNodeProperty, ParseGetContainerProperty, ParseAuthentication1V2,
         ParseAuthentication2V2;
    FixedIsParsed(c.idm, if c.SearchServiceCode? then c.serviceIndex else c.nodeCode);
  }

  lemma IdmReservedIsParsed(c: Command)
    requires IsFixed(c) && !IsIdmOnly(c) && !IsIdmAndValue(c)
    ensures ParseBody(c.Code(), c.Fields()) == Expected(c)
  {
    hide ParseIdm, ParseIdmReserved, ParseIdmValue, ParseIdmList, ParsePolling, ParseReadWithoutEncryption,
         ParseWriteWithoutEncryption, ParseAuthentication1, ParseAuthentication2, ParseRequestCodeList,
         ParseSetParameter, ParseGetNodeProperty, ParseGetContainerProperty, ParseAuthentication1V2,
         ParseAuthentication2V2;
    FixedIsParsed(c.idm, 0);
  }

  lemma FixedCommandIsParsed(c: Command)
    requires IsFixed(c)
    ensures ParseBody(c.Code(), c.Fields()) == Expected(c)
  {
    hide ParseBody, Expected, Command.Fields, Command.Code;
    if IsIdmOnly(c) {
      IdmOnlyIsParsed(c);
    } else if IsIdmAndValue(c) {
      IdmAndValueIsParsed(c);
    } else {
      IdmReservedIsParsed(c);
    }
  }

  lemma PollingIsParsed(c: Command)
    requires c.Polling?
    ensures ParsePolling(c.Fields()) == Expected(c)
  {
    var body := c.Fields();
    assert body[0] == HighByte(c.systemCode) && body[1] == LowByte(c.systemCode);
    assert body[2] == c.requestCode && body[3] == c.timeSlots;
  }

  lemma ContainerPropertyIsParsed(c: Command)
    requires c.GetContainerProperty?
    ensures ParseGetContainerProperty(c.Fields()) == Expected(c)
  {
    hide LeBytes, FromBytes;
    NumberTaken(c.property.ToIndex());
  }

  lemma ContainerIdIsParsed()
    ensures GetContainerId.Fields() == RESERVED && Expected(GetContainerId) == Some(GetContainerId)
  {
  }

  lemma UniqueCommandIsParsed(c: Command)
    requires !c.IsSecure() && CountsFit(c) && !HasOneList(c) && !IsFixed(c)
    ensures ParseBody(c.Code(), c.Fields()) == if c.Authentication2? || c.Authentication2V2? || c.RequestCodeList?
                                                  || c.SetParameter? then Some(c) else Expected(c)
  {
    hide ParseReadWithoutEncryption, ParseWriteWithoutEncryption, ParseAuthentication1, ParseAuthentication2,
         ParseRequestCodeList, ParseSetParameter, ParseGetNodeProperty, ParseAuthentication1V2,
         ParseAuthentication2V2, ParsePolling, ParseGetContainerProperty, Command.Fields, Expected;
    match c
    case Polling(_, _, _) => PollingIsParsed(c);
    case ReadWithoutEncryption(_, _, _) => ReadIsParsed(c);
    case WriteWithoutEncryption(_, _, _, _) => WriteIsParsed(c);
    case Authentication1(_, _, _, _) => Authentication1IsParsed(c);
    case Authentication2(_, _) => ChallengeIsParsed(c);
    case RequestCodeList(_, _, _) => RequestCodeListIsParsed(c);
    case SetParameter(_, _, _) => SetParameterIsParsed(c);
    case GetNodeProperty(_, _, _) => GetNodePropertyIsParsed(c);
    case GetContainerProperty(_) => ContainerPropertyIsParsed(c);
    case Authentication1V2(_, _, _, _) => Authentication1V2IsParsed(c);
    case Authentication2V2(_, _) => ChallengeIsParsed(c);
    case GetContainerId => ContainerIdIsParsed();
    case _ =>
  }

  /** The fields of a plain command are parsed as what they can express of it, within its limits only. */
  lemma FieldsAreParsed(c: Command)
    requires !c.IsSecure() && CountsFit(c)
    ensures ParseBody(c.Code(), c.Fields()) == Expected(c)
  {
    if HasOneList(c) {
      OneListIsParsed(c);
    } else if IsFixed(c) {
      FixedCommandIsParsed(c);
    } else {
      UniqueCommandIsParsed(c);
    }
  }

  lemma PrintedCountsFit(c: Command)
    requires ToFrame(c).Ok?
    ensures !c.IsSecure() && CountsFit(c)
    ensures var payload := [c.Code()] + c.Fields();
            |payload| + 1 <= MAX_PACKET_LEN && ToFrame(c).value == [|payload| + 1] + payload
  {
  }

  /**
   Whatever prints parses back: to the command itself, as far as its bytes can express
   it, if it is within the protocol's limits, and to nothing if it is not.
   */
  lemma ParseUndoesPrint(c: Command)
    requires ToFrame(c).Ok?
    ensures ParseFrame(ToFrame(c).value) == Expected(c)
    ensures ParseFrame(ToFrame(c).value) == Some(c) <==> WithinLimits(c) && IsExpressible(c)
  {
    hide ParseBody, ToFrame;
    PrintedCountsFit(c);
    var payload := [c.Code()] + c.Fields();
    assert ToFrame(c).value[1..] == payload && payload[1..] == c.Fields();
    FieldsAreParsed(c);
    CanonicalIsExpressible(c);
  }

  // ------------------------------------------------------------------- parse, print

  /** Where the block list of a packet that names services starts. */
  function BlockData(body: seq<byte>): Option<seq<byte>> {
    match TakeIdm(body)
    case None => None
    case Some(idm) =>
      match TakeU16List(idm.rest, 1, MAX_RW_SERVICE_CODES)
      case None => None
      case Some(codes) => Some(codes.rest)
  }

  /** A packet whose block list uses the three-byte form for a number below 256. */
  predicate HasWide(code: byte, body: seq<byte>) {
    (code == 0x06 || code == 0x08) && BlockData(body).Some? && HasWideBlock(BlockData(body).value)
  }

  /** The command is one its own bytes express, and these are `body` unless `wide`, and never longer. */
  ghost predicate Reprints(c: Command, body: seq<byte>, wide: bool) {
    && WithinLimits(c) && IsExpressible(c) && CountsFit(c)
    && |c.Fields()| <= |body| && (c.Fields() == body <==> !wide)
  }

  lemma ReadIsReprinted(body: seq<byte>)
    requires ParseReadWithoutEncryption(body).Some?
    ensures var c := ParseReadWithoutEncryption(body).value; c.Code() == 0x06 && Reprints(c, body, HasWide(0x06, body))
  {
    hide Counted, CountedBlocks, HasWideBlock, BlocksInRange, TakeIdm, TakeU16List, TakeCountedBlocks;
    IdmGiven(body);
    var idm := TakeIdm(body).value;
    ListGiven(idm.rest, 1, MAX_RW_SERVICE_CODES);
    var codes := TakeU16List(idm.rest, 1, MAX_RW_SERVICE_CODES).value;
    BlocksGiven(codes.rest);
    var blocks := TakeCountedBlocks(codes.rest).value;
    assert CountedBlocks(blocks.value) + [] == CountedBlocks(blocks.value);
    Prefixed(idm.value, Counted(codes.value), codes.rest, CountedBlocks(blocks.value));
  }

  lemma WriteIsReprinted(body: seq<byte>)
    requires ParseWriteWithoutEncryption(body).Some?
    ensures var c := ParseWriteWithoutEncryption(body).value; c.Code() == 0x08 && Reprints(c, body, HasWide(0x08, body))
  {
    hide Counted, CountedBlocks, HasWideBlock, BlocksInRange, TakeIdm, TakeU16List, TakeCountedBlocks;
    IdmGiven(body);
    var idm := TakeIdm(body).value;
    ListGiven(idm.rest, 1, MAX_RW_SERVICE_CODES);
    var codes := TakeU16List(idm.rest, 1, MAX_RW_SERVICE_CODES).value;
    BlocksGiven(codes.rest);
    var blocks := TakeCountedBlocks(codes.rest).value;
    Prefixed(idm.value, Counted(codes.value), codes.rest, CountedBlocks(blocks.value) + blocks.rest);
  }

  /** Two byte strings agree behind the same two prefixes exactly if they agree. */
  lemma Prefixed(a: seq<byte>, b: seq<byte>, x: seq<byte>, y: seq<byte>)
    ensures a + (b + x) == a + (b + y) <==> x == y
  {
    if a + (b + x) == a + (b + y) {
      assert x == (a + (b + x))[|a| + |b|..];
      assert y == (a + (b + y))[|a| + |b|..];
    }
  }

  lemma Authentication1IsReprinted(body: seq<byte>)
    requires ParseAuthentication1(body).Some?
    ensures var c := ParseAuthentication1(body).value; c.Code() == 0x10 && Reprints(c, body, false)
  {
    hide Counted, TakeIdm, TakeU16List;
    IdmGiven(body);
    var idm := TakeIdm(body).value;
    ListGiven(idm.rest, 0, MAX_SERVICE_CODES);
    var areas := TakeU16List(idm.rest, 0, MAX_SERVICE_CODES).value;
    ListGiven(areas.rest, 0, MAX_SERVICE_CODES);
  }

  lemma Authentication1V2IsReprinted(body: seq<byte>)
    requires ParseAuthentication1V2(body).Some?
    ensures var c := ParseAuthentication1V2(body).value; c.Code() == 0x40 && Reprints(c, body, false)
  {
    hide Counted, TakeIdm, TakeU16List;
    IdmGiven(body);
    var idm := TakeIdm(body).value;
    ListGiven(idm.rest[1..], 1, MAX_SERVICE_CODES);
    assert idm.rest == [idm.rest[0]] + idm.rest[1..];
  }

  lemma GetNodePropertyIsReprinted(body: seq<byte>)
    requires ParseGetNodeProperty(body).Some?
    ensures var c := ParseGetNodeProperty(body).value; c.Code() == 0x28 && Reprints(c, body, false)
  {
    hide Counted, TakeIdm, TakeU16List;
    IdmGiven(body);
    var idm := TakeIdm(body).value;
    ListGiven(idm.rest[1..], 1, MAX_NODE_PROPERTY_CODES);
    var codes := TakeU16List(idm.rest[1..], 1, MAX_NODE_PROPERTY_CODES).value;
    assert Counted(codes.value) + [] == Counted(codes.value);
    assert idm.rest == [idm.rest[0]] + idm.rest[1..];
  }

  lemma PollingIsReprinted(body: seq<byte>)
    requires ParsePolling(body).Some?
    ensures var c := ParsePolling(body).value; c.Code() == 0x00 && Reprints(c, body, false)
  {
    assert body == [body[0], body[1]] + [body[2], body[3]];
  }

  lemma ChallengeIsReprinted(body: seq<byte>)
    ensures ParseAuthentication2(body).Some? ==>
              var c := ParseAuthentication2(body).value; c.Code() == 0x12 && Reprints(c, body, false)
    ensures ParseAuthentication2V2(body).Some? ==>
              var c := ParseAuthentication2V2(body).value; c.Code() == 0x42 && Reprints(c, body, false)
  {
  }

  lemma RequestCodeListIsReprinted(body: seq<byte>)
    requires ParseRequestCodeList(body).Some?
    ensures var c := ParseRequestCodeList(body).value; c.Code() == 0x1A && Reprints(c, body, false)
  {
    var rest := TakeIdm(body).value.rest;
    assert rest == [rest[0], rest[1]] + [rest[2], rest[3]];
  }

  lemma SetParameterIsReprinted(body: seq<byte>)
    requires ParseSetParameter(body).Some?
    ensures var c := ParseSetParameter(body).value; c.Code() == 0x20 && Reprints(c, body, false)
  {
    var rest := TakeIdm(body).value.rest;
    assert rest == rest[..4] + [rest[4], rest[5]] + rest[6..];
    assert [0, 0, 0, 0] + [rest[4], rest[5]] + [0, 0] == [0, 0, 0, 0, rest[4], rest[5], 0, 0];
  }

  lemma GetContainerPropertyIsReprinted(body: seq<byte>)
    requires ParseGetContainerProperty(body).Some?
    ensures var c := ParseGetContainerProperty(body).value; c.Code() == 0x2E && Reprints(c, body, false)
  {
    assert body == [body[0], body[1]];
  }

  lemma FixedIsGiven(body: seq<byte>)
    ensures ParseIdm(body).Some? ==> ParseIdm(body).value == body
    ensures ParseIdmReserved(body).Some? ==> ParseIdmReserved(body).value + RESERVED == body
    ensures ParseIdmValue(body).Some? ==> ParseIdmValue(body).value.0 + LeBytes(ParseIdmValue(body).value.1) == body
  {
  }

  lemma IdmListIsGiven(body: seq<byte>, max: nat)
    requires max <= 0xFF && ParseIdmList(body, max).Some?
    ensures var p := ParseIdmList(body, max).value; InLimit(|p.1|, max) && p.0 + Counted(p.1) == body
  {
    var idm := TakeIdm(body).value;
    ListGiven(idm.rest, 1, max);
    assert Counted(TakeU16List(idm.rest, 1, max).value.value) + [] == idm.rest;
  }

  predicate OneListCode(code: byte) { code == 0x02 || code == 0x0E || code == 0x1E || code == 0x32 }

  predicate FixedCode(code: byte) {
    code == 0x04 || code == 0x0A || code == 0x0C || code == 0x22 || code == 0x24
    || code == 0x38 || code == 0x3A || code == 0x3C || code == 0x3E
  }

  lemma OneListIsReprinted(code: byte, body: seq<byte>)
    requires OneListCode(code) && ParseBody(code, body).Some?
    ensures var c := ParseBody(code, body).value; c.Code() == code && Reprints(c, body, false)
  {
    hide ParseIdmList, Counted;
    IdmListIsGiven(body, 0x20);
  }

  predicate IdmOnlyCode(code: byte) { code == 0x04 || code == 0x0C || code == 0x3A }
  predicate IdmAndValueCode(code: byte) { code == 0x0A || code == 0x24 }

  lemma IdmOnlyIsReprinted(code: byte, body: seq<byte>)
    requires IdmOnlyCode(code) && ParseBody(code, body).Some?
    ensures var c := ParseBody(code, body).value; c.Code() == code && Reprints(c, body, false)
  {
    hide ParseIdm, ParseIdmReserved, ParseIdmValue, ParseIdmList, ParsePolling, ParseReadWithoutEncryption,
         ParseWriteWithoutEncryption, ParseAuthentication1, ParseAuthentication2, ParseRequestCodeList,
         ParseSetParameter, ParseGetNodeProperty, ParseGetContainerProperty, ParseAuthentication1V2,
         ParseAuthentication2V2;
    FixedIsGiven(body);
  }

  lemma IdmAndValueIsReprinted(code: byte, body: seq<byte>)
    requires IdmAndValueCode(code) && ParseBody(code, body).Some?
    ensures var c := ParseBody(code, body).value; c.Code() == code && Reprints(c, body, false)
  {
    hide ParseIdm, ParseIdmReserved, ParseIdmValue, ParseIdmList, ParsePolling, ParseReadWithoutEncryption,
         ParseWriteWithoutEncryption, ParseAuthentication1, ParseAuthentication2, ParseRequestCodeList,
         ParseSetParameter, ParseGetNodeProperty, ParseGetContainerProperty, ParseAuthentication1V2,
         ParseAuthentication2V2;
    FixedIsGiven(body);
  }

  lemma IdmReservedIsReprinted(code: byte, body: seq<byte>)
    requires FixedCode(code) && !IdmOnlyCode(code) && !IdmAndValueCode(code) && ParseBody(code, body).Some?
    ensures var c := ParseBody(code, body).value; c.Code() == code && Reprints(c, body, false)
  {
    hide ParseIdm, ParseIdmReserved, ParseIdmValue, ParseIdmList, ParsePolling, ParseReadWithoutEncryption,
         ParseWriteWithoutEncryption, ParseAuthentication1, ParseAuthentication2, ParseRequestCodeList,
         ParseSetParameter, ParseGetNodeProperty, ParseGetContainerProperty, ParseAuthentication1V2,
         ParseAuthentication2V2;
    FixedIsGiven(body);
  }

  lemma FixedCommandIsReprinted(code: byte, body: seq<byte>)
    requires FixedCode(code) && ParseBody(code, body).Some?
    ensures var c := ParseBody(code, body).value; c.Code() == code && Reprints(c, body, false)
  {
    hide ParseBody, Reprints, Command.Code;
    if IdmOnlyCode(code) {
      IdmOnlyIsReprinted(code, body);
    } else if IdmAndValueCode(code) {
      IdmAndValueIsReprinted(code, body);
    } else {
      IdmReservedIsReprinted(code, body);
    }
  }

  lemma UniqueCommandIsReprinted(code: byte, body: seq<byte>)
    requires !OneListCode(code) && !FixedCode(code) && ParseBody(code, body).Some?
    ensures var c := ParseBody(code, body).value; c.Code() == code && Reprints(c, body, HasWide(code, body))
  {
    hide Reprints, BlockData, HasWideBlock, Command.Code;
    hide ParsePolling, ParseReadWithoutEncryption, ParseWriteWithoutEncryption, ParseAuthentication1,
         ParseAuthentication2, ParseRequestCodeList, ParseSetParameter, ParseGetNodeProperty,
         ParseGetContainerProperty, ParseAuthentication1V2, ParseAuthentication2V2;
    match code
    case 0x00 => PollingIsReprinted(body);
    case 0x06 => ReadIsReprinted(body);
    case 0x08 => WriteIsReprinted(body);
    case 0x10 => Authentication1IsReprinted(body);
    case 0x12 => ChallengeIsReprinted(body);
    case 0x1A => RequestCodeListIsReprinted(body);
    case 0x20 => SetParameterIsReprinted(body);
    case 0x28 => GetNodePropertyIsReprinted(body);
    case 0x2E => GetContainerPropertyIsReprinted(body);
    case 0x40 => Authentication1V2IsReprinted(body);
    case 0x42 => ChallengeIsReprinted(body);
    case 0x70 => GetContainerIdIsReprinted();
    case _ =>
  }

  lemma GetContainerIdIsReprinted()
    ensures GetContainerId.Code() == 0x70 && Reprints(GetContainerId, RESERVED, false)
  {
  }

  /** Whatever is parsed has the code and, but for wide elements, the bytes it was parsed from. */
  lemma BodyIsReprinted(code: byte, body: seq<byte>)
    requires ParseBody(code, body).Some?
    ensures var c := ParseBody(code, body).value; c.Code() == code && Reprints(c, body, HasWide(code, body))
  {
    hide Reprints, ParseBody;
    if OneListCode(code) {
      OneListIsReprinted(code, body);
    } else if FixedCode(code) {
      FixedCommandIsReprinted(code, body);
    } else {
      UniqueCommandIsReprinted(code, body);
    }
  }

  predicate FrameHasWide(frame: seq<byte>) {
    |frame| >= 2 && HasWide(frame[1], frame[2..])
  }

  /**
   Whatever parses prints again, to a frame no longer and to the same frame exactly
   without a wide element; and that frame parses to the same command, so that printing
   a second time changes nothing.
   */
  lemma PrintUndoesParse(frame: seq<byte>)
    requires ParseFrame(frame).Some?
    ensures var printed := ToFrame(ParseFrame(frame).value);
            && printed.Ok? && |printed.value| <= |frame|
            && (printed.value == frame <==> !FrameHasWide(frame))
            && ParseFrame(printed.value) == ParseFrame(frame)
  {
    hide HasWide, ParseBody, Reprints, ToFrame;
    var code, body := frame[1], frame[2..];
    assert frame == [frame[0], code] + body;
    assert frame[1..][0] == code && frame[1..][1..] == body;
    BodyIsReprinted(code, body);
    NotSecure(code, body);
    var c := ParseFrame(frame).value;
    Reprinted(c, body, HasWide(code, body));
    ParseUndoesPrint(c);
  }

  lemma Reprinted(c: Command, body: seq<byte>, wide: bool)
    requires !c.IsSecure() && Reprints(c, body, wide) && |body| + 2 <= MAX_PACKET_LEN
    ensures WithinLimits(c) && IsExpressible(c)
    ensures var printed := ToFrame(c);
            && printed.Ok? && |printed.value| <= |body| + 2
            && (printed.value == [|body| + 2, c.Code()] + body <==> !wide)
  {
    hide Command.Fields, Command.Code, IsExpressible;
    var payload := [c.Code()] + c.Fields();
    assert ToFrame(c) == Ok([|payload| + 1] + payload);
    assert [|payload| + 1] + payload == [|payload| + 1, c.Code()] + c.Fields();
    if ToFrame(c).value == [|body| + 2, c.Code()] + body {
      assert c.Fields() == ToFrame(c).value[2..];
    }
  }

  lemma NotSecure(code: byte, body: seq<byte>)
    requires ParseBody(code, body).Some?
    ensures !IsSecureCode(code)
  {
  }

  // ------------------------------------------------------------------- packet length

  /** How many bytes a block list takes: two for each number below 256, three for each other. */
  function Width(blocks: seq<BlockListElement>): nat {
    if blocks == [] then 0 else (if blocks[0].number < 256 then 2 else 3) + Width(blocks[1..])
  }

  lemma {:induction false} WidthIsLength(blocks: seq<BlockListElement>)
    ensures |BlockListBytes(blocks)| == Width(blocks)
    ensures 2 * |blocks| <= Width(blocks) <= 3 * |blocks|
    decreases |blocks|
  {
    if blocks != [] {
      WidthIsLength(blocks[1..]);
    }
  }

  /** A write of n blocks to s services prints exactly when 12 + 2s + W + 16n bytes fit a packet. */
  lemma WritePrintsIfItFits(c: Command)
    requires c.WriteWithoutEncryption? && WithinLimits(c)
    ensures ToFrame(c).Ok? <==> 12 + 2 * |c.serviceCodes| + Width(c.blockList) + 16 * |c.blockList| <= MAX_PACKET_LEN
    ensures ToFrame(c).Err? ==> ToFrame(c) == Err(Refused)
  {
    WidthIsLength(c.blockList);
  }

  lemma {:induction false} UniformWidth(blocks: seq<BlockListElement>, wide: bool)
    requires forall i | 0 <= i < |blocks| :: (blocks[i].number >= 256) == wide
    ensures Width(blocks) == (if wide then 3 else 2) * |blocks|
    decreases |blocks|
  {
    if blocks != [] {
      assert forall i | 0 <= i < |blocks[1..]| :: blocks[1..][i] == blocks[i + 1];
      UniformWidth(blocks[1..], wide);
    }
  }

  /** One service with short elements admits 13 blocks, sixteen services with long ones 11. */
  lemma MostBlocks(c: Command)
    requires c.WriteWithoutEncryption? && WithinLimits(c)
    ensures |c.serviceCodes| == 1 && (forall i | 0 <= i < |c.blockList| :: c.blockList[i].number < 256) ==>
              (ToFrame(c).Ok? <==> |c.blockList| <= 13)
    ensures |c.serviceCodes| == 16 && (forall i | 0 <= i < |c.blockList| :: c.blockList[i].number >= 256) ==>
              (ToFrame(c).Ok? <==> |c.blockList| <= 11)
  {
    hide ToFrame;
    WritePrintsIfItFits(c);
    if forall i | 0 <= i < |c.blockList| :: c.blockList[i].number < 256 {
      UniformWidth(c.blockList, false);
    } else if forall i | 0 <= i < |c.blockList| :: c.blockList[i].number >= 256 {
      UniformWidth(c.blockList, true);
    }
  }
}
