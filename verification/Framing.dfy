/**
 The frame envelope the Port-100, RC-S320 and RC-S956 drivers share:
 start of frame, length and its checksum, payload and its checksum, postamble.
 */
module Framing {
  import opened Bytes
  import opened Wrappers

  const SOF: seq<byte> := [0x00, 0x00, 0xFF]
  const ACK_BYTES: seq<byte> := [0x00, 0x00, 0xFF, 0x00, 0xFF, 0x00]
  const ERROR_BYTES: seq<byte> := [0x00, 0x00, 0xFF, 0xFF, 0xFF, 0x00]
  const POSTAMBLE: byte := 0x00
  const EXTENDED_LENGTH_MARKER: seq<byte> := [0xFF, 0xFF]
  const NORMAL_DATA_START: nat := 5
  const EXTENDED_DATA_START: nat := 8
  const NORMAL_LENGTH_LIMIT: nat := 256
  const STATUS_ERROR_BYTE: byte := 0x7F

  /** How a chipset encodes the length of a payload. */
  datatype LengthEncoding = Normal | ExtendedLittleEndian | NormalOrExtendedBigEndian

  /** How a chipset reports an error. */
  datatype ErrorDetection = ErrorFrame | StatusByte

  datatype Format = Format(length: LengthEncoding, error: ErrorDetection)

  const PORT100: Format := Format(ExtendedLittleEndian, ErrorFrame)
  const RCS320: Format := Format(Normal, StatusByte)
  const RCS956: Format := Format(NormalOrExtendedBigEndian, ErrorFrame)

  datatype FrameType = Ack | Error | Data(payload: seq<byte>)

  datatype Frame = Frame(raw: seq<byte>, frameType: FrameType)

  // ------------------------------------------------------------------- checksums

  /** The sum of the bytes as a number. */
  function Sum(bytes: seq<byte>): (sum: nat)
    ensures sum <= 255 * |bytes|
  {
    if bytes == [] then 0 else Sum(bytes[..|bytes| - 1]) + bytes[|bytes| - 1]
  }

  /** The running sum as the program keeps it, in 16 bits. */
  function RunningSum(bytes: seq<byte>): u16 {
    if bytes == [] then 0 else (RunningSum(bytes[..|bytes| - 1]) + bytes[|bytes| - 1]) % 0x1_0000
  }

  function Checksum(bytes: seq<byte>): byte {
    (256 - RunningSum(bytes) % 256) % 256
  }

  predicate ChecksumMatches(bytes: seq<byte>, checksum: byte) {
    (RunningSum(bytes) + checksum) % 0x1_0000 % 256 == 0
  }

  lemma {:induction false} RunningSumWraps(bytes: seq<byte>)
    ensures RunningSum(bytes) == Sum(bytes) % 0x1_0000
  {
    if bytes != [] {
      RunningSumWraps(bytes[..|bytes| - 1]);
      WrapEarlier(Sum(bytes[..|bytes| - 1]), bytes[|bytes| - 1]);
    }
  }

  lemma WrapEarlier(n: nat, b: byte)
    ensures (n % 0x1_0000 + b) % 0x1_0000 == (n + b) % 0x1_0000
  {
  }

  /**
   Wrapping the sum at 16 bits costs nothing: the checksum is the one byte that
   brings the exact sum to a multiple of 256, and the match test accepts it alone.
   */
  lemma ChecksumIsExact(bytes: seq<byte>, c: byte)
    ensures ChecksumMatches(bytes, c) <==> (Sum(bytes) + c) % 256 == 0
    ensures c == Checksum(bytes) <==> (Sum(bytes) + c) % 256 == 0
  {
    RunningSumWraps(bytes);
    LowByteOfWrapped(Sum(bytes));
    LowByteOfWrapped(RunningSum(bytes) + c);
    SumOfRemainders(Sum(bytes), c);
    SumOfRemainders(RunningSum(bytes), c);
    OnlyComplement(Sum(bytes) % 256, c);
  }

  lemma LowByteOfWrapped(n: nat)
    ensures n % 0x1_0000 % 256 == n % 256
  {
    assert n == 256 * (256 * (n / 0x1_0000)) + n % 0x1_0000;
  }

  lemma SumOfRemainders(n: nat, c: byte)
    ensures (n + c) % 256 == (n % 256 + c) % 256
  {
  }

  lemma OnlyComplement(r: byte, c: byte)
    ensures c == (256 - r) % 256 <==> (r + c) % 256 == 0
  {
  }

  /** Up to 256 bytes no partial sum reaches the 16-bit limit, the added checksum included. */
  lemma NoOverflowUpTo256(bytes: seq<byte>, n: nat, c: byte)
    requires n <= |bytes| <= 256
    ensures RunningSum(bytes[..n]) == Sum(bytes[..n])
    ensures Sum(bytes) + c < 0x1_0000
  {
    RunningSumWraps(bytes[..n]);
  }

  /** The sum that is tested for a match stays below 65,536 for exactly the lengths up to 256. */
  lemma OverflowIffLonger(n: nat)
    ensures (forall bytes: seq<byte> | |bytes| == n :: Sum(bytes) + Checksum(bytes) < 0x1_0000) <==> n <= 256
  {
    if n <= 256 {
      forall bytes: seq<byte> | |bytes| == n
        ensures Sum(bytes) + Checksum(bytes) < 0x1_0000
      {
        NoOverflowUpTo256(bytes, n, Checksum(bytes));
      }
    } else {
      var bytes: seq<byte> := seq(n, i => 0xFF);
      SumOfOnes(n);
      ChecksumIsExact(bytes, Checksum(bytes));
      assert |bytes| == n && Sum(bytes) + Checksum(bytes) >= 0x1_0000;
    }
  }

  lemma {:induction false} SumOfOnes(n: nat)
    ensures Sum(seq(n, i => 0xFF)) == 255 * n
  {
    if n != 0 {
      SumOfOnes(n - 1);
      var bytes: seq<byte> := seq(n, i => 0xFF);
      assert bytes[..n - 1] == seq(n - 1, i => 0xFF);
    }
  }

  lemma {:induction false} SumAppend(a: seq<byte>, b: seq<byte>)
    ensures Sum(a + b) == Sum(a) + Sum(b)
  {
    if b == [] {
      assert a + b == a;
    } else {
      assert (a + b)[..|a + b| - 1] == a + b[..|b| - 1];
      SumAppend(a, b[..|b| - 1]);
    }
  }

  lemma SumAround(before: seq<byte>, b: byte, after: seq<byte>)
    ensures Sum(before + [b] + after) == Sum(before) + b + Sum(after)
  {
    SumAppend(before + [b], after);
    SumAppend(before, [b]);
    assert [b][..0] == [] && Sum([b]) == b;
  }

  lemma OneSummand(sum: nat, x: byte, y: byte, c: byte)
    ensures (sum + x + c) % 256 == 0 && (sum + y + c) % 256 == 0 ==> x == y
  {
  }

  /** Changing any one byte changes the checksum. */
  lemma OneByteChangesChecksum(before: seq<byte>, x: byte, y: byte, after: seq<byte>)
    requires x != y
    ensures Checksum(before + [x] + after) != Checksum(before + [y] + after)
  {
    hide Checksum, ChecksumMatches, Sum;
    var c := Checksum(before + [x] + after);
    SumAround(before, x, after);
    SumAround(before, y, after);
    ChecksumIsExact(before + [x] + after, c);
    ChecksumIsExact(before + [y] + after, c);
    OneSummand(Sum(before) + Sum(after), x, y, c);
  }

  // ------------------------------------------------------------------- envelopes

  function NormalEnvelope(payload: seq<byte>): (raw: seq<byte>)
    requires |payload| < NORMAL_LENGTH_LIMIT
  {
    SOF + [|payload|, Checksum([|payload|])] + payload + [Checksum(payload), POSTAMBLE]
  }

  function ExtendedEnvelope(lengthBytes: seq<byte>, payload: seq<byte>): (raw: seq<byte>) {
    SOF + EXTENDED_LENGTH_MARKER + lengthBytes + [Checksum(lengthBytes)] + payload + [Checksum(payload), POSTAMBLE]
  }

  function LengthBytes(encoding: LengthEncoding, len: u16): (bytes: seq<byte>)
    ensures |bytes| == 2
  {
    if encoding.ExtendedLittleEndian? then LeBytes(len) else BeBytes(len)
  }

  /** The bytes a frame is built from; extended lengths are cast to 16 bits. */
  function Encode(payload: seq<byte>, encoding: LengthEncoding): (raw: seq<byte>)
    requires encoding.Normal? ==> |payload| < NORMAL_LENGTH_LIMIT
  {
    if encoding.Normal? || (encoding.NormalOrExtendedBigEndian? && |payload| < NORMAL_LENGTH_LIMIT) then
      NormalEnvelope(payload)
    else
      ExtendedEnvelope(LengthBytes(encoding, |payload| % 0x1_0000), payload)
  }

  /** Every byte string that frames `payload` for a reader of this encoding. */
  ghost predicate IsEnvelope(raw: seq<byte>, payload: seq<byte>, encoding: LengthEncoding) {
    || (|payload| < NORMAL_LENGTH_LIMIT && raw == NormalEnvelope(payload))
    || (!encoding.Normal? && |payload| < 0x1_0000
        && raw == ExtendedEnvelope(LengthBytes(encoding, |payload|), payload))
  }

  // --------------------------------------------------------------------- building

  method PushLength(frame: seq<byte>, len: nat, encoding: LengthEncoding) returns (extended: seq<byte>)
    requires encoding.Normal? ==> len < NORMAL_LENGTH_LIMIT  // the program panics otherwise
    ensures extended == frame +
      if encoding.Normal? || (encoding.NormalOrExtendedBigEndian? && len < NORMAL_LENGTH_LIMIT) then
        [len, Checksum([len])]
      else
        var bytes := LengthBytes(encoding, len % 0x1_0000);
        EXTENDED_LENGTH_MARKER + bytes + [Checksum(bytes)]
  {
    match encoding
    case Normal =>
      extended := frame + [len, Checksum([len])];
    case ExtendedLittleEndian =>
      extended := PushExtendedLength(frame, LeBytes(len % 0x1_0000));
    case NormalOrExtendedBigEndian =>
      if len < NORMAL_LENGTH_LIMIT {
        extended := frame + [len, Checksum([len])];
      } else {
        extended := PushExtendedLength(frame, BeBytes(len % 0x1_0000));
      }
  }

  method PushExtendedLength(frame: seq<byte>, lengthBytes: seq<byte>) returns (extended: seq<byte>)
    ensures extended == frame + (EXTENDED_LENGTH_MARKER + lengthBytes + [Checksum(lengthBytes)])
  {
    extended := frame + EXTENDED_LENGTH_MARKER;
    extended := extended + lengthBytes;
    extended := extended + [Checksum(lengthBytes)];
  }

  method Build(payload: seq<byte>, format: Format) returns (frame: Frame)
    requires format.length.Normal? ==> |payload| < NORMAL_LENGTH_LIMIT  // the program panics otherwise
    ensures frame == Frame(Encode(payload, format.length), Data(payload))
  {
    var raw := SOF;
    raw := PushLength(raw, |payload|, format.length);
    raw := raw + payload;
    raw := raw + [Checksum(payload)];
    raw := raw + [POSTAMBLE];
    frame := Frame(raw, Data(payload));
  }

  // ---------------------------------------------------------------------- parsing

  predicate HasSof(data: seq<byte>) {
    |data| >= 3 && data[..3] == SOF
  }

  datatype FrameLayout = FrameLayout(length: nat, lengthBytes: seq<byte>, lcs: byte, dataStart: nat)
  {
    function FrameLen(): nat {
      dataStart + length + 2
    }

    function ValidatedPayload(data: seq<byte>): Option<seq<byte>> {
      var dataEnd := dataStart + length;
      if !ChecksumMatches(lengthBytes, lcs) then None
      else if dataEnd >= |data| then None
      else if !ChecksumMatches(data[dataStart..dataEnd], data[dataEnd]) then None
      else if dataEnd + 1 >= |data| || data[dataEnd + 1] != POSTAMBLE then None
      else Some(data[dataStart..dataEnd])
    }
  }

  /** The length two bytes of an extended length field say. */
  function ExtendedLength(first: byte, second: byte, encoding: LengthEncoding): u16 {
    if encoding.ExtendedLittleEndian? then FromBytes(first, second) else FromBytes(second, first)
  }

  function ParseLayout(data: seq<byte>, encoding: LengthEncoding): Option<FrameLayout> {
    var extended := !encoding.Normal? && |data| >= 5 && data[3..5] == EXTENDED_LENGTH_MARKER;
    if !extended then
      if |data| < 5 then None
      else Some(FrameLayout(data[3], [data[3]], data[4], NORMAL_DATA_START))
    else if |data| < 8 then None
    else
      Some(FrameLayout(ExtendedLength(data[5], data[6], encoding), data[5..7], data[7], EXTENDED_DATA_START))
  }

  function Classify(data: seq<byte>, format: Format): (r: Option<(FrameType, nat)>)
    ensures r.Some? ==> r.value.1 <= |data|
  {
    if data == ACK_BYTES then Some((Ack, |ACK_BYTES|))
    else if format.error.ErrorFrame? && data == ERROR_BYTES then Some((Error, |ERROR_BYTES|))
    else if IsStatusError(data, format) then Some((Error, |data|))
    else
      match ParseLayout(data, format.length)
      case None => None
      case Some(layout) =>
        match layout.ValidatedPayload(data)
        case None => None
        case Some(payload) => Some((Data(payload), layout.FrameLen()))
  }

  predicate IsStatusError(data: seq<byte>, format: Format) {
    format.error.StatusByte? && |data| > NORMAL_DATA_START && data[NORMAL_DATA_START] == STATUS_ERROR_BYTE
  }

  function Parse(data: seq<byte>, format: Format): Option<Frame>
  {
    if !HasSof(data) then None
    else
      match Classify(data, format)
      case None => None
      case Some((frameType, len)) => Some(Frame(data[..len], frameType))
  }

  // ------------------------------------------------------------------- the theorems

  lemma NormalFields(payload: seq<byte>, data: seq<byte>)
    requires |payload| < NORMAL_LENGTH_LIMIT && NormalEnvelope(payload) <= data
    ensures |data| >= |payload| + 7 && HasSof(data)
    ensures data[3] == |payload| && data[4] == Checksum([data[3]])
    ensures data[5..5 + |payload|] == payload
    ensures data[5 + |payload|] == Checksum(payload) && data[6 + |payload|] == POSTAMBLE
    ensures data[..|payload| + 7] == NormalEnvelope(payload)
  {
    hide Checksum;
    var raw, n := NormalEnvelope(payload), |payload|;
    assert data[..|raw|] == raw && |raw| == n + 7;
    assert data[..3] == raw[..3] == SOF;
    assert data[3] == raw[3] == n && data[4] == raw[4] == Checksum([n]);
    assert data[5..5 + n] == raw[5..5 + n] == payload;
    assert data[5 + n] == raw[5 + n] == Checksum(payload) && data[6 + n] == raw[6 + n] == POSTAMBLE;
  }

  lemma NormalIsParsed(payload: seq<byte>, data: seq<byte>, format: Format)
    requires |payload| < NORMAL_LENGTH_LIMIT && NormalEnvelope(payload) <= data
    requires !IsStatusError(data, format)
    ensures Parse(data, format) == Some(Frame(NormalEnvelope(payload), Data(payload)))
  {
    var n := |payload|;
    NormalFields(payload, data);
    LengthIsNoMarker(n);
    hide Checksum, NormalEnvelope, FrameLayout.ValidatedPayload;
    assert data[3..5] == [data[3], data[4]];
    var layout := FrameLayout(n, [data[3]], data[4], NORMAL_DATA_START);
    assert ParseLayout(data, format.length) == Some(layout);
    ValidLayout(data, layout, payload);
    assert Classify(data, format) == Some((Data(payload), n + 7));
  }

  /** A single length byte of 255 carries the checksum 01, so it is never the extended marker. */
  lemma LengthIsNoMarker(n: byte)
    ensures [n, Checksum([n])] != EXTENDED_LENGTH_MARKER
  {
    assert [n][..0] == [];
    assert Sum([n]) == n;
    ChecksumIsExact([n], Checksum([n]));
  }

  lemma ExtendedFields(lengthBytes: seq<byte>, payload: seq<byte>, data: seq<byte>)
    requires |lengthBytes| == 2 && ExtendedEnvelope(lengthBytes, payload) <= data
    ensures |data| >= |payload| + 10 && HasSof(data) && data[3..5] == EXTENDED_LENGTH_MARKER
    ensures data[5] == lengthBytes[0] && data[6] == lengthBytes[1] && data[7] == Checksum(lengthBytes)
    ensures data[8..8 + |payload|] == payload
    ensures data[8 + |payload|] == Checksum(payload) && data[9 + |payload|] == POSTAMBLE
    ensures data[..|payload| + 10] == ExtendedEnvelope(lengthBytes, payload)
  {
    var raw := ExtendedEnvelope(lengthBytes, payload);
    var n := |payload|;
    assert data[..|raw|] == raw && |raw| == n + 10;
    assert data[..3] == raw[..3] == SOF;
    assert data[3..5] == raw[3..5] == EXTENDED_LENGTH_MARKER;
    assert data[5] == raw[5] && data[6] == raw[6] && data[7] == raw[7];
    assert data[8..8 + n] == raw[8..8 + n] == payload;
    assert data[8 + n] == raw[8 + n] && data[9 + n] == raw[9 + n];
  }

  lemma ExtendedIsParsed(payload: seq<byte>, data: seq<byte>, format: Format)
    requires |payload| < 0x1_0000 && !format.length.Normal?
    requires ExtendedEnvelope(LengthBytes(format.length, |payload|), payload) <= data
    requires !IsStatusError(data, format)
    ensures Parse(data, format) ==
            Some(Frame(ExtendedEnvelope(LengthBytes(format.length, |payload|), payload), Data(payload)))
  {
    var bytes, n := LengthBytes(format.length, |payload|), |payload|;
    ExtendedFields(bytes, payload, data);
    var layout := FrameLayout(n, bytes, data[7], EXTENDED_DATA_START);
    ExtendedLayout(data, format.length, n);
    ValidLayout(data, layout, payload);
    assert Classify(data, format) == Some((Data(payload), n + 10));
  }

  lemma ExtendedLayout(data: seq<byte>, encoding: LengthEncoding, n: u16)
    requires !encoding.Normal? && |data| >= 8 && data[3..5] == EXTENDED_LENGTH_MARKER
    requires data[5] == LengthBytes(encoding, n)[0] && data[6] == LengthBytes(encoding, n)[1]
    ensures ParseLayout(data, encoding)
            == Some(FrameLayout(n, LengthBytes(encoding, n), data[7], EXTENDED_DATA_START))
  {
    assert data[5..7] == [data[5], data[6]];
    assert FromBytes(LowByte(n), HighByte(n)) == n;
  }

  lemma ValidLayout(data: seq<byte>, layout: FrameLayout, payload: seq<byte>)
    requires layout.length == |payload| && layout.FrameLen() <= |data|
    requires layout.lcs == Checksum(layout.lengthBytes)
    requires var end := layout.dataStart + |payload|;
             data[layout.dataStart..end] == payload && data[end] == Checksum(payload) && data[end + 1] == POSTAMBLE
    ensures layout.ValidatedPayload(data) == Some(payload)
  {
    ChecksumIsExact(layout.lengthBytes, layout.lcs);
    ChecksumIsExact(payload, Checksum(payload));
  }

  /** The bytes are taken for a data frame. */
  predicate IsData(data: seq<byte>, format: Format) {
    Parse(data, format).Some? && Parse(data, format).value.frameType.Data?
  }

  /** Parsed data is the validated payload of the layout. */
  lemma DataIsValidated(data: seq<byte>, format: Format)
    requires IsData(data, format)
    ensures HasSof(data) && !IsStatusError(data, format) && ParseLayout(data, format.length).Some?
    ensures var layout := ParseLayout(data, format.length).value;
            var payload := layout.ValidatedPayload(data);
            && payload.Some? && layout.FrameLen() <= |data|
            && Parse(data, format).value == Frame(data[..layout.FrameLen()], Data(payload.value))
  {
    hide ParseLayout, FrameLayout.ValidatedPayload;
    var layout := ParseLayout(data, format.length).value;
    Validated(layout, data);
  }

  /** A payload is validated exactly if both checksums and the postamble are right. */
  lemma Validated(layout: FrameLayout, data: seq<byte>)
    ensures var end := layout.dataStart + layout.length;
            layout.ValidatedPayload(data)
            == if end + 1 < |data| && layout.lcs == Checksum(layout.lengthBytes)
                  && data[end] == Checksum(data[layout.dataStart..end]) && data[end + 1] == POSTAMBLE then
                 Some(data[layout.dataStart..end])
               else None
  {
    hide Checksum, ChecksumMatches, Sum;
    var end := layout.dataStart + layout.length;
    ChecksumIsExact(layout.lengthBytes, layout.lcs);
    if end < |data| {
      ChecksumIsExact(data[layout.dataStart..end], data[end]);
    }
  }

  lemma ParsedIsEnvelope(data: seq<byte>, format: Format)
    requires IsData(data, format)
    ensures var frame := Parse(data, format).value;
            IsEnvelope(frame.raw, frame.frameType.payload, format.length) && frame.raw <= data
    ensures !IsStatusError(data, format)
  {
    hide *;
    DataIsValidated(data, format);
    var layout := ParseLayout(data, format.length).value;
    Validated(layout, data);
    LayoutFields(data, format.length);
    var start, n := layout.dataStart, layout.length;
    FrameEnds(layout);
    if start == NORMAL_DATA_START {
      NormalShape(data, data[start..start + n]);
    } else {
      ExtendedShape(data, data[start..start + n], format.length);
    }
    EnvelopeShape(data[..start + n + 2], data[start..start + n], format.length);
  }

  lemma FrameEnds(layout: FrameLayout)
    ensures layout.FrameLen() == layout.dataStart + layout.length + 2
    ensures NORMAL_DATA_START == 5 && EXTENDED_DATA_START == 8 && NORMAL_LENGTH_LIMIT == 256
  {
  }

  lemma EnvelopeShape(raw: seq<byte>, payload: seq<byte>, encoding: LengthEncoding)
    requires (|payload| < NORMAL_LENGTH_LIMIT && raw == NormalEnvelope(payload))
             || (!encoding.Normal? && |payload| < 0x1_0000
                 && raw == ExtendedEnvelope(LengthBytes(encoding, |payload|), payload))
    ensures IsEnvelope(raw, payload, encoding)
  {
  }

  /** What the length field of a layout says, in either form. */
  lemma LayoutFields(data: seq<byte>, encoding: LengthEncoding)
    requires ParseLayout(data, encoding).Some?
    ensures var layout := ParseLayout(data, encoding).value;
            if layout.dataStart == NORMAL_DATA_START then
              && |data| >= 5 && layout.length == data[3] as nat
              && layout.lengthBytes == [data[3]] && layout.lcs == data[4]
            else
              && layout.dataStart == EXTENDED_DATA_START && !encoding.Normal? && |data| >= 8
              && data[3..5] == EXTENDED_LENGTH_MARKER && layout.lengthBytes == data[5..7] && layout.lcs == data[7]
              && layout.length == ExtendedLength(data[5], data[6], encoding)
  {
  }

  lemma NormalShape(data: seq<byte>, payload: seq<byte>)
    requires |payload| < NORMAL_LENGTH_LIMIT && |payload| + 7 <= |data| && HasSof(data)
    requires data[3] == |payload| && data[4] == Checksum([|payload|])
    requires payload == data[5..5 + |payload|]
    requires data[5 + |payload|] == Checksum(payload) && data[6 + |payload|] == POSTAMBLE
    ensures data[..|payload| + 7] == NormalEnvelope(payload)
  {
    var n := |payload|;
    assert data[..n + 7] == data[..3] + [data[3], data[4]] + data[5..5 + n] + [data[5 + n], data[6 + n]];
  }

  lemma ExtendedShape(data: seq<byte>, payload: seq<byte>, encoding: LengthEncoding)
    requires |payload| < 0x1_0000 && |payload| + 10 <= |data| && HasSof(data)
    requires data[3..5] == EXTENDED_LENGTH_MARKER
    requires |payload| == ExtendedLength(data[5], data[6], encoding) as nat
    requires data[7] == Checksum(data[5..7])
    requires payload == data[8..8 + |payload|]
    requires data[8 + |payload|] == Checksum(payload) && data[9 + |payload|] == POSTAMBLE
    ensures data[..|payload| + 10] == ExtendedEnvelope(LengthBytes(encoding, |payload|), payload)
  {
    hide Checksum, LengthBytes, ExtendedLength;
    var n := |payload|;
    LengthBytesOf(data[5], data[6], encoding);
    assert data[5..7] == [data[5], data[6]];
    assert data[..n + 10]
        == data[..3] + data[3..5] + data[5..7] + [data[7]] + data[8..8 + n] + [data[8 + n], data[9 + n]];
  }

  lemma LengthBytesOf(first: byte, second: byte, encoding: LengthEncoding)
    ensures LengthBytes(encoding, ExtendedLength(first, second, encoding)) == [first, second]
  {
  }

  /**
   Parsing is exact: it yields data `payload` in frame `raw` for precisely those
   inputs that begin with an envelope of `payload` and are not a status error.
   */
  lemma ParseIsExact(data: seq<byte>, format: Format, raw: seq<byte>, payload: seq<byte>)
    ensures Parse(data, format) == Some(Frame(raw, Data(payload)))
            <==> IsEnvelope(raw, payload, format.length) && raw <= data && !IsStatusError(data, format)
  {
    if Parse(data, format) == Some(Frame(raw, Data(payload))) {
      ParsedIsEnvelope(data, format);
    } else if IsEnvelope(raw, payload, format.length) && raw <= data && !IsStatusError(data, format) {
      if |payload| < NORMAL_LENGTH_LIMIT && raw == NormalEnvelope(payload) {
        NormalIsParsed(payload, data, format);
      } else {
        ExtendedIsParsed(payload, data, format);
      }
      assert false;
    }
  }

  /**
   The round trip in every dialect, with any bytes behind the frame: what was built
   is read back, and nothing more, exactly when the length fits its 16 bits and the
   payload does not look like an error report.
   */
  lemma RoundTrip(payload: seq<byte>, trailing: seq<byte>, format: Format)
    requires format.length.Normal? ==> |payload| < NORMAL_LENGTH_LIMIT
    requires format == PORT100 || format == RCS320 || format == RCS956
    ensures var raw := Encode(payload, format.length);
            Parse(raw + trailing, format) == Some(Frame(raw, Data(payload)))
            <==> |payload| < 0x1_0000
                 && !(format == RCS320 && payload != [] && payload[0] == STATUS_ERROR_BYTE)
  {
    var raw := Encode(payload, format.length);
    ParseIsExact(raw + trailing, format, raw, payload);
    assert raw <= raw + trailing;
    EncodeIsEnvelope(payload, format.length);
    if format == RCS320 {
      FirstPayloadByte(payload, trailing);
    } else {
      assert !IsStatusError(raw + trailing, format);
    }
  }

  lemma EncodeIsEnvelope(payload: seq<byte>, encoding: LengthEncoding)
    requires encoding.Normal? ==> |payload| < NORMAL_LENGTH_LIMIT
    ensures IsEnvelope(Encode(payload, encoding), payload, encoding) <==> |payload| < 0x1_0000
  {
    hide Checksum, LengthBytes, NormalEnvelope, ExtendedEnvelope;
    if |payload| < 0x1_0000 {
      assert |payload| % 0x1_0000 == |payload|;
    }
  }

  /** In a normal frame the byte behind the length is the first of the payload, or its zero checksum. */
  lemma FirstPayloadByte(payload: seq<byte>, trailing: seq<byte>)
    requires |payload| < NORMAL_LENGTH_LIMIT
    ensures var data := NormalEnvelope(payload) + trailing;
            |data| > 5 && data[5] == if payload == [] then 0 else payload[0]
  {
    var data := NormalEnvelope(payload) + trailing;
    assert data == SOF + [|payload|, Checksum([|payload|])] + (payload + [Checksum(payload), POSTAMBLE] + trailing);
    assert data[5] == (payload + [Checksum(payload), POSTAMBLE] + trailing)[0];
  }
}
