/** Which frames altered in one byte the parser still takes for data. */
module FrameErrors {
  import opened Bytes
  import opened Wrappers
  import opened Framing

  predicate IsExtended(len: nat, encoding: LengthEncoding) {
    encoding.ExtendedLittleEndian? || (encoding.NormalOrExtendedBigEndian? && len >= NORMAL_LENGTH_LIMIT)
  }

  /** Where a built frame's payload starts. */
  function PayloadStart(len: nat, encoding: LengthEncoding): nat {
    if IsExtended(len, encoding) then EXTENDED_DATA_START else NORMAL_DATA_START
  }

  // ---------------------------------------------------------------- what is rejected

  lemma LayoutOfNormal(data: seq<byte>, encoding: LengthEncoding)
    requires |data| >= 7 && (encoding.Normal? || data[3..5] != EXTENDED_LENGTH_MARKER)
    ensures ParseLayout(data, encoding) == Some(FrameLayout(data[3], [data[3]], data[4], 5))
  {
  }

  lemma LayoutOfExtended(data: seq<byte>, encoding: LengthEncoding)
    requires |data| >= 8 && !encoding.Normal? && data[3..5] == EXTENDED_LENGTH_MARKER
    ensures ParseLayout(data, encoding)
            == Some(FrameLayout(ExtendedLength(data[5], data[6], encoding), data[5..7], data[7], 8))
  {
  }

  /** The first `length` bytes are followed by their checksum and the postamble. */
  predicate Completes(bytes: seq<byte>, length: nat) {
    && length + 1 < |bytes|
    && bytes[length] == Checksum(bytes[..length]) && bytes[length + 1] == POSTAMBLE
  }

  /** Bytes with a one-byte length are data exactly if both checksums and the postamble are right. */
  lemma NormalIsData(data: seq<byte>, format: Format)
    requires |data| >= 7 && (format.length.Normal? || data[3..5] != EXTENDED_LENGTH_MARKER)
    ensures IsData(data, format)
            <==> && !IsStatusError(data, format) && data[..3] == SOF
                 && data[4] == Checksum([data[3]]) && Completes(data[5..], data[3])
  {
    LayoutOfNormal(data, format.length);
    LayoutDecides(data, format, FrameLayout(data[3], [data[3]], data[4], 5));
  }

  /** So are bytes with an extended length. */
  lemma ExtendedIsData(data: seq<byte>, format: Format)
    requires |data| >= 8 && !format.length.Normal? && data[3..5] == EXTENDED_LENGTH_MARKER
    ensures IsData(data, format)
            <==> && !IsStatusError(data, format) && data[..3] == SOF
                 && data[7] == Checksum(data[5..7])
                 && Completes(data[8..], ExtendedLength(data[5], data[6], format.length))
  {
    var length := ExtendedLength(data[5], data[6], format.length);
    LayoutOfExtended(data, format.length);
    LayoutDecides(data, format, FrameLayout(length, data[5..7], data[7], 8));
  }

  lemma LayoutDecides(data: seq<byte>, format: Format, layout: FrameLayout)
    requires |data| >= 7 && layout.dataStart <= |data| && ParseLayout(data, format.length) == Some(layout)
    ensures IsData(data, format)
            <==> && !IsStatusError(data, format) && data[..3] == SOF
                 && layout.lcs == Checksum(layout.lengthBytes) && Completes(data[layout.dataStart..], layout.length)
  {
    hide Checksum, ParseLayout, FrameLayout.ValidatedPayload;
    Validated(layout, data);
    var start, end := layout.dataStart, layout.dataStart + layout.length;
    if end < |data| {
      assert data[start..][..layout.length] == data[start..end];
    }
  }

  /** Changing one byte changes the checksum, wherever it stands. */
  lemma ChangedSum(bytes: seq<byte>, i: nat, y: byte)
    requires i < |bytes| && y != bytes[i]
    ensures Checksum(bytes[i := y]) != Checksum(bytes)
  {
    var before, after := bytes[..i], bytes[i + 1..];
    OneByteChangesChecksum(before, bytes[i], y, after);
    assert bytes == before + [bytes[i]] + after;
    assert bytes[i := y] == before + [y] + after;
  }

  lemma NormalBytes(payload: seq<byte>, trailing: seq<byte>)
    requires |payload| < NORMAL_LENGTH_LIMIT
    ensures var data, n := NormalEnvelope(payload) + trailing, |payload|;
            && |data| == n + 7 + |trailing| && data[..3] == SOF && data[3] == n && data[4] == Checksum([n])
            && data[5..5 + n] == payload && data[5 + n] == Checksum(payload) && data[6 + n] == POSTAMBLE
  {
    NormalFields(payload, NormalEnvelope(payload) + trailing);
  }

  /**
   One changed byte in a frame of the normal form is detected unless it turns the
   length and its checksum into the marker of the extended form.
   */
  lemma NormalChanged(payload: seq<byte>, p: nat, y: byte, trailing: seq<byte>, format: Format)
    requires |payload| < NORMAL_LENGTH_LIMIT && p < |payload| + 7
    requires y != NormalEnvelope(payload)[p]
    ensures var data := NormalEnvelope(payload)[p := y] + trailing;
            !IsData(data, format)
            || (!format.length.Normal? && (p == 3 || p == 4) && data[3..5] == EXTENDED_LENGTH_MARKER)
  {
    var sent := NormalEnvelope(payload) + trailing;
    assert NormalEnvelope(payload)[p := y] + trailing == sent[p := y];
    NormalBytes(payload, trailing);
    LengthIsNoMarker(|payload|);
    hide NormalEnvelope, IsData, Checksum;
    if p < 5 {
      NormalHeadChanged(sent, p, y, format);
    } else {
      NormalTailChanged(sent, payload, p, y, format);
    }
  }

  lemma NormalHeadChanged(sent: seq<byte>, p: nat, y: byte, format: Format)
    requires |sent| >= 7 && sent[..3] == SOF && sent[4] == Checksum([sent[3]])
    requires p < 5 && y != sent[p] && sent[3..5] != EXTENDED_LENGTH_MARKER
    ensures !IsData(sent[p := y], format)
            || (!format.length.Normal? && (p == 3 || p == 4) && sent[p := y][3..5] == EXTENDED_LENGTH_MARKER)
  {
    hide IsData, Checksum;
    var data := sent[p := y];
    if p < 3 {
      assert data[..3][p] == y && sent[..3][p] == sent[p] && data[3..5] == sent[3..5];
    } else if p == 3 {
      ChangedSum([sent[3]], 0, y);
      assert [sent[3]][0 := y] == [y];
    }
    if format.length.Normal? || data[3..5] != EXTENDED_LENGTH_MARKER {
      NormalIsData(data, format);
    }
  }

  lemma NormalTailChanged(sent: seq<byte>, payload: seq<byte>, p: nat, y: byte, format: Format)
    requires 5 <= p < |payload| + 7 <= |sent| && y != sent[p]
    requires sent[3] as nat == |payload| && sent[3..5] != EXTENDED_LENGTH_MARKER
    requires sent[5..5 + |payload|] == payload && sent[5 + |payload|] == Checksum(payload)
    requires sent[6 + |payload|] == POSTAMBLE
    ensures !IsData(sent[p := y], format)
  {
    hide IsData, Checksum;
    var n, data := |payload|, sent[p := y];
    assert data[3..5] == sent[3..5];
    if p < 5 + n {
      ChangedSum(payload, p - 5, y);
      assert data[5..][..n] == payload[p - 5 := y];
    } else {
      assert data[5..][..n] == payload;
    }
    NormalIsData(data, format);
  }

  /**
   So is one in a frame of the extended form, unless it turns its marker into a length
   and its checksum: into 01 FF, or FF 01.
   */
  lemma ExtendedChanged(payload: seq<byte>, p: nat, y: byte, trailing: seq<byte>, format: Format)
    requires |payload| < 0x1_0000 && p < |payload| + 10 && !format.length.Normal?
    requires y != ExtendedEnvelope(LengthBytes(format.length, |payload|), payload)[p]
    ensures var data := ExtendedEnvelope(LengthBytes(format.length, |payload|), payload)[p := y] + trailing;
            !IsData(data, format) || (p == 3 && y == 0x01) || (p == 4 && y == 0x01)
  {
    var bytes := LengthBytes(format.length, |payload|);
    var sent := ExtendedEnvelope(bytes, payload) + trailing;
    assert ExtendedEnvelope(bytes, payload)[p := y] + trailing == sent[p := y];
    ExtendedFields(bytes, payload, sent);
    hide ExtendedEnvelope, IsData, Checksum, LengthBytes;
    if p == 3 || p == 4 {
      MarkerChanged(sent, p, y, format);
    } else if p < 7 {
      LengthChanged(sent, p, y, format);
    } else {
      PayloadChanged(sent, payload, p, y, format);
    }
  }

  lemma MarkerChanged(sent: seq<byte>, p: nat, y: byte, format: Format)
    requires |sent| >= 10 && !format.length.Normal? && sent[3..5] == EXTENDED_LENGTH_MARKER
    requires (p == 3 || p == 4) && y != sent[p]
    ensures !IsData(sent[p := y], format) || y == 0x01
  {
    hide IsData, Checksum;
    var data := sent[p := y];
    assert sent[3] == sent[3..5][0] && sent[4] == sent[3..5][1];
    assert data[3..5][p - 3] == y;
    if IsData(data, format) {
      NormalIsData(data, format);
      MarkerChecksum(data[3], data[4]);
    }
  }

  lemma LengthChanged(sent: seq<byte>, p: nat, y: byte, format: Format)
    requires |sent| >= 10 && !format.length.Normal? && sent[..3] == SOF && sent[3..5] == EXTENDED_LENGTH_MARKER
    requires sent[7] == Checksum([sent[5], sent[6]])
    requires (p < 3 || p == 5 || p == 6) && y != sent[p]
    ensures !IsData(sent[p := y], format)
  {
    hide IsData, Checksum;
    var data := sent[p := y];
    assert data[3..5] == sent[3..5];
    if p < 3 {
      assert data[..3][p] == y && sent[..3][p] == sent[p];
    } else {
      ChangedSum([sent[5], sent[6]], p - 5, y);
      assert data[5..7] == [sent[5], sent[6]][p - 5 := y];
    }
    ExtendedIsData(data, format);
  }

  lemma LengthIsRead(n: u16, encoding: LengthEncoding)
    ensures ExtendedLength(LengthBytes(encoding, n)[0], LengthBytes(encoding, n)[1], encoding) == n
  {
    assert FromBytes(LowByte(n), HighByte(n)) == n;
  }

  lemma PayloadChanged(sent: seq<byte>, payload: seq<byte>, p: nat, y: byte, format: Format)
    requires |payload| < 0x1_0000 && !format.length.Normal? && 7 <= p < |payload| + 10 <= |sent| && y != sent[p]
    requires sent[3..5] == EXTENDED_LENGTH_MARKER
    requires sent[5] == LengthBytes(format.length, |payload|)[0] && sent[6] == LengthBytes(format.length, |payload|)[1]
    requires sent[7] == Checksum([sent[5], sent[6]]) && sent[8..8 + |payload|] == payload
    requires sent[8 + |payload|] == Checksum(payload) && sent[9 + |payload|] == POSTAMBLE
    ensures !IsData(sent[p := y], format)
  {
    hide IsData, Checksum, LengthBytes, ExtendedLength;
    var n, data := |payload|, sent[p := y];
    LengthIsRead(n, format.length);
    assert data[3..5] == sent[3..5] && data[5..7] == [sent[5], sent[6]];
    if 8 <= p < 8 + n {
      ChangedSum(payload, p - 8, y);
      assert data[8..][..n] == payload[p - 8 := y];
    } else {
      assert data[8..][..n] == payload;
    }
    ExtendedIsData(data, format);
  }

  lemma MarkerChecksum(length: byte, checksum: byte)
    requires checksum == Checksum([length])
    ensures length == 0xFF ==> checksum == 0x01
    ensures checksum == 0xFF ==> length == 0x01
  {
    assert [length][..0] == [] && Sum([length]) == length;
    ChecksumIsExact([length], checksum);
  }

  // ------------------------------------------------------------------ what still passes

  /** What follows the length field in a built frame, and then the frame. */
  function Rest(payload: seq<byte>, trailing: seq<byte>): seq<byte> {
    payload + [Checksum(payload), POSTAMBLE] + trailing
  }

  lemma ChecksumOfOne(b: byte)
    ensures Sum([b]) == b && Checksum([1]) == 0xFF && Checksum([0xFF]) == 0x01
  {
    assert [b][..0] == [];
    var one: byte, all: byte := 1, 0xFF;
    assert [one][..0] == [] && [all][..0] == [];
    ChecksumIsExact([one], 0xFF);
    ChecksumIsExact([all], 0x01);
  }

  /** Bytes with their checksum add nothing to the checksum of what follows. */
  lemma ChecksumBehind(bytes: seq<byte>, rest: seq<byte>)
    ensures Checksum(bytes + [Checksum(bytes)] + rest) == Checksum(rest)
  {
    hide Checksum, ChecksumMatches, Sum;
    var sum, c := Checksum(bytes), Checksum(rest);
    SumAround(bytes, sum, rest);
    ChecksumIsExact(bytes, sum);
    ChecksumIsExact(rest, c);
    ChecksumIsExact(bytes + [sum] + rest, c);
  }

  /** Two bytes sum to zero exactly if one is the other's checksum, and then their checksum is zero. */
  lemma TwoByteSum(a: byte, b: byte)
    ensures (a + b as int) % 256 == 0 <==> b == Checksum([a])
    ensures (a + b as int) % 256 == 0 <==> Checksum([a, b]) == 0
  {
    ChecksumOfOne(a);
    ChecksumIsExact([a], b);
    assert [a, b][..1] == [a];
    ChecksumIsExact([a, b], 0);
  }

  /** A marker changed to 01 FF announces one byte: the first of the length, with the second as its checksum. */
  lemma MarkerToOne(payload: seq<byte>, trailing: seq<byte>, format: Format)
    requires |payload| < 0x1_0000 && !format.length.Normal?
    ensures var bytes := LengthBytes(format.length, |payload|);
            var data := ExtendedEnvelope(bytes, payload)[3 := 0x01] + trailing;
            IsData(data, format) <==> !IsStatusError(data, format) && (bytes[0] + bytes[1] as int) % 256 == 0
  {
    var bytes := LengthBytes(format.length, |payload|);
    var data := ExtendedEnvelope(bytes, payload)[3 := 0x01] + trailing;
    ChangedMarker(bytes, payload, 3, trailing);
    ChecksumOfOne(0);
    TwoByteSum(bytes[0], bytes[1]);
    assert bytes == [bytes[0], bytes[1]];
    hide IsData, Checksum, LengthBytes, ExtendedEnvelope;
    assert data[3..5] != EXTENDED_LENGTH_MARKER by { assert data[3..5][0] == 0x01; }
    assert data[5..][0] == bytes[0] && data[5..][1] == bytes[1] && data[5..][2] == Checksum(bytes);
    assert data[5..][..1] == [bytes[0]];
    NormalIsData(data, format);
  }

  /** A marker changed to FF 01 announces 255 bytes: the length, its checksum, and 252 bytes behind them. */
  lemma MarkerToMost(payload: seq<byte>, trailing: seq<byte>, format: Format)
    requires |payload| < 0x1_0000 && !format.length.Normal?
    ensures var data := ExtendedEnvelope(LengthBytes(format.length, |payload|), payload)[4 := 0x01] + trailing;
            IsData(data, format) <==> !IsStatusError(data, format) && Completes(Rest(payload, trailing), 252)
  {
    var bytes, rest := LengthBytes(format.length, |payload|), Rest(payload, trailing);
    var data := ExtendedEnvelope(bytes, payload)[4 := 0x01] + trailing;
    ChangedMarker(bytes, payload, 4, trailing);
    ChecksumOfOne(0);
    hide IsData, Checksum, LengthBytes, ExtendedEnvelope, Rest;
    assert data[3..5] != EXTENDED_LENGTH_MARKER by { assert data[3..5][1] == 0x01; }
    assert data[5..] == bytes + [Checksum(bytes)] + rest;
    if |rest| > 253 {
      assert data[5..][..255] == bytes + [Checksum(bytes)] + rest[..252];
      ChecksumBehind(bytes, rest[..252]);
      assert data[5..][255] == rest[252] && data[5..][256] == rest[253];
    }
    NormalIsData(data, format);
  }

  lemma ChangedMarker(bytes: seq<byte>, payload: seq<byte>, p: nat, trailing: seq<byte>)
    requires |bytes| == 2 && (p == 3 || p == 4)
    ensures |ExtendedEnvelope(bytes, payload)| > 4
    ensures var data := ExtendedEnvelope(bytes, payload)[p := 0x01] + trailing;
            && |data| >= 10 && data[..3] == SOF && data[p] == 0x01 && data[7 - p] == 0xFF
            && data[5..] == bytes + [Checksum(bytes)] + Rest(payload, trailing)
  {
    var head := SOF + EXTENDED_LENGTH_MARKER;
    var changed := head[p := 0x01];
    assert ExtendedEnvelope(bytes, payload)[p := 0x01] + trailing
        == changed + (bytes + [Checksum(bytes)] + Rest(payload, trailing));
    assert |changed| == 5 && changed[..3] == SOF;
  }

  /** A length of one changed to FF makes the payload and its checksum an extended length. */
  lemma OneToMarker(payload: seq<byte>, trailing: seq<byte>, format: Format)
    requires |payload| == 1 && format.length.NormalOrExtendedBigEndian?
    ensures var data := NormalEnvelope(payload)[3 := 0xFF] + trailing;
            IsData(data, format)
            <==> !IsStatusError(data, format) && Completes(trailing, FromBytes(Checksum(payload), payload[0]))
  {
    var b, data := payload[0], NormalEnvelope(payload)[3 := 0xFF] + trailing;
    assert payload == [b];
    TwoByteSum(b, Checksum([b]));
    LengthOneAltered(b, trailing);
    hide IsData, Checksum, NormalEnvelope;
    assert data[..3] == SOF && data[3..5] == EXTENDED_LENGTH_MARKER;
    assert data[5..7] == [b, Checksum([b])] && data[8..] == trailing;
    ExtendedIsData(data, format);
  }

  lemma LengthOneAltered(b: byte, trailing: seq<byte>)
    ensures |NormalEnvelope([b])| == 8
    ensures NormalEnvelope([b])[3 := 0xFF] + trailing
            == SOF + EXTENDED_LENGTH_MARKER + [b, Checksum([b]), POSTAMBLE] + trailing
  {
    ChecksumOfOne(b);
    hide Checksum, Sum;
    assert NormalEnvelope([b])[3 := 0xFF] == SOF + EXTENDED_LENGTH_MARKER + [b, Checksum([b]), POSTAMBLE];
  }

  /** The checksum of a length of 255 changed to FF makes the payload's first two bytes an extended length. */
  lemma MostToMarker(payload: seq<byte>, trailing: seq<byte>, format: Format)
    requires |payload| == 255 && format.length.NormalOrExtendedBigEndian?
    ensures var data := NormalEnvelope(payload)[4 := 0xFF] + trailing;
            IsData(data, format)
            <==> && !IsStatusError(data, format) && payload[2] == Checksum(payload[..2])
                 && Completes(Rest(payload, trailing)[3..], FromBytes(payload[1], payload[0]))
  {
    var data := NormalEnvelope(payload)[4 := 0xFF] + trailing;
    assert data == SOF + EXTENDED_LENGTH_MARKER + Rest(payload, trailing);
    hide IsData, Checksum, NormalEnvelope;
    assert data[..3] == SOF && data[3..5] == EXTENDED_LENGTH_MARKER;
    assert data[5..7] == payload[..2] && data[7] == payload[2];
    assert data[8..] == Rest(payload, trailing)[3..];
    ExtendedIsData(data, format);
  }

  // -------------------------------------------------------------------- the theorems

  /**
   The changed byte switches the form of the length, and what is behind the length completes
   a frame of the other form. Only bytes 3 and 4, the marker or the length and its checksum, can do so.
   */
  predicate StillFrames(payload: seq<byte>, p: nat, y: byte, trailing: seq<byte>, encoding: LengthEncoding)
    requires |payload| < 0x1_0000
  {
    var n, rest := |payload|, Rest(payload, trailing);
    && !encoding.Normal?
    && if IsExtended(n, encoding) then
         y == 0x01
         && if p == 3 then (LengthBytes(encoding, n)[0] + LengthBytes(encoding, n)[1] as int) % 256 == 0
            else p == 4 && Completes(rest, 252)
       else
         y == 0xFF
         && if p == 3 then n == 1 && Completes(trailing, FromBytes(Checksum(payload), payload[0]))
            else p == 4 && n == 255 && payload[2] == Checksum(payload[..2])
                 && Completes(rest[3..], FromBytes(payload[1], payload[0]))
  }

  /**
   In every dialect, at every length that is framed, and whatever follows: a frame with one
   changed byte is still taken for data exactly if the change switches the form of the length
   and the bytes behind it complete a frame of that form.
   */
  lemma AlteredByteIsData(payload: seq<byte>, p: nat, y: byte, trailing: seq<byte>, format: Format)
    requires if format.length.Normal? then |payload| < NORMAL_LENGTH_LIMIT else |payload| < 0x1_0000
    requires p < |Encode(payload, format.length)| && y != Encode(payload, format.length)[p]
    ensures var data := Encode(payload, format.length)[p := y] + trailing;
            IsData(data, format)
            <==> !IsStatusError(data, format) && StillFrames(payload, p, y, trailing, format.length)
  {
    if IsExtended(|payload|, format.length) {
      assert |payload| % 0x1_0000 == |payload|;
      AlteredExtended(payload, p, y, trailing, format);
    } else {
      AlteredNormal(payload, p, y, trailing, format);
    }
  }

  lemma AlteredExtended(payload: seq<byte>, p: nat, y: byte, trailing: seq<byte>, format: Format)
    requires |payload| < 0x1_0000 && IsExtended(|payload|, format.length)
    requires p < |payload| + 10
    requires y != ExtendedEnvelope(LengthBytes(format.length, |payload|), payload)[p]
    ensures var data := ExtendedEnvelope(LengthBytes(format.length, |payload|), payload)[p := y] + trailing;
            IsData(data, format)
            <==> !IsStatusError(data, format) && StillFrames(payload, p, y, trailing, format.length)
  {
    hide IsData, Checksum, LengthBytes, ExtendedEnvelope, Completes, Rest, IsStatusError;
    ExtendedChanged(payload, p, y, trailing, format);
    if y == 0x01 {
      if p == 3 {
        MarkerToOne(payload, trailing, format);
      } else if p == 4 {
        MarkerToMost(payload, trailing, format);
      }
    }
  }

  lemma AlteredNormal(payload: seq<byte>, p: nat, y: byte, trailing: seq<byte>, format: Format)
    requires |payload| < NORMAL_LENGTH_LIMIT && !IsExtended(|payload|, format.length)
    requires p < |payload| + 7 && y != NormalEnvelope(payload)[p]
    ensures var data := NormalEnvelope(payload)[p := y] + trailing;
            IsData(data, format)
            <==> !IsStatusError(data, format) && StillFrames(payload, p, y, trailing, format.length)
  {
    hide IsData, Checksum, LengthBytes, NormalEnvelope, Completes, Rest, IsStatusError;
    NormalChanged(payload, p, y, trailing, format);
    MarkerMade(payload, p, y, trailing);
    if y == 0xFF && !format.length.Normal? {
      if p == 3 && |payload| == 1 {
        OneToMarker(payload, trailing, format);
      } else if p == 4 && |payload| == 255 {
        MostToMarker(payload, trailing, format);
      }
    }
  }

  /** When one changed byte makes a length and its checksum the extended marker. */
  lemma MarkerMade(payload: seq<byte>, p: nat, y: byte, trailing: seq<byte>)
    requires |payload| < NORMAL_LENGTH_LIMIT && p < |payload| + 7 && y != NormalEnvelope(payload)[p]
    ensures var data := NormalEnvelope(payload)[p := y] + trailing;
            |data| >= 7 && (data[3..5] == EXTENDED_LENGTH_MARKER && (p == 3 || p == 4)
                            ==> y == 0xFF && |payload| == if p == 3 then 1 else 255)
  {
    var sent, data := NormalEnvelope(payload) + trailing, NormalEnvelope(payload)[p := y] + trailing;
    assert data == sent[p := y];
    NormalBytes(payload, trailing);
    MarkerChecksum(|payload|, Checksum([|payload|]));
    hide NormalEnvelope, Checksum;
    if data[3..5] == EXTENDED_LENGTH_MARKER {
      assert data[3] == data[3..5][0] && data[4] == data[3..5][1];
    }
  }

  /** So a payload altered in one byte is never taken for data, in any dialect, at any length, whatever follows. */
  lemma AlteredPayloadIsRejected(payload: seq<byte>, i: nat, y: byte, trailing: seq<byte>, format: Format)
    requires i < |payload| && y != payload[i]
    requires if format.length.Normal? then |payload| < NORMAL_LENGTH_LIMIT else |payload| < 0x1_0000
    ensures var raw, start := Encode(payload, format.length), PayloadStart(|payload|, format.length);
            !IsData(raw[start + i := y] + trailing, format)
  {
    var raw, start := Encode(payload, format.length), PayloadStart(|payload|, format.length);
    assert raw[start..start + |payload|] == payload;
    assert raw[start + i] == raw[start..start + |payload|][i];
    AlteredByteIsData(payload, start + i, y, trailing, format);
  }

  /**
   Every Port-100 frame of 252 bytes passes with the second byte of its marker changed to 01:
   it is read as a payload of 255 bytes, the length field and the payload, with nothing left over.
   */
  lemma ChangedFramePasses(payload: seq<byte>)
    requires |payload| == 252
    ensures var data := Encode(payload, PORT100.length)[4 := 0x01];
            var bytes := LeBytes(252);
            Parse(data, PORT100) == Some(Frame(data, Data(bytes + [Checksum(bytes)] + payload)))
  {
    hide IsData, Parse, Checksum, ExtendedEnvelope;
    var bytes := LeBytes(252);
    ChangedMarker(bytes, payload, 4, []);
    var data := Encode(payload, PORT100.length)[4 := 0x01];
    var inner := bytes + [Checksum(bytes)] + payload;
    assert data == ExtendedEnvelope(bytes, payload)[4 := 0x01];
    assert data + [] == data && Rest(payload, [])[..252] == payload;
    MarkerToMost(payload, [], PORT100);
    assert data[5..] == inner + [Checksum(payload), POSTAMBLE];
    FrameOfMost(data, inner);
  }

  lemma FrameOfMost(data: seq<byte>, inner: seq<byte>)
    requires |data| == 262 && |inner| == 255 && data[5..][..255] == inner
    requires data[3] == 0xFF && data[4] == 0x01 && IsData(data, PORT100)
    ensures Parse(data, PORT100) == Some(Frame(data, Data(inner)))
  {
    assert data[3..5] != EXTENDED_LENGTH_MARKER by { assert data[3..5][1] == 0x01; }
    LayoutOfNormal(data, PORT100.length);
    hide Parse, IsData, Checksum, ParseLayout, FrameLayout.ValidatedPayload;
    var layout := FrameLayout(255, [data[3]], data[4], 5);
    DataIsValidated(data, PORT100);
    Validated(layout, data);
    assert data[5..260] == inner && data[..262] == data;
  }
}
