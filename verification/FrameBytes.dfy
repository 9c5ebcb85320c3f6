/** What the three readers' frames are, byte by byte, and what every byte string is parsed as. */
module FrameBytes {
  import opened Bytes
  import opened Wrappers
  import opened Framing

  // ---------------------------------------------------------------- what is sent

  /** The byte that brings the sum of some bytes to a multiple of 256. */
  ghost predicate Balances(bytes: seq<byte>, c: byte) { (Sum(bytes) + c as int) % 256 == 0 }

  lemma ChecksumBalances(bytes: seq<byte>)
    ensures Balances(bytes, Checksum(bytes))
  {
    ChecksumIsExact(bytes, Checksum(bytes));
  }

  /** A start of frame, the length and its complement, the payload and its checksum, and a zero. */
  lemma NormalEnvelopeIs(payload: seq<byte>)
    requires |payload| < 256
    ensures Balances(payload, Checksum(payload))
    ensures NormalEnvelope(payload)
            == [0x00, 0x00, 0xFF, |payload|, (256 - |payload|) % 256] + payload + [Checksum(payload), 0x00]
  {
    var n: byte := |payload|;
    ChecksumBalances(payload);
    ChecksumBalances([n]);
    assert [n][..0] == [] && Sum([n]) == n;
    assert Checksum([n]) == (256 - n) % 256;
    hide Checksum;
    assert NormalEnvelope(payload)
        == SOF + [n, Checksum([n])] + payload + [Checksum(payload), 0x00];
  }

  /** The same with FF FF, two bytes of length, and one that completes them. */
  lemma ExtendedEnvelopeIs(a: byte, b: byte, payload: seq<byte>)
    ensures Balances(payload, Checksum(payload))
    ensures ExtendedEnvelope([a, b], payload)
            == [0x00, 0x00, 0xFF, 0xFF, 0xFF, a, b, (512 - a as int - b as int) % 256]
               + payload + [Checksum(payload), 0x00]
  {
    ChecksumBalances(payload);
    ChecksumBalances([a, b]);
    assert [a, b][..1] == [a] && [a][..0] == [] && Sum([a]) == a && Sum([a, b]) == a as int + b as int;
    assert Checksum([a, b]) == (512 - a as int - b as int) % 256;
    hide Checksum;
    assert ExtendedEnvelope([a, b], payload)
        == SOF + EXTENDED_LENGTH_MARKER + [a, b] + [Checksum([a, b])] + payload + [Checksum(payload), 0x00];
  }

  /**
   The Port-100 frames every payload with an extended length, low byte first; the RC-S956 one
   of 256 bytes or more, high byte first; all else has one byte of length.
   */
  lemma FramesAre(payload: seq<byte>)
    requires |payload| < 0x1_0000
    ensures var low, high := |payload| % 256, |payload| / 256;
            && Encode(payload, PORT100.length) == ExtendedEnvelope([low, high], payload)
            && Encode(payload, RCS956.length)
               == (if |payload| < 256 then NormalEnvelope(payload) else ExtendedEnvelope([high, low], payload))
            && (|payload| < 256 ==> Encode(payload, RCS320.length) == NormalEnvelope(payload))
  {
    hide NormalEnvelope, ExtendedEnvelope, Checksum;
    assert |payload| % 0x1_0000 == |payload|;
  }

  // -------------------------------------------------------------- what is received

  predicate IsAckBytes(data: seq<byte>) { data == [0x00, 0x00, 0xFF, 0x00, 0xFF, 0x00] }

  /** How a reader reports an error: the RC-S320 by 7F at the head of a payload, the others by their error frame. */
  predicate IsErrorBytes(data: seq<byte>, format: Format) {
    if format == RCS320 then |data| >= 6 && data[..3] == [0x00, 0x00, 0xFF] && data[5] == 0x7F
    else data == [0x00, 0x00, 0xFF, 0xFF, 0xFF, 0x00]
  }

  /** Some bytes at the front are an envelope of `payload` for this reader. */
  ghost predicate HoldsEnvelope(data: seq<byte>, payload: seq<byte>, format: Format) {
    || (|payload| < 256 && NormalEnvelope(payload) <= data)
    || (format == PORT100 && |payload| < 0x1_0000
        && ExtendedEnvelope([|payload| % 256, |payload| / 256], payload) <= data)
    || (format == RCS956 && |payload| < 0x1_0000
        && ExtendedEnvelope([|payload| / 256, |payload| % 256], payload) <= data)
  }

  lemma EnvelopesAre(data: seq<byte>, payload: seq<byte>, format: Format)
    requires format == PORT100 || format == RCS320 || format == RCS956
    ensures HoldsEnvelope(data, payload, format)
            <==> exists raw :: IsEnvelope(raw, payload, format.length) && raw <= data
  {
    if |payload| < 256 && NormalEnvelope(payload) <= data {
      assert IsEnvelope(NormalEnvelope(payload), payload, format.length);
    }
    if |payload| < 0x1_0000 && format != RCS320 {
      var raw := ExtendedEnvelope(LengthBytes(format.length, |payload|), payload);
      assert IsEnvelope(raw, payload, format.length);
    }
  }

  /**
   In the three dialects, for every byte string: an ACK, an error report, or data is parsed
   exactly if the bytes are those of an ACK, of an error, or else start with an envelope.
   */
  lemma ParsedAs(data: seq<byte>, format: Format, payload: seq<byte>)
    requires format == PORT100 || format == RCS320 || format == RCS956
    ensures var parsed := Parse(data, format);
            && (parsed.Some? && parsed.value.frameType.Ack? <==> IsAckBytes(data))
            && (parsed.Some? && parsed.value.frameType.Error? <==> IsErrorBytes(data, format))
            && (parsed.Some? && parsed.value.frameType == Data(payload)
                <==> !IsErrorBytes(data, format) && HoldsEnvelope(data, payload, format))
  {
    AckOrError(data, format);
    EnvelopesAre(data, payload, format);
    hide HoldsEnvelope, IsEnvelope;
    var parsed := Parse(data, format);
    if parsed.Some? && parsed.value.frameType == Data(payload) {
      ParseIsExact(data, format, parsed.value.raw, payload);
    }
    if !IsErrorBytes(data, format) && HoldsEnvelope(data, payload, format) {
      var raw :| IsEnvelope(raw, payload, format.length) && raw <= data;
      NoStatus(data, format, raw, payload);
      ParseIsExact(data, format, raw, payload);
    }
  }

  lemma NoStatus(data: seq<byte>, format: Format, raw: seq<byte>, payload: seq<byte>)
    requires format == PORT100 || format == RCS320 || format == RCS956
    requires IsEnvelope(raw, payload, format.length) && raw <= data && !IsErrorBytes(data, format)
    ensures !IsStatusError(data, format)
  {
    if format == RCS320 {
      NormalFields(payload, data);
    }
  }

  lemma AckOrError(data: seq<byte>, format: Format)
    requires format == PORT100 || format == RCS320 || format == RCS956
    ensures var parsed := Parse(data, format);
            && (parsed.Some? && parsed.value.frameType.Ack? <==> IsAckBytes(data))
            && (parsed.Some? && parsed.value.frameType.Error? <==> IsErrorBytes(data, format))
  {
    assert ACK_BYTES[..3] == SOF && ERROR_BYTES[..3] == SOF;
    hide FrameLayout.ValidatedPayload, ParseLayout;
  }
}
