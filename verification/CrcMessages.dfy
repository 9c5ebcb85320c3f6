/** The framed messages of Annex B of ISO/IEC 14443-3, by hexadecimal digits. */
module CrcMessages {
  import opened Bytes
  import opened Crc

  /** The four bits of a hexadecimal digit, lowest first. */
  datatype Hex = Hex(b0: bool, b1: bool, b2: bool, b3: bool)
  {
    function Xor(other: Hex): Hex {
      Hex(b0 != other.b0, b1 != other.b1, b2 != other.b2, b3 != other.b3)
    }

    function Bits(): (bits: seq<bool>)
      ensures |bits| == 4
    {
      [b0, b1, b2, b3]
    }
  }

  /** The hexadecimal digit `d`, for `d` below 16. */
  function H(d: nat): Hex {
    match d
    case 0 => Hex(false, false, false, false)
    case 1 => Hex(true, false, false, false)
    case 2 => Hex(false, true, false, false)
    case 3 => Hex(true, true, false, false)
    case 4 => Hex(false, false, true, false)
    case 5 => Hex(true, false, true, false)
    case 6 => Hex(false, true, true, false)
    case 7 => Hex(true, true, true, false)
    case 8 => Hex(false, false, false, true)
    case 9 => Hex(true, false, false, true)
    case 10 => Hex(false, true, false, true)
    case 11 => Hex(true, true, false, true)
    case 12 => Hex(false, false, true, true)
    case 13 => Hex(true, false, true, true)
    case 14 => Hex(false, true, true, true)
    case 15 => Hex(true, true, true, true)
    case _ => Hex(false, false, false, false)
  }

  lemma Digits()
    ensures H(0) == Hex(false, false, false, false) && H(1) == Hex(true, false, false, false)
    ensures H(2) == Hex(false, true, false, false) && H(3) == Hex(true, true, false, false)
    ensures H(4) == Hex(false, false, true, false) && H(5) == Hex(true, false, true, false)
    ensures H(6) == Hex(false, true, true, false) && H(7) == Hex(true, true, true, false)
    ensures H(8) == Hex(false, false, false, true) && H(9) == Hex(true, false, false, true)
    ensures H(10) == Hex(false, true, false, true) && H(11) == Hex(true, true, false, true)
    ensures H(12) == Hex(false, false, true, true) && H(13) == Hex(true, false, true, true)
    ensures H(14) == Hex(false, true, true, true) && H(15) == Hex(true, true, true, true)
  {
  }

  lemma DigitIs(d: nat)
    requires d < 16
    ensures H(d).Bits() == Digit(d)
  {
  }

  /** A register, its lowest digit first. */
  datatype Register = Register(d0: Hex, d1: Hex, d2: Hex, d3: Hex)
  {
    /** One digit of the message in: the digit that falls out comes back times 1081h. */
    function Feed(digit: Hex): Register {
      var out := d0.Xor(digit);
      Register(d1.Xor(out), d2.Xor(Hex(false, false, false, out.b0)),
               d3.Xor(Hex(out.b1, out.b2, out.b3, false)), out)
    }

    /** One bit out: it comes back at 15, 10 and 3. */
    function Clocked(): Register {
      Register(Hex(d0.b1, d0.b2, d0.b3, d1.b0 != d0.b0), Hex(d1.b1, d1.b2, d1.b3, d2.b0),
               Hex(d2.b1, d2.b2, d2.b3 != d0.b0, d3.b0), Hex(d3.b1, d3.b2, d3.b3, d0.b0))
    }

    function FeedByte(low: Hex, high: Hex): Register { Feed(low).Feed(high) }
  }

  /** The digits of a register's bits. */
  function Of(v: seq<bool>): Register
    requires IsVec(v)
  {
    Register(Hex(v[0], v[1], v[2], v[3]), Hex(v[4], v[5], v[6], v[7]),
             Hex(v[8], v[9], v[10], v[11]), Hex(v[12], v[13], v[14], v[15]))
  }

  lemma SameDigits(v: seq<bool>, w: seq<bool>)
    requires IsVec(v) && IsVec(w) && Of(v) == Of(w)
    ensures v == w
  {
    forall i | 0 <= i < 16
      ensures v[i] == w[i]
    {
      assert i == 0 || i == 1 || i == 2 || i == 3 || i == 4 || i == 5 || i == 6 || i == 7
          || i == 8 || i == 9 || i == 10 || i == 11 || i == 12 || i == 13 || i == 14 || i == 15;
    }
  }

  lemma ClockIs(v: seq<bool>)
    requires IsVec(v)
    ensures forall i | 0 <= i < 16 ::
              Clock(v)[i] == ((i < 15 && v[i + 1]) != (v[0] && (i == 3 || i == 10 || i == 15)))
  {
    assert Polynomial() == [false, false, false, true, false, false, false, false,
                            false, false, true, false, false, false, false, true];
  }

  lemma ClockDigits(v: seq<bool>)
    requires IsVec(v)
    ensures Of(Clock(v)) == Of(v).Clocked()
  {
    ClockIs(v);
    hide Clock;
  }

  /** Each of the four bits that fall out comes back at its own place, and seven and twelve above it. */
  lemma FourTimes(reg: Register)
    ensures reg.Clocked().Clocked().Clocked().Clocked() == reg.Feed(Hex(false, false, false, false))
  {
  }

  lemma FourClocks(v: seq<bool>)
    requires IsVec(v)
    ensures Of(Clocks(4, v)) == Of(v).Feed(Hex(false, false, false, false))
  {
    hide Clock, Of, Register.Clocked, Register.Feed;
    var c1 := Clock(v);
    var c2 := Clock(c1);
    var c3 := Clock(c2);
    assert Clocks(4, v) == Clocks(3, c1) == Clocks(2, c2);
    assert Clocks(2, c2) == Clocks(1, c3) == Clocks(0, Clock(c3));
    ClockDigits(v);
    ClockDigits(c1);
    ClockDigits(c2);
    ClockDigits(c3);
    FourTimes(Of(v));
  }

  lemma FeedIsRun(v: seq<bool>, digit: Hex)
    requires IsVec(v)
    ensures Of(Run(v, digit.Bits())) == Of(v).Feed(digit)
  {
    hide Run, Clocks, Pad, Xor, Of, Hex.Bits;
    RunIsPower(v, digit.Bits());
    FedIn(v, digit);
    FourClocks(Xor(v, Pad(digit.Bits())));
    FeedNothing(Of(v), digit);
  }

  lemma FeedNothing(reg: Register, digit: Hex)
    ensures reg.(d0 := reg.d0.Xor(digit)).Feed(Hex(false, false, false, false)) == reg.Feed(digit)
  {
  }

  lemma FedIn(v: seq<bool>, digit: Hex)
    requires IsVec(v)
    ensures Of(Xor(v, Pad(digit.Bits()))) == Of(v).(d0 := Of(v).d0.Xor(digit))
  {
    Padded(digit);
    hide Pad, Hex.Bits;
  }

  lemma Padded(digit: Hex)
    ensures var p := Pad(digit.Bits());
            && p[0] == digit.b0 && p[1] == digit.b1 && p[2] == digit.b2 && p[3] == digit.b3
            && (forall i | 4 <= i < 16 :: !p[i])
  {
  }

  /** The register after one more byte, given as its low and its high digit. */
  lemma NextByte(start: seq<bool>, data: seq<byte>, low: nat, high: nat)
    requires IsVec(start) && low < 16 && high < 16
    ensures Of(Run(start, Bits(data + [low + 16 * high]))) == Of(Run(start, Bits(data))).FeedByte(H(low), H(high))
  {
    hide Run, Of, H;
    var octet: byte, reg := low + 16 * high, Run(start, Bits(data));
    BitsAppend(data, [octet]);
    assert Bits([octet]) == BitsOfByte(octet) by { assert [octet][1..] == []; }
    ByteBits(low, high);
    RunAppend(start, Bits(data), BitsOfByte(octet));
    RunAppend(reg, H(low).Bits(), H(high).Bits());
    FeedIsRun(reg, H(low));
    FeedIsRun(Run(reg, H(low).Bits()), H(high));
  }

  lemma ByteBits(low: nat, high: nat)
    requires low < 16 && high < 16
    ensures BitsOfByte(low + 16 * high) == H(low).Bits() + H(high).Bits()
  {
    hide Digit, H, ToBits;
    LowDigit(8, low + 16 * high, high, low);
    LowDigit(4, high, 0, high);
    DigitIs(low);
    DigitIs(high);
    assert ToBits(0, 0) == [];
    assert Digit(high) + [] == Digit(high);
  }

  /** A word is its low byte and its high byte. */
  lemma WordDigits(d0: nat, d1: nat, d2: nat, d3: nat)
    requires d0 < 16 && d1 < 16 && d2 < 16 && d3 < 16
    ensures Of(Vec(d0 + 16 * d1 + 256 * (d2 + 16 * d3))) == Register(H(d0), H(d1), H(d2), H(d3))
  {
    hide H, Of, Vec, Bits;
    var low: byte, high: byte := d0 + 16 * d1, d2 + 16 * d3;
    var word: u16 := d0 + 16 * d1 + 256 * (d2 + 16 * d3);
    BytesOfWord(word);
    assert LeBytes(word) == [low, high];
    PairDigits(d0, d1, d2, d3);
  }

  lemma PairDigits(d0: nat, d1: nat, d2: nat, d3: nat)
    requires d0 < 16 && d1 < 16 && d2 < 16 && d3 < 16
    ensures Of(Bits([d0 + 16 * d1, d2 + 16 * d3])) == Register(H(d0), H(d1), H(d2), H(d3))
  {
    hide H, BitsOfByte, Bits;
    ByteBits(d0, d1);
    ByteBits(d2, d3);
    TwoBytes(d0 + 16 * d1, d2 + 16 * d3);
  }

  lemma TwoBytes(a: byte, b: byte)
    ensures Bits([a, b]) == BitsOfByte(a) + BitsOfByte(b)
  {
    hide BitsOfByte;
    assert [a, b][1..] == [b] && [b][1..] == [];
    assert Bits([b]) == BitsOfByte(b);
  }

  /** The two bytes a register is sent as. */
  lemma SentAs(tail: seq<byte>, d0: nat, d1: nat, d2: nat, d3: nat)
    requires d0 < 16 && d1 < 16 && d2 < 16 && d3 < 16
    requires |tail| == 2 && Of(Bits(tail)) == Register(H(d0), H(d1), H(d2), H(d3))
    ensures tail == [d0 + 16 * d1, d2 + 16 * d3]
  {
    hide H, Of, Bits;
    var sent: seq<byte> := [d0 + 16 * d1, d2 + 16 * d3];
    PairDigits(d0, d1, d2, d3);
    SameDigits(Bits(tail), Bits(sent));
    BitsIsInjective(tail, sent);
  }

  // ------------------------------------------------------------------------ CRC_A

  lemma ZeroOnceA()
    ensures Register(H(3), H(6), H(3), H(6)).FeedByte(H(0), H(0)) == Register(H(14), H(15), H(1), H(5))
  {
    hide H;
    Digits();
  }

  lemma ZeroTwiceA()
    ensures Register(H(14), H(15), H(1), H(5)).FeedByte(H(0), H(0)) == Register(H(0), H(10), H(14), H(1))
  {
    hide H;
    Digits();
  }

  lemma FirstOf1234()
    ensures Register(H(3), H(6), H(3), H(6)).FeedByte(H(2), H(1)) == Register(H(13), H(6), H(2), H(6))
  {
    hide H;
    Digits();
  }

  lemma SecondOf1234()
    ensures Register(H(13), H(6), H(2), H(6)).FeedByte(H(4), H(3)) == Register(H(6), H(2), H(15), H(12))
  {
    hide H;
    Digits();
  }

  /** The bytes 00 00 are framed with A0 1E, and 12 34 with 26 CF. */
  lemma AnnexBMessagesA(framed: seq<byte>)
    requires |framed| == 4 && Checks(framed, CRC_A_INIT, false)
    ensures framed[..2] == [0x00, 0x00] ==> framed[2..] == [0xA0, 0x1E]
    ensures framed[..2] == [0x12, 0x34] ==> framed[2..] == [0x26, 0xCF]
  {
    hide Checks, Register.FeedByte, H, Of;
    ZeroOnceA();
    ZeroTwiceA();
    FirstOf1234();
    SecondOf1234();
    if framed[..2] == [0x00, 0x00] {
      TwoBytesA(framed, 0, 0, 0, 0);
      SentAs(framed[2..], 0, 10, 14, 1);
    } else if framed[..2] == [0x12, 0x34] {
      TwoBytesA(framed, 2, 1, 4, 3);
      SentAs(framed[2..], 6, 2, 15, 12);
    }
  }

  lemma TwoBytesA(framed: seq<byte>, l0: nat, h0: nat, l1: nat, h1: nat)
    requires l0 < 16 && h0 < 16 && l1 < 16 && h1 < 16
    requires |framed| == 4 && framed[..2] == [l0 + 16 * h0, l1 + 16 * h1] && Checks(framed, CRC_A_INIT, false)
    ensures Of(Bits(framed[2..]))
            == Register(H(3), H(6), H(3), H(6)).FeedByte(H(l0), H(h0)).FeedByte(H(l1), H(h1))
  {
    hide Register.FeedByte, Vec, H, Run, Bits, Mask, Of;
    var start := Vec(CRC_A_INIT);
    WordDigits(3, 6, 3, 6);
    Nothing(start);
    NextByte(start, [], l0, h0);
    assert [] + [l0 + 16 * h0] == [l0 + 16 * h0];
    NextByte(start, [l0 + 16 * h0], l1, h1);
    assert [l0 + 16 * h0] + [l1 + 16 * h1] == framed[..2];
    Unmasked(Run(start, Bits(framed[..2])));
  }

  lemma Nothing(start: seq<bool>)
    requires IsVec(start)
    ensures start == Run(start, Bits([]))
  {
  }

  lemma Unmasked(v: seq<bool>)
    requires IsVec(v)
    ensures Xor(v, Mask(false)) == v
  {
  }

  // ------------------------------------------------------------------------ CRC_B

  lemma ZeroOnceB()
    ensures Register(H(15), H(15), H(15), H(15)).FeedByte(H(0), H(0)) == Register(H(7), H(8), H(15), H(0))
  {
    hide H;
    Digits();
  }

  lemma ZeroTwiceB()
    ensures Register(H(7), H(8), H(15), H(0)).FeedByte(H(0), H(0)) == Register(H(8), H(11), H(0), H(15))
  {
    hide H;
    Digits();
  }

  lemma ZeroThriceB()
    ensures Register(H(8), H(11), H(0), H(15)).FeedByte(H(0), H(0)) == Register(H(3), H(3), H(9), H(3))
  {
    hide H;
    Digits();
  }

  lemma FirstOf0FAAFF()
    ensures Register(H(15), H(15), H(15), H(15)).FeedByte(H(15), H(0)) == Register(H(0), H(7), H(7), H(15))
  {
    hide H;
    Digits();
  }

  lemma SecondOf0FAAFF()
    ensures Register(H(0), H(7), H(7), H(15)).FeedByte(H(10), H(10)) == Register(H(0), H(2), H(9), H(7))
  {
    hide H;
    Digits();
  }

  lemma ThirdOf0FAAFF()
    ensures Register(H(0), H(2), H(9), H(7)).FeedByte(H(15), H(15)) == Register(H(3), H(0), H(14), H(2))
  {
    hide H;
    Digits();
  }

  /** The bytes 00 00 00 are framed with CC C6, and 0F AA FF with FC D1. */
  lemma AnnexBMessagesB(framed: seq<byte>)
    requires |framed| == 5 && Checks(framed, CRC_B_INIT, true)
    ensures framed[..3] == [0x00, 0x00, 0x00] ==> framed[3..] == [0xCC, 0xC6]
    ensures framed[..3] == [0x0F, 0xAA, 0xFF] ==> framed[3..] == [0xFC, 0xD1]
  {
    hide Checks, Register.FeedByte, H, Of;
    ZeroOnceB();
    ZeroTwiceB();
    ZeroThriceB();
    FirstOf0FAAFF();
    SecondOf0FAAFF();
    ThirdOf0FAAFF();
    Opposites();
    if framed[..3] == [0x00, 0x00, 0x00] {
      ThreeBytesB(framed, 0, 0, 0, 0, 0, 0);
      SentAs(framed[3..], 12, 12, 6, 12);
    } else if framed[..3] == [0x0F, 0xAA, 0xFF] {
      ThreeBytesB(framed, 15, 0, 10, 10, 15, 15);
      SentAs(framed[3..], 12, 15, 1, 13);
    }
  }

  lemma Opposites()
    ensures Inverse(Register(H(3), H(3), H(9), H(3))) == Register(H(12), H(12), H(6), H(12))
    ensures Inverse(Register(H(3), H(0), H(14), H(2))) == Register(H(12), H(15), H(1), H(13))
  {
    hide H;
    Digits();
  }

  /** A register with all bits changed. */
  function Inverse(reg: Register): Register {
    Register(reg.d0.Xor(H(15)), reg.d1.Xor(H(15)), reg.d2.Xor(H(15)), reg.d3.Xor(H(15)))
  }

  lemma ThreeBytesB(framed: seq<byte>, l0: nat, h0: nat, l1: nat, h1: nat, l2: nat, h2: nat)
    requires l0 < 16 && h0 < 16 && l1 < 16 && h1 < 16 && l2 < 16 && h2 < 16
    requires |framed| == 5 && framed[..3] == [l0 + 16 * h0, l1 + 16 * h1, l2 + 16 * h2]
    requires Checks(framed, CRC_B_INIT, true)
    ensures var start := Register(H(15), H(15), H(15), H(15));
            Of(Bits(framed[3..]))
            == Inverse(start.FeedByte(H(l0), H(h0)).FeedByte(H(l1), H(h1)).FeedByte(H(l2), H(h2)))
  {
    hide Register.FeedByte, Vec, H, Run, Bits, Mask, Of, Inverse;
    var start := Vec(CRC_B_INIT);
    WordDigits(15, 15, 15, 15);
    Nothing(start);
    NextByte(start, [], l0, h0);
    assert [] + [l0 + 16 * h0] == [l0 + 16 * h0];
    NextByte(start, [l0 + 16 * h0], l1, h1);
    assert [l0 + 16 * h0] + [l1 + 16 * h1] == [l0 + 16 * h0, l1 + 16 * h1];
    NextByte(start, [l0 + 16 * h0, l1 + 16 * h1], l2, h2);
    assert [l0 + 16 * h0, l1 + 16 * h1] + [l2 + 16 * h2] == framed[..3];
    Inverted(Run(start, Bits(framed[..3])));
  }

  lemma Inverted(v: seq<bool>)
    requires IsVec(v)
    ensures Of(Xor(v, Mask(true))) == Inverse(Of(v))
  {
  }
}
