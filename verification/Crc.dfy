/**
 The CRC of ISO/IEC 14443-3 as the reader drivers compute it: a 16-bit register
 clocked once per message bit, low bit of each byte first.

 The specification sees the register as a vector of sixteen bits. Its central
 fact is `RunIsPower`: feeding up to sixteen message bits is the same as xoring
 them into the register at once and then clocking it. Clocking is injective, so
 any change confined to sixteen consecutive bits reaches the end of the message,
 whatever the message's length. The methods compute on machine words and are
 proved to follow the vectors step by step.
 */
module Crc {
  import opened Bytes

  const CRC_POLYNOMIAL: u16 := 0x8408
  const CRC_A_INIT: u16 := 0x6363
  const CRC_B_INIT: u16 := 0xFFFF

  // ------------------------------------------------------------- words as bit vectors

  function Pow2(n: nat): (p: nat)
    ensures p > 0
  {
    if n == 0 then 1 else 2 * Pow2(n - 1)
  }

  /** The machine's right shift. */
  function Shr(w: nat, n: nat): (v: nat)
    ensures v <= w
    decreases n
  {
    if n == 0 then w else Shr(w / 2, n - 1)
  }

  /** The low `n` bits of `w`, lowest first. */
  function ToBits(n: nat, w: nat): (bits: seq<bool>)
    ensures |bits| == n
  {
    if n == 0 then [] else [w % 2 == 1] + ToBits(n - 1, w / 2)
  }

  function FromBits(bits: seq<bool>): (w: nat)
    ensures w < Pow2(|bits|)
  {
    if bits == [] then 0 else (if bits[0] then 1 else 0) + 2 * FromBits(bits[1..])
  }

  lemma {:induction false} ToBitsOfFromBits(bits: seq<bool>)
    ensures ToBits(|bits|, FromBits(bits)) == bits
  {
    if bits != [] {
      ToBitsOfFromBits(bits[1..]);
    }
  }

  lemma {:induction false} ToBitsIsInjective(n: nat, v: nat, w: nat)
    requires v < Pow2(n) && w < Pow2(n) && ToBits(n, v) == ToBits(n, w)
    ensures v == w
  {
    if n != 0 {
      assert ToBits(n, v)[0] == ToBits(n, w)[0];
      assert ToBits(n - 1, v / 2) == ToBits(n, v)[1..] == ToBits(n, w)[1..] == ToBits(n - 1, w / 2);
      ToBitsIsInjective(n - 1, v / 2, w / 2);
    }
  }

  lemma {:induction false} BitOf(n: nat, w: nat, pos: nat)
    requires pos < n
    ensures ToBits(n, w)[pos] == (Shr(w, pos) % 2 == 1)
  {
    if pos != 0 {
      BitOf(n - 1, w / 2, pos - 1);
    }
  }

  lemma {:induction false} TopBitClear(n: nat, w: nat)
    requires w < Pow2(n)
    ensures ToBits(n + 1, w) == ToBits(n, w) + [false]
  {
    if n != 0 {
      TopBitClear(n - 1, w / 2);
    }
  }

  ghost predicate IsVec(v: seq<bool>) {
    |v| == 16
  }

  /** The sixteen bits of a word, lowest first. */
  function Vec(w: u16): (v: seq<bool>)
    ensures IsVec(v)
  {
    ToBits(16, w)
  }

  lemma VecShift(w: u16)
    ensures Vec(w / 2) == Vec(w)[1..] + [false]
  {
    assert Pow2(15) == 0x8000 by { Pow2Values(); }
    TopBitClear(15, w / 2);
  }

  lemma Pow2Values()
    ensures Pow2(8) == 0x100 && Pow2(15) == 0x8000 && Pow2(16) == 0x1_0000
  {
    assert Pow2(4) == 16;
    assert Pow2(8) == 16 * Pow2(4);
    assert Pow2(12) == 16 * Pow2(8);
    assert Pow2(15) == 8 * Pow2(12);
  }

  /** Up to sixteen bits, padded with zeros at the high end. */
  function Pad(bits: seq<bool>): (v: seq<bool>)
    requires |bits| <= 16
    ensures IsVec(v)
  {
    bits + seq(16 - |bits|, i => false)
  }

  function Xor(a: seq<bool>, b: seq<bool>): (c: seq<bool>)
    requires IsVec(a) && IsVec(b)
    ensures IsVec(c)
    ensures forall i | 0 <= i < 16 :: c[i] == (a[i] != b[i])
  {
    seq(16, i requires 0 <= i < 16 => a[i] != b[i])
  }

  /** The machine's exclusive or. */
  function XorWord(a: u16, b: u16): (c: u16) {
    Pow2Values();
    FromBits(Xor(Vec(a), Vec(b)))
  }

  lemma VecXor(a: u16, b: u16)
    ensures Vec(XorWord(a, b)) == Xor(Vec(a), Vec(b))
  {
    ToBitsOfFromBits(Xor(Vec(a), Vec(b)));
  }

  /** The four bits of a hexadecimal digit, lowest first. */
  function Digit(d: nat): (bits: seq<bool>)
    ensures |bits| == 4
  {
    [d % 2 == 1, d / 2 % 2 == 1, d / 4 % 2 == 1, d / 8 % 2 == 1]
  }

  /** The polynomial 8408h, whose top bit is what makes a clock invertible. */
  function Polynomial(): (v: seq<bool>)
    ensures IsVec(v) && v[15]
  {
    Digit(8) + (Digit(0) + (Digit(4) + Digit(8)))
  }

  lemma PolynomialBits(w: u16)
    requires w == CRC_POLYNOMIAL
    ensures Vec(w) == Polynomial()
  {
    hide Digit, ToBits;
    LowDigit(16, w, 0x840, 8);
    LowDigit(12, 0x840, 0x84, 0);
    LowDigit(8, 0x84, 0x8, 4);
    LowDigit(4, 0x8, 0, 8);
    assert ToBits(0, 0) == [];
    assert Digit(8) + [] == Digit(8);
  }

  lemma LowDigit(n: nat, w: nat, rest: nat, d: nat)
    requires n >= 4 && d < 16 && w == 16 * rest + d
    ensures ToBits(n, w) == Digit(d) + ToBits(n - 4, rest)
  {
    assert w / 2 == 8 * rest + d / 2 && w / 2 / 2 == 4 * rest + d / 4;
    assert w / 2 / 2 / 2 == 2 * rest + d / 8 && w / 2 / 2 / 2 / 2 == rest;
    assert ToBits(n - 2, w / 2 / 2) == [d / 4 % 2 == 1] + ([d / 8 % 2 == 1] + ToBits(n - 4, rest));
  }

  // ---------------------------------------------------------------- the register

  /** One clock of the register with nothing coming in. */
  function Clock(reg: seq<bool>): (next: seq<bool>)
    requires IsVec(reg)
    ensures IsVec(next)
  {
    var shifted := reg[1..] + [false];
    if reg[0] then Xor(shifted, Polynomial()) else shifted
  }

  function Clocks(n: nat, reg: seq<bool>): (next: seq<bool>)
    requires IsVec(reg)
    ensures IsVec(next)
  {
    if n == 0 then reg else Clocks(n - 1, Clock(reg))
  }

  /** The register after a run of message bits. */
  function Run(reg: seq<bool>, bits: seq<bool>): (next: seq<bool>)
    requires IsVec(reg)
    ensures IsVec(next)
    decreases |bits|
  {
    if bits == [] then reg else Run(Clock(Xor(reg, Pad([bits[0]]))), bits[1..])
  }

  lemma {:induction false} RunAppend(reg: seq<bool>, a: seq<bool>, b: seq<bool>)
    requires IsVec(reg)
    ensures Run(reg, a + b) == Run(Run(reg, a), b)
    decreases |a|
  {
    if a == [] {
      assert a + b == b;
    } else {
      assert (a + b)[1..] == a[1..] + b;
      RunAppend(Clock(Xor(reg, Pad([a[0]]))), a[1..], b);
    }
  }

  lemma ClockIsLinear(a: seq<bool>, b: seq<bool>)
    requires IsVec(a) && IsVec(b)
    ensures Clock(Xor(a, b)) == Xor(Clock(a), Clock(b))
  {
  }

  lemma ClockIsInjective(a: seq<bool>, b: seq<bool>)
    requires IsVec(a) && IsVec(b)
    requires Clock(a) == Clock(b)
    ensures a == b
  {
    // The polynomial's top bit reveals the bit that was shifted out.
    assert Clock(a)[15] == a[0] && Clock(b)[15] == b[0];
    forall i | 1 <= i < 16
      ensures a[i] == b[i]
    {
      assert Clock(a)[i - 1] == Clock(b)[i - 1];
    }
  }

  lemma XorCancels(a: seq<bool>, b: seq<bool>, f: seq<bool>)
    requires IsVec(a) && IsVec(b) && IsVec(f)
    requires Xor(a, f) == Xor(b, f)
    ensures a == b
  {
    forall i | 0 <= i < 16
      ensures a[i] == b[i]
    {
      assert Xor(a, f)[i] == Xor(b, f)[i];
    }
  }

  lemma {:induction false} ClocksIsInjective(n: nat, a: seq<bool>, b: seq<bool>)
    requires IsVec(a) && IsVec(b)
    requires Clocks(n, a) == Clocks(n, b)
    ensures a == b
  {
    if n != 0 {
      ClocksIsInjective(n - 1, Clock(a), Clock(b));
      ClockIsInjective(a, b);
    }
  }

  /** Two registers that differ stay different under the same input. */
  lemma {:induction false} RunIsInjective(a: seq<bool>, b: seq<bool>, bits: seq<bool>)
    requires IsVec(a) && IsVec(b)
    requires Run(a, bits) == Run(b, bits)
    ensures a == b
    decreases |bits|
  {
    if bits != [] {
      var f := Pad([bits[0]]);
      RunIsInjective(Clock(Xor(a, f)), Clock(Xor(b, f)), bits[1..]);
      ClockIsInjective(Xor(a, f), Xor(b, f));
      XorCancels(a, b, f);
    }
  }

  /** Feeding at most sixteen bits one by one is xoring them in and clocking. */
  lemma {:induction false} RunIsPower(reg: seq<bool>, bits: seq<bool>)
    requires IsVec(reg) && |bits| <= 16
    ensures Run(reg, bits) == Clocks(|bits|, Xor(reg, Pad(bits)))
    decreases |bits|
  {
    if bits == [] {
      assert Xor(reg, Pad([])) == reg;
    } else {
      RunIsPower(Clock(Xor(reg, Pad([bits[0]]))), bits[1..]);
      FirstBitFirst(reg, bits);
    }
  }

  /** Clocking a whole window in equals clocking its first bit in and xoring in the rest. */
  lemma FirstBitFirst(reg: seq<bool>, bits: seq<bool>)
    requires IsVec(reg) && 0 < |bits| <= 16
    ensures Clock(Xor(reg, Pad(bits))) == Xor(Clock(Xor(reg, Pad([bits[0]]))), Pad(bits[1..]))
  {
    var first, shifted := Pad([bits[0]]), Pad([false] + bits[1..]);
    assert Xor(reg, Pad(bits)) == Xor(Xor(reg, first), shifted);
    ClockIsLinear(Xor(reg, first), shifted);
    assert Clock(shifted) == Pad(bits[1..]);
  }

  // ---------------------------------------------------------------- burst errors

  /**
   Two bit strings that differ, and differ only inside one window of at most
   sixteen bits, leave the register in different states.
   */
  lemma BurstChangesRegister(reg: seq<bool>, a: seq<bool>, b: seq<bool>, lo: nat, hi: nat)
    requires IsVec(reg)
    requires |a| == |b| && lo <= hi <= |a| && hi - lo <= 16
    requires a[..lo] == b[..lo] && a[hi..] == b[hi..]
    requires a != b
    ensures Run(reg, a) != Run(reg, b)
  {
    var wa, wb := a[lo..hi], b[lo..hi];
    assert a == a[..lo] + (wa + a[hi..]);
    assert b == b[..lo] + (wb + b[hi..]);
    var start := Run(reg, a[..lo]);
    RunAppend(reg, a[..lo], wa + a[hi..]);
    RunAppend(reg, b[..lo], wb + b[hi..]);
    RunAppend(start, wa, a[hi..]);
    RunAppend(start, wb, b[hi..]);
    if Run(reg, a) == Run(reg, b) {
      RunIsInjective(Run(start, wa), Run(start, wb), a[hi..]);
      SameWindow(start, wa, wb);
      assert false;
    }
  }

  /** A window of at most sixteen bits is determined by the register it leads to. */
  lemma SameWindow(start: seq<bool>, wa: seq<bool>, wb: seq<bool>)
    requires IsVec(start) && |wa| == |wb| <= 16
    requires Run(start, wa) == Run(start, wb)
    ensures wa == wb
  {
    RunIsPower(start, wa);
    RunIsPower(start, wb);
    ClocksIsInjective(|wa|, Xor(start, Pad(wa)), Xor(start, Pad(wb)));
    assert Xor(start, Pad(wa)) == Xor(Pad(wa), start);
    assert Xor(start, Pad(wb)) == Xor(Pad(wb), start);
    XorCancels(Pad(wa), Pad(wb), start);
    assert wa == Pad(wa)[..|wa|] && wb == Pad(wb)[..|wb|];
  }

  // ------------------------------------------------------------------ the checks

  function BitsOfByte(octet: byte): (bits: seq<bool>)
    ensures |bits| == 8
  {
    ToBits(8, octet)
  }

  /** The order in which the bits of a message enter the register. */
  function Bits(data: seq<byte>): (bits: seq<bool>)
    ensures |bits| == 8 * |data|
  {
    if data == [] then [] else BitsOfByte(data[0]) + Bits(data[1..])
  }

  lemma {:induction false} BitsAppend(a: seq<byte>, b: seq<byte>)
    ensures Bits(a + b) == Bits(a) + Bits(b)
    decreases |a|
  {
    if a == [] {
      assert a + b == b;
    } else {
      assert (a + b)[1..] == a[1..] + b;
      BitsAppend(a[1..], b);
    }
  }

  lemma {:induction false} BitsIsInjective(a: seq<byte>, b: seq<byte>)
    requires |a| == |b| && Bits(a) == Bits(b)
    ensures a == b
    decreases |a|
  {
    if a != [] {
      assert BitsOfByte(a[0]) == Bits(a)[..8] == Bits(b)[..8] == BitsOfByte(b[0]);
      assert Bits(a[1..]) == Bits(a)[8..] == Bits(b)[8..] == Bits(b[1..]);
      Pow2Values();
      ToBitsIsInjective(8, a[0], b[0]);
      BitsIsInjective(a[1..], b[1..]);
      assert a == [a[0]] + a[1..] && b == [b[0]] + b[1..];
    }
  }

  /** All zeros, or all ones for the CRC that is sent complemented. */
  function Mask(inverted: bool): (v: seq<bool>)
    ensures IsVec(v)
  {
    seq(16, i => inverted)
  }

  /**
   Whether the two trailing bytes carry the CRC of what precedes them, low byte
   first. CRC_A sends the register itself and CRC_B its complement.
   */
  ghost predicate Checks(data: seq<byte>, init: u16, inverted: bool) {
    && |data| >= 2
    && Bits(data[|data| - 2..]) == Xor(Run(Vec(init), Bits(data[..|data| - 2])), Mask(inverted))
  }

  /** A check succeeds exactly when the register ends in one fixed state. */
  lemma CheckIsResidue(data: seq<byte>, init: u16, inverted: bool)
    requires |data| >= 2
    ensures Checks(data, init, inverted) <==> Run(Vec(init), Bits(data)) == Clocks(16, Mask(inverted))
  {
    var body, tail := data[..|data| - 2], data[|data| - 2..];
    assert data == body + tail;
    BitsAppend(body, tail);
    RunAppend(Vec(init), Bits(body), Bits(tail));
    Residue(Run(Vec(init), Bits(body)), Bits(tail), Mask(inverted));
  }

  lemma Residue(reg: seq<bool>, sent: seq<bool>, mask: seq<bool>)
    requires IsVec(reg) && IsVec(sent) && IsVec(mask)
    ensures sent == Xor(reg, mask) <==> Run(reg, sent) == Clocks(16, mask)
  {
    RunIsPower(reg, sent);
    assert Pad(sent) == sent;
    assert Xor(reg, Xor(reg, mask)) == mask;
    if Run(reg, sent) == Clocks(16, mask) {
      ClocksIsInjective(16, Xor(reg, sent), mask);
      assert sent == Xor(reg, Xor(reg, sent));
    }
  }

  /**
   Error detection at every length: a message that checks, altered anywhere
   inside sixteen consecutive bits (check bytes included), no longer checks.
   */
  lemma BurstIsDetected(framed: seq<byte>, altered: seq<byte>, init: u16, inverted: bool, lo: nat, hi: nat)
    requires |framed| == |altered| && lo <= hi <= 8 * |framed| && hi - lo <= 16
    requires Bits(framed)[..lo] == Bits(altered)[..lo] && Bits(framed)[hi..] == Bits(altered)[hi..]
    requires framed != altered
    requires Checks(framed, init, inverted)
    ensures !Checks(altered, init, inverted)
  {
    if Bits(framed) == Bits(altered) {
      BitsIsInjective(framed, altered);
    }
    BurstChangesRegister(Vec(init), Bits(framed), Bits(altered), lo, hi);
    CheckIsResidue(framed, init, inverted);
    CheckIsResidue(altered, init, inverted);
  }

  /** The same for a change confined to two adjacent bytes. */
  lemma AdjacentBytesDetected(framed: seq<byte>, altered: seq<byte>, init: u16, inverted: bool, i: nat)
    requires |framed| == |altered| && i + 2 <= |framed|
    requires framed[..i] == altered[..i] && framed[i + 2..] == altered[i + 2..]
    requires framed != altered
    requires Checks(framed, init, inverted)
    ensures !Checks(altered, init, inverted)
  {
    BitsSplit(framed, i);
    BitsSplit(altered, i);
    BitsSplit(framed, i + 2);
    BitsSplit(altered, i + 2);
    BurstIsDetected(framed, altered, init, inverted, 8 * i, 8 * i + 16);
  }

  lemma BitsSplit(m: seq<byte>, i: nat)
    requires i <= |m|
    ensures Bits(m)[..8 * i] == Bits(m[..i])
    ensures Bits(m)[8 * i..] == Bits(m[i..])
  {
    assert m == m[..i] + m[i..];
    BitsAppend(m[..i], m[i..]);
  }

  // ------------------------------------------------------------ the CRC as computed

  /** The register after the first `size` bytes of `data`. */
  method CalculateCrc(data: seq<byte>, size: nat, init: u16) returns (reg: u16)
    ensures Vec(reg) == Run(Vec(init), Bits(if size < |data| then data[..size] else data))
  {
    var limit := if size < |data| then size else |data|;
    reg := init;
    for i := 0 to limit
      invariant Vec(reg) == Run(Vec(init), Bits(data[..i]))
    {
      ghost var before := reg;
      reg := ClockByte(reg, data[i]);
      RunAppend(Vec(init), Bits(data[..i]), BitsOfByte(data[i]));
      BitsAppend(data[..i], [data[i]]);
      assert data[..i + 1] == data[..i] + [data[i]];
      assert Bits([data[i]]) == BitsOfByte(data[i]) by { assert [data[i]][1..] == []; }
    }
    assert data[..|data|] == data;
  }

  /** The inner loop: clocks the eight bits of one byte in, lowest first. */
  method ClockByte(before: u16, octet: byte) returns (reg: u16)
    ensures Vec(reg) == Run(Vec(before), BitsOfByte(octet))
  {
    reg := before;
    for pos := 0 to 8
      invariant Vec(reg) == Run(Vec(before), BitsOfByte(octet)[..pos])
    {
      var next := ClockBit(reg, octet, pos);
      RunSnoc(Vec(before), BitsOfByte(octet), pos);
      reg := next;
    }
    assert BitsOfByte(octet)[..8] == BitsOfByte(octet);
  }

  lemma RunSnoc(reg: seq<bool>, bits: seq<bool>, pos: nat)
    requires IsVec(reg) && pos < |bits|
    ensures Run(reg, bits[..pos + 1]) == Run(Run(reg, bits[..pos]), [bits[pos]])
  {
    var done, next := bits[..pos], [bits[pos]];
    assert bits[..pos + 1] == done + next;
    RunAppend(reg, done, next);
  }

  /** The body of the inner loop. */
  method ClockBit(start: u16, octet: byte, pos: nat) returns (reg: u16)
    requires pos < 8
    ensures Vec(reg) == Run(Vec(start), [BitsOfByte(octet)[pos]])
  {
    var low := Shr(octet, pos) % 2;
    var bit := XorWord(start, low) % 2;
    reg := start / 2;
    if bit != 0 {
      reg := XorWord(reg, CRC_POLYNOMIAL);
    }
    BitOf(8, octet, pos);
    ClockedWord(start, low, BitsOfByte(octet)[pos], reg);
  }

  lemma ClockedWord(start: u16, low: u16, bit: bool, reg: u16)
    requires low == if bit then 1 else 0
    requires reg == if XorWord(start, low) % 2 != 0 then XorWord(start / 2, CRC_POLYNOMIAL) else start / 2
    ensures Vec(reg) == Run(Vec(start), [bit])
  {
    var incoming := Xor(Vec(start), Pad([bit]));
    assert Run(Vec(start), [bit]) == Clock(incoming) by { assert [bit][1..] == []; }
    LowBit(low, bit);
    VecXor(start, low);
    assert (XorWord(start, low) % 2 == 1) == incoming[0];
    VecShift(start);
    assert incoming[1..] == Vec(start)[1..];
    VecXor(start / 2, CRC_POLYNOMIAL);
    PolynomialBits(CRC_POLYNOMIAL);
  }

  lemma LowBit(low: u16, bit: bool)
    requires low == if bit then 1 else 0
    ensures Vec(low) == Pad([bit])
  {
    ZeroBits(15);
    assert low / 2 == 0;
  }

  lemma {:induction false} ZeroBits(n: nat)
    ensures ToBits(n, 0) == seq(n, i => false)
  {
    if n != 0 {
      ZeroBits(n - 1);
    }
  }

  lemma {:induction false} LowPart(n: nat, w: nat, q: nat)
    ensures ToBits(n, w + Pow2(n) * q) == ToBits(n, w)
  {
    if n != 0 {
      var t := Pow2(n - 1) * q;
      assert Pow2(n) * q == 2 * t;
      assert (w + 2 * t) / 2 == w / 2 + t && (w + 2 * t) % 2 == w % 2;
      LowPart(n - 1, w / 2, q);
    }
  }

  lemma {:induction false} HighPart(n: nat, m: nat, w: nat)
    ensures ToBits(n + m, w) == ToBits(n, w) + ToBits(m, Shr(w, n))
    decreases n
  {
    if n != 0 {
      HighPart(n - 1, m, w / 2);
    }
  }

  /** The low and high bytes of a word, in that order, carry its bits in order. */
  lemma BytesOfWord(crc: u16)
    ensures Bits(LeBytes(crc)) == Vec(crc)
  {
    Pow2Values();
    var low, high := LowByte(crc), HighByte(crc);
    HighPart(8, 8, crc);
    LowPart(8, low, high);
    assert crc == low + Pow2(8) * high;
    ShiftByte(crc);
    assert LeBytes(crc)[1..] == [high] && [high][1..] == [];
    assert Bits([high]) == BitsOfByte(high);
  }

  lemma ShiftByte(w: nat)
    ensures Shr(w, 8) == w / 0x100
  {
    assert Shr(w, 8) == Shr(w / 2 / 2 / 2 / 2, 4);
    assert Shr(w / 16, 4) == w / 16 / 2 / 2 / 2 / 2;
  }

  method AppendCrc(data: seq<byte>, crc: u16) returns (framed: seq<byte>)
    ensures framed == data + LeBytes(crc)
  {
    framed := data + [LowByte(crc)];
    framed := framed + [HighByte(crc)];
  }

  method VerifyCrc(data: seq<byte>, crc: u16) returns (ok: bool)
    ensures ok <==> |data| >= 2 && Bits(data[|data| - 2..]) == Vec(crc)
  {
    if |data| < 2 {
      return false;
    }
    ok := data[|data| - 2] == LowByte(crc) && data[|data| - 1] == HighByte(crc);
    BytesOfWord(crc);
    ghost var tail := data[|data| - 2..];
    assert tail == [data[|data| - 2], data[|data| - 1]];
    if Bits(tail) == Vec(crc) {
      BitsIsInjective(tail, LeBytes(crc));
    }
  }

  /** The machine's complement of a word flips every bit. */
  lemma {:induction false} Complement(n: nat, w: nat)
    requires w < Pow2(n)
    ensures forall i | 0 <= i < n :: ToBits(n, Pow2(n) - 1 - w)[i] == !ToBits(n, w)[i]
  {
    if n != 0 {
      Complement(n - 1, w / 2);
      var c := Pow2(n) - 1 - w;
      assert c / 2 == Pow2(n - 1) - 1 - w / 2 && c % 2 == 1 - w % 2;
      var tail := ToBits(n - 1, c / 2);
      assert ToBits(n, c) == [c % 2 == 1] + tail;
    }
  }

  lemma MaskedWord(w: u16)
    ensures Xor(Vec(w), Mask(false)) == Vec(w)
    ensures Xor(Vec(w), Mask(true)) == Vec(0xFFFF - w)
  {
    Pow2Values();
    Complement(16, w);
  }

  method AddCrcA(data: seq<byte>) returns (framed: seq<byte>)
    ensures |framed| == |data| + 2 && framed[..|data|] == data
    ensures Checks(framed, CRC_A_INIT, false)
  {
    var crc := CalculateCrc(data, |data|, CRC_A_INIT);
    framed := AppendCrc(data, crc);
    assert framed[..|framed| - 2] == data && framed[|framed| - 2..] == LeBytes(crc);
    BytesOfWord(crc);
    MaskedWord(crc);
  }

  method CheckCrcA(data: seq<byte>) returns (ok: bool)
    ensures ok == Checks(data, CRC_A_INIT, false)
  {
    if |data| < 2 {
      return false;
    }
    var crc := CalculateCrc(data, |data| - 2, CRC_A_INIT);
    MaskedWord(crc);
    ok := VerifyCrc(data, crc);
  }

  method AddCrcB(data: seq<byte>) returns (framed: seq<byte>)
    ensures |framed| == |data| + 2 && framed[..|data|] == data
    ensures Checks(framed, CRC_B_INIT, true)
  {
    var reg := CalculateCrc(data, |data|, CRC_B_INIT);
    var crc := 0xFFFF - reg;
    framed := AppendCrc(data, crc);
    assert framed[..|framed| - 2] == data && framed[|framed| - 2..] == LeBytes(crc);
    BytesOfWord(crc);
    MaskedWord(reg);
  }

  method CheckCrcB(data: seq<byte>) returns (ok: bool)
    ensures ok == Checks(data, CRC_B_INIT, true)
  {
    if |data| < 2 {
      return false;
    }
    var reg := CalculateCrc(data, |data| - 2, CRC_B_INIT);
    MaskedWord(reg);
    ok := VerifyCrc(data, 0xFFFF - reg);
  }
}
