/**
 What the CRC is, apart from any register: the remainder of the message, behind its
 preset, on division by x^16 + x^12 + x^5 + 1 over the integers modulo two. Then the
 framed messages of Annex B of ISO/IEC 14443-3.

 A polynomial is the list of its coefficients, that of the highest power first.
 */
module CrcRemainder {
  import opened Bytes
  import opened Crc

  // ------------------------------------------------------------------- polynomials

  function Zeros(n: nat): (z: seq<bool>)
    ensures |z| == n
  {
    seq(n, i => false)
  }

  function Plus(a: seq<bool>, b: seq<bool>): (c: seq<bool>)
    requires |a| == |b|
    ensures |c| == |a|
  {
    seq(|a|, i requires 0 <= i < |a| => a[i] != b[i])
  }

  /** x^16 + x^12 + x^5 + 1. */
  function Generator(): (g: seq<bool>)
    ensures |g| == 17
  {
    seq(17, i => 16 - i == 16 || 16 - i == 12 || 16 - i == 5 || 16 - i == 0)
  }

  /** The leading term of a product: the generator times the power of a first coefficient. */
  function Leading(first: bool, n: nat): (p: seq<bool>)
    ensures |p| == n + 17
  {
    if first then Generator() + Zeros(n) else Zeros(n + 17)
  }

  /** The product of a polynomial and the generator. */
  function Times(q: seq<bool>): (p: seq<bool>)
    ensures |p| == |q| + 16
  {
    if q == [] then Zeros(16) else Plus([false] + Times(q[1..]), Leading(q[0], |q| - 1))
  }

  /** A message with sixteen zeros behind it, its first sixteen coefficients changed by the preset. */
  function Dividend(preset: seq<bool>, message: seq<bool>): (d: seq<bool>)
    requires IsVec(preset)
    ensures |d| == |message| + 16
  {
    Plus(message + Zeros(16), preset + Zeros(|message|))
  }

  /** A multiple of the generator, and a remainder of degree below 16. */
  ghost predicate Divides(dividend: seq<bool>, q: seq<bool>, r: seq<bool>)
    requires IsVec(r)
  {
    |dividend| == |q| + 16 && dividend == Plus(Times(q), Zeros(|q|) + r)
  }

  ghost predicate IsRemainder(preset: seq<bool>, message: seq<bool>, r: seq<bool>)
    requires IsVec(preset) && IsVec(r)
  {
    exists q :: |q| == |message| && Divides(Dividend(preset, message), q, r)
  }

  // ---------------------------------------------------------------------- division

  lemma GeneratorTail()
    ensures Generator() == [true] + Polynomial()
  {
    assert Polynomial() == [false, false, false, true, false, false, false, false,
                            false, false, true, false, false, false, false, true];
  }

  /** One step of long division is one clock of the register. */
  lemma DivisionStep(preset: seq<bool>, message: seq<bool>)
    requires IsVec(preset) && message != []
    ensures var first := preset[0] != message[0];
            var next := Clock(Xor(preset, Pad([message[0]])));
            Dividend(preset, message)
            == Plus([false] + Dividend(next, message[1..]), Leading(first, |message| - 1))
  {
    GeneratorTail();
    var first, rest := preset[0] != message[0], message[1..];
    var next := Clock(Xor(preset, Pad([message[0]])));
    NextRegister(preset, message[0]);
    hide Clock, Polynomial, Pad, Xor, Generator;
    var whole := Dividend(preset, message);
    var stepped := Plus([false] + Dividend(next, rest), Leading(first, |rest|));
    forall i | 0 <= i < |whole|
      ensures whole[i] == stepped[i]
    {
      if 0 < i {
        assert (message + Zeros(16))[i] == (rest + Zeros(16))[i - 1];
      }
    }
  }

  lemma NextRegister(preset: seq<bool>, bit: bool)
    requires IsVec(preset)
    ensures var next := Clock(Xor(preset, Pad([bit])));
            forall i | 0 <= i < 16 ::
              next[i] == ((i < 15 && preset[i + 1]) != ((preset[0] != bit) && Polynomial()[i]))
  {
    hide Polynomial;
    var fed := Xor(preset, Pad([bit]));
    assert fed[1..] == preset[1..];
  }

  /** What a register is clocked to is a remainder; the quotient's coefficients are the bits that fall out. */
  lemma {:induction false} RunDivides(preset: seq<bool>, message: seq<bool>) returns (q: seq<bool>)
    requires IsVec(preset)
    ensures |q| == |message| && Divides(Dividend(preset, message), q, Run(preset, message))
    decreases |message|
  {
    if message == [] {
      q := [];
      EmptyDivides(preset);
    } else {
      hide Clock, Xor, Pad, Times, Plus, Leading, Dividend, Generator, Polynomial;
      var next := Clock(Xor(preset, Pad([message[0]])));
      var q1 := RunDivides(next, message[1..]);
      q := [preset[0] != message[0]] + q1;
      DivisionStep(preset, message);
      OneMore(preset[0] != message[0], q1, Dividend(next, message[1..]), Run(next, message[1..]));
    }
  }

  lemma EmptyDivides(preset: seq<bool>)
    requires IsVec(preset)
    ensures Divides(Dividend(preset, []), [], preset)
  {
    assert Dividend(preset, []) == preset == Plus(Times([]), Zeros(0) + preset);
  }

  /** One more coefficient in front of a quotient. */
  lemma OneMore(first: bool, q: seq<bool>, d: seq<bool>, r: seq<bool>)
    requires IsVec(r) && Divides(d, q, r)
    ensures Divides(Plus([false] + d, Leading(first, |q|)), [first] + q, r)
  {
    hide Leading;
    assert ([first] + q)[1..] == q;
    PlusShifted(Times(q), Zeros(|q|) + r, Leading(first, |q|));
    assert [false] + (Zeros(|q|) + r) == Zeros(|q| + 1) + r;
  }

  lemma PlusShifted(a: seq<bool>, b: seq<bool>, c: seq<bool>)
    requires |a| == |b| && |c| == |a| + 1
    ensures Plus([false] + Plus(a, b), c) == Plus(Plus([false] + a, c), [false] + b)
  {
  }

  /** Quotient and remainder are determined by the dividend. */
  lemma {:induction false} DivisionIsUnique(d: seq<bool>, q: seq<bool>, r: seq<bool>, p: seq<bool>, s: seq<bool>)
    requires IsVec(r) && IsVec(s) && |p| == |q|
    requires Divides(d, q, r) && Divides(d, p, s)
    ensures q == p && r == s
    decreases |q|
  {
    if q == [] {
      assert Times([]) == Zeros(16);
      forall i | 0 <= i < 16
        ensures r[i] == s[i]
      {
        assert d[i] == Plus(Zeros(16), Zeros(0) + r)[i] == r[i];
        assert d[i] == Plus(Zeros(16), Zeros(0) + s)[i] == s[i];
      }
    } else {
      FirstCoefficient(q, r);
      FirstCoefficient(p, s);
      var e := Plus(d, Leading(q[0], |q| - 1))[1..];
      WithoutFirst(d, q, r);
      WithoutFirst(d, p, s);
      DivisionIsUnique(e, q[1..], r, p[1..], s);
      assert q == [q[0]] + q[1..] && p == [p[0]] + p[1..];
    }
  }

  lemma FirstCoefficient(q: seq<bool>, r: seq<bool>)
    requires q != [] && IsVec(r)
    ensures Plus(Times(q), Zeros(|q|) + r)[0] == q[0]
  {
  }

  lemma WithoutFirst(d: seq<bool>, q: seq<bool>, r: seq<bool>)
    requires q != [] && IsVec(r) && Divides(d, q, r)
    ensures Divides(Plus(d, Leading(q[0], |q| - 1))[1..], q[1..], r)
  {
    hide Leading, Plus, Zeros;
    var first, rest, low := Leading(q[0], |q| - 1), q[1..], Zeros(|q|) + r;
    var product := [false] + Times(rest);
    assert Times(q) == Plus(product, first);
    PlusCancels(product, first, low);
    PlusTail(product, low);
    assert product[1..] == Times(rest);
    ZerosTail(|q|, r);
  }

  lemma PlusCancels(a: seq<bool>, b: seq<bool>, c: seq<bool>)
    requires |a| == |b| == |c|
    ensures Plus(Plus(Plus(a, b), c), b) == Plus(a, c)
  {
  }

  lemma PlusTail(a: seq<bool>, b: seq<bool>)
    requires |a| == |b| > 0
    ensures Plus(a, b)[1..] == Plus(a[1..], b[1..])
  {
  }

  lemma ZerosTail(n: nat, r: seq<bool>)
    requires n > 0
    ensures (Zeros(n) + r)[1..] == Zeros(n - 1) + r
  {
  }

  /** The register after a message is the one remainder of its division by the generator. */
  lemma RegisterIsRemainder(preset: seq<bool>, message: seq<bool>, r: seq<bool>)
    requires IsVec(preset) && IsVec(r)
    ensures IsRemainder(preset, message, r) <==> r == Run(preset, message)
  {
    var q := RunDivides(preset, message);
    if IsRemainder(preset, message, r) {
      var p :| |p| == |message| && Divides(Dividend(preset, message), p, r);
      DivisionIsUnique(Dividend(preset, message), q, Run(preset, message), p, r);
    }
  }

  // ------------------------------------------------------------- the two variants

  /** 63h 63h, the low bit of each byte first. */
  function PresetA(): (v: seq<bool>)
    ensures IsVec(v)
  {
    [true, true, false, false, false, true, true, false] + [true, true, false, false, false, true, true, false]
  }

  /** All ones. */
  function PresetB(): (v: seq<bool>)
    ensures IsVec(v)
  {
    seq(16, i => true)
  }

  /** Every coefficient changed. */
  function Complement(v: seq<bool>): (c: seq<bool>)
    ensures |c| == |v|
  {
    seq(|v|, i requires 0 <= i < |v| => !v[i])
  }

  /** Bytes check for CRC_A exactly if the last two are the remainder of the others, preset to 6363h. */
  lemma CrcAIsRemainder(data: seq<byte>)
    requires |data| >= 2
    ensures Checks(data, CRC_A_INIT, false)
            <==> IsRemainder(PresetA(), Bits(data[..|data| - 2]), Bits(data[|data| - 2..]))
  {
    hide Run, Bits, Mask, Vec, Xor, IsRemainder;
    var body, tail := data[..|data| - 2], data[|data| - 2..];
    PresetABits(CRC_A_INIT);
    RegisterIsRemainder(PresetA(), Bits(body), Bits(tail));
    NotMasked(Run(PresetA(), Bits(body)));
  }

  /** And for CRC_B exactly if they are the complement of the remainder preset to FFFFh. */
  lemma CrcBIsRemainder(data: seq<byte>)
    requires |data| >= 2
    ensures Checks(data, CRC_B_INIT, true)
            <==> IsRemainder(PresetB(), Bits(data[..|data| - 2]), Complement(Bits(data[|data| - 2..])))
  {
    hide Run, Bits, Mask, Vec, Xor, Complement, IsRemainder;
    var body, tail := data[..|data| - 2], data[|data| - 2..];
    PresetBBits(CRC_B_INIT);
    RegisterIsRemainder(PresetB(), Bits(body), Complement(Bits(tail)));
    Complemented(Run(PresetB(), Bits(body)), Bits(tail));
  }

  lemma Complemented(v: seq<bool>, w: seq<bool>)
    requires IsVec(v) && IsVec(w)
    ensures w == Xor(v, Mask(true)) <==> Complement(w) == v
  {
    assert Xor(v, Mask(true)) == Complement(v);
    assert Complement(Complement(v)) == v && Complement(Complement(w)) == w;
  }

  lemma NotMasked(v: seq<bool>)
    requires IsVec(v)
    ensures Xor(v, Mask(false)) == v
  {
  }

  lemma PresetABits(w: u16)
    requires w == CRC_A_INIT
    ensures Vec(w) == PresetA()
  {
    hide Digit, ToBits;
    LowDigit(16, w, 0x636, 3);
    LowDigit(12, 0x636, 0x63, 6);
    LowDigit(8, 0x63, 0x6, 3);
    LowDigit(4, 0x6, 0, 6);
    DigitsOfA();
    assert ToBits(0, 0) == [];
  }

  lemma DigitsOfA()
    ensures PresetA() == Digit(3) + (Digit(6) + (Digit(3) + (Digit(6) + [])))
  {
  }

  lemma PresetBBits(w: u16)
    requires w == CRC_B_INIT
    ensures Vec(w) == PresetB()
  {
    hide Digit, ToBits;
    LowDigit(16, w, 0xFFF, 15);
    LowDigit(12, 0xFFF, 0xFF, 15);
    LowDigit(8, 0xFF, 0xF, 15);
    LowDigit(4, 0xF, 0, 15);
    DigitsOfB();
    assert ToBits(0, 0) == [];
  }

  lemma DigitsOfB()
    ensures PresetB() == Digit(15) + (Digit(15) + (Digit(15) + (Digit(15) + [])))
  {
  }
}
