/**
 The check value of CRC32C (tests/test_client.c:273-276), worked out on the model: the register
 as eight hexadecimal digits, lowest first, one byte of the message after another.
 */
module CrcCheck {
  import opened Crc32c

  /** A hexadecimal digit, lowest bit first. */
  datatype Digit = Digit(a: bool, b: bool, c: bool, d: bool)

  datatype Reg = Reg(a: Digit, b: Digit, c: Digit, d: Digit, e: Digit, f: Digit, g: Digit, h: Digit)

  const H0 := Digit(false, false, false, false)
  const H1 := Digit(true, false, false, false)
  const H2 := Digit(false, true, false, false)
  const H3 := Digit(true, true, false, false)
  const H4 := Digit(false, false, true, false)
  const H5 := Digit(true, false, true, false)
  const H6 := Digit(false, true, true, false)
  const H7 := Digit(true, true, true, false)
  const H8 := Digit(false, false, false, true)
  const H9 := Digit(true, false, false, true)
  const HA := Digit(false, true, false, true)
  const HB := Digit(true, true, false, true)
  const HC := Digit(false, false, true, true)
  const HD := Digit(true, false, true, true)
  const HE := Digit(false, true, true, true)
  const HF := Digit(true, true, true, true)

  function Four(n: Digit): (b: Bits)
    ensures |b| == 4
  {
    [n.a, n.b, n.c, n.d]
  }

  function Flat(r: Reg): Word {
    Four(r.a) + (Four(r.b) + (Four(r.c) + (Four(r.d) + (Four(r.e) + (Four(r.f) + (Four(r.g) + Four(r.h)))))))
  }

  // ---------------------------------------------------------------------
  // Digits and numbers

  function Bit(b: bool): nat {
    if b then 1 else 0
  }

  function DigitValue(n: Digit): nat {
    Bit(n.a) + 2 * Bit(n.b) + 4 * Bit(n.c) + 8 * Bit(n.d)
  }

  lemma BitFirst(b: bool, m: nat, w: nat)
    ensures ToBits(Bit(b) + 2 * m, w + 1) == [b] + ToBits(m, w)
  {
  }

  lemma DigitFirst(n: Digit, m: nat, w: nat)
    ensures ToBits(DigitValue(n) + 16 * m, w + 4) == Four(n) + ToBits(m, w)
  {
    hide ToBits, Bit;
    var m3 := Bit(n.d) + 2 * m;
    var m2 := Bit(n.c) + 2 * m3;
    var m1 := Bit(n.b) + 2 * m2;
    BitFirst(n.d, m, w);
    BitFirst(n.c, m3, w + 1);
    BitFirst(n.b, m2, w + 2);
    BitFirst(n.a, m1, w + 3);
  }

  lemma NoDigits(n: Digit)
    ensures Four(n) + ToBits(0, 0) == Four(n)
  {
  }

  function Number(r: Reg): nat {
    DigitValue(r.a) + 16 * (DigitValue(r.b) + 16 * (DigitValue(r.c) + 16 * (DigitValue(r.d)
    + 16 * (DigitValue(r.e) + 16 * (DigitValue(r.f) + 16 * (DigitValue(r.g) + 16 * DigitValue(r.h)))))))
  }

  lemma NumberBits(r: Reg)
    ensures ToBits(Number(r), 32) == Flat(r)
  {
    hide ToBits, DigitValue, Four;
    var h := DigitValue(r.h);
    var g := DigitValue(r.g) + 16 * h;
    var f := DigitValue(r.f) + 16 * g;
    var e := DigitValue(r.e) + 16 * f;
    var d := DigitValue(r.d) + 16 * e;
    var c := DigitValue(r.c) + 16 * d;
    var b := DigitValue(r.b) + 16 * c;
    DigitFirst(r.h, 0, 0);
    NoDigits(r.h);
    DigitFirst(r.g, h, 4);
    DigitFirst(r.f, g, 8);
    DigitFirst(r.e, f, 12);
    DigitFirst(r.d, e, 16);
    DigitFirst(r.c, d, 20);
    DigitFirst(r.b, c, 24);
    DigitFirst(r.a, b, 28);
  }

  // ---------------------------------------------------------------------
  // One step

  function XorDigit(m: Digit, n: Digit): Digit {
    Digit(m.a != n.a, m.b != n.b, m.c != n.c, m.d != n.d)
  }

  function XorReg(r: Reg, s: Reg): Reg {
    Reg(XorDigit(r.a, s.a), XorDigit(r.b, s.b), XorDigit(r.c, s.c), XorDigit(r.d, s.d),
        XorDigit(r.e, s.e), XorDigit(r.f, s.f), XorDigit(r.g, s.g), XorDigit(r.h, s.h))
  }

  function HalfDigit(m: Digit, n: Digit): Digit {
    Digit(m.b, m.c, m.d, n.a)
  }

  function HalfReg(r: Reg): Reg {
    Reg(HalfDigit(r.a, r.b), HalfDigit(r.b, r.c), HalfDigit(r.c, r.d), HalfDigit(r.d, r.e),
        HalfDigit(r.e, r.f), HalfDigit(r.f, r.g), HalfDigit(r.g, r.h), HalfDigit(r.h, H0))
  }

  lemma XorConcat(a: Bits, b: Bits, c: Bits, d: Bits)
    requires |a| == |c| && |b| == |d|
    ensures Xor(a + b, c + d) == Xor(a, c) + Xor(b, d)
  {
  }

  lemma XorLast(m: Digit, n: Digit)
    ensures Xor(Four(m), Four(n)) == Four(XorDigit(m, n))
  {
  }

  /** Addition goes digit by digit. */
  lemma XorFirst(m: Digit, n: Digit, v: Bits, w: Bits)
    requires |v| == |w|
    ensures Xor(Four(m) + v, Four(n) + w) == Four(XorDigit(m, n)) + Xor(v, w)
  {
    hide Four, XorDigit, Xor;
    XorConcat(Four(m), v, Four(n), w);
    XorLast(m, n);
  }

  lemma XorFlat(r: Reg, s: Reg)
    ensures Xor(Flat(r), Flat(s)) == Flat(XorReg(r, s))
  {
    hide Xor, Four, XorDigit;
    XorLast(r.h, s.h);
    var (r7, s7) := (Four(r.h), Four(s.h));
    var (r6, s6) := (Four(r.g) + r7, Four(s.g) + s7);
    var (r5, s5) := (Four(r.f) + r6, Four(s.f) + s6);
    var (r4, s4) := (Four(r.e) + r5, Four(s.e) + s5);
    var (r3, s3) := (Four(r.d) + r4, Four(s.d) + s4);
    var (r2, s2) := (Four(r.c) + r3, Four(s.c) + s3);
    var (r1, s1) := (Four(r.b) + r2, Four(s.b) + s2);
    XorFirst(r.g, s.g, r7, s7);
    XorFirst(r.f, s.f, r6, s6);
    XorFirst(r.e, s.e, r5, s5);
    XorFirst(r.d, s.d, r4, s4);
    XorFirst(r.c, s.c, r3, s3);
    XorFirst(r.b, s.b, r2, s2);
    XorFirst(r.a, s.a, r1, s1);
  }

  lemma HalfConcat(a: Bits, b: Bits)
    requires a != [] && b != []
    ensures Half(a + b) == (a[1..] + [b[0]]) + Half(b)
  {
    assert (a + b)[1..] == a[1..] + b;
    assert b == [b[0]] + b[1..];
  }

  /** Halving moves each digit's low bit out and the next digit's in. */
  lemma HalfFirst(m: Digit, n: Digit, w: Bits)
    ensures Half(Four(m) + (Four(n) + w)) == Four(HalfDigit(m, n)) + Half(Four(n) + w)
  {
    var f := Four(n) + w;
    assert Four(m)[1..] + [f[0]] == Four(HalfDigit(m, n));
    HalfConcat(Four(m), f);
  }

  lemma HalfLast(m: Digit)
    ensures Half(Four(m)) == Four(HalfDigit(m, H0))
  {
  }

  lemma HalfFlat(r: Reg)
    ensures Half(Flat(r)) == Flat(HalfReg(r))
  {
    hide Half, Four, HalfDigit;
    var none: Bits := [];
    var r7 := Four(r.h);
    var r6 := Four(r.g) + r7;
    var r5 := Four(r.f) + r6;
    var r4 := Four(r.e) + r5;
    var r3 := Four(r.d) + r4;
    var r2 := Four(r.c) + r3;
    HalfLast(r.h);
    assert r7 + none == r7;
    HalfFirst(r.g, r.h, none);
    HalfFirst(r.f, r.g, r7);
    HalfFirst(r.e, r.f, r6);
    HalfFirst(r.d, r.e, r5);
    HalfFirst(r.c, r.d, r4);
    HalfFirst(r.b, r.c, r3);
    HalfFirst(r.a, r.b, r2);
  }

  const POLY_REG := Reg(H8, H7, HB, H3, H6, HF, H2, H8)

  function Step(r: Reg): Reg {
    if r.a.a then XorReg(HalfReg(r), POLY_REG) else HalfReg(r)
  }

  lemma PolyFlat()
    ensures Flat(POLY_REG) == POLY
  {
    assert Number(POLY_REG) == 0x82F6_3B78;
    NumberBits(POLY_REG);
    hide ToBits, Flat;
  }

  lemma FirstBit(r: Reg)
    ensures Flat(r)[0] == r.a.a
  {
  }

  lemma StepFlat(r: Reg)
    ensures Shift(Flat(r)) == Flat(Step(r))
  {
    hide ToBits, Flat, Xor, Half, XorReg, HalfReg;
    FirstBit(r);
    PolyFlat();
    HalfFlat(r);
    XorFlat(HalfReg(r), POLY_REG);
  }

  function Eight(r: Reg): Reg {
    Step(Step(Step(Step(Step(Step(Step(Step(r))))))))
  }

  lemma EightFlat(r: Reg)
    ensures Shifts(Flat(r), 8) == Flat(Eight(r))
  {
    hide Flat, Step, Shift;
    var a := Step(r);
    var b := Step(a);
    var c := Step(b);
    var d := Step(c);
    var e := Step(d);
    var f := Step(e);
    var g := Step(f);
    StepFlat(r);
    StepFlat(a);
    StepFlat(b);
    StepFlat(c);
    StepFlat(d);
    StepFlat(e);
    StepFlat(f);
    StepFlat(g);
    assert Shifts(Flat(r), 8) == Shifts(Flat(b), 6);
    assert Shifts(Flat(b), 6) == Shifts(Flat(d), 4);
    assert Shifts(Flat(d), 4) == Shifts(Flat(f), 2);
  }

  // ---------------------------------------------------------------------
  // The message

  /** The byte with high digit 3 and low digit `low`, in a register. */
  function Ascii(low: Digit): Reg {
    Reg(low, H3, H0, H0, H0, H0, H0, H0)
  }

  function FeedReg(r: Reg, low: Digit): Reg {
    Eight(XorReg(r, Ascii(low)))
  }

  lemma AsciiNumber(low: Digit)
    ensures Number(Ascii(low)) == 0x30 + DigitValue(low) && DigitValue(low) < 16
  {
  }

  lemma AsciiFlat(low: Digit)
    ensures Wide(ToBits(0x30 + DigitValue(low), 8)) == Flat(Ascii(low))
  {
    hide ToBits, Flat, Pow2, Number;
    var n := 0x30 + DigitValue(low);
    AsciiNumber(low);
    NumberBits(Ascii(low));
    ByteRange();
    WiderBits(n, 8, 32);
  }

  lemma FeedFlat(r: Reg, low: Digit)
    ensures Feed(Flat(r), ToBits(0x30 + DigitValue(low), 8)) == Flat(FeedReg(r, low))
  {
    hide ToBits, Flat, Xor, XorReg, Eight, Shifts, Ascii, Wide, DigitValue;
    AsciiFlat(low);
    XorFlat(r, Ascii(low));
    EightFlat(XorReg(r, Ascii(low)));
  }

  /** The bytes of "123456789" after the first `i`. */
  function Digits(i: nat): seq<Octet>
    decreases 9 - i
  {
    if i >= 9 then [] else [ToBits(0x31 + i, 8)] + Digits(i + 1)
  }

  lemma FeedsNext(r: Reg, i: nat, low: Digit)
    requires i < 9 && DigitValue(low) == i + 1
    ensures Feeds(Flat(r), Digits(i)) == Feeds(Flat(FeedReg(r, low)), Digits(i + 1))
  {
    hide ToBits, Flat, Feed, FeedReg;
    FeedFlat(r, low);
    assert Digits(i)[1..] == Digits(i + 1);
  }

  lemma Bytes1()
    ensures Feeds(Flat(Reg(HF, HF, HF, HF, HF, HF, HF, HF)), Digits(0))
         == Feeds(Flat(Reg(HD, H4, H0, HD, H4, H8, HF, HE)), Digits(3))
  {
    var r0 := Reg(HF, HF, HF, HF, HF, HF, HF, HF);
    var r1 := Reg(HC, H1, H6, H6, HA, H0, HF, H6);
    var r2 := Reg(HF, H9, HB, H3, HA, HA, HC, H8);
    var r3 := Reg(HD, H4, H0, HD, H4, H8, HF, HE);
    assert FeedReg(r0, H1) == r1 && FeedReg(r1, H2) == r2 && FeedReg(r2, H3) == r3;
    hide Flat, Feeds, Digits, FeedReg;
    FeedsNext(r0, 0, H1);
    FeedsNext(r1, 1, H2);
    FeedsNext(r2, 2, H3);
  }

  lemma Bytes2()
    ensures Feeds(Flat(Reg(HD, H4, H0, HD, H4, H8, HF, HE)), Digits(3))
         == Feeds(Flat(Reg(H9, H7, HE, H8, HA, HC, HE, HB)), Digits(6))
  {
    var r0 := Reg(HD, H4, H0, HD, H4, H8, HF, HE);
    var r1 := Reg(H1, H1, HB, H0, H5, HC, H9, H0);
    var r2 := Reg(HA, HC, HC, HD, HE, H2, H7, HE);
    var r3 := Reg(H9, H7, HE, H8, HA, HC, HE, HB);
    assert FeedReg(r0, H4) == r1 && FeedReg(r1, H5) == r2 && FeedReg(r2, H6) == r3;
    hide Flat, Feeds, Digits, FeedReg;
    FeedsNext(r0, 3, H4);
    FeedsNext(r1, 4, H5);
    FeedsNext(r2, 5, H6);
  }

  lemma Bytes3()
    ensures Feeds(Flat(Reg(H9, H7, HE, H8, HA, HC, HE, HB)), Digits(6))
         == Feeds(Flat(Reg(HC, H7, HD, H6, H9, HF, HC, H1)), Digits(9))
  {
    var r0 := Reg(H9, H7, HE, H8, HA, HC, HE, HB);
    var r1 := Reg(H5, H1, H8, H6, HD, HB, HD, HE);
    var r2 := Reg(H5, H6, HF, H7, H8, H7, HF, H9);
    var r3 := Reg(HC, H7, HD, H6, H9, HF, HC, H1);
    assert FeedReg(r0, H7) == r1 && FeedReg(r1, H8) == r2 && FeedReg(r2, H9) == r3;
    hide Flat, Feeds, Digits, FeedReg;
    FeedsNext(r0, 6, H7);
    FeedsNext(r1, 7, H8);
    FeedsNext(r2, 8, H9);
  }

  lemma NotFlat(r: Reg, s: Reg)
    requires s == XorReg(r, Reg(HF, HF, HF, HF, HF, HF, HF, HF))
    ensures Not(Flat(r)) == Flat(s)
  {
    var ones := Flat(Reg(HF, HF, HF, HF, HF, HF, HF, HF));
    assert forall i :: 0 <= i < 32 ==> ones[i];
    XorFlat(r, Reg(HF, HF, HF, HF, HF, HF, HF, HF));
    hide Flat;
  }

  lemma ZeroFlat()
    ensures Flat(Reg(H0, H0, H0, H0, H0, H0, H0, H0)) == Zeros(32)
  {
    hide ToBits;
    var zero := Reg(H0, H0, H0, H0, H0, H0, H0, H0);
    assert Number(zero) == 0;
    NumberBits(zero);
    ZeroBits(32);
    hide Flat;
  }

  lemma SumFlat()
    ensures Flat(Reg(H3, H8, H2, H9, H6, H0, H3, HE)) == ToBits(0xE306_9283, 32)
  {
    hide ToBits;
    var sum := Reg(H3, H8, H2, H9, H6, H0, H3, HE);
    assert Number(sum) == 0xE306_9283;
    NumberBits(sum);
    hide Flat;
  }

  /** The nine bytes "123456789" have the checksum 0xE3069283. */
  lemma CheckValue()
    ensures Crc(Zeros(32), Digits(0)) == ToBits(0xE306_9283, 32)
  {
    var zero, start := Reg(H0, H0, H0, H0, H0, H0, H0, H0), Reg(HF, HF, HF, HF, HF, HF, HF, HF);
    var end, sum := Reg(HC, H7, HD, H6, H9, HF, HC, H1), Reg(H3, H8, H2, H9, H6, H0, H3, HE);
    assert start == XorReg(zero, start) && sum == XorReg(end, start);
    hide Flat, ToBits, Not, XorReg;
    ZeroFlat();
    SumFlat();
    NotFlat(zero, start);
    NotFlat(end, sum);
    assert Feeds(Flat(start), Digits(0)) == Flat(end) by {
      Bytes1();
      Bytes2();
      Bytes3();
      assert Digits(9) == [];
    }
  }
}
