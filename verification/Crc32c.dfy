/**
 The table-driven CRC32C of cli/tsdb_wire.c:144-160.  It is the remainder of the
 polynomial division of section 12.1 of RFC 3720, fed bit by bit; it can be computed
 piecewise; and it differs for any two messages of one length that differ only within
 four consecutive bytes.

 A word is its bits, least significant first, so that `x >> 1` is `Half(x)`.
 */
module Crc32c {

  type Bits = seq<bool>

  function Zeros(n: nat): Bits { seq(n, _ => false) }

  type Word = w: Bits | |w| == 32 witness Zeros(32)

  type Octet = b: Bits | |b| == 8 witness Zeros(8)

  function Xor(a: Bits, b: Bits): (r: Bits)
    requires |a| == |b|
    ensures |r| == |a|
  {
    seq(|a|, i requires 0 <= i < |a| => a[i] != b[i])
  }

  function Not(a: Word): Word {
    seq(32, i requires 0 <= i < 32 => !a[i])
  }

  function ToBits(n: nat, w: nat): (b: Bits)
    ensures |b| == w
  {
    if w == 0 then [] else [n % 2 == 1] + ToBits(n / 2, w - 1)
  }

  function Value(b: Bits): nat {
    if b == [] then 0 else (if b[0] then 1 else 0) + 2 * Value(b[1..])
  }

  function Pow2(n: nat): nat {
    if n == 0 then 1 else 2 * Pow2(n - 1)
  }

  const POLY: Word := ToBits(0x82F6_3B78, 32)

  function Half(c: Bits): (r: Bits)
    requires c != []
    ensures |r| == |c|
  {
    c[1..] + [false]
  }

  /** One step of the inner loop of the table construction. */
  function Shift(c: Word): Word {
    if c[0] then Xor(Half(c), POLY) else Half(c)
  }

  function Shifts(c: Word, n: nat): Word
    decreases n
  {
    if n == 0 then c else Shifts(Shift(c), n - 1)
  }

  function Wide(b: Bits): Word
    requires |b| <= 32
  {
    b + Zeros(32 - |b|)
  }

  /** Feed a byte: add it to the low end of the register, then eight steps. */
  function Feed(c: Word, b: Octet): Word {
    Shifts(Xor(c, Wide(b)), 8)
  }

  function Feeds(c: Word, buf: seq<Octet>): Word
    decreases |buf|
  {
    if buf == [] then c else Feeds(Feed(c, buf[0]), buf[1..])
  }

  /** The checksum of `buf` continued from the checksum `crc` of what came before. */
  function Crc(crc: Word, buf: seq<Octet>): Word {
    Not(Feeds(Not(crc), buf))
  }

  // ---------------------------------------------------------------------
  // Numbers and bits

  lemma {:induction false} BitsBack(b: Bits)
    ensures ToBits(Value(b), |b|) == b && Value(b) < Pow2(|b|)
  {
    if b != [] {
      BitsBack(b[1..]);
      var n := Value(b);
      assert n / 2 == Value(b[1..]) && (n % 2 == 1) == b[0];
      assert b == [b[0]] + b[1..];
    }
  }

  lemma {:induction false} ValueBack(n: nat, w: nat)
    requires n < Pow2(w)
    ensures Value(ToBits(n, w)) == n
  {
    if w > 0 {
      ValueBack(n / 2, w - 1);
      assert ToBits(n, w)[1..] == ToBits(n / 2, w - 1);
    }
  }

  lemma {:induction false} ValueConcat(a: Bits, b: Bits)
    ensures Value(a + b) == Value(a) + Pow2(|a|) * Value(b)
  {
    if a == [] {
      assert a + b == b;
    } else {
      ValueConcat(a[1..], b);
      assert (a + b)[1..] == a[1..] + b;
      assert 2 * (Pow2(|a| - 1) * Value(b)) == Pow2(|a|) * Value(b);
    }
  }

  lemma {:induction false} ZeroBits(w: nat)
    ensures ToBits(0, w) == Zeros(w)
  {
    if w > 0 {
      ZeroBits(w - 1);
      assert Zeros(w) == [false] + Zeros(w - 1);
    }
  }

  /** The bits of a small number in a wider word. */
  lemma {:induction false} WiderBits(n: nat, v: nat, w: nat)
    requires n < Pow2(v) && v <= w
    ensures ToBits(n, w) == ToBits(n, v) + Zeros(w - v)
  {
    if v == 0 {
      ZeroBits(w);
      assert [] + Zeros(w) == Zeros(w);
    } else {
      WiderBits(n / 2, v - 1, w - 1);
    }
  }

  lemma ByteRange()
    ensures Pow2(8) == 256
  {
    assert Pow2(4) == 16;
  }

  // ---------------------------------------------------------------------
  // Eight steps are one table lookup

  lemma ShiftLinear(a: Word, b: Word)
    ensures Shift(Xor(a, b)) == Xor(Shift(a), Shift(b))
  {
    hide ToBits;
    assert Half(Xor(a, b)) == Xor(Half(a), Half(b));
    assert forall i :: 0 <= i < 32 ==> Shift(Xor(a, b))[i] == Xor(Shift(a), Shift(b))[i];
  }

  lemma {:induction false} ShiftsLinear(a: Word, b: Word, n: nat)
    ensures Shifts(Xor(a, b), n) == Xor(Shifts(a, n), Shifts(b, n))
    decreases n
  {
    if n > 0 {
      hide Shift, Xor;
      ShiftLinear(a, b);
      ShiftsLinear(Shift(a), Shift(b), n - 1);
    }
  }

  /** As long as zeros leave the register, a step only shifts. */
  lemma {:induction false} ShiftsZeros(x: Word, n: nat)
    requires n <= 32 && forall i :: 0 <= i < n ==> !x[i]
    ensures Shifts(x, n) == x[n..] + Zeros(n)
    decreases n
  {
    if n > 0 {
      var y := Shift(x);
      assert y == x[1..] + [false];
      ShiftsZeros(y, n - 1);
      assert y[n - 1..] == x[n..] + [false];
      assert [false] + Zeros(n - 1) == Zeros(n);
    } else {
      assert x[0..] + Zeros(0) == x;
    }
  }

  lemma Lookup(x: Word)
    ensures Shifts(x, 8) == Xor(x[8..] + Zeros(8), Shifts(Wide(x[..8]), 8))
  {
    var high: Word := Zeros(8) + x[8..];
    var low := Wide(x[..8]);
    assert x == Xor(high, low);
    ShiftsLinear(high, low, 8);
    ShiftsZeros(high, 8);
    assert high[8..] == x[8..];
  }

  /** The table entry of an index is eight steps from it. */
  ghost predicate IsTable(t: seq<Word>, n: nat) {
    n <= |t| && forall i :: 0 <= i < n ==> t[i] == Shifts(ToBits(i, 32), 8)
  }

  method BuildEntry(i: nat) returns (crc: Word)
    ensures crc == Shifts(ToBits(i, 32), 8)
  {
    hide Shift, ToBits;
    crc := ToBits(i, 32);
    var j: nat := 0;
    while j < 8
      invariant j <= 8 && Shifts(crc, 8 - j) == Shifts(ToBits(i, 32), 8)
    {
      crc := Shift(crc);
      j := j + 1;
    }
  }

  method BuildTable() returns (table: array<Word>)
    ensures fresh(table) && table.Length == 256 && IsTable(table[..], 256)
  {
    hide Shifts, ToBits;
    table := new Word[256](_ => Zeros(32));
    var i: nat := 0;
    while i < 256
      invariant i <= 256 && IsTable(table[..], i)
    {
      table[i] := BuildEntry(i);
      i := i + 1;
    }
  }

  /** One turn of the checksum loop: shift out a byte, add the entry it selects. */
  method Turn(table: array<Word>, c: Word, b: Octet) returns (r: Word)
    requires table.Length == 256 && IsTable(table[..], 256)
    ensures r == Feed(c, b)
  {
    hide Shifts, Value, ToBits, Pow2;
    var x: Word := Xor(c, Wide(b));
    var low := x[..8];
    BitsBack(low);
    ByteRange();
    WiderBits(Value(low), 8, 32);
    Lookup(x);
    assert c[8..] == x[8..];
    r := Xor(c[8..] + Zeros(8), table[Value(low)]);
    assert table[..][Value(low)] == Shifts(Wide(low), 8);
  }

  // ---------------------------------------------------------------------
  // In pieces

  lemma {:induction false} FeedsConcat(c: Word, a: seq<Octet>, b: seq<Octet>)
    ensures Feeds(c, a + b) == Feeds(Feeds(c, a), b)
    decreases |a|
  {
    hide Feed;
    if a == [] {
      assert a + b == b;
    } else {
      assert (a + b)[1..] == a[1..] + b;
      FeedsConcat(Feed(c, a[0]), a[1..], b);
    }
  }

  lemma NotNot(a: Word)
    ensures Not(Not(a)) == a
  {
  }

  /** Checksumming in pieces is checksumming the concatenation. */
  lemma CrcConcat(crc: Word, a: seq<Octet>, b: seq<Octet>)
    ensures Crc(crc, a + b) == Crc(Crc(crc, a), b)
  {
    hide Not, Feeds;
    FeedsConcat(Not(crc), a, b);
    NotNot(Feeds(Not(crc), a));
  }

  // ---------------------------------------------------------------------
  // The remainder of a polynomial division

  /** Long division of a polynomial, given by its coefficients from the highest on, by
      x^32 + POLY; the last 32 coefficients are the remainder. */
  function Remainder(d: Bits): Word
    requires |d| >= 32
    decreases |d|
  {
    if |d| == 32 then d
    else if d[0] then Remainder(Xor(d[1..33], POLY) + d[33..])
    else Remainder(d[1..])
  }

  function Concat(buf: seq<Octet>): Bits {
    if buf == [] then [] else buf[0] + Concat(buf[1..])
  }

  /** Feed bits one at a time: add the bit to the low end, then one step. */
  function FeedBits(c: Word, bits: Bits): Word
    decreases |bits|
  {
    if bits == [] then c else FeedBits(Shift(c[0 := c[0] != bits[0]]), bits[1..])
  }

  lemma ShiftAddsRest(c: Word, bits: Bits)
    requires 0 < |bits| <= 32
    ensures Shift(Xor(c, Wide(bits))) == Xor(Shift(c[0 := c[0] != bits[0]]), Wide(bits[1..]))
  {
    hide ToBits;
    var w := Wide(bits);
    assert Half(w) == Wide(bits[1..]);
    assert Half(Xor(c, w)) == Xor(Half(c), Half(w));
    assert Half(c[0 := c[0] != bits[0]]) == Half(c);
  }

  lemma {:induction false} ShiftsAreBits(c: Word, bits: Bits)
    requires |bits| <= 32
    ensures Shifts(Xor(c, Wide(bits)), |bits|) == FeedBits(c, bits)
    decreases |bits|
  {
    if bits == [] {
      assert Xor(c, Wide([])) == c;
    } else {
      ShiftAddsRest(c, bits);
      hide Shift, Xor, Wide;
      ShiftsAreBits(Shift(c[0 := c[0] != bits[0]]), bits[1..]);
    }
  }

  lemma {:induction false} FeedBitsConcat(c: Word, a: Bits, b: Bits)
    ensures FeedBits(c, a + b) == FeedBits(FeedBits(c, a), b)
    decreases |a|
  {
    hide Shift;
    if a == [] {
      assert a + b == b;
    } else {
      assert (a + b)[1..] == a[1..] + b;
      FeedBitsConcat(Shift(c[0 := c[0] != a[0]]), a[1..], b);
    }
  }

  lemma NoBits(c: Word)
    ensures FeedBits(c, []) == c
  {
  }

  lemma {:induction false} FeedsAreBits(c: Word, buf: seq<Octet>)
    ensures Feeds(c, buf) == FeedBits(c, Concat(buf))
    decreases |buf|
  {
    hide Shift, Shifts, FeedBits;
    if buf == [] {
      NoBits(c);
    } else {
      ShiftsAreBits(c, buf[0]);
      FeedsAreBits(Feed(c, buf[0]), buf[1..]);
      FeedBitsConcat(c, buf[0], Concat(buf[1..]));
    }
  }

  /** One step of the register is one step of the long division. */
  lemma DividesOnce(c: Word, bits: Bits)
    requires bits != []
    ensures var n := |bits|;
            var d := Xor(c + Zeros(n), bits + Zeros(32));
            var e := Xor(Shift(c[0 := c[0] != bits[0]]) + Zeros(n - 1), bits[1..] + Zeros(32));
            e == if d[0] then Xor(d[1..33], POLY) + d[33..] else d[1..]
  {
    hide ToBits;
    var n := |bits|;
    var d := Xor(c + Zeros(n), bits + Zeros(32));
    var e := Xor(Shift(c[0 := c[0] != bits[0]]) + Zeros(n - 1), bits[1..] + Zeros(32));
    assert d[0] == (c[0] != bits[0]);
    var f := if d[0] then Xor(d[1..33], POLY) + d[33..] else d[1..];
    assert |e| == |f| == 31 + n;
    forall i | 0 <= i < 31 + n ensures e[i] == f[i] {
      var next := c[0 := c[0] != bits[0]];
      assert Half(next) == c[1..] + [false];
      assert d[i + 1] == ((c + Zeros(n))[i + 1] != (bits + Zeros(32))[i + 1]);
      assert f[i] == if d[0] && i < 32 then d[i + 1] != POLY[i] else d[i + 1];
      assert (bits[1..] + Zeros(32))[i] == (bits + Zeros(32))[i + 1];
      assert i < 31 ==> (c + Zeros(n))[i + 1] == Half(next)[i];
      assert i >= 31 ==> !(c + Zeros(n))[i + 1];
      assert i == 31 ==> !Half(next)[i];
    }
  }

  lemma {:induction false} RegisterIsRemainder(c: Word, bits: Bits)
    ensures Remainder(Xor(c + Zeros(|bits|), bits + Zeros(32))) == FeedBits(c, bits)
    decreases |bits|
  {
    hide Shift;
    if bits == [] {
      assert Xor(c + Zeros(0), bits + Zeros(32)) == c;
    } else {
      DividesOnce(c, bits);
      RegisterIsRemainder(Shift(c[0 := c[0] != bits[0]]), bits[1..]);
    }
  }

  /** The register is the remainder of the message times x^32, the first 32 coefficients
      first adjusted by the register's start. */
  lemma FeedsAreRemainder(c: Word, buf: seq<Octet>)
    ensures Feeds(c, buf) == Remainder(Xor(c + Zeros(|Concat(buf)|), Concat(buf) + Zeros(32)))
  {
    FeedsAreBits(c, buf);
    RegisterIsRemainder(c, Concat(buf));
  }

  /** The message times x^32, the complement of `crc` added to the first 32 coefficients. */
  function Dividend(crc: Word, msg: Bits): (d: Bits)
    ensures |d| == |msg| + 32
  {
    seq(|msg| + 32, j requires 0 <= j < |msg| + 32 =>
      if j < 32 then (j < |msg| && msg[j]) != !crc[j] else j < |msg| && msg[j])
  }

  /** `d` with its first 32 coefficients complemented. */
  function Flipped(d: Bits): (f: Bits)
    requires |d| >= 32
    ensures |f| == |d|
  {
    seq(|d|, j requires 0 <= j < |d| => if j < 32 then !d[j] else d[j])
  }

  /** The checksum is the complement of a remainder, whatever it continues. */
  lemma CrcIsRemainder(crc: Word, buf: seq<Octet>)
    ensures forall i :: 0 <= i < 32 ==> Crc(crc, buf)[i] == !Remainder(Dividend(crc, Concat(buf)))[i]
    ensures crc == Zeros(32) ==> Dividend(crc, Concat(buf)) == Flipped(Concat(buf) + Zeros(32))
  {
    hide Feeds, Remainder;
    var msg := Concat(buf);
    FeedsAreRemainder(Not(crc), buf);
    assert Dividend(crc, msg) == Xor(Not(crc) + Zeros(|msg|), msg + Zeros(32));
  }

  /** The checksum loop.  From 0 the result is, bit for bit, the complement of the remainder of the
      message and 32 zeros with the first 32 coefficients complemented. */
  method Checksum(crc: Word, buf: seq<Octet>) returns (r: Word)
    ensures r == Crc(crc, buf)
    ensures forall i :: 0 <= i < 32 ==> r[i] == !Remainder(Dividend(crc, Concat(buf)))[i]
    ensures crc == Zeros(32) ==> forall i :: 0 <= i < 32 ==> r[i] == !Remainder(Flipped(Concat(buf) + Zeros(32)))[i]
  {
    CrcIsRemainder(crc, buf);
    hide Not, Feed, Remainder, Dividend, Flipped;
    var table := BuildTable();
    var c, i := Not(crc), 0;
    while i < |buf|
      invariant table.Length == 256 && IsTable(table[..], 256)
      invariant 0 <= i <= |buf| && Feeds(c, buf[i..]) == Feeds(Not(crc), buf)
    {
      c := Turn(table, c, buf[i]);
      assert buf[i..][1..] == buf[i + 1..];
      i := i + 1;
    }
    r := Not(c);
  }

  /** The bits of a number, most significant first. */
  function FromTop(n: nat, w: nat): Bits {
    if w == 0 then [] else FromTop(n / 2, w - 1) + [n % 2 == 1]
  }

  /** Move the low bits of `n` one by one below those of `acc`. */
  function Mirror(n: nat, w: nat, acc: nat): nat
    decreases w
  {
    if w == 0 then acc else Mirror(n / 2, w - 1, 2 * acc + n % 2)
  }

  lemma {:induction false} MirrorReads(n: nat, w: nat, acc: nat, v: nat)
    ensures FromTop(Mirror(n, w, acc), v + w) == FromTop(acc, v) + ToBits(n, w)
    decreases w
  {
    if w == 0 {
      assert FromTop(acc, v) + [] == FromTop(acc, v);
    } else {
      var b := 2 * acc + n % 2;
      assert b / 2 == acc && b % 2 == n % 2;
      MirrorReads(n / 2, w - 1, b, v + 1);
      assert FromTop(b, v + 1) == FromTop(acc, v) + [n % 2 == 1];
      assert ToBits(n, w) == [n % 2 == 1] + ToBits(n / 2, w - 1);
    }
  }

  lemma MirrorStep(n: nat, w: nat, acc: nat)
    ensures Mirror(n, w + 1, acc) == Mirror(n / 2, w, 2 * acc + n % 2)
  {
  }

  lemma MirrorFour(n: nat, w: nat, acc: nat)
    ensures Mirror(n, w + 4, acc)
         == Mirror(n / 16, w, 16 * acc + 8 * (n % 2) + 4 * (n / 2 % 2) + 2 * (n / 4 % 2) + n / 8 % 2)
  {
    hide Mirror;
    var a := 2 * acc + n % 2;
    var b := 2 * a + n / 2 % 2;
    var c := 2 * b + n / 4 % 2;
    MirrorStep(n, w + 3, acc);
    MirrorStep(n / 2, w + 2, a);
    MirrorStep(n / 4, w + 1, b);
    MirrorStep(n / 8, w, c);
  }

  lemma NoTop()
    ensures FromTop(0, 0) == [] && Mirror(0, 0, 0x1EDC_6F41) == 0x1EDC_6F41
  {
  }

  /** The divisor is x^32 plus the coefficients 0x1EDC6F41, highest first: the Castagnoli
      polynomial of section 12.1 of RFC 3720. */
  lemma PolyIsCastagnoli()
    ensures POLY == FromTop(0x1EDC_6F41, 32)
  {
    hide FromTop, ToBits, Mirror;
    MirrorFour(0x82F6_3B78, 28, 0);
    MirrorFour(0x82F_63B7, 24, 0x1);
    MirrorFour(0x82_F63B, 20, 0x1E);
    MirrorFour(0x8_2F63, 16, 0x1ED);
    MirrorFour(0x82F6, 12, 0x1EDC);
    MirrorFour(0x82F, 8, 0x1_EDC6);
    MirrorFour(0x82, 4, 0x1E_DC6F);
    MirrorFour(0x8, 0, 0x1ED_C6F4);
    NoTop();
    MirrorReads(0x82F6_3B78, 32, 0, 0);
    assert [] + POLY == POLY;
  }

  // ---------------------------------------------------------------------
  // What the checksum detects

  lemma {:induction false} TopLength(n: nat, w: nat)
    ensures |FromTop(n, w)| == w
  {
    if w > 0 {
      TopLength(n / 2, w - 1);
    }
  }

  lemma TopOfPoly()
    ensures POLY[31]
  {
    PolyIsCastagnoli();
    hide ToBits;
    assert FromTop(0x1EDC_6F41, 32) == FromTop(0x1EDC_6F41 / 2, 31) + [true];
    TopLength(0x1EDC_6F41 / 2, 31);
  }

  /** A step loses nothing: the bit that leaves reappears at the top. */
  lemma ShiftInjective(a: Word, b: Word)
    requires Shift(a) == Shift(b)
    ensures a == b
  {
    hide ToBits;
    TopOfPoly();
    assert Shift(a)[31] == a[0] && Shift(b)[31] == b[0];
    forall i | 1 <= i < 32 ensures a[i] == b[i] {
      assert Half(a)[i - 1] == a[i] && Half(b)[i - 1] == b[i];
      assert Shift(a)[i - 1] == Shift(b)[i - 1];
    }
  }

  lemma {:induction false} ShiftsInjective(a: Word, b: Word, n: nat)
    requires Shifts(a, n) == Shifts(b, n)
    ensures a == b
    decreases n
  {
    hide Shift;
    if n > 0 {
      ShiftsInjective(Shift(a), Shift(b), n - 1);
      ShiftInjective(a, b);
    }
  }

  lemma {:induction false} FeedBitsInjective(c: Word, d: Word, bits: Bits)
    requires FeedBits(c, bits) == FeedBits(d, bits)
    ensures c == d
    decreases |bits|
  {
    hide Shift;
    if bits != [] {
      var c', d': Word := c[0 := c[0] != bits[0]], d[0 := d[0] != bits[0]];
      FeedBitsInjective(Shift(c'), Shift(d'), bits[1..]);
      ShiftInjective(c', d');
      assert c'[0] == d'[0];
      assert forall i :: 1 <= i < 32 ==> c[i] == c'[i] && d[i] == d'[i];
    }
  }

  /** At most 32 bits into the same register are told apart. */
  lemma ShortBitsInjective(c: Word, x: Bits, y: Bits)
    requires |x| == |y| <= 32 && FeedBits(c, x) == FeedBits(c, y)
    ensures x == y
  {
    hide FeedBits, Shifts;
    ShiftsAreBits(c, x);
    ShiftsAreBits(c, y);
    var a, b: Word := Xor(c, Wide(x)), Xor(c, Wide(y));
    ShiftsInjective(a, b, |x|);
    forall i | 0 <= i < |x| ensures x[i] == y[i] {
      assert a[i] == (c[i] != x[i]) && b[i] == (c[i] != y[i]);
    }
  }

  /** A change confined to at most 32 consecutive bits always changes the register. */
  lemma BurstChangesRegister(c: Word, pre: Bits, x: Bits, y: Bits, post: Bits)
    requires |x| == |y| <= 32 && x != y
    ensures FeedBits(c, pre + x + post) != FeedBits(c, pre + y + post)
  {
    hide FeedBits;
    FeedBitsConcat(c, pre + x, post);
    FeedBitsConcat(c, pre + y, post);
    FeedBitsConcat(c, pre, x);
    FeedBitsConcat(c, pre, y);
    var d := FeedBits(c, pre);
    if FeedBits(FeedBits(d, x), post) == FeedBits(FeedBits(d, y), post) {
      FeedBitsInjective(FeedBits(d, x), FeedBits(d, y), post);
      ShortBitsInjective(d, x, y);
    }
  }

  lemma {:induction false} ConcatBits(a: seq<Octet>, b: seq<Octet>)
    ensures Concat(a + b) == Concat(a) + Concat(b) && |Concat(a)| == 8 * |a|
  {
    if a == [] {
      assert a + b == b;
    } else {
      ConcatBits(a[1..], b);
      assert (a + b)[1..] == a[1..] + b;
      assert a[0] + (Concat(a[1..]) + Concat(b)) == (a[0] + Concat(a[1..])) + Concat(b);
    }
  }

  lemma {:induction false} ConcatInjective(a: seq<Octet>, b: seq<Octet>)
    requires |a| == |b| && Concat(a) == Concat(b)
    ensures a == b
  {
    if a != [] {
      assert a[0] == Concat(a)[..8] == Concat(b)[..8] == b[0];
      assert Concat(a[1..]) == Concat(a)[8..] == Concat(b)[8..] == Concat(b[1..]);
      ConcatInjective(a[1..], b[1..]);
      assert a == [a[0]] + a[1..] && b == [b[0]] + b[1..];
    }
  }

  /** A change confined to at most four consecutive bytes always changes the checksum. */
  lemma BurstChangesCrc(crc: Word, pre: seq<Octet>, x: seq<Octet>, y: seq<Octet>, post: seq<Octet>)
    requires |x| == |y| <= 4 && x != y
    ensures Crc(crc, pre + x + post) != Crc(crc, pre + y + post)
  {
    hide Not, Feeds, FeedBits, Concat;
    var c := Not(crc);
    FeedsAreBits(c, pre + x + post);
    FeedsAreBits(c, pre + y + post);
    ConcatBits(pre + x, post);
    ConcatBits(pre + y, post);
    ConcatBits(pre, x);
    ConcatBits(pre, y);
    ConcatBits(x, []);
    ConcatBits(y, []);
    NotNot(Feeds(c, pre + x + post));
    NotNot(Feeds(c, pre + y + post));
    if Concat(x) == Concat(y) {
      ConcatInjective(x, y);
    } else {
      BurstChangesRegister(c, Concat(pre), Concat(x), Concat(y), Concat(post));
    }
  }
}
