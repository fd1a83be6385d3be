/** Decimal numbers as text: `%llu` and `%lld` in one direction, `strtoll` in the other. */
module Decimals {

  type Digit = c: int | 48 <= c < 58 witness 48

  function Decimal(n: nat): (s: seq<Digit>)
    ensures s != []
  {
    if n < 10 then [48 + n] else Decimal(n / 10) + [48 + n % 10]
  }

  function Value(s: seq<Digit>): nat {
    if s == [] then 0 else Value(s[..|s| - 1]) * 10 + (s[|s| - 1] as int - 48)
  }

  /** A printed number reads back, and is printed without leading zeros. */
  lemma {:induction false} DecimalReadsBack(n: nat)
    ensures Value(Decimal(n)) == n
    ensures Decimal(n)[0] == 48 ==> n == 0
  {
    if n < 10 {
      assert Decimal(n)[..0] == [];
    } else {
      DecimalReadsBack(n / 10);
      assert Decimal(n)[..|Decimal(n)| - 1] == Decimal(n / 10);
    }
  }

  /** Read digits up to the first byte that is none. */
  function Scan(b: seq<int>, acc: nat): nat {
    if b == [] || b[0] < 48 || b[0] >= 58 then acc else Scan(b[1..], acc * 10 + (b[0] - 48))
  }

  lemma {:induction false} ScanSnoc(s: seq<Digit>, d: Digit, acc: nat)
    ensures Scan(s + [d], acc) == Scan(s, acc) * 10 + (d - 48)
  {
    if s != [] {
      assert (s + [d])[1..] == s[1..] + [d];
      ScanSnoc(s[1..], d, acc * 10 + (s[0] as int - 48));
    }
  }

  lemma {:induction false} ScanIsValue(s: seq<Digit>)
    ensures Scan(s, 0) == Value(s)
  {
    if s != [] {
      ScanIsValue(s[..|s| - 1]);
      ScanSnoc(s[..|s| - 1], s[|s| - 1], 0);
      assert s == s[..|s| - 1] + [s[|s| - 1]];
    }
  }
}
