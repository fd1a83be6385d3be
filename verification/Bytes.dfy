/** Little-endian integers, shared by the catalog log and the wire format. */
module Bytes {
  import opened Entities

  /** The `w` low bytes of `n`, least significant first. */
  function LE(n: nat, w: nat): (b: seq<Byte>)
    ensures |b| == w
  {
    if w == 0 then [] else [n % 256] + LE(n / 256, w - 1)
  }

  function UnLE(b: seq<Byte>): nat {
    if b == [] then 0 else b[0] + 256 * UnLE(b[1..])
  }

  /** `n` is representable in `w` bytes. */
  predicate Fits(n: nat, w: nat) {
    if w == 0 then n == 0 else Fits(n / 256, w - 1)
  }

  lemma {:induction false} UnLEInverts(n: nat, w: nat)
    requires Fits(n, w)
    ensures UnLE(LE(n, w)) == n
  {
    if w > 0 {
      UnLEInverts(n / 256, w - 1);
      assert LE(n, w)[1..] == LE(n / 256, w - 1);
    }
  }

  lemma {:induction false} LEInverts(b: seq<Byte>)
    ensures LE(UnLE(b), |b|) == b
  {
    if b != [] {
      LEInverts(b[1..]);
      var n := UnLE(b);
      assert n % 256 == b[0] && n / 256 == UnLE(b[1..]);
      assert b == [b[0]] + b[1..];
    }
  }

  lemma LETwo(n: nat)
    ensures LE(n, 2) == [n % 256, n / 0x100 % 256]
  {
    assert LE(n / 256, 1) == [n / 256 % 256] + LE(n / 256 / 256, 0);
  }

  lemma LEConcat(n: nat, w: nat)
    ensures LE(n, w + 2) == LE(n, 2) + LE(n / 0x1_0000, w)
  {
    LETwo(n);
    assert n / 256 / 256 == n / 0x1_0000;
    assert LE(n, w + 2) == [n % 256] + ([n / 256 % 256] + LE(n / 256 / 256, w));
  }

  /** The bytes of a 32-bit and of a 64-bit field, spelled out. */
  lemma LEFields(n: nat)
    ensures LE(n, 4) == [n % 256, n / 0x100 % 256, n / 0x1_0000 % 256, n / 0x100_0000 % 256]
    ensures LE(n, 8) == LE(n, 4) + LE(n / 0x1_0000_0000, 4)
  {
    hide LE;
    var m := n / 0x1_0000;
    var k := n / 0x1_0000_0000;
    assert m / 256 == n / 0x100_0000 && m / 0x1_0000 == k;
    LETwo(n);
    LETwo(m);
    LEConcat(n, 2);
    LEConcat(n, 6);
    LEConcat(m, 4);
  }

  /** The result of reading from the front of a buffer. */
  datatype Got<+T> = Got(value: T, rest: seq<Byte>) | Err {
    predicate IsFailure() {
      Err?
    }
    function PropagateFailure<U>(): Got<U>
      requires Err?
    {
      Err
    }
    function Extract(): (T, seq<Byte>)
      requires Got?
    {
      (value, rest)
    }
  }

  /** Read a `w`-byte integer. */
  function ReadUint(b: seq<Byte>, w: nat): Got<nat>
    decreases w
  {
    if w == 0 then Got(0, b)
    else if b == [] then Err
    else match ReadUint(b[1..], w - 1)
      case Err => Err
      case Got(n, rest) => Got(b[0] + 256 * n, rest)
  }

  lemma {:induction false} ReadUintBack(n: nat, w: nat, rest: seq<Byte>)
    requires Fits(n, w)
    ensures ReadUint(LE(n, w) + rest, w) == Got(n, rest)
  {
    if w == 0 {
      assert LE(n, w) + rest == rest;
    } else {
      ReadUintBack(n / 256, w - 1, rest);
      assert (LE(n, w) + rest)[1..] == LE(n / 256, w - 1) + rest;
    }
  }

  lemma {:induction false} ReadUintRest(b: seq<Byte>, w: nat)
    ensures ReadUint(b, w) == if |b| < w then Err else Got(UnLE(b[..w]), b[w..])
  {
    if w > 0 && b != [] {
      ReadUintRest(b[1..], w - 1);
      if |b| >= w {
        assert b[..w][1..] == b[1..][..w - 1];
      }
    }
  }

  function ReadBytes(b: seq<Byte>, n: nat): Got<seq<Byte>> {
    if |b| < n then Err else Got(b[..n], b[n..])
  }

  lemma ReadBytesBack(s: seq<Byte>, rest: seq<Byte>)
    ensures ReadBytes(s + rest, |s|) == Got(s, rest)
  {
    assert (s + rest)[..|s|] == s && (s + rest)[|s|..] == rest;
  }

  lemma FitsStep(n: nat, w: nat)
    ensures Fits(n, w + 1) == Fits(n / 256, w)
  {
  }

  lemma FitsFour(n: nat)
    requires n < 0x1_0000_0000
    ensures Fits(n, 4)
  {
    FitsStep(n, 3);
    FitsStep(n / 256, 2);
    FitsStep(n / 256 / 256, 1);
    FitsStep(n / 256 / 256 / 256, 0);
  }

  lemma FitsEight(n: nat)
    requires Fits(n / 0x1_0000_0000, 4)
    ensures Fits(n, 8)
  {
    FitsStep(n, 7);
    FitsStep(n / 256, 6);
    FitsStep(n / 256 / 256, 5);
    FitsStep(n / 256 / 256 / 256, 4);
    assert n / 256 / 256 / 256 / 256 == n / 0x1_0000_0000;
  }

  lemma SmallFits(n: nat)
    ensures n < 0x100 ==> Fits(n, 1)
    ensures n < 0x1_0000 ==> Fits(n, 2)
    ensures n < 0x1_0000_0000 ==> Fits(n, 4)
    ensures n < 0x1_0000_0000_0000_0000 ==> Fits(n, 8)
  {
    FitsStep(n, 0);
    if n < 0x1_0000 {
      FitsStep(n, 1);
      FitsStep(n / 256, 0);
    }
    if n < 0x1_0000_0000 {
      FitsFour(n);
    }
    if n < 0x1_0000_0000_0000_0000 {
      FitsFour(n / 0x1_0000_0000);
      FitsEight(n);
    }
  }
}
