/**
 Linear probing over a cyclic bucket array, as a theory of sequences of slots.

 Both hash tables of the catalog (the one with backward-shift deletion and the
 one that re-inserts the rest of the cluster) are proved against the map
 `Contents` defined here.  Cyclic distances are awkward to reason about, so the
 proofs cut the cycle open at an empty slot `e`: `Cut(s, e, r)` says that `r` is
 the bucket array rotated so that `e` comes last.  No probe chain crosses an empty
 slot, hence in the rotated array every chain is an ordinary interval.
 */
module Probing {

  datatype Slot<+K, +V> = Empty | Entry(key: K, val: V)

  /** Number of forward steps from slot `a` to slot `b` in a cycle of `n` slots. */
  function Dist(n: nat, a: nat, b: nat): (d: nat)
    requires a < n && b < n
    ensures d < n
  {
    if a <= b then b - a else b - a + n
  }

  /** The slot probed after `i`; the source writes `(i + 1) & (cap - 1)`. */
  function Next(n: nat, i: nat): (j: nat)
    requires i < n
    ensures j < n
  {
    if i + 1 == n then 0 else i + 1
  }

  /** The slot where probing for `k` starts in a table of `n` slots.  The source computes
      `hash(key) & (cap - 1)`; nothing below depends on which function of key and capacity it is. */
  function Home<K>(h: (K, nat) -> nat, n: nat, k: K): (i: nat)
    requires 0 < n
    ensures i < n
  {
    if h(k, n) < n then h(k, n) else 0
  }

  ghost predicate Distinct<K, V>(s: seq<Slot<K, V>>) {
    forall i, j {:trigger s[i].key, s[j].key} ::
      0 <= i < j < |s| && s[i].Entry? && s[j].Entry? ==> s[i].key != s[j].key
  }

  /** Every slot between an entry's home and the entry itself is occupied. */
  ghost predicate Chained<K, V>(h: (K, nat) -> nat, s: seq<Slot<K, V>>) {
    forall p, q {:trigger Dist(|s|, Home(h, |s|, s[p].key), q)} ::
      0 <= p < |s| && 0 <= q < |s| && s[p].Entry?
      && Dist(|s|, Home(h, |s|, s[p].key), q) < Dist(|s|, Home(h, |s|, s[p].key), p)
      ==> s[q].Entry?
  }

  /** What a probing table must satisfy for lookups to find every entry. */
  ghost predicate Table<K, V>(h: (K, nat) -> nat, s: seq<Slot<K, V>>) {
    Distinct(s) && Chained(h, s)
  }

  ghost function Keys<K, V>(s: seq<Slot<K, V>>): set<K> {
    set i | 0 <= i < |s| && s[i].Entry? :: s[i].key
  }

  /** The finite map a bucket array stands for. */
  ghost function Contents<K, V>(s: seq<Slot<K, V>>): map<K, V> {
    map k | k in Keys(s) :: var i :| 0 <= i < |s| && s[i].Entry? && s[i].key == k; s[i].val
  }

  // ---------------------------------------------------------------------
  // Occupancy

  /** Number of occupied slots. */
  ghost function Count<K, V>(s: seq<Slot<K, V>>): (c: nat)
    ensures c <= |s|
  {
    if s == [] then 0 else Count(s[..|s| - 1]) + if s[|s| - 1].Entry? then 1 else 0
  }

  lemma {:induction false} CountUpdate<K, V>(s: seq<Slot<K, V>>, i: nat, x: Slot<K, V>)
    requires i < |s|
    ensures Count(s[i := x]) == Count(s) + (if x.Entry? then 1 else 0) - (if s[i].Entry? then 1 else 0)
  {
    var n := |s| - 1;
    if i == n {
      assert s[i := x][..n] == s[..n];
    } else {
      CountUpdate(s[..n], i, x);
      assert s[i := x][..n] == s[..n][i := x];
    }
  }

  /** A table that is not full has an empty slot; this is what ends every probe. */
  lemma {:induction false} EmptyExists<K, V>(s: seq<Slot<K, V>>) returns (e: nat)
    requires Count(s) < |s|
    ensures e < |s| && s[e].Empty?
  {
    if s[|s| - 1].Empty? {
      e := |s| - 1;
    } else {
      e := EmptyExists(s[..|s| - 1]);
    }
  }

  lemma {:induction false} EntryExists<K, V>(s: seq<Slot<K, V>>) returns (i: nat)
    requires 0 < Count(s)
    ensures i < |s| && s[i].Entry?
  {
    if s[|s| - 1].Entry? {
      i := |s| - 1;
    } else {
      i := EntryExists(s[..|s| - 1]);
    }
  }

  lemma {:induction false} CountZero<K, V>(s: seq<Slot<K, V>>)
    ensures Count(s) == 0 <==> forall i :: 0 <= i < |s| ==> s[i].Empty?
  {
    if s != [] {
      var t := s[..|s| - 1];
      CountZero(t);
      assert forall i :: 0 <= i < |t| ==> s[i] == t[i];
    }
  }

  /** Emptying a slot removes exactly its key. */
  lemma Remove<K, V>(s: seq<Slot<K, V>>, i: nat)
    requires Distinct(s) && i < |s| && s[i].Entry?
    ensures Distinct(s[i := Empty])
    ensures Contents(s[i := Empty]) == Contents(s) - {s[i].key}
  {
    var t := s[i := Empty];
    forall x ensures x in Contents(t) <==> x in Contents(s) - {s[i].key} {
      if x in Contents(s) && x != s[i].key {
        var j :| 0 <= j < |s| && s[j].Entry? && s[j].key == x;
        assert t[j].key == x;
      }
    }
  }

  /** The number of occupied slots is the number of keys in the map. */
  lemma {:induction false} CountIsSize<K, V>(s: seq<Slot<K, V>>)
    requires Distinct(s)
    ensures |Contents(s)| == Count(s)
    decreases Count(s)
  {
    if Count(s) == 0 {
      CountZero(s);
    } else {
      var i := EntryExists(s);
      CountUpdate(s, i, Empty);
      Remove(s, i);
      CountIsSize(s[i := Empty]);
      assert s[i].key in Contents(s);
    }
  }

  // ---------------------------------------------------------------------
  // Changes to the map

  /** Filling a free slot with a new key adds that key. */
  lemma Insert<K, V>(s: seq<Slot<K, V>>, i: nat, k: K, v: V)
    requires Distinct(s)
    requires i < |s| && s[i].Empty? && k !in Contents(s)
    ensures Distinct(s[i := Entry(k, v)])
    ensures Contents(s[i := Entry(k, v)]) == Contents(s)[k := v]
  {
    var t := s[i := Entry(k, v)];
    assert forall j :: 0 <= j < |s| && s[j].Entry? ==> s[j].key in Contents(s);
    assert Distinct(t);
    forall x ensures x in Contents(t) <==> x in Contents(s)[k := v] {
      if x == k {
        assert t[i].key == k;
      } else if x in Contents(s) {
        var j :| 0 <= j < |s| && s[j].Entry? && s[j].key == x;
        assert t[j].key == x;
      }
    }
  }

  /** A probe that met `k` found its one entry. */
  lemma ProbeHit<K, V>(s: seq<Slot<K, V>>, i: nat)
    requires Distinct(s) && i < |s| && s[i].Entry?
    ensures s[i].key in Contents(s) && Contents(s)[s[i].key] == s[i].val
  {
  }

  lemma ContentsKeys<K, V>(s: seq<Slot<K, V>>)
    ensures Contents(s).Keys == Keys(s)
  {
  }

  lemma SameKeys<K, V>(s: seq<Slot<K, V>>, i: nat, v: V)
    requires Distinct(s) && i < |s| && s[i].Entry?
    ensures Distinct(s[i := Entry(s[i].key, v)]) && Keys(s[i := Entry(s[i].key, v)]) == Keys(s)
  {
    var t := s[i := Entry(s[i].key, v)];
    assert forall j :: 0 <= j < |s| ==> t[j].Entry? == s[j].Entry? && (s[j].Entry? ==> t[j].key == s[j].key);
  }

  /** Overwriting the value of a present key. */
  lemma Overwrite<K, V>(s: seq<Slot<K, V>>, i: nat, v: V)
    requires Distinct(s) && i < |s| && s[i].Entry?
    ensures Distinct(s[i := Entry(s[i].key, v)])
    ensures Contents(s[i := Entry(s[i].key, v)]) == Contents(s)[s[i].key := v]
  {
    hide Contents, Distinct;
    var t := s[i := Entry(s[i].key, v)];
    SameKeys(s, i, v);
    ContentsKeys(s);
    ContentsKeys(t);
    forall x | x in Keys(s) ensures Contents(t)[x] == if x == s[i].key then v else Contents(s)[x] {
      var j :| 0 <= j < |s| && s[j].Entry? && s[j].key == x;
      ProbeHit(s, j);
      ProbeHit(t, if x == s[i].key then i else j);
    }
    ProbeHit(s, i);
  }

  /** Moving an entry to an empty slot keeps the map. */
  lemma Move<K, V>(s: seq<Slot<K, V>>, from: nat, to: nat)
    requires Distinct(s) && from < |s| && to < |s|
    requires s[from].Entry? && s[to].Empty?
    ensures Distinct(s[to := s[from]][from := Empty])
    ensures Contents(s[to := s[from]][from := Empty]) == Contents(s)
    ensures Count(s[to := s[from]][from := Empty]) == Count(s)
  {
    CountUpdate(s, to, s[from]);
    CountUpdate(s[to := s[from]], from, Empty);
    Remove(s, from);
    Insert(s[from := Empty], to, s[from].key, s[from].val);
    assert s[to := s[from]][from := Empty] == s[from := Empty][to := s[from]];
    ProbeHit(s, from);
    assert Contents(s) == (Contents(s) - {s[from].key})[s[from].key := s[from].val];
  }

  /** The first `i` slots of a bucket array, the others empty. */
  ghost function Mask<K, V>(s: seq<Slot<K, V>>, i: nat): (t: seq<Slot<K, V>>)
    requires i <= |s|
    ensures |t| == |s|
  {
    seq(|s|, j requires 0 <= j < |s| => if j < i then s[j] else Empty)
  }

  /** Copying a bucket array slot by slot adds one entry at a time. */
  lemma MaskStep<K, V>(s: seq<Slot<K, V>>, i: nat)
    requires Distinct(s) && i < |s|
    ensures Distinct(Mask(s, i)) && Distinct(Mask(s, i + 1))
    ensures s[i].Empty? ==> Mask(s, i + 1) == Mask(s, i)
    ensures s[i].Entry? ==> s[i].key !in Contents(Mask(s, i))
    ensures s[i].Entry? ==> Contents(Mask(s, i + 1)) == Contents(Mask(s, i))[s[i].key := s[i].val]
  {
    var t := Mask(s, i);
    assert Mask(s, i + 1) == t[i := s[i]];
    assert Distinct(t);
    if s[i].Entry? {
      assert forall j :: 0 <= j < |t| && t[j].Entry? ==> t[j].key != s[i].key;
      Insert(t, i, s[i].key, s[i].val);
    }
  }

  lemma {:induction false} MaskCount<K, V>(s: seq<Slot<K, V>>, i: nat)
    requires i <= |s|
    ensures Count(Mask(s, i)) <= Count(s)
    ensures i < |s| ==> Count(Mask(s, i)) == Count(Mask(s, i + 1)) - (if s[i].Entry? then 1 else 0)
    ensures i < |s| && s[i].Entry? ==> Count(Mask(s, i)) < Count(s)
    decreases |s| - i
  {
    if i < |s| {
      MaskCount(s, i + 1);
      assert Mask(s, i + 1) == Mask(s, i)[i := s[i]];
      CountUpdate(Mask(s, i), i, s[i]);
    } else {
      assert Mask(s, i) == s;
    }
  }

  // ---------------------------------------------------------------------
  // Cutting the cycle open at an empty slot

  /** Position of slot `x` in the rotated array. */
  ghost function Pos(n: nat, e: nat, x: nat): (p: nat)
    requires e < n && x < n
    ensures p < n
  {
    if x > e then x - e - 1 else x - e - 1 + n
  }

  /** The slot at position `p` of the rotated array. */
  ghost function At(n: nat, e: nat, p: nat): (x: nat)
    requires e < n && p < n
    ensures x < n && Pos(n, e, x) == p
  {
    if p + e + 1 < n then p + e + 1 else p + e + 1 - n
  }

  /** Position of a key's home. */
  ghost function HomePos<K>(h: (K, nat) -> nat, n: nat, e: nat, k: K): (p: nat)
    requires e < n
    ensures p < n
  {
    Pos(n, e, Home(h, n, k))
  }

  /** All positions from the key's home up to `p` are occupied. */
  ghost predicate Packed<K, V>(h: (K, nat) -> nat, r: seq<Slot<K, V>>, e: nat, k: K, p: nat)
    requires e < |r|
  {
    && HomePos(h, |r|, e, k) <= p < |r|
    && forall q :: HomePos(h, |r|, e, k) <= q < p ==> r[q].Entry?
  }

  /** `Chained` in the rotated array: from its home to itself, an entry has no gap before it. */
  ghost predicate Line<K, V>(h: (K, nat) -> nat, r: seq<Slot<K, V>>, e: nat)
    requires e < |r|
  {
    forall p {:trigger HomePos(h, |r|, e, r[p].key)} :: 0 <= p < |r| && r[p].Entry? ==> Packed(h, r, e, r[p].key, p)
  }

  /** `r` is the bucket array read from the slot after `e` all the way round to `e`. */
  ghost predicate Cut<T>(s: seq<T>, e: nat, r: seq<T>) {
    && e < |s| == |r|
    && forall x {:trigger Pos(|s|, e, x)} :: 0 <= x < |s| ==> r[Pos(|s|, e, x)] == s[x]
  }

  lemma CutUpdate<T>(s: seq<T>, e: nat, r: seq<T>, x: nat, v: T)
    requires Cut(s, e, r) && x < |s|
    ensures Cut(s[x := v], e, r[Pos(|s|, e, x) := v])
  {
  }

  lemma PosNext(n: nat, e: nat, x: nat)
    requires e < n && x < n && x != e
    ensures Pos(n, e, Next(n, x)) == Pos(n, e, x) + 1
  {
  }

  lemma LineOfChained<K, V>(h: (K, nat) -> nat, s: seq<Slot<K, V>>, e: nat, r: seq<Slot<K, V>>)
    requires Cut(s, e, r) && s[e].Empty? && Chained(h, s)
    ensures Line(h, r, e)
  {
    var n := |s|;
    forall p | 0 <= p < n && r[p].Entry?
      ensures HomePos(h, n, e, r[p].key) <= p
      ensures forall q :: HomePos(h, n, e, r[p].key) <= q < p ==> r[q].Entry?
    {
      var x := At(n, e, p);
      assert s[x] == r[p];
      var a := Home(h, n, s[x].key);
      assert !(Dist(n, a, e) < Dist(n, a, x));
      forall q | HomePos(h, n, e, r[p].key) <= q < p ensures r[q].Entry? {
        var y := At(n, e, q);
        assert s[y] == r[q];
        assert Dist(n, a, y) < Dist(n, a, x);
      }
    }
  }

  /** Open the cycle of a table at one of its empty slots. */
  lemma CutOpen<K, V>(h: (K, nat) -> nat, s: seq<Slot<K, V>>) returns (e: nat, r: seq<Slot<K, V>>)
    requires Chained(h, s) && Count(s) < |s|
    ensures Cut(s, e, r) && s[e].Empty? && Line(h, r, e)
  {
    e := EmptyExists(s);
    r := s[e + 1..] + s[..e + 1];
    LineOfChained(h, s, e, r);
  }

  lemma ChainedOfLine<K, V>(h: (K, nat) -> nat, s: seq<Slot<K, V>>, e: nat, r: seq<Slot<K, V>>)
    requires Cut(s, e, r) && Line(h, r, e)
    ensures Chained(h, s)
  {
    var n := |s|;
    forall x, y | 0 <= x < n && 0 <= y < n && s[x].Entry?
                  && Dist(n, Home(h, n, s[x].key), y) < Dist(n, Home(h, n, s[x].key), x)
      ensures s[y].Entry?
    {
      assert HomePos(h, n, e, s[x].key) <= Pos(n, e, x);
      assert HomePos(h, n, e, s[x].key) <= Pos(n, e, y) < Pos(n, e, x);
    }
  }

  /** Filling the first free slot of a key's chain keeps all chains whole. */
  lemma FillKeepsChains<K, V>(h: (K, nat) -> nat, s: seq<Slot<K, V>>, e: nat, r: seq<Slot<K, V>>, i: nat, k: K, v: V)
    requires Cut(s, e, r) && i < |s| && Line(h, r, e) && Packed(h, r, e, k, Pos(|s|, e, i))
    ensures Chained(h, s[i := Entry(k, v)])
  {
    CutUpdate(s, e, r, i, Entry(k, v));
    var t := r[Pos(|s|, e, i) := Entry(k, v)];
    forall p | 0 <= p < |t| && t[p].Entry?
      ensures Packed(h, t, e, t[p].key, p)
    {
      assert p != Pos(|s|, e, i) ==> t[p] == r[p] && HomePos(h, |r|, e, r[p].key) <= p;
    }
    ChainedOfLine(h, s[i := Entry(k, v)], e, r[Pos(|s|, e, i) := Entry(k, v)]);
  }

  /** A probe that reached an empty slot without meeting `k` proves `k` absent. */
  lemma ProbeMiss<K, V>(h: (K, nat) -> nat, s: seq<Slot<K, V>>, e: nat, r: seq<Slot<K, V>>, i: nat, k: K)
    requires Distinct(s) && Cut(s, e, r) && i < |s| && s[i].Empty? && Line(h, r, e)
    requires Packed(h, r, e, k, Pos(|s|, e, i))
    requires forall q :: HomePos(h, |s|, e, k) <= q < Pos(|s|, e, i) ==> r[q].key != k
    ensures k !in Contents(s)
  {
    var n := |s|;
    forall x | 0 <= x < n && s[x].Entry?
      ensures s[x].key != k
    {
      var p := Pos(n, e, x);
      assert p < Pos(n, e, i) || p == Pos(n, e, i) || Pos(n, e, i) < p;
    }
  }

  // ---------------------------------------------------------------------
  // The probe loop both tables share

  /** Walk from the key's home; stop at the key or at a free slot. */
  method Probe<K(==), V>(h: (K, nat) -> nat, b: array<Slot<K, V>>, key: K, ghost e: nat, ghost r: seq<Slot<K, V>>)
    returns (i: nat)
    requires Cut(b[..], e, r) && b[e].Empty?
    ensures i < b.Length && Packed(h, r, e, key, Pos(b.Length, e, i))
    ensures b[i].Entry? ==> b[i].key == key
    ensures forall q :: HomePos(h, b.Length, e, key) <= q < Pos(b.Length, e, i) ==> r[q].key != key
  {
    ghost var n := b.Length;
    i := Home(h, b.Length, key);
    while b[i].Entry? && b[i].key != key
      invariant i < n && Packed(h, r, e, key, Pos(n, e, i))
      invariant forall q :: HomePos(h, n, e, key) <= q < Pos(n, e, i) ==> r[q].key != key
      decreases n - Pos(n, e, i)
    {
      assert r[Pos(n, e, i)] == b[..][i];
      PosNext(n, e, i);
      i := Next(b.Length, i);
    }
  }

  /** The key's slot, or the first free slot of its chain. */
  method Find<K(==), V>(h: (K, nat) -> nat, b: array<Slot<K, V>>, key: K, ghost e: nat, ghost r: seq<Slot<K, V>>)
    returns (i: nat)
    requires Distinct(b[..]) && Cut(b[..], e, r) && b[e].Empty? && Line(h, r, e)
    ensures i < b.Length && Packed(h, r, e, key, Pos(b.Length, e, i))
    ensures b[i].Entry? ==> b[i].key == key && key in Contents(b[..]) && Contents(b[..])[key] == b[i].val
    ensures b[i].Empty? ==> key !in Contents(b[..])
  {
    i := Probe(h, b, key, e, r);
    if b[i].Entry? {
      ProbeHit(b[..], i);
    } else {
      ProbeMiss(h, b[..], e, r, i, key);
    }
  }
}
