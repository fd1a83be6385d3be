/**
 The bucket table of the v1 catalog (`hmap_*` in src/catalog/catalog.c, repeated
 as `sc_hmap_*` in src/catalog/stable_catalog.c).  It probes like the v2 table,
 but deletes by emptying the slot and re-inserting every later entry of the
 cluster.  Besides refining a map, a deletion at slot `i` never brings an entry
 from slot `i` or above to a slot below `i`; a scan that deletes as it goes
 depends on that.
 */
module V1Table {
  import opened Basics
  import opened Probing

  /** State of the re-insertion loop over the rotated array: the entries before position `j`
      have complete chains, the others are complete from `j` on. */
  ghost predicate Reinserting<K, V>(h: (K, nat) -> nat, r: seq<Slot<K, V>>, e: nat, j: nat)
  {
    && e < |r| && j < |r| && r[|r| - 1].Empty?
    && (forall p {:trigger HomePos(h, |r|, e, r[p].key)} ::
          0 <= p < |r| && r[p].Entry? ==> HomePos(h, |r|, e, r[p].key) <= p)
    && (forall p, q {:trigger HomePos(h, |r|, e, r[p].key), r[q]} ::
          0 <= q < p < |r| && (p < j || j <= q) && r[p].Entry? && HomePos(h, |r|, e, r[p].key) <= q ==> r[q].Entry?)
  }

  lemma ReinsertStart<K, V>(h: (K, nat) -> nat, r: seq<Slot<K, V>>, e: nat, i: nat)
    requires e < |r| && r[|r| - 1].Empty? && Line(h, r, e)
    requires i < |r| && r[i].Entry?
    ensures Reinserting(h, r[i := Empty], e, i + 1)
  {
  }

  lemma ReinsertStep<K, V>(h: (K, nat) -> nat, r: seq<Slot<K, V>>, e: nat, j: nat, q: nat)
    requires Reinserting(h, r, e, j) && r[j].Entry?
    requires q <= j && r[j := Empty][q].Empty? && Packed(h, r[j := Empty], e, r[j].key, q)
    ensures Reinserting(h, r[j := Empty][q := r[j]], e, j + 1)
  {
  }

  lemma ReinsertDone<K, V>(h: (K, nat) -> nat, r: seq<Slot<K, V>>, e: nat, j: nat)
    requires Reinserting(h, r, e, j) && r[j].Empty?
    ensures Line(h, r, e)
  {
    // A chain that starts before j and ends after it would cover the empty slot j.
    forall p | 0 <= p < |r| && r[p].Entry?
      ensures Packed(h, r, e, r[p].key, p)
    {
      var a := HomePos(h, |r|, e, r[p].key);
      assert p < j || j < p;
    }
  }

  /** Taking an entry out and putting it into a free slot keeps map and count. */
  lemma Relocate<K, V>(s: seq<Slot<K, V>>, j: nat, q: nat)
    requires Distinct(s) && j < |s| && q < |s| && s[j].Entry? && s[j := Empty][q].Empty?
    ensures Distinct(s[j := Empty][q := s[j]])
    ensures Contents(s[j := Empty][q := s[j]]) == Contents(s)
    ensures Count(s[j := Empty][q := s[j]]) == Count(s)
  {
    if q == j {
      assert s[j := Empty][q := s[j]] == s;
    } else {
      assert s[j := Empty][q := s[j]] == s[q := s[j]][j := Empty];
      Move(s, j, q);
    }
  }

  /** Where each entry came from: `src[p]` is the position that held, before the deletion at
      position `hole`, what position `p` holds now; entries only move back, never past `hole`. */
  ghost predicate Traced<K, V>(r0: seq<Slot<K, V>>, r: seq<Slot<K, V>>, src: seq<nat>, hole: nat)
  {
    && |r0| == |r| == |src|
    && forall p :: 0 <= p < |r| && r[p].Entry?
                   ==> && p <= src[p] < |r| && r0[src[p]] == r[p]
                       && (src[p] == p || hole <= p)
  }

  lemma TracedStep<K, V>(r0: seq<Slot<K, V>>, r: seq<Slot<K, V>>, src: seq<nat>, hole: nat, j: nat, q: nat)
    requires Traced(r0, r, src, hole) && hole <= q <= j < |r| && r[j].Entry?
    ensures Traced(r0, r[j := Empty][q := r[j]], src[q := src[j]], hole)
  {
  }

  /** Every entry below slot `i` was below slot `i` before. */
  ghost predicate NothingSinks<K, V>(s0: seq<Slot<K, V>>, s: seq<Slot<K, V>>, i: nat) {
    && i < |s0| == |s|
    && forall x :: 0 <= x < i && s[x].Entry? ==> s[x] in s0[..i]
  }

  /** Even in a cluster that wraps around, nothing from the hole or above lands below it. */
  lemma TracedStaysAbove<K, V>(s0: seq<Slot<K, V>>, r0: seq<Slot<K, V>>, s: seq<Slot<K, V>>, r: seq<Slot<K, V>>,
                               src: seq<nat>, e: nat, i: nat)
    requires Cut(s0, e, r0) && Cut(s, e, r) && i < |s0| == |s| && Traced(r0, r, src, Pos(|s|, e, i))
    ensures NothingSinks(s0, s, i)
  {
    var n := |s|;
    forall x | 0 <= x < i && s[x].Entry?
      ensures s[x] in s0[..i]
    {
      var p := Pos(n, e, x);
      assert r[p] == s[x];
      var y := At(n, e, src[p]);
      assert s0[y] == r0[src[p]];
      assert y < i;
      assert s0[..i][y] == s[x];
    }
  }

  /** A re-inserted entry cannot land before the hole: those positions are as full as they were. */
  lemma LandsAfterHole<K, V>(h: (K, nat) -> nat, r: seq<Slot<K, V>>, r0: seq<Slot<K, V>>, src: seq<nat>, e: nat,
                             a: nat, p: nat, c: nat)
    requires e < |r| == |r0| && a < p < |r| && r[p].Entry?
    requires r[..a] == r0[..a] && Line(h, r0, e) && Traced(r0, r, src, a)
    requires c <= p && r[p := Empty][c].Empty? && HomePos(h, |r|, e, r[p].key) <= c
    ensures a <= c
  {
    var y := src[p];
    assert r0[y] == r[p] && p <= y;
    assert Packed(h, r0, e, r0[y].key, y) by {
      assert HomePos(h, |r0|, e, r0[y].key) <= |r0|;
    }
    assert forall x :: 0 <= x < a ==> r[x] == r[..a][x] && r0[x] == r0[..a][x];
  }

  class V1Table<K(==), V> {
    const hash: (K, nat) -> nat
    var b: array<Slot<K, V>>
    var size: nat

    ghost predicate Valid()
      reads this, b
    {
      && 4 <= b.Length
      && Table(hash, b[..])
      && size == Count(b[..])
      && size * 10 < b.Length * 7 + 10
    }

    ghost function Model(): map<K, V>
      reads this, b
    {
      Contents(b[..])
    }

    constructor (hash: (K, nat) -> nat)
      ensures Valid() && fresh(b) && this.hash == hash && Model() == map[] && b.Length == 16 && size == 0
    {
      this.hash := hash;
      b := new Slot<K, V>[16](_ => Empty);
      size := 0;
      new;
      CountZero(b[..]);
    }

    /** First free slot at or after the key's home, looking at occupancy only. */
    method FreeSlot(a: array<Slot<K, V>>, key: K, ghost e: nat, ghost r: seq<Slot<K, V>>, ghost free: nat)
      returns (i: nat)
      requires Cut(a[..], e, r) && e < a.Length && HomePos(hash, a.Length, e, key) <= free < a.Length && r[free].Empty?
      ensures i < a.Length && a[i].Empty? && Packed(hash, r, e, key, Pos(a.Length, e, i)) && Pos(a.Length, e, i) <= free
    {
      ghost var n := a.Length;
      i := Home(hash, a.Length, key);
      while a[i].Entry?
        invariant i < n && Packed(hash, r, e, key, Pos(n, e, i)) && Pos(n, e, i) <= free
        decreases n - Pos(n, e, i)
      {
        assert r[Pos(n, e, i)] == a[..][i];
        PosNext(n, e, i);
        i := Next(a.Length, i);
      }
    }

    method Get(key: K) returns (v: Option<V>)
      requires Valid()
      ensures v == if key in Model() then Some(Model()[key]) else None
    {
      ghost var e, r := CutOpen(hash, b[..]);
      var i := Find(hash, b, key, e, r);
      v := match b[i] case Entry(_, v) => Some(v) case Empty => None;
    }

    /** Copy slot `i` of the old array into the first free slot of its chain in the new one. */
    method Rehash(nb: array<Slot<K, V>>, x: Slot<K, V>, ghost before: seq<Slot<K, V>>, ghost i: nat)
      requires Distinct(before) && i < |before| && x == before[i]
      requires nb.Length == 2 * |before| && Table(hash, nb[..])
      requires Count(nb[..]) == Count(Mask(before, i)) && Contents(nb[..]) == Contents(Mask(before, i))
      modifies nb
      ensures Table(hash, nb[..])
      ensures Count(nb[..]) == Count(Mask(before, i + 1)) && Contents(nb[..]) == Contents(Mask(before, i + 1))
    {
      MaskCount(before, i);
      MaskStep(before, i);
      if x.Entry? {
        ghost var t := nb[..];
        ghost var e, r := CutOpen(hash, t);
        assert r[Pos(nb.Length, e, e)] == t[e];
        var q := FreeSlot(nb, x.key, e, r, nb.Length - 1);
        Insert(t, q, x.key, x.val);
        CountUpdate(t, q, x);
        FillKeepsChains(hash, t, e, r, q, x.key, x.val);
        nb[q] := x;
        assert nb[..] == t[q := x];
      }
    }

    method Grow()
      requires Valid()
      modifies this`b
      ensures Valid() && fresh(b) && b.Length == 2 * old(b.Length)
      ensures Model() == old(Model())
    {
      ghost var before := b[..];
      var nb := new Slot<K, V>[b.Length * 2](_ => Empty);
      CountZero(nb[..]);
      CountZero(Mask(before, 0));
      var i := 0;
      while i < b.Length
        invariant i <= b.Length && b[..] == before && fresh(nb) && nb.Length == 2 * b.Length
        invariant Table(hash, nb[..]) && Count(nb[..]) == Count(Mask(before, i))
        invariant Contents(nb[..]) == Contents(Mask(before, i))
      {
        Rehash(nb, b[i], before, i);
        i := i + 1;
      }
      assert Mask(before, i) == before;
      b := nb;
    }

    method Store(i: nat, key: K, val: V, ghost e: nat, ghost r: seq<Slot<K, V>>)
      requires Valid() && size * 10 < b.Length * 7 && i < b.Length
      requires if b[i].Entry? then b[i].key == key && key in Model() else key !in Model()
      requires Cut(b[..], e, r) && Line(hash, r, e) && Packed(hash, r, e, key, Pos(b.Length, e, i))
      modifies this`size, b
      ensures Valid() && Model() == old(Model())[key := val]
      ensures size == old(size) + if old(b[i].Entry?) then 0 else 1
    {
      ghost var s := b[..];
      CountUpdate(s, i, Entry(key, val));
      FillKeepsChains(hash, s, e, r, i, key, val);
      if b[i].Entry? {
        Overwrite(s, i, val);
      } else {
        Insert(s, i, key, val);
        size := size + 1;
      }
      b[i] := Entry(key, val);
      assert b[..] == s[i := Entry(key, val)];
    }

    method Put(key: K, val: V)
      requires Valid()
      modifies this, b
      ensures Valid() && Model() == old(Model())[key := val]
      ensures b == old(b) || fresh(b)
      ensures b.Length == old(b.Length) * if old(size) * 10 >= old(b.Length) * 7 then 2 else 1
    {
      if size * 10 >= b.Length * 7 {
        Grow();
      }
      ghost var e, r := CutOpen(hash, b[..]);
      var i := Find(hash, b, key, e, r);
      Store(i, key, val, e, r);
    }

    /** Take out the entry at `j` and put it into the first free slot of its chain. */
    method ReinsertOne(j: nat, ghost e: nat, ghost r: seq<Slot<K, V>>, ghost r0: seq<Slot<K, V>>,
                       ghost src: seq<nat>, ghost a: nat)
      returns (ghost r': seq<Slot<K, V>>, ghost src': seq<nat>)
      requires Cut(b[..], e, r) && Distinct(b[..]) && j < b.Length && b[j].Entry?
      requires a < Pos(b.Length, e, j) && Reinserting(hash, r, e, Pos(b.Length, e, j))
      requires |r| == |r0| && r[..a] == r0[..a] && Line(hash, r0, e) && Traced(r0, r, src, a)
      modifies b
      ensures Cut(b[..], e, r') && Reinserting(hash, r', e, Pos(b.Length, e, j) + 1)
      ensures Distinct(b[..]) && Contents(b[..]) == old(Contents(b[..])) && Count(b[..]) == old(Count(b[..]))
      ensures |r'| == |r0| && r'[..a] == r0[..a] && Traced(r0, r', src', a)
    {
      ghost var s, n, p := b[..], b.Length, Pos(b.Length, e, j);
      assert r[p] == s[j];
      var x := b[j];
      assert HomePos(hash, n, e, r[p].key) <= p;
      CutUpdate(s, e, r, j, Empty);
      b[j] := Empty;
      assert b[..] == s[j := Empty];
      var q := FreeSlot(b, x.key, e, r[p := Empty], p);
      ghost var c := Pos(n, e, q);
      LandsAfterHole(hash, r, r0, src, e, a, p, c);
      CutUpdate(s[j := Empty], e, r[p := Empty], q, x);
      Relocate(s, j, q);
      ReinsertStep(hash, r, e, p, c);
      TracedStep(r0, r, src, a, p, c);
      b[q] := x;
      assert b[..] == s[j := Empty][q := x];
      r', src' := r[p := Empty][c := x], src[c := src[p]];
    }

    /** Take out and re-insert every entry from the slot after the hole to the next free slot. */
    method ReinsertCluster(hole: nat, ghost e: nat, ghost line: seq<Slot<K, V>>,
                           ghost s0: seq<Slot<K, V>>, ghost r0: seq<Slot<K, V>>)
      requires Cut(b[..], e, line) && Distinct(b[..]) && hole < b.Length
      requires Cut(s0, e, r0) && |s0| == b.Length && line == r0[Pos(b.Length, e, hole) := Empty]
      requires Line(hash, r0, e)
      requires Reinserting(hash, line, e, Pos(b.Length, e, hole) + 1)
      modifies b
      ensures Table(hash, b[..])
      ensures Contents(b[..]) == old(Contents(b[..])) && Count(b[..]) == old(Count(b[..]))
      ensures NothingSinks(s0, b[..], hole)
    {
      ghost var n, r, a := b.Length, line, Pos(b.Length, e, hole);
      ghost var src: seq<nat> := seq(n, (p: nat) => p);
      PosNext(n, e, hole);
      var j: nat := Next(b.Length, hole);
      while b[j].Entry?
        invariant j < n && a < Pos(n, e, j) && Cut(b[..], e, r)
        invariant Reinserting(hash, r, e, Pos(n, e, j))
        invariant Distinct(b[..]) && Contents(b[..]) == old(Contents(b[..]))
        invariant Count(b[..]) == old(Count(b[..]))
        invariant |r| == |r0| && r[..a] == r0[..a] && Traced(r0, r, src, a)
        decreases n - Pos(n, e, j)
      {
        assert r[Pos(n, e, j)] == b[..][j];
        PosNext(n, e, j);
        r, src := ReinsertOne(j, e, r, r0, src, a);
        j := Next(b.Length, j);
      }
      assert r[Pos(n, e, j)] == b[..][j];
      ReinsertDone(hash, r, e, Pos(n, e, j));
      ChainedOfLine(hash, b[..], e, r);
      TracedStaysAbove(s0, r0, b[..], r, src, e, hole);
    }

    method RemoveAt(i: nat, ghost e: nat, ghost r: seq<Slot<K, V>>)
      requires Valid() && i < b.Length && b[i].Entry?
      requires Cut(b[..], e, r) && b[e].Empty? && Line(hash, r, e)
      modifies this`size, b
      ensures Valid() && Model() == old(Model()) - {old(b[i].key)}
      ensures NothingSinks(old(b[..]), b[..], i) && size == old(size) - 1
    {
      ghost var s, p := b[..], Pos(b.Length, e, i);
      assert r[p] == s[i] && r[Pos(b.Length, e, e)] == s[e];
      ReinsertStart(hash, r, e, p);
      CutUpdate(s, e, r, i, Empty);
      Remove(s, i);
      CountUpdate(s, i, Empty);
      b[i] := Empty;
      size := size - 1;
      assert b[..] == s[i := Empty];
      assert forall q :: 0 <= q < p && r[q].Entry? ==> r[p := Empty][q].Entry?;
      ReinsertCluster(i, e, r[p := Empty], s, r);
    }

    /** Delete by key.  Says whether the key was present, and at which slot. */
    method Delete(key: K) returns (found: bool, ghost at: nat)
      requires Valid()
      modifies this, b
      ensures Valid() && b == old(b)
      ensures found == (key in old(Model()))
      ensures Model() == old(Model()) - {key}
      ensures found ==> at < b.Length && old(b[at].Entry?) && old(b[at].key) == key
      ensures found ==> NothingSinks(old(b[..]), b[..], at) && size == old(size) - 1
    {
      ghost var e, r := CutOpen(hash, b[..]);
      var i := Find(hash, b, key, e, r);
      found, at := b[i].Entry?, i;
      if found {
        RemoveAt(i, e, r);
      }
    }
  }
}
