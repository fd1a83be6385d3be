/**
 The string-keyed table of the v2 catalog: open addressing, linear probing,
 growth at 70% load and backward-shift deletion (`h_init`, `h_grow`, `h_put`,
 `h_get`, `h_del` in src/catalog/catalog_v2.c).  The table refines a finite map
 for every hash function, every capacity and every sequence of operations.
 */
module HashTable {
  import opened Basics
  import opened Probing

  /** The source's test for moving the entry at `j` back into the hole `i`. */
  predicate Movable(home: nat, i: nat, j: nat) {
    if i <= j then home <= i || home > j else home <= i && home > j
  }

  /** The cyclic comparison in the source is the linear one once the cycle is cut. */
  lemma MovableMeans(n: nat, e: nat, i: nat, j: nat, home: nat)
    requires e < n && i < n && j < n && home < n
    requires Pos(n, e, i) < Pos(n, e, j) && Pos(n, e, home) <= Pos(n, e, j)
    ensures Movable(home, i, j) <==> Pos(n, e, home) <= Pos(n, e, i)
  {
  }

  /** State of the shifting loop of `h_del` over the rotated array: a hole at position `i`,
      no entry before position `j` probes across it. */
  ghost predicate Shifting<K, V>(h: (K, nat) -> nat, r: seq<Slot<K, V>>, e: nat, i: nat, j: nat)
  {
    && e < |r| && i < j < |r| && r[i].Empty? && r[|r| - 1].Empty?
    && (forall p {:trigger HomePos(h, |r|, e, r[p].key)} :: 0 <= p < |r| && r[p].Entry?
          ==> HomePos(h, |r|, e, r[p].key) <= p && (p < j ==> !(HomePos(h, |r|, e, r[p].key) <= i < p)))
    && (forall p, q {:trigger HomePos(h, |r|, e, r[p].key), r[q]} ::
          0 <= q < p < |r| && q != i && r[p].Entry? && HomePos(h, |r|, e, r[p].key) <= q ==> r[q].Entry?)
  }

  lemma ShiftStart<K, V>(h: (K, nat) -> nat, r: seq<Slot<K, V>>, e: nat, i: nat)
    requires e < |r| && r[|r| - 1].Empty? && Line(h, r, e)
    requires i < |r| && r[i].Entry?
    ensures Shifting(h, r[i := Empty], e, i, i + 1)
  {
  }

  lemma ShiftMove<K, V>(h: (K, nat) -> nat, r: seq<Slot<K, V>>, e: nat, i: nat, j: nat)
    requires Shifting(h, r, e, i, j) && r[j].Entry?
    requires HomePos(h, |r|, e, r[j].key) <= i
    ensures Shifting(h, r[i := r[j]][j := Empty], e, j, j + 1)
  {
    var t := r[i := r[j]][j := Empty];
    forall p, q | 0 <= q < p < |t| && q != j && t[p].Entry? && HomePos(h, |t|, e, t[p].key) <= q
      ensures t[q].Entry?
    {
      assert t[p] == r[if p == i then j else p];
    }
  }

  lemma ShiftSkip<K, V>(h: (K, nat) -> nat, r: seq<Slot<K, V>>, e: nat, i: nat, j: nat)
    requires Shifting(h, r, e, i, j) && r[j].Entry?
    requires i < HomePos(h, |r|, e, r[j].key)
    ensures Shifting(h, r, e, i, j + 1)
  {
  }

  lemma ShiftDone<K, V>(h: (K, nat) -> nat, r: seq<Slot<K, V>>, e: nat, i: nat, j: nat)
    requires Shifting(h, r, e, i, j) && r[j].Empty?
    ensures Line(h, r, e)
  {
    // An entry that probes across the hole would also have to probe across the empty slot j.
    forall p | 0 <= p < |r| && r[p].Entry?
      ensures Packed(h, r, e, r[p].key, p)
    {
      var a := HomePos(h, |r|, e, r[p].key);
      assert p < j || j < p;
    }
  }

  class HashTable<K(==), V> {
    const hash: (K, nat) -> nat
    var b: array<Slot<K, V>>
    var size: nat

    ghost predicate Valid()
      reads this, b
    {
      && 2 <= b.Length
      && Table(hash, b[..])
      && size == Count(b[..])
      && size * 10 < b.Length * 7
    }

    ghost function Model(): map<K, V>
      requires Valid()
      reads this, b
    {
      Contents(b[..])
    }

    constructor (hash: (K, nat) -> nat, cap: nat)
      requires 2 <= cap
      ensures Valid() && fresh(b) && this.hash == hash && Model() == map[]
    {
      this.hash := hash;
      b := new Slot<K, V>[cap](_ => Empty);
      size := 0;
      new;
      CountZero(b[..]);
    }

    method Get(key: K) returns (r: Option<V>)
      requires Valid()
      ensures r == if key in Model() then Some(Model()[key]) else None
    {
      ghost var e, line := CutOpen(hash, b[..]);
      var i := Find(hash, b, key, e, line);
      r := match b[i] case Entry(_, v) => Some(v) case Empty => None;
    }

    predicate Full()
      reads this
    {
      (size + 1) * 10 >= b.Length * 7
    }

    /** Write the probed slot. */
    method Store(i: nat, key: K, val: V, ghost e: nat, ghost r: seq<Slot<K, V>>)
      requires Valid() && !Full() && i < b.Length
      requires if b[i].Entry? then b[i].key == key && key in Model() else key !in Model()
      requires Cut(b[..], e, r) && Line(hash, r, e) && Packed(hash, r, e, key, Pos(b.Length, e, i))
      modifies this`size, b
      ensures Valid() && Model() == old(Model())[key := val]
      ensures size == old(size) + if key in old(Model()) then 0 else 1
    {
      ghost var s := b[..];
      CountUpdate(s, i, Entry(key, val));
      FillKeepsChains(hash, s, e, r, i, key, val);
      if b[i].Entry? {
        Overwrite(s, i, val);
      } else {
        Insert(s, i, key, val);
        size := size + 1;
      }
      b[i] := Entry(key, val);
      assert b[..] == s[i := Entry(key, val)];
    }

    /** Put slot `i` of the old array into the new one. */
    method Reput(x: Slot<K, V>, ghost before: seq<Slot<K, V>>, ghost i: nat)
      requires Valid() && Distinct(before) && i < |before| && x == before[i]
      requires b.Length == 2 * |before| && Count(before) * 10 < |before| * 7
      requires size == Count(Mask(before, i)) && Model() == Contents(Mask(before, i))
      modifies this, b
      ensures Valid() && b == old(b)
      ensures size == Count(Mask(before, i + 1)) && Model() == Contents(Mask(before, i + 1))
      decreases 1
    {
      MaskCount(before, i);
      MaskStep(before, i);
      if x.Entry? {
        Put(x.key, x.val);
      }
    }

    /** Doubling: every old entry is put again into the new array, which never grows in turn. */
    method Grow()
      requires Valid()
      modifies this
      ensures Valid() && fresh(b) && !Full() && b.Length == 2 * old(b.Length)
      ensures Model() == old(Model()) && size == old(size)
      decreases 2
    {
      ghost var before := b[..];
      var ob := b;
      b := new Slot<K, V>[ob.Length * 2](_ => Empty);
      size := 0;
      CountZero(b[..]);
      CountZero(Mask(before, 0));
      var i := 0;
      while i < ob.Length
        invariant i <= ob.Length && fresh(b) && ob[..] == before
        invariant Valid() && b.Length == 2 * ob.Length
        invariant size == Count(Mask(before, i))
        invariant Model() == Contents(Mask(before, i))
      {
        Reput(ob[i], before, i);
        i := i + 1;
      }
      assert Mask(before, i) == before;
    }

    method Put(key: K, val: V)
      requires Valid()
      modifies this, b
      ensures Valid() && Model() == old(Model())[key := val]
      ensures old(Full()) ==> fresh(b)
      ensures !old(Full()) ==> b == old(b)
      ensures b.Length == old(b.Length) * if (old(size) + 1) * 10 >= old(b.Length) * 7 then 2 else 1
      ensures size == old(size) + if key in old(Model()) then 0 else 1
      decreases if Full() then 3 else 0
    {
      if Full() {
        Grow();
      }
      ghost var e, r := CutOpen(hash, b[..]);
      var i := Find(hash, b, key, e, r);
      Store(i, key, val, e, r);
    }

    /** Move the entry at `j` into the hole at `i` unless its home lies after the hole. */
    method ShiftOne(i: nat, j: nat, ghost e: nat, ghost r: seq<Slot<K, V>>)
      returns (hole: nat, ghost r': seq<Slot<K, V>>)
      requires Cut(b[..], e, r) && Distinct(b[..])
      requires i < b.Length && j < b.Length && b[j].Entry?
      requires Shifting(hash, r, e, Pos(b.Length, e, i), Pos(b.Length, e, j))
      modifies b
      ensures hole < b.Length && Cut(b[..], e, r')
      ensures Shifting(hash, r', e, Pos(b.Length, e, hole), Pos(b.Length, e, j) + 1)
      ensures Distinct(b[..]) && Contents(b[..]) == old(Contents(b[..])) && Count(b[..]) == old(Count(b[..]))
    {
      ghost var s, n := b[..], b.Length;
      assert r[Pos(n, e, j)] == s[j] && r[Pos(n, e, i)] == s[i];
      var home := Home(hash, b.Length, b[j].key);
      assert HomePos(hash, |r|, e, r[Pos(n, e, j)].key) <= Pos(n, e, j);
      MovableMeans(n, e, i, j, home);
      if Movable(home, i, j) {
        ShiftMove(hash, r, e, Pos(n, e, i), Pos(n, e, j));
        Move(s, j, i);
        CutUpdate(s, e, r, i, s[j]);
        CutUpdate(s[i := s[j]], e, r[Pos(n, e, i) := s[j]], j, Empty);
        b[i] := b[j];
        b[j] := Empty;
        assert b[..] == s[i := s[j]][j := Empty];
        hole, r' := j, r[Pos(n, e, i) := s[j]][Pos(n, e, j) := Empty];
      } else {
        ShiftSkip(hash, r, e, Pos(n, e, i), Pos(n, e, j));
        hole, r' := i, r;
      }
    }

    /** Walk the rest of the cluster and pull entries back over the hole. */
    method ShiftBack(hole: nat, ghost e: nat, ghost line: seq<Slot<K, V>>)
      requires Cut(b[..], e, line) && Distinct(b[..]) && hole < b.Length
      requires Shifting(hash, line, e, Pos(b.Length, e, hole), Pos(b.Length, e, hole) + 1)
      modifies b
      ensures Table(hash, b[..])
      ensures Contents(b[..]) == old(Contents(b[..])) && Count(b[..]) == old(Count(b[..]))
    {
      ghost var n, r := b.Length, line;
      PosNext(n, e, hole);
      var i: nat, j: nat := hole, Next(b.Length, hole);
      while b[j].Entry?
        invariant i < n && j < n && Cut(b[..], e, r)
        invariant Shifting(hash, r, e, Pos(n, e, i), Pos(n, e, j))
        invariant Distinct(b[..]) && Contents(b[..]) == old(Contents(b[..]))
        invariant Count(b[..]) == old(Count(b[..]))
        decreases n - Pos(n, e, j)
      {
        assert r[Pos(n, e, j)] == b[..][j];
        PosNext(n, e, j);
        i, r := ShiftOne(i, j, e, r);
        j := Next(b.Length, j);
      }
      assert r[Pos(n, e, j)] == b[..][j];
      ShiftDone(hash, r, e, Pos(n, e, i), Pos(n, e, j));
      ChainedOfLine(hash, b[..], e, r);
    }

    method RemoveAt(i: nat, ghost e: nat, ghost r: seq<Slot<K, V>>)
      requires Valid() && i < b.Length && b[i].Entry?
      requires Cut(b[..], e, r) && b[e].Empty? && Line(hash, r, e)
      modifies this`size, b
      ensures Valid() && Model() == old(Model()) - {old(b[i].key)}
      ensures size == old(size) - 1
    {
      ghost var s, p := b[..], Pos(b.Length, e, i);
      assert r[p] == s[i] && r[Pos(b.Length, e, e)] == s[e];
      ShiftStart(hash, r, e, p);
      CutUpdate(s, e, r, i, Empty);
      Remove(s, i);
      CountUpdate(s, i, Empty);
      b[i] := Empty;
      size := size - 1;
      assert b[..] == s[i := Empty];
      ShiftBack(i, e, r[p := Empty]);
    }

    method Delete(key: K)
      requires Valid()
      modifies this, b
      ensures Valid() && b == old(b)
      ensures Model() == old(Model()) - {key}
      ensures size == old(size) - if key in old(Model()) then 1 else 0
    {
      ghost var e, r := CutOpen(hash, b[..]);
      var i := Find(hash, b, key, e, r);
      if b[i].Entry? {
        RemoveAt(i, e, r);
      }
    }
  }
}
