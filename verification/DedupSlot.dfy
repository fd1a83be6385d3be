/**
 One stream of the duplicate-suppression ledger (src/cluster/dedup.h and dedup.c):
 a frontier below which everything is applied, and the sorted sequence numbers
 applied above it.  What the pair means is the set of numbers it knows; every
 operation is characterised by what it does to that set.
 */
module DedupSlot {

  datatype Slot = Slot(frontier: nat, gaps: seq<nat>)

  datatype Code = Ok | Exists | Full | Inval | NoMem

  const EMPTY := Slot(0, [])

  ghost predicate Sorted(g: seq<nat>) {
    forall i, j :: 0 <= i < j < |g| ==> g[i] < g[j]
  }

  /** The gaps are sorted and leave at least one hole above the frontier. */
  ghost predicate SlotOk(s: Slot) {
    Sorted(s.gaps) && forall i :: 0 <= i < |s.gaps| ==> s.frontier + 1 < s.gaps[i]
  }

  /** The sequence number is known to be applied (`tsdb_dedup_seen`). */
  predicate Knows(s: Slot, q: nat) {
    0 < q && (q <= s.frontier || q in s.gaps)
  }

  /** How many gaps lie below `q`: where a binary search for `q` ends. */
  function Rank(g: seq<nat>, q: nat): (k: nat)
    ensures k <= |g|
  {
    if g == [] || g[0] >= q then 0 else 1 + Rank(g[1..], q)
  }

  lemma {:induction false} RankSplits(g: seq<nat>, q: nat)
    requires Sorted(g)
    ensures forall i :: 0 <= i < |g| ==> (g[i] < q <==> i < Rank(g, q))
  {
    if g != [] && g[0] < q {
      RankSplits(g[1..], q);
      assert forall i :: 1 <= i < |g| ==> g[i] == g[1..][i - 1];
    }
  }

  /** Swallow the run of gaps that continues the frontier. */
  function Absorb(s: Slot): Slot
    decreases |s.gaps|
  {
    if s.gaps != [] && s.gaps[0] == s.frontier + 1 then Absorb(Slot(s.frontier + 1, s.gaps[1..])) else s
  }

  /** `tsdb_dedup_record` within a stream, for a sequence number other than 0. */
  function Record(s: Slot, q: nat, maxGap: nat): (Slot, Code) {
    if Knows(s, q) then (s, Exists)
    else if q == s.frontier + 1 then (Absorb(Slot(q, s.gaps)), Ok)
    else if |s.gaps| >= maxGap then (s, Full)
    else var k := Rank(s.gaps, q); (Slot(s.frontier, s.gaps[..k] + [q] + s.gaps[k..]), Ok)
  }

  /** `tsdb_dedup_set_frontier` within a stream: forward only. */
  function Advance(s: Slot, f: nat): Slot {
    if f <= s.frontier then s else Absorb(Slot(f, s.gaps[Rank(s.gaps, f + 1)..]))
  }

  // ---------------------------------------------------------------------
  // What the operations do to the known numbers

  /** What holds while the frontier may touch the first gap. */
  ghost predicate AlmostOk(s: Slot) {
    Sorted(s.gaps) && forall i :: 0 <= i < |s.gaps| ==> s.frontier < s.gaps[i]
  }

  lemma {:induction false} AbsorbMeans(s: Slot)
    requires AlmostOk(s)
    ensures SlotOk(Absorb(s)) && s.frontier <= Absorb(s).frontier && |Absorb(s).gaps| <= |s.gaps|
    ensures forall q :: Knows(Absorb(s), q) <==> Knows(s, q)
    decreases |s.gaps|
  {
    if s.gaps != [] && s.gaps[0] == s.frontier + 1 {
      var t := Slot(s.frontier + 1, s.gaps[1..]);
      AbsorbMeans(t);
      forall q ensures Knows(t, q) <==> Knows(s, q) {
        assert s.gaps == [s.gaps[0]] + s.gaps[1..];
      }
    }
  }

  lemma InsertKeepsSorted(g: seq<nat>, k: nat, q: nat)
    requires Sorted(g) && k <= |g| && q !in g && forall i :: 0 <= i < |g| ==> (g[i] < q <==> i < k)
    ensures Sorted(g[..k] + [q] + g[k..])
    ensures forall x :: x in g[..k] + [q] + g[k..] <==> x in g || x == q
  {
    var t := g[..k] + [q] + g[k..];
    assert g == g[..k] + g[k..];
    forall i, j | 0 <= i < j < |t| ensures t[i] < t[j] {
      var a, b := if i <= k then i else i - 1, if j <= k then j else j - 1;
      assert i != k ==> t[i] == g[a];
      assert j != k ==> t[j] == g[b];
    }
  }

  /** Recording adds exactly the new number, or nothing; EXISTS is returned exactly for known
      numbers; FULL exactly for an unknown number out of order when the window is full. */
  lemma RecordMeans(s: Slot, q: nat, maxGap: nat)
    requires SlotOk(s) && 0 < q && |s.gaps| <= maxGap
    ensures var (t, c) := Record(s, q, maxGap);
            && SlotOk(t) && |t.gaps| <= maxGap && s.frontier <= t.frontier
            && (c == Exists <==> Knows(s, q))
            && (c == Full <==> !Knows(s, q) && q > s.frontier + 1 && |s.gaps| == maxGap)
            && c in {Ok, Exists, Full}
            && (forall x :: Knows(t, x) <==> Knows(s, x) || (c == Ok && x == q))
  {
    if Knows(s, q) || (q != s.frontier + 1 && |s.gaps| >= maxGap) {
    } else if q == s.frontier + 1 {
      AbsorbMeans(Slot(q, s.gaps));
    } else {
      var k := Rank(s.gaps, q);
      RankSplits(s.gaps, q);
      InsertKeepsSorted(s.gaps, k, q);
    }
  }

  /** Advancing adds exactly the numbers up to the new frontier. */
  lemma AdvanceMeans(s: Slot, f: nat)
    requires SlotOk(s)
    ensures SlotOk(Advance(s, f)) && s.frontier <= Advance(s, f).frontier && f <= Advance(s, f).frontier
    ensures |Advance(s, f).gaps| <= |s.gaps|
    ensures forall x: nat :: Knows(Advance(s, f), x) <==> Knows(s, x) || 0 < x <= f
  {
    if f > s.frontier {
      var k := Rank(s.gaps, f + 1);
      RankSplits(s.gaps, f + 1);
      var t := Slot(f, s.gaps[k..]);
      AbsorbMeans(t);
      forall x: nat ensures Knows(t, x) <==> Knows(s, x) || 0 < x <= f {
        if x in s.gaps && x > f {
          var i :| 0 <= i < |s.gaps| && s.gaps[i] == x;
          assert s.gaps[k..][i - k] == x;
        }
      }
    }
  }

  lemma {:induction false} SortedDetermined(a: seq<nat>, b: seq<nat>)
    requires Sorted(a) && Sorted(b) && forall x :: x in a <==> x in b
    ensures a == b
  {
    assert |b| > 0 ==> b[0] in b;
    if a != [] {
      assert a[0] in a && a[0] in b && b[0] in b && b[0] in a;
      assert a[0] == b[0];
      assert a == [a[0]] + a[1..] && b == [b[0]] + b[1..];
      assert forall x :: x in a[1..] <==> x in a && x != a[0];
      assert forall x :: x in b[1..] <==> x in b && x != b[0];
      SortedDetermined(a[1..], b[1..]);
    }
  }

  /** The known numbers determine the frontier and the gaps. */
  lemma KnownDetermines(s: Slot, t: Slot)
    requires SlotOk(s) && SlotOk(t) && forall q :: Knows(s, q) <==> Knows(t, q)
    ensures s == t
  {
    assert !Knows(s, s.frontier + 1) && !Knows(t, t.frontier + 1);
    assert s.frontier == t.frontier;
    forall x ensures x in s.gaps <==> x in t.gaps {
      assert Knows(s, x) <==> Knows(t, x);
    }
    SortedDetermined(s.gaps, t.gaps);
  }

  /** The frontier is the length of the longest unbroken run of known numbers from 1. */
  lemma FrontierIsLongestRun(s: Slot, n: nat)
    requires SlotOk(s)
    ensures (forall q :: 1 <= q <= n ==> Knows(s, q)) <==> n <= s.frontier
  {
    if n > s.frontier {
      assert !Knows(s, s.frontier + 1);
    }
  }
}
