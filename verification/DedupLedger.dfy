/**
 The duplicate-suppression ledger itself (src/cluster/dedup.c): a fixed table of
 streams, each with its frontier and sorted gaps, changed in place by scans, a binary
 search and the absorbing walk.  Every operation is tied to the per-stream functions of
 DedupSlot and leaves every other stream alone.
 */
module DedupLedger {
  import opened DedupSlot

  /** A table entry; stream 0 marks a free one.  The operations do not refuse stream 0: it is kept
      in the first free entry, until another stream takes that entry. */
  datatype Entry = Entry(stream: nat, slot: Slot)

  const FREE := Entry(0, EMPTY)

  predicate Has(es: seq<Entry>, stream: nat) {
    es != [] && (es[0].stream == stream || Has(es[1..], stream))
  }

  /** The state of a stream; a stream without an entry is one of which nothing is known. */
  function SlotOf(es: seq<Entry>, stream: nat): Slot {
    if es == [] then EMPTY
    else if es[0].stream == stream then es[0].slot
    else SlotOf(es[1..], stream)
  }

  ghost predicate EntryOk(e: Entry, maxGap: nat) {
    SlotOk(e.slot) && |e.slot.gaps| <= maxGap
  }

  ghost predicate Distinct(es: seq<Entry>) {
    forall i, j :: 0 <= i < j < |es| && es[i].stream == es[j].stream ==> es[i].stream == 0
  }

  lemma {:induction false} HasAt(es: seq<Entry>, stream: nat)
    ensures Has(es, stream) <==> exists i :: 0 <= i < |es| && es[i].stream == stream
    ensures !Has(es, stream) ==> SlotOf(es, stream) == EMPTY
  {
    if es != [] {
      HasAt(es[1..], stream);
      assert forall i :: 1 <= i < |es| ==> es[i] == es[1..][i - 1];
      assert Has(es[1..], stream) ==> exists i :: 1 <= i < |es| && es[i].stream == stream by {
        if Has(es[1..], stream) {
          var i :| 0 <= i < |es[1..]| && es[1..][i].stream == stream;
          assert es[i + 1].stream == stream;
        }
      }
    }
  }

  /** `i` is the first entry of its stream, which is the one a scan finds. */
  ghost predicate First(es: seq<Entry>, i: nat) {
    i < |es| && forall k :: 0 <= k < i ==> es[k].stream != es[i].stream
  }

  lemma {:induction false} SlotAt(es: seq<Entry>, i: nat)
    requires First(es, i)
    ensures SlotOf(es, es[i].stream) == es[i].slot
  {
    if i > 0 {
      assert es[0].stream != es[i].stream;
      assert forall k :: 1 <= k < |es| ==> es[1..][k - 1] == es[k];
      SlotAt(es[1..], i - 1);
    }
  }

  /** A new stream in the first free entry: what was recorded for stream 0 there is gone. */
  lemma {:induction false} ZeroForgotten(es: seq<Entry>, i: nat, stream: nat)
    requires First(es, i) && es[i].stream == 0 && stream != 0
    ensures SlotOf(es[i := Entry(stream, EMPTY)], 0) == SlotOf(es[i + 1..], 0)
  {
    var fs := es[i := Entry(stream, EMPTY)];
    if i == 0 {
      assert fs[1..] == es[1..];
    } else {
      assert es[0].stream != es[i].stream;
      assert fs[1..] == es[1..][i - 1 := Entry(stream, EMPTY)] && es[1..][i..] == es[i + 1..];
      assert forall k :: 1 <= k < |es| ==> es[1..][k - 1] == es[k];
      ZeroForgotten(es[1..], i - 1, stream);
    }
  }

  /** Replacing an entry changes what it held and nothing else. */
  lemma {:induction false} SlotUpdate(es: seq<Entry>, i: nat, e: Entry, other: nat)
    requires i < |es| && es[i].stream in {0, e.stream} && other !in {0, e.stream}
    ensures SlotOf(es[i := e], other) == SlotOf(es, other) && Has(es[i := e], other) == Has(es, other)
  {
    if i == 0 {
      assert es[i := e][1..] == es[1..];
    } else {
      assert es[i := e][1..] == es[1..][i - 1 := e];
      SlotUpdate(es[1..], i - 1, e, other);
    }
  }

  lemma {:induction false} RankAt(g: seq<nat>, i: nat)
    requires Sorted(g) && i < |g|
    ensures Rank(g, g[i]) == i
  {
    if i > 0 {
      RankAt(g[1..], i - 1);
    }
  }

  /** Binary search of the sorted gaps; yields the insertion point when absent. */
  method GapFind(g: seq<nat>, q: nat) returns (found: bool, at: nat)
    requires Sorted(g)
    ensures found <==> q in g
    ensures at == Rank(g, q)
  {
    RankSplits(g, q);
    var lo: nat, hi: nat := 0, |g|;
    while lo < hi
      invariant lo <= Rank(g, q) <= hi <= |g|
      invariant forall i :: 0 <= i < |g| && g[i] == q ==> lo <= i < hi
    {
      var mid := lo + (hi - lo) / 2;
      if g[mid] == q {
        RankAt(g, mid);
        return true, mid;
      }
      if g[mid] < q { lo := mid + 1; } else { hi := mid; }
    }
    return false, lo;
  }

  /** The absorbing walk, then one move of what is left to the front. */
  method AbsorbRun(s: Slot) returns (t: Slot)
    ensures t == Absorb(s)
  {
    var i, f := 0, s.frontier;
    while i < |s.gaps| && s.gaps[i] == f + 1
      invariant 0 <= i <= |s.gaps|
      invariant Absorb(Slot(f, s.gaps[i..])) == Absorb(s)
    {
      assert s.gaps[i..][1..] == s.gaps[i + 1..];
      f, i := f + 1, i + 1;
    }
    return Slot(f, s.gaps[i..]);
  }

  /** How many gaps a frontier covers. */
  method Covered(g: seq<nat>, f: nat) returns (i: nat)
    requires Sorted(g)
    ensures i == Rank(g, f + 1)
  {
    RankSplits(g, f + 1);
    i := 0;
    while i < |g| && g[i] <= f
      invariant i <= Rank(g, f + 1)
    {
      i := i + 1;
    }
  }

  class Ledger {
    var streams: array<Entry>
    const maxGap: nat

    ghost predicate Valid()
      reads this, streams
    {
      && Distinct(streams[..])
      && forall i :: 0 <= i < streams.Length ==> EntryOk(streams[i], maxGap)
    }

    /** What the ledger holds about a stream. */
    ghost function State(stream: nat): Slot
      reads this, streams
    {
      SlotOf(streams[..], stream)
    }

    ghost predicate HasRoom(stream: nat)
      reads this, streams
    {
      Has(streams[..], stream) || Has(streams[..], 0)
    }

    constructor (maxStreams: nat, maxGap: nat)
      requires maxStreams > 0 && maxGap > 0
      ensures Valid() && fresh(streams) && streams.Length == maxStreams && this.maxGap == maxGap
      ensures forall st: nat :: State(st) == EMPTY
    {
      this.maxGap := maxGap;
      streams := new Entry[maxStreams](_ => FREE);
      new;
      SlotAt(streams[..], 0);
      forall st: nat ensures State(st) == EMPTY {
        HasAt(streams[..], st);
      }
    }

    /** The linear scan for a stream, or for a free entry. */
    method Find(stream: nat) returns (found: bool, i: nat)
      ensures found <==> Has(streams[..], stream)
      ensures found ==> First(streams[..], i) && streams[i].stream == stream
    {
      HasAt(streams[..], stream);
      i := 0;
      while i < streams.Length
        invariant i <= streams.Length
        invariant forall k :: 0 <= k < i ==> streams[k].stream != stream
      {
        if streams[i].stream == stream {
          assert streams[..][i].stream == stream;
          return true, i;
        }
        i := i + 1;
      }
      found := false;
    }

    /** Overwrite a free entry, or the entry of the same stream. */
    method Store(i: nat, e: Entry)
      requires Valid() && First(streams[..], i) && EntryOk(e, maxGap)
      requires streams[i].stream == e.stream || (streams[i].stream == 0 && !Has(streams[..], e.stream))
      modifies streams
      ensures Valid() && State(e.stream) == e.slot && streams[..] == old(streams[..])[i := e]
      ensures forall st: nat :: st !in {0, e.stream} ==>
                State(st) == old(State(st)) && Has(streams[..], st) == old(Has(streams[..], st))
    {
      ghost var was := streams[..];
      HasAt(was, e.stream);
      streams[i] := e;
      assert streams[..] == was[i := e];
      SlotAt(streams[..], i);
      forall st: nat | st !in {0, e.stream}
        ensures State(st) == SlotOf(was, st) && Has(streams[..], st) == Has(was, st)
      {
        SlotUpdate(was, i, e, st);
      }
    }

    /** The entry of the stream; a stream without one takes the first free entry, cleared. */
    method FindOrAdd(stream: nat) returns (ok: bool, i: nat)
      requires Valid()
      modifies streams
      ensures Valid() && ok == old(HasRoom(stream))
      ensures ok ==> First(streams[..], i) && streams[i] == Entry(stream, old(State(stream)))
      ensures !ok || old(Has(streams[..], stream)) ==> streams[..] == old(streams[..])
      ensures ok && !old(Has(streams[..], stream)) ==>
                First(old(streams[..]), i) && streams[..] == old(streams[..])[i := Entry(stream, EMPTY)]
      ensures forall st: nat :: st != 0 ==> State(st) == old(State(st))
      ensures forall st: nat :: st !in {0, stream} ==> Has(streams[..], st) == old(Has(streams[..], st))
    {
      ok, i := Find(stream);
      if ok {
        SlotAt(streams[..], i);
        return;
      }
      HasAt(streams[..], stream);
      ok, i := Find(0);
      if ok {
        Store(i, Entry(stream, EMPTY));
      }
    }

    /** Never a false yes, and never a false no. */
    method Seen(stream: nat, q: nat) returns (seen: bool)
      requires Valid()
      ensures seen <==> Knows(State(stream), q)
    {
      var found, i := Find(stream);
      if q == 0 || !found {
        HasAt(streams[..], stream);
        return false;
      }
      SlotAt(streams[..], i);
      if q <= streams[i].slot.frontier {
        return true;
      }
      var hit, _ := GapFind(streams[i].slot.gaps, q);
      return hit;
    }

    method RecordSeq(stream: nat, q: nat) returns (c: Code)
      requires Valid()
      modifies streams
      ensures Valid()
      ensures c == Inval <==> q == 0
      ensures c == NoMem <==> q != 0 && !old(HasRoom(stream))
      ensures c in {Inval, NoMem} ==> streams[..] == old(streams[..])
      ensures c !in {Inval, NoMem} ==> (State(stream), c) == Record(old(State(stream)), q, maxGap)
      ensures forall st: nat :: st !in {0, stream} ==> State(st) == old(State(st))
    {
      if q == 0 {
        return Inval;
      }
      var ok, i := FindOrAdd(stream);
      if !ok {
        return NoMem;
      }
      var s := streams[i].slot;
      RecordMeans(s, q, maxGap);
      if q <= s.frontier {
        return Exists;
      }
      var hit, at := GapFind(s.gaps, q);
      if hit {
        return Exists;
      }
      if q == s.frontier + 1 {
        var t := AbsorbRun(Slot(q, s.gaps));
        Store(i, Entry(stream, t));
        return Ok;
      }
      if |s.gaps| >= maxGap {
        return Full;
      }
      Store(i, Entry(stream, Slot(s.frontier, s.gaps[..at] + [q] + s.gaps[at..])));
      return Ok;
    }

    /** With no entry and none free a number is refused and then not seen, however often it comes. */
    method RetryUnseen(stream: nat, q: nat) returns (c: Code, seen: bool)
      requires Valid() && !HasRoom(stream) && q > 0
      modifies streams
      ensures Valid() && !HasRoom(stream) && c == NoMem && !seen
    {
      HasAt(streams[..], stream);
      c := RecordSeq(stream, q);
      HasAt(streams[..], stream);
      seen := Seen(stream, q);
    }

    method SetFrontier(stream: nat, f: nat) returns (c: Code)
      requires Valid()
      modifies streams
      ensures Valid() && c == (if old(HasRoom(stream)) then Ok else NoMem)
      ensures State(stream) == if c == Ok then Advance(old(State(stream)), f) else old(State(stream))
      ensures forall st: nat :: st !in {0, stream} ==> State(st) == old(State(st))
    {
      var ok, i := FindOrAdd(stream);
      if !ok {
        return NoMem;
      }
      var s := streams[i].slot;
      AdvanceMeans(s, f);
      if f > s.frontier {
        var k := Covered(s.gaps, f);
        var t := AbsorbRun(Slot(f, s.gaps[k..]));
        Store(i, Entry(stream, t));
      }
      return Ok;
    }

    method AdvanceBase(stream: nat, base: nat) returns (c: Code)
      requires Valid()
      modifies streams
      ensures Valid() && c == (if base <= 1 || old(HasRoom(stream)) then Ok else NoMem)
      ensures State(stream) == if c == Ok && base > 1 then Advance(old(State(stream)), base - 1) else old(State(stream))
      ensures forall st: nat :: st !in {0, stream} ==> State(st) == old(State(st))
    {
      if base <= 1 {
        return Ok;
      }
      c := SetFrontier(stream, base - 1);
    }
  }

  /** A ledger that knows nothing, or none when it would have no streams or no window. */
  method Open(maxStreams: nat, maxGap: nat) returns (l: Ledger?)
    ensures l == null <==> maxStreams == 0 || maxGap == 0
    ensures l != null ==> fresh(l) && fresh(l.streams) && l.Valid() && l.maxGap == maxGap
                          && l.streams.Length == maxStreams && forall st: nat :: l.State(st) == EMPTY
  {
    if maxStreams == 0 || maxGap == 0 {
      return null;
    }
    l := new Ledger(maxStreams, maxGap);
  }
}
