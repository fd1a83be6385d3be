/**
 Rewriting a v1 catalog log from its bucket table (`compact_*` in src/catalog/catalog.c and
 src/catalog/stable_catalog.c): one create per live entry, in bucket order, then the
 tombstones that are still needed.
 */
module BucketLog {
  import opened Basics
  import opened NameLog
  import opened Probing
  import T = V1Table

  /** The first `i` buckets, listed. */
  ghost predicate Listed<V>(s: seq<Slot<Name, V>>, i: nat, order: seq<Name>, live: seq<Rec<V>>)
    requires i <= |s|
  {
    && Lists(Contents(Mask(s, i)), order)
    && (forall n :: n in order ==> n in Contents(s)) && live == Puts(Contents(s), order)
  }

  lemma ListedNone<V>(s: seq<Slot<Name, V>>)
    ensures Listed(s, 0, [], [])
  {
  }

  lemma ListedStep<V>(s: seq<Slot<Name, V>>, i: nat, order: seq<Name>, live: seq<Rec<V>>)
    requires Distinct(s) && i < |s| && Listed(s, i, order, live)
    ensures if s[i].Entry? then Listed(s, i + 1, order + [s[i].key], live + [Put(s[i].key, s[i].val)])
            else Listed(s, i + 1, order, live)
  {
    MaskStep(s, i);
    if s[i].Entry? {
      ProbeHit(s, i);
      hide Contents, Mask, Distinct;
      assert (order + [s[i].key])[..|order|] == order;
    }
  }

  lemma ListedAll<V>(s: seq<Slot<Name, V>>, order: seq<Name>, live: seq<Rec<V>>)
    requires Listed(s, |s|, order, live)
    ensures Lists(Contents(s), order) && live == Puts(Contents(s), order)
  {
    assert Mask(s, |s|) == s;
  }

  /** The live entries as log records, in bucket order. */
  method ListBuckets<V>(b: array<Slot<Name, V>>) returns (live: seq<Rec<V>>, ghost order: seq<Name>)
    requires Distinct(b[..])
    ensures Lists(Contents(b[..]), order) && live == Puts(Contents(b[..]), order)
  {
    hide Listed, Lists, Puts, Contents, Mask, Distinct;
    live, order := [], [];
    ListedNone(b[..]);
    for i := 0 to b.Length
      invariant Listed(b[..], i, order, live)
    {
      ListedStep(b[..], i, order, live);
      if b[i].Entry? {
        live, order := live + [Put(b[i].key, b[i].val)], order + [b[i].key];
      }
    }
    ListedAll(b[..], order, live);
  }

  /** Append the tombstones of the names that are not in the table. */
  method KeepTombstones<V>(t: T.V1Table<Name, V>, log: seq<Rec<V>>, live: seq<Rec<V>>) returns (newLog: seq<Rec<V>>)
    requires t.Valid()
    ensures newLog == live + KeepDrops(log, t.Model())
  {
    newLog := live;
    for k := 0 to |log|
      invariant newLog == live + KeepDrops(log[..k], t.Model())
    {
      assert log[..k + 1][..k] == log[..k];
      var r := log[k];
      if r.Drop? {
        var v := t.Get(r.name);
        if v.None? {
          newLog := newLog + [r];
        }
      }
    }
    assert log[..|log|] == log;
  }

  /** The rewritten log keeps what the old one kept of the live map and of the names dropped. */
  method Compact<V>(t: T.V1Table<Name, V>, log: seq<Rec<V>>, ghost dropped: set<Name>) returns (newLog: seq<Rec<V>>)
    requires t.Valid() && LogOk(t.Model(), log, dropped)
    ensures LogOk(t.Model(), newLog, dropped)
    ensures forall n :: n !in t.Model() ==> (HasDrop(newLog, n) <==> HasDrop(log, n))
    ensures exists order :: Lists(t.Model(), order) && newLog == Compacted(t.Model(), order, log)
  {
    var live, order := ListBuckets(t.b);
    newLog := KeepTombstones(t, log, live);
    CompactKeepsLogOk(t.Model(), log, dropped, order);
    CompactionKeepsStateAndEvidence(t.Model(), order, log);
  }
}
