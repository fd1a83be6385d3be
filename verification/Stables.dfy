/**
 Stables (super tables) and child tables of the v1 catalog
 (src/catalog/stable_catalog.c): two bucket tables and two logs.  The logs are
 replayed one after the other, stables first, although execution interleaved
 their records; dropping a stable deletes its children from the child table
 while scanning that same table.
 */
module Stables {
  import opened Basics
  import opened BucketLog
  import opened NameLog
  import opened Probing
  import T = V1Table

  const MAX_COLS := 64
  const MAX_TAG_COLS := 16
  const TYPE_TIMESTAMP := 1

  datatype Status = Ok | Inval | Exists | NotFound | Schema

  datatype Column = Column(name: Name, typ: int)

  datatype Stable = Stable(name: Name, cols: seq<Column>, tsCol: int, tagCols: seq<Column>, createdAt: int,
                           database: Name, group: Name)

  datatype Tag = Tag(typ: int, word: int, text: Name)

  datatype Child = Child(name: Name, stable: Name, tags: seq<Tag>, createdAt: int, database: Name, group: Name)

  /** The checks of `tsdb_stable_create` that do not depend on the catalog. */
  function CheckStable(s: Stable): Status {
    if s.name.text == "" || |s.cols| == 0 || |s.cols| > MAX_COLS || |s.tagCols| > MAX_TAG_COLS
       || s.tsCol < 0 || s.tsCol >= |s.cols| then Inval
    else if s.cols[s.tsCol].typ != TYPE_TIMESTAMP then Schema
    else Ok
  }

  function StampedStable(s: Stable, now: int): Stable {
    s.(createdAt := if s.createdAt == 0 then now else s.createdAt)
  }

  function StampedChild(c: Child, now: int): Child {
    c.(createdAt := if c.createdAt == 0 then now else c.createdAt)
  }

  // ---------------------------------------------------------------------
  // Replay of the child log under a fixed set of live stables

  /** `tsdb_catalog_replay_children`: a child whose stable is not live is not rebuilt. */
  function ReplayUnder(live: map<Name, Stable>, log: seq<Rec<Child>>): (m: map<Name, Child>) {
    if log == [] then map[]
    else
      var m, r := ReplayUnder(live, log[..|log| - 1]), log[|log| - 1];
      if r.Put? && r.val.stable !in live then m else Apply(m, r)
  }

  lemma ReplayUnderSnoc(live: map<Name, Stable>, log: seq<Rec<Child>>, r: Rec<Child>)
    ensures ReplayUnder(live, log + [r])
         == if r.Put? && r.val.stable !in live then ReplayUnder(live, log) else Apply(ReplayUnder(live, log), r)
  {
    assert (log + [r])[..|log|] == log;
  }

  /** Whatever the two logs contain, replay rebuilds no child of a stable that is not live. */
  lemma {:induction false} ReplayHasNoOrphans(live: map<Name, Stable>, log: seq<Rec<Child>>)
    ensures forall n :: n in ReplayUnder(live, log) ==> ReplayUnder(live, log)[n].stable in live
  {
    if log != [] {
      ReplayHasNoOrphans(live, log[..|log| - 1]);
    }
  }

  /** The records of the child log without the creates of children whose stable is not live. */
  function Rooted(live: map<Name, Stable>, log: seq<Rec<Child>>): seq<Rec<Child>> {
    if log == [] then []
    else
      var rest, r := Rooted(live, log[..|log| - 1]), log[|log| - 1];
      if r.Put? && r.val.stable !in live then rest else rest + [r]
  }

  /** Replaying any log under the live stables is replaying the rest of its records. */
  lemma {:induction false} ReplayUnderIsRooted(live: map<Name, Stable>, log: seq<Rec<Child>>)
    ensures ReplayUnder(live, log) == Replay(Rooted(live, log))
  {
    if log != [] {
      var init, r := log[..|log| - 1], log[|log| - 1];
      ReplayUnderIsRooted(live, init);
      ReplaySnoc(Rooted(live, init), r);
    }
  }

  /** For a log that the catalog wrote itself, filtering while replaying is filtering afterwards. */
  lemma {:induction false} ReplayUnderFilters(live: map<Name, Stable>, log: seq<Rec<Child>>)
    requires Alternating(log)
    ensures ReplayUnder(live, log) == map n | n in Replay(log) && Replay(log)[n].stable in live :: Replay(log)[n]
  {
    if log != [] {
      ReplayUnderFilters(live, log[..|log| - 1]);
    }
  }

  // ---------------------------------------------------------------------
  // The catalog

  /** The children that survive dropping stable `name`. */
  ghost function Others(m: map<Name, Child>, name: Name): map<Name, Child> {
    map n | n in m && m[n].stable != name :: m[n]
  }

  ghost predicate Named(m: map<Name, Stable>) {
    forall n :: n in m ==> m[n].name == n
  }

  /** Every child is filed under its own name and its stable is live. */
  ghost predicate NoOrphans(live: map<Name, Stable>, m: map<Name, Child>) {
    forall n :: n in m ==> m[n].name == n && m[n].stable in live
  }

  /** Replaying the two logs one after the other gives what the interleaved execution held. */
  lemma ReopenRestores(live: map<Name, Stable>, m: map<Name, Child>, sl: seq<Rec<Stable>>, cl: seq<Rec<Child>>)
    requires Replay(sl) == live && Replay(cl) == m && Alternating(cl) && NoOrphans(live, m)
    ensures ReplayUnder(Replay(sl), cl) == m
  {
    ReplayUnderFilters(live, cl);
  }

  /** How far the cascade has come: the children `ks` of `name` are gone from `m0`, each logged once. */
  ghost predicate Progress(m0: map<Name, Child>, m: map<Name, Child>, log0: seq<Rec<Child>>, log: seq<Rec<Child>>,
                           ks: seq<Name>, name: Name) {
    && m == m0 - Names(ks)
    && (forall k :: k in Names(ks) ==> k in m0 && m0[k].stable == name)
    && log == log0 + Drops(ks) && |Names(ks)| == |ks|
  }

  lemma ProgressStep(m0: map<Name, Child>, m: map<Name, Child>, log0: seq<Rec<Child>>, log: seq<Rec<Child>>,
                     ks: seq<Name>, name: Name, k: Name)
    requires Progress(m0, m, log0, log, ks, name) && k in m && m[k].stable == name
    ensures Progress(m0, m - {k}, log0, log + [Drop(k)], ks + [k], name)
  {
    DropsSnoc(log0, ks, k);
  }

  lemma ProgressStart(m: map<Name, Child>, log: seq<Rec<Child>>, name: Name)
    ensures Progress(m, m, log, log, [], name)
  {
  }

  lemma ProgressNamed(m0: map<Name, Child>, m: map<Name, Child>, log0: seq<Rec<Child>>, log: seq<Rec<Child>>,
                      ks: seq<Name>, name: Name, k: Name)
    requires Progress(m0, m, log0, log, ks, name) && k in m && forall n :: n in m0 ==> m0[n].name == n
    ensures m[k].name == k
  {
  }

  lemma ProgressDone(m0: map<Name, Child>, m: map<Name, Child>, log0: seq<Rec<Child>>, log: seq<Rec<Child>>,
                     ks: seq<Name>, name: Name)
    requires Progress(m0, m, log0, log, ks, name) && forall n :: n in m ==> m[n].stable != name
    ensures m == Others(m0, name) && m == m0 - Names(ks) && log == log0 + Drops(ks) && |Names(ks)| == |ks|
  {
  }

  /** No child of `name` in these slots. */
  ghost predicate Cleared(s: seq<Slot<Name, Child>>, name: Name) {
    forall q :: 0 <= q < |s| && s[q].Entry? ==> s[q].val.stable != name
  }

  lemma ClearedNone(s: seq<Slot<Name, Child>>, name: Name)
    ensures Cleared(s[..0], name)
  {
  }

  lemma ClearedNext(s: seq<Slot<Name, Child>>, i: nat, name: Name)
    requires i < |s| && Cleared(s[..i], name) && (s[i].Entry? ==> s[i].val.stable != name)
    ensures Cleared(s[..i + 1], name)
  {
    assert s[..i + 1] == s[..i] + [s[i]];
  }

  lemma ClearedContents(s: seq<Slot<Name, Child>>, name: Name)
    requires Cleared(s, name) && Distinct(s)
    ensures forall n :: n in Contents(s) ==> Contents(s)[n].stable != name
  {
  }

  /** Deleting the entry at the scan index leaves the slots already scanned clear. */
  lemma ClearedStays(s0: seq<Slot<Name, Child>>, s: seq<Slot<Name, Child>>, i: nat, at: nat, name: Name)
    requires Distinct(s0) && i < |s0| && at < |s0| == |s|
    requires s0[i].Entry? && s0[at].Entry? && s0[at].key == s0[i].key
    requires Cleared(s0[..i], name) && T.NothingSinks(s0, s, at)
    ensures Cleared(s[..i], name)
  {
    assert at == i;
    forall q | 0 <= q < i && s[q].Entry? ensures s[q].val.stable != name {
      assert s[q] in s0[..i];
    }
  }

  /** The two logs are as a catalog leaves them after any of its calls. */
  ghost predicate Written(sl: seq<Rec<Stable>>, cl: seq<Rec<Child>>, ds: set<Name>, dc: set<Name>) {
    && LogOk(Replay(sl), sl, ds) && LogOk(Replay(cl), cl, dc)
    && Named(Replay(sl)) && NoOrphans(Replay(sl), Replay(cl))
  }

  /** A crash while `name` is dropped, after its own tombstone and those of the children `ks`:
      the reopened catalog shows no child of it, however many tombstones are missing. */
  lemma CrashedDrop(sl: seq<Rec<Stable>>, cl: seq<Rec<Child>>, ds: set<Name>, dc: set<Name>, name: Name, ks: seq<Name>)
    requires Written(sl, cl, ds, dc)
    requires forall k :: k in Names(ks) ==> k in Replay(cl) && Replay(cl)[k].stable == name
    ensures ReplayUnder(Replay(sl + [Drop(name)]), cl + Drops(ks)) == Others(Replay(cl), name)
  {
    ReplaySnoc(sl, Drop(name));
    DropsKeepLogOk(Replay(cl), cl, dc, ks);
    ReplayUnderFilters(Replay(sl) - {name}, cl + Drops(ks));
  }

  /** But a stable created again under that name brings back, at the next opening, exactly the
      children whose tombstones are missing; none comes back if and only if none is missing. */
  lemma CrashedDropReturns(sl: seq<Rec<Stable>>, cl: seq<Rec<Child>>, ds: set<Name>, dc: set<Name>, name: Name,
                           ks: seq<Name>, s: Stable)
    requires Written(sl, cl, ds, dc)
    requires forall k :: k in Names(ks) ==> k in Replay(cl) && Replay(cl)[k].stable == name
    ensures ReplayUnder(Replay(sl + [Drop(name)] + [Put(name, s)]), cl + Drops(ks)) == Replay(cl) - Names(ks)
    ensures Replay(cl) - Names(ks) == Others(Replay(cl), name)
            <==> forall n :: n in Replay(cl) && Replay(cl)[n].stable == name ==> n in Names(ks)
  {
    var m := Replay(cl);
    ReplaySnoc(sl, Drop(name));
    ReplaySnoc(sl + [Drop(name)], Put(name, s));
    DropsKeepLogOk(m, cl, dc, ks);
    ReplayUnderFilters(Replay(sl + [Drop(name)] + [Put(name, s)]), cl + Drops(ks));
    if m - Names(ks) == Others(m, name) {
      forall n | n in m && m[n].stable == name ensures n in Names(ks) {
        assert n !in Others(m, name);
      }
    }
  }

  /** Unless the reopened catalog compacts its child log first: the rewritten log has no line of the
      children that were lost, and none comes back. */
  lemma CompactedDropStays(sl: seq<Rec<Stable>>, cl: seq<Rec<Child>>, ds: set<Name>, dc: set<Name>, name: Name,
                           ks: seq<Name>, s: Stable, order: seq<Name>)
    requires Written(sl, cl, ds, dc) && Lists(Others(Replay(cl), name), order)
    ensures ReplayUnder(Replay(sl + [Drop(name)] + [Put(name, s)]),
                        Compacted(Others(Replay(cl), name), order, cl + Drops(ks)))
         == Others(Replay(cl), name)
  {
    var left := Others(Replay(cl), name);
    ReplaySnoc(sl, Drop(name));
    ReplaySnoc(sl + [Drop(name)], Put(name, s));
    PutsReplay(left, order);
    assert Replay(Puts(left, order)) == left;
    KeptDropsAreNoOps(Puts(left, order), cl + Drops(ks), left);
    ReplayUnderFilters(Replay(sl + [Drop(name)] + [Put(name, s)]), Compacted(left, order, cl + Drops(ks)));
  }

  class Catalog {
    const stables: T.V1Table<Name, Stable>
    const children: T.V1Table<Name, Child>
    var stableLog: seq<Rec<Stable>>
    var childLog: seq<Rec<Child>>
    // Names ever dropped, for the promise about tombstones.
    ghost var droppedStables: set<Name>
    ghost var droppedChildren: set<Name>

    ghost predicate Valid()
      reads this, stables, stables.b, children, children.b
    {
      && stables.Valid() && children.Valid()
      && LogOk(stables.Model(), stableLog, droppedStables)
      && LogOk(children.Model(), childLog, droppedChildren)
      && Named(stables.Model()) && NoOrphans(stables.Model(), children.Model())
    }

    /** Open a catalog on two logs: replay all of the first, then all of the second.  On logs that
        a catalog wrote (`ds` and `dc` are the names it dropped), what is opened is that catalog. */
    constructor (stableHash: (Name, nat) -> nat, childHash: (Name, nat) -> nat,
                 sl: seq<Rec<Stable>>, cl: seq<Rec<Child>>, ghost ds: set<Name>, ghost dc: set<Name>)
      ensures stables.Valid() && fresh(stables) && fresh(stables.b)
      ensures children.Valid() && fresh(children) && fresh(children.b)
      ensures stableLog == sl && childLog == cl && droppedStables == ds && droppedChildren == dc
      ensures stables.Model() == Replay(sl)
      ensures children.Model() == ReplayUnder(Replay(sl), cl)
      ensures Written(sl, cl, ds, dc) ==> Valid() && children.Model() == Replay(cl)
    {
      stables := new T.V1Table<Name, Stable>(stableHash);
      children := new T.V1Table<Name, Child>(childHash);
      stableLog, childLog := sl, cl;
      droppedStables, droppedChildren := ds, dc;
      new;
      ReplayStableLog();
      ReplayChildLog();
      if Written(sl, cl, ds, dc) {
        ReopenRestores(Replay(sl), Replay(cl), sl, cl);
      }
    }

    method ReplayStableLog()
      requires stables.Valid() && stables.Model() == map[]
      modifies stables, stables.b
      ensures stables.Valid() && stables.Model() == Replay(stableLog)
      ensures stables.b == old(stables.b) || fresh(stables.b)
    {
      for i := 0 to |stableLog|
        invariant stables.Valid() && (stables.b == old(stables.b) || fresh(stables.b))
        invariant stables.Model() == Replay(stableLog[..i])
      {
        ReplaySnoc(stableLog[..i], stableLog[i]);
        assert stableLog[..i + 1] == stableLog[..i] + [stableLog[i]];
        match stableLog[i] {
          case Put(n, v) => stables.Put(n, v);
          case Drop(n) => var _, _ := stables.Delete(n);
        }
      }
      assert stableLog[..|stableLog|] == stableLog;
    }

    method ReplayChildLog()
      requires stables.Valid() && children.Valid() && children.Model() == map[]
      modifies children, children.b
      ensures children.Valid() && children.Model() == ReplayUnder(stables.Model(), childLog)
      ensures children.b == old(children.b) || fresh(children.b)
    {
      ghost var live := stables.Model();
      for i := 0 to |childLog|
        invariant children.Valid() && (children.b == old(children.b) || fresh(children.b))
        invariant children.Model() == ReplayUnder(live, childLog[..i])
      {
        ReplayUnderSnoc(live, childLog[..i], childLog[i]);
        assert childLog[..i + 1] == childLog[..i] + [childLog[i]];
        match childLog[i] {
          case Put(n, v) =>
            var st := stables.Get(v.stable);
            if st.Some? {
              children.Put(n, v);
            }
          case Drop(n) => var _, _ := children.Delete(n);
        }
      }
      assert childLog[..|childLog|] == childLog;
    }

    method CreateStable(s: Stable, now: int) returns (rc: Status)
      requires Valid()
      modifies this, stables, stables.b
      ensures Valid() && (stables.b == old(stables.b) || fresh(stables.b))
      ensures rc == if s.name.text == "" || !(1 <= |s.cols| <= 64) || |s.tagCols| > 16 || !(0 <= s.tsCol < |s.cols|)
                    then Inval
                    else if s.cols[s.tsCol].typ != TYPE_TIMESTAMP then Schema
                    else if s.name in old(stables.Model()) then Exists else Ok
      ensures children.Model() == old(children.Model()) && childLog == old(childLog)
      ensures rc != Ok ==> stables.Model() == old(stables.Model()) && stableLog == old(stableLog)
      ensures rc == Ok ==>
                var dup := s.(createdAt := if s.createdAt != 0 then s.createdAt else now);
                && stables.Model() == old(stables.Model())[s.name := dup]
                && stableLog == old(stableLog) + [Put(s.name, dup)]
    {
      hide LogOk, Table, Contents, Count;
      rc := CheckStable(s);
      if rc != Ok {
        return;
      }
      var found := stables.Get(s.name);
      if found.Some? {
        return Exists;
      }
      var dup := StampedStable(s, now);
      PutKeepsLogOk(stables.Model(), stableLog, droppedStables, dup.name, dup);
      stables.Put(dup.name, dup);
      stableLog := stableLog + [Put(dup.name, dup)];
    }

    method CreateChild(c: Child, now: int) returns (rc: Status)
      requires Valid()
      modifies this, children, children.b
      ensures Valid() && (children.b == old(children.b) || fresh(children.b))
      ensures rc == if c.name.text == "" || c.stable.text == "" then Inval
                    else if c.stable !in old(stables.Model()) then NotFound
                    else if |c.tags| != |old(stables.Model())[c.stable].tagCols| then Schema
                    else if c.name in old(children.Model()) then Exists else Ok
      ensures stables.Model() == old(stables.Model()) && stableLog == old(stableLog)
      ensures rc != Ok ==> children.Model() == old(children.Model()) && childLog == old(childLog)
      ensures rc == Ok ==>
                var dup := c.(createdAt := if c.createdAt != 0 then c.createdAt else now);
                && children.Model() == old(children.Model())[c.name := dup]
                && childLog == old(childLog) + [Put(c.name, dup)]
    {
      hide LogOk, Table, Contents, Count;
      if c.name.text == "" || c.stable.text == "" {
        return Inval;
      }
      var st := stables.Get(c.stable);
      if st.None? {
        return NotFound;
      }
      if |c.tags| != |st.value.tagCols| {
        return Schema;
      }
      var found := children.Get(c.name);
      if found.Some? {
        return Exists;
      }
      var dup := StampedChild(c, now);
      PutKeepsLogOk(children.Model(), childLog, droppedChildren, dup.name, dup);
      children.Put(dup.name, dup);
      childLog := childLog + [Put(dup.name, dup)];
      rc := Ok;
    }

    method DropChild(name: Name) returns (rc: Status)
      requires Valid()
      modifies this, children, children.b
      ensures Valid() && children.b == old(children.b)
      ensures rc == if name in old(children.Model()) then Ok else NotFound
      ensures stables.Model() == old(stables.Model()) && stableLog == old(stableLog)
      ensures children.Model() == old(children.Model()) - {name}
      ensures childLog == old(childLog) + if rc == Ok then [Drop(name)] else []
    {
      hide LogOk, Table, Contents, Count;
      var ct := children.Get(name);
      if ct.None? {
        return NotFound;
      }
      DropKeepsLogOk(children.Model(), childLog, droppedChildren, name);
      var _, _ := children.Delete(name);
      childLog := childLog + [Drop(name)];
      droppedChildren := droppedChildren + {name};
      rc := Ok;
    }

    /** Delete the stable and log its tombstone. */
    method LogDropStable(name: Name)
      requires stables.Valid() && LogOk(stables.Model(), stableLog, droppedStables)
      modifies this`stableLog, this`droppedStables, stables, stables.b
      ensures stables.Valid() && stables.b == old(stables.b)
      ensures LogOk(stables.Model(), stableLog, droppedStables)
      ensures stables.Model() == old(stables.Model()) - {name} && stableLog == old(stableLog) + [Drop(name)]
    {
      DropKeepsLogOk(stables.Model(), stableLog, droppedStables, name);
      var _, _ := stables.Delete(name);
      stableLog := stableLog + [Drop(name)];
      droppedStables := droppedStables + {name};
    }

    /** Drop a stable only if it has no child, deciding and dropping in one step. */
    method DropIfChildless(name: Name) returns (rc: Status)
      requires Valid()
      modifies this, stables, stables.b
      ensures Valid() && stables.b == old(stables.b)
      ensures childLog == old(childLog) && children.Model() == old(children.Model())
      ensures rc == if name !in old(stables.Model()) then NotFound
                    else if exists n :: n in children.Model() && children.Model()[n].stable == name then Exists else Ok
      ensures stables.Model() == if rc == Ok then old(stables.Model()) - {name} else old(stables.Model())
      ensures stableLog == old(stableLog) + if rc == Ok then [Drop(name)] else []
    {
      var st := stables.Get(name);
      if st.None? {
        return NotFound;
      }
      var i := 0;
      while i < children.b.Length
        invariant 0 <= i <= children.b.Length && Cleared(children.b[..i], name)
      {
        if children.b[i].Entry? && children.b[i].val.stable == name {
          ProbeHit(children.b[..], i);
          return Exists;
        }
        i := i + 1;
      }
      assert children.b[..i] == children.b[..];
      ClearedContents(children.b[..], name);
      LogDropStable(name);
      rc := Ok;
    }

    /** Rewrite the child log: live children in bucket order, then the tombstones still needed. */
    method CompactChildren()
      requires Valid()
      modifies this`childLog
      ensures Valid()
      ensures forall n :: n !in children.Model() ==> (HasDrop(childLog, n) <==> HasDrop(old(childLog), n))
      ensures exists order :: Lists(children.Model(), order)
                              && childLog == Compacted(children.Model(), order, old(childLog))
    {
      childLog := Compact(children, childLog, droppedChildren);
    }

    /** The same for stables. */
    method CompactStables()
      requires Valid()
      modifies this`stableLog
      ensures Valid()
      ensures forall n :: n !in stables.Model() ==> (HasDrop(stableLog, n) <==> HasDrop(old(stableLog), n))
      ensures exists order :: Lists(stables.Model(), order)
                              && stableLog == Compacted(stables.Model(), order, old(stableLog))
    {
      stableLog := Compact(stables, stableLog, droppedStables);
    }

    lemma ClearedAll(i: nat, name: Name)
      requires children.Valid() && i == children.b.Length && Cleared(children.b[..i], name)
      ensures forall n :: n in children.Model() ==> children.Model()[n].stable != name
    {
      assert children.b[..i] == children.b[..];
      ClearedContents(children.b[..], name);
    }

    /** Delete the child in slot `i`; the slots already scanned stay clear. */
    method DeleteAt(i: nat, name: Name)
      requires children.Valid() && i < children.b.Length
      requires children.b[i].Entry? && children.b[i].key == children.b[i].val.name && Cleared(children.b[..i], name)
      modifies children, children.b
      ensures children.Valid() && children.b == old(children.b)
      ensures children.Model() == old(children.Model()) - {old(children.b[i].key)}
      ensures children.size == old(children.size) - 1 && Cleared(children.b[..i], name)
    {
      ghost var before := children.b[..];
      ProbeHit(before, i);
      var _, at := children.Delete(children.b[i].val.name);
      assert children.b[..][..i] == children.b[..i] && before[..i] == old(children.b[..i]);
      ClearedStays(before, children.b[..], i, at, name);
    }

    /** Delete the child of `name` in slot `i` and log it. */
    method Evict(i: nat, name: Name, ghost m0: map<Name, Child>, ghost log0: seq<Rec<Child>>, ghost ks: seq<Name>)
      returns (ghost ks': seq<Name>)
      requires children.Valid() && i < children.b.Length && Cleared(children.b[..i], name)
      requires children.b[i].Entry? && children.b[i].val.stable == name
      requires Progress(m0, children.Model(), log0, childLog, ks, name) && forall n :: n in m0 ==> m0[n].name == n
      modifies this`childLog, children, children.b
      ensures children.Valid() && children.b == old(children.b) && children.size == old(children.size) - 1
      ensures Cleared(children.b[..i], name) && Progress(m0, children.Model(), log0, childLog, ks', name)
    {
      ghost var m := children.Model();
      var k := children.b[i].key;
      ProbeHit(children.b[..], i);
      ProgressNamed(m0, m, log0, childLog, ks, name, k);
      ProgressStep(m0, m, log0, childLog, ks, name, k);
      hide Progress, Cleared, Table, Contents, Count;
      DeleteAt(i, name);
      childLog := childLog + [Drop(k)];
      ks' := ks + [k];
    }

    /** The cascade loop: after a deletion the same slot is read again, otherwise the scan moves on.
        Exactly the children of `name` go, and each is logged once. */
    method DropChildrenOf(name: Name) returns (ghost ks: seq<Name>)
      requires children.Valid()
      requires forall n :: n in children.Model() ==> children.Model()[n].name == n
      modifies this`childLog, children, children.b
      ensures children.Valid() && children.b == old(children.b)
      ensures children.Model() == Others(old(children.Model()), name)
      ensures children.Model() == old(children.Model()) - Names(ks)
      ensures childLog == old(childLog) + Drops(ks) && |Names(ks)| == |ks|
    {
      hide Progress, Others, Names, Drops, Cleared, Contents, Count, Table;
      ghost var m0, log0 := children.Model(), childLog;
      ks := [];
      ProgressStart(m0, log0, name);
      var i := 0;
      ClearedNone(children.b[..], name);
      while i < children.b.Length
        invariant 0 <= i <= children.b.Length && children.b == old(children.b) && children.Valid()
        invariant Progress(m0, children.Model(), log0, childLog, ks, name)
        invariant Cleared(children.b[..i], name)
        decreases children.size + (children.b.Length - i)
      {
        if children.b[i].Entry? && children.b[i].val.stable == name {
          ks := Evict(i, name, m0, log0, ks);
        } else {
          ClearedNext(children.b[..], i, name);
          i := i + 1;
        }
      }
      ClearedAll(i, name);
      ProgressDone(m0, children.Model(), log0, childLog, ks, name);
    }

    /** Drop a stable and, by scanning and deleting in the same table, all of its children. */
    method DropStable(name: Name) returns (rc: Status, ghost ks: seq<Name>)
      requires Valid()
      modifies this, stables, stables.b, children, children.b
      ensures Valid() && stables.b == old(stables.b) && children.b == old(children.b)
      ensures rc == if name in old(stables.Model()) then Ok else NotFound
      ensures stables.Model() == old(stables.Model()) - {name}
      ensures children.Model() == if rc == Ok then Others(old(children.Model()), name) else old(children.Model())
      ensures stableLog == old(stableLog) + if rc == Ok then [Drop(name)] else []
      ensures rc == Ok ==> childLog == old(childLog) + Drops(ks) && |Names(ks)| == |ks|
    {
      hide LogOk, Table, Contents, Count;
      ks := [];
      var st := stables.Get(name);
      if st.None? {
        return NotFound, [];
      }
      LogDropStable(name);
      ks := DropChildrenOf(name);
      DropsKeepLogOk(old(children.Model()), old(childLog), droppedChildren, ks);
      droppedChildren := droppedChildren + Names(ks);
      rc := Ok;
    }
  }
}
