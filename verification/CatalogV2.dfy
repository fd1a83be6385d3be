/**
 The v2 catalog object (src/catalog/catalog_v2.c).  Its methods change the node
 map, the name index, the clock and the log in place and keep `Inv` of the state
 machine in CatalogModel; the cascading drop is the source's recursion over a
 snapshot of each entity's live children.
 */
module CatalogV2 {
  import opened Basics
  import opened Entities
  import opened CatalogModel
  import opened Cascade
  import A = OidAllocator

  /** Every object id of this node that the catalog holds lies behind the allocator. */
  ghost predicate Observed(nodes: Nodes, a: A.Alloc) {
    && a.node < A.NODE_LIMIT && A.FIRST_USER <= a.next
    && forall o :: o in nodes && A.NodeOf(o) == a.node ==> A.SeqOf(o) < a.next
  }

  lemma MintIsFresh(nodes: Nodes, a: A.Alloc, persists: bool)
    requires Observed(nodes, a)
    ensures var (b, o) := A.Mint(a, persists);
            Observed(nodes, b) && (o != OID_NONE && a.next < A.SEQ_LIMIT ==> o !in nodes)
  {
    A.Unpack(a.node, a.next);
  }

  lemma ObserveCovers(nodes: Nodes, a: A.Alloc, o: Oid, n: Node, persists: bool)
    requires Observed(nodes, a)
    ensures Observed(nodes[o := n], A.Observe(a, o, persists))
  {
  }

  /** The tombstones of `gone`, stamped from `clock` on. */
  function Tombs(nodes: Nodes, clock: nat, gone: seq<Oid>): (log: seq<Record>)
    requires forall o :: o in gone ==> o in nodes
    ensures |log| == |gone|
  {
    seq(|gone|, i requires 0 <= i < |gone| => Tomb(gone[i], EntOf(nodes[gone[i]].meta), clock + i))
  }

  /** `gone` lists the subtrees of `ts`, each entity once. */
  ghost predicate Subtrees(nodes: Nodes, ts: seq<Oid>, gone: seq<Oid>) {
    NoRepeats(gone) && forall o :: o in gone <==> ReachesAny(nodes, o, ts)
  }

  /** Exactly the entities `gone` were logged as dropped, in that order. */
  ghost predicate Logged(c0: Cat, c1: Cat, gone: seq<Oid>) {
    && (forall o :: o in gone ==> o in c0.st.nodes)
    && c1.log == c0.log + Tombs(c0.st.nodes, c0.st.clock, gone)
    && c1.st.clock == c0.st.clock + |gone| && c1.base == c0.base
  }

  /** What a cascading drop of `ts` did: exactly their subtrees are tombstoned, each entity of
      them logged once, in `gone` order. */
  ghost predicate CascadeDone(c0: Cat, c1: Cat, ts: seq<Oid>, gone: seq<Oid>) {
    Dropped(c0.st.nodes, c1.st.nodes, ts) && Subtrees(c0.st.nodes, ts, gone) && Logged(c0, c1, gone)
  }

  lemma CascadeStart(c: Cat, kids: seq<Oid>)
    ensures CascadeDone(c, c, kids[..0], [])
  {
    DroppedNone(c.st.nodes);
    assert kids[..0] == [];
    assert c.log + Tombs(c.st.nodes, c.st.clock, []) == c.log;
  }

  /** The next kid to drop is as it was, and younger than its parent. */
  lemma KidUntouched(c0: Cat, c1: Cat, t: Oid, kids: seq<Oid>, i: nat, gone: seq<Oid>)
    requires Forest(c0.st.nodes) && LiveIn(c0.st.nodes, t) && Kids(c0.st.nodes, t, kids) && NoRepeats(kids)
    requires i < |kids| && CascadeDone(c0, c1, kids[..i], gone)
    ensures LiveIn(c1.st.nodes, kids[i]) && c0.st.nodes[t].lamport < c1.st.nodes[kids[i]].lamport
    ensures forall x :: x in c1.st.nodes && c1.st.nodes[x].live ==> x in c0.st.nodes && c0.st.nodes[x] == c1.st.nodes[x]
  {
    var k := kids[i];
    assert k in kids;
    assert Attached(c0.st.nodes, k) && Reaches(c0.st.nodes, k, k);
    NoRepeatsAt(kids, i);
    NotBelowEarlier(c0.st.nodes, k, t, kids, i);
  }

  lemma TombsConcat(n0: Nodes, n1: Nodes, clock: nat, a: seq<Oid>, b: seq<Oid>)
    requires n0.Keys == n1.Keys && forall o :: o in n0 ==> n0[o].meta == n1[o].meta
    requires (forall o :: o in a ==> o in n0) && (forall o :: o in b ==> o in n0)
    ensures Tombs(n0, clock, a) + Tombs(n1, clock + |a|, b) == Tombs(n0, clock, a + b)
  {
  }

  lemma LoggedNext(c0: Cat, c1: Cat, c2: Cat, gone: seq<Oid>, more: seq<Oid>)
    requires c0.st.nodes.Keys == c1.st.nodes.Keys
    requires forall o :: o in c0.st.nodes ==> c0.st.nodes[o].meta == c1.st.nodes[o].meta
    requires Logged(c0, c1, gone) && Logged(c1, c2, more)
    ensures Logged(c0, c2, gone + more)
  {
    var x, y := Tombs(c0.st.nodes, c0.st.clock, gone), Tombs(c1.st.nodes, c1.st.clock, more);
    TombsConcat(c0.st.nodes, c1.st.nodes, c0.st.clock, gone, more);
    assert c0.log + x + y == c0.log + (x + y);
  }

  lemma SubtreesNext(n0: Nodes, n1: Nodes, t: Oid, kids: seq<Oid>, i: nat, gone: seq<Oid>, more: seq<Oid>)
    requires Forest(n0) && t in n0 && n0[t].live && Kids(n0, t, kids) && i < |kids| && kids[i] !in kids[..i]
    requires Dropped(n0, n1, kids[..i]) && Subtrees(n0, kids[..i], gone) && Subtrees(n1, [kids[i]], more)
    ensures Subtrees(n0, kids[..i + 1], gone + more)
  {
    forall o ensures ReachesAny(n0, o, kids[..i + 1]) <==> o in gone + more {
      ReachesNext(n0, n1, t, kids, i, o);
    }
    NoRepeatsConcat(gone, more);
  }

  lemma CascadeNext(c0: Cat, c1: Cat, c2: Cat, t: Oid, kids: seq<Oid>, i: nat, gone: seq<Oid>, more: seq<Oid>)
    requires Forest(c0.st.nodes) && LiveIn(c0.st.nodes, t) && Kids(c0.st.nodes, t, kids) && NoRepeats(kids)
    requires i < |kids| && CascadeDone(c0, c1, kids[..i], gone) && CascadeDone(c1, c2, [kids[i]], more)
    ensures CascadeDone(c0, c2, kids[..i + 1], gone + more)
  {
    NoRepeatsAt(kids, i);
    DroppedNext(c0.st.nodes, c1.st.nodes, c2.st.nodes, t, kids, i);
    SubtreesNext(c0.st.nodes, c1.st.nodes, t, kids, i, gone, more);
    LoggedNext(c0, c1, c2, gone, more);
  }

  lemma SubtreesRoot(n0: Nodes, n1: Nodes, t: Oid, kids: seq<Oid>, gone: seq<Oid>)
    requires Forest(n0) && t in n0 && n0[t].live && Kids(n0, t, kids) && Subtrees(n0, kids, gone)
    requires Dropped(n0, n1, kids) && n1[t] == n0[t]
    ensures Subtrees(n0, [t], gone + [t])
  {
    forall o ensures ReachesAny(n0, o, [t]) <==> o in gone + [t] {
      ReachesRoot(n0, t, kids, o);
    }
    assert (gone + [t])[..|gone|] == gone;
  }

  lemma DropOneLogged(c: Cat, t: Oid)
    requires t in c.st.nodes
    ensures Logged(c, DropOne(c, t), [t])
  {
    assert Tombs(c.st.nodes, c.st.clock, [t]) == [Tomb(t, EntOf(c.st.nodes[t].meta), c.st.clock)];
  }

  lemma CascadeEnd(c0: Cat, c1: Cat, t: Oid, kids: seq<Oid>, gone: seq<Oid>)
    requires Forest(c0.st.nodes) && LiveIn(c0.st.nodes, t) && Kids(c0.st.nodes, t, kids)
    requires CascadeDone(c0, c1, kids, gone) && t in c1.st.nodes && c1.st.nodes[t] == c0.st.nodes[t]
    ensures CascadeDone(c0, DropOne(c1, t), [t], gone + [t])
  {
    hide Dropped, Subtrees, Logged, Forest, Kids;
    var c2 := DropOne(c1, t);
    DroppedRoot(c0.st.nodes, c1.st.nodes, c2.st.nodes, t, kids);
    SubtreesRoot(c0.st.nodes, c1.st.nodes, t, kids, gone);
    DropOneLogged(c1, t);
    LoggedNext(c0, c1, c2, gone, [t]);
  }

  lemma CascadeLinked(c0: Cat, c1: Cat, t: Oid, gone: seq<Oid>)
    requires Forest(c0.st.nodes) && LiveIn(c0.st.nodes, t) && CascadeDone(c0, c1, [t], gone)
    ensures TakesWhatHangs(c0.st.nodes, c1.st.nodes, t)
  {
    SubtreeIsLinked(c0.st.nodes, c1.st.nodes, t);
  }

  lemma InvForest(c: Cat)
    requires Inv(c)
    ensures Forest(c.st.nodes)
  {
  }

  /** After its children's subtrees the root is as it was, and childless. */
  lemma RootLeft(c0: Cat, c1: Cat, t: Oid, kids: seq<Oid>, gone: seq<Oid>)
    requires Forest(c0.st.nodes) && LiveIn(c0.st.nodes, t) && Kids(c0.st.nodes, t, kids)
    requires CascadeDone(c0, c1, kids, gone)
    ensures t in c1.st.nodes && c1.st.nodes[t] == c0.st.nodes[t] && NoLiveChild(c1.st.nodes, t)
  {
    KidsGone(c0.st.nodes, c1.st.nodes, t, kids);
  }

  /** An entity's creation time defaults to now. */
  function Stamped(m: Meta, now: nat): Meta {
    if m.createdAt == 0 then m.(createdAt := now) else m
  }

  // ---------------------------------------------------------------------
  // When a create succeeds

  ghost predicate DbLive(nodes: Nodes, m: Meta) {
    m.Db? || LiveIn(nodes, m.db)
  }

  ghost predicate GroupLive(nodes: Nodes, m: Meta) {
    m.Table? && m.group != OID_NONE ==> LiveIn(nodes, m.group)
  }

  ghost predicate SuperLive(nodes: Nodes, m: Meta) {
    m.Table? && m.kind == Child ==>
      m.parent in nodes && nodes[m.parent].live && nodes[m.parent].meta.Table? && nodes[m.parent].meta.kind == Super
  }

  /** Everything the entity names is live, and a child's parent is a super table. */
  ghost predicate Referenced(nodes: Nodes, m: Meta) {
    DbLive(nodes, m) && GroupLive(nodes, m) && SuperLive(nodes, m)
  }

  /** A child has as many tag values as its parent has tag columns. */
  ghost predicate TagsMatch(nodes: Nodes, m: Meta)
    requires SuperLive(nodes, m)
  {
    m.Table? && m.kind == Child ==> |m.tagVals| == |nodes[m.parent].meta.tagCols|
  }

  /** The two are of one sort, share a name and, unless they are databases, a database. */
  ghost predicate SameName(a: Meta, b: Meta) {
    && a.name == b.name
    && ((a.Db? && b.Db?) || (a.Group? && b.Group? && a.db == b.db) || (a.Table? && b.Table? && a.db == b.db))
  }

  ghost predicate NameTaken(nodes: Nodes, m: Meta) {
    exists o :: o in nodes && nodes[o].live && SameName(nodes[o].meta, m)
  }

  lemma SameNameIsKey(a: Meta, b: Meta)
    ensures SameName(a, b) <==> KeyOf(a) == KeyOf(b)
  {
  }

  lemma TakenIsIndexed(s: State, m: Meta)
    requires NamesExact(s)
    ensures NameTaken(s.nodes, m) <==> KeyOf(m) in s.names
  {
    if KeyOf(m) in s.names {
      var o := s.names[KeyOf(m)];
      SameNameIsKey(s.nodes[o].meta, m);
    }
    if NameTaken(s.nodes, m) {
      var o :| o in s.nodes && s.nodes[o].live && SameName(s.nodes[o].meta, m);
      SameNameIsKey(s.nodes[o].meta, m);
    }
  }

  /** A refused create carries the status of the first condition it fails; one that fails none is
      accepted. */
  lemma CheckMeans(s: State, m: Meta)
    requires NamesExact(s)
    ensures CheckCreate(s, m) == Inval <==> m.name.bytes == []
    ensures CheckCreate(s, m) == NotFound <==> m.name.bytes != [] && !Referenced(s.nodes, m)
    ensures CheckCreate(s, m) == Schema <==>
              m.name.bytes != [] && Referenced(s.nodes, m) && !TagsMatch(s.nodes, m)
    ensures CheckCreate(s, m) == Exists <==>
              m.name.bytes != [] && Referenced(s.nodes, m) && TagsMatch(s.nodes, m) && NameTaken(s.nodes, m)
    ensures CheckCreate(s, m) == Ok <==>
              m.name.bytes != [] && Referenced(s.nodes, m) && TagsMatch(s.nodes, m) && !NameTaken(s.nodes, m)
  {
    TakenIsIndexed(s, m);
    hide NameTaken, NamesExact, KeyOf;
  }

  lemma StampedSame(s: State, m: Meta, now: nat)
    ensures CheckCreate(s, Stamped(m, now)) == CheckCreate(s, m)
  {
  }

  class Catalog {
    var nodes: Nodes
    var names: map<Key, Oid>
    var clock: nat
    var log: seq<Record>
    ghost var base: nat
    const alloc: A.Allocator

    ghost function Abs(): Cat
      reads this
    {
      Cat(State(nodes, names, clock), log, base)
    }

    ghost predicate Valid()
      reads this, alloc
    {
      Inv(Abs()) && Observed(nodes, alloc.Abs())
    }

    /** `apply_node`, with the object id it learns passed on to the allocator. */
    method ApplyNode(o: Oid, n: Node)
      requires Observed(nodes, alloc.Abs())
      modifies this, alloc
      ensures State(nodes, names, clock) == Apply(old(State(nodes, names, clock)), o, n)
      ensures log == old(log) && base == old(base) && Observed(nodes, alloc.Abs())
      ensures alloc.next >= old(alloc.next)
    {
      if o in nodes {
        var ex := nodes[o];
        if n.lamport < ex.lamport {
          return;
        }
        if ex.live {
          names := names - {KeyOf(ex.meta)};
        }
      }
      var persists: bool := *;
      ObserveCovers(nodes, alloc.Abs(), o, n, persists);
      nodes := nodes[o := n];
      if n.live {
        names := names[KeyOf(n.meta) := o];
      }
      alloc.Note(o, persists);
      if n.lamport >= clock {
        clock := n.lamport + 1;
      }
    }

    /** Open on a log: replay it record by record. */
    constructor (log: seq<Record>, ghost base: nat, node: nat, file: nat)
      requires node < A.NODE_LIMIT
      ensures Abs() == Cat(Replay(log), log, base) && fresh(alloc)
      ensures PrefixesOk(log, base) ==> Valid()
    {
      nodes, names, clock := map[], map[], 1;
      this.log, this.base := log, base;
      alloc := new A.Allocator(node, file);
      new;
      for i := 0 to |log|
        invariant State(nodes, names, clock) == Replay(log[..i])
        invariant this.log == log && this.base == base && Observed(nodes, alloc.Abs())
      {
        ReplaySnoc(log[..i], log[i]);
        assert log[..i + 1] == log[..i] + [log[i]];
        ApplyNode(log[i].oid, NodeOf(log[i]));
      }
      assert log[..|log|] == log;
      ReplayIsNormal(log);
    }

    /** Stamp, log, apply. */
    method CreateCommon(o: Oid, m: Meta)
      requires Inv(Abs()) && Observed(nodes, alloc.Abs()) && o != OID_NONE && CheckCreate(Abs().st, m) == Ok
      modifies this, alloc
      ensures Abs() == Create(old(Abs()), o, m) && nodes == old(nodes)[o := Node(m, old(clock), true)]
      ensures Valid() <==> Adoptable(old(Abs().st), o, m)
      ensures o !in old(nodes) ==> Valid()
    {
      CreateKeepsInv(Abs(), o, m);
      CreateKeepsNames(Abs().st, o, m);
      hide Inv, CheckCreate, Adoptable;
      var n := Node(m, clock, true);
      clock := clock + 1;
      log := log + [Put(o, m, n.lamport)];
      ApplyNode(o, n);
    }

    /** Create an entity under a minted object id or under the caller's, which is not checked.
        A minted id is unused while sequence numbers fit 48 bits; the catalog stays valid exactly
        when the id may be given. */
    method CreateEntity(oid: Oid, entity: Meta, now: nat, persists: bool) returns (rc: Status, o: Oid)
      requires Valid()
      modifies this, alloc
      ensures rc == Inval <==> entity.name.bytes == []
      ensures rc == NotFound <==> entity.name.bytes != [] && !Referenced(old(nodes), entity)
      ensures rc == Schema <==>
                entity.name.bytes != [] && Referenced(old(nodes), entity) && !TagsMatch(old(nodes), entity)
      ensures rc == Exists <==>
                && entity.name.bytes != [] && Referenced(old(nodes), entity) && TagsMatch(old(nodes), entity)
                && NameTaken(old(nodes), entity)
      ensures rc in {Ok, Io} <==>
                && entity.name.bytes != [] && Referenced(old(nodes), entity) && TagsMatch(old(nodes), entity)
                && !NameTaken(old(nodes), entity)
      ensures rc == Io ==> oid == OID_NONE && A.Mint(old(alloc.Abs()), persists).1 == OID_NONE
      ensures rc == Ok && oid == OID_NONE ==> o == A.Mint(old(alloc.Abs()), persists).1
      ensures rc != Io ==> rc == CheckCreate(old(Abs().st), entity)
      ensures rc != Ok ==> Abs() == old(Abs()) && Valid()
      ensures rc == Ok ==> o != OID_NONE && (oid != OID_NONE ==> o == oid)
      ensures rc == Ok && oid == OID_NONE && old(alloc.next) < A.SEQ_LIMIT ==> o !in old(nodes)
      ensures rc == Ok ==>
                var m := entity.(createdAt := if entity.createdAt == 0 then now else entity.createdAt);
                nodes == old(nodes)[o := Node(m, old(clock), true)] && log == old(log) + [Put(o, m, old(clock))]
      ensures rc == Ok ==> Abs() == Create(old(Abs()), o, Stamped(entity, now))
      ensures rc == Ok ==> (Valid() <==> Adoptable(old(Abs().st), o, Stamped(entity, now)))
      ensures rc == Ok && o !in old(nodes) ==> Valid()
    {
      o := oid;
      CheckMeans(Abs().st, entity);
      hide Referenced, TagsMatch, NameTaken;
      rc := CheckCreate(State(nodes, names, clock), entity);
      if rc != Ok {
        return;
      }
      var m := Stamped(entity, now);
      StampedSame(State(nodes, names, clock), entity, now);
      if o == OID_NONE {
        MintIsFresh(nodes, alloc.Abs(), persists);
        o := alloc.Next(persists);
        if o == OID_NONE {
          return Io, o;
        }
      }
      CreateCommon(o, m);
    }

    method DropNode(o: Oid)
      requires o in nodes
      modifies this
      ensures Abs() == DropOne(old(Abs()), o)
    {
      var n := nodes[o];
      names := names - {KeyOf(n.meta)};
      nodes := nodes[o := n.(live := false, lamport := clock)];
      log := log + [Tomb(o, EntOf(n.meta), clock)];
      clock := clock + 1;
    }

    /** Tombstone an entity that nothing live hangs off. */
    method DropLeaf(o: Oid)
      requires Valid() && LiveIn(Abs().st.nodes, o) && NoLiveChild(nodes, o)
      modifies this
      ensures Valid() && Abs() == DropOne(old(Abs()), o)
    {
      DropOneKeepsInv(Abs(), o);
      hide Inv, NoLiveChild;
      DropNode(o);
    }

    /** The live entities that hang directly off `t`, in some order. */
    method Children(t: Oid) returns (kids: seq<Oid>)
      ensures Kids(nodes, t, kids) && NoRepeats(kids)
    {
      kids := [];
      var rest := nodes.Keys;
      while rest != {}
        invariant rest <= nodes.Keys && NoRepeats(kids)
        invariant forall k :: k in kids <==>
                    k in nodes && k !in rest && nodes[k].live && CascadeParent(nodes[k].meta) == t
      {
        var o :| o in rest;
        rest := rest - {o};
        if nodes[o].live && CascadeParent(nodes[o].meta) == t {
          assert (kids + [o])[..|kids|] == kids;
          kids := kids + [o];
        }
      }
    }

    /** Tombstone `oid` and, depth first, every live entity whose cascade parent lies in the drop. */
    method DropSubtree(oid: Oid, ghost bound: nat) returns (rc: Status, ghost gone: seq<Oid>)
      requires Valid()
      requires forall x :: x in nodes && nodes[x].live ==> nodes[x].lamport < bound
      modifies this
      ensures Valid() && rc == if LiveIn(old(Abs().st).nodes, oid) then Ok else NotFound
      ensures rc == NotFound ==> Abs() == old(Abs())
      ensures rc == Ok ==> CascadeDone(old(Abs()), Abs(), [oid], gone) && TakesWhatHangs(old(nodes), nodes, oid)
      decreases bound - (if oid in nodes && nodes[oid].live then nodes[oid].lamport else bound), 1
    {
      gone := [];
      if oid !in nodes || !nodes[oid].live {
        return NotFound, gone;
      }
      hide CascadeDone, TakesWhatHangs, NoRepeats, Kids, Inv, Observed, Forest, NoLiveChild;
      ghost var c0 := Abs();
      InvForest(c0);
      var kids := Children(oid);
      gone := DropKids(oid, kids, bound);
      ghost var c1 := Abs();
      RootLeft(c0, c1, oid, kids, gone);
      DropLeaf(oid);
      CascadeEnd(c0, c1, oid, kids, gone);
      CascadeLinked(c0, Abs(), oid, gone + [oid]);
      gone := gone + [oid];
      rc := Ok;
    }

    /** Drop the snapshotted children one after the other. */
    method DropKids(oid: Oid, kids: seq<Oid>, ghost bound: nat) returns (ghost gone: seq<Oid>)
      requires Valid() && LiveIn(Abs().st.nodes, oid) && Kids(nodes, oid, kids) && NoRepeats(kids)
      requires forall x :: x in nodes && nodes[x].live ==> nodes[x].lamport < bound
      modifies this
      ensures Valid() && CascadeDone(old(Abs()), Abs(), kids, gone)
      decreases bound - nodes[oid].lamport, 0
    {
      hide CascadeDone, NoRepeats, Kids, Inv, Observed, Forest;
      ghost var c0 := Abs();
      gone := [];
      InvForest(c0);
      CascadeStart(c0, kids);
      var i := 0;
      while i < |kids|
        invariant i <= |kids| && Valid() && CascadeDone(c0, Abs(), kids[..i], gone)
      {
        KidUntouched(c0, Abs(), oid, kids, i, gone);
        ghost var c1 := Abs();
        var _, more := DropSubtree(kids[i], bound);
        CascadeNext(c0, c1, Abs(), oid, kids, i, gone, more);
        gone := gone + more;
        i := i + 1;
      }
      assert kids[..i] == kids;
    }

    /** `tsdb_cat2_drop`. */
    method Drop(oid: Oid) returns (rc: Status, ghost gone: seq<Oid>)
      requires Valid()
      modifies this
      ensures Valid() && rc == if LiveIn(old(Abs().st).nodes, oid) then Ok else NotFound
      ensures rc == NotFound ==> Abs() == old(Abs())
      ensures rc == Ok ==> CascadeDone(old(Abs()), Abs(), [oid], gone) && TakesWhatHangs(old(nodes), nodes, oid)
    {
      rc, gone := DropSubtree(oid, clock);
    }

    /** `tsdb_cat2_compact`: one record per node, live or not, in some order; the old log is replaced whole. */
    method Rewrite() returns (ghost order: seq<Oid>)
      requires Valid()
      modifies this
      ensures Valid() && ListsAll(old(nodes), order) && Abs() == Compact(old(Abs()), order)
    {
      var newLog: seq<Record> := [];
      order := [];
      var rest := nodes.Keys;
      while rest != {}
        invariant rest <= nodes.Keys && NoRepeats(order)
        invariant forall o :: o in order <==> o in nodes && o !in rest
        invariant newLog == Emit(nodes, order)
      {
        var o :| o in rest;
        rest := rest - {o};
        assert (order + [o])[..|order|] == order;
        newLog := newLog + [RecordOf(o, nodes[o])];
        order := order + [o];
      }
      CompactKeepsInv(Abs(), order);
      log, base := newLog, |newLog|;
    }

    /** `tsdb_cat2_count`. */
    method Count() returns (live: nat)
      ensures live == |set o | o in nodes && nodes[o].live|
    {
      live := 0;
      var rest := nodes.Keys;
      while rest != {}
        invariant rest <= nodes.Keys
        invariant live == |set o | o in nodes && o !in rest && nodes[o].live|
      {
        var o :| o in rest;
        ghost var before := set x | x in nodes && x !in rest && nodes[x].live;
        rest := rest - {o};
        assert (set x | x in nodes && x !in rest && nodes[x].live) == before + if nodes[o].live then {o} else {};
        if nodes[o].live {
          live := live + 1;
        }
      }
      assert (set o | o in nodes && nodes[o].live) == set o | o in nodes && o !in rest && nodes[o].live;
    }
  }
}
