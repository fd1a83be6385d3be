/**
 The v2 catalog as a state machine (src/catalog/catalog_v2.c): nodes by object id,
 a name index beside them, a Lamport clock, and one append-only log.  Every step
 that logs a record is one step here, so a crash in the middle of a cascading drop
 is simply a run that stops between two steps.
 */
module CatalogModel {
  import opened Basics
  import opened Entities

  datatype Node = Node(meta: Meta, lamport: nat, live: bool)

  datatype State = State(nodes: map<Oid, Node>, names: map<Key, Oid>, clock: nat)

  const INIT := State(map[], map[], 1)

  datatype Record = Put(oid: Oid, meta: Meta, lamport: nat) | Tomb(oid: Oid, ent: Ent, lamport: nat)

  /** What replay makes of a record. */
  function NodeOf(r: Record): Node {
    match r
    case Put(_, m, l) => Node(m, l, true)
    case Tomb(_, e, l) => Node(Blank(e), l, false)
  }

  /** What is logged for a node. */
  function RecordOf(o: Oid, n: Node): Record {
    if n.live then Put(o, n.meta, n.lamport) else Tomb(o, EntOf(n.meta), n.lamport)
  }

  /** `apply_node`. */
  function Apply(s: State, o: Oid, n: Node): State {
    if o in s.nodes && n.lamport < s.nodes[o].lamport then s
    else
      var names := if o in s.nodes && s.nodes[o].live then s.names - {KeyOf(s.nodes[o].meta)} else s.names;
      State(s.nodes[o := n],
            if n.live then names[KeyOf(n.meta) := o] else names,
            if n.lamport >= s.clock then n.lamport + 1 else s.clock)
  }

  function Replay(log: seq<Record>): State {
    if log == [] then INIT
    else var r := log[|log| - 1]; Apply(Replay(log[..|log| - 1]), r.oid, NodeOf(r))
  }

  lemma ReplaySnoc(log: seq<Record>, r: Record)
    ensures Replay(log + [r]) == Apply(Replay(log), r.oid, NodeOf(r))
  {
    assert (log + [r])[..|log|] == log;
  }

  /** Record `i` is the newest of `o`: none has a later stamp, and none after it the same one. */
  ghost predicate NewestAt(log: seq<Record>, o: Oid, i: nat)
    requires i < |log|
  {
    && log[i].oid == o
    && (forall j :: 0 <= j < i && log[j].oid == o ==> log[j].lamport <= log[i].lamport)
    && (forall j :: i < j < |log| && log[j].oid == o ==> log[j].lamport < log[i].lamport)
  }

  lemma NewestStays(log: seq<Record>, r: Record, o: Oid, i: nat)
    requires i < |log| && NewestAt(log, o, i) && (r.oid == o ==> r.lamport < log[i].lamport)
    ensures NewestAt(log + [r], o, i)
  {
  }

  lemma NewestIsLast(log: seq<Record>, r: Record)
    requires forall j :: 0 <= j < |log| && log[j].oid == r.oid ==> log[j].lamport <= r.lamport
    ensures NewestAt(log + [r], r.oid, |log|)
  {
  }

  lemma NoneNewer(log: seq<Record>, o: Oid, i: nat)
    requires i < |log| && NewestAt(log, o, i)
    ensures forall j :: 0 <= j < |log| && log[j].oid == o ==> log[j].lamport <= log[i].lamport
  {
  }

  lemma StampOf(r: Record)
    ensures NodeOf(r).lamport == r.lamport
  {
  }

  /** Replay keeps, of each object, what its newest record says, whatever the order of the log. */
  lemma {:induction false} ReplayIsNewest(log: seq<Record>, o: Oid)
    ensures o !in Replay(log).nodes ==> forall i :: 0 <= i < |log| ==> log[i].oid != o
    ensures o in Replay(log).nodes ==>
              exists i :: 0 <= i < |log| && NewestAt(log, o, i) && Replay(log).nodes[o] == NodeOf(log[i])
  {
    hide NewestAt, KeyOf, NodeOf;
    if log != [] {
      var init, r := log[..|log| - 1], log[|log| - 1];
      assert log == init + [r];
      ReplayIsNewest(init, o);
      StampOf(r);
      var s := Replay(init);
      if o in s.nodes {
        var i :| 0 <= i < |init| && NewestAt(init, o, i) && s.nodes[o] == NodeOf(init[i]);
        StampOf(init[i]);
        if r.oid == o && r.lamport >= s.nodes[o].lamport {
          NoneNewer(init, o, i);
          NewestIsLast(init, r);
        } else {
          NewestStays(init, r, o, i);
        }
      } else if r.oid == o {
        NewestIsLast(init, r);
      }
    }
  }

  // ---------------------------------------------------------------------
  // What every reachable state satisfies

  /** The name index holds exactly the live entities, each under its own key. */
  ghost predicate NamesExact(s: State) {
    && (forall k :: k in s.names ==>
          s.names[k] in s.nodes && s.nodes[s.names[k]].live && KeyOf(s.nodes[s.names[k]].meta) == k)
    && (forall o :: o in s.nodes && s.nodes[o].live ==>
          KeyOf(s.nodes[o].meta) in s.names && s.names[KeyOf(s.nodes[o].meta)] == o)
  }

  /** The clock is one more than the newest stamp. */
  ghost predicate ClockExact(s: State) {
    && (forall o :: o in s.nodes ==> s.nodes[o].lamport < s.clock)
    && (s.nodes == map[] ==> s.clock == 1)
    && (s.nodes != map[] ==> exists o :: o in s.nodes && s.nodes[o].lamport + 1 == s.clock)
  }

  /** A live entity other than a database hangs off a live, older entity; a child table hangs
      off a super table whose tag columns match its tag values. */
  ghost predicate Attached(nodes: map<Oid, Node>, o: Oid)
    requires o in nodes
  {
    var m := nodes[o].meta;
    m.Db? ||
    var p := CascadeParent(m);
    && p in nodes && nodes[p].live && nodes[p].lamport < nodes[o].lamport
    && (m.Table? && m.kind == Child ==>
          nodes[p].meta.Table? && nodes[p].meta.kind == Super && |nodes[p].meta.tagCols| == |m.tagVals|)
  }

  ghost predicate Forest(nodes: map<Oid, Node>) {
    && OID_NONE !in nodes
    && forall o :: o in nodes && nodes[o].live ==> Attached(nodes, o)
  }

  ghost predicate StateOk(s: State) {
    NamesExact(s) && ClockExact(s) && Forest(s.nodes)
  }

  /** The nodes fix the name index and the clock. */
  lemma NodesDetermine(s: State, t: State)
    requires NamesExact(s) && ClockExact(s) && NamesExact(t) && ClockExact(t) && s.nodes == t.nodes
    ensures s == t
  {
    forall k ensures k in s.names <==> k in t.names {
      if k in s.names {
        assert s.nodes[s.names[k]].live;
      }
      if k in t.names {
        assert t.nodes[t.names[k]].live;
      }
    }
    forall k | k in s.names ensures s.names[k] == t.names[k] {
      assert s.nodes[s.names[k]].live;
    }
  }

  // ---------------------------------------------------------------------
  // Memory and log

  /** Memory keeps the fields of a dropped entity, replay does not; nothing reads them. */
  function Norm(n: Node): Node {
    if n.live then n else n.(meta := Blank(EntOf(n.meta)))
  }

  function Normal(s: State): State {
    s.(nodes := map o | o in s.nodes :: Norm(s.nodes[o]))
  }

  lemma NormalOk(s: State)
    requires StateOk(s)
    ensures StateOk(Normal(s))
  {
    var t := Normal(s);
    assert t.nodes.Keys == s.nodes.Keys;
    if s.nodes != map[] {
      var o :| o in s.nodes && s.nodes[o].lamport + 1 == s.clock;
      assert o in t.nodes && t.nodes[o].lamport + 1 == t.clock;
    }
    forall o | o in t.nodes && t.nodes[o].live ensures Attached(t.nodes, o) {
      assert Attached(s.nodes, o);
    }
  }

  /** `base` is the length the log had when it was last rewritten as a whole. */
  datatype Cat = Cat(st: State, log: seq<Record>, base: nat)

  ghost predicate PrefixesOk(log: seq<Record>, base: nat) {
    base <= |log| && forall k :: base <= k <= |log| ==> StateOk(Replay(log[..k]))
  }

  ghost predicate Inv(c: Cat) {
    StateOk(c.st) && Replay(c.log) == Normal(c.st) && PrefixesOk(c.log, c.base)
  }

  lemma PrefixesSnoc(log: seq<Record>, base: nat, r: Record)
    requires PrefixesOk(log, base) && StateOk(Replay(log + [r]))
    ensures PrefixesOk(log + [r], base)
  {
    forall k | base <= k <= |log| + 1 ensures StateOk(Replay((log + [r])[..k])) {
      if k <= |log| {
        assert (log + [r])[..k] == log[..k];
      } else {
        assert (log + [r])[..k] == log + [r];
      }
    }
  }

  // ---------------------------------------------------------------------
  // Creating

  /** The checks that decide a create, in the source's order. */
  datatype Status = Ok | Exists | NotFound | Schema | Inval | Io

  predicate LiveIn(nodes: map<Oid, Node>, o: Oid) {
    o in nodes && nodes[o].live
  }

  function CheckCreate(s: State, m: Meta): Status {
    if m.name.bytes == [] then Inval
    else match m
      case Db(_, _, _, _, _) => if KeyOf(m) in s.names then Exists else Ok
      case Group(d, _, _, _, _, _, _) =>
        if !LiveIn(s.nodes, d) then NotFound else if KeyOf(m) in s.names then Exists else Ok
      case Table(d, g, p, kind, _, _, _, _, vals, _) =>
        if !LiveIn(s.nodes, d) then NotFound
        else if g != OID_NONE && !LiveIn(s.nodes, g) then NotFound
        else if kind == Child && !(LiveIn(s.nodes, p) && s.nodes[p].meta.Table? && s.nodes[p].meta.kind == Super)
        then NotFound
        else if kind == Child && |vals| != |s.nodes[p].meta.tagCols| then Schema
        else if KeyOf(m) in s.names then Exists
        else Ok
  }

  /** The state after a create, whether or not the id was in use. */
  function Created(s: State, o: Oid, m: Meta): State {
    Apply(s.(clock := s.clock + 1), o, Node(m, s.clock, true))
  }

  /** `create_common`: stamp, log, apply. */
  function Create(c: Cat, o: Oid, m: Meta): Cat {
    c.(st := Created(c.st, o, m),
       log := c.log + [Put(o, m, c.st.clock)])
  }

  ghost predicate NoLiveChild(nodes: map<Oid, Node>, o: Oid) {
    forall x :: x in nodes && nodes[x].live ==> CascadeParent(nodes[x].meta) != o
  }

  /** The object id may be given to a new entity: nothing live hangs off it, and the entity does
      not hang off itself.  Every unused id may. */
  ghost predicate Adoptable(s: State, o: Oid, m: Meta) {
    NoLiveChild(s.nodes, o) && (m.Db? || CascadeParent(m) != o)
  }

  lemma UnusedIsAdoptable(s: State, o: Oid, m: Meta)
    requires StateOk(s) && CheckCreate(s, m) == Ok && o !in s.nodes && o != OID_NONE
    ensures Adoptable(s, o, m)
  {
    forall x | x in s.nodes && s.nodes[x].live ensures CascadeParent(s.nodes[x].meta) != o {
      assert Attached(s.nodes, x);
    }
  }

  lemma FreeKey(s: State, m: Meta)
    requires CheckCreate(s, m) == Ok
    ensures KeyOf(m) !in s.names
  {
  }

  /** Names and clock stay exact under any id. */
  lemma CreateKeepsNames(s: State, o: Oid, m: Meta)
    requires NamesExact(s) && ClockExact(s) && CheckCreate(s, m) == Ok
    ensures NamesExact(Created(s, o, m)) && ClockExact(Created(s, o, m))
    ensures Created(s, o, m).nodes == s.nodes[o := Node(m, s.clock, true)]
  {
    FreeKey(s, m);
    hide CheckCreate, KeyOf;
    var t := Created(s, o, m);
    assert t.nodes == s.nodes[o := Node(m, s.clock, true)];
    assert t.nodes[o].lamport + 1 == t.clock;
  }

  /** What the checks establish: the new entity hangs off a live one, a child off a matching super. */
  lemma CheckedIsAttached(s: State, o: Oid, m: Meta)
    requires ClockExact(s) && CheckCreate(s, m) == Ok && (m.Db? || CascadeParent(m) != o)
    ensures Attached(s.nodes[o := Node(m, s.clock, true)], o)
  {
  }

  /** A create keeps the catalog well formed if and only if its object id may be given. */
  lemma CreateKeepsStateOk(s: State, o: Oid, m: Meta)
    requires StateOk(s) && CheckCreate(s, m) == Ok && o != OID_NONE
    ensures StateOk(Created(s, o, m)) <==> Adoptable(s, o, m)
  {
    CreateKeepsNames(s, o, m);
    var n1 := s.nodes[o := Node(m, s.clock, true)];
    if Adoptable(s, o, m) {
      CheckedIsAttached(s, o, m);
      hide CheckCreate;
      forall x | x in n1 && n1[x].live && x != o ensures Attached(n1, x) {
        assert Attached(s.nodes, x);
      }
    } else if NoLiveChild(s.nodes, o) {
      assert !Attached(n1, o);
    } else {
      var x :| x in s.nodes && s.nodes[x].live && CascadeParent(s.nodes[x].meta) == o;
      assert Attached(s.nodes, x);
      assert x != o && !Attached(n1, x);
    }
  }

  /** The log replays to the new state under any id. */
  lemma CreateReplays(c: Cat, o: Oid, m: Meta)
    requires Replay(c.log) == Normal(c.st) && ClockExact(c.st)
    ensures Replay(Create(c, o, m).log) == Normal(Create(c, o, m).st)
  {
    var d := Create(c, o, m);
    ReplaySnoc(c.log, Put(o, m, c.st.clock));
    hide Replay, KeyOf;
    assert Replay(d.log).nodes == Normal(d.st).nodes;
  }

  /** A create keeps the invariant of every run if and only if its object id may be given; an
      unused one may. */
  lemma CreateKeepsInv(c: Cat, o: Oid, m: Meta)
    requires Inv(c) && CheckCreate(c.st, m) == Ok && o != OID_NONE
    ensures Inv(Create(c, o, m)) <==> Adoptable(c.st, o, m)
    ensures o !in c.st.nodes ==> Inv(Create(c, o, m))
  {
    CreateKeepsStateOk(c.st, o, m);
    CreateReplays(c, o, m);
    if o !in c.st.nodes {
      UnusedIsAdoptable(c.st, o, m);
    }
    hide StateOk, Apply, Replay, CheckCreate, Normal, Adoptable;
    if Adoptable(c.st, o, m) {
      NormalOk(Create(c, o, m).st);
      PrefixesSnoc(c.log, c.base, Put(o, m, c.st.clock));
    }
  }

  // ---------------------------------------------------------------------
  // Dropping one entity

  /** `drop_one`: unindex, tombstone with a new stamp, log. */
  function DropOne(c: Cat, o: Oid): Cat
    requires o in c.st.nodes
  {
    var n := c.st.nodes[o];
    c.(st := State(c.st.nodes[o := n.(live := false, lamport := c.st.clock)], c.st.names - {KeyOf(n.meta)},
                   c.st.clock + 1),
       log := c.log + [Tomb(o, EntOf(n.meta), c.st.clock)])
  }

  lemma DropOneKeepsStateOk(s: State, o: Oid, t: State)
    requires StateOk(s) && LiveIn(s.nodes, o) && NoLiveChild(s.nodes, o)
    requires t == State(s.nodes[o := s.nodes[o].(live := false, lamport := s.clock)],
                        s.names - {KeyOf(s.nodes[o].meta)}, s.clock + 1)
    ensures StateOk(t)
  {
    forall x | x in t.nodes && t.nodes[x].live ensures Attached(t.nodes, x) {
      assert Attached(s.nodes, x);
    }
    assert t.nodes[o].lamport + 1 == t.clock;
  }

  /** Dropping a live entity that no live entity hangs off keeps the invariant, and replay follows. */
  lemma DropOneKeepsInv(c: Cat, o: Oid)
    requires Inv(c) && LiveIn(c.st.nodes, o) && NoLiveChild(c.st.nodes, o)
    ensures Inv(DropOne(c, o))
  {
    var d := DropOne(c, o);
    DropOneKeepsStateOk(c.st, o, d.st);
    NormalOk(d.st);
    var r := Tomb(o, EntOf(c.st.nodes[o].meta), c.st.clock);
    ReplaySnoc(c.log, r);
    assert Replay(d.log) == Normal(d.st) by {
      assert Replay(d.log).nodes == Normal(d.st).nodes;
    }
    PrefixesSnoc(c.log, c.base, r);
  }

  // ---------------------------------------------------------------------
  // Compacting

  /** The records a compaction writes for the nodes in `order`. */
  function Emit(nodes: map<Oid, Node>, order: seq<Oid>): seq<Record>
    requires forall o :: o in order ==> o in nodes
  {
    if order == [] then []
    else Emit(nodes, order[..|order| - 1]) + [RecordOf(order[|order| - 1], nodes[order[|order| - 1]])]
  }

  /** `t` is the part of `s` that the objects in `order` make up. */
  ghost predicate Emitted(s: State, order: seq<Oid>, t: State) {
    && NamesExact(t) && ClockExact(t)
    && (forall o :: o in t.nodes <==> o in order)
    && (forall o :: o in t.nodes ==> o in s.nodes && t.nodes[o] == Norm(s.nodes[o]))
  }

  lemma EmitStep(s: State, order: seq<Oid>, t: State, o: Oid)
    requires NamesExact(s) && Emitted(s, order, t) && o in s.nodes && o !in order
    ensures Emitted(s, order + [o], Apply(t, o, NodeOf(RecordOf(o, s.nodes[o]))))
  {
    var u := Apply(t, o, Norm(s.nodes[o]));
    assert forall x :: x in t.nodes && t.nodes[x].live ==> s.nodes[x].live;
    assert u.nodes[o].lamport + 1 <= u.clock;
    if t.nodes != map[] {
      var x :| x in t.nodes && t.nodes[x].lamport + 1 == t.clock;
      assert u.nodes[x].lamport + 1 == t.clock;
    }
  }

  lemma {:induction false} EmitReplays(s: State, order: seq<Oid>)
    requires NamesExact(s) && NoRepeats(order) && forall o :: o in order ==> o in s.nodes
    ensures Emitted(s, order, Replay(Emit(s.nodes, order)))
  {
    if order != [] {
      var init, o := order[..|order| - 1], order[|order| - 1];
      assert order == init + [o];
      EmitReplays(s, init);
      EmitStep(s, init, Replay(Emit(s.nodes, init)), o);
      ReplaySnoc(Emit(s.nodes, init), RecordOf(o, s.nodes[o]));
    }
  }

  ghost predicate ListsAll(nodes: map<Oid, Node>, order: seq<Oid>) {
    NoRepeats(order) && forall o :: o in order <==> o in nodes
  }

  function Compact(c: Cat, order: seq<Oid>): Cat
    requires forall o :: o in order ==> o in c.st.nodes
  {
    var log := Emit(c.st.nodes, order);
    c.(log := log, base := |log|)
  }

  lemma CompactReplays(s: State, order: seq<Oid>)
    requires StateOk(s) && ListsAll(s.nodes, order)
    ensures Replay(Emit(s.nodes, order)) == Normal(s)
  {
    NormalOk(s);
    EmitReplays(s, order);
    hide Emit, Replay, NamesExact, ClockExact, Forest, NoRepeats;
    assert Replay(Emit(s.nodes, order)).nodes == Normal(s).nodes;
    NodesDetermine(Replay(Emit(s.nodes, order)), Normal(s));
  }

  /** In whatever order the buckets list the nodes, live ones and tombstones, the rewritten log
      replays to the same state: same nodes, same name index, same clock. */
  lemma CompactKeepsInv(c: Cat, order: seq<Oid>)
    requires Inv(c) && ListsAll(c.st.nodes, order)
    ensures Inv(Compact(c, order))
  {
    hide StateOk, Replay, Normal, Emit, NoRepeats;
    NormalOk(c.st);
    CompactReplays(c.st, order);
    var log := Emit(c.st.nodes, order);
    assert log[..|log|] == log;
  }

  // ---------------------------------------------------------------------
  // Reopening, and crashing

  /** Reopen after a crash that left only the first `k` records of the log. */
  function Reopen(c: Cat, k: nat): Cat
    requires k <= |c.log|
  {
    Cat(Replay(c.log[..k]), c.log[..k], c.base)
  }

  lemma ReplayIsNormal(log: seq<Record>)
    ensures Normal(Replay(log)) == Replay(log)
  {
    if log != [] {
      ReplayIsNormal(log[..|log| - 1]);
      var r := log[|log| - 1];
      var s := Replay(log[..|log| - 1]);
      assert Norm(NodeOf(r)) == NodeOf(r);
      assert forall o :: o in s.nodes ==> Norm(s.nodes[o]) == s.nodes[o] by {
        assert forall o :: o in s.nodes ==> Normal(s).nodes[o] == s.nodes[o];
      }
      assert Normal(Replay(log)).nodes == Replay(log).nodes;
    }
  }

  lemma ReopenKeepsInv(c: Cat, k: nat)
    requires Inv(c) && c.base <= k <= |c.log|
    ensures Inv(Reopen(c, k))
    ensures k == |c.log| ==> Reopen(c, k).st == Normal(c.st)
  {
    var log := c.log[..k];
    ReplayIsNormal(log);
    forall i | c.base <= i <= k ensures StateOk(Replay(log[..i])) {
      assert log[..i] == c.log[..i];
    }
    assert k == |c.log| ==> log == c.log;
    assert log[..k] == log;
  }

  // ---------------------------------------------------------------------
  // Every run

  datatype Step =
    | DoCreate(oid: Oid, meta: Meta)
    | DoDropOne(oid: Oid)
    | DoCompact(order: seq<Oid>)
    | DoReopen(kept: nat)

  ghost predicate Enabled(c: Cat, a: Step) {
    match a
    case DoCreate(o, m) => CheckCreate(c.st, m) == Ok && o != OID_NONE && Adoptable(c.st, o, m)
    case DoDropOne(o) => LiveIn(c.st.nodes, o) && NoLiveChild(c.st.nodes, o)
    case DoCompact(order) => ListsAll(c.st.nodes, order)
    case DoReopen(k) => c.base <= k <= |c.log|
  }

  function Do(c: Cat, a: Step): Cat
    requires a.DoDropOne? ==> a.oid in c.st.nodes
    requires a.DoCompact? ==> forall o :: o in a.order ==> o in c.st.nodes
    requires a.DoReopen? ==> a.kept <= |c.log|
  {
    match a
    case DoCreate(o, m) => Create(c, o, m)
    case DoDropOne(o) => DropOne(c, o)
    case DoCompact(order) => Compact(c, order)
    case DoReopen(k) => Reopen(c, k)
  }

  ghost predicate Run(c: Cat, steps: seq<Step>, d: Cat)
    decreases |steps|
  {
    if steps == [] then d == c
    else Enabled(c, steps[0]) && Run(Do(c, steps[0]), steps[1..], d)
  }

  /** After every run of creates, drops, compactions, reopens and crashes from an empty log:
      replaying the log gives the state in memory, and so does no less a state whose every live
      entity is attached, at every point of the log since it was last rewritten. */
  lemma {:induction false} RunKeepsInv(c: Cat, steps: seq<Step>, d: Cat)
    requires Inv(c) && Run(c, steps, d)
    ensures Inv(d)
    decreases |steps|
  {
    if steps != [] {
      match steps[0] {
        case DoCreate(o, m) => CreateKeepsInv(c, o, m);
        case DoDropOne(o) => DropOneKeepsInv(c, o);
        case DoCompact(order) => CompactKeepsInv(c, order);
        case DoReopen(k) => ReopenKeepsInv(c, k);
      }
      RunKeepsInv(Do(c, steps[0]), steps[1..], d);
    }
  }

  lemma EmptyCatalogOk()
    ensures Inv(Cat(INIT, [], 0))
  {
    var log: seq<Record> := [];
    assert log[..0] == log;
  }
}
