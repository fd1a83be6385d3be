/**
 Copying the v1 catalog into a fresh v2 catalog (src/catalog/catalog_mirror.c): four
 loops over the v1 lists, each entry resolved to its v2 parents by name and created
 through the checks of the v2 catalog.
 */
module Mirror {
  import opened Entities
  import opened CatalogModel

  datatype V1Db = V1Db(name: Text, description: Text, retention: nat, createdAt: nat, protected: nat)

  datatype V1Group = V1Group(name: Text, database: Text, region: Text, codec: Text, retention: nat,
                             replicas: nat, createdAt: nat)

  datatype V1Stable = V1Stable(name: Text, database: Text, group: Text, cols: seq<Column>, tsCol: nat,
                               tagCols: seq<Column>, createdAt: nat)

  datatype V1Child = V1Child(name: Text, database: Text, stable: Text, tags: seq<TagVal>)

  datatype V1 = V1(dbs: seq<V1Db>, groups: seq<V1Group>, stables: seq<V1Stable>, children: seq<V1Child>)

  /** The v2 state so far, and the two counters. */
  datatype Tally = Tally(st: State, mirrored: nat, skipped: nat)

  /** A source of object ids; no id when the counter cannot be persisted. */
  type Mint = Tally -> Oid

  /** The ids are not in use. */
  ghost predicate Mints(mint: Mint) {
    forall t :: mint(t) !in t.st.nodes
  }

  ghost predicate NeverFails(mint: Mint) {
    forall t :: mint(t) != OID_NONE
  }

  // ---------------------------------------------------------------------
  // Resolving and creating

  function DbFor(s: State, db: Text): Oid {
    if db.bytes == [] || DbKey(db) !in s.names then OID_DEFAULTDB else s.names[DbKey(db)]
  }

  /** The database of that name, or the default one for a blank or unknown name. */
  ghost predicate InDb(s: State, db: Text, d: Oid) {
    if db.bytes != [] && DbKey(db) in s.names then d == s.names[DbKey(db)] else d == OID_DEFAULTDB
  }

  lemma DbForMeans(s: State, db: Text)
    ensures InDb(s, db, DbFor(s, db))
  {
  }

  function ByName(s: State, k: Key): Oid {
    if k in s.names then s.names[k] else OID_NONE
  }

  function At(now: nat, createdAt: nat): nat {
    if createdAt == 0 then now else createdAt
  }

  function DbMeta(d: V1Db, now: nat): Meta {
    Db(d.name, d.description, d.retention, At(now, d.createdAt), d.protected)
  }

  function GroupMeta(s: State, g: V1Group, now: nat): Meta {
    Group(DbFor(s, g.database), g.name, g.region, g.codec, g.retention, g.replicas, At(now, g.createdAt))
  }

  function StableMeta(s: State, x: V1Stable, now: nat): Meta {
    var d := DbFor(s, x.database);
    Table(d, if x.group.bytes == [] then OID_NONE else ByName(s, GroupKey(d, x.group)), OID_NONE, Super, x.name,
          x.cols, x.tsCol, x.tagCols, [], At(now, x.createdAt))
  }

  function ChildMeta(s: State, c: V1Child, now: nat): Meta {
    var d := DbFor(s, c.database);
    Table(d, OID_NONE, ByName(s, TableKey(d, c.stable)), Child, c.name, [], 0, [], c.tags, now)
  }

  /** The entity found under the key, or none. */
  ghost predicate Found(s: State, k: Key, o: Oid) {
    if k in s.names then o == s.names[k] else o == OID_NONE
  }

  /** What each v1 entry is turned into, whatever the catalog holds: its own fields, under the
      database, group and stable that its names lead to. */
  lemma MetasMean(s: State, d: V1Db, g: V1Group, x: V1Stable, c: V1Child, now: nat)
    ensures var m := DbMeta(d, now);
            && m.Db? && m.name == d.name && m.description == d.description && m.retention == d.retention
            && m.protected == d.protected && m.createdAt == if d.createdAt != 0 then d.createdAt else now
    ensures var m := GroupMeta(s, g, now);
            && m.Group? && InDb(s, g.database, m.db) && m.name == g.name && m.region == g.region && m.codec == g.codec
            && m.retention == g.retention && m.replicas == g.replicas
            && m.createdAt == if g.createdAt != 0 then g.createdAt else now
    ensures var m := StableMeta(s, x, now);
            && m.Table? && m.kind == Super && InDb(s, x.database, m.db) && m.parent == OID_NONE && m.name == x.name
            && (if x.group.bytes != [] then Found(s, GroupKey(m.db, x.group), m.group) else m.group == OID_NONE)
            && m.cols == x.cols && m.tsCol == x.tsCol && m.tagCols == x.tagCols && m.tagVals == []
            && m.createdAt == if x.createdAt != 0 then x.createdAt else now
    ensures var m := ChildMeta(s, c, now);
            && m.Table? && m.kind == Child && InDb(s, c.database, m.db) && m.group == OID_NONE
            && Found(s, TableKey(m.db, c.stable), m.parent) && m.name == c.name
            && m.cols == [] && m.tsCol == 0 && m.tagCols == [] && m.tagVals == c.tags && m.createdAt == now
  {
    DbForMeans(s, g.database);
    DbForMeans(s, x.database);
    DbForMeans(s, c.database);
    hide DbFor, InDb;
  }

  /** What the v2 create answers: its checks, then the minting of an id. */
  function Try(t: Tally, m: Meta, mint: Mint): Status {
    var rc := CheckCreate(t.st, m);
    if rc == Ok && mint(t) == OID_NONE then Io else rc
  }

  /** Create, and count: a success is mirrored, an existing name is neither, the rest is skipped. */
  function Add(t: Tally, m: Meta, mint: Mint): Tally {
    match Try(t, m, mint)
    case Ok => t.(st := Created(t.st, mint(t), m), mirrored := t.mirrored + 1)
    case Exists => t
    case _ => t.(skipped := t.skipped + 1)
  }

  // ---------------------------------------------------------------------
  // What every create keeps

  ghost function Live(s: State): set<Oid> {
    set o | o in s.nodes && s.nodes[o].live
  }

  /** Every name of `s` still means the same entity in `t`. */
  ghost predicate Extends(s: State, t: State) {
    forall k :: k in s.names ==>
      k in t.names && t.names[k] == s.names[k] && s.names[k] in s.nodes && s.names[k] in t.nodes
      && t.nodes[s.names[k]] == s.nodes[s.names[k]]
  }

  lemma CreatedIs(s: State, o: Oid, m: Meta)
    requires StateOk(s) && o !in s.nodes
    ensures Created(s, o, m) == State(s.nodes[o := Node(m, s.clock, true)], s.names[KeyOf(m) := o], s.clock + 1)
  {
  }

  /** The entity is there under its own name, field for field. */
  ghost predicate Holds(s: State, m: Meta) {
    KeyOf(m) in s.names && s.names[KeyOf(m)] in s.nodes && s.nodes[s.names[KeyOf(m)]].meta == m
  }

  /** A new entity under a free key beside what was there. */
  lemma AddedBeside(s: State, t: State, o: Oid, m: Meta)
    requires NamesExact(s) && KeyOf(m) !in s.names && o !in s.nodes
    requires t == State(s.nodes[o := Node(m, s.clock, true)], s.names[KeyOf(m) := o], s.clock + 1)
    ensures Extends(s, t) && Live(t) == Live(s) + {o} && o !in Live(s)
    ensures Holds(t, m) && t.names.Keys == s.names.Keys + {KeyOf(m)}
  {
    hide KeyOf;
    assert forall k :: k in s.names ==> s.names[k] in s.nodes;
    hide NamesExact;
  }

  lemma OkNames(s: State)
    ensures StateOk(s) ==> NamesExact(s)
  {
  }

  lemma CreatedMeans(s: State, o: Oid, m: Meta)
    requires StateOk(s) && CheckCreate(s, m) == Ok && o !in s.nodes && o != OID_NONE
    ensures var t := Created(s, o, m);
            && StateOk(t) && Extends(s, t) && Live(t) == Live(s) + {o} && o !in Live(s)
            && Holds(t, m) && t.names.Keys == s.names.Keys + {KeyOf(m)}
  {
    hide Created, CheckCreate, KeyOf, StateOk, NamesExact, Extends, Live, Holds, Adoptable;
    UnusedIsAdoptable(s, o, m);
    CreateKeepsStateOk(s, o, m);
    CreatedIs(s, o, m);
    OkNames(s);
    FreeKey(s, m);
    AddedBeside(s, Created(s, o, m), o, m);
  }

  lemma ExtendsSelf(s: State)
    requires StateOk(s)
    ensures Extends(s, s)
  {
  }

  lemma AddMeans(t: Tally, m: Meta, mint: Mint)
    requires StateOk(t.st) && Mints(mint)
    ensures var u, ok := Add(t, m, mint), Try(t, m, mint) == Ok;
            && StateOk(u.st) && Extends(t.st, u.st)
            && |Live(u.st)| - u.mirrored == |Live(t.st)| - t.mirrored
            && (ok ==> Holds(u.st, m) && u.st.names.Keys == t.st.names.Keys + {KeyOf(m)})
            && (ok ==> u.mirrored == t.mirrored + 1 && u.skipped == t.skipped)
            && (!ok ==> u.st == t.st && u.mirrored == t.mirrored)
            && (!ok ==> u.skipped == t.skipped + if Try(t, m, mint) == Exists then 0 else 1)
  {
    if Try(t, m, mint) == Ok {
      hide Created, CheckCreate, StateOk, Extends, Holds;
      CreatedMeans(t.st, mint(t), m);
    } else {
      ExtendsSelf(t.st);
    }
  }

  lemma ExtendsTwice(s: State, t: State, u: State)
    requires Extends(s, t) && Extends(t, u)
    ensures Extends(s, u)
  {
  }

  /** What the mirror has done since `s`. */
  ghost predicate Grew(s: State, t: Tally) {
    StateOk(t.st) && Extends(s, t.st) && |Live(t.st)| == |Live(s)| + t.mirrored
  }

  lemma Grows(s: State, t: Tally, m: Meta, mint: Mint)
    requires StateOk(s) && Grew(s, t) && Mints(mint)
    ensures Grew(s, Add(t, m, mint))
  {
    hide StateOk, Extends;
    AddMeans(t, m, mint);
    ExtendsTwice(s, t.st, Add(t, m, mint).st);
  }

  // ---------------------------------------------------------------------
  // The mirror

  function Parented(s: State, c: V1Child): bool {
    ByName(s, TableKey(DbFor(s, c.database), c.stable)) != OID_NONE
  }

  function DbsOf(t: Tally, ds: seq<V1Db>, n: nat, mint: Mint, now: nat): Tally
    requires n <= |ds|
  {
    if n == 0 then t else Add(DbsOf(t, ds, n - 1, mint, now), DbMeta(ds[n - 1], now), mint)
  }

  function GroupsOf(t: Tally, gs: seq<V1Group>, n: nat, mint: Mint, now: nat): Tally
    requires n <= |gs|
  {
    if n == 0 then t
    else var u := GroupsOf(t, gs, n - 1, mint, now); Add(u, GroupMeta(u.st, gs[n - 1], now), mint)
  }

  function StablesOf(t: Tally, xs: seq<V1Stable>, n: nat, mint: Mint, now: nat): Tally
    requires n <= |xs|
  {
    if n == 0 then t
    else var u := StablesOf(t, xs, n - 1, mint, now); Add(u, StableMeta(u.st, xs[n - 1], now), mint)
  }

  function ChildStep(u: Tally, c: V1Child, mint: Mint, now: nat): Tally {
    if Parented(u.st, c) then Add(u, ChildMeta(u.st, c, now), mint) else u.(skipped := u.skipped + 1)
  }

  /** A child whose parent is not found is skipped. */
  function ChildrenOf(t: Tally, cs: seq<V1Child>, n: nat, mint: Mint, now: nat): Tally
    requires n <= |cs|
  {
    if n == 0 then t else ChildStep(ChildrenOf(t, cs, n - 1, mint, now), cs[n - 1], mint, now)
  }

  /** The whole copy. */
  function All(s: State, v1: V1, mint: Mint, now: nat): Tally {
    var a := DbsOf(Tally(s, 0, 0), v1.dbs, |v1.dbs|, mint, now);
    var b := GroupsOf(a, v1.groups, |v1.groups|, mint, now);
    var c := StablesOf(b, v1.stables, |v1.stables|, mint, now);
    ChildrenOf(c, v1.children, |v1.children|, mint, now)
  }

  lemma GrewNone(s: State)
    requires StateOk(s)
    ensures Grew(s, Tally(s, 0, 0))
  {
    ExtendsSelf(s);
  }

  /** The databases before some one were copied, and that one was refused: it has no name, or no
      id could be minted for it. */
  ghost predicate StoppedAtDb(s: State, ds: seq<V1Db>, mint: Mint, now: nat, rc: Status, t: Tally) {
    exists i :: 0 <= i < |ds| && t == DbsOf(Tally(s, 0, 0), ds, i, mint, now)
                && (if ds[i].name.bytes == [] then rc == Inval else rc == Io && mint(t) == OID_NONE)
  }

  lemma TryDb(t: Tally, m: Meta, mint: Mint)
    requires m.Db?
    ensures Try(t, m, mint) == if m.name.bytes == [] then Inval else if KeyOf(m) in t.st.names then Exists
                               else if mint(t) == OID_NONE then Io else Ok
  {
  }

  method MirrorDbs(s: State, ds: seq<V1Db>, mint: Mint, now: nat) returns (rc: Status, t: Tally)
    requires StateOk(s) && Mints(mint)
    ensures Grew(s, t)
    ensures rc == Ok ==> t == DbsOf(Tally(s, 0, 0), ds, |ds|, mint, now)
    ensures rc == Ok ==> forall i :: 0 <= i < |ds| ==> ds[i].name.bytes != []
    ensures rc != Ok ==> StoppedAtDb(s, ds, mint, now, rc, t)
  {
    hide Grew, Add, StateOk, Mints, Try;
    t := Tally(s, 0, 0);
    GrewNone(s);
    for i := 0 to |ds|
      invariant Grew(s, t) && t == DbsOf(Tally(s, 0, 0), ds, i, mint, now)
      invariant forall j :: 0 <= j < i ==> ds[j].name.bytes != []
    {
      TryDb(t, DbMeta(ds[i], now), mint);
      rc := Try(t, DbMeta(ds[i], now), mint);
      if rc != Ok && rc != Exists {
        return;
      }
      Grows(s, t, DbMeta(ds[i], now), mint);
      t := Add(t, DbMeta(ds[i], now), mint);
    }
    rc := Ok;
  }

  method MirrorGroups(ghost s: State, t0: Tally, gs: seq<V1Group>, mint: Mint, now: nat) returns (t: Tally)
    requires StateOk(s) && Grew(s, t0) && Mints(mint)
    ensures Grew(s, t) && t == GroupsOf(t0, gs, |gs|, mint, now)
  {
    hide Grew, Add, StateOk;
    t := t0;
    for i := 0 to |gs|
      invariant Grew(s, t) && t == GroupsOf(t0, gs, i, mint, now)
    {
      Grows(s, t, GroupMeta(t.st, gs[i], now), mint);
      t := Add(t, GroupMeta(t.st, gs[i], now), mint);
    }
  }

  method MirrorStables(ghost s: State, t0: Tally, xs: seq<V1Stable>, mint: Mint, now: nat) returns (t: Tally)
    requires StateOk(s) && Grew(s, t0) && Mints(mint)
    ensures Grew(s, t) && t == StablesOf(t0, xs, |xs|, mint, now)
  {
    hide Grew, Add, StateOk;
    t := t0;
    for i := 0 to |xs|
      invariant Grew(s, t) && t == StablesOf(t0, xs, i, mint, now)
    {
      Grows(s, t, StableMeta(t.st, xs[i], now), mint);
      t := Add(t, StableMeta(t.st, xs[i], now), mint);
    }
  }

  lemma GrewSkip(s: State, t: Tally)
    requires Grew(s, t)
    ensures Grew(s, t.(skipped := t.skipped + 1))
  {
  }

  method MirrorChildren(ghost s: State, t0: Tally, cs: seq<V1Child>, mint: Mint, now: nat) returns (t: Tally)
    requires StateOk(s) && Grew(s, t0) && Mints(mint)
    ensures Grew(s, t) && t == ChildrenOf(t0, cs, |cs|, mint, now)
  {
    hide Grew, Add, StateOk;
    t := t0;
    for i := 0 to |cs|
      invariant Grew(s, t) && t == ChildrenOf(t0, cs, i, mint, now)
    {
      if Parented(t.st, cs[i]) {
        Grows(s, t, ChildMeta(t.st, cs[i], now), mint);
        t := Add(t, ChildMeta(t.st, cs[i], now), mint);
      } else {
        GrewSkip(s, t);
        t := t.(skipped := t.skipped + 1);
      }
    }
  }

  /** Any v1 lists, and a mint that may fail: the no-orphan invariant holds afterwards, nothing that
      was there changes, and the live count rises by exactly the number mirrored.  Only a database
      that cannot be created ends the copy. */
  method Mirror(s: State, v1: V1, mint: Mint, now: nat) returns (rc: Status, t: Tally)
    requires StateOk(s) && Mints(mint)
    ensures Grew(s, t)
    ensures rc == Ok ==> t == All(s, v1, mint, now) && forall i :: 0 <= i < |v1.dbs| ==> v1.dbs[i].name.bytes != []
    ensures rc != Ok ==> StoppedAtDb(s, v1.dbs, mint, now, rc, t)
  {
    hide Grew, DbsOf, GroupsOf, StablesOf, ChildrenOf, StoppedAtDb;
    rc, t := MirrorDbs(s, v1.dbs, mint, now);
    if rc == Ok {
      t := MirrorGroups(s, t, v1.groups, mint, now);
      t := MirrorStables(s, t, v1.stables, mint, now);
      t := MirrorChildren(s, t, v1.children, mint, now);
    }
  }

  // ---------------------------------------------------------------------
  // A tidy v1 catalog is mirrored completely

  /** The stable names no group, or one of its own database. */
  ghost predicate Grouped(x: V1Stable, gs: seq<V1Group>) {
    x.group.bytes == [] || exists i :: 0 <= i < |gs| && gs[i].name == x.group && gs[i].database == x.database
  }

  /** The child's stable is in the child's database and has as many tag columns as it has tags. */
  ghost predicate Rooted(c: V1Child, xs: seq<V1Stable>) {
    exists i :: 0 <= i < |xs| && xs[i].name == c.stable && xs[i].database == c.database && |xs[i].tagCols| == |c.tags|
  }

  ghost predicate TidyGroup(gs: seq<V1Group>, j: nat)
    requires j < |gs|
  {
    gs[j].name.bytes != [] && forall i :: 0 <= i < j ==> gs[i].name != gs[j].name
  }

  ghost predicate TidyStable(xs: seq<V1Stable>, j: nat, gs: seq<V1Group>)
    requires j < |xs|
  {
    xs[j].name.bytes != [] && Grouped(xs[j], gs) && forall i :: 0 <= i < j ==> xs[i].name != xs[j].name
  }

  ghost predicate TidyChild(cs: seq<V1Child>, j: nat, xs: seq<V1Stable>)
    requires j < |cs|
  {
    && cs[j].name.bytes != [] && Rooted(cs[j], xs)
    && (forall i :: 0 <= i < j ==> cs[i].name != cs[j].name)
    && (forall i :: 0 <= i < |xs| ==> xs[i].name != cs[j].name)
  }

  /** Names are present and unique, among groups and among stables and children together; the
      group of a stable and the stable of a child sit in the same database as it. */
  ghost predicate Tidy(v1: V1) {
    && (forall i :: 0 <= i < |v1.dbs| ==> v1.dbs[i].name.bytes != [])
    && (forall j :: 0 <= j < |v1.groups| ==> TidyGroup(v1.groups, j))
    && (forall j :: 0 <= j < |v1.stables| ==> TidyStable(v1.stables, j, v1.groups))
    && (forall j :: 0 <= j < |v1.children| ==> TidyChild(v1.children, j, v1.stables))
  }

  /** The default database is there under some name. */
  ghost predicate HasDefault(s: State) {
    exists k :: k in s.names && s.names[k] == OID_DEFAULTDB
  }

  /** A fresh v2 catalog: live databases only, the default one under its reserved id. */
  ghost predicate Fresh(s: State) {
    && StateOk(s) && HasDefault(s)
    && forall k :: k in s.names ==> k.DbKey?
  }

  ghost predicate SameDbs(s: State, t: State) {
    forall n :: DbKey(n) in s.names <==> DbKey(n) in t.names
  }

  ghost predicate SameGroups(s: State, t: State) {
    forall d, n :: GroupKey(d, n) in s.names <==> GroupKey(d, n) in t.names
  }

  lemma DbForLive(s: State, db: Text)
    requires StateOk(s) && HasDefault(s)
    ensures LiveIn(s.nodes, DbFor(s, db))
  {
  }

  lemma DbForSame(s: State, t: State, db: Text)
    requires Extends(s, t) && SameDbs(s, t)
    ensures DbFor(s, db) == DbFor(t, db)
  {
  }

  lemma HasDefaultStays(s: State, t: State)
    requires HasDefault(s) && Extends(s, t)
    ensures HasDefault(t)
  {
    var k :| k in s.names && s.names[k] == OID_DEFAULTDB;
    assert k in t.names;
  }

  lemma HoldsStays(s: State, t: State, m: Meta)
    requires Holds(s, m) && Extends(s, t)
    ensures Holds(t, m)
  {
  }

  // Databases

  /** No database of that name was there, or comes earlier in the list. */
  ghost predicate NewDb(s: State, ds: seq<V1Db>, i: nat)
    requires i < |ds|
  {
    DbKey(ds[i].name) !in s.names && forall j :: 0 <= j < i ==> ds[j].name != ds[i].name
  }

  ghost predicate DbsHeld(s: State, t: State, ds: seq<V1Db>, n: nat, now: nat)
    requires n <= |ds|
  {
    forall i :: 0 <= i < n && NewDb(s, ds, i) ==> Holds(t, DbMeta(ds[i], now))
  }

  lemma DbsStay(s: State, t: State, u: State, ds: seq<V1Db>, now: nat)
    requires DbsHeld(s, t, ds, |ds|, now) && Extends(t, u)
    ensures DbsHeld(s, u, ds, |ds|, now)
  {
    forall i | 0 <= i < |ds| && NewDb(s, ds, i) ensures Holds(u, DbMeta(ds[i], now)) {
      HoldsStays(t, u, DbMeta(ds[i], now));
    }
  }

  lemma DbCheck(s: State, m: Meta)
    requires m.Db? && m.name.bytes != []
    ensures CheckCreate(s, m) == if KeyOf(m) in s.names then Exists else Ok
  {
  }

  lemma NextDb(u: Tally, m: Meta, mint: Mint)
    requires Fresh(u.st) && Mints(mint) && NeverFails(mint) && m.Db? && m.name.bytes != []
    ensures var v := Add(u, m, mint);
            && Fresh(v.st) && v.skipped == u.skipped && KeyOf(m) in v.st.names && Extends(u.st, v.st)
            && v.st.names.Keys == u.st.names.Keys + {KeyOf(m)} && (KeyOf(m) !in u.st.names ==> Holds(v.st, m))
  {
    DbCheck(u.st, m);
    AddMeans(u, m, mint);
    HasDefaultStays(u.st, Add(u, m, mint).st);
    hide StateOk, CheckCreate, Created, Live;
  }

  /** The names are those before and those of the first `n` databases. */
  ghost predicate OnlyDbs(s: State, t: State, ds: seq<V1Db>, n: nat)
    requires n <= |ds|
  {
    && (forall i :: 0 <= i < n ==> DbKey(ds[i].name) in t.names)
    && (forall k :: k in t.names ==> k in s.names || exists i :: 0 <= i < n && k == DbKey(ds[i].name))
  }

  /** The databases are there, and nothing but them was added. */
  ghost predicate DbsDone(s: State, t: State, ds: seq<V1Db>, n: nat, now: nat)
    requires n <= |ds|
  {
    Extends(s, t) && DbsHeld(s, t, ds, n, now) && OnlyDbs(s, t, ds, n)
  }

  lemma NoDbsYet(s: State, ds: seq<V1Db>, now: nat)
    requires StateOk(s)
    ensures DbsDone(s, s, ds, 0, now)
  {
    ExtendsSelf(s);
  }

  lemma OnlyOneMore(s: State, t: State, u: State, ds: seq<V1Db>, n: nat)
    requires n < |ds| && OnlyDbs(s, t, ds, n) && u.names.Keys == t.names.Keys + {DbKey(ds[n].name)}
    ensures OnlyDbs(s, u, ds, n + 1)
  {
    forall k | k in u.names ensures k in s.names || exists i :: 0 <= i < n + 1 && k == DbKey(ds[i].name) {
      assert k in t.names || k == DbKey(ds[n].name);
    }
  }

  /** A name that is new to the list is still free. */
  lemma NewDbIsFree(s: State, t: State, ds: seq<V1Db>, n: nat)
    requires n < |ds| && OnlyDbs(s, t, ds, n) && NewDb(s, ds, n)
    ensures DbKey(ds[n].name) !in t.names
  {
  }

  lemma OneMoreDb(s: State, t: State, u: State, ds: seq<V1Db>, n: nat, now: nat)
    requires n < |ds| && DbsDone(s, t, ds, n, now) && Extends(t, u)
    requires u.names.Keys == t.names.Keys + {DbKey(ds[n].name)}
    requires DbKey(ds[n].name) !in t.names ==> Holds(u, DbMeta(ds[n], now))
    ensures DbsDone(s, u, ds, n + 1, now)
  {
    hide Extends, Holds, NewDb, OnlyDbs;
    ExtendsTwice(s, t, u);
    OnlyOneMore(s, t, u, ds, n);
    forall i | 0 <= i < n + 1 && NewDb(s, ds, i) ensures Holds(u, DbMeta(ds[i], now)) {
      if i < n {
        HoldsStays(t, u, DbMeta(ds[i], now));
      } else {
        NewDbIsFree(s, t, ds, n);
      }
    }
  }

  lemma {:induction false} DbsMirrored(t: Tally, ds: seq<V1Db>, n: nat, mint: Mint, now: nat)
    requires n <= |ds| && Fresh(t.st) && Mints(mint) && NeverFails(mint)
    requires forall i :: 0 <= i < n ==> ds[i].name.bytes != []
    ensures var u := DbsOf(t, ds, n, mint, now);
            Fresh(u.st) && u.skipped == t.skipped && DbsDone(t.st, u.st, ds, n, now)
  {
    hide Add, Mints, Holds, Extends, DbsDone;
    if n == 0 {
      NoDbsYet(t.st, ds, now);
    } else {
      hide Fresh;
      DbsMirrored(t, ds, n - 1, mint, now);
      var u := DbsOf(t, ds, n - 1, mint, now);
      NextDb(u, DbMeta(ds[n - 1], now), mint);
      OneMoreDb(t.st, u.st, Add(u, DbMeta(ds[n - 1], now), mint).st, ds, n - 1, now);
    }
  }

  // Groups

  /** Group keys of the index bear one of the first `n` names. */
  ghost predicate OnlyGroups(s: State, gs: seq<V1Group>, n: nat)
    requires n <= |gs|
  {
    forall d, a :: GroupKey(d, a) in s.names ==> exists i :: 0 <= i < n && gs[i].name == a
  }

  ghost predicate GroupsHeld(s: State, gs: seq<V1Group>, n: nat, now: nat)
    requires n <= |gs|
  {
    forall i :: 0 <= i < n ==> Holds(s, GroupMeta(s, gs[i], now))
  }

  ghost predicate NoTables(s: State) {
    forall k :: k in s.names ==> !k.TableKey?
  }

  /** What a create of a checked entity leaves behind. */
  ghost predicate Added(u: Tally, v: Tally, m: Meta) {
    && StateOk(v.st) && HasDefault(v.st) && Extends(u.st, v.st) && Holds(v.st, m)
    && v.st.names.Keys == u.st.names.Keys + {KeyOf(m)}
    && v.mirrored == u.mirrored + 1 && v.skipped == u.skipped
  }

  lemma AddOk(u: Tally, m: Meta, mint: Mint)
    requires StateOk(u.st) && HasDefault(u.st) && Mints(mint) && NeverFails(mint) && CheckCreate(u.st, m) == Ok
    ensures Added(u, Add(u, m, mint), m)
  {
    AddMeans(u, m, mint);
    hide StateOk, CheckCreate, Holds, Extends, Live, Add;
    HasDefaultStays(u.st, Add(u, m, mint).st);
  }

  /** The groups are there, nothing but them was added, and none was skipped. */
  ghost predicate GroupsDone(t: Tally, u: Tally, gs: seq<V1Group>, n: nat, now: nat)
    requires n <= |gs|
  {
    && StateOk(u.st) && HasDefault(u.st) && Extends(t.st, u.st) && SameDbs(t.st, u.st)
    && NoTables(u.st) && OnlyGroups(u.st, gs, n) && GroupsHeld(u.st, gs, n, now)
    && u.skipped == t.skipped && u.mirrored == t.mirrored + n
  }

  lemma NoGroupsYet(t: Tally, gs: seq<V1Group>, now: nat)
    requires Fresh(t.st)
    ensures GroupsDone(t, t, gs, 0, now)
  {
    ExtendsSelf(t.st);
    hide StateOk, HasDefault, Extends;
  }

  lemma GroupsStart(t: Tally, u: Tally, gs: seq<V1Group>, n: nat, now: nat)
    requires n <= |gs| && GroupsDone(t, u, gs, n, now)
    ensures StateOk(u.st) && HasDefault(u.st)
  {
  }

  lemma GroupCheck(t: Tally, u: Tally, gs: seq<V1Group>, n: nat, now: nat)
    requires n < |gs| && GroupsDone(t, u, gs, n, now) && TidyGroup(gs, n)
    ensures CheckCreate(u.st, GroupMeta(u.st, gs[n], now)) == Ok
  {
    DbForLive(u.st, gs[n].database);
    hide StateOk, HasDefault, Extends, SameDbs, GroupsHeld, NoTables;
  }

  lemma NextGroup(t: Tally, u: Tally, v: Tally, gs: seq<V1Group>, n: nat, now: nat)
    requires n < |gs| && GroupsDone(t, u, gs, n, now) && Added(u, v, GroupMeta(u.st, gs[n], now))
    ensures GroupsDone(t, v, gs, n + 1, now)
  {
    hide StateOk, Holds, HasDefault;
    ExtendsTwice(t.st, u.st, v.st);
    hide Extends;
    forall i | 0 <= i < n + 1 ensures Holds(v.st, GroupMeta(v.st, gs[i], now)) {
      DbForSame(u.st, v.st, gs[i].database);
      if i < n {
        HoldsStays(u.st, v.st, GroupMeta(u.st, gs[i], now));
      }
    }
  }

  lemma {:induction false} GroupsMirrored(t: Tally, gs: seq<V1Group>, n: nat, mint: Mint, now: nat)
    requires n <= |gs| && Fresh(t.st) && Mints(mint) && NeverFails(mint) && forall j :: 0 <= j < n ==> TidyGroup(gs, j)
    ensures GroupsDone(t, GroupsOf(t, gs, n, mint, now), gs, n, now)
  {
    hide GroupsDone, Add, Added, Fresh, TidyGroup, Mints, NeverFails, CheckCreate, GroupMeta, StateOk, HasDefault;
    if n == 0 {
      NoGroupsYet(t, gs, now);
    } else {
      GroupsMirrored(t, gs, n - 1, mint, now);
      var u := GroupsOf(t, gs, n - 1, mint, now);
      GroupCheck(t, u, gs, n - 1, now);
      GroupsStart(t, u, gs, n - 1, now);
      AddOk(u, GroupMeta(u.st, gs[n - 1], now), mint);
      NextGroup(t, u, Add(u, GroupMeta(u.st, gs[n - 1], now), mint), gs, n - 1, now);
    }
  }

  // Stables

  /** Table keys of the index bear one of the first `n` names. */
  ghost predicate OnlyStables(s: State, xs: seq<V1Stable>, n: nat)
    requires n <= |xs|
  {
    forall d, a :: TableKey(d, a) in s.names ==> exists i :: 0 <= i < n && xs[i].name == a
  }

  ghost predicate StablesHeld(s: State, xs: seq<V1Stable>, n: nat, now: nat)
    requires n <= |xs|
  {
    forall i :: 0 <= i < n ==> Holds(s, StableMeta(s, xs[i], now))
  }

  ghost predicate StablesDone(t: Tally, u: Tally, xs: seq<V1Stable>, n: nat, now: nat)
    requires n <= |xs|
  {
    && StateOk(u.st) && HasDefault(u.st) && Extends(t.st, u.st) && SameDbs(t.st, u.st) && SameGroups(t.st, u.st)
    && OnlyStables(u.st, xs, n) && StablesHeld(u.st, xs, n, now)
    && u.skipped == t.skipped && u.mirrored == t.mirrored + n
  }

  lemma NoStablesYet(t: Tally, xs: seq<V1Stable>, now: nat)
    requires StateOk(t.st) && HasDefault(t.st) && NoTables(t.st)
    ensures StablesDone(t, t, xs, 0, now)
  {
    ExtendsSelf(t.st);
    hide StateOk, HasDefault, Extends;
  }

  /** A stable's group, if it names one, is live. */
  lemma GroupFound(t: State, u: State, gs: seq<V1Group>, x: V1Stable, now: nat)
    requires StateOk(u) && Extends(t, u) && SameDbs(t, u) && GroupsHeld(t, gs, |gs|, now) && Grouped(x, gs)
    ensures x.group.bytes == [] || LiveIn(u.nodes, StableMeta(u, x, now).group)
  {
    if x.group.bytes != [] {
      var i :| 0 <= i < |gs| && gs[i].name == x.group && gs[i].database == x.database;
      DbForSame(t, u, x.database);
      assert Holds(t, GroupMeta(t, gs[i], now));
      assert GroupKey(DbFor(u, x.database), x.group) in u.names;
    }
  }

  lemma StableCheck(t: Tally, u: Tally, gs: seq<V1Group>, xs: seq<V1Stable>, n: nat, now: nat)
    requires n < |xs| && StablesDone(t, u, xs, n, now) && GroupsHeld(t.st, gs, |gs|, now) && TidyStable(xs, n, gs)
    ensures StateOk(u.st) && HasDefault(u.st) && CheckCreate(u.st, StableMeta(u.st, xs[n], now)) == Ok
  {
    DbForLive(u.st, xs[n].database);
    GroupFound(t.st, u.st, gs, xs[n], now);
    hide StateOk, HasDefault, Extends, SameDbs, SameGroups, GroupsHeld, StablesHeld, Grouped;
  }

  lemma StableMetaSame(s: State, t: State, x: V1Stable, now: nat)
    requires Extends(s, t) && SameDbs(s, t) && SameGroups(s, t)
    ensures StableMeta(s, x, now) == StableMeta(t, x, now)
  {
    DbForSame(s, t, x.database);
  }

  lemma NextStable(t: Tally, u: Tally, v: Tally, xs: seq<V1Stable>, n: nat, now: nat)
    requires n < |xs| && StablesDone(t, u, xs, n, now) && Added(u, v, StableMeta(u.st, xs[n], now))
    ensures StablesDone(t, v, xs, n + 1, now)
  {
    hide StateOk, Holds, HasDefault;
    ExtendsTwice(t.st, u.st, v.st);
    hide Extends;
    forall i | 0 <= i < n + 1 ensures Holds(v.st, StableMeta(v.st, xs[i], now)) {
      StableMetaSame(u.st, v.st, xs[i], now);
      if i < n {
        HoldsStays(u.st, v.st, StableMeta(u.st, xs[i], now));
      }
    }
  }

  lemma {:induction false} StablesMirrored(t: Tally, gs: seq<V1Group>, xs: seq<V1Stable>, n: nat, mint: Mint, now: nat)
    requires n <= |xs| && StateOk(t.st) && HasDefault(t.st) && NoTables(t.st) && GroupsHeld(t.st, gs, |gs|, now)
    requires Mints(mint) && NeverFails(mint) && forall j :: 0 <= j < n ==> TidyStable(xs, j, gs)
    ensures StablesDone(t, StablesOf(t, xs, n, mint, now), xs, n, now)
  {
    hide StablesDone, Add, Added, StateOk, HasDefault, NoTables, GroupsHeld, TidyStable, Mints, NeverFails,
         CheckCreate, StableMeta;
    if n == 0 {
      NoStablesYet(t, xs, now);
    } else {
      StablesMirrored(t, gs, xs, n - 1, mint, now);
      var u := StablesOf(t, xs, n - 1, mint, now);
      StableCheck(t, u, gs, xs, n - 1, now);
      AddOk(u, StableMeta(u.st, xs[n - 1], now), mint);
      NextStable(t, u, Add(u, StableMeta(u.st, xs[n - 1], now), mint), xs, n - 1, now);
    }
  }

  // Children

  /** Table keys of the index bear the name of a stable or of one of the first `n` children. */
  ghost predicate OnlyTables(s: State, xs: seq<V1Stable>, cs: seq<V1Child>, n: nat)
    requires n <= |cs|
  {
    forall d, a :: TableKey(d, a) in s.names ==>
      (exists i :: 0 <= i < |xs| && xs[i].name == a) || (exists i :: 0 <= i < n && cs[i].name == a)
  }

  /** A child is there under its stable, with its tag values. */
  ghost predicate ChildHeld(s: State, c: V1Child, now: nat) {
    && Holds(s, ChildMeta(s, c, now))
    && TableKey(DbFor(s, c.database), c.stable) in s.names
  }

  ghost predicate ChildrenHeld(s: State, cs: seq<V1Child>, n: nat, now: nat)
    requires n <= |cs|
  {
    forall i :: 0 <= i < n ==> ChildHeld(s, cs[i], now)
  }

  ghost predicate ChildrenDone(t: Tally, u: Tally, xs: seq<V1Stable>, cs: seq<V1Child>, n: nat, now: nat)
    requires n <= |cs|
  {
    && StateOk(u.st) && HasDefault(u.st) && Extends(t.st, u.st) && SameDbs(t.st, u.st) && SameGroups(t.st, u.st)
    && OnlyTables(u.st, xs, cs, n) && ChildrenHeld(u.st, cs, n, now)
    && u.skipped == t.skipped && u.mirrored == t.mirrored + n
  }

  lemma NoChildrenYet(t: Tally, xs: seq<V1Stable>, cs: seq<V1Child>, now: nat)
    requires StateOk(t.st) && HasDefault(t.st) && OnlyStables(t.st, xs, |xs|)
    ensures ChildrenDone(t, t, xs, cs, 0, now)
  {
    ExtendsSelf(t.st);
    hide StateOk, HasDefault, Extends;
  }

  /** A child's stable is live, a super table, and has the right number of tag columns. */
  lemma StableFound(t: State, u: State, xs: seq<V1Stable>, c: V1Child, now: nat)
    requires StateOk(u) && Extends(t, u) && SameDbs(t, u) && StablesHeld(t, xs, |xs|, now) && Rooted(c, xs)
    ensures var k := TableKey(DbFor(u, c.database), c.stable);
            && k in u.names && LiveIn(u.nodes, u.names[k]) && u.names[k] != OID_NONE
            && var p := u.nodes[u.names[k]].meta; p.Table? && p.kind == Super && |p.tagCols| == |c.tags|
  {
    var i :| 0 <= i < |xs| && xs[i].name == c.stable && xs[i].database == c.database && |xs[i].tagCols| == |c.tags|;
    DbForSame(t, u, c.database);
    assert Holds(t, StableMeta(t, xs[i], now));
    assert t.names[KeyOf(StableMeta(t, xs[i], now))] in u.nodes;
  }

  /** No table bears the name of the next child. */
  lemma ChildNameFree(u: State, xs: seq<V1Stable>, cs: seq<V1Child>, n: nat, d: Oid)
    requires n < |cs| && OnlyTables(u, xs, cs, n) && TidyChild(cs, n, xs)
    ensures TableKey(d, cs[n].name) !in u.names
  {
    hide Rooted;
  }

  lemma ChildChecks(u: State, c: V1Child, now: nat)
    requires LiveIn(u.nodes, DbFor(u, c.database)) && c.name.bytes != []
    requires var k := TableKey(DbFor(u, c.database), c.stable);
             && k in u.names && LiveIn(u.nodes, u.names[k]) && u.names[k] != OID_NONE
             && var p := u.nodes[u.names[k]].meta; p.Table? && p.kind == Super && |p.tagCols| == |c.tags|
    requires TableKey(DbFor(u, c.database), c.name) !in u.names
    ensures Parented(u, c) && CheckCreate(u, ChildMeta(u, c, now)) == Ok
  {
    hide DbFor;
  }

  lemma ChildCheck(t: Tally, u: Tally, xs: seq<V1Stable>, cs: seq<V1Child>, n: nat, now: nat)
    requires n < |cs| && ChildrenDone(t, u, xs, cs, n, now) && StablesHeld(t.st, xs, |xs|, now) && TidyChild(cs, n, xs)
    ensures StateOk(u.st) && HasDefault(u.st) && Parented(u.st, cs[n])
    ensures CheckCreate(u.st, ChildMeta(u.st, cs[n], now)) == Ok
  {
    hide StateOk, HasDefault, Extends, SameDbs, SameGroups, StablesHeld, ChildrenHeld, OnlyTables, Rooted, DbFor,
         CheckCreate, Parented;
    var c := cs[n];
    DbForLive(u.st, c.database);
    StableFound(t.st, u.st, xs, c, now);
    ChildNameFree(u.st, xs, cs, n, DbFor(u.st, c.database));
    ChildChecks(u.st, c, now);
  }

  lemma ChildStays(s: State, t: State, c: V1Child, now: nat)
    requires ChildHeld(s, c, now) && Extends(s, t) && SameDbs(s, t)
    ensures ChildHeld(t, c, now)
  {
    DbForSame(s, t, c.database);
    HoldsStays(s, t, ChildMeta(s, c, now));
  }

  lemma NewChildHeld(u: Tally, v: Tally, c: V1Child, now: nat)
    requires Added(u, v, ChildMeta(u.st, c, now)) && TableKey(DbFor(u.st, c.database), c.stable) in u.st.names
    ensures ChildHeld(v.st, c, now) && SameDbs(u.st, v.st)
  {
    hide StateOk, HasDefault, Holds;
    DbForSame(u.st, v.st, c.database);
  }

  lemma OnlyTablesNext(u: State, v: State, xs: seq<V1Stable>, cs: seq<V1Child>, n: nat, d: Oid)
    requires n < |cs| && OnlyTables(u, xs, cs, n) && v.names.Keys == u.names.Keys + {TableKey(d, cs[n].name)}
    ensures OnlyTables(v, xs, cs, n + 1)
  {
    forall e, a | TableKey(e, a) in v.names
      ensures (exists i :: 0 <= i < |xs| && xs[i].name == a) || (exists i :: 0 <= i < n + 1 && cs[i].name == a)
    {
      assert TableKey(e, a) in u.names || a == cs[n].name;
    }
  }

  /** A new table leaves the keys of databases and groups alone. */
  lemma SameBesideTable(t: State, u: State, v: State, k: Key)
    requires SameDbs(t, u) && SameGroups(t, u) && k.TableKey? && v.names.Keys == u.names.Keys + {k}
    ensures SameDbs(t, v) && SameGroups(t, v) && SameDbs(u, v)
  {
  }

  lemma NextChild(t: Tally, u: Tally, v: Tally, xs: seq<V1Stable>, cs: seq<V1Child>, n: nat, now: nat)
    requires n < |cs| && ChildrenDone(t, u, xs, cs, n, now) && Added(u, v, ChildMeta(u.st, cs[n], now))
    requires TableKey(DbFor(u.st, cs[n].database), cs[n].stable) in u.st.names
    ensures ChildrenDone(t, v, xs, cs, n + 1, now)
  {
    hide StateOk, HasDefault, OnlyTables, SameDbs, SameGroups, Extends, ChildHeld, Holds, DbFor;
    var m := ChildMeta(u.st, cs[n], now);
    ExtendsTwice(t.st, u.st, v.st);
    NewChildHeld(u, v, cs[n], now);
    SameBesideTable(t.st, u.st, v.st, KeyOf(m));
    OnlyTablesNext(u.st, v.st, xs, cs, n, m.db);
    forall i | 0 <= i < n + 1 ensures ChildHeld(v.st, cs[i], now) {
      if i < n {
        ChildStays(u.st, v.st, cs[i], now);
      }
    }
  }

  lemma {:induction false} ChildrenMirrored(t: Tally, xs: seq<V1Stable>, cs: seq<V1Child>, n: nat, mint: Mint, now: nat)
    requires n <= |cs| && StateOk(t.st) && HasDefault(t.st)
    requires OnlyStables(t.st, xs, |xs|) && StablesHeld(t.st, xs, |xs|, now)
    requires Mints(mint) && NeverFails(mint) && forall j :: 0 <= j < n ==> TidyChild(cs, j, xs)
    ensures ChildrenDone(t, ChildrenOf(t, cs, n, mint, now), xs, cs, n, now)
  {
    hide ChildrenDone, Add, Added, StateOk, HasDefault, OnlyStables, StablesHeld, TidyChild, Mints, NeverFails,
         CheckCreate, ChildMeta;
    if n == 0 {
      NoChildrenYet(t, xs, cs, now);
    } else {
      ChildrenMirrored(t, xs, cs, n - 1, mint, now);
      var u := ChildrenOf(t, cs, n - 1, mint, now);
      ChildCheck(t, u, xs, cs, n - 1, now);
      AddOk(u, ChildMeta(u.st, cs[n - 1], now), mint);
      NextChild(t, u, Add(u, ChildMeta(u.st, cs[n - 1], now), mint), xs, cs, n - 1, now);
    }
  }

  lemma GroupsStay(s: State, t: State, gs: seq<V1Group>, now: nat)
    requires GroupsHeld(s, gs, |gs|, now) && Extends(s, t) && SameDbs(s, t)
    ensures GroupsHeld(t, gs, |gs|, now)
  {
    forall i | 0 <= i < |gs| ensures Holds(t, GroupMeta(t, gs[i], now)) {
      DbForSame(s, t, gs[i].database);
      HoldsStays(s, t, GroupMeta(s, gs[i], now));
    }
  }

  lemma StablesStay(s: State, t: State, xs: seq<V1Stable>, now: nat)
    requires StablesHeld(s, xs, |xs|, now) && Extends(s, t) && SameDbs(s, t) && SameGroups(s, t)
    ensures StablesHeld(t, xs, |xs|, now)
  {
    forall i | 0 <= i < |xs| ensures Holds(t, StableMeta(t, xs[i], now)) {
      StableMetaSame(s, t, xs[i], now);
      HoldsStays(s, t, StableMeta(s, xs[i], now));
    }
  }

  /** Mirroring a tidy v1 catalog into a fresh v2 catalog skips nothing, and every new database and
      every group, stable and child is there afterwards under the parents it had, field for field. */
  lemma TidyIsMirrored(s: State, v1: V1, mint: Mint, now: nat)
    requires Fresh(s) && Mints(mint) && NeverFails(mint) && Tidy(v1)
    ensures var a := DbsOf(Tally(s, 0, 0), v1.dbs, |v1.dbs|, mint, now);
            var b := GroupsOf(a, v1.groups, |v1.groups|, mint, now);
            var c := StablesOf(b, v1.stables, |v1.stables|, mint, now);
            var d := ChildrenOf(c, v1.children, |v1.children|, mint, now);
            && d == All(s, v1, mint, now) && d.skipped == 0 && StateOk(d.st)
            && d.mirrored == a.mirrored + |v1.groups| + |v1.stables| + |v1.children|
            && (forall i :: 0 <= i < |v1.dbs| ==> DbKey(v1.dbs[i].name) in d.st.names)
            && Extends(s, d.st) && DbsHeld(s, d.st, v1.dbs, |v1.dbs|, now)
            && GroupsHeld(d.st, v1.groups, |v1.groups|, now)
            && StablesHeld(d.st, v1.stables, |v1.stables|, now)
            && ChildrenHeld(d.st, v1.children, |v1.children|, now)
  {
    hide DbsOf, GroupsOf, StablesOf, ChildrenOf, Mints, NeverFails, Holds, Fresh, StateOk;
    var a := DbsOf(Tally(s, 0, 0), v1.dbs, |v1.dbs|, mint, now);
    DbsMirrored(Tally(s, 0, 0), v1.dbs, |v1.dbs|, mint, now);
    GroupsMirrored(a, v1.groups, |v1.groups|, mint, now);
    var b := GroupsOf(a, v1.groups, |v1.groups|, mint, now);
    StablesMirrored(b, v1.groups, v1.stables, |v1.stables|, mint, now);
    var c := StablesOf(b, v1.stables, |v1.stables|, mint, now);
    ChildrenMirrored(c, v1.stables, v1.children, |v1.children|, mint, now);
    var d := ChildrenOf(c, v1.children, |v1.children|, mint, now);
    GroupsStay(b.st, c.st, v1.groups, now);
    GroupsStay(c.st, d.st, v1.groups, now);
    StablesStay(c.st, d.st, v1.stables, now);
    ExtendsTwice(a.st, b.st, c.st);
    ExtendsTwice(a.st, c.st, d.st);
    ExtendsTwice(s, a.st, d.st);
    DbsStay(s, a.st, d.st, v1.dbs, now);
  }

  // What the copies hold, field by field

  /** The entity under the key is live and its fields are these. */
  ghost predicate LiveAt(s: State, k: Key) {
    k in s.names && s.names[k] in s.nodes && s.nodes[s.names[k]].live
  }

  ghost predicate DbCopied(s: State, d: V1Db, now: nat) {
    LiveAt(s, DbKey(d.name)) &&
    var m := s.nodes[s.names[DbKey(d.name)]].meta;
    && m.Db? && m.name == d.name && m.description == d.description && m.retention == d.retention
    && m.protected == d.protected && m.createdAt == if d.createdAt != 0 then d.createdAt else now
  }

  ghost predicate GroupCopied(s: State, g: V1Group, now: nat) {
    exists d :: InDb(s, g.database, d) && LiveAt(s, GroupKey(d, g.name)) &&
                var m := s.nodes[s.names[GroupKey(d, g.name)]].meta;
                && m.Group? && m.db == d && m.name == g.name && m.region == g.region && m.codec == g.codec
                && m.retention == g.retention && m.replicas == g.replicas
                && m.createdAt == if g.createdAt != 0 then g.createdAt else now
  }

  ghost predicate StableCopied(s: State, x: V1Stable, now: nat) {
    exists d :: InDb(s, x.database, d) && LiveAt(s, TableKey(d, x.name)) &&
                var m := s.nodes[s.names[TableKey(d, x.name)]].meta;
                && m.Table? && m.kind == Super && m.db == d && m.parent == OID_NONE && m.name == x.name
                && m.cols == x.cols && m.tsCol == x.tsCol && m.tagCols == x.tagCols && m.tagVals == []
                && (x.group.bytes == [] ==> m.group == OID_NONE)
                && (x.group.bytes != [] ==> LiveAt(s, GroupKey(d, x.group)) && m.group == s.names[GroupKey(d, x.group)])
                && m.createdAt == if x.createdAt != 0 then x.createdAt else now
  }

  ghost predicate ChildCopied(s: State, c: V1Child, now: nat) {
    exists d :: InDb(s, c.database, d) && LiveAt(s, TableKey(d, c.name)) && LiveAt(s, TableKey(d, c.stable)) &&
                var m := s.nodes[s.names[TableKey(d, c.name)]].meta;
                && m.Table? && m.kind == Child && m.db == d && m.group == OID_NONE
                && m.parent == s.names[TableKey(d, c.stable)] && m.name == c.name
                && m.cols == [] && m.tagCols == [] && m.tagVals == c.tags && m.createdAt == now
  }

  lemma NamedIsLiveAt(s: State, k: Key)
    requires StateOk(s) && k in s.names
    ensures LiveAt(s, k)
  {
  }

  lemma GroupHeldIsCopied(s: State, g: V1Group, now: nat)
    requires StateOk(s) && Holds(s, GroupMeta(s, g, now))
    ensures GroupCopied(s, g, now)
  {
    DbForMeans(s, g.database);
    var d := DbFor(s, g.database);
    NamedIsLiveAt(s, GroupKey(d, g.name));
    hide StateOk, InDb, DbFor, LiveAt;
    assert InDb(s, g.database, d);
  }

  lemma StableHeldIsCopied(s: State, gs: seq<V1Group>, x: V1Stable, now: nat)
    requires StateOk(s) && Holds(s, StableMeta(s, x, now)) && GroupsHeld(s, gs, |gs|, now) && Grouped(x, gs)
    ensures StableCopied(s, x, now)
  {
    DbForMeans(s, x.database);
    var d := DbFor(s, x.database);
    NamedIsLiveAt(s, TableKey(d, x.name));
    if x.group.bytes != [] {
      var i :| 0 <= i < |gs| && gs[i].name == x.group && gs[i].database == x.database;
      assert Holds(s, GroupMeta(s, gs[i], now));
      NamedIsLiveAt(s, GroupKey(d, x.group));
    }
    hide StateOk, InDb, DbFor, LiveAt, GroupsHeld;
    assert InDb(s, x.database, d);
  }

  lemma ChildHeldIsCopied(s: State, c: V1Child, now: nat)
    requires StateOk(s) && ChildHeld(s, c, now)
    ensures ChildCopied(s, c, now)
  {
    DbForMeans(s, c.database);
    var d := DbFor(s, c.database);
    NamedIsLiveAt(s, TableKey(d, c.name));
    NamedIsLiveAt(s, TableKey(d, c.stable));
    hide StateOk, InDb, DbFor, LiveAt;
    assert InDb(s, c.database, d);
  }

  /** What a tidy catalog is mirrored to is a copy, field by field, under the parents it had. */
  lemma HeldIsCopied(s0: State, s: State, v1: V1, now: nat)
    requires StateOk(s) && Tidy(v1) && DbsHeld(s0, s, v1.dbs, |v1.dbs|, now)
    requires GroupsHeld(s, v1.groups, |v1.groups|, now) && StablesHeld(s, v1.stables, |v1.stables|, now)
    requires ChildrenHeld(s, v1.children, |v1.children|, now)
    ensures forall i :: 0 <= i < |v1.dbs| && NewDb(s0, v1.dbs, i) ==> DbCopied(s, v1.dbs[i], now)
    ensures forall i :: 0 <= i < |v1.groups| ==> GroupCopied(s, v1.groups[i], now)
    ensures forall i :: 0 <= i < |v1.stables| ==> StableCopied(s, v1.stables[i], now)
    ensures forall i :: 0 <= i < |v1.children| ==> ChildCopied(s, v1.children[i], now)
  {
    hide StateOk, GroupCopied, StableCopied, ChildCopied, NewDb, Grouped, Rooted;
    forall i | 0 <= i < |v1.dbs| && NewDb(s0, v1.dbs, i) ensures DbCopied(s, v1.dbs[i], now) {
      assert Holds(s, DbMeta(v1.dbs[i], now));
      NamedIsLiveAt(s, DbKey(v1.dbs[i].name));
    }
    hide Holds;
    forall i | 0 <= i < |v1.groups| ensures GroupCopied(s, v1.groups[i], now) {
      GroupHeldIsCopied(s, v1.groups[i], now);
    }
    forall i | 0 <= i < |v1.stables| ensures StableCopied(s, v1.stables[i], now) {
      assert TidyStable(v1.stables, i, v1.groups);
      StableHeldIsCopied(s, v1.groups, v1.stables[i], now);
    }
    forall i | 0 <= i < |v1.children| ensures ChildCopied(s, v1.children[i], now) {
      ChildHeldIsCopied(s, v1.children[i], now);
    }
  }

  /** Mirroring a tidy v1 catalog into a fresh v2 catalog skips nothing and copies everything: each
      database whose name is new, and each group, stable and child. */
  lemma TidyIsCopied(s: State, v1: V1, mint: Mint, now: nat)
    requires Fresh(s) && Mints(mint) && NeverFails(mint) && Tidy(v1)
    ensures var t := All(s, v1, mint, now);
            && t.skipped == 0 && Extends(s, t.st)
            && (forall i :: 0 <= i < |v1.dbs| && NewDb(s, v1.dbs, i) ==> DbCopied(t.st, v1.dbs[i], now))
            && (forall i :: 0 <= i < |v1.groups| ==> GroupCopied(t.st, v1.groups[i], now))
            && (forall i :: 0 <= i < |v1.stables| ==> StableCopied(t.st, v1.stables[i], now))
            && (forall i :: 0 <= i < |v1.children| ==> ChildCopied(t.st, v1.children[i], now))
  {
    hide All, Fresh, Mints, NeverFails, Tidy, StateOk, Extends, DbsHeld, GroupsHeld, StablesHeld, ChildrenHeld, NewDb,
         DbCopied, GroupCopied, StableCopied, ChildCopied;
    TidyIsMirrored(s, v1, mint, now);
    HeldIsCopied(s, All(s, v1, mint, now).st, v1, now);
  }

  // ---------------------------------------------------------------------
  // Children that are skipped

  /** The child's stable is found by name in the child's own database, or in the default one when
      it names none, and takes as many tags. */
  ghost predicate Placed(s: State, c: V1Child) {
    var k := TableKey(DbFor(s, c.database), c.stable);
    && c.name.bytes != [] && k in s.names && LiveIn(s.nodes, s.names[k])
    && var p := s.nodes[s.names[k]].meta; p.Table? && p.kind == Super && |p.tagCols| == |c.tags|
  }

  lemma NamedIsLive(s: State, k: Key)
    requires StateOk(s)
    ensures k in s.names ==> LiveIn(s.nodes, s.names[k]) && s.names[k] != OID_NONE
  {
  }

  /** A child is skipped if and only if its stable is not found so, or no id can be minted for a name
      that is free. */
  lemma ChildSkippedExactly(u: Tally, c: V1Child, mint: Mint, now: nat)
    requires StateOk(u.st) && HasDefault(u.st)
    ensures var v := ChildStep(u, c, mint, now);
            v.skipped == u.skipped + 1
            <==> !Placed(u.st, c) || (TableKey(DbFor(u.st, c.database), c.name) !in u.st.names && mint(u) == OID_NONE)
  {
    DbForLive(u.st, c.database);
    NamedIsLive(u.st, TableKey(DbFor(u.st, c.database), c.stable));
    hide StateOk, HasDefault, Created;
  }

  /** A child that leaves its database blank, to inherit its stable's, is looked up in the default
      database, and skipped although its stable was mirrored. */
  lemma InheritedDatabaseIsSkipped(s: State, x: V1Stable, c: V1Child, mint: Mint, now: nat)
    requires Fresh(s) && Mints(mint) && NeverFails(mint) && x.name.bytes != [] && x.group.bytes == []
    requires DbFor(s, x.database) != OID_DEFAULTDB
    requires c.database.bytes == [] && c.stable == x.name && |c.tags| == |x.tagCols|
    ensures var u := Add(Tally(s, 0, 0), StableMeta(s, x, now), mint);
            var v := ChildStep(u, c, mint, now);
            u.mirrored == 1 && u.skipped == 0 && v.st == u.st && v.mirrored == 1 && v.skipped == 1
  {
    var t, m := Tally(s, 0, 0), StableMeta(s, x, now);
    DbForLive(s, x.database);
    assert CheckCreate(s, m) == Ok by { hide StateOk, HasDefault; }
    AddOk(t, m, mint);
    hide Created, CheckCreate, StateOk, HasDefault, Live;
    var u := Add(t, m, mint);
    assert TableKey(OID_DEFAULTDB, x.name) !in u.st.names;
  }

  const DEFAULT_NAME := Text([100, 101, 102, 97, 117, 108, 116])
  const SYSTEM_NAME := Text([115, 121, 115, 100, 98])

  /** The database a fresh catalog creates under a reserved id. */
  function Reserved(name: Text, now: nat): Meta {
    Db(name, Text([]), 0, now, 1)
  }

  /** An empty v2 catalog, opened: its two reserved databases are created. */
  function Opened(now: nat): State {
    Created(Created(INIT, OID_DEFAULTDB, Reserved(DEFAULT_NAME, now)), OID_SYSDB, Reserved(SYSTEM_NAME, now))
  }

  lemma EmptyIsOk()
    ensures StateOk(INIT)
  {
    EmptyCatalogOk();
  }

  lemma ReservedDiffer()
    ensures DEFAULT_NAME != SYSTEM_NAME && DEFAULT_NAME.bytes != [] && SYSTEM_NAME.bytes != []
  {
    assert DEFAULT_NAME.bytes[0] != SYSTEM_NAME.bytes[0];
  }

  /** An opened empty catalog is fresh: it holds `default` as entity 1 and `sysdb` as entity 2, both
      protected, and nothing else. */
  lemma OpenedIsFresh(now: nat)
    ensures var s := Opened(now);
            && Fresh(s) && s.nodes.Keys == {1, 2}
            && s.nodes[1] == Node(Db(DEFAULT_NAME, Text([]), 0, now, 1), 1, true)
            && s.nodes[2] == Node(Db(SYSTEM_NAME, Text([]), 0, now, 1), 2, true)
  {
    hide StateOk, CheckCreate, Created, Live, Holds, Extends;
    EmptyIsOk();
    ReservedDiffer();
    var a, b := Reserved(DEFAULT_NAME, now), Reserved(SYSTEM_NAME, now);
    var s1 := Created(INIT, OID_DEFAULTDB, a);
    DbCheck(INIT, a);
    CreatedMeans(INIT, OID_DEFAULTDB, a);
    CreatedIs(INIT, OID_DEFAULTDB, a);
    DbCheck(s1, b);
    CreatedMeans(s1, OID_SYSDB, b);
    CreatedIs(s1, OID_SYSDB, b);
    assert DbKey(DEFAULT_NAME) in s1.names;
  }
}
