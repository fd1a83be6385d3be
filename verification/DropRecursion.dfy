/**
 The recursion of the v2 catalog's cascading drop (`drop_subtree_locked` in
 src/catalog/catalog_v2.c) on any nodes at all, with a bound on its depth: it lists an
 entity's live children, drops them one after the other, and then marks the entity.  In a
 forest it ends (`CatalogV2.Catalog.Drop`); here it is said exactly which creates under an
 object id already in use leave it ending.
 */
module DropRecursion {
  import opened Basics
  import opened Entities
  import opened CatalogModel
  import opened Cascade
  import opened CatalogLimits

  /** In whatever order the bucket scan lists the live children of an entity. */
  ghost predicate ListsKids(f: (Nodes, Oid) -> seq<Oid>) {
    forall nodes: Nodes, t: Oid :: Kids(nodes, t, f(nodes, t))
  }

  ghost function Marked(nodes: Nodes, o: Oid): Nodes {
    if o in nodes then nodes[o := nodes[o].(live := false)] else nodes
  }

  /** Drop `o` with at most `depth` calls nested in each other; nothing if that is not enough.
      The stamp of a tombstone is left out: the recursion does not look at it. */
  ghost function DropIn(f: (Nodes, Oid) -> seq<Oid>, nodes: Nodes, o: Oid, depth: nat): Option<Nodes>
    decreases depth, 0, 0
  {
    if !LiveIn(nodes, o) then Some(nodes)
    else if depth == 0 then None
    else match DropEach(f, nodes, f(nodes, o), depth - 1)
      case None => None
      case Some(left) => Some(Marked(left, o))
  }

  ghost function DropEach(f: (Nodes, Oid) -> seq<Oid>, nodes: Nodes, kids: seq<Oid>, depth: nat): Option<Nodes>
    decreases depth, 1, |kids|
  {
    if kids == [] then Some(nodes)
    else match DropIn(f, nodes, kids[0], depth)
      case None => None
      case Some(left) => DropEach(f, left, kids[1..], depth)
  }

  // ---------------------------------------------------------------------
  // What a drop that ends has taken

  /** `x` is live and climbs, through live entities, to one of `ts` within `k` steps. */
  ghost predicate Up(nodes: Nodes, x: Oid, ts: set<Oid>, k: nat)
    decreases k
  {
    LiveIn(nodes, x) && (x in ts || (k > 0 && Up(nodes, CascadeParent(nodes[x].meta), ts, k - 1)))
  }

  /** `x` hangs off one of `ts`; stamps do not come into it. */
  ghost predicate Leads(nodes: Nodes, x: Oid, ts: set<Oid>) {
    exists k: nat :: Up(nodes, x, ts, k)
  }

  /** Exactly what hangs off `ts` is marked, and nothing else changed. */
  ghost predicate Took(n0: Nodes, n1: Nodes, ts: set<Oid>) {
    && n1.Keys == n0.Keys
    && forall x :: x in n0 ==> n1[x] == if Leads(n0, x, ts) then n0[x].(live := false) else n0[x]
  }

  lemma {:induction false} UpEither(nodes: Nodes, x: Oid, a: set<Oid>, b: set<Oid>, k: nat)
    ensures Up(nodes, x, a + b, k) <==> Up(nodes, x, a, k) || Up(nodes, x, b, k)
    decreases k
  {
    if LiveIn(nodes, x) && k > 0 {
      UpEither(nodes, CascadeParent(nodes[x].meta), a, b, k - 1);
    }
  }

  lemma LeadsEither(nodes: Nodes, x: Oid, a: set<Oid>, b: set<Oid>)
    ensures Leads(nodes, x, a + b) <==> Leads(nodes, x, a) || Leads(nodes, x, b)
  {
    forall k: nat { UpEither(nodes, x, a, b, k); }
    if Leads(nodes, x, a) {
      var k: nat :| Up(nodes, x, a, k);
      assert Up(nodes, x, a + b, k);
    }
    if Leads(nodes, x, b) {
      var k: nat :| Up(nodes, x, b, k);
      assert Up(nodes, x, a + b, k);
    }
  }

  /** One step down from where a climb ends. */
  lemma {:induction false} UpToParent(nodes: Nodes, x: Oid, o: Oid, kids: set<Oid>, k: nat)
    requires LiveIn(nodes, o) && forall y :: y in kids <==> LiveIn(nodes, y) && CascadeParent(nodes[y].meta) == o
    ensures Up(nodes, x, {o}, k) ==> x == o || Up(nodes, x, kids, k)
    ensures Up(nodes, x, kids, k) ==> Up(nodes, x, {o}, k + 1)
    decreases k
  {
    if LiveIn(nodes, x) && x != o {
      var p := CascadeParent(nodes[x].meta);
      if x in kids {
        assert Up(nodes, o, {o}, k);
      } else if k > 0 {
        UpToParent(nodes, p, o, kids, k - 1);
        assert p != o;
      }
    }
  }

  /** What hangs off an entity is the entity and what hangs off its live children. */
  lemma LeadsToParent(nodes: Nodes, x: Oid, o: Oid, kids: set<Oid>)
    requires LiveIn(nodes, o) && forall y :: y in kids <==> LiveIn(nodes, y) && CascadeParent(nodes[y].meta) == o
    ensures Leads(nodes, x, {o}) <==> x == o || Leads(nodes, x, kids)
  {
    forall k: nat { UpToParent(nodes, x, o, kids, k); }
    if Leads(nodes, x, kids) {
      var k: nat :| Up(nodes, x, kids, k);
      assert Up(nodes, x, {o}, k + 1);
    }
    assert Up(nodes, o, {o}, 0);
  }

  /** Climbs that avoid what was taken are still there; others are not. */
  lemma {:induction false} UpAfter(n0: Nodes, n1: Nodes, a: set<Oid>, b: set<Oid>, x: Oid, k: nat)
    requires Took(n0, n1, a)
    ensures Up(n1, x, b, k) ==> Up(n0, x, b, k)
    ensures Up(n0, x, b, k) && !Leads(n0, x, a) ==> Up(n1, x, b, k)
    decreases k
  {
    if LiveIn(n0, x) && k > 0 {
      var p := CascadeParent(n0[x].meta);
      UpAfter(n0, n1, a, b, p, k - 1);
      if Leads(n0, p, a) {
        var j: nat :| Up(n0, p, a, j);
        assert Up(n0, x, a, j + 1);
      }
    }
  }

  lemma TookBoth(n0: Nodes, n1: Nodes, n2: Nodes, a: set<Oid>, b: set<Oid>)
    requires Took(n0, n1, a) && Took(n1, n2, b)
    ensures Took(n0, n2, a + b)
  {
    forall x | x in n0 ensures n2[x] == if Leads(n0, x, a + b) then n0[x].(live := false) else n0[x] {
      LeadsEither(n0, x, a, b);
      forall k: nat { UpAfter(n0, n1, a, b, x, k); }
      if Leads(n1, x, b) {
        var k: nat :| Up(n1, x, b, k);
        assert Up(n0, x, b, k);
      }
      if Leads(n0, x, b) && !Leads(n0, x, a) {
        var k: nat :| Up(n0, x, b, k);
        assert Up(n1, x, b, k);
      }
    }
  }

  lemma {:induction false} NeverUp(nodes: Nodes, x: Oid, ts: set<Oid>, k: nat)
    requires forall t :: t in ts ==> !LiveIn(nodes, t)
    ensures !Up(nodes, x, ts, k)
    decreases k
  {
    if LiveIn(nodes, x) && k > 0 {
      NeverUp(nodes, CascadeParent(nodes[x].meta), ts, k - 1);
    }
  }

  lemma TookNothing(nodes: Nodes, ts: set<Oid>)
    requires forall t :: t in ts ==> !LiveIn(nodes, t)
    ensures Took(nodes, nodes, ts)
  {
    forall x | x in nodes ensures !Leads(nodes, x, ts) {
      forall k: nat ensures !Up(nodes, x, ts, k) {
        NeverUp(nodes, x, ts, k);
      }
    }
  }

  ghost function Members(s: seq<Oid>): set<Oid> {
    set o | o in s
  }

  lemma TookRoot(n0: Nodes, n1: Nodes, o: Oid, kids: seq<Oid>)
    requires LiveIn(n0, o) && Kids(n0, o, kids) && Took(n0, n1, Members(kids))
    ensures Took(n0, Marked(n1, o), {o})
  {
    hide Leads;
    forall x | x in n0 ensures Marked(n1, o)[x] == if Leads(n0, x, {o}) then n0[x].(live := false) else n0[x] {
      LeadsToParent(n0, x, o, Members(kids));
    }
  }

  /** A drop that ends has marked exactly what hangs off the entity, on any nodes at all. */
  lemma {:induction false} DropTakes(f: (Nodes, Oid) -> seq<Oid>, nodes: Nodes, o: Oid, depth: nat)
    requires ListsKids(f)
    ensures var r := DropIn(f, nodes, o, depth); r.Some? ==> Took(nodes, r.value, {o})
    decreases depth, 0, 0
  {
    hide Took, Leads;
    if !LiveIn(nodes, o) {
      TookNothing(nodes, {o});
    } else if depth > 0 {
      var kids := f(nodes, o);
      assert Kids(nodes, o, kids);
      EachTakes(f, nodes, kids, depth - 1);
      var left := DropEach(f, nodes, kids, depth - 1);
      if left.Some? {
        TookRoot(nodes, left.value, o, kids);
      }
    }
  }

  lemma {:induction false} EachTakes(f: (Nodes, Oid) -> seq<Oid>, nodes: Nodes, kids: seq<Oid>, depth: nat)
    requires ListsKids(f)
    ensures var r := DropEach(f, nodes, kids, depth); r.Some? ==> Took(nodes, r.value, Members(kids))
    decreases depth, 1, |kids|
  {
    hide Took, ListsKids;
    if kids == [] {
      TookNothing(nodes, Members(kids));
    } else {
      DropTakes(f, nodes, kids[0], depth);
      var left := DropIn(f, nodes, kids[0], depth);
      if left.Some? {
        EachTakes(f, left.value, kids[1..], depth);
        var r := DropEach(f, left.value, kids[1..], depth);
        if r.Some? {
          TookBoth(nodes, left.value, r.value, {kids[0]}, Members(kids[1..]));
          assert {kids[0]} + Members(kids[1..]) == Members(kids);
        }
      }
    }
  }

  /** In a forest this is the subtree of `Cascade`. */
  lemma {:induction false} LeadsIsReaches(nodes: Nodes, x: Oid, t: Oid)
    requires Forest(nodes)
    ensures Leads(nodes, x, {t}) <==> Reaches(nodes, x, t)
    decreases if x in nodes then nodes[x].lamport else 0
  {
    if LiveIn(nodes, x) {
      assert Attached(nodes, x);
      if x == t {
        assert Up(nodes, x, {t}, 0);
      } else {
        var p := CascadeParent(nodes[x].meta);
        if !nodes[x].meta.Db? {
          LeadsIsReaches(nodes, p, t);
        }
        if Leads(nodes, x, {t}) {
          var k: nat :| Up(nodes, x, {t}, k);
          assert Up(nodes, p, {t}, k - 1);
        }
        if !nodes[x].meta.Db? && Leads(nodes, p, {t}) {
          var k: nat :| Up(nodes, p, {t}, k);
          assert Up(nodes, x, {t}, k + 1);
        }
      }
    }
  }

  // ---------------------------------------------------------------------
  // A cycle

  ghost predicate HangsOff(nodes: Nodes, y: Oid, x: Oid) {
    LiveIn(nodes, y) && CascadeParent(nodes[y].meta) == x
  }

  /** A live entity with a live child in `c`. */
  ghost predicate HasKid(nodes: Nodes, c: set<Oid>, x: Oid) {
    LiveIn(nodes, x) && exists y :: y in c && HangsOff(nodes, y, x)
  }

  /** Live entities each of which has a live child among them. */
  ghost predicate Cycle(nodes: Nodes, c: set<Oid>) {
    forall x {:trigger HasKid(nodes, c, x)} :: x in c ==> HasKid(nodes, c, x)
  }

  lemma MarkOutside(nodes: Nodes, c: set<Oid>, o: Oid)
    requires Cycle(nodes, c) && o !in c
    ensures Cycle(Marked(nodes, o), c)
  {
    forall x | x in c ensures HasKid(Marked(nodes, o), c, x) {
      assert HasKid(nodes, c, x);
      var y :| y in c && HangsOff(nodes, y, x);
      assert HangsOff(Marked(nodes, o), y, x);
    }
  }

  /** No depth is enough for an entity on a cycle, and no other drop ever breaks the cycle. */
  lemma {:induction false} CycleNeverEnds(f: (Nodes, Oid) -> seq<Oid>, nodes: Nodes, c: set<Oid>, o: Oid, depth: nat)
    requires ListsKids(f) && Cycle(nodes, c)
    ensures var r := DropIn(f, nodes, o, depth); (o in c ==> r == None) && (r.Some? ==> Cycle(r.value, c))
    decreases depth, 0, 0
  {
    assert o in c ==> HasKid(nodes, c, o);
    if LiveIn(nodes, o) && depth > 0 {
      var kids := f(nodes, o);
      assert Kids(nodes, o, kids);
      if o in c {
        var y :| y in c && HangsOff(nodes, y, o);
        assert y in kids;
      }
      CycleStops(f, nodes, c, kids, depth - 1);
      var left := DropEach(f, nodes, kids, depth - 1);
      if left.Some? {
        MarkOutside(left.value, c, o);
      }
    }
  }

  lemma {:induction false} CycleStops(f: (Nodes, Oid) -> seq<Oid>, nodes: Nodes, c: set<Oid>, kids: seq<Oid>,
                                      depth: nat)
    requires ListsKids(f) && Cycle(nodes, c)
    ensures var r := DropEach(f, nodes, kids, depth);
            ((exists y :: y in kids && y in c) ==> r == None) && (r.Some? ==> Cycle(r.value, c))
    decreases depth, 1, |kids|
  {
    hide Cycle;
    if kids != [] {
      CycleNeverEnds(f, nodes, c, kids[0], depth);
      var left := DropIn(f, nodes, kids[0], depth);
      if left.Some? {
        CycleStops(f, left.value, c, kids[1..], depth);
        assert forall y :: y in kids && y in c ==> y in kids[1..];
      }
    }
  }

  // ---------------------------------------------------------------------
  // No cycle

  /** Numbers that fall from every live entity to its live children. */
  ghost predicate Ranked(nodes: Nodes, rank: Oid -> nat) {
    forall x, y :: LiveIn(nodes, x) && HangsOff(nodes, y, x) ==> rank(y) < rank(x)
  }

  /** Fewer live entities, and the same entities otherwise. */
  ghost predicate Thinned(n0: Nodes, n1: Nodes) {
    forall x :: LiveIn(n1, x) ==> LiveIn(n0, x) && n1[x] == n0[x]
  }

  lemma {:induction false} RankedEnds(f: (Nodes, Oid) -> seq<Oid>, nodes: Nodes, rank: Oid -> nat, o: Oid, depth: nat)
    requires ListsKids(f) && Ranked(nodes, rank) && (LiveIn(nodes, o) ==> rank(o) < depth)
    ensures var r := DropIn(f, nodes, o, depth); r.Some? && Thinned(nodes, r.value)
    decreases depth, 0, 0
  {
    if LiveIn(nodes, o) {
      var kids := f(nodes, o);
      assert Kids(nodes, o, kids);
      assert forall y :: y in kids ==> HangsOff(nodes, y, o);
      RankedEach(f, nodes, rank, kids, depth - 1);
    }
  }

  lemma {:induction false} RankedEach(f: (Nodes, Oid) -> seq<Oid>, nodes: Nodes, rank: Oid -> nat, kids: seq<Oid>,
                                      depth: nat)
    requires ListsKids(f) && Ranked(nodes, rank) && forall y :: y in kids && LiveIn(nodes, y) ==> rank(y) < depth
    ensures var r := DropEach(f, nodes, kids, depth); r.Some? && Thinned(nodes, r.value)
    decreases depth, 1, |kids|
  {
    if kids != [] {
      assert kids[0] in kids;
      RankedEnds(f, nodes, rank, kids[0], depth);
      var left := DropIn(f, nodes, kids[0], depth).value;
      assert forall x, y :: HangsOff(left, y, x) ==> HangsOff(nodes, y, x);
      RankedEach(f, left, rank, kids[1..], depth);
    }
  }

  lemma {:induction false} ClimbsMore(nodes: Nodes, o: Oid, n: nat, k: nat)
    requires Climbs(nodes, o, n) && n <= k
    ensures Climbs(nodes, o, k)
    decreases n
  {
    if !nodes[o].meta.Db? {
      ClimbsMore(nodes, CascadeParent(nodes[o].meta), n - 1, k - 1);
    }
  }

  /** One number of steps is enough for all. */
  lemma {:induction false} ClimbsWithin(nodes: Nodes, xs: set<Oid>) returns (n: nat)
    requires Grounded(nodes)
    ensures forall x :: x in xs && LiveIn(nodes, x) ==> Climbs(nodes, x, n)
    decreases xs
  {
    if xs == {} {
      n := 0;
    } else {
      var x :| x in xs;
      var k := ClimbsWithin(nodes, xs - {x});
      n := k;
      if LiveIn(nodes, x) {
        var j: nat :| Climbs(nodes, x, j);
        n := if j > k then j else k;
        ClimbsMore(nodes, x, j, n);
      }
      forall y | y in xs && LiveIn(nodes, y) ensures Climbs(nodes, y, n) {
        if y != x {
          ClimbsMore(nodes, y, k, n);
        }
      }
    }
  }

  /** How many steps it takes to climb from `o` to its database. */
  ghost function Height(nodes: Nodes, o: Oid, n: nat): (h: nat)
    ensures h <= n
    decreases n
  {
    if n == 0 || !LiveIn(nodes, o) || nodes[o].meta.Db? then 0
    else 1 + Height(nodes, CascadeParent(nodes[o].meta), n - 1)
  }

  lemma {:induction false} HeightSame(nodes: Nodes, o: Oid, n: nat)
    requires Climbs(nodes, o, n)
    ensures Height(nodes, o, n + 1) == Height(nodes, o, n)
    decreases n
  {
    if !nodes[o].meta.Db? {
      HeightSame(nodes, CascadeParent(nodes[o].meta), n - 1);
    }
  }

  /** Where every live entity climbs to a database, every drop ends. */
  lemma GroundedEnds(f: (Nodes, Oid) -> seq<Oid>, nodes: Nodes, o: Oid) returns (depth: nat)
    requires ListsKids(f) && Grounded(nodes) && OID_NONE !in nodes
    ensures DropIn(f, nodes, o, depth).Some?
  {
    var n := ClimbsWithin(nodes, nodes.Keys);
    var rank := (x: Oid) => n - Height(nodes, x, n);
    forall x, y | LiveIn(nodes, x) && HangsOff(nodes, y, x) ensures rank(y) < rank(x) {
      assert Climbs(nodes, y, n);
      HeightSame(nodes, x, n - 1);
    }
    depth := n + 1;
    RankedEnds(f, nodes, rank, o, depth);
  }

  // ---------------------------------------------------------------------
  // A create under an object id in use

  /** The drop of `o` ends. */
  ghost predicate Ends(f: (Nodes, Oid) -> seq<Oid>, nodes: Nodes, o: Oid) {
    exists depth: nat :: DropIn(f, nodes, o, depth).Some?
  }

  /** The next entity on the way up from `p` to `x`. */
  lemma {:induction false} StepBefore(nodes: Nodes, p: Oid, x: Oid) returns (y: Oid)
    requires Reaches(nodes, p, x) && p != x
    ensures Reaches(nodes, p, y) && HangsOff(nodes, y, x) && x in nodes && nodes[x].lamport < nodes[y].lamport
    decreases nodes[p].lamport
  {
    var q := CascadeParent(nodes[p].meta);
    if q == x {
      y := p;
    } else {
      y := StepBefore(nodes, q, x);
    }
  }

  /** The entities from `p` up to `o`. */
  ghost function Chain(nodes: Nodes, p: Oid, o: Oid): set<Oid> {
    set x | x in nodes && Reaches(nodes, p, x) && Reaches(nodes, x, o)
  }

  /** If the new entity's parent hangs off the object id it is given, the way between becomes a cycle. */
  lemma ReuseClosesCycle(nodes: Nodes, o: Oid, n: Node)
    requires n.live && Reaches(nodes, CascadeParent(n.meta), o)
    ensures Cycle(nodes[o := n], Chain(nodes, CascadeParent(n.meta), o)) && o in Chain(nodes, CascadeParent(n.meta), o)
  {
    var p, n1 := CascadeParent(n.meta), nodes[o := n];
    var c := Chain(nodes, p, o);
    ReachesOlder(nodes, p, o);
    assert Reaches(nodes, o, o);
    forall x | x in c ensures HasKid(n1, c, x) {
      if x == p {
        assert o in c && HangsOff(n1, o, x);
      } else {
        var y := StepBefore(nodes, p, x);
        ReachesOlder(nodes, x, o);
        assert Reaches(nodes, y, o);
        assert y in c && HangsOff(n1, y, x);
      }
    }
  }

  /** After a create under any object id, every drop ends exactly when the new entity is a database
      or its cascade parent does not already hang off that object; else the drop of the object
      itself does not. */
  lemma DropsEndExactly(f: (Nodes, Oid) -> seq<Oid>, s: State, o: Oid, m: Meta)
    requires ListsKids(f) && StateOk(s) && CheckCreate(s, m) == Ok && o != OID_NONE
    ensures var nodes := s.nodes[o := Node(m, s.clock, true)];
            && ((forall x :: Ends(f, nodes, x)) <==> m.Db? || !Reaches(s.nodes, CascadeParent(m), o))
            && (Ends(f, nodes, o) <==> m.Db? || !Reaches(s.nodes, CascadeParent(m), o))
  {
    hide ListsKids, DropIn, Cycle;
    var nodes := s.nodes[o := Node(m, s.clock, true)];
    ReusedOidStaysGrounded(s, o, m);
    if m.Db? || !Reaches(s.nodes, CascadeParent(m), o) {
      forall x ensures Ends(f, nodes, x) {
        var depth := GroundedEnds(f, nodes, x);
      }
    } else {
      ReuseClosesCycle(s.nodes, o, Node(m, s.clock, true));
      forall depth: nat ensures DropIn(f, nodes, o, depth) == None {
        CycleNeverEnds(f, nodes, Chain(s.nodes, CascadeParent(m), o), o, depth);
      }
      assert !Ends(f, nodes, o);
    }
  }

  /** And a drop that ends takes exactly what hangs off the dropped entity, also where a re-used id
      has put the stamps out of order. */
  lemma DropsTakeExactly(f: (Nodes, Oid) -> seq<Oid>, s: State, o: Oid, m: Meta, t: Oid) returns (depth: nat)
    requires ListsKids(f) && StateOk(s) && CheckCreate(s, m) == Ok && o != OID_NONE
    requires m.Db? || !Reaches(s.nodes, CascadeParent(m), o)
    ensures var nodes := s.nodes[o := Node(m, s.clock, true)];
            var r := DropIn(f, nodes, t, depth); r.Some? && Took(nodes, r.value, {t})
  {
    hide ListsKids, DropIn, Took;
    var nodes := s.nodes[o := Node(m, s.clock, true)];
    DropsEndExactly(f, s, o, m);
    assert Ends(f, nodes, t);
    depth :| DropIn(f, nodes, t, depth).Some?;
    DropTakes(f, nodes, t, depth);
  }
}
