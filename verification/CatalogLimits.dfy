/**
 How far the v2 catalog's promises reach, stated exactly.

 - A drop leaves every name outside the dropped subtree alone.
 - "The database of a live entity is live" (src/catalog/catalog_v2.h) is not kept by
   every create the code accepts: it survives all later drops exactly when every
   live entity hangs, through its cascade parents, off its own database.
 - A create under an object id already in use can close a cycle of cascade parents,
   on which the recursive drop does not end (`DropRecursion`); it does so exactly when
   the new entity's parent already hangs off that object.
 */
module CatalogLimits {
  import opened Entities
  import opened CatalogModel
  import opened Cascade

  // ---------------------------------------------------------------------
  // Names

  /** After a drop of `t`, exactly the names of entities outside its subtree remain, unchanged. */
  lemma DropKeepsOtherNames(s: State, s': State, t: Oid)
    requires NamesExact(s) && NamesExact(s') && Dropped(s.nodes, s'.nodes, [t])
    ensures forall k :: k in s'.names <==> k in s.names && !Reaches(s.nodes, s.names[k], t)
    ensures forall k :: k in s'.names ==> s'.names[k] == s.names[k]
  {
    forall o ensures ReachesAny(s.nodes, o, [t]) <==> Reaches(s.nodes, o, t) {
      assert t in [t];
    }
    forall k ensures k in s'.names <==> k in s.names && !Reaches(s.nodes, s.names[k], t) {
      if k in s.names && !Reaches(s.nodes, s.names[k], t) {
        assert s'.nodes[s.names[k]] == s.nodes[s.names[k]];
      }
      if k in s'.names {
        var o := s'.names[k];
        assert s'.nodes[o].live && s.nodes[o] == s'.nodes[o];
      }
    }
  }

  // ---------------------------------------------------------------------
  // The database of a live entity

  /** The database an entity names. */
  function DbOf(m: Meta): Oid {
    if m.Db? then OID_NONE else m.db
  }

  /** Every live group and table names a live entity as its database. */
  ghost predicate DbLive(nodes: Nodes) {
    forall o :: o in nodes && nodes[o].live && !nodes[o].meta.Db? ==>
      DbOf(nodes[o].meta) in nodes && nodes[DbOf(nodes[o].meta)].live
  }

  /** Every live group and table hangs off the database it names. */
  ghost predicate UnderDb(nodes: Nodes) {
    forall o :: o in nodes && nodes[o].live && !nodes[o].meta.Db? ==> Reaches(nodes, o, DbOf(nodes[o].meta))
  }

  /** An entity that leads to `d` but not to `t` still leads to `d` once `t`'s subtree is gone. */
  lemma {:induction false} ReachesWithout(n0: Nodes, n1: Nodes, t: Oid, o: Oid, d: Oid)
    requires Dropped(n0, n1, [t]) && Reaches(n0, o, d) && !Reaches(n0, o, t)
    ensures Reaches(n1, o, d)
    decreases if o in n0 then n0[o].lamport else 0
  {
    assert n1[o] == n0[o];
    if o != d {
      var p := CascadeParent(n0[o].meta);
      ReachesWithout(n0, n1, t, p, d);
      assert Reaches(n0, p, d) && n1[p] == n0[p];
    }
  }

  lemma DropKeepsUnderDb(n0: Nodes, n1: Nodes, t: Oid)
    requires UnderDb(n0) && Dropped(n0, n1, [t])
    ensures UnderDb(n1) && DbLive(n1)
  {
    forall o | o in n1 && n1[o].live && !n1[o].meta.Db?
      ensures Reaches(n1, o, DbOf(n1[o].meta)) && DbOf(n1[o].meta) in n1 && n1[DbOf(n1[o].meta)].live
    {
      assert t in [t];
      ReachesWithout(n0, n1, t, o, DbOf(n0[o].meta));
      ReachesOlder(n1, o, DbOf(n1[o].meta));
    }
  }

  /** Exactly the catalogs in which every entity hangs off its own database keep every entity's
      database live, whatever is dropped next. */
  lemma DatabasesStayLiveExactlyUnderDb(nodes: Nodes)
    ensures UnderDb(nodes) <==> forall t, n1 :: Dropped(nodes, n1, [t]) ==> DbLive(n1)
  {
    if UnderDb(nodes) {
      forall t, n1 | Dropped(nodes, n1, [t]) ensures DbLive(n1) {
        DropKeepsUnderDb(nodes, n1, t);
      }
    }
    if forall t, n1 :: Dropped(nodes, n1, [t]) ==> DbLive(n1) {
      forall o | o in nodes && nodes[o].live && !nodes[o].meta.Db?
        ensures Reaches(nodes, o, DbOf(nodes[o].meta))
      {
        var d := DbOf(nodes[o].meta);
        var w := map x | x in nodes :: if ReachesAny(nodes, x, [d]) then nodes[x].(live := false) else nodes[x];
        assert Dropped(nodes, w, [d]);
        assert DbLive(w);
        assert d in nodes && nodes[d].live ==> d in [d] && Reaches(nodes, d, d);
        assert !(d in w && w[d].live);
      }
    }
  }

  /** Giving an id that nothing live hangs off to a new entity changes nothing about the others. */
  lemma {:induction false} ReachesBeside(n0: Nodes, o: Oid, n: Node, x: Oid, t: Oid)
    requires Forest(n0) && NoLiveChild(n0, o) && o != OID_NONE && x in n0 && x != o
    ensures Reaches(n0, x, t) <==> Reaches(n0[o := n], x, t)
    decreases n0[x].lamport
  {
    if n0[x].live && x != t {
      assert Attached(n0, x);
      if !n0[x].meta.Db? {
        ReachesBeside(n0, o, n, CascadeParent(n0[x].meta), t);
      }
    }
  }

  /** A create under any id that may be given keeps that property exactly when the new entity's
      cascade parent hangs off (or is) the database the new entity names, or it names itself. */
  lemma CreateKeepsUnderDb(s: State, o: Oid, m: Meta)
    requires StateOk(s) && UnderDb(s.nodes) && CheckCreate(s, m) == Ok && o != OID_NONE && Adoptable(s, o, m)
    ensures UnderDb(s.nodes[o := Node(m, s.clock, true)])
            <==> m.Db? || DbOf(m) == o || Reaches(s.nodes, CascadeParent(m), DbOf(m))
  {
    var n := Node(m, s.clock, true);
    var n1 := s.nodes[o := n];
    CheckedIsAttached(s, o, m);
    forall x | x in n1 && n1[x].live && !n1[x].meta.Db? && x != o
      ensures Reaches(n1, x, DbOf(n1[x].meta))
    {
      ReachesBeside(s.nodes, o, n, x, DbOf(s.nodes[x].meta));
    }
    if !m.Db? {
      var p := CascadeParent(m);
      assert p in s.nodes && p != o && s.nodes[p].lamport < s.clock;
      ReachesBeside(s.nodes, o, n, p, DbOf(m));
    }
  }

  /** Two databases, and a super table in the first. */
  ghost function TwoDatabases(): State {
    var a, b := Db(Text([97]), Text([]), 0, 0, 0), Db(Text([98]), Text([]), 0, 0, 0);
    var t := Table(1, 0, 0, Super, Text([115]), [], 0, [], [], 0);
    State(map[1 := Node(a, 1, true), 2 := Node(b, 2, true), 3 := Node(t, 3, true)],
          map[DbKey(a.name) := 1, DbKey(b.name) := 2, TableKey(1, t.name) := 3], 4)
  }

  lemma TwoDatabasesOk()
    ensures StateOk(TwoDatabases())
  {
    var s := TwoDatabases();
    assert s.nodes[3].lamport + 1 == s.clock;
    assert NamesExact(s);
    assert Attached(s.nodes, 3);
  }

  lemma TwoDatabasesReach()
    ensures UnderDb(TwoDatabases().nodes) && !Reaches(TwoDatabases().nodes, 3, 2)
  {
    var nodes := TwoDatabases().nodes;
    assert Reaches(nodes, 1, 1);
    assert Reaches(nodes, 3, 1);
    assert !Reaches(nodes, 1, 2);
  }

  /** The code does accept a create that breaks it: a child in one database under a super table
      of another. */
  lemma ForeignChildIsAccepted()
    ensures exists s: State, m: Meta ::
              StateOk(s) && UnderDb(s.nodes) && CheckCreate(s, m) == Ok && !m.Db?
              && !Reaches(s.nodes, CascadeParent(m), DbOf(m))
  {
    hide StateOk, UnderDb, Reaches;
    TwoDatabasesOk();
    TwoDatabasesReach();
    var s, m := TwoDatabases(), Table(2, 0, 3, Child, Text([99]), [], 0, [], [], 0);
    assert CheckCreate(s, m) == Ok && CascadeParent(m) == 3 && DbOf(m) == 2;
  }

  // ---------------------------------------------------------------------
  // Object ids in use

  /** Climbing from `o` arrives at a database within `n` steps, through live entities. */
  ghost predicate Climbs(nodes: Nodes, o: Oid, n: nat)
    decreases n
  {
    && o in nodes && nodes[o].live
    && (nodes[o].meta.Db? || (n > 0 && Climbs(nodes, CascadeParent(nodes[o].meta), n - 1)))
  }

  /** Climbing from any live entity arrives at a database. */
  ghost predicate Grounded(nodes: Nodes) {
    forall o :: o in nodes && nodes[o].live ==> exists n: nat :: Climbs(nodes, o, n)
  }

  /** In the new nodes, entities that led to `o` climb on through `o`'s new parent; the others climb as before. */
  lemma {:induction false} ClimbsAgain(n0: Nodes, o: Oid, n: Node, x: Oid) returns (k: nat)
    requires Forest(n0) && n.live && x in n0 && n0[x].live
    requires n.meta.Db? || (LiveIn(n0, CascadeParent(n.meta)) && !Reaches(n0, CascadeParent(n.meta), o))
    ensures Climbs(n0[o := n], x, k)
    decreases if Reaches(n0, x, o) then 1 else 0, n0[x].lamport
  {
    var n1 := n0[o := n];
    if x == o {
      if n.meta.Db? {
        k := 0;
      } else {
        k := ClimbsAgain(n0, o, n, CascadeParent(n.meta));
        k := k + 1;
      }
    } else if n0[x].meta.Db? {
      k := 0;
    } else {
      assert Attached(n0, x);
      k := ClimbsAgain(n0, o, n, CascadeParent(n0[x].meta));
      k := k + 1;
    }
  }

  /** On a cycle through `o`, climbing never arrives. */
  lemma {:induction false} CycleNeverClimbs(n0: Nodes, o: Oid, n: Node, x: Oid, k: nat)
    requires Forest(n0) && !n.meta.Db? && Reaches(n0, CascadeParent(n.meta), o) && Reaches(n0, x, o)
    ensures !Climbs(n0[o := n], x, k)
    decreases k
  {
    if k > 0 {
      CycleNeverClimbs(n0, o, n, if x == o then CascadeParent(n.meta) else CascadeParent(n0[x].meta), k - 1);
    }
    if x != o {
      assert !n0[x].meta.Db?;
    }
  }

  /** Re-using object id `o`: the cascade tree stays well founded exactly when the new entity is a
      database or its cascade parent does not already hang off `o`. */
  lemma ReusedOidStaysGrounded(s: State, o: Oid, m: Meta)
    requires StateOk(s) && CheckCreate(s, m) == Ok
    ensures Grounded(s.nodes[o := Node(m, s.clock, true)])
            <==> m.Db? || !Reaches(s.nodes, CascadeParent(m), o)
  {
    var n := Node(m, s.clock, true);
    var n1 := s.nodes[o := n];
    var p := CascadeParent(m);
    if m.Db? || !Reaches(s.nodes, p, o) {
      forall x | x in n1 && n1[x].live ensures exists k: nat :: Climbs(n1, x, k) {
        if x in s.nodes && s.nodes[x].live {
          var k := ClimbsAgain(s.nodes, o, n, x);
        } else if m.Db? {
          assert Climbs(n1, x, 0);
        } else {
          var k := ClimbsAgain(s.nodes, o, n, p);
          assert Climbs(n1, x, k + 1);
        }
      }
    } else {
      forall k: nat ensures !Climbs(n1, p, k) {
        CycleNeverClimbs(s.nodes, o, n, p, k);
      }
      ReachesOlder(s.nodes, p, o);
      assert p in n1 && n1[p].live;
    }
  }

  /** The checks of create do not exclude the cycle. */
  lemma ReusedOidCanCycle()
    ensures exists s: State, o: Oid, m: Meta ::
              StateOk(s) && o in s.nodes && CheckCreate(s, m) == Ok && !m.Db? && Reaches(s.nodes, CascadeParent(m), o)
  {
    var a := Db(Text([97]), Text([]), 0, 0, 0);
    var s := State(map[5 := Node(a, 1, true)], map[KeyOf(a) := 5], 2);
    var m := Group(5, Text([103]), Text([]), Text([]), 0, 0, 0);
    assert s.nodes[5].lamport + 1 == s.clock;
    assert Reaches(s.nodes, 5, 5);
    assert StateOk(s) && 5 in s.nodes && CheckCreate(s, m) == Ok;
  }
}
