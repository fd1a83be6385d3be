/**
 The cascade tree of the v2 catalog: which live entities a drop takes with it.
 Stamps strictly increase away from the root, which is what makes walking up the
 tree, and the recursive drop that walks down it, terminate.
 */
module Cascade {
  import opened Entities
  import opened CatalogModel

  type Nodes = map<Oid, Node>

  /** `o` is live and its chain of cascade parents leads to `t`. */
  ghost predicate Reaches(nodes: Nodes, o: Oid, t: Oid)
    decreases if o in nodes then nodes[o].lamport else 0
  {
    && o in nodes && nodes[o].live
    && (o == t || var p := CascadeParent(nodes[o].meta);
                  p in nodes && nodes[p].lamport < nodes[o].lamport && Reaches(nodes, p, t))
  }

  lemma {:induction false} ReachesOlder(nodes: Nodes, o: Oid, t: Oid)
    requires Reaches(nodes, o, t)
    ensures t in nodes && nodes[t].live && nodes[t].lamport <= nodes[o].lamport
    decreases nodes[o].lamport
  {
    if o != t {
      ReachesOlder(nodes, CascadeParent(nodes[o].meta), t);
    }
  }

  /** No entity is below two siblings. */
  lemma {:induction false} SiblingsDisjoint(nodes: Nodes, x: Oid, a: Oid, b: Oid)
    requires Forest(nodes) && Reaches(nodes, x, a) && a != b
    requires a in nodes && nodes[a].live && b in nodes && nodes[b].live && !nodes[a].meta.Db? && !nodes[b].meta.Db?
    requires CascadeParent(nodes[a].meta) == CascadeParent(nodes[b].meta)
    ensures !Reaches(nodes, x, b)
    decreases if x in nodes then nodes[x].lamport else 0
  {
    var p := CascadeParent(nodes[a].meta);
    assert Attached(nodes, a) && Attached(nodes, b);
    if x == a {
      if Reaches(nodes, p, b) {
        ReachesOlder(nodes, p, b);
      }
    } else if x == b {
      ReachesOlder(nodes, p, a);
    } else {
      SiblingsDisjoint(nodes, CascadeParent(nodes[x].meta), a, b);
    }
  }

  /** Changing entities that do not lead to `t` changes nothing about which ones do. */
  lemma {:induction false} ReachesSame(n0: Nodes, n1: Nodes, o: Oid, t: Oid)
    requires forall x :: x in n1 && n1[x].live ==> x in n0 && n0[x] == n1[x]
    requires forall x :: Reaches(n0, x, t) ==> x in n1 && n1[x] == n0[x]
    ensures Reaches(n0, o, t) <==> Reaches(n1, o, t)
    decreases (if o in n0 then n0[o].lamport else 0) + (if o in n1 then n1[o].lamport else 0)
  {
    if o != t {
      if Reaches(n0, o, t) {
        var p := CascadeParent(n0[o].meta);
        ReachesSame(n0, n1, p, t);
      } else if Reaches(n1, o, t) {
        var p := CascadeParent(n1[o].meta);
        assert Reaches(n1, p, t);
        ReachesSame(n0, n1, p, t);
      }
    }
  }

  /** `o` leads to one of `ts`. */
  ghost predicate ReachesAny(nodes: Nodes, o: Oid, ts: seq<Oid>) {
    exists t :: t in ts && Reaches(nodes, o, t)
  }

  /** `kids` are the live entities that hang directly off `t`. */
  ghost predicate Kids(nodes: Nodes, t: Oid, kids: seq<Oid>) {
    forall k :: k in kids <==> k in nodes && nodes[k].live && CascadeParent(nodes[k].meta) == t
  }

  lemma {:induction false} KidReaches(nodes: Nodes, o: Oid, k: Oid, t: Oid)
    requires Forest(nodes) && t != OID_NONE && Reaches(nodes, o, k)
    requires k in nodes && nodes[k].live && CascadeParent(nodes[k].meta) == t
    ensures Reaches(nodes, o, t)
    decreases if o in nodes then nodes[o].lamport else 0
  {
    if o == k {
      assert Attached(nodes, k);
      var p := CascadeParent(nodes[o].meta);
      assert Reaches(nodes, p, t);
    } else {
      KidReaches(nodes, CascadeParent(nodes[o].meta), k, t);
    }
  }

  /** The subtree of `t` is `t` and the subtrees of its kids. */
  lemma {:induction false} SubtreeSplits(nodes: Nodes, o: Oid, t: Oid, kids: seq<Oid>)
    requires Forest(nodes) && t in nodes && nodes[t].live && Kids(nodes, t, kids)
    ensures Reaches(nodes, o, t) <==> o == t || ReachesAny(nodes, o, kids)
    decreases if o in nodes then nodes[o].lamport else 0
  {
    if o != t && Reaches(nodes, o, t) {
      var p := CascadeParent(nodes[o].meta);
      if p == t {
        assert o in kids && Reaches(nodes, o, o);
      } else {
        SubtreeSplits(nodes, p, t, kids);
        var k :| k in kids && Reaches(nodes, p, k);
        assert Reaches(nodes, o, k);
      }
    }
    if ReachesAny(nodes, o, kids) {
      var k :| k in kids && Reaches(nodes, o, k);
      KidReaches(nodes, o, k, t);
    }
  }

  /** `n1` is `n0` with exactly the subtrees of `ts` tombstoned. */
  ghost predicate Dropped(n0: Nodes, n1: Nodes, ts: seq<Oid>) {
    && n1.Keys == n0.Keys
    && forall o :: o in n0 ==>
         if ReachesAny(n0, o, ts) then !n1[o].live && n1[o].meta == n0[o].meta else n1[o] == n0[o]
  }

  /** What an entity hangs off, by its fields: a group off its database, a child table off its
      super table, any other table off its group, or off its database if it has none. */
  ghost predicate HangsOff(m: Meta, p: Oid) {
    || (m.Group? && m.db == p)
    || (m.Table? && m.kind == Child && m.parent == p)
    || (m.Table? && m.kind != Child && m.group != OID_NONE && m.group == p)
    || (m.Table? && m.kind != Child && m.group == OID_NONE && m.db == p)
  }

  /** A live entity is tombstoned exactly if it is `t` or hangs off one that is. */
  ghost predicate TakesWhatHangs(n0: Nodes, n1: Nodes, t: Oid) {
    && n1.Keys == n0.Keys
    && forall o :: o in n0 && n0[o].live ==>
         (!n1[o].live <==> o == t || exists p :: p in n0 && n0[p].live && !n1[p].live && HangsOff(n0[o].meta, p))
  }

  lemma LinkIsParent(nodes: Nodes, o: Oid, p: Oid)
    requires Forest(nodes) && o in nodes && nodes[o].live && p in nodes
    ensures HangsOff(nodes[o].meta, p) <==> CascadeParent(nodes[o].meta) == p
  {
  }

  lemma NotDb(nodes: Nodes, o: Oid)
    requires Forest(nodes) && o in nodes && nodes[o].live && CascadeParent(nodes[o].meta) in nodes
    ensures !nodes[o].meta.Db?
  {
  }

  /** The subtree of `t` is what its own fields, and in turn theirs, link to it. */
  lemma SubtreeIsLinked(n0: Nodes, n1: Nodes, t: Oid)
    requires Forest(n0) && t in n0 && n0[t].live && Dropped(n0, n1, [t])
    ensures TakesWhatHangs(n0, n1, t)
  {
    hide HangsOff, CascadeParent;
    assert t in [t];
    forall o | o in n0 && n0[o].live && o != t
      ensures !n1[o].live <==> exists p :: p in n0 && n0[p].live && !n1[p].live && HangsOff(n0[o].meta, p)
    {
      if !n1[o].live {
        assert Reaches(n0, o, t);
        var p := CascadeParent(n0[o].meta);
        assert ReachesAny(n0, p, [t]);
        LinkIsParent(n0, o, p);
        assert p in n0 && n0[p].live && !n1[p].live && HangsOff(n0[o].meta, p);
      }
      if p :| p in n0 && n0[p].live && !n1[p].live && HangsOff(n0[o].meta, p) {
        LinkIsParent(n0, o, p);
        assert ReachesAny(n0, p, [t]);
        assert Attached(n0, o) by {
          assert Forest(n0);
        }
        NotDb(n0, o);
        assert Reaches(n0, o, t);
      }
    }
  }

  lemma DroppedNone(n: Nodes)
    ensures Dropped(n, n, [])
  {
  }

  lemma NotBelowEarlier(nodes: Nodes, x: Oid, t: Oid, kids: seq<Oid>, i: nat)
    requires Forest(nodes) && t in nodes && nodes[t].live && Kids(nodes, t, kids) && i < |kids| && kids[i] !in kids[..i]
    requires Reaches(nodes, x, kids[i])
    ensures !ReachesAny(nodes, x, kids[..i])
  {
    var k := kids[i];
    assert k in kids;
    forall y | y in kids[..i] ensures !Reaches(nodes, x, y) {
      assert y in kids;
      SiblingsDisjoint(nodes, x, k, y);
    }
  }

  lemma ReachesNext(n0: Nodes, n1: Nodes, t: Oid, kids: seq<Oid>, i: nat, o: Oid)
    requires Forest(n0) && t in n0 && n0[t].live && Kids(n0, t, kids) && i < |kids| && kids[i] !in kids[..i]
    requires Dropped(n0, n1, kids[..i])
    ensures ReachesAny(n0, o, kids[..i + 1]) <==> ReachesAny(n0, o, kids[..i]) || ReachesAny(n1, o, [kids[i]])
  {
    var k := kids[i];
    forall x | Reaches(n0, x, k) ensures n1[x] == n0[x] {
      NotBelowEarlier(n0, x, t, kids, i);
    }
    ReachesSame(n0, n1, o, k);
    assert kids[..i + 1] == kids[..i] + [k];
    if Reaches(n0, o, k) {
      assert k in kids[..i + 1] && k in [k];
    }
    if ReachesAny(n0, o, kids[..i]) {
      var y :| y in kids[..i] && Reaches(n0, o, y);
      assert y in kids[..i + 1];
    }
  }

  /** Dropping one more sibling's subtree. */
  lemma DroppedNext(n0: Nodes, n1: Nodes, n2: Nodes, t: Oid, kids: seq<Oid>, i: nat)
    requires Forest(n0) && t in n0 && n0[t].live && Kids(n0, t, kids) && i < |kids| && kids[i] !in kids[..i]
    requires Dropped(n0, n1, kids[..i]) && Dropped(n1, n2, [kids[i]])
    ensures Dropped(n0, n2, kids[..i + 1])
  {
    forall o
      ensures ReachesAny(n0, o, kids[..i + 1]) <==> ReachesAny(n0, o, kids[..i]) || ReachesAny(n1, o, [kids[i]])
    {
      ReachesNext(n0, n1, t, kids, i, o);
    }
  }

  lemma ReachesRoot(n0: Nodes, t: Oid, kids: seq<Oid>, o: Oid)
    requires Forest(n0) && t in n0 && n0[t].live && Kids(n0, t, kids)
    ensures ReachesAny(n0, o, [t]) <==> o == t || ReachesAny(n0, o, kids)
  {
    SubtreeSplits(n0, o, t, kids);
    assert t in [t];
  }

  /** Dropping the root after all of its kids completes the subtree. */
  lemma DroppedRoot(n0: Nodes, n1: Nodes, n2: Nodes, t: Oid, kids: seq<Oid>)
    requires Forest(n0) && t in n0 && n0[t].live && Kids(n0, t, kids) && Dropped(n0, n1, kids)
    requires t in n2 && n2 == n1[t := n2[t]] && !n2[t].live && n2[t].meta == n0[t].meta
    ensures Dropped(n0, n2, [t])
  {
    forall o ensures ReachesAny(n0, o, [t]) <==> o == t || ReachesAny(n0, o, kids) {
      ReachesRoot(n0, t, kids, o);
    }
  }

  /** With its kids' subtrees gone, nothing live hangs off `t`, and `t` itself is untouched. */
  lemma KidsGone(n0: Nodes, n1: Nodes, t: Oid, kids: seq<Oid>)
    requires Forest(n0) && t in n0 && n0[t].live && Kids(n0, t, kids) && Dropped(n0, n1, kids)
    ensures n1[t] == n0[t] && NoLiveChild(n1, t)
  {
    assert !ReachesAny(n0, t, kids) by {
      forall k | k in kids ensures !Reaches(n0, t, k) {
        assert Attached(n0, k);
        if Reaches(n0, t, k) {
          ReachesOlder(n0, t, k);
        }
      }
    }
    forall x | x in n1 && n1[x].live ensures CascadeParent(n1[x].meta) != t {
      if CascadeParent(n0[x].meta) == t && n0[x].live {
        assert x in kids && Reaches(n0, x, x);
      }
    }
  }
}
