/**
 The v2 catalog's one index (src/catalog/catalog_v2.c:188-229, 478-503): a hash table from
 printed keys to entities that are changed in place.  An entity is in it under its object id
 and, while it is live, under its name.  The table refines the two maps of `CatalogModel`
 under `apply_node` and `drop_one`, and a scan of its buckets lists every entity once.
 */
module CatalogIndex {
  import opened Basics
  import opened Entities
  import opened CatalogModel
  import opened Cascade
  import opened IndexKeys
  import P = Probing
  import H = HashTable

  // ---------------------------------------------------------------------
  // Printed keys

  /** The table holds, under printed keys, what `view` holds under the keys themselves. */
  ghost predicate Rendered<V>(view: map<IndexKey, V>, model: map<seq<Byte>, V>) {
    && (forall k :: k in view ==> Render(k) in model && model[Render(k)] == view[k])
    && (forall s :: s in model ==> exists k :: k in view && Render(k) == s)
  }

  lemma RenderedGet<V>(view: map<IndexKey, V>, model: map<seq<Byte>, V>, k: IndexKey)
    requires Rendered(view, model)
    ensures Render(k) in model <==> k in view
  {
    hide Render;
    if Render(k) in model {
      var j :| j in view && Render(j) == Render(k);
      RenderIsInjective(j, k);
    }
  }

  lemma RenderedPut<V>(view: map<IndexKey, V>, model: map<seq<Byte>, V>, k: IndexKey, v: V)
    requires Rendered(view, model)
    ensures Rendered(view[k := v], model[Render(k) := v])
  {
    hide Render;
    forall j | j in view && Render(j) == Render(k) ensures j == k {
      RenderIsInjective(j, k);
    }
    var view', model' := view[k := v], model[Render(k) := v];
    forall s | s in model' ensures exists j :: j in view' && Render(j) == s {
      if s == Render(k) {
        assert k in view';
      } else {
        var j :| j in view && Render(j) == s;
        assert j in view';
      }
    }
  }

  lemma RenderedDelete<V>(view: map<IndexKey, V>, model: map<seq<Byte>, V>, k: IndexKey)
    requires Rendered(view, model)
    ensures Rendered(view - {k}, model - {Render(k)})
  {
    hide Render;
    forall j | j in view && Render(j) == Render(k) ensures j == k {
      RenderIsInjective(j, k);
    }
    forall s | s in model - {Render(k)} ensures exists j :: j in view - {k} && Render(j) == s {
      var j :| j in view && Render(j) == s;
      assert j in view - {k};
    }
  }

  /** The test of a scan for the keys of entities: the first two bytes. */
  predicate IsNodeKey(s: seq<Byte>) {
    |s| >= 2 && s[0] == 111 && s[1] == COLON
  }

  lemma NodeKeys(k: IndexKey)
    ensures IsNodeKey(Render(k)) <==> k.ByOid?
  {
  }

  // ---------------------------------------------------------------------
  // The index

  /** An entity in memory; the index points to it from one or two keys. */
  class Entity {
    const oid: Oid
    var node: Node

    constructor (oid: Oid, node: Node)
      ensures this.oid == oid && this.node == node
    {
      this.oid, this.node := oid, node;
    }
  }

  /** The index links the two maps to entities: each entity is under its own object id, and a name
      leads to the same entity as the object id it stands for. */
  ghost predicate Linked(view: map<IndexKey, Entity>, nodes: map<Oid, Node>, names: map<Key, Oid>) {
    && (forall o :: o in nodes <==> ByOid(o) in view)
    && (forall o :: o in nodes ==> view[ByOid(o)].oid == o)
    && (forall k :: k in names <==> ByName(k) in view)
    && (forall k :: k in names ==> names[k] in nodes && view[ByName(k)] == view[ByOid(names[k])])
  }

  lemma LinkedUnnamed(view: map<IndexKey, Entity>, nodes: map<Oid, Node>, names: map<Key, Oid>, k: Key)
    requires Linked(view, nodes, names)
    ensures Linked(view - {ByName(k)}, nodes, names - {k})
  {
  }

  lemma LinkedNamed(view: map<IndexKey, Entity>, nodes: map<Oid, Node>, names: map<Key, Oid>, k: Key, o: Oid)
    requires Linked(view, nodes, names) && o in nodes
    ensures Linked(view[ByName(k) := view[ByOid(o)]], nodes, names[k := o])
  {
  }

  lemma LinkedNew(view: map<IndexKey, Entity>, nodes: map<Oid, Node>, names: map<Key, Oid>, e: Entity, n: Node)
    requires Linked(view, nodes, names) && (e.oid in nodes ==> view[ByOid(e.oid)] == e)
    ensures Linked(view[ByOid(e.oid) := e], nodes[e.oid := n], names)
  {
  }

  /** The entities hold what `nodes` says. */
  ghost predicate Stored(view: map<IndexKey, Entity>, nodes: map<Oid, Node>)
    reads view.Values
  {
    forall o :: o in nodes ==> ByOid(o) in view && view[ByOid(o)].node == nodes[o]
  }

  /** The object id is a key of one of the first `i` buckets. */
  ghost predicate Before(s: seq<P.Slot<seq<Byte>, Entity>>, i: nat, o: Oid)
    requires i <= |s|
  {
    exists j :: 0 <= j < i && s[j].Entry? && s[j].key == Render(ByOid(o))
  }

  lemma BeforeStep(s: seq<P.Slot<seq<Byte>, Entity>>, i: nat)
    requires i < |s|
    ensures forall o :: Before(s, i + 1, o) <==> Before(s, i, o) || (s[i].Entry? && s[i].key == Render(ByOid(o)))
    ensures forall o, p :: Render(ByOid(o)) == Render(ByOid(p)) ==> o == p
  {
    hide Render;
    forall o, p | Render(ByOid(o)) == Render(ByOid(p)) ensures o == p {
      RenderIsInjective(ByOid(o), ByOid(p));
    }
  }

  class Index {
    const idx: H.HashTable<seq<Byte>, Entity>
    var clock: nat
    // What the index stands for: the entities under the keys themselves, and the two maps.
    ghost var view: map<IndexKey, Entity>
    ghost var nodes: map<Oid, Node>
    ghost var names: map<Key, Oid>

    /** The table is what `view` says. */
    ghost predicate Tied()
      reads this, idx, idx.b
    {
      idx.Valid() && Rendered(view, idx.Model()) && Linked(view, nodes, names)
    }

    ghost predicate Valid()
      reads this, idx, idx.b, view.Values
    {
      Tied() && Stored(view, nodes)
    }

    ghost function Abs(): State
      reads this
    {
      State(nodes, names, clock)
    }

    constructor (hash: (seq<Byte>, nat) -> nat)
      ensures Valid() && fresh(idx) && fresh(idx.b) && view == map[] && Abs() == INIT
    {
      idx := new H.HashTable<seq<Byte>, Entity>(hash, 256);
      clock := 1;
      view, nodes, names := map[], map[], map[];
    }

    method GetKey(k: IndexKey) returns (e: Option<Entity>)
      requires Tied()
      ensures e == if k in view then Some(view[k]) else None
    {
      RenderedGet(view, idx.Model(), k);
      e := idx.Get(Render(k));
    }

    /** `node_by_oid`. */
    method NodeByOid(o: Oid) returns (e: Option<Entity>)
      requires Valid()
      ensures e.Some? <==> o in nodes
      ensures e.Some? ==> ByOid(o) in view && e.value == view[ByOid(o)] && e.value in view.Values
      ensures e.Some? ==> e.value.oid == o && e.value.node == nodes[o]
    {
      e := GetKey(ByOid(o));
    }

    /** The lookups by name. */
    method OidByName(k: Key) returns (o: Oid)
      requires Valid()
      ensures o == if k in names && nodes[names[k]].live then names[k] else OID_NONE
    {
      var e := GetKey(ByName(k));
      o := if e.Some? && e.value.node.live then e.value.oid else OID_NONE;
    }

    /** Take a name out of the index. */
    method Unname(k: Key)
      requires Valid()
      modifies this`view, this`names, idx, idx.b
      ensures Valid() && idx.b == old(idx.b)
      ensures view == old(view) - {ByName(k)} && names == old(names) - {k}
    {
      hide Linked, Rendered, Render, P.Table, P.Contents, P.Count;
      RenderedDelete(view, idx.Model(), ByName(k));
      LinkedUnnamed(view, nodes, names, k);
      idx.Delete(Render(ByName(k)));
      view, names := view - {ByName(k)}, names - {k};
    }

    /** Put an entity under a name. */
    method Rename(k: Key, e: Entity)
      requires Valid() && e.oid in nodes && ByOid(e.oid) in view && view[ByOid(e.oid)] == e
      modifies this`view, this`names, idx, idx.b
      ensures Valid() && (idx.b == old(idx.b) || fresh(idx.b))
      ensures view == old(view)[ByName(k) := e] && names == old(names)[k := e.oid]
    {
      hide Linked, Rendered, Render, P.Table, P.Contents, P.Count;
      LinkedNamed(view, nodes, names, k, e.oid);
      RenderedPut(view, idx.Model(), ByName(k), e);
      idx.Put(Render(ByName(k)), e);
      view, names := view[ByName(k) := e], names[k := e.oid];
    }

    /** Put an entity under its object id. */
    method Enter(e: Entity)
      requires Valid() && e.oid !in nodes
      modifies this`view, this`nodes, idx, idx.b
      ensures Valid() && (idx.b == old(idx.b) || fresh(idx.b))
      ensures view == old(view)[ByOid(e.oid) := e] && nodes == old(nodes)[e.oid := e.node]
    {
      hide Linked, Rendered, Render, P.Table, P.Contents, P.Count;
      LinkedNew(view, nodes, names, e, e.node);
      RenderedPut(view, idx.Model(), ByOid(e.oid), e);
      idx.Put(Render(ByOid(e.oid)), e);
      view, nodes := view[ByOid(e.oid) := e], nodes[e.oid := e.node];
    }

    /** Change an entity in place; both of its keys see the change. */
    method Set(e: Entity, n: Node)
      requires Valid() && e.oid in nodes && ByOid(e.oid) in view && view[ByOid(e.oid)] == e
      modifies this`nodes, e
      ensures Valid() && nodes == old(nodes)[e.oid := n] && e.node == n
    {
      hide Rendered, Render, P.Table, P.Contents, P.Count;
      LinkedNew(view, nodes, names, e, n);
      e.node := n;
      nodes := nodes[e.oid := n];
      assert view[ByOid(e.oid) := e] == view;
    }

    /** An entity that is there: its old name goes, its new one comes. */
    method Overwrite(e: Entity, n: Node)
      requires Valid() && e.oid in nodes && ByOid(e.oid) in view && view[ByOid(e.oid)] == e && e.node == nodes[e.oid]
      modifies this`view, this`nodes, this`names, idx, idx.b, e
      ensures Valid() && (idx.b == old(idx.b) || fresh(idx.b))
      ensures nodes == old(nodes)[e.oid := n]
      ensures var left := if old(e.node).live then old(names) - {KeyOf(old(e.node).meta)} else old(names);
              names == if n.live then left[KeyOf(n.meta) := e.oid] else left
    {
      hide Linked, Stored, Rendered, Render, KeyOf, P.Table, P.Contents, P.Count;
      if e.node.live {
        Unname(KeyOf(e.node.meta));
      }
      Set(e, n);
      if n.live {
        Rename(KeyOf(n.meta), e);
      }
    }

    /** A new entity, under its object id and, if it is live, its name. */
    method Insert(o: Oid, n: Node)
      requires Valid() && o !in nodes
      modifies this`view, this`nodes, this`names, idx, idx.b
      ensures Valid() && (idx.b == old(idx.b) || fresh(idx.b))
      ensures nodes == old(nodes)[o := n]
      ensures names == if n.live then old(names)[KeyOf(n.meta) := o] else old(names)
    {
      hide Linked, Stored, Rendered, Render, KeyOf, P.Table, P.Contents, P.Count;
      var e := new Entity(o, n);
      Enter(e);
      if n.live {
        Rename(KeyOf(n.meta), e);
      }
    }

    /** `apply_node`: a new entity, or an overwrite in place unless the stamp is older. */
    method ApplyNode(o: Oid, n: Node)
      requires Valid()
      modifies this, idx, idx.b, view.Values
      ensures Valid() && (idx.b == old(idx.b) || fresh(idx.b))
      ensures Abs() == Apply(old(Abs()), o, n)
    {
      hide Linked, Stored, Rendered, Render, KeyOf, P.Table, P.Contents, P.Count;
      var ex := NodeByOid(o);
      if ex.Some? {
        if n.lamport < ex.value.node.lamport {
          return;
        }
        Overwrite(ex.value, n);
      } else {
        Insert(o, n);
      }
      if n.lamport >= clock {
        clock := n.lamport + 1;
      }
    }

    /** `drop_one`, without its log record. */
    method DropNode(o: Oid)
      requires Valid() && o in nodes
      modifies this, idx, idx.b, view.Values
      ensures Valid() && idx.b == old(idx.b)
      ensures forall log, base :: Abs() == DropOne(Cat(old(Abs()), log, base), o).st
    {
      hide Linked, Stored, Rendered, Render, KeyOf, P.Table, P.Contents, P.Count;
      var e := NodeByOid(o);
      Unname(KeyOf(e.value.node.meta));
      Set(e.value, e.value.node.(live := false, lamport := clock));
      clock := clock + 1;
    }

    /** What a bucket means to a scan: an entity not met before, or no entity. */
    lemma BucketMeans(i: nat)
      requires Valid() && i < idx.b.Length && idx.b[i].Entry?
      ensures IsNodeKey(idx.b[i].key) ==>
                var e := idx.b[i].val;
                && idx.b[i].key == Render(ByOid(e.oid)) && !Before(idx.b[..], i, e.oid)
                && e.oid in nodes && e.node == nodes[e.oid]
      ensures !IsNodeKey(idx.b[i].key) ==> forall o :: idx.b[i].key != Render(ByOid(o))
    {
      hide Render, P.Chained, P.Count, P.Contents;
      P.ProbeHit(idx.b[..], i);
      var k :| k in view && Render(k) == idx.b[i].key;
      NodeKeys(k);
      forall o ensures IsNodeKey(Render(ByOid(o))) {
        NodeKeys(ByOid(o));
      }
    }

    /** A whole scan meets exactly the entities. */
    lemma AllBuckets()
      requires Valid()
      ensures forall o :: Before(idx.b[..], idx.b.Length, o) <==> o in nodes
    {
      hide Render, P.Chained, P.Count;
      var s := idx.b[..];
      forall o ensures Before(s, |s|, o) <==> o in nodes {
        RenderedGet(view, idx.Model(), ByOid(o));
        assert Render(ByOid(o)) in P.Keys(s) <==> Before(s, |s|, o);
      }
    }

    /** The snapshot of an entity's live children that a drop takes. */
    method Children(t: Oid) returns (kids: seq<Oid>)
      requires Valid()
      ensures Kids(nodes, t, kids) && NoRepeats(kids)
    {
      hide Linked, Stored, Rendered, Render, IsNodeKey, CascadeParent, P.Table, P.Contents, P.Count;
      kids := [];
      AllBuckets();
      for i := 0 to idx.b.Length
        invariant NoRepeats(kids)
        invariant forall o :: o in kids <==>
                    o in nodes && Before(idx.b[..], i, o) && nodes[o].live && CascadeParent(nodes[o].meta) == t
      {
        BeforeStep(idx.b[..], i);
        if idx.b[i].Entry? {
          BucketMeans(i);
          var e := idx.b[i].val;
          if IsNodeKey(idx.b[i].key) && e.node.live && CascadeParent(e.node.meta) == t {
            assert (kids + [e.oid])[..|kids|] == kids;
            kids := kids + [e.oid];
          }
        }
      }
    }

    /** The records that a compaction writes: one per entity, live or not, in bucket order. */
    method EmitNodes() returns (log: seq<Record>, ghost order: seq<Oid>)
      requires Valid()
      ensures ListsAll(nodes, order) && log == Emit(nodes, order)
    {
      hide Linked, Stored, Rendered, Render, IsNodeKey, P.Table, P.Contents, P.Count;
      log, order := [], [];
      AllBuckets();
      for i := 0 to idx.b.Length
        invariant NoRepeats(order)
        invariant forall o :: o in order <==> o in nodes && Before(idx.b[..], i, o)
        invariant log == Emit(nodes, order)
      {
        BeforeStep(idx.b[..], i);
        if idx.b[i].Entry? {
          BucketMeans(i);
          var e := idx.b[i].val;
          if IsNodeKey(idx.b[i].key) {
            assert (order + [e.oid])[..|order|] == order;
            log := log + [RecordOf(e.oid, e.node)];
            order := order + [e.oid];
          }
        }
      }
    }
  }
}
