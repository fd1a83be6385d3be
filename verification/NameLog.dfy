/**
 The append-only create/drop logs of the v1 catalog (databases, groups, stables
 and child tables share this shape), their replay, and their compaction.
 Compaction rewrites a log from the live table in bucket order and then re-emits
 the tombstones of the names that are still dropped.
 */
module NameLog {
  import opened Basics

  datatype Name = Name(text: string)

  datatype Rec<+V> = Put(name: Name, val: V) | Drop(name: Name)

  function Apply<V>(m: map<Name, V>, r: Rec<V>): map<Name, V> {
    match r
    case Put(n, v) => m[n := v]
    case Drop(n) => m - {n}
  }

  /** Top-to-bottom replay of a log. */
  function Replay<V>(log: seq<Rec<V>>): map<Name, V> {
    if log == [] then map[] else Apply(Replay(log[..|log| - 1]), log[|log| - 1])
  }

  lemma ReplaySnoc<V>(log: seq<Rec<V>>, r: Rec<V>)
    ensures Replay(log + [r]) == Apply(Replay(log), r)
  {
    assert (log + [r])[..|log|] == log;
  }

  /** Record `i` is the last of `n`. */
  ghost predicate LastAt<V(!new)>(log: seq<Rec<V>>, n: Name, i: nat) {
    i < |log| && log[i].name == n && forall j :: i < j < |log| ==> log[j].name != n
  }

  /** A name is live after replay exactly if its last record is a create, with what that says. */
  lemma {:induction false} ReplayIsLast<V(!new)>(log: seq<Rec<V>>, n: Name)
    ensures n in Replay(log) <==> exists i: nat :: LastAt(log, n, i) && log[i].Put?
    ensures forall i: nat :: LastAt(log, n, i) && log[i].Put? ==> n in Replay(log) && Replay(log)[n] == log[i].val
  {
    if log != [] {
      var k := |log| - 1;
      var init, r := log[..k], log[k];
      ReplayIsLast(init, n);
      if r.name == n {
        assert LastAt(log, n, k);
      } else {
        forall i: nat ensures LastAt(log, n, i) <==> LastAt(init, n, i) {
          assert i < k ==> log[i] == init[i];
        }
        if n in Replay(init) {
          var i: nat :| LastAt(init, n, i) && init[i].Put?;
          assert LastAt(log, n, i);
        }
      }
    }
  }

  /** The log carries positive evidence that `n` was dropped at some point. */
  predicate HasDrop<V>(log: seq<Rec<V>>, n: Name) {
    exists i :: 0 <= i < |log| && log[i].Drop? && log[i].name == n
  }

  lemma HasDropConcat<V>(a: seq<Rec<V>>, b: seq<Rec<V>>, n: Name)
    ensures HasDrop(a + b, n) <==> HasDrop(a, n) || HasDrop(b, n)
  {
    if HasDrop(a, n) {
      var i :| 0 <= i < |a| && a[i].Drop? && a[i].name == n;
      assert (a + b)[i] == a[i];
    }
    if HasDrop(b, n) {
      var i :| 0 <= i < |b| && b[i].Drop? && b[i].name == n;
      assert (a + b)[|a| + i] == b[i];
    }
  }

  /** Every create was logged while its name was not live, as the EXISTS check guarantees. */
  ghost predicate Alternating<V>(log: seq<Rec<V>>) {
    log != [] ==> && Alternating(log[..|log| - 1])
                  && (log[|log| - 1].Put? ==> log[|log| - 1].name !in Replay(log[..|log| - 1]))
  }

  lemma AlternatingSnoc<V>(log: seq<Rec<V>>, r: Rec<V>)
    requires Alternating(log) && (r.Put? ==> r.name !in Replay(log))
    ensures Alternating(log + [r])
  {
    assert (log + [r])[..|log|] == log;
  }

  // ---------------------------------------------------------------------
  // Compaction

  /** The live entries in some order (the bucket order of the table). */
  function Puts<V>(m: map<Name, V>, order: seq<Name>): (log: seq<Rec<V>>)
    requires forall n :: n in order ==> n in m
  {
    if order == [] then [] else Puts(m, order[..|order| - 1]) + [Put(order[|order| - 1], m[order[|order| - 1]])]
  }

  /** `order` lists every key of `m` exactly once. */
  ghost predicate Lists<V>(m: map<Name, V>, order: seq<Name>) {
    NoRepeats(order) && forall n :: n in order <==> n in m
  }

  lemma NoPuts<V>(m: map<Name, V>)
    ensures Puts(m, []) == [] && Replay<V>([]) == map[] && Alternating<V>([])
  {
  }

  lemma {:induction false} PutsReplay<V>(m: map<Name, V>, order: seq<Name>)
    requires NoRepeats(order) && forall n :: n in order ==> n in m
    ensures forall n :: n in Replay(Puts(m, order)) <==> n in order
    ensures forall n :: n in order ==> Replay(Puts(m, order))[n] == m[n]
    ensures Alternating(Puts(m, order))
  {
    hide Replay, Alternating;
    if order == [] {
      NoPuts(m);
    } else {
      var init, k := order[..|order| - 1], order[|order| - 1];
      PutsReplay(m, init);
      assert order == init + [k];
      ReplaySnoc(Puts(m, init), Put(k, m[k]));
      AlternatingSnoc(Puts(m, init), Put(k, m[k]));
    }
  }

  lemma {:induction false} PutsHaveNoDrop<V>(m: map<Name, V>, order: seq<Name>, n: Name)
    requires forall n :: n in order ==> n in m
    ensures !HasDrop(Puts(m, order), n)
  {
    if order != [] {
      PutsHaveNoDrop(m, order[..|order| - 1], n);
    }
  }

  /** The tombstones of names that are not live, in log order. */
  function KeepDrops<V>(log: seq<Rec<V>>, live: map<Name, V>): (kept: seq<Rec<V>>) {
    if log == [] then []
    else
      var kept := KeepDrops(log[..|log| - 1], live);
      var r := log[|log| - 1];
      if r.Drop? && r.name !in live then kept + [r] else kept
  }

  lemma {:induction false} KeepDropsEvidence<V>(log: seq<Rec<V>>, live: map<Name, V>, n: Name)
    ensures HasDrop(KeepDrops(log, live), n) <==> n !in live && HasDrop(log, n)
  {
    if log != [] {
      var init, r := log[..|log| - 1], log[|log| - 1];
      KeepDropsEvidence(init, live, n);
      assert log == init + [r];
      HasDropConcat(init, [r], n);
      HasDropConcat(KeepDrops(init, live), [r], n);
      assert HasDrop([r], n) <==> r.Drop? && r.name == n by {
        assert [r][0] == r;
      }
    }
  }

  lemma KeepDropsSnoc<V>(log: seq<Rec<V>>, r: Rec<V>, live: map<Name, V>)
    ensures KeepDrops(log + [r], live) == if r.Drop? && r.name !in live then KeepDrops(log, live) + [r]
                                          else KeepDrops(log, live)
  {
    var all := log + [r];
    assert all[..|all| - 1] == log && all[|all| - 1] == r;
  }

  lemma KeepNoDrops<V>(live: map<Name, V>)
    ensures KeepDrops([], live) == []
  {
  }

  /** Every tombstone of a name that is not live is kept, in its place, and nothing else. */
  lemma {:induction false} KeepDropsEach<V>(log: seq<Rec<V>>, r: Rec<V>, more: seq<Rec<V>>, live: map<Name, V>)
    ensures KeepDrops(log + [r] + more, live)
         == KeepDrops(log, live) + (if r.Drop? && r.name !in live then [r] else []) + KeepDrops(more, live)
  {
    hide KeepDrops;
    var front := KeepDrops(log, live) + if r.Drop? && r.name !in live then [r] else [];
    if more == [] {
      KeepDropsSnoc(log, r, live);
      KeepNoDrops(live);
      assert log + [r] + more == log + [r];
      assert front + [] == front;
    } else {
      var init, x := more[..|more| - 1], more[|more| - 1];
      assert more == init + [x];
      KeepDropsEach(log, r, init, live);
      KeepDropsSnoc(log + [r] + init, x, live);
      KeepDropsSnoc(init, x, live);
      assert log + [r] + more == log + [r] + init + [x];
      assert front + (KeepDrops(init, live) + [x]) == front + KeepDrops(init, live) + [x];
    }
  }

  /** Appending tombstones of absent names changes nothing. */
  lemma {:induction false} KeptDropsAreNoOps<V>(base: seq<Rec<V>>, log: seq<Rec<V>>, live: map<Name, V>)
    requires Replay(base) == live && Alternating(base)
    ensures Replay(base + KeepDrops(log, live)) == live
    ensures Alternating(base + KeepDrops(log, live))
  {
    if log == [] {
      assert base + [] == base;
    } else {
      var init, r := log[..|log| - 1], log[|log| - 1];
      KeptDropsAreNoOps(base, init, live);
      if r.Drop? && r.name !in live {
        var kept := base + KeepDrops(init, live);
        assert base + KeepDrops(log, live) == kept + [r];
        ReplaySnoc(kept, r);
        AlternatingSnoc(kept, r);
        assert live - {r.name} == live;
      }
    }
  }

  function Compacted<V>(m: map<Name, V>, order: seq<Name>, log: seq<Rec<V>>): seq<Rec<V>>
    requires forall n :: n in order ==> n in m
  {
    Puts(m, order) + KeepDrops(log, m)
  }

  /** In whatever order the buckets list the live entries, the rewritten log replays to the same
      live map, and for every name that is not live it holds a tombstone exactly when the old log did. */
  lemma CompactionKeepsStateAndEvidence<V>(m: map<Name, V>, order: seq<Name>, log: seq<Rec<V>>)
    requires Replay(log) == m && Lists(m, order)
    ensures Replay(Compacted(m, order, log)) == m
    ensures Alternating(Compacted(m, order, log))
    ensures forall n :: n !in m ==> (HasDrop(Compacted(m, order, log), n) <==> HasDrop(log, n))
    ensures forall n :: HasDrop(Compacted(m, order, log), n) ==> HasDrop(log, n)
  {
    PutsReplay(m, order);
    KeptDropsAreNoOps(Puts(m, order), log, m);
    forall n ensures HasDrop(Compacted(m, order, log), n) <==> n !in m && HasDrop(log, n) {
      PutsHaveNoDrop(m, order, n);
      HasDropConcat(Puts(m, order), KeepDrops(log, m), n);
      KeepDropsEvidence(log, m, n);
    }
  }

  // ---------------------------------------------------------------------
  // What a catalog keeps true of one of its logs

  /** The log replays to the live map, and it carries a tombstone for a name that is not live
      exactly when that name was dropped at some time; it carries none for a name never dropped. */
  ghost predicate LogOk<V>(m: map<Name, V>, log: seq<Rec<V>>, dropped: set<Name>) {
    && Replay(log) == m && Alternating(log)
    && (forall n :: n in dropped && n !in m ==> HasDrop(log, n))
    && (forall n :: HasDrop(log, n) ==> n in dropped)
  }

  lemma PutKeepsLogOk<V>(m: map<Name, V>, log: seq<Rec<V>>, dropped: set<Name>, n: Name, v: V)
    requires LogOk(m, log, dropped) && n !in m
    ensures LogOk(m[n := v], log + [Put(n, v)], dropped)
  {
    ReplaySnoc(log, Put(n, v));
    AlternatingSnoc(log, Put(n, v));
    forall x ensures HasDrop(log + [Put(n, v)], x) <==> HasDrop(log, x) {
      HasDropConcat(log, [Put(n, v)], x);
    }
  }

  lemma DropKeepsLogOk<V>(m: map<Name, V>, log: seq<Rec<V>>, dropped: set<Name>, n: Name)
    requires LogOk(m, log, dropped)
    ensures LogOk(m - {n}, log + [Drop(n)], dropped + {n})
  {
    ReplaySnoc(log, Drop(n));
    AlternatingSnoc(log, Drop(n));
    var last: seq<Rec<V>> := [Drop(n)];
    forall x ensures HasDrop(log + last, x) <==> HasDrop(log, x) || x == n {
      HasDropConcat(log, last, x);
      assert last[0].name == n;
    }
  }

  /** One tombstone per name, in order. */
  function Drops<V>(ks: seq<Name>): (log: seq<Rec<V>>)
    ensures |log| == |ks|
  {
    if ks == [] then [] else Drops(ks[..|ks| - 1]) + [Drop(ks[|ks| - 1])]
  }

  /** The names of a list; as many as the list is long exactly when none repeats. */
  function Names(ks: seq<Name>): set<Name> {
    if ks == [] then {} else Names(ks[..|ks| - 1]) + {ks[|ks| - 1]}
  }

  lemma DropsSnoc<V>(log: seq<Rec<V>>, ks: seq<Name>, k: Name)
    ensures log + Drops(ks + [k]) == log + Drops(ks) + [Drop(k)]
    ensures Names(ks + [k]) == Names(ks) + {k}
  {
    assert (ks + [k])[..|ks|] == ks;
  }

  lemma {:induction false} DropsKeepLogOk<V>(m: map<Name, V>, log: seq<Rec<V>>, dropped: set<Name>, ks: seq<Name>)
    requires LogOk(m, log, dropped)
    ensures LogOk(m - Names(ks), log + Drops(ks), dropped + Names(ks))
  {
    if ks == [] {
      assert log + Drops(ks) == log;
      assert m - Names(ks) == m;
    } else {
      var init, k := ks[..|ks| - 1], ks[|ks| - 1];
      DropsKeepLogOk(m, log, dropped, init);
      DropKeepsLogOk(m - Names(init), log + Drops(init), dropped + Names(init), k);
      assert log + Drops(ks) == log + Drops(init) + [Drop(k)];
      assert m - Names(ks) == m - Names(init) - {k};
      assert dropped + Names(ks) == dropped + Names(init) + {k};
    }
  }

  lemma CompactKeepsLogOk<V>(m: map<Name, V>, log: seq<Rec<V>>, dropped: set<Name>, order: seq<Name>)
    requires LogOk(m, log, dropped) && Lists(m, order)
    ensures LogOk(m, Compacted(m, order, log), dropped)
  {
    CompactionKeepsStateAndEvidence(m, order, log);
  }
}
