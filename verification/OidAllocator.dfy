/**
 Object ids and their allocator (include/catalog_id.h, src/catalog/catalog_id.c).
 An id packs a 16-bit node and a 48-bit sequence number.  The allocator reserves
 sequence numbers in blocks by writing a high-water mark to a file before it hands
 any of them out; a restart resumes from that mark.
 */
module OidAllocator {
  import opened Entities

  const SEQ_LIMIT: nat := 0x1_0000_0000_0000
  const NODE_LIMIT: nat := 0x1_0000
  const FIRST_USER: nat := 1024
  const BLOCK: nat := 4096

  /** `tsdb_oid_make`: the sequence number is masked to 48 bits. */
  function Make(node: nat, s: nat): Oid {
    node * SEQ_LIMIT + s % SEQ_LIMIT
  }

  function NodeOf(o: Oid): nat {
    o / SEQ_LIMIT % NODE_LIMIT
  }

  function SeqOf(o: Oid): nat {
    o % SEQ_LIMIT
  }

  lemma Unpack(node: nat, s: nat)
    requires node < NODE_LIMIT
    ensures NodeOf(Make(node, s)) == node && SeqOf(Make(node, s)) == s % SEQ_LIMIT
    ensures s < 0x1_0000_0000_0000 ==> Make(node, s) == node * 0x1_0000_0000_0000 + s
  {
  }

  /** Two ids are equal exactly when node and masked sequence number are; so two sequence
      numbers of one node collide exactly when they differ by a multiple of 2^48. */
  lemma MakeCollides(n1: nat, s1: nat, n2: nat, s2: nat)
    requires n1 < NODE_LIMIT && n2 < NODE_LIMIT
    ensures Make(n1, s1) == Make(n2, s2) <==> n1 == n2 && s1 % SEQ_LIMIT == s2 % SEQ_LIMIT
  {
    Unpack(n1, s1);
    Unpack(n2, s2);
  }

  // ---------------------------------------------------------------------
  // The allocator's steps

  /** The two counters in memory and the value in the file (0 when there is none). */
  datatype Alloc = Alloc(node: nat, next: nat, reserved: nat, file: nat)

  /** `tsdb_oid_alloc_open`. */
  function Open(node: nat, file: nat): Alloc {
    var high := if file < FIRST_USER then FIRST_USER else file;
    Alloc(node, high, high, file)
  }

  /** `tsdb_oid_next`; `persists` says whether writing the file succeeds.  Returns OID_NONE on failure. */
  function Mint(a: Alloc, persists: bool): (Alloc, Oid) {
    if a.next < a.reserved then (a.(next := a.next + 1), Make(a.node, a.next))
    else if persists then
      var high := a.next + BLOCK;
      (a.(next := a.next + 1, reserved := high, file := high), Make(a.node, a.next))
    else (a, OID_NONE)
  }

  /** `tsdb_oid_observe`. */
  function Observe(a: Alloc, o: Oid, persists: bool): Alloc {
    if NodeOf(o) != a.node || SeqOf(o) < a.next then a
    else
      var next := SeqOf(o) + 1;
      if next > a.reserved && persists
      then a.(next := next, reserved := next + BLOCK, file := next + BLOCK)
      else a.(next := next)
  }

  // ---------------------------------------------------------------------
  // Every run

  datatype Event = DoMint(persists: bool) | DoObserve(oid: Oid, persists: bool) | DoRestart

  /** A run so far: the allocator, the sequence numbers minted since the file was created, and
      those of this node observed since the last restart. */
  datatype History = History(a: Alloc, minted: set<nat>, seen: set<nat>)

  function Step(h: History, e: Event): History {
    match e
    case DoMint(p) =>
      var (a, o) := Mint(h.a, p);
      h.(a := a, minted := if o == OID_NONE then h.minted else h.minted + {h.a.next})
    case DoObserve(o, p) =>
      h.(a := Observe(h.a, o, p), seen := if NodeOf(o) == h.a.node then h.seen + {SeqOf(o)} else h.seen)
    case DoRestart =>
      h.(a := Open(h.a.node, h.a.file), seen := {})
  }

  ghost predicate HistoryOk(h: History) {
    && h.a.node < NODE_LIMIT && FIRST_USER <= h.a.next
    && h.a.file <= h.a.reserved && (h.a.next < h.a.reserved ==> h.a.file == h.a.reserved)
    && (forall s :: s in h.minted ==> FIRST_USER <= s < h.a.next && s < h.a.file)
    && (forall s :: s in h.seen ==> s < h.a.next)
  }

  function Steps(h: History, es: seq<Event>): History {
    if es == [] then h else Step(Steps(h, es[..|es| - 1]), es[|es| - 1])
  }

  lemma StepKeepsOk(h: History, e: Event)
    requires HistoryOk(h)
    ensures HistoryOk(Step(h, e))
  {
  }

  lemma {:induction false} StepsKeepOk(h: History, es: seq<Event>)
    requires HistoryOk(h)
    ensures HistoryOk(Steps(h, es))
  {
    hide HistoryOk, Step;
    if es != [] {
      StepsKeepOk(h, es[..|es| - 1]);
      StepKeepsOk(Steps(h, es[..|es| - 1]), es[|es| - 1]);
    }
  }

  /** Exactly when a mint hands out an id again: when the sequence number of an id minted before,
      or observed since the restart, agrees with the next one in its low 48 bits. */
  lemma MintRepeatsExactly(h: History, persists: bool)
    requires HistoryOk(h) && Mint(h.a, persists).1 != OID_NONE
    ensures var o := Mint(h.a, persists).1;
            && (forall s :: s in h.minted + h.seen ==>
                 (o == Make(h.a.node, s) <==> s % SEQ_LIMIT == h.a.next % SEQ_LIMIT))
            && (forall n: nat, s: nat :: n < NODE_LIMIT && n != h.a.node ==> o != Make(n, s))
  {
    var o := Mint(h.a, persists).1;
    forall s | s in h.minted + h.seen ensures o == Make(h.a.node, s) <==> s % SEQ_LIMIT == h.a.next % SEQ_LIMIT {
      MakeCollides(h.a.node, h.a.next, h.a.node, s);
    }
    forall n: nat, s: nat | n < NODE_LIMIT && n != h.a.node ensures o != Make(n, s) {
      MakeCollides(h.a.node, h.a.next, n, s);
    }
  }

  /** Exactly when a mint that has reserved its number hands out an id below the user ids, id 0
      (which its caller takes for a failure) included: on node 0, past 2^48. */
  lemma MintIsReservedExactly(h: History, persists: bool)
    requires HistoryOk(h) && (h.a.next < h.a.reserved || persists)
    ensures Mint(h.a, persists).1 < FIRST_USER <==> h.a.node == 0 && h.a.next % SEQ_LIMIT < FIRST_USER
    ensures h.a.next < SEQ_LIMIT ==> Mint(h.a, persists).1 >= FIRST_USER
  {
  }

  lemma SmallMod(s: nat)
    requires s < SEQ_LIMIT
    ensures s % SEQ_LIMIT == s
  {
  }

  /** While the next number fits 48 bits, none used before agrees with it. */
  lemma BelowLimitNoneAgrees(h: History)
    requires HistoryOk(h) && h.a.next < SEQ_LIMIT
    ensures forall s :: s in h.minted + h.seen ==> s % SEQ_LIMIT != h.a.next % SEQ_LIMIT
  {
    forall s | s in h.minted + h.seen ensures s % SEQ_LIMIT != h.a.next % SEQ_LIMIT {
      assert s < h.a.next;
      SmallMod(s);
      SmallMod(h.a.next);
    }
  }

  lemma {:induction false} StepsKeepNode(h: History, es: seq<Event>)
    ensures Steps(h, es).a.node == h.a.node
  {
    if es != [] {
      StepsKeepNode(h, es[..|es| - 1]);
    }
  }

  /** After any run of mints, observations, failed writes, crashes and restarts, a mint that
      succeeds while sequence numbers fit 48 bits returns an id that was never minted before,
      was not observed since the restart, is not reserved and belongs to no other node. */
  lemma MintIsNew(node: nat, file: nat, es: seq<Event>, persists: bool)
    requires node < NODE_LIMIT
    ensures var h := Steps(History(Open(node, file), {}, {}), es);
            var (a, o) := Mint(h.a, persists);
            o != OID_NONE && h.a.next < SEQ_LIMIT ==>
              && (forall s :: s in h.minted ==> o != Make(node, s))
              && (forall s :: s in h.seen ==> o != Make(node, s))
              && (forall n: nat, s: nat :: n < NODE_LIMIT && n != node ==> o != Make(n, s))
              && o != OID_DEFAULTDB && o != OID_SYSDB
  {
    var h0 := History(Open(node, file), {}, {});
    StepsKeepOk(h0, es);
    StepsKeepNode(h0, es);
    var h := Steps(h0, es);
    if Mint(h.a, persists).1 != OID_NONE && h.a.next < SEQ_LIMIT {
      MintRepeatsExactly(h, persists);
      MintIsReservedExactly(h, persists);
      BelowLimitNoneAgrees(h);
    }
  }

  // ---------------------------------------------------------------------
  // Blocks

  /** The allocator after `n` mints during which the file cannot be written. */
  function Unwritten(a: Alloc, n: nat): Alloc {
    if n == 0 then a else Mint(Unwritten(a, n - 1), false).0
  }

  lemma {:induction false} UnwrittenAdvances(a: Alloc, n: nat)
    requires a.next + n <= a.reserved
    ensures Unwritten(a, n) == a.(next := a.next + n)
  {
    if n > 0 {
      UnwrittenAdvances(a, n - 1);
    }
  }

  /** One write of the file lasts for exactly 4096 mints, with consecutive sequence numbers. */
  lemma BlockLasts(a: Alloc, n: nat)
    requires a.next == a.reserved && n < 4096
    ensures var (b, first) := Mint(a, true);
            var c := Unwritten(b, n);
            && first == Make(a.node, a.next) && b.file == a.next + 4096 && c.file == b.file
            && (n < 4095 ==> Mint(c, false).1 == Make(a.node, a.next + 1 + n))
            && (n == 4095 ==> Mint(c, false) == (c, OID_NONE))
  {
    UnwrittenAdvances(Mint(a, true).0, n);
  }

  /** The numbers reserved and not minted are at most a block. */
  ghost predicate Near(h: History) {
    h.a.reserved <= h.a.next + 4096
  }

  lemma {:induction false} StepsStayNear(h: History, es: seq<Event>)
    requires HistoryOk(h) && Near(h)
    ensures Near(Steps(h, es))
  {
    if es != [] {
      StepsStayNear(h, es[..|es| - 1]);
      StepsKeepOk(h, es[..|es| - 1]);
    }
  }

  /** A restart resumes after every number minted, and skips at most a block. */
  lemma RestartSkips(node: nat, file: nat, es: seq<Event>)
    requires node < NODE_LIMIT
    ensures var h := Steps(History(Open(node, file), {}, {}), es);
            var k := Step(h, DoRestart);
            (forall s :: s in h.minted ==> s < k.a.next) && k.a.next <= h.a.next + 4096
  {
    var h0 := History(Open(node, file), {}, {});
    StepsKeepOk(h0, es);
    StepsStayNear(h0, es);
  }

  // ---------------------------------------------------------------------
  // Past 2^48: one observed id is enough

  function Start(node: nat): History {
    History(Open(node, 0), {}, {})
  }

  function Mints(n: nat): seq<Event> {
    if n == 0 then [] else Mints(n - 1) + [DoMint(true)]
  }

  lemma StepsSnoc(h: History, es: seq<Event>, e: Event)
    ensures Steps(h, es + [e]) == Step(Steps(h, es), e)
  {
    assert (es + [e])[..|es|] == es;
  }

  lemma {:induction false} MintsAdvance(h: History, es: seq<Event>, n: nat)
    ensures var g, k := Steps(h, es), Steps(h, es + Mints(n));
            k.a.next == g.a.next + n && k.a.node == g.a.node && g.minted <= k.minted
  {
    if n == 0 {
      assert es + [] == es;
    } else {
      MintsAdvance(h, es, n - 1);
      assert es + Mints(n) == (es + Mints(n - 1)) + [DoMint(true)];
      StepsSnoc(h, es + Mints(n - 1), DoMint(true));
    }
  }

  /** Observing the last 48-bit number puts the allocator at 2^48. */
  lemma LastObserved(h: History, es: seq<Event>)
    requires Steps(h, es).a.node < NODE_LIMIT && Steps(h, es).a.next < SEQ_LIMIT
    ensures var e := DoObserve(Make(Steps(h, es).a.node, SEQ_LIMIT - 1), true);
            var k := Steps(h, es + [e]);
            k.a.next == SEQ_LIMIT && k.a.node == Steps(h, es).a.node && k.minted == Steps(h, es).minted
  {
    var e := DoObserve(Make(Steps(h, es).a.node, SEQ_LIMIT - 1), true);
    Unpack(Steps(h, es).a.node, SEQ_LIMIT - 1);
    StepsSnoc(h, es, e);
  }

  /** On node 0 the second mint after it returns the id of the default database. */
  lemma MintReturnsReservedId()
    ensures Mint(Steps(Start(0), [DoObserve(Make(0, SEQ_LIMIT - 1), true), DoMint(true)]).a, true).1 == OID_DEFAULTDB
  {
    var e := DoObserve(Make(0, SEQ_LIMIT - 1), true);
    LastObserved(Start(0), []);
    assert [] + [e] == [e];
    MintsAdvance(Start(0), [e], 1);
    assert Mints(0) == [] && Mints(1) == [DoMint(true)];
    assert [e] + Mints(1) == [e, DoMint(true)];
  }

  lemma FirstMint(node: nat)
    ensures Make(node, FIRST_USER) != OID_NONE
    ensures Step(Start(node), DoMint(true)).minted == {FIRST_USER}
  {
  }

  /** On every node a user id minted before is minted again. */
  lemma MintRepeatsPastLimit(node: nat)
    requires node < NODE_LIMIT
    ensures var es := [DoMint(true), DoObserve(Make(node, SEQ_LIMIT - 1), true)] + Mints(FIRST_USER);
            var h := Steps(Start(node), es);
            FIRST_USER in h.minted && Mint(h.a, true).1 == Make(node, FIRST_USER)
  {
    hide Make, Observe;
    var m, e := DoMint(true), DoObserve(Make(node, SEQ_LIMIT - 1), true);
    StepsSnoc(Start(node), [], m);
    assert [] + [m] == [m];
    var g := Steps(Start(node), [m]);
    assert g.a.next == FIRST_USER + 1 && g.a.node == node;
    FirstMint(node);
    LastObserved(Start(node), [m]);
    assert [m] + [e] == [m, e];
    MintsAdvance(Start(node), [m, e], FIRST_USER);
    MakeCollides(node, SEQ_LIMIT + FIRST_USER, node, FIRST_USER);
  }

  // ---------------------------------------------------------------------
  // The allocator object

  class Allocator {
    const node: nat
    var next: nat
    var reserved: nat
    var file: nat

    function Abs(): Alloc
      reads this
    {
      Alloc(node, next, reserved, file)
    }

    constructor (node: nat, file: nat)
      ensures Abs() == Open(node, file) && next == reserved == if file > 1024 then file else 1024
    {
      var persisted := file;
      if persisted < FIRST_USER {
        persisted := FIRST_USER;
      }
      this.node, this.file := node, file;
      next, reserved := persisted, persisted;
    }

    method Next(persists: bool) returns (o: Oid)
      modifies this
      ensures (Abs(), o) == Mint(old(Abs()), persists)
      ensures old(next) < old(reserved) || persists ==> o == Make(node, old(next)) && next == old(next) + 1
      ensures !(old(next) < old(reserved) || persists) ==> o == OID_NONE && Abs() == old(Abs())
      ensures file == if old(next) >= old(reserved) && persists then old(next) + 4096 else old(file)
    {
      if next >= reserved {
        var high := next + BLOCK;
        if !persists {
          return OID_NONE;
        }
        file := high;
        reserved := high;
      }
      var s := next;
      next := next + 1;
      o := Make(node, s);
    }

    method Note(o: Oid, persists: bool)
      modifies this
      ensures Abs() == Observe(old(Abs()), o, persists)
      ensures next == if NodeOf(o) == node && SeqOf(o) >= old(next) then SeqOf(o) + 1 else old(next)
      ensures file == if next > old(next) && next > old(reserved) && persists then next + 4096 else old(file)
    {
      if NodeOf(o) != node {
        return;
      }
      var s := SeqOf(o);
      if s >= next {
        next := s + 1;
        if next > reserved {
          var high := next + BLOCK;
          if persists {
            file := high;
            reserved := high;
          }
        }
      }
    }
  }
}
