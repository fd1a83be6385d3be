/**
 Whole runs of a duplicate-suppressing receiver of one stream: deliveries in any order, any
 number of times and overlapping, base promises of the sender, checkpoints, flushes that
 truncate the write-ahead log, other streams that use up the ledger's table, and restarts
 that restore the checkpointed frontier and replay what is left of the log.
 */
module DedupRun {
  import opened DedupSlot

  /** A log: the sequence numbers of applied batches, last one outermost. */
  datatype Log = Nothing | Then(before: Log, q: nat)

  function Seqs(log: Log): set<nat> {
    match log case Nothing => {} case Then(l, q) => Seqs(l) + {q}
  }

  function Times(log: Log, q: nat): nat {
    match log case Nothing => 0 case Then(l, p) => Times(l, q) + if p == q then 1 else 0
  }

  /**
   `applied` lists the batches whose rows were ever applied, `wal` those whose records are
   still in the write-ahead log.  `asked` are deliveries that were not seen and are about to
   apply their rows; `unnoted` are batches applied and not yet recorded in the ledger.
   `settled` is the highest number the sender promised not to send any more; `saved` is the
   frontier in the checkpoint file; `base` is the highest frontier this process was told by
   the checkpoint or by a promise.  `entry` says whether the stream has an entry in the
   ledger's table of streams, `free` whether the table has one left (`Has` of the stream and of
   0 in `DedupLedger`).  `parts` are the batches whose rows are in partition files, `rows`
   those whose rows are there or in memory.
   */
  datatype Receiver = Receiver(slot: Slot, applied: Log, wal: Log, asked: multiset<nat>, unnoted: multiset<nat>,
                               base: nat, settled: nat, saved: nat, entry: bool, free: bool,
                               parts: set<nat>, rows: set<nat>)

  const FRESH := Receiver(EMPTY, Nothing, Nothing, multiset{}, multiset{}, 0, 0, 0, false, true, {}, {})

  /** `Deliver` is the protocol of dedup.h: the ledger is asked to record, and the rows are
      applied only on OK.  The receiver of rpc.c works in three sections, each under a lock of
      its own: `Ask` whether the number is seen, `Commit` (or `Discard`) the rows with their
      log record, and `Note` the number in the ledger, whose refusal is ignored.  A flush that
      skips the truncation is `Flush` too: replay passes over what the partitions cover before
      it looks at the id.  `Crowd` is other streams taking the last free entries.  A restart
      finds an entry for a checkpointed stream, which is restored first; `free` says whether
      one is left when the log comes to a stream that was not. */
  datatype Event =
    | Deliver(q: nat)
    | Ask(q: nat)
    | Commit(q: nat)
    | Discard(q: nat)
    | Note(q: nat)
    | Base(b: nat)
    | Save
    | Flush
    | Crowd
    | Restart(free: bool)

  function Max(a: nat, b: nat): nat { if a < b then b else a }

  /** Restore the checkpointed frontier, then re-record the log. */
  function Recover(base: nat, log: Log, maxGap: nat): Slot {
    match log
    case Nothing => Advance(EMPTY, base)
    case Then(l, q) => Record(Recover(base, l, maxGap), q, maxGap).0
  }

  /** The numbers whose rows a replay of the log puts back: it passes over one already seen. */
  function Replayed(base: nat, log: Log, maxGap: nat): set<nat> {
    match log
    case Nothing => {}
    case Then(l, q) =>
      Replayed(base, l, maxGap) + if Knows(Recover(base, l, maxGap), q) then {} else {q}
  }

  /** The same when the stream has no entry and none is free: nothing is ever seen. */
  function Restored(r: Receiver, free: bool, maxGap: nat): (Slot, set<nat>) {
    if r.saved > 0 || free then (Recover(r.saved, r.wal, maxGap), Replayed(r.saved, r.wal, maxGap))
    else (EMPTY, Seqs(r.wal))
  }

  predicate HasRoom(r: Receiver) { r.entry || r.free }

  /** The rows of `q` are applied, with a log record. */
  function Applied(r: Receiver, q: nat): Receiver {
    r.(applied := Then(r.applied, q), wal := Then(r.wal, q), rows := r.rows + {q})
  }

  function Step(r: Receiver, e: Event, maxGap: nat): Receiver {
    match e
    case Deliver(q) =>
      if q == 0 || !HasRoom(r) then r else
      var (t, c) := Record(r.slot, q, maxGap);
      (if c == Ok then Applied(r, q).(slot := t) else r).(entry := true)
    case Ask(q) =>
      if q == 0 || Knows(r.slot, q) then r else r.(asked := r.asked + multiset{q})
    case Commit(q) =>
      if q !in r.asked then r
      else Applied(r, q).(asked := r.asked - multiset{q}, unnoted := r.unnoted + multiset{q})
    case Discard(q) => r.(asked := r.asked - multiset{q})
    case Note(q) =>
      if q !in r.unnoted then r
      else if !HasRoom(r) then r.(unnoted := r.unnoted - multiset{q})
      else r.(slot := Record(r.slot, q, maxGap).0, unnoted := r.unnoted - multiset{q}, entry := true)
    case Base(b) =>
      if b <= 1 then r
      else if !HasRoom(r) then r.(settled := Max(r.settled, b - 1))
      else r.(slot := Advance(r.slot, b - 1), base := Max(r.base, b - 1), settled := Max(r.settled, b - 1),
              entry := true)
    case Save => r.(saved := r.slot.frontier)
    case Flush => r.(wal := Nothing, parts := r.rows)
    case Crowd => r.(free := false)
    case Restart(free) =>
      var (slot, rows) := Restored(r, free, maxGap);
      r.(slot := slot, base := r.saved, asked := multiset{}, unnoted := multiset{},
         entry := r.saved > 0 || (free && r.wal.Then?), free := free, rows := r.parts + rows)
  }

  /** A run: events one after the other. */
  datatype Events = End | Do(e: Event, rest: Events)

  function Run(r: Receiver, es: Events, maxGap: nat): Receiver
    decreases es
  {
    match es case End => r case Do(e, rest) => Run(Step(r, e, maxGap), rest, maxGap)
  }

  // ---------------------------------------------------------------------
  // What holds between events

  /** The slot knows exactly the given numbers and those up to the base. */
  ghost predicate Exactly(s: Slot, known: set<nat>, base: nat) {
    forall q: nat :: Knows(s, q) <==> q in known || 0 < q <= base
  }

  ghost predicate Unique(log: Log) {
    forall q: nat :: Times(log, q) <= 1
  }

  /** The applied numbers the ledger was told of. */
  ghost function Noted(r: Receiver): set<nat> {
    set q | q in Seqs(r.applied) && q !in r.unnoted
  }

  ghost predicate InFlight(r: Receiver, q: nat) {
    q in r.asked || q in r.unnoted
  }

  /** A number in flight is in flight once; it is applied exactly when its rows are committed. */
  ghost predicate FlightsOk(r: Receiver) {
    && (forall q: nat :: r.asked[q] + r.unnoted[q] <= 1)
    && (forall q :: q in r.asked ==> 0 < q && q !in Seqs(r.applied))
    && (forall q :: q in r.unnoted ==> q in Seqs(r.applied))
  }

  ghost predicate Told(r: Receiver) {
    forall q: nat :: 0 < q <= Max(r.base, r.saved) && q > r.settled ==> q in Seqs(r.applied)
  }

  ghost predicate ReceiverOk(r: Receiver, maxGap: nat) {
    // the ledger is in order and within its window
    && SlotOk(r.slot) && |r.slot.gaps| <= maxGap
    // every batch was applied at most once, and the log holds some of them
    && Unique(r.applied) && 0 !in Seqs(r.applied)
    && Unique(r.wal) && Seqs(r.wal) <= Seqs(r.applied)
    && FlightsOk(r)
    // the ledger knows exactly the numbers noted and what it was told
    && Exactly(r.slot, Noted(r), r.base)
    // what it was told was applied or settled
    && Told(r)
    // without an entry it knows nothing
    && (!r.entry ==> r.slot == EMPTY)
  }

  /** Recording the number is refused: it is unknown, out of order, and the window is full. */
  ghost predicate Refused(s: Slot, q: nat, maxGap: nat) {
    !Knows(s, q) && q > s.frontier + 1 && |s.gaps| >= maxGap
  }

  /** Everything applied above the checkpointed frontier is still in the log. */
  ghost predicate Covered(r: Receiver) {
    forall q: nat :: q in Seqs(r.applied) && q > r.saved ==> q in Seqs(r.wal)
  }

  ghost predicate NoHoleBelow(base: nat, known: set<nat>, x: nat) {
    forall q: nat :: 1 <= q <= x ==> q <= base || q in known
  }

  /** The known numbers that lie above a hole. */
  ghost function Window(base: nat, known: set<nat>): set<nat> {
    set x | x in known && !NoHoleBelow(base, known, x)
  }

  /** At every point of the log, at most `maxGap` numbers lie above a hole. */
  ghost predicate WindowsFit(base: nat, log: Log, maxGap: nat) {
    && |Window(base, Seqs(log))| <= maxGap
    && (log.Then? ==> WindowsFit(base, log.before, maxGap))
  }

  /** What can go wrong, stated on the state before the event. */
  ghost predicate Safe(r: Receiver, e: Event, maxGap: nat) {
    match e
    case Deliver(q) => q == 0 || !HasRoom(r) || Knows(r.slot, q) || !InFlight(r, q) || Refused(r.slot, q, maxGap)
    case Ask(q) => q == 0 || Knows(r.slot, q) || !InFlight(r, q)
    case Note(q) => q !in r.unnoted || (HasRoom(r) && !Refused(r.slot, q, maxGap))
    case Restart(free) =>
      if r.saved > 0 || free then Covered(r) && WindowsFit(r.saved, r.wal, maxGap) else r.applied == Nothing
    case _ => true
  }

  // ---------------------------------------------------------------------
  // Windows

  ghost function Elems(g: seq<nat>): set<nat> {
    if g == [] then {} else {g[0]} + Elems(g[1..])
  }

  lemma {:induction false} ElemsMeans(g: seq<nat>)
    ensures forall x :: x in Elems(g) <==> x in g
  {
    if g != [] {
      assert g == [g[0]] + g[1..];
      ElemsMeans(g[1..]);
    }
  }

  lemma {:induction false} SortedSize(g: seq<nat>)
    requires Sorted(g)
    ensures |Elems(g)| == |g|
  {
    if g != [] {
      SortedSize(g[1..]);
      ElemsMeans(g[1..]);
      assert g[0] !in g[1..];
    }
  }

  /** A slot that knows exactly the log and the base has exactly the window as its gaps. */
  lemma GapsAreWindow(s: Slot, base: nat, known: set<nat>)
    requires SlotOk(s) && 0 !in known && Exactly(s, known, base)
    ensures |s.gaps| == |Window(base, known)|
  {
    FrontierIsLongestRun(s, base);
    forall x: nat ensures x in s.gaps <==> x in Window(base, known) {
      FrontierIsLongestRun(s, x);
      assert Knows(s, x) <==> x in known || 0 < x <= base;
      assert NoHoleBelow(base, known, x) <==> x <= s.frontier;
    }
    ElemsMeans(s.gaps);
    SortedSize(s.gaps);
    assert Elems(s.gaps) == Window(base, known);
  }

  lemma {:induction false} Subset(a: set<nat>, b: set<nat>)
    requires a <= b
    ensures |a| <= |b|
  {
    if a != {} {
      var x :| x in a;
      Subset(a - {x}, b - {x});
    }
  }

  /** Knowing more from the start leaves fewer numbers above a hole. */
  lemma {:induction false} WindowsShrink(a: nat, b: nat, log: Log, maxGap: nat)
    requires a <= b && WindowsFit(a, log, maxGap)
    ensures WindowsFit(b, log, maxGap)
  {
    var known := Seqs(log);
    assert forall x: nat :: NoHoleBelow(a, known, x) ==> NoHoleBelow(b, known, x);
    Subset(Window(b, known), Window(a, known));
    if log.Then? {
      WindowsShrink(a, b, log.before, maxGap);
    }
  }

  // ---------------------------------------------------------------------
  // Recovery

  /** Recovery knows nothing but the log and the checkpointed frontier, and is in order. */
  lemma {:induction false} RecoverMeans(base: nat, log: Log, maxGap: nat)
    requires 0 !in Seqs(log)
    ensures SlotOk(Recover(base, log, maxGap)) && |Recover(base, log, maxGap).gaps| <= maxGap
    ensures forall q: nat :: Knows(Recover(base, log, maxGap), q) ==> q in Seqs(log) || 0 < q <= base
    ensures forall q: nat :: 0 < q <= base ==> Knows(Recover(base, log, maxGap), q)
  {
    match log
    case Nothing => AdvanceMeans(EMPTY, base);
    case Then(l, q) =>
      RecoverMeans(base, l, maxGap);
      RecordMeans(Recover(base, l, maxGap), q, maxGap);
  }

  lemma {:induction false} TimesIn(log: Log, q: nat)
    ensures q in Seqs(log) <==> Times(log, q) > 0
  {
    if log.Then? {
      TimesIn(log.before, q);
    }
  }

  lemma UniqueBefore(log: Log, q: nat)
    ensures Unique(Then(log, q)) <==> Unique(log) && q !in Seqs(log)
  {
    TimesIn(log, q);
    if Unique(Then(log, q)) {
      assert Times(Then(log, q), q) <= 1;
      forall p: nat ensures Times(log, p) <= 1 {
        assert Times(Then(log, q), p) <= 1;
      }
    } else {
      var p: nat :| Times(Then(log, q), p) > 1;
      assert p == q || Times(log, p) > 1;
    }
  }

  /** With the window full, one more number above a hole does not fit. */
  lemma FullWindowGrows(base: nat, s: Slot, known: set<nat>, q: nat)
    requires 0 !in known && SlotOk(s) && Exactly(s, known, base) && !Knows(s, q) && q > s.frontier + 1
    ensures |Window(base, known + {q})| == |s.gaps| + 1
  {
    GapsAreWindow(s, base, known);
    assert !Knows(s, s.frontier + 1);
    FrontierIsLongestRun(s, base);
    forall x: nat ensures x in Window(base, known + {q}) <==> x in Window(base, known) + {q} {
      FrontierIsLongestRun(s, x);
      assert NoHoleBelow(base, known, x) <==> x <= s.frontier;
      assert x > s.frontier ==> !NoHoleBelow(base, known + {q}, x) by {
        assert s.frontier + 1 !in known + {q};
      }
      assert x <= s.frontier ==> NoHoleBelow(base, known + {q}, x);
    }
    assert Window(base, known + {q}) == Window(base, known) + {q};
    assert Knows(s, q) <==> q in known || 0 < q <= base;
  }

  /** Re-recording after an exact recovery stays exact exactly when the new window fits. */
  lemma RecordIsExact(base: nat, s: Slot, log: Log, q: nat, maxGap: nat)
    requires 0 !in Seqs(log) && 0 < q && SlotOk(s) && |s.gaps| <= maxGap && Exactly(s, Seqs(log), base)
    ensures var t := Record(s, q, maxGap).0;
            Exactly(t, Seqs(Then(log, q)), base) <==> |Window(base, Seqs(Then(log, q)))| <= maxGap
  {
    var (t, c) := Record(s, q, maxGap);
    var known := Seqs(log);
    RecordMeans(s, q, maxGap);
    if c != Full {
      GapsAreWindow(t, base, known + {q});
    } else {
      assert !Knows(t, q);
      FullWindowGrows(base, s, known, q);
    }
  }

  /** Recovery knows every logged number again exactly when, at every point of the log, the
      numbers above a hole fit the window. */
  lemma {:induction false} RecoverIsExact(base: nat, log: Log, maxGap: nat)
    requires 0 !in Seqs(log) && Unique(log)
    ensures Exactly(Recover(base, log, maxGap), Seqs(log), base) <==> WindowsFit(base, log, maxGap)
  {
    RecoverMeans(base, log, maxGap);
    match log
    case Nothing =>
      assert Window(base, {}) == {};
    case Then(l, q) =>
      UniqueBefore(l, q);
      RecoverIsExact(base, l, maxGap);
      var s := Recover(base, l, maxGap);
      RecoverMeans(base, l, maxGap);
      RecordMeans(s, q, maxGap);
      if Exactly(s, Seqs(l), base) {
        RecordIsExact(base, s, l, q, maxGap);
      }
  }

  /** The numbers of a log that lie above the frontier fit the window: a bound a caller can see. */
  lemma {:induction false} SmallLogFits(base: nat, log: Log, maxGap: nat)
    requires |set q | q in Seqs(log) && q > base| <= maxGap
    ensures WindowsFit(base, log, maxGap)
  {
    var above := set q | q in Seqs(log) && q > base;
    Subset(Window(base, Seqs(log)), above);
    if log.Then? {
      Subset((set q | q in Seqs(log.before) && q > base), above);
      SmallLogFits(base, log.before, maxGap);
    }
  }

  // ---------------------------------------------------------------------
  // Steps

  lemma FreshOk(maxGap: nat)
    ensures ReceiverOk(FRESH, maxGap)
  {
  }

  /** Recording adds the number to what is known exactly when it is not refused. */
  lemma RecordAdds(s: Slot, known: set<nat>, base: nat, q: nat, maxGap: nat)
    requires SlotOk(s) && |s.gaps| <= maxGap && Exactly(s, known, base) && 0 < q
    ensures var t := Record(s, q, maxGap).0;
            SlotOk(t) && |t.gaps| <= maxGap && (Exactly(t, known + {q}, base) <==> !Refused(s, q, maxGap))
  {
    RecordMeans(s, q, maxGap);
    hide Record, SlotOk;
    if Refused(s, q, maxGap) {
      assert !Knows(Record(s, q, maxGap).0, q);
    }
  }

  /** A delivery that records its number applies it, any other leaves only an entry. */
  lemma DeliverIs(r: Receiver, q: nat, maxGap: nat)
    requires SlotOk(r.slot) && |r.slot.gaps| <= maxGap && 0 < q && HasRoom(r)
    ensures Step(r, Deliver(q), maxGap)
         == if Knows(r.slot, q) || Refused(r.slot, q, maxGap) then r.(entry := true)
            else Applied(r, q).(slot := Record(r.slot, q, maxGap).0, entry := true)
  {
    RecordMeans(r.slot, q, maxGap);
    hide Record, SlotOk;
  }

  /** `u` has applied `q` once more than `r`, and logged it. */
  ghost predicate AppliedMore(r: Receiver, u: Receiver, q: nat) {
    && (forall p: nat :: Times(u.applied, p) == Times(r.applied, p) + if p == q then 1 else 0)
    && (forall p: nat :: Times(u.wal, p) == Times(r.wal, p) + if p == q then 1 else 0)
    && u.rows == r.rows + {q}
  }

  ghost predicate AppliedSame(r: Receiver, u: Receiver) {
    u.applied == r.applied && u.wal == r.wal && u.rows == r.rows && u.parts == r.parts
  }

  /** What an event does, in terms of what is applied, logged and known. */
  ghost predicate Effect(r: Receiver, e: Event, u: Receiver, maxGap: nat) {
    match e
    case Deliver(q) =>
      if q > 0 && HasRoom(r) && !Knows(r.slot, q) && !Refused(r.slot, q, maxGap)
      then AppliedMore(r, u, q) && forall p: nat :: Knows(u.slot, p) <==> Knows(r.slot, p) || p == q
      else AppliedSame(r, u) && u.slot == r.slot
    case Ask(q) =>
      && AppliedSame(r, u) && u.slot == r.slot
      && u.asked == r.asked + if q > 0 && !Knows(r.slot, q) then multiset{q} else multiset{}
    case Commit(q) =>
      && u.slot == r.slot && u.asked == r.asked - multiset{q}
      && (if q in r.asked then AppliedMore(r, u, q) else AppliedSame(r, u))
      && u.unnoted == r.unnoted + if q in r.asked then multiset{q} else multiset{}
    case Discard(q) => AppliedSame(r, u) && u.slot == r.slot && u.asked == r.asked - multiset{q}
    case Note(q) =>
      && AppliedSame(r, u) && u.unnoted == r.unnoted - multiset{q}
      && forall p: nat :: Knows(u.slot, p) <==>
           Knows(r.slot, p) || (p == q > 0 && q in r.unnoted && HasRoom(r) && !Refused(r.slot, q, maxGap))
    case Base(b) =>
      && AppliedSame(r, u)
      && forall p: nat :: Knows(u.slot, p) <==> Knows(r.slot, p) || (HasRoom(r) && 0 < p < b)
    case Save => u == r.(saved := u.saved) && u.saved == r.slot.frontier
    case Flush => u.applied == r.applied && u.rows == r.rows && u.wal == Nothing && u.parts == r.rows
    case Crowd => u == r.(free := false)
    case Restart(_) =>
      && u.applied == r.applied && u.wal == r.wal && u.parts == r.parts && u.saved == r.saved
      && u.asked == u.unnoted == multiset{}
  }

  lemma NoneLess(m: multiset<nat>, q: nat)
    ensures m + multiset{} == m && (q !in m ==> m - multiset{q} == m)
  {
  }

  lemma DeliverMeans(r: Receiver, q: nat, maxGap: nat)
    requires SlotOk(r.slot) && |r.slot.gaps| <= maxGap
    ensures Effect(r, Deliver(q), Step(r, Deliver(q), maxGap), maxGap)
  {
    hide Record, SlotOk, Knows;
    if q > 0 && HasRoom(r) {
      RecordMeans(r.slot, q, maxGap);
      DeliverIs(r, q, maxGap);
    }
  }

  lemma NoteMeans(r: Receiver, q: nat, maxGap: nat)
    requires SlotOk(r.slot) && |r.slot.gaps| <= maxGap && 0 !in r.unnoted
    ensures Effect(r, Note(q), Step(r, Note(q), maxGap), maxGap)
  {
    hide Record, SlotOk, Knows;
    NoneLess(r.unnoted, q);
    if q > 0 {
      RecordMeans(r.slot, q, maxGap);
    }
  }

  lemma BaseMeans(r: Receiver, b: nat, maxGap: nat)
    requires SlotOk(r.slot)
    ensures Effect(r, Base(b), Step(r, Base(b), maxGap), maxGap)
  {
    hide Advance, SlotOk, Knows;
    if b > 1 {
      AdvanceMeans(r.slot, b - 1);
    }
  }

  lemma AskMeans(r: Receiver, q: nat, maxGap: nat)
    ensures Effect(r, Ask(q), Step(r, Ask(q), maxGap), maxGap)
    ensures Effect(r, Discard(q), Step(r, Discard(q), maxGap), maxGap)
  {
    hide Knows;
    NoneLess(r.asked, q);
  }

  lemma CommitMeans(r: Receiver, q: nat, maxGap: nat)
    ensures Effect(r, Commit(q), Step(r, Commit(q), maxGap), maxGap)
  {
    hide Knows;
    NoneLess(r.asked, q);
    NoneLess(r.unnoted, q);
  }

  lemma QuietMeans(r: Receiver, e: Event, maxGap: nat)
    requires e.Save? || e.Flush? || e.Crowd? || e.Restart?
    ensures Effect(r, e, Step(r, e, maxGap), maxGap)
  {
    hide Restored;
  }

  lemma StepMeans(r: Receiver, e: Event, maxGap: nat)
    requires SlotOk(r.slot) && |r.slot.gaps| <= maxGap && 0 !in r.unnoted
    ensures Effect(r, e, Step(r, e, maxGap), maxGap)
  {
    hide Step, Effect, SlotOk;
    match e
    case Deliver(q) => DeliverMeans(r, q, maxGap);
    case Ask(q) => AskMeans(r, q, maxGap);
    case Commit(q) => CommitMeans(r, q, maxGap);
    case Discard(q) => AskMeans(r, q, maxGap);
    case Note(q) => NoteMeans(r, q, maxGap);
    case Base(b) => BaseMeans(r, b, maxGap);
    case _ => QuietMeans(r, e, maxGap);
  }

  /** A number neither known nor in flight was not applied. */
  lemma NotedBefore(r: Receiver, q: nat, maxGap: nat)
    requires ReceiverOk(r, maxGap) && !Knows(r.slot, q) && !InFlight(r, q)
    ensures q !in Seqs(r.applied)
  {
  }

  /** What is in flight, noted and told does not depend on the ledger itself. */
  lemma SameNoted(r: Receiver, u: Receiver)
    requires u == r.(slot := u.slot, entry := u.entry)
    ensures Noted(u) == Noted(r) && (FlightsOk(u) <==> FlightsOk(r)) && (Told(u) <==> Told(r))
  {
  }

  /** Applying a number that is neither applied nor in flight. */
  lemma AppliedOnce(r: Receiver, q: nat)
    requires FlightsOk(r) && Told(r) && Unique(r.applied) && Unique(r.wal) && Seqs(r.wal) <= Seqs(r.applied)
    requires 0 < q && !InFlight(r, q) && q !in Seqs(r.applied)
    ensures var u := Applied(r, q);
            && FlightsOk(u) && Told(u) && Unique(u.applied) && Unique(u.wal) && Noted(u) == Noted(r) + {q}
  {
    UniqueBefore(r.applied, q);
    UniqueBefore(r.wal, q);
    hide Unique;
  }

  /** Applying a number in flight breaks what holds of the others. */
  lemma AppliedInFlight(r: Receiver, q: nat)
    requires FlightsOk(r) && InFlight(r, q)
    ensures !FlightsOk(Applied(r, q)) || !Unique(Applied(r, q).applied)
  {
    UniqueBefore(r.applied, q);
    hide Unique;
  }

  lemma DeliverKeepsOk(r: Receiver, q: nat, maxGap: nat)
    requires ReceiverOk(r, maxGap)
    ensures ReceiverOk(Step(r, Deliver(q), maxGap), maxGap) <==> Safe(r, Deliver(q), maxGap)
  {
    hide Record, SlotOk, Exactly, Unique, Knows, Refused, Told, FlightsOk, Noted;
    if q > 0 && HasRoom(r) {
      DeliverIs(r, q, maxGap);
      RecordAdds(r.slot, Noted(r), r.base, q, maxGap);
      if InFlight(r, q) {
        AppliedInFlight(r, q);
      } else if !Knows(r.slot, q) {
        NotedBefore(r, q, maxGap);
        AppliedOnce(r, q);
      }
      SameNoted(r, r.(entry := true));
      SameNoted(Applied(r, q), Applied(r, q).(slot := Record(r.slot, q, maxGap).0, entry := true));
    }
  }

  lemma AskKeepsOk(r: Receiver, q: nat, maxGap: nat)
    requires ReceiverOk(r, maxGap)
    ensures ReceiverOk(Step(r, Ask(q), maxGap), maxGap) <==> Safe(r, Ask(q), maxGap)
  {
    hide SlotOk, Unique;
    var u := Step(r, Ask(q), maxGap);
    assert Noted(u) == Noted(r);
    if q > 0 && !Knows(r.slot, q) {
      assert q in Seqs(r.applied) ==> q in r.unnoted;
      assert u.asked[q] == r.asked[q] + 1;
    }
  }

  lemma CommitKeepsOk(r: Receiver, q: nat, maxGap: nat)
    requires ReceiverOk(r, maxGap)
    ensures ReceiverOk(Step(r, Commit(q), maxGap), maxGap)
  {
    if q in r.asked {
      var u := Step(r, Commit(q), maxGap);
      UniqueBefore(r.applied, q);
      UniqueBefore(r.wal, q);
      assert r.asked[q] == 1;
      assert Noted(u) == Noted(r);
    }
  }

  lemma DiscardKeepsOk(r: Receiver, q: nat, maxGap: nat)
    requires ReceiverOk(r, maxGap)
    ensures ReceiverOk(Step(r, Discard(q), maxGap), maxGap)
  {
    assert Noted(Step(r, Discard(q), maxGap)) == Noted(r);
  }

  /** Noting an applied batch. */
  lemma NotedIsApplied(r: Receiver, q: nat)
    requires FlightsOk(r) && q in r.unnoted && 0 !in Seqs(r.applied)
    ensures 0 < q && var u := r.(unnoted := r.unnoted - multiset{q}); Noted(u) == Noted(r) + {q} && FlightsOk(u)
  {
    assert r.unnoted[q] == 1;
  }

  lemma NothingKnown(known: set<nat>, q: nat, base: nat)
    requires 0 < q && q in known
    ensures !Exactly(EMPTY, known, base)
  {
    assert !Knows(EMPTY, q);
  }

  lemma ToldStays(r: Receiver, u: Receiver)
    requires Told(r) && u.base == r.base && u.saved == r.saved && u.settled == r.settled && u.applied == r.applied
    ensures Told(u)
  {
  }

  lemma NoteKeepsOk(r: Receiver, q: nat, maxGap: nat)
    requires ReceiverOk(r, maxGap)
    ensures ReceiverOk(Step(r, Note(q), maxGap), maxGap) <==> Safe(r, Note(q), maxGap)
  {
    hide Record, SlotOk, Unique, Exactly, Knows, Seqs, Told;
    if q in r.unnoted {
      var u := Step(r, Note(q), maxGap);
      NotedIsApplied(r, q);
      if HasRoom(r) {
        RecordAdds(r.slot, Noted(r), r.base, q, maxGap);
        ToldStays(r, u);
      } else {
        NothingKnown(Noted(r) + {q}, q, r.base);
      }
    }
  }

  lemma BaseIsExact(s: Slot, known: set<nat>, base: nat, f: nat)
    requires SlotOk(s) && Exactly(s, known, base)
    ensures SlotOk(Advance(s, f)) && |Advance(s, f).gaps| <= |s.gaps| && Exactly(Advance(s, f), known, Max(base, f))
  {
    hide Advance, SlotOk, Knows;
    AdvanceMeans(s, f);
  }

  lemma BaseTold(r: Receiver, u: Receiver, f: nat)
    requires u == r.(slot := u.slot, entry := u.entry, base := u.base, settled := Max(r.settled, f))
    requires u.base in {r.base, Max(r.base, f)}
    ensures Noted(u) == Noted(r) && (FlightsOk(r) ==> FlightsOk(u)) && (Told(r) ==> Told(u))
  {
  }

  lemma BaseKeepsOk(r: Receiver, b: nat, maxGap: nat)
    requires ReceiverOk(r, maxGap)
    ensures ReceiverOk(Step(r, Base(b), maxGap), maxGap)
  {
    hide Advance, SlotOk, Exactly, Unique, Told, FlightsOk, Noted, Seqs;
    if b > 1 {
      BaseIsExact(r.slot, Noted(r), r.base, b - 1);
      BaseTold(r, Step(r, Base(b), maxGap), b - 1);
    }
  }

  lemma SaveKeepsOk(r: Receiver, maxGap: nat)
    requires ReceiverOk(r, maxGap)
    ensures ReceiverOk(Step(r, Save, maxGap), maxGap)
  {
    assert Noted(Step(r, Save, maxGap)) == Noted(r);
    forall q: nat | 0 < q <= r.slot.frontier && q > r.settled ensures q in Seqs(r.applied) {
      assert Knows(r.slot, q);
    }
  }

  /** A ledger that knows what it was told and, beyond that, only numbers of a part of the applied
      ones knows all applied ones exactly when that part is known and nothing above is missing. */
  lemma PartIsExact(s: Slot, part: set<nat>, all: set<nat>, base: nat)
    requires part <= all && 0 !in all
    requires forall q: nat :: Knows(s, q) ==> q in part || 0 < q <= base
    requires forall q: nat :: 0 < q <= base ==> Knows(s, q)
    ensures Exactly(s, all, base)
       <==> Exactly(s, part, base) && forall q: nat :: q in all && q > base ==> q in part
  {
    hide Knows;
    if Exactly(s, all, base) {
      forall q: nat ensures Knows(s, q) <==> q in part || 0 < q <= base {
        assert q in part ==> q in all;
      }
      forall q: nat | q in all && q > base ensures q in part {
        assert Knows(s, q);
      }
    }
  }

  /** After a restart the ledger knows exactly what was applied if and only if everything
      applied above the checkpointed frontier is still in the log and the log fits the window. */
  lemma RestartIsExact(r: Receiver, maxGap: nat)
    requires ReceiverOk(r, maxGap)
    ensures Exactly(Recover(r.saved, r.wal, maxGap), Seqs(r.applied), r.saved)
       <==> Covered(r) && WindowsFit(r.saved, r.wal, maxGap)
  {
    hide Recover, WindowsFit, SlotOk, Unique, Exactly, Knows, FlightsOk, Noted, Told, Seqs;
    RecoverMeans(r.saved, r.wal, maxGap);
    RecoverIsExact(r.saved, r.wal, maxGap);
    PartIsExact(Recover(r.saved, r.wal, maxGap), Seqs(r.wal), Seqs(r.applied), r.saved);
  }

  lemma RestartKeepsOk(r: Receiver, free: bool, maxGap: nat)
    requires ReceiverOk(r, maxGap)
    ensures ReceiverOk(Step(r, Restart(free), maxGap), maxGap) <==> Safe(r, Restart(free), maxGap)
  {
    var u := Step(r, Restart(free), maxGap);
    assert Noted(u) == Seqs(r.applied);
    if r.saved > 0 || free {
      RecoverMeans(r.saved, r.wal, maxGap);
      RestartIsExact(r, maxGap);
      hide WindowsFit, Unique;
      assert !u.entry ==> u.slot == Advance(EMPTY, 0) == EMPTY;
    } else if r.applied.Then? {
      NothingKnown(Seqs(r.applied), r.applied.q, 0);
    }
  }

  lemma NothingIsUnique()
    ensures Unique(Nothing)
  {
  }

  lemma QuietKeepsOk(r: Receiver, e: Event, maxGap: nat)
    requires ReceiverOk(r, maxGap) && (e.Flush? || e.Crowd?)
    ensures ReceiverOk(Step(r, e, maxGap), maxGap)
  {
    hide Unique, SlotOk;
    assert Noted(Step(r, e, maxGap)) == Noted(r);
    assert e.Flush? ==> Unique(Nothing) by { NothingIsUnique(); }
  }

  /** One event keeps everything in order exactly when it is safe.  The events that can make a
      batch be applied twice are a delivery of a number already in flight, a number refused for
      a full window or a full table after its rows were applied, and a restart whose log lacks an
      applied number above the checkpointed frontier, does not fit the window or finds no entry. */
  lemma StepKeepsOk(r: Receiver, e: Event, maxGap: nat)
    requires ReceiverOk(r, maxGap)
    ensures ReceiverOk(Step(r, e, maxGap), maxGap) <==> Safe(r, e, maxGap)
  {
    hide ReceiverOk, Step;
    match e
    case Deliver(q) => DeliverKeepsOk(r, q, maxGap);
    case Ask(q) => AskKeepsOk(r, q, maxGap);
    case Commit(q) => CommitKeepsOk(r, q, maxGap);
    case Discard(q) => DiscardKeepsOk(r, q, maxGap);
    case Note(q) => NoteKeepsOk(r, q, maxGap);
    case Base(b) => BaseKeepsOk(r, b, maxGap);
    case Save => SaveKeepsOk(r, maxGap);
    case Restart(free) => RestartKeepsOk(r, free, maxGap);
    case _ => QuietKeepsOk(r, e, maxGap);
  }

  // ---------------------------------------------------------------------
  // Runs

  /** Every event of the run is safe when its turn comes. */
  ghost predicate AllSafe(r: Receiver, es: Events, maxGap: nat)
    decreases es
  {
    match es
    case End => true
    case Do(e, rest) => Safe(r, e, maxGap) && AllSafe(Step(r, e, maxGap), rest, maxGap)
  }

  lemma {:induction false} RunKeepsOk(r: Receiver, es: Events, maxGap: nat)
    requires ReceiverOk(r, maxGap) && AllSafe(r, es, maxGap)
    ensures ReceiverOk(Run(r, es, maxGap), maxGap)
    decreases es
  {
    hide ReceiverOk, Safe, Step;
    if es.Do? {
      StepKeepsOk(r, es.e, maxGap);
      RunKeepsOk(Step(r, es.e, maxGap), es.rest, maxGap);
    }
  }

  /** A run after another. */
  function Join(a: Events, b: Events): Events {
    match a case End => b case Do(e, rest) => Do(e, Join(rest, b))
  }

  lemma {:induction false} RunJoin(r: Receiver, a: Events, b: Events, maxGap: nat)
    ensures Run(r, Join(a, b), maxGap) == Run(Run(r, a, maxGap), b, maxGap)
    decreases a
  {
    hide Step;
    if a.Do? {
      RunJoin(Step(r, a.e, maxGap), a.rest, b, maxGap);
    }
  }

  lemma CommitApplies(r: Receiver, q: nat, maxGap: nat)
    requires q in r.asked
    ensures var u := Run(r, Do(Commit(q), End), maxGap);
            u.applied == Then(r.applied, q) && u.asked == r.asked - multiset{q}
  {
  }

  /** An applied batch that the ledger does not know is applied again by the next delivery of it. */
  lemma ForgottenAppliesTwice(r: Receiver, q: nat, maxGap: nat)
    requires 0 < q && q in Seqs(r.applied) && !Knows(r.slot, q)
    ensures Times(Run(r, Do(Ask(q), Do(Commit(q), End)), maxGap).applied, q) >= 2
  {
    TimesIn(r.applied, q);
    var u := Step(r, Ask(q), maxGap);
    CommitApplies(u, q, maxGap);
    hide Step;
    assert Run(r, Do(Ask(q), Do(Commit(q), End)), maxGap) == Run(u, Do(Commit(q), End), maxGap);
  }

  lemma RunNone(r: Receiver, maxGap: nat)
    ensures Run(r, End, maxGap) == r
  {
  }

  lemma UnsafeDeliver(r: Receiver, q: nat, maxGap: nat) returns (p: nat, es: Events)
    requires ReceiverOk(r, maxGap) && !Safe(r, Deliver(q), maxGap)
    ensures Times(Run(Step(r, Deliver(q), maxGap), es, maxGap).applied, p) >= 2
  {
    var u := Step(r, Deliver(q), maxGap);
    RecordMeans(r.slot, q, maxGap);
    hide Record, SlotOk, Exactly, Unique, Run;
    assert u.applied == Then(r.applied, q) && u.asked == r.asked;
    p := q;
    if q in r.asked {
      es := Do(Commit(q), End);
      CommitApplies(u, q, maxGap);
    } else {
      es := End;
      TimesIn(r.applied, q);
      RunNone(u, maxGap);
    }
  }

  lemma UnsafeAsk(r: Receiver, q: nat, maxGap: nat) returns (p: nat, es: Events)
    requires ReceiverOk(r, maxGap) && !Safe(r, Ask(q), maxGap)
    ensures Times(Run(Step(r, Ask(q), maxGap), es, maxGap).applied, p) >= 2
  {
    var u := Step(r, Ask(q), maxGap);
    hide SlotOk, Exactly, Unique, Run;
    p := q;
    CommitApplies(u, q, maxGap);
    if q in r.asked {
      var v := Run(u, Do(Commit(q), End), maxGap);
      assert v.asked[q] > 0;
      CommitApplies(v, q, maxGap);
      es := Join(Do(Commit(q), End), Do(Commit(q), End));
      RunJoin(u, Do(Commit(q), End), Do(Commit(q), End), maxGap);
    } else {
      TimesIn(r.applied, q);
      es := Do(Commit(q), End);
    }
  }

  lemma UnsafeNote(r: Receiver, q: nat, maxGap: nat)
    requires ReceiverOk(r, maxGap) && !Safe(r, Note(q), maxGap)
    ensures var u := Step(r, Note(q), maxGap); 0 < q && q in Seqs(u.applied) && !Knows(u.slot, q)
  {
    RecordMeans(r.slot, q, maxGap);
    hide Record, SlotOk;
  }

  lemma UnsafeRestart(r: Receiver, free: bool, maxGap: nat) returns (q: nat)
    requires ReceiverOk(r, maxGap) && !Safe(r, Restart(free), maxGap)
    ensures var u := Step(r, Restart(free), maxGap); 0 < q && q in Seqs(u.applied) && !Knows(u.slot, q)
  {
    if r.saved > 0 || free {
      RecoverMeans(r.saved, r.wal, maxGap);
      RestartIsExact(r, maxGap);
      var s := Recover(r.saved, r.wal, maxGap);
      hide WindowsFit, Recover, Unique, SlotOk, Knows;
      q :| (Knows(s, q) <==> !(q in Seqs(r.applied) || 0 < q <= r.saved));
      assert Knows(s, q) ==> q in Seqs(r.wal) || 0 < q <= r.saved;
    } else {
      q := r.applied.q;
    }
  }

  /** What an unsafe event means: after it, deliveries of one batch in some order apply that batch
      twice. */
  lemma UnsafeAppliesTwice(r: Receiver, e: Event, maxGap: nat) returns (q: nat, es: Events)
    requires ReceiverOk(r, maxGap) && !Safe(r, e, maxGap)
    ensures Times(Run(Step(r, e, maxGap), es, maxGap).applied, q) >= 2
  {
    var u := Step(r, e, maxGap);
    match e
    case Deliver(p) =>
      q, es := UnsafeDeliver(r, p, maxGap);
    case Ask(p) =>
      q, es := UnsafeAsk(r, p, maxGap);
    case Note(p) =>
      q, es := p, Do(Ask(p), Do(Commit(p), End));
      UnsafeNote(r, p, maxGap);
      ForgottenAppliesTwice(u, p, maxGap);
    case Restart(free) =>
      q := UnsafeRestart(r, free, maxGap);
      es := Do(Ask(q), Do(Commit(q), End));
      ForgottenAppliesTwice(u, q, maxGap);
  }

  /** A run that is not safe throughout starts like one that applies a batch twice. */
  lemma {:induction false} UnsafeRunAppliesTwice(r: Receiver, es: Events, maxGap: nat)
    returns (a: Events, b: Events, c: Events, q: nat)
    requires ReceiverOk(r, maxGap) && !AllSafe(r, es, maxGap)
    ensures es == Join(a, b) && a != End && Times(Run(r, Join(a, c), maxGap).applied, q) >= 2
    decreases es
  {
    hide ReceiverOk, Safe, Step, Times;
    if Safe(r, es.e, maxGap) {
      StepKeepsOk(r, es.e, maxGap);
      a, b, c, q := UnsafeRunAppliesTwice(Step(r, es.e, maxGap), es.rest, maxGap);
      a := Do(es.e, a);
    } else {
      q, c := UnsafeAppliesTwice(r, es.e, maxGap);
      a, b := Do(es.e, End), es.rest;
      assert Join(End, b) == b && Join(End, c) == c;
      assert Join(a, b) == es && Join(a, c) == Do(es.e, c);
    }
  }

  /** EXISTS is returned only for applied batches while the sender keeps its promise, and
      the frontier is the longest run of noted or settled numbers. */
  lemma ExistsOnlyForApplied(r: Receiver, q: nat, maxGap: nat)
    requires ReceiverOk(r, maxGap) && 0 < q
    ensures Record(r.slot, q, maxGap).1 == Exists ==> q in Seqs(r.applied) || q <= r.settled
    ensures q in Noted(r) ==> Record(r.slot, q, maxGap).1 == Exists
    ensures NoHoleBelow(r.base, Noted(r), q) <==> q <= r.slot.frontier
    ensures q in r.slot.gaps <==> q in Noted(r) && q > r.slot.frontier
  {
    RecordMeans(r.slot, q, maxGap);
    FrontierIsLongestRun(r.slot, q);
    FrontierIsLongestRun(r.slot, r.base);
    hide Record;
    assert Knows(r.slot, q) <==> q in Noted(r) || 0 < q <= r.base;
    assert NoHoleBelow(r.base, Noted(r), q) <==> forall p :: 1 <= p <= q ==> Knows(r.slot, p);
  }

  // ---------------------------------------------------------------------
  // Rows

  /** No applied batch is lost, and a crash now would find each in a partition or in the log. */
  ghost predicate Kept(r: Receiver) {
    r.rows == Seqs(r.applied) == r.parts + Seqs(r.wal)
  }

  /** Replay puts back exactly the logged numbers above the checkpointed frontier. */
  lemma {:induction false} ReplayedIs(base: nat, log: Log, maxGap: nat)
    requires 0 !in Seqs(log) && Unique(log)
    ensures Replayed(base, log, maxGap) == set q | q in Seqs(log) && q > base
  {
    if log.Then? {
      UniqueBefore(log.before, log.q);
      ReplayedIs(base, log.before, maxGap);
      RecoverMeans(base, log.before, maxGap);
      hide Knows, Recover;
    }
  }

  lemma RestartKeepsRows(r: Receiver, free: bool, maxGap: nat)
    requires ReceiverOk(r, maxGap) && Kept(r)
    ensures Kept(Step(r, Restart(free), maxGap))
       <==> forall q: nat :: q in Seqs(r.applied) && q <= r.saved ==> q in r.parts
  {
    hide Replayed, Recover, Unique, SlotOk, Exactly, Told, FlightsOk, Noted;
    ReplayedIs(r.saved, r.wal, maxGap);
    var u := Step(r, Restart(free), maxGap);
    if r.saved == 0 && !free {
      assert forall q :: q in Seqs(r.applied) ==> q > 0;
    } else if Kept(u) {
      assert forall q :: q in Seqs(r.applied) && q <= r.saved ==> q in u.rows;
    }
  }

  lemma SameRows(r: Receiver, u: Receiver)
    requires Kept(r) && AppliedSame(r, u)
    ensures Kept(u)
  {
  }

  lemma MoreRows(r: Receiver, u: Receiver, q: nat)
    requires Kept(r) && u.applied == Then(r.applied, q) && u.wal == Then(r.wal, q) && u.rows == r.rows + {q}
    requires u.parts == r.parts
    ensures Kept(u)
  {
  }

  lemma DeliverKeepsRows(r: Receiver, q: nat, maxGap: nat)
    requires Kept(r)
    ensures Kept(Step(r, Deliver(q), maxGap))
  {
    hide Record, Kept, Seqs;
    if q > 0 && HasRoom(r) && Record(r.slot, q, maxGap).1 == Ok {
      MoreRows(r, Step(r, Deliver(q), maxGap), q);
    } else {
      SameRows(r, Step(r, Deliver(q), maxGap));
    }
  }

  lemma CommitKeepsRows(r: Receiver, q: nat, maxGap: nat)
    requires Kept(r)
    ensures Kept(Step(r, Commit(q), maxGap))
  {
    hide Kept, Seqs;
    if q in r.asked {
      MoreRows(r, Step(r, Commit(q), maxGap), q);
    }
  }

  lemma AskKeepsRows(r: Receiver, q: nat, maxGap: nat)
    requires Kept(r)
    ensures Kept(Step(r, Ask(q), maxGap)) && Kept(Step(r, Discard(q), maxGap)) && Kept(Step(r, Note(q), maxGap))
  {
    hide Record, Knows, Kept, Seqs;
    SameRows(r, Step(r, Ask(q), maxGap));
    SameRows(r, Step(r, Discard(q), maxGap));
    SameRows(r, Step(r, Note(q), maxGap));
  }

  lemma BaseKeepsRows(r: Receiver, b: nat, maxGap: nat)
    requires Kept(r)
    ensures Kept(Step(r, Base(b), maxGap)) && Kept(Step(r, Save, maxGap)) && Kept(Step(r, Crowd, maxGap))
  {
    hide Advance, Max, Kept, Seqs;
    SameRows(r, Step(r, Base(b), maxGap));
    SameRows(r, Step(r, Save, maxGap));
    SameRows(r, Step(r, Crowd, maxGap));
  }

  lemma FlushKeepsRows(r: Receiver, maxGap: nat)
    requires Kept(r)
    ensures Kept(Step(r, Flush, maxGap))
  {
  }

  lemma OtherKeepsRows(r: Receiver, e: Event, maxGap: nat)
    requires Kept(r) && !e.Restart?
    ensures Kept(Step(r, e, maxGap))
  {
    hide Step, Kept;
    match e
    case Deliver(q) => DeliverKeepsRows(r, q, maxGap);
    case Ask(q) => AskKeepsRows(r, q, maxGap);
    case Commit(q) => CommitKeepsRows(r, q, maxGap);
    case Discard(q) => AskKeepsRows(r, q, maxGap);
    case Note(q) => AskKeepsRows(r, q, maxGap);
    case Base(b) => BaseKeepsRows(r, b, maxGap);
    case Save => BaseKeepsRows(r, 0, maxGap);
    case Crowd => BaseKeepsRows(r, 0, maxGap);
    case Flush => FlushKeepsRows(r, maxGap);
  }

  /** Every event keeps all rows, except a restart: that does if and only if every applied batch
      up to the checkpointed frontier is in a partition. */
  lemma StepKeepsRows(r: Receiver, e: Event, maxGap: nat)
    requires ReceiverOk(r, maxGap) && Kept(r)
    ensures Kept(Step(r, e, maxGap))
       <==> (e.Restart? ==> forall q: nat :: q in Seqs(r.applied) && q <= r.saved ==> q in r.parts)
  {
    if e.Restart? {
      hide ReceiverOk, Step;
      RestartKeepsRows(r, e.free, maxGap);
    } else {
      OtherKeepsRows(r, e, maxGap);
    }
  }

  lemma RunThree(r: Receiver, a: Event, b: Event, c: Event, es: Events, maxGap: nat)
    ensures Run(r, Do(a, Do(b, Do(c, es))), maxGap)
         == Run(Step(Step(Step(r, a, maxGap), b, maxGap), c, maxGap), es, maxGap)
  {
    hide Step;
    var r1 := Step(r, a, maxGap);
    var r2 := Step(r1, b, maxGap);
    assert Run(r, Do(a, Do(b, Do(c, es))), maxGap) == Run(r1, Do(b, Do(c, es)), maxGap);
    assert Run(r1, Do(b, Do(c, es)), maxGap) == Run(r2, Do(c, es), maxGap);
    assert Run(r2, Do(c, es), maxGap) == Run(Step(r2, c, maxGap), es, maxGap);
  }

  lemma DeliverInOrder(r: Receiver, q: nat, maxGap: nat)
    requires HasRoom(r) && q == r.slot.frontier + 1 && r.slot.gaps == []
    ensures Step(r, Deliver(q), maxGap) == Applied(r, q).(slot := Slot(q, []), entry := true)
  {
  }

  /** A checkpoint of a batch that no flush wrote out: after a restart its rows are gone, and its
      number is still answered with EXISTS. */
  lemma EarlyCheckpointLosesRows(maxGap: nat)
    ensures var r := Run(FRESH, Do(Deliver(1), Do(Save, Do(Restart(true), End))), maxGap);
            r.applied == Then(Nothing, 1) && r.rows == {} && Record(r.slot, 1, maxGap).1 == Exists
  {
    hide Run;
    var r1 := Step(FRESH, Deliver(1), maxGap);
    DeliverInOrder(FRESH, 1, maxGap);
    var r2 := Step(r1, Save, maxGap);
    var r3 := Step(r2, Restart(true), maxGap);
    assert Recover(1, Nothing, maxGap) == Slot(1, []);
    assert r2.wal == Then(Nothing, 1) && Replayed(1, r2.wal, maxGap) == Replayed(1, Nothing, maxGap) + {} == {};
    assert r3.slot == Slot(1, []) && r3.rows == {};
    RunThree(FRESH, Deliver(1), Save, Restart(true), End, maxGap);
    RunNone(r3, maxGap);
  }

  // ---------------------------------------------------------------------
  // One delivery at a time, nothing truncated

  /** The log holds all that was applied, in the order the ledger recorded it. */
  ghost predicate Tracks(r: Receiver, maxGap: nat) {
    Seqs(r.wal) == Seqs(r.applied) && r.unnoted == multiset{} && WindowsFit(r.base, r.wal, maxGap)
  }

  lemma NothingUnnoted(r: Receiver)
    requires r.unnoted == multiset{}
    ensures Noted(r) == Seqs(r.applied)
  {
  }

  /** A number newly recorded still fits the windows. */
  lemma RecordTracks(r: Receiver, q: nat, maxGap: nat)
    requires ReceiverOk(r, maxGap) && Tracks(r, maxGap) && 0 < q
    ensures Record(r.slot, q, maxGap).1 == Ok <==> !Knows(r.slot, q) && !Refused(r.slot, q, maxGap)
    ensures Record(r.slot, q, maxGap).1 == Ok ==> WindowsFit(r.base, Then(r.wal, q), maxGap)
  {
    NothingUnnoted(r);
    RecordMeans(r.slot, q, maxGap);
    RecordIsExact(r.base, r.slot, r.wal, q, maxGap);
    hide Record, Window;
  }

  lemma EmptyFits(base: nat, log: Log, maxGap: nat)
    requires Seqs(log) == {}
    ensures WindowsFit(base, log, maxGap)
  {
    assert Window(base, {}) == {};
  }

  /** Deliveries that find the ledger free, promises, checkpoints and safe restarts keep the log
      in step with the ledger. */
  lemma TracksStays(r: Receiver, e: Event, maxGap: nat)
    requires ReceiverOk(r, maxGap) && Tracks(r, maxGap) && Safe(r, e, maxGap)
    requires e.Deliver? || e.Ask? || e.Discard? || e.Base? || e.Save? || e.Crowd? || e.Restart?
    ensures Tracks(Step(r, e, maxGap), maxGap)
  {
    hide Record, WindowsFit, Window, SlotOk, Unique, Exactly, Knows, Told, FlightsOk, Noted, Recover, Advance, Refused;
    match e
    case Deliver(q) =>
      if q > 0 {
        RecordTracks(r, q, maxGap);
      }
    case Base(b) =>
      if b > 1 {
        WindowsShrink(r.base, Max(r.base, b - 1), r.wal, maxGap);
      }
    case Restart(free) =>
      if r.saved == 0 && !free {
        EmptyFits(r.saved, r.wal, maxGap);
      }
    case _ =>
  }

  /** So does a write of the receiver that nothing interrupts. */
  lemma WriteTracks(r: Receiver, q: nat, maxGap: nat)
    requires ReceiverOk(r, maxGap) && Tracks(r, maxGap) && Safe(r, Ask(q), maxGap) && 0 < q && !Knows(r.slot, q)
    requires HasRoom(r) && !Refused(r.slot, q, maxGap)
    ensures Tracks(Step(Step(Step(r, Ask(q), maxGap), Commit(q), maxGap), Note(q), maxGap), maxGap)
  {
    hide Record, WindowsFit, Window, SlotOk, Unique, Exactly, Knows, Told, FlightsOk, Noted, Refused;
    RecordTracks(r, q, maxGap);
    var a := Step(r, Ask(q), maxGap);
    var b := Step(a, Commit(q), maxGap);
    assert b.unnoted == multiset{q};
  }

  /** A safe restart changes nothing the ledger knows when the checkpoint is no older than the
      last base promise, truncated log or not. */
  lemma SafeRestartRestores(r: Receiver, free: bool, maxGap: nat)
    requires ReceiverOk(r, maxGap) && Safe(r, Restart(free), maxGap) && r.unnoted == multiset{}
    requires r.base <= r.saved && r.settled <= r.base
    ensures Step(r, Restart(free), maxGap).slot == r.slot
  {
    NothingUnnoted(r);
    RestartKeepsOk(r, free, maxGap);
    NothingUnnoted(Step(r, Restart(free), maxGap));
    hide Recover, WindowsFit, SlotOk, Restored;
    KnownDetermines(Step(r, Restart(free), maxGap).slot, r.slot);
  }

  /** With the log in step the restart is safe, if it finds an entry. */
  lemma FreshCheckpointRestores(r: Receiver, free: bool, maxGap: nat)
    requires ReceiverOk(r, maxGap) && Tracks(r, maxGap) && r.base <= r.saved && r.settled <= r.base
    requires r.saved > 0 || free
    ensures Safe(r, Restart(free), maxGap) && Step(r, Restart(free), maxGap).slot == r.slot
  {
    WindowsShrink(r.base, r.saved, r.wal, maxGap);
    SafeRestartRestores(r, free, maxGap);
  }

  // ---------------------------------------------------------------------
  // The failing runs

  lemma RunOne(r: Receiver, e: Event, es: Events, maxGap: nat)
    ensures Run(r, Do(e, es), maxGap) == Run(Step(r, e, maxGap), es, maxGap)
  {
  }

  /** Two overlapping deliveries of one batch: both ask before either is noted. */
  function Overlapping(q: nat): Events {
    Do(Ask(q), Do(Ask(q), Do(Commit(q), Do(Note(q), Do(Commit(q), Do(Note(q), End))))))
  }

  /** Both find it unseen and both apply it, whatever the window. */
  lemma OverlapAppliesTwice(q: nat, maxGap: nat)
    requires q > 0
    ensures Times(Run(FRESH, Overlapping(q), maxGap).applied, q) == 2
  {
    hide Record, Run;
    var r1 := Step(FRESH, Ask(q), maxGap);
    var r2 := Step(r1, Ask(q), maxGap);
    assert r2.asked == multiset{q, q} && r2.applied == Nothing;
    var a := Step(r2, Commit(q), maxGap);
    assert a.applied == Then(Nothing, q) && a.asked == multiset{q};
    var r4 := Step(a, Note(q), maxGap);
    assert r4.applied == a.applied && r4.asked == a.asked;
    var r5 := Step(r4, Commit(q), maxGap);
    var b := Step(r5, Note(q), maxGap);
    assert b.applied == r5.applied == Then(a.applied, q);
    assert Times(b.applied, q) == Times(Nothing, q) + 1 + 1;
    hide Step;
    RunThree(FRESH, Ask(q), Ask(q), Commit(q), Do(Note(q), Do(Commit(q), Do(Note(q), End))), maxGap);
    RunThree(a, Note(q), Commit(q), Note(q), End, maxGap);
    RunNone(b, maxGap);
  }

  function Write(q: nat, then_: Events): Events {
    Do(Ask(q), Do(Commit(q), Do(Note(q), then_)))
  }

  /** What a whole write leaves. */
  function Written(r: Receiver, q: nat, maxGap: nat): Receiver {
    if HasRoom(r) then Applied(r, q).(slot := Record(r.slot, q, maxGap).0, entry := true) else Applied(r, q)
  }

  /** One whole write of a number that is neither known nor in flight. */
  lemma WriteIs(r: Receiver, q: nat, then_: Events, maxGap: nat)
    requires 0 < q && !Knows(r.slot, q) && q !in r.asked && q !in r.unnoted
    ensures Run(r, Write(q, then_), maxGap) == Run(Written(r, q, maxGap), then_, maxGap)
  {
    hide Record, Run, Knows, Seqs;
    var a := Step(r, Ask(q), maxGap);
    var b := Step(a, Commit(q), maxGap);
    assert a.asked - multiset{q} == r.asked;
    assert b.unnoted - multiset{q} == r.unnoted;
    RunThree(r, Ask(q), Commit(q), Note(q), then_, maxGap);
  }

  /** A batch applied and then refused for a full window is applied again by a retry. */
  lemma FullWindowAppliesTwice()
    ensures Times(Run(FRESH, Write(2, Write(4, Write(4, End))), 1).applied, 4) == 2
  {
    hide Run, Write;
    WriteIs(FRESH, 2, Write(4, Write(4, End)), 1);
    var a := Applied(FRESH, 2).(slot := Record(EMPTY, 2, 1).0, entry := true);
    assert a.slot == Slot(0, [2]);
    WriteIs(a, 4, Write(4, End), 1);
    var b := Applied(a, 4);
    assert Record(a.slot, 4, 1).0 == a.slot;
    WriteIs(b, 4, End, 1);
    RunNone(Applied(b, 4), 1);
  }

  /** With no entry left in the table nothing is ever seen: every retry is applied, whatever the
      window, with no overlap and no restart. */
  lemma FullTableAppliesTwice(q: nat, maxGap: nat)
    requires q > 0
    ensures Times(Run(FRESH, Do(Crowd, Write(q, Write(q, End))), maxGap).applied, q) == 2
  {
    hide Run, Write;
    var a := Step(FRESH, Crowd, maxGap);
    RunOne(FRESH, Crowd, Write(q, Write(q, End)), maxGap);
    WriteIs(a, q, Write(q, End), maxGap);
    var b := Applied(a, q);
    WriteIs(b, q, End, maxGap);
    RunNone(Applied(b, q), maxGap);
    assert Times(Applied(b, q).applied, q) == Times(Nothing, q) + 1 + 1;
  }

  lemma DeliverEarly(r: Receiver, q: nat, maxGap: nat)
    requires HasRoom(r) && q > r.slot.frontier + 1 && r.slot.gaps == [] && maxGap > 0
    ensures Step(r, Deliver(q), maxGap) == Applied(r, q).(slot := Slot(r.slot.frontier, [q]), entry := true)
  {
  }

  /** Two numbers in a row above a hole do not fit a window of one. */
  lemma SecondIsRefused(q: nat)
    requires q > 1
    ensures Recover(0, Then(Then(Nothing, q), q + 1), 1) == Slot(0, [q])
  {
    var s := Recover(0, Then(Nothing, q), 1);
    assert Recover(0, Nothing, 1) == EMPTY && Rank([], q) == 0;
    assert s == Slot(0, [q]);
    assert Record(s, q + 1, 1).0 == s;
  }

  /** A restart from a checkpoint older than a base promise can forget an applied batch,
      which a retry then applies a second time. */
  lemma StaleCheckpointAppliesTwice()
    ensures var es := Do(Base(5), Do(Deliver(5), Do(Deliver(6), Do(Restart(true), Do(Base(5), Do(Deliver(6), End))))));
            Times(Run(FRESH, es, 1).applied, 6) == 2
  {
    hide Run, Record, Recover;
    var r1 := Step(FRESH, Base(5), 1);
    assert r1.slot == Slot(4, []);
    var r2 := Step(r1, Deliver(5), 1);
    DeliverInOrder(r1, 5, 1);
    var r3 := Step(r2, Deliver(6), 1);
    DeliverInOrder(r2, 6, 1);
    var r4 := Step(r3, Restart(true), 1);
    SecondIsRefused(5);
    var r5 := Step(r4, Base(5), 1);
    assert r5.slot == Slot(5, []) by { assert Rank([5], 5) == 0; }
    DeliverInOrder(r5, 6, 1);
    hide Step;
    RunThree(FRESH, Base(5), Deliver(5), Deliver(6), Do(Restart(true), Do(Base(5), Do(Deliver(6), End))), 1);
    RunThree(r3, Restart(true), Base(5), Deliver(6), End, 1);
    RunNone(Step(r5, Deliver(6), 1), 1);
  }

  /** A flush truncates the log of a batch above the checkpointed frontier; after a restart a
      retry applies it a second time. */
  lemma TruncatedLogAppliesTwice()
    ensures var es := Do(Deliver(1), Do(Deliver(3), Do(Save, Do(Flush, Do(Restart(true), Do(Deliver(3), End))))));
            Times(Run(FRESH, es, 8).applied, 3) == 2
  {
    hide Run, Record;
    var r1 := Step(FRESH, Deliver(1), 8);
    DeliverInOrder(FRESH, 1, 8);
    var r2 := Step(r1, Deliver(3), 8);
    DeliverEarly(r1, 3, 8);
    var r3 := Step(r2, Save, 8);
    var r5 := Step(Step(r3, Flush, 8), Restart(true), 8);
    assert r5.slot == Slot(1, []);
    DeliverEarly(r5, 3, 8);
    hide Step, Recover;
    RunThree(FRESH, Deliver(1), Deliver(3), Save, Do(Flush, Do(Restart(true), Do(Deliver(3), End))), 8);
    RunThree(r3, Flush, Restart(true), Deliver(3), End, 8);
    RunNone(Step(r5, Deliver(3), 8), 8);
  }
}
