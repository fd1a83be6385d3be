/**
 The single-goroutine write pipeline (sdk/go/pipeline.go:71-208).  The functions state
 what each call does to the pipeline; the class at the end is the program, with the
 drain loop of Flush.  The socket is the list of replies it will still deliver.
 */
module WritePipeline {

  const MAX_DEPTH: nat := 64

  datatype Kind = WriteAck | ErrorFrame | Other

  datatype Reply = Frame(reqId: nat, kind: Kind, len: nat) | Broken

  /** What a call returns; `Fatal` is the sticky error. */
  datatype Outcome = Nil | Rejected | Fatal | ErrClosed | ErrBatch

  /** A Write call: no rows; a batch that cannot be encoded or is too large; or a batch whose
      send succeeds or fails. */
  datatype Batch = Empty | Unsendable | Rows(sendOk: bool)

  /**
   `inflight` holds the request ids sent and not answered, oldest first.  `next` is the
   connection's request counter.  The last three fields count what has happened.
   */
  datatype Pipe = Pipe(depth: nat, inflight: seq<nat>, dead: bool, closed: bool, next: nat,
                       replies: seq<Reply>, sent: nat, acked: nat, rejected: nat)

  function Clamp(depth: nat): nat {
    if depth > MAX_DEPTH then MAX_DEPTH else depth
  }

  function Open(depth: nat, next: nat, replies: seq<Reply>): Pipe {
    Pipe(Clamp(depth), [], false, false, next, replies, 0, 0, 0)
  }

  function MarkDead(p: Pipe): Pipe {
    p.(dead := true, inflight := [])
  }

  /** Consume the reply to the oldest batch in flight. */
  function ReadAck(p: Pipe): (Pipe, Outcome)
    requires p.inflight != []
  {
    if p.replies == [] then (MarkDead(p), Fatal)
    else
      var f, q := p.replies[0], p.(replies := p.replies[1..]);
      if f.Broken? then (MarkDead(q), Fatal)
      else if f.reqId != p.inflight[0] then (MarkDead(q), Fatal)
      else
        var r := q.(inflight := p.inflight[1..]);
        if f.kind == ErrorFrame then (r.(rejected := r.rejected + 1), Rejected)
        else if f.kind != WriteAck || f.len < 4 then (MarkDead(r), Fatal)
        else (r.(acked := r.acked + 1), Nil)
  }

  function SendBatch(p: Pipe, ok: bool): (Pipe, Outcome) {
    if !ok then (MarkDead(p), Fatal)
    else (p.(inflight := p.inflight + [p.next], next := p.next + 1, sent := p.sent + 1), Nil)
  }

  function Write(p: Pipe, b: Batch): (Pipe, Outcome) {
    if p.closed then (p, ErrClosed)
    else if p.dead then (p, Fatal)
    else if b.Empty? then (p, Nil)
    else if b.Unsendable? then (p, ErrBatch)
    else if |p.inflight| >= p.depth && p.inflight != [] then
      var (q, o) := ReadAck(p);
      if o != Nil then (q, o) else SendBatch(q, b.sendOk)
    else SendBatch(p, b.sendOk)
  }

  /** Drain; `first` is the first error seen so far. */
  function Drain(p: Pipe, first: Outcome): (Pipe, Outcome)
    decreases |p.inflight|
  {
    if p.inflight == [] then (p, first)
    else
      var (q, o) := ReadAck(p);
      var e := if first == Nil then o else first;
      if q.dead || |q.inflight| >= |p.inflight| then (q, e) else Drain(q, e)
  }

  function Flush(p: Pipe): (Pipe, Outcome) {
    if p.closed then (p, ErrClosed) else if p.dead then (p, Fatal) else Drain(p, Nil)
  }

  function Close(p: Pipe): (Pipe, Outcome) {
    if p.closed then (p, Nil) else var (q, o) := Flush(p); (q.(closed := true), o)
  }

  // ---------------------------------------------------------------------
  // What every call keeps

  /** The oldest request id not answered. */
  function Oldest(p: Pipe): int {
    p.next - |p.inflight|
  }

  ghost predicate PipeOk(p: Pipe) {
    && 1 <= p.depth <= MAX_DEPTH && |p.inflight| <= p.depth
    // the ids in flight are the last ones handed out, in order
    && (forall i :: 0 <= i < |p.inflight| ==> p.inflight[i] == Oldest(p) + i)
    // nothing is lost while the pipeline lives
    && (!p.dead ==> p.sent == p.acked + p.rejected + |p.inflight|)
    && (p.dead ==> p.inflight == [])
  }

  /** The replies an in-order server sends: one per request, echoing its id. */
  ghost predicate InOrder(p: Pipe) {
    forall i :: 0 <= i < |p.replies| && p.replies[i].Frame? ==> p.replies[i].reqId == Oldest(p) + i
  }

  /** The replies a correct server sends: in order, and acknowledgements or rejections. */
  ghost predicate Proper(p: Pipe) {
    && InOrder(p)
    && forall i :: 0 <= i < |p.replies| ==>
        && p.replies[i].Frame?
        && (p.replies[i].kind == ErrorFrame || (p.replies[i].kind == WriteAck && p.replies[i].len >= 4))
  }

  /** Reply `i` is the acknowledgement or rejection of the batch that is `i`-th in flight. */
  ghost predicate AnswersAt(p: Pipe, i: nat) {
    && i < |p.inflight| && i < |p.replies| && p.replies[i].Frame? && p.replies[i].reqId == p.inflight[i]
    && (p.replies[i].kind == ErrorFrame || (p.replies[i].kind == WriteAck && p.replies[i].len >= 4))
  }

  ghost predicate Answers(p: Pipe) {
    AnswersAt(p, 0)
  }

  /** Every batch in flight is answered, in order. */
  ghost predicate AllAnswered(p: Pipe) {
    forall i :: 0 <= i < |p.inflight| ==> AnswersAt(p, i)
  }

  /** Reply `i` is a rejection. */
  predicate Rejects(p: Pipe, i: nat) {
    i < |p.replies| && p.replies[i].Frame? && p.replies[i].kind == ErrorFrame
  }

  /** No batch in flight is rejected. */
  ghost predicate NoneRejected(p: Pipe) {
    forall i :: 0 <= i < |p.inflight| ==> !Rejects(p, i)
  }

  lemma OpenOk(depth: nat, next: nat, replies: seq<Reply>)
    requires depth >= 1
    ensures var p := Open(depth, next, replies);
            && PipeOk(p) && !p.dead && !p.closed && p.inflight == [] && p.sent == 0 && p.next == next
            && (depth <= 64 ==> p.depth == depth) && (depth > 64 ==> p.depth == 64)
  {
  }

  /** Reading a reply answers the oldest batch, or kills the pipeline; with an in-order server
      it is never the id check that kills it. */
  lemma ReadAckMeans(p: Pipe)
    requires PipeOk(p) && !p.dead && p.inflight != []
    ensures var (q, o) := ReadAck(p);
            && PipeOk(q) && q.sent == p.sent && q.next == p.next && q.depth == p.depth && q.closed == p.closed
            && (o == Fatal <==> q.dead) && (o == Fatal <==> !Answers(p))
            && (o == Nil ==> p.replies[0].kind == WriteAck) && (o == Rejected ==> p.replies[0].kind == ErrorFrame)
            && (o == Nil ==> q.acked == p.acked + 1 && q.rejected == p.rejected)
            && (o == Rejected ==> q.acked == p.acked && q.rejected == p.rejected + 1)
            && o in {Nil, Rejected, Fatal}
            && (!q.dead ==> q.inflight == p.inflight[1..])
            && (q.dead ==> q.acked == p.acked && q.rejected == p.rejected)
            && (InOrder(p) && !q.dead ==> InOrder(q))
            && (Proper(p) && p.replies != [] ==> !q.dead && Proper(q))
            && q.replies == if p.replies == [] then [] else p.replies[1..]
  {
    if p.replies != [] {
      var q := ReadAck(p).0;
      assert !q.dead ==> Oldest(q) == Oldest(p) + 1;
      assert forall i :: 0 <= i < |q.replies| ==> q.replies[i] == p.replies[i + 1];
    }
  }

  lemma SendBatchMeans(p: Pipe, ok: bool)
    requires PipeOk(p) && !p.dead && |p.inflight| < p.depth
    ensures var (q, o) := SendBatch(p, ok);
            && PipeOk(q) && (o == Fatal <==> !ok) && q.dead == !ok && o in {Nil, Fatal}
            && q.closed == p.closed && q.acked == p.acked && q.rejected == p.rejected
            && q.sent == p.sent + (if ok then 1 else 0)
            && q.replies == p.replies && q.depth == p.depth && (ok ==> Oldest(q) == Oldest(p))
            && (ok ==> q.next == p.next + 1 && q.inflight == p.inflight + [p.next])
  {
  }

  /** Write returns nil for a batch exactly when it was sent, and then it was sent once, last,
      with a fresh id; otherwise nothing is sent.  Below the depth no reply is read.  At the depth
      one is, and if it acknowledges the oldest batch the new one is sent in its place. */
  lemma WriteMeans(p: Pipe, b: Batch)
    requires PipeOk(p)
    ensures var (q, o) := Write(p, b);
            && PipeOk(q) && q.depth == p.depth && q.closed == p.closed
            && (q.sent == p.sent + 1 <==> o == Nil && b.Rows?) && (q.sent != p.sent + 1 ==> q.sent == p.sent)
            && (q.sent == p.sent + 1 ==>
                  q.next == p.next + 1 && q.inflight != [] && q.inflight[|q.inflight| - 1] == p.next)
            && (o == Nil ==> q.rejected == p.rejected && q.dead == p.dead)
            && (p.dead || p.closed ==> q == p && o == (if p.closed then ErrClosed else Fatal))
            && (!p.closed && q.dead ==> o == Fatal)
            && (Proper(p) && !p.dead && (|p.inflight| >= p.depth ==> p.replies != []) && !q.dead ==> Proper(q))
            && (!p.closed && !p.dead && !b.Rows? ==> q == p && o == if b.Empty? then Nil else ErrBatch)
            && (!p.closed && !p.dead && b.Rows? && |p.inflight| < p.depth ==>
                  && q.replies == p.replies && q.acked == p.acked && q.rejected == p.rejected
                  && o == (if b.sendOk then Nil else Fatal)
                  && q.inflight == if b.sendOk then p.inflight + [p.next] else [])
            && (!p.closed && !p.dead && b.Rows? && |p.inflight| == p.depth ==>
                  && q.replies == (if p.replies == [] then [] else p.replies[1..])
                  && (!Answers(p) ==> o == Fatal && q.acked == p.acked && q.rejected == p.rejected)
                  && (Answers(p) && Rejects(p, 0) ==>
                        o == Rejected && !q.dead && q.inflight == p.inflight[1..]
                        && q.acked == p.acked && q.rejected == p.rejected + 1)
                  && (Answers(p) && !Rejects(p, 0) ==>
                        && q.acked == p.acked + 1 && q.rejected == p.rejected
                        && o == (if b.sendOk then Nil else Fatal)
                        && q.inflight == if b.sendOk then p.inflight[1..] + [p.next] else []))
  {
    if !p.closed && !p.dead && b.Rows? {
      if |p.inflight| >= p.depth {
        ReadAckMeans(p);
        var (q, o) := ReadAck(p);
        if o == Nil {
          SendBatchMeans(q, b.sendOk);
        }
      } else {
        SendBatchMeans(p, b.sendOk);
      }
    }
  }

  lemma AnsweredRest(p: Pipe)
    requires PipeOk(p) && !p.dead && p.inflight != [] && Answers(p)
    ensures var q := ReadAck(p).0;
            && (AllAnswered(p) <==> AllAnswered(q))
            && (NoneRejected(p) <==> !Rejects(p, 0) && NoneRejected(q))
  {
    var q := ReadAck(p).0;
    assert forall i :: 0 < i < |p.inflight| ==>
        AnswersAt(p, i) == AnswersAt(q, i - 1) && Rejects(p, i) == Rejects(q, i - 1);
    assert forall i :: 0 <= i < |q.inflight| ==>
        AnswersAt(q, i) == AnswersAt(p, i + 1) && Rejects(q, i) == Rejects(p, i + 1);
  }

  /** A drain survives exactly when every batch in flight is answered, and then it reads just
      those replies.  It returns nil exactly when all of them are acknowledgements, and otherwise
      the first error: a rejection if one came before the pipeline died. */
  lemma {:induction false} DrainMeans(p: Pipe, first: Outcome)
    requires PipeOk(p) && !p.dead && first in {Nil, Rejected}
    ensures var (q, o) := Drain(p, first);
            && PipeOk(q) && q.inflight == [] && q.closed == p.closed && q.sent == p.sent
            && (InOrder(p) && !q.dead ==> InOrder(q))
            && (!q.dead ==> |q.replies| == |p.replies| - |p.inflight|)
            && (o == Nil <==> first == Nil && !q.dead && q.acked == p.acked + |p.inflight|)
            && (!q.dead ==> q.acked + q.rejected == p.acked + p.rejected + |p.inflight|)
            && (o == Fatal ==> q.dead) && o in {Nil, Rejected, Fatal}
            && q.rejected >= p.rejected && q.acked <= p.acked + |p.inflight|
            && (Proper(p) && |p.replies| >= |p.inflight| ==> !q.dead && Proper(q))
            && (!q.dead <==> AllAnswered(p)) && (!q.dead ==> q.replies == p.replies[|p.inflight|..])
            && (o == Rejected <==> first == Rejected || q.rejected > p.rejected)
            && (AllAnswered(p) ==> (q.rejected == p.rejected <==> NoneRejected(p)))
    decreases |p.inflight|
  {
    if p.inflight != [] {
      ReadAckMeans(p);
      var (q, o) := ReadAck(p);
      if !q.dead {
        AnsweredRest(p);
        DrainMeans(q, if first == Nil then o else first);
      }
    }
  }

  // ---------------------------------------------------------------------
  // Whole sessions

  datatype Call = DoWrite(b: Batch) | DoFlush | DoClose

  function Do(p: Pipe, c: Call): (Pipe, Outcome) {
    match c
    case DoWrite(b) => Write(p, b)
    case DoFlush => Flush(p)
    case DoClose => Close(p)
  }

  /** The pipeline after any mix of calls, and whether all of them returned nil. */
  function Session(p: Pipe, cs: seq<Call>): (Pipe, bool)
    decreases |cs|
  {
    if cs == [] then (p, true)
    else
      var (q, o) := Do(p, cs[0]);
      var (r, ok) := Session(q, cs[1..]);
      (r, ok && o == Nil)
  }

  function Batches(cs: seq<Call>): nat {
    if cs == [] then 0 else (if cs[0].DoWrite? && cs[0].b.Rows? then 1 else 0) + Batches(cs[1..])
  }

  /** One call of a session: nil means that it sent its batch, if it had one, and that nothing was
      rejected; after a nil Flush or Close nothing is in flight. */
  lemma DoMeans(p: Pipe, c: Call)
    requires PipeOk(p)
    ensures var (q, o) := Do(p, c);
            && PipeOk(q)
            && (o == Nil ==> q.rejected == p.rejected && q.dead == p.dead && q.sent == p.sent + Batches([c]))
            && (o == Nil && c == DoFlush ==> !q.dead && q.inflight == [] && q.acked + q.rejected == q.sent)
            && (o == Nil && c == DoClose && !p.closed ==> !q.dead && q.inflight == [] && q.acked + q.rejected == q.sent)
            && (c == DoFlush && !p.dead && !p.closed && o != Nil ==> q.dead || q.rejected > p.rejected)
            && (p.dead ==> q == p.(closed := q.closed)) && (p.closed ==> q == p)
            && (p.closed ==> o == if c == DoClose then Nil else ErrClosed) && (p.dead && !p.closed ==> o == Fatal)
            && q.closed == (p.closed || c == DoClose)
            && (c == DoFlush && !p.dead && !p.closed ==> (o == Nil <==> AllAnswered(p) && NoneRejected(p)))
            && (c == DoClose && !p.closed ==> (q.(closed := false), o) == Do(p, DoFlush))
  {
    match c
    case DoWrite(b) =>
      WriteMeans(p, b);
    case _ =>
      if !p.closed && !p.dead {
        DrainMeans(p, Nil);
      }
  }

  lemma {:induction false} SessionKeepsOk(p: Pipe, cs: seq<Call>)
    requires PipeOk(p)
    ensures var (q, ok) := Session(p, cs);
            && PipeOk(q)
            && (ok ==> q.sent == p.sent + Batches(cs) && q.rejected == p.rejected && q.dead == p.dead)
            && (p.dead ==> q == p.(closed := q.closed)) && (p.closed ==> q == p)
    decreases |cs|
  {
    hide PipeOk, Do;
    if cs != [] {
      DoMeans(p, cs[0]);
      SessionKeepsOk(Do(p, cs[0]).0, cs[1..]);
    }
  }

  /** In any mix of Write, Flush and Close calls: if all of them and a final Flush return nil,
      every batch was acknowledged.  If only the final Flush does not, the pipeline was closed,
      or is dead, or a batch was rejected. */
  lemma AllNilMeansAllAcked(depth: nat, next: nat, replies: seq<Reply>, cs: seq<Call>)
    requires depth >= 1
    ensures var (q, ok) := Session(Open(depth, next, replies), cs);
            var (r, o) := Flush(q);
            && (ok && o == Nil ==> r.acked == r.sent == Batches(cs) && r.rejected == 0 && r.inflight == [])
            && (ok && o != Nil ==> q.closed || r.dead || r.rejected > 0)
  {
    var p := Open(depth, next, replies);
    OpenOk(depth, next, replies);
    SessionKeepsOk(p, cs);
    var (q, ok) := Session(p, cs);
    DoMeans(q, DoFlush);
  }

  /** The next reply carries an id other than the oldest one in flight. */
  predicate Desync(p: Pipe) {
    p.inflight != [] && p.replies != [] && p.replies[0].Frame? && p.replies[0].reqId != p.inflight[0]
  }

  /** Some reply read while draining is out of step. */
  predicate DesyncsInDrain(p: Pipe)
    decreases |p.inflight|
  {
    p.inflight != [] &&
    (Desync(p) || var q := ReadAck(p).0; !q.dead && |q.inflight| < |p.inflight| && DesyncsInDrain(q))
  }

  /** Some reply read in the calls, or in a final drain, is out of step. */
  predicate DesyncsIn(p: Pipe, cs: seq<Call>)
    decreases |cs|
  {
    !p.dead && !p.closed &&
    if cs == [] then DesyncsInDrain(p)
    else || (if cs[0].DoWrite? then cs[0].b.Rows? && |p.inflight| >= p.depth && Desync(p) else DesyncsInDrain(p))
         || DesyncsIn(Do(p, cs[0]).0, cs[1..])
  }

  lemma {:induction false} DrainStaysInStep(p: Pipe)
    requires PipeOk(p) && !p.dead && InOrder(p)
    ensures !DesyncsInDrain(p)
    decreases |p.inflight|
  {
    if p.inflight != [] {
      ReadAckMeans(p);
      var q := ReadAck(p).0;
      if !q.dead {
        DrainStaysInStep(q);
      }
    }
  }

  lemma CallStaysInOrder(p: Pipe, c: Call)
    requires PipeOk(p) && !p.dead && InOrder(p)
    ensures var q := Do(p, c).0; !q.dead ==> InOrder(q)
  {
    if !p.closed {
      match c
      case DoWrite(b) =>
        if b.Rows? && |p.inflight| >= p.depth {
          ReadAckMeans(p);
        }
      case _ =>
        DrainMeans(p, Nil);
    }
  }

  lemma InStep(p: Pipe)
    requires PipeOk(p) && InOrder(p)
    ensures !Desync(p)
  {
  }

  /** With an in-order server the id check never fails, in any session. */
  lemma {:induction false} InOrderNeverDesyncs(p: Pipe, cs: seq<Call>)
    requires PipeOk(p) && InOrder(p)
    ensures !DesyncsIn(p, cs)
    decreases |cs|
  {
    hide PipeOk, InOrder, Do;
    if !p.dead && !p.closed {
      InStep(p);
      if cs == [] {
        DrainStaysInStep(p);
      } else {
        DrainStaysInStep(p);
        DoMeans(p, cs[0]);
        CallStaysInOrder(p, cs[0]);
        var q := Do(p, cs[0]).0;
        if !q.dead {
          InOrderNeverDesyncs(q, cs[1..]);
        }
      }
    }
  }

  lemma CallSurvives(p: Pipe, c: Call)
    requires PipeOk(p) && !p.dead && Proper(p) && |p.replies| >= |p.inflight| + Batches([c])
    requires c != DoWrite(Rows(false))
    ensures var q := Do(p, c).0;
            !q.dead && Proper(q) && |q.replies| - |q.inflight| >= |p.replies| - |p.inflight| - Batches([c])
  {
    if !p.closed {
      match c
      case DoWrite(b) =>
        WriteMeans(p, b);
        if b.Rows? && |p.inflight| >= p.depth {
          ReadAckMeans(p);
        }
      case _ =>
        DrainMeans(p, Nil);
    }
  }

  /** With a correct server that answers all it is sent, and sends that succeed, the pipeline
      never dies, whatever the calls: rejections are the only errors. */
  lemma {:induction false} ProperServerKeepsAlive(p: Pipe, cs: seq<Call>)
    requires PipeOk(p) && !p.dead && Proper(p) && |p.replies| >= |p.inflight| + Batches(cs)
    requires forall i :: 0 <= i < |cs| ==> cs[i] != DoWrite(Rows(false))
    ensures var q := Session(p, cs).0;
            !q.dead && Proper(q) && |q.replies| >= |q.inflight| && !Flush(q).0.dead
    decreases |cs|
  {
    if cs == [] {
      DrainMeans(p, Nil);
    } else {
      hide PipeOk, Proper, Do;
      DoMeans(p, cs[0]);
      CallSurvives(p, cs[0]);
      ProperServerKeepsAlive(Do(p, cs[0]).0, cs[1..]);
    }
  }

  // ---------------------------------------------------------------------
  // The program

  class Writer {
    const depth: nat
    var inflight: seq<nat>
    var dead: bool
    var closed: bool
    var next: nat
    var replies: seq<Reply>
    ghost var sent: nat
    ghost var acked: nat
    ghost var rejected: nat

    ghost function State(): Pipe
      reads this
    {
      Pipe(depth, inflight, dead, closed, next, replies, sent, acked, rejected)
    }

    constructor (depth: nat, next: nat, replies: seq<Reply>)
      requires depth >= 1
      ensures State() == Open(depth, next, replies) && PipeOk(State())
      ensures this.depth == if depth <= 64 then depth else 64
    {
      this.depth := Clamp(depth);
      inflight, dead, closed, this.next, this.replies := [], false, false, next, replies;
      sent, acked, rejected := 0, 0, 0;
    }

    method Kill()
      modifies this
      ensures State() == MarkDead(old(State()))
    {
      dead := true;
      inflight := [];
    }

    method ReadOneAck() returns (o: Outcome)
      requires inflight != []
      modifies this
      ensures (State(), o) == ReadAck(old(State()))
    {
      if replies == [] {
        Kill();
        return Fatal;
      }
      var f := replies[0];
      replies := replies[1..];
      if f.Broken? {
        Kill();
        return Fatal;
      }
      var want := inflight[0];
      inflight := inflight[1..];
      if f.reqId != want {
        Kill();
        return Fatal;
      }
      if f.kind == ErrorFrame {
        rejected := rejected + 1;
        return Rejected;
      }
      if f.kind != WriteAck || f.len < 4 {
        Kill();
        return Fatal;
      }
      acked := acked + 1;
      return Nil;
    }

    method WriteBatch(b: Batch) returns (o: Outcome)
      requires PipeOk(State())
      modifies this
      ensures PipeOk(State()) && (State(), o) == Write(old(State()), b)
    {
      WriteMeans(State(), b);
      if closed {
        return ErrClosed;
      }
      if dead {
        return Fatal;
      }
      if b.Empty? {
        return Nil;
      }
      if b.Unsendable? {
        return ErrBatch;
      }
      if |inflight| >= depth {
        o := ReadOneAck();
        if o != Nil {
          return;
        }
      }
      if !b.sendOk {
        Kill();
        return Fatal;
      }
      inflight, next, sent := inflight + [next], next + 1, sent + 1;
      return Nil;
    }

    method FlushAll() returns (first: Outcome)
      requires PipeOk(State())
      modifies this
      ensures PipeOk(State()) && (State(), first) == Flush(old(State()))
    {
      if closed {
        return ErrClosed;
      }
      if dead {
        return Fatal;
      }
      first := Nil;
      DrainMeans(State(), Nil);
      while |inflight| > 0
        invariant PipeOk(State()) && !dead && first in {Nil, Rejected}
        invariant Drain(State(), first) == Drain(old(State()), Nil)
        decreases |inflight|
      {
        ReadAckMeans(State());
        var o := ReadOneAck();
        if o != Nil {
          if first == Nil {
            first := o;
          }
          if dead {
            return;
          }
        }
      }
    }

    method Shut() returns (o: Outcome)
      requires PipeOk(State())
      modifies this
      ensures PipeOk(State()) && (State(), o) == Close(old(State())) && closed
    {
      if closed {
        return Nil;
      }
      o := FlushAll();
      closed := true;
    }
  }
}
