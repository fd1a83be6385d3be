/**
 The pipelined writer with a background ack reader (sdk/go/client.go:438-532), as a
 state machine over the steps of its two goroutines: the caller's, which makes any
 number of Write calls and then Close, and the reader's.  Each channel operation, each
 look at the shared error, each send and each receive is one step, taken in any order.
 */
module PipelineWriter {

  /** Where the caller is. */
  datatype Writer =
    | Idle                   // between calls
    | Acquire                // no error seen; about to take a slot
    | Recheck                // slot taken; about to look at the error again
    | Sending
    | BackOut(failed: bool)  // about to return the slot; `failed` when the send failed
    | Fail                   // about to record the send's error
    | Push                   // sent; about to announce the frame to the reader
    | Closing                // work closed; waiting for the reader
    | Closed

  /** Where the reader is; `good` when the reply was a write acknowledgement. */
  datatype Reader = Take | Receiving | Release(good: bool) | Note(good: bool) | Gone

  /** Occupancy of the two channels, the error flag, and what has happened so far: frames
      sent, sends that failed, receive attempts begun, receive attempts finished, good replies. */
  datatype State = State(window: nat, sem: nat, work: nat, closed: bool, failed: bool,
                         writer: Writer, reader: Reader,
                         sent: nat, lost: nat, begun: nat, finished: nat, good: nat)

  function Start(window: int): State {
    State(if window <= 0 then 64 else window, 0, 0, false, false, Idle, Take, 0, 0, 0, 0, 0)
  }

  datatype Action =
    | Begin | Slot | Look | Send(ok: bool) | Undo | Record | Announce | Close | Return
    | Next | End | Recv(good: bool) | Free | Mark

  ghost predicate IsReaders(a: Action) {
    a.Next? || a.End? || a.Recv? || a.Free? || a.Mark?
  }

  predicate Can(s: State, a: Action) {
    match a
    case Begin => s.writer.Idle?
    case Slot => s.writer.Acquire? && s.sem < s.window
    case Look => s.writer.Recheck?
    case Send(_) => s.writer.Sending?
    case Undo => s.writer.BackOut? && s.sem > 0
    case Record => s.writer.Fail?
    case Announce => s.writer.Push? && s.work < s.window
    case Close => s.writer.Idle?
    case Return => s.writer.Closing? && s.reader.Gone?
    case Next => s.reader.Take? && s.work > 0
    case End => s.reader.Take? && s.work == 0 && s.closed
    case Recv(_) => s.reader.Receiving?
    case Free => s.reader.Release? && s.sem > 0
    case Mark => s.reader.Note?
  }

  function Do(s: State, a: Action): State
    requires Can(s, a)
  {
    match a
    case Begin => s.(writer := if s.failed then Idle else Acquire)
    case Slot => s.(writer := Recheck, sem := s.sem + 1)
    case Look => s.(writer := if s.failed then BackOut(false) else Sending)
    case Send(ok) =>
      if ok then s.(writer := Push, sent := s.sent + 1) else s.(writer := BackOut(true), lost := s.lost + 1)
    case Undo => s.(writer := if s.writer.failed then Fail else Idle, sem := s.sem - 1)
    case Record => s.(writer := Idle, failed := true)
    case Announce => s.(writer := Idle, work := s.work + 1)
    case Close => s.(writer := Closing, closed := true)
    case Return => s.(writer := Closed)
    case Next => s.(reader := Receiving, work := s.work - 1, begun := s.begun + 1)
    case End => s.(reader := Gone)
    case Recv(good) =>
      s.(reader := Release(good), finished := s.finished + 1, good := s.good + if good then 1 else 0)
    case Free => s.(reader := Note(s.reader.good), sem := s.sem - 1)
    case Mark => s.(reader := Take, failed := s.failed || !s.reader.good)
  }

  ghost predicate Path(s: State, acts: seq<Action>, t: State)
    decreases |acts|
  {
    if acts == [] then s == t else Can(s, acts[0]) && Path(Do(s, acts[0]), acts[1..], t)
  }

  // ---------------------------------------------------------------------
  // What every interleaving keeps

  function HeldByWriter(w: Writer): nat {
    if w.Recheck? || w.Sending? || w.BackOut? || w.Push? then 1 else 0
  }

  function HeldByReader(r: Reader): nat {
    if r.Receiving? || r.Release? then 1 else 0
  }

  /** A reply that was not good is known, or about to become known. */
  ghost predicate BadPending(r: Reader) {
    (r.Release? || r.Note?) && !r.good
  }

  /** A failed send is about to be recorded. */
  ghost predicate LossPending(w: Writer) {
    w.Fail? || (w.BackOut? && w.failed)
  }

  ghost predicate Inv(s: State) {
    && s.window > 0 && s.sem <= s.window
    // occupied slots are the announced frames and the slots the two goroutines hold
    && s.sem == s.work + HeldByWriter(s.writer) + HeldByReader(s.reader)
    // every sent frame is announced once and gets one receive attempt
    && s.sent == s.begun + s.work + (if s.writer.Push? then 1 else 0)
    && s.begun == s.finished + (if s.reader.Receiving? then 1 else 0)
    // no bad reply and no failed send goes unrecorded, and nothing else is an error
    && s.good <= s.finished
    && (s.good < s.finished ==> s.failed || BadPending(s.reader))
    && (s.lost > 0 ==> s.failed || LossPending(s.writer))
    && (s.failed || BadPending(s.reader) || LossPending(s.writer) ==> s.good < s.finished || s.lost > 0)
    // the reader leaves only when nothing is left
    && (s.closed <==> s.writer.Closing? || s.writer.Closed?)
    && (s.reader.Gone? ==> s.closed && s.work == 0)
    && (s.writer.Closed? ==> s.reader.Gone?)
  }

  lemma StartInv(window: int)
    ensures Inv(Start(window)) && Start(window).window == if window > 0 then window else 64
  {
  }

  lemma ReaderKeepsInv(s: State, a: Action)
    requires Inv(s) && Can(s, a) && IsReaders(a)
    ensures Inv(Do(s, a))
  {
  }

  lemma SendingKeepsInv(s: State, a: Action)
    requires Inv(s) && Can(s, a) && (a.Begin? || a.Slot? || a.Look? || a.Send?)
    ensures Inv(Do(s, a))
  {
  }

  lemma WriterKeepsInv(s: State, a: Action)
    requires Inv(s) && Can(s, a) && !IsReaders(a)
    ensures Inv(Do(s, a))
  {
    if a.Begin? || a.Slot? || a.Look? || a.Send? {
      SendingKeepsInv(s, a);
    }
  }

  lemma StepKeepsInv(s: State, a: Action)
    requires Inv(s) && Can(s, a)
    ensures Inv(Do(s, a))
  {
    if IsReaders(a) {
      ReaderKeepsInv(s, a);
    } else {
      WriterKeepsInv(s, a);
    }
  }

  lemma {:induction false} PathKeepsInv(s: State, acts: seq<Action>, t: State)
    requires Inv(s) && Path(s, acts, t)
    ensures Inv(t) && t.window == s.window
    decreases |acts|
  {
    if acts != [] {
      StepKeepsInv(s, acts[0]);
      PathKeepsInv(Do(s, acts[0]), acts[1..], t);
    }
  }

  /** A caller that waits, for a slot or for Close, has a reader that can step. */
  lemma ReaderStep(t: State) returns (a: Action)
    requires Inv(t) && !t.reader.Gone?
    requires (t.writer.Acquire? && t.sem == t.window) || t.writer.Closing?
    ensures Can(t, a) && IsReaders(a)
  {
    match t.reader
    case Take => a := if t.work > 0 then Next else End;
    case Receiving => a := Recv(true);
    case Release(_) => a := Free;
    case Note(_) => a := Mark;
  }

  lemma SomeStep(t: State) returns (a: Action)
    requires Inv(t) && !t.writer.Closed?
    ensures Can(t, a)
  {
    match t.writer
    case Idle => a := Begin;
    case Recheck => a := Look;
    case Sending => a := Send(true);
    case BackOut(_) => a := Undo;
    case Fail => a := Record;
    case Push => a := Announce;
    case Acquire => if t.sem < t.window { a := Slot; } else { a := ReaderStep(t); }
    case Closing => if t.reader.Gone? { a := Return; } else { a := ReaderStep(t); }
  }

  /** In every state of every interleaving: at most a window of frames lacks its receive
      attempt; announcing a frame and giving a slot back never block; and while Close has not
      returned, some step can be taken. */
  lemma ReachableIsSound(window: int, acts: seq<Action>, t: State)
    requires Path(Start(window), acts, t)
    ensures t.finished <= t.sent <= t.finished + t.window
    ensures t.writer.Push? ==> Can(t, Announce)
    ensures t.writer.BackOut? ==> Can(t, Undo)
    ensures t.reader.Release? ==> Can(t, Free)
    ensures !t.writer.Closed? ==> exists a :: Can(t, a)
  {
    StartInv(window);
    PathKeepsInv(Start(window), acts, t);
    if !t.writer.Closed? {
      var a := SomeStep(t);
    }
  }

  // ---------------------------------------------------------------------
  // Waiting ends

  /** How many steps the reader has ahead of it with the frames announced so far. */
  function Ahead(s: State): nat {
    4 * s.work + match s.reader
                 case Gone => 0
                 case Take => 1
                 case Note(_) => 2
                 case Release(_) => 3
                 case Receiving => 4
  }

  /** While the caller waits for a slot, every step but the one it waits for brings the reader
      forward; so it waits for at most four steps per announced frame, and four more. */
  lemma SlotWaitShrinks(s: State, a: Action)
    requires Inv(s) && s.writer.Acquire? && Can(s, a) && a != Slot
    ensures Do(s, a).writer.Acquire? && Ahead(Do(s, a)) < Ahead(s)
  {
  }

  lemma CloseWaitShrinks(s: State, a: Action)
    requires Inv(s) && s.writer.Closing? && Can(s, a) && a != Return
    ensures Do(s, a).writer.Closing? && Ahead(Do(s, a)) < Ahead(s) && Do(s, a).sent == s.sent
  {
  }

  lemma {:induction false} ClosedIsLast(s: State, acts: seq<Action>, t: State)
    requires Inv(s) && s.writer.Closed? && Path(s, acts, t)
    ensures s == t
  {
    assert s.reader.Gone?;
  }

  /** Close returns: no path that stays in it is longer than `Ahead`. */
  lemma {:induction false} CloseEnds(s: State, acts: seq<Action>, t: State)
    requires Inv(s) && s.writer.Closing? && Path(s, acts, t) && t.writer.Closing?
    ensures |acts| <= Ahead(s)
    decreases |acts|
  {
    if acts != [] {
      StepKeepsInv(s, acts[0]);
      if acts[0] == Return {
        ClosedIsLast(Do(s, acts[0]), acts[1..], t);
      } else {
        CloseWaitShrinks(s, acts[0]);
        CloseEnds(Do(s, acts[0]), acts[1..], t);
      }
    }
  }

  /** When Close has returned, every sent frame had exactly one receive attempt, nothing is
      queued or held, and there is an error exactly if a frame was not acknowledged or not sent. */
  lemma AfterClose(window: int, acts: seq<Action>, t: State)
    requires Path(Start(window), acts, t) && t.writer.Closed?
    ensures t.begun == t.finished == t.sent && t.sem == t.work == 0
    ensures t.failed <==> t.good < t.sent || t.lost > 0
  {
    StartInv(window);
    PathKeepsInv(Start(window), acts, t);
  }

  // ---------------------------------------------------------------------
  // The window is used

  /** A Write that goes through, from the look at the error to the announcement. */
  const WRITE: seq<Action> := [Begin, Slot, Look, Send(true), Announce]

  lemma {:induction false} PathThen(s: State, a: seq<Action>, t: State, b: seq<Action>, u: State)
    requires Path(s, a, t) && Path(t, b, u)
    ensures Path(s, a + b, u)
    decreases |a|
  {
    hide Can, Do;
    if a == [] {
      assert a + b == b;
    } else {
      PathThen(Do(s, a[0]), a[1..], t, b, u);
      assert (a + b)[1..] == a[1..] + b;
    }
  }

  lemma NoPath(s: State)
    ensures Path(s, [], s)
  {
  }

  lemma PathStep(s: State, k: nat, t: State)
    requires k < |WRITE| && Can(s, WRITE[k]) && Path(Do(s, WRITE[k]), WRITE[k + 1..], t)
    ensures Path(s, WRITE[k..], t)
  {
    hide Can, Do;
    assert WRITE[k..][0] == WRITE[k] && WRITE[k..][1..] == WRITE[k + 1..];
  }

  lemma OneWrite(s: State)
    requires s.writer.Idle? && !s.failed && s.sem < s.window && s.work < s.window
    ensures Path(s, WRITE, s.(sem := s.sem + 1, work := s.work + 1, sent := s.sent + 1))
  {
    hide Path;
    var s1 := Do(s, Begin);
    var s2 := Do(s1, Slot);
    var s3 := Do(s2, Look);
    var s4 := Do(s3, Send(true));
    var s5 := Do(s4, Announce);
    NoPath(s5);
    assert WRITE[5..] == [] && WRITE[0..] == WRITE;
    PathStep(s4, 4, s5);
    PathStep(s3, 3, s5);
    PathStep(s2, 2, s5);
    PathStep(s1, 1, s5);
    PathStep(s, 0, s5);
  }

  /** Up to a whole window of frames can be sent before any reply is read: the next Write waits, if at
      all, only when the window is full. */
  lemma {:induction false} WindowFills(window: int, n: nat) returns (acts: seq<Action>, t: State)
    requires n <= Start(window).window
    ensures Path(Start(window), acts, t) && t.sent == t.work == t.sem == n && t.begun == 0
    ensures t.writer.Idle? && !t.failed && t.window == Start(window).window
    ensures n < t.window ==> Can(Do(t, Begin), Slot)
    ensures n == t.window ==> !Can(Do(t, Begin), Slot)
  {
    if n == 0 {
      acts, t := [], Start(window);
    } else {
      var a, s := WindowFills(window, n - 1);
      acts, t := a + WRITE, s.(sem := s.sem + 1, work := s.work + 1, sent := s.sent + 1);
      OneWrite(s);
      PathThen(Start(window), a, s, WRITE, t);
    }
  }

  // ---------------------------------------------------------------------
  // After an error

  /** Frames the caller may still send once the error is set: the one past its last look. */
  function Committed(w: Writer): nat {
    if w.Sending? then 1 else 0
  }

  /** Once an error is recorded it stays, at most one more frame is sent, and a new Write returns
      without taking a slot. */
  lemma {:induction false} ErrorStopsSending(s: State, acts: seq<Action>, t: State)
    requires Path(s, acts, t) && s.failed
    ensures t.failed && t.sent <= s.sent + Committed(s.writer)
    ensures t.writer.Idle? ==> Do(t, Begin) == t
    decreases |acts|
  {
    if acts != [] {
      ErrorStopsSending(Do(s, acts[0]), acts[1..], t);
    }
  }
}
