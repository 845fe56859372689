/**
  The output pump of source/abstractsession.cpp: write() drains the protocol
  engine into a 64 KiB buffer and starts a socket write, whose completion
  handler empties the buffer and calls write() again.
 */
module Pump {
  import opened Bytes

  /** The size of wb_. */
  const CAPACITY := 0x1_0000

  /** What one call of nghttp2_session_mem_send yields; with nothing queued it yields 0. */
  datatype Answer = Frame(octets: bytes) | NoMemory

  /** The engine sends no empty frames, and none that the empty buffer cannot hold. */
  predicate FitsBuffer(a: Answer) {
    a.Frame? ==> 1 <= |a.octets| <= CAPACITY
  }

  datatype State = State(
    buffered: bytes,     // wb_[..wblen_]
    pending: bool,       // data_pending_ is set; it points into memory
    writing: bool,
    stopped: bool,
    memory: bytes,       // the engine's memory that the last mem_send exposed
    queue: seq<Answer>,  // what the engine will yield
    inFlight: bool,      // a socket write has been started and has not completed
    taken: bytes,        // everything the engine has yielded
    sent: bytes,         // everything the socket has taken
    lost: nat)           // octets dropped because the handler ignores how many were written
  {
    function Pending(): bytes { if pending then memory else [] }
  }

  // ---------- the steps ----------

  /** The loop of write(): take frames while they fit; spill the one that does not. */
  function Fill(s: State): State
    decreases |s.queue|
  {
    if s.queue == [] then s.(memory := [])
    else
      var rest := s.(queue := s.queue[1..]);
      match s.queue[0]
      case NoMemory => rest.(memory := [], stopped := true)
      case Frame(f) =>
        var got := rest.(memory := f, taken := s.taken + f);
        if |s.buffered| + |f| > CAPACITY then got.(pending := true)
        else Fill(got.(buffered := s.buffered + f))
  }

  /** The pending frame goes first. */
  function Unspilled(s: State): State {
    if s.pending then s.(buffered := s.buffered + s.memory, pending := false) else s
  }

  /** write() */
  function Written(s: State): State {
    if s.stopped || s.writing then s
    else
      var t := Fill(Unspilled(s));
      if t.stopped || t.buffered == [] then t else t.(writing := true, inFlight := true)
  }

  /** A completion: n octets of the buffer are on the wire. */
  function Completed(s: State, n: nat, failed: bool, closed: bool): State
    requires n <= |s.buffered|
  {
    var t := s.(sent := s.sent + s.buffered[..n], inFlight := false);
    if failed || closed then t.(stopped := true)
    else Written(t.(lost := s.lost + (|s.buffered| - n), buffered := [], writing := false))
  }

  // ---------- the object ----------

  class Session {
    const wb: array<byte>
    var wblen: nat
    var dataPending: bool
    var writing: bool
    var stopped: bool

    // The protocol engine.
    var memory: bytes
    var queue: seq<Answer>

    // The socket, and the history.
    ghost var inFlight: bool
    ghost var taken: bytes
    ghost var sent: bytes
    ghost var lost: nat

    ghost predicate Valid()
      reads this
    {
      wb.Length == CAPACITY && wblen <= CAPACITY
    }

    ghost function Abs(): State
      requires Valid()
      reads this, wb
    {
      State(wb[..wblen], dataPending, writing, stopped, memory, queue, inFlight, taken, sent, lost)
    }

    /** A connected session; the member wblen_ is taken to start at 0. */
    constructor ()
      ensures Valid() && fresh(wb) && wb.Length == 65536 && Abs() == INITIAL
    {
      wb := new byte[CAPACITY](_ => 0);
      wblen, dataPending, writing, stopped := 0, false, false, false;
      memory, queue := [], [];
      inFlight, taken, sent, lost := false, [], [], 0;
    }

    /** nghttp2_session_mem_send: expose the next frame in the engine's memory. */
    method MemSend() returns (n: int)
      requires Valid()
      modifies this`memory, this`queue, this`taken
      ensures old(queue) == [] ==> n == 0 && memory == [] && queue == [] && taken == old(taken)
      ensures old(queue) != [] ==>
                && queue == old(queue)[1..]
                && match old(queue)[0]
                   case NoMemory => n == -901 && memory == [] && taken == old(taken)
                   case Frame(f) => n == |f| && memory == f && taken == old(taken) + f
    {
      if queue == [] {
        memory := [];
        return 0;
      }
      var a := queue[0];
      queue := queue[1..];
      match a {
        case NoMemory =>
          memory := [];
          return -901;
        case Frame(f) =>
          memory := f;
          taken := taken + f;
          return |f|;
      }
    }

    /** Append the engine's memory to the buffer. */
    method Append()
      requires Valid() && wblen + |memory| <= CAPACITY
      modifies wb, this`wblen
      ensures Valid()
      ensures wb[..wblen] == old(wb[..wblen]) + memory
    {
      wblen := CopyN(memory, wb, wblen);
      assert wb[..wblen] == wb[..old(wblen)] + wb[old(wblen)..wblen];
    }

    /** The loop of write(), which ends early when the engine is out of memory. */
    method Drain()
      requires Valid() && !dataPending && !stopped
      requires forall a | a in queue :: FitsBuffer(a)
      modifies this`memory, this`queue, this`taken, this`wblen, this`dataPending, this`stopped, wb
      ensures Valid()
      ensures Abs() == Fill(old(Abs()))
    {
      while true
        invariant Valid() && !stopped && !dataPending
        invariant forall a | a in queue :: FitsBuffer(a)
        invariant Fill(Abs()) == Fill(old(Abs()))
        decreases |queue|
      {
        ghost var before := Abs();
        assert queue != [] ==> FitsBuffer(queue[0]);
        var n := MemSend();
        if n == -901 {
          stopped := true;
          assert Abs() == Fill(before);
          return;
        }
        if n == 0 {
          assert Abs() == Fill(before);
          break;
        }
        if wblen + n > CAPACITY {
          dataPending := true;
          assert Abs() == Fill(before);
          break;
        }
        Append();
        assert Fill(before) == Fill(Abs());
      }
    }

    /** write(): nothing is copied past the end of wb_, and wb_ is not touched while a write is in flight. */
    method Write()
      requires Valid() && Ready(Abs())
      modifies this, wb
      ensures Valid() && Ready(Abs())
      ensures Abs() == Written(old(Abs()))
      ensures old(writing) ==> wb[..] == old(wb[..])
    {
      hide Fill;
      WrittenIsSafe(Abs());
      if stopped {
        return;
      }
      if writing {
        return;
      }
      if dataPending {
        Append();
        dataPending := false;
      }
      assert Abs() == Unspilled(old(Abs()));
      Drain();
      if stopped || wblen == 0 {
        return;
      }
      writing := true;
      inFlight := true;
    }

    /** The completion handler of writeSocket, with the octet count n that it ignores. */
    method Complete(n: nat, failed: bool, stream0Closed: bool)
      requires Valid() && Safe(Abs()) && inFlight && n <= wblen
      modifies this, wb
      ensures Valid() && Safe(Abs())
      ensures Abs() == Completed(old(Abs()), n, failed, stream0Closed)
    {
      CompletedIsSafe(Abs(), n, failed, stream0Closed);
      sent := sent + wb[..n];
      inFlight := false;
      if failed {
        stopped := true;
        return;
      }
      if stream0Closed {
        stopped := true;
        return;
      }
      lost := lost + (wblen - n);
      forall i | 0 <= i < wblen {
        wb[i] := 0;
      }
      wblen := 0;
      writing := false;
      assert old(wb[..wblen])[..n] == old(wb[..n]);
      assert Abs() == Emptied(old(Abs()), n);
      Write();
    }
  }

  const INITIAL := State([], false, false, false, [], [], false, [], [], 0)

  // ---------- what every step keeps ----------

  /** What write() needs: the buffer is not overrun, and a pending frame finds room when its turn comes. */
  predicate Ready(s: State) {
    && |s.buffered| <= CAPACITY
    && (forall a | a in s.queue :: FitsBuffer(a))
    && (s.pending ==> 1 <= |s.memory| <= CAPACITY)
    && (!s.writing && !s.stopped ==> s.buffered == [])
    && (s.inFlight ==> s.writing && s.buffered != [])
    && (s.writing && !s.stopped ==> s.inFlight)
  }

  /** What holds between steps: besides, a pending frame implies a write in flight. */
  predicate Safe(s: State) {
    Ready(s) && (s.pending && !s.stopped ==> s.writing)
  }

  /** From a buffer that fits, the loop stays inside it, and spills a frame only behind other octets. */
  lemma {:induction false} FillIsSafe(s: State)
    requires |s.buffered| <= CAPACITY && !s.pending && !s.stopped
    requires forall a | a in s.queue :: FitsBuffer(a)
    ensures var t := Fill(s);
            && |t.buffered| <= CAPACITY
            && (forall a | a in t.queue :: FitsBuffer(a))
            && (t.pending ==> t.buffered != [] && 1 <= |t.memory| <= CAPACITY && !t.stopped)
            && (t.pending ==> |t.buffered| + |t.memory| > CAPACITY)
            && (t.writing, t.inFlight, t.sent, t.lost) == (s.writing, s.inFlight, s.sent, s.lost)
    decreases |s.queue|
  {
    if s.queue != [] && s.queue[0].Frame? {
      assert FitsBuffer(s.queue[0]);
      var f := s.queue[0].octets;
      if |s.buffered| + |f| <= CAPACITY {
        FillIsSafe(s.(queue := s.queue[1..], memory := f, taken := s.taken + f, buffered := s.buffered + f));
      }
    }
  }

  lemma WrittenIsSafe(s: State)
    requires Ready(s)
    ensures Safe(Written(s)) || s.writing || s.stopped
    ensures Ready(Written(s))
    ensures !s.writing && !s.stopped ==> |s.buffered| + |s.Pending()| <= CAPACITY
  {
    if !s.stopped && !s.writing {
      hide Fill;
      FillIsSafe(Unspilled(s));
    }
  }

  /** The state in which the completion handler calls write(). */
  function Emptied(s: State, n: nat): State
    requires n <= |s.buffered|
  {
    s.(sent := s.sent + s.buffered[..n], inFlight := false,
       lost := s.lost + (|s.buffered| - n), buffered := [], writing := false)
  }

  lemma CompletedIsSafe(s: State, n: nat, failed: bool, closed: bool)
    requires Safe(s) && s.inFlight && n <= |s.buffered|
    ensures Ready(Emptied(s, n))
    ensures Safe(Completed(s, n, failed, closed))
  {
    hide Written;
    if !failed && !closed {
      WrittenIsSafe(Emptied(s, n));
      StoppedStays(Emptied(s, n));
    }
  }

  lemma StoppedStays(s: State)
    ensures s.stopped ==> Written(s) == s
  {
    hide Fill;
  }

  /** Every octet taken from the engine is sent, buffered, pending or lost; and in order, if none is lost. */
  predicate Conserved(s: State) {
    !s.stopped ==>
      && |s.taken| == |s.sent| + |s.buffered| + |s.Pending()| + s.lost
      && (s.lost == 0 ==> s.taken == s.sent + s.buffered + s.Pending())
  }

  lemma {:induction false} FillConserves(s: State)
    requires Conserved(s) && !s.pending
    ensures Conserved(Fill(s))
    ensures !Fill(s).stopped && !Fill(s).pending ==> Fill(s).queue == []
    decreases |s.queue|
  {
    if s.queue != [] && s.queue[0].Frame? {
      var f := s.queue[0].octets;
      if |s.buffered| + |f| <= CAPACITY {
        assert s.sent + (s.buffered + f) + [] == s.sent + s.buffered + [] + f;
        FillConserves(s.(queue := s.queue[1..], memory := f, taken := s.taken + f, buffered := s.buffered + f));
      }
    }
  }

  lemma WrittenConserves(s: State)
    requires Conserved(s)
    ensures Conserved(Written(s))
  {
    if !s.stopped && !s.writing {
      hide Fill;
      assert s.sent + (s.buffered + s.Pending()) + [] == s.sent + s.buffered + s.Pending();
      FillConserves(Unspilled(s));
    }
  }

  lemma EmptiedConserves(s: State, n: nat)
    requires Conserved(s) && n <= |s.buffered|
    ensures Conserved(Emptied(s, n))
  {
    assert n == |s.buffered| ==> s.buffered[..n] == s.buffered;
  }

  lemma CompletedConserves(s: State, n: nat, failed: bool, closed: bool)
    requires Conserved(s) && n <= |s.buffered|
    ensures Conserved(Completed(s, n, failed, closed))
  {
    if !failed && !closed && !s.stopped {
      hide Written;
      EmptiedConserves(s, n);
      WrittenConserves(Emptied(s, n));
    }
  }

  // ---------- runs ----------

  datatype Event =
    | Offer(answers: seq<Answer>)  // requests, pings or received octets give the engine something to send
    | Write                        // somebody calls write()
    | Complete(n: nat, failed: bool, closed: bool)
    | Stop                         // somebody else calls stop()

  /** What the engine and the socket can do. */
  predicate Possible(s: State, e: Event) {
    match e
    case Offer(answers) => forall a | a in answers :: FitsBuffer(a)
    case Complete(n, _, _) => s.inFlight && n <= |s.buffered|
    case Write => true
    case Stop => true
  }

  function Step(s: State, e: Event): State
    requires Possible(s, e)
  {
    match e
    case Offer(answers) => s.(queue := s.queue + answers)
    case Write => Written(s)
    case Complete(n, failed, closed) => Completed(s, n, failed, closed)
    case Stop => s.(stopped := true)
  }

  predicate PossibleRun(s: State, es: seq<Event>)
    decreases |es|
  {
    es == [] || (Possible(s, es[0]) && PossibleRun(Step(s, es[0]), es[1..]))
  }

  function Run(s: State, es: seq<Event>): State
    requires PossibleRun(s, es)
    decreases |es|
  {
    if es == [] then s else Run(Step(s, es[0]), es[1..])
  }

  lemma StepKeeps(s: State, e: Event)
    requires Safe(s) && Conserved(s) && Possible(s, e)
    ensures Safe(Step(s, e)) && Conserved(Step(s, e))
  {
    match e
    case Offer(_) =>
    case Write =>
      WrittenIsSafe(s);
      StoppedStays(s);
      WrittenConserves(s);
    case Complete(n, failed, closed) =>
      CompletedIsSafe(s, n, failed, closed);
      CompletedConserves(s, n, failed, closed);
    case Stop =>
  }

  lemma {:induction false} RunKeeps(s: State, es: seq<Event>)
    requires Safe(s) && Conserved(s) && PossibleRun(s, es)
    ensures Safe(Run(s, es)) && Conserved(Run(s, es))
    decreases |es|
  {
    if es != [] {
      StepKeeps(s, es[0]);
      RunKeeps(Step(s, es[0]), es[1..]);
    }
  }

  /** Octets are lost by completions of short writes and by nothing else. */
  lemma LostByShortWrites(s: State, e: Event)
    requires Safe(s) && Possible(s, e)
    ensures Step(s, e).lost == s.lost + (if WholeWrite(s, e) then 0 else |s.buffered| - e.n)
  {
    hide Fill;
    match e
    case Write =>
      if !s.stopped && !s.writing {
        FillIsSafe(Unspilled(s));
      }
    case Complete(n, _, _) =>
      if !s.stopped {
        FillIsSafe(Unspilled(Emptied(s, n)));
      }
    case _ =>
  }

  /** Not a completion that reports success and fewer octets than were to be written. */
  predicate WholeWrite(s: State, e: Event) {
    e.Complete? && !e.failed && !e.closed ==> e.n == |s.buffered|
  }

  /** A run without short writes. */
  predicate Whole(s: State, es: seq<Event>)
    requires PossibleRun(s, es)
    decreases |es|
  {
    es == [] || (WholeWrite(s, es[0]) && Whole(Step(s, es[0]), es[1..]))
  }

  lemma {:induction false} WholeLosesNothing(s: State, es: seq<Event>)
    requires Safe(s) && Conserved(s) && PossibleRun(s, es)
    ensures Run(s, es).lost >= s.lost
    ensures Run(s, es).lost == s.lost <==> Whole(s, es)
    decreases |es|
  {
    hide Step;
    if es != [] {
      StepKeeps(s, es[0]);
      LostByShortWrites(s, es[0]);
      WholeLosesNothing(Step(s, es[0]), es[1..]);
    }
  }

  /** A run that loses an octet: of two that were to be written, the socket took one. */
  lemma ShortWriteLoses()
    ensures var es := [Offer([Frame([1, 2])]), Write, Complete(1, false, false)];
            && PossibleRun(INITIAL, es) && !Whole(INITIAL, es)
            && var s := Run(INITIAL, es);
               && !s.stopped && !s.writing && s.taken == [1, 2] && s.sent == [1]
               && s.buffered == [] && !s.pending
  {
    var es := [Offer([Frame([1, 2])]), Write, Complete(1, false, false)];
    var s1 := Step(INITIAL, es[0]);
    assert s1 == INITIAL.(queue := [Frame([1, 2])]);
    var s2 := Step(s1, es[1]);
    TakesOne(s1, [1, 2]);
    assert s2 == s1.(queue := [], memory := [], taken := [1, 2], buffered := [1, 2], writing := true, inFlight := true);
    var s3 := Step(s2, es[2]);
    NothingToTake(Emptied(s2, 1));
    assert s2.buffered[..1] == [1];
    assert es[1..] == [es[1], es[2]] && es[1..][1..] == [es[2]] && es[1..][1..][1..] == [];
  }

  lemma TakesOne(s: State, f: bytes)
    requires s.queue == [Frame(f)] && s.buffered == [] && s.taken == [] && |f| <= CAPACITY
    ensures Fill(s) == s.(queue := [], memory := [], taken := f, buffered := f)
  {
    assert [] + f == f;
    NothingToTake(s.(queue := s.queue[1..], memory := f, taken := f, buffered := f));
  }

  lemma NothingToTake(s: State)
    ensures s.queue == [] ==> Fill(s) == s.(memory := [])
  {
  }

  /** A pump with nothing to do: all that was taken is sent, and the engine has nothing more to say. */
  predicate Idle(s: State) {
    && s.queue == [] && s.buffered == [] && !s.pending
    && (s.lost == 0 ==> s.sent == s.taken)
  }

  lemma WrittenIdle(s: State)
    requires Ready(s) && Conserved(s) && !s.writing
    ensures !Written(s).stopped && !Written(s).writing ==> Idle(Written(s))
  {
    if !s.stopped {
      hide Fill;
      assert s.sent + (s.buffered + s.Pending()) + [] == s.sent + s.buffered + s.Pending();
      FillConserves(Unspilled(s));
      FillIsSafe(Unspilled(s));
    }
  }

  /** A pump that goes idle has sent everything it took, and left the engine nothing to say. */
  lemma IdleMeansSent(s: State, e: Event)
    requires Safe(s) && Conserved(s) && Possible(s, e)
    requires e.Write? || e.Complete?
    ensures var t := Step(s, e); !t.stopped && !t.writing ==> Idle(t)
  {
    hide Written;
    StoppedStays(s);
    match e
    case Write =>
      if !s.writing {
        WrittenIdle(s);
      } else {
        WritingStays(s);
      }
    case Complete(n, failed, closed) =>
      if !failed && !closed {
        CompletedIsSafe(s, n, failed, closed);
        EmptiedConserves(s, n);
        WrittenIdle(Emptied(s, n));
      }
  }

  lemma WritingStays(s: State)
    ensures s.writing ==> Written(s) == s
  {
    hide Fill;
  }

  /** While a write is in flight, nothing but its completion touches the octets being written. */
  lemma InFlightUntouched(s: State, e: Event)
    requires Safe(s) && Possible(s, e) && s.inFlight && !e.Complete?
    ensures Step(s, e).buffered == s.buffered && Step(s, e).inFlight
  {
  }

  // ---------- when a session writes, and when it stops ----------

  /** A call that may write starts a write exactly when there is anything to send, unless it stops the session. */
  lemma WritesExactly(s: State)
    requires Ready(s) && !s.writing && !s.stopped
    ensures !Written(s).stopped ==> (Written(s).inFlight <==> s.pending || s.queue != [])
  {
    assert s.queue != [] ==> FitsBuffer(s.queue[0]);
    FillGrows(Unspilled(s));
  }

  lemma {:induction false} FillGrows(s: State)
    requires !s.pending && !s.stopped && forall a | a in s.queue :: FitsBuffer(a)
    requires |s.buffered| <= CAPACITY
    ensures s.buffered <= Fill(s).buffered
    ensures s.queue != [] && s.buffered == [] && !Fill(s).stopped ==> Fill(s).buffered != []
    decreases |s.queue|
  {
    if s.queue != [] && s.queue[0].Frame? {
      assert FitsBuffer(s.queue[0]);
      var f := s.queue[0].octets;
      if |s.buffered| + |f| <= CAPACITY {
        FillGrows(s.(queue := s.queue[1..], memory := f, taken := s.taken + f, buffered := s.buffered + f));
      }
    }
  }

  /** The engine runs out of memory behind frames that together find room. */
  predicate RunsOut(queue: seq<Answer>, room: int) {
    exists k | 0 <= k < |queue| :: RunsOutAt(queue, room, k)
  }

  predicate RunsOutAt(queue: seq<Answer>, room: int, k: nat)
    requires k < |queue|
  {
    queue[k].NoMemory? && (forall i | 0 <= i < k :: queue[i].Frame?) && |Octets(queue[..k])| <= room
  }

  lemma OctetsTake(queue: seq<Answer>, k: nat)
    requires k < |queue|
    ensures |Octets(queue[..k + 1])| ==
            (if queue[0].Frame? then |queue[0].octets| else 0) + |Octets(queue[1..][..k])|
  {
    assert queue[..k + 1][1..] == queue[1..][..k];
  }

  /** Running out at k is running out one earlier in the rest, with less room. */
  lemma RunsOutLater(queue: seq<Answer>, room: int, k: nat)
    requires k + 1 < |queue| && queue[0].Frame?
    ensures RunsOutAt(queue, room, k + 1) <==> RunsOutAt(queue[1..], room - |queue[0].octets|, k)
  {
    hide Octets;
    OctetsTake(queue, k);
    assert queue[1..][k] == queue[k + 1];
    if RunsOutAt(queue[1..], room - |queue[0].octets|, k) {
      forall i | 0 <= i < k + 1
        ensures queue[i].Frame?
      {
        assert i > 0 ==> queue[i] == queue[1..][i - 1];
      }
    }
  }

  lemma RunsOutTail(queue: seq<Answer>, room: int)
    requires queue != [] && queue[0].Frame?
    ensures RunsOut(queue, room) <==> RunsOut(queue[1..], room - |queue[0].octets|)
  {
    hide RunsOutAt;
    NotAtFrame(queue, room);
    if RunsOut(queue, room) {
      var k :| 0 <= k < |queue| && RunsOutAt(queue, room, k);
      RunsOutLater(queue, room, k - 1);
    }
    if RunsOut(queue[1..], room - |queue[0].octets|) {
      var k :| 0 <= k < |queue[1..]| && RunsOutAt(queue[1..], room - |queue[0].octets|, k);
      RunsOutLater(queue, room, k);
      assert RunsOutAt(queue, room, k + 1);
    }
  }

  lemma NotAtFrame(queue: seq<Answer>, room: int)
    requires queue != []
    ensures queue[0].Frame? ==> !RunsOutAt(queue, room, 0)
    ensures queue[0].NoMemory? ==> (RunsOutAt(queue, room, 0) <==> room >= 0)
    ensures queue[0].NoMemory? ==> forall k: nat | 0 < k < |queue| :: !RunsOutAt(queue, room, k)
  {
    assert queue[..0] == [];
  }

  lemma NoRoomNoRun(queue: seq<Answer>, room: int)
    requires room < 0
    ensures !RunsOut(queue, room)
  {
  }

  /** The loop of write() stops the session exactly when the engine runs out of memory before the buffer is full. */
  lemma {:induction false} FillStops(s: State)
    requires !s.stopped && |s.buffered| <= CAPACITY
    ensures Fill(s).stopped <==> RunsOut(s.queue, CAPACITY - |s.buffered|)
    decreases |s.queue|
  {
    hide RunsOut;
    if s.queue == [] {
      NothingRunsOut(CAPACITY - |s.buffered|);
    } else if s.queue[0].NoMemory? {
      RunsOutFirst(s.queue, CAPACITY - |s.buffered|);
    } else {
      var f := s.queue[0].octets;
      RunsOutTail(s.queue, CAPACITY - |s.buffered|);
      if |s.buffered| + |f| <= CAPACITY {
        FillStops(s.(queue := s.queue[1..], memory := f, taken := s.taken + f, buffered := s.buffered + f));
      } else {
        NoRoomNoRun(s.queue[1..], CAPACITY - |s.buffered| - |f|);
      }
    }
  }

  lemma NothingRunsOut(room: int)
    ensures !RunsOut([], room)
  {
  }

  lemma RunsOutFirst(queue: seq<Answer>, room: int)
    requires queue != [] && queue[0].NoMemory? && room >= 0
    ensures RunsOut(queue, room)
  {
    NotAtFrame(queue, room);
  }

  /** A call of write() in this state finds the engine out of memory. */
  predicate OutOfMemory(s: State) {
    !s.stopped && !s.writing && RunsOut(s.queue, CAPACITY - |s.Pending()|)
  }

  /** The events that stop a session. */
  predicate Stops(s: State, e: Event)
    requires Possible(s, e)
  {
    match e
    case Offer(_) => false
    case Write => OutOfMemory(s)
    case Complete(n, failed, closed) => failed || closed || OutOfMemory(Emptied(s, n))
    case Stop => true
  }

  lemma WrittenStops(s: State)
    requires Ready(s)
    ensures Written(s).stopped <==> s.stopped || OutOfMemory(s)
  {
    if !s.stopped && !s.writing {
      hide Fill, RunsOut;
      WrittenIsSafe(s);
      FillStops(Unspilled(s));
    }
  }

  /**
    A session stops exactly when it is told to, when a write fails or completes
    with stream 0 closed, or when a call of write() finds the engine out of memory;
    and it stays stopped.
   */
  lemma StopsExactly(s: State, e: Event)
    requires Safe(s) && Possible(s, e)
    ensures Step(s, e).stopped <==> s.stopped || Stops(s, e)
  {
    hide Written, OutOfMemory;
    match e
    case Write => WrittenStops(s);
    case Complete(n, failed, closed) =>
      if !failed && !closed {
        CompletedIsSafe(s, n, failed, closed);
        WrittenStops(Emptied(s, n));
      }
    case _ =>
  }

  /** Some event of a run stops the session. */
  predicate RunStops(s: State, es: seq<Event>)
    requires PossibleRun(s, es)
    decreases |es|
  {
    es != [] && (Stops(s, es[0]) || RunStops(Step(s, es[0]), es[1..]))
  }

  lemma {:induction false} RunStopsExactly(s: State, es: seq<Event>)
    requires Safe(s) && Conserved(s) && PossibleRun(s, es)
    ensures Run(s, es).stopped <==> s.stopped || RunStops(s, es)
    decreases |es|
  {
    hide Step, Stops;
    if es != [] {
      StepKeeps(s, es[0]);
      StopsExactly(s, es[0]);
      RunStopsExactly(Step(s, es[0]), es[1..]);
    }
  }

  /**
    In every run of a connected session the buffer is safe, and unless some event
    stops it, the octets taken are the octets sent, buffered and pending, in that
    order, exactly when the run has no short write.
   */
  lemma StreamConserved(es: seq<Event>)
    requires PossibleRun(INITIAL, es)
    ensures Safe(Run(INITIAL, es))
    ensures var s := Run(INITIAL, es);
            && (s.stopped <==> RunStops(INITIAL, es))
            && (!RunStops(INITIAL, es) ==>
                  (s.taken == s.sent + s.buffered + s.Pending() <==> Whole(INITIAL, es)))
  {
    hide Run, PossibleRun, Whole, RunStops;
    RunKeeps(INITIAL, es);
    WholeLosesNothing(INITIAL, es);
    RunStopsExactly(INITIAL, es);
  }

  /** A completion that stops the session leaves the buffer, the pending frame and the engine alone. */
  lemma StoppingFreezes(s: State, n: nat, failed: bool, closed: bool)
    requires n <= |s.buffered| && (failed || closed)
    ensures Completed(s, n, failed, closed) ==
            s.(sent := s.sent + s.buffered[..n], inFlight := false, stopped := true)
  {
  }

  /** A stopped session takes nothing from the engine and starts no write. */
  lemma StoppedIsQuiet(s: State, e: Event)
    requires s.stopped && Possible(s, e)
    ensures var t := Step(s, e);
            && t.stopped && t.taken == s.taken && (t.inFlight ==> s.inFlight)
            && (!e.Offer? ==> t.queue == s.queue)
            && (!e.Complete? ==> t.buffered == s.buffered)
  {
    hide Fill;
  }

  // ---------- everything is sent in the end ----------

  /** All the octets of queued frames. */
  function Octets(queue: seq<Answer>): bytes {
    if queue == [] then []
    else (if queue[0].Frame? then queue[0].octets else []) + Octets(queue[1..])
  }

  function Work(s: State): nat { |s.queue| + (if s.pending then 1 else 0) }

  predicate Healthy(s: State) {
    Safe(s) && Conserved(s) && !s.stopped && s.lost == 0 && forall a | a in s.queue :: a.Frame?
  }

  lemma {:induction false} FillTakes(s: State)
    requires !s.pending && !s.stopped && forall a | a in s.queue :: a.Frame?
    ensures var t := Fill(s);
            && !t.stopped && t.lost == s.lost && t.sent == s.sent
            && (forall a | a in t.queue :: a.Frame?)
            && t.taken + Octets(t.queue) == s.taken + Octets(s.queue)
            && Work(t) <= Work(s)
            && (!t.pending ==> t.queue == [])
            && (t.pending && s.queue != [] && |s.buffered| + |s.queue[0].octets| <= CAPACITY ==> Work(t) < Work(s))
    decreases |s.queue|
  {
    if s.queue != [] {
      var f := s.queue[0].octets;
      assert s.queue[0] in s.queue;
      assert (s.taken + f) + Octets(s.queue[1..]) == s.taken + Octets(s.queue);
      if |s.buffered| + |f| <= CAPACITY {
        FillTakes(s.(queue := s.queue[1..], memory := f, taken := s.taken + f, buffered := s.buffered + f));
      }
    }
  }

  /** The completion of a whole-buffer write. */
  function Delivered(s: State): State { Completed(s, |s.buffered|, false, false) }

  /** A whole-buffer completion makes progress and keeps the pump healthy. */
  lemma DeliveredProgress(s: State)
    requires Healthy(s) && s.inFlight
    ensures var t := Delivered(s);
            && Healthy(t)
            && t.taken + Octets(t.queue) == s.taken + Octets(s.queue)
            && (t.writing ==> t.inFlight && Work(t) < Work(s))
            && (!t.writing ==> t.sent == t.taken && t.queue == [])
  {
    var e := Complete(|s.buffered|, false, false);
    StepKeeps(s, e);
    IdleMeansSent(s, e);
    var u := Unspilled(Emptied(s, |s.buffered|));
    hide Fill, Octets, Conserved;
    FillTakes(u);
    assert s.queue != [] ==> s.queue[0] in s.queue;
  }

  /** The state after whole-buffer completions until the pump is idle. */
  function Drained(s: State): State
    requires Healthy(s) && (s.writing ==> s.inFlight)
    decreases s.writing, Work(s)
  {
    if !s.writing then s
    else
      DeliveredProgress(s);
      Drained(Delivered(s))
  }

  /** If every write completes whole, everything the engine had to say is sent, in order, and the pump stops writing. */
  lemma {:induction false} DrainsEverything(s: State)
    requires Healthy(s) && s.inFlight
    ensures var t := Drained(s);
            !t.writing && t.queue == [] && t.sent == t.taken == s.taken + Octets(s.queue)
    decreases Work(s)
  {
    assert s.writing;
    hide Octets, Completed, Healthy;
    DeliveredProgress(s);
    var t := Delivered(s);
    if t.writing {
      DrainsEverything(t);
    } else {
      NothingQueued();
      assert t.taken + [] == t.taken;
    }
  }

  lemma NothingQueued()
    ensures Octets([]) == []
  {
  }
}
