/**
  The registry of HTTP/2 streams and the callbacks that drive it
  (source/sessioncallbacks.cpp, source/abstractsession.cpp), as steps on values.
  Every callback looks up one stream; what it does depends on nothing else.
 */
module Streams {
  import opened Bytes
  import opened Options

  /** Conversion of a 64-bit integer to a 32-bit int. */
  function ToInt(n: int): int {
    var m := n % 0x1_0000_0000;
    if m < 0x8000_0000 then m else m - 0x1_0000_0000
  }

  /** It is the 32-bit integer that is equal modulo 2^32. */
  lemma ToIntIs(n: int)
    ensures -2147483648 <= ToInt(n) < 2147483648
    ensures (n - ToInt(n)) % 4294967296 == 0
    ensures -2147483648 <= n < 2147483648 ==> ToInt(n) == n
  {
  }

  /** Stream::State */
  datatype StreamState = Idle | ReservedLocal | ReservedRemote | Open | HalfClosedLocal | HalfClosedRemote | Closed

  /** The frame types that some callback tells apart. */
  datatype Kind = DATA | HEADERS | PUSH_PROMISE | GOAWAY | OTHER

  /** The header names that onHeaderCallback tells apart. */
  datatype Token = Status | ContentLength | OtherName

  /** A stream and its response: status is the member that expectFinalResponse reads. */
  datatype Stream = Stream(state: StreamState, status: nat, statusCode: int, contentLength: int, chunks: seq<bytes>) {
    predicate ExpectFinalResponse() { status / 100 == 1 }
  }

  /** A new stream: idle, with an empty response. */
  const FRESH := Stream(Idle, 0, -1, 0, [])

  type Registry = map<nat, Stream>

  /**
    The callbacks and submit, with what they look at.  A further header block is
    one of category NGHTTP2_HCAT_HEADERS: trailers, and also the response that
    follows an interim one.  A header's number is what parse_uint makes of its value.
   */
  datatype Event =
    | Submit(id: nat)                                                // the end of submit, after the request got its id
    | BeginHeaders(kind: Kind, id: nat, promised: nat)
    | Header(kind: Kind, id: nat, promised: nat, further: bool, token: Token, number: int)
    | FrameRecv(kind: Kind, id: nat, further: bool, endStream: bool)
    | DataChunk(id: nat, data: bytes)
    | Close(id: nat)
    | BeforeSend(kind: Kind, id: nat)

  /** The stream that an event looks up: the promised one for a pushed header block. */
  function Target(e: Event): nat {
    match e
    case BeginHeaders(PUSH_PROMISE, _, promised) => promised
    case Header(PUSH_PROMISE, _, promised, _, _, _) => promised
    case _ => e.id
  }

  // ---------- one stream ----------

  /** addStream: a registered stream is not replaced. */
  function Added(s: Option<Stream>): Option<Stream> {
    if s.Some? then s else Some(FRESH)
  }

  function OnHeader(s: Stream, e: Event): Stream
    requires e.Header?
  {
    match e.kind
    case HEADERS =>
      if e.further then s
      else (match e.token
        case Status => s.(statusCode := ToInt(e.number))
        case ContentLength => s.(contentLength := e.number)
        case OtherName => s)
    case PUSH_PROMISE => if s.state == Idle then s.(state := ReservedRemote) else s
    case _ => s
  }

  function OnFrameRecv(s: Stream, e: Event): Stream
    requires e.FrameRecv?
  {
    match e.kind
    case DATA => if s.state != Idle && e.endStream then s.(state := HalfClosedRemote) else s
    case HEADERS =>
      var t := if s.state == Idle then s.(state := Open) else s;
      if e.further && !t.ExpectFinalResponse() then t
      else if t.ExpectFinalResponse() then t
      else if e.endStream then t.(state := HalfClosedRemote)
      else t
    case PUSH_PROMISE => if s.state == Idle then s else s.(state := ReservedRemote)
    case GOAWAY => s.(state := Closed)
    case OTHER => s
  }

  function OnBeforeSend(s: Option<Stream>, e: Event): Option<Stream>
    requires e.BeforeSend?
  {
    var t := if s.Some? then s.value else FRESH.(state := Open);
    Some(if e.kind == GOAWAY then t.(state := Closed) else t)
  }

  /** What an event does to the stream that it looks up. */
  function Local(s: Option<Stream>, e: Event): Option<Stream> {
    match e
    case Submit(_) => Added(s)
    case BeginHeaders(_, _, _) => Added(s)
    case Header(_, _, _, _, _, _) => if s.Some? then Some(OnHeader(s.value, e)) else None
    case FrameRecv(_, _, _, _) => if s.Some? then Some(OnFrameRecv(s.value, e)) else None
    case DataChunk(_, data) => if s.Some? then Some(s.value.(chunks := s.value.chunks + [data])) else None
    case Close(_) => None
    case BeforeSend(_, _) => OnBeforeSend(s, e)
  }

  // ---------- the registry ----------

  function Find(r: Registry, id: nat): Option<Stream> {
    if id in r then Some(r[id]) else None
  }

  function Put(r: Registry, id: nat, s: Option<Stream>): Registry {
    match s
    case None => r - {id}
    case Some(v) => r[id := v]
  }

  function Step(r: Registry, e: Event): Registry {
    Put(r, Target(e), Local(Find(r, Target(e)), e))
  }

  function Run(r: Registry, es: seq<Event>): Registry {
    if es == [] then r else Step(Run(r, es[..|es| - 1]), es[|es| - 1])
  }

  /** A ready callback: the response of a closing stream. */
  datatype Ready = Ready(id: nat, statusCode: int, contentLength: int, chunks: seq<bytes>)

  /** The ready callbacks of one event: one, if a registered stream closes. */
  function Reported(r: Registry, e: Event): seq<Ready> {
    if e.Close? && e.id in r then [Ready(e.id, r[e.id].statusCode, r[e.id].contentLength, r[e.id].chunks)] else []
  }

  /** All the ready callbacks of a run, in order. */
  function Reports(es: seq<Event>): seq<Ready> {
    if es == [] then []
    else
      var n := |es| - 1;
      Reports(es[..n]) + Reported(Run(map[], es[..n]), es[n])
  }

  lemma NothingRun()
    ensures Run(map[], []) == map[] && Reports([]) == []
  {
  }

  lemma RunGrows(es: seq<Event>, e: Event)
    ensures Run(map[], es + [e]) == Step(Run(map[], es), e)
    ensures Reports(es + [e]) == Reports(es) + Reported(Run(map[], es), e)
  {
    hide Step, Reported;
    assert (es + [e])[..|es|] == es;
  }

  // ---------- streams do not interfere ----------

  /** The events of a run that look a stream up. */
  function Addressed(es: seq<Event>, id: nat): seq<Event> {
    if es == [] then []
    else
      var n := |es| - 1;
      Addressed(es[..n], id) + (if Target(es[n]) == id then [es[n]] else [])
  }

  /** One stream under the events addressed to it. */
  function RunLocal(s: Option<Stream>, es: seq<Event>): Option<Stream> {
    if es == [] then s else Local(RunLocal(s, es[..|es| - 1]), es[|es| - 1])
  }

  /** Any interleaving leaves a stream as its own events alone would. */
  lemma {:induction false} NoInterference(r: Registry, es: seq<Event>, id: nat)
    ensures Find(Run(r, es), id) == RunLocal(Find(r, id), Addressed(es, id))
  {
    if es != [] {
      var n := |es| - 1;
      NoInterference(r, es[..n], id);
      var own := Addressed(es[..n], id);
      assert (own + [es[n]])[..|own|] == own;
      hide Local;
      assert Find(Run(r, es), id) == if Target(es[n]) == id then Local(Find(Run(r, es[..n]), id), es[n])
        else Find(Run(r, es[..n]), id);
      assert own + [] == own;
    }
  }

  // ---------- response bodies ----------

  /** The data chunks delivered for a stream. */
  function DataFor(es: seq<Event>, id: nat): seq<bytes> {
    if es == [] then []
    else
      var n := |es| - 1;
      DataFor(es[..n], id) + (if es[n].DataChunk? && es[n].id == id then [es[n].data] else [])
  }

  /** Event j of a run registers a stream. */
  predicate RegistersAt(es: seq<Event>, j: nat, id: nat) {
    j < |es| && id !in Run(map[], es[..j]) && id in Run(map[], es[..j + 1])
  }

  /** Event j of a run registered the stream, and it has not closed since. */
  predicate RegisteredSince(es: seq<Event>, j: nat, id: nat) {
    RegistersAt(es, j, id) && forall i | j < i < |es| :: es[i] != Close(id)
  }

  lemma RunPrefix(es: seq<Event>, n: nat, j: nat)
    requires j <= n <= |es|
    ensures es[..n][..j] == es[..j]
  {
  }

  /** A registration in a prefix is a registration in the run. */
  lemma RegistersInPrefix(es: seq<Event>, n: nat, j: nat, id: nat)
    requires n <= |es|
    ensures RegistersAt(es[..n], j, id) <==> j < n && RegistersAt(es, j, id)
  {
    if j < n {
      RunPrefix(es, n, j);
      RunPrefix(es, n, j + 1);
    }
  }

  /** A stream's body is exactly the data delivered for it since it was registered, in order. */
  lemma {:induction false} BodyIsDelivered(es: seq<Event>, id: nat) returns (j: nat)
    requires id in Run(map[], es)
    ensures RegisteredSince(es, j, id)
    ensures Run(map[], es)[id].chunks == DataFor(es[j + 1..], id)
  {
    hide Step;
    var n := |es| - 1;
    var before := es[..n];
    if id in Run(map[], before) {
      j := BodyIsDelivered(before, id);
      RegistersInPrefix(es, n, j, id);
      NotClosed(Run(map[], before), es[n], id);
      SinceStep(es, j);
      ChunksStep(Run(map[], before), es[n], id);
      assert forall i | j < i < n :: es[i] == before[i];
    } else {
      j := n;
      assert es[..n + 1] == es;
      assert es[j + 1..] == [];
      NewlyRegistered(Run(map[], before), es[n], id);
    }
  }

  lemma NotClosed(r: Registry, e: Event, id: nat)
    requires id in Step(r, e)
    ensures e != Close(id)
  {
  }

  lemma ChunksStep(r: Registry, e: Event, id: nat)
    requires id in r && id in Step(r, e)
    ensures Step(r, e)[id].chunks == r[id].chunks + (if e.DataChunk? && e.id == id then [e.data] else [])
  {
  }

  lemma NewlyRegistered(r: Registry, e: Event, id: nat)
    requires id !in r && id in Step(r, e)
    ensures Step(r, e)[id].chunks == [] && Step(r, e)[id].statusCode == -1 && Step(r, e)[id].contentLength == 0
    ensures Step(r, e)[id].state == Idle <==> !e.BeforeSend?
    ensures Step(r, e)[id].state != HalfClosedRemote && Step(r, e)[id].state != ReservedRemote
    ensures Step(r, e)[id].state == Closed <==> GoesAway(e, id)
  {
  }

  /** A stream that appears between two points of a run is registered between them. */
  lemma {:induction false} RegisteredBetween(es: seq<Event>, m: nat, n: nat, id: nat) returns (j: nat)
    requires m <= n <= |es|
    requires id !in Run(map[], es[..m]) && id in Run(map[], es[..n])
    ensures m <= j < n && RegistersAt(es, j, id)
    decreases n
  {
    hide Step;
    var earlier := Run(map[], es[..n - 1]);
    if id in earlier {
      j := RegisteredBetween(es, m, n - 1, id);
    } else {
      j := n - 1;
    }
  }

  /** Two ready callbacks for one id are separated by a fresh registration. */
  lemma ReadySeparated(es: seq<Event>, k1: nat, k2: nat) returns (j: nat)
    requires k1 < k2 < |es|
    requires Reported(Run(map[], es[..k1]), es[k1]) != [] && Reported(Run(map[], es[..k2]), es[k2]) != []
    requires es[k1].id == es[k2].id
    ensures k1 < j < k2 && RegistersAt(es, j, es[k1].id)
  {
    var id := es[k1].id;
    assert es[..k1 + 1][..k1] == es[..k1];
    ClosedIsGone(Run(map[], es[..k1]), id);
    j := RegisteredBetween(es, k1 + 1, k2, id);
  }

  lemma ClosedIsGone(r: Registry, id: nat)
    ensures id !in Step(r, Close(id))
  {
  }

  // ---------- who is registered, and with what status ----------

  /** The events that register a stream unless it is registered. */
  predicate Registering(e: Event, id: nat) {
    || ((e.Submit? || e.BeforeSend?) && e.id == id)
    || (e.BeginHeaders? && id == if e.kind == PUSH_PROMISE then e.promised else e.id)
  }

  /** Event j asked for a registration, and the stream has not closed since. */
  predicate AskedSince(es: seq<Event>, j: nat, id: nat) {
    j < |es| && Registering(es[j], id) && forall i | j < i < |es| :: es[i] != Close(id)
  }

  lemma RegisteredStep(r: Registry, e: Event, id: nat)
    ensures id in Step(r, e) <==> Registering(e, id) || (id in r && e != Close(id))
  {
  }

  /** A stream is registered exactly when something has asked for it since it last closed. */
  lemma {:induction false} RegisteredExactly(es: seq<Event>, id: nat)
    ensures id in Run(map[], es) <==> exists j: nat :: AskedSince(es, j, id)
  {
    hide Step, Registering;
    if es != [] {
      var n := |es| - 1;
      RegisteredExactly(es[..n], id);
      RegisteredStep(Run(map[], es[..n]), es[n], id);
      if Registering(es[n], id) {
        assert AskedSince(es, n, id);
      }
      forall j: nat | j < n
        ensures AskedSince(es, j, id) <==> AskedSince(es[..n], j, id) && es[n] != Close(id)
      {
        AskedInPrefix(es, j, id);
      }
      if j: nat :| AskedSince(es[..n], j, id) && es[n] != Close(id) {
        assert AskedSince(es, j, id);
      }
    }
  }

  lemma AskedInPrefix(es: seq<Event>, j: nat, id: nat)
    requires j < |es| - 1
    ensures AskedSince(es, j, id) <==> AskedSince(es[..|es| - 1], j, id) && es[|es| - 1] != Close(id)
  {
    hide Registering;
    var n := |es| - 1;
    if AskedSince(es[..n], j, id) && es[n] != Close(id) {
      forall i | j < i < |es|
        ensures es[i] != Close(id)
      {
        assert i < n ==> es[i] == es[..n][i];
      }
    }
  }

  /** The number of the last header of a name received for a stream outside further header blocks. */
  function LastNumber(es: seq<Event>, id: nat, token: Token): Option<int> {
    if es == [] then None
    else
      var n := |es| - 1;
      if es[n].Header? && es[n].kind == HEADERS && es[n].id == id && !es[n].further && es[n].token == token
      then Some(es[n].number)
      else LastNumber(es[..n], id, token)
  }

  /** The last :status, as an int, or -1. */
  function LastStatus(es: seq<Event>, id: nat): int {
    match LastNumber(es, id, Status)
    case None => -1
    case Some(n) => ToInt(n)
  }

  /** The last content-length, or 0. */
  function LastLength(es: seq<Event>, id: nat): int {
    match LastNumber(es, id, ContentLength)
    case None => 0
    case Some(n) => n
  }

  lemma {:induction false} StillRegistered(es: seq<Event>, j: nat, id: nat)
    requires RegisteredSince(es, j, id)
    ensures id in Run(map[], es)
  {
    hide Step;
    var n := |es| - 1;
    if j == n {
      assert es[..n + 1] == es;
    } else {
      RegistersInPrefix(es, n, j, id);
      StillRegistered(es[..n], j, id);
      RegisteredStep(Run(map[], es[..n]), es[n], id);
    }
  }

  lemma SinceStep(es: seq<Event>, j: nat)
    requires j < |es| - 1
    ensures var since := es[j + 1..];
            since[..|since| - 1] == es[..|es| - 1][j + 1..] && since[|since| - 1] == es[|es| - 1]
  {
  }

  /** A response's status and content length are the last ones received since the registration. */
  lemma {:induction false} HeadersAreLast(es: seq<Event>, j: nat, id: nat)
    requires RegisteredSince(es, j, id)
    ensures id in Run(map[], es)
    ensures Run(map[], es)[id].statusCode == LastStatus(es[j + 1..], id)
    ensures Run(map[], es)[id].contentLength == LastLength(es[j + 1..], id)
  {
    hide Step, ToInt;
    StillRegistered(es, j, id);
    var n := |es| - 1;
    if j == n {
      assert es[..n + 1] == es && es[j + 1..] == [];
      NewlyRegistered(Run(map[], es[..n]), es[n], id);
    } else {
      RegistersInPrefix(es, n, j, id);
      HeadersAreLast(es[..n], j, id);
      SinceStep(es, j);
      HeaderStep(Run(map[], es[..n]), es[n], id);
    }
  }

  lemma HeaderStep(r: Registry, e: Event, id: nat)
    requires id in r && id in Step(r, e)
    ensures var counts := e.Header? && e.kind == HEADERS && e.id == id && !e.further;
            && Step(r, e)[id].statusCode ==
               (if counts && e.token == Status then ToInt(e.number) else r[id].statusCode)
            && Step(r, e)[id].contentLength ==
               (if counts && e.token == ContentLength then e.number else r[id].contentLength)
  {
  }

  /** Every ready callback hands out exactly what was received for its stream since the stream's registration. */
  lemma ReadyIsDelivered(es: seq<Event>, k: nat) returns (j: nat)
    requires k < |es| && Reported(Run(map[], es[..k]), es[k]) != []
    ensures j < k && RegisteredSince(es[..k], j, es[k].id)
    ensures Reported(Run(map[], es[..k]), es[k]) ==
            [Ready(es[k].id, LastStatus(es[j + 1..k], es[k].id), LastLength(es[j + 1..k], es[k].id),
                   DataFor(es[j + 1..k], es[k].id))]
  {
    j := BodyIsDelivered(es[..k], es[k].id);
    HeadersAreLast(es[..k], j, es[k].id);
    assert es[..k][j + 1..] == es[j + 1..k];
  }

  /** A further header block: its fields change nothing, and its end at most opens an idle stream. */
  lemma FurtherBlocks(r: Registry, e: Event)
    requires (e.Header? || e.FrameRecv?) && e.kind == HEADERS && e.further
    ensures e.Header? ==> Step(r, e) == r
    ensures e.FrameRecv? && e.id in r ==>
              Step(r, e) == r[e.id := r[e.id].(state := if r[e.id].state == Idle then Open else r[e.id].state)]
  {
    if e.id in r {
      assert r[e.id := r[e.id]] == r;
    } else {
      assert r - {e.id} == r;
    }
  }

  /**
    The response after an interim one is lost: once event m has set a status, and
    every later header block is a further one, that status is handed out.
   */
  lemma InterimStatusStays(es: seq<Event>, j: nat, m: nat, id: nat)
    requires RegisteredSince(es, j, id) && j < m < |es|
    requires es[m].Header? && es[m].kind == HEADERS && es[m].id == id && !es[m].further && es[m].token == Status
    requires forall i | m < i < |es| :: es[i].Header? && es[i].kind == HEADERS && es[i].id == id ==> es[i].further
    ensures Reported(Run(map[], es), Close(id)) ==
            [Ready(id, ToInt(es[m].number), LastLength(es[j + 1..], id), DataFor(es[j + 1..], id))]
  {
    hide Run, ToInt, LastStatus, LastLength, DataFor, RegisteredSince;
    var since := es[j + 1..];
    HeadersAreLast(es, j, id);
    forall i | m - j - 1 < i < |since|
      ensures since[i].Header? && since[i].kind == HEADERS && since[i].id == id ==> since[i].further
    {
      assert since[i] == es[j + 1 + i];
    }
    LastStatusAt(since, m - j - 1, id);
    LastStatusIs(since, id);
    var j' := BodyIsDelivered(es, id);
    RegisteredOnce(es, j, j', id);
  }

  lemma LastStatusIs(es: seq<Event>, id: nat)
    requires LastNumber(es, id, Status).Some?
    ensures LastStatus(es, id) == ToInt(LastNumber(es, id, Status).value)
  {
  }

  lemma {:induction false} LastStatusAt(es: seq<Event>, m: nat, id: nat)
    requires m < |es|
    requires es[m].Header? && es[m].kind == HEADERS && es[m].id == id && !es[m].further && es[m].token == Status
    requires forall i | m < i < |es| :: es[i].Header? && es[i].kind == HEADERS && es[i].id == id ==> es[i].further
    ensures LastNumber(es, id, Status) == Some(es[m].number)
  {
    if m < |es| - 1 {
      LastStatusAt(es[..|es| - 1], m, id);
    }
  }

  /** There is one registration to speak of. */
  lemma RegisteredOnce(es: seq<Event>, j: nat, k: nat, id: nat)
    requires RegisteredSince(es, j, id) && RegisteredSince(es, k, id)
    ensures j == k
  {
    if j < k {
      RegistersInPrefix(es, k, j, id);
      StillRegistered(es[..k], j, id);
    } else if k < j {
      RegistersInPrefix(es, j, k, id);
      StillRegistered(es[..j], k, id);
    }
  }

  // ---------- stream states ----------

  /** The order of section 5.1 of RFC 7540, as far as the callbacks follow it. */
  function Rank(s: StreamState): nat {
    match s
    case Idle => 0
    case Open => 1
    case ReservedLocal => 2
    case ReservedRemote => 2
    case HalfClosedLocal => 3
    case HalfClosedRemote => 3
    case Closed => 4
  }

  /** The frames that take a stream back: a promise on an ended stream, or the end of a closed one. */
  predicate Demotes(s: StreamState, e: Event) {
    && e.FrameRecv?
    && (|| (e.kind == PUSH_PROMISE && s in {HalfClosedLocal, HalfClosedRemote, Closed})
        || (e.kind in {DATA, HEADERS} && e.endStream && !(e.kind == HEADERS && e.further) && s == Closed))
  }

  predicate Sound(s: Stream) {
    s.status == 0 && s.state != ReservedLocal && s.state != HalfClosedLocal
  }

  /** A step keeps a stream's rank from falling exactly when its frame is not one of those. */
  lemma ClimbsExactly(s: Stream, e: Event)
    requires Sound(s) && Local(Some(s), e).Some?
    ensures Sound(Local(Some(s), e).value)
    ensures Rank(Local(Some(s), e).value.state) >= Rank(s.state) <==> !Demotes(s.state, e)
    ensures Local(Some(s), e).value.state == Idle ==> s.state == Idle
  {
  }

  lemma NewIsSound(e: Event)
    ensures Local(None, e).Some? ==> Sound(Local(None, e).value)
    ensures Local(None, e).Some? ==> Local(None, e).value.state in {Idle, Open, Closed}
    ensures Local(None, e).Some? && Local(None, e).value.state == Closed ==> e.BeforeSend? && e.kind == GOAWAY
  {
  }

  /** In every run: no locally reserved or half-closed stream, and no stream that expects an interim response. */
  lemma {:induction false} RunSound(es: seq<Event>, id: nat)
    requires id in Run(map[], es)
    ensures Sound(Run(map[], es)[id]) && !Run(map[], es)[id].ExpectFinalResponse()
  {
    var n := |es| - 1;
    var r, e := Run(map[], es[..n]), es[n];
    if Target(e) != id {
      RunSound(es[..n], id);
    } else if id in r {
      RunSound(es[..n], id);
      ClimbsExactly(r[id], e);
    } else {
      NewIsSound(e);
    }
  }

  /** GOAWAY travels on stream 0 only. */
  predicate GoAwayOnZero(e: Event) {
    (e.FrameRecv? || e.BeforeSend?) && e.kind == GOAWAY ==> e.id == 0
  }

  predicate StreamFramesOffZero(e: Event) {
    e.FrameRecv? && e.kind in {DATA, HEADERS, PUSH_PROMISE} ==> e.id != 0
  }

  predicate EndsStream(e: Event, id: nat) {
    e.FrameRecv? && e.id == id && e.endStream && e.kind in {DATA, HEADERS}
  }

  /** What section 5.1 of RFC 7540 makes a peer keep to. */
  predicate Protocol(es: seq<Event>) {
    && (forall i | 0 <= i < |es| :: GoAwayOnZero(es[i]) && StreamFramesOffZero(es[i]))
    && (forall i, j | 0 <= i < j < |es| :: EndsStream(es[i], es[j].id) ==> !(es[j].FrameRecv? && es[j].kind == PUSH_PROMISE))
  }

  lemma ProtocolPrefix(es: seq<Event>, n: nat)
    requires Protocol(es) && n <= |es|
    ensures Protocol(es[..n])
  {
  }

  /** Between callbacks only stream 0 can be closed, and a half-closed stream has received its end. */
  lemma {:induction false} ClosedOrEnded(es: seq<Event>, id: nat)
    requires Protocol(es) && id in Run(map[], es)
    ensures Run(map[], es)[id].state == Closed ==> id == 0
    ensures Run(map[], es)[id].state == HalfClosedRemote ==> exists i :: 0 <= i < |es| && EndsStream(es[i], id)
  {
    var n := |es| - 1;
    var r, e := Run(map[], es[..n]), es[n];
    ProtocolPrefix(es, n);
    if id in r {
      ClosedOrEnded(es[..n], id);
      if r[id].state == HalfClosedRemote {
        var i :| 0 <= i < n && EndsStream(es[..n][i], id);
        assert EndsStream(es[i], id);
      }
    }
    if Target(e) == id {
      ClosesOrEnds(Find(r, id), e);
      if EndsStream(e, id) {
        assert EndsStream(es[n], id);
      }
    }
  }

  lemma ClosesOrEnds(s: Option<Stream>, e: Event)
    requires Local(s, e).Some?
    ensures Local(s, e).value.state == Closed ==>
              (s.Some? && s.value.state == Closed) || ((e.FrameRecv? || e.BeforeSend?) && e.kind == GOAWAY)
    ensures Local(s, e).value.state == HalfClosedRemote ==>
              (s.Some? && s.value.state == HalfClosedRemote) || EndsStream(e, e.id)
  {
  }

  /** Under the protocol a registered stream only climbs, step by step of every run. */
  lemma StatesClimb(es: seq<Event>, k: nat, id: nat)
    requires Protocol(es) && k < |es|
    requires id in Run(map[], es[..k]) && id in Run(map[], es[..k + 1])
    ensures Rank(Run(map[], es[..k])[id].state) <= Rank(Run(map[], es[..k + 1])[id].state)
  {
    var r, e := Run(map[], es[..k]), es[k];
    assert es[..k + 1][..k] == es[..k];
    if Target(e) == id {
      ProtocolPrefix(es, k);
      ClosedOrEnded(es[..k], id);
      RunSound(es[..k], id);
      ClimbsExactly(r[id], e);
      if r[id].state == HalfClosedRemote {
        var i :| 0 <= i < k && EndsStream(es[..k][i], id);
        assert EndsStream(es[i], id);
        assert EndsStream(es[i], es[k].id) || Target(e) != e.id;
      }
    }
  }

  /** The events that take a stream out of the idle state. */
  predicate Wakes(e: Event, id: nat) {
    || (e.FrameRecv? && e.kind in {HEADERS, GOAWAY} && e.id == id)
    || (e.Header? && e.kind == PUSH_PROMISE && e.promised == id)
    || (e.BeforeSend? && e.kind == GOAWAY && e.id == id)
  }

  lemma WakeStep(r: Registry, e: Event, id: nat)
    requires id in r && id in Step(r, e)
    ensures Step(r, e)[id].state == Idle <==> r[id].state == Idle && !Wakes(e, id)
  {
  }

  /** In every run a stream is idle exactly when it was not registered by sending, and nothing has woken it. */
  lemma {:induction false} IdleExactly(es: seq<Event>, j: nat, id: nat)
    requires RegisteredSince(es, j, id)
    ensures id in Run(map[], es)
    ensures Run(map[], es)[id].state == Idle <==>
            !es[j].BeforeSend? && forall i | j < i < |es| :: !Wakes(es[i], id)
  {
    hide Step, Wakes;
    StillRegistered(es, j, id);
    var n := |es| - 1;
    if j == n {
      assert es[..n + 1] == es;
      NewlyRegistered(Run(map[], es[..n]), es[n], id);
    } else {
      RegistersInPrefix(es, n, j, id);
      IdleExactly(es[..n], j, id);
      WakeStep(Run(map[], es[..n]), es[n], id);
      assert forall i | j < i < n :: es[i] == es[..n][i];
    }
  }

  // ---------- what an ended stream has received ----------

  predicate Promised(e: Event, id: nat) {
    e.FrameRecv? && e.id == id && e.kind == PUSH_PROMISE
  }

  /** GOAWAY, received or sent, that names the stream. */
  predicate GoesAway(e: Event, id: nat) {
    (e.FrameRecv? || e.BeforeSend?) && e.id == id && e.kind == GOAWAY
  }

  /** A frame ends a registered stream: not on a further header block, nor on data for an idle stream. */
  predicate Ends(r: Registry, e: Event, id: nat) {
    && EndsStream(e, id) && id in r
    && !(e.kind == HEADERS && e.further)
    && !(e.kind == DATA && r[id].state == Idle)
  }

  predicate EndsAt(es: seq<Event>, i: nat, id: nat) {
    i < |es| && Ends(Run(map[], es[..i]), es[i], id)
  }

  /** Event i ended the stream, and nothing has moved it on since. */
  predicate EndedBy(es: seq<Event>, i: nat, id: nat) {
    EndsAt(es, i, id) && forall m | i < m < |es| :: !Promised(es[m], id) && !GoesAway(es[m], id)
  }

  /** Event i was a GOAWAY for the stream, and nothing has moved it back since. */
  predicate GoneBy(es: seq<Event>, i: nat, id: nat) {
    && i < |es| && GoesAway(es[i], id)
    && forall m: nat | i < m < |es| :: !Promised(es[m], id) && !EndsAt(es, m, id)
  }

  /** A promise reserves the stream: a field of its own header block if it is idle, a promise on it if it is not. */
  predicate Reserves(r: Registry, e: Event, id: nat) {
    && id in r
    && (|| (e.Header? && e.kind == PUSH_PROMISE && e.promised == id && r[id].state == Idle)
        || (Promised(e, id) && r[id].state != Idle))
  }

  predicate ReservesAt(es: seq<Event>, i: nat, id: nat) {
    i < |es| && Reserves(Run(map[], es[..i]), es[i], id)
  }

  /** Event i reserved the stream, and nothing has moved it on since. */
  predicate ReservedBy(es: seq<Event>, i: nat, id: nat) {
    && ReservesAt(es, i, id)
    && forall m: nat | i < m < |es| :: !EndsAt(es, m, id) && !GoesAway(es[m], id)
  }

  lemma TurnStep(r: Registry, e: Event, id: nat)
    requires id in r && id in Step(r, e) && Sound(r[id])
    ensures Step(r, e)[id].state == HalfClosedRemote <==>
            Ends(r, e, id) || (r[id].state == HalfClosedRemote && !Promised(e, id) && !GoesAway(e, id))
    ensures Step(r, e)[id].state == Closed <==>
            GoesAway(e, id) || (r[id].state == Closed && !Promised(e, id) && !Ends(r, e, id))
    ensures Step(r, e)[id].state == ReservedRemote <==>
            Reserves(r, e, id) || (r[id].state == ReservedRemote && !Ends(r, e, id) && !GoesAway(e, id))
  {
  }

  /** The last event of a run, as a turning point. */
  lemma LastTurn(es: seq<Event>, id: nat)
    requires es != []
    ensures var n := |es| - 1;
            && (EndsAt(es, n, id) <==> Ends(Run(map[], es[..n]), es[n], id))
            && (ReservesAt(es, n, id) <==> Reserves(Run(map[], es[..n]), es[n], id))
            && (EndedBy(es, n, id) <==> EndsAt(es, n, id)) && (GoneBy(es, n, id) <==> GoesAway(es[n], id))
            && (ReservedBy(es, n, id) <==> ReservesAt(es, n, id))
  {
    hide Ends, Reserves;
  }

  lemma EndsInPrefix(es: seq<Event>, n: nat, m: nat, id: nat)
    requires m < n <= |es|
    ensures EndsAt(es[..n], m, id) <==> EndsAt(es, m, id)
    ensures ReservesAt(es[..n], m, id) <==> ReservesAt(es, m, id)
  {
    hide Ends, Reserves, Run;
    RunPrefix(es, n, m);
  }

  /** An earlier one, as the last event leaves it. */
  lemma EarlierTurn(es: seq<Event>, i: nat, id: nat)
    requires i < |es| - 1
    ensures var n := |es| - 1;
            && (EndedBy(es, i, id) <==> EndedBy(es[..n], i, id) && !Promised(es[n], id) && !GoesAway(es[n], id))
            && (GoneBy(es, i, id) <==> GoneBy(es[..n], i, id) && !Promised(es[n], id) && !EndsAt(es, n, id))
            && (ReservedBy(es, i, id) <==> ReservedBy(es[..n], i, id) && !EndsAt(es, n, id) && !GoesAway(es[n], id))
  {
    hide EndsAt, ReservesAt, Promised, GoesAway;
    var n := |es| - 1;
    forall m: nat | m < n
      ensures EndsAt(es[..n], m, id) <==> EndsAt(es, m, id)
      ensures ReservesAt(es[..n], m, id) <==> ReservesAt(es, m, id)
    {
      EndsInPrefix(es, n, m, id);
    }
    SameEvents(es, n);
  }

  lemma SameEvents(es: seq<Event>, n: nat)
    requires n <= |es|
    ensures forall m {:trigger es[m]} {:trigger es[..n][m]} | 0 <= m < n :: es[..n][m] == es[m]
  {
  }

  predicate HasEnded(es: seq<Event>, j: nat, id: nat) { exists i: nat | j < i < |es| :: EndedBy(es, i, id) }

  predicate HasGone(es: seq<Event>, j: nat, id: nat) { exists i: nat | j <= i < |es| :: GoneBy(es, i, id) }

  predicate HasReserved(es: seq<Event>, j: nat, id: nat) { exists i: nat | j < i < |es| :: ReservedBy(es, i, id) }

  lemma TurnsGrow(es: seq<Event>, j: nat, id: nat)
    requires j < |es| - 1
    ensures var n := |es| - 1;
            && (HasEnded(es, j, id) <==>
                  EndsAt(es, n, id) || (HasEnded(es[..n], j, id) && !Promised(es[n], id) && !GoesAway(es[n], id)))
            && (HasGone(es, j, id) <==>
                  GoesAway(es[n], id) || (HasGone(es[..n], j, id) && !Promised(es[n], id) && !EndsAt(es, n, id)))
            && (HasReserved(es, j, id) <==>
                  ReservesAt(es, n, id) || (HasReserved(es[..n], j, id) && !EndsAt(es, n, id) && !GoesAway(es[n], id)))
  {
    hide EndedBy, GoneBy, ReservedBy, EndsAt, ReservesAt, Promised, GoesAway;
    var n := |es| - 1;
    LastTurn(es, id);
    forall i: nat | i < n
      ensures EndedBy(es, i, id) <==> EndedBy(es[..n], i, id) && !Promised(es[n], id) && !GoesAway(es[n], id)
      ensures GoneBy(es, i, id) <==> GoneBy(es[..n], i, id) && !Promised(es[n], id) && !EndsAt(es, n, id)
      ensures ReservedBy(es, i, id) <==> ReservedBy(es[..n], i, id) && !EndsAt(es, n, id) && !GoesAway(es[n], id)
    {
      EarlierTurn(es, i, id);
    }
  }

  /**
    In every run, whatever its frames: a stream is half closed exactly when its
    end has been received since it was registered and neither a promise nor a
    GOAWAY came after; closed exactly when a GOAWAY has named it and neither a
    promise nor an end came after; and reserved exactly when it has been promised
    and neither an end nor a GOAWAY came after.
   */
  lemma {:induction false} TurnsExactly(es: seq<Event>, j: nat, id: nat)
    requires RegisteredSince(es, j, id)
    ensures id in Run(map[], es)
    ensures Run(map[], es)[id].state == HalfClosedRemote <==> HasEnded(es, j, id)
    ensures Run(map[], es)[id].state == Closed <==> HasGone(es, j, id)
    ensures Run(map[], es)[id].state == ReservedRemote <==> HasReserved(es, j, id)
  {
    hide Step, EndedBy, GoneBy, ReservedBy, EndsAt, ReservesAt, Ends, Reserves, Promised, GoesAway;
    StillRegistered(es, j, id);
    LastTurn(es, id);
    var n := |es| - 1;
    if j == n {
      assert es[..n + 1] == es;
      NewlyRegistered(Run(map[], es[..n]), es[n], id);
    } else {
      RegistersInPrefix(es, n, j, id);
      TurnsExactly(es[..n], j, id);
      RunSound(es[..n], id);
      TurnStep(Run(map[], es[..n]), es[n], id);
      TurnsGrow(es, j, id);
    }
  }

  /** A stream's state in every run, from nothing but the events since its registration. */
  lemma StateExactly(es: seq<Event>, j: nat, id: nat)
    requires RegisteredSince(es, j, id)
    ensures id in Run(map[], es)
    ensures Run(map[], es)[id].state ==
            if !es[j].BeforeSend? && forall i | j < i < |es| :: !Wakes(es[i], id) then Idle
            else if HasGone(es, j, id) then Closed
            else if HasEnded(es, j, id) then HalfClosedRemote
            else if HasReserved(es, j, id) then ReservedRemote
            else Open
  {
    hide Run, HasGone, HasEnded, HasReserved, Wakes, RegisteredSince;
    IdleExactly(es, j, id);
    TurnsExactly(es, j, id);
    RunSound(es, id);
  }

  /**
    In every run, whatever its frames, event k takes a stream back exactly when it
    is a promise and the stream has ended or gone away, or an end and the stream
    has gone away.
   */
  lemma GoesBackExactly(es: seq<Event>, j: nat, k: nat, id: nat)
    requires k < |es| && RegisteredSince(es[..k], j, id) && id in Run(map[], es[..k + 1])
    ensures id in Run(map[], es[..k])
    ensures Rank(Run(map[], es[..k + 1])[id].state) < Rank(Run(map[], es[..k])[id].state) <==>
            || (Promised(es[k], id) && (HasEnded(es[..k], j, id) || HasGone(es[..k], j, id)))
            || (EndsAt(es, k, id) && HasGone(es[..k], j, id))
  {
    hide HasEnded, HasGone, Local;
    TurnsExactly(es[..k], j, id);
    RunSound(es[..k], id);
    assert es[..k + 1][..k] == es[..k];
    if Target(es[k]) == id {
      ClimbsExactly(Run(map[], es[..k])[id], es[k]);
    }
  }

  /** Frames travel where section 5.1 of RFC 7540 lets them, in any order. */
  predicate StreamsApart(es: seq<Event>) {
    forall i | 0 <= i < |es| :: GoAwayOnZero(es[i]) && StreamFramesOffZero(es[i])
  }

  /**
    With GOAWAY on stream 0 only, event k takes another stream back exactly when it
    is a promise on a stream that has received its end, and no promise since.
   */
  lemma GoesBackOnPromise(es: seq<Event>, j: nat, k: nat, id: nat)
    requires StreamsApart(es) && id != 0
    requires k < |es| && RegisteredSince(es[..k], j, id) && id in Run(map[], es[..k + 1])
    ensures id in Run(map[], es[..k])
    ensures Rank(Run(map[], es[..k + 1])[id].state) < Rank(Run(map[], es[..k])[id].state) <==>
            && Promised(es[k], id)
            && exists i: nat :: j < i && EndsAt(es[..k], i, id) && forall m | i < m < k :: !Promised(es[m], id)
  {
    GoesBackExactly(es, j, k, id);
    hide Run, Promised, EndsAt, GoAwayOnZero;
    forall m | 0 <= m < k
      ensures es[..k][m] == es[m] && !GoesAway(es[m], id)
    {
      assert GoAwayOnZero(es[m]);
      OffZero(es[m], id);
    }
    forall i: nat
      ensures EndedBy(es[..k], i, id) <==> EndsAt(es[..k], i, id) && forall m | i < m < k :: !Promised(es[m], id)
      ensures !GoneBy(es[..k], i, id)
    {
    }
  }

  lemma OffZero(e: Event, id: nat)
    requires GoAwayOnZero(e) && id != 0
    ensures !GoesAway(e, id)
  {
  }

  /** A run that takes a stream back: it opens, ends, and carries a promise. */
  lemma GoesBack(id: nat)
    requires id != 0
    ensures var es := [BeginHeaders(HEADERS, id, 0), FrameRecv(HEADERS, id, false, true),
                       FrameRecv(PUSH_PROMISE, id, false, false)];
            && StreamsApart(es)
            && Find(Run(map[], es[..2]), id) == Some(FRESH.(state := HalfClosedRemote))
            && Find(Run(map[], es), id) == Some(FRESH.(state := ReservedRemote))
  {
    var es := [BeginHeaders(HEADERS, id, 0), FrameRecv(HEADERS, id, false, true),
               FrameRecv(PUSH_PROMISE, id, false, false)];
    assert es[..3] == es && es[..2][..1] == es[..1] && es[..1][..0] == [];
    assert Find(Run(map[], es[..1]), id) == Some(FRESH);
  }

  /** With GOAWAY on another stream than 0, an end can take a stream back, too. */
  lemma GoesBackFromClosed(id: nat)
    ensures var es := [BeginHeaders(HEADERS, id, 0), FrameRecv(GOAWAY, id, false, false),
                       FrameRecv(HEADERS, id, false, true)];
            && Find(Run(map[], es[..2]), id) == Some(FRESH.(state := Closed))
            && Find(Run(map[], es), id) == Some(FRESH.(state := HalfClosedRemote))
  {
    var es := [BeginHeaders(HEADERS, id, 0), FrameRecv(GOAWAY, id, false, false),
               FrameRecv(HEADERS, id, false, true)];
    assert es[..3] == es && es[..2][..1] == es[..1] && es[..1][..0] == [];
    assert Find(Run(map[], es[..1]), id) == Some(FRESH);
  }

  /** Under the protocol a stream is half closed exactly when its end has been received since it was registered. */
  lemma EndedExactly(es: seq<Event>, j: nat, id: nat)
    requires Protocol(es) && RegisteredSince(es, j, id) && id != 0
    ensures id in Run(map[], es)
    ensures Run(map[], es)[id].state == HalfClosedRemote <==> exists i: nat :: j < i && EndsAt(es, i, id)
  {
    TurnsExactly(es, j, id);
    hide Run, GoAwayOnZero;
    forall i: nat
      ensures EndsAt(es, i, id) <==> EndedBy(es, i, id)
    {
      if EndsAt(es, i, id) {
        forall m | i < m < |es|
          ensures !Promised(es[m], id) && !GoesAway(es[m], id)
        {
          assert EndsStream(es[i], id);
          assert GoAwayOnZero(es[m]);
          OffZero(es[m], id);
        }
      }
    }
  }
}
