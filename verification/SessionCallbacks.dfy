/**
  The callbacks as they run: over a map of shared stream objects that they
  mutate.  Each is one step of module Streams.
 */
module SessionCallbacks {
  import opened Bytes
  import S = Streams

  /** Response: chunks of data, and a cached length. */
  class Response {
    var data: seq<bytes>
    var contentLength: int
    var statusCode: int

    constructor ()
      ensures data == [] && contentLength == 0 && statusCode == -1
    {
      data, contentLength, statusCode := [], 0, -1;
    }

    /** data(): one chunk more. */
    method Append(chunk: bytes)
      modifies this`data
      ensures data == old(data) + [chunk]
    {
      data := data + [chunk];
    }

    /** contentLength(): sum the chunks unless a length is known, and remember the sum. */
    method ContentLength() returns (n: int)
      modifies this`contentLength
      ensures n == contentLength == if old(contentLength) == 0 then TotalSize(data) else old(contentLength)
    {
      if contentLength == 0 {
        for i := 0 to |data|
          invariant contentLength == TotalSize(data[..i])
        {
          assert data[..i + 1][..i] == data[..i];
          contentLength := contentLength + |data[i]|;
        }
        assert data[..|data|] == data;
      }
      return contentLength;
    }
  }

  function TotalSize(chunks: seq<bytes>): nat {
    if chunks == [] then 0 else TotalSize(chunks[..|chunks| - 1]) + |chunks[|chunks| - 1]|
  }

  /** Stream: its response is created with it and never exchanged. */
  class Stream {
    const id: nat
    const response: Response
    var state: S.StreamState
    var status: nat

    constructor (id: nat)
      ensures this.id == id && fresh(response) && View() == S.FRESH
    {
      this.id := id;
      response := new Response();
      state, status := S.Idle, 0;
    }

    ghost function View(): S.Stream
      reads this, response
    {
      S.Stream(state, status, response.statusCode, response.contentLength, response.data)
    }

    predicate ExpectFinalResponse()
      reads this
    {
      status / 100 == 1
    }

    /** The part of onHeaderCallback for a header field of a response. */
    method ReceiveField(further: bool, token: S.Token, number: int, ghost e: S.Event)
      requires e.Header? && e.kind == S.HEADERS && e.further == further && e.token == token && e.number == number
      modifies response`statusCode, response`contentLength
      ensures View() == S.OnHeader(old(View()), e)
    {
      if further {
        return;
      }
      if token == S.Status {
        response.statusCode := S.ToInt(number);
      } else if token == S.ContentLength {
        response.contentLength := number;
      }
    }

    /** The part for a header field of a promised request. */
    method ReceivePromise(ghost e: S.Event)
      requires e.Header? && e.kind == S.PUSH_PROMISE
      modifies this`state
      ensures View() == S.OnHeader(old(View()), e)
    {
      if state == S.Idle {
        state := S.ReservedRemote;
      }
    }

    /** A chunk of data goes to the response. */
    method ReceiveData(data: bytes)
      modifies response`data
      ensures View() == old(View()).(chunks := old(View()).chunks + [data])
    {
      response.Append(data);
    }

    /** The switch of onFrameRecvCallback. */
    method ReceiveFrame(kind: S.Kind, further: bool, endStream: bool, ghost e: S.Event)
      requires e.FrameRecv? && e.kind == kind && e.further == further && e.endStream == endStream
      modifies this`state
      ensures View() == S.OnFrameRecv(old(View()), e)
    {
      match kind {
        case DATA =>
          if state == S.Idle {
            return;
          }
          if endStream {
            state := S.HalfClosedRemote;
          }
        case HEADERS =>
          if state == S.Idle {
            state := S.Open;
          }
          if further && !ExpectFinalResponse() {
            return;
          }
          if ExpectFinalResponse() {
            return;
          }
          if endStream {
            state := S.HalfClosedRemote;
          }
        case PUSH_PROMISE =>
          if state == S.Idle {
            return;
          }
          state := S.ReservedRemote;
        case GOAWAY =>
          state := S.Closed;
        case OTHER =>
      }
    }

    /** processOutgoingFrame */
    method SendFrame(kind: S.Kind)
      modifies this`state
      ensures View() == if kind == S.GOAWAY then old(View()).(state := S.Closed) else old(View())
    {
      if kind == S.GOAWAY {
        state := S.Closed;
      }
    }
  }

  /** A stream that starts by sending a frame. */
  method CreateSending(kind: S.Kind, id: nat) returns (created: Stream)
    ensures fresh(created) && fresh(created.response) && created.id == id
    ensures created.View() == S.FRESH.(state := if kind == S.GOAWAY then S.Closed else S.Open)
  {
    created := new Stream(id);
    created.state := S.Open;
    created.SendFrame(kind);
  }

  class Session {
    var streams: map<nat, Stream>
    ghost var log: seq<S.Ready>    // the ready callbacks so far

    ghost function Objects(): set<object>
      reads this`streams
    {
      (set s: Stream | s in streams.Values :: s as object) + (set s: Stream | s in streams.Values :: s.response as object)
    }

    /** The key of a stream is its id, and no two keys share an object. */
    ghost predicate Valid()
      reads this`streams
    {
      && (forall i | i in streams :: streams[i].id == i)
      && (forall i, j | i in streams && j in streams && i != j ::
            streams[i] != streams[j] && streams[i].response != streams[j].response)
    }

    ghost function Abs(): S.Registry
      reads this`streams, Objects()
    {
      map i | i in streams :: streams[i].View()
    }

    constructor ()
      ensures Valid() && Abs() == map[] && log == [] && streams == map[]
    {
      streams, log := map[], [];
    }

    /** The session did one step, and no registered stream object was replaced. */
    twostate predicate Stepped(e: S.Event)
      requires old(Valid())
      reads this, Objects()
    {
      && Valid()
      && Abs() == S.Step(old(Abs()), e)
      && log == old(log) + S.Reported(old(Abs()), e)
      && (forall i | i in old(streams) && i in streams :: streams[i] == old(streams[i]))
      && (forall i | i in streams && i !in old(streams) :: fresh(streams[i]) && fresh(streams[i].response))
    }

    function FindStream(id: nat): Stream?
      reads this
    {
      if id in streams then streams[id] else null
    }

    /** addStream: try_emplace keeps a registered stream. */
    method AddStream(s: Stream) returns (ok: bool)
      requires Valid()
      requires forall i | i in streams :: streams[i] != s && streams[i].response != s.response
      modifies this`streams
      ensures Valid()
      ensures ok <==> s.id !in old(streams)
      ensures streams == if ok then old(streams)[s.id := s] else old(streams)
      ensures Abs() == if ok then old(Abs())[s.id := s.View()] else old(Abs())
    {
      ok := s.id !in streams;
      if ok {
        streams := streams[s.id := s];
      }
    }

    method RemoveStream(id: nat)
      requires Valid()
      modifies this`streams
      ensures Valid()
      ensures streams == old(streams) - {id}
      ensures Abs() == old(Abs()) - {id}
    {
      streams := streams - {id};
    }

    /** createAndAddStream, for an event that registers an unknown stream. */
    method CreateAndAdd(id: nat, ghost e: S.Event)
      requires Valid()
      requires S.Target(e) == id && (e.Submit? || e.BeginHeaders?)
      modifies this`streams
      ensures Stepped(e)
    {
      var strm := new Stream(id);
      assert Abs() == old(Abs());
      var _ := AddStream(strm);
      hide S.Step, S.Reported;
      AddedStep(old(Abs()), e);
    }

    /** A registering event, spelled out. */
    static lemma AddedStep(r: S.Registry, e: S.Event)
      requires e.Submit? || e.BeginHeaders?
      ensures var id := S.Target(e); S.Step(r, e) == if id in r then r else r[id := S.FRESH]
      ensures S.Reported(r, e) == []
    {
      var id := S.Target(e);
      assert id in r ==> r[id := r[id]] == r;
    }

    /** An event on a stream that must be registered already, spelled out. */
    static lemma KnownStep(r: S.Registry, e: S.Event)
      requires e.Header? || e.FrameRecv? || e.DataChunk?
      ensures var id := S.Target(e);
              S.Step(r, e) ==
              if id !in r then r
              else if e.Header? then r[id := S.OnHeader(r[id], e)]
              else if e.FrameRecv? then r[id := S.OnFrameRecv(r[id], e)]
              else r[id := r[id].(chunks := r[id].chunks + [e.data])]
      ensures S.Reported(r, e) == []
    {
      hide S.OnHeader, S.OnFrameRecv;
      var id := S.Target(e);
      assert id !in r ==> r - {id} == r;
    }

    /** A frame about to be sent, spelled out. */
    static lemma SendStep(r: S.Registry, kind: S.Kind, id: nat)
      ensures var s := if id in r then r[id] else S.FRESH.(state := S.Open);
              S.Step(r, S.BeforeSend(kind, id)) == r[id := if kind == S.GOAWAY then s.(state := S.Closed) else s]
      ensures S.Reported(r, S.BeforeSend(kind, id)) == []
    {
    }

    static lemma CloseStep(r: S.Registry, id: nat)
      ensures S.Step(r, S.Close(id)) == r - {id}
    {
    }

    /** The end of submit. */
    method Submit(id: nat)
      requires Valid()
      modifies this`streams
      ensures Stepped(S.Submit(id))
    {
      CreateAndAdd(id, S.Submit(id));
    }

    method OnBeginHeaders(kind: S.Kind, id: nat, promised: nat)
      requires Valid()
      modifies this`streams
      ensures Stepped(S.BeginHeaders(kind, id, promised))
    {
      hide *;
      BeginHeadersTarget(kind, id, promised);
      if kind != S.PUSH_PROMISE {
        CreateAndAdd(id, S.BeginHeaders(kind, id, promised));
      } else {
        CreateAndAdd(promised, S.BeginHeaders(kind, id, promised));
      }
    }

    static lemma BeginHeadersTarget(kind: S.Kind, id: nat, promised: nat)
      ensures S.Target(S.BeginHeaders(kind, id, promised)) == if kind == S.PUSH_PROMISE then promised else id
    {
    }

    method OnHeader(kind: S.Kind, id: nat, promised: nat, further: bool, token: S.Token, number: int)
      requires Valid()
      modifies Objects()
      ensures Stepped(S.Header(kind, id, promised, further, token, number))
    {
      match kind {
        case HEADERS => OnResponseHeader(id, promised, further, token, number);
        case PUSH_PROMISE => OnPromiseHeader(id, promised, further, token, number);
        case _ =>
      }
    }

    method OnResponseHeader(id: nat, promised: nat, further: bool, token: S.Token, number: int)
      requires Valid()
      modifies Objects()
      ensures Stepped(S.Header(S.HEADERS, id, promised, further, token, number))
    {
      hide S.OnHeader, S.Step, S.Reported;
      ghost var e := S.Header(S.HEADERS, id, promised, further, token, number);
      KnownStep(Abs(), e);
      var strm := FindStream(id);
      if strm != null {
        strm.ReceiveField(further, token, number, e);
        assert Abs() == old(Abs())[id := strm.View()];
      }
    }

    method OnPromiseHeader(id: nat, promised: nat, further: bool, token: S.Token, number: int)
      requires Valid()
      modifies Objects()
      ensures Stepped(S.Header(S.PUSH_PROMISE, id, promised, further, token, number))
    {
      hide S.OnHeader, S.Step, S.Reported;
      ghost var e := S.Header(S.PUSH_PROMISE, id, promised, further, token, number);
      KnownStep(Abs(), e);
      var strm := FindStream(promised);
      if strm != null {
        strm.ReceivePromise(e);
        assert Abs() == old(Abs())[promised := strm.View()];
      }
    }

    method OnFrameRecv(kind: S.Kind, id: nat, further: bool, endStream: bool)
      requires Valid()
      modifies Objects()
      ensures Stepped(S.FrameRecv(kind, id, further, endStream))
    {
      hide S.OnFrameRecv, S.Step, S.Reported;
      ghost var e := S.FrameRecv(kind, id, further, endStream);
      KnownStep(Abs(), e);
      var strm := FindStream(id);
      if strm != null {
        strm.ReceiveFrame(kind, further, endStream, e);
        assert Abs() == old(Abs())[id := strm.View()];
      }
    }

    method OnDataChunk(id: nat, data: bytes)
      requires Valid()
      modifies Objects()
      ensures Stepped(S.DataChunk(id, data))
    {
      hide S.Step, S.Reported;
      KnownStep(Abs(), S.DataChunk(id, data));
      var strm := FindStream(id);
      if strm != null {
        strm.ReceiveData(data);
        assert Abs() == old(Abs())[id := strm.View()];
      }
    }

    method OnStreamClose(id: nat)
      requires Valid()
      modifies this, Objects()
      ensures Stepped(S.Close(id))
    {
      hide S.Step;
      CloseStep(Abs(), id);
      var strm := FindStream(id);
      if strm != null {
        strm.state := S.Closed;
        log := log + [S.Ready(strm.id, strm.response.statusCode, strm.response.contentLength, strm.response.data)];
        assert Abs() == old(Abs())[id := strm.View()];
      }
      assert Abs() - {id} == old(Abs()) - {id};
      RemoveStream(id);
    }

    /** A frame is sent on a stream that is not registered: register it open. */
    method CreateAndSend(kind: S.Kind, id: nat)
      requires Valid() && id !in streams
      modifies this`streams
      ensures Stepped(S.BeforeSend(kind, id))
    {
      hide S.Step, S.Reported;
      SendStep(Abs(), kind, id);
      var created := CreateSending(kind, id);
      assert Abs() == old(Abs());
      var _ := AddStream(created);
    }

    method SendOnKnown(kind: S.Kind, id: nat)
      requires Valid() && id in streams
      modifies Objects()
      ensures Stepped(S.BeforeSend(kind, id))
    {
      hide S.Step, S.Reported;
      SendStep(Abs(), kind, id);
      var strm := streams[id];
      strm.SendFrame(kind);
      assert Abs() == old(Abs())[id := strm.View()];
    }

    method BeforeFrameSend(kind: S.Kind, id: nat)
      requires Valid()
      modifies this`streams, Objects()
      ensures Stepped(S.BeforeSend(kind, id))
    {
      hide S.Step, S.Reported;
      var strm := FindStream(id);
      if strm != null {
        SendOnKnown(kind, id);
      } else {
        CreateAndSend(kind, id);
      }
    }

    /** The protocol engine, or a caller of submit, brings the session an event. */
    method Perform(e: S.Event)
      requires Valid()
      modifies this, Objects()
      ensures Stepped(e) && fresh(Objects() - old(Objects()))
    {
      hide S.Step, S.Reported;
      match e {
        case Submit(id) => Submit(id);
        case BeginHeaders(kind, id, promised) => OnBeginHeaders(kind, id, promised);
        case Header(kind, id, promised, further, token, number) =>
          OnHeader(kind, id, promised, further, token, number);
        case FrameRecv(kind, id, further, endStream) => OnFrameRecv(kind, id, further, endStream);
        case DataChunk(id, data) => OnDataChunk(id, data);
        case Close(id) => OnStreamClose(id);
        case BeforeSend(kind, id) => BeforeFrameSend(kind, id);
      }
      forall i | i in streams
        ensures fresh(streams[i]) || streams[i] in old(Objects())
        ensures fresh(streams[i].response) || streams[i].response in old(Objects())
      {
        assert i in old(streams) ==> old(streams[i]) in old(streams.Values);
      }
    }

    /** findClosedStreams: every closed stream once, in no particular order. */
    method FindClosedStreams() returns (closed: seq<Stream>)
      requires Valid()
      ensures forall i | i in streams :: streams[i] in closed <==> streams[i].state == S.Closed
      ensures forall s | s in closed :: s in streams.Values
      ensures forall i, j | 0 <= i < j < |closed| :: closed[i] != closed[j]
    {
      closed := [];
      var todo := streams.Keys;
      while todo != {}
        invariant todo <= streams.Keys
        invariant forall i | i in streams && i !in todo :: streams[i] in closed <==> streams[i].state == S.Closed
        invariant forall s | s in closed :: s in streams.Values && s.id !in todo
        invariant forall i, j | 0 <= i < j < |closed| :: closed[i] != closed[j]
        decreases todo
      {
        var i :| i in todo;
        todo := todo - {i};
        if streams[i].state == S.Closed {
          closed := closed + [streams[i]];
        }
      }
    }
  }

  /** A new session, after any run of events: it is where the run leads, and has reported what the run reports. */
  method PerformAll(es: seq<S.Event>) returns (s: Session)
    ensures fresh(s) && s.Valid() && s.Abs() == S.Run(map[], es) && s.log == S.Reports(es)
  {
    hide S.Run, S.Reports, S.Step, S.Reported;
    s := new Session();
    S.NothingRun();
    assert es[..0] == [];
    for n := 0 to |es|
      invariant fresh(s) && fresh(s.Objects())
      invariant s.Valid() && s.Abs() == S.Run(map[], es[..n]) && s.log == S.Reports(es[..n])
    {
      S.RunGrows(es[..n], es[n]);
      assert es[..n] + [es[n]] == es[..n + 1];
      s.Perform(es[n]);
    }
    assert es[..|es|] == es;
  }

  /** What a response holds at any time: all that was received for its stream, in order, and the last status. */
  lemma ResponseIsDelivered(s: Session, es: seq<S.Event>, id: nat) returns (j: nat)
    requires s.Valid() && s.Abs() == S.Run(map[], es) && id in s.streams
    ensures S.RegisteredSince(es, j, id)
    ensures s.streams[id].response.data == S.DataFor(es[j + 1..], id)
    ensures s.streams[id].response.statusCode == S.LastStatus(es[j + 1..], id)
    ensures s.streams[id].response.contentLength == S.LastLength(es[j + 1..], id)
  {
    hide S.Run, S.DataFor, S.LastStatus, S.LastLength;
    assert s.Abs()[id] == s.streams[id].View();
    j := S.BodyIsDelivered(es, id);
    S.HeadersAreLast(es, j, id);
  }
}
