/**
  The data provider of a POST request: the read callback that hands a body to
  the protocol engine piece by piece (source/httptlssession.cpp).
 */
module PostBody {
  import opened Bytes

  function Min(a: nat, b: nat): nat { if a < b then a else b }

  /** source->ptr: the string that the callback consumes. */
  class Source {
    var body: bytes

    constructor (body: bytes)
      ensures this.body == body
    {
      this.body := body;
    }

    /** The read callback; eof is the flag it may set in *data_flags. */
    method Read(buf: array<byte>, length: nat, flagged: bool) returns (n: nat, eof: bool)
      requires length <= buf.Length
      modifies this, buf
      ensures (n, body) == (|Chunk(old(body), length)|, Rest(old(body), length))
      ensures buf[..n] == Chunk(old(body), length) && buf[n..] == old(buf[..])[n..]
      ensures eof <==> flagged || SetsEof(old(body), length)
    {
      eof := flagged;
      var bodyLen := Min(|body|, length);
      if bodyLen > 0 {
        forall i | 0 <= i < bodyLen {
          buf[i] := body[i];
        }
        body := body[bodyLen..];
      } else {
        eof := true;
      }
      n := bodyLen;
    }
  }

  // ---------- one call ----------

  function Chunk(body: bytes, length: nat): bytes { body[..Min(|body|, length)] }

  function Rest(body: bytes, length: nat): bytes { body[Min(|body|, length)..] }

  predicate SetsEof(body: bytes, length: nat) { Chunk(body, length) == [] }

  /** A call delivers all the room it is offered, or all the body there is. */
  lemma ChunkIsFull(body: bytes, length: nat)
    ensures length <= |body| ==> Chunk(body, length) == body[..length] && Rest(body, length) == body[length..]
    ensures length >= |body| ==> Chunk(body, length) == body && Rest(body, length) == []
  {
  }

  // ---------- a run of calls ----------

  /** The body left after calls with these lengths. */
  function Left(body: bytes, lengths: seq<nat>): bytes {
    if lengths == [] then body else Left(Rest(body, lengths[0]), lengths[1..])
  }

  /** Everything those calls delivered, in order. */
  function Delivered(body: bytes, lengths: seq<nat>): bytes {
    if lengths == [] then [] else Chunk(body, lengths[0]) + Delivered(Rest(body, lengths[0]), lengths[1..])
  }

  /** Whether call k of a run flags the end. */
  predicate EofAt(body: bytes, lengths: seq<nat>, k: nat)
    requires k < |lengths|
  {
    SetsEof(Left(body, lengths[..k]), lengths[k])
  }

  /** Nothing is lost, doubled or reordered, whatever the lengths. */
  lemma {:induction false} Conservation(body: bytes, lengths: seq<nat>)
    ensures Delivered(body, lengths) + Left(body, lengths) == body
  {
    if lengths != [] {
      var rest := Rest(body, lengths[0]);
      Conservation(rest, lengths[1..]);
      assert Chunk(body, lengths[0]) + rest == body;
    }
  }

  /** A call flags the end exactly when it finds the body empty or offers no room. */
  lemma EofExactly(body: bytes, lengths: seq<nat>, k: nat)
    requires k < |lengths|
    ensures EofAt(body, lengths, k) <==> Left(body, lengths[..k]) == [] || lengths[k] == 0
  {
  }

  /** Calls that offer room shorten the body until it is empty. */
  lemma {:induction false} Progress(body: bytes, lengths: seq<nat>)
    requires forall i | 0 <= i < |lengths| :: lengths[i] > 0
    ensures Left(body, lengths) == [] || |Left(body, lengths)| + |lengths| <= |body|
  {
    if lengths != [] {
      Progress(Rest(body, lengths[0]), lengths[1..]);
      if Rest(body, lengths[0]) == [] {
        EmptyStays(lengths[1..]);
      }
    }
  }

  lemma {:induction false} EmptyStays(lengths: seq<nat>)
    ensures Left([], lengths) == []
  {
    if lengths != [] {
      EmptyStays(lengths[1..]);
    }
  }

  /**
    With room in every call the end is flagged within |body| + 1 calls, first by
    the call before which the whole body has been delivered.
   */
  lemma EofReached(body: bytes, lengths: seq<nat>) returns (k: nat)
    requires |lengths| == |body| + 1
    requires forall i | 0 <= i < |lengths| :: lengths[i] > 0
    ensures k <= |body| && EofAt(body, lengths, k)
    ensures forall j | 0 <= j < k :: !EofAt(body, lengths, j)
    ensures Delivered(body, lengths[..k]) == body
  {
    hide Left, Delivered;
    k := 0;
    while Left(body, lengths[..k]) != []
      invariant k <= |body|
      invariant forall j | 0 <= j < k :: !EofAt(body, lengths, j)
      decreases |body| - k
    {
      EofExactly(body, lengths, k);
      Progress(body, lengths[..k]);
      k := k + 1;
    }
    EofExactly(body, lengths, k);
    Conservation(body, lengths[..k]);
  }
}
