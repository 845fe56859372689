/**
  What a caller can rely on after a successful parse: where the fields lie, what
  the port number is, and how much of the buffer the fields determine.
 */
module UrlLayout {
  import opened Bytes
  import opened Options
  import opened UrlScan
  import opened HostScan
  import opened UrlFields
  import opened UrlGrammar
  import opened UrlTheorems

  /** A derivation of a URL that the 16-bit members can describe. */
  predicate Describes(u: Url, buf: bytes, connect: bool) {
    Derivable(u, connect) && u.Render() == buf && Fits(u)
  }

  /** The order of the fields in a URL. */
  function Rank(f: Field): nat {
    match f
    case UF_SCHEMA => 0
    case UF_USERINFO => 1
    case UF_HOST => 2
    case UF_PORT => 3
    case UF_PATH => 4
    case UF_QUERY => 5
    case UF_FRAGMENT => 6
  }

  function FieldAfter(f: Field): Field {
    match f
    case UF_SCHEMA => UF_USERINFO
    case UF_USERINFO => UF_HOST
    case UF_HOST => UF_PORT
    case UF_PORT => UF_PATH
    case UF_PATH => UF_QUERY
    case UF_QUERY => UF_FRAGMENT
    case UF_FRAGMENT => UF_FRAGMENT
  }

  lemma EndsBeforeNext(u: Url, f: Field)
    requires f != UF_FRAGMENT
    ensures |Before(u, f)| + |Component(u, f)| <= |Before(u, FieldAfter(f))|
  {
  }

  /** Components come in order and do not overlap. */
  lemma {:induction false} InOrder(u: Url, f: Field, g: Field)
    requires Rank(f) < Rank(g)
    ensures |Before(u, f)| + |Component(u, f)| <= |Before(u, g)|
    decreases Rank(g) - Rank(f)
  {
    hide Before, Component;
    EndsBeforeNext(u, f);
    if FieldAfter(f) != g {
      InOrder(u, FieldAfter(f), g);
    }
  }

  /** A short accepted buffer, its derivation and its fields in plain numbers. */
  lemma Accounted(buf: bytes, connect: bool) returns (u: Url)
    requires |buf| <= UINT16_MAX && Parsed(buf, connect).Accepted?
    ensures Derivable(u, connect) && u.Render() == buf
    ensures forall f: Field :: f in Parsed(buf, connect).fields <==> Component(u, f) != []
    ensures forall f: Field | f in Parsed(buf, connect).fields ::
              && Parsed(buf, connect).fields[f].off == |Before(u, f)|
              && Parsed(buf, connect).fields[f].len == |Component(u, f)|
              && Before(u, f) + Component(u, f) <= buf
    ensures Parsed(buf, connect).port == u.PortNumber()
  {
    u := AcceptedIsDerived(buf, connect);
    hide Before, Component, Derivable, Url.Render, Parsed, Wrap, Url.PortNumber;
    ShortFits(u);
    DerivationParsed(u, connect);
    forall f: Field | Component(u, f) != []
      ensures Layout(u)[f] == Span(|Before(u, f)|, |Component(u, f)|)
      ensures Before(u, f) + Component(u, f) <= buf
    {
      WrapFits(|Before(u, f)|);
      WrapFits(|Component(u, f)|);
      ComponentInText(u, f);
    }
  }

  function Slice(buf: bytes, s: Span): bytes
    requires s.off + s.len <= |buf|
  {
    buf[s.off..s.off + s.len]
  }

  /** Fields are not empty, lie inside the buffer, in order, and do not overlap. */
  lemma FieldLayout(buf: bytes, connect: bool)
    requires |buf| <= UINT16_MAX && Parsed(buf, connect).Accepted?
    ensures var fields := Parsed(buf, connect).fields;
            && (forall f | f in fields :: 0 < fields[f].len && fields[f].off + fields[f].len <= |buf|)
            && (forall f, g | f in fields && g in fields && Rank(f) < Rank(g) ::
                  fields[f].off + fields[f].len <= fields[g].off)
  {
    var u := Accounted(buf, connect);
    hide Before, Component, Derivable, Url.Render, Parsed, Url.PortNumber;
    var fields := Parsed(buf, connect).fields;
    forall f, g | f in fields && g in fields && Rank(f) < Rank(g)
      ensures fields[f].off + fields[f].len <= fields[g].off
    {
      InOrder(u, f, g);
    }
  }

  /** The port number is the value of exactly the PORT text, which "/", "?" or the end follows. */
  lemma PortField(buf: bytes, connect: bool)
    requires |buf| <= UINT16_MAX && Parsed(buf, connect).Accepted?
    ensures var (fields, port) := (Parsed(buf, connect).fields, Parsed(buf, connect).port);
            if UF_PORT in fields then
              var s := fields[UF_PORT];
              var end := s.off + s.len;
              && end <= |buf|
              && AllDigits(Slice(buf, s)) && port == Value(Slice(buf, s))
              && (end == |buf| || buf[end] == SLASH || buf[end] == QUESTION)
            else port == 0
  {
    hide Before, Component, Derivable, Url.Render, Parsed, AllDigits, Url.PortNumber;
    var u := Accounted(buf, connect);
    NoPort(u, connect);
    if Component(u, UF_PORT) != [] {
      AfterPort(u, connect);
      PortDigits(u, connect);
      var c := Component(u, UF_PORT);
      assert Slice(buf, Parsed(buf, connect).fields[UF_PORT]) == c;
    }
  }

  lemma PortDigits(u: Url, connect: bool)
    requires Derivable(u, connect) && Component(u, UF_PORT) != []
    ensures AllDigits(Component(u, UF_PORT)) && u.PortNumber() == Value(Component(u, UF_PORT))
  {
  }

  lemma AfterPort(u: Url, connect: bool)
    requires Derivable(u, connect) && Component(u, UF_PORT) != []
    ensures var end := |Before(u, UF_PORT)| + |Component(u, UF_PORT)|;
            && end <= |u.Render()|
            && (end == |u.Render()| || u.Render()[end] == SLASH || u.Render()[end] == QUESTION)
  {
    var o := OutlineOf(u);
    UrlOutline(u, connect);
    UrlOutlineText(u);
    EndsAtPath(u);
    hide Derivable, WellFormed, Outline.Text, Url.Render, Before, Component, OutlineOf;
    AfterTheRun(o, connect);
  }

  lemma EndsAtPath(u: Url)
    requires Component(u, UF_PORT) != []
    ensures |Before(u, UF_PORT)| + |Component(u, UF_PORT)| == OutlineOf(u).PathAt()
    ensures OutlineOf(u).server != []
  {
  }

  lemma RunInText(buf: bytes, connect: bool, o: Outline, f: Field)
    requires Scan(buf, connect) == Some(o)
    ensures RunAt(o, f) + RunLength(o, f) <= |buf| || RunLength(o, f) == 0
  {
    hide Outline.Text, Scan;
    ScanSound(buf, connect);
    SepBound(o, connect);
    hide WellFormed;
    TextLayout(o);
  }

  lemma PieceInRun(buf: bytes, lo: nat, hi: nat, foundAt: bool, f: Field)
    requires lo <= hi <= |buf| && ParsedHost(buf, lo, hi, foundAt).Some?
    ensures var h := ParsedHost(buf, lo, hi, foundAt).value;
            PieceAt(h, lo, f) + PieceLength(h, f) <= hi || PieceLength(h, f) == 0
  {
    hide HostOutline.Text, HostStateOf, ScanHost;
    ScanHostSound(buf[lo..hi], foundAt);
    hide HostWellFormed;
    HostTextLayout(ParsedHost(buf, lo, hi, foundAt).value);
  }

  lemma SpanInside(at: nat, length: nat, n: nat)
    requires at + length <= n
    ensures SpanOf(at, length).off + SpanOf(at, length).len <= n
  {
  }

  /** On buffers of any length a caller who reads an accepted field stays inside the buffer. */
  lemma FieldsInside(buf: bytes, connect: bool)
    requires Parsed(buf, connect).Accepted?
    ensures forall f | f in Parsed(buf, connect).fields ::
              Parsed(buf, connect).fields[f].off + Parsed(buf, connect).fields[f].len <= |buf|
  {
    hide Scan, ParsedHost, Finish, SpanOf, PieceAt, RunAt, Outline.ServerAt;
    var o := Scan(buf, connect).value;
    RunInside(buf, connect);
    var lo, hi := Wrap(o.ServerAt()), Wrap(o.ServerAt()) + Wrap(|o.server|);
    PortInside(buf, o, lo, hi);
    forall f: Field
      ensures 0 < RunLength(o, f) ==>
                SpanOf(RunAt(o, f), RunLength(o, f)).off + SpanOf(RunAt(o, f), RunLength(o, f)).len <= |buf|
    {
      RunInText(buf, connect, o, f);
      if 0 < RunLength(o, f) {
        SpanInside(RunAt(o, f), RunLength(o, f), |buf|);
      }
    }
    if o.server == [] {
      FinishAccepts(buf, connect, Fields(o, NO_HOST, 0));
    } else {
      var h := ParsedHost(buf, lo, hi, o.FoundAt()).value;
      FinishAccepts(buf, connect, Fields(o, h, lo));
      forall f: Field
        ensures 0 < PieceLength(h, f) ==>
                  SpanOf(PieceAt(h, lo, f), PieceLength(h, f)).off + SpanOf(PieceAt(h, lo, f), PieceLength(h, f)).len
                  <= |buf|
      {
        PieceInRun(buf, lo, hi, o.FoundAt(), f);
        if 0 < PieceLength(h, f) {
          SpanInside(PieceAt(h, lo, f), PieceLength(h, f), |buf|);
        }
      }
    }
  }
}
