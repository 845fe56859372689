/**
  The two machines together accept the grammar of UrlGrammar and report the
  components of the unique derivation.
 */
module UrlTheorems {
  import opened Bytes
  import opened Options
  import opened UrlChars
  import opened UrlMachine
  import opened UrlScan
  import opened HostScan
  import opened UrlFields
  import opened UrlGrammar

  // ---------- derivations and outlines ----------

  function OutlineOf(u: Url): Outline {
    Outline(u.schema, if u.schema == [] then 0 else 3, u.AuthorityText(), u.path,
            u.query.Some?, u.QueryText(), u.Hashes(), u.FragmentText())
  }

  function HostOutlineOf(a: Authority): HostOutline {
    match a.host
    case Name(n) =>
      HostOutline(a.userinfo, a.at, false, [], false, [], false, n, a.port.Some?, a.PortText())
    case Address(d, z) =>
      HostOutline(a.userinfo, a.at, true, d, z.Some?, if z.Some? then z.value else [], true, [],
                  a.port.Some?, a.PortText())
  }

  function AuthorityOf(h: HostOutline): Authority {
    var host := if h.open then Address(h.addr, if h.pct then Some(h.zone) else None) else Name(h.name);
    Authority(h.userinfo, h.at, host, if h.colon then Some(h.port) else None)
  }

  function UrlOf(o: Outline, authority: Option<Authority>): Url {
    Url(o.schema, authority, o.path, if o.mark then Some(o.query) else None,
        if o.hashes > 0 then Some(Anchor(o.hashes, o.fragment)) else None)
  }

  lemma AuthorityOutline(a: Authority)
    requires a.Valid()
    ensures HostWellFormed(HostOutlineOf(a), a.at)
    ensures Final(HostStateOf(HostOutlineOf(a), a.at))
  {
    hide IsUserinfoChar, IsHostChar, IsV6Char, IsZoneChar, IsDigit, Value;
  }

  lemma AuthorityOutlineHost(a: Authority)
    ensures HostOutlineOf(a).ThroughHost() == a.BeforePort()
  {
    var h, w := HostOutlineOf(a), a.userinfo + Opt(a.at, AT);
    match a.host
    case Name(n) =>
      assert h.ThroughZone() == w;
      assert h.ThroughHost() == w + n;
    case Address(d, z) =>
      assert h.ThroughZone() == w + ([LBRACKET] + a.host.Text());
      assert h.ThroughHost() == w + ([LBRACKET] + a.host.Text() + [RBRACKET]);
  }

  lemma AuthorityOutlineText(a: Authority)
    ensures HostOutlineOf(a).Text() == a.Render()
  {
    AuthorityOutlineHost(a);
    hide HostOutline.ThroughHost, Authority.BeforePort;
  }

  /** An accepted host outline is the outline of an authority. */
  lemma AuthorityRecovered(h: HostOutline, foundAt: bool)
    requires HostWellFormed(h, foundAt)
    requires Final(HostStateOf(h, foundAt))
    ensures var a := AuthorityOf(h);
            && HostOutlineOf(a) == h && a.at == foundAt
            && (Value(a.PortText()) <= UINT16_MAX ==> a.Valid())
  {
    hide IsUserinfoChar, IsHostChar, IsV6Char, IsZoneChar, AllUserinfo, AllHost, AllV6, AllZone, AllDigits, Value;
  }

  lemma UserinfoIsServerText(s: bytes)
    requires AllUserinfo(s)
    ensures forall i | 0 <= i < |s| :: IsServerChar(s[i]) && s[i] != AT
  {
  }

  lemma DigitsAreServerText(s: bytes)
    requires AllDigits(s)
    ensures forall i | 0 <= i < |s| :: IsServerChar(s[i]) && s[i] != AT
  {
  }

  /** An authority's text is a host run: server octets, and an "@" only where the authority has one. */
  lemma AuthorityIsServerText(a: Authority)
    requires a.Valid()
    ensures a.Render() != []
    ensures AT in a.Render() <==> a.at
    ensures ServerText(a.Render())
  {
    hide Host.Render, Host.Valid, IsUserinfoChar, AllUserinfo, AllDigits, Value;
    var before, after := a.userinfo, a.host.Render() + Opt(a.port.Some?, COLON) + a.PortText();
    HostIsServerText(a.host);
    UserinfoIsServerText(a.userinfo);
    if a.port.Some? {
      DigitsAreServerText(a.PortText());
    }
    ColonIsServerChar();
    AtSplits(before, a.at, after);
    hide ServerText;
    assert a.Render() == before + Opt(a.at, AT) + after;
  }

  lemma ColonIsServerChar()
    ensures IsServerChar(COLON)
  {
  }

  lemma AtSplits(before: bytes, at: bool, after: bytes)
    requires forall i | 0 <= i < |before| :: IsServerChar(before[i]) && before[i] != AT
    requires forall i | 0 <= i < |after| :: IsServerChar(after[i]) && after[i] != AT
    ensures var t := before + Opt(at, AT) + after; ServerText(t) && (AT in t <==> at)
  {
    hide IsUserinfoChar;
    var t := before + Opt(at, AT) + after;
    if at {
      assert t[|before|] == AT;
    }
  }

  lemma HostIsServerText(h: Host)
    requires h.Valid()
    ensures forall i | 0 <= i < |h.Render()| :: IsServerChar(h.Render()[i]) && h.Render()[i] != AT
    ensures h.Render() != []
  {
    AlphaNumAreNotAt();
  }

  lemma AlphaNumAreNotAt()
    ensures forall c: byte | IsHostChar(c) || IsV6Char(c) || IsZoneChar(c) :: IsUserinfoChar(c) && c != AT
  {
    forall c: byte | IsHostChar(c) || IsV6Char(c) || IsZoneChar(c)
      ensures IsUserinfoChar(c) && c != AT
    {
      AlphaClass(c);
    }
  }

  lemma UrlOutline(u: Url, connect: bool)
    requires Derivable(u, connect)
    ensures WellFormed(OutlineOf(u), connect)
    ensures u.authority.Some? ==> OutlineOf(u).FoundAt() == u.authority.value.at && OutlineOf(u).server != []
  {
    if u.authority.Some? {
      AuthorityIsServerText(u.authority.value);
    }
    hide IsUrlChar, IsAlpha, IsServerChar, Authority.Valid, Authority.Render;
  }

  lemma UrlOutlineText(u: Url)
    ensures OutlineOf(u).Text() == u.Render()
  {
    hide Authority.Render;
    var o := OutlineOf(u);
    assert o.ThroughServer() == u.Prefix() + u.AuthorityText();
    assert o.ThroughQuery() == u.BeforeQuery() + u.QueryText();
  }

  /** A live outline with an accepted host run is the outline of a derivation. */
  lemma UrlRecovered(o: Outline, connect: bool, authority: Option<Authority>)
    requires WellFormed(o, connect)
    requires authority.Some? <==> o.schema != [] || connect
    requires authority.Some? <==> o.server != []
    requires authority.Some? ==> authority.value.Valid() && authority.value.Render() == o.server
    requires connect ==>
      && authority.value.userinfo == [] && authority.value.port.Some?
      && o.path == [] && o.query == [] && o.fragment == []
    ensures Derivable(UrlOf(o, authority), connect)
    ensures OutlineOf(UrlOf(o, authority)) == o
  {
    hide IsUrlChar, IsAlpha, IsServerChar, ServerText, Authority.Valid, Authority.Render;
  }

  // ---------- the port ----------

  lemma NoSpaces(s: bytes)
    requires s != [] && IsDigit(s[0])
    ensures SkipSpaces(s) == s && s[0] != DASH && s[0] != PLUS
  {
  }

  /** strtoul reads exactly a digit string that something else ends. */
  lemma StrtoulReadsDigits(d: bytes, rest: bytes)
    requires d != [] && AllDigits(d) && (rest == [] || !IsDigit(rest[0]))
    ensures Strtoul(d + rest) == if Value(d) > ULONG_MAX then ULONG_MAX else Value(d)
  {
    hide Value, DigitPrefix, SkipSpaces, IsDigit;
    DigitPrefixOf(d, rest);
    assert (d + rest)[0] == d[0];
    NoSpaces(d + rest);
  }

  lemma {:induction false} SpacesSkipped(spaces: bytes, s: bytes)
    requires forall i | 0 <= i < |spaces| :: IsSpace(spaces[i])
    requires s == [] || !IsSpace(s[0])
    ensures SkipSpaces(spaces + s) == s
  {
    if spaces == [] {
      assert spaces + s == s;
    } else {
      assert (spaces + s)[1..] == spaces[1..] + s;
      SpacesSkipped(spaces[1..], s);
    }
  }

  /** strtoul on any text it finds a number in: spaces, a sign, digits, in 64 bits. */
  lemma StrtoulReads(spaces: bytes, sign: bytes, d: bytes, rest: bytes)
    requires forall i | 0 <= i < |spaces| :: IsSpace(spaces[i])
    requires sign == [] || sign == Codes("+") || sign == Codes("-")
    requires d != [] && AllDigits(d) && (rest == [] || !IsDigit(rest[0]))
    ensures Strtoul(spaces + (sign + (d + rest))) ==
            if Value(d) > 18446744073709551615 then 18446744073709551615
            else if sign == Codes("-") && Value(d) > 0 then 18446744073709551616 - Value(d)
            else Value(d)
  {
    assert Codes("+") == [PLUS] && Codes("-") == [DASH];
    var t := sign + (d + rest);
    assert t[0] == if sign == [] then d[0] else sign[0];
    SpacesSkipped(spaces, t);
    DigitPrefixOf(d, rest);
    hide Value, DigitPrefix, SkipSpaces;
    if sign == [] {
      assert t == d + rest;
    } else {
      assert t[1..] == d + rest;
    }
  }

  /** What follows the host run is nothing, a "/" or a "?". */
  lemma AfterTheRun(o: Outline, connect: bool)
    requires WellFormed(o, connect) && o.server != []
    ensures o.PathAt() <= |o.Text()|
    ensures var rest := o.Text()[o.PathAt()..]; rest == [] || rest[0] == SLASH || rest[0] == QUESTION
  {
    hide IsUrlChar, IsAlpha, ServerText, AllQuery, AllAlpha, AllUrl, AllFragment;
    var tail := o.path + Opt(o.mark, QUESTION) + o.query + Repeat(HASH, o.hashes) + o.fragment;
    ServerInFront(o, tail);
    Drop(o.ThroughServer(), tail);
  }

  lemma ServerInFront(o: Outline, tail: bytes)
    requires o.sep <= 3
    requires tail == o.path + Opt(o.mark, QUESTION) + o.query + Repeat(HASH, o.hashes) + o.fragment
    ensures o.Text() == o.ThroughServer() + tail && |o.ThroughServer()| == o.PathAt()
  {
    hide Outline.ThroughServer;
    assert o.Text() == o.ThroughServer() + tail;
    ServerLength(o);
  }

  lemma ServerLength(o: Outline)
    requires o.sep <= 3
    ensures |o.ThroughServer()| == o.PathAt()
  {
  }

  lemma Drop(x: bytes, y: bytes)
    ensures (x + y)[|x|..] == y
  {
  }

  /** The text at the port's offset: the port's digits, then no digit. */
  lemma PortTextAt(o: Outline, connect: bool, h: HostOutline)
    requires WellFormed(o, connect) && o.server != [] && h.Text() == o.server
    ensures var at := o.ServerAt() + h.PortAt();
            && at <= o.PathAt() <= |o.Text()|
            && o.Text()[at..] == h.port + o.Text()[o.PathAt()..]
  {
    hide WellFormed, Outline.Text, HostOutline.Text, Outline.FragmentAt, HostOutline.PortAt;
    AfterTheRun(o, connect);
    assert o.sep <= 3 by { SepBound(o, connect); }
    TextLayout(o);
    HostTextLayout(h);
    var (t, lo, mid) := (o.Text(), o.ServerAt(), o.PathAt());
    assert t[lo..] == t[lo..mid] + t[mid..];
    assert t[lo + h.PortAt()..] == t[lo..][h.PortAt()..];
  }

  lemma SepBound(o: Outline, connect: bool)
    requires WellFormed(o, connect)
    ensures o.sep <= 3
  {
  }

  // ---------- the fields ----------

  function HostPart(u: Url): HostOutline {
    if u.authority.Some? then HostOutlineOf(u.authority.value) else NO_HOST
  }

  /** Each component that is not empty, where the derivation has it, in 16-bit members. */
  function Layout(u: Url): map<Field, Span> {
    map f: Field | Component(u, f) != [] :: SpanOf(|Before(u, f)|, |Component(u, f)|)
  }

  lemma RunIsComponent(u: Url, f: Field)
    requires !IsHostField(f)
    ensures RunLength(OutlineOf(u), f) == |Component(u, f)| && RunAt(OutlineOf(u), f) == |Before(u, f)|
  {
    hide HostOutlineOf, Authority.Render;
  }

  lemma PieceIsComponent(u: Url, f: Field)
    requires IsHostField(f)
    requires u.authority.Some? ==> u.authority.value.host.Valid()
    ensures var h := HostPart(u);
            && PieceLength(h, f) == |Component(u, f)|
            && (u.authority.Some? && Component(u, f) != [] ==> PieceAt(h, |u.Prefix()|, f) == |Before(u, f)|)
  {
    hide AllHost, AllV6, AllZone, Url.Prefix, Authority.Render;
  }

  lemma FieldIsComponent(u: Url, f: Field)
    requires u.authority.Some? ==> u.authority.value.host.Valid()
    requires u.authority.None? ==> u.schema == []
    ensures var o, h := OutlineOf(u), HostPart(u);
            if IsHostField(f) then
              && PieceLength(h, f) == |Component(u, f)|
              && (u.authority.Some? && Component(u, f) != [] ==> PieceAt(h, o.ServerAt(), f) == |Before(u, f)|)
            else
              RunLength(o, f) == |Component(u, f)| && RunAt(o, f) == |Before(u, f)|
  {
    if IsHostField(f) {
      PieceIsComponent(u, f);
      assert OutlineOf(u).ServerAt() == |u.Prefix()|;
    } else {
      RunIsComponent(u, f);
    }
    hide HostPart, Component, Before, PieceAt, PieceLength, RunLength, RunAt;
  }

  lemma FieldsAreComponents(u: Url)
    requires u.authority.Some? ==> u.authority.value.host.Valid()
    requires u.authority.None? ==> u.schema == []
    ensures var o := OutlineOf(u); Fields(o, HostPart(u), o.ServerAt()) == Layout(u)
  {
    var o, h := OutlineOf(u), HostPart(u);
    var left, right := Fields(o, h, o.ServerAt()), Layout(u);
    hide PieceLength, PieceAt, RunLength, RunAt, Component, Before, OutlineOf, HostPart, Outline.ServerAt;
    forall f: Field
      ensures f in left <==> f in right
      ensures f in left ==> left[f] == right[f]
    {
      FieldIsComponent(u, f);
      NoHostPart(u, f);
    }
  }

  lemma NoHostPart(u: Url, f: Field)
    ensures IsHostField(f) && u.authority.None? ==> Component(u, f) == []
  {
  }

  /**
    The 16-bit members do not disturb the parse: the host run can be re-read,
    and the port's digits found again.
   */
  predicate RunFits(u: Url) {
    && |u.Prefix()| <= UINT16_MAX
    && |u.AuthorityText()| <= UINT16_MAX
    && (Component(u, UF_PORT) != [] ==> |Before(u, UF_PORT)| <= UINT16_MAX)
  }

  lemma WrapFits(n: nat)
    requires n <= UINT16_MAX
    ensures Wrap(n) == n
  {
  }

  // ---------- every derivation is read back ----------

  /** The inner machine reads an authority back from its place in the URL. */
  lemma AuthorityParsed(u: Url, connect: bool)
    requires Derivable(u, connect) && u.authority.Some? && RunFits(u)
    ensures var (o, a) := (OutlineOf(u), u.authority.value);
            && o.ServerAt() == |u.Prefix()| && |o.server| == |u.AuthorityText()|
            && o.PathAt() <= |u.Render()|
            && ParsedHost(u.Render(), o.ServerAt(), o.PathAt(), o.FoundAt()) == Some(HostOutlineOf(a))
  {
    var (o, a) := (OutlineOf(u), u.authority.value);
    UrlOutline(u, connect);
    UrlOutlineText(u);
    hide WellFormed, Outline.Text, Url.Render, HostStateOf, ScanHost, Authority.Render, HostOutlineOf, HostWellFormed;
    SepBound(o, connect);
    TextLayout(o);
    AuthorityOutline(a);
    AuthorityOutlineText(a);
    ScanHostComplete(HostOutlineOf(a), a.at);
  }

  lemma PortIsAt(u: Url, connect: bool)
    requires Derivable(u, connect) && u.authority.Some? && u.authority.value.port.Some?
    ensures |Before(u, UF_PORT)| == OutlineOf(u).ServerAt() + HostOutlineOf(u.authority.value).PortAt()
    ensures HostOutlineOf(u.authority.value).port == u.authority.value.PortText() != []
    ensures AllDigits(u.authority.value.PortText())
    ensures u.PortNumber() == Value(u.authority.value.PortText()) <= UINT16_MAX
  {
    FieldIsComponent(u, UF_PORT);
  }

  /** strtoul, started at the port, reads the port and stops at its end. */
  lemma StrtoulAtPort(u: Url, connect: bool)
    requires Derivable(u, connect) && u.authority.Some? && u.authority.value.port.Some?
    ensures |Before(u, UF_PORT)| <= |u.Render()|
    ensures Strtoul(u.Render()[|Before(u, UF_PORT)|..]) == u.PortNumber() <= UINT16_MAX
  {
    hide Derivable, WellFormed, OutlineOf, HostOutlineOf, Strtoul, Before, IsDigit, Url.PortNumber;
    PortIsAt(u, connect);
    UrlOutline(u, connect);
    hide Outline.Text, Outline.ServerAt, Outline.PathAt, Url.Render, Authority.Render, HostOutline.Text;
    var (o, a) := (OutlineOf(u), u.authority.value);
    var h := HostOutlineOf(a);
    OutlineServer(u);
    UrlOutlineText(u);
    AuthorityOutlineText(a);
    PortTextAt(o, connect, h);
    AfterTheRun(o, connect);
    var rest := o.Text()[o.PathAt()..];
    assert rest == [] || !IsDigit(rest[0]) by { SlashAndQuestion(); }
    StrtoulReadsDigits(a.PortText(), rest);
  }

  lemma OutlineServer(u: Url)
    ensures u.authority.Some? ==> OutlineOf(u).server == u.authority.value.Render()
  {
  }

  lemma SlashAndQuestion()
    ensures !IsDigit(SLASH) && !IsDigit(QUESTION)
  {
  }

  lemma ConnectFields(u: Url, connect: bool)
    requires Derivable(u, connect)
    ensures u.authority.Some? ==> UF_HOST in Layout(u) && (UF_PORT in Layout(u) <==> u.authority.value.port.Some?)
    ensures u.authority.None? ==> UF_HOST !in Layout(u) && UF_PORT !in Layout(u)
    ensures connect ==> Layout(u).Keys == {UF_HOST, UF_PORT}
  {
    hide AllHost, AllV6, AllZone, AllUserinfo, AllDigits, AllAlpha, Before, PathText, UrlScan.FragmentText;
    if connect {
      forall f: Field
        ensures f in Layout(u).Keys <==> f in {UF_HOST, UF_PORT}
      {
      }
    }
  }

  /** The last steps accept a derivation. */
  lemma DerivationFinishes(u: Url, connect: bool)
    requires Derivable(u, connect) && RunFits(u)
    ensures UF_PORT in Layout(u) ==> Layout(u)[UF_PORT].off <= |u.Render()|
    ensures Finish(u.Render(), connect, Layout(u)) == Accepted(Layout(u), u.PortNumber())
  {
    hide Derivable, Url.Render, Before, Strtoul, AllDigits, Url.PortNumber;
    ConnectFields(u, connect);
    if u.authority.Some? && u.authority.value.port.Some? {
      StrtoulAtPort(u, connect);
    }
    PortFits(u, connect);
  }

  lemma PortFits(u: Url, connect: bool)
    requires Derivable(u, connect) && RunFits(u)
    ensures UF_PORT in Layout(u) ==> Layout(u)[UF_PORT].off == |Before(u, UF_PORT)|
    ensures UF_PORT !in Layout(u) ==> u.PortNumber() == 0
  {
    NoPort(u, connect);
    hide Derivable, Before, Url.Render, Url.PortNumber, Wrap;
    if UF_PORT in Layout(u) {
      WrapFits(|Before(u, UF_PORT)|);
    }
  }

  lemma NoPort(u: Url, connect: bool)
    requires Derivable(u, connect)
    ensures Component(u, UF_PORT) == [] ==> u.PortNumber() == 0
  {
  }

  /**
    Every derivation whose host run is in reach of 16 bits is accepted, and the
    fields reported are exactly its components, where it has them.
   */
  lemma DerivationParsed(u: Url, connect: bool)
    requires Derivable(u, connect) && RunFits(u)
    ensures Parsed(u.Render(), connect) == Accepted(Layout(u), u.PortNumber())
  {
    hide Scan, ParsedHost, Fields, Finish, WellFormed, Url.Render, HostOutlineOf, Layout, Outline.Text;
    var o := OutlineOf(u);
    var buf := u.Render();
    AuthorityHost(u, connect);
    UrlOutline(u, connect);
    UrlOutlineText(u);
    ScanComplete(o, connect);
    FieldsAreComponents(u);
    DerivationFinishes(u, connect);
    if u.authority.Some? {
      AuthorityParsed(u, connect);
      OutlineServer(u);
      hide Derivable, OutlineOf, Outline.ServerAt, Outline.PathAt;
      assert ParsedOutline(buf, connect, o) == Finish(buf, connect, Layout(u));
    }
  }

  lemma AuthorityHost(u: Url, connect: bool)
    requires Derivable(u, connect)
    ensures u.authority.Some? ==> u.authority.value.host.Valid()
    ensures u.authority.None? ==> u.schema == [] && u.AuthorityText() == []
  {
  }

  // ---------- everything accepted is derived ----------

  /** What the parser did on an accepted short buffer with a host run. */
  lemma AcceptedParts(buf: bytes, connect: bool, o: Outline)
    requires |buf| <= UINT16_MAX
    requires Scan(buf, connect) == Some(o) && o.server != []
    requires Parsed(buf, connect).Accepted?
    ensures o.PathAt() <= |buf|
    ensures var h := ParsedHost(buf, o.ServerAt(), o.PathAt(), o.FoundAt());
            && h.Some?
            && var fields := Fields(o, h.value, o.ServerAt());
            && (UF_PORT in fields ==> fields[UF_PORT].off <= |buf|)
            && Finish(buf, connect, fields) == Parsed(buf, connect)
  {
    hide Scan, ParsedHost, Finish, Fields, Outline.ServerAt;
    RunInside(buf, connect);
    WrapFits(o.ServerAt());
    WrapFits(|o.server|);
    PortInside(buf, o, o.ServerAt(), o.PathAt());
  }

  lemma FinishAccepts(buf: bytes, connect: bool, fields: map<Field, Span>)
    requires UF_PORT in fields ==> fields[UF_PORT].off <= |buf|
    requires Finish(buf, connect, fields).Accepted?
    ensures Finish(buf, connect, fields).fields == fields
    ensures connect ==> fields.Keys == {UF_HOST, UF_PORT}
  {
    hide Strtoul;
  }

  lemma HostPortDigits(h: HostOutline, foundAt: bool)
    requires HostWellFormed(h, foundAt)
    ensures AllDigits(h.port)
  {
  }

  /** An accepted host run of a short buffer is the text of an authority, port number included. */
  lemma AuthorityAccepted(buf: bytes, connect: bool, o: Outline) returns (a: Authority)
    requires |buf| <= UINT16_MAX
    requires Scan(buf, connect) == Some(o) && o.server != []
    requires Parsed(buf, connect).Accepted?
    ensures a.Valid() && a.Render() == o.server
    ensures Parsed(buf, connect).fields == Fields(o, HostOutlineOf(a), o.ServerAt())
    ensures connect ==> Fields(o, HostOutlineOf(a), o.ServerAt()).Keys == {UF_HOST, UF_PORT}
  {
    hide Outline.Text, HostOutline.Text, HostStateOf, HostWellFormed, WellFormed, Scan, ScanHost, Finish, Parsed;
    hide Fields, Authority.Valid, AuthorityOf, Outline.ServerAt, HostOutlineOf;
    AcceptedParts(buf, connect, o);
    var h := ParsedHost(buf, o.ServerAt(), o.PathAt(), o.FoundAt()).value;
    FinishAccepts(buf, connect, Fields(o, h, o.ServerAt()));
    ScanSound(buf, connect);
    SepBound(o, connect);
    TextLayout(o);
    ScanHostSound(o.server, o.FoundAt());
    HostPortDigits(h, o.FoundAt());
    PortAccepted(buf, connect, o, h);
    AuthorityRecovered(h, o.FoundAt());
    a := AuthorityOf(h);
    AuthorityOutlineText(a);
    AuthorityPort(h);
  }

  lemma AuthorityPort(h: HostOutline)
    requires AllDigits(h.port)
    ensures AllDigits(AuthorityOf(h).PortText())
    ensures Value(h.port) <= UINT16_MAX ==> Value(AuthorityOf(h).PortText()) <= UINT16_MAX
  {
  }

  /** The port's value passed the range check. */
  lemma PortAccepted(buf: bytes, connect: bool, o: Outline, h: HostOutline)
    requires |buf| <= UINT16_MAX
    requires WellFormed(o, connect) && o.Text() == buf && o.server != []
    requires h.Text() == o.server && AllDigits(h.port)
    requires UF_PORT in Fields(o, h, o.ServerAt()) ==> Fields(o, h, o.ServerAt())[UF_PORT].off <= |buf|
    requires Finish(buf, connect, Fields(o, h, o.ServerAt())).Accepted?
    ensures Value(h.port) <= UINT16_MAX
  {
    hide WellFormed, Outline.Text, HostOutline.Text, Strtoul, Outline.ServerAt, Outline.PathAt, HostOutline.PortAt;
    if h.port != [] {
      PortTextAt(o, connect, h);
      AfterTheRun(o, connect);
      var rest := o.Text()[o.PathAt()..];
      SlashAndQuestion();
      StrtoulReadsDigits(h.port, rest);
      WrapFits(o.ServerAt() + h.PortAt());
    }
  }

  /** Every accepted short buffer has a derivation. */
  lemma AcceptedIsDerived(buf: bytes, connect: bool) returns (u: Url)
    requires |buf| <= UINT16_MAX
    requires Parsed(buf, connect).Accepted?
    ensures Derivable(u, connect) && u.Render() == buf
  {
    hide Outline.Text, WellFormed, Scan, ParsedHost, Finish, Fields, Authority.Valid, HostOutlineOf, Url.Render;
    var o := Scan(buf, connect).value;
    ScanSound(buf, connect);
    var authority: Option<Authority> := None;
    if o.server != [] {
      var a := AuthorityAccepted(buf, connect, o);
      authority := Some(a);
      if connect {
        ConnectParts(o, a);
      }
    }
    ServerNeedsSchema(buf, o, connect);
    u := UrlOf(o, authority);
    hide Parsed, Derivable, UrlOf;
    UrlRecovered(o, connect, authority);
    UrlOutlineText(u);
  }

  lemma ConnectParts(o: Outline, a: Authority)
    requires Fields(o, HostOutlineOf(a), o.ServerAt()).Keys == {UF_HOST, UF_PORT}
    ensures a.userinfo == [] && a.port.Some?
    ensures o.path == [] && o.query == [] && o.fragment == []
  {
    var keys := Fields(o, HostOutlineOf(a), o.ServerAt()).Keys;
    assert UF_USERINFO !in keys && UF_PATH !in keys && UF_QUERY !in keys && UF_FRAGMENT !in keys && UF_PORT in keys;
  }

  lemma ServerNeedsSchema(buf: bytes, o: Outline, connect: bool)
    requires WellFormed(o, connect) && Scan(buf, connect) == Some(o) && Parsed(buf, connect).Accepted?
    ensures o.server != [] <==> o.schema != [] || connect
  {
    hide Scan, ParsedHost, ServerText, AllAlpha, AllQuery, PathText, UrlScan.FragmentText;
    if o.server == [] {
      assert UF_HOST !in Fields(o, NO_HOST, 0);
    }
  }

  /** On buffers of at most 65535 octets the parser accepts exactly the grammar. */
  lemma AcceptsTheGrammar(buf: bytes, connect: bool)
    requires |buf| <= UINT16_MAX
    ensures Parsed(buf, connect).Accepted? <==> exists u: Url :: Derivable(u, connect) && u.Render() == buf
  {
    if Parsed(buf, connect).Accepted? {
      var u := AcceptedIsDerived(buf, connect);
    }
    forall u: Url | Derivable(u, connect) && u.Render() == buf
      ensures Parsed(buf, connect).Accepted?
    {
      ShortFits(u);
      DerivationParsed(u, connect);
    }
  }

  lemma ShortFits(u: Url)
    requires |u.Render()| <= UINT16_MAX
    ensures RunFits(u)
    ensures forall f: Field | Component(u, f) != [] :: |Before(u, f)| + |Component(u, f)| <= |u.Render()|
  {
    forall f: Field | Component(u, f) != []
      ensures |Before(u, f)| + |Component(u, f)| <= |u.Render()|
    {
      ComponentInText(u, f);
    }
  }

  /** No buffer has two derivations. */
  lemma DerivationUnique(u: Url, v: Url, connect: bool)
    requires Derivable(u, connect) && Derivable(v, connect) && u.Render() == v.Render()
    ensures u == v
  {
    OutlineDeterminesUrl(u, connect);
    OutlineDeterminesUrl(v, connect);
    hide Derivable, Outline.Text, Url.Render, OutlineOf, WellFormed, Scan;
    UrlOutline(u, connect);
    UrlOutline(v, connect);
    UrlOutlineText(u);
    UrlOutlineText(v);
    ScanComplete(OutlineOf(u), connect);
    ScanComplete(OutlineOf(v), connect);
    if u.authority.Some? && v.authority.Some? {
      hide UrlOf;
      OutlineServer(u);
      OutlineServer(v);
      AuthorityUnique(u.authority.value, v.authority.value);
    }
  }

  lemma OutlineDeterminesUrl(u: Url, connect: bool)
    requires Derivable(u, connect)
    ensures u == UrlOf(OutlineOf(u), u.authority)
    ensures u.authority.Some? ==> u.authority.value.Valid()
    ensures u.authority.Some? <==> OutlineOf(u).schema != [] || connect
  {
    hide Authority.Valid, AllQuery, AllAlpha, PathText;
  }

  lemma AuthorityUnique(a: Authority, b: Authority)
    requires a.Valid() && b.Valid() && a.Render() == b.Render()
    ensures a == b
  {
    hide Authority.Valid, Authority.Render, HostOutline.Text, ScanHost, HostWellFormed, HostOutlineOf, HostStateOf;
    AuthorityIsServerText(a);
    AuthorityIsServerText(b);
    AuthorityOutline(a);
    AuthorityOutline(b);
    AuthorityOutlineText(a);
    AuthorityOutlineText(b);
    ScanHostComplete(HostOutlineOf(a), a.at);
    ScanHostComplete(HostOutlineOf(b), b.at);
    OutlineDeterminesAuthority(a);
    OutlineDeterminesAuthority(b);
  }

  lemma OutlineDeterminesAuthority(a: Authority)
    ensures AuthorityOf(HostOutlineOf(a)) == a
  {
  }

  // ---------- the exact reach of the 16-bit members ----------

  /** The parser's answer is the true one: accepted, with every component at its true offset and length. */
  predicate Reported(u: Url, connect: bool) {
    match Parsed(u.Render(), connect)
    case Rejected => false
    case Accepted(fields, port) =>
      && (forall f: Field :: f in fields <==> Component(u, f) != [])
      && (forall f: Field | f in fields ::
            fields[f].off == |Before(u, f)| && fields[f].len == |Component(u, f)|)
      && port == u.PortNumber()
  }

  /** Every offset and length, and the length of the whole host run, fits in 16 bits. */
  predicate Fits(u: Url) {
    && |u.AuthorityText()| <= UINT16_MAX
    && (forall f: Field | Component(u, f) != [] ::
          |Before(u, f)| <= UINT16_MAX && |Component(u, f)| <= UINT16_MAX)
  }

  lemma FitsReported(u: Url, connect: bool)
    requires Derivable(u, connect) && Fits(u)
    ensures Reported(u, connect)
  {
    hide Derivable, Before, Component, Url.Render, Parsed, Wrap, Url.PortNumber, Url.AuthorityText;
    HostIsSet(u, connect);
    DerivationParsed(u, connect);
    forall f: Field | Component(u, f) != []
      ensures Layout(u)[f] == Span(|Before(u, f)|, |Component(u, f)|)
    {
      WrapFits(|Before(u, f)|);
      WrapFits(|Component(u, f)|);
    }
  }

  /** A URL with an authority has a host, and its prefix comes before it. */
  lemma HostIsSet(u: Url, connect: bool)
    requires Derivable(u, connect)
    ensures u.authority.Some? ==> Component(u, UF_HOST) != [] && |u.Prefix()| <= |Before(u, UF_HOST)|
    ensures u.authority.None? ==> u.Prefix() == []
  {
    hide AllHost, AllV6, AllZone, AllAlpha, AllUserinfo, AllDigits;
  }

  /** What a run that ends in the middle of an authority cannot do: cover its last component. */
  lemma ShortRun(a: Authority, h: HostOutline, lo: nat)
    requires a.Valid()
    requires Wrap(lo + h.HostAt()) == lo + HostOutlineOf(a).HostAt()
    requires Wrap(h.HostLength()) == HostOutlineOf(a).HostLength()
    requires a.port.Some? ==> Wrap(lo + h.PortAt()) == lo + HostOutlineOf(a).PortAt() && Wrap(|h.port|) == |a.PortText()|
    ensures |a.Render()| <= |h.Text()| + 1
  {
    var t := HostOutlineOf(a);
    AuthorityOutlineText(a);
    HostTextLayout(t);
    HostTextLayout(h);
    hide Authority.Valid, Authority.Render, HostOutlineOf, HostOutline.Text, HostOutline.HostAt, Wrap;
    WrapStep(lo + h.HostAt());
    WrapStep(h.HostLength());
    WrapStep(lo + h.PortAt());
    WrapStep(|h.port|);
    PortOrNot(a);
  }

  lemma PortOrNot(a: Authority)
    requires a.Valid()
    ensures var t := HostOutlineOf(a);
            && t.port == a.PortText()
            && (a.port.None? ==> t.PortAt() + |t.port| == |t.ThroughHost()|)
            && |Opt(t.close, RBRACKET)| <= 1
  {
    hide HostOutline.ThroughHost;
  }

  /** The fields of an accepted derivation, wrapped run and all. */
  lemma AcceptedFields(u: Url, connect: bool) returns (h: HostOutline)
    requires Derivable(u, connect) && u.authority.Some?
    requires Parsed(u.Render(), connect).Accepted?
    ensures |h.Text()| == Wrap(|u.AuthorityText()|)
    ensures Parsed(u.Render(), connect).fields == Fields(OutlineOf(u), h, Wrap(|u.Prefix()|))
  {
    hide Derivable, WellFormed, Scan, ScanHost, Finish, Fields, Outline.Text, HostOutline.Text, HostStateOf, Url.Render;
    var buf, o := u.Render(), OutlineOf(u);
    UrlOutline(u, connect);
    UrlOutlineText(u);
    ScanComplete(o, connect);
    RunInside(buf, connect);
    assert o.ServerAt() == |u.Prefix()| && o.server == u.AuthorityText();
    hide OutlineOf, Outline.ServerAt, Wrap, Url.AuthorityText;
    var lo, hi := Wrap(o.ServerAt()), Wrap(o.ServerAt()) + Wrap(|o.server|);
    h := ParsedHost(buf, lo, hi, o.FoundAt()).value;
    ScanHostSound(buf[lo..hi], o.FoundAt());
    PortInside(buf, o, lo, hi);
    FinishAccepts(buf, connect, Fields(o, h, lo));
  }

  lemma ReportedPiece(u: Url, connect: bool, h: HostOutline, lo: nat, f: Field)
    requires Derivable(u, connect) && Reported(u, connect)
    requires Parsed(u.Render(), connect).fields == Fields(OutlineOf(u), h, lo)
    requires IsHostField(f) && Component(u, f) != []
    ensures Wrap(PieceAt(h, lo, f)) == |Before(u, f)|
    ensures Wrap(PieceLength(h, f)) == |Component(u, f)|
  {
    hide Derivable, Parsed, Url.Render, Before, Component, OutlineOf, PieceAt, PieceLength, Wrap, Url.PortNumber;
    hide RunAt, RunLength;
    assert f in Fields(OutlineOf(u), h, lo);
  }

  lemma TruePiece(u: Url, connect: bool, f: Field)
    requires Derivable(u, connect) && u.authority.Some?
    requires f == UF_HOST || f == UF_PORT
    ensures var t := HostOutlineOf(u.authority.value);
            && |Component(u, f)| == (if f == UF_HOST then t.HostLength() else |u.authority.value.PortText()|)
            && (Component(u, f) != [] ==>
                  |Before(u, f)| == |u.Prefix()| + (if f == UF_HOST then t.HostAt() else t.PortAt()))
  {
    AuthorityPorts(u, connect);
    FieldIsComponent(u, f);
    hide Before, HostOutline.HostAt, HostOutline.PortAt, HostOutline.HostLength;
  }

  lemma RunLengthFits(u: Url, connect: bool)
    requires Derivable(u, connect) && u.authority.Some?
    requires Reported(u, connect)
    requires |u.Prefix()| <= UINT16_MAX
    ensures |u.AuthorityText()| <= UINT16_MAX
  {
    hide Derivable, Authority.Valid, Url.Render, Authority.Render, Parsed, HostOutline.Text;
    hide OutlineOf, HostOutlineOf, Before, Component, HostOutline.HostAt, HostOutline.PortAt, HostOutline.HostLength;
    hide Fields, Reported, Url.Prefix, Wrap;
    var a, lo := u.authority.value, |u.Prefix()|;
    ReportedAccepts(u, connect);
    var h := AcceptedFields(u, connect);
    WrapFits(lo);
    HostIsSet(u, connect);
    AuthorityPorts(u, connect);
    TruePiece(u, connect, UF_HOST);
    ReportedPiece(u, connect, h, lo, UF_HOST);
    if a.port.Some? {
      TruePiece(u, connect, UF_PORT);
      ReportedPiece(u, connect, h, lo, UF_PORT);
    }
    ShortRun(a, h, lo);
    WrapShrinks(|u.AuthorityText()|);
  }

  lemma ReportedAccepts(u: Url, connect: bool)
    requires Derivable(u, connect) && Reported(u, connect)
    ensures Parsed(u.Render(), connect).Accepted?
  {
  }

  lemma AuthorityPorts(u: Url, connect: bool)
    requires Derivable(u, connect) && u.authority.Some?
    ensures u.authority.value.Valid()
    ensures u.authority.value.port.Some? ==> Component(u, UF_PORT) != []
    ensures OutlineOf(u).ServerAt() == |u.Prefix()|
  {
    hide AllHost, AllV6, AllZone, AllAlpha, AllUserinfo, AllDigits;
  }

  lemma WrapShrinks(n: nat)
    requires n <= Wrap(n) + 1
    ensures n <= UINT16_MAX
  {
  }

  lemma ReportedFits(u: Url, connect: bool)
    requires Derivable(u, connect) && Reported(u, connect)
    ensures Fits(u)
  {
    hide Before, Component, Url.Render, Parsed, Url.PortNumber, Url.AuthorityText, Derivable, Url.Prefix;
    HostIsSet(u, connect);
    forall f: Field | Component(u, f) != []
      ensures |Before(u, f)| <= UINT16_MAX && |Component(u, f)| <= UINT16_MAX
    {
      assert f in Parsed(u.Render(), connect).fields;
    }
    if u.authority.Some? {
      RunLengthFits(u, connect);
    } else {
      AuthorityHost(u, connect);
    }
  }

  /** The parser reports a derivation correctly exactly when it fits. */
  lemma ReportedIffFits(u: Url, connect: bool)
    requires Derivable(u, connect)
    ensures Reported(u, connect) <==> Fits(u)
  {
    if Fits(u) {
      FitsReported(u, connect);
    }
    if Reported(u, connect) {
      ReportedFits(u, connect);
    }
  }

  // ---------- CONNECT mode ----------

  /**
    In CONNECT mode the text is "host:port" and nothing else exactly when there
    is no "@" before it and no "?" after it; the parser lets both pass.
   */
  lemma ConnectText(u: Url)
    requires Derivable(u, true)
    ensures var a := u.authority.value;
            u.Render() == a.host.Render() + [COLON] + a.PortText() <==> !a.at && u.query.None?
  {
    var a := u.authority.value;
    hide Host.Render, Host.Valid, AllUserinfo, AllDigits, Value, AllAlpha;
    if !a.at && u.query.None? {
      assert a.Render() == a.host.Render() + [COLON] + a.PortText();
    } else {
      assert |u.Render()| > |a.host.Render() + [COLON] + a.PortText()|;
    }
  }
}
