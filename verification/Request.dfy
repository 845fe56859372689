/**
  From a request's URI to the wire: proccessUri takes it apart
  (source/xmlhttprequest_impl.cpp), fetch puts it together again
  (source/xmlhttprequest.cpp), and submit parses that and builds the
  pseudo-header fields (source/abstractsession.cpp).  The patterns of
  proccessUri are written as the greedy scans they amount to.
 */
module Request {
  import opened Bytes
  import opened Options
  import opened UrlChars
  import opened UrlScan
  import opened HostScan
  import opened UrlFields
  import opened UrlGrammar
  import opened UrlTheorems
  import opened UrlLayout
  import opened UrlParser
  import opened UrlRebuild
  import UriComponent

  // "://", "https", "443", "80"
  const SEPARATOR: bytes := [COLON, SLASH, SLASH]
  const HTTP: bytes := [104, 116, 116, 112]
  const HTTPS: bytes := [104, 116, 116, 112, 115]
  const PORT_443: bytes := [52, 52, 51]
  const PORT_80: bytes := [56, 48]

  // ---------- proccessUri ----------

  datatype Elements = Elements(addr: bytes, port: bytes, protocol: bytes, urn: bytes)

  /** The class [https]. */
  predicate IsProtocolChar(c: byte) { c == 104 || c == 116 || c == 112 || c == 115 }

  /** The class [0-9a-z\.:-]. */
  predicate IsAddressChar(c: byte) { IsDigit(c) || IsLower(c) || c == DOT || c == COLON || c == DASH }

  predicate AllProtocol(s: bytes) { forall i | 0 <= i < |s| :: IsProtocolChar(s[i]) }

  predicate AllAddress(s: bytes) { forall i | 0 <= i < |s| :: IsAddressChar(s[i]) }

  function ProtocolRun(s: bytes): (p: bytes)
    ensures AllProtocol(p) && p <= s
  {
    if s != [] && IsProtocolChar(s[0]) then [s[0]] + ProtocolRun(s[1..]) else []
  }

  function AddressRun(s: bytes): (a: bytes)
    ensures AllAddress(a) && a <= s
  {
    if s != [] && IsAddressChar(s[0]) then [s[0]] + AddressRun(s[1..]) else []
  }

  predicate IsLabelEnd(c: byte) { IsDigit(c) || IsLower(c) || IsUpper(c) }

  /** Labels of letters, digits and inner hyphens, separated by single dots. */
  predicate DottedLabels(h: bytes) {
    && h != [] && IsLabelEnd(h[0]) && IsLabelEnd(h[|h| - 1])
    && (forall i | 0 <= i < |h| :: IsLabelEnd(h[i]) || h[i] == DASH || h[i] == DOT)
    && (forall i | 0 < i < |h| - 1 :: h[i] == DOT ==> IsLabelEnd(h[i - 1]) && IsLabelEnd(h[i + 1]))
  }

  /** The pattern checkHostPort: dotted labels, ":", digits. */
  predicate MatchesHostPort(a: bytes) {
    exists i | 0 <= i < |a| ::
      a[i] == COLON && DottedLabels(a[..i]) && a[i + 1..] != [] && AllDigits(a[i + 1..])
  }

  function DefaultPort(protocol: bytes): bytes {
    if protocol == HTTPS then PORT_443 else PORT_80
  }

  /** The position of the last ":", or -1. */
  function LastColon(s: bytes): (i: int)
    ensures -1 <= i < |s| && (i >= 0 ==> s[i] == COLON)
    ensures forall j | i < j < |s| :: s[j] != COLON
  {
    if s == [] then -1
    else if s[|s| - 1] == COLON then |s| - 1
    else LastColon(s[..|s| - 1])
  }

  /** The host and the port of an address. */
  function HostAndPort(a: bytes, protocol: bytes): (bytes, bytes) {
    if MatchesHostPort(a) && LastColon(a) >= 0 then
      var (addr, port) := (a[..LastColon(a)], a[LastColon(a) + 1..]);
      (addr, if port == [] then DefaultPort(protocol) else port)
    else (a, DefaultPort(protocol))
  }

  function Processed(uri: bytes): Option<Elements> {
    var p := ProtocolRun(uri);
    if |p| != 4 && |p| != 5 then None
    else if !(SEPARATOR <= uri[|p|..]) then None
    else
      var rest := uri[|p| + 3..];
      var a := AddressRun(rest);
      if |a| < 3 then None
      else
        var (addr, port) := HostAndPort(a, p);
        Some(Elements(addr, port, p, rest[|a|..]))
  }

  /** proccessUri, on URIs without line breaks. */
  method ProccessUri(uri: bytes) returns (r: Option<Elements>)
    ensures r == Processed(uri)
  {
    hide MatchesHostPort, ProtocolRun, AddressRun, LastColon;
    if uri == [] {
      NoProtocol();
      return None;
    }
    var urlProtocol := ProtocolRun(uri);
    if |urlProtocol| != 4 && |urlProtocol| != 5 {
      return None;
    }
    if !(SEPARATOR <= uri[|urlProtocol|..]) {
      return None;
    }
    var urlTail := uri[|urlProtocol| + 3..];
    var urlAddr := AddressRun(urlTail);
    urlTail := urlTail[|urlAddr|..];
    var urlPort: bytes := [];
    if |urlAddr| < 3 {
      return None;
    }
    if MatchesHostPort(urlAddr) {
      var pos := FindLastColon(urlAddr);
      if pos >= 0 {
        pos := pos + 1;
        urlPort := urlAddr[pos..];
        pos := pos - 1;
        urlAddr := urlAddr[..pos];
      }
    }
    urlPort := if urlPort == [] then (if urlProtocol == HTTPS then PORT_443 else PORT_80) else urlPort;
    return Some(Elements(urlAddr, urlPort, urlProtocol, urlTail));
  }

  lemma NoProtocol()
    ensures ProtocolRun([]) == []
  {
  }

  /** find_last_of(":"), with -1 for npos. */
  method FindLastColon(s: bytes) returns (pos: int)
    ensures pos == LastColon(s)
  {
    pos := |s| - 1;
    while 0 <= pos && s[pos] != COLON
      invariant -1 <= pos < |s|
      invariant forall j | pos < j < |s| :: s[j] != COLON
    {
      pos := pos - 1;
    }
  }

  /** The URI that fetch assembles. */
  function Assembled(e: Elements): bytes {
    e.protocol + SEPARATOR + e.addr + [COLON] + e.port + e.urn
  }

  // ---------- submit ----------

  datatype Submission =
    | NotSubmitted
    | InvalidArgument
    | Pseudo(scheme: bytes, path: bytes)

  /** copy_url_component */
  method CopyUrlComponent(dest: bytes, u: HttpParserUrl, field: Field, url: bytes) returns (r: bytes)
    requires field in u.fieldSet ==> u.fieldData.Get(field).off + u.fieldData.Get(field).len <= |url|
    ensures r == if field in u.fieldSet then Slice(url, u.fieldData.Get(field)) else dest
  {
    r := dest;
    if field in u.fieldSet {
      var s := u.fieldData.Get(field);
      r := url[s.off..s.off + s.len];
    }
  }

  /** The :path of a derivation, as section 8.1.2.3 of RFC 7540 asks for it; an empty query is dropped. */
  function RequestPath(v: Url): bytes {
    (if v.path == [] then [SLASH] else v.path)
    + (if v.QueryText() == [] then [] else [QUESTION] + v.QueryText())
  }

  /**
    The part of submit that turns a URL into the :scheme and :path fields.  It
    succeeds exactly on absolute URLs.
   */
  method Submit(stopped: bool, url: bytes, parser: HttpParserUrl) returns (r: Submission)
    modifies parser
    ensures stopped ==> r == NotSubmitted
    ensures forall v: Url | Describes(v, url, false) && !stopped ::
              r == if v.authority.Some? then Pseudo(v.schema, RequestPath(v)) else InvalidArgument
    ensures |url| <= UINT16_MAX && r.Pseudo? ==> exists v: Url :: Describes(v, url, false) && v.authority.Some?
    ensures |url| <= UINT16_MAX && !stopped && !r.Pseudo? ==> r == InvalidArgument
  {
    hide Parsed, Describes, RequestPath, FieldData.Get;
    if stopped {
      return NotSubmitted;
    }
    var rv := HttpParserParseUrl(url, false, parser);
    if rv != 0 {
      NotAccepted(url);
      return InvalidArgument;
    }
    FieldsInside(url, false);
    ReadsDerivation(url);
    assert forall f | f in parser.fieldSet :: parser.Set()[f] == parser.fieldData.Get(f);
    if UF_SCHEMA !in parser.fieldSet || UF_HOST !in parser.fieldSet {
      return InvalidArgument;
    }
    var scheme := CopyUrlComponent([], parser, UF_SCHEMA, url);
    var rawPath := CopyUrlComponent([], parser, UF_PATH, url);
    var rawQuery := CopyUrlComponent([], parser, UF_QUERY, url);
    if rawPath == [] {
      rawPath := [SLASH];
    }
    var path := UriComponent.PercentDecode(rawPath);
    path := rawPath;
    if UF_QUERY in parser.fieldSet {
      path := path + [QUESTION];
      path := path + rawQuery;
      assert path == rawPath + ([QUESTION] + rawQuery);
    }
    assert PseudoFields(url, parser.Set()) == Pseudo(scheme, path);
    return Pseudo(scheme, path);
  }

  /** What submit makes of the fields of an absolute URL. */
  function PseudoFields(url: bytes, fields: map<Field, Span>): Submission
    requires Inside(url, fields)
  {
    var (path, query) := (Text(url, fields, UF_PATH), Text(url, fields, UF_QUERY));
    Pseudo(Text(url, fields, UF_SCHEMA),
           (if path == [] then [SLASH] else path) + (if UF_QUERY in fields then [QUESTION] + query else []))
  }

  lemma NotAccepted(url: bytes)
    requires Parsed(url, false) == Rejected
    ensures forall v: Url :: !Describes(v, url, false)
  {
    forall v: Url
      ensures !Describes(v, url, false)
    {
      if Describes(v, url, false) {
        FitsReported(v, false);
      }
    }
  }

  /** The fields of an accepted URL lead to the pseudo-header fields of its derivation. */
  lemma ReadsDerivation(url: bytes)
    requires Parsed(url, false).Accepted?
    requires Inside(url, Parsed(url, false).fields)
    ensures var fields := Parsed(url, false).fields;
            && (forall v: Url | Describes(v, url, false) ::
                  && (v.authority.Some? <==> UF_SCHEMA in fields && UF_HOST in fields)
                  && (v.authority.Some? ==> PseudoFields(url, fields) == Pseudo(v.schema, RequestPath(v))))
            && (|url| <= UINT16_MAX ==> exists v: Url :: Describes(v, url, false))
  {
    hide Parsed, Before, Component, Derivable, Url.Render;
    var fields := Parsed(url, false).fields;
    forall v: Url | Describes(v, url, false)
      ensures v.authority.Some? <==> UF_SCHEMA in fields && UF_HOST in fields
      ensures v.authority.Some? ==> PseudoFields(url, fields) == Pseudo(v.schema, RequestPath(v))
    {
      FitsReported(v, false);
      SchemaAndHost(v);
      PlainComponents(v);
      TextIsComponent(url, v, fields);
    }
    if |url| <= UINT16_MAX {
      var v := AcceptedIsDerived(url, false);
      ShortFits(v);
    }
  }

  lemma SchemaAndHost(v: Url)
    requires Derivable(v, false)
    ensures v.authority.Some? <==> Component(v, UF_SCHEMA) != [] && Component(v, UF_HOST) != []
  {
    HostIsSet(v, false);
  }

  // ---------- taking apart and putting together ----------

  /** What follows the authority. */
  function Tail(v: Url): bytes {
    v.path + Opt(v.query.Some?, QUESTION) + v.QueryText() + Repeat(HASH, v.Hashes()) + v.FragmentText()
  }

  /** An http or https URL whose host is dotted lower-case labels, with no userinfo. */
  predicate Plain(v: Url) {
    && Derivable(v, false)
    && (v.schema == HTTP || v.schema == HTTPS)
    && v.authority.Some?
    && var a := v.authority.value;
       a.userinfo == [] && !a.at && a.host.Name? && DottedLabels(a.host.name)
       && AllAddress(a.host.name) && COLON !in a.host.name
  }

  function PortOrDefault(v: Url): bytes
    requires v.authority.Some?
  {
    if v.authority.value.port.Some? then v.authority.value.port.value else DefaultPort(v.schema)
  }

  /** The URL's own port, or 443 for https and 80 for http. */
  function PortToConnect(v: Url): nat {
    if v.authority.Some? && v.authority.value.port.Some? then v.PortNumber()
    else if v.schema == Codes("https") then 443 else 80
  }

  /** The same URL with its port spelled out. */
  function WithPort(v: Url): Url
    requires v.authority.Some?
  {
    v.(authority := Some(v.authority.value.(port := Some(PortOrDefault(v)))))
  }

  lemma {:induction false} ProtocolRunOf(p: bytes, rest: bytes)
    requires AllProtocol(p) && (rest == [] || !IsProtocolChar(rest[0]))
    ensures ProtocolRun(p + rest) == p
  {
    if p == [] {
      assert p + rest == rest;
    } else {
      assert (p + rest)[1..] == p[1..] + rest;
      ProtocolRunOf(p[1..], rest);
    }
  }

  lemma {:induction false} AddressRunOf(a: bytes, rest: bytes)
    requires AllAddress(a) && (rest == [] || !IsAddressChar(rest[0]))
    ensures AddressRun(a + rest) == a
  {
    if a == [] {
      assert a + rest == rest;
    } else {
      assert (a + rest)[1..] == a[1..] + rest;
      AddressRunOf(a[1..], rest);
    }
  }

  lemma TailStart(v: Url)
    requires Derivable(v, false) && v.authority.Some?
    ensures Tail(v) == [] || Tail(v)[0] == SLASH || Tail(v)[0] == QUESTION
  {
    hide Authority.Valid, AllQuery, AllUrl, AllFragment;
  }

  lemma PlainText(v: Url)
    requires Plain(v)
    ensures v.Render() == v.schema + SEPARATOR + v.authority.value.Render() + Tail(v)
  {
    PlainPrefix(v);
    hide Plain, Authority.Render, Url.Prefix;
    Regroup(v.Prefix() + v.AuthorityText(), v.path, Opt(v.query.Some?, QUESTION), v.QueryText(),
            Repeat(HASH, v.Hashes()), v.FragmentText());
  }

  lemma PlainPrefix(v: Url)
    requires Plain(v)
    ensures v.Prefix() == v.schema + SEPARATOR
    ensures v.authority.Some? && v.AuthorityText() == v.authority.value.Render()
  {
    hide Authority.Render, Derivable, DottedLabels;
  }

  lemma Regroup(a: bytes, b: bytes, c: bytes, d: bytes, e: bytes, f: bytes)
    ensures a + b + c + d + e + f == a + (b + c + d + e + f)
  {
  }

  lemma PlainAuthority(v: Url)
    requires Plain(v)
    ensures var a := v.authority.value;
            && a.Render() == a.host.name + (if a.port.Some? then [COLON] + a.port.value else [])
            && AllAddress(a.Render())
            && HostAndPort(a.Render(), v.schema) == (a.host.name, PortOrDefault(v))
  {
    var a := v.authority.value;
    PlainFacts(v);
    hide Plain, DottedLabels;
    if a.port.Some? {
      NoColonInDigits(a.port.value);
      SplitsAtPort(a.host.name, a.port.value, v.schema);
    } else {
      assert a.Render() == a.host.name;
      NotSplit(a.host.name);
    }
  }

  lemma PlainFacts(v: Url)
    requires Plain(v)
    ensures v.authority.Some?
    ensures var a := v.authority.value;
            && a.host.Name? && DottedLabels(a.host.name) && AllAddress(a.host.name) && COLON !in a.host.name
            && a.Render() == a.host.name + (if a.port.Some? then [COLON] + a.port.value else [])
            && (a.port.Some? ==> a.port.value != [] && AllDigits(a.port.value))
  {
    if v.authority.value.port.Some? {
      PortFacts(v);
    }
    hide DottedLabels, AllAddress, Derivable, AllDigits;
  }

  lemma LastColonAt(s: bytes, i: nat)
    requires i < |s| && s[i] == COLON && forall j | i < j < |s| :: s[j] != COLON
    ensures LastColon(s) == i
  {
    hide LastColon;
    assert LastColon(s) >= i;
  }

  lemma MatchesAt(a: bytes, i: nat)
    requires i < |a| && a[i] == COLON && DottedLabels(a[..i]) && a[i + 1..] != [] && AllDigits(a[i + 1..])
    ensures MatchesHostPort(a)
  {
    hide DottedLabels, AllDigits;
  }

  /** An address of labels, a colon and digits splits there. */
  lemma SplitsAtPort(name: bytes, port: bytes, protocol: bytes)
    requires DottedLabels(name) && AllAddress(name) && COLON !in name
    requires port != [] && AllDigits(port)
    ensures AllAddress(name + ([COLON] + port))
    ensures HostAndPort(name + ([COLON] + port), protocol) == (name, port)
  {
    hide DottedLabels, AllDigits, MatchesHostPort, LastColon;
    var text := name + ([COLON] + port);
    NoColonInDigits(port);
    assert text[|name|] == COLON && text[..|name|] == name && text[|name| + 1..] == port;
    MatchesAt(text, |name|);
    forall j | |name| < j < |text|
      ensures text[j] != COLON
    {
      assert text[j] == port[j - |name| - 1];
    }
    LastColonAt(text, |name|);
  }

  lemma NotSplit(name: bytes)
    requires COLON !in name
    ensures !MatchesHostPort(name)
  {
    hide DottedLabels, AllDigits;
  }

  lemma PortFacts(v: Url)
    requires Plain(v) && v.authority.value.port.Some?
    ensures v.authority.value.port.value != [] && AllDigits(v.authority.value.port.value)
  {
  }

  lemma NoColonInDigits(d: bytes)
    requires AllDigits(d)
    ensures forall i | 0 <= i < |d| :: d[i] != COLON
    ensures AllAddress(d)
  {
  }

  /** The scans cut a text where its parts meet. */
  lemma ProcessedParts(p: bytes, auth: bytes, tail: bytes)
    requires AllProtocol(p) && (|p| == 4 || |p| == 5) && AllAddress(auth)
    requires tail == [] || !IsAddressChar(tail[0])
    ensures Processed(p + SEPARATOR + auth + tail) ==
            if |auth| < 3 then None
            else Some(Elements(HostAndPort(auth, p).0, HostAndPort(auth, p).1, p, tail))
  {
    hide HostAndPort, AllAddress, AllProtocol, ProtocolRun, AddressRun;
    var uri := p + SEPARATOR + auth + tail;
    var rest := SEPARATOR + (auth + tail);
    assert uri == p + rest;
    ColonIsNoProtocol();
    ProtocolRunOf(p, rest);
    assert uri[|p|..] == rest;
    assert uri[|p| + 3..] == auth + tail;
    AddressRunOf(auth, tail);
    assert (auth + tail)[|auth|..] == tail;
  }

  /** A matching address splits at its only colon, into a host and a port of digits. */
  lemma SplitsBack(a: bytes, protocol: bytes)
    requires MatchesHostPort(a)
    ensures var (host, port) := HostAndPort(a, protocol);
            a == host + [COLON] + port && DottedLabels(host) && port != [] && AllDigits(port)
  {
    hide DottedLabels, LastColon, MatchesHostPort;
    var i := ColonOf(a);
    NoColonInDigits(a[i + 1..]);
    assert forall j | i < j < |a| :: a[j] == a[i + 1..][j - i - 1];
    LastColonAt(a, i);
    hide AllDigits;
    assert a == a[..i] + [COLON] + a[i + 1..];
  }

  lemma ColonOf(a: bytes) returns (i: nat)
    requires MatchesHostPort(a)
    ensures i < |a| && a[i] == COLON && DottedLabels(a[..i]) && a[i + 1..] != [] && AllDigits(a[i + 1..])
  {
    hide DottedLabels, AllDigits;
    i :| 0 <= i < |a| && a[i] == COLON && DottedLabels(a[..i]) && a[i + 1..] != [] && AllDigits(a[i + 1..]);
  }

  /** The scans cut a URI into pieces and lose none. */
  lemma ProcessedCuts(uri: bytes) returns (a: bytes)
    requires Processed(uri).Some?
    ensures var e := Processed(uri).value;
            && (|e.protocol| == 4 || |e.protocol| == 5) && AllProtocol(e.protocol)
            && |a| >= 3 && AllAddress(a)
            && uri == e.protocol + SEPARATOR + a + e.urn
            && (e.urn == [] || !IsAddressChar(e.urn[0]))
            && (e.addr, e.port) == HostAndPort(a, e.protocol)
  {
    hide ProtocolRun, AddressRun, HostAndPort, AllAddress, AllProtocol;
    var p := ProtocolRun(uri);
    var rest := uri[|p| + 3..];
    a := AddressRun(rest);
    AddressRunStops(rest);
    Take(p, uri);
    Take(SEPARATOR, uri[|p|..]);
    Take(a, rest);
    assert uri[|p|..][3..] == rest;
    Regroup3(p, SEPARATOR, a, rest[|a|..]);
  }

  lemma Regroup3(a: bytes, b: bytes, c: bytes, d: bytes)
    ensures a + (b + (c + d)) == a + b + c + d
  {
  }

  /**
    Whatever URI proccessUri takes apart, nothing of it is lost: with a host and a
    port in it, the assembled URI is the URI itself; otherwise the default port
    has been put behind the address.
   */
  lemma ProcessedConserves(uri: bytes) returns (a: bytes)
    requires Processed(uri).Some?
    ensures var e := Processed(uri).value;
            && (|e.protocol| == 4 || |e.protocol| == 5) && AllProtocol(e.protocol)
            && |a| >= 3 && AllAddress(a)
            && uri == e.protocol + SEPARATOR + a + e.urn
            && (e.urn == [] || !IsAddressChar(e.urn[0]))
            && if MatchesHostPort(a) then Assembled(e) == uri && DottedLabels(e.addr) && AllDigits(e.port)
               else
                 && e.addr == a
                 && e.port == if e.protocol == Codes("https") then Codes("443") else Codes("80")
  {
    hide MatchesHostPort, Processed, HostAndPort, DottedLabels, AllDigits, AllAddress, AllProtocol;
    a := ProcessedCuts(uri);
    var e := Processed(uri).value;
    if MatchesHostPort(a) {
      SplitsBack(a, e.protocol);
      assert Assembled(e) == e.protocol + SEPARATOR + (e.addr + [COLON] + e.port) + e.urn;
    } else {
      NotMatched(a, e.protocol);
      DefaultPortText(e.protocol);
    }
  }

  lemma DefaultPortText(protocol: bytes)
    ensures DefaultPort(protocol) == if protocol == Codes("https") then Codes("443") else Codes("80")
  {
    assert Codes("https") == HTTPS && Codes("443") == PORT_443 && Codes("80") == PORT_80;
  }

  lemma NotMatched(a: bytes, protocol: bytes)
    requires !MatchesHostPort(a)
    ensures HostAndPort(a, protocol) == (a, DefaultPort(protocol))
  {
    hide MatchesHostPort;
  }

  lemma Take(p: bytes, s: bytes)
    requires p <= s
    ensures s == p + s[|p|..]
  {
  }

  lemma {:induction false} AddressRunStops(s: bytes)
    ensures var rest := s[|AddressRun(s)|..]; rest == [] || !IsAddressChar(rest[0])
  {
    if s != [] && IsAddressChar(s[0]) {
      AddressRunStops(s[1..]);
      assert s[|AddressRun(s)|..] == s[1..][|AddressRun(s[1..])|..];
    }
  }

  lemma ColonIsNoProtocol()
    ensures !IsProtocolChar(COLON)
  {
  }

  /** proccessUri takes a plain URL apart, unless host and port together have fewer than three characters. */
  lemma ProcessedPlain(v: Url)
    requires Plain(v)
    ensures var a := v.authority.value;
            Processed(v.Render()) ==
            if |a.Render()| < 3 then None
            else Some(Elements(a.host.name, PortOrDefault(v), v.schema, Tail(v)))
    ensures PortOrDefault(v) ==
            match v.authority.value.port
            case Some(port) => port
            case None => if v.schema == Codes("https") then Codes("443") else Codes("80")
  {
    DefaultPortText(v.schema);
    PortIs(v);
    hide Plain, Url.Render, Authority.Render, HostAndPort, Tail, PortOrDefault, AllAddress, Processed;
    PlainFacts(v);
    PlainProtocol(v);
    PlainText(v);
    PlainAuthority(v);
    PlainTail(v);
    ProcessedParts(v.schema, v.authority.value.Render(), Tail(v));
  }

  lemma PlainProtocol(v: Url)
    requires Plain(v)
    ensures AllProtocol(v.schema) && (|v.schema| == 4 || |v.schema| == 5)
  {
  }

  lemma PlainTail(v: Url)
    requires Plain(v)
    ensures Tail(v) == [] || !IsAddressChar(Tail(v)[0])
  {
    TailStart(v);
  }

  lemma DefaultPortFacts(protocol: bytes)
    ensures var d := DefaultPort(protocol); d != [] && AllDigits(d) && Value(d) == (if protocol == Codes("https") then 443 else 80)
  {
    assert Value([52][..0]) == 0 && Value([56][..0]) == 0;
    assert PORT_443[..2] == [52, 52] && [52, 52][..1] == [52];
    assert Value([52]) == 4 && Value([52, 52]) == 44 && Value(PORT_443) == 443;
    assert PORT_80[..1] == [56];
    assert Codes("https") == HTTPS;
    assert Value([56]) == 8 && Value(PORT_80) == 80;
  }

  /** With its port spelled out a plain URL is still one, and nothing else about it changes. */
  lemma WithPortPlain(v: Url)
    requires Plain(v)
    ensures Plain(WithPort(v))
    ensures Tail(WithPort(v)) == Tail(v) && RequestPath(WithPort(v)) == RequestPath(v)
  {
    DefaultPortFacts(v.schema);
    hide AllUserinfo, AllHost, AllQuery, AllAlpha, DottedLabels, AllAddress, Value, AllDigits, DefaultPort;
  }

  /** What fetch assembles from the parts is the URL with its port spelled out. */
  lemma AssembledPlain(v: Url)
    requires Plain(v) && |v.authority.value.Render()| >= 3
    ensures Processed(v.Render()).Some?
    ensures Assembled(Processed(v.Render()).value) == WithPort(v).Render()
  {
    hide Plain, Processed, Url.Render, Tail, Authority.Render, PortOrDefault, HostAndPort, RequestPath;
    PlainFacts(v);
    ProcessedPlain(v);
    WithPortPlain(v);
    var w := WithPort(v);
    PlainText(w);
    PlainFacts(w);
    var (name, port) := (v.authority.value.host.name, PortOrDefault(v));
    assert v.schema + SEPARATOR + (name + ([COLON] + port)) + Tail(v)
        == v.schema + SEPARATOR + name + [COLON] + port + Tail(v);
  }

  /**
    The way of a request: proccessUri, fetch and the parser in submit agree.  The
    parser finds the host and the port that proccessUri found, and the path is
    that of the original URL.
   */
  lemma RequestAgrees(v: Url)
    requires Plain(v) && |v.authority.value.Render()| >= 3 && Fits(WithPort(v))
    ensures var parts := Processed(v.Render());
            && parts.Some?
            && var uri := Assembled(parts.value);
            && var outcome := Parsed(uri, false);
            && outcome.Accepted? && Inside(uri, outcome.fields)
            && Text(uri, outcome.fields, UF_SCHEMA) == parts.value.protocol == v.schema
            && Text(uri, outcome.fields, UF_HOST) == parts.value.addr == v.authority.value.host.name
            && Text(uri, outcome.fields, UF_PORT) == parts.value.port == PortOrDefault(v)
            && AllDigits(parts.value.port) && outcome.port == Value(parts.value.port) == PortToConnect(v)
            && PseudoFields(uri, outcome.fields) == Pseudo(v.schema, RequestPath(v))
  {
    AssembledPlain(v);
    ProcessedPlain(v);
    WithPortPlain(v);
    var w := WithPort(v);
    var uri := w.Render();
    WithPortComponents(v);
    PortNumbers(v);
    hide Plain, Url.Render, Processed, Parsed, Before, Component, Assembled, PseudoFields, Fits, Value, AllDigits;
    hide RequestPath, PortOrDefault, WithPort, Url.PortNumber, PortToConnect;
    PlainDerivable(w);
    assert Describes(w, uri, false);
    FitsReported(w, false);
    FieldsInside(uri, false);
    ReadsDerivation(uri);
    TextIsComponent(uri, w, Parsed(uri, false).fields);
  }

  lemma PortNumbers(v: Url)
    requires Plain(v)
    ensures AllDigits(PortOrDefault(v)) && Value(PortOrDefault(v)) == PortToConnect(v)
  {
    DefaultPortFacts(v.schema);
    if v.authority.value.port.Some? {
      PortFacts(v);
    }
    hide Value, AllDigits, Codes, DefaultPort;
  }

  lemma PortIs(v: Url)
    requires v.authority.Some?
    ensures PortOrDefault(v) == match v.authority.value.port case Some(port) => port case None => DefaultPort(v.schema)
  {
  }

  lemma PlainDerivable(v: Url)
    requires Plain(v)
    ensures Derivable(v, false) && v.authority.Some?
  {
  }

  lemma WithPortComponents(v: Url)
    requires Plain(v)
    ensures var w := WithPort(v);
            && w.schema == v.schema && w.authority.Some? && Derivable(w, false)
            && Component(w, UF_SCHEMA) == v.schema
            && Component(w, UF_HOST) == v.authority.value.host.name
            && Component(w, UF_PORT) == PortOrDefault(v)
            && AllDigits(PortOrDefault(v)) && w.PortNumber() == Value(PortOrDefault(v))
  {
    WithPortPlain(v);
    hide AllUserinfo, AllHost, AllQuery, AllAlpha, DottedLabels, AllAddress, PathText, UrlScan.FragmentText;
  }

  // ---------- a query, end to end ----------

  function WithQuery(v: Url, q: bytes): Url { v.(query := Some(q)) }

  /** An encoded component can take the place of any query. */
  lemma EncodedQueryDerivable(v: Url, s: bytes)
    requires Derivable(v, false) && v.query.Some?
    ensures Derivable(WithQuery(v, UriComponent.EncodedUri(s)), false)
  {
    UriComponent.EncodedIsUrl(s);
    hide UriComponent.EncodedUri, Authority.Valid, PathText, AllAlpha, IsUrlChar;
  }

  /** Encode a component into the query of any URL, parse it, copy the query out and decode it: it comes back. */
  lemma QueryRoundTrip(v: Url, s: bytes)
    requires Derivable(v, false) && v.query.Some? && s != []
    requires Fits(WithQuery(v, UriComponent.EncodedUri(s)))
    ensures var uri := WithQuery(v, UriComponent.EncodedUri(s)).Render();
            && Parsed(uri, false).Accepted? && Inside(uri, Parsed(uri, false).fields)
            && UF_QUERY in Parsed(uri, false).fields
            && UriComponent.DecodedUri(Text(uri, Parsed(uri, false).fields, UF_QUERY)) == UriComponent.Text(s)
  {
    EncodedNotEmpty(s);
    EncodedQueryDerivable(v, s);
    UriComponent.DecodeEncode(s);
    var w := WithQuery(v, UriComponent.EncodedUri(s));
    PlainComponents(w);
    hide UriComponent.EncodedUri, UriComponent.DecodedUri, Derivable, Fits, Url.Render, Parsed, Before, Component;
    FitsReported(w, false);
    FieldsInside(w.Render(), false);
    TextIsComponent(w.Render(), w, Parsed(w.Render(), false).fields);
  }

  lemma EncodedNotEmpty(s: bytes)
    requires s != []
    ensures UriComponent.EncodedUri(s) != []
  {
  }
}
