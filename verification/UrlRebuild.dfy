/**
  Parse, then print: how much of a URL its fields determine.
 */
module UrlRebuild {
  import opened Bytes
  import opened Options
  import opened UrlChars
  import opened UrlMachine
  import opened UrlScan
  import opened HostScan
  import opened UrlFields
  import opened UrlGrammar
  import opened UrlTheorems
  import opened UrlLayout

  predicate Inside(buf: bytes, fields: map<Field, Span>) {
    forall f | f in fields :: fields[f].off + fields[f].len <= |buf|
  }

  function Text(buf: bytes, fields: map<Field, Span>, f: Field): bytes
    requires Inside(buf, fields)
  {
    if f in fields then Slice(buf, fields[f]) else []
  }

  /** A host that was in brackets has one just before it. */
  predicate Bracketed(buf: bytes, fields: map<Field, Span>)
    requires Inside(buf, fields)
  {
    UF_HOST in fields && 0 < fields[UF_HOST].off && buf[fields[UF_HOST].off - 1] == LBRACKET
  }

  /** The fields printed with one of each delimiter that a field needs. */
  function Rebuilt(buf: bytes, fields: map<Field, Span>): bytes
    requires Inside(buf, fields)
  {
    Assemble(Text(buf, fields, UF_SCHEMA), Text(buf, fields, UF_USERINFO), Bracketed(buf, fields),
             Text(buf, fields, UF_HOST), Text(buf, fields, UF_PORT), Text(buf, fields, UF_PATH),
             Text(buf, fields, UF_QUERY), Text(buf, fields, UF_FRAGMENT))
  }

  function Assemble(
    schema: bytes, userinfo: bytes, bracketed: bool, host: bytes, port: bytes,
    path: bytes, query: bytes, fragment: bytes): bytes
  {
    schema + (if schema == [] then [] else [COLON, SLASH, SLASH])
    + AssembleAuthority(userinfo, bracketed, host, port)
    + path
    + Opt(query != [], QUESTION) + query
    + Opt(fragment != [], HASH) + fragment
  }

  function AssembleAuthority(userinfo: bytes, bracketed: bool, host: bytes, port: bytes): bytes {
    var h := if bracketed then [LBRACKET] + host + [RBRACKET] else host;
    userinfo + Opt(userinfo != [], AT) + h + Opt(port != [], COLON) + port
  }

  /** The derivation without the delimiters that separate nothing. */
  function Normal(u: Url): Url {
    Url(u.schema,
        if u.authority.Some? then Some(u.authority.value.(at := u.authority.value.userinfo != [])) else None,
        u.path,
        if u.QueryText() != [] then u.query else None,
        if u.FragmentText() != [] then Some(Anchor(1, u.FragmentText())) else None)
  }

  lemma NormalComponents(u: Url, f: Field)
    ensures Component(Normal(u), f) == Component(u, f)
  {
  }

  lemma HostBracket(u: Url, connect: bool)
    requires Derivable(u, connect) && u.authority.Some?
    ensures var before := Before(u, UF_HOST);
            u.authority.value.host.Address? <==> before != [] && before[|before| - 1] == LBRACKET
  {
    hide AllUserinfo, AllHost, AllAlpha, AllV6, AllZone, AllDigits;
  }

  lemma AssembleNormal(u: Url, connect: bool)
    requires Derivable(u, connect)
    ensures Normal(u).Render() ==
            Assemble(u.schema, Component(u, UF_USERINFO), u.authority.Some? && u.authority.value.host.Address?,
                     Component(u, UF_HOST), Component(u, UF_PORT), u.path, u.QueryText(), u.FragmentText())
  {
    hide AssembleAuthority, Derivable, Component, Url.AuthorityText;
    NormalAuthority(u, connect);
    NormalTail(u);
    var n := Normal(u);
    assert n.Prefix() == u.schema + (if u.schema == [] then [] else [COLON, SLASH, SLASH]);
    hide Normal, Url.Prefix, Url.QueryText, Url.FragmentText, Url.Render;
  }

  lemma NormalTail(u: Url)
    ensures Normal(u).Render() ==
            Normal(u).Prefix() + Normal(u).AuthorityText() + u.path
            + Opt(u.QueryText() != [], QUESTION) + u.QueryText()
            + Opt(u.FragmentText() != [], HASH) + u.FragmentText()
  {
    hide Authority.Render, Url.Prefix;
    assert Repeat(HASH, 1) == [HASH];
    assert Repeat(HASH, 0) == [];
  }

  lemma NormalAuthority(u: Url, connect: bool)
    requires Derivable(u, connect)
    ensures Normal(u).AuthorityText() ==
            AssembleAuthority(Component(u, UF_USERINFO), u.authority.Some? && u.authority.value.host.Address?,
                              Component(u, UF_HOST), Component(u, UF_PORT))
  {
    hide AllUserinfo, AllHost, AllAlpha, AllV6, AllZone, AllDigits, PathText, AllQuery;
    hide UrlScan.FragmentText;
  }

  /** Delimiters that the loop skips and no field shows. */
  predicate HasSilentDelimiters(u: Url) {
    || (u.authority.Some? && u.authority.value.at && u.authority.value.userinfo == [])
    || (u.query.Some? && u.query.value == [])
    || (u.fragment.Some? && (u.fragment.value.hashes > 1 || u.fragment.value.text == []))
  }

  /** Normalizing shortens the text by the silent delimiters, and by nothing else. */
  lemma NormalLength(u: Url, connect: bool)
    requires Derivable(u, connect)
    ensures HasSilentDelimiters(u) ==> |Normal(u).Render()| < |u.Render()|
    ensures !HasSilentDelimiters(u) ==> Normal(u) == u
  {
    hide AllUserinfo, AllHost, AllAlpha, AllV6, AllZone, AllDigits, PathText, AllQuery;
    hide UrlScan.FragmentText, Host.Render;
  }

  /** Fields at the true places read as the components. */
  lemma TextIsComponent(buf: bytes, u: Url, fields: map<Field, Span>)
    requires u.Render() == buf && Inside(buf, fields)
    requires forall f: Field :: f in fields <==> Component(u, f) != []
    requires forall f: Field | f in fields :: fields[f].off == |Before(u, f)| && fields[f].len == |Component(u, f)|
    ensures forall f: Field :: Text(buf, fields, f) == Component(u, f)
  {
    hide Before, Component, Url.Render;
    forall f: Field
      ensures Text(buf, fields, f) == Component(u, f)
    {
      if f in fields {
        ComponentInText(u, f);
      }
    }
  }

  /** Such fields print to the normalized derivation. */
  lemma RebuiltIs(u: Url, buf: bytes, fields: map<Field, Span>, connect: bool)
    requires Derivable(u, connect) && u.Render() == buf && Inside(buf, fields)
    requires forall f: Field :: f in fields <==> Component(u, f) != []
    requires forall f: Field | f in fields :: fields[f].off == |Before(u, f)| && fields[f].len == |Component(u, f)|
    ensures Rebuilt(buf, fields) == Normal(u).Render()
  {
    hide Before, Component, Derivable, Url.Render, Assemble, Normal, Text, Bracketed;
    TextIsComponent(buf, u, fields);
    if Component(u, UF_HOST) != [] {
      ComponentInText(u, UF_HOST);
    }
    BracketsShow(u, buf, fields, connect);
    PlainComponents(u);
    AssembleNormal(u, connect);
  }

  /**
    Parse then print, on short accepted buffers: the fields print to the
    normalized derivation, which is the buffer itself exactly when the buffer
    has no empty "?", no empty or repeated "#", and no "@" after an empty userinfo.
   */
  lemma ParsePrint(buf: bytes, connect: bool) returns (u: Url)
    requires |buf| <= UINT16_MAX && Parsed(buf, connect).Accepted?
    ensures Derivable(u, connect) && u.Render() == buf
    ensures Inside(buf, Parsed(buf, connect).fields)
    ensures Rebuilt(buf, Parsed(buf, connect).fields) == Normal(u).Render()
    ensures Rebuilt(buf, Parsed(buf, connect).fields) == buf <==> !HasSilentDelimiters(u)
  {
    hide Before, Component, Derivable, Url.Render, Parsed, Rebuilt, Normal, HasSilentDelimiters;
    u := Accounted(buf, connect);
    NormalLength(u, connect);
    FieldLayout(buf, connect);
    RebuiltIs(u, buf, Parsed(buf, connect).fields, connect);
  }

  lemma PlainComponents(u: Url)
    ensures Component(u, UF_SCHEMA) == u.schema && Component(u, UF_PATH) == u.path
    ensures Component(u, UF_QUERY) == u.QueryText() && Component(u, UF_FRAGMENT) == u.FragmentText()
  {
  }

  lemma BracketsShow(u: Url, buf: bytes, fields: map<Field, Span>, connect: bool)
    requires Derivable(u, connect) && Inside(buf, fields)
    requires UF_HOST in fields <==> Component(u, UF_HOST) != []
    requires UF_HOST in fields ==>
      && Before(u, UF_HOST) + Component(u, UF_HOST) <= buf && fields[UF_HOST].off == |Before(u, UF_HOST)|
    ensures Bracketed(buf, fields) <==> u.authority.Some? && u.authority.value.host.Address?
  {
    HostIsSet(u, connect);
    NoHostPart(u, UF_HOST);
    if u.authority.Some? {
      HostBracket(u, connect);
    }
    hide Before, Component, Derivable;
  }

  /** Whether something keeps the fragment of a URL apart from its authority. */
  predicate FragmentStandsApart(u: Url) {
    u.path != [] || u.QueryText() != [] || u.FragmentText() == []
  }

  /** Normalizing leads out of the grammar only where a dropped "?" was all that led to a fragment. */
  lemma NormalDerivable(u: Url, connect: bool)
    requires Derivable(u, connect)
    ensures Derivable(Normal(u), connect) <==> FragmentStandsApart(u)
  {
    hide AllUserinfo, AllHost, AllAlpha, AllV6, AllZone, AllDigits, AllQuery, AllFragment, AllUrl;
  }

  lemma NormalTwice(u: Url)
    ensures !HasSilentDelimiters(Normal(u)) && Normal(Normal(u)) == Normal(u)
    ensures Normal(u).PortNumber() == u.PortNumber()
  {
    hide AllDigits, Value;
  }

  /**
    The normalized text parses again, to the same components and the same port,
    and prints to itself.
   */
  lemma NormalParses(u: Url, connect: bool)
    requires Derivable(u, connect) && FragmentStandsApart(u) && Fits(Normal(u))
    ensures var t := Normal(u).Render();
            var outcome := Parsed(t, connect);
            && outcome.Accepted? && outcome.port == u.PortNumber() && Inside(t, outcome.fields)
            && (forall f: Field :: Text(t, outcome.fields, f) == Component(u, f))
            && Rebuilt(t, outcome.fields) == t
  {
    hide Derivable, Url.Render, Parsed, Before, Component, Normal, Text, Rebuilt, Fits, FragmentStandsApart;
    hide Url.PortNumber;
    var n := Normal(u);
    NormalDerivable(u, connect);
    NormalTwice(u);
    FitsReported(n, connect);
    FieldsInside(n.Render(), connect);
    var fields := Parsed(n.Render(), connect).fields;
    TextIsComponent(n.Render(), n, fields);
    RebuiltIs(n, n.Render(), fields, connect);
    forall f: Field
      ensures Text(n.Render(), fields, f) == Component(u, f)
    {
      NormalComponents(u, f);
    }
  }

  /** A "#" right behind an authority is rejected. */
  lemma HashBehindAuthority(v: Url, rest: bytes)
    requires Derivable(v, false) && v.authority.Some? && v.path == [] && v.query.None? && v.fragment.None?
    ensures Parsed(v.Render() + [HASH] + rest, false) == Rejected
  {
    var o, t := OutlineOf(v), v.Render() + [HASH] + rest;
    UrlOutline(v, false);
    UrlOutlineText(v);
    ScanComplete(o, false);
    assert StateOf(o, false) == Server || StateOf(o, false) == ServerWithAt;
    HashEndsServer();
    hide Derivable, Url.Render, OutlineOf, WellFormed, Outline.Text, StateOf, ParseUrlChar;
    var n := |v.Render()|;
    assert t[..n + 1][..n] == v.Render();
    assert Scan(t[..n + 1], false) == None;
    ScanDead(t, n + 1, false);
  }

  lemma HashEndsServer()
    ensures ParseUrlChar(Server, HASH) == Dead && ParseUrlChar(ServerWithAt, HASH) == Dead
  {
  }

  /** Otherwise the normalized text is rejected. */
  lemma NormalRejected(u: Url, connect: bool)
    requires Derivable(u, connect) && !FragmentStandsApart(u)
    ensures Parsed(Normal(u).Render(), connect) == Rejected
  {
    var v := Normal(u).(fragment := None);
    assert !connect && u.authority.Some?;
    WithoutFragment(u);
    hide Derivable, Url.Render, Parsed;
    HashBehindAuthority(v, u.FragmentText());
  }

  lemma WithoutFragment(u: Url)
    requires Derivable(u, false) && !FragmentStandsApart(u)
    ensures var v := Normal(u).(fragment := None);
            && Derivable(v, false) && v.authority.Some? && v.path == [] && v.query.None?
            && Normal(u).Render() == v.Render() + [HASH] + u.FragmentText()
  {
    hide AllUserinfo, AllHost, AllAlpha, AllV6, AllZone, AllDigits, AllQuery, AllFragment, AllUrl, Value;
    hide UrlScan.FragmentText, Authority.Render, Url.Render;
    var w := u.(fragment := None);
    assert Normal(w) == Normal(u).(fragment := None);
    NormalTail(u);
    NormalTail(w);
    assert w.FragmentText() == [] && u.path == [] && u.QueryText() == [];
    var head := Normal(u).Prefix() + Normal(u).AuthorityText();
    assert Normal(w).Prefix() + Normal(w).AuthorityText() == head;
    assert Normal(w).Render() == head;
    assert Normal(u).Render() == head + [HASH] + u.FragmentText();
  }

  // ---------- inputs at which each condition fails ----------

  /** "http://a?#x" */
  const BARE_QUERY := Url([104, 116, 116, 112], Some(Authority([], false, Name([97]), None)), [], Some([]),
                          Some(Anchor(1, [120])))

  lemma BareQueryText()
    ensures BARE_QUERY.Render() == [104, 116, 116, 112, COLON, SLASH, SLASH, 97, QUESTION, HASH, 120]
    ensures Normal(BARE_QUERY).Render() == [104, 116, 116, 112, COLON, SLASH, SLASH, 97, HASH, 120]
  {
    assert Repeat(HASH, 1) == [HASH];
    assert BARE_QUERY.AuthorityText() == [97];
    assert BARE_QUERY.Prefix() == [104, 116, 116, 112, COLON, SLASH, SLASH];
    hide Url.AuthorityText, Url.Prefix;
    assert BARE_QUERY.BeforeQuery() == [104, 116, 116, 112, COLON, SLASH, SLASH, 97, QUESTION];
    assert Normal(BARE_QUERY).BeforeQuery() == [104, 116, 116, 112, COLON, SLASH, SLASH, 97] by {
      assert Normal(BARE_QUERY) == BARE_QUERY.(query := None);
      assert Normal(BARE_QUERY).AuthorityText() == [97] by { BareQueryAuthority(); }
      assert Normal(BARE_QUERY).Prefix() == BARE_QUERY.Prefix() by { BareQueryAuthority(); }
    }
  }

  lemma BareQueryAuthority()
    ensures BARE_QUERY.(query := None).AuthorityText() == BARE_QUERY.AuthorityText()
    ensures BARE_QUERY.(query := None).Prefix() == BARE_QUERY.Prefix()
  {
  }

  /** "http://a?#x" is accepted; printed from its fields it is "http://a#x", which is not. */
  lemma LosesItsQuery()
    ensures Derivable(BARE_QUERY, false)
    ensures Parsed(BARE_QUERY.Render(), false).Accepted?
    ensures Parsed(Normal(BARE_QUERY).Render(), false) == Rejected
  {
    UrlCharClass(120);
    assert Derivable(BARE_QUERY, false);
    BareQueryText();
    NormalRejected(BARE_QUERY, false);
    hide Derivable, Url.Render, Parsed;
    ShortFits(BARE_QUERY);
    DerivationParsed(BARE_QUERY, false);
  }

  /** A path of 70000 octets is accepted, and reported as one of 4464. */
  lemma LongPath()
    ensures var u := Url([], None, [SLASH] + Repeat(97, 69999), None, None);
            && Derivable(u, false) && !Reported(u, false)
            && Parsed(u.Render(), false) == Accepted(map[UF_PATH := Span(0, 4464)], 0)
  {
    var u := Url([], None, [SLASH] + Repeat(97, 69999), None, None);
    UrlCharClass(97);
    assert u.path[1..] == Repeat(97, 69999);
    assert Derivable(u, false);
    assert Component(u, UF_PATH) == u.path && |Before(u, UF_PATH)| == 0;
    assert forall f: Field | f != UF_PATH :: Component(u, f) == [];
    assert Layout(u) == map[UF_PATH := Span(0, 4464)];
    hide Derivable, Url.Render, Parsed;
    DerivationParsed(u, false);
    ReportedIffFits(u, false);
  }

  /** "@a:1" passes for a CONNECT target. */
  lemma AtBeforeTarget()
    ensures var u := Url([], Some(Authority([], true, Name([97]), Some([49]))), [], None, None);
            && Derivable(u, true) && u.Render() == [AT, 97, COLON, 49]
            && Parsed([AT, 97, COLON, 49], true).Accepted?
  {
    var u := Url([], Some(Authority([], true, Name([97]), Some([49]))), [], None, None);
    assert Value([49]) == 1 by { assert Value([49][..0]) == 0; }
    assert Derivable(u, true);
    assert Repeat(HASH, 0) == [];
    assert u.Render() == [AT, 97, COLON, 49];
    hide Derivable, Url.Render, Parsed;
    ShortFits(u);
    DerivationParsed(u, true);
  }
}
