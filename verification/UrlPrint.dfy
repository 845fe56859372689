/**
  Print, then parse: what the parser finds in the text of a URL, with that text
  and the characters in it spelled out in plain octets.
 */
module UrlPrint {
  import opened Bytes
  import opened Options
  import opened UrlChars
  import opened UrlScan
  import opened HostScan
  import opened UrlFields
  import opened UrlGrammar
  import opened UrlTheorems
  import opened UrlLayout
  import opened UrlRebuild

  // ---------- characters ----------

  predicate Letter(c: byte) { 65 <= c <= 90 || 97 <= c <= 122 }

  predicate Digit(c: byte) { 48 <= c <= 57 }

  /** Printable but "#" and "?", or tab, form feed or anything from 128 up. */
  predicate Plain(c: byte) { c >= 128 || c == 9 || c == 12 || (33 <= c <= 126 && c != 35 && c != 63) }

  predicate AllLetters(s: bytes) { forall i | 0 <= i < |s| :: Letter(s[i]) }

  predicate AllPlain(s: bytes) { forall i | 0 <= i < |s| :: Plain(s[i]) }

  predicate AllPlainOrQuestion(s: bytes) { forall i | 0 <= i < |s| :: Plain(s[i]) || s[i] == 63 }

  predicate PlainOrMark(c: byte) { Plain(c) || c == 63 || c == 35 }

  predicate IsUserinfo(s: bytes) {
    forall i | 0 <= i < |s| :: Letter(s[i]) || Digit(s[i]) || s[i] in Codes("!$%&'()*+,-.:;=_~")
  }

  predicate IsName(s: bytes) {
    forall i | 0 <= i < |s| :: Letter(s[i]) || Digit(s[i]) || s[i] in Codes("-._")
  }

  predicate IsAddress(s: bytes) {
    forall i | 0 <= i < |s| ::
      Digit(s[i]) || 65 <= s[i] <= 70 || 97 <= s[i] <= 102 || s[i] in Codes(".:")
  }

  predicate IsZone(s: bytes) {
    forall i | 0 <= i < |s| :: Letter(s[i]) || Digit(s[i]) || s[i] in Codes("%-._~")
  }

  // ---------- what stands behind the authority ----------

  /** A path, a query and a fragment; an empty one is absent. */
  datatype Tail = Tail(path: bytes, query: bytes, fragment: bytes) {
    /** The path begins with "/", or in asterisk form with "*"; a fragment needs something before it. */
    predicate Ordinary(asterisk: bool) {
      && (path != [] ==> (path[0] == '/' as int || (asterisk && path[0] == '*' as int)) && AllPlain(path[1..]))
      && AllPlainOrQuestion(query)
      && (fragment != [] ==>
            && (path != [] || query != [])
            && fragment[0] != '#' as int
            && forall i | 0 <= i < |fragment| :: PlainOrMark(fragment[i]))
    }

    function Printed(): bytes {
      path
      + (if query == [] then [] else Codes("?") + query)
      + (if fragment == [] then [] else Codes("#") + fragment)
    }
  }

  function UrlOf(schema: bytes, authority: Option<Authority>, t: Tail): Url {
    Url(schema, authority, t.path, if t.query == [] then None else Some(t.query),
        if t.fragment == [] then None else Some(Anchor(1, t.fragment)))
  }

  lemma PlainIsUrl(s: bytes)
    ensures AllPlain(s) <==> AllUrl(s)
    ensures AllPlainOrQuestion(s) <==> AllQuery(s)
    ensures (forall i | 0 <= i < |s| :: PlainOrMark(s[i])) <==> AllFragment(s)
  {
    hide IsUrlChar;
    forall i | 0 <= i < |s|
      ensures Plain(s[i]) <==> IsUrlChar(s[i])
    {
      UrlCharClass(s[i]);
    }
  }

  lemma OrdinaryTail(t: Tail, asterisk: bool)
    ensures t.Ordinary(asterisk) <==>
            && PathText(t.path, !asterisk) && AllQuery(t.query)
            && (t.fragment != [] ==> (t.path != [] || t.query != []) && UrlScan.FragmentText(t.fragment))
  {
    if t.path != [] {
      PlainIsUrl(t.path[1..]);
    }
    PlainIsUrl(t.query);
    PlainIsUrl(t.fragment);
    hide AllPlain, AllUrl, AllQuery, AllPlainOrQuestion, AllFragment, PlainOrMark;
  }

  lemma Regroup(h: bytes, path: bytes, o: bytes, q: bytes, r: bytes, f: bytes)
    ensures h + path + o + q + r + f == h + (path + (o + q) + (r + f))
  {
  }

  lemma TailParts(schema: bytes, authority: Option<Authority>, t: Tail)
    ensures var u := UrlOf(schema, authority, t);
            && u.path == t.path && u.QueryText() == t.query && u.FragmentText() == t.fragment
            && t.Printed() == t.path + (Opt(u.query.Some?, QUESTION) + t.query) + (Repeat(HASH, u.Hashes()) + t.fragment)
  {
    assert Repeat(HASH, 1) == [HASH] && Repeat(HASH, 0) == [];
    assert Codes("?") == [QUESTION] && Codes("#") == [HASH];
  }

  lemma TailText(schema: bytes, authority: Option<Authority>, t: Tail)
    ensures UrlOf(schema, authority, t).Render() ==
            UrlOf(schema, authority, t).Prefix() + UrlOf(schema, authority, t).AuthorityText() + t.Printed()
  {
    var u := UrlOf(schema, authority, t);
    TailParts(schema, authority, t);
    hide UrlOf, Url.Prefix, Url.AuthorityText, Url.Hashes, Url.QueryText, Url.FragmentText, Tail.Printed, Repeat;
    Regroup(u.Prefix() + u.AuthorityText(), t.path, Opt(u.query.Some?, QUESTION), t.query,
            Repeat(HASH, u.Hashes()), t.fragment);
  }

  lemma Found(u: Url)
    requires Derivable(u, false) && |u.Render()| <= 65535
    ensures var (text, outcome) := (u.Render(), Parsed(u.Render(), false));
            && outcome.Accepted? && Inside(text, outcome.fields) && outcome.port == u.PortNumber()
            && forall f: Field :: Text(text, outcome.fields, f) == Component(u, f)
  {
    hide Derivable, Url.Render, Parsed, Before, Component, Url.PortNumber, Fits;
    ShortIsFit(u);
    FitsReported(u, false);
    FieldsInside(u.Render(), false);
    TextIsComponent(u.Render(), u, Parsed(u.Render(), false).fields);
  }

  lemma ShortIsFit(u: Url)
    requires |u.Render()| <= UINT16_MAX
    ensures Fits(u)
  {
    ShortFits(u);
    hide Before, Component, Url.Render, Url.AuthorityText;
  }

  // ---------- origin and asterisk form ----------

  /** A path in origin or asterisk form, with a query and a fragment, is found again. */
  lemma PrintParsePath(t: Tail)
    requires t.Ordinary(true) && t.path != [] && |t.Printed()| <= 65535
    ensures var (text, outcome) := (t.Printed(), Parsed(t.Printed(), false));
            && outcome.Accepted? && Inside(text, outcome.fields) && outcome.port == 0
            && Text(text, outcome.fields, UF_PATH) == t.path
            && Text(text, outcome.fields, UF_QUERY) == t.query
            && Text(text, outcome.fields, UF_FRAGMENT) == t.fragment
            && UF_SCHEMA !in outcome.fields && UF_USERINFO !in outcome.fields
            && UF_HOST !in outcome.fields && UF_PORT !in outcome.fields
  {
    var u := UrlOf([], None, t);
    PathDerivable(t);
    PathPrinted(t);
    PathComponents(t);
    hide UrlOf, Derivable, Url.Render, Tail.Printed, Tail.Ordinary, Parsed, Component, Url.PortNumber;
    Found(u);
    OnlySet(t.Printed(), u);
  }

  lemma PathDerivable(t: Tail)
    requires t.Ordinary(true) && t.path != []
    ensures Derivable(UrlOf([], None, t), false)
  {
    OrdinaryTail(t, true);
    hide Tail.Ordinary, PathText, AllQuery, UrlScan.FragmentText;
  }

  lemma PathPrinted(t: Tail)
    ensures UrlOf([], None, t).Render() == t.Printed()
  {
    TailText([], None, t);
    var u := UrlOf([], None, t);
    hide Tail.Printed, Url.Render;
    assert u.Prefix() == [] && u.AuthorityText() == [];
    assert [] + [] + t.Printed() == t.Printed();
  }

  lemma PathComponents(t: Tail)
    ensures var u := UrlOf([], None, t);
            && Component(u, UF_SCHEMA) == Component(u, UF_USERINFO) == Component(u, UF_HOST) == Component(u, UF_PORT) == []
            && Component(u, UF_PATH) == t.path && Component(u, UF_QUERY) == t.query
            && Component(u, UF_FRAGMENT) == t.fragment && u.PortNumber() == 0
  {
  }

  lemma OnlySet(text: bytes, u: Url)
    requires Derivable(u, false) && u.Render() == text && |text| <= 65535
    ensures Parsed(text, false).Accepted?
    ensures forall f: Field :: f in Parsed(text, false).fields <==> Component(u, f) != []
  {
    hide Derivable, Url.Render, Parsed, Before, Component, Url.PortNumber, Fits;
    ShortIsFit(u);
    FitsReported(u, false);
  }

  // ---------- absolute form ----------

  /** A host as it stands in a URL. */
  function HostBrackets(h: Host): bytes {
    match h
    case Name(n) => n
    case Address(a, None) => Codes("[") + a + Codes("]")
    case Address(a, Some(z)) => Codes("[") + a + Codes("%") + z + Codes("]")
  }

  /** [userinfo "@"] host [":" port]; an empty part is absent. */
  datatype Server = Server(userinfo: bytes, host: Host, port: bytes) {
    predicate Ordinary() {
      && IsUserinfo(userinfo)
      && (match host
          case Name(n) => n != [] && IsName(n)
          case Address(a, z) => a != [] && IsAddress(a) && (z.Some? ==> z.value != [] && IsZone(z.value)))
      && (forall i | 0 <= i < |port| :: Digit(port[i]))
      && (AllDigits(port) ==> Value(port) <= 65535)
    }

    function Printed(): bytes {
      (if userinfo == [] then [] else userinfo + Codes("@"))
      + HostBrackets(host)
      + (if port == [] then [] else Codes(":") + port)
    }

    function ToAuthority(): Authority {
      Authority(userinfo, userinfo != [], host, if port == [] then None else Some(port))
    }
  }

  lemma OrdinaryServer(s: Server)
    requires s.Ordinary()
    ensures s.ToAuthority().Valid()
  {
    ServerClasses(s);
    hide IsUserinfo, IsName, IsAddress, IsZone, AllUserinfo, AllHost, AllV6, AllZone, Value;
  }

  lemma ServerClasses(s: Server)
    ensures IsUserinfo(s.userinfo) ==> AllUserinfo(s.userinfo)
    ensures s.host.Name? && IsName(s.host.name) ==> AllHost(s.host.name)
    ensures s.host.Address? && IsAddress(s.host.addr) ==> AllV6(s.host.addr)
    ensures s.host.Address? && s.host.zone.Some? && IsZone(s.host.zone.value) ==> AllZone(s.host.zone.value)
  {
    hide Codes, IsUserinfoChar, IsHostChar, IsV6Char, IsZoneChar;
    forall c: byte
      ensures Letter(c) || Digit(c) || c in Codes("!$%&'()*+,-.:;=_~") ==> IsUserinfoChar(c)
      ensures Letter(c) || Digit(c) || c in Codes("-._") ==> IsHostChar(c)
      ensures Digit(c) || 65 <= c <= 70 || 97 <= c <= 102 || c in Codes(".:") ==> IsV6Char(c)
      ensures Letter(c) || Digit(c) || c in Codes("%-._~") ==> IsZoneChar(c)
    {
      UserinfoCharClass(c);
      HostCharClass(c);
      V6CharClass(c);
      ZoneCharClass(c);
    }
  }

  lemma ServerText(s: Server)
    ensures s.ToAuthority().Render() == s.Printed()
  {
    var a := s.ToAuthority();
    HostText(s.host);
    ServerEnds(s);
    hide Codes, Host.Render, HostBrackets, Server.Printed;
    var (w, h) := (a.userinfo + Opt(a.at, AT), a.host.Render());
    Behind(w + h, Opt(a.port.Some?, COLON), a.PortText());
    assert a.Render() == w + h + (Opt(a.port.Some?, COLON) + a.PortText());
  }

  lemma Behind(x: bytes, y: bytes, z: bytes)
    ensures x + y + z == x + (y + z)
  {
  }

  lemma ServerEnds(s: Server)
    ensures var a := s.ToAuthority();
            s.Printed() ==
            (a.userinfo + Opt(a.at, AT)) + HostBrackets(s.host) + (Opt(a.port.Some?, COLON) + a.PortText())
  {
    assert Codes("@") == [AT] && Codes(":") == [COLON];
    hide HostBrackets, Codes;
  }

  lemma HostText(h: Host)
    ensures h.Render() == HostBrackets(h)
  {
    assert Codes("[") == [LBRACKET] && Codes("]") == [RBRACKET] && Codes("%") == [PERCENT];
    hide Codes;
  }

  /** The text of the host between its brackets, if it has any. */
  function HostPrinted(h: Host): bytes {
    match h
    case Name(n) => n
    case Address(a, None) => a
    case Address(a, Some(z)) => a + Codes("%") + z
  }

  /**
    An absolute URL of ordinary parts is found again: every part verbatim, and the
    number of the port.
   */
  lemma PrintParseUrl(schema: bytes, s: Server, t: Tail)
    requires schema != [] && AllLetters(schema) && s.Ordinary() && t.Ordinary(false)
    requires |schema + Codes("://") + s.Printed() + t.Printed()| <= 65535
    ensures var text := schema + Codes("://") + s.Printed() + t.Printed();
            var outcome := Parsed(text, false);
            && outcome.Accepted? && Inside(text, outcome.fields)
            && Text(text, outcome.fields, UF_SCHEMA) == schema
            && Text(text, outcome.fields, UF_USERINFO) == s.userinfo
            && Text(text, outcome.fields, UF_HOST) == HostPrinted(s.host)
            && Text(text, outcome.fields, UF_PORT) == s.port
            && Text(text, outcome.fields, UF_PATH) == t.path
            && Text(text, outcome.fields, UF_QUERY) == t.query
            && Text(text, outcome.fields, UF_FRAGMENT) == t.fragment
            && (s.port == [] ==> outcome.port == 0)
            && (s.port != [] ==> AllDigits(s.port) && outcome.port == Value(s.port))
  {
    var u := UrlOf(schema, Some(s.ToAuthority()), t);
    var text := schema + Codes("://") + s.Printed() + t.Printed();
    UrlDerivable(schema, s, t);
    UrlText(schema, s, t);
    UrlComponents(schema, s, t);
    hide Derivable, Url.Render, Component, Url.PortNumber, Parsed, Server.Printed, Tail.Printed, Codes;
    hide Server.Ordinary, Tail.Ordinary, HostPrinted, AllDigits, Value;
    assert text == u.Render();
    Found(u);
  }

  lemma UrlDerivable(schema: bytes, s: Server, t: Tail)
    requires schema != [] && AllLetters(schema) && s.Ordinary() && t.Ordinary(false)
    ensures Derivable(UrlOf(schema, Some(s.ToAuthority()), t), false)
  {
    LettersAreAlpha(schema);
    OrdinaryServer(s);
    OrdinaryTail(t, false);
    hide AllAlpha, AllLetters, Authority.Valid, Server.Ordinary, Tail.Ordinary, PathText, AllQuery, UrlScan.FragmentText;
  }

  lemma LettersAreAlpha(s: bytes)
    requires AllLetters(s)
    ensures AllAlpha(s)
  {
    forall i | 0 <= i < |s|
      ensures IsAlpha(s[i])
    {
      AlphaClass(s[i]);
    }
  }

  lemma UrlText(schema: bytes, s: Server, t: Tail)
    requires schema != []
    ensures UrlOf(schema, Some(s.ToAuthority()), t).Render() == schema + Codes("://") + s.Printed() + t.Printed()
  {
    var u := UrlOf(schema, Some(s.ToAuthority()), t);
    TailText(schema, Some(s.ToAuthority()), t);
    ServerText(s);
    assert Codes("://") == [COLON, SLASH, SLASH];
    hide Codes, Server.Printed, Tail.Printed, Authority.Render, Url.Render;
    assert u.Prefix() == schema + [COLON, SLASH, SLASH];
    assert u.AuthorityText() == s.Printed();
  }

  lemma UrlComponents(schema: bytes, s: Server, t: Tail)
    requires s.Ordinary()
    ensures var u := UrlOf(schema, Some(s.ToAuthority()), t);
            && Component(u, UF_SCHEMA) == schema && Component(u, UF_USERINFO) == s.userinfo
            && Component(u, UF_HOST) == HostPrinted(s.host) && Component(u, UF_PORT) == s.port
            && Component(u, UF_PATH) == t.path && Component(u, UF_QUERY) == t.query
            && Component(u, UF_FRAGMENT) == t.fragment
            && AllDigits(s.port) && u.PortNumber() == (if s.port == [] then 0 else Value(s.port))
  {
    assert Codes("%") == [PERCENT];
    hide IsUserinfo, IsName, IsAddress, IsZone, Codes;
  }
}
