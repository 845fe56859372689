/**
  The URL syntax the parser accepts, as a grammar: derivations, the text each
  of them derives, and the components that text has.  A variant of section 3 of
  RFC 3986, with zone identifiers as in section 2 of RFC 6874.
 */
module UrlGrammar {
  import opened Bytes
  import opened Options
  import opened UrlScan
  import opened HostScan
  import opened UrlFields

  datatype Host =
    | Name(name: bytes)
    | Address(addr: bytes, zone: Option<bytes>)
  {
    /** The host without its brackets. */
    function Text(): bytes {
      match this
      case Name(n) => n
      case Address(a, None) => a
      case Address(a, Some(z)) => a + [PERCENT] + z
    }

    function Render(): bytes {
      if Name? then Text() else [LBRACKET] + Text() + [RBRACKET]
    }

    predicate Valid() {
      match this
      case Name(n) => n != [] && AllHost(n)
      case Address(a, z) => a != [] && AllV6(a) && (z.Some? ==> z.value != [] && AllZone(z.value))
    }
  }

  /** [userinfo "@"] host [":" port]; the "@" may stand without a userinfo. */
  datatype Authority = Authority(userinfo: bytes, at: bool, host: Host, port: Option<bytes>) {
    function BeforePort(): bytes { userinfo + Opt(at, AT) + host.Render() }

    function PortText(): bytes { if port.Some? then port.value else [] }

    function Render(): bytes { BeforePort() + Opt(port.Some?, COLON) + PortText() }

    predicate Valid() {
      && AllUserinfo(userinfo) && (userinfo != [] ==> at)
      && host.Valid()
      && (port.Some? ==> port.value != [] && AllDigits(port.value) && Value(port.value) <= 65535)
    }
  }

  /** One or more "#" and the text after them. */
  datatype Anchor = Anchor(hashes: nat, text: bytes)

  datatype Url = Url(
    schema: bytes, authority: Option<Authority>, path: bytes, query: Option<bytes>, fragment: Option<Anchor>)
  {
    function Prefix(): bytes { schema + Separator(if schema == [] then 0 else 3) }

    function AuthorityText(): bytes { if authority.Some? then authority.value.Render() else [] }

    function QueryText(): bytes { if query.Some? then query.value else [] }

    function Hashes(): nat { if fragment.Some? then fragment.value.hashes else 0 }

    function FragmentText(): bytes { if fragment.Some? then fragment.value.text else [] }

    function BeforeQuery(): bytes { Prefix() + AuthorityText() + path + Opt(query.Some?, QUESTION) }

    /** The text derived. */
    function Render(): bytes { BeforeQuery() + QueryText() + Repeat(HASH, Hashes()) + FragmentText() }

    /** The port number: the value of the port's digits. */
    function PortNumber(): nat {
      if authority.Some? && AllDigits(authority.value.PortText()) then Value(authority.value.PortText()) else 0
    }
  }

  /**
    The grammar.  Outside CONNECT mode a URL is empty, or in origin or asterisk
    form, or absolute.  In CONNECT mode it is "host:port"; a bare "@" before it
    and a bare "?" with any number of "#" after it pass as well.
   */
  predicate Derivable(u: Url, connect: bool) {
    && AllAlpha(u.schema)
    && (connect ==> u.schema == [])
    && (u.authority.Some? <==> u.schema != [] || connect)
    && (u.authority.Some? ==> u.authority.value.Valid())
    && PathText(u.path, u.authority.Some?)
    && (u.query.Some? ==> (u.path != [] || u.authority.Some?) && AllQuery(u.query.value))
    && (u.fragment.Some? ==>
          && (u.path != [] || u.query.Some?)
          && u.fragment.value.hashes > 0
          && UrlScan.FragmentText(u.fragment.value.text))
    && (connect ==>
          && u.authority.value.userinfo == [] && u.authority.value.port.Some?
          && u.path == [] && u.QueryText() == [] && u.FragmentText() == [])
  }

  /** The component a field stands for; empty when the URL has none. */
  function Component(u: Url, f: Field): bytes {
    match f
    case UF_SCHEMA => u.schema
    case UF_USERINFO => if u.authority.Some? then u.authority.value.userinfo else []
    case UF_HOST => if u.authority.Some? then u.authority.value.host.Text() else []
    case UF_PORT => if u.authority.Some? then u.authority.value.PortText() else []
    case UF_PATH => u.path
    case UF_QUERY => u.QueryText()
    case UF_FRAGMENT => u.FragmentText()
  }

  /** The text derived before a component. */
  function Before(u: Url, f: Field): bytes {
    match f
    case UF_SCHEMA => []
    case UF_USERINFO => u.Prefix()
    case UF_HOST =>
      u.Prefix() +
      (if u.authority.Some? then
         var a := u.authority.value; a.userinfo + Opt(a.at, AT) + Opt(a.host.Address?, LBRACKET)
       else [])
    case UF_PORT =>
      u.Prefix() +
      (if u.authority.Some? then u.authority.value.BeforePort() + Opt(u.authority.value.port.Some?, COLON) else [])
    case UF_PATH => u.Prefix() + u.AuthorityText()
    case UF_QUERY => u.BeforeQuery()
    case UF_FRAGMENT => u.BeforeQuery() + u.QueryText() + Repeat(HASH, u.Hashes())
  }

  lemma Behind(p: bytes, x: bytes, y: bytes)
    requires x <= y
    ensures p + x <= p + y
  {
    assert p + y == (p + x) + y[|x|..];
  }

  lemma HostInAuthority(a: Authority)
    ensures a.userinfo + Opt(a.at, AT) + Opt(a.host.Address?, LBRACKET) + a.host.Text() <= a.Render()
  {
    hide Host.Text;
    var w, open, t := a.userinfo + Opt(a.at, AT), Opt(a.host.Address?, LBRACKET), a.host.Text();
    Behind(w, open + t, a.host.Render());
    assert w + (open + t) == (w + open) + t;
  }

  /** Before(u, f) + Component(u, f) is a prefix of the prefix and the authority. */
  lemma ComponentInAuthority(u: Url, f: Field)
    requires IsHostField(f) && u.authority.Some?
    ensures Before(u, f) + Component(u, f) <= u.Prefix() + u.AuthorityText()
  {
    hide Url.Prefix, Host.Text, Host.Render;
    var p, a := u.Prefix(), u.authority.value;
    if f == UF_HOST {
      var w := a.userinfo + Opt(a.at, AT) + Opt(a.host.Address?, LBRACKET);
      HostInAuthority(a);
      hide Authority.Render;
      Behind(p, w + a.host.Text(), a.Render());
      assert p + (w + a.host.Text()) == (p + w) + a.host.Text();
    } else if f == UF_PORT {
      var b := a.BeforePort() + Opt(a.port.Some?, COLON);
      assert p + (b + a.PortText()) == (p + b) + a.PortText();
    } else {
      assert a.userinfo <= a.Render();
      Behind(p, a.userinfo, a.Render());
    }
  }

  lemma HeadInText(u: Url)
    ensures u.Prefix() + u.AuthorityText() <= u.Render()
  {
    hide Url.Prefix, Url.AuthorityText;
  }

  /** A component lies in the text where Before says. */
  lemma ComponentInText(u: Url, f: Field)
    requires Component(u, f) != []
    ensures Before(u, f) + Component(u, f) <= u.Render()
  {
    if IsHostField(f) {
      assert u.authority.Some?;
      hide Before, Component, Url.AuthorityText, Url.Prefix, Url.Render;
      ComponentInAuthority(u, f);
      HeadInText(u);
    } else if f == UF_SCHEMA {
      hide Url.Render;
      SchemaInText(u);
    } else {
      hide Url.Prefix, Url.AuthorityText, Repeat;
    }
  }

  lemma SchemaInText(u: Url)
    ensures u.schema <= u.Render()
  {
    hide Url.AuthorityText;
    assert u.schema <= u.Prefix();
  }
}
