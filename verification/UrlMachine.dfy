/**
  The two transition functions of third-party/url-parser: the outer machine
  that splits a URL into runs, and the inner machine that re-reads the host run.
 */
module UrlMachine {
  import opened Bytes
  import opened UrlChars

  /** The states of the outer machine that a URL can reach, and the dead state. */
  datatype State =
    | Dead
    | SpacesBeforeUrl
    | Schema
    | SchemaSlash
    | SchemaSlashSlash
    | ServerStart
    | Server
    | ServerWithAt
    | Path
    | QueryStart
    | Query
    | FragmentStart
    | Fragment

  /** parse_url_char */
  function ParseUrlChar(s: State, ch: byte): State {
    if ch == SPACE || ch == CR || ch == LF then Dead
    else match s
      case SpacesBeforeUrl =>
        if ch == SLASH || ch == STAR then Path
        else if IsAlpha(ch) then Schema
        else Dead
      case Schema =>
        if IsAlpha(ch) then Schema
        else if ch == COLON then SchemaSlash
        else Dead
      case SchemaSlash => if ch == SLASH then SchemaSlashSlash else Dead
      case SchemaSlashSlash => if ch == SLASH then ServerStart else Dead
      case ServerWithAt => if ch == AT then Dead else ServerChar(ch)
      case ServerStart => ServerChar(ch)
      case Server => ServerChar(ch)
      case Path =>
        if IsUrlChar(ch) then Path
        else if ch == QUESTION then QueryStart
        else if ch == HASH then FragmentStart
        else Dead
      case QueryStart => QueryChar(ch)
      case Query => QueryChar(ch)
      case FragmentStart =>
        if IsUrlChar(ch) || ch == QUESTION then Fragment
        else if ch == HASH then FragmentStart
        else Dead
      case Fragment =>
        if IsUrlChar(ch) || ch == QUESTION || ch == HASH then Fragment
        else Dead
      case Dead => Dead
  }

  /** The branch the three server states share. */
  function ServerChar(ch: byte): State {
    if ch == SLASH then Path
    else if ch == QUESTION then QueryStart
    else if ch == AT then ServerWithAt
    else if IsUserinfoChar(ch) || ch == LBRACKET || ch == RBRACKET then Server
    else Dead
  }

  /** The branch the two query states share. */
  function QueryChar(ch: byte): State {
    if IsUrlChar(ch) || ch == QUESTION then Query
    else if ch == HASH then FragmentStart
    else Dead
  }

  datatype HostState =
    | HostDead
    | UserinfoStart
    | Userinfo
    | HostStart
    | HostV6Start
    | Host
    | HostV6
    | HostV6End
    | HostV6ZoneStart
    | HostV6Zone
    | PortStart
    | Port

  /** http_parse_host_char */
  function ParseHostChar(s: HostState, ch: byte): HostState {
    match s
    case UserinfoStart => UserinfoChar(ch)
    case Userinfo => UserinfoChar(ch)
    case HostStart =>
      if ch == LBRACKET then HostV6Start
      else if IsHostChar(ch) then Host
      else HostDead
    case Host =>
      if IsHostChar(ch) then Host
      else if ch == COLON then PortStart
      else HostDead
    case HostV6End => if ch == COLON then PortStart else HostDead
    case HostV6 =>
      if ch == RBRACKET then HostV6End
      else if IsV6Char(ch) then HostV6
      else if ch == PERCENT then HostV6ZoneStart
      else HostDead
    case HostV6Start => if IsV6Char(ch) then HostV6 else HostDead
    case HostV6Zone =>
      if ch == RBRACKET then HostV6End
      else if IsZoneChar(ch) then HostV6Zone
      else HostDead
    case HostV6ZoneStart => if IsZoneChar(ch) then HostV6Zone else HostDead
    case Port => if IsDigit(ch) then Port else HostDead
    case PortStart => if IsDigit(ch) then Port else HostDead
    case HostDead => HostDead
  }

  function UserinfoChar(ch: byte): HostState {
    if ch == AT then HostStart
    else if IsUserinfoChar(ch) then Userinfo
    else HostDead
  }

  /** The states in which http_parse_host does not reject the end of the run. */
  predicate Final(s: HostState) {
    s in {Host, HostV6End, Port, HostDead}
  }
}
