/**
  The result of http_parser_parse_url as a function of the buffer: which fields
  the two machines mark, and where, in 16-bit members.
 */
module UrlFields {
  import opened Bytes
  import opened Options
  import opened UrlMachine
  import opened UrlScan
  import opened HostScan

  type uint16 = x: int | 0 <= x < 0x1_0000

  const UINT16_MAX := 0xffff
  const ULONG_MAX := 0xffff_ffff_ffff_ffff

  /** Conversion to uint16_t. */
  function Wrap(n: nat): uint16 { n % 0x1_0000 }

  lemma WrapStep(n: nat)
    ensures Wrap(n) <= n
    ensures Wrap(Wrap(n) + 1) == Wrap(n + 1)
  {
  }

  /** The bits of field_set and the indices of field_data. */
  datatype Field = UF_SCHEMA | UF_HOST | UF_PORT | UF_PATH | UF_QUERY | UF_FRAGMENT | UF_USERINFO

  datatype Span = Span(off: uint16, len: uint16)

  /** field_data */
  datatype FieldData = FieldData(
    schema: Span, host: Span, port: Span, path: Span, query: Span, fragment: Span, userinfo: Span)
  {
    function Get(f: Field): Span {
      match f
      case UF_SCHEMA => schema
      case UF_HOST => host
      case UF_PORT => port
      case UF_PATH => path
      case UF_QUERY => query
      case UF_FRAGMENT => fragment
      case UF_USERINFO => userinfo
    }

    function Put(f: Field, s: Span): FieldData {
      match f
      case UF_SCHEMA => this.(schema := s)
      case UF_HOST => this.(host := s)
      case UF_PORT => this.(port := s)
      case UF_PATH => this.(path := s)
      case UF_QUERY => this.(query := s)
      case UF_FRAGMENT => this.(fragment := s)
      case UF_USERINFO => this.(userinfo := s)
    }
  }

  datatype Outcome = Rejected | Accepted(fields: map<Field, Span>, port: uint16)

  // ---------- the C library's strtoul, base 10 ----------

  /** strtoul on the string s, which ends in a NUL: spaces, a sign, digits. */
  function Strtoul(s: bytes): nat {
    var t := SkipSpaces(s);
    var signed := t != [] && (t[0] == DASH || t[0] == PLUS);
    var v := Value(DigitPrefix(if signed then t[1..] else t));
    if v > ULONG_MAX then ULONG_MAX
    else if signed && t[0] == DASH && v > 0 then ULONG_MAX + 1 - v
    else v
  }

  // ---------- what the loops compute ----------

  /** Where the outer loop sees a field: the whole host run counts as the host. */
  function RunAt(o: Outline, f: Field): nat {
    match f
    case UF_SCHEMA => 0
    case UF_HOST => o.ServerAt()
    case UF_PATH => o.PathAt()
    case UF_QUERY => o.QueryAt()
    case UF_FRAGMENT => o.FragmentAt()
    case UF_PORT => 0
    case UF_USERINFO => 0
  }

  function RunLength(o: Outline, f: Field): nat {
    match f
    case UF_SCHEMA => |o.schema|
    case UF_HOST => |o.server|
    case UF_PATH => |o.path|
    case UF_QUERY => |o.query|
    case UF_FRAGMENT => |o.fragment|
    case UF_PORT => 0
    case UF_USERINFO => 0
  }

  /** Where the inner loop sees the fields of a host run that starts at lo. */
  function PieceAt(h: HostOutline, lo: nat, f: Field): nat {
    match f
    case UF_USERINFO => lo
    case UF_HOST => lo + h.HostAt()
    case UF_PORT => lo + h.PortAt()
    case _ => 0
  }

  function PieceLength(h: HostOutline, f: Field): nat {
    match f
    case UF_USERINFO => |h.userinfo|
    case UF_HOST => h.HostLength()
    case UF_PORT => |h.port|
    case _ => 0
  }

  function SpanOf(at: nat, length: nat): Span { Span(Wrap(at), Wrap(length)) }

  /** The fields after both loops: the inner loop's for a host run, the outer loop's otherwise. */
  function Fields(o: Outline, h: HostOutline, lo: nat): map<Field, Span> {
    map f: Field | 0 < (if IsHostField(f) then PieceLength(h, f) else RunLength(o, f)) ::
      if IsHostField(f) then SpanOf(PieceAt(h, lo, f), PieceLength(h, f))
      else SpanOf(RunAt(o, f), RunLength(o, f))
  }

  predicate IsHostField(f: Field) { f in {UF_HOST, UF_PORT, UF_USERINFO} }

  /** The host outline of the run [lo, hi), if the inner loop accepts it. */
  function ParsedHost(buf: bytes, lo: nat, hi: nat, foundAt: bool): Option<HostOutline>
    requires lo <= hi <= |buf|
  {
    match ScanHost(buf[lo..hi], foundAt)
    case None => None
    case Some(h) => if Final(HostStateOf(h, foundAt)) then Some(h) else None
  }

  /** The port number and the checks after http_parse_host has accepted. */
  function Finish(buf: bytes, isConnect: bool, fields: map<Field, Span>): Outcome
    requires UF_PORT in fields ==> fields[UF_PORT].off <= |buf|
  {
    if isConnect && fields.Keys != {UF_HOST, UF_PORT} then Rejected
    else if UF_PORT !in fields then Accepted(fields, 0)
    else
      var v := Strtoul(buf[fields[UF_PORT].off..]);
      if v > UINT16_MAX then Rejected else Accepted(fields, v)
  }

  /** What follows a live outer loop. */
  function ParsedOutline(buf: bytes, isConnect: bool, o: Outline): Outcome
    requires Wrap(o.ServerAt()) + Wrap(|o.server|) <= |buf|
  {
    if o.server == [] then
      if o.schema != [] then Rejected else Finish(buf, isConnect, Fields(o, NO_HOST, 0))
    else
      var lo := Wrap(o.ServerAt());
      match ParsedHost(buf, lo, lo + Wrap(|o.server|), o.FoundAt())
      case None => Rejected
      case Some(h) =>
        PortInside(buf, o, lo, lo + Wrap(|o.server|));
        Finish(buf, isConnect, Fields(o, h, lo))
  }

  /** The result of http_parser_parse_url on any buffer, 16-bit members included. */
  function Parsed(buf: bytes, isConnect: bool): Outcome {
    match Scan(buf, isConnect)
    case None => Rejected
    case Some(o) =>
      RunInside(buf, isConnect);
      ParsedOutline(buf, isConnect, o)
  }

  /** Wrapping only moves the host run towards the front, so it stays inside. */
  lemma RunInside(buf: bytes, isConnect: bool)
    requires Scan(buf, isConnect).Some?
    ensures var o := Scan(buf, isConnect).value;
            Wrap(o.ServerAt()) + Wrap(|o.server|) <= o.ServerAt() + |o.server| <= |buf|
  {
    hide Outline.Text, Step;
    ScanSound(buf, isConnect);
    TextLayout(Scan(buf, isConnect).value);
  }

  lemma PortAtInside(run: bytes, foundAt: bool)
    requires ScanHost(run, foundAt).Some?
    ensures ScanHost(run, foundAt).value.PortAt() <= |run|
  {
    hide HostStep, HostOutline.Text;
    ScanHostSound(run, foundAt);
    HostTextLayout(ScanHost(run, foundAt).value);
  }

  /** The port text, too, starts inside the buffer. */
  lemma PortInside(buf: bytes, o: Outline, lo: nat, hi: nat)
    requires lo <= hi <= |buf|
    ensures match ParsedHost(buf, lo, hi, o.FoundAt())
            case None => true
            case Some(h) => UF_PORT in Fields(o, h, lo) ==> Fields(o, h, lo)[UF_PORT].off <= |buf|
  {
    hide ScanHost, HostStateOf, HostOutline.PortAt, Wrap;
    match ParsedHost(buf, lo, hi, o.FoundAt())
    case None =>
    case Some(h) =>
      PortAtInside(buf[lo..hi], o.FoundAt());
      WrapStep(lo + h.PortAt());
  }
}
