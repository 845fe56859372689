/**
  http_parser_parse_url and http_parse_host: the two loops that turn machine
  states into offsets, over a struct with 16-bit members.
 */
module UrlParser {
  import opened Bytes
  import opened Options
  import opened UrlChars
  import opened UrlMachine
  import opened UrlScan
  import opened HostScan
  import opened UrlFields

  /** http_parser_url */
  class HttpParserUrl {
    var fieldSet: set<Field>
    var port: uint16
    var fieldData: FieldData

    constructor ()
    {
      fieldSet, port := {}, 0;
      var none := Span(0, 0);
      fieldData := FieldData(none, none, none, none, none, none, none);
    }

    /** What a caller may read: the entries of the fields that are set. */
    function Set(): map<Field, Span>
      reads this
    {
      map f | f in fieldSet :: fieldData.Get(f)
    }
  }

  /** The field a state of the inner machine extends, if any. */
  function HostPiece(s: HostState): Option<Field> {
    match s
    case Userinfo => Some(UF_USERINFO)
    case Host => Some(UF_HOST)
    case HostV6 => Some(UF_HOST)
    case HostV6ZoneStart => Some(UF_HOST)
    case HostV6Zone => Some(UF_HOST)
    case Port => Some(UF_PORT)
    case _ => None
  }

  lemma HostGrowLengths(h: HostOutline, foundAt: bool, s: HostState, ch: byte, f: Field)
    requires HostWellFormed(h, foundAt) && HostEdge(HostStateOf(h, foundAt), ch, s)
    requires IsHostField(f)
    ensures PieceLength(HostGrow(h, s, ch), f) == PieceLength(h, f) + (if HostPiece(s) == Some(f) then 1 else 0)
  {
    hide IsUserinfoChar, IsHostChar, IsV6Char, IsZoneChar, AllUserinfo, AllHost, AllV6, AllZone, AllDigits;
  }

  lemma HostGrowStays(h: HostOutline, foundAt: bool, s: HostState, ch: byte, f: Field)
    requires HostWellFormed(h, foundAt) && HostEdge(HostStateOf(h, foundAt), ch, s)
    requires IsHostField(f) && 0 < PieceLength(h, f)
    ensures PieceAt(HostGrow(h, s, ch), 0, f) == PieceAt(h, 0, f)
  {
    hide IsUserinfoChar, IsHostChar, IsV6Char, IsZoneChar, AllUserinfo, AllHost, AllV6, AllZone, AllDigits;
  }

  lemma HostGrowStarts(h: HostOutline, foundAt: bool, s: HostState, ch: byte, f: Field)
    requires HostWellFormed(h, foundAt) && HostEdge(HostStateOf(h, foundAt), ch, s)
    requires PieceLength(h, f) == 0 && HostPiece(s) == Some(f)
    ensures PieceAt(HostGrow(h, s, ch), 0, f) == |h.Text()|
  {
    hide IsUserinfoChar, IsHostChar, IsV6Char, IsZoneChar, AllUserinfo, AllHost, AllV6, AllZone, AllDigits;
  }

  /** One octet of a host run extends the piece its state names and leaves the others alone. */
  lemma HostGrowPieces(h: HostOutline, foundAt: bool, s: HostState, ch: byte, f: Field)
    requires HostWellFormed(h, foundAt) && HostEdge(HostStateOf(h, foundAt), ch, s)
    requires IsHostField(f)
    ensures var h' := HostGrow(h, s, ch);
            && PieceLength(h', f) == PieceLength(h, f) + (if HostPiece(s) == Some(f) then 1 else 0)
            && (0 < PieceLength(h, f) ==> PieceAt(h', 0, f) == PieceAt(h, 0, f))
            && (PieceLength(h, f) == 0 && HostPiece(s) == Some(f) ==> PieceAt(h', 0, f) == |h.Text()|)
  {
    hide HostWellFormed, HostEdge, HostStateOf, HostGrow, PieceLength, PieceAt, HostOutline.Text;
    HostGrowLengths(h, foundAt, s, ch, f);
    if 0 < PieceLength(h, f) {
      HostGrowStays(h, foundAt, s, ch, f);
    } else if HostPiece(s) == Some(f) {
      HostGrowStarts(h, foundAt, s, ch, f);
    }
  }

  /** One octet of the URL extends the run its state names and leaves the others alone. */
  lemma GrowRuns(o: Outline, connect: bool, s: State, ch: byte, f: Field)
    requires WellFormed(o, connect) && Edge(StateOf(o, connect), ch, s)
    ensures var o' := Grow(o, s, ch);
            && RunLength(o', f) == RunLength(o, f) + (if RunOf(s) == Some(f) then 1 else 0)
            && (0 < RunLength(o, f) ==> RunAt(o', f) == RunAt(o, f))
            && (RunLength(o, f) == 0 && RunOf(s) == Some(f) ==> RunAt(o', f) == |o.Text()|)
  {
    hide IsUrlChar, IsAlpha, IsServerChar, ServerText, PathText, FragmentText, AllQuery, AllAlpha;
  }

  /** The field a state of the outer machine extends; the delimiter states extend none. */
  function RunOf(s: State): Option<Field> {
    match s
    case Schema => Some(UF_SCHEMA)
    case Server => Some(UF_HOST)
    case ServerWithAt => Some(UF_HOST)
    case Path => Some(UF_PATH)
    case Query => Some(UF_QUERY)
    case Fragment => Some(UF_FRAGMENT)
    case _ => None
  }

  /** The field of the last run that is not empty. */
  function LastRun(o: Outline): Option<Field> {
    if o.fragment != [] then Some(UF_FRAGMENT)
    else if o.query != [] then Some(UF_QUERY)
    else if o.path != [] then Some(UF_PATH)
    else if o.server != [] then Some(UF_HOST)
    else if o.schema != [] then Some(UF_SCHEMA)
    else None
  }

  lemma GrowLastRun(o: Outline, connect: bool, s: State, ch: byte)
    requires WellFormed(o, connect) && Edge(StateOf(o, connect), ch, s)
    ensures var o' := Grow(o, s, ch);
            && LastRun(o') == (if RunOf(s).Some? then RunOf(s) else LastRun(o))
            && (RunOf(s).Some? ==> (LastRun(o) == RunOf(s) <==> 0 < RunLength(o, RunOf(s).value)))
            && (AT in o'.server <==> AT in o.server || s == ServerWithAt)
  {
    hide IsUrlChar, IsAlpha, ServerText, PathText, FragmentText, AllQuery, AllAlpha;
  }

  /** The struct agrees with an outline of the URL read so far. */
  ghost predicate AgreesWithRuns(fieldSet: set<Field>, data: FieldData, o: Outline) {
    forall f: Field :: RunHolds(fieldSet, data, o, f)
  }

  ghost predicate RunHolds(fieldSet: set<Field>, data: FieldData, o: Outline, f: Field) {
    && (f in fieldSet <==> 0 < RunLength(o, f))
    && (f in fieldSet ==> data.Get(f) == SpanOf(RunAt(o, f), RunLength(o, f)))
  }

  /** The struct agrees with an outline of the host run at lo, and kept the other fields. */
  ghost predicate AgreesWithPieces(
    fieldSet: set<Field>, data: FieldData, h: HostOutline, lo: nat, set0: set<Field>, data0: FieldData)
  {
    forall f: Field :: PieceHolds(fieldSet, data, h, lo, set0, data0, f)
  }

  ghost predicate PieceHolds(
    fieldSet: set<Field>, data: FieldData, h: HostOutline, lo: nat, set0: set<Field>, data0: FieldData, f: Field)
  {
    if IsHostField(f) then
      && (f in fieldSet <==> f == UF_HOST || 0 < PieceLength(h, f))
      && (0 < PieceLength(h, f) ==> data.Get(f) == SpanOf(PieceAt(h, lo, f), PieceLength(h, f)))
      && (f == UF_HOST && PieceLength(h, f) == 0 ==> data.host.len == 0)
    else
      (f in fieldSet <==> f in set0) && data.Get(f) == data0.Get(f)
  }

  /** A field's entry after one more octet of it, at p. */
  function Longer(data: FieldData, f: Field, first: bool, p: nat): FieldData {
    data.Put(f, if first then Span(Wrap(p), 1) else Span(data.Get(f).off, Wrap(data.Get(f).len + 1)))
  }

  lemma PieceGrows(
    fieldSet: set<Field>, data: FieldData, h: HostOutline, lo: nat, set0: set<Field>, data0: FieldData,
    foundAt: bool, ch: byte, s: HostState, f: Field)
    requires HostWellFormed(h, foundAt) && HostEdge(HostStateOf(h, foundAt), ch, s)
    requires PieceHolds(fieldSet, data, h, lo, set0, data0, f)
    ensures var h' := HostGrow(h, s, ch);
            match HostPiece(s)
            case None => PieceHolds(fieldSet, data, h', lo, set0, data0, f)
            case Some(g) =>
              PieceHolds(fieldSet + {g}, Longer(data, g, PieceLength(h, g) == 0, lo + |h.Text()|),
                         h', lo, set0, data0, f)
  {
    hide HostWellFormed, HostEdge, HostStateOf, HostGrow, HostOutline.Text, PieceLength, PieceAt, HostPiece;
    if IsHostField(f) {
      HostGrowPieces(h, foundAt, s, ch, f);
      WrapStep(PieceLength(h, f));
      PieceAtMoves(h, lo, f);
      PieceAtMoves(HostGrow(h, s, ch), lo, f);
    }
    PieceFields(s);
  }

  lemma PieceFields(s: HostState)
    ensures HostPiece(s).Some? ==> IsHostField(HostPiece(s).value)
  {
  }

  lemma PieceAtMoves(h: HostOutline, lo: nat, f: Field)
    requires IsHostField(f)
    ensures PieceAt(h, lo, f) == lo + PieceAt(h, 0, f)
  {
  }

  lemma PiecesGrow(
    fieldSet: set<Field>, data: FieldData, h: HostOutline, lo: nat, set0: set<Field>, data0: FieldData,
    foundAt: bool, ch: byte, s: HostState)
    requires HostWellFormed(h, foundAt) && HostEdge(HostStateOf(h, foundAt), ch, s)
    requires AgreesWithPieces(fieldSet, data, h, lo, set0, data0)
    ensures var h' := HostGrow(h, s, ch);
            match HostPiece(s)
            case None => AgreesWithPieces(fieldSet, data, h', lo, set0, data0)
            case Some(g) =>
              AgreesWithPieces(fieldSet + {g}, Longer(data, g, PieceLength(h, g) == 0, lo + |h.Text()|),
                               h', lo, set0, data0)
  {
    hide PieceHolds, HostWellFormed, HostEdge, HostStateOf, HostGrow, HostOutline.Text, PieceLength, Longer, HostPiece;
    var h' := HostGrow(h, s, ch);
    var (fieldSet', data') := match HostPiece(s)
      case None => (fieldSet, data)
      case Some(g) => (fieldSet + {g}, Longer(data, g, PieceLength(h, g) == 0, lo + |h.Text()|));
    forall f: Field
      ensures PieceHolds(fieldSet', data', h', lo, set0, data0, f)
    {
      PieceGrows(fieldSet, data, h, lo, set0, data0, foundAt, ch, s, f);
    }
  }

  lemma NothingRead(
    fieldSet: set<Field>, data: FieldData, foundAt: bool, lo: nat, set0: set<Field>, data0: FieldData)
    requires fieldSet == set0 && UF_HOST in set0 && UF_PORT !in set0 && UF_USERINFO !in set0
    requires data == data0.(host := data0.host.(len := 0))
    ensures AgreesWithPieces(fieldSet, data, NO_HOST, lo, set0, data0)
    ensures HostStateOf(NO_HOST, foundAt) == if foundAt then UserinfoStart else HostStart
    ensures ScanHost([], foundAt) == Some(NO_HOST)
  {
  }

  /** The loop's tests on the previous state detect the first octet of a piece. */
  lemma StartsPiece(
    fieldSet: set<Field>, data: FieldData, h: HostOutline, foundAt: bool, lo: nat,
    set0: set<Field>, data0: FieldData, s: HostState, ch: byte)
    requires HostWellFormed(h, foundAt) && HostEdge(HostStateOf(h, foundAt), ch, s)
    requires AgreesWithPieces(fieldSet, data, h, lo, set0, data0)
    ensures UF_HOST in fieldSet
    ensures match HostPiece(s)
            case None => true
            case Some(f) =>
              && (PieceLength(h, f) == 0 <==> HostStateOf(h, foundAt) != s && s != HostV6ZoneStart && s != HostV6Zone)
              && (0 < PieceLength(h, f) ==> f in fieldSet)
              && (PieceLength(h, f) == 0 && f == UF_HOST ==> data.host.len == 0)
  {
    hide IsUserinfoChar, IsHostChar, IsV6Char, IsZoneChar, AllUserinfo, AllHost, AllV6, AllZone, AllDigits;
    assert PieceHolds(fieldSet, data, h, lo, set0, data0, UF_HOST);
    assert PieceHolds(fieldSet, data, h, lo, set0, data0, UF_PORT);
    assert PieceHolds(fieldSet, data, h, lo, set0, data0, UF_USERINFO);
  }

  /** What one iteration of http_parse_host keeps. */
  lemma HostLoopStep(
    buf: bytes, lo: nat, p: nat, foundAt: bool, h: HostOutline,
    fieldSet: set<Field>, data: FieldData, set0: set<Field>, data0: FieldData)
    requires lo <= p < |buf|
    requires ScanHost(buf[lo..p], foundAt) == Some(h)
    requires AgreesWithPieces(fieldSet, data, h, lo, set0, data0)
    requires ParseHostChar(HostStateOf(h, foundAt), buf[p]) != HostDead
    ensures var s := HostStateOf(h, foundAt);
            var newS := ParseHostChar(s, buf[p]);
            var h' := HostGrow(h, newS, buf[p]);
            && ScanHost(buf[lo..p + 1], foundAt) == Some(h')
            && HostStateOf(h', foundAt) == newS
            && match HostPiece(newS)
               case None => AgreesWithPieces(fieldSet, data, h', lo, set0, data0)
               case Some(f) =>
                 var first := s != newS && newS != HostV6ZoneStart && newS != HostV6Zone;
                 && (f in fieldSet || (first && f != UF_HOST))
                 && (first && f == UF_HOST ==> data.host.len == 0)
                 && AgreesWithPieces(fieldSet + {f}, Longer(data, f, first, p), h', lo, set0, data0)
  {
    hide HostWellFormed, HostEdge, HostGrow, HostStateOf, HostOutline.Text, PieceLength, PieceAt;
    hide AgreesWithPieces, ParseHostChar, Longer;
    assert buf[lo..p + 1][..p - lo] == buf[lo..p];
    var s := HostStateOf(h, foundAt);
    var newS := ParseHostChar(s, buf[p]);
    ScanHostSound(buf[lo..p], foundAt);
    assert HostStep(h, foundAt, buf[p]).Some?;
    HostStepKeeps(h, foundAt, buf[p]);
    EdgesOfTheHostMachine(s, buf[p], newS);
    StartsPiece(fieldSet, data, h, foundAt, lo, set0, data0, newS, buf[p]);
    PiecesGrow(fieldSet, data, h, lo, set0, data0, foundAt, buf[p], newS);
  }

  lemma HostLoopDies(buf: bytes, lo: nat, p: nat, hi: nat, foundAt: bool, h: HostOutline)
    requires lo <= p < hi <= |buf|
    requires ScanHost(buf[lo..p], foundAt) == Some(h)
    requires ParseHostChar(HostStateOf(h, foundAt), buf[p]) == HostDead
    ensures ScanHost(buf[lo..hi], foundAt) == None
  {
    hide HostGrow, HostStateOf, ParseHostChar;
    assert buf[lo..p + 1][..p - lo] == buf[lo..p];
    assert buf[lo..hi][..p + 1 - lo] == buf[lo..p + 1];
    ScanHostDead(buf[lo..hi], p + 1 - lo, foundAt);
  }

  /** http_parse_host: re-read the host run and rewrite HOST, USERINFO and PORT in place. */
  method HttpParseHost(buf: bytes, u: HttpParserUrl, foundAt: bool) returns (rv: int)
    requires UF_HOST in u.fieldSet && UF_PORT !in u.fieldSet && UF_USERINFO !in u.fieldSet
    requires u.fieldData.host.off + u.fieldData.host.len <= |buf|
    modifies u
    ensures u.port == old(u.port)
    ensures var run := old(u.fieldData.host);
            var h := ParsedHost(buf, run.off, run.off + run.len, foundAt);
            && rv == (if h.Some? then 0 else 1)
            && (h.Some? ==> AgreesWithPieces(u.fieldSet, u.fieldData, h.value, run.off,
                                             old(u.fieldSet), old(u.fieldData)))
  {
    hide ScanHost, ParseHostChar, HostGrow, HostStateOf, AgreesWithPieces;
    var lo: nat := u.fieldData.host.off;
    var buflen := lo + u.fieldData.host.len;
    u.fieldData := u.fieldData.(host := u.fieldData.host.(len := 0));
    var s := if foundAt then UserinfoStart else HostStart;
    var p := lo;
    ghost var h := NO_HOST;
    ghost var (set0, data0) := (old(u.fieldSet), old(u.fieldData));
    NothingRead(u.fieldSet, u.fieldData, foundAt, lo, set0, data0);
    assert buf[lo..lo] == [];
    while p < buflen
      invariant lo <= p <= buflen
      invariant u.port == old(u.port)
      invariant ScanHost(buf[lo..p], foundAt) == Some(h)
      invariant s == HostStateOf(h, foundAt)
      invariant AgreesWithPieces(u.fieldSet, u.fieldData, h, lo, set0, data0)
    {
      var newS := ParseHostChar(s, buf[p]);
      if newS == HostDead {
        HostLoopDies(buf, lo, p, buflen, foundAt, h);
        return 1;
      }
      HostLoopStep(buf, lo, p, foundAt, h, u.fieldSet, u.fieldData, set0, data0);
      ghost var set1 := u.fieldSet;
      AdvanceHost(u, s, newS, p);
      assert HostPiece(newS).Some? ==> u.fieldSet == set1 + {HostPiece(newS).value};
      h := HostGrow(h, newS, buf[p]);
      s := newS;
      p := p + 1;
    }
    return if s in {HostStart, HostV6Start, HostV6, HostV6ZoneStart, HostV6Zone, PortStart, Userinfo, UserinfoStart}
      then 1 else 0;
  }

  /** The switch in the loop of http_parse_host, for a transition from s to newS at offset p. */
  method AdvanceHost(u: HttpParserUrl, s: HostState, newS: HostState, p: nat)
    modifies u
    ensures u.port == old(u.port)
    ensures match HostPiece(newS)
            case None => u.fieldSet == old(u.fieldSet) && u.fieldData == old(u.fieldData)
            case Some(f) =>
              var first := s != newS && newS != HostV6ZoneStart && newS != HostV6Zone;
              && u.fieldSet == old(u.fieldSet) + (if first && f != UF_HOST then {f} else {})
              && (f != UF_HOST || !first || old(u.fieldData.host.len) == 0 ==>
                    u.fieldData == old(Longer(u.fieldData, f, first, p)))
  {
    match newS {
      case Host =>
        if s != Host {
          u.fieldData := u.fieldData.(host := u.fieldData.host.(off := Wrap(p)));
        }
        u.fieldData := u.fieldData.(host := u.fieldData.host.(len := Wrap(u.fieldData.host.len + 1)));
      case HostV6 =>
        if s != HostV6 {
          u.fieldData := u.fieldData.(host := u.fieldData.host.(off := Wrap(p)));
        }
        u.fieldData := u.fieldData.(host := u.fieldData.host.(len := Wrap(u.fieldData.host.len + 1)));
      case HostV6ZoneStart =>
        u.fieldData := u.fieldData.(host := u.fieldData.host.(len := Wrap(u.fieldData.host.len + 1)));
      case HostV6Zone =>
        u.fieldData := u.fieldData.(host := u.fieldData.host.(len := Wrap(u.fieldData.host.len + 1)));
      case Port =>
        if s != Port {
          u.fieldData := u.fieldData.(port := Span(Wrap(p), 0));
          u.fieldSet := u.fieldSet + {UF_PORT};
        }
        u.fieldData := u.fieldData.(port := u.fieldData.port.(len := Wrap(u.fieldData.port.len + 1)));
      case Userinfo =>
        if s != Userinfo {
          u.fieldData := u.fieldData.(userinfo := Span(Wrap(p), 0));
          u.fieldSet := u.fieldSet + {UF_USERINFO};
        }
        u.fieldData := u.fieldData.(userinfo := u.fieldData.userinfo.(len := Wrap(u.fieldData.userinfo.len + 1)));
      case _ =>
    }
  }

  lemma RunsGrow(fieldSet: set<Field>, data: FieldData, o: Outline, connect: bool, s: State, ch: byte)
    requires WellFormed(o, connect) && Edge(StateOf(o, connect), ch, s)
    requires AgreesWithRuns(fieldSet, data, o)
    ensures match RunOf(s)
            case None => AgreesWithRuns(fieldSet, data, Grow(o, s, ch))
            case Some(f) =>
              AgreesWithRuns(fieldSet + {f}, Longer(data, f, RunLength(o, f) == 0, |o.Text()|), Grow(o, s, ch))
  {
    hide WellFormed, Edge, StateOf, Grow, Outline.Text, RunLength, RunAt, RunOf;
    var o' := Grow(o, s, ch);
    var (fieldSet', data') := match RunOf(s)
      case None => (fieldSet, data)
      case Some(g) => (fieldSet + {g}, Longer(data, g, RunLength(o, g) == 0, |o.Text()|));
    forall f: Field
      ensures RunHolds(fieldSet', data', o', f)
    {
      assert RunHolds(fieldSet, data, o, f);
      GrowRuns(o, connect, s, ch, f);
      WrapStep(RunLength(o, f));
    }
  }

  /** What one iteration of http_parser_parse_url keeps. */
  lemma LoopStep(buf: bytes, p: nat, connect: bool, o: Outline, fieldSet: set<Field>, data: FieldData)
    requires p < |buf|
    requires Scan(buf[..p], connect) == Some(o)
    requires AgreesWithRuns(fieldSet, data, o)
    requires ParseUrlChar(StateOf(o, connect), buf[p]) != Dead
    ensures var s := ParseUrlChar(StateOf(o, connect), buf[p]);
            var o' := Grow(o, s, buf[p]);
            && s != SpacesBeforeUrl
            && Scan(buf[..p + 1], connect) == Some(o')
            && StateOf(o', connect) == s
            && LastRun(o') == (if RunOf(s).Some? then RunOf(s) else LastRun(o))
            && (AT in o'.server <==> AT in o.server || s == ServerWithAt)
            && match RunOf(s)
               case None => AgreesWithRuns(fieldSet, data, o')
               case Some(f) =>
                 var first := LastRun(o) != Some(f);
                 && (!first ==> f in fieldSet)
                 && AgreesWithRuns(fieldSet + {f}, Longer(data, f, first, p), o')
  {
    hide WellFormed, Edge, Grow, StateOf, Outline.Text, RunLength, RunAt, AgreesWithRuns, ParseUrlChar, Longer, LastRun;
    assert buf[..p + 1][..p] == buf[..p];
    var s := ParseUrlChar(StateOf(o, connect), buf[p]);
    ScanSound(buf[..p], connect);
    assert Step(o, connect, buf[p]).Some?;
    StepKeeps(o, connect, buf[p]);
    EdgesOfTheMachine(StateOf(o, connect), buf[p], s);
    GrowLastRun(o, connect, s, buf[p]);
    RunsGrow(fieldSet, data, o, connect, s, buf[p]);
    if RunOf(s).Some? {
      RunInSet(fieldSet, data, o, RunOf(s).value);
    }
    NoEdgeBack(StateOf(o, connect), buf[p]);
  }

  lemma RunInSet(fieldSet: set<Field>, data: FieldData, o: Outline, f: Field)
    requires AgreesWithRuns(fieldSet, data, o)
    ensures f in fieldSet <==> 0 < RunLength(o, f)
  {
    assert RunHolds(fieldSet, data, o, f);
  }

  lemma NoEdgeBack(s0: State, ch: byte)
    ensures ParseUrlChar(s0, ch) != SpacesBeforeUrl
  {
  }

  lemma LoopDies(buf: bytes, p: nat, connect: bool, o: Outline)
    requires p < |buf|
    requires Scan(buf[..p], connect) == Some(o)
    requires ParseUrlChar(StateOf(o, connect), buf[p]) == Dead
    ensures Scan(buf, connect) == None
  {
    hide Grow, StateOf, ParseUrlChar;
    assert buf[..p + 1][..p] == buf[..p];
    ScanDead(buf, p + 1, connect);
  }

  lemma NothingScanned(connect: bool, data: FieldData)
    ensures Scan([], connect) == Some(EMPTY)
    ensures StateOf(EMPTY, connect) == if connect then ServerStart else SpacesBeforeUrl
    ensures LastRun(EMPTY) == None && AT !in EMPTY.server
    ensures AgreesWithRuns({}, data, EMPTY)
  {
  }

  /** The struct after both loops, as a map. */
  lemma FieldsAgree(
    fieldSet: set<Field>, data: FieldData, o: Outline, h: HostOutline, lo: nat, set0: set<Field>, data0: FieldData)
    requires AgreesWithRuns(set0, data0, o)
    requires AgreesWithPieces(fieldSet, data, h, lo, set0, data0)
    requires 0 < h.HostLength()
    ensures (map f | f in fieldSet :: data.Get(f)) == Fields(o, h, lo)
  {
    hide PieceLength, PieceAt, RunAt, RunLength, FieldData.Get, SpanOf;
    var left, right := (map f | f in fieldSet :: data.Get(f)), Fields(o, h, lo);
    HostPieceLength(h);
    forall f: Field
      ensures f in left <==> f in right
      ensures f in left ==> left[f] == right[f]
    {
      assert RunHolds(set0, data0, o, f);
      assert PieceHolds(fieldSet, data, h, lo, set0, data0, f);
    }
  }

  lemma HostPieceLength(h: HostOutline)
    ensures PieceLength(h, UF_HOST) == h.HostLength()
  {
  }

  lemma FieldsWithoutHost(fieldSet: set<Field>, data: FieldData, o: Outline)
    requires AgreesWithRuns(fieldSet, data, o) && o.server == []
    ensures (map f | f in fieldSet :: data.Get(f)) == Fields(o, NO_HOST, 0)
  {
    hide PieceAt, RunAt, FieldData.Get, SpanOf;
    var left, right := (map f | f in fieldSet :: data.Get(f)), Fields(o, NO_HOST, 0);
    forall f: Field
      ensures f in left <==> f in right
      ensures f in left ==> left[f] == right[f]
    {
      assert RunHolds(fieldSet, data, o, f);
    }
  }

  lemma AcceptedHasHost(run: bytes, foundAt: bool)
    requires ScanHost(run, foundAt).Some? && Final(HostStateOf(ScanHost(run, foundAt).value, foundAt))
    ensures 0 < ScanHost(run, foundAt).value.HostLength()
  {
    ScanHostSound(run, foundAt);
  }

  /** http_parser_parse_url */
  method HttpParserParseUrl(buf: bytes, isConnect: bool, u: HttpParserUrl) returns (rv: int)
    modifies u
    ensures Parsed(buf, isConnect) == if rv == 0 then Accepted(u.Set(), u.port) else Rejected
    ensures rv == 0 || rv == 1
  {
    hide Scan, ParseUrlChar, Grow, StateOf, AgreesWithRuns, AgreesWithPieces, LastRun, Strtoul, Longer;
    hide Fields, ParsedHost, Outline.ServerAt;
    var foundAt := false;
    u.port, u.fieldSet := 0, {};
    var s := if isConnect then ServerStart else SpacesBeforeUrl;
    var oldUf: Option<Field> := None;
    ghost var o := EMPTY;
    NothingScanned(isConnect, u.fieldData);
    assert buf[..0] == [];
    for p := 0 to |buf|
      invariant Scan(buf[..p], isConnect) == Some(o)
      invariant s == StateOf(o, isConnect)
      invariant oldUf == LastRun(o)
      invariant foundAt == (AT in o.server)
      invariant AgreesWithRuns(u.fieldSet, u.fieldData, o)
      invariant u.port == 0
    {
      var newS := ParseUrlChar(s, buf[p]);
      if newS == Dead {
        LoopDies(buf, p, isConnect, o);
        return 1;
      }
      LoopStep(buf, p, isConnect, o, u.fieldSet, u.fieldData);
      ghost var o' := Grow(o, newS, buf[p]);
      ghost var set0 := u.fieldSet;
      s := newS;
      if s == ServerWithAt {
        foundAt := true;
      }
      o := o';
      var run := RunOf(s);
      if run.Some? {
        var uf := run.value;
        LongerIs(u.fieldData, uf, p);
        if run == oldUf {
          u.fieldData := u.fieldData.Put(uf, u.fieldData.Get(uf).(len := Wrap(u.fieldData.Get(uf).len + 1)));
          assert u.fieldSet == set0 + {uf};
        } else {
          u.fieldData := u.fieldData.Put(uf, Span(Wrap(p), 1));
          u.fieldSet := u.fieldSet + {uf};
          oldUf := Some(uf);
        }
      }
    }
    assert buf[..|buf|] == buf;
    RunInside(buf, isConnect);
    RunInSet(u.fieldSet, u.fieldData, o, UF_SCHEMA);
    RunInSet(u.fieldSet, u.fieldData, o, UF_HOST);
    if UF_SCHEMA in u.fieldSet && UF_HOST !in u.fieldSet {
      return 1;
    }
    if UF_HOST in u.fieldSet {
      ghost var (set0, data0) := (u.fieldSet, u.fieldData);
      HostRunHolds(set0, data0, o);
      var failed := HttpParseHost(buf, u, foundAt);
      if failed != 0 {
        return 1;
      }
      ghost var lo: nat := data0.host.off;
      ghost var h := ParsedHost(buf, lo, lo + data0.host.len, foundAt).value;
      ParsedHostHasHost(buf, lo, lo + data0.host.len, foundAt);
      FieldsAgree(u.fieldSet, u.fieldData, o, h, lo, set0, data0);
      PortInside(buf, o, lo, lo + data0.host.len);
      assert u.Set() == Fields(o, h, lo);
      assert UF_PORT in u.fieldSet ==> u.Set()[UF_PORT] == u.fieldData.port;
    } else {
      FieldsWithoutHost(u.fieldSet, u.fieldData, o);
      RunInSet(u.fieldSet, u.fieldData, o, UF_PORT);
    }
    if isConnect && u.fieldSet != {UF_HOST, UF_PORT} {
      return 1;
    }
    if UF_PORT in u.fieldSet {
      var v := Strtoul(buf[u.fieldData.port.off..]);
      if v > UINT16_MAX {
        return 1;
      }
      u.port := v;
    }
    return 0;
  }

  lemma LongerIs(data: FieldData, f: Field, p: nat)
    ensures Longer(data, f, true, p) == data.Put(f, Span(Wrap(p), 1))
    ensures Longer(data, f, false, p) == data.Put(f, data.Get(f).(len := Wrap(data.Get(f).len + 1)))
  {
  }

  lemma HostRunHolds(fieldSet: set<Field>, data: FieldData, o: Outline)
    requires AgreesWithRuns(fieldSet, data, o) && o.server != []
    ensures data.host == Span(Wrap(o.ServerAt()), Wrap(|o.server|))
    ensures UF_PORT !in fieldSet && UF_USERINFO !in fieldSet
  {
    assert RunHolds(fieldSet, data, o, UF_HOST);
    assert RunHolds(fieldSet, data, o, UF_PORT);
    assert RunHolds(fieldSet, data, o, UF_USERINFO);
  }

  lemma ParsedHostHasHost(buf: bytes, lo: nat, hi: nat, foundAt: bool)
    requires lo <= hi <= |buf| && ParsedHost(buf, lo, hi, foundAt).Some?
    ensures 0 < ParsedHost(buf, lo, hi, foundAt).value.HostLength()
  {
    AcceptedHasHost(buf[lo..hi], foundAt);
  }
}
