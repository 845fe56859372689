/**
  What the inner machine reads in a host run, by the method of UrlScan: the
  runs that stay alive are in bijection with the well-formed host outlines.
 */
module HostScan {
  import opened Bytes
  import opened Options
  import opened UrlChars
  import opened UrlMachine
  import opened UrlScan

  /** The text userinfo ["@"] ["["] addr ["%"] zone ["]"] name [":"] port. */
  datatype HostOutline = HostOutline(
    userinfo: bytes, at: bool, open: bool, addr: bytes, pct: bool, zone: bytes, close: bool,
    name: bytes, colon: bool, port: bytes)
  {
    function ThroughAt(): bytes { userinfo + Opt(at, AT) }
    function ThroughAddr(): bytes { ThroughAt() + Opt(open, LBRACKET) + addr }
    function ThroughZone(): bytes { ThroughAddr() + Opt(pct, PERCENT) + zone }
    function ThroughHost(): bytes { ThroughZone() + Opt(close, RBRACKET) + name }
    function Text(): bytes { ThroughHost() + Opt(colon, COLON) + port }

    // Where the HOST and PORT pieces lie in the text.
    function HostAt(): nat { |ThroughAt()| + |Opt(open, LBRACKET)| }
    function HostLength(): nat { |addr| + |Opt(pct, PERCENT)| + |zone| + |name| }
    function PortAt(): nat { |ThroughHost()| + |Opt(colon, COLON)| }
  }

  const NO_HOST := HostOutline([], false, false, [], false, [], false, [], false, [])

  predicate AllUserinfo(s: bytes) { forall i | 0 <= i < |s| :: IsUserinfoChar(s[i]) }

  predicate AllHost(s: bytes) { forall i | 0 <= i < |s| :: IsHostChar(s[i]) }

  predicate AllV6(s: bytes) { forall i | 0 <= i < |s| :: IsV6Char(s[i]) }

  predicate AllZone(s: bytes) { forall i | 0 <= i < |s| :: IsZoneChar(s[i]) }

  /** The texts on which the inner machine is alive. */
  predicate HostWellFormed(h: HostOutline, foundAt: bool) {
    && AllUserinfo(h.userinfo) && (h.userinfo != [] ==> foundAt)
    && (h.at ==> foundAt)
    && (h.open || h.name != [] ==> h.at == foundAt)
    && AllV6(h.addr) && (h.addr != [] ==> h.open)
    && (h.pct ==> h.addr != [])
    && AllZone(h.zone) && (h.zone != [] ==> h.pct)
    && (h.close ==> h.addr != [] && (h.pct ==> h.zone != []))
    && AllHost(h.name) && (h.name != [] ==> !h.open)
    && (h.colon ==> h.name != [] || h.close)
    && AllDigits(h.port) && (h.port != [] ==> h.colon)
  }

  function HostStateOf(h: HostOutline, foundAt: bool): HostState {
    if h.port != [] then Port
    else if h.colon then PortStart
    else if h.name != [] then Host
    else if h.close then HostV6End
    else if h.zone != [] then HostV6Zone
    else if h.pct then HostV6ZoneStart
    else if h.addr != [] then HostV6
    else if h.open then HostV6Start
    else if h.at == foundAt then HostStart
    else if h.userinfo != [] then Userinfo
    else UserinfoStart
  }

  function HostGrow(h: HostOutline, s: HostState, ch: byte): HostOutline {
    match s
    case Userinfo => h.(userinfo := h.userinfo + [ch])
    case HostStart => h.(at := true)
    case HostV6Start => h.(open := true)
    case HostV6 => h.(addr := h.addr + [ch])
    case HostV6ZoneStart => h.(pct := true)
    case HostV6Zone => h.(zone := h.zone + [ch])
    case HostV6End => h.(close := true)
    case Host => h.(name := h.name + [ch])
    case PortStart => h.(colon := true)
    case Port => h.(port := h.port + [ch])
    case UserinfoStart => h
    case HostDead => h
  }

  function HostStep(h: HostOutline, foundAt: bool, ch: byte): Option<HostOutline> {
    var s := ParseHostChar(HostStateOf(h, foundAt), ch);
    if s == HostDead then None else Some(HostGrow(h, s, ch))
  }

  /** The outline the inner machine has read after all of run, or None if it died. */
  function ScanHost(run: bytes, foundAt: bool): Option<HostOutline> {
    if run == [] then Some(NO_HOST)
    else
      var n := |run| - 1;
      match ScanHost(run[..n], foundAt)
      case None => None
      case Some(h) => HostStep(h, foundAt, run[n])
  }

  /** The live transitions of the inner machine, read backwards. */
  predicate HostEdge(s0: HostState, ch: byte, s: HostState) {
    match s
    case Userinfo => s0 in {UserinfoStart, Userinfo} && IsUserinfoChar(ch)
    case HostStart => s0 in {UserinfoStart, Userinfo} && ch == AT
    case HostV6Start => s0 == HostStart && ch == LBRACKET
    case HostV6 => s0 in {HostV6Start, HostV6} && IsV6Char(ch)
    case HostV6ZoneStart => s0 == HostV6 && ch == PERCENT
    case HostV6Zone => s0 in {HostV6ZoneStart, HostV6Zone} && IsZoneChar(ch)
    case HostV6End => s0 in {HostV6, HostV6Zone} && ch == RBRACKET
    case Host => s0 in {HostStart, Host} && IsHostChar(ch)
    case PortStart => s0 in {Host, HostV6End} && ch == COLON
    case Port => s0 in {PortStart, Port} && IsDigit(ch)
    case UserinfoStart => false
    case HostDead => false
  }

  lemma EdgesOfTheHostMachine(s0: HostState, ch: byte, s: HostState)
    ensures s == ParseHostChar(s0, ch) != HostDead <==> HostEdge(s0, ch, s)
  {
    AlphaClass(ch);
  }

  /** The pieces after the one that s fills are empty. */
  predicate HostOpen(h: HostOutline, s: HostState) {
    && (s != Port ==> h.port == [] && !h.colon)
    && (s !in {Port, PortStart, Host} ==> h.name == [])
    && (s !in {Port, PortStart} ==> !h.close)
    && (s == Host ==> !h.open && h.addr == [] && !h.pct && h.zone == [])
    && (s in {Userinfo, HostStart, HostV6Start} ==> !h.open && h.addr == [])
    && (s in {Userinfo, HostStart, HostV6Start, HostV6, HostV6ZoneStart} ==> !h.pct && h.zone == [])
    && (s in {Userinfo, HostStart} ==> !h.at)
  }

  lemma HostEdgeOpens(h: HostOutline, foundAt: bool, s: HostState, ch: byte)
    requires HostWellFormed(h, foundAt) && HostEdge(HostStateOf(h, foundAt), ch, s)
    ensures HostOpen(h, s) || s == Port
  {
    hide IsUserinfoChar, IsHostChar, IsV6Char, IsZoneChar, AllUserinfo, AllHost, AllV6, AllZone, AllDigits;
  }

  predicate FitsHostState(s: HostState, ch: byte) {
    && s != HostDead && s != UserinfoStart
    && (s == HostStart ==> ch == AT)
    && (s == HostV6Start ==> ch == LBRACKET)
    && (s == HostV6ZoneStart ==> ch == PERCENT)
    && (s == HostV6End ==> ch == RBRACKET)
    && (s == PortStart ==> ch == COLON)
  }

  lemma HostGrowFront(h: HostOutline, s: HostState, ch: byte)
    requires HostOpen(h, s) && FitsHostState(s, ch)
    requires s in {Userinfo, HostStart, HostV6Start, HostV6}
    ensures HostGrow(h, s, ch).ThroughZone() == h.ThroughZone() + [ch]
  {
    var h' := HostGrow(h, s, ch);
    assert h.ThroughZone() == h.ThroughAddr() && h'.ThroughZone() == h'.ThroughAddr();
    if s != HostV6 && s != HostV6Start {
      assert h.ThroughAddr() == h.ThroughAt() && h'.ThroughAddr() == h'.ThroughAt();
    }
  }

  lemma HostGrowBack(h: HostOutline, s: HostState, ch: byte)
    requires HostOpen(h, s) && FitsHostState(s, ch)
    requires s in {HostV6ZoneStart, HostV6Zone}
    ensures HostGrow(h, s, ch).ThroughZone() == h.ThroughZone() + [ch]
  {
  }

  lemma HostGrowEnd(h: HostOutline, s: HostState, ch: byte)
    requires HostOpen(h, s) || s == Port
    requires FitsHostState(s, ch)
    requires s in {HostV6End, Host, PortStart, Port}
    ensures HostGrow(h, s, ch).Text() == h.Text() + [ch]
  {
    var h' := HostGrow(h, s, ch);
    assert h'.ThroughZone() == h.ThroughZone();
    hide HostOutline.ThroughZone;
    Append3(h.ThroughZone(), Opt(h.close, RBRACKET), h.name, ch);
    Append3(h.ThroughHost(), Opt(h.colon, COLON), h.port, ch);
    if s != Port && s != PortStart {
      assert h.Text() == h.ThroughHost() && h'.Text() == h'.ThroughHost();
    }
  }

  /** Adding one octet to the last piece adds it to the text. */
  lemma HostGrowText(h: HostOutline, s: HostState, ch: byte)
    requires HostOpen(h, s) || s == Port
    requires FitsHostState(s, ch)
    ensures HostGrow(h, s, ch).Text() == h.Text() + [ch]
  {
    var h' := HostGrow(h, s, ch);
    if s in {HostV6End, Host, PortStart, Port} {
      HostGrowEnd(h, s, ch);
    } else {
      hide HostOutline.ThroughZone;
      assert h.Text() == h.ThroughZone() && h'.Text() == h'.ThroughZone();
      if s == HostV6Zone || s == HostV6ZoneStart {
        HostGrowBack(h, s, ch);
      } else {
        HostGrowFront(h, s, ch);
      }
    }
  }

  lemma HostGrowState(h: HostOutline, foundAt: bool, s: HostState, ch: byte)
    requires HostWellFormed(h, foundAt) && HostEdge(HostStateOf(h, foundAt), ch, s)
    ensures HostStateOf(HostGrow(h, s, ch), foundAt) == s
  {
    hide IsUserinfoChar, IsHostChar, IsV6Char, IsZoneChar, AllUserinfo, AllHost, AllV6, AllZone, AllDigits;
  }

  lemma HostGrowWellFormed(h: HostOutline, foundAt: bool, s: HostState, ch: byte)
    requires HostWellFormed(h, foundAt) && HostEdge(HostStateOf(h, foundAt), ch, s)
    ensures HostWellFormed(HostGrow(h, s, ch), foundAt)
  {
    hide IsUserinfoChar, IsHostChar, IsV6Char, IsZoneChar;
  }

  /** One live step keeps host outlines well formed, tracks the state and reads one octet. */
  lemma HostStepKeeps(h: HostOutline, foundAt: bool, ch: byte)
    requires HostWellFormed(h, foundAt)
    requires HostStep(h, foundAt, ch).Some?
    ensures var h' := HostStep(h, foundAt, ch).value;
            && HostWellFormed(h', foundAt)
            && HostStateOf(h', foundAt) == ParseHostChar(HostStateOf(h, foundAt), ch)
            && h'.Text() == h.Text() + [ch]
  {
    hide ParseHostChar, HostGrow, HostStateOf, HostWellFormed, HostOpen, HostOutline.Text;
    var s := ParseHostChar(HostStateOf(h, foundAt), ch);
    EdgesOfTheHostMachine(HostStateOf(h, foundAt), ch, s);
    HostGrowState(h, foundAt, s, ch);
    HostEdgeOpens(h, foundAt, s, ch);
    HostGrowText(h, s, ch);
    HostGrowWellFormed(h, foundAt, s, ch);
  }

  /** The outline without its last octet, and that octet. */
  function HostShrink(h: HostOutline): (HostOutline, byte)
    requires h != NO_HOST
  {
    if h.port != [] then (h.(port := h.port[..|h.port| - 1]), h.port[|h.port| - 1])
    else if h.colon then (h.(colon := false), COLON)
    else if h.name != [] then (h.(name := h.name[..|h.name| - 1]), h.name[|h.name| - 1])
    else if h.close then (h.(close := false), RBRACKET)
    else if h.zone != [] then (h.(zone := h.zone[..|h.zone| - 1]), h.zone[|h.zone| - 1])
    else if h.pct then (h.(pct := false), PERCENT)
    else if h.addr != [] then (h.(addr := h.addr[..|h.addr| - 1]), h.addr[|h.addr| - 1])
    else if h.open then (h.(open := false), LBRACKET)
    else if h.at then (h.(at := false), AT)
    else (h.(userinfo := h.userinfo[..|h.userinfo| - 1]), h.userinfo[|h.userinfo| - 1])
  }

  lemma HostShrinkWellFormed(h: HostOutline, foundAt: bool)
    requires HostWellFormed(h, foundAt) && h != NO_HOST
    ensures HostWellFormed(HostShrink(h).0, foundAt)
  {
    hide IsUserinfoChar, IsHostChar, IsV6Char, IsZoneChar;
  }

  lemma HostShrinkEdge(h: HostOutline, foundAt: bool)
    requires HostWellFormed(h, foundAt) && h != NO_HOST
    ensures var (h', ch) := HostShrink(h); HostEdge(HostStateOf(h', foundAt), ch, HostStateOf(h, foundAt))
  {
    hide IsUserinfoChar, IsHostChar, IsV6Char, IsZoneChar;
  }

  lemma HostGrowShrink(h: HostOutline, foundAt: bool)
    requires HostWellFormed(h, foundAt) && h != NO_HOST
    ensures var (h', ch) := HostShrink(h); HostGrow(h', HostStateOf(h, foundAt), ch) == h
  {
    hide IsUserinfoChar, IsHostChar, IsV6Char, IsZoneChar, AllUserinfo, AllHost, AllV6, AllZone, AllDigits;
    if h.port != [] {
      Unappend(h.port);
    } else if h.colon {
    } else if h.name != [] {
      Unappend(h.name);
    } else if h.close {
    } else if h.zone != [] {
      Unappend(h.zone);
    } else if h.pct {
    } else if h.addr != [] {
      Unappend(h.addr);
    } else if !h.open && !h.at {
      Unappend(h.userinfo);
    }
  }

  lemma HostShrinkSteps(h: HostOutline, foundAt: bool)
    requires HostWellFormed(h, foundAt) && h != NO_HOST
    ensures var (h', ch) := HostShrink(h);
            && HostWellFormed(h', foundAt)
            && HostStep(h', foundAt, ch) == Some(h)
            && h.Text() == h'.Text() + [ch]
  {
    hide ParseHostChar, HostGrow, HostStateOf, HostEdge, HostShrink, HostOutline.Text;
    HostShrinkWellFormed(h, foundAt);
    HostShrinkEdge(h, foundAt);
    HostGrowShrink(h, foundAt);
    var (h', ch) := HostShrink(h);
    EdgesOfTheHostMachine(HostStateOf(h', foundAt), ch, HostStateOf(h, foundAt));
    HostStepKeeps(h', foundAt, ch);
  }

  lemma NoHostOutline(foundAt: bool)
    ensures HostWellFormed(NO_HOST, foundAt) && NO_HOST.Text() == []
  {
  }

  /** Soundness: a run that stays alive has read a well-formed outline of its input. */
  lemma {:induction false} ScanHostSound(run: bytes, foundAt: bool)
    requires ScanHost(run, foundAt).Some?
    ensures var h := ScanHost(run, foundAt).value; HostWellFormed(h, foundAt) && h.Text() == run
  {
    hide HostStep, HostWellFormed, HostOutline.Text;
    NoHostOutline(foundAt);
    if run != [] {
      var n := |run| - 1;
      ScanHostSound(run[..n], foundAt);
      HostStepKeeps(ScanHost(run[..n], foundAt).value, foundAt, run[n]);
    }
  }

  /** Completeness: the machine reads every well-formed outline back from its text. */
  lemma {:induction false} ScanHostComplete(h: HostOutline, foundAt: bool)
    requires HostWellFormed(h, foundAt)
    ensures ScanHost(h.Text(), foundAt) == Some(h)
    decreases |h.Text()|
  {
    hide HostStep, HostWellFormed, HostOutline.Text, HostShrink;
    if h == NO_HOST {
      NoHostOutline(foundAt);
    } else {
      HostShrinkSteps(h, foundAt);
      var (h', ch) := HostShrink(h);
      ScanHostComplete(h', foundAt);
      assert h.Text()[..|h.Text()| - 1] == h'.Text();
    }
  }

  /** The pieces cover the run, each at the offset claimed for it. */
  lemma HostTextLayout(h: HostOutline)
    ensures |h.Text()| == h.PortAt() + |h.port|
    ensures h.HostAt() + h.HostLength() + |Opt(h.close, RBRACKET)| == |h.ThroughHost()|
    ensures h.Text()[..|h.userinfo|] == h.userinfo
    ensures h.Text()[h.PortAt()..] == h.port
  {
  }

  /** Once dead, dead for good. */
  lemma {:induction false} ScanHostDead(run: bytes, n: nat, foundAt: bool)
    requires n <= |run| && ScanHost(run[..n], foundAt) == None
    ensures ScanHost(run, foundAt) == None
  {
    hide HostStep;
    if n == |run| {
      assert run[..n] == run;
    } else {
      var m := |run| - 1;
      assert run[..m][..n] == run[..n];
      ScanHostDead(run[..m], n, foundAt);
    }
  }
}
