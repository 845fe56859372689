/**
  What the outer machine reads.  An outline cuts a URL into the pieces between
  its delimiters; a declarative predicate says which outlines are possible, and
  the machine's runs are shown to be in bijection with them.
 */
module UrlScan {
  import opened Bytes
  import opened Options
  import opened UrlChars
  import opened UrlMachine

  /** The text schema "://"[..sep] server path ["?" query] "#"*hashes fragment. */
  datatype Outline = Outline(
    schema: bytes, sep: nat, server: bytes, path: bytes,
    mark: bool, query: bytes, hashes: nat, fragment: bytes)
  {
    function ThroughServer(): bytes { schema + Separator(sep) + server }
    function ThroughQuery(): bytes { ThroughServer() + path + Opt(mark, QUESTION) + query }
    function Text(): bytes { ThroughQuery() + Repeat(HASH, hashes) + fragment }

    // Where each piece starts in the text.
    function ServerAt(): nat { |schema| + Min3(sep) }
    function PathAt(): nat { ServerAt() + |server| }
    function QueryAt(): nat { PathAt() + |path| + |Opt(mark, QUESTION)| }
    function FragmentAt(): nat { QueryAt() + |query| + hashes }

    function FoundAt(): bool { AT in server }
  }

  const EMPTY := Outline([], 0, [], [], false, [], 0, [])

  function Min3(n: nat): nat { if n < 3 then n else 3 }

  /** The first octets of "://". */
  function Separator(n: nat): (s: bytes)
    ensures |s| == Min3(n)
  {
    [COLON, SLASH, SLASH][..Min3(n)]
  }

  predicate IsServerChar(c: byte) {
    IsUserinfoChar(c) || c == LBRACKET || c == RBRACKET || c == AT
  }

  predicate AllAlpha(s: bytes) { forall i | 0 <= i < |s| :: IsAlpha(s[i]) }

  predicate AllUrl(s: bytes) { forall i | 0 <= i < |s| :: IsUrlChar(s[i]) }

  /** Octets of a query. */
  predicate AllQuery(s: bytes) { forall i | 0 <= i < |s| :: IsUrlChar(s[i]) || s[i] == QUESTION }

  /** Octets of a fragment after its first. */
  predicate AllFragment(s: bytes) {
    forall i | 0 <= i < |s| :: IsUrlChar(s[i]) || s[i] == QUESTION || s[i] == HASH
  }

  /** A host run: server octets with no two adjacent '@'. */
  predicate ServerText(s: bytes) {
    && (forall i | 0 <= i < |s| :: IsServerChar(s[i]))
    && (forall i | 0 < i < |s| :: !(s[i - 1] == AT && s[i] == AT))
  }

  /** Whether the outline may be followed by a path or a query. */
  predicate InServer(o: Outline, connect: bool) { o.sep == 3 || connect }

  predicate PathText(path: bytes, afterServer: bool) {
    path != [] ==>
      && (path[0] == SLASH || (!afterServer && path[0] == STAR))
      && AllUrl(path[1..])
  }

  predicate FragmentText(s: bytes) {
    AllFragment(s) && (s != [] ==> s[0] != HASH)
  }

  /** The texts on which the outer machine is alive. */
  predicate WellFormed(o: Outline, connect: bool) {
    && AllAlpha(o.schema)
    && o.sep <= 3
    && (connect ==> o.schema == [] && o.sep == 0)
    && (o.sep > 0 ==> o.schema != [])
    && ServerText(o.server)
    && (o.server != [] ==> InServer(o, connect))
    && PathText(o.path, InServer(o, connect))
    && (o.path != [] ==> o.schema == [] || InServer(o, connect))
    && (o.mark ==> o.path != [] || InServer(o, connect))
    && (o.query != [] ==> o.mark)
    && AllQuery(o.query)
    && (o.hashes > 0 ==> o.mark || o.path != [])
    && (o.fragment != [] ==> o.hashes > 0)
    && FragmentText(o.fragment)
  }

  /** The state the machine is in after reading an outline. */
  function StateOf(o: Outline, connect: bool): State {
    if o.fragment != [] then Fragment
    else if o.hashes > 0 then FragmentStart
    else if o.query != [] then Query
    else if o.mark then QueryStart
    else if o.path != [] then Path
    else if o.server != [] then (if o.server[|o.server| - 1] == AT then ServerWithAt else Server)
    else if InServer(o, connect) then ServerStart
    else if o.sep == 2 then SchemaSlashSlash
    else if o.sep == 1 then SchemaSlash
    else if o.schema != [] then Schema
    else SpacesBeforeUrl
  }

  /** The outline after one more octet, which took the machine to s. */
  function Grow(o: Outline, s: State, ch: byte): Outline {
    match s
    case Schema => o.(schema := o.schema + [ch])
    case SchemaSlash => o.(sep := 1)
    case SchemaSlashSlash => o.(sep := 2)
    case ServerStart => o.(sep := 3)
    case Server => o.(server := o.server + [ch])
    case ServerWithAt => o.(server := o.server + [ch])
    case Path => o.(path := o.path + [ch])
    case QueryStart => o.(mark := true)
    case Query => o.(query := o.query + [ch])
    case FragmentStart => o.(hashes := o.hashes + 1)
    case Fragment => o.(fragment := o.fragment + [ch])
    case Dead => o
    case SpacesBeforeUrl => o
  }

  function Step(o: Outline, connect: bool, ch: byte): Option<Outline> {
    var s := ParseUrlChar(StateOf(o, connect), ch);
    if s == Dead then None else Some(Grow(o, s, ch))
  }

  /** The outline the outer machine has read after all of buf, or None if it died. */
  function Scan(buf: bytes, connect: bool): Option<Outline> {
    if buf == [] then Some(EMPTY)
    else
      var n := |buf| - 1;
      match Scan(buf[..n], connect)
      case None => None
      case Some(o) => Step(o, connect, buf[n])
  }

  predicate AfterServer(s: State) { s in {ServerStart, Server, ServerWithAt} }

  /** The live transitions, read backwards from the state they lead to. */
  predicate Edge(s0: State, ch: byte, s: State) {
    match s
    case Schema => s0 in {SpacesBeforeUrl, Schema} && IsAlpha(ch)
    case SchemaSlash => s0 == Schema && ch == COLON
    case SchemaSlashSlash => s0 == SchemaSlash && ch == SLASH
    case ServerStart => s0 == SchemaSlashSlash && ch == SLASH
    case Server => AfterServer(s0) && IsServerChar(ch) && ch != AT
    case ServerWithAt => s0 in {ServerStart, Server} && ch == AT
    case Path =>
      || (s0 == SpacesBeforeUrl && (ch == SLASH || ch == STAR))
      || (AfterServer(s0) && ch == SLASH)
      || (s0 == Path && IsUrlChar(ch))
    case QueryStart => (AfterServer(s0) || s0 == Path) && ch == QUESTION
    case Query => s0 in {QueryStart, Query} && (IsUrlChar(ch) || ch == QUESTION)
    case FragmentStart => s0 in {Path, QueryStart, Query, FragmentStart} && ch == HASH
    case Fragment =>
      || (s0 in {FragmentStart, Fragment} && (IsUrlChar(ch) || ch == QUESTION))
      || (s0 == Fragment && ch == HASH)
    case Dead => false
    case SpacesBeforeUrl => false
  }

  /** The transition function of the source has exactly those live transitions. */
  lemma EdgesOfTheMachine(s0: State, ch: byte, s: State)
    ensures s == ParseUrlChar(s0, ch) != Dead <==> Edge(s0, ch, s)
  {
    hide IsUrlChar;
    UrlCharClass(ch);
    AlphaClass(ch);
  }

  /** The pieces after the one that s fills are empty. */
  predicate Open(o: Outline, s: State) {
    && (s != Fragment ==> o.fragment == [])
    && (s != Fragment && s != FragmentStart ==> o.hashes == 0)
    && (s !in {Fragment, FragmentStart, Query} ==> !o.mark && o.query == [])
    && (s !in {Fragment, FragmentStart, Query, QueryStart, Path} ==> o.path == [])
    && (s in {Schema, SchemaSlash, SchemaSlashSlash, ServerStart} ==> o.server == [])
    && (s == Schema || s == SchemaSlash ==> o.sep == 0)
    && (s == SchemaSlashSlash ==> o.sep == 1)
    && (s == ServerStart ==> o.sep == 2)
  }

  lemma EdgeOpens(o: Outline, connect: bool, s: State, ch: byte)
    requires WellFormed(o, connect) && Edge(StateOf(o, connect), ch, s)
    ensures Open(o, s)
  {
    hide IsUrlChar, IsAlpha, IsServerChar, ServerText, PathText, FragmentText, AllQuery, AllAlpha;
  }

  lemma Append3(a: bytes, b: bytes, c: bytes, ch: byte)
    ensures a + b + (c + [ch]) == (a + b + c) + [ch]
    ensures b == [] && c == [] ==> (a + [ch]) + b + c == (a + b + c) + [ch]
    ensures c == [] ==> a + (b + [ch]) + c == (a + b + c) + [ch]
  {
  }

  lemma GrowThroughServer(o: Outline, s: State, ch: byte)
    requires Open(o, s)
    requires s in {Schema, SchemaSlash, SchemaSlashSlash, ServerStart, Server, ServerWithAt}
    requires s == SchemaSlash ==> ch == COLON
    requires s in {SchemaSlashSlash, ServerStart} ==> ch == SLASH
    ensures Grow(o, s, ch).ThroughServer() == o.ThroughServer() + [ch]
  {
    if s == Schema {
      assert o.ThroughServer() == o.schema;
    }
  }

  lemma GrowThroughQuery(o: Outline, s: State, ch: byte)
    requires Open(o, s)
    requires s !in {Dead, SpacesBeforeUrl, FragmentStart, Fragment}
    requires s == SchemaSlash ==> ch == COLON
    requires s in {SchemaSlashSlash, ServerStart} ==> ch == SLASH
    requires s == QueryStart ==> ch == QUESTION
    ensures Grow(o, s, ch).ThroughQuery() == o.ThroughQuery() + [ch]
  {
    if s in {Path, QueryStart, Query} {
      assert Grow(o, s, ch).ThroughServer() == o.ThroughServer();
    } else {
      GrowThroughServer(o, s, ch);
      hide Outline.ThroughServer;
      assert o.path == [] && Opt(o.mark, QUESTION) == [] && o.query == [];
      assert o.ThroughQuery() == o.ThroughServer();
      assert Grow(o, s, ch).ThroughQuery() == Grow(o, s, ch).ThroughServer();
    }
    hide Outline.ThroughServer;
    var t := o.ThroughServer();
    if s == Path {
      Append3(t, o.path, Opt(o.mark, QUESTION) + o.query, ch);
    } else if s == QueryStart {
      Append3(t + o.path, [], [], ch);
    } else if s == Query {
      Append3(t + o.path, Opt(o.mark, QUESTION), o.query, ch);
    }
  }

  lemma RepeatMore(n: nat)
    ensures Repeat(HASH, n + 1) == Repeat(HASH, n) + [HASH]
    ensures Repeat(HASH, 0) == []
  {
  }

  /** Adding one octet to the last piece adds it to the text. */
  lemma GrowText(o: Outline, s: State, ch: byte)
    requires Open(o, s)
    requires s != Dead && s != SpacesBeforeUrl
    requires s == SchemaSlash ==> ch == COLON
    requires s in {SchemaSlashSlash, ServerStart} ==> ch == SLASH
    requires s == QueryStart ==> ch == QUESTION
    requires s == FragmentStart ==> ch == HASH
    ensures Grow(o, s, ch).Text() == o.Text() + [ch]
  {
    RepeatMore(o.hashes);
    hide Repeat;
    Append3(o.ThroughQuery(), Repeat(HASH, o.hashes), o.fragment, ch);
    if s == FragmentStart || s == Fragment {
      assert Grow(o, s, ch).ThroughQuery() == o.ThroughQuery();
    } else {
      GrowThroughQuery(o, s, ch);
    }
    hide Outline.ThroughQuery;
  }

  lemma GrowState(o: Outline, connect: bool, s: State, ch: byte)
    requires WellFormed(o, connect) && Edge(StateOf(o, connect), ch, s)
    ensures StateOf(Grow(o, s, ch), connect) == s
  {
    hide IsUrlChar, IsAlpha, IsUserinfoChar, ServerText, PathText, FragmentText, AllQuery, AllAlpha;
  }

  /** When a piece of some class stays in it with one octet more. */
  lemma AppendTexts(s: bytes, ch: byte)
    ensures AllAlpha(s) && IsAlpha(ch) ==> AllAlpha(s + [ch])
    ensures ServerText(s) && IsServerChar(ch) && !(s != [] && s[|s| - 1] == AT && ch == AT) ==> ServerText(s + [ch])
    ensures forall afterServer ::
              && (PathText(s, afterServer) && s != [] && IsUrlChar(ch) ==> PathText(s + [ch], afterServer))
              && (ch == SLASH || (!afterServer && ch == STAR) ==> s == [] ==> PathText(s + [ch], afterServer))
    ensures AllQuery(s) && (IsUrlChar(ch) || ch == QUESTION) ==> AllQuery(s + [ch])
    ensures FragmentText(s) && (IsUrlChar(ch) || ch == QUESTION || (s != [] && ch == HASH)) ==> FragmentText(s + [ch])
  {
    UrlCharClass(ch);
    hide IsUrlChar, IsAlpha, IsServerChar;
    assert s != [] ==> (s + [ch])[1..] == s[1..] + [ch];
  }

  lemma GrowWellFormed(o: Outline, connect: bool, s: State, ch: byte)
    requires WellFormed(o, connect) && Edge(StateOf(o, connect), ch, s)
    ensures WellFormed(Grow(o, s, ch), connect)
  {
    hide IsUrlChar, IsAlpha, IsUserinfoChar, ServerText, FragmentText, AllQuery, AllAlpha, AllUrl;
    match s
    case Schema => AppendTexts(o.schema, ch);
    case Server => AppendTexts(o.server, ch);
    case ServerWithAt => AppendTexts(o.server, ch);
    case Path => AppendTexts(o.path, ch);
    case Query => AppendTexts(o.query, ch);
    case Fragment => AppendTexts(o.fragment, ch);
    case _ =>
  }

  /** One live step keeps outlines well formed, tracks the state and reads one octet. */
  lemma StepKeeps(o: Outline, connect: bool, ch: byte)
    requires WellFormed(o, connect)
    requires Step(o, connect, ch).Some?
    ensures var o' := Step(o, connect, ch).value;
            && WellFormed(o', connect)
            && StateOf(o', connect) == ParseUrlChar(StateOf(o, connect), ch)
            && o'.Text() == o.Text() + [ch]
  {
    hide ParseUrlChar, Grow, StateOf, WellFormed, Outline.Text;
    var s := ParseUrlChar(StateOf(o, connect), ch);
    EdgesOfTheMachine(StateOf(o, connect), ch, s);
    GrowState(o, connect, s, ch);
    EdgeOpens(o, connect, s, ch);
    GrowText(o, s, ch);
    GrowWellFormed(o, connect, s, ch);
  }

  /** The outline without its last octet, and that octet. */
  function Shrink(o: Outline): (Outline, byte)
    requires o != EMPTY && o.sep <= 3
  {
    if o.fragment != [] then (o.(fragment := o.fragment[..|o.fragment| - 1]), o.fragment[|o.fragment| - 1])
    else if o.hashes > 0 then (o.(hashes := o.hashes - 1), HASH)
    else if o.query != [] then (o.(query := o.query[..|o.query| - 1]), o.query[|o.query| - 1])
    else if o.mark then (o.(mark := false), QUESTION)
    else if o.path != [] then (o.(path := o.path[..|o.path| - 1]), o.path[|o.path| - 1])
    else if o.server != [] then (o.(server := o.server[..|o.server| - 1]), o.server[|o.server| - 1])
    else if o.sep > 0 then (o.(sep := o.sep - 1), if o.sep == 1 then COLON else SLASH)
    else (o.(schema := o.schema[..|o.schema| - 1]), o.schema[|o.schema| - 1])
  }

  /** The classes of text the pieces are in are closed under prefixes. */
  lemma PrefixTexts(s: bytes, n: nat)
    requires n <= |s|
    ensures AllAlpha(s) ==> AllAlpha(s[..n])
    ensures ServerText(s) ==> ServerText(s[..n])
    ensures forall afterServer :: PathText(s, afterServer) ==> PathText(s[..n], afterServer)
    ensures AllQuery(s) ==> AllQuery(s[..n])
    ensures FragmentText(s) ==> FragmentText(s[..n])
  {
    hide IsUrlChar, IsAlpha, IsServerChar;
    assert n > 0 ==> s[..n][1..] == s[1..n] == s[1..][..n - 1];
  }

  lemma Unappend(s: bytes)
    requires s != []
    ensures s[..|s| - 1] + [s[|s| - 1]] == s
  {
  }

  lemma ShrinkWellFormed(o: Outline, connect: bool)
    requires WellFormed(o, connect) && o != EMPTY
    ensures WellFormed(Shrink(o).0, connect)
  {
    hide IsUrlChar, IsAlpha, IsServerChar, ServerText, AllUrl, FragmentText, AllQuery, AllAlpha;
    if o.fragment != [] {
      PrefixTexts(o.fragment, |o.fragment| - 1);
    } else if o.query != [] {
      PrefixTexts(o.query, |o.query| - 1);
    } else if o.path != [] {
      PrefixTexts(o.path, |o.path| - 1);
    } else if o.server != [] {
      PrefixTexts(o.server, |o.server| - 1);
    } else if o.schema != [] {
      PrefixTexts(o.schema, |o.schema| - 1);
    }
  }

  lemma ShrinkEdge(o: Outline, connect: bool)
    requires WellFormed(o, connect) && o != EMPTY
    ensures var (o', ch) := Shrink(o); Edge(StateOf(o', connect), ch, StateOf(o, connect))
  {
    hide IsUrlChar, IsAlpha, IsUserinfoChar;
    UrlCharClass(Shrink(o).1);
  }

  lemma GrowShrink(o: Outline, connect: bool)
    requires WellFormed(o, connect) && o != EMPTY
    ensures var (o', ch) := Shrink(o); Grow(o', StateOf(o, connect), ch) == o
  {
    hide IsUrlChar, IsAlpha, IsServerChar, ServerText, PathText, FragmentText, AllQuery, AllAlpha;
    if o.fragment != [] {
      Unappend(o.fragment);
    } else if o.hashes > 0 {
    } else if o.query != [] {
      Unappend(o.query);
    } else if o.mark {
    } else if o.path != [] {
      Unappend(o.path);
    } else if o.server != [] {
      Unappend(o.server);
    } else if o.sep == 0 {
      Unappend(o.schema);
    }
  }

  /** A well-formed outline that is not empty comes from a shorter one in one step. */
  lemma ShrinkSteps(o: Outline, connect: bool)
    requires WellFormed(o, connect) && o != EMPTY
    ensures var (o', ch) := Shrink(o);
            && WellFormed(o', connect)
            && Step(o', connect, ch) == Some(o)
            && o.Text() == o'.Text() + [ch]
  {
    hide ParseUrlChar, Grow, StateOf, Edge, Shrink, Outline.Text;
    ShrinkWellFormed(o, connect);
    ShrinkEdge(o, connect);
    GrowShrink(o, connect);
    var (o', ch) := Shrink(o);
    EdgesOfTheMachine(StateOf(o', connect), ch, StateOf(o, connect));
    StepKeeps(o', connect, ch);
  }

  lemma EmptyOutline(connect: bool)
    ensures WellFormed(EMPTY, connect) && EMPTY.Text() == []
  {
  }

  /** Soundness: a run that stays alive has read a well-formed outline of its input. */
  lemma {:induction false} ScanSound(buf: bytes, connect: bool)
    requires Scan(buf, connect).Some?
    ensures var o := Scan(buf, connect).value; WellFormed(o, connect) && o.Text() == buf
  {
    hide Step, WellFormed, Outline.Text;
    EmptyOutline(connect);
    if buf != [] {
      var n := |buf| - 1;
      ScanSound(buf[..n], connect);
      StepKeeps(Scan(buf[..n], connect).value, connect, buf[n]);
    }
  }

  /** Completeness: the machine reads every well-formed outline back from its text. */
  lemma {:induction false} ScanComplete(o: Outline, connect: bool)
    requires WellFormed(o, connect)
    ensures Scan(o.Text(), connect) == Some(o)
    decreases |o.Text()|
  {
    if o != EMPTY {
      ShrinkSteps(o, connect);
      var (o', ch) := Shrink(o);
      ScanComplete(o', connect);
      assert o.Text()[..|o.Text()| - 1] == o'.Text();
    }
  }

  lemma InFront(x: bytes, y: bytes, lo: nat, hi: nat)
    requires lo <= hi <= |x|
    ensures (x + y)[lo..hi] == x[lo..hi]
  {
  }

  /** The pieces up to the query, in the text up to there. */
  lemma QueryLayout(o: Outline)
    requires o.sep <= 3
    ensures |o.ThroughQuery()| == o.QueryAt() + |o.query|
    ensures o.ThroughQuery()[..|o.schema|] == o.schema
    ensures o.ThroughQuery()[o.ServerAt()..o.PathAt()] == o.server
    ensures o.ThroughQuery()[o.PathAt()..o.PathAt() + |o.path|] == o.path
    ensures o.ThroughQuery()[o.QueryAt()..] == o.query
  {
    var (t, rest) := (o.ThroughServer(), Opt(o.mark, QUESTION) + o.query);
    assert |t| == o.PathAt() && t[0..|o.schema|] == o.schema && t[o.ServerAt()..o.PathAt()] == o.server;
    hide Outline.ThroughServer;
    assert o.ThroughQuery() == t + (o.path + rest);
    InFront(t, o.path + rest, 0, |o.schema|);
    InFront(t, o.path + rest, o.ServerAt(), o.PathAt());
  }

  /** The pieces cover the text, each at the offset claimed for it. */
  lemma TextLayout(o: Outline)
    requires o.sep <= 3
    ensures |o.Text()| == o.FragmentAt() + |o.fragment|
    ensures o.Text()[..|o.schema|] == o.schema
    ensures o.Text()[o.ServerAt()..o.PathAt()] == o.server
    ensures o.Text()[o.PathAt()..o.PathAt() + |o.path|] == o.path
    ensures o.Text()[o.QueryAt()..o.QueryAt() + |o.query|] == o.query
    ensures o.Text()[o.FragmentAt()..] == o.fragment
  {
    QueryLayout(o);
    hide Outline.ThroughQuery;
    var (t, rest) := (o.ThroughQuery(), Repeat(HASH, o.hashes) + o.fragment);
    assert o.Text() == t + rest;
    InFront(t, rest, 0, |o.schema|);
    InFront(t, rest, o.ServerAt(), o.PathAt());
    InFront(t, rest, o.PathAt(), o.PathAt() + |o.path|);
    InFront(t, rest, o.QueryAt(), o.QueryAt() + |o.query|);
  }

  /** Once dead, dead for good. */
  lemma {:induction false} ScanDead(buf: bytes, n: nat, connect: bool)
    requires n <= |buf| && Scan(buf[..n], connect) == None
    ensures Scan(buf, connect) == None
  {
    hide Step;
    if n == |buf| {
      assert buf[..n] == buf;
    } else {
      var m := |buf| - 1;
      assert buf[..m][..n] == buf[..n];
      ScanDead(buf[..m], n, connect);
    }
  }
}
