/**
  What the patterns of proccessUri match, said without the scans that stand for
  them, and that an ordinary host name is a host for the parser.
 */
module UriPatterns {
  import opened Bytes
  import opened Options
  import opened UrlChars
  import opened UrlScan
  import opened HostScan
  import opened UrlFields
  import opened UrlGrammar
  import opened UrlTheorems
  import opened UrlLayout
  import opened UrlRebuild
  import opened Request
  import UrlPrint

  // ---------- the characters and the literals ----------

  lemma ProtocolCharClass(c: byte)
    ensures IsProtocolChar(c) <==> c in Codes("htps")
  {
    assert Codes("htps") == [104, 116, 112, 115];
  }

  lemma AddressCharClass(c: byte)
    ensures IsAddressChar(c) <==> 48 <= c <= 57 || 97 <= c <= 122 || c in Codes(".:-")
  {
    assert Codes(".:-") == [46, 58, 45];
  }

  lemma LabelEndClass(c: byte)
    ensures IsLabelEnd(c) <==> 48 <= c <= 57 || 65 <= c <= 90 || 97 <= c <= 122
  {
  }

  lemma Literals()
    ensures SEPARATOR == Codes("://") && HTTP == Codes("http") && HTTPS == Codes("https")
    ensures PORT_443 == Codes("443") && PORT_80 == Codes("80")
  {
  }

  // ---------- the pattern of a URI ----------

  /** Four or five of the letters, "://", three or more address characters, and anything. */
  predicate Matches(uri: bytes, p: bytes, a: bytes, urn: bytes) {
    && uri == p + Codes("://") + a + urn
    && 4 <= |p| <= 5 && AllProtocol(p)
    && 3 <= |a| && AllAddress(a)
  }

  lemma {:induction false} AddressRunCovers(a: bytes, rest: bytes)
    requires AllAddress(a)
    ensures |AddressRun(a + rest)| >= |a|
  {
    if a != [] {
      assert (a + rest)[1..] == a[1..] + rest;
      AddressRunCovers(a[1..], rest);
    }
  }

  lemma MatchedIsProcessed(uri: bytes, p: bytes, a: bytes, urn: bytes)
    requires Matches(uri, p, a, urn)
    ensures Processed(uri).Some?
  {
    hide AllProtocol, AllAddress, ProtocolRun, AddressRun, HostAndPort;
    var rest := SEPARATOR + (a + urn);
    Literals();
    assert uri == p + rest;
    ColonIsNoProtocol();
    ProtocolRunOf(p, rest);
    assert uri[|p|..] == rest;
    assert uri[|p| + 3..] == a + urn;
    AddressRunCovers(a, urn);
  }

  /** proccessUri takes a URI apart exactly when the pattern matches it. */
  lemma ProcessedExactly(uri: bytes)
    ensures Processed(uri).Some? <==> exists p, a, urn :: Matches(uri, p, a, urn)
  {
    hide Processed, AllProtocol, AllAddress;
    if Processed(uri).Some? {
      var a := ProcessedCuts(uri);
      Literals();
      assert Matches(uri, Processed(uri).value.protocol, a, Processed(uri).value.urn);
    }
    forall p, a, urn | Matches(uri, p, a, urn)
      ensures Processed(uri).Some?
    {
      MatchedIsProcessed(uri, p, a, urn);
    }
  }

  // ---------- the pattern of a host ----------

  /** Letters, digits and hyphens, with no hyphen at either end. */
  predicate Label(l: bytes) {
    && l != [] && IsLabelEnd(l[0]) && IsLabelEnd(l[|l| - 1])
    && forall i | 0 <= i < |l| :: IsLabelEnd(l[i]) || l[i] == DASH
  }

  predicate AllLabels(ls: seq<bytes>) { forall i | 0 <= i < |ls| :: Label(ls[i]) }

  /** The labels with a dot between each two. */
  function Joined(ls: seq<bytes>): bytes {
    if ls == [] then []
    else if |ls| == 1 then ls[0]
    else ls[0] + Codes(".") + Joined(ls[1..])
  }

  function FirstDot(h: bytes): (i: nat)
    ensures i <= |h| && (i < |h| ==> h[i] == DOT)
    ensures forall j | 0 <= j < i :: h[j] != DOT
  {
    if h == [] || h[0] == DOT then 0 else 1 + FirstDot(h[1..])
  }

  lemma DotEndsNoLabel()
    ensures !IsLabelEnd(DOT) && DASH != DOT && Codes(".") == [DOT]
  {
  }

  /** A label before the first dot, and dotted labels behind it. */
  lemma {:induction false} SplitLabels(h: bytes) returns (ls: seq<bytes>)
    requires DottedLabels(h)
    ensures ls != [] && AllLabels(ls) && Joined(ls) == h
    decreases |h|
  {
    hide IsLabelEnd, FirstDot;
    DotEndsNoLabel();
    var i := FirstDot(h);
    if i == |h| {
      ls := [h];
    } else {
      var (l, more) := (h[..i], h[i + 1..]);
      assert 0 < i < |h| - 1;
      assert forall k | 0 <= k < |more| :: more[k] == h[i + 1 + k];
      assert DottedLabels(more);
      var rest := SplitLabels(more);
      ls := [l] + rest;
      assert ls[1..] == rest;
      assert h == l + [DOT] + more;
    }
  }

  lemma LabelBeforeLabels(l: bytes, more: bytes)
    requires Label(l) && DottedLabels(more)
    ensures DottedLabels(l + [DOT] + more)
  {
    hide IsLabelEnd;
    var h := l + [DOT] + more;
    DotEndsNoLabel();
    forall i | 0 <= i < |h|
      ensures h[i] == if i < |l| then l[i] else if i == |l| then DOT else more[i - |l| - 1]
    {
    }
    assert h[0] == l[0] && h[|h| - 1] == more[|more| - 1];
  }

  lemma {:induction false} JoinedIsDotted(ls: seq<bytes>)
    requires ls != [] && AllLabels(ls)
    ensures DottedLabels(Joined(ls))
  {
    hide DottedLabels, Label;
    DotEndsNoLabel();
    if |ls| == 1 {
      OneLabel(ls[0]);
    } else {
      JoinedIsDotted(ls[1..]);
      LabelBeforeLabels(ls[0], Joined(ls[1..]));
    }
  }

  lemma OneLabel(l: bytes)
    requires Label(l)
    ensures DottedLabels(l)
  {
    hide IsLabelEnd;
    DotEndsNoLabel();
  }

  /** The host pattern matches exactly the labels joined by dots. */
  lemma LabelsExactly(h: bytes)
    ensures DottedLabels(h) <==> exists ls :: ls != [] && AllLabels(ls) && Joined(ls) == h
  {
    hide DottedLabels, AllLabels, Joined;
    if DottedLabels(h) {
      var ls := SplitLabels(h);
    }
    forall ls | ls != [] && AllLabels(ls) && Joined(ls) == h
      ensures DottedLabels(h)
    {
      JoinedIsDotted(ls);
    }
  }

  // ---------- ordinary hosts ----------

  /** A name of dotted labels, hyphens and all, is a host for the parser. */
  lemma LabelsAreHosts(h: bytes)
    requires DottedLabels(h)
    ensures Name(h).Valid()
  {
    forall i | 0 <= i < |h|
      ensures IsHostChar(h[i])
    {
      HostCharClass(h[i]);
      LabelEndClass(h[i]);
    }
  }

  /** An http or https URL of such a host and a path is accepted, and its HOST and PATH are those. */
  lemma OrdinaryUrl(secure: bool, h: bytes, path: bytes)
    requires DottedLabels(h) && PathText(path, true)
    requires |h| + |path| <= 65500
    ensures var url := Codes(if secure then "https://" else "http://") + h + path;
            var outcome := Parsed(url, false);
            && outcome.Accepted? && Inside(url, outcome.fields)
            && Text(url, outcome.fields, UF_HOST) == h
            && Text(url, outcome.fields, UF_PATH) == path
  {
    hide DottedLabels;
    var schema := if secure then HTTPS else HTTP;
    var u := Url(schema, Some(Authority([], false, Name(h), None)), path, None, None);
    var url := Codes(if secure then "https://" else "http://") + h + path;
    LabelsAreHosts(h);
    hide PathText;
    OrdinaryText(secure, h, path);
    OrdinaryDerivable(schema, h, path);
    PlainComponents(u);
    assert Component(u, UF_HOST) == h && Component(u, UF_PATH) == path;
    hide Derivable, Url.Render, Parsed, Component;
    UrlPrint.Found(u);
  }

  lemma OrdinaryText(secure: bool, h: bytes, path: bytes)
    ensures var u := Url(if secure then HTTPS else HTTP, Some(Authority([], false, Name(h), None)), path, None, None);
            u.Render() == Codes(if secure then "https://" else "http://") + h + path
  {
    var schema := if secure then HTTPS else HTTP;
    var u := Url(schema, Some(Authority([], false, Name(h), None)), path, None, None);
    assert u.AuthorityText() == h;
    assert Codes("https://") == HTTPS + [COLON, SLASH, SLASH] && Codes("http://") == HTTP + [COLON, SLASH, SLASH];
    assert u.Prefix() == schema + [COLON, SLASH, SLASH];
    hide Url.AuthorityText, Url.Prefix;
    assert Repeat(HASH, 0) == [];
  }

  lemma OrdinaryDerivable(schema: bytes, h: bytes, path: bytes)
    requires schema == HTTP || schema == HTTPS
    requires Name(h).Valid() && PathText(path, true)
    ensures Derivable(Url(schema, Some(Authority([], false, Name(h), None)), path, None, None), false)
  {
    hide AllHost, PathText;
    assert AllAlpha(schema);
  }

  // ---------- the path of a request ----------

  /**
    What the path and the query sent leave of a URL behind its authority: a "?"
    without a query, and the fragment; a missing path is sent as "/".
   */
  lemma PathInTail(v: Url)
    ensures (if v.path == [] then Codes("/") else []) + Tail(v)
         == RequestPath(v) + (if v.query == Some([]) then Codes("?") else [])
            + Repeat(HASH, v.Hashes()) + v.FragmentText()
  {
    hide Repeat;
    assert Codes("/") == [SLASH] && Codes("?") == [QUESTION];
    var (q, hashes, f) := (v.QueryText(), Repeat(HASH, v.Hashes()), v.FragmentText());
    InFrontOfFive(if v.path == [] then [SLASH] else [], v.path, Opt(v.query.Some?, QUESTION), q, hashes, f);
    BareQuestion(v);
  }

  lemma InFrontOfFive(start: bytes, a: bytes, b: bytes, c: bytes, d: bytes, e: bytes)
    ensures start + (a + b + c + d + e) == start + a + b + c + d + e
  {
  }

  lemma BareQuestion(v: Url)
    ensures (if v.path == [] then [SLASH] else []) + v.path + Opt(v.query.Some?, QUESTION) + v.QueryText()
         == RequestPath(v) + (if v.query == Some([]) then [QUESTION] else [])
  {
  }
}
