/**
 URIs as text: put together as in RFC 3986 section 5.3, cut apart as in its appendix B, and checked
 against the component tables. Stands for the library the locators use.
 */
module Uris {
  import opened Wrappers
  import opened Codecs
  import opened PercentCodec

  datatype Authority = Authority(userinfo: Option<Bytes>, host: Bytes, port: Option<Bytes>)

  datatype Uri = Uri(scheme: Option<Bytes>, authority: Option<Authority>, path: Bytes,
                     query: Option<Bytes>, fragment: Option<Bytes>)

  predicate Digits(s: Bytes) { forall i :: 0 <= i < |s| ==> Digit(s[i]) }

  /** RFC 3986 section 3.1 */
  predicate SchemeChar(b: Byte) { Alpha(b) || Digit(b) || b == 43 || b == 45 || b == DOT }

  predicate ValidScheme(s: Bytes) { s != [] && Alpha(s[0]) && forall i :: 0 <= i < |s| ==> SchemeChar(s[i]) }

  /** Section 3.1 in characters: letters, digits, "+", "-" and ".", the first a letter; and section 3.2.3 for ports. */
  lemma CharactersExactly(s: Bytes)
    ensures ValidScheme(s) <==>
            && |s| > 0 && ('a' <= s[0] as int as char <= 'z' || 'A' <= s[0] as int as char <= 'Z')
            && forall i :: 0 <= i < |s| ==>
                 var c := s[i] as int as char;
                 'a' <= c <= 'z' || 'A' <= c <= 'Z' || '0' <= c <= '9' || c in "+-."
    ensures Digits(s) <==> forall i :: 0 <= i < |s| ==> s[i] as int as char in "0123456789"
  {
  }

  /** A bracketed IP literal; what is between the brackets is checked by its characters only. */
  predicate IpLiteral(s: Bytes) {
    && |s| >= 2 && s[0] == OPEN_BRACKET && s[|s| - 1] == CLOSE_BRACKET
    && forall i :: 1 <= i < |s| - 1 ==> UserinfoChar(s[i])
  }

  predicate ValidAuthority(a: Authority) {
    && (a.userinfo.Some? ==> WellFormed(UserinfoChar, a.userinfo.value))
    && (WellFormed(RegNameChar, a.host) || IpLiteral(a.host))
    && (a.port.Some? ==> Digits(a.port.value))
  }

  predicate Valid(u: Uri) {
    && (u.scheme.Some? ==> ValidScheme(u.scheme.value))
    && (u.authority.Some? ==> ValidAuthority(u.authority.value))
    && WellFormed(PathChar, u.path)
    && (if u.authority.Some? then u.path == [] || u.path[0] == SLASH
        else !(|u.path| >= 2 && u.path[0] == SLASH && u.path[1] == SLASH))
    && (u.query.Some? ==> WellFormed(QueryChar, u.query.value))
    && (u.fragment.Some? ==> WellFormed(QueryChar, u.fragment.value))
  }

  // ---------------------------------------------------------------------------------------------
  // Text

  function Prefixed(mark: Bytes, part: Option<Bytes>): Bytes {
    if part.Some? then mark + part.value else []
  }

  function PrintAuthority(a: Authority): Bytes {
    (if a.userinfo.Some? then a.userinfo.value + [AT] else []) + (a.host + Prefixed([COLON], a.port))
  }

  function Print(u: Uri): Bytes {
    (if u.scheme.Some? then u.scheme.value + [COLON] else [])
    + ((if u.authority.Some? then [SLASH, SLASH] + PrintAuthority(u.authority.value) else [])
       + (u.path + (Prefixed([QUESTION], u.query) + Prefixed([HASH], u.fragment))))
  }

  predicate EndsFragment(b: Byte) { false }

  predicate EndsQuery(b: Byte) { b == HASH }

  predicate EndsPath(b: Byte) { b == QUESTION || EndsQuery(b) }

  predicate EndsAuthority(b: Byte) { b == SLASH || EndsPath(b) }

  predicate EndsScheme(b: Byte) { b == COLON || EndsAuthority(b) }

  predicate IsAt(b: Byte) { b == AT }

  predicate EndsHost(b: Byte) { b == COLON }

  predicate ClosesBracket(b: Byte) { b == CLOSE_BRACKET }

  /** The part after `mark`, up to a byte that ends it, and what is left. */
  function Cut(s: Bytes, mark: Byte, end: Table): (Option<Bytes>, Bytes) {
    if s != [] && s[0] == mark then
      var n := Span(s[1..], end);
      (Some(s[1..][..n]), s[1..][n..])
    else (None, s)
  }

  function CutHost(s: Bytes): (Bytes, Bytes) {
    var n := Span(s, EndsHost);
    var m := Span(s, ClosesBracket);
    if s != [] && s[0] == OPEN_BRACKET && m < |s| then (s[..m + 1], s[m + 1..]) else (s[..n], s[n..])
  }

  function ParseHostPort(userinfo: Option<Bytes>, s: Bytes): Option<Authority> {
    var (host, rest) := CutHost(s);
    var (port, left) := Cut(rest, COLON, EndsFragment);
    if left == [] then Some(Authority(userinfo, host, port)) else None
  }

  function ParseAuthority(s: Bytes): Option<Authority> {
    var n := Span(s, IsAt);
    if n < |s| then ParseHostPort(Some(s[..n]), s[n + 1..]) else ParseHostPort(None, s)
  }

  /** Path, query and fragment, before they are checked. */
  function CutPath(scheme: Option<Bytes>, authority: Option<Authority>, s: Bytes): Uri {
    var n := Span(s, EndsPath);
    var (query, rest) := Cut(s[n..], QUESTION, EndsQuery);
    var (fragment, left) := Cut(rest, HASH, EndsFragment);
    Uri(scheme, authority, s[..n], query, fragment)
  }

  function ParsePath(scheme: Option<Bytes>, authority: Option<Authority>, s: Bytes): Option<Uri> {
    var u := CutPath(scheme, authority, s);
    if Valid(u) then Some(u) else None
  }

  function ParseHierarchy(scheme: Option<Bytes>, s: Bytes): Option<Uri> {
    if |s| >= 2 && s[0] == SLASH && s[1] == SLASH then
      var n := Span(s[2..], EndsAuthority);
      match ParseAuthority(s[2..][..n])
      case None => None
      case Some(a) => ParsePath(scheme, Some(a), s[2..][n..])
    else ParsePath(scheme, None, s)
  }

  /** None stands for the library's parse errors. */
  function Parse(s: Bytes): (u: Option<Uri>)
    ensures u.Some? ==> Valid(u.value)
  {
    var n := Span(s, EndsScheme);
    if 0 < n < |s| && s[n] == COLON then ParseHierarchy(Some(s[..n]), s[n + 1..])
    else ParseHierarchy(None, s)
  }

  // ---------------------------------------------------------------------------------------------
  // Parsing printed text

  predicate Avoids(s: Bytes, stop: Table) { forall i :: 0 <= i < |s| ==> !stop(s[i]) }

  /** No byte of the table or of a triplet stops the part. */
  ghost predicate Harmless(t: Table, stop: Table) {
    && !stop(PERCENT)
    && (forall b :: t(b) ==> !stop(b))
    && (forall b :: UnHex(b).Some? ==> !stop(b))
  }

  lemma {:induction false} WellFormedAvoids(t: Table, s: Bytes, stop: Table)
    requires WellFormed(t, s) && Harmless(t, stop)
    ensures Avoids(s, stop)
  {
    if s != [] {
      if s[0] == PERCENT {
        WellFormedAvoids(t, s[3..], stop);
        assert s == [s[0], s[1], s[2]] + s[3..];
      } else {
        WellFormedAvoids(t, s[1..], stop);
        assert s == [s[0]] + s[1..];
      }
    }
  }

  lemma CutPrinted(mark: Byte, part: Option<Bytes>, rest: Bytes, end: Table)
    requires part.Some? ==> Avoids(part.value, end)
    requires rest == [] || (end(rest[0]) && rest[0] != mark)
    ensures Cut(Prefixed([mark], part) + rest, mark, end) == (part, rest)
  {
    var s := Prefixed([mark], part) + rest;
    if part.Some? {
      SpanIs(part.value, rest, end);
      assert s[1..] == part.value + rest;
    } else {
      assert s == rest;
    }
  }

  lemma SpanCut(a: Bytes, b: Bytes, stop: Table)
    requires Avoids(a, stop) && (b == [] || stop(b[0]))
    ensures Span(a + b, stop) == |a| && (a + b)[..|a|] == a && (a + b)[|a|..] == b
  {
  }

  lemma CutHostPrinted(host: Bytes, port: Option<Bytes>)
    requires WellFormed(RegNameChar, host)
    ensures CutHost(host + Prefixed([COLON], port)) == (host, Prefixed([COLON], port))
  {
    WellFormedAvoids(RegNameChar, host, EndsHost);
    WellFormedAvoids(RegNameChar, host, b => b == OPEN_BRACKET);
    SpanCut(host, Prefixed([COLON], port), EndsHost);
  }

  /** Host and port avoid what none of their characters is. */
  lemma HostTailAvoids(host: Bytes, port: Option<Bytes>, stop: Table)
    requires WellFormed(RegNameChar, host) && (port.Some? ==> Digits(port.value))
    requires Harmless(RegNameChar, stop) && !stop(COLON)
    ensures Avoids(host + Prefixed([COLON], port), stop)
  {
    WellFormedAvoids(RegNameChar, host, stop);
    assert port.Some? ==> forall b :: b in port.value ==> Digit(b) && UnHex(b).Some?;
  }

  lemma AuthorityAvoids(a: Authority)
    requires ValidAuthority(a) && WellFormed(RegNameChar, a.host)
    ensures Avoids(PrintAuthority(a), EndsAuthority)
  {
    HostTailAvoids(a.host, a.port, EndsAuthority);
    if a.userinfo.Some? { WellFormedAvoids(UserinfoChar, a.userinfo.value, EndsAuthority); }
  }

  lemma ParseHostPortPrinted(a: Authority)
    requires ValidAuthority(a) && WellFormed(RegNameChar, a.host)
    ensures ParseHostPort(a.userinfo, a.host + Prefixed([COLON], a.port)) == Some(a)
  {
    CutHostPrinted(a.host, a.port);
    CutPrinted(COLON, a.port, [], EndsFragment);
    assert Prefixed([COLON], a.port) + [] == Prefixed([COLON], a.port);
  }

  lemma {:induction false} ParseAuthorityPrinted(a: Authority)
    requires ValidAuthority(a) && WellFormed(RegNameChar, a.host)
    ensures ParseAuthority(PrintAuthority(a)) == Some(a)
  {
    var tail := a.host + Prefixed([COLON], a.port);
    ParseHostPortPrinted(a);
    if a.userinfo.Some? {
      UserinfoCut(a.userinfo.value, tail);
      assert PrintAuthority(a) == a.userinfo.value + [AT] + tail;
    } else {
      HostTailAvoids(a.host, a.port, IsAt);
      SpanCut(tail, [], IsAt);
      assert PrintAuthority(a) == tail && tail + [] == tail;
    }
  }

  lemma UserinfoCut(info: Bytes, tail: Bytes)
    requires WellFormed(UserinfoChar, info)
    ensures ParseAuthority(info + [AT] + tail) == ParseHostPort(Some(info), tail)
  {
    var s := info + [AT] + tail;
    WellFormedAvoids(UserinfoChar, info, IsAt);
    SpanCut(info, [AT] + tail, IsAt);
    assert s == info + ([AT] + tail);
    assert s[|info| + 1..] == tail;
  }

  lemma ParsePathPrinted(u: Uri)
    requires Valid(u)
    ensures ParsePath(u.scheme, u.authority,
              u.path + (Prefixed([QUESTION], u.query) + Prefixed([HASH], u.fragment))) == Some(u)
  {
    var fragment := Prefixed([HASH], u.fragment);
    var tail := Prefixed([QUESTION], u.query) + fragment;
    WellFormedAvoids(PathChar, u.path, EndsPath);
    if u.query.Some? { WellFormedAvoids(QueryChar, u.query.value, EndsQuery); }
    SpanIs(u.path, tail, EndsPath);
    CutPrinted(QUESTION, u.query, fragment, EndsQuery);
    CutPrinted(HASH, u.fragment, [], EndsFragment);
    assert fragment + [] == fragment;
    assert (u.path + tail)[..|u.path|] == u.path && (u.path + tail)[|u.path|..] == tail;
  }

  lemma {:induction false} HierarchyCut(scheme: Option<Bytes>, text: Bytes, path: Bytes)
    requires Avoids(text, EndsAuthority) && (path == [] || EndsAuthority(path[0]))
    ensures ParseHierarchy(scheme, [SLASH, SLASH] + text + path) ==
            match ParseAuthority(text) case None => None case Some(a) => ParsePath(scheme, Some(a), path)
  {
    SpanCut(text, path, EndsAuthority);
    assert ([SLASH, SLASH] + text + path)[2..] == text + path;
  }

  lemma ParseHierarchyPrinted(u: Uri)
    requires Valid(u) && u.authority.Some? && WellFormed(RegNameChar, u.authority.value.host)
    ensures ParseHierarchy(u.scheme, [SLASH, SLASH] + PrintAuthority(u.authority.value)
              + (u.path + (Prefixed([QUESTION], u.query) + Prefixed([HASH], u.fragment)))) == Some(u)
  {
    var path := u.path + (Prefixed([QUESTION], u.query) + Prefixed([HASH], u.fragment));
    AuthorityAvoids(u.authority.value);
    ParseAuthorityPrinted(u.authority.value);
    ParsePathPrinted(u);
    HierarchyCut(u.scheme, PrintAuthority(u.authority.value), path);
  }

  /** A URI with a scheme and a named host is what its own text parses to. */
  lemma ParsePrinted(u: Uri)
    requires Valid(u) && u.scheme.Some? && u.authority.Some? && WellFormed(RegNameChar, u.authority.value.host)
    ensures Parse(Print(u)) == Some(u)
  {
    var scheme := u.scheme.value;
    var hier := [SLASH, SLASH] + PrintAuthority(u.authority.value)
      + (u.path + (Prefixed([QUESTION], u.query) + Prefixed([HASH], u.fragment)));
    ParseHierarchyPrinted(u);
    SchemeCut(scheme, hier);
    assert Print(u) == scheme + ([COLON] + hier);
  }

  lemma SchemeCut(scheme: Bytes, hier: Bytes)
    requires ValidScheme(scheme)
    ensures Parse(scheme + ([COLON] + hier)) == ParseHierarchy(Some(scheme), hier)
  {
    var s := scheme + ([COLON] + hier);
    assert Avoids(scheme, EndsScheme);
    SpanCut(scheme, [COLON] + hier, EndsScheme);
    assert s[|scheme| + 1..] == hier;
  }

  // ---------------------------------------------------------------------------------------------
  // Printing parsed text

  lemma SpanParts(s: Bytes, stop: Table)
    ensures s == s[..Span(s, stop)] + s[Span(s, stop)..]
  {
  }

  lemma CutSound(s: Bytes, mark: Byte, end: Table)
    ensures var (part, rest) := Cut(s, mark, end); s == Prefixed([mark], part) + rest
  {
    if s != [] && s[0] == mark {
      SpanParts(s[1..], end);
      assert s == [mark] + s[1..];
    }
  }

  lemma CutEnds(s: Bytes, mark: Byte, end: Table)
    ensures var rest := Cut(s, mark, end).1; rest == [] || end(rest[0]) || (rest == s && s[0] != mark)
  {
  }

  lemma HostPortSound(userinfo: Option<Bytes>, s: Bytes)
    ensures var a := ParseHostPort(userinfo, s);
            a.Some? ==> a.value.userinfo == userinfo && s == a.value.host + Prefixed([COLON], a.value.port)
  {
    var (host, rest) := CutHost(s);
    assert s == host + rest;
    CutSound(rest, COLON, EndsFragment);
    var (port, left) := Cut(rest, COLON, EndsFragment);
    assert Prefixed([COLON], port) + [] == Prefixed([COLON], port);
  }

  lemma UserinfoSound(s: Bytes, n: nat)
    requires n < |s| && s[n] == AT
    ensures var a := ParseHostPort(Some(s[..n]), s[n + 1..]);
            a.Some? ==> PrintAuthority(a.value) == s
  {
    HostPortSound(Some(s[..n]), s[n + 1..]);
    assert s == s[..n] + [AT] + s[n + 1..];
  }

  lemma {:induction false} AuthoritySound(s: Bytes)
    ensures ParseAuthority(s).Some? ==> PrintAuthority(ParseAuthority(s).value) == s
  {
    var n := Span(s, IsAt);
    if n < |s| {
      UserinfoSound(s, n);
    } else {
      HostPortSound(None, s);
    }
  }

  function PrintTail(u: Uri): Bytes { u.path + (Prefixed([QUESTION], u.query) + Prefixed([HASH], u.fragment)) }

  lemma TailSound(tail: Bytes)
    requires tail == [] || EndsPath(tail[0])
    ensures var (query, rest) := Cut(tail, QUESTION, EndsQuery);
            tail == Prefixed([QUESTION], query) + Prefixed([HASH], Cut(rest, HASH, EndsFragment).0)
  {
    CutSound(tail, QUESTION, EndsQuery);
    CutEnds(tail, QUESTION, EndsQuery);
    var rest := Cut(tail, QUESTION, EndsQuery).1;
    CutSound(rest, HASH, EndsFragment);
    CutEnds(rest, HASH, EndsFragment);
    var fragment := Prefixed([HASH], Cut(rest, HASH, EndsFragment).0);
    assert fragment + [] == fragment;
  }

  lemma {:induction false} CutPathSound(scheme: Option<Bytes>, authority: Option<Authority>, s: Bytes)
    ensures PrintTail(CutPath(scheme, authority, s)) == s
  {
    SpanParts(s, EndsPath);
    TailSound(s[Span(s, EndsPath)..]);
  }

  lemma PathSound(scheme: Option<Bytes>, authority: Option<Authority>, s: Bytes)
    ensures var u := ParsePath(scheme, authority, s);
            u.Some? ==> u.value.scheme == scheme && u.value.authority == authority && PrintTail(u.value) == s
  {
    CutPathSound(scheme, authority, s);
  }

  lemma AfterSlashes(scheme: Option<Bytes>, s: Bytes)
    requires |s| >= 2 && s[0] == SLASH && s[1] == SLASH
    ensures var u := ParseHierarchy(scheme, s);
            u.Some? ==>
              && u.value.scheme == scheme && u.value.authority.Some?
              && s == [SLASH, SLASH] + PrintAuthority(u.value.authority.value) + PrintTail(u.value)
  {
    var n := Span(s[2..], EndsAuthority);
    var text, tail := s[2..][..n], s[2..][n..];
    assert s == [SLASH, SLASH] + text + tail;
    AuthoritySound(text);
    if ParseAuthority(text).Some? { PathSound(scheme, ParseAuthority(text), tail); }
  }

  function PrintHierarchy(u: Uri): Bytes {
    (if u.authority.Some? then [SLASH, SLASH] + PrintAuthority(u.authority.value) else []) + PrintTail(u)
  }

  lemma HierarchySound(scheme: Option<Bytes>, s: Bytes)
    ensures var u := ParseHierarchy(scheme, s);
            u.Some? ==> u.value.scheme == scheme && PrintHierarchy(u.value) == s
  {
    if |s| >= 2 && s[0] == SLASH && s[1] == SLASH {
      AfterSlashes(scheme, s);
    } else {
      PathSound(scheme, None, s);
    }
  }

  lemma PrintIs(u: Uri)
    ensures Print(u) == (if u.scheme.Some? then u.scheme.value + [COLON] else []) + PrintHierarchy(u)
  {
  }

  /** What a text parses to prints as that text: nothing in it is lost or rewritten. */
  lemma {:induction false} PrintParsed(s: Bytes)
    ensures Parse(s).Some? ==> Print(Parse(s).value) == s
  {
    var n := Span(s, EndsScheme);
    var named := 0 < n < |s| && s[n] == COLON;
    var scheme := if named then Some(s[..n]) else None;
    var rest := if named then s[n + 1..] else s;
    assert s == (if named then s[..n] + [COLON] else []) + rest;
    HierarchySound(scheme, rest);
    if Parse(s).Some? { PrintIs(Parse(s).value); }
  }
}
