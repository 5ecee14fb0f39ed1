/**
 Node and sturdyref locators, their URI form, and which of them survive printing and parsing.
 */
module Locators {
  import opened Wrappers
  import opened Codecs
  import opened PercentCodec
  import opened Uris

  type Hints = map<Bytes, Bytes>

  datatype NodeLocator = NodeLocator(designator: Bytes, transport: Bytes, hints: Hints)

  datatype SturdyRef = SturdyRef(node: NodeLocator, swissNum: Bytes)

  datatype ParseUriError =
    | UriSyntax | DecodeHint | UnrecognizedScheme(scheme: Bytes) | MissingAuthority | MissingTransport

  datatype ParseSturdyError = Locator(error: ParseUriError) | MissingPath | InvalidPath

  const OCAPN: Bytes := [111, 99, 97, 112, 110]
  const PORT: Bytes := [112, 111, 114, 116]
  const USERINFO: Bytes := [117, 115, 101, 114, 105, 110, 102, 111]
  const SWISS_PREFIX: Bytes := [SLASH, 115, SLASH]

  // ---------------------------------------------------------------------------------------------
  // Strings are UTF-8 (RFC 3629 section 4)

  predicate Continues(s: Bytes, from: nat, to: nat, low: Byte, high: Byte)
    requires from < to
  {
    |s| >= to && low <= s[from] <= high && forall i :: from < i < to ==> 0x80 <= s[i] <= 0xBF
  }

  predicate ValidUtf8(s: Bytes) {
    if s == [] then true
    else if s[0] < 0x80 then ValidUtf8(s[1..])
    else if 0xC2 <= s[0] <= 0xDF then Continues(s, 1, 2, 0x80, 0xBF) && ValidUtf8(s[2..])
    else if 0xE0 <= s[0] <= 0xEF then
      Continues(s, 1, 3, if s[0] == 0xE0 then 0xA0 else 0x80, if s[0] == 0xED then 0x9F else 0xBF) && ValidUtf8(s[3..])
    else if 0xF0 <= s[0] <= 0xF4 then
      Continues(s, 1, 4, if s[0] == 0xF0 then 0x90 else 0x80, if s[0] == 0xF4 then 0x8F else 0xBF) && ValidUtf8(s[4..])
    else false
  }

  type Scalar = n: int | 0 <= n < 0xD800 || 0xE000 <= n < 0x11_0000

  /** The encoding of one scalar value, in one to four bytes. */
  function Utf8Of(n: Scalar): Bytes {
    if n < 0x80 then [n as Byte]
    else if n < 0x800 then [(0xC0 + n / 64) as Byte, (0x80 + n % 64) as Byte]
    else if n < 0x1_0000 then [(0xE0 + n / 64 / 64) as Byte, (0x80 + n / 64 % 64) as Byte, (0x80 + n % 64) as Byte]
    else
      [(0xF0 + n / 64 / 64 / 64) as Byte, (0x80 + n / 64 / 64 % 64) as Byte, (0x80 + n / 64 % 64) as Byte,
       (0x80 + n % 64) as Byte]
  }

  function Utf8Text(text: seq<Scalar>): Bytes {
    if text == [] then [] else Utf8Of(text[0]) + Utf8Text(text[1..])
  }

  lemma ScalarIsUtf8(n: Scalar, rest: Bytes)
    ensures ValidUtf8(Utf8Of(n) + rest) <==> ValidUtf8(rest)
  {
    var e := Utf8Of(n);
    assert (e + rest)[|e|..] == rest;
  }

  lemma {:induction false} TextIsUtf8(text: seq<Scalar>)
    ensures ValidUtf8(Utf8Text(text))
  {
    if text != [] {
      TextIsUtf8(text[1..]);
      ScalarIsUtf8(text[0], Utf8Text(text[1..]));
    }
  }

  /** A number with one more byte of payload. */
  function More(n: int, b: Byte): (r: int)
    requires 0x80 <= b <= 0xBF
    ensures r / 64 == n && (0x80 + r % 64) as Byte == b
  {
    n * 64 + (b as int - 0x80)
  }

  lemma {:induction false} ThreeBytes(a: Byte, b: Byte, c: Byte) returns (n: Scalar)
    requires 0xE0 <= a <= 0xEF && (if a == 0xE0 then 0xA0 else 0x80) <= b <= (if a == 0xED then 0x9F else 0xBF)
    requires 0x80 <= c <= 0xBF
    ensures Utf8Of(n) == [a, b, c]
  {
    var m := More(a as int - 0xE0, b);
    n := More(m, c);
    assert n / 64 == m && m / 64 == a as int - 0xE0;
  }

  lemma {:induction false} FourBytes(a: Byte, b: Byte, c: Byte, d: Byte) returns (n: Scalar)
    requires 0xF0 <= a <= 0xF4 && (if a == 0xF0 then 0x90 else 0x80) <= b <= (if a == 0xF4 then 0x8F else 0xBF)
    requires 0x80 <= c <= 0xBF && 0x80 <= d <= 0xBF
    ensures Utf8Of(n) == [a, b, c, d]
  {
    var l := More(a as int - 0xF0, b);
    var m := More(l, c);
    n := More(m, d);
    assert n / 64 == m && m / 64 == l && l / 64 == a as int - 0xF0;
  }

  /** The scalar value that a valid string begins with. */
  lemma {:induction false} FirstScalar(s: Bytes) returns (n: Scalar)
    requires s != [] && ValidUtf8(s)
    ensures Utf8Of(n) <= s && ValidUtf8(s[|Utf8Of(n)|..])
  {
    if s[0] < 0x80 {
      n := s[0] as int;
    } else if s[0] <= 0xDF {
      n := More(s[0] as int - 0xC0, s[1]);
    } else if s[0] <= 0xEF {
      n := ThreeBytes(s[0], s[1], s[2]);
    } else {
      n := FourBytes(s[0], s[1], s[2], s[3]);
    }
  }

  lemma {:induction false} Utf8IsText(s: Bytes) returns (text: seq<Scalar>)
    requires ValidUtf8(s)
    ensures Utf8Text(text) == s
  {
    text := [];
    if s != [] {
      var n := FirstScalar(s);
      var rest := Utf8IsText(s[|Utf8Of(n)|..]);
      text := [n] + rest;
      assert text[1..] == rest;
      assert s == Utf8Of(n) + s[|Utf8Of(n)|..];
    }
  }

  /** The valid strings are exactly the encodings of sequences of scalar values. */
  lemma {:induction false} ValidUtf8Exactly(s: Bytes)
    ensures ValidUtf8(s) <==> exists text: seq<Scalar> :: Utf8Text(text) == s
  {
    if ValidUtf8(s) {
      var text := Utf8IsText(s);
    }
    forall text: seq<Scalar> | Utf8Text(text) == s ensures ValidUtf8(s) {
      TextIsUtf8(text);
    }
  }

  lemma {:induction false} AsciiIsUtf8(s: Bytes)
    requires forall i :: 0 <= i < |s| ==> s[i] < 0x80
    ensures ValidUtf8(s)
  {
    if s != [] { AsciiIsUtf8(s[1..]); }
  }

  lemma {:induction false} Utf8Append(a: Bytes, b: Bytes)
    requires ValidUtf8(a)
    ensures ValidUtf8(a + b) <==> ValidUtf8(b)
  {
    if a == [] {
      assert a + b == b;
    } else {
      var k := if a[0] < 0x80 then 1 else if a[0] <= 0xDF then 2 else if a[0] <= 0xEF then 3 else 4;
      assert (a + b)[k..] == a[k..] + b;
      Utf8Append(a[k..], b);
    }
  }

  /** How many bytes the first scalar value of a string takes. */
  function Width(s: Bytes): nat
    requires s != []
  {
    if s[0] < 0x80 then 1 else if s[0] <= 0xDF then 2 else if s[0] <= 0xEF then 3 else 4
  }

  lemma FirstBytes(s: Bytes)
    requires s != [] && ValidUtf8(s)
    ensures Width(s) <= |s| && ValidUtf8(s[Width(s)..])
    ensures forall i :: 0 < i < Width(s) ==> s[i] >= 0x80
  {
  }

  /** Whether a string is valid depends on its first scalar value and on the rest. */
  lemma SameFirst(s: Bytes, a: Bytes)
    requires s != [] && a != [] && ValidUtf8(s) && a[0] == s[0] && Width(s) <= |s| && Width(s) <= |a|
    requires forall i :: 0 <= i < Width(s) ==> a[i] == s[i]
    ensures ValidUtf8(a) <==> ValidUtf8(a[Width(s)..])
  {
  }

  lemma Inside(a: Bytes, c: Byte, b: Bytes, k: nat)
    requires 0 < k <= |a + [c] + b| && c < 0x80 && a != []
    requires forall i :: 0 < i < k ==> (a + [c] + b)[i] >= 0x80
    ensures k <= |a| && (a + [c] + b)[k..] == a[k..] + [c] + b
    ensures forall i :: 0 <= i < k ==> (a + [c] + b)[i] == a[i]
  {
    assert (a + [c] + b)[|a|] == c;
    var first, rest := a[..k], a[k..];
    assert a == first + rest && a + [c] + b == first + (rest + [c] + b);
  }

  /** A string cut at an ASCII byte is two strings. */
  lemma {:induction false} Utf8Cut(a: Bytes, c: Byte, b: Bytes)
    requires c < 0x80 && ValidUtf8(a + [c] + b)
    ensures ValidUtf8(a) && ValidUtf8(b)
    decreases |a|
  {
    if a == [] {
      assert (a + [c] + b)[1..] == b;
    } else {
      var s := a + [c] + b;
      FirstBytes(s);
      Inside(a, c, b, Width(s));
      SameFirst(s, a);
      Utf8Cut(a[Width(s)..], c, b);
    }
  }

  lemma {:induction false} Utf8Split(s: Bytes, c: Byte)
    requires c < 0x80 && ValidUtf8(s)
    ensures forall p :: p in Split(s, c) ==> ValidUtf8(p)
    decreases |s|
  {
    match SplitOnce(s, c)
    case None =>
    case Some((a, b)) =>
      Utf8Cut(a, c, b);
      Utf8Split(b, c);
  }

  lemma {:induction false} Utf8Join(ps: seq<Bytes>, c: Byte)
    requires c < 0x80 && forall p :: p in ps ==> ValidUtf8(p)
    ensures ValidUtf8(Join(ps, c))
  {
    if |ps| > 1 {
      assert ps[0] in ps && forall p :: p in ps[1..] ==> p in ps;
      Utf8Join(ps[1..], c);
      Utf8Append(ps[0], [c] + Join(ps[1..], c));
      assert ([c] + Join(ps[1..], c))[1..] == Join(ps[1..], c);
      assert ps[0] + ([c] + Join(ps[1..], c)) == Join(ps, c);
    } else if |ps| == 1 {
      assert ps[0] in ps;
    }
  }

  /** What the type of a locator's fields guarantees. */
  predicate IsLocator(loc: NodeLocator) {
    && ValidUtf8(loc.designator) && ValidUtf8(loc.transport)
    && forall k :: k in loc.hints ==> ValidUtf8(k) && ValidUtf8(loc.hints[k])
  }

  // ---------------------------------------------------------------------------------------------
  // Printing

  /** The order in which a hash map happens to yield its keys. */
  ghost predicate Enumerates(order: seq<Bytes>, hints: Hints) {
    && (forall k :: k in order <==> k in hints)
    && (forall i, j :: 0 <= i < j < |order| ==> order[i] != order[j])
  }

  /** Hints that belong to the authority component. */
  predicate InAuthority(key: Bytes) { key == PORT || key == USERINFO }

  predicate InQuery(hints: Hints, key: Bytes) { key in hints && !InAuthority(key) }

  function Pair(key: Bytes, value: Bytes): Bytes { key + [EQUALS] + value }

  /** The unescaped `key=value` texts of the hints printed into the query. */
  function QueryPairs(hints: Hints, order: seq<Bytes>): seq<Bytes> {
    if order == [] then []
    else (if InQuery(hints, order[0]) then [Pair(order[0], hints[order[0]])] else []) + QueryPairs(hints, order[1..])
  }

  /** '&' and '=' stand for themselves in a query, so its text is one encoding of the joined pairs. */
  function QueryText(pairs: seq<Bytes>): Bytes { Encode(QueryChar, Join(pairs, AMPERSAND)) }

  function QueryOf(hints: Hints, order: seq<Bytes>): Option<Bytes> {
    var pairs := QueryPairs(hints, order);
    if pairs == [] then None else Some(QueryText(pairs))
  }

  lemma {:induction false} QueryPairsAppend(hints: Hints, order: seq<Bytes>, k: Bytes)
    ensures QueryPairs(hints, order + [k]) ==
            QueryPairs(hints, order) + if InQuery(hints, k) then [Pair(k, hints[k])] else []
  {
    if order == [] {
      assert order + [k] == [k];
    } else {
      assert (order + [k])[1..] == order[1..] + [k];
      QueryPairsAppend(hints, order[1..], k);
    }
  }

  /** One more pair: a separator unless it is the first. */
  lemma QueryTextAppend(pairs: seq<Bytes>, k: Bytes, v: Bytes)
    ensures QueryText(pairs + [Pair(k, v)]) ==
            (if pairs == [] then [] else QueryText(pairs) + [AMPERSAND]) + EncodedPair(k, v)
  {
    EncodeSeparated(QueryChar, k, EQUALS, v);
    if pairs == [] {
      assert pairs + [Pair(k, v)] == [Pair(k, v)];
      assert [] + EncodedPair(k, v) == EncodedPair(k, v);
    } else {
      JoinAppend(pairs, Pair(k, v), AMPERSAND);
      EncodeSeparated(QueryChar, Join(pairs, AMPERSAND), AMPERSAND, Pair(k, v));
    }
  }

  function EncodedPair(k: Bytes, v: Bytes): Bytes { Encode(QueryChar, k) + [EQUALS] + Encode(QueryChar, v) }

  lemma {:induction false} PairsNotEmpty(hints: Hints, order: seq<Bytes>)
    ensures forall p :: p in QueryPairs(hints, order) ==> p != []
  {
    if order != [] {
      PairsNotEmpty(hints, order[1..]);
    }
  }

  /** Pairs are never empty, even for an empty key and value, and so neither is a text of pairs. */
  lemma QueryTextEmpty(hints: Hints, order: seq<Bytes>)
    ensures QueryText(QueryPairs(hints, order)) == [] <==> QueryPairs(hints, order) == []
  {
  }

  lemma {:induction false} NoHintsNoPairs(order: seq<Bytes>)
    ensures QueryPairs(map[], order) == []
  {
    if order != [] {
      NoHintsNoPairs(order[1..]);
    }
  }

  method PushPair(query: Bytes, k: Bytes, v: Bytes) returns (q: Bytes)
    ensures q == query + EncodedPair(k, v)
  {
    q := query + Encode(QueryChar, k);
    q := q + [EQUALS];
    q := q + Encode(QueryChar, v);
  }

  /** How the text grows from one key of the enumeration to the next. */
  lemma QueryTextStep(hints: Hints, order: seq<Bytes>, k: Bytes)
    requires k in hints
    ensures var text := QueryText(QueryPairs(hints, order));
            QueryText(QueryPairs(hints, order + [k])) ==
              if InAuthority(k) then text
              else (if text == [] then [] else text + [AMPERSAND]) + EncodedPair(k, hints[k])
  {
    QueryPairsAppend(hints, order, k);
    QueryTextEmpty(hints, order);
    var pairs := QueryPairs(hints, order);
    if InAuthority(k) {
      assert pairs + [] == pairs;
    } else {
      QueryTextAppend(pairs, k, hints[k]);
    }
  }

  lemma QueryOfText(hints: Hints, order: seq<Bytes>)
    ensures var text := QueryText(QueryPairs(hints, order));
            QueryOf(hints, order) == if text == [] then None else Some(text)
  {
  }

  method EncodedQuery(hints: Hints, order: seq<Bytes>) returns (q: Option<Bytes>)
    requires Enumerates(order, hints)
    ensures q == QueryOf(hints, order)
  {
    if hints == map[] {
      NoHintsNoPairs(order);
      return None;
    }
    var query: Bytes := [];
    var i := 0;
    while i < |order|
      invariant 0 <= i <= |order|
      invariant query == QueryText(QueryPairs(hints, order[..i]))
    {
      var k := order[i];
      assert k in order;
      assert order[..i + 1] == order[..i] + [k];
      QueryTextStep(hints, order[..i], k);
      i := i + 1;
      if k == PORT || k == USERINFO { continue; }
      if query != [] { query := query + [AMPERSAND]; }
      query := PushPair(query, k, hints[k]);
    }
    assert order[..i] == order;
    QueryOfText(hints, order);
    q := if query == [] then None else Some(query);
  }

  function Hint(hints: Hints, key: Bytes): Option<Bytes> {
    if key in hints then Some(hints[key]) else None
  }

  function EncodedHost(loc: NodeLocator): Bytes {
    Encode(RegNameChar, loc.designator) + [DOT] + Encode(RegNameChar, loc.transport)
  }

  function EncodedUserinfo(loc: NodeLocator): Option<Bytes> {
    match Hint(loc.hints, USERINFO)
    case None => None
    case Some(info) => Some(Encode(UserinfoChar, info))
  }

  /** A port is a string of digits (RFC 3986 section 3.2.3). */
  predicate PortIsDigits(loc: NodeLocator) { PORT in loc.hints ==> Digits(loc.hints[PORT]) }

  /** None when the builder refuses the port hint. */
  function BuildUri(loc: NodeLocator, order: seq<Bytes>, path: Bytes): Option<Uri> {
    if !PortIsDigits(loc) then None
    else Some(Uri(Some(OCAPN), Some(Authority(EncodedUserinfo(loc), EncodedHost(loc), Hint(loc.hints, PORT))),
                  path, QueryOf(loc.hints, order), None))
  }

  const SCHEME_MARK: Bytes := [111, 99, 97, 112, 110, 58, 47, 47]

  /** A locator prints exactly when its port hint, if it has one, is decimal digits; there may be none of them. */
  lemma {:induction false} PrintsExactly(loc: NodeLocator, order: seq<Bytes>, path: Bytes)
    ensures BuildUri(loc, order, path).Some? <==>
            (PORT in loc.hints ==>
              forall i :: 0 <= i < |loc.hints[PORT]| ==> loc.hints[PORT][i] as int as char in "0123456789")
    ensures PortIsDigits(loc) <==> BuildUri(loc, order, path).Some?
  {
    if PORT in loc.hints { CharactersExactly(loc.hints[PORT]); }
  }

  function UserinfoText(info: Option<Bytes>): Bytes {
    if info.Some? then Encode(UserinfoChar, info.value) + [AT] else []
  }

  function QueryMark(pairs: seq<Bytes>): Bytes {
    if pairs != [] then [QUESTION] + Encode(QueryChar, Join(pairs, AMPERSAND)) else []
  }

  /** The printed form: "ocapn://", userinfo, escaped designator and transport, port, path, and query. */
  lemma {:induction false} PrintedText(loc: NodeLocator, order: seq<Bytes>, path: Bytes)
    requires PortIsDigits(loc)
    ensures Print(BuildUri(loc, order, path).value) ==
            SCHEME_MARK
            + (UserinfoText(Hint(loc.hints, USERINFO))
               + (Encode(RegNameChar, loc.designator) + [DOT] + Encode(RegNameChar, loc.transport)
                  + (if PORT in loc.hints then [COLON] + loc.hints[PORT] else []))
               + (path + QueryMark(QueryPairs(loc.hints, order))))
  {
    var u := BuildUri(loc, order, path).value;
    var authority := PrintAuthority(u.authority.value);
    var tail := u.path + (Prefixed([QUESTION], u.query) + Prefixed([HASH], u.fragment));
    assert Prefixed([QUESTION], u.query) + [] == QueryMark(QueryPairs(loc.hints, order));
    SchemeMark(authority, tail);
    PrintedAuthority(loc, u.authority.value);
  }

  lemma SchemeMark(authority: Bytes, tail: Bytes)
    ensures OCAPN + [COLON] + ([SLASH, SLASH] + authority + tail) == SCHEME_MARK + (authority + tail)
  {
    assert OCAPN + [COLON] + [SLASH, SLASH] == SCHEME_MARK;
    assert [SLASH, SLASH] + authority + tail == [SLASH, SLASH] + (authority + tail);
    Associative(OCAPN + [COLON], [SLASH, SLASH], authority + tail);
  }

  lemma PrintedAuthority(loc: NodeLocator, a: Authority)
    requires a == Authority(EncodedUserinfo(loc), EncodedHost(loc), Hint(loc.hints, PORT))
    ensures PrintAuthority(a) ==
            UserinfoText(Hint(loc.hints, USERINFO))
            + (Encode(RegNameChar, loc.designator) + [DOT] + Encode(RegNameChar, loc.transport)
               + (if PORT in loc.hints then [COLON] + loc.hints[PORT] else []))
  {
  }

  function EncodedPath(swissNum: Bytes): Bytes { SWISS_PREFIX + Encode(PathChar, swissNum) }

  // ---------------------------------------------------------------------------------------------
  // Parsing

  function Lower(b: Byte): Byte { if 65 <= b <= 90 then b + 32 else b }

  predicate EqIgnoreCase(a: Bytes, b: Bytes) {
    |a| == |b| && forall i :: 0 <= i < |a| ==> Lower(a[i]) == Lower(b[i])
  }

  /** Percent-decode; an error unless the result is UTF-8. */
  function DecodeString(s: Bytes): (r: Result<Bytes, ParseUriError>)
    ensures r.Success? ==> r.value == Decode(s)
  {
    var d := Decode(s);
    if ValidUtf8(d) then Success(d) else Failure(DecodeHint)
  }

  function AddDecoded(hints: Hints, key: Result<Bytes, ParseUriError>, value: Result<Bytes, ParseUriError>)
    : Result<Hints, ParseUriError>
  {
    if key.Failure? then Failure(key.error)
    else if value.Failure? then Failure(value.error)
    else Success(hints[key.value := value.value])
  }

  /** Add the hint of one piece of a query; a piece without '=' is skipped. */
  function AddPiece(hints: Hints, piece: Bytes): Result<Hints, ParseUriError> {
    match SplitOnce(piece, EQUALS)
    case None => Success(hints)
    case Some((key, value)) => AddDecoded(hints, DecodeString(key), DecodeString(value))
  }

  /** Add the hints of all pieces, in order, so that later ones win. */
  function InsertPairs(hints: Hints, pieces: seq<Bytes>): Result<Hints, ParseUriError>
    decreases |pieces|
  {
    if pieces == [] then Success(hints)
    else
      match AddPiece(hints, pieces[0])
      case Failure(error) => Failure(error)
      case Success(more) => InsertPairs(more, pieces[1..])
  }

  function AuthorityHints(a: Authority): Result<Hints, ParseUriError> {
    var info := if a.userinfo.Some? then DecodeString(a.userinfo.value) else Success([]);
    if info.Failure? then Failure(info.error)
    else
      var hints: Hints := if a.userinfo.Some? then map[][USERINFO := info.value] else map[];
      Success(if a.port.Some? then hints[PORT := a.port.value] else hints)
  }

  function LocatorOf(u: Uri): Result<NodeLocator, ParseUriError> {
    if u.scheme.Some? && !EqIgnoreCase(u.scheme.value, OCAPN) then Failure(UnrecognizedScheme(u.scheme.value))
    else if u.authority.None? then Failure(MissingAuthority)
    else
      match RSplitOnce(u.authority.value.host, DOT)
      case None => Failure(MissingTransport)
      case Some((designator, transport)) =>
        var first := AuthorityHints(u.authority.value);
        if first.Failure? then Failure(first.error)
        else
          var hints := if u.query.Some? then InsertPairs(first.value, Split(u.query.value, AMPERSAND)) else first;
          if hints.Failure? then Failure(hints.error)
          else Success(NodeLocator(designator, transport, hints.value))
  }

  lemma InsertStep(hints: Hints, pieces: seq<Bytes>, i: nat)
    requires i < |pieces|
    ensures InsertPairs(hints, pieces[i..]) ==
            match AddPiece(hints, pieces[i])
            case Failure(error) => Failure(error)
            case Success(more) => InsertPairs(more, pieces[i + 1..])
  {
    assert pieces[i..][1..] == pieces[i + 1..];
  }

  method ParseNodeLocator(u: Uri) returns (r: Result<NodeLocator, ParseUriError>)
    ensures r == LocatorOf(u)
  {
    if u.scheme.Some? && !EqIgnoreCase(u.scheme.value, OCAPN) {
      return Failure(UnrecognizedScheme(u.scheme.value));
    }
    if u.authority.None? { return Failure(MissingAuthority); }
    var authority := u.authority.value;
    var host := RSplitOnce(authority.host, DOT);
    if host.None? { return Failure(MissingTransport); }
    var hints: Hints := map[];
    if authority.userinfo.Some? {
      var info := DecodeString(authority.userinfo.value);
      if info.Failure? { return Failure(info.error); }
      hints := hints[USERINFO := info.value];
    }
    if authority.port.Some? { hints := hints[PORT := authority.port.value]; }
    assert AuthorityHints(authority) == Success(hints);
    if u.query.Some? {
      var pieces := Split(u.query.value, AMPERSAND);
      ghost var expected := InsertPairs(hints, pieces);
      var i := 0;
      while i < |pieces|
        invariant 0 <= i <= |pieces|
        invariant InsertPairs(hints, pieces[i..]) == expected
      {
        InsertStep(hints, pieces, i);
        var pair := SplitOnce(pieces[i], EQUALS);
        if pair.Some? {
          var key := DecodeString(pair.value.0);
          if key.Failure? { return Failure(key.error); }
          var value := DecodeString(pair.value.1);
          if value.Failure? { return Failure(value.error); }
          hints := hints[key.value := value.value];
        }
        i := i + 1;
      }
    }
    return Success(NodeLocator(host.value.0, host.value.1, hints));
  }

  function SturdyRefOf(u: Uri): Result<SturdyRef, ParseSturdyError> {
    match LocatorOf(u)
    case Failure(error) => Failure(Locator(error))
    case Success(node) =>
      var path := Decode(u.path);
      if path == [] then Failure(MissingPath)
      else if !(SWISS_PREFIX <= path) then Failure(InvalidPath)
      else Success(SturdyRef(node, path[|SWISS_PREFIX|..]))
  }

  function ParseText(s: Bytes): Result<NodeLocator, ParseUriError> {
    match Parse(s) case None => Failure(UriSyntax) case Some(u) => LocatorOf(u)
  }

  function ParseSturdyText(s: Bytes): Result<SturdyRef, ParseSturdyError> {
    match Parse(s) case None => Failure(Locator(UriSyntax)) case Some(u) => SturdyRefOf(u)
  }

  // ---------------------------------------------------------------------------------------------
  // Which locators round-trip

  /** A hint whose printed pair is cut back into this key and this value. */
  predicate Clean(key: Bytes, value: Bytes) {
    AMPERSAND !in key && EQUALS !in key && AMPERSAND !in value
  }

  ghost predicate CleanHints(hints: Hints) {
    forall k :: InQuery(hints, k) ==> Clean(k, hints[k])
  }

  predicate RegNameOnly(s: Bytes) { forall b :: b in s ==> RegNameChar(b) }

  ghost predicate Printable(loc: NodeLocator) {
    && RegNameOnly(loc.designator) && RegNameOnly(loc.transport) && DOT !in loc.transport
    && CleanHints(loc.hints)
  }

  /** The printed host is cut back into the designator and the transport. */
  lemma {:induction false} HostRoundTrip(loc: NodeLocator)
    ensures EncodedHost(loc) == Encode(RegNameChar, loc.designator + [DOT] + loc.transport)
    ensures RSplitOnce(EncodedHost(loc), DOT) == Some((loc.designator, loc.transport)) <==>
            RegNameOnly(loc.designator) && RegNameOnly(loc.transport) && DOT !in loc.transport
    ensures RSplitOnce(EncodedHost(loc), DOT).Some?
  {
    EncodeSeparated(RegNameChar, loc.designator, DOT, loc.transport);
    var d, t := Encode(RegNameChar, loc.designator), Encode(RegNameChar, loc.transport);
    EncodeContains(RegNameChar, loc.transport, DOT);
    EncodeIdentityExactly(RegNameChar, loc.designator);
    EncodeIdentityExactly(RegNameChar, loc.transport);
    assert EncodedHost(loc)[|d|] == DOT;
    if DOT !in loc.transport {
      RSplitOnceIs(d, DOT, t);
    }
  }

  /** The hints after adding, in order, those of `hints` that go into the query. */
  function AddQueryHints(start: Hints, hints: Hints, order: seq<Bytes>): Hints
    decreases |order|
  {
    if order == [] then start
    else
      var k := order[0];
      AddQueryHints(if InQuery(hints, k) then start[k := hints[k]] else start, hints, order[1..])
  }

  lemma {:induction false} AddQueryHintsIs(start: Hints, hints: Hints, order: seq<Bytes>)
    ensures var sum := AddQueryHints(start, hints, order);
            forall k :: if k in order && InQuery(hints, k) then k in sum && sum[k] == hints[k]
                        else (k in sum <==> k in start) && (k in sum ==> sum[k] == start[k])
    decreases |order|
  {
    if order != [] {
      var k := order[0];
      var start' := if InQuery(hints, k) then start[k := hints[k]] else start;
      AddQueryHintsIs(start', hints, order[1..]);
      assert forall j :: j in order <==> j == k || j in order[1..];
    }
  }

  /** A clean pair decodes to the hint it was printed from. */
  lemma {:induction false} PieceRoundTrip(start: Hints, key: Bytes, value: Bytes)
    requires EQUALS !in key && ValidUtf8(key) && ValidUtf8(value)
    ensures AddPiece(start, Encode(QueryChar, Pair(key, value))) == Success(start[key := value])
  {
    SplitOnceEncode(QueryChar, Pair(key, value), EQUALS);
    SplitOnceIs(key, EQUALS, value);
    DecodeEncode(QueryChar, key);
    DecodeEncode(QueryChar, value);
  }

  lemma {:induction false} PairsRoundTrip(start: Hints, hints: Hints, order: seq<Bytes>)
    requires forall k :: k in order && k in hints ==> ValidUtf8(k) && ValidUtf8(hints[k])
    requires CleanHints(hints)
    ensures InsertPairs(start, EncodeAll(QueryChar, QueryPairs(hints, order))) ==
            Success(AddQueryHints(start, hints, order))
    decreases |order|
  {
    if order != [] {
      var k := order[0];
      assert k in order;
      if InQuery(hints, k) {
        PieceRoundTrip(start, k, hints[k]);
        PairsRoundTrip(start[k := hints[k]], hints, order[1..]);
        var pairs := QueryPairs(hints, order);
        assert pairs[1..] == QueryPairs(hints, order[1..]);
        assert EncodeAll(QueryChar, pairs)[1..] == EncodeAll(QueryChar, pairs[1..]);
      } else {
        PairsRoundTrip(start, hints, order[1..]);
        assert QueryPairs(hints, order) == QueryPairs(hints, order[1..]);
      }
    }
  }

  lemma {:induction false} CleanPairs(hints: Hints, order: seq<Bytes>)
    requires CleanHints(hints)
    ensures forall p :: p in QueryPairs(hints, order) ==> AMPERSAND !in p
  {
    if order != [] {
      CleanPairs(hints, order[1..]);
    }
  }

  lemma CutPieceIsClean(piece: Bytes)
    requires AMPERSAND !in piece
    ensures var cut := SplitOnce(piece, EQUALS);
            cut.Some? ==> Clean(cut.value.0, cut.value.1)
  {
  }

  lemma DecodePart(s: Bytes)
    ensures DecodeString(Encode(QueryChar, s)).Success? ==> DecodeString(Encode(QueryChar, s)).value == s
  {
    DecodeEncode(QueryChar, s);
  }

  /** A piece of an encoded query adds the hint it was cut from, or nothing, or fails. */
  lemma {:induction false} AddEncodedPiece(start: Hints, piece: Bytes)
    ensures var result := AddPiece(start, Encode(QueryChar, piece));
            match SplitOnce(piece, EQUALS)
            case None => result == Success(start)
            case Some((key, value)) => result.Success? ==> result.value == start[key := value]
  {
    SplitOnceEncode(QueryChar, piece, EQUALS);
    match SplitOnce(piece, EQUALS)
    case None =>
    case Some((key, value)) =>
      DecodePart(key);
      DecodePart(value);
  }

  /** Whatever an encoded query parses to, every hint it adds is clean. */
  lemma {:induction false} ParsedHintsAreClean(start: Hints, pieces: seq<Bytes>, hints: Hints)
    requires forall p :: p in pieces ==> AMPERSAND !in p
    requires InsertPairs(start, EncodeAll(QueryChar, pieces)) == Success(hints)
    ensures forall k :: k in hints ==> (k in start && hints[k] == start[k]) || Clean(k, hints[k])
    decreases |pieces|
  {
    if pieces != [] {
      assert EncodeAll(QueryChar, pieces)[1..] == EncodeAll(QueryChar, pieces[1..]);
      AddEncodedPiece(start, pieces[0]);
      CutPieceIsClean(pieces[0]);
      ParsedHintsAreClean(AddPiece(start, Encode(QueryChar, pieces[0])).value, pieces[1..], hints);
    }
  }

  function AuthorityPart(hints: Hints): Hints { map k | k in hints && InAuthority(k) :: hints[k] }

  lemma UserinfoReadsBack(info: Bytes)
    requires ValidUtf8(info)
    ensures DecodeString(Encode(UserinfoChar, info)) == Success(info)
  {
    DecodeEncode(UserinfoChar, info);
  }

  lemma AuthorityPartIs(hints: Hints)
    ensures var info: Hints := if USERINFO in hints then map[][USERINFO := hints[USERINFO]] else map[];
            AuthorityPart(hints) == if PORT in hints then info[PORT := hints[PORT]] else info
  {
  }

  lemma AuthorityRoundTrip(loc: NodeLocator)
    requires IsLocator(loc)
    ensures AuthorityHints(Authority(EncodedUserinfo(loc), EncodedHost(loc), Hint(loc.hints, PORT))) ==
            Success(AuthorityPart(loc.hints))
  {
    if USERINFO in loc.hints { UserinfoReadsBack(loc.hints[USERINFO]); }
    AuthorityPartIs(loc.hints);
  }

  /** The hints read back from the printed query, on top of those read back from the authority. */
  function ReadBack(loc: NodeLocator, order: seq<Bytes>): Result<Hints, ParseUriError> {
    var query := QueryOf(loc.hints, order);
    var start := AuthorityPart(loc.hints);
    if query.Some? then InsertPairs(start, Split(query.value, AMPERSAND)) else Success(start)
  }

  /** The query's hints complete the authority's. */
  lemma AllHintsAdded(hints: Hints, order: seq<Bytes>)
    requires Enumerates(order, hints)
    ensures AddQueryHints(AuthorityPart(hints), hints, order) == hints
  {
    var sum := AddQueryHints(AuthorityPart(hints), hints, order);
    AddQueryHintsIs(AuthorityPart(hints), hints, order);
    assert forall k :: k in sum <==> k in hints;
  }

  lemma CleanHintsReadBack(loc: NodeLocator, order: seq<Bytes>)
    requires IsLocator(loc) && Enumerates(order, loc.hints) && CleanHints(loc.hints)
    ensures ReadBack(loc, order) == Success(loc.hints)
  {
    var pairs := QueryPairs(loc.hints, order);
    PairsRoundTrip(AuthorityPart(loc.hints), loc.hints, order);
    CleanPairs(loc.hints, order);
    if pairs != [] {
      SplitEncode(QueryChar, Join(pairs, AMPERSAND), AMPERSAND);
      SplitJoin(pairs, AMPERSAND);
    }
    AllHintsAdded(loc.hints, order);
  }

  lemma UncleanHintIsLost(loc: NodeLocator, order: seq<Bytes>, k: Bytes)
    requires InQuery(loc.hints, k) && !Clean(k, loc.hints[k])
    ensures ReadBack(loc, order) != Success(loc.hints)
  {
    var start := AuthorityPart(loc.hints);
    var pairs := QueryPairs(loc.hints, order);
    if pairs != [] {
      var raw := Join(pairs, AMPERSAND);
      SplitEncode(QueryChar, raw, AMPERSAND);
      var result := InsertPairs(start, EncodeAll(QueryChar, Split(raw, AMPERSAND)));
      if result.Success? {
        ParsedHintsAreClean(start, Split(raw, AMPERSAND), result.value);
      }
    }
  }

  lemma HintsRoundTrip(loc: NodeLocator, order: seq<Bytes>)
    requires IsLocator(loc) && Enumerates(order, loc.hints)
    ensures ReadBack(loc, order) == Success(loc.hints) <==> CleanHints(loc.hints)
  {
    if CleanHints(loc.hints) {
      CleanHintsReadBack(loc, order);
    } else {
      var k :| InQuery(loc.hints, k) && !Clean(k, loc.hints[k]);
      UncleanHintIsLost(loc, order, k);
    }
  }

  // ---------------------------------------------------------------------------------------------
  // Which hint wins

  /** What a piece of a query says of a key. */
  function Gives(piece: Bytes, key: Bytes): Option<Bytes> {
    match SplitOnce(piece, EQUALS)
    case None => None
    case Some((k, value)) => if Decode(k) == key then Some(Decode(value)) else None
  }

  /** What the last of the pieces that say anything of `key` says. */
  function LastGiven(pieces: seq<Bytes>, key: Bytes): (r: Option<Bytes>)
    ensures match r
            case Some(value) => exists i ::
              && 0 <= i < |pieces| && Gives(pieces[i], key) == r
              && forall j :: i < j < |pieces| ==> Gives(pieces[j], key) == None
            case None => forall i :: 0 <= i < |pieces| ==> Gives(pieces[i], key) == None
  {
    if pieces == [] then None
    else
      var later := LastGiven(pieces[1..], key);
      assert pieces == [pieces[0]] + pieces[1..];
      if later.Some? then later else Gives(pieces[0], key)
  }

  /** Each key gets the value of the last piece that has it, and keeps what it had when none does. */
  lemma {:induction false} InsertedHint(start: Hints, pieces: seq<Bytes>, key: Bytes)
    requires InsertPairs(start, pieces).Success?
    ensures Hint(InsertPairs(start, pieces).value, key) ==
            if LastGiven(pieces, key).Some? then LastGiven(pieces, key) else Hint(start, key)
    decreases |pieces|
  {
    if pieces != [] {
      InsertedHint(AddPiece(start, pieces[0]).value, pieces[1..], key);
    }
  }

  /** The same for the text before encoding: only the piece's own '=' is looked at. */
  function Says(piece: Bytes, key: Bytes): Option<Bytes> {
    match SplitOnce(piece, EQUALS)
    case None => None
    case Some((k, value)) => if k == key then Some(value) else None
  }

  function LastSaid(pieces: seq<Bytes>, key: Bytes): (r: Option<Bytes>)
    ensures match r
            case Some(value) => exists i ::
              && 0 <= i < |pieces| && Says(pieces[i], key) == r
              && forall j :: i < j < |pieces| ==> Says(pieces[j], key) == None
            case None => forall i :: 0 <= i < |pieces| ==> Says(pieces[i], key) == None
  {
    if pieces == [] then None
    else
      var later := LastSaid(pieces[1..], key);
      assert pieces == [pieces[0]] + pieces[1..];
      if later.Some? then later else Says(pieces[0], key)
  }

  function EncodedParts(parts: Option<(Bytes, Bytes)>): Option<(Bytes, Bytes)> {
    if parts.None? then None else Some((Encode(QueryChar, parts.value.0), Encode(QueryChar, parts.value.1)))
  }

  lemma CutEncoded(piece: Bytes)
    ensures SplitOnce(Encode(QueryChar, piece), EQUALS) == EncodedParts(SplitOnce(piece, EQUALS))
  {
    SplitOnceEncode(QueryChar, piece, EQUALS);
  }

  lemma DecodeQuery(s: Bytes)
    ensures Decode(Encode(QueryChar, s)) == s
  {
    DecodeEncode(QueryChar, s);
  }

  lemma {:induction false} EncodedGives(piece: Bytes, key: Bytes)
    ensures Gives(Encode(QueryChar, piece), key) == Says(piece, key)
  {
    CutEncoded(piece);
    var parts := SplitOnce(piece, EQUALS);
    if parts.Some? {
      DecodeQuery(parts.value.0);
      DecodeQuery(parts.value.1);
    }
  }

  lemma {:induction false} EncodedLast(pieces: seq<Bytes>, key: Bytes)
    ensures LastGiven(EncodeAll(QueryChar, pieces), key) == LastSaid(pieces, key)
  {
    if pieces != [] {
      assert EncodeAll(QueryChar, pieces)[1..] == EncodeAll(QueryChar, pieces[1..]);
      EncodedLast(pieces[1..], key);
      EncodedGives(pieces[0], key);
    }
  }

  /** The pieces between the '&' of the printed query, before encoding; hints may bring in more of either. */
  function PrintedPieces(hints: Hints, order: seq<Bytes>): seq<Bytes> {
    var pairs := QueryPairs(hints, order);
    if pairs == [] then [] else Split(Join(pairs, AMPERSAND), AMPERSAND)
  }

  lemma ReadBackIs(loc: NodeLocator, order: seq<Bytes>)
    ensures ReadBack(loc, order) ==
            InsertPairs(AuthorityPart(loc.hints), EncodeAll(QueryChar, PrintedPieces(loc.hints, order)))
  {
    var pairs := QueryPairs(loc.hints, order);
    if pairs != [] { SplitEncode(QueryChar, Join(pairs, AMPERSAND), AMPERSAND); }
  }

  lemma {:induction false} PairsAreStrings(hints: Hints, order: seq<Bytes>)
    requires forall k :: k in hints ==> ValidUtf8(k) && ValidUtf8(hints[k])
    ensures forall p :: p in QueryPairs(hints, order) ==> ValidUtf8(p)
  {
    if order != [] {
      var k := order[0];
      PairsAreStrings(hints, order[1..]);
      if InQuery(hints, k) {
        Utf8Append(k, [EQUALS] + hints[k]);
        assert ([EQUALS] + hints[k])[1..] == hints[k];
        assert k + ([EQUALS] + hints[k]) == Pair(k, hints[k]);
      }
    }
  }

  lemma {:induction false} StringPieceDecodes(piece: Bytes)
    requires ValidUtf8(piece)
    ensures PieceDecodes(Encode(QueryChar, piece))
  {
    CutEncoded(piece);
    var parts := SplitOnce(piece, EQUALS);
    if parts.Some? {
      Utf8Cut(parts.value.0, EQUALS, parts.value.1);
      DecodeQuery(parts.value.0);
      DecodeQuery(parts.value.1);
    }
  }

  /** A printed query always decodes, whatever its hints contain. */
  lemma {:induction false} PrintedQueryDecodes(loc: NodeLocator, order: seq<Bytes>)
    requires IsLocator(loc)
    ensures ReadBack(loc, order).Success?
  {
    var pieces := PrintedPieces(loc.hints, order);
    ReadBackIs(loc, order);
    PairsAreStrings(loc.hints, order);
    if QueryPairs(loc.hints, order) != [] {
      Utf8Join(QueryPairs(loc.hints, order), AMPERSAND);
      Utf8Split(Join(QueryPairs(loc.hints, order), AMPERSAND), AMPERSAND);
    }
    forall i | 0 <= i < |pieces| ensures PieceDecodes(EncodeAll(QueryChar, pieces)[i]) {
      assert pieces[i] in pieces;
      StringPieceDecodes(pieces[i]);
    }
    InsertSucceeds(AuthorityPart(loc.hints), EncodeAll(QueryChar, pieces));
  }

  /**
   What a printed locator's port and userinfo read back as: the last printed piece that has that key
   wins over the authority component, and the hint is unchanged when no piece has it.
   */
  lemma {:induction false} OverrideExactly(loc: NodeLocator, order: seq<Bytes>, key: Bytes)
    requires IsLocator(loc) && InAuthority(key)
    ensures ReadBack(loc, order).Success?
    ensures var said := LastSaid(PrintedPieces(loc.hints, order), key);
            Hint(ReadBack(loc, order).value, key) == if said.Some? then said else Hint(loc.hints, key)
  {
    PrintedQueryDecodes(loc, order);
    ReadBackIs(loc, order);
    var pieces := PrintedPieces(loc.hints, order);
    InsertedHint(AuthorityPart(loc.hints), EncodeAll(QueryChar, pieces), key);
    EncodedLast(pieces, key);
  }

  lemma {:induction false} PairsSayTheirKeys(hints: Hints, order: seq<Bytes>, key: Bytes)
    requires CleanHints(hints) && InAuthority(key)
    ensures forall p :: p in QueryPairs(hints, order) ==> Says(p, key) == None
  {
    if order != [] {
      PairsSayTheirKeys(hints, order[1..], key);
      var k := order[0];
      if InQuery(hints, k) { SplitOnceIs(k, EQUALS, hints[k]); }
    }
  }

  /** With clean hints no printed piece has the key of the port or of the userinfo. */
  lemma CleanHintsNeverOverride(hints: Hints, order: seq<Bytes>, key: Bytes)
    requires CleanHints(hints) && InAuthority(key)
    ensures LastSaid(PrintedPieces(hints, order), key) == None
  {
    var pairs := QueryPairs(hints, order);
    PairsSayTheirKeys(hints, order, key);
    CleanPairs(hints, order);
    if pairs != [] { SplitJoin(pairs, AMPERSAND); }
  }

  const ONE: Bytes := [49]
  const TWO: Bytes := [50]
  const MARKED_PORT: Bytes := [AMPERSAND, 112, 111, 114, 116]
  const MARKED: Hints := map[MARKED_PORT := ONE, PORT := TWO]

  lemma MarkedPairs(order: seq<Bytes>)
    requires order == [MARKED_PORT, PORT]
    ensures QueryPairs(MARKED, order) == [Pair(MARKED_PORT, ONE)]
  {
    assert order[1..] == [PORT] && order[1..][1..] == [];
    assert QueryPairs(MARKED, order[1..]) == [];
  }

  /** The one pair is cut into two pieces. */
  lemma MarkedSplit(pieces: seq<Bytes>)
    requires pieces == [[], Pair(PORT, ONE)]
    ensures Split(Pair(MARKED_PORT, ONE), AMPERSAND) == pieces
  {
    assert pieces[1..] == [Pair(PORT, ONE)];
    assert Join(pieces, AMPERSAND) == [] + [AMPERSAND] + Pair(PORT, ONE);
    MarkedPair();
    SplitJoin(pieces, AMPERSAND);
  }

  lemma MarkedPair()
    ensures [] + [AMPERSAND] + Pair(PORT, ONE) == Pair(MARKED_PORT, ONE)
  {
    assert [AMPERSAND] + PORT == MARKED_PORT;
    assert [] + [AMPERSAND] + (PORT + [EQUALS] + ONE) == [AMPERSAND] + PORT + [EQUALS] + ONE;
  }

  lemma MarkedPieces(order: seq<Bytes>)
    requires order == [MARKED_PORT, PORT]
    ensures PrintedPieces(MARKED, order) == [[], Pair(PORT, ONE)]
  {
    MarkedPairs(order);
    MarkedSplit([[], Pair(PORT, ONE)]);
  }

  lemma MarkedLast()
    ensures LastSaid([[], Pair(PORT, ONE)], PORT) == Some(ONE)
  {
    var pieces := [[], Pair(PORT, ONE)];
    SplitOnceIs(PORT, EQUALS, ONE);
    assert Says(pieces[1], PORT) == Some(ONE);
  }

  const MARKED_LOCATOR: NodeLocator := NodeLocator([], [], MARKED)

  lemma MarkedIsLocator()
    ensures IsLocator(MARKED_LOCATOR) && Enumerates([MARKED_PORT, PORT], MARKED)
  {
    AsciiIsUtf8(MARKED_PORT);
    AsciiIsUtf8(PORT);
    AsciiIsUtf8(ONE);
    AsciiIsUtf8(TWO);
  }

  /** A hint whose key begins with '&' can replace the port: "&port" = "1" besides "port" = "2". */
  lemma {:induction false} PortCanBeOverridden(order: seq<Bytes>)
    requires order == [MARKED_PORT, PORT]
    ensures IsLocator(MARKED_LOCATOR) && Enumerates(order, MARKED) && Hint(MARKED, PORT) == Some(TWO)
    ensures ReadBack(MARKED_LOCATOR, order).Success?
    ensures Hint(ReadBack(MARKED_LOCATOR, order).value, PORT) == Some(ONE)
  {
    MarkedIsLocator();
    MarkedPieces(order);
    MarkedLast();
    OverrideExactly(MARKED_LOCATOR, order, PORT);
  }

  ghost predicate RoundTrips(loc: NodeLocator, order: seq<Bytes>)
    requires Enumerates(order, loc.hints)
  {
    var u := BuildUri(loc, order, []);
    u.Some? && ParseText(Print(u.value)) == Success(loc)
  }

  lemma BuiltHostValid(loc: NodeLocator)
    ensures WellFormed(RegNameChar, EncodedHost(loc))
  {
    EncodeSeparated(RegNameChar, loc.designator, DOT, loc.transport);
    EncodeWellFormed(RegNameChar, loc.designator + [DOT] + loc.transport);
  }

  lemma BuiltUriValid(loc: NodeLocator, order: seq<Bytes>, path: Bytes)
    requires PortIsDigits(loc)
    requires WellFormed(PathChar, path) && (path == [] || path[0] == SLASH)
    ensures Valid(BuildUri(loc, order, path).value) && WellFormed(RegNameChar, EncodedHost(loc))
  {
    BuiltHostValid(loc);
    EncodeWellFormed(QueryChar, Join(QueryPairs(loc.hints, order), AMPERSAND));
    if USERINFO in loc.hints { EncodeWellFormed(UserinfoChar, loc.hints[USERINFO]); }
    var u := BuildUri(loc, order, path).value;
    assert ValidScheme(OCAPN);
    assert ValidAuthority(u.authority.value);
  }

  /** What the builder makes is valid, and its text parses to it. */
  lemma BuiltUriParses(loc: NodeLocator, order: seq<Bytes>, path: Bytes)
    requires PortIsDigits(loc)
    requires WellFormed(PathChar, path) && (path == [] || path[0] == SLASH)
    ensures Parse(Print(BuildUri(loc, order, path).value)) == BuildUri(loc, order, path)
  {
    BuiltUriValid(loc, order, path);
    ParsePrinted(BuildUri(loc, order, path).value);
  }

  lemma BuiltUriMeans(loc: NodeLocator, order: seq<Bytes>, path: Bytes)
    requires IsLocator(loc) && Enumerates(order, loc.hints) && PortIsDigits(loc)
    ensures LocatorOf(BuildUri(loc, order, path).value) == Success(loc) <==> Printable(loc)
  {
    HostRoundTrip(loc);
    AuthorityRoundTrip(loc);
    HintsRoundTrip(loc, order);
  }

  /**
   A locator survives printing and parsing, whatever the order of its hint map, exactly when its
   port hint is digits, its designator and transport need no escaping, its transport has no dot, and
   its other hints have no '&' and no '=' in the key and no '&' in the value.
   */
  lemma {:induction false} RoundTripExactly(loc: NodeLocator, order: seq<Bytes>)
    requires IsLocator(loc) && Enumerates(order, loc.hints)
    ensures RoundTrips(loc, order) <==> PortIsDigits(loc) && Printable(loc)
  {
    if PortIsDigits(loc) {
      BuiltUriParses(loc, order, []);
      BuiltUriMeans(loc, order, []);
    }
  }

  /** The order in which the hint map yields its keys does not change what the printed URI means. */
  lemma {:induction false} OrderIndependent(loc: NodeLocator, a: seq<Bytes>, b: seq<Bytes>, path: Bytes)
    requires IsLocator(loc) && Enumerates(a, loc.hints) && Enumerates(b, loc.hints)
    requires PortIsDigits(loc) && Printable(loc)
    ensures LocatorOf(BuildUri(loc, a, path).value) == LocatorOf(BuildUri(loc, b, path).value)
  {
    BuiltUriMeans(loc, a, path);
    BuiltUriMeans(loc, b, path);
  }

  // ---------------------------------------------------------------------------------------------
  // Which URIs are locators

  /** Both halves of the piece, if it has an '=', decode to strings. */
  predicate PieceDecodes(piece: Bytes) {
    var cut := SplitOnce(piece, EQUALS);
    cut.Some? ==> DecodeString(cut.value.0).Success? && DecodeString(cut.value.1).Success?
  }

  predicate AllDecode(pieces: seq<Bytes>) { forall i :: 0 <= i < |pieces| ==> PieceDecodes(pieces[i]) }

  lemma AllDecodeFirst(pieces: seq<Bytes>)
    requires pieces != []
    ensures AllDecode(pieces) <==> PieceDecodes(pieces[0]) && AllDecode(pieces[1..])
  {
    assert forall i :: 0 < i < |pieces| ==> pieces[i] == pieces[1..][i - 1];
  }

  lemma {:induction false} InsertSucceeds(hints: Hints, pieces: seq<Bytes>)
    ensures InsertPairs(hints, pieces).Success? <==> AllDecode(pieces)
    ensures InsertPairs(hints, pieces).Failure? ==> InsertPairs(hints, pieces).error == DecodeHint
    decreases |pieces|
  {
    if pieces != [] {
      AddPieceSucceeds(hints, pieces[0]);
      AllDecodeFirst(pieces);
      if PieceDecodes(pieces[0]) {
        InsertSucceeds(AddPiece(hints, pieces[0]).value, pieces[1..]);
      }
    }
  }

  lemma AddPieceSucceeds(hints: Hints, piece: Bytes)
    ensures AddPiece(hints, piece).Success? <==> PieceDecodes(piece)
    ensures AddPiece(hints, piece).Failure? ==> AddPiece(hints, piece).error == DecodeHint
  {
  }

  /** The five letters of "ocapn", each in either case. */
  predicate SpellsOcapn(s: Bytes) {
    && |s| == 5
    && (s[0] == 111 || s[0] == 79) && (s[1] == 99 || s[1] == 67) && (s[2] == 97 || s[2] == 65)
    && (s[3] == 112 || s[3] == 80) && (s[4] == 110 || s[4] == 78)
  }

  lemma SchemeIsOcapn(s: Bytes)
    ensures EqIgnoreCase(s, OCAPN) <==> SpellsOcapn(s)
  {
    if |s| == 5 {
      assert EqIgnoreCase(s, OCAPN) <==> forall i :: 0 <= i < 5 ==> Lower(s[i]) == OCAPN[i];
    }
  }

  predicate IsOcapn(u: Uri) { u.scheme.Some? ==> SpellsOcapn(u.scheme.value) }

  /** A scheme is refused exactly when it is there and does not spell "ocapn", before anything else is looked at. */
  lemma {:induction false} SchemeExactly(u: Uri)
    ensures LocatorOf(u).Failure? && LocatorOf(u).error.UnrecognizedScheme? <==>
            u.scheme.Some? && !SpellsOcapn(u.scheme.value)
    ensures u.scheme.Some? && !SpellsOcapn(u.scheme.value) ==>
              LocatorOf(u) == Failure(UnrecognizedScheme(u.scheme.value))
  {
    if u.scheme.Some? { SchemeIsOcapn(u.scheme.value); }
    LocatorExactly(u);
  }

  /** "https://a.b" is refused and "OCAPN://a.b" is accepted. */
  lemma {:induction false} SchemeInstances()
    ensures var a := Some(Authority(None, [97, DOT, 98], None));
            var https, ocapn := [104, 116, 116, 112, 115], [79, 67, 65, 80, 78];
            && LocatorOf(Uri(Some(https), a, [], None, None)) == Failure(UnrecognizedScheme(https))
            && LocatorOf(Uri(Some(ocapn), a, [], None, None)) == Success(NodeLocator([97], [98], map[]))
  {
    SchemeIsOcapn([104, 116, 116, 112, 115]);
    SchemeIsOcapn([79, 67, 65, 80, 78]);
    RSplitOnceIs([97], DOT, [98]);
    assert [97] + [DOT] + [98] == [97, DOT, 98];
  }

  predicate HintsDecode(u: Uri)
    requires u.authority.Some?
  {
    && (u.authority.value.userinfo.Some? ==> DecodeString(u.authority.value.userinfo.value).Success?)
    && (u.query.Some? ==> forall p :: p in Split(u.query.value, AMPERSAND) ==> PieceDecodes(p))
  }

  /** What the authority component says of the key "port" or "userinfo". */
  function AuthorityHint(a: Authority, key: Bytes): Option<Bytes> {
    if key == [112, 111, 114, 116] then a.port
    else if key == [117, 115, 101, 114, 105, 110, 102, 111] && a.userinfo.Some? then Some(Decode(a.userinfo.value))
    else None
  }

  /** The last piece of the query that has the key, decoded; or else what the authority component says. */
  function HintOf(u: Uri, key: Bytes): Option<Bytes>
    requires u.authority.Some?
  {
    var given := if u.query.Some? then LastGiven(Split(u.query.value, AMPERSAND), key) else None;
    if given.Some? then given else AuthorityHint(u.authority.value, key)
  }

  lemma LocatorHints(u: Uri, key: Bytes)
    requires LocatorOf(u).Success?
    ensures Hint(LocatorOf(u).value.hints, key) == HintOf(u, key)
  {
    var start := AuthorityHints(u.authority.value).value;
    if u.query.Some? { InsertedHint(start, Split(u.query.value, AMPERSAND), key); }
  }

  /**
   A URI is a locator unless its scheme, authority, host or hints are at fault, in that order; its hints
   are then the last decoding of each key in the query, and otherwise those of the authority component.
   */
  lemma LocatorExactly(u: Uri)
    ensures match LocatorOf(u)
            case Success(loc) =>
              IsOcapn(u) && u.authority.Some? && HintsDecode(u)
              && u.authority.value.host == loc.designator + [DOT] + loc.transport && DOT !in loc.transport
              && forall key :: Hint(loc.hints, key) == HintOf(u, key)
            case Failure(UnrecognizedScheme(s)) => u.scheme == Some(s) && !IsOcapn(u)
            case Failure(MissingAuthority) => IsOcapn(u) && u.authority.None?
            case Failure(MissingTransport) => IsOcapn(u) && u.authority.Some? && DOT !in u.authority.value.host
            case Failure(DecodeHint) =>
              IsOcapn(u) && u.authority.Some? && DOT in u.authority.value.host && !HintsDecode(u)
            case Failure(UriSyntax) => false
  {
    if u.scheme.Some? { SchemeIsOcapn(u.scheme.value); }
    if u.authority.Some? && u.query.Some? && AuthorityHints(u.authority.value).Success? {
      InsertSucceeds(AuthorityHints(u.authority.value).value, Split(u.query.value, AMPERSAND));
    }
    if LocatorOf(u).Success? {
      forall key ensures Hint(LocatorOf(u).value.hints, key) == HintOf(u, key) { LocatorHints(u, key); }
    }
  }

  // ---------------------------------------------------------------------------------------------
  // Sturdyrefs

  ghost predicate SturdyRoundTrips(sturdy: SturdyRef, order: seq<Bytes>)
    requires Enumerates(order, sturdy.node.hints)
  {
    var u := BuildUri(sturdy.node, order, EncodedPath(sturdy.swissNum));
    u.Some? && ParseSturdyText(Print(u.value)) == Success(sturdy)
  }

  lemma PathRoundTrip(swissNum: Bytes)
    ensures WellFormed(PathChar, EncodedPath(swissNum)) && Decode(EncodedPath(swissNum)) == SWISS_PREFIX + swissNum
  {
    EncodeAppend(PathChar, SWISS_PREFIX, swissNum);
    EncodeIdentityExactly(PathChar, SWISS_PREFIX);
    EncodeWellFormed(PathChar, SWISS_PREFIX + swissNum);
    DecodeEncode(PathChar, SWISS_PREFIX + swissNum);
  }

  /** The prefix test is made after decoding, so every spelling of "/s/" and of what follows is accepted. */
  lemma SturdyPathDecides(u: Uri, swissNum: Bytes)
    requires LocatorOf(u).Success?
    ensures SturdyRefOf(u) == Success(SturdyRef(LocatorOf(u).value, swissNum)) <==>
            Decode(u.path) == SWISS_PREFIX + swissNum
  {
  }

  /** Which URIs are sturdyrefs, and which error each other one gets. */
  lemma SturdyExactly(u: Uri)
    ensures match SturdyRefOf(u)
            case Success(sturdy) =>
              LocatorOf(u) == Success(sturdy.node) && Decode(u.path) == [47, 115, 47] + sturdy.swissNum
            case Failure(Locator(error)) => LocatorOf(u) == Failure(error)
            case Failure(MissingPath) => LocatorOf(u).Success? && u.path == []
            case Failure(InvalidPath) =>
              LocatorOf(u).Success? && u.path != [] && forall s: Bytes :: Decode(u.path) != [47, 115, 47] + s
  {
    var path := Decode(u.path);
    if SWISS_PREFIX <= path { assert path == SWISS_PREFIX + path[|SWISS_PREFIX|..]; }
  }

  lemma SturdyMeansNode(u: Uri, sturdy: SturdyRef)
    requires u.path == EncodedPath(sturdy.swissNum)
    ensures SturdyRefOf(u) == Success(sturdy) <==> LocatorOf(u) == Success(sturdy.node)
  {
    PathRoundTrip(sturdy.swissNum);
    if LocatorOf(u).Success? { SturdyPathDecides(u, sturdy.swissNum); }
  }

  /** Every swiss number, of any bytes, survives exactly when its node locator does. */
  lemma {:induction false} SturdyRoundTripExactly(sturdy: SturdyRef, order: seq<Bytes>)
    requires IsLocator(sturdy.node) && Enumerates(order, sturdy.node.hints)
    ensures SturdyRoundTrips(sturdy, order) <==> PortIsDigits(sturdy.node) && Printable(sturdy.node)
  {
    if PortIsDigits(sturdy.node) {
      var path := EncodedPath(sturdy.swissNum);
      PathRoundTrip(sturdy.swissNum);
      BuiltUriParses(sturdy.node, order, path);
      BuiltUriMeans(sturdy.node, order, path);
      SturdyMeansNode(BuildUri(sturdy.node, order, path).value, sturdy);
    }
  }
}
