/**
 Percent-encoding (RFC 3986 section 2.1) over a table of the bytes that may stand for themselves,
 and cutting byte strings at a separator.
 */
module PercentCodec {
  import opened Wrappers
  import opened Codecs

  type Table = Byte -> bool

  const PERCENT: Byte := 37
  const AMPERSAND: Byte := 38
  const DOT: Byte := 46
  const SLASH: Byte := 47
  const COLON: Byte := 58
  const EQUALS: Byte := 61
  const QUESTION: Byte := 63
  const AT: Byte := 64
  const HASH: Byte := 35
  const OPEN_BRACKET: Byte := 91
  const CLOSE_BRACKET: Byte := 93

  predicate Digit(b: Byte) { 48 <= b <= 57 }

  predicate Alpha(b: Byte) { 65 <= b <= 90 || 97 <= b <= 122 }

  /** RFC 3986 section 2.3: "-", ".", "_" and "~" besides letters and digits. */
  predicate Unreserved(b: Byte) { Alpha(b) || Digit(b) || b == 45 || b == DOT || b == 95 || b == 126 }

  /** RFC 3986 section 2.2: ! $ & ' ( ) * + , ; = */
  predicate SubDelim(b: Byte) { b == 33 || b == 36 || 38 <= b <= 44 || b == 59 || b == EQUALS }

  /** RFC 3986 section 3.2.2 */
  predicate RegNameChar(b: Byte) { Unreserved(b) || SubDelim(b) }

  /** RFC 3986 section 3.2.1 */
  predicate UserinfoChar(b: Byte) { RegNameChar(b) || b == COLON }

  /** RFC 3986 section 3.3 */
  predicate PathChar(b: Byte) { UserinfoChar(b) || b == AT || b == SLASH }

  /** RFC 3986 section 3.4 */
  predicate QueryChar(b: Byte) { PathChar(b) || b == QUESTION }

  function HexDigit(n: Byte): (b: Byte)
    requires n < 16
    ensures UnHex(b) == Some(n)
  {
    if n < 10 then 48 + n else 55 + n
  }

  function UnHex(b: Byte): (n: Option<Byte>)
    ensures n.Some? ==> n.value < 16
  {
    if Digit(b) then Some(b - 48)
    else if 65 <= b <= 70 then Some(b - 55)
    else if 97 <= b <= 102 then Some(b - 87)
    else None
  }

  function EncodeByte(t: Table, b: Byte): Bytes {
    if t(b) then [b] else [PERCENT, HexDigit(b / 16), HexDigit(b % 16)]
  }

  function Encode(t: Table, s: Bytes): Bytes {
    if s == [] then [] else EncodeByte(t, s[0]) + Encode(t, s[1..])
  }

  predicate StartsTriplet(s: Bytes) {
    |s| >= 3 && s[0] == PERCENT && UnHex(s[1]).Some? && UnHex(s[2]).Some?
  }

  function Decode(s: Bytes): Bytes {
    if s == [] then []
    else if StartsTriplet(s) then [UnHex(s[1]).value * 16 + UnHex(s[2]).value] + Decode(s[3..])
    else [s[0]] + Decode(s[1..])
  }

  /** Text of a component: bytes of its table and well-formed triplets. */
  predicate WellFormed(t: Table, s: Bytes) {
    s == [] || (if s[0] == PERCENT then StartsTriplet(s) && WellFormed(t, s[3..]) else t(s[0]) && WellFormed(t, s[1..]))
  }

  lemma Associative<T>(a: seq<T>, b: seq<T>, c: seq<T>)
    ensures a + (b + c) == a + b + c
  {
  }

  lemma {:induction false} EncodeAppend(t: Table, a: Bytes, b: Bytes)
    ensures Encode(t, a + b) == Encode(t, a) + Encode(t, b)
  {
    if a == [] {
      assert a + b == b;
    } else {
      EncodeAppend(t, a[1..], b);
      assert (a + b)[1..] == a[1..] + b && (a + b)[0] == a[0];
      Associative(EncodeByte(t, a[0]), Encode(t, a[1..]), Encode(t, b));
    }
  }

  /** A byte of the table between two parts stays where it is. */
  lemma EncodeSeparated(t: Table, a: Bytes, c: Byte, b: Bytes)
    requires t(c)
    ensures Encode(t, a + [c] + b) == Encode(t, a) + [c] + Encode(t, b)
  {
    EncodeAppend(t, a + [c], b);
    EncodeAppend(t, a, [c]);
    assert [c][1..] == [];
    assert Encode(t, [c]) == [c] + [];
  }

  /** Decoding undoes encoding, under every table that makes '%' escape itself. */
  lemma {:induction false} DecodeEncode(t: Table, s: Bytes)
    requires !t(PERCENT)
    ensures Decode(Encode(t, s)) == s
  {
    if s != [] {
      DecodeEncode(t, s[1..]);
      var rest := Encode(t, s[1..]);
      var e := EncodeByte(t, s[0]) + rest;
      if t(s[0]) {
        assert e[1..] == rest;
      } else {
        assert e[3..] == rest && StartsTriplet(e);
      }
    }
  }

  lemma {:induction false} EncodeWellFormed(t: Table, s: Bytes)
    requires !t(PERCENT)
    ensures WellFormed(t, Encode(t, s))
  {
    if s != [] {
      EncodeWellFormed(t, s[1..]);
      var rest := Encode(t, s[1..]);
      var e := EncodeByte(t, s[0]) + rest;
      if t(s[0]) {
        assert e[1..] == rest;
      } else {
        assert e[3..] == rest && StartsTriplet(e);
      }
    }
  }

  function Escaped(t: Table, s: Bytes): nat {
    if s == [] then 0 else (if t(s[0]) then 0 else 1) + Escaped(t, s[1..])
  }

  /** Each byte outside the table costs two more, so the text is unchanged exactly when there is none. */
  lemma {:induction false} EncodeIdentityExactly(t: Table, s: Bytes)
    ensures |Encode(t, s)| == |s| + 2 * Escaped(t, s)
    ensures Encode(t, s) == s <==> (forall b :: b in s ==> t(b))
    ensures Escaped(t, s) == 0 <==> (forall b :: b in s ==> t(b))
  {
    if s != [] {
      EncodeIdentityExactly(t, s[1..]);
      assert s == [s[0]] + s[1..];
    }
  }

  /** A byte that no triplet contains. */
  predicate Plain(b: Byte) { b != PERCENT && UnHex(b).None? }

  lemma {:induction false} EncodeContains(t: Table, s: Bytes, b: Byte)
    requires Plain(b) && t(b)
    ensures b in Encode(t, s) <==> b in s
  {
    if s != [] {
      EncodeContains(t, s[1..], b);
      assert s == [s[0]] + s[1..];
    }
  }

  // ---------------------------------------------------------------------------------------------
  // What is decoded, and what is escaped

  /** The hexadecimal digits of RFC 3986 section 2.1, of either case. */
  predicate IsDigitOf(b: Byte, n: int) {
    0 <= n < 16 && (b as int as char == "0123456789ABCDEF"[n] || b as int as char == "0123456789abcdef"[n])
  }

  lemma UnHexExactly(b: Byte, n: Byte)
    ensures UnHex(b) == Some(n) <==> IsDigitOf(b, n as int)
  {
  }

  /** A triplet is a percent sign and two hexadecimal digits. */
  ghost predicate Triplet(s: Bytes) {
    |s| >= 3 && s[0] == PERCENT && (exists n :: IsDigitOf(s[1], n)) && (exists n :: IsDigitOf(s[2], n))
  }

  /** `text` spells `s`: each byte as itself or as a triplet of its two digits, and triplets always as bytes. */
  ghost predicate Spells(text: Bytes, s: Bytes)
    decreases |text|
  {
    if text == [] then s == []
    else if Triplet(text) then
      && s != [] && IsDigitOf(text[1], s[0] as int / 16) && IsDigitOf(text[2], s[0] as int % 16)
      && Spells(text[3..], s[1..])
    else s != [] && text[0] == s[0] && Spells(text[1..], s[1..])
  }

  lemma TripletExactly(s: Bytes)
    ensures StartsTriplet(s) <==> Triplet(s)
  {
    if |s| >= 3 {
      if UnHex(s[1]).Some? { UnHexExactly(s[1], UnHex(s[1]).value); }
      if UnHex(s[2]).Some? { UnHexExactly(s[2], UnHex(s[2]).value); }
      if Triplet(s) {
        var n :| IsDigitOf(s[1], n);
        var m :| IsDigitOf(s[2], m);
        UnHexExactly(s[1], n as Byte);
        UnHexExactly(s[2], m as Byte);
      }
    }
  }

  lemma TwoDigits(h: Byte, l: Byte, b: Byte)
    requires UnHex(h).Some? && UnHex(l).Some?
    ensures UnHex(h).value * 16 + UnHex(l).value == b <==> IsDigitOf(h, b as int / 16) && IsDigitOf(l, b as int % 16)
  {
    UnHexExactly(h, b / 16);
    UnHexExactly(l, b % 16);
    SixteenDigits(UnHex(h).value, UnHex(l).value, b);
  }

  lemma SixteenDigits(x: Byte, y: Byte, b: Byte)
    requires x < 16 && y < 16
    ensures x * 16 + y == b <==> x == b / 16 && y == b % 16
  {
  }

  lemma ConsIs(b: Byte, rest: Bytes, s: Bytes)
    ensures [b] + rest == s <==> s != [] && b == s[0] && rest == s[1..]
  {
    if s != [] { assert s == [s[0]] + s[1..]; }
    assert ([b] + rest)[1..] == rest;
  }

  lemma DecodeTriplet(text: Bytes, s: Bytes)
    requires StartsTriplet(text)
    ensures Decode(text) == s <==>
            && s != [] && IsDigitOf(text[1], s[0] as int / 16) && IsDigitOf(text[2], s[0] as int % 16)
            && Decode(text[3..]) == s[1..]
  {
    ConsIs(UnHex(text[1]).value * 16 + UnHex(text[2]).value, Decode(text[3..]), s);
    if s != [] { TwoDigits(text[1], text[2], s[0]); }
  }

  lemma DecodePlain(text: Bytes, s: Bytes)
    requires text != [] && !StartsTriplet(text)
    ensures Decode(text) == s <==> s != [] && text[0] == s[0] && Decode(text[1..]) == s[1..]
  {
    ConsIs(text[0], Decode(text[1..]), s);
  }

  /** Decoding yields exactly what the text spells. */
  lemma {:induction false} DecodeExactly(text: Bytes, s: Bytes)
    ensures Decode(text) == s <==> Spells(text, s)
    decreases |text|
  {
    if text != [] {
      TripletExactly(text);
      if StartsTriplet(text) {
        DecodeTriplet(text, s);
        if s != [] { DecodeExactly(text[3..], s[1..]); }
      } else {
        DecodePlain(text, s);
        if s != [] { DecodeExactly(text[1..], s[1..]); }
      }
    }
  }

  /** An escaped byte is printed as its two upper-case digits; a byte of the table stands for itself. */
  lemma EncodeByteExactly(t: Table, b: Byte)
    ensures var e := EncodeByte(t, b);
            if t(b) then e == [b]
            else
              |e| == 3 && e[0] as int as char == '%'
              && e[1] as int as char == "0123456789ABCDEF"[b as int / 16]
              && e[2] as int as char == "0123456789ABCDEF"[b as int % 16]
  {
  }

  /** The case of a triplet's digits does not matter. */
  lemma {:induction false} CaseDoesNotMatter(a: Bytes, b: Bytes, rest: Bytes, n: int, m: int)
    requires |a| == |b| == 3 && a[0] == b[0] == PERCENT
    requires IsDigitOf(a[1], n) && IsDigitOf(b[1], n) && IsDigitOf(a[2], m) && IsDigitOf(b[2], m)
    ensures Decode(a + rest) == Decode(b + rest) == [(n * 16 + m) as Byte] + Decode(rest)
  {
    UnHexExactly(a[1], n as Byte);
    UnHexExactly(b[1], n as Byte);
    UnHexExactly(a[2], m as Byte);
    UnHexExactly(b[2], m as Byte);
    assert (a + rest)[3..] == rest == (b + rest)[3..];
  }

  /** What each component escapes: everything but the visible ASCII characters, and of these the ones listed. */
  lemma TablesExactly(b: Byte)
    ensures var visible := 0x21 <= b <= 0x7E && b as int as char !in "\"#%<>[\\]^`{|}";
            && (QueryChar(b) <==> visible)
            && (PathChar(b) <==> visible && b as int as char != '?')
            && (UserinfoChar(b) <==> visible && b as int as char !in "?/@")
            && (RegNameChar(b) <==> visible && b as int as char !in "?/@:")
  {
  }

  // ---------------------------------------------------------------------------------------------
  // Cutting at a separator

  /** The length of the part of `s` before the first byte that stops it. */
  function Span(s: Bytes, stop: Table): (n: nat)
    ensures n <= |s|
    ensures forall i :: 0 <= i < n ==> !stop(s[i])
    ensures n < |s| ==> stop(s[n])
  {
    if s == [] || stop(s[0]) then 0 else 1 + Span(s[1..], stop)
  }

  lemma {:induction false} SpanIs(a: Bytes, b: Bytes, stop: Table)
    requires forall i :: 0 <= i < |a| ==> !stop(a[i])
    requires b == [] || stop(b[0])
    ensures Span(a + b, stop) == |a|
  {
    if a == [] {
      assert a + b == b;
    } else {
      SpanIs(a[1..], b, stop);
      assert (a + b)[1..] == a[1..] + b;
    }
  }

  /** `split_once`: the parts before and after the first `c`. */
  function SplitOnce(s: Bytes, c: Byte): (r: Option<(Bytes, Bytes)>)
    ensures r.None? <==> c !in s
    ensures r.Some? ==> s == r.value.0 + [c] + r.value.1 && c !in r.value.0
  {
    var n := Span(s, b => b == c);
    if n == |s| then None else Some((s[..n], s[n + 1..]))
  }

  /** `rsplit_once`: the parts before and after the last `c`. */
  function RSplitOnce(s: Bytes, c: Byte): (r: Option<(Bytes, Bytes)>)
    ensures r.None? <==> c !in s
    ensures r.Some? ==> s == r.value.0 + [c] + r.value.1 && c !in r.value.1
  {
    if s == [] then None
    else
      match RSplitOnce(s[1..], c)
      case Some((a, b)) => Some(([s[0]] + a, b))
      case None => if s[0] == c then Some(([], s[1..])) else None
  }

  /** `split`: the pieces between separators; there is always at least one. */
  function Split(s: Bytes, c: Byte): (ps: seq<Bytes>)
    ensures |ps| >= 1
    ensures forall p :: p in ps ==> c !in p
    decreases |s|
  {
    match SplitOnce(s, c)
    case None => [s]
    case Some((a, b)) => [a] + Split(b, c)
  }

  function Join(ps: seq<Bytes>, c: Byte): Bytes {
    if ps == [] then []
    else if |ps| == 1 then ps[0]
    else ps[0] + [c] + Join(ps[1..], c)
  }

  lemma SplitOnceIs(a: Bytes, c: Byte, b: Bytes)
    requires c !in a
    ensures SplitOnce(a + [c] + b, c) == Some((a, b))
  {
    SpanIs(a, [c] + b, x => x == c);
    assert a + [c] + b == a + ([c] + b);
  }

  lemma {:induction false} RSplitOnceIs(a: Bytes, c: Byte, b: Bytes)
    requires c !in b
    ensures RSplitOnce(a + [c] + b, c) == Some((a, b))
  {
    var s := a + [c] + b;
    if a == [] {
      assert s[1..] == b;
    } else {
      RSplitOnceIs(a[1..], c, b);
      assert s[1..] == a[1..] + [c] + b && [a[0]] + a[1..] == a;
    }
  }

  lemma {:induction false} SplitJoin(ps: seq<Bytes>, c: Byte)
    requires ps != [] && forall p :: p in ps ==> c !in p
    ensures Split(Join(ps, c), c) == ps
  {
    assert ps[0] in ps;
    if |ps| == 1 {
      SpanIs(ps[0], [], x => x == c);
      assert ps[0] + [] == ps[0];
    } else {
      SplitOnceIs(ps[0], c, Join(ps[1..], c));
      SplitJoin(ps[1..], c);
    }
  }

  lemma {:induction false} JoinSplit(s: Bytes, c: Byte)
    ensures Join(Split(s, c), c) == s
    decreases |s|
  {
    match SplitOnce(s, c)
    case None =>
    case Some((a, b)) =>
      JoinSplit(b, c);
      assert Split(s, c)[1..] == Split(b, c);
  }

  lemma {:induction false} JoinAppend(ps: seq<Bytes>, p: Bytes, c: Byte)
    requires ps != []
    ensures Join(ps + [p], c) == Join(ps, c) + [c] + p
  {
    if |ps| == 1 {
      assert (ps + [p])[1..] == [p];
    } else {
      JoinAppend(ps[1..], p, c);
      assert (ps + [p])[1..] == ps[1..] + [p];
    }
  }

  function EncodeAll(t: Table, ps: seq<Bytes>): seq<Bytes> {
    seq(|ps|, i requires 0 <= i < |ps| => Encode(t, ps[i]))
  }

  lemma EncodeAllCons(t: Table, p: Bytes, ps: seq<Bytes>)
    ensures EncodeAll(t, [p] + ps) == [Encode(t, p)] + EncodeAll(t, ps)
  {
  }

  /** Cutting an encoded text at a byte that encodes as itself is encoding the cut parts. */
  lemma {:induction false} SplitOnceEncode(t: Table, s: Bytes, c: Byte)
    requires Plain(c) && t(c)
    ensures SplitOnce(Encode(t, s), c) ==
            match SplitOnce(s, c) case None => None case Some((a, b)) => Some((Encode(t, a), Encode(t, b)))
  {
    match SplitOnce(s, c)
    case None =>
      assert c !in s;
      EncodeContains(t, s, c);
      var e := Encode(t, s);
      SpanIs(e, [], x => x == c);
      assert e + [] == e;
    case Some((a, b)) =>
      assert s == a + [c] + b && c !in a;
      EncodeSeparated(t, a, c, b);
      EncodeContains(t, a, c);
      SplitOnceIs(Encode(t, a), c, Encode(t, b));
  }

  lemma {:induction false} SplitEncode(t: Table, s: Bytes, c: Byte)
    requires Plain(c) && t(c)
    ensures Split(Encode(t, s), c) == EncodeAll(t, Split(s, c))
    decreases |s|
  {
    SplitOnceEncode(t, s, c);
    match SplitOnce(s, c)
    case None =>
      assert EncodeAll(t, [s]) == [Encode(t, s)];
    case Some((a, b)) =>
      SplitEncode(t, b, c);
      EncodeAllCons(t, a, Split(b, c));
  }
}
