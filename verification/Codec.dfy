/**
 Syrup as seen by a session: an encoding of messages as bytes that a reader can cut apart again.
 The sessions are proved correct for every such codec.
 */
module Codecs {
  newtype Byte = x: int | 0 <= x < 256

  type Bytes = seq<Byte>

  /** The outcome of tokenizing a buffer: a message with the bytes after it, or why there is none. */
  datatype Lexed<+T> = Complete(value: T, rest: Bytes) | Incomplete | LexFailure

  datatype Codec<!T> = Codec(encode: T -> Bytes, tokenize: Bytes -> Lexed<T>)

  /** Every whole message is recognised whatever follows it, and no part of one is mistaken for one. */
  ghost predicate PrefixCode<T(!new)>(c: Codec<T>) {
    && c.tokenize([]) == Incomplete
    && (forall m {:trigger c.encode(m)} :: c.encode(m) != [])
    && (forall m, rest: Bytes {:trigger c.encode(m) + rest} :: c.tokenize(c.encode(m) + rest) == Complete(m, rest))
    && (forall m, n: nat {:trigger c.encode(m)[..n]} :: n < |c.encode(m)| ==>
        c.tokenize(c.encode(m)[..n]) == Incomplete)
  }

  function Flatten<T>(c: Codec<T>, ms: seq<T>): Bytes {
    if ms == [] then [] else c.encode(ms[0]) + Flatten(c, ms[1..])
  }

  lemma {:induction false} FlattenAppend<T>(c: Codec<T>, a: seq<T>, b: seq<T>)
    ensures Flatten(c, a + b) == Flatten(c, a) + Flatten(c, b)
  {
    if a == [] {
      assert a + b == b;
    } else {
      FlattenAppend(c, a[1..], b);
      assert (a + b)[1..] == a[1..] + b && (a + b)[0] == a[0];
      var head, rest, last := c.encode(a[0]), Flatten(c, a[1..]), Flatten(c, b);
      assert head + (rest + last) == head + rest + last;
    }
  }

  lemma FlattenOne<T>(c: Codec<T>, ms: seq<T>, m: T)
    ensures Flatten(c, ms + [m]) == Flatten(c, ms) + c.encode(m)
  {
    FlattenAppend(c, ms, [m]);
    assert Flatten(c, [m]) == c.encode(m);
  }

  /** A reader that sees the first `n` bytes of a stream of messages reads the first message, or waits. */
  lemma NextFrame<T(!new)>(c: Codec<T>, ms: seq<T>, n: nat)
    requires PrefixCode(c) && n <= |Flatten(c, ms)|
    ensures var seen := Flatten(c, ms)[..n];
            if ms == [] || n < |c.encode(ms[0])| then c.tokenize(seen) == Incomplete
            else c.tokenize(seen) == Complete(ms[0], Flatten(c, ms[1..])[..n - |c.encode(ms[0])|])
  {
    var seen := Flatten(c, ms)[..n];
    if ms == [] {
      assert seen == [];
    } else {
      var head, rest := c.encode(ms[0]), Flatten(c, ms[1..]);
      if n < |head| {
        assert seen == head[..n];
      } else {
        assert seen == head + rest[..n - |head|];
      }
    }
  }

  // ---------------------------------------------------------------------------------------------
  // An instance: a length byte, then that many bytes

  type Short = s: Bytes | |s| < 256

  function EncodeShort(s: Short): Bytes { [|s| as Byte] + s }

  function TokenizeShort(b: Bytes): Lexed<Short> {
    if b == [] then Incomplete
    else if |b| - 1 < b[0] as int then Incomplete
    else Complete(b[1..1 + b[0] as int], b[1 + b[0] as int..])
  }

  const SHORT_CODEC: Codec<Short> := Codec(EncodeShort, TokenizeShort)

  lemma ShortIsPrefixCode()
    ensures PrefixCode(SHORT_CODEC)
  {
  }
}
