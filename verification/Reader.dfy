/**
 `consume_syrup`: peek at the buffer, tokenize, consume what the token used, and peek again when the
 buffer holds only part of a token. The retry loop need not end, so it is given a number of peeks.
 */
module Readers {
  import opened Codecs

  /** The outcome of a read: a message, a lexical error, or still part of a message after all peeks. */
  datatype Outcome<+T> = Tree(value: T) | BadLex | StillIncomplete

  function Concat(chunks: seq<Bytes>): Bytes {
    if chunks == [] then [] else chunks[0] + Concat(chunks[1..])
  }

  /** A buffered reader: what its buffer shows, and what the transport will deliver, read by read. */
  datatype Source = Source(buf: Bytes, chunks: seq<Bytes>) {
    /** A peek refills an empty buffer; a growing reader also extends one that is not empty. */
    function Fill(grows: bool): Source {
      if (buf == [] || grows) && chunks != [] then Source(buf + chunks[0], chunks[1..]) else this
    }

    /** Keep only what a token left; a tokenizer that returned more than it was given changes nothing. */
    function Drop(rest: Bytes): Source {
      if |rest| <= |buf| then this.(buf := buf[|buf| - |rest|..]) else this
    }

    function Pending(): Bytes { buf + Concat(chunks) }

    function Consume<T>(c: Codec<T>, grows: bool, peeks: nat): (Outcome<T>, Source)
      decreases peeks
    {
      if peeks == 0 then (StillIncomplete, this)
      else
        var src := Fill(grows);
        match c.tokenize(src.buf)
        case Complete(m, rest) => (Tree(m), src.Drop(rest))
        case LexFailure => (BadLex, src)
        case Incomplete => src.Consume(c, grows, peeks - 1)
    }
  }

  class BufReader {
    const grows: bool
    var buf: Bytes
    var chunks: seq<Bytes>

    constructor (grows: bool, chunks: seq<Bytes>)
      ensures this.grows == grows && Value() == Source([], chunks)
    {
      this.grows, buf, this.chunks := grows, [], chunks;
    }

    function Value(): Source
      reads this
    {
      Source(buf, chunks)
    }

    method FillBuf() returns (seen: Bytes)
      modifies this
      ensures Value() == old(Value()).Fill(grows) && seen == buf
    {
      if (buf == [] || grows) && chunks != [] {
        buf, chunks := buf + chunks[0], chunks[1..];
      }
      seen := buf;
    }

    method ConsumeBytes(amount: nat)
      modifies this`buf
      ensures buf == if amount <= |old(buf)| then old(buf)[amount..] else old(buf)
    {
      if amount <= |buf| { buf := buf[amount..]; }
    }

    /** One peek; the buffer is advanced only past a complete token. */
    method TryConsumeSyrup<T>(c: Codec<T>) returns (lexed: Lexed<T>)
      modifies this
      ensures var src := old(Value()).Fill(grows);
              && lexed == c.tokenize(src.buf)
              && Value() == if lexed.Complete? then src.Drop(lexed.rest) else src
    {
      var seen := FillBuf();
      lexed := c.tokenize(seen);
      if lexed.Complete? && |lexed.rest| <= |seen| {
        ConsumeBytes(|seen| - |lexed.rest|);
      }
    }

    method ConsumeSyrup<T>(c: Codec<T>, peeks: nat) returns (outcome: Outcome<T>)
      modifies this
      ensures (outcome, Value()) == old(Value()).Consume(c, grows, peeks)
    {
      var left := peeks;
      while left > 0
        invariant left >= 0
        invariant Value().Consume(c, grows, left) == old(Value()).Consume(c, grows, peeks)
      {
        var lexed := TryConsumeSyrup(c);
        match lexed {
          case Complete(m, _) => return Tree(m);
          case LexFailure => return BadLex;
          case Incomplete => left := left - 1;
        }
      }
      outcome := StillIncomplete;
    }
  }

  // ---------------------------------------------------------------------------------------------
  // One read of a stream of whole messages

  lemma {:induction false} ConcatAppend(a: seq<Bytes>, b: seq<Bytes>)
    ensures Concat(a + b) == Concat(a) + Concat(b)
  {
    if a == [] {
      assert a + b == b;
    } else {
      ConcatAppend(a[1..], b);
      assert (a + b)[1..] == a[1..] + b && (a + b)[0] == a[0];
      assert a[0] + (Concat(a[1..]) + Concat(b)) == a[0] + Concat(a[1..]) + Concat(b);
    }
  }

  lemma FillKeepsPending(src: Source, grows: bool)
    ensures src.Fill(grows).Pending() == src.Pending()
  {
  }

  /** What one peek shows of a stream of whole messages: the first of them, or part of it. */
  lemma PeekShows<T(!new)>(c: Codec<T>, src: Source, ms: seq<T>)
    requires PrefixCode(c) && src.Pending() == Flatten(c, ms)
    ensures if ms == [] || |src.buf| < |c.encode(ms[0])| then c.tokenize(src.buf) == Incomplete
            else c.tokenize(src.buf) == Complete(ms[0], src.buf[|c.encode(ms[0])|..])
    ensures ms != [] && |c.encode(ms[0])| <= |src.buf| ==>
              src.buf[|c.encode(ms[0])|..] + Concat(src.chunks) == Flatten(c, ms[1..])
  {
    NextFrame(c, ms, |src.buf|);
    assert src.buf == Flatten(c, ms)[..|src.buf|];
    if ms != [] && |c.encode(ms[0])| <= |src.buf| {
      var e := |c.encode(ms[0])|;
      assert src.Pending()[e..] == src.buf[e..] + Concat(src.chunks);
      assert src.Pending()[e..] == Flatten(c, ms[1..]);
      assert src.buf[e..] == Flatten(c, ms[1..])[..|src.buf| - e];
    }
  }

  /** A read takes exactly the next message off the stream, or nothing at all. */
  lemma {:induction false} ReadsNextOrNothing<T(!new)>(c: Codec<T>, src: Source, ms: seq<T>, grows: bool, peeks: nat)
    requires PrefixCode(c) && src.Pending() == Flatten(c, ms)
    ensures var (outcome, after) := src.Consume(c, grows, peeks);
            match outcome
            case Tree(m) => ms != [] && m == ms[0] && after.Pending() == Flatten(c, ms[1..])
                && |after.chunks| <= |src.chunks|
            case StillIncomplete => after.Pending() == src.Pending()
            case BadLex => false
    decreases peeks
  {
    if peeks > 0 {
      FillKeepsPending(src, grows);
      PeekShows(c, src.Fill(grows), ms);
      if c.tokenize(src.Fill(grows).buf).Incomplete? {
        ReadsNextOrNothing(c, src.Fill(grows), ms, grows, peeks - 1);
      }
    }
  }

  /** A reader whose peeks keep growing reads the next message; the bytes still missing shrink at each peek. */
  lemma {:induction false} GrowingReaderReads<T(!new)>(c: Codec<T>, src: Source, ms: seq<T>, peeks: nat)
    requires PrefixCode(c) && src.Pending() == Flatten(c, ms) && ms != []
    requires forall i :: 0 <= i < |src.chunks| ==> src.chunks[i] != []
    requires peeks > if |src.buf| < |c.encode(ms[0])| then |c.encode(ms[0])| - |src.buf| else 0
    ensures src.Consume(c, true, peeks).0 == Tree(ms[0])
    decreases peeks
  {
    var next := src.Fill(true);
    FillKeepsPending(src, true);
    PeekShows(c, next, ms);
    if c.tokenize(next.buf).Incomplete? {
      assert src.chunks == [] ==> next.buf == Flatten(c, ms);
      GrowingReaderReads(c, next, ms, peeks - 1);
    }
  }

  /** A reader that refills only when empty never gets past part of a message, however often it peeks. */
  lemma {:induction false} RefillWhenEmptySticks<T(!new)>(c: Codec<T>, src: Source, peeks: nat)
    requires src.buf != [] && c.tokenize(src.buf) == Incomplete
    ensures src.Consume(c, false, peeks) == (StillIncomplete, src)
    decreases peeks
  {
    if peeks > 0 {
      RefillWhenEmptySticks(c, src, peeks - 1);
    }
  }

  /** The source after `n` peeks that consumed nothing. */
  function Peeked(src: Source, grows: bool, n: nat): Source
    decreases n
  {
    if n == 0 then src else Peeked(src.Fill(grows), grows, n - 1)
  }

  /** The outcome of a peek that is not followed by another. */
  ghost predicate EndsWith<T>(c: Codec<T>, seen: Source, outcome: Outcome<T>, after: Source) {
    match c.tokenize(seen.buf)
    case Incomplete => false
    case LexFailure => outcome == BadLex && after == seen
    case Complete(m, rest) => outcome == Tree(m) && after == seen.Drop(rest)
  }

  /** The first `n` peeks all show part of a token. */
  ghost predicate AllIncomplete<T>(c: Codec<T>, src: Source, grows: bool, n: nat) {
    forall k {:trigger Peeked(src, grows, k)} :: 0 < k <= n ==> c.tokenize(Peeked(src, grows, k).buf) == Incomplete
  }

  ghost predicate EndsAt<T>(c: Codec<T>, src: Source, grows: bool, n: nat, outcome: Outcome<T>, after: Source) {
    n > 0 && AllIncomplete(c, src, grows, n - 1) && EndsWith(c, Peeked(src, grows, n), outcome, after)
  }

  lemma OnePeekMore<T>(c: Codec<T>, src: Source, grows: bool, n: nat)
    requires c.tokenize(src.Fill(grows).buf) == Incomplete && AllIncomplete(c, src.Fill(grows), grows, n)
    ensures AllIncomplete(c, src, grows, n + 1)
  {
    forall k | 0 < k <= n + 1 ensures c.tokenize(Peeked(src, grows, k).buf) == Incomplete {
      assert Peeked(src, grows, k) == Peeked(src.Fill(grows), grows, k - 1);
    }
  }

  /**
   On any bytes at all, a read retries exactly while its peeks show part of a token: the first other
   peek ends it, with the token and the bytes after it, or with the lexical error and nothing consumed.
   */
  lemma {:induction false} RetriesWhileIncomplete<T(!new)>(c: Codec<T>, src: Source, grows: bool, peeks: nat)
    ensures var (outcome, after) := src.Consume(c, grows, peeks);
            if outcome.StillIncomplete? then after == Peeked(src, grows, peeks) && AllIncomplete(c, src, grows, peeks)
            else exists n: nat :: n <= peeks && EndsAt(c, src, grows, n, outcome, after)
    decreases peeks
  {
    if peeks > 0 {
      var next := src.Fill(grows);
      var (outcome, after) := src.Consume(c, grows, peeks);
      assert Peeked(src, grows, 1) == Peeked(next, grows, 0) == next;
      if c.tokenize(next.buf).Incomplete? {
        RetriesWhileIncomplete(c, next, grows, peeks - 1);
        if outcome.StillIncomplete? {
          OnePeekMore(c, src, grows, peeks - 1);
        } else {
          var n: nat :| n <= peeks - 1 && EndsAt(c, next, grows, n, outcome, after);
          OnePeekMore(c, src, grows, n - 1);
          assert EndsAt(c, src, grows, n + 1, outcome, after);
        }
      } else {
        assert EndsAt(c, src, grows, 1, outcome, after);
      }
    }
  }

  // ---------------------------------------------------------------------------------------------
  // Reading a whole stream

  /** `n` reads in a row, up to the first that yields no message. */
  function ReadMany<T>(c: Codec<T>, src: Source, grows: bool, peeks: nat, n: nat): seq<T>
    decreases n
  {
    if n == 0 then []
    else
      var (outcome, after) := src.Consume(c, grows, peeks);
      if outcome.Tree? then [outcome.value] + ReadMany(c, after, grows, peeks, n - 1) else []
  }

  /** The first `n` bytes of the stream are whole messages. */
  ghost predicate FrameEnd<T>(c: Codec<T>, ms: seq<T>, n: nat) {
    exists j :: 0 <= j <= |ms| && |Flatten(c, ms[..j])| == n
  }

  /** Every refill happens where one message ends and the next begins. */
  ghost predicate RefillsAtFrames<T>(c: Codec<T>, src: Source, ms: seq<T>) {
    forall k {:trigger src.chunks[..k]} :: 0 <= k <= |src.chunks| ==>
      FrameEnd(c, ms, |src.buf| + |Concat(src.chunks[..k])|)
  }

  lemma FrameEndZero<T>(c: Codec<T>, ms: seq<T>)
    ensures FrameEnd(c, ms, 0)
  {
    assert |Flatten(c, ms[..0])| == 0;
  }

  /** Beyond the first message, frame ends are those of the remaining messages. */
  lemma FrameEndNext<T(!new)>(c: Codec<T>, ms: seq<T>, n: nat)
    requires PrefixCode(c) && ms != [] && n > 0
    ensures FrameEnd(c, ms, n) <==> n >= |c.encode(ms[0])| && FrameEnd(c, ms[1..], n - |c.encode(ms[0])|)
  {
    var e := |c.encode(ms[0])|;
    if FrameEnd(c, ms, n) {
      var j :| 0 <= j <= |ms| && |Flatten(c, ms[..j])| == n;
      assert j > 0;
      assert ms[..j][1..] == ms[1..][..j - 1];
      assert |Flatten(c, ms[1..][..j - 1])| == n - e;
    }
    if n >= e && FrameEnd(c, ms[1..], n - e) {
      var j :| 0 <= j <= |ms[1..]| && |Flatten(c, ms[1..][..j])| == n - e;
      assert ms[..j + 1][1..] == ms[1..][..j];
      assert |Flatten(c, ms[..j + 1])| == n;
    }
  }

  lemma FillAtFrames<T(!new)>(c: Codec<T>, src: Source, ms: seq<T>)
    requires src.buf == [] && src.chunks != []
    ensures RefillsAtFrames(c, src, ms) <==> RefillsAtFrames(c, src.Fill(false), ms)
  {
    var next := src.Fill(false);
    FrameEndZero(c, ms);
    forall k | 0 <= k <= |next.chunks|
      ensures |src.buf| + |Concat(src.chunks[..k + 1])| == |next.buf| + |Concat(next.chunks[..k])|
    {
      assert src.chunks[..k + 1][1..] == next.chunks[..k];
    }
    if RefillsAtFrames(c, src, ms) {
      forall k | 0 <= k <= |next.chunks| ensures FrameEnd(c, ms, |next.buf| + |Concat(next.chunks[..k])|) {
        assert FrameEnd(c, ms, |src.buf| + |Concat(src.chunks[..k + 1])|);
      }
    }
    if RefillsAtFrames(c, next, ms) {
      forall k | 0 <= k <= |src.chunks| ensures FrameEnd(c, ms, |src.buf| + |Concat(src.chunks[..k])|) {
        if k > 0 { assert FrameEnd(c, ms, |next.buf| + |Concat(next.chunks[..k - 1])|); }
      }
    }
  }

  lemma TakeAtFrames<T(!new)>(c: Codec<T>, src: Source, ms: seq<T>)
    requires PrefixCode(c) && ms != [] && |c.encode(ms[0])| <= |src.buf|
    ensures RefillsAtFrames(c, src, ms) <==>
            RefillsAtFrames(c, src.(buf := src.buf[|c.encode(ms[0])|..]), ms[1..])
  {
    var e := |c.encode(ms[0])|;
    var after := src.(buf := src.buf[e..]);
    forall k | 0 <= k <= |src.chunks|
      ensures FrameEnd(c, ms, |src.buf| + |Concat(src.chunks[..k])|)
              <==> FrameEnd(c, ms[1..], |after.buf| + |Concat(after.chunks[..k])|)
    {
      FrameEndNext(c, ms, |src.buf| + |Concat(src.chunks[..k])|);
    }
    if RefillsAtFrames(c, src, ms) {
      forall k | 0 <= k <= |after.chunks| ensures FrameEnd(c, ms[1..], |after.buf| + |Concat(after.chunks[..k])|) {
        assert FrameEnd(c, ms, |src.buf| + |Concat(src.chunks[..k])|);
      }
    }
    if RefillsAtFrames(c, after, ms[1..]) {
      forall k | 0 <= k <= |src.chunks| ensures FrameEnd(c, ms, |src.buf| + |Concat(src.chunks[..k])|) {
        assert FrameEnd(c, ms[1..], |after.buf| + |Concat(after.chunks[..k])|);
      }
    }
  }

  /** A first refill with only part of the first message is not at a message end, and nothing is read. */
  lemma {:induction false} PartIsNoFrame<T(!new)>(c: Codec<T>, src: Source, ms: seq<T>, peeks: nat)
    requires PrefixCode(c) && peeks > 0 && ms != []
    requires var next := src.Fill(false);
             next.buf != [] && |next.buf| < |c.encode(ms[0])| && c.tokenize(next.buf) == Incomplete
    ensures ReadMany(c, src, false, peeks, |ms|) == [] && !RefillsAtFrames(c, src.Fill(false), ms)
  {
    var next := src.Fill(false);
    RefillWhenEmptySticks(c, next, peeks - 1);
    FrameEndNext(c, ms, |next.buf|);
    assert next.chunks[..0] == [];
  }

  /**
   A reader that refills only when empty recovers every message of a finite stream exactly when
   every refill boundary is a message boundary, however often each read peeks.
   */
  lemma {:induction false} RefillWhenEmptyExactly<T(!new)>(c: Codec<T>, src: Source, ms: seq<T>, peeks: nat)
    requires PrefixCode(c) && src.Pending() == Flatten(c, ms) && peeks > 0
    requires forall i :: 0 <= i < |src.chunks| ==> src.chunks[i] != []
    ensures ReadMany(c, src, false, peeks, |ms|) == ms <==> RefillsAtFrames(c, src, ms)
    decreases |ms|
  {
    if ms == [] {
      assert src.chunks != [] ==> Concat(src.chunks) != [];
      FrameEndZero(c, ms);
      assert forall k :: 0 <= k <= 0 ==> Concat(src.chunks[..k]) == [];
    } else {
      var next := src.Fill(false);
      FillKeepsPending(src, false);
      PeekShows(c, next, ms);
      if src.buf == [] { FillAtFrames(c, src, ms); }
      assert next.buf != [];
      if |next.buf| < |c.encode(ms[0])| {
        PartIsNoFrame(c, src, ms, peeks);
      } else {
        TakeAtFrames(c, next, ms);
        var after := next.(buf := next.buf[|c.encode(ms[0])|..]);
        RefillWhenEmptyExactly(c, after, ms[1..], peeks);
        assert src.Consume(c, false, peeks) == (Tree(ms[0]), after);
      }
    }
  }
}
