/**
 The start-session handshake: two ends, each writing its own start message into a pipe of bounded size
 and reading the other's through a buffered reader, one peek at a time.
 */
module Handshakes {
  import opened Wrappers
  import opened Codecs
  import opened Locators
  import opened Readers

  type SigningKey = Bytes
  type VerifyingKey = Bytes
  type Signature = Bytes

  /** A signature scheme over locations. */
  datatype Scheme = Scheme(
    verifying: SigningKey -> VerifyingKey,
    sign: (SigningKey, NodeLocator) -> Signature,
    verify: (VerifyingKey, NodeLocator, Signature) -> bool
  )

  /** What is signed with a key verifies with its verifying key. */
  ghost predicate Correct(sc: Scheme) {
    forall sk, l :: sc.verify(sc.verifying(sk), l, sc.sign(sk, l))
  }

  const CAPTP_VERSION: string := "1.0"

  datatype StartSession = StartSession(version: string, key: VerifyingKey, location: NodeLocator, signature: Signature)

  /** A whole token: a start message, or one that does not decode as a start message. */
  datatype Incoming = Message(msg: StartSession) | Undecodable(token: Bytes)

  datatype InitError = Io | Lex | Decode | Version(found: string) | BadSignature

  function GenerateStartMsg(sc: Scheme, sk: SigningKey, location: NodeLocator): StartSession {
    StartSession(CAPTP_VERSION, sc.verifying(sk), location, sc.sign(sk, location))
  }

  function RecvStartSession(sc: Scheme, incoming: Incoming): Result<StartSession, InitError> {
    match incoming
    case Undecodable(_) => Failure(Decode)
    case Message(m) =>
      if m.version != CAPTP_VERSION then Failure(Version(m.version))
      else if !sc.verify(m.key, m.location, m.signature) then Failure(BadSignature)
      else Success(m)
  }

  // ---------------------------------------------------------------------------------------------
  // The two ends

  /** `and_connect` writes first; `and_accept` reads first. */
  datatype Role = Connect | Accept

  datatype Progress = Waiting | Got(msg: StartSession) | Failed(error: InitError)

  /** What is left of the own start message, the pipe towards this end, and what its reader has buffered. */
  datatype End = End(role: Role, key: SigningKey, location: NodeLocator, unsent: Bytes, pipe: Bytes, buf: Bytes,
                     progress: Progress)
  {
    predicate Writing() { unsent != [] && (role.Connect? || progress.Got?) && !progress.Failed? }

    predicate Reading() { progress.Waiting? && (role.Accept? || unsent == []) }

    predicate Finalized() { progress.Got? && unsent == [] }
  }

  datatype Side = Left | Right {
    function Other(): Side { if Left? then Right else Left }
  }

  datatype State = State(left: End, right: End) {
    function Of(side: Side): End { if side.Left? then left else right }

    function With(side: Side, end: End): State {
      if side.Left? then this.(left := end) else this.(right := end)
    }

    predicate Done() { left.Finalized() && right.Finalized() }
  }

  /**
   What the ends run on. The reader extends a buffer that is not empty (`grows`) or refills only an
   empty one; a write fills the pipe as far as it can (`wholeWrites`) or in parts of any size.
   */
  datatype Setting = Setting(scheme: Scheme, codec: Codec<Incoming>, capacity: nat, grows: bool, wholeWrites: bool,
                             honest: bool)

  /** The bytes of an end's start message. */
  function Encoded(env: Setting, end: End): Bytes {
    env.codec.encode(Message(GenerateStartMsg(env.scheme, end.key, end.location)))
  }

  datatype Action =
    | Write(count: nat)
    | Peek
    | Tamper(bytes: Bytes)
    | Break

  datatype Step = Step(side: Side, action: Action)

  function Min(a: nat, b: nat): nat { if a <= b then a else b }

  /** A peek waits for the pipe unless the reader shows what it has buffered; only a dishonest channel changes bytes. */
  predicate Enabled(env: Setting, s: State, step: Step) {
    var me, peer := s.Of(step.side), s.Of(step.side.Other());
    match step.action
    case Write(n) =>
      && me.Writing() && 0 < n <= |me.unsent| && |peer.pipe| + n <= env.capacity
      && (env.wholeWrites ==> n == Min(|me.unsent|, env.capacity - |peer.pipe|))
    case Peek => me.Reading() && (me.pipe != [] || (!env.grows && me.buf != []))
    case Tamper(_) => !env.honest
    case Break => !env.honest && (me.Writing() || me.Reading())
  }

  function Received(sc: Scheme, outcome: Outcome<Incoming>): Progress {
    match outcome
    case StillIncomplete => Waiting
    case BadLex => Failed(Lex)
    case Tree(incoming) =>
      match RecvStartSession(sc, incoming)
      case Success(m) => Got(m)
      case Failure(e) => Failed(e)
  }

  /** One peek of `consume_syrup`; a refill takes all that the pipe holds. */
  function Peeked(env: Setting, me: End): End {
    var source := Source(me.buf, if me.pipe == [] then [] else [me.pipe]);
    var (outcome, after) := source.Consume(env.codec, env.grows, 1);
    me.(buf := after.buf, pipe := Concat(after.chunks), progress := Received(env.scheme, outcome))
  }

  function Apply(env: Setting, s: State, step: Step): State {
    var me, peer := s.Of(step.side), s.Of(step.side.Other());
    match step.action
    case Write(n) =>
      if n <= |me.unsent| then
        s.With(step.side, me.(unsent := me.unsent[n..]))
         .With(step.side.Other(), peer.(pipe := peer.pipe + me.unsent[..n]))
      else s
    case Peek => s.With(step.side, Peeked(env, me))
    case Tamper(bytes) => s.With(step.side, me.(pipe := bytes))
    case Break => s.With(step.side, me.(progress := Failed(Io)))
  }

  predicate Legal(env: Setting, s: State, steps: seq<Step>)
    decreases steps
  {
    steps != [] ==> Enabled(env, s, steps[0]) && Legal(env, Apply(env, s, steps[0]), steps[1..])
  }

  function Run(env: Setting, s: State, steps: seq<Step>): State
    decreases steps
  {
    if steps == [] then s else Run(env, Apply(env, s, steps[0]), steps[1..])
  }

  lemma {:induction false} RunJoins(env: Setting, s: State, steps: seq<Step>, more: seq<Step>)
    requires Legal(env, s, steps) && Legal(env, Run(env, s, steps), more)
    ensures Legal(env, s, steps + more) && Run(env, s, steps + more) == Run(env, Run(env, s, steps), more)
    decreases steps
  {
    if steps == [] {
      assert steps + more == more;
    } else {
      RunJoins(env, Apply(env, s, steps[0]), steps[1..], more);
      assert (steps + more)[1..] == steps[1..] + more;
    }
  }

  lemma {:induction false} LegalSplits(env: Setting, s: State, steps: seq<Step>, n: nat)
    requires Legal(env, s, steps) && n <= |steps|
    ensures Legal(env, s, steps[..n]) && Legal(env, Run(env, s, steps[..n]), steps[n..])
    ensures Run(env, Run(env, s, steps[..n]), steps[n..]) == Run(env, s, steps)
    decreases n
  {
    if n == 0 {
      assert steps[n..] == steps;
    } else {
      LegalSplits(env, Apply(env, s, steps[0]), steps[1..], n - 1);
      assert steps[..n][1..] == steps[1..][..n - 1] && steps[n..] == steps[1..][n - 1..];
    }
  }

  /** Nothing is written or read yet. */
  predicate Fresh(env: Setting, end: End) {
    end.unsent == Encoded(env, end) && end.pipe == end.buf == [] && end.progress.Waiting?
  }

  predicate IsStart(env: Setting, s: State) { Fresh(env, s.left) && Fresh(env, s.right) }

  // ---------------------------------------------------------------------------------------------
  // What was accepted

  /** Which token is accepted, and which error each other one gets. */
  lemma {:induction false} JudgedExactly(sc: Scheme, incoming: Incoming)
    ensures var r := RecvStartSession(sc, incoming);
            match incoming
            case Undecodable(_) => r == Failure(Decode)
            case Message(m) =>
              && (r == Success(m) <==> m.version == "1.0" && sc.verify(m.key, m.location, m.signature))
              && (r == Failure(Version(m.version)) <==> m.version != "1.0")
              && (r == Failure(BadSignature) <==> m.version == "1.0" && !sc.verify(m.key, m.location, m.signature))
  {
  }

  /** What a peek shows: the buffer, extended by the pipe when the reader refills. */
  function Shown(env: Setting, me: End): Bytes {
    if me.buf == [] || env.grows then me.buf + me.pipe else me.buf
  }

  /**
   On any channel a peek accepts exactly what it shows, and fails for the reason that what it shows gives:
   no token, no start message, another version, or a signature that does not verify.
   */
  lemma {:induction false} PeekJudges(env: Setting, me: End)
    ensures var lexed, progress := env.codec.tokenize(Shown(env, me)), Peeked(env, me).progress;
            match lexed
            case Incomplete => progress == Waiting
            case LexFailure => progress == Failed(Lex)
            case Complete(Undecodable(_), _) => progress == Failed(Decode)
            case Complete(Message(m), _) =>
              if m.version != "1.0" then progress == Failed(Version(m.version))
              else if !env.scheme.verify(m.key, m.location, m.signature) then progress == Failed(BadSignature)
              else progress == Got(m)
  {
    var source := Source(me.buf, if me.pipe == [] then [] else [me.pipe]);
    assert me.buf + [] == me.buf;
    assert source.Fill(env.grows).buf == Shown(env, me);
    RetriesWhileIncomplete(env.codec, source, env.grows, 1);
    assert Readers.Peeked(source, env.grows, 1) == Readers.Peeked(source.Fill(env.grows), env.grows, 0);
  }

  /** The end has accepted nothing, or a message of the right version with a valid signature. */
  predicate Checked(sc: Scheme, end: End) {
    end.progress.Got? ==>
      var m := end.progress.msg;
      m.version == CAPTP_VERSION && sc.verify(m.key, m.location, m.signature)
  }

  lemma StepChecked(env: Setting, s: State, step: Step, side: Side)
    requires Checked(env.scheme, s.Of(side))
    ensures Checked(env.scheme, Apply(env, s, step).Of(side))
  {
  }

  /** On any channel, a finalized end holds a "1.0" message signed by its remote key over its remote location. */
  lemma {:induction false} FinalizedIsVerified(env: Setting, s: State, steps: seq<Step>, side: Side)
    requires Legal(env, s, steps) && Checked(env.scheme, s.Of(side))
    ensures Checked(env.scheme, Run(env, s, steps).Of(side))
    decreases steps
  {
    if steps != [] {
      StepChecked(env, s, steps[0], side);
      FinalizedIsVerified(env, Apply(env, s, steps[0]), steps[1..], side);
    }
  }

  /** Whatever bytes a channel comes to carry, a whole message of the right version that verifies is accepted. */
  lemma {:induction false} VerifiedIsAccepted(env: Setting, s: State, side: Side, m: StartSession)
    requires !env.honest && PrefixCode(env.codec) && s.Of(side).Reading() && s.Of(side).buf == []
    requires m.version == "1.0" && env.scheme.verify(m.key, m.location, m.signature)
    ensures var bytes := env.codec.encode(Message(m));
            var t := Apply(env, s, Step(side, Tamper(bytes)));
            && Enabled(env, s, Step(side, Tamper(bytes))) && Enabled(env, t, Step(side, Peek))
            && Apply(env, t, Step(side, Peek)).Of(side).progress == Got(m)
  {
    var bytes := env.codec.encode(Message(m));
    var t := Apply(env, s, Step(side, Tamper(bytes)));
    assert bytes + [] == bytes && [] + bytes == bytes;
    assert env.codec.tokenize(env.codec.encode(Message(m)) + []) == Complete(Message(m), []);
    PeekJudges(env, t.Of(side));
  }

  /** An end that has failed is never finalized, whatever happens next. */
  lemma {:induction false} FailureIsFinal(env: Setting, s: State, steps: seq<Step>, side: Side)
    requires Legal(env, s, steps) && s.Of(side).progress.Failed?
    ensures Run(env, s, steps).Of(side).progress == s.Of(side).progress
    decreases steps
  {
    if steps != [] {
      FailureIsFinal(env, Apply(env, s, steps[0]), steps[1..], side);
    }
  }

  /** An end whose channel breaks under it has failed for that reason, for good. */
  lemma {:induction false} ChannelErrorIsFinal(env: Setting, s: State, side: Side, more: seq<Step>)
    requires Enabled(env, s, Step(side, Break)) && Legal(env, Apply(env, s, Step(side, Break)), more)
    ensures Run(env, Apply(env, s, Step(side, Break)), more).Of(side).progress == Failed(Io)
  {
    FailureIsFinal(env, Apply(env, s, Step(side, Break)), more, side);
  }

  // ---------------------------------------------------------------------------------------------
  // Honest channels

  /** The other end's message lies, in order, in this end's buffer, in the pipe, and still unsent. */
  ghost predicate Honest(env: Setting, me: End, peer: End) {
    var whole := Encoded(env, peer);
    && |me.pipe| <= env.capacity
    && |me.unsent| <= |Encoded(env, me)|
    && !me.progress.Failed?
    && (me.progress.Waiting? ==> me.buf + me.pipe + peer.unsent == whole && |me.buf| < |whole|)
    && (me.progress.Got? ==>
        && me.buf == me.pipe == peer.unsent == []
        && me.progress.msg == GenerateStartMsg(env.scheme, peer.key, peer.location)
        && (env.grows || |whole| <= env.capacity))
    && (me.buf != [] || me.progress.Got? ==> me.role.Accept? || me.unsent == [])
    && (me.role.Accept? && me.progress.Waiting? ==> me.unsent == Encoded(env, me))
  }

  ghost predicate Inv(env: Setting, s: State) {
    Honest(env, s.left, s.right) && Honest(env, s.right, s.left)
  }

  /** Channels deliver what was written, and what the ends sign and send can be verified and read. */
  ghost predicate Sound(env: Setting) {
    env.honest && Correct(env.scheme) && PrefixCode(env.codec) && env.capacity > 0
  }

  lemma StartKeeps(env: Setting, s: State)
    requires Sound(env) && IsStart(env, s)
    ensures Inv(env, s)
  {
  }

  /** A peek accepts the other end's message exactly when it shows all of it; otherwise it only refills. */
  lemma PeekIs(env: Setting, me: End, peer: End)
    requires Sound(env) && Honest(env, me, peer) && me.progress.Waiting?
    ensures var whole := Encoded(env, peer);
            var rest := if me.buf == [] || env.grows then [] else me.pipe;
            Peeked(env, me) ==
              if Shown(env, me) == whole then
                me.(buf := [], pipe := rest, progress := Got(GenerateStartMsg(env.scheme, peer.key, peer.location)))
              else me.(buf := Shown(env, me), pipe := rest)
    ensures Shown(env, me) != Encoded(env, peer) ==> |Shown(env, me)| < |Encoded(env, peer)|
  {
    var whole, seen := Encoded(env, peer), Shown(env, me);
    var m := Message(GenerateStartMsg(env.scheme, peer.key, peer.location));
    var source := Source(me.buf, if me.pipe == [] then [] else [me.pipe]);
    assert Concat([me.pipe]) == me.pipe + Concat([]) == me.pipe;
    assert Concat([]) == [];
    assert me.buf + [] == me.buf;
    var filled := source.Fill(env.grows);
    assert filled.buf == seen;
    assert source.Consume(env.codec, env.grows, 1) == (
      match env.codec.tokenize(filled.buf)
      case Complete(t, rest) => (Tree(t), filled.Drop(rest))
      case LexFailure => (BadLex, filled)
      case Incomplete => (StillIncomplete, filled)
    );
    assert seen == whole[..|seen|];
    if |seen| == |whole| {
      assert seen == env.codec.encode(m) + [];
      assert env.codec.tokenize(seen) == Complete(m, []);
    } else {
      assert env.codec.tokenize(env.codec.encode(m)[..|seen|]) == Incomplete;
    }
  }

  /** Bytes still to be written count twice, bytes still to be read once, and each message to be accepted once. */
  function Remaining(s: State): nat {
    2 * |s.left.unsent| + 2 * |s.right.unsent| + |s.left.pipe| + |s.right.pipe|
    + (if s.left.progress.Waiting? then 1 else 0) + (if s.right.progress.Waiting? then 1 else 0)
  }

  /** The ends after the writer has moved `n` bytes of its message into the other's pipe. */
  lemma WrittenHonest(env: Setting, me: End, peer: End, n: nat)
    requires Sound(env) && Honest(env, me, peer) && Honest(env, peer, me)
    requires me.Writing() && 0 < n <= |me.unsent| && |peer.pipe| + n <= env.capacity
    ensures var me', peer' := me.(unsent := me.unsent[n..]), peer.(pipe := peer.pipe + me.unsent[..n]);
            Honest(env, me', peer') && Honest(env, peer', me')
  {
    assert peer.buf + (peer.pipe + me.unsent[..n]) + me.unsent[n..] == peer.buf + peer.pipe + me.unsent;
  }

  lemma WriteKeeps(env: Setting, s: State, side: Side, n: nat)
    requires Sound(env) && Inv(env, s) && Enabled(env, s, Step(side, Write(n)))
    ensures Inv(env, Apply(env, s, Step(side, Write(n))))
    ensures Remaining(Apply(env, s, Step(side, Write(n)))) < Remaining(s)
  {
    WrittenHonest(env, s.Of(side), s.Of(side.Other()), n);
  }

  /** The ends after a peek, which leaves part of a message as it was when the reader does not refill. */
  lemma PeekedHonest(env: Setting, me: End, peer: End)
    requires Sound(env) && Honest(env, me, peer) && Honest(env, peer, me) && me.Reading()
    ensures Honest(env, Peeked(env, me), peer) && Honest(env, peer, Peeked(env, me))
    ensures if !env.grows && me.buf != [] then Peeked(env, me) == me else Peeked(env, me).pipe == []
    ensures Peeked(env, me).unsent == me.unsent
  {
    PeekIs(env, me, peer);
    var whole, seen := Encoded(env, peer), Shown(env, me);
    if me.buf == [] || env.grows {
      assert me.buf + me.pipe + peer.unsent == seen + [] + peer.unsent;
      assert seen == whole ==> peer.unsent == [];
      assert me.buf == [] ==> seen == me.pipe;
    }
  }

  lemma ReplacedKeeps(env: Setting, s: State, side: Side, after: End)
    requires Inv(env, s) && Honest(env, after, s.Of(side.Other())) && Honest(env, s.Of(side.Other()), after)
    ensures Inv(env, s.With(side, after)) && (after == s.Of(side) ==> s.With(side, after) == s)
    ensures after.pipe == [] && after.unsent == s.Of(side).unsent
            && s.Of(side).pipe != [] && s.Of(side).progress.Waiting?
            ==> Remaining(s.With(side, after)) < Remaining(s)
  {
  }

  lemma PeekKeeps(env: Setting, s: State, side: Side)
    requires Sound(env) && Inv(env, s) && Enabled(env, s, Step(side, Peek))
    ensures Inv(env, Apply(env, s, Step(side, Peek)))
    ensures if !env.grows && s.Of(side).buf != [] then Apply(env, s, Step(side, Peek)) == s
            else Remaining(Apply(env, s, Step(side, Peek))) < Remaining(s)
  {
    PeekedHonest(env, s.Of(side), s.Of(side.Other()));
    ReplacedKeeps(env, s, side, Peeked(env, s.Of(side)));
  }

  /** Every step brings the end of the handshake nearer, except a peek that shows part of a message again. */
  lemma StepDecreases(env: Setting, s: State, step: Step)
    requires Sound(env) && Inv(env, s) && Enabled(env, s, step)
    ensures Inv(env, Apply(env, s, step))
    ensures if step.action.Peek? && !env.grows && s.Of(step.side).buf != [] then Apply(env, s, step) == s
            else Remaining(Apply(env, s, step)) < Remaining(s)
  {
    if step.action.Write? { WriteKeeps(env, s, step.side, step.action.count); }
    if step.action.Peek? { PeekKeeps(env, s, step.side); }
  }

  predicate SameEnd(e: End, f: End) { e.role == f.role && e.key == f.key && e.location == f.location }

  predicate SameEnds(s: State, t: State) { SameEnd(s.left, t.left) && SameEnd(s.right, t.right) }

  lemma {:induction false} RunSameEnds(env: Setting, s: State, steps: seq<Step>)
    ensures SameEnds(s, Run(env, s, steps))
    decreases steps
  {
    if steps != [] { RunSameEnds(env, Apply(env, s, steps[0]), steps[1..]); }
  }

  lemma {:induction false} RunKeeps(env: Setting, s: State, steps: seq<Step>)
    requires Sound(env) && Inv(env, s) && Legal(env, s, steps)
    ensures Inv(env, Run(env, s, steps))
    decreases steps
  {
    if steps != [] {
      StepDecreases(env, s, steps[0]);
      RunKeeps(env, Apply(env, s, steps[0]), steps[1..]);
    }
  }

  /** Agreement: over honest channels each finalized end holds the other's verifying key and location. */
  lemma Agreement(env: Setting, s: State, steps: seq<Step>, side: Side)
    requires Sound(env) && IsStart(env, s) && Legal(env, s, steps)
    requires Run(env, s, steps).Of(side).Finalized()
    ensures var m := Run(env, s, steps).Of(side).progress.msg;
            var peer := s.Of(side.Other());
            m.key == env.scheme.verifying(peer.key) && m.location == peer.location
  {
    StartKeeps(env, s);
    RunKeeps(env, s, steps);
    RunSameEnds(env, s, steps);
  }

  /** Over honest channels an end finalizes only once the other has, or can still take, all of its message. */
  lemma {:induction false} FinalizedHasSpoken(env: Setting, s: State, steps: seq<Step>, side: Side)
    requires Sound(env) && IsStart(env, s) && Legal(env, s, steps)
    requires Run(env, s, steps).Of(side).Finalized()
    ensures var peer := Run(env, s, steps).Of(side.Other());
            peer.progress.Got? || peer.buf + peer.pipe == Encoded(env, s.Of(side))
  {
    StartKeeps(env, s);
    RunKeeps(env, s, steps);
    RunSameEnds(env, s, steps);
    var peer := Run(env, s, steps).Of(side.Other());
    assert peer.buf + peer.pipe + [] == peer.buf + peer.pipe;
  }

  // ---------------------------------------------------------------------------------------------
  // A message must arrive in one refill

  /** Part of the message is buffered, and the reader does not refill before the buffer is empty. */
  predicate PartOnly(env: Setting, end: End) { !env.grows && end.buf != [] && end.progress.Waiting? }

  /** Such an end peeks again and again, whatever has come into its pipe, and nothing changes. */
  lemma {:induction false} PeeksForEver(env: Setting, s: State, side: Side)
    requires Sound(env) && Inv(env, s) && PartOnly(env, s.Of(side))
    ensures Enabled(env, s, Step(side, Peek)) && Apply(env, s, Step(side, Peek)) == s
  {
    StepDecreases(env, s, Step(side, Peek));
  }

  lemma {:induction false} PartOnlyForEver(env: Setting, s: State, steps: seq<Step>, side: Side)
    requires Sound(env) && Inv(env, s) && Legal(env, s, steps) && PartOnly(env, s.Of(side))
    ensures PartOnly(env, Run(env, s, steps).Of(side))
    decreases steps
  {
    if steps != [] {
      StepDecreases(env, s, steps[0]);
      PartOnlyForEver(env, Apply(env, s, steps[0]), steps[1..], side);
    }
  }

  lemma {:induction false} GotForEver(env: Setting, s: State, steps: seq<Step>, side: Side)
    requires env.honest && Legal(env, s, steps) && s.Of(side).progress.Got?
    ensures Run(env, s, steps).Of(side).progress.Got?
    decreases steps
  {
    if steps != [] { GotForEver(env, Apply(env, s, steps[0]), steps[1..], side); }
  }

  /**
   With a reader that refills only when empty, the first refill decides: if it holds the whole start
   message the end has accepted it, and otherwise the end never accepts anything in any continuation.
   */
  lemma FirstRefillDecides(env: Setting, s: State, steps: seq<Step>, side: Side, more: seq<Step>)
    requires Sound(env) && !env.grows && IsStart(env, s) && Legal(env, s, steps)
    requires var t := Run(env, s, steps);
             t.Of(side).buf == [] && Enabled(env, t, Step(side, Peek))
             && Legal(env, Apply(env, t, Step(side, Peek)), more)
    ensures var t := Run(env, s, steps);
            Run(env, Apply(env, t, Step(side, Peek)), more).Of(side).progress.Got?
            <==> t.Of(side).pipe == Encoded(env, s.Of(side.Other()))
  {
    StartKeeps(env, s);
    RunKeeps(env, s, steps);
    RunSameEnds(env, s, steps);
    RefillDecides(env, Run(env, s, steps), side, more);
  }

  lemma RefillDecides(env: Setting, t: State, side: Side, more: seq<Step>)
    requires Sound(env) && !env.grows && Inv(env, t)
    requires t.Of(side).buf == [] && Enabled(env, t, Step(side, Peek))
    requires Legal(env, Apply(env, t, Step(side, Peek)), more)
    ensures Run(env, Apply(env, t, Step(side, Peek)), more).Of(side).progress.Got?
            <==> t.Of(side).pipe == Encoded(env, t.Of(side.Other()))
  {
    var me, peer := t.Of(side), t.Of(side.Other());
    var next := Apply(env, t, Step(side, Peek));
    PeekIs(env, me, peer);
    PeekKeeps(env, t, side);
    assert Shown(env, me) == me.pipe;
    if me.pipe == Encoded(env, peer) {
      GotForEver(env, next, more, side);
    } else {
      PartOnlyForEver(env, next, more, side);
    }
  }

  // ---------------------------------------------------------------------------------------------
  // When the handshake can get stuck

  /** Not finished, and every step that can be taken leaves everything as it is. */
  ghost predicate Stuck(env: Setting, s: State) {
    !s.Done() && forall step :: Enabled(env, s, step) ==> Apply(env, s, step) == s
  }

  predicate BothAccept(s: State) { s.left.role.Accept? && s.right.role.Accept? }

  predicate BothConnect(s: State) { s.left.role.Connect? && s.right.role.Connect? }

  predicate Fits(env: Setting, end: End) { |Encoded(env, end)| <= env.capacity }

  /**
   The pairings that never finish. Both ends wait for the other; or both write first and neither
   message fits its pipe; or a reader that refills only when empty cannot get some message in one refill.
   */
  predicate Deadlocks(env: Setting, s: State) {
    || BothAccept(s)
    || (BothConnect(s) && !Fits(env, s.left) && !Fits(env, s.right))
    || (!env.grows && !(Fits(env, s.left) && Fits(env, s.right)))
  }

  /** Neither end has begun to read, so neither can. */
  ghost predicate NeitherReads(env: Setting, s: State) {
    && s.left.buf == s.right.buf == [] && s.left.progress.Waiting? && s.right.progress.Waiting?
    && s.left.unsent != [] && s.right.unsent != []
    && (BothAccept(s) ==> s.left.pipe == s.right.pipe == [])
  }

  lemma NeitherReadsStep(env: Setting, s: State, step: Step)
    requires Sound(env) && Inv(env, s) && Enabled(env, s, step) && NeitherReads(env, s)
    requires BothAccept(s) || (BothConnect(s) && !Fits(env, s.left) && !Fits(env, s.right))
    ensures NeitherReads(env, Apply(env, s, step))
  {
    StepDecreases(env, s, step);
  }

  lemma {:induction false} NeitherReadsRun(env: Setting, s: State, steps: seq<Step>)
    requires Sound(env) && Inv(env, s) && Legal(env, s, steps) && NeitherReads(env, s)
    requires BothAccept(s) || (BothConnect(s) && !Fits(env, s.left) && !Fits(env, s.right))
    ensures NeitherReads(env, Run(env, s, steps))
    decreases steps
  {
    if steps != [] {
      var next := Apply(env, s, steps[0]);
      StepDecreases(env, s, steps[0]);
      NeitherReadsStep(env, s, steps[0]);
      NeitherReadsRun(env, next, steps[1..]);
    }
  }

  lemma NeverDone(env: Setting, s: State, steps: seq<Step>)
    requires Sound(env) && IsStart(env, s) && Legal(env, s, steps) && Deadlocks(env, s)
    ensures !Run(env, s, steps).Done()
  {
    StartKeeps(env, s);
    RunKeeps(env, s, steps);
    RunSameEnds(env, s, steps);
    if env.grows || BothAccept(s) || (BothConnect(s) && !Fits(env, s.left) && !Fits(env, s.right)) {
      NeitherReadsRun(env, s, steps);
    }
  }

  /** A reader that refills only when empty has taken nothing, or the whole message. */
  ghost predicate WholeRefills(env: Setting, s: State) {
    !env.grows ==>
      && env.wholeWrites && Fits(env, s.left) && Fits(env, s.right)
      && s.left.buf == s.right.buf == []
      && (s.left.pipe != [] ==> s.right.unsent == [])
      && (s.right.pipe != [] ==> s.left.unsent == [])
  }

  lemma WholeRefillsStep(env: Setting, s: State, step: Step)
    requires Sound(env) && Inv(env, s) && Enabled(env, s, step) && WholeRefills(env, s)
    ensures WholeRefills(env, Apply(env, s, step))
  {
    var me, peer := s.Of(step.side), s.Of(step.side.Other());
    if !env.grows {
      if step.action.Write? {
        assert peer.pipe == [];
        assert step.action.count == |me.unsent|;
      } else {
        assert me.pipe + [] == me.pipe == Shown(env, me);
        assert me.buf + me.pipe + peer.unsent == me.pipe;
        PeekIs(env, me, peer);
      }
    }
  }

  lemma {:induction false} WholeRefillsRun(env: Setting, s: State, steps: seq<Step>)
    requires Sound(env) && Inv(env, s) && Legal(env, s, steps) && WholeRefills(env, s)
    ensures WholeRefills(env, Run(env, s, steps))
    decreases steps
  {
    if steps != [] {
      StepDecreases(env, s, steps[0]);
      WholeRefillsStep(env, s, steps[0]);
      WholeRefillsRun(env, Apply(env, s, steps[0]), steps[1..]);
    }
  }

  /** Whether this end can write, or read something new. */
  predicate Movable(env: Setting, s: State, side: Side) {
    var me, peer := s.Of(side), s.Of(side.Other());
    || (me.Writing() && |peer.pipe| < env.capacity)
    || (me.Reading() && me.pipe != [] && (env.grows || me.buf == []))
  }

  function Move(env: Setting, s: State, side: Side): Step {
    var me, peer := s.Of(side), s.Of(side.Other());
    if me.Writing() && |peer.pipe| < env.capacity then
      Step(side, Write(Min(|me.unsent|, env.capacity - |peer.pipe|)))
    else Step(side, Peek)
  }

  lemma MoveMoves(env: Setting, s: State, side: Side)
    requires Sound(env) && Inv(env, s) && Movable(env, s, side)
    ensures Enabled(env, s, Move(env, s, side)) && Remaining(Apply(env, s, Move(env, s, side))) < Remaining(s)
  {
    StepDecreases(env, s, Move(env, s, side));
  }

  /** When neither end is movable nothing changes any more. */
  lemma StuckUnlessMovable(env: Setting, s: State)
    requires Sound(env) && Inv(env, s) && !s.Done()
    ensures Stuck(env, s) <==> !Movable(env, s, Left) && !Movable(env, s, Right)
  {
    if Movable(env, s, Left) { MoveMoves(env, s, Left); }
    if Movable(env, s, Right) { MoveMoves(env, s, Right); }
    if !Movable(env, s, Left) && !Movable(env, s, Right) {
      forall step | Enabled(env, s, step) ensures Apply(env, s, step) == s {
        assert step.side == Left || step.side == Right;
        StepDecreases(env, s, step);
      }
    }
  }

  /** In a pairing that does not deadlock, an end that is not finalized can move, or the other can. */
  lemma SomeoneMoves(env: Setting, s: State)
    requires Sound(env) && Inv(env, s) && WholeRefills(env, s) && !s.Done() && !Deadlocks(env, s)
    ensures Movable(env, s, Left) || Movable(env, s, Right)
  {
    var l, r := s.left, s.right;
    assert l.progress.Waiting? ==> |l.buf| + |l.pipe| + |r.unsent| == |Encoded(env, r)|;
    assert r.progress.Waiting? ==> |r.buf| + |r.pipe| + |l.unsent| == |Encoded(env, l)|;
  }

  /** Every run can be continued until both ends are finalized or nothing changes any more. */
  lemma {:induction false} RunsOn(env: Setting, s: State) returns (more: seq<Step>)
    requires Sound(env) && Inv(env, s)
    ensures Legal(env, s, more)
    ensures Run(env, s, more).Done() || Stuck(env, Run(env, s, more))
    decreases Remaining(s)
  {
    more := [];
    if !s.Done() {
      StuckUnlessMovable(env, s);
      if !Stuck(env, s) {
        var step := Move(env, s, if Movable(env, s, Left) then Left else Right);
        MoveMoves(env, s, step.side);
        StepDecreases(env, s, step);
        var rest := RunsOn(env, Apply(env, s, step));
        more := [step] + rest;
        assert more[1..] == rest;
      }
    }
  }

  /** A run that ends in this state. */
  ghost predicate Ends(env: Setting, s: State, steps: seq<Step>, stuck: bool) {
    Legal(env, s, steps) && if stuck then Stuck(env, Run(env, s, steps)) else Run(env, s, steps).Done()
  }

  /**
   What becomes of a pairing over honest channels is settled by its roles and sizes, not by the order of
   steps: no run of a pairing that deadlocks finishes and each can be continued until it is stuck; no
   run of any other is ever stuck and each can be continued until both ends are finalized.
   */
  lemma {:induction false} StuckExactly(env: Setting, s: State, steps: seq<Step>)
    requires Sound(env) && IsStart(env, s) && (env.grows || env.wholeWrites) && Legal(env, s, steps)
    ensures if Deadlocks(env, s) then !Run(env, s, steps).Done() else !Stuck(env, Run(env, s, steps))
    ensures exists more :: Ends(env, s, steps + more, Deadlocks(env, s))
  {
    var t := Run(env, s, steps);
    StartKeeps(env, s);
    RunKeeps(env, s, steps);
    var more := RunsOn(env, t);
    RunJoins(env, s, steps, more);
    if Deadlocks(env, s) {
      NeverDone(env, s, steps);
      NeverDone(env, s, steps + more);
    } else {
      NeverStuck(env, s, steps);
      NeverStuck(env, s, steps + more);
    }
    assert Ends(env, s, steps + more, Deadlocks(env, s));
  }

  lemma NeverStuck(env: Setting, s: State, steps: seq<Step>)
    requires Sound(env) && IsStart(env, s) && (env.grows || env.wholeWrites) && Legal(env, s, steps)
    requires !Deadlocks(env, s)
    ensures !Stuck(env, Run(env, s, steps))
  {
    var t := Run(env, s, steps);
    StartKeeps(env, s);
    RunKeeps(env, s, steps);
    RunSameEnds(env, s, steps);
    WholeRefillsRun(env, s, steps);
    if !t.Done() {
      SomeoneMoves(env, t);
      StuckUnlessMovable(env, t);
    }
  }

  /**
   The mock netlayer lets both ends connect over pipes of 1024 bytes, whose writes take all that fits,
   and reads with a reader that refills only when empty: one message over 1024 bytes is enough to hang.
   */
  lemma {:induction false} MockPairing(env: Setting, s: State)
    requires Sound(env) && IsStart(env, s) && BothConnect(s)
    requires env.capacity == 1024 && env.wholeWrites && !env.grows
    ensures (exists steps :: Ends(env, s, steps, true)) <==> |s.left.unsent| > 1024 || |s.right.unsent| > 1024
    ensures (exists steps :: Ends(env, s, steps, false)) <==> |s.left.unsent| <= 1024 && |s.right.unsent| <= 1024
  {
    forall steps | Legal(env, s, steps)
      ensures if Deadlocks(env, s) then !Run(env, s, steps).Done() else !Stuck(env, Run(env, s, steps))
    {
      StuckExactly(env, s, steps);
    }
    StuckExactly(env, s, []);
    var more :| Ends(env, s, [] + more, Deadlocks(env, s));
  }

  // ---------------------------------------------------------------------------------------------
  // Writes that may be split anywhere

  /** An end that has only part of the message leads to a stuck pairing. */
  lemma HangsFrom(env: Setting, s: State, steps: seq<Step>, side: Side)
    requires Sound(env) && IsStart(env, s) && Legal(env, s, steps) && PartOnly(env, Run(env, s, steps).Of(side))
    ensures exists all :: Ends(env, s, all, true)
  {
    var t := Run(env, s, steps);
    StartKeeps(env, s);
    RunKeeps(env, s, steps);
    var more := RunsOn(env, t);
    RunJoins(env, s, steps, more);
    PartOnlyForEver(env, t, more, side);
    assert Ends(env, s, steps + more, true);
  }

  lemma RunMore(env: Setting, s: State, steps: seq<Step>, step: Step)
    requires Legal(env, s, steps) && Enabled(env, Run(env, s, steps), step)
    ensures Legal(env, s, steps + [step]) && Run(env, s, steps + [step]) == Apply(env, Run(env, s, steps), step)
  {
    var t := Run(env, s, steps);
    assert [step][1..] == [];
    assert Legal(env, t, [step]) && Run(env, t, [step]) == Apply(env, t, step);
    RunJoins(env, s, steps, [step]);
  }

  /** Once an end is reading, the first byte of a longer message is enough. */
  lemma HangsOnFirstByte(env: Setting, s: State, steps: seq<Step>, side: Side)
    requires Sound(env) && !env.grows && !env.wholeWrites && IsStart(env, s) && Legal(env, s, steps)
    requires var me, peer := Run(env, s, steps).Of(side), Run(env, s, steps).Of(side.Other());
             me.Reading() && me.pipe == me.buf == [] && peer.Writing() && |peer.unsent| > 1
    ensures exists all :: Ends(env, s, all, true)
  {
    var write, peek := Step(side.Other(), Write(1)), Step(side, Peek);
    StartKeeps(env, s);
    RunMore(env, s, steps, write);
    RunKeeps(env, s, steps + [write]);
    var t := Run(env, s, steps + [write]);
    RunMore(env, s, steps + [write], peek);
    PeekIs(env, t.Of(side), t.Of(side.Other()));
    HangsFrom(env, s, steps + [write] + [peek], side);
  }

  /** The end that writes first has more than a byte to write, or leaves that to the other. */
  lemma SplitHangs(env: Setting, s: State, side: Side)
    requires Sound(env) && !env.grows && !env.wholeWrites && IsStart(env, s)
    requires Fits(env, s.left) && Fits(env, s.right) && s.Of(side).role.Connect?
    requires |s.Of(side).unsent| > 1 || (s.Of(side.Other()).role.Accept? && |s.Of(side.Other()).unsent| > 1)
    ensures exists all :: Ends(env, s, all, true)
  {
    var me, peer := s.Of(side), s.Of(side.Other());
    if peer.role.Connect? {
      RunMore(env, s, [], Step(side.Other(), Write(|peer.unsent|)));
      HangsOnFirstByte(env, s, [] + [Step(side.Other(), Write(|peer.unsent|))], side.Other());
    } else if |me.unsent| > 1 {
      HangsOnFirstByte(env, s, [], side.Other());
    } else {
      var write, peek := Step(side, Write(|me.unsent|)), Step(side.Other(), Peek);
      StartKeeps(env, s);
      RunMore(env, s, [], write);
      RunKeeps(env, s, [] + [write]);
      var t := Run(env, s, [] + [write]);
      PeekIs(env, t.Of(side.Other()), t.Of(side));
      RunMore(env, s, [] + [write], peek);
      HangsOnFirstByte(env, s, [] + [write] + [peek], side);
    }
  }

  /** Writes of messages of one byte are never split. */
  lemma {:induction false} NothingToSplit(env: Setting, s: State, steps: seq<Step>)
    requires env.honest && Legal(env, s, steps) && |s.left.unsent| <= 1 && |s.right.unsent| <= 1
    ensures var same := env.(wholeWrites := true);
            Legal(same, s, steps) && Run(same, s, steps) == Run(env, s, steps)
    decreases steps
  {
    if steps != [] {
      assert Apply(env, s, steps[0]) == Apply(env.(wholeWrites := true), s, steps[0]);
      NothingToSplit(env, Apply(env, s, steps[0]), steps[1..]);
    }
  }

  lemma StuckEitherWay(env: Setting, t: State)
    requires Stuck(env, t)
    ensures Stuck(env.(wholeWrites := true), t)
  {
    var same := env.(wholeWrites := true);
    forall step | Enabled(same, t, step) ensures Apply(same, t, step) == t {
      assert Enabled(env, t, step) && Apply(env, t, step) == Apply(same, t, step);
    }
  }

  /**
   With a reader that refills only when empty, over a channel that may split a write anywhere, some run
   gets stuck exactly when both ends accept or some start message is longer than one byte.
   */
  lemma {:induction false} SplitWritesHang(env: Setting, s: State)
    requires Sound(env) && !env.grows && !env.wholeWrites && IsStart(env, s)
    ensures (exists steps :: Ends(env, s, steps, true))
            <==> BothAccept(s) || |s.left.unsent| > 1 || |s.right.unsent| > 1
  {
    StartKeeps(env, s);
    if Deadlocks(env, s) {
      var more := RunsOn(env, s);
      NeverDone(env, s, more);
      assert Ends(env, s, more, true);
    } else if |s.left.unsent| > 1 || |s.right.unsent| > 1 {
      var first: Side := if s.left.role.Accept? || (s.right.role.Connect? && |s.left.unsent| <= 1) then Right else Left;
      SplitHangs(env, s, first);
    } else {
      forall steps | Legal(env, s, steps) ensures !Stuck(env, Run(env, s, steps)) {
        var same := env.(wholeWrites := true);
        NothingToSplit(env, s, steps);
        NeverStuck(same, s, steps);
        if Stuck(env, Run(env, s, steps)) { StuckEitherWay(env, Run(env, s, steps)); }
      }
    }
  }
}
