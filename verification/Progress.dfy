/**
 What can always be done: in every reachable state a call can be made, served and answered, whatever
 other calls, replies and frames are under way.
 */
module Progress {
  import opened Wrappers
  import opened Messages
  import opened Promises
  import opened Protocol

  /** `p` has read the wire to its end, and `f`, the frame the other peer queued last, is the last one. */
  function Arrived(s: System, p: Peer, queue: seq<Frame>, f: Frame): System {
    var me, other := s.Of(p), s.Of(p.Other());
    s.With(p, me.(inHand := me.inHand + (other.wire + [f]), read := me.read + (other.wire + [f])))
     .With(p.Other(), other.(outgoing := queue, wire := [], written := other.written + [f]))
  }

  lemma LastArrives(steps: seq<Step>, s: System, p: Peer, queue: seq<Frame>, f: Frame) returns (all: seq<Step>)
    requires Reaches(steps, s) && s.Of(p.Other()).outgoing == queue + [f]
    ensures Continues(steps, all, Arrived(s, p, queue, f))
  {
    var other := s.Of(p.Other());
    var write := Step(p.Other(), Action.Write(|queue|));
    var onWire := s.With(p.Other(),
      other.(outgoing := queue, wire := other.wire + [f], written := other.written + [f]));
    assert Without(queue + [f], |queue|) == queue;
    assert Apply(s, write) == onWire;
    var written := OneStep(steps, s, write);
    all := ReadSome(written, onWire, p, |other.wire| + 1);
    assert (other.wire + [f])[..|other.wire| + 1] == other.wire + [f];
    assert AfterReads(onWire, p, |other.wire| + 1) == Arrived(s, p, queue, f);
  }

  // ---------------------------------------------------------------------------------------------
  // Making the call

  /** The frame of a new call of `me`. */
  function NewFrame(me: PeerState, to: U64, args: Args): Frame {
    Frame(Deliver(to, args, None, Object(me.NextKey())), ByHand, OwnCall(|me.calls|))
  }

  /** What is left of `me` when the call is on its way: the new call, its resolver stored, its frame queued. */
  ghost predicate HasCalled(me: PeerState, after: PeerState, to: U64, args: Args) {
    && |after.calls| == |me.calls| + 1 && after.calls[|me.calls|].promise == NEW_PROMISE
    && after.calls[|me.calls|].pos == me.NextKey() && Placed(after, |me.calls|)
    && after.outgoing == me.outgoing + [NewFrame(me, to, args)]
    && after.issued == me.issued + 1 && after.wire == me.wire && after.inHand == me.inHand
    && after.handles == me.handles
  }

  lemma CallIsMade(steps: seq<Step>, s: System, p: Peer, to: U64, args: Args) returns (all: seq<Step>, t: System)
    requires Reaches(steps, s)
    ensures Continues(steps, all, t) && t == s.With(p, t.Of(p)) && HasCalled(s.Of(p), t.Of(p), to, args)
  {
    var me := s.Of(p);
    var s1 := Apply(s, Step(p, BeginCall(to, args)));
    var begun := OneStep(steps, s, Step(p, BeginCall(to, args)));
    var s2 := Apply(s1, Step(p, Finalize(me.NextKey())));
    var stored := OneStep(begun, s1, Step(p, Finalize(me.NextKey())));
    t := Apply(s2, Step(p, SendCall(|me.calls|)));
    all := OneStep(stored, s2, Step(p, SendCall(|me.calls|)));
  }

  // ---------------------------------------------------------------------------------------------
  // Serving it

  /** The other peer's object is there, or the call is a fetch: its handler gets a reply handle. */
  predicate Callable(other: PeerState, to: U64, args: Args) {
    if to == 0 then IsFetch(Deliver(to, args, None, Object(0)))
    else to in other.exports && other.exports[to].Application?
  }

  lemma CallIsServed(s: System, q: Peer, i: nat, to: U64, args: Args, pos: U64, c: nat)
    requires i < |s.Of(q).inHand| && Callable(s.Of(q), to, args)
    requires s.Of(q).inHand[i] == Frame(Deliver(to, args, None, Object(pos)), ByHand, OwnCall(c))
    ensures var me := s.Of(q);
            && Enabled(s, Step(q, Dispatch(i)))
            && Apply(s, Step(q, Dispatch(i))) ==
               s.With(q, me.(inHand := Without(me.inHand, i),
                             handles := me.handles + [ReplyHandle(GenericResolver(None, Object(pos)), OwnCall(c))]))
  {
  }

  /** The reply that the handler sends through the handle it got. */
  function Reply(h: nat, pos: U64, x: Args): Frame {
    Frame(Deliver(pos, [FULFILL] + x, None, Object(0)), ReplyTo(h), Supplied)
  }

  lemma ReplyIsSent(s: System, q: Peer, h: nat, pos: U64, x: Args)
    requires h < |s.Of(q).handles| && s.Of(q).handles[h].resolver == GenericResolver(None, Object(pos))
    ensures var me := s.Of(q);
            var fulfill := Step(q, Action.Fulfill(h, x, None, Object(0)));
            Enabled(s, fulfill)
            && Apply(s, fulfill) == s.With(q, me.(fulfilled := me.fulfilled + {(h, x)},
                                                  outgoing := me.outgoing + [Reply(h, pos, x)]))
  {
  }

  lemma ReplySettles(s: System, p: Peer, i: nat, c: nat, f: Frame, x: Args)
    requires Table(s.Of(p)) && c < |s.Of(p).calls| && Placed(s.Of(p), c) && s.Of(p).calls[c].promise.Open()
    requires i < |s.Of(p).inHand| && s.Of(p).inHand[i] == f
    requires f.op.Deliver? && f.op.to == s.Of(p).calls[c].pos && f.op.args == [FULFILL] + x
    ensures Enabled(s, Step(p, Dispatch(i)))
    ensures var t := Apply(s, Step(p, Dispatch(i))).Of(p);
            c < |t.calls| && t.calls[c].promise.answer == Some(Ok(x)) && t.issued == s.Of(p).issued
  {
    var me := s.Of(p);
    DeliverySettles(me.(inHand := Without(me.inHand, i)), c, f, x);
  }

  // ---------------------------------------------------------------------------------------------
  // From the call to its answer

  /** The reply has been queued, written and read. */
  function ReplyInHand(s: System, p: Peer, h: nat, pos: U64, x: Args): System {
    var q := p.Other();
    var other := s.Of(q);
    var sent := s.With(q, other.(fulfilled := other.fulfilled + {(h, x)},
                                 outgoing := other.outgoing + [Reply(h, pos, x)]));
    Arrived(sent, p, other.outgoing, Reply(h, pos, x))
  }

  lemma ReplyArrives(steps: seq<Step>, s: System, p: Peer, h: nat, pos: U64, x: Args) returns (all: seq<Step>)
    requires Reaches(steps, s) && h < |s.Of(p.Other()).handles|
    requires s.Of(p.Other()).handles[h].resolver == GenericResolver(None, Object(pos))
    ensures Continues(steps, all, ReplyInHand(s, p, h, pos, x))
  {
    var q := p.Other();
    var fulfill := Step(q, Action.Fulfill(h, x, None, Object(0)));
    ReplyIsSent(s, q, h, pos, x);
    var sent := OneStep(steps, s, fulfill);
    all := LastArrives(sent, Apply(s, fulfill), p, s.Of(q).outgoing, Reply(h, pos, x));
  }

  lemma ReplyIsServed(s: System, p: Peer, c: nat, h: nat, x: Args, pos: U64)
    requires c < |s.Of(p).calls| && Placed(s.Of(p), c) && s.Of(p).calls[c].promise.Open()
    requires pos == s.Of(p).calls[c].pos && Table(ReplyInHand(s, p, h, pos, x).Of(p))
    ensures var u := ReplyInHand(s, p, h, pos, x);
            var last := Step(p, Dispatch(|s.Of(p).inHand| + |s.Of(p.Other()).wire|));
            Enabled(u, last) && Answered(Apply(u, last), p, c, x)
  {
    var u := ReplyInHand(s, p, h, pos, x);
    ReplySettles(u, p, |s.Of(p).inHand| + |s.Of(p.Other()).wire|, c, Reply(h, pos, x), x);
  }

  /** A handle that the other peer holds for a call of `p` names the position of the call's resolver. */
  lemma HandleNamesResolver(s: System, p: Peer, c: nat, h: nat)
    requires Inv(s) && c < |s.Of(p).calls| && h < |s.Of(p.Other()).handles|
    requires s.Of(p.Other()).handles[h].origin == OwnCall(c)
    ensures s.Of(p.Other()).handles[h].resolver == GenericResolver(None, Object(s.Of(p).calls[c].pos))
  {
    assert GoodHandle(s.Of(p), s.Of(p.Other()).handles[h]);
  }

  lemma InHandKeeps(steps: seq<Step>, s: System, p: Peer, h: nat, pos: U64, x: Args)
    requires Reaches(steps, ReplyInHand(s, p, h, pos, x)) && InKeySpace(s)
    ensures Table(ReplyInHand(s, p, h, pos, x).Of(p))
  {
    ReachedKeeps(steps, ReplyInHand(s, p, h, pos, x));
  }

  /** A call that is still open can be answered through a handle that its peer holds for it. */
  lemma {:induction false} HandleCanAnswer(steps: seq<Step>, s: System, p: Peer, c: nat, h: nat, x: Args)
    returns (all: seq<Step>, t: System)
    requires Reaches(steps, s) && InKeySpace(s) && c < |s.Of(p).calls| && h < |s.Of(p.Other()).handles|
    requires Placed(s.Of(p), c) && s.Of(p).calls[c].promise.Open()
    requires s.Of(p.Other()).handles[h].origin == OwnCall(c)
    ensures Continues(steps, all, t) && Answered(t, p, c, x)
  {
    var pos := s.Of(p).calls[c].pos;
    var u := ReplyInHand(s, p, h, pos, x);
    var last := Step(p, Dispatch(|s.Of(p).inHand| + |s.Of(p.Other()).wire|));
    ReachedKeeps(steps, s);
    HandleNamesResolver(s, p, c, h);
    var way := ReplyArrives(steps, s, p, h, pos, x);
    InHandKeeps(way, s, p, h, pos, x);
    ReplyIsServed(s, p, c, h, x, pos);
    t := Apply(u, last);
    all := OneStep(way, u, last);
  }

  ghost predicate Answered(s: System, p: Peer, c: nat, x: Args) {
    c < |s.Of(p).calls| && s.Of(p).calls[c].promise.answer == Some(Ok(x))
  }

  /** The new call is open, and its peer holds a handle made from it. */
  ghost predicate Pending(s: System, t: System, p: Peer) {
    var c, h := |s.Of(p).calls|, |s.Of(p.Other()).handles|;
    && c < |t.Of(p).calls| && t.Of(p).calls[c].promise.Open() && Placed(t.Of(p), c)
    && h < |t.Of(p.Other()).handles| && t.Of(p.Other()).handles[h].origin == OwnCall(c)
  }

  /** The call in the hand of its peer, and its dispatch there. */
  lemma {:induction false} ArrivedIsPending(s: System, s1: System, p: Peer, to: U64, args: Args)
    requires s1 == s.With(p, s1.Of(p)) && HasCalled(s.Of(p), s1.Of(p), to, args)
    requires Callable(s.Of(p.Other()), to, args)
    ensures var me, other := s.Of(p), s.Of(p.Other());
            var s2 := Arrived(s1, p.Other(), me.outgoing, NewFrame(me, to, args));
            var last := Step(p.Other(), Dispatch(|other.inHand| + |me.wire|));
            && Enabled(s2, last) && Pending(s, Apply(s2, last), p)
            && Apply(s2, last).Of(p).issued == me.issued + 1 && Apply(s2, last).Of(p.Other()).issued == other.issued
  {
    var me, other := s.Of(p), s.Of(p.Other());
    var s2 := Arrived(s1, p.Other(), me.outgoing, NewFrame(me, to, args));
    CallIsServed(s2, p.Other(), |other.inHand| + |me.wire|, to, args, me.NextKey(), |me.calls|);
  }

  lemma {:induction false} CallArrives(steps: seq<Step>, s: System, p: Peer, to: U64, args: Args)
    returns (all: seq<Step>, t: System)
    requires Reaches(steps, s) && Callable(s.Of(p.Other()), to, args)
    ensures Continues(steps, all, t) && Pending(s, t, p)
    ensures t.Of(p).issued == s.Of(p).issued + 1 && t.Of(p.Other()).issued == s.Of(p.Other()).issued
  {
    var q := p.Other();
    var me := s.Of(p);
    var made, s1 := CallIsMade(steps, s, p, to, args);
    var way := LastArrives(made, s1, q, me.outgoing, NewFrame(me, to, args));
    var s2 := Arrived(s1, q, me.outgoing, NewFrame(me, to, args));
    var last := Step(q, Dispatch(|s.Of(q).inHand| + |me.wire|));
    ArrivedIsPending(s, s1, p, to, args);
    t := Apply(s2, last);
    all := OneStep(way, s2, last);
  }

  /**
   In every reachable state, whatever else is under way, a new call to the bootstrap object's fetch or
   to an application object of the other peer can be made, served there and answered with anything.
   */
  lemma {:induction false} CallsCanBeAnswered(steps: seq<Step>, s: System, p: Peer, to: U64, args: Args, x: Args)
    requires Reaches(steps, s) && InKeySpace(s) && s.Of(p).issued + 1 < U64_SPACE
    requires Callable(s.Of(p.Other()), to, args)
    ensures exists all, t :: Continues(steps, all, t) && Answered(t, p, |s.Of(p).calls|, x)
  {
    var way, t := CallArrives(steps, s, p, to, args);
    var all, u := HandleCanAnswer(way, t, p, |s.Of(p).calls|, |s.Of(p.Other()).handles|, x);
    assert Continues(steps, all, u);
  }
}
