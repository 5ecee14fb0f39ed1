/**
 What the steps of a run asked for, kept apart from the state they lead to: the calls that were begun,
 the objects exported, the frames sent, handed to objects and refused. The state of each peer agrees
 with these books in every run.
 */
module Histories {
  import opened Wrappers
  import opened Messages
  import opened Promises
  import opened Protocol

  /** Target and arguments of a call, as the application gave them. */
  datatype Request = Request(to: U64, args: Args)

  datatype Book = Book(
    asked: seq<Request>,
    made: seq<Exported>,         // what each position was handed out for, in order
    stored: seq<U64>,            // positions whose object has been stored
    sent: seq<Frame>,            // frames given to the session to write
    handed: seq<Frame>,          // frames taken up for dispatch
    refused: seq<Frame>,         // of these, the ones to positions not in the table
    handles: seq<ReplyHandle>    // reply handles given to the objects
  )

  const EMPTY: Book := Book([], [], [], [], [], [], [])

  function AskedBy(me: PeerState, a: Action): seq<Request> {
    match a
    case BeginCall(to, args) => [Request(to, args)]
    case BeginReply(h, args) =>
      if h < |me.handles| then [Request(me.handles[h].resolver.resolveMe.position, [Symbol("fulfill")] + args)] else []
    case _ => []
  }

  function MadeBy(me: PeerState, a: Action): seq<Exported> {
    match a
    case ExportReserve(id) => [Application(id)]
    case BeginCall(_, _) => [ResolverOf(|me.calls|)]
    case BeginReply(_, _) => [ResolverOf(|me.calls|)]
    case _ => []
  }

  function StoredBy(a: Action): seq<U64> { if a.Finalize? then [a.pos] else [] }

  function HandedBy(me: PeerState, a: Action): seq<Frame> {
    if a.Dispatch? && a.index < |me.inHand| then [me.inHand[a.index]] else []
  }

  /** The frame is for a position, other than the bootstrap object's, that is not in the table. */
  predicate Unknown(me: PeerState, f: Frame) { !f.op.Abort? && f.op.to != 0 && f.op.to !in me.exports }

  /** The frame resolves a promise that has been settled or is no longer awaited. */
  predicate Refuses(me: PeerState, f: Frame) {
    && f.op.Deliver? && f.op.to != 0 && f.op.to in me.exports
    && me.exports[f.op.to].ResolverOf? && me.exports[f.op.to].call < |me.calls|
    && !me.calls[me.exports[f.op.to].call].promise.Open()
    && ReadResolution(f.op.args).Some?
  }

  function RefusedBy(me: PeerState, a: Action): seq<Frame> {
    var fs := HandedBy(me, a);
    if fs != [] && Unknown(me, fs[0]) then fs else []
  }

  function HandleFor(me: PeerState, f: Frame): seq<ReplyHandle> {
    if f.op.Deliver? && !Unknown(me, f) then
      [ReplyHandle(GenericResolver(f.op.answerPos, f.op.resolveMe), f.origin)]
    else []
  }

  /** Serving an op:deliver makes a handle from what the frame says of its reply. */
  function HandlesBy(me: PeerState, a: Action): seq<ReplyHandle> {
    var fs := HandedBy(me, a);
    if fs != [] then HandleFor(me, fs[0]) else []
  }

  function BreakFrame(h: nat, position: U64, reason: Token): Frame {
    Frame(DeliverOnly(position, [Symbol("break"), reason]), ReplyTo(h), Supplied)
  }

  /** The break that refuses a resolution, or nothing. */
  function RefusalFor(me: PeerState, f: Frame): seq<Frame> {
    if Refuses(me, f) then
      [BreakFrame(|me.handles|, f.op.resolveMe.position, Text("promise already resolved"))]
    else []
  }

  /** The frames one action gives the session to write: one, or none. */
  function SentBy(me: PeerState, a: Action): seq<Frame> {
    match a
    case SendCall(c) =>
      if c < |me.calls| then
        var call := me.calls[c];
        [Frame(Deliver(call.to, call.args, None, Object(call.pos)), call.aim, OwnCall(c))]
      else []
    case Fulfill(h, args, answerPos, resolveMe) =>
      if h < |me.handles| then
        var position := me.handles[h].resolver.resolveMe.position;
        [Frame(Deliver(position, [Symbol("fulfill")] + args, answerPos, resolveMe), ReplyTo(h), Supplied)]
      else []
    case BreakPromise(h, reason) =>
      if h < |me.handles| then [BreakFrame(h, me.handles[h].resolver.resolveMe.position, reason)] else []
    case SendByHand(op) => [Frame(op, ByHand, Supplied)]
    case Dispatch(i) =>
      if i < |me.inHand| then RefusalFor(me, me.inHand[i]) else []
    case _ => []
  }

  function Entered(b: Book, me: PeerState, a: Action): Book {
    Book(b.asked + AskedBy(me, a), b.made + MadeBy(me, a), b.stored + StoredBy(a), b.sent + SentBy(me, a),
         b.handed + HandedBy(me, a), b.refused + RefusedBy(me, a), b.handles + HandlesBy(me, a))
  }

  /** The books of `p` after a run. */
  ghost function BookOf(steps: seq<Step>, p: Peer): Book
    requires Legal(steps)
    decreases |steps|
  {
    if |steps| == 0 then EMPTY
    else
      var before := steps[..|steps| - 1];
      var step := steps[|steps| - 1];
      if step.peer == p then Entered(BookOf(before, p), After(before).Of(p), step.action) else BookOf(before, p)
  }

  // ---------------------------------------------------------------------------------------------
  // The state agrees with the books

  ghost predicate CallsAgree(me: PeerState, b: Book) {
    && |me.calls| == |b.asked|
    && (forall c {:trigger me.calls[c]} :: 0 <= c < |me.calls| ==>
      me.calls[c].to == b.asked[c].to && me.calls[c].args == b.asked[c].args)
    && me.handles == b.handles && me.unknown == b.refused
  }

  ghost predicate TablesAgree(me: PeerState, b: Book) {
    && me.issued == |b.made|
    && (forall k: U64 :: k in me.exports <==> k in b.stored)
    && (forall k: U64 :: k in me.exports || k in me.reserved <==> 1 <= k <= |b.made|)
    && (forall k: U64 :: k in me.exports ==> k !in me.reserved && me.exports[k] == b.made[k - 1])
    && (forall k: U64 :: k in me.reserved ==> me.reserved[k] == b.made[k - 1])
  }

  /** Nothing sent is lost, added or changed on its way to the wire, and nothing read on its way to dispatch. */
  ghost predicate FramesAgree(me: PeerState, b: Book) {
    && multiset(me.outgoing) + multiset(me.written) == multiset(b.sent)
    && multiset(me.inHand) + multiset(b.handed) == multiset(me.read)
  }

  ghost predicate Agrees(me: PeerState, b: Book) { CallsAgree(me, b) && TablesAgree(me, b) && FramesAgree(me, b) }

  lemma TakenOut<T>(s: seq<T>, i: nat)
    requires i < |s|
    ensures multiset(s) == multiset(Without(s, i)) + multiset{s[i]}
  {
    assert s == s[..i] + [s[i]] + s[i + 1..];
  }

  lemma EnqueueAgrees(me: PeerState, b: Book, f: Frame)
    requires Agrees(me, b)
    ensures Agrees(me.Enqueue(f), b.(sent := b.sent + [f]))
  {
  }

  lemma FulfillAgrees(me: PeerState, b: Book, h: nat, args: Args)
    requires Agrees(me, b)
    ensures Agrees(me.Fulfill(h, args), b)
  {
  }

  lemma SetCallAgrees(me: PeerState, b: Book, c: nat, call: Call)
    requires Agrees(me, b) && c < |me.calls| && call.to == me.calls[c].to && call.args == me.calls[c].args
    ensures Agrees(me.SetCall(c, call), b)
  {
  }

  lemma ReserveAgrees(me: PeerState, b: Book, e: Exported)
    requires Agrees(me, b) && me.issued + 1 < U64_SPACE
    ensures TablesAgree(me.Reserve(e), b.(made := b.made + [e]))
  {
  }

  lemma BeginAgrees(me: PeerState, b: Book, to: U64, args: Args, aim: Aim)
    requires Agrees(me, b) && me.issued + 1 < U64_SPACE
    ensures Agrees(me.Begin(to, args, aim),
                   b.(asked := b.asked + [Request(to, args)], made := b.made + [ResolverOf(|me.calls|)]))
  {
    ReserveAgrees(me, b, ResolverOf(|me.calls|));
  }

  lemma FinalizeAgrees(me: PeerState, b: Book, pos: U64)
    requires Agrees(me, b) && pos in me.reserved
    ensures Agrees(me.Finalize(pos), b.(stored := b.stored + [pos]))
  {
  }

  lemma WriteAgrees(me: PeerState, b: Book, i: nat)
    requires Agrees(me, b) && i < |me.outgoing|
    ensures Agrees(me.Write(i), b)
  {
    TakenOut(me.outgoing, i);
  }

  lemma TakeAgrees(me: PeerState, b: Book, f: Frame)
    requires Agrees(me, b)
    ensures Agrees(me.Take(f), b)
  {
  }

  lemma HandleKeepsTables(me: PeerState, f: Frame)
    ensures var q := me.Handle(f);
            && q.issued == me.issued && q.reserved == me.reserved && q.exports == me.exports
            && q.inHand == me.inHand && q.written == me.written && q.read == me.read
  {
  }

  lemma HandleKeepsCalls(me: PeerState, f: Frame)
    ensures var q := me.Handle(f);
            && |q.calls| == |me.calls|
            && forall c :: 0 <= c < |me.calls| ==>
                 q.calls[c].to == me.calls[c].to && q.calls[c].args == me.calls[c].args
  {
  }

  lemma HandleRecords(me: PeerState, f: Frame)
    ensures me.Handle(f).unknown == me.unknown + (if Unknown(me, f) then [f] else [])
    ensures me.Handle(f).handles == me.handles + HandleFor(me, f)
  {
  }

  /** A resolution that comes too late is refused with exactly one break, through the handle it came with. */
  lemma HandleSends(me: PeerState, f: Frame)
    ensures me.Handle(f).outgoing == me.outgoing + RefusalFor(me, f)
  {
  }

  lemma {:induction false} DispatchAgrees(me: PeerState, b: Book, i: nat)
    requires Agrees(me, b) && i < |me.inHand|
    ensures var f := me.inHand[i];
            Agrees(me.(inHand := Without(me.inHand, i)).Handle(f),
                   b.(sent := b.sent + RefusalFor(me, f), handed := b.handed + [f],
                      refused := b.refused + (if Unknown(me, f) then [f] else []),
                      handles := b.handles + HandleFor(me, f)))
  {
    var f := me.inHand[i];
    var taken := me.(inHand := Without(me.inHand, i));
    var q := taken.Handle(f);
    HandleKeepsTables(taken, f);
    HandleKeepsCalls(taken, f);
    HandleRecords(taken, f);
    HandleSends(taken, f);
    TakenOut(me.inHand, i);
    var b' := b.(sent := b.sent + RefusalFor(me, f), handed := b.handed + [f],
                 refused := b.refused + (if Unknown(me, f) then [f] else []),
                 handles := b.handles + HandleFor(me, f));
    FramesMove(me, q, b, b', f, RefusalFor(me, f));
    assert CallsAgree(q, b') && TablesAgree(q, b');
  }

  lemma FramesMove(me: PeerState, q: PeerState, b: Book, b': Book, f: Frame, fs: seq<Frame>)
    requires FramesAgree(me, b) && q.written == me.written && q.read == me.read
    requires q.outgoing == me.outgoing + fs && b'.sent == b.sent + fs
    requires multiset(me.inHand) == multiset(q.inHand) + multiset{f} && b'.handed == b.handed + [f]
    ensures FramesAgree(q, b')
  {
  }

  /** What a step of `p` leaves of the state of `p`. */
  function Next(s: System, step: Step): PeerState
    requires Enabled(s, step)
  {
    Apply(s, step).Of(step.peer)
  }

  /** Adding nothing. */
  lemma EnteredIs(b: Book, me: PeerState, a: Action)
    ensures AskedBy(me, a) == [] ==> Entered(b, me, a).asked == b.asked
    ensures MadeBy(me, a) == [] ==> Entered(b, me, a).made == b.made
    ensures StoredBy(a) == [] ==> Entered(b, me, a).stored == b.stored
    ensures SentBy(me, a) == [] ==> Entered(b, me, a).sent == b.sent
    ensures !a.Dispatch? ==> Entered(b, me, a).handed == b.handed && Entered(b, me, a).refused == b.refused
                             && Entered(b, me, a).handles == b.handles
  {
  }

  lemma {:induction false} SendStepAgrees(s: System, step: Step, b: Book)
    requires Enabled(s, step) && Agrees(s.Of(step.peer), b)
    requires step.action.SendCall? || step.action.Fulfill? || step.action.BreakPromise? || step.action.SendByHand?
    ensures Agrees(Next(s, step), Entered(b, s.Of(step.peer), step.action))
  {
    var me := s.Of(step.peer);
    EnteredIs(b, me, step.action);
    var f := SentBy(me, step.action)[0];
    var noted := match step.action
      case SendCall(c) => me.SetCall(c, me.calls[c].(phase := Sent))
      case Fulfill(h, args, _, _) => me.Fulfill(h, args)
      case _ => me;
    match step.action {
      case SendCall(c) => SetCallAgrees(me, b, c, me.calls[c].(phase := Sent));
      case Fulfill(h, args, _, _) => FulfillAgrees(me, b, h, args);
      case _ =>
    }
    EnqueueAgrees(noted, b, f);
  }

  lemma {:induction false} BeginStepAgrees(s: System, step: Step, b: Book)
    requires Enabled(s, step) && Agrees(s.Of(step.peer), b) && InKeySpace(Apply(s, step))
    requires step.action.BeginCall? || step.action.BeginReply?
    ensures Agrees(Next(s, step), Entered(b, s.Of(step.peer), step.action))
  {
    var me := s.Of(step.peer);
    EnteredIs(b, me, step.action);
    match step.action {
      case BeginCall(to, args) => BeginAgrees(me, b, to, args, ByHand);
      case BeginReply(h, args) =>
        FulfillAgrees(me, b, h, args);
        BeginAgrees(me.Fulfill(h, args), b, me.handles[h].resolver.resolveMe.position, [FULFILL] + args, ReplyTo(h));
    }
  }

  lemma {:induction false} EntryStepAgrees(s: System, step: Step, b: Book)
    requires Enabled(s, step) && Agrees(s.Of(step.peer), b) && InKeySpace(Apply(s, step))
    requires step.action.ExportReserve? || step.action.Finalize? || step.action.FailCall? || step.action.CancelCall?
    ensures Agrees(Next(s, step), Entered(b, s.Of(step.peer), step.action))
  {
    var me := s.Of(step.peer);
    EnteredIs(b, me, step.action);
    match step.action {
      case ExportReserve(id) => ReserveAgrees(me, b, Application(id));
      case Finalize(pos) => FinalizeAgrees(me, b, pos);
      case FailCall(c) => SetCallAgrees(me, b, c, me.calls[c].(phase := Failed, promise := me.calls[c].promise.Drop()));
      case CancelCall(c) => SetCallAgrees(me, b, c, me.calls[c].(promise := me.calls[c].promise.Drop()));
    }
  }

  lemma {:induction false} FrameStepAgrees(s: System, step: Step, b: Book)
    requires Enabled(s, step) && Agrees(s.Of(step.peer), b)
    requires step.action.Write? || step.action.Read? || step.action.Dispatch?
    ensures Agrees(Next(s, step), Entered(b, s.Of(step.peer), step.action))
  {
    var me := s.Of(step.peer);
    EnteredIs(b, me, step.action);
    match step.action {
      case Write(i) => WriteAgrees(me, b, i);
      case Read => TakeAgrees(me, b, s.Of(step.peer.Other()).wire[0]);
      case Dispatch(i) => DispatchAgrees(me, b, i);
    }
  }

  lemma {:induction false} StepAgrees(s: System, step: Step, b: Book)
    requires Enabled(s, step) && Agrees(s.Of(step.peer), b) && InKeySpace(Apply(s, step))
    ensures Agrees(Next(s, step), Entered(b, s.Of(step.peer), step.action))
  {
    var a := step.action;
    if a.Dispatch? || a.Write? || a.Read? {
      FrameStepAgrees(s, step, b);
    } else if a.Finalize? || a.FailCall? || a.CancelCall? || a.ExportReserve? {
      EntryStepAgrees(s, step, b);
    } else if a.BeginCall? || a.BeginReply? {
      BeginStepAgrees(s, step, b);
    } else {
      SendStepAgrees(s, step, b);
    }
  }

  /** A step of one peer takes nothing from the other but the frame it reads off the wire. */
  lemma OtherAgrees(s: System, step: Step, b: Book)
    requires Enabled(s, step) && Agrees(s.Of(step.peer.Other()), b)
    ensures Agrees(Apply(s, step).Of(step.peer.Other()), b)
  {
  }

  /**
   After every run the state of each peer is what its steps asked for: each call has the target and
   the arguments it was begun with, each position the object it was handed out for, and what waits,
   has been written, is in hand or was refused is exactly what was sent to it.
   */
  lemma {:induction false} BooksAgree(steps: seq<Step>, p: Peer)
    requires Legal(steps) && InKeySpace(After(steps))
    ensures Agrees(After(steps).Of(p), BookOf(steps, p))
    decreases |steps|
  {
    if |steps| > 0 {
      var before := steps[..|steps| - 1];
      var step := steps[|steps| - 1];
      IssuedGrows(After(before), step);
      BooksAgree(before, p);
      if step.peer == p {
        StepAgrees(After(before), step, BookOf(before, p));
      } else {
        OtherAgrees(After(before), step, BookOf(before, p));
      }
    }
  }

  // ---------------------------------------------------------------------------------------------
  // What is sent for a call

  lemma StepWritten(s: System, step: Step, p: Peer)
    requires Enabled(s, step)
    ensures var was, now := s.Of(p).written, Apply(s, step).Of(p).written;
            now == was || exists f :: f in s.Of(p).outgoing && now == was + [f]
  {
    if step.peer == p && step.action.Dispatch? {
      var me := s.Of(p);
      HandleKeepsTables(me.(inHand := Without(me.inHand, step.action.index)), me.inHand[step.action.index]);
    }
  }

  lemma WrittenStep(s: System, step: Step, p: Peer)
    requires Inv(s) && Enabled(s, step) && InKeySpace(Apply(s, step)) && GoodFrames(s.Of(p), s.Of(p).written)
    ensures GoodFrames(Apply(s, step).Of(p), Apply(s, step).Of(p).written)
  {
    var was, now := s.Of(p), Apply(s, step).Of(p);
    StepKeeps(s, step);
    StepWritten(s, step, p);
    FramesExtend(was, now, was.written);
    FramesExtend(was, now, was.outgoing);
    if now.written != was.written {
      var f :| f in was.outgoing && now.written == was.written + [f];
    }
  }

  lemma {:induction false} WrittenIsGood(steps: seq<Step>, p: Peer)
    requires Legal(steps) && InKeySpace(After(steps))
    ensures GoodFrames(After(steps).Of(p), After(steps).Of(p).written)
    decreases |steps|
  {
    if |steps| > 0 {
      var before := steps[..|steps| - 1];
      var step := steps[|steps| - 1];
      IssuedGrows(After(before), step);
      RunKeeps(before);
      WrittenIsGood(before, p);
      WrittenStep(After(before), step, p);
    }
  }

  /** Everything that `p` has sent, wherever it is: still waiting, on the wire, or with the other peer. */
  ghost predicate SentSomewhere(s: System, p: Peer, f: Frame) {
    var me, other := s.Of(p), s.Of(p.Other());
    f in me.outgoing || f in me.written || f in me.wire || f in other.read || f in other.inHand
  }

  lemma {:induction false} SentIsGood(steps: seq<Step>, p: Peer, f: Frame)
    requires Legal(steps) && InKeySpace(After(steps)) && SentSomewhere(After(steps), p, f)
    ensures GoodFrame(After(steps).Of(p), f)
  {
    RunKeeps(steps);
    WrittenIsGood(steps, p);
    FramesArriveInOrder(steps);
    GoodWherever(After(steps).Of(p), After(steps).Of(p.Other()), f);
  }

  lemma GoodWherever(me: PeerState, other: PeerState, f: Frame)
    requires PeerOk(me, other) && PeerOk(other, me) && GoodFrames(me, me.written) && InOrder(me, other)
    requires f in me.outgoing || f in me.written || f in me.wire || f in other.read || f in other.inHand
    ensures GoodFrame(me, f)
  {
    if f in other.read {
      assert f in other.read + me.wire;
    }
  }

  /** What a peer has taken up for dispatch is what it has read. */
  lemma {:induction false} HandedWasRead(steps: seq<Step>, p: Peer, f: Frame)
    requires Legal(steps) && InKeySpace(After(steps)) && f in BookOf(steps, p.Other()).handed
    ensures SentSomewhere(After(steps), p, f)
  {
    BooksAgree(steps, p.Other());
    assert f in multiset(BookOf(steps, p.Other()).handed);
    assert f in multiset(After(steps).Of(p.Other()).read);
  }

  /**
   The frame of a call, wherever it has got to, is an op:deliver to the target that the application
   gave when it began the call, with the arguments it gave, and names the position at which the call's
   resolver is stored. So that is what the other peer's object is handed.
   */
  lemma {:induction false} CallFramesCarryTheCall(steps: seq<Step>, p: Peer, f: Frame)
    requires Legal(steps) && InKeySpace(After(steps)) && SentSomewhere(After(steps), p, f) && f.origin.OwnCall?
    ensures var me, asked := After(steps).Of(p), BookOf(steps, p).asked;
            var c := f.origin.call;
            && c < |asked| && c < |me.calls|
            && f.op == Deliver(asked[c].to, asked[c].args, None, Object(me.calls[c].pos))
            && me.calls[c].pos in me.exports && me.exports[me.calls[c].pos] == ResolverOf(c)
  {
    SentIsGood(steps, p, f);
    BooksAgree(steps, p);
  }

  /** A break sent through a handle goes to the handle's position and reads as broken, with a reason. */
  lemma {:induction false} BreaksReadAsBroken(steps: seq<Step>, p: Peer, f: Frame)
    requires Legal(steps) && InKeySpace(After(steps)) && SentSomewhere(After(steps), p, f)
    requires f.aim.ReplyTo? && f.op.DeliverOnly?
    ensures var me := After(steps).Of(p);
            && f.aim.handle < |me.handles| && f.op.to == me.handles[f.aim.handle].resolver.resolveMe.position
            && |f.op.args| == 2 && ReadResolution(f.op.args) == Some(Broken(f.op.args[1]))
  {
    SentIsGood(steps, p, f);
  }

  function CountCall(fs: seq<Frame>, c: nat): nat {
    if fs == [] then 0 else (if fs[0].origin == OwnCall(c) then 1 else 0) + CountCall(fs[1..], c)
  }

  lemma {:induction false} CountAppend(a: seq<Frame>, b: seq<Frame>, c: nat)
    ensures CountCall(a + b, c) == CountCall(a, c) + CountCall(b, c)
  {
    if a == [] {
      assert a + b == b;
    } else {
      CountAppend(a[1..], b, c);
      assert (a + b)[1..] == a[1..] + b;
    }
  }

  function IsSent(me: PeerState, c: nat): nat {
    if c < |me.calls| && me.calls[c].phase.Sent? then 1 else 0
  }

  /** A dispatch sends nothing for a call and does not change which calls have been sent. */
  lemma HandleSendsNoCall(me: PeerState, f: Frame, c: nat)
    ensures IsSent(me.Handle(f), c) == IsSent(me, c) && CountCall(RefusalFor(me, f), c) == 0
  {
  }

  lemma {:induction false} SentByCounts(s: System, step: Step, c: nat)
    requires Enabled(s, step)
    ensures CountCall(SentBy(s.Of(step.peer), step.action), c) ==
            IsSent(Next(s, step), c) - IsSent(s.Of(step.peer), c)
  {
    var me := s.Of(step.peer);
    if step.action.Dispatch? {
      var i := step.action.index;
      var taken := me.(inHand := Without(me.inHand, i));
      HandleSendsNoCall(taken, me.inHand[i], c);
      assert RefusalFor(taken, me.inHand[i]) == RefusalFor(me, me.inHand[i]);
    }
  }

  /** A call is sent once, if its send did not fail, and otherwise never. */
  lemma {:induction false} EachCallIsSentOnce(steps: seq<Step>, p: Peer, c: nat)
    requires Legal(steps)
    ensures CountCall(BookOf(steps, p).sent, c) == IsSent(After(steps).Of(p), c)
    decreases |steps|
  {
    if |steps| > 0 {
      var before := steps[..|steps| - 1];
      var step := steps[|steps| - 1];
      EachCallIsSentOnce(before, p, c);
      if step.peer == p {
        SentByCounts(After(before), step, c);
        CountAppend(BookOf(before, p).sent, SentBy(After(before).Of(p), step.action), c);
      } else {
        OtherSendsNothing(After(before), step, c);
      }
    }
  }

  lemma OtherSendsNothing(s: System, step: Step, c: nat)
    requires Enabled(s, step)
    ensures IsSent(Apply(s, step).Of(step.peer.Other()), c) == IsSent(s.Of(step.peer.Other()), c)
  {
  }

  /** A caller that stops awaiting, because its send failed or it was cancelled, is never answered after that. */
  lemma {:induction false} DroppedCallsStayUnanswered(steps: seq<Step>, n: nat, p: Peer, c: nat)
    requires n < |steps| && Legal(steps) && InKeySpace(After(steps))
    requires steps[n] == Step(p, FailCall(c)) || steps[n] == Step(p, CancelCall(c))
    ensures Legal(steps[..n]) && c < |After(steps[..n]).Of(p).calls| && c < |After(steps).Of(p).calls|
    ensures After(steps[..n]).Of(p).calls[c].promise.answer == After(steps).Of(p).calls[c].promise.answer
  {
    NothingIsTakenBack(steps, n);
    NothingIsTakenBack(steps, n + 1);
    var here := steps[..n + 1];
    assert here[..|here| - 1] == steps[..n] && here[|here| - 1] == steps[n];
    assert Legal(here);
    assert After(here) == Apply(After(steps[..n]), steps[n]);
    assert Extends(After(here).Of(p), After(steps).Of(p));
    assert SameCall(After(here).Of(p).calls[c], After(steps).Of(p).calls[c]);
  }
}
