/**
 Two peers joined by a CapTP session. Any number of tasks on each side export objects, call, reply
 and send by hand; any number of receiver tasks take frames off the incoming wire and serve them.
 A step is one atomic action of one task.
 */
module Protocol {
  import opened Wrappers
  import opened Messages
  import opened Promises

  datatype Peer = Alice | Bob {
    function Other(): Peer { if Alice? then Bob else Alice }
  }

  // ---------------------------------------------------------------------------------------------
  // State. `Aim` and `Origin` are history: they say how a frame's two positions were chosen, and
  // no step depends on them.

  /** The target position: taken from the reply handle with this number, or written by hand. */
  datatype Aim = ReplyTo(handle: nat) | ByHand

  /** The resolve-me descriptor: that of the sender's own call, or one the application supplied. */
  datatype Origin = OwnCall(call: nat) | Supplied

  datatype Frame = Frame(op: Operation, aim: Aim, origin: Origin)

  datatype Exported = Application(id: nat) | ResolverOf(call: nat)

  datatype Phase = Preparing | Sent | Failed

  /** One `deliver_and`: what it sends, the position of its resolver, and its promise. */
  datatype Call = Call(to: U64, args: Args, aim: Aim, pos: U64, phase: Phase,
                       promise: PromiseState, settledBy: Option<Frame>)

  datatype ReplyHandle = ReplyHandle(resolver: GenericResolver, origin: Origin)

  datatype PeerState = PeerState(
    issued: nat,                    // positions handed out so far
    reserved: map<U64, Exported>,   // positions handed out whose object is not stored yet
    exports: map<U64, Exported>,
    calls: seq<Call>,
    handles: seq<ReplyHandle>,      // every `GenericResolver` ever made here
    fulfilled: set<(nat, Args)>,    // which handle has been asked to fulfill with what
    outgoing: seq<Frame>,           // checked, waiting for the writer lock
    wire: seq<Frame>,               // written, not read by the other peer yet
    inHand: seq<Frame>,             // read by a receiver task here, not served yet
    unknown: seq<Frame>,            // answered with `UnknownTarget`
    written: seq<Frame>,            // everything ever put on the wire
    read: seq<Frame>                // everything ever read here
  ) {
    function NextKey(): U64 { Wrap(issued + 1) }

    function Reserve(e: Exported): PeerState {
      this.(issued := issued + 1, reserved := reserved[NextKey() := e])
    }

    /** First half of `deliver_and`: a new resolver gets a position. */
    function Begin(to: U64, args: Args, aim: Aim): PeerState {
      Reserve(ResolverOf(|calls|)).(
      calls := calls + [Call(to, args, aim, NextKey(), Preparing, NEW_PROMISE, None)])
    }

    function Finalize(pos: U64): PeerState
      requires pos in reserved
    {
      this.(exports := exports[pos := reserved[pos]], reserved := reserved - {pos})
    }

    function CallFrame(c: nat): Frame
      requires c < |calls|
    {
      Frame(Deliver(calls[c].to, calls[c].args, None, Object(calls[c].pos)), calls[c].aim, OwnCall(c))
    }

    function Enqueue(f: Frame): PeerState { this.(outgoing := outgoing + [f]) }

    function SetCall(c: nat, call: Call): PeerState
      requires c < |calls|
    {
      this.(calls := calls[c := call])
    }

    function SendCall(c: nat): PeerState
      requires c < |calls|
    {
      SetCall(c, calls[c].(phase := Sent)).Enqueue(CallFrame(c))
    }

    /** The session is aborted: nothing is sent, and the answer is dropped with the call. */
    function FailCall(c: nat): PeerState
      requires c < |calls|
    {
      SetCall(c, calls[c].(phase := Failed, promise := calls[c].promise.Drop()))
    }

    function Fulfill(h: nat, args: Args): PeerState {
      this.(fulfilled := fulfilled + {(h, args)})
    }

    /** Whichever waiting sender gets the lock writes its whole frame. */
    function Write(i: nat): PeerState
      requires i < |outgoing|
    {
      var f := outgoing[i];
      this.(outgoing := Without(outgoing, i), wire := wire + [f], written := written + [f])
    }

    function Take(f: Frame): PeerState { this.(inHand := inHand + [f], read := read + [f]) }

    function Refuse(f: Frame): PeerState { this.(unknown := unknown + [f]) }

    /** A resolver serves a delivery that carried the handle numbered `h`. */
    function Settle(c: nat, f: Frame, h: nat): PeerState
      requires c < |calls| && h < |handles| && f.op.Deliver?
    {
      var (promise, reply) := Serve(calls[c].promise, Delivery(f.op.args, handles[h].resolver));
      var settles := calls[c].promise.Open() && ReadResolution(f.op.args).Some?;
      var st := SetCall(c, calls[c].(promise := promise, settledBy := if settles then Some(f) else calls[c].settledBy));
      if reply.Some? then st.Enqueue(Frame(reply.value, ReplyTo(h), Supplied)) else st
    }

    /** The dispatch of one received operation. */
    function Handle(f: Frame): PeerState {
      match f.op
      case Abort(_) => this
      case DeliverOnly(to, _) => if to == 0 || to in exports then this else Refuse(f)
      case Deliver(to, _, answerPos, resolveMe) =>
        if to != 0 && to !in exports then Refuse(f) else
        var st := this.(handles := handles + [ReplyHandle(GenericResolver(answerPos, resolveMe), f.origin)]);
        if to != 0 && exports[to].ResolverOf? && exports[to].call < |calls| then
          st.Settle(exports[to].call, f, |handles|)
        else st
    }
  }

  datatype System = System(alice: PeerState, bob: PeerState) {
    function Of(p: Peer): PeerState { if p.Alice? then alice else bob }

    function With(p: Peer, st: PeerState): System {
      if p.Alice? then this.(alice := st) else this.(bob := st)
    }
  }

  const NEW_PEER: PeerState := PeerState(0, map[], map[], [], [], {}, [], [], [], [], [], [])

  // ---------------------------------------------------------------------------------------------
  // Steps

  datatype Action =
    | ExportReserve(id: nat)
    | Finalize(pos: U64)
    | BeginCall(to: U64, args: Args)
    | BeginReply(handle: nat, args: Args)                       // fulfill_and
    | SendCall(call: nat)
    | FailCall(call: nat)
    | CancelCall(call: nat)
    | Fulfill(handle: nat, args: Args, answerPos: Option<U64>, resolveMe: DescImport)
    | BreakPromise(handle: nat, reason: Token)
    | SendByHand(op: Operation)
    | Write(index: nat)
    | Read
    | Dispatch(index: nat)

  datatype Step = Step(peer: Peer, action: Action)

  function Without<T>(s: seq<T>, i: nat): seq<T>
    requires i < |s|
  {
    s[..i] + s[i + 1..]
  }

  /** An operation on the bootstrap object in whose branch the source panics, so that it is never served. */
  predicate Unfinished(op: Operation) { !op.Abort? && op.to == 0 && !IsFetch(op) }

  predicate Enabled(s: System, step: Step) {
    var me := s.Of(step.peer);
    match step.action
    case Finalize(pos) => pos in me.reserved
    case BeginReply(h, _) => h < |me.handles|
    case SendCall(c) => c < |me.calls| && me.calls[c].phase.Preparing? && me.calls[c].pos in me.exports
    case FailCall(c) => c < |me.calls| && me.calls[c].phase.Preparing? && me.calls[c].pos in me.exports
    case CancelCall(c) => c < |me.calls|
    case Fulfill(h, _, _, _) => h < |me.handles|
    case BreakPromise(h, _) => h < |me.handles|
    case Write(i) => i < |me.outgoing|
    case Read => s.Of(step.peer.Other()).wire != []
    case Dispatch(i) => i < |me.inHand| && !Unfinished(me.inHand[i].op)
    case _ => true
  }

  function Apply(s: System, step: Step): System
    requires Enabled(s, step)
  {
    var p := step.peer;
    var me := s.Of(p);
    match step.action
    case ExportReserve(id) => s.With(p, me.Reserve(Application(id)))
    case Finalize(pos) => s.With(p, me.Finalize(pos))
    case BeginCall(to, args) => s.With(p, me.Begin(to, args, ByHand))
    case BeginReply(h, args) =>
      s.With(p, me.Fulfill(h, args).Begin(me.handles[h].resolver.Position(), [FULFILL] + args, ReplyTo(h)))
    case SendCall(c) => s.With(p, me.SendCall(c))
    case FailCall(c) => s.With(p, me.FailCall(c))
    case CancelCall(c) => s.With(p, me.SetCall(c, me.calls[c].(promise := me.calls[c].promise.Drop())))
    case Fulfill(h, args, answerPos, resolveMe) =>
      s.With(p, me.Fulfill(h, args).Enqueue(
        Frame(me.handles[h].resolver.FulfillOp(args, answerPos, resolveMe), ReplyTo(h), Supplied)))
    case BreakPromise(h, reason) =>
      s.With(p, me.Enqueue(Frame(me.handles[h].resolver.BreakOp(reason), ReplyTo(h), Supplied)))
    case SendByHand(op) => s.With(p, me.Enqueue(Frame(op, ByHand, Supplied)))
    case Write(i) => s.With(p, me.Write(i))
    case Read =>
      var other := s.Of(p.Other());
      s.With(p, me.Take(other.wire[0])).With(p.Other(), other.(wire := other.wire[1..]))
    case Dispatch(i) => s.With(p, me.(inHand := Without(me.inHand, i)).Handle(me.inHand[i]))
  }

  /** A run is the list of its steps. */
  ghost predicate Legal(steps: seq<Step>)
    decreases |steps|, 0
  {
    |steps| > 0 ==>
      var before := steps[..|steps| - 1];
      Legal(before) && Enabled(After(before), steps[|steps| - 1])
  }

  ghost function After(steps: seq<Step>): System
    requires Legal(steps)
    decreases |steps|, 1
  {
    if |steps| == 0 then System(NEW_PEER, NEW_PEER)
    else Apply(After(steps[..|steps| - 1]), steps[|steps| - 1])
  }

  /** Neither peer has used up its positions: fewer than 2^64 have been handed out. */
  predicate InKeySpace(s: System) { s.alice.issued < U64_SPACE && s.bob.issued < U64_SPACE }

  // ---------------------------------------------------------------------------------------------
  // What every step keeps

  /** Positions and calls are never changed once made. */
  ghost predicate Extends(p: PeerState, q: PeerState) {
    && p.issued <= q.issued
    && p.exports.Keys <= q.exports.Keys
    && (forall k :: k in p.exports ==> q.exports[k] == p.exports[k])
    && |p.calls| <= |q.calls|
    && (forall c :: 0 <= c < |p.calls| ==> SameCall(p.calls[c], q.calls[c]))
    && p.handles <= q.handles
    && p.fulfilled <= q.fulfilled
  }

  ghost predicate SameCall(c: Call, d: Call) {
    && c.pos == d.pos && c.to == d.to && c.args == d.args && c.aim == d.aim
    && (!c.promise.Open() ==>
        !d.promise.Open() && d.promise.answer == c.promise.answer && d.settledBy == c.settledBy)
  }

  ghost predicate Keyed(p: PeerState, table: map<U64, Exported>) {
    forall k :: k in table ==>
      && 1 <= k <= p.issued
      && (table[k].ResolverOf? ==> table[k].call < |p.calls| && p.calls[table[k].call].pos == k)
  }

  ghost predicate Placed(p: PeerState, c: nat)
    requires c < |p.calls|
  {
    p.calls[c].pos in p.exports && p.exports[p.calls[c].pos] == ResolverOf(c)
  }

  ghost predicate Table(p: PeerState) {
    && Keyed(p, p.reserved) && Keyed(p, p.exports)
    && p.reserved.Keys !! p.exports.Keys
    && (forall c {:trigger p.calls[c]} :: 0 <= c < |p.calls| ==>
      Placed(p, c) || (p.calls[c].pos in p.reserved && p.reserved[p.calls[c].pos] == ResolverOf(c)))
    && (forall c {:trigger p.calls[c]} :: 0 <= c < |p.calls| ==>
        GoodAim(p, p.calls[c].aim, p.calls[c].to, p.calls[c].args))
    && (forall c {:trigger p.calls[c]} :: 0 <= c < |p.calls| && p.calls[c].promise.Open() ==>
        p.calls[c].promise.answer == None)
  }

  /** A position taken from a handle is that handle's, and the arguments are what it was asked to send. */
  ghost predicate GoodAim(p: PeerState, aim: Aim, to: U64, args: Args) {
    aim.ReplyTo? ==>
      && aim.handle < |p.handles| && to == p.handles[aim.handle].resolver.Position()
      && |args| >= 1 && args[0] == FULFILL && (aim.handle, args[1..]) in p.fulfilled
  }

  /** The frame of a call is addressed as the call is and carries its arguments and its resolver's position. */
  ghost predicate CarriesCall(p: PeerState, f: Frame, c: nat)
    requires c < |p.calls|
  {
    Placed(p, c) && f.op == Deliver(p.calls[c].to, p.calls[c].args, None, Object(p.calls[c].pos))
  }

  /** Frames sent by `p` tell the truth about where they come from. */
  ghost predicate GoodFrame(p: PeerState, f: Frame) {
    && (f.op.Abort? ==> f.aim.ByHand?)
    && (f.op.Deliver? ==> GoodAim(p, f.aim, f.op.to, f.op.args))
    && (f.op.DeliverOnly? && f.aim.ReplyTo? ==>
      && f.aim.handle < |p.handles| && f.op.to == p.handles[f.aim.handle].resolver.resolveMe.position
      && |f.op.args| == 2 && ReadResolution(f.op.args) == Some(Broken(f.op.args[1])))
    && (f.origin.OwnCall? ==> f.origin.call < |p.calls| && CarriesCall(p, f, f.origin.call))
  }

  /** Handles made from what `p` sent. */
  ghost predicate GoodHandle(p: PeerState, h: ReplyHandle) {
    h.origin.OwnCall? ==>
      h.origin.call < |p.calls| && Placed(p, h.origin.call)
      && h.resolver == GenericResolver(None, Object(p.calls[h.origin.call].pos))
  }

  ghost predicate GoodFrames(p: PeerState, fs: seq<Frame>) { forall i :: 0 <= i < |fs| ==> GoodFrame(p, fs[i]) }

  /** An answered call of `me` was answered by a delivery that `other` sent to the call's resolver. */
  ghost predicate GoodAnswer(call: Call, other: PeerState) {
    call.promise.answer.Some? ==>
      && call.settledBy.Some? && call.settledBy.value.op.Deliver?
      && GoodFrame(other, call.settledBy.value)
      && call.settledBy.value.op.to == call.pos
      && ReadResolution(call.settledBy.value.op.args) == call.promise.answer
  }

  /** `f`, sent by `sender`, replies through a handle made from one of the receiver's own calls. */
  ghost predicate IsReply(f: Frame, sender: PeerState) {
    f.aim.ReplyTo? && f.aim.handle < |sender.handles| && sender.handles[f.aim.handle].origin.OwnCall?
  }

  ghost predicate Received(me: PeerState, other: PeerState) {
    && GoodFrames(other, me.inHand)
    && (forall i :: 0 <= i < |me.handles| ==> GoodHandle(other, me.handles[i]))
    && (forall c {:trigger me.calls[c]} :: 0 <= c < |me.calls| ==> GoodAnswer(me.calls[c], other))
    && (forall i {:trigger me.unknown[i]} :: 0 <= i < |me.unknown| ==>
      GoodFrame(other, me.unknown[i]) && !IsReply(me.unknown[i], other))
  }

  ghost predicate PeerOk(me: PeerState, other: PeerState) {
    && Table(me)
    && GoodFrames(me, me.outgoing) && GoodFrames(me, me.wire)
    && Received(me, other)
  }

  ghost predicate Inv(s: System) { PeerOk(s.alice, s.bob) && PeerOk(s.bob, s.alice) }

  lemma FramesExtend(p: PeerState, q: PeerState, fs: seq<Frame>)
    requires Extends(p, q) && GoodFrames(p, fs)
    ensures GoodFrames(q, fs)
  {
  }

  lemma ReceivedExtends(me: PeerState, p: PeerState, q: PeerState)
    requires Extends(p, q) && Received(me, p)
    ensures Received(me, q)
  {
  }

  // ---------------------------------------------------------------------------------------------
  // Each kind of step keeps the invariant

  /** What a step inside one peer owes. */
  ghost predicate Keeps(p: PeerState, q: PeerState, other: PeerState) { Extends(p, q) && PeerOk(q, other) }

  lemma ReserveKeeps(p: PeerState, other: PeerState, id: nat)
    requires PeerOk(p, other) && p.issued + 1 < U64_SPACE
    ensures Keeps(p, p.Reserve(Application(id)), other)
  {
    var q := p.Reserve(Application(id));
    assert Extends(p, q);
    FramesExtend(p, q, p.outgoing);
    FramesExtend(p, q, p.wire);
  }

  lemma BeginKeeps(p: PeerState, other: PeerState, to: U64, args: Args, aim: Aim)
    requires PeerOk(p, other) && p.issued + 1 < U64_SPACE
    requires GoodAim(p, aim, to, args)
    ensures Keeps(p, p.Begin(to, args, aim), other)
  {
    var q := p.Begin(to, args, aim);
    assert forall c :: 0 <= c < |p.calls| ==> q.calls[c] == p.calls[c];
    assert Extends(p, q);
    FramesExtend(p, q, p.outgoing);
    FramesExtend(p, q, p.wire);
  }

  lemma FinalizeKeeps(p: PeerState, other: PeerState, pos: U64)
    requires PeerOk(p, other) && pos in p.reserved
    ensures Keeps(p, p.Finalize(pos), other)
  {
    var q := p.Finalize(pos);
    assert Extends(p, q);
    FramesExtend(p, q, p.outgoing);
    FramesExtend(p, q, p.wire);
  }

  lemma FulfillKeeps(p: PeerState, other: PeerState, h: nat, args: Args)
    requires PeerOk(p, other)
    ensures Keeps(p, p.Fulfill(h, args), other)
  {
  }

  lemma EnqueueKeeps(p: PeerState, other: PeerState, f: Frame)
    requires PeerOk(p, other) && GoodFrame(p, f)
    ensures Keeps(p, p.Enqueue(f), other)
  {
    var q := p.Enqueue(f);
    assert Extends(p, q);
    FramesExtend(p, q, p.outgoing + [f]);
    FramesExtend(p, q, p.wire);
  }

  /** Changing the phase or the promise of a call, if an answer once given stays. */
  lemma SetCallKeeps(p: PeerState, other: PeerState, c: nat, call: Call)
    requires PeerOk(p, other) && c < |p.calls|
    requires SameCall(p.calls[c], call) && GoodAnswer(call, other)
    requires call.promise.Open() ==> call.promise.answer == None
    ensures Keeps(p, p.SetCall(c, call), other)
  {
    var q := p.SetCall(c, call);
    assert Extends(p, q);
    FramesExtend(p, q, p.outgoing);
    FramesExtend(p, q, p.wire);
  }

  lemma SendCallKeeps(p: PeerState, other: PeerState, c: nat)
    requires PeerOk(p, other) && c < |p.calls| && p.calls[c].pos in p.exports
    ensures Keeps(p, p.SendCall(c), other)
  {
    var call := p.calls[c].(phase := Sent);
    SetCallKeeps(p, other, c, call);
    assert Placed(p, c);
    EnqueueKeeps(p.SetCall(c, call), other, p.CallFrame(c));
  }

  lemma WriteKeeps(p: PeerState, other: PeerState, i: nat)
    requires PeerOk(p, other) && i < |p.outgoing|
    ensures Keeps(p, p.Write(i), other)
  {
    var q := p.Write(i);
    assert Extends(p, q);
    FramesExtend(p, q, p.wire + [p.outgoing[i]]);
    FramesExtend(p, q, Without(p.outgoing, i));
  }

  lemma DropInHandKeeps(p: PeerState, other: PeerState, i: nat)
    requires PeerOk(p, other) && i < |p.inHand|
    ensures Keeps(p, p.(inHand := Without(p.inHand, i)), other)
  {
  }

  lemma RefuseKeeps(p: PeerState, other: PeerState, f: Frame)
    requires PeerOk(p, other) && GoodFrame(other, f) && !IsReply(f, other)
    ensures Keeps(p, p.Refuse(f), other)
  {
    var q := p.Refuse(f);
    assert Extends(p, q);
    FramesExtend(p, q, p.wire);
    FramesExtend(p, q, p.outgoing);
  }

  lemma HandleMadeKeeps(p: PeerState, other: PeerState, h: ReplyHandle)
    requires PeerOk(p, other) && GoodHandle(other, h)
    ensures Keeps(p, p.(handles := p.handles + [h]), other)
  {
    var q := p.(handles := p.handles + [h]);
    assert Extends(p, q);
    FramesExtend(p, q, p.wire);
    FramesExtend(p, q, p.outgoing);
  }

  lemma {:induction false} SettleKeeps(p: PeerState, other: PeerState, c: nat, f: Frame, h: nat)
    requires PeerOk(p, other) && c < |p.calls| && h < |p.handles|
    requires f.op.Deliver? && GoodFrame(other, f) && f.op.to == p.calls[c].pos
    ensures Keeps(p, p.Settle(c, f, h), other)
  {
    var (promise, reply) := Serve(p.calls[c].promise, Delivery(f.op.args, p.handles[h].resolver));
    var settles := p.calls[c].promise.Open() && ReadResolution(f.op.args).Some?;
    var call := p.calls[c].(promise := promise, settledBy := if settles then Some(f) else p.calls[c].settledBy);
    SetCallKeeps(p, other, c, call);
    if reply.Some? {
      EnqueueKeeps(p.SetCall(c, call), other, Frame(reply.value, ReplyTo(h), Supplied));
    }
  }

  /** A reply goes to the position of a call whose resolver is stored, so it is never refused. */
  lemma RepliesAreKnown(me: PeerState, other: PeerState, f: Frame)
    requires PeerOk(me, other) && PeerOk(other, me) && GoodFrame(other, f) && IsReply(f, other)
    ensures !f.op.Abort? && f.op.to in me.exports
  {
  }

  lemma {:induction false} HandleKeeps(p: PeerState, other: PeerState, f: Frame)
    requires PeerOk(p, other) && PeerOk(other, p) && GoodFrame(other, f)
    ensures Keeps(p, p.Handle(f), other)
  {
    if IsReply(f, other) { RepliesAreKnown(p, other, f); }
    if !f.op.Abort? && f.op.to != 0 && f.op.to !in p.exports {
      RefuseKeeps(p, other, f);
    } else if f.op.Deliver? {
      var h := ReplyHandle(GenericResolver(f.op.answerPos, f.op.resolveMe), f.origin);
      HandleMadeKeeps(p, other, h);
      var st := p.(handles := p.handles + [h]);
      if f.op.to != 0 && p.exports[f.op.to].ResolverOf? && p.exports[f.op.to].call < |p.calls| {
        SettleKeeps(st, other, p.exports[f.op.to].call, f, |p.handles|);
      }
    }
  }

  lemma LocalKeeps(s: System, p: Peer, q: PeerState)
    requires Inv(s) && Keeps(s.Of(p), q, s.Of(p.Other()))
    ensures Inv(s.With(p, q))
  {
    ReceivedExtends(s.Of(p.Other()), s.Of(p), q);
  }

  /** The reading side gains a frame its peer had on the wire. */
  lemma TakenKeeps(p: PeerState, other: PeerState, f: Frame)
    requires PeerOk(p, other) && GoodFrame(other, f)
    ensures Keeps(p, p.Take(f), other)
  {
    var q := p.Take(f);
    assert Extends(p, q);
    FramesExtend(p, q, p.wire);
    FramesExtend(p, q, p.outgoing);
  }

  /** The writing side loses it. */
  lemma LeftWireKeeps(p: PeerState, other: PeerState)
    requires PeerOk(p, other) && p.wire != []
    ensures Keeps(p, p.(wire := p.wire[1..]), other)
  {
    var q := p.(wire := p.wire[1..]);
    assert Extends(p, q);
    FramesExtend(p, q, p.wire);
    FramesExtend(p, q, p.outgoing);
  }

  lemma {:induction false} ReadKeeps(s: System, p: Peer)
    requires Inv(s) && Enabled(s, Step(p, Read))
    ensures Inv(Apply(s, Step(p, Read)))
    ensures Extends(s.alice, Apply(s, Step(p, Read)).alice) && Extends(s.bob, Apply(s, Step(p, Read)).bob)
  {
    var me, other := s.Of(p), s.Of(p.Other());
    var f := other.wire[0];
    TakenKeeps(me, other, f);
    var mid := s.With(p, me.Take(f));
    LocalKeeps(s, p, mid.Of(p));
    LeftWireKeeps(other, mid.Of(p));
    LocalKeeps(mid, p.Other(), other.(wire := other.wire[1..]));
  }

  lemma BeginReplyKeeps(p: PeerState, other: PeerState, h: nat, args: Args)
    requires PeerOk(p, other) && h < |p.handles| && p.issued + 1 < U64_SPACE
    ensures Keeps(p, p.Fulfill(h, args).Begin(p.handles[h].resolver.Position(), [FULFILL] + args, ReplyTo(h)), other)
  {
    FulfillKeeps(p, other, h, args);
    BeginKeeps(p.Fulfill(h, args), other, p.handles[h].resolver.Position(), [FULFILL] + args, ReplyTo(h));
  }

  lemma ReplyKeeps(p: PeerState, other: PeerState, h: nat, args: Args, answerPos: Option<U64>, resolveMe: DescImport)
    requires PeerOk(p, other) && h < |p.handles|
    ensures Keeps(p, p.Fulfill(h, args).Enqueue(
      Frame(p.handles[h].resolver.FulfillOp(args, answerPos, resolveMe), ReplyTo(h), Supplied)), other)
  {
    FulfillKeeps(p, other, h, args);
    EnqueueKeeps(p.Fulfill(h, args), other,
      Frame(p.handles[h].resolver.FulfillOp(args, answerPos, resolveMe), ReplyTo(h), Supplied));
  }

  lemma {:induction false} DispatchKeeps(p: PeerState, other: PeerState, i: nat)
    requires PeerOk(p, other) && PeerOk(other, p) && i < |p.inHand|
    ensures Keeps(p, p.(inHand := Without(p.inHand, i)).Handle(p.inHand[i]), other)
  {
    DropInHandKeeps(p, other, i);
    var taken := p.(inHand := Without(p.inHand, i));
    ReceivedExtends(other, p, taken);
    HandleKeeps(taken, other, p.inHand[i]);
  }

  /** Steps of a call, and steps that make table entries. */
  lemma {:induction false} CallActionKeeps(s: System, step: Step)
    requires Inv(s) && Enabled(s, step) && InKeySpace(Apply(s, step))
    requires step.action.ExportReserve? || step.action.Finalize? || step.action.BeginCall? || step.action.BeginReply?
             || step.action.SendCall? || step.action.FailCall? || step.action.CancelCall?
    ensures Keeps(s.Of(step.peer), Apply(s, step).Of(step.peer), s.Of(step.peer.Other()))
  {
    var me, other := s.Of(step.peer), s.Of(step.peer.Other());
    match step.action
    case ExportReserve(id) => ReserveKeeps(me, other, id);
    case Finalize(pos) => FinalizeKeeps(me, other, pos);
    case BeginCall(to, args) => BeginKeeps(me, other, to, args, ByHand);
    case BeginReply(h, args) => BeginReplyKeeps(me, other, h, args);
    case SendCall(c) => SendCallKeeps(me, other, c);
    case FailCall(c) => DropKeeps(me, other, c, Failed);
    case CancelCall(c) => DropKeeps(me, other, c, me.calls[c].phase);
  }

  lemma DropKeeps(p: PeerState, other: PeerState, c: nat, phase: Phase)
    requires PeerOk(p, other) && c < |p.calls|
    ensures Keeps(p, p.SetCall(c, p.calls[c].(phase := phase, promise := p.calls[c].promise.Drop())), other)
  {
    SetCallKeeps(p, other, c, p.calls[c].(phase := phase, promise := p.calls[c].promise.Drop()));
  }

  /** Steps that move frames. */
  lemma {:induction false} FrameActionKeeps(s: System, step: Step)
    requires Inv(s) && Enabled(s, step)
    requires step.action.Fulfill? || step.action.BreakPromise? || step.action.SendByHand?
        || step.action.Write? || step.action.Dispatch?
    ensures Keeps(s.Of(step.peer), Apply(s, step).Of(step.peer), s.Of(step.peer.Other()))
  {
    var me, other := s.Of(step.peer), s.Of(step.peer.Other());
    match step.action
    case Fulfill(h, args, answerPos, resolveMe) => ReplyKeeps(me, other, h, args, answerPos, resolveMe);
    case BreakPromise(h, reason) =>
      EnqueueKeeps(me, other, Frame(me.handles[h].resolver.BreakOp(reason), ReplyTo(h), Supplied));
    case SendByHand(op) => EnqueueKeeps(me, other, Frame(op, ByHand, Supplied));
    case Write(i) => WriteKeeps(me, other, i);
    case Dispatch(i) => DispatchKeeps(me, other, i);
  }

  lemma {:induction false} LocalStepKeeps(s: System, step: Step)
    requires Inv(s) && Enabled(s, step) && InKeySpace(Apply(s, step)) && !step.action.Read?
    ensures Keeps(s.Of(step.peer), Apply(s, step).Of(step.peer), s.Of(step.peer.Other()))
    ensures Apply(s, step) == s.With(step.peer, Apply(s, step).Of(step.peer))
  {
    if step.action.Fulfill? || step.action.BreakPromise? || step.action.SendByHand? || step.action.Write?
        || step.action.Dispatch? {
      FrameActionKeeps(s, step);
    } else {
      CallActionKeeps(s, step);
    }
  }

  ghost predicate BothExtend(s: System, t: System) { Extends(s.alice, t.alice) && Extends(s.bob, t.bob) }

  lemma ExtendsItself(p: PeerState)
    ensures Extends(p, p)
  {
  }

  lemma {:induction false} StepKeeps(s: System, step: Step)
    requires Inv(s) && Enabled(s, step) && InKeySpace(Apply(s, step))
    ensures Inv(Apply(s, step)) && BothExtend(s, Apply(s, step))
  {
    if step.action.Read? {
      ReadKeeps(s, step.peer);
    } else {
      LocalStepKeeps(s, step);
      LocalKeeps(s, step.peer, Apply(s, step).Of(step.peer));
      ExtendsItself(s.Of(step.peer.Other()));
    }
  }

  lemma IssuedGrows(s: System, step: Step)
    requires Enabled(s, step)
    ensures s.alice.issued <= Apply(s, step).alice.issued && s.bob.issued <= Apply(s, step).bob.issued
  {
  }

  /** The invariant holds after every run that stays within the key space. */
  lemma {:induction false} RunKeeps(steps: seq<Step>)
    requires Legal(steps) && InKeySpace(After(steps))
    ensures Inv(After(steps))
    decreases |steps|
  {
    if |steps| > 0 {
      var before := steps[..|steps| - 1];
      var step := steps[|steps| - 1];
      IssuedGrows(After(before), step);
      RunKeeps(before);
      StepKeeps(After(before), step);
    }
  }

  // ---------------------------------------------------------------------------------------------
  // Theorems

  /** No frame sent through a reply handle made from a `deliver_and` call meets `UnknownTarget`. */
  lemma {:induction false} RepliesAlwaysFindTheirTarget(steps: seq<Step>, p: Peer)
    requires Legal(steps) && InKeySpace(After(steps))
    ensures var me, other := After(steps).Of(p), After(steps).Of(p.Other());
            forall i :: 0 <= i < |me.unknown| ==> !IsReply(me.unknown[i], other)
  {
    RunKeeps(steps);
  }

  /** The frame that answered call `c` was sent through a handle made from call `c` itself. */
  ghost predicate AnsweredThroughOwnHandle(me: PeerState, other: PeerState, c: nat)
    requires c < |me.calls| && me.calls[c].settledBy.Some?
  {
    var f := me.calls[c].settledBy.value;
    && f.aim.ReplyTo? && f.aim.handle < |other.handles|
    && other.handles[f.aim.handle].origin == OwnCall(c)
  }

  /** The answer of `c` is what the other peer asked a handle made from `c` to fulfill. */
  ghost predicate FulfilledByPeer(me: PeerState, other: PeerState, c: nat)
    requires c < |me.calls|
  {
    exists h: nat, x: Args ::
      && h < |other.handles| && other.handles[h].origin == OwnCall(c)
      && (h, x) in other.fulfilled && me.calls[c].promise.answer == Some(Ok(x))
  }

  /** The application wrote this frame's target, or the descriptor its handle was made from, by hand. */
  ghost predicate HandMade(f: Frame, sender: PeerState) {
    || f.aim.ByHand?
    || (f.aim.handle < |sender.handles| && sender.handles[f.aim.handle].origin.Supplied?)
  }

  /**
   Answers never cross, in any run: a call is answered through one of its own handles exactly when
   no application wrote the position by hand, and then it got what its peer asked that handle to
   fulfill, unchanged.
   */
  lemma {:induction false} AnswersNeverCross(steps: seq<Step>, p: Peer, c: nat)
    requires Legal(steps) && InKeySpace(After(steps))
    requires c < |After(steps).Of(p).calls| && After(steps).Of(p).calls[c].promise.answer.Some?
    ensures var me, other := After(steps).Of(p), After(steps).Of(p.Other());
            && me.calls[c].settledBy.Some?
            && (AnsweredThroughOwnHandle(me, other, c) <==> !HandMade(me.calls[c].settledBy.value, other))
            && (AnsweredThroughOwnHandle(me, other, c) ==> FulfilledByPeer(me, other, c))
  {
    RunKeeps(steps);
    OwnHandleExactly(After(steps).Of(p), After(steps).Of(p.Other()), c);
  }

  lemma {:induction false} OwnHandleExactly(me: PeerState, other: PeerState, c: nat)
    requires PeerOk(me, other) && PeerOk(other, me) && c < |me.calls| && me.calls[c].promise.answer.Some?
    ensures me.calls[c].settledBy.Some?
    ensures AnsweredThroughOwnHandle(me, other, c) <==> !HandMade(me.calls[c].settledBy.value, other)
    ensures AnsweredThroughOwnHandle(me, other, c) ==> FulfilledByPeer(me, other, c)
  {
    assert GoodAnswer(me.calls[c], other);
    var f := me.calls[c].settledBy.value;
    if f.aim.ReplyTo? && other.handles[f.aim.handle].origin.OwnCall? {
      var h := other.handles[f.aim.handle];
      assert GoodHandle(me, h) && h.origin.call == c;
      assert f.op.args == [FULFILL] + f.op.args[1..];
      assert (f.aim.handle, f.op.args[1..]) in other.fulfilled;
    }
  }

  /** Only the call whose resolver `f` is addressed to can change, and it settles if it is open. */
  lemma HandleSettles(me: PeerState, other: PeerState, f: Frame)
    requires PeerOk(me, other) && GoodFrame(other, f) && f.op.Deliver? && IsReply(f, other)
    requires GoodHandle(me, other.handles[f.aim.handle])
    ensures var c := other.handles[f.aim.handle].origin.call;
            var calls := me.Handle(f).calls;
            && c < |me.calls| && |f.op.args| >= 1
            && calls == me.calls[c := calls[c]]
            && calls[c].promise == me.calls[c].promise.Resolve(Ok(f.op.args[1..]))
  {
  }

  /** Dispatching frame `i` at `p` settles its call, and no other. */
  ghost predicate DispatchSettles(s: System, p: Peer, i: nat)
    requires i < |s.Of(p).inHand| && s.Of(p).inHand[i].op.Deliver? && IsReply(s.Of(p).inHand[i], s.Of(p.Other()))
  {
    var me, other := s.Of(p), s.Of(p.Other());
    var f := me.inHand[i];
    var c := other.handles[f.aim.handle].origin.call;
    && Enabled(s, Step(p, Dispatch(i)))
    && var calls := Apply(s, Step(p, Dispatch(i))).Of(p).calls;
    && c < |me.calls| && |f.op.args| >= 1 && (f.aim.handle, f.op.args[1..]) in other.fulfilled
    && calls == me.calls[c := calls[c]]
    && calls[c].promise == me.calls[c].promise.Resolve(Ok(f.op.args[1..]))
  }

  lemma DispatchAnswers(s: System, p: Peer, i: nat)
    requires Inv(s) && i < |s.Of(p).inHand|
    requires s.Of(p).inHand[i].op.Deliver? && IsReply(s.Of(p).inHand[i], s.Of(p.Other()))
    ensures DispatchSettles(s, p, i)
  {
    var me, other := s.Of(p), s.Of(p.Other());
    var f := me.inHand[i];
    DropInHandKeeps(me, other, i);
    assert GoodFrame(other, f) && GoodHandle(me, other.handles[f.aim.handle]);
    HandleSettles(me.(inHand := Without(me.inHand, i)), other, f);
  }

  /** The other direction: serving a fulfillment of a handle made from an open call answers that call. */
  lemma {:induction false} RepliesAnswerTheirCall(steps: seq<Step>, p: Peer, i: nat)
    requires Legal(steps) && InKeySpace(After(steps)) && i < |After(steps).Of(p).inHand|
    requires After(steps).Of(p).inHand[i].op.Deliver?
    requires IsReply(After(steps).Of(p).inHand[i], After(steps).Of(p.Other()))
    ensures DispatchSettles(After(steps), p, i)
  {
    RunKeeps(steps);
    DispatchAnswers(After(steps), p, i);
  }

  // ---------------------------------------------------------------------------------------------
  // Applications that only name objects they have been shown

  /** The bootstrap object, or an application object stored in the table. */
  ghost predicate Known(pos: U64, owner: PeerState) {
    pos == 0 || (pos in owner.exports && owner.exports[pos].Application?)
  }

  /** Positions an application writes by hand are never those of a resolver. */
  ghost predicate Tame(s: System, step: Step) {
    var me, other := s.Of(step.peer), s.Of(step.peer.Other());
    match step.action
    case BeginCall(to, _) => Known(to, other)
    case Fulfill(_, _, _, resolveMe) => Known(resolveMe.position, me)
    case SendByHand(op) => TameFrame(Frame(op, ByHand, Supplied), me, other)
    case _ => true
  }

  ghost predicate AllTame(steps: seq<Step>)
    requires Legal(steps)
    decreases |steps|
  {
    |steps| > 0 ==>
      AllTame(steps[..|steps| - 1]) && Tame(After(steps[..|steps| - 1]), steps[|steps| - 1])
  }

  ghost predicate TameFrame(f: Frame, sender: PeerState, receiver: PeerState) {
    && (f.aim.ByHand? && !f.op.Abort? ==> Known(f.op.to, receiver))
    && (f.origin.Supplied? && f.op.Deliver? ==> Known(f.op.resolveMe.position, sender))
  }

  ghost predicate TameHalf(me: PeerState, other: PeerState) {
    && (forall i {:trigger me.outgoing[i]} :: 0 <= i < |me.outgoing| ==> TameFrame(me.outgoing[i], me, other))
    && (forall i {:trigger me.wire[i]} :: 0 <= i < |me.wire| ==> TameFrame(me.wire[i], me, other))
    && (forall i {:trigger me.inHand[i]} :: 0 <= i < |me.inHand| ==> TameFrame(me.inHand[i], other, me))
    && (forall i {:trigger me.handles[i]} :: 0 <= i < |me.handles| && me.handles[i].origin.Supplied? ==>
      Known(me.handles[i].resolver.Position(), other))
    && (forall c {:trigger me.calls[c]} :: 0 <= c < |me.calls| ==>
      && (me.calls[c].aim.ByHand? ==> Known(me.calls[c].to, other))
      && (me.calls[c].settledBy.Some? ==> TameFrame(me.calls[c].settledBy.value, other, me)))
  }

  ghost predicate SameExports(p: PeerState, q: PeerState) {
    forall k :: k in p.exports ==> k in q.exports && q.exports[k] == p.exports[k]
  }

  lemma TameGrows(me: PeerState, other: PeerState, other': PeerState)
    requires TameHalf(me, other) && SameExports(other, other')
    ensures TameHalf(me, other')
  {
  }

  lemma TameHandle(me: PeerState, other: PeerState, f: Frame)
    requires TameHalf(me, other) && TameFrame(f, other, me)
    ensures TameHalf(me.Handle(f), other)
  {
  }

  lemma TameCallStep(s: System, step: Step)
    requires Enabled(s, step) && Tame(s, step)
    requires step.action.BeginCall? || step.action.BeginReply? || step.action.SendCall?
        || step.action.FailCall? || step.action.CancelCall?
    requires TameHalf(s.Of(step.peer), s.Of(step.peer.Other()))
    requires SameExports(s.Of(step.peer), Apply(s, step).Of(step.peer))
    ensures TameHalf(Apply(s, step).Of(step.peer), s.Of(step.peer.Other()))
  {
  }

  lemma TameFrameStep(s: System, step: Step)
    requires Enabled(s, step) && Tame(s, step)
    requires step.action.ExportReserve? || step.action.Finalize? || step.action.Fulfill? || step.action.BreakPromise?
             || step.action.SendByHand? || step.action.Write?
    requires TameHalf(s.Of(step.peer), s.Of(step.peer.Other()))
    requires SameExports(s.Of(step.peer), Apply(s, step).Of(step.peer))
    ensures TameHalf(Apply(s, step).Of(step.peer), s.Of(step.peer.Other()))
  {
  }

  lemma {:induction false} TameDispatch(me: PeerState, other: PeerState, i: nat)
    requires TameHalf(me, other) && i < |me.inHand|
    ensures TameHalf(me.(inHand := Without(me.inHand, i)).Handle(me.inHand[i]), other)
  {
    TameHandle(me.(inHand := Without(me.inHand, i)), other, me.inHand[i]);
  }

  lemma TameRead(me: PeerState, other: PeerState)
    requires TameHalf(me, other) && TameHalf(other, me) && other.wire != []
    ensures TameHalf(me.Take(other.wire[0]), other.(wire := other.wire[1..]))
    ensures TameHalf(other.(wire := other.wire[1..]), me.Take(other.wire[0]))
  {
  }

  ghost predicate TameBoth(s: System) { TameHalf(s.alice, s.bob) && TameHalf(s.bob, s.alice) }

  lemma {:induction false} TameLocalStep(s: System, step: Step)
    requires Enabled(s, step) && Tame(s, step) && TameBoth(s) && !step.action.Read?
    requires BothExtend(s, Apply(s, step)) && Apply(s, step) == s.With(step.peer, Apply(s, step).Of(step.peer))
    ensures TameBoth(Apply(s, step))
  {
    var me, other := s.Of(step.peer), s.Of(step.peer.Other());
    if step.action.Dispatch? {
      TameDispatch(me, other, step.action.index);
    } else if step.action.BeginCall? || step.action.BeginReply? || step.action.SendCall?
        || step.action.FailCall? || step.action.CancelCall? {
      TameCallStep(s, step);
    } else {
      TameFrameStep(s, step);
    }
    TameGrows(other, me, Apply(s, step).Of(step.peer));
  }

  lemma {:induction false} TameKeeps(s: System, step: Step)
    requires Inv(s) && Enabled(s, step) && InKeySpace(Apply(s, step)) && Tame(s, step) && TameBoth(s)
    ensures TameBoth(Apply(s, step))
  {
    if step.action.Read? {
      TameRead(s.Of(step.peer), s.Of(step.peer.Other()));
    } else {
      StepKeeps(s, step);
      LocalStepKeeps(s, step);
      TameLocalStep(s, step);
    }
  }

  lemma {:induction false} TameRun(steps: seq<Step>)
    requires Legal(steps) && AllTame(steps) && InKeySpace(After(steps))
    ensures TameBoth(After(steps))
    decreases |steps|
  {
    if |steps| > 0 {
      var before := steps[..|steps| - 1];
      var step := steps[|steps| - 1];
      IssuedGrows(After(before), step);
      RunKeeps(before);
      TameRun(before);
      TameKeeps(After(before), step);
    }
  }

  /** A resolver's position is not one a tame application writes. */
  lemma TameIsNotHandMade(me: PeerState, other: PeerState, c: nat)
    requires PeerOk(me, other) && PeerOk(other, me) && TameHalf(me, other) && TameHalf(other, me)
    requires c < |me.calls| && me.calls[c].promise.answer.Some?
    ensures me.calls[c].settledBy.Some? && !HandMade(me.calls[c].settledBy.value, other)
  {
    assert GoodAnswer(me.calls[c], other);
    var f := me.calls[c].settledBy.value;
    assert TameFrame(f, other, me);
    assert !Known(me.calls[c].pos, me);
    assert GoodAim(other, f.aim, f.op.to, f.op.args);
  }

  /**
   When applications only name objects they have been shown, every answer is a fulfillment that the
   peer asked for on a handle made from that very call; in particular no call is ever broken.
   */
  lemma {:induction false} TameAnswersAreTheCallsOwn(steps: seq<Step>, p: Peer, c: nat)
    requires Legal(steps) && AllTame(steps) && InKeySpace(After(steps))
    requires c < |After(steps).Of(p).calls| && After(steps).Of(p).calls[c].promise.answer.Some?
    ensures FulfilledByPeer(After(steps).Of(p), After(steps).Of(p.Other()), c)
  {
    RunKeeps(steps);
    TameRun(steps);
    AnswersNeverCross(steps, p, c);
    TameIsNotHandMade(After(steps).Of(p), After(steps).Of(p.Other()), c);
  }

  // ---------------------------------------------------------------------------------------------
  // Order on the wire

  /** What one peer has read, followed by what is still on the wire, is what the other has written. */
  ghost predicate InOrder(writer: PeerState, reader: PeerState) { reader.read + writer.wire == writer.written }

  lemma SettleKeepsWire(p: PeerState, f: Frame)
    ensures var q := p.Handle(f); q.wire == p.wire && q.written == p.written && q.read == p.read
  {
  }

  lemma StepInOrder(s: System, step: Step)
    requires Enabled(s, step) && InOrder(s.alice, s.bob) && InOrder(s.bob, s.alice)
    ensures InOrder(Apply(s, step).alice, Apply(s, step).bob) && InOrder(Apply(s, step).bob, Apply(s, step).alice)
  {
    var me, other := s.Of(step.peer), s.Of(step.peer.Other());
    match step.action
    case Dispatch(i) => SettleKeepsWire(me.(inHand := Without(me.inHand, i)), me.inHand[i]);
    case Write(i) => assert other.read + (me.wire + [me.outgoing[i]]) == other.read + me.wire + [me.outgoing[i]];
    case Read => assert me.read + other.wire == me.read + [other.wire[0]] + other.wire[1..];
    case _ => OtherKeepsWire(s, step);
  }

  lemma OtherKeepsWire(s: System, step: Step)
    requires Enabled(s, step) && !step.action.Dispatch? && !step.action.Write? && !step.action.Read?
    ensures forall p: Peer ::
      var q, r := s.Of(p), Apply(s, step).Of(p);
      r.wire == q.wire && r.written == q.written && r.read == q.read
  {
  }

  /** Frames are read in the order in which they were written, none lost and none read twice. */
  lemma {:induction false} FramesArriveInOrder(steps: seq<Step>)
    requires Legal(steps)
    ensures InOrder(After(steps).alice, After(steps).bob) && InOrder(After(steps).bob, After(steps).alice)
    decreases |steps|
  {
    if |steps| > 0 {
      var before := steps[..|steps| - 1];
      FramesArriveInOrder(before);
      StepInOrder(After(before), steps[|steps| - 1]);
    }
  }

  // ---------------------------------------------------------------------------------------------
  // Answers stay

  lemma ExtendsTransitive(p: PeerState, q: PeerState, r: PeerState)
    requires Extends(p, q) && Extends(q, r)
    ensures Extends(p, r)
  {
  }

  /** Along a run nothing is taken back: positions, entries, calls and answers all stay. */
  lemma {:induction false} NothingIsTakenBack(steps: seq<Step>, n: nat)
    requires n <= |steps| && Legal(steps) && InKeySpace(After(steps))
    ensures Legal(steps[..n]) && InKeySpace(After(steps[..n]))
    ensures forall p: Peer :: Extends(After(steps[..n]).Of(p), After(steps).Of(p))
    decreases |steps|
  {
    if n == |steps| {
      assert steps[..n] == steps;
    } else {
      var before := steps[..|steps| - 1];
      var step := steps[|steps| - 1];
      IssuedGrows(After(before), step);
      NothingIsTakenBack(before, n);
      assert before[..n] == steps[..n];
      RunKeeps(before);
      StepKeeps(After(before), step);
      forall p: Peer ensures Extends(After(steps[..n]).Of(p), After(steps).Of(p)) {
        ExtendsTransitive(After(steps[..n]).Of(p), After(before).Of(p), After(steps).Of(p));
      }
    }
  }

  // ---------------------------------------------------------------------------------------------
  // Why the condition is needed

  lemma RunOneMore(steps: seq<Step>, step: Step)
    requires Legal(steps) && Enabled(After(steps), step)
    ensures Legal(steps + [step]) && After(steps + [step]) == Apply(After(steps), step)
  {
  }

  ghost predicate Reaches(steps: seq<Step>, s: System) { Legal(steps) && After(steps) == s }

  /** The run `all` continues `steps` and ends in `t`. */
  ghost predicate Continues(steps: seq<Step>, all: seq<Step>, t: System) { steps <= all && Reaches(all, t) }

  lemma OneStep(steps: seq<Step>, s: System, step: Step) returns (all: seq<Step>)
    requires Reaches(steps, s) && Enabled(s, step)
    ensures all == steps + [step] && Continues(steps, all, Apply(s, step))
  {
    RunOneMore(steps, step);
    all := steps + [step];
  }

  /** `p` has read the first `n` frames on the wire. */
  function AfterReads(s: System, p: Peer, n: nat): System
    requires n <= |s.Of(p.Other()).wire|
  {
    var me, other := s.Of(p), s.Of(p.Other());
    s.With(p, me.(inHand := me.inHand + other.wire[..n], read := me.read + other.wire[..n]))
     .With(p.Other(), other.(wire := other.wire[n..]))
  }

  lemma AfterOneMoreRead(s: System, p: Peer, n: nat)
    requires n < |s.Of(p.Other()).wire|
    ensures Enabled(AfterReads(s, p, n), Step(p, Read))
    ensures Apply(AfterReads(s, p, n), Step(p, Read)) == AfterReads(s, p, n + 1)
  {
    var me, other := s.Of(p), s.Of(p.Other());
    assert other.wire[n..][1..] == other.wire[n + 1..] && other.wire[n..][0] == other.wire[n];
    assert me.inHand + other.wire[..n] + [other.wire[n]] == me.inHand + other.wire[..n + 1];
    assert me.read + other.wire[..n] + [other.wire[n]] == me.read + other.wire[..n + 1];
  }

  lemma {:induction false} ReadSome(steps: seq<Step>, s: System, p: Peer, n: nat) returns (all: seq<Step>)
    requires Reaches(steps, s) && n <= |s.Of(p.Other()).wire|
    ensures Continues(steps, all, AfterReads(s, p, n))
    decreases n
  {
    if n == 0 {
      AfterNoReads(s, p);
      all := steps;
    } else {
      var before := ReadSome(steps, s, p, n - 1);
      AfterOneMoreRead(s, p, n - 1);
      all := OneStep(before, AfterReads(s, p, n - 1), Step(p, Read));
    }
  }

  lemma AfterNoReads(s: System, p: Peer)
    ensures AfterReads(s, p, 0) == s
  {
    var me, other := s.Of(p), s.Of(p.Other());
    assert me.inHand + other.wire[..0] == me.inHand && me.read + other.wire[..0] == me.read;
    assert other.wire[0..] == other.wire;
  }

  /** The frame is then the last one in hand. */
  function Delivered(s: System, p: Peer, f: Frame): System {
    var me, other := s.Of(p), s.Of(p.Other());
    s.With(p, me.(inHand := me.inHand + (other.wire + [f]), read := me.read + (other.wire + [f])))
     .With(p.Other(), other.(wire := [], written := other.written + [f]))
  }

  lemma HandDeliveryArrives(steps: seq<Step>, s: System, p: Peer, op: Operation) returns (all: seq<Step>)
    requires Reaches(steps, s)
    ensures Continues(steps + [Step(p.Other(), SendByHand(op))], all, Delivered(s, p, Frame(op, ByHand, Supplied)))
  {
    var q := p.Other();
    var f := Frame(op, ByHand, Supplied);
    var other := s.Of(q);
    var sent := s.With(q, other.Enqueue(f));
    var onWire := s.With(q, other.(wire := other.wire + [f], written := other.written + [f]));
    var way := OneStep(steps, s, Step(q, SendByHand(op)));
    assert Without(other.outgoing + [f], |other.outgoing|) == other.outgoing;
    assert Apply(sent, Step(q, Action.Write(|other.outgoing|))) == onWire;
    way := OneStep(way, sent, Step(q, Action.Write(|other.outgoing|)));
    all := ReadSome(way, onWire, p, |other.wire| + 1);
    assert (other.wire + [f])[..|other.wire| + 1] == other.wire + [f];
    assert AfterReads(onWire, p, |other.wire| + 1) == Delivered(s, p, f);
  }

  /** A delivery to the position of an open call's resolver settles that call. */
  lemma DeliverySettles(me: PeerState, c: nat, f: Frame, x: Args)
    requires Table(me) && c < |me.calls| && Placed(me, c) && me.calls[c].promise.Open()
    requires f.op.Deliver? && f.op.to == me.calls[c].pos && f.op.args == [FULFILL] + x
    ensures var after := me.Handle(f);
            && |after.calls| == |me.calls| && after.issued == me.issued
            && after.calls[c].promise.answer == Some(Ok(x)) && after.calls[c].settledBy == Some(f)
  {
  }

  /** The call was answered, but not by its peer through a handle made from it. */
  ghost predicate Crossed(s: System, p: Peer, c: nat, x: Args) {
    var me, other := s.Of(p), s.Of(p.Other());
    && c < |me.calls| && me.calls[c].promise.answer == Some(Ok(x))
    && me.calls[c].settledBy.Some? && !AnsweredThroughOwnHandle(me, other, c)
    && ((forall h: nat :: h < |other.handles| && other.handles[h].origin == OwnCall(c) ==> (h, x) !in other.fulfilled)
        ==> !FulfilledByPeer(me, other, c))
  }

  lemma DispatchCrosses(s: System, p: Peer, c: nat, x: Args, i: nat)
    requires Inv(s) && c < |s.Of(p).calls| && Placed(s.Of(p), c) && s.Of(p).calls[c].promise.Open()
    requires i < |s.Of(p).inHand|
    requires var f := s.Of(p).inHand[i];
             f.op.Deliver? && f.op.to == s.Of(p).calls[c].pos && f.op.args == [FULFILL] + x && f.aim.ByHand?
    ensures Enabled(s, Step(p, Dispatch(i)))
    ensures Crossed(Apply(s, Step(p, Dispatch(i))), p, c, x)
    ensures Apply(s, Step(p, Dispatch(i))).Of(p).issued == s.Of(p).issued
    ensures Apply(s, Step(p, Dispatch(i))).Of(p.Other()) == s.Of(p.Other())
  {
    var me := s.Of(p);
    DeliverySettles(me.(inHand := Without(me.inHand, i)), c, me.inHand[i], x);
  }

  lemma ReachedKeeps(steps: seq<Step>, s: System)
    requires Reaches(steps, s) && InKeySpace(s)
    ensures Inv(s)
  {
    RunKeeps(steps);
  }

  lemma DeliveredIsLast(s: System, p: Peer, f: Frame)
    ensures var i := |s.Of(p).inHand| + |s.Of(p.Other()).wire|;
            var me := Delivered(s, p, f).Of(p);
            && i < |me.inHand| && me.inHand[i] == f
            && me.calls == s.Of(p).calls && me.exports == s.Of(p).exports && me.issued == s.Of(p).issued
            && Delivered(s, p, f).Of(p.Other()).issued == s.Of(p.Other()).issued
  {
  }

  lemma LastCrosses(steps: seq<Step>, s: System, p: Peer, c: nat, x: Args, i: nat)
    returns (all: seq<Step>, t: System)
    requires Reaches(steps, s) && InKeySpace(s) && c < |s.Of(p).calls| && i < |s.Of(p).inHand|
    requires Placed(s.Of(p), c) && s.Of(p).calls[c].promise.Open()
    requires var f := s.Of(p).inHand[i];
             f.op.Deliver? && f.op.to == s.Of(p).calls[c].pos && f.op.args == [FULFILL] + x && f.aim.ByHand?
    ensures Continues(steps, all, t) && InKeySpace(t) && Crossed(t, p, c, x)
  {
    ReachedKeeps(steps, s);
    DispatchCrosses(s, p, c, x, i);
    t := Apply(s, Step(p, Dispatch(i)));
    all := OneStep(steps, s, Step(p, Dispatch(i)));
  }

  /**
   The condition `Tame` cannot be dropped: in every reachable state, whatever else is under way, a
   fulfillment that an application writes by hand to the position of an open call's resolver can be
   delivered, and then it is the answer of that call, although no handle made from the call sent it.
   */
  lemma {:induction false} HandWrittenAnswers(steps: seq<Step>, s: System, p: Peer, c: nat, x: Args,
      answerPos: Option<U64>, resolveMe: DescImport)
    requires Reaches(steps, s) && InKeySpace(s) && c < |s.Of(p).calls|
    requires Placed(s.Of(p), c) && s.Of(p).calls[c].promise.Open()
    ensures var op := Deliver(s.Of(p).calls[c].pos, [FULFILL] + x, answerPos, resolveMe);
            var send := Step(p.Other(), SendByHand(op));
            !Tame(s, send) && exists all, t ::
              Continues(steps + [send], all, t) && InKeySpace(t) && Crossed(t, p, c, x)
  {
    var op := Deliver(s.Of(p).calls[c].pos, [FULFILL] + x, answerPos, resolveMe);
    ReachedKeeps(steps, s);
    KnownIsNoResolver(s.Of(p), s.Of(p.Other()), c, op);
    var way := HandDeliveryArrives(steps, s, p, op);
    DeliveredIsLast(s, p, Frame(op, ByHand, Supplied));
    var t := Delivered(s, p, Frame(op, ByHand, Supplied));
    var all, u := LastCrosses(way, t, p, c, x, |s.Of(p).inHand| + |s.Of(p.Other()).wire|);
    assert Continues(steps + [Step(p.Other(), SendByHand(op))], all, u);
  }

  lemma KnownIsNoResolver(me: PeerState, other: PeerState, c: nat, op: Operation)
    requires Table(me) && c < |me.calls| && Placed(me, c) && op.Deliver? && op.to == me.calls[c].pos
    ensures !TameFrame(Frame(op, ByHand, Supplied), other, me)
  {
  }

  // ---------------------------------------------------------------------------------------------
  // A descriptor written by hand

  function ForgedRequest(): seq<Step> {
    [Step(Alice, BeginCall(0, [])), Step(Alice, Finalize(1)), Step(Alice, SendByHand(FORGED.op))]
  }

  function RequestServed(): seq<Step> {
    ForgedRequest() + [Step(Alice, Write(0))] + [Step(Bob, Read)] + [Step(Bob, Dispatch(0))]
  }

  function ReplySent(): seq<Step> {
    RequestServed() + [Step(Bob, Action.Fulfill(0, [Opaque(7)], None, Object(0)))] + [Step(Bob, Write(0))]
  }

  function ReplyRead(): seq<Step> { ReplySent() + [Step(Alice, Read)] }

  function CrossingSteps(): seq<Step> { ReplyRead() + [Step(Alice, Dispatch(0))] }

  const FORGED: Frame := Frame(Deliver(0, [FETCH, Symbol("swiss")], None, Object(1)), ByHand, Supplied)
  const FORGED_HANDLE: ReplyHandle := ReplyHandle(GenericResolver(None, Object(1)), Supplied)
  const MISDIRECTED: Frame := Frame(Deliver(1, [FULFILL, Opaque(7)], None, Object(0)), ReplyTo(0), Supplied)
  const VICTIM: PeerState := NEW_PEER.(issued := 1, exports := map[1 := ResolverOf(0)],
    calls := [Call(0, [], ByHand, 1, Preparing, NEW_PROMISE, None)])
  const REPLIER: PeerState := NEW_PEER.(handles := [FORGED_HANDLE], read := [FORGED], fulfilled := {(0, [Opaque(7)])},
    written := [MISDIRECTED])

  lemma ForgedRequestRun()
    ensures Legal(ForgedRequest()) && After(ForgedRequest()) == System(VICTIM.(outgoing := [FORGED]), NEW_PEER)
  {
    var steps := ForgedRequest();
    RunOneMore([], steps[0]);
    RunOneMore([steps[0]], steps[1]);
    RunOneMore([steps[0]] + [steps[1]], steps[2]);
    assert [] + [steps[0]] == [steps[0]];
    assert [steps[0]] + [steps[1]] + [steps[2]] == steps;
  }

  lemma ForgedRead(r: seq<Step>)
    requires Reaches(r, System(VICTIM.(outgoing := [FORGED]), NEW_PEER))
    ensures Reaches(r + [Step(Alice, Write(0))] + [Step(Bob, Read)],
                    System(VICTIM.(written := [FORGED]), NEW_PEER.(inHand := [FORGED], read := [FORGED])))
  {
    RunOneMore(r, Step(Alice, Write(0)));
    RunOneMore(r + [Step(Alice, Write(0))], Step(Bob, Read));
  }

  lemma RequestServedRun()
    ensures Legal(RequestServed())
    ensures After(RequestServed()) == System(VICTIM.(written := [FORGED]),
      NEW_PEER.(handles := [FORGED_HANDLE], read := [FORGED]))
  {
    ForgedRequestRun();
    var r := ForgedRequest();
    ForgedRead(r);
    RunOneMore(r + [Step(Alice, Write(0))] + [Step(Bob, Read)], Step(Bob, Dispatch(0)));
  }

  lemma ReplySentRun()
    ensures Legal(ReplySent())
    ensures After(ReplySent()) == System(VICTIM.(written := [FORGED]), REPLIER.(wire := [MISDIRECTED]))
  {
    RequestServedRun();
    var fulfill := Step(Bob, Action.Fulfill(0, [Opaque(7)], None, Object(0)));
    assert [FULFILL] + [Opaque(7)] == [FULFILL, Opaque(7)];
    RunOneMore(RequestServed(), fulfill);
    assert After(RequestServed() + [fulfill]).bob.outgoing == [MISDIRECTED];
    RunOneMore(RequestServed() + [fulfill], Step(Bob, Write(0)));
  }

  lemma ReplyReadRun()
    ensures Legal(ReplyRead())
    ensures After(ReplyRead()) == System(VICTIM.(written := [FORGED], inHand := [MISDIRECTED], read := [MISDIRECTED]),
      REPLIER)
  {
    ReplySentRun();
    RunOneMore(ReplySent(), Step(Alice, Read));
  }

  /**
   Nor can applications be free to choose descriptors: Alice's application fetches with a descriptor
   that names position 1, and her call 0, which has not even been sent, receives the reply to that fetch.
   */
  lemma AnswersCanCrossByHand()
    ensures var steps := CrossingSteps();
            && Legal(steps) && InKeySpace(After(steps))
            && |After(steps).alice.calls| == 1
            && After(steps).alice.calls[0].phase.Preparing?
            && After(steps).alice.calls[0].promise.answer == Some(Ok([Opaque(7)]))
            && !FulfilledByPeer(After(steps).alice, After(steps).bob, 0)
  {
    ReplyReadRun();
    var reader := VICTIM.(written := [FORGED], inHand := [MISDIRECTED], read := [MISDIRECTED]);
    MisdirectedSettles(reader);
    RunOneMore(ReplyRead(), Step(Alice, Dispatch(0)));
  }

  lemma MisdirectedSettles(reader: PeerState)
    requires reader == VICTIM.(written := [FORGED], inHand := [MISDIRECTED], read := [MISDIRECTED])
    ensures var me := reader.(inHand := Without(reader.inHand, 0)).Handle(MISDIRECTED);
            && |me.calls| == 1 && me.issued == 1 && me.calls[0].phase.Preparing?
            && me.calls[0].promise.answer == Some(Ok([Opaque(7)]))
  {
  }
}
