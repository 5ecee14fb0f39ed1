/**
 One session: the abort flags, checked sends, and the `recv_event` loop that serves the inbox.
 */
module Sessions {
  import opened Wrappers
  import opened Messages
  import opened KeyMaps

  datatype SendError = SendAborted(reason: string) | SendAbortedLocally

  datatype ReadFault = Io | Lex | Decode

  datatype RecvError =
    | Unreadable(fault: ReadFault)
    | RecvAborted(reason: string)
    | RecvAbortedLocally
    | UnknownTarget(position: U64, args: Args)

  /** What the reader yields: a decoded operation, or the reason it could not yield one. */
  datatype Incoming = Message(op: Operation) | Malformed(fault: ReadFault)

  datatype Event = Bootstrap(op: Operation) | RemoteAbort(reason: string)

  /**
   `Awaiting`: the call has passed the abort checks and waits for the reader. `Unfinished`: the call
   panics in a branch for the bootstrap object that the source has not written yet.
   */
  datatype Outcome = Event(event: Event) | Failed(error: RecvError) | Awaiting | Unfinished(op: Operation)

  /** What serving one delivery makes an object do, in this order. */
  datatype Effect = Effect(exported: seq<Object>, sent: seq<Operation>, abort: Option<string>)

  /** A delivery as it was served: the object it was handed to, and the operation. */
  datatype Service = Service(obj: Object, op: Operation)

  /** Objects may keep state, so what one does may depend on everything served before. */
  type Behaviour = (seq<Service>, Object, Operation) -> Effect

  datatype State = State(
    exports: Keys<Object>,
    abortedLocally: bool,
    abortedByRemote: Option<string>,
    inbox: seq<Incoming>,
    outbox: seq<Operation>,
    served: seq<Service>
  ) {
    predicate Aborted() { abortedLocally || abortedByRemote.Some? }

    function SendCheck(): Result<(), SendError> {
      if abortedLocally then Failure(SendAbortedLocally)
      else if abortedByRemote.Some? then Failure(SendAborted(abortedByRemote.value))
      else Success(())
    }

    function RecvCheck(): Result<(), RecvError> {
      if abortedLocally then Failure(RecvAbortedLocally)
      else if abortedByRemote.Some? then Failure(RecvAborted(abortedByRemote.value))
      else Success(())
    }

    function Send(op: Operation): State {
      if SendCheck().Success? then this.(outbox := outbox + [op]) else this
    }

    function SendAll(ops: seq<Operation>): State
      decreases ops
    {
      if ops == [] then this else Send(ops[0]).SendAll(ops[1..])
    }

    /** The abort flag is set whether or not the op:abort could be sent. */
    function Abort(reason: string): State { Send(Operation.Abort(reason)).(abortedLocally := true) }

    function Serve(behaviour: Behaviour, obj: Object, op: Operation): State {
      var effect := behaviour(served, obj, op);
      var st := this.(served := served + [Service(obj, op)], exports := ExportAll(exports, effect.exported))
        .SendAll(effect.sent);
      if effect.abort.Some? then st.Abort(effect.abort.value) else st
    }

    /** `recv_event`; `checked` says that this call has already passed the abort checks and waits. */
    function RecvEvent(behaviour: Behaviour, checked: bool): (Outcome, State)
      decreases |inbox|
    {
      if !checked && RecvCheck().Failure? then (Failed(RecvCheck().error), this)
      else if inbox == [] then (Awaiting, this)
      else
        var st := this.(inbox := inbox[1..]);
        match inbox[0]
        case Malformed(fault) => (Failed(Unreadable(fault)), st)
        case Message(Abort(reason)) => (Outcome.Event(RemoteAbort(reason)), st.(abortedByRemote := Some(reason)))
        case Message(op) =>
          if op.to == 0 then (if IsFetch(op) then Outcome.Event(Bootstrap(op)) else Unfinished(op), st)
          else if op.to !in exports.entries then (Failed(UnknownTarget(op.to, op.args)), st)
          else
            ServeKeepsInbox(st, behaviour, exports.entries[op.to], op);
            st.Serve(behaviour, exports.entries[op.to], op).RecvEvent(behaviour, false)
    }
  }

  lemma {:induction false} SendAllKeepsInbox(st: State, ops: seq<Operation>)
    ensures var t := st.SendAll(ops); t == st.(outbox := t.outbox) && st.outbox <= t.outbox
    ensures st.SendCheck().Success? ==> st.SendAll(ops).outbox == st.outbox + ops
    ensures st.SendCheck().Failure? ==> st.SendAll(ops).outbox == st.outbox
    decreases ops
  {
    if ops != [] {
      SendAllKeepsInbox(st.Send(ops[0]), ops[1..]);
    }
  }

  /** Serving a delivery reads nothing, and only ever raises the local abort flag. */
  lemma ServeKeepsInbox(st: State, behaviour: Behaviour, obj: Object, op: Operation)
    ensures var t := st.Serve(behaviour, obj, op);
            && t.inbox == st.inbox && t.served == st.served + [Service(obj, op)]
            && t.abortedByRemote == st.abortedByRemote && (st.abortedLocally ==> t.abortedLocally)
            && t.exports == ExportAll(st.exports, behaviour(st.served, obj, op).exported)
  {
    var effect := behaviour(st.served, obj, op);
    var after := st.(served := st.served + [Service(obj, op)], exports := ExportAll(st.exports, effect.exported));
    SendAllKeepsInbox(after, effect.sent);
  }

  // ---------------------------------------------------------------------------------------------
  // One call of `recv_event`, read off the inbox

  /** A delivery to some position other than the bootstrap object's. */
  predicate IsDelivery(m: Incoming) { m.Message? && !m.op.Abort? && m.op.to != 0 }

  /** The call goes on with the first message instead of ending: its position is in the table by now. */
  predicate Servable(st: State, checked: bool) {
    && (checked || st.RecvCheck().Success?)
    && st.inbox != [] && IsDelivery(st.inbox[0]) && st.inbox[0].op.to in st.exports.entries
  }

  /** What the table holds for the first message. */
  function HeadService(st: State): Service
    requires Servable(st, true)
  {
    Service(st.exports.entries[st.inbox[0].op.to], st.inbox[0].op)
  }

  /** The first message handed to the object stored at its position. */
  function ServeHead(st: State, behaviour: Behaviour): State
    requires Servable(st, true)
  {
    st.(inbox := st.inbox[1..]).Serve(behaviour, HeadService(st).obj, HeadService(st).op)
  }

  /** The state after the first `n` messages have been served, or all up to the first that cannot be. */
  function Through(st: State, behaviour: Behaviour, n: nat): State
    decreases n
  {
    if n == 0 || !Servable(st, true) then st else Through(ServeHead(st, behaviour), behaviour, n - 1)
  }

  /** `m` is the message on which a call that left the session in `t` returned `out`. */
  ghost predicate StopsOn(m: Incoming, out: Outcome, t: State) {
    match out
    case Awaiting => false
    case Unfinished(op) => m == Message(op) && !op.Abort? && op.to == 0 && !IsFetch(op)
    case Event(Bootstrap(op)) => m == Message(op) && IsFetch(op)
    case Event(RemoteAbort(reason)) => m == Message(Abort(reason)) && t.abortedByRemote == Some(reason)
    case Failed(Unreadable(fault)) => m == Malformed(fault)
    case Failed(UnknownTarget(to, args)) =>
      IsDelivery(m) && m.op.to == to && m.op.args == args && to !in t.exports.entries
    case Failed(_) => false
  }

  /** The message after `i` served ones was served too, by the object then stored at its position. */
  ghost predicate ServesAt(st: State, behaviour: Behaviour, checked: bool, t: State, i: nat)
    requires i < |st.inbox| && |st.served| + i < |t.served|
  {
    var mid := Through(st, behaviour, i);
    && mid.inbox == st.inbox[i..] && Servable(mid, checked && i == 0)
    && t.served[|st.served| + i] == HeadService(mid)
  }

  /**
   The first `n` messages were served, in order, each by the object stored at its position when its turn
   came, and the call then ended for the stated reason, with the rest of the inbox untouched.
   */
  ghost predicate Reads(st: State, behaviour: Behaviour, checked: bool, out: Outcome, t: State, n: nat) {
    && n <= |st.inbox|
    && st.served <= t.served && |t.served| == |st.served| + n
    && (forall i :: 0 <= i < n ==> ServesAt(st, behaviour, checked, t, i))
    && var last := Through(st, behaviour, n);
       var mayRead := (checked && n == 0) || last.RecvCheck().Success?;
       && last.inbox == st.inbox[n..]
       && match out
          case Awaiting => mayRead && t == last && last.inbox == []
          case Failed(RecvAborted(_)) => !mayRead && t == last && last.RecvCheck() == Failure(out.error)
          case Failed(RecvAbortedLocally) => !mayRead && t == last && last.RecvCheck() == Failure(out.error)
          case _ =>
            && mayRead && last.inbox != [] && StopsOn(last.inbox[0], out, t)
            && t == last.(inbox := last.inbox[1..], abortedByRemote := t.abortedByRemote)
            && (t.abortedByRemote == last.abortedByRemote || (out.Event? && out.event.RemoteAbort?))
  }

  /** A call that serves the first message does what a new call on the state after it does. */
  lemma ServesOn(st: State, behaviour: Behaviour, checked: bool)
    requires Servable(st, checked)
    ensures var next := ServeHead(st, behaviour);
            && st.RecvEvent(behaviour, checked) == next.RecvEvent(behaviour, false)
            && next.inbox == st.inbox[1..] && next.served == st.served + [HeadService(st)]
  {
    ServeKeepsInbox(st.(inbox := st.inbox[1..]), behaviour, HeadService(st).obj, HeadService(st).op);
  }

  /** Serving the first message and then reading on is reading with one message more. */
  lemma ReadsOneMore(st: State, behaviour: Behaviour, checked: bool, out: Outcome, t: State, next: State)
    requires Servable(st, checked) && next == ServeHead(st, behaviour)
    requires next.inbox == st.inbox[1..] && next.served == st.served + [HeadService(st)]
    requires |t.served| >= |next.served| && Reads(next, behaviour, false, out, t, |t.served| - |next.served|)
    ensures Reads(st, behaviour, checked, out, t, |t.served| - |st.served|)
  {
    var n := |t.served| - |st.served|;
    forall i | 0 <= i < n ensures ServesAt(st, behaviour, checked, t, i) {
      if i == 0 {
        assert t.served[|st.served|] == next.served[|st.served|];
      } else {
        assert ServesAt(next, behaviour, false, t, i - 1);
        assert next.inbox[i - 1..] == st.inbox[i..];
      }
    }
    assert Through(st, behaviour, n) == Through(next, behaviour, n - 1);
    assert next.inbox[n - 1..] == st.inbox[n..];
  }

  /** What a call does, read off the inbox. */
  ghost predicate CallReads(st: State, behaviour: Behaviour, checked: bool) {
    var (out, t) := st.RecvEvent(behaviour, checked);
    |t.served| >= |st.served| && Reads(st, behaviour, checked, out, t, |t.served| - |st.served|)
  }

  lemma CallReadsOn(st: State, behaviour: Behaviour, checked: bool, next: State)
    requires Servable(st, checked) && next == ServeHead(st, behaviour)
    requires st.RecvEvent(behaviour, checked) == next.RecvEvent(behaviour, false)
    requires next.inbox == st.inbox[1..] && next.served == st.served + [HeadService(st)]
    requires CallReads(next, behaviour, false)
    ensures CallReads(st, behaviour, checked)
  {
    var (out, t) := next.RecvEvent(behaviour, false);
    ReadsOneMore(st, behaviour, checked, out, t, next);
  }

  /**
   Every message is served once, in order, by the object exported at its position, up to the one that
   ends the call; a position that is not in the table when its turn comes ends it.
   */
  lemma {:induction false} OneCall(st: State, behaviour: Behaviour, checked: bool)
    ensures CallReads(st, behaviour, checked)
    decreases |st.inbox|
  {
    if Servable(st, checked) {
      var next := ServeHead(st, behaviour);
      ServesOn(st, behaviour, checked);
      OneCall(next, behaviour, false);
      CallReadsOn(st, behaviour, checked, next);
    } else {
      StopsAtOnce(st, behaviour, checked);
    }
  }

  lemma StopsAtOnce(st: State, behaviour: Behaviour, checked: bool)
    requires !Servable(st, checked)
    ensures CallReads(st, behaviour, checked)
  {
    assert st.RecvEvent(behaviour, checked).1.served == st.served;
  }

  /** On an aborted session a new call reads nothing; one already waiting reads at most one message more. */
  lemma AbortedReadsAtMostOne(st: State, behaviour: Behaviour, checked: bool)
    requires st.Aborted()
    ensures var (out, t) := st.RecvEvent(behaviour, checked);
            |st.inbox| - |t.inbox| <= if checked then 1 else 0
    ensures !checked ==> st.RecvEvent(behaviour, checked) == (Failed(st.RecvCheck().error), st)
  {
    if checked && st.inbox != [] && IsDelivery(st.inbox[0]) && st.inbox[0].op.to in st.exports.entries {
      ServeKeepsInbox(st.(inbox := st.inbox[1..]), behaviour, st.exports.entries[st.inbox[0].op.to], st.inbox[0].op);
    }
  }

  // ---------------------------------------------------------------------------------------------
  // Repeated calls: the event stream

  /** What became of a message that was read: served in this state, or it ended the call and left this one. */
  datatype Fate = Served(service: Service, at: State) | Ended(out: Outcome, left: State)

  function CallFates(st: State, behaviour: Behaviour, out: Outcome, t: State): seq<Fate> {
    var services := if |st.served| <= |t.served| then t.served[|st.served|..] else [];
    seq(|services|, i requires 0 <= i < |services| => Served(services[i], Through(st, behaviour, i)))
    + if |st.inbox| - |t.inbox| > |services| then [Ended(out, t)] else []
  }

  /** The state after `n` calls by one receiver, and the fate of each message read by them. */
  ghost function Stream(st: State, behaviour: Behaviour, n: nat): (seq<Fate>, State)
    decreases n
  {
    if n == 0 then ([], st)
    else
      var (out, t) := st.RecvEvent(behaviour, false);
      var (fates, u) := Stream(t, behaviour, n - 1);
      (CallFates(st, behaviour, out, t) + fates, u)
  }

  ghost predicate Explains(fate: Fate, m: Incoming) {
    match fate
    case Served(service, at) =>
      && IsDelivery(m) && m == Message(service.op)
      && service.op.to in at.exports.entries && at.exports.entries[service.op.to] == service.obj
    case Ended(out, left) => StopsOn(m, out, left)
  }

  function Services(fates: seq<Fate>): seq<Service> {
    if fates == [] then [] else (if fates[0].Served? then [fates[0].service] else []) + Services(fates[1..])
  }

  lemma {:induction false} ServicesAppend(a: seq<Fate>, b: seq<Fate>)
    ensures Services(a + b) == Services(a) + Services(b)
  {
    if a == [] {
      assert a + b == b;
    } else {
      ServicesAppend(a[1..], b);
      assert (a + b)[1..] == a[1..] + b;
    }
  }

  lemma {:induction false} ServicesAll(fates: seq<Fate>, services: seq<Service>)
    requires |fates| == |services|
    requires forall i :: 0 <= i < |services| ==> fates[i].Served? && fates[i].service == services[i]
    ensures Services(fates) == services
  {
    if services != [] {
      ServicesAll(fates[1..], services[1..]);
    }
  }

  /** `fates` accounts for everything read between `st` and `t`. */
  ghost predicate Accounts(st: State, fates: seq<Fate>, t: State) {
    && |fates| <= |st.inbox| && t.inbox == st.inbox[|fates|..]
    && (forall i :: 0 <= i < |fates| ==> Explains(fates[i], st.inbox[i]))
    && t.served == st.served + Services(fates)
  }

  lemma ServedInOrder(services: seq<Service>, fates: seq<Fate>)
    requires |services| <= |fates| <= |services| + 1
    requires forall i :: 0 <= i < |services| ==> fates[i].Served? && fates[i].service == services[i]
    requires |fates| == |services| + 1 ==> fates[|services|].Ended?
    ensures Services(fates) == services
  {
    var served, ended := fates[..|services|], fates[|services|..];
    ServicesAll(served, services);
    ServicesAppend(served, ended);
    assert fates == served + ended;
    assert Services(ended) == [] by { if ended != [] { assert ended == [ended[0]]; } }
  }

  lemma OneCallAccounts(st: State, behaviour: Behaviour, checked: bool, out: Outcome, t: State)
    requires |t.served| >= |st.served| && Reads(st, behaviour, checked, out, t, |t.served| - |st.served|)
    ensures Accounts(st, CallFates(st, behaviour, out, t), t)
  {
    var services := t.served[|st.served|..];
    var fates := CallFates(st, behaviour, out, t);
    ServedInOrder(services, fates);
    assert t.served == st.served + services;
    forall i | 0 <= i < |services| ensures Explains(fates[i], st.inbox[i]) {
      assert ServesAt(st, behaviour, checked, t, i);
      assert services[i] == t.served[|st.served| + i];
    }
  }

  lemma FirstCallAccounts(st: State, behaviour: Behaviour)
    ensures var (out, t) := st.RecvEvent(behaviour, false); Accounts(st, CallFates(st, behaviour, out, t), t)
  {
    OneCall(st, behaviour, false);
    var (out, t) := st.RecvEvent(behaviour, false);
    OneCallAccounts(st, behaviour, false, out, t);
  }

  lemma AccountsAppend(st: State, a: seq<Fate>, t: State, b: seq<Fate>, u: State)
    requires Accounts(st, a, t) && Accounts(t, b, u)
    ensures Accounts(st, a + b, u)
  {
    ServicesAppend(a, b);
    assert st.served + (Services(a) + Services(b)) == st.served + Services(a) + Services(b);
    assert st.inbox[|a|..][|b|..] == st.inbox[|a + b|..];
    forall i | |a| <= i < |a + b| ensures Explains((a + b)[i], st.inbox[i]) {
      assert Explains(b[i - |a|], t.inbox[i - |a|]);
    }
  }

  lemma StreamStep(st: State, behaviour: Behaviour, out: Outcome, t: State, fates: seq<Fate>, u: State)
    requires (out, t) == st.RecvEvent(behaviour, false) && Accounts(t, fates, u)
    ensures Accounts(st, CallFates(st, behaviour, out, t) + fates, u)
  {
    FirstCallAccounts(st, behaviour);
    AccountsAppend(st, CallFates(st, behaviour, out, t), t, fates, u);
  }

  /** Over any number of calls each message read has exactly one fate, in inbox order, and the rest waits. */
  lemma {:induction false} EachMessageOnce(st: State, behaviour: Behaviour, n: nat)
    ensures var (fates, t) := Stream(st, behaviour, n); Accounts(st, fates, t)
    decreases n
  {
    if n > 0 {
      var (out, t) := st.RecvEvent(behaviour, false);
      EachMessageOnce(t, behaviour, n - 1);
      var (fates, u) := Stream(t, behaviour, n - 1);
      StreamStep(st, behaviour, out, t, fates, u);
    }
  }

  // ---------------------------------------------------------------------------------------------
  // What is sent, and what an abort does

  /** A send goes through exactly on a session that neither side has aborted; the local abort is named first. */
  lemma SendOutcome(st: State, op: Operation)
    ensures st.SendCheck().Success? <==> !st.abortedLocally && st.abortedByRemote == None
    ensures st.abortedLocally <==> st.SendCheck() == Failure(SendAbortedLocally)
    ensures forall r ::
      st.SendCheck() == Failure(SendAborted(r)) <==> !st.abortedLocally && st.abortedByRemote == Some(r)
    ensures st.Send(op) == st.(outbox := if st.Aborted() then st.outbox else st.outbox + [op])
  {
  }

  /** A receive may read exactly on a session that neither side has aborted, with the same precedence. */
  lemma ReceiveOutcome(st: State)
    ensures st.RecvCheck().Success? <==> !st.abortedLocally && st.abortedByRemote == None
    ensures st.abortedLocally <==> st.RecvCheck() == Failure(RecvAbortedLocally)
    ensures forall r ::
      st.RecvCheck() == Failure(RecvAborted(r)) <==> !st.abortedLocally && st.abortedByRemote == Some(r)
  {
  }

  /**
   After an abort the local flag is set whether or not the op:abort could be sent; it was sent, as the
   last message, exactly when the session had not been aborted before. Nothing else has changed.
   */
  lemma {:induction false} AbortAborts(st: State, behaviour: Behaviour, reason: string)
    ensures var t := st.Abort(reason);
            && t.abortedLocally && t.SendCheck() == Failure(SendAbortedLocally)
            && t.RecvEvent(behaviour, false) == (Failed(RecvAbortedLocally), t)
            && t.outbox == st.outbox + (if st.abortedLocally || st.abortedByRemote.Some? then []
                                        else [Operation.Abort(reason)])
            && t == st.(abortedLocally := true, outbox := t.outbox)
  {
    SendOutcome(st, Operation.Abort(reason));
    SendOutcome(st.Abort(reason), Operation.Abort(reason));
    ReceiveOutcome(st.Abort(reason));
  }

  /**
   Serving a delivery appends what its object sends, in order, and then its op:abort if it aborts, and
   nothing when the session is aborted already; an object that aborts leaves the session aborted.
   */
  lemma {:induction false} ServeSends(st: State, behaviour: Behaviour, obj: Object, op: Operation)
    ensures var t := st.Serve(behaviour, obj, op);
            var effect := behaviour(st.served, obj, op);
            && t.abortedLocally == (st.abortedLocally || effect.abort.Some?)
            && t.outbox == st.outbox + (if st.abortedLocally || st.abortedByRemote.Some? then []
                 else effect.sent + if effect.abort.Some? then [Operation.Abort(effect.abort.value)] else [])
  {
    var effect := behaviour(st.served, obj, op);
    var after := st.(served := st.served + [Service(obj, op)], exports := ExportAll(st.exports, effect.exported));
    SendAllKeepsInbox(after, effect.sent);
    SendOutcome(after, op);
    var sent := after.SendAll(effect.sent);
    assert sent == after.(outbox := sent.outbox);
    if effect.abort.Some? {
      AbortAborts(sent, behaviour, effect.abort.value);
      assert st.outbox + effect.sent + [Operation.Abort(effect.abort.value)]
          == st.outbox + (effect.sent + [Operation.Abort(effect.abort.value)]);
    }
  }

  datatype Use = Receive | SendOp(op: Operation) | AbortWith(reason: string) | ExportObject(obj: Object)

  function Do(st: State, behaviour: Behaviour, use: Use): State {
    match use
    case Receive => st.RecvEvent(behaviour, false).1
    case SendOp(op) => st.Send(op)
    case AbortWith(reason) => st.Abort(reason)
    case ExportObject(obj) => st.(exports := Export(st.exports, obj))
  }

  /** An object exported to the table is the one that a delivery to its position is handed to. */
  lemma {:induction false} ExportedIsServed(st: State, behaviour: Behaviour, obj: Object, op: Operation)
    requires !st.Aborted() && st.exports.next != 0 && st.exports.next + Size(obj) <= U64_SPACE
    requires st.inbox != [] && st.inbox[0] == Message(op) && !op.Abort? && op.to == st.exports.next
    ensures var t := Do(st, behaviour, ExportObject(obj));
            && t == st.(exports := t.exports)
            && Servable(t, false) && HeadService(t) == Service(obj, op)
  {
    ExportAppends(st.exports, obj);
    ReceiveOutcome(Do(st, behaviour, ExportObject(obj)));
  }

  // ---------------------------------------------------------------------------------------------
  // Aborts stay

  function DoAll(st: State, behaviour: Behaviour, uses: seq<Use>): State
    decreases uses
  {
    if uses == [] then st else DoAll(Do(st, behaviour, uses[0]), behaviour, uses[1..])
  }

  /**
   Once the session has been aborted, from either side, whatever is done with it reads nothing and
   sends nothing, and the recorded remote reason never changes.
   */
  lemma {:induction false} AbortIsFinal(st: State, behaviour: Behaviour, uses: seq<Use>)
    requires st.Aborted()
    ensures var t := DoAll(st, behaviour, uses);
            && t.Aborted() && (st.abortedLocally ==> t.abortedLocally)
            && t.abortedByRemote == st.abortedByRemote
            && t.inbox == st.inbox && t.outbox == st.outbox && t.served == st.served
            && t.SendCheck().Failure?
            && t.RecvEvent(behaviour, false) == (Failed(t.RecvCheck().error), t)
    decreases uses
  {
    if uses != [] {
      AbortIsFinal(Do(st, behaviour, uses[0]), behaviour, uses[1..]);
    }
  }

  lemma {:induction false} DoAllAppend(st: State, behaviour: Behaviour, a: seq<Use>, b: seq<Use>)
    ensures DoAll(st, behaviour, a + b) == DoAll(DoAll(st, behaviour, a), behaviour, b)
    decreases a
  {
    if a == [] {
      assert a + b == b;
    } else {
      assert (a + b)[1..] == a[1..] + b;
      DoAllAppend(Do(st, behaviour, a[0]), behaviour, a[1..], b);
    }
  }

  /**
   From any state, whatever was done before and is done after: an abort is the end. Beyond what there
   was before it the outbox gains the op:abort, unless the session was aborted already, and no more.
   */
  lemma {:induction false} AbortEndsTheSession(st: State, behaviour: Behaviour, before: seq<Use>, reason: string,
      after: seq<Use>)
    ensures var s := DoAll(st, behaviour, before);
            var t := DoAll(st, behaviour, before + [AbortWith(reason)] + after);
            && t.abortedLocally && t.SendCheck() == Failure(SendAbortedLocally)
            && t.RecvEvent(behaviour, false) == (Failed(RecvAbortedLocally), t)
            && t.inbox == s.inbox && t.served == s.served && t.abortedByRemote == s.abortedByRemote
            && t.outbox == s.outbox + if s.Aborted() then [] else [Operation.Abort(reason)]
  {
    var s := DoAll(st, behaviour, before);
    var u := s.Abort(reason);
    DoAllAppend(st, behaviour, before, [AbortWith(reason)] + after);
    assert before + [AbortWith(reason)] + after == before + ([AbortWith(reason)] + after);
    assert ([AbortWith(reason)] + after)[1..] == after;
    AbortAborts(s, behaviour, reason);
    AbortIsFinal(u, behaviour, after);
    SendOutcome(DoAll(u, behaviour, after), Operation.Abort(reason));
    ReceiveOutcome(DoAll(u, behaviour, after));
  }

  /** After an abort event with reason r, receives and sends fail with r, or with the local error. */
  lemma RemoteAbortIsSticky(st: State, behaviour: Behaviour, checked: bool, reason: string, uses: seq<Use>)
    requires st.RecvEvent(behaviour, checked).0 == Event(RemoteAbort(reason))
    ensures var t := DoAll(st.RecvEvent(behaviour, checked).1, behaviour, uses);
            var (out, u) := t.RecvEvent(behaviour, false);
            && u == t && t.inbox == st.RecvEvent(behaviour, checked).1.inbox
            && out == Failed(if t.abortedLocally then RecvAbortedLocally else RecvAborted(reason))
            && t.SendCheck() == Failure(if t.abortedLocally then SendAbortedLocally else SendAborted(reason))
  {
    OneCall(st, behaviour, checked);
    AbortIsFinal(st.RecvEvent(behaviour, checked).1, behaviour, uses);
  }

  // ---------------------------------------------------------------------------------------------
  // The session object

  class Session {
    const exports: ExportManager
    const behaviour: Behaviour
    var abortedLocally: bool
    var abortedByRemote: Option<string>
    var inbox: seq<Incoming>
    var outbox: seq<Operation>
    var served: seq<Service>

    constructor (behaviour: Behaviour, inbox: seq<Incoming>)
      ensures fresh(exports) && fresh(exports.exports) && this.behaviour == behaviour
      ensures Value() == State(Keys(1, map[]), false, None, inbox, [], [])
    {
      this.behaviour, this.inbox := behaviour, inbox;
      exports := new ExportManager();
      abortedLocally, abortedByRemote, outbox, served := false, None, [], [];
    }

    function Value(): State
      reads this, exports.exports
    {
      State(exports.exports.Contents(), abortedLocally, abortedByRemote, inbox, outbox, served)
    }

    method SendMsg(op: Operation) returns (r: Result<(), SendError>)
      modifies this`outbox
      ensures r == old(Value()).SendCheck() && Value() == old(Value()).Send(op)
    {
      if abortedLocally { return Failure(SendAbortedLocally); }
      if abortedByRemote.Some? { return Failure(SendAborted(abortedByRemote.value)); }
      outbox := outbox + [op];
      return Success(());
    }

    method LocalAbort()
      modifies this`abortedLocally
      ensures Value() == old(Value()).(abortedLocally := true)
    {
      abortedLocally := true;
    }

    method SetRemoteAbort(reason: string)
      modifies this`abortedByRemote
      ensures Value() == old(Value()).(abortedByRemote := Some(reason))
    {
      abortedByRemote := Some(reason);
    }

    method IsAborted() returns (b: bool)
      ensures b == Value().Aborted()
    {
      b := abortedLocally || abortedByRemote.Some?;
    }

    method Abort(reason: string) returns (r: Result<(), SendError>)
      modifies this`outbox, this`abortedLocally
      ensures r == old(Value()).SendCheck() && Value() == old(Value()).Abort(reason) && abortedLocally
    {
      r := SendMsg(Operation.Abort(reason));
      LocalAbort();
    }

    /** The body of an object's `deliver` or `deliver_only`. */
    method Serve(obj: Object, op: Operation)
      modifies this, exports.exports
      ensures Value() == old(Value()).Serve(behaviour, obj, op)
    {
      var effect := behaviour(served, obj, op);
      served := served + [Service(obj, op)];
      exports.Exported(effect.exported);
      var i := 0;
      ghost var start := Value();
      while i < |effect.sent|
        invariant 0 <= i <= |effect.sent|
        invariant Value().SendAll(effect.sent[i..]) == start.SendAll(effect.sent)
      {
        var _ := SendMsg(effect.sent[i]);
        assert effect.sent[i..][1..] == effect.sent[i + 1..];
        i := i + 1;
      }
      if effect.abort.Some? {
        var _ := Abort(effect.abort.value);
      }
    }

    method RecvEvent(checked: bool) returns (outcome: Outcome)
      modifies this, exports.exports
      ensures (outcome, Value()) == old(Value()).RecvEvent(behaviour, checked)
    {
      var waiting := checked;
      while true
        invariant Value().RecvEvent(behaviour, waiting) == old(Value()).RecvEvent(behaviour, checked)
        decreases |inbox|
      {
        if !waiting {
          if abortedLocally { return Failed(RecvAbortedLocally); }
          if abortedByRemote.Some? { return Failed(RecvAborted(abortedByRemote.value)); }
        }
        if inbox == [] { return Awaiting; }
        var next := inbox[0];
        inbox := inbox[1..];
        match next {
          case Malformed(fault) => return Failed(Unreadable(fault));
          case Message(op) =>
            match op {
              case Abort(reason) =>
                SetRemoteAbort(reason);
                return Outcome.Event(RemoteAbort(reason));
              case _ =>
                if op.to == 0 { return if IsFetch(op) then Outcome.Event(Bootstrap(op)) else Unfinished(op); }
                var target := exports.exports.Get(op.to);
                if target.None? { return Failed(UnknownTarget(op.to, op.args)); }
                ServeKeepsInbox(Value(), behaviour, target.value, op);
                Serve(target.value, op);
                waiting := false;
            }
        }
      }
    }
  }
}
