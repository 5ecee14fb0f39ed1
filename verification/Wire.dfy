/**
 One direction of a session's byte stream: concurrent tasks sending whole messages through the
 writer lock, the abort flags they check first, and the buffered reader at the other end.
 */
module Wires {
  import opened Wrappers
  import opened Codecs

  /** A task inside `send_msg`; `closing` marks the send of `abort`, which sets the flag afterwards. */
  datatype Phase<+M> =
    | Idle
    | CheckedLocal(msg: M, closing: bool)     // the local flag was clear
    | Ready(msg: M, closing: bool)            // both flags were clear: waits for the lock
    | Writing(msg: M, done: nat, closing: bool)
    | Closing(sent: Option<M>)                // back in `abort`, about to set the flag

  datatype State<M> = State(
    tasks: map<nat, Phase<M>>,
    holder: Option<nat>,
    abortedLocally: bool,
    abortedByRemote: bool,
    bytes: Bytes,               // everything written so far
    log: seq<(nat, M)>,         // tasks and their messages, in the order they took the lock
    buffered: nat,              // bytes the reader has pulled
    consumed: nat,              // bytes the reader is done with
    received: seq<M>,
    lexFailed: bool
  ) {
    function PhaseOf(t: nat): Phase<M> { if t in tasks then tasks[t] else Idle }

    function Set(t: nat, phase: Phase<M>): State<M> { this.(tasks := tasks[t := phase]) }

    function Return(t: nat, closing: bool, sent: Option<M>): State<M> {
      Set(t, if closing then Closing(sent) else Idle)
    }

    function Messages(): seq<M> { seq(|log|, i requires 0 <= i < |log| => log[i].1) }
  }

  datatype Step<M> =
    | CheckLocal(task: nat, msg: M, closing: bool)
    | CheckRemote(task: nat)
    | Lock(task: nat)
    | Write(task: nat, count: nat)
    | Unlock(task: nat)
    | LocalAbort(task: nat)
    | RemoteAbort
    | Fill(count: nat)
    | Consume

  predicate Enabled<M>(c: Codec<M>, s: State<M>, step: Step<M>) {
    match step
    case CheckLocal(t, _, _) => s.PhaseOf(t).Idle?
    case CheckRemote(t) => s.PhaseOf(t).CheckedLocal?
    case Lock(t) => s.PhaseOf(t).Ready? && s.holder.None?
    case Write(t, n) => s.PhaseOf(t).Writing? && s.PhaseOf(t).done + n <= |c.encode(s.PhaseOf(t).msg)|
    case Unlock(t) => s.PhaseOf(t).Writing? && s.PhaseOf(t).done == |c.encode(s.PhaseOf(t).msg)|
    case LocalAbort(t) => s.PhaseOf(t).Closing?
    case RemoteAbort => true
    case Fill(n) => s.buffered + n <= |s.bytes|
    case Consume => s.consumed <= s.buffered <= |s.bytes|
  }

  function Apply<M>(c: Codec<M>, s: State<M>, step: Step<M>): State<M>
    requires Enabled(c, s, step)
  {
    match step
    case CheckLocal(t, m, closing) =>
      if s.abortedLocally then s.Return(t, closing, None) else s.Set(t, CheckedLocal(m, closing))
    case CheckRemote(t) =>
      var p := s.PhaseOf(t);
      if s.abortedByRemote then s.Return(t, p.closing, None) else s.Set(t, Ready(p.msg, p.closing))
    case Lock(t) =>
      var p := s.PhaseOf(t);
      s.Set(t, Writing(p.msg, 0, p.closing)).(holder := Some(t), log := s.log + [(t, p.msg)])
    case Write(t, n) =>
      var p := s.PhaseOf(t);
      s.Set(t, p.(done := p.done + n)).(bytes := s.bytes + c.encode(p.msg)[p.done..p.done + n])
    case Unlock(t) =>
      var p := s.PhaseOf(t);
      s.Return(t, p.closing, Some(p.msg)).(holder := None)
    case LocalAbort(t) => s.Set(t, Idle).(abortedLocally := true)
    case RemoteAbort => s.(abortedByRemote := true)
    case Fill(n) => s.(buffered := s.buffered + n)
    case Consume =>
      match c.tokenize(s.bytes[s.consumed..s.buffered])
      case Complete(m, rest) =>
        s.(received := s.received + [m], consumed := if |rest| <= s.buffered then s.buffered - |rest| else s.consumed)
      case Incomplete => s
      case LexFailure => s.(lexFailed := true)
  }

  function Start<M>(): State<M> { State(map[], None, false, false, [], [], 0, 0, [], false) }

  predicate Legal<M>(c: Codec<M>, s: State<M>, steps: seq<Step<M>>)
    decreases steps
  {
    steps != [] ==> Enabled(c, s, steps[0]) && Legal(c, Apply(c, s, steps[0]), steps[1..])
  }

  function Run<M>(c: Codec<M>, s: State<M>, steps: seq<Step<M>>): State<M>
    requires Legal(c, s, steps)
    decreases steps
  {
    if steps == [] then s else Run(c, Apply(c, s, steps[0]), steps[1..])
  }

  // ---------------------------------------------------------------------------------------------
  // Framing

  /** Only the lock holder is writing, and it is writing the message logged last. */
  ghost predicate LockInv<M>(s: State<M>) {
    && (forall t: nat :: s.PhaseOf(t).Writing? <==> s.holder == Some(t))
    && (s.holder.Some? ==> s.log != [] && s.log[|s.log| - 1] == (s.holder.value, s.PhaseOf(s.holder.value).msg))
  }

  /** The wire carries the logged messages whole, but for the one being written. */
  ghost predicate FramedAs<M>(c: Codec<M>, s: State<M>)
    requires LockInv(s)
  {
    match s.holder
    case None => s.bytes == Flatten(c, s.Messages())
    case Some(t) =>
      var p := s.PhaseOf(t);
      && p.done <= |c.encode(p.msg)|
      && s.bytes == Flatten(c, s.Messages()[..|s.log| - 1]) + c.encode(p.msg)[..p.done]
  }

  ghost predicate ReaderInv<M>(c: Codec<M>, s: State<M>) {
    && s.received <= s.Messages()
    && s.consumed == |Flatten(c, s.received)| && s.consumed <= s.buffered <= |s.bytes|
    && !s.lexFailed
  }

  ghost predicate Inv<M>(c: Codec<M>, s: State<M>) { LockInv(s) && FramedAs(c, s) && ReaderInv(c, s) }

  /** What is on the wire is always a prefix of the logged messages laid end to end. */
  lemma WireIsPrefix<M(!new)>(c: Codec<M>, s: State<M>)
    requires LockInv(s) && FramedAs(c, s)
    ensures s.bytes <= Flatten(c, s.Messages())
  {
    if s.holder.Some? {
      var p := s.PhaseOf(s.holder.value);
      var ms := s.Messages();
      assert ms == ms[..|ms| - 1] + [p.msg];
      FlattenOne(c, ms[..|ms| - 1], p.msg);
    }
  }

  lemma LockKeeps<M(!new)>(c: Codec<M>, s: State<M>, t: nat)
    requires Inv(c, s) && Enabled(c, s, Lock(t))
    ensures Inv(c, Apply(c, s, Lock(t)))
  {
    var s' := Apply(c, s, Lock(t));
    forall u: nat ensures s'.PhaseOf(u).Writing? <==> s'.holder == Some(u) {
      assert !s.PhaseOf(u).Writing?;
    }
    assert s'.Messages()[..|s.log|] == s.Messages();
    assert s.bytes + [] == s.bytes;
  }

  lemma WriteKeeps<M(!new)>(c: Codec<M>, s: State<M>, t: nat, n: nat)
    requires Inv(c, s) && Enabled(c, s, Write(t, n))
    ensures Inv(c, Apply(c, s, Write(t, n)))
  {
  }

  lemma UnlockKeeps<M(!new)>(c: Codec<M>, s: State<M>, t: nat)
    requires Inv(c, s) && Enabled(c, s, Unlock(t))
    ensures Inv(c, Apply(c, s, Unlock(t)))
  {
    var s' := Apply(c, s, Unlock(t));
    forall u: nat ensures s'.PhaseOf(u).Writing? <==> s'.holder == Some(u) {
      assert s.PhaseOf(u).Writing? <==> s.holder == Some(u);
    }
    assert s.holder == Some(t) && s'.Messages() == s.Messages();
    var p := s.PhaseOf(t);
    var ms := s.Messages();
    assert ms == ms[..|ms| - 1] + [p.msg];
    FlattenOne(c, ms[..|ms| - 1], p.msg);
    assert c.encode(p.msg)[..p.done] == c.encode(p.msg);
  }

  /** Checks and aborts touch neither the lock nor the bytes. */
  lemma CheckKeeps<M(!new)>(c: Codec<M>, s: State<M>, step: Step<M>)
    requires Inv(c, s) && Enabled(c, s, step)
    requires step.CheckLocal? || step.CheckRemote? || step.LocalAbort? || step.RemoteAbort? || step.Fill?
    ensures Inv(c, Apply(c, s, step))
  {
    var s' := Apply(c, s, step);
    forall u: nat ensures s'.PhaseOf(u).Writing? <==> s'.holder == Some(u) {
      assert s.PhaseOf(u).Writing? <==> s.holder == Some(u);
    }
    assert s'.Messages() == s.Messages();
    if s.holder.Some? { assert s'.PhaseOf(s.holder.value) == s.PhaseOf(s.holder.value); }
  }

  lemma SendKeeps<M(!new)>(c: Codec<M>, s: State<M>, step: Step<M>)
    requires Inv(c, s) && Enabled(c, s, step) && !step.Consume?
    ensures Inv(c, Apply(c, s, step))
  {
    match step
    case Lock(t) => LockKeeps(c, s, t);
    case Write(t, n) => WriteKeeps(c, s, t, n);
    case Unlock(t) => UnlockKeeps(c, s, t);
    case _ => CheckKeeps(c, s, step);
  }

  lemma Window(bytes: Bytes, a: Bytes, b: Bytes, end: nat)
    requires bytes <= a + b && |a| <= end <= |bytes|
    ensures end - |a| <= |b| && bytes[|a|..end] == b[..end - |a|]
  {
  }

  /** Reading past what was received meets the next logged message, whole or in part. */
  lemma ConsumeReads<M(!new)>(c: Codec<M>, s: State<M>)
    requires PrefixCode(c) && Inv(c, s)
    ensures var window := s.bytes[s.consumed..s.buffered];
            var n := |s.received|;
            if n < |s.log| && |window| >= |c.encode(s.Messages()[n])|
            then && c.tokenize(window).Complete? && c.tokenize(window).value == s.Messages()[n]
                 && |c.tokenize(window).rest| == |window| - |c.encode(s.Messages()[n])|
            else c.tokenize(window) == Incomplete
  {
    WireIsPrefix(c, s);
    var ms := s.Messages();
    var rest := ms[|s.received|..];
    assert ms == s.received + rest;
    FlattenAppend(c, s.received, rest);
    var n := s.buffered - s.consumed;
    Window(s.bytes, Flatten(c, s.received), Flatten(c, rest), s.buffered);
    NextFrame(c, rest, n);
    assert rest != [] ==> rest[0] == ms[|s.received|];
  }

  lemma ConsumeKeeps<M(!new)>(c: Codec<M>, s: State<M>)
    requires PrefixCode(c) && Inv(c, s)
    ensures Enabled(c, s, Consume) && Inv(c, Apply(c, s, Consume))
  {
    ConsumeReads(c, s);
    var window := s.bytes[s.consumed..s.buffered];
    if c.tokenize(window).Complete? {
      FlattenOne(c, s.received, c.tokenize(window).value);
    }
  }

  lemma {:induction false} RunKeeps<M(!new)>(c: Codec<M>, s: State<M>, steps: seq<Step<M>>)
    requires PrefixCode(c) && Inv(c, s) && Legal(c, s, steps)
    ensures Inv(c, Run(c, s, steps))
    decreases steps
  {
    if steps != [] {
      if steps[0].Consume? { ConsumeKeeps(c, s); } else { SendKeeps(c, s, steps[0]); }
      RunKeeps(c, Apply(c, s, steps[0]), steps[1..]);
    }
  }

  /**
   For any interleaving of senders, any split of their writes and any chunking at the reader, the
   wire holds whole messages in lock order plus a part of the holder's, and the reader has recovered
   a prefix of that message sequence, without ever meeting a lexical error.
   */
  lemma Framing<M(!new)>(c: Codec<M>, steps: seq<Step<M>>)
    requires PrefixCode(c) && Legal(c, Start(), steps)
    ensures var s := Run(c, Start(), steps);
            && Inv(c, s) && s.bytes <= Flatten(c, s.Messages()) && s.received <= s.Messages() && !s.lexFailed
  {
    var start: State<M> := Start();
    assert start.Messages() == [];
    RunKeeps(c, start, steps);
    WireIsPrefix(c, Run(c, start, steps));
  }

  /** When the lock is free and the reader has pulled everything, it waits only if it has every message. */
  lemma NothingIsLost<M(!new)>(c: Codec<M>, steps: seq<Step<M>>)
    requires PrefixCode(c) && Legal(c, Start(), steps)
    ensures var s := Run(c, Start(), steps);
            s.holder.None? && s.buffered == |s.bytes| ==>
              s.consumed <= s.buffered
                  && (c.tokenize(s.bytes[s.consumed..s.buffered]) == Incomplete <==> s.received == s.Messages())
  {
    Framing(c, steps);
    var s := Run(c, Start(), steps);
    ConsumeReads(c, s);
    if s.holder.None? && s.buffered == |s.bytes| && s.received != s.Messages() {
      var ms, n := s.Messages(), |s.received|;
      assert ms == s.received + [ms[n]] + ms[n + 1..];
      FlattenAppend(c, s.received + [ms[n]], ms[n + 1..]);
      FlattenOne(c, s.received, ms[n]);
    }
  }

  function Consumes<M>(n: nat): seq<Step<M>> { if n == 0 then [] else [Consume] + Consumes(n - 1) }

  /** A reader that has pulled everything gets the next logged message. */
  lemma {:induction false} ConsumesNext<M(!new)>(c: Codec<M>, s: State<M>)
    requires PrefixCode(c) && Inv(c, s) && s.holder == None && s.buffered == |s.bytes| && |s.received| < |s.log|
    ensures var t := Apply(c, s, Consume);
            && t.received == s.received + [s.log[|s.received|].1] && t.log == s.log
            && Inv(c, t) && t.holder == None && t.buffered == |t.bytes|
  {
    ConsumeKeeps(c, s);
    ConsumeReads(c, s);
    var ms, n := s.Messages(), |s.received|;
    assert ms == s.received + [ms[n]] + ms[n + 1..];
    FlattenAppend(c, s.received + [ms[n]], ms[n + 1..]);
    FlattenOne(c, s.received, ms[n]);
  }

  lemma {:induction false} ConsumesAll<M(!new)>(c: Codec<M>, s: State<M>, n: nat)
    requires PrefixCode(c) && Inv(c, s) && s.holder == None && s.buffered == |s.bytes|
    requires n == |s.log| - |s.received|
    ensures Legal(c, s, Consumes(n)) && Run(c, s, Consumes(n)).received == s.Messages()
    decreases n
  {
    if n > 0 {
      var t := Apply(c, s, Consume);
      ConsumesNext(c, s);
      assert t.Messages() == s.Messages();
      ConsumesAll(c, t, n - 1);
      assert Consumes<M>(n)[1..] == Consumes<M>(n - 1);
    }
  }

  /** A reader that pulls what is there and goes on reading gets every message that was logged. */
  lemma {:induction false} ReaderCatchesUp<M(!new)>(c: Codec<M>, steps: seq<Step<M>>)
    requires PrefixCode(c) && Legal(c, Start(), steps) && Run(c, Start(), steps).holder == None
    ensures var s := Run(c, Start(), steps);
            && s.buffered <= |s.bytes| && |s.received| <= |s.log|
            && var more := [Fill(|s.bytes| - s.buffered)] + Consumes(|s.log| - |s.received|);
               Legal(c, s, more) && Run(c, s, more).received == s.Messages()
  {
    Framing(c, steps);
    var s := Run(c, Start(), steps);
    var fill := Fill(|s.bytes| - s.buffered);
    var n := |s.log| - |s.received|;
    CheckKeeps(c, s, fill);
    var t := Apply(c, s, fill);
    assert t.Messages() == s.Messages();
    ConsumesAll(c, t, n);
    assert ([fill] + Consumes(n))[1..] == Consumes(n);
  }

  // ---------------------------------------------------------------------------------------------
  // Which sends the log is made of

  lemma {:induction false} RunMore<M(!new)>(c: Codec<M>, s: State<M>, steps: seq<Step<M>>, last: Step<M>)
    requires Legal(c, s, steps + [last])
    ensures Legal(c, s, steps) && Enabled(c, Run(c, s, steps), last)
    ensures Run(c, s, steps + [last]) == Apply(c, Run(c, s, steps), last)
    decreases steps
  {
    if steps == [] {
      assert steps + [last] == [last] && [last][1..] == [];
    } else {
      assert (steps + [last])[1..] == steps[1..] + [last];
      RunMore(c, Apply(c, s, steps[0]), steps[1..], last);
    }
  }

  predicate IsCheck<M>(step: Step<M>, t: nat) { step.CheckLocal? && step.task == t }

  /** The step with which task `t` last began a send. */
  function LastCheck<M>(steps: seq<Step<M>>, t: nat): (r: Option<nat>)
    ensures match r
            case Some(k) => k < |steps| && IsCheck(steps[k], t) && forall j :: k < j < |steps| ==> !IsCheck(steps[j], t)
            case None => forall j :: 0 <= j < |steps| ==> !IsCheck(steps[j], t)
  {
    if steps == [] then None
    else
      var n := |steps| - 1;
      if IsCheck(steps[n], t) then Some(n) else LastCheck(steps[..n], t)
  }

  /** For each time the lock was taken, the step that began the send it was taken for. */
  function LockedFor<M>(steps: seq<Step<M>>): seq<Option<nat>> {
    if steps == [] then []
    else
      var n := |steps| - 1;
      LockedFor(steps[..n]) + if steps[n].Lock? then [LastCheck(steps[..n], steps[n].task)] else []
  }

  predicate Waits<M>(p: Phase<M>) { p.CheckedLocal? || p.Ready? }

  /** A task inside a send is sending what it was last asked to send. */
  ghost predicate SendsWhatItWasAsked<M>(s: State<M>, steps: seq<Step<M>>) {
    forall t: nat {:trigger s.PhaseOf(t)} :: Waits(s.PhaseOf(t)) || s.PhaseOf(t).Writing? ==>
      match LastCheck(steps, t)
      case Some(k) => steps[k] == CheckLocal(t, s.PhaseOf(t).msg, s.PhaseOf(t).closing)
      case None => false
  }

  /** Each log entry is the message of its own send, and no send that still waits is among them. */
  ghost predicate LogIsOfSends<M>(s: State<M>, steps: seq<Step<M>>, from: seq<Option<nat>>) {
    && |from| == |s.log|
    && (forall i {:trigger from[i]} :: 0 <= i < |from| ==>
      && from[i].Some? && from[i].value < |steps|
      && steps[from[i].value].CheckLocal?
      && s.log[i] == (steps[from[i].value].task, steps[from[i].value].msg)
      && LastCheck(steps, s.log[i].0).Some? && from[i].value <= LastCheck(steps, s.log[i].0).value
      && (Waits(s.PhaseOf(s.log[i].0)) ==> from[i] != LastCheck(steps, s.log[i].0)))
    && (forall i, j :: 0 <= i < j < |from| ==>
      && from[i] != from[j]
      && (s.log[i].0 == s.log[j].0 ==> from[i].value < from[j].value))
  }

  /** The last send of a task that is writing, or has just written, is in the log. */
  ghost predicate WriterIsLogged<M>(s: State<M>, steps: seq<Step<M>>, from: seq<Option<nat>>) {
    forall t: nat {:trigger s.PhaseOf(t)} :: s.PhaseOf(t).Writing? ==> LastCheck(steps, t) in from
  }

  ghost predicate Traced<M>(s: State<M>, steps: seq<Step<M>>) {
    && SendsWhatItWasAsked(s, steps) && LogIsOfSends(s, steps, LockedFor(steps))
    && WriterIsLogged(s, steps, LockedFor(steps))
  }

  lemma LastCheckNext<M>(steps: seq<Step<M>>, last: Step<M>, t: nat)
    ensures LastCheck(steps + [last], t) == if IsCheck(last, t) then Some(|steps|) else LastCheck(steps, t)
    ensures LockedFor(steps + [last]) ==
            LockedFor(steps) + if last.Lock? then [LastCheck(steps, last.task)] else []
  {
    assert (steps + [last])[..|steps|] == steps;
  }

  lemma SendsStep<M(!new)>(c: Codec<M>, s: State<M>, steps: seq<Step<M>>, last: Step<M>)
    requires SendsWhatItWasAsked(s, steps) && Enabled(c, s, last)
    ensures SendsWhatItWasAsked(Apply(c, s, last), steps + [last])
  {
    var s' := Apply(c, s, last);
    forall t: nat | Waits(s'.PhaseOf(t)) || s'.PhaseOf(t).Writing?
      ensures match LastCheck(steps + [last], t)
              case Some(k) => (steps + [last])[k] == CheckLocal(t, s'.PhaseOf(t).msg, s'.PhaseOf(t).closing)
              case None => false
    {
      LastCheckNext(steps, last, t);
      assert IsCheck(last, t) || Waits(s.PhaseOf(t)) || s.PhaseOf(t).Writing?;
    }
  }

  /** A step other than taking the lock leaves the log as it is. */
  lemma LogStays<M(!new)>(c: Codec<M>, s: State<M>, steps: seq<Step<M>>, last: Step<M>, from: seq<Option<nat>>)
    requires LogIsOfSends(s, steps, from) && Enabled(c, s, last) && !last.Lock?
    ensures LogIsOfSends(Apply(c, s, last), steps + [last], from)
  {
    var s' := Apply(c, s, last);
    assert s'.log == s.log;
    forall i | 0 <= i < |from|
      ensures LastCheck(steps + [last], s.log[i].0).Some?
              && from[i].value <= LastCheck(steps + [last], s.log[i].0).value
              && (Waits(s'.PhaseOf(s.log[i].0)) ==> from[i] != LastCheck(steps + [last], s.log[i].0))
    {
      var t := s.log[i].0;
      LastCheckNext(steps, last, t);
      assert IsCheck(last, t) || (Waits(s'.PhaseOf(t)) ==> Waits(s.PhaseOf(t)));
    }
  }

  lemma LogGrows<M(!new)>(c: Codec<M>, s: State<M>, steps: seq<Step<M>>, t: nat, from: seq<Option<nat>>)
    requires SendsWhatItWasAsked(s, steps) && LogIsOfSends(s, steps, from) && Enabled(c, s, Lock(t))
    ensures LogIsOfSends(Apply(c, s, Lock(t)), steps + [Lock(t)], from + [LastCheck(steps, t)])
  {
    var s' := Apply(c, s, Lock(t));
    var k := LastCheck(steps, t);
    assert Waits(s.PhaseOf(t));
    assert steps[k.value] == CheckLocal(t, s.PhaseOf(t).msg, s.PhaseOf(t).closing);
    var from' := from + [k];
    forall i | 0 <= i < |from'|
      ensures LastCheck(steps + [Lock(t)], s'.log[i].0) == LastCheck(steps, s'.log[i].0)
    {
      LastCheckNext(steps, Lock(t), s'.log[i].0);
    }
    forall i | 0 <= i < |from| ensures from[i] != k && (s.log[i].0 == t ==> from[i].value < k.value) {
      assert steps[from[i].value].task == s.log[i].0;
    }
  }

  lemma WriterStep<M(!new)>(c: Codec<M>, s: State<M>, steps: seq<Step<M>>, last: Step<M>, from: seq<Option<nat>>)
    requires WriterIsLogged(s, steps, from) && Enabled(c, s, last)
    ensures WriterIsLogged(Apply(c, s, last), steps + [last],
                           from + if last.Lock? then [LastCheck(steps, last.task)] else [])
  {
    var s' := Apply(c, s, last);
    forall t: nat | s'.PhaseOf(t).Writing?
      ensures LastCheck(steps + [last], t) in from + if last.Lock? then [LastCheck(steps, last.task)] else []
    {
      LastCheckNext(steps, last, t);
      assert s.PhaseOf(t).Writing? || last == Lock(t);
    }
  }

  lemma TracedStep<M(!new)>(c: Codec<M>, s: State<M>, steps: seq<Step<M>>, last: Step<M>)
    requires Traced(s, steps) && Enabled(c, s, last)
    ensures Traced(Apply(c, s, last), steps + [last])
  {
    var from := LockedFor(steps);
    LastCheckNext(steps, last, 0);
    SendsStep(c, s, steps, last);
    WriterStep(c, s, steps, last, from);
    if last.Lock? {
      LogGrows(c, s, steps, last.task, from);
    } else {
      LogStays(c, s, steps, last, from);
      assert from + [] == from;
    }
  }

  lemma {:induction false} RunTraced<M(!new)>(c: Codec<M>, steps: seq<Step<M>>)
    requires Legal(c, Start(), steps)
    ensures Traced(Run(c, Start(), steps), steps)
    decreases |steps|
  {
    if steps != [] {
      var before, last := steps[..|steps| - 1], steps[|steps| - 1];
      assert steps == before + [last];
      RunMore(c, Start(), before, last);
      RunTraced(c, before);
      TracedStep(c, Run(c, Start(), before), before, last);
    }
  }

  /**
   What is written is what was asked to be sent: each log entry is the task and the message of one
   call of `send_msg`, different entries of different calls, and those of one task in the order in
   which it made them.
   */
  lemma {:induction false} LogIsWhatWasSent<M(!new)>(c: Codec<M>, steps: seq<Step<M>>)
    requires Legal(c, Start(), steps)
    ensures var log, from := Run(c, Start(), steps).log, LockedFor(steps);
            && |from| == |log|
            && (forall i {:trigger from[i]} :: 0 <= i < |log| ==>
              && from[i].Some? && from[i].value < |steps| && steps[from[i].value].CheckLocal?
              && log[i] == (steps[from[i].value].task, steps[from[i].value].msg))
            && (forall i, j :: 0 <= i < j < |log| ==>
              && from[i] != from[j]
              && (log[i].0 == log[j].0 ==> from[i].value < from[j].value))
  {
    RunTraced(c, steps);
  }

  /** A send that completes has its message in the log, exactly once. */
  lemma {:induction false} CompletedSendIsLogged<M(!new)>(c: Codec<M>, steps: seq<Step<M>>, t: nat)
    requires Legal(c, Start(), steps) && Enabled(c, Run(c, Start(), steps), Unlock(t))
    ensures var log, from := Run(c, Start(), steps).log, LockedFor(steps);
            && LastCheck(steps, t).Some? && |from| == |log|
            && exists i :: 0 <= i < |log| && from[i] == LastCheck(steps, t)
                 && log[i] == (t, steps[from[i].value].msg)
                 && forall j :: 0 <= j < |log| && from[j] == from[i] ==> j == i
  {
    RunTraced(c, steps);
    var s, from := Run(c, Start(), steps), LockedFor(steps);
    assert s.PhaseOf(t).Writing?;
    var i :| 0 <= i < |from| && from[i] == LastCheck(steps, t);
    assert steps[from[i].value].task == t;
  }

  function WriteOut<M>(c: Codec<M>, t: nat, m: M): seq<Step<M>> { [Lock(t), Write(t, |c.encode(m)|), Unlock(t)] }

  /** A task that has passed its checks takes the free lock, writes its message whole, and lets go. */
  lemma {:induction false} WritesOut<M(!new)>(c: Codec<M>, s: State<M>, t: nat, m: M, closing: bool)
    requires s.PhaseOf(t) == Ready(m, closing) && s.holder == None
    ensures Legal(c, s, WriteOut(c, t, m))
    ensures var u := Run(c, s, WriteOut(c, t, m));
            && u.log == s.log + [(t, m)] && u.bytes == s.bytes + c.encode(m) && u.holder == None
            && u.PhaseOf(t) == if closing then Closing(Some(m)) else Idle
  {
    var steps := WriteOut(c, t, m);
    var s1 := Apply(c, s, Lock(t));
    var s2 := Apply(c, s1, Write(t, |c.encode(m)|));
    assert steps[1..] == [Write(t, |c.encode(m)|), Unlock(t)] && steps[1..][1..] == [Unlock(t)];
    var last: seq<Step<M>> := [Unlock(t)];
    assert last[1..] == [];
    assert c.encode(m)[0..0 + |c.encode(m)|] == c.encode(m);
    var u := Apply(c, s2, Unlock(t));
    assert Legal(c, u, last[1..]) && Run(c, u, last[1..]) == u;
    assert Legal(c, s2, last) && Run(c, s2, last) == u;
    assert Legal(c, s1, steps[1..]) && Run(c, s1, steps[1..]) == u;
  }

  /** On a live session whose lock is free a send goes through: its message is logged and written whole. */
  lemma {:induction false} LiveSendGoesThrough<M(!new)>(c: Codec<M>, s: State<M>, t: nat, m: M, closing: bool)
    requires s.PhaseOf(t).Idle? && s.holder == None && !s.abortedLocally && !s.abortedByRemote
    ensures var steps := [CheckLocal(t, m, closing)] + ([CheckRemote(t)] + WriteOut(c, t, m));
            && Legal(c, s, steps)
            && var u := Run(c, s, steps);
               && u.log == s.log + [(t, m)] && u.bytes == s.bytes + c.encode(m) && u.holder == None
               && u.PhaseOf(t) == if closing then Closing(Some(m)) else Idle
  {
    var rest := [CheckRemote(t)] + WriteOut(c, t, m);
    var steps := [CheckLocal(t, m, closing)] + rest;
    var s1 := Apply(c, s, CheckLocal(t, m, closing));
    var s2 := Apply(c, s1, CheckRemote(t));
    assert steps[1..] == rest && rest[1..] == WriteOut(c, t, m);
    WritesOut(c, s2, t, m, closing);
    assert Legal(c, s1, rest) && Run(c, s1, rest) == Run(c, s2, WriteOut(c, t, m));
  }

  /** On an aborted session a send writes nothing and returns at once, or at the check it has not passed yet. */
  lemma RefusedSend<M(!new)>(c: Codec<M>, s: State<M>, t: nat, m: M, closing: bool)
    ensures s.PhaseOf(t).Idle? && s.abortedLocally ==>
              var u := Apply(c, s, CheckLocal(t, m, closing));
              u == s.(tasks := u.tasks) && u.PhaseOf(t) == if closing then Closing(None) else Idle
    ensures s.PhaseOf(t) == CheckedLocal(m, closing) && s.abortedByRemote ==>
              var u := Apply(c, s, CheckRemote(t));
              u == s.(tasks := u.tasks) && u.PhaseOf(t) == if closing then Closing(None) else Idle
  {
  }

  // ---------------------------------------------------------------------------------------------
  // Abort, and the gap between the check and the lock

  predicate Aborted<M>(s: State<M>) { s.abortedLocally || s.abortedByRemote }

  /**
   Tasks that can still take the lock on an aborted session: those past both checks, and those past the
   check of the local flag while the remote's reason is not set.
   */
  function InFlight<M>(s: State<M>): map<nat, M> {
    map t | t in s.tasks && (s.tasks[t].Ready? || (s.tasks[t].CheckedLocal? && !s.abortedByRemote)) :: s.tasks[t].msg
  }

  ghost predicate SentByInFlight<M>(extra: seq<(nat, M)>, flight: map<nat, M>) {
    && (forall i :: 0 <= i < |extra| ==> extra[i].0 in flight && flight[extra[i].0] == extra[i].1)
    && (forall i, j :: 0 <= i < j < |extra| ==> extra[i].0 != extra[j].0)
  }

  lemma AbortedLock<M(!new)>(c: Codec<M>, s: State<M>, t: nat)
    requires Aborted(s) && Enabled(c, s, Lock(t))
    ensures t in InFlight(s) && InFlight(Apply(c, s, Lock(t))) == InFlight(s) - {t}
  {
    var s' := Apply(c, s, Lock(t));
    assert s.tasks[t].Ready? && s'.tasks[t].Writing?;
    assert forall u :: u in s'.tasks && u != t ==> s'.tasks[u] == s.tasks[u];
  }

  lemma {:induction false} AbortedStep<M(!new)>(c: Codec<M>, s: State<M>, step: Step<M>)
    requires Aborted(s) && Enabled(c, s, step)
    ensures var s' := Apply(c, s, step);
            && Aborted(s')
            && (forall t :: t in InFlight(s') ==> t in InFlight(s) && InFlight(s')[t] == InFlight(s)[t])
            && (if step.Lock? then s'.log == s.log + [(step.task, InFlight(s)[step.task])] && step.task !in InFlight(s')
                else s'.log == s.log)
  {
    if step.Lock? { AbortedLock(c, s, step.task); }
  }

  /**
   Once either flag is set, every message still put on the wire belongs to a task that had passed its
   checks before, is the message that task was sending, and is its only one.
   */
  lemma {:induction false} OnlyInFlightAfterAbort<M(!new)>(c: Codec<M>, s: State<M>, steps: seq<Step<M>>)
    requires Aborted(s) && Legal(c, s, steps)
    ensures var t := Run(c, s, steps);
            && s.log <= t.log && SentByInFlight(t.log[|s.log|..], InFlight(s))
            && |t.log| - |s.log| + |InFlight(t)| <= |InFlight(s)|
    decreases steps
  {
    if steps != [] {
      var s' := Apply(c, s, steps[0]);
      AbortedStep(c, s, steps[0]);
      OnlyInFlightAfterAbort(c, s', steps[1..]);
      OneMoreInFlight(c, s, steps[0], Run(c, s', steps[1..]));
    }
  }

  lemma OneMoreInFlight<M(!new)>(c: Codec<M>, s: State<M>, step: Step<M>, t: State<M>)
    requires Aborted(s) && Enabled(c, s, step)
    requires var s' := Apply(c, s, step);
             && s'.log <= t.log && SentByInFlight(t.log[|s'.log|..], InFlight(s'))
             && |t.log| - |s'.log| + |InFlight(t)| <= |InFlight(s')|
    ensures && s.log <= t.log && SentByInFlight(t.log[|s.log|..], InFlight(s))
            && |t.log| - |s.log| + |InFlight(t)| <= |InFlight(s)|
  {
    var s' := Apply(c, s, step);
    AbortedStep(c, s, step);
    if step.Lock? {
      var first := (step.task, InFlight(s)[step.task]);
      assert t.log[|s.log|..] == [first] + t.log[|s'.log|..];
      MapSmaller(InFlight(s')[first.0 := first.1], InFlight(s));
    } else {
      MapSmaller(InFlight(s'), InFlight(s));
    }
  }

  /** When the remote's reason arrives and no task waits for the lock, nothing more is ever sent. */
  lemma {:induction false} RemoteAbortStopsSends<M(!new)>(c: Codec<M>, s: State<M>, later: seq<Step<M>>)
    requires forall t :: t in s.tasks ==> !s.tasks[t].Ready?
    requires Legal(c, Apply(c, s, RemoteAbort), later)
    ensures Run(c, Apply(c, s, RemoteAbort), later).log == s.log
  {
    var a := Apply(c, s, RemoteAbort);
    assert InFlight(a) == map[];
    OnlyInFlightAfterAbort(c, a, later);
    var u := Run(c, a, later);
    assert u.log[|a.log|..] == [];
  }

  lemma MapSmaller<K, V>(a: map<K, V>, b: map<K, V>)
    requires forall k :: k in a ==> k in b
    ensures |a| <= |b|
  {
    assert a.Keys <= b.Keys;
    SetSmaller(a.Keys, b.Keys);
  }

  lemma {:induction false} SetSmaller<K>(a: set<K>, b: set<K>)
    requires a <= b
    ensures |a| <= |b|
  {
    if a != {} {
      var k :| k in a;
      SetSmaller(a - {k}, b - {k});
    }
  }

  // ---------------------------------------------------------------------------------------------
  // A single sending task

  ghost predicate OnlySender<M>(steps: seq<Step<M>>, t: nat) {
    forall i :: 0 <= i < |steps| ==> SenderIs(steps[i], t)
  }

  /** No other task is sending, and a finished abort frame is the last one on the wire. */
  ghost predicate Alone<M>(s: State<M>, t: nat) {
    && (forall u: nat :: u != t ==> s.PhaseOf(u).Idle?)
    && (s.PhaseOf(t).Closing? && s.PhaseOf(t).sent.Some? ==>
      s.holder.None? && s.log != [] && s.log[|s.log| - 1] == (t, s.PhaseOf(t).sent.value))
  }

  ghost predicate SenderIs<M>(step: Step<M>, t: nat) {
    step.RemoteAbort? || step.Fill? || step.Consume? || step.task == t
  }

  lemma AloneStep<M(!new)>(c: Codec<M>, s: State<M>, step: Step<M>, t: nat)
    requires LockInv(s) && Alone(s, t) && SenderIs(step, t) && Enabled(c, s, step)
    ensures Alone(Apply(c, s, step), t)
  {
    forall u: nat | u != t ensures Apply(c, s, step).PhaseOf(u).Idle? {
      assert s.PhaseOf(u).Idle?;
    }
    if step.Unlock? { assert s.holder == Some(t); }
  }

  lemma {:induction false} StaysAlone<M(!new)>(c: Codec<M>, s: State<M>, steps: seq<Step<M>>, t: nat)
    requires PrefixCode(c) && Inv(c, s) && Alone(s, t) && OnlySender(steps, t) && Legal(c, s, steps)
    ensures Inv(c, Run(c, s, steps)) && Alone(Run(c, s, steps), t)
    decreases steps
  {
    if steps != [] {
      if steps[0].Consume? { ConsumeKeeps(c, s); } else { SendKeeps(c, s, steps[0]); }
      var s' := Apply(c, s, steps[0]);
      AloneStep(c, s, steps[0], t);
      StaysAlone(c, s', steps[1..], t);
    }
  }

  lemma AloneHasNoneInFlight<M(!new)>(c: Codec<M>, s: State<M>, t: nat)
    requires Alone(s, t) && Enabled(c, s, LocalAbort(t))
    ensures InFlight(Apply(c, s, LocalAbort(t))) == map[]
  {
    var a := Apply(c, s, LocalAbort(t));
    forall u: nat ensures a.PhaseOf(u).Idle? {
      assert u == t || s.PhaseOf(u).Idle?;
    }
    assert forall u :: u in a.tasks ==> a.PhaseOf(u).Idle?;
  }

  lemma NothingAfterAbort<M(!new)>(c: Codec<M>, s: State<M>, t: nat, later: seq<Step<M>>)
    requires PrefixCode(c) && Inv(c, s) && Alone(s, t) && Enabled(c, s, LocalAbort(t))
    requires Legal(c, Apply(c, s, LocalAbort(t)), later)
    ensures var u := Run(c, Apply(c, s, LocalAbort(t)), later);
            u.log == s.log && u.bytes == s.bytes == Flatten(c, s.Messages())
  {
    var a := Apply(c, s, LocalAbort(t));
    var u := Run(c, a, later);
    AloneHasNoneInFlight(c, s, t);
    OnlyInFlightAfterAbort(c, a, later);
    assert u.log == s.log;
    forall u: nat ensures s.holder != Some(u) {
      assert u == t || s.PhaseOf(u).Idle?;
    }
    CheckKeeps(c, s, LocalAbort(t));
    RunKeeps(c, a, later);
    WireOnlyGrows(c, a, later);
    WireIsPrefix(c, u);
    assert u.Messages() == s.Messages();
  }

  /** With one sending task nothing follows its abort, and an abort frame that was written is the last frame. */
  lemma SingleSenderAbortIsLast<M(!new)>(c: Codec<M>, before: seq<Step<M>>, t: nat, later: seq<Step<M>>)
    requires PrefixCode(c) && OnlySender(before, t) && Legal(c, Start(), before)
    requires Enabled(c, Run(c, Start(), before), LocalAbort(t))
    requires Legal(c, Apply(c, Run(c, Start(), before), LocalAbort(t)), later)
    ensures var s := Run(c, Start(), before);
            var u := Run(c, Apply(c, s, LocalAbort(t)), later);
            && u.log == s.log && u.bytes == s.bytes == Flatten(c, s.Messages())
            && (s.PhaseOf(t).sent.Some? ==> s.log != [] && s.log[|s.log| - 1] == (t, s.PhaseOf(t).sent.value))
  {
    var start: State<M> := Start();
    assert start.Messages() == [];
    StaysAlone(c, start, before, t);
    NothingAfterAbort(c, Run(c, start, before), t, later);
  }

  lemma {:induction false} WireOnlyGrows<M(!new)>(c: Codec<M>, s: State<M>, steps: seq<Step<M>>)
    requires Legal(c, s, steps)
    ensures s.bytes <= Run(c, s, steps).bytes
    decreases steps
  {
    if steps != [] {
      WireOnlyGrows(c, Apply(c, s, steps[0]), steps[1..]);
    }
  }
}
