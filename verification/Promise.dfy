/**
 The one-shot `Resolver` behind a `deliver_and` call, and the `Answer` its caller awaits.
 */
module Promises {
  import opened Wrappers
  import opened Messages

  /**
   The value of a resolver and its answer: whether the sender is still there to be taken, whether
   the caller still awaits the answer, and the result that has been sent.
   */
  datatype PromiseState = PromiseState(armed: bool, awaited: bool, answer: Option<PromiseResult>) {
    predicate Open() { armed && awaited }

    /** The first resolution takes the sender, whether or not anyone is still listening. */
    function Resolve(res: PromiseResult): PromiseState {
      if Open() then PromiseState(false, true, Some(res)) else this.(armed := false)
    }

    function Drop(): PromiseState { this.(awaited := false) }
  }

  const NEW_PROMISE: PromiseState := PromiseState(true, true, None)

  class Oneshot {
    var slot: Option<PromiseResult>
    var receiverAlive: bool

    constructor ()
      ensures slot == None && receiverAlive
    {
      slot, receiverAlive := None, true;
    }

    method Send(res: PromiseResult) returns (rejected: Option<PromiseResult>)
      modifies this`slot
      ensures rejected == if receiverAlive then None else Some(res)
      ensures slot == if receiverAlive then Some(res) else old(slot)
    {
      if receiverAlive {
        slot, rejected := Some(res), None;
      } else {
        rejected := Some(res);
      }
    }
  }

  class Answer {
    const receiver: Oneshot

    constructor (receiver: Oneshot)
      ensures this.receiver == receiver
    {
      this.receiver := receiver;
    }

    /** The caller stops awaiting, for instance because its send failed. */
    method Drop()
      modifies receiver`receiverAlive
      ensures !receiver.receiverAlive && receiver.slot == old(receiver.slot)
    {
      receiver.receiverAlive := false;
    }
  }

  class Resolver {
    var sender: Oneshot?
    const channel: Oneshot

    constructor (channel: Oneshot)
      requires channel.slot == None && channel.receiverAlive
      ensures this.channel == channel && Valid() && Value() == NEW_PROMISE
    {
      this.channel, sender := channel, channel;
    }

    /** `Resolver::new`: both halves of one channel. */
    static method New() returns (resolver: Resolver, answer: Answer)
      ensures fresh(resolver) && fresh(answer) && fresh(resolver.channel)
      ensures answer.receiver == resolver.channel
      ensures resolver.Valid() && resolver.Value() == NEW_PROMISE
    {
      var channel := new Oneshot();
      resolver := new Resolver(channel);
      answer := new Answer(channel);
    }

    ghost predicate Valid()
      reads this, channel
    {
      sender != null ==> sender == channel && channel.slot == None
    }

    function Value(): PromiseState
      reads this, channel
    {
      PromiseState(sender != null, channel.receiverAlive, channel.slot)
    }

    method Resolve(res: PromiseResult) returns (rejected: Option<PromiseResult>)
      requires Valid()
      modifies this`sender, channel`slot
      ensures Valid() && Value() == old(Value()).Resolve(res)
      ensures rejected == if old(Value()).Open() then None else Some(res)
    {
      var taken := sender;
      sender := null;
      if taken == null {
        rejected := Some(res);
      } else {
        rejected := taken.Send(res);
      }
    }

    /** The result is the break this delivery attempts to send through its own resolver, if any. */
    method Fulfill(args: Args, resolver: GenericResolver) returns (reply: Option<Operation>)
      requires Valid()
      modifies this`sender, channel`slot
      ensures Valid() && (Value(), reply) == Serve(old(Value()), Delivery([FULFILL] + args, resolver))
    {
      var rejected := Resolve(Ok(args));
      reply := if rejected.None? then None else Some(resolver.BreakOp(ALREADY_RESOLVED));
    }

    method BreakPromise(reason: Token, resolver: GenericResolver) returns (reply: Option<Operation>)
      requires Valid()
      modifies this`sender, channel`slot
      ensures Valid() && (Value(), reply) == Serve(old(Value()), Delivery([BREAK, reason], resolver))
    {
      var rejected := Resolve(Broken(reason));
      reply := if rejected.None? then None else Some(resolver.BreakOp(ALREADY_RESOLVED));
    }
  }

  // ---------------------------------------------------------------------------------------------
  // Sequences of deliveries to one resolver

  /** An op:deliver for a resolver: the arguments on the wire, and the reply handle it came with. */
  datatype Delivery = Delivery(args: Args, resolver: GenericResolver)

  /** One delivery: the promise afterwards, and the break attempted on the delivery's own resolver. */
  function Serve(p: PromiseState, d: Delivery): (PromiseState, Option<Operation>) {
    match ReadResolution(d.args)
    case None => (p, None)
    case Some(res) =>
      (p.Resolve(res), if p.Open() then None else Some(d.resolver.BreakOp(ALREADY_RESOLVED)))
  }

  function ServeAll(p: PromiseState, ds: seq<Delivery>): (PromiseState, seq<Operation>)
    decreases ds
  {
    if ds == [] then (p, [])
    else
      var (q, reply) := Serve(p, ds[0]);
      var (r, replies) := ServeAll(q, ds[1..]);
      (r, (if reply.Some? then [reply.value] else []) + replies)
  }

  function Recognised(ds: seq<Delivery>): seq<Delivery> {
    if ds == [] then []
    else (if ReadResolution(ds[0].args).Some? then [ds[0]] else []) + Recognised(ds[1..])
  }

  /** For each delivery an op:deliver-only to its own reply position that says its promise is broken. */
  function Refusals(ds: seq<Delivery>): (ops: seq<Operation>)
    ensures |ops| == |ds|
    ensures forall i :: 0 <= i < |ds| ==>
      ops[i].DeliverOnly? && ops[i].to == ds[i].resolver.resolveMe.position
      && ReadResolution(ops[i].args) == Some(Broken(Text("promise already resolved")))
  {
    seq(|ds|, i requires 0 <= i < |ds| =>
      DeliverOnly(ds[i].resolver.resolveMe.position, [Symbol("break"), Text("promise already resolved")]))
  }

  /** A promise that is no longer open keeps its answer and refuses every further resolution. */
  lemma {:induction false} SettledRefusesAll(p: PromiseState, ds: seq<Delivery>)
    requires !p.Open()
    ensures ServeAll(p, ds).0.answer == p.answer && !ServeAll(p, ds).0.Open()
    ensures ServeAll(p, ds).1 == Refusals(Recognised(ds))
    decreases ds
  {
    if ds == [] {
    } else {
      SettledRefusesAll(Serve(p, ds[0]).0, ds[1..]);
    }
  }

  /** Nothing is delivered to a caller that no longer awaits: every resolution is refused. */
  lemma {:induction false} DroppedIsNeverAnswered(p: PromiseState, ds: seq<Delivery>)
    requires p.answer == None
    ensures var (q, replies) := ServeAll(p.Drop(), ds);
            q.answer == None && replies == Refusals(Recognised(ds))
  {
    SettledRefusesAll(p.Drop(), ds);
  }

  /**
   The answer carries the first resolution and never changes, and every later one attempts exactly
   one "already resolved" break, on its own resolver, in order.
   */
  lemma {:induction false} FirstResolutionWins(p: PromiseState, ds: seq<Delivery>)
    requires p.Open() && p.answer == None
    ensures var (q, replies) := ServeAll(p, ds);
            var hits := Recognised(ds);
            if hits == [] then q == p && replies == []
            else q.answer == ReadResolution(hits[0].args) && !q.Open() && replies == Refusals(hits[1..])
    decreases ds
  {
    if ds == [] {
    } else if ReadResolution(ds[0].args).None? {
      FirstResolutionWins(p, ds[1..]);
    } else {
      SettledRefusesAll(Serve(p, ds[0]).0, ds[1..]);
      assert Recognised(ds)[1..] == Recognised(ds[1..]);
    }
  }

  /** Conservation: each recognised delivery either resolves the promise or is refused. */
  lemma ResolutionsAndRefusals(p: PromiseState, ds: seq<Delivery>)
    requires p.answer == None
    ensures var (q, replies) := ServeAll(p, ds);
            |Recognised(ds)| == |replies| + (if q.answer.Some? then 1 else 0)
  {
    if p.Open() {
      FirstResolutionWins(p, ds);
    } else {
      SettledRefusesAll(p, ds);
    }
  }
}
