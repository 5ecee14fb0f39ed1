/** The CapTP operations a session exchanges, and what a resolver reads and writes in them. */
module Messages {
  import opened Wrappers

  /** A syrup value: symbols and strings are told apart, every other value is opaque. */
  datatype Token = Symbol(name: string) | Text(text: string) | Opaque(value: int)

  type Args = seq<Token>

  datatype DescImport = Object(position: U64) | Promise(position: U64)

  datatype Operation =
    | DeliverOnly(to: U64, args: Args)
    | Deliver(to: U64, args: Args, answerPos: Option<U64>, resolveMe: DescImport)
    | Abort(reason: string)

  const FETCH: Token := Symbol("fetch")

  /** The one request to the bootstrap object at position 0 that the source finishes. */
  predicate IsFetch(op: Operation) {
    op.Deliver? && op.to == 0 && |op.args| >= 2 && op.args[0] == FETCH && op.args[1].Symbol?
  }

  /** A fetch names the method and, as a symbol, the swiss number; what follows is not looked at. */
  lemma FetchExactly(op: Operation)
    ensures IsFetch(op) <==>
            op.Deliver? && op.to == 0
            && exists swiss, rest: Args {:trigger [Symbol(swiss)] + rest} ::
                 op.args == [Symbol("fetch")] + ([Symbol(swiss)] + rest)
  {
    if IsFetch(op) {
      var swiss, rest := op.args[1].name, op.args[2..];
      assert op.args == [Symbol("fetch")] + ([Symbol(swiss)] + rest);
    }
  }

  const FULFILL: Token := Symbol("fulfill")
  const BREAK: Token := Symbol("break")
  const ALREADY_RESOLVED: Token := Text("promise already resolved")

  /** What a delivery handler holds to reply to the delivery it is serving. */
  datatype GenericResolver = GenericResolver(answerPos: Option<U64>, resolveMe: DescImport) {
    /** The reply position is the same for an object and for a promise descriptor. */
    function Position(): U64 { resolveMe.position }

    /** A resolver at the handle's position reads it as a fulfillment with exactly these arguments. */
    function FulfillOp(args: Args, answer: Option<U64>, resolveNext: DescImport): (op: Operation)
      ensures op.Deliver? && op.to == resolveMe.position && op.answerPos == answer && op.resolveMe == resolveNext
      ensures ReadResolution(op.args) == Some(Ok(args))
    {
      Deliver(Position(), [FULFILL] + args, answer, resolveNext)
    }

    /** A broken promise is announced with op:deliver-only; its arguments say that it is broken, and why. */
    function BreakOp(error: Token): (op: Operation)
      ensures op.DeliverOnly? && op.to == resolveMe.position && |op.args| == 2
      ensures ReadResolution(op.args) == Some(Broken(error))
    {
      DeliverOnly(Position(), [BREAK, error])
    }
  }

  datatype PromiseResult = Ok(args: Args) | Broken(reason: Token)

  /** How a `Resolver` reads an incoming op:deliver: the leading symbol names the method. */
  function ReadResolution(args: Args): (r: Option<PromiseResult>)
    ensures forall x: Args :: args == [Symbol("fulfill")] + x ==> r == Some(Ok(x))
    ensures r.Some? && r.value.Ok? ==> args == [Symbol("fulfill")] + r.value.args
    ensures r.Some? && r.value.Broken? <==> |args| >= 2 && args[0] == Symbol("break")
    ensures r.Some? && r.value.Broken? ==> r.value.reason == args[1]
  {
    if |args| >= 1 && args[0] == FULFILL then Some(Ok(args[1..]))
    else if |args| >= 2 && args[0] == BREAK then Some(Broken(args[1]))
    else None
  }
}
