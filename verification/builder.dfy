/** crag-web/src/server.rs, `ServerBuilder`: collecting the routing table
    before the server starts. Binding the listener and building the thread
    pool in `finalize` are not part of this model; only its check that an
    error handler was registered is. */
module Builder {
  import opened Wrappers
  import opened Text
  import opened Requests
  import opened Responses
  import opened Handlers
  import opened Server

  datatype ServerBuilder = ServerBuilder(handlers: map<Request, Handler>, errorHandler: Option<Handler>)

  /** `Server::build`: no routes, no error handler. */
  function Build(): (b: ServerBuilder)
    ensures |b.handlers| == 0 && b.errorHandler.None?
  {
    ServerBuilder(map[], None)
  }

  /** `register_handler`: the request now routes to `h`, replacing any
      earlier entry for it; every other entry and the error handler stay. */
  function RegisterHandler(b: ServerBuilder, request: Request, h: Handler): (b': ServerBuilder)
    ensures b'.handlers.Keys == b.handlers.Keys + {request}
    ensures b'.handlers[request] == h
    ensures forall k :: k in b.handlers && k != request ==> b'.handlers[k] == b.handlers[k]
    ensures b'.errorHandler == b.errorHandler
  {
    b.(handlers := b.handlers[request := h])
  }

  /** `register_error_handler`: fails when one is already registered,
      otherwise sets it and leaves the routes alone. */
  function RegisterErrorHandler(b: ServerBuilder, h: Handler): (r: Result<ServerBuilder, Error>)
    ensures r.Failure? <==> b.errorHandler.Some?
    ensures r.Failure? ==> r.error == ErrorHandlerAlreadyRegistered
    ensures r.Success? ==> r.value.handlers == b.handlers && r.value.errorHandler == Some(h)
  {
    if b.errorHandler.Some? then Failure(ErrorHandlerAlreadyRegistered)
    else Success(b.(errorHandler := Some(h)))
  }

  /** `finalize`, without the socket and the pool: fails when no error
      handler was registered, otherwise hands over the routes and the error
      handler unchanged. */
  function Finalize(b: ServerBuilder): (r: Result<RoutingTable, Error>)
    ensures r.Failure? <==> b.errorHandler.None?
    ensures r.Failure? ==> r.error == NoErrorHandler
    ensures r.Success? ==> r.value.valid == b.handlers && Some(r.value.errorHandler) == b.errorHandler
  {
    match b.errorHandler
    case None => Failure(NoErrorHandler)
    case Some(h) => Success(RoutingTable(b.handlers, h))
  }

  /** One call of a registration chain. */
  datatype Step = OnRequest(request: Request, handler: Handler) | OnError(handler: Handler)

  /** A registration chain as a program writes it: each step applied in turn,
      the first failing `register_error_handler` ending the chain with its
      error (the `?`). */
  function Apply(b: ServerBuilder, steps: seq<Step>): Result<ServerBuilder, Error>
    decreases |steps|
  {
    if |steps| == 0 then Success(b)
    else
      match steps[0]
      case OnRequest(request, h) => Apply(RegisterHandler(b, request, h), steps[1..])
      case OnError(h) =>
        match RegisterErrorHandler(b, h)
        case Failure(e) => Failure(e)
        case Success(b') => Apply(b', steps[1..])
  }

  function ErrorRegistrations(steps: seq<Step>): nat
    decreases |steps|
  {
    if |steps| == 0 then 0
    else (if steps[0].OnError? then 1 else 0) + ErrorRegistrations(steps[1..])
  }

  function Lookup(m: map<Request, Handler>, k: Request): Option<Handler> {
    if k in m then Some(m[k]) else None
  }

  /** The handler of the last step registering `k`, if any. */
  function LastRegistered(steps: seq<Step>, k: Request): Option<Handler>
    decreases |steps|
  {
    if |steps| == 0 then None
    else
      var last := steps[|steps| - 1];
      if last.OnRequest? && last.request == k then Some(last.handler)
      else LastRegistered(steps[..|steps| - 1], k)
  }

  function ErrorCount(b: ServerBuilder): nat {
    if b.errorHandler.Some? then 1 else 0
  }

  /** A chain fails exactly when it would register a second error handler,
      and then with `Error handler already registered`; on success the
      builder holds an error handler exactly when one was registered. */
  lemma {:induction false} ApplySucceedsIff(b: ServerBuilder, steps: seq<Step>)
    ensures Apply(b, steps).Success? <==> ErrorCount(b) + ErrorRegistrations(steps) <= 1
    ensures Apply(b, steps).Failure? ==> Apply(b, steps).error == ErrorHandlerAlreadyRegistered
    ensures Apply(b, steps).Success? ==>
      (Apply(b, steps).value.errorHandler.Some? <==> ErrorCount(b) + ErrorRegistrations(steps) == 1)
    decreases |steps|
  {
    if |steps| > 0 {
      match steps[0]
      case OnRequest(request, h) =>
        ApplySucceedsIff(RegisterHandler(b, request, h), steps[1..]);
      case OnError(h) =>
        if b.errorHandler.None? {
          ApplySucceedsIff(RegisterErrorHandler(b, h).value, steps[1..]);
        }
    }
  }

  lemma {:induction false} ApplyAppend(b: ServerBuilder, steps: seq<Step>, last: Step)
    ensures Apply(b, steps + [last]) ==
      match Apply(b, steps)
      case Failure(e) => Failure(e)
      case Success(b') => Apply(b', [last])
    decreases |steps|
  {
    if |steps| == 0 {
      assert steps + [last] == [last];
    } else {
      assert (steps + [last])[1..] == steps[1..] + [last];
      match steps[0]
      case OnRequest(request, h) =>
        ApplyAppend(RegisterHandler(b, request, h), steps[1..], last);
      case OnError(h) =>
        if b.errorHandler.None? {
          ApplyAppend(RegisterErrorHandler(b, h).value, steps[1..], last);
        }
    }
  }

  /** The last registration for a request wins; a request nobody registered
      keeps whatever the builder held before. */
  lemma {:induction false} ApplyLastWins(b: ServerBuilder, steps: seq<Step>, k: Request)
    requires Apply(b, steps).Success?
    ensures Lookup(Apply(b, steps).value.handlers, k) ==
      match LastRegistered(steps, k)
      case Some(h) => Some(h)
      case None => Lookup(b.handlers, k)
    decreases |steps|
  {
    if |steps| > 0 {
      var init, last := steps[..|steps| - 1], steps[|steps| - 1];
      assert steps == init + [last];
      ApplyAppend(b, init, last);
      ApplyLastWins(b, init, k);
      assert [last][1..] == [];
    }
  }

  /** Finalizing a chain started from `build` succeeds exactly when it
      registers one error handler: none fails `finalize`, two fail the
      chain. */
  lemma FinalizeAfterChain(steps: seq<Step>)
    ensures var r := Apply(Build(), steps);
      (r.Success? && Finalize(r.value).Success?) <==> ErrorRegistrations(steps) == 1
  {
    ApplySucceedsIff(Build(), steps);
  }

  /** The source's builder tests, with the greeting handler `Hello`: with
      an error handler the chain finalizes; without one, `finalize` fails. */
  lemma BuilderExamples()
    ensures RegisterErrorHandler(RegisterHandler(Build(), GET("/"), Hello), Default404Handler).Success?
    ensures Finalize(RegisterErrorHandler(RegisterHandler(Build(), GET("/"), Hello), Default404Handler).value).Success?
    ensures Finalize(RegisterHandler(Build(), GET("/"), Hello)) == Failure(NoErrorHandler)
  {
  }

  /** The test chain finalizes to exactly `HelloTable`. */
  lemma HelloTableBuilt()
    ensures Finalize(RegisterErrorHandler(RegisterHandler(Build(), GET("/"), Hello), Default404Handler).value) ==
      Success(HelloTable())
  {
  }
}
