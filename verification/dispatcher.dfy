/** The serverless entry point: picks one handler per deployment by name, or the preflight handler. */
module LambdaDispatcher {
  import opened Js
  import opened Envelope

  /** The handlers a name can select; `Delete` is a handler outside this model. */
  datatype Target = Create | List | Get | Update | Delete | Options

  /** What the dispatcher does with a request: run a handler, or answer directly. */
  datatype Dispatched = Run(target: Target) | Answer(response: Response)

  /**
   * `(HANDLER_NAME || AWS_LAMBDA_FUNCTION_NAME || 'get').toLowerCase()`;
   * an unset variable is the empty string.
   */
  function HandlerName(handlerName: string, functionName: string): string
  {
    AsciiLower(if handlerName != "" then handlerName else if functionName != "" then functionName else "get")
  }

  /** The `case` labels of each branch of the `switch`. */
  function Aliases(t: Target): set<string>
  {
    match t
    case Create => {"create", "createclothing", "addclothing"}
    case List => {"list", "getall", "getallclothing"}
    case Get => {"get", "getitem", "getclothing"}
    case Update => {"update", "updateclothing"}
    case Delete => {"delete", "remove", "deleteclothing"}
    case Options => {"options"}
  }

  /** The `switch (which)`: the branch whose labels include the name, if any. */
  function Route(which: string): Outcomes.Option<Target>
  {
    if which in Aliases(Create) then Outcomes.Some(Create)
    else if which in Aliases(List) then Outcomes.Some(List)
    else if which in Aliases(Get) then Outcomes.Some(Get)
    else if which in Aliases(Update) then Outcomes.Some(Update)
    else if which in Aliases(Delete) then Outcomes.Some(Delete)
    else if which in Aliases(Options) then Outcomes.Some(Options)
    else Outcomes.None
  }

  /** The dispatcher's `handler`: a preflight request first, then the configured name. */
  function Dispatch(httpMethod: string, contextMethod: string, which: string): Dispatched
  {
    if httpMethod == "OPTIONS" || contextMethod == "OPTIONS" then Run(Options)
    else
      match Route(which)
      case Some(t) => Run(t)
      case None => Answer(Response(500, Failure("Unknown handler " + which)))
  }

  /** No name belongs to two branches, so the order of the `case` labels does not matter. */
  lemma AliasesDisjoint(s: Target, t: Target)
    requires s != t
    ensures Aliases(s) * Aliases(t) == {}
  {
  }

  /** A name selects a handler exactly when it is one of that handler's labels. */
  lemma RouteExact(which: string, t: Target)
    ensures Route(which) == Outcomes.Some(t) <==> which in Aliases(t)
  {
  }

  /** A preflight request, signalled by either method field, goes to the options handler whatever the name. */
  lemma PreflightFirst(httpMethod: string, contextMethod: string, which: string)
    requires httpMethod == "OPTIONS" || contextMethod == "OPTIONS"
    ensures Dispatch(httpMethod, contextMethod, which) == Run(Options)
  {
  }

  /** Otherwise a name that is no label is answered with 500 "Unknown handler <name>", and a label runs its handler. */
  lemma NameDecides(httpMethod: string, contextMethod: string, which: string)
    requires httpMethod != "OPTIONS" && contextMethod != "OPTIONS"
    ensures (forall t :: which !in Aliases(t)) ==>
      Dispatch(httpMethod, contextMethod, which) == Answer(Response(500, Failure("Unknown handler " + which)))
    ensures forall t :: which in Aliases(t) ==> Dispatch(httpMethod, contextMethod, which) == Run(t)
  {
    if forall t :: which !in Aliases(t) {
      assert Route(which) == Outcomes.None by {
        assert which !in Aliases(Create) && which !in Aliases(List) && which !in Aliases(Get);
        assert which !in Aliases(Update) && which !in Aliases(Delete) && which !in Aliases(Options);
      }
    }
  }

  /**
   * The name comes from `HANDLER_NAME`, else `AWS_LAMBDA_FUNCTION_NAME`,
   * else "get", and its letter case never matters: with neither variable
   * set the get handler runs, and "CreateClothing" selects create.
   */
  lemma NameResolution(handlerName: string, functionName: string)
    ensures handlerName != "" ==> HandlerName(handlerName, functionName) == AsciiLower(handlerName)
    ensures handlerName == "" && functionName != "" ==> HandlerName(handlerName, functionName) == AsciiLower(functionName)
    ensures HandlerName(AsciiLower(handlerName), AsciiLower(functionName)) == HandlerName(handlerName, functionName)
    ensures Route(HandlerName("", "")) == Outcomes.Some(Get)
    ensures Route(HandlerName("CreateClothing", functionName)) == Outcomes.Some(Create)
  {
    AsciiLowerIdempotent(handlerName);
    AsciiLowerIdempotent(functionName);
    assert AsciiLower("get") == "get";
    assert AsciiLower("CreateClothing") == "createclothing";
  }

  /** Names that differ only in the case of ASCII letters select the same handler. */
  lemma {:induction false} NameIgnoresCase(handlerName: string, other: string, functionName: string)
    requires |other| == |handlerName|
    requires forall i :: 0 <= i < |other| ==> AsciiLowerChar(other[i]) == AsciiLowerChar(handlerName[i])
    ensures HandlerName(other, functionName) == HandlerName(handlerName, functionName)
    ensures Route(HandlerName(other, functionName)) == Route(HandlerName(handlerName, functionName))
  {
    if handlerName != "" {
      assert AsciiLower(other) == AsciiLower(handlerName);
    }
  }
}
