/**
 * Request dispatch: both Mediator.Send overloads. The configured assemblies
 * are scanned in order for candidate types, and the handler of the first
 * candidate for which the scope resolves one is invoked, once, with a fresh
 * instance of that candidate type and CancellationToken.None.
 */
module Requests {
  import opened Wrappers
  import opened Messages
  import opened Sequences

  // ---------------------------------------------------------------------
  // Candidate search
  // ---------------------------------------------------------------------

  /**
   * The candidate filter as written. `&&` binds tighter than `||`, so the
   * not-abstract and not-interface tests guard only the short-name branch.
   */
  predicate Admits(t: TypeDesc, requestName: string, ignoreNamespace: bool)
    ensures Admits(t, requestName, ignoreNamespace) ==> MessageIdentity(t, ignoreNamespace) == requestName
    ensures ignoreNamespace && Admits(t, requestName, ignoreNamespace) ==> !t.isAbstract && !t.isInterface
    ensures !ignoreNamespace ==> (Admits(t, requestName, ignoreNamespace) <==> t.fullName == requestName)
  {
    (!t.isAbstract && !t.isInterface && ignoreNamespace && t.name == requestName)
    || (!ignoreNamespace && t.fullName == requestName)
  }

  /** The grouping the layout of the filter suggests: concrete types only, in both modes. */
  predicate GuardedAdmits(t: TypeDesc, requestName: string, ignoreNamespace: bool)
  {
    !t.isAbstract && !t.isInterface
    && ((ignoreNamespace && t.name == requestName) || (!ignoreNamespace && t.fullName == requestName))
  }

  /**
   * The two groupings agree in short-name mode; in full-name mode the filter
   * as written also lets abstract types and interfaces through.
   */
  lemma PrecedenceQuirk(t: TypeDesc, requestName: string, ignoreNamespace: bool)
    ensures ignoreNamespace ==> (Admits(t, requestName, true) <==> GuardedAdmits(t, requestName, true))
    ensures Admits(t, requestName, ignoreNamespace) <==>
              GuardedAdmits(t, requestName, ignoreNamespace)
              || (!ignoreNamespace && t.fullName == requestName && (t.isAbstract || t.isInterface))
  {
  }

  /** An abstract type named like the request is a candidate in full-name mode. */
  lemma AbstractCandidateExample()
    ensures var t := TypeDesc("GetUser", "App.GetUser", true, false, false, NonGeneric);
            Admits(t, "App.GetUser", false) && !GuardedAdmits(t, "App.GetUser", false)
  {
  }

  /** The types of one assembly that pass the filter, in order (GetTypes().Where(...).ToList()). */
  function FilterAssembly(types: seq<TypeDesc>, requestName: string, ignoreNamespace: bool): (r: seq<TypeDesc>)
    ensures |r| <= |types|
    ensures forall t :: t in r <==> t in types && Admits(t, requestName, ignoreNamespace)
    ensures IsSubsequence(r, types)
  {
    if types == [] then []
    else
      var rest := FilterAssembly(types[1..], requestName, ignoreNamespace);
      if Admits(types[0], requestName, ignoreNamespace) then
        assert ([types[0]] + rest)[1..] == rest;
        [types[0]] + rest
      else
        rest
  }

  /** The candidate list: each assembly's matches appended in assembly order. */
  function Candidates(assemblies: seq<seq<TypeDesc>>, requestName: string, ignoreNamespace: bool): (r: seq<TypeDesc>)
    ensures forall t :: t in r ==> Admits(t, requestName, ignoreNamespace)
    decreases |assemblies|
  {
    if assemblies == [] then []
    else
      Candidates(assemblies[..|assemblies| - 1], requestName, ignoreNamespace)
      + FilterAssembly(assemblies[|assemblies| - 1], requestName, ignoreNamespace)
  }

  /** t is declared in one of the assemblies. */
  ghost predicate InSomeAssembly(t: TypeDesc, assemblies: seq<seq<TypeDesc>>)
  {
    exists k :: 0 <= k < |assemblies| && t in assemblies[k]
  }

  /** A type is a candidate exactly when some assembly declares it and the filter admits it. */
  lemma {:induction false} CandidatesMembership(assemblies: seq<seq<TypeDesc>>, requestName: string, ignoreNamespace: bool, t: TypeDesc)
    ensures t in Candidates(assemblies, requestName, ignoreNamespace) <==>
              InSomeAssembly(t, assemblies) && Admits(t, requestName, ignoreNamespace)
  {
    if assemblies != [] {
      var n := |assemblies| - 1;
      var prefix := assemblies[..n];
      CandidatesMembership(prefix, requestName, ignoreNamespace, t);
      if InSomeAssembly(t, assemblies) {
        var k :| 0 <= k < |assemblies| && t in assemblies[k];
        if k < n {
          assert t in prefix[k];
        }
      }
      if InSomeAssembly(t, prefix) {
        var k :| 0 <= k < |prefix| && t in prefix[k];
        assert assemblies[k] == prefix[k];
      }
    }
  }

  /**
   * Assembly order is kept: an admitted type of an earlier assembly occurs in
   * the candidate list before an admitted type of a later one.
   */
  lemma {:induction false} CandidatesKeepAssemblyOrder(assemblies: seq<seq<TypeDesc>>, requestName: string, ignoreNamespace: bool,
                                                       t: TypeDesc, u: TypeDesc, k1: nat, k2: nat)
    requires k1 < k2 < |assemblies|
    requires t in assemblies[k1] && Admits(t, requestName, ignoreNamespace)
    requires u in assemblies[k2] && Admits(u, requestName, ignoreNamespace)
    ensures exists i, j :: 0 <= i < j < |Candidates(assemblies, requestName, ignoreNamespace)| &&
                           Candidates(assemblies, requestName, ignoreNamespace)[i] == t &&
                           Candidates(assemblies, requestName, ignoreNamespace)[j] == u
  {
    var n := |assemblies| - 1;
    var prefix := assemblies[..n];
    var c := Candidates(assemblies, requestName, ignoreNamespace);
    var before := Candidates(prefix, requestName, ignoreNamespace);
    assert c == before + FilterAssembly(assemblies[n], requestName, ignoreNamespace);
    assert prefix[k1] == assemblies[k1];
    if k2 == n {
      assert t in prefix[k1];
      CandidatesMembership(prefix, requestName, ignoreNamespace, t);
      var i :| 0 <= i < |before| && before[i] == t;
      var p :| 0 <= p < |FilterAssembly(assemblies[n], requestName, ignoreNamespace)| &&
               FilterAssembly(assemblies[n], requestName, ignoreNamespace)[p] == u;
      var j := |before| + p;
      assert 0 <= i < j < |c| && c[i] == t && c[j] == u;
    } else {
      assert prefix[k2] == assemblies[k2];
      CandidatesKeepAssemblyOrder(prefix, requestName, ignoreNamespace, t, u, k1, k2);
      var i, j :| 0 <= i < j < |before| && before[i] == t && before[j] == u;
      assert c[i] == t && c[j] == u;
    }
  }

  /** In short-name mode every candidate is concrete and carries the request's bare name. */
  lemma ShortNameCandidatesAreConcrete(assemblies: seq<seq<TypeDesc>>, requestName: string, t: TypeDesc)
    requires t in Candidates(assemblies, requestName, true)
    ensures !t.isAbstract && !t.isInterface && t.name == requestName
  {
    CandidatesMembership(assemblies, requestName, true, t);
  }

  /** In full-name mode the candidates are all declared types with that full name, abstract or not. */
  lemma FullNameCandidatesIgnoreAbstractness(assemblies: seq<seq<TypeDesc>>, requestName: string, t: TypeDesc)
    ensures t in Candidates(assemblies, requestName, false) <==>
              InSomeAssembly(t, assemblies) && t.fullName == requestName
  {
    CandidatesMembership(assemblies, requestName, false, t);
  }

  /**
   * The identity used for the search lets a request's own type be found: a
   * declared type is a candidate for its own identity (in short-name mode
   * provided it is concrete).
   */
  lemma OwnTypeIsCandidate(options: Options, t: TypeDesc)
    requires InSomeAssembly(t, options.assemblies)
    requires options.ignoreNamespace ==> !t.isAbstract && !t.isInterface
    ensures t in Candidates(options.assemblies, MessageIdentity(t, options.ignoreNamespace), options.ignoreNamespace)
  {
    CandidatesMembership(options.assemblies, MessageIdentity(t, options.ignoreNamespace), options.ignoreNamespace, t);
  }

  /** The foreach over the assemblies with AddRange: builds the candidate list in place. */
  method CollectCandidates(options: Options, requestName: string) returns (requestTypes: seq<TypeDesc>)
    ensures requestTypes == Candidates(options.assemblies, requestName, options.ignoreNamespace)
    ensures forall t :: t in requestTypes <==>
              InSomeAssembly(t, options.assemblies) && Admits(t, requestName, options.ignoreNamespace)
  {
    var assemblies := options.assemblies;
    requestTypes := [];
    for i := 0 to |assemblies|
      invariant requestTypes == Candidates(assemblies[..i], requestName, options.ignoreNamespace)
    {
      assert assemblies[..i + 1][..i] == assemblies[..i];
      requestTypes := requestTypes + FilterAssembly(assemblies[i], requestName, options.ignoreNamespace);
    }
    assert assemblies[..|assemblies|] == assemblies;
    forall t ensures t in requestTypes <==>
                       InSomeAssembly(t, assemblies) && Admits(t, requestName, options.ignoreNamespace)
    {
      CandidatesMembership(assemblies, requestName, options.ignoreNamespace, t);
    }
  }

  // ---------------------------------------------------------------------
  // Invocation records
  // ---------------------------------------------------------------------

  /** One reflective HandleRequest call: which handler, on which instance, with which token. */
  datatype Invocation = Invocation(handler: HandlerId, instance: Message, token: Token)

  /** What Send<TRequest> completes with, if it does not throw. */
  datatype SendOutcome =
    | NotHandled
    | Handled(invocation: Invocation, completion: HandlerOutcome)

  /** What Send<TResponse> completes with, if it does not throw. */
  datatype TypedOutcome =
    | DefaultResponse
    | Responded(invocation: Invocation, completion: HandlerOutcome)

  // ---------------------------------------------------------------------
  // Send<TRequest>
  // ---------------------------------------------------------------------

  /** Invoke handler h for candidate t: create the instance, call HandleRequest, await it. */
  function InvokeVoid(h: HandlerId, t: TypeDesc, run: (HandlerId, Message) -> HandlerOutcome): Result<SendOutcome, Failure>
  {
    if !Instantiable(t) then Err(CannotInstantiate(t.fullName))
    else Ok(Handled(Invocation(h, DefaultInstance(t), NoneToken), run(h, DefaultInstance(t))))
  }

  /** The first-match loop over the candidates, as a function. */
  function DispatchVoid(cands: seq<TypeDesc>, resolve: TypeDesc -> Option<HandlerId>,
                        run: (HandlerId, Message) -> HandlerOutcome): (r: Result<SendOutcome, Failure>)
    ensures r.Ok? && r.value.Handled? ==>
              var inv := r.value.invocation;
              inv.instance.runtimeType in cands && resolve(inv.instance.runtimeType) == Some(inv.handler) &&
              inv.instance.fields == [] && inv.token == NoneToken && r.value.completion == run(inv.handler, inv.instance)
    ensures r.Err? ==> r.error.CannotInstantiate?
  {
    if cands == [] then Ok(NotHandled)
    else
      match resolve(cands[0])
      case Some(h) => InvokeVoid(h, cands[0], run)
      case None => DispatchVoid(cands[1..], resolve, run)
  }

  /**
   * Nothing is invoked exactly when no candidate resolves; otherwise the
   * handler of the first candidate that resolves is the one invoked, and no
   * later candidate matters.
   */
  lemma {:induction false} DispatchVoidFirstMatch(cands: seq<TypeDesc>, resolve: TypeDesc -> Option<HandlerId>,
                                                  run: (HandlerId, Message) -> HandlerOutcome)
    ensures DispatchVoid(cands, resolve, run) == Ok(NotHandled) <==>
              forall i :: 0 <= i < |cands| ==> resolve(cands[i]).None?
    ensures forall i :: 0 <= i < |cands| && resolve(cands[i]).Some? &&
                        (forall j :: 0 <= j < i ==> resolve(cands[j]).None?) ==>
                          DispatchVoid(cands, resolve, run) == InvokeVoid(resolve(cands[i]).value, cands[i], run)
  {
    if cands != [] {
      DispatchVoidFirstMatch(cands[1..], resolve, run);
      if resolve(cands[0]).None? {
        forall i | 1 <= i < |cands| ensures cands[1..][i - 1] == cands[i] {}
      }
    }
  }

  /** When only one type has a handler, and it is a candidate, that handler is the one invoked. */
  lemma {:induction false} DispatchVoidSoleHandler(cands: seq<TypeDesc>, resolve: TypeDesc -> Option<HandlerId>,
                                                   run: (HandlerId, Message) -> HandlerOutcome, t: TypeDesc, h: HandlerId)
    requires t in cands && resolve(t) == Some(h)
    requires forall u :: u in cands && u != t ==> resolve(u).None?
    ensures DispatchVoid(cands, resolve, run) == InvokeVoid(h, t, run)
  {
    if cands[0] != t {
      assert t in cands[1..];
      DispatchVoidSoleHandler(cands[1..], resolve, run, t, h);
    }
  }

  /** Send<TRequest> as a function of the mediator, the request and the handlers' behaviour. */
  function SendSpec(m: Mediator, request: Option<Message>, run: (HandlerId, Message) -> HandlerOutcome): Result<SendOutcome, Failure>
  {
    match request
    case None => Err(ArgumentNull)
    case Some(msg) =>
      var ignore := m.options.ignoreNamespace;
      DispatchVoid(Candidates(m.options.assemblies, MessageIdentity(msg.runtimeType, ignore), ignore), m.requestHandler, run)
  }

  /**
   * Send<TRequest>. A null request is rejected before any lookup. Otherwise
   * at most one handler runs: that of the first candidate that resolves, on a
   * fresh instance of the candidate and with CancellationToken.None, whatever
   * the caller passed; its exception, if any, is the caller's.
   */
  method Send(m: Mediator, request: Option<Message>, token: Option<Token>, run: (HandlerId, Message) -> HandlerOutcome)
    returns (r: Result<SendOutcome, Failure>)
    ensures r == SendSpec(m, request, run)
    ensures request.None? ==> r == Err(ArgumentNull)
    ensures r.Ok? && r.value.Handled? ==>
              r.value.invocation.token == NoneToken && r.value.invocation.instance.fields == [] &&
              m.requestHandler(r.value.invocation.instance.runtimeType) == Some(r.value.invocation.handler) &&
              r.value.completion == run(r.value.invocation.handler, r.value.invocation.instance)
  {
    if request.None? {
      return Err(ArgumentNull);
    }
    var requestName := MessageIdentity(request.value.runtimeType, m.options.ignoreNamespace);
    var requestTypes := CollectCandidates(m.options, requestName);
    var i := 0;
    while i < |requestTypes|
      invariant 0 <= i <= |requestTypes|
      invariant DispatchVoid(requestTypes, m.requestHandler, run) == DispatchVoid(requestTypes[i..], m.requestHandler, run)
    {
      var requestType := requestTypes[i];
      var handler := m.requestHandler(requestType);
      if handler.Some? {
        if !Instantiable(requestType) {
          return Err(CannotInstantiate(requestType.fullName));
        }
        var requestInstance := DefaultInstance(requestType);
        var completion := run(handler.value, requestInstance);
        return Ok(Handled(Invocation(handler.value, requestInstance, NoneToken), completion));
      }
      assert requestTypes[i..][1..] == requestTypes[i + 1..];
      i := i + 1;
    }
    return Ok(NotHandled);
  }

  /**
   * A concrete request type, declared in a scanned assembly, whose handler is
   * the only one among the candidates for its identity: Send invokes that
   * handler once, on a fresh instance of the type. Handlers of other request
   * types do not matter.
   */
  lemma SendReachesOwnHandler(m: Mediator, msg: Message, run: (HandlerId, Message) -> HandlerOutcome, h: HandlerId)
    requires InSomeAssembly(msg.runtimeType, m.options.assemblies)
    requires Instantiable(msg.runtimeType)
    requires m.requestHandler(msg.runtimeType) == Some(h)
    requires var ignore := m.options.ignoreNamespace;
             forall u :: (u in Candidates(m.options.assemblies, MessageIdentity(msg.runtimeType, ignore), ignore) &&
                          u != msg.runtimeType) ==> m.requestHandler(u).None?
    ensures SendSpec(m, Some(msg), run) ==
              Ok(Handled(Invocation(h, DefaultInstance(msg.runtimeType), NoneToken), run(h, DefaultInstance(msg.runtimeType))))
  {
    var ignore := m.options.ignoreNamespace;
    OwnTypeIsCandidate(m.options, msg.runtimeType);
    DispatchVoidSoleHandler(Candidates(m.options.assemblies, MessageIdentity(msg.runtimeType, ignore), ignore),
                            m.requestHandler, run, msg.runtimeType, h);
  }

  /**
   * In short-name mode, two request types with the same bare name in two
   * assemblies, both with handlers: sending the second one invokes the handler
   * of the first, on a fresh instance of the first type.
   */
  lemma EarlierCandidateWins(m: Mediator, a: TypeDesc, b: TypeDesc, fields: seq<int>,
                             run: (HandlerId, Message) -> HandlerOutcome, ha: HandlerId, hb: HandlerId)
    requires m.options == Options(true, [[a], [b]])
    requires a.name == b.name && a != b
    requires Instantiable(a) && Instantiable(b)
    requires m.requestHandler(a) == Some(ha) && m.requestHandler(b) == Some(hb)
    ensures SendSpec(m, Some(Message(b, fields)), run) ==
              Ok(Handled(Invocation(ha, DefaultInstance(a), NoneToken), run(ha, DefaultInstance(a))))
  {
    var assemblies := [[a], [b]];
    assert assemblies[..1] == [[a]] && [[a]][..0] == [];
    assert FilterAssembly([a], b.name, true) == [a];
    assert FilterAssembly([b], b.name, true) == [b];
    assert Candidates([[a]], b.name, true) == Candidates([], b.name, true) + [a] == [a];
    assert Candidates(assemblies, b.name, true) == Candidates([[a]], b.name, true) + [b] == [a, b];
  }

  /** With no handler for any candidate, Send completes without invoking anything. */
  lemma SendNoOpOnMiss(m: Mediator, msg: Message, run: (HandlerId, Message) -> HandlerOutcome)
    requires var ignore := m.options.ignoreNamespace;
             forall u :: u in Candidates(m.options.assemblies, MessageIdentity(msg.runtimeType, ignore), ignore) ==>
                           m.requestHandler(u).None?
    ensures SendSpec(m, Some(msg), run) == Ok(NotHandled)
  {
    var ignore := m.options.ignoreNamespace;
    DispatchVoidFirstMatch(Candidates(m.options.assemblies, MessageIdentity(msg.runtimeType, ignore), ignore),
                           m.requestHandler, run);
  }

  // ---------------------------------------------------------------------
  // Send<TResponse>
  // ---------------------------------------------------------------------

  /**
   * The loop stops at this candidate: reading its first interface fails
   * (there is none), or it yields a response type for which a handler resolves.
   */
  predicate StopsAt(t: TypeDesc, resolve: (TypeDesc, string) -> Option<HandlerId>)
  {
    t.firstInterface.NoInterfaces?
    || (t.firstInterface.GenericOf? && resolve(t, t.firstInterface.argument).Some?)
  }

  /**
   * Invoke handler h for candidate t, await its Task<response>, and coerce the
   * result into the caller's TResponse (the JSON round trip, here `coerce`).
   */
  function InvokeTyped(h: HandlerId, t: TypeDesc, run: (HandlerId, Message) -> HandlerOutcome,
                       coerce: Value -> Value): Result<TypedOutcome, Failure>
  {
    if !Instantiable(t) then Err(CannotInstantiate(t.fullName))
    else
      var instance := DefaultInstance(t);
      var completion := match run(h, instance)
        case Completed(v) => Completed(coerce(v))
        case Threw(message) => Threw(message);
      Ok(Responded(Invocation(h, instance, NoneToken), completion))
  }

  /** What happens at a candidate where the loop stops. */
  function StopResult(t: TypeDesc, resolve: (TypeDesc, string) -> Option<HandlerId>,
                      run: (HandlerId, Message) -> HandlerOutcome, coerce: Value -> Value): Result<TypedOutcome, Failure>
    requires StopsAt(t, resolve)
  {
    if t.firstInterface.NoInterfaces? then Err(NullReference)
    else InvokeTyped(resolve(t, t.firstInterface.argument).value, t, run, coerce)
  }

  /** The typed first-match loop over the candidates, as a function. */
  function DispatchTyped(cands: seq<TypeDesc>, resolve: (TypeDesc, string) -> Option<HandlerId>,
                         run: (HandlerId, Message) -> HandlerOutcome, coerce: Value -> Value): (r: Result<TypedOutcome, Failure>)
    ensures r.Ok? && r.value.Responded? ==>
              var inv := r.value.invocation;
              inv.instance.runtimeType in cands && inv.instance.fields == [] && inv.token == NoneToken
    ensures r.Err? ==> r.error.NullReference? || r.error.CannotInstantiate?
  {
    if cands == [] then Ok(DefaultResponse)
    else
      var t := cands[0];
      match t.firstInterface
      case NoInterfaces => Err(NullReference)
      case NonGeneric => DispatchTyped(cands[1..], resolve, run, coerce)
      case GenericOf(response) =>
        match resolve(t, response)
        case Some(h) => InvokeTyped(h, t, run, coerce)
        case None => DispatchTyped(cands[1..], resolve, run, coerce)
  }

  /**
   * The typed loop returns default exactly when it stops nowhere; otherwise it
   * ends at the first candidate where it stops. Candidates without a response
   * type argument are skipped.
   */
  lemma {:induction false} DispatchTypedFirstStop(cands: seq<TypeDesc>, resolve: (TypeDesc, string) -> Option<HandlerId>,
                                                  run: (HandlerId, Message) -> HandlerOutcome, coerce: Value -> Value)
    ensures DispatchTyped(cands, resolve, run, coerce) == Ok(DefaultResponse) <==>
              forall i :: 0 <= i < |cands| ==> !StopsAt(cands[i], resolve)
    ensures forall i :: 0 <= i < |cands| && StopsAt(cands[i], resolve) &&
                        (forall j :: 0 <= j < i ==> !StopsAt(cands[j], resolve)) ==>
                          DispatchTyped(cands, resolve, run, coerce) == StopResult(cands[i], resolve, run, coerce)
  {
    if cands != [] {
      DispatchTypedFirstStop(cands[1..], resolve, run, coerce);
      if !StopsAt(cands[0], resolve) {
        forall i | 1 <= i < |cands| ensures cands[1..][i - 1] == cands[i] {}
      }
    }
  }

  /** A typed invocation always goes to a candidate that declares a response type. */
  lemma {:induction false} DispatchTypedNeedsResponseType(cands: seq<TypeDesc>, resolve: (TypeDesc, string) -> Option<HandlerId>,
                                                          run: (HandlerId, Message) -> HandlerOutcome, coerce: Value -> Value)
    requires DispatchTyped(cands, resolve, run, coerce).Ok?
    requires DispatchTyped(cands, resolve, run, coerce).value.Responded?
    ensures var inv := DispatchTyped(cands, resolve, run, coerce).value.invocation;
            inv.instance.runtimeType in cands &&
            inv.instance.runtimeType.firstInterface.GenericOf? &&
            resolve(inv.instance.runtimeType, inv.instance.runtimeType.firstInterface.argument) == Some(inv.handler)
  {
    var t := cands[0];
    if t.firstInterface.NonGeneric? || (t.firstInterface.GenericOf? && resolve(t, t.firstInterface.argument).None?) {
      DispatchTypedNeedsResponseType(cands[1..], resolve, run, coerce);
    }
  }

  /** Send<TResponse> as a function of the mediator, the request and the handlers' behaviour. */
  function SendTypedSpec(m: Mediator, request: Option<Message>, run: (HandlerId, Message) -> HandlerOutcome,
                         coerce: Value -> Value): Result<TypedOutcome, Failure>
  {
    match request
    case None => Err(ArgumentNull)
    case Some(msg) =>
      var ignore := m.options.ignoreNamespace;
      DispatchTyped(Candidates(m.options.assemblies, MessageIdentity(msg.runtimeType, ignore), ignore),
                    m.responseHandler, run, coerce)
  }

  /**
   * When no candidate's (request, response) pair resolves a handler,
   * Send<TResponse> returns default, provided no candidate lacks interfaces
   * altogether.
   */
  lemma SendTypedDefaultOnMiss(m: Mediator, msg: Message, run: (HandlerId, Message) -> HandlerOutcome, coerce: Value -> Value)
    requires var ignore := m.options.ignoreNamespace;
             forall t :: t in Candidates(m.options.assemblies, MessageIdentity(msg.runtimeType, ignore), ignore) ==>
                           !t.firstInterface.NoInterfaces? &&
                           (t.firstInterface.GenericOf? ==> m.responseHandler(t, t.firstInterface.argument).None?)
    ensures SendTypedSpec(m, Some(msg), run, coerce) == Ok(DefaultResponse)
  {
    var ignore := m.options.ignoreNamespace;
    DispatchTypedFirstStop(Candidates(m.options.assemblies, MessageIdentity(msg.runtimeType, ignore), ignore),
                           m.responseHandler, run, coerce);
  }

  /**
   * Send<TResponse>. Like Send<TRequest>, but each candidate must first yield
   * a response type from its first interface (a candidate with a non-generic
   * one is skipped, one with no interface at all throws), the handler is
   * looked up for the pair, and its result is coerced; with no handler the
   * result is default.
   */
  method SendTyped(m: Mediator, request: Option<Message>, token: Option<Token>,
                   run: (HandlerId, Message) -> HandlerOutcome, coerce: Value -> Value)
    returns (r: Result<TypedOutcome, Failure>)
    ensures r == SendTypedSpec(m, request, run, coerce)
    ensures request.None? ==> r == Err(ArgumentNull)
    ensures r.Ok? && r.value.Responded? ==>
              r.value.invocation.token == NoneToken && r.value.invocation.instance.fields == [] &&
              r.value.invocation.instance.runtimeType.firstInterface.GenericOf?
  {
    if request.None? {
      return Err(ArgumentNull);
    }
    var requestName := MessageIdentity(request.value.runtimeType, m.options.ignoreNamespace);
    var requestTypes := CollectCandidates(m.options, requestName);
    var i := 0;
    while i < |requestTypes|
      invariant 0 <= i <= |requestTypes|
      invariant DispatchTyped(requestTypes, m.responseHandler, run, coerce) ==
                DispatchTyped(requestTypes[i..], m.responseHandler, run, coerce)
    {
      var requestType := requestTypes[i];
      assert requestTypes[i..][1..] == requestTypes[i + 1..];
      match requestType.firstInterface {
        case NoInterfaces =>
          return Err(NullReference);
        case NonGeneric =>
        case GenericOf(responseType) =>
          var handler := m.responseHandler(requestType, responseType);
          if handler.Some? {
            if !Instantiable(requestType) {
              return Err(CannotInstantiate(requestType.fullName));
            }
            var requestInstance := DefaultInstance(requestType);
            var completion := match run(handler.value, requestInstance)
              case Completed(result) => Completed(coerce(result))
              case Threw(message) => Threw(message);
            return Ok(Responded(Invocation(handler.value, requestInstance, NoneToken), completion));
          }
      }
      i := i + 1;
    }
    return Ok(DefaultResponse);
  }
}
