# LightMediator dispatch engine, in Dafny

A model of the dispatch-selection engine of LightMediator's `Mediator` class
(`src/LightMediator/Implementation/Mediator.cs`): how a message type becomes an
identity string, which notification handlers `Publish` schedules, how both
`Send` overloads search the configured assemblies for candidate request types,
and which handler, if any, they invoke.

Files:

- `wrappers.dfy` — `Option` (a nullable value) and `Result` (a value or an exception).
- `sequences.dfy` — `IsSubsequence`: a selection that keeps the original order, shared by both filters.
- `ordinal.dfy` — ordinal case-insensitive string equality over ASCII letters, and its
  agreement with comparing case-folded strings.
- `messages.dfy` — type descriptors (what the engine reads from `System.Type`), messages,
  cancellation tokens, options, the mediator value, and `MessageIdentity`.
- `notifications.dfy` — `Publish`: the case-insensitive handler filter, the scheduling
  loop, and the try/catch guard around each scheduled run.
- `requests.dfy` — the candidate filter and the assembly scan, `Send<TRequest>` (`Send`)
  and `Send<TResponse>` (`SendTyped`), each a method with loops proved equal to a
  specification function, and the lemmas about those functions.

Reflection, dependency injection and task scheduling are plain inputs:

- A `System.Type` is a `TypeDesc` record: name, full name, abstract and interface flags,
  whether it has a parameterless constructor, and its first interface with its first
  generic argument, if any.
- An assembly is a `seq<TypeDesc>`.
- The mediator is an immutable value. Its `notificationHandlers` is the sequence the
  constructor captures once from `GetServices<INotificationHandler>()`. The scoped
  `GetService` lookups for `IRequestHandler<T>` and `IRequestHandler<T, R>` are two
  function-typed fields returning an optional handler id.
- What a handler does when called is a function parameter `run` giving its outcome: a
  result or an exception. The JSON round trip that turns a typed result into
  `TResponse` is a function parameter `coerce`.
- A `null` argument is `None` in an `Option`.

Behaviour of the code that the model keeps:

- The candidate filter is modelled as written (`Requests.Admits`). `&&` binds tighter
  than `||`, so the not-abstract and not-interface tests guard only the short-name
  branch. In full-name mode an abstract type or an interface whose full name equals the
  identity is a candidate. `Requests.GuardedAdmits` is the grouping the layout of the
  filter suggests, and `Requests.PrecedenceQuirk` states exactly where the two differ.
- Candidate names are compared exactly. Notification names are compared ignoring case.
- The handler of a request receives a fresh default instance of the candidate type,
  never the caller's object. It also receives `CancellationToken.None`, whatever token
  the caller passed. `Publish` forwards the caller's notification and token unchanged.
- Exceptions the code raises itself are modelled as `Err` results:
  - a null request raises `ArgumentNullException` before any lookup;
  - a null notification fails in `GetType()`;
  - in `Send<TResponse>`, a candidate with no interfaces at all makes
    `GetInterfaces().FirstOrDefault()` null, so the next call throws;
  - `Activator.CreateInstance` fails on an abstract type, an interface, or a type
    without a parameterless constructor.
- A request handler's exception reaches the caller (`completion` is `Threw`). A
  notification handler's exception is logged and absorbed.

## Model

| member | source | states |
|---|---|---|
| `Messages.MessageIdentity` | src/LightMediator/Implementation/Mediator.cs:22-24 | the identity is the bare `Name` when `IgnoreNamespaceInAssemblies` is set and `FullName` otherwise; `Publish` and both `Send` overloads use this one function |
| `Messages.ShortNameIdentityIgnoresNamespace` | src/LightMediator/Implementation/Mediator.cs:52-54 | two types that differ only in namespace share an identity in short-name mode and get distinct identities in full-name mode |
| `Ordinal.EqualsIgnoreCase` | src/LightMediator/Implementation/Mediator.cs:27 | names compared ignoring case have equal length, and every name equals itself ignoring case |
| `Ordinal.EqualsIgnoreCaseIffFoldedEqual` | src/LightMediator/Implementation/Mediator.cs:27 | the char-wise case-insensitive comparison holds exactly when the two case-folded strings are equal |
| `Ordinal.EqualsIgnoreCaseIsEquivalence` | src/LightMediator/Implementation/Mediator.cs:27 | comparing names ignoring case is reflexive, symmetric and transitive |
| `Ordinal.FoldCaseMatchesLetterPairs` | src/LightMediator/Implementation/Mediator.cs:27 | two characters compare equal ignoring case exactly when they are equal or are the upper- and lower-case forms of one ASCII letter |
| `Ordinal.MixedCaseExample` | src/LightMediator/Implementation/Mediator.cs:27 | a handler name "Ping" matches the identity "pING" |
| `Notifications.MatchingHandlers` | src/LightMediator/Implementation/Mediator.cs:26-28 | a captured handler is among the matches exactly when its `NotificationName` equals the event name ignoring case; no more matches than handlers |
| `Notifications.MatchingHandlersCounts` | src/LightMediator/Implementation/Mediator.cs:26-28 | each matching handler appears as often as it was registered, each other handler never |
| `Notifications.MatchingHandlersKeepOrder` | src/LightMediator/Implementation/Mediator.cs:26-28 | the matches are a subsequence of the captured handlers, in their order |
| `Notifications.PingPongExample` | src/LightMediator/Implementation/Mediator.cs:26-28 | with handlers for "Ping" and "Pong", publishing a `Ping` selects only the "Ping" handler |
| `Notifications.Publish` | src/LightMediator/Implementation/Mediator.cs:20-45 | a null notification fails; otherwise one run is scheduled per matching handler, in order, carrying the caller's notification and token, and the call completes even with no match |
| `Notifications.Guarded` | src/LightMediator/Implementation/Mediator.cs:34-41 | a guarded run always completes, and logs a line exactly when its handler throws |
| `Notifications.RunAll` | src/LightMediator/Implementation/Mediator.cs:30-43 | there is one guarded run per scheduled run, in order, each the guarded outcome of that handler on the caller's notification, and each completes |
| `Notifications.FailuresAreAbsorbed` | src/LightMediator/Implementation/Mediator.cs:30-43 | whatever the handlers do, every scheduled run completes; there is one log line per failing handler, and each line names the message of a failing handler |
| `Requests.Admits` | src/LightMediator/Implementation/Mediator.cs:62-67 | an admitted type carries the request's identity; in short-name mode it is neither abstract nor an interface; in full-name mode a type is admitted exactly when its full name is the identity, abstract or not |
| `Requests.PrecedenceQuirk` | src/LightMediator/Implementation/Mediator.cs:62-67 | the filter as written agrees with the concrete-only grouping in short-name mode; in full-name mode it also admits abstract types and interfaces with the right full name, and nothing else |
| `Requests.AbstractCandidateExample` | src/LightMediator/Implementation/Mediator.cs:62-67 | an abstract type whose full name is the identity is admitted in full-name mode, though the concrete-only grouping would reject it |
| `Requests.FilterAssembly` | src/LightMediator/Implementation/Mediator.cs:61-68 | a type of one assembly is kept exactly when the filter admits it, and the kept types are a subsequence of the assembly's types, in their order |
| `Requests.Candidates` | src/LightMediator/Implementation/Mediator.cs:56-69 | every candidate is admitted by the filter |
| `Requests.CandidatesMembership` | src/LightMediator/Implementation/Mediator.cs:58-69 | a type is a candidate exactly when some configured assembly declares it and the filter admits it |
| `Requests.CandidatesKeepAssemblyOrder` | src/LightMediator/Implementation/Mediator.cs:58-69 | an admitted type of an earlier assembly occurs in the candidate list before an admitted type of a later assembly |
| `Requests.ShortNameCandidatesAreConcrete` | src/LightMediator/Implementation/Mediator.cs:62-65 | in short-name mode every candidate is neither abstract nor an interface and has the request's bare name |
| `Requests.FullNameCandidatesIgnoreAbstractness` | src/LightMediator/Implementation/Mediator.cs:66-67 | in full-name mode the candidates are exactly the declared types with the request's full name, abstract or not |
| `Requests.OwnTypeIsCandidate` | src/LightMediator/Implementation/Mediator.cs:52-67 | a declared request type is a candidate for its own identity (in short-name mode when it is concrete) |
| `Requests.CollectCandidates` | src/LightMediator/Implementation/Mediator.cs:56-69 | the in-place `AddRange` loop builds the per-assembly matches concatenated in assembly order; membership as above |
| `Requests.DispatchVoid` | src/LightMediator/Implementation/Mediator.cs:71-90 | an invoked handler is the one resolved for a candidate, called on a fresh default instance of it with `CancellationToken.None`, and its completion is the result; the only exception the loop itself raises is the failed instantiation |
| `Requests.DispatchVoidFirstMatch` | src/LightMediator/Implementation/Mediator.cs:71-90 | nothing is invoked exactly when no candidate resolves a handler; otherwise the outcome is the invocation of the first candidate that resolves one |
| `Requests.DispatchVoidSoleHandler` | src/LightMediator/Implementation/Mediator.cs:71-88 | if a candidate has a handler and no other candidate has one, that handler is the one invoked, whatever other types outside the candidates resolve |
| `Requests.SendReachesOwnHandler` | src/LightMediator/Implementation/Mediator.cs:47-88 | a concrete declared request type whose handler is the only one among the candidates for its identity gets that handler invoked once, on a fresh instance, with `CancellationToken.None` |
| `Requests.EarlierCandidateWins` | src/LightMediator/Implementation/Mediator.cs:58-88 | in short-name mode, with two same-named request types in two assemblies, both with handlers, sending the second invokes the handler of the first, on a fresh instance of the first |
| `Requests.SendNoOpOnMiss` | src/LightMediator/Implementation/Mediator.cs:71-91 | when no candidate resolves a handler, `Send<TRequest>` completes without invoking anything, whatever other request types resolve |
| `Requests.Send` | src/LightMediator/Implementation/Mediator.cs:47-91 | a null request fails with `ArgumentNull`; otherwise the result is the first-match dispatch over the candidates; an invoked handler is the one resolved for its instance's type, receives a fresh default instance and `CancellationToken.None`, and its completion is returned to the caller |
| `Requests.DispatchTyped` | src/LightMediator/Implementation/Mediator.cs:117-143 | an invoked handler gets a fresh default instance of a candidate and `CancellationToken.None`; the only exceptions the loop itself raises are the null first interface and the failed instantiation |
| `Requests.DispatchTypedFirstStop` | src/LightMediator/Implementation/Mediator.cs:117-143 | the typed loop returns default exactly when no candidate stops it; otherwise the result is fixed by the first candidate that lacks interfaces (throws) or whose response type resolves a handler; candidates without a response type are skipped |
| `Requests.DispatchTypedNeedsResponseType` | src/LightMediator/Implementation/Mediator.cs:119-125 | a typed invocation goes to a candidate that declares a response type, through the handler resolved for that (request, response) pair |
| `Requests.SendTypedDefaultOnMiss` | src/LightMediator/Implementation/Mediator.cs:117-143 | when every candidate declares some interface and no candidate's (request, response) pair resolves a handler, `Send<TResponse>` returns default, whatever other pairs resolve |
| `Requests.SendTyped` | src/LightMediator/Implementation/Mediator.cs:93-144 | a null request fails with `ArgumentNull`; otherwise the result is the typed first-match dispatch; an invoked handler receives a fresh default instance and `CancellationToken.None`, and only a candidate with a response type argument is invoked |

## Left out

- Scheduling with `Task.Run` and parallel execution of notification handlers: concurrency. The model records which runs are scheduled, not when they run or finish.
- `ILogger.LogError`: I/O. A log line is a value in the guarded run's result.
- Reflection (`GetTypes`, `MakeGenericType`, `GetMethod`, `Invoke`, `Activator.CreateInstance`, `ConvertToGenericTask`): foreign runtime calls, replaced by type descriptors and handler ids. `MakeGenericType` failing on a generic constraint is not modelled. `GetInterfaces` order is taken from the descriptor.
- The null check on `Activator.CreateInstance`'s result (Mediator.cs:82-83 and 131-132): it cannot return null for a class type, so that path is not modelled.
- Handler exceptions wrapped by reflection (`TargetInvocationException`): a handler's exception is modelled as reaching the caller as is.
- DI scope creation and disposal: external library. `GetService` is a pure lookup, and `GetServices` is the captured handler sequence.
- The JSON round trip of typed responses: external library, modelled as the opaque `coerce` parameter.
- The `_mediatorOptions` argument passed to every handler: handlers are opaque, so the model does not record it.
- A null `Name`, `FullName` or `NotificationName`: strings are never null here.
- Full Unicode ordinal-ignore-case comparison: only ASCII letters fold.
- FinalService/Program.cs is not part of this model: host bootstrap and service registration with no dispatch logic.
