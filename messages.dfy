/**
 * The values the mediator works on: type descriptors standing in for
 * System.Type, messages, cancellation tokens, the options, the handler
 * registry, and the exceptions the dispatcher can raise.
 */
module Messages {
  import opened Wrappers

  /** An opaque handle on a handler instance resolved from the service provider. */
  type HandlerId = nat

  /** A response object, seen through its serialised form. */
  type Value = string

  /**
   * The first interface a type declares (Type.GetInterfaces().FirstOrDefault()):
   * none at all, one without generic arguments, or one whose first generic
   * argument names the response type (IRequest<TResponse>).
   */
  datatype FirstInterface = NoInterfaces | NonGeneric | GenericOf(argument: string)

  /** What the dispatcher reads from a System.Type. */
  datatype TypeDesc = TypeDesc(
    name: string,                 // Type.Name
    fullName: string,             // Type.FullName
    isAbstract: bool,
    isInterface: bool,
    hasDefaultConstructor: bool,  // Activator.CreateInstance(type) can find a parameterless constructor
    firstInterface: FirstInterface)

  /** A message instance: its runtime type and the values its fields hold. */
  datatype Message = Message(runtimeType: TypeDesc, fields: seq<int>)

  /** CancellationToken: CancellationToken.None, or a token from some cancellation source. */
  datatype Token = NoneToken | SourceToken(source: nat)

  /** LightMediatorOptions: the identity scheme and the assemblies scanned for request types. */
  datatype Options = Options(ignoreNamespace: bool, assemblies: seq<seq<TypeDesc>>)

  /** An INotificationHandler with the notification identity it declares. */
  datatype NotificationHandler = NotificationHandler(id: HandlerId, notificationName: string)

  /** How a handler's task ends: with a result (ignored for void requests) or with an exception. */
  datatype HandlerOutcome = Completed(result: Value) | Threw(message: string)

  /** Exceptions the dispatcher itself raises. */
  datatype Failure =
    | ArgumentNull                       // request == null
    | NullReference                      // a member accessed on null
    | CannotInstantiate(typeName: string) // Activator.CreateInstance rejects the type

  /**
   * The mediator. notificationHandlers is the IEnumerable<INotificationHandler>
   * captured once by the constructor; requestHandler and responseHandler are
   * scope.ServiceProvider.GetService for IRequestHandler<TRequest> and
   * IRequestHandler<TRequest, TResponse> (the response type given by name).
   */
  datatype Mediator = Mediator(
    options: Options,
    notificationHandlers: seq<NotificationHandler>,
    requestHandler: TypeDesc -> Option<HandlerId>,
    responseHandler: (TypeDesc, string) -> Option<HandlerId>)

  /**
   * The identity of a message type: its bare name in short-name mode
   * (IgnoreNamespaceInAssemblies), its namespace-qualified name otherwise.
   * Publish and both Send overloads compute it through this one function.
   */
  function MessageIdentity(t: TypeDesc, ignoreNamespace: bool): (id: string)
    ensures ignoreNamespace ==> id == t.name
    ensures !ignoreNamespace ==> id == t.fullName
  {
    if ignoreNamespace then t.name else t.fullName
  }

  /** Two types that differ only in namespace share an identity in short-name mode and only there. */
  lemma ShortNameIdentityIgnoresNamespace(s: TypeDesc, t: TypeDesc)
    requires s.name == t.name && s.fullName != t.fullName
    ensures MessageIdentity(s, true) == MessageIdentity(t, true)
    ensures MessageIdentity(s, false) != MessageIdentity(t, false)
  {
  }

  /** Activator.CreateInstance(type) succeeds: a concrete class with a parameterless constructor. */
  predicate Instantiable(t: TypeDesc)
  {
    !t.isAbstract && !t.isInterface && t.hasDefaultConstructor
  }

  /** A freshly created instance of a type: every field holds its default value. */
  function DefaultInstance(t: TypeDesc): Message
  {
    Message(t, [])
  }
}
