/**
 * Notification fan-out: Mediator.Publish. The handlers captured at
 * construction are filtered by case-insensitive identity, and each match is
 * scheduled once, in order, inside a guard that absorbs and logs its failure.
 */
module Notifications {
  import opened Wrappers
  import opened Messages
  import opened Ordinal
  import opened Sequences

  /** The handlers whose declared name equals the event name ignoring case (Where(...).ToList()). */
  function MatchingHandlers(handlers: seq<NotificationHandler>, eventName: string): (r: seq<NotificationHandler>)
    ensures |r| <= |handlers|
    ensures forall h :: h in r <==> h in handlers && EqualsIgnoreCase(h.notificationName, eventName)
  {
    if handlers == [] then []
    else
      (if EqualsIgnoreCase(handlers[0].notificationName, eventName) then [handlers[0]] else [])
      + MatchingHandlers(handlers[1..], eventName)
  }

  /** Each matching handler is kept as many times as it is registered; every other handler is dropped. */
  lemma {:induction false} MatchingHandlersCounts(handlers: seq<NotificationHandler>, eventName: string)
    ensures forall h ::
              multiset(MatchingHandlers(handlers, eventName))[h] ==
              if EqualsIgnoreCase(h.notificationName, eventName) then multiset(handlers)[h] else 0
  {
    if handlers != [] {
      MatchingHandlersCounts(handlers[1..], eventName);
      assert handlers == [handlers[0]] + handlers[1..];
    }
  }

  /** The matches keep the order of the captured handler sequence. */
  lemma {:induction false} MatchingHandlersKeepOrder(handlers: seq<NotificationHandler>, eventName: string)
    ensures IsSubsequence(MatchingHandlers(handlers, eventName), handlers)
  {
    if handlers != [] {
      MatchingHandlersKeepOrder(handlers[1..], eventName);
      var r := MatchingHandlers(handlers, eventName);
      var rest := MatchingHandlers(handlers[1..], eventName);
      if EqualsIgnoreCase(handlers[0].notificationName, eventName) {
        assert r[0] == handlers[0] && r[1..] == rest;
      } else {
        assert r == rest;
      }
    }
  }

  /** One fire-and-forget Task.Run: the handler, the caller's own notification, the caller's token. */
  datatype ScheduledRun = ScheduledRun(handler: HandlerId, notification: Message, token: Option<Token>)

  /**
   * Publish. A null notification fails on GetType(); otherwise the call
   * schedules one run per matching handler, in order, and returns a completed
   * task whether or not anything matched.
   */
  method Publish(m: Mediator, notification: Option<Message>, token: Option<Token>)
    returns (r: Result<seq<ScheduledRun>, Failure>)
    ensures notification.None? ==> r == Err(NullReference)
    ensures notification.Some? ==>
      var matching := MatchingHandlers(m.notificationHandlers,
        MessageIdentity(notification.value.runtimeType, m.options.ignoreNamespace));
      r.Ok? && |r.value| == |matching| &&
      forall i :: 0 <= i < |matching| ==>
        r.value[i] == ScheduledRun(matching[i].id, notification.value, token)
  {
    if notification.None? {
      return Err(NullReference);
    }
    var n := notification.value;
    var eventName := MessageIdentity(n.runtimeType, m.options.ignoreNamespace);
    var matchingHandlers := MatchingHandlers(m.notificationHandlers, eventName);
    var scheduled: seq<ScheduledRun> := [];
    for i := 0 to |matchingHandlers|
      invariant |scheduled| == i
      invariant forall k :: 0 <= k < i ==> scheduled[k] == ScheduledRun(matchingHandlers[k].id, n, token)
    {
      scheduled := scheduled + [ScheduledRun(matchingHandlers[i].id, n, token)];
    }
    return Ok(scheduled);
  }

  /** The text of the log line written for a failed handler. */
  function ErrorLogLine(message: string): string
  {
    "Error in handler: " + message
  }

  /** Status of a scheduled task once it has run. */
  datatype TaskStatus = RanToCompletion | Faulted(message: string)

  /** How a guarded run ends: its task status and what it logged. */
  datatype GuardedRun = GuardedRun(status: TaskStatus, logged: Option<string>)

  /** A handler run inside try/catch: an exception is logged and the task still completes. */
  function Guarded(outcome: HandlerOutcome): (g: GuardedRun)
    ensures g.status == RanToCompletion
    ensures g.logged.Some? <==> outcome.Threw?
  {
    match outcome
    case Completed(_) => GuardedRun(RanToCompletion, None)
    case Threw(message) => GuardedRun(RanToCompletion, Some(ErrorLogLine(message)))
  }

  /**
   * The guarded runs of the scheduled handlers, given how each handler
   * behaves: one per scheduled run, each completing.
   */
  function RunAll(runs: seq<ScheduledRun>, behaviour: (HandlerId, Message) -> HandlerOutcome): (gs: seq<GuardedRun>)
    ensures |gs| == |runs|
    ensures forall i :: 0 <= i < |runs| ==>
              gs[i] == Guarded(behaviour(runs[i].handler, runs[i].notification)) && gs[i].status == RanToCompletion
  {
    if runs == [] then []
    else [Guarded(behaviour(runs[0].handler, runs[0].notification))] + RunAll(runs[1..], behaviour)
  }

  /** The number of scheduled handlers that throw. */
  function FailureCount(runs: seq<ScheduledRun>, behaviour: (HandlerId, Message) -> HandlerOutcome): nat
  {
    if runs == [] then 0
    else
      (if behaviour(runs[0].handler, runs[0].notification).Threw? then 1 else 0)
      + FailureCount(runs[1..], behaviour)
  }

  /** The log lines the guarded runs wrote. */
  function LogLines(gs: seq<GuardedRun>): seq<string>
  {
    if gs == [] then []
    else (if gs[0].logged.Some? then [gs[0].logged.value] else []) + LogLines(gs[1..])
  }

  /**
   * No handler failure reaches anyone: every run completes, and each failing
   * handler leaves exactly one log line, naming its exception's message.
   */
  lemma {:induction false} FailuresAreAbsorbed(runs: seq<ScheduledRun>, behaviour: (HandlerId, Message) -> HandlerOutcome)
    ensures forall g :: g in RunAll(runs, behaviour) ==> g.status == RanToCompletion
    ensures |LogLines(RunAll(runs, behaviour))| == FailureCount(runs, behaviour)
    ensures forall line :: line in LogLines(RunAll(runs, behaviour)) ==>
              exists i :: (0 <= i < |runs| && behaviour(runs[i].handler, runs[i].notification).Threw? &&
                           line == ErrorLogLine(behaviour(runs[i].handler, runs[i].notification).message))
  {
    if runs != [] {
      FailuresAreAbsorbed(runs[1..], behaviour);
      var gs := RunAll(runs, behaviour);
      assert gs[1..] == RunAll(runs[1..], behaviour);
      forall line | line in LogLines(gs)
        ensures exists i :: (0 <= i < |runs| && behaviour(runs[i].handler, runs[i].notification).Threw? &&
                             line == ErrorLogLine(behaviour(runs[i].handler, runs[i].notification).message))
      {
        if gs[0].logged.Some? && line == gs[0].logged.value {
        } else {
          assert line in LogLines(gs[1..]);
          var i :| 0 <= i < |runs[1..]| && behaviour(runs[1..][i].handler, runs[1..][i].notification).Threw? &&
            line == ErrorLogLine(behaviour(runs[1..][i].handler, runs[1..][i].notification).message);
          assert runs[1..][i] == runs[i + 1];
        }
      }
    }
  }

  /** Handlers registered for "Ping" and "Pong": publishing a Ping schedules only the first. */
  lemma PingPongExample(ping: TypeDesc, m: Mediator)
    requires ping.name == "Ping"
    requires m.options.ignoreNamespace
    requires m.notificationHandlers == [NotificationHandler(1, "Ping"), NotificationHandler(2, "Pong")]
    ensures MatchingHandlers(m.notificationHandlers, MessageIdentity(ping, true)) == [NotificationHandler(1, "Ping")]
  {
  }
}
