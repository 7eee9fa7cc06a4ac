/** The `Logger` class: a named logger that writes every call to its local
    log, keeps its level (the default one, or trace while an override is
    active), and forwards errors and fatal errors to an error tracker once
    error reporting has been set up, at most MAX_ERRORS errors per window. */
module LoggingManager {
  import opened JsStrings
  import opened JsValues
  import RateLimit
  import LevelControl
  import ErrorCapture

  /** The logging methods a logger offers, in the order the logger lists
      them. */
  datatype LogMethod = Debug | Info | Log | Error | Err | Warn | Fatal

  /** The severities the local log records carry. */
  datatype Severity = Debug | Info | Warn | Error | Fatal

  function MethodName(m: LogMethod): string {
    match m
    case Debug => "debug"
    case Info => "info"
    case Log => "log"
    case Error => "error"
    case Err => "err"
    case Warn => "warn"
    case Fatal => "fatal"
  }

  function SeverityName(s: Severity): string {
    match s
    case Debug => "debug"
    case Info => "info"
    case Warn => "warn"
    case Error => "error"
    case Fatal => "fatal"
  }

  /** The severity at which a logging method writes to the local log: its own
      name, except that `log` writes at info and `err` is `error`. */
  function Route(m: LogMethod): (s: Severity)
    ensures m != LogMethod.Log && m != LogMethod.Err ==> SeverityName(s) == MethodName(m)
    ensures m == LogMethod.Log ==> s == Severity.Info
    ensures m == LogMethod.Err ==> s == Severity.Error
  {
    match m
    case Debug => Severity.Debug
    case Info => Severity.Info
    case Log => Severity.Info
    case Error => Severity.Error
    case Err => Severity.Error
    case Warn => Severity.Warn
    case Fatal => Severity.Fatal
  }

  /** Every severity is written by some method, and two methods share one
      only when they are `log` and `info` or `err` and `error`. */
  lemma RouteCoversSeverities(s: Severity, m1: LogMethod, m2: LogMethod)
    ensures exists m :: Route(m) == s
    ensures Route(m1) == Route(m2) && m1 != m2 ==>
      {m1, m2} == {LogMethod.Log, LogMethod.Info} || {m1, m2} == {LogMethod.Err, LogMethod.Error}
  {
    match s
    case Debug => assert Route(LogMethod.Debug) == s;
    case Info => assert Route(LogMethod.Info) == s;
    case Warn => assert Route(LogMethod.Warn) == s;
    case Error => assert Route(LogMethod.Error) == s;
    case Fatal => assert Route(LogMethod.Fatal) == s;
  }

  /** A record written to the local log. */
  datatype LogCall = LogCall(severity: Severity, args: seq<Value>)

  /** What becomes of the callback given to `fatal`. */
  datatype CallbackFate =
    /** Called before `fatal` returns: no error tracker is set up. */
    | CalledNow
    /** Left to the error tracker's client's `logged` and `error` events.
        The model follows the guarded reading, CallbackCalls: one call, at
        the first such event. As written the two listeners can call it twice
        (CallbackCallsAsWritten). */
    | OnClientEvent
    /** Never called: the capture threw before the callback was handed over. */
    | NeverCalled

  /** The completion events the error tracker's client emits after `fatal`
      has handed it the callback, in order. */
  datatype ClientEvent = Logged | Failed

  /** The callback handed over by `fatal` as written: one `once` listener
      per event kind, both holding the same wrapper, so each kind calls the
      callback at its first occurrence; the wrapper's reassignment of its own
      variable does not reach the listeners. Returns the number of calls. */
  function CallbackCallsAsWritten(events: seq<ClientEvent>): (calls: nat)
    ensures calls <= 2
  {
    (if Logged in events then 1 else 0) + (if Failed in events then 1 else 0)
  }

  /** The listeners of the handed-over callback behind a one-shot guard
      shared by both: pending listeners and whether the callback has run. */
  datatype OneShot = OneShot(loggedPending: bool, failedPending: bool, called: bool)

  /** One event: a pending listener of that kind fires once and is removed;
      the guard lets only the first firing call the callback. */
  function OneShotStep(st: OneShot, e: ClientEvent): OneShot {
    match e
    case Logged => if st.loggedPending then OneShot(false, st.failedPending, true) else st
    case Failed => if st.failedPending then OneShot(st.loggedPending, false, true) else st
  }

  /** Number of callback calls for the events, from state `st`. */
  function OneShotCalls(st: OneShot, events: seq<ClientEvent>): nat
    decreases |events|
  {
    if events == [] then 0
    else
      var next := OneShotStep(st, events[0]);
      (if next.called && !st.called then 1 else 0) + OneShotCalls(next, events[1..])
  }

  /** The callback as intended: both listeners registered, not called yet. */
  function CallbackCalls(events: seq<ClientEvent>): (n: nat)
    ensures n <= 1
  {
    OneShotCallsOnce(OneShot(true, true, false), events);
    OneShotCalls(OneShot(true, true, false), events)
  }

  /** As written, a success followed by a later failure of another
      submission calls the callback of `fatal` twice. */
  lemma CallbackTwiceAsWritten()
    ensures CallbackCallsAsWritten([Logged, Failed]) == 2
  {
    assert Logged in [Logged, Failed] && Failed in [Logged, Failed];
  }

  lemma {:induction false} OneShotCallsOnce(st: OneShot, events: seq<ClientEvent>)
    ensures st.called ==> OneShotCalls(st, events) == 0
    ensures !st.called && st.loggedPending && st.failedPending ==>
      OneShotCalls(st, events) == if events == [] then 0 else 1
    decreases |events|
  {
    if events != [] {
      var next := OneShotStep(st, events[0]);
      OneShotCallsOnce(next, events[1..]);
    }
  }

  /** With the one-shot guard the callback runs exactly once as soon as the
      client emits any event, and never without one. */
  lemma CallbackCalledOnce(events: seq<ClientEvent>)
    ensures CallbackCalls(events) == if events == [] then 0 else 1
    ensures CallbackCalls(events) <= CallbackCallsAsWritten(events)
  {
    OneShotCallsOnce(OneShot(true, true, false), events);
    if events != [] {
      assert events[0] in events;
    }
  }

  const FATAL_LABEL := "fatal"

  class Logger {
    const name: string
    const defaultLevel: string
    /** The level of the local log. */
    var level: string
    /** Every record written to the local log, oldest first. */
    var emitted: seq<LogCall>
    /** Whether error reporting has been set up (a client exists). */
    var reporting: bool
    var lastErrorTimeStamp: int
    var lastErrorCount: int
    /** Every submission the error tracker's client accepted, oldest first. */
    var submissions: seq<ErrorCapture.Submission>

    /** The rate limiter's window. */
    function RateWindow(): RateLimit.Window
      reads this
    {
      RateLimit.Window(lastErrorTimeStamp, lastErrorCount)
    }

    /** `new Logger(name)` with the environment variables NODE_ENV and
        LOG_LEVEL (None when unset). The level override check the
        constructor starts in production is the method CheckLogLevel. */
    constructor(name: string, nodeEnv: Option<string>, logLevel: Option<string>)
      ensures this.name == name
      ensures defaultLevel == LevelControl.DefaultLevel(nodeEnv, logLevel)
      ensures level == defaultLevel
      ensures emitted == [] && submissions == [] && !reporting
    {
      this.name := name;
      defaultLevel := LevelControl.DefaultLevel(nodeEnv, logLevel);
      level := LevelControl.DefaultLevel(nodeEnv, logLevel);
      emitted := [];
      reporting := false;
      lastErrorTimeStamp := 0;
      lastErrorCount := 0;
      submissions := [];
    }

    /** The response to a level override check: `body` is the response body,
        None when the request failed, and `now` the time in milliseconds. */
    method CheckLogLevel(body: Option<string>, now: int)
      modifies this
      ensures level == LevelControl.LevelAfterCheck(body, now, defaultLevel)
      ensures level == LevelControl.TRACE || level == defaultLevel
      ensures emitted == old(emitted) && reporting == old(reporting)
      ensures RateWindow() == old(RateWindow()) && submissions == old(submissions)
    {
      level := LevelControl.LevelAfterCheck(body, now, defaultLevel);
    }

    /** Sets up error reporting; the window starts over at time 0. */
    method InitializeErrorReporting()
      modifies this
      ensures reporting
      ensures RateWindow() == RateLimit.Window(0, 0)
      ensures level == old(level) && emitted == old(emitted) && submissions == old(submissions)
    {
      reporting := true;
      lastErrorTimeStamp := 0;
      lastErrorCount := 0;
    }

    /** `captureException`. Without a client the call on it throws inside the
        guarded block, so it fails exactly as a throwing client does. */
    method CaptureException(attributes: Value, message: Value, levelLabel: string, heap: Heap, clientThrows: bool)
      returns (outcome: ErrorCapture.Outcome, attributesAfter: Value, heapAfter: Heap)
      requires ErrorCapture.WellFormed(attributes, heap) && ValidValue(message, |heap|)
      modifies this
      ensures ErrorCapture.CaptureResult(outcome, attributesAfter, heapAfter)
           == ErrorCapture.CaptureException(attributes, message, levelLabel, heap, clientThrows || !old(reporting))
      ensures submissions == old(submissions) + if outcome.Submitted? then [outcome.submission] else []
      ensures level == old(level) && emitted == old(emitted) && reporting == old(reporting)
      ensures RateWindow() == old(RateWindow())
    {
      outcome, attributesAfter, heapAfter :=
        ErrorCapture.Capture(attributes, message, levelLabel, heap, clientThrows || !reporting);
      if outcome.Submitted? {
        submissions := submissions + [outcome.submission];
      }
    }

    /** `error(attributes, message, ...rest)` at time `now`: always written
        to the local log; with error reporting set up, the window advances
        and, while the window allows it, the error is captured with the
        window's label. `captured` is None when no capture was attempted. */
    method Error(attributes: Value, message: Value, rest: seq<Value>, now: int, heap: Heap, clientThrows: bool)
      returns (captured: Option<ErrorCapture.Outcome>, attributesAfter: Value, heapAfter: Heap)
      requires ErrorCapture.WellFormed(attributes, heap) && ValidValue(message, |heap|)
      modifies this
      ensures emitted == old(emitted) + [LogCall(Severity.Error, [attributes, message] + rest)]
      ensures !old(reporting) ==>
        captured.None? && RateWindow() == old(RateWindow()) && heapAfter == heap
      ensures old(reporting) ==> RateWindow() == RateLimit.Tick(old(RateWindow()), now)
      ensures old(reporting) ==> (captured.Some? <==> RateLimit.Label(RateWindow().count).Some?)
      ensures captured.Some? ==>
        ErrorCapture.CaptureResult(captured.value, attributesAfter, heapAfter)
        == ErrorCapture.CaptureException(attributes, message, RateLimit.Label(RateWindow().count).value,
                                         heap, clientThrows)
      ensures captured.None? ==> attributesAfter == attributes && heapAfter == heap
      ensures submissions == old(submissions) +
        if captured.Some? && captured.value.Submitted? then [captured.value.submission] else []
      ensures level == old(level) && reporting == old(reporting)
    {
      emitted := emitted + [LogCall(Severity.Error, [attributes, message] + rest)];
      captured, attributesAfter, heapAfter := None, attributes, heap;
      if reporting {
        var recentReport := now - lastErrorTimeStamp < RateLimit.WINDOW_MS;
        if recentReport {
          lastErrorCount := lastErrorCount + 1;
        } else {
          lastErrorCount := 0;
          lastErrorTimeStamp := now;
        }
        if lastErrorCount < RateLimit.MAX_ERRORS {
          var note := if lastErrorCount + 1 == RateLimit.MAX_ERRORS then "(rate limited)" else "";
          var outcome;
          outcome, attributesAfter, heapAfter :=
            CaptureException(attributes, message, RateLimit.ERROR_LABEL + note, heap, clientThrows);
          captured := Some(outcome);
        }
      }
    }

    /** `err` is `error`. */
    method Err(attributes: Value, message: Value, rest: seq<Value>, now: int, heap: Heap, clientThrows: bool)
      returns (captured: Option<ErrorCapture.Outcome>, attributesAfter: Value, heapAfter: Heap)
      requires ErrorCapture.WellFormed(attributes, heap) && ValidValue(message, |heap|)
      modifies this
      ensures emitted == old(emitted) + [LogCall(Route(LogMethod.Err), [attributes, message] + rest)]
      ensures !old(reporting) ==> captured.None? && RateWindow() == old(RateWindow())
      ensures old(reporting) ==> RateWindow() == RateLimit.Tick(old(RateWindow()), now)
      ensures old(reporting) ==> (captured.Some? <==> RateLimit.Label(RateWindow().count).Some?)
      ensures captured.Some? ==>
        ErrorCapture.CaptureResult(captured.value, attributesAfter, heapAfter)
        == ErrorCapture.CaptureException(attributes, message, RateLimit.Label(RateWindow().count).value,
                                         heap, clientThrows)
      ensures captured.None? ==> attributesAfter == attributes && heapAfter == heap
      ensures submissions == old(submissions) +
        if captured.Some? && captured.value.Submitted? then [captured.value.submission] else []
      ensures level == old(level) && reporting == old(reporting)
    {
      captured, attributesAfter, heapAfter := Error(attributes, message, rest, now, heap, clientThrows);
    }

    /** `fatal(attributes, message, callback)`: written to the local log;
        without error reporting the callback runs at once, otherwise the
        error is captured at level "fatal", bypassing the rate limiter, and
        the callback is left to the client's events. A capture that throws
        leaves the call before the callback is handed over. */
    method Fatal(attributes: Value, message: Value, heap: Heap, clientThrows: bool)
      returns (fate: CallbackFate, captured: Option<ErrorCapture.Outcome>, attributesAfter: Value, heapAfter: Heap)
      requires ErrorCapture.WellFormed(attributes, heap) && ValidValue(message, |heap|)
      modifies this
      ensures emitted == old(emitted) + [LogCall(Severity.Fatal, [attributes, message])]
      ensures !old(reporting) ==>
        fate == CalledNow && captured.None? && attributesAfter == attributes && heapAfter == heap
      ensures old(reporting) ==> captured.Some?
      ensures captured.Some? ==>
        ErrorCapture.CaptureResult(captured.value, attributesAfter, heapAfter)
        == ErrorCapture.CaptureException(attributes, message, FATAL_LABEL, heap, clientThrows)
      ensures captured.Some? ==>
        (fate == NeverCalled <==> captured.value == ErrorCapture.AttributesThrew)
        && (fate == OnClientEvent <==> captured.value != ErrorCapture.AttributesThrew)
      ensures submissions == old(submissions) +
        if captured.Some? && captured.value.Submitted? then [captured.value.submission] else []
      ensures RateWindow() == old(RateWindow())
      ensures level == old(level) && reporting == old(reporting)
    {
      emitted := emitted + [LogCall(Severity.Fatal, [attributes, message])];
      if reporting {
        var outcome;
        outcome, attributesAfter, heapAfter := CaptureException(attributes, message, FATAL_LABEL, heap, clientThrows);
        captured := Some(outcome);
        fate := if outcome == ErrorCapture.AttributesThrew then NeverCalled else OnClientEvent;
      } else {
        fate, captured, attributesAfter, heapAfter := CalledNow, None, attributes, heap;
      }
    }

    method Debug(args: seq<Value>)
      modifies this
      ensures emitted == old(emitted) + [LogCall(Route(LogMethod.Debug), args)]
      ensures level == old(level) && reporting == old(reporting)
      ensures RateWindow() == old(RateWindow()) && submissions == old(submissions)
    {
      emitted := emitted + [LogCall(Severity.Debug, args)];
    }

    method Info(args: seq<Value>)
      modifies this
      ensures emitted == old(emitted) + [LogCall(Route(LogMethod.Info), args)]
      ensures level == old(level) && reporting == old(reporting)
      ensures RateWindow() == old(RateWindow()) && submissions == old(submissions)
    {
      emitted := emitted + [LogCall(Severity.Info, args)];
    }

    /** `log` writes at info. */
    method Log(args: seq<Value>)
      modifies this
      ensures emitted == old(emitted) + [LogCall(Route(LogMethod.Log), args)]
      ensures level == old(level) && reporting == old(reporting)
      ensures RateWindow() == old(RateWindow()) && submissions == old(submissions)
    {
      emitted := emitted + [LogCall(Severity.Info, args)];
    }

    method Warn(args: seq<Value>)
      modifies this
      ensures emitted == old(emitted) + [LogCall(Route(LogMethod.Warn), args)]
      ensures level == old(level) && reporting == old(reporting)
      ensures RateWindow() == old(RateWindow()) && submissions == old(submissions)
    {
      emitted := emitted + [LogCall(Severity.Warn, args)];
    }
  }
}
