# logger-sharelatex `Logger`, modelled in Dafny

This project models the `Logger` class of `logging-manager.js`. The class is a named logger. Every call goes to a local leveled log. Errors and fatal errors also go to an error tracker (Sentry, through the `raven` client) once error reporting has been set up. The model covers:

- **the rate limiter on `error`**: a window of 60 000 ms that opens at the first error call after the previous window expired. Each window forwards at most five errors. The fifth is labelled `error(rate limited)`. `fatal` bypasses the limiter (module `RateLimit`, and `Logger.Error`);
- **`captureException`**: the pipeline that turns the attributes and message of a call into at most one submission `(error, tags, extra, level)`. Its steps:
  1. wrap a string into an Error;
  2. select `err || error`;
  3. stop if an attribute is an Error already flagged `reportedToSentry`;
  4. synthesise `{message}` as the error, or record the message as `description`;
  5. collect the `_id` tags and the extra data;
  6. replace `req` with a snapshot;
  7. rebuild a plain-object error as an Error;
  8. strip the quoted path from the message;
  9. submit, then flag the attribute Errors.

  The client may throw; that exception is swallowed (modules `ErrorCapture` and `CaptureProperties`). The pipeline is specified by functions. The method `ErrorCapture.Capture` implements it step by step, with the source's four loops, and is proved to compute exactly that specification;
- **the level**: the default level taken from `LOG_LEVEL`, `NODE_ENV` and `"production"`. The periodic check sets the level to `trace` while the end time in the metadata body is ahead of now, and to the default otherwise. `parseInt` is modelled as JavaScript defines it without a radix: white space, sign, `0x` prefix, longest digit prefix, NaN (modules `LevelControl` and `JsParseInt`);
- **routing**: `log` writes at info; `err` is `error`; `fatal` calls its callback at once without a tracker, otherwise leaves it to the client's events (module `LoggingManager`).

JavaScript values are modelled in `JsValues`:

- plain objects are values, as an ordered list of own properties in `for...in` order;
- Error instances are shared and updated in place (the `reportedToSentry` flag, the stripped message). So they live in a heap, a sequence of objects that values refer to by index, and every operation takes the heap and returns the new one;
- the JavaScript primitives the pipeline relies on are functions of `JsValues`: `NewError` is `new Error(message)`, `Flag` is the assignment `reportedToSentry = true`, `PathText` is `path` inside the template literal of the message strip, and `Entries` is the order in which `for...in` visits own properties. The rows of their callers cover them;
- the logger itself is a Dafny class whose fields are the source's fields: level, window timestamp and count, whether a client exists. It also records the local log and the submissions the client accepted.

Intended behaviour that the code does not have, where the model follows the code:

- the comments at logging-manager.js:151 and 162 speak of five errors a minute. The limit holds per window, which opens at the first error after the previous window expired; it does not hold for every 60 s interval. Nine reports can fall within 10 ms around a window boundary (`RateLimit.NineReportsInTenMilliseconds`);
- a failed level check would be expected to leave the level alone. In the code `body` is then undefined, `parseInt` gives NaN, and the level is reset to the default (`LevelControl.UnreadableBodyResets`);
- a logging call would be expected never to fail. In the code, null or undefined attributes make `attributes.err` throw inside `captureException`, and the exception leaves `error` and `fatal` (outcome `AttributesThrew`, `CaptureProperties.AttributesThrowIff`);
- the comment at logging-manager.js:184 says the `fatal` callback is called once. The code can call it twice (see Findings);
- the comments at logging-manager.js:70 and 119 say an error is not reported twice. That holds for Error instances: one already flagged is never submitted again (`CaptureProperties.ReportedErrorNotForwarded`). A plain-object error carrying `reportedToSentry: true` is not an Error instance, so the dedupe loop does not stop it; the rebuild copies the flag onto the fresh Error, and that Error is submitted (`CaptureProperties.PlainReportedErrorForwarded`).

## Model

| member | source | states |
|---|---|---|
| JsStrings.ReplaceFirst | logging-manager.js:114 | `replace` with a string pattern: an absent pattern leaves the text; otherwise prefix, replacement and suffix around the first occurrence only |
| JsStrings.RemoveFirstInverse | logging-manager.js:114 | putting the removed pattern back where it was first found gives the original message |
| JsStrings.ContainsIff | logging-manager.js:88 | `key.match(/_id/)` holds iff `_id` occurs at some position of the key |
| JsStrings.ToLowerAscii | logging-manager.js:21 | same length, no upper-case ASCII letter left, each character lowered on its own |
| JsParseInt.TrimStart | logging-manager.js:47 | parseInt skips exactly the leading white space |
| JsParseInt.DigitRun | logging-manager.js:47 | the longest digit prefix: all digits, followed by a non-digit or the end |
| JsParseInt.DecimalValue | logging-manager.js:47 | reading the digits of a decimal text gives back the number |
| JsParseInt.ParseIntRoundTrip | logging-manager.js:47 | parseInt reads back any integer's decimal text after any white space, ignoring a trailing non-digit tail |
| JsParseInt.ParseInt | logging-manager.js:47 | white space alone parses to NaN; ParseIntOfDecimalText, ParseIntOfHexText and ParseIntNoDigits give the value of every other input |
| JsParseInt.ParseIntOfDecimalText | logging-manager.js:47 | white space, an optional "+" or "-", any run of decimal digits (leading zeros included) and a tail that does not continue the run parse to the signed value of the digits; only "0" followed by "x" or "X" is read otherwise |
| JsParseInt.ParseIntOfHexText | logging-manager.js:47 | white space, an optional sign, "0x" or "0X", any run of hexadecimal digits and a tail that does not continue it parse to the signed value of the digits; an empty run gives NaN |
| JsParseInt.ParseIntNoDigits | logging-manager.js:47 | no digit after the white space and sign gives NaN |
| JsParseInt.ParseIntOfUndefined | logging-manager.js:47 | the body of a failed request, undefined, parses to NaN |
| JsParseInt.ParseIntOfHexadecimal | logging-manager.js:47 | "0x1A" is 26 and "0x" is NaN |
| JsParseInt.ParseIntStopsAtFirstNonDigit | logging-manager.js:47 | " \n-42 ms" parses to -42 |
| JsValues.Or | logging-manager.js:69 | `a \|\| b` is a when a is truthy, else b |
| JsValues.Put | logging-manager.js:79 | assigning an existing property keeps its place; a new one goes last |
| JsValues.PutLookup | logging-manager.js:79 | after `o[k] = v`, `o[k]` is v, every other property reads as before, and k is present |
| JsValues.ErrPutGet | logging-manager.js:107 | after `e[k] = v` on an Error, `e[k]` is v and every other property reads as before |
| JsValues.FlagSetsOnlyTheMarker | logging-manager.js:124 | flagging makes the Error reported, changes no other property and is idempotent |
| RateLimit.Run | logging-manager.js:154-167 | one decision per error call |
| RateLimit.Tick | logging-manager.js:154-161 | every call lies inside the window it leaves, which is the old window or a fresh one at the call's time with count 0; BoundaryOpensNewWindow and CallsInsideWindow pin both branches |
| RateLimit.Label | logging-manager.js:163-167 | a call is reported iff it leaves the count below five; LabelValues gives the label for each count |
| RateLimit.LabelValues | logging-manager.js:163-167 | counts 0-3 give "error", count 4 gives "error(rate limited)", 5 and above give no report |
| RateLimit.BoundaryOpensNewWindow | logging-manager.js:154-161 | a call exactly 60 000 ms after the window start opens a new window at that time; one a millisecond earlier counts in the old one |
| RateLimit.CallsInsideWindow | logging-manager.js:154-157 | calls inside the window keep its start, add one each to the count, and are decided by the count they reach |
| RateLimit.OneWindow | logging-manager.js:151-167 | the calls of one window are labelled "error" four times, then "error(rate limited)", then not reported: at most five reports |
| RateLimit.SixErrorsInOneMinute | logging-manager.js:151-167 | six calls within a minute of a fresh window: four "error", one "error(rate limited)", one suppressed |
| RateLimit.CallsSixtyOneSecondsApart | logging-manager.js:154-161 | a call that opens a window and one 61 000 ms later fall into two windows, and both are reported as "error" |
| RateLimit.NineReportsInTenMilliseconds | logging-manager.js:151-161 | the bound is per window: nine reports within 10 ms across a window boundary |
| RateLimit.RunAppend | logging-manager.js:154-167 | deciding two batches of calls one after the other is deciding them together |
| LevelControl.DefaultLevel | logging-manager.js:21-22 | a non-empty LOG_LEVEL wins; otherwise "warn" iff production, "debug" iff not |
| LevelControl.IsProduction | logging-manager.js:21 | only a value of the length of "production" can be production; ProductionIgnoresCase gives the iff |
| LevelControl.ProductionIgnoresCase | logging-manager.js:21 | production iff NODE_ENV spells "production" letter by letter up to ASCII case |
| LevelControl.ProductionExamples | logging-manager.js:21 | "PRODUCTION" is production; unset and "prod" are not |
| LevelControl.UpperCaseProduction | logging-manager.js:21 | NODE_ENV "PRODUCTION" counts as production |
| LevelControl.LevelAfterCheck | logging-manager.js:46-51 | the level after a check is trace or the default, and trace only when the body parses to an integer |
| LevelControl.CheckReadsEndTime | logging-manager.js:47-51 | a decimal end time in the body gives trace iff it is later than now, the default otherwise |
| LevelControl.UnreadableBodyResets | logging-manager.js:46-51 | a failed request or a body without a number resets the level to the default |
| LevelControl.GarbageBodyResets | logging-manager.js:47-50 | the body "none" resets the level to the default |
| LevelControl.FarFutureAndPastBodies | logging-manager.js:47-51 | the body 9999999999999 gives trace, the body 1 the default |
| ErrorCapture.Wrap | logging-manager.js:65-67 | a string becomes `{err: <fresh Error with that message>}`; anything else is left as it is |
| ErrorCapture.SelectError | logging-manager.js:69 | the selected error refers only to existing Errors |
| ErrorCapture.Assign | logging-manager.js:79 | `attributes.description = message` on a plain object or an Error instance |
| ErrorCapture.Prepare | logging-manager.js:63-80 | preparation keeps the heap well-formed, and when it goes on, it has a non-null error and non-string attributes |
| ErrorCapture.TagsOf | logging-manager.js:86-88 | every tag value is a string |
| ErrorCapture.ExtraOf | logging-manager.js:85-101 | the extra data holds every attribute plus at most a `req` snapshot; ExtraOfExact states each key |
| ErrorCapture.RequestSnapshot | logging-manager.js:93-100 | the snapshot refers only to existing Errors |
| ErrorCapture.Rebuilt | logging-manager.js:103-110 | a plain-object error becomes a fresh Error appended to the heap; any other error is kept; existing Errors are untouched |
| ErrorCapture.StripPath | logging-manager.js:113-115 | only the reported error can change |
| ErrorCapture.MarkAll | logging-manager.js:122-127 | flagging keeps the heap's size and well-formedness |
| ErrorCapture.Report | logging-manager.js:82-133 | a submission is attempted always, at the level passed in, and succeeds iff the client does not throw |
| ErrorCapture.CaptureException | logging-manager.js:62-134 | never a submission when the client throws; any submission or attempt carries the level passed in; a string argument is left unchanged; the heap only grows and stays well-formed |
| ErrorCapture.FindReportedError | logging-manager.js:71-74 | the dedupe loop finds a reported Error iff one of the attributes is one |
| ErrorCapture.CollectTagsAndExtra | logging-manager.js:84-90 | the loop builds exactly TagsOf and a copy of every attribute, in order |
| ErrorCapture.CopyOwnFields | logging-manager.js:104-109 | the copy loop assigns every property of the plain object in order |
| ErrorCapture.MarkReported | logging-manager.js:120-129 | the marking loop flags as MarkAll specifies |
| ErrorCapture.PrepareCapture | logging-manager.js:63-80 | the step-by-step preparation (wrap, select, dedupe loop, message) computes exactly Prepare |
| ErrorCapture.ReportCapture | logging-manager.js:82-133 | the step-by-step tags, extra, rebuild, path strip, submission and marking compute exactly Report |
| ErrorCapture.Capture | logging-manager.js:62-134 | the step-by-step `captureException` computes exactly the specified outcome, attributes and heap |
| CaptureProperties.TagsOfExact | logging-manager.js:86-90 | a key is a tag iff it is an attribute whose key contains "_id" and whose value is a string, with that value |
| CaptureProperties.ExtraOfExact | logging-manager.js:91-101 | extra has every attribute under its own key; a present `req` is replaced by the snapshot and nothing else |
| CaptureProperties.MarkAllExact | logging-manager.js:120-129 | after marking, an Error is flagged iff an attribute refers to it; all others are unchanged |
| CaptureProperties.CopyFieldsGet | logging-manager.js:105-108 | after the copy loop every copied property reads as in the plain object, the others as before |
| CaptureProperties.RebuildKeepsMessageAndFields | logging-manager.js:103-110 | the rebuilt Error has the plain object's message and every property; without a message it has the empty one |
| CaptureProperties.StripPathSpec | logging-manager.js:113-115 | the message loses its first ` '<path>'`; putting it back gives the old message; no other property changes |
| CaptureProperties.StripPathIgnoresNonStringMessage | logging-manager.js:113-115 | a truthy path with a non-string message: the failing replace is ignored and nothing changes |
| CaptureProperties.StripPathKeepsOthers | logging-manager.js:113-115 | stripping changes no property except the message |
| CaptureProperties.StripPathExample | logging-manager.js:113-115 | `{message: "failed '/tmp/x'", path: "/tmp/x"}` is reported with message "failed" |
| CaptureProperties.AttributesThrowIff | logging-manager.js:65-69 | the capture throws iff the attributes are null or undefined, and then changes nothing |
| CaptureProperties.WrappedNotReported | logging-manager.js:65-74 | the Error a string is wrapped into is never taken for a duplicate |
| CaptureProperties.DuplicateIff | logging-manager.js:70-74 | the capture stops as a duplicate iff an attribute is an Error already flagged, and then changes nothing |
| CaptureProperties.PrepareStops | logging-manager.js:63-74 | preparation stops with a throw iff the attributes are nullish, as a duplicate iff a flagged Error is among them, and then changes nothing |
| CaptureProperties.StringIsWrapped | logging-manager.js:65-67 | `error("boom")` submits a fresh Error with message "boom", which is flagged afterwards |
| CaptureProperties.PrepareString | logging-manager.js:65-69 | a string is wrapped into a fresh Error that the new attributes refer to and that is selected as the error |
| CaptureProperties.PrepareEntries | logging-manager.js:63-80 | a plain object stays a plain object and an Error instance stays the same instance, whose own properties gain at most `description` |
| CaptureProperties.PrepareWithError | logging-manager.js:69-80 | for plain-object attributes holding an error, the error is `err \|\| error` and a non-null message becomes `description` |
| CaptureProperties.SelectedErrorIsSubmitted | logging-manager.js:69-80 | for plain-object attributes, that selected error itself is submitted, and the extra data carries `description` |
| CaptureProperties.MessageBecomesError | logging-manager.js:76-77 | for a plain object or an Error instance without `err`/`error`, a string message is submitted as a fresh Error with that message and the attributes stay as they were; exactly the Errors among the attributes' own properties get flagged, so an Error given as the attributes is not flagged itself |
| CaptureProperties.ReportOfMessage | logging-manager.js:103-128 | the Error synthesised from a message becomes a fresh unflagged Error with that message, and exactly the Errors among the attributes' own properties get flagged |
| CaptureProperties.NothingWithoutErrorOrMessage | logging-manager.js:76-82 | without an error and without a string message, nothing is submitted and nothing changes |
| CaptureProperties.ReportReported | logging-manager.js:117-132 | for plain-object attributes, after Report an Error is reported iff it was already, or the client did not throw and it is an attribute |
| CaptureProperties.ReportedAfterCapture | logging-manager.js:117-132 | the same for a whole capture: a throwing client flags nothing, a submission flags exactly the attribute Errors |
| CaptureProperties.FlaggedAfterSubmission | logging-manager.js:120-128 | for plain-object attributes, after a submission every Error among them is flagged |
| CaptureProperties.SecondCaptureSuppressed | logging-manager.js:71-74 | capturing the same attributes again after that submission is suppressed as a duplicate and changes nothing |
| CaptureProperties.ReportTagsAndExtra | logging-manager.js:84-101 | for a plain object or an Error instance, Report submits TagsOf and ExtraOf of the attributes' own properties as they are at submission, at the level passed in |
| CaptureProperties.IdAttributeOfFields | logging-manager.js:86-90 | an `_id` string property reads the same in the tags and the extra data, also after `description` is added |
| CaptureProperties.IdAttributeInTagsAndExtra | logging-manager.js:84-90 | for a plain object or an Error instance, a submitted capture carries every `_id` string property in both tags and extra |
| CaptureProperties.SelectedIsAttribute | logging-manager.js:69-74 | an Error selected by `err \|\| error` is one of the attributes' own properties, so the dedupe loop sees it |
| CaptureProperties.PreparedErrorNotReported | logging-manager.js:69-74 | the error preparation hands on, before and after the rebuild, is never an Error already flagged |
| CaptureProperties.ReportedErrorNotForwarded | logging-manager.js:70-74 | for any attributes, a submitted error is never an Error instance already flagged as reported |
| CaptureProperties.PlainReportedErrorForwarded | logging-manager.js:103-109 | `{err: {message: "x", reportedToSentry: true}}` is still submitted, as a fresh Error that carries the flag |
| LoggingManager.Route | logging-manager.js:136-178 | each method writes at its own severity, except `log` at info and `err` at error |
| LoggingManager.RouteCoversSeverities | logging-manager.js:136-178 | every severity has a method; only log/info and err/error share one |
| LoggingManager.CallbackCallsAsWritten | logging-manager.js:184-190 | as written the callback is called at most twice |
| LoggingManager.CallbackCalls | logging-manager.js:184-190 | the guarded callback runs at most once; CallbackCalledOnce gives exactly once iff an event comes |
| LoggingManager.CallbackTwiceAsWritten | logging-manager.js:184-190 | as written a `logged` then an `error` event call the callback twice |
| LoggingManager.OneShotCallsOnce | logging-manager.js:184-187 | behind a shared one-shot guard, no call once called; one call at the first event |
| LoggingManager.CallbackCalledOnce | logging-manager.js:184-190 | with the guard the callback runs exactly once iff some event comes, and never more often than as written |
| LoggingManager.Logger.constructor | logging-manager.js:20-37 | the default level from the environment is also the initial level; no client yet |
| LoggingManager.Logger.CheckLogLevel | logging-manager.js:46-51 | the level becomes LevelAfterCheck of the body, so trace or the default; nothing else changes |
| LoggingManager.Logger.InitializeErrorReporting | logging-manager.js:55-60 | a client exists and the window is reset to (0, 0) |
| LoggingManager.Logger.CaptureException | logging-manager.js:62-134 | the outcome is the specified capture, failing as a throwing client when no client exists; an accepted submission is recorded |
| LoggingManager.Logger.Error | logging-manager.js:148-170 | always logged locally; with a client the window ticks, a capture is attempted iff the count allows, with the count's label |
| LoggingManager.Logger.Err | logging-manager.js:172-174 | `err` does what `error` does |
| LoggingManager.Logger.Fatal | logging-manager.js:180-194 | logged locally; without a client the callback runs now; with one, an unlimited capture at "fatal", the window untouched, the callback handed over unless the capture threw |
| LoggingManager.Logger.Debug | logging-manager.js:136-138 | writes the arguments at debug |
| LoggingManager.Logger.Info | logging-manager.js:140-142 | writes the arguments at info |
| LoggingManager.Logger.Log | logging-manager.js:144-146 | writes the arguments at info |
| LoggingManager.Logger.Warn | logging-manager.js:176-178 | writes the arguments at warn |

## Left out

- The bunyan backend and its serializers: the local log is the list of records written with their severity. Filtering by level is not modelled, and neither is an unknown LOG_LEVEL being rejected.
- The request to the metadata server and its one-minute timer: `Logger.CheckLogLevel` is the response callback, with the body (None when the request failed) and the time as parameters.
- The raven client: its construction from a DSN and options, and its submission. A parameter says whether the client throws, and the submissions it accepts are recorded.
- The global default logger and the static forwarding methods at the end of the file.
- `new Date()` and `Date.now()`: the time is an integer number of milliseconds passed in. Precision beyond 2^53 ms is not modelled either.
- Values: functions, arrays, symbols and non-integral numbers are not modelled.
- JsValues.NewError: keeps a non-string message as given instead of converting it with `String`. The only place a non-string reaches it is the rebuild, whose copy loop then assigns the message property itself.
- ErrorCapture.StripPath: a `path` that is an Error instance is not given its text, so such a message is left as it is. Neither is the text of a plain object with its own `toString`.
- LevelControl.IsProduction: lower-cases ASCII letters only.
- Plain objects are values. Aliasing among them is not captured: another reference to the caller's attributes object does not see `description`; the new attributes are returned instead.
- ErrorCapture.MarkAll: enumerates the attributes as they were before the loop, while the source reads each value during the loop. The two differ only when the attributes are themselves an Error instance X that holds X under some key k, and an Error Y sits under `reportedToSentry` after k. Flagging X at k overwrites that property with `true`, so the source then reads `true` there and leaves Y unflagged, while MarkAll flags Y.
- `__proto__` as an attribute key is treated as an ordinary key.
- Error instances are entries of a heap sequence passed in and returned, not Dafny objects.
- A thrown TypeError is the outcome `AttributesThrew`, returned by `Error` and `Fatal` rather than raised.
- LoggingManager.Logger.constructor: sets the window to (0, 0). The source leaves it unset until `initializeErrorReporting`, and nothing reads it before then.
- LoggingManager.Logger.Fatal: the handed-over callback follows the one-shot behaviour of `LoggingManager.CallbackCalls`, not the listeners as written (see Findings).
- CaptureProperties.SecondCaptureSuppressed: stated for attributes given as a plain object. For an Error instance as attributes, flagging can change the instance's own properties.
- CaptureProperties.ReportedAfterCapture: stated for attributes given as a plain object, for the same reason.
- CaptureProperties.PrepareWithError: stated for plain-object attributes. For an Error instance given as the attributes, `err || error` reads the instance's own properties and `description` is written into the instance; MessageBecomesError and IdAttributeInTagsAndExtra cover that case for an instance without `err` and `error`.
- CaptureProperties.SelectedErrorIsSubmitted: stated for plain-object attributes, for the same reason as PrepareWithError.
- CaptureProperties.ReportReported: stated for plain-object attributes. For an Error instance the flags are set on the Errors among its own properties read after the path strip, which this lemma does not follow; MessageBecomesError states the flags for that case when there is no `err` or `error`.
- CaptureProperties.FlaggedAfterSubmission: stated for plain-object attributes, for the same reason as ReportReported.

## Findings

| source | as written | input that shows it | evidently intended | confidence | as-written member | corrected member |
|---|---|---|---|---|---|---|
| logging-manager.js:184-190 | both `once` listeners hold the original wrapper; its reassignment of the local `cb` does not remove the other listener | `fatal(attrs, msg, cb)` with a client; the client emits `logged` for this submission and later `error` for another one | the callback runs once, at the first of the two events | high; not executed | LoggingManager.CallbackTwiceAsWritten | LoggingManager.CallbackCalledOnce |
