/** `captureException`: turns the arguments of an `error` or `fatal` call
    into at most one submission to the error tracker, and marks the Error
    instances among the attributes as reported so that they are not
    submitted again.

    The pipeline is specified by functions (Prepare, then Report) and
    implemented step by step by the method Capture, whose loops are proved
    to compute the specification. */
module ErrorCapture {
  import opened JsStrings
  import opened JsValues

  /** What the error tracker receives: the error, the tags, the extra data
      and the level label. */
  datatype Submission = Submission(error: Value, tags: Fields, extra: Fields, level: string)

  datatype Outcome =
    /** `attributes.err` on null or undefined attributes throws a TypeError,
        which leaves the call. */
    | AttributesThrew
    /** An attribute is an Error already marked as reported. */
    | AlreadyReported
    /** No error among the attributes and no string message. */
    | NothingToReport
    | Submitted(submission: Submission)
    /** The client threw while submitting; the exception is swallowed. */
    | ClientThrew(attempted: Submission)

  /** The outcome, the caller's attributes afterwards (a plain object may
      have gained `description`) and the Error instances afterwards. */
  datatype CaptureResult = CaptureResult(outcome: Outcome, attributes: Value, heap: Heap)

  predicate WellFormed(v: Value, heap: Heap) {
    HeapValid(heap) && ValidValue(v, |heap|)
  }

  // ---------- preparing: wrap, select, dedupe, message ----------

  /** A string in place of the attributes becomes `{err: new Error(string)}`. */
  function Wrap(attributes: Value, heap: Heap): (r: (Value, Heap))
    requires WellFormed(attributes, heap)
    ensures WellFormed(r.0, r.1) && !r.0.Str? && |heap| <= |r.1| && r.1[..|heap|] == heap
    ensures !attributes.Str? ==> r == (attributes, heap)
    ensures attributes.Str? ==>
      r.0 == Obj([("err", ErrorRef(|heap|))]) && r.1 == heap + [NewError(attributes)]
  {
    if attributes.Str? then
      AllocateValid(heap, NewError(attributes));
      (Obj([("err", ErrorRef(|heap|))]), heap + [NewError(attributes)])
    else (attributes, heap)
  }

  /** `attributes.err || attributes.error` */
  function SelectError(attributes: Value, heap: Heap): (error: Value)
    requires WellFormed(attributes, heap) && !IsNullish(attributes)
    ensures ValidValue(error, |heap|)
  {
    PropValid(attributes, "err", heap);
    PropValid(attributes, "error", heap);
    Or(Prop(attributes, "err", heap), Prop(attributes, "error", heap))
  }

  /** `value instanceof Error && value.reportedToSentry` */
  predicate IsReportedError(v: Value, heap: Heap) {
    v.ErrorRef? && v.id < |heap| && Reported(heap[v.id])
  }

  predicate HasReportedError(entries: Fields, heap: Heap) {
    exists i :: 0 <= i < |entries| && IsReportedError(entries[i].1, heap)
  }

  /** `attributes[k] = v` on a plain object or an Error instance. */
  function Assign(attributes: Value, k: string, v: Value, heap: Heap): (r: (Value, Heap))
    requires WellFormed(attributes, heap) && ValidValue(v, |heap|)
    requires attributes.Obj? || attributes.ErrorRef?
    ensures WellFormed(r.0, r.1) && |r.1| == |heap|
    ensures attributes.Obj? ==> r == (Obj(Put(attributes.fields, k, v)), heap)
    ensures attributes.ErrorRef? ==>
      r == (attributes, heap[attributes.id := ErrPut(heap[attributes.id], k, v)])
  {
    match attributes
    case Obj(f) =>
      PutValid(f, k, v, |heap|);
      (Obj(Put(f, k, v)), heap)
    case ErrorRef(id) =>
      UpdateValid(heap, id, k, v);
      (attributes, heap[id := ErrPut(heap[id], k, v)])
  }

  datatype Prepared =
    | Stop(outcome: Outcome, attributes: Value, heap: Heap)
    | Ready(attributes: Value, error: Value, heap: Heap)

  /** Lines 63-80: wrap a string, select the error, stop on an attribute
      already reported, then either synthesise `{message}` as the error or
      record the message as the attributes' `description`. */
  function Prepare(attributes: Value, message: Value, heap: Heap): (r: Prepared)
    requires WellFormed(attributes, heap) && ValidValue(message, |heap|)
    ensures WellFormed(r.attributes, r.heap) && |heap| <= |r.heap|
    ensures r.Ready? ==>
      ValidValue(r.error, |r.heap|) && !IsNullish(r.error) && !IsNullish(r.attributes) && !r.attributes.Str?
    ensures r.Stop? ==> !r.outcome.Submitted? && !r.outcome.ClientThrew?
  {
    if IsNullish(attributes) then Stop(AttributesThrew, attributes, heap)
    else
      var (attrs, heap1) := Wrap(attributes, heap);
      ValidValueGrows(message, |heap|, |heap1|);
      var error := SelectError(attrs, heap1);
      if HasReportedError(Entries(attrs, heap1), heap1) then Stop(AlreadyReported, attrs, heap1)
      else if IsNullish(error) then
        if message.Str? then
          Ready(attrs, Obj([("message", message)]), heap1)
        else Stop(NothingToReport, attrs, heap1)
      else if IsNullish(message) then Ready(attrs, error, heap1)
      else
        var (attrs2, heap2) := Assign(attrs, "description", message, heap1);
        Ready(attrs2, error, heap2)
  }

  // ---------- reporting: tags, extra, rebuild, path, submit, mark ----------

  /** The string-valued attributes whose key contains "_id", as an object
      built in `for...in` order. */
  function TagsOf(entries: Fields): (tags: Fields)
    ensures forall i :: 0 <= i < |tags| ==> tags[i].1.Str?
    decreases |entries|
  {
    if entries == [] then []
    else
      var tags := TagsOf(entries[..|entries| - 1]);
      var (k, v) := entries[|entries| - 1];
      if Contains(k, "_id") && v.Str? then Put(tags, k, v) else tags
  }

  /** The snapshot of a request that replaces `req` in the extra data. */
  function RequestSnapshot(req: Value, heap: Heap): (snapshot: Value)
    requires WellFormed(req, heap) && !IsNullish(req)
    ensures WellFormed(snapshot, heap)
  {
    PropValid(req, "method", heap);
    PropValid(req, "originalUrl", heap);
    PropValid(req, "query", heap);
    PropValid(req, "headers", heap);
    PropValid(req, "ip", heap);
    Obj([("method", Prop(req, "method", heap)), ("url", Prop(req, "originalUrl", heap)),
         ("query", Prop(req, "query", heap)), ("headers", Prop(req, "headers", heap)),
         ("ip", Prop(req, "ip", heap))])
  }

  /** Every attribute, with a present `req` replaced by its snapshot. */
  function ExtraOf(attributes: Value, entries: Fields, heap: Heap): (r: Fields)
    requires WellFormed(attributes, heap) && !IsNullish(attributes)
    ensures |entries| <= |r| <= |entries| + 1
  {
    PropValid(attributes, "req", heap);
    var req := Prop(attributes, "req", heap);
    if IsNullish(req) then entries else Put(entries, "req", RequestSnapshot(req, heap))
  }

  /** `newError[key] = value` for each own property, in order. */
  function CopyFields(e: ErrorObj, f: Fields): ErrorObj
    decreases |f|
  {
    if f == [] then e
    else ErrPut(CopyFields(e, f[..|f| - 1]), f[|f| - 1].0, f[|f| - 1].1)
  }

  lemma {:induction false} CopyFieldsValid(e: ErrorObj, f: Fields, size: nat)
    requires ValidError(e, size) && forall i :: 0 <= i < |f| ==> ValidValue(f[i].1, size)
    ensures ValidError(CopyFields(e, f), size)
    decreases |f|
  {
    if f != [] {
      CopyFieldsValid(e, f[..|f| - 1], size);
      ErrPutValid(CopyFields(e, f[..|f| - 1]), f[|f| - 1].0, f[|f| - 1].1, size);
    }
  }

  /** A plain object standing for an error is rebuilt as a new Error instance
      made from its message and carrying all of its properties; any other
      error is kept. */
  function Rebuilt(error: Value, heap: Heap): (r: (Value, Heap))
    requires WellFormed(error, heap)
    ensures WellFormed(r.0, r.1) && |heap| <= |r.1| && r.1[..|heap|] == heap
    ensures !error.Obj? ==> r == (error, heap)
    ensures error.Obj? ==> r.0 == ErrorRef(|heap|) && |r.1| == |heap| + 1
  {
    match error
    case Obj(f) =>
      var n := |heap|;
      var message := Lookup(f, "message");
      assert ValidValue(message, n) by {
        if HasKey(f, "message") {
          assert f[KeyIndex(f, "message").value].1 == message;
        }
      }
      var e := CopyFields(NewError(message), f);
      CopyFieldsValid(NewError(message), f, n);
      ValidErrorGrows(e, n, n + 1);
      AllocateValid(heap, e);
      (ErrorRef(n), heap + [e])
    case _ => (error, heap)
  }

  /** The text ` '<path>'` removed from the message. */
  function PathPattern(path: string): string {
    " '" + path + "'"
  }

  /** Lines 113-115: an Error with a truthy `path` and a string message loses
      the first occurrence of the quoted path from its message. Reading
      `replace` on a message that is not a string throws, and the exception
      is ignored, which leaves everything as it was. */
  function StripPath(error: Value, heap: Heap): (r: Heap)
    requires WellFormed(error, heap)
    ensures HeapValid(r) && |r| == |heap|
    ensures forall id :: 0 <= id < |heap| && error != ErrorRef(id) ==> r[id] == heap[id]
  {
    if !error.ErrorRef? then heap
    else
      var e := heap[error.id];
      var path := ErrGet(e, "path");
      if !Truthy(path) then heap
      else match (PathText(path), ErrGet(e, "message"))
        case (Some(p), Str(m)) =>
          UpdateValid(heap, error.id, "message", Str(ReplaceFirst(m, PathPattern(p), "")));
          heap[error.id := ErrPut(e, "message", Str(ReplaceFirst(m, PathPattern(p), "")))]
        case _ => heap
  }

  /** `value.reportedToSentry = true` on every attribute that is an Error,
      in `for...in` order. */
  function MarkAll(entries: Fields, heap: Heap): (r: Heap)
    ensures |r| == |heap|
    ensures HeapValid(heap) ==> HeapValid(r)
    decreases |entries|
  {
    if entries == [] then heap
    else
      var h := MarkAll(entries[..|entries| - 1], heap);
      var v := entries[|entries| - 1].1;
      if v.ErrorRef? && v.id < |h| then
        assert HeapValid(heap) ==> HeapValid(h[v.id := Flag(h[v.id])]) by {
          if HeapValid(heap) {
            UpdateValid(h, v.id, "reportedToSentry", Bool(true));
          }
        }
        h[v.id := Flag(h[v.id])]
      else h
  }

  /** Lines 82-132, once an error has been found. */
  function Report(attributes: Value, error: Value, level: string, heap: Heap, clientThrows: bool): (r: (Outcome, Heap))
    requires WellFormed(attributes, heap) && ValidValue(error, |heap|)
    requires !IsNullish(attributes) && !attributes.Str?
    ensures HeapValid(r.1) && |heap| <= |r.1|
    ensures r.0.Submitted? <==> !clientThrows
    ensures r.0.Submitted? || r.0.ClientThrew?
    ensures r.0.Submitted? ==> r.0.submission.level == level
    ensures r.0.ClientThrew? ==> r.0.attempted.level == level
  {
    var entries := Entries(attributes, heap);
    var tags := TagsOf(entries);
    var extra := ExtraOf(attributes, entries, heap);
    var (error1, heap1) := Rebuilt(error, heap);
    var heap2 := StripPath(error1, heap1);
    var submission := Submission(error1, tags, extra, level);
    if clientThrows then (ClientThrew(submission), heap2)
    else
      ValidValueGrows(attributes, |heap|, |heap2|);
      (Submitted(submission), MarkAll(Entries(attributes, heap2), heap2))
  }

  /** The whole of `captureException(attributes, message, level)`, where
      `clientThrows` says whether the error tracker's client throws. */
  function CaptureException(attributes: Value, message: Value, level: string, heap: Heap, clientThrows: bool): (r: CaptureResult)
    requires WellFormed(attributes, heap) && ValidValue(message, |heap|)
    ensures WellFormed(r.attributes, r.heap) && |heap| <= |r.heap|
    ensures r.outcome.Submitted? ==> !clientThrows
    ensures r.outcome.Submitted? ==> r.outcome.submission.level == level
    ensures r.outcome.ClientThrew? ==> r.outcome.attempted.level == level
    ensures attributes.Str? ==> r.attributes == attributes
  {
    match Prepare(attributes, message, heap)
    case Stop(outcome, attrs, heap1) =>
      CaptureResult(outcome, if attributes.Str? then attributes else attrs, heap1)
    case Ready(attrs, error, heap1) =>
      var (outcome, heap2) := Report(attrs, error, level, heap1, clientThrows);
      ValidValueGrows(attrs, |heap1|, |heap2|);
      CaptureResult(outcome, if attributes.Str? then attributes else attrs, heap2)
  }

  // ---------- the loops of captureException ----------

  /** Lines 71-74. */
  method FindReportedError(entries: Fields, heap: Heap) returns (found: bool)
    ensures found <==> HasReportedError(entries, heap)
  {
    var i := 0;
    while i < |entries|
      invariant 0 <= i <= |entries|
      invariant forall j :: 0 <= j < i ==> !IsReportedError(entries[j].1, heap)
    {
      var value := entries[i].1;
      if value.ErrorRef? && value.id < |heap| && Reported(heap[value.id]) {
        return true;
      }
      i := i + 1;
    }
    return false;
  }

  /** Lines 84-90: the tags and the extra data, one attribute at a time. */
  method CollectTagsAndExtra(entries: Fields) returns (tags: Fields, extra: Fields)
    requires DistinctKeys(entries)
    ensures tags == TagsOf(entries)
    ensures extra == entries
  {
    tags, extra := [], [];
    var i := 0;
    while i < |entries|
      invariant 0 <= i <= |entries|
      invariant tags == TagsOf(entries[..i])
      invariant extra == entries[..i]
    {
      var (key, value) := entries[i];
      assert entries[..i + 1][..i] == entries[..i];
      if Contains(key, "_id") && value.Str? {
        tags := Put(tags, key, value);
      }
      KeyIndexNone(extra, key);
      extra := Put(extra, key, value);
      i := i + 1;
    }
    assert entries[..i] == entries;
  }

  /** Lines 105-108. */
  method CopyOwnFields(e: ErrorObj, f: Fields) returns (r: ErrorObj)
    ensures r == CopyFields(e, f)
  {
    r := e;
    var i := 0;
    while i < |f|
      invariant 0 <= i <= |f|
      invariant r == CopyFields(e, f[..i])
    {
      assert f[..i + 1][..i] == f[..i];
      r := ErrPut(r, f[i].0, f[i].1);
      i := i + 1;
    }
    assert f[..i] == f;
  }

  /** Lines 122-127. */
  method MarkReported(entries: Fields, heap: Heap) returns (r: Heap)
    ensures r == MarkAll(entries, heap)
  {
    r := heap;
    var i := 0;
    while i < |entries|
      invariant 0 <= i <= |entries|
      invariant r == MarkAll(entries[..i], heap)
    {
      assert entries[..i + 1][..i] == entries[..i];
      var value := entries[i].1;
      if value.ErrorRef? && value.id < |r| {
        r := r[value.id := Flag(r[value.id])];
      }
      i := i + 1;
    }
    assert entries[..i] == entries;
  }

  /** Lines 63-80: wrap a string, select the error, stop on a duplicate,
      and fall back to the message or record it as `description`. */
  method PrepareCapture(attributes: Value, message: Value, heap: Heap) returns (p: Prepared)
    requires WellFormed(attributes, heap) && ValidValue(message, |heap|)
    ensures p == Prepare(attributes, message, heap)
  {
    if IsNullish(attributes) {
      return Stop(AttributesThrew, attributes, heap);
    }
    var attrs, heap1 := attributes, heap;
    if attributes.Str? {
      attrs := Obj([("err", ErrorRef(|heap|))]);
      heap1 := heap + [NewError(attributes)];
    }
    assert (attrs, heap1) == Wrap(attributes, heap);
    ValidValueGrows(message, |heap|, |heap1|);
    var error := SelectError(attrs, heap1);
    var duplicate := FindReportedError(Entries(attrs, heap1), heap1);
    if duplicate {
      return Stop(AlreadyReported, attrs, heap1);
    }
    if IsNullish(error) {
      if !message.Str? {
        return Stop(NothingToReport, attrs, heap1);
      }
      return Ready(attrs, Obj([("message", message)]), heap1);
    }
    if IsNullish(message) {
      return Ready(attrs, error, heap1);
    }
    var (attrs2, heap2) := Assign(attrs, "description", message, heap1);
    return Ready(attrs2, error, heap2);
  }

  /** Lines 82-133: tags, extra, rebuild, path, submit, then mark. */
  method ReportCapture(attributes: Value, error: Value, level: string, heap: Heap, clientThrows: bool)
    returns (outcome: Outcome, heapAfter: Heap)
    requires WellFormed(attributes, heap) && ValidValue(error, |heap|)
    requires !IsNullish(attributes) && !attributes.Str?
    ensures (outcome, heapAfter) == Report(attributes, error, level, heap, clientThrows)
  {
    EntriesValid(attributes, heap);
    var tags, extra := CollectTagsAndExtra(Entries(attributes, heap));
    extra := ExtraOf(attributes, extra, heap);
    heapAfter := heap;
    var error1 := error;
    if error.Obj? {
      var message := Lookup(error.fields, "message");
      var newError := CopyOwnFields(NewError(message), error.fields);
      heapAfter := heap + [newError];
      error1 := ErrorRef(|heap|);
    }
    assert (error1, heapAfter) == Rebuilt(error, heap);
    heapAfter := StripPath(error1, heapAfter);
    var submission := Submission(error1, tags, extra, level);
    if clientThrows {
      return ClientThrew(submission), heapAfter;
    }
    ValidValueGrows(attributes, |heap|, |heapAfter|);
    heapAfter := MarkReported(Entries(attributes, heapAfter), heapAfter);
    outcome := Submitted(submission);
  }

  /** `captureException`, lines 62-134; for a string argument the caller
      still holds the string. */
  method Capture(attributes: Value, message: Value, level: string, heap: Heap, clientThrows: bool)
    returns (outcome: Outcome, attributesAfter: Value, heapAfter: Heap)
    requires WellFormed(attributes, heap) && ValidValue(message, |heap|)
    ensures CaptureResult(outcome, attributesAfter, heapAfter)
         == CaptureException(attributes, message, level, heap, clientThrows)
  {
    var p := PrepareCapture(attributes, message, heap);
    attributesAfter := if attributes.Str? then attributes else p.attributes;
    match p
    case Stop(o, _, heap1) =>
      outcome, heapAfter := o, heap1;
    case Ready(attrs, error, heap1) =>
      outcome, heapAfter := ReportCapture(attrs, error, level, heap1, clientThrows);
  }
}
