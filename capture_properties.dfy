/** What `captureException` promises, proved about its specification. */
module CaptureProperties {
  import opened JsStrings
  import opened JsValues
  import opened ErrorCapture

  // ---------- property lists built by appending ----------

  /** Appending a new key: the lookups of the longer list. */
  lemma SnocLookup(f: Fields, k: string, v: Value, k': string)
    requires !HasKey(f, k)
    ensures Lookup(f + [(k, v)], k') == if k' == k then v else Lookup(f, k')
    ensures HasKey(f + [(k, v)], k') <==> k' == k || HasKey(f, k')
  {
    PutLookup(f, k, v, k');
  }

  lemma LastKeyIsNew(f: Fields)
    requires DistinctKeys(f) && f != []
    ensures !HasKey(f[..|f| - 1], f[|f| - 1].0)
    ensures DistinctKeys(f[..|f| - 1])
    ensures f == f[..|f| - 1] + [f[|f| - 1]]
  {
    KeyIndexNone(f[..|f| - 1], f[|f| - 1].0);
  }

  // ---------- tags and extra ----------

  /** The tags are exactly the string-valued attributes whose key contains
      "_id", with their values. */
  lemma {:induction false} TagsOfExact(entries: Fields, k: string)
    requires DistinctKeys(entries)
    ensures HasKey(TagsOf(entries), k) <==>
      HasKey(entries, k) && Contains(k, "_id") && Lookup(entries, k).Str?
    ensures Lookup(TagsOf(entries), k) ==
      if Contains(k, "_id") && Lookup(entries, k).Str? then Lookup(entries, k) else Undefined
    decreases |entries|
  {
    if entries != [] {
      var p := entries[..|entries| - 1];
      var (k0, v0) := entries[|entries| - 1];
      LastKeyIsNew(entries);
      TagsOfExact(p, k);
      SnocLookup(p, k0, v0, k);
      if Contains(k0, "_id") && v0.Str? {
        PutLookup(TagsOf(p), k0, v0, k);
      }
    } else {
      KeyIndexNone(TagsOf(entries), k);
    }
  }

  /** The extra data holds every attribute under its own key; a present
      `req` is replaced, in place, by the request snapshot. */
  lemma ExtraOfExact(attributes: Value, entries: Fields, heap: Heap, k: string)
    requires WellFormed(attributes, heap) && !IsNullish(attributes)
    ensures var req := Prop(attributes, "req", heap);
      && (HasKey(ExtraOf(attributes, entries, heap), k) <==>
            HasKey(entries, k) || (k == "req" && !IsNullish(req)))
      && Lookup(ExtraOf(attributes, entries, heap), k) ==
           if k == "req" && !IsNullish(req) then RequestSnapshot(req, heap) else Lookup(entries, k)
  {
    PropValid(attributes, "req", heap);
    var req := Prop(attributes, "req", heap);
    if !IsNullish(req) {
      PutLookup(entries, "req", RequestSnapshot(req, heap), k);
    }
  }

  // ---------- marking ----------

  predicate Mentions(entries: Fields, id: ErrorId) {
    exists i :: 0 <= i < |entries| && entries[i].1 == ErrorRef(id)
  }

  /** After a submission exactly the Error instances among the attributes are
      flagged as reported, and nothing else about any Error changes. */
  lemma {:induction false} MarkAllExact(entries: Fields, heap: Heap, id: ErrorId)
    requires id < |heap|
    ensures MarkAll(entries, heap)[id] == if Mentions(entries, id) then Flag(heap[id]) else heap[id]
    decreases |entries|
  {
    if entries != [] {
      var p := entries[..|entries| - 1];
      MarkAllExact(p, heap, id);
      FlagSetsOnlyTheMarker(heap[id], "");
      assert Mentions(entries, id) <==> Mentions(p, id) || entries[|entries| - 1].1 == ErrorRef(id) by {
        if Mentions(entries, id) {
          var i :| 0 <= i < |entries| && entries[i].1 == ErrorRef(id);
          if i < |entries| - 1 {
            assert p[i].1 == ErrorRef(id);
          }
        }
        if Mentions(p, id) {
          var i :| 0 <= i < |p| && p[i].1 == ErrorRef(id);
          assert entries[i].1 == ErrorRef(id);
        }
      }
    }
  }

  // ---------- the path ----------

  /** Stripping the path removes the first ` '<path>'` from the message, and
      putting it back gives the old message; no other property changes. */
  lemma StripPathSpec(id: ErrorId, heap: Heap, p: string, m: string, k: string)
    requires HeapValid(heap) && id < |heap|
    requires ErrGet(heap[id], "path") == Str(p) && p != ""
    requires ErrGet(heap[id], "message") == Str(m)
    ensures var e' := StripPath(ErrorRef(id), heap)[id];
      && (k != "message" ==> ErrGet(e', k) == ErrGet(heap[id], k))
      && ErrGet(e', "message").Str?
      && var m' := ErrGet(e', "message").s;
         if Contains(m, PathPattern(p)) then
           var i := IndexOf(m, PathPattern(p)).value;
           i <= |m'| && m'[..i] + PathPattern(p) + m'[i..] == m
         else m' == m
  {
    var m' := ReplaceFirst(m, PathPattern(p), "");
    assert PathText(Str(p)) == Some(p);
    assert StripPath(ErrorRef(id), heap)[id] == ErrPut(heap[id], "message", Str(m'));
    ErrPutGet(heap[id], "message", Str(m'), k);
    ErrPutGet(heap[id], "message", Str(m'), "message");
    if Contains(m, PathPattern(p)) {
      RemoveFirstInverse(m, PathPattern(p));
    }
  }

  /** An Error with a truthy `path` and a message that is not a string is
      left unchanged: the `replace` call throws, and that exception is
      ignored. */
  lemma StripPathIgnoresNonStringMessage(id: ErrorId, heap: Heap)
    requires HeapValid(heap) && id < |heap|
    requires Truthy(ErrGet(heap[id], "path"))
    requires !ErrGet(heap[id], "message").Str?
    ensures StripPath(ErrorRef(id), heap) == heap
  {
  }

  // ---------- the rebuild ----------

  lemma {:induction false} CopyFieldsGet(e: ErrorObj, f: Fields, k: string)
    requires DistinctKeys(f)
    ensures ErrGet(CopyFields(e, f), k) == if HasKey(f, k) then Lookup(f, k) else ErrGet(e, k)
    decreases |f|
  {
    if f != [] {
      var p := f[..|f| - 1];
      var (k0, v0) := f[|f| - 1];
      LastKeyIsNew(f);
      CopyFieldsGet(e, p, k);
      ErrPutGet(CopyFields(e, p), k0, v0, k);
      SnocLookup(p, k0, v0, k);
    } else {
      KeyIndexNone(f, k);
    }
  }

  /** A plain-object error becomes a new Error instance with the same message
      and every one of its properties; without a `message` property it gets
      the empty message every Error has. */
  lemma RebuildKeepsMessageAndFields(f: Fields, heap: Heap, k: string)
    requires WellFormed(Obj(f), heap)
    ensures var (error, heap') := Rebuilt(Obj(f), heap);
      && error == ErrorRef(|heap|)
      && (HasKey(f, k) ==> ErrGet(heap'[|heap|], k) == Lookup(f, k))
      && (!HasKey(f, k) && k != "message" ==> ErrGet(heap'[|heap|], k) == Undefined)
      && (!HasKey(f, "message") ==> ErrGet(heap'[|heap|], "message") == Str(""))
  {
    var message := Lookup(f, "message");
    CopyFieldsGet(NewError(message), f, k);
    CopyFieldsGet(NewError(message), f, "message");
  }

  // ---------- the whole pipeline ----------

  /** Only null or undefined attributes make the call throw, and then nothing
      changes. */
  lemma AttributesThrowIff(attributes: Value, message: Value, level: string, heap: Heap, clientThrows: bool)
    requires WellFormed(attributes, heap) && ValidValue(message, |heap|)
    ensures var r := CaptureException(attributes, message, level, heap, clientThrows);
      && (r.outcome == AttributesThrew <==> IsNullish(attributes))
      && (r.outcome == AttributesThrew ==> r.heap == heap && r.attributes == attributes)
  {
    PrepareStops(attributes, message, heap);
  }

  /** The fresh Error a string is wrapped into has never been reported. */
  lemma WrappedNotReported(s: string, heap: Heap)
    requires HeapValid(heap)
    ensures !HasReportedError(Entries(Obj([("err", ErrorRef(|heap|))]), heap + [NewError(Str(s))]),
                              heap + [NewError(Str(s))])
  {
    assert !HasKey(NewError(Str(s)).fields, "reportedToSentry");
  }

  /** A capture stops as a duplicate exactly when one of the attributes is an
      Error already flagged as reported, and then changes nothing. */
  lemma DuplicateIff(attributes: Value, message: Value, level: string, heap: Heap, clientThrows: bool)
    requires WellFormed(attributes, heap) && ValidValue(message, |heap|)
    ensures var r := CaptureException(attributes, message, level, heap, clientThrows);
      && (r.outcome == AlreadyReported <==>
            !IsNullish(attributes) && !attributes.Str? && HasReportedError(Entries(attributes, heap), heap))
      && (r.outcome == AlreadyReported ==> r.heap == heap && r.attributes == attributes)
  {
    PrepareStops(attributes, message, heap);
  }

  /** The two early stops of the preparation: a throw on null or undefined
      attributes, and a duplicate; either leaves everything as it was. */
  lemma PrepareStops(attributes: Value, message: Value, heap: Heap)
    requires WellFormed(attributes, heap) && ValidValue(message, |heap|)
    ensures var p := Prepare(attributes, message, heap);
      && (p.Stop? && p.outcome == AttributesThrew <==> IsNullish(attributes))
      && (p.Stop? && p.outcome == AlreadyReported <==>
            !IsNullish(attributes) && !attributes.Str? && HasReportedError(Entries(attributes, heap), heap))
      && (p.Stop? && (p.outcome == AttributesThrew || p.outcome == AlreadyReported) ==>
            p.heap == heap && p.attributes == attributes)
  {
    if attributes.Str? {
      WrappedNotReported(attributes.s, heap);
    } else if !IsNullish(attributes) {
      assert Wrap(attributes, heap) == (attributes, heap);
    }
  }

  /** `error("boom")`: the string becomes an Error with that message, which
      is submitted and then flagged as reported. */
  lemma StringIsWrapped(s: string, message: Value, level: string, heap: Heap)
    requires HeapValid(heap) && ValidValue(message, |heap|)
    ensures var r := CaptureException(Str(s), message, level, heap, false);
      && r.outcome.Submitted?
      && r.outcome.submission.error == ErrorRef(|heap|)
      && |r.heap| == |heap| + 1
      && ErrGet(r.heap[|heap|], "message") == Str(s)
      && Reported(r.heap[|heap|])
      && r.attributes == Str(s)
  {
    var n := |heap|;
    var e := NewError(Str(s));
    PrepareString(s, message, heap);
    var p := Prepare(Str(s), message, heap);
    var fields := p.attributes.fields;
    var report := Report(p.attributes, p.error, level, p.heap, false);
    assert StripPath(ErrorRef(n), p.heap) == p.heap by {
      assert ErrGet(e, "path") == Undefined;
    }
    assert report.1 == MarkAll(fields, p.heap);
    MarkAllExact(fields, p.heap, n);
    FlagSetsOnlyTheMarker(e, "message");
  }

  /** A string argument is wrapped into a fresh Error that the attributes
      refer to, and that Error is the one selected. */
  lemma PrepareString(s: string, message: Value, heap: Heap)
    requires HeapValid(heap) && ValidValue(message, |heap|)
    ensures var p := Prepare(Str(s), message, heap);
      && p.Ready? && p.error == ErrorRef(|heap|) && p.heap == heap + [NewError(Str(s))]
      && p.attributes.Obj? && Mentions(p.attributes.fields, |heap|)
  {
    var n := |heap|;
    WrappedNotReported(s, heap);
    var p := Prepare(Str(s), message, heap);
    assert p.Ready? && p.error == ErrorRef(n) && p.heap == heap + [NewError(Str(s))];
    assert p.attributes.fields[0].1 == ErrorRef(n) by {
      if !IsNullish(message) {
        assert p.attributes == Obj(Put([("err", ErrorRef(n))], "description", message));
      }
    }
  }

  /** Preparing attributes that hold an error: the error is `err || error`
      and a non-null message is recorded as `description`. */
  lemma PrepareWithError(f: Fields, message: Value, heap: Heap)
    requires WellFormed(Obj(f), heap) && ValidValue(message, |heap|)
    requires !HasReportedError(f, heap)
    requires !IsNullish(Or(Lookup(f, "err"), Lookup(f, "error")))
    ensures Prepare(Obj(f), message, heap)
         == Ready(if IsNullish(message) then Obj(f) else Obj(Put(f, "description", message)),
                  Or(Lookup(f, "err"), Lookup(f, "error")), heap)
  {
  }

  /** With an error among the attributes (`err` before `error`) that is not a
      plain object, that error itself is submitted, and a non-null message
      becomes the attributes' `description`, which the extra data carries. */
  lemma SelectedErrorIsSubmitted(f: Fields, message: Value, level: string, heap: Heap)
    requires WellFormed(Obj(f), heap) && ValidValue(message, |heap|)
    requires !HasReportedError(f, heap)
    requires var error := Or(Lookup(f, "err"), Lookup(f, "error"));
      !IsNullish(error) && !error.Obj?
    ensures var r := CaptureException(Obj(f), message, level, heap, false);
      && r.outcome.Submitted?
      && r.outcome.submission.error == Or(Lookup(f, "err"), Lookup(f, "error"))
      && r.outcome.submission.level == level
      && (IsNullish(message) ==> r.attributes == Obj(f))
      && (!IsNullish(message) ==>
            r.attributes == Obj(Put(f, "description", message))
            && Lookup(r.outcome.submission.extra, "description") == message)
  {
    var error := Or(Lookup(f, "err"), Lookup(f, "error"));
    PrepareWithError(f, message, heap);
    var attrs := if IsNullish(message) then Obj(f) else Obj(Put(f, "description", message));
    var r := CaptureException(Obj(f), message, level, heap, false);
    var report := Report(attrs, error, level, heap, false);
    assert r.outcome == report.0 && r.attributes == attrs;
    assert Rebuilt(error, heap) == (error, heap);
    assert report.0.submission == Submission(error, TagsOf(attrs.fields), ExtraOf(attrs, attrs.fields, heap), level);
    if !IsNullish(message) {
      PutLookup(f, "description", message, "description");
      ExtraOfExact(attrs, attrs.fields, heap, "description");
    }
  }

  /** With no error among the attributes, a string message is submitted as a
      new Error carrying that message, and the attributes stay as they are.
      This holds for a plain object and for an Error instance given as the
      attributes (`error(err, "msg")`, where `err.err` and `err.error` are
      unset): afterwards exactly the Errors among the attributes' own
      properties are flagged, so such an instance is not flagged itself
      unless it refers to itself. */
  lemma MessageBecomesError(attributes: Value, m: string, level: string, heap: Heap, id: ErrorId)
    requires WellFormed(attributes, heap) && (attributes.Obj? || attributes.ErrorRef?)
    requires !HasReportedError(Entries(attributes, heap), heap)
    requires IsNullish(SelectError(attributes, heap))
    requires id < |heap|
    ensures var r := CaptureException(attributes, Str(m), level, heap, false);
      && r.outcome.Submitted?
      && r.outcome.submission.error == ErrorRef(|heap|)
      && |r.heap| == |heap| + 1
      && ErrGet(r.heap[|heap|], "message") == Str(m)
      && !Reported(r.heap[|heap|])
      && r.heap[id] == (if Mentions(Entries(attributes, heap), id) then Flag(heap[id]) else heap[id])
      && r.attributes == attributes
  {
    var synthesised := [("message", Str(m))];
    assert Wrap(attributes, heap) == (attributes, heap);
    assert Prepare(attributes, Str(m), heap) == Ready(attributes, Obj(synthesised), heap);
    ReportOfMessage(attributes, m, level, heap, id);
  }

  /** Report of the Error synthesised from a message: a fresh unflagged Error
      with that message, and exactly the Errors among the attributes flagged. */
  lemma ReportOfMessage(attributes: Value, m: string, level: string, heap: Heap, id: ErrorId)
    requires WellFormed(attributes, heap) && (attributes.Obj? || attributes.ErrorRef?)
    requires id < |heap|
    ensures var (outcome, heap') := Report(attributes, Obj([("message", Str(m))]), level, heap, false);
      && outcome.Submitted?
      && outcome.submission.error == ErrorRef(|heap|)
      && |heap'| == |heap| + 1
      && ErrGet(heap'[|heap|], "message") == Str(m)
      && !Reported(heap'[|heap|])
      && heap'[id] == (if Mentions(Entries(attributes, heap), id) then Flag(heap[id]) else heap[id])
  {
    var n := |heap|;
    var synthesised := [("message", Str(m))];
    RebuildKeepsMessageAndFields(synthesised, heap, "message");
    RebuildKeepsMessageAndFields(synthesised, heap, "reportedToSentry");
    RebuildKeepsMessageAndFields(synthesised, heap, "path");
    var (error1, heap1) := Rebuilt(Obj(synthesised), heap);
    assert StripPath(error1, heap1) == heap1;
    assert heap1[..n] == heap;
    var entries := Entries(attributes, heap);
    assert Entries(attributes, heap1) == entries by {
      if attributes.ErrorRef? {
        assert heap1[attributes.id] == heap1[..n][attributes.id];
      }
    }
    assert Report(attributes, Obj(synthesised), level, heap, false).1 == MarkAll(entries, heap1);
    assert !Mentions(entries, n) by {
      EntriesValid(attributes, heap);
      forall i | 0 <= i < |entries| ensures entries[i].1 != ErrorRef(n) {
        assert ValidValue(entries[i].1, n);
      }
    }
    MarkAllExact(entries, heap1, n);
    MarkAllExact(entries, heap1, id);
    assert heap1[id] == heap1[..n][id];
  }

  /** With no error among the attributes and a message that is not a string,
      nothing is submitted and nothing changes. */
  lemma NothingWithoutErrorOrMessage(attributes: Value, message: Value, level: string, heap: Heap, clientThrows: bool)
    requires WellFormed(attributes, heap) && ValidValue(message, |heap|)
    requires !IsNullish(attributes) && !attributes.Str?
    requires !HasReportedError(Entries(attributes, heap), heap)
    requires IsNullish(SelectError(attributes, heap)) && !message.Str?
    ensures CaptureException(attributes, message, level, heap, clientThrows)
         == CaptureResult(NothingToReport, attributes, heap)
  {
  }

  /** Stripping the path changes nothing but the message. */
  lemma StripPathKeepsOthers(error: Value, heap: Heap, id: ErrorId, k: string)
    requires WellFormed(error, heap) && id < |heap| && k != "message"
    ensures ErrGet(StripPath(error, heap)[id], k) == ErrGet(heap[id], k)
  {
    if error == ErrorRef(id) {
      var e := heap[id];
      var path := ErrGet(e, "path");
      var m := ErrGet(e, "message");
      if Truthy(path) && PathText(path).Some? && m.Str? {
        ErrPutGet(e, "message", Str(ReplaceFirst(m.s, PathPattern(PathText(path).value), "")), k);
      }
    }
  }

  /** Preparing plain-object attributes touches no Error and keeps them a
      plain object. */
  lemma PrepareObj(f: Fields, message: Value, heap: Heap)
    requires WellFormed(Obj(f), heap) && ValidValue(message, |heap|)
    ensures var prepared := Prepare(Obj(f), message, heap);
      && prepared.heap == heap
      && (prepared.attributes == Obj(f) || prepared.attributes == Obj(Put(f, "description", message)))
  {
    assert Wrap(Obj(f), heap) == (Obj(f), heap);
    if !IsNullish(message) {
      assert Assign(Obj(f), "description", message, heap) == (Obj(Put(f, "description", message)), heap);
    }
  }

  lemma ReportReported(fields: Fields, error: Value, level: string, heap: Heap, clientThrows: bool, id: ErrorId)
    requires WellFormed(Obj(fields), heap) && ValidValue(error, |heap|) && id < |heap|
    ensures Reported(Report(Obj(fields), error, level, heap, clientThrows).1[id]) <==>
      Reported(heap[id]) || (!clientThrows && Mentions(fields, id))
  {
    var rebuilt := Rebuilt(error, heap);
    var heap2 := StripPath(rebuilt.0, rebuilt.1);
    assert rebuilt.1[id] == heap[id] by {
      assert rebuilt.1[..|heap|][id] == heap[id];
    }
    StripPathKeepsOthers(rebuilt.0, rebuilt.1, id, "reportedToSentry");
    if !clientThrows {
      assert Report(Obj(fields), error, level, heap, clientThrows).1 == MarkAll(fields, heap2);
      MarkAllExact(fields, heap2, id);
      FlagSetsOnlyTheMarker(heap2[id], "");
    } else {
      assert Report(Obj(fields), error, level, heap, clientThrows).1 == heap2;
    }
  }

  /** Plain-object attributes stay a plain object that refers only to Errors
      that existed before. */
  lemma CaptureObjShape(f: Fields, message: Value, level: string, heap: Heap, clientThrows: bool)
    requires WellFormed(Obj(f), heap) && ValidValue(message, |heap|)
    ensures var r := CaptureException(Obj(f), message, level, heap, clientThrows);
      && var prepared := Prepare(Obj(f), message, heap);
      && r.attributes.Obj? && ValidValue(r.attributes, |heap|) && |heap| <= |r.heap|
      && r.attributes == prepared.attributes
      && prepared.heap == heap
      && (prepared.Stop? ==> r.heap == heap && r.outcome == prepared.outcome)
      && (prepared.Ready? ==>
            (r.outcome, r.heap) == Report(prepared.attributes, prepared.error, level, heap, clientThrows))
  {
    PrepareObj(f, message, heap);
  }

  /** For attributes given as a plain object: afterwards an Error that existed
      before is reported exactly when it was reported already, or the capture
      submitted and the Error is one of the attributes. A client that throws
      therefore flags nothing. */
  lemma ReportedAfterCapture(f: Fields, message: Value, level: string, heap: Heap, clientThrows: bool, id: ErrorId)
    requires WellFormed(Obj(f), heap) && ValidValue(message, |heap|) && id < |heap|
    ensures var r := CaptureException(Obj(f), message, level, heap, clientThrows);
      && r.attributes.Obj?
      && (Reported(r.heap[id]) <==>
            Reported(heap[id]) || (r.outcome.Submitted? && Mentions(r.attributes.fields, id)))
  {
    var prepared := Prepare(Obj(f), message, heap);
    CaptureObjShape(f, message, level, heap, clientThrows);
    if prepared.Ready? {
      ReportReported(prepared.attributes.fields, prepared.error, level, heap, clientThrows, id);
    }
  }

  /** After a submission, each Error among the plain-object attributes is
      flagged as reported. */
  lemma FlaggedAfterSubmission(f: Fields, message: Value, level: string, heap: Heap,
                               first: CaptureResult, i: nat)
    requires WellFormed(Obj(f), heap) && ValidValue(message, |heap|)
    requires first == CaptureException(Obj(f), message, level, heap, false)
    requires first.outcome.Submitted? && first.attributes.Obj?
    requires i < |first.attributes.fields| && first.attributes.fields[i].1.ErrorRef?
    ensures IsReportedError(first.attributes.fields[i].1, first.heap)
  {
    var fields := first.attributes.fields;
    var id := fields[i].1.id;
    CaptureRefsExist(f, message, level, heap, false, first, i);
    assert Mentions(fields, id);
    ReportedAfterCapture(f, message, level, heap, false, id);
  }

  /** The Errors that plain-object attributes refer to after a capture all
      existed before it. */
  lemma CaptureRefsExist(f: Fields, message: Value, level: string, heap: Heap, clientThrows: bool,
                         r: CaptureResult, i: nat)
    requires WellFormed(Obj(f), heap) && ValidValue(message, |heap|)
    requires r == CaptureException(Obj(f), message, level, heap, clientThrows)
    requires r.attributes.Obj? && i < |r.attributes.fields| && r.attributes.fields[i].1.ErrorRef?
    ensures r.attributes.fields[i].1.id < |heap|
  {
    CaptureObjShape(f, message, level, heap, clientThrows);
    FieldRefBelow(r.attributes.fields, |heap|, i);
  }

  lemma FieldRefBelow(fields: Fields, size: nat, i: nat)
    requires ValidValue(Obj(fields), size)
    requires i < |fields| && fields[i].1.ErrorRef?
    ensures fields[i].1.id < size
  {
    assert ValidValue(fields[i].1, size);
  }

  /** Capturing the same plain-object attributes again, after a submission
      that flagged an Error among them, is suppressed as a duplicate and
      changes nothing. */
  lemma SecondCaptureSuppressed(f: Fields, message: Value, level: string, heap: Heap,
                                first: CaptureResult, message2: Value, level2: string, clientThrows2: bool)
    requires WellFormed(Obj(f), heap) && ValidValue(message, |heap|)
    requires first == CaptureException(Obj(f), message, level, heap, false)
    requires ValidValue(message2, |first.heap|)
    requires first.outcome.Submitted? && first.attributes.Obj?
    requires exists i :: 0 <= i < |first.attributes.fields| && first.attributes.fields[i].1.ErrorRef?
    ensures CaptureException(first.attributes, message2, level2, first.heap, clientThrows2)
         == CaptureResult(AlreadyReported, first.attributes, first.heap)
  {
    var i :| 0 <= i < |first.attributes.fields| && first.attributes.fields[i].1.ErrorRef?;
    FlaggedAfterSubmission(f, message, level, heap, first, i);
    assert HasReportedError(Entries(first.attributes, first.heap), first.heap);
    DuplicateIff(first.attributes, message2, level2, first.heap, clientThrows2);
  }

  /** A text without the first character of a pattern does not contain it. */
  lemma MissingFirstChar(s: string, pattern: string)
    requires pattern != [] && pattern[0] !in s
    ensures !Contains(s, pattern)
  {
    ContainsIff(s, pattern);
    forall i | 0 <= i <= |s| ensures !OccursAt(s, pattern, i) {
      if i + |pattern| <= |s| {
        assert s[i..i + |pattern|][0] == s[i];
      }
    }
  }

  /** What Report submits as tags and extra data: both are built from the
      attributes' own properties as they are at submission time. */
  lemma ReportTagsAndExtra(attributes: Value, error: Value, level: string, heap: Heap)
    requires WellFormed(attributes, heap) && ValidValue(error, |heap|)
    requires !IsNullish(attributes) && !attributes.Str?
    ensures var submission := Report(attributes, error, level, heap, false).0.submission;
      && submission.tags == TagsOf(Entries(attributes, heap))
      && submission.extra == ExtraOf(attributes, Entries(attributes, heap), heap)
      && submission.level == level
  {
  }

  /** Preparing a plain object or an Error instance gives attributes of the
      same kind (the very instance, for an Error), whose own properties gain
      at most `description`. */
  lemma PrepareEntries(attributes: Value, message: Value, heap: Heap)
    requires WellFormed(attributes, heap) && ValidValue(message, |heap|)
    requires attributes.Obj? || attributes.ErrorRef?
    ensures var p := Prepare(attributes, message, heap);
      p.Ready? ==>
        && (if attributes.Obj? then p.attributes.Obj? else p.attributes == attributes)
        && (Entries(p.attributes, p.heap) == Entries(attributes, heap)
            || Entries(p.attributes, p.heap) == Put(Entries(attributes, heap), "description", message))
  {
    assert Wrap(attributes, heap) == (attributes, heap);
    var p := Prepare(attributes, message, heap);
    var error := SelectError(attributes, heap);
    if !HasReportedError(Entries(attributes, heap), heap) && !IsNullish(error) && !IsNullish(message) {
      var (attrs2, heap2) := Assign(attributes, "description", message, heap);
      assert p == Ready(attrs2, error, heap2);
      if attributes.ErrorRef? {
        var e := heap[attributes.id];
        assert heap2[attributes.id] == ErrPut(e, "description", message);
        assert ErrPut(e, "description", message).fields == Put(e.fields, "description", message);
      }
    } else {
      assert p.Ready? ==> p.heap == heap && p.attributes == attributes;
    }
  }

  lemma IdAttributeOfFields(attributes: Value, f: Fields, fields: Fields, message: Value, heap: Heap, k: string)
    requires WellFormed(attributes, heap) && !IsNullish(attributes)
    requires fields == f || fields == Put(f, "description", message)
    requires DistinctKeys(fields)
    requires Contains(k, "_id") && Lookup(f, k).Str?
    ensures Lookup(TagsOf(fields), k) == Lookup(f, k)
    ensures Lookup(ExtraOf(attributes, fields, heap), k) == Lookup(f, k)
  {
    MissingFirstChar("description", "_id");
    MissingFirstChar("req", "_id");
    PutLookup(f, "description", message, k);
    TagsOfExact(fields, k);
    ExtraOfExact(attributes, fields, heap, k);
  }

  /** A string-valued attribute whose key contains "_id" is submitted both
      as a tag and in the extra data, whether the attributes are a plain
      object or an Error instance. */
  lemma IdAttributeInTagsAndExtra(attributes: Value, message: Value, level: string, heap: Heap,
                                  r: CaptureResult, k: string)
    requires WellFormed(attributes, heap) && ValidValue(message, |heap|)
    requires attributes.Obj? || attributes.ErrorRef?
    requires r == CaptureException(attributes, message, level, heap, false) && r.outcome.Submitted?
    requires Contains(k, "_id") && Lookup(Entries(attributes, heap), k).Str?
    ensures Lookup(r.outcome.submission.tags, k) == Lookup(Entries(attributes, heap), k)
    ensures Lookup(r.outcome.submission.extra, k) == Lookup(Entries(attributes, heap), k)
  {
    var p := Prepare(attributes, message, heap);
    PrepareEntries(attributes, message, heap);
    assert p.Ready?;
    assert r.outcome == Report(p.attributes, p.error, level, p.heap, false).0;
    ReportTagsAndExtra(p.attributes, p.error, level, p.heap);
    EntriesValid(p.attributes, p.heap);
    IdAttributeOfFields(p.attributes, Entries(attributes, heap), Entries(p.attributes, p.heap), message, p.heap, k);
  }

  // ---------- the reported flag ----------

  /** The error `err || error` that preparation selects is one of the
      attributes' own properties. */
  lemma SelectedIsAttribute(attributes: Value, heap: Heap)
    requires WellFormed(attributes, heap) && !IsNullish(attributes) && !attributes.Str?
    ensures var error := SelectError(attributes, heap);
      error.ErrorRef? ==> Mentions(Entries(attributes, heap), error.id)
  {
    var f := Entries(attributes, heap);
    var error := SelectError(attributes, heap);
    if error.ErrorRef? {
      var k := if Truthy(Prop(attributes, "err", heap)) then "err" else "error";
      assert error == Lookup(f, k);
      var i := KeyIndex(f, k).value;
      assert f[i].1 == error;
    }
  }

  /** An Error instance already flagged as reported is never submitted
      again, whatever the attributes: the dedupe loop sees every Error that
      `err || error` can select, and any other submitted error is new. */
  lemma ReportedErrorNotForwarded(attributes: Value, message: Value, level: string, heap: Heap, clientThrows: bool)
    requires WellFormed(attributes, heap) && ValidValue(message, |heap|)
    ensures var r := CaptureException(attributes, message, level, heap, clientThrows);
      r.outcome.Submitted? ==> !IsReportedError(r.outcome.submission.error, heap)
  {
    var p := Prepare(attributes, message, heap);
    if p.Ready? {
      var r := CaptureException(attributes, message, level, heap, clientThrows);
      var report := Report(p.attributes, p.error, level, p.heap, clientThrows);
      assert r.outcome == report.0;
      var error1 := Rebuilt(p.error, p.heap).0;
      assert report.0.Submitted? ==> report.0.submission.error == error1;
      PreparedErrorNotReported(attributes, message, heap);
    }
  }

  /** The error preparation hands on is never an Error already flagged. */
  lemma PreparedErrorNotReported(attributes: Value, message: Value, heap: Heap)
    requires WellFormed(attributes, heap) && ValidValue(message, |heap|)
    ensures var p := Prepare(attributes, message, heap);
      p.Ready? ==> !IsReportedError(p.error, heap) && !IsReportedError(Rebuilt(p.error, p.heap).0, heap)
  {
    var p := Prepare(attributes, message, heap);
    if attributes.Str? {
      PrepareString(attributes.s, message, heap);
    } else if p.Ready? && p.error.ErrorRef? && p.error.id < |heap| {
      assert Wrap(attributes, heap) == (attributes, heap);
      assert p.error == SelectError(attributes, heap);
      SelectedIsAttribute(attributes, heap);
      var entries := Entries(attributes, heap);
      var i :| 0 <= i < |entries| && entries[i].1 == p.error;
      assert !IsReportedError(entries[i].1, heap);
    }
  }

  /** A plain-object error that carries `reportedToSentry: true` is not an
      Error instance, so the dedupe loop does not stop it; the rebuild copies
      the flag onto the fresh Error, and that Error is submitted. */
  lemma PlainReportedErrorForwarded(level: string, heap: Heap)
    requires HeapValid(heap)
    ensures var inner := [("message", Str("x")), ("reportedToSentry", Bool(true))];
      && WellFormed(Obj([("err", Obj(inner))]), heap)
      && var r := CaptureException(Obj([("err", Obj(inner))]), Undefined, level, heap, false);
      && r.outcome.Submitted?
      && r.outcome.submission.error == ErrorRef(|heap|)
      && Reported(r.heap[|heap|])
  {
    var n := |heap|;
    var inner := [("message", Str("x")), ("reportedToSentry", Bool(true))];
    var f := [("err", Obj(inner))];
    assert DistinctKeys(inner) && ValidValue(Obj(inner), n);
    assert DistinctKeys(f) && ValidValue(Obj(f), n);
    assert !HasReportedError(f, heap);
    assert Lookup(f, "err") == Obj(inner);
    assert Prepare(Obj(f), Undefined, heap) == Ready(Obj(f), Obj(inner), heap);
    RebuildKeepsMessageAndFields(inner, heap, "reportedToSentry");
    assert Lookup(inner, "reportedToSentry") == Bool(true);
    RebuildKeepsMessageAndFields(inner, heap, "path");
    var (error1, heap1) := Rebuilt(Obj(inner), heap);
    assert StripPath(error1, heap1) == heap1;
    assert Report(Obj(f), Obj(inner), level, heap, false).1 == MarkAll(f, heap1);
    assert !Mentions(f, n);
    MarkAllExact(f, heap1, n);
  }

  /** A file-system error `{message: "failed '/tmp/x'", path: "/tmp/x"}` is
      reported with the message "failed". */
  lemma StripPathExample()
    ensures var e := ErrorObj(Some(Str("failed '/tmp/x'")), [("path", Str("/tmp/x"))]);
      ErrGet(StripPath(ErrorRef(0), [e])[0], "message") == Str("failed")
  {
    var pattern := PathPattern("/tmp/x");
    var m := "failed" + pattern;
    assert m == "failed '/tmp/x'";
    assert m[6..] == pattern;
    FirstOccurrence(m, pattern, 6);
    assert ReplaceFirst(m, pattern, "") == "failed" by {
      assert m[..6] == "failed";
    }
    var e := ErrorObj(Some(Str(m)), [("path", Str("/tmp/x"))]);
    assert PathText(Str("/tmp/x")) == Some("/tmp/x");
    ErrPutGet(e, "message", Str("failed"), "message");
  }

  /** A pattern occurs first at `i` when it occurs there and its first
      character does not appear before. */
  lemma FirstOccurrence(m: string, pattern: string, i: nat)
    requires pattern != [] && OccursAt(m, pattern, i)
    requires forall j :: 0 <= j < i ==> m[j] != pattern[0]
    ensures IndexOf(m, pattern) == Some(i)
  {
    forall j | 0 <= j < i
      ensures !OccursAt(m, pattern, j)
    {
      if j + |pattern| <= |m| {
        assert m[j..j + |pattern|][0] == m[j];
      }
    }
  }
}
