/** The rate limiter on the `error` path: a window that opens at the first
    error call after the previous window has expired, and the decision, per
    call, whether the error goes to the error tracker and with which level
    label. */
module RateLimit {
  import opened JsStrings

  /** Reports per window. */
  const MAX_ERRORS: int := 5
  /** Window length in milliseconds. */
  const WINDOW_MS: int := 60 * 1000

  const ERROR_LABEL := "error"
  const RATE_LIMITED_LABEL := "error(rate limited)"

  /** `lastErrorTimeStamp` and `lastErrorCount` of a logger. */
  datatype Window = Window(timestamp: int, count: int)

  /** The window after an error call at time `now`: a call less than a window
      length after the window's start counts in it, any later one opens a new
      window at `now`. */
  function Tick(w: Window, now: int): (r: Window)
    ensures now - r.timestamp < WINDOW_MS
    ensures r.timestamp == w.timestamp || r == Window(now, 0)
  {
    if now - w.timestamp < WINDOW_MS then Window(w.timestamp, w.count + 1)
    else Window(now, 0)
  }

  /** What the call that leaves the window at `count` does: None when it is
      not reported, else the level label of its report. The last report of a
      window carries the "(rate limited)" note. */
  function Label(count: int): (r: Option<string>)
    ensures r.Some? <==> count < MAX_ERRORS
  {
    if count < MAX_ERRORS then
      Some(ERROR_LABEL + (if count + 1 == MAX_ERRORS then "(rate limited)" else ""))
    else None
  }

  /** Window and decisions along error calls made at `times`, in order. */
  function Run(w: Window, times: seq<int>): (r: (Window, seq<Option<string>>))
    ensures |r.1| == |times|
    decreases |times|
  {
    if times == [] then (w, [])
    else
      var next := Tick(w, times[0]);
      var rest := Run(next, times[1..]);
      (rest.0, [Label(next.count)] + rest.1)
  }

  /** Number of calls that were reported. */
  function ReportCount(labels: seq<Option<string>>): (n: nat)
    ensures n <= |labels|
  {
    if labels == [] then 0
    else (if labels[0].Some? then 1 else 0) + ReportCount(labels[1..])
  }

  /** The labels by count: "error" for the first four reports of a window,
      "error(rate limited)" for the fifth, none after. */
  lemma LabelValues(count: int)
    ensures 0 <= count < MAX_ERRORS - 1 ==> Label(count) == Some(ERROR_LABEL)
    ensures count == MAX_ERRORS - 1 ==> Label(count) == Some(RATE_LIMITED_LABEL)
    ensures count >= MAX_ERRORS ==> Label(count) == None
  {
    assert ERROR_LABEL + "" == ERROR_LABEL;
    assert ERROR_LABEL + "(rate limited)" == RATE_LIMITED_LABEL;
  }

  function Min(a: int, b: int): int {
    if a <= b then a else b
  }

  /** The window is reset exactly when a full window length has passed:
      the comparison is strict. */
  lemma BoundaryOpensNewWindow(w: Window)
    ensures Tick(w, w.timestamp + WINDOW_MS) == Window(w.timestamp + WINDOW_MS, 0)
    ensures Tick(w, w.timestamp + WINDOW_MS - 1) == Window(w.timestamp, w.count + 1)
  {
  }

  /** Calls that all fall inside the current window only count: the window
      keeps its start, and the i-th call is decided by count + 1 + i. */
  lemma {:induction false} CallsInsideWindow(w: Window, times: seq<int>)
    requires forall i :: 0 <= i < |times| ==> times[i] - w.timestamp < WINDOW_MS
    ensures Run(w, times).0 == Window(w.timestamp, w.count + |times|)
    ensures forall i :: 0 <= i < |times| ==> Run(w, times).1[i] == Label(w.count + 1 + i)
    decreases |times|
  {
    if times != [] {
      var next := Tick(w, times[0]);
      assert next == Window(w.timestamp, w.count + 1);
      CallsInsideWindow(next, times[1..]);
      var labels := Run(w, times).1;
      assert labels == [Label(next.count)] + Run(next, times[1..]).1;
      forall i | 0 <= i < |times| ensures labels[i] == Label(w.count + 1 + i) {
        if i > 0 {
          assert labels[i] == Run(next, times[1..]).1[i - 1];
        }
      }
    }
  }

  /** The decisions of calls that find the window at counts `offset`,
      `offset + 1`, …: reports up to the window's MAX_ERRORS. */
  lemma {:induction false} WindowLabelsCount(labels: seq<Option<string>>, offset: nat)
    requires forall i :: 0 <= i < |labels| ==> labels[i] == Label(offset + i)
    ensures ReportCount(labels) == if offset >= MAX_ERRORS then 0 else Min(|labels|, MAX_ERRORS - offset)
  {
    if labels != [] {
      WindowLabelsCount(labels[1..], offset + 1);
    }
  }

  /** A window is opened by a call made a full window length or more after the
      previous window started; that call and every later call up to a window
      length after it are reported as "error" four times, then once as
      "error(rate limited)", then not at all: at most MAX_ERRORS reports per
      window. */
  lemma OneWindow(w: Window, start: int, times: seq<int>)
    requires start - w.timestamp >= WINDOW_MS
    requires forall i :: 0 <= i < |times| ==> times[i] - start < WINDOW_MS
    ensures var labels := Run(w, [start] + times).1;
      && (forall i :: 0 <= i < |labels| ==>
            labels[i] == if i < MAX_ERRORS - 1 then Some(ERROR_LABEL)
                         else if i == MAX_ERRORS - 1 then Some(RATE_LIMITED_LABEL)
                         else None)
      && ReportCount(labels) == Min(|labels|, MAX_ERRORS)
      && ReportCount(labels) <= MAX_ERRORS
  {
    var openedWindow := Tick(w, start);
    assert openedWindow == Window(start, 0);
    CallsInsideWindow(openedWindow, times);
    var labels := Run(w, [start] + times).1;
    assert ([start] + times)[1..] == times;
    assert labels == [Label(0)] + Run(openedWindow, times).1;
    forall i | 0 <= i < |labels| ensures labels[i] == Label(i) {
      if i > 0 {
        assert labels[i] == Run(openedWindow, times).1[i - 1];
      }
    }
    WindowLabelsCount(labels, 0);
    forall i | 0 <= i < |labels| ensures labels[i] == if i < MAX_ERRORS - 1 then Some(ERROR_LABEL)
                                                   else if i == MAX_ERRORS - 1 then Some(RATE_LIMITED_LABEL)
                                                   else None {
      LabelValues(i);
    }
  }

  /** Six calls within a minute of a fresh window: four "error" reports, one
      "error(rate limited)" report, one suppressed call. */
  lemma SixErrorsInOneMinute(w: Window, t: int)
    requires t - w.timestamp >= WINDOW_MS
    ensures Run(w, [t, t + 1, t + 2, t + 3, t + 4, t + 5]).1
         == [Some(ERROR_LABEL), Some(ERROR_LABEL), Some(ERROR_LABEL), Some(ERROR_LABEL),
             Some(RATE_LIMITED_LABEL), None]
  {
    var times := [t + 1, t + 2, t + 3, t + 4, t + 5];
    assert [t] + times == [t, t + 1, t + 2, t + 3, t + 4, t + 5];
    OneWindow(w, t, times);
  }

  /** Two calls 61 seconds apart, the first opening a window: the second
      opens the next window, and both are reported as "error". */
  lemma CallsSixtyOneSecondsApart(w: Window, t: int)
    requires t - w.timestamp >= WINDOW_MS
    ensures Run(w, [t, t + 61000]) == (Window(t + 61000, 0), [Some(ERROR_LABEL), Some(ERROR_LABEL)])
  {
    LabelValues(0);
    assert [t, t + 61000][1..] == [t + 61000];
    assert [t + 61000][1..] == [];
    assert Tick(w, t) == Window(t, 0);
    assert Tick(Window(t, 0), t + 61000) == Window(t + 61000, 0);
    assert Run(Window(t + 61000, 0), []) == (Window(t + 61000, 0), []);
    var last := Run(Window(t, 0), [t + 61000]);
    assert last.0 == Window(t + 61000, 0);
    assert last.1 == [Label(0)] + [];
    assert [Label(0)] + [] == [Label(0)];
    var all := Run(w, [t, t + 61000]);
    assert all.0 == last.0;
    assert all.1 == [Label(0)] + last.1;
    assert all.1 == [Some(ERROR_LABEL), Some(ERROR_LABEL)];
  }

  /** The bound holds per window, not per sliding minute: nine reports can fall
      within ten milliseconds around the start of a new window. */
  lemma NineReportsInTenMilliseconds(t: int)
    ensures var times := [t, t + 59996, t + 59997, t + 59998, t + 59999,
                          t + 60000, t + 60001, t + 60002, t + 60003, t + 60004];
      && times[9] - times[1] < 10
      && ReportCount(Run(Window(t - WINDOW_MS, 0), times).1[1..]) == 9
  {
    var first := [t + 59996, t + 59997, t + 59998, t + 59999];
    var second := [t + 60001, t + 60002, t + 60003, t + 60004];
    var times := [t] + first + [t + 60000] + second;
    assert times == [t, t + 59996, t + 59997, t + 59998, t + 59999,
                     t + 60000, t + 60001, t + 60002, t + 60003, t + 60004];
    var w := Window(t - WINDOW_MS, 0);
    var openedWindow := Window(t, 0);
    assert times[1..] == first + ([t + 60000] + second);
    CallsInsideWindow(openedWindow, first);
    var afterFirst := Run(openedWindow, first).0;
    assert afterFirst == Window(t, 4);
    OneWindow(afterFirst, t + 60000, second);
    RunAppend(openedWindow, first, [t + 60000] + second);
    var labels := Run(w, times).1;
    assert labels == [Label(0)] + Run(openedWindow, times[1..]).1;
    assert labels[1..] == Run(openedWindow, first).1 + Run(afterFirst, [t + 60000] + second).1;
    ReportCountAppend(Run(openedWindow, first).1, Run(afterFirst, [t + 60000] + second).1);
    WindowLabelsCount(Run(openedWindow, first).1, 1);
  }

  lemma {:induction false} RunAppend(w: Window, a: seq<int>, b: seq<int>)
    ensures Run(w, a + b).0 == Run(Run(w, a).0, b).0
    ensures Run(w, a + b).1 == Run(w, a).1 + Run(Run(w, a).0, b).1
    decreases |a|
  {
    if a != [] {
      assert (a + b)[1..] == a[1..] + b;
      RunAppend(Tick(w, a[0]), a[1..], b);
    } else {
      assert a + b == b;
    }
  }

  lemma {:induction false} ReportCountAppend(a: seq<Option<string>>, b: seq<Option<string>>)
    ensures ReportCount(a + b) == ReportCount(a) + ReportCount(b)
  {
    if a != [] {
      assert (a + b)[1..] == a[1..] + b;
      ReportCountAppend(a[1..], b);
    } else {
      assert a + b == b;
    }
  }
}
