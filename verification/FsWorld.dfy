/** fs-poll.c as a state machine: the poll contexts, and the steps of the user and of the loop. */
module FsWorld {
  import opened FsTrace

  /** uv_close makes it Closing, and the loop Closed just before the memory is freed. */
  datatype Timer = Inactive | Active(due: nat) | Closing | Closed

  datatype Request = Idle | InFlight | Processing(outcome: Outcome)

  /** uv_fs_poll_t. */
  class Handle {
    var active: bool
    var pollCtx: PollCtx?

    constructor ()
      ensures !active && pollCtx == null
    {
      active, pollCtx := false, null;
    }
  }

  /** struct poll_ctx, with the states of its timer and of its stat request. */
  class PollCtx {
    var parentHandle: Handle?
    var busyPolling: int
    var interval: nat
    var startTime: nat
    var statbuf: StatBuf
    var timer: Timer
    var request: Request
    ghost var results: seq<Outcome>  // the stat results it has dealt with

    constructor (h: Handle, interval: nat, now: nat)
      ensures parentHandle == h && busyPolling == 0 && this.interval == interval && startTime == now
      ensures statbuf == ZERO && timer == Inactive && request == Idle && results == []
    {
      parentHandle, busyPolling, this.interval, startTime := h, 0, interval, now;
      statbuf, timer, request, results := ZERO, Inactive, Idle, [];
    }
  }

  // ---------- the trace of a run ----------

  datatype Entry =
    | Started(c: PollCtx)
    | Called(c: PollCtx, call: Call)
    | Stopped(c: PollCtx)
    | Freed(c: PollCtx)

  predicate Mentions(log: seq<Entry>, c: PollCtx) {
    exists i :: 0 <= i < |log| && log[i].c == c
  }

  /** An entry is in order behind the entries before it. */
  predicate InOrder(before: seq<Entry>, e: Entry) {
    match e
    case Started(c) => !Mentions(before, c)
    case Called(c, _) => Started(c) in before && Stopped(c) !in before
    case Stopped(c) => Started(c) in before && Stopped(c) !in before
    case Freed(c) => Stopped(c) in before && Freed(c) !in before
  }

  predicate LogOk(log: seq<Entry>) {
    log == [] || (LogOk(log[..|log| - 1]) && InOrder(log[..|log| - 1], log[|log| - 1]))
  }

  /** The calls of the user's callback for one context. */
  function CallsOf(log: seq<Entry>, c: PollCtx): seq<Call> {
    if log == [] then []
    else
      var n := |log| - 1;
      if log[n].Called? && log[n].c == c then CallsOf(log[..n], c) + [log[n].call] else CallsOf(log[..n], c)
  }

  lemma {:induction false} EachInOrder(log: seq<Entry>, j: nat)
    requires LogOk(log) && j < |log|
    ensures InOrder(log[..j], log[j])
    decreases |log|
  {
    var n := |log| - 1;
    if j < n {
      EachInOrder(log[..n], j);
      assert log[..n][..j] == log[..j];
    }
  }

  lemma {:induction false} FreedWasStopped(log: seq<Entry>, c: PollCtx)
    requires LogOk(log) && Freed(c) in log
    ensures Stopped(c) in log && Started(c) in log
    decreases |log|
  {
    var n := |log| - 1;
    if log[n] == Freed(c) {
      StoppedWasStarted(log[..n], c);
    } else {
      FreedWasStopped(log[..n], c);
    }
  }

  lemma {:induction false} StoppedWasStarted(log: seq<Entry>, c: PollCtx)
    requires LogOk(log) && Stopped(c) in log
    ensures Started(c) in log
    decreases |log|
  {
    var n := |log| - 1;
    if log[n] != Stopped(c) { StoppedWasStarted(log[..n], c); }
  }

  /** After a context was stopped its user is not called for it any more, and it is not stopped again. */
  lemma SilentAfterStop(log: seq<Entry>, c: PollCtx, i: nat, j: nat)
    requires LogOk(log) && i < j < |log| && log[i] == Stopped(c)
    ensures log[j].c == c ==> log[j] == Freed(c)
  {
    EachInOrder(log, j);
    assert log[..j][i] == Stopped(c);
    StoppedMentions(log[..j], c, i);
  }

  lemma StoppedMentions(log: seq<Entry>, c: PollCtx, i: nat)
    requires i < |log| && log[i].c == c
    ensures Mentions(log, c)
  {
  }

  lemma {:induction false} PrefixOk(log: seq<Entry>, k: nat)
    requires LogOk(log) && k <= |log|
    ensures LogOk(log[..k])
    decreases |log|
  {
    var n := |log| - 1;
    if k <= n {
      PrefixOk(log[..n], k);
      assert log[..n][..k] == log[..k];
    } else {
      assert log[..k] == log;
    }
  }

  /** After a context was freed nothing happens to it: it is freed once, and never used again. */
  lemma NothingAfterFree(log: seq<Entry>, c: PollCtx, i: nat, j: nat)
    requires LogOk(log) && i < j < |log| && log[i] == Freed(c)
    ensures log[j].c != c
  {
    EachInOrder(log, j);
    PrefixOk(log, j);
    assert log[..j][i] == Freed(c);
    FreedWasStopped(log[..j], c);
    StoppedMentions(log[..j], c, i);
  }

  lemma Appended(log: seq<Entry>, e: Entry)
    requires LogOk(log) && InOrder(log, e)
    ensures LogOk(log + [e])
    ensures forall x :: CallsOf(log + [e], x) == CallsOf(log, x) + if e.Called? && e.c == x then [e.call] else []
    ensures forall f :: f in log + [e] <==> f in log || f == e
  {
    assert (log + [e])[..|log|] == log;
  }

  // ---------- states ----------

  datatype HandleState = HandleState(active: bool, pollCtx: PollCtx?)

  datatype Ctx = Ctx(parent: Handle?, busy: int, interval: nat, start: nat, statbuf: StatBuf,
                     timer: Timer, request: Request, results: seq<Outcome>)

  /** All handles, all contexts that were ever started, those of them that are not freed, the contexts whose timers are
      in the handle queue of the loop, and what has happened. */
  datatype World = World(now: nat, handles: map<Handle, HandleState>, ctxs: map<PollCtx, Ctx>, live: set<PollCtx>,
                         queue: set<PollCtx>, log: seq<Entry>)

  /** Exactly one thing is to come: the end of a stat, the timer, or the end of the timer. */
  predicate OnePending(x: Ctx) {
    || (x.request != Idle && x.timer == Inactive)
    || (x.request == Idle && x.timer.Active? && x.parent != null)
    || (x.request == Idle && x.timer == Closing && x.parent == null)
  }

  /** The stored state sums up the results, and the user was called for each change, no more and no less. */
  ghost predicate Tells(x: Ctx, calls: seq<Call>) {
    && (forall o | o in x.results :: Proper(o)) && x.busy == Busy(x.results) && x.statbuf == LastSeen(x.results)
    && match x.request
       case Processing(o) => Proper(o) && calls == Calls(x.results + [o], |x.results| + 1)
       case _ => calls == Calls(x.results, |x.results|)
  }

  ghost predicate HandleOk(w: World, h: Handle)
    requires h in w.handles
  {
    var s := w.handles[h];
    && s.active == (s.pollCtx != null)
    && (s.pollCtx != null ==> s.pollCtx in w.live && s.pollCtx in w.ctxs && w.ctxs[s.pollCtx].parent == h)
  }

  ghost predicate LiveOk(w: World, c: PollCtx)
    requires c in w.ctxs
  {
    var x := w.ctxs[c];
    && x.interval >= 1 && x.start <= w.now && OnePending(x)
    && (x.parent != null ==> x.parent in w.handles && w.handles[x.parent].pollCtx == c)
    && (x.parent == null <==> Stopped(c) in w.log)
  }

  ghost predicate Recorded(w: World, c: PollCtx)
    requires c in w.ctxs
  {
    && Started(c) in w.log && (c in w.live <==> Freed(c) !in w.log) && (c in w.live <==> c in w.queue)
    && (c !in w.live ==> w.ctxs[c].request == Idle && w.ctxs[c].timer == Closed)
    && Tells(w.ctxs[c], CallsOf(w.log, c))
  }

  ghost predicate Ok(w: World) {
    && (forall h | h in w.handles :: HandleOk(w, h))
    && (forall c | c in w.live :: c in w.ctxs && LiveOk(w, c))
    && (forall c | c in w.ctxs :: Recorded(w, c))
    && LogOk(w.log) && (forall e | e in w.log :: e.c in w.ctxs)
  }

  // ---------- steps ----------

  datatype Event =
    | Start(h: Handle, c: PollCtx, interval: nat)  // uv_fs_poll_start; `c` is the context it makes, if it makes one
    | StartFails(h: Handle, c: PollCtx)            // the same, when the stat of the context it makes cannot be queued
    | Stop(h: Handle)                              // uv_fs_poll_stop, uv__fs_poll_close
    | Elapse(ms: nat)                              // the clock of the loop goes on
    | TimerDue(c: PollCtx)                         // timer_cb
    | StatDone(c: PollCtx, o: Outcome)             // poll_cb until the user's callback has been called
    | StatEnd(c: PollCtx)                          // the rest of poll_cb
    | TimerClosed(c: PollCtx)                      // uv__finish_close, timer_close_cb

  /** What can happen: the loop knows timers and requests, not whether the memory they are in is freed. */
  predicate Enabled(w: World, e: Event) {
    match e
    case Start(h, c, _) => h in w.handles && (w.handles[h].active || (c !in w.ctxs && c !in w.queue))
    case StartFails(h, c) => h in w.handles && !w.handles[h].active && c !in w.ctxs && c !in w.queue
    case Stop(h) => h in w.handles
    case Elapse(_) => true
    case TimerDue(c) => c in w.ctxs && w.ctxs[c].timer.Active? && w.ctxs[c].timer.due <= w.now
    case StatDone(c, o) => c in w.ctxs && w.ctxs[c].request == InFlight && Proper(o)
    case StatEnd(c) => c in w.ctxs && w.ctxs[c].request.Processing?
    case TimerClosed(c) => c in w.ctxs && w.ctxs[c].timer == Closing
  }

  /** The test of poll_cb: is the user to be told? */
  predicate Reports(x: Ctx, o: Outcome) {
    match o
    case Failed(code) => x.busy != code
    case Seen(buf) => x.busy != 0 && (x.busy < 0 || !StatEq(x.statbuf, buf))
  }

  function Report(x: Ctx, o: Outcome): Call {
    match o
    case Failed(code) => Call(code, x.statbuf, ZERO)
    case Seen(buf) => Call(0, x.statbuf, buf)
  }

  /** The time until the next multiple of the interval after the start. */
  function Delay(x: Ctx, now: nat): nat
    requires x.interval >= 1 && x.start <= now
  {
    x.interval - (now - x.start) % x.interval
  }

  function AfterStat(x: Ctx, o: Outcome, now: nat): Ctx
    requires x.parent != null ==> x.interval >= 1 && x.start <= now
  {
    x.(busy := if o.Failed? then o.code else 1, statbuf := if o.Failed? then x.statbuf else o.buf,
       results := x.results + [o], request := Idle,
       timer := if x.parent == null then Closing else Active(now + Delay(x, now)))
  }

  function AfterStart(w: World, h: Handle, c: PollCtx, interval: nat): World {
    var x := Ctx(h, 0, if interval != 0 then interval else 1, w.now, ZERO, Inactive, InFlight, []);
    World(w.now, w.handles[h := HandleState(true, c)], w.ctxs[c := x], w.live + {c}, w.queue + {c},
          w.log + [Started(c)])
  }

  function AfterStop(w: World, h: Handle, c: PollCtx): World
    requires c in w.ctxs
  {
    var x := w.ctxs[c];
    var y := x.(parent := null, timer := if x.timer.Active? then Closing else x.timer);
    World(w.now, w.handles[h := HandleState(false, null)], w.ctxs[c := y], w.live, w.queue, w.log + [Stopped(c)])
  }

  /** The timer is initialised, then the context is freed: the timer stays in the queue. */
  function AfterFail(w: World, c: PollCtx): World {
    w.(queue := w.queue + {c})
  }

  function AfterFree(w: World, c: PollCtx): World
    requires c in w.ctxs
  {
    World(w.now, w.handles, w.ctxs[c := w.ctxs[c].(timer := Closed)], w.live - {c}, w.queue - {c}, w.log + [Freed(c)])
  }

  function With(w: World, c: PollCtx, x: Ctx): World {
    w.(ctxs := w.ctxs[c := x])
  }

  function AfterResult(w: World, c: PollCtx, o: Outcome): World
    requires c in w.ctxs
  {
    var x := w.ctxs[c];
    if x.parent == null then With(w, c, x.(timer := Closing, request := Idle))
    else if Reports(x, o) then With(w, c, x.(request := Processing(o))).(log := w.log + [Called(c, Report(x, o))])
    else With(w, c, x.(request := Processing(o)))
  }

  ghost function Next(w: World, e: Event): World
    requires Ok(w) && Enabled(w, e)
  {
    match e
    case Start(h, c, interval) => if w.handles[h].active then w else AfterStart(w, h, c, interval)
    case StartFails(h, c) => AfterFail(w, c)
    case Stop(h) =>
      assert HandleOk(w, h);
      if w.handles[h].active then AfterStop(w, h, w.handles[h].pollCtx) else w
    case Elapse(ms) => w.(now := w.now + ms)
    case TimerDue(c) => With(w, c, w.ctxs[c].(timer := Inactive, start := w.now, request := InFlight))
    case StatDone(c, o) => AfterResult(w, c, o)
    case StatEnd(c) =>
      assert Recorded(w, c) && LiveOk(w, c);
      With(w, c, AfterStat(w.ctxs[c], w.ctxs[c].request.outcome, w.now))
    case TimerClosed(c) => AfterFree(w, c)
  }
}
