/** What every step of a file poller keeps, and what follows over whole runs. */
module FsSafety {
  import opened Division
  import opened FsTrace
  import opened FsWorld

  lemma FreshNotMentioned(w: World, c: PollCtx)
    requires Ok(w) && c !in w.ctxs
    ensures !Mentions(w.log, c)
  {
    forall i | 0 <= i < |w.log| ensures w.log[i].c != c { assert w.log[i] in w.log; }
  }

  lemma {:induction false} NotMentionedNoCalls(log: seq<Entry>, c: PollCtx)
    requires !Mentions(log, c)
    ensures CallsOf(log, c) == []
  {
    if log != [] {
      var n := |log| - 1;
      assert log[n].c != c;
      forall i | 0 <= i < n ensures log[..n][i].c != c { assert log[i].c != c; }
      NotMentionedNoCalls(log[..n], c);
    }
  }

  // ---------- a step that touches one context ----------

  /** The logs say the same of `x`. */
  ghost predicate SameOf(a: seq<Entry>, b: seq<Entry>, x: PollCtx) {
    && CallsOf(a, x) == CallsOf(b, x) && (Started(x) in a <==> Started(x) in b)
    && (Stopped(x) in a <==> Stopped(x) in b) && (Freed(x) in a <==> Freed(x) in b)
  }

  ghost predicate SameAt(w: World, v: World, x: PollCtx)
    requires x in w.ctxs
  {
    && x in v.ctxs && v.ctxs[x] == w.ctxs[x] && (x in w.live <==> x in v.live) && (x in w.queue <==> x in v.queue)
    && SameOf(w.log, v.log, x)
  }

  /** A handle is untouched, or it is in order and belongs to no context but `c`, before and after. */
  ghost predicate HandleMoves(w: World, v: World, c: PollCtx, h: Handle)
    requires h in w.handles && h in v.handles
  {
    || (v.handles[h] == w.handles[h] && v.handles[h].pollCtx != c)
    || (w.handles[h].pollCtx in {null, c} && HandleOk(v, h))
  }

  /** The step from `w` to `v` touches no context but `c`. */
  ghost predicate Around(w: World, v: World, c: PollCtx) {
    && w.now <= v.now && v.handles.Keys == w.handles.Keys && v.ctxs.Keys == w.ctxs.Keys + {c}
    && (forall x | x in v.live && x != c :: x in w.live)
    && (forall x | x in w.ctxs && x != c :: SameAt(w, v, x))
    && (forall h | h in w.handles :: HandleMoves(w, v, c, h))
  }

  lemma HandlesKept(w: World, v: World, c: PollCtx)
    requires Ok(w) && Around(w, v, c)
    ensures forall h | h in v.handles :: HandleOk(v, h)
  {
    forall h | h in v.handles ensures HandleOk(v, h) {
      assert HandleMoves(w, v, c, h) && HandleOk(w, h);
      var x := w.handles[h].pollCtx;
      if x != null && x != c { assert SameAt(w, v, x); }
    }
  }

  lemma LiveKept(w: World, v: World, c: PollCtx, x: PollCtx)
    requires Ok(w) && Around(w, v, c) && x in v.live && x != c
    ensures x in v.ctxs && LiveOk(v, x)
  {
    assert x in w.live && LiveOk(w, x) && SameAt(w, v, x);
    var p := w.ctxs[x].parent;
    if p != null { assert HandleMoves(w, v, c, p); }
  }

  lemma RecordKept(w: World, v: World, c: PollCtx, x: PollCtx)
    requires Ok(w) && Around(w, v, c) && x in v.ctxs && x != c
    ensures Recorded(v, x)
  {
    assert Recorded(w, x) && SameAt(w, v, x);
  }

  lemma Kept(w: World, v: World, c: PollCtx)
    requires Ok(w) && Around(w, v, c) && LogOk(v.log) && (forall e | e in v.log :: e in w.log || e.c == c)
    requires (c in v.live ==> LiveOk(v, c)) && Recorded(v, c)
    ensures Ok(v)
  {
    HandlesKept(w, v, c);
    forall x | x in v.live ensures x in v.ctxs && LiveOk(v, x) {
      if x != c { LiveKept(w, v, c, x); }
    }
    forall x | x in v.ctxs ensures Recorded(v, x) {
      if x != c { RecordKept(w, v, c, x); }
    }
  }

  /** The event is the next thing to come for the context. */
  predicate About(e: Event, c: PollCtx) {
    (e.TimerDue? || e.StatDone? || e.StatEnd? || e.TimerClosed?) && e.c == c
  }

  /** The step reads or writes the memory of the context: the loop calls back for it, or its handle is stopped. */
  predicate Uses(w: World, e: Event, c: PollCtx) {
    About(e, c) || (e.Stop? && e.h in w.handles && w.handles[e.h].active && w.handles[e.h].pollCtx == c)
  }

  /** No use after free: what a step uses is not freed yet. */
  lemma EnabledIsLive(w: World, e: Event, c: PollCtx)
    requires Ok(w) && Enabled(w, e) && Uses(w, e, c)
    ensures c in w.live && c in w.ctxs && LiveOk(w, c) && Recorded(w, c)
  {
    if e.Stop? {
      assert HandleOk(w, e.h);
    } else {
      assert Recorded(w, c);
    }
  }

  // ---------- the steps ----------

  lemma OthersSame(log: seq<Entry>, e: Entry, x: PollCtx)
    requires e.c != x
    ensures SameOf(log, log + [e], x)
  {
    assert (log + [e])[..|log|] == log;
  }

  lemma AroundStart(w: World, h: Handle, c: PollCtx, interval: nat)
    requires Ok(w) && Enabled(w, Start(h, c, interval)) && !w.handles[h].active
    ensures Around(w, AfterStart(w, h, c, interval), c)
  {
    var v := AfterStart(w, h, c, interval);
    forall x | x in w.ctxs && x != c ensures SameAt(w, v, x) { OthersSame(w.log, Started(c), x); }
    forall g | g in w.handles ensures HandleMoves(w, v, c, g) { StartMoves(w, h, c, interval, g); }
  }

  lemma StartMoves(w: World, h: Handle, c: PollCtx, interval: nat, g: Handle)
    requires Ok(w) && Enabled(w, Start(h, c, interval)) && !w.handles[h].active && g in w.handles
    ensures HandleMoves(w, AfterStart(w, h, c, interval), c, g)
  {
    assert HandleOk(w, g);
  }

  lemma StartOwn(w: World, h: Handle, c: PollCtx, interval: nat)
    requires Ok(w) && Enabled(w, Start(h, c, interval)) && !w.handles[h].active
    ensures var v := AfterStart(w, h, c, interval); LiveOk(v, c) && Recorded(v, c)
  {
    FreshNotMentioned(w, c);
    NotMentionedNoCalls(w.log, c);
    Appended(w.log, Started(c));
    assert Freed(c) !in w.log && Stopped(c) !in w.log;
  }

  lemma StartOk(w: World, h: Handle, c: PollCtx, interval: nat)
    requires Ok(w) && Enabled(w, Start(h, c, interval)) && !w.handles[h].active
    ensures Ok(AfterStart(w, h, c, interval))
  {
    FreshNotMentioned(w, c);
    Appended(w.log, Started(c));
    StartOwn(w, h, c, interval);
    AroundStart(w, h, c, interval);
    Kept(w, AfterStart(w, h, c, interval), c);
  }

  lemma AroundStop(w: World, h: Handle, c: PollCtx)
    requires Ok(w) && h in w.handles && w.handles[h] == HandleState(true, c) && c in w.ctxs
    ensures Around(w, AfterStop(w, h, c), c)
  {
    var v := AfterStop(w, h, c);
    forall x | x in w.ctxs && x != c ensures SameAt(w, v, x) { OthersSame(w.log, Stopped(c), x); }
    forall g | g in w.handles ensures HandleMoves(w, v, c, g) { assert HandleOk(w, g) && HandleOk(w, h); }
  }

  lemma StopOk(w: World, h: Handle, c: PollCtx)
    requires Ok(w) && h in w.handles && w.handles[h] == HandleState(true, c) && c in w.ctxs
    ensures Ok(AfterStop(w, h, c))
  {
    assert HandleOk(w, h) && LiveOk(w, c) && Recorded(w, c);
    Appended(w.log, Stopped(c));
    AroundStop(w, h, c);
    Kept(w, AfterStop(w, h, c), c);
  }

  /** A step that changes the fields of one context, but not its parent. */
  lemma FieldsOk(w: World, c: PollCtx, x: Ctx)
    requires Ok(w) && c in w.live && x.parent == w.ctxs[c].parent && x.interval >= 1 && x.start <= w.now &&
             OnePending(x)
    requires Tells(x, CallsOf(w.log, c))
    ensures Ok(With(w, c, x))
  {
    var v := With(w, c, x);
    assert LiveOk(w, c) && Recorded(w, c);
    forall y | y in w.ctxs && y != c ensures SameAt(w, v, y) { }
    forall g | g in w.handles ensures HandleMoves(w, v, c, g) { assert HandleOk(w, g); }
    Kept(w, v, c);
  }

  /** A call of the user's callback, recorded. */
  lemma CalledOk(w: World, c: PollCtx, x: Ctx, call: Call)
    requires Ok(w) && c in w.live && x.parent == w.ctxs[c].parent != null && x.interval >= 1 && x.start <= w.now &&
             OnePending(x)
    requires Tells(x, CallsOf(w.log, c) + [call])
    ensures Ok(With(w, c, x).(log := w.log + [Called(c, call)]))
  {
    var v := With(w, c, x).(log := w.log + [Called(c, call)]);
    assert LiveOk(w, c) && Recorded(w, c);
    Appended(w.log, Called(c, call));
    forall y | y in w.ctxs && y != c ensures SameAt(w, v, y) { OthersSame(w.log, Called(c, call), y); }
    forall g | g in w.handles ensures HandleMoves(w, v, c, g) { assert HandleOk(w, g); }
    Kept(w, v, c);
  }

  lemma StatDoneOk(w: World, c: PollCtx, o: Outcome)
    requires Ok(w) && Enabled(w, StatDone(c, o))
    ensures Ok(AfterResult(w, c, o))
  {
    var x := w.ctxs[c];
    EnabledIsLive(w, StatDone(c, o), c);
    if x.parent == null {
      FieldsOk(w, c, x.(timer := Closing, request := Idle));
    } else {
      NextCall(x.results, o);
      if Reports(x, o) {
        CalledOk(w, c, x.(request := Processing(o)), Report(x, o));
      } else {
        FieldsOk(w, c, x.(request := Processing(o)));
      }
    }
  }

  lemma StatDoneIs(w: World, c: PollCtx, o: Outcome)
    requires Ok(w) && Enabled(w, StatDone(c, o))
    ensures w.ctxs[c].timer == Inactive && Next(w, StatDone(c, o)) == AfterResult(w, c, o) && Ok(AfterResult(w, c, o))
  {
    EnabledIsLive(w, StatDone(c, o), c);
    StatDoneOk(w, c, o);
  }

  lemma StatEndOk(w: World, c: PollCtx)
    requires Ok(w) && Enabled(w, StatEnd(c))
    ensures Ok(Next(w, StatEnd(c)))
  {
    var x := w.ctxs[c];
    EnabledIsLive(w, StatEnd(c), c);
    StoredState(x.results, x.request.outcome);
    FieldsOk(w, c, AfterStat(x, x.request.outcome, w.now));
  }

  lemma AroundFree(w: World, c: PollCtx)
    requires Ok(w) && Enabled(w, TimerClosed(c))
    ensures Around(w, AfterFree(w, c), c)
  {
    var v := AfterFree(w, c);
    EnabledIsLive(w, TimerClosed(c), c);
    forall x | x in w.ctxs && x != c ensures SameAt(w, v, x) { OthersSame(w.log, Freed(c), x); }
    forall g | g in w.handles ensures HandleMoves(w, v, c, g) { assert HandleOk(w, g); }
  }

  lemma TimerClosedOk(w: World, c: PollCtx)
    requires Ok(w) && Enabled(w, TimerClosed(c))
    ensures Ok(AfterFree(w, c))
  {
    EnabledIsLive(w, TimerClosed(c), c);
    Appended(w.log, Freed(c));
    AroundFree(w, c);
    Kept(w, AfterFree(w, c), c);
  }

  lemma ElapseOk(w: World, ms: nat)
    requires Ok(w)
    ensures Ok(w.(now := w.now + ms))
  {
    var v := w.(now := w.now + ms);
    forall h | h in v.handles ensures HandleOk(v, h) { assert HandleOk(w, h); }
    forall x | x in v.live ensures x in v.ctxs && LiveOk(v, x) { assert LiveOk(w, x); }
    forall x | x in v.ctxs ensures Recorded(v, x) { assert Recorded(w, x); }
  }

  lemma StartFailsOk(w: World, h: Handle, c: PollCtx)
    requires Ok(w) && Enabled(w, StartFails(h, c))
    ensures Ok(AfterFail(w, c))
  {
    var v := AfterFail(w, c);
    forall g | g in v.handles ensures HandleOk(v, g) { assert HandleOk(w, g); }
    forall x | x in v.live ensures x in v.ctxs && LiveOk(v, x) { assert LiveOk(w, x); }
    forall x | x in v.ctxs ensures Recorded(v, x) { assert Recorded(w, x); }
  }

  lemma TimerDueOk(w: World, c: PollCtx)
    requires Ok(w) && Enabled(w, TimerDue(c))
    ensures Ok(Next(w, TimerDue(c)))
  {
    EnabledIsLive(w, TimerDue(c), c);
    FieldsOk(w, c, w.ctxs[c].(timer := Inactive, start := w.now, request := InFlight));
  }

  /** Every step keeps the invariant. */
  lemma StepOk(w: World, e: Event)
    requires Ok(w) && Enabled(w, e)
    ensures Ok(Next(w, e))
  {
    match e
    case Start(h, c, interval) => if !w.handles[h].active { StartOk(w, h, c, interval); }
    case StartFails(h, c) => StartFailsOk(w, h, c);
    case Stop(h) =>
      assert HandleOk(w, h);
      if w.handles[h].active { StopOk(w, h, w.handles[h].pollCtx); }
    case Elapse(ms) => ElapseOk(w, ms);
    case TimerDue(c) => TimerDueOk(w, c);
    case StatDone(c, o) => StatDoneOk(w, c, o);
    case StatEnd(c) => StatEndOk(w, c);
    case TimerClosed(c) => TimerClosedOk(w, c);
  }

  lemma StartIs(w: World, h: Handle, interval: nat)
    requires Ok(w) && h in w.handles
    ensures w.handles[h].active <==> w.handles[h].pollCtx != null
    ensures forall c :: w.handles[h].active ==> var e := Start(h, c, interval); Enabled(w, e) && Next(w, e) == w
  {
    assert HandleOk(w, h);
  }

  lemma StartIsNew(w: World, h: Handle, c: PollCtx, interval: nat)
    requires Ok(w) && Enabled(w, Start(h, c, interval)) && !w.handles[h].active
    ensures Ok(AfterStart(w, h, c, interval))
    ensures var e := Start(h, c, interval); Enabled(w, e) && Next(w, e) == AfterStart(w, h, c, interval)
  {
    StartOk(w, h, c, interval);
  }

  // ---------- whole runs ----------

  /** The events lead from `w` to `v`, in any interleaving that the states allow. */
  ghost predicate Runs(w: World, events: seq<Event>, v: World)
    decreases |events|
  {
    if events == [] then v == w
    else Ok(w) && Enabled(w, events[0]) && Runs(Next(w, events[0]), events[1..], v)
  }

  lemma {:induction false} RunOk(w: World, events: seq<Event>, v: World)
    requires Ok(w) && Runs(w, events, v)
    ensures Ok(v)
    decreases |events|
  {
    if events != [] {
      StepOk(w, events[0]);
      RunOk(Next(w, events[0]), events[1..], v);
    }
  }

  lemma {:induction false} RunAppend(w: World, a: seq<Event>, u: World, e: Event, v: World)
    requires Runs(w, a, u) && Ok(u) && Enabled(u, e) && v == Next(u, e)
    ensures Runs(w, a + [e], v)
    decreases |a|
  {
    if a == [] {
      RunOf(w, e);
      assert a + [e] == [e];
    } else {
      var first, rest := a[0], a[1..];
      var next := RunRest(w, a, u);
      RunAppend(next, rest, u, e, v);
      RunFirst(w, first, next, rest + [e], v);
      Regroup(a, e);
    }
  }

  lemma Regroup(a: seq<Event>, e: Event)
    requires a != []
    ensures a + [e] == [a[0]] + (a[1..] + [e])
  {
  }

  lemma RunRest(w: World, a: seq<Event>, u: World) returns (next: World)
    requires Runs(w, a, u) && a != []
    ensures Ok(w) && Enabled(w, a[0]) && next == Next(w, a[0]) && Runs(next, a[1..], u)
  {
    next := Next(w, a[0]);
  }

  lemma RunOf(w: World, e: Event)
    requires Ok(w) && Enabled(w, e)
    ensures Runs(w, [e], Next(w, e))
  {
    assert [e][1..] == [];
  }

  lemma RunFirst(w: World, e: Event, u: World, events: seq<Event>, v: World)
    requires Ok(w) && Enabled(w, e) && u == Next(w, e) && Runs(u, events, v)
    ensures Runs(w, [e] + events, v)
  {
    assert ([e] + events)[0] == e && ([e] + events)[1..] == events;
  }

  /** Nothing is polled yet. */
  ghost predicate Initial(w: World) {
    w.ctxs == map[] && w.live == {} && w.queue == {} && w.log == [] &&
      forall h | h in w.handles :: w.handles[h] == HandleState(false, null)
  }

  function One(b: bool): nat {
    if b then 1 else 0
  }

  /** Whatever the user and the loop do: each context that is not freed has exactly one of a stat on its way or being
      dealt with, a timer that runs, and a timer that is closing; only a context that was stopped is closing. */
  lemma PendingInEveryRun(w: World, events: seq<Event>, v: World, c: PollCtx)
    requires Initial(w) && Runs(w, events, v) && c in v.live
    ensures c in v.ctxs
    ensures var x := v.ctxs[c];
            One(x.request != Idle) + One(x.timer.Active?) + One(x.timer == Closing) == 1 &&
            (x.timer == Closing ==> Stopped(c) in v.log) && (x.timer.Active? ==> Stopped(c) !in v.log)
  {
    RunOk(w, events, v);
    assert LiveOk(v, c);
  }

  /** A context is freed at most once, and then it is never used again;
      no callback and no second stop follows a stop. */
  lemma LifeInEveryRun(w: World, events: seq<Event>, v: World, i: nat, j: nat)
    requires Initial(w) && Runs(w, events, v) && i < j < |v.log|
    ensures v.log[i].Freed? ==> v.log[j].c != v.log[i].c
    ensures v.log[i].Stopped? && v.log[j].c == v.log[i].c ==> v.log[j].Freed?
  {
    RunOk(w, events, v);
    if v.log[i].Freed? { NothingAfterFree(v.log, v.log[i].c, i, j); }
    if v.log[i].Stopped? { SilentAfterStop(v.log, v.log[i].c, i, j); }
  }

  /** In every interleaving a step uses only contexts that were started and are not freed. */
  lemma NoUseAfterFree(w: World, events: seq<Event>, v: World, e: Event, c: PollCtx)
    requires Initial(w) && Runs(w, events, v) && Enabled(v, e) && Uses(v, e, c)
    ensures Started(c) in v.log && Freed(c) !in v.log
  {
    RunOk(w, events, v);
    EnabledIsLive(v, e, c);
  }

  /** The contexts of the starts that failed when the stat could not be queued. */
  function Lost(events: seq<Event>): set<PollCtx> {
    if events == [] then {} else (if events[0].StartFails? then {events[0].c} else {}) + Lost(events[1..])
  }

  lemma {:induction false} LostIs(events: seq<Event>)
    ensures Lost(events) == {} <==> forall e | e in events :: !e.StartFails?
  {
    if events != [] {
      LostIs(events[1..]);
      assert forall e | e in events :: e == events[0] || e in events[1..];
      assert forall e | e in events[1..] :: e in events;
    }
  }

  lemma QueueStep(w: World, e: Event)
    requires Ok(w) && Enabled(w, e)
    ensures var v := Next(w, e);
            v.queue - v.ctxs.Keys == (w.queue - w.ctxs.Keys) + if e.StartFails? then {e.c} else {}
  {
    if e.TimerClosed? { EnabledIsLive(w, e, e.c); }
    if e.Stop? { assert HandleOk(w, e.h); }
  }

  lemma {:induction false} QueueGrows(w: World, events: seq<Event>, v: World)
    requires Ok(w) && Runs(w, events, v)
    ensures v.queue - v.ctxs.Keys == (w.queue - w.ctxs.Keys) + Lost(events)
    decreases |events|
  {
    if events != [] {
      QueueStep(w, events[0]);
      StepOk(w, events[0]);
      QueueGrows(Next(w, events[0]), events[1..], v);
    }
  }

  lemma QueueOfStarted(v: World)
    requires Ok(v)
    ensures v.queue == v.live + (v.queue - v.ctxs.Keys) && v.live !! (v.queue - v.ctxs.Keys)
  {
    forall c | c in v.ctxs ensures c in v.queue <==> c in v.live { assert Recorded(v, c); }
  }

  /** In every interleaving the handle queue holds the timers of the contexts that are not freed, and those of the
      starts that failed at the stat; so it holds no freed timer if and only if no start failed there. */
  lemma QueueInEveryRun(w: World, events: seq<Event>, v: World)
    requires Initial(w) && Runs(w, events, v)
    ensures v.queue == v.live + Lost(events) && v.live !! Lost(events)
    ensures (forall c | c in v.queue :: c in v.live) <==> forall e | e in events :: !e.StartFails?
  {
    RunOk(w, events, v);
    QueueGrows(w, events, v);
    QueueOfStarted(v);
    LostIs(events);
  }

  /** The shortest such run: one start. */
  lemma FailedStart(h: Handle, c: PollCtx) returns (v: World)
    ensures var w := World(0, map[h := HandleState(false, null)], map[], {}, {}, []);
            Initial(w) && Runs(w, [StartFails(h, c)], v) && c in v.queue && c !in v.live
  {
    var w := World(0, map[h := HandleState(false, null)], map[], {}, {}, []);
    v := Next(w, StartFails(h, c));
    RunOf(w, StartFails(h, c));
  }

  /** The contexts that were made and not freed are the live ones, and only stopped ones were freed. */
  lemma LiveInEveryRun(w: World, events: seq<Event>, v: World, c: PollCtx)
    requires Initial(w) && Runs(w, events, v)
    ensures c in v.live <==> Started(c) in v.log && Freed(c) !in v.log
    ensures Freed(c) in v.log ==> Stopped(c) in v.log
  {
    RunOk(w, events, v);
    assert c in v.live ==> c in v.ctxs;
    assert Started(c) in v.log ==> Started(c).c in v.ctxs;
    if c in v.ctxs { assert Recorded(v, c); }
    if Freed(c) in v.log { FreedWasStopped(v.log, c); }
  }

  /** For each context the user is called exactly once for each change in the results it has dealt with. */
  lemma CallsInEveryRun(w: World, events: seq<Event>, v: World, c: PollCtx)
    requires Initial(w) && Runs(w, events, v) && c in v.ctxs && !v.ctxs[c].request.Processing?
    ensures var outs := v.ctxs[c].results; CallsOf(v.log, c) == Calls(outs, |outs|)
  {
    RunOk(w, events, v);
    assert Recorded(v, c);
  }

  /** What a context stores: 0 before the first result, then 1, or the error if the last result is one; and the state
      that was seen last. */
  lemma StoredInEveryRun(w: World, events: seq<Event>, v: World, c: PollCtx, i: int)
    requires Initial(w) && Runs(w, events, v) && c in v.ctxs
    requires var outs := v.ctxs[c].results;
             -1 <= i < |outs| && (forall j :: i < j < |outs| ==> outs[j].Failed?) && (i >= 0 ==> outs[i].Seen?)
    ensures var x := v.ctxs[c];
            var outs := x.results;
            x.statbuf == (if i >= 0 then outs[i].buf else ZERO) &&
            x.busy == if outs == [] then 0 else if i == |outs| - 1 then 1 else outs[|outs| - 1].code
  {
    RunOk(w, events, v);
    assert Recorded(v, c);
    LastSeenIs(v.ctxs[c].results, i);
  }

  /** The rest of the life of a stopped context: what is to come for it frees it in one or two events. */
  function Rest(x: Ctx, c: PollCtx, o: Outcome): seq<Event> {
    match x.request
    case Idle => [TimerClosed(c)]
    case InFlight => [StatDone(c, o), TimerClosed(c)]
    case Processing(_) => [StatEnd(c), TimerClosed(c)]
  }

  lemma StoppedIsFreed(w: World, c: PollCtx, o: Outcome) returns (v: World)
    requires Ok(w) && c in w.live && Stopped(c) in w.log && Proper(o)
    ensures c in w.ctxs && Runs(w, Rest(w.ctxs[c], c, o), v)
    ensures v.live == w.live - {c} && v.log == w.log + [Freed(c)]
  {
    assert LiveOk(w, c);
    match w.ctxs[c].request
    case Idle => v := ClosedIsFreed(w, c);
    case InFlight =>
      StatDoneOk(w, c, o);
      v := ClosedIsFreed(Next(w, StatDone(c, o)), c);
    case Processing(_) =>
      StatEndOk(w, c);
      v := ClosedIsFreed(Next(w, StatEnd(c)), c);
  }

  lemma ClosedIsFreed(w: World, c: PollCtx) returns (v: World)
    requires Ok(w) && Enabled(w, TimerClosed(c))
    ensures Runs(w, [TimerClosed(c)], v) && v.live == w.live - {c} && v.log == w.log + [Freed(c)]
    ensures forall e :: [e, TimerClosed(c)][1..] == [TimerClosed(c)]
  {
    v := Next(w, TimerClosed(c));
    assert [TimerClosed(c)][1..] == [];
    assert Runs(v, [], v);
  }

  /** What is to come for the context: the result of a stat or its end, and the end of the timer. */
  function Remaining(w: World, c: PollCtx): nat
    requires c in w.ctxs
  {
    if c !in w.live then 0 else if w.ctxs[c].request == Idle then 1 else 2
  }

  function AboutCount(events: seq<Event>, c: PollCtx): nat {
    if events == [] then 0 else One(About(events[0], c)) + AboutCount(events[1..], c)
  }

  lemma OwnStepOnStopped(w: World, e: Event, c: PollCtx)
    requires Ok(w) && Enabled(w, e) && c in w.ctxs && Stopped(c) in w.log && About(e, c)
    ensures var v := Next(w, e); c in v.ctxs && Stopped(c) in v.log && Remaining(w, c) == Remaining(v, c) + 1
  {
    EnabledIsLive(w, e, c);
  }

  lemma StopOther(w: World, h: Handle, c: PollCtx)
    requires Ok(w) && h in w.handles && w.handles[h].active && c in w.ctxs && Stopped(c) in w.log
    ensures w.handles[h].pollCtx != c
  {
    assert HandleOk(w, h);
    assert LiveOk(w, w.handles[h].pollCtx);
  }

  lemma OtherStepOnStopped(w: World, e: Event, c: PollCtx)
    requires Ok(w) && Enabled(w, e) && c in w.ctxs && Stopped(c) in w.log && !About(e, c)
    ensures var v := Next(w, e);
            c in v.ctxs && Stopped(c) in v.log && v.ctxs[c] == w.ctxs[c] && (c in v.live <==> c in w.live)
  {
    StaysInLog(w, e, Stopped(c));
    match e
    case Stop(h) => if w.handles[h].active { StopOther(w, h, c); }
    case _ =>
  }

  lemma StaysInLog(w: World, e: Event, f: Entry)
    requires Ok(w) && Enabled(w, e) && f in w.log
    ensures f in Next(w, e).log
  {
  }

  /** In every interleaving from where a context was stopped: what is not about it does not change it; each event about
      it uses up one of the one or two things that were to come; it is freed exactly when these are used up. */
  lemma {:induction false} StoppedInEveryRun(w: World, events: seq<Event>, v: World, c: PollCtx)
    requires Ok(w) && c in w.ctxs && Stopped(c) in w.log && Runs(w, events, v)
    ensures c in v.ctxs && Remaining(w, c) == Remaining(v, c) + AboutCount(events, c)
    ensures AboutCount(events, c) == 0 ==> v.ctxs[c] == w.ctxs[c]
    ensures Freed(c) in v.log <==> Remaining(v, c) == 0
    decreases |events|
  {
    if events == [] {
      assert Recorded(w, c);
    } else {
      var u := Next(w, events[0]);
      StepOk(w, events[0]);
      if About(events[0], c) { OwnStepOnStopped(w, events[0], c); } else { OtherStepOnStopped(w, events[0], c); }
      StoppedInEveryRun(u, events[1..], v, c);
    }
  }

  /** The timer fires at the first multiple of the interval, counted from the last start, that is still to come. */
  lemma DelayAligned(x: Ctx, now: nat)
    requires x.interval >= 1 && x.start <= now
    ensures 1 <= Delay(x, now) <= x.interval
    ensures (now + Delay(x, now) - x.start) % x.interval == 0
  {
    var d, q := now - x.start, (now - x.start) / x.interval;
    assert d == x.interval * q + d % x.interval;
    assert d + Delay(x, now) == x.interval * (q + 1);
    DivMod(d + Delay(x, now), x.interval, q + 1, 0);
  }
}
