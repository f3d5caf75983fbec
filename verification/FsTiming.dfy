/** When a file poller asks for its stats. */
module FsTiming {
  import opened FsSafety
  import opened FsWorld

  /** At the end of poll_cb the timer is set to a multiple of the interval after the last start, the first that is still
      to come: the time the stat has taken is not added. */
  lemma ArmedStep(w: World, c: PollCtx)
    requires Ok(w) && Enabled(w, StatEnd(c)) && w.ctxs[c].parent != null
    ensures var x, y := w.ctxs[c], Next(w, StatEnd(c)).ctxs[c];
            y.timer.Active? && w.now < y.timer.due <= w.now + x.interval && x.interval >= 1 && x.start <= w.now &&
            (y.timer.due - x.start) % x.interval == 0
  {
    EnabledIsLive(w, StatEnd(c), c);
    DelayAligned(w.ctxs[c], w.now);
  }

  // ---------- over whole runs ----------

  /** The event asks for a stat of `c`: the start of the poller, or its timer. */
  predicate Asks(w: World, e: Event, c: PollCtx) {
    (e.TimerDue? && e.c == c) || Begins(w, e, c)
  }

  predicate Begins(w: World, e: Event, c: PollCtx) {
    e.Start? && e.c == c && e.h in w.handles && !w.handles[e.h].active
  }

  /** When the last stat was asked for, and the interval: that of the start, but at least one. */
  datatype Clock = Clock(asked: nat, interval: nat)

  function Ticked(w: World, e: Event, c: PollCtx, k: Clock): Clock {
    Clock(if Asks(w, e, c) then w.now else k.asked,
          if Begins(w, e, c) then if e.interval == 0 then 1 else e.interval else k.interval)
  }

  /** The clock of `c` after a run that it has entered with `k`. */
  ghost function ClockOf(w: World, events: seq<Event>, v: World, c: PollCtx, k: Clock): Clock
    requires Runs(w, events, v)
    decreases |events|
  {
    if events == [] then k
    else ClockOf(Next(w, events[0]), events[1..], v, c, Ticked(w, events[0], c, k))
  }

  /** The fields agree with the clock, and a running timer is due at a multiple of the interval. */
  predicate OnTime(x: Ctx, k: Clock) {
    && x.start == k.asked && x.interval == k.interval
    && (x.timer.Active? && k.interval > 0 ==> x.timer.due > k.asked && (x.timer.due - k.asked) % k.interval == 0)
  }

  /** A step leaves start, interval and a running timer of a context alone, but for its own timer and stat. */
  lemma StepFields(w: World, e: Event, c: PollCtx)
    requires Ok(w) && Enabled(w, e) && c in w.ctxs
    ensures c in Next(w, e).ctxs
    ensures var x, y := w.ctxs[c], Next(w, e).ctxs[c];
            y.interval == x.interval && y.start == (if e.TimerDue? && e.c == c then w.now else x.start) &&
            (y.timer.Active? ==> y.timer == x.timer || (e == StatEnd(c) && x.parent != null)) &&
            (y.timer.Active? ==> !(e.TimerDue? && e.c == c))
  {
    if e.Stop? { assert HandleOk(w, e.h); }
  }

  /** A context that begins has the interval of its start and no timer. */
  lemma NewFields(w: World, e: Event, c: PollCtx)
    requires Ok(w) && Enabled(w, e) && c in Next(w, e).ctxs && c !in w.ctxs
    ensures Begins(w, e, c)
    ensures var y := Next(w, e).ctxs[c];
            y.start == w.now && y.interval == (if e.interval == 0 then 1 else e.interval) && y.timer == Inactive
  {
  }

  lemma OldContext(w: World, e: Event, c: PollCtx)
    requires Ok(w) && Enabled(w, e) && c in w.ctxs
    ensures !Begins(w, e, c)
  {
  }

  lemma StillOnTime(x: Ctx, y: Ctx, k: Clock, asks: bool, now: nat)
    requires OnTime(x, k) && y.interval == x.interval && y.start == if asks then now else x.start
    requires y.timer.Active? ==> !asks && y.timer == x.timer
    ensures OnTime(y, Clock(if asks then now else k.asked, k.interval))
  {
  }

  lemma OldOnTime(w: World, e: Event, c: PollCtx, k: Clock)
    requires Ok(w) && Enabled(w, e) && c in w.ctxs && OnTime(w.ctxs[c], k)
    ensures c in Next(w, e).ctxs && OnTime(Next(w, e).ctxs[c], Ticked(w, e, c, k))
  {
    StepFields(w, e, c);
    OldContext(w, e, c);
    if e == StatEnd(c) && w.ctxs[c].parent != null {
      ArmedStep(w, c);
    } else {
      StillOnTime(w.ctxs[c], Next(w, e).ctxs[c], k, e.TimerDue? && e.c == c, w.now);
    }
  }

  lemma OnTimeStep(w: World, e: Event, c: PollCtx, k: Clock)
    requires Ok(w) && Enabled(w, e) && c in Next(w, e).ctxs && (c in w.ctxs ==> OnTime(w.ctxs[c], k))
    ensures OnTime(Next(w, e).ctxs[c], Ticked(w, e, c, k))
  {
    if c in w.ctxs {
      OldOnTime(w, e, c, k);
    } else {
      NewFields(w, e, c);
    }
  }

  lemma {:induction false} ClockRuns(w: World, events: seq<Event>, v: World, c: PollCtx, k: Clock)
    requires Ok(w) && Runs(w, events, v) && c in v.ctxs && (c in w.ctxs ==> OnTime(w.ctxs[c], k))
    ensures OnTime(v.ctxs[c], ClockOf(w, events, v, c, k))
    decreases |events|
  {
    if events != [] {
      var u := Next(w, events[0]);
      StepOk(w, events[0]);
      if c in u.ctxs { OnTimeStep(w, events[0], c, k); }
      ClockRuns(u, events[1..], v, c, Ticked(w, events[0], c, k));
    }
  }

  /** In every interleaving: a running timer of a context is due at a multiple of its interval after the last stat was
      asked for. */
  lemma DueInEveryRun(w: World, events: seq<Event>, v: World, c: PollCtx)
    requires Initial(w) && Runs(w, events, v) && c in v.ctxs
    ensures var k, x := ClockOf(w, events, v, c, Clock(0, 1)), v.ctxs[c];
            x.start == k.asked && x.interval == k.interval >= 1 &&
            (x.timer.Active? ==> x.timer.due > k.asked && (x.timer.due - k.asked) % k.interval == 0)
  {
    ClockRuns(w, events, v, c, Clock(0, 1));
    IntervalAtLeast(w, events, v, c, Clock(0, 1));
  }

  lemma {:induction false} IntervalAtLeast(w: World, events: seq<Event>, v: World, c: PollCtx, k: Clock)
    requires Runs(w, events, v) && k.interval >= 1
    ensures ClockOf(w, events, v, c, k).interval >= 1
    decreases |events|
  {
    if events != [] {
      IntervalAtLeast(Next(w, events[0]), events[1..], v, c, Ticked(w, events[0], c, k));
    }
  }
}
