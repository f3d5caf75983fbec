/** fs-poll.c itself: each function does a step of the state machine. */
module FsPoll {
  import opened FsSafety
  import opened FsTrace
  import opened FsWorld

  ghost function HandleStates(handles: set<Handle>): map<Handle, HandleState>
    reads handles
  {
    map h | h in handles :: HandleState(h.active, h.pollCtx)
  }

  ghost function StateOf(c: PollCtx): Ctx
    reads c
  {
    Ctx(c.parentHandle, c.busyPolling, c.interval, c.startTime, c.statbuf, c.timer, c.request, c.results)
  }

  ghost function States(ctxs: set<PollCtx>): map<PollCtx, Ctx>
    reads ctxs
  {
    map c | c in ctxs :: StateOf(c)
  }

  /** What the user does in the callback: it may start and stop any handle, and take its time. */
  datatype Action = Begin(h: Handle, interval: nat, enough: bool, stat: int) | End(h: Handle) | Spend(ms: nat)

  predicate Possible(a: Action, handles: set<Handle>) {
    (!a.Spend? ==> a.h in handles) && (a.Begin? ==> a.stat <= 0)
  }

  const UV_ENOMEM := -12

  /** The events that the user causes. */
  predicate ByUser(e: Event) {
    e.Start? || e.StartFails? || e.Stop? || e.Elapse?
  }

  class Loop {
    var now: nat
    const handles: set<Handle>
    var live: set<PollCtx>       // the contexts that were started and are not freed
    var queue: set<PollCtx>      // the timers in the handle queue
    ghost var all: set<PollCtx>  // all contexts ever started
    ghost var log: seq<Entry>

    ghost function View(): World
      reads this, handles, all
    {
      World(now, HandleStates(handles), States(all), live, queue, log)
    }

    ghost predicate Valid()
      reads this, handles, all
    {
      Ok(View())
    }

    constructor (handles: set<Handle>)
      requires forall h | h in handles :: !h.active && h.pollCtx == null
      ensures Valid() && Initial(View()) && this.handles == handles
    {
      now, this.handles, live, queue, all, log := 0, handles, {}, {}, {}, [];
    }

    /** A new context, its timer initialised: that puts it into the handle queue. */
    method MakeCtx(h: Handle, interval: nat) returns (ctx: PollCtx)
      modifies `queue
      ensures fresh(ctx) && queue == old(queue) + {ctx}
      ensures StateOf(ctx) == Ctx(h, 0, if interval != 0 then interval else 1, now, ZERO, Inactive, Idle, [])
    {
      ctx := new PollCtx(h, if interval != 0 then interval else 1, now);
      queue := queue + {ctx};
    }

    /** The stat of the new context is on its way, and the context is tied to its handle. */
    method Attach(h: Handle, interval: nat, ctx: PollCtx)
      requires h in handles && ctx !in all && ctx in queue
      requires StateOf(ctx) == Ctx(h, 0, if interval != 0 then interval else 1, now, ZERO, Inactive, Idle, [])
      modifies h, ctx`request, `live, `all, `log
      ensures View() == AfterStart(old(View()), h, ctx, interval)
      ensures all == old(all) + {ctx} && live == old(live) + {ctx} && h.pollCtx == ctx
    {
      ghost var w := View();
      ctx.request := InFlight;
      h.pollCtx := ctx;
      h.active := true;
      live, all, log := live + {ctx}, all + {ctx}, log + [Started(ctx)];
      assert HandleStates(handles) == w.handles[h := HandleState(true, ctx)];
      assert States(all) == w.ctxs[ctx := StateOf(ctx)];
    }

    /** uv_fs_poll_start: `enough` when there is memory for the context, `stat` what queueing the stat request gives. A
        context that was made and freed again is `lost`. */
    method StartPoll(h: Handle, interval: nat, enough: bool, stat: int) returns (err: int, ghost lost: PollCtx?)
      requires Valid() && h in handles && stat <= 0
      modifies h, `live, `queue, `all, `log
      ensures Valid() && old(all) <= all && old(live) <= live && fresh(all - old(all))
      ensures err == if old(h.active) then 0 else if !enough then -12 else stat
      ensures lost != null <==> !old(h.active) && enough && stat < 0
      ensures old(h.active) || !enough ==> View() == old(View())
      ensures lost != null ==>
              var e := StartFails(h, lost); Enabled(old(View()), e) && View() == Next(old(View()), e)
      ensures err == 0 ==>
                h.pollCtx != null &&
                var e := Start(h, h.pollCtx, interval); Enabled(old(View()), e) && View() == Next(old(View()), e)
    {
      ghost var w := View();
      lost := null;
      StartIs(w, h, interval);
      if h.active { return 0, lost; }
      if !enough { return UV_ENOMEM, lost; }
      var ctx := MakeCtx(h, interval);
      assert View() == AfterFail(w, ctx);
      if stat < 0 {  // the context is freed again
        StartFailsOk(w, h, ctx);
        return stat, ctx;
      }
      StartIsNew(w, h, ctx, interval);
      Attach(h, interval, ctx);
      err := 0;
    }

    method Orphan(ctx: PollCtx)
      requires ctx in all
      modifies ctx`parentHandle, ctx`timer
      ensures var x := old(StateOf(ctx));
              States(all) == old(States(all))[
                ctx := x.(parent := null, timer := if x.timer.Active? then Closing else x.timer)]
    {
      ctx.parentHandle := null;
      if ctx.timer.Active? {
        ctx.timer := Closing;
      }
    }

    method Deactivate(h: Handle)
      requires h in handles
      modifies h
      ensures HandleStates(handles) == old(HandleStates(handles))[h := HandleState(false, null)]
    {
      h.pollCtx := null;
      h.active := false;
    }

    /** Context and handle are untied, and a timer that runs is closed. */
    method Detach(h: Handle, ctx: PollCtx)
      requires h in handles && ctx in all
      modifies h, `log, ctx`parentHandle, ctx`timer
      ensures View() == AfterStop(old(View()), h, ctx)
    {
      ghost var w := View();
      assert w.ctxs[ctx] == StateOf(ctx);
      Orphan(ctx);
      ghost var ctxs := States(all);
      Deactivate(h);
      assert States(all) == ctxs;
      log := log + [Stopped(ctx)];
    }

    /** uv_fs_poll_stop. */
    method StopPoll(h: Handle)
      requires Valid() && h in handles
      modifies h, `log, all`parentHandle, all`timer
      ensures Valid() && View() == Next(old(View()), Stop(h))
    {
      ghost var w := View();
      assert HandleOk(w, h);
      if !h.active { return; }
      var ctx := h.pollCtx;
      assert ctx != null && ctx.parentHandle != null;
      StopOk(w, h, ctx);
      Detach(h, ctx);
    }

    method Request(c: PollCtx)
      requires c in all
      modifies c`timer, c`startTime, c`request
      ensures View() == With(old(View()), c, old(StateOf(c)).(timer := Inactive, start := now, request := InFlight))
    {
      c.timer := Inactive;
      c.startTime := now;
      c.request := InFlight;
      assert States(all) == old(States(all))[c := StateOf(c)];
    }

    /** timer_cb, called for a timer that is due and not repeated. */
    method TimerCb(c: PollCtx)
      requires Valid() && c in all && c.timer.Active? && c.timer.due <= now
      modifies c
      ensures c in live && Valid() && View() == Next(old(View()), TimerDue(c))
    {
      ghost var w := View();
      assert w.ctxs[c] == StateOf(c);
      EnabledIsLive(w, TimerDue(c), c);
      assert c.parentHandle != null && c.parentHandle.pollCtx == c by {
        assert w.handles[c.parentHandle] == HandleState(c.parentHandle.active, c.parentHandle.pollCtx);
      }
      TimerDueOk(w, c);
      Request(c);
    }

    /** uv__finish_close: the timer is closed and leaves the queue. */
    method FinishClose(c: PollCtx)
      requires c in all
      modifies `queue, c`timer
      ensures queue == old(queue) - {c}
      ensures States(all) == old(States(all))[c := old(StateOf(c)).(timer := Closed)]
    {
      c.timer := Closed;
      queue := queue - {c};
      assert States(all) == old(States(all))[c := StateOf(c)];
    }

    method Free(c: PollCtx)
      requires c in all
      modifies `live, `queue, `log, c`timer
      ensures View() == AfterFree(old(View()), c)
    {
      FinishClose(c);
      live, log := live - {c}, log + [Freed(c)];
    }

    /** timer_close_cb, called at the end of uv__finish_close: the context is freed. */
    method TimerCloseCb(c: PollCtx)
      requires Valid() && c in all && c.timer == Closing
      modifies `live, `queue, `log, c`timer
      ensures c in old(live) && Valid() && View() == Next(old(View()), TimerClosed(c))
    {
      ghost var w := View();
      assert w.ctxs[c] == StateOf(c);
      EnabledIsLive(w, TimerClosed(c), c);
      TimerClosedOk(w, c);
      Free(c);
    }

    method Tick(ms: nat)
      modifies `now
      ensures View() == var w := old(View()); w.(now := w.now + ms)
    {
      now := now + ms;
    }

    /** The clock of the loop goes on. */
    method UpdateTime(ms: nat)
      requires Valid()
      modifies `now
      ensures Valid() && View() == Next(old(View()), Elapse(ms))
    {
      ElapseOk(View(), ms);
      Tick(ms);
    }

    /** What the user does in the callback. */
    method UserCallback(actions: seq<Action>) returns (ghost events: seq<Event>)
      requires Valid() && forall a | a in actions :: Possible(a, handles)
      modifies handles, `now, `live, `queue, `all, `log, all`parentHandle, all`timer
      ensures Valid() && Runs(old(View()), events, View()) &&
              (forall e | e in events :: ByUser(e))
      ensures old(live) <= live && old(all) <= all && fresh(all - old(all))
    {
      ghost var w := View();
      events := [];
      for i := 0 to |actions|
        invariant Valid() && Runs(w, events, View()) && (forall e | e in events :: ByUser(e))
        invariant old(live) <= live && old(all) <= all && fresh(all - old(all))
      {
        ghost var e := UserAction(actions[i], w, events);
        events := events + [e];
      }
    }

    method UserAction(a: Action, ghost w: World, ghost events: seq<Event>) returns (ghost e: Event)
      requires Valid() && Possible(a, handles) && Runs(w, events, View())
      modifies handles, `now, `live, `queue, `all, `log, all`parentHandle, all`timer
      ensures Valid() && Runs(w, events + [e], View()) && ByUser(e)
      ensures old(live) <= live && old(all) <= all && fresh(all - old(all))
    {
      ghost var u := View();
      match a {
        case Begin(h, interval, enough, stat) =>
          var err;
          ghost var lost;
          err, lost := StartPoll(h, interval, enough, stat);
          e := if err == 0 then Start(h, h.pollCtx, interval)
               else if lost != null then StartFails(h, lost)
               else Elapse(0);
        case End(h) =>
          StopPoll(h);
          e := Stop(h);
        case Spend(ms) =>
          UpdateTime(ms);
          e := Elapse(ms);
      }
      RunAppend(w, events, u, e, View());
    }

    /** The test of poll_cb, on the fields. */
    method Tell(c: PollCtx, o: Outcome) returns (tell: bool)
      ensures tell == Reports(StateOf(c), o)
    {
      match o {
        case Failed(code) => tell := c.busyPolling != code;
        case Seen(buf) => tell := c.busyPolling != 0 && (c.busyPolling < 0 || !StatEq(c.statbuf, buf));
      }
    }

    /** The timer of a stopped context is closed. */
    method CloseTimer(c: PollCtx)
      requires c in all && c.parentHandle == null && c.timer == Inactive
      modifies c`timer, c`request
      ensures View() == With(old(View()), c, old(StateOf(c)).(timer := Closing, request := Idle))
    {
      c.timer := Closing;
      c.request := Idle;
      assert States(all) == old(States(all))[c := StateOf(c)];
    }

    /** The result is being dealt with, and if the user is to be told, it is called. */
    method Receive(c: PollCtx, o: Outcome, tell: bool)
      requires c in all && c.parentHandle != null && tell == Reports(StateOf(c), o)
      modifies c`request, `log
      ensures View() == AfterResult(old(View()), c, o)
    {
      ghost var w := View();
      c.request := Processing(o);
      if tell { log := log + [Called(c, Report(w.ctxs[c], o))]; }
      assert States(all) == old(States(all))[c := StateOf(c)];
    }

    method Store(c: PollCtx, o: Outcome)
      modifies c`busyPolling, c`statbuf, c`results
      ensures c.busyPolling == if o.Failed? then o.code else 1
      ensures c.statbuf == if o.Failed? then old(c.statbuf) else o.buf
      ensures c.results == old(c.results) + [o]
    {
      match o {
        case Failed(code) => c.busyPolling := code;
        case Seen(buf) => c.statbuf, c.busyPolling := buf, 1;
      }
      c.results := c.results + [o];
    }

    /** The timer is started, or closed if the user has stopped the poller. */
    method Rearm(c: PollCtx)
      requires c.timer == Inactive
      requires c.parentHandle != null ==> c.interval >= 1 && c.startTime <= now
      modifies c`timer, c`request
      ensures c.request == Idle
      ensures c.timer == if c.parentHandle == null then Closing else Active(now + Delay(StateOf(c), now))
    {
      c.request := Idle;
      if c.parentHandle == null {
        c.timer := Closing;
      } else {
        var interval := c.interval;
        interval := interval - (now - c.startTime) % interval;
        c.timer := Active(now + interval);
      }
    }

    /** The end of poll_cb: the new state is stored, and the timer set. */
    method Finish(c: PollCtx, o: Outcome)
      requires c in all && c.timer == Inactive && (c.parentHandle != null ==> c.interval >= 1 && c.startTime <= now)
      modifies c
      ensures View() == With(old(View()), c, AfterStat(old(StateOf(c)), o, now))
    {
      ghost var x := StateOf(c);
      Store(c, o);
      Rearm(c);
      assert StateOf(c) == AfterStat(x, o, now);
      assert States(all) == old(States(all))[c := StateOf(c)];
    }

    method FinishStat(c: PollCtx, o: Outcome)
      requires Valid() && c in all && c.request == Processing(o)
      modifies c
      ensures Valid() && Enabled(old(View()), StatEnd(c)) && View() == Next(old(View()), StatEnd(c))
    {
      ghost var w := View();
      assert w.ctxs[c] == StateOf(c);
      EnabledIsLive(w, StatEnd(c), c);
      StatEndOk(w, c);
      Finish(c, o);
    }

    method ReceiveStat(c: PollCtx, o: Outcome) returns (tell: bool)
      requires Valid() && c in all && c.request == InFlight && Proper(o)
      modifies c`timer, c`request, `log
      ensures Valid() && Enabled(old(View()), StatDone(c, o)) && View() == Next(old(View()), StatDone(c, o))
      ensures old(c.parentHandle) != null ==> c.request == Processing(o) && tell == Reports(old(StateOf(c)), o)
      ensures old(c.parentHandle) == null ==> !tell
    {
      ghost var w := View();
      assert w.ctxs[c] == StateOf(c);
      StatDoneIs(w, c, o);
      if c.parentHandle == null {
        CloseTimer(c);
        return false;
      }
      tell := Tell(c, o);
      Receive(c, o, tell);
    }

    /** The call of the user's callback, if it is made. */
    method Notify(c: PollCtx, o: Outcome, actions: seq<Action>, tell: bool) returns (ghost users: seq<Event>)
      requires Valid() && c in live && c in all && c.request == Processing(o)
      requires forall a | a in actions :: Possible(a, handles)
      modifies handles, `now, `live, `queue, `all, `log, all`parentHandle, all`timer
      ensures Valid() && Runs(old(View()), users, View()) && (forall e | e in users :: ByUser(e))
      ensures c in live && c in all && c.request == Processing(o) && (!tell ==> users == [])
      ensures fresh(all - old(all))
    {
      users := [];
      if tell {
        users := UserCallback(actions);
      }
    }

    /** poll_cb, with what the user does in the callback, if it is called: the events of the user lie between the
        first and the last part. */
    method PollCb(c: PollCtx, o: Outcome, actions: seq<Action>) returns (ghost users: seq<Event>)
      requires Valid() && c in all && c.request == InFlight && Proper(o)
      requires forall a | a in actions :: Possible(a, handles)
      modifies this, handles, all
      ensures Valid() && c in old(live)
      ensures old(c.parentHandle) == null ==> Runs(old(View()), [StatDone(c, o)], View())
      ensures old(c.parentHandle) != null ==> Runs(old(View()), [StatDone(c, o)] + users + [StatEnd(c)], View())
      ensures forall e | e in users :: ByUser(e)
      ensures users != [] ==> old(c.parentHandle) != null && Reports(old(StateOf(c)), o)
    {
      ghost var w := View();
      var stopped := c.parentHandle == null;
      var tell := ReceiveStat(c, o);
      users := [];
      RunOf(w, StatDone(c, o));
      if stopped { return; }
      users := Notify(c, o, actions, tell);
      RunFirst(w, StatDone(c, o), Next(w, StatDone(c, o)), users, View());
      ghost var v := View();
      FinishStat(c, o);
      RunAppend(w, [StatDone(c, o)] + users, v, StatEnd(c), View());
    }
  }
}
