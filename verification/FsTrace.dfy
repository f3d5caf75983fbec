/** What a file poller reports for a sequence of stat results. */
module FsTrace {
  datatype Time = Time(sec: int, nsec: int)

  datatype StatBuf = StatBuf(dev: int, mode: int, nlink: int, uid: int, gid: int, rdev: int, ino: int, size: int,
                             blksize: int, blocks: int, flags: int, gen: int,
                             atim: Time, mtim: Time, ctim: Time, birthtim: Time)

  const ZERO_TIME := Time(0, 0)
  const ZERO := StatBuf(0, 0, 0, 0, 0, 0, 0, 0, 0, 0, 0, 0, ZERO_TIME, ZERO_TIME, ZERO_TIME, ZERO_TIME)

  /** statbuf_eq. */
  predicate StatEq(a: StatBuf, b: StatBuf) {
    && a.ctim.nsec == b.ctim.nsec && a.mtim.nsec == b.mtim.nsec && a.birthtim.nsec == b.birthtim.nsec
    && a.ctim.sec == b.ctim.sec && a.mtim.sec == b.mtim.sec && a.birthtim.sec == b.birthtim.sec
    && a.size == b.size && a.mode == b.mode && a.uid == b.uid && a.gid == b.gid
    && a.ino == b.ino && a.dev == b.dev && a.flags == b.flags && a.gen == b.gen
  }

  /** Two states are equal for the user exactly when they are the same in everything but the links, the device numbers
      of special files, the blocks, and the access time. */
  lemma StatEqIsSame(a: StatBuf, b: StatBuf)
    ensures StatEq(a, b) <==>
            a.(nlink := b.nlink, rdev := b.rdev, blksize := b.blksize, blocks := b.blocks, atim := b.atim) == b
  {
    assert StatEq(a, b) ==> a.ctim == b.ctim && a.mtim == b.mtim && a.birthtim == b.birthtim;
  }

  /** The result of one stat: a negative error, or what was seen. */
  datatype Outcome = Failed(code: int) | Seen(buf: StatBuf)

  /** A call of the user's callback. */
  datatype Call = Call(status: int, prev: StatBuf, curr: StatBuf)

  predicate Proper(o: Outcome) {
    o.Failed? ==> o.code < 0
  }

  /** Two results that the user need not tell apart. */
  predicate Same(a: Outcome, b: Outcome) {
    match (a, b)
    case (Failed(x), Failed(y)) => x == y
    case (Seen(x), Seen(y)) => StatEq(x, y)
    case _ => false
  }

  /** The last file state that was seen. */
  function LastSeen(outs: seq<Outcome>): StatBuf {
    if outs == [] then ZERO
    else
      var n := |outs| - 1;
      if outs[n].Seen? then outs[n].buf else LastSeen(outs[..n])
  }

  /** Result `i` is a change: it is not the same as the one before, or it is a first failure. */
  predicate Changes(outs: seq<Outcome>, i: nat)
    requires i < |outs|
  {
    if i == 0 then outs[0].Failed? else !Same(outs[i - 1], outs[i])
  }

  /** The call that tells of result `i`. */
  function CallFor(outs: seq<Outcome>, i: nat): Call
    requires i < |outs|
  {
    match outs[i]
    case Failed(code) => Call(code, LastSeen(outs[..i]), ZERO)
    case Seen(buf) => Call(0, LastSeen(outs[..i]), buf)
  }

  /** One call for each change among the first `k` results, in order. */
  function Calls(outs: seq<Outcome>, k: nat): seq<Call>
    requires k <= |outs|
  {
    if k == 0 then []
    else if Changes(outs, k - 1) then Calls(outs, k - 1) + [CallFor(outs, k - 1)]
    else Calls(outs, k - 1)
  }

  lemma {:induction false} CallsPrefix(outs: seq<Outcome>, o: Outcome, k: nat)
    requires k <= |outs|
    ensures Calls(outs + [o], k) == Calls(outs, k)
  {
    if k > 0 {
      CallsPrefix(outs, o, k - 1);
      assert (outs + [o])[..k - 1] == outs[..k - 1];
    }
  }

  /** busy_polling after the results: 0 before the first, 1 after a success, else the error. */
  function Busy(outs: seq<Outcome>): int {
    if outs == [] then 0
    else
      var o := outs[|outs| - 1];
      if o.Failed? then o.code else 1
  }

  /** The test of poll_cb, made on busy_polling and the stored state, finds exactly the changes. */
  lemma NextCall(outs: seq<Outcome>, o: Outcome)
    requires Proper(o) && forall p | p in outs :: Proper(p)
    ensures var all, n := outs + [o], |outs|;
            Calls(all, n + 1) ==
              if (match o
                  case Failed(code) => Busy(outs) != code
                  case Seen(buf) => Busy(outs) < 0 || (Busy(outs) != 0 && !StatEq(LastSeen(outs), buf)))
              then Calls(outs, n) + [match o case Failed(code) => Call(code, LastSeen(outs), ZERO)
                                             case Seen(buf) => Call(0, LastSeen(outs), buf)]
              else Calls(outs, n)
  {
    var all, n := outs + [o], |outs|;
    CallsPrefix(outs, o, n);
    assert all[..n] == outs && all[n] == o;
    if n > 0 {
      assert all[n - 1] == outs[n - 1] && outs[n - 1] in outs;
    }
  }

  /** The state of the file that was seen last, result `i` being the last that is not a failure. */
  lemma {:induction false} LastSeenIs(outs: seq<Outcome>, i: int)
    requires -1 <= i < |outs| && (forall j :: i < j < |outs| ==> outs[j].Failed?) && (i >= 0 ==> outs[i].Seen?)
    ensures LastSeen(outs) == if i >= 0 then outs[i].buf else ZERO
    decreases |outs|
  {
    if outs != [] && outs[|outs| - 1].Failed? { LastSeenIs(outs[..|outs| - 1], i); }
  }

  lemma StoredState(outs: seq<Outcome>, o: Outcome)
    ensures Busy(outs + [o]) == if o.Failed? then o.code else 1
    ensures LastSeen(outs + [o]) == if o.Failed? then LastSeen(outs) else o.buf
  {
    assert (outs + [o])[..|outs|] == outs;
  }

  // ---------- what follows for the user ----------

  /** What a call tells. */
  function Told(c: Call): Outcome {
    if c.status < 0 then Failed(c.status) else Seen(c.curr)
  }

  /** The user is up to date at any time: the last call tells the present result; before the first call every stat
      has succeeded and found the first state. */
  lemma {:induction false} UpToDate(outs: seq<Outcome>, k: nat)
    requires (forall o | o in outs :: Proper(o)) && 0 < k <= |outs|
    ensures var calls := Calls(outs, k);
            if calls == [] then outs[0].Seen? && Same(outs[0], outs[k - 1])
            else Same(Told(calls[|calls| - 1]), outs[k - 1])
    decreases k
  {
    assert outs[k - 1] in outs;
    if k > 1 { UpToDate(outs, k - 1); }
  }

  /** No call repeats what the call before it has told. */
  lemma {:induction false} NoRepeats(outs: seq<Outcome>, k: nat, i: nat)
    requires (forall o | o in outs :: Proper(o)) && k <= |outs| && i + 1 < |Calls(outs, k)|
    ensures !Same(Told(Calls(outs, k)[i]), Told(Calls(outs, k)[i + 1]))
    decreases k
  {
    var before := Calls(outs, k - 1);
    if i + 1 < |before| {
      NoRepeats(outs, k - 1, i);
    } else {
      assert outs[k - 1] in outs;
      UpToDate(outs, k - 1);
    }
  }

  /** While nothing changes there are no calls, and the stored state stays the same for the user. */
  lemma {:induction false} SteadyIsSilent(outs: seq<Outcome>, i: nat, k: nat)
    requires i < k <= |outs| && forall j :: i < j < k ==> Same(outs[j - 1], outs[j])
    ensures Calls(outs, k) == Calls(outs, i + 1)
    ensures StatEq(LastSeen(outs[..i + 1]), LastSeen(outs[..k]))
    decreases k
  {
    if i < k - 1 {
      SteadyIsSilent(outs, i, k - 1);
      assert outs[..k][..k - 1] == outs[..k - 1] && outs[..k - 1][..k - 2] == outs[..k - 2];
    }
  }
}
