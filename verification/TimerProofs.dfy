/** What every run of schedule, cancel, tick and poll keeps. */
module TimerProofs {
  import opened TimerSpec

  /** A poll adds one firing to a job exactly when the job's slot is due and still its own. */
  lemma {:induction false} FiresOfJob(h: History, n: nat, j: nat)
    requires Inv(h) && n <= TIMEOUT_SIZE && j < |h.jobs|
    ensures var k := h.jobs[j].slot;
            Times(FiresTo(h, n), j) == if k < n && Due(h.t.slots[k], h.t.tick) && h.owner[k] == j then 1 else 0
  {
    if n == 0 {
    } else {
      FiresOfJob(h, n - 1, j);
      var s := FiresTo(h, n - 1);
      if Due(h.t.slots[n - 1], h.t.tick) {
        assert SlotOk(h, n - 1);
        var e := Fire(h.owner[n - 1], h.t.tick);
        assert (s + [e])[..|s + [e]| - 1] == s;
      } else {
        assert s + [] == s;
      }
    }
  }

  /** After a poll the last firing of a job is now if its slot was due and still its own, else what it was. */
  lemma {:induction false} LastAfterFires(h: History, n: nat, j: nat)
    requires Inv(h) && n <= TIMEOUT_SIZE && j < |h.jobs|
    ensures var k, start := h.jobs[j].slot, h.jobs[j].start;
            LastAt(h.log + FiresTo(h, n), j, start) ==
            if k < n && Due(h.t.slots[k], h.t.tick) && h.owner[k] == j then h.t.tick else LastAt(h.log, j, start)
  {
    if n == 0 {
      assert h.log + FiresTo(h, 0) == h.log;
    } else {
      LastAfterFires(h, n - 1, j);
      var s := h.log + FiresTo(h, n - 1);
      if Due(h.t.slots[n - 1], h.t.tick) {
        assert SlotOk(h, n - 1);
        var e := Fire(h.owner[n - 1], h.t.tick);
        assert h.log + FiresTo(h, n) == s + [e] && (s + [e])[..|s + [e]| - 1] == s;
      } else {
        assert h.log + FiresTo(h, n) == s;
      }
    }
  }

  /** Whatever a poll fires was due: its job's time has passed. */
  lemma {:induction false} FiresAreTimely(h: History, n: nat)
    requires Inv(h) && n <= TIMEOUT_SIZE
    ensures forall i :: 0 <= i < |FiresTo(h, n)| ==>
      var e := FiresTo(h, n)[i];
      e.at == h.t.tick && e.job < |h.jobs| && h.jobs[e.job].start + h.jobs[e.job].period <= h.t.tick
  {
    if n == 0 {
    } else {
      FiresAreTimely(h, n - 1);
      if Due(h.t.slots[n - 1], h.t.tick) {
        assert SlotOk(h, n - 1);
        PeriodsGrow(h.jobs[h.owner[n - 1]].period, Times(h.log, h.owner[n - 1]));
      }
    }
  }

  lemma PeriodsGrow(p: nat, f: nat)
    ensures p * (f + 1) == p * f + p && p * (f + 2) == p * (f + 1) + p && p * f >= 0
  {
  }

  lemma PollKeepsSlot(h: History, k: nat)
    requires Inv(h) && k < TIMEOUT_SIZE
    ensures SlotOk(Record(h, Poll), k)
  {
    var h' := Record(h, Poll);
    var s := h.t.slots[k];
    assert SlotOk(h, k);
    assert h'.t.slots[k] == Polled(s, h.t.tick);
    if !s.expired {
      var o := h.owner[k];
      FiresOfJob(h, TIMEOUT_SIZE, o);
      TimesSplit(h.log, FiresTo(h, TIMEOUT_SIZE), o);
      LastAfterFires(h, TIMEOUT_SIZE, o);
      PeriodsGrow(h.jobs[o].period, Times(h.log, o));
    }
  }

  lemma PollKeepsJob(h: History, j: nat)
    requires Inv(h) && j < |h.jobs|
    ensures JobOk(Record(h, Poll), j)
  {
    FiresOfJob(h, TIMEOUT_SIZE, j);
    TimesSplit(h.log, FiresTo(h, TIMEOUT_SIZE), j);
    assert JobOk(h, j);
    var k := h.jobs[j].slot;
    if k < TIMEOUT_SIZE { assert SlotOk(h, k); }
  }

  lemma PollKeepsInv(h: History)
    requires Inv(h)
    ensures Inv(Record(h, Poll))
  {
    var h' := Record(h, Poll);
    forall k | 0 <= k < TIMEOUT_SIZE ensures SlotOk(h', k) { PollKeepsSlot(h, k); }
    forall j | 0 <= j < |h'.jobs| ensures JobOk(h', j) { PollKeepsJob(h, j); }
    FiresAreTimely(h, TIMEOUT_SIZE);
    forall i | 0 <= i < |h'.log| ensures FireOk(h', i) {
      if i < |h.log| {
        assert FireOk(h, i);
      } else {
        assert h'.log[i] == FiresTo(h, TIMEOUT_SIZE)[i - |h.log|];
      }
    }
  }

  lemma {:induction false} NewJobHasNotFired(log: seq<Fire>, j: nat)
    requires forall i :: 0 <= i < |log| ==> log[i].job < j
    ensures Times(log, j) == 0 && forall start :: LastAt(log, j, start) == start
  {
    if log == [] {
    } else {
      NewJobHasNotFired(log[..|log| - 1], j);
    }
  }

  lemma UnusedJobHasNotFired(h: History)
    requires Inv(h)
    ensures Times(h.log, |h.jobs|) == 0 && |h.jobs| !in h.cancelled
    ensures forall start :: LastAt(h.log, |h.jobs|, start) == start
  {
    forall i | 0 <= i < |h.log| ensures h.log[i].job < |h.jobs| { assert FireOk(h, i); }
    NewJobHasNotFired(h.log, |h.jobs|);
  }

  lemma ScheduleKeepsSlot(h: History, ms: nat, kind: nat, cb: nat, ctx: nat, k: nat)
    requires Inv(h) && k < TIMEOUT_SIZE
    ensures SlotOk(Record(h, Schedule(ms, kind, cb, ctx)), k)
  {
    UnusedJobHasNotFired(h);
    assert SlotOk(h, k);
  }

  lemma ScheduleKeepsJob(h: History, ms: nat, kind: nat, cb: nat, ctx: nat, j: nat)
    requires Inv(h) && j < |Record(h, Schedule(ms, kind, cb, ctx)).jobs|
    ensures JobOk(Record(h, Schedule(ms, kind, cb, ctx)), j)
  {
    UnusedJobHasNotFired(h);
    assert j < |h.jobs| ==> JobOk(h, j);
  }

  lemma ScheduleKeepsInv(h: History, ms: nat, kind: nat, cb: nat, ctx: nat)
    requires Inv(h)
    ensures Inv(Record(h, Schedule(ms, kind, cb, ctx)))
  {
    var h' := Record(h, Schedule(ms, kind, cb, ctx));
    forall k | 0 <= k < TIMEOUT_SIZE ensures SlotOk(h', k) { ScheduleKeepsSlot(h, ms, kind, cb, ctx, k); }
    forall j | 0 <= j < |h'.jobs| ensures JobOk(h', j) { ScheduleKeepsJob(h, ms, kind, cb, ctx, j); }
    forall i | 0 <= i < |h'.log| ensures FireOk(h', i) { assert FireOk(h, i); }
  }

  lemma TickKeepsInv(h: History)
    requires Inv(h)
    ensures Inv(Record(h, Tick))
  {
    var h' := Record(h, Tick);
    forall k | 0 <= k < TIMEOUT_SIZE ensures SlotOk(h', k) { assert SlotOk(h, k); }
    forall j | 0 <= j < |h'.jobs| ensures JobOk(h', j) { assert JobOk(h, j); }
    forall i | 0 <= i < |h'.log| ensures FireOk(h', i) { assert FireOk(h, i); }
  }

  lemma CancelKeepsInv(h: History, id: nat)
    requires Inv(h)
    ensures Inv(Record(h, Cancel(id)))
  {
    var h' := Record(h, Cancel(id));
    if id < TIMEOUT_SIZE { assert SlotOk(h, id); }
    forall k | 0 <= k < TIMEOUT_SIZE ensures SlotOk(h', k) { assert SlotOk(h, k); }
    forall j | 0 <= j < |h'.jobs| ensures JobOk(h', j) { assert JobOk(h, j); }
    forall i | 0 <= i < |h'.log| ensures FireOk(h', i) { assert FireOk(h, i); }
  }

  /** Every operation keeps the invariant. */
  lemma StepKeepsInv(h: History, op: Op)
    requires Inv(h)
    ensures Inv(Record(h, op))
  {
    match op
    case Tick => TickKeepsInv(h);
    case Poll => PollKeepsInv(h);
    case Schedule(ms, kind, cb, ctx) => ScheduleKeepsInv(h, ms, kind, cb, ctx);
    case Cancel(id) => CancelKeepsInv(h, id);
  }

  /** In every run: nothing fires early; a one-shot has fired once unless it still waits or was cancelled; a periodic
      job, live or not, has fired no more often than time allows, and lives until it is cancelled. */
  lemma {:induction false} RunInv(ops: seq<Op>, trace: seq<History>, n: nat)
    requires Run(ops, trace) && n <= |ops|
    ensures Inv(trace[n])
  {
    if n == 0 {
    } else {
      RunInv(ops, trace, n - 1);
      assert Records(trace[n - 1], ops[n - 1], trace[n - 1 + 1]);
      StepKeepsInv(trace[n - 1], ops[n - 1]);
    }
  }

  /** A poll fires the job of a live slot once if the slot is due, which it is when a whole period has passed since the
      job's last firing, or since its scheduling, and not at all otherwise. */
  lemma PollFiresExactlyDue(h: History, k: nat)
    requires Inv(h) && k < TIMEOUT_SIZE && !h.t.slots[k].expired
    ensures Times(Record(h, Poll).log, h.owner[k]) ==
            Times(h.log, h.owner[k]) + if h.t.slots[k].expireAt <= h.t.tick then 1 else 0
    ensures h.owner[k] < |h.jobs| &&
            h.t.slots[k].expireAt ==
              LastAt(h.log, h.owner[k], h.jobs[h.owner[k]].start) + h.jobs[h.owner[k]].period
  {
    assert SlotOk(h, k);
    FiresOfJob(h, TIMEOUT_SIZE, h.owner[k]);
    TimesSplit(h.log, FiresTo(h, TIMEOUT_SIZE), h.owner[k]);
  }

  /** The callbacks of fired jobs; null ones are not called. */
  function CallsOf(jobs: seq<Job>, fires: seq<Fire>): seq<Call> {
    if fires == [] then []
    else
      var j := fires[|fires| - 1].job;
      CallsOf(jobs, fires[..|fires| - 1]) +
      if j < |jobs| && jobs[j].cb != 0 then [Call(jobs[j].cb, jobs[j].ctx)] else []
  }

  /** The callbacks a poll makes are those of the jobs it fires, in the same order. */
  lemma {:induction false} CallsAreOfFiredJobs(h: History, n: nat)
    requires Inv(h) && n <= TIMEOUT_SIZE
    ensures CallsTo(h.t.slots, h.t.tick, n) == CallsOf(h.jobs, FiresTo(h, n))
  {
    if n == 0 {
    } else {
      CallsAreOfFiredJobs(h, n - 1);
      if Due(h.t.slots[n - 1], h.t.tick) {
        assert SlotOk(h, n - 1);
        var s, e := FiresTo(h, n - 1), Fire(h.owner[n - 1], h.t.tick);
        assert (s + [e])[..|s + [e]| - 1] == s;
      } else {
        assert FiresTo(h, n) == FiresTo(h, n - 1);
      }
    }
  }

  /** A live slot is never given to another job: only a poll that finds it due or a cancel of it ends its job. */
  lemma LiveSlotKept(h: History, op: Op, k: nat)
    requires Inv(h) && k < TIMEOUT_SIZE && !h.t.slots[k].expired
    ensures var s' := Record(h, op).t.slots[k];
            var fires := op == Poll && Due(h.t.slots[k], h.t.tick);
            Record(h, op).owner[k] == h.owner[k] &&
            (s'.expired ==> op == Cancel(k) || (fires && h.t.slots[k].kind != TIMEOUT_PERIODIC)) &&
            (!s'.expired ==> s' == h.t.slots[k] || (fires && s' == h.t.slots[k].(expireAt := h.t.tick + s'.tick)))
  {
  }

  // ---------------------------------------------------------------- the history tells what the operations were

  /** The tick counts the tick operations; the tick length never changes. */
  lemma {:induction false} RunTicks(ops: seq<Op>, trace: seq<History>, n: nat)
    requires Run(ops, trace) && n <= |ops|
    ensures trace[n].t.tick == trace[0].t.tick + TicksTo(ops, n) && trace[n].t.msPerTick == trace[0].t.msPerTick
  {
    if n == 0 {
    } else {
      RunTicks(ops, trace, n - 1);
      assert Records(trace[n - 1], ops[n - 1], trace[n - 1 + 1]);
    }
  }

  /** A poll is pending exactly when a tick came after the last one. */
  lemma {:induction false} RunPending(ops: seq<Op>, trace: seq<History>, n: nat)
    requires Run(ops, trace) && n <= |ops|
    ensures trace[n].pending <==> exists i: nat :: UnpolledTick(ops, n, i)
  {
    if n == 0 {
    } else {
      RunPending(ops, trace, n - 1);
      assert Records(trace[n - 1], ops[n - 1], trace[n - 1 + 1]);
      assert ops[n - 1] == Tick ==> UnpolledTick(ops, n, n - 1);
      forall i: nat ensures UnpolledTick(ops, n, i) <==>
        i < n && if i == n - 1 then ops[i] == Tick else UnpolledTick(ops, n - 1, i) && ops[n - 1] != Poll {
      }
    }
  }

  /** Every job was made by a scheduling operation, and is what that operation asked for. */
  lemma {:induction false} JobsAreScheduled(ops: seq<Op>, trace: seq<History>, n: nat, j: nat)
    requires Run(ops, trace) && n <= |ops| && j < |trace[n].jobs|
    ensures exists i: nat :: i < n && MadeBy(ops, trace, j, trace[n].jobs[j], i)
  {
    if n == 0 {
    } else {
      assert Records(trace[n - 1], ops[n - 1], trace[n - 1 + 1]);
      if j < |trace[n - 1].jobs| {
        JobsAreScheduled(ops, trace, n - 1, j);
        assert trace[n].jobs[j] == trace[n - 1].jobs[j];
      } else {
        assert MadeBy(ops, trace, j, trace[n].jobs[j], n - 1);
      }
    }
  }

  /** The cancelled jobs are those cancelled while live. */
  lemma {:induction false} RunCancelled(ops: seq<Op>, trace: seq<History>, n: nat, j: nat)
    requires Run(ops, trace) && n <= |ops|
    ensures j in trace[n].cancelled <==> exists i: nat :: i < n && CancelledBy(ops, trace, j, i)
  {
    if n == 0 {
    } else {
      RunCancelled(ops, trace, n - 1, j);
      assert Records(trace[n - 1], ops[n - 1], trace[n - 1 + 1]);
      assert j in trace[n].cancelled <==> j in trace[n - 1].cancelled || CancelledBy(ops, trace, j, n - 1);
    }
  }

  /** In every run each poll calls, in the order of the firings it adds, exactly the non-null callbacks with the
      contexts that the scheduling operations of the fired jobs asked for. */
  lemma PollCallsWhatWasScheduled(ops: seq<Op>, trace: seq<History>, n: nat)
    requires Run(ops, trace) && n < |ops| && ops[n] == Poll
    ensures |trace[n].t.slots| == 16 && |trace[n].log| <= |trace[n + 1].log|
    ensures var fires := trace[n + 1].log[|trace[n].log|..];
            trace[n + 1].log == trace[n].log + fires &&
            CallsTo(trace[n].t.slots, trace[n].t.tick, 16) == CallsOf(trace[n].jobs, fires) &&
            forall f <- fires :: f.job < |trace[n].jobs| &&
                                 exists i: nat :: i < n && MadeBy(ops, trace, f.job, trace[n].jobs[f.job], i)
  {
    var h := trace[n];
    RunInv(ops, trace, n);
    assert Records(h, ops[n], trace[n + 1]);
    var fires := trace[n + 1].log[|h.log|..];
    assert fires == FiresTo(h, TIMEOUT_SIZE);
    CallsAreOfFiredJobs(h, TIMEOUT_SIZE);
    FiresAreTimely(h, TIMEOUT_SIZE);
    forall f | f in fires
      ensures f.job < |h.jobs| && exists i: nat :: i < n && MadeBy(ops, trace, f.job, h.jobs[f.job], i)
    {
      JobsAreScheduled(ops, trace, n, f.job);
    }
  }

  // ---------------------------------------------------------------- one-shot jobs

  /** In every run, once all ticks so far are polled: a one-shot that was not cancelled has fired exactly once if its
      delay has passed, and not at all before; a cancelled one never fires. With d >= 1 ticks of delay the firing is
      thus the one poll at tick start + d. */
  lemma OneShotFiresOnce(ops: seq<Op>, trace: seq<History>, n: nat, j: nat)
    requires Run(ops, trace) && n <= |ops| && !trace[n].pending && j < |trace[n].jobs|
    requires trace[n].jobs[j].kind != 1 && trace[n].t.tick > trace[n].jobs[j].start
    ensures var h := trace[n];
            Times(h.log, j) ==
              if j !in h.cancelled && h.t.tick >= h.jobs[j].start + h.jobs[j].period then 1 else 0
  {
    var h := trace[n];
    RunInv(ops, trace, n);
    assert JobOk(h, j);
    if Live(h, j) {
      assert SlotOk(h, h.jobs[j].slot);
    } else if Times(h.log, j) == 1 {
      FiredAt(h.log, j);
      var i :| 0 <= i < |h.log| && h.log[i].job == j;
      assert FireOk(h, i);
    }
  }

  lemma {:induction false} FiredAt(log: seq<Fire>, j: nat)
    requires Times(log, j) > 0
    ensures exists i :: 0 <= i < |log| && log[i].job == j
  {
    if log[|log| - 1].job != j {
      FiredAt(log[..|log| - 1], j);
    }
  }

  // ---------------------------------------------------------------- periodic jobs polled at every tick

  lemma PollKeepsSchedule(h: History, k: nat)
    requires Inv(h) && k < TIMEOUT_SIZE && OnSchedule(h, k)
    ensures OnSchedule(Record(h, Poll), k)
  {
    assert SlotOk(h, k);
    if !h.t.slots[k].expired {
      var o := h.owner[k];
      FiresOfJob(h, TIMEOUT_SIZE, o);
      TimesSplit(h.log, FiresTo(h, TIMEOUT_SIZE), o);
      PeriodsGrow(h.jobs[o].period, Times(h.log, o));
    }
  }

  lemma ScheduleKeepsSchedule(h: History, ms: nat, kind: nat, cb: nat, ctx: nat, k: nat)
    requires Inv(h) && k < TIMEOUT_SIZE && OnSchedule(h, k)
    ensures OnSchedule(Record(h, Schedule(ms, kind, cb, ctx)), k)
  {
    assert SlotOk(h, k);
    UnusedJobHasNotFired(h);
  }

  lemma StepKeepsSchedule(h: History, op: Op, k: nat)
    requires Inv(h) && k < TIMEOUT_SIZE && OnSchedule(h, k) && (op == Tick ==> !h.pending)
    ensures OnSchedule(Record(h, op), k)
  {
    match op
    case Tick =>
    case Poll => PollKeepsSchedule(h, k);
    case Schedule(ms, kind, cb, ctx) => ScheduleKeepsSchedule(h, ms, kind, cb, ctx, k);
    case Cancel(id) =>
  }

  lemma {:induction false} RunOnSchedule(ops: seq<Op>, trace: seq<History>, n: nat, k: nat)
    requires PolledEveryTick(ops, trace) && n <= |ops| && k < TIMEOUT_SIZE
    ensures |trace[n].t.slots| == |trace[n].owner| == TIMEOUT_SIZE && OnSchedule(trace[n], k)
  {
    if n == 0 {
    } else {
      RunOnSchedule(ops, trace, n - 1, k);
      RunInv(ops, trace, n - 1);
      assert Records(trace[n - 1], ops[n - 1], trace[n - 1 + 1]);
      StepKeepsSchedule(trace[n - 1], ops[n - 1], k);
    }
  }

  lemma ProductsKeepOrder(p: nat, a: nat, b: nat)
    ensures a <= b ==> p * a <= p * b
  {
    if a <= b {
      assert p * b == p * a + p * (b - a);
    }
  }

  lemma QuotientIs(x: nat, p: nat, f: nat)
    requires p >= 1 && p * f <= x < p * (f + 1)
    ensures x / p == f
  {
    var q := x / p;
    assert p * q <= x < p * (q + 1);
    ProductsKeepOrder(p, q + 1, f);
    ProductsKeepOrder(p, f + 1, q);
  }

  /** Polled at every tick, a periodic job of period p >= 1 has fired exactly floor(elapsed / p) times after each
      poll. */
  lemma PeriodicFiresExactly(ops: seq<Op>, trace: seq<History>, n: nat, k: nat)
    requires PolledEveryTick(ops, trace) && n <= |ops| && k < TIMEOUT_SIZE && !trace[n].pending
    requires |trace[n].t.slots| == TIMEOUT_SIZE
    requires var s := trace[n].t.slots[k]; !s.expired && s.kind == 1 && s.tick >= 1
    ensures var h := trace[n];
            k < |h.owner| && h.owner[k] < |h.jobs| &&
            var j := h.jobs[h.owner[k]];
            j.slot == k && j.period == h.t.slots[k].tick && j.start <= h.t.tick &&
            Times(h.log, h.owner[k]) == (h.t.tick - j.start) / j.period
  {
    var h := trace[n];
    RunInv(ops, trace, n);
    RunOnSchedule(ops, trace, n, k);
    assert SlotOk(h, k);
    var j := h.jobs[h.owner[k]];
    QuotientIs(h.t.tick - j.start, j.period, Times(h.log, h.owner[k]));
  }
}
