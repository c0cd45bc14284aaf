/** The timeout table of exr1k_timer.c as a state machine, with a history of jobs and firings beside it. */
module TimerSpec {

  const TIMEOUT_SIZE: nat := 16
  const TIMEOUT_ONESHOT: nat := 0
  const TIMEOUT_PERIODIC: nat := 1

  /** A slot; `cb` is 0 for a null callback. */
  datatype Timeout = Timeout(tick: nat, expireAt: nat, expired: bool, kind: nat, cb: nat, ctx: nat)

  datatype Table = Table(tick: nat, msPerTick: nat, slots: seq<Timeout>)

  datatype Op = Tick | Poll | Schedule(ms: nat, kind: nat, cb: nat, ctx: nat) | Cancel(id: nat)

  datatype Call = Call(cb: nat, ctx: nat)

  ghost predicate GoodTable(t: Table) {
    t.msPerTick > 0 && |t.slots| == TIMEOUT_SIZE
  }

  // ---------------------------------------------------------------- one operation

  predicate Due(s: Timeout, now: nat) {
    !s.expired && s.expireAt <= now
  }

  /** What a poll leaves of a slot. */
  function Polled(s: Timeout, now: nat): Timeout {
    if !Due(s, now) then s
    else if s.kind == TIMEOUT_PERIODIC then s.(expireAt := now + s.tick)
    else s.(expired := true)
  }

  /** The callbacks a poll makes for the first `n` slots, in slot order. */
  function CallsTo(slots: seq<Timeout>, now: nat, n: nat): seq<Call>
    requires n <= |slots|
  {
    if n == 0 then []
    else CallsTo(slots, now, n - 1) +
         if Due(slots[n - 1], now) && slots[n - 1].cb != 0 then [Call(slots[n - 1].cb, slots[n - 1].ctx)] else []
  }

  /** The first expired slot from `id` on, or the size of the table. */
  function FreeSlot(slots: seq<Timeout>, id: nat): (k: nat)
    requires id <= |slots|
    ensures id <= k <= |slots| && (k < |slots| ==> slots[k].expired)
    ensures forall i :: id <= i < k ==> !slots[i].expired
    decreases |slots| - id
  {
    if id == |slots| || slots[id].expired then id else FreeSlot(slots, id + 1)
  }

  function Scheduled(t: Table, ms: nat, kind: nat, cb: nat, ctx: nat): Timeout
    requires t.msPerTick > 0
  {
    var ticks := ms / t.msPerTick;
    Timeout(ticks, t.tick + ticks, false, kind, cb, ctx)
  }

  function Step(t: Table, op: Op): (t': Table)
    requires t.msPerTick > 0
    ensures t'.msPerTick == t.msPerTick && |t'.slots| == |t.slots|
  {
    match op
    case Tick => t.(tick := t.tick + 1)
    case Poll => t.(slots := seq(|t.slots|, i requires 0 <= i < |t.slots| => Polled(t.slots[i], t.tick)))
    case Schedule(ms, kind, cb, ctx) =>
      var k := FreeSlot(t.slots, 0);
      if k == |t.slots| then t else t.(slots := t.slots[k := Scheduled(t, ms, kind, cb, ctx)])
    case Cancel(id) =>
      if id < |t.slots| then t.(slots := t.slots[id := t.slots[id].(expired := true)]) else t
  }

  // ---------------------------------------------------------------- history

  /** A successful scheduling: where, when, how long, which kind, and what to call. */
  datatype Job = Job(slot: nat, start: nat, period: nat, kind: nat, cb: nat, ctx: nat)

  /** Job `job` was found due by a poll at tick `at`. */
  datatype Fire = Fire(job: nat, at: nat)

  /** `owner[k]` is the job last put in slot `k`; `cancelled` are the jobs cancelled while they were live; `pending`
      tells of a tick not polled yet. */
  datatype History = History(
    t: Table, owner: seq<nat>, jobs: seq<Job>, log: seq<Fire>, cancelled: set<nat>, pending: bool)

  function FiresTo(h: History, n: nat): seq<Fire>
    requires n <= |h.t.slots| == |h.owner|
  {
    if n == 0 then []
    else FiresTo(h, n - 1) + if Due(h.t.slots[n - 1], h.t.tick) then [Fire(h.owner[n - 1], h.t.tick)] else []
  }

  function Record(h: History, op: Op): (h': History)
    requires GoodTable(h.t) && |h.owner| == TIMEOUT_SIZE
    ensures h'.t == Step(h.t, op) && |h'.owner| == TIMEOUT_SIZE
  {
    var h1 := h.(t := Step(h.t, op));
    match op
    case Tick => h1.(pending := true)
    case Poll => h1.(log := h.log + FiresTo(h, TIMEOUT_SIZE), pending := false)
    case Schedule(ms, kind, cb, ctx) =>
      var k := FreeSlot(h.t.slots, 0);
      if k == TIMEOUT_SIZE then h1
      else h1.(owner := h.owner[k := |h.jobs|],
               jobs := h.jobs + [Job(k, h.t.tick, ms / h.t.msPerTick, kind, cb, ctx)])
    case Cancel(id) =>
      if id < TIMEOUT_SIZE && !h.t.slots[id].expired then h1.(cancelled := h.cancelled + {h.owner[id]}) else h1
  }

  /** After timer_init: every slot expired, nothing recorded. */
  ghost predicate Begins(h: History) {
    GoodTable(h.t) && |h.owner| == TIMEOUT_SIZE && h.jobs == [] && h.log == [] && h.cancelled == {} && !h.pending &&
    forall k :: 0 <= k < TIMEOUT_SIZE ==> h.t.slots[k].expired
  }

  function FreshHistory(t: Table): History {
    History(t, seq(TIMEOUT_SIZE, i => 0), [], [], {}, false)
  }

  ghost predicate Records(h: History, op: Op, h': History) {
    GoodTable(h.t) && |h.owner| == TIMEOUT_SIZE && h' == Record(h, op)
  }

  /** `trace` records the operations `ops` one after the other. */
  ghost predicate Run(ops: seq<Op>, trace: seq<History>) {
    |trace| == |ops| + 1 && Begins(trace[0]) &&
    forall i :: 0 <= i < |ops| ==> Records(trace[i], ops[i], trace[i + 1])
  }

  /** No tick comes while another one waits for its poll. */
  ghost predicate PolledEveryTick(ops: seq<Op>, trace: seq<History>) {
    Run(ops, trace) && forall i :: 0 <= i < |ops| && ops[i] == Tick ==> !trace[i].pending
  }

  function Times(log: seq<Fire>, job: nat): nat {
    if log == [] then 0 else Times(log[..|log| - 1], job) + if log[|log| - 1].job == job then 1 else 0
  }

  lemma {:induction false} TimesSplit(a: seq<Fire>, b: seq<Fire>, job: nat)
    ensures Times(a + b, job) == Times(a, job) + Times(b, job)
  {
    if b == [] {
      assert a + b == a;
    } else {
      assert (a + b)[..|a + b| - 1] == a + b[..|b| - 1];
      TimesSplit(a, b[..|b| - 1], job);
    }
  }

  /** When `job` fired last, or `start` if it has not fired. */
  function LastAt(log: seq<Fire>, job: nat, start: nat): nat {
    if log == [] then start
    else if log[|log| - 1].job == job then log[|log| - 1].at
    else LastAt(log[..|log| - 1], job, start)
  }

  // ---------------------------------------------------------------- what the history means in terms of the operations

  function TicksTo(ops: seq<Op>, n: nat): nat
    requires n <= |ops|
  {
    if n == 0 then 0 else TicksTo(ops, n - 1) + if ops[n - 1] == Tick then 1 else 0
  }

  /** Operation `i` is a tick, and no poll follows it before operation `n`. */
  ghost predicate UnpolledTick(ops: seq<Op>, n: nat, i: nat) {
    i < n <= |ops| && ops[i] == Tick && forall k :: i < k < n ==> ops[k] != Poll
  }

  /** Operation `i` is the scheduling that made job `j`: it found the first expired slot and asked for exactly this. */
  ghost predicate MadeBy(ops: seq<Op>, trace: seq<History>, j: nat, job: Job, i: nat) {
    i < |ops| && i < |trace| && ops[i].Schedule? && j == |trace[i].jobs| &&
    var t := trace[i].t;
    job.slot < |t.slots| && t.slots[job.slot].expired && (forall k :: 0 <= k < job.slot ==> !t.slots[k].expired) &&
    t.msPerTick > 0 && job.start == t.tick && job.period == ops[i].ms / t.msPerTick &&
    job.kind == ops[i].kind && job.cb == ops[i].cb && job.ctx == ops[i].ctx
  }

  /** Operation `i` cancels the slot in which job `j` is live. */
  ghost predicate CancelledBy(ops: seq<Op>, trace: seq<History>, j: nat, i: nat) {
    i < |ops| && i < |trace| && ops[i].Cancel? &&
    var id := ops[i].id;
    id < 16 && id < |trace[i].t.slots| == |trace[i].owner| && !trace[i].t.slots[id].expired && trace[i].owner[id] == j
  }

  // ---------------------------------------------------------------- the invariant of every run

  /** A live slot serves its own job, waits for the right tick, and has fired no more than time allows. */
  ghost predicate SlotOk(h: History, k: nat)
    requires k < |h.t.slots| == |h.owner|
  {
    var s := h.t.slots[k];
    !s.expired ==>
      h.owner[k] < |h.jobs| &&
      var j := h.jobs[h.owner[k]];
      var f := Times(h.log, h.owner[k]);
      j.slot == k && s.tick == j.period && s.kind == j.kind && s.cb == j.cb && s.ctx == j.ctx &&
      j.start <= h.t.tick && s.expireAt == LastAt(h.log, h.owner[k], j.start) + j.period &&
      if s.kind == TIMEOUT_PERIODIC
      then s.expireAt >= j.start + j.period * (f + 1) && j.start + j.period * f <= h.t.tick
      else f == 0 && s.expireAt == j.start + j.period &&
           (h.pending || h.t.tick < s.expireAt || j.start == h.t.tick)
  }

  /** Job `j` is still in its slot. */
  predicate Live(h: History, j: nat)
    requires j < |h.jobs|
  {
    var k := h.jobs[j].slot;
    k < |h.t.slots| == |h.owner| && !h.t.slots[k].expired && h.owner[k] == j
  }

  /** A periodic job, live or not, has fired no more than time allows and lives until it is cancelled; any other job
      has fired once, unless it is live or was cancelled. */
  ghost predicate JobOk(h: History, j: nat)
    requires j < |h.jobs|
  {
    (j in h.cancelled ==> !Live(h, j)) &&
    if h.jobs[j].kind == TIMEOUT_PERIODIC
    then h.jobs[j].start + h.jobs[j].period * Times(h.log, j) <= h.t.tick && (Live(h, j) || j in h.cancelled)
    else Times(h.log, j) == if Live(h, j) || j in h.cancelled then 0 else 1
  }

  /** No job fires before its time has passed since it was scheduled. */
  ghost predicate FireOk(h: History, i: nat)
    requires i < |h.log|
  {
    h.log[i].job < |h.jobs| &&
    h.jobs[h.log[i].job].start + h.jobs[h.log[i].job].period <= h.log[i].at <= h.t.tick
  }

  ghost predicate Inv(h: History) {
    GoodTable(h.t) && |h.owner| == TIMEOUT_SIZE &&
    (forall k :: 0 <= k < TIMEOUT_SIZE ==> SlotOk(h, k)) &&
    (forall j :: 0 <= j < |h.jobs| ==> JobOk(h, j)) &&
    (forall i :: 0 <= i < |h.log| ==> FireOk(h, i)) &&
    forall j <- h.cancelled :: j < |h.jobs|
  }

  /** A periodic slot polled at every tick is exactly on schedule. */
  ghost predicate OnSchedule(h: History, k: nat)
    requires k < |h.t.slots| == |h.owner|
  {
    var s := h.t.slots[k];
    !s.expired && s.kind == TIMEOUT_PERIODIC && s.tick >= 1 ==>
      h.owner[k] < |h.jobs| &&
      var j := h.jobs[h.owner[k]];
      s.expireAt == j.start + j.period * (Times(h.log, h.owner[k]) + 1) &&
      if h.pending then h.t.tick <= s.expireAt else h.t.tick < s.expireAt
  }
}
