/** exr1k_timer.c: the table as the firmware keeps it, one array updated in place. */
module Timer {
  import opened TimerSpec

  const INVALID_TIMER_ID: nat := 0xFFFF_FFFF

  class Timer {
    var tick: nat
    var msPerTick: nat
    const timeout: array<Timeout>

    ghost predicate Valid()
      reads this
    {
      msPerTick > 0 && timeout.Length == TIMEOUT_SIZE
    }

    ghost function Contents(): Table
      reads this, timeout
    {
      Table(tick, msPerTick, timeout[..])
    }

    /** The zeroed static table of a program that has set its tick length. */
    constructor (msPerTick: nat)
      requires msPerTick > 0
      ensures Valid() && fresh(timeout) && timeout.Length == 16 && tick == 0 && this.msPerTick == msPerTick
    {
      tick := 0;
      this.msPerTick := msPerTick;
      timeout := new Timeout[TIMEOUT_SIZE](i => Timeout(0, 0, false, TIMEOUT_ONESHOT, 0, 0));
    }

    /** timer_init: afterwards a run can begin. */
    method Init()
      requires Valid()
      modifies timeout
      ensures Valid() && Contents().tick == old(tick)
      ensures Begins(FreshHistory(Contents()))
      ensures forall k :: 0 <= k < TIMEOUT_SIZE ==> timeout[k] == old(timeout[k]).(expired := true)
    {
      var id := 0;
      while id < TIMEOUT_SIZE
        invariant 0 <= id <= TIMEOUT_SIZE
        invariant forall k :: 0 <= k < id ==> timeout[k] == old(timeout[k]).(expired := true)
        invariant forall k :: id <= k < TIMEOUT_SIZE ==> timeout[k] == old(timeout[k])
      {
        timeout[id] := timeout[id].(expired := true);
        id := id + 1;
      }
    }

    /** xsr_tick */
    method XsrTick()
      requires Valid()
      modifies this`tick
      ensures Valid() && Contents() == Step(old(Contents()), Tick)
      ensures tick == old(tick) + 1
    {
      tick := tick + 1;
    }

    /** timer_poll; `calls` are the callbacks in the order they are made. */
    method TimerPoll() returns (calls: seq<Call>)
      requires Valid()
      modifies timeout
      ensures Valid() && Contents() == Step(old(Contents()), Poll)
      ensures calls == CallsTo(old(timeout[..]), tick, TIMEOUT_SIZE)
    {
      calls := [];
      ghost var slots := timeout[..];
      var id := 0;
      while id < TIMEOUT_SIZE
        invariant 0 <= id <= TIMEOUT_SIZE
        invariant forall k :: 0 <= k < id ==> timeout[k] == Polled(slots[k], tick)
        invariant forall k :: id <= k < TIMEOUT_SIZE ==> timeout[k] == slots[k]
        invariant calls == CallsTo(slots, tick, id)
      {
        var tmo := timeout[id];
        if !tmo.expired && !(tmo.expireAt > tick) {
          if tmo.cb != 0 {
            calls := calls + [Call(tmo.cb, tmo.ctx)];
          }
          if tmo.kind == TIMEOUT_PERIODIC {
            timeout[id] := tmo.(expireAt := tick + tmo.tick);
          } else {
            timeout[id] := tmo.(expired := true);
          }
        }
        id := id + 1;
      }
    }

    /** timer_sched_timeout_cb: the first expired slot is taken; there is none exactly when all are live. */
    method SchedTimeoutCb(ms: nat, kind: nat, cb: nat, ctx: nat) returns (id: nat)
      requires Valid()
      modifies timeout
      ensures Valid() && Contents() == Step(old(Contents()), Schedule(ms, kind, cb, ctx))
      ensures id == 0xFFFF_FFFF <==> forall k :: 0 <= k < TIMEOUT_SIZE ==> !old(timeout[k].expired)
      ensures id != INVALID_TIMER_ID ==>
                id < TIMEOUT_SIZE && old(timeout[id].expired) && !timeout[id].expired &&
                forall k :: 0 <= k < TIMEOUT_SIZE && k != id ==> timeout[k] == old(timeout[k])
      ensures id != INVALID_TIMER_ID ==>
                timeout[id].cb == cb && timeout[id].ctx == ctx && timeout[id].kind == kind &&
                timeout[id].tick == ms / msPerTick && timeout[id].expireAt == tick + ms / msPerTick
    {
      ghost var slots := timeout[..];
      var k := 0;
      while k < TIMEOUT_SIZE
        invariant 0 <= k <= TIMEOUT_SIZE && timeout[..] == slots
        invariant forall i :: 0 <= i < k ==> !slots[i].expired
        invariant FreeSlot(slots, k) == FreeSlot(slots, 0)
      {
        if timeout[k].expired {
          var ticks := ms / msPerTick;
          timeout[k] := timeout[k].(tick := ticks, expireAt := tick + ticks, kind := kind, expired := false);
          timeout[k] := timeout[k].(cb := cb, ctx := ctx);
          assert timeout[..] == slots[k := Scheduled(old(Contents()), ms, kind, cb, ctx)];
          return k;
        }
        k := k + 1;
      }
      id := INVALID_TIMER_ID;
    }

    /** timer_cancel_timeout */
    method CancelTimeout(id: nat)
      requires Valid()
      modifies timeout
      ensures Valid() && Contents() == Step(old(Contents()), Cancel(id))
      ensures forall k :: 0 <= k < TIMEOUT_SIZE ==>
                timeout[k] == if k == id then old(timeout[k]).(expired := true) else old(timeout[k])
    {
      if id < TIMEOUT_SIZE {
        timeout[id] := timeout[id].(expired := true);
      }
    }
  }
}
