/** scheduler.c and its callers, over the statics of the single-CPU build. */
module SchedulerImpl {
  import opened Words
  import opened Sequences
  import opened FindFirstSet
  import opened SchedulerModel

  class Scheduler {
    var threads: map<int, Thread>
    var rt_thread_priority_table: seq<seq<int>>
    var rt_thread_ready_priority_group: bv32
    var rt_current_thread: int
    var rt_scheduler_lock_nest: int

    ghost function Abs(): Sched
      reads this
    {
      Sched(threads, rt_thread_priority_table, rt_thread_ready_priority_group, rt_current_thread,
          rt_scheduler_lock_nest)
    }

    /** A system with one thread, the one that runs. */
    constructor (self: int, prio: int, tick: int)
      requires 0 <= prio < 32 && 0 <= tick < WORD
      ensures Inv(Abs()) && Settled(Abs()) && rt_current_thread == self && rt_scheduler_lock_nest == 0
    {
      threads := map[self := Thread(Running, false, prio, prio, Mask(prio), tick, tick)];
      rt_thread_priority_table := seq(32, i => []);
      rt_thread_ready_priority_group := 0;
      rt_current_thread := self;
      rt_scheduler_lock_nest := 0;
      new;
      forall p | 0 <= p < 32 ensures !Bit(0, p) {
        NoBit(p);
      }
      hide Bit, Mask;
    }

    /** `thread->stat = stat | (thread->stat & ~RT_THREAD_STAT_MASK)`. */
    method SetStat(t: int, stat: Stat)
      requires t in threads
      modifies this`threads
      ensures threads == old(threads)[t := old(threads)[t].(stat := stat)]
    {
      threads := threads[t := threads[t].(stat := stat)];
    }

    /** rt_schedule_insert_thread. */
    method InsertThread(t: int)
      requires t in threads && |rt_thread_priority_table| == 32 && 0 <= threads[t].prio < 32
      modifies this`threads, this`rt_thread_priority_table, this`rt_thread_ready_priority_group
      ensures Abs() == SchedulerModel.InsertThread(old(Abs()), t)
      ensures Table(old(Abs())) && old(threads)[t].stat in {Suspend, Running} ==> Inserted(old(Abs()), Abs(), t)
    {
      hide Bit, Mask, Table, Inserted;
      if Table(Abs()) && threads[t].stat in {Suspend, Running} {
        InsertMeaning(Abs(), t);
      }
      if t == rt_current_thread {
        SetStat(t, Running);
        return;
      }
      SetStat(t, Ready);
      var p := threads[t].prio;
      rt_thread_priority_table := rt_thread_priority_table[p := rt_thread_priority_table[p] + [t]];
      rt_thread_ready_priority_group := With(rt_thread_ready_priority_group, threads[t].mask);
    }

    /** rt_schedule_remove_thread. */
    method RemoveThread(t: int)
      requires t in threads && |rt_thread_priority_table| == 32 && 0 <= threads[t].prio < 32
      modifies this`rt_thread_priority_table, this`rt_thread_ready_priority_group
      ensures Abs() == SchedulerModel.RemoveThread(old(Abs()), t)
      ensures Table(old(Abs())) && old(threads)[t].stat !in {Init, Close} ==> Removed(old(Abs()), Abs(), t)
    {
      hide Bit, Mask, Table, Removed, Minus;
      if Table(Abs()) && threads[t].stat !in {Init, Close} {
        RemoveMeaning(Abs(), t);
      }
      var p := threads[t].prio;
      rt_thread_priority_table := rt_thread_priority_table[p := Drop(rt_thread_priority_table[p], t)];
      if rt_thread_priority_table[p] == [] {
        rt_thread_ready_priority_group := Minus(rt_thread_ready_priority_group, threads[t].mask);
      }
    }

    /** _get_highest_priority_thread. */
    method GetHighestPriorityThread() returns (t: int, prio: int)
      requires Inv(Abs()) && rt_thread_ready_priority_group != 0
      ensures t == Best(Abs()) && prio == Lowest(rt_thread_ready_priority_group)
    {
      hide Bit, Mask, Ffs;
      BestReady(Abs());
      prio := Ffs(rt_thread_ready_priority_group) - 1;
      t := rt_thread_priority_table[prio][0];
    }

    /** rt_schedule. */
    method Schedule()
      requires Inv(Abs())
      modifies this
      ensures Abs() == SchedulerModel.Schedule(old(Abs())) && Inv(Abs())
      ensures rt_scheduler_lock_nest == 0 && (exists t :: t in old(threads) && Runnable(old(threads)[t]))
              ==> Settled(Abs())
    {
      hide Bit, Mask, With, Minus, Lowest, Table;
      ghost var s := Abs();
      TableParts(s);
      ScheduleSettles(s);
      if rt_scheduler_lock_nest == 0 && rt_thread_ready_priority_group != 0 {
        var insert := false;
        var to, highest := GetHighestPriorityThread();
        BestReady(s);
        var current := threads[rt_current_thread];
        if current.stat == Running {
          if current.prio < highest {
            to := rt_current_thread;
          } else if current.prio == highest && !current.yielding {
            to := rt_current_thread;
          } else {
            threads := threads[rt_current_thread := current.(yielding := false)];
            insert := true;
          }
        }
        if to != rt_current_thread {
          var from := rt_current_thread;
          rt_current_thread := to;
          if insert {
            InsertThread(from);
          }
          RemoveThread(to);
          SetStat(to, Running);
        } else {
          RemoveThread(rt_current_thread);
          SetStat(rt_current_thread, Running);
        }
      }
    }

    /** rt_enter_critical. */
    method EnterCritical()
      requires Inv(Abs())
      modifies this`rt_scheduler_lock_nest
      ensures Abs() == SchedulerModel.EnterCritical(old(Abs())) && Inv(Abs())
      ensures old(rt_scheduler_lock_nest) != -1 ==> SchedulerModel.Schedule(Abs()) == Abs()
      ensures old(rt_scheduler_lock_nest) == 0 ==>
                SchedulerModel.ExitCritical(Abs())
                == SchedulerModel.Schedule(old(Abs()))
      ensures old(rt_scheduler_lock_nest) > 0 ==> SchedulerModel.ExitCritical(Abs()) == old(Abs())
    {
      hide Bit, Mask, Table, SchedulerModel.Schedule, SchedulerModel.ExitCritical;
      EnterMeaning(Abs());
      rt_scheduler_lock_nest := Int16(rt_scheduler_lock_nest + 1);
    }

    /** rt_exit_critical. */
    method ExitCritical()
      requires Inv(Abs())
      modifies this
      ensures Abs() == SchedulerModel.ExitCritical(old(Abs())) && Inv(Abs())
    {
      hide Bit, Mask, Table, SchedulerModel.Schedule;
      Nested(Abs(), 0);
      Nested(Abs(), Int16(rt_scheduler_lock_nest - 1));
      rt_scheduler_lock_nest := Int16(rt_scheduler_lock_nest - 1);
      if rt_scheduler_lock_nest <= 0 {
        rt_scheduler_lock_nest := 0;
        Schedule();
      }
    }

    /** rt_thread_suspend. */
    method SuspendThread(t: int) returns (ok: bool)
      requires Inv(Abs()) && t in threads
      modifies this
      ensures Abs() == SchedulerModel.SuspendThread(old(Abs()), t) && Inv(Abs())
      ensures ok == Runnable(old(threads)[t])
    {
      hide Bit, Mask, Table, With, Minus;
      SuspendInv(Abs(), t);
      TableParts(Abs());
      var stat := threads[t].stat;
      if stat != Ready && stat != Running {
        return false;
      }
      RemoveThread(t);
      SetStat(t, Suspend);
      return true;
    }

    /** rt_thread_resume, for a thread whose node has left the list it waited in. */
    method ResumeThread(t: int) returns (ok: bool)
      requires Inv(Abs()) && t in threads
      modifies this
      ensures Abs() == SchedulerModel.ResumeThread(old(Abs()), t) && Inv(Abs())
      ensures ok == (old(threads)[t].stat == Suspend)
    {
      hide Bit, Mask, Table, With, Minus;
      TableParts(Abs());
      if threads[t].stat != Suspend {
        return false;
      }
      ResumeInv(Abs(), t);
      InsertThread(t);
      return true;
    }

    /** rt_thread_timeout. */
    method Timeout(t: int)
      requires Inv(Abs()) && t in threads && threads[t].stat == Suspend
      modifies this
      ensures Abs() == Step(old(Abs()), DoTimeout(t)) && Inv(Abs())
    {
      hide Bit, Mask, Table, With, Minus, SchedulerModel.Schedule;
      TableParts(Abs());
      ResumeInv(Abs(), t);
      InsertThread(t);
      Schedule();
    }

    /** rt_thread_control with RT_THREAD_CTRL_CHANGE_PRIORITY. */
    method ChangePriority(t: int, p: int)
      requires Inv(Abs()) && t in threads && 0 <= p < 32
      modifies this
      ensures Abs() == SchedulerModel.ChangePriority(old(Abs()), t, p) && Inv(Abs())
    {
      hide Bit, Mask, Table, With, Minus;
      PriorityInv(Abs(), t, p);
      TableParts(Abs());
      if threads[t].stat == Ready {
        RemoveThread(t);
        threads := threads[t := threads[t].(prio := p, mask := Mask(p))];
        InsertThread(t);
      } else {
        threads := threads[t := threads[t].(prio := p, mask := Mask(p))];
      }
    }

    /** rt_thread_startup. */
    method Startup(t: int)
      requires Inv(Abs()) && t in threads && threads[t].stat == Init
      modifies this
      ensures Abs() == Step(old(Abs()), DoStartup(t)) && Inv(Abs())
    {
      hide Bit, Mask, Table, With, Minus, SchedulerModel.Schedule;
      TableParts(Abs());
      StartedInv(Abs(), t);
      var th := threads[t];
      threads := threads[t := th.(prio := th.initPrio, mask := Mask(th.initPrio), stat := Suspend)];
      InsertThread(t);
      Schedule();
    }

    /** rt_thread_exit, by the running thread. */
    method ExitThread()
      requires Inv(Abs()) && threads[rt_current_thread].stat == Running
      modifies this
      ensures Abs() == Step(old(Abs()), DoExitThread(old(rt_current_thread))) && Inv(Abs())
    {
      hide Bit, Mask, Table, With, Minus, SchedulerModel.Schedule;
      TableParts(Abs());
      ClosedInv(Abs(), rt_current_thread);
      RemoveThread(rt_current_thread);
      SetStat(rt_current_thread, Close);
      Schedule();
    }

    /** rt_tick_increase before rt_timer_check. */
    method TickIncrease()
      requires Inv(Abs())
      modifies this
      ensures Abs() == Tick(old(Abs())) && Inv(Abs())
    {
      hide Bit, Mask, Table, With, Minus, SchedulerModel.Schedule;
      TableParts(Abs());
      var th := threads[rt_current_thread];
      var left := (th.remaining - 1) % WORD;
      CurPut(Abs(), th.(remaining := th.initTick, yielding := true));
      CurPut(Abs(), th.(remaining := left));
      threads := threads[rt_current_thread := th.(remaining := left)];
      if left == 0 {
        threads := threads[rt_current_thread := th.(remaining := th.initTick, yielding := true)];
        assert threads == old(threads)[rt_current_thread := th.(remaining := th.initTick, yielding := true)];
        Schedule();
      }
    }
  }

  /** rt_tick_from_millisecond, for tps ticks a second. */
  function TickFromMillisecond(ms: int, tps: int): int {
    if ms < 0 then WORD - 1 else tps * (ms / 1000) + (tps * (ms % 1000) + 999) / 1000
  }

  /** It rounds the time up to whole ticks; negative means for ever. */
  lemma TickRoundsUp(ms: int, tps: int)
    requires 0 <= ms < 0x8000_0000 && 0 < tps <= 1000
    ensures var t := TickFromMillisecond(ms, tps);
            t * 1000 >= ms * tps && (t - 1) * 1000 < ms * tps && t <= ms
  {
    var q, r := ms / 1000, ms % 1000;
    assert ms * tps == (q * tps) * 1000 + r * tps;
    assert r * tps <= r * 1000;
    assert tps * q <= 1000 * q;
  }
}
