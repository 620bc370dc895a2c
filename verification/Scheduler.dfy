/** threads/thread.c: the calls, on the scheduler's variables. */
module Schedulers {
  import opened Threads

  const THREAD_ANY: int := -1
  const THREAD_SELF: int := -2
  const THREAD_FAILED: int := -7

  /** A call returns, goes on in another thread, or faults, when a search runs past the end of the ready list. */
  datatype Outcome = Returns(ret: int) | Switches | Faults

  class Scheduler {
    var threads: map<int, Thread>
    var running: int
    var pc: Pc
    var ready: seq<int>
    var dead: seq<int>
    var ids: set<int>
    var waits: seq<WaitQueue>
    var next: int
    var on: bool

    ghost function View(): Sys
      reads this
    {
      Sys(threads, running, pc, ready, dead, ids, waits, next, on)
    }

    /** thread_init */
    constructor ()
      ensures View() == Initial() && View().Ok()
    {
      threads, running, pc := map[0 := Thread(0, false, false, Stub)], 0, User;
      ready, dead, ids, waits, next, on := [], [], {0}, [], 1, true;
      new;
      InitialOk();
    }

    /** assign_thread_id */
    method AssignThreadId() returns (tid: int)
      ensures tid == FreeId(ids, 0)
    {
      var i := 0;
      while i < THREAD_MAX_THREADS
        invariant i <= THREAD_MAX_THREADS && FreeId(ids, 0) == FreeId(ids, i)
      {
        if i !in ids {
          return i;
        }
        i := i + 1;
      }
      return THREAD_NOMORE;
    }

    /** thread_create; without a free identifier, it leaves interrupts disabled. */
    method ThreadCreate() returns (ret: int)
      requires View().Ok() && pc == User
      modifies this
      ensures Enabled(old(View()), Create) && View() == After(old(View()), Create) && View().Ok()
      ensures if ret >= 0 then
                ret !in old(ids) && (forall i :: 0 <= i < ret ==> i in old(ids)) && ids == old(ids) + {ret} &&
                ready == old(ready) + [old(next)] && next == old(next) + 1 && on == old(on) &&
                threads == old(threads)[old(next) := Thread(ret, false, false, Stub)]
              else
                ret == THREAD_NOMORE && (forall i :: 0 <= i < THREAD_MAX_THREADS ==> i in old(ids)) && !on &&
                unchanged(`threads, `ready, `ids, `next)
      ensures unchanged(`running, `pc, `dead, `waits)
    {
      hide Sys.OnePlace;
      hide Sys.Identified;
      hide Flat;
      ghost var s := View();
      AfterOk(s, Create);
      var enabled := on;
      on := false;
      ret := AssignThreadId();
      if ret < 0 {
        return;
      }
      threads := threads[next := Thread(ret, false, false, Stub)];
      ids := ids + {ret};
      ready := ready + [next];
      next := next + 1;
      on := enabled;
    }

    /** The saving of the context in thread_yield and thread_sleep */
    method Save(i: nat)
      requires i < |ready| && running in threads && ready[i] in threads && pc == User
      modifies this
      ensures View() == old(View()).Saved(i)
    {
      var target, enabled := ready[i], on;
      on := false;
      ready := ready[..i] + ready[i + 1..];
      threads := threads[running :=
                         threads[running].(recover := false,
                                           context := AfterGet(threads[target].tid, target, enabled))];
      pc := Got(threads[target].tid, target, enabled);
    }

    /** A switch to thread t has begun: the running thread has saved its context, with interrupts as the call found
        them, and is right after getcontext, with interrupts disabled. */
    twostate predicate SwitchBegun(t: int)
      reads this
    {
      old(running) in old(threads) && t in old(threads) && running == old(running) && !on &&
      pc == Got(old(threads)[t].tid, t, old(on)) && dead == old(dead) && ids == old(ids) && next == old(next) &&
      threads ==
      old(threads)[running := old(threads)[running].(recover := false,
                                                     context := AfterGet(old(threads)[t].tid, t, old(on)))]
    }

    ghost predicate IsReady(tid: int)
      reads this
    {
      exists k :: 0 <= k < |ready| && ready[k] in threads && threads[ready[k]].tid == tid
    }

    /** The search of the ready list; it runs past the end if the thread is not there. */
    method FindReady(tid: int) returns (i: nat)
      requires forall k :: 0 <= k < |ready| ==> ready[k] in threads
      ensures i <= |ready| && (i < |ready| <==> IsReady(tid)) && (i < |ready| ==> threads[ready[i]].tid == tid)
    {
      i := 0;
      while i < |ready| && threads[ready[i]].tid != tid
        invariant i <= |ready| && forall j :: 0 <= j < i ==> threads[ready[j]].tid != tid
      {
        i := i + 1;
      }
    }

    /** thread_yield, up to getcontext if it switches. */
    method ThreadYield(want: int) returns (out: Outcome)
      requires View().Ok() && pc == User && (want >= THREAD_SELF || want < THREAD_FAILED)
      modifies this
      ensures var s := old(View());
              if want == THREAD_ANY then
                if s.ready == [] then out == Returns(THREAD_NONE) && View() == s
                else out == Switches && Enabled(s, Yield(0)) && View() == After(s, Yield(0))
              else if want == THREAD_SELF || want == s.threads[s.running].tid then
                out == Returns(s.threads[s.running].tid) && View() == After(s, YieldSelf)
              else if want !in s.ids then out == Returns(THREAD_INVALID) && View() == s
              else if !old(IsReady(want)) then out == Faults
              else
                out == Switches &&
                exists i: nat :: Enabled(s, Yield(i)) && s.threads[s.ready[i]].tid == want &&
                  View() == After(s, Yield(i)) && ready == s.ready[..i] + s.ready[i + 1..] + [running] &&
                  SwitchBegun(s.ready[i])
      ensures want == THREAD_ANY && old(ready) != [] ==>
                ready == old(ready)[1..] + [running] && SwitchBegun(old(ready[0]))
      ensures out != Faults ==> unchanged(`waits)
      ensures View().Ok()
    {
      hide Sys.OnePlace;
      hide Sys.Identified;
      ghost var s := View();
      OkIds(s);
      if want == THREAD_ANY {
        if ready == [] {
          return Returns(THREAD_NONE);
        }
        AfterOk(s, Yield(0));
        Save(0);
        ready := ready + [running];
        return Switches;
      } else if want == THREAD_SELF || want == threads[running].tid {
        AfterOk(s, YieldSelf);
        threads := threads[running := threads[running].(recover := true)];
        return Returns(threads[running].tid);
      } else if want > THREAD_MAX_THREADS - 1 || want < THREAD_FAILED || want !in ids {
        return Returns(THREAD_INVALID);
      }
      var i := FindReady(want);
      if i == |ready| {
        return Faults;
      }
      AfterOk(s, Yield(i));
      Save(i);
      ready := ready + [running];
      return Switches;
    }

    /** The rest of thread_yield and thread_sleep, after getcontext: to the return, the switch, or the exit */
    method AfterGetContext()
      requires View().Ok() && Enabled(View(), Continue)
      modifies this
      ensures View() == old(View()).Checked()
    {
      hide Sys.OnePlace;
      hide Sys.Identified;
      ghost var s := View();
      if threads[running].flag && ready != [] {
        ExitSelf();
        return;
      }
      if dead != [] {
        threads := map x | x in threads && x !in dead :: threads[x];
        dead := [];
      } else {
        assert s.threads == map x | x in s.threads && x !in s.dead :: s.threads[x];
      }
      if pc.ret !in ids {
        on := pc.enabled;
        pc := User;
        return;
      }
      if pc.target in threads && !threads[pc.target].recover && running in threads && !threads[running].recover {
        SetContext(pc.target);
        return;
      }
      on := pc.enabled;
      pc := User;
    }

    /** It exits if it was marked and another thread is ready. Otherwise it deletes exactly the threads that are to be
        deleted, and on the first pass switches to the target, and on the second returns. */
    method GotContext()
      requires View().Ok() && Enabled(View(), Continue)
      modifies this
      ensures View() == After(old(View()), Continue) && View().Ok()
      ensures var exits := old(threads)[old(running)].flag && old(ready) != [];
              unchanged(`waits, `next) &&
              if exits then
                running == old(ready[0]) && ready == old(ready)[1..] && dead == old(dead) + [old(running)] &&
                ids == old(ids) - {old(threads)[old(running)].tid}
              else
                unchanged(`ready, `ids) && dead == [] &&
                (forall x :: x in threads <==> x in old(threads) && x !in old(dead)) &&
                if old(threads)[old(running)].recover
                then running == old(running) && pc == User && on == old(pc.enabled)
                else running == old(pc.target)
    {
      hide Sys.Ok;
      hide Sys.Checked;
      ghost var s := View();
      AfterOk(s, Continue);
      ContinueEffect(s);
      AfterGetContext();
    }

    /** setcontext of a thread that becomes the running one */
    method SetContext(t: int)
      requires t in threads
      modifies this
      ensures View() == old(View()).SwitchTo(t)
    {
      threads := threads[t := threads[t].(recover := true)];
      running := t;
      match threads[t].context {
        case Stub =>
          pc, on := User, true;
        case AfterGet(ret, target, enabled) =>
          pc, on := Got(ret, target, enabled), false;
      }
    }

    /** thread_exit(THREAD_SELF), when another thread is ready */
    method ExitSelf()
      requires running in threads && ready != [] && ready[0] in threads
      modifies this
      ensures View() == old(View()).Exited()
    {
      var newRun := ready[0];
      ready := ready[1..];
      ids := ids - {threads[running].tid};
      dead := dead + [running];
      SetContext(newRun);
    }

    /** Exactly the thread with this identifier, among those that are not to be deleted, is marked now, besides those
        that were; nothing else has changed. */
    twostate predicate MarkedOnly(tid: int)
      reads this
    {
      unchanged(`running, `pc, `ready, `dead, `ids, `waits, `next, `on) && threads.Keys == old(threads).Keys &&
      forall x :: x in threads ==>
        threads[x] == old(threads)[x].(flag := old(threads)[x].flag || (x !in dead && old(threads)[x].tid == tid))
    }

    /** The mark of the thread at i on the ready list */
    method SetFlag(i: nat)
      requires View().Ok() && i < |ready|
      modifies this`threads
      ensures ready[i] in old(threads) && View() == old(View()).Marked(i) && MarkedOnly(old(threads)[ready[i]].tid)
    {
      OneWithTid(View(), i);
      hide Sys.Ok;
      threads := threads[ready[i] := threads[ready[i]].(flag := true)];
    }

    /** thread_exit; a call that cannot exit or mark a thread leaves interrupts disabled. */
    method ThreadExit(tid: int) returns (out: Outcome)
      requires View().Ok() && pc == User && (tid >= THREAD_SELF || tid < THREAD_FAILED)
      modifies this
      ensures var s := old(View());
              if tid == THREAD_SELF && s.ready != [] then
                out == Switches && Enabled(s, Exit) && View() == After(s, Exit)
              else if tid == THREAD_ANY && s.ready != [] then
                Enabled(s, Mark(0)) && out == Returns(s.threads[s.ready[0]].tid) && View() == After(s, Mark(0))
              else if tid in s.ids && s.ready != [] then
                if !old(IsReady(tid)) then out == Faults
                else
                  out == Returns(tid) &&
                  exists i: nat :: Enabled(s, Mark(i)) && s.threads[s.ready[i]].tid == tid &&
                    View() == After(s, Mark(i))
              else
                View() == s.(on := false) &&
                out == Returns(if tid < THREAD_SELF || (tid >= 0 && tid !in s.ids) then THREAD_INVALID else THREAD_NONE)
      ensures out.Returns? && tid != THREAD_SELF && out.ret >= 0 ==>
                MarkedOnly(out.ret) && (tid != THREAD_ANY ==> out.ret == tid) &&
                (tid == THREAD_ANY ==> old(ready) != [] && old(ready[0]) in threads && threads[old(ready[0])].flag)
      ensures View().Ok()
    {
      hide Sys.Ok;
      hide Sys.Exited;
      hide Sys.Checked;
      hide Sys.Woken;
      hide Sys.Slept;
      hide Sys.Yielded;
      ghost var s := View();
      OkIds(s);
      var enabled := on;
      on := false;
      InterruptsOk(s, false);
      assert View() == s.(on := false);
      if tid == THREAD_SELF {
        if ready == [] {
          return Returns(THREAD_NONE);
        }
        AfterOk(s, Exit);
        ExitIgnoresOn(s);
        ExitSelf();
        return Switches;
      } else if tid == THREAD_ANY {
        if ready == [] {
          return Returns(THREAD_NONE);
        }
        AfterOk(s, Mark(0));
        SetFlag(0);
        on := enabled;
        return Returns(threads[ready[0]].tid);
      }
      if tid > THREAD_MAX_THREADS - 1 || tid < THREAD_FAILED || tid !in ids {
        return Returns(THREAD_INVALID);
      }
      if ready == [] {
        return Returns(THREAD_NONE);
      }
      var i := FindReady(tid);
      if i == |ready| {
        return Faults;
      }
      AfterOk(s, Mark(i));
      SetFlag(i);
      on := enabled;
      return Returns(tid);
    }

    /** thread_sleep, up to getcontext if another thread is ready */
    method ThreadSleep(q: nat) returns (out: Outcome)
      requires View().Ok() && pc == User && q < |waits|
      modifies this
      ensures var s := old(View());
              if s.ready == [] then out == Returns(THREAD_NONE) && View() == s
              else out == Switches && Enabled(s, Sleep(q)) && View() == After(s, Sleep(q))
      ensures old(ready) != [] ==>
                ready == old(ready)[1..] && SwitchBegun(old(ready[0])) && |waits| == |old(waits)| &&
                waits[q] == WaitQueue(old(waits[q].queue) + [running], old(waits[q].size) + 1) &&
                forall p :: 0 <= p < |waits| && p != q ==> waits[p] == old(waits[p])
      ensures View().Ok()
    {
      hide Sys.OnePlace;
      hide Sys.Identified;
      ghost var s := View();
      if ready == [] {
        return Returns(THREAD_NONE);
      }
      ReadyThread(s, 0);
      AfterOk(s, Sleep(q));
      Save(0);
      waits := waits[q := WaitQueue(waits[q].queue + [running], waits[q].size + 1)];
      return Switches;
    }

    /** thread_wakeup; with `all`, it reports the size of the queue. */
    method ThreadWakeup(q: nat, all: bool) returns (ret: int)
      requires View().Ok() && pc == User && q < |waits|
      modifies this
      ensures Enabled(old(View()), Wakeup(q, all)) && View() == After(old(View()), Wakeup(q, all)) && View().Ok()
      ensures ret == if old(waits[q].queue) == [] then 0 else if all then old(waits[q].size) else 1
      ensures ready + waits[q].queue == old(ready) + old(waits[q].queue) &&
              |ready| - |old(ready)| ==
              if old(waits[q].queue) == [] then 0 else if all then |old(waits[q].queue)| else 1
      ensures |waits| == |old(waits)| && forall p :: 0 <= p < |waits| && p != q ==> waits[p] == old(waits[p])
      ensures unchanged(`threads, `running, `pc, `dead, `ids, `next, `on)
    {
      hide Sys.OnePlace;
      hide Sys.Identified;
      ghost var s := View();
      AfterOk(s, Wakeup(q, all));
      WokenMoves(s, q, all);
      var w := waits[q];
      if w.queue == [] {
        return 0;
      }
      if !all {
        if w.size == 1 {
          ready := ready + w.queue;
          waits := waits[q := WaitQueue([], w.size)];
        } else {
          ready := ready + [w.queue[0]];
          waits := waits[q := WaitQueue(w.queue[1..], w.size)];
        }
        return 1;
      }
      ret := w.size;
      ready := ready + w.queue;
      waits := waits[q := WaitQueue([], 0)];
    }
  }

  lemma ContinueEffect(s: Sys)
    requires s.Ok() && Enabled(s, Continue)
    ensures var s', exits := s.Checked(), s.threads[s.running].flag && s.ready != [];
            s'.waits == s.waits && s'.next == s.next &&
            if exits then
              s'.running == s.ready[0] && s'.ready == s.ready[1..] && s'.dead == s.dead + [s.running] &&
              s'.ids == s.ids - {s.threads[s.running].tid}
            else
              s'.ready == s.ready && s'.ids == s.ids && s'.dead == [] &&
              (forall x :: x in s'.threads <==> x in s.threads && x !in s.dead) &&
              if s.threads[s.running].recover
              then s'.running == s.running && s'.pc == User && s'.on == s.pc.enabled
              else s'.running == s.pc.target
  {
    hide Sys.OnePlace;
    hide Sys.Identified;
    hide Flat;
    if s.threads[s.running].flag && s.ready != [] {
      ExitedShape(s);
      assert s.Checked() == s.Exited();
    } else if s.FirstPass() {
      FirstPassEffect(s);
    } else {
      SecondPassEffect(s);
    }
  }

  lemma OneWithTid(s: Sys, i: nat)
    requires s.Ok() && i < |s.ready|
    ensures s.ready[i] in s.threads && s.ready[i] !in s.dead
    ensures forall x :: x in s.threads && x !in s.dead && s.threads[x].tid == s.threads[s.ready[i]].tid ==>
              x == s.ready[i]
  {
    Placed(s, s.ready[i]);
  }

  lemma ExitIgnoresOn(s: Sys)
    requires s.running in s.threads && s.ready != [] && s.ready[0] in s.threads
    ensures s.(on := false).Exited() == s.Exited()
  {
  }

  lemma OkIds(s: Sys)
    requires s.Ok()
    ensures forall i :: i in s.ids ==> 0 <= i < THREAD_MAX_THREADS
    ensures forall k :: 0 <= k < |s.ready| ==> s.ready[k] in s.threads
    ensures s.running in s.threads
  {
    forall k | 0 <= k < |s.ready| ensures s.ready[k] in s.threads {
      ReadyThread(s, k);
    }
  }

  /** By how much the size of a wait queue exceeds its length */
  function Drift(w: WaitQueue): int {
    w.size - |w.queue|
  }

  lemma CheckedWaits(s: Sys)
    requires Enabled(s, Continue)
    ensures s.Checked().waits == s.waits
  {
  }

  /** It is the number of single wakeups since the last wake-all, or since the queue was made: only then is the
      number that a wake-all reports too large. */
  lemma DriftCounts(s: Sys, q: nat, op: Op)
    requires s.Ok() && Enabled(s, op) && q < |s.waits|
    ensures q < |After(s, op).waits|
    ensures Drift(After(s, op).waits[q]) ==
            if op == Wakeup(q, true) && s.waits[q].queue != [] then 0
            else Drift(s.waits[q]) + if op == Wakeup(q, false) && s.waits[q].queue != [] then 1 else 0
  {
    hide Flat;
    hide Sys.Identified;
    hide Sys.OnePlace;
    hide Sys.Stated;
    match op
    case Wakeup(_, _) =>
      if s.waits[q].queue != [] && s.waits[q].size == 1 {
        SingletonWakeup(s, q);
      }
    case Continue => CheckedWaits(s);
    case _ =>
  }
}
