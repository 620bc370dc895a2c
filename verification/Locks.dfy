/** threads/thread.c: locks, over all interleavings of the threads. */
module Locks {
  import opened Threads

  datatype Lock = Lock(queue: nat, locked: bool)

  /** A call of lock_acquire: its lock, and whether it found interrupts enabled */
  datatype Call = Call(lock: int, enabled: bool)

  /** The scheduler and the locks; `want` holds the calls of lock_acquire that have not returned, by thread, and
      `holders` the pairs of a lock and a thread that is between lock_acquire and lock_release. */
  datatype State = State(sys: Sys, locks: seq<Lock>, want: map<int, Call>, holders: set<(int, int)>)

  /** Queue q belongs to a lock. */
  predicate IsLockQueue(s: State, q: nat) {
    exists l :: 0 <= l < |s.locks| && s.locks[l].queue == q
  }

  /** An operation of the scheduler by a thread that is not in lock_acquire, or the rest of one after getcontext; the
      wait queue of a lock is not accessible from outside. */
  ghost predicate Plain(s: State, op: Op, s': State) {
    Enabled(s.sys, op) && (s.sys.running !in s.want || op == Continue) &&
    (op.Sleep? || op.Wakeup? ==> !IsLockQueue(s, op.q)) && s' == s.(sys := After(s.sys, op))
  }

  /** lock_create */
  ghost predicate CreateLock(s: State, s': State) {
    Enabled(s.sys, NewQueue) && s.sys.running !in s.want &&
    s' == s.(sys := After(s.sys, NewQueue), locks := s.locks + [Lock(|s.sys.waits|, false)])
  }

  /** The call of lock_acquire */
  ghost predicate StartAcquire(s: State, l: int, s': State) {
    0 <= l < |s.locks| && s.sys.pc == User && s.sys.running !in s.want &&
    s' == s.(want := s.want[s.sys.running := Call(l, s.sys.on)], sys := s.sys.(on := false))
  }

  /** The loop of lock_acquire: it sleeps, or cannot, for want of another thread, or takes the lock and returns. */
  ghost predicate Acquire(s: State, s': State) {
    s.sys.pc == User && s.sys.running in s.want && 0 <= s.want[s.sys.running].lock < |s.locks| &&
    var l := s.want[s.sys.running].lock;
    var lock := s.locks[l];
    if !lock.locked then
      s' == s.(sys := s.sys.(on := s.want[s.sys.running].enabled), locks := s.locks[l := lock.(locked := true)],
               want := s.want - {s.sys.running}, holders := s.holders + {(l, s.sys.running)})
    else if s.sys.ready == [] then s' == s
    else Enabled(s.sys, Sleep(lock.queue)) && s' == s.(sys := After(s.sys, Sleep(lock.queue)))
  }

  /** lock_release, by the thread that acquired the lock */
  ghost predicate Release(s: State, l: int, s': State) {
    s.sys.pc == User && s.sys.running !in s.want && (l, s.sys.running) in s.holders && 0 <= l < |s.locks| &&
    Enabled(s.sys, Wakeup(s.locks[l].queue, true)) &&
    s' == s.(sys := After(s.sys, Wakeup(s.locks[l].queue, true)), locks := s.locks[l := s.locks[l].(locked := false)],
             holders := s.holders - {(l, s.sys.running)})
  }

  ghost predicate Step(s: State, s': State) {
    (exists op :: Plain(s, op, s')) || CreateLock(s, s') || (exists l :: StartAcquire(s, l, s')) || Acquire(s, s') ||
    exists l :: Release(s, l, s')
  }

  /** A lock is held by at most one thread, and locked if and only if it is held; on a lock that is not locked,
      nobody sleeps; who sleeps on a lock is acquiring it. */
  ghost predicate LockOk(s: State, l: int)
    requires 0 <= l < |s.locks|
  {
    var lock := s.locks[l];
    lock.queue < |s.sys.waits| &&
    (lock.locked <==> exists t :: (l, t) in s.holders) &&
    (forall t, u :: (l, t) in s.holders && (l, u) in s.holders ==> t == u) &&
    (!lock.locked ==> s.sys.waits[lock.queue].queue == []) &&
    forall x :: x in s.sys.waits[lock.queue].queue ==> x in s.want && s.want[x].lock == l
  }

  /** A thread in lock_acquire runs with interrupts disabled, and will be resumed so. */
  ghost predicate CallOk(s: State, x: int) {
    x < s.sys.next &&
    if s.sys.running == x && s.sys.pc == User then !s.sys.on else InCall(s.sys, x, false)
  }

  ghost predicate Ok(s: State) {
    s.sys.Ok() &&
    (forall l, m :: 0 <= l < m < |s.locks| ==> s.locks[l].queue != s.locks[m].queue) &&
    (forall l :: 0 <= l < |s.locks| ==> LockOk(s, l)) &&
    (forall h :: h in s.holders ==> 0 <= h.0 < |s.locks|) &&
    (forall x :: x in s.want ==> 0 <= s.want[x].lock < |s.locks| && CallOk(s, x))
  }

  lemma WaitsKept(s: Sys, op: Op)
    requires Enabled(s, op)
    ensures |After(s, op).waits| >= |s.waits| && After(s, op).next >= s.next
    ensures forall q :: 0 <= q < |s.waits| && !((op.Sleep? || op.Wakeup?) && op.q == q) ==>
              After(s, op).waits[q] == s.waits[q]
  {
  }

  /** The thread that acquires is not asleep. */
  lemma RunningAwake(s: Sys, q: nat)
    requires s.Ok() && s.pc == User && q < |s.waits|
    ensures s.running !in s.waits[q].queue && s.running < s.next
  {
    Placed(s, s.running);
    InFlat(s.waits, q, s.running);
  }

  lemma {:induction false} InFlat(waits: seq<WaitQueue>, q: nat, x: int)
    requires q < |waits|
    ensures x in waits[q].queue ==> x in Flat(waits)
  {
    if q < |waits| - 1 {
      InFlat(waits[..|waits| - 1], q, x);
    }
  }

  lemma PlainKeepsLock(s: State, op: Op, s': State, l: int)
    requires 0 <= l < |s.locks| && LockOk(s, l) && Plain(s, op, s')
    ensures LockOk(s', l)
  {
    hide After;
    WaitsKept(s.sys, op);
    var q := s.locks[l].queue;
    assert IsLockQueue(s, q);
    assert s'.sys.waits[q] == s.sys.waits[q];
  }

  /** An operation of the scheduler keeps the calls in order; the call of the thread that does it has to be at
      getcontext, or just about to save its context. */
  lemma CallKept(s: State, op: Op, s': State, x: int)
    requires s.sys.Ok() && Enabled(s.sys, op) && CallOk(s, x) && s'.sys == After(s.sys, op)
    requires s.sys.running == x ==> op.Continue? || op.Sleep?
    ensures CallOk(s', x)
  {
    hide Sys.Ok;
    hide After;
    NextGrows(s.sys, op);
    if s.sys.running == x && op.Sleep? {
      CallBegins(s.sys, op);
    } else {
      CallGoesOn(s.sys, op, x, false);
    }
  }

  lemma PlainOk(s: State, op: Op, s': State)
    requires Ok(s) && Plain(s, op, s')
    ensures Ok(s')
  {
    hide Sys.Ok;
    hide After;
    hide Enabled;
    hide CallOk;
    AfterOk(s.sys, op);
    WaitsKept(s.sys, op);
    forall l | 0 <= l < |s'.locks| ensures LockOk(s', l) {
      PlainKeepsLock(s, op, s', l);
    }
    forall x | x in s'.want ensures CallOk(s', x) {
      CallKept(s, op, s', x);
    }
  }

  lemma CreateLockOk(s: State, s': State)
    requires Ok(s) && CreateLock(s, s')
    ensures Ok(s')
  {
    hide Sys.Ok;
    hide CallOk;
    AfterOk(s.sys, NewQueue);
    var waits := s.sys.waits;
    assert s'.sys.waits == waits + [WaitQueue([], 0)];
    forall l | 0 <= l < |s.locks| ensures s'.locks[l] == s.locks[l] && s.locks[l].queue < |waits| {
      assert LockOk(s, l);
    }
    forall l | 0 <= l < |s'.locks| ensures LockOk(s', l) {
      if l < |s.locks| {
        assert LockOk(s, l);
      } else {
        forall t ensures (l, t) !in s.holders {
          assert (l, t).0 == l;
        }
      }
    }
    forall x | x in s'.want ensures CallOk(s', x) {
      CallKept(s, NewQueue, s', x);
    }
  }

  lemma StartAcquireOk(s: State, l: int, s': State)
    requires Ok(s) && StartAcquire(s, l, s')
    ensures Ok(s')
  {
    hide Sys.Ok;
    InterruptsOk(s.sys, false);
    forall m | 0 <= m < |s'.locks| ensures LockOk(s', m) {
      assert LockOk(s, m);
      RunningAwake(s.sys, s.locks[m].queue);
    }
    assert LockOk(s, l);
    RunningAwake(s.sys, s.locks[l].queue);
  }

  lemma TakesOk(s: State, s': State)
    requires Ok(s) && Acquire(s, s') && !s.locks[s.want[s.sys.running].lock].locked
    ensures Ok(s')
  {
    hide Sys.Ok;
    var l, me := s.want[s.sys.running].lock, s.sys.running;
    InterruptsOk(s.sys, s.want[me].enabled);
    assert LockOk(s, l);
    forall m | 0 <= m < |s'.locks| ensures LockOk(s', m) {
      assert LockOk(s, m);
      RunningAwake(s.sys, s.locks[m].queue);
      if m == l {
        assert (l, me) in s'.holders;
      }
    }
  }

  lemma AcquireOk(s: State, s': State)
    requires Ok(s) && Acquire(s, s')
    ensures Ok(s')
  {
    hide LockOk;
    hide CallOk;
    hide Sys.Ok;
    var l := s.want[s.sys.running].lock;
    if !s.locks[l].locked {
      TakesOk(s, s');
    } else if s.sys.ready != [] {
      SleepsOk(s, s');
    }
  }

  lemma SleepsOk(s: State, s': State)
    requires Ok(s) && Acquire(s, s') && s.locks[s.want[s.sys.running].lock].locked && s.sys.ready != []
    ensures Ok(s')
  {
    hide Sys.Ok;
    hide CallOk;
    var l := s.want[s.sys.running].lock;
    AfterOk(s.sys, Sleep(s.locks[l].queue));
    forall m | 0 <= m < |s'.locks| ensures LockOk(s', m) {
      assert LockOk(s, m) && LockOk(s, l);
    }
    forall x | x in s'.want ensures CallOk(s', x) {
      CallKept(s, Sleep(s.locks[l].queue), s', x);
    }
  }

  lemma ReleaseOk(s: State, l: int, s': State)
    requires Ok(s) && Release(s, l, s')
    ensures Ok(s')
  {
    hide Sys.Ok;
    hide CallOk;
    AfterOk(s.sys, Wakeup(s.locks[l].queue, true));
    assert LockOk(s, l);
    forall m | 0 <= m < |s'.locks| ensures LockOk(s', m) {
      assert LockOk(s, m);
    }
    forall x | x in s'.want ensures CallOk(s', x) {
      CallKept(s, Wakeup(s.locks[l].queue, true), s', x);
    }
  }

  lemma StepOk(s: State, s': State)
    requires Ok(s) && Step(s, s')
    ensures Ok(s')
  {
    hide Ok;
    if op :| Plain(s, op, s') {
      PlainOk(s, op, s');
    } else if CreateLock(s, s') {
      CreateLockOk(s, s');
    } else if l :| StartAcquire(s, l, s') {
      StartAcquireOk(s, l, s');
    } else if Acquire(s, s') {
      AcquireOk(s, s');
    } else {
      var l :| Release(s, l, s');
      ReleaseOk(s, l, s');
    }
  }

  ghost predicate Run(states: seq<State>) {
    |states| > 0 && states[0] == State(Initial(), [], map[], {}) && forall k :: 0 < k < |states| ==>
      Step(states[k - 1], states[k])
  }

  lemma {:induction false} RunOk(states: seq<State>)
    requires Run(states)
    ensures Ok(states[|states| - 1])
  {
    hide Step;
    var n := |states|;
    if n == 1 {
      InitialOk();
    } else {
      RunOk(states[..n - 1]);
      StepOk(states[n - 2], states[n - 1]);
    }
  }

  /** In every interleaving, at most one thread is between the acquisition and the release of a lock. */
  lemma MutualExclusion(states: seq<State>, l: int, t: int, u: int)
    requires Run(states)
    ensures var s := states[|states| - 1]; (l, t) in s.holders && (l, u) in s.holders ==> t == u
  {
    RunOk(states);
    var s := states[|states| - 1];
    if (l, t) in s.holders {
      assert (l, t).0 == l;
      assert LockOk(s, l);
    }
  }

  /** Nobody is left asleep on a lock that is free. */
  lemma NoSleeperOnFree(states: seq<State>, l: int)
    requires Run(states) && 0 <= l < |states[|states| - 1].locks|
    ensures var s := states[|states| - 1];
            s.locks[l].queue < |s.sys.waits| &&
            ((forall t :: (l, t) !in s.holders) ==> s.sys.waits[s.locks[l].queue].queue == [])
  {
    RunOk(states);
    assert LockOk(states[|states| - 1], l);
  }

  // ---- What acquiring comes to ----

  /** A thread that runs in lock_acquire can always go on. If the lock is free, it holds the lock after its next step,
      and has returned, with interrupts as it found them; if not, and another thread is ready, it is the last to sleep
      on the lock; and if none is, nothing changes. No other lock is touched. */
  lemma AcquireExact(s: State)
    requires Ok(s) && s.sys.pc == User && s.sys.running in s.want
    ensures exists s' :: Acquire(s, s')
    ensures forall s' :: Acquire(s, s') ==>
              var me, l := s.sys.running, s.want[s.sys.running].lock;
              |s'.locks| == |s.locks| && (forall m :: 0 <= m < |s.locks| && m != l ==> s'.locks[m] == s.locks[m]) &&
              if !s.locks[l].locked then
                s'.locks[l].locked && s'.holders == s.holders + {(l, me)} && s'.want == s.want - {me} &&
                s'.sys.running == me && s'.sys.on == s.want[me].enabled
              else if s.sys.ready != [] then
                s'.want == s.want && s'.holders == s.holders && s'.locks == s.locks &&
                QueueOf(s'.sys, s.locks[l].queue) == QueueOf(s.sys, s.locks[l].queue) + [me]
              else s' == s
  {
    var l := s.want[s.sys.running].lock;
    var lock := s.locks[l];
    assert LockOk(s, l);
    if !lock.locked {
      var s' := s.(sys := s.sys.(on := s.want[s.sys.running].enabled), locks := s.locks[l := lock.(locked := true)],
                   want := s.want - {s.sys.running}, holders := s.holders + {(l, s.sys.running)});
      assert Acquire(s, s');
    } else if s.sys.ready == [] {
      assert Acquire(s, s);
    } else {
      ReadyThread(s.sys, 0);
      OkRunning(s.sys);
      QueueStep(s.sys, Sleep(lock.queue), lock.queue);
      assert Acquire(s, s.(sys := After(s.sys, Sleep(lock.queue))));
    }
  }

  lemma OkRunning(s: Sys)
    requires s.Ok()
    ensures s.running in s.threads
  {
  }

  /** A lock is acquired only by a thread that asked for it, while it was free, and released only by its holder. */
  lemma HeldUntilReleased(s: State, s': State, l: int, t: int)
    requires Ok(s) && Step(s, s')
    ensures (l, t) in s.holders && (l, t) !in s'.holders ==> t == s.sys.running && Release(s, l, s')
    ensures (l, t) !in s.holders && (l, t) in s'.holders ==>
              t == s.sys.running && t in s.want && s.want[t].lock == l && 0 <= l < |s.locks| && !s.locks[l].locked &&
              t !in s'.want
  {
    hide Sys.Ok;
    hide After;
    hide Enabled;
  }

  // ---- A case ----

  /** The states of a run in which thread 0 makes a lock and takes it, thread 1 asks for it and goes to sleep on it,
      thread 0 releases it, and thread 1, when its turn comes, takes it. */
  function Handover(): seq<State> {
    seq(16, k requires 0 <= k < 16 => HandoverState(k))
  }

  function HandoverSys(k: nat): Sys {
    var t0, t1 := Thread(0, false, false, Stub), Thread(1, false, false, Stub);
    var y0, r1 := t0.(context := AfterGet(1, 1, true)), t1.(recover := true);
    var w1 := t1.(context := AfterGet(0, 0, false));
    var r0 := y0.(recover := true);
    var empty, one := WaitQueue([], 0), WaitQueue([1], 1);
    if k == 0 then Initial()
    else if k == 1 then Sys(map[0 := t0, 1 := t1], 0, User, [1], [], {0, 1}, [], 2, true)
    else if k == 2 || k == 4 then Sys(map[0 := t0, 1 := t1], 0, User, [1], [], {0, 1}, [empty], 2, true)
    else if k == 3 then Sys(map[0 := t0, 1 := t1], 0, User, [1], [], {0, 1}, [empty], 2, false)
    else if k == 5 then Sys(map[0 := y0, 1 := t1], 0, Got(1, 1, true), [0], [], {0, 1}, [empty], 2, false)
    else if k == 6 then Sys(map[0 := y0, 1 := r1], 1, User, [0], [], {0, 1}, [empty], 2, true)
    else if k == 7 then Sys(map[0 := y0, 1 := r1], 1, User, [0], [], {0, 1}, [empty], 2, false)
    else if k == 8 then Sys(map[0 := y0, 1 := w1], 1, Got(0, 0, false), [], [], {0, 1}, [one], 2, false)
    else if k == 9 then Sys(map[0 := r0, 1 := w1], 0, Got(1, 1, true), [], [], {0, 1}, [one], 2, false)
    else if k == 10 then Sys(map[0 := r0, 1 := w1], 0, User, [], [], {0, 1}, [one], 2, true)
    else if k == 11 then Sys(map[0 := r0, 1 := w1], 0, User, [1], [], {0, 1}, [empty], 2, true)
    else if k == 12 then Sys(map[0 := y0, 1 := w1], 0, Got(1, 1, true), [0], [], {0, 1}, [empty], 2, false)
    else
      var running1 := map[0 := y0, 1 := w1.(recover := true)];
      if k == 13 then Sys(running1, 1, Got(0, 0, false), [0], [], {0, 1}, [empty], 2, false)
      else if k == 14 then Sys(running1, 1, User, [0], [], {0, 1}, [empty], 2, false)
      else Sys(running1, 1, User, [0], [], {0, 1}, [empty], 2, true)
  }

  function HandoverState(k: nat): State {
    State(HandoverSys(k), if k < 2 then [] else [Lock(0, 4 <= k <= 10 || k >= 15)],
          if k == 3 then map[0 := Call(0, true)] else if 7 <= k <= 14 then map[1 := Call(0, true)] else map[],
          if 4 <= k <= 10 then {(0, 0)} else if k >= 15 then {(0, 1)} else {})
  }

  lemma HandoverStart()
    ensures Enabled(HandoverSys(0), Create) && After(HandoverSys(0), Create) == HandoverSys(1)
    ensures Enabled(HandoverSys(1), NewQueue) && After(HandoverSys(1), NewQueue) == HandoverSys(2)
  {
    assert FreeId({0}, 0) == 1;
    assert HandoverSys(0).Created(1) == HandoverSys(1);
  }

  lemma HandoverYields()
    ensures Enabled(HandoverSys(4), Yield(0)) && After(HandoverSys(4), Yield(0)) == HandoverSys(5)
    ensures Enabled(HandoverSys(11), Yield(0)) && After(HandoverSys(11), Yield(0)) == HandoverSys(12)
  {
    hide Sys.Checked;
    hide Sys.Exited;
    hide Sys.Woken;
  }

  lemma HandoverSleeps()
    ensures Enabled(HandoverSys(7), Sleep(0)) && After(HandoverSys(7), Sleep(0)) == HandoverSys(8)
  {
    hide Sys.Checked;
    hide Sys.Exited;
    hide Sys.Woken;
    var s, s' := HandoverSys(7), HandoverSys(8);
    assert s.waits[0].queue + [1] == [1];
    assert s.Slept(0).waits == s'.waits && s.Slept(0).threads == s'.threads && s.Slept(0).ready == s'.ready;
  }

  lemma HandoverWakes()
    ensures Enabled(HandoverSys(10), Wakeup(0, true)) && After(HandoverSys(10), Wakeup(0, true)) == HandoverSys(11)
  {
    hide Sys.Checked;
    hide Sys.Exited;
  }

  lemma NoneDead(s: Sys)
    requires s.dead == []
    ensures s.Buried() == s
  {
    assert s.Buried().threads == s.threads;
  }

  lemma PassSwitches(s: Sys, t: int)
    requires s.running in s.threads && s.dead == [] && s.pc.Got? && s.pc.target == t && t in s.threads
    requires !s.threads[s.running].flag && !s.threads[t].recover && s.pc.ret in s.ids
    requires s.ready != [] ==> s.ready[0] in s.threads
    ensures Enabled(s, Continue) && After(s, Continue) ==
            if s.threads[s.running].recover then s.(pc := User, on := s.pc.enabled) else s.SwitchTo(t)
  {
    NoneDead(s);
  }

  lemma HandoverPasses(k: nat)
    requires k == 5 || k == 8 || k == 9 || k == 12 || k == 13
    ensures Enabled(HandoverSys(k), Continue) && After(HandoverSys(k), Continue) == HandoverSys(k + 1)
  {
    hide After;
    hide Enabled;
    PassSwitches(HandoverSys(k), if k == 8 || k == 13 then 0 else 1);
  }

  lemma HandoverStep(k: nat)
    requires 0 < k < 16
    ensures Step(HandoverState(k - 1), HandoverState(k))
  {
    hide After;
    hide Enabled;
    var s, s' := HandoverState(k - 1), HandoverState(k);
    if k == 1 {
      HandoverStart();
      assert Plain(s, Create, s');
    } else if k == 2 {
      HandoverStart();
      assert CreateLock(s, s');
    } else if k == 3 || k == 7 {
      assert StartAcquire(s, 0, s');
    } else if k == 4 || k == 8 || k == 15 {
      HandoverSleeps();
      assert Acquire(s, s');
    } else if k == 5 || k == 12 {
      HandoverYields();
      assert Plain(s, Yield(0), s');
    } else if k == 11 {
      HandoverWakes();
      assert Release(s, 0, s');
    } else {
      HandoverPasses(k - 1);
      assert Plain(s, Continue, s');
    }
  }

  /** A lock changes hands: a run after whose tenth step thread 0 holds the lock and thread 1 sleeps on it, and at whose
      end thread 1 holds it. */
  lemma LockHandover()
    ensures Run(Handover())
    ensures var s := Handover()[10];
            s.holders == {(0, 0)} && s.locks[0].locked && QueueOf(s.sys, s.locks[0].queue) == [1] && s.sys.running == 0
    ensures Handover()[15].holders == {(0, 1)} && Handover()[15].want == map[] && Handover()[15].sys.on
  {
    forall k | 0 < k < 16 ensures Step(Handover()[k - 1], Handover()[k]) {
      HandoverStep(k);
    }
    hide Step;
  }
}
