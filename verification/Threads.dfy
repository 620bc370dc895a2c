/** threads/thread.c: the state of the scheduler, and what each call makes of it. */
module Threads {
  const THREAD_MAX_THREADS: nat := 1024
  const THREAD_INVALID: int := -3
  const THREAD_NONE: int := -4
  const THREAD_NOMORE: int := -5

  /** Where a context that was saved goes on: in thread_stub, for a thread that never ran, or right after getcontext,
      in a call that is to run the thread `target`, returns `ret`, and found interrupts `enabled`. */
  datatype Point = Stub | AfterGet(ret: int, target: int, enabled: bool)

  /** A thread control block; `recover` stands for RECOVER_STATE, and its absence for NEW_STATE. */
  datatype Thread = Thread(tid: int, recover: bool, flag: bool, context: Point)

  /** Where the running thread is: in its own code, or right after getcontext, for the first or the second time */
  datatype Pc = User | Got(ret: int, target: int, enabled: bool)

  datatype WaitQueue = WaitQueue(queue: seq<int>, size: int)

  /** The threads by address, the one that runs, and where; the ready list, the list of threads to delete, the
      identifiers in use, and the wait queues; the next address; and whether interrupts are enabled. */
  datatype Sys = Sys(threads: map<int, Thread>, running: int, pc: Pc, ready: seq<int>, dead: seq<int>,
                     ids: set<int>, waits: seq<WaitQueue>, next: int, on: bool)
  {
    /** setcontext to thread t, once it is the running one */
    function SwitchTo(t: int): Sys
      requires t in threads
    {
      var s := this.(running := t, threads := threads[t := threads[t].(recover := true)]);
      match threads[t].context
      case Stub => s.(pc := User, on := true)
      case AfterGet(ret, target, enabled) => s.(pc := Got(ret, target, enabled), on := false)
    }

    /** thread_create, with a free identifier */
    function Created(tid: int): Sys {
      this.(threads := threads[next := Thread(tid, false, false, Stub)], ready := ready + [next], ids := ids + {tid},
            next := next + 1)
    }

    /** The part of thread_yield and thread_sleep up to getcontext, which saves the context: the thread at i leaves
        the ready list, to run next. */
    function Saved(i: nat): Sys
      requires i < |ready| && running in threads && ready[i] in threads
    {
      var target := ready[i];
      var ret := threads[target].tid;
      this.(threads := threads[running := threads[running].(recover := false, context := AfterGet(ret, target, on))],
            ready := ready[..i] + ready[i + 1..], pc := Got(ret, target, on), on := false)
    }

    /** thread_yield, to the thread at i on the ready list */
    function Yielded(i: nat): Sys
      requires i < |ready| && running in threads && ready[i] in threads
    {
      var s := Saved(i);
      s.(ready := s.ready + [running])
    }

    /** thread_sleep on wait queue q */
    function Slept(q: nat): Sys
      requires q < |waits| && ready != [] && running in threads && ready[0] in threads
    {
      var w := waits[q];
      Saved(0).(waits := waits[q := WaitQueue(w.queue + [running], w.size + 1)])
    }

    /** thread_exit of the running thread, when another one is ready */
    function Exited(): Sys
      requires running in threads && ready != [] && ready[0] in threads
    {
      this.(ids := ids - {threads[running].tid}, dead := dead + [running], ready := ready[1..]).SwitchTo(ready[0])
    }

    /** delete_threads_list */
    function Buried(): Sys {
      this.(threads := map x | x in threads && x !in dead :: threads[x], dead := [])
    }

    /** The rest of thread_yield or thread_sleep, after getcontext */
    function Checked(): Sys
      requires pc.Got? && running in threads && (ready != [] ==> ready[0] in threads)
    {
      if threads[running].flag && ready != [] then Exited()
      else
        var s := Buried();
        if pc.ret !in ids then s.(pc := User, on := pc.enabled)
        else if pc.target in s.threads && !s.threads[pc.target].recover && running in s.threads &&
             !s.threads[running].recover
        then s.SwitchTo(pc.target)
        else s.(pc := User, on := pc.enabled)
    }

    /** thread_exit of the thread at i on the ready list: it is only marked. */
    function Marked(i: nat): Sys
      requires i < |ready| && ready[i] in threads
    {
      this.(threads := threads[ready[i] := threads[ready[i]].(flag := true)])
    }

    /** thread_yield to the running thread itself: the context is saved and restored once. */
    function SelfYielded(): Sys
      requires running in threads
    {
      this.(threads := threads[running := threads[running].(recover := true)])
    }

    /** thread_wakeup on wait queue q, of one thread or of all; the size counts only what wake-all resets. */
    function Woken(q: nat, all: bool): Sys
      requires q < |waits|
    {
      var w := waits[q];
      if w.queue == [] then this
      else if all then this.(ready := ready + w.queue, waits := waits[q := WaitQueue([], 0)])
      else if w.size == 1 then this.(ready := ready + w.queue, waits := waits[q := WaitQueue([], w.size)])
      else this.(ready := ready + [w.queue[0]], waits := waits[q := WaitQueue(w.queue[1..], w.size)])
    }

    // ---- What holds of every state ----

    /** The thread whose turn it is: on the first pass after getcontext, the one that is about to run */
    ghost function Turn(): int {
      if running in threads && FirstPass() then pc.target else running
    }

    /** In how many places thread x is: its turn, the ready list, the wait queues, and the list to delete */
    ghost function Count(x: int): nat {
      (if x == Turn() then 1 else 0) + multiset(ready)[x] + multiset(Flat(waits))[x] + multiset(dead)[x]
    }

    /** Each thread is in exactly one place, once. */
    ghost predicate OnePlace() {
      forall x :: Count(x) == if x in threads then 1 else 0
    }

    /** The identifiers in use are those of the threads that are not to be deleted, which are all different. */
    ghost predicate Identified() {
      (forall x :: x in threads && x !in dead ==> threads[x].tid in ids) &&
      (forall x, y :: x in threads && y in threads && x !in dead && y !in dead && threads[x].tid == threads[y].tid ==>
         x == y) &&
      (forall i :: i in ids ==> 0 <= i < THREAD_MAX_THREADS && exists x ::
         x in threads && x !in dead && threads[x].tid == i)
    }

    /** A thread that waits for its turn is in NEW_STATE, also the one that is about to run for the first pass of the
        running one; the running thread is never among those to delete. */
    ghost predicate Stated() {
      running in threads && running !in dead && (forall x :: x in threads ==> x < next) &&
      (forall x :: x in ready || x in Flat(waits) ==> x in threads && !threads[x].recover) &&
      (FirstPass() ==>
         pc.target in threads && !threads[pc.target].recover && pc.target != running &&
         pc.ret == threads[pc.target].tid)
    }

    /** getcontext has returned for the first time. */
    ghost predicate FirstPass()
      requires running in threads
    {
      pc.Got? && !threads[running].recover
    }

    ghost predicate Ok() {
      OnePlace() && Identified() && Stated() && (forall q :: 0 <= q < |waits| ==> waits[q].size >= |waits[q].queue|)
    }
  }

  /** The wait queues, one after the other */
  function Flat(waits: seq<WaitQueue>): seq<int> {
    if waits == [] then [] else Flat(waits[..|waits| - 1]) + waits[|waits| - 1].queue
  }

  lemma {:induction false} FlatUpdate(waits: seq<WaitQueue>, q: nat, w: WaitQueue, x: int)
    requires q < |waits|
    ensures multiset(Flat(waits[q :=
                                w]))[x] + multiset(waits[q].queue)[x] == multiset(Flat(waits))[x] + multiset(w.queue)[x]
  {
    var init, waits' := waits[..|waits| - 1], waits[q := w];
    if q == |waits| - 1 {
      assert waits'[..|waits| - 1] == init && waits'[q] == w;
    } else {
      FlatUpdate(init, q, w, x);
      assert waits'[..|waits| - 1] == init[q := w] && waits'[|waits| - 1] == waits[|waits| - 1];
    }
  }

  lemma TakeOut(r: seq<int>, i: nat, x: int)
    requires i < |r|
    ensures multiset(r)[x] == multiset(r[..i] + r[i + 1..])[x] + if x == r[i] then 1 else 0
  {
    assert r == r[..i] + [r[i]] + r[i + 1..];
  }

  lemma Placed(s: Sys, x: int)
    requires s.Ok()
    ensures x == s.Turn() || x in s.ready || x in Flat(s.waits) || x in s.dead <==> x in s.threads
    ensures x == s.Turn() ==> x !in s.ready && x !in Flat(s.waits) && x !in s.dead
    ensures x in s.ready ==> x !in Flat(s.waits) && x !in s.dead && multiset(s.ready)[x] == 1
    ensures x in Flat(s.waits) ==> x !in s.dead
    ensures x in s.dead ==> multiset(s.dead)[x] == 1
  {
    assert s.Count(x) == if x in s.threads then 1 else 0;
  }

  lemma CreatedPlaces(s: Sys, tid: int)
    requires s.Ok() && s.pc == User
    ensures s.Created(tid).OnePlace()
  {
    hide Sys.Identified;
    hide Flat;
    var s' := s.Created(tid);
    Placed(s, s.next);
    forall x ensures s'.Count(x) == if x in s'.threads then 1 else 0 {
      assert s.Count(x) == if x in s.threads then 1 else 0;
    }
  }

  lemma CreatedOk(s: Sys, tid: int)
    requires s.Ok() && s.pc == User && tid !in s.ids && 0 <= tid < THREAD_MAX_THREADS
    ensures s.Created(tid).Ok()
  {
    hide Sys.Identified;
    hide Sys.OnePlace;
    hide Sys.Count;
    hide Flat;
    Placed(s, s.next);
    CreatedPlaces(s, tid);
    CreatedIds(s, tid);
  }

  lemma CreatedIds(s: Sys, tid: int)
    requires s.Ok() && s.pc == User && tid !in s.ids && 0 <= tid < THREAD_MAX_THREADS
    ensures s.Created(tid).Identified()
  {
    var s' := s.Created(tid);
    Placed(s, s.next);
    forall i | i in s'.ids ensures exists x :: x in s'.threads && x !in s'.dead && s'.threads[x].tid == i {
      if i == tid {
        assert s'.threads[s.next].tid == i;
      } else {
        var x :| x in s.threads && x !in s.dead && s.threads[x].tid == i;
        assert s'.threads[x].tid == i;
      }
    }
  }

  /** Steps that leave the identifiers and the list to delete alone */
  lemma SameIds(s: Sys, s': Sys)
    requires s.Identified() && s'.ids == s.ids && s'.dead == s.dead && s'.threads.Keys == s.threads.Keys
    requires forall x :: x in s.threads ==> s'.threads[x].tid == s.threads[x].tid
    ensures s'.Identified()
  {
    forall x ensures x in s'.threads <==> x in s.threads {
      assert x in s'.threads.Keys <==> x in s.threads.Keys;
    }
    forall i | i in s'.ids ensures exists x :: x in s'.threads && x !in s'.dead && s'.threads[x].tid == i {
      var x :| x in s.threads && x !in s.dead && s.threads[x].tid == i;
      assert s'.threads[x].tid == i;
    }
  }

  lemma SavedOk(s: Sys, i: nat, s': Sys)
    requires s.Ok() && s.pc == User && i < |s.ready| && s.ready[i] in s.threads && s' == s.Saved(i)
    ensures s.ready[i] != s.running && s'.Turn() == s.ready[i] && s'.Identified() && s'.threads.Keys == s.threads.Keys
    ensures forall x :: multiset(s'.ready)[x] == multiset(s.ready)[x] - if x == s.ready[i] then 1 else 0
    ensures forall x :: x in s'.ready ==> x in s.ready && x != s.running
    ensures forall x :: x in s.threads && x != s.running ==> s'.threads[x] == s.threads[x]
  {
    Placed(s, s.running);
    forall x ensures multiset(s'.ready)[x] == multiset(s.ready)[x] - if x == s.ready[i] then 1 else 0 {
      TakeOut(s.ready, i, x);
    }
    forall x | x in s'.ready ensures x in s.ready && x != s.running {
      assert multiset(s'.ready)[x] > 0;
    }
    assert s'.threads.Keys == s.threads.Keys;
    SameIds(s, s');
  }

  lemma ReadyThread(s: Sys, i: nat)
    requires s.Ok() && i < |s.ready|
    ensures s.ready[i] in s.threads
  {
    Placed(s, s.ready[i]);
  }

  lemma YieldedPlaces(s: Sys, i: nat)
    requires s.Ok() && s.pc == User && i < |s.ready| && s.ready[i] in s.threads
    ensures s.Yielded(i).OnePlace()
  {
    hide Sys.Identified;
    hide Flat;
    var s', s0 := s.Yielded(i), s.Saved(i);
    SavedOk(s, i, s0);
    forall x ensures s'.Count(x) == if x in s'.threads then 1 else 0 {
      assert s.Count(x) == if x in s.threads then 1 else 0;
      assert x in s'.threads.Keys <==> x in s.threads.Keys;
    }
  }

  lemma YieldedOk(s: Sys, i: nat)
    requires s.Ok() && s.pc == User && i < |s.ready| && s.ready[i] in s.threads
    ensures s.Yielded(i).Ok()
  {
    hide Sys.Identified;
    hide Sys.OnePlace;
    hide Sys.Count;
    hide Flat;
    var s0, s' := s.Saved(i), s.Yielded(i);
    SavedOk(s, i, s0);
    SameIds(s0, s');
    YieldedPlaces(s, i);
    Placed(s, s.running);
  }

  lemma SleptPlaces(s: Sys, q: nat, s': Sys)
    requires s.Ok() && s.pc == User && s.ready != [] && q < |s.waits| && s.ready[0] in s.threads && s' == s.Slept(q)
    ensures s'.OnePlace() && forall x :: x in Flat(s'.waits) ==> x in Flat(s.waits) || x == s.running
  {
    hide Sys.Identified;
    hide Flat;
    var w := s.waits[q];
    SavedOk(s, 0, s.Saved(0));
    forall x ensures multiset(Flat(s'.waits))[x] == multiset(Flat(s.waits))[x] + if x == s.running then 1 else 0 {
      FlatUpdate(s.waits, q, WaitQueue(w.queue + [s.running], w.size + 1), x);
    }
    forall x ensures s'.Count(x) == if x in s'.threads then 1 else 0 {
      assert s.Count(x) == if x in s.threads then 1 else 0;
      assert x in s'.threads.Keys <==> x in s.threads.Keys;
    }
    forall x | x in Flat(s'.waits) ensures x in Flat(s.waits) || x == s.running {
      assert multiset(Flat(s'.waits))[x] > 0;
    }
  }

  lemma SleptOk(s: Sys, q: nat)
    requires s.Ok() && s.pc == User && s.ready != [] && q < |s.waits| && s.ready[0] in s.threads
    ensures s.Slept(q).Ok()
  {
    hide Sys.Identified;
    hide Sys.OnePlace;
    hide Flat;
    var s' := s.Slept(q);
    SavedOk(s, 0, s.Saved(0));
    SameIds(s.Saved(0), s');
    SleptPlaces(s, q, s');
    Placed(s, s.running);
  }

  lemma MarkedOk(s: Sys, i: nat)
    requires s.Ok() && i < |s.ready| && s.ready[i] in s.threads
    ensures s.Marked(i).Ok()
  {
    hide Sys.Identified;
    var s' := s.Marked(i);
    assert s'.threads.Keys == s.threads.Keys;
    SameIds(s, s');
    assert s'.Turn() == s.Turn();
    forall x ensures s'.Count(x) == if x in s'.threads then 1 else 0 {
      assert s.Count(x) == if x in s.threads then 1 else 0;
      assert x in s'.threads.Keys <==> x in s.threads.Keys;
    }
  }

  /** A wakeup moves threads from the front of the wait queue to the end of the ready list, in order. */
  lemma WokenMoves(s: Sys, q: nat, all: bool)
    requires s.Ok() && q < |s.waits|
    ensures var s', w := s.Woken(q, all), s.waits[q];
            |s'.waits| == |s.waits| && s'.ready + s'.waits[q].queue == s.ready + w.queue &&
            |s'.ready| == |s.ready| + (if w.queue == [] then 0 else if all then |w.queue| else 1) &&
            s' == s.(ready := s'.ready, waits := s.waits[q := s'.waits[q]]) && s'.waits[q].size >= |s'.waits[q].queue|
  {
    var w := s.waits[q];
    if w.queue != [] {
      if w.size == 1 {
        SingletonWakeup(s, q);
      }
      assert w.queue == [w.queue[0]] + w.queue[1..];
    } else {
      assert s.waits == s.waits[q := w];
    }
  }

  lemma WokenOk(s: Sys, q: nat, all: bool)
    requires s.Ok() && s.pc == User && q < |s.waits|
    ensures s.Woken(q, all).Ok()
  {
    hide Sys.Identified;
    hide Sys.Woken;
    hide Flat;
    var s', w := s.Woken(q, all), s.waits[q];
    WokenMoves(s, q, all);
    SameIds(s, s');
    forall x
      ensures multiset(s'.ready)[x] + multiset(Flat(s'.waits))[x] == multiset(s.ready)[x] + multiset(Flat(s.waits))[x]
    {
      FlatUpdate(s.waits, q, s'.waits[q], x);
      assert multiset(s'.ready + s'.waits[q].queue)[x] == multiset(s.ready + w.queue)[x];
    }
    forall x ensures s'.Count(x) == if x in s'.threads then 1 else 0 {
      assert s.Count(x) == if x in s.threads then 1 else 0;
    }
    forall x | x in s'.ready || x in Flat(s'.waits) ensures x in s.ready || x in Flat(s.waits) {
      assert multiset(s'.ready)[x] + multiset(Flat(s'.waits))[x] > 0;
    }
  }

  /** The branch of thread_wakeup that passes the whole queue on for a size of 1 only ever sees a queue of one. */
  lemma SingletonWakeup(s: Sys, q: nat)
    requires s.Ok() && q < |s.waits| && s.waits[q].queue != [] && s.waits[q].size == 1
    ensures |s.waits[q].queue| == 1
  {
  }

  // ---- The rest of a call, after getcontext ----

  lemma SwitchToPlaces(s: Sys, t: int)
    requires t in s.threads
    ensures s.SwitchTo(t).Turn() == t && s.SwitchTo(t).threads.Keys == s.threads.Keys
    ensures s.SwitchTo(t).running == t && s.SwitchTo(t).threads[t].recover
  {
  }

  lemma ExitedPlaces(s: Sys)
    requires s.Ok() && !s.FirstPass() && s.ready != [] && s.ready[0] in s.threads
    ensures s.Exited().OnePlace()
  {
    hide Sys.Identified;
    hide Flat;
    var s', t := s.Exited(), s.ready[0];
    assert s.ready == [t] + s.ready[1..];
    assert s'.Turn() == t;
    forall x ensures s'.Count(x) == if x in s'.threads then 1 else 0 {
      assert s.Count(x) == if x in s.threads then 1 else 0;
      assert multiset(s.ready)[x] == multiset(s.ready[1..])[x] + if x == t then 1 else 0;
    }
  }

  lemma ExitedShape(s: Sys)
    requires s.running in s.threads && s.ready != [] && s.ready[0] in s.threads
    ensures var s', t := s.Exited(), s.ready[0];
            s'.running == t && s'.ready == s.ready[1..] && s'.waits == s.waits && s'.dead == s.dead + [s.running] &&
            s'.next == s.next &&
            s'.threads == s.threads[t := s.threads[t].(recover := true)]
  {
  }

  /** The exit of a thread whose turn it is */
  lemma ExitedOk(s: Sys)
    requires s.Ok() && !s.FirstPass() && s.ready != [] && s.ready[0] in s.threads
    ensures s.Exited().Ok()
  {
    hide Sys.Identified;
    hide Sys.OnePlace;
    hide Sys.Count;
    hide Sys.Exited;
    hide Flat;
    Placed(s, s.running);
    Placed(s, s.ready[0]);
    ExitedShape(s);
    ExitedPlaces(s);
    ExitedIds(s);
    FirstOnce(s.ready);
  }

  lemma FirstOnce(r: seq<int>)
    requires r != [] && multiset(r)[r[0]] == 1
    ensures r[0] !in r[1..] && forall x :: x in r[1..] ==> x in r
  {
    assert r == [r[0]] + r[1..];
    assert multiset(r[1..])[r[0]] == 0;
  }

  lemma ExitedIds(s: Sys)
    requires s.Ok() && !s.FirstPass() && s.ready != [] && s.ready[0] in s.threads
    ensures s.Exited().Identified()
  {
    hide Flat;
    var s' := s.Exited();
    forall i | i in s'.ids ensures exists x :: x in s'.threads && x !in s'.dead && s'.threads[x].tid == i {
      var x :| x in s.threads && x !in s.dead && s.threads[x].tid == i;
      assert s'.threads[x].tid == i;
    }
  }

  lemma BuriedOk(s: Sys)
    requires s.Ok()
    ensures s.Buried().Ok() && s.Buried().Turn() == s.Turn() && s.running in s.Buried().threads
  {
    hide Sys.Identified;
    hide Flat;
    var s' := s.Buried();
    Placed(s, s.Turn());
    BuriedIds(s);
    forall x ensures s'.Count(x) == if x in s'.threads then 1 else 0 {
      assert s.Count(x) == if x in s.threads then 1 else 0;
    }
    forall x | x in s'.ready || x in Flat(s'.waits) ensures x in s'.threads && !s'.threads[x].recover {
      Placed(s, x);
    }
  }

  lemma BuriedIds(s: Sys)
    requires s.Identified()
    ensures s.Buried().Identified()
  {
    var s' := s.Buried();
    forall i | i in s'.ids ensures exists x :: x in s'.threads && x !in s'.dead && s'.threads[x].tid == i {
      var x :| x in s.threads && x !in s.dead && s.threads[x].tid == i;
      assert s'.threads[x].tid == i;
    }
  }

  lemma TargetKnown(s: Sys)
    requires s.Ok() && s.FirstPass()
    ensures s.pc.target in s.threads && s.pc.target !in s.dead && s.pc.ret in s.ids && s.pc.target !in s.ready &&
            s.pc.target !in Flat(s.waits)
    ensures s.ready != [] ==> s.ready[0] in s.threads
  {
    Placed(s, s.pc.target);
    if s.ready != [] {
      ReadyThread(s, 0);
    }
  }

  lemma SwitchedOk(b: Sys, t: int)
    requires b.Ok() && b.FirstPass() && t == b.pc.target && t in b.threads
    ensures b.SwitchTo(t).Ok()
  {
    hide Sys.Identified;
    hide Flat;
    var s' := b.SwitchTo(t);
    SwitchToPlaces(b, t);
    SameIds(b, s');
    Placed(b, t);
    forall x ensures s'.Count(x) == if x in s'.threads then 1 else 0 {
      assert b.Count(x) == if x in b.threads then 1 else 0;
      assert x in s'.threads.Keys <==> x in b.threads.Keys;
    }
  }

  /** On the first pass, an unmarked thread switches to its target; the context it then goes on with is the one it
      saved. */
  lemma FirstPassSwitches(s: Sys)
    requires s.Ok() && s.FirstPass() && (s.ready != [] ==> s.ready[0] in s.threads) &&
             !(s.threads[s.running].flag && s.ready != [])
    ensures s.Checked().Ok() && s.Checked().running == s.pc.target && !s.Checked().FirstPass()
    ensures s.pc.target in s.Buried().threads && s.Checked() == s.Buried().SwitchTo(s.pc.target)
  {
    TargetKnown(s);
    BuriedOk(s);
    hide Sys.Identified;
    hide Sys.OnePlace;
    hide Flat;
    SwitchedOk(s.Buried(), s.pc.target);
  }

  /** After such a pass, exactly the threads that were to be deleted are gone, and the target goes on: in its stub, with
      interrupts enabled, if it never ran, and else with what it saved. Nothing else changes. */
  lemma FirstPassEffect(s: Sys)
    requires s.Ok() && s.FirstPass() && (s.ready != [] ==> s.ready[0] in s.threads) &&
             !(s.threads[s.running].flag && s.ready != [])
    ensures var s', t := s.Checked(), s.pc.target;
            t in s.threads && s'.running == t && s'.dead == [] &&
            (forall x :: x in s'.threads <==> x in s.threads && x !in s.dead) &&
            (forall x :: x in s'.threads ==>
               s'.threads[x] == if x == t then s.threads[x].(recover := true) else s.threads[x]) &&
            s'.ready == s.ready && s'.waits == s.waits && s'.ids == s.ids && s'.next == s.next &&
            match s.threads[t].context
            case Stub => s'.pc == User && s'.on
            case AfterGet(ret, target, enabled) => s'.pc == Got(ret, target, enabled) && !s'.on
  {
    hide Sys.Identified;
    hide Sys.OnePlace;
    hide Sys.Checked;
    hide Flat;
    TargetKnown(s);
    FirstPassSwitches(s);
    SwitchToEffect(s.Buried(), s.pc.target);
  }

  lemma SwitchToEffect(b: Sys, t: int)
    requires t in b.threads
    ensures var s' := b.SwitchTo(t);
            s'.running == t && s'.threads == b.threads[t := b.threads[t].(recover := true)] &&
            s'.ready == b.ready && s'.waits == b.waits && s'.ids == b.ids && s'.next == b.next && s'.dead == b.dead &&
            match b.threads[t].context
            case Stub => s'.pc == User && s'.on
            case AfterGet(ret, target, enabled) => s'.pc == Got(ret, target, enabled) && !s'.on
  {
  }

  lemma ReturnedOk(b: Sys, on: bool)
    requires b.Ok() && b.pc.Got? && !b.FirstPass()
    ensures b.(pc := User, on := on).Ok()
  {
    hide Sys.Identified;
    hide Flat;
    var s' := b.(pc := User, on := on);
    SameIds(b, s');
    forall x ensures s'.Count(x) == if x in s'.threads then 1 else 0 {
      assert b.Count(x) == if x in b.threads then 1 else 0;
    }
  }

  /** On the second pass, it does not switch again, unless it was marked: then it exits, if it can. */
  lemma SecondPassReturns(s: Sys)
    requires s.Ok() && s.pc.Got? && !s.FirstPass() && (s.ready != [] ==> s.ready[0] in s.threads)
    ensures s.Checked().Ok() && !s.Checked().FirstPass()
    ensures s.threads[s.running].flag && s.ready != [] ==>
              s.Checked().running == s.ready[0] && s.running in s.Checked().dead &&
              s.threads[s.running].tid !in s.Checked().ids
    ensures !(s.threads[s.running].flag && s.ready != []) ==>
              s.Checked().running == s.running && s.Checked().pc == User && s.Checked().on == s.pc.enabled
  {
    if s.threads[s.running].flag && s.ready != [] {
      ExitedOk(s);
    } else {
      BuriedOk(s);
      hide Sys.Identified;
      hide Sys.OnePlace;
      hide Flat;
      ReturnedOk(s.Buried(), s.pc.enabled);
    }
  }

  /** After a second pass that returns, exactly the threads that were to be deleted are gone; nothing else changes but
      that the call is over, with interrupts as it found them. */
  lemma SecondPassEffect(s: Sys)
    requires s.Ok() && s.pc.Got? && !s.FirstPass() && (s.ready != [] ==> s.ready[0] in s.threads)
    requires !(s.threads[s.running].flag && s.ready != [])
    ensures var s' := s.Checked();
            s'.running == s.running && s'.pc == User && s'.on == s.pc.enabled && s'.dead == [] &&
            (forall x :: x in s'.threads <==> x in s.threads && x !in s.dead) &&
            (forall x :: x in s'.threads ==> s'.threads[x] == s.threads[x]) &&
            s'.ready == s.ready && s'.waits == s.waits && s'.ids == s.ids && s'.next == s.next
  {
    hide Sys.Identified;
    hide Sys.OnePlace;
    hide Flat;
    SecondPassReturns(s);
  }

  /** Such an exit loses the thread that was to run. */
  lemma MarkedFirstPass(s: Sys)
    requires s.Ok() && s.FirstPass() && s.threads[s.running].flag && s.ready != [] && s.ready[0] in s.threads
    ensures s.pc.target in s.Checked().threads && s.Checked().Count(s.pc.target) == 0
    ensures s.running in s.Checked().dead &&
            (s.running in s.ready ==> s.running == s.Checked().running || s.running in s.Checked().ready)
  {
    hide Flat;
    hide Sys.Identified;
    hide Sys.OnePlace;
    TargetKnown(s);
    assert s.ready == [s.ready[0]] + s.ready[1..];
  }

  /** A marked thread that was not stopped, because it never ran before, or because no other was ready, exits in the
      middle of its next switch: the first pass keeps the order if and only if the running thread is not marked, or
      no thread is ready. */
  lemma FirstPassExact(s: Sys)
    requires s.Ok() && s.FirstPass() && (s.ready != [] ==> s.ready[0] in s.threads)
    ensures s.Checked().Ok() <==> !(s.threads[s.running].flag && s.ready != [])
  {
    if s.threads[s.running].flag && s.ready != [] {
      MarkedFirstPass(s);
    } else {
      FirstPassSwitches(s);
    }
  }

  lemma SelfYieldedOk(s: Sys)
    requires s.Ok() && s.pc == User
    ensures s.SelfYielded().Ok()
  {
    hide Sys.Identified;
    hide Flat;
    var s' := s.SelfYielded();
    assert s'.threads.Keys == s.threads.Keys;
    SameIds(s, s');
    Placed(s, s.running);
    forall x ensures s'.Count(x) == if x in s'.threads then 1 else 0 {
      assert s.Count(x) == if x in s.threads then 1 else 0;
      assert x in s'.threads.Keys <==> x in s.threads.Keys;
    }
  }

  lemma NewQueueOk(s: Sys)
    requires s.Ok() && s.pc == User
    ensures s.(waits := s.waits + [WaitQueue([], 0)]).Ok()
  {
    hide Sys.Identified;
    var s' := s.(waits := s.waits + [WaitQueue([], 0)]);
    assert s'.waits[..|s.waits|] == s.waits && Flat(s'.waits) == Flat(s.waits);
    SameIds(s, s');
    forall x ensures s'.Count(x) == if x in s'.threads then 1 else 0 {
      assert s.Count(x) == if x in s.threads then 1 else 0;
    }
  }

  // ---- Runs ----

  /** What the running thread does next: a call, or, after getcontext, the rest of one. A timer interrupt is a
      Yield(0). */
  datatype Op =
    | Create
    | Yield(i: nat)
    | YieldSelf
    | Sleep(q: nat)
    | Exit
    | Mark(i: nat)
    | Wakeup(q: nat, all: bool)
    | NewQueue
    | Continue

  /** The least identifier that is not in use, or THREAD_NOMORE */
  function FreeId(ids: set<int>, from: nat): (tid: int)
    requires from <= THREAD_MAX_THREADS
    ensures tid == THREAD_NOMORE || (from <= tid < THREAD_MAX_THREADS && tid !in ids)
    ensures forall i :: from <= i < (if tid == THREAD_NOMORE then THREAD_MAX_THREADS else tid) ==> i in ids
    decreases THREAD_MAX_THREADS - from
  {
    if from == THREAD_MAX_THREADS then THREAD_NOMORE else if from !in ids then from else FreeId(ids, from + 1)
  }

  /** The operation is possible, the threads named are on the ready list, and no marked thread goes on to its first
      pass. */
  ghost predicate Enabled(s: Sys, op: Op) {
    s.running in s.threads && (s.pc == User <==> !op.Continue?) &&
    match op
    case Yield(i) => i < |s.ready| && s.ready[i] in s.threads
    case Sleep(q) => s.ready != [] && s.ready[0] in s.threads && q < |s.waits|
    case Exit => s.ready != [] && s.ready[0] in s.threads
    case Mark(i) => i < |s.ready| && s.ready[i] in s.threads
    case Wakeup(q, _) => q < |s.waits|
    case Continue => (s.ready != [] ==> s.ready[0] in s.threads) &&
      !(s.FirstPass() && s.threads[s.running].flag && s.ready != [])
    case _ => true
  }

  ghost function After(s: Sys, op: Op): Sys
    requires Enabled(s, op)
  {
    match op
    case Create =>
      var tid := FreeId(s.ids, 0);
      if tid == THREAD_NOMORE then s.(on := false) else s.Created(tid)
    case Yield(i) => s.Yielded(i)
    case YieldSelf => s.SelfYielded()
    case Sleep(q) => s.Slept(q)
    case Exit => s.Exited()
    case Mark(i) => s.Marked(i)
    case Wakeup(q, all) => s.Woken(q, all)
    case NewQueue => s.(waits := s.waits + [WaitQueue([], 0)])
    case Continue => s.Checked()
  }

  lemma AfterOk(s: Sys, op: Op)
    requires s.Ok() && Enabled(s, op)
    ensures After(s, op).Ok()
  {
    hide Flat;
    hide Sys.Identified;
    hide Sys.OnePlace;
    match op
    case Create =>
      if FreeId(s.ids, 0) == THREAD_NOMORE {
        InterruptsOk(s, false);
      } else {
        CreatedOk(s, FreeId(s.ids, 0));
      }
    case Yield(i) => YieldedOk(s, i);
    case YieldSelf => SelfYieldedOk(s);
    case Sleep(q) => SleptOk(s, q);
    case Exit => ExitedOk(s);
    case Mark(i) => MarkedOk(s, i);
    case Wakeup(q, all) => WokenOk(s, q, all);
    case NewQueue => NewQueueOk(s);
    case Continue =>
      if s.FirstPass() {
        FirstPassSwitches(s);
      } else {
        SecondPassReturns(s);
      }
  }

  lemma InterruptsOk(s: Sys, on: bool)
    requires s.Ok()
    ensures s.(on := on).Ok()
  {
    hide Sys.Identified;
    hide Flat;
    var s' := s.(on := on);
    SameIds(s, s');
    forall x ensures s'.Count(x) == if x in s'.threads then 1 else 0 {
      assert s.Count(x) == if x in s.threads then 1 else 0;
    }
  }

  /** thread_init */
  function Initial(): Sys {
    Sys(map[0 := Thread(0, false, false, Stub)], 0, User, [], [], {0}, [], 1, true)
  }

  lemma InitialOk()
    ensures Initial().Ok()
  {
    var s := Initial();
    forall x ensures s.Count(x) == if x in s.threads then 1 else 0 {
    }
    assert s.threads[0].tid == 0;
  }

  ghost predicate Run(states: seq<Sys>, ops: seq<Op>) {
    |states| == |ops| + 1 && forall k :: 0 <= k < |ops| ==>
      Enabled(states[k], ops[k]) && states[k + 1] == After(states[k], ops[k])
  }

  /** In every state that is reached, each thread is in exactly one place, the identifiers in use are those of the
      threads that are not to be deleted, and the running thread is not to be deleted. */
  lemma {:induction false} RunOk(states: seq<Sys>, ops: seq<Op>)
    requires Run(states, ops) && states[0] == Initial()
    ensures states[|ops|].Ok()
  {
    var n := |ops|;
    if n == 0 {
      InitialOk();
    } else {
      RunOk(states[..n], ops[..n - 1]);
      AfterOk(states[n - 1], ops[n - 1]);
    }
  }

  // ---- The order of the sleepers ----

  ghost function QueueOf(s: Sys, q: nat): seq<int> {
    if q < |s.waits| then s.waits[q].queue else []
  }

  /** The thread that the operation puts to sleep on queue q */
  function Sleeper(s: Sys, op: Op, q: nat): seq<int> {
    if op == Sleep(q) then [s.running] else []
  }

  /** The threads that a wakeup on queue q brings to the end of the ready list */
  ghost function Leavers(s: Sys, op: Op, q: nat): seq<int>
    requires Enabled(s, op)
  {
    var ready := After(s, op).ready;
    if op.Wakeup? && op.q == q && |s.ready| <= |ready| then ready[|s.ready|..] else []
  }

  /** A queue gains at its end the thread that goes to sleep, and loses from its front those that are woken; it is not
      touched otherwise. */
  lemma QueueStep(s: Sys, op: Op, q: nat)
    requires s.Ok() && Enabled(s, op)
    ensures Leavers(s, op, q) + QueueOf(After(s, op), q) == QueueOf(s, q) + Sleeper(s, op, q)
    ensures op.Wakeup? ==> s.ready <= After(s, op).ready
  {
    hide Flat;
    hide Sys.Identified;
    hide Sys.OnePlace;
    hide Sys.Stated;
    match op
    case Wakeup(p, all) =>
      WokenMoves(s, p, all);
      var s', w := s.Woken(p, all), s.waits[p];
      assert s'.ready + s'.waits[p].queue == s.ready + w.queue;
      FrontMoves(s.ready, w.queue, s'.ready, s'.waits[p].queue);
    case Continue => CheckedQueues(s);
    case _ =>
  }

  lemma FrontMoves(a: seq<int>, b: seq<int>, a': seq<int>, b': seq<int>)
    requires a + b == a' + b' && |a| <= |a'|
    ensures a <= a' && a'[|a|..] + b' == b
  {
    assert a' == (a + b)[..|a'|];
    assert b == (a' + b')[|a|..];
  }

  lemma CheckedQueues(s: Sys)
    requires Enabled(s, Continue)
    ensures s.Checked().waits == s.waits
  {
  }

  /** The threads that went to sleep on queue q, in order */
  ghost function Sleepers(states: seq<Sys>, ops: seq<Op>, q: nat): seq<int>
    requires Run(states, ops)
  {
    if ops == [] then []
    else Sleepers(states[..|ops|], ops[..|ops| - 1], q) + Sleeper(states[|ops| - 1], ops[|ops| - 1], q)
  }

  /** The threads that were woken from queue q, in the order in which they came to the ready list */
  ghost function WokenUp(states: seq<Sys>, ops: seq<Op>, q: nat): seq<int>
    requires Run(states, ops)
  {
    if ops == [] then []
    else WokenUp(states[..|ops|], ops[..|ops| - 1], q) + Leavers(states[|ops| - 1], ops[|ops| - 1], q)
  }

  /** First in, first out: over every run, the threads woken from a queue, and then those that still sleep on it, are
      those that went to sleep on it, in the same order. */
  lemma {:induction false} SleepersInOrder(states: seq<Sys>, ops: seq<Op>, q: nat)
    requires Run(states, ops) && states[0] == Initial()
    ensures WokenUp(states, ops, q) + QueueOf(states[|ops|], q) == Sleepers(states, ops, q)
  {
    hide Leavers;
    hide Sleeper;
    hide QueueOf;
    hide Sys.Ok;
    hide Enabled;
    hide After;
    var n := |ops|;
    if n == 0 {
      NothingQueued(q);
    } else {
      SleepersInOrder(states[..n], ops[..n - 1], q);
      RunOk(states[..n], ops[..n - 1]);
      QueueStep(states[n - 1], ops[n - 1], q);
      var woken, s, op := WokenUp(states[..n], ops[..n - 1], q), states[n - 1], ops[n - 1];
      assert woken + Leavers(s, op, q) + QueueOf(states[n], q) == woken + (QueueOf(s, q) + Sleeper(s, op, q));
      assert woken + (QueueOf(s, q) + Sleeper(s, op, q)) == woken + QueueOf(s, q) + Sleeper(s, op, q);
    }
  }

  lemma NothingQueued(q: nat)
    ensures QueueOf(Initial(), q) == []
  {
  }

  // ---- The marks ----

  /** An operation marks exactly the thread that it names, and no thread loses its mark; a new thread has none. */
  lemma MarkStep(s: Sys, op: Op, x: int)
    requires s.Ok() && Enabled(s, op) && x in After(s, op).threads
    ensures x in s.threads ==>
              After(s, op).threads[x].flag == (s.threads[x].flag || (op.Mark? && s.ready[op.i] == x)) &&
              After(s, op).threads[x].tid == s.threads[x].tid
    ensures x !in s.threads ==> !After(s, op).threads[x].flag
  {
    NextIsNew(s);
    hide Sys.Ok;
    match op
    case Continue => CheckedFlag(s, x);
    case Exit => ExitedShape(s);
    case _ =>
  }

  lemma NextIsNew(s: Sys)
    requires s.Ok()
    ensures s.next !in s.threads
  {
  }

  lemma CheckedFlag(s: Sys, x: int)
    requires Enabled(s, Continue) && x in s.Checked().threads
    ensures x in s.threads && s.Checked().threads[x].flag == s.threads[x].flag &&
            s.Checked().threads[x].tid == s.threads[x].tid
  {
  }

  /** Some operation of the run marked thread x. */
  ghost predicate MarkedIn(states: seq<Sys>, ops: seq<Op>, x: int)
    requires Run(states, ops)
  {
    exists k :: 0 <= k < |ops| && ops[k].Mark? && ops[k].i < |states[k].ready| && states[k].ready[ops[k].i] == x
  }

  /** In every run, the marked threads are exactly those that an exit call of another thread named. */
  lemma {:induction false} MarksExact(states: seq<Sys>, ops: seq<Op>, x: int)
    requires Run(states, ops) && states[0] == Initial() && x in states[|ops|].threads
    ensures states[|ops|].threads[x].flag <==> MarkedIn(states, ops, x)
  {
    hide Sys.Ok;
    hide After;
    var n := |ops|;
    if n > 0 {
      RunOk(states[..n], ops[..n - 1]);
      var s, op := states[n - 1], ops[n - 1];
      MarkStep(s, op, x);
      if x in s.threads {
        MarksExact(states[..n], ops[..n - 1], x);
        MarkedNext(states, ops, x);
      } else {
        NewUnmarked(states, ops, x);
      }
    }
  }

  lemma MarkedNext(states: seq<Sys>, ops: seq<Op>, x: int)
    requires Run(states, ops) && ops != []
    ensures var n := |ops| - 1;
            MarkedIn(states, ops, x) <==>
              MarkedIn(states[..n + 1], ops[..n], x) ||
              (ops[n].Mark? && ops[n].i < |states[n].ready| && states[n].ready[ops[n].i] == x)
  {
    hide After;
    hide Enabled;
    var n := |ops| - 1;
    if k :| 0 <= k < n && ops[..n][k].Mark? && ops[..n][k].i < |states[..n + 1][k].ready| &&
            states[..n + 1][k].ready[ops[..n][k].i] == x {
      assert ops[k].Mark? && states[k].ready[ops[k].i] == x;
    }
    if k :| 0 <= k < n + 1 && ops[k].Mark? && ops[k].i < |states[k].ready| && states[k].ready[ops[k].i] == x {
      if k < n {
        assert ops[..n][k].Mark? && states[..n + 1][k].ready[ops[..n][k].i] == x;
      }
    }
  }

  /** A thread that has just been made was in no state before, for its address is the next one. */
  lemma {:induction false} NewUnmarked(states: seq<Sys>, ops: seq<Op>, x: int)
    requires Run(states, ops) && states[0] == Initial() && ops != []
    requires x in states[|ops|].threads && x !in states[|ops| - 1].threads
    ensures !MarkedIn(states, ops, x)
  {
    var n := |ops| - 1;
    NewAddress(states[n], ops[n], x);
    forall k | 0 <= k < |ops| && ops[k].Mark? && ops[k].i < |states[k].ready|
      ensures states[k].ready[ops[k].i] != x
    {
      AddressesGrow(states, ops, k, n);
      RunOk(states[..k + 1], ops[..k]);
      ReadyThread(states[k], ops[k].i);
    }
  }

  lemma NewAddress(s: Sys, op: Op, x: int)
    requires Enabled(s, op) && x in After(s, op).threads && x !in s.threads
    ensures x == s.next
  {
  }

  lemma {:induction false} AddressesGrow(states: seq<Sys>, ops: seq<Op>, k: nat, n: nat)
    requires Run(states, ops) && k <= n <= |ops|
    ensures states[k].next <= states[n].next
  {
    hide After;
    hide Enabled;
    if k < n {
      AddressesGrow(states, ops, k, n - 1);
      NextGrows(states[n - 1], ops[n - 1]);
    }
  }

  lemma NextGrows(s: Sys, op: Op)
    requires Enabled(s, op)
    ensures s.next <= After(s, op).next
  {
  }

  // ---- The contexts ----

  /** Thread x, unless it is to be deleted, is in a call that found interrupts `on`: its context says so, and, while it
      runs, so does the call. */
  ghost predicate InCall(s: Sys, x: int, on: bool) {
    x < s.next &&
    (x in s.threads && x !in s.dead ==>
       s.threads[x].context.AfterGet? && s.threads[x].context.enabled == on &&
       (s.running == x ==> s.pc.Got? && s.pc.enabled == on))
  }

  /** The context that a yield or a sleep saves is that of its first pass, with interrupts as the call found them. */
  lemma CallBegins(s: Sys, op: Op)
    requires s.Ok() && Enabled(s, op) && (op.Yield? || op.Sleep?)
    ensures var s' := After(s, op);
            s'.running == s.running && s.running in s'.threads && s'.FirstPass() && !s'.on && s'.pc.enabled == s.on &&
            s'.threads[s.running].context == AfterGet(s'.pc.ret, s'.pc.target, s'.pc.enabled) &&
            InCall(s', s.running, s.on)
  {
  }

  lemma CallExits(s: Sys, x: int, on: bool)
    requires s.Ok() && !s.FirstPass() && s.ready != [] && s.ready[0] in s.threads && InCall(s, x, on)
    ensures s.Exited().running != s.running && InCall(s.Exited(), x, on)
    ensures s.Exited().running == x ==> s.Exited().pc.Got?
  {
    hide Sys.Identified;
    hide Sys.OnePlace;
    hide Flat;
    Placed(s, s.ready[0]);
    Placed(s, s.running);
  }

  lemma CallChecked(s: Sys, x: int, on: bool)
    requires s.Ok() && Enabled(s, Continue) && InCall(s, x, on)
    ensures var s' := s.Checked();
            if s'.running == x && s'.pc == User then s.running == x && s'.on == on else InCall(s', x, on)
  {
    hide Sys.Identified;
    hide Sys.OnePlace;
    hide Flat;
    if s.threads[s.running].flag && s.ready != [] {
      CallExits(s, x, on);
      assert s.Checked() == s.Exited();
    } else {
      hide Sys.Checked;
      if s.FirstPass() {
        TargetKnown(s);
        FirstPassEffect(s);
      } else {
        SecondPassEffect(s);
      }
    }
  }

  lemma CallGoesOn(s: Sys, op: Op, x: int, on: bool)
    requires s.Ok() && Enabled(s, op) && InCall(s, x, on)
    ensures var s' := After(s, op);
            if s'.running == x && s'.pc == User then s.running == x && s'.on == on else InCall(s', x, on)
  {
    hide Sys.Identified;
    hide Sys.OnePlace;
    hide Flat;
    match op
    case Continue => CallChecked(s, x, on);
    case Exit => CallExits(s, x, on);
    case Wakeup(q, all) => WokenThreads(s, q, all);
    case _ =>
  }

  lemma WokenThreads(s: Sys, q: nat, all: bool)
    requires q < |s.waits|
    ensures var s' := s.Woken(q, all);
            s'.threads == s.threads && s'.running == s.running && s'.pc == s.pc && s'.dead == s.dead &&
            s'.next == s.next
  {
  }

  /** A thread that yields or sleeps comes back to its own code with interrupts as they were at its call, whatever ran
      in the meantime. */
  lemma {:induction false} ResumesAsCalled(states: seq<Sys>, ops: seq<Op>)
    requires Run(states, ops) && states[0].Ok() && ops != [] && (ops[0].Yield? || ops[0].Sleep?)
    requires forall k :: 0 < k < |ops| ==> !(states[k].running == states[0].running && states[k].pc == User)
    ensures var s, x := states[|ops|], states[0].running;
            s.Ok() && if s.running == x && s.pc == User then s.on == states[0].on else InCall(s, x, states[0].on)
  {
    hide Sys.Ok;
    hide After;
    hide Enabled;
    hide InCall;
    var n := |ops|;
    AfterOk(states[n - 1], ops[n - 1]) by {
      if n > 1 {
        ResumesAsCalled(states[..n], ops[..n - 1]);
      }
    }
    if n == 1 {
      CallBegins(states[0], ops[0]);
    } else {
      ResumesAsCalled(states[..n], ops[..n - 1]);
      CallGoesOn(states[n - 1], ops[n - 1], states[0].running, states[0].on);
    }
  }

  // ---- A case ----

  /** A run that loses a thread: the first thread creates a second one, marks it, and yields to it; that one, which
      never ran, takes no notice of the mark, yields, and exits in the middle of this switch. The first thread is
      then in no place. */
  function LosingOps(): seq<Op> {
    [Create, Mark(0), Yield(0), Continue, Yield(0)]
  }

  function LosingStates(): seq<Sys> {
    seq(6, k requires 0 <= k < 6 => LosingState(k))
  }

  function LosingState(k: nat): Sys {
    var t0, t1 := Thread(0, false, false, Stub), Thread(1, false, false, Stub);
    var m1 := t1.(flag := true);
    var w0, w1 := t0.(context := AfterGet(1, 1, true)), m1.(context := AfterGet(0, 0, true));
    if k == 0 then Initial()
    else if k == 1 then Sys(map[0 := t0, 1 := t1], 0, User, [1], [], {0, 1}, [], 2, true)
    else if k == 2 then Sys(map[0 := t0, 1 := m1], 0, User, [1], [], {0, 1}, [], 2, true)
    else if k == 3 then Sys(map[0 := w0, 1 := m1], 0, Got(1, 1, true), [0], [], {0, 1}, [], 2, false)
    else if k == 4 then Sys(map[0 := w0, 1 := m1.(recover := true)], 1, User, [0], [], {0, 1}, [], 2, true)
    else Sys(map[0 := w0, 1 := w1], 1, Got(0, 0, true), [1], [], {0, 1}, [], 2, false)
  }

  lemma LosingCreate()
    ensures Enabled(LosingState(0), Create) && After(LosingState(0), Create) == LosingState(1)
  {
    var s := Initial();
    assert FreeId({0}, 0) == 1;
    assert s.Created(1) == LosingState(1);
  }

  lemma LosingMark()
    ensures Enabled(LosingState(1), Mark(0)) && After(LosingState(1), Mark(0)) == LosingState(2)
  {
  }

  lemma LosingYield()
    ensures Enabled(LosingState(2), Yield(0)) && After(LosingState(2), Yield(0)) == LosingState(3)
  {
  }

  lemma LosingFirstPass()
    ensures Enabled(LosingState(3), Continue) && After(LosingState(3), Continue) == LosingState(4)
  {
    var s := LosingState(3);
    assert s.Buried() == s by {
      assert s.Buried().threads == s.threads;
    }
    assert s.SwitchTo(1) == LosingState(4);
  }

  lemma LosingYieldBack()
    ensures Enabled(LosingState(4), Yield(0)) && After(LosingState(4), Yield(0)) == LosingState(5)
  {
  }

  lemma LosingRun()
    ensures Run(LosingStates(), LosingOps())
  {
    hide After;
    hide Enabled;
    hide LosingState;
    LosingCreate();
    LosingMark();
    LosingYield();
    LosingFirstPass();
    LosingYieldBack();
  }

  /** The run is possible up to the first pass, which then loses the first thread. */
  lemma LosesThread()
    ensures Run(LosingStates(), LosingOps())
    ensures var s := LosingStates()[5];
            s.Ok() && s.FirstPass() && s.threads[s.running].flag && s.ready == [1] && 1 in s.threads &&
            s.Checked().Count(0) == 0 && 0 in s.Checked().threads && !s.Checked().Ok()
  {
    LosingRun();
    RunOk(LosingStates(), LosingOps());
    hide Sys.Ok;
    hide Run;
    var s := LosingStates()[5];
    assert s == LosingState(5);
    MarkedFirstPass(s);
    FirstPassExact(s);
  }

  // ---- Bounded waiting ----

  /** The place on the ready list from which the operation takes a thread, or -1: the first place, unless the running
      thread yields to a particular one. */
  function Taken(s: Sys, op: Op): int
    requires s.running in s.threads
  {
    match op
    case Yield(i) => i
    case Sleep(_) => 0
    case Exit => 0
    case Continue => if s.threads[s.running].flag && s.ready != [] then 0 else -1
    case _ => -1
  }

  /** Where the ready thread at place i is after the operation, or -1 if its turn has come */
  function Moved(taken: int, i: int): int {
    if i == taken then -1 else if 0 <= taken < i then i - 1 else i
  }

  /** A ready thread moves up by one place when one before it is taken, and otherwise stays where it is, until it is
      taken itself. */
  lemma MovesUp(s: Sys, op: Op, i: nat)
    requires Enabled(s, op) && i < |s.ready|
    ensures var s', j := After(s, op), Moved(Taken(s, op), i);
            if j >= 0 then j < |s'.ready| && s'.ready[j] == s.ready[i]
            else s'.running == s.ready[i] || (s'.pc.Got? && s'.pc.target == s.ready[i])
  {
    match op
    case Continue => CheckedMovesUp(s, i);
    case Wakeup(q, all) => WokenMovesUp(s, q, all, i);
    case _ =>
  }

  lemma CheckedMovesUp(s: Sys, i: nat)
    requires Enabled(s, Continue) && i < |s.ready|
    ensures if s.threads[s.running].flag then if i == 0 then s.Checked().running == s.ready[0]
            else s.Checked().ready == s.ready[1..]
            else s.Checked().ready == s.ready
  {
  }

  lemma WokenMovesUp(s: Sys, q: nat, all: bool, i: nat)
    requires q < |s.waits| && i < |s.ready|
    ensures i < |s.Woken(q, all).ready| && s.Woken(q, all).ready[i] == s.ready[i]
  {
  }

  /** Where the thread at place i of the first state is in the last one, or -1 if its turn has come */
  ghost function Place(states: seq<Sys>, ops: seq<Op>, i: nat): (j: int)
    requires Run(states, ops)
    ensures j <= i
  {
    if ops == [] then i
    else
      var n := |ops| - 1;
      Moved(Taken(states[n], ops[n]), Place(states[..n + 1], ops[..n], i))
  }

  /** How many threads were taken off the ready list */
  ghost function SwitchCount(states: seq<Sys>, ops: seq<Op>): nat
    requires Run(states, ops)
  {
    if ops == [] then 0
    else SwitchCount(states[..|ops|], ops[..|ops| - 1]) + if Taken(states[|ops| - 1], ops[|ops| - 1]) >= 0 then 1 else 0
  }

  /** A ready thread keeps its place until its turn comes, and goes up by those that are taken before it; at each
      switch this is so for every thread, unless a particular one behind it is yielded to. */
  lemma {:induction false} BoundedWaiting(states: seq<Sys>, ops: seq<Op>, i: nat)
    requires Run(states, ops) && i < |states[0].ready|
    ensures var j := Place(states, ops, i); j >= 0 ==>
              j < |states[|ops|].ready| && states[|ops|].ready[j] == states[0].ready[i]
    ensures (forall k :: 0 <= k < |ops| ==> Taken(states[k], ops[k]) <= 0) ==>
              Place(states, ops, i) == if SwitchCount(states, ops) <= i then i - SwitchCount(states, ops) else -1
  {
    hide After;
    hide Enabled;
    hide Taken;
    var n := |ops|;
    if n > 0 {
      BoundedWaiting(states[..n], ops[..n - 1], i);
      var j := Place(states[..n], ops[..n - 1], i);
      if j >= 0 {
        MovesUp(states[n - 1], ops[n - 1], j);
      }
    }
  }
}
