/** webserver/server_thread.c: the ring buffer between the main thread and the workers. */
module RequestQueue {
  /** The ring buffer refines a queue of at most maxRequests descriptors. */
  class Ring {
    const maxRequests: nat
    const buf: array<int>
    var inn: nat
    var out: nat

    ghost predicate Valid()
      reads this
    {
      buf.Length == maxRequests + 1 && inn <= maxRequests && out <= maxRequests
    }

    /** The descriptors that wait, in the order of their arrival */
    ghost function Contents(): seq<int>
      requires Valid()
      reads this, buf
    {
      if out <= inn then buf[out..inn] else buf[out..] + buf[..inn]
    }

    /** server_init */
    constructor (maxRequests: nat)
      ensures Valid() && fresh(buf) && this.maxRequests == maxRequests && Contents() == []
    {
      this.maxRequests := maxRequests;
      buf := new int[maxRequests + 1];
      inn, out := 0, 0;
    }

    /** The test for a full buffer is exact. */
    predicate IsFull()
      requires Valid()
      reads this, buf
      ensures IsFull() <==> |Contents()| == maxRequests
      ensures |Contents()| <= maxRequests
    {
      Distance(inn, out, maxRequests) == maxRequests
    }

    /** So is the test for an empty one. */
    predicate IsEmpty()
      requires Valid()
      reads this, buf
      ensures IsEmpty() <==> Contents() == []
    {
      inn == out
    }

    /** server_request, with room in the buffer; it signals if it finds the buffer empty. */
    method Put(connfd: int) returns (signal: bool)
      requires Valid() && |Contents()| < maxRequests
      modifies this`inn, buf
      ensures Valid() && Contents() == old(Contents()) + [connfd]
      ensures signal <==> old(Contents()) == []
    {
      hide Successor;
      hide Distance;
      buf[inn] := connfd;
      signal := IsEmpty();
      inn := Successor(inn, maxRequests);
    }

    /** stub_func, with something in the buffer; it signals if it finds the buffer full. */
    method Take() returns (msg: int, signal: bool)
      requires Valid() && Contents() != []
      modifies this`out
      ensures Valid() && old(Contents()) == [msg] + Contents()
      ensures signal <==> |old(Contents())| == maxRequests
    {
      hide Successor;
      hide Distance;
      msg := buf[out];
      signal := IsFull();
      out := Successor(out, maxRequests);
    }
  }

  /** How many places of a ring of n + 1 places lie between out and inn */
  function Distance(inn: nat, out: nat, n: nat): (d: nat)
    requires inn <= n && out <= n
    ensures d == if out <= inn then inn - out else inn - out + n + 1
  {
    ModuloUnique(inn - out + (n + 1), n + 1, if out <= inn then 1 else 0, if out <= inn then inn - out
                 else inn - out + n + 1);
    (inn - out + (n + 1)) % (n + 1)
  }

  /** The next place of a ring of n + 1 places */
  function Successor(i: nat, n: nat): (j: nat)
    requires i <= n
    ensures j == if i == n then 0 else i + 1
  {
    ModuloUnique(i + 1, n + 1, if i == n then 1 else 0, if i == n then 0 else i + 1);
    (i + 1) % (n + 1)
  }

  lemma ModuloUnique(a: int, m: int, q: int, r: int)
    requires m > 0 && a == q * m + r && 0 <= r < m
    ensures a % m == r
  {
    var q', r' := a / m, a % m;
    assert a == q' * m + r';
    Distribute(q, q', m);
    if q > q' {
      AtLeast(q - q', m);
    } else if q < q' {
      Distribute(q', q, m);
      AtLeast(q' - q, m);
    }
  }

  lemma Distribute(a: int, b: int, m: int)
    ensures (a - b) * m == a * m - b * m
  {
  }

  lemma AtLeast(k: int, m: int)
    requires k >= 1 && m > 0
    ensures k * m >= m
  {
  }
}

/** The monitor around the ring buffer: one main thread that accepts connections, and the workers. */
module Monitor {
  datatype Worker = Trying | Waiting | Serving(connfd: int)

  datatype Producer = Accepting | Requesting(connfd: int) | Blocked(connfd: int)

  /** The queue, of at most `capacity` descriptors; where each thread is; what was put and taken so far. A thread is
      Waiting or Blocked while it sleeps in pthread_cond_wait, and, when it wakes, for whatever reason, it tries
      again. */
  datatype State = State(capacity: nat, queue: seq<int>, producer: Producer, workers: seq<Worker>, put: seq<int>,
                         taken: seq<int>)

  predicate Initial(s: State) {
    s.queue == [] && s.producer == Accepting && s.put == s.taken == [] && |s.workers| > 0 &&
    forall w :: 0 <= w < |s.workers| ==> s.workers[w] == Trying
  }

  /** pthread_cond_signal(cv_empty): one sleeping worker, if there is one, wakes up. */
  predicate SignalEmpty(workers: seq<Worker>, workers': seq<Worker>) {
    if Waiting !in workers then workers' == workers
    else exists w :: 0 <= w < |workers| && workers[w] == Waiting && workers' == workers[w := Trying]
  }

  /** pthread_cond_signal(cv_full): the main thread, if it sleeps, wakes up. */
  function SignalFull(p: Producer): Producer {
    match p
    case Blocked(connfd) => Requesting(connfd)
    case _ => p
  }

  /** server_request, from the test of the loop on: to sleep, or to the end */
  predicate Request(s: State, s': State) {
    s.producer.Requesting? &&
    if |s.queue| == s.capacity then s' == s.(producer := Blocked(s.producer.connfd))
    else
      s' == s.(queue := s.queue + [s.producer.connfd], put := s.put + [s.producer.connfd], producer := Accepting,
               workers := s'.workers) &&
      if s.queue == [] then SignalEmpty(s.workers, s'.workers) else s'.workers == s.workers
  }

  /** stub_func, worker w, from the test of the loop on: to sleep, or to the unlock */
  predicate Serve(s: State, w: nat, s': State) {
    w < |s.workers| && s.workers[w] == Trying &&
    if s.queue == [] then s' == s.(workers := s.workers[w := Waiting])
    else
      s' == s.(queue := s.queue[1..], taken := s.taken + [s.queue[0]], workers := s.workers[w := Serving(s.queue[0])],
               producer := if |s.queue| == s.capacity then SignalFull(s.producer) else s.producer)
  }

  /** Worker w is done with its request. */
  predicate Finish(s: State, w: nat, s': State) {
    w < |s.workers| && s.workers[w].Serving? && s' == s.(workers := s.workers[w := Trying])
  }

  /** accept returns a connection. */
  predicate Accept(s: State, connfd: int, s': State) {
    s.producer == Accepting && s' == s.(producer := Requesting(connfd))
  }

  /** A sleeping thread wakes up though nobody signalled. */
  predicate Spurious(s: State, s': State) {
    (s.producer.Blocked? && s' == s.(producer := SignalFull(s.producer))) ||
    exists w :: 0 <= w < |s.workers| && s.workers[w] == Waiting && s' == s.(workers := s.workers[w := Trying])
  }

  predicate Step(s: State, s': State) {
    Request(s, s') || (exists w: nat :: w < |s.workers| && (Serve(s, w, s') || Finish(s, w, s'))) ||
    (s'.producer.Requesting? && Accept(s, s'.producer.connfd, s')) || Spurious(s, s')
  }

  predicate Run(states: seq<State>) {
    |states| > 0 && Initial(states[0]) && forall i :: 0 < i < |states| ==> Step(states[i - 1], states[i])
  }

  /** A worker that is awake */
  predicate Awake(s: State, w: int) {
    0 <= w < |s.workers| && s.workers[w] != Waiting
  }

  /** Nothing is lost, duplicated, or reordered; with something in the queue, some worker is awake; while the main
      thread sleeps, the queue is full. */
  ghost predicate Invariant(s: State) {
    s.put == s.taken + s.queue && |s.queue| <= s.capacity && |s.workers| > 0 &&
    (s.queue != [] ==> exists w :: Awake(s, w)) &&
    (s.producer.Blocked? ==> |s.queue| == s.capacity)
  }

  lemma StepKeepsInvariant(s: State, s': State)
    requires Invariant(s) && Step(s, s')
    ensures Invariant(s') && s'.capacity == s.capacity
  {
    if Request(s, s') {
      RequestKeepsInvariant(s, s');
    } else if w: nat :| w < |s.workers| && (Serve(s, w, s') || Finish(s, w, s')) {
      ServeKeepsInvariant(s, w, s');
    } else if s.queue != [] {
      var w :| Awake(s, w);
      assert Awake(s', w);
    }
  }

  lemma RequestKeepsInvariant(s: State, s': State)
    requires Invariant(s) && Request(s, s')
    ensures Invariant(s') && s'.capacity == s.capacity
  {
    if s.queue != [] {
      var w :| Awake(s, w);
      assert Awake(s', w);
    } else if |s.queue| < s.capacity {
      if Waiting !in s.workers {
        assert Awake(s', 0);
      } else {
        var w :| 0 <= w < |s.workers| && s.workers[w] == Waiting && s'.workers == s.workers[w := Trying];
        assert Awake(s', w);
      }
    }
  }

  lemma ServeKeepsInvariant(s: State, w: nat, s': State)
    requires Invariant(s) && w < |s.workers| && (Serve(s, w, s') || Finish(s, w, s'))
    ensures Invariant(s') && s'.capacity == s.capacity
  {
    if s.queue != [] {
      assert Awake(s', w);
    }
  }

  lemma {:induction false} RunKeepsInvariant(states: seq<State>)
    requires Run(states)
    ensures Invariant(states[|states| - 1]) && states[|states| - 1].capacity == states[0].capacity
  {
    var n := |states|;
    if n > 1 {
      RunKeepsInvariant(states[..n - 1]);
      StepKeepsInvariant(states[n - 2], states[n - 1]);
    }
  }

  /** The descriptors taken are, in order, the first of those put. */
  lemma TakenInOrder(states: seq<State>)
    requires Run(states)
    ensures var s := states[|states| - 1]; s.taken <= s.put && |s.put| - |s.taken| <= s.capacity
  {
    RunKeepsInvariant(states);
  }

  /** What accept returned in this step, as the main thread shows it */
  function AcceptedNow(s: State, s': State): seq<int> {
    if s.producer == Accepting && s'.producer.Requesting? then [s'.producer.connfd] else []
  }

  /** Worker w begins to serve a request. */
  ghost predicate Begins(s: State, w: int, s': State) {
    0 <= w < |s.workers| && w < |s'.workers| && !s.workers[w].Serving? && s'.workers[w].Serving?
  }

  ghost function ServedNow(s: State, s': State): seq<int> {
    if w :| Begins(s, w, s') then [s'.workers[w].connfd] else []
  }

  /** What accept returned, in this order */
  function Accepted(states: seq<State>): seq<int> {
    var n := |states|;
    if n < 2 then [] else Accepted(states[..n - 1]) + AcceptedNow(states[n - 2], states[n - 1])
  }

  /** The requests that the workers began to serve, in this order */
  ghost function Served(states: seq<State>): seq<int> {
    var n := |states|;
    if n < 2 then [] else Served(states[..n - 1]) + ServedNow(states[n - 2], states[n - 1])
  }

  /** The descriptor that the main thread has still to put */
  function Pending(s: State): seq<int> {
    if s.producer == Accepting then [] else [s.producer.connfd]
  }

  ghost predicate Counted(states: seq<State>) {
    |states| > 0 &&
    var s := states[|states| - 1];
    Accepted(states) == s.put + Pending(s) && Served(states) == s.taken
  }

  lemma AcceptedStep(s: State, s': State)
    requires Step(s, s')
    ensures s'.put + Pending(s') == s.put + Pending(s) + AcceptedNow(s, s')
  {
    if Request(s, s') {
      assert s'.put + Pending(s') == s.put + Pending(s);
    }
  }

  lemma ServedStep(s: State, s': State)
    requires Step(s, s')
    ensures s'.taken == s.taken + ServedNow(s, s')
  {
    if w: nat :| w < |s.workers| && Serve(s, w, s') && s.queue != [] {
      assert Begins(s, w, s');
    }
  }

  /** Every connection that accept returned is served once, in this order, whichever worker it goes to: those that
      are served are the first ones, and besides them at most the capacity, and the one of the main thread, wait. */
  lemma {:induction false} ServedInOrder(states: seq<State>)
    requires Run(states)
    ensures Served(states) <= Accepted(states)
    ensures var s := states[|states| - 1];
            Accepted(states) == Served(states) + s.queue + Pending(s) && |s.queue| <= s.capacity
    ensures Counted(states)
  {
    var n := |states|;
    RunKeepsInvariant(states);
    if n > 1 {
      ServedInOrder(states[..n - 1]);
      AcceptedStep(states[n - 2], states[n - 1]);
      ServedStep(states[n - 2], states[n - 1]);
    }
  }

  /** A step that brings a request on its way, or frees a worker: nothing that only goes to sleep or wakes up by
      itself */
  ghost predicate Progress(s: State) {
    exists s' :: (Request(s, s') && |s'.put| > |s.put|) ||
                 exists w: nat :: w < |s.workers| && ((Serve(s, w, s') && |s'.taken| > |s.taken|) || Finish(s, w, s'))
  }

  /** With room for at least one request, the threads are never stuck: while the main thread has a request to put, or
      one is in the queue, some thread can go on, without a spurious wakeup. */
  lemma NeverStuck(states: seq<State>)
    requires Run(states) && states[0].capacity > 0
    requires var s := states[|states| - 1]; s.queue != [] || s.producer != Accepting
    ensures Progress(states[|states| - 1])
  {
    RunKeepsInvariant(states);
    var s := states[|states| - 1];
    if s.queue != [] {
      var w :| Awake(s, w);
      if s.workers[w] == Trying {
        var s' := s.(queue := s.queue[1..], taken := s.taken + [s.queue[0]],
                     workers := s.workers[w := Serving(s.queue[0])],
                     producer := if |s.queue| == s.capacity then SignalFull(s.producer) else s.producer);
        assert Serve(s, w, s');
      } else {
        assert Finish(s, w, s.(workers := s.workers[w := Trying]));
      }
    } else {
      var workers := s.workers;
      if Waiting in workers {
        var w :| 0 <= w < |workers| && workers[w] == Waiting;
        workers := workers[w := Trying];
      }
      var s' := s.(queue := s.queue + [s.producer.connfd], put := s.put + [s.producer.connfd], producer := Accepting,
                   workers := workers);
      assert SignalEmpty(s.workers, workers);
      assert Request(s, s');
    }
  }

  /** With no room, no request is ever put. */
  lemma {:induction false} NoCapacityStuck(states: seq<State>)
    requires Run(states) && states[0].capacity == 0
    ensures states[|states| - 1].put == []
  {
    var n := |states|;
    if n > 1 {
      NoCapacityStuck(states[..n - 1]);
      RunKeepsInvariant(states[..n - 1]);
    }
  }

  lemma TwoRequests(s2: State, s4: State, s6: State, s7: State)
    requires s2 == State(2, [], Accepting, [Waiting, Waiting], [], [])
    requires s4 == State(2, [1], Accepting, [Trying, Waiting], [1], []) &&
             s6 == State(2, [1, 2], Accepting, [Trying, Waiting], [1, 2], [])
    requires s7 == State(2, [2], Accepting, [Serving(1), Waiting], [1, 2], [1])
    ensures Step(s2, s2.(producer := Requesting(1))) && Step(s2.(producer := Requesting(1)), s4)
    ensures Step(s4, s4.(producer := Requesting(2))) && Step(s4.(producer := Requesting(2)), s6)
    ensures Step(s6, s7)
  {
    assert SignalEmpty(s2.workers, s4.workers) by {
      assert s2.workers[0] == Waiting && s4.workers == s2.workers[0 := Trying];
    }
    assert Accept(s2, 1, s2.(producer := Requesting(1))) && Accept(s4, 2, s4.(producer := Requesting(2)));
    assert Request(s2.(producer := Requesting(1)), s4) && Request(s4.(producer := Requesting(2)), s6);
    assert Serve(s6, 0, s7);
  }

  /** Signals only on the way out of an empty queue let a worker sleep while a request waits: two requests wake one
      worker. */
  lemma SleepsBesideRequest() returns (states: seq<State>)
    ensures Run(states)
    ensures var s := states[|states| - 1];
            s.queue != [] && s.producer == Accepting && s.workers == [Serving(1), Waiting]
  {
    var s0 := State(2, [], Accepting, [Trying, Trying], [], []);
    var s1 := s0.(workers := [Waiting, Trying]);
    var s2 := s0.(workers := [Waiting, Waiting]);
    var s4 := s2.(queue := [1], put := [1], workers := [Trying, Waiting]);
    var s6 := s4.(queue := [1, 2], put := [1, 2]);
    var s7 := s6.(queue := [2], taken := [1], workers := [Serving(1), Waiting]);
    assert Step(s0, s1) && Step(s1, s2) by {
      assert Serve(s0, 0, s1) && Serve(s1, 1, s2);
    }
    TwoRequests(s2, s4, s6, s7);
    hide Step;
    hide Run;
    states := Start(s0);
    states := Extend(states, s0, s1);
    states := Extend(states, s1, s2);
    states := Extend(states, s2, s2.(producer := Requesting(1)));
    states := Extend(states, s2.(producer := Requesting(1)), s4);
    states := Extend(states, s4, s4.(producer := Requesting(2)));
    states := Extend(states, s4.(producer := Requesting(2)), s6);
    states := Extend(states, s6, s7);
  }

  lemma Start(s: State) returns (states: seq<State>)
    requires Initial(s)
    ensures Run(states) && |states| > 0 && states[|states| - 1] == s
  {
    states := [s];
  }

  lemma Extend(states: seq<State>, s: State, s': State) returns (states': seq<State>)
    requires Run(states) && |states| > 0 && states[|states| - 1] == s && Step(s, s')
    ensures Run(states') && |states'| > 0 && states'[|states'| - 1] == s'
  {
    states' := states + [s'];
  }
}

/** The server: the ring buffer, and the threads around it as the monitor sees them. */
module Servers {
  import opened RequestQueue
  import opened Monitor

  lemma RequestIsStep(s: State, s': State)
    requires Request(s, s')
    ensures Step(s, s')
  {
  }

  lemma ServeIsStep(s: State, w: nat, s': State)
    requires Serve(s, w, s')
    ensures Step(s, s')
  {
  }

  class Server {
    const ring: Ring
    /** Where each thread is, and what was put and taken so far */
    ghost var state: State

    /** The ring holds the queue of the monitor, which is in one of its invariant states. */
    ghost predicate Valid()
      reads this, ring, ring.buf
    {
      ring.Valid() && state.capacity == ring.maxRequests && state.queue == ring.Contents() && Invariant(state)
    }

    /** server_init */
    constructor (nrThreads: nat, maxRequests: nat)
      requires nrThreads > 0
      ensures Valid() && fresh(ring) && fresh(ring.buf) && Initial(state)
    {
      ring := new Ring(maxRequests);
      state := State(maxRequests, [], Accepting, seq(nrThreads, _ => Trying), [], []);
    }

    /** accept, in the main thread */
    method AcceptConnection(connfd: int)
      requires Valid() && state.producer == Accepting
      modifies this`state
      ensures Valid() && Accept(old(state), connfd, state) && Step(old(state), state)
    {
      state := state.(producer := Requesting(connfd));
      StepKeepsInvariant(old(state), state);
    }

    /** pthread_cond_signal(cv_empty): some sleeping worker wakes up. */
    static ghost method WakeWorker(workers: seq<Worker>) returns (workers': seq<Worker>)
      ensures SignalEmpty(workers, workers')
    {
      workers' := workers;
      if Waiting in workers {
        var w :| 0 <= w < |workers| && workers[w] == Waiting;
        workers' := workers[w := Trying];
      }
    }

    /** server_request, from the test of the loop on, with the lock held: it sleeps, or puts the descriptor. */
    method ServerRequest(connfd: int) returns (asleep: bool)
      requires Valid() && state.producer == Requesting(connfd)
      modifies this`state, ring`inn, ring.buf
      ensures Valid() && Request(old(state), state) && Step(old(state), state)
      ensures asleep <==> |old(state.queue)| == old(state.capacity)
      ensures ring.Contents() == old(ring.Contents()) + if asleep then [] else [connfd]
    {
      hide Ring.Valid;
      hide Ring.Contents;
      hide Ring.IsFull;
      hide Ring.IsEmpty;
      hide Invariant;
      hide Step;
      ghost var s := state;
      asleep := ring.IsFull();
      if asleep {
        state := s.(producer := Blocked(connfd));
      } else {
        var signal := ring.Put(connfd);
        ghost var workers := s.workers;
        if signal {
          workers := WakeWorker(workers);
        }
        state := s.(queue := s.queue + [connfd], put := s.put + [connfd], producer := Accepting, workers := workers);
      }
      RequestIsStep(s, state);
      StepKeepsInvariant(s, state);
    }

    /** stub_func in worker w, from the test of the loop on, with the lock held: it sleeps, or takes a descriptor. */
    method StubFunc(ghost w: nat) returns (asleep: bool, msg: int)
      requires Valid() && w < |state.workers| && state.workers[w] == Trying
      modifies this`state, ring`out
      ensures Valid() && Serve(old(state), w, state) && Step(old(state), state)
      ensures if asleep then old(state.queue) == [] else old(state.queue) != [] && state.workers[w] == Serving(msg)
      ensures old(ring.Contents()) == (if asleep then [] else [msg]) + ring.Contents()
    {
      hide Ring.Valid;
      hide Ring.Contents;
      hide Ring.IsFull;
      hide Ring.IsEmpty;
      hide Invariant;
      hide Step;
      ghost var s := state;
      asleep, msg := ring.IsEmpty(), 0;
      if asleep {
        state := s.(workers := s.workers[w := Waiting]);
      } else {
        var signal;
        msg, signal := ring.Take();
        state := s.(queue := s.queue[1..], taken := s.taken + [msg], workers := s.workers[w := Serving(msg)],
                    producer := if signal then SignalFull(s.producer) else s.producer);
      }
      ServeIsStep(s, w, state);
      StepKeepsInvariant(s, state);
    }
  }
}
