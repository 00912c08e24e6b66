/** The thread pool of the supplicant as a state machine over its atomic steps.

    Every thread serves requests from the secure world in a loop. A counter of waiting threads, guarded by a mutex,
    decides when another thread must be started, so that a request that a handler itself causes always finds a
    thread to take it. The results hold in every interleaving: the assertion in `num_waiters_dec` never fires
    (`DecNeverFails`), and as long as every request carries a meta parameter and nothing has failed, the threads are
    never all inside request handlers (`NeverAllBusy`). */
module ThreadPool {

  /** Where a thread is.
      Spawned    created, not yet scheduled
      Looping    at the head of the loop
      Entering   has found that nothing aborted, about to count itself as a waiter
      Waiting    counted as a waiter, blocked in the receive call
      Received   has a request that carries a meta parameter, still counted
      Alarmed    has found that it was the last waiter
      Spawning   has raised the counter for a thread it is about to create
      Undoing    could not create it, about to lower the counter again
      Busy       inside a request handler
      Quitting   has met a failure, about to raise the abort flag
      Gone       has left its loop */
  datatype Place =
    | Spawned | Looping | Entering | Waiting | Received | Alarmed | Spawning | Undoing | Busy | Quitting | Gone

  /** `leaked` counts the waiters that were never taken off the counter again; it is not part of the program. */
  datatype Pool = Pool(threads: seq<Place>, numWaiters: int, abort: bool, leaked: nat)

  /** One step of thread `t`. */
  datatype Action =
    | Schedule(t: nat)                                // thread_main: num_waiters_dec
    | Enter(t: nat)                                   // the test of the loop in thread_main
    | Inc(t: nat)                                     // process_one_request: num_waiters_inc
    | Receive(t: nat, meta: bool)                     // read_request and find_params succeed
    | ReceiveFails(t: nat)                            // one of them fails
    | Dec(t: nat)                                     // num_waiters_dec for a request with a meta parameter
    | SpawnInc(t: nat)                                // spawn_thread: num_waiters_inc
    | Create(t: nat, ok: bool)                        // pthread_create
    | Undo(t: nat)                                    // num_waiters_dec when it failed
    | Finish(t: nat, ok: bool)                        // the handler returns, the response is written
    | Quit(t: nat)                                    // process_one_request returned false: abort is set

  /** The main thread starts at the head of its loop. */
  function Initial(): Pool {
    Pool([Looping], 0, false, 0)
  }

  predicate At(p: Pool, t: nat, place: Place) {
    t < |p.threads| && p.threads[t] == place
  }

  predicate Enabled(p: Pool, a: Action) {
    match a
    case Schedule(t) => At(p, t, Spawned)
    case Enter(t) => At(p, t, Looping)
    case Inc(t) => At(p, t, Entering)
    case Receive(t, _) => At(p, t, Waiting)
    case ReceiveFails(t) => At(p, t, Waiting)
    case Dec(t) => At(p, t, Received)
    case SpawnInc(t) => At(p, t, Alarmed)
    case Create(t, _) => At(p, t, Spawning)
    case Undo(t) => At(p, t, Undoing)
    case Finish(t, _) => At(p, t, Busy)
    case Quit(t) => At(p, t, Quitting)
  }

  function Go(p: Pool, t: nat, place: Place): Pool
    requires t < |p.threads|
  {
    p.(threads := p.threads[t := place])
  }

  function Step(p: Pool, a: Action): Pool
    requires Enabled(p, a)
  {
    match a
    case Schedule(t) => Go(p, t, Looping).(numWaiters := p.numWaiters - 1)
    case Enter(t) => Go(p, t, if p.abort then Gone else Entering)
    case Inc(t) => Go(p, t, Waiting).(numWaiters := p.numWaiters + 1)
    case Receive(t, meta) =>
      if meta then Go(p, t, Received) else Go(p, t, Busy).(leaked := p.leaked + 1)
    case ReceiveFails(t) => Go(p, t, Quitting).(leaked := p.leaked + 1)
    case Dec(t) =>
      Go(p, t, if p.numWaiters - 1 == 0 then Alarmed else Busy).(numWaiters := p.numWaiters - 1)
    case SpawnInc(t) => Go(p, t, Spawning).(numWaiters := p.numWaiters + 1)
    case Create(t, ok) =>
      if ok then p.(threads := p.threads[t := Busy] + [Spawned]) else Go(p, t, Undoing)
    case Undo(t) => Go(p, t, Quitting).(numWaiters := p.numWaiters - 1)
    case Finish(t, ok) => Go(p, t, if ok then Looping else Quitting)
    case Quit(t) => Go(p, t, Gone).(abort := true)
  }

  /** The steps that call num_waiters_dec. */
  predicate Decrements(a: Action) {
    a.Schedule? || a.Dec? || a.Undo?
  }

  // ----- counting -----

  predicate Counted(place: Place) {
    place == Spawned || place == Waiting || place == Received || place == Spawning || place == Undoing
  }

  /** How many threads are waiting or about to, or have a request they have not yet been taken off the counter for. */
  function Waiters(threads: seq<Place>): nat {
    if threads == [] then 0
    else (if Counted(threads[|threads| - 1]) then 1 else 0) + Waiters(threads[..|threads| - 1])
  }

  lemma {:induction false} WaitersUpdate(threads: seq<Place>, t: nat, place: Place)
    requires t < |threads|
    ensures Waiters(threads[t := place]) ==
      Waiters(threads) - (if Counted(threads[t]) then 1 else 0) + (if Counted(place) then 1 else 0)
  {
    var n := |threads| - 1;
    if t == n {
      assert threads[t := place][..n] == threads[..n];
    } else {
      assert threads[t := place][..n] == threads[..n][t := place];
      WaitersUpdate(threads[..n], t, place);
    }
  }

  lemma WaitersSnoc(threads: seq<Place>, place: Place)
    ensures Waiters(threads + [place]) == Waiters(threads) + if Counted(place) then 1 else 0
  {
    assert (threads + [place])[..|threads|] == threads;
  }

  lemma {:induction false} WaitersSome(threads: seq<Place>)
    ensures Waiters(threads) > 0 <==> exists t :: 0 <= t < |threads| && Counted(threads[t])
  {
    if threads != [] {
      var most := threads[..|threads| - 1];
      WaitersSome(most);
      if exists t :: 0 <= t < |threads| && Counted(threads[t]) {
        var t :| 0 <= t < |threads| && Counted(threads[t]);
        assert t < |most| ==> Counted(most[t]);
      }
      if exists t :: 0 <= t < |most| && Counted(most[t]) {
        var t :| 0 <= t < |most| && Counted(most[t]);
        assert Counted(threads[t]);
      }
    }
  }

  // ----- the invariant -----

  /** The counter is the number of counted threads and of leaked waiters; and as long as nothing has leaked or failed,
      some thread is not inside a handler and has not left. */
  ghost predicate Inv(p: Pool) {
    && p.numWaiters == Waiters(p.threads) + p.leaked
    && (p.leaked == 0 && !p.abort ==> SomeFree(p.threads))
  }

  predicate Free(place: Place) {
    place != Busy && place != Gone
  }

  ghost predicate SomeFree(threads: seq<Place>) {
    exists t :: 0 <= t < |threads| && Free(threads[t])
  }

  lemma StillFree(p: Pool, t: nat, place: Place)
    requires t < |p.threads| && Free(place)
    ensures SomeFree(p.threads[t := place])
  {
    assert Free(p.threads[t := place][t]);
  }

  /** In every reachable state: the threads that take part in the count keep it above zero. */
  lemma DecAboveZero(p: Pool, a: Action)
    requires Inv(p) && Enabled(p, a) && Decrements(a)
    ensures p.numWaiters > 0
  {
    assert Counted(p.threads[a.t]);
    WaitersSome(p.threads);
  }

  lemma CountKept(p: Pool, a: Action)
    requires Inv(p) && Enabled(p, a)
    ensures Step(p, a).numWaiters == Waiters(Step(p, a).threads) + Step(p, a).leaked
  {
    var place := if a.Create? && a.ok then Busy else Step(p, a).threads[a.t];
    WaitersUpdate(p.threads, a.t, place);
    if a.Create? && a.ok {
      WaitersSnoc(p.threads[a.t := Busy], Spawned);
    } else {
      assert Step(p, a).threads == p.threads[a.t := place];
    }
  }

  lemma StepInv(p: Pool, a: Action)
    requires Inv(p) && Enabled(p, a)
    ensures Inv(Step(p, a))
  {
    CountKept(p, a);
    var p1 := Step(p, a);
    if p1.leaked == 0 && !p1.abort {
      match a
      case Schedule(t) => StillFree(p, t, Looping);
      case Enter(t) => StillFree(p, t, Entering);
      case Inc(t) => StillFree(p, t, Waiting);
      case Receive(t, _) => StillFree(p, t, Received);
      case ReceiveFails(t) => StillFree(p, t, Quitting);
      case Dec(t) =>
        if p1.numWaiters == 0 {
          StillFree(p, t, Alarmed);
        } else {
          WaitersSome(p1.threads);
          var u :| 0 <= u < |p1.threads| && Counted(p1.threads[u]);
          assert Free(p1.threads[u]);
        }
      case SpawnInc(t) => StillFree(p, t, Spawning);
      case Create(t, ok) => assert Free(p1.threads[if ok then |p.threads| else t]);
      case Undo(t) => StillFree(p, t, Quitting);
      case Finish(t, ok) => StillFree(p, t, if ok then Looping else Quitting);
      case Quit(t) =>
    }
  }

  // ----- whole runs -----

  /** A step that is not enabled does not happen. */
  function Next(p: Pool, a: Action): Pool {
    if Enabled(p, a) then Step(p, a) else p
  }

  /** The pool after a run. */
  function Run(p: Pool, as_: seq<Action>): Pool
    decreases |as_|
  {
    if as_ == [] then p else Run(Next(p, as_[0]), as_[1..])
  }

  lemma {:induction false} RunInv(p: Pool, as_: seq<Action>)
    requires Inv(p)
    ensures Inv(Run(p, as_))
    decreases |as_|
  {
    if as_ != [] {
      if Enabled(p, as_[0]) {
        StepInv(p, as_[0]);
      }
      RunInv(Next(p, as_[0]), as_[1..]);
    }
  }

  lemma InitialInv(p: Pool)
    requires p == Initial()
    ensures Inv(p)
  {
    assert p.threads[..0] == [];
    assert Free(p.threads[0]);
  }

  lemma ReachableInv(p0: Pool, as_: seq<Action>, p: Pool)
    requires p0 == Initial() && p == Run(p0, as_)
    ensures Inv(p)
  {
    InitialInv(p0);
    RunInv(p0, as_);
  }

  /** In every interleaving, with or without meta parameters and failures, the counter is the number of waiting,
      received, spawning and not yet scheduled threads plus those that leaked, and the assertion in
      num_waiters_dec holds whenever it is reached. */
  lemma DecNeverFails(p0: Pool, as_: seq<Action>, p: Pool, a: Action)
    requires p0 == Initial() && p == Run(p0, as_)
    ensures p.numWaiters == Waiters(p.threads) + p.leaked
    ensures Enabled(p, a) && Decrements(a) ==> p.numWaiters > 0
  {
    ReachableInv(p0, as_, p);
    if Enabled(p, a) && Decrements(a) {
      DecAboveZero(p, a);
    }
  }

  predicate CarriesMeta(a: Action) {
    a.Receive? ==> a.meta
  }

  predicate Fails(a: Action) {
    a.ReceiveFails? || (a.Create? && !a.ok) || (a.Finish? && !a.ok)
  }

  predicate NoneFails(as_: seq<Action>) {
    forall i :: 0 <= i < |as_| ==> !Fails(as_[i])
  }

  /** Every request carries a meta parameter and nothing fails. */
  predicate Clean(as_: seq<Action>) {
    forall i :: 0 <= i < |as_| ==> CarriesMeta(as_[i]) && !Fails(as_[i])
  }

  /** Nothing has failed and no failure is under way. */
  predicate Healthy(p: Pool) {
    !p.abort && forall t :: 0 <= t < |p.threads| ==> p.threads[t] !in {Quitting, Undoing, Gone}
  }

  lemma StepHealthy(p: Pool, a: Action)
    requires Healthy(p) && !Fails(a)
    ensures Healthy(Next(p, a))
    ensures Next(p, a).leaked >= p.leaked
    ensures Next(p, a).leaked == p.leaked <==> (Enabled(p, a) ==> CarriesMeta(a))
  {
  }

  /** Every request that the run really received carried a meta parameter. */
  predicate AllCarriedMeta(p: Pool, as_: seq<Action>)
    decreases |as_|
  {
    as_ != [] ==> (Enabled(p, as_[0]) ==> CarriesMeta(as_[0])) && AllCarriedMeta(Next(p, as_[0]), as_[1..])
  }

  /** A failure-free run stays healthy, and it leaks a waiter exactly when a request came without a meta parameter. */
  lemma {:induction false} RunHealthy(p: Pool, as_: seq<Action>)
    requires Healthy(p) && NoneFails(as_)
    ensures Healthy(Run(p, as_)) && Run(p, as_).leaked >= p.leaked
    ensures Run(p, as_).leaked == p.leaked <==> AllCarriedMeta(p, as_)
    decreases |as_|
  {
    if as_ != [] {
      StepHealthy(p, as_[0]);
      RunHealthy(Next(p, as_[0]), as_[1..]);
    }
  }

  lemma {:induction false} CleanCarriesMeta(p: Pool, as_: seq<Action>)
    requires Clean(as_)
    ensures AllCarriedMeta(p, as_)
    decreases |as_|
  {
    if as_ != [] {
      CleanCarriesMeta(Next(p, as_[0]), as_[1..]);
    }
  }

  /** No thread is between two steps of its own: all wait, serve a request, or have left. */
  predicate Settled(p: Pool) {
    forall t :: 0 <= t < |p.threads| ==> p.threads[t] in {Waiting, Busy, Gone}
  }

  lemma FreeWaits(p: Pool)
    requires Inv(p) && Healthy(p) && p.leaked == 0
    ensures SomeFree(p.threads)
    ensures Settled(p) ==> Waiting in p.threads && p.numWaiters > 0
  {
    WaitersSome(p.threads);
    var t :| 0 <= t < |p.threads| && Free(p.threads[t]);
    assert Settled(p) ==> Counted(p.threads[t]);
  }

  lemma ReachableHealthy(p0: Pool, as_: seq<Action>, p: Pool)
    requires p0 == Initial() && p == Run(p0, as_) && NoneFails(as_)
    ensures Healthy(p) && Inv(p)
    ensures p.leaked == 0 <==> AllCarriedMeta(p0, as_)
  {
    ReachableInv(p0, as_, p);
    RunHealthy(p0, as_);
  }

  /** In every interleaving in which each request carries a meta parameter and nothing fails, the counter is exact and
      some thread is outside the handlers; once every thread has settled, one waits for the next request. */
  lemma NeverAllBusy(p0: Pool, as_: seq<Action>, p: Pool)
    requires p0 == Initial() && p == Run(p0, as_) && Clean(as_)
    ensures p.numWaiters == Waiters(p.threads)
    ensures SomeFree(p.threads)
    ensures Settled(p) ==> Waiting in p.threads && p.numWaiters > 0
  {
    ReachableHealthy(p0, as_, p);
    CleanCarriesMeta(p0, as_);
    FreeWaits(p);
  }

  // ----- exactly when the pool stays live -----

  /** How many steps of its own a thread is from a handler, counting those of a thread it starts on the way. */
  function Distance(place: Place): nat {
    match place
    case Busy => 0
    case Received => 1
    case Waiting => 2
    case Entering => 3
    case Looping => 4
    case Spawned => 5
    case Spawning => 6
    case Alarmed => 7
    case _ => 0
  }

  function Total(threads: seq<Place>): nat {
    if threads == [] then 0 else Distance(threads[|threads| - 1]) + Total(threads[..|threads| - 1])
  }

  lemma {:induction false} TotalUpdate(threads: seq<Place>, t: nat, place: Place)
    requires t < |threads|
    ensures Total(threads[t := place]) == Total(threads) - Distance(threads[t]) + Distance(place)
  {
    var n := |threads| - 1;
    if t == n {
      assert threads[t := place][..n] == threads[..n];
    } else {
      assert threads[t := place][..n] == threads[..n][t := place];
      TotalUpdate(threads[..n], t, place);
    }
  }

  lemma TotalSnoc(threads: seq<Place>, place: Place)
    ensures Total(threads + [place]) == Total(threads) + Distance(place)
  {
    assert (threads + [place])[..|threads|] == threads;
  }

  /** The step that brings thread `t` nearer to a handler. */
  function Approach(place: Place, t: nat): Action {
    match place
    case Received => Dec(t)
    case Waiting => Receive(t, true)
    case Entering => Inc(t)
    case Looping => Enter(t)
    case Spawned => Schedule(t)
    case Spawning => Create(t, true)
    case Alarmed => SpawnInc(t)
    case _ => Finish(t, true)
  }

  /** A waiter that leaked keeps the counter from reaching zero, so nobody starts another thread. */
  lemma NotLast(p: Pool, t: nat)
    requires Inv(p) && p.leaked > 0 && At(p, t, Received)
    ensures p.numWaiters > 1
  {
    assert Counted(p.threads[t]);
    WaitersSome(p.threads);
  }

  /** Where the step takes the thread. */
  function Nearby(place: Place): Place {
    match place
    case Waiting => Received
    case Entering => Waiting
    case Looping => Entering
    case Spawned => Looping
    case Alarmed => Spawning
    case _ => Busy
  }

  lemma ApproachStep(p: Pool, t: nat)
    requires Healthy(p) && t < |p.threads| && p.threads[t] != Busy
    requires At(p, t, Received) ==> p.numWaiters > 1
    ensures var a := Approach(p.threads[t], t);
      && Enabled(p, a) && CarriesMeta(a) && !Fails(a) && Step(p, a).leaked == p.leaked
      && Step(p, a).threads == p.threads[t := Nearby(p.threads[t])] + if a.Create? then [Spawned] else []
  {
  }

  lemma Nearer(p: Pool, t: nat)
    requires Inv(p) && Healthy(p) && p.leaked > 0
    requires t < |p.threads| && p.threads[t] != Busy
    ensures var a := Approach(p.threads[t], t);
      && Enabled(p, a) && CarriesMeta(a) && !Fails(a)
      && Total(Step(p, a).threads) < Total(p.threads)
      && Step(p, a).leaked == p.leaked
  {
    if At(p, t, Received) {
      NotLast(p, t);
    }
    ApproachStep(p, t);
    var threads := p.threads[t := Nearby(p.threads[t])];
    TotalUpdate(p.threads, t, Nearby(p.threads[t]));
    TotalSnoc(threads, Spawned);
    assert threads + [] == threads;
  }

  predicate AllBusy(threads: seq<Place>) {
    forall t :: 0 <= t < |threads| ==> threads[t] == Busy
  }

  /** From there on clean steps alone can put every thread into a handler. */
  lemma {:induction false} Drain(p: Pool) returns (more: seq<Action>)
    requires Inv(p) && Healthy(p) && p.leaked > 0
    ensures Clean(more) && AllBusy(Run(p, more).threads)
    decreases Total(p.threads)
  {
    more := [];
    if !AllBusy(p.threads) {
      var t: nat :| t < |p.threads| && p.threads[t] != Busy;
      var a := Approach(p.threads[t], t);
      Nearer(p, t);
      StepInv(p, a);
      StepHealthy(p, a);
      var rest := Drain(Step(p, a));
      more := [a] + rest;
      assert more[0] == a && more[1..] == rest;
      assert forall i :: 0 < i < |more| ==> more[i] == rest[i - 1];
    }
  }

  /** Whatever clean steps follow, some thread is outside the handlers. */
  ghost predicate StaysLive(p: Pool) {
    forall more: seq<Action> :: Clean(more) ==> SomeFree(Run(p, more).threads)
  }

  lemma LiveWithoutLeak(p: Pool, more: seq<Action>)
    requires Inv(p) && Healthy(p) && p.leaked == 0 && Clean(more)
    ensures SomeFree(Run(p, more).threads)
  {
    RunInv(p, more);
    CleanCarriesMeta(p, more);
    RunHealthy(p, more);
  }

  /** In every interleaving in which nothing fails: the pool stays live, whatever requests with meta parameters follow,
      if and only if no waiter has leaked, that is, if and only if every request so far carried a meta parameter. */
  lemma LiveExactly(p0: Pool, as_: seq<Action>, p: Pool)
    requires p0 == Initial() && p == Run(p0, as_) && NoneFails(as_)
    ensures StaysLive(p) <==> p.leaked == 0
    ensures StaysLive(p) <==> AllCarriedMeta(p0, as_)
  {
    ReachableHealthy(p0, as_, p);
    if p.leaked == 0 {
      forall more: seq<Action> | Clean(more)
        ensures SomeFree(Run(p, more).threads)
      {
        LiveWithoutLeak(p, more);
      }
    } else {
      var more := Drain(p);
      assert !SomeFree(Run(p, more).threads);
    }
  }

  // ----- failures stop the pool -----

  /** The thread is not past the head of its loop. */
  predicate Outside(threads: seq<Place>, t: nat) {
    t < |threads| ==> threads[t] in {Spawned, Looping, Gone}
  }

  lemma StepStaysOutside(p: Pool, a: Action, t: nat)
    requires p.abort && Outside(p.threads, t)
    ensures Next(p, a).abort && Outside(Next(p, a).threads, t) && |Next(p, a).threads| >= |p.threads|
  {
  }

  /** Once the abort flag is up it stays up, and no thread that is not past its loop head, nor one that is only created
      later, ever passes it. */
  lemma {:induction false} AbortStops(p: Pool, more: seq<Action>, t: nat)
    requires p.abort && Outside(p.threads, t)
    ensures Run(p, more).abort && Outside(Run(p, more).threads, t)
    decreases |more|
  {
    if more != [] {
      StepStaysOutside(p, more[0], t);
      AbortStops(Next(p, more[0]), more[1..], t);
    }
  }

  /** A failure has raised the flag, or a thread that met one is on its way to raise it. */
  ghost predicate Failing(p: Pool) {
    p.abort || exists t :: 0 <= t < |p.threads| && p.threads[t] in {Undoing, Quitting}
  }

  /** Some failure really happened in the run. */
  predicate SomethingFailed(p: Pool, as_: seq<Action>)
    decreases |as_|
  {
    as_ != [] && ((Enabled(p, as_[0]) && Fails(as_[0])) || SomethingFailed(Next(p, as_[0]), as_[1..]))
  }

  lemma StepFailing(p: Pool, a: Action)
    ensures Failing(Next(p, a)) <==> Failing(p) || (Enabled(p, a) && Fails(a))
  {
    var p1 := Next(p, a);
    if Enabled(p, a) {
      if Fails(a) || a.Undo? {
        assert p1.threads[a.t] in {Undoing, Quitting};
      } else if !p1.abort && Failing(p) {
        var t :| 0 <= t < |p.threads| && p.threads[t] in {Undoing, Quitting};
        assert p1.threads[t] == p.threads[t];
      }
      if Failing(p1) && !p1.abort {
        var t :| 0 <= t < |p1.threads| && p1.threads[t] in {Undoing, Quitting};
        assert t != a.t && t < |p.threads| ==> p.threads[t] == p1.threads[t];
        assert a.Undo? ==> p.threads[a.t] == Undoing;
      }
      if p1.abort && !p.abort {
        assert p.threads[a.t] == Quitting;
      }
    }
  }

  /** In every interleaving: the flag is up, or about to be raised, if and only if something failed. */
  lemma {:induction false} FailureExactly(p: Pool, as_: seq<Action>)
    ensures Failing(Run(p, as_)) <==> Failing(p) || SomethingFailed(p, as_)
    decreases |as_|
  {
    if as_ != [] {
      StepFailing(p, as_[0]);
      FailureExactly(Next(p, as_[0]), as_[1..]);
    }
  }

  /** The condition on meta parameters is needed: one request without makes the only thread busy. */
  lemma WithoutMetaAllBusy(p0: Pool, as_: seq<Action>)
    requires p0 == Initial() && as_ == [Enter(0), Inc(0), Receive(0, false)]
    ensures Run(p0, as_) == Pool([Busy], 1, false, 1) && !SomeFree(Run(p0, as_).threads)
  {
    var p1 := Step(p0, as_[0]);
    assert p1 == Pool([Entering], 0, false, 0) && as_[1..] == [Inc(0), Receive(0, false)];
    var p2 := Step(p1, as_[1]);
    assert p2 == Pool([Waiting], 1, false, 0) && as_[1..][1..] == [Receive(0, false)];
    assert Step(p2, as_[2]) == Pool([Busy], 1, false, 1);
    assert Run(p2, [as_[2]]) == Step(p2, as_[2]);
    assert Run(p1, as_[1..]) == Run(p2, [as_[2]]);
  }
}
