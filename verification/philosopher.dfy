/** A philosopher: `live()` cycles think -> bounded retry of `takeForks` ->
    eat -> count the meal -> `releaseForks`, polling its `running` flag.
    The clock, the random durations and the other philosophers come in as
    inputs; each table call is one atomic step. */
module PhilosopherModel {
  import opened Ring
  import opened ForkSpec
  import opened TableModel

  /** `MAX_ATTEMPTS`: failed `takeForks` calls allowed per cycle. */
  const MaxAttempts: nat := 10
  /** Length of one sleep slice of `think()` and `eat()`, in ms. */
  const SliceMs: nat := 100

  /** A table call completed by another philosopher while this one sleeps
      between attempts. */
  datatype Move = TakeBy(who: nat) | ReleaseBy(who: nat)

  /** What one iteration of `live()` receives from outside its own code. */
  datatype Cycle = Cycle(
    thinkTime: int,           // draw of `thinkDist`, in [1000, 3000]
    thinkElapsed: nat,        // steady-clock time around the think slices, ms
    waitElapsed: nat,         // steady-clock time around the retry loop, ms
    eatTime: int,             // draw of `eatDist`, in [1000, 2000]
    eatElapsed: nat,          // steady-clock time around the eat slices, ms
    rivals: seq<seq<Move>>)   // rivals[k]: other philosophers' calls before attempt k

  /** The random draws lie in the ranges of the two distributions. */
  predicate WellFormed(c: Cycle)
  {
    1000 <= c.thinkTime <= 3000 && 1000 <= c.eatTime <= 2000
  }

  /** Number of 100 ms slices a phase of `time` ms is cut into. */
  function Steps(time: int): (k: nat)
    requires 1000 <= time <= 3000
    ensures 10 <= k <= 30
    ensures k * SliceMs <= time < (k + 1) * SliceMs
  {
    time / SliceMs
  }

  /** No move of `moves` is a `takeForks` call by philosopher `r`. */
  predicate NoTakeBy(moves: seq<Move>, r: nat)
  {
    forall k :: 0 <= k < |moves| ==> moves[k] != TakeBy(r)
  }

  /** No rival move before any attempt is a `takeForks` call by `r`. */
  predicate NoRivalTakeBy(rivals: seq<seq<Move>>, r: nat)
  {
    forall k :: 0 <= k < |rivals| ==> NoTakeBy(rivals[k], r)
  }

  /** No rival move in any iteration is a `takeForks` call by `r`. */
  predicate NoCycleTakeBy(cycles: seq<Cycle>, r: nat)
  {
    forall k :: 0 <= k < |cycles| ==> NoRivalTakeBy(cycles[k].rivals, r)
  }

  /** Seat `r`, if it held no fork in fork array `s0`, still holds none in
      `s1`, and its count of successful calls is the same in both ledgers. */
  ghost predicate SeatKept(s0: seq<Owner>, a0: seq<nat>, s1: seq<Owner>, a1: seq<nat>, r: nat)
  {
    r < |a0| && r < |a1| && HoldsNone(s0, r) ==> HoldsNone(s1, r) && a1[r] == a0[r]
  }

  /** A `takeForks` history with `failures` failed calls and no success. */
  function Failures(failures: nat): seq<bool>
  {
    seq(failures, _ => false)
  }

  class Philosopher {
    const id: nat
    const table: Table
    var mealsEaten: nat
    var thinkingTime: nat
    var eatingTime: nat
    var waitingTime: nat
    /** The atomic flag polled by `live()`, `think()` and `eat()`. */
    var running: bool
    /** Number of `releaseForks` calls made by this philosopher. */
    ghost var releases: nat

    /** Between iterations of `live()`: the table is consistent, this
        philosopher holds no fork, and each of its successful `takeForks`
        calls has been turned into exactly one meal and one release. */
    ghost predicate Idle()
      reads this, table, table.forks
    {
      && table.Valid() && id < table.n
      && HoldsNone(table.forks[..], id)
      && table.acquired[id] == mealsEaten == releases
    }

    /** Between a successful `takeForks` and the meal count: this philosopher
        holds both forks and has one successful call not yet counted. */
    ghost predicate HoldingForks()
      reads this, table, table.forks
    {
      && table.Valid() && id < table.n
      && HoldsBoth(table.forks[..], table.n, id)
      && table.acquired[id] == mealsEaten + 1 && releases == mealsEaten
    }

    /** `Philosopher(id, table)`: zero statistics and `running` true. */
    constructor (id: nat, table: Table)
      ensures this.id == id && this.table == table
      ensures mealsEaten == 0 && thinkingTime == 0 && eatingTime == 0 && waitingTime == 0
      ensures running && releases == 0
    {
      this.id := id;
      this.table := table;
      mealsEaten, thinkingTime, eatingTime, waitingTime := 0, 0, 0, 0;
      running := true;
      releases := 0;
    }

    /** `start()`: raises the flag (the thread that runs `live()` is left out). */
    method Start()
      modifies this`running
      ensures running
    {
      running := true;
    }

    /** `stop()`: lowers the flag. */
    method Stop()
      modifies this`running
      ensures !running
    {
      running := false;
    }

    /** One read of `running`, the read numbered `polls` since `live()` began.
        The controller's `stop()` lands just before read number `stopAt`. */
    method ReadRunning(stopAt: nat, polls: nat) returns (r: bool)
      modifies this`running
      ensures running == (old(running) && polls < stopAt)
      ensures r == running
    {
      if polls >= stopAt {
        Stop();
      }
      r := running;
    }

    /** The sliced sleep of `think()` and `eat()`: at most `steps` sleeps of
        100 ms, each after a read of `running` that must still be true. */
    method SleepSlices(steps: nat, stopAt: nat, polls0: nat) returns (slices: nat, polls: nat)
      requires running && polls0 <= stopAt
      modifies this`running
      ensures slices <= steps && polls >= polls0
      ensures running ==> slices == steps && polls <= stopAt
      ensures slices < steps ==> !running
    {
      slices, polls := 0, polls0;
      while slices < steps
        invariant slices <= steps && polls >= polls0
        invariant running ==> polls <= stopAt
        invariant slices > 0 ==> polls > polls0
        decreases steps - slices
      {
        var go := ReadRunning(stopAt, polls);
        polls := polls + 1;
        if !go {
          break;
        }
        slices := slices + 1;
      }
    }

    /** `think()`: nothing at all once `running` is false; otherwise up to
        `thinkTime / 100` slices, and the elapsed time is added only if
        `running` still holds at the end. */
    method Think(thinkTime: int, elapsed: nat, stopAt: nat, polls0: nat)
      returns (slices: nat, polls: nat)
      requires 1000 <= thinkTime <= 3000
      requires running ==> polls0 <= stopAt
      modifies this`running, this`thinkingTime
      ensures polls > polls0
      ensures running ==> old(running) && polls <= stopAt
      ensures !old(running) ==> slices == 0 && thinkingTime == old(thinkingTime)
      ensures slices <= Steps(thinkTime) <= 30
      ensures running ==> slices == Steps(thinkTime)
      ensures thinkingTime == old(thinkingTime) + (if running then elapsed else 0)
    {
      var go := ReadRunning(stopAt, polls0);
      polls := polls0 + 1;
      if !go {
        return 0, polls;
      }
      slices, polls := SleepSlices(Steps(thinkTime), stopAt, polls);
      go := ReadRunning(stopAt, polls);
      polls := polls + 1;
      if go {
        thinkingTime := thinkingTime + elapsed;
      }
    }

    /** `eat()`: the same shape as `think()` over `eatTime / 100` slices;
        it never touches the table. */
    method Eat(eatTime: int, elapsed: nat, stopAt: nat, polls0: nat)
      returns (slices: nat, polls: nat)
      requires 1000 <= eatTime <= 2000
      requires running ==> polls0 <= stopAt
      modifies this`running, this`eatingTime
      ensures polls > polls0
      ensures running ==> old(running) && polls <= stopAt
      ensures !old(running) ==> slices == 0 && eatingTime == old(eatingTime)
      ensures slices <= Steps(eatTime) <= 20
      ensures running ==> slices == Steps(eatTime)
      ensures eatingTime == old(eatingTime) + (if running then elapsed else 0)
    {
      var go := ReadRunning(stopAt, polls0);
      polls := polls0 + 1;
      if !go {
        return 0, polls;
      }
      slices, polls := SleepSlices(Steps(eatTime), stopAt, polls);
      go := ReadRunning(stopAt, polls);
      polls := polls + 1;
      if go {
        eatingTime := eatingTime + elapsed;
      }
    }

    /** Other philosophers' table calls, each made only when the real call
        would proceed: a take whose first fork is free, a release by a
        philosopher that holds both its forks. None of them touches a fork of
        this philosopher, which holds none. */
    method LetOthersRun(moves: seq<Move>)
      requires Idle()
      modifies table, table.forks
      ensures Idle()
      ensures forall r :: r != id && NoTakeBy(moves, r) ==>
        SeatKept(old(table.forks[..]), old(table.acquired), table.forks[..], table.acquired, r)
    {
      for i := 0 to |moves|
        invariant Idle()
        invariant forall r :: r != id && NoTakeBy(moves, r) ==>
          SeatKept(old(table.forks[..]), old(table.acquired), table.forks[..], table.acquired, r)
      {
        ghost var s, a := table.forks[..], table.acquired;
        OtherMove(moves[i]);
        forall r | r != id && NoTakeBy(moves, r)
          ensures SeatKept(old(table.forks[..]), old(table.acquired), table.forks[..], table.acquired, r)
        {
          assert moves[i] != TakeBy(r);
          assert SeatKept(s, a, table.forks[..], table.acquired, r);
        }
      }
    }

    /** One call by another philosopher, skipped when it would block. */
    method OtherMove(m: Move)
      requires Idle()
      modifies table, table.forks
      ensures Idle()
      ensures forall r :: r != id && m != TakeBy(r) ==>
        SeatKept(old(table.forks[..]), old(table.acquired), table.forks[..], table.acquired, r)
    {
      ghost var s := table.forks[..];
      match m
      case TakeBy(q) =>
        if q != id && q < table.n && table.forks[FirstFork(table.n, q)] == Free {
          forall r | r != q && HoldsNone(s, r)
            ensures HoldsNone(AfterTake(s, table.n, q), r)
          {
            OthersKeepHoldsNone(s, table.n, q, r);
          }
          var _ := table.TakeForks(q);
        }
      case ReleaseBy(q) =>
        if q != id && q < table.n && HoldsBoth(table.forks[..], table.n, q) {
          forall r | r != q && HoldsNone(s, r)
            ensures HoldsNone(AfterRelease(s, table.n, q), r)
          {
            OthersKeepHoldsNone(s, table.n, q, r);
          }
          table.ReleaseForks(q);
        }
    }

    /** The blocking `lock()` of the first fork: if a neighbour holds it, the
        call returns only after that neighbour's `releaseForks`. */
    method WaitForFirstFork()
      requires Idle()
      modifies table, table.forks
      ensures Idle()
      ensures table.forks[FirstFork(table.n, id)] == Free
      ensures forall r :: r != id ==>
        SeatKept(old(table.forks[..]), old(table.acquired), table.forks[..], table.acquired, r)
    {
      var first := FirstFork(table.n, id);
      match table.forks[first]
      case Free =>
      case HeldBy(h) =>
        ghost var s := table.forks[..];
        assert h < table.n && h != id;
        assert LeftFork(h) == first || RightFork(table.n, h) == first;
        ReleaseFrees(s, table.n, h);
        forall r | r != h && HoldsNone(s, r)
          ensures HoldsNone(AfterRelease(s, table.n, h), r)
        {
          OthersKeepHoldsNone(s, table.n, h, r);
        }
        table.ReleaseForks(h);
    }

    /** One `takeForks(id)` call of the retry loop, after the other
        philosophers' `moves` and the wait on the first fork. */
    method Attempt(moves: seq<Move>) returns (success: bool)
      requires Idle()
      modifies table, table.forks
      ensures success ==> HoldingForks()
      ensures !success ==> Idle()
      ensures forall r :: r != id && NoTakeBy(moves, r) ==>
        SeatKept(old(table.forks[..]), old(table.acquired), table.forks[..], table.acquired, r)
    {
      LetOthersRun(moves);
      ghost var s1, a1 := table.forks[..], table.acquired;
      WaitForFirstFork();
      ghost var s2, a2 := table.forks[..], table.acquired;
      forall r | r != id && HoldsNone(s2, r)
        ensures HoldsNone(AfterTake(s2, table.n, id), r)
      {
        OthersKeepHoldsNone(s2, table.n, id, r);
      }
      success := table.TakeForks(id);
      forall r | r != id && NoTakeBy(moves, r)
        ensures SeatKept(old(table.forks[..]), old(table.acquired), table.forks[..], table.acquired, r)
      {
        assert SeatKept(old(table.forks[..]), old(table.acquired), s1, a1, r);
        assert SeatKept(s1, a1, s2, a2, r);
      }
    }

    /** The retry loop of `live()`: while no success, `running` still reads
        true and fewer than `MAX_ATTEMPTS` calls failed, call `takeForks`;
        after a failure, poll `running` once more before the back-off sleep.
        `history` lists the outcomes of the calls made, in order. */
    method AcquireForks(rivals: seq<seq<Move>>, stopAt: nat, polls0: nat)
      returns (success: bool, attempts: nat, polls: nat, ghost history: seq<bool>)
      requires Idle()
      requires running ==> polls0 <= stopAt
      modifies this`running, table, table.forks
      ensures polls >= polls0
      ensures running ==> old(running) && polls <= stopAt
      ensures attempts <= MaxAttempts && |history| <= MaxAttempts
      ensures history == Failures(attempts) + (if success then [true] else [])
      ensures !success ==> Idle() && (attempts == MaxAttempts || !running)
      ensures success ==> running && HoldingForks()
      ensures table.acquired[id] == old(table.acquired[id]) + (if success then 1 else 0)
      ensures forall r :: r != id && NoRivalTakeBy(rivals, r) ==>
        SeatKept(old(table.forks[..]), old(table.acquired), table.forks[..], table.acquired, r)
    {
      success, attempts, polls, history := false, 0, polls0, [];
      var looping := true;
      while looping
        invariant attempts <= MaxAttempts && polls >= polls0
        invariant running ==> old(running) && polls <= stopAt
        invariant history == Failures(attempts) + (if success then [true] else [])
        invariant mealsEaten == old(mealsEaten) && releases == old(releases)
        invariant !success ==> Idle()
        invariant !success && !looping ==> attempts == MaxAttempts || !running
        invariant success ==> !looping && running && HoldingForks() && attempts < MaxAttempts
        invariant forall r :: r != id && NoRivalTakeBy(rivals, r) ==>
          SeatKept(old(table.forks[..]), old(table.acquired), table.forks[..], table.acquired, r)
        decreases MaxAttempts - attempts, looping
      {
        var go := ReadRunning(stopAt, polls);
        polls := polls + 1;
        if !go || attempts >= MaxAttempts {
          looping := false;
        } else {
          var moves := if attempts < |rivals| then rivals[attempts] else [];
          ghost var s, a := table.forks[..], table.acquired;
          success := Attempt(moves);
          forall r | r != id && NoRivalTakeBy(rivals, r)
            ensures SeatKept(old(table.forks[..]), old(table.acquired), table.forks[..], table.acquired, r)
          {
            assert NoTakeBy(moves, r);
            assert SeatKept(s, a, table.forks[..], table.acquired, r);
          }
          history := history + [success];
          if success {
            looping := false;
          } else {
            attempts := attempts + 1;
            go := ReadRunning(stopAt, polls);
            polls := polls + 1;
          }
        }
      }
    }

    /** One pass of the body of `while (running)` in `live()`, entered after a
        read of `running` returned true. `stopped` is the `break` taken when
        `running` is false after thinking. At most one meal is eaten, and it is
        counted and followed by exactly one `releaseForks` even when `running`
        drops before or during `eat()`; the philosopher ends holding nothing. */
    method LiveIteration(c: Cycle, stopAt: nat, polls0: nat)
      returns (ate: bool, stopped: bool, attempts: nat, polls: nat)
      requires Idle() && WellFormed(c)
      requires running && polls0 <= stopAt
      modifies this, table, table.forks
      ensures Idle()
      ensures polls > polls0
      ensures running ==> polls <= stopAt
      ensures stopped ==> !running && !ate && attempts == 0 && waitingTime == old(waitingTime)
      ensures ate ==> !stopped
      ensures attempts <= MaxAttempts
      ensures mealsEaten == old(mealsEaten) + (if ate then 1 else 0)
      ensures releases == old(releases) + (if ate then 1 else 0)
      ensures table.acquired[id] == old(table.acquired[id]) + (if ate then 1 else 0)
      ensures thinkingTime >= old(thinkingTime) && eatingTime >= old(eatingTime)
      ensures waitingTime >= old(waitingTime)
      ensures forall r :: r != id && NoRivalTakeBy(c.rivals, r) ==>
        SeatKept(old(table.forks[..]), old(table.acquired), table.forks[..], table.acquired, r)
    {
      var thinkSlices;
      thinkSlices, polls := Think(c.thinkTime, c.thinkElapsed, stopAt, polls0);
      var go := ReadRunning(stopAt, polls);
      polls := polls + 1;
      if !go {
        return false, true, 0, polls;
      }
      stopped := false;
      ghost var history;
      ate, attempts, polls, history := AcquireForks(c.rivals, stopAt, polls);
      waitingTime := waitingTime + c.waitElapsed;
      if ate {
        var eatSlices;
        eatSlices, polls := Eat(c.eatTime, c.eatElapsed, stopAt, polls);
        mealsEaten := mealsEaten + 1;
        ghost var s1, a1 := table.forks[..], table.acquired;
        forall r | r != id && HoldsNone(s1, r)
          ensures HoldsNone(AfterRelease(s1, table.n, id), r)
        {
          OthersKeepHoldsNone(s1, table.n, id, r);
        }
        table.ReleaseForks(id);
        releases := releases + 1;
        forall r | r != id && NoRivalTakeBy(c.rivals, r)
          ensures SeatKept(old(table.forks[..]), old(table.acquired), table.forks[..], table.acquired, r)
        {
          assert SeatKept(old(table.forks[..]), old(table.acquired), s1, a1, r);
        }
      }
      go := ReadRunning(stopAt, polls);
      polls := polls + 1;
    }

    /** `live()`: iterations run while `running` reads true; the controller's
        `stop()` lands before read `stopAt`, so no iteration begins after it.
        `cycles[k]` feeds iteration k. */
    method Live(cycles: seq<Cycle>, stopAt: nat) returns (iterations: nat)
      requires Idle() && running
      requires stopAt <= |cycles|
      requires forall k :: 0 <= k < |cycles| ==> WellFormed(cycles[k])
      modifies this, table, table.forks
      ensures Idle() && !running
      ensures iterations <= stopAt
      ensures iterations == 0 <==> stopAt == 0
      ensures old(mealsEaten) <= mealsEaten <= old(mealsEaten) + iterations
      ensures mealsEaten - old(mealsEaten) == table.acquired[id] - old(table.acquired[id])
      ensures thinkingTime >= old(thinkingTime) && eatingTime >= old(eatingTime)
      ensures waitingTime >= old(waitingTime)
      ensures forall r :: r != id && NoCycleTakeBy(cycles, r) ==>
        SeatKept(old(table.forks[..]), old(table.acquired), table.forks[..], table.acquired, r)
    {
      var polls := 0;
      iterations := 0;
      var go := ReadRunning(stopAt, polls);
      polls := polls + 1;
      while go
        invariant Idle() && go == running
        invariant go ==> polls <= stopAt
        invariant iterations < polls && iterations <= stopAt
        invariant stopAt > 0 ==> iterations > 0 || go
        invariant old(mealsEaten) <= mealsEaten <= old(mealsEaten) + iterations
        invariant mealsEaten - old(mealsEaten) == table.acquired[id] - old(table.acquired[id])
        invariant thinkingTime >= old(thinkingTime) && eatingTime >= old(eatingTime)
        invariant waitingTime >= old(waitingTime)
        invariant forall r :: r != id && NoCycleTakeBy(cycles, r) ==>
          SeatKept(old(table.forks[..]), old(table.acquired), table.forks[..], table.acquired, r)
        decreases stopAt - polls
      {
        var ate, stopped, attempts;
        ghost var s, a := table.forks[..], table.acquired;
        ate, stopped, attempts, polls := LiveIteration(cycles[iterations], stopAt, polls);
        forall r | r != id && NoCycleTakeBy(cycles, r)
          ensures SeatKept(old(table.forks[..]), old(table.acquired), table.forks[..], table.acquired, r)
        {
          assert NoRivalTakeBy(cycles[iterations].rivals, r);
          assert SeatKept(s, a, table.forks[..], table.acquired, r);
        }
        iterations := iterations + 1;
        if stopped {
          go := false;
        } else {
          go := ReadRunning(stopAt, polls);
          polls := polls + 1;
        }
      }
    }
  }

  /** Meal counters of a row of philosophers, by seat. */
  ghost function MealsOf(ps: seq<Philosopher>): seq<nat>
    reads set i | 0 <= i < |ps| :: ps[i]
  {
    seq(|ps|, i reads ps requires 0 <= i < |ps| => ps[i].mealsEaten)
  }

  /** Conservation: with philosopher i in seat i, each having turned every
      successful `takeForks` into a meal except possibly the one it is eating
      now, the table's `totalMeals` is the sum of `mealsEaten` plus the number
      of philosophers eating; once all of them are between iterations, it is
      exactly the sum of `mealsEaten`. */
  lemma TableConservation(table: Table, ps: seq<Philosopher>)
    requires table.Valid() && |ps| == table.n
    requires forall i :: 0 <= i < |ps| ==> ps[i].table == table && ps[i].id == i
    requires forall i :: 0 <= i < |ps| ==>
      table.acquired[i] == ps[i].mealsEaten +
        (if HoldsBoth(table.forks[..], table.n, i) then 1 else 0)
    ensures table.totalMeals == Sum(MealsOf(ps)) + Sum(Eating(table.forks[..], table.n))
    ensures (forall i :: 0 <= i < |ps| ==> ps[i].Idle()) ==>
      table.totalMeals == Sum(MealsOf(ps))
  {
    var s := table.forks[..];
    Conservation(table.acquired, MealsOf(ps), s, table.n);
    if forall i :: 0 <= i < |ps| ==> ps[i].Idle() {
      forall f | 0 <= f < table.n
        ensures s[f] == Free
      {
        if s[f].HeldBy? {
          SeatHoldsNothing(table, ps, s[f].who);
          assert false;
        }
      }
    }
  }

  /** A philosopher between iterations holds no fork. */
  lemma SeatHoldsNothing(table: Table, ps: seq<Philosopher>, h: nat)
    requires forall i :: 0 <= i < |ps| ==> ps[i].table == table && ps[i].id == i
    requires forall i :: 0 <= i < |ps| ==> ps[i].Idle()
    requires h < |ps|
    ensures HoldsNone(table.forks[..], h)
  {
    assert ps[h].Idle();
  }

  /** Conservation at quiescence: once every philosopher, seated by its id, is
      between iterations, the table's `totalMeals` is exactly the sum of all
      `mealsEaten`. */
  lemma QuiescentConservation(table: Table, ps: seq<Philosopher>)
    requires table.Valid() && |ps| == table.n
    requires forall i :: 0 <= i < |ps| ==> ps[i].table == table && ps[i].id == i
    requires forall i :: 0 <= i < |ps| ==> ps[i].Idle()
    ensures table.totalMeals == Sum(MealsOf(ps))
  {
    forall i | 0 <= i < |ps|
      ensures table.acquired[i] == ps[i].mealsEaten +
        (if HoldsBoth(table.forks[..], table.n, i) then 1 else 0)
    {
      assert ps[i].Idle();
      assert table.forks[..][LeftFork(i)] != HeldBy(i);
    }
    TableConservation(table, ps);
  }

  /** A whole run of the table, with each philosopher's `live()` run to its
      stop in turn: philosopher `i` is fed `runs[i]` and stopped before read
      `stops[i]`, and no rival move of its run takes forks for another seat.
      Every philosopher ends between iterations and stopped, and the table's
      `totalMeals` is exactly the sum of all `mealsEaten`. */
  method RunInTurn(table: Table, ps: seq<Philosopher>, runs: seq<seq<Cycle>>, stops: seq<nat>)
    requires table.Valid() && |ps| == table.n && |runs| == |ps| && |stops| == |ps|
    requires forall i :: 0 <= i < |ps| ==> ps[i].table == table && ps[i].id == i
    requires forall i :: 0 <= i < |ps| ==> ps[i].Idle() && ps[i].running
    requires forall i :: 0 <= i < |ps| ==> stops[i] <= |runs[i]|
    requires forall i, k :: 0 <= i < |ps| && 0 <= k < |runs[i]| ==> WellFormed(runs[i][k])
    requires forall i, r :: 0 <= i < |ps| && 0 <= r < |ps| && r != i ==> NoCycleTakeBy(runs[i], r)
    modifies table, table.forks, set i | 0 <= i < |ps| :: ps[i]
    ensures forall i :: 0 <= i < |ps| ==> ps[i].Idle() && !ps[i].running
    ensures table.totalMeals == Sum(MealsOf(ps))
  {
    for i := 0 to |ps|
      invariant table.Valid()
      invariant forall j :: 0 <= j < |ps| ==> ps[j].Idle()
      invariant forall j :: i <= j < |ps| ==> ps[j].running
      invariant forall j :: 0 <= j < i ==> !ps[j].running
    {
      label before:
      ghost var s, a := table.forks[..], table.acquired;
      var _ := ps[i].Live(runs[i], stops[i]);
      forall j | 0 <= j < |ps| && j != i
        ensures ps[j].Idle()
      {
        assert old@before(ps[j].Idle());
        assert SeatKept(s, a, table.forks[..], table.acquired, j);
      }
    }
    QuiescentConservation(table, ps);
  }
}
