/** The table: a ring of `n` forks, each an exclusive lock, and the counter of
    successful `takeForks` calls. Every call is one atomic step. */
module TableModel {
  import opened Ring
  import opened ForkSpec

  class Table {
    /** `philosophersCount`, fixed at construction. */
    const n: nat
    /** One entry per fork: free, or the philosopher that locked it. */
    const forks: array<Owner>
    /** `totalMeals`: successful `takeForks` calls so far. */
    var totalMeals: nat
    /** Ledger: successful `takeForks` calls per philosopher. */
    ghost var acquired: seq<nat>

    ghost predicate Valid()
      reads this, forks
    {
      && forks.Length == n
      && Consistent(forks[..], n)
      && |acquired| == n
      && totalMeals == Sum(acquired)
    }

    /** `Table(philosophersCount)`: `n` free forks and no meals yet. */
    constructor (philosophersCount: nat)
      requires philosophersCount >= 1
      ensures Valid() && fresh(forks)
      ensures n == philosophersCount && totalMeals == 0
      ensures forall f :: 0 <= f < n ==> forks[f] == Free
      ensures forall p :: 0 <= p < n ==> acquired[p] == 0
    {
      n := philosophersCount;
      forks := new Owner[philosophersCount](_ => Free);
      totalMeals := 0;
      acquired := seq(philosophersCount, _ => 0);
      new;
      SumOfZeros(acquired);
    }

    /** `takeForks(id)`: lock the lower-indexed fork (callable only once that
        fork is free: `lock()` blocks until then), then `try_lock` the other;
        on failure unlock the first again. */
    method TakeForks(id: nat) returns (success: bool)
      requires Valid() && id < n
      requires forks[FirstFork(n, id)] == Free
      modifies this, forks
      ensures Valid()
      ensures success == TakeSucceeds(old(forks[..]), n, id)
      ensures forks[..] == AfterTake(old(forks[..]), n, id)
      ensures success ==> HoldsBoth(forks[..], n, id)
      ensures !success ==> HoldsNone(forks[..], id)
      ensures totalMeals == old(totalMeals) + (if success then 1 else 0)
      ensures acquired == if success then old(acquired)[id := old(acquired)[id] + 1]
                          else old(acquired)
    {
      ghost var s := forks[..];
      TakeOutcome(s, n, id);
      TakeKeepsConsistent(s, n, id);
      var left := LeftFork(id);
      var right := RightFork(n, id);
      var first := if left <= right then left else right;
      var second := if left <= right then right else left;
      forks[first] := HeldBy(id);
      if forks[second] == Free {
        forks[second] := HeldBy(id);
        totalMeals := totalMeals + 1;
        SumIncrement(acquired, id);
        acquired := acquired[id := acquired[id] + 1];
        success := true;
      } else {
        forks[first] := Free;
        success := false;
      }
      assert forks[..] == AfterTake(s, n, id);
    }

    /** `releaseForks(id)`: unlock the higher-indexed fork, then the lower one.
        Only the philosopher holding both may call it. */
    method ReleaseForks(id: nat)
      requires Valid() && id < n
      requires HoldsBoth(forks[..], n, id)
      modifies forks
      ensures Valid()
      ensures forks[..] == AfterRelease(old(forks[..]), n, id)
      ensures HoldsNone(forks[..], id)
    {
      ghost var s := forks[..];
      ReleaseKeepsConsistent(s, n, id);
      var left := LeftFork(id);
      var right := RightFork(n, id);
      var first := if left <= right then left else right;
      var second := if left <= right then right else left;
      forks[second] := Free;
      forks[first] := Free;
      assert forks[..] == AfterRelease(s, n, id);
    }

    /** The busy-fork scan of `printStatus`: a fork whose `try_lock` fails is
        busy; a free one is locked and unlocked again, so nothing changes. */
    method BusyForks() returns (busy: nat)
      requires Valid()
      ensures busy == BusyCount(forks[..])
      ensures busy <= n
    {
      busy := 0;
      for i := 0 to n
        invariant busy == BusyCount(forks[..i])
      {
        assert forks[..i + 1][..i] == forks[..i];
        if forks[i] != Free {
          busy := busy + 1;
        }
      }
      assert forks[..n] == forks[..];
    }

    /** `getTotalMeals()`. */
    method GetTotalMeals() returns (meals: nat)
      requires Valid()
      ensures meals == totalMeals == Sum(acquired)
    {
      meals := totalMeals;
    }

    /** `getPhilosophersCount()`. */
    method GetPhilosophersCount() returns (count: nat)
      requires Valid()
      ensures count == n == forks.Length
    {
      count := n;
    }
  }
}
