/** The fork array of the table as a value: who holds each fork, the effect of
    one atomic `takeForks` / `releaseForks` call, the invariants both keep, the
    busy-fork count of the status report, and the meal ledger. */
module ForkSpec {
  import opened Ring

  /** The state of one fork (a mutex): free, or locked by a philosopher. */
  datatype Owner = Free | HeldBy(who: nat)

  /** Philosopher `id` holds both of its forks. */
  predicate HoldsBoth(s: seq<Owner>, n: nat, id: nat)
    requires |s| == n >= 1 && id < n
  {
    s[LeftFork(id)] == HeldBy(id) && s[RightFork(n, id)] == HeldBy(id)
  }

  /** Philosopher `id` holds no fork at all. */
  predicate HoldsNone(s: seq<Owner>, id: nat)
  {
    forall f :: 0 <= f < |s| ==> s[f] != HeldBy(id)
  }

  /** Mutual exclusion on the ring: each fork has at most one holder (one
      owner per slot), and that holder is one of the two philosophers seated
      next to it. */
  ghost predicate MutualExclusion(s: seq<Owner>, n: nat)
  {
    && n >= 1 && |s| == n
    && forall f :: 0 <= f < n && s[f].HeldBy? ==>
         s[f].who < n && (LeftFork(s[f].who) == f || RightFork(n, s[f].who) == f)
  }

  /** Every philosopher holds both of its forks or neither. */
  ghost predicate NoPartialHold(s: seq<Owner>, n: nat)
  {
    && n >= 1 && |s| == n
    && forall p :: 0 <= p < n ==>
         (s[LeftFork(p)] == HeldBy(p) <==> s[RightFork(n, p)] == HeldBy(p))
  }

  /** The invariant of the table between atomic calls. */
  ghost predicate Consistent(s: seq<Owner>, n: nat)
  {
    MutualExclusion(s, n) && NoPartialHold(s, n)
  }

  /** Once the first fork is locked, `try_lock` on the second one succeeds:
      it is another fork and nobody holds it. */
  predicate TakeSucceeds(s: seq<Owner>, n: nat, id: nat)
    requires |s| == n >= 1 && id < n
  {
    FirstFork(n, id) != SecondFork(n, id) && s[SecondFork(n, id)] == Free
  }

  /** The fork array after one `takeForks(id)` call that got past the lock
      of its first fork. */
  function AfterTake(s: seq<Owner>, n: nat, id: nat): seq<Owner>
    requires |s| == n >= 1 && id < n
  {
    if TakeSucceeds(s, n, id)
    then s[FirstFork(n, id) := HeldBy(id)][SecondFork(n, id) := HeldBy(id)]
    else s
  }

  /** The fork array after `releaseForks(id)`: second fork, then first fork. */
  function AfterRelease(s: seq<Owner>, n: nat, id: nat): seq<Owner>
    requires |s| == n >= 1 && id < n
  {
    s[SecondFork(n, id) := Free][FirstFork(n, id) := Free]
  }

  /** Hold-and-wait freedom: a caller that does not hold its own first fork
      holds no fork at all, so the one blocking step of `takeForks`, the lock
      of the first fork, is entered and waited on only while the caller holds
      nothing (the second fork is only tried, never waited for). */
  lemma HoldAndWaitFree(s: seq<Owner>, n: nat, id: nat)
    requires Consistent(s, n) && id < n
    requires s[FirstFork(n, id)] != HeldBy(id)
    ensures HoldsNone(s, id)
  {
    forall f | 0 <= f < |s|
      ensures s[f] != HeldBy(id)
    {
      if s[f] == HeldBy(id) {
        assert false;
      }
    }
  }

  /** What one `takeForks(id)` call does: it succeeds exactly when there are
      two distinct forks and the second is free; on success the caller holds
      both forks and no other fork changes; on failure nothing changes and the
      caller is left holding nothing. */
  lemma TakeOutcome(s: seq<Owner>, n: nat, id: nat)
    requires Consistent(s, n) && id < n
    requires s[FirstFork(n, id)] == Free
    ensures TakeSucceeds(s, n, id) <==> n >= 2 && s[SecondFork(n, id)] == Free
    ensures TakeSucceeds(s, n, id) ==> HoldsBoth(AfterTake(s, n, id), n, id)
    ensures TakeSucceeds(s, n, id) ==>
      forall f :: 0 <= f < n && f != LeftFork(id) && f != RightFork(n, id) ==>
        AfterTake(s, n, id)[f] == s[f]
    ensures !TakeSucceeds(s, n, id) ==>
      AfterTake(s, n, id) == s && HoldsNone(AfterTake(s, n, id), id)
  {
    if n >= 2 {
      AscendingOrder(n, id);
    }
    HoldAndWaitFree(s, n, id);
  }

  /** `takeForks` keeps mutual exclusion and the all-or-nothing holding. */
  lemma TakeKeepsConsistent(s: seq<Owner>, n: nat, id: nat)
    requires Consistent(s, n) && id < n
    requires s[FirstFork(n, id)] == Free
    ensures Consistent(AfterTake(s, n, id), n)
  {
    if TakeSucceeds(s, n, id) {
      AscendingOrder(n, id);
      var t := AfterTake(s, n, id);
      forall p | 0 <= p < n
        ensures t[LeftFork(p)] == HeldBy(p) <==> t[RightFork(n, p)] == HeldBy(p)
      {
        if p != id {
          assert t[LeftFork(p)] == HeldBy(p) <==> s[LeftFork(p)] == HeldBy(p);
          assert t[RightFork(n, p)] == HeldBy(p) <==> s[RightFork(n, p)] == HeldBy(p);
        }
      }
    }
  }

  /** `releaseForks(id)` frees exactly the caller's two forks. */
  lemma ReleaseFrees(s: seq<Owner>, n: nat, id: nat)
    requires |s| == n >= 1 && id < n
    ensures AfterRelease(s, n, id)[LeftFork(id)] == Free
    ensures AfterRelease(s, n, id)[RightFork(n, id)] == Free
    ensures forall f :: 0 <= f < n && f != LeftFork(id) && f != RightFork(n, id) ==>
      AfterRelease(s, n, id)[f] == s[f]
  {
    if n >= 2 {
      AscendingOrder(n, id);
    }
  }

  /** `releaseForks` on a caller holding both forks keeps the invariant and
      leaves the caller holding nothing. */
  lemma ReleaseKeepsConsistent(s: seq<Owner>, n: nat, id: nat)
    requires Consistent(s, n) && id < n
    requires HoldsBoth(s, n, id)
    ensures Consistent(AfterRelease(s, n, id), n)
    ensures HoldsNone(AfterRelease(s, n, id), id)
  {
    var t := AfterRelease(s, n, id);
    ReleaseFrees(s, n, id);
    forall p | 0 <= p < n
      ensures t[LeftFork(p)] == HeldBy(p) <==> t[RightFork(n, p)] == HeldBy(p)
    {
      if p != id {
        assert t[LeftFork(p)] == HeldBy(p) <==> s[LeftFork(p)] == HeldBy(p);
        assert t[RightFork(n, p)] == HeldBy(p) <==> s[RightFork(n, p)] == HeldBy(p);
      }
    }
    forall f | 0 <= f < n
      ensures t[f] != HeldBy(id)
    {
      if f != LeftFork(id) && f != RightFork(n, id) {
        assert t[f] == s[f];
      }
    }
  }

  /** A take or a release by another philosopher never gives philosopher
      `id` a fork. */
  lemma OthersKeepHoldsNone(s: seq<Owner>, n: nat, q: nat, id: nat)
    requires |s| == n >= 1 && q < n && q != id
    requires HoldsNone(s, id)
    ensures HoldsNone(AfterTake(s, n, q), id)
    ensures HoldsNone(AfterRelease(s, n, q), id)
  {
  }

  /** Release symmetry: releasing right after a successful take restores the
      fork array, and taking right after a release restores it too. */
  lemma TakeReleaseRoundTrip(s: seq<Owner>, n: nat, id: nat)
    requires |s| == n >= 1 && id < n
    ensures s[FirstFork(n, id)] == Free && TakeSucceeds(s, n, id) ==>
      AfterRelease(AfterTake(s, n, id), n, id) == s
    ensures n >= 2 && HoldsBoth(s, n, id) ==>
      AfterTake(AfterRelease(s, n, id), n, id) == s
  {
    if n >= 2 {
      AscendingOrder(n, id);
    }
  }

  /** Number of locked forks, the `busyForks` of the status report. */
  function BusyCount(s: seq<Owner>): (k: nat)
    ensures k <= |s|
  {
    if s == [] then 0
    else BusyCount(s[..|s| - 1]) + Indicator(s[|s| - 1])
  }

  /** 1 for a locked fork, 0 for a free one. */
  function Indicator(o: Owner): nat
  {
    if o.HeldBy? then 1 else 0
  }

  /** Changing one fork changes the busy count by the difference of that fork. */
  lemma {:induction false} BusyCountUpdate(s: seq<Owner>, i: nat, o: Owner)
    requires i < |s|
    ensures BusyCount(s[i := o]) + Indicator(s[i]) == BusyCount(s) + Indicator(o)
    decreases |s|
  {
    var t := s[i := o];
    var m := |s| - 1;
    assert t[..m] == if i == m then s[..m] else s[..m][i := o];
    if i < m {
      BusyCountUpdate(s[..m], i, o);
    }
  }

  /** A successful take makes two more forks busy, a failed one none; a
      release makes its forks free again. */
  lemma BusyAfterSteps(s: seq<Owner>, n: nat, id: nat)
    requires |s| == n >= 2 && id < n
    ensures s[FirstFork(n, id)] == Free ==>
      BusyCount(AfterTake(s, n, id)) ==
        BusyCount(s) + (if TakeSucceeds(s, n, id) then 2 else 0)
    ensures HoldsBoth(s, n, id) ==>
      BusyCount(AfterRelease(s, n, id)) + 2 == BusyCount(s)
  {
    AscendingOrder(n, id);
    var a, b := FirstFork(n, id), SecondFork(n, id);
    BusyCountUpdate(s, a, HeldBy(id));
    BusyCountUpdate(s[a := HeldBy(id)], b, HeldBy(id));
    BusyCountUpdate(s, b, Free);
    BusyCountUpdate(s[b := Free], a, Free);
  }

  /** Sum of a sequence of counters. */
  function Sum(xs: seq<nat>): nat
  {
    if xs == [] then 0 else xs[0] + Sum(xs[1..])
  }

  /** Bumping one counter raises the sum by exactly one. */
  lemma {:induction false} SumIncrement(xs: seq<nat>, i: nat)
    requires i < |xs|
    ensures Sum(xs[i := xs[i] + 1]) == Sum(xs) + 1
  {
    if i > 0 {
      assert xs[i := xs[i] + 1][1..] == xs[1..][i - 1 := xs[i] + 1];
      SumIncrement(xs[1..], i - 1);
    }
  }

  /** Sums of counters that are zero everywhere are zero. */
  lemma {:induction false} SumOfZeros(xs: seq<nat>)
    requires forall i :: 0 <= i < |xs| ==> xs[i] == 0
    ensures Sum(xs) == 0
  {
    if xs != [] {
      SumOfZeros(xs[1..]);
    }
  }

  /** Summing is additive over a pointwise sum. */
  lemma {:induction false} SumPointwise(a: seq<nat>, b: seq<nat>, c: seq<nat>)
    requires |a| == |b| == |c|
    requires forall i :: 0 <= i < |a| ==> a[i] == b[i] + c[i]
    ensures Sum(a) == Sum(b) + Sum(c)
  {
    if a != [] {
      SumPointwise(a[1..], b[1..], c[1..]);
    }
  }

  /** One entry per seat: 1 if that philosopher currently holds its forks. */
  function Eating(s: seq<Owner>, n: nat): seq<nat>
    requires |s| == n >= 1
  {
    seq(n, p requires 0 <= p < n => if HoldsBoth(s, n, p) then 1 else 0)
  }

  /** A table whose forks are all free has no busy fork. */
  lemma {:induction false} NoneBusy(s: seq<Owner>)
    requires forall f :: 0 <= f < |s| ==> s[f] == Free
    ensures BusyCount(s) == 0
  {
    if s != [] {
      NoneBusy(s[..|s| - 1]);
    }
  }

  /** The busy-fork count of the status report is twice the number of
      philosophers eating: on a consistent table with at least two forks,
      every locked fork belongs to a philosopher holding both of its forks,
      and two eaters never share a fork. */
  lemma {:induction false} BusyIsTwiceEating(s: seq<Owner>, n: nat)
    requires n >= 2 && Consistent(s, n)
    ensures BusyCount(s) == 2 * Sum(Eating(s, n))
    decreases BusyCount(s)
  {
    if p :| 0 <= p < n && HoldsBoth(s, n, p) {
      var t := AfterRelease(s, n, p);
      ReleaseKeepsConsistent(s, n, p);
      ReleaseFrees(s, n, p);
      BusyAfterSteps(s, n, p);
      BusyIsTwiceEating(t, n);
      var e := Eating(t, n);
      assert e[p] == 0 by {
        assert t[LeftFork(p)] == Free;
      }
      forall q | 0 <= q < n
        ensures e[p := e[p] + 1][q] == Eating(s, n)[q]
      {
        if q != p {
          assert HoldsBoth(t, n, q) == HoldsBoth(s, n, q) by {
            assert t[LeftFork(q)] == HeldBy(q) <==> s[LeftFork(q)] == HeldBy(q);
            assert t[RightFork(n, q)] == HeldBy(q) <==> s[RightFork(n, q)] == HeldBy(q);
          }
        }
      }
      assert e[p := e[p] + 1] == Eating(s, n);
      SumIncrement(e, p);
    } else {
      forall f | 0 <= f < n
        ensures s[f] == Free
      {
        if s[f].HeldBy? {
          assert HoldsBoth(s, n, s[f].who);
          assert false;
        }
      }
      NoneBusy(s);
      SumOfZeros(Eating(s, n));
    }
  }

  /** Conservation of meals: if every philosopher's count of successful
      `takeForks` calls is its finished meals plus one while it still holds its
      forks, the total of successful calls is the total of finished meals plus
      the number of philosophers eating now; once every fork is free the two
      totals are equal. */
  lemma Conservation(acquired: seq<nat>, meals: seq<nat>, s: seq<Owner>, n: nat)
    requires |s| == n >= 1 && |acquired| == n && |meals| == n
    requires forall p :: 0 <= p < n ==>
      acquired[p] == meals[p] + (if HoldsBoth(s, n, p) then 1 else 0)
    ensures Sum(acquired) == Sum(meals) + Sum(Eating(s, n))
    ensures (forall f :: 0 <= f < n ==> s[f] == Free) ==> Sum(acquired) == Sum(meals)
  {
    var e := Eating(s, n);
    SumPointwise(acquired, meals, e);
    if forall f :: 0 <= f < n ==> s[f] == Free {
      forall p | 0 <= p < n
        ensures e[p] == 0
      {
        assert s[LeftFork(p)] == Free;
      }
      SumOfZeros(e);
    }
  }
}
