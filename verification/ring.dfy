/** Fork indexing of the round table: philosopher `id` of `n` eats with fork `id`
    on its left and fork `(id + 1) % n` on its right. */
module Ring {

  /** The left fork of philosopher `id`. */
  function LeftFork(id: nat): nat
  {
    id
  }

  /** The right fork of philosopher `id`: the next fork round the ring. */
  function RightFork(n: nat, id: nat): (f: nat)
    requires n >= 1
    ensures f < n
    ensures id < n ==> f == if id == n - 1 then 0 else id + 1
  {
    (id + 1) % n
  }

  /** The fork a philosopher locks first: the lower-indexed of its two. */
  function FirstFork(n: nat, id: nat): nat
    requires n >= 1
  {
    if LeftFork(id) <= RightFork(n, id) then LeftFork(id) else RightFork(n, id)
  }

  /** The fork a philosopher only tries: the higher-indexed of its two. */
  function SecondFork(n: nat, id: nat): nat
    requires n >= 1
  {
    if LeftFork(id) <= RightFork(n, id) then RightFork(n, id) else LeftFork(id)
  }

  /** Both forks of a seated philosopher are forks of the table, and with at
      least two seats they are two different forks. */
  lemma ForksOfSeat(n: nat, id: nat)
    requires n >= 1 && id < n
    ensures LeftFork(id) < n && RightFork(n, id) < n
    ensures n >= 2 <==> LeftFork(id) != RightFork(n, id)
  {
  }

  /** Global lock order: the first fork is strictly below the second one for
      every seat, including the last seat whose right fork wraps round to 0;
      the two are exactly the philosopher's left and right forks. */
  lemma AscendingOrder(n: nat, id: nat)
    requires n >= 2 && id < n
    ensures FirstFork(n, id) < SecondFork(n, id) < n
    ensures {FirstFork(n, id), SecondFork(n, id)} == {LeftFork(id), RightFork(n, id)}
    ensures id == n - 1 ==> FirstFork(n, id) == 0 && SecondFork(n, id) == n - 1
    ensures id < n - 1 ==> FirstFork(n, id) == id && SecondFork(n, id) == id + 1
  {
  }

  /** The seat to the left of fork `f`'s owner: the philosopher whose right
      fork is `f`. */
  function LeftNeighbour(n: nat, f: nat): (p: nat)
    requires n >= 1 && f < n
    ensures p < n
    ensures RightFork(n, p) == f
  {
    if f == 0 then n - 1 else f - 1
  }

  /** Every fork is contended by exactly two philosophers: it is the left fork
      of philosopher `f` only, and the right fork of philosopher `(f - 1 + n) % n`
      only; with at least two seats those are two different philosophers. */
  lemma Contenders(n: nat, f: nat, p: nat)
    requires n >= 1 && f < n && p < n
    ensures LeftFork(p) == f <==> p == f
    ensures RightFork(n, p) == f <==> p == (f - 1 + n) % n
    ensures n >= 2 ==> f != (f - 1 + n) % n
  {
    var q := LeftNeighbour(n, f);
    assert (f - 1 + n) % n == q by {
      if f == 0 {
        assert f - 1 + n == q;
      } else {
        ModShift(f - 1, n);
      }
    }
    if RightFork(n, p) == f {
      assert p == q;
    }
  }

  /** Adding one lap of the ring does not change a fork index. */
  lemma ModShift(x: nat, n: nat)
    requires x < n
    ensures (x + n) % n == x
  {
    assert (x + n) - 1 * n == x;
  }
}
