/** The car filter: a sequential order-preserving filter over an index range,
    and the split of the input into one chunk per thread. Each chunk's
    filtering plus its append to the shared result is one atomic step (it
    runs under the result mutex); the order in which the chunks append is an
    input. */
module CarProcessing {
  import opened CarModel

  /** The index range `[start, end)` handed to one thread. */
  datatype Range = Range(start: nat, end: nat)

  function Min(a: nat, b: nat): nat
  {
    if a <= b then a else b
  }

  /** `chunkSize = cars.size() / numThreads`. */
  function ChunkSize(size: nat, numThreads: nat): nat
    requires numThreads >= 1
  {
    size / numThreads
  }

  /** The range of thread `i`: it starts at `i * chunkSize`; the last thread
      runs to the end of the input. */
  function Chunk(size: nat, numThreads: nat, i: nat): Range
    requires numThreads >= 1
  {
    var start := i * ChunkSize(size, numThreads);
    Range(start, if i == numThreads - 1 then size else start + ChunkSize(size, numThreads))
  }

  /** The ranges of the threads actually launched (those whose start lies
      inside the input), in launch order. */
  function Launched(size: nat, numThreads: nat, upTo: nat): seq<Range>
    requires numThreads >= 1
  {
    if upTo == 0 then []
    else Launched(size, numThreads, upTo - 1) +
         (if Chunk(size, numThreads, upTo - 1).start < size
          then [Chunk(size, numThreads, upTo - 1)] else [])
  }

  /** `i * c <= j * c` for `i <= j`. */
  lemma MulMono(i: nat, j: nat, c: nat)
    requires i <= j
    ensures i * c <= j * c
  {
    assert j * c == i * c + (j - i) * c;
  }

  /** The chunks tile `[0, size)`: the first starts at 0, each ends where the
      next starts, the last ends at `size`, and none is reversed. */
  lemma {:induction false} ChunksTile(size: nat, numThreads: nat)
    requires numThreads >= 1
    ensures Chunk(size, numThreads, 0).start == 0
    ensures Chunk(size, numThreads, numThreads - 1).end == size
    ensures forall i :: 0 <= i < numThreads - 1 ==>
      Chunk(size, numThreads, i).end == Chunk(size, numThreads, i + 1).start
    ensures forall i :: 0 <= i < numThreads ==>
      Chunk(size, numThreads, i).start <= Chunk(size, numThreads, i).end <= size
  {
    var c := ChunkSize(size, numThreads);
    assert numThreads * c <= size;
    forall i | 0 <= i < numThreads - 1
      ensures Chunk(size, numThreads, i).end == Chunk(size, numThreads, i + 1).start
    {
      assert (i + 1) * c == i * c + c;
    }
    forall i | 0 <= i < numThreads
      ensures Chunk(size, numThreads, i).start <= Chunk(size, numThreads, i).end <= size
    {
      MulMono(i + 1, numThreads, c);
      MulMono(i, numThreads - 1, c);
      assert (i + 1) * c == i * c + c;
      assert (numThreads - 1) * c + c == numThreads * c;
    }
  }

  /** Distinct chunks are disjoint: an earlier chunk ends before a later one
      starts. */
  lemma ChunksDisjoint(size: nat, numThreads: nat, i: nat, j: nat)
    requires numThreads >= 1 && i < j < numThreads
    ensures Chunk(size, numThreads, i).end <= Chunk(size, numThreads, j).start
  {
    var c := ChunkSize(size, numThreads);
    MulMono(i + 1, j, c);
    assert (i + 1) * c == i * c + c;
  }

  /** The chunk that holds index `x`: every index of the input lies in one. */
  function ChunkOf(size: nat, numThreads: nat, x: nat): (i: nat)
    requires numThreads >= 1 && x < size
    ensures i < numThreads
    ensures Chunk(size, numThreads, i).start <= x < Chunk(size, numThreads, i).end
  {
    var c := ChunkSize(size, numThreads);
    if c == 0 || x / c >= numThreads - 1 then
      assert c > 0 ==> (numThreads - 1) * c <= (x / c) * c <= x by {
        if c > 0 {
          MulMono(numThreads - 1, x / c, c);
        }
      }
      numThreads - 1
    else
      assert (x / c) * c <= x < (x / c) * c + c;
      x / c
  }

  /** With fewer cars than threads the chunk size is 0: every thread but the
      last gets the empty range `[0, 0)`, the last gets `[0, size)`. */
  lemma SmallInput(size: nat, numThreads: nat, i: nat)
    requires 1 <= numThreads && size < numThreads && i < numThreads
    ensures ChunkSize(size, numThreads) == 0
    ensures Chunk(size, numThreads, i) == if i == numThreads - 1 then Range(0, size) else Range(0, 0)
  {
  }

  /** With at least one car, every thread's range starts inside the input. */
  lemma StartInside(size: nat, numThreads: nat, i: nat)
    requires numThreads >= 1 && 0 < size && i < numThreads
    ensures Chunk(size, numThreads, i).start < size
  {
    var c := ChunkSize(size, numThreads);
    MulMono(i, numThreads - 1, c);
    assert (numThreads - 1) * c + c == numThreads * c <= size;
  }

  /** The ranges of the first `upTo` threads. */
  function Chunks(size: nat, numThreads: nat, upTo: nat): seq<Range>
    requires numThreads >= 1
  {
    seq(upTo, i requires 0 <= i < upTo => Chunk(size, numThreads, i))
  }

  /** Every thread is launched when there is at least one car, none when the
      input is empty. */
  lemma {:induction false} AllLaunched(size: nat, numThreads: nat, upTo: nat)
    requires numThreads >= 1 && upTo <= numThreads
    ensures Launched(size, numThreads, upTo) ==
      if size == 0 then [] else Chunks(size, numThreads, upTo)
  {
    if upTo > 0 {
      AllLaunched(size, numThreads, upTo - 1);
      if size > 0 {
        StartInside(size, numThreads, upTo - 1);
        var rs := Chunks(size, numThreads, upTo);
        assert rs == Chunks(size, numThreads, upTo - 1) + [Chunk(size, numThreads, upTo - 1)];
      }
    }
  }

  /** `0, 1, ..., m - 1`: the launch order of `m` threads. */
  function Iota(m: nat): seq<nat>
  {
    seq(m, j => j)
  }

  /** The piece appended by the thread with index `k` (nothing for an index
      that names no thread). */
  function Piece<T>(pieces: seq<seq<T>>, k: nat): seq<T>
  {
    if k < |pieces| then pieces[k] else []
  }

  /** What the threads append, one after another, in the order `order` of
      their indices. */
  function Concat<T>(pieces: seq<seq<T>>, order: seq<nat>): seq<T>
  {
    if order == [] then []
    else Concat(pieces, order[..|order| - 1]) + Piece(pieces, order[|order| - 1])
  }

  lemma {:induction false} ConcatAppend<T>(pieces: seq<seq<T>>, a: seq<nat>, b: seq<nat>)
    ensures Concat(pieces, a + b) == Concat(pieces, a) + Concat(pieces, b)
    decreases |b|
  {
    if b == [] {
      assert a + b == a;
    } else {
      var m := |b| - 1;
      var ab := a + b;
      assert ab[..|ab| - 1] == a + b[..m];
      assert ab[|ab| - 1] == b[m];
      assert Concat(pieces, ab) == Concat(pieces, a + b[..m]) + Piece(pieces, b[m]);
      assert Concat(pieces, b) == Concat(pieces, b[..m]) + Piece(pieces, b[m]);
      ConcatAppend(pieces, a, b[..m]);
    }
  }

  /** Two orders naming the same threads: the last thread of the first
      occurs at some position `p` of the second, and what is left of each
      once that thread is taken out still names the same threads. */
  lemma MatchLast(o1: seq<nat>, o2: seq<nat>) returns (p: nat)
    requires multiset(o1) == multiset(o2) && o1 != []
    ensures p < |o2| && o2[p] == o1[|o1| - 1]
    ensures o1 == o1[..|o1| - 1] + [o2[p]]
    ensures o2 == o2[..p] + [o2[p]] + o2[p + 1..]
    ensures multiset(o1[..|o1| - 1]) == multiset(o2[..p] + o2[p + 1..])
  {
    var m := |o1| - 1;
    assert o1 == o1[..m] + [o1[m]];
    assert o1[m] in multiset(o2);
    p :| 0 <= p < |o2| && o2[p] == o1[m];
    assert o2 == o2[..p] + [o2[p]] + o2[p + 1..];
    calc {
      multiset(o1[..m]);
      multiset(o1) - multiset{o1[m]};
      multiset(o2) - multiset{o2[p]};
      multiset(o2[..p] + o2[p + 1..]);
    }
  }

  /** Concatenating around one thread in the middle of an order. */
  lemma ConcatAround<T>(pieces: seq<seq<T>>, pre: seq<nat>, x: nat, post: seq<nat>)
    ensures Concat(pieces, pre + [x] + post) ==
            Concat(pieces, pre) + Piece(pieces, x) + Concat(pieces, post)
    ensures Concat(pieces, pre + post) == Concat(pieces, pre) + Concat(pieces, post)
  {
    ConcatAppend(pieces, pre + [x], post);
    ConcatAppend(pieces, pre, [x]);
    ConcatAppend(pieces, pre, post);
    assert [x][..0] == [];
  }

  /** The appends commute up to order: two append orders that name the same
      threads give the same elements, counted with multiplicity. */
  lemma {:induction false} ConcatPermutation<T>(pieces: seq<seq<T>>, o1: seq<nat>, o2: seq<nat>)
    requires multiset(o1) == multiset(o2)
    ensures multiset(Concat(pieces, o1)) == multiset(Concat(pieces, o2))
    decreases |o1|
  {
    if o1 == [] {
      assert |o2| == |multiset(o2)| == 0;
    } else {
      var p := MatchLast(o1, o2);
      var init, x, pre, post := o1[..|o1| - 1], o2[p], o2[..p], o2[p + 1..];
      ConcatPermutation(pieces, init, pre + post);
      ConcatAround(pieces, pre, x, post);
      var a, b, c := Concat(pieces, pre), Piece(pieces, x), Concat(pieces, post);
      assert Concat(pieces, o1) == Concat(pieces, init) + b;
      calc {
        multiset(Concat(pieces, o1));
        multiset(Concat(pieces, init)) + multiset(b);
        multiset(a + c) + multiset(b);
        multiset(a + b + c);
      }
    }
  }

  /** `CarProcessor`: the input cars and the four bounds, fixed at construction. */
  datatype CarProcessor = CarProcessor(cars: seq<Car>, minPrice: int, maxPrice: int,
                                       maxMileage: int, minYear: int)
  {
    /** The selection test with the processor's own bounds. */
    predicate Selects(c: Car)
    {
      c.MatchesCriteria(minPrice, maxPrice, maxMileage, minYear)
    }

    /** The order-preserving filter, the reference for every method below. */
    function Filter(s: seq<Car>): (r: seq<Car>)
      ensures |r| <= |s|
    {
      if s == [] then []
      else Filter(s[..|s| - 1]) + (if Selects(s[|s| - 1]) then [s[|s| - 1]] else [])
    }

    /** The input cars with index in `[start, min(end, size))`; empty when
        `start` is not below that bound. */
    function Slice(start: nat, end: nat): seq<Car>
    {
      if start < Min(end, |cars|) then cars[start..Min(end, |cars|)] else []
    }

    /** The filter distributes over concatenation. */
    lemma {:induction false} FilterAppend(a: seq<Car>, b: seq<Car>)
      ensures Filter(a + b) == Filter(a) + Filter(b)
      decreases |b|
    {
      if b == [] {
        assert a + b == a;
      } else {
        var m := |b| - 1;
        assert (a + b)[..|a + b| - 1] == a + b[..m];
        assert (a + b)[|a + b| - 1] == b[m];
        FilterAppend(a, b[..m]);
      }
    }

    /** The filter keeps every selected car as often as it occurs and drops
        every other car. */
    lemma {:induction false} FilterCounts(s: seq<Car>, c: Car)
      ensures multiset(Filter(s))[c] == if Selects(c) then multiset(s)[c] else 0
      decreases |s|
    {
      if s != [] {
        var m := |s| - 1;
        assert s == s[..m] + [s[m]];
        FilterCounts(s[..m], c);
      }
    }

    /** Filtering adjacent ranges one after the other is filtering their union. */
    lemma FilterSlices(lo: nat, mid: nat, hi: nat)
      requires lo <= mid <= hi <= |cars|
      ensures Filter(Slice(lo, hi)) == Filter(Slice(lo, mid)) + Filter(Slice(mid, hi))
    {
      assert Slice(lo, hi) == Slice(lo, mid) + Slice(mid, hi);
      FilterAppend(Slice(lo, mid), Slice(mid, hi));
    }

    /** The filter of a single car keeps it exactly when it is selected. */
    lemma FilterOne(c: Car)
      ensures Filter([c]) == if Selects(c) then [c] else []
    {
      assert [c][..0] == [];
    }

    /** One more index of the range adds that car when it is selected. */
    lemma FilterExtend(start: nat, i: nat)
      requires start <= i < |cars|
      ensures Filter(Slice(start, i + 1)) ==
              Filter(Slice(start, i)) + if Selects(cars[i]) then [cars[i]] else []
    {
      FilterSlices(start, i, i + 1);
      assert Slice(i, i + 1) == [cars[i]];
      FilterOne(cars[i]);
    }

    /** `processChunk(start, end, result)`: filter the cars of the range into
        a local vector, then append it after the existing contents. */
    method ProcessChunk(start: nat, end: nat, result: seq<Car>) returns (out: seq<Car>)
      ensures out == result + Filter(Slice(start, end))
      ensures Min(end, |cars|) <= start ==> out == result
    {
      var local: seq<Car> := [];
      var i := start;
      while i < end && i < |cars|
        invariant start <= i
        invariant i == start || i <= Min(end, |cars|)
        invariant local == Filter(Slice(start, i))
        decreases |cars| - i
      {
        FilterExtend(start, i);
        if Selects(cars[i]) {
          local := local + [cars[i]];
        }
        i := i + 1;
      }
      assert start < Min(end, |cars|) ==> i == Min(end, |cars|);
      assert Slice(start, i) == Slice(start, end);
      out := result + local;
    }

    /** `processSingleThread()`: one chunk over the whole input. */
    method ProcessSingleThread() returns (result: seq<Car>)
      ensures result == Filter(cars)
      ensures |result| <= |cars|
    {
      result := ProcessChunk(0, |cars|, []);
      assert Slice(0, |cars|) == cars;
    }

    /** The filtered cars of each range, by range index. */
    function Pieces(ranges: seq<Range>): seq<seq<Car>>
    {
      seq(|ranges|, k requires 0 <= k < |ranges| => Filter(Slice(ranges[k].start, ranges[k].end)))
    }

    /** Appending the chunks in index order gives the filter of the prefix of
        the input the chunks cover so far. */
    lemma {:induction false} ConcatPrefix(numThreads: nat, upTo: nat)
      requires 1 <= numThreads && 1 <= upTo <= numThreads
      ensures
        var all := Chunks(|cars|, numThreads, numThreads);
        Concat(Pieces(all), Iota(upTo)) == Filter(Slice(0, Chunk(|cars|, numThreads, upTo - 1).end))
    {
      var all := Chunks(|cars|, numThreads, numThreads);
      ChunksTile(|cars|, numThreads);
      var r := Chunk(|cars|, numThreads, upTo - 1);
      assert Iota(upTo)[..upTo - 1] == Iota(upTo - 1);
      assert Piece(Pieces(all), upTo - 1) == Filter(Slice(r.start, r.end));
      if upTo == 1 {
        assert Concat(Pieces(all), Iota(0)) == [];
      } else {
        ConcatPrefix(numThreads, upTo - 1);
        var mid := Chunk(|cars|, numThreads, upTo - 2).end;
        assert mid == r.start;
        FilterSlices(0, r.start, r.end);
      }
    }

    /** The whole input is the concatenation of the chunks in launch order. */
    lemma InOrderIsFilter(numThreads: nat)
      requires numThreads >= 1
      ensures Concat(Pieces(Launched(|cars|, numThreads, numThreads)),
                      Iota(|Launched(|cars|, numThreads, numThreads)|)) == Filter(cars)
    {
      AllLaunched(|cars|, numThreads, numThreads);
      if |cars| > 0 {
        ChunksTile(|cars|, numThreads);
        ConcatPrefix(numThreads, numThreads);
        assert Slice(0, |cars|) == cars;
      } else {
        assert Concat(Pieces([]), Iota(0)) == [];
      }
    }

    /** Whatever order the launched threads append in, the result holds the
        cars of the single-pass filter; in launch order it is that filter. */
    lemma AnyCompletionOrder(numThreads: nat, completion: seq<nat>)
      requires numThreads >= 1
      requires multiset(completion) ==
               multiset(Iota(|Launched(|cars|, numThreads, numThreads)|))
      ensures var threads := Launched(|cars|, numThreads, numThreads);
        multiset(Concat(Pieces(threads), completion)) == multiset(Filter(cars)) &&
        (completion == Iota(|completion|) ==> Concat(Pieces(threads), completion) == Filter(cars))
    {
      var threads := Launched(|cars|, numThreads, numThreads);
      InOrderIsFilter(numThreads);
      ConcatPermutation(Pieces(threads), completion, Iota(|threads|));
      if completion == Iota(|completion|) {
        assert |completion| == |multiset(completion)| == |threads|;
      }
    }

    /** `processMultiThread(numThreads)`: compute the range of every thread,
        launch those whose start lies inside the input, and let each append
        its filtered chunk atomically; `completion` is the order in which the
        launched threads take the result mutex, a permutation of their launch
        indices. The result holds the same cars as the single-pass filter, and
        is equal to it when the chunks append in launch order. */
    method ProcessMultiThread(numThreads: nat, completion: seq<nat>) returns (result: seq<Car>)
      requires numThreads >= 1
      requires multiset(completion) ==
               multiset(Iota(|Launched(|cars|, numThreads, numThreads)|))
      ensures multiset(result) == multiset(Filter(cars))
      ensures |result| == |Filter(cars)|
      ensures completion == Iota(|completion|) ==> result == Filter(cars)
    {
      var chunkSize := |cars| / numThreads;
      var threads: seq<Range> := [];
      for i := 0 to numThreads
        invariant threads == Launched(|cars|, numThreads, i)
      {
        var start := i * chunkSize;
        var end := if i == numThreads - 1 then |cars| else start + chunkSize;
        if start < |cars| {
          threads := threads + [Range(start, end)];
        }
      }
      result := [];
      for j := 0 to |completion|
        invariant result == Concat(Pieces(threads), completion[..j])
      {
        assert completion[..j + 1][..j] == completion[..j];
        assert completion[j] in multiset(Iota(|threads|));
        var r := threads[completion[j]];
        assert Piece(Pieces(threads), completion[j]) == Filter(Slice(r.start, r.end));
        result := ProcessChunk(r.start, r.end, result);
      }
      assert completion[..|completion|] == completion;
      AnyCompletionOrder(numThreads, completion);
      assert |result| == |multiset(result)| == |multiset(Filter(cars))| == |Filter(cars)|;
    }
  }
}
