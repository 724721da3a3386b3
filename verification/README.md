# Dining philosophers and a chunked car filter, in Dafny

This project models two C++ concurrency exercises. It proves their
sequential core: what each atomic step does to the shared state, and what
stays true across steps.

- **The fork table.**
  - A round table holds `n` forks, each an exclusive lock. Philosopher `id` uses fork `id` on its left and fork `(id + 1) % n` on its right.
  - `takeForks` locks the lower-indexed of its two forks, then only *tries* the higher one. If the try fails, it unlocks the first fork again.
  - A successful call bumps the table's `totalMeals`. `releaseForks` unlocks the higher fork, then the lower one.
  - Modules: `Ring` (fork indexing), `ForkSpec` (the fork array as a value, with the effect of each call) and `TableModel` (the `Table` class over an array of fork owners).
- **The philosopher cycle.** `live()` repeats:
  - think, in 100 ms slices that stop early once `running` is false;
  - up to `MAX_ATTEMPTS = 10` failed `takeForks` calls;
  - eat;
  - count the meal;
  - `releaseForks`.

  Module `PhilosopherModel` models it as the `Philosopher` class.
- **The car filter.**
  - `matchesCriteria` is a range test on price, mileage and year (module `CarModel`).
  - `processChunk` filters an index range in order and appends the result to an output vector.
  - `processSingleThread` runs one chunk over the whole input.
  - `processMultiThread` cuts `[0, size)` into `numThreads` chunks of `size / numThreads` cars. The last chunk takes the remainder.

  Module `CarProcessing` covers these.

Concurrency is modelled with each table call and each chunk's append as one atomic step:

- **Other philosophers.** Their table calls between two attempts of this philosopher are an input (`Cycle.rivals`). A call that would block is skipped.
- **The blocking lock.** The blocking `lock()` of the first fork is a precondition of `Table.TakeForks`: that fork is free. Inside the retry loop, waiting on it is modelled by its holder's `releaseForks`. A holder always releases: it holds both its forks, and its own eating ends with a release.
- **The controller's `stop()`.** It is the index `stopAt` of the read of `running` before which it lands. Reads are counted from the start of `live()`.
- **Clock and random draws.** The random draws (`thinkTime`, `eatTime`) and the measured durations are inputs. The draws lie in the distributions' ranges.
- **Append order in `processMultiThread`.** The order in which the threads take the result mutex is an input permutation (`completion`).

A ghost ledger `Table.acquired` records each philosopher's successful `takeForks` calls. The table keeps `totalMeals` equal to its sum. Each philosopher keeps its own entry equal to `mealsEaten` between iterations. Each table step keeps every other seat that holds no fork, and that no rival move takes forks for, fork-less with its entry unchanged. Together these give the conservation of meals for a run of all philosophers (`RunInTurn`).

## Model

| member | source | states |
|---|---|---|
| Ring.LeftFork | philosopher/table.h:19 | the left fork of philosopher `id` is fork `id` |
| Ring.RightFork | philosopher/table.h:20 | the right fork is a fork of the table (`< n`); it is `id + 1`, or `0` for the last seat |
| Ring.FirstFork | philosopher/table.cpp:13 | the fork locked first: the lower of the left and right forks |
| Ring.SecondFork | philosopher/table.cpp:14 | the fork only tried: the higher of the left and right forks |
| Ring.ForksOfSeat | philosopher/table.h:19-20 | both forks of a seat are valid fork indices, and they are distinct exactly when `n >= 2` |
| Ring.AscendingOrder | philosopher/table.cpp:10-14 | for `n >= 2` the first fork locked is strictly below the second, the two are exactly the left and right forks, and the last seat locks fork 0 first |
| Ring.LeftNeighbour | philosopher/table.h:20 | every fork is the right fork of some seat |
| Ring.Contenders | philosopher/table.h:19-20 | fork `f` is the left fork of philosopher `f` only and the right fork of philosopher `(f - 1 + n) % n` only; with `n >= 2` these two differ |
| ForkSpec.TakeSucceeds | philosopher/table.cpp:16-19 | after the lock of the first fork, the `try_lock` of the second succeeds: it is another fork and it is free |
| ForkSpec.AfterTake | philosopher/table.cpp:9-28 | the fork array after `takeForks`: both forks held by the caller on success, unchanged on failure (first fork unlocked again) |
| ForkSpec.AfterRelease | philosopher/table.cpp:30-40 | the fork array after `releaseForks`: the second fork, then the first, set free |
| ForkSpec.HoldAndWaitFree | philosopher/table.cpp:16-19 | a caller that does not hold its own first fork holds no fork at all, so the one blocking step of `takeForks`, locking the first fork, is entered and waited on only while the caller holds nothing |
| ForkSpec.TakeOutcome | philosopher/table.cpp:16-27 | the call succeeds exactly when `n >= 2` and the second fork is free; on success the caller holds both forks and no other fork changes; on failure the fork array is unchanged and the caller holds nothing |
| ForkSpec.TakeKeepsConsistent | philosopher/table.cpp:16-27 | `takeForks` keeps mutual exclusion (one holder per fork, always a neighbour) and all-or-nothing holding |
| ForkSpec.ReleaseFrees | philosopher/table.cpp:30-40 | `releaseForks` frees the caller's two forks and changes no other fork |
| ForkSpec.ReleaseKeepsConsistent | philosopher/table.cpp:30-40 | release by a caller holding both forks keeps the invariant and leaves the caller holding nothing |
| ForkSpec.OthersKeepHoldsNone | philosopher/table.cpp:9-40 | another philosopher's take or release never gives a fork to a philosopher that holds none |
| ForkSpec.TakeReleaseRoundTrip | philosopher/table.cpp:9-40 | release right after a successful take restores the fork array, and so does take right after a release |
| ForkSpec.BusyCount | philosopher/table.cpp:49-59 | the number of busy forks is at most the number of forks |
| ForkSpec.BusyCountUpdate | philosopher/table.cpp:49-59 | changing one fork changes the busy count by the difference of that fork alone |
| ForkSpec.BusyAfterSteps | philosopher/table.cpp:9-40 | a successful take adds two busy forks, a failed one none; a release removes two |
| ForkSpec.SumIncrement | philosopher/table.cpp:21 | bumping one philosopher's count raises the total by exactly one |
| ForkSpec.SumOfZeros | philosopher/table.cpp:7 | all-zero counts sum to zero |
| ForkSpec.SumPointwise | philosopher/philosopher.cpp:64 | the sum of pointwise-added counts is the sum of the sums |
| ForkSpec.NoneBusy | philosopher/table.cpp:49-59 | with every fork free the status scan counts no busy fork |
| ForkSpec.BusyIsTwiceEating | philosopher/table.cpp:49-59 | on a consistent table with at least two forks the busy-fork count is exactly twice the number of philosophers holding both forks |
| ForkSpec.Conservation | philosopher/table.cpp:21 | successful calls total the finished meals plus the philosophers eating now; with every fork free the totals are equal |
| TableModel.Table.constructor | philosopher/table.cpp:7 | `n` forks, all free, `totalMeals == 0`, an all-zero ledger, invariant established |
| TableModel.Table.TakeForks | philosopher/table.cpp:9-28 | the new fork array is `AfterTake` of the old one, success is `TakeSucceeds`, the caller holds both forks or none, `totalMeals` and the caller's ledger entry rise by 1 exactly on success, invariant kept |
| TableModel.Table.ReleaseForks | philosopher/table.cpp:30-40 | the new fork array is `AfterRelease` of the old one, the caller holds nothing, `totalMeals` unchanged, invariant kept |
| TableModel.Table.BusyForks | philosopher/table.cpp:49-61 | the scan counts exactly the locked forks, at most `n`, and changes nothing |
| TableModel.Table.GetTotalMeals | philosopher/table.h:22 | returns `totalMeals`, which equals the sum of the ledger |
| TableModel.Table.GetPhilosophersCount | philosopher/table.h:23 | returns `n`, the number of forks |
| PhilosopherModel.Steps | philosopher/philosopher.cpp:85 | `thinkTime / 100` for a draw in `[1000, 3000]` lies in `[10, 30]` and is the whole number of 100 ms slices in the draw |
| PhilosopherModel.Philosopher.constructor | philosopher/philosopher.cpp:6-9 | zero statistics, `running` true |
| PhilosopherModel.Philosopher.Start | philosopher/philosopher.cpp:18-21 | `running` becomes true |
| PhilosopherModel.Philosopher.Stop | philosopher/philosopher.cpp:23-25 | `running` becomes false |
| PhilosopherModel.Philosopher.ReadRunning | philosopher/philosopher.cpp:34 | a read of `running` sees false from the controller's stop on, and the flag never comes back |
| PhilosopherModel.Philosopher.SleepSlices | philosopher/philosopher.cpp:85-88 | at most `steps` slices; all of them while `running` holds; fewer only once it is false |
| PhilosopherModel.Philosopher.Think | philosopher/philosopher.cpp:77-95 | nothing happens if `running` is already false; at most `thinkTime / 100 <= 30` slices, all of them while running; `thinkingTime` grows by the elapsed time only if `running` still holds at the end |
| PhilosopherModel.Philosopher.Eat | philosopher/philosopher.cpp:97-120 | the same for eating, with at most `eatTime / 100 <= 20` slices; the table is not touched |
| PhilosopherModel.Philosopher.LetOthersRun | philosopher/philosopher.cpp:47-55 | other philosophers' calls during the back-off keep the table consistent and never give this philosopher a fork; every other seat that held no fork and that no move takes forks for still holds none, with its count of successful calls unchanged |
| PhilosopherModel.Philosopher.OtherMove | philosopher/table.cpp:9-40 | one other philosopher's call keeps the table consistent and this philosopher fork-less; every other fork-less seat except the one the call takes forks for stays fork-less with its count of successful calls unchanged |
| PhilosopherModel.Philosopher.WaitForFirstFork | philosopher/table.cpp:16 | the blocking lock returns with the first fork free, the invariant kept and this philosopher still holding nothing; every other fork-less seat stays fork-less with its count unchanged |
| PhilosopherModel.Philosopher.Attempt | philosopher/philosopher.cpp:48 | one `takeForks` call: on success the philosopher holds both forks with one meal not yet counted, on failure it holds nothing; every other fork-less seat that no move takes forks for stays fork-less with its count unchanged |
| PhilosopherModel.Philosopher.AcquireForks | philosopher/philosopher.cpp:41-56 | at most 10 failed calls; the calls made are `attempts` failures followed by one success if any, so the loop stops at the first success; failure means 10 failures or `running` false; success means both forks held and the ledger entry up by one; every other fork-less seat that no rival takes forks for stays fork-less with its count unchanged |
| PhilosopherModel.Philosopher.LiveIteration | philosopher/philosopher.cpp:34-73 | `mealsEaten`, the releases and the successful calls each rise by exactly the same 0 or 1, even when `running` drops before or during `eat`; the philosopher ends holding no fork; a stop after thinking takes the `break`; statistics never decrease; every other fork-less seat that no rival takes forks for stays fork-less with its count unchanged |
| PhilosopherModel.Philosopher.Live | philosopher/philosopher.cpp:33-75 | ends with `running` false and no fork held; iterations begin only on reads of `running` before the stop: none when the stop precedes the first read, otherwise at least one and at most `stopAt`; at most one meal per iteration; meals equal successful calls; statistics never decrease; every other fork-less seat that no rival takes forks for stays fork-less with its count unchanged |
| PhilosopherModel.TableConservation | philosopher/table.cpp:21 | `totalMeals` is the sum of all `mealsEaten` plus the number of philosophers eating; once every philosopher is between iterations it is exactly the sum of all `mealsEaten` |
| PhilosopherModel.QuiescentConservation | philosopher/table.cpp:21 | once every philosopher is between iterations, `totalMeals` is exactly the sum of all `mealsEaten`; `RunInTurn` reaches that state |
| PhilosopherModel.RunInTurn | philosopher/main.cpp:145-198 | after every philosopher has run `live()` to its stop, each is between iterations and stopped, and `totalMeals` equals the sum of all `mealsEaten` |
| PhilosopherModel.SeatHoldsNothing | philosopher/philosopher.cpp:61-68 | a philosopher between iterations holds no fork |
| CarModel.Car.MatchesCriteria | task2/car.h:16-18 | the price lies in `[minPrice, maxPrice]`, the mileage is at most `maxMileage` and the year at least `minYear` |
| CarModel.EmptyPriceRange | task2/car.h:16-18 | with `minPrice > maxPrice` no car matches |
| CarModel.Loosening | task2/car.h:16-18 | lowering `minPrice` or `minYear`, or raising `maxPrice` or `maxMileage`, never turns a match into a non-match |
| CarProcessing.ChunkSize | task2/car_processor.cpp:39 | `chunkSize` is `size / numThreads`, rounded down |
| CarProcessing.Chunk | task2/car_processor.cpp:43-44 | thread `i` gets `[i * chunkSize, i * chunkSize + chunkSize)`, the last thread `[i * chunkSize, size)` |
| CarProcessing.Launched | task2/car_processor.cpp:42-50 | the ranges of the threads started, in index order: those whose start lies below `size` |
| CarProcessing.ChunksTile | task2/car_processor.cpp:39-44 | chunk 0 starts at 0, each chunk ends where the next starts, the last ends at `size`, and every chunk lies inside `[0, size]` |
| CarProcessing.ChunksDisjoint | task2/car_processor.cpp:42-44 | an earlier chunk ends before a later one starts |
| CarProcessing.ChunkOf | task2/car_processor.cpp:42-44 | every index of the input lies in some chunk |
| CarProcessing.SmallInput | task2/car_processor.cpp:39-44 | with fewer cars than threads `chunkSize` is 0, every chunk but the last is `[0, 0)`, and the last is `[0, size)` |
| CarProcessing.StartInside | task2/car_processor.cpp:43-46 | with at least one car every chunk starts inside the input |
| CarProcessing.AllLaunched | task2/car_processor.cpp:42-50 | with at least one car every thread is launched in index order; with none, no thread is |
| CarProcessing.ConcatAppend | task2/car_processor.cpp:22-23 | appending after two orders in turn is appending after their concatenation |
| CarProcessing.MatchLast | task2/car_processor.cpp:53-57 | the thread that appends last in one order appears in any other order naming the same threads, and the remaining orders still name the same threads |
| CarProcessing.ConcatAround | task2/car_processor.cpp:22-23 | appending around one thread in the middle of an order |
| CarProcessing.ConcatPermutation | task2/car_processor.cpp:22-23 | two append orders of the same threads give the same cars with the same multiplicities |
| CarProcessing.CarProcessor.Slice | task2/car_processor.cpp:15 | the cars with index in `[start, min(end, size))`, none when `start` is not below that bound |
| CarProcessing.CarProcessor.Filter | task2/car_processor.cpp:15-19 | the filter keeps at most as many cars as it is given |
| CarProcessing.CarProcessor.FilterAppend | task2/car_processor.cpp:15-19 | the filter distributes over concatenation |
| CarProcessing.CarProcessor.FilterCounts | task2/car_processor.cpp:15-19 | the filter keeps every matching car as often as it occurs and drops every other car |
| CarProcessing.CarProcessor.FilterSlices | task2/car_processor.cpp:15 | filtering two adjacent ranges in turn is filtering their union |
| CarProcessing.CarProcessor.FilterOne | task2/car_processor.cpp:16-17 | a single car is kept exactly when it matches |
| CarProcessing.CarProcessor.FilterExtend | task2/car_processor.cpp:15-18 | one more index adds that car exactly when it matches |
| CarProcessing.CarProcessor.ProcessChunk | task2/car_processor.cpp:11-24 | appends, after the unchanged existing contents, exactly the matching cars with index in `[start, min(end, size))`, in index order; nothing when `start >= min(end, size)` |
| CarProcessing.CarProcessor.ProcessSingleThread | task2/car_processor.cpp:27-31 | returns the order-preserving filter of all cars, no longer than the input |
| CarProcessing.CarProcessor.ConcatPrefix | task2/car_processor.cpp:42-50 | appending the first `k` chunks in index order filters the prefix of the input they cover |
| CarProcessing.CarProcessor.InOrderIsFilter | task2/car_processor.cpp:42-59 | appending every launched chunk in launch order gives the single-pass filter |
| CarProcessing.CarProcessor.AnyCompletionOrder | task2/car_processor.cpp:42-59 | in any order of the launched threads the result has the same cars as the single-pass filter; in launch order it is that filter |
| CarProcessing.CarProcessor.ProcessMultiThread | task2/car_processor.cpp:34-60 | the result is a permutation of the single-pass filter, of the same length, and equal to it when the chunks append in launch order |

## Left out

- Threads, `join`, `sleep_for`, the atomics' memory ordering and the `lock_guard` on `resultMutex` are not modelled. Each table call and each chunk's filter-and-append is one atomic step. Interleavings beyond that, and liveness, are not modelled.
- The philosopher thread started by `start()` is not modelled. `Live` is the body that thread runs. The destructor and `join()` are not modelled either.
- `steady_clock` and `mt19937` with `uniform_int_distribution` are not modelled. Their values are inputs (`Cycle`).
- The elapsed times are not tied to the number of slices slept.
- Console output is not modelled: the messages of `eat()`, all of `printStatus` except its busy-fork count, and `Car::printInfo`.
- `Table::stop` is not modelled: it is empty.
- The `main.cpp` programs and the `sync_test` benchmarks are not part of this model.
- `TableModel.Table.TakeForks`: the blocking `lock()` is a precondition that the first fork is free, not a wait.
- `TableModel.Table.TakeForks`: `try_lock` of the second fork is modelled without spurious failure. In C++ it may return false on a free mutex; the model fails only when the fork is held.
- `ForkSpec.TakeOutcome`: for the same reason, "succeeds exactly when the second fork is free" holds for a `try_lock` without spurious failure. The C++ only promises "succeeds only if it is free".
- `TableModel.Table.BusyForks`: the `try_lock` probe of the status scan is modelled without spurious failure. In C++ a free fork may be counted as busy, so the real count is only at least the number of locked forks.
- With `n == 1` both forks are fork 0, and `try_lock` on a mutex the caller already owns is undefined behaviour in C++. The model treats that call as failing.
- The philosopher count is any `n >= 1`. The driver's range `[3, 50]` is not required.
- `Table(0)` is not modelled: `rightFork` would divide by zero.
- `CarProcessing.CarProcessor.ProcessMultiThread`: `numThreads >= 1` is required. With 0 the C++ divides by zero.
- `CarProcessing.CarProcessor.ProcessMultiThread`: the append order is an input permutation of the launched threads. The concurrent filtering of the chunks before each append is folded into the append.
- `int`, `long long` and `size_t` are unbounded integers. Overflow of `totalMeals`, `mealsEaten` and the time counters is not modelled, nor is overflow of `i * chunkSize`.
- `PhilosopherModel.RunInTurn`: the philosophers run `live()` one after another, not interleaved. Inside one run, other philosophers appear only as rival moves, which do not update their `Philosopher` objects. A rival take followed by a rival release raises `totalMeals` with no meal, so conservation at the end is proved only for runs whose rival moves take forks for no other seat.
- `PhilosopherModel.TableConservation`: its premise with some philosophers in the middle of a meal is assumed, not reached. No modelled run interleaves several philosophers' iterations, and `RunInTurn` reaches only the state where all are between iterations.
- `PhilosopherModel.Philosopher.Live`: the thinking, eating and waiting times are only shown not to decrease. Their totals are not summed over the whole run.
- `Car`'s constructor is the datatype constructor.
- The filter works on an immutable `seq<Car>`, so the input cars cannot be modified.
- Comparing the single-thread and multi-thread result sizes is the driver's job and is not modelled. The equality itself is proved.
