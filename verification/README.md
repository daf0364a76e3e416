# ChunkGenerator core in Dafny

This project models the chunk-generation core of the ChunkGenerator
PocketMine plugin (`Loader.php`). The core has four parts, and each has a
module:

- **`Enumerator`** models `betweenPoints`. It enumerates every chunk of the
  rectangle `[x1, x2] x [z1, z2]` in nine interleaved passes, one per pair of
  residues modulo 3. It uses PHP's truncating `%` and the `(v % 3 + 3) % 3`
  correction for negative coordinates. Pass `3 * offset_x + offset_z` runs
  its rows in increasing z and each row in increasing x. It also has `generateChunksBetween`'s
  count formula `(1 + (x2 - x1)) * (1 + (z2 - z1))`.
- **`Scheduler`** models `generateChunks`. It is a sliding window of at most
  `n_batch` population requests. Each loop iteration is one pure `Step` on a
  `Window` record:
  - it receives one completion and tallies it as a success or a failure;
  - it admits the next point if the source has one and the world is still
    loaded;
  - it yields one `[completed, count(failed), count]` snapshot;
  - it runs the retry branch only when that iteration leaves no request in
    flight (`$i === 0`), the retry flag is still set, and at least one
    request has failed.

  Two logs record everything the code does: every request made
  (`dispatched`) and every completion received (`received`).
- **`Reporter`** models `generateAndReport`. This is the integer state queue:
  - 0 is the first advance, which catches validation errors;
  - 1 delivers the pending message;
  - 2 advances the traverser;
  - 3 builds a throttled progress message.

  Each state does exactly what the PHP does, including the exceptions the
  code can raise. A second definition, `Settle`, is written without the
  queue. `ReportMatchesExpected` proves that the queue delivers exactly what
  `Settle` prescribes.
- **`Pipeline`** connects the three parts end to end:
  `generateChunksBetween` → `generateChunks` → traverser → `generateAndReport`.

`Common` holds the shared vocabulary: points, snapshots, validation errors,
and the traverser's view of a run (`Run`). A `Run` is the snapshots yielded,
followed by how the generator ended: it returned, it threw, or it is still
waiting on its channel.

**The retry branch.** The comment at `Loader.php:121` says failed requests are
retried once. The code does not do that:
- the branch fires only when `$i === 0`;
- the `while($i > 0)` loop then exits;
- so the `ArrayIterator` of failures that the branch swaps in is never read.

The model follows the code. `Scheduler.RetryBranchEndsLoop` proves that once
the branch has run, the loop is over and no completion can be received. As a
result, no failed chunk is ever requested again, and a failed chunk stays
counted in the last snapshot's `failed`. For example, take the rectangle
`(0,0)-(0,2)` with `n_batch = 1`, where `(0,1)` fails: the code ends at
`[2, 1, 3]`, not at `[3, 0, 3]` (`Scheduler.RetryScenario`; `Pipeline.ScenarioSource` shows the scenario starts from the real enumeration).

**External inputs.** The world and the AwaitGenerator runtime are inputs to
the model:
- Each completion the channel delivers is a `Completion(point, success,
  loaded)`. `success` is the promise's outcome. `loaded` is what
  `getWorld($id) !== null` answers at line 113 before the next admission.
- A trace of completions is valid when each one answers a request that is in
  flight at that moment.

## Model

| member | source | states |
|---|---|---|
| Enumerator.PhpRem | src/muqsit/chunkgenerator/Loader.php:41-46 | PHP's `%` by 3: the remainder has the sign of the dividend, is smaller than 3 in magnitude, and differs from the dividend by a multiple of 3 |
| Enumerator.MinMod | src/muqsit/chunkgenerator/Loader.php:41-42 | `($v % $k + $k) % $k` is the mathematical residue of v modulo 3, including for negative v |
| Enumerator.ClassStart | src/muqsit/chunkgenerator/Loader.php:45-46 | a pass starts at the first coordinate at or after the lower bound that lies in the pass's residue class, less than 3 past the bound |
| Enumerator.Row | src/muqsit/chunkgenerator/Loader.php:48-50 | the innermost loop yields exactly the points of its row from `x_start` to x2 in steps of 3, none twice |
| Enumerator.RowSorted | src/muqsit/chunkgenerator/Loader.php:48-50 | the innermost loop visits its row in increasing x |
| Enumerator.Block | src/muqsit/chunkgenerator/Loader.php:47-51 | the two inner loops yield exactly the points reachable in steps of 3 from `(x_start, z_start)` inside the rectangle, none twice |
| Enumerator.BlockSorted | src/muqsit/chunkgenerator/Loader.php:47-51 | the two inner loops visit the block row by row in increasing z, and each row in increasing x |
| Enumerator.BlockIsClass | src/muqsit/chunkgenerator/Loader.php:43-51 | the block visited by pass `3 * offset_x + offset_z` is exactly the rectangle's points whose residues are `(offset_x, offset_z)` |
| Enumerator.Passes | src/muqsit/chunkgenerator/Loader.php:43-53 | passes c to 8 yield exactly the rectangle's points whose class is at least c, each once |
| Enumerator.PassesSorted | src/muqsit/chunkgenerator/Loader.php:43-53 | passes c to 8 yield their points ordered by class and, within a class, by z and then x |
| Enumerator.BetweenPoints | src/muqsit/chunkgenerator/Loader.php:36-54 | an x range error comes before a z range error; a valid rectangle yields every one of its chunks, only those, each exactly once |
| Enumerator.BetweenPointsSorted | src/muqsit/chunkgenerator/Loader.php:36-54 | a valid rectangle is enumerated in the nine-pass order: by class `3 * (x mod 3) + (z mod 3)` first, then by z, then by x |
| Enumerator.BetweenPointsIsPermutation | src/muqsit/chunkgenerator/Loader.php:36-67 | the interleaved enumeration is a permutation of a plain row-major enumeration of the rectangle, and its length is the count `generateChunksBetween` announces |
| Enumerator.ChunkCount | src/muqsit/chunkgenerator/Loader.php:67 | for a valid rectangle the announced count is positive and equals the number of chunks in a row-major enumeration of the rectangle |
| Scheduler.Start | src/muqsit/chunkgenerator/Loader.php:78-95 | `n_batch` is checked before the source's own validation; otherwise the first `n_batch` points (or all, if fewer) are requested, in order, and the loop invariant holds |
| Scheduler.Receivable | src/muqsit/chunkgenerator/Loader.php:102-103 | while the window invariant holds, the channel can deliver a completion exactly when it answers a request still in flight; the `$i > 0` loop test is then implied |
| Scheduler.Step | src/muqsit/chunkgenerator/Loader.php:102-125 | one iteration receives one completion, counts a success, and admits the next point exactly when the source has one and the world is loaded (otherwise the window shrinks by one); it appends one snapshot carrying the new `completed` and `count`, and the retry flag changes only when the window is empty |
| Scheduler.ValidTrace | src/muqsit/chunkgenerator/Loader.php:102-126 | a sequence of completions the loop can receive one after another stays receivable when cut short: every prefix is a valid trace too |
| Scheduler.Execute | src/muqsit/chunkgenerator/Loader.php:102-126 | a run yields one snapshot per completion and keeps the earlier ones; the received log is extended by the completions in delivery order; `completed` never decreases |
| Scheduler.ExecuteAppend | src/muqsit/chunkgenerator/Loader.php:102-126 | the loop run over two stretches of completions, one after the other, is the loop run over their concatenation, and each stretch can be received in turn |
| Scheduler.StepPreservesInv | src/muqsit/chunkgenerator/Loader.php:102-125 | each iteration keeps: at most `n_batch` requests in flight; requests are a prefix of the source, each made once; every request is in flight or received; one snapshot per completion, each with `count`, `completed` monotone |
| Scheduler.ExecutePreservesInv | src/muqsit/chunkgenerator/Loader.php:102-126 | the same invariant holds after any number of iterations |
| Scheduler.RetryBranchEndsLoop | src/muqsit/chunkgenerator/Loader.php:121-125 | once the retry branch has run, the loop has exited, no completion can be received, and the requests made are still a prefix of the original source: the failures are never requested again |
| Scheduler.ReachableDispatch | src/muqsit/chunkgenerator/Loader.php:89-125 | from the start, whatever the completions and world checks, the requests made are the source's first points in order, and at most `n_batch` are in flight |
| Scheduler.RunLengthBound | src/muqsit/chunkgenerator/Loader.php:102-126 | no run receives more completions than the source has points |
| Scheduler.LoadedRunDrainsSource | src/muqsit/chunkgenerator/Loader.php:113-118 | with the world loaded at every check, a finished loop has requested the whole source |
| Scheduler.LoadedRunConserves | src/muqsit/chunkgenerator/Loader.php:99-126 | with the world loaded, a finished run has requested every point and received each once; it yields one snapshot per point, each carrying `count`; the last snapshot's `completed + failed` is the number of points |
| Scheduler.LoadedRunCovers | src/muqsit/chunkgenerator/Loader.php:99-126 | the same conservation, stated against any enumeration of the same points |
| Scheduler.UnloadStopsAdmission | src/muqsit/chunkgenerator/Loader.php:113-120 | a completion whose world check fails requests nothing new and shrinks the window, yet is still received and still yields a snapshot that accounts for every received completion |
| Scheduler.ScenarioStart | src/muqsit/chunkgenerator/Loader.php:89-95 | for the column `(0,0)-(0,2)` with `n_batch = 1`, only `(0,0)` is requested before the loop |
| Scheduler.RetryScenario | src/muqsit/chunkgenerator/Loader.php:102-126 | in that column, completions success, failure, success end the loop with the retry branch taken, the snapshots `[1,0,3]`, `[1,1,3]`, `[2,1,3]`, and no second request for the failed `(0,1)` |
| Reporter.Initial | src/muqsit/chunkgenerator/Loader.php:138-141 | the reporter starts with only the first advance queued and nothing delivered, and its `$last_pct` is at least 0.01 below every percentage a snapshot with a positive count can have |
| Reporter.Next | src/muqsit/chunkgenerator/Loader.php:145-165 | an advance returns the run's snapshots in order; once they are spent it returns false exactly when the generator returned, rethrows exactly the generator's validation error, or waits exactly when the generator is blocked (its partners `Pipeline.AdvancesFollowLoop` and `Pipeline.AdvanceAfterLoop` tie this view to the scheduler's loop) |
| Reporter.Step | src/muqsit/chunkgenerator/Loader.php:142-183 | one iteration of the state loop either stops, or makes progress (an advance is used up, or the queue's weight drops) and delivers at most one non-empty message |
| Reporter.Drive | src/muqsit/chunkgenerator/Loader.php:142-183 | the loop only appends to what was already delivered, and never the empty message |
| Reporter.Report | src/muqsit/chunkgenerator/Loader.php:135-184 | the empty message produced for a throttled snapshot is never delivered |
| Reporter.Throttle | src/muqsit/chunkgenerator/Loader.php:171-179 | throttling yields at most one message per snapshot; each is a progress message for a snapshot of the run |
| Reporter.ThrottleRises | src/muqsit/chunkgenerator/Loader.php:173-175 | each reported percentage is at least 0.01 above the previously reported one, and the first is at least 0.01 above the starting `$last_pct` |
| Reporter.SuppressedSnapshot | src/muqsit/chunkgenerator/Loader.php:174-179 | a snapshot whose percentage has not risen by 0.01 produces no message and leaves `$last_pct` unchanged |
| Reporter.FirstSnapshotReported | src/muqsit/chunkgenerator/Loader.php:141-175 | because `$last_pct` starts at -0.01, the first snapshot with a non-negative percentage is always reported |
| Reporter.Settle | src/muqsit/chunkgenerator/Loader.php:164-183 | settling the remaining snapshots ends as the traverser ends, or by dividing by zero on a snapshot with no count; it delivers at most one message per snapshot plus the final one |
| Reporter.SettleCounted | src/muqsit/chunkgenerator/Loader.php:164-179 | when every snapshot has a count, settling is the throttling rule followed by "Generation completed." if the generator returned |
| Reporter.Round | src/muqsit/chunkgenerator/Loader.php:143-179 | an advance on a counted snapshot enqueues 3, 1, 2, builds the snapshot's message or the empty one, and delivers it before the next advance |
| Reporter.CompletionRound | src/muqsit/chunkgenerator/Loader.php:164-170 | when the traverser is spent, state 2 delivers "Generation completed." as the last message and the reporter finishes |
| Reporter.DriveFromAdvance | src/muqsit/chunkgenerator/Loader.php:142-183 | from state 2 on, the state queue delivers exactly what settling the remaining snapshots prescribes |
| Reporter.ReportMatchesExpected | src/muqsit/chunkgenerator/Loader.php:135-184 | for every run of the traverser, the state queue delivers exactly the queue-free reference outcome, messages and final status alike |
| Reporter.NoDefensiveFaults | src/muqsit/chunkgenerator/Loader.php:151-182 | the two defensive `RuntimeException`s (a missing message at state 1, an unknown state) are never raised |
| Reporter.ErrorReportedOnce | src/muqsit/chunkgenerator/Loader.php:143-163 | a validation error raised on the first advance is delivered as the one and only message, and the reporter finishes |
| Reporter.ReportCompletedRun | src/muqsit/chunkgenerator/Loader.php:135-184 | a run of counted snapshots that returns delivers the throttled progress messages, beginning with the first snapshot, then "Generation completed." last |
| Reporter.Pct | src/muqsit/chunkgenerator/Loader.php:172-173 | a snapshot with `0 <= completed <= count` has a percentage between 0 and 100, and exactly 100 when every request completed |
| Reporter.PctNonNegative | src/muqsit/chunkgenerator/Loader.php:173 | a snapshot with a positive count and non-negative `completed` has a non-negative percentage |
| Pipeline.GenerateChunksBetween | src/muqsit/chunkgenerator/Loader.php:65-95 | errors come in the order `n_batch`, x, z; it succeeds exactly for a positive `n_batch` and a valid rectangle, and then the announced count is the number of points enumerated, the first `min(n_batch, count)` points are requested in enumeration order, and the loop invariant holds |
| Pipeline.Traverse | src/muqsit/chunkgenerator/Loader.php:102-126 | the traverser sees the validation error alone, or exactly one snapshot per completion fed to the loop |
| Pipeline.AdvancesFollowLoop | src/muqsit/chunkgenerator/Loader.php:102-124 | while the loop runs, the reporter's advance after the snapshots yielded so far returns exactly the snapshot that the next loop iteration yields on receiving its completion |
| Pipeline.AdvanceAfterLoop | src/muqsit/chunkgenerator/Loader.php:102-126 | once every yielded snapshot has been taken, the next advance finds the generator returned exactly when the `while($i > 0)` loop has exited, and otherwise waits on the channel |
| Pipeline.ScenarioColumn | src/muqsit/chunkgenerator/Loader.php:36-54 | the column `(0,0)-(0,2)` is enumerated bottom to top, one chunk per pass, so the retry scenario's source is the real enumeration |
| Pipeline.ScenarioSource | src/muqsit/chunkgenerator/Loader.php:65-69 | `generateChunksBetween` on that column with `n_batch = 1` starts the scheduler exactly as `Scheduler.ScenarioStart` describes |
| Pipeline.InvalidArgumentsReportedOnce | src/muqsit/chunkgenerator/Loader.php:78-90 | `n_batch` is checked first, then x, then z, before any request; the first failing check's error is the single message delivered |
| Pipeline.EachChunkRequestedAtMostOnce | src/muqsit/chunkgenerator/Loader.php:84-125 | for a valid rectangle, whatever the completions and world checks, no chunk is requested twice, only chunks of the rectangle are requested, and at most `n_batch` requests are in flight |
| Pipeline.LoadedRunCoversRectangle | src/muqsit/chunkgenerator/Loader.php:65-126 | with the world loaded, a finished run requests and receives every chunk of the rectangle exactly once and yields `count` snapshots; the last accounts for all `count` chunks |
| Pipeline.LoadedRunReportsCompletion | src/muqsit/chunkgenerator/Loader.php:65-184 | end to end, such a run reports the throttled progress messages, the first snapshot among them, then "Generation completed.", and finishes |

## Left out

- `onCommand` is not modelled. It parses arguments and looks up the world; it only calls into the core.
- The `n_batch` default is not modelled. When `n_batch` is null, line 79 reads it from the server configuration; the model always takes `n_batch` as an argument.
- The world API is not modelled: `orderChunkPopulation`, its promise callbacks, `unregisterChunkLoader` and the world-manager lookup. Their observable effect is the `Completion` input. `unregisterChunkLoader` has no effect the core reads.
- AwaitGenerator is not modelled: `Channel`, `Traverser` and `Await`. The channel's delivery order is the order of the completions passed in. The traverser is the `Run` it exposes.
- Message text is not modelled: the world name, the `sprintf("%.2f")` formatting, and the choice between `sendTip` and the logger. A delivered message is a `Progress`, `Completed` or `ErrorText` value.
- The traverser raising an exception other than `InvalidArgumentException` is not modelled: the core's own code raises no other exception.
- ChunkGenerator.php is not modelled: it is a chunk listener and loader with empty handlers, and `Loader.php` does not use it.
- Reporter.Pct: the percentage is an exact real, where PHP computes a float. A float rounding exactly at the 0.01 threshold could make PHP decide differently.
- Enumerator.ChunkCount: PHP's 64-bit integers are not modelled. In PHP, a count beyond `PHP_INT_MAX` becomes a float. `Loader.php` declares `strict_types=1`, and `generateChunksBetween` is an ordinary function, not a generator. So passing that float to `generateChunks`' `int $count` parameter at line 68 throws a `TypeError` at once, before any chunk is requested. The model has no such error: the count stays an unbounded integer and the run proceeds.
