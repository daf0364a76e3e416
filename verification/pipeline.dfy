/**
 * `generateChunksBetween` feeding `generateAndReport`: the enumerator's
 * points and count go to the scheduler, whose yields the reporter consumes.
 */
module Pipeline {
  import opened Common
  import opened Enumerator
  import opened Scheduler
  import Reporter

  /** `generateChunksBetween`: the enumerator's (lazily validated) points and
      the announced count, handed to the scheduler. The scheduler checks
      `n_batch` before its first `valid()` runs the enumerator's checks, so
      the errors come in that order; on success the announced count is the
      number of points, and the first `n_batch` of them are requested. */
  function GenerateChunksBetween(x1: int, x2: int, z1: int, z2: int, nBatch: int): (r: Result<Window, ArgError>)
    ensures nBatch <= 0 ==> r == Failure(BatchSize(nBatch))
    ensures nBatch > 0 && x2 < x1 ==> r == Failure(XRange(x1, x2))
    ensures nBatch > 0 && x1 <= x2 && z2 < z1 ==> r == Failure(ZRange(z1, z2))
    ensures r.Success? <==> nBatch > 0 && x1 <= x2 && z1 <= z2
    ensures r.Success? ==> r.value.count == |BetweenPoints(x1, x2, z1, z2).value| > 0
    ensures r.Success? ==>
      r.value.dispatched == BetweenPoints(x1, x2, z1, z2).value[..Min(nBatch, r.value.count)]
    ensures r.Success? ==> Inv(r.value, BetweenPoints(x1, x2, z1, z2).value)
  {
    var points := BetweenPoints(x1, x2, z1, z2);
    if points.Success? then
      BetweenPointsIsPermutation(x1, x2, z1, z2);
      Start(points, ChunkCount(x1, x2, z1, z2), nBatch)
    else
      Start(points, ChunkCount(x1, x2, z1, z2), nBatch)
  }

  /** What the traverser sees of a scheduler started as `start` and fed the
      completions `evs`: the yielded snapshots, then how the generator ends. */
  function Traverse(start: Result<Window, ArgError>, evs: seq<Completion>): (r: Run)
    requires start.Success? ==> ValidTrace(start.value, evs)
    ensures start.Failure? ==> r == Run([], Threw(start.error))
    ensures start.Success? ==> |r.values| == |start.value.snapshots| + |evs|
  {
    match start
    case Failure(e) => Run([], Threw(e))
    case Success(w) =>
      var f := Execute(w, evs);
      Run(f.snapshots, if LoopDone(f) then Exhausted else Blocked)
  }

  /** Every validation error reaches the player as the one and only message,
      before any chunk is requested; `n_batch` is checked first, then x, then z. */
  lemma InvalidArgumentsReportedOnce(x1: int, x2: int, z1: int, z2: int, nBatch: int, evs: seq<Completion>)
    requires nBatch <= 0 || x2 < x1 || z2 < z1
    ensures GenerateChunksBetween(x1, x2, z1, z2, nBatch).Failure?
    ensures var e := if nBatch <= 0 then BatchSize(nBatch)
                     else if x2 < x1 then XRange(x1, x2)
                     else ZRange(z1, z2);
      Reporter.Report(Traverse(GenerateChunksBetween(x1, x2, z1, z2, nBatch), evs)) == Reporter.Outcome([Reporter.ErrorText(e)], Reporter.Finished)
  {
    var start := GenerateChunksBetween(x1, x2, z1, z2, nBatch);
    Reporter.ErrorReportedOnce(start.error);
  }

  /** For a valid rectangle each chunk is requested at most once, whatever
      the completions and the world checks: the retry list is never
      consumed, so a failed chunk is not requested again. */
  lemma EachChunkRequestedAtMostOnce(x1: int, x2: int, z1: int, z2: int, nBatch: int, evs: seq<Completion>)
    requires GenerateChunksBetween(x1, x2, z1, z2, nBatch).Success?
    requires ValidTrace(GenerateChunksBetween(x1, x2, z1, z2, nBatch).value, evs)
    ensures var r := Execute(GenerateChunksBetween(x1, x2, z1, z2, nBatch).value, evs);
      && Distinct(r.dispatched)
      && (forall p :: p in r.dispatched ==> InRect(p, x1, x2, z1, z2))
      && |r.inFlight| <= nBatch
  {
    var src := BetweenPoints(x1, x2, z1, z2).value;
    ReachableDispatch(src, ChunkCount(x1, x2, z1, z2), nBatch, evs);
    var r := Execute(GenerateChunksBetween(x1, x2, z1, z2, nBatch).value, evs);
    PrefixInRect(src, r.dispatched, x1, x2, z1, z2);
  }

  /** A prefix of a distinct enumeration of the rectangle is distinct and
      inside the rectangle. */
  lemma PrefixInRect(src: seq<Point>, d: seq<Point>, x1: int, x2: int, z1: int, z2: int)
    requires Distinct(src) && forall p :: p in src ==> InRect(p, x1, x2, z1, z2)
    requires |d| <= |src| && d == src[..|d|]
    ensures Distinct(d) && forall p :: p in d ==> InRect(p, x1, x2, z1, z2)
  {
    forall i, j | 0 <= i < j < |d| ensures d[i] != d[j] {
      assert d[i] == src[i] && d[j] == src[j];
    }
    forall p | p in d ensures InRect(p, x1, x2, z1, z2) {
      var k :| 0 <= k < |d| && d[k] == p;
      assert p == src[k];
    }
  }

  /** With the world loaded at every check and every request answered, every
      chunk of the rectangle is requested and received exactly once, one
      snapshot is yielded per chunk, and the last one accounts for all `count`
      chunks as succeeded or failed. */
  lemma LoadedRunCoversRectangle(x1: int, x2: int, z1: int, z2: int, nBatch: int, evs: seq<Completion>)
    requires x1 <= x2 && z1 <= z2 && nBatch > 0
    requires ValidTrace(GenerateChunksBetween(x1, x2, z1, z2, nBatch).value, evs)
    requires AllLoaded(evs)
    requires LoopDone(Execute(GenerateChunksBetween(x1, x2, z1, z2, nBatch).value, evs))
    ensures var count := ChunkCount(x1, x2, z1, z2);
      var r := Execute(GenerateChunksBetween(x1, x2, z1, z2, nBatch).value, evs);
      && |evs| == count == |r.snapshots|
      && multiset(r.dispatched) == multiset(RowMajor(x1, x2, z1, z2))
      && multiset(r.received) == multiset(RowMajor(x1, x2, z1, z2))
      && r.snapshots[count - 1].completed + r.snapshots[count - 1].failed == count
      && (forall k :: 0 <= k < count ==> r.snapshots[k].count == count && r.snapshots[k].completed >= 0)
  {
    var src := BetweenPoints(x1, x2, z1, z2).value;
    var count := ChunkCount(x1, x2, z1, z2);
    BetweenPointsIsPermutation(x1, x2, z1, z2);
    LoadedRunCovers(src, RowMajor(x1, x2, z1, z2), count, nBatch, evs);
  }

  /** End to end: the same run, seen by the player, is the throttled progress
      messages, the first snapshot among them, followed by
      "Generation completed.". */
  lemma LoadedRunReportsCompletion(x1: int, x2: int, z1: int, z2: int, nBatch: int, evs: seq<Completion>)
    requires x1 <= x2 && z1 <= z2 && nBatch > 0
    requires ValidTrace(GenerateChunksBetween(x1, x2, z1, z2, nBatch).value, evs)
    requires AllLoaded(evs)
    requires LoopDone(Execute(GenerateChunksBetween(x1, x2, z1, z2, nBatch).value, evs))
    ensures var vs := Execute(GenerateChunksBetween(x1, x2, z1, z2, nBatch).value, evs).snapshots;
      && |vs| > 0
      && Reporter.Counted(vs)
      && Reporter.Report(Traverse(GenerateChunksBetween(x1, x2, z1, z2, nBatch), evs))
         == Reporter.Outcome(Reporter.Throttle(vs, Reporter.InitialPct) + [Reporter.Completed], Reporter.Finished)
      && |Reporter.Throttle(vs, Reporter.InitialPct)| > 0
      && Reporter.Throttle(vs, Reporter.InitialPct)[0] == Reporter.Progress(vs[0])
  {
    var count := ChunkCount(x1, x2, z1, z2);
    var start := GenerateChunksBetween(x1, x2, z1, z2, nBatch);
    var f := Execute(start.value, evs);
    var vs := f.snapshots;
    LoadedRunCoversRectangle(x1, x2, z1, z2, nBatch, evs);
    assert Traverse(start, evs) == Run(vs, Exhausted);
    assert Reporter.Counted(vs);
    Reporter.PctNonNegative(vs[0]);
    Reporter.ReportCompletedRun(vs);
  }

  /** The column (0,0)-(0,2) of the retry scenario is enumerated as (0,0),
      (0,1), (0,2): one chunk per residue class, in class order. */
  lemma ScenarioColumn(x1: int, x2: int, z1: int, z2: int)
    requires x1 == 0 && x2 == 0 && z1 == 0 && z2 == 2
    ensures BetweenPoints(x1, x2, z1, z2) == Success([Point(0, 0), Point(0, 1), Point(0, 2)])
  {
    BetweenPointsIsPermutation(x1, x2, z1, z2);
    BetweenPointsSorted(x1, x2, z1, z2);
    ColumnOrder(BetweenPoints(x1, x2, z1, z2).value);
  }

  /** Three points of the column x = 0, z in [0, 2], in pass order, are the
      column from bottom to top: each point's class is its z. */
  lemma ColumnOrder(r: seq<Point>)
    requires |r| == 3 && SortedBy(r, Precedes)
    requires forall p :: p in r ==> InRect(p, 0, 0, 0, 2)
    ensures r == [Point(0, 0), Point(0, 1), Point(0, 2)]
  {
    assert r[0] in r && r[1] in r && r[2] in r;
    ColumnPoint(r[0]);
    ColumnPoint(r[1]);
    ColumnPoint(r[2]);
    assert Precedes(r[0], r[1]) && Precedes(r[1], r[2]);
    assert r == [r[0], r[1], r[2]];
  }

  /** A point of the column x = 0, z in [0, 2] lies in pass z. */
  lemma ColumnPoint(p: Point)
    requires InRect(p, 0, 0, 0, 2)
    ensures p.x == 0 && 0 <= p.z <= 2 && ClassOf(p) == p.z
  {
  }

  /** `generateChunksBetween` on that column with `n_batch = 1` starts the
      scheduler exactly as `Scheduler.ScenarioStart` does. */
  lemma ScenarioSource(x1: int, x2: int, z1: int, z2: int, nBatch: int)
    requires x1 == 0 && x2 == 0 && z1 == 0 && z2 == 2 && nBatch == 1
    ensures GenerateChunksBetween(x1, x2, z1, z2, nBatch)
         == Start(Success([Point(0, 0), Point(0, 1), Point(0, 2)]), 3, 1)
  {
    ScenarioColumn(x1, x2, z1, z2);
    assert ChunkCount(x1, x2, z1, z2) == 3;
  }

  /** The reporter's advances over the scheduler's generator, while the loop
      runs: for a trace `pre + [e] + post`, the advance after the snapshots
      yielded before `e` was received returns exactly the snapshot that the
      loop iteration receiving `e` yields. */
  lemma AdvancesFollowLoop(w: Window, pre: seq<Completion>, e: Completion, post: seq<Completion>)
    requires ValidTrace(w, pre + [e] + post)
    ensures ValidTrace(w, pre) && Receivable(Execute(w, pre), e)
    ensures var run, n := Traverse(Success(w), pre + [e] + post), |w.snapshots| + |pre|;
      Reporter.Next(run, n) == (Reporter.Value(Step(Execute(w, pre), e).snapshots[n]), n + 1)
  {
    ExecuteAppend(w, pre + [e], post);
    ExecuteLast(w, pre, e);
    var mid := Execute(w, pre + [e]);
    var n := |w.snapshots| + |pre|;
    SnapshotKept(mid, post, n);
  }

  /** A snapshot already yielded stays where it is for the rest of the run. */
  lemma SnapshotKept(w: Window, evs: seq<Completion>, n: nat)
    requires ValidTrace(w, evs) && n < |w.snapshots|
    ensures Execute(w, evs).snapshots[n] == w.snapshots[n]
  {
    var f := Execute(w, evs);
    assert f.snapshots[..|w.snapshots|] == w.snapshots;
    assert f.snapshots[..|w.snapshots|][n] == f.snapshots[n];
  }

  /** Once every yielded snapshot has been taken, the next advance finds the
      generator returned exactly when the loop has exited, and otherwise
      waits on the channel. */
  lemma AdvanceAfterLoop(w: Window, evs: seq<Completion>)
    requires ValidTrace(w, evs)
    ensures var run, n := Traverse(Success(w), evs), |w.snapshots| + |evs|;
      Reporter.Next(run, n)
        == (if LoopDone(Execute(w, evs)) then Reporter.Done else Reporter.Waiting, n + 1)
  {
  }
}
