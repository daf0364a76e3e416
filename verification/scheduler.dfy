/**
 * The sliding-window scheduler `generateChunks`: at most `n_batch` population
 * requests in flight, one progress snapshot per completion, and the retry
 * branch exactly as the loop structure lets it run.
 */
module Scheduler {
  import opened Common

  /** One `$channel->receive()`: the chunk whose population request resolved,
      whether it succeeded, and what the world-loaded check answers if it is
      asked before the next admission. */
  datatype Completion = Completion(point: Point, success: bool, loaded: bool)

  /** The generator's locals between two loop iterations, plus two logs:
      `dispatched` (every `$schedule` call, in order) and `received`
      (every completion taken from the channel, in order). */
  datatype Window = Window(
    nBatch: int,
    count: int,
    points: seq<Point>,          // what `$points` has left to yield
    inFlight: multiset<Point>,   // requests ordered but not yet received
    i: int,
    completed: int,
    failed: seq<Point>,
    retry: bool,
    dispatched: seq<Point>,
    received: seq<Point>,
    snapshots: seq<Snapshot>)

  /** The window: `$i` counts the requests in flight and never exceeds `n_batch`. */
  ghost predicate WindowInv(w: Window) {
    && w.nBatch > 0
    && 0 <= w.i <= w.nBatch
    && w.i == |w.inFlight|
  }

  /** Requests follow the source in order, each source position at most once,
      and every request is either in flight or received. */
  ghost predicate DispatchInv(w: Window, src: seq<Point>) {
    && |w.dispatched| <= |src|
    && w.dispatched == src[..|w.dispatched|]
    && (w.retry ==> w.points == src[|w.dispatched|..])
    && (!w.retry ==> w.i == 0)
    && multiset(w.dispatched) == w.inFlight + multiset(w.received)
  }

  /** Every received completion is tallied as a success or a failure. */
  ghost predicate TallyInv(w: Window) {
    && 0 <= w.completed
    && (w.retry ==> w.completed + |w.failed| == |w.received|)
  }

  /** A snapshot log: the k-th snapshot accounts for k + 1 completions, all
      carry `count`, `completed` never decreases and ends at `completed`. */
  ghost predicate SnapshotLog(snaps: seq<Snapshot>, count: int, completed: int) {
    && (forall k :: 0 <= k < |snaps| ==>
          && snaps[k].count == count
          && snaps[k].completed + snaps[k].failed == k + 1
          && 0 <= snaps[k].completed <= completed)
    && (forall j, k :: 0 <= j <= k < |snaps| ==> snaps[j].completed <= snaps[k].completed)
    && (|snaps| > 0 ==> snaps[|snaps| - 1].completed == completed)
  }

  /** One snapshot per completion, forming a snapshot log. */
  ghost predicate SnapshotInv(w: Window) {
    |w.snapshots| == |w.received| && SnapshotLog(w.snapshots, w.count, w.completed)
  }

  /** What the loop maintains, relative to the source sequence `src`. */
  ghost predicate Inv(w: Window, src: seq<Point>) {
    WindowInv(w) && DispatchInv(w, src) && TallyInv(w) && SnapshotInv(w)
  }

  /** Lines 79-95: validate `n_batch`, then fill the window from the source.
      A source that fails is a `betweenPoints` generator whose validation
      fires on the first `valid()` call at line 90. */
  function Start(points: Result<seq<Point>, ArgError>, count: int, nBatch: int): (r: Result<Window, ArgError>)
    ensures nBatch <= 0 ==> r == Failure(BatchSize(nBatch))
    ensures nBatch > 0 && points.Failure? ==> r == Failure(points.error)
    ensures r.Success? <==> nBatch > 0 && points.Success?
    ensures r.Success? ==> Inv(r.value, points.value)
    ensures r.Success? ==> |r.value.dispatched| == Min(nBatch, |points.value|)
    ensures r.Success? ==> r.value.snapshots == [] && r.value.retry
  {
    if nBatch <= 0 then Failure(BatchSize(nBatch))
    else if points.Failure? then Failure(points.error)
    else
      var src := points.value;
      var n := Min(nBatch, |src|);
      Success(Window(nBatch, count, src[n..], multiset(src[..n]), n,
                     0, [], true, src[..n], [], []))
  }

  /** The channel can deliver e: the loop is still running and e answers a
      request that is in flight. */
  predicate Receivable(w: Window, e: Completion)
    ensures WindowInv(w) ==> (Receivable(w, e) <==> e.point in w.inFlight)
  {
    w.i > 0 && e.point in w.inFlight
  }

  /** The loop has exited (`while($i > 0)` is false). */
  predicate LoopDone(w: Window) {
    w.i <= 0
  }

  /** One iteration of lines 102-125: receive, tally, admit one more point if
      the source has one and the world is loaded, yield a snapshot, and run the
      retry branch when the window has emptied. */
  function Step(w: Window, e: Completion): (r: Window)
    requires Receivable(w, e)
    ensures r.received == w.received + [e.point]
    ensures r.completed == w.completed + (if e.success then 1 else 0)
    ensures |r.snapshots| == |w.snapshots| + 1 && r.snapshots[..|w.snapshots|] == w.snapshots
    ensures r.snapshots[|w.snapshots|].count == w.count
    ensures r.snapshots[|w.snapshots|].completed == r.completed
    ensures |w.points| > 0 && e.loaded ==>
      r.dispatched == w.dispatched + [w.points[0]] && r.i == w.i
    ensures !(|w.points| > 0 && e.loaded) ==>
      r.dispatched == w.dispatched && r.i == w.i - 1
    ensures r.retry != w.retry ==> r.i == 0 && r.failed == []
  {
    var inFlight := w.inFlight - multiset{e.point};
    var completed := if e.success then w.completed + 1 else w.completed;
    var failed := if e.success then w.failed else w.failed + [e.point];
    var admit := |w.points| > 0 && e.loaded;
    var i := if admit then w.i else w.i - 1;
    var r := w.(
      inFlight := if admit then inFlight + multiset{w.points[0]} else inFlight,
      i := i,
      points := if admit then w.points[1..] else w.points,
      dispatched := if admit then w.dispatched + [w.points[0]] else w.dispatched,
      completed := completed,
      failed := failed,
      received := w.received + [e.point],
      snapshots := w.snapshots + [Snapshot(completed, |failed|, w.count)]);
    if i == 0 && w.retry && |failed| > 0 then
      r.(retry := false, points := failed, failed := [])
    else
      r
  }

  /** The completions can be delivered one after another, each answering a
      request in flight at that moment. */
  predicate ValidTrace(w: Window, evs: seq<Completion>)
    ensures ValidTrace(w, evs) ==> forall k :: 0 <= k <= |evs| ==> ValidTrace(w, evs[..k])
    decreases |evs|
  {
    if |evs| == 0 then true
    else
      assert forall k :: 0 < k <= |evs| ==> evs[..k][0] == evs[0] && evs[..k][1..] == evs[1..][..k - 1];
      Receivable(w, evs[0]) && ValidTrace(Step(w, evs[0]), evs[1..])
  }

  /** Every loop iteration driven by `evs`, in order. */
  function Execute(w: Window, evs: seq<Completion>): (r: Window)
    requires ValidTrace(w, evs)
    ensures |r.snapshots| == |w.snapshots| + |evs|
    ensures r.snapshots[..|w.snapshots|] == w.snapshots
    ensures r.received == w.received + PointsOf(evs)
    ensures r.completed >= w.completed
    decreases |evs|
  {
    if |evs| == 0 then w
    else Execute(Step(w, evs[0]), evs[1..])
  }

  /** Running two traces one after the other is running their concatenation. */
  lemma {:induction false} ExecuteAppend(w: Window, a: seq<Completion>, b: seq<Completion>)
    requires ValidTrace(w, a + b)
    ensures ValidTrace(w, a) && ValidTrace(Execute(w, a), b)
    ensures Execute(w, a + b) == Execute(Execute(w, a), b)
    decreases |a|
  {
    if |a| == 0 {
      assert a + b == b;
    } else {
      var w1 := Step(w, a[0]);
      assert (a + b)[0] == a[0] && (a + b)[1..] == a[1..] + b;
      assert Receivable(w, a[0]) && ValidTrace(w1, a[1..] + b);
      ExecuteAppend(w1, a[1..], b);
      assert Execute(w, a + b) == Execute(w1, a[1..] + b);
      assert Execute(w, a) == Execute(w1, a[1..]);
    }
  }

  /** The loop run over a trace ending in e is the loop run over the rest,
      then one iteration receiving e. */
  lemma ExecuteLast(w: Window, pre: seq<Completion>, e: Completion)
    requires ValidTrace(w, pre + [e])
    ensures ValidTrace(w, pre) && Receivable(Execute(w, pre), e)
    ensures Execute(w, pre + [e]) == Step(Execute(w, pre), e)
  {
    ExecuteAppend(w, pre, [e]);
    var before := Execute(w, pre);
    assert [e][1..] == [];
    assert Execute(before, [e]) == Execute(Step(before, e), []);
  }

  /** The points the completions answer, in delivery order. */
  function PointsOf(evs: seq<Completion>): seq<Point> {
    if |evs| == 0 then [] else [evs[0].point] + PointsOf(evs[1..])
  }

  /** Every check at line 113 finds the world loaded. */
  predicate AllLoaded(evs: seq<Completion>) {
    forall k :: 0 <= k < |evs| ==> evs[k].loaded
  }

  /** One iteration keeps the loop's invariant: the window stays within
      `n_batch`, dispatches follow the source in order, snapshots stay
      monotone and count every received completion. */
  lemma StepPreservesInv(w: Window, e: Completion, src: seq<Point>)
    requires Inv(w, src) && Receivable(w, e)
    ensures Inv(Step(w, e), src)
  {
    StepKeepsWindow(w, e);
    StepKeepsDispatch(w, e, src);
    StepKeepsTally(w, e, src);
    StepKeepsSnapshots(w, e, src);
  }

  lemma StepKeepsWindow(w: Window, e: Completion)
    requires WindowInv(w) && Receivable(w, e)
    ensures WindowInv(Step(w, e))
  {
    var r := Step(w, e);
    var fl := w.inFlight - multiset{e.point};
    assert w.inFlight == fl + multiset{e.point};
    if |w.points| > 0 && e.loaded {
      assert r.inFlight == fl + multiset{w.points[0]};
    } else {
      assert r.inFlight == fl;
    }
  }

  lemma StepKeepsDispatch(w: Window, e: Completion, src: seq<Point>)
    requires WindowInv(w) && DispatchInv(w, src) && Receivable(w, e)
    ensures DispatchInv(Step(w, e), src)
  {
    if |w.points| > 0 && e.loaded {
      StepDispatchAdmit(w, e, src);
    } else {
      StepDispatchHold(w, e, src);
    }
  }

  /** Receiving p moves it from the in-flight multiset to the received one. */
  lemma MoveOne(inFlight: multiset<Point>, received: multiset<Point>, p: Point)
    requires p in inFlight
    ensures inFlight + received == (inFlight - multiset{p}) + (received + multiset{p})
  {
    assert inFlight == (inFlight - multiset{p}) + multiset{p};
  }

  /** A completion followed by an admission: the next source point joins the window. */
  lemma StepDispatchAdmit(w: Window, e: Completion, src: seq<Point>)
    requires WindowInv(w) && DispatchInv(w, src) && Receivable(w, e)
    requires |w.points| > 0 && e.loaded
    ensures DispatchInv(Step(w, e), src)
  {
    var r := Step(w, e);
    assert w.retry;
    var n := |w.dispatched|;
    var fl := w.inFlight - multiset{e.point};
    var recv := multiset(w.received) + multiset{e.point};
    assert w.points[0] == src[n];
    assert r.dispatched == w.dispatched + [src[n]] == src[..n + 1];
    assert r.retry ==> r.points == src[n + 1..];
    assert r.inFlight == fl + multiset{src[n]};
    assert multiset(r.received) == recv;
    MoveOne(w.inFlight, multiset(w.received), e.point);
    assert multiset(r.dispatched) == multiset(w.dispatched) + multiset{src[n]};
  }

  /** A completion with no admission: the window shrinks by one. */
  lemma StepDispatchHold(w: Window, e: Completion, src: seq<Point>)
    requires WindowInv(w) && DispatchInv(w, src) && Receivable(w, e)
    requires !(|w.points| > 0 && e.loaded)
    ensures DispatchInv(Step(w, e), src)
  {
    var r := Step(w, e);
    assert w.retry;
    assert r.dispatched == w.dispatched;
    assert r.inFlight == w.inFlight - multiset{e.point};
    assert multiset(r.received) == multiset(w.received) + multiset{e.point};
    MoveOne(w.inFlight, multiset(w.received), e.point);
  }

  lemma StepKeepsTally(w: Window, e: Completion, src: seq<Point>)
    requires WindowInv(w) && DispatchInv(w, src) && TallyInv(w) && Receivable(w, e)
    ensures TallyInv(Step(w, e))
  {
    assert w.retry;
  }

  lemma StepKeepsSnapshots(w: Window, e: Completion, src: seq<Point>)
    requires WindowInv(w) && DispatchInv(w, src) && TallyInv(w) && SnapshotInv(w)
    requires Receivable(w, e)
    ensures SnapshotInv(Step(w, e))
  {
    var r := Step(w, e);
    assert w.retry;
    var n := |w.snapshots|;
    var x := r.snapshots[n];
    assert r.snapshots == w.snapshots + [x];
    assert x.completed + x.failed == n + 1;
    assert x.completed == r.completed >= w.completed;
    AppendSnapshot(w.snapshots, x, w.count, w.completed);
  }

  /** Appending a snapshot of the same count, one completion further and with
      `completed` at least the log's, keeps a snapshot log. */
  lemma AppendSnapshot(a: seq<Snapshot>, x: Snapshot, count: int, bound: int)
    requires SnapshotLog(a, count, bound)
    requires x.count == count && x.completed + x.failed == |a| + 1 && 0 <= bound <= x.completed
    ensures SnapshotLog(a + [x], count, x.completed)
  {
    var b := a + [x];
    forall k | 0 <= k < |a| ensures b[k] == a[k] {
    }
    forall j, k | 0 <= j <= k < |b| ensures b[j].completed <= b[k].completed {
      if k < |a| {
        assert b[j] == a[j] && b[k] == a[k];
      } else if j < |a| {
        assert b[j] == a[j];
      }
    }
  }

  /** A run of any length keeps the invariant. */
  lemma {:induction false} ExecutePreservesInv(w: Window, evs: seq<Completion>, src: seq<Point>)
    requires Inv(w, src) && ValidTrace(w, evs)
    ensures Inv(Execute(w, evs), src)
    decreases |evs|
  {
    if |evs| > 0 {
      StepPreservesInv(w, evs[0], src);
      ExecutePreservesInv(Step(w, evs[0]), evs[1..], src);
    }
  }

  /** Once the retry branch has run, the loop is over: the swapped-in list of
      failures is never consumed, so no failed point is requested again. */
  lemma {:induction false} RetryBranchEndsLoop(w: Window, evs: seq<Completion>, src: seq<Point>)
    requires Inv(w, src) && ValidTrace(w, evs)
    requires !Execute(w, evs).retry
    ensures LoopDone(Execute(w, evs))
    ensures |Execute(w, evs).dispatched| <= |src|
    ensures Execute(w, evs).dispatched == src[..|Execute(w, evs).dispatched|]
    ensures forall e: Completion :: !Receivable(Execute(w, evs), e)
  {
    ExecutePreservesInv(w, evs, src);
  }

  /** From the start on, whatever the completions and world checks: the
      requests made are the source's first points, in source order, and no
      more than `n_batch` are ever in flight. */
  lemma ReachableDispatch(src: seq<Point>, count: int, nBatch: int, evs: seq<Completion>)
    requires Start(Success(src), count, nBatch).Success?
    requires ValidTrace(Start(Success(src), count, nBatch).value, evs)
    ensures var r := Execute(Start(Success(src), count, nBatch).value, evs);
      && |r.dispatched| <= |src|
      && r.dispatched == src[..|r.dispatched|]
      && |r.inFlight| <= nBatch
  {
    var w := Start(Success(src), count, nBatch).value;
    ExecutePreservesInv(w, evs, src);
    var r := Execute(w, evs);
    assert WindowInv(r) && DispatchInv(r, src);
    assert r.nBatch == nBatch by {
      NBatchUnchanged(w, evs);
    }
  }

  /** The loop never changes `n_batch` or `count`. */
  lemma {:induction false} NBatchUnchanged(w: Window, evs: seq<Completion>)
    requires ValidTrace(w, evs)
    ensures Execute(w, evs).nBatch == w.nBatch && Execute(w, evs).count == w.count
    decreases |evs|
  {
    if |evs| > 0 {
      NBatchUnchanged(Step(w, evs[0]), evs[1..]);
    }
  }

  /** A run is at most as long as the source: each completion answers a
      distinct dispatch, and dispatches never run past the source. */
  lemma RunLengthBound(w: Window, evs: seq<Completion>, src: seq<Point>)
    requires Inv(w, src) && ValidTrace(w, evs)
    ensures |w.received| + |evs| <= |src|
  {
    ExecutePreservesInv(w, evs, src);
    var r := Execute(w, evs);
    assert |multiset(r.dispatched)| == |r.inFlight| + |multiset(r.received)|;
  }

  /** With the world loaded at every check, a finished loop has dispatched the
      whole source. */
  lemma {:induction false} LoadedRunDrainsSource(w: Window, evs: seq<Completion>, src: seq<Point>)
    requires Inv(w, src) && ValidTrace(w, evs) && AllLoaded(evs)
    requires LoopDone(w) ==> w.dispatched == src
    ensures LoopDone(Execute(w, evs)) ==> Execute(w, evs).dispatched == src
    decreases |evs|
  {
    if |evs| > 0 {
      var e := evs[0];
      var r := Step(w, e);
      assert w.retry;
      if LoopDone(r) {
        assert |w.points| == 0;
        assert w.dispatched == src;
      }
      StepPreservesInv(w, e, src);
      assert AllLoaded(evs[1..]) by {
        forall k | 0 <= k < |evs[1..]| ensures evs[1..][k].loaded {
          assert evs[1..][k] == evs[k + 1];
        }
      }
      LoadedRunDrainsSource(r, evs[1..], src);
    }
  }

  /** Conservation: a run started on `src` that ends with the world loaded at
      every check has requested every point once, received every point once,
      yielded one snapshot per completion, and its last snapshot accounts for
      the whole source as succeeded or failed. */
  lemma LoadedRunConserves(src: seq<Point>, count: int, nBatch: int, evs: seq<Completion>)
    requires Start(Success(src), count, nBatch).Success?
    requires ValidTrace(Start(Success(src), count, nBatch).value, evs)
    requires AllLoaded(evs)
    requires LoopDone(Execute(Start(Success(src), count, nBatch).value, evs))
    ensures var r := Execute(Start(Success(src), count, nBatch).value, evs);
      && r.dispatched == src
      && multiset(r.received) == multiset(src)
      && |r.snapshots| == |evs| == |src|
      && (forall k :: 0 <= k < |r.snapshots| ==> r.snapshots[k].count == count && r.snapshots[k].completed >= 0)
      && (|src| > 0 ==>
            var last := r.snapshots[|src| - 1];
            last.completed + last.failed == |src| && last.count == count)
  {
    var w := Start(Success(src), count, nBatch).value;
    assert LoopDone(w) ==> w.dispatched == src;
    LoadedRunDrainsSource(w, evs, src);
    ExecutePreservesInv(w, evs, src);
    var r := Execute(w, evs);
    assert r.inFlight == multiset{};
  }

  /** Conservation against a reference enumeration `ref` of the same points. */
  lemma LoadedRunCovers(src: seq<Point>, ref: seq<Point>, count: int, nBatch: int, evs: seq<Completion>)
    requires multiset(src) == multiset(ref) && |src| == count > 0
    requires Start(Success(src), count, nBatch).Success?
    requires ValidTrace(Start(Success(src), count, nBatch).value, evs)
    requires AllLoaded(evs)
    requires LoopDone(Execute(Start(Success(src), count, nBatch).value, evs))
    ensures var r := Execute(Start(Success(src), count, nBatch).value, evs);
      && |evs| == count == |r.snapshots|
      && multiset(r.dispatched) == multiset(ref)
      && multiset(r.received) == multiset(ref)
      && r.snapshots[count - 1].completed + r.snapshots[count - 1].failed == count
      && (forall k :: 0 <= k < count ==> r.snapshots[k].count == count && r.snapshots[k].completed >= 0)
  {
    LoadedRunConserves(src, count, nBatch, evs);
  }

  /** A world that unloads stops admissions but not receipts: a completion
      whose world check fails requests nothing new, still counts, and still
      yields its snapshot. */
  lemma UnloadStopsAdmission(w: Window, e: Completion, src: seq<Point>)
    requires Inv(w, src) && Receivable(w, e) && !e.loaded
    ensures var r := Step(w, e);
      && r.dispatched == w.dispatched
      && r.i == w.i - 1
      && r.received == w.received + [e.point]
      && |r.snapshots| == |w.snapshots| + 1
      && r.snapshots[|w.snapshots|].completed + r.snapshots[|w.snapshots|].failed == |r.received|
  {
    StepPreservesInv(w, e, src);
  }

  /** A column of three chunks requested one at a time starts with (0, 0)
      in flight. */
  lemma ScenarioStart()
    ensures Start(Success([Point(0, 0), Point(0, 1), Point(0, 2)]), 3, 1)
         == Success(Window(1, 3, [Point(0, 1), Point(0, 2)], multiset{Point(0, 0)}, 1, 0, [], true,
                           [Point(0, 0)], [], []))
  {
    var src := [Point(0, 0), Point(0, 1), Point(0, 2)];
    assert src[1..] == [Point(0, 1), Point(0, 2)] && src[..1] == [Point(0, 0)];
  }

  /** The same column with the middle chunk failing. The retry branch fires
      after the last completion and the loop ends at `[2, 1, 3]` without
      requesting the failed chunk again. */
  lemma RetryScenario(w: Window, evs: seq<Completion>)
    requires w == Window(1, 3, [Point(0, 1), Point(0, 2)], multiset{Point(0, 0)}, 1, 0, [], true,
                         [Point(0, 0)], [], [])
    requires evs == [Completion(Point(0, 0), true, true), Completion(Point(0, 1), false, true),
                     Completion(Point(0, 2), true, true)]
    ensures ValidTrace(w, evs)
    ensures LoopDone(Execute(w, evs)) && !Execute(w, evs).retry
    ensures Execute(w, evs).dispatched == [Point(0, 0), Point(0, 1), Point(0, 2)]
    ensures Execute(w, evs).snapshots == [Snapshot(1, 0, 3), Snapshot(1, 1, 3), Snapshot(2, 1, 3)]
  {
    ScenarioFirst(w);
    var w1 := Step(w, evs[0]);
    ScenarioSecond(w1);
    var w2 := Step(w1, evs[1]);
    ScenarioLast(w2);
    var w3 := Step(w2, evs[2]);
    var t1 := evs[1..];
    var t2 := t1[1..];
    assert t2[1..] == [] && t2[0] == evs[2] && t1[0] == evs[1];
    assert ValidTrace(w3, t2[1..]) && Execute(w3, t2[1..]) == w3;
    assert ValidTrace(w2, t2) && Execute(w2, t2) == w3;
    assert ValidTrace(w1, t1) && Execute(w1, t1) == w3;
  }

  /** The scenario's first completion: (0, 0) succeeds and (0, 1) is admitted. */
  lemma ScenarioFirst(w0: Window)
    requires w0.points == [Point(0, 1), Point(0, 2)] && w0.inFlight == multiset{Point(0, 0)}
    requires w0.i == 1 && w0.retry && w0.failed == [] && w0.completed == 0 && w0.count == 3
    requires w0.dispatched == [Point(0, 0)] && w0.snapshots == []
    ensures var e0 := Completion(Point(0, 0), true, true);
      && Receivable(w0, e0)
      && var w1 := Step(w0, e0);
      && w1.points == [Point(0, 2)] && Point(0, 1) in w1.inFlight && w1.i == 1 && w1.retry
      && w1.failed == [] && w1.completed == 1 && w1.count == 3
      && w1.dispatched == [Point(0, 0), Point(0, 1)] && w1.snapshots == [Snapshot(1, 0, 3)]
  {
  }

  /** The second completion: (0, 1) fails and (0, 2) is admitted. */
  lemma ScenarioSecond(w1: Window)
    requires w1.points == [Point(0, 2)] && Point(0, 1) in w1.inFlight && w1.i == 1 && w1.retry
    requires w1.failed == [] && w1.completed == 1 && w1.count == 3
    requires w1.dispatched == [Point(0, 0), Point(0, 1)] && w1.snapshots == [Snapshot(1, 0, 3)]
    ensures var e1 := Completion(Point(0, 1), false, true);
      && Receivable(w1, e1)
      && var w2 := Step(w1, e1);
      && w2.points == [] && Point(0, 2) in w2.inFlight && w2.i == 1 && w2.retry
      && w2.failed == [Point(0, 1)] && w2.completed == 1 && w2.count == 3
      && w2.dispatched == [Point(0, 0), Point(0, 1), Point(0, 2)]
      && w2.snapshots == [Snapshot(1, 0, 3), Snapshot(1, 1, 3)]
  {
  }

  /** The last completion: (0, 2) succeeds, the window empties and the retry
      branch swaps in the failed chunk, which the exited loop never reads. */
  lemma ScenarioLast(w2: Window)
    requires w2.points == [] && Point(0, 2) in w2.inFlight && w2.i == 1 && w2.retry
    requires w2.failed == [Point(0, 1)] && w2.completed == 1 && w2.count == 3
    requires w2.dispatched == [Point(0, 0), Point(0, 1), Point(0, 2)]
    requires w2.snapshots == [Snapshot(1, 0, 3), Snapshot(1, 1, 3)]
    ensures var e2 := Completion(Point(0, 2), true, true);
      && Receivable(w2, e2)
      && var w3 := Step(w2, e2);
      && LoopDone(w3) && !w3.retry && w3.points == [Point(0, 1)]
      && w3.dispatched == [Point(0, 0), Point(0, 1), Point(0, 2)]
      && w3.snapshots == [Snapshot(1, 0, 3), Snapshot(1, 1, 3), Snapshot(2, 1, 3)]
  {
  }
}
