/**
 * The reporter `generateAndReport`: a queue of integer states that drives the
 * scheduler through its traverser and turns each snapshot into a throttled
 * progress message.
 *
 * States: 0 first advance (catches validation errors), 1 deliver the pending
 * message, 2 advance, 3 build a progress message from the last snapshot.
 */
module Reporter {
  import opened Common

  /** The pending `$message`. `Silent` is the empty string that state 1 drops. */
  datatype Message =
    | Silent
    | Progress(snap: Snapshot)
    | Completed                  // "Generation completed."
    | ErrorText(error: ArgError) // the exception's message

  /** An exception that escapes the reporter. */
  datatype Fault =
    | DivisionByZero             // state 3 divides by a zero or missing `$count`
    | Uncaught(error: ArgError)  // a validation error raised after the first advance
    | MissingMessage             // state 1 with `$message === null`
    | UnexpectedState(state: int)

  datatype Status =
    | Finished            // the state queue emptied
    | Suspended           // waiting on an advance that does not return
    | Crashed(fault: Fault)

  /** The messages handed to the player or the logger, and how the reporter stopped. */
  datatype Outcome = Outcome(delivered: seq<Message>, status: Status)

  /** What one `$operation->next($progress)` does. */
  datatype Advance = Value(snap: Snapshot) | Done | Raised(error: ArgError) | Waiting

  /** The reporter's locals; `cursor` counts the advances performed so far. */
  datatype Machine = Machine(
    states: seq<int>,
    message: Option<Message>,
    progress: Option<Snapshot>,
    lastPct: real,
    cursor: nat,
    delivered: seq<Message>)

  /** `$last_pct`'s initial value: the first snapshot is always reported. */
  const InitialPct: real := -0.01
  /** The smallest rise of the percentage that produces a message. */
  const Threshold: real := 0.01

  /** `($completed / $count) * 100`. */
  function Pct(s: Snapshot): (r: real)
    requires s.count != 0
    ensures 0 <= s.completed <= s.count ==> 0.0 <= r <= 100.0
    ensures s.completed == s.count ==> r == 100.0
  {
    var q := s.completed as real / s.count as real;
    assert 0 <= s.completed <= s.count ==> 0.0 <= q <= 1.0 by {
      if 0 <= s.completed <= s.count {
        assert q * s.count as real == s.completed as real;
      }
    }
    q * 100.0
  }

  /** A snapshot of a positive count with nothing negative completed has a
      non-negative percentage. */
  lemma PctNonNegative(s: Snapshot)
    requires s.count > 0 && s.completed >= 0
    ensures Pct(s) >= 0.0
  {
    assert s.completed as real / s.count as real >= 0.0;
  }

  /** The traverser's answer to the next advance, and the advance count after it. */
  function Next(run: Run, cursor: nat): (a: (Advance, nat))
    requires cursor <= |run.values| + 1
    ensures cursor < |run.values| ==> a == (Value(run.values[cursor]), cursor + 1)
    ensures cursor >= |run.values| ==> !a.0.Value? && a.1 == |run.values| + 1
    ensures cursor >= |run.values| ==>
      && (a.0.Done? <==> run.end.Exhausted?)
      && (a.0.Waiting? <==> run.end.Blocked?)
      && (a.0.Raised? <==> run.end.Threw?)
      && (a.0.Raised? ==> a.0.error == run.end.error)
  {
    if cursor < |run.values| then (Value(run.values[cursor]), cursor + 1)
    else
      var a := match run.end
        case Exhausted => Done
        case Threw(e) => Raised(e)
        case Blocked => Waiting;
      (a, |run.values| + 1)
  }

  /** A state's share of the termination measure: state 0 may enqueue three
      states, state 2 one, once the traverser has nothing left to give. */
  function StateWeight(state: int): nat {
    if state == 0 then 5 else if state == 2 then 2 else 1
  }

  function Weight(states: seq<int>): nat {
    if |states| == 0 then 0 else StateWeight(states[0]) + Weight(states[1..])
  }

  lemma {:induction false} WeightAppend(a: seq<int>, b: seq<int>)
    ensures Weight(a + b) == Weight(a) + Weight(b)
    decreases |a|
  {
    if |a| > 0 {
      assert (a + b)[0] == a[0];
      assert (a + b)[1..] == a[1..] + b;
      WeightAppend(a[1..], b);
      assert Weight(a + b) == StateWeight(a[0]) + Weight(a[1..] + b);
    } else {
      assert a + b == b;
    }
  }

  /** The result of one loop iteration: carry on, or stop with an outcome. */
  datatype Stepped = Continue(next: Machine) | Halt(outcome: Outcome)

  /** Advances left before the traverser is spent. */
  function Remaining(m: Machine, run: Run): int {
    |run.values| + 1 - m.cursor
  }

  /** One iteration of the `while` loop at lines 142-183. */
  function Step(m: Machine, run: Run): (r: Stepped)
    requires |m.states| > 0 && m.cursor <= |run.values| + 1
    ensures r.Continue? ==> r.next.cursor <= |run.values| + 1
    ensures r.Continue? ==>
      Remaining(r.next, run) < Remaining(m, run)
      || (Remaining(r.next, run) == Remaining(m, run) && Weight(r.next.states) < Weight(m.states))
    ensures r.Continue? ==>
      r.next.delivered == m.delivered
      || (m.message.Some? && m.message.value != Silent && r.next.delivered == m.delivered + [m.message.value])
  {
    var state := m.states[0];
    var rest := m.states[1..];
    assert m.states == [state] + rest;
    WeightAppend([state], rest);
    WeightAppend(rest, [3, 1, 2]);
    WeightAppend(rest, [1]);
    if state == 0 then
      var (a, c) := Next(run, m.cursor);
      match a
      case Value(s) => Continue(m.(states := rest + [3, 1, 2], progress := Some(s), cursor := c))
      case Done => Continue(m.(states := rest + [3, 1, 2], cursor := c))
      case Raised(e) => Continue(m.(states := rest + [1], message := Some(ErrorText(e)), cursor := c))
      case Waiting => Halt(Outcome(m.delivered, Suspended))
    else if state == 1 then
      match m.message
      case None => Halt(Outcome(m.delivered, Crashed(MissingMessage)))
      case Some(msg) =>
        if msg == Silent then Continue(m.(states := rest, message := None))
        else Continue(m.(states := rest, message := None, delivered := m.delivered + [msg]))
    else if state == 2 then
      var (a, c) := Next(run, m.cursor);
      match a
      case Value(s) => Continue(m.(states := rest + [3, 1, 2], progress := Some(s), cursor := c))
      case Done => Continue(m.(states := rest + [1], message := Some(Completed), cursor := c))
      case Raised(e) => Halt(Outcome(m.delivered, Crashed(Uncaught(e))))
      case Waiting => Halt(Outcome(m.delivered, Suspended))
    else if state == 3 then
      match m.progress
      case None => Halt(Outcome(m.delivered, Crashed(DivisionByZero)))
      case Some(s) =>
        if s.count == 0 then Halt(Outcome(m.delivered, Crashed(DivisionByZero)))
        else if Pct(s) - m.lastPct >= Threshold then
          Continue(m.(states := rest, lastPct := Pct(s), message := Some(Progress(s))))
        else
          Continue(m.(states := rest, message := Some(Silent)))
    else
      Halt(Outcome(m.delivered, Crashed(UnexpectedState(state))))
  }

  /** The loop from machine m until the queue empties or the reporter stops. */
  function Drive(m: Machine, run: Run): (r: Outcome)
    requires m.cursor <= |run.values| + 1
    ensures |m.delivered| <= |r.delivered| && r.delivered[..|m.delivered|] == m.delivered
    ensures forall k :: |m.delivered| <= k < |r.delivered| ==> r.delivered[k] != Silent
    decreases Remaining(m, run), Weight(m.states)
  {
    if |m.states| == 0 then Outcome(m.delivered, Finished)
    else
      match Step(m, run)
      case Halt(o) => o
      case Continue(n) => Drive(n, run)
  }

  /** The machine `generateAndReport` starts in (lines 138-141): only the
      first advance is queued, nothing is delivered, and `$last_pct` lies far
      enough below every possible percentage that the first one is reported. */
  function Initial(): (m: Machine)
    ensures m.states == [0] && m.cursor == 0 && m.delivered == [] && m.message.None?
    ensures forall s: Snapshot :: s.count > 0 && s.completed >= 0 ==> Pct(s) - m.lastPct >= Threshold
  {
    PctAllNonNegative();
    Machine([0], None, None, InitialPct, 0, [])
  }

  lemma PctAllNonNegative()
    ensures forall s: Snapshot :: s.count > 0 && s.completed >= 0 ==> Pct(s) >= 0.0
  {
    forall s: Snapshot | s.count > 0 && s.completed >= 0 ensures Pct(s) >= 0.0 {
      PctNonNegative(s);
    }
  }

  /** `generateAndReport` driving a traverser over `run`. */
  function Report(run: Run): (r: Outcome)
    ensures forall k :: 0 <= k < |r.delivered| ==> r.delivered[k] != Silent
  {
    Drive(Initial(), run)
  }

  // ---------------------------------------------------------------------
  // Reference: what the reporter should deliver, written without the queue.
  // ---------------------------------------------------------------------

  predicate Counted(vs: seq<Snapshot>) {
    forall k :: 0 <= k < |vs| ==> vs[k].count != 0
  }

  /** What state 3 makes of a counted snapshot: a progress message when the
      percentage has risen by at least `Threshold` since `last`, else nothing. */
  function Reported(s: Snapshot, last: real): (r: seq<Message>)
    requires s.count != 0
    ensures r == [] || r == [Progress(s)]
  {
    if Pct(s) - last >= Threshold then [Progress(s)] else []
  }

  /** `$last_pct` after state 3 on a counted snapshot. */
  function NextLast(s: Snapshot, last: real): (r: real)
    requires s.count != 0
    ensures r == last || Reported(s, last) == [Progress(s)]
  {
    if Pct(s) - last >= Threshold then Pct(s) else last
  }

  /** The throttling rule on its own, applied to a whole sequence of snapshots. */
  function Throttle(vs: seq<Snapshot>, last: real): (r: seq<Message>)
    requires Counted(vs)
    ensures |r| <= |vs|
    ensures forall k :: 0 <= k < |r| ==> r[k].Progress? && r[k].snap in vs && r[k].snap.count != 0
    decreases |vs|
  {
    if |vs| == 0 then []
    else
      CountedTail(vs);
      Reported(vs[0], last) + Throttle(vs[1..], NextLast(vs[0], last))
  }

  lemma {:induction false} CountedTail(vs: seq<Snapshot>)
    requires |vs| > 0 && Counted(vs)
    ensures Counted(vs[1..])
  {
    forall k | 0 <= k < |vs[1..]| ensures vs[1..][k].count != 0 {
      assert vs[1..][k] == vs[k + 1];
    }
  }

  /** Every reported percentage rises by at least `Threshold`, over `last`
      for the first one and over the previous report for the others. */
  lemma {:induction false} ThrottleRises(vs: seq<Snapshot>, last: real)
    requires Counted(vs)
    ensures var r := Throttle(vs, last);
      && (|r| > 0 ==> Pct(r[0].snap) - last >= Threshold)
      && (forall k :: 0 < k < |r| ==> Pct(r[k].snap) - Pct(r[k - 1].snap) >= Threshold)
    decreases |vs|
  {
    if |vs| > 0 {
      CountedTail(vs);
      var pct := Pct(vs[0]);
      if pct - last >= Threshold {
        ThrottleRises(vs[1..], pct);
        var t := Throttle(vs[1..], pct);
        var r := [Progress(vs[0])] + t;
        assert Throttle(vs, last) == r;
        forall k | 0 < k < |r| ensures Pct(r[k].snap) - Pct(r[k - 1].snap) >= Threshold {
          if k == 1 {
            assert r[1] == t[0];
          } else {
            assert r[k] == t[k - 1] && r[k - 1] == t[k - 2];
          }
        }
      } else {
        ThrottleRises(vs[1..], last);
        assert Throttle(vs, last) == Throttle(vs[1..], last);
      }
    }
  }

  /** The last message and status once the snapshots are used up. */
  function Tail(end: End): seq<Message> {
    if end == Exhausted then [Completed] else []
  }

  function EndStatus(end: End): Status {
    match end
    case Exhausted => Finished
    case Threw(e) => Crashed(Uncaught(e))
    case Blocked => Suspended
  }

  /** The messages `more` delivered after `delivered`. */
  function Prepend(delivered: seq<Message>, more: Outcome): Outcome {
    Outcome(delivered + more.delivered, more.status)
  }

  /** The rest of a run without the queue: each snapshot still to come is
      throttled in turn, a snapshot with no count stops everything, and the
      end of the run decides the last message and the status. */
  function Settle(vs: seq<Snapshot>, last: real, end: End): (r: Outcome)
    ensures r.status == EndStatus(end) || r.status == Crashed(DivisionByZero)
    ensures |r.delivered| <= |vs| + 1
    ensures forall k :: 0 <= k < |r.delivered| ==> r.delivered[k] in Tail(end) || r.delivered[k].Progress?
    decreases |vs|
  {
    if |vs| == 0 then Outcome(Tail(end), EndStatus(end))
    else if vs[0].count == 0 then Outcome([], Crashed(DivisionByZero))
    else
      Prepend(Reported(vs[0], last), Settle(vs[1..], NextLast(vs[0], last), end))
  }

  /** What the reporter delivers for a run, without the queue: an immediate
      validation error is delivered as the only message; a run that returns
      before yielding reaches state 3 with no snapshot; otherwise the
      snapshots are settled in order. */
  function Expected(run: Run): Outcome {
    if |run.values| == 0 then
      match run.end
      case Exhausted => Outcome([], Crashed(DivisionByZero))
      case Threw(e) => Outcome([ErrorText(e)], Finished)
      case Blocked => Outcome([], Suspended)
    else
      Settle(run.values, InitialPct, run.end)
  }

  /** When every snapshot has a count, settling is the throttling rule
      followed by the end of the run. */
  lemma {:induction false} SettleCounted(vs: seq<Snapshot>, last: real, end: End)
    requires Counted(vs)
    ensures Settle(vs, last, end) == Outcome(Throttle(vs, last) + Tail(end), EndStatus(end))
    decreases |vs|
  {
    if |vs| > 0 {
      CountedTail(vs);
      var head := Reported(vs[0], last);
      var next := NextLast(vs[0], last);
      SettleCounted(vs[1..], next, end);
      assert head + (Throttle(vs[1..], next) + Tail(end)) == (head + Throttle(vs[1..], next)) + Tail(end);
    }
  }

  /** A step that carries on leaves the rest of the loop to the next machine. */
  lemma DriveContinue(m: Machine, run: Run, n: Machine)
    requires |m.states| > 0 && m.cursor <= |run.values| + 1
    requires Step(m, run) == Continue(n)
    ensures Drive(m, run) == Drive(n, run)
  {
  }

  /** States 0 and 2 with a snapshot left: store it and enqueue 3, 1, 2. */
  lemma AdvanceToValue(m: Machine, run: Run)
    requires |m.states| > 0 && (m.states[0] == 0 || m.states[0] == 2)
    requires m.cursor < |run.values|
    ensures Step(m, run) == Continue(m.(states := m.states[1..] + [3, 1, 2],
                                        progress := Some(run.values[m.cursor]),
                                        cursor := m.cursor + 1))
  {
  }

  /** The message state 3 leaves pending for a counted snapshot. */
  function Pending(s: Snapshot, last: real): (msg: Message)
    requires s.count != 0
    ensures msg == Silent <==> Reported(s, last) == []
    ensures msg != Silent ==> Reported(s, last) == [msg]
  {
    if Pct(s) - last >= Threshold then Progress(s) else Silent
  }

  /** State 3 on a counted snapshot: a progress message if the percentage rose
      by the threshold, the empty message otherwise. */
  lemma BuildMessage(m: Machine, run: Run, s: Snapshot)
    requires |m.states| > 0 && m.states[0] == 3 && m.cursor <= |run.values| + 1
    requires m.progress == Some(s) && s.count != 0
    ensures Step(m, run) == Continue(m.(states := m.states[1..],
                                        lastPct := NextLast(s, m.lastPct),
                                        message := Some(Pending(s, m.lastPct))))
  {
  }

  /** State 1: deliver the pending message unless it is the empty one. */
  lemma DeliverMessage(m: Machine, run: Run, msg: Message)
    requires |m.states| > 0 && m.states[0] == 1 && m.cursor <= |run.values| + 1
    requires m.message == Some(msg)
    ensures Step(m, run) == Continue(m.(states := m.states[1..], message := None,
                                        delivered := if msg == Silent then m.delivered
                                                     else m.delivered + [msg]))
  {
  }

  /** The first half of a round: advance to a counted snapshot and build its
      message. */
  lemma RoundBuild(m: Machine, run: Run)
    requires m.states == [0] || m.states == [2]
    requires m.message == None
    requires m.cursor < |run.values| && run.values[m.cursor].count != 0
    ensures var s := run.values[m.cursor];
      Drive(m, run) == Drive(m.(states := [1, 2], progress := Some(s), cursor := m.cursor + 1,
                                lastPct := NextLast(s, m.lastPct),
                                message := Some(Pending(s, m.lastPct))),
                             run)
  {
    var s := run.values[m.cursor];
    AdvanceToValue(m, run);
    var m1 := m.(states := [3, 1, 2], progress := Some(s), cursor := m.cursor + 1);
    assert m.states[1..] + [3, 1, 2] == [3, 1, 2];
    DriveContinue(m, run, m1);
    BuildMessage(m1, run, s);
    assert m1.states[1..] == [1, 2];
    DriveContinue(m1, run, m1.(states := [1, 2], lastPct := NextLast(s, m.lastPct),
                              message := Some(Pending(s, m.lastPct))));
  }

  /** The second half of a round: state 1 delivers the pending message. */
  lemma RoundDeliver(m: Machine, run: Run, s: Snapshot, last: real)
    requires m.states == [1, 2] && m.cursor <= |run.values| + 1
    requires s.count != 0 && m.message == Some(Pending(s, last))
    ensures Drive(m, run) == Drive(m.(states := [2], message := None,
                                      delivered := m.delivered + Reported(s, last)),
                                   run)
  {
    var msg := Pending(s, last);
    DeliverMessage(m, run, msg);
    assert m.states[1..] == [2];
    var n := m.(states := [2], message := None,
                delivered := if msg == Silent then m.delivered else m.delivered + [msg]);
    DriveContinue(m, run, n);
    assert n.delivered == m.delivered + Reported(s, last);
  }

  /** One advance-build-deliver round (states 0 or 2, then 3, then 1) on a
      counted snapshot leaves the machine at state 2, one advance further, with
      the snapshot reported or dropped. */
  lemma Round(m: Machine, run: Run)
    requires m.states == [0] || m.states == [2]
    requires m.message == None
    requires m.cursor < |run.values| && run.values[m.cursor].count != 0
    ensures var s := run.values[m.cursor];
      Drive(m, run) == Drive(m.(states := [2], progress := Some(s), cursor := m.cursor + 1,
                                lastPct := NextLast(s, m.lastPct),
                                delivered := m.delivered + Reported(s, m.lastPct)),
                             run)
  {
    var s := run.values[m.cursor];
    RoundBuild(m, run);
    var m2 := m.(states := [1, 2], progress := Some(s), cursor := m.cursor + 1,
                 lastPct := NextLast(s, m.lastPct), message := Some(Pending(s, m.lastPct)));
    RoundDeliver(m2, run, s, m.lastPct);
  }

  /** State 2 on a returned traverser: deliver the completion message and stop. */
  lemma {:induction false} CompletionRound(m: Machine, run: Run)
    requires m.states == [2] && m.message == None
    requires m.cursor == |run.values| && run.end == Exhausted
    ensures Drive(m, run) == Outcome(m.delivered + [Completed], Finished)
  {
    var m1 := m.(states := [1], message := Some(Completed), cursor := m.cursor + 1);
    assert Step(m, run) == Continue(m1);
    DeliverMessage(m1, run, Completed);
    assert m1.states[1..] == [];
    var m2 := m1.(states := [], message := None, delivered := m.delivered + [Completed]);
    DriveContinue(m, run, m1);
    DriveContinue(m1, run, m2);
  }

  /** State 2 with every snapshot consumed: the end of the run decides. */
  lemma DriveAtEnd(m: Machine, run: Run)
    requires m.states == [2] && m.message == None
    requires m.cursor == |run.values|
    ensures Drive(m, run) == Prepend(m.delivered, Settle(run.values[m.cursor..], m.lastPct, run.end))
  {
    assert run.values[m.cursor..] == [];
    if run.end == Exhausted {
      CompletionRound(m, run);
    } else {
      assert Step(m, run).Halt?;
    }
  }

  /** State 2 on a snapshot with no count: state 3 divides by zero. */
  lemma DriveUncounted(m: Machine, run: Run)
    requires m.states == [2] && m.message == None
    requires m.cursor < |run.values| && run.values[m.cursor].count == 0
    ensures Drive(m, run) == Prepend(m.delivered, Settle(run.values[m.cursor..], m.lastPct, run.end))
  {
    assert run.values[m.cursor..][0] == run.values[m.cursor];
    AdvanceToValue(m, run);
    var m1 := m.(states := [3, 1, 2], progress := Some(run.values[m.cursor]), cursor := m.cursor + 1);
    assert m.states[1..] + [3, 1, 2] == [3, 1, 2];
    DriveContinue(m, run, m1);
    assert Step(m1, run) == Halt(Outcome(m.delivered, Crashed(DivisionByZero)));
    assert m.delivered + [] == m.delivered;
  }

  /** Settling a suffix that starts with a counted snapshot: that snapshot's
      message, if any, then the rest settled from the new reference point. */
  lemma {:induction false} SettleStep(vs: seq<Snapshot>, c: nat, last: real, end: End)
    requires c < |vs| && vs[c].count != 0
    ensures Settle(vs[c..], last, end)
         == Prepend(Reported(vs[c], last), Settle(vs[c + 1..], NextLast(vs[c], last), end))
  {
    assert vs[c..][0] == vs[c] && vs[c..][1..] == vs[c + 1..];
  }

  /** Delivering `head` and then `more` is delivering their concatenation. */
  lemma {:induction false} PrependTwice(d: seq<Message>, head: seq<Message>, more: Outcome)
    ensures Prepend(d + head, more) == Prepend(d, Prepend(head, more))
  {
    assert (d + head) + more.delivered == d + (head + more.delivered);
  }

  /** From state 2 with no pending message, the queue runs 2, 3, 1, 2, 3, 1, ...:
      each snapshot is turned into a message (or dropped) before the next
      advance. */
  lemma {:induction false} DriveFromAdvance(m: Machine, run: Run)
    requires m.states == [2] && m.message == None
    requires 1 <= m.cursor <= |run.values|
    ensures Drive(m, run) == Prepend(m.delivered, Settle(run.values[m.cursor..], m.lastPct, run.end))
    decreases |run.values| - m.cursor
  {
    var vs := run.values;
    var c := m.cursor;
    if c == |vs| {
      DriveAtEnd(m, run);
    } else if vs[c].count == 0 {
      DriveUncounted(m, run);
    } else {
      var s := vs[c];
      var head := Reported(s, m.lastPct);
      var last := NextLast(s, m.lastPct);
      var m3 := m.(states := [2], progress := Some(s), cursor := c + 1, lastPct := last,
                   delivered := m.delivered + head);
      var tail := Settle(vs[c + 1..], last, run.end);
      calc {
        Drive(m, run);
        { Round(m, run); }
        Drive(m3, run);
        { DriveFromAdvance(m3, run); }
        Prepend(m.delivered + head, tail);
        { PrependTwice(m.delivered, head, tail); }
        Prepend(m.delivered, Prepend(head, tail));
        { SettleStep(vs, c, m.lastPct, run.end); }
        Prepend(m.delivered, Settle(vs[c..], m.lastPct, run.end));
      }
    }
  }

  /** A run that yields nothing: the first advance decides everything. */
  lemma ReportEmptyRun(run: Run)
    requires |run.values| == 0
    ensures Report(run) == Expected(run)
  {
    var m := Initial();
    match run.end
    case Exhausted =>
      var m1 := m.(states := [3, 1, 2], cursor := 1);
      assert Step(m, run) == Continue(m1);
      DriveContinue(m, run, m1);
      assert Step(m1, run) == Halt(Outcome([], Crashed(DivisionByZero)));
    case Threw(e) =>
      var m1 := m.(states := [1], message := Some(ErrorText(e)), cursor := 1);
      assert Step(m, run) == Continue(m1);
      DeliverMessage(m1, run, ErrorText(e));
      assert m1.states[1..] == [];
      var m2 := m1.(states := [], message := None, delivered := [ErrorText(e)]);
      DriveContinue(m, run, m1);
      DriveContinue(m1, run, m2);
    case Blocked =>
      assert Step(m, run) == Halt(Outcome([], Suspended));
  }

  /** A first snapshot with no count: state 3 divides by zero at once. */
  lemma ReportUncountedFirst(run: Run)
    requires |run.values| > 0 && run.values[0].count == 0
    ensures Report(run) == Expected(run)
  {
    var vs := run.values;
    var m := Initial();
    AdvanceToValue(m, run);
    var m1 := m.(states := [3, 1, 2], progress := Some(vs[0]), cursor := 1);
    assert m.states[1..] + [3, 1, 2] == [3, 1, 2];
    DriveContinue(m, run, m1);
    assert Step(m1, run) == Halt(Outcome([], Crashed(DivisionByZero)));
  }

  /** A counted first snapshot: one round, then the induction from state 2. */
  lemma ReportCountedFirst(run: Run)
    requires |run.values| > 0 && run.values[0].count != 0
    ensures Report(run) == Expected(run)
  {
    var vs := run.values;
    var m := Initial();
    var s := vs[0];
    var head := Reported(s, InitialPct);
    var last := NextLast(s, InitialPct);
    var m3 := m.(states := [2], progress := Some(s), cursor := 1, lastPct := last,
                 delivered := m.delivered + head);
    Round(m, run);
    DriveFromAdvance(m3, run);
    assert m3.delivered == head;
  }

  /** The reporter delivers exactly what the throttling rule prescribes: the
      queue machinery adds, drops and reorders nothing. */
  lemma ReportMatchesExpected(run: Run)
    ensures Report(run) == Expected(run)
  {
    if |run.values| == 0 {
      ReportEmptyRun(run);
    } else if run.values[0].count == 0 {
      ReportUncountedFirst(run);
    } else {
      ReportCountedFirst(run);
    }
  }

  /** The reporter never reaches its two defensive exceptions: state 1 always
      finds a message, and the queue only ever holds states 0 to 3. */
  lemma NoDefensiveFaults(run: Run)
    ensures Report(run).status != Crashed(MissingMessage)
    ensures !(Report(run).status.Crashed? && Report(run).status.fault.UnexpectedState?)
  {
    ReportMatchesExpected(run);
  }

  /** Validation error path: when the first advance raises, its message is
      the one and only message delivered, and the reporter finishes. */
  lemma ErrorReportedOnce(e: ArgError)
    ensures Report(Run([], Threw(e))) == Outcome([ErrorText(e)], Finished)
  {
    ReportMatchesExpected(Run([], Threw(e)));
  }

  /** Since `$last_pct` starts at -0.01, the first snapshot with a
      non-negative percentage is always reported. */
  lemma {:induction false} FirstSnapshotReported(vs: seq<Snapshot>)
    requires |vs| > 0 && Counted(vs) && Pct(vs[0]) >= 0.0
    ensures |Throttle(vs, InitialPct)| > 0 && Throttle(vs, InitialPct)[0] == Progress(vs[0])
  {
    assert Reported(vs[0], InitialPct) == [Progress(vs[0])];
    assert Throttle(vs, InitialPct)
        == [Progress(vs[0])] + Throttle(vs[1..], NextLast(vs[0], InitialPct));
  }

  /** A traverser that yields counted snapshots and then returns: every
      snapshot is throttled in order, the first one is reported, and the last
      message is "Generation completed.". */
  lemma {:induction false} ReportCompletedRun(vs: seq<Snapshot>)
    requires |vs| > 0 && Counted(vs) && Pct(vs[0]) >= 0.0
    ensures Report(Run(vs, Exhausted)) == Outcome(Throttle(vs, InitialPct) + [Completed], Finished)
    ensures Throttle(vs, InitialPct)[0] == Progress(vs[0])
  {
    ReportMatchesExpected(Run(vs, Exhausted));
    SettleCounted(vs, InitialPct, Exhausted);
    FirstSnapshotReported(vs);
  }

  /** A snapshot whose percentage has not risen by the threshold produces no
      message, and the reference point stays where it was. */
  lemma {:induction false} SuppressedSnapshot(vs: seq<Snapshot>, last: real)
    requires |vs| > 0 && Counted(vs) && Pct(vs[0]) - last < Threshold
    ensures Throttle(vs, last) == Throttle(vs[1..], last)
  {
    assert Reported(vs[0], last) == [] && NextLast(vs[0], last) == last;
    assert Throttle(vs, last) == [] + Throttle(vs[1..], last);
  }
}
