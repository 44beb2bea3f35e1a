/** What the resource invariants mean for the connection limit, for shutdown and for the metrics. */
module ServerShutdown {
  import opened Handlers
  import opened Server
  import opened ServerResources

  // The handler runs, or is about to.
  predicate Alive(t: Task) {
    !t.phase.Leaving? && !t.phase.Discarding?
  }

  // No permit is lost or invented: those in the semaphore, the one the accept loop holds and those
  // of the tasks, including tasks that are still dropping their fields, add up to the limit.
  lemma {:induction false} PermitConservation(max: nat, trace: seq<State>, steps: seq<Step>, k: nat)
    requires IsRun(max, trace, steps) && k < |trace|
    ensures var s := trace[k];
      && s.available + One(s.acceptor.HoldsPermit()) + Sum(Permits, s.tasks) == max
      && s.active == Sum(Guards, s.tasks) <= max
  {
    RunIsSound(max, trace, steps, k);
    hide Sum;
    var s := trace[k];
    forall i | 0 <= i < |s.tasks|
      ensures Weight(Guards, s.tasks[i]) <= Weight(Permits, s.tasks[i])
    {
      assert Shaped(s.tasks[i], s.sent);
    }
    SumBelow(Guards, Permits, s.tasks);
  }

  // Every received request is a hit, a miss, a refusal, an executed SET or not classified yet; and
  // it has been answered, has failed to be answered or is in flight, of which there are at most
  // as many as connections.
  lemma {:induction false} MetricsAddUp(max: nat, trace: seq<State>, steps: seq<Step>, k: nat)
    requires IsRun(max, trace, steps) && k < |trace|
    ensures var s := trace[k];
      && s.requests == s.hits + s.misses + s.refusals + s.sets + Sum(Unclassified, s.tasks)
      && s.requests == s.responses + s.failures + Sum(InFlight, s.tasks)
      && Sum(InFlight, s.tasks) <= max
  {
    RunIsSound(max, trace, steps, k);
    hide Sum;
    var s := trace[k];
    forall i | 0 <= i < |s.tasks|
      ensures Weight(InFlight, s.tasks[i]) <= Weight(Permits, s.tasks[i])
    {
      assert Shaped(s.tasks[i], s.sent);
    }
    SumBelow(InFlight, Permits, s.tasks);
  }

  function AcceptFailures(steps: seq<Step>): nat {
    if steps == [] then 0
    else
      var last := steps[|steps| - 1];
      AcceptFailures(steps[..|steps| - 1]) + One(last.ByAcceptor? && last.accept.FailToAccept?)
  }

  // Each failed accept is counted once, whether or not it is retried at once.
  lemma {:induction false} AcceptErrorsCounted(max: nat, trace: seq<State>, steps: seq<Step>, k: nat)
    requires IsRun(max, trace, steps) && k < |trace|
    ensures trace[k].acceptErrors == AcceptFailures(steps[..k])
    decreases k
  {
    if k > 0 {
      hide Steps, Init, Sound;
      RunIsSound(max, trace, steps, k - 1);
      AcceptErrorsCounted(max, trace, steps, k - 1);
      assert steps[..k][..k - 1] == steps[..k - 1];
      CountAcceptError(trace[k - 1], trace[k], steps[k - 1]);
    }
  }

  lemma AcceptorCountsErrors(s: State, s': State, action: AcceptorAction)
    requires AcceptorStep(s, s', action)
    ensures s'.acceptErrors == s.acceptErrors + One(action.FailToAccept?)
  {
  }

  lemma MainCountsNoErrors(s: State, s': State, action: MainAction)
    requires MainStep(s, s', action)
    ensures s'.acceptErrors == s.acceptErrors
  {
  }

  lemma {:induction false} CountAcceptError(s: State, s': State, step: Step)
    requires Sound(s) && Steps(s, s', step)
    ensures s'.acceptErrors == s.acceptErrors + One(step.ByAcceptor? && step.accept.FailToAccept?)
  {
    hide StartStep, ReadStep, ExecuteStep, ReplyStep, DropStep, AcceptorStep, MainStep, Sum;
    match step
    case ByAcceptor(accept) => AcceptorCountsErrors(s, s', accept);
    case ByMain(shutdown) => MainCountsNoErrors(s, s', shutdown);
    case ByTask(i, action) => TaskMoves(s, s', i, action);
  }

  // --- Shutdown ---

  // The completion channel is closed exactly when no task holds a sender any more.
  lemma ChannelClosesExactly(max: nat, trace: seq<State>, steps: seq<Step>, k: nat)
    requires IsRun(max, trace, steps) && k < |trace| && trace[k].main.Awaiting?
    ensures trace[k].senders == 0
       <==> forall i :: 0 <= i < |trace[k].tasks| ==> !trace[k].tasks[i].sender
  {
    RunIsSound(max, trace, steps, k);
    SumZero(Senders, trace[k].tasks);
  }

  lemma {:induction false} SumZero(kind: Kind, tasks: seq<Task>)
    ensures Sum(kind, tasks) == 0
       <==> forall i :: 0 <= i < |tasks| ==> Weight(kind, tasks[i]) == 0
  {
    hide Weight;
    if tasks != [] {
      SumZero(kind, tasks[..|tasks| - 1]);
    }
  }

  // When the shutdown sequence is over, no handler is running and none will: every task has given
  // up its guard and its sender, and the count of active connections is zero.
  lemma ShutdownIsComplete(max: nat, trace: seq<State>, steps: seq<Step>, k: nat)
    requires IsRun(max, trace, steps) && k < |trace| && trace[k].main.Finished?
    ensures trace[k].active == 0
    ensures forall i :: 0 <= i < |trace[k].tasks| ==>
              var t := trace[k].tasks[i];
              !Alive(t) && !t.guard && !t.sender && (t.phase.Leaving? ==> t.inbox.Dropped?)
  {
    RunIsSound(max, trace, steps, k);
    var s := trace[k];
    SumZero(Senders, s.tasks);
    SumZero(Guards, s.tasks);
    forall i | 0 <= i < |s.tasks|
      ensures var t := s.tasks[i];
              !Alive(t) && !t.guard && !t.sender && (t.phase.Leaving? ==> t.inbox.Dropped?)
      ensures Weight(Guards, s.tasks[i]) == 0
    {
      assert Weight(Senders, s.tasks[i]) == 0;
      assert Shaped(s.tasks[i], s.sent);
    }
  }

  // No handler misses the shutdown message: from the moment it is sent, each handler has it
  // waiting for as long as it stays in its request loop.
  lemma NobodyMissesShutdown(max: nat, trace: seq<State>, steps: seq<Step>, k: nat, i: nat)
    requires IsRun(max, trace, steps) && k < |trace| && trace[k].sent
    requires i < |trace[k].tasks| && Alive(trace[k].tasks[i])
    ensures trace[k].tasks[i].inbox.Waiting?
  {
    RunIsSound(max, trace, steps, k);
    assert Shaped(trace[k].tasks[i], trace[k].sent);
  }

  lemma StepAfterSending(s: State, s': State, step: Step)
    requires Sound(s) && Steps(s, s', step) && s.sent
    ensures s'.sent && |s'.tasks| == |s.tasks|
  {
    if step.ByTask? {
      assert Shaped(s.tasks[step.i], s.sent);
      TaskMoves(s, s', step.i, step.action);
    }
  }

  // No connection is accepted after the shutdown message has been sent.
  lemma {:induction false} NoTaskAfterSending(max: nat, trace: seq<State>, steps: seq<Step>,
                                              j: nat, k: nat)
    requires IsRun(max, trace, steps) && j <= k < |trace| && trace[j].sent
    ensures trace[k].sent && |trace[k].tasks| == |trace[j].tasks|
    decreases k
  {
    hide Steps, Init, Sound;
    if j < k {
      NoTaskAfterSending(max, trace, steps, j, k - 1);
      RunIsSound(max, trace, steps, k - 1);
      assert Steps(trace[k - 1], trace[k], steps[k - 1]);
      StepAfterSending(trace[k - 1], trace[k], steps[k - 1]);
    }
  }

  // The accept loop never ends by itself: it would have to hear the shutdown message, which is
  // sent only after its future has been dropped. Every shutdown starts with the interrupt.
  lemma AcceptLoopNeverReturns(max: nat, trace: seq<State>, steps: seq<Step>, k: nat)
    requires IsRun(max, trace, steps) && k < |steps|
    ensures steps[k] != ByAcceptor(AcceptorAction.HearShutdown)
    ensures steps[k] != ByMain(AcceptorReturned)
  {
    RunIsSound(max, trace, steps, k);
    assert Steps(trace[k], trace[k + 1], steps[k]);
  }

  // Giving something up never takes a count below zero.
  lemma CountsNeverUnderflow(max: nat, trace: seq<State>, steps: seq<Step>, k: nat)
    requires IsRun(max, trace, steps) && k < |trace|
    ensures var s := trace[k];
      && (s.main.DroppingAcceptor? || s.main.DroppingSender? ==> s.senders > 0)
      && forall i :: 0 <= i < |s.tasks| ==>
           (s.tasks[i].guard ==> s.active > 0) && (s.tasks[i].sender ==> s.senders > 0)
  {
    RunIsSound(max, trace, steps, k);
    var s := trace[k];
    forall i | 0 <= i < |s.tasks|
      ensures (s.tasks[i].guard ==> s.active > 0) && (s.tasks[i].sender ==> s.senders > 0)
    {
      SumMember(Guards, s.tasks, i);
      SumMember(Senders, s.tasks, i);
    }
  }

  lemma NobodyActs(s: State, s': State, step: Step)
    requires s.main.Finished? && s.acceptor.Halted? && Steps(s, s', step)
    ensures step.ByTask?
  {
  }

  lemma OnlyDropsLeft(s: State, s': State, i: nat, action: TaskAction)
    requires TaskStep(s, s', i, action) && !Alive(s.tasks[i])
    ensures DropStep(s, s', i, action)
  {
  }

  lemma DropQuietly(s: State, s': State, i: nat, action: TaskAction)
    requires i < |s.tasks| && !s.tasks[i].guard && !s.tasks[i].sender
    requires DropStep(s, s', i, action)
    ensures s' == s.(tasks := s'.tasks, available := s'.available)
  {
  }

  lemma {:induction false} QuietStep(s: State, s': State, step: Step)
    requires s.main.Finished? && s.acceptor.Halted?
    requires forall i :: 0 <= i < |s.tasks| ==>
               !Alive(s.tasks[i]) && !s.tasks[i].guard && !s.tasks[i].sender
    requires Steps(s, s', step)
    ensures s' == s.(tasks := s'.tasks, available := s'.available)
  {
    hide StartStep, ReadStep, ExecuteStep, ReplyStep, DropStep, AcceptorStep, MainStep;
    NobodyActs(s, s', step);
    assert !Alive(s.tasks[step.i]);
    OnlyDropsLeft(s, s', step.i, step.action);
    DropQuietly(s, s', step.i, step.action);
  }

  // The metrics logged at the end are final: nothing but left-over permits and subscriptions can
  // still be dropped.
  lemma {:induction false} FinalMetricsAreFinal(max: nat, trace: seq<State>, steps: seq<Step>, k: nat)
    requires IsRun(max, trace, steps) && k < |steps| && trace[k].main.Finished?
    ensures var s, s' := trace[k], trace[k + 1];
      s' == s.(tasks := s'.tasks, available := s'.available)
  {
    hide Steps;
    RunIsSound(max, trace, steps, k);
    ShutdownIsComplete(max, trace, steps, k);
    QuietStep(trace[k], trace[k + 1], steps[k]);
  }

  // --- Runs in which permits are late ---

  ghost predicate RunTo(max: nat, trace: seq<State>, steps: seq<Step>, s: State) {
    IsRun(max, trace, steps) && trace[|steps|] == s
  }

  lemma {:induction false} Extend(max: nat, trace: seq<State>, steps: seq<Step>, s: State, s': State, step: Step)
    requires RunTo(max, trace, steps, s) && Steps(s, s', step)
    ensures RunTo(max, trace + [s'], steps + [step], s')
  {
    hide Steps, Init;
    var trace', steps' := trace + [s'], steps + [step];
    forall k | 0 <= k < |steps'| ensures Steps(trace'[k], trace'[k + 1], steps'[k]) {
      assert k < |steps| ==> Steps(trace[k], trace[k + 1], steps[k]);
    }
  }

  // `n` connections have been accepted, and no task has made a step.
  function Accepted(max: nat, n: nat): State
    requires n <= max
  {
    Init(max).(available := max - n, senders := 2 + n, tasks := seq(n, _ => NewTask([])))
  }

  lemma {:induction false} AcceptNext(max: nat, n: nat)
    requires n < max
    ensures var s1 := Accepted(max, n).(acceptor := Accepting, available := max - n - 1);
      && Steps(Accepted(max, n), s1, ByAcceptor(AcquirePermit))
      && Steps(s1, Accepted(max, n + 1), ByAcceptor(Accept([])))
  {
    assert seq(n + 1, _ => NewTask([])) == seq(n, _ => NewTask([])) + [NewTask([])];
  }

  lemma {:induction false} AcceptMany(max: nat, n: nat) returns (trace: seq<State>, steps: seq<Step>)
    requires n <= max
    ensures RunTo(max, trace, steps, Accepted(max, n))
  {
    trace, steps := [Init(max)], [];
    assert Accepted(max, 0) == Init(max);
    assert RunTo(max, trace, steps, Accepted(max, 0));
    hide RunTo, Steps, Accepted;
    for k := 0 to n
      invariant RunTo(max, trace, steps, Accepted(max, k))
    {
      var s1 := Accepted(max, k).(acceptor := Accepting, available := max - k - 1);
      AcceptNext(max, k);
      Extend(max, trace, steps, Accepted(max, k), s1, ByAcceptor(AcquirePermit));
      trace, steps := trace + [s1], steps + [ByAcceptor(AcquirePermit)];
      Extend(max, trace, steps, s1, Accepted(max, k + 1), ByAcceptor(Accept([])));
      trace, steps := trace + [Accepted(max, k + 1)], steps + [ByAcceptor(Accept([]))];
    }
  }

  // The stages of a handler that hears the shutdown message first of all, up to where only its permit
  // is left.
  const T0 := NewTask([]).(inbox := Waiting)
  const T1 := T0.(phase := Reading, guard := true)
  const T2 := T1.(phase := Leaving(Stopped), inbox := Empty)
  const T3 := T2.(guard := false)
  const T4 := T3.(inbox := Dropped)
  const T5 := T4.(sender := false)

  function Fleet(n: nat, m: nat, t: Task): (ts: seq<Task>)
    ensures |ts| == n
  {
    seq(n, k => if k < m then T5 else if k == m then t else T0)
  }

  // The message has been sent to `n` tasks, `main` waits, `m` tasks are left with their permits only,
  // and the next one is `t`.
  function Stopping(max: nat, n: nat, m: nat, t: Task): State
    requires m < n <= max || m == n <= max
  {
    Init(max).(main := Awaiting, acceptor := Halted, acceptorInbox := Dropped, sent := true,
               acceptorSender := false, mainSender := false, available := max - n,
               senders := if m == n then 0 else n - m - 1 + One(t.sender),
               active := if m == n then 0 else One(t.guard),
               tasks := Fleet(n, m, t))
  }

  lemma {:induction false} RequestShutdown(max: nat, n: nat, trace: seq<State>, steps: seq<Step>)
    returns (trace': seq<State>, steps': seq<Step>)
    requires n <= max && RunTo(max, trace, steps, Accepted(max, n))
    ensures RunTo(max, trace', steps', Stopping(max, n, 0, T0))
  {
    hide RunTo;
    var s0 := Accepted(max, n);
    var s1 := s0.(main := Notifying, acceptor := Halted, acceptorInbox := Dropped);
    var s2 := s1.(main := DroppingAcceptor, sent := true, tasks := Fleet(n, 0, T0));
    var s3 := s2.(main := DroppingSender, acceptorSender := false, senders := n + 1);
    Extend(max, trace, steps, s0, s1, ByMain(Interrupt));
    trace', steps' := trace + [s1], steps + [ByMain(Interrupt)];
    assert TellAll(s1.tasks) == s2.tasks;
    Extend(max, trace', steps', s1, s2, ByMain(Notify));
    trace', steps' := trace' + [s2], steps' + [ByMain(Notify)];
    Extend(max, trace', steps', s2, s3, ByMain(DropAcceptor));
    trace', steps' := trace' + [s3], steps' + [ByMain(DropAcceptor)];
    var s4 := Stopping(max, n, 0, T0);
    assert s4 == s3.(main := Awaiting, mainSender := false, senders := n);
    Extend(max, trace', steps', s3, s4, ByMain(DropOwnSender));
    trace', steps' := trace' + [s4], steps' + [ByMain(DropOwnSender)];
  }

  lemma {:induction false} NextStage(n: nat, m: nat, t: Task, t': Task)
    requires m < n
    ensures Fleet(n, m, t)[m] == t && Fleet(n, m, t)[m := t'] == Fleet(n, m, t')
  {
  }

  lemma {:induction false} LeaveLoop(max: nat, n: nat, m: nat)
    requires m < n <= max
    ensures Steps(Stopping(max, n, m, T0), Stopping(max, n, m, T1), ByTask(m, Start))
    ensures Steps(Stopping(max, n, m, T1), Stopping(max, n, m, T2), ByTask(m, Obey))
  {
    hide Fleet;
    NextStage(n, m, T0, T1);
    NextStage(n, m, T1, T2);
    assert StartStep(Stopping(max, n, m, T0), Stopping(max, n, m, T1), m, Start);
    assert ReadStep(Stopping(max, n, m, T1), Stopping(max, n, m, T2), m, Obey);
  }

  lemma {:induction false} GiveUpGuard(max: nat, n: nat, m: nat)
    requires m < n <= max
    ensures Steps(Stopping(max, n, m, T2), Stopping(max, n, m, T3), ByTask(m, DropGuard))
  {
    hide Fleet;
    NextStage(n, m, T2, T3);
    assert DropStep(Stopping(max, n, m, T2), Stopping(max, n, m, T3), m, DropGuard);
  }

  lemma {:induction false} GiveUpInbox(max: nat, n: nat, m: nat)
    requires m < n <= max
    ensures Steps(Stopping(max, n, m, T3), Stopping(max, n, m, T4), ByTask(m, DropInbox))
  {
    hide Fleet;
    NextStage(n, m, T3, T4);
    assert DropStep(Stopping(max, n, m, T3), Stopping(max, n, m, T4), m, DropInbox);
  }

  lemma {:induction false} GiveUpSender(max: nat, n: nat, m: nat)
    requires m < n <= max
    ensures Steps(Stopping(max, n, m, T4), Stopping(max, n, m, T5), ByTask(m, TaskAction.DropSender))
  {
    hide Fleet;
    NextStage(n, m, T4, T5);
    assert DropStep(Stopping(max, n, m, T4), Stopping(max, n, m, T5), m, TaskAction.DropSender);
  }

  lemma NextTask(max: nat, n: nat, m: nat)
    requires m < n <= max
    ensures Stopping(max, n, m, T5) == Stopping(max, n, m + 1, T0)
  {
    assert Fleet(n, m, T5) == Fleet(n, m + 1, T0);
  }

  lemma {:induction false} StopOne(max: nat, n: nat, m: nat, trace: seq<State>, steps: seq<Step>)
    returns (trace': seq<State>, steps': seq<Step>)
    requires m < n <= max && RunTo(max, trace, steps, Stopping(max, n, m, T0))
    ensures RunTo(max, trace', steps', Stopping(max, n, m + 1, T0))
  {
    hide Steps, RunTo, Stopping;
    LeaveLoop(max, n, m);
    GiveUpGuard(max, n, m);
    GiveUpInbox(max, n, m);
    GiveUpSender(max, n, m);
    NextTask(max, n, m);
    trace', steps' := trace, steps;
    var ts := [T0, T1, T2, T3, T4, T5];
    var drops := [Start, Obey, DropGuard, DropInbox, TaskAction.DropSender];
    for k := 0 to 5
      invariant RunTo(max, trace', steps', Stopping(max, n, m, ts[k]))
    {
      var s, s' := Stopping(max, n, m, ts[k]), Stopping(max, n, m, ts[k + 1]);
      Extend(max, trace', steps', s, s', ByTask(m, drops[k]));
      trace', steps' := trace' + [s'], steps' + [ByTask(m, drops[k])];
    }
  }

  lemma CompleteLast(max: nat, n: nat)
    requires n <= max
    ensures var s := Stopping(max, n, n, T0);
      Steps(s, s.(main := Finished), ByMain(Complete)) && s.available == max - n
  {
  }

  lemma ReachesLast(max: nat, trace: seq<State>, steps: seq<Step>, s: State)
    requires RunTo(max, trace, steps, s)
    ensures IsRun(max, trace, steps) && trace[|steps|] == s
  {
  }

  // The end of shutdown does not mean that all permits are back: a handler drops its sender before
  // its permit. Any number of permits up to the limit can be late.
  lemma {:induction false} PermitsMayLag(max: nat, late: nat)
    returns (trace: seq<State>, steps: seq<Step>)
    requires late <= max
    ensures IsRun(max, trace, steps)
    ensures trace[|steps|].main.Finished? && trace[|steps|].available == max - late
  {
    hide Steps, RunTo, Stopping, IsRun;
    trace, steps := AcceptMany(max, late);
    trace, steps := RequestShutdown(max, late, trace, steps);
    for m := 0 to late
      invariant RunTo(max, trace, steps, Stopping(max, late, m, T0))
    {
      trace, steps := StopOne(max, late, m, trace, steps);
    }
    CompleteLast(max, late);
    var s := Stopping(max, late, late, T0);
    var last := s.(main := Finished);
    Extend(max, trace, steps, s, last, ByMain(Complete));
    trace, steps := trace + [last], steps + [ByMain(Complete)];
    ReachesLast(max, trace, steps, last);
  }

  // Every run that has finished shutdown has all permits back.
  ghost predicate AllPermitsBack(max: nat) {
    forall trace: seq<State>, steps: seq<Step>, k: nat ::
      (IsRun(max, trace, steps) && k < |trace| && trace[k].main.Finished?) ==>
        trace[k].available == max
  }

  lemma {:induction false} PermitsBackOnlyWithoutConnections(max: nat)
    ensures AllPermitsBack(max) <==> max == 0
  {
    hide IsRun;
    if max == 0 {
      forall trace: seq<State>, steps: seq<Step>, k: nat | IsRun(max, trace, steps) && k < |trace|
        ensures trace[k].available == max
      {
        PermitConservation(max, trace, steps, k);
      }
    } else {
      var trace, steps := PermitsMayLag(max, 1);
      RunLength(max, trace, steps);
      assert trace[|steps|].available != max;
    }
  }

  lemma RunLength(max: nat, trace: seq<State>, steps: seq<Step>)
    requires IsRun(max, trace, steps)
    ensures |trace| == |steps| + 1
  {
  }
}
