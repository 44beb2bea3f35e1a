/** Permits, guards, senders, subscriptions and counters, in every state of every run. */
module ServerResources {
  import opened Arguments
  import opened Bytes
  import opened Commands
  import opened Encoding
  import opened Exchanges
  import opened Handlers
  import opened Histories
  import opened Server
  import opened Sessions

  // What can be counted over all tasks.
  datatype Kind = Permits | Guards | Senders | Unclassified | InFlight | NewHits | NewMisses | Settled | Failed

  function Weight(kind: Kind, t: Task): nat {
    match kind
    case Permits => if t.permit then 1 else 0
    case Guards => if t.guard then 1 else 0
    case Senders => if t.sender then 1 else 0
    case Unclassified => if t.phase.Received? || t.phase.LookedUp? then 1 else 0
    case InFlight =>
      if t.phase.Received? || t.phase.LookedUp? || t.phase.Replying? || t.phase.Replied? then 1
      else 0
    case NewHits => if t.phase.LookedUp? && t.phase.reply.Bulk? then 1 else 0
    case NewMisses => if t.phase.LookedUp? && !t.phase.reply.Bulk? then 1 else 0
    case Settled => |t.replies| - One(|t.replies| > 0 && LastUnsettled(t.phase))
    case Failed => One(t.phase == Leaving(WriteError))
  }

  // The last reply has been decided but not counted as written.
  predicate LastUnsettled(phase: Phase) {
    phase.LookedUp? || phase.Replying? || phase.Replied? || phase == Leaving(WriteError)
  }

  function Sum(kind: Kind, tasks: seq<Task>): nat {
    if tasks == [] then 0
    else Sum(kind, tasks[..|tasks| - 1]) + Weight(kind, tasks[|tasks| - 1])
  }

  lemma {:induction false} SumPut(kind: Kind, tasks: seq<Task>, i: nat, t: Task)
    requires i < |tasks|
    ensures Sum(kind, tasks[i := t]) + Weight(kind, tasks[i]) == Sum(kind, tasks) + Weight(kind, t)
    decreases |tasks|
  {
    hide Weight;
    var n := |tasks| - 1;
    if i == n {
      assert tasks[i := t][..n] == tasks[..n];
    } else {
      assert tasks[i := t][..n] == tasks[..n][i := t];
      SumPut(kind, tasks[..n], i, t);
    }
  }

  lemma SumSnoc(kind: Kind, tasks: seq<Task>, t: Task)
    ensures Sum(kind, tasks + [t]) == Sum(kind, tasks) + Weight(kind, t)
  {
    assert (tasks + [t])[..|tasks|] == tasks;
  }

  lemma {:induction false} SumBelow(low: Kind, high: Kind, tasks: seq<Task>)
    requires forall i :: 0 <= i < |tasks| ==> Weight(low, tasks[i]) <= Weight(high, tasks[i])
    ensures Sum(low, tasks) <= Sum(high, tasks)
  {
    hide Weight;
    if tasks != [] {
      SumBelow(low, high, tasks[..|tasks| - 1]);
    }
  }

  lemma {:induction false} SumMember(kind: Kind, tasks: seq<Task>, i: nat)
    requires i < |tasks|
    ensures Weight(kind, tasks[i]) <= Sum(kind, tasks)
  {
    hide Weight;
    if i < |tasks| - 1 {
      SumMember(kind, tasks[..|tasks| - 1], i);
    }
  }

  lemma {:induction false} SumSame(kind: Kind, tasks: seq<Task>, others: seq<Task>)
    requires |tasks| == |others|
    requires forall i :: 0 <= i < |tasks| ==> Weight(kind, tasks[i]) == Weight(kind, others[i])
    ensures Sum(kind, tasks) == Sum(kind, others)
  {
    hide Weight;
    if tasks != [] {
      SumSame(kind, tasks[..|tasks| - 1], others[..|tasks| - 1]);
    }
  }

  // --- The invariants ---

  // A running handler owns everything. A returning one gives its possessions up from the guard
  // to the permit. Once shutdown is sent, no running task has missed the message.
  predicate Shaped(t: Task, sent: bool) {
    && (!sent ==> !t.inbox.Waiting?)
    && match t.phase
       case Leaving(_) =>
         && (t.guard ==> !t.inbox.Dropped?)
         && (!t.inbox.Dropped? ==> t.sender)
         && (t.sender ==> t.permit)
       case Discarding => !t.guard
       case _ =>
         && t.guard == !t.phase.Spawned?
         && t.inbox == (if sent then Waiting else Empty)
         && t.sender && t.permit
  }

  predicate MainShaped(s: State) {
    && s.mainSender == !(s.main.Awaiting? || s.main.Finished?)
    && s.acceptorSender == (s.main.Selecting? || s.main.Notifying? || s.main.DroppingAcceptor?)
    && s.sent == !(s.main.Selecting? || s.main.Notifying?)
    && (!s.main.Selecting? ==> s.acceptor.Halted?)
    && (s.main.Selecting? ==> !s.acceptor.Halted? && s.acceptorInbox.Empty?)
    && (s.main.Finished? ==> s.senders == 0)
  }

  function One(b: bool): nat {
    if b then 1 else 0
  }

  predicate Conserved(s: State) {
    && s.available + One(s.acceptor.HoldsPermit()) + Sum(Permits, s.tasks) == s.max
    && s.active == Sum(Guards, s.tasks)
    && s.senders == One(s.mainSender) + One(s.acceptorSender) + Sum(Senders, s.tasks)
  }

  // Each request is classified once and answered once, or still on its way.
  predicate Accounted(s: State) {
    && s.requests == s.hits + s.misses + s.refusals + s.sets + Sum(Unclassified, s.tasks)
    && s.requests == s.responses + s.failures + Sum(InFlight, s.tasks)
  }

  predicate AllShaped(s: State) {
    forall i :: 0 <= i < |s.tasks| ==> Shaped(s.tasks[i], s.sent)
  }

  predicate Sound(s: State) {
    MainShaped(s) && AllShaped(s) && Conserved(s) && Accounted(s)
  }

  // --- Task steps ---

  // Nothing but one task moves.
  predicate OnlyTask(s: State, s': State, i: nat) {
    && i < |s.tasks| == |s'.tasks|
    && s'.tasks == s.tasks[i := s'.tasks[i]]
    && s'.max == s.max && s'.main == s.main && s'.acceptErrors == s.acceptErrors
    && s'.acceptor == s.acceptor && s'.acceptorInbox == s.acceptorInbox
    && s'.mainSender == s.mainSender && s'.acceptorSender == s.acceptorSender && s'.sent == s.sent
  }

  // What a task gives up or takes is booked.
  predicate Booked(s: State, s': State, t: Task, t': Task) {
    && s'.available + Weight(Permits, t') == s.available + Weight(Permits, t)
    && s'.active + Weight(Guards, t) == s.active + Weight(Guards, t')
    && s'.senders + Weight(Senders, t) == s.senders + Weight(Senders, t')
  }

  // A task that receives, classifies or answers a request is booked.
  predicate Metered(s: State, s': State, t: Task, t': Task) {
    && s'.requests + s.hits + s.misses + s.refusals + s.sets + Weight(Unclassified, t)
         == s.requests + s'.hits + s'.misses + s'.refusals + s'.sets + Weight(Unclassified, t')
    && s'.requests + s.responses + s.failures + Weight(InFlight, t)
         == s.requests + s'.responses + s'.failures + Weight(InFlight, t')
  }

  // A step of one task: nothing else moves, and what the task gains or loses is booked.
  predicate Moves(s: State, s': State, i: nat) {
    && OnlyTask(s, s', i)
    && (s.main.Finished? && s.senders == 0 ==> s'.senders == 0)
    && (Shaped(s.tasks[i], s.sent) ==> Shaped(s'.tasks[i], s.sent))
    && Booked(s, s', s.tasks[i], s'.tasks[i])
    && Metered(s, s', s.tasks[i], s'.tasks[i])
  }

  // Steps that neither give up nor take any possession.
  lemma {:induction false} KeepingMoves(s: State, s': State, i: nat)
    requires OnlyTask(s, s', i)
    requires s'.available == s.available && s'.active == s.active && s'.senders == s.senders
    requires var t, t' := s.tasks[i], s'.tasks[i];
      && t'.guard == t.guard && t'.sender == t.sender && t'.permit == t.permit
      && (Shaped(t, s.sent) ==> Shaped(t', s.sent))
    requires Metered(s, s', s.tasks[i], s'.tasks[i])
    ensures Moves(s, s', i)
  {
    hide Shaped, Metered;
  }

  lemma StartMoves(s: State, s': State, i: nat, action: TaskAction)
    requires i < |s.tasks| && StartStep(s, s', i, action)
    requires Shaped(s.tasks[i], s.sent)
    ensures Moves(s, s', i)
  {
  }

  lemma {:induction false} TakeMoves(s: State, s': State, i: nat)
    requires i < |s.tasks| && ReadStep(s, s', i, Take)
    ensures Moves(s, s', i)
  {
    hide Next, Moves;
    KeepingMoves(s, s', i);
  }

  lemma {:induction false} StopReadingMoves(s: State, s': State, i: nat, action: TaskAction)
    requires i < |s.tasks| && ReadStep(s, s', i, action) && !action.Take?
    ensures Moves(s, s', i)
  {
    hide Next, Moves;
    assert OnlyTask(s, s', i);
    KeepingMoves(s, s', i);
  }

  lemma {:induction false} ReadMoves(s: State, s': State, i: nat, action: TaskAction)
    requires i < |s.tasks| && ReadStep(s, s', i, action)
    ensures Moves(s, s', i)
  {
    hide Moves, ReadStep;
    if action.Take? {
      TakeMoves(s, s', i);
    } else {
      StopReadingMoves(s, s', i, action);
    }
  }

  lemma {:induction false} ExecuteMoves(s: State, s': State, i: nat)
    requires i < |s.tasks| && ExecuteStep(s, s', i)
    ensures Moves(s, s', i)
  {
    hide Moves, Interpret;
    match Interpret(s.tasks[i].phase.frame)
    case Rejected(_) => RefusalMoves(s, s', i);
    case Done(_) => CommandMoves(s, s', i);
  }

  lemma {:induction false} RefusalMoves(s: State, s': State, i: nat)
    requires i < |s.tasks| && ExecuteStep(s, s', i)
    requires Interpret(s.tasks[i].phase.frame).Rejected?
    ensures Moves(s, s', i)
  {
    hide Interpret, ErrorReply, ArgumentError.Text, Moves;
    KeepingMoves(s, s', i);
  }

  lemma {:induction false} CommandMoves(s: State, s': State, i: nat)
    requires i < |s.tasks| && ExecuteStep(s, s', i)
    requires Interpret(s.tasks[i].phase.frame).Done?
    ensures Moves(s, s', i)
  {
    hide Interpret, Find, LookupReply, OkReply, Moves;
    KeepingMoves(s, s', i);
  }

  lemma {:induction false} ReplyMoves(s: State, s': State, i: nat, action: TaskAction)
    requires i < |s.tasks| && ReplyStep(s, s', i, action)
    ensures Moves(s, s', i)
  {
    hide Moves, ReplyStep;
    match action
    case CountLookup => CountLookupMoves(s, s', i);
    case CountReply => CountReplyMoves(s, s', i);
    case _ => SendMoves(s, s', i, action);
  }

  lemma {:induction false} CountLookupMoves(s: State, s': State, i: nat)
    requires i < |s.tasks| && ReplyStep(s, s', i, CountLookup)
    ensures Moves(s, s', i)
  {
    hide Moves;
    KeepingMoves(s, s', i);
  }

  lemma {:induction false} CountReplyMoves(s: State, s': State, i: nat)
    requires i < |s.tasks| && ReplyStep(s, s', i, CountReply)
    ensures Moves(s, s', i)
  {
    hide Moves;
    KeepingMoves(s, s', i);
  }

  lemma {:induction false} SendMoves(s: State, s': State, i: nat, action: TaskAction)
    requires i < |s.tasks| && ReplyStep(s, s', i, action)
    requires !action.CountLookup? && !action.CountReply?
    ensures Moves(s, s', i)
  {
    hide Encode, ReadErrorReply, Moves;
    KeepingMoves(s, s', i);
  }

  // Steps that only give up a possession.
  lemma {:induction false} DroppingMoves(s: State, s': State, i: nat)
    requires OnlyTask(s, s', i) && s'.tasks[i].phase == s.tasks[i].phase
    requires s'.requests == s.requests && s'.hits == s.hits && s'.misses == s.misses
    requires s'.refusals == s.refusals && s'.sets == s.sets
    requires s'.responses == s.responses && s'.failures == s.failures
    requires s'.senders <= s.senders
    requires Shaped(s.tasks[i], s.sent) ==> Shaped(s'.tasks[i], s.sent)
    requires Booked(s, s', s.tasks[i], s'.tasks[i])
    ensures Moves(s, s', i)
  {
    hide Shaped, Booked;
  }

  lemma {:induction false} DropGuardMoves(s: State, s': State, i: nat)
    requires i < |s.tasks| && DropStep(s, s', i, DropGuard)
    ensures Moves(s, s', i)
  {
    hide Moves;
    DroppingMoves(s, s', i);
  }

  lemma {:induction false} DropInboxMoves(s: State, s': State, i: nat)
    requires i < |s.tasks| && DropStep(s, s', i, DropInbox)
    ensures Moves(s, s', i)
  {
    hide Moves;
    DroppingMoves(s, s', i);
  }

  lemma {:induction false} DropSenderMoves(s: State, s': State, i: nat)
    requires i < |s.tasks| && DropStep(s, s', i, TaskAction.DropSender)
    ensures Moves(s, s', i)
  {
    hide Moves;
    DroppingMoves(s, s', i);
  }

  lemma {:induction false} DropPermitMoves(s: State, s': State, i: nat)
    requires i < |s.tasks| && DropStep(s, s', i, DropPermit)
    ensures Moves(s, s', i)
  {
    hide Moves;
    DroppingMoves(s, s', i);
  }

  lemma NothingElseDropped(s: State, s': State, i: nat, action: TaskAction)
    requires i < |s.tasks| && DropStep(s, s', i, action)
    ensures action.DropGuard? || action.DropInbox? || action.DropSender? || action.DropPermit?
  {
  }

  lemma {:induction false} DropMoves(s: State, s': State, i: nat, action: TaskAction)
    requires i < |s.tasks| && DropStep(s, s', i, action)
    ensures Moves(s, s', i)
  {
    hide Moves, DropStep;
    NothingElseDropped(s, s', i, action);
    match action
    case DropGuard => DropGuardMoves(s, s', i);
    case DropInbox => DropInboxMoves(s, s', i);
    case DropSender => DropSenderMoves(s, s', i);
    case DropPermit => DropPermitMoves(s, s', i);
  }

  lemma {:induction false} TaskMoves(s: State, s': State, i: nat, action: TaskAction)
    requires TaskStep(s, s', i, action)
    requires Shaped(s.tasks[i], s.sent)
    ensures Moves(s, s', i)
  {
    hide Moves, StartStep, ReadStep, ExecuteStep, ReplyStep, DropStep;
    if StartStep(s, s', i, action) {
      StartMoves(s, s', i, action);
    } else if ReadStep(s, s', i, action) {
      ReadMoves(s, s', i, action);
    } else if action.Execute? && ExecuteStep(s, s', i) {
      ExecuteMoves(s, s', i);
    } else if ReplyStep(s, s', i, action) {
      ReplyMoves(s, s', i, action);
    } else {
      DropMoves(s, s', i, action);
    }
  }

  lemma {:induction false} MovesKeepSound(s: State, s': State, i: nat)
    requires Sound(s) && Moves(s, s', i)
    ensures Sound(s') && s'.max == s.max
  {
    hide Weight, Shaped;
    var t' := s'.tasks[i];
    SumPut(Permits, s.tasks, i, t');
    SumPut(Guards, s.tasks, i, t');
    SumPut(Senders, s.tasks, i, t');
    SumPut(Unclassified, s.tasks, i, t');
    SumPut(InFlight, s.tasks, i, t');
  }

  // --- Steps of the accept loop and of `main` ---

  lemma NewTaskWeighs(input: seq<byte>, sent: bool)
    ensures var t := NewTask(input);
      && Weight(Permits, t) == Weight(Senders, t) == 1
      && Weight(Guards, t) == Weight(Unclassified, t) == Weight(InFlight, t) == 0
      && (!sent ==> Shaped(t, sent))
  {
  }

  lemma {:induction false} AcceptKeepsSound(s: State, s': State, input: seq<byte>)
    requires Sound(s) && AcceptorStep(s, s', Accept(input))
    ensures Sound(s') && s'.max == s.max
  {
    hide Sum, Weight, Shaped, NewTask;
    var t := NewTask(input);
    NewTaskWeighs(input, s.sent);
    SumSnoc(Permits, s.tasks, t);
    SumSnoc(Guards, s.tasks, t);
    SumSnoc(Senders, s.tasks, t);
    SumSnoc(Unclassified, s.tasks, t);
    SumSnoc(InFlight, s.tasks, t);
  }

  lemma {:induction false} AcceptorKeepsSound(s: State, s': State, action: AcceptorAction)
    requires Sound(s) && AcceptorStep(s, s', action)
    ensures Sound(s') && s'.max == s.max
  {
    hide Sum, Shaped, NewTask;
    if action.Accept? {
      hide Sound, AcceptorStep;
      AcceptKeepsSound(s, s', action.input);
    } else {
      assert s'.tasks == s.tasks && s'.sent == s.sent;
    }
  }

  lemma TellingKeepsWeight(kind: Kind, tasks: seq<Task>)
    requires kind.Permits? || kind.Guards? || kind.Senders? || kind.Unclassified? || kind.InFlight?
    ensures Sum(kind, TellAll(tasks)) == Sum(kind, tasks)
  {
    SumSame(kind, tasks, TellAll(tasks));
  }

  lemma TellingKeepsShape(t: Task)
    requires Shaped(t, false)
    ensures Shaped(TellTask(t), true)
  {
  }

  lemma {:induction false} NotifyKeepsSound(s: State, s': State)
    requires Sound(s) && MainStep(s, s', Notify)
    ensures Sound(s') && s'.max == s.max
  {
    hide Sum, Shaped, TellTask;
    TellingKeepsWeight(Permits, s.tasks);
    TellingKeepsWeight(Guards, s.tasks);
    TellingKeepsWeight(Senders, s.tasks);
    TellingKeepsWeight(Unclassified, s.tasks);
    TellingKeepsWeight(InFlight, s.tasks);
    forall i | 0 <= i < |s'.tasks| ensures Shaped(s'.tasks[i], s'.sent) {
      assert Shaped(s.tasks[i], s.sent);
      TellingKeepsShape(s.tasks[i]);
    }
  }

  lemma {:induction false} MainKeepsSound(s: State, s': State, action: MainAction)
    requires Sound(s) && MainStep(s, s', action)
    ensures Sound(s') && s'.max == s.max
  {
    if action.Notify? {
      hide Sound, MainStep;
      NotifyKeepsSound(s, s');
    } else {
      hide Sum, Shaped, TellAll;
      assert s'.tasks == s.tasks && s'.sent == s.sent;
    }
  }

  lemma StepKeepsSound(s: State, s': State, step: Step)
    requires Sound(s) && Steps(s, s', step)
    ensures Sound(s') && s'.max == s.max
  {
    match step
    case ByAcceptor(accept) => AcceptorKeepsSound(s, s', accept);
    case ByMain(shutdown) => MainKeepsSound(s, s', shutdown);
    case ByTask(i, action) =>
      TaskMoves(s, s', i, action);
      MovesKeepSound(s, s', i);
  }

  lemma InitIsSound(max: nat)
    ensures Sound(Init(max)) && Init(max).max == max
  {
  }

  // Every state of every run is sound.
  lemma {:induction false} RunIsSound(max: nat, trace: seq<State>, steps: seq<Step>, k: nat)
    requires IsRun(max, trace, steps) && k < |trace|
    ensures Sound(trace[k]) && trace[k].max == max
    decreases k
  {
    hide Sound, Steps, Init;
    if k == 0 {
      InitIsSound(max);
    } else {
      RunIsSound(max, trace, steps, k - 1);
      StepKeepsSound(trace[k - 1], trace[k], steps[k - 1]);
    }
  }
}
