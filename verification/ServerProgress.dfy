/** No task is ever stuck: whatever has happened so far, each connection can still be served to the end
    and give back all that it holds. */
module ServerProgress {
  import opened Arguments
  import opened Bytes
  import opened Commands
  import opened Encoding
  import opened Exchanges
  import opened Handlers
  import opened Histories
  import opened Server
  import opened ServerHistory
  import opened ServerResources
  import opened ServerShutdown
  import opened ServerTheorems
  import opened Sessions

  // The handler has returned and its fields are gone.
  predicate Gone(t: Task) {
    && (t.phase.Leaving? || t.phase.Discarding?)
    && !t.guard && t.inbox.Dropped? && !t.sender && !t.permit
  }

  // What a task does next when nothing disturbs it.
  function NextAction(t: Task): TaskAction {
    match t.phase
    case Spawned => Start
    case Reading =>
      (match Next(t.pending)
       case FrameItem(_, _) => Take
       case AtEof => SeeEnd
       case Broken(_) => SeeBroken)
    case Received(_) => Execute
    case LookedUp(_) => CountLookup
    case Replying(_) => Send
    case Replied => CountReply
    case Reporting(error) => Report(|Encode(ReadErrorReply(error))|)
    case _ =>
      if t.guard then DropGuard
      else if !t.inbox.Dropped? then DropInbox
      else if t.sender then TaskAction.DropSender
      else DropPermit
  }

  // How far a task is from its end: first by the input left, then by the steps left with it.
  function StepsLeft(t: Task): nat {
    match t.phase
    case Spawned => 20
    case Received(_) => 19
    case LookedUp(_) => 18
    case Replying(_) => 17
    case Replied => 16
    case Reading => 15
    case Reporting(_) => 14
    case _ => One(t.guard) + One(!t.inbox.Dropped?) + One(t.sender) + One(t.permit)
  }

  predicate Nearer(t: Task, t': Task) {
    |t'.pending| < |t.pending| || (|t'.pending| == |t.pending| && StepsLeft(t') < StepsLeft(t))
  }

  // The handler has ended, or can still end, in no other way than through its client's input.
  predicate Undisturbed(t: Task) {
    match t.phase
    case Leaving(end) => end.ClientDone? || (end.ReadError? && end.reported && !end.error.Socket?)
    case Reporting(error) => !error.Socket?
    case Discarding => false
    case _ => true
  }

  // The state after the next action of task `i`.
  lemma {:induction false} ReadingSteps(s: State, i: nat) returns (s': State)
    requires i < |s.tasks| && s.tasks[i].phase.Reading?
    ensures ReadStep(s, s', i, NextAction(s.tasks[i]))
    ensures i < |s'.tasks| && Nearer(s.tasks[i], s'.tasks[i]) && Undisturbed(s'.tasks[i])
  {
    hide Next;
    var t := s.tasks[i];
    match Next(t.pending)
    case FrameItem(frame, length) =>
      s' := Put(s, i, t.(phase := Received(frame), pending := t.pending[length..]))
              .(requests := s.requests + 1);
    case AtEof =>
      s' := Put(s, i, t.(phase := Leaving(ClientDone)));
    case Broken(error) =>
      s' := Put(s, i, t.(phase := Reporting(error)));
  }

  lemma {:induction false} ReceivedSteps(s: State, i: nat) returns (s': State)
    requires i < |s.tasks| && s.tasks[i].phase.Received?
    ensures ExecuteStep(s, s', i)
    ensures i < |s'.tasks| && Nearer(s.tasks[i], s'.tasks[i]) && Undisturbed(s'.tasks[i])
  {
    hide Interpret, Find, LookupReply, OkReply, ErrorReply, ArgumentError.Text;
    var t := s.tasks[i];
    match Interpret(t.phase.frame)
    case Rejected(error) =>
      var reply := ErrorReply(error.Text());
      s' := Put(s, i, t.(phase := Replying(reply), replies := t.replies + [reply]))
              .(refusals := s.refusals + 1);
    case Done(Get(key)) =>
      var reply := LookupReply(Find(s.entries, key));
      s' := Put(s, i, t.(phase := LookedUp(reply), replies := t.replies + [reply]))
              .(history := s.history + [Event(i, Command.Get(key), reply)]);
    case Done(Set(key, value)) =>
      var reply := OkReply();
      s' := Put(s, i, t.(phase := Replying(reply), replies := t.replies + [reply]))
              .(history := s.history + [Event(i, Command.Set(key, value), reply)],
                entries := s.entries[key := value],
                sets := s.sets + 1);
  }

  lemma {:induction false} LookedUpSteps(s: State, i: nat) returns (s': State)
    requires i < |s.tasks| && s.tasks[i].phase.LookedUp?
    ensures ReplyStep(s, s', i, CountLookup)
    ensures i < |s'.tasks| && Nearer(s.tasks[i], s'.tasks[i]) && Undisturbed(s'.tasks[i])
  {
    var t := s.tasks[i];
    var hit := t.phase.reply.Bulk?;
    s' := Put(s, i, t.(phase := Replying(t.phase.reply)))
            .(hits := if hit then s.hits + 1 else s.hits,
              misses := if hit then s.misses else s.misses + 1);
  }

  lemma {:induction false} ReplyingSteps(s: State, i: nat) returns (s': State)
    requires i < |s.tasks| && (s.tasks[i].phase.Replying? || s.tasks[i].phase.Replied?)
    ensures ReplyStep(s, s', i, NextAction(s.tasks[i]))
    ensures i < |s'.tasks| && Nearer(s.tasks[i], s'.tasks[i]) && Undisturbed(s'.tasks[i])
  {
    hide Encode;
    var t := s.tasks[i];
    if t.phase.Replying? {
      s' := Put(s, i, t.(phase := Replied, written := t.written + Encode(t.phase.reply)));
    } else {
      s' := Put(s, i, t.(phase := Reading)).(responses := s.responses + 1);
    }
  }

  lemma {:induction false} ReportingSteps(s: State, i: nat) returns (s': State)
    requires i < |s.tasks| && s.tasks[i].phase.Reporting?
    ensures ReplyStep(s, s', i, NextAction(s.tasks[i]))
    ensures i < |s'.tasks| && Nearer(s.tasks[i], s'.tasks[i])
    ensures Undisturbed(s.tasks[i]) ==> Undisturbed(s'.tasks[i])
  {
    hide Encode, ReadErrorReply;
    var t := s.tasks[i];
    var message := Encode(ReadErrorReply(t.phase.error));
    s' := Put(s, i, t.(phase := Leaving(ReadError(t.phase.error, true)),
                       written := t.written + message[..|message|]));
  }

  lemma {:induction false} GuardSteps(s: State, i: nat) returns (s': State)
    requires i < |s.tasks| && (s.tasks[i].phase.Leaving? || s.tasks[i].phase.Discarding?)
    requires s.tasks[i].guard && s.active > 0
    ensures DropStep(s, s', i, NextAction(s.tasks[i]))
    ensures i < |s'.tasks| && Nearer(s.tasks[i], s'.tasks[i])
    ensures s'.tasks[i].phase == s.tasks[i].phase
  {
    s' := Put(s, i, s.tasks[i].(guard := false)).(active := s.active - 1);
  }

  lemma {:induction false} InboxSteps(s: State, i: nat) returns (s': State)
    requires i < |s.tasks| && (s.tasks[i].phase.Leaving? || s.tasks[i].phase.Discarding?)
    requires !s.tasks[i].guard && !s.tasks[i].inbox.Dropped?
    ensures DropStep(s, s', i, NextAction(s.tasks[i]))
    ensures i < |s'.tasks| && Nearer(s.tasks[i], s'.tasks[i])
    ensures s'.tasks[i].phase == s.tasks[i].phase
  {
    s' := Put(s, i, s.tasks[i].(inbox := Dropped));
  }

  lemma {:induction false} SenderSteps(s: State, i: nat) returns (s': State)
    requires i < |s.tasks| && (s.tasks[i].phase.Leaving? || s.tasks[i].phase.Discarding?)
    requires !s.tasks[i].guard && s.tasks[i].inbox.Dropped? && s.tasks[i].sender && s.senders > 0
    ensures DropStep(s, s', i, NextAction(s.tasks[i]))
    ensures i < |s'.tasks| && Nearer(s.tasks[i], s'.tasks[i])
    ensures s'.tasks[i].phase == s.tasks[i].phase
  {
    s' := Put(s, i, s.tasks[i].(sender := false)).(senders := s.senders - 1);
  }

  lemma {:induction false} PermitSteps(s: State, i: nat) returns (s': State)
    requires i < |s.tasks| && (s.tasks[i].phase.Leaving? || s.tasks[i].phase.Discarding?)
    requires !s.tasks[i].guard && s.tasks[i].inbox.Dropped? && !s.tasks[i].sender
    requires s.tasks[i].permit
    ensures DropStep(s, s', i, NextAction(s.tasks[i]))
    ensures i < |s'.tasks| && Nearer(s.tasks[i], s'.tasks[i])
    ensures s'.tasks[i].phase == s.tasks[i].phase
  {
    s' := Put(s, i, s.tasks[i].(permit := false)).(available := s.available + 1);
  }

  lemma {:induction false} DroppingSteps(s: State, i: nat) returns (s': State)
    requires i < |s.tasks| && (s.tasks[i].phase.Leaving? || s.tasks[i].phase.Discarding?)
    requires !Gone(s.tasks[i])
    requires (s.tasks[i].guard ==> s.active > 0) && (s.tasks[i].sender ==> s.senders > 0)
    ensures DropStep(s, s', i, NextAction(s.tasks[i]))
    ensures i < |s'.tasks| && Nearer(s.tasks[i], s'.tasks[i])
    ensures s'.tasks[i].phase == s.tasks[i].phase
  {
    hide DropStep, Nearer, NextAction;
    var t := s.tasks[i];
    if t.guard {
      s' := GuardSteps(s, i);
    } else if !t.inbox.Dropped? {
      s' := InboxSteps(s, i);
    } else if t.sender {
      s' := SenderSteps(s, i);
    } else {
      s' := PermitSteps(s, i);
    }
  }

  lemma {:induction false} SpawnedSteps(s: State, i: nat) returns (s': State)
    requires i < |s.tasks| && s.tasks[i].phase.Spawned?
    ensures StartStep(s, s', i, Start)
    ensures i < |s'.tasks| && Nearer(s.tasks[i], s'.tasks[i]) && Undisturbed(s'.tasks[i])
  {
    s' := Put(s, i, s.tasks[i].(phase := Reading, guard := true)).(active := s.active + 1);
  }

  // Every task that still holds anything can make its next step, which brings it nearer to its end.
  lemma {:induction false} NobodyIsStuck(s: State, i: nat) returns (s': State)
    requires Sound(s) && i < |s.tasks| && !Gone(s.tasks[i])
    ensures TaskStep(s, s', i, NextAction(s.tasks[i]))
    ensures i < |s'.tasks| && Nearer(s.tasks[i], s'.tasks[i])
    ensures Undisturbed(s.tasks[i]) ==> Undisturbed(s'.tasks[i])
  {
    hide StartStep, ReadStep, ExecuteStep, ReplyStep, DropStep, Nearer, Sum, Next, ReadErrorReply, Encode;
    match s.tasks[i].phase
    case Spawned => s' := SpawnedSteps(s, i);
    case Reading => s' := ReadingSteps(s, i);
    case Received(_) => s' := ReceivedSteps(s, i);
    case LookedUp(_) => s' := LookedUpSteps(s, i);
    case Replying(_) => s' := ReplyingSteps(s, i);
    case Replied => s' := ReplyingSteps(s, i);
    case Reporting(_) => s' := ReportingSteps(s, i);
    case _ =>
      SumMember(Guards, s.tasks, i);
      SumMember(Senders, s.tasks, i);
      s' := DroppingSteps(s, i);
  }

  // What disturbs a reading handler can happen at any time: the timeout, an error of the socket, and
  // the shutdown message once it is there.
  lemma {:induction false} ReadingCanBeDisturbed(s: State, i: nat, text: Text)
    returns (timedOut: State, failed: State, told: State)
    requires i < |s.tasks| && s.tasks[i].phase.Reading?
    ensures TaskStep(s, timedOut, i, TimeOut) && |timedOut.tasks| == |s.tasks|
    ensures timedOut.tasks[i].phase == Leaving(Stopped)
    ensures TaskStep(s, failed, i, SeeSocketError(text)) && |failed.tasks| == |s.tasks|
    ensures failed.tasks[i].phase == Reporting(Socket(text))
    ensures s.tasks[i].inbox.Waiting? ==>
              && TaskStep(s, told, i, Obey) && |told.tasks| == |s.tasks|
              && told.tasks[i].phase == Leaving(Stopped)
  {
    hide Next, StartStep, ExecuteStep, ReplyStep, DropStep;
    var t := s.tasks[i];
    timedOut := Put(s, i, t.(phase := Leaving(Stopped)));
    failed := Put(s, i, t.(phase := Reporting(Socket(text))));
    told := Put(s, i, t.(phase := Leaving(Stopped), inbox := Empty));
    assert ReadStep(s, timedOut, i, TimeOut) && ReadStep(s, failed, i, SeeSocketError(text));
  }

  // Any write of a reply can fail after any part of it.
  lemma {:induction false} SendingCanFail(s: State, i: nat, count: nat) returns (s': State)
    requires i < |s.tasks| && s.tasks[i].phase.Replying?
    requires count <= |Encode(s.tasks[i].phase.reply)|
    ensures TaskStep(s, s', i, FailToSend(count)) && |s'.tasks| == |s.tasks|
    ensures s'.tasks[i].phase == Leaving(WriteError)
    ensures s'.tasks[i].written == s.tasks[i].written + Encode(s.tasks[i].phase.reply)[..count]
  {
    hide StartStep, ReadStep, ExecuteStep, DropStep, Encode;
    var t := s.tasks[i];
    s' := Put(s, i, t.(phase := Leaving(WriteError),
                       written := t.written + Encode(t.phase.reply)[..count]))
            .(failures := s.failures + 1);
    assert ReplyStep(s, s', i, FailToSend(count));
  }

  // Reporting why the input cannot be read can fail after any part of the message, too.
  lemma {:induction false} ReportingCanFail(s: State, i: nat, count: nat) returns (s': State)
    requires i < |s.tasks| && s.tasks[i].phase.Reporting?
    requires count < |Encode(ReadErrorReply(s.tasks[i].phase.error))|
    ensures TaskStep(s, s', i, Report(count)) && |s'.tasks| == |s.tasks|
    ensures s'.tasks[i].phase == Leaving(ReadError(s.tasks[i].phase.error, false))
  {
    hide StartStep, ReadStep, ExecuteStep, DropStep, Encode, ReadErrorReply;
    var t := s.tasks[i];
    var message := Encode(ReadErrorReply(t.phase.error));
    s' := Put(s, i, t.(phase := Leaving(ReadError(t.phase.error, false)),
                       written := t.written + message[..count]));
    assert ReplyStep(s, s', i, Report(count));
  }

  // Setting up a connection can fail, and then the permit may be given back before anything else.
  lemma {:induction false} SetUpCanFail(s: State, i: nat) returns (failed: State, released: State)
    requires i < |s.tasks| && s.tasks[i].phase.Spawned?
    requires Shaped(s.tasks[i], s.sent)
    ensures TaskStep(s, failed, i, FailSetUp) && TaskStep(failed, released, i, DropPermit)
    ensures released.available == s.available + 1 && released.active == s.active
  {
    hide ReadStep, ExecuteStep, ReplyStep;
    var t := s.tasks[i];
    failed := Put(s, i, t.(phase := Discarding));
    released := Put(failed, i, t.(phase := Discarding, permit := false))
                  .(available := s.available + 1);
    assert StartStep(s, failed, i, FailSetUp);
    assert DropStep(failed, released, i, DropPermit);
  }

  // The accept loop goes on as long as there are permits: it can take any connection, fail in either
  // way and come back.
  lemma {:induction false} AcceptorCanStep(s: State, input: seq<byte>, retryNow: bool)
    returns (s': State, failed: State)
    ensures s.acceptor.WaitingForPermit? && s.available > 0 ==>
              AcceptorStep(s, s', AcquirePermit) && s'.acceptor.Accepting?
    ensures s.acceptor.Accepting? ==>
              AcceptorStep(s, s', Accept(input)) && s'.tasks == s.tasks + [NewTask(input)]
    ensures s.acceptor.Accepting? ==>
              && AcceptorStep(s, failed, FailToAccept(retryNow))
              && failed.acceptErrors == s.acceptErrors + 1
              && failed.acceptor == (if retryNow then WaitingForPermit else BackingOff)
    ensures s.acceptor.BackingOff? ==>
              AcceptorStep(s, s', WakeUp) && s'.available == s.available + 1
  {
    failed := if retryNow
      then s.(acceptErrors := s.acceptErrors + 1, acceptor := WaitingForPermit, available := s.available + 1)
      else s.(acceptErrors := s.acceptErrors + 1, acceptor := BackingOff);
    match s.acceptor
    case WaitingForPermit =>
      s' := if s.available > 0 then s.(acceptor := Accepting, available := s.available - 1) else s;
    case Accepting =>
      s' := s.(acceptor := WaitingForPermit, senders := s.senders + 1,
               tasks := s.tasks + [NewTask(input)]);
    case BackingOff => s' := s.(acceptor := WaitingForPermit, available := s.available + 1);
    case Halted => s' := s;
  }

  lemma {:induction false} TaskKeepsInput(s: State, s': State, i: nat, action: TaskAction)
    requires TaskStep(s, s', i, action) && i < |s'.tasks|
    ensures s'.tasks[i].input == s.tasks[i].input
  {
    hide ExecuteStep, ReadStep, ReplyStep;
    if action.Execute? && ExecuteStep(s, s', i) {
      var reply := ExecuteEffect(s, s', i);
    } else if ReadStep(s, s', i, action) {
      ReadSilent(s, s', i, action);
    } else if ReplyStep(s, s', i, action) {
      ReplySilent(s, s', i, action);
    }
  }

  // Task `i` has gone on, and the other tasks are as they were.
  ghost predicate WentOn(s: State, s': State, i: nat) {
    && i < |s.tasks| == |s'.tasks|
    && s'.main == s.main && s'.max == s.max
    && (forall j :: 0 <= j < |s.tasks| && j != i ==> s'.tasks[j] == s.tasks[j])
    && s'.tasks[i].input == s.tasks[i].input
    && (Undisturbed(s.tasks[i]) ==> Undisturbed(s'.tasks[i]))
  }

  lemma {:induction false} OneStepOn(s: State, s': State, i: nat, action: TaskAction)
    requires Sound(s) && TaskStep(s, s', i, action) && i < |s'.tasks|
    requires Undisturbed(s.tasks[i]) ==> Undisturbed(s'.tasks[i])
    ensures WentOn(s, s', i)
  {
    assert Shaped(s.tasks[i], s.sent);
    TaskMoves(s, s', i, action);
    TaskKeepsInput(s, s', i, action);
  }

  lemma {:induction false} ReachableIsSound(max: nat, trace: seq<State>, steps: seq<Step>, s: State)
    requires RunTo(max, trace, steps, s)
    ensures Sound(s)
  {
    hide Sound;
    RunIsSound(max, trace, steps, |steps|);
  }

  // From any state of any run, the run can go on with steps of task `i` only, until the task is gone.
  lemma {:induction false} CanBeGone(max: nat, trace: seq<State>, steps: seq<Step>, s: State, i: nat)
    returns (trace': seq<State>, steps': seq<Step>, s': State)
    requires RunTo(max, trace, steps, s) && i < |s.tasks|
    ensures trace <= trace' && steps <= steps' && RunTo(max, trace', steps', s')
    ensures WentOn(s, s', i) && Gone(s'.tasks[i])
    decreases |s.tasks[i].pending|, StepsLeft(s.tasks[i])
  {
    hide RunTo, Sound, TaskStep, Undisturbed, StepsLeft;
    if Gone(s.tasks[i]) {
      return trace, steps, s;
    }
    ReachableIsSound(max, trace, steps, s);
    var action := NextAction(s.tasks[i]);
    var next := NobodyIsStuck(s, i);
    OneStepOn(s, next, i, action);
    Extend(max, trace, steps, s, next, ByTask(i, action));
    trace', steps', s' := CanBeGone(max, trace + [next], steps + [ByTask(i, action)], next, i);
  }

  // From any state of any run, every connection whose handler nothing has disturbed so far can still be
  // served to its end: all frames of its input answered, everything written that is due, and all
  // that it holds given back.
  lemma {:induction false} EveryConnectionCanBeServed(max: nat, trace: seq<State>, steps: seq<Step>,
                                                      s: State, i: nat)
    returns (trace': seq<State>, steps': seq<Step>, s': State)
    requires RunTo(max, trace, steps, s) && i < |s.tasks| && Undisturbed(s.tasks[i])
    ensures trace <= trace' && steps <= steps' && RunTo(max, trace', steps', s')
    ensures WentOn(s, s', i) && Gone(s'.tasks[i])
    ensures var t := s'.tasks[i];
      && t.phase.Leaving? && Ended(t, t.phase.end)
      && |t.replies| == |FramesOf(t.input)|
      && t.written == EncodeAll(t.replies)
           + (if t.phase.end.ReadError? then Encode(ReadErrorReply(t.phase.end.error)) else [])
  {
    hide FramesOf, After, Next, Encode, EncodeAll, ReadErrorReply, IsRun;
    trace', steps', s' := CanBeGone(max, trace, steps, s, i);
    RunLength(max, trace', steps');
    WholeTranscript(max, trace', steps', |steps'|, i);
    var t := s'.tasks[i];
    assert [] + EncodeAll(t.replies) == EncodeAll(t.replies);
    assert EncodeAll(t.replies) + [] == EncodeAll(t.replies);
  }

  // --- Shutdown can always be completed ---

  // One more step of `main` on the way to where it waits.
  lemma {:induction false} MainSteps(s: State) returns (s': State, action: MainAction)
    requires Sound(s) && !s.main.Awaiting? && !s.main.Finished?
    ensures MainStep(s, s', action) && MainStepsLeft(s') < MainStepsLeft(s) && !s'.main.Finished?
  {
    hide Sum;
    match s.main
    case Selecting =>
      action := Interrupt;
      s' := s.(main := Notifying, acceptor := Halted, acceptorInbox := Dropped,
               available := s.available + (if s.acceptor.HoldsPermit() then 1 else 0));
    case Notifying =>
      action := Notify;
      s' := s.(main := DroppingAcceptor, sent := true, acceptorInbox := Told(s.acceptorInbox),
               tasks := TellAll(s.tasks));
    case DroppingAcceptor =>
      action := DropAcceptor;
      s' := s.(main := DroppingSender, acceptorSender := false, senders := s.senders - 1);
    case DroppingSender =>
      action := DropOwnSender;
      s' := s.(main := Awaiting, mainSender := false, senders := s.senders - 1);
  }

  function MainStepsLeft(s: State): nat {
    match s.main
    case Selecting => 4
    case Notifying => 3
    case DroppingAcceptor => 2
    case DroppingSender => 1
    case _ => 0
  }

  lemma {:induction false} MainCanWait(max: nat, trace: seq<State>, steps: seq<Step>, s: State)
    returns (trace': seq<State>, steps': seq<Step>, s': State)
    requires RunTo(max, trace, steps, s) && !s.main.Finished?
    ensures trace <= trace' && steps <= steps' && RunTo(max, trace', steps', s') && s'.main.Awaiting?
    decreases MainStepsLeft(s)
  {
    hide RunTo, Sound, MainStep;
    if s.main.Awaiting? {
      return trace, steps, s;
    }
    ReachableIsSound(max, trace, steps, s);
    var next, action := MainSteps(s);
    Extend(max, trace, steps, s, next, ByMain(action));
    trace', steps', s' := MainCanWait(max, trace + [next], steps + [ByMain(action)], next);
  }

  lemma {:induction false} TasksCanBeGone(max: nat, trace: seq<State>, steps: seq<Step>, s: State)
    returns (trace': seq<State>, steps': seq<Step>, s': State)
    requires RunTo(max, trace, steps, s)
    ensures trace <= trace' && steps <= steps' && RunTo(max, trace', steps', s')
    ensures s'.main == s.main && |s'.tasks| == |s.tasks|
    ensures forall i :: 0 <= i < |s'.tasks| ==> Gone(s'.tasks[i])
  {
    hide RunTo, Gone;
    trace', steps', s' := trace, steps, s;
    for i := 0 to |s.tasks|
      invariant trace <= trace' && steps <= steps' && RunTo(max, trace', steps', s')
      invariant s'.main == s.main && |s'.tasks| == |s.tasks|
      invariant forall j :: 0 <= j < i ==> Gone(s'.tasks[j])
    {
      trace', steps', s' := CanBeGone(max, trace', steps', s', i);
    }
  }

  // From any state of any run, the run can go on until shutdown is over and every permit is back.
  lemma {:induction false} ShutdownCanComplete(max: nat, trace: seq<State>, steps: seq<Step>, s: State)
    returns (trace': seq<State>, steps': seq<Step>, s': State)
    requires RunTo(max, trace, steps, s)
    ensures trace <= trace' && steps <= steps' && RunTo(max, trace', steps', s')
    ensures s'.main.Finished? && s'.available == max
  {
    hide IsRun, Sum;
    trace', steps', s' := trace, steps, s;
    if !s.main.Finished? {
      trace', steps', s' := MainCanWait(max, trace', steps', s');
    }
    trace', steps', s' := TasksCanBeGone(max, trace', steps', s');
    if !s'.main.Finished? {
      trace', steps', s' := CanFinish(max, trace', steps', s');
    }
    ReachableIsSound(max, trace', steps', s');
    SumZero(Permits, s'.tasks);
    RunLength(max, trace', steps');
    RunIsSound(max, trace', steps', |steps'|);
  }

  lemma {:induction false} CanFinish(max: nat, trace: seq<State>, steps: seq<Step>, s: State)
    returns (trace': seq<State>, steps': seq<Step>, s': State)
    requires RunTo(max, trace, steps, s) && s.main.Awaiting?
    requires forall i :: 0 <= i < |s.tasks| ==> Gone(s.tasks[i])
    ensures trace <= trace' && steps <= steps' && RunTo(max, trace', steps', s')
    ensures s'.main.Finished? && s'.tasks == s.tasks
  {
    hide IsRun, Sum;
    ReachableIsSound(max, trace, steps, s);
    SumZero(Senders, s.tasks);
    s' := s.(main := Finished);
    Extend(max, trace, steps, s, s', ByMain(Complete));
    trace', steps' := trace + [s'], steps + [ByMain(Complete)];
  }
}
