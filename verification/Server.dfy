/** The whole server as a transition system: the accept loop, the shutdown sequence of `main`, and
    any number of connection tasks that run in any interleaving
    (src/acceptor.rs, src/bin/server.rs, src/handler.rs). */
module Server {
  import opened Bytes
  import opened Commands
  import opened Encoding
  import opened Exchanges
  import opened Frames
  import opened Handlers
  import opened Histories
  import opened Sessions

  // A subscription to the shutdown channel: no message yet, one message waiting, or dropped.
  datatype Inbox = Empty | Waiting | Dropped

  datatype Phase =
    | Spawned                   // the task exists, its handler does not run yet
    | Reading                   // waiting for a frame, the timeout or shutdown
    | Received(frame: Frame)    // the frame has been counted
    | LookedUp(reply: Frame)    // a GET has been executed, its hit or miss is not counted yet
    | Replying(reply: Frame)
    | Replied                   // the reply is written but not counted
    | Reporting(error: ReadError)
    | Leaving(end: End)         // `run` returns; the guard and then the handler's fields are dropped
    | Discarding                // set-up failed; what the task captured is dropped in any order

  datatype Task = Task(
    input: seq<byte>,           // all that the client will ever send
    pending: seq<byte>,         // the part of it not consumed yet
    written: seq<byte>,
    replies: seq<Frame>,        // the replies decided so far
    phase: Phase,
    guard: bool,                // what the task still owns
    inbox: Inbox,
    sender: bool,
    permit: bool
  )

  datatype AcceptorPhase = WaitingForPermit | Accepting | BackingOff | Halted {
    predicate HoldsPermit() {
      Accepting? || BackingOff?
    }
  }

  // The shutdown sequence, by what comes next.
  datatype MainPhase = Selecting | Notifying | DroppingAcceptor | DroppingSender | Awaiting | Finished

  datatype State = State(
    max: nat,
    main: MainPhase,
    acceptor: AcceptorPhase,
    acceptorInbox: Inbox,
    available: nat,             // permits in the semaphore
    senders: nat,               // live senders of the completion channel
    mainSender: bool,
    acceptorSender: bool,
    sent: bool,                 // the shutdown message has been sent
    tasks: seq<Task>,
    entries: Store,
    history: seq<Event>,
    active: nat,                // the counters of src/metrics.rs
    requests: nat,
    responses: nat,
    hits: nat,
    misses: nat,
    refusals: nat,
    acceptErrors: nat,
    sets: nat,                  // not counted by the program: SETs executed
    failures: nat               // not counted by the program: reply writes that failed
  )

  function Init(max: nat): State {
    State(max, Selecting, WaitingForPermit, Empty, max, 2, true, true, false, [], map[], [],
          0, 0, 0, 0, 0, 0, 0, 0, 0)
  }

  function NewTask(input: seq<byte>): Task {
    Task(input, input, [], [], Spawned, false, Empty, true, true)
  }

  // --- The accept loop ---

  datatype AcceptorAction =
    | AcquirePermit
    | Accept(input: seq<byte>)
    | FailToAccept(retryNow: bool)
    | WakeUp
    | HearShutdown

  // Each accept attempt holds a permit. An accepted connection takes it along, and its task is
  // subscribed before it is spawned; otherwise the permit is released when the attempt ends.
  ghost predicate AcceptorStep(s: State, s': State, action: AcceptorAction) {
    match action
    case AcquirePermit =>
      && s.acceptor.WaitingForPermit? && s.available > 0
      && s' == s.(acceptor := Accepting, available := s.available - 1)
    case Accept(input) =>
      && s.acceptor.Accepting?
      && s' == s.(acceptor := WaitingForPermit, senders := s.senders + 1,
                  tasks := s.tasks + [NewTask(input)])
    case FailToAccept(retryNow) =>
      && s.acceptor.Accepting?
      && s' == (if retryNow
                then s.(acceptErrors := s.acceptErrors + 1, acceptor := WaitingForPermit,
                        available := s.available + 1)
                else s.(acceptErrors := s.acceptErrors + 1, acceptor := BackingOff))
    case WakeUp =>
      && s.acceptor.BackingOff?
      && s' == s.(acceptor := WaitingForPermit, available := s.available + 1)
    case HearShutdown =>
      && s.acceptor.Accepting? && s.acceptorInbox.Waiting?
      && s' == s.(acceptor := Halted, acceptorInbox := Dropped, available := s.available + 1)
  }

  // --- The shutdown sequence ---

  datatype MainAction =
    | Interrupt
    | AcceptorReturned
    | Notify
    | DropAcceptor
    | DropOwnSender
    | Complete

  function Told(inbox: Inbox): Inbox {
    if inbox.Empty? then Waiting else inbox
  }

  function TellTask(t: Task): Task {
    t.(inbox := Told(t.inbox))
  }

  function TellAll(tasks: seq<Task>): (told: seq<Task>)
    ensures |told| == |tasks|
    ensures forall i :: 0 <= i < |tasks| ==> told[i] == TellTask(tasks[i])
  {
    seq(|tasks|, i requires 0 <= i < |tasks| => TellTask(tasks[i]))
  }

  // Leaving the selection drops the accept loop's future, and with it a permit it may hold.
  ghost predicate MainStep(s: State, s': State, action: MainAction) {
    match action
    case Interrupt =>
      && s.main.Selecting?
      && s' == s.(main := Notifying, acceptor := Halted, acceptorInbox := Dropped,
                  available := s.available + (if s.acceptor.HoldsPermit() then 1 else 0))
    case AcceptorReturned =>
      && s.main.Selecting? && s.acceptor.Halted?
      && s' == s.(main := Notifying)
    case Notify =>
      && s.main.Notifying?
      && s' == s.(main := DroppingAcceptor, sent := true, acceptorInbox := Told(s.acceptorInbox),
                  tasks := TellAll(s.tasks))
    case DropAcceptor =>
      && s.main.DroppingAcceptor? && s.senders > 0
      && s' == s.(main := DroppingSender, acceptorSender := false, senders := s.senders - 1)
    case DropOwnSender =>
      && s.main.DroppingSender? && s.senders > 0
      && s' == s.(main := Awaiting, mainSender := false, senders := s.senders - 1)
    case Complete =>
      && s.main.Awaiting? && s.senders == 0
      && s' == s.(main := Finished)
  }

  // --- One connection task ---

  datatype TaskAction =
    | FailSetUp
    | Start
    | Take
    | SeeEnd
    | SeeBroken
    | SeeSocketError(text: Text)
    | TimeOut
    | Obey
    | Execute
    | CountLookup
    | Send
    | FailToSend(count: nat)
    | CountReply
    | Report(count: nat)
    | DropGuard
    | DropInbox
    | DropSender
    | DropPermit

  function Put(s: State, i: nat, t: Task): State
    requires i < |s.tasks|
  {
    s.(tasks := s.tasks[i := t])
  }

  ghost predicate StartStep(s: State, s': State, i: nat, action: TaskAction)
    requires i < |s.tasks|
  {
    var t := s.tasks[i];
    match action
    case FailSetUp =>
      t.phase.Spawned? && s' == Put(s, i, t.(phase := Discarding))
    case Start =>
      && t.phase.Spawned?
      && s' == Put(s, i, t.(phase := Reading, guard := true)).(active := s.active + 1)
    case _ => false
  }

  // The selection in the request loop: a frame, the end of the input, unreadable input, an error of
  // the socket, the timeout, or a shutdown message.
  ghost predicate ReadStep(s: State, s': State, i: nat, action: TaskAction)
    requires i < |s.tasks|
  {
    var t := s.tasks[i];
    var item := Next(t.pending);
    && t.phase.Reading?
    && match action
       case Take =>
         && item.FrameItem?
         && s' == Put(s, i, t.(phase := Received(item.frame), pending := t.pending[item.length..]))
                    .(requests := s.requests + 1)
       case SeeEnd =>
         item.AtEof? && s' == Put(s, i, t.(phase := Leaving(ClientDone)))
       case SeeBroken =>
         item.Broken? && s' == Put(s, i, t.(phase := Reporting(item.error)))
       case SeeSocketError(text) =>
         s' == Put(s, i, t.(phase := Reporting(Socket(text))))
       case TimeOut =>
         s' == Put(s, i, t.(phase := Leaving(Stopped)))
       case Obey =>
         t.inbox.Waiting? && s' == Put(s, i, t.(phase := Leaving(Stopped), inbox := Empty))
       case _ => false
  }

  // Executing a command happens under the lock: it is one step.
  ghost predicate ExecuteStep(s: State, s': State, i: nat)
    requires i < |s.tasks|
  {
    var t := s.tasks[i];
    && t.phase.Received?
    && match Interpret(t.phase.frame)
       case Rejected(error) =>
         var reply := ErrorReply(error.Text());
         s' == Put(s, i, t.(phase := Replying(reply), replies := t.replies + [reply]))
                 .(refusals := s.refusals + 1)
       case Done(Get(key)) =>
         var reply := LookupReply(Find(s.entries, key));
         s' == Put(s, i, t.(phase := LookedUp(reply), replies := t.replies + [reply]))
                 .(history := s.history + [Event(i, Get(key), reply)])
       case Done(Set(key, value)) =>
         var reply := OkReply();
         s' == Put(s, i, t.(phase := Replying(reply), replies := t.replies + [reply]))
                 .(history := s.history + [Event(i, Set(key, value), reply)],
                   entries := s.entries[key := value],
                   sets := s.sets + 1)
  }

  ghost predicate ReplyStep(s: State, s': State, i: nat, action: TaskAction)
    requires i < |s.tasks|
  {
    var t := s.tasks[i];
    match action
    case CountLookup =>
      && t.phase.LookedUp?
      && var hit := t.phase.reply.Bulk?;
      && s' == Put(s, i, t.(phase := Replying(t.phase.reply)))
                 .(hits := if hit then s.hits + 1 else s.hits,
                   misses := if hit then s.misses else s.misses + 1)
    case Send =>
      && t.phase.Replying?
      && s' == Put(s, i, t.(phase := Replied, written := t.written + Encode(t.phase.reply)))
    case FailToSend(count) =>
      && t.phase.Replying? && count <= |Encode(t.phase.reply)|
      && s' == Put(s, i, t.(phase := Leaving(WriteError),
                            written := t.written + Encode(t.phase.reply)[..count]))
                 .(failures := s.failures + 1)
    case CountReply =>
      && t.phase.Replied?
      && s' == Put(s, i, t.(phase := Reading)).(responses := s.responses + 1)
    case Report(count) =>
      && t.phase.Reporting?
      && var message := Encode(ReadErrorReply(t.phase.error));
      && count <= |message|
      && s' == Put(s, i, t.(phase := Leaving(ReadError(t.phase.error, count == |message|)),
                            written := t.written + message[..count]))
    case _ => false
  }

  // The order in which a returning handler gives up what it owns: first the guard, a local of
  // `run`, then its fields as they are declared. Nothing prescribes an order after a failed set-up.
  ghost predicate DropStep(s: State, s': State, i: nat, action: TaskAction)
    requires i < |s.tasks|
  {
    var t := s.tasks[i];
    && (t.phase.Leaving? || t.phase.Discarding?)
    && match action
       case DropGuard =>
         t.guard && s.active > 0 && s' == Put(s, i, t.(guard := false)).(active := s.active - 1)
       case DropInbox =>
         !t.guard && !t.inbox.Dropped? && s' == Put(s, i, t.(inbox := Dropped))
       case DropSender =>
         && !t.guard && (t.inbox.Dropped? || t.phase.Discarding?)
         && t.sender && s.senders > 0
         && s' == Put(s, i, t.(sender := false)).(senders := s.senders - 1)
       case DropPermit =>
         && !t.guard && ((t.inbox.Dropped? && !t.sender) || t.phase.Discarding?)
         && t.permit
         && s' == Put(s, i, t.(permit := false)).(available := s.available + 1)
       case _ => false
  }

  ghost predicate TaskStep(s: State, s': State, i: nat, action: TaskAction) {
    && i < |s.tasks|
    && (|| StartStep(s, s', i, action)
        || ReadStep(s, s', i, action)
        || (action.Execute? && ExecuteStep(s, s', i))
        || ReplyStep(s, s', i, action)
        || DropStep(s, s', i, action))
  }

  // --- Runs ---

  datatype Step =
    | ByAcceptor(accept: AcceptorAction)
    | ByMain(shutdown: MainAction)
    | ByTask(i: nat, action: TaskAction)

  ghost predicate Steps(s: State, s': State, step: Step) {
    match step
    case ByAcceptor(accept) => AcceptorStep(s, s', accept)
    case ByMain(shutdown) => MainStep(s, s', shutdown)
    case ByTask(i, action) => TaskStep(s, s', i, action)
  }

  // Any interleaving of the steps of all participants, from the start of the server.
  ghost predicate IsRun(max: nat, trace: seq<State>, steps: seq<Step>) {
    && |trace| == |steps| + 1
    && trace[0] == Init(max)
    && forall k :: 0 <= k < |steps| ==> Steps(trace[k], trace[k + 1], steps[k])
  }
}
