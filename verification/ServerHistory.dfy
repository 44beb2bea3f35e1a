/** The map, the global order of operations and the bytes sent, in every state of every run. */
module ServerHistory {
  import opened Arguments
  import opened Bytes
  import opened Capacity
  import opened Commands
  import opened Encoding
  import opened Exchanges
  import opened Frames
  import opened Handlers
  import opened Histories
  import opened Server
  import opened ServerResources
  import opened Sessions

  // --- The invariants ---

  // How far a task has come: which input is left, and what has been sent.
  ghost predicate Progress(t: Task) {
    var fs, k := FramesOf(t.input), |t.replies|;
    && k <= |fs|
    && match t.phase
       case Spawned => k == 0 && t.pending == t.input && t.written == []
       case Discarding => k == 0 && t.pending == t.input && t.written == []
       case Received(frame) =>
         && k < |fs| && frame == fs[k]
         && t.pending == After(t.input, k + 1)
         && t.written == EncodeAll(t.replies)
       case _ =>
         && t.pending == After(t.input, k)
         && match t.phase
            case LookedUp(reply) => AboutToSend(t, reply)
            case Replying(reply) => AboutToSend(t, reply)
            case Reporting(error) =>
              MayFail(t.pending, error) && t.written == EncodeAll(t.replies)
            case Leaving(end) => Parted(t, end)
            case Replied => k > 0 && t.written == EncodeAll(t.replies)
            case _ => t.written == EncodeAll(t.replies)
  }

  ghost predicate AboutToSend(t: Task, reply: Frame) {
    var n := |t.replies|;
    n > 0 && reply == t.replies[n - 1] && t.written == EncodeAll(t.replies[..n - 1])
  }

  ghost predicate Parted(t: Task, end: End) {
    && Delivered(end, [], t.replies, t.written)
    && match end
       case ClientDone => Next(t.pending) == AtEof
       case ReadError(error, _) => MayFail(t.pending, error)
       case _ => true
  }

  // The operations of a connection are those its frames ask for, in the order of the frames, and
  // each has the reply that the connection is given.
  ghost predicate Ordered(t: Task, i: nat, history: seq<Event>) {
    && |t.replies| <= |FramesOf(t.input)|
    && EventsBy(history, i) == EventsOf(i, FramesOf(t.input), t.replies)
    && RefusalsExplained(FramesOf(t.input), t.replies)
  }

  ghost predicate AllServed(s: State) {
    forall i :: 0 <= i < |s.tasks| ==> Progress(s.tasks[i]) && Ordered(s.tasks[i], i, s.history)
  }

  ghost predicate StoreSound(s: State) {
    && Explains(s.history, s.entries)
    && SmallValues(s.history)
    && forall k :: 0 <= k < |s.history| ==> s.history[k].owner < |s.tasks|
  }

  datatype Category = Hit | Miss | Write

  function Is(category: Category, e: Event): bool {
    match category
    case Hit => e.command.Get? && e.reply.Bulk?
    case Miss => e.command.Get? && !e.reply.Bulk?
    case Write => e.command.Set?
  }

  function CountOf(category: Category, history: seq<Event>): nat {
    if history == [] then 0
    else
      CountOf(category, history[..|history| - 1])
        + (if Is(category, history[|history| - 1]) then 1 else 0)
  }

  function PlacesIn(category: Category, history: seq<Event>): set<nat> {
    set k: nat | k < |history| && Is(category, history[k])
  }

  lemma {:induction false} CountOfPlaces(category: Category, history: seq<Event>)
    ensures CountOf(category, history) == |PlacesIn(category, history)|
  {
    if history != [] {
      var n := |history| - 1;
      var before := PlacesIn(category, history[..n]);
      CountOfPlaces(category, history[..n]);
      if Is(category, history[n]) {
        assert PlacesIn(category, history) == before + {n};
      } else {
        assert PlacesIn(category, history) == before;
      }
    }
  }

  // The counters of lookups and writes say what the history says; the counter of responses says
  // how many replies have been sent in full, over all connections.
  predicate CountersExact(s: State) {
    && s.hits + Sum(NewHits, s.tasks) == CountOf(Hit, s.history)
    && s.misses + Sum(NewMisses, s.tasks) == CountOf(Miss, s.history)
    && s.sets == CountOf(Write, s.history)
    && s.responses == Sum(Settled, s.tasks)
    && s.failures == Sum(Failed, s.tasks)
  }

  ghost predicate Truthful(s: State) {
    AllServed(s) && StoreSound(s) && CountersExact(s)
  }

  // --- Single steps ---

  lemma CountSnoc(category: Category, history: seq<Event>, e: Event)
    ensures CountOf(category, history + [e])
         == CountOf(category, history) + (if Is(category, e) then 1 else 0)
  {
    assert (history + [e])[..|history|] == history;
  }

  lemma {:induction false} NoEvents(history: seq<Event>, owner: nat)
    requires forall k :: 0 <= k < |history| ==> history[k].owner < owner
    ensures EventsBy(history, owner) == []
  {
    if history != [] {
      NoEvents(history[..|history| - 1], owner);
    }
  }

  // A step that decides no reply: the map and the history stay, and so do the other tasks.
  ghost predicate Silent(s: State, s': State, i: nat) {
    && i < |s.tasks|
    && s'.history == s.history && s'.entries == s.entries && s'.sets == s.sets
    && |s'.tasks| == |s.tasks|
    && (forall j :: 0 <= j < |s.tasks| && j != i ==> s'.tasks[j] == s.tasks[j])
    && s'.tasks[i].input == s.tasks[i].input && s'.tasks[i].replies == s.tasks[i].replies
  }

  lemma {:induction false} StartProgress(s: State, s': State, i: nat, action: TaskAction)
    requires i < |s.tasks| && StartStep(s, s', i, action) && Progress(s.tasks[i])
    ensures Silent(s, s', i) && Progress(s'.tasks[i])
  {
    hide FramesOf, Next;
  }

  lemma {:induction false} ReadSilent(s: State, s': State, i: nat, action: TaskAction)
    requires i < |s.tasks| && ReadStep(s, s', i, action)
    ensures Silent(s, s', i)
  {
    hide Next;
  }

  lemma {:induction false} TakeProgress(s: State, s': State, i: nat)
    requires Silent(s, s', i) && ReadStep(s, s', i, Take) && Progress(s.tasks[i])
    ensures Progress(s'.tasks[i])
  {
    hide FramesOf, After, EncodeAll, Next, Delivered;
    AfterStep(s.tasks[i].input, |s.tasks[i].replies|);
  }

  lemma {:induction false} StopProgress(s: State, s': State, i: nat, action: TaskAction)
    requires Silent(s, s', i) && ReadStep(s, s', i, action) && !action.Take? && Progress(s.tasks[i])
    ensures Progress(s'.tasks[i])
  {
    hide FramesOf, After, EncodeAll, Next;
  }

  lemma {:induction false} ReadProgress(s: State, s': State, i: nat, action: TaskAction)
    requires Silent(s, s', i) && ReadStep(s, s', i, action) && Progress(s.tasks[i])
    ensures Progress(s'.tasks[i])
  {
    hide Silent, ReadStep, Progress;
    if action.Take? {
      TakeProgress(s, s', i);
    } else {
      StopProgress(s, s', i, action);
    }
  }

  lemma {:induction false} DropProgress(s: State, s': State, i: nat, action: TaskAction)
    requires i < |s.tasks| && DropStep(s, s', i, action) && Progress(s.tasks[i])
    ensures Silent(s, s', i) && Progress(s'.tasks[i])
  {
    hide FramesOf, After, EncodeAll, Next, Delivered;
  }

  lemma {:induction false} CountLookupSilent(s: State, s': State, i: nat)
    requires i < |s.tasks| && ReplyStep(s, s', i, CountLookup)
    ensures Silent(s, s', i)
  {
  }

  lemma {:induction false} SendSilent(s: State, s': State, i: nat, action: TaskAction)
    requires i < |s.tasks| && ReplyStep(s, s', i, action) && !action.CountLookup?
    ensures Silent(s, s', i)
  {
    hide Encode, ReadErrorReply;
  }

  lemma {:induction false} ReplySilent(s: State, s': State, i: nat, action: TaskAction)
    requires i < |s.tasks| && ReplyStep(s, s', i, action)
    ensures Silent(s, s', i)
  {
    hide Silent, ReplyStep;
    if action.CountLookup? {
      CountLookupSilent(s, s', i);
    } else {
      SendSilent(s, s', i, action);
    }
  }

  lemma {:induction false} CountLookupProgress(s: State, s': State, i: nat)
    requires Silent(s, s', i) && ReplyStep(s, s', i, CountLookup) && Progress(s.tasks[i])
    ensures Progress(s'.tasks[i])
  {
    hide FramesOf, After, EncodeAll, Encode, MayFail, ReadErrorReply, Parted, AboutToSend;
    var t := s.tasks[i];
    MovedOn(t, s'.tasks[i], t.phase.reply);
  }

  lemma {:induction false} SendProgress(s: State, s': State, i: nat)
    requires Silent(s, s', i) && ReplyStep(s, s', i, Send) && Progress(s.tasks[i])
    ensures Progress(s'.tasks[i])
  {
    hide FramesOf, After, EncodeAll, Encode, MayFail, ReadErrorReply, Parted, AboutToSend;
    var t := s.tasks[i];
    SendAll(t, t.phase.reply);
  }

  lemma {:induction false} FailToSendProgress(s: State, s': State, i: nat, count: nat)
    requires Silent(s, s', i) && ReplyStep(s, s', i, FailToSend(count)) && Progress(s.tasks[i])
    ensures Progress(s'.tasks[i])
  {
    hide FramesOf, After, EncodeAll, Encode, MayFail, ReadErrorReply, Parted, AboutToSend;
    var t := s.tasks[i];
    SendPart(t, t.phase.reply, count);
  }

  lemma {:induction false} CountReplyProgress(s: State, s': State, i: nat)
    requires Silent(s, s', i) && ReplyStep(s, s', i, CountReply) && Progress(s.tasks[i])
    ensures Progress(s'.tasks[i])
  {
    hide FramesOf, After, EncodeAll, Encode, MayFail, ReadErrorReply, Parted, AboutToSend;
  }

  lemma {:induction false} ReportProgress(s: State, s': State, i: nat, count: nat)
    requires Silent(s, s', i) && ReplyStep(s, s', i, Report(count)) && Progress(s.tasks[i])
    ensures Progress(s'.tasks[i])
  {
    hide FramesOf, After, EncodeAll, Encode, MayFail, ReadErrorReply, Parted, AboutToSend;
    var t := s.tasks[i];
    ReportPart(t, t.phase.error, count);
  }

  lemma ReplyActions(s: State, s': State, i: nat, action: TaskAction)
    requires i < |s.tasks| && ReplyStep(s, s', i, action)
    ensures action.CountLookup? || action.Send? || action.FailToSend? || action.CountReply?
            || action.Report?
  {
  }

  lemma {:induction false} ReplyProgress(s: State, s': State, i: nat, action: TaskAction)
    requires Silent(s, s', i) && ReplyStep(s, s', i, action) && Progress(s.tasks[i])
    ensures Progress(s'.tasks[i])
  {
    hide ReplyStep, Progress;
    ReplyActions(s, s', i, action);
    match action
    case CountLookup => CountLookupProgress(s, s', i);
    case Send => SendProgress(s, s', i);
    case FailToSend(count) => FailToSendProgress(s, s', i, count);
    case CountReply => CountReplyProgress(s, s', i);
    case Report(count) => ReportProgress(s, s', i, count);
  }

  lemma MovedOn(t: Task, t': Task, reply: Frame)
    requires AboutToSend(t, reply) && t'.written == t.written && t'.replies == t.replies
    ensures AboutToSend(t', reply)
  {
  }

  lemma {:induction false} SendAll(t: Task, reply: Frame)
    requires AboutToSend(t, reply)
    ensures t.written + Encode(reply) == EncodeAll(t.replies) && t.replies != []
  {
    hide Encode, EncodeAll;
    var n := |t.replies|;
    EncodeAllSnoc(t.replies[..n - 1], reply);
    assert t.replies[..n - 1] + [reply] == t.replies;
  }

  lemma {:induction false} SendPart(t: Task, reply: Frame, count: nat)
    requires AboutToSend(t, reply) && count <= |Encode(reply)|
    ensures forall t': Task ::
      (t'.replies == t.replies && t'.written == t.written + Encode(reply)[..count]) ==>
        Parted(t', WriteError)
  {
    hide Encode, EncodeAll;
    SendAll(t, reply);
    PrefixOfAppend(t.written, Encode(reply));
    assert [] + EncodeAll(t.replies) == EncodeAll(t.replies);
    assert [] + EncodeAll(t.replies[..|t.replies| - 1]) == EncodeAll(t.replies[..|t.replies| - 1]);
  }

  lemma {:induction false} ReportPart(t: Task, error: ReadError, count: nat)
    requires t.written == EncodeAll(t.replies) && MayFail(t.pending, error)
    requires count <= |Encode(ReadErrorReply(error))|
    ensures var message := Encode(ReadErrorReply(error));
      forall t': Task ::
        (&& t'.replies == t.replies && t'.pending == t.pending
         && t'.written == t.written + message[..count]) ==>
          Parted(t', ReadError(error, count == |message|))
  {
    hide Encode, EncodeAll, MayFail, ReadErrorReply;
    var message := Encode(ReadErrorReply(error));
    PrefixOfAppend(t.written, message);
    assert message[..|message|] == message;
    assert [] + EncodeAll(t.replies) == EncodeAll(t.replies);
  }

  lemma PrefixOfAppend(a: seq<byte>, b: seq<byte>)
    ensures forall n :: 0 <= n <= |b| ==> a <= a + b[..n] <= a + b
  {
  }

  lemma {:induction false} OrderedCommand(i: nat, fs: seq<Frame>, replies: seq<Frame>, reply: Frame,
                       history: seq<Event>, c: Command)
    requires |replies| < |fs| && Interpret(fs[|replies|]) == Done(c)
    requires EventsBy(history, i) == EventsOf(i, fs, replies)
    ensures EventsBy(history + [Event(i, c, reply)], i) == EventsOf(i, fs, replies + [reply])
  {
    hide EventsBy, EventsOf, Interpret;
    EventsBySnoc(history, Event(i, c, reply), i);
    ExchangeSnoc(i, fs, replies, reply);
  }

  lemma {:induction false} OrderedRefusal(i: nat, fs: seq<Frame>, replies: seq<Frame>, reply: Frame)
    requires |replies| < |fs| && Interpret(fs[|replies|]).Rejected?
    ensures EventsOf(i, fs, replies + [reply]) == EventsOf(i, fs, replies)
  {
    hide EventsOf, Interpret;
    var before, at := EventsOf(i, fs, replies), EventsAt(i, fs[|replies|], reply);
    assert before + at == before;
    ExchangeSnoc(i, fs, replies, reply);
  }

  // What executing a frame does to the task and to the history.
  ghost predicate Executed(t: Task, t': Task, i: nat, history: seq<Event>, history': seq<Event>,
                           reply: Frame)
  {
    && t.phase.Received?
    && (t'.phase == Replying(reply) || t'.phase == LookedUp(reply))
    && t'.input == t.input && t'.pending == t.pending && t'.written == t.written
    && t'.replies == t.replies + [reply]
    && match Interpret(t.phase.frame)
       case Done(c) => history' == history + [Event(i, c, reply)]
       case Rejected(error) => history' == history && reply == ErrorReply(error.Text())
  }

  lemma {:induction false} ExecuteEffect(s: State, s': State, i: nat) returns (reply: Frame)
    requires i < |s.tasks| && ExecuteStep(s, s', i)
    ensures |s'.tasks| == |s.tasks|
    ensures Executed(s.tasks[i], s'.tasks[i], i, s.history, s'.history, reply)
  {
    hide Interpret, Find, LookupReply, OkReply, ErrorReply, ArgumentError.Text;
    reply := match Interpret(s.tasks[i].phase.frame)
      case Done(Get(key)) => LookupReply(Find(s.entries, key))
      case Done(Set(_, _)) => OkReply()
      case Rejected(error) => ErrorReply(error.Text());
  }

  lemma {:induction false} ExecuteProgress(t: Task, t': Task, i: nat, history: seq<Event>, history': seq<Event>,
                        reply: Frame)
    requires Executed(t, t', i, history, history', reply) && Progress(t)
    ensures Progress(t')
  {
    hide FramesOf, After, EncodeAll, Next, ErrorReply, ArgumentError.Text, Interpret;
    assert t'.replies[..|t.replies|] == t.replies;
  }

  lemma {:induction false} ExecuteOrdered(t: Task, t': Task, i: nat, history: seq<Event>, history': seq<Event>,
                       reply: Frame)
    requires Executed(t, t', i, history, history', reply) && Progress(t) && Ordered(t, i, history)
    ensures Ordered(t', i, history')
  {
    hide FramesOf, After, EncodeAll, Next, ErrorReply, ArgumentError.Text, EventsBy, EventsOf;
    hide RefusalsExplained, Interpret;
    var fs := FramesOf(t.input);
    RefusalSnoc(fs, t.replies, reply);
    match Interpret(t.phase.frame)
    case Done(c) => OrderedCommand(i, fs, t.replies, reply, history, c);
    case Rejected(_) => OrderedRefusal(i, fs, t.replies, reply);
  }

  lemma {:induction false} ExecuteKeepsStore(s: State, s': State, i: nat)
    requires i < |s.tasks| && ExecuteStep(s, s', i)
    requires Progress(s.tasks[i]) && StoreSound(s)
    ensures StoreSound(s')
  {
    hide FramesOf, After, EncodeAll, Encode, Next, ErrorReply, ArgumentError.Text, Interpret;
    hide Explains, Find, LookupReply, OkReply;
    var frame := s.tasks[i].phase.frame;
    if Interpret(frame).Done? {
      var c := Interpret(frame).value;
      if c.Set? {
        AcceptedValueIsSmall(s.tasks[i], c.key, c.value);
        ExplainsUpdate(s.history, s.entries, Event(i, c, OkReply()));
      } else {
        ExplainsLookup(s.history, s.entries, Event(i, c, LookupReply(Find(s.entries, c.key))));
      }
    }
  }

  lemma {:induction false} AcceptedValueIsSmall(t: Task, key: Text, value: Blob)
    requires t.phase.Received? && Progress(t)
    requires Interpret(t.phase.frame) == Done(Set(key, value))
    ensures |value| <= MAX_STORED_BYTES
  {
    hide FramesOf, After, EncodeAll, Next, Interpret;
    AfterStep(t.input, |t.replies|);
    StoredValueIsSmall(After(t.input, |t.replies|), key, value);
  }

  // --- All tasks together ---

  lemma {:induction false} SilentKeepsServed(s: State, s': State, i: nat)
    requires AllServed(s) && Silent(s, s', i) && Progress(s'.tasks[i])
    ensures AllServed(s')
  {
    hide Progress, FramesOf, EventsBy, EventsOf, RefusalsExplained;
    forall j | 0 <= j < |s'.tasks|
      ensures Progress(s'.tasks[j]) && Ordered(s'.tasks[j], j, s'.history)
    {
      assert Progress(s.tasks[j]) && Ordered(s.tasks[j], j, s.history);
    }
  }

  lemma {:induction false} OtherOrdered(t: Task, j: nat, i: nat, history: seq<Event>, history': seq<Event>,
                     a: Task, a': Task, reply: Frame)
    requires Ordered(t, j, history) && j != i && Executed(a, a', i, history, history', reply)
    ensures Ordered(t, j, history')
  {
    hide FramesOf, EventsBy, EventsOf, RefusalsExplained, Interpret, ErrorReply, ArgumentError.Text;
    match Interpret(a.phase.frame)
    case Done(c) => EventsBySnoc(history, Event(i, c, reply), j);
    case Rejected(_) =>
  }

  lemma {:induction false} ExecuteKeepsServed(s: State, s': State, i: nat)
    requires AllServed(s) && i < |s.tasks| && ExecuteStep(s, s', i)
    ensures AllServed(s')
  {
    hide ExecuteStep, Executed, Progress, Ordered;
    var reply := ExecuteEffect(s, s', i);
    OnlyOneMoves(s, s', i);
    forall j | 0 <= j < |s'.tasks|
      ensures Progress(s'.tasks[j]) && Ordered(s'.tasks[j], j, s'.history)
    {
      assert Progress(s.tasks[j]) && Ordered(s.tasks[j], j, s.history);
      if j == i {
        ExecuteProgress(s.tasks[i], s'.tasks[i], i, s.history, s'.history, reply);
        ExecuteOrdered(s.tasks[i], s'.tasks[i], i, s.history, s'.history, reply);
      } else {
        OtherOrdered(s.tasks[j], j, i, s.history, s'.history, s.tasks[i], s'.tasks[i], reply);
      }
    }
  }

  lemma {:induction false} OnlyOneMoves(s: State, s': State, i: nat)
    requires i < |s.tasks| && ExecuteStep(s, s', i)
    ensures |s'.tasks| == |s.tasks|
    ensures forall j :: 0 <= j < |s.tasks| && j != i ==> s'.tasks[j] == s.tasks[j]
  {
    hide Interpret, Find, LookupReply, OkReply, ErrorReply, ArgumentError.Text;
  }

  lemma {:induction false} TaskKeepsServed(s: State, s': State, i: nat, action: TaskAction)
    requires AllServed(s) && StoreSound(s) && TaskStep(s, s', i, action)
    ensures AllServed(s') && StoreSound(s')
    ensures Progress(s.tasks[i])
  {
    hide StartStep, ReadStep, ExecuteStep, ReplyStep, DropStep, Progress, Ordered;
    assert Progress(s.tasks[i]) && Ordered(s.tasks[i], i, s.history);
    if action.Execute? && ExecuteStep(s, s', i) {
      ExecuteKeepsServed(s, s', i);
      ExecuteKeepsStore(s, s', i);
    } else {
      if StartStep(s, s', i, action) {
        StartProgress(s, s', i, action);
      } else if ReadStep(s, s', i, action) {
        ReadSilent(s, s', i, action);
        ReadProgress(s, s', i, action);
      } else if ReplyStep(s, s', i, action) {
        ReplySilent(s, s', i, action);
        ReplyProgress(s, s', i, action);
      } else {
        DropProgress(s, s', i, action);
      }
      SilentKeepsServed(s, s', i);
    }
  }

  lemma {:induction false} NewTaskServed(input: seq<byte>, n: nat, history: seq<Event>)
    requires forall k :: 0 <= k < |history| ==> history[k].owner < n
    ensures Progress(NewTask(input)) && Ordered(NewTask(input), n, history)
  {
    hide FramesOf, EventsBy;
    NoEvents(history, n);
  }

  lemma {:induction false} AcceptorKeepsServed(s: State, s': State, action: AcceptorAction)
    requires AllServed(s) && StoreSound(s) && AcceptorStep(s, s', action)
    ensures AllServed(s') && StoreSound(s')
  {
    hide Explains, SmallValues, Progress, Ordered;
    var n := |s.tasks|;
    forall j | 0 <= j < |s'.tasks|
      ensures Progress(s'.tasks[j]) && Ordered(s'.tasks[j], j, s'.history)
    {
      if j < n {
        assert s'.tasks[j] == s.tasks[j];
        assert Progress(s.tasks[j]) && Ordered(s.tasks[j], j, s.history);
      } else {
        NewTaskServed(action.input, n, s.history);
      }
    }
  }

  lemma {:induction false} MainKeepsServed(s: State, s': State, action: MainAction)
    requires AllServed(s) && StoreSound(s) && MainStep(s, s', action)
    ensures AllServed(s') && StoreSound(s')
  {
    hide EventsBy, EventsOf, RefusalsExplained, Explains, SmallValues, FramesOf, After, Next, Delivered;
    forall j | 0 <= j < |s'.tasks|
      ensures Progress(s'.tasks[j]) && Ordered(s'.tasks[j], j, s'.history)
    {
      assert Progress(s.tasks[j]) && Ordered(s.tasks[j], j, s.history);
      assert s'.tasks[j] == s.tasks[j] || s'.tasks[j] == TellTask(s.tasks[j]);
    }
  }

  // --- The counters of lookups and writes ---

  predicate CountersMove(s: State, s': State, i: nat) {
    && i < |s.tasks| == |s'.tasks|
    && s'.tasks == s.tasks[i := s'.tasks[i]]
    && var t, t' := s.tasks[i], s'.tasks[i];
    && s'.hits + Weight(NewHits, t') + CountOf(Hit, s.history)
         == s.hits + Weight(NewHits, t) + CountOf(Hit, s'.history)
    && s'.misses + Weight(NewMisses, t') + CountOf(Miss, s.history)
         == s.misses + Weight(NewMisses, t) + CountOf(Miss, s'.history)
    && s'.sets + CountOf(Write, s.history) == s.sets + CountOf(Write, s'.history)
    && s'.responses + Weight(Settled, t) == s.responses + Weight(Settled, t')
    && s'.failures + Weight(Failed, t) == s.failures + Weight(Failed, t')
  }

  lemma {:induction false} ExecuteBooks(s: State, s': State, i: nat)
    requires i < |s.tasks| && ExecuteStep(s, s', i)
    ensures s'.tasks == s.tasks[i := s'.tasks[i]]
    ensures s'.hits == s.hits && s'.misses == s.misses
    ensures s'.responses == s.responses && s'.failures == s.failures
    ensures var c := Interpret(s.tasks[i].phase.frame);
      && s'.sets == s.sets + One(c.Done? && c.value.Set?)
      && (s'.tasks[i].phase.LookedUp? <==> c.Done? && c.value.Get?)
  {
    hide Interpret, Find, LookupReply, OkReply, ErrorReply, ArgumentError.Text;
  }

  lemma {:induction false} ExecuteCounts(s: State, s': State, i: nat)
    requires i < |s.tasks| && ExecuteStep(s, s', i)
    ensures CountersMove(s, s', i)
  {
    hide ExecuteStep, Interpret, ErrorReply, ArgumentError.Text, CountOf;
    var reply := ExecuteEffect(s, s', i);
    ExecuteBooks(s, s', i);
    var c := Interpret(s.tasks[i].phase.frame);
    if c.Done? {
      CountSnoc(Hit, s.history, Event(i, c.value, reply));
      CountSnoc(Miss, s.history, Event(i, c.value, reply));
      CountSnoc(Write, s.history, Event(i, c.value, reply));
    }
  }

  lemma {:induction false} ReplyCounts(s: State, s': State, i: nat, action: TaskAction)
    requires i < |s.tasks| && ReplyStep(s, s', i, action)
    requires s.tasks[i].phase.Replied? ==> s.tasks[i].replies != []
    ensures CountersMove(s, s', i)
  {
    hide CountersMove, ReplyStep;
    match action
    case CountLookup => CountLookupCounts(s, s', i);
    case CountReply => CountReplyCounts(s, s', i);
    case _ => SendingCounts(s, s', i, action);
  }

  lemma {:induction false} CountLookupCounts(s: State, s': State, i: nat)
    requires i < |s.tasks| && ReplyStep(s, s', i, CountLookup)
    ensures CountersMove(s, s', i)
  {
    hide CountOf;
  }

  lemma {:induction false} CountReplyCounts(s: State, s': State, i: nat)
    requires i < |s.tasks| && ReplyStep(s, s', i, CountReply)
    requires s.tasks[i].phase.Replied? ==> s.tasks[i].replies != []
    ensures CountersMove(s, s', i)
  {
    hide CountOf;
  }

  lemma {:induction false} SendingCounts(s: State, s': State, i: nat, action: TaskAction)
    requires i < |s.tasks| && ReplyStep(s, s', i, action)
    requires !action.CountLookup? && !action.CountReply?
    ensures CountersMove(s, s', i)
  {
    hide CountOf, Encode, ReadErrorReply;
  }

  // Steps that leave the replies of a task as they are, and whether the last one is settled.
  lemma {:induction false} IdleCounts(s: State, s': State, i: nat)
    requires i < |s.tasks| == |s'.tasks| && s'.tasks == s.tasks[i := s'.tasks[i]]
    requires s'.history == s.history && s'.hits == s.hits && s'.misses == s.misses
    requires s'.sets == s.sets && s'.responses == s.responses && s'.failures == s.failures
    requires s'.tasks[i].replies == s.tasks[i].replies
    requires var p, p' := s.tasks[i].phase, s'.tasks[i].phase;
      p' == p || !(LastUnsettled(p) || LastUnsettled(p'))
    ensures CountersMove(s, s', i)
  {
    hide CountOf;
  }

  lemma {:induction false} StartCounts(s: State, s': State, i: nat, action: TaskAction)
    requires i < |s.tasks| && StartStep(s, s', i, action)
    ensures CountersMove(s, s', i)
  {
    hide CountersMove;
    IdleCounts(s, s', i);
  }

  lemma {:induction false} TakeCounts(s: State, s': State, i: nat)
    requires i < |s.tasks| && ReadStep(s, s', i, Take)
    ensures CountersMove(s, s', i)
  {
    hide CountersMove, Next;
    IdleCounts(s, s', i);
  }

  lemma {:induction false} StopCounts(s: State, s': State, i: nat, action: TaskAction)
    requires i < |s.tasks| && ReadStep(s, s', i, action) && !action.Take?
    ensures CountersMove(s, s', i)
  {
    hide CountersMove, Next;
    IdleCounts(s, s', i);
  }

  lemma {:induction false} ReadCounts(s: State, s': State, i: nat, action: TaskAction)
    requires i < |s.tasks| && ReadStep(s, s', i, action)
    ensures CountersMove(s, s', i)
  {
    hide CountersMove, ReadStep;
    if action.Take? {
      TakeCounts(s, s', i);
    } else {
      StopCounts(s, s', i, action);
    }
  }

  lemma {:induction false} DropCounts(s: State, s': State, i: nat, action: TaskAction)
    requires i < |s.tasks| && DropStep(s, s', i, action)
    ensures CountersMove(s, s', i)
  {
    hide CountersMove;
    IdleCounts(s, s', i);
  }

  lemma {:induction false} TaskCounts(s: State, s': State, i: nat, action: TaskAction)
    requires TaskStep(s, s', i, action) && Progress(s.tasks[i])
    ensures CountersMove(s, s', i)
  {
    hide StartStep, ReadStep, ExecuteStep, ReplyStep, DropStep, CountersMove, FramesOf, Next;
    if action.Execute? && ExecuteStep(s, s', i) {
      ExecuteCounts(s, s', i);
    } else if ReplyStep(s, s', i, action) {
      ReplyCounts(s, s', i, action);
    } else if StartStep(s, s', i, action) {
      StartCounts(s, s', i, action);
    } else if ReadStep(s, s', i, action) {
      ReadCounts(s, s', i, action);
    } else {
      DropCounts(s, s', i, action);
    }
  }

  lemma {:induction false} CountersStayExact(s: State, s': State, i: nat)
    requires CountersExact(s) && CountersMove(s, s', i)
    ensures CountersExact(s')
  {
    hide Weight, CountOf;
    SumPut(NewHits, s.tasks, i, s'.tasks[i]);
    SumPut(NewMisses, s.tasks, i, s'.tasks[i]);
    SumPut(Settled, s.tasks, i, s'.tasks[i]);
    SumPut(Failed, s.tasks, i, s'.tasks[i]);
  }

  lemma {:induction false} AcceptorKeepsCounters(s: State, s': State, action: AcceptorAction)
    requires CountersExact(s) && AcceptorStep(s, s', action)
    ensures CountersExact(s')
  {
    hide CountOf, Sum;
    if action.Accept? {
      SumSnoc(NewHits, s.tasks, NewTask(action.input));
      SumSnoc(NewMisses, s.tasks, NewTask(action.input));
      SumSnoc(Settled, s.tasks, NewTask(action.input));
      SumSnoc(Failed, s.tasks, NewTask(action.input));
    } else {
      assert s'.tasks == s.tasks;
    }
  }

  lemma {:induction false} MainKeepsCounters(s: State, s': State, action: MainAction)
    requires CountersExact(s) && MainStep(s, s', action)
    ensures CountersExact(s')
  {
    hide CountOf, Sum;
    if action.Notify? {
      SumSame(NewHits, s.tasks, s'.tasks);
      SumSame(NewMisses, s.tasks, s'.tasks);
      SumSame(Settled, s.tasks, s'.tasks);
      SumSame(Failed, s.tasks, s'.tasks);
    }
  }

  // --- Whole runs ---

  lemma {:induction false} StepKeepsTruth(s: State, s': State, step: Step)
    requires Truthful(s) && Steps(s, s', step)
    ensures Truthful(s')
  {
    hide AcceptorStep, MainStep, TaskStep, AllServed, StoreSound, CountersExact;
    match step
    case ByAcceptor(accept) =>
      AcceptorKeepsServed(s, s', accept);
      AcceptorKeepsCounters(s, s', accept);
    case ByMain(shutdown) =>
      MainKeepsServed(s, s', shutdown);
      MainKeepsCounters(s, s', shutdown);
    case ByTask(i, action) =>
      TaskKeepsServed(s, s', i, action);
      TaskCounts(s, s', i, action);
      CountersStayExact(s, s', i);
  }

  lemma InitIsTruthful(max: nat)
    ensures Truthful(Init(max))
  {
  }

  lemma {:induction false} RunIsTruthful(max: nat, trace: seq<State>, steps: seq<Step>, k: nat)
    requires IsRun(max, trace, steps) && k < |trace|
    ensures Truthful(trace[k])
    decreases k
  {
    hide Truthful, Steps, Init;
    if k == 0 {
      InitIsTruthful(max);
    } else {
      RunIsTruthful(max, trace, steps, k - 1);
      StepKeepsTruth(trace[k - 1], trace[k], steps[k - 1]);
    }
  }
}
