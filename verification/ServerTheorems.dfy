/** What every run of the server guarantees to its clients. */
module ServerTheorems {
  import opened Arguments
  import opened Bytes
  import opened Capacity
  import opened ClientServer
  import opened Commands
  import opened Encoding
  import opened Exchanges
  import opened Frames
  import opened Handlers
  import opened Histories
  import opened Requesters
  import opened Server
  import opened ServerHistory
  import opened ServerResources
  import opened ServerShutdown
  import opened Sessions

  // In every state of every run there is one order of all operations executed so far in which
  // every GET got the value of the last earlier SET of its key and null if there is none, the map
  // holds what that order leaves behind, and the operations of each connection stand in the order
  // of its frames, with the replies that the connection is given.
  lemma {:induction false} Linearizable(max: nat, trace: seq<State>, steps: seq<Step>, k: nat)
    requires IsRun(max, trace, steps) && k < |trace|
    ensures Legal(trace[k].history) && trace[k].entries == Replay(trace[k].history)
    ensures forall p :: 0 <= p < |trace[k].history| ==> RightReply(trace[k].history, p)
    ensures forall i :: 0 <= i < |trace[k].tasks| ==>
              Ordered(trace[k].tasks[i], i, trace[k].history)
  {
    hide IsRun, Legal, Replay, Ordered, Progress, RightReply;
    RunIsTruthful(max, trace, steps, k);
    forall p | 0 <= p < |trace[k].history| ensures RightReply(trace[k].history, p) {
      LegalMeansRight(trace[k].history, p);
    }
  }

  lemma {:induction false} StepExtendsHistory(s: State, s': State, step: Step)
    requires Steps(s, s', step)
    ensures s.history <= s'.history
  {
    hide TaskStep, AcceptorStep, MainStep;
    match step
    case ByAcceptor(accept) => AcceptorKeepsHistory(s, s', accept);
    case ByMain(shutdown) => MainKeepsHistory(s, s', shutdown);
    case ByTask(i, action) => TaskExtendsHistory(s, s', i, action);
  }

  lemma AcceptorKeepsHistory(s: State, s': State, action: AcceptorAction)
    requires AcceptorStep(s, s', action)
    ensures s'.history == s.history
  {
  }

  lemma MainKeepsHistory(s: State, s': State, action: MainAction)
    requires MainStep(s, s', action)
    ensures s'.history == s.history
  {
  }

  lemma {:induction false} TaskExtendsHistory(s: State, s': State, i: nat, action: TaskAction)
    requires TaskStep(s, s', i, action)
    ensures s.history <= s'.history
  {
    hide ExecuteStep, ReadStep, ReplyStep;
    if action.Execute? && ExecuteStep(s, s', i) {
      var reply := ExecuteEffect(s, s', i);
    } else if ReadStep(s, s', i, action) {
      ReadSilent(s, s', i, action);
    } else if ReplyStep(s, s', i, action) {
      ReplySilent(s, s', i, action);
    }
  }

  // The order only ever grows at its end: an operation that has been replied to comes before every
  // operation whose request has not been executed yet.
  lemma {:induction false} HistoryGrows(max: nat, trace: seq<State>, steps: seq<Step>, j: nat, k: nat)
    requires IsRun(max, trace, steps) && j <= k < |trace|
    ensures trace[j].history <= trace[k].history
    decreases k
  {
    hide Steps, Init;
    if j < k {
      HistoryGrows(max, trace, steps, j, k - 1);
      assert Steps(trace[k - 1], trace[k], steps[k - 1]);
      StepExtendsHistory(trace[k - 1], trace[k], steps[k - 1]);
    }
  }

  // How a task stands whose handler has returned: everything written is accounted for, and if the
  // input ended the handler, all its frames have been answered.
  ghost predicate Ended(t: Task, end: End) {
    && |t.replies| <= |FramesOf(t.input)|
    && Delivered(end, [], t.replies, t.written)
    && match end
       case ClientDone =>
         |t.replies| == |FramesOf(t.input)| && Next(After(t.input, |t.replies|)) == AtEof
       case ReadError(error, _) =>
         && MayFail(After(t.input, |t.replies|), error)
         && (!error.Socket? ==> |t.replies| == |FramesOf(t.input)|)
       case _ => true
  }

  // A connection that ends because the client is done has been sent exactly the replies to all
  // its frames; one that ends because its input cannot be read has been sent those and as much of
  // the reason as could be written; one that ends in a failed write, all replies but the last.
  lemma {:induction false} WholeTranscript(max: nat, trace: seq<State>, steps: seq<Step>, k: nat, i: nat)
    requires IsRun(max, trace, steps) && k < |trace| && i < |trace[k].tasks|
    requires trace[k].tasks[i].phase.Leaving?
    ensures Ended(trace[k].tasks[i], trace[k].tasks[i].phase.end)
  {
    hide IsRun, StoreSound, CountersExact, Progress, Ordered, Ended;
    RunIsTruthful(max, trace, steps, k);
    assert Progress(trace[k].tasks[i]) && Ordered(trace[k].tasks[i], i, trace[k].history);
    TranscriptOfTask(trace[k].tasks[i]);
  }

  lemma {:induction false} TranscriptOfTask(t: Task)
    requires Progress(t) && t.phase.Leaving?
    ensures Ended(t, t.phase.end)
  {
    hide FramesOf, After, Next, EncodeAll, Encode, Delivered;
    AfterStep(t.input, |t.replies|);
  }

  // Every value in the map can be fetched: the encoded reply fits a client's buffer.
  lemma {:induction false} EveryValueIsRetrievable(max: nat, trace: seq<State>, steps: seq<Step>, k: nat, key: Text,
                                rest: seq<byte>)
    requires IsRun(max, trace, steps) && k < |trace| && key in trace[k].entries
    ensures |trace[k].entries[key]| <= MAX_STORED_BYTES
    ensures var reply := Bulk(trace[k].entries[key]);
      Next(Encode(reply) + rest) == FrameItem(reply, |Encode(reply)|)
  {
    hide IsRun, Next, Encode, AllServed, CountersExact, LastWrite, Replay;
    RunIsTruthful(max, trace, steps, k);
    ReplayLookup(trace[k].history, key);
    LastWriteIsSmall(trace[k].history, key);
    StoredValueIsRetrievable(trace[k].entries[key], rest);
  }

  // The final metrics are exact: the responses are the replies sent in full, every other request
  // is one whose reply could not be written, and hits and misses are those of the history.
  lemma {:induction false} FinalMetricsAreExact(max: nat, trace: seq<State>, steps: seq<Step>, k: nat)
    requires IsRun(max, trace, steps) && k < |trace| && trace[k].main.Finished?
    ensures var s := trace[k];
      && s.requests == s.responses + s.failures
      && s.responses == Sum(Settled, s.tasks) && s.failures == Sum(Failed, s.tasks)
      && s.hits == CountOf(Hit, s.history) && s.misses == CountOf(Miss, s.history)
      && s.requests == s.refusals + |s.history|
  {
    hide IsRun, Sum, AllServed, StoreSound, CountOf, Weight;
    var s := trace[k];
    MetricsAddUp(max, trace, steps, k);
    RunIsTruthful(max, trace, steps, k);
    ShutdownIsComplete(max, trace, steps, k);
    NothingPending(s.tasks);
    OutcomesCover(s.history);
  }

  function HitPlaces(history: seq<Event>): set<nat> {
    set p: nat | p < |history| && history[p].command.Get? && history[p].reply.Bulk?
  }

  function MissPlaces(history: seq<Event>): set<nat> {
    set p: nat | p < |history| && history[p].command.Get? && history[p].reply == Null
  }

  // At the end the hits are the GETs that got a value and the misses those that got null.
  lemma {:induction false} FinalLookupsAreExact(max: nat, trace: seq<State>, steps: seq<Step>, k: nat)
    requires IsRun(max, trace, steps) && k < |trace| && trace[k].main.Finished?
    ensures trace[k].hits == |HitPlaces(trace[k].history)|
    ensures trace[k].misses == |MissPlaces(trace[k].history)|
  {
    hide IsRun, Legal, Replay, Ordered, Progress, CountOf, CountersExact, HitPlaces, MissPlaces;
    FinalMetricsAreExact(max, trace, steps, k);
    RunIsTruthful(max, trace, steps, k);
    CountOfPlaces(Hit, trace[k].history);
    CountOfPlaces(Miss, trace[k].history);
    NamedPlaces(trace[k].history);
  }

  // Every reply to a GET in a legal history is a bulk string or null.
  lemma {:induction false} NamedPlaces(history: seq<Event>)
    requires Legal(history)
    ensures PlacesIn(Hit, history) == HitPlaces(history)
    ensures PlacesIn(Miss, history) == MissPlaces(history)
  {
    forall p: nat | p < |history| && history[p].command.Get?
      ensures history[p].reply.Bulk? || history[p].reply == Null
    {
      LegalMeansRight(history, p);
    }
  }

  lemma {:induction false} NothingPending(tasks: seq<Task>)
    requires forall i :: 0 <= i < |tasks| ==> !Alive(tasks[i])
    ensures Sum(InFlight, tasks) == Sum(Unclassified, tasks) == 0
    ensures Sum(NewHits, tasks) == Sum(NewMisses, tasks) == 0
  {
    hide Sum;
    forall i | 0 <= i < |tasks|
      ensures Weight(InFlight, tasks[i]) == Weight(Unclassified, tasks[i]) == 0
      ensures Weight(NewHits, tasks[i]) == Weight(NewMisses, tasks[i]) == 0
    {
      assert !Alive(tasks[i]);
    }
    SumZero(InFlight, tasks);
    SumZero(Unclassified, tasks);
    SumZero(NewHits, tasks);
    SumZero(NewMisses, tasks);
  }

  lemma {:induction false} OutcomesCover(history: seq<Event>)
    ensures CountOf(Hit, history) + CountOf(Miss, history) + CountOf(Write, history) == |history|
  {
    if history != [] {
      OutcomesCover(history[..|history| - 1]);
    }
  }

  // A client that makes a series of calls on one connection of a server with any number of other
  // clients gets, for each call whose reply has been sent in full, the reply that the global order
  // determines at the place of that call's operation. Whatever else it will send does not matter.
  lemma {:induction false} ClientsAreServed(max: nat, trace: seq<State>, steps: seq<Step>, k: nat, i: nat,
                         requests: seq<Command>, n: nat)
    requires IsRun(max, trace, steps) && k < |trace| && i < |trace[k].tasks|
    requires trace[k].tasks[i].input == EncodeAll(RequestFrames(requests))
    requires n <= |trace[k].tasks[i].replies|
    requires EncodeAll(trace[k].tasks[i].replies[..n]) <= trace[k].tasks[i].written
    ensures n <= FitCount(requests)
    ensures AnsweredInOrder(trace[k].history, i, requests[..n],
                            Answers(requests, trace[k].tasks[i].written)[..n])
  {
    hide IsRun, ServedClient, Answers, AllServed, StoreSound, CountersExact, RequestFrames, Fits;
    hide EncodeAll, Positions, After, FramesOf, AnsweredInOrder;
    RunIsTruthful(max, trace, steps, k);
    var t := trace[k].tasks[i];
    var sent := EncodeAll(t.replies[..n]);
    var pending := TaskIsServed(trace[k], i, requests);
    EndToEnd(i, requests, t.replies, pending, [], trace[k].history, n, t.written[|sent|..]);
    assert sent + t.written[|sent|..] == t.written;
  }

  // A client that has set a key and then got it has read its own value, unless some operation
  // wrote the key in between: in every run, whatever the other clients do and whatever this client
  // sends later.
  lemma {:induction false} ClientsReadTheirWrites(max: nat, trace: seq<State>, steps: seq<Step>, k: nat,
                         i: nat, requests: seq<Command>, n: nat, a: nat, b: nat)
    requires IsRun(max, trace, steps) && k < |trace| && i < |trace[k].tasks|
    requires trace[k].tasks[i].input == EncodeAll(RequestFrames(requests))
    requires n <= |trace[k].tasks[i].replies|
    requires EncodeAll(trace[k].tasks[i].replies[..n]) <= trace[k].tasks[i].written
    requires a < b < n && b < |requests|
    requires requests[a].Set? && requests[b] == Command.Get(requests[a].key)
    requires Unwritten(trace[k].history, i, a, b, requests[a].key)
    ensures Answers(requests, trace[k].tasks[i].written)[a] == Stored
    ensures Answers(requests, trace[k].tasks[i].written)[b] == Found(requests[a].value)
  {
    hide IsRun, Answers, RequestFrames, EncodeAll, Positions, AnsweredInOrder;
    ClientsAreServed(max, trace, steps, k, i, requests, n);
    var answers := Answers(requests, trace[k].tasks[i].written);
    ReadYourWrite(trace[k].history, i, requests[..n], answers[..n], a, b);
  }

  // A client is told that a key is absent if and only if no earlier operation in the global order
  // has set it.
  lemma {:induction false} MissingIffNeverSet(max: nat, trace: seq<State>, steps: seq<Step>, k: nat,
                         i: nat, requests: seq<Command>, n: nat, j: nat)
    requires IsRun(max, trace, steps) && k < |trace| && i < |trace[k].tasks|
    requires trace[k].tasks[i].input == EncodeAll(RequestFrames(requests))
    requires n <= |trace[k].tasks[i].replies|
    requires EncodeAll(trace[k].tasks[i].replies[..n]) <= trace[k].tasks[i].written
    requires j < n && j < |requests| && requests[j].Get?
    ensures j < |Positions(trace[k].history, i)|
    ensures Answers(requests, trace[k].tasks[i].written)[j] == Missing
       <==> NeverSet(trace[k].history, Positions(trace[k].history, i)[j], requests[j].key)
  {
    hide IsRun, Answers, RequestFrames, EncodeAll, Positions;
    ClientsAreServed(max, trace, steps, k, i, requests, n);
    var answers := Answers(requests, trace[k].tasks[i].written);
    assert answers[..n][j] == answers[j];
  }

  lemma {:induction false} TaskIsServed(s: State, i: nat, requests: seq<Command>)
    returns (pending: seq<byte>)
    requires AllServed(s) && StoreSound(s) && i < |s.tasks|
    requires s.tasks[i].input == EncodeAll(RequestFrames(requests))
    ensures ServedClient(i, requests, s.tasks[i].replies, pending, [], s.history)
  {
    hide EncodeAll, FramesOf, EventsOf, RefusalsExplained, RequestFrames, After, Progress;
    var t := s.tasks[i];
    assert Progress(t) && Ordered(t, i, s.history);
    pending := After(t.input, |t.replies|);
    assert EventsBy([], i) == [];
    assert [] + EventsOf(i, FramesOf(t.input), t.replies) == EventsOf(i, FramesOf(t.input), t.replies);
  }

  // --- What a client can read ---

  lemma ErrorReplyIsReadable(m: Message)
    ensures Readable(ErrorReply(m))
  {
  }

  // Only the text of a socket error may be unfit for a simple error.
  lemma {:induction false} ReadErrorReplyIsReadable(error: ReadError)
    requires !error.Socket?
    ensures Readable(ReadErrorReply(error))
  {
    match error
    case Malformed(fault) => ErrorReplyIsReadable(fault.Text());
    case OverLimit => ErrorReplyIsReadable(OVER_LIMIT);
    case Truncated => ErrorReplyIsReadable(TRUNCATED);
  }

  // The reply to a command is the reply of some operation in the history.
  lemma {:induction false} ReplyInEvents(owner: nat, frames: seq<Frame>, replies: seq<Frame>, k: nat)
    requires k < |replies| <= |frames| && Interpret(frames[k]).Done?
    ensures Event(owner, Interpret(frames[k]).value, replies[k]) in EventsOf(owner, frames, replies)
  {
    hide Interpret;
    if k < |replies| - 1 {
      ReplyInEvents(owner, frames, replies[..|replies| - 1], k);
    }
  }

  lemma {:induction false} TaskRepliesReadable(t: Task, i: nat, history: seq<Event>, k: nat)
    requires Ordered(t, i, history) && k < |t.replies|
    requires Legal(history) && SmallValues(history)
    ensures Readable(t.replies[k])
  {
    hide Interpret, FramesOf, EventsOf, EventsBy, Readable, Legal, SmallValues, ErrorReply;
    hide ArgumentError.Text;
    var fs := FramesOf(t.input);
    match Interpret(fs[k])
    case Rejected(error) =>
      ErrorReplyIsReadable(error.Text());
    case Done(c) =>
      ReplyInEvents(i, fs, t.replies, k);
      var n :| 0 <= n < |EventsBy(history, i)| && EventsBy(history, i)[n] == Event(i, c, t.replies[k]);
      ReplyIsReadable(history, Positions(history, i)[n]);
  }

  // What a client reads from the output of a connection that has ended.
  ghost predicate ReadBack(t: Task, end: End) {
    var n := |t.replies|;
    match end
    case ReadError(error, reported) =>
      && t.replies <= FramesOf(t.written)
      && (Readable(ReadErrorReply(error)) ==>
            && ReadUpTo(t.written, t.replies, ReadErrorReply(error))
            && (reported ==> FramesOf(t.written) == t.replies + [ReadErrorReply(error)]))
    case WriteError => n > 0 && ReadUpTo(t.written, t.replies[..n - 1], t.replies[n - 1])
    case _ => FramesOf(t.written) == t.replies && After(t.written, n) == []
  }

  // Whatever a client sends, it can read every reply it is sent: reading the output of its
  // connection gives exactly the replies, in order, and nothing else but the reason why its input
  // could not be read, of which there may be only the beginning. After a failed write the last reply
  // may be missing or cut short.
  lemma {:induction false} EveryReplyIsRead(max: nat, trace: seq<State>, steps: seq<Step>, k: nat, i: nat)
    requires IsRun(max, trace, steps) && k < |trace| && i < |trace[k].tasks|
    requires trace[k].tasks[i].phase.Leaving?
    ensures ReadBack(trace[k].tasks[i], trace[k].tasks[i].phase.end)
  {
    hide IsRun, CountersExact, Progress, Ordered, Readable, Legal, SmallValues, Ended, ReadBack;
    RunIsTruthful(max, trace, steps, k);
    var t := trace[k].tasks[i];
    assert Progress(t) && Ordered(t, i, trace[k].history);
    TranscriptOfTask(t);
    forall j | 0 <= j < |t.replies| ensures Readable(t.replies[j]) {
      TaskRepliesReadable(t, i, trace[k].history, j);
    }
    EndedReadsBack(t, t.phase.end);
  }

  lemma {:induction false} EndedReadsBack(t: Task, end: End)
    requires Ended(t, end)
    requires forall j :: 0 <= j < |t.replies| ==> Readable(t.replies[j])
    ensures ReadBack(t, end)
  {
    hide FramesOf, After, Next, EncodeAll, Encode, Readable, ReadErrorReply, ReadUpTo, MayFail;
    var n := |t.replies|;
    assert forall fs :: [] + EncodeAll(fs) == EncodeAll(fs);
    match end
    case ReadError(error, _) =>
      var sent := EncodeAll(t.replies);
      assert t.written == sent + t.written[|sent|..];
      EncodedFramesReadFirst(t.replies, t.written[|sent|..]);
      if Readable(ReadErrorReply(error)) {
        CutStreamRead(t.written, t.replies, ReadErrorReply(error));
      }
    case WriteError =>
      EncodeAllSnoc(t.replies[..n - 1], t.replies[n - 1]);
      assert t.replies[..n - 1] + [t.replies[n - 1]] == t.replies;
      CutStreamRead(t.written, t.replies[..n - 1], t.replies[n - 1]);
    case _ =>
      NextOfNothing();
      assert t.written == EncodeAll(t.replies) + [];
      EncodedFramesRead(t.replies, []);
  }

  // --- Requests that are too long ---

  // The handler has stopped because of what the client sent, or because it sent no more.
  predicate StoppedByInput(phase: Phase) {
    && phase.Leaving?
    && (phase.end.ClientDone? || (phase.end.ReadError? && !phase.end.error.Socket?))
  }

  // A handler that its client's input stops has answered exactly the requests before the first one
  // that is too long for the buffer; and if there is one, that is why it stopped.
  lemma {:induction false} StoppedAtFirstOverlong(max: nat, trace: seq<State>, steps: seq<Step>, k: nat,
                         i: nat, requests: seq<Command>)
    requires IsRun(max, trace, steps) && k < |trace| && i < |trace[k].tasks|
    requires trace[k].tasks[i].input == EncodeAll(RequestFrames(requests))
    requires StoppedByInput(trace[k].tasks[i].phase)
    ensures var t, m := trace[k].tasks[i], FitCount(requests);
      && |t.replies| == m
      && (t.phase.end.ClientDone? <==> m == |requests|)
      && (t.phase.end.ReadError? ==> t.phase.end.error == OverLimit)
      && (t.phase.end.ReadError? && t.phase.end.reported ==>
            t.written == EncodeAll(t.replies) + Encode(ErrorReply(OVER_LIMIT)))
  {
    hide IsRun, FramesOf, After, Next, EncodeAll, Encode, RequestFrames, FitCount, Fits;
    WholeTranscript(max, trace, steps, k, i);
    RequestsRead(requests);
    var t := trace[k].tasks[i];
    assert [] + EncodeAll(t.replies) == EncodeAll(t.replies);
  }

  // What a client whose requests stopped its handler reads: one reply to each request before the
  // first one that is too long, and then at most the error about the limit.
  ghost predicate ReadByClient(t: Task, requests: seq<Command>) {
    && |t.replies| == FitCount(requests)
    && (if FitCount(requests) == |requests| then FramesOf(t.written) == t.replies
        else
          && ReadUpTo(t.written, t.replies, ErrorReply(OVER_LIMIT))
          && (t.phase == Leaving(ReadError(OverLimit, true)) ==>
                FramesOf(t.written) == t.replies + [ErrorReply(OVER_LIMIT)]))
  }

  lemma {:induction false} OutputReadByClient(max: nat, trace: seq<State>, steps: seq<Step>, k: nat,
                         i: nat, requests: seq<Command>)
    requires IsRun(max, trace, steps) && k < |trace| && i < |trace[k].tasks|
    requires trace[k].tasks[i].input == EncodeAll(RequestFrames(requests))
    requires StoppedByInput(trace[k].tasks[i].phase)
    ensures ReadByClient(trace[k].tasks[i], requests)
  {
    hide IsRun, FramesOf, After, EncodeAll, Encode, RequestFrames, FitCount, Fits, ReadUpTo, Readable;
    StoppedAtFirstOverlong(max, trace, steps, k, i, requests);
    EveryReplyIsRead(max, trace, steps, k, i);
    ReadErrorReplyIsReadable(OverLimit);
  }

  // A call is answered by the reply to it, by the error about the limit, or by the end of the
  // stream.
  lemma {:induction false} AnswerByPlace(t: Task, requests: seq<Command>, j: nat)
    requires ReadByClient(t, requests) && j < |requests|
    ensures var m, answer := FitCount(requests), Answers(requests, t.written)[j];
      && (j < m ==> answer == Understand(requests[j], t.replies[j]))
      && (j >= m ==> answer == Refused(Ascii(OVER_LIMIT)) || answer == Closed || answer.BadReply?)
      && (j == m && t.phase == Leaving(ReadError(OverLimit, true)) ==>
            answer == Refused(Ascii(OVER_LIMIT)))
  {
    hide After, Encode, Fits, Next;
    var frames := FramesOf(t.written);
    if j < |frames| {
      AnswerByFrame(requests, t.written, j);
    } else {
      AnswersAfterLast(requests, t.written, j);
      AfterStep(t.written, |frames|);
    }
  }

  // On a connection that its input has ended, a SET is acknowledged exactly when neither its own
  // request nor an earlier one is too long for the server's buffer. The first request that is too
  // long, whichever command it is, is answered with the error about the limit.
  lemma {:induction false} SetAcknowledgedIffFits(max: nat, trace: seq<State>, steps: seq<Step>, k: nat,
                         i: nat, requests: seq<Command>, j: nat)
    requires IsRun(max, trace, steps) && k < |trace| && i < |trace[k].tasks|
    requires trace[k].tasks[i].input == EncodeAll(RequestFrames(requests))
    requires StoppedByInput(trace[k].tasks[i].phase) && j < |requests|
    ensures var answer := Answers(requests, trace[k].tasks[i].written)[j];
      && (requests[j].Set? ==> (answer == Stored <==> forall l :: 0 <= l <= j ==> Fits(requests[l])))
      && (j == FitCount(requests) && trace[k].tasks[i].phase == Leaving(ReadError(OverLimit, true)) ==>
            answer == Refused(Ascii(OVER_LIMIT)))
  {
    hide IsRun, FramesOf, EncodeAll, Encode, RequestFrames, Fits, Answers, ReadUpTo;
    var t := trace[k].tasks[i];
    OutputReadByClient(max, trace, steps, k, i, requests);
    AnswerByPlace(t, requests, j);
    if requests[j].Set? && j < FitCount(requests) {
      RepliesToSets(max, trace, steps, k, i, requests, j);
    }
  }

  lemma {:induction false} RepliesToSets(max: nat, trace: seq<State>, steps: seq<Step>, k: nat,
                         i: nat, requests: seq<Command>, j: nat)
    requires IsRun(max, trace, steps) && k < |trace| && i < |trace[k].tasks|
    requires trace[k].tasks[i].input == EncodeAll(RequestFrames(requests))
    requires j < |trace[k].tasks[i].replies| && j < |requests| && requests[j].Set?
    ensures trace[k].tasks[i].replies[j] == OkReply()
  {
    hide IsRun, ServedClient, AllServed, StoreSound, CountersExact, RequestFrames, Fits, FitCount;
    hide EncodeAll, Positions, SmallValues, EventsBy;
    RunIsTruthful(max, trace, steps, k);
    var history := trace[k].history;
    var pending := TaskIsServed(trace[k], i, requests);
    RequestsBecomeEvents(i, requests, trace[k].tasks[i].replies, pending, [], history);
    assert IsRequest(history, i, j, requests[j], trace[k].tasks[i].replies[j]);
    assert history[Positions(history, i)[j]] == EventsBy(history, i)[j];
  }
}
