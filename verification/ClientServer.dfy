/** A client and the server at the two ends of one connection. */
module ClientServer {
  import opened Arguments
  import opened Bytes
  import opened Capacity
  import opened Commands
  import opened Config
  import opened Encoding
  import opened Exchanges
  import opened Frames
  import opened Handlers
  import opened Histories
  import opened Requesters
  import opened Sequences
  import opened Sessions

  // The request is one that the server can buffer.
  predicate Fits(c: Command) {
    |Encode(RequestFrame(c))| <= MAX_BUFFERED_BYTES
  }

  // How many requests come before the first one that the server cannot buffer.
  function FitCount(requests: seq<Command>): (m: nat)
    ensures m <= |requests|
    ensures forall k :: 0 <= k < m ==> Fits(requests[k])
    ensures m < |requests| ==> !Fits(requests[m])
  {
    hide Fits;
    if requests == [] || !Fits(requests[0]) then 0 else 1 + FitCount(requests[1..])
  }

  predicate Readable(f: Frame) {
    Sendable(f, 0) && |Encode(f)| <= MAX_BUFFERED_BYTES
  }

  lemma RequestIsUnderstood(c: Command)
    ensures Interpret(RequestFrame(c)) == Done(c)
    ensures Sendable(RequestFrame(c), 0)
  {
    InterpretExact(RequestFrame(c), c);
    SendableOneByOne(RequestFrame(c).elements, 1);
  }

  // A series of encoded frames is read back as that series, and then what follows is read.
  lemma {:induction false} EncodedFramesReadFirst(fs: seq<Frame>, rest: seq<byte>)
    requires forall k :: 0 <= k < |fs| ==> Readable(fs[k])
    ensures FramesOf(EncodeAll(fs) + rest) == fs + FramesOf(rest)
    ensures After(EncodeAll(fs) + rest, |fs|) == rest
    decreases |fs|
  {
    hide Encode, Next, Readable, FramesOf;
    if fs == [] {
      assert EncodeAll(fs) + rest == rest;
      assert [] + FramesOf(rest) == FramesOf(rest);
    } else {
      hide EncodeAll, After;
      var stream, later := EncodeAll(fs) + rest, EncodeAll(fs[1..]) + rest;
      EncodeAllCons(fs);
      Associate(Encode(fs[0]), EncodeAll(fs[1..]), rest);
      FirstFrameReads(fs[0], later);
      assert stream[|Encode(fs[0])|..] == later;
      EncodedFramesReadFirst(fs[1..], rest);
      FirstFrameOf(stream, later, |fs| - 1);
      assert fs == [fs[0]] + fs[1..];
      Associate([fs[0]], fs[1..], FramesOf(rest));
    }
  }

  lemma {:induction false} FirstFrameOf(stream: seq<byte>, later: seq<byte>, n: nat)
    requires Next(stream).FrameItem? && stream[Next(stream).length..] == later
    ensures FramesOf(stream) == [Next(stream).frame] + FramesOf(later)
    ensures n <= |FramesOf(later)| ==> After(stream, n + 1) == After(later, n)
  {
    hide Next;
  }

  // The series is all there is to read if what follows is not a frame.
  lemma {:induction false} EncodedFramesRead(fs: seq<Frame>, rest: seq<byte>)
    requires forall k :: 0 <= k < |fs| ==> Readable(fs[k])
    requires !Next(rest).FrameItem?
    ensures FramesOf(EncodeAll(fs) + rest) == fs
    ensures After(EncodeAll(fs) + rest, |fs|) == rest
  {
    hide Next, EncodeAll, Readable, After;
    EncodedFramesReadFirst(fs, rest);
    assert FramesOf(rest) == [];
  }

  lemma NextOfNothing()
    ensures Next([]) == AtEof
  {
  }

  lemma FirstFrameReads(f: Frame, rest: seq<byte>)
    requires Readable(f)
    ensures Next(Encode(f) + rest) == FrameItem(f, |Encode(f)|)
  {
    EncodedFrameReads(f, rest);
  }

  // The i-th reply read is taken as the answer to the i-th request, whatever comes after.
  lemma {:induction false} RepliesAnswerInOrder(requests: seq<Command>, replies: seq<Frame>,
                                                rest: seq<byte>)
    requires |replies| <= |requests|
    requires forall k :: 0 <= k < |replies| ==> Readable(replies[k])
    ensures forall k :: 0 <= k < |replies| ==>
              Answers(requests, EncodeAll(replies) + rest)[k] == Understand(requests[k], replies[k])
    decreases |requests|
  {
    hide Encode, Next, Readable, Understand;
    if replies != [] {
      var incoming, later := EncodeAll(replies) + rest, EncodeAll(replies[1..]) + rest;
      Associate(Encode(replies[0]), EncodeAll(replies[1..]), rest);
      FirstFrameReads(replies[0], later);
      assert incoming[|Encode(replies[0])|..] == later;
      RepliesAnswerInOrder(requests[1..], replies[1..], rest);
      forall k | 0 <= k < |replies|
        ensures Answers(requests, incoming)[k] == Understand(requests[k], replies[k])
      {
        if k > 0 {
          assert Answers(requests, incoming)[k] == Answers(requests[1..], later)[k - 1];
        }
      }
    }
  }

  // Each call takes the next frame of the stream as its reply.
  lemma {:induction false} AnswerByFrame(requests: seq<Command>, incoming: seq<byte>, k: nat)
    requires k < |requests| && k < |FramesOf(incoming)|
    ensures Answers(requests, incoming)[k] == Understand(requests[k], FramesOf(incoming)[k])
    decreases k
  {
    hide Next, Understand;
    assert FramesOf(incoming) == [Next(incoming).frame] + FramesOf(Leftover(incoming));
    if k > 0 {
      AnswerByFrame(requests[1..], Leftover(incoming), k - 1);
      assert Answers(requests, incoming)[k] == Answers(requests[1..], Leftover(incoming))[k - 1];
    }
  }

  // Once the stream yields no more frames, all further calls are answered by what ends it.
  lemma {:induction false} AnswersAfterLast(requests: seq<Command>, incoming: seq<byte>, k: nat)
    requires |FramesOf(incoming)| <= k < |requests|
    ensures Answers(requests, incoming)[k]
         == AnswerFrom(requests[k], After(incoming, |FramesOf(incoming)|))
    decreases |requests|
  {
    hide Next, Understand;
    if Next(incoming).FrameItem? {
      AnswersAfterLast(requests[1..], Leftover(incoming), k - 1);
    } else if k > 0 {
      AnswersAfterLast(requests[1..], incoming, k - 1);
    }
  }

  // A stream of requests is read up to the first one that is too long for the buffer, and what
  // follows is refused for that reason.
  lemma {:induction false} RequestsRead(requests: seq<Command>)
    ensures var input, m := EncodeAll(RequestFrames(requests)), FitCount(requests);
      && FramesOf(input) == RequestFrames(requests[..m])
      && Next(After(input, m)) == if m < |requests| then Broken(OverLimit) else AtEof
  {
    hide Encode, EncodeAll, Sendable, Next, FramesOf, After, RequestFrame;
    var fs, m := RequestFrames(requests), FitCount(requests);
    forall k | 0 <= k < |fs| ensures Sendable(fs[k], 0) {
      RequestIsUnderstood(requests[k]);
    }
    assert fs == fs[..m] + fs[m..] && fs[..m] == RequestFrames(requests[..m]);
    EncodeAllAppend(fs[..m], fs[m..]);
    var rest := EncodeAll(fs[m..]);
    if m < |requests| {
      assert rest == Encode(fs[m]) + EncodeAll(fs[m + 1..]) by { EncodeAllCons(fs[m..]); }
      OverlongFrameIsRefused(fs[m], EncodeAll(fs[m + 1..]));
    } else {
      EncodeAllNone();
      NextOfNothing();
    }
    EncodedFramesRead(fs[..m], rest);
  }

  lemma EncodeAllCons(fs: seq<Frame>)
    requires fs != []
    ensures EncodeAll(fs) == Encode(fs[0]) + EncodeAll(fs[1..])
  {
  }

  // --- Reading what may be cut short ---

  // A reader gets the frames `fs`, and then `last` or the beginning of it.
  ghost predicate ReadUpTo(incoming: seq<byte>, fs: seq<Frame>, last: Frame) {
    || (FramesOf(incoming) == fs + [last] && After(incoming, |fs| + 1) == [])
    || (FramesOf(incoming) == fs && After(incoming, |fs|) < Encode(last))
  }

  lemma {:induction false} CutStreamRead(incoming: seq<byte>, fs: seq<Frame>, last: Frame)
    requires forall k :: 0 <= k < |fs| ==> Readable(fs[k])
    requires Readable(last)
    requires EncodeAll(fs) <= incoming <= EncodeAll(fs) + Encode(last)
    ensures ReadUpTo(incoming, fs, last)
    ensures incoming == EncodeAll(fs) + Encode(last) ==> FramesOf(incoming) == fs + [last]
  {
    hide Encode, EncodeAll, Sendable, Next, FramesOf, After;
    var rest := incoming[|EncodeAll(fs)|..];
    assert incoming == EncodeAll(fs) + rest;
    assert rest == Encode(last)[..|rest|] by {
      assert (EncodeAll(fs) + Encode(last))[|EncodeAll(fs)|..|incoming|] == Encode(last)[..|rest|];
    }
    if |rest| == |Encode(last)| {
      assert rest == Encode(last);
      EncodeAllSnoc(fs, last);
      NextOfNothing();
      assert incoming == EncodeAll(fs + [last]) + [];
      EncodedFramesRead(fs + [last], []);
    } else {
      CutFrameIsTruncated(last, |rest|);
      EncodedFramesRead(fs, rest);
    }
  }

  // Every reply to a command can be read by the client.
  lemma ReplyIsReadable(history: seq<Event>, k: nat)
    requires k < |history| && Legal(history) && SmallValues(history)
    ensures Readable(history[k].reply)
  {
    match history[k].command
    case Set(_, _) =>
    case Get(key) =>
      LastWriteIsSmall(history[..k], key);
      var value := LastWrite(history[..k], key);
      if value.Some? {
        StoredValueIsRetrievable(value.value, []);
        EncodedFrameReads(Bulk(value.value), []);
      }
  }

  lemma {:induction false} LastWriteIsSmall(history: seq<Event>, key: Text)
    requires SmallValues(history)
    ensures LastWrite(history, key).Some? ==> |LastWrite(history, key).value| <= MAX_STORED_BYTES
  {
    if history != [] {
      LastWriteIsSmall(history[..|history| - 1], key);
    }
  }

  // --- Where a connection's operations stand in the shared history ---

  function Positions(history: seq<Event>, owner: nat): (ps: seq<nat>)
    ensures |ps| == |EventsBy(history, owner)|
    ensures forall k :: 0 <= k < |ps| ==>
              ps[k] < |history| && history[ps[k]] == EventsBy(history, owner)[k]
    ensures forall j, k :: 0 <= j < k < |ps| ==> ps[j] < ps[k]
  {
    if history == [] then []
    else
      var before := Positions(history[..|history| - 1], owner);
      if history[|history| - 1].owner == owner then before + [|history| - 1] else before
  }

  // The places are exactly those of the connection's operations.
  lemma {:induction false} PositionsComplete(history: seq<Event>, owner: nat, p: nat)
    requires p < |history|
    ensures history[p].owner == owner <==> p in Positions(history, owner)
  {
    var n := |history| - 1;
    var before := Positions(history[..n], owner);
    if p < n {
      PositionsComplete(history[..n], owner, p);
    }
    assert forall k :: 0 <= k < |before| ==> before[k] < n;
  }

  // When all the frames are commands, each reply stands for one operation.
  lemma {:induction false} EventsOfCommands(owner: nat, requests: seq<Command>, replies: seq<Frame>)
    requires |replies| <= |requests|
    ensures var events := EventsOf(owner, RequestFrames(requests), replies);
      && |events| == |replies|
      && forall k :: 0 <= k < |replies| ==> events[k] == Event(owner, requests[k], replies[k])
    decreases |replies|
  {
    hide RequestFrame, Interpret;
    if replies != [] {
      var k := |replies| - 1;
      EventsOfCommands(owner, requests, replies[..k]);
      RequestIsUnderstood(requests[k]);
      assert EventsAt(owner, RequestFrame(requests[k]), replies[k])
          == [Event(owner, requests[k], replies[k])];
    }
  }

  // --- Main results ---

  // What is known when a server has given these replies on a connection that carries these
  // requests and nothing else (see `Handlers.Handler.Run`).
  ghost predicate ServedClient(owner: nat, requests: seq<Command>, replies: seq<Frame>,
                               pending: seq<byte>, before: seq<Event>, history: seq<Event>)
  {
    && Served(owner, EncodeAll(RequestFrames(requests)), replies, pending, before, history)
    && EventsBy(before, owner) == []
    && SmallValues(before)
    && Legal(history)
  }

  // The operation in the shared history that the k-th request became.
  ghost predicate IsRequest(history: seq<Event>, owner: nat, k: nat, request: Command, reply: Frame) {
    && k < |EventsBy(history, owner)|
    && EventsBy(history, owner)[k] == Event(owner, request, reply)
  }

  // Only requests before the first one that is too long are executed, each as one operation.
  lemma {:induction false} RequestsBecomeEvents(owner: nat, requests: seq<Command>, replies: seq<Frame>,
                             pending: seq<byte>, before: seq<Event>, history: seq<Event>)
    requires ServedClient(owner, requests, replies, pending, before, history)
    ensures |replies| == |EventsBy(history, owner)| <= FitCount(requests)
    ensures forall k :: 0 <= k < |replies| ==> IsRequest(history, owner, k, requests[k], replies[k])
    ensures Legal(history) && SmallValues(history)
  {
    hide Encode, EncodeAll, Interpret, SmallValues, RefusalsExplained, Legal, EventsBy, EventsOf, Next;
    hide FramesOf, After, Sendable, RequestFrame, FitCount, Fits;
    var m := FitCount(requests);
    RequestsRead(requests);
    EventsOfCommands(owner, requests[..m], replies);
    assert EventsBy(history, owner) == EventsOf(owner, RequestFrames(requests[..m]), replies);
  }

  // The answer to a call that became the operation at place `p`: a GET returns the value of the last
  // earlier SET of its key, or its absence if and only if there is none; a SET is acknowledged.
  ghost predicate RightAnswer(history: seq<Event>, p: nat, answer: Answer)
    requires p < |history|
  {
    match history[p].command
    case Set(_, _) => answer == Stored
    case Get(key) =>
      && (answer == Missing <==> NeverSet(history, p, key))
      && (answer != Missing ==>
            exists q: nat :: LastSetAt(history, p, key, q) && answer == Found(history[q].command.value))
  }

  lemma UnderstoodRight(history: seq<Event>, p: nat)
    requires p < |history| && RightReply(history, p)
    ensures RightAnswer(history, p, Understand(history[p].command, history[p].reply))
  {
    assert OK_TEXT == [79, 75];
  }

  // The k-th call became the k-th operation of this connection in the global order, and its answer
  // is the one that the operations before that place determine.
  ghost predicate AnsweredInOrder(history: seq<Event>, owner: nat, requests: seq<Command>,
                                  answers: seq<Answer>)
  {
    && |requests| == |answers| <= |Positions(history, owner)|
    && forall k :: 0 <= k < |requests| ==>
         var p := Positions(history, owner)[k];
         && history[p].owner == owner && history[p].command == requests[k]
         && RightAnswer(history, p, answers[k])
  }

  // Every call that has been answered was answered from the moment its request took effect in the
  // global order: the i-th call gets the reply that the operations before its own operation
  // determine. It does not matter what becomes of the connection later.
  lemma {:induction false} EndToEnd(owner: nat, requests: seq<Command>, replies: seq<Frame>,
                 pending: seq<byte>, before: seq<Event>, history: seq<Event>,
                 n: nat, rest: seq<byte>)
    requires ServedClient(owner, requests, replies, pending, before, history)
    requires n <= |replies|
    ensures n <= FitCount(requests)
    ensures AnsweredInOrder(history, owner, requests[..n],
                            Answers(requests, EncodeAll(replies[..n]) + rest)[..n])
  {
    hide Encode, EncodeAll, EventsBy, Understand, Answers, RightAnswer, Readable, ServedClient;
    hide Positions, SmallValues, RequestFrame, Legal, Fits;
    RequestsBecomeEvents(owner, requests, replies, pending, before, history);
    var given := replies[..n];
    forall k | 0 <= k < n ensures IsDue(history, owner, k, requests[k], given[k]) {
      RequestIsDue(history, owner, k, requests[k], replies[k]);
    }
    RepliesAnswerInOrder(requests, given, rest);
    var answers := Answers(requests, EncodeAll(given) + rest)[..n];
    forall k | 0 <= k < n
      ensures k < |Positions(history, owner)|
      ensures var p := Positions(history, owner)[k];
        && history[p].owner == owner && history[p].command == requests[..n][k]
        && RightAnswer(history, p, answers[k])
    {
      assert IsDue(history, owner, k, requests[k], given[k]);
      assert answers[k] == Understand(requests[k], given[k]);
    }
    EnoughPlaces(history, owner, requests, replies);
  }

  lemma {:induction false} EnoughPlaces(history: seq<Event>, owner: nat, requests: seq<Command>,
                                        replies: seq<Frame>)
    requires |replies| == |EventsBy(history, owner)|
    ensures |replies| == |Positions(history, owner)|
  {
    hide EventsBy;
  }

  ghost predicate IsDue(history: seq<Event>, owner: nat, k: nat, request: Command, reply: Frame) {
    && k < |Positions(history, owner)|
    && var p := Positions(history, owner)[k];
    && history[p] == Event(owner, request, reply)
    && RightAnswer(history, p, Understand(request, reply))
    && Readable(reply)
  }

  lemma {:induction false} RequestIsDue(history: seq<Event>, owner: nat, k: nat, request: Command,
                                        reply: Frame)
    requires IsRequest(history, owner, k, request, reply)
    requires Legal(history) && SmallValues(history)
    ensures IsDue(history, owner, k, request, reply)
  {
    hide Readable, EventsBy, RightReply, RightAnswer, Understand;
    var p := Positions(history, owner)[k];
    assert history[p] == EventsBy(history, owner)[k] == Event(owner, request, reply);
    ReplyIsReadable(history, p);
    LegalMeansRight(history, p);
    UnderstoodRight(history, p);
  }

  // No operation writes the key between the `a`-th and the `b`-th operation of this connection.
  ghost predicate Unwritten(history: seq<Event>, owner: nat, a: nat, b: nat, key: Text) {
    var ps := Positions(history, owner);
    a < b < |ps| ==> forall p :: ps[a] < p < ps[b] ==> !Writes(history[p], key)
  }

  // A client that sets a key and later gets it reads its own value, unless some operation wrote
  // the key in between.
  lemma {:induction false} ReadYourWrite(history: seq<Event>, owner: nat, requests: seq<Command>,
                      answers: seq<Answer>, a: nat, b: nat)
    requires AnsweredInOrder(history, owner, requests, answers)
    requires a < b < |requests|
    requires requests[a].Set? && requests[b] == Get(requests[a].key)
    requires Unwritten(history, owner, a, b, requests[a].key)
    ensures answers[a] == Stored
    ensures answers[b] == Found(requests[a].value)
  {
    hide EventsBy;
    var ps := Positions(history, owner);
    assert RightAnswer(history, ps[a], answers[a]) && RightAnswer(history, ps[b], answers[b]);
    assert LastSetAt(history, ps[b], requests[a].key, ps[a]);
  }
}
