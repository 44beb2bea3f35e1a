/** Serving one client connection (src/handler.rs, src/metrics.rs). */
module Handlers {
  import opened Arguments
  import opened Bytes
  import opened Capacity
  import opened Commands
  import opened Connections
  import opened Encoding
  import opened Exchanges
  import opened Frames
  import opened Histories
  import opened Sequences
  import opened Sessions

  // The counters as far as this handler moves them.
  class Metrics {
    var activeConnections: nat
    var requestsReceived: nat
    var commandResponsesWritten: nat
    var cacheHits: nat
    var cacheMisses: nat
    var commandParseErrors: nat
    // Not counters of the program: SETs executed, and guards that have counted a connection.
    ghost var setsExecuted: nat
    ghost var guardsCreated: nat

    ghost function Counted(): Tally
      reads this
    {
      Tally(cacheHits, cacheMisses, setsExecuted, commandParseErrors)
    }

    constructor ()
      ensures activeConnections == requestsReceived == commandResponsesWritten == 0
      ensures Counted() == Tally(0, 0, 0, 0)
    {
      activeConnections, requestsReceived, commandResponsesWritten := 0, 0, 0;
      cacheHits, cacheMisses, commandParseErrors, setsExecuted := 0, 0, 0, 0;
      guardsCreated := 0;
    }

    method IncActiveConnections()
      modifies this`activeConnections, this`guardsCreated
      ensures activeConnections == old(activeConnections) + 1
      ensures guardsCreated == old(guardsCreated) + 1
    {
      activeConnections, guardsCreated := activeConnections + 1, guardsCreated + 1;
    }

    method DecActiveConnections()
      requires activeConnections > 0
      modifies this`activeConnections
      ensures activeConnections == old(activeConnections) - 1
    {
      activeConnections := activeConnections - 1;
    }
  }

  // Why a handler stopped. `Stopped` covers the read timeout and the shutdown message.
  datatype End = ClientDone | Stopped | ReadError(error: ReadError, reported: bool) | WriteError

  // The state of the service after these replies: which input is left, and which operations
  // have been added to the history in this connection's name.
  ghost predicate Served(owner: nat, input: seq<byte>, replies: seq<Frame>, pending: seq<byte>,
                         before: seq<Event>, history: seq<Event>)
  {
    && |replies| <= |FramesOf(input)|
    && pending == After(input, |replies|)
    && Joined(EventsBy(history, owner), EventsBy(before, owner), EventsOf(owner, FramesOf(input), replies))
    && RefusalsExplained(FramesOf(input), replies)
    && (SmallValues(before) ==> SmallValues(history))
  }

  // The counters went from `start` to `now` while the first frames of the input were answered.
  ghost predicate Tallied(start: Tally, now: Tally, input: seq<byte>, replies: seq<Frame>) {
    && |replies| <= |FramesOf(input)|
    && now == start.Plus(TallyOf(FramesOf(input), replies))
  }

  lemma {:induction false} TallyOne(start: Tally, before: Tally, now: Tally, input: seq<byte>, replies: seq<Frame>,
                 reply: Frame)
    requires |replies| < |FramesOf(input)| && Tallied(start, before, input, replies)
    requires now == before.Plus(TallyAt(FramesOf(input)[|replies|], reply))
    ensures Tallied(start, now, input, replies + [reply])
  {
    hide FramesOf, TallyAt, Interpret;
    ExchangeSnoc(0, FramesOf(input), replies, reply);
  }

  // What the client has been sent when the handler stops: all the replies, and after them the
  // reason if the input could not be read. Only the last write can be cut short.
  ghost predicate Delivered(end: End, base: seq<byte>, replies: seq<Frame>, written: seq<byte>) {
    match end
    case ClientDone => written == base + EncodeAll(replies)
    case Stopped => written == base + EncodeAll(replies)
    case ReadError(error, reported) =>
      var full := base + EncodeAll(replies) + Encode(ReadErrorReply(error));
      base + EncodeAll(replies) <= written <= full && (reported ==> written == full)
    case WriteError =>
      && replies != []
      && base + EncodeAll(replies[..|replies| - 1]) <= written <= base + EncodeAll(replies)
  }

  lemma NothingServed(owner: nat, input: seq<byte>, before: seq<Event>, start: Tally)
    ensures Served(owner, input, [], input, before, before)
    ensures EncodeAll([]) == [] && Tallied(start, start, input, [])
  {
  }

  lemma {:induction false} ServeOne(owner: nat, input: seq<byte>, replies: seq<Frame>, reply: Frame,
                 pending: seq<byte>, before: seq<Event>, between: seq<Event>, history: seq<Event>)
    requires Served(owner, input, replies, pending, before, between)
    requires Next(pending).FrameItem?
    requires EventsBy(history, owner)
          == EventsBy(between, owner) + EventsAt(owner, Next(pending).frame, reply)
    requires Interpret(Next(pending).frame).Rejected? ==>
               reply == ErrorReply(Interpret(Next(pending).frame).error.Text())
    requires SmallValues(between) ==> SmallValues(history)
    ensures Served(owner, input, replies + [reply], pending[Next(pending).length..], before, history)
    ensures FramesOf(input)[|replies|] == Next(pending).frame
  {
    hide Interpret, EventsBy, EventsAt, Next, FramesOf, After, EventsOf, Utf8, SmallValues;
    hide RefusalsExplained, Joined, ErrorReply, ArgumentError.Text;
    AfterStep(input, |replies|);
    RefusalSnoc(FramesOf(input), replies, reply);
    ExchangeSnoc(owner, FramesOf(input), replies, reply);
    JoinedLast(EventsBy(history, owner), EventsBy(between, owner), EventsBy(before, owner),
               EventsOf(owner, FramesOf(input), replies),
               EventsAt(owner, Next(pending).frame, reply),
               EventsOf(owner, FramesOf(input), replies + [reply]));
    var answered := replies + [reply];
    assert |answered| == |replies| + 1;
    assert pending[Next(pending).length..] == After(input, |answered|);
    assert Joined(EventsBy(history, owner), EventsBy(before, owner), EventsOf(owner, FramesOf(input), answered));
    assert RefusalsExplained(FramesOf(input), answered);
    assert SmallValues(before) ==> SmallValues(history);
  }

  // When no frame is left, all frames have been answered.
  lemma {:induction false} ServedToTheEnd(owner: nat, input: seq<byte>, replies: seq<Frame>,
                                          pending: seq<byte>, before: seq<Event>, history: seq<Event>)
    requires Served(owner, input, replies, pending, before, history)
    ensures Next(pending) == AtEof || Next(pending).Broken? ==> |replies| == |FramesOf(input)|
  {
    hide FramesOf, After, Next, EventsBy, EventsOf, RefusalsExplained;
    AfterStep(input, |replies|);
  }

  // The subscription to the shutdown channel.
  class Receiver {
    // How many messages have been received.
    ghost var heard: nat

    constructor ()
      ensures heard == 0
    {
      heard := 0;
    }

    // A message may be there at any time.
    method TryReceive() returns (ready: bool)
      modifies this
      ensures heard == old(heard) + (if ready then 1 else 0)
    {
      ready := *;
      if ready {
        heard := heard + 1;
      }
    }
  }

  lemma {:induction false} DeliveredSoFar(base: seq<byte>, replies: seq<Frame>, written: seq<byte>)
    requires written == base + EncodeAll(replies)
    ensures Delivered(ClientDone, base, replies, written) && Delivered(Stopped, base, replies, written)
  {
    hide EncodeAll, Encode, ReadErrorReply;
  }

  lemma {:induction false} DeliveredReport(error: ReadError, reported: bool, base: seq<byte>,
                                           replies: seq<Frame>, written: seq<byte>)
    requires var full := base + EncodeAll(replies) + Encode(ReadErrorReply(error));
      base + EncodeAll(replies) <= written <= full && (reported ==> written == full)
    ensures Delivered(ReadError(error, reported), base, replies, written)
  {
    hide EncodeAll, Encode, ReadErrorReply;
  }

  lemma {:induction false} DeliveredPart(base: seq<byte>, before: seq<Frame>, replies: seq<Frame>,
                                         written: seq<byte>)
    requires |replies| == |before| + 1 && replies[..|before|] == before
    requires base + EncodeAll(before) <= written <= base + EncodeAll(replies)
    ensures Delivered(WriteError, base, replies, written)
  {
    hide EncodeAll, Encode, ReadErrorReply;
  }

  class Handler {
    const id: nat
    const connection: Connection
    const database: Database
    const shutdown: Receiver
    const metrics: Metrics

    constructor (id: nat, connection: Connection, database: Database, shutdown: Receiver,
                 metrics: Metrics)
      ensures this.id == id && this.connection == connection
      ensures this.database == database && this.shutdown == shutdown && this.metrics == metrics
    {
      this.id := id;
      this.connection := connection;
      this.database := database;
      this.shutdown := shutdown;
      this.metrics := metrics;
    }

    // Executes one command, after whatever other connections did in the meantime.
    method ExecuteCommand(c: Command) returns (reply: Frame)
      requires database.Valid()
      requires c.Set? ==> |c.value| <= MAX_STORED_BYTES
      modifies database
      ensures database.Valid()
      ensures EventsBy(database.history, id)
           == EventsBy(old(database.history), id) + [Event(id, c, reply)]
      ensures c.Get? ==> reply.Bulk? || reply.Null?
      ensures SmallValues(old(database.history)) ==> SmallValues(database.history)
    {
      database.OthersRun(id);
      ghost var seen := database.history;
      reply := Apply(c, database, id);
      EventsBySnoc(seen, Event(id, c, reply), id);
      ReplyKind(database.history, |seen|);
    }

    // Counts one frame and says what to reply to it.
    method Execute(frame: Frame) returns (reply: Frame)
      requires database.Valid()
      requires Interpret(frame).Done? && Interpret(frame).value.Set? ==>
                 |Interpret(frame).value.value| <= MAX_STORED_BYTES
      modifies database, metrics
      ensures database.Valid()
      ensures EventsBy(database.history, id)
           == EventsBy(old(database.history), id) + EventsAt(id, frame, reply)
      ensures Interpret(frame).Rejected? ==> reply == ErrorReply(Interpret(frame).error.Text())
      ensures SmallValues(old(database.history)) ==> SmallValues(database.history)
      ensures metrics.activeConnections == old(metrics.activeConnections)
      ensures metrics.guardsCreated == old(metrics.guardsCreated)
      ensures metrics.commandResponsesWritten == old(metrics.commandResponsesWritten)
      ensures metrics.requestsReceived == old(metrics.requestsReceived) + 1
      ensures metrics.Counted() == old(metrics.Counted()).Plus(TallyAt(frame, reply))
    {
      hide Interpret, EventsBy, SmallValues, Explains, Utf8;
      metrics.requestsReceived := metrics.requestsReceived + 1;
      var command := CommandFromFrame(frame);
      match command
      case Done(c) =>
        reply := ExecuteCommand(c);
        if c.Get? {
          if reply.Bulk? {
            metrics.cacheHits := metrics.cacheHits + 1;
          } else if reply.Null? {
            metrics.cacheMisses := metrics.cacheMisses + 1;
          }
        } else {
          metrics.setsExecuted := metrics.setsExecuted + 1;
        }
      case Rejected(error) =>
        metrics.commandParseErrors := metrics.commandParseErrors + 1;
        reply := ErrorReply(error.Text());
        assert EventsAt(id, frame, reply) == [];
    }

    // Executes one frame and sends the reply.
    method ServeFrame(frame: Frame, ghost input: seq<byte>, ghost replies: seq<Frame>,
                      ghost pending: seq<byte>, ghost base: seq<byte>, ghost before: seq<Event>,
                      ghost start: Tally)
      returns (ok: bool, ghost answered: seq<Frame>)
      requires database.Valid()
      requires Served(id, input, replies, pending, before, database.history)
      requires Next(pending).FrameItem? && Next(pending).frame == frame
      requires connection.stream.written == connection.stream.accepted == base + EncodeAll(replies)
      requires Tallied(start, metrics.Counted(), input, replies)
      modifies connection.stream`accepted, connection.stream`written, connection.stream`disturbances
      modifies database, metrics
      ensures database.Valid()
      ensures |answered| == |replies| + 1 && answered[..|replies|] == replies
      ensures Served(id, input, answered, pending[Next(pending).length..], before, database.history)
      ensures connection.stream.disturbances == old(connection.stream.disturbances) <==> ok
      ensures connection.stream.disturbances >= old(connection.stream.disturbances)
      ensures ok ==>
                connection.stream.written == connection.stream.accepted == base + EncodeAll(answered)
      ensures base + EncodeAll(replies) <= connection.stream.written <= base + EncodeAll(answered)
      ensures metrics.activeConnections == old(metrics.activeConnections)
      ensures metrics.guardsCreated == old(metrics.guardsCreated)
      ensures metrics.commandResponsesWritten == old(metrics.commandResponsesWritten)
      ensures metrics.requestsReceived == old(metrics.requestsReceived) + 1
      ensures Tallied(start, metrics.Counted(), input, answered)
    {
      hide Interpret, EventsBy, EventsOf, SmallValues, Explains, Utf8, Next, FramesOf, After, EncodeAll;
      hide Encode, Joined, RefusalsExplained, TallyOf, Tallied, TallyAt, EventsAt, ErrorReply, ArgumentError.Text;
      ghost var between, counted := database.history, metrics.Counted();
      if Interpret(frame).Done? && Interpret(frame).value.Set? {
        StoredValueIsSmall(pending, Interpret(frame).value.key, Interpret(frame).value.value);
      }
      var reply := Execute(frame);
      ServeOne(id, input, replies, reply, pending, before, between, database.history);
      TallyOne(start, counted, metrics.Counted(), input, replies, reply);
      EncodeAllSnoc(replies, reply);
      Associate(base, EncodeAll(replies), Encode(reply));
      answered := replies + [reply];
      ok := connection.WriteFrame(reply);
      PrefixOfPrefix(connection.stream.written, connection.stream.accepted, base + EncodeAll(answered));
    }

    // Serves the connection until it ends, times out or is told to stop. Whatever the other
    // connections do and however the input arrives, the replies sent are exactly the encoded
    // replies to the frames of the input, in order, and each of them is the reply that the shared
    // history gives to that request.
    method Run() returns (end: End, ghost replies: seq<Frame>)
      requires connection.Valid() && database.Valid()
      requires connection.stream.written == connection.stream.accepted
      modifies connection`buffer, connection`consumed, connection.stream, shutdown, database, metrics
      ensures connection.Valid() && database.Valid()
      ensures Served(id, old(connection.Pending()), replies, connection.Pending(),
                     old(database.history), database.history)
      ensures end.ClientDone? ==> Next(connection.Pending()) == AtEof
      ensures end.ReadError? ==> MayFail(connection.Pending(), end.error)
      ensures (connection.stream.disturbances == old(connection.stream.disturbances)
               && shutdown.heard == old(shutdown.heard)) ==>
                && |replies| == |FramesOf(old(connection.Pending()))|
                && (end.ClientDone? || (end.ReadError? && !end.error.Socket? && end.reported))
      ensures Delivered(end, old(connection.stream.written), replies, connection.stream.written)
      ensures metrics.activeConnections == old(metrics.activeConnections)
      ensures metrics.guardsCreated == old(metrics.guardsCreated) + 1
      ensures metrics.requestsReceived == old(metrics.requestsReceived) + |replies|
      ensures metrics.commandResponsesWritten
           == old(metrics.commandResponsesWritten) + |replies| - (if end.WriteError? then 1 else 0)
      ensures Tallied(old(metrics.Counted()), metrics.Counted(), old(connection.Pending()), replies)
    {
      hide Interpret, EventsBy, EventsOf, SmallValues, Explains, Utf8, Next, FramesOf, After, EncodeAll;
      hide Encode, Joined, RefusalsExplained, TallyOf, Tallied, TallyAt, EventsAt, ReadErrorReply, MayFail;
      metrics.IncActiveConnections();
      ghost var input := connection.Pending();
      ghost var base := connection.stream.written;
      ghost var before := database.history;
      ghost var start := metrics.Counted();
      replies := [];
      end := Stopped;
      NothingServed(id, input, before, start);
      hide Served, Delivered;
      while true
        invariant connection.Valid() && database.Valid()
        invariant connection.stream.disturbances == old(connection.stream.disturbances)
        invariant shutdown.heard == old(shutdown.heard)
        invariant Served(id, input, replies, connection.Pending(), before, database.history)
        invariant connection.stream.written == connection.stream.accepted == base + EncodeAll(replies)
        invariant metrics.activeConnections == old(metrics.activeConnections) + 1
        invariant metrics.guardsCreated == old(metrics.guardsCreated) + 1
        invariant metrics.requestsReceived == old(metrics.requestsReceived) + |replies|
        invariant metrics.commandResponsesWritten
               == old(metrics.commandResponsesWritten) + |replies|
        invariant Tallied(start, metrics.Counted(), input, replies)
        decreases |connection.Pending()|
      {
        DeliveredSoFar(base, replies, connection.stream.written);
        var told := shutdown.TryReceive();
        if told {
          end := Stopped;
          break;
        }
        ghost var pending := connection.Pending();
        var read, _ := connection.ReadFrame();
        match read {
          case Interrupted =>
            end := Stopped;
            break;
          case EndOfInput =>
            end := ClientDone;
            break;
          case ReadFailed(error) =>
            var reported := connection.WriteFrame(ReadErrorReply(error));
            PrefixOfPrefix(connection.stream.written, connection.stream.accepted,
                           base + EncodeAll(replies) + Encode(ReadErrorReply(error)));
            DeliveredReport(error, reported, base, replies, connection.stream.written);
            end := ReadError(error, reported);
            break;
          case FrameRead(frame) =>
            var ok;
            ghost var answered := replies;
            ok, replies := ServeFrame(frame, input, replies, pending, base, before, start);
            if !ok {
              DeliveredPart(base, answered, replies, connection.stream.written);
              end := WriteError;
              break;
            }
            metrics.commandResponsesWritten := metrics.commandResponsesWritten + 1;
        }
      }
      ServedToTheEnd(id, input, replies, connection.Pending(), before, database.history);
      metrics.DecActiveConnections();
    }
  }

  lemma ReplyKind(history: seq<Event>, k: nat)
    requires Legal(history) && k < |history|
    ensures history[k].command.Get? ==> history[k].reply.Bulk? || history[k].reply.Null?
  {
  }
}
