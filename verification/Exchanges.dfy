/** What a connection must reply to the frames it receives. */
module Exchanges {
  import opened Bytes
  import opened Commands
  import opened Encoding
  import opened Frames
  import opened Histories
  import opened Sessions

  function ErrorReply(m: Message): Frame {
    Error(Ascii(m))
  }

  // What a client is told when its input cannot be read.
  function ReadErrorReply(error: ReadError): Frame {
    Error(error.Description())
  }

  // What a client is told, byte for byte: a minus sign, the text and CRLF.
  lemma ErrorsOnTheWire(m: Message, error: ReadError)
    ensures Encode(ErrorReply(m)) == [45] + Ascii(m) + [13, 10]
    ensures Encode(ReadErrorReply(error)) == [45] + error.Description() + [13, 10]
    ensures match error
            case Malformed(fault) => error.Description() == Ascii(fault.Text())
            case OverLimit => error.Description() == Ascii(OVER_LIMIT)
            case Truncated => error.Description() == Ascii(TRUNCATED)
            case Socket(text) => error.Description() == text
    ensures OVER_LIMIT == "Frame cannot " + "fit within the " + "buffer limit"
    ensures TRUNCATED == "Connection " + "reached EOF with " + "an incomplete " + "frame"
  {
  }

  // The operations that the replies to the first frames stand for.
  function EventsOf(owner: nat, frames: seq<Frame>, replies: seq<Frame>): seq<Event>
    requires |replies| <= |frames|
  {
    if replies == [] then []
    else
      var k := |replies| - 1;
      EventsOf(owner, frames, replies[..k]) + EventsAt(owner, frames[k], replies[k])
  }

  function EventsAt(owner: nat, frame: Frame, reply: Frame): seq<Event> {
    match Interpret(frame)
    case Done(command) => [Event(owner, command, reply)]
    case Rejected(_) => []
  }

  // A frame that is not a command is answered with the reason.
  predicate RefusalsExplained(frames: seq<Frame>, replies: seq<Frame>)
    requires |replies| <= |frames|
  {
    forall k :: 0 <= k < |replies| && Interpret(frames[k]).Rejected? ==>
      replies[k] == ErrorReply(Interpret(frames[k]).error.Text())
  }

  // The counters that the classified requests add up to.
  datatype Tally = Tally(hits: nat, misses: nat, sets: nat, refusals: nat) {
    function Total(): nat {
      hits + misses + sets + refusals
    }

    function Plus(t: Tally): Tally {
      Tally(hits + t.hits, misses + t.misses, sets + t.sets, refusals + t.refusals)
    }
  }

  function TallyAt(frame: Frame, reply: Frame): (t: Tally)
    ensures t.Total() == 1
  {
    match Interpret(frame)
    case Rejected(_) => Tally(0, 0, 0, 1)
    case Done(Set(_, _)) => Tally(0, 0, 1, 0)
    case Done(Get(_)) => if reply.Bulk? then Tally(1, 0, 0, 0) else Tally(0, 1, 0, 0)
  }

  // Each frame received is counted once.
  function TallyOf(frames: seq<Frame>, replies: seq<Frame>): (t: Tally)
    requires |replies| <= |frames|
    ensures t.Total() == |replies|
  {
    if replies == [] then Tally(0, 0, 0, 0)
    else
      var k := |replies| - 1;
      TallyOf(frames, replies[..k]).Plus(TallyAt(frames[k], replies[k]))
  }

  datatype Counter = HitCounter | MissCounter | SetCounter | RefusalCounter

  function Part(t: Tally, counter: Counter): nat {
    match counter
    case HitCounter => t.hits
    case MissCounter => t.misses
    case SetCounter => t.sets
    case RefusalCounter => t.refusals
  }

  // A hit is a bulk reply to a GET, a miss any other reply to one.
  predicate Counts(counter: Counter, frame: Frame, reply: Frame) {
    var c := Interpret(frame);
    match counter
    case HitCounter => c.Done? && c.value.Get? && reply.Bulk?
    case MissCounter => c.Done? && c.value.Get? && !reply.Bulk?
    case SetCounter => c.Done? && c.value.Set?
    case RefusalCounter => c.Rejected?
  }

  function PlacesOf(counter: Counter, frames: seq<Frame>, replies: seq<Frame>): set<nat>
    requires |replies| <= |frames|
  {
    set k: nat | k < |replies| && Counts(counter, frames[k], replies[k])
  }

  // Each counter is the number of replies that it counts.
  lemma {:induction false} TallyExact(counter: Counter, frames: seq<Frame>, replies: seq<Frame>)
    requires |replies| <= |frames|
    ensures Part(TallyOf(frames, replies), counter) == |PlacesOf(counter, frames, replies)|
  {
    hide Counts, TallyAt, PlacesOf;
    if replies == [] {
      NoPlaces(counter, frames);
    } else {
      var k := |replies| - 1;
      TallyExact(counter, frames, replies[..k]);
      CountOne(counter, frames[k], replies[k]);
      LastPlace(counter, frames, replies);
    }
  }

  lemma NoPlaces(counter: Counter, frames: seq<Frame>)
    ensures PlacesOf(counter, frames, []) == {}
  {
  }

  lemma {:induction false} CountOne(counter: Counter, frame: Frame, reply: Frame)
    ensures Part(TallyAt(frame, reply), counter) == if Counts(counter, frame, reply) then 1 else 0
  {
    hide Interpret;
  }

  lemma {:induction false} LastPlace(counter: Counter, frames: seq<Frame>, replies: seq<Frame>)
    requires 0 < |replies| <= |frames|
    ensures var k := |replies| - 1;
      |PlacesOf(counter, frames, replies)|
        == |PlacesOf(counter, frames, replies[..k])|
           + (if Counts(counter, frames[k], replies[k]) then 1 else 0)
  {
    hide Counts;
    var k := |replies| - 1;
    var before := PlacesOf(counter, frames, replies[..k]);
    if Counts(counter, frames[k], replies[k]) {
      assert PlacesOf(counter, frames, replies) == before + {k};
    } else {
      assert PlacesOf(counter, frames, replies) == before;
    }
  }

  // One more frame answered.
  lemma ExchangeSnoc(owner: nat, frames: seq<Frame>, replies: seq<Frame>, reply: Frame)
    requires |replies| < |frames|
    ensures EventsOf(owner, frames, replies + [reply])
         == EventsOf(owner, frames, replies) + EventsAt(owner, frames[|replies|], reply)
    ensures TallyOf(frames, replies + [reply])
         == TallyOf(frames, replies).Plus(TallyAt(frames[|replies|], reply))
  {
    assert (replies + [reply])[..|replies|] == replies;
  }

  lemma {:induction false} RefusalSnoc(frames: seq<Frame>, replies: seq<Frame>, reply: Frame)
    requires |replies| < |frames| && RefusalsExplained(frames, replies)
    requires Interpret(frames[|replies|]).Rejected? ==>
               reply == ErrorReply(Interpret(frames[|replies|]).error.Text())
    ensures RefusalsExplained(frames, replies + [reply])
  {
    hide Interpret;
  }
}
