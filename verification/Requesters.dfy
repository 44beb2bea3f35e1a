/** The client side of a connection (src/requester.rs). */
module Requesters {
  import opened Bytes
  import opened Commands
  import opened Connections
  import opened Encoding
  import opened Frames
  import opened Histories
  import opened Sequences
  import opened Sessions

  // What a call returns: a value or null, an acknowledgement, or one of the errors.
  datatype Answer =
    | Found(value: Blob)
    | Missing
    | Stored
    | Refused(text: Text)
    | Unexpected
    | Closed
    | BadReply(error: ReadError)
    | Abandoned  // a write failed, or a timeout ended the call
  {
    // The reply on the wire has decided the answer.
    predicate Decided() {
      !Abandoned? && (BadReply? ==> !error.Socket?)
    }
  }

  function RequestFrame(c: Command): Frame {
    match c
    case Get(key) => Array([Bulk(GET_NAME), Bulk(key)])
    case Set(key, value) => Array([Bulk(SET_NAME), Bulk(key), Bulk(value)])
  }

  // The names are sent in capitals, and the arguments as they are.
  lemma RequestFrameExact(key: Text, value: Blob)
    ensures RequestFrame(Get(key)) == Array([Bulk([71, 69, 84]), Bulk(key)])
    ensures RequestFrame(Set(key, value)) == Array([Bulk([83, 69, 84]), Bulk(key), Bulk(value)])
  {
    assert GET_NAME == [71, 69, 84] && SET_NAME == [83, 69, 84];
  }

  // How a reply is understood by the call that waits for it.
  function Understand(c: Command, reply: Frame): Answer {
    match reply
    case Error(text) => Refused(text)
    case Bulk(bytes) => if c.Get? then Found(bytes) else Unexpected
    case Null => if c.Get? then Missing else Unexpected
    case Simple(text) =>
      if c.Get? then Unexpected else if text == OK_TEXT then Stored else Refused(text)
    case _ => Unexpected
  }

  // What a reply tells a caller of `get`: a value for a bulk string, its absence for null only.
  predicate GetTold(incoming: seq<byte>, answer: Answer) {
    var item := Next(incoming);
    match answer
    case Found(value) => item.FrameItem? && item.frame == Bulk(value)
    case Missing => item.FrameItem? && item.frame == Null
    case Refused(text) => item.FrameItem? && item.frame == Error(text)
    case Unexpected =>
      item.FrameItem? && (item.frame.Simple? || item.frame.Integer? || item.frame.Array?)
    case Closed => item == AtEof
    case BadReply(error) => item == Broken(error)
    case _ => false
  }

  // What a reply tells a caller of `set`: success for the simple string "OK" only.
  predicate SetTold(incoming: seq<byte>, answer: Answer) {
    var item := Next(incoming);
    match answer
    case Stored => item.FrameItem? && item.frame == Simple([79, 75])
    case Refused(text) =>
      && item.FrameItem?
      && (item.frame == Error(text) || (item.frame == Simple(text) && text != [79, 75]))
    case Unexpected => item.FrameItem? && !item.frame.Simple? && !item.frame.Error?
    case Closed => item == AtEof
    case BadReply(error) => item == Broken(error)
    case _ => false
  }

  // The two relations give exactly one answer for every stream, so each clause of them is an
  // equivalence.
  lemma ToldOnce(incoming: seq<byte>, a: Answer, b: Answer)
    ensures GetTold(incoming, a) && GetTold(incoming, b) ==> a == b
    ensures SetTold(incoming, a) && SetTold(incoming, b) ==> a == b
  {
  }

  // The answer to a call and the input left after it, when the server's bytes are `incoming`.
  function AnswerFrom(c: Command, incoming: seq<byte>): Answer {
    match Next(incoming)
    case FrameItem(reply, _) => Understand(c, reply)
    case AtEof => Closed
    case Broken(error) => BadReply(error)
  }

  function Leftover(incoming: seq<byte>): seq<byte> {
    if Next(incoming).FrameItem? then incoming[Next(incoming).length..] else incoming
  }

  class Requester {
    const connection: Connection

    constructor (connection: Connection)
      ensures this.connection == connection
    {
      this.connection := connection;
    }

    method Get(key: Text) returns (answer: Answer)
      requires connection.Valid() && connection.stream.Valid()
      modifies connection`buffer, connection`consumed, connection.stream
      ensures connection.Valid() && connection.stream.Valid()
      ensures answer.Decided() ==>
                && connection.stream.written == connection.stream.accepted
                     == old(connection.stream.accepted) + Encode(RequestFrame(Command.Get(key)))
                && answer == AnswerFrom(Command.Get(key), old(connection.Pending()))
                && GetTold(old(connection.Pending()), answer)
                && connection.Pending() == Leftover(old(connection.Pending()))
      ensures old(connection.stream.accepted) <= connection.stream.accepted
           <= old(connection.stream.accepted) + Encode(RequestFrame(Command.Get(key)))
      ensures connection.stream.disturbances >= old(connection.stream.disturbances)
      ensures connection.stream.disturbances == old(connection.stream.disturbances) ==>
                answer.Decided()
      ensures !answer.Decided() ==> connection.Pending() == old(connection.Pending())
    {
      hide Encode, Next, Utf8;
      var sent := connection.WriteFrame(Array([Bulk(GET_NAME), Bulk(key)]));
      if !sent {
        return Abandoned;
      }
      var response, _ := connection.ReadFrame();
      match response
      case Interrupted => return Abandoned;
      case ReadFailed(error) => return BadReply(error);
      case EndOfInput => return Closed;
      case FrameRead(frame) =>
        match frame {
          case Bulk(bytes) => return Found(bytes);
          case Null => return Missing;
          case Error(text) => return Refused(text);
          case _ => return Unexpected;
        }
    }

    method Set(key: Text, value: Blob) returns (answer: Answer)
      requires connection.Valid() && connection.stream.Valid()
      modifies connection`buffer, connection`consumed, connection.stream
      ensures connection.Valid() && connection.stream.Valid()
      ensures answer.Decided() ==>
                && connection.stream.written == connection.stream.accepted
                     == old(connection.stream.accepted) + Encode(RequestFrame(Command.Set(key, value)))
                && answer == AnswerFrom(Command.Set(key, value), old(connection.Pending()))
                && SetTold(old(connection.Pending()), answer)
                && connection.Pending() == Leftover(old(connection.Pending()))
      ensures old(connection.stream.accepted) <= connection.stream.accepted
           <= old(connection.stream.accepted) + Encode(RequestFrame(Command.Set(key, value)))
      ensures connection.stream.disturbances >= old(connection.stream.disturbances)
      ensures connection.stream.disturbances == old(connection.stream.disturbances) ==>
                answer.Decided()
      ensures !answer.Decided() ==> connection.Pending() == old(connection.Pending())
    {
      hide Encode, Next, Utf8;
      var sent := connection.WriteFrame(Array([Bulk(SET_NAME), Bulk(key), Bulk(value)]));
      if !sent {
        return Abandoned;
      }
      var response, _ := connection.ReadFrame();
      match response
      case Interrupted => return Abandoned;
      case ReadFailed(error) => return BadReply(error);
      case EndOfInput => return Closed;
      case FrameRead(frame) =>
        match frame {
          case Simple(text) =>
            if text == OK_TEXT {
              return Stored;
            } else {
              return Refused(text);
            }
          case Error(text) => return Refused(text);
          case _ => return Unexpected;
        }
    }
  }

  // The answers to a series of calls on one connection.
  function Answers(requests: seq<Command>, incoming: seq<byte>): (answers: seq<Answer>)
    ensures |answers| == |requests|
  {
    if requests == [] then []
    else [AnswerFrom(requests[0], incoming)] + Answers(requests[1..], Leftover(incoming))
  }

  // A client that makes these calls one after the other, until one of them is not decided by the
  // reply on the wire. All answers before that one are, each by its own reply.
  method RunScript(requester: Requester, requests: seq<Command>) returns (answers: seq<Answer>)
    requires requester.connection.Valid() && requester.connection.stream.Valid()
    modifies requester.connection`buffer, requester.connection`consumed, requester.connection.stream
    ensures requester.connection.Valid() && requester.connection.stream.Valid()
    ensures |answers| <= |requests|
    ensures (requester.connection.stream.disturbances
              == old(requester.connection.stream.disturbances)) ==>
                |answers| == |requests| && forall k :: 0 <= k < |answers| ==> answers[k].Decided()
    ensures |answers| == |requests| || (answers != [] && !answers[|answers| - 1].Decided())
    ensures forall k :: 0 <= k < |answers| - 1 ==> answers[k].Decided()
    ensures forall k :: 0 <= k < |answers| && answers[k].Decided() ==>
              answers[k] == Answers(requests, old(requester.connection.Pending()))[k]
    ensures Sent(old(requester.connection.stream.accepted), requester.connection.stream.accepted,
                 requests[..|answers|], answers == [] || answers[|answers| - 1].Decided())
    ensures answers != [] && answers[|answers| - 1].Decided() ==>
              requester.connection.stream.written == requester.connection.stream.accepted
  {
    hide Answers, AnswerFrom, Leftover, Encode, EncodeAll, RequestFrames, RequestFrame, Joined, Utf8;
    hide Sent;
    var connection := requester.connection;
    answers := [];
    ghost var incoming, base := connection.Pending(), connection.stream.accepted;
    NothingAsked(requests, incoming);
    NothingSent(base, requests);
    for i := 0 to |requests|
      invariant connection.Valid() && connection.stream.Valid() && |answers| == i
      invariant i > 0 ==> connection.stream.written == connection.stream.accepted
      invariant connection.stream.disturbances >= old(connection.stream.disturbances)
      invariant forall k :: 0 <= k < i ==> answers[k].Decided()
      invariant Joined(Answers(requests, incoming), answers, Answers(requests[i..], connection.Pending()))
      invariant Sent(base, connection.stream.accepted, requests[..i], true)
    {
      ghost var sent, pending := connection.stream.accepted, connection.Pending();
      AskOne(requests, i, incoming, answers, pending);
      AnswersSoFar(Answers(requests, incoming), answers, Answers(requests[i..], pending));
      var answer;
      match requests[i] {
        case Get(key) => answer := requester.Get(key);
        case Set(key, value) => answer := requester.Set(key, value);
      }
      SendOne(base, sent, connection.stream.accepted, requests, i, answer.Decided());
      answers := answers + [answer];
      if !answer.Decided() {
        return;
      }
    }
    AnswersSoFar(Answers(requests, incoming), answers, Answers(requests[|requests|..], connection.Pending()));
  }

  // What has been given to the writer for these requests: all of them, unless the last one was cut short.
  ghost predicate Sent(base: seq<byte>, written: seq<byte>, requests: seq<Command>, whole: bool) {
    if whole then written == base + EncodeAll(RequestFrames(requests))
    else
      && requests != []
      && base + EncodeAll(RequestFrames(requests[..|requests| - 1])) <= written
           <= base + EncodeAll(RequestFrames(requests))
  }

  lemma NothingSent(base: seq<byte>, requests: seq<Command>)
    ensures Sent(base, base, requests[..0], true)
  {
    assert base + [] == base;
  }

  lemma {:induction false} SendOne(base: seq<byte>, sent: seq<byte>, written: seq<byte>,
                                   requests: seq<Command>, i: nat, whole: bool)
    requires i < |requests| && Sent(base, sent, requests[..i], true)
    requires whole ==> written == sent + Encode(RequestFrame(requests[i]))
    requires sent <= written <= sent + Encode(RequestFrame(requests[i]))
    ensures Sent(base, written, requests[..i + 1], whole)
  {
    hide Encode, EncodeAll, RequestFrames, RequestFrame;
    FramesSnoc(requests, i);
    Associate(base, EncodeAll(RequestFrames(requests[..i])), Encode(RequestFrame(requests[i])));
    assert requests[..i + 1][..i] == requests[..i];
  }

  lemma AnswersSoFar(all: seq<Answer>, answers: seq<Answer>, others: seq<Answer>)
    requires Joined(all, answers, others)
    ensures |answers| <= |all| && forall k :: 0 <= k < |answers| ==> answers[k] == all[k]
  {
  }

  lemma NothingAsked(requests: seq<Command>, incoming: seq<byte>)
    ensures Joined(Answers(requests, incoming), [], Answers(requests[0..], incoming))
  {
  }

  lemma {:induction false} AskOne(requests: seq<Command>, i: nat, incoming: seq<byte>, answers: seq<Answer>,
               pending: seq<byte>)
    requires i < |requests|
    requires Joined(Answers(requests, incoming), answers, Answers(requests[i..], pending))
    ensures Joined(Answers(requests, incoming), answers + [AnswerFrom(requests[i], pending)],
                   Answers(requests[i + 1..], Leftover(pending)))
  {
    hide AnswerFrom, Leftover;
    assert requests[i..][1..] == requests[i + 1..];
    Associate(answers, [AnswerFrom(requests[i], pending)],
              Answers(requests[i + 1..], Leftover(pending)));
  }

  function RequestFrames(requests: seq<Command>): (fs: seq<Frame>)
    ensures |fs| == |requests|
    ensures forall k :: 0 <= k < |fs| ==> fs[k] == RequestFrame(requests[k])
  {
    seq(|requests|, k requires 0 <= k < |requests| => RequestFrame(requests[k]))
  }

  lemma {:induction false} FramesSnoc(requests: seq<Command>, i: nat)
    requires i < |requests|
    ensures EncodeAll(RequestFrames(requests[..i + 1]))
         == EncodeAll(RequestFrames(requests[..i])) + Encode(RequestFrame(requests[i]))
  {
    hide Encode, EncodeAll;
    assert RequestFrames(requests[..i + 1]) == RequestFrames(requests[..i]) + [RequestFrame(requests[i])];
    EncodeAllSnoc(RequestFrames(requests[..i]), RequestFrame(requests[i]));
  }
}
