/** The global order of the operations on the shared map, and what that order must explain. */
module Histories {
  import opened Bytes
  import opened Frames

  datatype Command = Get(key: Text) | Set(key: Text, value: Blob)

  type Store = map<Text, Blob>

  // One operation: the connection it came from, what was asked and what was replied.
  datatype Event = Event(owner: nat, command: Command, reply: Frame)

  const OK_TEXT: Text := Ascii("OK")

  // The longest value a request can carry.
  const MAX_STORED_BYTES := 65520

  function OkReply(): Frame {
    Simple(OK_TEXT)
  }

  function LookupReply(value: Option<Blob>): Frame {
    match value
    case Some(bytes) => Bulk(bytes)
    case None => Null
  }

  // The value of the last SET of a key.
  function LastWrite(history: seq<Event>, key: Text): Option<Blob> {
    if history == [] then None
    else
      var last := history[|history| - 1];
      if last.command.Set? && last.command.key == key then Some(last.command.value)
      else LastWrite(history[..|history| - 1], key)
  }

  // What the map holds after these operations.
  function Replay(history: seq<Event>): Store {
    if history == [] then map[]
    else
      var before := Replay(history[..|history| - 1]);
      match history[|history| - 1].command
      case Get(_) => before
      case Set(key, value) => before[key := value]
  }

  // The reply an operation must get after those before it.
  function DueReply(before: seq<Event>, command: Command): Frame {
    match command
    case Get(key) => LookupReply(LastWrite(before, key))
    case Set(_, _) => OkReply()
  }

  // Every GET got the value of the last earlier SET of its key, or null; every SET got OK.
  ghost predicate Legal(history: seq<Event>) {
    forall k :: 0 <= k < |history| ==>
      history[k].reply == DueReply(history[..k], history[k].command)
  }

  ghost predicate SmallValues(history: seq<Event>) {
    forall k :: 0 <= k < |history| && history[k].command.Set? ==>
      |history[k].command.value| <= MAX_STORED_BYTES
  }

  // The operations that came from one connection, in order.
  function EventsBy(history: seq<Event>, owner: nat): seq<Event> {
    if history == [] then []
    else
      var before := EventsBy(history[..|history| - 1], owner);
      var last := history[|history| - 1];
      if last.owner == owner then before + [last] else before
  }

  lemma EventsBySnoc(history: seq<Event>, e: Event, owner: nat)
    ensures EventsBy(history + [e], owner)
         == if e.owner == owner then EventsBy(history, owner) + [e] else EventsBy(history, owner)
  {
    assert (history + [e])[..|history|] == history;
  }

  // The map and the order of operations agree on every key.
  lemma {:induction false} ReplayLookup(history: seq<Event>, key: Text)
    ensures LastWrite(history, key)
         == if key in Replay(history) then Some(Replay(history)[key]) else None
  {
    if history != [] {
      ReplayLookup(history[..|history| - 1], key);
    }
  }

  predicate Writes(e: Event, key: Text) {
    e.command.Set? && e.command.key == key
  }

  // Place `q` holds the last SET of the key before place `p`.
  predicate LastSetAt(history: seq<Event>, p: nat, key: Text, q: nat) {
    && q < p <= |history|
    && Writes(history[q], key)
    && forall r :: q < r < p ==> !Writes(history[r], key)
  }

  predicate NeverSet(history: seq<Event>, p: nat, key: Text)
    requires p <= |history|
  {
    forall q :: 0 <= q < p ==> !Writes(history[q], key)
  }

  lemma {:induction false} LastWriteExact(history: seq<Event>, p: nat, key: Text)
    requires p <= |history|
    ensures LastWrite(history[..p], key) == None <==> NeverSet(history, p, key)
    ensures forall q: nat :: LastSetAt(history, p, key, q) ==>
              LastWrite(history[..p], key) == Some(history[q].command.value)
    ensures LastWrite(history[..p], key).Some? ==> exists q: nat :: LastSetAt(history, p, key, q)
    decreases p
  {
    if p > 0 {
      LastWriteExact(history, p - 1, key);
      assert history[..p][..p - 1] == history[..p - 1];
      if Writes(history[p - 1], key) {
        assert LastSetAt(history, p, key, p - 1);
      } else {
        var m := p - 1;
        assert forall q: nat :: LastSetAt(history, p, key, q) ==> LastSetAt(history, m, key, q);
        if q: nat :| LastSetAt(history, m, key, q) {
          assert LastSetAt(history, p, key, q);
        }
      }
    }
  }

  // The reply at place `p` is the right one: a GET gets the value of the last earlier SET of its
  // key, or null if and only if there is none; a SET gets the simple string "OK".
  ghost predicate RightReply(history: seq<Event>, p: nat)
    requires p < |history|
  {
    var e := history[p];
    match e.command
    case Set(_, _) => e.reply == Simple([79, 75])
    case Get(key) =>
      && (e.reply == Null <==> NeverSet(history, p, key))
      && (e.reply != Null ==>
            exists q: nat :: LastSetAt(history, p, key, q) && e.reply == Bulk(history[q].command.value))
  }

  lemma LegalMeansRight(history: seq<Event>, p: nat)
    requires Legal(history) && p < |history|
    ensures RightReply(history, p)
  {
    if history[p].command.Get? {
      LastWriteExact(history, p, history[p].command.key);
    } else {
      assert OK_TEXT == [79, 75];
    }
  }

  // The map a history leaves behind, when every reply in it is right.
  ghost predicate Explains(history: seq<Event>, entries: Store) {
    entries == Replay(history) && Legal(history)
  }

  lemma LegalSnoc(history: seq<Event>, e: Event)
    requires Legal(history) && e.reply == DueReply(history, e.command)
    ensures Legal(history + [e])
  {
    var longer := history + [e];
    forall k | 0 <= k < |longer| ensures longer[k].reply == DueReply(longer[..k], longer[k].command) {
      assert longer[..k] == history[..k];
    }
  }

  lemma ReplaySnoc(history: seq<Event>, e: Event)
    ensures Replay(history + [e]) ==
            match e.command
            case Get(_) => Replay(history)
            case Set(key, value) => Replay(history)[key := value]
  {
    assert (history + [e])[..|history|] == history;
  }

  lemma ExplainsLookup(history: seq<Event>, entries: Store, e: Event)
    requires Explains(history, entries) && e.command.Get?
    requires e.reply == LookupReply(Find(entries, e.command.key))
    ensures Explains(history + [e], entries)
    ensures Find(entries, e.command.key) == LastWrite(history, e.command.key)
  {
    ReplayLookup(history, e.command.key);
    ReplaySnoc(history, e);
    LegalSnoc(history, e);
  }

  lemma ExplainsUpdate(history: seq<Event>, entries: Store, e: Event)
    requires Explains(history, entries) && e.command.Set? && e.reply == OkReply()
    ensures Explains(history + [e], entries[e.command.key := e.command.value])
  {
    ReplaySnoc(history, e);
    LegalSnoc(history, e);
  }

  function Find(entries: Store, key: Text): Option<Blob> {
    if key in entries then Some(entries[key]) else None
  }
}
