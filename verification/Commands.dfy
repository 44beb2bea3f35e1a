/** Commands: recognising them in frames and executing them (src/command.rs, src/database.rs). */
module Commands {
  import opened Arguments
  import opened Bytes
  import opened Frames
  import opened Histories

  const GET_NAME: Text := Ascii("GET")
  const SET_NAME: Text := Ascii("SET")

  // --- Recognising a command ---

  function Lower(b: byte): byte {
    if 65 <= b <= 90 then b + 32 else b
  }

  predicate EqualsIgnoreCase(a: seq<byte>, b: seq<byte>) {
    |a| == |b| && forall k :: 0 <= k < |a| ==> Lower(a[k]) == Lower(b[k])
  }

  function Interpret(frame: Frame): Outcome<Command> {
    if !frame.Array? then Rejected(NotAnArray)
    else
      var parts := frame.elements;
      match TextAt(parts, 0)
      case Rejected(error) => Rejected(error)
      case Done(name) =>
        if EqualsIgnoreCase(name, GET_NAME) then
          match TextAt(parts, 1)
          case Rejected(error) => Rejected(error)
          case Done(key) =>
            if |parts| > 2 then Rejected(ExtraArgument) else Done(Get(key))
        else if EqualsIgnoreCase(name, SET_NAME) then
          match TextAt(parts, 1)
          case Rejected(error) => Rejected(error)
          case Done(key) =>
            match ArgumentAt(parts, 2)
            case Rejected(error) => Rejected(error)
            case Done(value) =>
              if |parts| > 3 then Rejected(ExtraArgument) else Done(Set(key, value))
        else Rejected(Unsupported)
  }

  // The frame is a string, simple or bulk, with these contents.
  predicate Carries(f: Frame, bytes: seq<byte>) {
    || (f.Simple? && f.text == bytes)
    || (f.Bulk? && f.bytes == bytes)
  }

  // The three letters GET or SET, each in either case.
  predicate IsGetName(t: seq<byte>) {
    |t| == 3 && t[0] in {71, 103} && t[1] in {69, 101} && t[2] in {84, 116}
  }

  predicate IsSetName(t: seq<byte>) {
    |t| == 3 && t[0] in {83, 115} && t[1] in {69, 101} && t[2] in {84, 116}
  }

  predicate NamesGet(f: Frame) {
    (f.Simple? && IsGetName(f.text)) || (f.Bulk? && IsGetName(f.bytes))
  }

  predicate NamesSet(f: Frame) {
    (f.Simple? && IsSetName(f.text)) || (f.Bulk? && IsSetName(f.bytes))
  }

  // The frame is an array of exactly the strings the command consists of.
  predicate Spells(frame: Frame, c: Command) {
    && frame.Array?
    && match c
       case Get(key) =>
         && |frame.elements| == 2
         && NamesGet(frame.elements[0])
         && Carries(frame.elements[1], key)
       case Set(key, value) =>
         && |frame.elements| == 3
         && NamesSet(frame.elements[0])
         && Carries(frame.elements[1], key)
         && Carries(frame.elements[2], value)
  }

  // Matching without regard to case accepts exactly these spellings.
  lemma CaseFoldingExact(name: seq<byte>)
    ensures EqualsIgnoreCase(name, GET_NAME) <==> IsGetName(name)
    ensures EqualsIgnoreCase(name, SET_NAME) <==> IsSetName(name)
  {
    assert GET_NAME == [71, 69, 84] && SET_NAME == [83, 69, 84];
  }

  // A name is ASCII, so it is well-formed text.
  lemma NameIsText(name: Blob)
    requires IsGetName(name) || IsSetName(name)
    ensures Utf8(name)
  {
    AsciiIsUtf8(name);
  }

  lemma NameExact(parts: seq<Frame>)
    ensures parts != [] && NamesGet(parts[0]) <==>
              TextAt(parts, 0).Done? && EqualsIgnoreCase(TextAt(parts, 0).value, GET_NAME)
    ensures parts != [] && NamesSet(parts[0]) <==>
              TextAt(parts, 0).Done? && EqualsIgnoreCase(TextAt(parts, 0).value, SET_NAME)
    ensures parts != [] ==> !(NamesGet(parts[0]) && NamesSet(parts[0]))
  {
    hide EqualsIgnoreCase, Utf8;
    if parts != [] && (parts[0].Bulk? || parts[0].Simple?) {
      var name := if parts[0].Bulk? then parts[0].bytes else parts[0].text;
      CaseFoldingExact(name);
      if IsGetName(name) || IsSetName(name) {
        NameIsText(name);
      }
    }
  }

  // A frame is understood as a command if and only if it spells that command.
  lemma {:induction false} InterpretExact(frame: Frame, c: Command)
    ensures Interpret(frame) == Done(c) <==> Spells(frame, c)
  {
    hide EqualsIgnoreCase, Utf8, IsGetName, IsSetName;
    if frame.Array? {
      NameExact(frame.elements);
    }
  }

  predicate IsString(f: Frame) {
    f.Simple? || f.Bulk?
  }

  // A string that can be a name or a key.
  predicate IsText(f: Frame) {
    f.Simple? || (f.Bulk? && Utf8(f.bytes))
  }

  // A string that cannot.
  predicate IsBinary(f: Frame) {
    f.Bulk? && !Utf8(f.bytes)
  }

  // The reason why a frame is not a command: the first thing wrong, from left to right.
  predicate Refuses(frame: Frame, error: ArgumentError) {
    if !frame.Array? then error == NotAnArray
    else
      var fs := frame.elements;
      var n := |fs|;
      var get, put := n > 0 && NamesGet(fs[0]), n > 0 && NamesSet(fs[0]);
      match error
      case NotAnArray => false
      case EndOfStream =>
        n == 0 || ((get || put) && n == 1) || (put && n == 2 && IsText(fs[1]))
      case NotAString =>
        || (n > 0 && !IsString(fs[0]))
        || ((get || put) && n > 1 && !IsString(fs[1]))
        || (put && n > 2 && IsText(fs[1]) && !IsString(fs[2]))
      case NotUtf8 => (n > 0 && IsBinary(fs[0])) || ((get || put) && n > 1 && IsBinary(fs[1]))
      case ExtraArgument =>
        || (get && n > 2 && IsText(fs[1]))
        || (put && n > 3 && IsText(fs[1]) && IsString(fs[2]))
      case Unsupported => n > 0 && IsText(fs[0]) && !get && !put
  }

  // A frame is refused for a reason if and only if that is the first thing wrong with it.
  lemma {:induction false} RefusalExact(frame: Frame, error: ArgumentError)
    ensures Interpret(frame) == Rejected(error) <==> Refuses(frame, error)
  {
    hide EqualsIgnoreCase, Utf8, IsGetName, IsSetName;
    if frame.Array? {
      var fs := frame.elements;
      NameExact(fs);
      if fs != [] && (NamesGet(fs[0]) || NamesSet(fs[0])) {
        assert TextAt(fs, 0).Done? && IsText(fs[0]);
      }
    }
  }

  // What a client is told when its frame is refused.
  lemma RefusalTexts()
    ensures EndOfStream.Text() == "No more command " + "arguments"
    ensures NotAnArray.Text() == "Expected an " + "array frame"
    ensures NotAString.Text() == "Expected a bulk " + "or simple " + "string argument"
    ensures NotUtf8.Text() == "Argument is " + "not valid UTF-8"
    ensures ExtraArgument.Text() == "Unexpected " + "extra argument"
    ensures Unsupported.Text() == "Unsupported " + "command; " + "expected GET " + "or SET"
  {
  }

  method GetFromParse(parser: Parser) returns (r: Outcome<Command>)
    modifies parser
    ensures r == match TextAt(old(parser.parts), 0)
                 case Rejected(error) => Rejected(error)
                 case Done(key) =>
                   if |old(parser.parts)| > 1 then Rejected(ExtraArgument) else Done(Get(key))
  {
    var key := parser.NextString();
    if key.Rejected? {
      return Rejected(key.error);
    }
    var finished := parser.Finish();
    if finished.Rejected? {
      return Rejected(finished.error);
    }
    return Done(Get(key.value));
  }

  method SetFromParse(parser: Parser) returns (r: Outcome<Command>)
    modifies parser
    ensures r == match TextAt(old(parser.parts), 0)
                 case Rejected(error) => Rejected(error)
                 case Done(key) =>
                   match ArgumentAt(old(parser.parts), 1)
                   case Rejected(error) => Rejected(error)
                   case Done(value) =>
                     if |old(parser.parts)| > 2 then Rejected(ExtraArgument)
                     else Done(Set(key, value))
  {
    var key := parser.NextString();
    if key.Rejected? {
      return Rejected(key.error);
    }
    var value := parser.NextBytes();
    if value.Rejected? {
      return Rejected(value.error);
    }
    var finished := parser.Finish();
    if finished.Rejected? {
      return Rejected(finished.error);
    }
    return Done(Set(key.value, value.value));
  }

  method CommandFromFrame(frame: Frame) returns (r: Outcome<Command>)
    ensures r == Interpret(frame)
  {
    var made := FromFrame(frame);
    if made.Rejected? {
      return Rejected(made.error);
    }
    var parser := made.value;
    var name := parser.NextString();
    if name.Rejected? {
      return Rejected(name.error);
    }
    if EqualsIgnoreCase(name.value, GET_NAME) {
      r := GetFromParse(parser);
      return;
    }
    if EqualsIgnoreCase(name.value, SET_NAME) {
      r := SetFromParse(parser);
      return;
    }
    return Rejected(Unsupported);
  }

  // --- Executing it ---

  // The shared map behind its mutex. `history` records every operation in the order in which the
  // lock was held, together with the connection it came from and the reply it got.
  class Database {
    var entries: Store
    ghost var history: seq<Event>

    ghost predicate Valid()
      reads this
    {
      Explains(history, entries)
    }

    constructor ()
      ensures Valid() && history == []
    {
      entries := map[];
      history := [];
    }

    method Get(key: Text, ghost owner: nat) returns (value: Option<Blob>)
      requires Valid()
      modifies this
      ensures Valid() && value == LastWrite(old(history), key)
      ensures history == old(history) + [Event(owner, Command.Get(key), LookupReply(value))]
      ensures entries == old(entries)
      ensures value == if key in old(entries) then Some(old(entries)[key]) else None
    {
      value := Find(entries, key);
      ghost var event := Event(owner, Command.Get(key), LookupReply(value));
      ExplainsLookup(history, entries, event);
      history := history + [event];
    }

    method Set(key: Text, value: Blob, ghost owner: nat)
      requires Valid()
      modifies this
      ensures Valid()
      ensures history == old(history) + [Event(owner, Command.Set(key, value), OkReply())]
      ensures entries == old(entries)[key := value]
    {
      ghost var event := Event(owner, Command.Set(key, value), OkReply());
      ExplainsUpdate(history, entries, event);
      history := history + [event];
      entries := entries[key := value];
    }

    // What other connections do between two steps of this one: any number of operations, none of
    // them in the name of `owner`, and no value too long to be stored.
    method OthersRun(ghost owner: nat)
      requires Valid()
      modifies this
      ensures Valid() && old(history) <= history
      ensures EventsBy(history, owner) == EventsBy(old(history), owner)
      ensures SmallValues(old(history)) ==> SmallValues(history)
    {
      var rounds: nat :| 0 <= rounds;
      for i := 0 to rounds
        invariant Valid() && old(history) <= history
        invariant EventsBy(history, owner) == EventsBy(old(history), owner)
        invariant SmallValues(old(history)) ==> SmallValues(history)
      {
        ghost var anyone: nat :| 0 <= anyone;
        ghost var stranger := if anyone == owner then owner + 1 else anyone;
        ghost var before := history;
        var key: Text := *;
        var reading: bool := *;
        if reading {
          var _ := Get(key, stranger);
        } else {
          var value: Blob :| |value| <= MAX_STORED_BYTES;
          Set(key, value, stranger);
        }
        EventsBySnoc(before, history[|before|], owner);
      }
    }
  }

  method Apply(command: Command, database: Database, ghost owner: nat) returns (reply: Frame)
    requires database.Valid()
    modifies database
    ensures database.Valid()
    ensures database.history == old(database.history) + [Event(owner, command, reply)]
    ensures command.Get? ==>
              && database.entries == old(database.entries)
              && reply == (if command.key in old(database.entries)
                           then Bulk(old(database.entries)[command.key]) else Null)
    ensures command.Set? ==>
              && database.entries == old(database.entries)[command.key := command.value]
              && reply == Simple([79, 75])
  {
    hide Explains, LastWrite, Utf8;
    assert OK_TEXT == [79, 75];
    match command
    case Get(key) =>
      var value := database.Get(key, owner);
      match value {
        case Some(bytes) => reply := Bulk(bytes);
        case None => reply := Null;
      }
    case Set(key, value) =>
      database.Set(key, value, owner);
      reply := Simple(OK_TEXT);
  }
}
