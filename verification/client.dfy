/** The command-line parser of the front end (`client::parse`). */
module Parse {
  import opened Wrappers
  import opened Text

  /** A recognised input line, carrying its trimmed argument. */
  datatype UserCommand =
    | Subscribe(topic: string)
    | Unsubscribe(topic: string)
    | Msg(text: string)
    | File(path: string)

  /** No tag matched: the line is rejected and nothing is sent. */
  datatype ParseError = NoCommandTag

  const SubscribeTag: string := "subscribe "
  const UnsubscribeTag: string := "unsubscribe "
  const MsgTag: string := "msg "
  const FileTag: string := "file "

  /** The tag that introduces a command. */
  function Tag(c: UserCommand): string {
    match c
    case Subscribe(_) => SubscribeTag
    case Unsubscribe(_) => UnsubscribeTag
    case Msg(_) => MsgTag
    case File(_) => FileTag
  }

  /** The argument a command carries. */
  function Argument(c: UserCommand): string {
    match c
    case Subscribe(topic) => topic
    case Unsubscribe(topic) => topic
    case Msg(text) => text
    case File(path) => path
  }

  /** The line a user would type for `c`. */
  function Unparse(c: UserCommand): string {
    Tag(c) + Argument(c)
  }

  predicate HasTag(input: string) {
    SubscribeTag <= input || UnsubscribeTag <= input || MsgTag <= input || FileTag <= input
  }

  /** Two strings that differ at a position both reach are not prefix-related. */
  lemma NotPrefix(a: string, b: string, i: nat)
    requires i < |a| && i < |b| && a[i] != b[i]
    ensures !(a <= b)
  {
  }

  /** `rest_str`: consume the whole input and return it trimmed. */
  function RestStr(input: string): (r: (string, string))
    ensures r.0 == ""
    ensures IsTrimmed(r.1)
  {
    ("", Trim(input))
  }

  /**
   * `parse_command`: the first of the four tags that starts the line decides
   * the command, and the trimmed rest of the line is its argument.
   */
  function ParseCommand(input: string): (r: Result<(string, UserCommand), ParseError>)
    ensures r.Failure? <==> !HasTag(input)
    ensures r.Success? ==>
      && r.value.0 == ""
      && Tag(r.value.1) <= input
      && IsTrimmed(Argument(r.value.1))
  {
    if SubscribeTag <= input then
      var (rest, topic) := RestStr(input[|SubscribeTag|..]);
      Success((rest, Subscribe(topic)))
    else if UnsubscribeTag <= input then
      var (rest, topic) := RestStr(input[|UnsubscribeTag|..]);
      Success((rest, Unsubscribe(topic)))
    else if MsgTag <= input then
      var (rest, text) := RestStr(input[|MsgTag|..]);
      Success((rest, Msg(text)))
    else if FileTag <= input then
      var (rest, path) := RestStr(input[|FileTag|..]);
      Success((rest, File(path)))
    else
      Failure(NoCommandTag)
  }

  /**
   * No line starts with two different tags (they already differ in their
   * first character), so the order in which `parse_command` tries the four
   * alternatives cannot matter: whichever tag starts the line decides the
   * command.
   */
  lemma {:induction false} TagDecides(input: string, c: UserCommand, d: UserCommand)
    requires Tag(c) <= input
    ensures Tag(d) <= input <==> Tag(d) == Tag(c)
    ensures ParseCommand(input).Success? && Tag(ParseCommand(input).value.1) == Tag(c)
  {
    assert Tag(c)[0] == input[0];
    if Tag(d) != Tag(c) {
      NotPrefix(Tag(d), input, 0);
    }
    var e := ParseCommand(input).value.1;
    assert Tag(e)[0] == input[0];
  }

  /** Typing a command with a trimmed argument parses back to that command. */
  lemma ParseUnparse(c: UserCommand)
    requires IsTrimmed(Argument(c))
    ensures ParseCommand(Unparse(c)) == Success(("", c))
  {
    var line := Unparse(c);
    assert line[..|Tag(c)|] == Tag(c);
    assert line[|Tag(c)|..] == Argument(c);
    TrimOfTrimmed(Argument(c));
    match c
    case Subscribe(_) =>
    case Unsubscribe(_) =>
      NotPrefix(SubscribeTag, line, 0);
    case Msg(_) =>
      NotPrefix(SubscribeTag, line, 0);
      NotPrefix(UnsubscribeTag, line, 0);
    case File(_) =>
      NotPrefix(SubscribeTag, line, 0);
      NotPrefix(UnsubscribeTag, line, 0);
      NotPrefix(MsgTag, line, 0);
  }

  /** The argument of an accepted line is the trim, in the reference sense, of what follows the tag. */
  lemma ParseArgumentIsTrim(input: string)
    requires ParseCommand(input).Success?
    ensures var c := ParseCommand(input).value.1;
      && Argument(c) == Trim(input[|Tag(c)|..])
      && IsTrimOf(Argument(c), input[|Tag(c)|..])
  {
    var c := ParseCommand(input).value.1;
    TrimIsTrimOf(input[|Tag(c)|..]);
  }

  /**
   * Every accepted line is its command's canonical form padded with
   * whitespace after the tag and at the end.
   */
  lemma ParsedIsPadded(input: string)
    requires ParseCommand(input).Success?
    ensures var c := ParseCommand(input).value.1;
      exists pre, post ::
        AllWhitespace(pre) && AllWhitespace(post) && input == Tag(c) + pre + Argument(c) + post
  {
    var c := ParseCommand(input).value.1;
    ParseArgumentIsTrim(input);
    PaddedAfterTag(Tag(c), input);
  }

  lemma Regroup(a: string, b: string, c: string, d: string)
    ensures a + (b + c + d) == a + b + c + d
  {
  }

  /** What follows a tag is its trim with whitespace on either side. */
  lemma PaddedAfterTag(tag: string, input: string)
    requires tag <= input
    ensures exists pre, post ::
      AllWhitespace(pre) && AllWhitespace(post) && input == tag + pre + Trim(input[|tag|..]) + post
  {
    var tail := input[|tag|..];
    var pre, post := TrimSplit(tail);
    assert input == tag + tail;
    Regroup(tag, pre, Trim(tail), post);
  }

  /** A line that starts with whitespace is rejected, because every tag starts with a letter. */
  lemma LeadingWhitespaceRejected(input: string)
    requires |input| > 0 && IsWhitespace(input[0])
    ensures ParseCommand(input) == Failure(NoCommandTag)
  {
  }

  /** A bare keyword without its trailing space is rejected; a keyword and a space alone is accepted with an empty argument. */
  lemma TagNeedsItsSpace()
    ensures ParseCommand("msg") == Failure(NoCommandTag)
    ensures ParseCommand("subscribe") == Failure(NoCommandTag)
    ensures ParseCommand("subscribe ") == Success(("", Subscribe("")))
    ensures ParseCommand("file   ") == Success(("", File("")))
  {
    assert "file   "[|FileTag|..] == "  ";
    assert SkipLeading("  ", 0) == 2;
  }
}

/** The front end's input side (`Client::start_writing`): attachment staging and command issue. */
module Client {
  import opened Wrappers
  import opened Files
  import opened Messages
  import opened Commands
  import Text
  import Parse

  /**
   * The writer loop's state: the staged attachment (`current_file`) and the
   * one-shot reply channels opened so far.
   */
  datatype Writer = Writer(currentFile: Option<File>, channels: Channels)

  /** What the line made the writer send to the coordinator, and where the reply is awaited. */
  datatype Issued = Issued(command: Command, awaiter: Awaiter)

  /**
   * Acting on one recognised command. `loaded` is what `File::from` returned
   * for the path of a `file` command; it is consulted for nothing else.
   * A `msg` command takes the staged attachment whether or not the command
   * then reaches the coordinator; a `file` command replaces the staged
   * attachment, with nothing when the load failed.
   */
  function Perform(w: Writer, command: Parse.UserCommand, loaded: Result<File, FileError>): (r: (Writer, Option<Issued>))
    ensures command.Msg? ==>
      && r.0.currentFile.None?
      && r.1.Some?
      && r.1.value.command == SendMessage(Responder(|w.channels|), Message(Some(command.text), w.currentFile))
    ensures command.File? ==>
      && r.1.None?
      && r.0.channels == w.channels
      && r.0.currentFile == (if loaded.Success? then Some(loaded.value) else None)
    ensures command.Subscribe? ==>
      && r.0.currentFile == w.currentFile
      && r.1.Some?
      && r.1.value.command == Subscribe(Responder(|w.channels|), command.topic)
    ensures command.Unsubscribe? ==>
      && r.0.currentFile == w.currentFile
      && r.1.Some?
      && r.1.value.command == Unsubscribe(Responder(|w.channels|), command.topic)
    ensures r.1.Some? ==> r.1.value.command.responder.slot == r.1.value.awaiter.slot == |w.channels|
    ensures r.1.Some? ==> r.0.channels == w.channels + [Waiting]
  {
    match command
    case Subscribe(topic) =>
      var (cmd, awaiter, ch) := NewSubscribe(topic, w.channels);
      (w.(channels := ch), Some(Issued(cmd, awaiter)))
    case Unsubscribe(topic) =>
      var (cmd, awaiter, ch) := NewUnsubscribe(topic, w.channels);
      (w.(channels := ch), Some(Issued(cmd, awaiter)))
    case Msg(text) =>
      var msg := Build(Some(text), w.currentFile);
      var (cmd, awaiter, ch) := NewSendMessage(msg, w.channels);
      (Writer(None, ch), Some(Issued(cmd, awaiter)))
    case File(_) =>
      var staged := match loaded
        case Success(file) => Some(file)
        case Failure(_) => None;
      (w.(currentFile := staged), None)
  }

  /** What the writer does with a line once it is parsed: a line that does not parse only brings up the help text. */
  function HandleParsed(w: Writer, parsed: Result<(string, Parse.UserCommand), Parse.ParseError>, loaded: Result<File, FileError>)
    : (r: (Writer, Option<Issued>))
    ensures parsed.Failure? ==> r == (w, None)
    ensures r.1.Some? ==> r.1.value.command.responder.slot == r.1.value.awaiter.slot == |w.channels|
    ensures r.1.Some? ==> r.0.channels == w.channels + [Waiting]
    ensures r.1.None? ==> r.0.channels == w.channels
  {
    match parsed
    case Failure(_) => (w, None)
    case Success((_, command)) => Perform(w, command, loaded)
  }

  /** One input line of the writer loop. */
  function HandleLine(w: Writer, line: string, loaded: Result<File, FileError>): (r: (Writer, Option<Issued>))
    ensures Parse.ParseCommand(line).Failure? ==> r == (w, None)
    ensures r.1.Some? ==> r.0.channels == w.channels + [Waiting]
  {
    HandleParsed(w, Parse.ParseCommand(line), loaded)
  }

  lemma ParseFileLine()
    ensures Parse.ParseCommand("file x.txt") == Success(("", Parse.File("x.txt")))
  {
    Parse.ParseUnparse(Parse.File("x.txt"));
    assert Parse.Unparse(Parse.File("x.txt")) == "file x.txt";
  }

  lemma ParseMsgLine()
    ensures Parse.ParseCommand("msg caption") == Success(("", Parse.Msg("caption")))
  {
    var c := Parse.Msg("caption");
    assert Text.IsTrimmed(Parse.Argument(c));
    Parse.ParseUnparse(c);
    assert Parse.Unparse(c) == "msg caption";
  }

  /** Loading `x.txt` and then sending `caption` sends both together, and the staging is empty afterwards. */
  lemma AttachThenSend(w: Writer, data: seq<byte>, anyLoad: Result<File, FileError>)
    ensures
      var attachment := Files.File("x.txt", data);
      var (w1, none) := HandleLine(w, "file x.txt", Success(attachment));
      var (w2, issued) := HandleLine(w1, "msg caption", anyLoad);
      && none.None?
      && issued.Some?
      && issued.value.command.SendMessage?
      && issued.value.command.msg == Message(Some("caption"), Some(attachment))
      && w2.currentFile.None?
  {
    ParseFileLine();
    ParseMsgLine();
  }

  /** Input lines as the writer loop sees them: each parsed, with the load result its path would give. */
  function ParseAll(lines: seq<(string, Result<File, FileError>)>): seq<(Result<(string, Parse.UserCommand), Parse.ParseError>, Result<File, FileError>)> {
    seq(|lines|, i requires 0 <= i < |lines| => (Parse.ParseCommand(lines[i].0), lines[i].1))
  }

  /**
   * The writer loop over a run of input lines: each line issues at most one
   * command, and every command issued opens one reply slot, after the slots
   * opened before.
   */
  function Session(w: Writer, lines: seq<(string, Result<File, FileError>)>): (r: (Writer, seq<Issued>))
    ensures |r.1| <= |lines|
    ensures |r.0.channels| == |w.channels| + |r.1| && w.channels <= r.0.channels
  {
    Replay(w, ParseAll(lines))
  }

  /** The writer loop over lines already parsed. */
  function Replay(w: Writer, inputs: seq<(Result<(string, Parse.UserCommand), Parse.ParseError>, Result<File, FileError>)>)
    : (r: (Writer, seq<Issued>))
    ensures |r.1| <= |inputs|
    ensures |r.0.channels| == |w.channels| + |r.1| && w.channels <= r.0.channels
    decreases |inputs|
  {
    if inputs == [] then (w, [])
    else
      var (w', issued) := HandleParsed(w, inputs[0].0, inputs[0].1);
      var (final, rest) := Replay(w', inputs[1..]);
      (final, (if issued.Some? then [issued.value] else []) + rest)
  }

  /**
   * The commands of a session get consecutive fresh reply slots, so no two of
   * them share a slot, and the session leaves each of them waiting: nothing
   * the writer does answers or drops a slot it opened.
   */
  lemma {:induction false} ReplaySlotsFresh(w: Writer, inputs: seq<(Result<(string, Parse.UserCommand), Parse.ParseError>, Result<File, FileError>)>)
    ensures Replay(w, inputs).0.channels == w.channels + seq(|Replay(w, inputs).1|, _ => Waiting)
    ensures var issued := Replay(w, inputs).1;
      forall i :: 0 <= i < |issued| ==> issued[i].command.responder.slot == issued[i].awaiter.slot == |w.channels| + i
    decreases |inputs|
  {
    if inputs != [] {
      var (w', first) := HandleParsed(w, inputs[0].0, inputs[0].1);
      ReplaySlotsFresh(w', inputs[1..]);
      var (final, rest) := Replay(w', inputs[1..]);
      if first.Some? {
        ConsSlots(w.channels, first.value, rest);
      }
    }
  }

  /** Putting one more issued command, on the next slot, in front of a run of fresh slots. */
  lemma ConsSlots(ch: Channels, first: Issued, rest: seq<Issued>)
    requires first.command.responder.slot == first.awaiter.slot == |ch|
    requires forall i :: 0 <= i < |rest| ==> rest[i].command.responder.slot == rest[i].awaiter.slot == |ch| + 1 + i
    ensures var issued := [first] + rest;
      && ch + [Waiting] + seq(|rest|, _ => Waiting) == ch + seq(|issued|, _ => Waiting)
      && forall i :: 0 <= i < |issued| ==> issued[i].command.responder.slot == issued[i].awaiter.slot == |ch| + i
  {
    var issued := [first] + rest;
    assert forall i :: 1 <= i < |issued| ==> issued[i] == rest[i - 1];
    assert ch + [Waiting] + seq(|rest|, _ => Waiting) == ch + seq(|issued|, _ => Waiting);
  }
}
