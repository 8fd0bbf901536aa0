/** The user-message hook: recognises a `/command args` message, looks the
    command up in the plugin's command table and runs its handler. */
module Commands {
  import opened Messages
  import opened Text
  import opened Traceback

  /** The handlers the command table can name; the plugin has one. */
  datatype Handler = MessageTracebackHandler

  /** The command table: both names run the traceback handler. */
  const CommandMap: map<string, Handler> :=
    map["traceback" := MessageTracebackHandler, "tb" := MessageTracebackHandler]

  /** What the hook tells the host: let other handlers see the message, or
      consume it. */
  datatype MsgSignal = Continue | BlockAll

  /** How a handler run ended; a failure is logged and otherwise ignored. */
  datatype Outcome = Completed | Failed(error: string)

  /** What the hook decides to do with a message. */
  datatype Dispatch = PassOn | Run(handler: Handler, command: string, args: string)

  /** Reading a message: strip it, require the `/` prefix, split the rest on
      whitespace, lower-case the first word as the command name and join the
      other words with single spaces as the arguments. */
  function Parse(text: string): (d: Dispatch)
    ensures d.Run? ==> d.command in CommandMap && d.handler == CommandMap[d.command]
    ensures d.Run? ==> Strip(text) != [] && Strip(text)[0] == '/'
  {
    var msg := Strip(text);
    if |msg| == 0 || msg[0] != '/' then PassOn
    else Lookup(Split(msg[1..]))
  }

  /** The words after the `/`: the first, lower-cased, names the command and
      the rest, joined by single spaces, are its arguments. */
  function Lookup(parts: seq<string>): (d: Dispatch)
    ensures d.Run? ==> d.command in CommandMap && d.handler == CommandMap[d.command]
  {
    if parts == [] then PassOn
    else
      var command := Lower(parts[0]);
      var args := if |parts| > 1 then Join(parts[1..]) else "";
      if command in CommandMap then Run(CommandMap[command], command, args) else PassOn
  }

  /** A message runs a handler exactly when its stripped text starts with `/`
      and the lower-cased first word after the `/` is a command name. */
  lemma ParseDispatches(text: string)
    ensures Parse(text).Run? <==>
      var msg := Strip(text);
      msg != [] && msg[0] == '/' && Split(msg[1..]) != [] &&
      Lower(Split(msg[1..])[0]) in CommandMap
  {
    var msg := Strip(text);
    if msg != [] && msg[0] == '/' {
      LookupReads(Split(msg[1..]));
    }
  }

  /** The words run a handler exactly when the first, lower-cased, is a
      command name; the run carries that name, its handler and the other
      words joined by single spaces. */
  lemma LookupReads(parts: seq<string>)
    ensures Lookup(parts).Run? <==> parts != [] && Lower(parts[0]) in CommandMap
    ensures Lookup(parts).Run? ==>
      Lookup(parts) == Run(CommandMap[Lower(parts[0])], Lower(parts[0]), Join(parts[1..]))
  {
  }

  /** The signal the hook returns: a known command consumes the message
      whatever its handler's outcome; anything else is passed on. */
  function Signal(d: Dispatch, outcome: Outcome): (s: MsgSignal)
    ensures s == BlockAll <==> d.Run?
  {
    match d
    case PassOn => Continue
    case Run(_, _, _) => BlockAll
  }

  /** A failing handler does not change the signal. */
  lemma SignalIgnoresOutcome(d: Dispatch, a: Outcome, b: Outcome)
    ensures Signal(d, a) == Signal(d, b)
  {
  }

  /** A command written as `/name arg1 arg2 ...` is read back as its parts:
      the lower-cased name, run when the table knows it, and the arguments
      joined with single spaces. */
  lemma ParseRendered(name: string, args: seq<string>)
    requires IsWord(name)
    requires forall k :: 0 <= k < |args| ==> IsWord(args[k])
    ensures Parse("/" + Join([name] + args)) ==
      if Lower(name) in CommandMap
      then Run(CommandMap[Lower(name)], Lower(name), Join(args))
      else PassOn
  {
    var words := [name] + args;
    var msg := "/" + Join(words);
    RenderedStripped(words);
    RenderedSplit(words);
    assert Split(Strip(msg)[1..]) == [name] + args;
    ParseWords(msg, name, args);
  }

  /** `/` followed by words joined with single spaces is already stripped. */
  lemma RenderedStripped(words: seq<string>)
    requires words != []
    requires forall k :: 0 <= k < |words| ==> IsWord(words[k])
    ensures Strip("/" + Join(words)) == "/" + Join(words)
  {
    JoinEndsWithLast(words);
    SlashedIsStripped(Join(words));
  }

  /** Splitting what follows the `/` gives back the words. */
  lemma RenderedSplit(words: seq<string>)
    requires forall k :: 0 <= k < |words| ==> IsWord(words[k])
    ensures Split(("/" + Join(words))[1..]) == words
  {
    var body := Join(words);
    assert ("/" + body)[1..] == body;
    SplitJoin(words);
  }

  lemma SlashedIsStripped(body: string)
    requires body != [] && !IsSpace(body[|body| - 1])
    ensures Strip("/" + body) == "/" + body
  {
    var msg := "/" + body;
    assert TrimLeft(msg) == msg;
    assert msg[|msg| - 1] == body[|body| - 1];
    assert TrimRight(msg) == msg;
  }

  lemma {:induction false} JoinEndsWithLast(words: seq<string>)
    requires words != []
    requires forall k :: 0 <= k < |words| ==> IsWord(words[k])
    ensures Join(words) != [] && !IsSpace(Join(words)[|Join(words)| - 1])
  {
    if |words| > 1 {
      JoinEndsWithLast(words[1..]);
    } else {
      assert Join(words) == words[0];
    }
  }

  /** Any message whose stripped text is `/` followed by the words `name`,
      `args...`, whatever whitespace separates them, runs the lower-cased
      name's handler when the table has it, with the arguments joined by
      single spaces, and is passed on otherwise. */
  lemma ParseWords(text: string, name: string, args: seq<string>)
    requires Strip(text) != [] && Strip(text)[0] == '/'
    requires Split(Strip(text)[1..]) == [name] + args
    ensures Parse(text) ==
      if Lower(name) in CommandMap
      then Run(CommandMap[Lower(name)], Lower(name), Join(args))
      else PassOn
  {
    LookupReads([name] + args);
    assert ([name] + args)[0] == name && ([name] + args)[1..] == args;
  }

  /** `/name`, then the arguments, each after any non-empty run of
      whitespace: the lower-cased name runs its handler when the table has
      it, with the arguments joined by single spaces, and is passed on
      otherwise. */
  lemma ParseSpread(name: string, gaps: seq<string>, args: seq<string>)
    requires |gaps| == |args|
    requires IsWord(name) && forall k :: 0 <= k < |args| ==> IsWord(args[k])
    requires forall k :: 0 <= k < |gaps| ==> gaps[k] != [] && AllSpace(gaps[k])
    ensures Parse("/" + Spread(name, gaps, args)) ==
      if Lower(name) in CommandMap
      then Run(CommandMap[Lower(name)], Lower(name), Join(args))
      else PassOn
  {
    var body := Spread(name, gaps, args);
    SpreadEndsWithWord(name, gaps, args);
    SlashedIsStripped(body);
    assert ("/" + body)[1..] == body;
    SplitSpread(name, gaps, args);
    ParseWords("/" + body, name, args);
  }

  /** The command table holds exactly the two names, both for the traceback
      handler. */
  lemma CommandTable(name: string)
    ensures name in CommandMap <==> name == "traceback" || name == "tb"
    ensures name in CommandMap ==> CommandMap[name] == MessageTracebackHandler
  {
  }

  /** Whitespace around a message does not change how it is read. */
  lemma ParseSurrounded(a: string, text: string, b: string)
    requires AllSpace(a) && AllSpace(b)
    ensures Parse(a + text + b) == Parse(text)
  {
    StripSurrounded(a, text, b);
  }

  /** A message that is only `/` and whitespace runs nothing. */
  lemma ParseBareSlash(rest: string)
    requires AllSpace(rest)
    ensures Parse("/" + rest) == PassOn
  {
    TrimRightSpaceSuffix("/", rest);
    var msg := Strip("/" + rest);
    assert TrimLeft("/" + rest) == "/" + rest;
    assert msg == "/";
  }

  /** The hook: reads the message, runs the handler of a known command on the
      store and the outbox, and returns the signal. Anything else leaves both
      untouched. */
  method OnMessage(table: MessageTable, outbox: Outbox, chat: string, message: Message)
    returns (signal: MsgSignal)
    requires table.Valid()
    modifies table, outbox
    ensures table.Valid()
    ensures signal == Signal(Parse(message.contentText), Completed)
    ensures Parse(message.contentText).PassOn? ==>
      table.rows == old(table.rows) && outbox.sent == old(outbox.sent)
    ensures Parse(message.contentText).Run? ==>
      table.rows == Rewound(old(table.rows), chat, message.sendTimestamp) &&
      outbox.sent == old(outbox.sent) + Notices(old(table.rows), chat, message.sendTimestamp)
  {
    var dispatch := Parse(message.contentText);
    match dispatch
    case PassOn =>
      signal := Continue;
    case Run(handler, command, args) =>
      match handler
      case MessageTracebackHandler =>
        MessageTraceback(table, outbox, chat, message, args);
      signal := BlockAll;
  }
}

/** Worked examples of how the hook reads messages. */
module CommandsExamples {
  import opened Text
  import opened Commands

  /** How `/name args...` reads once the folded name is known. */
  lemma ReadsAs(name: string, args: seq<string>, d: Dispatch)
    requires IsWord(name) && forall k :: 0 <= k < |args| ==> IsWord(args[k])
    requires d == if Lower(name) in CommandMap
      then Run(MessageTracebackHandler, Lower(name), Join(args)) else PassOn
    ensures Parse("/" + Join([name] + args)) == d
  {
    ParseRendered(name, args);
    CommandTable(Lower(name));
  }

  /** The short alias in upper case, padded with whitespace, runs the
      traceback handler under its lower-case name with no arguments. */
  lemma ParseShortAlias()
    ensures Parse(" /TB\t") == Run(MessageTracebackHandler, "tb", "")
  {
    var name, args: seq<string> := "TB", [];
    AliasFacts();
    ReadsAs(name, args, Run(MessageTracebackHandler, "tb", ""));
    AliasPadding();
  }

  lemma AliasPadding()
    ensures Parse(" /TB\t") == Parse("/TB")
  {
    var before, core, after := " ", "/TB", "\t";
    PaddingFacts();
    ParseSurrounded(before, core, after);
  }

  lemma PaddingFacts()
    ensures AllSpace(" ") && AllSpace("\t") && " " + "/TB" + "\t" == " /TB\t"
  {
  }

  /** Arguments are handed to the handler joined by single spaces. */
  lemma ParseWithArguments()
    ensures Parse("/tb to 3") == Run(MessageTracebackHandler, "tb", "to 3")
  {
    var name, args := "tb", ["to", "3"];
    ArgumentFacts();
    ReadsAs(name, args, Run(MessageTracebackHandler, "tb", "to 3"));
  }

  lemma AliasFacts()
    ensures IsWord("TB") && Lower("TB") == "tb" && "/" + Join(["TB"] + []) == "/TB"
  {
  }

  lemma ArgumentFacts()
    ensures IsWord("tb") && IsWord("to") && IsWord("3")
    ensures Lower("tb") == "tb" && Join(["to", "3"]) == "to 3"
    ensures "/" + Join(["tb"] + ["to", "3"]) == "/tb to 3"
  {
  }

  lemma UnknownFacts()
    ensures IsWord("foo") && Lower("foo") == "foo" && "/" + Join(["foo"] + []) == "/foo"
  {
  }

  /** Runs of whitespace between the words collapse to single spaces in the
      arguments. */
  lemma ParseCollapsesWhitespace()
    ensures Parse("/TB  a\tb") == Run(MessageTracebackHandler, "tb", "a b")
  {
    var name, gaps, args := "TB", ["  ", "\t"], ["a", "b"];
    SpreadFacts(name, gaps, args);
    SpreadReadsAs(name, gaps, args, Run(MessageTracebackHandler, "tb", "a b"));
  }

  /** How `/name` with whitespace-separated arguments reads once the folded
      name is known. */
  lemma SpreadReadsAs(name: string, gaps: seq<string>, args: seq<string>, d: Dispatch)
    requires |gaps| == |args|
    requires IsWord(name) && forall k :: 0 <= k < |args| ==> IsWord(args[k])
    requires forall k :: 0 <= k < |gaps| ==> gaps[k] != [] && AllSpace(gaps[k])
    requires d == if Lower(name) in CommandMap
      then Run(MessageTracebackHandler, Lower(name), Join(args)) else PassOn
    ensures Parse("/" + Spread(name, gaps, args)) == d
  {
    ParseSpread(name, gaps, args);
    CommandTable(Lower(name));
  }

  lemma SpreadFacts(name: string, gaps: seq<string>, args: seq<string>)
    requires name == "TB" && gaps == ["  ", "\t"] && args == ["a", "b"]
    ensures |gaps| == |args| && "/" + Spread(name, gaps, args) == "/TB  a\tb"
    ensures IsWord(name) && forall k :: 0 <= k < |args| ==> IsWord(args[k])
    ensures forall k :: 0 <= k < |gaps| ==> gaps[k] != [] && AllSpace(gaps[k])
    ensures Lower(name) == "tb" && Join(args) == "a b"
  {
    assert Spread("b", [], []) == "b";
    assert Spread("a", ["\t"], ["b"]) == "a\tb";
    assert IsWord(args[0]) && IsWord(args[1]);
    assert AllSpace(gaps[0]) && AllSpace(gaps[1]);
  }

  /** An unknown command is passed on. */
  lemma ParseUnknown()
    ensures Parse("/foo") == PassOn
  {
    var name, args: seq<string> := "foo", [];
    UnknownFacts();
    ReadsAs(name, args, PassOn);
  }
}
