# Message traceback plugin — a Dafny model

The plugin (`nekro_plugin_message_traceback`, file `__init__.py`) adds two
chat commands to the nekro-agent bot host, `/traceback` and its alias `/tb`.
A user message is stripped, checked for the `/` prefix and split into a
command name and arguments, and the name is looked up in a two-entry command
table. A known command consumes the message; anything else is passed on.
The one handler rewinds the conversation:

- it asks the message store for the chat's two most recent bot messages
  (sender `"-1"`) sent strictly before the command;
- with fewer than two it deletes every message of the chat;
- otherwise it deletes the chat's messages sent after the second most recent
  one (the *checkpoint*) and no later than the command;
- it then sends two texts that are not recorded in the chat's history. The
  first reports how many messages were deleted. The second gives the chat's
  state, naming the checkpoint's text cut to ten characters where there is one.

The model has four modules, one per concern of that file, plus two modules of worked examples:

- `Messages` (`messages.dfy`) holds the store. It defines the message record,
  the store's queries as functions over a table of records, and the table
  itself as the class `MessageTable`. Its methods delete rows in place.
- `Text` (`text.dfy`) holds the Python string operations the hook relies on:
  `strip()`, `split()`, `" ".join()`, `lower()` and `str(int)`.
- `Traceback` (`traceback.dfy`) holds the rewind. `Cut`, `Rewound` and
  `Notices` specify it. `MessageTraceback` is the imperative handler,
  proved against them. The outbound channel is the class `Outbox`, which
  appends each sent text to a log. `TracebackExamples` works small tables
  through the rewind.
- `Commands` (`commands.dfy`) holds the hook: `Parse`, `Signal`, the command
  table and `OnMessage`, which runs the handler. `CommandsExamples` reads a
  few concrete messages.

Notes on behaviour the code determines:

- A second rewind straight after a first is not a clear-all in general. The
  table the first leaves behind can still hold two earlier bot turns, so the
  next command steps back one more turn
  (`TracebackExamples.RepeatedRewindStepsBackAgain`).
- The rows kept in a chat are not only those at or before the checkpoint.
  Rows sent after the command's timestamp are kept too, because the deletion
  query bounds the range above by that timestamp
  (`Traceback.RewindSelection`).
- Whitespace is Python's `str.isspace()` set, including the non-ASCII
  spaces, because `strip()` and `split()` use that set.

## Model

| member | source | states |
|---|---|---|
| `Messages.LatestBot` | __init__.py:28-36 | The bot-message query. Every position it returns holds a bot message of the chat sent strictly before the command. It returns at most two, most recent first. The first is at least as recent as every candidate, and the second is at least as recent as every other candidate. With fewer than two results, every candidate was returned. |
| `Messages.Matching` | __init__.py:56-60 | The deletion query returns exactly the table's rows of the chat that the cut selects: the whole chat, or the half-open timestamp range (checkpoint, command]. |
| `Messages.Survivors` | __init__.py:63-64 | The rows left after a rewind are exactly the table's rows that the cut does not select. |
| `Messages.Drop` | __init__.py:43-44 | Deleting by primary key leaves exactly the rows whose key was not deleted. |
| `Messages.MatchingSurvivorsPartition` | __init__.py:62-64 | The number of rows the query returns plus the number left equals the table's size, so `count` is the number of rows removed. |
| `Messages.SurvivorsKeepOtherChats` | __init__.py:56-60 | A rewind leaves the rows of every other chat in place and in order. |
| `Messages.MatchingUniqueIds` | __init__.py:56-60 | The query never returns one stored row twice. |
| `Messages.DropPresentKey` | __init__.py:44 | Deleting a stored message removes exactly one row. |
| `Messages.DropTwice` | __init__.py:43-44 | Deleting one more message after a batch equals deleting the enlarged batch. |
| `Messages.DropMatchingIsSurvivors` | __init__.py:62-64 | Deleting the keys of every row the query returned leaves exactly the rows the cut does not select. (`DeleteEach` and `DeleteStep` carry the one-key-per-turn part.) |
| `Messages.DeleteStep` | __init__.py:63-64 | At each turn of the delete loop the next message is still stored, and deleting it extends the set of deleted keys by its key. |
| `Messages.MessageTable.Select` | __init__.py:41 | The filter query returns the selected rows of the current table, each once. |
| `Messages.MessageTable.Delete` | __init__.py:44 | `msg.delete()` removes the row with that message's key and keeps the keys unique. |
| `Messages.MessageTable.DeleteEach` | __init__.py:62-64 | The delete loop removes every listed row by key, one row per turn, so the table shrinks by the length of the list (the reported `count`). |
| `Text.Strip` | __init__.py:85 | `strip()` starts and ends on a non-whitespace character and is empty exactly when the text is all whitespace. |
| `Text.StripSplits` | __init__.py:85 | Every text is its stripped form with only whitespace before and after it. |
| `Text.StripSurrounded` | __init__.py:85 | Adding whitespace around a text does not change its stripped form. |
| `Text.Split` | __init__.py:92 | `split()` yields only non-empty whitespace-free words, and yields none exactly when the text is all whitespace. |
| `Text.SplitSkipsSpace` | __init__.py:92 | `split()` skips a leading whitespace character. |
| `Text.SplitLeadingWord` | __init__.py:92 | `split()` takes a leading run of non-whitespace, ended by whitespace or the end of the text, as its first word and splits the rest after it. With `SplitSkipsSpace` this fixes `split()` on every text. |
| `Text.SplitSkipsSpaces` | __init__.py:92 | Any run of whitespace in front of a text leaves its `split()` unchanged. |
| `Text.SplitSpread` | __init__.py:92 | Words separated by any non-empty runs of whitespace are split back into exactly those words. |
| `Text.JoinSeparates` | __init__.py:97 | `" ".join` starts with the first word, puts a single space right after it when there are more, and is the word itself for a one-word list. |
| `Text.SplitJoin` | __init__.py:97 | Splitting a list of words joined by single spaces gives back the list. |
| `Text.Lower` | __init__.py:96 | `lower()` keeps the length. |
| `Text.LowerFolds` | __init__.py:96 | `lower()` leaves no ASCII capital and keeps every character other than a capital and the Kelvin sign. |
| `Text.Decimal` | __init__.py:46 | The count's text is a non-empty string of decimal digits without a leading zero: it starts with `0` only when it is `"0"`, and then the count is zero. |
| `Text.DecimalRoundTrip` | __init__.py:67 | The count can be read back from its text. |
| `Traceback.Summary` | __init__.py:68-72 | The status summary is the text itself when it has at most ten characters. Otherwise it is the first ten characters followed by `...`. |
| `Traceback.Cut` | __init__.py:39-60 | The cut is the whole chat exactly when fewer than two earlier bot messages were found. Otherwise it is the range from the checkpoint's timestamp (exclusive), which is earlier than the command, up to the command's timestamp (inclusive). |
| `Traceback.Rewound` | __init__.py:39-64 | The table after a rewind is no longer than before and holds only rows that were stored before. |
| `Traceback.ClearedReport` | __init__.py:46 | The clear-all report is three characters, the decimal count, then eight characters. |
| `Traceback.RewoundReport` | __init__.py:67 | The rewind report is fourteen characters, the decimal count, then eight characters. |
| `Traceback.BotStatus` | __init__.py:73 | The state line naming a kept bot message is eleven characters, the summary, then ten characters. |
| `Traceback.ReportsDistinct` | __init__.py:46-73 | The clear-all report never equals a rewind report, and the state line naming a bot message never equals the waiting status of :47. |
| `Traceback.ReportsCarryCount` | __init__.py:46-67 | The count can be read back from either report. |
| `Traceback.Notices` | __init__.py:46-74 | A rewind sends exactly two texts, both to the chat and both with `record=False`. |
| `Traceback.NoticesReport` | __init__.py:62-74 | The first text reports the number of rows the rewind removed, in the clear-all wording or the rewind wording. The second text is the plain waiting status exactly when there is no checkpoint; otherwise it is the state line naming the checkpoint's summary. |
| `Traceback.RewindSelection` | __init__.py:39-64 | Other chats keep all their rows. With fewer than two earlier bot messages, no row of the chat is kept. Otherwise the checkpoint is earlier than the command and is kept. A row of the chat is then kept exactly when it was sent at or before the checkpoint, or after the command. |
| `Traceback.RewindRestoresCheckpoint` | __init__.py:51-64 | With distinct timestamps in a chat, after a rewind the chat's latest bot message before the command is the old checkpoint. |
| `Traceback.Outbox.SendText` | __init__.py:46 | Sending appends the text, its chat and its `record` flag to the outbound log. |
| `Traceback.MessageTraceback` | __init__.py:23-74 | The handler leaves exactly the rows that `Rewound` specifies, keeps the keys unique and appends exactly the two `Notices` to the outbound log. |
| `TracebackExamples.TwoTurnsLatestBot` | __init__.py:28-36 | Bot messages at 10 ("Hello there") and 20, command at 30: the query returns the message at 20, then the one at 10. |
| `TracebackExamples.RewindToEarlierBotTurn` | __init__.py:53-64 | On that table only the message at 10 stays. |
| `TracebackExamples.StatusNamesEarlierBotTurn` | __init__.py:68-74 | On that table the status shows `Hello ther...`. |
| `TracebackExamples.RewindKeepsTwoOfThreeTurns` | __init__.py:53-64 | Bot messages at 1, 2 and 3, command at 4: the rows at 3 and 4 are deleted. |
| `TracebackExamples.RepeatedRewindStepsBackAgain` | __init__.py:28-64 | On the table left by that rewind, a command at 5 finds two earlier bot messages again and keeps only the row at 1. |
| `Commands.Parse` | __init__.py:85-100 | A message runs a handler only if its stripped text starts with `/`, and then only under a name in the command table, with that name's handler. |
| `Commands.ParseDispatches` | __init__.py:85-100 | A message runs a handler exactly when its stripped text starts with `/` and the lower-cased first word after the `/` is in the command table. |
| `Commands.Lookup` | __init__.py:95-100 | A run names an entry of the command table and that entry's handler. |
| `Commands.LookupReads` | __init__.py:95-100 | The words run a handler exactly when there is a first word whose lower-cased form is in the command table. The run carries that name's handler, the name, and the other words joined by single spaces. |
| `Commands.ParseWords` | __init__.py:85-100 | Whatever whitespace separates the words after the `/`, the message runs the lower-cased first word's handler when the table has it, with the other words joined by single spaces, and is passed on otherwise. |
| `Commands.ParseSpread` | __init__.py:85-100 | `/name` followed by arguments, each after any non-empty run of whitespace, is read as the lower-cased name with the arguments joined by single spaces. |
| `Commands.CommandTable` | __init__.py:77-80 | The command table holds exactly `traceback` and `tb`, both for the traceback handler. |
| `Commands.ParseRendered` | __init__.py:92-100 | `/name arg1 arg2 ...` is read as the lower-cased name, which runs its handler when the table has it and is passed on otherwise, with the arguments joined by single spaces. |
| `Commands.ParseSurrounded` | __init__.py:85 | Whitespace around a message does not change how it is read. |
| `Commands.ParseBareSlash` | __init__.py:92-94 | A `/` followed only by whitespace is passed on. |
| `Commands.Signal` | __init__.py:100-110 | The hook consumes the message (`BLOCK_ALL`) exactly when a known command was read, and passes it on (`CONTINUE`) otherwise. |
| `Commands.SignalIgnoresOutcome` | __init__.py:101-107 | A handler that fails yields the same signal as one that completes. |
| `Commands.OnMessage` | __init__.py:84-110 | The hook returns that signal. For a known command it leaves the table and the outbound log as the handler specifies. For anything else it changes neither. |
| `CommandsExamples.ParseShortAlias` | __init__.py:85-100 | `" /TB\t"` runs the traceback handler as `tb` with empty arguments. |
| `CommandsExamples.ParseWithArguments` | __init__.py:96-97 | `"/tb to 3"` hands the handler the arguments `"to 3"`. |
| `CommandsExamples.ParseCollapsesWhitespace` | __init__.py:92-97 | `"/TB  a\tb"` runs the traceback handler as `tb` with the arguments `"a b"`. |
| `CommandsExamples.ParseUnknown` | __init__.py:109-110 | `"/foo"` is passed on. |

## Left out

- Database access is not modelled. The Tortoise-ORM queries, `await` scheduling and the store's own storage are replaced by a table of records held in a sequence. `msg.delete()` removes the row with the record's primary key.
- Failures are not modelled. A store or send error inside the handler, and the partial deletion it would leave, are out of scope. `Signal` takes the handler's outcome as a parameter and ignores it, as the catch-all does.
- `logger` calls, `NekroPlugin` registration, `PluginConfig` and the `ctx` argument of `send_text` are framework wiring with no effect on the modelled state.
- The handler's `args` is accepted and, as in the source, only logged.
- `Messages.LatestBot`: ties between equal timestamps are ranked by table order. The store leaves that order open. The deleted range depends only on the checkpoint's timestamp, which ties do not change. The checkpoint row named in the status can differ. `Traceback.RewindRestoresCheckpoint` therefore assumes distinct timestamps within a chat.
- `Text.Lower`: its contract and `Text.LowerFolds` state the length, that no ASCII capital is left and that other characters than capitals and the Kelvin sign are kept; they do not state the folded letter of each capital. It folds only the ASCII capitals and the Kelvin sign, the one non-ASCII character whose lower case is an ASCII letter. Python's other case mappings are not modelled. The dispatch decision and the stored command name still match Python's: a command runs only when the folded name is `traceback` or `tb`, and the only characters Python lower-cases to those ASCII letters are the capitals and the Kelvin sign, which the model folds.
- Whether the command message itself is already stored when the handler runs is up to the host. The model rewinds whatever table it is given.
