/** The `/traceback` command: rewind a chat to the bot turn before the
    latest one by deleting everything stored after it up to the command,
    then report what was deleted and what the chat now shows. */
module Traceback {
  import opened Messages
  import opened Text

  /** The rows a rewind triggered at `cmdTs` deletes: the whole chat when it
      has fewer than two earlier bot messages, otherwise the rows after the
      second most recent one, up to and including the command's timestamp. */
  function Cut(rows: seq<Message>, chat: string, cmdTs: int): (c: Cutoff)
    ensures c.WholeChat? <==> |LatestBot(rows, chat, cmdTs)| < 2
    ensures c.Between? ==> c.after < c.upTo == cmdTs
    ensures c.Between? ==> c.after == rows[LatestBot(rows, chat, cmdTs)[1]].sendTimestamp
  {
    var bots := LatestBot(rows, chat, cmdTs);
    if |bots| < 2 then WholeChat else Between(rows[bots[1]].sendTimestamp, cmdTs)
  }

  /** The table after a rewind triggered at `cmdTs`. */
  function Rewound(rows: seq<Message>, chat: string, cmdTs: int): (r: seq<Message>)
    ensures |r| <= |rows|
    ensures forall m :: m in r ==> m in rows
  {
    Survivors(rows, chat, Cut(rows, chat, cmdTs))
  }

  /** No two messages of one chat were sent at the same timestamp. */
  ghost predicate DistinctTimestamps(rows: seq<Message>) {
    forall i, j :: 0 <= i < j < |rows| && rows[i].chatKey == rows[j].chatKey ==>
      rows[i].sendTimestamp != rows[j].sendTimestamp
  }

  /** The kept bot message as the status line shows it: its first ten
      characters followed by "..." when it is longer than ten. */
  function Summary(text: string): (r: string)
    ensures |r| <= 13
    ensures |text| <= 10 ==> r == text
    ensures |text| > 10 ==> |r| == 13 && r[..10] == text[..10] && r[10..] == "..."
  {
    if |text| > 10 then text[..10] + "..." else text
  }

  /** The report of a clear-all: three characters, the decimal count, then
      eight characters. */
  function ClearedReport(count: nat): (r: string)
    ensures |r| == |Decimal(count)| + 11 && r[3..|r| - 8] == Decimal(count)
  {
    "所有 " + Decimal(count) + " 条对话已被删除"
  }

  /** The state line when no bot message is kept. */
  const IdleStatus: string := "当前状态\n等待用户消息..."

  /** The report of a rewind: fourteen characters, the decimal count, then
      eight characters. */
  function RewoundReport(count: nat): (r: string)
    ensures |r| == |Decimal(count)| + 22 && r[14..|r| - 8] == Decimal(count)
  {
    "已回溯到上一条消息，期间的 " + Decimal(count) + " 条对话已被删除"
  }

  /** The state line naming a kept bot message: eleven characters, the
      summary, then ten characters. */
  function BotStatus(summary: string): (r: string)
    ensures |r| == |summary| + 21 && r[11..|r| - 10] == summary
  {
    "当前状态\nBOT消息:" + summary + "\n等待用户消息..."
  }

  /** One text sent to a chat; `record` says whether the host stores it in
      the chat's own history. */
  datatype Notice = Notice(chatKey: string, text: string, record: bool)

  /** The two texts a rewind sends, in order: the deletion report, then the
      chat's current state. */
  function Notices(rows: seq<Message>, chat: string, cmdTs: int): (r: seq<Notice>)
    ensures |r| == 2
    ensures forall k :: 0 <= k < |r| ==> r[k].chatKey == chat && !r[k].record
  {
    var bots := LatestBot(rows, chat, cmdTs);
    var count := |Matching(rows, chat, Cut(rows, chat, cmdTs))|;
    if |bots| < 2 then
      [Notice(chat, ClearedReport(count), false), Notice(chat, IdleStatus, false)]
    else
      [Notice(chat, RewoundReport(count), false),
       Notice(chat, BotStatus(Summary(rows[bots[1]].contentText)), false)]
  }

  /** What a rewind deletes and keeps. Other chats keep all their rows, in
      order. Without two earlier bot messages nothing of the chat is kept.
      Otherwise a row of the chat is kept exactly when it was sent at or
      before the checkpoint (the second most recent bot message, which
      itself is kept) or after the command. */
  lemma RewindSelection(rows: seq<Message>, chat: string, cmdTs: int)
    ensures OtherChats(Rewound(rows, chat, cmdTs), chat) == OtherChats(rows, chat)
    ensures |LatestBot(rows, chat, cmdTs)| < 2 ==>
      forall m :: m in Rewound(rows, chat, cmdTs) ==> m.chatKey != chat
    ensures |LatestBot(rows, chat, cmdTs)| == 2 ==>
      var checkpoint := rows[LatestBot(rows, chat, cmdTs)[1]];
      checkpoint in Rewound(rows, chat, cmdTs) &&
      checkpoint.sendTimestamp < cmdTs &&
      forall m :: m in rows && m.chatKey == chat ==>
        (m in Rewound(rows, chat, cmdTs) <==>
         m.sendTimestamp <= checkpoint.sendTimestamp || cmdTs < m.sendTimestamp)
  {
    SurvivorsKeepOtherChats(rows, chat, Cut(rows, chat, cmdTs));
  }

  /** After a rewind the chat's latest bot message before the command is the
      checkpoint: the conversation is back at the bot turn before the last. */
  lemma RewindRestoresCheckpoint(rows: seq<Message>, chat: string, cmdTs: int)
    requires DistinctTimestamps(rows)
    requires |LatestBot(rows, chat, cmdTs)| == 2
    ensures var after := Rewound(rows, chat, cmdTs);
      var latest := LatestBot(after, chat, cmdTs);
      |latest| > 0 && after[latest[0]] == rows[LatestBot(rows, chat, cmdTs)[1]]
  {
    var bots := LatestBot(rows, chat, cmdTs);
    var c := rows[bots[1]];
    var after := Rewound(rows, chat, cmdTs);
    assert c in after;
    var ci :| 0 <= ci < |after| && after[ci] == c;
    var latest := LatestBot(after, chat, cmdTs);
    assert |latest| > 0 by {
      if |latest| < 2 {
        assert ci in latest;
      }
    }
    var d := after[latest[0]];
    assert d in after;
    var di :| 0 <= di < |rows| && rows[di] == d;
    assert d.sendTimestamp == c.sendTimestamp;
    assert di == bots[1];
  }

  /** The deletion report carries the number of rows the rewind removed, and
      the state line names the kept bot message exactly when there is one. */
  lemma NoticesReport(rows: seq<Message>, chat: string, cmdTs: int)
    ensures var n := Notices(rows, chat, cmdTs);
      var removed := |rows| - |Rewound(rows, chat, cmdTs)|;
      var bots := LatestBot(rows, chat, cmdTs);
      removed >= 0 &&
      n[0].text == (if |bots| < 2 then ClearedReport(removed) else RewoundReport(removed)) &&
      (n[1].text == IdleStatus <==> |bots| < 2) &&
      (|bots| == 2 ==> n[1].text == BotStatus(Summary(rows[bots[1]].contentText)))
  {
    MatchingSurvivorsPartition(rows, chat, Cut(rows, chat, cmdTs));
    NoticesStatus(rows, chat, cmdTs);
  }

  lemma NoticesStatus(rows: seq<Message>, chat: string, cmdTs: int)
    ensures var n := Notices(rows, chat, cmdTs);
      var bots := LatestBot(rows, chat, cmdTs);
      (n[1].text == IdleStatus <==> |bots| < 2) &&
      (|bots| == 2 ==> n[1].text == BotStatus(Summary(rows[bots[1]].contentText)))
  {
    var bots := LatestBot(rows, chat, cmdTs);
    if |bots| == 2 {
      var s := Summary(rows[bots[1]].contentText);
      assert |BotStatus(s)| > |IdleStatus|;
    }
  }

  /** The reader can tell the two reports apart, and the two state lines. */
  lemma ReportsDistinct(n: nat, m: nat, summary: string)
    ensures ClearedReport(n) != RewoundReport(m)
    ensures BotStatus(summary) != IdleStatus
  {
    assert ClearedReport(n)[0] == '所' && RewoundReport(m)[0] == '已';
  }

  /** The count in either report reads back as the number given. */
  lemma ReportsCarryCount(n: nat)
    ensures var r := ClearedReport(n); DecimalValue(r[3..|r| - 8]) == n
    ensures var r := RewoundReport(n); DecimalValue(r[14..|r| - 8]) == n
  {
    DecimalRoundTrip(n);
  }

  /** The channel that sends texts to a chat. */
  class Outbox {
    var sent: seq<Notice>

    constructor ()
      ensures sent == []
    {
      sent := [];
    }

    method SendText(chat: string, text: string, record: bool)
      modifies this
      ensures sent == old(sent) + [Notice(chat, text, record)]
    {
      sent := sent + [Notice(chat, text, record)];
    }
  }

  /** The command handler: rewinds `chat` at the timestamp of `command` and
      sends the two notices. `args` is only logged by the handler. */
  method MessageTraceback(
    table: MessageTable, outbox: Outbox, chat: string, command: Message, args: string)
    requires table.Valid()
    modifies table, outbox
    ensures table.Valid()
    ensures table.rows == Rewound(old(table.rows), chat, command.sendTimestamp)
    ensures outbox.sent == old(outbox.sent) + Notices(old(table.rows), chat, command.sendTimestamp)
  {
    ghost var before := table.rows;
    var ts := command.sendTimestamp;
    var bots := LatestBot(table.rows, chat, ts);
    var checkpoint := if |bots| < 2 then command else table.rows[bots[1]];
    var cut := if |bots| < 2 then WholeChat else Between(checkpoint.sendTimestamp, ts);
    assert cut == Cut(before, chat, ts);
    var doomed := table.Select(chat, cut);
    var count := |doomed|;
    table.DeleteEach(doomed);
    RewindByKeys(before, chat, ts);
    if |bots| < 2 {
      NoticesAre(before, chat, ts, count, ClearedReport(count), IdleStatus);
      outbox.SendText(chat, ClearedReport(count), false);
      outbox.SendText(chat, IdleStatus, false);
    } else {
      var status := BotStatus(Summary(checkpoint.contentText));
      NoticesAre(before, chat, ts, count, RewoundReport(count), status);
      outbox.SendText(chat, RewoundReport(count), false);
      outbox.SendText(chat, status, false);
    }
  }

  /** The two notices of a rewind, given the count it reports and the state
      line it sends. */
  lemma NoticesAre(
    rows: seq<Message>, chat: string, cmdTs: int, count: nat, report: string, status: string)
    requires count == |Matching(rows, chat, Cut(rows, chat, cmdTs))|
    requires var bots := LatestBot(rows, chat, cmdTs);
      (|bots| < 2 ==> report == ClearedReport(count) && status == IdleStatus) &&
      (|bots| == 2 ==>
         report == RewoundReport(count) &&
         status == BotStatus(Summary(rows[bots[1]].contentText)))
    ensures forall sent: seq<Notice> ::
      sent + [Notice(chat, report, false)] + [Notice(chat, status, false)] ==
      sent + Notices(rows, chat, cmdTs)
  {
    forall sent: seq<Notice>
      ensures sent + [Notice(chat, report, false)] + [Notice(chat, status, false)] ==
        sent + Notices(rows, chat, cmdTs)
    {
      assert Notices(rows, chat, cmdTs) ==
        [Notice(chat, report, false)] + [Notice(chat, status, false)];
    }
  }

  /** Deleting by key every row the rewind's query selects leaves the
      rewound table. */
  lemma RewindByKeys(rows: seq<Message>, chat: string, cmdTs: int)
    requires UniqueIds(rows)
    ensures Drop(rows, IdsOf(Matching(rows, chat, Cut(rows, chat, cmdTs)))) ==
      Rewound(rows, chat, cmdTs)
  {
    DropMatchingIsSurvivors(rows, rows, chat, Cut(rows, chat, cmdTs));
  }
}

/** Worked examples of the rewind on small tables. */
module TracebackExamples {
  import opened Messages
  import opened Traceback

  const Hello := Message(1, "c", "-1", 10, "Hello there")
  const Sure := Message(2, "c", "-1", 20, "Sure, doing X")
  const Tb := Message(3, "c", "u", 30, "/tb")

  /** Two bot turns, at 10 and 20, then the command at 30. */
  const TwoTurns := [Hello, Sure, Tb]

  lemma TwoTurnsLatestBot()
    ensures LatestBot(TwoTurns, "c", 30) == [1, 0]
  {
    assert TwoTurns[..2] == [Hello, Sure] && [Hello, Sure][..1] == [Hello] && [Hello][..0] == [];
    assert LatestBot([Hello], "c", 30) == [0];
    assert LatestBot([Hello, Sure], "c", 30) == [1, 0];
  }

  /** The later bot turn and the command are deleted; the earlier turn stays. */
  lemma RewindToEarlierBotTurn()
    ensures Rewound(TwoTurns, "c", 30) == [Hello]
  {
    TwoTurnsLatestBot();
    var cut := Between(10, 30);
    assert TwoTurns[1..] == [Sure, Tb] && [Sure, Tb][1..] == [Tb];
    assert Survivors([Sure, Tb], "c", cut) == [];
  }

  /** The status names the earlier turn, cut to ten characters. */
  lemma StatusNamesEarlierBotTurn()
    ensures Notices(TwoTurns, "c", 30)[1].text == BotStatus("Hello ther...")
  {
    TwoTurnsLatestBot();
    assert Summary("Hello there") == "Hello ther...";
  }

  /** Three bot turns, then the command: the rewind keeps the first two. */
  lemma RewindKeepsTwoOfThreeTurns()
    ensures var b1 := Message(1, "c", "-1", 1, "a");
      var b2 := Message(2, "c", "-1", 2, "b");
      var rows := [b1, b2, Message(3, "c", "-1", 3, "x"), Message(4, "c", "u", 4, "/tb")];
      Rewound(rows, "c", 4) == [b1, b2]
  {
    var b1 := Message(1, "c", "-1", 1, "a");
    var b2 := Message(2, "c", "-1", 2, "b");
    var m3, m4 := Message(3, "c", "-1", 3, "x"), Message(4, "c", "u", 4, "/tb");
    var rows := [b1, b2, m3, m4];
    assert LatestBot(rows, "c", 4) == [2, 1];
    var cut := Between(2, 4);
    assert rows[1..] == [b2, m3, m4] && rows[1..][1..] == [m3, m4] && rows[1..][1..][1..] == [m4];
    assert Survivors([m3, m4], "c", cut) == [];
    assert Survivors(rows, "c", cut) == [b1] + [b2];
  }

  /** A second rewind right after a first is not necessarily a clear-all: the
      table left by the rewind above still holds two bot turns before the
      next command, so that command steps back one more turn and deletes the
      kept checkpoint. */
  lemma RepeatedRewindStepsBackAgain()
    ensures var b1 := Message(1, "c", "-1", 1, "a");
      var b2 := Message(2, "c", "-1", 2, "b");
      var again := [b1, b2, Message(5, "c", "u", 5, "/tb")];
      |LatestBot(again, "c", 5)| == 2 && Rewound(again, "c", 5) == [b1]
  {
    var b1 := Message(1, "c", "-1", 1, "a");
    var b2 := Message(2, "c", "-1", 2, "b");
    var m5 := Message(5, "c", "u", 5, "/tb");
    var again := [b1, b2, m5];
    assert again[..2] == [b1, b2] && [b1, b2][..1] == [b1] && [b1][..0] == [];
    assert LatestBot([b1], "c", 5) == [0];
    assert LatestBot([b1, b2], "c", 5) == [1, 0];
    assert !BotBefore(m5, "c", 5);
    assert LatestBot(again, "c", 5) == [1, 0];
    assert again[1..] == [b2, m5] && again[1..][1..] == [m5];
  }
}
