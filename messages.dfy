/** The chat-message store that the traceback command reads and deletes from:
    its records, the two row selections the command deletes, and the
    sequence filters that describe a table before and after deletions. */
module Messages {

  /** The sender id under which the host framework stores the bot's own messages. */
  const BotSender: string := "-1"

  /** One stored chat message. `id` is the store's primary key: deleting a
      message deletes the row carrying its id. */
  datatype Message = Message(
    id: int,
    chatKey: string,
    senderId: string,
    sendTimestamp: int,
    contentText: string)

  predicate IsBot(m: Message) {
    m.senderId == BotSender
  }

  /** The rows of one chat that a rewind deletes: all of them, or those whose
      timestamp lies in the half-open interval (after, upTo]. */
  datatype Cutoff = WholeChat | Between(after: int, upTo: int)

  predicate Doomed(m: Message, chat: string, cut: Cutoff) {
    m.chatKey == chat &&
    match cut
    case WholeChat => true
    case Between(after, upTo) => after < m.sendTimestamp <= upTo
  }

  /** No two rows of the table share a primary key. */
  ghost predicate UniqueIds(rows: seq<Message>) {
    forall i, j :: 0 <= i < j < |rows| ==> rows[i].id != rows[j].id
  }

  ghost function IdsOf(rows: seq<Message>): set<int> {
    set m | m in rows :: m.id
  }

  /** The store's filter query for the rows a cut selects, in table order. */
  function Matching(rows: seq<Message>, chat: string, cut: Cutoff): (r: seq<Message>)
    ensures |r| <= |rows|
    ensures forall m :: m in r <==> m in rows && Doomed(m, chat, cut)
  {
    if rows == [] then []
    else (if Doomed(rows[0], chat, cut) then [rows[0]] else []) + Matching(rows[1..], chat, cut)
  }

  /** The rows a cut leaves in place, in table order. */
  function Survivors(rows: seq<Message>, chat: string, cut: Cutoff): (r: seq<Message>)
    ensures |r| <= |rows|
    ensures forall m :: m in r <==> m in rows && !Doomed(m, chat, cut)
  {
    if rows == [] then []
    else (if Doomed(rows[0], chat, cut) then [] else [rows[0]]) + Survivors(rows[1..], chat, cut)
  }

  /** The table after the rows whose primary key is in `gone` are deleted. */
  function Drop(rows: seq<Message>, gone: set<int>): (r: seq<Message>)
    ensures |r| <= |rows|
    ensures forall m :: m in r <==> m in rows && m.id !in gone
  {
    if rows == [] then []
    else (if rows[0].id in gone then [] else [rows[0]]) + Drop(rows[1..], gone)
  }

  /** The rows that belong to chats other than `chat`. */
  function OtherChats(rows: seq<Message>, chat: string): (r: seq<Message>)
    ensures forall m :: m in r <==> m in rows && m.chatKey != chat
  {
    if rows == [] then []
    else (if rows[0].chatKey == chat then [] else [rows[0]]) + OtherChats(rows[1..], chat)
  }

  /** A cut splits the table: every row is either selected or left. */
  lemma {:induction false} MatchingSurvivorsPartition(rows: seq<Message>, chat: string, cut: Cutoff)
    ensures |Matching(rows, chat, cut)| + |Survivors(rows, chat, cut)| == |rows|
  {
    if rows != [] {
      MatchingSurvivorsPartition(rows[1..], chat, cut);
    }
  }

  /** A rewind never touches the rows of another chat, and keeps their order. */
  lemma {:induction false} SurvivorsKeepOtherChats(rows: seq<Message>, chat: string, cut: Cutoff)
    ensures OtherChats(Survivors(rows, chat, cut), chat) == OtherChats(rows, chat)
  {
    if rows != [] {
      SurvivorsKeepOtherChats(rows[1..], chat, cut);
      var s := Survivors(rows, chat, cut);
      if !Doomed(rows[0], chat, cut) {
        assert s == [rows[0]] + Survivors(rows[1..], chat, cut);
        assert s[1..] == Survivors(rows[1..], chat, cut);
      } else {
        assert s == Survivors(rows[1..], chat, cut);
      }
    }
  }

  lemma UniqueIdsCons(x: Message, rows: seq<Message>)
    requires UniqueIds(rows)
    requires forall m :: m in rows ==> m.id != x.id
    ensures UniqueIds([x] + rows)
  {
    var s := [x] + rows;
    forall i, j | 0 <= i < j < |s|
      ensures s[i].id != s[j].id
    {
      if i == 0 {
        assert s[j] == rows[j - 1];
      } else {
        assert s[i] == rows[i - 1] && s[j] == rows[j - 1];
      }
    }
  }

  lemma UniqueIdsTail(rows: seq<Message>)
    requires UniqueIds(rows) && rows != []
    ensures UniqueIds(rows[1..])
    ensures forall m :: m in rows[1..] ==> m.id != rows[0].id
  {
    forall m | m in rows[1..]
      ensures m.id != rows[0].id
    {
      var j :| 0 <= j < |rows[1..]| && rows[1..][j] == m;
      assert rows[j + 1] == m;
    }
  }

  /** The store's query returns distinct rows when the table has distinct keys. */
  lemma {:induction false} MatchingUniqueIds(rows: seq<Message>, chat: string, cut: Cutoff)
    requires UniqueIds(rows)
    ensures UniqueIds(Matching(rows, chat, cut))
  {
    if rows != [] {
      UniqueIdsTail(rows);
      MatchingUniqueIds(rows[1..], chat, cut);
      if Doomed(rows[0], chat, cut) {
        UniqueIdsCons(rows[0], Matching(rows[1..], chat, cut));
      }
    }
  }

  /** Deleting rows keeps the primary key unique. */
  lemma {:induction false} DropUniqueIds(rows: seq<Message>, gone: set<int>)
    requires UniqueIds(rows)
    ensures UniqueIds(Drop(rows, gone))
  {
    if rows != [] {
      UniqueIdsTail(rows);
      DropUniqueIds(rows[1..], gone);
      if rows[0].id !in gone {
        UniqueIdsCons(rows[0], Drop(rows[1..], gone));
      }
    }
  }

  /** Deleting a row whose key is present removes exactly one row. */
  lemma {:induction false} DropPresentKey(rows: seq<Message>, m: Message)
    requires UniqueIds(rows)
    requires m in rows
    ensures |Drop(rows, {m.id})| == |rows| - 1
  {
    UniqueIdsTail(rows);
    if rows[0] == m {
      DropAbsentKey(rows[1..], m.id);
    } else {
      DropPresentKey(rows[1..], m);
    }
  }

  lemma {:induction false} DropAbsentKey(rows: seq<Message>, id: int)
    requires forall m :: m in rows ==> m.id != id
    ensures Drop(rows, {id}) == rows
  {
    if rows != [] {
      DropAbsentKey(rows[1..], id);
    }
  }

  lemma {:induction false} DropNothing(rows: seq<Message>)
    ensures Drop(rows, {}) == rows
  {
    if rows != [] {
      DropNothing(rows[1..]);
    }
  }

  /** Deleting one more key after a batch is deleting the enlarged batch. */
  lemma {:induction false} DropTwice(rows: seq<Message>, gone: set<int>, id: int)
    ensures Drop(Drop(rows, gone), {id}) == Drop(rows, gone + {id})
  {
    if rows != [] {
      DropTwice(rows[1..], gone, id);
      var x, tail := rows[0], Drop(rows[1..], gone);
      if x.id in gone {
        assert Drop(rows, gone) == tail;
      } else {
        assert Drop(rows, gone) == [x] + tail;
        assert ([x] + tail)[1..] == tail;
        assert Drop([x] + tail, {id}) == (if x.id == id then [] else [x]) + Drop(tail, {id});
      }
    }
  }

  /** Deleting, by key, every row the query returned leaves exactly the rows
      the cut does not select. */
  lemma {:induction false} DropMatchingIsSurvivors(
    rows: seq<Message>, whole: seq<Message>, chat: string, cut: Cutoff)
    requires UniqueIds(whole)
    requires forall m :: m in rows ==> m in whole
    ensures Drop(rows, IdsOf(Matching(whole, chat, cut))) == Survivors(rows, chat, cut)
  {
    if rows != [] {
      DropMatchingIsSurvivors(rows[1..], whole, chat, cut);
      MatchingKey(whole, rows[0], chat, cut);
    }
  }

  /** With unique keys, a stored row's key is among the query's keys exactly
      when the query selects that row. */
  lemma MatchingKey(whole: seq<Message>, x: Message, chat: string, cut: Cutoff)
    requires UniqueIds(whole)
    requires x in whole
    ensures x.id in IdsOf(Matching(whole, chat, cut)) <==> Doomed(x, chat, cut)
  {
    if x.id in IdsOf(Matching(whole, chat, cut)) {
      var y :| y in Matching(whole, chat, cut) && y.id == x.id;
      SameKeySameRow(whole, x, y);
    }
  }

  lemma SameKeySameRow(rows: seq<Message>, x: Message, y: Message)
    requires UniqueIds(rows)
    requires x in rows && y in rows && x.id == y.id
    ensures x == y
  {
    var i :| 0 <= i < |rows| && rows[i] == x;
    var j :| 0 <= j < |rows| && rows[j] == y;
    assert i == j;
  }

  /** A bot message of `chat` sent strictly before `before`. */
  predicate BotBefore(m: Message, chat: string, before: int) {
    m.chatKey == chat && IsBot(m) && m.sendTimestamp < before
  }

  /** The store's query for the bot messages of `chat` sent before `before`,
      ordered most recent first and limited to two, given as positions in the
      table. Rows with equal timestamps are ranked by table order, a choice
      the store itself leaves open. */
  function LatestBot(rows: seq<Message>, chat: string, before: int): (r: seq<nat>)
    ensures |r| <= 2
    ensures forall k :: 0 <= k < |r| ==> r[k] < |rows| && BotBefore(rows[r[k]], chat, before)
    ensures |r| == 2 ==> r[0] != r[1] && rows[r[1]].sendTimestamp <= rows[r[0]].sendTimestamp
    ensures |r| < 2 ==>
      forall j :: 0 <= j < |rows| && BotBefore(rows[j], chat, before) ==> j in r
    ensures |r| > 0 ==>
      forall j :: 0 <= j < |rows| && BotBefore(rows[j], chat, before) ==>
        rows[j].sendTimestamp <= rows[r[0]].sendTimestamp
    ensures |r| == 2 ==>
      forall j :: 0 <= j < |rows| && BotBefore(rows[j], chat, before) && j != r[0] ==>
        rows[j].sendTimestamp <= rows[r[1]].sendTimestamp
    decreases |rows|
  {
    if rows == [] then []
    else
      var n := |rows| - 1;
      var r := LatestBot(rows[..n], chat, before);
      assert forall j :: 0 <= j < n ==> rows[..n][j] == rows[j];
      var ts := rows[n].sendTimestamp;
      if !BotBefore(rows[n], chat, before) then r
      else if |r| == 0 then [n]
      else if rows[r[0]].sendTimestamp < ts then [n, r[0]]
      else if |r| == 1 || rows[r[1]].sendTimestamp < ts then [r[0], n]
      else r
  }

  /** One step of deleting a query result: the next message is still stored,
      and deleting it extends the batch of deleted keys by its key. */
  lemma DeleteStep(before: seq<Message>, doomed: seq<Message>, i: nat)
    requires UniqueIds(doomed)
    requires forall m :: m in doomed ==> m in before
    requires i < |doomed|
    ensures doomed[i] in Drop(before, IdsOf(doomed[..i]))
    ensures Drop(Drop(before, IdsOf(doomed[..i])), {doomed[i].id})
         == Drop(before, IdsOf(doomed[..i + 1]))
  {
    NotYetDeleted(doomed, i);
    DropTwice(before, IdsOf(doomed[..i]), doomed[i].id);
    assert doomed[..i + 1] == doomed[..i] + [doomed[i]];
    IdsOfSnoc(doomed[..i], doomed[i]);
  }

  lemma NotYetDeleted(doomed: seq<Message>, i: nat)
    requires UniqueIds(doomed)
    requires i < |doomed|
    ensures doomed[i].id !in IdsOf(doomed[..i])
  {
    forall x | x in doomed[..i]
      ensures x.id != doomed[i].id
    {
      var k :| 0 <= k < i && doomed[..i][k] == x;
      assert doomed[k] == x;
    }
  }

  lemma IdsOfSnoc(s: seq<Message>, m: Message)
    ensures IdsOf(s + [m]) == IdsOf(s) + {m.id}
  {
    assert forall x :: x in s + [m] <==> x in s || x == m;
  }

  /** The chat-message table, updated in place by deletions. */
  class MessageTable {
    var rows: seq<Message>

    ghost predicate Valid()
      reads this
    {
      UniqueIds(rows)
    }

    constructor (initial: seq<Message>)
      requires UniqueIds(initial)
      ensures Valid() && rows == initial
    {
      rows := initial;
    }

    /** The filter query: the rows of `chat` that `cut` selects. */
    method Select(chat: string, cut: Cutoff) returns (found: seq<Message>)
      requires Valid()
      ensures forall m :: m in found <==> m in rows && Doomed(m, chat, cut)
      ensures UniqueIds(found) && found == Matching(rows, chat, cut)
    {
      found := Matching(rows, chat, cut);
      MatchingUniqueIds(rows, chat, cut);
    }

    /** Deleting one stored message removes the row with its primary key. */
    method Delete(m: Message)
      requires Valid()
      modifies this
      ensures Valid()
      ensures rows == Drop(old(rows), {m.id})
    {
      DropUniqueIds(rows, {m.id});
      rows := Drop(rows, {m.id});
    }

    /** Deletes each listed message in turn; each deletion removes exactly one
        row, so the table shrinks by the length of the list. */
    method DeleteEach(doomed: seq<Message>)
      requires Valid()
      requires UniqueIds(doomed)
      requires forall m :: m in doomed ==> m in rows
      modifies this
      ensures Valid()
      ensures rows == Drop(old(rows), IdsOf(doomed))
      ensures |rows| == |old(rows)| - |doomed|
    {
      var i := 0;
      DropNothing(rows);
      assert IdsOf(doomed[..0]) == {};
      while i < |doomed|
        invariant 0 <= i <= |doomed|
        invariant Valid()
        invariant rows == Drop(old(rows), IdsOf(doomed[..i]))
        invariant |rows| == |old(rows)| - i
      {
        var m := doomed[i];
        DeleteStep(old(rows), doomed, i);
        DropPresentKey(rows, m);
        Delete(m);
        i := i + 1;
      }
      assert doomed[..i] == doomed;
    }
  }
}
