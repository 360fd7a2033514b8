/**
 * Resuming a chat without gaps or duplicates. A socket that was replayed
 * completely from offset k, when the table held `start` rows, has since been
 * sent every new row live (`io.emit` reaches every connected socket, its own
 * sender included). The chat messages it has received are therefore the
 * replay followed by every later row, and when the offset was not ahead of
 * the table this is exactly the table replayed from k.
 */
module Resume {

  import opened MessageLog
  import opened Protocol
  import opened Replay

  /** The `chat message` events among `sent`, in sending order. */
  function ChatsOf(sent: seq<Event>): (chats: seq<Event>)
    ensures |chats| <= |sent|
  {
    if sent == [] then []
    else
      var init, last := sent[..|sent| - 1], sent[|sent| - 1];
      ChatsOf(init) + (if last.Chat? then [last] else [])
  }

  /** One `chat message` per row, in row order: what the live broadcasts of these rows deliver. */
  function AllChats(rows: seq<Row>): (chats: seq<Event>)
    ensures |chats| == |rows|
  {
    if rows == [] then [] else AllChats(rows[..|rows| - 1]) + [ChatOf(rows[|rows| - 1])]
  }

  /** The chat messages sent to a socket are its replay up to row `start`, followed by every later row. */
  ghost predicate InSync(rows: seq<Row>, sent: seq<Event>, start: nat, k: int)
  {
    start <= |rows| && ChatsOf(sent) == ReplayBatch(rows[..start], k) + AllChats(rows[start..])
  }

  /** A complete replay consists of chat messages only, so right after it the socket is in sync. */
  lemma {:induction false} InSyncAfterReplay(rows: seq<Row>, k: int)
    ensures InSync(rows, ReplayBatch(rows, k), |rows|, k)
  {
    ReplayAllChat(rows, k);
    assert rows[..|rows|] == rows;
    assert rows[|rows|..] == [];
  }

  lemma {:induction false} ReplayAllChat(rows: seq<Row>, k: int)
    ensures ChatsOf(ReplayBatch(rows, k)) == ReplayBatch(rows, k)
  {
    if rows != [] {
      var init, last := rows[..|rows| - 1], rows[|rows| - 1];
      ReplayAllChat(init, k);
      var tail := if last.id > k then [ChatOf(last)] else [];
      assert ReplayBatch(rows, k) == ReplayBatch(init, k) + tail;
      ChatsOfConcat(ReplayBatch(init, k), tail);
    }
  }

  lemma {:induction false} ChatsOfConcat(a: seq<Event>, b: seq<Event>)
    ensures ChatsOf(a + b) == ChatsOf(a) + ChatsOf(b)
  {
    if b == [] {
      assert a + b == a;
    } else {
      var init, last := b[..|b| - 1], b[|b| - 1];
      assert (a + b)[..|a + b| - 1] == a + init;
      assert (a + b)[|a + b| - 1] == last;
      ChatsOfConcat(a, init);
    }
  }

  lemma AllChatsSnoc(rows: seq<Row>, row: Row)
    ensures AllChats(rows + [row]) == AllChats(rows) + [ChatOf(row)]
  {
    assert (rows + [row])[..|rows|] == rows;
  }

  /** A row stored and broadcast to the socket keeps it in sync. */
  lemma InSyncAfterInsert(rows: seq<Row>, sent: seq<Event>, start: nat, k: int, row: Row)
    requires InSync(rows, sent, start, k)
    ensures InSync(rows + [row], sent + [ChatOf(row)], start, k)
  {
    var before, later := rows[..start], rows[start..];
    var rows' := rows + [row];
    assert rows'[..start] == before;
    assert rows'[start..] == later + [row];
    AllChatsSnoc(later, row);
    ChatsOfConcat(sent, [ChatOf(row)]);
    assert ChatsOf([ChatOf(row)]) == [ChatOf(row)] by {
      assert [ChatOf(row)][..0] == [];
    }
    var replayed := ReplayBatch(before, k);
    assert ChatsOf(sent + [ChatOf(row)]) == (replayed + AllChats(later)) + [ChatOf(row)];
    assert (replayed + AllChats(later)) + [ChatOf(row)] == replayed + (AllChats(later) + [ChatOf(row)]);
  }

  /** An announcement is not a chat message, so it does not disturb the sync. */
  lemma InSyncAfterAnnouncement(rows: seq<Row>, sent: seq<Event>, start: nat, k: int, text: string)
    requires InSync(rows, sent, start, k)
    ensures InSync(rows, sent + [UserConnected(text)], start, k)
  {
    ChatsOfConcat(sent, [UserConnected(text)]);
    assert ChatsOf([UserConnected(text)]) == [];
  }

  /** Rows that all lie above the offset are replayed one by one, in order. */
  lemma {:induction false} ReplayAllAbove(rows: seq<Row>, k: int)
    requires forall i :: 0 <= i < |rows| ==> rows[i].id > k
    ensures ReplayBatch(rows, k) == AllChats(rows)
  {
    if rows != [] {
      var init := rows[..|rows| - 1];
      assert forall i :: 0 <= i < |init| ==> init[i] == rows[i];
      ReplayAllAbove(init, k);
    }
  }

  /**
   * When every row stored since the connection lies above the offset (as it
   * does whenever the declared offset was not ahead of the table), a socket
   * in sync has received exactly the table replayed from its offset: each
   * stored row above the offset once, and nothing else.
   */
  lemma InSyncIsExactResume(rows: seq<Row>, sent: seq<Event>, start: nat, k: int)
    requires InSync(rows, sent, start, k)
    requires forall i :: start <= i < |rows| ==> rows[i].id > k
    ensures ChatsOf(sent) == ReplayBatch(rows, k)
  {
    assert rows == rows[..start] + rows[start..];
    ReplayBatchConcat(rows[..start], rows[start..], k);
    ReplayAllAbove(rows[start..], k);
  }

  /** No row lies above the offset, so the replay is empty. */
  lemma {:induction false} ReplayNoneAbove(rows: seq<Row>, k: int)
    requires forall i :: 0 <= i < |rows| ==> rows[i].id <= k
    ensures ReplayBatch(rows, k) == []
  {
    if rows != [] {
      var init := rows[..|rows| - 1];
      assert forall i :: 0 <= i < |init| ==> init[i] == rows[i];
      ReplayNoneAbove(init, k);
    }
  }

  /** Ids increase, so the rows up to the m-th lie at or below its id and the rest above it. */
  lemma SplitAtRow(rows: seq<Row>, m: nat)
    requires IdsIncreasing(rows)
    requires 0 < m <= |rows|
    ensures forall i :: 0 <= i < |rows[..m]| ==> rows[..m][i].id <= rows[m - 1].id
    ensures forall i :: 0 <= i < |rows[m..]| ==> rows[m..][i].id > rows[m - 1].id
  {
    IdsIncreasingPairs(rows);
    forall i | 0 <= i < |rows[..m]|
      ensures rows[..m][i].id <= rows[m - 1].id
    {
      assert rows[..m][i] == rows[i];
    }
    forall i | 0 <= i < |rows[m..]|
      ensures rows[m..][i].id > rows[m - 1].id
    {
      assert rows[m..][i] == rows[m + i];
    }
  }

  /**
   * A client that reconnects declaring the id of the m-th row as the last one
   * it has seen is replayed exactly the rows stored after it, in order.
   */
  lemma ResumeFromLastSeen(rows: seq<Row>, m: nat)
    requires IdsIncreasing(rows)
    requires 0 < m <= |rows|
    ensures ReplayBatch(rows, rows[m - 1].id) == AllChats(rows[m..])
  {
    var k := rows[m - 1].id;
    SplitAtRow(rows, m);
    assert rows == rows[..m] + rows[m..];
    ReplayBatchConcat(rows[..m], rows[m..], k);
    ReplayNoneAbove(rows[..m], k);
    ReplayAllAbove(rows[m..], k);
  }
}
