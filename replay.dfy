/**
 * Connect-time replay: `SELECT id, content FROM messages WHERE id > k`, with
 * one `chat message` emit per row, for a socket whose state was not recovered.
 *
 * The query has no ORDER BY. The model scans the rows in storage (rowid)
 * order; that order is an assumption of the model. It fixes the sequences
 * stated by ReplayScan, ReplayBatchConcat, Emitted and ReplayAscending, and
 * so which rows a failed scan has already sent. The membership and
 * multiplicity facts (ReplayBatch, ReplayExactlyOnce, PartialReplaySound,
 * PartialReplayAtMostOnce, ReplayFromStart) do not depend on it.
 */
module Replay {

  import opened Wrappers
  import opened MessageLog
  import opened Protocol

  /** `socket.handshake.auth.serverOffset || 0`: a missing offset or 0 is 0, any other integer is kept. */
  function EffectiveOffset(serverOffset: Option<int>): (k: int)
    // JavaScript `x || 0`: x itself when it is truthy, otherwise the default 0
    ensures serverOffset.Some? && serverOffset.value != 0 ==> k == serverOffset.value
    ensures serverOffset.None? || serverOffset.value == 0 ==> k == 0
  {
    if serverOffset.None? || serverOffset.value == 0 then 0 else serverOffset.value
  }

  /** The `chat message` event a stored row is replayed as. */
  function ChatOf(row: Row): (e: Event)
    // the payload is the row's content followed by its id, which a client hands back as its offset
    ensures e.Chat? && e.content == row.content && e.id == row.id
  {
    Chat(row.content, row.id)
  }

  /** The events a complete scan of `rows` emits: one per row with id above `k`. */
  function ReplayBatch(rows: seq<Row>, k: int): (batch: seq<Event>)
    ensures |batch| <= |rows|
    ensures forall e :: e in batch <==> exists i :: 0 <= i < |rows| && rows[i].id > k && e == ChatOf(rows[i])
  {
    if rows == [] then []
    else
      var init, last := rows[..|rows| - 1], rows[|rows| - 1];
      assert forall i :: 0 <= i < |init| ==> init[i] == rows[i];
      ReplayBatch(init, k) + (if last.id > k then [ChatOf(last)] else [])
  }

  /** What is emitted when the scan fails after `failAfter` rows: the rows already sent stay sent. */
  function Emitted(batch: seq<Event>, failAfter: Option<nat>): (out: seq<Event>)
    ensures |out| <= |batch| && out == batch[..|out|]
    ensures |out| == if failAfter.Some? && failAfter.value < |batch| then failAfter.value else |batch|
  {
    if failAfter.Some? && failAfter.value < |batch| then batch[..failAfter.value] else batch
  }

  /**
   * Whatever point a failing scan stops at, everything it has sent is the
   * replay of a stored row above the offset.
   */
  lemma PartialReplaySound(rows: seq<Row>, k: int, failAfter: Option<nat>)
    ensures forall e :: e in Emitted(ReplayBatch(rows, k), failAfter) ==>
      exists i :: 0 <= i < |rows| && rows[i].id > k && e == ChatOf(rows[i])
  {
    var batch := ReplayBatch(rows, k);
    var out := Emitted(batch, failAfter);
    forall e | e in out
      ensures e in batch
    {
      var p :| 0 <= p < |out| && out[p] == e;
      assert batch[p] == e;
    }
  }

  /** With increasing ids, a scan that stops early has still sent no event twice. */
  lemma PartialReplayAtMostOnce(rows: seq<Row>, k: int, failAfter: Option<nat>, e: Event)
    requires IdsIncreasing(rows)
    ensures multiset(Emitted(ReplayBatch(rows, k), failAfter))[e] <= 1
  {
    var batch := ReplayBatch(rows, k);
    var out := Emitted(batch, failAfter);
    assert batch == out + batch[|out|..];
    assert multiset(batch) == multiset(out) + multiset(batch[|out|..]);
    if e in batch {
      var i :| 0 <= i < |rows| && rows[i].id > k && e == ChatOf(rows[i]);
      ReplayExactlyOnce(rows, k, i);
    }
  }

  /** Scanning two stretches of the table one after the other emits the two batches one after the other. */
  lemma {:induction false} ReplayBatchConcat(a: seq<Row>, b: seq<Row>, k: int)
    ensures ReplayBatch(a + b, k) == ReplayBatch(a, k) + ReplayBatch(b, k)
  {
    if b != [] {
      var init, last := b[..|b| - 1], b[|b| - 1];
      assert (a + b)[..|a + b| - 1] == a + init;
      assert (a + b)[|a + b| - 1] == last;
      var tail := if last.id > k then [ChatOf(last)] else [];
      ReplayBatchConcat(a, init, k);
    } else {
      assert a + b == a;
    }
  }

  /**
   * The `db.each` loop: one emit per scanned row with id above `k`, stopping
   * early when the scan fails after `failAfter` emitted rows.
   */
  method ReplayScan(rows: seq<Row>, k: int, failAfter: Option<nat>) returns (batch: seq<Event>)
    ensures batch == Emitted(ReplayBatch(rows, k), failAfter)
  {
    batch := [];
    var i := 0;
    while i < |rows| && (failAfter.None? || |batch| < failAfter.value)
      invariant 0 <= i <= |rows|
      invariant batch == ReplayBatch(rows[..i], k)
      invariant failAfter.Some? ==> |batch| <= failAfter.value
    {
      ReplayBatchStep(rows, i, k);
      if rows[i].id > k {
        batch := batch + [ChatOf(rows[i])];
      }
      i := i + 1;
    }
    assert rows == rows[..i] + rows[i..];
    ReplayBatchConcat(rows[..i], rows[i..], k);
    EmittedStopped(batch, ReplayBatch(rows[i..], k), failAfter);
  }

  /** Scanning one more row adds that row's event, if it lies above the offset. */
  lemma ReplayBatchStep(rows: seq<Row>, i: nat, k: int)
    requires i < |rows|
    ensures ReplayBatch(rows[..i + 1], k) == ReplayBatch(rows[..i], k) + (if rows[i].id > k then [ChatOf(rows[i])] else [])
  {
    assert rows[..i + 1][..i] == rows[..i];
  }

  /** A scan that has sent `sent` and then either ran out of rows or reached its failure point has emitted `sent`. */
  lemma EmittedStopped(sent: seq<Event>, rest: seq<Event>, failAfter: Option<nat>)
    requires failAfter.Some? ==> |sent| <= failAfter.value
    requires rest == [] || (failAfter.Some? && |sent| == failAfter.value)
    ensures Emitted(sent + rest, failAfter) == sent
  {
    if rest == [] {
      assert sent + rest == sent;
    } else {
      assert (sent + rest)[..|sent|] == sent;
    }
  }

  /** With increasing ids, every stored row above the offset is replayed exactly once. */
  lemma {:induction false} ReplayExactlyOnce(rows: seq<Row>, k: int, i: nat)
    requires IdsIncreasing(rows)
    requires i < |rows| && rows[i].id > k
    ensures multiset(ReplayBatch(rows, k))[ChatOf(rows[i])] == 1
  {
    var init, last := rows[..|rows| - 1], rows[|rows| - 1];
    assert IdsIncreasing(init);
    var tail := if last.id > k then [ChatOf(last)] else [];
    assert ReplayBatch(rows, k) == ReplayBatch(init, k) + tail;
    if i == |rows| - 1 {
      if ChatOf(last) in ReplayBatch(init, k) {
        assert false;
      }
    } else {
      assert init[i] == rows[i];
      ReplayExactlyOnce(init, k, i);
      assert init[i].id < last.id;
    }
  }

  /** Chat events with strictly increasing ids. */
  ghost predicate Ascending(batch: seq<Event>)
  {
    forall p, q :: 0 <= p < q < |batch| ==> batch[p].Chat? && batch[q].Chat? && batch[p].id < batch[q].id
  }

  /** Under the rowid scan order, replayed events come in strictly ascending id order. */
  lemma {:induction false} ReplayAscending(rows: seq<Row>, k: int)
    requires IdsIncreasing(rows)
    ensures Ascending(ReplayBatch(rows, k))
  {
    if rows != [] {
      var init, last := rows[..|rows| - 1], rows[|rows| - 1];
      assert forall j :: 0 <= j < |init| ==> init[j] == rows[j];
      ReplayAscending(init, k);
      var prefix := ReplayBatch(init, k);
      assert forall p :: 0 <= p < |prefix| ==> prefix[p] in prefix;
      assert forall p :: 0 <= p < |prefix| ==> prefix[p].Chat? && prefix[p].id < last.id;
      var batch := ReplayBatch(rows, k);
      assert batch == prefix + (if last.id > k then [ChatOf(last)] else []);
      forall p, q | 0 <= p < q < |batch|
        ensures batch[p].Chat? && batch[q].Chat? && batch[p].id < batch[q].id
      {
        assert batch[p] == prefix[p];
        if q < |prefix| {
          assert batch[q] == prefix[q];
        } else {
          assert batch[q] == ChatOf(last);
          assert prefix[p].id < last.id;
        }
      }
    }
  }

  /** Without an offset, or with the falsy offset 0, replay sends every stored row of a valid table. */
  lemma {:induction false} ReplayFromStart(log: Log, serverOffset: Option<int>)
    requires Valid(log)
    requires serverOffset == None || serverOffset == Some(0)
    ensures |ReplayBatch(log.rows, EffectiveOffset(serverOffset))| == |log.rows|
    ensures forall i :: 0 <= i < |log.rows| ==> ChatOf(log.rows[i]) in ReplayBatch(log.rows, EffectiveOffset(serverOffset))
    decreases |log.rows|
  {
    if log.rows != [] {
      var init := log.rows[..|log.rows| - 1];
      assert forall j :: 0 <= j < |init| ==> init[j] == log.rows[j];
      ReplayFromStart(Log(init, log.nextId), serverOffset);
    }
  }
}
