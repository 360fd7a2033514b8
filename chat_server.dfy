/**
 * The per-connection handlers of the chat server, over one in-memory copy of
 * the `messages` table and one outbox per socket (every event the server has
 * sent to that socket on its current connection, in sending order).
 */
module ChatServer {

  import opened Wrappers
  import opened MessageLog
  import opened Protocol
  import opened Replay
  import opened Resume

  /** Whether the `chat message` handler calls the client's ack callback after an insert ends in `o`. */
  function Acked(o: AppendOutcome): (acked: bool)
    // acknowledged after a new row and after a duplicate-token refusal; not after any other error
    ensures acked <==> o.Inserted? || o.Duplicate?
  {
    !o.StorageFailure?
  }

  /** `e` appended to the outbox of every socket in `targets`; the other outboxes as they were. */
  function Fanout(outbox: map<SessionId, seq<Event>>, targets: set<SessionId>, e: Event): (r: map<SessionId, seq<Event>>)
    ensures r.Keys == outbox.Keys
    ensures forall s :: s in r ==> r[s] == if s in targets then outbox[s] + [e] else outbox[s]
  {
    map s | s in outbox :: if s in targets then outbox[s] + [e] else outbox[s]
  }

  /** How a socket was replayed completely: the number of rows the table held then, and the offset used. */
  datatype ReplayMark = ReplayMark(start: nat, offset: int)

  class Server {
    // the messages table, its UNIQUE index on client_offset, and the AUTOINCREMENT counter
    var rows: seq<Row>
    var tokens: set<string>
    var nextId: int
    // the sockets currently connected, what each socket has been sent,
    // and the sockets whose `self` once-listener has already fired
    var connected: set<SessionId>
    var outbox: map<SessionId, seq<Event>>
    var joined: set<SessionId>
    // the connected sockets whose connect-time replay ran to completion
    ghost var synced: map<SessionId, ReplayMark>

    ghost function Table(): Log
      reads this`rows, this`nextId
    {
      Log(rows, nextId)
    }

    /** The table satisfies its schema and the index holds exactly the stored tokens. */
    ghost predicate TableValid()
      reads this`rows, this`tokens, this`nextId
    {
      MessageLog.Valid(Table()) && tokens == TokensOf(rows)
    }

    /**
     * Every socket replayed completely has been sent, as chat messages, its
     * replay followed by every row stored since: nothing missed, nothing twice.
     */
    ghost predicate SyncedWith(table: seq<Row>)
      reads this`outbox, this`synced
    {
      forall s :: s in synced && s in outbox ==> InSync(table, outbox[s], synced[s].start, synced[s].offset)
    }

    ghost predicate SessionsValid()
      reads this`rows, this`connected, this`outbox, this`synced
    {
      && connected <= outbox.Keys
      && synced.Keys <= connected
      && SyncedWith(rows)
    }

    ghost predicate Valid()
      reads this
    {
      TableValid() && SessionsValid()
    }

    /** Start-up over the table as `CREATE TABLE IF NOT EXISTS` finds it, with no socket connected. */
    constructor (existing: Log)
      requires MessageLog.Valid(existing)
      ensures Valid()
      ensures Table() == existing
      ensures connected == {} && outbox == map[] && joined == {}
    {
      rows, nextId := existing.rows, existing.nextId;
      tokens := TokensOf(existing.rows);
      connected, outbox, joined := {}, map[], {};
      synced := map[];
    }

    /**
     * A new connection. Its `self` once-listener is fresh. Unless the transport
     * recovered the session, the socket is sent the stored rows with id above
     * `serverOffset || 0`, as far as the scan gets before a failure.
     */
    method Connect(sid: SessionId, recovered: bool, serverOffset: Option<int>, failAfter: Option<nat>)
      requires Valid() && sid !in connected
      modifies this`connected, this`outbox, this`joined, this`synced
      ensures Valid()
      ensures Table() == old(Table()) && tokens == old(tokens)
      ensures connected == old(connected) + {sid}
      ensures joined == old(joined) - {sid}
      ensures outbox == old(outbox)[sid :=
        if recovered then [] else Emitted(ReplayBatch(rows, EffectiveOffset(serverOffset)), failAfter)]
      ensures synced ==
        if !recovered && outbox[sid] == ReplayBatch(rows, EffectiveOffset(serverOffset))
        then old(synced)[sid := ReplayMark(|rows|, EffectiveOffset(serverOffset))]
        else old(synced)
    {
      var k := EffectiveOffset(serverOffset);
      var sent: seq<Event> := [];
      if !recovered {
        sent := ReplayScan(rows, k, failAfter);
      }
      connected, joined := connected + {sid}, joined - {sid};
      Deliver(sid, sent, !recovered && sent == ReplayBatch(rows, k), k);
    }

    /** Gives a newly connected socket `sid` its replay `sent`, which is complete when `whole` holds. */
    method Deliver(sid: SessionId, sent: seq<Event>, ghost whole: bool, ghost k: int)
      requires sid !in synced && SyncedWith(rows)
      requires whole ==> sent == ReplayBatch(rows, k)
      modifies this`outbox, this`synced
      ensures outbox == old(outbox)[sid := sent]
      ensures synced == if whole then old(synced)[sid := ReplayMark(|rows|, k)] else old(synced)
      ensures SyncedWith(rows)
    {
      outbox := outbox[sid := sent];
      if whole {
        InSyncAfterReplay(rows, k);
        synced := synced[sid := ReplayMark(|rows|, k)];
      }
    }

    /**
     * A `self` event carrying `nickname`. Only the first one on a connection is
     * handled: it sends the announcement to every other connected socket.
     */
    method Self(sid: SessionId, nickname: string) returns (announced: bool)
      requires Valid() && sid in connected
      modifies this`joined, this`outbox
      ensures Valid()
      ensures Table() == old(Table()) && tokens == old(tokens) && connected == old(connected)
      ensures announced <==> sid !in old(joined)
      ensures joined == old(joined) + {sid}
      ensures outbox.Keys == old(outbox).Keys
      ensures forall s :: s in outbox ==>
        outbox[s] == if announced && s in connected && s != sid
                     then old(outbox[s]) + [UserConnected(JoinAnnouncement(nickname))]
                     else old(outbox[s])
    {
      announced := sid !in joined;
      if announced {
        joined := joined + {sid};
        Announce(connected - {sid}, JoinAnnouncement(nickname));
      }
    }

    /** `socket.broadcast.emit('user connected', text)` to the sockets `others`. */
    method Announce(others: set<SessionId>, text: string)
      requires SyncedWith(rows)
      modifies this`outbox
      ensures outbox == Fanout(old(outbox), others, UserConnected(text))
      ensures SyncedWith(rows)
    {
      ghost var sentBefore := outbox;
      outbox := Fanout(outbox, others, UserConnected(text));
      forall s | s in synced && s in outbox
        ensures InSync(rows, outbox[s], synced[s].start, synced[s].offset)
      {
        if s in others {
          InSyncAfterAnnouncement(rows, sentBefore[s], synced[s].start, synced[s].offset, text);
        }
      }
    }

    /**
     * `db.run('INSERT INTO messages ...')`: the table changes as Append says,
     * and nothing outside the table changes.
     */
    method Insert(content: string, token: Token, fault: bool) returns (outcome: AppendOutcome)
      requires TableValid()
      modifies this`rows, this`tokens, this`nextId
      ensures TableValid()
      ensures (Table(), outcome) == Append(old(Table()), content, token, fault)
      ensures outcome.Inserted? ==> rows == old(rows) + [Row(outcome.id, token, content)]
      ensures !outcome.Inserted? ==> rows == old(rows)
    {
      if fault || nextId > MAX_ROW_ID {
        return StorageFailure;
      }
      if token.Some? && token.value in tokens {
        return Duplicate;
      }
      AppendFresh(Table(), content, token, fault);
      outcome := Inserted(nextId);
      rows := rows + [Row(nextId, token, content)];
      tokens := tokens + (if token.Some? then {token.value} else {});
      nextId := nextId + 1;
    }

    /**
     * A `chat message` event with `content` and the client's dedup token.
     * The insert's outcome decides the effects: a new row is sent to every
     * connected socket, the sender included, and acknowledged; a duplicate is
     * only acknowledged; a storage failure has no effect at all.
     */
    method ChatMessage(sid: SessionId, content: string, token: Token, fault: bool)
      returns (outcome: AppendOutcome, acked: bool)
      requires Valid() && sid in connected
      modifies this`rows, this`tokens, this`nextId, this`outbox
      ensures Valid()
      ensures (Table(), outcome) == Append(old(Table()), content, token, fault)
      ensures acked == Acked(outcome)
      ensures outbox.Keys == old(outbox).Keys
      ensures forall s :: s in outbox ==>
        outbox[s] == if outcome.Inserted? && s in connected
                     then old(outbox[s]) + [Chat(content, outcome.id)]
                     else old(outbox[s])
    {
      ghost var rowsBefore := rows;
      outcome := Insert(content, token, fault);
      if outcome.Inserted? {
        Broadcast(rowsBefore, Row(outcome.id, token, content));
      }
      acked := Acked(outcome);
    }

    /**
     * A client sending the same message twice under token `t`, as it does when
     * an acknowledgement is lost and it retries, against a healthy store: both
     * attempts are acknowledged, the table holds one row with `t`, and the
     * message reaches each connected socket at most once.
     */
    method Resubmit(sid: SessionId, content: string, t: string) returns (acks: nat)
      requires Valid() && sid in connected && nextId < MAX_ROW_ID
      modifies this`rows, this`tokens, this`nextId, this`outbox
      ensures Valid()
      ensures acks == 2
      ensures Table() == Append(old(Table()), content, Some(t), false).0
      ensures CountToken(rows, t) == 1
      ensures |rows| == old(|rows|) + (if t in old(tokens) then 0 else 1)
      ensures outbox.Keys == old(outbox).Keys
      ensures forall s :: s in outbox ==>
        outbox[s] == if t !in old(tokens) && s in connected
                     then old(outbox[s]) + [Chat(content, old(nextId))]
                     else old(outbox[s])
    {
      ghost var before := Table();
      var first, acked1 := ChatMessage(sid, content, Some(t), false);
      var second, acked2 := ChatMessage(sid, content, Some(t), false);
      ResubmitIsIdempotent(before, content, content, t);
      acks := (if acked1 then 1 else 0) + (if acked2 then 1 else 0);
    }

    /** The `io.emit` of a newly stored `row` to every connected socket. */
    method Broadcast(ghost rowsBefore: seq<Row>, row: Row)
      requires TableValid() && rows == rowsBefore + [row]
      requires connected <= outbox.Keys && synced.Keys <= connected && SyncedWith(rowsBefore)
      modifies this`outbox
      ensures Valid()
      ensures outbox.Keys == old(outbox).Keys
      ensures forall s :: s in outbox ==>
        outbox[s] == if s in connected then old(outbox[s]) + [Chat(row.content, row.id)] else old(outbox[s])
    {
      ghost var sentBefore := outbox;
      outbox := Fanout(outbox, connected, ChatOf(row));
      forall s | s in synced && s in outbox
        ensures InSync(rows, outbox[s], synced[s].start, synced[s].offset)
      {
        InSyncAfterInsert(rowsBefore, sentBefore[s], synced[s].start, synced[s].offset, row);
      }
    }

    /** The socket goes away; the handler only logs, so nothing but the connection set changes. */
    method Disconnect(sid: SessionId)
      requires Valid() && sid in connected
      modifies this`connected, this`synced
      ensures Valid()
      ensures Table() == old(Table()) && tokens == old(tokens)
      ensures outbox == old(outbox) && joined == old(joined)
      ensures connected == old(connected) - {sid}
      ensures synced == old(synced) - {sid}
    {
      connected := connected - {sid};
      synced := synced - {sid};
    }
  }
}
