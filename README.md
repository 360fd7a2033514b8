# Chat server: deduplicating message log and per-connection event rules

This project models the core of a Socket.IO chat server backed by SQLite (`index.js`).
The model has three parts:

- **The `messages` table.** It has an `INTEGER PRIMARY KEY AUTOINCREMENT` id and a `TEXT UNIQUE` `client_offset` column, which holds the client's dedup token. The table is modelled as a sequence of rows plus the AUTOINCREMENT counter.
- **The handlers a connection runs.** These are: the `self` once-listener that announces a nickname, the `chat message` handler that inserts, broadcasts and acknowledges, the connect-time replay of stored rows for sockets whose state was not recovered, and the `disconnect` handler.
- **The resume guarantee.** Take a socket that was replayed completely. Every new row is also sent to it live, whatever its offset. So, as long as every row stored since it connected has an id above its offset, it has been sent exactly the table replayed from that offset: every row once, nothing twice. This holds whenever the offset it declared was not ahead of the table. An offset ahead of the table breaks it: live rows at or below that offset are still sent. A client that reconnects with the id of the last row it saw is replayed exactly the rows it missed.

Modules:

- `Wrappers` defines `Option`.
- `MessageLog` holds the table as a value (`Log`). `Append` is the `INSERT` with its three outcomes: `Inserted(id)`, `Duplicate` (the errno-19 UNIQUE violation) and `StorageFailure`. The module also has the schema invariant and the deduplication lemmas. A token is `Option<string>`: SQLite never considers two NULLs equal under UNIQUE, so only present tokens are deduplicated.
- `Protocol` defines the events a socket receives (`chat message` with content and id, `user connected` with a text) and the announcement text.
- `Replay` covers the `SELECT ... WHERE id > ?` replay:
  - the batch a complete scan emits;
  - the scan loop, `ReplayScan`;
  - a scan that fails part-way, modelled by `failAfter`;
  - exact-once and ordering lemmas.
- `Resume` states when a socket's received chat messages equal a replay of the table, and how inserts and announcements preserve that.
- `ChatServer` holds the class `Server`. Its fields are the table, the UNIQUE index, the counter, the connected sockets, one outbox per socket and the set of sockets whose `self` listener has fired. Its methods are the handlers. A socket's outbox is every event sent to it on its current connection, in order.

The source leaves some things to its environment. The model takes them as parameters:

- whether the storage engine fails (`fault`);
- whether Socket.IO recovered the session (`recovered`);
- the handshake's `serverOffset`;
- after how many rows a replay scan fails (`failAfter`).

Each handler is one atomic step.

Who receives a new chat message: the `chat message` handler sends the stored row with `io.emit` (index.js:82), which reaches every connected socket, the sender included. Not sending the message back to its sender is still an open item on the TODO list at index.js:17. The model follows the code: `ChatServer.Server.ChatMessage` appends the new message to the sender's outbox too. The `user connected` announcement is different: it uses `socket.broadcast.emit` (index.js:61), which skips the sender, and the model skips the sender there.

The `SELECT` has no `ORDER BY`. The model scans rows in rowid order, which is how SQLite scans a rowid table without an index. That order is an assumption of the model. These members depend on it, because they state sequences of events, or which rows a failed scan has already sent:

- `Replay.ReplayScan` and `Replay.ReplayBatchConcat`;
- `Replay.ReplayAscending`;
- `Replay.Emitted`, which keeps the first rows of the batch;
- the outbox in `ChatServer.Server.Connect`;
- the sequence equalities in `Resume`.

These members do not depend on it, because they state membership and multiplicity only:

- `Replay.ReplayBatch` and `Replay.ReplayExactlyOnce`;
- `Replay.PartialReplaySound` and `Replay.PartialReplayAtMostOnce`, for a scan that stops part-way;
- `Replay.ReplayFromStart`.

## Model

| member | source | states |
|---|---|---|
| MessageLog.Append | index.js:68-79 | The insert fails with a storage error exactly when the engine faults or the AUTOINCREMENT space is used up. A failure or a duplicate leaves the table unchanged. An insert appends exactly one row carrying the given token and content, and keeps every earlier row. |
| MessageLog.DuplicateIffTokenStored | index.js:68-76 | On a healthy store, an insert is refused as a duplicate if and only if some stored row carries the same non-NULL token. A missing token is never a duplicate. |
| MessageLog.AppendKeepsValid | index.js:39-43 | Every insert outcome keeps the schema invariant. A new id is strictly larger than every stored id, so ids are never reused, and the next insert gets the following id. |
| MessageLog.AppendFresh | index.js:68-72 | An insert whose token is unused stores its row under the next id, keeps the table valid and adds the token to the UNIQUE index. |
| MessageLog.TokensOfMembers | index.js:41 | A token is in the UNIQUE index exactly when some stored row carries it. |
| MessageLog.IdsIncreasingPairs | index.js:40 | AUTOINCREMENT order: of any two stored rows, the later one has the larger id. |
| MessageLog.TokensDistinctPairs | index.js:41 | The UNIQUE constraint in its pairwise form: no two stored rows share a non-NULL token. |
| MessageLog.CountTokenDistinct | index.js:41 | Under the UNIQUE constraint, a non-NULL token occurs in exactly one row when it is in use, and in none otherwise. |
| MessageLog.ResubmitIsIdempotent | index.js:64-85 | Inserting the same token twice, with no storage fault on either attempt and at least two ids left (`nextId < MAX_ROW_ID`), behaves as follows. The first insert succeeds exactly when the token was unused. The second is a duplicate and changes nothing. Afterwards exactly one row carries the token. |
| Replay.EffectiveOffset | index.js:91 | The JavaScript default for the handshake offset: a present non-zero offset is used as given, and a missing or zero offset becomes 0. |
| Replay.ChatOf | index.js:93 | A row is replayed as a `chat message` carrying its content and its id. |
| Replay.ReplayBatch | index.js:89-95 | A complete scan emits at most one event per row. It emits the `chat message` of a row if and only if that row's id is above the offset, so it never emits a row at or below the offset. |
| Replay.PartialReplaySound | index.js:88-99 | Wherever a failing scan stops, every event it has sent is the `chat message` of a stored row whose id is above the offset. |
| Replay.PartialReplayAtMostOnce | index.js:88-99 | With increasing ids, a scan that stops part-way has sent each event at most once. |
| Replay.ReplayBatchConcat | index.js:89-95 | Scanning two stretches of the table in turn emits the two batches in turn. |
| Replay.ReplayScan | index.js:87-99 | The `db.each` loop emits exactly the complete batch for the offset, cut short where the scan fails. |
| Replay.ReplayExactlyOnce | index.js:89-95 | In a valid table, every stored row above the offset occurs exactly once in the replay. |
| Replay.ReplayAscending | index.js:89-93 | Assuming the rowid scan order, replayed events carry strictly ascending ids. |
| Replay.ReplayFromStart | index.js:91 | A missing or falsy (0) offset replays every stored row: the batch is as long as the table and contains each row. |
| Resume.InSyncAfterReplay | index.js:87-95 | Right after a complete replay, the socket's chat messages are that replay. |
| Resume.InSyncAfterInsert | index.js:82 | The live `io.emit` of a newly stored row keeps a socket in sync with the table. |
| Resume.InSyncAfterAnnouncement | index.js:61 | A `user connected` event is not a chat message, so it does not disturb the sync. |
| Resume.ReplayAllAbove | index.js:89-93 | Rows that all lie above the offset are replayed in full, one event per row, in order. |
| Resume.ReplayNoneAbove | index.js:89-93 | Rows that all lie at or below the offset replay as nothing. |
| Resume.InSyncIsExactResume | index.js:82-95 | Suppose a socket is in sync and every row stored since its connection lies above its offset. Then its chat messages equal the whole table replayed from that offset: every row above it, once and in order. |
| Resume.ResumeFromLastSeen | index.js:87-95 | A client that reconnects giving the id of the m-th row as its offset is replayed exactly the rows stored after that row, in order. |
| ChatServer.Acked | index.js:73-84 | The ack callback runs after a new row and after a duplicate-token refusal, and after no other outcome. |
| Protocol.JoinAnnouncement | index.js:61 | The announcement is the nickname followed by ` has joined the chat!`. |
| Protocol.JoinAnnouncementNamesUser | index.js:61 | Different nicknames give different announcements. |
| ChatServer.Server.constructor | index.js:33-44 | Start-up over an existing valid table: no socket is connected and the invariant holds. |
| ChatServer.Server.Connect | index.js:59-100 | The table is not modified. The socket joins the connected set with a fresh `self` listener. Its outbox is empty when the session was recovered, and otherwise holds the replay for the offset (0 when missing or falsy), cut short at a scan failure. A complete replay marks the socket as in sync. |
| ChatServer.Server.Deliver | index.js:93 | The replay becomes the new socket's outbox, and the other sockets stay in sync. |
| ChatServer.Server.Self | index.js:60-62 | Only the first `self` event of a connection announces. The announcement `<nickname> has joined the chat!` reaches every other connected socket and never the sender. The table is not modified. |
| ChatServer.Server.Announce | index.js:61 | The announcement is appended to the outboxes of the other sockets, and every socket stays in sync. |
| ChatServer.Server.Insert | index.js:68-72 | The in-place insert changes the table exactly as `Append` does and keeps the index equal to the stored tokens. |
| ChatServer.Server.ChatMessage | index.js:64-85 | The table changes as `Append` says. The ack runs unless the insert failed for a reason other than a duplicate. A new row's `chat message` with its id goes to every connected socket, the sender included. A duplicate or a failure sends nothing. |
| ChatServer.Server.Broadcast | index.js:82 | The new row's `chat message` is appended to every connected socket's outbox, and every socket stays in sync with the grown table. |
| ChatServer.Server.Resubmit | index.js:64-85 | A client sends the same message twice under one token, with no storage fault on either attempt and at least two ids left. It gets two acks. The table is exactly what one `Append` of the message makes of the old table, so the old rows are kept and the token's row is new exactly when the token was not yet in use. One row carries the token. The message reaches each connected socket at most once, and exactly once when the token was new. |
| ChatServer.Server.Disconnect | index.js:102-104 | Only the connected set changes: the table and the outboxes stay as they were. |

## Left out

- HTTP serving (the Express route for the static page, and `server.listen`): this is I/O plumbing with no state of the core.
- Clustering: the forking branch is dead code under `if (false)`, and the cluster adapter is commented out. The model has one server process.
- Socket.IO internals: transport, reconnection, and the redelivery that connection-state recovery performs. `recovered` and `serverOffset` are inputs. A recovered socket's outbox starts empty, because what the library redelivers is not modelled.
- Concurrency and async interleaving are not modelled. Examples are live broadcasts arriving while a replay is in progress, and two concurrent inserts with the same token. Every handler is one atomic step.
- Logging (`console.error`, `console.log`) is output only.
- The TODO features (typing indicator, online list, private messages, sender exclusion for chat messages) are not implemented in the source.
- ChatServer.Server.Connect: when a replay fails, the source's `return` also skips registering the `disconnect` listener. The model still lets such a socket disconnect. The only difference is a log line.
- ChatServer.Server.ChatMessage: the model assumes the client passes an ack callback. Without one, the source's `callback()` throws inside the handler, and that is not modelled.
- Replay.EffectiveOffset: only integer offsets are modelled. A string or other JavaScript value in `serverOffset` would go through SQLite type affinity in the comparison, and that is not modelled.
- Replay.ReplayAscending: the order holds under the assumed rowid scan order. The query itself has no `ORDER BY`.
- ChatServer.Server.SessionsValid tracks only sockets whose replay ran to completion. A recovered socket, or one whose scan failed, is not claimed to be in sync.
- MessageLog.Append: the content column is `TEXT` and is stored as given. SQLite type conversions of non-string contents are not modelled.
- MessageLog.Append: a token is modelled as a string or NULL only. The source binds `clientOffset` as it arrives, and SQLite's TEXT affinity on `client_offset` converts a number to text, so a numeric token can collide with the matching string token. That conversion is not modelled. Neither is the driver's UTF-8 encoding of JavaScript strings: a string with a lone surrogate cannot be represented here, and two such strings can encode to the same key. `MessageLog.DuplicateIffTokenStored` is exact for string tokens only.
- MessageLog.ResubmitIsIdempotent and ChatServer.Server.Resubmit: these promise two acks only while at least two ids are left. At the last free id (`nextId == MAX_ROW_ID`), a fresh token's first attempt is inserted under that id. The retry then fails with a storage error (the id space is used up, which SQLite reports before it checks the UNIQUE index), so the retry gets no ack.
- Replay.ChatOf: ids are carried as exact integers up to 2^63-1. The source emits `result.lastID` and `row.id` as JavaScript numbers, which are exact only up to 2^53. Above that, a client receives a rounded id and may send it back as `serverOffset`, so the `id > ?` replay can repeat or skip rows. `Resume.InSyncIsExactResume` and `Resume.ResumeFromLastSeen` hold only for ids up to 2^53.
- ChatServer.Server.Self: the nickname is modelled as a string. A `self` event with no argument, or with a non-string one, is announced through JavaScript's template conversion (for example `undefined has joined the chat!`), and that conversion is not modelled.
