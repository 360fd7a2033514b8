/**
 * The `messages` table of the chat server: rows with an AUTOINCREMENT integer
 * id, a UNIQUE client token (`client_offset`) and the message content, held
 * in rowid order together with the AUTOINCREMENT counter.
 */
module MessageLog {

  import opened Wrappers

  /** The largest rowid SQLite can store (a signed 64-bit integer). */
  const MAX_ROW_ID: int := 0x7FFF_FFFF_FFFF_FFFF

  /** The `client_offset` column. `None` is SQL NULL, and NULLs never collide under UNIQUE. */
  type Token = Option<string>

  datatype Row = Row(id: int, token: Token, content: string)

  /** How an `INSERT INTO messages` ends: a new row, the UNIQUE violation (errno 19), or any other error. */
  datatype AppendOutcome = Inserted(id: int) | Duplicate | StorageFailure

  /**
   * The table: its rows in rowid order, and the id the next insert is given
   * (one more than the largest id ever handed out, as sqlite_sequence records it).
   */
  datatype Log = Log(rows: seq<Row>, nextId: int)

  /** The non-NULL tokens stored in `rows`: the contents of the UNIQUE index on `client_offset`. */
  function TokensOf(rows: seq<Row>): set<string>
  {
    if rows == [] then {}
    else
      var last := rows[|rows| - 1];
      TokensOf(rows[..|rows| - 1]) + (if last.token.Some? then {last.token.value} else {})
  }

  /** A token is in the index exactly when some row carries it. */
  lemma {:induction false} TokensOfMembers(rows: seq<Row>, t: string)
    ensures t in TokensOf(rows) <==> exists i :: 0 <= i < |rows| && rows[i].token == Some(t)
  {
    if rows != [] {
      var init := rows[..|rows| - 1];
      assert forall i :: 0 <= i < |init| ==> init[i] == rows[i];
      TokensOfMembers(init, t);
    }
  }

  /** Appending a row adds its token, if it has one, to the index. */
  lemma TokensOfSnoc(rows: seq<Row>, row: Row)
    ensures TokensOf(rows + [row]) == TokensOf(rows) + (if row.token.Some? then {row.token.value} else {})
  {
    assert (rows + [row])[..|rows|] == rows;
  }

  /** The number of rows whose token is `Some(t)`. */
  function CountToken(rows: seq<Row>, t: string): (n: nat)
    ensures n <= |rows|
  {
    if rows == [] then 0
    else CountToken(rows[..|rows| - 1], t) + (if rows[|rows| - 1].token == Some(t) then 1 else 0)
  }

  /** Every row's id is larger than the ids of all rows stored before it. */
  ghost predicate IdsIncreasing(rows: seq<Row>)
  {
    rows == [] ||
    var init := rows[..|rows| - 1];
    && IdsIncreasing(init)
    && forall i :: 0 <= i < |init| ==> init[i].id < rows[|rows| - 1].id
  }

  /** The recursive definition gives the pairwise order. */
  lemma {:induction false} IdsIncreasingPairs(rows: seq<Row>)
    requires IdsIncreasing(rows)
    ensures forall i, j :: 0 <= i < j < |rows| ==> rows[i].id < rows[j].id
  {
    if rows != [] {
      var init := rows[..|rows| - 1];
      IdsIncreasingPairs(init);
      assert forall i :: 0 <= i < |init| ==> init[i] == rows[i];
    }
  }

  /** No row carries a non-NULL token already carried by a row stored before it. */
  ghost predicate TokensDistinct(rows: seq<Row>)
  {
    rows == [] ||
    var init, last := rows[..|rows| - 1], rows[|rows| - 1];
    && TokensDistinct(init)
    && (last.token.Some? ==> last.token.value !in TokensOf(init))
  }

  /** The recursive definition gives the pairwise form of the UNIQUE constraint. */
  lemma {:induction false} TokensDistinctPairs(rows: seq<Row>)
    requires TokensDistinct(rows)
    ensures forall i, j :: 0 <= i < j < |rows| && rows[i].token.Some? ==> rows[i].token != rows[j].token
  {
    if rows != [] {
      var init, last := rows[..|rows| - 1], rows[|rows| - 1];
      TokensDistinctPairs(init);
      assert forall i :: 0 <= i < |init| ==> init[i] == rows[i];
      if last.token.Some? {
        TokensOfMembers(init, last.token.value);
      }
    }
  }

  /**
   * What the schema guarantees of the table: ids are positive, strictly
   * increasing in rowid order and below the counter, the counter has not
   * passed the largest rowid, and no two rows share a non-NULL token.
   */
  ghost predicate Valid(log: Log)
  {
    && IdsIncreasing(log.rows)
    && TokensDistinct(log.rows)
    && 1 <= log.nextId <= MAX_ROW_ID + 1
    && forall i :: 0 <= i < |log.rows| ==> 1 <= log.rows[i].id < log.nextId
  }

  /**
   * `INSERT INTO messages (content, client_offset) VALUES (content, token)`.
   * `fault` stands for any error of the storage engine other than a constraint
   * violation. Once the counter has passed MAX_ROW_ID, AUTOINCREMENT refuses
   * every insert (SQLITE_FULL); the new rowid is chosen before the UNIQUE
   * index is consulted, so that refusal comes before the duplicate check.
   */
  function Append(log: Log, content: string, token: Token, fault: bool): (r: (Log, AppendOutcome))
    ensures r.1.StorageFailure? <==> fault || log.nextId > MAX_ROW_ID
    // a failed insert, duplicate or not, changes nothing
    ensures !r.1.Inserted? ==> r.0 == log
    // an insert adds exactly one row at the end, with the given token and content, and keeps the old rows
    ensures r.1.Inserted? ==>
      && |r.0.rows| == |log.rows| + 1
      && r.0.rows[..|log.rows|] == log.rows
      && r.0.rows[|log.rows|] == Row(r.1.id, token, content)
  {
    if fault || log.nextId > MAX_ROW_ID then (log, StorageFailure)
    else if token.Some? && token.value in TokensOf(log.rows) then (log, Duplicate)
    else (Log(log.rows + [Row(log.nextId, token, content)], log.nextId + 1), Inserted(log.nextId))
  }

  /**
   * An insert that neither fails nor runs out of ids is a duplicate exactly
   * when some stored row already carries the same non-NULL token; a NULL token
   * is never a duplicate.
   */
  lemma {:induction false} DuplicateIffTokenStored(log: Log, content: string, token: Token)
    requires log.nextId <= MAX_ROW_ID
    ensures Append(log, content, token, false).1.Duplicate? <==>
      exists i :: 0 <= i < |log.rows| && log.rows[i].token.Some? && log.rows[i].token == token
  {
    if token.Some? {
      TokensOfMembers(log.rows, token.value);
    }
  }

  /**
   * Every insert keeps the table valid; a new id is larger than every stored
   * id (so ids are never reused), and the next insert gets the following id.
   */
  lemma AppendKeepsValid(log: Log, content: string, token: Token, fault: bool)
    requires Valid(log)
    ensures var (after, outcome) := Append(log, content, token, fault);
      && Valid(after)
      && (outcome.Inserted? ==>
            && (forall i :: 0 <= i < |log.rows| ==> log.rows[i].id < outcome.id)
            && after.nextId == outcome.id + 1)
  {
    var (after, outcome) := Append(log, content, token, fault);
    if outcome.Inserted? {
      var row := Row(log.nextId, token, content);
      assert after.rows == log.rows + [row];
      assert forall i :: 0 <= i < |log.rows| ==> after.rows[i] == log.rows[i];
      if token.Some? {
        TokensOfMembers(log.rows, token.value);
      }
    }
  }

  /** An insert that neither fails nor collides appends one row under the next id and keeps the table valid. */
  lemma AppendFresh(log: Log, content: string, token: Token, fault: bool)
    requires Valid(log) && !fault && log.nextId <= MAX_ROW_ID
    requires token.Some? ==> token.value !in TokensOf(log.rows)
    ensures var after := Log(log.rows + [Row(log.nextId, token, content)], log.nextId + 1);
      && Append(log, content, token, fault) == (after, Inserted(log.nextId))
      && Valid(after)
      && TokensOf(after.rows) == TokensOf(log.rows) + (if token.Some? then {token.value} else {})
  {
    TokensOfSnoc(log.rows, Row(log.nextId, token, content));
    AppendKeepsValid(log, content, token, fault);
  }

  /** Under the UNIQUE constraint a non-NULL token is stored at most once, and exactly once when it is in use. */
  lemma {:induction false} CountTokenDistinct(rows: seq<Row>, t: string)
    requires TokensDistinct(rows)
    ensures CountToken(rows, t) == if t in TokensOf(rows) then 1 else 0
  {
    if rows != [] {
      var init := rows[..|rows| - 1];
      assert forall i :: 0 <= i < |init| ==> init[i] == rows[i];
      CountTokenDistinct(init, t);
      if rows[|rows| - 1].token == Some(t) {
        TokensOfMembers(init, t);
      }
    }
  }

  /**
   * Submitting the same token twice (the second time with any content) while
   * the id space is not exhausted stores one row with that token: the second
   * insert is a duplicate that changes nothing, and the first inserts exactly
   * when the token was not in use before.
   */
  lemma ResubmitIsIdempotent(log: Log, content: string, again: string, t: string)
    requires Valid(log) && log.nextId < MAX_ROW_ID
    ensures
      var (l1, o1) := Append(log, content, Some(t), false);
      var (l2, o2) := Append(l1, again, Some(t), false);
      && (o1.Inserted? <==> t !in TokensOf(log.rows))
      && o1 != StorageFailure
      && o2 == Duplicate && l2 == l1
      && CountToken(l2.rows, t) == 1
  {
    var (l1, o1) := Append(log, content, Some(t), false);
    AppendKeepsValid(log, content, Some(t), false);
    if o1.Inserted? {
      TokensOfSnoc(log.rows, Row(log.nextId, Some(t), content));
    }
    CountTokenDistinct(l1.rows, t);
  }
}
