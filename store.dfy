/** The `mqtt_data` table and the per-message write path of `on_message`. */
module Store {
  import opened Rows
  import opened Retention
  import opened Message

  /** The database file as far as the handler can see it: whether the table has been
      created, and its rows in insertion order. */
  datatype Db = Db(created: bool, rows: seq<Row>)

  /** There are no rows without a table, and every stored value is a 64-bit integer. */
  predicate Consistent(db: Db) {
    (!db.created ==> db.rows == []) && forall r | r in db.rows :: RowFits(r)
  }

  /** Python's sqlite3 binds the ten INSERT parameters only when each is an integer in
      the 64-bit range; an array raises ProgrammingError, a larger integer raises
      OverflowError. */
  predicate Bindable(rd: Reading) {
    rd.ts.JInt? && rd.id.JInt? && FitsInt64(rd.ts.n) && FitsInt64(rd.id.n)
    && forall i | 0 <= i < |rd.values| :: FitsInt64(rd.values[i])
  }

  /** The row inserted for a reading whose parameters bind. */
  function NewRow(rd: Reading): (r: Row)
    requires Bindable(rd) && |rd.values| == ValueCount
    ensures Columns(r) == [rd.ts.n, rd.id.n] + rd.values
    ensures RowFits(r)
  {
    RowOf(rd.ts.n, rd.id.n, rd.values)
  }

  /** The DELETE runs and commits: the SQLite call succeeds and the cutoff binds
      (an unbindable cutoff raises OverflowError out of `delete_old_data`, which
      `on_message` catches after the insert was committed). */
  predicate EvictionRuns(now: int, evictOk: bool) {
    evictOk && FitsInt64(Cutoff(now))
  }

  /** Why a message was dropped after `conn` was bound: the store could not be opened
      (`connect_db` returned None), or the insert raised. */
  datatype DropReason = StoreUnavailable | InsertFailed

  /** How `on_message` ends for one message.
      - Stored: the row was inserted and committed
      - Dropped: the message was lost and the handler returned normally
      - Escaped: the failure was logged, then the `finally` clause read the unbound
        local `conn` and UnboundLocalError left the handler */
  datatype Outcome = Stored | Dropped(reason: DropReason) | Escaped(logged: Failure)

  datatype Effect = Effect(outcome: Outcome, db: Db)

  /** What handling one message does to the database. `storeOpens`, `insertOk` and
      `evictOk` say whether opening the store, the INSERT with its commit, and the
      DELETE with its commit succeed; `now` is the clock reading eviction uses. */
  function MessageStep(db: Db, p: Payload, now: int, storeOpens: bool, insertOk: bool, evictOk: bool): (e: Effect)
    requires Consistent(db)
    ensures Consistent(e.db)
    // A payload that fails validation escapes before the store is opened.
    ensures e.outcome.Escaped? <==> !WellFormed(p)
    ensures !WellFormed(p) ==> e.outcome == Escaped(Extract(p).error) && e.db == db
    // A store that does not open drops the message and changes nothing.
    ensures e.outcome == Dropped(StoreUnavailable) <==> WellFormed(p) && !storeOpens
    ensures e.outcome == Dropped(StoreUnavailable) ==> e.db == db
    // A failed insert drops the message; only the table creation remains.
    ensures e.outcome == Dropped(InsertFailed) <==>
              WellFormed(p) && storeOpens && !(insertOk && Bindable(Extract(p).value))
    ensures e.outcome == Dropped(InsertFailed) ==> e.db == Db(true, db.rows)
    // A stored message adds exactly its row, after which eviction runs.
    ensures e.outcome.Stored? <==>
              WellFormed(p) && storeOpens && insertOk && Bindable(Extract(p).value)
    ensures e.outcome.Stored? ==>
              var row := NewRow(Extract(p).value);
              e.db.created &&
              e.db.rows == if EvictionRuns(now, evictOk)
                           then Evict(db.rows, now) + Survivor(row, now)
                           else db.rows + [row]
    ensures e.outcome.Stored? && EvictionRuns(now, evictOk) ==>
              forall r | r in e.db.rows :: !Expired(r, now)
  {
    match Extract(p)
    case Err(failure) => Effect(Escaped(failure), db)
    case Ok(rd) =>
      if !storeOpens then Effect(Dropped(StoreUnavailable), db)
      else if !(insertOk && Bindable(rd)) then Effect(Dropped(InsertFailed), Db(true, db.rows))
      else
        var row := NewRow(rd);
        var inserted := db.rows + [row];
        EvictAppend(db.rows, row, now);
        EvictMembers(inserted, now);
        Effect(Stored, Db(true, if EvictionRuns(now, evictOk) then Evict(inserted, now) else inserted))
  }

  /** A reading `{ts: 1000, id: 1, data: [1..8]}` handled at time 1000 against a new
      database leaves exactly the row (1000, 1, 1, 2, 3, 4, 5, 6, 7, 8). */
  lemma FirstReading()
    ensures
      var p := Object(map["ts" := JInt(1000), "id" := JInt(1), "data" := JList([1, 2, 3, 4, 5, 6, 7, 8])]);
      MessageStep(Db(false, []), p, 1000, true, true, true)
        == Effect(Stored, Db(true, [Row(1000, 1, 1, 2, 3, 4, 5, 6, 7, 8)]))
  {
  }

  /** Retention is write-triggered: a row older than the window stays until the next
      stored message whose eviction runs, which removes it and keeps that message's
      own row when the latter is recent. */
  lemma StaleRowGoneAfterNextWrite(db: Db, stale: Row, p: Payload, now: int)
    requires Consistent(db) && stale in db.rows && Expired(stale, now)
    requires WellFormed(p) && Bindable(Extract(p).value) && FitsInt64(Cutoff(now))
    requires !Expired(NewRow(Extract(p).value), now)
    ensures
      var e := MessageStep(db, p, now, true, true, true);
      e.outcome == Stored && stale !in e.db.rows && NewRow(Extract(p).value) in e.db.rows
  {
  }

  /** The row just written is itself evicted when its own timestamp is outside the
      window; when eviction does not run it is the last row of the table. */
  lemma StaleReadingNotKept(db: Db, p: Payload, now: int, evictOk: bool)
    requires Consistent(db) && WellFormed(p) && Bindable(Extract(p).value)
    requires Expired(NewRow(Extract(p).value), now)
    ensures
      var e := MessageStep(db, p, now, true, true, evictOk);
      var row := NewRow(Extract(p).value);
      e.outcome == Stored &&
      (EvictionRuns(now, evictOk) ==> row !in e.db.rows) &&
      (!EvictionRuns(now, evictOk) ==> e.db.rows == db.rows + [row])
  {
  }

  /** The `mqtt_data` table in the file `mqtt_data.db`. */
  class MqttTable {
    var created: bool
    var rows: seq<Row>

    ghost function State(): Db
      reads this
    {
      Db(created, rows)
    }

    ghost predicate Valid()
      reads this
    {
      Consistent(State())
    }

    /** A fresh database file: no table yet. */
    constructor ()
      ensures Valid() && !created && rows == []
    {
      created := false;
      rows := [];
    }

    /** `connect_db`: open the file and CREATE TABLE IF NOT EXISTS. `opens` says
        whether both succeed; when they do not, nothing changes. Existing rows are
        never touched, so calling it again on an existing table is a no-op. */
    method EnsureSchema(opens: bool) returns (ok: bool)
      requires Valid()
      modifies this
      ensures Valid()
      ensures ok == opens
      ensures created == (old(created) || opens)
      ensures rows == old(rows)
    {
      if opens {
        created := true;
      }
      ok := opens;
    }

    /** The INSERT of the ten columns and its commit. `ok` says whether SQLite
        succeeds; parameters that do not bind fail regardless. */
    method Insert(rd: Reading, ok: bool) returns (inserted: bool)
      requires Valid() && created && |rd.values| == ValueCount
      modifies this
      ensures Valid() && created
      ensures inserted == (ok && Bindable(rd))
      ensures rows == if inserted then old(rows) + [NewRow(rd)] else old(rows)
    {
      inserted := ok && Bindable(rd);
      if inserted {
        rows := rows + [NewRow(rd)];
      }
    }

    /** `delete_old_data` at clock reading `now`: delete the rows with
        `timestamp < now - 86400` and commit. A failure leaves the rows as they were
        and is not reported to the caller. */
    method DeleteOld(now: int, ok: bool)
      requires Valid()
      modifies this
      ensures Valid() && created == old(created)
      ensures rows == if EvictionRuns(now, ok) then Evict(old(rows), now) else old(rows)
    {
      if EvictionRuns(now, ok) {
        EvictMembers(rows, now);
        rows := Evict(rows, now);
      }
    }
  }

  /** `on_message`: validate the payload, open the store, insert the row, then evict. */
  method HandleMessage(table: MqttTable, p: Payload, now: int, storeOpens: bool, insertOk: bool, evictOk: bool)
    returns (o: Outcome)
    requires table.Valid()
    modifies table
    ensures table.Valid()
    ensures Effect(o, table.State()) == MessageStep(old(table.State()), p, now, storeOpens, insertOk, evictOk)
  {
    var extracted := Extract(p);
    match extracted {
      case Err(failure) =>
        // An except clause logs the failure; `conn` was never bound, so the
        // finally clause's `if conn:` raises out of the handler.
        o := Escaped(failure);
      case Ok(rd) =>
        var connected := table.EnsureSchema(storeOpens);
        if !connected {
          o := Dropped(StoreUnavailable);
        } else {
          var inserted := table.Insert(rd, insertOk);
          if !inserted {
            o := Dropped(InsertFailed);
          } else {
            table.DeleteOld(now, evictOk);
            o := Stored;
          }
        }
    }
  }
}
