# Backup-Mqtt: the message write path, modelled in Dafny

Backup-Mqtt is a bridge from an MQTT topic to a local SQLite file. It subscribes to
the topic `test` once the broker acknowledges the connection. Each message it
receives is a JSON object `{ts, id, data}`, where `data` holds eight integers. The
message becomes one row `(timestamp, id, value1..value8)` of the table `mqtt_data`.
After every write, rows more than 24 hours older than the current clock reading are
deleted.

This project models that write path. The table is a class, `Store.MqttTable`, that
holds a sequence of ten-column integer rows. Its methods follow `connect_db`,
`delete_old_data` and the INSERT of `on_message`. `Store.HandleMessage` is
`on_message` itself, step by step. Its effect is specified by the function
`Store.MessageStep`, and the retention rule is the function `Retention.Evict`.
`Broker.Client.OnConnect` models the connect-acknowledgment callback.

Modules:
- `Rows` (rows.dfy): the row type, the column order and the 64-bit integer range.
- `Retention` (retention.dfy): the cutoff `now - 86400`, eviction, and lemmas about it.
- `Message` (message.dfy): the decoded payload and the extraction of `ts`, `id` and `data`.
- `Store` (store.dfy): the table class, the message handler and its specification.
- `Broker` (broker.dfy): subscribing on a successful connect acknowledgment.

Things outside the process become parameters. The clock reading `now` stands for
`int(time.time())`. The decoded payload replaces the JSON text. The flags
`storeOpens`, `insertOk` and `evictOk` say whether SQLite succeeds at each step.

How a message ends (`Store.Outcome`):
- `Stored`: the row was inserted and committed.
- `Dropped`: the store did not open, or the INSERT raised; the handler returns normally.
- `Escaped`: the payload failed validation before line 66 assigned `conn`. The
  exception is caught and logged, then the `finally` clause evaluates `if conn:` on
  the unbound local. That raises UnboundLocalError out of `on_message`. The model
  records only that the handler raises. It claims nothing about what the MQTT client
  does next.

Every failure before line 66 escapes the handler instead of being contained: a
decode error, a missing key, a non-object payload, and a `data` value that is not
eight elements.

Other behaviour of the code that the model keeps:
- Eviction runs after the insert, so the new row is deleted at once when its own `ts` is outside the window.
- A failed eviction does not undo the committed insert.
- The cutoff comparison is strict: a row with `timestamp == now - 86400` is kept.
- Python's sqlite3 refuses to bind an array or an integer outside the signed 64-bit range. Such a reading is dropped after the table has been created.
- A cutoff outside that range raises OverflowError inside `delete_old_data`. `on_message` catches it after the insert is committed, so the row stays and no eviction happens.

## Model

| member | source | states |
|---|---|---|
| `Rows.RowOf` | backup-mqtt.py:63-73 | the inserted row's ten columns are `ts`, `id`, then the eight `data` values in array order |
| `Retention.Evict` | backup-mqtt.py:33-35 | after eviction at `now`, no row has `timestamp < now - 86400`, and the table did not grow |
| `Retention.EvictCount` | backup-mqtt.py:33-35 | eviction deletes every copy of each row with `timestamp < now - 86400` and keeps every other row with its multiplicity, including a row whose timestamp equals the cutoff |
| `Retention.EvictMembers` | backup-mqtt.py:35 | a row is in the table after eviction iff it was in it before and is not older than the cutoff |
| `Retention.EvictConcat` | backup-mqtt.py:35 | the DELETE acts row by row: evicting `a + b` gives the survivors of `a` followed by the survivors of `b`, in order |
| `Retention.EvictAppend` | backup-mqtt.py:72-80 | evicting after appending a row gives the old survivors plus the new row, unless the new row is itself expired |
| `Retention.EvictNoop` | backup-mqtt.py:35 | eviction leaves the table unchanged exactly when no row is older than the cutoff |
| `Retention.EvictLater` | backup-mqtt.py:33-35 | evicting at `now1` and then at a later `now2` leaves the same rows as evicting once at `now2` |
| `Retention.EvictIdempotent` | backup-mqtt.py:33-35 | a second eviction at the same clock reading removes nothing more |
| `Message.Extract` | backup-mqtt.py:54-63 | extraction succeeds iff the payload is an object with `ts`, `id` and a `data` array of exactly eight values; otherwise it names the failure: a decode error, a non-object, the first missing key in the order `ts`, `id`, `data`, a non-array `data`, or the wrong element count |
| `Store.NewRow` | backup-mqtt.py:72-73 | the inserted row holds the reading's `ts`, `id` and values, in column order, and every column fits a 64-bit SQLite INTEGER |
| `Store.MessageStep` | backup-mqtt.py:50-91 | a payload that fails validation escapes and changes nothing. A store that does not open drops the message and changes nothing. A failed insert drops the message with the table created but no row added. A stored message adds its row before eviction: with eviction the table becomes the old survivors plus the new row unless that row is expired, and no row older than the cutoff remains; without eviction it is the old table plus the new row |
| `Store.FirstReading` | backup-mqtt.py:58-80 | `{ts: 1000, id: 1, data: [1..8]}` at time 1000 against a new file leaves exactly the row `(1000, 1, 1, 2, 3, 4, 5, 6, 7, 8)` |
| `Store.StaleRowGoneAfterNextWrite` | backup-mqtt.py:72-80 | an expired row is removed by the next stored message whose eviction runs, and that message's recent row is kept |
| `Store.StaleReadingNotKept` | backup-mqtt.py:72-80 | a reading older than the window is stored and then evicted at once; when eviction does not run, the table is the old table plus that row |
| `Store.MqttTable.constructor` | backup-mqtt.py:19 | a new database file has no table and no rows |
| `Store.MqttTable.EnsureSchema` | backup-mqtt.py:16-27 | opening the store reports success exactly when it opens, creates the table if absent, and never changes the rows; on an existing table it is a no-op |
| `Store.MqttTable.Insert` | backup-mqtt.py:72-74 | the insert succeeds iff SQLite succeeds and the parameters bind; on success exactly one row is appended, otherwise the rows are unchanged |
| `Store.MqttTable.DeleteOld` | backup-mqtt.py:30-39 | the rows become their eviction at `now` when the DELETE runs; on failure the rows are unchanged and nothing is reported |
| `Store.HandleMessage` | backup-mqtt.py:50-91 | the outcome and the new table are those of `MessageStep` on the old table, and the table stays consistent |
| `Broker.Client.constructor` | backup-mqtt.py:94 | a new client has no subscription and has issued no subscribe request |
| `Broker.Client.OnConnect` | backup-mqtt.py:42-47 | result code 0 subscribes to `test` (one more subscribe request); any other code leaves the subscription state and the requests unchanged |

## Left out

- The MQTT client library: `client.connect`, the unbounded retry loop with its 10-second sleep (backup-mqtt.py:100-109), `loop_forever`, `disconnect` and the exit codes (backup-mqtt.py:111-122). These are network I/O and process control.
- What the MQTT client does with the exception that escapes `on_message`. That library code is not part of this model.
- Logging and the rotating log file (backup-mqtt.py:8-13), and every `logger` call. The log text does not affect the table.
- JSON parsing and UTF-8 decoding (backup-mqtt.py:54) are library calls. Their result is the abstract `Message.Payload`.
- `Message.Extract`: JSON values other than integers and integer arrays are not modelled (strings, floats, booleans, null, nested objects). SQLite's type affinity for such values is not modelled either.
- SQLite internals: durability, locking, and the reasons a statement fails. Those reasons are the flags `storeOpens`, `insertOk` and `evictOk`, and each commit is an atomic update of the row sequence.
- `Store.MqttTable.EnsureSchema`: a connection opened before CREATE TABLE fails is not closed explicitly. The model does not track open connections, so the per-message `close` in the `finally` clause is not modelled either.
- The wall clock `time.time()` (backup-mqtt.py:33) becomes the parameter `now`, already truncated to an integer.
- test_read_db.py prints every row of the table and has no logic of its own.
