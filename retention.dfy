/** The 24-hour retention rule applied by `delete_old_data`. */
module Retention {
  import opened Rows

  /** The retention window, 24 * 60 * 60 seconds. */
  const RetentionSeconds: int := 24 * 60 * 60

  /** Rows strictly older than this timestamp are deleted at clock reading `now`. */
  function Cutoff(now: int): int {
    now - RetentionSeconds
  }

  /** The DELETE's WHERE clause: `timestamp < cutoff` (strict). */
  predicate Expired(r: Row, now: int) {
    r.timestamp < Cutoff(now)
  }

  /** What eviction keeps of a single row. */
  function Survivor(x: Row, now: int): seq<Row> {
    if Expired(x, now) then [] else [x]
  }

  /** The table left by `DELETE FROM mqtt_data WHERE timestamp < cutoff`: the
      surviving rows in their original order. No expired row is left; which rows are
      kept is stated by `EvictCount`. */
  function Evict(rows: seq<Row>, now: int): (kept: seq<Row>)
    ensures forall i | 0 <= i < |kept| :: !Expired(kept[i], now)
    ensures |kept| <= |rows|
  {
    if rows == [] then []
    else
      assert rows == [rows[0]] + rows[1..];
      Survivor(rows[0], now) + Evict(rows[1..], now)
  }

  /** Eviction is exact on multiplicities: every copy of an expired row is deleted,
      and every other row keeps as many copies as it had (the table has no key, so
      duplicates are possible). */
  lemma {:induction false} EvictCount(rows: seq<Row>, now: int, r: Row)
    ensures multiset(Evict(rows, now))[r] == if Expired(r, now) then 0 else multiset(rows)[r]
  {
    if rows != [] {
      assert rows == [rows[0]] + rows[1..];
      EvictCount(rows[1..], now, r);
    }
  }

  /** A row is in the evicted table exactly when it was in the table and is not
      expired. */
  lemma EvictMembers(rows: seq<Row>, now: int)
    ensures forall r :: r in Evict(rows, now) <==> r in rows && !Expired(r, now)
  {
    forall r
      ensures r in Evict(rows, now) <==> r in rows && !Expired(r, now)
    {
      EvictCount(rows, now, r);
    }
  }

  /** Eviction of a table whose first row is `x`. */
  lemma EvictCons(x: Row, rest: seq<Row>, now: int)
    ensures Evict([x] + rest, now) == Survivor(x, now) + Evict(rest, now)
  {
    assert ([x] + rest)[1..] == rest;
  }

  /** Eviction works row by row: evicting a concatenation evicts each part, keeping
      the relative order of the survivors. */
  lemma {:induction false} EvictConcat(a: seq<Row>, b: seq<Row>, now: int)
    ensures Evict(a + b, now) == Evict(a, now) + Evict(b, now)
  {
    if a == [] {
      assert a + b == b;
    } else {
      var x, rest := a[0], a[1..];
      assert a == [x] + rest;
      assert a + b == [x] + (rest + b);
      EvictCons(x, rest + b, now);
      EvictCons(x, rest, now);
      EvictConcat(rest, b, now);
      assert Survivor(x, now) + (Evict(rest, now) + Evict(b, now))
          == (Survivor(x, now) + Evict(rest, now)) + Evict(b, now);
    }
  }

  /** Evicting `rows + [x]`: the survivors of `rows`, then `x` unless it is expired
      itself. */
  lemma EvictAppend(rows: seq<Row>, x: Row, now: int)
    ensures Evict(rows + [x], now) == Evict(rows, now) + Survivor(x, now)
  {
    EvictConcat(rows, [x], now);
    assert [x][1..] == [];
  }

  /** Eviction changes nothing exactly when no row is expired. */
  lemma {:induction false} EvictNoop(rows: seq<Row>, now: int)
    ensures Evict(rows, now) == rows <==> forall r | r in rows :: !Expired(r, now)
  {
    if rows != [] {
      EvictNoop(rows[1..], now);
      if Expired(rows[0], now) {
        assert rows[0] in rows;
      } else {
        assert forall r | r in rows[1..] :: r in rows;
      }
    }
  }

  /** A later eviction subsumes an earlier one: evicting at `now1` and then at
      `now2 >= now1` leaves what evicting once at `now2` leaves. */
  lemma {:induction false} EvictLater(rows: seq<Row>, now1: int, now2: int)
    requires now1 <= now2
    ensures Evict(Evict(rows, now1), now2) == Evict(rows, now2)
  {
    if rows != [] {
      var head := Survivor(rows[0], now1);
      EvictConcat(head, Evict(rows[1..], now1), now2);
      EvictLater(rows[1..], now1, now2);
      if !Expired(rows[0], now1) {
        assert Evict(head, now2) == Survivor(rows[0], now2) by {
          assert head[1..] == [];
        }
      }
    }
  }

  /** Eviction is idempotent at a fixed clock reading. */
  lemma EvictIdempotent(rows: seq<Row>, now: int)
    ensures Evict(Evict(rows, now), now) == Evict(rows, now)
  {
    EvictLater(rows, now, now);
  }
}
