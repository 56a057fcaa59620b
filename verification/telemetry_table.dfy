/** The `events` table, and the statements the store runs on it. */
module TelemetryTable {
  import opened Ordering
  import opened Payload

  datatype Row = Row(id: nat, payload: AuditEvent, retries: nat, lastError: string)

  /** Rows in id order, and the AUTOINCREMENT high-water mark, which deletes never lower. */
  datatype Table = Table(rows: seq<Row>, lastId: nat)

  const EMPTY: Table := Table([], 0)
  const MAX_ERROR_LENGTH: nat := 500

  function Ids(batch: seq<Row>): (ids: seq<nat>)
    ensures |ids| == |batch|
  {
    seq(|batch|, i requires 0 <= i < |batch| => batch[i].id)
  }

  function Insert(t: Table, payload: AuditEvent): Table {
    Table(t.rows + [Row(t.lastId + 1, payload, 0, "")], t.lastId + 1)
  }

  /** ORDER BY id LIMIT limit */
  function Oldest(t: Table, limit: nat): seq<Row> {
    if limit < |t.rows| then t.rows[..limit] else t.rows
  }

  function Without(rows: seq<Row>, ids: seq<nat>): seq<Row> { Filter(rows, (row: Row) => row.id !in ids) }

  function Delete(t: Table, ids: seq<nat>): Table { t.(rows := Without(t.rows, ids)) }

  function Truncated(error: string): string {
    if |error| > MAX_ERROR_LENGTH then error[..MAX_ERROR_LENGTH] else error
  }

  function Bumped(row: Row, ids: seq<nat>, error: string): Row {
    if row.id in ids then row.(retries := row.retries + 1, lastError := Truncated(error)) else row
  }

  function MarkRetry(t: Table, ids: seq<nat>, error: string): Table {
    t.(rows := seq(|t.rows|, i requires 0 <= i < |t.rows| => Bumped(t.rows[i], ids, error)))
  }

  /** ids is the run of ids lo + 1, ..., lo + n. */
  ghost predicate IsRun(ids: seq<nat>, lo: nat) {
    forall i | 0 <= i < |ids| :: ids[i] == lo + 1 + i
  }

  lemma RunMembers(ids: seq<nat>, lo: nat)
    requires IsRun(ids, lo)
    ensures forall id: nat :: id in ids <==> lo < id <= lo + |ids|
  {
    forall id: nat | lo < id <= lo + |ids| ensures id in ids { assert ids[id - lo - 1] == id; }
  }

  /** Deleting a run of ids that starts at or before the oldest row cuts a prefix off. */
  lemma {:induction false} DeleteCutsPrefix(rows: seq<Row>, head: nat, ids: seq<nat>, lo: nat)
    requires IsRun(Ids(rows), head) && IsRun(ids, lo) && lo <= head
    ensures var cut := if lo + |ids| <= head then 0
                       else if lo + |ids| - head <= |rows| then lo + |ids| - head else |rows|;
            Without(rows, ids) == rows[cut..]
  {
    RunMembers(ids, lo);
    if rows != [] {
      assert rows[0].id == Ids(rows)[0] == head + 1;
      forall i | 0 <= i < |rows| - 1 ensures Ids(rows[1..])[i] == head + 2 + i {
        assert Ids(rows[1..])[i] == Ids(rows)[i + 1];
      }
      DeleteCutsPrefix(rows[1..], head + 1, ids, lo);
      if rows[0].id !in ids { assert rows == [rows[0]] + rows[1..]; }
    }
  }

  lemma {:induction false} WithoutNothing(rows: seq<Row>)
    ensures Without(rows, []) == rows
  {
    if rows != [] {
      WithoutNothing(rows[1..]);
    }
  }

  lemma {:induction false} WithoutShrinks(rows: seq<Row>, ids: seq<nat>)
    ensures |Without(rows, ids)| <= |rows|
  {
    if rows != [] {
      WithoutShrinks(rows[1..], ids);
    }
  }
}
