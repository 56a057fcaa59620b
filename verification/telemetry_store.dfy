/** The store: one process's handle on the events database. */
module TelemetryStore {
  import opened Ordering
  import opened Payload
  import opened TelemetryTable
  import opened TelemetryProtocol

  class TelemetryStore {
    var rows: seq<Row>
    var lastId: nat
    var dropped: nat
    const maxSize: nat
    ghost var state: State  // the history of the database, this process's part included

    function Table(): Table
      reads this
    {
      TelemetryTable.Table(rows, lastId)
    }

    /** The fields are what some run of the protocol leads to. */
    ghost predicate Recorded()
      reads this
    {
      && Reachable(state)
      && state.table == Table() && state.maxSize == maxSize && state.dropped == dropped
    }

    /** Opens a database that earlier processes may have written to. */
    constructor (table: Table, maxSize: nat, ghost before: State)
      requires Reachable(before) && before.table == table
      ensures Recorded() && state == Exec(before, Restart(maxSize))
    {
      this.maxSize := maxSize;
      rows, lastId := table.rows, table.lastId;
      dropped := 0;
      state := Exec(before, Restart(maxSize));
      ReachableStep(before, Restart(maxSize));
    }

    /** Appends an event, or drops and counts it when the table is already full. */
    method Enqueue(payload: AuditEvent) returns (accepted: bool)
      requires Recorded()
      modifies this
      ensures Recorded() && state == Exec(old(state), Step.Enqueue(payload))
      ensures accepted <==> old(|rows|) < maxSize
      ensures if accepted then Table() == TelemetryTable.Insert(old(Table()), payload) && dropped == old(dropped)
              else Table() == old(Table()) && dropped == old(dropped) + 1
    {
      ReachableStep(state, Step.Enqueue(payload));
      state := Exec(state, Step.Enqueue(payload));
      if |rows| >= maxSize {
        dropped := dropped + 1;
        return false;
      }
      rows := rows + [Row(lastId + 1, payload, 0, "")];
      lastId := lastId + 1;
      accepted := true;
    }

    /** Peeks at the oldest events that were not deleted, at most `limit`; removes nothing. */
    method DequeueBatch(limit: nat) returns (batch: seq<Row>)
      requires Recorded()
      ensures batch <= rows && |batch| == if limit < |rows| then limit else |rows|
      ensures state.deleted + |batch| <= |state.accepted|
      ensures forall i | 0 <= i < |batch| ::
                batch[i].id == state.deleted + 1 + i && batch[i].payload == state.accepted[state.deleted + i]
    {
      QueueIsUndeliveredSuffix(state);
      QueueAccounting(state);
      batch := if limit < |rows| then rows[..limit] else rows;
      forall i | 0 <= i < |batch| ensures batch[i].payload == state.accepted[state.deleted + i] {
        assert batch[i].payload == Payloads(rows)[i] == state.accepted[state.deleted..][i];
      }
    }

    /** Deletes the rows of these ids; every other row stays, in its place among the others. */
    method Ack(ids: seq<nat>) returns (ghost kept: seq<nat>)
      modifies this`rows
      ensures IsSelection(kept, |old(rows)|) && rows == Select(old(rows), kept)
      ensures forall i: nat | i < |old(rows)| :: i in kept <==> old(rows)[i].id !in ids
      ensures Table() == Delete(old(Table()), ids)
    {
      kept := FilterSelects(rows, (row: Row) => row.id !in ids);
      if ids == [] {
        WithoutNothing(rows);
        return;
      }
      rows := Without(rows, ids);
    }

    /** Counts one more failure on the rows of these ids, with the start of the error; their
        events, their order and every other row stay as they are. */
    method MarkRetry(ids: seq<nat>, error: string)
      modifies this`rows
      ensures |rows| == |old(rows)|
      ensures forall i | 0 <= i < |rows| && old(rows)[i].id !in ids :: rows[i] == old(rows)[i]
      ensures forall i | 0 <= i < |rows| && old(rows)[i].id in ids ::
                && rows[i].id == old(rows)[i].id && rows[i].payload == old(rows)[i].payload
                && rows[i].retries == old(rows)[i].retries + 1
                && rows[i].lastError <= error && |rows[i].lastError| == if |error| <= 500 then |error| else 500
      ensures Table() == TelemetryTable.MarkRetry(old(Table()), ids, error)
    {
      if ids == [] {
        assert TelemetryTable.MarkRetry(Table(), ids, error).rows == rows;
        return;
      }
      rows := TelemetryTable.MarkRetry(Table(), ids, error).rows;
    }
  }
}
