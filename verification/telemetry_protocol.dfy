/** The telemetry queue under every interleaving of producers, ticks and restarts.

    A tick is not atomic: it peeks at a batch, waits for the POST to be answered, and only
    then acknowledges or marks the batch. Any number of ticks may be in flight, each holding
    the batch it peeked at, however old. A restart forgets the ticks and keeps the table. */
module TelemetryProtocol {
  import opened Values
  import opened Payload
  import opened TelemetryTable

  /** How a POST ended. Accepted is any 2xx, Rejected is 400 or 422, Transient any other
      status, NoResponse a transport error. */
  datatype Answer = Accepted | Rejected | Transient | NoResponse

  /** The answers after which the batch is acknowledged. */
  predicate IsFinal(a: Answer) { a.Accepted? || a.Rejected? }

  /** A tick between its peek and its end. */
  datatype Flight = Flight(batch: seq<Row>, answer: Option<Answer>)

  datatype Post = Post(batch: seq<Row>, answer: Answer)

  datatype Step =
    | Enqueue(payload: AuditEvent)
    | Peek(worker: nat, limit: nat)
    | MintFails(worker: nat, error: string)
    | Answered(worker: nat, answer: Answer)
    | Settle(worker: nat, error: string)
    | Abort(worker: nat)
    | Restart(newMaxSize: nat)

  /** The system, with its history: every event ever accepted, every POST answered, the ids of
      every batch marked for retry and the number of rows deleted; and since the last restart
      the number of enqueue attempts and drops, and how many events were accepted before. */
  datatype State = State(
    table: Table,
    maxSize: nat,
    sizeAtStart: nat,
    attempts: nat,
    dropped: nat,
    acceptedBefore: nat,
    flights: map<nat, Flight>,
    accepted: seq<AuditEvent>,
    posts: seq<Post>,
    failures: seq<seq<nat>>,
    deleted: nat)

  function Start(maxSize: nat): State {
    State(EMPTY, maxSize, 0, 0, 0, 0, map[], [], [], [], 0)
  }

  /** Nothing has happened yet, and a restart then forgets the process's own numbers only. */
  lemma StartsEmpty(maxSize: nat, s: State, again: nat)
    ensures var z := Start(maxSize);
            && z.table.rows == [] && z.table.lastId == 0 && z.maxSize == maxSize && z.flights == map[]
            && z.attempts == z.dropped == z.sizeAtStart == z.acceptedBefore == z.deleted == 0
            && z.accepted == [] && z.posts == [] && z.failures == []
    ensures var t := Exec(s, Restart(again));
            && t.table == s.table && t.accepted == s.accepted && t.posts == s.posts && t.failures == s.failures
            && t.deleted == s.deleted && t.flights == map[] && t.attempts == t.dropped == 0
            && t.maxSize == again && t.sizeAtStart == |s.table.rows| && t.acceptedBefore == |s.accepted|
  {
  }

  function Land(s: State, worker: nat): State { s.(flights := s.flights - {worker}) }

  /** Marking a batch for retry, and remembering that it was. */
  function Fail(s: State, worker: nat, error: string): State
    requires worker in s.flights
  {
    var ids := Ids(s.flights[worker].batch);
    Land(s, worker).(table := MarkRetry(s.table, ids, error), failures := s.failures + [ids])
  }

  /** Deleting a batch, and counting the rows that were still there. */
  function Acknowledge(s: State, worker: nat): State
    requires worker in s.flights
  {
    var table := Delete(s.table, Ids(s.flights[worker].batch));
    WithoutShrinks(s.table.rows, Ids(s.flights[worker].batch));
    Land(s, worker).(table := table, deleted := s.deleted + (|s.table.rows| - |table.rows|))
  }

  function Offer(s: State, payload: AuditEvent): State {
    if |s.table.rows| >= s.maxSize then
      s.(attempts := s.attempts + 1, dropped := s.dropped + 1)
    else
      s.(attempts := s.attempts + 1, table := Insert(s.table, payload), accepted := s.accepted + [payload])
  }

  /** One step; a step that is not possible changes nothing. */
  function Exec(s: State, step: Step): State {
    match step
    case Enqueue(payload) => Offer(s, payload)
    case Peek(w, limit) =>
      var batch := Oldest(s.table, limit);
      if w in s.flights || batch == [] then s else s.(flights := s.flights[w := Flight(batch, None)])
    case MintFails(w, error) =>
      if w in s.flights && s.flights[w].answer.None? then Fail(s, w, error) else s
    case Answered(w, a) =>
      if w in s.flights && s.flights[w].answer.None? then
        s.(flights := s.flights[w := s.flights[w].(answer := Some(a))],
           posts := s.posts + [Post(s.flights[w].batch, a)])
      else s
    case Settle(w, error) =>
      if w in s.flights && s.flights[w].answer.Some? then
        if IsFinal(s.flights[w].answer.value) then
          Acknowledge(s, w)
        else Fail(s, w, error)
      else s
    case Abort(w) => Land(s, w)
    case Restart(maxSize) =>
      s.(maxSize := maxSize, sizeAtStart := |s.table.rows|, attempts := 0, dropped := 0,
         acceptedBefore := |s.accepted|, flights := map[])
  }

  function Run(s: State, steps: seq<Step>): State {
    if steps == [] then s else Exec(Run(s, steps[..|steps| - 1]), steps[|steps| - 1])
  }

  lemma RunExtends(s: State, steps: seq<Step>, step: Step)
    ensures Run(s, steps + [step]) == Exec(Run(s, steps), step)
  {
    assert (steps + [step])[..|steps|] == steps;
  }

  // ---------------------------------------------------------------------------
  // The invariant
  // ---------------------------------------------------------------------------

  /** How many events have left the table. */
  function Removed(s: State): int { |s.accepted| - |s.table.rows| }

  /** rows are the copies of events number head + 1, head + 2, ... under their own ids. */
  ghost predicate Window(accepted: seq<AuditEvent>, rows: seq<Row>, head: int) {
    && 0 <= head && head + |rows| <= |accepted|
    && forall i | 0 <= i < |rows| :: rows[i].id == head + 1 + i && rows[i].payload == accepted[head + i]
  }

  /** The number of events before a non-empty batch. */
  function Low(batch: seq<Row>): int
    requires batch != []
  {
    batch[0].id - 1
  }

  /** A batch is a window of the accepted events. */
  ghost predicate IsBatch(accepted: seq<AuditEvent>, batch: seq<Row>) {
    batch != [] && Window(accepted, batch, Low(batch))
  }

  ghost predicate RowsAreSuffix(s: State) {
    s.table.lastId == |s.accepted| && Window(s.accepted, s.table.rows, Removed(s))
  }

  /** A batch in flight starts no later than the oldest live row, however old it is. */
  ghost predicate FlightOk(s: State, flight: Flight) {
    && IsBatch(s.accepted, flight.batch) && Low(flight.batch) <= Removed(s)
    && (flight.answer.Some? ==> Post(flight.batch, flight.answer.value) in s.posts)
  }

  ghost predicate FlightsOk(s: State) {
    forall w | w in s.flights :: FlightOk(s, s.flights[w])
  }

  /** A failed batch was a run of ids starting no later than the oldest live row. */
  ghost predicate FailureOk(f: seq<nat>, head: int, last: int) {
    f != [] && 1 <= f[0] <= head + 1 && IsRun(f, f[0] - 1) && f[0] - 1 + |f| <= last
  }

  ghost predicate FailuresOk(s: State) {
    forall f | f in s.failures :: FailureOk(f, Removed(s), |s.accepted|)
  }

  /** In how many failed batches an id was. */
  function FailedBatches(failures: seq<seq<nat>>, id: nat): nat {
    if failures == [] then 0
    else FailedBatches(failures[..|failures| - 1], id) + (if id in failures[|failures| - 1] then 1 else 0)
  }

  ghost predicate RetriesCount(rows: seq<Row>, failures: seq<seq<nat>>) {
    forall i | 0 <= i < |rows| :: rows[i].retries == FailedBatches(failures, rows[i].id)
  }

  /** The post carried event number id, and was answered 2xx, 400 or 422. */
  ghost predicate Carried(accepted: seq<AuditEvent>, p: Post, id: nat) {
    && (p.answer == Accepted || p.answer == Rejected) && IsBatch(accepted, p.batch)
    && Low(p.batch) < id <= Low(p.batch) + |p.batch|
  }

  ghost predicate Delivered(s: State, id: nat) {
    exists p | p in s.posts :: Carried(s.accepted, p, id)
  }

  ghost predicate RemovedWereDelivered(s: State) {
    forall id: nat | 1 <= id <= Removed(s) :: Delivered(s, id)
  }

  ghost predicate Accounted(s: State) {
    && s.acceptedBefore <= |s.accepted| && s.deleted == Removed(s)
    && s.attempts == |s.accepted| - s.acceptedBefore + s.dropped
    && (|s.table.rows| <= s.maxSize || |s.table.rows| <= s.sizeAtStart)
  }

  ghost predicate Inv(s: State) {
    && RowsAreSuffix(s) && FlightsOk(s) && FailuresOk(s)
    && RetriesCount(s.table.rows, s.failures) && RemovedWereDelivered(s) && Accounted(s)
  }

  // ---------------------------------------------------------------------------
  // Every step keeps it
  // ---------------------------------------------------------------------------

  lemma WindowStays(accepted: seq<AuditEvent>, more: seq<AuditEvent>, rows: seq<Row>, head: int)
    requires accepted <= more && Window(accepted, rows, head)
    ensures Window(more, rows, head)
  {
  }

  lemma WindowIds(accepted: seq<AuditEvent>, rows: seq<Row>, head: int)
    requires Window(accepted, rows, head)
    ensures IsRun(Ids(rows), head)
  {
  }

  /** History only grows: what is in flight stays a batch, what was delivered stays so. */
  ghost predicate Extends(s: State, t: State) {
    && s.accepted <= t.accepted && Removed(s) <= Removed(t)
    && (forall p | p in s.posts :: p in t.posts)
  }

  lemma FlightsStay(s: State, t: State)
    requires Extends(s, t) && FlightsOk(s)
    requires forall w | w in t.flights :: w in s.flights && t.flights[w] == s.flights[w]
    ensures FlightsOk(t)
  {
    forall w | w in t.flights ensures FlightOk(t, t.flights[w]) {
      var batch := s.flights[w].batch;
      assert FlightOk(s, s.flights[w]);
      WindowStays(s.accepted, t.accepted, batch, Low(batch));
    }
  }

  lemma DeliveredStays(s: State, t: State, id: nat)
    requires Extends(s, t) && Delivered(s, id)
    ensures Delivered(t, id)
  {
    var p :| p in s.posts && Carried(s.accepted, p, id);
    WindowStays(s.accepted, t.accepted, p.batch, Low(p.batch));
    assert p in t.posts && Carried(t.accepted, p, id);
  }

  lemma DeliveriesStay(s: State, t: State)
    requires Extends(s, t) && RemovedWereDelivered(s) && Removed(t) == Removed(s)
    ensures RemovedWereDelivered(t)
  {
    forall id: nat | 1 <= id <= Removed(t) ensures Delivered(t, id) { DeliveredStays(s, t, id); }
  }

  lemma {:induction false} UnfailedId(failures: seq<seq<nat>>, head: int, last: int, id: nat)
    requires forall f | f in failures :: FailureOk(f, head, last)
    requires id > last
    ensures FailedBatches(failures, id) == 0
  {
    if failures != [] {
      var f := failures[|failures| - 1];
      assert f in failures;
      RunMembers(f, f[0] - 1);
      UnfailedId(failures[..|failures| - 1], head, last, id);
    }
  }

  lemma WindowSnoc(accepted: seq<AuditEvent>, rows: seq<Row>, head: int, row: Row)
    requires Window(accepted, rows, head) && head + |rows| == |accepted| && row.id == |accepted| + 1
    ensures Window(accepted + [row.payload], rows + [row], head)
  {
  }

  lemma RetriesSnoc(rows: seq<Row>, failures: seq<seq<nat>>, head: int, last: int, row: Row)
    requires RetriesCount(rows, failures) && row.retries == 0 && row.id > last
    requires forall f | f in failures :: FailureOk(f, head, last)
    ensures RetriesCount(rows + [row], failures)
  {
    UnfailedId(failures, head, last, row.id);
  }

  lemma OfferKeepsInv(s: State, payload: AuditEvent)
    requires Inv(s)
    ensures Inv(Offer(s, payload))
  {
    hide Window, RetriesCount, FailedBatches;
    var t := Offer(s, payload);
    if |s.table.rows| < s.maxSize {
      var row := Row(s.table.lastId + 1, payload, 0, "");
      WindowSnoc(s.accepted, s.table.rows, Removed(s), row);
      RetriesSnoc(s.table.rows, s.failures, Removed(s), |s.accepted|, row);
    }
    FlightsStay(s, t);
    DeliveriesStay(s, t);
  }

  lemma WindowPrefix(accepted: seq<AuditEvent>, rows: seq<Row>, head: int, limit: nat)
    requires Window(accepted, rows, head) && limit <= |rows|
    ensures Window(accepted, rows[..limit], head)
    ensures limit > 0 ==> rows[..limit][0].id == head + 1
  {
  }

  lemma PeekKeepsInv(s: State, w: nat, limit: nat)
    requires Inv(s)
    ensures Inv(Exec(s, Peek(w, limit)))
  {
    hide Window, RetriesCount, FailureOk, Delivered;
    var t := Exec(s, Peek(w, limit));
    var batch := Oldest(s.table, limit);
    WindowPrefix(s.accepted, s.table.rows, Removed(s), |batch|);
    assert batch == s.table.rows[..|batch|];
    forall v | v in t.flights ensures FlightOk(t, t.flights[v]) {
      assert v in s.flights ==> FlightOk(s, s.flights[v]);
    }
    DeliveriesStay(s, t);
  }

  lemma AnsweredKeepsInv(s: State, w: nat, a: Answer)
    requires Inv(s)
    ensures Inv(Exec(s, Answered(w, a)))
  {
    var t := Exec(s, Answered(w, a));
    forall v | v in t.flights ensures FlightOk(t, t.flights[v]) { assert FlightOk(s, s.flights[v]); }
    DeliveriesStay(s, t);
  }

  /** Forgetting flights, a restart included, touches nothing else. */
  lemma ForgettingKeepsInv(s: State, t: State)
    requires Inv(s)
    requires t.table == s.table && t.accepted == s.accepted && t.posts == s.posts && t.failures == s.failures
    requires forall w | w in t.flights :: w in s.flights && t.flights[w] == s.flights[w]
    requires Accounted(t)
    ensures Inv(t)
  {
    FlightsStay(s, t);
    DeliveriesStay(s, t);
  }

  lemma MarkingCounts(rows: seq<Row>, failures: seq<seq<nat>>, t: Table, ids: seq<nat>, error: string)
    requires t.rows == rows && RetriesCount(rows, failures)
    ensures RetriesCount(MarkRetry(t, ids, error).rows, failures + [ids])
  {
    assert (failures + [ids])[..|failures|] == failures;
  }

  lemma FailKeepsInv(s: State, w: nat, error: string)
    requires Inv(s) && w in s.flights
    ensures Inv(Fail(s, w, error))
  {
    hide Delivered;
    var t := Fail(s, w, error);
    var batch := s.flights[w].batch;
    assert FlightOk(s, s.flights[w]);
    WindowIds(s.accepted, batch, Low(batch));
    assert FailureOk(Ids(batch), Removed(s), |s.accepted|);
    MarkingCounts(s.table.rows, s.failures, s.table, Ids(batch), error);
    FlightsStay(s, t);
    DeliveriesStay(s, t);
  }

  /** Where acknowledging a batch cuts the live rows: at the end of the batch. */
  function Cut(rows: seq<Row>, head: int, batch: seq<Row>): int
    requires batch != []
  {
    var ended := Low(batch) + |batch| - head;
    if ended <= 0 then 0 else if ended <= |rows| then ended else |rows|
  }

  lemma AckCuts(s: State, w: nat)
    requires RowsAreSuffix(s) && w in s.flights && FlightOk(s, s.flights[w])
    ensures Acknowledge(s, w).table.rows == s.table.rows[Cut(s.table.rows, Removed(s), s.flights[w].batch)..]
  {
    var batch := s.flights[w].batch;
    WindowIds(s.accepted, s.table.rows, Removed(s));
    WindowIds(s.accepted, batch, Low(batch));
    DeleteCutsPrefix(s.table.rows, Removed(s), Ids(batch), Low(batch));
  }

  lemma WindowDrop(accepted: seq<AuditEvent>, rows: seq<Row>, head: int, cut: nat)
    requires Window(accepted, rows, head) && cut <= |rows|
    ensures Window(accepted, rows[cut..], head + cut)
  {
  }

  lemma RetriesDrop(rows: seq<Row>, failures: seq<seq<nat>>, cut: nat)
    requires RetriesCount(rows, failures) && cut <= |rows|
    ensures RetriesCount(rows[cut..], failures)
  {
  }

  lemma AckKeepsInv(s: State, w: nat)
    requires Inv(s) && w in s.flights && s.flights[w].answer.Some? && IsFinal(s.flights[w].answer.value)
    ensures Inv(Acknowledge(s, w))
  {
    hide Window, RetriesCount, Without;
    var t := Acknowledge(s, w);
    var flight := s.flights[w];
    assert FlightOk(s, flight);
    AckCuts(s, w);
    var cut := Cut(s.table.rows, Removed(s), flight.batch);
    WindowDrop(s.accepted, s.table.rows, Removed(s), cut);
    RetriesDrop(s.table.rows, s.failures, cut);
    assert Extends(s, t);
    FlightsStay(s, t);
    forall id: nat | 1 <= id <= Removed(t) ensures Delivered(t, id) {
      if id <= Removed(s) {
        DeliveredStays(s, t, id);
      } else {
        assert Carried(t.accepted, Post(flight.batch, flight.answer.value), id);
      }
    }
  }

  lemma StepKeepsInv(s: State, step: Step)
    requires Inv(s)
    ensures Inv(Exec(s, step))
  {
    match step
    case Enqueue(payload) => OfferKeepsInv(s, payload);
    case Peek(w, limit) => PeekKeepsInv(s, w, limit);
    case MintFails(w, error) =>
      if w in s.flights && s.flights[w].answer.None? { FailKeepsInv(s, w, error); }
    case Answered(w, a) => AnsweredKeepsInv(s, w, a);
    case Settle(w, error) =>
      if w in s.flights && s.flights[w].answer.Some? {
        if IsFinal(s.flights[w].answer.value) { AckKeepsInv(s, w); } else { FailKeepsInv(s, w, error); }
      }
    case Abort(w) => ForgettingKeepsInv(s, Land(s, w));
    case Restart(maxSize) => ForgettingKeepsInv(s, Exec(s, step));
  }

  lemma {:induction false} RunKeepsInv(maxSize: nat, steps: seq<Step>)
    ensures Inv(Run(Start(maxSize), steps))
  {
    if steps != [] {
      RunKeepsInv(maxSize, steps[..|steps| - 1]);
      StepKeepsInv(Run(Start(maxSize), steps[..|steps| - 1]), steps[|steps| - 1]);
    }
  }

  // ---------------------------------------------------------------------------
  // What holds in every reachable state
  // ---------------------------------------------------------------------------

  /** Some interleaving of steps leads from a new database to s. */
  ghost predicate Reachable(s: State) {
    exists maxSize, steps :: s == Run(Start(maxSize), steps)
  }

  lemma ReachableInv(s: State)
    requires Reachable(s)
    ensures Inv(s)
  {
    var maxSize, steps :| s == Run(Start(maxSize), steps);
    RunKeepsInv(maxSize, steps);
  }

  lemma ReachableStep(s: State, step: Step)
    requires Reachable(s)
    ensures Reachable(Exec(s, step))
  {
    var maxSize, steps :| s == Run(Start(maxSize), steps);
    RunExtends(Start(maxSize), steps, step);
    assert Exec(s, step) == Run(Start(maxSize), steps + [step]);
  }

  function Payloads(rows: seq<Row>): seq<AuditEvent> {
    seq(|rows|, i requires 0 <= i < |rows| => rows[i].payload)
  }

  /** In the table, no event is lost, reordered or duplicated: the live rows are a suffix of the
      accepted events, and every event before them was in a POST answered 2xx, 400 or 422. Of
      deliveries this says at least one: overlapping ticks may post an event more than once. */
  lemma QueueIsUndeliveredSuffix(s: State)
    requires Reachable(s)
    ensures 0 <= Removed(s) <= |s.accepted|
    ensures Payloads(s.table.rows) == s.accepted[Removed(s)..]
    ensures forall i | 0 <= i < |s.table.rows| :: s.table.rows[i].id == Removed(s) + 1 + i
    ensures forall id: nat | 1 <= id <= Removed(s) :: Delivered(s, id)
  {
    ReachableInv(s);
  }

  lemma CutRowsAreOwn(accepted: seq<AuditEvent>, rows: seq<Row>, head: int, batch: seq<Row>, k: nat)
    requires Window(accepted, rows, head) && IsBatch(accepted, batch) && Low(batch) <= head
    requires k < Cut(rows, head, batch)
    ensures exists posted | posted in batch :: posted.id == rows[k].id && posted.payload == rows[k].payload
  {
    var i := head + k - Low(batch);
    assert batch[i] in batch && batch[i].id == rows[k].id;
  }

  /** A late acknowledgement deletes the oldest rows only, and of those only rows its own
      batch posted: same id, same event. */
  lemma AckDeletesOwnRows(s: State, w: nat, k: nat)
    requires Reachable(s) && w in s.flights
    requires k < |s.table.rows| - |Acknowledge(s, w).table.rows|
    ensures Acknowledge(s, w).table.rows == s.table.rows[|s.table.rows| - |Acknowledge(s, w).table.rows|..]
    ensures exists posted | posted in s.flights[w].batch ::
              posted.id == s.table.rows[k].id && posted.payload == s.table.rows[k].payload
  {
    hide Reachable, Acknowledge, Window, FailuresOk, RetriesCount, RemovedWereDelivered;
    ReachableInv(s);
    assert FlightOk(s, s.flights[w]);
    AckCuts(s, w);
    CutRowsAreOwn(s.accepted, s.table.rows, Removed(s), s.flights[w].batch, k);
  }

  lemma StepOnlyAppends(s: State, step: Step)
    ensures s.accepted <= Exec(s, step).accepted && s.table.lastId <= Exec(s, step).table.lastId
  {
  }

  lemma {:induction false} HistoryOnlyGrows(s: State, more: seq<Step>)
    ensures s.accepted <= Run(s, more).accepted && s.table.lastId <= Run(s, more).table.lastId
    ensures Inv(s) ==> Inv(Run(s, more))
  {
    hide Inv, Exec;
    if more != [] {
      var n := |more| - 1;
      HistoryOnlyGrows(s, more[..n]);
      StepOnlyAppends(Run(s, more[..n]), more[n]);
      if Inv(s) { StepKeepsInv(Run(s, more[..n]), more[n]); }
    }
  }

  /** The row is live, or in a batch in flight. */
  ghost predicate Known(s: State, row: Row) {
    row in s.table.rows || exists w | w in s.flights :: row in s.flights[w].batch
  }

  lemma KnownIsAccepted(s: State, row: Row)
    requires Inv(s) && Known(s, row)
    ensures 1 <= row.id <= |s.accepted| && row.payload == s.accepted[row.id - 1]
  {
    if row !in s.table.rows {
      var w :| w in s.flights && row in s.flights[w].batch;
      assert FlightOk(s, s.flights[w]);
    }
  }

  /** Ids are never reused: two rows of one id, each live or in flight at any two moments of a
      run, restarts included, are the same event. */
  lemma IdsAreNeverReused(s: State, more: seq<Step>, a: Row, b: Row)
    requires Reachable(s) && Known(s, a) && Known(Run(s, more), b) && a.id == b.id
    ensures a.payload == b.payload
  {
    hide Reachable, Known, Run, Inv;
    ReachableInv(s);
    HistoryOnlyGrows(s, more);
    KnownIsAccepted(s, a);
    KnownIsAccepted(Run(s, more), b);
  }

  lemma {:induction false} OlderFailsMore(failures: seq<seq<nat>>, head: int, last: int, a: nat, b: nat)
    requires forall f | f in failures :: FailureOk(f, head, last)
    requires head < a <= b
    ensures FailedBatches(failures, a) >= FailedBatches(failures, b)
  {
    if failures != [] {
      var f := failures[|failures| - 1];
      assert f in failures;
      RunMembers(f, f[0] - 1);
      OlderFailsMore(failures[..|failures| - 1], head, last, a, b);
    }
  }

  /** Retry counts never increase from the head of the queue to its tail, and each is the
      number of failed batches the row was in. */
  lemma RetriesDescend(s: State)
    requires Reachable(s)
    ensures forall i, j | 0 <= i < j < |s.table.rows| :: s.table.rows[i].retries >= s.table.rows[j].retries
    ensures forall i | 0 <= i < |s.table.rows| ::
              s.table.rows[i].retries == FailedBatches(s.failures, s.table.rows[i].id)
  {
    ReachableInv(s);
    forall i, j | 0 <= i < j < |s.table.rows|
      ensures s.table.rows[i].retries >= s.table.rows[j].retries
    {
      OlderFailsMore(s.failures, Removed(s), |s.accepted|, s.table.rows[i].id, s.table.rows[j].id);
    }
  }

  /** Attempts are acceptances plus drops, acceptances are live rows plus deleted rows, and
      the queue never outgrows the larger of its limit and its size at startup. */
  lemma QueueAccounting(s: State)
    requires Reachable(s)
    ensures s.attempts == |s.accepted| - s.acceptedBefore + s.dropped
    ensures |s.accepted| == |s.table.rows| + s.deleted
    ensures |s.table.rows| <= s.maxSize || |s.table.rows| <= s.sizeAtStart
  {
    ReachableInv(s);
  }
}
