/** The sender: ticks, backoff and the synchronous drain. */
module TelemetrySender {
  import opened Values
  import opened TelemetryTable
  import opened TelemetryProtocol
  import Store = TelemetryStore

  /** What happens to a tick that has a batch; `error` is the text kept with a batch that has
      to wait. */
  datatype Outcome =
    | MintFailed(error: string)
    | Responded(status: nat, error: string)
    | Unreachable(error: string)
    | Raised  // an exception the tick does not handle, or cancellation

  /** 2xx is success; 400 and 422 blame the payload; anything else may pass later. */
  function Classify(status: nat): Answer {
    if 200 <= status < 300 then Accepted
    else if status == 400 || status == 422 then Rejected
    else Transient
  }

  /** The outcomes after which the batch leaves the queue. */
  predicate Sends(o: Outcome) { o.Responded? && (200 <= o.status < 300 || o.status == 400 || o.status == 422) }

  /** The protocol steps a tick takes after its peek. */
  function StepsOf(worker: nat, o: Outcome): seq<Step> {
    match o
    case MintFailed(error) => [MintFails(worker, error)]
    case Responded(status, error) => [Answered(worker, Classify(status)), Settle(worker, error)]
    case Unreachable(error) => [Answered(worker, NoResponse), Settle(worker, error)]
    case Raised => [Abort(worker)]
  }

  const MAX_BACKOFF_SECONDS: real := 60.0

  /** flush * 2^k */
  function Doubled(flush: real, k: nat): real { if k == 0 then flush else 2.0 * Doubled(flush, k - 1) }

  function Min(a: real, b: real): real { if a <= b then a else b }

  function Max(a: real, b: real): real { if a <= b then b else a }

  /** The backoff after k failed ticks since the last reset. */
  function Backoff(flush: real, k: nat): real {
    if k == 0 then flush else Min(Doubled(flush, k), MAX_BACKOFF_SECONDS)
  }

  lemma {:induction false} DoubledGrows(flush: real, k: nat)
    requires flush > 0.0
    ensures Doubled(flush, k) >= flush
  {
    if k > 0 { DoubledGrows(flush, k - 1); }
  }

  lemma NoFailures(flush: real)
    ensures Backoff(flush, 0) == flush
  {
  }

  /** The backoff starts at the flush interval, and each failure doubles it, up to 60 seconds. */
  lemma BackoffStep(flush: real, k: nat)
    requires flush > 0.0
    ensures Backoff(flush, 0) == flush
    ensures Backoff(flush, k + 1) == if Backoff(flush, k) * 2.0 <= 60.0 then Backoff(flush, k) * 2.0 else 60.0
  {
    DoubledGrows(flush, k);
    assert Doubled(flush, k + 1) == 2.0 * Doubled(flush, k);
  }

  /** The backoff never leaves the range between the flush interval and 60 seconds. */
  lemma BackoffRange(flush: real, k: nat)
    requires flush > 0.0
    ensures flush <= 60.0 ==> flush <= Backoff(flush, k) <= 60.0
    ensures flush > 60.0 ==> 60.0 <= Backoff(flush, k) <= flush
  {
    DoubledGrows(flush, k);
  }

  class TelemetrySender {
    const store: Store.TelemetryStore
    const batchSize: nat
    const flushInterval: real
    var backoff: real
    ghost var failed: nat  // failed ticks since the last reset

    ghost predicate Valid()
      reads this
    {
      flushInterval > 0.0 && backoff == Backoff(flushInterval, failed)
    }

    constructor (store: Store.TelemetryStore, batchSize: nat, flushInterval: real)
      requires flushInterval > 0.0
      ensures Valid() && failed == 0
      ensures this.store == store && this.batchSize == batchSize && this.flushInterval == flushInterval
    {
      this.store, this.batchSize, this.flushInterval := store, batchSize, flushInterval;
      backoff := flushInterval;
      failed := 0;
    }

    method BumpBackoff()
      requires Valid()
      modifies this
      ensures Valid() && failed == old(failed) + 1
    {
      BackoffStep(flushInterval, failed);
      backoff := Min(backoff * 2.0, MAX_BACKOFF_SECONDS);
      failed := failed + 1;
    }

    /** The part of a tick before it waits: peek at a batch. */
    method BeginTick(ghost worker: nat) returns (batch: seq<Row>)
      requires store.Recorded() && worker !in store.state.flights
      modifies store`state
      ensures store.Recorded() && store.state == Exec(old(store.state), Peek(worker, batchSize))
      ensures batch == Oldest(store.Table(), batchSize)
    {
      batch := store.DequeueBatch(batchSize);
      assert batch == store.rows[..|batch|];
      ReachableStep(store.state, Peek(worker, batchSize));
      store.state := Exec(store.state, Peek(worker, batchSize));
    }

    /** The rest of a tick, whatever other ticks and producers did in the meantime. None is
        an exception that leaves the tick. */
    method FinishTick(ghost worker: nat, batch: seq<Row>, o: Outcome) returns (sent: Option<nat>)
      requires Valid() && store.Recorded()
      requires worker in store.state.flights && store.state.flights[worker] == Flight(batch, None)
      modifies this, store`rows, store`state
      ensures Valid() && store.Recorded()
      ensures store.state == Run(old(store.state), StepsOf(worker, o))
      ensures store.state.flights == old(store.state.flights) - {worker}
      ensures sent == if o.Raised? then None else Some(if Sends(o) then |batch| else 0)
      ensures failed == old(failed) + if o.Raised? || Sends(o) then 0 else 1
      ensures backoff == old(backoff) || !Sends(o)
      ensures store.Table() == Marked(old(store.Table()), Ids(batch), o)
      ensures o.Responded? && (200 <= o.status < 300 || o.status == 400 || o.status == 422) ==>
                && sent == Some(|batch|) && failed == old(failed)
                && store.Table() == Delete(old(store.Table()), Ids(batch))
                && store.state.posts == old(store.state.posts) + [Post(batch, if o.status < 300 then Accepted else Rejected)]
      ensures o.Responded? && !(200 <= o.status < 300 || o.status == 400 || o.status == 422) ==>
                && sent == Some(0) && failed == old(failed) + 1
                && store.Table() == MarkRetry(old(store.Table()), Ids(batch), o.error)
                && store.state.posts == old(store.state.posts) + [Post(batch, Transient)]
      ensures o.Unreachable? ==>
                && sent == Some(0) && failed == old(failed) + 1
                && store.Table() == MarkRetry(old(store.Table()), Ids(batch), o.error)
                && store.state.posts == old(store.state.posts) + [Post(batch, NoResponse)]
      ensures o.MintFailed? ==>
                && sent == Some(0) && failed == old(failed) + 1
                && store.Table() == MarkRetry(old(store.Table()), Ids(batch), o.error)
                && store.state.posts == old(store.state.posts)
      ensures o.Raised? ==>
                && sent == None && failed == old(failed)
                && store.Table() == old(store.Table()) && store.state.posts == old(store.state.posts)
    {
      var ids := Ids(batch);
      TickSteps(store.state, worker, o);
      ghost var after := Run(store.state, StepsOf(worker, o));
      match o
      case Raised =>
        store.state := after;
        return None;
      case MintFailed(error) =>
        store.MarkRetry(ids, error);
        store.state := after;
        BumpBackoff();
        return Some(0);
      case Unreachable(error) =>
        store.MarkRetry(ids, error);
        store.state := after;
        BumpBackoff();
        return Some(0);
      case Responded(status, error) =>
        if 200 <= status < 300 {
          ghost var kept := store.Ack(ids);
          store.state := after;
          return Some(|ids|);
        }
        if status == 400 || status == 422 {
          ghost var kept := store.Ack(ids);
          store.state := after;
          return Some(|ids|);
        }
        store.MarkRetry(ids, error);
        store.state := after;
        BumpBackoff();
        return Some(0);
    }

    /** A tick that nothing interleaves with. */
    method Tick(ghost worker: nat, o: Outcome) returns (sent: Option<nat>)
      requires Valid() && store.Recorded() && worker !in store.state.flights
      modifies this, store`rows, store`state
      ensures Valid() && store.Recorded() && worker !in store.state.flights
      ensures store.state.flights == old(store.state.flights)
      ensures var batch := Oldest(old(store.Table()), batchSize);
              if batch == [] then
                sent == Some(0) && store.Table() == old(store.Table()) && failed == old(failed)
              else
                && sent == (if o.Raised? then None else Some(if Sends(o) then |batch| else 0))
                && failed == old(failed) + (if o.Raised? || Sends(o) then 0 else 1)
                && store.Table() == AfterTick(old(store.Table()), batchSize, o)
    {
      var batch := BeginTick(worker);
      if batch == [] {
        return Some(0);
      }
      sent := FinishTick(worker, batch, o);
    }

    /** The start of a turn of the background loop, up to where it may wait. On an empty queue
        the turn is over: it changes nothing and sleeps for the backoff as it stands. */
    method BeginTurn(ghost worker: nat) returns (batch: seq<Row>, sleep: Option<real>)
      requires Valid() && store.Recorded() && worker !in store.state.flights
      modifies store`state
      ensures Valid() && store.Recorded() && store.state == Exec(old(store.state), Peek(worker, batchSize))
      ensures sleep == if batch == [] then Some(Backoff(flushInterval, failed)) else None
      ensures batch == [] <==> store.rows == [] || batchSize == 0
      ensures batch == [] ==> store.state == old(store.state)
      ensures batch != [] ==> worker in store.state.flights && store.state.flights[worker] == Flight(batch, None)
    {
      hide Backoff, Reachable;
      batch := BeginTick(worker);
      sleep := if batch == [] then Some(backoff) else None;
    }

    /** The rest of a turn of the background loop once its tick has a batch: whatever other ticks
        and producers did since the peek, a sent batch resets the backoff and does not sleep,
        and anything else sleeps for the backoff of the failures since the last reset, those of
        other ticks included. */
    method FinishTurn(ghost worker: nat, batch: seq<Row>, o: Outcome) returns (sleep: Option<real>)
      requires Valid() && store.Recorded() && batch != []
      requires worker in store.state.flights && store.state.flights[worker] == Flight(batch, None)
      modifies this, store`rows, store`state
      ensures Valid() && store.Recorded()
      ensures store.state == Run(old(store.state), StepsOf(worker, o))
      ensures if Sends(o) then sleep == None && failed == 0
              else sleep == Some(Backoff(flushInterval, failed)) &&
                   failed == old(failed) + if o.Raised? then 0 else 1
      ensures store.state.flights == old(store.state.flights) - {worker}
    {
      hide Run, Backoff, Reachable, Marked;
      var sent := FinishTick(worker, batch, o);
      if sent.Some? && sent.value > 0 {
        backoff := flushInterval;
        failed := 0;
        NoFailures(flushInterval);
        return None;
      }
      sleep := Some(backoff);
    }

    /** Ticks until the queue is empty, a tick sends nothing, or the deadline passes: the
        deadline leaves time for as many ticks as there are outcomes. */
    method FlushNow(ghost worker: nat, outcomes: seq<Outcome>) returns (total: Option<nat>)
      requires Valid() && store.Recorded() && worker !in store.state.flights
      modifies this, store`rows, store`state
      ensures Valid() && store.Recorded()
      ensures var r := Flush(old(store.Table()), batchSize, outcomes);
              && store.Table() == r.table
              && total == (if r.raised then None else Some(r.total))
              && failed == old(failed) + (if r.marked then 1 else 0)
    {
      hide Flush, AfterTick, Oldest, Reachable, Backoff;
      var sum: nat, i: nat := 0, 0;
      ghost var whole := Flush(store.Table(), batchSize, outcomes);
      assert outcomes[0..] == outcomes;
      while i < |outcomes|
        invariant 0 <= i <= |outcomes|
        invariant Valid() && store.Recorded() && worker !in store.state.flights && failed == old(failed)
        invariant Continues(whole, Flush(store.Table(), batchSize, outcomes[i..]), sum)
      {
        FlushUnfolds(store.Table(), batchSize, outcomes, i);
        var sent := Tick(worker, outcomes[i]);
        if sent.None? {
          return None;
        }
        if sent.value == 0 {
          return Some(sum);
        }
        sum := sum + sent.value;
        i := i + 1;
      }
      FlushEnds(store.Table(), batchSize, outcomes, i);
      total := Some(sum);
    }
  }

  /** rest is what is left of whole once sum rows have been sent. */
  ghost predicate Continues(whole: FlushResult, rest: FlushResult, sum: nat) {
    && whole.table == rest.table && whole.total == sum + rest.total
    && whole.marked == rest.marked && whole.raised == rest.raised
  }

  lemma FlushEnds(t: Table, limit: nat, outcomes: seq<Outcome>, i: nat)
    requires i == |outcomes|
    ensures Flush(t, limit, outcomes[i..]) == FlushResult(t, 0, 0, false, false)
  {
  }

  lemma FlushUnfolds(t: Table, limit: nat, outcomes: seq<Outcome>, i: nat)
    requires i < |outcomes|
    ensures var now, batch, o := Flush(t, limit, outcomes[i..]), Oldest(t, limit), outcomes[i];
            if batch == [] then now == FlushResult(t, 0, 0, false, false)
            else if Sends(o) then
              Continues(now, Flush(AfterTick(t, limit, o), limit, outcomes[i + 1..]), |batch|)
            else
              && now.table == AfterTick(t, limit, o) && now.total == 0 && now.marked == !o.Raised? && now.raised == o.Raised?
              && now.posts == if o.MintFailed? || o.Raised? then 0 else 1
  {
    assert outcomes[i..][0] == outcomes[i] && outcomes[i..][1..] == outcomes[i + 1..];
  }

  lemma RunOne(s: State, a: Step)
    ensures Run(s, [a]) == Exec(s, a)
  {
    assert [] + [a] == [a] && Run(s, []) == s;
    RunExtends(s, [], a);
  }

  lemma RunTwo(s: State, a: Step, b: Step)
    ensures Run(s, [a, b]) == Exec(Exec(s, a), b)
  {
    assert [a] + [b] == [a, b];
    RunOne(s, a);
    RunExtends(s, [a], b);
  }

  /** What the steps after the peek do to the state, taken together. */
  lemma TickSteps(s: State, worker: nat, o: Outcome)
    requires Reachable(s) && worker in s.flights && s.flights[worker].answer.None?
    ensures var t := Run(s, StepsOf(worker, o));
            && Reachable(t) && t.flights == s.flights - {worker}
            && t.maxSize == s.maxSize && t.dropped == s.dropped
            && t.table == Marked(s.table, Ids(s.flights[worker].batch), o)
            && t.posts == s.posts + (match o
                                     case Responded(status, _) => [Post(s.flights[worker].batch, Classify(status))]
                                     case Unreachable(_) => [Post(s.flights[worker].batch, NoResponse)]
                                     case _ => [])
  {
    match o
    case MintFailed(error) =>
      RunOne(s, MintFails(worker, error));
      ReachableStep(s, MintFails(worker, error));
    case Raised =>
      RunOne(s, Abort(worker));
      ReachableStep(s, Abort(worker));
    case Responded(status, error) => AnsweredSteps(s, worker, Classify(status), error);
    case Unreachable(error) => AnsweredSteps(s, worker, NoResponse, error);
  }

  lemma AnsweredSteps(s: State, worker: nat, a: Answer, error: string)
    requires Reachable(s) && worker in s.flights && s.flights[worker].answer.None?
    ensures var t := Run(s, [Answered(worker, a), Settle(worker, error)]);
            var ids := Ids(s.flights[worker].batch);
            && Reachable(t) && t.flights == s.flights - {worker}
            && t.maxSize == s.maxSize && t.dropped == s.dropped && t.posts == s.posts + [Post(s.flights[worker].batch, a)]
            && t.table == if IsFinal(a) then Delete(s.table, ids) else MarkRetry(s.table, ids, error)
  {
    RunTwo(s, Answered(worker, a), Settle(worker, error));
    ReachableStep(s, Answered(worker, a));
    ReachableStep(Exec(s, Answered(worker, a)), Settle(worker, error));
    assert s.flights[worker := Flight(s.flights[worker].batch, Some(a))] - {worker} == s.flights - {worker};
  }

  /** The table after a batch with these ids has met its outcome. */
  function Marked(t: Table, ids: seq<nat>, o: Outcome): Table {
    match o
    case Raised => t
    case MintFailed(error) => MarkRetry(t, ids, error)
    case Unreachable(error) => MarkRetry(t, ids, error)
    case Responded(_, error) => if Sends(o) then Delete(t, ids) else MarkRetry(t, ids, error)
  }

  /** The table after a tick on it that nothing interleaves with. */
  function AfterTick(t: Table, limit: nat, o: Outcome): Table { Marked(t, Ids(Oldest(t, limit)), o) }

  // ---------------------------------------------------------------------------
  // The drain
  // ---------------------------------------------------------------------------

  /** What a drain leaves: the table, the rows sent, the POSTs made, and whether it ended by
      marking a batch for retry or by an exception. */
  datatype FlushResult = FlushResult(table: Table, total: nat, posts: nat, marked: bool, raised: bool)

  function Flush(t: Table, limit: nat, outcomes: seq<Outcome>): FlushResult
    decreases |outcomes|
  {
    var batch := Oldest(t, limit);
    if outcomes == [] || batch == [] then FlushResult(t, 0, 0, false, false)
    else
      var o := outcomes[0];
      var posted := if o.Responded? || o.Unreachable? then 1 else 0;
      if Sends(o) then
        var rest := Flush(AfterTick(t, limit, o), limit, outcomes[1..]);
        rest.(total := |batch| + rest.total, posts := 1 + rest.posts)
      else FlushResult(AfterTick(t, limit, o), 0, posted, !o.Raised?, o.Raised?)
  }

  /** An acknowledged batch is exactly the oldest rows. */
  lemma SentBatchIsCut(t: Table, head: nat, limit: nat, o: Outcome)
    requires IsRun(Ids(t.rows), head) && Sends(o)
    ensures var n := |Oldest(t, limit)|;
            && AfterTick(t, limit, o).rows == t.rows[n..]
            && IsRun(Ids(t.rows[n..]), head + n)
  {
    var batch := Oldest(t, limit);
    assert forall i | 0 <= i < |batch| :: Ids(batch)[i] == Ids(t.rows)[i];
    DeleteCutsPrefix(t.rows, head, Ids(batch), head);
    assert forall i | 0 <= i < |t.rows| - |batch| :: Ids(t.rows[|batch|..])[i] == Ids(t.rows)[|batch| + i];
  }

  /** The same events under the same ids; retry counts may differ. */
  ghost predicate SameEvents(a: seq<Row>, b: seq<Row>) {
    |a| == |b| && forall i | 0 <= i < |a| :: a[i].id == b[i].id && a[i].payload == b[i].payload
  }

  lemma WaitingKeepsEvents(t: Table, limit: nat, o: Outcome)
    requires !Sends(o)
    ensures SameEvents(AfterTick(t, limit, o).rows, t.rows)
  {
  }

  /** The number a drain returns is exactly the drop in the length of the queue, and what is
      left is the rest of the queue, in order. */
  lemma {:induction false} FlushTotalIsTheDrop(t: Table, head: nat, limit: nat, outcomes: seq<Outcome>)
    requires IsRun(Ids(t.rows), head)
    ensures var r := Flush(t, limit, outcomes);
            r.total <= |t.rows| && SameEvents(r.table.rows, t.rows[r.total..])
    decreases |outcomes|
  {
    hide AfterTick, IsRun;
    if outcomes != [] && Oldest(t, limit) != [] {
      var after, n := AfterTick(t, limit, outcomes[0]), |Oldest(t, limit)|;
      if Sends(outcomes[0]) {
        SentBatchIsCut(t, head, limit, outcomes[0]);
        FlushTotalIsTheDrop(after, head + n, limit, outcomes[1..]);
        var rest := Flush(after, limit, outcomes[1..]);
        assert t.rows[n..][rest.total..] == t.rows[n + rest.total..];
      } else {
        WaitingKeepsEvents(t, limit, outcomes[0]);
        assert t.rows[0..] == t.rows;
      }
    }
  }

  /** How many batches it takes to send n rows: ceil(n / limit). */
  function Batches(n: nat, limit: nat): nat
    requires limit > 0
  {
    if n == 0 then 0 else 1 + Batches(if n <= limit then 0 else n - limit, limit)
  }

  lemma {:induction false} BatchesIsCeiling(n: nat, limit: nat)
    requires limit > 0
    ensures n <= Batches(n, limit) * limit
    ensures n > 0 ==> (Batches(n, limit) - 1) * limit < n
  {
    if n > limit {
      BatchesIsCeiling(n - limit, limit);
      var k := Batches(n - limit, limit);
      assert (k + 1) * limit == k * limit + limit && (k - 1) * limit == k * limit - limit;
    } else if n > 0 {
      assert Batches(0, limit) == 0 && Batches(n, limit) == 1;
    }
  }

  /** With time for enough ticks and every POST answered 2xx, 400 or 422, a drain empties the
      queue in exactly ceil(n / limit) POSTs. */
  lemma {:induction false} FlushEmptiesTheQueue(t: Table, head: nat, limit: nat, outcomes: seq<Outcome>)
    requires IsRun(Ids(t.rows), head) && limit > 0
    requires forall o | o in outcomes :: Sends(o)
    requires |outcomes| >= Batches(|t.rows|, limit)
    ensures var r := Flush(t, limit, outcomes);
            r.table.rows == [] && r.total == |t.rows| && r.posts == Batches(|t.rows|, limit) && !r.marked && !r.raised
    decreases |outcomes|
  {
    if t.rows != [] {
      assert outcomes[0] in outcomes;
      SentBatchIsCut(t, head, limit, outcomes[0]);
      var n := |Oldest(t, limit)|;
      FlushEmptiesTheQueue(AfterTick(t, limit, outcomes[0]), head + n, limit, outcomes[1..]);
    }
  }

  /** The drain arithmetic of `FlushNow` in any state a run can reach: with no concurrent
      producers it returns the drop in the length of the queue, and with time for
      ceil(n / limit) ticks that all send it empties the queue in that many POSTs. */
  lemma DrainArithmetic(s: State, limit: nat, outcomes: seq<Outcome>)
    requires Reachable(s)
    ensures var r := Flush(s.table, limit, outcomes);
            && r.total == |s.table.rows| - |r.table.rows|
            && ((forall o | o in outcomes :: Sends(o)) && limit > 0 && |outcomes| >= Batches(|s.table.rows|, limit) ==>
                  r.table.rows == [] && r.posts == Batches(|s.table.rows|, limit) && !r.raised)
  {
    hide Flush;
    ReachableInv(s);
    WindowIds(s.accepted, s.table.rows, Removed(s));
    FlushTotalIsTheDrop(s.table, Removed(s), limit, outcomes);
    if (forall o | o in outcomes :: Sends(o)) && limit > 0 && |outcomes| >= Batches(|s.table.rows|, limit) {
      FlushEmptiesTheQueue(s.table, Removed(s), limit, outcomes);
    }
  }
}
