/** What the synchronous drain returns while producers and other ticks keep running. */
module TelemetryDrain {
  import opened Values
  import opened Ordering
  import opened TelemetryTable
  import opened TelemetryProtocol
  import opened TelemetryProgress

  /** The rows of the batch that are no longer in the table. */
  function Gone(batch: seq<Row>, rows: seq<Row>): nat {
    |Filter(batch, (row: Row) => row.id !in Ids(rows))|
  }

  /** Of a batch that is acknowledged, every row is deleted now or was deleted before. */
  lemma AckAccounts(s: State, w: nat)
    requires Inv(s) && w in s.flights
    ensures var batch, t := s.flights[w].batch, Acknowledge(s, w);
            |batch| == (|s.table.rows| - |t.table.rows|) + Gone(batch, s.table.rows)
  {
    hide RetriesCount, RemovedWereDelivered, FailuresOk, Acknowledge;
    var batch := s.flights[w].batch;
    assert FlightOk(s, s.flights[w]);
    AckCuts(s, w);
    WindowIds(s.accepted, s.table.rows, Removed(s));
    RunMembers(Ids(s.table.rows), Removed(s));
    var gone := if Removed(s) - Low(batch) <= |batch| then Removed(s) - Low(batch) else |batch|;
    FilterPrefix(batch, (row: Row) => row.id !in Ids(s.table.rows), gone);
  }

  /** The state in which a round's batch is settled, when its POST is answered. */
  ghost function BeforeSettle(s: State, worker: nat, limit: nat, r: Round): State
    requires r.ending.Posted?
  {
    var waited := Run(Exec(Run(s, r.before), Peek(worker, limit)), r.during);
    Run(Exec(waited, Step.Answered(worker, r.ending.answer)), r.ending.after)
  }

  /** What a tick returns: the size of its batch if the POST is answered 2xx, 400 or 422. */
  ghost function Sent(s: State, worker: nat, limit: nat, r: Round): nat {
    if !Answers(r) then 0
    else
      var u := BeforeSettle(s, worker, limit, r);
      if worker in u.flights then |u.flights[worker].batch| else 0
  }

  /** Of that, the rows its own acknowledgement deletes, and those that others deleted before. */
  ghost function OwnDeletions(s: State, worker: nat, limit: nat, r: Round): int {
    if Sent(s, worker, limit, r) == 0 then 0
    else
      var u := BeforeSettle(s, worker, limit, r);
      |u.table.rows| - |Exec(u, Settle(worker, "")).table.rows|
  }

  ghost function DeletedByOthers(s: State, worker: nat, limit: nat, r: Round): nat {
    if Sent(s, worker, limit, r) == 0 then 0
    else
      var u := BeforeSettle(s, worker, limit, r);
      Gone(u.flights[worker].batch, u.table.rows)
  }

  /** A drain among others: tick after tick until one returns nothing, or the rounds that the
      deadline leaves time for are used up. */
  datatype Drained = Drained(state: State, total: nat, own: int, others: nat)

  ghost function Drain(s: State, worker: nat, limit: nat, rounds: seq<Round>): Drained
    decreases |rounds|
  {
    if rounds == [] then Drained(s, 0, 0, 0)
    else
      var r, t := rounds[0], Play(s, worker, limit, rounds[0]);
      if Sent(s, worker, limit, r) == 0 then Drained(t, 0, 0, 0)
      else
        var rest := Drain(t, worker, limit, rounds[1..]);
        rest.(total := Sent(s, worker, limit, r) + rest.total,
              own := OwnDeletions(s, worker, limit, r) + rest.own,
              others := DeletedByOthers(s, worker, limit, r) + rest.others)
  }

  /** What holds on the way to the settlement of an answered round. */
  lemma ReadyToSettle(s: State, worker: nat, limit: nat, r: Round)
    requires Inv(s) && worker !in s.flights && RoundOk(worker, r) && Answers(r)
    ensures var u := BeforeSettle(s, worker, limit, r);
            && Inv(u) && Removed(s) <= Removed(u)
            && Play(s, worker, limit, r) == Exec(u, Settle(worker, ""))
            && (worker in u.flights ==> u.flights[worker].answer == Some(r.ending.answer))
  {
    hide Inv, Exec, Run;
    var ready := Run(s, r.before);
    ForeignSteps(s, worker, r.before);
    PeekTakes(ready, worker, limit);
    var peeked := Exec(ready, Peek(worker, limit));
    ForeignSteps(peeked, worker, r.during);
    AnswerKeeps(Run(peeked, r.during), worker, r.ending.answer);
    ForeignSteps(Exec(Run(peeked, r.during), Step.Answered(worker, r.ending.answer)), worker, r.ending.after);
  }

  lemma RoundAccounts(s: State, worker: nat, limit: nat, r: Round)
    requires Inv(s) && worker !in s.flights && RoundOk(worker, r)
    ensures var t := Play(s, worker, limit, r);
            && Inv(t) && worker !in t.flights
            && 0 <= OwnDeletions(s, worker, limit, r) <= Removed(t) - Removed(s)
            && Sent(s, worker, limit, r) == OwnDeletions(s, worker, limit, r) + DeletedByOthers(s, worker, limit, r)
  {
    hide Inv, Play, BeforeSettle;
    RoundRemoves(s, worker, limit, r);
    if Answers(r) {
      ReadyToSettle(s, worker, limit, r);
      var u := BeforeSettle(s, worker, limit, r);
      if worker in u.flights {
        AckAccounts(u, worker);
        StepNeverRestores(u, Settle(worker, ""));
        SettleOnlyDeletes(u, worker);
      }
    }
  }

  lemma SettleOnlyDeletes(s: State, worker: nat)
    requires worker in s.flights && s.flights[worker].answer.Some? && IsFinal(s.flights[worker].answer.value)
    ensures var t := Exec(s, Settle(worker, ""));
            && t == Acknowledge(s, worker) && t.accepted == s.accepted && |t.table.rows| <= |s.table.rows|
            && Removed(t) - Removed(s) == |s.table.rows| - |t.table.rows|
  {
    WithoutShrinks(s.table.rows, Ids(s.flights[worker].batch));
  }

  /** Whatever producers and other ticks do meanwhile, the total a drain returns is the number of
      rows it deleted itself plus the rows of its batches that others had deleted before it could.
      So it never undercounts, and it never claims more deletions of its own than there were. */
  lemma {:induction false} DrainAccounts(s: State, worker: nat, limit: nat, rounds: seq<Round>)
    requires Inv(s) && worker !in s.flights
    requires forall r | r in rounds :: RoundOk(worker, r)
    ensures var d := Drain(s, worker, limit, rounds);
            && Inv(d.state) && worker !in d.state.flights
            && d.total == d.own + d.others && 0 <= d.own <= d.state.deleted - s.deleted
    decreases |rounds|
  {
    hide Play, Sent, OwnDeletions, DeletedByOthers, RoundOk;
    hide RowsAreSuffix, FlightsOk, FailuresOk, RetriesCount, RemovedWereDelivered;
    if rounds != [] {
      assert rounds[0] in rounds && forall r | r in rounds[1..] :: r in rounds;
      RoundAccounts(s, worker, limit, rounds[0]);
      DrainAccounts(Play(s, worker, limit, rounds[0]), worker, limit, rounds[1..]);
    }
  }

  ghost predicate NobodyElseSettles(r: Round) {
    && (forall step | step in r.before + r.during :: !step.Settle?)
    && (r.ending.Posted? ==> forall step | step in r.ending.after :: !step.Settle?)
  }

  lemma UnsettledStep(s: State, step: Step)
    requires !step.Settle? && !step.Restart?
    ensures Removed(Exec(s, step)) == Removed(s)
  {
  }

  lemma {:induction false} UnsettledSteps(s: State, worker: nat, steps: seq<Step>)
    requires AllForeign(worker, steps) && forall step | step in steps :: !step.Settle?
    ensures Removed(Run(s, steps)) == Removed(s)
  {
    hide Exec;
    if steps != [] {
      var front, last := steps[..|steps| - 1], steps[|steps| - 1];
      assert last in steps && forall step | step in front :: step in steps;
      UnsettledSteps(s, worker, front);
      UnsettledStep(Run(s, front), last);
    }
  }

  lemma PeekStartsAtHead(s: State, worker: nat, limit: nat)
    requires Inv(s) && worker !in s.flights
    ensures var t := Exec(s, Peek(worker, limit));
            worker in t.flights ==> t.flights[worker].batch != [] && Low(t.flights[worker].batch) == Removed(s)
  {
  }

  /** A batch that starts at the oldest live row is all there. */
  lemma NothingGone(s: State, worker: nat)
    requires Inv(s) && worker in s.flights && Low(s.flights[worker].batch) == Removed(s)
    ensures Gone(s.flights[worker].batch, s.table.rows) == 0
  {
    hide RetriesCount, RemovedWereDelivered, FailuresOk;
    var batch := s.flights[worker].batch;
    assert FlightOk(s, s.flights[worker]);
    WindowIds(s.accepted, s.table.rows, Removed(s));
    RunMembers(Ids(s.table.rows), Removed(s));
    FilterPrefix(batch, (row: Row) => row.id !in Ids(s.table.rows), 0);
  }

  lemma BatchIsAllThere(s: State, worker: nat, limit: nat, r: Round)
    requires Inv(s) && worker !in s.flights && RoundOk(worker, r) && NobodyElseSettles(r) && Answers(r)
    ensures var u := BeforeSettle(s, worker, limit, r);
            && Removed(u) == Removed(s)
            && (worker in u.flights ==> u.flights[worker].batch != [] && Low(u.flights[worker].batch) == Removed(s))
  {
    hide Inv, Exec, Run;
    var ready := Run(s, r.before);
    var peeked := Exec(ready, Peek(worker, limit));
    var waited := Run(peeked, r.during);
    var answered := Exec(waited, Step.Answered(worker, r.ending.answer));
    ForeignSteps(s, worker, r.before);
    UnsettledSteps(s, worker, r.before);
    PeekTakes(ready, worker, limit);
    PeekStartsAtHead(ready, worker, limit);
    ForeignSteps(peeked, worker, r.during);
    UnsettledSteps(peeked, worker, r.during);
    AnswerKeeps(waited, worker, r.ending.answer);
    ForeignSteps(answered, worker, r.ending.after);
    UnsettledSteps(answered, worker, r.ending.after);
  }

  /** A round that sends nothing removes nothing. */
  lemma IdleRoundKeeps(s: State, worker: nat, limit: nat, r: Round)
    requires Inv(s) && worker !in s.flights && RoundOk(worker, r) && NobodyElseSettles(r)
    requires Sent(s, worker, limit, r) == 0
    ensures Removed(Play(s, worker, limit, r)) == Removed(s)
  {
    hide Inv, Exec, Run;
    var ready := Run(s, r.before);
    var peeked := Exec(ready, Peek(worker, limit));
    var waited := Run(peeked, r.during);
    ForeignSteps(s, worker, r.before);
    UnsettledSteps(s, worker, r.before);
    PeekTakes(ready, worker, limit);
    ForeignSteps(peeked, worker, r.during);
    UnsettledSteps(peeked, worker, r.during);
    match r.ending
    case Posted(answer, after) =>
      AnswerKeeps(waited, worker, answer);
      var answered := Exec(waited, Step.Answered(worker, answer));
      ForeignSteps(answered, worker, after);
      UnsettledSteps(answered, worker, after);
      if Answers(r) { BatchIsAllThere(s, worker, limit, r); }
      UnsentSettlement(Run(answered, after), worker);
    case MintFailed => UnsettledStep(waited, MintFails(worker, ""));
    case Aborted => UnsettledStep(waited, Abort(worker));
  }

  lemma UnsentSettlement(s: State, worker: nat)
    requires worker in s.flights && s.flights[worker].answer.Some? ==> !IsFinal(s.flights[worker].answer.value)
    ensures Removed(Exec(s, Settle(worker, ""))) == Removed(s)
  {
  }

  lemma RoundAmongProducers(s: State, worker: nat, limit: nat, r: Round)
    requires Inv(s) && worker !in s.flights && RoundOk(worker, r) && NobodyElseSettles(r)
    ensures DeletedByOthers(s, worker, limit, r) == 0
    ensures Sent(s, worker, limit, r) == Removed(Play(s, worker, limit, r)) - Removed(s)
  {
    hide Inv, Play, BeforeSettle, Gone, NobodyElseSettles, RoundOk;
    if Sent(s, worker, limit, r) == 0 {
      IdleRoundKeeps(s, worker, limit, r);
    } else {
      ReadyToSettle(s, worker, limit, r);
      BatchIsAllThere(s, worker, limit, r);
      var u := BeforeSettle(s, worker, limit, r);
      NothingGone(u, worker);
      AckAccounts(u, worker);
      SettleOnlyDeletes(u, worker);
    }
  }

  /** With producers running but nobody else acknowledging, the total is exactly the number of
      rows that left the queue. */
  lemma {:induction false} DrainAmongProducers(s: State, worker: nat, limit: nat, rounds: seq<Round>)
    requires Inv(s) && worker !in s.flights
    requires forall r | r in rounds :: RoundOk(worker, r) && NobodyElseSettles(r)
    ensures var d := Drain(s, worker, limit, rounds); d.total == d.state.deleted - s.deleted && d.others == 0
    decreases |rounds|
  {
    hide Play, Sent, DeletedByOthers, RoundOk, NobodyElseSettles;
    hide RowsAreSuffix, FlightsOk, FailuresOk, RetriesCount, RemovedWereDelivered;
    if rounds != [] {
      assert rounds[0] in rounds && forall r | r in rounds[1..] :: r in rounds;
      RoundAccounts(s, worker, limit, rounds[0]);
      RoundAmongProducers(s, worker, limit, rounds[0]);
      DrainAmongProducers(Play(s, worker, limit, rounds[0]), worker, limit, rounds[1..]);
    }
  }
}
