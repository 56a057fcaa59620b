/** How fast an event leaves the queue while producers and other ticks keep running. */
module TelemetryProgress {
  import opened Values
  import opened TelemetryTable
  import opened TelemetryProtocol

  /** A step of anybody else in the same process. */
  predicate Foreign(worker: nat, step: Step) {
    match step
    case Enqueue(_) => true
    case Peek(w, _) => w != worker
    case MintFails(w, _) => w != worker
    case Answered(w, _) => w != worker
    case Settle(w, _) => w != worker
    case Abort(w) => w != worker
    case Restart(_) => false
  }

  ghost predicate AllForeign(worker: nat, steps: seq<Step>) {
    forall step | step in steps :: Foreign(worker, step)
  }

  /** How a tick goes on after its peek: the POST is answered, finally or not, and the batch is
      then settled; the mint fails; or an exception ends the tick. */
  datatype Ending =
    | Posted(answer: Answer, after: seq<Step>)
    | MintFailed
    | Aborted

  /** One tick of a worker: what others do before its peek, between its peek and its end or the
      answer, and between the answer and the settlement. */
  datatype Round = Round(before: seq<Step>, during: seq<Step>, ending: Ending)

  ghost predicate RoundOk(worker: nat, r: Round) {
    && AllForeign(worker, r.before) && AllForeign(worker, r.during)
    && (r.ending.Posted? ==> AllForeign(worker, r.ending.after))
  }

  /** The POST is answered 2xx, 400 or 422. */
  predicate Answers(r: Round) { r.ending.Posted? && IsFinal(r.ending.answer) }

  function CountAnswered(rounds: seq<Round>): nat {
    if rounds == [] then 0
    else CountAnswered(rounds[..|rounds| - 1]) + if Answers(rounds[|rounds| - 1]) then 1 else 0
  }

  ghost function Play(s: State, worker: nat, limit: nat, r: Round): State {
    var waited := Run(Exec(Run(s, r.before), Peek(worker, limit)), r.during);
    match r.ending
    case Posted(answer, after) => Exec(Run(Exec(waited, Step.Answered(worker, answer)), after), Settle(worker, ""))
    case MintFailed => Exec(waited, MintFails(worker, ""))
    case Aborted => Exec(waited, Abort(worker))
  }

  ghost function PlayAll(s: State, worker: nat, limit: nat, rounds: seq<Round>): State {
    if rounds == [] then s
    else Play(PlayAll(s, worker, limit, rounds[..|rounds| - 1]), worker, limit, rounds[|rounds| - 1])
  }

  lemma StepNeverRestores(s: State, step: Step)
    requires Inv(s)
    ensures Removed(s) <= Removed(Exec(s, step))
  {
    StepKeepsInv(s, step);
    match step
    case Settle(w, error) =>
      if w in s.flights { WithoutShrinks(s.table.rows, Ids(s.flights[w].batch)); }
    case _ =>
  }

  /** t comes after s in the same process, and worker's tick is where it was. */
  ghost predicate Later(worker: nat, s: State, t: State) {
    && Removed(s) <= Removed(t) && |s.accepted| <= |t.accepted|
    && (worker in t.flights <==> worker in s.flights)
    && (worker in s.flights ==> t.flights[worker] == s.flights[worker])
  }

  lemma ForeignStep(s: State, worker: nat, step: Step)
    requires Inv(s) && Foreign(worker, step)
    ensures Inv(Exec(s, step)) && Later(worker, s, Exec(s, step))
  {
    hide Inv;
    StepKeepsInv(s, step);
    StepNeverRestores(s, step);
    StepOnlyAppends(s, step);
  }

  /** Others never touch a worker's batch, and never put a removed event back. */
  lemma {:induction false} ForeignSteps(s: State, worker: nat, steps: seq<Step>)
    requires Inv(s) && AllForeign(worker, steps)
    ensures Inv(Run(s, steps)) && Later(worker, s, Run(s, steps))
  {
    hide Inv, Exec;
    if steps != [] {
      var front, last := steps[..|steps| - 1], steps[|steps| - 1];
      assert last in steps && forall step | step in front :: step in steps;
      ForeignSteps(s, worker, front);
      ForeignStep(Run(s, front), worker, last);
    }
  }

  /** The number of the last event of a batch. */
  function BatchEnd(batch: seq<Row>): int {
    if batch == [] then 0 else Low(batch) + |batch|
  }

  /** Peeking takes the oldest events into flight. */
  lemma PeekTakes(s: State, worker: nat, limit: nat)
    requires Inv(s) && worker !in s.flights
    ensures var t := Exec(s, Peek(worker, limit));
            && Inv(t) && Removed(t) == Removed(s) && t.accepted == s.accepted
            && (worker in t.flights ==>
                  && t.flights[worker].answer.None?
                  && (BatchEnd(t.flights[worker].batch) >= Removed(s) + limit ||
                      BatchEnd(t.flights[worker].batch) >= |s.accepted|))
            && (worker !in t.flights ==> limit == 0 || Removed(s) >= |s.accepted|)
  {
    StepKeepsInv(s, Peek(worker, limit));
  }

  lemma AnswerKeeps(s: State, worker: nat, a: Answer)
    requires Inv(s) && (worker in s.flights ==> s.flights[worker].answer.None?)
    ensures var t := Exec(s, Step.Answered(worker, a));
            && Inv(t) && Removed(t) == Removed(s) && t.accepted == s.accepted
            && (worker in t.flights <==> worker in s.flights)
            && (worker in s.flights ==> t.flights[worker] == Flight(s.flights[worker].batch, Some(a)))
  {
    hide Inv;
    StepKeepsInv(s, Step.Answered(worker, a));
  }

  lemma SettleRemoves(s: State, worker: nat)
    requires Inv(s)
    requires worker in s.flights ==> s.flights[worker].answer.Some?
    ensures var t := Exec(s, Settle(worker, ""));
            && Inv(t) && worker !in t.flights && t.accepted == s.accepted && Removed(t) >= Removed(s)
            && (worker in s.flights && IsFinal(s.flights[worker].answer.value) ==>
                  Removed(t) >= BatchEnd(s.flights[worker].batch))
  {
    StepKeepsInv(s, Settle(worker, ""));
    StepNeverRestores(s, Settle(worker, ""));
    if worker in s.flights && IsFinal(s.flights[worker].answer.value) {
      assert FlightOk(s, s.flights[worker]);
      AckCuts(s, worker);
    }
  }

  /** A tick that ends without an answer lands, and removes nothing. */
  lemma UnansweredLands(s: State, worker: nat, step: Step)
    requires Inv(s) && (worker in s.flights ==> s.flights[worker].answer.None?)
    requires step == MintFails(worker, "") || step == Abort(worker)
    ensures var t := Exec(s, step);
            Inv(t) && worker !in t.flights && t.accepted == s.accepted && Removed(t) == Removed(s)
  {
    hide Inv;
    StepKeepsInv(s, step);
  }

  /** No round loses anything; and one that is answered 2xx, 400 or 422 takes at least `limit`
      events off the queue, or all that were there at its peek. */
  lemma RoundRemoves(s: State, worker: nat, limit: nat, r: Round)
    requires Inv(s) && worker !in s.flights && RoundOk(worker, r)
    ensures var t := Play(s, worker, limit, r);
            && Inv(t) && worker !in t.flights && |s.accepted| <= |t.accepted| && Removed(s) <= Removed(t)
            && (Answers(r) ==> Removed(t) >= Removed(s) + limit || Removed(t) >= |s.accepted|)
  {
    hide Inv, Exec, Run;
    var ready := Run(s, r.before);
    ForeignSteps(s, worker, r.before);
    PeekTakes(ready, worker, limit);
    var peeked := Exec(ready, Peek(worker, limit));
    ForeignSteps(peeked, worker, r.during);
    var waited := Run(peeked, r.during);
    match r.ending
    case Posted(answer, after) =>
      AnswerKeeps(waited, worker, answer);
      var answered := Exec(waited, Step.Answered(worker, answer));
      ForeignSteps(answered, worker, after);
      SettleRemoves(Run(answered, after), worker);
    case MintFailed => UnansweredLands(waited, worker, MintFails(worker, ""));
    case Aborted => UnansweredLands(waited, worker, Abort(worker));
  }

  lemma {:induction false} EventLeaves(s: State, worker: nat, limit: nat, rounds: seq<Round>)
    requires Inv(s) && worker !in s.flights
    requires forall r | r in rounds :: RoundOk(worker, r)
    ensures var t := PlayAll(s, worker, limit, rounds);
            && Inv(t) && worker !in t.flights && |s.accepted| <= |t.accepted|
            && (Removed(t) >= Removed(s) + CountAnswered(rounds) * limit || Removed(t) >= |s.accepted|)
  {
    hide Inv, Play;
    if rounds != [] {
      var front, last := rounds[..|rounds| - 1], rounds[|rounds| - 1];
      assert last in rounds && forall r | r in front :: r in rounds;
      EventLeaves(s, worker, limit, front);
      RoundRemoves(PlayAll(s, worker, limit, front), worker, limit, last);
      if Answers(last) { assert CountAnswered(rounds) * limit == CountAnswered(front) * limit + limit; }
    }
  }

  /** An event at position p is gone after p / limit + 1 answered ticks of one worker, whatever
      producers and other ticks do in the meantime, and however many of the worker's own ticks
      fail in between. */
  lemma EventAtPositionLeaves(s: State, worker: nat, limit: nat, rounds: seq<Round>, p: nat)
    requires Reachable(s) && worker !in s.flights && limit > 0
    requires forall r | r in rounds :: RoundOk(worker, r)
    requires p < |s.table.rows| && CountAnswered(rounds) >= p / limit + 1
    ensures var t := PlayAll(s, worker, limit, rounds);
            forall row | row in t.table.rows :: row.id > s.table.rows[p].id
  {
    ReachableInv(s);
    EventLeaves(s, worker, limit, rounds);
    ProductExceeds(p, limit, CountAnswered(rounds));
  }

  lemma ProductExceeds(p: nat, limit: nat, rounds: nat)
    requires limit > 0 && rounds >= p / limit + 1
    ensures rounds * limit > p
  {
    var q, m := p / limit, p % limit;
    assert p == q * limit + m;
    assert (q + 1) * limit == q * limit + limit;
    assert rounds * limit >= (q + 1) * limit;
  }
}
