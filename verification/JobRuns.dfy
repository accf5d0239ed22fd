/** Runs of the job table over every interleaving of requests and worker steps. */
module JobRuns {
  import opened Wrappers
  import opened Jobs

  datatype Action =
    | Submitting(now: nat, random: Option<string>)
    | Polling(now: nat, id: string)
    | Checking(now: nat)
    | Receiving
    | Starting
    | Finishing(now: nat, outcome: Result<Sample, string>)

  function Next(t: Table, a: Action): Table {
    match a
    case Submitting(now, random) => Submit(t, now, random).0
    case Polling(now, id) => Poll(t, now, id).0
    case Checking(now) => Health(t, now).0
    case Receiving => Receive(t)
    case Starting => Start(t)
    case Finishing(now, outcome) => Finish(t, now, outcome)
  }

  function After(actions: seq<Action>): Table {
    if actions == [] then EMPTY else Next(After(actions[..|actions| - 1]), actions[|actions| - 1])
  }

  lemma NextKeeps(t: Table, a: Action)
    requires TableInv(t)
    ensures TableInv(Next(t, a)) && Unwraps(t)
  {
    StartKeeps(t);
    match a {
      case Submitting(now, random) => SubmitKeeps(t, now, random);
      case Polling(now, _) => ExpiryKeeps(t, now);
      case Checking(now) => ExpiryKeeps(t, now);
      case Receiving => ReceiveKeeps(t);
      case Starting =>
      case Finishing(now, outcome) => FinishKeeps(t, now, outcome);
    }
  }

  /** After every interleaving, each unfinished slot is in exactly one of the channel and the worker's hand, no
      finished or free slot is in either, and neither unwrap of the worker can fail. */
  lemma {:induction false} RunsKeepTable(actions: seq<Action>)
    ensures TableInv(After(actions)) && Unwraps(After(actions))
  {
    hide TableInv, Next;
    if actions == [] {
      EmptyTable();
    } else {
      var t := After(actions[..|actions| - 1]);
      RunsKeepTable(actions[..|actions| - 1]);
      NextKeeps(t, actions[|actions| - 1]);
    }
    NextKeeps(After(actions), Receiving);
  }

  lemma EmptyTable()
    ensures TableInv(EMPTY)
  {
    forall i | 0 <= i < CAPACITY ensures SlotInv(EMPTY, i) {
    }
  }

  // ---- What was accepted and what came of it ----

  datatype Outcome = Outcome(result: Result<Sample, string>, at: nat)

  /** The ids answered with 202, in order. */
  function Tickets(actions: seq<Action>): seq<string> {
    if actions == [] then []
    else
      var front, a := actions[..|actions| - 1], actions[|actions| - 1];
      Tickets(front)
      + if a.Submitting? && Submit(After(front), a.now, a.random).1.Accepted?
        then [Submit(After(front), a.now, a.random).1.id] else []
  }

  /** The outcomes the worker recorded, in order. */
  function Outcomes(actions: seq<Action>): seq<Outcome> {
    if actions == [] then []
    else
      var front, a := actions[..|actions| - 1], actions[|actions| - 1];
      Outcomes(front)
      + if a.Finishing? && After(front).worker.Querying? then [Outcome(a.outcome, a.now)] else []
  }

  function IdAt(slots: Slots, i: nat): string {
    if i < |slots| && slots[i].Some? then slots[i].value.id else ""
  }

  /** The ids of unfinished jobs: the worker's, then the channel's. */
  function InFlight(t: Table): seq<string> {
    (if t.worker.Waiting? then [] else [IdAt(t.slots, t.worker.index)])
    + seq(|t.queue|, k requires 0 <= k < |t.queue| => IdAt(t.slots, t.queue[k]))
  }

  /** A ticket's job once its outcome is in. */
  function Done(id: string, o: Outcome): Job {
    match o.result
    case Success(sample) => Job(id, Succeeded, Some(sample), None, Some(o.at))
    case Failure(error) => Job(id, Failed, None, Some(error), Some(o.at))
  }

  /** The job is that of ticket `k`, unfinished if its outcome is still to come. */
  ghost predicate Serves(job: Job, k: nat, tickets: seq<string>, outcomes: seq<Outcome>) {
    && k < |tickets| && job.id == tickets[k]
    && if k < |outcomes| then job == Done(tickets[k], outcomes[k]) else !job.Terminal()
  }

  ghost predicate Served(job: Job, tickets: seq<string>, outcomes: seq<Outcome>) {
    exists k: nat :: Serves(job, k, tickets, outcomes)
  }

  /** A finished ticket's job is in the table until its retention has passed. */
  ghost predicate Kept(slots: Slots, id: string, o: Outcome, now: nat) {
    now < o.at + RETENTION ==> Some(Done(id, o)) in slots
  }

  ghost predicate DistinctIds(slots: Slots) {
    forall a, b :: 0 <= a < b < |slots| && slots[a].Some? && slots[b].Some? ==> slots[a].value.id != slots[b].value.id
  }

  ghost predicate DistinctTickets(tickets: seq<string>) {
    forall a, b :: 0 <= a < b < |tickets| ==> tickets[a] != tickets[b]
  }

  ghost predicate RunInv(t: Table, tickets: seq<string>, outcomes: seq<Outcome>, now: nat) {
    && |outcomes| <= |tickets|
    && InFlight(t) == tickets[|outcomes|..]
    && (forall i :: 0 <= i < |t.slots| && t.slots[i].Some? ==> Served(t.slots[i].value, tickets, outcomes))
    && DistinctIds(t.slots)
    && (forall k :: 0 <= k < |outcomes| ==> Kept(t.slots, tickets[k], outcomes[k], now))
  }

  /** The time of an action; worker steps that read no clock take none. */
  function Time(a: Action, before: nat): nat {
    match a
    case Receiving => before
    case Starting => before
    case _ => a.now
  }

  function Clock(actions: seq<Action>): nat {
    if actions == [] then 0 else Time(actions[|actions| - 1], Clock(actions[..|actions| - 1]))
  }

  /** Instants never go backwards. */
  ghost predicate Monotone(actions: seq<Action>) {
    actions != [] ==>
      && Monotone(actions[..|actions| - 1])
      && Clock(actions[..|actions| - 1]) <= Clock(actions)
  }

  // ---- Each step ----

  lemma ExpiryFlight(t: Table, now: nat)
    requires TableInv(t)
    ensures InFlight(t.(slots := Expire(t.slots, now))) == InFlight(t)
  {
    var t' := t.(slots := Expire(t.slots, now));
    forall i | 0 <= i < CAPACITY && (i in t.queue || t.worker.Holds(i)) ensures IdAt(t'.slots, i) == IdAt(t.slots, i) {
      assert SlotInv(t, i);
    }
    assert forall k :: 0 <= k < |t.queue| ==> t.queue[k] in t.queue;
  }

  lemma ExpiryRuns(t: Table, tickets: seq<string>, outcomes: seq<Outcome>, before: nat, now: nat)
    requires TableInv(t) && RunInv(t, tickets, outcomes, before) && before <= now
    ensures RunInv(t.(slots := Expire(t.slots, now)), tickets, outcomes, now)
  {
    hide InFlight, Served;
    ExpiryFlight(t, now);
    var slots := Expire(t.slots, now);
    forall k | 0 <= k < |outcomes| ensures Kept(slots, tickets[k], outcomes[k], now) {
      assert Kept(t.slots, tickets[k], outcomes[k], before);
      if now < outcomes[k].at + RETENTION {
        var i :| 0 <= i < |t.slots| && t.slots[i] == Some(Done(tickets[k], outcomes[k]));
        assert slots[i] == t.slots[i];
      }
    }
  }

  /** Every id on the table is a ticket. */
  lemma IdsAreTickets(t: Table, tickets: seq<string>, outcomes: seq<Outcome>, now: nat, i: nat)
    requires RunInv(t, tickets, outcomes, now) && i < |t.slots| && t.slots[i].Some?
    ensures t.slots[i].value.id in tickets
  {
    assert Served(t.slots[i].value, tickets, outcomes);
    var k: nat :| Serves(t.slots[i].value, k, tickets, outcomes);
  }

  lemma ServedMore(job: Job, tickets: seq<string>, outcomes: seq<Outcome>, id: string)
    requires Served(job, tickets, outcomes) && |outcomes| <= |tickets|
    ensures Served(job, tickets + [id], outcomes)
  {
    var k: nat :| Serves(job, k, tickets, outcomes);
    assert Serves(job, k, tickets + [id], outcomes);
  }

  lemma SubmitRuns(t: Table, tickets: seq<string>, outcomes: seq<Outcome>, before: nat, now: nat,
                   random: Option<string>)
    requires TableInv(t) && RunInv(t, tickets, outcomes, before) && before <= now
    requires random.Some? ==> random.value !in tickets
    ensures var (t', r) := Submit(t, now, random);
            RunInv(t', if r.Accepted? then tickets + [r.id] else tickets, outcomes, now)
  {
    ExpiryKeeps(t, now);
    ExpiryRuns(t, tickets, outcomes, before, now);
    SubmitKeeps(t, now, random);
    var e := t.(slots := Expire(t.slots, now));
    if FreeSlot(e.slots).Some? && random.Some? {
      hide TableInv, RunInv, InFlight;
      RoomForFreeSlot(e, FreeSlot(e.slots).value);
      PlacedRuns(e, tickets, outcomes, now, FreeSlot(e.slots).value, random.value);
    }
  }

  /** A new job in a free slot, its number at the end of the channel. */
  lemma PlacedRuns(t: Table, tickets: seq<string>, outcomes: seq<Outcome>, now: nat, i: nat, id: string)
    requires TableInv(t) && RunInv(t, tickets, outcomes, now) && id !in tickets
    requires i < |t.slots| && t.slots[i].None? && i !in t.queue && !t.worker.Holds(i)
    ensures RunInv(t.(slots := t.slots[i := Some(NewJob(id))], queue := t.queue + [i]), tickets + [id], outcomes, now)
  {
    var t' := t.(slots := t.slots[i := Some(NewJob(id))], queue := t.queue + [i]);
    PlacedFlight(t, i, id);
    hide InFlight, TableInv, Served;
    assert (tickets + [id])[|outcomes|..] == tickets[|outcomes|..] + [id];
    forall k | 0 <= k < |t.slots| && t.slots[k].Some?
      ensures Served(t.slots[k].value, tickets + [id], outcomes) && t.slots[k].value.id != id
    {
      ServedMore(t.slots[k].value, tickets, outcomes, id);
      IdsAreTickets(t, tickets, outcomes, now, k);
    }
    NewIsServed(tickets, outcomes, id);
    forall k | 0 <= k < |outcomes| ensures Kept(t'.slots, tickets[k], outcomes[k], now) {
      StaysKept(t.slots, i, Some(NewJob(id)), tickets[k], outcomes[k], now);
    }
  }

  lemma StaysKept(slots: Slots, i: nat, slot: Option<Job>, id: string, o: Outcome, now: nat)
    requires Kept(slots, id, o, now) && i < |slots| && slots[i] != Some(Done(id, o))
    ensures Kept(slots[i := slot], id, o, now)
  {
    if now < o.at + RETENTION {
      var k :| 0 <= k < |slots| && slots[k] == Some(Done(id, o));
      assert slots[i := slot][k] == slots[k];
    }
  }

  lemma NewIsServed(tickets: seq<string>, outcomes: seq<Outcome>, id: string)
    requires |outcomes| <= |tickets|
    ensures Served(NewJob(id), tickets + [id], outcomes)
  {
    assert Serves(NewJob(id), |tickets|, tickets + [id], outcomes);
  }

  lemma PlacedFlight(t: Table, i: nat, id: string)
    requires TableInv(t) && i < |t.slots| && t.slots[i].None? && i !in t.queue && !t.worker.Holds(i)
    ensures InFlight(t.(slots := t.slots[i := Some(NewJob(id))], queue := t.queue + [i])) == InFlight(t) + [id]
  {
    var slots, slots' := t.slots, t.slots[i := Some(NewJob(id))];
    var before, after := seq(|t.queue|, k requires 0 <= k < |t.queue| => IdAt(slots, t.queue[k])),
                         seq(|t.queue| + 1, k requires 0 <= k < |t.queue| + 1 => IdAt(slots', (t.queue + [i])[k]));
    forall k | 0 <= k < |t.queue| ensures t.queue[k] != i && after[k] == before[k] {
      assert t.queue[k] in t.queue;
    }
    assert after == before + [id];
  }

  lemma ReceiveFlight(t: Table)
    ensures InFlight(Receive(t)) == InFlight(t)
  {
  }

  lemma StartFlight(t: Table)
    ensures InFlight(Start(t)) == InFlight(t)
  {
  }

  lemma FinishFlight(t: Table, now: nat, outcome: Result<Sample, string>)
    requires TableInv(t) && t.worker.Querying?
    ensures InFlight(t) != [] && InFlight(t)[0] == IdAt(t.slots, t.worker.index)
    ensures InFlight(Finish(t, now, outcome)) == InFlight(t)[1..]
  {
    assert SlotInv(t, t.worker.index);
    assert forall k :: 0 <= k < |t.queue| ==> !t.worker.Holds(t.queue[k]);
  }

  lemma StartRuns(t: Table, tickets: seq<string>, outcomes: seq<Outcome>, now: nat)
    requires TableInv(t) && RunInv(t, tickets, outcomes, now)
    ensures RunInv(Start(t), tickets, outcomes, now)
  {
    StartKeeps(t);
    StartFlight(t);
    var t' := Start(t);
    if t.worker.Pacing? {
      var i := t.worker.index;
      assert SlotInv(t, i);
      var job := t.slots[i].value;
      assert Served(job, tickets, outcomes);
      var k: nat :| Serves(job, k, tickets, outcomes);
      assert Serves(job.(status := Running), k, tickets, outcomes);
      hide InFlight, TableInv, SlotInv, Served;
      forall k | 0 <= k < |outcomes| ensures Kept(t'.slots, tickets[k], outcomes[k], now) {
        StaysKept(t.slots, i, t'.slots[i], tickets[k], outcomes[k], now);
      }
    }
  }

  lemma SettlesAsDone(job: Job, outcome: Result<Sample, string>, now: nat)
    requires job.Coherent() && !job.Terminal()
    ensures Settle(job, outcome, now) == Done(job.id, Outcome(outcome, now))
  {
  }

  lemma NewlyServed(job: Job, tickets: seq<string>, outcomes: seq<Outcome>)
    requires 0 < |outcomes| <= |tickets| && job == Done(tickets[|outcomes| - 1], outcomes[|outcomes| - 1])
    ensures Served(job, tickets, outcomes)
  {
    assert Serves(job, |outcomes| - 1, tickets, outcomes);
  }

  lemma OthersStayServed(t: Table, tickets: seq<string>, outcomes: seq<Outcome>, now: nat, k: nat, i: nat, o: Outcome)
    requires RunInv(t, tickets, outcomes, now) && k < |t.slots| && i < |t.slots| && k != i
    requires t.slots[k].Some? && t.slots[i].Some?
    requires |outcomes| < |tickets| && t.slots[i].value.id == tickets[|outcomes|]
    ensures Served(t.slots[k].value, tickets, outcomes + [o])
  {
    var job := t.slots[k].value;
    assert Served(job, tickets, outcomes);
    var n: nat :| Serves(job, n, tickets, outcomes);
    assert Serves(job, n, tickets, outcomes + [o]);
  }

  /** The outcome goes to the first unfinished ticket. */
  lemma FinishRuns(t: Table, tickets: seq<string>, outcomes: seq<Outcome>, before: nat, now: nat,
                   outcome: Result<Sample, string>)
    requires TableInv(t) && RunInv(t, tickets, outcomes, before) && before <= now && DistinctTickets(tickets)
    requires t.worker.Querying?
    ensures |outcomes| < |tickets| && IdAt(t.slots, t.worker.index) == tickets[|outcomes|]
    ensures RunInv(Finish(t, now, outcome), tickets, outcomes + [Outcome(outcome, now)], now)
  {
    FinishKeeps(t, now, outcome);
    FinishFlight(t, now, outcome);
    var t', i := Finish(t, now, outcome), t.worker.index;
    var all := outcomes + [Outcome(outcome, now)];
    assert SlotInv(t, i);
    hide InFlight, TableInv, SlotInv, DistinctTickets, Served;
    assert tickets[|outcomes|..][1..] == tickets[|all|..];
    assert t'.slots[i] == Some(Done(tickets[|outcomes|], all[|outcomes|])) by {
      SettlesAsDone(t.slots[i].value, outcome, now);
    }
    NewlyServed(t'.slots[i].value, tickets, all);
    forall k | 0 <= k < |t.slots| && k != i && t.slots[k].Some? ensures Served(t.slots[k].value, tickets, all) {
      OthersStayServed(t, tickets, outcomes, before, k, i, all[|outcomes|]);
    }
    forall k | 0 <= k < |all| ensures Kept(t'.slots, tickets[k], all[k], now) {
      if k < |outcomes| {
        assert Kept(t.slots, tickets[k], outcomes[k], before);
        StaysKept(t.slots, i, t'.slots[i], tickets[k], outcomes[k], now);
      }
    }
  }

  // ---- Whole runs ----

  /** The random source never repeats an id already handed out. */
  ghost predicate FreshIds(actions: seq<Action>) {
    actions != [] ==>
      && FreshIds(actions[..|actions| - 1])
      && IsFresh(actions[|actions| - 1], Tickets(actions[..|actions| - 1]))
  }

  ghost predicate IsFresh(a: Action, tickets: seq<string>) {
    a.Submitting? && a.random.Some? ==> a.random.value !in tickets
  }

  lemma {:induction false} TicketsAreDistinct(actions: seq<Action>)
    requires FreshIds(actions)
    ensures DistinctTickets(Tickets(actions))
  {
    if actions != [] {
      TicketsAreDistinct(actions[..|actions| - 1]);
    }
  }

  lemma StepRuns(t: Table, a: Action, tickets: seq<string>, outcomes: seq<Outcome>, before: nat)
    requires TableInv(t) && RunInv(t, tickets, outcomes, before) && before <= Time(a, before)
             && DistinctTickets(tickets)
    requires a.Submitting? && a.random.Some? ==> a.random.value !in tickets
    ensures RunInv(Next(t, a),
                   tickets + if a.Submitting? && Submit(t, a.now, a.random).1.Accepted?
                             then [Submit(t, a.now, a.random).1.id] else [],
                   outcomes + if a.Finishing? && t.worker.Querying? then [Outcome(a.outcome, a.now)] else [],
                   Time(a, before))
  {
    hide TableInv, RunInv, Submit, DistinctTickets;
    assert tickets + [] == tickets && outcomes + [] == outcomes;
    match a {
      case Submitting(now, random) => SubmitRuns(t, tickets, outcomes, before, now, random);
      case Polling(now, _) => ExpiryRuns(t, tickets, outcomes, before, now);
      case Checking(now) => ExpiryRuns(t, tickets, outcomes, before, now);
      case Receiving => ReceiveRuns(t, tickets, outcomes, before);
      case Starting => StartRuns(t, tickets, outcomes, before);
      case Finishing(now, outcome) =>
        if t.worker.Querying? {
          FinishRuns(t, tickets, outcomes, before, now, outcome);
        } else {
          LaterRuns(t, tickets, outcomes, before, now);
        }
    }
  }

  lemma ReceiveRuns(t: Table, tickets: seq<string>, outcomes: seq<Outcome>, now: nat)
    requires RunInv(t, tickets, outcomes, now)
    ensures RunInv(Receive(t), tickets, outcomes, now)
  {
    ReceiveFlight(t);
    hide InFlight, Served;
  }

  lemma LaterRuns(t: Table, tickets: seq<string>, outcomes: seq<Outcome>, before: nat, now: nat)
    requires RunInv(t, tickets, outcomes, before) && before <= now
    ensures RunInv(t, tickets, outcomes, now)
  {
    hide InFlight, Served;
    forall k | 0 <= k < |outcomes| ensures Kept(t.slots, tickets[k], outcomes[k], now) {
      assert Kept(t.slots, tickets[k], outcomes[k], before);
    }
  }

  /** After every interleaving, the unfinished jobs are the accepted ids past the recorded outcomes, in order, and
      every finished job still on the table holds the outcome of its own ticket: none lands in a reused slot. */
  lemma {:induction false} RunsAreTracked(actions: seq<Action>)
    requires FreshIds(actions) && Monotone(actions)
    ensures RunInv(After(actions), Tickets(actions), Outcomes(actions), Clock(actions))
  {
    hide RunInv, TableInv, Next, Submit, DistinctTickets;
    if actions == [] {
      NothingYet();
    } else {
      var front, a := actions[..|actions| - 1], actions[|actions| - 1];
      RunsAreTracked(front);
      RunsKeepTable(front);
      TicketsAreDistinct(front);
      StepRuns(After(front), a, Tickets(front), Outcomes(front), Clock(front));
    }
  }

  lemma NothingYet()
    ensures RunInv(EMPTY, [], [], 0)
  {
  }

  /** Every outcome the worker records goes to the oldest accepted id still without one. */
  lemma OutcomesAnswerTickets(actions: seq<Action>)
    requires FreshIds(actions) && Monotone(actions) && After(actions).worker.Querying?
    ensures |Outcomes(actions)| < |Tickets(actions)|
    ensures IdAt(After(actions).slots, After(actions).worker.index) == Tickets(actions)[|Outcomes(actions)|]
  {
    RunsAreTracked(actions);
    RunsKeepTable(actions);
    TicketsAreDistinct(actions);
    hide TableInv, RunInv, After, Tickets, Outcomes, Clock;
    var now := Clock(actions);
    FinishRuns(After(actions), Tickets(actions), Outcomes(actions), now, now, Failure(""));
  }

  // ---- Progress ----

  /** While any accepted job is unfinished, the worker's next turn records an outcome, whatever it was doing: no job is
      stranded in the channel or in its hand. */
  lemma NextTurnFinishesOne(actions: seq<Action>, now: nat, outcome: Result<Sample, string>)
    requires InFlight(After(actions)) != []
    ensures Outcomes(actions + [Receiving, Starting, Finishing(now, outcome)])
            == Outcomes(actions) + [Outcome(outcome, now)]
  {
    RunsKeepTable(actions);
    RunsKeepTable(actions + [Receiving]);
    OneMore(actions, Receiving);
    OneMore(actions + [Receiving], Starting);
    OneMore(actions + [Receiving] + [Starting], Finishing(now, outcome));
    assert actions + [Receiving] + [Starting] + [Finishing(now, outcome)]
        == actions + [Receiving, Starting, Finishing(now, outcome)];
    hide After, Outcomes, TableInv, InFlight;
    TurnsToQuerying(After(actions));
  }

  lemma TurnsToQuerying(t: Table)
    requires InFlight(t) != [] && Unwraps(Receive(t))
    ensures Start(Receive(t)).worker.Querying?
  {
  }

  lemma OneMore(actions: seq<Action>, a: Action)
    ensures After(actions + [a]) == Next(After(actions), a)
    ensures Outcomes(actions + [a]) ==
            Outcomes(actions) + if a.Finishing? && After(actions).worker.Querying? then [Outcome(a.outcome, a.now)]
              else []
  {
    hide Next;
    assert (actions + [a])[..|actions|] == actions;
  }

  // ---- What a poll says ----

  lemma OnlySlotOf(slots: Slots, i: nat, id: string)
    requires DistinctIds(slots) && i < |slots| && slots[i].Some? && slots[i].value.id == id
    ensures JobAt(slots, id) == Some(i)
  {
    var k := JobAt(slots, id).value;
    if k < i || i < k {
      assert false;
    }
  }

  /** Polling an accepted id whose outcome is recorded gives exactly that outcome for 120 seconds, then nothing. */
  lemma PollOfFinished(t: Table, tickets: seq<string>, outcomes: seq<Outcome>, before: nat, now: nat, k: nat)
    requires TableInv(t) && RunInv(t, tickets, outcomes, before) && before <= now && DistinctTickets(tickets)
    requires k < |outcomes|
    ensures Poll(t, now, tickets[k]).1
            == if now < outcomes[k].at + RETENTION then Found(Done(tickets[k], outcomes[k])) else Unknown
  {
    ExpiryRuns(t, tickets, outcomes, before, now);
    hide TableInv, InFlight;
    var slots := Expire(t.slots, now);
    assert Kept(slots, tickets[k], outcomes[k], now);
    if now < outcomes[k].at + RETENTION {
      var i :| 0 <= i < |slots| && slots[i] == Some(Done(tickets[k], outcomes[k]));
      OnlySlotOf(slots, i, tickets[k]);
    } else if JobAt(slots, tickets[k]).Some? {
      StaleIsGone(t, tickets, outcomes, now, k, JobAt(slots, tickets[k]).value);
    }
  }

  lemma StaleIsGone(t: Table, tickets: seq<string>, outcomes: seq<Outcome>, now: nat, k: nat, i: nat)
    requires DistinctTickets(tickets) && k < |outcomes| <= |tickets| && now >= outcomes[k].at + RETENTION
    requires i < |t.slots|
    requires t.slots[i].Some? ==> Served(t.slots[i].value, tickets, outcomes)
    ensures var slot := Expire(t.slots, now)[i]; slot.Some? ==> slot.value.id != tickets[k]
  {
    if t.slots[i].Some? && t.slots[i].value.id == tickets[k] {
      var n: nat :| Serves(t.slots[i].value, n, tickets, outcomes);
      assert n == k;
    }
  }

  /** Polling an accepted id still without an outcome always finds its unfinished job. */
  lemma PollOfPending(t: Table, tickets: seq<string>, outcomes: seq<Outcome>, before: nat, now: nat, k: nat)
    requires TableInv(t) && RunInv(t, tickets, outcomes, before) && before <= now
    requires |outcomes| <= k < |tickets|
    ensures var r := Poll(t, now, tickets[k]).1;
            r.Found? && r.job.id == tickets[k] && r.job.finished.None?
            && (r.job.status.Running? <==> t.worker.Querying? && k == |outcomes|)
  {
    ExpiryRuns(t, tickets, outcomes, before, now);
    ExpiryKeeps(t, now);
    var e := t.(slots := Expire(t.slots, now));
    var i := FlightSlot(e, k - |outcomes|);
    assert InFlight(e)[k - |outcomes|] == tickets[k];
    OnlySlotOf(e.slots, i, tickets[k]);
  }

  /** Where the `n`-th unfinished job sits. */
  lemma FlightSlot(t: Table, n: nat) returns (i: nat)
    requires TableInv(t) && n < |InFlight(t)|
    ensures i < |t.slots| && t.slots[i].Some? && t.slots[i].value.id == InFlight(t)[n]
            && t.slots[i].value.finished.None?
    ensures t.slots[i].value.status.Running? <==> t.worker.Querying? && n == 0
  {
    i := if t.worker.Waiting? then t.queue[n] else if n == 0 then t.worker.index else t.queue[n - 1];
    assert SlotInv(t, i);
  }

  lemma PollOfStranger(t: Table, tickets: seq<string>, outcomes: seq<Outcome>, before: nat, now: nat, id: string)
    requires RunInv(t, tickets, outcomes, before) && id !in tickets
    ensures Poll(t, now, id).1 == Unknown
  {
    var slots := Expire(t.slots, now);
    if JobAt(slots, id).Some? {
      IdsAreTickets(t, tickets, outcomes, before, JobAt(slots, id).value);
      assert false;
    }
  }

  /** What a poll answers after any interleaving: the recorded outcome of the id's own ticket for 120 seconds and
      nothing after; a pending job for a ticket still in flight; nothing for an id never handed out. */
  lemma PollsTellTheTruth(actions: seq<Action>, now: nat, id: string)
    requires FreshIds(actions) && Monotone(actions) && Clock(actions) <= now
    ensures var (tickets, outcomes, r) := (Tickets(actions), Outcomes(actions), Poll(After(actions), now, id).1);
            && |outcomes| <= |tickets|
            && (id !in tickets ==> r == Unknown)
            && forall k :: 0 <= k < |tickets| && tickets[k] == id ==>
                 if k >= |outcomes| then r.Found? && r.job.id == id && r.job.finished.None?
                 else r == if now < outcomes[k].at + 120 then Found(Done(id, outcomes[k])) else Unknown
  {
    RunsAreTracked(actions);
    RunsKeepTable(actions);
    TicketsAreDistinct(actions);
    hide TableInv, After, Tickets, Outcomes, Clock, Poll, InFlight, DistinctTickets;
    var t, tickets, outcomes, before := After(actions), Tickets(actions), Outcomes(actions), Clock(actions);
    if id !in tickets {
      PollOfStranger(t, tickets, outcomes, before, now, id);
    }
    forall k | 0 <= k < |tickets| && tickets[k] == id
      ensures if k >= |outcomes| then Poll(t, now, id).1.Found? && Poll(t, now, id).1.job.id == id
                                      && Poll(t, now, id).1.job.finished.None?
              else Poll(t, now, id).1 ==
                     if now < outcomes[k].at + RETENTION then Found(Done(id, outcomes[k])) else Unknown
    {
      if k >= |outcomes| {
        PollOfPending(t, tickets, outcomes, before, now, k);
      } else {
        PollOfFinished(t, tickets, outcomes, before, now, k);
      }
    }
  }
}
