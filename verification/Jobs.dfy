/** The job table behind "202 Accepted": slots under a lock, a bounded channel of slot numbers, and one worker. */
module Jobs {
  import opened Wrappers

  const CAPACITY: nat := 8
  const RETENTION: nat := 120

  datatype Status = Queued | Running | Succeeded | Failed

  /** A time sample; its content does not matter here. */
  type Sample = nat

  datatype Job = Job(id: string, status: Status, result: Option<Sample>, error: Option<string>, finished: Option<nat>) {
    predicate Terminal() {
      status.Succeeded? || status.Failed?
    }

    /** The fields agree with the status. */
    predicate Coherent() {
      (finished.Some? <==> Terminal()) && (result.Some? <==> status.Succeeded?) && (error.Some? <==> status.Failed?)
    }

    predicate Stale(now: nat) {
      finished.Some? && now >= finished.value + RETENTION
    }
  }

  type Slots = seq<Option<Job>>

  /** What the worker is doing, between its critical sections. */
  datatype Worker = Waiting | Pacing(index: nat) | Querying(index: nat) {
    predicate Holds(i: nat) {
      !Waiting? && index == i
    }
  }

  datatype Table = Table(slots: Slots, queue: seq<nat>, worker: Worker)

  datatype Reply = Accepted(id: string) | TableFull | NoRandom | QueueFull | Found(job: Job) | Unknown
    | Occupied(n: nat)

  function FreeSlots(): Slots {
    seq(CAPACITY, _ => None)
  }

  const EMPTY := Table(FreeSlots(), [], Waiting)

  // ---- Critical sections of the request handler ----

  function Expire(slots: Slots, now: nat): (r: Slots)
    ensures |r| == |slots|
  {
    seq(|slots|, i requires 0 <= i < |slots| => if slots[i].Some? && slots[i].value.Stale(now) then None else slots[i])
  }

  function NewJob(id: string): Job {
    Job(id, Queued, None, None, None)
  }

  function FreeSlot(slots: Slots): (r: Option<nat>)
    ensures r.Some? ==> r.value < |slots| && slots[r.value].None?
    ensures r.None? ==> forall i :: 0 <= i < |slots| ==> slots[i].Some?
  {
    Position(slots, (s: Option<Job>) => s.None?)
  }

  /** POST: `random` is the random source's answer. A full channel gives the slot back. */
  function Submit(t: Table, now: nat, random: Option<string>): (Table, Reply) {
    var slots := Expire(t.slots, now);
    match FreeSlot(slots)
    case None => (t.(slots := slots), TableFull)
    case Some(i) =>
      match random
      case None => (t.(slots := slots), NoRandom)
      case Some(id) =>
        if |t.queue| < CAPACITY
        then (t.(slots := slots[i := Some(NewJob(id))], queue := t.queue + [i]), Accepted(id))
        else (t.(slots := slots), QueueFull)
  }

  function JobAt(slots: Slots, id: string): (r: Option<nat>)
    ensures r.Some? ==> r.value < |slots| && slots[r.value].Some? && slots[r.value].value.id == id
    ensures r.None? ==> forall i :: 0 <= i < |slots| && slots[i].Some? ==> slots[i].value.id != id
  {
    Position(slots, (s: Option<Job>) => s.Some? && s.value.id == id)
  }

  function Poll(t: Table, now: nat, id: string): (Table, Reply) {
    var slots := Expire(t.slots, now);
    (t.(slots := slots), match JobAt(slots, id) case Some(i) => Found(slots[i].value) case None => Unknown)
  }

  function Count(slots: Slots): nat {
    if slots == [] then 0 else Count(slots[..|slots| - 1]) + if slots[|slots| - 1].Some? then 1 else 0
  }

  function Health(t: Table, now: nat): (Table, Reply) {
    var slots := Expire(t.slots, now);
    (t.(slots := slots), Occupied(Count(slots)))
  }

  // ---- Steps of the worker ----

  function Receive(t: Table): Table {
    if t.worker.Waiting? && t.queue != [] then t.(queue := t.queue[1..], worker := Pacing(t.queue[0])) else t
  }

  /** The slot named by the worker holds a job: its unwrap succeeds. */
  predicate Unwraps(t: Table) {
    !t.worker.Waiting? ==> t.worker.index < |t.slots| && t.slots[t.worker.index].Some?
  }

  function Start(t: Table): Table {
    if t.worker.Pacing? && Unwraps(t) then
      var i := t.worker.index;
      t.(slots := t.slots[i := Some(t.slots[i].value.(status := Running))], worker := Querying(i))
    else t
  }

  function Settle(job: Job, outcome: Result<Sample, string>, now: nat): Job {
    match outcome
    case Success(sample) => job.(status := Succeeded, result := Some(sample), finished := Some(now))
    case Failure(error) => job.(status := Failed, error := Some(error), finished := Some(now))
  }

  function Finish(t: Table, now: nat, outcome: Result<Sample, string>): Table {
    if t.worker.Querying? && Unwraps(t) then
      var i := t.worker.index;
      t.(slots := t.slots[i := Some(Settle(t.slots[i].value, outcome, now))], worker := Waiting)
    else t
  }

  // ---- The table invariant ----

  ghost predicate Distinct(s: seq<nat>) {
    forall a, b :: 0 <= a < b < |s| ==> s[a] != s[b]
  }

  /** Slot `i` is queued exactly when its number is in the channel or in the pacing worker's hand, running
      exactly when the worker is querying for it, and otherwise finished or free. */
  ghost predicate SlotInv(t: Table, i: nat)
    requires i < |t.slots|
  {
    match t.slots[i]
    case None => i !in t.queue && !t.worker.Holds(i)
    case Some(j) =>
      && j.Coherent()
      && (j.status.Queued? <==> i in t.queue || t.worker == Pacing(i))
      && (j.status.Running? <==> t.worker == Querying(i))
  }

  ghost predicate TableInv(t: Table) {
    && |t.slots| == CAPACITY
    && Distinct(t.queue)
    && (forall k :: 0 <= k < |t.queue| ==> t.queue[k] < CAPACITY && !t.worker.Holds(t.queue[k]))
    && (!t.worker.Waiting? ==> t.worker.index < CAPACITY)
    && forall i :: 0 <= i < CAPACITY ==> SlotInv(t, i)
  }

  lemma {:induction false} DistinctBound(s: seq<nat>, n: nat)
    requires Distinct(s) && forall k :: 0 <= k < |s| ==> s[k] < n
    ensures |s| <= n
    decreases n
  {
    if n > 0 {
      if n - 1 in s {
        var k :| 0 <= k < |s| && s[k] == n - 1;
        DistinctBound(s[..k] + s[k + 1..], n - 1);
      } else {
        DistinctBound(s, n - 1);
      }
    }
  }

  lemma ExpiryKeeps(t: Table, now: nat)
    requires TableInv(t)
    ensures TableInv(t.(slots := Expire(t.slots, now)))
  {
    var t' := t.(slots := Expire(t.slots, now));
    forall i | 0 <= i < CAPACITY ensures SlotInv(t', i) {
      assert SlotInv(t, i);
    }
  }

  /** A free slot's number is nowhere in the channel, nor with the worker, so the channel has room for it. */
  lemma RoomForFreeSlot(t: Table, i: nat)
    requires TableInv(t) && i < CAPACITY && t.slots[i].None?
    ensures i !in t.queue && !t.worker.Holds(i) && |t.queue| < CAPACITY
  {
    assert SlotInv(t, i);
    DistinctBound(t.queue + [i], CAPACITY);
  }

  /** A submission never finds the channel full, and keeps the invariant. */
  lemma SubmitKeeps(t: Table, now: nat, random: Option<string>)
    requires TableInv(t)
    ensures TableInv(Submit(t, now, random).0) && Submit(t, now, random).1 != QueueFull
  {
    ExpiryKeeps(t, now);
    var e := t.(slots := Expire(t.slots, now));
    if FreeSlot(e.slots).Some? && random.Some? {
      var i := FreeSlot(e.slots).value;
      RoomForFreeSlot(e, i);
      var t' := Submit(t, now, random).0;
      assert t'.queue[|t.queue|] == i;
      forall k | 0 <= k < CAPACITY ensures SlotInv(t', k) {
        assert SlotInv(e, k);
      }
    }
  }

  /** The slot holds a job that is unfinished, or finished less than 120 seconds ago. */
  predicate Busy(slot: Option<Job>, now: nat) {
    slot.Some? && (slot.value.finished.None? || now < slot.value.finished.value + 120)
  }

  /** A submission is turned away as full exactly if all eight slots are busy; otherwise it is accepted under the random
      id, if there is one, as a queued job. */
  lemma SubmitAnswers(t: Table, now: nat, random: Option<string>)
    requires TableInv(t)
    ensures var (t', r) := Submit(t, now, random);
            if forall i :: 0 <= i < 8 ==> Busy(t.slots[i], now) then r == TableFull
            else if random.None? then r == NoRandom
            else
              && r == Accepted(random.value)
              && exists i :: 0 <= i < 8 && t'.slots[i] == Some(Job(random.value, Queued, None, None, None))
  {
    ExpiryKeeps(t, now);
    SubmitKeeps(t, now, random);
    var slots := Expire(t.slots, now);
    assert forall i :: 0 <= i < 8 ==> (slots[i].Some? <==> Busy(t.slots[i], now));
    if FreeSlot(slots).Some? {
      var i := FreeSlot(slots).value;
      RoomForFreeSlot(t.(slots := slots), i);
      assert !Busy(t.slots[i], now);
      if random.Some? {
        assert Submit(t, now, random).0.slots[i] == Some(Job(random.value, Queued, None, None, None));
      }
    }
  }

  lemma {:induction false} CountIs(slots: Slots)
    ensures Count(slots) == |set i | 0 <= i < |slots| && slots[i].Some?|
  {
    if slots != [] {
      var last := |slots| - 1;
      CountIs(slots[..last]);
      var front := set i | 0 <= i < last && slots[..last][i].Some?;
      var all := set i | 0 <= i < |slots| && slots[i].Some?;
      assert all == if slots[last].Some? then front + {last} else front;
    }
  }

  /** The health page counts the busy slots. */
  lemma HealthCounts(t: Table, now: nat)
    requires TableInv(t)
    ensures Health(t, now).1 == Occupied(|set i | 0 <= i < 8 && Busy(t.slots[i], now)|)
  {
    var slots := Expire(t.slots, now);
    CountIs(slots);
    assert (set i | 0 <= i < |slots| && slots[i].Some?) == set i | 0 <= i < 8 && Busy(t.slots[i], now);
  }

  lemma ReceiveKeeps(t: Table)
    requires TableInv(t)
    ensures TableInv(Receive(t))
  {
    var t' := Receive(t);
    if t' != t {
      assert t.queue == [t.queue[0]] + t'.queue;
      forall i | 0 <= i < CAPACITY ensures SlotInv(t', i) {
        assert SlotInv(t, i);
      }
    }
  }

  lemma StartKeeps(t: Table)
    requires TableInv(t)
    ensures TableInv(Start(t)) && Unwraps(t)
  {
    var t' := Start(t);
    if !t.worker.Waiting? {
      assert SlotInv(t, t.worker.index);
    }
    forall i | 0 <= i < CAPACITY ensures SlotInv(t', i) {
      assert SlotInv(t, i);
    }
  }

  lemma FinishKeeps(t: Table, now: nat, outcome: Result<Sample, string>)
    requires TableInv(t)
    ensures TableInv(Finish(t, now, outcome)) && Unwraps(t)
  {
    var t' := Finish(t, now, outcome);
    if !t.worker.Waiting? {
      assert SlotInv(t, t.worker.index);
    }
    forall i | 0 <= i < CAPACITY ensures SlotInv(t', i) {
      assert SlotInv(t, i);
    }
  }
}
