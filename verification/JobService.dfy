/** The shared job service: each method is one critical section or one channel operation, so every order of calls is
    one interleaving of the handler's threads and the worker. */
module JobService {
  import opened Wrappers
  import opened Jobs
  import opened JobRuns

  class JobService {
    const slots: array<Option<Job>>
    var queue: seq<nat>
    var worker: Worker

    /** Every step taken so far. */
    ghost var steps: seq<Action>

    ghost function Value(): Table
      reads this, slots
    {
      Table(slots[..], queue, worker)
    }

    ghost predicate Valid()
      reads this, slots
    {
      slots.Length == CAPACITY && Value() == After(steps)
    }

    constructor ()
      ensures Valid() && steps == [] && fresh(slots)
    {
      slots := new Option<Job>[CAPACITY](_ => None);
      queue, worker, steps := [], Waiting, [];
      new;
      assert slots[..] == FreeSlots();
    }

    ghost method Step(a: Action)
      requires slots.Length == CAPACITY && Value() == Next(After(steps), a)
      modifies this`steps
      ensures Valid() && steps == old(steps) + [a]
    {
      assert (steps + [a])[..|steps|] == steps;
      steps := steps + [a];
    }

    /** Frees the slots whose jobs finished 120 seconds ago or more. */
    method ExpireSlots(now: nat)
      requires slots.Length == CAPACITY
      modifies slots
      ensures slots[..] == Expire(old(slots[..]), now)
    {
      for i := 0 to slots.Length
        invariant forall k :: 0 <= k < i ==> slots[k] == Expire(old(slots[..]), now)[k]
        invariant forall k :: i <= k < slots.Length ==> slots[k] == old(slots[..])[k]
      {
        if slots[i].Some? && slots[i].value.Stale(now) {
          slots[i] := None;
        }
      }
    }

    method FindFree() returns (r: Option<nat>)
      ensures r == FreeSlot(slots[..])
    {
      for i := 0 to slots.Length
        invariant forall k :: 0 <= k < i ==> slots[k].Some?
      {
        if slots[i].None? {
          return Some(i);
        }
      }
      return None;
    }

    /** POST: takes a free slot, sends its number to the worker, and never finds the channel full. */
    method SubmitJob(now: nat, random: Option<string>) returns (r: Reply)
      requires Valid()
      modifies this, slots
      ensures Valid() && steps == old(steps) + [Submitting(now, random)]
      ensures (Value(), r) == Submit(old(Value()), now, random)
      ensures r != QueueFull
    {
      hide TableInv, After;
      ghost var t := Value();
      RunsKeepTable(steps);
      SubmitKeeps(t, now, random);
      ExpireSlots(now);
      var free := FindFree();
      if free.None? {
        r := TableFull;
      } else if random.None? {
        r := NoRandom;
      } else {
        slots[free.value] := Some(NewJob(random.value));
        if |queue| < CAPACITY {
          queue := queue + [free.value];
          r := Accepted(random.value);
        } else {
          slots[free.value] := None;
          r := QueueFull;
        }
      }
      Step(Submitting(now, random));
    }

    /** GET by id: a copy of the job as it stands. */
    method PollJob(now: nat, id: string) returns (r: Reply)
      requires Valid()
      modifies this, slots
      ensures Valid() && steps == old(steps) + [Polling(now, id)]
      ensures (Value(), r) == Poll(old(Value()), now, id)
    {
      hide After;
      ExpireSlots(now);
      r := Unknown;
      for i := 0 to slots.Length
        invariant r == Unknown
        invariant forall k :: 0 <= k < i ==> !(slots[k].Some? && slots[k].value.id == id)
      {
        if slots[i].Some? && slots[i].value.id == id {
          r := Found(slots[i].value);
          assert JobAt(slots[..], id) == Some(i);
          break;
        }
      }
      Step(Polling(now, id));
    }

    method CheckHealth(now: nat) returns (r: Reply)
      requires Valid()
      modifies this, slots
      ensures Valid() && steps == old(steps) + [Checking(now)]
      ensures (Value(), r) == Health(old(Value()), now)
    {
      hide After;
      ExpireSlots(now);
      var n: nat := 0;
      for i := 0 to slots.Length
        invariant n == Count(slots[..i])
      {
        assert slots[..i + 1][..i] == slots[..i];
        if slots[i].Some? {
          n := n + 1;
        }
      }
      assert slots[..slots.Length] == slots[..];
      r := Occupied(n);
      Step(Checking(now));
    }

    /** The worker takes the oldest slot number off the channel, if there is one. */
    method ReceiveIndex() returns (taken: bool)
      requires Valid() && worker.Waiting?
      modifies this
      ensures Valid() && steps == old(steps) + [Receiving]
      ensures Value() == Receive(old(Value())) && taken == (old(queue) != [])
    {
      hide After;
      taken := queue != [];
      if taken {
        worker := Pacing(queue[0]);
        queue := queue[1..];
      }
      Step(Receiving);
    }

    /** The worker marks its job running; the job is there. */
    method StartJob()
      requires Valid() && worker.Pacing?
      modifies this, slots
      ensures Valid() && steps == old(steps) + [Starting]
      ensures Value() == Start(old(Value())) && worker == Querying(old(worker).index)
    {
      hide TableInv, After;
      RunsKeepTable(steps);
      var i := worker.index;
      slots[i] := Some(slots[i].value.(status := Running));
      worker := Querying(i);
      Step(Starting);
    }

    /** The worker records the outcome; the job is there, and it is the oldest accepted one without an outcome. */
    method FinishJob(now: nat, outcome: Result<Sample, string>)
      requires Valid() && worker.Querying?
      modifies this, slots
      ensures Valid() && steps == old(steps) + [Finishing(now, outcome)]
      ensures Value() == Finish(old(Value()), now, outcome) && worker.Waiting?
      ensures old(FreshIds(steps) && Monotone(steps)) ==>
                |Outcomes(old(steps))| < |Tickets(old(steps))|
                && old(IdAt(slots[..], worker.index)) == Tickets(old(steps))[|Outcomes(old(steps))|]
    {
      hide TableInv, After, FreshIds, Monotone, Tickets, Outcomes;
      RunsKeepTable(steps);
      if FreshIds(steps) && Monotone(steps) {
        OutcomesAnswerTickets(steps);
      }
      var i := worker.index;
      var job := slots[i].value;
      match outcome {
        case Success(sample) => job := job.(status := Succeeded, result := Some(sample));
        case Failure(error) => job := job.(status := Failed, error := Some(error));
      }
      slots[i] := Some(job.(finished := Some(now)));
      worker := Waiting;
      Step(Finishing(now, outcome));
    }
  }
}
