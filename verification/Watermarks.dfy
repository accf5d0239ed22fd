/** Retry watermarks: each member remembers exactly the last event it committed. */
module Watermarks {
  import opened Types
  import opened Postings
  import opened Domain
  import opened Admission
  import opened Accounts
  import opened Reversals
  import opened Sales
  import opened QuoteBook
  import opened Wrappers
  import opened Runs

  /** The log holds the event this member's watermark points at, and none of its events is later. */
  ghost predicate MarkKept(events: seq<Event>, m: Member) {
    && (forall i :: 0 <= i < |events| && events[i].actor == m.id ==> events[i].requestId <= m.lastRequest)
    && (m.lastRequest > 0 ==>
          exists i :: 0 <= i < |events| && events[i].actor == m.id && events[i].requestId == m.lastRequest
                      && events[i].sequence == m.lastSequence && Fingerprint(events[i].command) == m.lastCommand)
  }

  /** No request id is applied twice by one member; sequences strictly increase. */
  ghost predicate OnceEach(events: seq<Event>) {
    && (forall i, j :: 0 <= i < j < |events| && events[i].actor == events[j].actor ==>
          events[i].requestId < events[j].requestId)
    && (forall i, j :: 0 <= i < j < |events| ==> events[i].sequence < events[j].sequence)
  }

  ghost predicate LogInv(b: Books, events: seq<Event>) {
    && (forall i :: 0 <= i < |b.members| ==> MarkKept(events, b.members[i]))
    && OnceEach(events)
    && (forall i :: 0 <= i < |events| ==>
          events[i].sequence <= b.sequence && 1 <= events[i].actor <= |b.members| && 1 <= events[i].requestId)
  }

  /** Only the actor's watermark moves; new accounts start at zero. */
  lemma MarksAfter(b: Books, e: Event, now: nat, i: nat)
    requires Numbered(b.members) && Admitted(b, e, now)
    requires i < |Apply(b, e).members|
    ensures var m := Apply(b, e).members[i];
            && m.id == i + 1
            && (m.id == e.actor ==>
                  m.lastRequest == e.requestId && m.lastCommand == Fingerprint(e.command)
                    && m.lastSequence == e.sequence)
            && (m.id != e.actor && i < |b.members| ==>
                  m.lastRequest == b.members[i].lastRequest && m.lastCommand == b.members[i].lastCommand
                  && m.lastSequence == b.members[i].lastSequence)
            && (m.id != e.actor && i >= |b.members| ==> m.lastRequest == 0)
    ensures |b.members| <= |Apply(b, e).members| && 1 <= e.actor <= |Apply(b, e).members|
  {
    NextAccountsKeep(b, e, now);
    NextMarks(b, e, now, i);
    var settled := Settle(NextAccounts(b, e), Posted(b, e));
    assert Numbered(settled);
    MemberIndex(settled, e.actor);
  }

  lemma NextMarks(b: Books, e: Event, now: nat, i: nat)
    requires Numbered(b.members) && Admitted(b, e, now)
    requires i < |NextAccounts(b, e)|
    ensures var m := NextAccounts(b, e)[i];
            if i < |b.members| then
              m.lastRequest == b.members[i].lastRequest && m.lastCommand == b.members[i].lastCommand
              && m.lastSequence == b.members[i].lastSequence
            else m.lastRequest == 0
  {
  }

  lemma LogStep(b: Books, events: seq<Event>, e: Event, now: nat)
    requires Numbered(b.members) && Admitted(b, e, now) && LogInv(b, events)
    requires b.sequence < e.sequence && 1 <= e.requestId
    requires b.members != [] ==>
               FindMember(b, e.actor).Success? && FindMember(b, e.actor).value.lastRequest < e.requestId
    ensures LogInv(Apply(b, e), events + [e])
  {
    hide Apply, Admitted;
    var after, b' := events + [e], Apply(b, e);
    if b.members != [] {
      MemberIndex(b.members, e.actor);
    }
    MembersGrow(b, e, now);
    forall i | 0 <= i < |b'.members| ensures MarkKept(after, b'.members[i]) {
      MarksAfter(b, e, now, i);
      MarkStep(b, events, e, now, i);
    }
    forall i | 0 <= i < |events| && events[i].actor == e.actor ensures events[i].requestId < e.requestId {
      assert MarkKept(events, b.members[e.actor - 1]);
    }
  }

  lemma MembersGrow(b: Books, e: Event, now: nat)
    requires Numbered(b.members) && Admitted(b, e, now)
    ensures |b.members| <= |Apply(b, e).members| && 1 <= e.actor <= |Apply(b, e).members|
    ensures Apply(b, e).sequence == e.sequence
  {
    NextAccountsKeep(b, e, now);
  }

  lemma MarkStep(b: Books, events: seq<Event>, e: Event, now: nat, i: nat)
    requires Numbered(b.members) && Admitted(b, e, now) && LogInv(b, events)
    requires b.members != [] ==> 1 <= e.actor <= |b.members| && b.members[e.actor - 1].lastRequest < e.requestId
    requires i < |Apply(b, e).members|
    ensures MarkKept(events + [e], Apply(b, e).members[i])
  {
    MarksAfter(b, e, now, i);
    hide Apply, Admitted;
    var m, after := Apply(b, e).members[i], events + [e];
    if m.id == e.actor {
      assert after[|events|] == e;
      if i < |b.members| {
        assert MarkKept(events, b.members[i]);
      }
    } else if i < |b.members| {
      assert MarkKept(events, b.members[i]);
      if m.lastRequest > 0 {
        var j :| 0 <= j < |events| && events[j].actor == m.id && events[j].requestId == m.lastRequest
                 && events[j].sequence == m.lastSequence && Fingerprint(events[j].command) == m.lastCommand;
        assert after[j] == events[j];
      }
    }
  }

  lemma AdmissibleLogStep(b: Books, life: seq<Transaction>, events: seq<Event>, e: Event, clock: nat)
    requires HouseInv(b, life) && LogInv(b, events) && Admissible(b, e, clock)
    ensures LogInv(Apply(b, e), events + [e])
  {
    hide Apply, Admitted, LogInv;
    ValidatedIsAdmitted(b, e, NowFrom(clock, b.lastTimestamp));
    LogStep(b, events, e, NowFrom(clock, b.lastTimestamp));
  }

  lemma EmptyLog()
    ensures LogInv(EMPTY_BOOKS, [])
  {
  }

  lemma {:induction false} RunsKeepLog(steps: seq<Step>)
    requires ValidRun(steps)
    ensures LogInv(After(steps), Events(steps))
  {
    hide Apply, Admissible, HouseInv, LogInv;
    if steps == [] {
      EmptyLog();
      assert Events(steps) == [];
    } else {
      var front, last := steps[..|steps| - 1], steps[|steps| - 1];
      RunsKeepLog(front);
      RunsKeepHouse(front);
      AdmissibleLogStep(After(front), Lifetime(front), Events(front), last.event, last.clock);
      assert Events(steps) == Events(front) + [last.event];
      assert After(steps) == Apply(After(front), last.event);
    }
  }

  /** A retry answered from RAM names an event the same member really committed, for the same command. */
  lemma RetriesAreLogged(steps: seq<Step>, actor: MemberId, requestId: nat, c: Command)
    requires ValidRun(steps)
    requires Retry(After(steps), actor, requestId, c).Success? && Retry(After(steps), actor, requestId, c).value.Some?
    ensures exists i :: 0 <= i < |steps| && steps[i].event.actor == actor && steps[i].event.requestId == requestId
                        && steps[i].event.command == c
                        && steps[i].event.sequence == Retry(After(steps), actor, requestId, c).value.value.sequence
  {
    hide After;
    RunsKeepLog(steps);
    var m := FindMember(After(steps), actor).value;
    assert MarkKept(Events(steps), m);
    var events := Events(steps);
    var i :| 0 <= i < |events| && events[i].actor == m.id && events[i].requestId == m.lastRequest
             && events[i].sequence == m.lastSequence && Fingerprint(events[i].command) == m.lastCommand;
    assert steps[i].event == events[i];
  }

  /** What a request id is answered with: refused as stale below the member's watermark; at it, the receipt of that
      event
      or, for another command, a conflict; let through above it. */
  lemma RetryAnswers(steps: seq<Step>, actor: MemberId, requestId: nat, c: Command)
    requires ValidRun(steps) && 1 <= actor <= |After(steps).members| && 1 <= requestId <= MAX_SEQUENCE
    ensures var m := After(steps).members[actor - 1];
            Retry(After(steps), actor, requestId, c) ==
            if requestId < m.lastRequest then Failure(StaleRequest)
            else if requestId > m.lastRequest then Success(None)
            else if m.lastCommand == Fingerprint(c) then Success(Some(Receipt(m.lastSequence, true)))
            else Failure(Conflict)
  {
    hide After, Fingerprint, MemberAt;
    RunsAreNumberedHere(steps);
    MemberIndex(After(steps).members, actor);
  }

  /** Sending a member's last call again gives its receipt again. */
  lemma LastCallIsAnswered(steps: seq<Step>, n: nat)
    requires ValidRun(steps) && n < |steps|
    requires forall m :: n < m < |steps| ==> steps[m].event.actor != steps[n].event.actor
    requires steps[n].event.requestId <= MAX_SEQUENCE
    ensures var e := steps[n].event;
            Retry(After(steps), e.actor, e.requestId, e.command) == Success(Some(Receipt(e.sequence, true)))
  {
    hide After;
    RunsKeepLog(steps);
    RunsAreNumberedHere(steps);
    var e, events := steps[n].event, Events(steps);
    assert events[n] == e;
    var m := After(steps).members[e.actor - 1];
    assert MarkKept(events, m);
    var i :| 0 <= i < |events| && events[i].actor == m.id && events[i].requestId == m.lastRequest
             && events[i].sequence == m.lastSequence && Fingerprint(events[i].command) == m.lastCommand;
    assert events[i] == steps[i].event;
    RetryAnswers(steps, e.actor, e.requestId, e.command);
  }

  lemma RunsAreNumberedHere(steps: seq<Step>)
    requires ValidRun(steps)
    ensures Numbered(After(steps).members)
  {
    hide After, Lifetime, LedgerInv, SalesInv, QuotesInv;
    RunsKeepHouse(steps);
  }
}
