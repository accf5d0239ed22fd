/** Runs of a service under adversarial clocks, failing appends and restarts: nothing acknowledged is lost or
    doubled. */
module Recovery {
  import opened Wrappers
  import opened Types
  import opened Postings
  import opened Domain
  import opened Accounts
  import opened Frames
  import opened Replays
  import opened Runs
  import opened Watermarks
  import opened Journal

  // ---- Reopening ----

  lemma PrefixUnused(events: seq<Event>, n: nat)
    requires KeysOnce(events) && n < |events| && events[n].clientKey.Some?
    ensures ReceiptAt(Receipts(events[..n]), events[n].actor, events[n].clientKey.value).None?
  {
    var front, receipts := events[..n], Receipts(events[..n]);
    ReceiptsCover(front);
    forall k | 0 <= k < |receipts|
      ensures !(receipts[k].actor == events[n].actor && receipts[k].key == events[n].clientKey.value) {
      assert receipts[k] in receipts;
      var i :| 0 <= i < |front| && front[i].clientKey.Some? && receipts[k] == ReceiptFor(front[i]);
      assert front[i] == events[i];
    }
  }

  function LoadedService(steps: seq<Step>, disk: seq<Frame>): Service {
    Service(After(steps), |steps|, false, Receipts(Events(steps)), disk)
  }

  /** Loading one more frame is replaying one more step. */
  lemma LoadStep(codec: Codec, disk: seq<Frame>, front: seq<Step>, step: Step)
    requires codec.Faithful() && |front| < |disk| && |front| < MAX_RECORDS
    requires Encode(codec, step.event) == Success(disk[|front|])
    requires Admissible(After(front), step.event, step.clock)
    requires step.event.clientKey.Some? ==>
               ReceiptAt(Receipts(Events(front)), step.event.actor, step.event.clientKey.value).None?
    requires Load(codec, disk, |front|) == Success(LoadedService(front, disk))
    ensures Load(codec, disk, |front| + 1) ==
            if LateWindow(step.event.command, step.event.timestamp) then Failure(InvalidInput)
            else Success(LoadedService(front + [step], disk))
  {
    hide Replay, Decode, Apply, Admissible, LateWindow, Encode, After, Receipts, Events, Remember;
    EncodedDecodes(codec, step.event);
    ReplayAgrees(After(front), step.event, step.clock);
    RememberIsReceipt(Events(front), step.event);
    EventsAppend(front, step);
    AfterAppend(front, step);
  }

  lemma AfterAppend(front: seq<Step>, step: Step)
    ensures After(front + [step]) == Apply(After(front), step.event)
  {
    hide Apply;
    assert (front + [step])[..|front|] == front;
  }

  lemma {:induction false} LoadIs(codec: Codec, disk: seq<Frame>, steps: seq<Step>, n: nat)
    requires codec.Faithful() && n <= |steps| <= MAX_RECORDS
    requires ValidRun(steps) && KeysOnce(Events(steps)) && Journalled(codec, disk, Events(steps))
    ensures Load(codec, disk, n) ==
            if NoLateWindow(Events(steps[..n])) then Success(LoadedService(steps[..n], disk)) else Failure(InvalidInput)
  {
    hide Replay, Decode, Apply, Admissible, LateWindow, Encode;
    if n == 0 {
      assert steps[..0] == [] && Events(steps[..0]) == [];
    } else {
      var front, step := steps[..n - 1], steps[n - 1];
      LoadIs(codec, disk, steps, n - 1);
      assert steps[..n] == front + [step];
      EventsAppend(front, step);
      LateSoFar(front, step);
      if NoLateWindow(Events(front)) {
        PrefixIsValid(steps, n);
        assert steps[..n][..n - 1] == front;
        assert Events(steps)[n - 1] == step.event && Events(steps)[..n - 1] == Events(front);
        if step.event.clientKey.Some? {
          PrefixUnused(Events(steps), n - 1);
        }
        LoadStep(codec, disk, front, step);
      } else {
        LoadFails(codec, disk, n);
      }
    }
  }

  lemma LoadFails(codec: Codec, disk: seq<Frame>, n: nat)
    requires 1 <= n <= |disk| && Load(codec, disk, n - 1).Failure?
    ensures Load(codec, disk, n) == Failure(Load(codec, disk, n - 1).error)
  {
  }

  lemma LateSoFar(front: seq<Step>, step: Step)
    ensures NoLateWindow(Events(front + [step])) <==>
            NoLateWindow(Events(front)) && !LateWindow(step.event.command, step.event.timestamp)
  {
    hide LateWindow;
    EventsAppend(front, step);
    var events, after := Events(front), Events(front + [step]);
    assert after[|events|] == step.event;
    if NoLateWindow(after) {
      forall i | 0 <= i < |events| ensures !LateWindow(events[i].command, events[i].timestamp) {
        assert after[i] == events[i];
      }
    }
  }

  /** Reopening from the disk yields exactly what was durably committed — an unlatched service, itself —
      unless a late window is on the disk, and then it is refused. */
  lemma ReopeningIsExact(codec: Codec, v: Service, steps: seq<Step>, doubt: Option<Step>)
    requires codec.Faithful() && ServiceInv(codec, v, steps, doubt)
    ensures var durable := Durable(steps, doubt);
            && (NoLateWindow(Events(durable)) ==>
                  && OpenJournal(codec, v.disk) == Success(LoadedService(durable, v.disk))
                  && ServiceInv(codec, LoadedService(durable, v.disk), durable, None)
                  && (!v.failed ==> OpenJournal(codec, v.disk) == Success(v)))
            && (!NoLateWindow(Events(durable)) ==> OpenJournal(codec, v.disk) == Failure(InvalidInput))
  {
    hide Replay, Decode, Apply, Admissible, LateWindow, Encode, After, HouseInv, CheckInvariants, Load, Receipts,
      ValidRun, Events, NoLateWindow, KeysOnce;
    var durable := Durable(steps, doubt);
    LoadIs(codec, v.disk, durable, |durable|);
    assert durable[..|durable|] == durable;
    DurableHouse(durable);
  }

  lemma DurableHouse(steps: seq<Step>)
    requires ValidRun(steps)
    ensures CheckInvariants(After(steps)) == Success(())
  {
    hide After;
    RunsKeepHouse(steps);
    SelfCheckSucceeds(After(steps), Lifetime(steps));
  }

  // ---- Keyed retries ----

  /** A used key answers from its receipt: the same command gets the same sequence back, another gets a
      conflict, and neither changes anything. */
  lemma UsedKeysAnswer(codec: Codec, v: Service, steps: seq<Step>, doubt: Option<Step>, i: nat, key: string, c: Command,
                       clock: nat, append: Append)
    requires codec.Faithful() && ServiceInv(codec, v, steps, doubt) && !v.failed
    requires i < |steps| && steps[i].event.clientKey == Some(OfText(key)) && 1 <= |key| <= 80
    ensures var e := steps[i].event;
            CommitKeyed(codec, v, e.actor, key, c, clock, append) ==
            (v, if c == e.command then Success(Receipt(e.sequence, true)) else Failure(Conflict))
  {
    KeyedIsReceipts(codec, v, steps, doubt);
    hide Commit, ServiceInv, Receipts;
    var events, e := Events(steps), steps[i].event;
    ReceiptsCover(events);
    assert events[i] == e && ReceiptFor(e) in v.keyed;
    var j := ReceiptOrigin(events, e.actor, OfText(key));
    assert j == i;
  }

  // ---- Whole runs of the service ----

  datatype Request = ById(requestId: nat) | ByKey(key: string)

  datatype Action =
    | Call(actor: MemberId, request: Request, command: Command, clock: nat, append: Append)
    | Restart

  /** What a caller has been told is done. */
  datatype Ack = Ack(actor: MemberId, request: Request, command: Command, sequence: nat)

  function Answer(codec: Codec, v: Service, a: Action): (Service, Result<Receipt, Error>)
    requires IsChecksum(codec.crc) && a.Call?
  {
    match a.request
    case ById(id) => Commit(codec, v, a.actor, id, a.command, None, a.clock, a.append)
    case ByKey(key) => CommitKeyed(codec, v, a.actor, key, a.command, a.clock, a.append)
  }

  /** One call, or a restart that reopens from the disk; a service that cannot reopen stays latched. */
  function Act(codec: Codec, v: Service, a: Action): (Service, seq<Ack>)
    requires IsChecksum(codec.crc)
  {
    match a
    case Call(actor, request, command, _, _) =>
      var (v', r) := Answer(codec, v, a);
      (v', if r.Success? then [Ack(actor, request, command, r.value.sequence)] else [])
    case Restart =>
      (match OpenJournal(codec, v.disk)
       case Success(v') => (v', [])
       case Failure(_) => (v.(failed := true), []))
  }

  const FRESH := Service(EMPTY_BOOKS, 0, false, [], [])

  function Perform(codec: Codec, actions: seq<Action>): (Service, seq<Ack>)
    requires IsChecksum(codec.crc)
  {
    if actions == [] then (FRESH, [])
    else
      var (v, acks) := Perform(codec, actions[..|actions| - 1]);
      var (v', more) := Act(codec, v, actions[|actions| - 1]);
      (v', acks + more)
  }

  ghost predicate Answers(e: Event, ack: Ack) {
    && e.actor == ack.actor && e.command == ack.command && e.sequence == ack.sequence
    && match ack.request
       case ById(id) => e.requestId == id
       case ByKey(key) => e.clientKey == Some(OfText(key))
  }

  ghost predicate Logged(events: seq<Event>, ack: Ack) {
    exists i :: 0 <= i < |events| && Answers(events[i], ack)
  }

  ghost predicate AllLogged(events: seq<Event>, acks: seq<Ack>) {
    forall k :: 0 <= k < |acks| ==> Logged(events, acks[k])
  }

  /** The run's state: a synced service, and every acknowledgement on the log. */
  ghost predicate RunInv(codec: Codec, v: Service, acks: seq<Ack>, steps: seq<Step>, doubt: Option<Step>)
    requires IsChecksum(codec.crc)
  {
    ServiceInv(codec, v, steps, doubt) && AllLogged(Events(steps), acks)
  }

  lemma LoggedForEver(events: seq<Event>, more: seq<Event>, acks: seq<Ack>)
    requires AllLogged(events, acks)
    ensures AllLogged(events + more, acks)
  {
    forall k | 0 <= k < |acks| ensures Logged(events + more, acks[k]) {
      assert Logged(events, acks[k]);
      var i :| 0 <= i < |events| && Answers(events[i], acks[k]);
      assert (events + more)[i] == events[i];
    }
  }

  /** What a call returns, relative to the log it may have extended. */
  lemma CallKeepsRun(codec: Codec, v: Service, acks: seq<Ack>, steps: seq<Step>, doubt: Option<Step>, a: Action)
    returns (steps': seq<Step>, doubt': Option<Step>)
    requires codec.Faithful() && RunInv(codec, v, acks, steps, doubt) && a.Call?
    ensures var (v', more) := Act(codec, v, a); RunInv(codec, v', acks + more, steps', doubt')
    ensures |steps'| >= |steps| && steps'[..|steps|] == steps
  {
    hide Commit, CommitKeyed, ServiceInv;
    var (v', r) := Answer(codec, v, a);
    steps', doubt' := CallProgresses(codec, v, steps, doubt, a);
    var ack := Ack(a.actor, a.request, a.command, if r.Success? then r.value.sequence else 0);
    assert Act(codec, v, a) == (v', if r.Success? then [ack] else []);
    assert steps' == steps + steps'[|steps|..];
    EventsConcat(steps, steps'[|steps|..]);
    LoggedForEver(Events(steps), Events(steps'[|steps|..]), acks);
  }

  lemma EventsConcat(a: seq<Step>, c: seq<Step>)
    ensures Events(a + c) == Events(a) + Events(c)
  {
  }

  /** A new receipt extends the log by the call's own command; any other answer leaves it. */
  ghost predicate Grows(steps: seq<Step>, steps': seq<Step>, c: Command, r: Result<Receipt, Error>) {
    if r.Success? && !r.value.replayed
    then |steps'| == |steps| + 1 && steps'[..|steps|] == steps && steps'[|steps|].event.command == c
    else steps' == steps
  }

  /** One call: the invariant is kept, the log only grows, and a success is logged. */
  lemma CallProgresses(codec: Codec, v: Service, steps: seq<Step>, doubt: Option<Step>, a: Action)
    returns (steps': seq<Step>, doubt': Option<Step>)
    requires codec.Faithful() && ServiceInv(codec, v, steps, doubt) && a.Call?
    ensures var (v', r) := Answer(codec, v, a);
            && ServiceInv(codec, v', steps', doubt')
            && Grows(steps, steps', a.command, r)
            && (r.Success? ==> Logged(Events(steps'), Ack(a.actor, a.request, a.command, r.value.sequence)))
  {
    hide Commit, ServiceInv;
    match a.request {
      case ById(id) =>
        steps', doubt' := FreshCall(codec, v, steps, doubt, a.actor, id, a.command, None, a.clock, a.append, a.request);
      case ByKey(key) =>
        if !v.failed && 1 <= |key| <= 80 && ReceiptAt(v.keyed, a.actor, OfText(key)).None?
           && KeyGeneration(key) == 0 && FindMember(v.books, a.actor).Success?
        {
          var m := FindMember(v.books, a.actor).value;
          steps', doubt' := FreshCall(codec, v, steps, doubt, a.actor, m.lastRequest + 1, a.command, Some(OfText(key)),
                                      a.clock, a.append, a.request);
        } else {
          steps', doubt' := steps, doubt;
          if !v.failed && ReceiptAt(v.keyed, a.actor, OfText(key)).Some? {
            KeyWasLogged(codec, v, steps, doubt, a, key);
          }
        }
    }
  }

  /** Every receipt found for a member's key is that of one of the member's own events with that key. */
  lemma ReceiptOrigin(events: seq<Event>, actor: MemberId, key: Digest) returns (i: nat)
    requires ReceiptAt(Receipts(events), actor, key).Some?
    ensures i < |events| && events[i].clientKey == Some(key) && events[i].actor == actor
    ensures ReceiptFor(events[i]) == Receipts(events)[ReceiptAt(Receipts(events), actor, key).value]
  {
    ReceiptsCover(events);
    var receipts := Receipts(events);
    hide Receipts;
    var k := ReceiptAt(receipts, actor, key).value;
    assert receipts[k] in receipts;
    i :| 0 <= i < |events| && events[i].clientKey.Some? && receipts[k] == ReceiptFor(events[i]);
  }

  lemma KeyedIsReceipts(codec: Codec, v: Service, steps: seq<Step>, doubt: Option<Step>)
    requires codec.Faithful() && ServiceInv(codec, v, steps, doubt)
    ensures v.keyed == Receipts(Events(steps)) && KeysOnce(Events(steps))
  {
  }

  /** A receipt found for a key is that of a logged event of this member. */
  lemma KeyWasLogged(codec: Codec, v: Service, steps: seq<Step>, doubt: Option<Step>, a: Action, key: string)
    requires codec.Faithful() && ServiceInv(codec, v, steps, doubt) && a.Call? && a.request == ByKey(key)
    requires ReceiptAt(v.keyed, a.actor, OfText(key)).Some?
    ensures var r := v.keyed[ReceiptAt(v.keyed, a.actor, OfText(key)).value];
            r.command == Fingerprint(a.command) ==>
              Logged(Events(steps), Ack(a.actor, a.request, a.command, r.sequence))
  {
    KeyedIsReceipts(codec, v, steps, doubt);
    hide ServiceInv, Receipts, Events;
    var i := ReceiptOrigin(Events(steps), a.actor, OfText(key));
    var r := v.keyed[ReceiptAt(v.keyed, a.actor, OfText(key)).value];
    if r.command == Fingerprint(a.command) {
      assert Answers(Events(steps)[i], Ack(a.actor, a.request, a.command, r.sequence));
    }
  }

  /** A call that reaches `commit`. */
  lemma FreshCall(codec: Codec, v: Service, steps: seq<Step>, doubt: Option<Step>, actor: MemberId, requestId: nat,
                  c: Command, key: Option<Digest>, clock: nat, append: Append, request: Request)
    returns (steps': seq<Step>, doubt': Option<Step>)
    requires codec.Faithful() && ServiceInv(codec, v, steps, doubt)
    requires key.Some? ==> ReceiptAt(v.keyed, actor, key.value).None?
    requires match request
             case ById(id) => id == requestId
             case ByKey(k) => key == Some(OfText(k)) && FindMember(v.books, actor).Success?
                              && requestId == FindMember(v.books, actor).value.lastRequest + 1
    ensures var (v', r) := Commit(codec, v, actor, requestId, c, key, clock, append);
            && ServiceInv(codec, v', steps', doubt')
            && Grows(steps, steps', c, r)
            && (r.Success? ==> Logged(Events(steps'), Ack(actor, request, c, r.value.sequence)))
  {
    hide Commit, CommitEvent, Retry, ServiceInv, Logged, After, NextSequence, Encode;
    var (v', r) := Commit(codec, v, actor, requestId, c, key, clock, append);
    steps', doubt' := CommitProgresses(codec, v, steps, doubt, actor, requestId, c, key, clock, append);
    if r.Success? && r.value.replayed {
      SyncedRun(codec, v, steps, doubt);
      ReplayIsLogged(steps, actor, requestId, c, request);
    } else if r.Success? {
      CommitEventIs(v, actor, requestId, c, key, clock);
      StepIsLogged(v, steps, actor, requestId, c, key, clock, request);
    }
  }

  lemma SyncedRun(codec: Codec, v: Service, steps: seq<Step>, doubt: Option<Step>)
    requires codec.Faithful() && ServiceInv(codec, v, steps, doubt)
    ensures ValidRun(steps) && v.books == After(steps)
  {
  }

  /** An answer from the watermark is on the log; a keyed call, which asks for the next request, never gets one. */
  lemma ReplayIsLogged(steps: seq<Step>, actor: MemberId, requestId: nat, c: Command, request: Request)
    requires ValidRun(steps)
    requires Retry(After(steps), actor, requestId, c).Success? && Retry(After(steps), actor, requestId, c).value.Some?
    requires match request
             case ById(id) => id == requestId
             case ByKey(k) => FindMember(After(steps), actor).Success?
                              && requestId == FindMember(After(steps), actor).value.lastRequest + 1
    ensures Logged(Events(steps), Ack(actor, request, c, Retry(After(steps), actor, requestId, c).value.value.sequence))
  {
    hide After, Retry, ValidRun, Events, FindMember, Logged;
    if request.ByKey? {
      NextRequestIsNew(After(steps), actor, c);
    } else {
      RetriesAreLogged(steps, actor, requestId, c);
      var sequence := Retry(After(steps), actor, requestId, c).value.value.sequence;
      var i :| 0 <= i < |steps| && steps[i].event.actor == actor && steps[i].event.requestId == requestId
               && steps[i].event.command == c && steps[i].event.sequence == sequence;
      StepAnswers(steps, i, Ack(actor, request, c, sequence));
    }
  }

  lemma StepAnswers(steps: seq<Step>, i: nat, ack: Ack)
    requires i < |steps| && Answers(steps[i].event, ack)
    ensures Logged(Events(steps), ack)
  {
    assert Events(steps)[i] == steps[i].event;
  }

  /** The event of a call answers the call. */
  lemma StepIsLogged(v: Service, steps: seq<Step>, actor: MemberId, requestId: nat, c: Command, key: Option<Digest>,
                     clock: nat, request: Request)
    requires NextSequence(v.books.sequence).Some?
    requires match request
             case ById(id) => id == requestId
             case ByKey(k) => key == Some(OfText(k))
    ensures var step := Step(CommitEvent(v, actor, requestId, c, key, clock), clock);
            && Logged(Events(steps + [step]), Ack(actor, request, c, step.event.sequence))
            && step.event.sequence == NextSequence(v.books.sequence).value
  {
    CommitEventIs(v, actor, requestId, c, key, clock);
    var step := Step(CommitEvent(v, actor, requestId, c, key, clock), clock);
    EventsAppend(steps, step);
    assert Answers(Events(steps + [step])[|steps|], Ack(actor, request, c, step.event.sequence));
  }

  lemma CommitEventIs(v: Service, actor: MemberId, requestId: nat, c: Command, key: Option<Digest>, clock: nat)
    requires NextSequence(v.books.sequence).Some?
    ensures var e := CommitEvent(v, actor, requestId, c, key, clock);
            && e.actor == actor && e.requestId == requestId && e.command == c && e.clientKey == key
            && e.timestamp == Max(clock, v.books.lastTimestamp)
  {
  }

  lemma NextRequestIsNew(b: Books, actor: MemberId, c: Command)
    requires FindMember(b, actor).Success?
    ensures Retry(b, actor, FindMember(b, actor).value.lastRequest + 1, c).Success? ==>
              Retry(b, actor, FindMember(b, actor).value.lastRequest + 1, c).value == None
  {
  }

  /** The log after a restart: everything durable, or, if that cannot be replayed, what it was. */
  function Restarted(steps: seq<Step>, doubt: Option<Step>): (seq<Step>, Option<Step>) {
    if NoLateWindow(Events(Durable(steps, doubt))) then (Durable(steps, doubt), None) else (steps, doubt)
  }

  /** A restart brings back everything durable, or leaves the service latched over the same log. */
  lemma RestartKeepsRun(codec: Codec, v: Service, acks: seq<Ack>, steps: seq<Step>, doubt: Option<Step>)
    requires codec.Faithful() && RunInv(codec, v, acks, steps, doubt)
    ensures Act(codec, v, Restart) ==
            (if NoLateWindow(Events(Durable(steps, doubt))) then LoadedService(Durable(steps, doubt), v.disk)
             else v.(failed := true), [])
    ensures RunInv(codec, Act(codec, v, Restart).0, acks, Restarted(steps, doubt).0, Restarted(steps, doubt).1)
  {
    ReopeningIsExact(codec, v, steps, doubt);
    if NoLateWindow(Events(Durable(steps, doubt))) {
      hide OpenJournal, ServiceInv, LateWindow, LoadedService;
      if doubt.Some? {
        EventsAppend(steps, doubt.value);
        LoggedForEver(Events(steps), [doubt.value.event], acks);
      }
    } else {
      LatchingKeeps(codec, v, steps, doubt);
    }
  }

  lemma LatchingKeeps(codec: Codec, v: Service, steps: seq<Step>, doubt: Option<Step>)
    requires codec.Faithful() && ServiceInv(codec, v, steps, doubt)
    ensures ServiceInv(codec, v.(failed := true), steps, doubt)
  {
  }

  /** Every run, whatever the clock and the disk did, ends in a service that is exactly its log, with every
      acknowledgement on that log. */
  lemma {:induction false} RunsAreSynced(codec: Codec, actions: seq<Action>)
    returns (steps: seq<Step>, doubt: Option<Step>)
    requires codec.Faithful()
    ensures RunInv(codec, Perform(codec, actions).0, Perform(codec, actions).1, steps, doubt)
  {
    hide Act, RunInv;
    if actions == [] {
      steps, doubt := [], None;
      FreshIsSynced(codec);
    } else {
      var front, a := actions[..|actions| - 1], actions[|actions| - 1];
      var (v, acks) := Perform(codec, front);
      steps, doubt := RunsAreSynced(codec, front);
      steps, doubt := ActKeepsRun(codec, v, acks, steps, doubt, a);
    }
  }

  lemma ActKeepsRun(codec: Codec, v: Service, acks: seq<Ack>, steps: seq<Step>, doubt: Option<Step>, a: Action)
    returns (steps': seq<Step>, doubt': Option<Step>)
    requires codec.Faithful() && RunInv(codec, v, acks, steps, doubt)
    ensures RunInv(codec, Act(codec, v, a).0, acks + Act(codec, v, a).1, steps', doubt')
  {
    hide Act, RunInv, NoLateWindow;
    if a.Call? {
      steps', doubt' := CallKeepsRun(codec, v, acks, steps, doubt, a);
    } else {
      RestartKeepsRun(codec, v, acks, steps, doubt);
      steps', doubt' := Restarted(steps, doubt).0, Restarted(steps, doubt).1;
      assert acks + [] == acks;
    }
  }

  lemma FreshIsSynced(codec: Codec)
    requires codec.Faithful()
    ensures RunInv(codec, FRESH, [], [], None)
  {
    assert Events([]) == [];
  }

  /** Nothing acknowledged is ever lost: after any run, every acknowledged command is on the durable log under its
      acknowledged sequence, the disk holds exactly that log, and one more restart brings it back if and only if no
      late window is on it. */
  lemma NothingAcknowledgedIsLost(codec: Codec, actions: seq<Action>) returns (durable: seq<Step>)
    requires codec.Faithful()
    ensures ValidRun(durable) && |Perform(codec, actions).0.disk| == |durable|
    ensures Journalled(codec, Perform(codec, actions).0.disk, Events(durable))
    ensures AllLogged(Events(durable), Perform(codec, actions).1)
    ensures var (v, v') := (Perform(codec, actions).0, Perform(codec, actions + [Restart]).0);
            && (NoLateWindow(Events(durable)) ==> v' == LoadedService(durable, v.disk))
            && (!NoLateWindow(Events(durable)) ==> v' == v.(failed := true))
  {
    hide Act, After, ServiceInv, LoadedService, NoLateWindow, Journalled, LateWindow;
    var steps, doubt := RunsAreSynced(codec, actions);
    var (v, acks) := Perform(codec, actions);
    RestartKeepsRun(codec, v, acks, steps, doubt);
    assert (actions + [Restart])[..|actions|] == actions;
    durable := Durable(steps, doubt);
    DurableIsOnDisk(codec, v, steps, doubt);
    if doubt.Some? {
      EventsAppend(steps, doubt.value);
      LoggedForEver(Events(steps), [doubt.value.event], acks);
    }
  }

  lemma DurableIsOnDisk(codec: Codec, v: Service, steps: seq<Step>, doubt: Option<Step>)
    requires codec.Faithful() && ServiceInv(codec, v, steps, doubt)
    ensures ValidRun(Durable(steps, doubt)) && |v.disk| == |Durable(steps, doubt)|
    ensures Journalled(codec, v.disk, Events(Durable(steps, doubt)))
  {
  }

  /** Exactly once: two acknowledgements of the same request or key of one member name the same command and
      the same event, however often the call was retried and the service restarted between them. */
  lemma ExactlyOnce(codec: Codec, actions: seq<Action>, i: nat, j: nat)
    requires codec.Faithful()
    requires i < |Perform(codec, actions).1| && j < |Perform(codec, actions).1|
    requires var acks := Perform(codec, actions).1;
             acks[i].actor == acks[j].actor && acks[i].request == acks[j].request
    ensures Perform(codec, actions).1[i] == Perform(codec, actions).1[j]
  {
    hide Perform, After;
    var steps, doubt := RunsAreSynced(codec, actions);
    var acks, events := Perform(codec, actions).1, Events(steps);
    RunsKeepLog(steps);
    assert Logged(events, acks[i]) && Logged(events, acks[j]);
    var x :| 0 <= x < |events| && Answers(events[x], acks[i]);
    var y :| 0 <= y < |events| && Answers(events[y], acks[j]);
    assert x == y;
  }

  /** In whatever state calls, failures and restarts leave the service, an unsettled deal can be undone by either party
      or an enabled Nana, unconditionally: a journal's worth of payments cannot exhaust a balance. */
  lemma DealsCanBeUndone(codec: Codec, actions: seq<Action>, i: nat, actor: MemberId, reason: string, now: nat)
    requires codec.Faithful()
    requires var b := Perform(codec, actions).0.books;
             && i < |b.offers| && b.offers[i].Pins(now) && Max(b.lastTimestamp, MIN_CLOCK) <= now
             && MayUndo(b, actor, b.offers[i]) && !HasControl(reason)
    ensures var b := Perform(codec, actions).0.books;
            ValidateAt(b, actor, UnacceptOffer(b.offers[i].id, reason), now) == Success(())
  {
    hide Perform, After, MayUndo, HasControl, ValidateAt;
    var steps, doubt := RunsAreSynced(codec, actions);
    ShortRunsUndo(steps, i, actor, reason, now);
  }

  // ---- A run that cannot reopen ----

  const PROVISIONING := Call(1, ById(1), WITNESS_FOUNDING.command, 1, Written)
  const CONFIGURING := Call(1, ById(2), WITNESS_CONFIGURE.command, 0, Written)

  /** A call that appends durably is acknowledged and becomes the service's next step. */
  lemma WrittenCall(codec: Codec, v: Service, a: Action, e: Event)
    requires IsChecksum(codec.crc) && a.Call? && a.request.ById? && a.append.Written?
    requires !v.failed && v.records < MAX_RECORDS
             && Retry(v.books, a.actor, a.request.requestId, a.command) == Success(None)
    requires Admissible(v.books, e, a.clock) && Encode(codec, e).Success?
    requires e == Event(e.timestamp, None, 1, e.sequence, a.actor, a.request.requestId, a.command)
    ensures Act(codec, v, a) ==
            (Service(Apply(v.books, e), v.records + 1, false, v.keyed, v.disk + [Encode(codec, e).value]),
             [Ack(a.actor, a.request, a.command, e.sequence)])
  {
    hide Apply, Encode, ValidateAt, Retry, NextSequence;
  }

  lemma WitnessRetries(b: Books)
    requires |b.members| == 1 && b.members[0].id == 1 && b.members[0].lastRequest == 1
    ensures Retry(EMPTY_BOOKS, 1, 1, WITNESS_FOUNDING.command) == Success(None)
    ensures Retry(b, 1, 2, WITNESS_CONFIGURE.command) == Success(None)
  {
    assert MemberAt(b.members, 1) == Some(0);
  }

  /** A run whose restart is refused: found a household at time 1, then set a maximal window while the clock reads 0.
      Both calls are acknowledged, both stay on the disk, and the service never comes back. */
  lemma RefusedRestartHappens(codec: Codec)
    requires codec.Faithful() && Encode(codec, WITNESS_FOUNDING).Success? && Encode(codec, WITNESS_CONFIGURE).Success?
    ensures var (v, acks) := Perform(codec, [PROVISIONING, CONFIGURING]);
            && |acks| == 2 && |v.disk| == 2 && !v.failed
            && Perform(codec, [PROVISIONING, CONFIGURING, Restart]) == (v.(failed := true), acks)
  {
    hide Apply, Admissible, Encode, Act, Retry, LateWindow, ServiceInv, Journalled;
    WitnessFounded();
    var b := Apply(EMPTY_BOOKS, WITNESS_FOUNDING);
    WitnessConfigured(b);
    WitnessRetries(b);
    WrittenCall(codec, FRESH, PROVISIONING, WITNESS_FOUNDING);
    var v := Act(codec, FRESH, PROVISIONING).0;
    WrittenCall(codec, v, CONFIGURING, WITNESS_CONFIGURE);
    PerformNext(codec, [], PROVISIONING);
    PerformNext(codec, [PROVISIONING], CONFIGURING);
    PerformNext(codec, [PROVISIONING, CONFIGURING], Restart);
    assert [PROVISIONING, CONFIGURING] + [Restart] == [PROVISIONING, CONFIGURING, Restart];
    var durable := NothingAcknowledgedIsLost(codec, [PROVISIONING, CONFIGURING]);
    RestartAcksNothing(codec, Perform(codec, [PROVISIONING, CONFIGURING]).0,
                       Perform(codec, [PROVISIONING, CONFIGURING]).1);
    WitnessIsLate();
    LateOnDisk(codec, Perform(codec, [PROVISIONING, CONFIGURING]).0.disk, Events(durable), 1, WITNESS_CONFIGURE);
  }

  lemma RestartAcksNothing(codec: Codec, v: Service, acks: seq<Ack>)
    requires IsChecksum(codec.crc)
    ensures acks + Act(codec, v, Restart).1 == acks
  {
    hide OpenJournal;
  }

  lemma WitnessIsLate()
    ensures LateWindow(WITNESS_CONFIGURE.command, WITNESS_CONFIGURE.timestamp)
  {
  }

  /** A frame of a late window on the disk is a late window on the log. */
  lemma LateOnDisk(codec: Codec, disk: seq<Frame>, events: seq<Event>, n: nat, e: Event)
    requires codec.Faithful() && Journalled(codec, disk, events) && n < |events|
    requires Encode(codec, e) == Success(disk[n]) && LateWindow(e.command, e.timestamp)
    ensures !NoLateWindow(events)
  {
    hide Encode, Decode, LateWindow;
    EncodedDecodes(codec, e);
    EncodedDecodes(codec, events[n]);
  }

  lemma PerformNext(codec: Codec, actions: seq<Action>, a: Action)
    requires IsChecksum(codec.crc)
    ensures var (v, acks) := Perform(codec, actions);
            Perform(codec, actions + [a]) == (Act(codec, v, a).0, acks + Act(codec, v, a).1)
  {
    hide Act;
    assert (actions + [a])[..|actions|] == actions;
  }
}
