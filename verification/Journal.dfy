/** The service around the books: validate, append durably, then apply; on boot, replay the journal. */
module Journal {
  import opened Wrappers
  import opened Types
  import opened Postings
  import opened Domain
  import opened Frames
  import opened Runs

  /** The serialiser and checksum behind the journal, taken as given. */
  datatype Codec = Codec(serialise: Event -> seq<Byte>, parse: seq<Byte> -> Result<Event, Error>, crc: seq<Byte> -> nat)
  {
    /** Serialised events parse back to themselves; checksums have 32 bits. */
    ghost predicate Faithful() {
      IsChecksum(crc) && forall e :: parse(serialise(e)) == Success(e)
    }
  }

  function Encode(codec: Codec, e: Event): (r: Result<Frame, Error>)
    requires IsChecksum(codec.crc)
  {
    var payload := codec.serialise(e);
    :- Need(|payload| <= FRAME_SIZE - HEADER, Capacity);
    Success(FrameOf(payload, codec.crc(payload)))
  }

  function Decode(codec: Codec, frame: Frame): Result<Event, Error> {
    var payload :- Payload(frame, codec.crc);
    match codec.parse(payload)
    case Success(e) => Success(e)
    case Failure(_) => Failure(CorruptJournal)
  }

  lemma EncodedDecodes(codec: Codec, e: Event)
    requires codec.Faithful() && Encode(codec, e).Success?
    ensures Decode(codec, Encode(codec, e).value) == Success(e)
  {
    FramedIsRead(codec.serialise(e), codec.crc);
  }

  // ---- Receipts for client keys ----

  datatype KeyReceipt = KeyReceipt(key: Digest, actor: MemberId, command: Digest, sequence: nat, timestamp: nat)

  function ReceiptFor(e: Event): KeyReceipt
    requires e.clientKey.Some?
  {
    KeyReceipt(e.clientKey.value, e.actor, Fingerprint(e.command), e.sequence, e.timestamp)
  }

  function ReceiptAt(keyed: seq<KeyReceipt>, actor: MemberId, key: Digest): (r: Option<nat>)
    ensures r.None? ==> forall i :: 0 <= i < |keyed| ==> !(keyed[i].actor == actor && keyed[i].key == key)
    ensures r.Some? ==> r.value < |keyed| && keyed[r.value].actor == actor && keyed[r.value].key == key
  {
    Position(keyed, (k: KeyReceipt) => k.actor == actor && k.key == key)
  }

  /** A keyed event leaves a receipt; a full table forgets its oldest. */
  function Remember(keyed: seq<KeyReceipt>, e: Event): seq<KeyReceipt> {
    if e.clientKey.None? then keyed
    else (if |keyed| == MAX_RECORDS then keyed[1..] else keyed) + [ReceiptFor(e)]
  }

  // ---- The service ----

  datatype Service = Service(books: Books, records: nat, failed: bool, keyed: seq<KeyReceipt>, disk: seq<Frame>)

  /** What an append may do: reach the disk, fail before it did, or fail after it did. */
  datatype Append = Written | Lost | InDoubt

  /** `commit`, on a journal that supports no checkpoints. */
  function Commit(codec: Codec, v: Service, actor: MemberId, requestId: nat, c: Command, key: Option<Digest>,
                  clock: nat, append: Append): (r: (Service, Result<Receipt, Error>))
    requires IsChecksum(codec.crc)
  {
    if v.failed then (v, Failure(Storage))
    else
      match Retry(v.books, actor, requestId, c)
      case Failure(error) => (v, Failure(error))
      case Success(Some(receipt)) => (v, Success(receipt))
      case Success(None) =>
        var now := NowFrom(clock, v.books.lastTimestamp);
        match ValidateAt(v.books, actor, c, now)
        case Failure(error) => (v, Failure(error))
        case Success(_) =>
          if v.records == MAX_RECORDS then (v, Failure(Capacity))
          else if NextSequence(v.books.sequence).None? then (v, Failure(Overflow))
          else
            var e := CommitEvent(v, actor, requestId, c, key, clock);
            match Encode(codec, e)
            case Failure(error) => (v, Failure(error))
            case Success(frame) =>
              match append
              case Written =>
                (Service(Apply(v.books, e), v.records + 1, false, Remember(v.keyed, e), v.disk + [frame]),
                 Success(Receipt(e.sequence, false)))
              case Lost => (v.(failed := true), Failure(Storage))
              case InDoubt => (v.(failed := true, disk := v.disk + [frame]), Failure(Storage))
  }

  /** The event a commit journals. */
  function CommitEvent(v: Service, actor: MemberId, requestId: nat, c: Command, key: Option<Digest>, clock: nat): Event
    requires NextSequence(v.books.sequence).Some?
  {
    Event(Max(NowFrom(clock, v.books.lastTimestamp), v.books.lastTimestamp), key, 1,
          NextSequence(v.books.sequence).value, actor, requestId, c)
  }

  function ParseDigits(s: string): Option<nat> {
    if s == "" then Some(0)
    else
      var c := s[|s| - 1];
      if !('0' <= c <= '9') then None
      else
        match ParseDigits(s[..|s| - 1])
        case None => None
        case Some(n) => Some(n * 10 + (c as int - '0' as int))
  }

  /** `str::parse::<u64>`: an optional plus sign, then decimal digits that fit. */
  function ParseU64(s: string): Option<nat> {
    var digits := if s != "" && s[0] == '+' then s[1..] else s;
    if digits == "" then None
    else
      match ParseDigits(digits)
      case Some(n) => if n <= U64_MAX then Some(n) else None
      case None => None
  }

  /** The generation a key of the form "g<n>:..." names, 0 otherwise. */
  function KeyGeneration(key: string): nat {
    if key == "" || key[0] != 'g' then 0
    else
      match Position(key, (c: char) => c == ':')
      case None => 0
      case Some(i) => if i == 0 then 0 else match ParseU64(key[1..i]) case Some(n) => n case None => 0
  }

  /** `execute_keyed`: a remembered key answers from its receipt; a new one becomes the actor's next request. */
  function CommitKeyed(codec: Codec, v: Service, actor: MemberId, key: string, c: Command, clock: nat, append: Append)
    : (r: (Service, Result<Receipt, Error>))
    requires IsChecksum(codec.crc)
  {
    if v.failed then (v, Failure(Storage))
    else if |key| == 0 || |key| > 80 then (v, Failure(InvalidInput))
    else
      match ReceiptAt(v.keyed, actor, OfText(key))
      case Some(i) =>
        if v.keyed[i].command != Fingerprint(c) then (v, Failure(Conflict))
        else (v, Success(Receipt(v.keyed[i].sequence, true)))
      case None =>
        if KeyGeneration(key) != 0 then (v, Failure(StaleRequest))
        else
          match FindMember(v.books, actor)
          case Failure(error) => (v, Failure(error))
          case Success(m) => Commit(codec, v, actor, m.lastRequest + 1, c, Some(OfText(key)), clock, append)
  }

  /** The first `n` frames, decoded and replayed in order. */
  function Load(codec: Codec, disk: seq<Frame>, n: nat): Result<Service, Error>
    requires n <= |disk|
  {
    if n == 0 then Success(Service(EMPTY_BOOKS, 0, false, [], disk))
    else
      var v :- Load(codec, disk, n - 1);
      var e :- Decode(codec, disk[n - 1]);
      var b :- Replay(v.books, e);
      :- Need(e.clientKey.None? || ReceiptAt(v.keyed, e.actor, e.clientKey.value).None?, CorruptJournal);
      Success(Service(b, n, false, Remember(v.keyed, e), disk))
  }

  function OpenJournal(codec: Codec, disk: seq<Frame>): Result<Service, Error> {
    var v :- Load(codec, disk, Min(|disk|, MAX_RECORDS));
    var _ :- CheckInvariants(v.books);
    Success(v)
  }

  // ---- The service invariant ----

  function Receipts(events: seq<Event>): seq<KeyReceipt> {
    if events == [] then []
    else
      var last := events[|events| - 1];
      Receipts(events[..|events| - 1]) + if last.clientKey.Some? then [ReceiptFor(last)] else []
  }

  /** One (member, key) pair takes effect at most once. */
  ghost predicate KeysOnce(events: seq<Event>) {
    forall i, j :: 0 <= i < j < |events| && events[i].clientKey.Some? && events[i].actor == events[j].actor ==>
      events[i].clientKey != events[j].clientKey
  }

  ghost predicate Journalled(codec: Codec, disk: seq<Frame>, events: seq<Event>)
    requires IsChecksum(codec.crc)
  {
    && |events| <= |disk|
    && forall i :: 0 <= i < |events| ==> Encode(codec, events[i]) == Success(disk[i])
  }

  /** The service holds exactly what its committed steps produce, and the disk holds exactly their frames. */
  ghost predicate Synced(codec: Codec, v: Service, steps: seq<Step>)
    requires IsChecksum(codec.crc)
  {
    && ValidRun(steps) && KeysOnce(Events(steps))
    && v.books == After(steps)
    && v.records == |steps| <= MAX_RECORDS
    && v.keyed == Receipts(Events(steps))
    && Journalled(codec, v.disk, Events(steps))
  }

  /** A latched service may have left one more frame in doubt; it is a frame this run could have committed. */
  ghost predicate ServiceInv(codec: Codec, v: Service, steps: seq<Step>, doubt: Option<Step>)
    requires IsChecksum(codec.crc)
  {
    && Synced(codec, v, steps)
    && (doubt.None? ==> |v.disk| == |steps|)
    && (doubt.Some? ==>
          && v.failed
          && ValidRun(steps + [doubt.value]) && KeysOnce(Events(steps + [doubt.value]))
          && |steps| + 1 <= MAX_RECORDS
          && |v.disk| == |steps| + 1
          && Journalled(codec, v.disk, Events(steps + [doubt.value])))
  }

  /** The steps whose frames are on the disk. */
  function Durable(steps: seq<Step>, doubt: Option<Step>): seq<Step> {
    if doubt.Some? then steps + [doubt.value] else steps
  }

  lemma EventsAppend(steps: seq<Step>, step: Step)
    ensures Events(steps + [step]) == Events(steps) + [step.event]
    ensures (steps + [step])[..|steps|] == steps
  {
  }

  lemma {:induction false} ReceiptsCover(events: seq<Event>)
    ensures |Receipts(events)| <= |events|
    ensures forall i :: 0 <= i < |events| && events[i].clientKey.Some? ==> ReceiptFor(events[i]) in Receipts(events)
    ensures forall r :: r in Receipts(events) ==>
              exists i :: 0 <= i < |events| && events[i].clientKey.Some? && r == ReceiptFor(events[i])
  {
    if events != [] {
      var front, last := events[..|events| - 1], events[|events| - 1];
      ReceiptsCover(front);
      forall r | r in Receipts(events)
        ensures exists i :: 0 <= i < |events| && events[i].clientKey.Some? && r == ReceiptFor(events[i])
      {
        if r in Receipts(front) {
          var i :| 0 <= i < |front| && front[i].clientKey.Some? && r == ReceiptFor(front[i]);
          assert events[i] == front[i];
        } else {
          assert events[|events| - 1] == last;
        }
      }
      forall i | 0 <= i < |events| && events[i].clientKey.Some? ensures ReceiptFor(events[i]) in Receipts(events) {
        if i < |front| {
          assert front[i] == events[i];
        }
      }
    }
  }

  /** With no receipts table overflow, remembering one more event extends the receipts by it. */
  lemma RememberIsReceipt(events: seq<Event>, e: Event)
    requires |events| < MAX_RECORDS
    ensures Remember(Receipts(events), e) == Receipts(events + [e])
  {
    ReceiptsCover(events);
    assert (events + [e])[..|events|] == events;
  }

  /** A key with no receipt has never been used by this member. */
  lemma UnusedKey(events: seq<Event>, e: Event)
    requires KeysOnce(events)
    requires e.clientKey.Some? ==> ReceiptAt(Receipts(events), e.actor, e.clientKey.value).None?
    ensures KeysOnce(events + [e])
  {
    ReceiptsCover(events);
  }

  // ---- A commit ----

  lemma RetryIsReplayed(b: Books, actor: MemberId, requestId: nat, c: Command)
    requires Retry(b, actor, requestId, c).Success? && Retry(b, actor, requestId, c).value.Some?
    ensures Retry(b, actor, requestId, c).value.value.replayed
  {
  }

  lemma CommitIsAdmissible(v: Service, actor: MemberId, requestId: nat, c: Command, key: Option<Digest>, clock: nat)
    requires Retry(v.books, actor, requestId, c) == Success(None)
    requires ValidateAt(v.books, actor, c, NowFrom(clock, v.books.lastTimestamp)).Success?
    requires NextSequence(v.books.sequence).Some?
    ensures Admissible(v.books, CommitEvent(v, actor, requestId, c, key, clock), clock)
  {
  }

  lemma Extended(codec: Codec, v: Service, steps: seq<Step>, step: Step, frame: Frame)
    requires codec.Faithful() && Synced(codec, v, steps) && |v.disk| == |steps| && v.records < MAX_RECORDS
    requires Admissible(v.books, step.event, step.clock)
    requires Encode(codec, step.event) == Success(frame)
    requires step.event.clientKey.Some? ==> ReceiptAt(v.keyed, step.event.actor, step.event.clientKey.value).None?
    ensures ValidRun(steps + [step]) && KeysOnce(Events(steps + [step]))
    ensures After(steps + [step]) == Apply(v.books, step.event)
    ensures Journalled(codec, v.disk + [frame], Events(steps + [step]))
    ensures Receipts(Events(steps + [step])) == Remember(v.keyed, step.event)
  {
    hide Admissible, Apply, Encode;
    EventsAppend(steps, step);
    UnusedKey(Events(steps), step.event);
    RememberIsReceipt(Events(steps), step.event);
  }

  /** The commit gets as far as appending a frame. */
  predicate Reaches(codec: Codec, v: Service, actor: MemberId, requestId: nat, c: Command, key: Option<Digest>,
                    clock: nat)
    requires IsChecksum(codec.crc)
  {
    && !v.failed
    && Retry(v.books, actor, requestId, c) == Success(None)
    && ValidateAt(v.books, actor, c, NowFrom(clock, v.books.lastTimestamp)).Success?
    && v.records != MAX_RECORDS
    && NextSequence(v.books.sequence).Some?
    && Encode(codec, CommitEvent(v, actor, requestId, c, key, clock)).Success?
  }

  /** A commit that appends nothing changes nothing, and answers with an error or an old receipt. */
  lemma CommitStops(codec: Codec, v: Service, actor: MemberId, requestId: nat, c: Command, key: Option<Digest>,
                    clock: nat, append: Append)
    requires IsChecksum(codec.crc) && !Reaches(codec, v, actor, requestId, c, key, clock)
    ensures var (v', r) := Commit(codec, v, actor, requestId, c, key, clock, append);
            v' == v && (r.Success? ==>
                          r.value.replayed && Retry(v.books, actor, requestId, c) == Success(Some(r.value)))
  {
    hide ValidateAt, Retry, Encode, NextSequence;
    if Retry(v.books, actor, requestId, c).Success? && Retry(v.books, actor, requestId, c).value.Some? {
      RetryIsReplayed(v.books, actor, requestId, c);
    }
  }

  lemma CommitAppends(codec: Codec, v: Service, actor: MemberId, requestId: nat, c: Command, key: Option<Digest>,
                      clock: nat, append: Append)
    requires IsChecksum(codec.crc) && Reaches(codec, v, actor, requestId, c, key, clock)
    ensures var e := CommitEvent(v, actor, requestId, c, key, clock);
            var frame := Encode(codec, e).value;
            Commit(codec, v, actor, requestId, c, key, clock, append) ==
            match append
            case Written => (Service(Apply(v.books, e), v.records + 1, false, Remember(v.keyed, e), v.disk + [frame]),
                             Success(Receipt(e.sequence, false)))
            case Lost => (v.(failed := true), Failure(Storage))
            case InDoubt => (v.(failed := true, disk := v.disk + [frame]), Failure(Storage))
    ensures Admissible(v.books, CommitEvent(v, actor, requestId, c, key, clock), clock)
  {
    CommitIsAdmissible(v, actor, requestId, c, key, clock);
  }

  /** How a commit moves the log: by its own event, into doubt about it, or not at all. */
  ghost predicate Moves(codec: Codec, v: Service, steps: seq<Step>, doubt: Option<Step>, own: Option<Step>,
                        v': Service, steps': seq<Step>, doubt': Option<Step>, r: Result<Receipt, Error>)
    requires IsChecksum(codec.crc)
  {
    && ServiceInv(codec, v', steps', doubt')
    && match r
       case Success(receipt) =>
         if receipt.replayed then v' == v && steps' == steps && doubt' == doubt
         else
           own.Some? && steps' == steps + [own.value] && doubt' == None && receipt.sequence == own.value.event.sequence
       case Failure(_) =>
         && steps' == steps && v'.books == v.books && v'.keyed == v.keyed && v'.records == v.records
         && (v' == v || v'.failed)
         && (doubt' == doubt || (doubt.None? && own.Some? && doubt' == own))
  }

  /** The step a commit would take. */
  function OwnStep(v: Service, actor: MemberId, requestId: nat, c: Command, key: Option<Digest>,
                   clock: nat): Option<Step> {
    if NextSequence(v.books.sequence).Some?
    then Some(Step(CommitEvent(v, actor, requestId, c, key, clock), clock))
    else None
  }

  lemma StepAppended(codec: Codec, v: Service, steps: seq<Step>, step: Step, frame: Frame, append: Append)
    returns (v': Service, doubt': Option<Step>, steps': seq<Step>)
    requires codec.Faithful() && ServiceInv(codec, v, steps, None) && !v.failed && v.records != MAX_RECORDS
    requires Admissible(v.books, step.event, step.clock)
    requires Encode(codec, step.event) == Success(frame)
    requires step.event.clientKey.Some? ==> ReceiptAt(v.keyed, step.event.actor, step.event.clientKey.value).None?
    ensures v' == match append
                  case Written => Service(Apply(v.books, step.event), v.records + 1, false,
                                          Remember(v.keyed, step.event), v.disk + [frame])
                  case Lost => v.(failed := true)
                  case InDoubt => v.(failed := true, disk := v.disk + [frame])
    ensures steps' == if append.Written? then steps + [step] else steps
    ensures doubt' == if append.InDoubt? then Some(step) else None
    ensures ServiceInv(codec, v', steps', doubt')
  {
    hide Admissible, Apply, Encode, Remember, KeysOnce, After, ValidRun, Receipts, Events;
    Extended(codec, v, steps, step, frame);
    EventsAppend(steps, step);
    StillJournalled(codec, v.disk, frame, Events(steps));
    match append {
      case Written =>
        v' := Service(Apply(v.books, step.event), v.records + 1, false, Remember(v.keyed, step.event),
                      v.disk + [frame]);
        steps', doubt' := steps + [step], None;
      case Lost =>
        v', steps', doubt' := v.(failed := true), steps, None;
      case InDoubt =>
        v', steps', doubt' := v.(failed := true, disk := v.disk + [frame]), steps, Some(step);
    }
  }

  lemma CommitProgresses(codec: Codec, v: Service, steps: seq<Step>, doubt: Option<Step>, actor: MemberId,
                         requestId: nat, c: Command, key: Option<Digest>, clock: nat, append: Append)
    returns (steps': seq<Step>, doubt': Option<Step>)
    requires codec.Faithful() && ServiceInv(codec, v, steps, doubt)
    requires key.Some? ==> ReceiptAt(v.keyed, actor, key.value).None?
    ensures var (v', r) := Commit(codec, v, actor, requestId, c, key, clock, append);
            && Moves(codec, v, steps, doubt, OwnStep(v, actor, requestId, c, key, clock), v', steps', doubt', r)
            && (r.Success? && r.value.replayed ==> Retry(v.books, actor, requestId, c) == Success(Some(r.value)))
  {
    hide Commit, CommitEvent, Reaches, Admissible, Apply, Encode, Retry, NextSequence, Synced, Journalled, KeysOnce;
    steps', doubt' := steps, doubt;
    if Reaches(codec, v, actor, requestId, c, key, clock) {
      ReachesUnlatched(codec, v, actor, requestId, c, key, clock);
      CommitAppends(codec, v, actor, requestId, c, key, clock, append);
      var step := OwnStep(v, actor, requestId, c, key, clock).value;
      var v';
      v', doubt', steps' := StepAppended(codec, v, steps, step, Encode(codec, step.event).value, append);
    } else {
      CommitStops(codec, v, actor, requestId, c, key, clock, append);
    }
  }

  lemma ReachesUnlatched(codec: Codec, v: Service, actor: MemberId, requestId: nat, c: Command, key: Option<Digest>,
                         clock: nat)
    requires IsChecksum(codec.crc) && Reaches(codec, v, actor, requestId, c, key, clock)
    ensures !v.failed && v.records != MAX_RECORDS && NextSequence(v.books.sequence).Some?
    ensures var e := CommitEvent(v, actor, requestId, c, key, clock);
            e.actor == actor && e.requestId == requestId && e.command == c && e.clientKey == key
            && Encode(codec, e).Success? && e.sequence == NextSequence(v.books.sequence).value
  {
    hide Encode;
  }

  lemma StillJournalled(codec: Codec, disk: seq<Frame>, frame: Frame, events: seq<Event>)
    requires IsChecksum(codec.crc) && Journalled(codec, disk, events)
    ensures Journalled(codec, disk + [frame], events)
  {
  }
}
