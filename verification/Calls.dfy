/** What the rule book allows, the service does: an allowed call is acknowledged, journalled and applied. */
module Calls {
  import opened Wrappers
  import opened Types
  import opened Postings
  import opened Offers
  import opened Forex
  import opened Domain
  import opened Admission
  import opened Reversals
  import opened Sales
  import opened QuoteBook
  import opened Frames
  import opened Runs
  import opened Replays
  import opened Rulebook
  import opened Journal
  import opened Recovery

  /** Ids are consumed one by one, with one gap of 4096 for cash legs in every 8192: a journal cannot exhaust them. */
  lemma {:induction false} SequenceIsSmall(steps: seq<Step>)
    requires ValidRun(steps)
    ensures After(steps).sequence <= 4097 * |steps|
  {
    hide ValidateAt, FindMember, Posted, NextAccounts, NextOffers, NextListings, NextQuotes, NextHousehold, NextWindow,
      Corrected, Watermark, Settle, Net, MarkReversed;
    if steps != [] {
      SequenceIsSmall(steps[..|steps| - 1]);
    }
  }

  /** The request is one this member has not reached yet. */
  predicate NotYetUsed(b: Books, actor: MemberId, requestId: nat) {
    && 1 <= requestId <= MAX_SEQUENCE
    && (1 <= actor <= |b.members| ==> b.members[actor - 1].lastRequest < requestId)
  }

  lemma RetryPasses(b: Books, life: seq<Transaction>, actor: MemberId, requestId: nat, c: Command, now: nat)
    requires HouseInv(b, life) && NotYetUsed(b, actor, requestId) && ValidateAt(b, actor, c, now).Success?
    ensures Retry(b, actor, requestId, c) == Success(None)
  {
    hide LedgerInv, SalesInv, QuotesInv, ValidateMembership, ValidateTrade, ValidateForex, ValidateOffer;
    MemberIndex(b.members, actor);
  }

  /** On an unlatched service with room in its journal, a call under a fresh request id, of a command the rule book
      allows
      its sender now and that fits a frame, is acknowledged once it is durable: the disk gains its frame, and the books
      its event. */
  lemma AllowedCallsCommit(codec: Codec, v: Service, steps: seq<Step>, actor: MemberId, requestId: nat, c: Command,
                           clock: nat)
    returns (e: Event)
    requires codec.Faithful() && ServiceInv(codec, v, steps, None) && !v.failed && v.records < MAX_RECORDS
    requires NotYetUsed(v.books, actor, requestId) && May(v.books, actor, c, NowFrom(clock, v.books.lastTimestamp))
    requires NextSequence(v.books.sequence).Some? ==>
               |codec.serialise(CommitEvent(v, actor, requestId, c, None, clock))| <= 1012
    ensures e.actor == actor && e.requestId == requestId && e.command == c && e.sequence > v.books.sequence
    ensures Encode(codec, e).Success? && Admissible(v.books, e, clock)
    ensures Act(codec, v, Call(actor, ById(requestId), c, clock, Written)) ==
            (v.(books := Apply(v.books, e), records := v.records + 1, disk := v.disk + [Encode(codec, e).value]),
             [Ack(actor, ById(requestId), c, e.sequence)])
  {
    hide HouseInv, Apply, Encode, ValidateAt, May, Retry, Commit, Admissible, After, Lifetime, Journalled, KeysOnce,
      Receipts;
    RunsKeepHouse(steps);
    SequenceIsSmall(steps);
    var b := v.books;
    var now := NowFrom(clock, b.lastTimestamp);
    ValidationFollowsRules(b, Lifetime(steps), actor, c, now);
    RetryPasses(b, Lifetime(steps), actor, requestId, c, now);
    NextExists(b.sequence);
    e := CommitEvent(v, actor, requestId, c, None, clock);
    ShortEncodes(codec, e);
    CommitAppends(codec, v, actor, requestId, c, None, clock, Written);
    UnkeyedForgetsNothing(v.keyed, e);
  }

  lemma NextExists(sequence: nat)
    requires sequence <= 4097 * MAX_RECORDS
    ensures NextSequence(sequence).Some? && NextSequence(sequence).value > sequence
  {
  }

  lemma ShortEncodes(codec: Codec, e: Event)
    requires IsChecksum(codec.crc) && |codec.serialise(e)| <= 1012
    ensures Encode(codec, e).Success?
  {
  }

  lemma UnkeyedForgetsNothing(keyed: seq<KeyReceipt>, e: Event)
    requires e.clientKey.None?
    ensures Remember(keyed, e) == keyed
  {
  }

  // ---- Keys ----

  const DIGITS := "0123456789"

  /** A number as anyone writes it. */
  function Decimal(n: nat): (s: string)
    ensures s != ""
  {
    if n < 10 then [DIGITS[n]] else Decimal(n / 10) + [DIGITS[n % 10]]
  }

  lemma {:induction false} DecimalIsRead(n: nat)
    ensures ParseDigits(Decimal(n)) == Some(n)
    ensures forall i :: 0 <= i < |Decimal(n)| ==> '0' <= Decimal(n)[i] <= '9'
  {
    hide ParseDigits;
    if n >= 10 {
      var front := Decimal(n / 10);
      DecimalIsRead(n / 10);
      DigitIsRead(front, n % 10);
      assert Decimal(n) == front + [DIGITS[n % 10]] && n == n / 10 * 10 + n % 10;
      assert forall i :: 0 <= i < |front| ==> Decimal(n)[i] == front[i];
    } else {
      NothingIsRead();
      DigitIsRead("", n);
      assert Decimal(n) == "" + [DIGITS[n]];
    }
  }

  lemma NothingIsRead()
    ensures ParseDigits("") == Some(0)
  {
  }

  lemma DigitIsRead(s: string, d: nat)
    requires d < 10 && ParseDigits(s).Some?
    ensures ParseDigits(s + [DIGITS[d]]) == Some(ParseDigits(s).value * 10 + d) && '0' <= DIGITS[d] <= '9'
  {
    assert (s + [DIGITS[d]])[..|s|] == s;
  }

  /** A key written "g<n>:..." names generation `n`; a key that does not start with g, or has no colon, names none. */
  lemma GenerationIsRead(n: nat, rest: string, other: string)
    requires n <= U64_MAX && (other == "" || other[0] != 'g' || ':' !in other)
    ensures KeyGeneration("g" + Decimal(n) + ":" + rest) == n
    ensures KeyGeneration(other) == 0
  {
    var digits := Decimal(n);
    var key := "g" + digits + ":" + rest;
    DecimalIsRead(n);
    assert key[1 + |digits|] == ':' && key[0] == 'g' && key[1..1 + |digits|] == digits;
    assert forall i :: 0 <= i < |digits| ==> key[1 + i] == digits[i];
    ColonAt(key, 1 + |digits|);
  }

  lemma ColonAt(key: string, i: nat)
    requires i < |key| && key[i] == ':' && forall j :: 0 <= j < i ==> key[j] != ':'
    ensures Position(key, (c: char) => c == ':') == Some(i)
  {
    var p := (c: char) => c == ':';
    assert p(key[i]);
  }

  /** A call under a key of 1 to 80 characters that has no receipt yet becomes the next request of its sender, if the
      rule
      book allows the command now and it fits a frame; a key of another generation is refused as stale. */
  lemma AllowedKeyedCallsCommit(codec: Codec, v: Service, steps: seq<Step>, actor: MemberId, key: string, c: Command,
                                clock: nat)
    returns (e: Event)
    requires codec.Faithful() && ServiceInv(codec, v, steps, None) && !v.failed && v.records < MAX_RECORDS
    requires 1 <= |key| <= 80 && KeyGeneration(key) == 0
    requires forall i :: 0 <= i < |v.keyed| ==> !(v.keyed[i].actor == actor && v.keyed[i].key == OfText(key))
    requires May(v.books, actor, c, NowFrom(clock, v.books.lastTimestamp))
    requires 1 <= actor <= |v.books.members| && v.books.members[actor - 1].lastRequest < MAX_SEQUENCE
    requires NextSequence(v.books.sequence).Some? ==>
               |codec.serialise(CommitEvent(v, actor, v.books.members[actor - 1].lastRequest + 1, c, Some(OfText(key)),
                                            clock))| <= 1012
    ensures e.actor == actor && e.command == c && e.sequence > v.books.sequence
    ensures e.requestId == v.books.members[actor - 1].lastRequest + 1 && e.clientKey == Some(OfText(key))
    ensures Encode(codec, e).Success? && Admissible(v.books, e, clock)
    ensures Act(codec, v, Call(actor, ByKey(key), c, clock, Written)) ==
            (v.(books := Apply(v.books, e), records := v.records + 1, disk := v.disk + [Encode(codec, e).value],
                keyed := v.keyed + [KeyReceipt(OfText(key), actor, Fingerprint(c), e.sequence, e.timestamp)]),
             [Ack(actor, ByKey(key), c, e.sequence)])
  {
    hide HouseInv, Apply, Encode, ValidateAt, May, Retry, Commit, Admissible, After, Lifetime, Journalled, KeysOnce,
      Receipts, Fingerprint, FindMember, KeyGeneration;
    RunsKeepHouse(steps);
    SequenceIsSmall(steps);
    var b := v.books;
    var requestId := b.members[actor - 1].lastRequest + 1;
    ValidationFollowsRules(b, Lifetime(steps), actor, c, NowFrom(clock, b.lastTimestamp));
    RetryPasses(b, Lifetime(steps), actor, requestId, c, NowFrom(clock, b.lastTimestamp));
    MemberIsFound(b, Lifetime(steps), actor);
    NextExists(b.sequence);
    e := CommitEvent(v, actor, requestId, c, Some(OfText(key)), clock);
    ShortEncodes(codec, e);
    CommitAppends(codec, v, actor, requestId, c, Some(OfText(key)), clock, Written);
    FewReceipts(steps);
  }

  lemma MemberIsFound(b: Books, life: seq<Transaction>, id: MemberId)
    requires HouseInv(b, life) && 1 <= id <= |b.members|
    ensures FindMember(b, id) == Success(b.members[id - 1])
  {
    hide LedgerInv, SalesInv, QuotesInv;
    MemberIndex(b.members, id);
  }

  lemma FewReceipts(steps: seq<Step>)
    ensures |Receipts(Events(steps))| <= |steps|
  {
    ReceiptsCover(Events(steps));
  }

  // ---- Boot ----

  /** Whatever disk loads, written by this service or not, holds a valid run in its frames, with no key used twice,
      and the
      service is exactly what that run leaves. */
  lemma {:induction false} LoadedIsRun(codec: Codec, disk: seq<Frame>, n: nat) returns (steps: seq<Step>)
    requires n <= |disk| && n <= MAX_RECORDS && Load(codec, disk, n).Success?
    ensures |steps| == n && ValidRun(steps) && KeysOnce(Events(steps))
    ensures forall i :: 0 <= i < n ==> Decode(codec, disk[i]) == Success(steps[i].event)
    ensures Load(codec, disk, n).value == LoadedService(steps, disk)
  {
    hide Decode, Replay, Admissible, Apply;
    if n == 0 {
      steps := [];
      assert Events(steps) == [];
    } else {
      var front := LoadedIsRun(codec, disk, n - 1);
      var e := Decode(codec, disk[n - 1]).value;
      var step := ReplayedStep(front, e);
      steps := front + [step];
      EventsAppend(front, step);
      UnusedKey(Events(front), e);
      RememberIsReceipt(Events(front), e);
    }
  }

  lemma ReplayedStep(front: seq<Step>, e: Event) returns (step: Step)
    requires ValidRun(front) && Replay(After(front), e).Success?
    ensures step.event == e && Admissible(After(front), e, step.clock)
    ensures After(front + [step]) == Apply(After(front), e) == Replay(After(front), e).value
    ensures ValidRun(front + [step])
  {
    hide Replay, Admissible, Apply;
    ReplayedWasAdmissible(After(front), e);
    step := Step(e, e.timestamp);
    assert (front + [step])[..|front|] == front;
  }
}
