/** What holds after every run of admitted events, whatever the clock did. */
module Runs {
  import opened Wrappers
  import opened Types
  import opened Postings
  import opened Offers
  import opened Forex
  import opened Domain
  import opened Admission
  import opened Accounts
  import opened Reversals
  import opened Sales
  import opened QuoteBook
  import opened Replays

  /** One committed event, with what the clock read when it was validated. */
  datatype Step = Step(event: Event, clock: nat)

  function After(steps: seq<Step>): Books {
    if steps == [] then EMPTY_BOOKS
    else Apply(After(steps[..|steps| - 1]), steps[|steps| - 1].event)
  }

  /** Every row ever posted, none forgotten. */
  function Lifetime(steps: seq<Step>): seq<Transaction> {
    if steps == [] then []
    else
      var front := steps[..|steps| - 1];
      Lifetime(front) + Posted(After(front), steps[|steps| - 1].event)
  }

  ghost predicate ValidRun(steps: seq<Step>) {
    steps != [] ==>
      var front := steps[..|steps| - 1];
      ValidRun(front) && Admissible(After(front), steps[|steps| - 1].event, steps[|steps| - 1].clock)
  }

  ghost predicate HouseInv(b: Books, life: seq<Transaction>) {
    AccountsInv(b, life) && LedgerInv(b, life) && SalesInv(b, life) && QuotesInv(b, life)
  }

  lemma EmptyHouse()
    ensures HouseInv(EMPTY_BOOKS, [])
  {
    assert forall id: MemberId, usd: bool :: id <= 0 ==> Kept(EMPTY_BOOKS, [], id, usd);
  }

  /** `apply` is total on admitted events: it re-establishes the whole invariant. */
  lemma HouseStep(b: Books, life: seq<Transaction>, e: Event, clock: nat)
    requires HouseInv(b, life) && Admissible(b, e, clock)
    ensures HouseInv(Apply(b, e), life + Posted(b, e))
  {
    var now := NowFrom(clock, b.lastTimestamp);
    ValidatedIsAdmitted(b, e, now);
    AccountsStep(b, life, e, now);
    LedgerStep(b, life, e, now);
    SalesStep(b, life, e, now);
    QuotesStep(b, life, e, now);
  }

  lemma {:induction false} RunsKeepHouse(steps: seq<Step>)
    requires ValidRun(steps)
    ensures HouseInv(After(steps), Lifetime(steps))
  {
    if steps == [] {
      EmptyHouse();
    } else {
      var front, last := steps[..|steps| - 1], steps[|steps| - 1];
      RunsKeepHouse(front);
      HouseStep(After(front), Lifetime(front), last.event, last.clock);
    }
  }

  // ---- Money ----

  function TotalHeld(members: seq<Member>, usd: bool): int {
    if members == [] then 0
    else TotalHeld(members[..|members| - 1], usd) + members[|members| - 1].Holds(usd)
  }

  lemma {:induction false} TotalIsNet(b: Books, life: seq<Transaction>, k: nat, usd: bool)
    requires AccountsInv(b, life) && k <= |b.members|
    ensures b.Issued(usd) + TotalHeld(b.members[..k], usd) == NetUpTo(life, k, usd)
  {
    assert Kept(b, life, k, usd);
    if k > 0 {
      TotalIsNet(b, life, k - 1, usd);
      assert b.members[..k][..k - 1] == b.members[..k - 1];
    }
  }

  /** In both currencies, issuance and all balances sum to zero, and the self-check agrees. */
  lemma MoneyIsConserved(steps: seq<Step>, usd: bool)
    requires ValidRun(steps)
    ensures var b := After(steps);
            b.Issued(usd) + TotalHeld(b.members, usd) == 0 && CheckInvariants(b) == Success(())
  {
    hide After, Lifetime;
    RunsKeepHouse(steps);
    var b, life := After(steps), Lifetime(steps);
    TotalIsNet(b, life, |b.members|, usd);
    assert b.members[..|b.members|] == b.members;
    PostingsConserve(life, |b.members|, usd);
    SelfCheckSucceeds(b, life);
  }

  /** The self-check passes nothing else: whatever it accepts conserves both currencies, with every balance in range. */
  lemma SelfCheckCatches(b: Books)
    requires CheckInvariants(b) == Success(())
    ensures forall usd: bool :: b.Issued(usd) + TotalHeld(b.members, usd) == 0
    ensures forall i, usd: bool :: 0 <= i < |b.members| ==>
              -9_007_199_254_740_991 <= b.members[i].Holds(usd) <= 9_007_199_254_740_991
  {
    SumIsTotal(b.members, b.issuance, false);
    SumIsTotal(b.members, b.usdIssuance, true);
  }

  lemma {:induction false} SumIsTotal(members: seq<Member>, start: int, usd: bool)
    requires BalanceSum(members, start, usd).Some?
    ensures BalanceSum(members, start, usd).value == start + TotalHeld(members, usd)
    ensures forall i :: 0 <= i < |members| ==> -MAX_SEQUENCE <= members[i].Holds(usd) <= MAX_SEQUENCE
  {
    if members != [] {
      SumIsTotal(members[1..], start + members[0].Holds(usd), usd);
      TotalFromFront(members, usd);
    }
  }

  lemma {:induction false} TotalFromFront(members: seq<Member>, usd: bool)
    requires members != []
    ensures TotalHeld(members, usd) == members[0].Holds(usd) + TotalHeld(members[1..], usd)
  {
    if |members| > 1 {
      var last := |members| - 1;
      TotalFromFront(members[..last], usd);
      assert members[..last][1..] == members[1..][..last - 1];
    }
  }

  /** Each balance is exact, representable, and the fold of the whole lifetime ledger, though only 365 rows are kept. */
  lemma BalancesAreTheLifetimeFold(steps: seq<Step>, id: MemberId, usd: bool)
    requires ValidRun(steps) && id <= |After(steps).members|
    ensures Balance(After(steps), id, usd) == Net(Lifetime(steps), id, usd)
    ensures -MAX_SEQUENCE <= Balance(After(steps), id, usd) <= MAX_SEQUENCE
    ensures |After(steps).history| == Min(365, |Lifetime(steps)|)
  {
    hide After, Lifetime;
    RunsKeepHouse(steps);
    assert Kept(After(steps), Lifetime(steps), id, usd);
  }

  /** Only corrections overdraw a member, and only by what they took. */
  lemma OverdraftIsBounded(steps: seq<Step>, id: MemberId, usd: bool)
    requires ValidRun(steps) && 1 <= id <= |After(steps).members|
    ensures -CorrectionDebits(Lifetime(steps), id, usd) <= Balance(After(steps), id, usd)
    ensures (forall k :: 0 <= k < |Lifetime(steps)| ==> Lifetime(steps)[k].reverses.None?) ==>
              0 <= Balance(After(steps), id, usd)
  {
    hide After, Lifetime;
    RunsKeepHouse(steps);
    assert Kept(After(steps), Lifetime(steps), id, usd);
    if forall k :: 0 <= k < |Lifetime(steps)| ==> Lifetime(steps)[k].reverses.None? {
      NoCorrections(Lifetime(steps), id, usd);
    }
  }

  lemma {:induction false} NoCorrections(life: seq<Transaction>, id: MemberId, usd: bool)
    requires forall k :: 0 <= k < |life| ==> life[k].reverses.None?
    ensures CorrectionDebits(life, id, usd) == 0
  {
    if life != [] {
      NoCorrections(life[..|life| - 1], id, usd);
    }
  }

  lemma {:induction false} NetIsSmall(life: seq<Transaction>, members: nat, id: MemberId, usd: bool)
    requires forall k :: 0 <= k < |life| ==> Sound(life[k], members)
    ensures -|life| * MAX_AMOUNT <= Net(life, id, usd) <= |life| * MAX_AMOUNT
  {
    if life != [] {
      NetIsSmall(life[..|life| - 1], members, id, usd);
      assert Sound(life[|life| - 1], members);
    }
  }

  lemma {:induction false} LifetimeIsShort(steps: seq<Step>)
    ensures |Lifetime(steps)| <= 2 * |steps|
  {
    hide Posted;
    if steps != [] {
      var front := steps[..|steps| - 1];
      LifetimeIsShort(front);
      AtMostTwoRows(After(front), steps[|steps| - 1].event);
    }
  }

  lemma AtMostTwoRows(b: Books, e: Event)
    ensures |Posted(b, e)| <= 2
  {
  }

  /** No balance outgrows what the run's events could have moved. */
  lemma BalancesAreSmall(steps: seq<Step>, id: MemberId, usd: bool)
    requires ValidRun(steps) && id <= |After(steps).members|
    ensures -2 * |steps| * MAX_AMOUNT <= Balance(After(steps), id, usd) <= 2 * |steps| * MAX_AMOUNT
  {
    hide After, Lifetime, LedgerInv, SalesInv, QuotesInv;
    RunsKeepHouse(steps);
    assert Kept(After(steps), Lifetime(steps), id, usd);
    NetIsSmall(Lifetime(steps), |After(steps).members|, id, usd);
    LifetimeIsShort(steps);
  }

  // ---- Rows ----

  lemma RowsAreNumbered(steps: seq<Step>)
    requires ValidRun(steps)
    ensures NumberingInv(After(steps).sequence, Lifetime(steps))
  {
    hide After, Lifetime, AccountsInv, SalesInv, QuotesInv, NumberingInv, DisciplineInv, HistoryInv, SettlementsInv;
    RunsKeepHouse(steps);
  }

  lemma HistoryHolds(steps: seq<Step>)
    requires ValidRun(steps)
    ensures HistoryInv(After(steps).history, Lifetime(steps))
  {
    hide After, Lifetime, AccountsInv, SalesInv, QuotesInv, NumberingInv, DisciplineInv, HistoryInv, SettlementsInv;
    RunsKeepHouse(steps);
  }

  lemma NumberedRow(sequence: nat, life: seq<Transaction>, i: nat)
    requires NumberingInv(sequence, life) && i < |life|
    ensures (EventId(life[i].id) <==> !CashRow(life[i])) && 1 <= life[i].id <= MAX_SEQUENCE
  {
    assert Issued(life[i], sequence);
  }

  /** Event rows use the lower half of the id blocks and cash legs, and only they, the upper; no id is too large
      for a double. */
  lemma RowIds(steps: seq<Step>, i: nat)
    requires ValidRun(steps) && i < |Lifetime(steps)|
    ensures EventId(Lifetime(steps)[i].id) <==> !CashRow(Lifetime(steps)[i])
    ensures 1 <= Lifetime(steps)[i].id <= MAX_SEQUENCE
  {
    hide After, Lifetime, NumberingInv;
    RowsAreNumbered(steps);
    NumberedRow(After(steps).sequence, Lifetime(steps), i);
  }

  /** Among event rows, and among cash legs, ids grow strictly with time. */
  lemma {:induction false} IdsGrow(steps: seq<Step>, i: nat, j: nat)
    requires ValidRun(steps) && i < j < |Lifetime(steps)|
    requires CashRow(Lifetime(steps)[i]) == CashRow(Lifetime(steps)[j])
    ensures Lifetime(steps)[i].id < Lifetime(steps)[j].id
  {
    var front, last := steps[..|steps| - 1], steps[|steps| - 1];
    if j < |Lifetime(front)| {
      IdsGrow(front, i, j);
    } else {
      RunsKeepHouse(front);
      NewIdsAreLarger(After(front), Lifetime(front), last.event, last.clock, i, j);
    }
  }

  lemma NewIdsAreLarger(b: Books, life: seq<Transaction>, e: Event, clock: nat, i: nat, j: nat)
    requires HouseInv(b, life) && Admissible(b, e, clock)
    requires var after := life + Posted(b, e);
             i < j < |after| && |life| <= j && CashRow(after[i]) == CashRow(after[j])
    ensures var after := life + Posted(b, e); after[i].id < after[j].id
  {
    hide ValidateAt, Posted, SalesInv, QuotesInv, DisciplineInv, HistoryInv, SettlementsInv, PostedShape, NumberingInv;
    ValidatedIsAdmitted(b, e, NowFrom(clock, b.lastTimestamp));
    PostedHasShape(b, life, e, NowFrom(clock, b.lastTimestamp));
    ShapedIdsAreLarger(b, life, e, Posted(b, e), i, j);
  }

  lemma ShapedIdsAreLarger(b: Books, life: seq<Transaction>, e: Event, txs: seq<Transaction>, i: nat, j: nat)
    requires NumberingInv(b.sequence, life) && PostedShape(b, life, e, txs)
    requires NextSequence(b.sequence) == Some(e.sequence)
    requires i < j < |life + txs| && |life| <= j && CashRow((life + txs)[i]) == CashRow((life + txs)[j])
    ensures (life + txs)[i].id < (life + txs)[j].id
  {
    FreshSequence(b.sequence);
    if i < |life| {
      assert Issued(life[i], b.sequence);
    }
  }

  /** No two rows share an id. */
  lemma IdsNeverCollide(steps: seq<Step>, i: nat, j: nat)
    requires ValidRun(steps) && i < j < |Lifetime(steps)|
    ensures Lifetime(steps)[i].id != Lifetime(steps)[j].id
  {
    hide After, Lifetime, EventId, CashRow;
    RowIds(steps, i);
    RowIds(steps, j);
    if CashRow(Lifetime(steps)[i]) == CashRow(Lifetime(steps)[j]) {
      IdsGrow(steps, i, j);
    }
  }

  /** A row is reversed at most once, by a later row that mirrors it exactly, and a reversal never is. */
  lemma ReversalsAreExact(steps: seq<Step>, i: nat, j: nat)
    requires ValidRun(steps) && i < j < |Lifetime(steps)|
    requires Lifetime(steps)[j].reverses.Some?
    ensures Lifetime(steps)[i].reverses != Lifetime(steps)[j].reverses
    ensures Lifetime(steps)[j].reverses == Some(Lifetime(steps)[i].id) ==>
              Mirrors(Lifetime(steps)[j], Lifetime(steps)[i])
    ensures exists k :: 0 <= k < j && Mirrors(Lifetime(steps)[j], Lifetime(steps)[k])
  {
    hide After, Lifetime;
    RunsKeepHouse(steps);
    var life := Lifetime(steps);
    assert HasOriginal(life, life[j], j);
    var k :| 0 <= k < j && Mirrors(life[j], life[k]);
    if life[k].id == life[i].id {
      assert k == i;
    }
  }

  /** Retained history is exactly the newest lifetime rows, each flagged reversed iff some row reverses it. */
  lemma HistoryIsTheTail(steps: seq<Step>, i: nat)
    requires ValidRun(steps) && i < |After(steps).history|
    ensures var life, h := Lifetime(steps), After(steps).history;
            |h| <= |life| && h[i] == life[|life| - |h| + i].(reversed := Undone(life, h[i].id))
  {
    hide After, Lifetime, Undone;
    HistoryHolds(steps);
    var life, h := Lifetime(steps), After(steps).history;
    assert h[i] == Flagged(life, |life| - |h| + i);
  }

  // ---- Sales ----

  /** No listing, retained or long evicted, ever carries two payments that stand. */
  lemma NoListingIsPaidTwice(steps: seq<Step>, i: nat, j: nat, listing: nat)
    requires ValidRun(steps) && i < j < |Lifetime(steps)|
    requires Pays(Lifetime(steps)[i], listing) && Pays(Lifetime(steps)[j], listing)
    ensures Undone(Lifetime(steps), Lifetime(steps)[i].id) || Undone(Lifetime(steps), Lifetime(steps)[j].id)
  {
    hide After, Lifetime;
    RunsKeepHouse(steps);
    if Standing(Lifetime(steps), i, listing) && Standing(Lifetime(steps), j, listing) {
      assert false;
    }
  }

  predicate MayUndo(b: Books, actor: MemberId, o: Offer) {
    && 1 <= actor <= |b.members|
    && !b.members[actor - 1].disabled
    && (actor == o.owner || actor == o.offerer || b.members[actor - 1].role == Nana)
  }

  /** The returned payment leaves both parties' balances within the representable range. */
  predicate UndoFits(b: Books, s: Settlement, amount: int)
    requires s.payer <= |b.members| && s.payee <= |b.members|
  {
    && Balance(b, s.payee, false) - amount >= -MAX_SEQUENCE
    && Balance(b, s.payer, false) + amount <= MAX_SEQUENCE
  }

  lemma UndoOutcome(b: Books, i: nat, k: nat, actor: MemberId, reason: string, now: nat)
    requires Numbered(b.members)
    requires i < |b.offers| && OfferAt(b.offers, b.offers[i].id) == Some(i) && b.offers[i].phase.Accepted?
    requires k < |b.listings| && ListingAt(b.listings, b.offers[i].listing) == Some(k) && b.listings[k].status == Sold
    requires MIN_CLOCK <= now <= MAX_SEQUENCE && b.offers[i].Pins(now)
    requires MayUndo(b, actor, b.offers[i]) && !HasControl(reason) && 1 <= b.offers[i].amount <= MAX_AMOUNT
    requires var s := b.offers[i].phase.settlement;
             && 1 <= s.payer <= |b.members| && 1 <= s.payee <= |b.members| && s.payer != s.payee
             && -MAX_SEQUENCE <= Balance(b, s.payer, false) <= MAX_SEQUENCE
             && -MAX_SEQUENCE <= Balance(b, s.payee, false) <= MAX_SEQUENCE
    ensures ValidateAt(b, actor, UnacceptOffer(b.offers[i].id, reason), now) ==
            if UndoFits(b, b.offers[i].phase.settlement, b.offers[i].amount) then Success(()) else Failure(Overflow)
  {
    hide ValidateMembership, ValidateTrade, ValidateForex, ValidateCurrencyPosting;
    MemberIndex(b.members, actor);
    MemberIndex(b.members, b.offers[i].phase.settlement.payer);
    MemberIndex(b.members, b.offers[i].phase.settlement.payee);
  }

  /** The listing of an unsettled deal is still there, sold to exactly that deal. */
  lemma UnsettledListing(b: Books, life: seq<Transaction>, i: nat) returns (k: nat)
    requires SalesInv(b, life) && i < |b.offers| && b.offers[i].Pins(b.lastTimestamp)
    ensures ListingAt(b.listings, b.offers[i].listing) == Some(k) && k < |b.listings|
    ensures b.listings[k].id == b.offers[i].listing && b.listings[k].status == Sold
    ensures b.listings[k].soldTx == Some(b.offers[i].phase.settlement.transaction)
    ensures OfferAt(b.offers, b.offers[i].id) == Some(i)
    ensures 1 <= b.offers[i].amount <= MAX_AMOUNT && b.offers[i].phase.settlement.settlesAt <= MAX_SEQUENCE
  {
    var o := b.offers[i];
    assert OfferKept(b.listings, o, b.sequence, b.lastTimestamp, |b.members|);
    UniqueOffer(b, i, OfferAt(b.offers, o.id).value);
    k := ListingAt(b.listings, o.listing).value;
    assert ListingKept(life, b.listings[k], b.sequence, |b.members|);
  }

  lemma UndoValidation(b: Books, life: seq<Transaction>, i: nat, actor: MemberId, reason: string, now: nat)
    requires HouseInv(b, life) && i < |b.offers| && b.offers[i].phase.Accepted?
    requires Max(b.lastTimestamp, MIN_CLOCK) <= now && b.offers[i].Pins(now)
    ensures var s := b.offers[i].phase.settlement; 1 <= s.payer <= |b.members| && 1 <= s.payee <= |b.members|
    ensures exists k :: 0 <= k < |b.listings| && b.listings[k].id == b.offers[i].listing
                        && b.listings[k].soldTx == Some(b.offers[i].phase.settlement.transaction)
    ensures MayUndo(b, actor, b.offers[i]) && !HasControl(reason) ==>
              ValidateAt(b, actor, UnacceptOffer(b.offers[i].id, reason), now) ==
              if UndoFits(b, b.offers[i].phase.settlement, b.offers[i].amount) then Success(()) else Failure(Overflow)
  {
    hide ValidateAt, LedgerInv, QuotesInv, SalesInv;
    var s := b.offers[i].phase.settlement;
    UndoParties(b, life, i);
    assert Kept(b, life, s.payer, false) && Kept(b, life, s.payee, false);
    var k := UnsettledListing(b, life, i);
    if MayUndo(b, actor, b.offers[i]) && !HasControl(reason) {
      UndoOutcome(b, i, k, actor, reason, now);
    }
  }

  /** A settled offer's parties are two distinct members of the household. */
  lemma UndoParties(b: Books, life: seq<Transaction>, i: nat)
    requires HouseInv(b, life) && i < |b.offers| && b.offers[i].Settled()
    ensures var s := b.offers[i].phase.settlement;
            1 <= s.payer <= |b.members| && 1 <= s.payee <= |b.members| && s.payer != s.payee
  {
    assert OfferKept(b.listings, b.offers[i], b.sequence, b.lastTimestamp, |b.members|);
  }

  /** Step `n` accepted offer `o`: right after it, `o` is on the books with the settlement that step wrote. */
  ghost predicate AcceptedAt(steps: seq<Step>, n: nat, o: Offer) {
    && n < |steps| && steps[n].event.command == AcceptOffer(o.id) && o.phase.Accepted?
    && o in After(steps[..n + 1]).offers
    && o.phase.settlement.transaction == steps[n].event.sequence
    && o.phase.settlement.settlesAt == steps[n].event.timestamp + After(steps[..n]).settlesAfter
  }

  lemma AcceptanceIsOnBooks(b: Books, e: Event, clock: nat) returns (o: Offer)
    requires Numbered(b.members) && Admissible(b, e, clock) && e.command.AcceptOffer?
    ensures o in NextOffers(b, e) && o.id == e.command.offer && o.phase.Accepted?
    ensures o.phase.settlement.transaction == e.sequence
    ensures o.phase.settlement.settlesAt == e.timestamp + b.settlesAfter
  {
    hide ValidatePosting, ValidateMembership, ValidateTrade, ValidateForex;
    var i := OfferAt(b.offers, e.command.offer).value;
    o := NextOffers(b, e)[i];
  }

  /** Every accepting step leaves such an offer. */
  lemma AcceptingAccepts(steps: seq<Step>, n: nat) returns (o: Offer)
    requires ValidRun(steps) && n < |steps| && steps[n].event.command.AcceptOffer?
    ensures AcceptedAt(steps, n, o)
  {
    hide Apply, NextOffers;
    PrefixIsValid(steps, n + 1);
    var upTo := steps[..n + 1];
    assert upTo[..|upTo| - 1] == steps[..n] && upTo[|upTo| - 1] == steps[n];
    RunsKeepHouse(steps[..n]);
    hide Admissible;
    o := AcceptanceIsOnBooks(After(steps[..n]), steps[n].event, steps[n].clock);
    AppliedOffers(After(steps[..n]), steps[n].event);
  }

  lemma AppliedOffers(b: Books, e: Event)
    ensures Apply(b, e).offers == NextOffers(b, e) && Apply(b, e).lastTimestamp == e.timestamp
  {
  }

  lemma {:induction false} PrefixIsValid(steps: seq<Step>, n: nat)
    requires ValidRun(steps) && n <= |steps|
    ensures ValidRun(steps[..n])
    decreases |steps|
  {
    hide Admissible, After;
    if n < |steps| {
      var front := steps[..|steps| - 1];
      PrefixIsValid(front, n);
      assert front[..n] == steps[..n];
    } else {
      assert steps[..n] == steps;
    }
  }

  /** A step keeps an unsettled, unreversed deal as it is. */
  lemma DealStep(b: Books, life: seq<Transaction>, e: Event, clock: nat, o: Offer)
    requires HouseInv(b, life) && Admissible(b, e, clock) && o in b.offers && o.Pins(e.timestamp)
    requires !Undone(life + Posted(b, e), o.phase.settlement.transaction)
    ensures o in Apply(b, e).offers
  {
    hide ValidateAt, Posted, NextOffers, PostedShape, Apply, Corrected, QuotesInv;
    var now := NowFrom(clock, b.lastTimestamp);
    ValidatedIsAdmitted(b, e, now);
    PostedHasShape(b, life, e, now);
    UndoneAfter(b, life, e, Posted(b, e), o.phase.settlement.transaction);
    AppliedOffers(b, e);
    var i :| 0 <= i < |b.offers| && b.offers[i] == o;
    var j := UnsettledOffersSurvive(b, life, e, now, i);
    assert NextOffers(b, e)[j] == o;
  }

  lemma UndoneForEver(life: seq<Transaction>, more: seq<Transaction>, id: nat)
    requires Undone(life, id)
    ensures Undone(life + more, id)
  {
    var k :| 0 <= k < |life| && life[k].reverses == Some(id);
    assert (life + more)[k] == life[k];
  }

  lemma StampsGrow(b: Books, e: Event, clock: nat)
    requires Admissible(b, e, clock)
    ensures b.lastTimestamp <= e.timestamp == Apply(b, e).lastTimestamp
  {
    hide ValidateAt;
  }

  /** From its acceptance until it settles, an accepted offer stays on the books exactly as accepted, unless its
      payment is reversed. */
  lemma {:induction false} DealsAreHeld(steps: seq<Step>, n: nat, o: Offer)
    requires ValidRun(steps) && AcceptedAt(steps, n, o)
    requires After(steps).lastTimestamp < o.phase.settlement.settlesAt
    requires !Undone(Lifetime(steps), o.phase.settlement.transaction)
    ensures o in After(steps).offers
  {
    hide Admissible, Apply, Posted, Undone, HouseInv;
    if n + 1 == |steps| {
      assert steps[..n + 1] == steps;
    } else {
      var front, last := steps[..|steps| - 1], steps[|steps| - 1];
      assert front[..n + 1] == steps[..n + 1] && front[..n] == steps[..n];
      var b, life := After(front), Lifetime(front);
      StampsGrow(b, last.event, last.clock);
      if Undone(life, o.phase.settlement.transaction) {
        UndoneForEver(life, Posted(b, last.event), o.phase.settlement.transaction);
        assert false;
      }
      DealsAreHeld(front, n, o);
      RunsKeepHouse(front);
      DealStep(b, life, last.event, last.clock, o);
    }
  }

  /** Until it settles, an accepted deal whose payment nobody reversed is still on the books, with its listing sold
      to it, and can be undone by either party or an enabled Nana: the only obstacle is a balance that would leave
      the representable range. */
  lemma UndoUntilSettled(steps: seq<Step>, n: nat, actor: MemberId, reason: string, now: nat) returns (i: nat)
    requires ValidRun(steps) && n < |steps| && steps[n].event.command.AcceptOffer?
    requires !Undone(Lifetime(steps), steps[n].event.sequence)
    requires Max(After(steps).lastTimestamp, MIN_CLOCK) <= now
    requires now < steps[n].event.timestamp + After(steps[..n]).settlesAfter
    ensures var b := After(steps);
            && i < |b.offers| && AcceptedAt(steps, n, b.offers[i])
            && var s := b.offers[i].phase.settlement;
               && s.payer <= |b.members| && s.payee <= |b.members|
               && (exists k :: 0 <= k < |b.listings| && b.listings[k].id == b.offers[i].listing
                               && b.listings[k].soldTx == Some(s.transaction))
               && (MayUndo(b, actor, b.offers[i]) && !HasControl(reason) ==>
                     ValidateAt(b, actor, UnacceptOffer(b.offers[i].id, reason), now) ==
                     if UndoFits(b, s, b.offers[i].amount) then Success(()) else Failure(Overflow))
  {
    hide After, Lifetime, ValidateAt, MayUndo, HasControl, UndoFits;
    var o := AcceptingAccepts(steps, n);
    DealsAreHeld(steps, n, o);
    RunsKeepHouse(steps);
    var b := After(steps);
    i :| 0 <= i < |b.offers| && b.offers[i] == o;
    hide HouseInv;
    UndoValidation(b, Lifetime(steps), i, actor, reason, now);
  }

  /** A run no longer than a journal never comes near the representable range, so there the undo of an unsettled deal
      is always accepted. */
  lemma ShortRunsUndo(steps: seq<Step>, i: nat, actor: MemberId, reason: string, now: nat)
    requires ValidRun(steps) && |steps| <= MAX_RECORDS && i < |After(steps).offers|
    requires After(steps).offers[i].Pins(now) && Max(After(steps).lastTimestamp, MIN_CLOCK) <= now
    requires MayUndo(After(steps), actor, After(steps).offers[i]) && !HasControl(reason)
    ensures ValidateAt(After(steps), actor, UnacceptOffer(After(steps).offers[i].id, reason), now) == Success(())
  {
    hide After, Lifetime, ValidateAt, MayUndo, HasControl, SalesInv, QuotesInv, LedgerInv, AccountsInv;
    RunsKeepHouse(steps);
    var b := After(steps);
    UndoValidation(b, Lifetime(steps), i, actor, reason, now);
    AmountIsSmall(b, Lifetime(steps), i);
    BalancesAreSmall(steps, b.offers[i].phase.settlement.payer, false);
    BalancesAreSmall(steps, b.offers[i].phase.settlement.payee, false);
  }

  lemma AmountIsSmall(b: Books, life: seq<Transaction>, i: nat)
    requires SalesInv(b, life) && i < |b.offers|
    ensures 1 <= b.offers[i].amount <= MAX_AMOUNT
  {
    assert OfferKept(b.listings, b.offers[i], b.sequence, b.lastTimestamp, |b.members|);
  }

  // ---- Exchanges ----

  /** Every filled quote has its two legs, and every leg ever posted has its partner at the next or previous row. */
  lemma LegsArePaired(steps: seq<Step>, k: nat)
    requires ValidRun(steps) && k < |Lifetime(steps)| && Lifetime(steps)[k].quote.Some?
    ensures var life := Lifetime(steps);
            if life[k].usd then k >= 1 && LegPair(life[k - 1], life[k])
            else k + 1 < |life| && LegPair(life[k], life[k + 1])
    ensures var life := Lifetime(steps);
            forall j :: 0 <= j < |life| && j != k && life[j].quote == life[k].quote ==>
              j == if life[k].usd then k - 1 else k + 1
  {
    hide After, Lifetime;
    RunsKeepHouse(steps);
    var life := Lifetime(steps);
    assert InPair(life, k, After(steps).sequence);
    forall j | 0 <= j < |life| && j != k && life[j].quote == life[k].quote
      ensures j == if life[k].usd then k - 1 else k + 1
    {
      assert InPair(life, j, After(steps).sequence);
      var partner := if life[k].usd then k - 1 else k + 1;
      assert life[partner].quote == life[k].quote && life[partner].usd != life[k].usd;
      if j != partner {
        assert false;
      }
    }
  }

  lemma FilledQuotesExchanged(steps: seq<Step>, i: nat)
    requires ValidRun(steps) && i < |After(steps).quotes|
    ensures var q := After(steps).quotes[i];
            if q.status == Filled then exists k :: Exchanged(Lifetime(steps), q, k)
            else forall k :: 0 <= k < |Lifetime(steps)| ==> Lifetime(steps)[k].quote != Some(q.id)
  {
    hide After, Lifetime;
    RunsKeepHouse(steps);
    assert QuoteKept(Lifetime(steps), After(steps).quotes[i], After(steps).sequence, |After(steps).members|);
  }

  // ---- Replay ----

  function Events(steps: seq<Step>): (r: seq<Event>)
    ensures |r| == |steps|
  {
    seq(|steps|, i requires 0 <= i < |steps| => steps[i].event)
  }

  function ReplayAll(events: seq<Event>): Result<Books, Error> {
    if events == [] then Success(EMPTY_BOOKS)
    else
      var b :- ReplayAll(events[..|events| - 1]);
      Replay(b, events[|events| - 1])
  }

  predicate NoLateWindow(events: seq<Event>) {
    forall i :: 0 <= i < |events| ==> !LateWindow(events[i].command, events[i].timestamp)
  }

  /** Replaying a run's events from nothing rebuilds its books exactly, unless one is a late window. */
  lemma {:induction false} RunsReplay(steps: seq<Step>)
    requires ValidRun(steps)
    ensures NoLateWindow(Events(steps)) ==> ReplayAll(Events(steps)) == Success(After(steps))
    ensures !NoLateWindow(Events(steps)) ==> ReplayAll(Events(steps)).Failure?
  {
    hide Apply, Replay, Admissible, LateWindow;
    if steps != [] {
      var front, last := steps[..|steps| - 1], steps[|steps| - 1];
      RunsReplay(front);
      assert Events(steps)[..|steps| - 1] == Events(front);
      assert forall i :: 0 <= i < |front| ==> Events(steps)[i] == Events(front)[i];
      ReplayAgrees(After(front), last.event, last.clock);
      if NoLateWindow(Events(front)) && !LateWindow(last.event.command, last.event.timestamp) {
        assert NoLateWindow(Events(steps));
      }
    }
  }

  /** Conversely, whatever replays at all, from whatever journal, is a run. */
  lemma {:induction false} ReplaysAreRuns(events: seq<Event>) returns (steps: seq<Step>)
    requires ReplayAll(events).Success?
    ensures ValidRun(steps) && Events(steps) == events && After(steps) == ReplayAll(events).value
  {
    hide Apply, Replay, Admissible;
    if events == [] {
      steps := [];
    } else {
      var last := events[|events| - 1];
      var front := ReplaysAreRuns(events[..|events| - 1]);
      ReplayedWasAdmissible(After(front), last);
      steps := front + [Step(last, last.timestamp)];
      assert steps[..|steps| - 1] == front;
      assert Events(steps) == Events(front) + [last];
    }
  }

  const WITNESS_VERIFIER := PasswordVerifier([], Zero, PASSWORD_ROUNDS)
  const WITNESS_FOUNDING := Event(1, None, 1, 1, 1, 1, Provision("N", "N", "N", WITNESS_VERIFIER))
  const WITNESS_CONFIGURE := Event(1, None, 1, 2, 1, 2, Configure("N", 0, "N", Some(MAX_SEQUENCE)))

  lemma WitnessNameIsValid()
    ensures ValidName("N")
  {
    assert 'N' in "N" && !IsWhitespace('N');
  }

  lemma WitnessFounded()
    ensures Admissible(EMPTY_BOOKS, WITNESS_FOUNDING, 1)
    ensures var b := Apply(EMPTY_BOOKS, WITNESS_FOUNDING);
            && b.sequence == 1 && b.lastTimestamp == 1 && |b.members| == 1
            && b.members[0].id == 1 && b.members[0].ActiveNana() && b.members[0].lastRequest == 1
            && b.issuance == 0 && b.members[0].balance == 0
  {
    WitnessNameIsValid();
    var nana := NewMember(EMPTY_BOOKS, WITNESS_FOUNDING, "N", "N", Nana, Some(WITNESS_VERIFIER), Zero);
    assert NextAccounts(EMPTY_BOOKS, WITNESS_FOUNDING) == [nana];
  }

  lemma WitnessConfigured(b: Books)
    requires b.sequence == 1 && b.lastTimestamp == 1 && |b.members| == 1
    requires b.members[0].id == 1 && b.members[0].ActiveNana() && b.members[0].lastRequest == 1
    ensures Admissible(b, WITNESS_CONFIGURE, 0)
  {
    WitnessNameIsValid();
    assert MemberAt(b.members, 1) == Some(0);
  }

  lemma SingleStep(step: Step)
    requires Admissible(EMPTY_BOOKS, step.event, step.clock)
    ensures ValidRun([step]) && After([step]) == Apply(EMPTY_BOOKS, step.event)
  {
    hide Admissible, Apply;
    assert [step][..0] == [];
    assert ValidRun([]) && After([]) == EMPTY_BOOKS;
  }

  /** The exception is real: founding a household, then setting a maximal window after the clock stepped
      back, is a valid run whose journal does not replay. */
  lemma LateWindowHappens() returns (steps: seq<Step>)
    ensures ValidRun(steps) && |steps| == 2 && ReplayAll(Events(steps)).Failure?
  {
    hide Apply, Admissible, Replay;
    WitnessFounded();
    var b := Apply(EMPTY_BOOKS, WITNESS_FOUNDING);
    WitnessConfigured(b);
    var first := [Step(WITNESS_FOUNDING, 1)];
    SingleStep(first[0]);
    steps := first + [Step(WITNESS_CONFIGURE, 0)];
    assert steps[..1] == first;
    RunsReplay(steps);
    assert Events(steps)[1] == WITNESS_CONFIGURE;
  }

  const WITNESS_ISSUE := Event(2, Some(OfText("k")), 1, 2, 1, 2, Issue(1, 5, "pocket money"))

  lemma WitnessIssued(b: Books)
    requires b.sequence == 1 && b.lastTimestamp == 1 && |b.members| == 1 && b.issuance == 0
    requires b.members[0].id == 1 && b.members[0].ActiveNana() && b.members[0].lastRequest == 1
             && b.members[0].balance == 0
    ensures Admissible(b, WITNESS_ISSUE, 2)
  {
    assert MemberAt(b.members, 1) == Some(0);
  }

  /** Money does move: founding a household and issuing 5 coins is a valid run with one row. */
  lemma MoneyMoves() returns (steps: seq<Step>)
    ensures ValidRun(steps) && |steps| == 2 && |Lifetime(steps)| == 1
    ensures Lifetime(steps)[0].from == ISSUER && Lifetime(steps)[0].to == 1 && Lifetime(steps)[0].amount == 5
  {
    hide Apply, Admissible;
    WitnessFounded();
    var b := Apply(EMPTY_BOOKS, WITNESS_FOUNDING);
    WitnessIssued(b);
    var first := [Step(WITNESS_FOUNDING, 1)];
    SingleStep(first[0]);
    steps := first + [Step(WITNESS_ISSUE, 2)];
    assert steps[..1] == first && first[..0] == [];
    assert Lifetime(first) == Lifetime([]) + Posted(After([]), WITNESS_FOUNDING);
  }
}
