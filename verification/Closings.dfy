/** What is closed stays closed: a cancelled listing is never bought, a declined or withdrawn offer never accepted, a
    cancelled quote never taken. */
module Closings {
  import opened Wrappers
  import opened Types
  import opened Postings
  import opened Offers
  import opened Forex
  import opened Domain
  import opened Accounts
  import opened Reversals
  import opened Sales
  import opened QuoteBook
  import opened Runs
  import opened Effects
  import opened Rulebook

  /** While it is on the books at all, the listing is cancelled; no new listing can take its id. */
  ghost predicate ListingShut(b: Books, id: nat) {
    id <= b.sequence
    && forall k :: 0 <= k < |b.listings| && b.listings[k].id == id ==> b.listings[k].status == ListingStatus.Cancelled
  }

  ghost predicate OfferShut(b: Books, id: nat) {
    id <= b.sequence
    && forall i :: 0 <= i < |b.offers| && b.offers[i].id == id ==>
         b.offers[i].phase.Declined? || b.offers[i].phase.Withdrawn?
  }

  ghost predicate QuoteShut(b: Books, id: nat) {
    id <= b.sequence
    && forall i :: 0 <= i < |b.quotes| && b.quotes[i].id == id ==> b.quotes[i].status == QuoteStatus.Cancelled
  }

  lemma Ruled(b: Books, life: seq<Transaction>, e: Event, clock: nat)
    requires HouseInv(b, life) && Admissible(b, e, clock)
    ensures May(b, e.actor, e.command, NowFrom(clock, b.lastTimestamp))
  {
    hide HouseInv, May, ValidateAt;
    ValidationFollowsRules(b, life, e.actor, e.command, NowFrom(clock, b.lastTimestamp));
  }

  /** Ids on the books are no larger than the last sequence; the next event's is larger. */
  lemma IdsAreOld(b: Books, life: seq<Transaction>, e: Event, clock: nat)
    requires HouseInv(b, life) && Admissible(b, e, clock)
    ensures b.sequence < e.sequence && Apply(b, e).sequence == e.sequence
    ensures forall k :: 0 <= k < |b.listings| ==> b.listings[k].id <= b.sequence
    ensures forall i :: 0 <= i < |b.offers| ==> b.offers[i].id <= b.sequence
    ensures forall i :: 0 <= i < |b.quotes| ==> b.quotes[i].id <= b.sequence
  {
    hide ValidateAt, AccountsInv, LedgerInv, Posted, NextAccounts, NextOffers, NextListings, NextQuotes;
    SequenceGrows(b.sequence, e.sequence);
    forall k | 0 <= k < |b.listings| ensures b.listings[k].id <= b.sequence {
      assert ListingKept(life, b.listings[k], b.sequence, |b.members|);
    }
    forall i | 0 <= i < |b.offers| ensures b.offers[i].id <= b.sequence {
      assert OfferKept(b.listings, b.offers[i], b.sequence, b.lastTimestamp, |b.members|);
    }
    forall i | 0 <= i < |b.quotes| ensures b.quotes[i].id <= b.sequence {
      assert QuoteKept(life, b.quotes[i], b.sequence, |b.members|);
    }
  }

  lemma SequenceGrows(sequence: nat, next: nat)
    requires NextSequence(sequence) == Some(next)
    ensures sequence < next
  {
  }

  // ---- Listings ----

  lemma CancelShuts(b: Books, life: seq<Transaction>, e: Event, clock: nat)
    requires HouseInv(b, life) && Admissible(b, e, clock) && e.command.Cancel?
    ensures ListingShut(Apply(b, e), e.command.listing)
  {
    hide HouseInv, Admissible, Apply, ListingAt;
    IdsAreOld(b, life, e, clock);
    Ruled(b, life, e, clock);
    ListingCount(b, life, e, clock);
    forall k | 0 <= k < |b.listings| ensures
        var l' := Apply(b, e).listings[k]; l'.id == e.command.listing ==> l'.status == ListingStatus.Cancelled {
      ListingAfter(b, life, e, clock, k);
    }
  }

  lemma ListingCount(b: Books, life: seq<Transaction>, e: Event, clock: nat)
    requires HouseInv(b, life) && Admissible(b, e, clock) && !e.command.List?
    ensures |Apply(b, e).listings| == |b.listings|
  {
    hide HouseInv, Admissible, Apply;
    ListingsAre(b, e);
  }

  lemma ListingStaysShut(b: Books, life: seq<Transaction>, e: Event, clock: nat, id: nat)
    requires HouseInv(b, life) && Admissible(b, e, clock) && ListingShut(b, id)
    ensures ListingShut(Apply(b, e), id)
  {
    hide HouseInv, Admissible, Apply, May;
    IdsAreOld(b, life, e, clock);
    if e.command.List? {
      ListedAreOld(b, life, e, clock);
    } else {
      ListingCount(b, life, e, clock);
      forall k | 0 <= k < |b.listings|
        ensures var l' := Apply(b, e).listings[k]; l'.id == id ==> l'.status == ListingStatus.Cancelled {
        ShutRowStays(b, life, e, clock, id, k);
      }
    }
  }

  lemma ListedAreOld(b: Books, life: seq<Transaction>, e: Event, clock: nat)
    requires HouseInv(b, life) && Admissible(b, e, clock) && e.command.List?
    ensures forall l :: l in Apply(b, e).listings ==> l in b.listings || l.id == e.sequence
  {
    hide HouseInv, Admissible, Apply;
    ListingsAre(b, e);
  }

  lemma ShutRowStays(b: Books, life: seq<Transaction>, e: Event, clock: nat, id: nat, k: nat)
    requires HouseInv(b, life) && Admissible(b, e, clock) && ListingShut(b, id) && !e.command.List? && k < |b.listings|
    ensures |Apply(b, e).listings| == |b.listings|
    ensures var l' := Apply(b, e).listings[k]; l'.id == id ==> l'.status == ListingStatus.Cancelled
  {
    hide HouseInv, Admissible, Apply;
    ListingAfter(b, life, e, clock, k);
    if e.command.AcceptOffer? || e.command.UnacceptOffer? {
      var i :| 0 <= i < |b.offers| && b.offers[i].id == e.command.offer;
    }
    if b.listings[k].id == id {
      ShutIsRefused(b, life, e, clock, k);
    }
  }

  /** No purchase, offer, acceptance or undo concerns a cancelled listing. */
  lemma ShutIsRefused(b: Books, life: seq<Transaction>, e: Event, clock: nat, k: nat)
    requires HouseInv(b, life) && Admissible(b, e, clock)
    requires k < |b.listings| && b.listings[k].status == ListingStatus.Cancelled
    ensures var (c, id) := (e.command, b.listings[k].id);
            && c != Purchase(id)
            && !(c.MakeOffer? && c.listing == id)
            && (c.AcceptOffer? || c.UnacceptOffer? ==>
                  exists i :: 0 <= i < |b.offers| && b.offers[i].id == c.offer && b.offers[i].listing != id)
  {
    hide HouseInv, Admissible, MayTrade, MayDeal, MayManage, MayExchange, ListingAt, OfferAt;
    Ruled(b, life, e, clock);
    Lookups(b, life);
    var now := NowFrom(clock, b.lastTimestamp);
    match e.command {
      case Purchase(_) => NotBought(b, e.actor, e.command, now, k);
      case MakeOffer(_, _, _) => NotOffered(b, e.actor, e.command, now, k);
      case AcceptOffer(_) => NotAccepted(b, e.actor, e.command, now, k);
      case UnacceptOffer(_, _) => NotUndone(b, life, e.actor, e.command, now, k);
      case _ =>
    }
  }

  lemma NotBought(b: Books, actor: MemberId, c: Command, now: nat, k: nat)
    requires c.Purchase? && MayTrade(b, actor, c, now) && k < |b.listings|
    requires b.listings[k].status == ListingStatus.Cancelled
    requires forall j :: 0 <= j < |b.listings| ==> ListingAt(b.listings, b.listings[j].id) == Some(j)
    ensures c.listing != b.listings[k].id
  {
    hide ListingAt, Payable, Enabled;
  }

  lemma NotOffered(b: Books, actor: MemberId, c: Command, now: nat, k: nat)
    requires c.MakeOffer? && MayDeal(b, actor, c, now) && k < |b.listings|
    requires b.listings[k].status == ListingStatus.Cancelled
    requires forall j :: 0 <= j < |b.listings| ==> ListingAt(b.listings, b.listings[j].id) == Some(j)
    ensures c.listing != b.listings[k].id
  {
    hide ListingAt, Payable, Enabled;
  }

  lemma NotAccepted(b: Books, actor: MemberId, c: Command, now: nat, k: nat)
    requires c.AcceptOffer? && MayDeal(b, actor, c, now) && k < |b.listings|
    requires b.listings[k].status == ListingStatus.Cancelled
    requires forall j :: 0 <= j < |b.listings| ==> ListingAt(b.listings, b.listings[j].id) == Some(j)
    ensures exists i :: 0 <= i < |b.offers| && b.offers[i].id == c.offer && b.offers[i].listing != b.listings[k].id
  {
    hide ListingAt, Payable, Enabled;
  }

  lemma NotUndone(b: Books, life: seq<Transaction>, actor: MemberId, c: Command, now: nat, k: nat)
    requires HouseInv(b, life) && c.UnacceptOffer? && MayDeal(b, actor, c, now) && k < |b.listings|
    requires b.listings[k].status == ListingStatus.Cancelled
    ensures exists i :: 0 <= i < |b.offers| && b.offers[i].id == c.offer && b.offers[i].listing != b.listings[k].id
  {
    hide AccountsInv, LedgerInv, QuotesInv, Correctable, Enabled, Governs;
    var i :| 0 <= i < |b.offers| && b.offers[i].id == c.offer && b.offers[i].phase.Accepted?;
    assert OfferKept(b.listings, b.offers[i], b.sequence, b.lastTimestamp, |b.members|);
    assert ListingKept(life, b.listings[k], b.sequence, |b.members|);
  }

  /** Once a listing is cancelled it is never bought, offered on, sold or reopened, for the rest of the run. */
  lemma {:induction false} CancelledListingsStayShut(steps: seq<Step>, n: nat)
    requires ValidRun(steps) && n < |steps| && steps[n].event.command.Cancel?
    ensures ListingShut(After(steps), steps[n].event.command.listing)
  {
    hide Apply, Admissible, HouseInv, ListingShut;
    var front, last := steps[..|steps| - 1], steps[|steps| - 1];
    RunsKeepHouse(front);
    if n == |front| {
      CancelShuts(After(front), Lifetime(front), last.event, last.clock);
    } else {
      assert front[n] == steps[n];
      CancelledListingsStayShut(front, n);
      ListingStaysShut(After(front), Lifetime(front), last.event, last.clock, steps[n].event.command.listing);
    }
  }

  // ---- Offers ----

  lemma OfferIsShut(b: Books, life: seq<Transaction>, e: Event, clock: nat)
    requires HouseInv(b, life) && Admissible(b, e, clock) && (e.command.DeclineOffer? || e.command.WithdrawOffer?)
    ensures OfferShut(Apply(b, e), e.command.offer)
  {
    hide HouseInv, Admissible, Apply, OfferAt;
    IdsAreOld(b, life, e, clock);
    OfferIsThere(b, life, e, clock);
    OfferCount(b, life, e, clock);
    forall i | 0 <= i < |b.offers|
      ensures var o' := Apply(b, e).offers[i]; o'.id == e.command.offer ==> o'.phase.Declined? || o'.phase.Withdrawn? {
      OfferAfter(b, life, e, clock, i);
    }
  }

  lemma OfferIsThere(b: Books, life: seq<Transaction>, e: Event, clock: nat)
    requires HouseInv(b, life) && Admissible(b, e, clock)
    requires var c := e.command; c.DeclineOffer? || c.WithdrawOffer? || c.AcceptOffer? || c.UnacceptOffer?
    ensures exists i :: 0 <= i < |b.offers| && b.offers[i].id == e.command.offer
                        && !b.offers[i].phase.Declined? && !b.offers[i].phase.Withdrawn?
  {
    hide HouseInv, Admissible, Payable, Correctable, Enabled, Governs;
    Ruled(b, life, e, clock);
  }

  lemma OfferCount(b: Books, life: seq<Transaction>, e: Event, clock: nat)
    requires HouseInv(b, life) && Admissible(b, e, clock) && !e.command.MakeOffer?
    ensures |Apply(b, e).offers| == |b.offers|
  {
    hide HouseInv, Admissible, Apply;
    ListingsAre(b, e);
  }

  lemma MadeAreOld(b: Books, life: seq<Transaction>, e: Event, clock: nat)
    requires HouseInv(b, life) && Admissible(b, e, clock) && e.command.MakeOffer?
    ensures forall o :: o in Apply(b, e).offers ==> o in b.offers || o.id == e.sequence
  {
    hide HouseInv, Admissible, Apply, ListingAt;
    ListingsAre(b, e);
  }

  lemma OfferStaysShut(b: Books, life: seq<Transaction>, e: Event, clock: nat, id: nat)
    requires HouseInv(b, life) && Admissible(b, e, clock) && OfferShut(b, id)
    ensures OfferShut(Apply(b, e), id)
  {
    hide HouseInv, Admissible, Apply;
    IdsAreOld(b, life, e, clock);
    if e.command.MakeOffer? {
      MadeAreOld(b, life, e, clock);
    } else {
      OfferCount(b, life, e, clock);
      forall i | 0 <= i < |b.offers|
        ensures var o' := Apply(b, e).offers[i]; o'.id == id ==> o'.phase.Declined? || o'.phase.Withdrawn? {
        ShutOfferStays(b, life, e, clock, id, i);
      }
    }
  }

  lemma ShutOfferStays(b: Books, life: seq<Transaction>, e: Event, clock: nat, id: nat, i: nat)
    requires HouseInv(b, life) && Admissible(b, e, clock) && OfferShut(b, id) && !e.command.MakeOffer? && i < |b.offers|
    ensures |Apply(b, e).offers| == |b.offers|
    ensures var o' := Apply(b, e).offers[i]; o'.id == id ==> o'.phase.Declined? || o'.phase.Withdrawn?
  {
    hide HouseInv, Admissible, Apply;
    OfferAfter(b, life, e, clock, i);
    if e.command.AcceptOffer? && e.command.offer == b.offers[i].id {
      var k :| 0 <= k < |b.listings| && b.listings[k].id == b.offers[i].listing;
    }
    if e.command.AcceptOffer? || e.command.UnacceptOffer? || e.command.DeclineOffer? || e.command.WithdrawOffer? {
      OfferIsThere(b, life, e, clock);
    }
  }

  /** Once an offer is declined or withdrawn it is never accepted, nor anything else, for the rest of the run. */
  lemma {:induction false} ClosedOffersStayShut(steps: seq<Step>, n: nat)
    requires ValidRun(steps) && n < |steps|
    requires steps[n].event.command.DeclineOffer? || steps[n].event.command.WithdrawOffer?
    ensures OfferShut(After(steps), steps[n].event.command.offer)
  {
    hide Apply, Admissible, HouseInv, OfferShut;
    var front, last := steps[..|steps| - 1], steps[|steps| - 1];
    RunsKeepHouse(front);
    if n == |front| {
      OfferIsShut(After(front), Lifetime(front), last.event, last.clock);
    } else {
      assert front[n] == steps[n];
      ClosedOffersStayShut(front, n);
      OfferStaysShut(After(front), Lifetime(front), last.event, last.clock, steps[n].event.command.offer);
    }
  }

  // ---- Quotes ----

  lemma QuoteIsShut(b: Books, life: seq<Transaction>, e: Event, clock: nat)
    requires HouseInv(b, life) && Admissible(b, e, clock) && e.command.CancelQuote?
    ensures QuoteShut(Apply(b, e), e.command.quote)
  {
    hide HouseInv, Admissible, Apply, QuoteAt;
    IdsAreOld(b, life, e, clock);
    QuoteIsThere(b, life, e, clock);
    QuoteCount(b, life, e, clock);
    forall i | 0 <= i < |b.quotes|
      ensures var q' := Apply(b, e).quotes[i]; q'.id == e.command.quote ==> q'.status == QuoteStatus.Cancelled {
      QuoteAfter(b, life, e, clock, i);
    }
  }

  lemma QuoteIsThere(b: Books, life: seq<Transaction>, e: Event, clock: nat)
    requires HouseInv(b, life) && Admissible(b, e, clock) && (e.command.CancelQuote? || e.command.TakeQuote?)
    ensures exists i :: 0 <= i < |b.quotes| && b.quotes[i].id == e.command.quote
                        && b.quotes[i].status == QuoteStatus.Open
  {
    hide HouseInv, Admissible, Payable, Enabled, Governs;
    Ruled(b, life, e, clock);
  }

  lemma QuoteCount(b: Books, life: seq<Transaction>, e: Event, clock: nat)
    requires HouseInv(b, life) && Admissible(b, e, clock) && !e.command.PostQuote?
    ensures |Apply(b, e).quotes| == |b.quotes|
  {
    hide HouseInv, Admissible, Apply;
    ListingsAre(b, e);
  }

  lemma PostedAreOld(b: Books, life: seq<Transaction>, e: Event, clock: nat)
    requires HouseInv(b, life) && Admissible(b, e, clock) && e.command.PostQuote?
    ensures forall q :: q in Apply(b, e).quotes ==> q in b.quotes || q.id == e.sequence
  {
    hide HouseInv, Admissible, Apply;
    ListingsAre(b, e);
  }

  lemma QuoteStaysShut(b: Books, life: seq<Transaction>, e: Event, clock: nat, id: nat)
    requires HouseInv(b, life) && Admissible(b, e, clock) && QuoteShut(b, id)
    ensures QuoteShut(Apply(b, e), id)
  {
    hide HouseInv, Admissible, Apply;
    IdsAreOld(b, life, e, clock);
    if e.command.PostQuote? {
      PostedAreOld(b, life, e, clock);
    } else {
      QuoteCount(b, life, e, clock);
      forall i | 0 <= i < |b.quotes|
        ensures var q' := Apply(b, e).quotes[i]; q'.id == id ==> q'.status == QuoteStatus.Cancelled {
        QuoteAfter(b, life, e, clock, i);
        if e.command.TakeQuote? {
          QuoteIsThere(b, life, e, clock);
        }
      }
    }
  }

  /** Once a quote is cancelled it is never taken, for the rest of the run. */
  lemma {:induction false} CancelledQuotesStayShut(steps: seq<Step>, n: nat)
    requires ValidRun(steps) && n < |steps| && steps[n].event.command.CancelQuote?
    ensures QuoteShut(After(steps), steps[n].event.command.quote)
  {
    hide Apply, Admissible, HouseInv, QuoteShut;
    var front, last := steps[..|steps| - 1], steps[|steps| - 1];
    RunsKeepHouse(front);
    if n == |front| {
      QuoteIsShut(After(front), Lifetime(front), last.event, last.clock);
    } else {
      assert front[n] == steps[n];
      CancelledQuotesStayShut(front, n);
      QuoteStaysShut(After(front), Lifetime(front), last.event, last.clock, steps[n].event.command.quote);
    }
  }

  /** No later event of a run deals in what an earlier one closed. */
  lemma ClosedForGood(steps: seq<Step>, n: nat, m: nat)
    requires ValidRun(steps) && n < m < |steps|
    ensures var (c, later) := (steps[n].event.command, steps[m].event.command);
            && (c.Cancel? ==>
                  && later != Purchase(c.listing) && !(later.MakeOffer? && later.listing == c.listing)
                  && (later.AcceptOffer? ==>
                        var offers := After(steps[..m]).offers;
                        forall i :: 0 <= i < |offers| && offers[i].id == later.offer ==>
                          offers[i].listing != c.listing))
            && (c.DeclineOffer? || c.WithdrawOffer? ==>
                  !((later.AcceptOffer? || later.UnacceptOffer? || later.DeclineOffer? || later.WithdrawOffer?)
                    && later.offer == c.offer))
            && (c.CancelQuote? ==> later != TakeQuote(c.quote))
  {
    hide Admissible, HouseInv, Apply;
    PrefixIsValid(steps, m);
    PrefixIsValid(steps, m + 1);
    var before := steps[..m];
    assert steps[..m + 1][..m] == before && steps[..m + 1][m] == steps[m] && before[n] == steps[n];
    RunsKeepHouse(before);
    var c := steps[n].event.command;
    if c.Cancel? {
      CancelledListingsStayShut(before, n);
      LaterSparesListing(After(before), Lifetime(before), steps[m].event, steps[m].clock, c.listing);
    }
    if c.DeclineOffer? || c.WithdrawOffer? {
      ClosedOffersStayShut(before, n);
      LaterSparesOffer(After(before), Lifetime(before), steps[m].event, steps[m].clock, c.offer);
    }
    if c.CancelQuote? {
      CancelledQuotesStayShut(before, n);
      LaterSparesQuote(After(before), Lifetime(before), steps[m].event, steps[m].clock, c.quote);
    }
  }

  lemma LaterSparesListing(b: Books, life: seq<Transaction>, e: Event, clock: nat, id: nat)
    requires HouseInv(b, life) && Admissible(b, e, clock) && ListingShut(b, id)
    ensures e.command != Purchase(id) && !(e.command.MakeOffer? && e.command.listing == id)
    ensures e.command.AcceptOffer? ==>
              forall i :: 0 <= i < |b.offers| && b.offers[i].id == e.command.offer ==> b.offers[i].listing != id
  {
    hide HouseInv, Admissible, OfferAt;
    Ruled(b, life, e, clock);
    Lookups(b, life);
    Spares(b, e.actor, e.command, NowFrom(clock, b.lastTimestamp), id);
  }

  lemma Spares(b: Books, actor: MemberId, c: Command, now: nat, id: nat)
    requires May(b, actor, c, now) && ListingShut(b, id)
    requires forall i :: 0 <= i < |b.offers| ==> OfferAt(b.offers, b.offers[i].id) == Some(i)
    ensures c != Purchase(id) && !(c.MakeOffer? && c.listing == id)
    ensures c.AcceptOffer? ==>
              forall i :: 0 <= i < |b.offers| && b.offers[i].id == c.offer ==> b.offers[i].listing != id
  {
    hide OfferAt, Payable, Enabled;
  }

  lemma LaterSparesOffer(b: Books, life: seq<Transaction>, e: Event, clock: nat, id: nat)
    requires HouseInv(b, life) && Admissible(b, e, clock) && OfferShut(b, id)
    ensures var c := e.command;
            !((c.AcceptOffer? || c.UnacceptOffer? || c.DeclineOffer? || c.WithdrawOffer?) && c.offer == id)
  {
    hide HouseInv, Admissible;
    var c := e.command;
    if c.AcceptOffer? || c.UnacceptOffer? || c.DeclineOffer? || c.WithdrawOffer? {
      OfferIsThere(b, life, e, clock);
    }
  }

  lemma LaterSparesQuote(b: Books, life: seq<Transaction>, e: Event, clock: nat, id: nat)
    requires HouseInv(b, life) && Admissible(b, e, clock) && QuoteShut(b, id)
    ensures e.command != TakeQuote(id)
  {
    hide HouseInv, Admissible;
    if e.command.TakeQuote? {
      QuoteIsThere(b, life, e, clock);
    }
  }
}
