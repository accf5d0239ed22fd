/** Who can move whose money: every debit traces back to its payer, to a correction, or to an enabled Nana. */
module Authority {
  import opened Wrappers
  import opened Types
  import opened Postings
  import opened Offers
  import opened Forex
  import opened Domain
  import opened Admission
  import opened Reversals
  import opened Sales
  import opened QuoteBook
  import opened Runs

  // ---- The household never locks itself out ----

  ghost predicate HasNana(members: seq<Member>) {
    exists i :: 0 <= i < |members| && members[i].ActiveNana()
  }

  lemma {:induction false} SecondNana(members: seq<Member>, i: nat)
    requires i < |members| && members[i].ActiveNana() && ActiveNanas(members) != 1
    ensures exists j :: 0 <= j < |members| && j != i && members[j].ActiveNana()
  {
    var last := |members| - 1;
    var front := members[..last];
    if i == last {
      SomeNana(front);
    } else if !members[last].ActiveNana() {
      SecondNana(front, i);
    }
  }

  lemma {:induction false} SomeNana(members: seq<Member>)
    requires ActiveNanas(members) > 0
    ensures HasNana(members)
  {
    var last := |members| - 1;
    if !members[last].ActiveNana() {
      SomeNana(members[..last]);
      var i :| 0 <= i < last && members[..last][i].ActiveNana();
      assert members[i].ActiveNana();
    }
  }

  /** Roles and disabling change only in the accounts step. */
  lemma SameStanding(b: Books, e: Event)
    requires HasNana(NextAccounts(b, e))
    ensures HasNana(Apply(b, e).members)
  {
    hide NextAccounts, Posted, NextOffers, NextQuotes, NextListings, NextHousehold, NextWindow, Corrected;
    var i :| 0 <= i < |NextAccounts(b, e)| && NextAccounts(b, e)[i].ActiveNana();
    assert Apply(b, e).members[i].ActiveNana();
  }

  lemma NanaStep(b: Books, e: Event, clock: nat)
    requires Numbered(b.members) && Admissible(b, e, clock) && (b.members != [] ==> HasNana(b.members))
    ensures NextAccounts(b, e) != [] ==> HasNana(NextAccounts(b, e))
  {
    hide ValidatePosting, ValidateCurrencyPosting, ValidateOffer, ValidateForex, ValidateTrade;
    var next := NextAccounts(b, e);
    if b.members == [] {
      assert next == [] || next[0].ActiveNana();
    } else {
      var i :| 0 <= i < |b.members| && b.members[i].ActiveNana();
      if next[i].ActiveNana() {
      } else {
        MemberIndex(b.members, e.command.member);
        SecondNana(b.members, i);
        var j :| 0 <= j < |b.members| && j != i && b.members[j].ActiveNana();
        assert next[j].ActiveNana();
      }
    }
  }

  /** In every household that has been founded, some Nana is enabled. */
  lemma {:induction false} AnEnabledNanaRemains(steps: seq<Step>)
    requires ValidRun(steps)
    ensures After(steps).members != [] ==> HasNana(After(steps).members)
  {
    if steps != [] {
      var front, last := steps[..|steps| - 1], steps[|steps| - 1];
      var b := After(front);
      AnEnabledNanaRemains(front);
      NumberedRun(front);
      hide Admissible, Apply, HasNana, NextAccounts;
      NanaStep(b, last.event, last.clock);
      SameSize(b, last.event);
      if NextAccounts(b, last.event) != [] {
        SameStanding(b, last.event);
      }
    }
  }

  lemma NumberedRun(steps: seq<Step>)
    requires ValidRun(steps)
    ensures Numbered(After(steps).members)
  {
    hide After;
    RunsKeepHouse(steps);
  }

  lemma SameSize(b: Books, e: Event)
    ensures |Apply(b, e).members| == |NextAccounts(b, e)|
  {
    hide NextAccounts, Posted, NextOffers, NextQuotes, NextListings, NextHousehold, NextWindow, Corrected;
  }

  // ---- Standing invitations have authors ----

  /** The event that listed `l` came from its owner. */
  predicate Lists(e: Event, l: Listing) {
    e.sequence == l.id && e.actor == l.owner && e.command.List? && e.command.side == l.side
  }

  predicate Makes(e: Event, o: Offer) {
    && e.sequence == o.id && e.actor == o.offerer
    && e.command == MakeOffer(o.listing, o.amount, o.message)
  }

  predicate Posts(e: Event, q: Quote) {
    && e.sequence == q.id && e.actor == q.maker
    && e.command == PostQuote(q.side, q.centsPerCoin, q.coins, q.expiresAt)
  }

  ghost predicate Listed(events: seq<Event>, l: Listing) {
    exists n :: 0 <= n < |events| && Lists(events[n], l)
  }

  ghost predicate Made(events: seq<Event>, o: Offer) {
    exists n :: 0 <= n < |events| && Makes(events[n], o)
  }

  ghost predicate Quoted(events: seq<Event>, q: Quote) {
    exists n :: 0 <= n < |events| && Posts(events[n], q)
  }

  ghost predicate AuthorsInv(b: Books, events: seq<Event>) {
    && (forall i :: 0 <= i < |b.listings| ==> Listed(events, b.listings[i]))
    && (forall i :: 0 <= i < |b.offers| ==> Made(events, b.offers[i]))
    && (forall i :: 0 <= i < |b.quotes| ==> Quoted(events, b.quotes[i]))
  }

  predicate SameListing(l: Listing, l': Listing) {
    l.id == l'.id && l.owner == l'.owner && l.side == l'.side
  }

  predicate SameOffer(o: Offer, o': Offer) {
    o.id == o'.id && o.offerer == o'.offerer && o.listing == o'.listing && o.amount == o'.amount
      && o.message == o'.message
  }

  predicate SameQuote(q: Quote, q': Quote) {
    && q.id == q'.id && q.maker == q'.maker && q.side == q'.side && q.centsPerCoin == q'.centsPerCoin
    && q.coins == q'.coins && q.expiresAt == q'.expiresAt
  }

  lemma ListingsStayPut(b: Books, e: Event, i: nat)
    requires !e.command.List? && i < |b.listings|
    ensures |NextListings(b, e)| == |b.listings| && SameListing(b.listings[i], NextListings(b, e)[i])
  {
  }

  lemma ListingsCarry(b: Books, e: Event, i: nat)
    requires i < |NextListings(b, e)|
    ensures Lists(e, NextListings(b, e)[i])
            || exists j :: 0 <= j < |b.listings| && SameListing(b.listings[j], NextListings(b, e)[i])
  {
    var l := NextListings(b, e)[i];
    if e.command.List? {
      hide EvictListing;
      var kept := EvictListing(b.listings, b.offers, e.timestamp);
      if i < |kept| {
        KeptIsOld(b.listings, b.offers, e.timestamp, i);
        var j :| 0 <= j < |b.listings| && b.listings[j] == l;
        assert SameListing(b.listings[j], l);
      }
    } else {
      SameCount(b, e);
      hide NextListings;
      ListingsStayPut(b, e, i);
    }
  }

  lemma SameCount(b: Books, e: Event)
    requires !e.command.List?
    ensures |NextListings(b, e)| == |b.listings|
  {
  }

  lemma KeptIsOld(listings: seq<Listing>, offers: seq<Offer>, now: nat, i: nat)
    requires i < |EvictListing(listings, offers, now)|
    ensures EvictListing(listings, offers, now)[i] in listings
  {
  }

  lemma OffersCarry(b: Books, e: Event, i: nat)
    requires i < |NextOffers(b, e)|
    requires e.command.MakeOffer? ==> ListingAt(b.listings, e.command.listing).Some?
    ensures Makes(e, NextOffers(b, e)[i])
            || exists j :: 0 <= j < |b.offers| && SameOffer(b.offers[j], NextOffers(b, e)[i])
  {
    var o := NextOffers(b, e)[i];
    if e.command.MakeOffer? {
      var kept := EvictOffer(b.offers, e.timestamp);
      if i < |kept| {
        assert o in b.offers;
        var j :| 0 <= j < |b.offers| && b.offers[j] == o;
        assert SameOffer(b.offers[j], o);
      }
    } else {
      assert SameOffer(b.offers[i], o);
    }
  }

  lemma QuotesCarry(b: Books, e: Event, i: nat)
    requires i < |NextQuotes(b, e)|
    ensures Posts(e, NextQuotes(b, e)[i])
            || exists j :: 0 <= j < |b.quotes| && SameQuote(b.quotes[j], NextQuotes(b, e)[i])
  {
    var q := NextQuotes(b, e)[i];
    if e.command.PostQuote? {
      var kept := EvictQuote(b.quotes, e.timestamp);
      if i < |kept| {
        assert q in b.quotes;
        var j :| 0 <= j < |b.quotes| && b.quotes[j] == q;
        assert SameQuote(b.quotes[j], q);
      }
    } else {
      assert SameQuote(b.quotes[i], q);
    }
  }

  lemma AuthorsStep(b: Books, events: seq<Event>, e: Event, clock: nat)
    requires AuthorsInv(b, events) && Numbered(b.members) && Admissible(b, e, clock)
    ensures AuthorsInv(Apply(b, e), events + [e])
  {
    ValidatedIsAdmitted(b, e, NowFrom(clock, b.lastTimestamp));
    hide NextListings, NextOffers, NextQuotes, Admissible, GoodPostings, NextAccounts, Posted;
    var after := events + [e];
    assert after[|events|] == e;
    forall i | 0 <= i < |NextListings(b, e)| ensures Listed(after, NextListings(b, e)[i]) {
      ListingsCarry(b, e, i);
      if !Lists(e, NextListings(b, e)[i]) {
        var j :| 0 <= j < |b.listings| && SameListing(b.listings[j], NextListings(b, e)[i]);
        assert Listed(events, b.listings[j]);
        var n :| 0 <= n < |events| && Lists(events[n], b.listings[j]);
        assert Lists(after[n], NextListings(b, e)[i]);
      }
    }
    forall i | 0 <= i < |NextOffers(b, e)| ensures Made(after, NextOffers(b, e)[i]) {
      OffersCarry(b, e, i);
      if !Makes(e, NextOffers(b, e)[i]) {
        var j :| 0 <= j < |b.offers| && SameOffer(b.offers[j], NextOffers(b, e)[i]);
        assert Made(events, b.offers[j]);
        var n :| 0 <= n < |events| && Makes(events[n], b.offers[j]);
        assert Makes(after[n], NextOffers(b, e)[i]);
      }
    }
    forall i | 0 <= i < |NextQuotes(b, e)| ensures Quoted(after, NextQuotes(b, e)[i]) {
      QuotesCarry(b, e, i);
      if !Posts(e, NextQuotes(b, e)[i]) {
        var j :| 0 <= j < |b.quotes| && SameQuote(b.quotes[j], NextQuotes(b, e)[i]);
        assert Quoted(events, b.quotes[j]);
        var n :| 0 <= n < |events| && Posts(events[n], b.quotes[j]);
        assert Posts(after[n], NextQuotes(b, e)[i]);
      }
    }
  }

  lemma NoRowsYet()
    ensures AuthorsInv(EMPTY_BOOKS, [])
  {
  }

  lemma OneMoreStep(front: seq<Step>, last: Step)
    ensures After(front + [last]) == Apply(After(front), last.event)
    ensures Events(front + [last]) == Events(front) + [last.event]
  {
    hide Apply;
    assert (front + [last])[..|front|] == front;
  }

  /** Every listing, offer and quote on the books was put there by the member it binds, on the terms it carries. */
  lemma {:induction false} RowsHaveAuthors(steps: seq<Step>)
    requires ValidRun(steps)
    ensures AuthorsInv(After(steps), Events(steps))
  {
    hide Admissible, Apply, AuthorsInv, After, Events;
    if steps == [] {
      NothingBefore();
      NoRowsYet();
    } else {
      var front, last := steps[..|steps| - 1], steps[|steps| - 1];
      RowsHaveAuthors(front);
      NumberedRun(front);
      AuthorsStep(After(front), Events(front), last.event, last.clock);
      assert steps == front + [last];
      OneMoreStep(front, last);
    }
  }

  lemma NothingBefore()
    ensures After([]) == EMPTY_BOOKS && Events([]) == []
  {
  }

  // ---- Prices have authors ----

  predicate Nana(b: Books, actor: MemberId) {
    1 <= actor <= |b.members| && b.members[actor - 1].ActiveNana()
  }

  /** An event, and whether an enabled Nana sent it. */
  datatype Deed = Deed(event: Event, nana: bool)

  function Deeds(steps: seq<Step>): seq<Deed> {
    if steps == [] then []
    else
      var front, e := steps[..|steps| - 1], steps[|steps| - 1].event;
      Deeds(front) + [Deed(e, Nana(After(front), e.actor))]
  }

  predicate Reprices(e: Event, listing: nat) {
    e.command.UpdateListing? && e.command.listing == listing && e.command.newPrice.Some?
  }

  /** The owner listed at this price, or the owner or an enabled Nana changed the price to it. */
  predicate SetsPrice(d: Deed, listing: nat, owner: MemberId, price: int) {
    || (d.event.sequence == listing && d.event.actor == owner && d.event.command.List?
        && d.event.command.price == price)
    || (Reprices(d.event, listing) && d.event.command.newPrice == Some(price) && (d.event.actor == owner || d.nana))
  }

  /** The last deed to set the listing's price set it to this, and was the owner's or an enabled Nana's. */
  ghost predicate PriceAgreed(deeds: seq<Deed>, listing: nat, owner: MemberId, price: int) {
    exists n :: 0 <= n < |deeds| && SetsPrice(deeds[n], listing, owner, price)
                && forall m :: n < m < |deeds| ==> !Reprices(deeds[m].event, listing)
  }

  ghost predicate PricesInv(b: Books, deeds: seq<Deed>) {
    forall i :: 0 <= i < |b.listings| ==>
      PriceAgreed(deeds, b.listings[i].id, b.listings[i].owner, b.listings[i].price)
  }

  lemma PriceCarries(deeds: seq<Deed>, d: Deed, listing: nat, owner: MemberId, price: int)
    requires PriceAgreed(deeds, listing, owner, price) && !Reprices(d.event, listing)
    ensures PriceAgreed(deeds + [d], listing, owner, price)
  {
    var n :| 0 <= n < |deeds| && SetsPrice(deeds[n], listing, owner, price)
             && forall m :: n < m < |deeds| ==> !Reprices(deeds[m].event, listing);
    assert (deeds + [d])[n] == deeds[n];
  }

  lemma PriceIsSet(deeds: seq<Deed>, d: Deed, listing: nat, owner: MemberId, price: int)
    requires SetsPrice(d, listing, owner, price)
    ensures PriceAgreed(deeds + [d], listing, owner, price)
  {
    assert (deeds + [d])[|deeds|] == d;
  }

  /** Where an event leaves a listing's price. */
  lemma PriceMoves(b: Books, e: Event, i: nat)
    requires Ascending(ListingIds(b.listings)) && !e.command.List? && i < |b.listings|
    ensures |NextListings(b, e)| == |b.listings|
    ensures var l, l' := b.listings[i], NextListings(b, e)[i];
            l'.id == l.id && l'.owner == l.owner
            && l'.price == if Reprices(e, l.id) then e.command.newPrice.value else l.price
  {
    if e.command.UpdateListing? && e.command.listing == b.listings[i].id {
      UniqueListing(b, i, ListingAt(b.listings, e.command.listing).value);
    }
  }

  lemma RepricerIsPermitted(b: Books, e: Event, clock: nat, i: nat)
    requires Numbered(b.members) && Ascending(ListingIds(b.listings)) && Admissible(b, e, clock)
    requires i < |b.listings| && Reprices(e, b.listings[i].id)
    ensures e.actor == b.listings[i].owner || Nana(b, e.actor)
  {
    hide ValidatePosting, ValidateCurrencyPosting, ValidateMembership, ValidateForex, ValidateOffer;
    UniqueListing(b, i, ListingAt(b.listings, e.command.listing).value);
    if Admin(b, e.actor).Success? {
      AdminIsNana(b, e.actor);
    }
  }

  lemma PricesStep(b: Books, life: seq<Transaction>, deeds: seq<Deed>, e: Event, clock: nat)
    requires HouseInv(b, life) && PricesInv(b, deeds) && Admissible(b, e, clock)
    ensures PricesInv(Apply(b, e), deeds + [Deed(e, Nana(b, e.actor))])
  {
    hide Admissible, NextListings, PriceAgreed, Nana, LedgerInv, QuotesInv;
    var d := Deed(e, Nana(b, e.actor));
    AppliedListings(b, e);
    hide Apply;
    forall i | 0 <= i < |NextListings(b, e)|
      ensures var l := NextListings(b, e)[i]; PriceAgreed(deeds + [d], l.id, l.owner, l.price)
    {
      ListingPriced(b, deeds, e, clock, i);
    }
  }

  lemma AppliedListings(b: Books, e: Event)
    ensures Apply(b, e).listings == NextListings(b, e)
  {
  }

  lemma ListingPriced(b: Books, deeds: seq<Deed>, e: Event, clock: nat, i: nat)
    requires Numbered(b.members) && Ascending(ListingIds(b.listings)) && PricesInv(b, deeds) && Admissible(b, e, clock)
    requires i < |NextListings(b, e)|
    ensures var l := NextListings(b, e)[i];
            PriceAgreed(deeds + [Deed(e, Nana(b, e.actor))], l.id, l.owner, l.price)
  {
    hide Admissible, PriceAgreed, Nana;
    var d, l := Deed(e, Nana(b, e.actor)), NextListings(b, e)[i];
    if e.command.List? {
      var kept := EvictListing(b.listings, b.offers, e.timestamp);
      if i < |kept| {
        KeptIsOld(b.listings, b.offers, e.timestamp, i);
        var j :| 0 <= j < |b.listings| && b.listings[j] == l;
        PriceCarries(deeds, d, l.id, l.owner, l.price);
      } else {
        PriceIsSet(deeds, d, l.id, l.owner, l.price);
      }
    } else {
      SameCount(b, e);
      hide NextListings;
      PriceMoves(b, e, i);
      if Reprices(e, l.id) {
        RepricerIsPermitted(b, e, clock, i);
        PriceIsSet(deeds, d, l.id, l.owner, l.price);
      } else {
        PriceCarries(deeds, d, l.id, l.owner, l.price);
      }
    }
  }

  /** Every listing's price was last set by its owner or by an enabled Nana. */
  lemma {:induction false} PricesHaveAuthors(steps: seq<Step>)
    requires ValidRun(steps)
    ensures PricesInv(After(steps), Deeds(steps))
  {
    hide Admissible, Apply, PriceAgreed, Nana;
    if steps != [] {
      var front, last := steps[..|steps| - 1], steps[|steps| - 1];
      PricesHaveAuthors(front);
      RunsKeepHouse(front);
      hide HouseInv, PricesInv;
      PricesStep(After(front), Lifetime(front), Deeds(front), last.event, last.clock);
    }
  }

  // ---- Debits ----

  /** An earlier event by which this payer invited this payment: an offer or a quote fixes its amount too. */
  predicate Invites(invitation: Event, e: Event, tx: Transaction) {
    && invitation.actor == tx.from
    && match e.command
       case Purchase(listing) =>
         invitation.sequence == listing && invitation.command.List? && invitation.command.side == Side.Buy
       case AcceptOffer(offer) =>
         invitation.sequence == offer && invitation.command.MakeOffer? && invitation.command.amount == tx.amount
       case TakeQuote(quote) =>
         && invitation.sequence == quote && invitation.command.PostQuote?
         && tx.usd == invitation.command.quoteSide.Bid?
         && tx.amount == invitation.command.coins * (if tx.usd then invitation.command.centsPerCoin else 1)
       case _ => false
  }

  ghost predicate Invited(events: seq<Event>, e: Event, tx: Transaction) {
    exists n :: 0 <= n < |events| && Invites(events[n], e, tx)
  }

  /** Why `tx` may debit its payer: an issue or a correction by an enabled Nana, an undo by a party to the deal,
      the payer's own act, or the payer's standing invitation. A buy-side listing pays the price last set for it,
      which is the payer's own or an enabled Nana's: a Nana can raise what its owner will pay. */
  ghost predicate Consented(events: seq<Event>, deeds: seq<Deed>, b: Books, e: Event, tx: Transaction) {
    if tx.from == ISSUER then Nana(b, e.actor)
    else
      || e.actor == tx.from
      || (Nana(b, e.actor) && (e.command.Retire? || e.command.Reverse?))
      || (e.command.UnacceptOffer? && (e.actor == tx.to || Nana(b, e.actor)))
      || (Invited(events, e, tx) && (e.command.Purchase? ==> PriceAgreed(deeds, e.command.listing, tx.from, tx.amount)))
  }

  lemma AdminIsNana(b: Books, actor: MemberId)
    requires Numbered(b.members) && b.members != [] && Admin(b, actor).Success?
    ensures Nana(b, actor)
  {
    AdminExists(b, actor);
  }

  lemma SomebodyActs(b: Books, e: Event, clock: nat)
    requires Numbered(b.members) && Admissible(b, e, clock) && Posted(b, e) != []
    ensures b.members != [] && ValidateAt(b, e.actor, e.command, NowFrom(clock, b.lastTimestamp)).Success?
  {
  }

  lemma PurchaseConsented(b: Books, events: seq<Event>, deeds: seq<Deed>, e: Event, now: nat)
    requires Numbered(b.members) && AuthorsInv(b, events) && PricesInv(b, deeds) && e.command.Purchase?
    requires ValidateTrade(b, e.actor, e.command, now).Success?
    ensures |Posted(b, e)| == 1 && (Posted(b, e)[0].from == e.actor || Invited(events, e, Posted(b, e)[0]))
    ensures Posted(b, e)[0].from != e.actor ==>
              PriceAgreed(deeds, e.command.listing, Posted(b, e)[0].from, Posted(b, e)[0].amount)
  {
    hide ValidatePosting, ValidateCurrencyPosting, PriceAgreed;
    var i := ListingAt(b.listings, e.command.listing).value;
    var l := b.listings[i];
    assert Listed(events, l);
    var n :| 0 <= n < |events| && Lists(events[n], l);
    if l.side.Buy? {
      assert Invites(events[n], e, Posted(b, e)[0]);
    }
  }

  lemma AcceptConsented(b: Books, events: seq<Event>, e: Event, now: nat)
    requires Numbered(b.members) && AuthorsInv(b, events) && e.command.AcceptOffer?
    requires ValidateOffer(b, e.actor, e.command, now).Success?
    ensures |Posted(b, e)| == 1 && (Posted(b, e)[0].from == e.actor || Invited(events, e, Posted(b, e)[0]))
  {
    AcceptPosts(b, e, now);
    hide ValidateOffer, Posted;
    var o := b.offers[OfferAt(b.offers, e.command.offer).value];
    assert Made(events, o);
    var n :| 0 <= n < |events| && Makes(events[n], o);
    if Posted(b, e)[0].from == o.offerer {
      assert Invites(events[n], e, Posted(b, e)[0]);
    }
  }

  lemma AcceptPosts(b: Books, e: Event, now: nat)
    requires e.command.AcceptOffer? && ValidateOffer(b, e.actor, e.command, now).Success?
    ensures |Posted(b, e)| == 1 && OfferAt(b.offers, e.command.offer).Some?
    ensures var o := b.offers[OfferAt(b.offers, e.command.offer).value];
            && o.id == e.command.offer && o.owner == e.actor && Posted(b, e)[0].amount == o.amount
            && (Posted(b, e)[0].from == o.owner || Posted(b, e)[0].from == o.offerer)
  {
    hide ValidatePosting, ValidateCurrencyPosting;
  }

  lemma UndoConsented(b: Books, life: seq<Transaction>, e: Event, now: nat)
    requires Numbered(b.members) && b.members != [] && SalesInv(b, life) && e.command.UnacceptOffer?
    requires ValidateOffer(b, e.actor, e.command, now).Success?
    ensures |Posted(b, e)| == 1 && Posted(b, e)[0].from != ISSUER
    ensures e.actor == Posted(b, e)[0].from || e.actor == Posted(b, e)[0].to || Nana(b, e.actor)
  {
    hide ValidatePosting, ValidateCurrencyPosting;
    var i := OfferAt(b.offers, e.command.offer).value;
    assert OfferKept(b.listings, b.offers[i], b.sequence, b.lastTimestamp, |b.members|);
    if e.actor != b.offers[i].owner && e.actor != b.offers[i].offerer {
      AdminIsNana(b, e.actor);
    }
  }

  lemma TakeConsented(b: Books, events: seq<Event>, e: Event, now: nat)
    requires Numbered(b.members) && AuthorsInv(b, events) && e.command.TakeQuote?
    requires ValidateForex(b, e.actor, e.command, now).Success?
    ensures |Posted(b, e)| == 2
    ensures forall k :: 0 <= k < 2 ==> Posted(b, e)[k].from == e.actor || Invited(events, e, Posted(b, e)[k])
  {
    hide ValidatePosting, ValidateCurrencyPosting;
    var q := b.quotes[QuoteAt(b.quotes, e.command.quote).value];
    assert Quoted(events, q);
    var n :| 0 <= n < |events| && Posts(events[n], q);
    forall k | 0 <= k < 2 && Posted(b, e)[k].from == q.maker ensures Invited(events, e, Posted(b, e)[k]) {
      assert Invites(events[n], e, Posted(b, e)[k]);
    }
  }

  lemma MoneyConsented(b: Books, e: Event, now: nat)
    requires Numbered(b.members) && b.members != []
    requires e.command.Issue? || e.command.Retire? || e.command.Transfer? || e.command.Reverse? || e.command.IssueUsd?
             || e.command.CreateMember?
    requires ValidateAt(b, e.actor, e.command, now).Success?
    ensures !e.command.Transfer? ==> Nana(b, e.actor)
    ensures e.command.Transfer? && Posted(b, e) != [] ==> Posted(b, e)[0].from == e.actor && 1 <= e.actor
    ensures !e.command.Retire? && !e.command.Reverse? && !e.command.Transfer? && Posted(b, e) != [] ==>
              Posted(b, e)[0].from == ISSUER
    ensures |Posted(b, e)| <= 1
  {
    hide ValidatePosting, ValidateCurrencyPosting;
    MemberIndex(b.members, e.actor);
    if !e.command.Transfer? {
      AdminIsNana(b, e.actor);
    }
  }

  lemma QuietPosts(b: Books, e: Event, now: nat)
    requires ValidateAt(b, e.actor, e.command, now).Success? && Posted(b, e) != []
    ensures var c := e.command;
            || c.Issue? || c.Retire? || c.Transfer? || c.Reverse? || c.IssueUsd? || c.CreateMember?
            || c.Purchase? || c.AcceptOffer? || c.UnacceptOffer? || c.TakeQuote?
  {
  }

  lemma BuyerIsMember(b: Books, life: seq<Transaction>, e: Event, now: nat)
    requires 1 <= e.actor && SalesInv(b, life) && e.command.Purchase?
    requires ValidateTrade(b, e.actor, e.command, now).Success?
    ensures |Posted(b, e)| == 1 && Posted(b, e)[0].from != ISSUER
  {
    hide ValidatePosting, ValidateCurrencyPosting;
    assert ListingKept(life, b.listings[ListingAt(b.listings, e.command.listing).value], b.sequence, |b.members|);
  }

  lemma DealerIsMember(b: Books, life: seq<Transaction>, e: Event, now: nat)
    requires SalesInv(b, life) && e.command.AcceptOffer?
    requires ValidateOffer(b, e.actor, e.command, now).Success?
    ensures |Posted(b, e)| == 1 && Posted(b, e)[0].from != ISSUER
  {
    AcceptPosts(b, e, now);
    hide ValidateOffer, Posted;
    assert OfferKept(b.listings, b.offers[OfferAt(b.offers, e.command.offer).value], b.sequence, b.lastTimestamp,
                     |b.members|);
  }

  lemma TraderIsMember(b: Books, life: seq<Transaction>, e: Event, now: nat)
    requires 1 <= e.actor && QuotesInv(b, life) && e.command.TakeQuote?
    requires ValidateForex(b, e.actor, e.command, now).Success?
    ensures |Posted(b, e)| == 2 && Posted(b, e)[0].from != ISSUER && Posted(b, e)[1].from != ISSUER
  {
    hide ValidatePosting, ValidateCurrencyPosting;
    assert QuoteKept(life, b.quotes[QuoteAt(b.quotes, e.command.quote).value], b.sequence, |b.members|);
  }

  lemma ActorIsMember(b: Books, e: Event, now: nat)
    requires Numbered(b.members) && b.members != [] && ValidateAt(b, e.actor, e.command, now).Success?
    ensures 1 <= e.actor <= |b.members|
  {
    hide ValidateTrade, ValidateOffer, ValidateForex, ValidateMembership;
    MemberIndex(b.members, e.actor);
  }

  lemma EventConsented(b: Books, life: seq<Transaction>, events: seq<Event>, deeds: seq<Deed>, e: Event, clock: nat,
                       k: nat)
    requires HouseInv(b, life) && AuthorsInv(b, events) && PricesInv(b, deeds)
    requires Admissible(b, e, clock) && k < |Posted(b, e)|
    ensures Consented(events, deeds, b, e, Posted(b, e)[k])
  {
    hide ValidateAt, ValidateTrade, ValidateOffer, ValidateForex, Posted, Admissible, AuthorsInv, SalesInv, QuotesInv,
      LedgerInv, Invited, Nana, PricesInv, PriceAgreed;
    var now := NowFrom(clock, b.lastTimestamp);
    SomebodyActs(b, e, clock);
    QuietPosts(b, e, now);
    ByGroup(b, e, now);
    ActorIsMember(b, e, now);
    match e.command {
      case Purchase(_) =>
        PurchaseConsented(b, events, deeds, e, now);
        BuyerIsMember(b, life, e, now);
      case AcceptOffer(_) =>
        AcceptConsented(b, events, e, now);
        DealerIsMember(b, life, e, now);
      case TakeQuote(_) =>
        TakeConsented(b, events, e, now);
        TraderIsMember(b, life, e, now);
      case UnacceptOffer(_, _) => UndoConsented(b, life, e, now);
      case _ => MoneyConsented(b, e, now);
    }
  }

  lemma ByGroup(b: Books, e: Event, now: nat)
    requires ValidateAt(b, e.actor, e.command, now).Success?
    ensures e.command.Purchase? ==> ValidateTrade(b, e.actor, e.command, now).Success?
    ensures IsOfferCommand(e.command) ==> ValidateOffer(b, e.actor, e.command, now).Success?
    ensures IsForexCommand(e.command) ==> ValidateForex(b, e.actor, e.command, now).Success?
  {
  }

  /** Row `k` of the ledger was written by step `n`, which its payer consented to. */
  ghost predicate WrittenWithConsent(steps: seq<Step>, tx: Transaction, n: nat) {
    && n < |steps|
    && tx in Posted(After(steps[..n]), steps[n].event)
    && Consented(Events(steps[..n]), Deeds(steps[..n]), After(steps[..n]), steps[n].event, tx)
  }

  /** No coin or cent leaves a member's account unaccountably: every row of the lifetime ledger is an issue or
      correction by an enabled Nana, an undo by a party, the payer's own act, or a payment the payer had invited by
      an earlier event — an offer or a quote on its own terms, a buy-side listing at the price its owner or an
      enabled Nana last set. */
  lemma {:induction false} DebitsAreConsented(steps: seq<Step>, k: nat) returns (n: nat)
    requires ValidRun(steps) && k < |Lifetime(steps)|
    ensures WrittenWithConsent(steps, Lifetime(steps)[k], n)
  {
    hide Posted, Apply, Admissible, Consented;
    var front, last := steps[..|steps| - 1], steps[|steps| - 1];
    if k < |Lifetime(front)| {
      n := DebitsAreConsented(front, k);
      assert steps[..n] == front[..n];
    } else {
      n := |steps| - 1;
      var row := k - |Lifetime(front)|;
      RunsKeepHouse(front);
      RowsHaveAuthors(front);
      PricesHaveAuthors(front);
      hide After, Events, Deeds, HouseInv, AuthorsInv, PricesInv;
      EventConsented(After(front), Lifetime(front), Events(front), Deeds(front), last.event, last.clock, row);
      assert Lifetime(steps)[k] == Posted(After(front), last.event)[row];
    }
  }

  // ---- Changes ----

  /** A member's name, login and password change only by that member's act or an enabled Nana's; roles and
      disabling, only by an enabled Nana's. */
  lemma AccountsAreOwned(b: Books, e: Event, clock: nat, i: nat)
    requires Numbered(b.members) && Admissible(b, e, clock) && i < |b.members|
    ensures |NextAccounts(b, e)| >= |b.members|
    ensures var m, m' := b.members[i], NextAccounts(b, e)[i];
            && m'.id == m.id && m'.balance == m.balance && m'.usdCents == m.usdCents
            && (m' != m ==> e.actor == m.id || Nana(b, e.actor))
            && (m'.role != m.role || m'.disabled != m.disabled ==> Nana(b, e.actor))
  {
    hide ValidateTrade, ValidateOffer, ValidateForex;
    if Admin(b, e.actor).Success? {
      AdminIsNana(b, e.actor);
    }
    if e.command.UpdateMember? || e.command.MigrateMember? {
      MemberIndex(b.members, e.command.member);
    }
  }

  /** A listing's terms change, and it is cancelled, only by its owner's act or an enabled Nana's. */
  lemma ListingsAreOwned(b: Books, e: Event, clock: nat, i: nat)
    requires Numbered(b.members) && Admissible(b, e, clock) && i < |b.listings| && !e.command.List?
    ensures |NextListings(b, e)| == |b.listings|
    ensures var l, l' := b.listings[i], NextListings(b, e)[i];
            l'.title != l.title || l'.description != l.description || l'.price != l.price || l'.details != l.details
            || (l'.status == ListingStatus.Cancelled && l.status != ListingStatus.Cancelled) ==>
              e.actor == l.owner || Nana(b, e.actor)
  {
    hide ValidatePosting, ValidateCurrencyPosting, ValidateMembership, ValidateForex;
    SameCount(b, e);
    if e.command.Cancel? || e.command.UpdateListing? {
      if Admin(b, e.actor).Success? {
        AdminIsNana(b, e.actor);
      }
    } else {
      TermsStay(b, e, i);
    }
  }

  lemma TermsStay(b: Books, e: Event, i: nat)
    requires !e.command.List? && !e.command.Cancel? && !e.command.UpdateListing? && i < |b.listings|
    ensures |NextListings(b, e)| == |b.listings|
    ensures var l, l' := b.listings[i], NextListings(b, e)[i];
            && l'.title == l.title && l'.description == l.description && l'.price == l.price && l'.details == l.details
            && (l'.status == l.status || l'.status != ListingStatus.Cancelled)
  {
  }

  /** An offer is accepted only by the listing's owner, declined only by the owner or an enabled Nana, withdrawn only
      by its maker or an enabled Nana. */
  lemma OffersAreOwned(b: Books, e: Event, clock: nat, i: nat)
    requires Numbered(b.members) && Admissible(b, e, clock) && i < |b.offers| && !e.command.MakeOffer?
    ensures |NextOffers(b, e)| == |b.offers|
    ensures var o, o' := b.offers[i], NextOffers(b, e)[i];
            && (o'.phase.Accepted? && o'.phase != o.phase ==> o.phase.Open? && e.actor == o.owner)
            && (o'.phase.Declined? && !o.phase.Declined? ==> o.phase.Open? && (e.actor == o.owner || Nana(b, e.actor)))
            && (o'.phase.Withdrawn? && !o.phase.Withdrawn? ==>
                  o.phase.Open? && (e.actor == o.offerer || Nana(b, e.actor)))
  {
    hide ValidatePosting, ValidateCurrencyPosting, ValidateMembership, ValidateForex, ValidateTrade;
    if b.members != [] && Admin(b, e.actor).Success? {
      AdminIsNana(b, e.actor);
    }
  }
}
