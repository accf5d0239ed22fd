/** Negotiated deals: an acceptance can be undone until it settles. */
module Offers {
  import opened Wrappers
  import opened Types
  import opened Postings

  /** A closed listing may be evicted unless an accepted offer inside its window pins it. */
  predicate ListingRecyclable(offers: seq<Offer>, l: Listing, now: nat) {
    && l.status != ListingStatus.Active
    && forall i :: 0 <= i < |offers| ==> !(offers[i].listing == l.id && offers[i].Pins(now))
  }

  /** (payer, payee) of a deal on a listing between its owner and another member. */
  function DealParties(side: Side, owner: MemberId, other: MemberId): (MemberId, MemberId) {
    match side
    case Sell => (other, owner)
    case Buy => (owner, other)
  }

  predicate IsOfferCommand(c: Command) {
    c.MakeOffer? || c.AcceptOffer? || c.UnacceptOffer? || c.DeclineOffer? || c.WithdrawOffer?
  }

  function ValidateOffer(b: Books, actor: MemberId, c: Command, now: nat): Result<(), Error>
    requires IsOfferCommand(c)
  {
    if !(MIN_CLOCK <= now <= MAX_SEQUENCE) then Failure(Unavailable)
    else
      match c
      case MakeOffer(listing, amount, message) =>
        :- Need(1 <= amount <= MAX_AMOUNT && !HasControl(message), InvalidInput);
        var l :- FindListing(b, listing);
        :- Need(l.status == ListingStatus.Active, ListingClosed);
        :- Need(actor != l.owner, SelfDeal);
        :- Need(|b.offers| < OFFERS || exists i :: 0 <= i < |b.offers| && b.offers[i].Recyclable(now), Capacity);
        Success(())
      case AcceptOffer(offer) =>
        var o :- FindOffer(b, offer);
        :- Need(actor == o.owner, Forbidden);
        :- Need(o.phase == OfferPhase.Open, OfferClosed);
        var l :- FindListing(b, o.listing);
        :- Need(l.status == ListingStatus.Active, ListingClosed);
        var offerer :- FindMember(b, o.offerer);
        :- Need(!offerer.disabled, Disabled);
        var owner :- FindMember(b, o.owner);
        :- Need(!owner.disabled, Disabled);
        var (payer, payee) := DealParties(l.side, o.owner, o.offerer);
        var _ :- ValidatePosting(b, payer, payee, o.amount, false);
        :- Need(now + b.settlesAfter <= MAX_SEQUENCE, Overflow);
        Success(())
      case UnacceptOffer(offer, reason) =>
        var o :- FindOffer(b, offer);
        var _ :- if actor != o.owner && actor != o.offerer then Admin(b, actor) else Success(());
        :- Need(o.phase.Accepted?, OfferClosed);
        var s := o.phase.settlement;
        :- Need(now < s.settlesAt, OfferSettled);
        :- Need(!HasControl(reason), InvalidInput);
        var l :- FindListing(b, o.listing);
        :- Need(l.status == Sold, Conflict);
        ValidatePosting(b, s.payee, s.payer, o.amount, true)
      case DeclineOffer(offer) =>
        var o :- FindOffer(b, offer);
        :- Need(o.phase == OfferPhase.Open, OfferClosed);
        if actor != o.owner then Admin(b, actor) else Success(())
      case WithdrawOffer(offer) =>
        var o :- FindOffer(b, offer);
        :- Need(o.phase == OfferPhase.Open, OfferClosed);
        if actor != o.offerer then Admin(b, actor) else Success(())
  }

  // ---- Table changes ----

  /** Offer `i` is the recyclable one with the least (updatedAt, id), the earliest in the table on a tie. */
  ghost predicate IsOldestRecyclable(offers: seq<Offer>, now: nat, i: nat) {
    && i < |offers| && offers[i].Recyclable(now)
    && forall j :: 0 <= j < |offers| && offers[j].Recyclable(now) ==>
         OfferBefore(offers[i], offers[j]) || (SameOfferAge(offers[i], offers[j]) && i <= j)
  }

  predicate OfferBefore(a: Offer, b: Offer) {
    a.updatedAt < b.updatedAt || (a.updatedAt == b.updatedAt && a.id < b.id)
  }

  predicate SameOfferAge(a: Offer, b: Offer) {
    a.updatedAt == b.updatedAt && a.id == b.id
  }

  function OldestRecyclable(offers: seq<Offer>, now: nat): (r: Option<nat>)
    ensures r.None? ==> forall i :: 0 <= i < |offers| ==> !offers[i].Recyclable(now)
    ensures r.Some? ==> IsOldestRecyclable(offers, now, r.value)
  {
    if offers == [] then None
    else
      var last := |offers| - 1;
      var rest := OldestRecyclable(offers[..last], now);
      assert forall i :: 0 <= i < last ==> offers[..last][i] == offers[i];
      if !offers[last].Recyclable(now) then rest
      else if rest.None? || OfferBefore(offers[last], offers[rest.value]) then Some(last)
      else rest
  }

  function Without<T>(s: seq<T>, i: nat): (r: seq<T>)
    requires i < |s|
    ensures |r| == |s| - 1
    ensures forall j :: 0 <= j < |r| ==> r[j] == if j < i then s[j] else s[j + 1]
  {
    s[..i] + s[i + 1..]
  }

  function EvictOffer(offers: seq<Offer>, now: nat): seq<Offer> {
    if |offers| < OFFERS then offers
    else
      match OldestRecyclable(offers, now)
      case None => offers
      case Some(i) => Without(offers, i)
  }

  /** `mark_offer_reversed`: every accepted offer paid by `transaction` becomes reversed. */
  function MarkOffersReversed(offers: seq<Offer>, transaction: nat, now: nat): (r: seq<Offer>)
    ensures |r| == |offers|
  {
    seq(|offers|, i requires 0 <= i < |offers| =>
      if offers[i].phase.Accepted? && offers[i].phase.settlement.transaction == transaction
      then offers[i].(phase := Reversed(offers[i].phase.settlement), updatedAt := now)
      else offers[i])
  }

  /** The offers after an event; only deals and a ledger correction touch them. */
  function NextOffers(b: Books, e: Event): seq<Offer> {
    match e.command
    case MakeOffer(listing, amount, message) =>
      (match ListingAt(b.listings, listing)
       case None => b.offers
       case Some(i) =>
         EvictOffer(b.offers, e.timestamp) +
         [Offer(e.sequence, listing, b.listings[i].owner, e.actor, amount, message,
                e.timestamp, e.timestamp, OfferPhase.Open)])
    case AcceptOffer(offer) =>
      (match OfferAt(b.offers, offer)
       case None => b.offers
       case Some(i) =>
         var o := b.offers[i];
         match ListingAt(b.listings, o.listing)
         case None => b.offers
         case Some(k) =>
           var (payer, payee) := DealParties(b.listings[k].side, o.owner, o.offerer);
           b.offers[i := o.(phase := Accepted(Settlement(e.sequence, payer, payee, e.timestamp + b.settlesAfter)),
                            updatedAt := e.timestamp)])
    case UnacceptOffer(offer, _) =>
      (match OfferAt(b.offers, offer)
       case None => b.offers
       case Some(i) =>
         if b.offers[i].Settled()
         then MarkOffersReversed(b.offers, b.offers[i].phase.settlement.transaction, e.timestamp)
         else b.offers)
    case DeclineOffer(offer) =>
      (match OfferAt(b.offers, offer)
       case None => b.offers
       case Some(i) => b.offers[i := b.offers[i].(phase := Declined, updatedAt := e.timestamp)])
    case WithdrawOffer(offer) =>
      (match OfferAt(b.offers, offer)
       case None => b.offers
       case Some(i) => b.offers[i := b.offers[i].(phase := Withdrawn, updatedAt := e.timestamp)])
    case Reverse(transaction, _) => MarkOffersReversed(b.offers, transaction, e.timestamp)
    case _ => b.offers
  }

  function FirstRecyclable(listings: seq<Listing>, offers: seq<Offer>, now: nat): (r: Option<nat>)
    ensures r.None? ==> forall i :: 0 <= i < |listings| ==> !ListingRecyclable(offers, listings[i], now)
    ensures r.Some? ==> r.value < |listings| && ListingRecyclable(offers, listings[r.value], now)
  {
    Position(listings, (l: Listing) => ListingRecyclable(offers, l, now))
  }

  /** The first closed, unpinned listing is evicted to make room in a full table. */
  function EvictListing(listings: seq<Listing>, offers: seq<Offer>, now: nat): seq<Listing> {
    if |listings| < LISTINGS then listings
    else
      match FirstRecyclable(listings, offers, now)
      case None => listings
      case Some(i) => Without(listings, i)
  }

  function Close(l: Listing, payer: MemberId, transaction: nat, now: nat): Listing {
    l.(status := Sold, buyer := Some(payer), soldTx := Some(transaction), updatedAt := now)
  }

  function Reopen(l: Listing, now: nat): Listing {
    l.(status := Active, buyer := None, soldTx := None, updatedAt := now)
  }

  function Amend<T>(current: T, change: Option<T>): T {
    match change
    case None => current
    case Some(v) => v
  }

  /** The listings after an event. */
  function NextListings(b: Books, e: Event): seq<Listing> {
    match e.command
    case List(title, description, price, side, details) =>
      EvictListing(b.listings, b.offers, e.timestamp) +
      [Listing(e.sequence, e.actor, title, description, price, side, Active, None, None,
               Amend(ListingDetails("", "", 0), details), e.timestamp, e.timestamp)]
    case Cancel(listing) =>
      (match ListingAt(b.listings, listing)
       case None => b.listings
       case Some(i) =>
         b.listings[i := b.listings[i].(status := ListingStatus.Cancelled, updatedAt := e.timestamp)])
    case UpdateListing(listing, title, description, price) =>
      (match ListingAt(b.listings, listing)
       case None => b.listings
       case Some(i) =>
         var l := b.listings[i];
         b.listings[i := l.(updatedAt := e.timestamp, title := Amend(l.title, title),
                            description := Amend(l.description, description), price := Amend(l.price, price))])
    case Purchase(listing) =>
      (match ListingAt(b.listings, listing)
       case None => b.listings
       case Some(i) =>
         var l := b.listings[i];
         b.listings[i := Close(l, DealParties(l.side, l.owner, e.actor).0, e.sequence, e.timestamp)])
    case AcceptOffer(offer) =>
      (match OfferAt(b.offers, offer)
       case None => b.listings
       case Some(i) =>
         var o := b.offers[i];
         match ListingAt(b.listings, o.listing)
         case None => b.listings
         case Some(k) =>
           var l := b.listings[k];
           b.listings[k := Close(l, DealParties(l.side, o.owner, o.offerer).0, e.sequence, e.timestamp)])
    case UnacceptOffer(offer, _) =>
      (match OfferAt(b.offers, offer)
       case None => b.listings
       case Some(i) =>
         match ListingAt(b.listings, b.offers[i].listing)
         case None => b.listings
         case Some(k) => b.listings[k := Reopen(b.listings[k], e.timestamp)])
    case _ => b.listings
  }
}
