/** Listings, offers and payments agree: nothing is paid for twice, and a pinned sale can be undone. */
module Sales {
  import opened Wrappers
  import opened Types
  import opened Postings
  import opened Offers
  import opened Domain
  import opened Admission
  import opened Accounts
  import opened Reversals

  predicate Pays(tx: Transaction, listing: nat) {
    tx.reverses.None? && tx.listing == Some(listing)
  }

  /** Row `k` pays for `listing` and has not been reversed. */
  ghost predicate Standing(life: seq<Transaction>, k: nat, listing: nat)
    requires k < |life|
  {
    Pays(life[k], listing) && !Undone(life, life[k].id)
  }

  /** No listing ever carries two standing payments, whether or not it is still retained. */
  ghost predicate OneStanding(life: seq<Transaction>) {
    forall i, j, listing :: 0 <= i < j < |life| && Standing(life, i, listing) ==> !Standing(life, j, listing)
  }

  predicate Ascending(ids: seq<nat>) {
    forall i, j :: 0 <= i < j < |ids| ==> ids[i] < ids[j]
  }

  function ListingIds(listings: seq<Listing>): (r: seq<nat>)
    ensures |r| == |listings|
  {
    seq(|listings|, i requires 0 <= i < |listings| => listings[i].id)
  }

  function OfferIds(offers: seq<Offer>): (r: seq<nat>)
    ensures |r| == |offers|
  {
    seq(|offers|, i requires 0 <= i < |offers| => offers[i].id)
  }

  ghost predicate ListingKept(life: seq<Transaction>, l: Listing, sequence: nat, members: nat) {
    && l.id <= sequence
    && 1 <= l.owner <= members
    && 1 <= l.price <= MAX_AMOUNT
    && (l.status == Sold <==> l.soldTx.Some?)
    && (l.status == Sold <==> l.buyer.Some?)
    && forall k :: 0 <= k < |life| && Standing(life, k, l.id) ==> l.soldTx == Some(life[k].id)
  }

  ghost predicate Retained(listings: seq<Listing>, id: nat) {
    exists i :: 0 <= i < |listings| && listings[i].id == id
  }

  predicate BetweenParties(o: Offer, s: Settlement) {
    (s.payer == o.owner && s.payee == o.offerer) || (s.payer == o.offerer && s.payee == o.owner)
  }

  /** An accepted offer's listing, while retained, is sold to exactly that sale; until it settles, it is retained. */
  ghost predicate OfferKept(listings: seq<Listing>, o: Offer, sequence: nat, lastTimestamp: nat, members: nat) {
    && o.id <= sequence && o.listing <= sequence
    && o.owner != o.offerer
    && 1 <= o.owner <= members && 1 <= o.offerer <= members
    && 1 <= o.amount <= MAX_AMOUNT
    && (o.Settled() ==> BetweenParties(o, o.phase.settlement))
    && (o.phase.Accepted? ==>
          && o.phase.settlement.settlesAt <= MAX_SEQUENCE
          && (forall i :: 0 <= i < |listings| && listings[i].id == o.listing ==>
                listings[i].soldTx == Some(o.phase.settlement.transaction))
          && (o.Pins(lastTimestamp) ==> Retained(listings, o.listing)))
  }

  ghost predicate DistinctSettlements(offers: seq<Offer>) {
    forall i, j :: 0 <= i < j < |offers| && offers[i].Settled() && offers[j].Settled() ==>
      offers[i].phase.settlement.transaction != offers[j].phase.settlement.transaction
  }

  ghost predicate SalesInv(b: Books, life: seq<Transaction>) {
    && |b.listings| <= LISTINGS && |b.offers| <= OFFERS
    && Ascending(ListingIds(b.listings)) && Ascending(OfferIds(b.offers))
    && (forall i :: 0 <= i < |b.listings| ==> ListingKept(life, b.listings[i], b.sequence, |b.members|))
    && (forall i :: 0 <= i < |b.offers| ==>
          OfferKept(b.listings, b.offers[i], b.sequence, b.lastTimestamp, |b.members|))
    && DistinctSettlements(b.offers)
    && (forall k :: 0 <= k < |life| && life[k].listing.Some? ==> life[k].listing.value <= b.sequence)
    && OneStanding(life)
  }

  // ---- The listing an event sells ----

  function SoldBy(b: Books, e: Event): Option<nat> {
    match e.command
    case Purchase(listing) => Some(listing)
    case AcceptOffer(offer) =>
      (match OfferAt(b.offers, offer)
       case None => None
       case Some(i) => Some(b.offers[i].listing))
    case _ => None
  }

  lemma SaleIsOfAnActiveListing(b: Books, e: Event, now: nat) returns (i: nat)
    requires Admitted(b, e, now) && SoldBy(b, e).Some?
    ensures ListingAt(b.listings, SoldBy(b, e).value) == Some(i) && i < |b.listings|
    ensures b.listings[i].id == SoldBy(b, e).value && b.listings[i].status == Active
    ensures |Posted(b, e)| == 1 && Pays(Posted(b, e)[0], SoldBy(b, e).value) && Posted(b, e)[0].id == e.sequence
    ensures |NextListings(b, e)| == |b.listings|
    ensures exists payer :: NextListings(b, e) == b.listings[i := Close(b.listings[i], payer, e.sequence, e.timestamp)]
  {
    i := ListingAt(b.listings, SoldBy(b, e).value).value;
    if e.command.AcceptOffer? {
      var o := b.offers[OfferAt(b.offers, e.command.offer).value];
      assert NextListings(b, e) ==
               b.listings[i := Close(b.listings[i], DealParties(b.listings[i].side, o.owner, o.offerer).0, e.sequence,
                                     e.timestamp)];
    } else {
      assert NextListings(b, e) ==
               b.listings[i := Close(b.listings[i], DealParties(b.listings[i].side, b.listings[i].owner, e.actor).0,
                                     e.sequence, e.timestamp)];
    }
  }

  lemma OnlySalesPay(b: Books, e: Event, k: nat, listing: nat)
    requires k < |Posted(b, e)| && Pays(Posted(b, e)[k], listing)
    ensures SoldBy(b, e) == Some(listing)
  {
  }

  /** A row standing after an event is the event's own payment, or stood before and is not what the event corrects. */
  lemma StandingAfter(b: Books, life: seq<Transaction>, e: Event, txs: seq<Transaction>, k: nat, listing: nat)
    requires PostedShape(b, life, e, txs) && txs == Posted(b, e)
    requires k < |life + txs| && Standing(life + txs, k, listing)
    ensures k < |life| ==> Standing(life, k, listing) && Corrected(b, e) != Some(life[k].id)
    ensures k >= |life| ==> SoldBy(b, e) == Some(listing)
  {
    if k < |life| {
      assert (life + txs)[k] == life[k];
      UndoneAfter(b, life, e, txs, life[k].id);
    } else {
      assert (life + txs)[k] == txs[k - |life|];
      OnlySalesPay(b, e, k - |life|, listing);
    }
  }

  // ---- One event, listing by listing ----

  /** What an event may do to a retained listing, besides a sale. */
  ghost predicate QuietChange(l: Listing, l': Listing) {
    && l'.id == l.id && l'.owner == l.owner
    && l'.soldTx == l.soldTx && l'.buyer == l.buyer
    && (l'.status == Sold <==> l.status == Sold)
    && 1 <= l'.price <= MAX_AMOUNT
  }

  lemma QuietListingKept(b: Books, life: seq<Transaction>, e: Event, txs: seq<Transaction>, l: Listing, l': Listing,
                         members: nat)
    requires PostedShape(b, life, e, txs) && txs == Posted(b, e)
    requires ListingKept(life, l, b.sequence, |b.members|) && QuietChange(l, l')
    requires SoldBy(b, e) != Some(l.id)
    requires b.sequence <= e.sequence && |b.members| <= members
    ensures ListingKept(life + txs, l', e.sequence, members)
  {
    forall k | 0 <= k < |life + txs| && Standing(life + txs, k, l'.id) ensures l'.soldTx == Some((life + txs)[k].id) {
      StandingAfter(b, life, e, txs, k, l'.id);
    }
  }

  lemma SoldListingKept(b: Books, life: seq<Transaction>, e: Event, txs: seq<Transaction>, l: Listing, payer: MemberId,
                        members: nat)
    requires PostedShape(b, life, e, txs) && txs == Posted(b, e)
    requires ListingKept(life, l, b.sequence, |b.members|) && l.status == Active
    requires |txs| == 1 && SoldBy(b, e) == Some(l.id)
    requires b.sequence <= e.sequence && |b.members| <= members
    ensures ListingKept(life + txs, Close(l, payer, e.sequence, e.timestamp), e.sequence, members)
  {
    forall k | 0 <= k < |life + txs| && Standing(life + txs, k, l.id) ensures (life + txs)[k].id == e.sequence {
      StandingAfter(b, life, e, txs, k, l.id);
    }
  }

  lemma ReopenedListingKept(b: Books, life: seq<Transaction>, e: Event, txs: seq<Transaction>, l: Listing, members: nat)
    requires PostedShape(b, life, e, txs) && txs == Posted(b, e)
    requires ListingKept(life, l, b.sequence, |b.members|)
    requires e.command.UnacceptOffer? && Corrected(b, e).Some? && l.soldTx == Corrected(b, e)
    requires b.sequence <= e.sequence && |b.members| <= members
    ensures ListingKept(life + txs, Reopen(l, e.timestamp), e.sequence, members)
  {
    forall k | 0 <= k < |life + txs| && Standing(life + txs, k, l.id) ensures false {
      StandingAfter(b, life, e, txs, k, l.id);
    }
  }

  lemma NewListingKept(b: Books, life: seq<Transaction>, e: Event, txs: seq<Transaction>, l: Listing, members: nat)
    requires PostedShape(b, life, e, txs) && txs == Posted(b, e)
    requires e.command.List? && b.sequence < e.sequence
    requires forall k :: 0 <= k < |life| && life[k].listing.Some? ==> life[k].listing.value <= b.sequence
    requires l.id == e.sequence && 1 <= l.owner <= members && 1 <= l.price <= MAX_AMOUNT
    requires l.status == Active && l.soldTx.None? && l.buyer.None?
    ensures ListingKept(life + txs, l, e.sequence, members)
  {
    forall k | 0 <= k < |life + txs| && Standing(life + txs, k, l.id) ensures false {
      StandingAfter(b, life, e, txs, k, l.id);
    }
  }

  /** The facts every step lemma below starts from. */
  ghost predicate Stepping(b: Books, life: seq<Transaction>, e: Event, now: nat) {
    && AccountsInv(b, life) && LedgerInv(b, life) && SalesInv(b, life)
    && Admitted(b, e, now)
    && NextSequence(b.sequence) == Some(e.sequence)
    && (now == 0 || b.lastTimestamp <= now)
    && e.timestamp == Max(now, b.lastTimestamp)
  }

  lemma AscendingWithout(ids: seq<nat>, i: nat)
    requires Ascending(ids) && i < |ids|
    ensures Ascending(Without(ids, i))
  {
  }

  lemma ListedListings(b: Books, life: seq<Transaction>, e: Event, now: nat)
    requires Stepping(b, life, e, now) && e.command.List?
    ensures var next := NextListings(b, e);
            && |next| <= LISTINGS && Ascending(ListingIds(next))
            && forall i :: 0 <= i < |next| ==> ListingKept(life + Posted(b, e), next[i], e.sequence, |b.members|)
  {
    PostedHasShape(b, life, e, now);
    FreshSequence(b.sequence);
    var kept := EvictListing(b.listings, b.offers, e.timestamp);
    EvictedListings(b, e, now);
    var next := NextListings(b, e);
    forall i | 0 <= i < |next| ensures ListingKept(life + Posted(b, e), next[i], e.sequence, |b.members|) {
      if i < |kept| {
        assert Among(b.listings, kept[i]);
        var j :| 0 <= j < |b.listings| && b.listings[j] == kept[i];
        assert ListingKept(life, b.listings[j], b.sequence, |b.members|);
        QuietListingKept(b, life, e, Posted(b, e), b.listings[j], next[i], |b.members|);
      } else {
        NewListingKept(b, life, e, Posted(b, e), next[i], |b.members|);
      }
    }
    forall i, j | 0 <= i < j < |next| ensures ListingIds(next)[i] < ListingIds(next)[j] {
      if j < |kept| {
        assert ListingIds(kept)[i] < ListingIds(kept)[j];
      } else {
        assert Among(b.listings, kept[i]);
        var k :| 0 <= k < |b.listings| && b.listings[k] == kept[i];
        assert ListingKept(life, b.listings[k], b.sequence, |b.members|);
      }
    }
  }

  ghost predicate Among(rows: seq<Listing>, l: Listing) {
    exists i :: 0 <= i < |rows| && rows[i] == l
  }

  lemma WithoutListing(listings: seq<Listing>, gone: nat)
    requires gone < |listings| && Ascending(ListingIds(listings))
    ensures var kept := Without(listings, gone);
            && Ascending(ListingIds(kept))
            && (forall i :: 0 <= i < |kept| ==> Among(listings, kept[i]))
            && (forall j :: 0 <= j < |listings| && j != gone ==> Among(kept, listings[j]))
  {
    var kept := Without(listings, gone);
    AscendingWithout(ListingIds(listings), gone);
    assert ListingIds(kept) == Without(ListingIds(listings), gone);
    forall j | 0 <= j < |listings| && j != gone ensures Among(kept, listings[j]) {
      assert kept[if j < gone then j else j - 1] == listings[j];
    }
  }

  /** A full table has a listing to drop at the event's time, because it had one at the validated time. */
  lemma ListingToDrop(b: Books, e: Event, now: nat) returns (gone: nat)
    requires e.command.List? && Admitted(b, e, now) && now <= e.timestamp
    requires |b.listings| >= LISTINGS
    ensures gone < |b.listings| && ListingRecyclable(b.offers, b.listings[gone], e.timestamp)
    ensures EvictListing(b.listings, b.offers, e.timestamp) == Without(b.listings, gone)
  {
    var i :| 0 <= i < |b.listings| && ListingRecyclable(b.offers, b.listings[i], now);
    assert ListingRecyclable(b.offers, b.listings[i], e.timestamp);
    gone := FirstRecyclable(b.listings, b.offers, e.timestamp).value;
  }

  /** Room is made for a new listing only by dropping one that no unsettled sale pins. */
  lemma EvictedListings(b: Books, e: Event, now: nat)
    requires Ascending(ListingIds(b.listings)) && |b.listings| <= LISTINGS
    requires e.command.List? && Admitted(b, e, now) && now <= e.timestamp
    ensures var kept := EvictListing(b.listings, b.offers, e.timestamp);
            && |kept| < LISTINGS
            && Ascending(ListingIds(kept))
            && (forall i :: 0 <= i < |kept| ==> Among(b.listings, kept[i]))
            && (forall j :: 0 <= j < |b.listings| && !ListingRecyclable(b.offers, b.listings[j], e.timestamp) ==>
                  Among(kept, b.listings[j]))
  {
    if |b.listings| == LISTINGS {
      var gone := ListingToDrop(b, e, now);
      WithoutListing(b.listings, gone);
    }
  }

  lemma UniqueListing(b: Books, i: nat, j: nat)
    requires Ascending(ListingIds(b.listings))
    requires i < |b.listings| && j < |b.listings| && b.listings[i].id == b.listings[j].id
    ensures i == j
  {
    assert ListingIds(b.listings)[i] == ListingIds(b.listings)[j];
  }

  lemma UniqueOffer(b: Books, i: nat, j: nat)
    requires Ascending(OfferIds(b.offers))
    requires i < |b.offers| && j < |b.offers| && b.offers[i].id == b.offers[j].id
    ensures i == j
  {
    assert OfferIds(b.offers)[i] == OfferIds(b.offers)[j];
  }

  lemma SoldListings(b: Books, life: seq<Transaction>, e: Event, now: nat)
    requires Stepping(b, life, e, now) && SoldBy(b, e).Some?
    ensures var next := NextListings(b, e);
            && |next| == |b.listings| && ListingIds(next) == ListingIds(b.listings)
            && forall i :: 0 <= i < |next| ==> ListingKept(life + Posted(b, e), next[i], e.sequence, |b.members|)
  {
    PostedHasShape(b, life, e, now);
    FreshSequence(b.sequence);
    var s := SaleIsOfAnActiveListing(b, e, now);
    var next := NextListings(b, e);
    var payer :| next == b.listings[s := Close(b.listings[s], payer, e.sequence, e.timestamp)];
    forall i | 0 <= i < |next| ensures ListingKept(life + Posted(b, e), next[i], e.sequence, |b.members|) {
      assert ListingKept(life, b.listings[i], b.sequence, |b.members|);
      if i == s {
        SoldListingKept(b, life, e, Posted(b, e), b.listings[i], payer, |b.members|);
      } else {
        if b.listings[i].id == b.listings[s].id {
          UniqueListing(b, i, s);
        }
        QuietListingKept(b, life, e, Posted(b, e), b.listings[i], next[i], |b.members|);
      }
    }
  }

  lemma UnacceptedSale(b: Books, life: seq<Transaction>, e: Event, now: nat) returns (i: nat, k: nat)
    requires Stepping(b, life, e, now) && e.command.UnacceptOffer?
    ensures OfferAt(b.offers, e.command.offer) == Some(i) && i < |b.offers| && b.offers[i].phase.Accepted?
    ensures ListingAt(b.listings, b.offers[i].listing) == Some(k) && k < |b.listings|
    ensures b.listings[k].id == b.offers[i].listing
    ensures Corrected(b, e) == Some(b.offers[i].phase.settlement.transaction) == b.listings[k].soldTx
    ensures NextListings(b, e) == b.listings[k := Reopen(b.listings[k], e.timestamp)]
  {
    i := OfferAt(b.offers, e.command.offer).value;
    assert OfferKept(b.listings, b.offers[i], b.sequence, b.lastTimestamp, |b.members|);
    k := ListingAt(b.listings, b.offers[i].listing).value;
  }

  lemma ReopenedListings(b: Books, life: seq<Transaction>, e: Event, now: nat)
    requires Stepping(b, life, e, now) && e.command.UnacceptOffer?
    ensures var next := NextListings(b, e);
            && |next| == |b.listings| && ListingIds(next) == ListingIds(b.listings)
            && forall i :: 0 <= i < |next| ==> ListingKept(life + Posted(b, e), next[i], e.sequence, |b.members|)
  {
    PostedHasShape(b, life, e, now);
    FreshSequence(b.sequence);
    var o, s := UnacceptedSale(b, life, e, now);
    var next := NextListings(b, e);
    forall i | 0 <= i < |next| ensures ListingKept(life + Posted(b, e), next[i], e.sequence, |b.members|) {
      assert ListingKept(life, b.listings[i], b.sequence, |b.members|);
      if i == s {
        ReopenedListingKept(b, life, e, Posted(b, e), b.listings[i], |b.members|);
      } else {
        QuietListingKept(b, life, e, Posted(b, e), b.listings[i], next[i], |b.members|);
      }
    }
  }

  /** Every other event at most edits or cancels an active listing. */
  lemma QuietListings(b: Books, life: seq<Transaction>, e: Event, now: nat, members: nat)
    requires Stepping(b, life, e, now) && |b.members| <= members
    requires !e.command.List? && SoldBy(b, e).None? && !e.command.UnacceptOffer?
    ensures var next := NextListings(b, e);
            && |next| == |b.listings| && ListingIds(next) == ListingIds(b.listings)
            && (forall i :: 0 <= i < |next| ==> QuietChange(b.listings[i], next[i]))
            && forall i :: 0 <= i < |next| ==> ListingKept(life + Posted(b, e), next[i], e.sequence, members)
  {
    PostedHasShape(b, life, e, now);
    FreshSequence(b.sequence);
    var next := NextListings(b, e);
    forall i | 0 <= i < |next|
      ensures QuietChange(b.listings[i], next[i]) && ListingKept(life + Posted(b, e), next[i], e.sequence, members)
    {
      assert ListingKept(life, b.listings[i], b.sequence, |b.members|);
      QuietListingKept(b, life, e, Posted(b, e), b.listings[i], next[i], members);
    }
  }

  // ---- One event, offer by offer ----

  ghost predicate SaleHeld(listings: seq<Listing>, o: Offer, now: nat)
    requires o.phase.Accepted?
  {
    && (forall i :: 0 <= i < |listings| && listings[i].id == o.listing ==>
          listings[i].soldTx == Some(o.phase.settlement.transaction))
    && (o.Pins(now) ==> Retained(listings, o.listing))
  }

  lemma HeldWhenListed(b: Books, life: seq<Transaction>, e: Event, now: nat, j: nat)
    requires Stepping(b, life, e, now) && e.command.List?
    requires j < |b.offers| && b.offers[j].phase.Accepted?
    ensures SaleHeld(NextListings(b, e), b.offers[j], e.timestamp)
  {
    var o := b.offers[j];
    assert OfferKept(b.listings, o, b.sequence, b.lastTimestamp, |b.members|);
    FreshSequence(b.sequence);
    EvictedListings(b, e, now);
    var kept, next := EvictListing(b.listings, b.offers, e.timestamp), NextListings(b, e);
    hide AccountsInv, LedgerInv, Admitted, EvictListing, ListingRecyclable;
    forall i | 0 <= i < |next| && next[i].id == o.listing
      ensures next[i].soldTx == Some(o.phase.settlement.transaction) {
      assert i < |kept| && Among(b.listings, kept[i]);
      var k :| 0 <= k < |b.listings| && b.listings[k] == kept[i];
    }
    if o.Pins(e.timestamp) {
      PinnedIsKept(b, kept, e.timestamp, j);
      var i :| 0 <= i < |kept| && kept[i].id == o.listing;
      assert next[i].id == o.listing;
    }
  }

  /** Making room for a listing never drops the listing of an unsettled deal. */
  lemma PinnedIsKept(b: Books, kept: seq<Listing>, now: nat, j: nat)
    requires j < |b.offers| && b.offers[j].Pins(now) && Retained(b.listings, b.offers[j].listing)
    requires forall k :: 0 <= k < |b.listings| && !ListingRecyclable(b.offers, b.listings[k], now) ==>
               Among(kept, b.listings[k])
    ensures exists i :: 0 <= i < |kept| && kept[i].id == b.offers[j].listing
  {
    var k :| 0 <= k < |b.listings| && b.listings[k].id == b.offers[j].listing;
    assert !ListingRecyclable(b.offers, b.listings[k], now);
    assert Among(kept, b.listings[k]);
  }

  /** A table whose rows keep their place, id and (for this offer's listing) sale still holds the sale. */
  lemma HeldInPlace(listings: seq<Listing>, next: seq<Listing>, o: Offer, before: nat, now: nat)
    requires o.phase.Accepted? && SaleHeld(listings, o, before) && before <= now
    requires |next| == |listings| && ListingIds(next) == ListingIds(listings)
    requires forall i :: 0 <= i < |next| && listings[i].id == o.listing ==> next[i].soldTx == listings[i].soldTx
    ensures SaleHeld(next, o, now)
  {
    forall i | 0 <= i < |next| ensures next[i].id == listings[i].id {
      assert ListingIds(next)[i] == ListingIds(listings)[i];
    }
    if o.Pins(now) {
      var k :| 0 <= k < |listings| && listings[k].id == o.listing;
      assert next[k].id == o.listing;
    }
  }

  /** An accepted sale that the event does not itself undo is held after the event as it was before. */
  lemma SaleStaysHeld(b: Books, life: seq<Transaction>, e: Event, now: nat, j: nat)
    requires Stepping(b, life, e, now)
    requires j < |b.offers| && b.offers[j].phase.Accepted?
    requires Corrected(b, e) != Some(b.offers[j].phase.settlement.transaction)
    ensures SaleHeld(NextListings(b, e), b.offers[j], e.timestamp)
  {
    var o := b.offers[j];
    assert OfferKept(b.listings, o, b.sequence, b.lastTimestamp, |b.members|);
    if e.command.List? {
      HeldWhenListed(b, life, e, now, j);
    } else {
      if SoldBy(b, e).Some? {
        SoldListings(b, life, e, now);
        var s := SaleIsOfAnActiveListing(b, e, now);
        assert ListingKept(life, b.listings[s], b.sequence, |b.members|);
      } else if e.command.UnacceptOffer? {
        ReopenedListings(b, life, e, now);
        var i, k := UnacceptedSale(b, life, e, now);
      } else {
        QuietListings(b, life, e, now, |b.members|);
      }
      HeldInPlace(b.listings, NextListings(b, e), o, b.lastTimestamp, e.timestamp);
    }
  }

  /** An old offer, possibly closed by the event, is still kept. */
  lemma OldOfferKept(b: Books, life: seq<Transaction>, e: Event, now: nat, j: nat, o': Offer, members: nat)
    requires Stepping(b, life, e, now) && |b.members| <= members
    requires j < |b.offers|
    requires OfferCarried(b.offers[j], o', Corrected(b, e))
    ensures OfferKept(NextListings(b, e), o', e.sequence, e.timestamp, members)
  {
    FreshSequence(b.sequence);
    assert OfferKept(b.listings, b.offers[j], b.sequence, b.lastTimestamp, |b.members|);
    if o'.phase.Accepted? {
      SaleStaysHeld(b, life, e, now, j);
    }
  }

  lemma MadeOfferKept(b: Books, life: seq<Transaction>, e: Event, now: nat)
    requires Stepping(b, life, e, now) && e.command.MakeOffer?
    ensures var next := NextOffers(b, e);
            next != [] && OfferKept(NextListings(b, e), next[|next| - 1], e.sequence, e.timestamp, |b.members|)
  {
    FreshSequence(b.sequence);
    var l := b.listings[ListingAt(b.listings, e.command.listing).value];
    assert ListingKept(life, l, b.sequence, |b.members|);
  }

  lemma AcceptedOfferKept(b: Books, life: seq<Transaction>, e: Event, now: nat)
    requires Stepping(b, life, e, now) && e.command.AcceptOffer?
    ensures var i := OfferAt(b.offers, e.command.offer).value;
            i < |NextOffers(b, e)|
            && OfferKept(NextListings(b, e), NextOffers(b, e)[i], e.sequence, e.timestamp, |b.members|)
  {
    FreshSequence(b.sequence);
    var i := OfferAt(b.offers, e.command.offer).value;
    assert OfferKept(b.listings, b.offers[i], b.sequence, b.lastTimestamp, |b.members|);
    var s := SaleIsOfAnActiveListing(b, e, now);
    var payer :| NextListings(b, e) == b.listings[s := Close(b.listings[s], payer, e.sequence, e.timestamp)];
    var next := NextListings(b, e);
    forall k | 0 <= k < |next| && next[k].id == b.listings[s].id ensures next[k].soldTx == Some(e.sequence) {
      UniqueListing(b, k, s);
    }
    assert next[s].id == b.offers[i].listing;
  }

  ghost predicate AmongOffers(offers: seq<Offer>, o: Offer) {
    exists j :: 0 <= j < |offers| && offers[j] == o
  }

  /** A full table drops one recyclable offer to make room. */
  lemma EvictedOffers(b: Books, e: Event, now: nat)
    requires Ascending(OfferIds(b.offers)) && |b.offers| <= OFFERS
    requires e.command.MakeOffer? && Admitted(b, e, now) && now == e.timestamp
    ensures var kept := EvictOffer(b.offers, e.timestamp);
            && |kept| < OFFERS && Ascending(OfferIds(kept))
            && forall i :: 0 <= i < |kept| ==> AmongOffers(b.offers, kept[i])
  {
    var kept := EvictOffer(b.offers, e.timestamp);
    if |b.offers| == OFFERS {
      var gone := OldestRecyclable(b.offers, e.timestamp).value;
      AscendingWithout(OfferIds(b.offers), gone);
      assert OfferIds(kept) == Without(OfferIds(b.offers), gone);
      forall i | 0 <= i < |kept| ensures AmongOffers(b.offers, kept[i]) {
        assert b.offers[if i < gone then i else i + 1] == kept[i];
      }
    } else {
      forall i | 0 <= i < |kept| ensures AmongOffers(b.offers, kept[i]) {
        assert b.offers[i] == kept[i];
      }
    }
  }

  /** Making room for an offer drops only a recyclable one. */
  lemma UnsettledIsKept(offers: seq<Offer>, now: nat, i: nat)
    requires i < |offers| && !offers[i].Recyclable(now)
    ensures AmongOffers(EvictOffer(offers, now), offers[i])
  {
    var kept := EvictOffer(offers, now);
    if |offers| < OFFERS || OldestRecyclable(offers, now).None? {
      assert kept[i] == offers[i];
    } else {
      var gone := OldestRecyclable(offers, now).value;
      assert kept[if i < gone then i else i - 1] == offers[i];
    }
  }

  /** What an event leaves of an accepted offer it does not evict: the offer itself, unless its payment is reversed. */
  predicate DealGoesOn(o: Offer, o': Offer, corrected: Option<nat>)
    requires o.phase.Accepted?
  {
    if corrected == Some(o.phase.settlement.transaction)
    then o' == o.(phase := Reversed(o.phase.settlement), updatedAt := o'.updatedAt)
    else o' == o
  }

  lemma DealStaysInPlace(b: Books, e: Event, now: nat, i: nat)
    requires Admitted(b, e, now) && !e.command.MakeOffer? && i < |b.offers| && b.offers[i].phase.Accepted?
    ensures |NextOffers(b, e)| == |b.offers| && DealGoesOn(b.offers[i], NextOffers(b, e)[i], Corrected(b, e))
  {
  }

  /** An accepted offer that has not settled keeps its row and its settlement through any admitted event. */
  lemma UnsettledOffersSurvive(b: Books, life: seq<Transaction>, e: Event, now: nat, i: nat) returns (j: nat)
    requires Stepping(b, life, e, now) && i < |b.offers| && b.offers[i].Pins(e.timestamp)
    ensures j < |NextOffers(b, e)| && DealGoesOn(b.offers[i], NextOffers(b, e)[j], Corrected(b, e))
  {
    if e.command.MakeOffer? {
      UnsettledIsKept(b.offers, e.timestamp, i);
      var kept := EvictOffer(b.offers, e.timestamp);
      j :| 0 <= j < |kept| && kept[j] == b.offers[i];
    } else {
      DealStaysInPlace(b, e, now, i);
      j := i;
    }
  }

  lemma KeptOfferIsOld(b: Books, life: seq<Transaction>, e: Event, now: nat, i: nat) returns (j: nat)
    requires Stepping(b, life, e, now) && e.command.MakeOffer?
    requires i < |EvictOffer(b.offers, e.timestamp)|
    ensures j < |b.offers| && EvictOffer(b.offers, e.timestamp)[i] == b.offers[j]
    ensures b.offers[j].id <= b.sequence
  {
    EvictedOffers(b, e, now);
    assert AmongOffers(b.offers, EvictOffer(b.offers, e.timestamp)[i]);
    j :| 0 <= j < |b.offers| && b.offers[j] == EvictOffer(b.offers, e.timestamp)[i];
    assert OfferKept(b.listings, b.offers[j], b.sequence, b.lastTimestamp, |b.members|);
  }

  lemma MadeOfferIds(b: Books, life: seq<Transaction>, e: Event, now: nat)
    requires Stepping(b, life, e, now) && e.command.MakeOffer?
    ensures |NextOffers(b, e)| <= OFFERS && Ascending(OfferIds(NextOffers(b, e)))
  {
    EvictedOffers(b, e, now);
    FreshSequence(b.sequence);
    var kept, next := EvictOffer(b.offers, e.timestamp), NextOffers(b, e);
    forall i, j | 0 <= i < j < |next| ensures OfferIds(next)[i] < OfferIds(next)[j] {
      if j < |kept| {
        assert OfferIds(kept)[i] < OfferIds(kept)[j];
      } else {
        var k := KeptOfferIsOld(b, life, e, now, i);
      }
    }
  }

  lemma MadeOffers(b: Books, life: seq<Transaction>, e: Event, now: nat)
    requires Stepping(b, life, e, now) && e.command.MakeOffer?
    ensures var next := NextOffers(b, e);
            && |next| <= OFFERS && Ascending(OfferIds(next))
            && forall i :: 0 <= i < |next| ==>
                 OfferKept(NextListings(b, e), next[i], e.sequence, e.timestamp, |b.members|)
  {
    MadeOfferIds(b, life, e, now);
    MadeOfferKept(b, life, e, now);
    var kept, next := EvictOffer(b.offers, e.timestamp), NextOffers(b, e);
    forall i | 0 <= i < |next| ensures OfferKept(NextListings(b, e), next[i], e.sequence, e.timestamp, |b.members|) {
      if i < |kept| {
        var j := KeptOfferIsOld(b, life, e, now, i);
        OldOfferKept(b, life, e, now, j, next[i], |b.members|);
      }
    }
  }

  /** An offer after an event that neither makes nor accepts it: at most closed, or reversed by the event. */
  ghost predicate OfferCarried(o: Offer, o': Offer, corrected: Option<nat>) {
    && o'.id == o.id && o'.listing == o.listing && o'.owner == o.owner && o'.offerer == o.offerer
    && o'.amount == o.amount
    && (o'.Settled() ==> o.Settled() && o'.phase.settlement == o.phase.settlement)
    && (o'.phase.Accepted? ==> o' == o && corrected != Some(o.phase.settlement.transaction))
  }

  lemma OthersCarried(b: Books, e: Event, now: nat, i: nat)
    requires Admitted(b, e, now) && !e.command.MakeOffer? && i < |b.offers|
    ensures |NextOffers(b, e)| == |b.offers|
    ensures OfferCarried(b.offers[i], NextOffers(b, e)[i], Corrected(b, e))
            || (e.command.AcceptOffer? && OfferAt(b.offers, e.command.offer) == Some(i)
                && NextOffers(b, e)[i].id == b.offers[i].id)
  {
  }

  lemma OtherOffers(b: Books, life: seq<Transaction>, e: Event, now: nat, members: nat)
    requires Stepping(b, life, e, now) && !e.command.MakeOffer? && |b.members| <= members
    requires e.command.AcceptOffer? ==> members == |b.members|
    ensures var next := NextOffers(b, e);
            && |next| == |b.offers| && OfferIds(next) == OfferIds(b.offers)
            && forall i :: 0 <= i < |next| ==> OfferKept(NextListings(b, e), next[i], e.sequence, e.timestamp, members)
  {
    hide NextOffers, NextListings, Corrected, Ready, OfferKept;
    var next := NextOffers(b, e);
    if b.offers != [] {
      OthersCarried(b, e, now, 0);
    } else {
      NoOffersNone(b, e);
    }
    forall i | 0 <= i < |next|
      ensures next[i].id == b.offers[i].id
      ensures OfferKept(NextListings(b, e), next[i], e.sequence, e.timestamp, members)
    {
      OthersCarried(b, e, now, i);
      if OfferCarried(b.offers[i], next[i], Corrected(b, e)) {
        OldOfferKept(b, life, e, now, i, next[i], members);
      } else {
        AcceptedOfferKept(b, life, e, now);
      }
    }
  }

  lemma NoOffersNone(b: Books, e: Event)
    requires b.offers == [] && !e.command.MakeOffer?
    ensures NextOffers(b, e) == []
  {
  }

  lemma SettlementsAreOlder(b: Books, life: seq<Transaction>, e: Event, now: nat, i: nat)
    requires Stepping(b, life, e, now) && e.command.AcceptOffer?
    requires i < |b.offers| && b.offers[i].Settled()
    ensures b.offers[i].phase.settlement.transaction != e.sequence
  {
    PostedHasShape(b, life, e, now);
    NumberingStep(b, life, e, Posted(b, e));
    assert SettlementKept(life, b.offers[i]);
    var k :| 0 <= k < |life| && PaymentOf(life[k], b.offers[i]);
    assert life[k].id != Posted(b, e)[0].id;
  }

  lemma DistinctWithOneMore(offers: seq<Offer>, i: nat, o: Offer)
    requires DistinctSettlements(offers) && i < |offers|
    requires o.Settled()
    requires forall k :: 0 <= k < |offers| && offers[k].Settled() ==>
               offers[k].phase.settlement.transaction != o.phase.settlement.transaction
    ensures DistinctSettlements(offers[i := o])
  {
  }

  lemma DistinctInPlace(offers: seq<Offer>, next: seq<Offer>)
    requires DistinctSettlements(offers) && |next| == |offers|
    requires forall i :: 0 <= i < |next| && next[i].Settled() ==>
               offers[i].Settled() && offers[i].phase.settlement == next[i].phase.settlement
    ensures DistinctSettlements(next)
  {
  }

  /** The payments behind two settled offers are different rows. */
  lemma SettlementsStayDistinct(b: Books, life: seq<Transaction>, e: Event, now: nat)
    requires Stepping(b, life, e, now)
    ensures DistinctSettlements(NextOffers(b, e))
  {
    if e.command.AcceptOffer? {
      var i := OfferAt(b.offers, e.command.offer).value;
      forall k | 0 <= k < |b.offers| && b.offers[k].Settled()
        ensures b.offers[k].phase.settlement.transaction != e.sequence
      {
        SettlementsAreOlder(b, life, e, now, k);
      }
      DistinctWithOneMore(b.offers, i, NextOffers(b, e)[i]);
    } else if e.command.MakeOffer? {
      DistinctWithout(b.offers, e.timestamp);
    } else {
      DistinctInPlace(b.offers, NextOffers(b, e));
    }
  }

  lemma DistinctWithout(offers: seq<Offer>, now: nat)
    requires DistinctSettlements(offers)
    ensures DistinctSettlements(EvictOffer(offers, now))
  {
  }

  // ---- The whole event ----

  lemma NothingStandsBeforeASale(b: Books, life: seq<Transaction>, e: Event, now: nat, k: nat)
    requires Stepping(b, life, e, now) && SoldBy(b, e).Some? && k < |life|
    ensures !Standing(life, k, SoldBy(b, e).value)
  {
    var s := SaleIsOfAnActiveListing(b, e, now);
    assert ListingKept(life, b.listings[s], b.sequence, |b.members|);
  }

  lemma OneStandingStep(b: Books, life: seq<Transaction>, e: Event, now: nat)
    requires Stepping(b, life, e, now)
    ensures OneStanding(life + Posted(b, e))
  {
    var txs := Posted(b, e);
    PostedHasShape(b, life, e, now);
    var after := life + txs;
    forall i, j, listing | 0 <= i < j < |after| && Standing(after, i, listing) ensures !Standing(after, j, listing) {
      if Standing(after, j, listing) {
        StandingAfter(b, life, e, txs, i, listing);
        StandingAfter(b, life, e, txs, j, listing);
        if j >= |life| {
          var s := SaleIsOfAnActiveListing(b, e, now);
          NothingStandsBeforeASale(b, life, e, now, i);
        }
      }
    }
  }

  lemma PaidListingKnown(b: Books, life: seq<Transaction>, e: Event, now: nat, k: nat)
    requires Stepping(b, life, e, now) && k < |Posted(b, e)| && Posted(b, e)[k].listing.Some?
    ensures Posted(b, e)[k].listing.value <= b.sequence
  {
    PostedHasShape(b, life, e, now);
    if Posted(b, e)[k].reverses.Some? {
      var j :| 0 <= j < |life| && Mirrors(Posted(b, e)[0], life[j]);
    } else {
      OnlySalesPay(b, e, k, Posted(b, e)[k].listing.value);
      var s := SaleIsOfAnActiveListing(b, e, now);
      assert ListingKept(life, b.listings[s], b.sequence, |b.members|);
    }
  }

  lemma PaidListingsKnown(b: Books, life: seq<Transaction>, e: Event, now: nat)
    requires Stepping(b, life, e, now)
    ensures var after := life + Posted(b, e);
            forall k :: 0 <= k < |after| && after[k].listing.Some? ==> after[k].listing.value <= e.sequence
  {
    var txs, after := Posted(b, e), life + Posted(b, e);
    FreshSequence(b.sequence);
    forall k | 0 <= k < |after| && after[k].listing.Some? ensures after[k].listing.value <= e.sequence {
      if k >= |life| {
        PaidListingKnown(b, life, e, now, k - |life|);
      }
    }
  }

  lemma SalesStep(b: Books, life: seq<Transaction>, e: Event, now: nat)
    requires Stepping(b, life, e, now)
    ensures SalesInv(Apply(b, e), life + Posted(b, e))
  {
    var members := |Apply(b, e).members|;
    NextAccountsKeep(b, e, now);
    if e.command.List? {
      ListedListings(b, life, e, now);
    } else if SoldBy(b, e).Some? {
      SoldListings(b, life, e, now);
    } else if e.command.UnacceptOffer? {
      ReopenedListings(b, life, e, now);
    } else {
      QuietListings(b, life, e, now, members);
    }
    if e.command.MakeOffer? {
      MadeOffers(b, life, e, now);
    } else {
      OtherOffers(b, life, e, now, members);
    }
    SettlementsStayDistinct(b, life, e, now);
    PaidListingsKnown(b, life, e, now);
    OneStandingStep(b, life, e, now);
  }
}
