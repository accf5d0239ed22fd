/** What admitting an event guarantees, command by command, to whoever applies it. */
module Admission {
  import opened Wrappers
  import opened Types
  import opened Postings
  import opened Offers
  import opened Forex
  import opened Domain

  ghost predicate Numbered(members: seq<Member>) {
    && |members| <= MEMBERS
    && forall i :: 0 <= i < |members| ==> members[i].id == i + 1
  }

  lemma MemberIndex(members: seq<Member>, id: MemberId)
    requires Numbered(members)
    ensures MemberAt(members, id) == if 1 <= id <= |members| then Some((id - 1) as nat) else None
  {
    if 1 <= id <= |members| {
      assert members[id - 1].id == id;
    }
  }

  ghost predicate HasActive(b: Books, listing: nat) {
    ListingAt(b.listings, listing).Some? && b.listings[ListingAt(b.listings, listing).value].status == Active
  }

  ghost predicate HasOpenOffer(b: Books, offer: nat) {
    OfferAt(b.offers, offer).Some? && b.offers[OfferAt(b.offers, offer).value].phase == OfferPhase.Open
  }

  ghost predicate HasOpenQuote(b: Books, quote: nat) {
    QuoteAt(b.quotes, quote).Some? && b.quotes[QuoteAt(b.quotes, quote).value].status == QuoteStatus.Open
  }

  ghost predicate InTime(now: nat) {
    MIN_CLOCK <= now <= MAX_SEQUENCE
  }

  ghost predicate RoomForListing(b: Books, now: nat) {
    |b.listings| < LISTINGS || exists i :: 0 <= i < |b.listings| && ListingRecyclable(b.offers, b.listings[i], now)
  }

  ghost predicate RoomForOffer(b: Books, now: nat) {
    |b.offers| < OFFERS || exists i :: 0 <= i < |b.offers| && b.offers[i].Recyclable(now)
  }

  ghost predicate RoomForQuote(b: Books, now: nat) {
    |b.quotes| < QUOTES || exists i :: 0 <= i < |b.quotes| && !b.quotes[i].Live(now)
  }

  /** The rows an admitted command needs are there, in the phase it needs, with room for what it adds. */
  ghost predicate Ready(b: Books, actor: MemberId, c: Command, now: nat) {
    && (b.members == [] ==> actor == 1 && (c.AddMember? || c.Provision?))
    && (b.members != [] ==> 1 <= actor <= |b.members| && !c.Provision?)
    && match c
       case CreateMember(_, _, _, _, _) => |b.members| < MEMBERS
       case AddMember(_, _) => |b.members| < MEMBERS
       case UpdateMember(member, _, _, _, _) => 1 <= member <= |b.members|
       case MigrateMember(member, _, _) => 1 <= member <= |b.members|
       case List(_, _, price, _, _) => 1 <= price <= MAX_AMOUNT && RoomForListing(b, now)
       case Cancel(listing) => HasActive(b, listing)
       case UpdateListing(listing, _, _, price) =>
         HasActive(b, listing) && (price.None? || 1 <= price.value <= MAX_AMOUNT)
       case Purchase(listing) => HasActive(b, listing)
       case Reverse(transaction, _) =>
         && TransactionAt(b.history, transaction).Some?
         && var t := b.history[TransactionAt(b.history, transaction).value]; !t.reversed && t.reverses.None?
       case PostQuote(_, rate, coins, expiresAt) =>
         InTime(now) && 1 <= rate <= 10_000 && 1 <= coins <= 100_000 && expiresAt <= MAX_SEQUENCE
           && RoomForQuote(b, now)
       case TakeQuote(quote) => InTime(now) && HasOpenQuote(b, quote)
       case CancelQuote(quote) => HasOpenQuote(b, quote)
       case MakeOffer(listing, amount, _) =>
         && InTime(now) && 1 <= amount <= MAX_AMOUNT && RoomForOffer(b, now) && HasActive(b, listing)
         && b.listings[ListingAt(b.listings, listing).value].owner != actor
       case AcceptOffer(offer) =>
         && InTime(now) && HasOpenOffer(b, offer)
         && HasActive(b, b.offers[OfferAt(b.offers, offer).value].listing)
         && now + b.settlesAfter <= MAX_SEQUENCE
       case UnacceptOffer(offer, _) =>
         && InTime(now) && OfferAt(b.offers, offer).Some?
         && var o := b.offers[OfferAt(b.offers, offer).value];
            o.Pins(now) && ListingAt(b.listings, o.listing).Some?
       case DeclineOffer(offer) => InTime(now) && HasOpenOffer(b, offer)
       case WithdrawOffer(offer) => InTime(now) && HasOpenOffer(b, offer)
       case _ => true
  }

  lemma AdminExists(b: Books, actor: MemberId)
    requires Numbered(b.members) && b.members != [] && Admin(b, actor).Success?
    ensures 1 <= actor <= |b.members| && b.members[actor - 1].ActiveNana()
  {
    MemberIndex(b.members, actor);
  }

  /** `Admitted` stands for a successful validation without spelling out its steps. */
  ghost predicate Admitted(b: Books, e: Event, now: nat) {
    && Ready(b, e.actor, e.command, now)
    && GoodPostings(b, Posted(b, e), |NextAccounts(b, e)|)
  }

  // ---- Affordability ----

  function Balance(b: Books, id: MemberId, usd: bool): int
    requires id <= |b.members|
  {
    if id == ISSUER then b.Issued(usd) else b.members[id - 1].Holds(usd)
  }

  /** A lifetime row between two distinct accounts of a household of `n` members. */
  ghost predicate Sound(tx: Transaction, n: nat) {
    && tx.from != tx.to && tx.from <= n && tx.to <= n
    && 1 <= tx.amount <= MAX_AMOUNT
    && !tx.reversed
  }

  /** The posting leaves both balances representable, and overdraws only as a correction. */
  ghost predicate Affordable(b: Books, tx: Transaction) {
    && tx.from <= |b.members|
    && Balance(b, tx.from, tx.usd) - tx.amount >= -MAX_SEQUENCE
    && (tx.to <= |b.members| ==> Balance(b, tx.to, tx.usd) + tx.amount <= MAX_SEQUENCE)
    && (tx.reverses.None? && tx.from != ISSUER ==> Balance(b, tx.from, tx.usd) - tx.amount >= 0)
  }

  /** Everything an admitted event posts is sound and affordable; two rows are in two currencies. */
  ghost predicate GoodPostings(b: Books, txs: seq<Transaction>, n: nat) {
    && |txs| <= 2
    && (forall k :: 0 <= k < |txs| ==> Sound(txs[k], n) && Affordable(b, txs[k]))
    && (|txs| == 2 ==> txs[0].usd != txs[1].usd)
  }

  lemma HoldingIs(b: Books, id: MemberId, correction: bool, usd: bool)
    requires Numbered(b.members) && Holding(b, id, correction, usd).Success?
    ensures id <= |b.members| && Holding(b, id, correction, usd).value == Balance(b, id, usd)
  {
    MemberIndex(b.members, id);
  }

  lemma AdmittedAffordable(b: Books, tx: Transaction, correction: bool)
    requires Numbered(b.members) && !tx.reversed
    requires ValidateCurrencyPosting(b, tx.from, tx.to, tx.amount, correction, tx.usd).Success?
    requires correction ==> tx.reverses.Some?
    ensures Sound(tx, |b.members|) && Affordable(b, tx)
  {
    HoldingIs(b, tx.from, correction, tx.usd);
    HoldingIs(b, tx.to, correction, tx.usd);
  }

  /** One affordable row is a good posting. */
  lemma OneGood(b: Books, txs: seq<Transaction>, correction: bool)
    requires Numbered(b.members) && |txs| == 1 && !txs[0].reversed
    requires ValidateCurrencyPosting(b, txs[0].from, txs[0].to, txs[0].amount, correction, txs[0].usd).Success?
    requires correction ==> txs[0].reverses.Some?
    ensures GoodPostings(b, txs, |b.members|)
  {
    AdmittedAffordable(b, txs[0], correction);
  }

  // ---- Admission, group by group ----

  lemma MembershipAdmitted(b: Books, e: Event, now: nat)
    requires Numbered(b.members) && ValidateActor(b, e.actor, e.command).Success?
    requires IsMembership(e.command) && ValidateMembership(b, e.actor, e.command, now).Success?
    ensures Admitted(b, e, now)
  {
    MemberIndex(b.members, e.actor);
    if e.command.UpdateMember? || e.command.MigrateMember? {
      MemberIndex(b.members, e.command.member);
    }
  }

  lemma SpendingAdmitted(b: Books, e: Event, now: nat)
    requires Numbered(b.members) && ValidateActor(b, e.actor, e.command).Success?
    requires e.command.Issue? || e.command.Retire? || e.command.Transfer? || e.command.IssueUsd?
    requires if IsTrade(e.command) then ValidateTrade(b, e.actor, e.command, now).Success?
             else ValidateForex(b, e.actor, e.command, now).Success?
    ensures Admitted(b, e, now)
  {
    MemberIndex(b.members, e.actor);
    OneGood(b, Posted(b, e), false);
  }

  lemma MarketAdmitted(b: Books, e: Event, now: nat)
    requires Numbered(b.members) && ValidateActor(b, e.actor, e.command).Success?
    requires e.command.List? || e.command.Cancel? || e.command.UpdateListing?
    requires ValidateTrade(b, e.actor, e.command, now).Success?
    ensures Admitted(b, e, now)
  {
    MemberIndex(b.members, e.actor);
  }

  lemma PurchaseAdmitted(b: Books, e: Event, now: nat)
    requires Numbered(b.members) && ValidateActor(b, e.actor, e.command).Success?
    requires e.command.Purchase? && ValidateTrade(b, e.actor, e.command, now).Success?
    ensures Admitted(b, e, now)
  {
    MemberIndex(b.members, e.actor);
    OneGood(b, Posted(b, e), false);
  }

  lemma ReverseAdmitted(b: Books, e: Event, now: nat)
    requires Numbered(b.members) && ValidateActor(b, e.actor, e.command).Success?
    requires e.command.Reverse? && ValidateTrade(b, e.actor, e.command, now).Success?
    ensures Admitted(b, e, now)
  {
    MemberIndex(b.members, e.actor);
    OneGood(b, Posted(b, e), true);
  }

  lemma TakeAffordable(b: Books, e: Event, now: nat)
    requires Numbered(b.members)
    requires e.command.TakeQuote? && ValidateForex(b, e.actor, e.command, now).Success?
    ensures GoodPostings(b, Posted(b, e), |b.members|)
  {
    var q := FindQuote(b, e.command.quote).value;
    var (seller, buyer) := q.Parties(e.actor);
    assert ValidateCurrencyPosting(b, seller, buyer, q.coins, false, false).Success?;
    assert ValidateCurrencyPosting(b, buyer, seller, q.Cents(), false, true).Success?;
    var txs := Posted(b, e);
    AdmittedAffordable(b, txs[0], false);
    AdmittedAffordable(b, txs[1], false);
  }

  lemma TakeAdmitted(b: Books, e: Event, now: nat)
    requires Numbered(b.members) && ValidateActor(b, e.actor, e.command).Success?
    requires e.command.TakeQuote? && ValidateForex(b, e.actor, e.command, now).Success?
    ensures Admitted(b, e, now)
  {
    MemberIndex(b.members, e.actor);
    TakeAffordable(b, e, now);
  }

  lemma QuoteAdmitted(b: Books, e: Event, now: nat)
    requires Numbered(b.members) && ValidateActor(b, e.actor, e.command).Success?
    requires e.command.PostQuote? || e.command.CancelQuote?
    requires ValidateForex(b, e.actor, e.command, now).Success?
    ensures Admitted(b, e, now)
  {
    MemberIndex(b.members, e.actor);
  }

  lemma AcceptAffordable(b: Books, e: Event, now: nat)
    requires Numbered(b.members)
    requires e.command.AcceptOffer? && ValidateOffer(b, e.actor, e.command, now).Success?
    ensures GoodPostings(b, Posted(b, e), |b.members|)
  {
    var o := FindOffer(b, e.command.offer).value;
    var l := FindListing(b, o.listing).value;
    var (payer, payee) := DealParties(l.side, o.owner, o.offerer);
    assert ValidatePosting(b, payer, payee, o.amount, false).Success?;
    OneGood(b, Posted(b, e), false);
  }

  lemma AcceptAdmitted(b: Books, e: Event, now: nat)
    requires Numbered(b.members) && ValidateActor(b, e.actor, e.command).Success?
    requires e.command.AcceptOffer? && ValidateOffer(b, e.actor, e.command, now).Success?
    ensures Admitted(b, e, now)
  {
    MemberIndex(b.members, e.actor);
    AcceptAffordable(b, e, now);
  }

  lemma UnacceptAdmitted(b: Books, e: Event, now: nat)
    requires Numbered(b.members) && ValidateActor(b, e.actor, e.command).Success?
    requires e.command.UnacceptOffer? && ValidateOffer(b, e.actor, e.command, now).Success?
    ensures Admitted(b, e, now)
  {
    MemberIndex(b.members, e.actor);
    UnacceptReady(b, e, now);
    hide Ready;
    OneGood(b, Posted(b, e), true);
  }

  lemma UnacceptReady(b: Books, e: Event, now: nat)
    requires Numbered(b.members) && ValidateActor(b, e.actor, e.command).Success?
    requires e.command.UnacceptOffer? && ValidateOffer(b, e.actor, e.command, now).Success?
    ensures Ready(b, e.actor, e.command, now) && NextAccounts(b, e) == b.members
  {
    MemberIndex(b.members, e.actor);
  }

  lemma OfferAdmitted(b: Books, e: Event, now: nat)
    requires Numbered(b.members) && ValidateActor(b, e.actor, e.command).Success?
    requires e.command.MakeOffer? || e.command.DeclineOffer? || e.command.WithdrawOffer?
    requires ValidateOffer(b, e.actor, e.command, now).Success?
    ensures Admitted(b, e, now)
  {
    MemberIndex(b.members, e.actor);
  }

  /** A validated event finds everything it needs, and can be afforded. */
  lemma ValidatedIsAdmitted(b: Books, e: Event, now: nat)
    requires Numbered(b.members) && ValidateAt(b, e.actor, e.command, now).Success?
    ensures Admitted(b, e, now)
  {
    match e.command {
      case Issue(_, _, _) => SpendingAdmitted(b, e, now);
      case Retire(_, _, _) => SpendingAdmitted(b, e, now);
      case Transfer(_, _, _) => SpendingAdmitted(b, e, now);
      case IssueUsd(_, _, _) => SpendingAdmitted(b, e, now);
      case List(_, _, _, _, _) => MarketAdmitted(b, e, now);
      case Cancel(_) => MarketAdmitted(b, e, now);
      case UpdateListing(_, _, _, _) => MarketAdmitted(b, e, now);
      case Purchase(_) => PurchaseAdmitted(b, e, now);
      case Reverse(_, _) => ReverseAdmitted(b, e, now);
      case TakeQuote(_) => TakeAdmitted(b, e, now);
      case PostQuote(_, _, _, _) => QuoteAdmitted(b, e, now);
      case CancelQuote(_) => QuoteAdmitted(b, e, now);
      case AcceptOffer(_) => AcceptAdmitted(b, e, now);
      case UnacceptOffer(_, _) => UnacceptAdmitted(b, e, now);
      case MakeOffer(_, _, _) => OfferAdmitted(b, e, now);
      case DeclineOffer(_) => OfferAdmitted(b, e, now);
      case WithdrawOffer(_) => OfferAdmitted(b, e, now);
      case _ => MembershipAdmitted(b, e, now);
    }
  }
}
