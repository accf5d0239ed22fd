/** Admission, application and replay of events on the books of a household. */
module Domain {
  import opened Wrappers
  import opened Types
  import opened Postings
  import opened Offers
  import opened Forex

  // ---- Admission ----

  predicate ValidDetails(d: ListingDetails) {
    && d.kind in ["", "item", "service", "currency"]
    && !HasControl(d.currency)
    && -MAX_SEQUENCE <= d.minorUnits <= MAX_SEQUENCE
    && !(d.kind == "currency" && (d.currency == "" || d.minorUnits <= 0))
  }

  function ActiveNanas(members: seq<Member>): nat {
    if members == [] then 0
    else ActiveNanas(members[..|members| - 1]) + if members[|members| - 1].ActiveNana() then 1 else 0
  }

  function ValidateNewMember(b: Books, username: string, displayName: string, password: PasswordVerifier)
    : Result<(), Error>
  {
    if !(ValidName(username) && ValidName(displayName) && password.Valid()) then Failure(InvalidInput)
    else
      :- Need(|b.members| < MEMBERS, Capacity);
      :- Need(forall i :: 0 <= i < |b.members| ==> b.members[i].username != username, Conflict);
      Success(())
  }

  /** Who may send anything at all: an enabled member, or member 1 founding the household. */
  function ValidateActor(b: Books, actor: MemberId, c: Command): Result<(), Error> {
    if b.members != [] then
      var m :- FindMember(b, actor);
      :- Need(!m.disabled, Disabled);
      Success(())
    else
      :- Need(actor == 1 && (c.AddMember? || c.Provision?), Forbidden);
      Success(())
  }

  predicate IsMembership(c: Command) {
    c.AddMember? || c.Provision? || c.CreateMember? || c.UpdateMember? || c.MigrateMember? || c.Configure?
  }

  function ValidateMembership(b: Books, actor: MemberId, c: Command, now: nat): Result<(), Error>
    requires IsMembership(c)
  {
    match c
    case Provision(household, username, displayName, password) =>
      :- Need(b.members == [], Forbidden);
      :- Need(ValidName(household), InvalidInput);
      ValidateNewMember(b, username, displayName, password)
    case CreateMember(username, displayName, password, _, grant) =>
      var _ :- Admin(b, actor);
      var _ :- ValidateNewMember(b, username, displayName, password);
      :- Need(0 <= grant <= MAX_AMOUNT, InvalidInput);
      var issued :- CheckedAdd(b.issuance, -grant);
      :- Need(issued >= -MAX_SEQUENCE, Overflow);
      Success(())
    case Configure(household, grant, currency, window) =>
      var _ :- Admin(b, actor);
      :- Need(ValidName(household) && ValidName(currency) && 0 <= grant <= MAX_AMOUNT, InvalidInput);
      :- Need(window.None? || window.value <= SaturatingSub(MAX_SEQUENCE, now), InvalidInput);
      Success(())
    case UpdateMember(member, name, password, role, disabled) =>
      var target :- FindMember(b, member);
      :- Need(target.password.Some? || password.None?, InvalidInput);
      var _ :- if actor != member || role.Some? || disabled.Some? then Admin(b, actor) else Success(());
      :- Need(name.None? || ValidName(name.value), InvalidInput);
      :- Need(password.None? || password.value.Valid(), InvalidInput);
      :- Need(!(target.ActiveNana() && (role == Some(User) || disabled == Some(true))
                && ActiveNanas(b.members) == 1), Forbidden);
      Success(())
    case MigrateMember(member, username, password) =>
      var _ :- if actor != member then Admin(b, actor) else Success(());
      var target :- FindMember(b, member);
      :- Need(target.password.None?, Conflict);
      :- Need(ValidName(username) && password.Valid(), InvalidInput);
      :- Need(forall i :: 0 <= i < |b.members| ==> b.members[i].username != username, Conflict);
      Success(())
    case AddMember(name, tokenHash) =>
      var _ :- Admin(b, actor);
      :- Need(!Blank(name) && tokenHash != Zero, InvalidInput);
      :- Need(|b.members| < MEMBERS, Capacity);
      :- Need(forall i :: 0 <= i < |b.members| ==>
                b.members[i].name != name && b.members[i].tokenHash != tokenHash, Conflict);
      Success(())
  }

  predicate IsTrade(c: Command) {
    || c.Issue? || c.Retire? || c.Transfer? || c.List? || c.Cancel? || c.UpdateListing?
    || c.Purchase? || c.Reverse?
  }

  function ValidateTrade(b: Books, actor: MemberId, c: Command, now: nat): Result<(), Error>
    requires IsTrade(c)
  {
    match c
    case Issue(to, amount, _) =>
      var _ :- Admin(b, actor);
      var _ :- FindMember(b, to);
      ValidatePosting(b, ISSUER, to, amount, false)
    case Retire(from, amount, _) =>
      var _ :- Admin(b, actor);
      var _ :- FindMember(b, from);
      ValidatePosting(b, from, ISSUER, amount, false)
    case Transfer(to, amount, _) =>
      var _ :- FindMember(b, to);
      ValidatePosting(b, actor, to, amount, false)
    case List(title, _, price, _, details) =>
      :- Need(details.None? || ValidDetails(details.value), InvalidInput);
      :- Need(!Blank(title) && 1 <= price <= MAX_AMOUNT, InvalidInput);
      :- Need(|b.listings| < LISTINGS
              || exists i :: 0 <= i < |b.listings| && ListingRecyclable(b.offers, b.listings[i], now), Capacity);
      Success(())
    case Cancel(listing) =>
      var l :- FindListing(b, listing);
      var _ :- if actor != l.owner then Admin(b, actor) else Success(());
      :- Need(l.status == Active, Conflict);
      Success(())
    case UpdateListing(listing, title, _, price) =>
      var l :- FindListing(b, listing);
      var _ :- if l.owner != actor then Admin(b, actor) else Success(());
      :- Need(l.status == Active, Conflict);
      :- Need((title.None? || !Blank(title.value)) && (price.None? || 1 <= price.value <= MAX_AMOUNT), InvalidInput);
      Success(())
    case Purchase(listing) =>
      var l :- FindListing(b, listing);
      :- Need(l.status == Active, Conflict);
      var (payer, payee) := DealParties(l.side, l.owner, actor);
      ValidatePosting(b, payer, payee, l.price, false)
    case Reverse(transaction, _) =>
      var _ :- Admin(b, actor);
      var tx :- FindTransaction(b, transaction);
      :- Need(!tx.reversed && tx.reverses.None?, Conflict);
      ValidateCurrencyPosting(b, tx.to, tx.from, tx.amount, true, tx.usd)
  }

  function ValidateAt(b: Books, actor: MemberId, c: Command, now: nat): Result<(), Error> {
    var _ :- ValidateActor(b, actor, c);
    if IsMembership(c) then ValidateMembership(b, actor, c, now)
    else if IsForexCommand(c) then ValidateForex(b, actor, c, now)
    else if IsOfferCommand(c) then ValidateOffer(b, actor, c, now)
    else ValidateTrade(b, actor, c, now)
  }

  // ---- What an event posts ----

  function Post(e: Event, from: MemberId, to: MemberId, amount: int, memo: string): Transaction {
    Transaction(e.sequence, e.actor, e.timestamp, from, to, amount, memo, None, false, None, false, None)
  }

  /** The ledger rows an event writes, oldest first. */
  function Posted(b: Books, e: Event): seq<Transaction> {
    match e.command
    case CreateMember(_, _, _, _, grant) =>
      if grant > 0 then [Post(e, ISSUER, |b.members| + 1, grant, "Initial household allocation")] else []
    case Issue(to, amount, memo) => [Post(e, ISSUER, to, amount, memo)]
    case Retire(from, amount, memo) => [Post(e, from, ISSUER, amount, memo)]
    case Transfer(to, amount, memo) => [Post(e, e.actor, to, amount, memo)]
    case IssueUsd(to, cents, memo) => [Post(e, ISSUER, to, cents, memo).(usd := true)]
    case Purchase(listing) =>
      (match ListingAt(b.listings, listing)
       case None => []
       case Some(i) =>
         var l := b.listings[i];
         var (payer, payee) := DealParties(l.side, l.owner, e.actor);
         [Post(e, payer, payee, l.price, "Marketplace purchase").(listing := Some(listing))])
    case Reverse(transaction, memo) =>
      (match TransactionAt(b.history, transaction)
       case None => []
       case Some(i) =>
         var t := b.history[i];
         [Post(e, t.to, t.from, t.amount, memo).(reverses := Some(transaction), listing := t.listing, usd := t.usd)])
    case TakeQuote(quote) =>
      (match QuoteAt(b.quotes, quote)
       case None => []
       case Some(i) =>
         var q := b.quotes[i];
         var (seller, buyer) := q.Parties(e.actor);
         var coin := Post(e, seller, buyer, q.coins, "Exchange").(quote := Some(q.id));
         [coin, coin.(id := CashLeg(e.sequence), from := buyer, to := seller, amount := q.Cents(), usd := true)])
    case AcceptOffer(offer) =>
      (match OfferAt(b.offers, offer)
       case None => []
       case Some(i) =>
         var o := b.offers[i];
         match ListingAt(b.listings, o.listing)
         case None => []
         case Some(k) =>
           var l := b.listings[k];
           var (payer, payee) := DealParties(l.side, o.owner, o.offerer);
           [Post(e, payer, payee, o.amount, l.title).(listing := Some(l.id))])
    case UnacceptOffer(offer, reason) =>
      (match OfferAt(b.offers, offer)
       case None => []
       case Some(i) =>
         var o := b.offers[i];
         if o.Settled() then
           var s := o.phase.settlement;
           [Post(e, s.payee, s.payer, o.amount, reason).(reverses := Some(s.transaction), listing := Some(o.listing))]
         else [])
    case _ => []
  }

  /** The transaction an event marks reversed in the retained history. */
  function Corrected(b: Books, e: Event): Option<nat> {
    match e.command
    case Reverse(transaction, _) => Some(transaction)
    case UnacceptOffer(offer, _) =>
      (match OfferAt(b.offers, offer)
       case None => None
       case Some(i) => if b.offers[i].Settled() then Some(b.offers[i].phase.settlement.transaction) else None)
    case _ => None
  }

  // ---- What an event leaves behind ----

  function NewMember(b: Books, e: Event, name: string, username: string, role: Role,
                     password: Option<PasswordVerifier>, tokenHash: Digest): Member
  {
    Member(|b.members| + 1, name, username, role, false, password, 0, 0, e.timestamp, 0, tokenHash, Zero, 0)
  }

  function Migrated(m: Member, username: string, password: PasswordVerifier): Member {
    m.(username := username, password := Some(password), tokenHash := Zero)
  }

  function Updated(m: Member, name: Option<string>, password: Option<PasswordVerifier>, role: Option<Role>,
                   disabled: Option<bool>): Member
  {
    m.(name := Amend(m.name, name),
       password := if password.Some? then password else m.password,
       tokenHash := if password.Some? then Zero else m.tokenHash,
       role := Amend(m.role, role),
       disabled := Amend(m.disabled, disabled))
  }

  /** Accounts opened or edited by an event, before its postings. */
  function NextAccounts(b: Books, e: Event): seq<Member> {
    match e.command
    case Provision(_, username, displayName, password) =>
      b.members + [NewMember(b, e, displayName, username, Nana, Some(password), Zero)]
    case CreateMember(username, displayName, password, role, _) =>
      b.members + [NewMember(b, e, displayName, username, role, Some(password), Zero)]
    case AddMember(name, tokenHash) =>
      b.members + [NewMember(b, e, name, "", if b.members == [] then Nana else User, None, tokenHash)]
    case UpdateMember(member, name, password, role, disabled) =>
      (match MemberAt(b.members, member)
       case None => b.members
       case Some(i) => b.members[i := Updated(b.members[i], name, password, role, disabled)])
    case MigrateMember(member, username, password) =>
      (match MemberAt(b.members, member)
       case None => b.members
       case Some(i) => b.members[i := Migrated(b.members[i], username, password)])
    case _ => b.members
  }

  /** The actor's retry watermark moves to this event. */
  function Watermark(members: seq<Member>, e: Event): (r: seq<Member>)
    ensures |r| == |members|
  {
    match MemberAt(members, e.actor)
    case None => members
    case Some(i) =>
      members[i := members[i].(lastRequest := e.requestId, lastCommand := Fingerprint(e.command),
                               lastSequence := e.sequence)]
  }

  function NextHousehold(b: Books, e: Event): string {
    match e.command
    case Provision(household, _, _, _) => household
    case Configure(household, _, _, _) => household
    case MigrateMember(_, _, _) => if b.household == "" then "NanaCoin" else b.household
    case _ => b.household
  }

  function NextWindow(b: Books, e: Event): nat {
    match e.command
    case Configure(_, _, _, Some(seconds)) => if seconds == 0 then DEFAULT_SETTLEMENT else seconds
    case _ => b.settlesAfter
  }

  /** The whole effect of an event that has been admitted. */
  function Apply(b: Books, e: Event): Books {
    var txs := Posted(b, e);
    Books(
      household := NextHousehold(b, e),
      initialGrant := if e.command.Configure? then e.command.initialGrant else b.initialGrant,
      currency := if e.command.Configure? then e.command.currency else b.currency,
      settlesAfter := NextWindow(b, e),
      offers := NextOffers(b, e),
      lastTimestamp := e.timestamp,
      sequence := e.sequence,
      transactions := b.transactions + |txs|,
      issuance := b.issuance + Net(txs, ISSUER, false),
      usdIssuance := b.usdIssuance + Net(txs, ISSUER, true),
      quotes := NextQuotes(b, e),
      members := Watermark(Settle(NextAccounts(b, e), txs), e),
      listings := NextListings(b, e),
      history := Recent(MarkReversed(b.history, Corrected(b, e)) + txs))
  }

  // ---- Replay, retry and the self-check ----

  function Replay(b: Books, e: Event): Result<Books, Error> {
    if !(e.version == 1 && Some(e.sequence) == NextSequence(b.sequence) && e.sequence <= MAX_SEQUENCE
            && 1 <= e.requestId <= MAX_SEQUENCE) then Failure(CorruptJournal)
    else
      var _ :- (if b.members == [] then Success(()) else
                  var m :- FindMember(b, e.actor);
                  :- Need(m.lastRequest < e.requestId, CorruptJournal);
                  Success(()));
      :- Need(b.lastTimestamp <= e.timestamp, CorruptJournal);
      var _ :- ValidateAt(b, e.actor, e.command, e.timestamp);
      Success(Apply(b, e))
  }

  function Retry(b: Books, actor: MemberId, requestId: nat, c: Command): Result<Option<Receipt>, Error> {
    if !(1 <= requestId <= MAX_SEQUENCE) then Failure(InvalidInput)
    else if b.members == [] then Success(None)
    else
      var m :- FindMember(b, actor);
      :- Need(m.lastRequest <= requestId, StaleRequest);
      if requestId == m.lastRequest then
        :- Need(m.lastCommand == Fingerprint(c), Conflict);
        Success(Some(Receipt(m.lastSequence, true)))
      else Success(None)
  }

  /** `try_fold` over the members: None on an out-of-range balance or an overflowing sum. */
  function BalanceSum(members: seq<Member>, start: int, usd: bool): Option<int> {
    if members == [] then Some(start)
    else
      var balance := members[0].Holds(usd);
      if balance < -MAX_SEQUENCE || MAX_SEQUENCE < balance then None
      else if CheckedAdd(start, balance).Failure? then None
      else BalanceSum(members[1..], start + balance, usd)
  }

  function CheckInvariants(b: Books): Result<(), Error> {
    if BalanceSum(b.members, b.issuance, false) == Some(0) && BalanceSum(b.members, b.usdIssuance, true) == Some(0)
    then Success(())
    else Failure(CorruptJournal)
  }

  // ---- Live admission ----

  /** `Service::now`: a clock behind the last durable event reads as 0. */
  function NowFrom(clock: nat, lastTimestamp: nat): nat {
    if clock < lastTimestamp then 0 else clock
  }

  /** Event `e` is what a live commit on `b` may journal when the clock reads `clock`. */
  predicate Admissible(b: Books, e: Event, clock: nat) {
    && e.version == 1
    && Some(e.sequence) == NextSequence(b.sequence)
    && 1 <= e.requestId <= MAX_SEQUENCE
    && (b.members != [] ==> FindMember(b, e.actor).Success? && FindMember(b, e.actor).value.lastRequest < e.requestId)
    && e.timestamp == Max(NowFrom(clock, b.lastTimestamp), b.lastTimestamp)
    && ValidateAt(b, e.actor, e.command, NowFrom(clock, b.lastTimestamp)).Success?
  }
}
