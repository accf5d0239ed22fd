/** What every command does, read off the books before and after it: whose balance moves by how much, and what becomes
    of each account, listing, offer and quote. */
module Effects {
  import opened Wrappers
  import opened Types
  import opened Postings
  import opened Offers
  import opened Forex
  import opened Domain
  import opened Admission
  import opened Accounts
  import opened Reversals
  import opened Sales
  import opened QuoteBook
  import opened Runs

  // ---- Balances ----

  /** What an account gains when `amount` goes from one account to another. */
  function Gain(id: MemberId, from: MemberId, to: MemberId, amount: int): int {
    (if id == to then amount else 0) - (if id == from then amount else 0)
  }

  /** Exactly `amount` coins go from one account to another: no other balance of coins moves, and a new account had
      none. */
  ghost predicate CoinsMove(b: Books, b': Books, from: MemberId, to: MemberId, amount: int) {
    && b'.issuance == b.issuance + Gain(ISSUER, from, to, amount)
    && |b.members| <= |b'.members|
    && forall i :: 0 <= i < |b'.members| ==>
         b'.members[i].balance == (if i < |b.members| then b.members[i].balance else 0) + Gain(i + 1, from, to, amount)
  }

  /** The same for cents. */
  ghost predicate CentsMove(b: Books, b': Books, from: MemberId, to: MemberId, amount: int) {
    && b'.usdIssuance == b.usdIssuance + Gain(ISSUER, from, to, amount)
    && |b.members| <= |b'.members|
    && forall i :: 0 <= i < |b'.members| ==>
         b'.members[i].usdCents ==
           (if i < |b.members| then b.members[i].usdCents else 0) + Gain(i + 1, from, to, amount)
  }

  ghost predicate NoCoinsMove(b: Books, b': Books) {
    CoinsMove(b, b', ISSUER, ISSUER, 0)
  }

  ghost predicate NoCentsMove(b: Books, b': Books) {
    CentsMove(b, b', ISSUER, ISSUER, 0)
  }

  lemma AdmittedNow(b: Books, life: seq<Transaction>, e: Event, clock: nat)
    requires HouseInv(b, life) && Admissible(b, e, clock)
    ensures Numbered(b.members) && Admitted(b, e, NowFrom(clock, b.lastTimestamp))
  {
    hide Admitted, ValidateAt;
    ValidatedIsAdmitted(b, e, NowFrom(clock, b.lastTimestamp));
  }

  lemma MoneyAfter(b: Books, life: seq<Transaction>, e: Event, clock: nat)
    requires HouseInv(b, life) && Admissible(b, e, clock)
    ensures var b' := Apply(b, e);
            && |b.members| <= |b'.members|
            && b'.issuance == b.issuance + Net(Posted(b, e), ISSUER, false)
            && b'.usdIssuance == b.usdIssuance + Net(Posted(b, e), ISSUER, true)
            && forall i :: 0 <= i < |b'.members| ==>
                 && b'.members[i].balance ==
                    (if i < |b.members| then b.members[i].balance else 0) + Net(Posted(b, e), i + 1, false)
                 && b'.members[i].usdCents ==
                    (if i < |b.members| then b.members[i].usdCents else 0) + Net(Posted(b, e), i + 1, true)
  {
    hide HouseInv, Apply, Posted, Admissible, Admitted, Net, NextAccounts;
    var now := NowFrom(clock, b.lastTimestamp);
    AdmittedNow(b, life, e, clock);
    NextAccountsKeep(b, e, now);
    AppliedBalance(b, e, now, ISSUER, false);
    AppliedBalance(b, e, now, ISSUER, true);
    var b' := Apply(b, e);
    forall i | 0 <= i < |b'.members|
      ensures b'.members[i].balance ==
              (if i < |b.members| then b.members[i].balance else 0) + Net(Posted(b, e), i + 1, false)
      ensures b'.members[i].usdCents ==
              (if i < |b.members| then b.members[i].usdCents else 0) + Net(Posted(b, e), i + 1, true)
    {
      AppliedBalance(b, e, now, i + 1, false);
      AppliedBalance(b, e, now, i + 1, true);
    }
  }

  /** One coin row, one cash row, one of each, or none. */
  lemma RowsMove(b: Books, life: seq<Transaction>, e: Event, clock: nat)
    requires HouseInv(b, life) && Admissible(b, e, clock)
    ensures var (b', txs) := (Apply(b, e), Posted(b, e));
            && (|txs| == 0 ==> NoCoinsMove(b, b') && NoCentsMove(b, b'))
            && (|txs| == 1 && !txs[0].usd ==>
                  CoinsMove(b, b', txs[0].from, txs[0].to, txs[0].amount) && NoCentsMove(b, b'))
            && (|txs| == 1 && txs[0].usd ==>
                  CentsMove(b, b', txs[0].from, txs[0].to, txs[0].amount) && NoCoinsMove(b, b'))
            && (|txs| == 2 && !txs[0].usd && txs[1].usd ==>
                  && CoinsMove(b, b', txs[0].from, txs[0].to, txs[0].amount)
                  && CentsMove(b, b', txs[1].from, txs[1].to, txs[1].amount))
  {
    hide HouseInv, Admissible, Apply, Posted, Net;
    MoneyAfter(b, life, e, clock);
    var txs := Posted(b, e);
    forall id: MemberId, usd: bool | |txs| <= 2
      ensures Net(txs, id, usd) == (if |txs| > 0 then Delta(txs[0], id, usd) else 0)
                                   + (if |txs| > 1 then Delta(txs[1], id, usd) else 0)
    {
      NetOfPosted(txs, id, usd);
    }
  }

  /** The newest row of the history. */
  ghost predicate Newest(b: Books, tx: Transaction) {
    b.history != [] && b.history[|b.history| - 1] == tx
  }

  lemma LastRowIsNewest(b: Books, e: Event)
    requires Posted(b, e) != []
    ensures Newest(Apply(b, e), Posted(b, e)[|Posted(b, e)| - 1])
  {
    hide Posted, NextOffers, NextListings, NextQuotes, NextAccounts, NextHousehold, NextWindow, Corrected, Watermark,
      Settle,
      MarkReversed;
  }

  /** A transfer takes the amount asked for from its sender and gives it to its recipient. */
  lemma TransferPays(b: Books, life: seq<Transaction>, e: Event, clock: nat)
    requires HouseInv(b, life) && Admissible(b, e, clock) && e.command.Transfer?
    ensures var (c, b') := (e.command, Apply(b, e));
            && CoinsMove(b, b', e.actor, c.to, c.amount) && NoCentsMove(b, b')
            && Newest(b', Transaction(e.sequence, e.actor, e.timestamp, e.actor, c.to, c.amount, c.memo, None, false,
                                      None,
                                      false, None))
  {
    hide HouseInv, Admissible, Apply, CoinsMove, CentsMove;
    RowsMove(b, life, e, clock);
    LastRowIsNewest(b, e);
  }

  /** An issue creates coins for its recipient, a retirement takes them back. */
  lemma IssueAndRetirePay(b: Books, life: seq<Transaction>, e: Event, clock: nat)
    requires HouseInv(b, life) && Admissible(b, e, clock) && (e.command.Issue? || e.command.Retire?)
    ensures var (c, b') := (e.command, Apply(b, e));
            && NoCentsMove(b, b')
            && (c.Issue? ==> CoinsMove(b, b', ISSUER, c.to, c.amount))
            && (c.Retire? ==> CoinsMove(b, b', c.from, ISSUER, c.amount))
            && var (from, to) := if c.Issue? then (ISSUER, c.to) else (c.from, ISSUER);
               Newest(b', Transaction(e.sequence, e.actor, e.timestamp, from, to, c.amount, c.memo, None, false, None,
                                      false,
                                      None))
  {
    hide HouseInv, Admissible, Apply, CoinsMove, CentsMove;
    RowsMove(b, life, e, clock);
    LastRowIsNewest(b, e);
  }

  /** Cash is issued in cents, and moves no coin. */
  lemma IssueUsdPays(b: Books, life: seq<Transaction>, e: Event, clock: nat)
    requires HouseInv(b, life) && Admissible(b, e, clock) && e.command.IssueUsd?
    ensures var (c, b') := (e.command, Apply(b, e));
            && CentsMove(b, b', ISSUER, c.to, c.cents) && NoCoinsMove(b, b')
            && Newest(b', Transaction(e.sequence, e.actor, e.timestamp, ISSUER, c.to, c.cents, c.memo, None, false,
                                      None,
                                      true, None))
  {
    hide HouseInv, Admissible, Apply, CoinsMove, CentsMove;
    RowsMove(b, life, e, clock);
    LastRowIsNewest(b, e);
  }

  /** A new member starts with exactly the grant, created for it. */
  lemma GrantPays(b: Books, life: seq<Transaction>, e: Event, clock: nat)
    requires HouseInv(b, life) && Admissible(b, e, clock) && e.command.CreateMember?
    ensures CoinsMove(b, Apply(b, e), ISSUER, |b.members| + 1, e.command.grant) && NoCentsMove(b, Apply(b, e))
  {
    hide HouseInv, Admissible, Apply;
    RowsMove(b, life, e, clock);
    GrantIsNotNegative(b, e, clock);
  }

  lemma GrantIsNotNegative(b: Books, e: Event, clock: nat)
    requires Admissible(b, e, clock) && e.command.CreateMember?
    ensures 0 <= e.command.grant
  {
  }

  /** A purchase pays the listing's price: from the buyer to the owner of a listing that sells, from the owner of a
      listing that buys to whoever takes it up. */
  lemma PurchasePays(b: Books, life: seq<Transaction>, e: Event, clock: nat, i: nat)
    requires HouseInv(b, life) && Admissible(b, e, clock) && e.command.Purchase?
    requires i < |b.listings| && b.listings[i].id == e.command.listing
    ensures var (l, b') := (b.listings[i], Apply(b, e));
            && NoCentsMove(b, b')
            && (if l.side.Sell? then CoinsMove(b, b', e.actor, l.owner, l.price)
                else CoinsMove(b, b', l.owner, e.actor, l.price))
  {
    hide HouseInv, Admissible, Apply, CoinsMove, CentsMove;
    RowsMove(b, life, e, clock);
    OneListing(b, life, i);
  }

  lemma OneListing(b: Books, life: seq<Transaction>, i: nat)
    requires HouseInv(b, life) && i < |b.listings|
    ensures ListingAt(b.listings, b.listings[i].id) == Some(i)
  {
    hide AccountsInv, LedgerInv, QuotesInv;
    UniqueListing(b, i, ListingAt(b.listings, b.listings[i].id).value);
  }

  lemma OneOffer(b: Books, life: seq<Transaction>, i: nat)
    requires HouseInv(b, life) && i < |b.offers|
    ensures OfferAt(b.offers, b.offers[i].id) == Some(i)
  {
    hide AccountsInv, LedgerInv, QuotesInv;
    UniqueOffer(b, i, OfferAt(b.offers, b.offers[i].id).value);
  }

  lemma OneQuote(b: Books, life: seq<Transaction>, i: nat)
    requires HouseInv(b, life) && i < |b.quotes|
    ensures QuoteAt(b.quotes, b.quotes[i].id) == Some(i)
  {
    hide AccountsInv, LedgerInv, SalesInv;
    UniqueQuote(b.quotes, i, QuoteAt(b.quotes, b.quotes[i].id).value);
  }

  /** A reversal pays back exactly what the row moved, in the row's own currency. */
  lemma ReversePaysBack(b: Books, life: seq<Transaction>, e: Event, clock: nat)
    requires HouseInv(b, life) && Admissible(b, e, clock) && e.command.Reverse?
    ensures exists i :: 0 <= i < |b.history| && b.history[i].id == e.command.transaction && !b.history[i].reversed
                        && var (t, b') := (b.history[i], Apply(b, e));
                           if t.usd then CentsMove(b, b', t.to, t.from, t.amount) && NoCoinsMove(b, b')
                           else CoinsMove(b, b', t.to, t.from, t.amount) && NoCentsMove(b, b')
  {
    hide HouseInv, Admissible, Apply, CoinsMove, CentsMove;
    RowsMove(b, life, e, clock);
    ReversedRow(b, e, clock);
    var i := TransactionAt(b.history, e.command.transaction).value;
    assert b.history[i].id == e.command.transaction;
  }

  lemma ReversedRow(b: Books, e: Event, clock: nat)
    requires Admissible(b, e, clock) && e.command.Reverse?
    ensures var i := TransactionAt(b.history, e.command.transaction); i.Some? && !b.history[i.value].reversed
  {
  }

  /** Accepting an offer pays the offered amount, by the listing's side, between its owner and the offerer. */
  lemma AcceptPays(b: Books, life: seq<Transaction>, e: Event, clock: nat, i: nat, k: nat)
    requires HouseInv(b, life) && Admissible(b, e, clock) && e.command.AcceptOffer?
    requires i < |b.offers| && b.offers[i].id == e.command.offer
    requires k < |b.listings| && b.listings[k].id == b.offers[i].listing
    ensures var (o, l, b') := (b.offers[i], b.listings[k], Apply(b, e));
            && NoCentsMove(b, b')
            && (if l.side.Sell? then CoinsMove(b, b', o.offerer, o.owner, o.amount)
                else CoinsMove(b, b', o.owner, o.offerer, o.amount))
  {
    hide HouseInv, Admissible, Apply, CoinsMove, CentsMove;
    RowsMove(b, life, e, clock);
    OneOffer(b, life, i);
    OneListing(b, life, k);
  }

  /** Undoing an accepted offer pays its amount back from whom it was paid to. */
  lemma UndoPaysBack(b: Books, life: seq<Transaction>, e: Event, clock: nat, i: nat)
    requires HouseInv(b, life) && Admissible(b, e, clock) && e.command.UnacceptOffer?
    requires i < |b.offers| && b.offers[i].id == e.command.offer
    ensures b.offers[i].phase.Accepted?
    ensures var (o, b') := (b.offers[i], Apply(b, e));
            CoinsMove(b, b', o.phase.settlement.payee, o.phase.settlement.payer, o.amount) && NoCentsMove(b, b')
  {
    hide HouseInv, Admissible, Apply, CoinsMove, CentsMove;
    RowsMove(b, life, e, clock);
    OneOffer(b, life, i);
    UndoneIsAccepted(b, e, clock);
  }

  lemma UndoneIsAccepted(b: Books, e: Event, clock: nat)
    requires Admissible(b, e, clock) && e.command.UnacceptOffer?
    ensures var i := OfferAt(b.offers, e.command.offer); i.Some? && b.offers[i.value].phase.Accepted?
  {
  }

  /** Taking a quote moves its coins one way and their price in cents the other. */
  lemma TakePays(b: Books, life: seq<Transaction>, e: Event, clock: nat, i: nat)
    requires HouseInv(b, life) && Admissible(b, e, clock) && e.command.TakeQuote?
    requires i < |b.quotes| && b.quotes[i].id == e.command.quote
    ensures var (q, b') := (b.quotes[i], Apply(b, e));
            var (seller, buyer) := if q.side.Ask? then (q.maker, e.actor) else (e.actor, q.maker);
            && CoinsMove(b, b', seller, buyer, q.coins)
            && CentsMove(b, b', buyer, seller, q.coins * q.centsPerCoin)
  {
    hide HouseInv, Admissible, Apply, CoinsMove, CentsMove;
    RowsMove(b, life, e, clock);
    OneQuote(b, life, i);
  }

  /** No other command moves any money. */
  lemma OthersPayNothing(b: Books, life: seq<Transaction>, e: Event, clock: nat)
    requires HouseInv(b, life) && Admissible(b, e, clock)
    requires var c := e.command;
             && !c.Transfer? && !c.Issue? && !c.Retire? && !c.IssueUsd? && !c.CreateMember? && !c.Purchase?
             && !c.Reverse? && !c.AcceptOffer? && !c.UnacceptOffer? && !c.TakeQuote?
    ensures NoCoinsMove(b, Apply(b, e)) && NoCentsMove(b, Apply(b, e))
  {
    hide HouseInv, Admissible, Apply, CoinsMove, CentsMove;
    RowsMove(b, life, e, clock);
  }

  // ---- Accounts ----

  /** Everything about an account but its balances and its retry watermark. */
  predicate SameAccount(m: Member, m': Member) {
    && m'.id == m.id && m'.name == m.name && m'.username == m.username && m'.role == m.role
    && m'.disabled == m.disabled && m'.password == m.password && m'.createdAt == m.createdAt
    && m'.tokenHash == m.tokenHash
  }

  lemma AccountAfter(b: Books, e: Event, i: nat)
    requires i < |NextAccounts(b, e)|
    ensures |Apply(b, e).members| == |NextAccounts(b, e)|
    ensures SameAccount(NextAccounts(b, e)[i], Apply(b, e).members[i])
  {
    hide Posted, NextAccounts, NextOffers, NextListings, NextQuotes, NextHousehold, NextWindow, Corrected, Net;
  }

  /** An update sets exactly what it gives, on exactly the member it names; a new password also retires the old token.
      */
  lemma UpdateTakesEffect(b: Books, life: seq<Transaction>, e: Event, clock: nat, i: nat)
    requires HouseInv(b, life) && Admissible(b, e, clock) && e.command.UpdateMember? && i < |b.members|
    ensures |Apply(b, e).members| == |b.members|
    ensures var (c, m, m') := (e.command, b.members[i], Apply(b, e).members[i]);
            if i + 1 != c.member then SameAccount(m, m')
            else
              && m'.id == m.id && m'.username == m.username && m'.createdAt == m.createdAt
              && (if c.newName.Some? then m'.name == c.newName.value else m'.name == m.name)
              && (if c.newPassword.Some? then m'.password == c.newPassword && m'.tokenHash == Zero
                  else m'.password == m.password && m'.tokenHash == m.tokenHash)
              && (if c.newRole.Some? then m'.role == c.newRole.value else m'.role == m.role)
              && (if c.newDisabled.Some? then m'.disabled == c.newDisabled.value else m'.disabled == m.disabled)
  {
    hide Admissible, Apply, LedgerInv, SalesInv, QuotesInv;
    MemberIndex(b.members, e.command.member);
    AccountAfter(b, e, i);
  }

  /** A founder, a created member and a legacy member: each takes the next number, and nobody else's account changes. */
  lemma MembersJoin(b: Books, e: Event, clock: nat)
    requires Admissible(b, e, clock) && (e.command.Provision? || e.command.CreateMember? || e.command.AddMember?)
    ensures |Apply(b, e).members| == |b.members| + 1
    ensures forall i :: 0 <= i < |b.members| ==> SameAccount(b.members[i], Apply(b, e).members[i])
    ensures var (c, m) := (e.command, Apply(b, e).members[|b.members|]);
            && m.id == |b.members| + 1 && !m.disabled && m.createdAt == e.timestamp
            && match c
               case Provision(_, username, name, password) =>
                 && m.username == username && m.name == name && m.password == Some(password) && m.role == Nana
                 && m.tokenHash == Zero
               case CreateMember(username, name, password, role, _) =>
                 && m.username == username && m.name == name && m.password == Some(password) && m.role == role
                 && m.tokenHash == Zero
               case AddMember(name, token) =>
                 && m.username == "" && m.name == name && m.password == None && m.tokenHash == token
                 && m.role == if b.members == [] then Nana else User
               case _ => true
  {
    hide Admissible, Apply, SameAccount;
    AccountAfter(b, e, |b.members|);
    forall i | 0 <= i < |b.members| ensures SameAccount(b.members[i], Apply(b, e).members[i]) {
      AccountAfter(b, e, i);
    }
    JoinedAccount(b, e);
  }

  lemma JoinedAccount(b: Books, e: Event)
    requires e.command.Provision? || e.command.CreateMember? || e.command.AddMember?
    requires |Apply(b, e).members| == |NextAccounts(b, e)|
    requires SameAccount(NextAccounts(b, e)[|b.members|], Apply(b, e).members[|b.members|])
    ensures var (m, m') := (NextAccounts(b, e)[|b.members|], Apply(b, e).members[|b.members|]);
            && m'.id == m.id && m'.name == m.name && m'.username == m.username && m'.role == m.role
            && m'.disabled == m.disabled && m'.password == m.password && m'.createdAt == m.createdAt
            && m'.tokenHash == m.tokenHash
  {
    hide Apply;
  }

  /** A migration gives its member a username and a password in place of the token; no other account changes. */
  lemma MigrationTakesEffect(b: Books, life: seq<Transaction>, e: Event, clock: nat, i: nat)
    requires HouseInv(b, life) && Admissible(b, e, clock) && e.command.MigrateMember? && i < |b.members|
    ensures |Apply(b, e).members| == |b.members|
    ensures var (c, m, m') := (e.command, b.members[i], Apply(b, e).members[i]);
            if i + 1 != c.member then SameAccount(m, m')
            else SameAccount(m.(username := c.username, password := Some(c.password), tokenHash := Zero), m')
  {
    hide Admissible, Apply, LedgerInv, SalesInv, QuotesInv;
    MemberIndex(b.members, e.command.member);
    AccountAfter(b, e, i);
  }

  /** No other command touches an account. */
  lemma AccountsStay(b: Books, e: Event, i: nat)
    requires var c := e.command;
             !c.Provision? && !c.CreateMember? && !c.AddMember? && !c.UpdateMember? && !c.MigrateMember?
    requires i < |b.members|
    ensures |Apply(b, e).members| == |b.members| && SameAccount(b.members[i], Apply(b, e).members[i])
  {
    hide Apply;
    AccountAfter(b, e, i);
  }

  /** The household's own settings: its name, grant and currency, and the window in which a deal can be undone. */
  lemma SettingsAfter(b: Books, e: Event)
    ensures var (c, b') := (e.command, Apply(b, e));
            && b'.lastTimestamp == e.timestamp && b'.sequence == e.sequence
            && match c
               case Provision(household, _, _, _) =>
                 && b'.household == household && b'.initialGrant == b.initialGrant && b'.currency == b.currency
                 && b'.settlesAfter == b.settlesAfter
               case Configure(household, grant, currency, window) =>
                 && b'.household == household && b'.initialGrant == grant && b'.currency == currency
                 && (window.None? ==> b'.settlesAfter == b.settlesAfter)
                 && (window == Some(0) ==> b'.settlesAfter == 172_800)
                 && (window.Some? && window.value > 0 ==> b'.settlesAfter == window.value)
               case _ =>
                 && b'.initialGrant == b.initialGrant && b'.currency == b.currency && b'.settlesAfter == b.settlesAfter
                 && (b'.household == b.household
                     || (c.MigrateMember? && b.household == "" && b'.household == "NanaCoin"))
  {
    hide Posted, NextAccounts, NextOffers, NextListings, NextQuotes, Corrected, Watermark, Settle, Net, MarkReversed;
  }

  // ---- Listings, offers and quotes ----

  /** A new listing is on the books as its owner described it. */
  lemma ListingAppears(b: Books, e: Event)
    requires e.command.List?
    ensures var (c, ls) := (e.command, Apply(b, e).listings);
            && ls != []
            && ls[|ls| - 1] == Listing(e.sequence, e.actor, c.title, c.description, c.price, c.side, Active, None, None,
                                       if c.details.Some? then c.details.value else ListingDetails("", "", 0),
                                       e.timestamp, e.timestamp)
  {
    hide Posted, NextAccounts, NextOffers, NextQuotes, Corrected, Watermark, Settle, Net, MarkReversed, NextHousehold,
      NextWindow;
  }

  predicate HasListing(b: Books, id: nat) {
    exists k :: 0 <= k < |b.listings| && b.listings[k].id == id
  }

  predicate HasOffer(b: Books, id: nat) {
    exists i :: 0 <= i < |b.offers| && b.offers[i].id == id
  }

  /** The deal an acceptance or an undo concerns is on the books, with its listing. */
  lemma DealIsThere(b: Books, life: seq<Transaction>, e: Event, clock: nat)
    requires HouseInv(b, life) && Admissible(b, e, clock) && (e.command.AcceptOffer? || e.command.UnacceptOffer?)
    ensures HasOffer(b, e.command.offer)
    ensures forall i :: 0 <= i < |b.offers| && b.offers[i].id == e.command.offer ==> HasListing(b, b.offers[i].listing)
  {
    hide HouseInv, Admissible, GoodPostings;
    AdmittedNow(b, life, e, clock);
    forall i | 0 <= i < |b.offers| && b.offers[i].id == e.command.offer ensures HasListing(b, b.offers[i].listing) {
      OneOffer(b, life, i);
    }
  }

  /** What becomes of each listing: cancelled, edited, sold to whoever pays, reopened, or left alone. */
  lemma ListingAfter(b: Books, life: seq<Transaction>, e: Event, clock: nat, k: nat)
    requires HouseInv(b, life) && Admissible(b, e, clock) && !e.command.List? && k < |b.listings|
    ensures |Apply(b, e).listings| == |b.listings|
    ensures var (l, l') := (b.listings[k], Apply(b, e).listings[k]);
            match e.command
            case Cancel(id) =>
              l' == if id == l.id then l.(status := ListingStatus.Cancelled, updatedAt := e.timestamp) else l
            case UpdateListing(id, title, description, price) =>
              if id != l.id then l' == l
              else
                && (if title.Some? then l'.title == title.value else l'.title == l.title)
                && (if description.Some? then l'.description == description.value else l'.description == l.description)
                && (if price.Some? then l'.price == price.value else l'.price == l.price)
                && l' == l.(title := l'.title, description := l'.description, price := l'.price,
                            updatedAt := e.timestamp)
            case Purchase(id) =>
              l' == if id != l.id then l
                    else l.(status := Sold, buyer := Some(if l.side.Sell? then e.actor else l.owner),
                            soldTx := Some(e.sequence), updatedAt := e.timestamp)
            case AcceptOffer(offer) =>
              HasOffer(b, offer) && forall i :: 0 <= i < |b.offers| && b.offers[i].id == offer ==>
                l' == if b.offers[i].listing != l.id then l
                      else l.(status := Sold,
                              buyer := Some(if l.side.Sell? then b.offers[i].offerer else b.offers[i].owner),
                              soldTx := Some(e.sequence), updatedAt := e.timestamp)
            case UnacceptOffer(offer, _) =>
              HasOffer(b, offer) && forall i :: 0 <= i < |b.offers| && b.offers[i].id == offer ==>
                l' == if b.offers[i].listing != l.id then l
                      else l.(status := Active, buyer := None, soldTx := None, updatedAt := e.timestamp)
            case _ => l' == l
  {
    hide HouseInv, Admissible, Apply;
    OneListing(b, life, k);
    if e.command.AcceptOffer? || e.command.UnacceptOffer? {
      DealIsThere(b, life, e, clock);
      forall i | 0 <= i < |b.offers| && b.offers[i].id == e.command.offer
        ensures OfferAt(b.offers, e.command.offer) == Some(i) {
        OneOffer(b, life, i);
      }
    }
    ListingsAre(b, e);
  }

  lemma ListingsAre(b: Books, e: Event)
    ensures Apply(b, e).listings == NextListings(b, e)
    ensures Apply(b, e).offers == NextOffers(b, e)
    ensures Apply(b, e).quotes == NextQuotes(b, e)
  {
    hide Posted, NextAccounts, NextOffers, NextListings, NextQuotes, NextHousehold, NextWindow, Corrected, Watermark,
      Settle,
      Net, MarkReversed;
  }

  /** A new offer is on the books as it was made, open, with the listing's owner. */
  lemma OfferAppears(b: Books, life: seq<Transaction>, e: Event, clock: nat, k: nat)
    requires HouseInv(b, life) && Admissible(b, e, clock) && e.command.MakeOffer?
    requires k < |b.listings| && b.listings[k].id == e.command.listing
    ensures var (c, os) := (e.command, Apply(b, e).offers);
            && os != []
            && os[|os| - 1] == Offer(e.sequence, c.listing, b.listings[k].owner, e.actor, c.amount, c.message,
                                     e.timestamp,
                                     e.timestamp, OfferPhase.Open)
  {
    hide HouseInv, Admissible, Apply;
    OneListing(b, life, k);
    ListingsAre(b, e);
  }

  /** What becomes of each offer: accepted until it settles, declined, withdrawn, reversed, or left alone. */
  lemma OfferAfter(b: Books, life: seq<Transaction>, e: Event, clock: nat, i: nat)
    requires HouseInv(b, life) && Admissible(b, e, clock) && !e.command.MakeOffer? && i < |b.offers|
    ensures |Apply(b, e).offers| == |b.offers|
    ensures var (o, o') := (b.offers[i], Apply(b, e).offers[i]);
            match e.command
            case AcceptOffer(id) =>
              if id != o.id then o' == o
              else
                HasListing(b, o.listing) && forall k :: 0 <= k < |b.listings| && b.listings[k].id == o.listing ==>
                  var (payer, payee) := if b.listings[k].side.Sell? then (o.offerer, o.owner) else (o.owner, o.offerer);
                  o' == o.(phase := Accepted(Settlement(e.sequence, payer, payee, e.timestamp + b.settlesAfter)),
                           updatedAt := e.timestamp)
            case DeclineOffer(id) => o' == if id == o.id then o.(phase := Declined, updatedAt := e.timestamp) else o
            case WithdrawOffer(id) => o' == if id == o.id then o.(phase := Withdrawn, updatedAt := e.timestamp) else o
            case UnacceptOffer(id, _) =>
              if id != o.id then o' == o
              else o.phase.Accepted? && o' == o.(phase := Reversed(o.phase.settlement), updatedAt := e.timestamp)
            case Reverse(id, _) =>
              o' == if o.phase.Accepted? && o.phase.settlement.transaction == id
                    then o.(phase := Reversed(o.phase.settlement), updatedAt := e.timestamp) else o
            case _ => o' == o
  {
    hide HouseInv, Admissible, Apply, NextOffers;
    ListingsAre(b, e);
    match e.command {
      case AcceptOffer(_) =>
        DealIsThere(b, life, e, clock);
        OfferAccepted(b, life, e, i);
      case UnacceptOffer(_, _) => OfferUndone(b, life, e, clock, i);
      case _ => OfferOtherwise(b, life, e, i);
    }
  }

  lemma OfferAccepted(b: Books, life: seq<Transaction>, e: Event, i: nat)
    requires HouseInv(b, life) && e.command.AcceptOffer? && i < |b.offers|
    ensures |NextOffers(b, e)| == |b.offers|
    ensures var (o, o') := (b.offers[i], NextOffers(b, e)[i]);
            if e.command.offer != o.id then o' == o
            else
              forall k :: 0 <= k < |b.listings| && b.listings[k].id == o.listing ==>
                var (payer, payee) := if b.listings[k].side.Sell? then (o.offerer, o.owner) else (o.owner, o.offerer);
                o' == o.(phase := Accepted(Settlement(e.sequence, payer, payee, e.timestamp + b.settlesAfter)),
                         updatedAt := e.timestamp)
  {
    hide HouseInv;
    OneOffer(b, life, i);
    forall k | 0 <= k < |b.listings| ensures ListingAt(b.listings, b.listings[k].id) == Some(k) {
      OneListing(b, life, k);
    }
  }

  lemma OfferUndone(b: Books, life: seq<Transaction>, e: Event, clock: nat, i: nat)
    requires HouseInv(b, life) && Admissible(b, e, clock) && e.command.UnacceptOffer? && i < |b.offers|
    ensures |NextOffers(b, e)| == |b.offers|
    ensures var (o, o') := (b.offers[i], NextOffers(b, e)[i]);
            if e.command.offer != o.id then o' == o
            else o.phase.Accepted? && o' == o.(phase := Reversed(o.phase.settlement), updatedAt := e.timestamp)
  {
    hide HouseInv, Admissible;
    OneOffer(b, life, i);
    UndoneIsAccepted(b, e, clock);
    var j := OfferAt(b.offers, e.command.offer).value;
    if i != j && b.offers[i].phase.Accepted? {
      OnlyOneUndone(b, life, j, i);
    }
  }

  lemma OfferOtherwise(b: Books, life: seq<Transaction>, e: Event, i: nat)
    requires HouseInv(b, life) && i < |b.offers|
    requires !e.command.MakeOffer? && !e.command.AcceptOffer? && !e.command.UnacceptOffer?
    ensures |NextOffers(b, e)| == |b.offers|
    ensures var (o, o') := (b.offers[i], NextOffers(b, e)[i]);
            match e.command
            case DeclineOffer(id) => o' == if id == o.id then o.(phase := Declined, updatedAt := e.timestamp) else o
            case WithdrawOffer(id) => o' == if id == o.id then o.(phase := Withdrawn, updatedAt := e.timestamp) else o
            case Reverse(id, _) =>
              o' == if o.phase.Accepted? && o.phase.settlement.transaction == id
                    then o.(phase := Reversed(o.phase.settlement), updatedAt := e.timestamp) else o
            case _ => o' == o
  {
    hide HouseInv;
    OneOffer(b, life, i);
  }

  lemma OnlyOneUndone(b: Books, life: seq<Transaction>, i: nat, j: nat)
    requires HouseInv(b, life) && i < |b.offers| && j < |b.offers| && i != j
    requires b.offers[i].phase.Accepted? && b.offers[j].phase.Accepted?
    ensures b.offers[i].phase.settlement.transaction != b.offers[j].phase.settlement.transaction
  {
    hide AccountsInv, LedgerInv, QuotesInv;
  }

  /** A new quote is on the books as it was posted. */
  lemma QuoteAppears(b: Books, e: Event)
    requires e.command.PostQuote?
    ensures var (c, qs) := (e.command, Apply(b, e).quotes);
            && qs != []
            && qs[|qs| - 1] == Quote(e.sequence, e.actor, c.quoteSide, c.centsPerCoin, c.coins, c.expiresAt,
                                     e.timestamp,
                                     e.timestamp, QuoteStatus.Open, None, None, None)
  {
    ListingsAre(b, e);
    hide Apply;
  }

  /** What becomes of each quote: filled by its taker with two rows, cancelled, or left alone. */
  lemma QuoteAfter(b: Books, life: seq<Transaction>, e: Event, clock: nat, i: nat)
    requires HouseInv(b, life) && Admissible(b, e, clock) && !e.command.PostQuote? && i < |b.quotes|
    ensures |Apply(b, e).quotes| == |b.quotes|
    ensures var (q, q') := (b.quotes[i], Apply(b, e).quotes[i]);
            match e.command
            case TakeQuote(id) =>
              q' == if id != q.id then q
                    else q.(status := Filled, taker := Some(e.actor), updatedAt := e.timestamp,
                            coinTx := Some(e.sequence), cashTx := Some(e.sequence + 4096))
            case CancelQuote(id) =>
              q' == if id == q.id then q.(status := QuoteStatus.Cancelled, updatedAt := e.timestamp) else q
            case _ => q' == q
  {
    hide HouseInv, Admissible, Apply;
    OneQuote(b, life, i);
    ListingsAre(b, e);
  }

  // ---- Making room ----

  /** `after` is `before` with one row dropped, if it was full, and the new row at the end. */
  ghost predicate OneIn<T>(before: seq<T>, after: seq<T>, room: nat, gone: nat) {
    && after != []
    && if |before| < room then after[..|after| - 1] == before
       else gone < |before| == room && after[..|after| - 1] == before[..gone] + before[gone + 1..]
  }

  /** A full table of 32 offers loses one that is declined, withdrawn, reversed or settled; no other offer is lost. */
  lemma OffersMakeRoom(b: Books, life: seq<Transaction>, e: Event, clock: nat) returns (gone: nat)
    requires HouseInv(b, life) && Admissible(b, e, clock) && e.command.MakeOffer?
    ensures OneIn(b.offers, Apply(b, e).offers, 32, gone)
    ensures |b.offers| == 32 ==>
              match b.offers[gone].phase
              case Open => false
              case Accepted(s) => s.settlesAt <= e.timestamp
              case _ => true
  {
    hide HouseInv, Admissible, Apply, GoodPostings, OldestRecyclable, ListingAt;
    AdmittedNow(b, life, e, clock);
    StampIs(b, e, clock);
    TablesFit(b, life);
    ListingsAre(b, e);
    gone := 0;
    if |b.offers| == 32 {
      gone := OldestRecyclable(b.offers, e.timestamp).value;
    }
  }

  lemma TablesFit(b: Books, life: seq<Transaction>)
    requires HouseInv(b, life)
    ensures |b.offers| <= 32 && |b.listings| <= 48 && |b.quotes| <= 16
  {
    hide AccountsInv, LedgerInv;
  }

  /** A command that needs the time is stamped with it. */
  lemma StampIs(b: Books, e: Event, clock: nat)
    requires Admissible(b, e, clock)
    ensures NowFrom(clock, b.lastTimestamp) <= e.timestamp
    ensures e.command.MakeOffer? || e.command.PostQuote? ==> NowFrom(clock, b.lastTimestamp) == e.timestamp
  {
    hide ValidateMembership, ValidateTrade;
  }

  /** A full table of 48 listings loses one that is sold or cancelled and that no deal inside its window needs. */
  lemma ListingsMakeRoom(b: Books, life: seq<Transaction>, e: Event, clock: nat) returns (gone: nat)
    requires HouseInv(b, life) && Admissible(b, e, clock) && e.command.List?
    ensures OneIn(b.listings, Apply(b, e).listings, 48, gone)
    ensures |b.listings| == 48 ==>
              && b.listings[gone].status != Active
              && forall i :: 0 <= i < |b.offers| && b.offers[i].listing == b.listings[gone].id
                             && b.offers[i].phase.Accepted? ==>
                   b.offers[i].phase.settlement.settlesAt <= e.timestamp
  {
    hide HouseInv, Admissible, Apply, GoodPostings, FirstRecyclable;
    AdmittedNow(b, life, e, clock);
    StampIs(b, e, clock);
    TablesFit(b, life);
    ListingsAre(b, e);
    gone := 0;
    if |b.listings| == 48 {
      gone := ListingToDrop(b, e, NowFrom(clock, b.lastTimestamp));
    }
  }

  /** A full book of 16 quotes loses one that is filled, cancelled or expired. */
  lemma QuotesMakeRoom(b: Books, life: seq<Transaction>, e: Event, clock: nat) returns (gone: nat)
    requires HouseInv(b, life) && Admissible(b, e, clock) && e.command.PostQuote?
    ensures OneIn(b.quotes, Apply(b, e).quotes, 16, gone)
    ensures |b.quotes| == 16 ==>
              b.quotes[gone].status == QuoteStatus.Open ==> 0 < b.quotes[gone].expiresAt <= e.timestamp
  {
    hide HouseInv, Admissible, Apply, GoodPostings, OldestDead;
    AdmittedNow(b, life, e, clock);
    StampIs(b, e, clock);
    TablesFit(b, life);
    ListingsAre(b, e);
    gone := 0;
    if |b.quotes| == 16 {
      gone := OldestDead(b.quotes, e.timestamp).value;
    }
  }
}
