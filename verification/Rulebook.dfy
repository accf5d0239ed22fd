/** Who may do what, and when: validation accepts a command exactly if this rule book does. */
module Rulebook {
  import opened Wrappers
  import opened Types
  import opened Postings
  import opened Offers
  import opened Forex
  import opened Domain
  import opened Admission
  import opened Accounts
  import opened Reversals
  import opened Sales
  import opened QuoteBook
  import opened Runs
  import opened Authority
  import opened Effects

  predicate Exists(b: Books, id: MemberId) {
    1 <= id <= |b.members|
  }

  predicate Enabled(b: Books, id: MemberId) {
    Exists(b, id) && !b.members[id - 1].disabled
  }

  /** An enabled Nana. */
  predicate Governs(b: Books, id: MemberId) {
    Exists(b, id) && b.members[id - 1].ActiveNana()
  }

  predicate IsAmount(amount: int) {
    1 <= amount <= 1_000_000_000
  }

  /** An ordinary payment: between two accounts, each the issuer's or an enabled member's, a member paying from a
      balance
      that covers it, and both balances staying within 2^53 - 1. */
  predicate Payable(b: Books, from: MemberId, to: MemberId, amount: int, usd: bool) {
    && from != to && IsAmount(amount)
    && (if from == ISSUER then b.Issued(usd) - amount >= -MAX_SEQUENCE
        else Enabled(b, from) && amount <= b.members[from - 1].Holds(usd))
    && (if to == ISSUER then b.Issued(usd) + amount <= MAX_SEQUENCE
        else Enabled(b, to) && b.members[to - 1].Holds(usd) + amount <= MAX_SEQUENCE)
  }

  /** A correction may overdraw, and takes from disabled members too. */
  predicate Correctable(b: Books, from: MemberId, to: MemberId, amount: int, usd: bool) {
    && from <= |b.members| && to <= |b.members|
    && from != to && IsAmount(amount)
    && Balance(b, from, usd) - amount >= -MAX_SEQUENCE && Balance(b, to, usd) + amount <= MAX_SEQUENCE
  }

  predicate FreshUsername(b: Books, username: string) {
    forall i :: 0 <= i < |b.members| ==> b.members[i].username != username
  }

  predicate OnTime(now: nat) {
    1_577_836_800 <= now <= MAX_SEQUENCE
  }

  /** The member is the only enabled Nana left. */
  predicate LastNana(b: Books, id: MemberId) {
    Governs(b, id) && forall i :: 0 <= i < |b.members| && i != id - 1 ==> !b.members[i].ActiveNana()
  }

  predicate MayManage(b: Books, actor: MemberId, c: Command, now: nat)
    requires IsMembership(c)
  {
    match c
    case Provision(household, username, name, password) =>
      && b.members == [] && actor == 1
      && ValidName(household) && ValidName(username) && ValidName(name) && password.rounds == 1000
    case AddMember(name, token) =>
      && (if b.members == [] then actor == 1 else Governs(b, actor))
      && !Blank(name) && token != Zero && |b.members| < 16
      && forall i :: 0 <= i < |b.members| ==> b.members[i].name != name && b.members[i].tokenHash != token
    case CreateMember(username, name, password, _, grant) =>
      && Governs(b, actor)
      && ValidName(username) && ValidName(name) && password.rounds == 1000 && FreshUsername(b, username)
      && |b.members| < 16 && 0 <= grant <= 1_000_000_000 && b.issuance - grant >= -MAX_SEQUENCE
    case Configure(household, grant, currency, window) =>
      && Governs(b, actor)
      && ValidName(household) && ValidName(currency) && 0 <= grant <= 1_000_000_000
      && (window.Some? ==> window.value == 0 || window.value + now <= MAX_SEQUENCE)
    case UpdateMember(member, name, password, role, disabled) =>
      && Enabled(b, actor) && Exists(b, member)
      && (actor != member || role.Some? || disabled.Some? ==> Governs(b, actor))
      && (name.Some? ==> ValidName(name.value))
      && (password.Some? ==> b.members[member - 1].password.Some? && password.value.rounds == 1000)
      && (role == Some(User) || disabled == Some(true) ==> !LastNana(b, member))
    case MigrateMember(member, username, password) =>
      && Enabled(b, actor) && (actor == member || Governs(b, actor))
      && Exists(b, member) && b.members[member - 1].password.None?
      && ValidName(username) && password.rounds == 1000 && FreshUsername(b, username)
  }

  predicate MayTrade(b: Books, actor: MemberId, c: Command, now: nat)
    requires IsTrade(c)
  {
    && Enabled(b, actor)
    && match c
       case Issue(to, amount, _) => Governs(b, actor) && to != ISSUER && Payable(b, ISSUER, to, amount, false)
       case Retire(from, amount, _) => Governs(b, actor) && from != ISSUER && Payable(b, from, ISSUER, amount, false)
       case Transfer(to, amount, _) => to != ISSUER && Payable(b, actor, to, amount, false)
       case List(title, _, price, _, details) =>
         && !Blank(title) && IsAmount(price) && (details.Some? ==> ValidDetails(details.value))
         && (|b.listings| < 48 || exists i :: 0 <= i < |b.listings| && ListingRecyclable(b.offers, b.listings[i], now))
       case Cancel(listing) =>
         exists i :: 0 <= i < |b.listings| && b.listings[i].id == listing && b.listings[i].status == Active
                     && (actor == b.listings[i].owner || Governs(b, actor))
       case UpdateListing(listing, title, _, price) =>
         && (title.Some? ==> !Blank(title.value)) && (price.Some? ==> IsAmount(price.value))
         && exists i :: 0 <= i < |b.listings| && b.listings[i].id == listing && b.listings[i].status == Active
                        && (actor == b.listings[i].owner || Governs(b, actor))
       case Purchase(listing) =>
         exists i :: 0 <= i < |b.listings| && b.listings[i].id == listing && b.listings[i].status == Active
                     && (if b.listings[i].side.Sell?
                         then Payable(b, actor, b.listings[i].owner, b.listings[i].price, false)
                         else Payable(b, b.listings[i].owner, actor, b.listings[i].price, false))
       case Reverse(transaction, _) =>
         && Governs(b, actor)
         && exists i :: 0 <= i < |b.history| && b.history[i].id == transaction && !b.history[i].reversed
                        && b.history[i].reverses.None?
                        && Correctable(b, b.history[i].to, b.history[i].from, b.history[i].amount, b.history[i].usd)
  }

  predicate MayDeal(b: Books, actor: MemberId, c: Command, now: nat)
    requires IsOfferCommand(c)
  {
    && Enabled(b, actor) && OnTime(now)
    && match c
       case MakeOffer(listing, amount, message) =>
         && IsAmount(amount) && !HasControl(message)
         && (|b.offers| < 32 || exists i :: 0 <= i < |b.offers| && b.offers[i].Recyclable(now))
         && exists i :: 0 <= i < |b.listings| && b.listings[i].id == listing && b.listings[i].status == Active
                        && actor != b.listings[i].owner
       case AcceptOffer(offer) =>
         && now + b.settlesAfter <= MAX_SEQUENCE
         && exists i, k :: 0 <= i < |b.offers| && 0 <= k < |b.listings|
                           && b.offers[i].id == offer && b.offers[i].phase.Open? && actor == b.offers[i].owner
                           && b.listings[k].id == b.offers[i].listing && b.listings[k].status == Active
                           && (if b.listings[k].side.Sell?
                               then Payable(b, b.offers[i].offerer, actor, b.offers[i].amount, false)
                               else Payable(b, actor, b.offers[i].offerer, b.offers[i].amount, false))
       case UnacceptOffer(offer, reason) =>
         && !HasControl(reason)
         && exists i :: 0 <= i < |b.offers| && b.offers[i].id == offer && b.offers[i].phase.Accepted?
                        && now < b.offers[i].phase.settlement.settlesAt
                        && (actor == b.offers[i].owner || actor == b.offers[i].offerer || Governs(b, actor))
                        && Correctable(b, b.offers[i].phase.settlement.payee, b.offers[i].phase.settlement.payer,
                                       b.offers[i].amount, false)
       case DeclineOffer(offer) =>
         exists i :: 0 <= i < |b.offers| && b.offers[i].id == offer && b.offers[i].phase.Open?
                     && (actor == b.offers[i].owner || Governs(b, actor))
       case WithdrawOffer(offer) =>
         exists i :: 0 <= i < |b.offers| && b.offers[i].id == offer && b.offers[i].phase.Open?
                     && (actor == b.offers[i].offerer || Governs(b, actor))
  }

  predicate MayExchange(b: Books, actor: MemberId, c: Command, now: nat)
    requires IsForexCommand(c)
  {
    && Enabled(b, actor)
    && match c
       case IssueUsd(to, cents, _) => Governs(b, actor) && Payable(b, ISSUER, to, cents, true)
       case PostQuote(_, rate, coins, expiresAt) =>
         && OnTime(now) && 1 <= rate <= 10_000 && 1 <= coins <= 100_000
         && (expiresAt == 0 || now < expiresAt) && expiresAt <= MAX_SEQUENCE
         && (|b.quotes| < 16 || exists i :: 0 <= i < |b.quotes| && !b.quotes[i].Live(now))
       case TakeQuote(quote) =>
         && OnTime(now)
         && exists i :: 0 <= i < |b.quotes| && b.quotes[i].id == quote && b.quotes[i].status == QuoteStatus.Open
                        && (b.quotes[i].expiresAt == 0 || now < b.quotes[i].expiresAt)
                        && actor != b.quotes[i].maker
                        && var q := b.quotes[i];
                           var (seller, buyer) := if q.side.Ask? then (q.maker, actor) else (actor, q.maker);
                           && Payable(b, seller, buyer, q.coins, false)
                           && Payable(b, buyer, seller, q.coins * q.centsPerCoin, true)
       case CancelQuote(quote) =>
         exists i :: 0 <= i < |b.quotes| && b.quotes[i].id == quote && b.quotes[i].status == QuoteStatus.Open
                     && (actor == b.quotes[i].maker || Governs(b, actor))
  }

  predicate May(b: Books, actor: MemberId, c: Command, now: nat) {
    if IsMembership(c) then MayManage(b, actor, c, now)
    else if IsForexCommand(c) then MayExchange(b, actor, c, now)
    else if IsOfferCommand(c) then MayDeal(b, actor, c, now)
    else MayTrade(b, actor, c, now)
  }

  // ---- Texts ----

  /** Control characters and white space, by code point, as the Unicode database lists them. */
  lemma Characters(c: char)
    ensures IsControl(c) <==> c as int <= 31 || 127 <= c as int <= 159
    ensures IsWhitespace(c) <==>
            var n := c as int;
            || 9 <= n <= 13 || n in {32, 133, 160, 5760, 8232, 8233, 8239, 8287, 12_288} || 8192 <= n <= 8202
  {
  }

  /** A name has something to show and nothing to hide. */
  lemma NamesAreVisible(s: string)
    ensures ValidName(s) <==> (exists c :: c in s && !IsWhitespace(c)) && (forall c :: c in s ==> !IsControl(c))
  {
  }

  // ---- Payments ----

  lemma InRange(b: Books, life: seq<Transaction>, id: MemberId, usd: bool)
    requires AccountsInv(b, life) && id <= |b.members|
    ensures -MAX_SEQUENCE <= Balance(b, id, usd) <= MAX_SEQUENCE
  {
    assert Kept(b, life, id, usd);
  }

  lemma HoldingOf(b: Books, life: seq<Transaction>, id: MemberId, correction: bool, usd: bool)
    requires AccountsInv(b, life)
    ensures Holding(b, id, correction, usd).Success? <==>
            id == ISSUER || (if correction then Exists(b, id) else Enabled(b, id))
    ensures Holding(b, id, correction, usd).Success? ==>
              id <= |b.members| && Holding(b, id, correction, usd).value == Balance(b, id, usd)
  {
    MemberIndex(b.members, id);
  }

  lemma PaymentIsRuled(b: Books, life: seq<Transaction>, from: MemberId, to: MemberId, amount: int, usd: bool)
    requires AccountsInv(b, life)
    ensures ValidateCurrencyPosting(b, from, to, amount, false, usd).Success? <==> Payable(b, from, to, amount, usd)
  {
    hide AccountsInv, Holding;
    HoldingOf(b, life, from, false, usd);
    HoldingOf(b, life, to, false, usd);
    if from <= |b.members| {
      InRange(b, life, from, usd);
    }
    if to <= |b.members| {
      InRange(b, life, to, usd);
    }
  }

  lemma CorrectionIsRuled(b: Books, life: seq<Transaction>, from: MemberId, to: MemberId, amount: int, usd: bool)
    requires AccountsInv(b, life)
    ensures ValidateCurrencyPosting(b, from, to, amount, true, usd).Success? <==> Correctable(b, from, to, amount, usd)
  {
    hide AccountsInv, Holding;
    HoldingOf(b, life, from, true, usd);
    HoldingOf(b, life, to, true, usd);
    if from <= |b.members| {
      InRange(b, life, from, usd);
    }
    if to <= |b.members| {
      InRange(b, life, to, usd);
    }
  }

  /** Why a payment between two open accounts is refused: a wrong amount or a payment to oneself is invalid input, a
      balance that would leave the range an overflow,
        and a member's balance that does not cover it insufficient funds. */
  lemma RefusedPayments(b: Books, life: seq<Transaction>, from: MemberId, to: MemberId, amount: int, usd: bool)
    requires AccountsInv(b, life)
    requires (from == ISSUER || Enabled(b, from)) && (to == ISSUER || Enabled(b, to))
    ensures var r := ValidateCurrencyPosting(b, from, to, amount, false, usd);
            if from == to || !IsAmount(amount) then r == Failure(InvalidInput)
            else if Balance(b, from, usd) - amount < -MAX_SEQUENCE || Balance(b, to, usd) + amount > MAX_SEQUENCE
            then r == Failure(Overflow)
            else if from != ISSUER && Balance(b, from, usd) < amount then r == Failure(InsufficientFunds)
            else r.Success?
  {
    hide AccountsInv, Holding;
    HoldingOf(b, life, from, false, usd);
    HoldingOf(b, life, to, false, usd);
    InRange(b, life, from, usd);
    InRange(b, life, to, usd);
  }

  // ---- Actors ----

  lemma ActorIsRuled(b: Books, actor: MemberId, c: Command)
    requires Numbered(b.members) && b.members != []
    ensures ValidateActor(b, actor, c).Success? <==> Enabled(b, actor)
    ensures Admin(b, actor).Success? <==> Governs(b, actor)
    ensures Governs(b, actor) ==> Enabled(b, actor)
  {
    MemberIndex(b.members, actor);
  }

  /** Who is turned away before anything else is looked at: strangers, the disabled, and, from an empty household, all
      but
      its founder. */
  lemma RefusedActors(b: Books, actor: MemberId, c: Command, now: nat)
    requires Numbered(b.members)
    ensures b.members != [] && !Exists(b, actor) ==> ValidateAt(b, actor, c, now) == Failure(NotFound)
    ensures b.members != [] && Exists(b, actor) && !Enabled(b, actor) ==>
              ValidateAt(b, actor, c, now) == Failure(Disabled)
    ensures b.members == [] && !(actor == 1 && (c.AddMember? || c.Provision?)) ==>
              ValidateAt(b, actor, c, now) == Failure(Forbidden)
  {
    hide ValidateMembership, ValidateTrade, ValidateForex, ValidateOffer;
    MemberIndex(b.members, actor);
  }

  /** What only a Nana may do is forbidden to everyone else. */
  lemma OnlyNanasGovern(b: Books, actor: MemberId, c: Command, now: nat)
    requires Numbered(b.members) && Enabled(b, actor) && !Governs(b, actor)
    requires c.Issue? || c.Retire? || c.IssueUsd? || c.Reverse? || c.CreateMember? || c.AddMember? || c.Configure?
    ensures ValidateAt(b, actor, c, now) == Failure(Forbidden)
  {
    hide ValidateOffer, ValidatePosting, ValidateCurrencyPosting, ValidateNewMember, Holding, Blank, HasControl,
      MemberAt;
    MemberIndex(b.members, actor);
  }

  lemma {:induction false} OnlyNana(members: seq<Member>, i: nat)
    requires i < |members| && members[i].ActiveNana()
    ensures ActiveNanas(members) == 1 <==> forall j :: 0 <= j < |members| && j != i ==> !members[j].ActiveNana()
  {
    if ActiveNanas(members) != 1 {
      SecondNana(members, i);
    } else {
      forall j | 0 <= j < |members| && j != i ensures !members[j].ActiveNana() {
        if members[j].ActiveNana() {
          TwoNanas(members, if i < j then i else j, if i < j then j else i);
        }
      }
    }
  }

  lemma {:induction false} OneNana(members: seq<Member>, i: nat)
    requires i < |members| && members[i].ActiveNana()
    ensures ActiveNanas(members) >= 1
  {
    if i < |members| - 1 {
      OneNana(members[..|members| - 1], i);
    }
  }

  lemma {:induction false} TwoNanas(members: seq<Member>, i: nat, j: nat)
    requires i < j < |members| && members[i].ActiveNana() && members[j].ActiveNana()
    ensures ActiveNanas(members) >= 2
  {
    var front := members[..|members| - 1];
    if j < |front| {
      TwoNanas(front, i, j);
    } else {
      OneNana(front, i);
    }
  }

  // ---- Group by group ----

  lemma ManagingIsRuled(b: Books, life: seq<Transaction>, actor: MemberId, c: Command, now: nat)
    requires HouseInv(b, life) && IsMembership(c)
    ensures ValidateAt(b, actor, c, now).Success? <==> MayManage(b, actor, c, now)
  {
    hide HouseInv, ValidateActor, ValidateForex, ValidateOffer, ValidateTrade, ValidateMembership, MayManage;
    HouseFacts(b, life, actor, c);
    ManagersAct(b, actor, c, now);
    IssuanceInRange(b, life);
    if b.members == [] {
      FoundingIsRuled(b, actor, c, now);
    } else if c.UpdateMember? {
      if Enabled(b, actor) {
        UpdatingIsRuled(b, actor, c, now);
      }
    } else if Enabled(b, actor) {
      OthersAreRuled(b, actor, c, now);
    }
  }

  lemma IssuanceInRange(b: Books, life: seq<Transaction>)
    requires HouseInv(b, life)
    ensures -MAX_SEQUENCE <= b.issuance <= MAX_SEQUENCE
  {
    hide LedgerInv, SalesInv, QuotesInv;
    InRange(b, life, ISSUER, false);
  }

  lemma ManagersAct(b: Books, actor: MemberId, c: Command, now: nat)
    requires IsMembership(c)
    ensures b.members != [] && MayManage(b, actor, c, now) ==> Enabled(b, actor)
  {
    hide ValidName, FreshUsername, LastNana;
  }

  lemma FoundingIsRuled(b: Books, actor: MemberId, c: Command, now: nat)
    requires b.members == [] && IsMembership(c)
    ensures ValidateAt(b, actor, c, now).Success? <==> MayManage(b, actor, c, now)
  {
    hide ValidName, Blank, ValidateForex, ValidateOffer, ValidateTrade;
  }

  lemma UpdatingIsRuled(b: Books, actor: MemberId, c: Command, now: nat)
    requires Numbered(b.members) && c.UpdateMember? && Enabled(b, actor)
    requires Admin(b, actor).Success? <==> Governs(b, actor)
    ensures ValidateMembership(b, actor, c, now).Success? <==> MayManage(b, actor, c, now)
  {
    hide ValidName, Admin, Enabled, MemberAt, ActiveNanas;
    MemberIndex(b.members, c.member);
    if Exists(b, c.member) && b.members[c.member - 1].ActiveNana() {
      OnlyNana(b.members, c.member - 1);
    }
  }

  lemma OthersAreRuled(b: Books, actor: MemberId, c: Command, now: nat)
    requires Numbered(b.members) && b.members != [] && IsMembership(c) && !c.UpdateMember? && Enabled(b, actor)
    requires Admin(b, actor).Success? <==> Governs(b, actor)
    requires -MAX_SEQUENCE <= b.issuance <= MAX_SEQUENCE
    ensures ValidateMembership(b, actor, c, now).Success? <==> MayManage(b, actor, c, now)
  {
    hide ValidName, Blank, Admin, Enabled, Governs, MemberAt;
    if c.MigrateMember? {
      MemberIndex(b.members, c.member);
    }
  }

  /** The one row with an id is the row a lookup finds. */
  lemma Lookups(b: Books, life: seq<Transaction>)
    requires HouseInv(b, life)
    ensures forall i :: 0 <= i < |b.listings| ==> ListingAt(b.listings, b.listings[i].id) == Some(i)
    ensures forall i :: 0 <= i < |b.offers| ==> OfferAt(b.offers, b.offers[i].id) == Some(i)
    ensures forall i :: 0 <= i < |b.quotes| ==> QuoteAt(b.quotes, b.quotes[i].id) == Some(i)
  {
    hide HouseInv;
    forall i | 0 <= i < |b.listings| ensures ListingAt(b.listings, b.listings[i].id) == Some(i) {
      OneListing(b, life, i);
    }
    forall i | 0 <= i < |b.offers| ensures OfferAt(b.offers, b.offers[i].id) == Some(i) {
      OneOffer(b, life, i);
    }
    forall i | 0 <= i < |b.quotes| ensures QuoteAt(b.quotes, b.quotes[i].id) == Some(i) {
      OneQuote(b, life, i);
    }
  }

  lemma DistinctRows(sequence: nat, life: seq<Transaction>, i: nat, j: nat)
    requires NumberingInv(sequence, life) && i < j < |life|
    ensures life[i].id != life[j].id
  {
  }

  /** Rows of the history have distinct ids. */
  lemma HistoryLookup(b: Books, life: seq<Transaction>, i: nat)
    requires HouseInv(b, life) && i < |b.history|
    ensures TransactionAt(b.history, b.history[i].id) == Some(i)
  {
    hide AccountsInv, SalesInv, QuotesInv, DisciplineInv, SettlementsInv, NumberingInv;
    var j := TransactionAt(b.history, b.history[i].id).value;
    var first := |life| - |b.history|;
    assert b.history[i] == Flagged(life, first + i) && b.history[j] == Flagged(life, first + j);
    if j < i {
      DistinctRows(b.sequence, life, first + j, first + i);
      assert false;
    }
  }

  /** The invariant facts that validation depends on. */
  lemma HouseFacts(b: Books, life: seq<Transaction>, actor: MemberId, c: Command)
    requires HouseInv(b, life)
    ensures AccountsInv(b, life) && Numbered(b.members)
    ensures b.members != [] ==> (ValidateActor(b, actor, c).Success? <==> Enabled(b, actor))
    ensures b.members != [] ==> (Admin(b, actor).Success? <==> Governs(b, actor))
    ensures b.members == [] && !IsMembership(c) ==> ValidateActor(b, actor, c).Failure?
    ensures forall id :: FindMember(b, id).Success? <==> Exists(b, id)
  {
    hide LedgerInv, SalesInv, QuotesInv;
    if b.members != [] {
      ActorIsRuled(b, actor, c);
    }
    forall id: MemberId ensures FindMember(b, id).Success? <==> Exists(b, id) {
      MemberIndex(b.members, id);
    }
  }

  /** Validation asks who sends the command, then whatever its kind demands. */
  lemma TwoSteps(b: Books, actor: MemberId, c: Command, now: nat)
    ensures ValidateAt(b, actor, c, now).Success? <==>
            && ValidateActor(b, actor, c).Success?
            && (if IsMembership(c) then ValidateMembership(b, actor, c, now).Success?
                else if IsForexCommand(c) then ValidateForex(b, actor, c, now).Success?
                else if IsOfferCommand(c) then ValidateOffer(b, actor, c, now).Success?
                else ValidateTrade(b, actor, c, now).Success?)
  {
    hide ValidateActor, ValidateMembership, ValidateForex, ValidateOffer, ValidateTrade;
  }

  lemma TradingIsRuled(b: Books, life: seq<Transaction>, actor: MemberId, c: Command, now: nat)
    requires HouseInv(b, life) && IsTrade(c)
    ensures ValidateAt(b, actor, c, now).Success? <==> MayTrade(b, actor, c, now)
  {
    hide HouseInv, AccountsInv, ValidateAt, ValidateActor, ValidateTrade, MayTrade, ValidateMembership, ValidateForex,
      ValidateOffer, Enabled, Governs, Admin, FindMember;
    TwoSteps(b, actor, c, now);
    HouseFacts(b, life, actor, c);
    NobodyTrades(b, actor, c, now);
    if b.members == [] {
      assert Enabled(b, actor) ==> Exists(b, actor) by { if Enabled(b, actor) { EnabledExists(b, actor); } }
    } else if c.Issue? || c.Retire? || c.Transfer? {
      MoneyIsRuled(b, life, actor, c, now);
    } else if c.Purchase? {
      PurchaseIsRuled(b, life, actor, c, now);
    } else if c.Reverse? {
      ReverseIsRuled(b, life, actor, c, now);
    } else {
      ListingIsRuled(b, life, actor, c, now);
    }
  }

  lemma EnabledExists(b: Books, id: MemberId)
    requires Enabled(b, id)
    ensures Exists(b, id)
  {
  }

  lemma NobodyTrades(b: Books, actor: MemberId, c: Command, now: nat)
    requires IsTrade(c)
    ensures MayTrade(b, actor, c, now) ==> Enabled(b, actor)
  {
    hide Payable, Correctable, ListingRecyclable, Governs, ValidDetails;
  }

  lemma MoneyIsRuled(b: Books, life: seq<Transaction>, actor: MemberId, c: Command, now: nat)
    requires HouseInv(b, life) && b.members != [] && (c.Issue? || c.Retire? || c.Transfer?)
    ensures Enabled(b, actor) ==> (ValidateTrade(b, actor, c, now).Success? <==> MayTrade(b, actor, c, now))
  {
    hide HouseInv, AccountsInv, Payable, Admin, ValidatePosting, FindMember, Enabled, Governs, ValidateActor;
    HouseFacts(b, life, actor, c);
    match c {
      case Issue(to, amount, _) =>
        PaymentIsRuled(b, life, ISSUER, to, amount, false);
        PayeeExists(b, ISSUER, to, amount, false);
      case Retire(from, amount, _) =>
        PaymentIsRuled(b, life, from, ISSUER, amount, false);
        PayeeExists(b, from, ISSUER, amount, false);
      case Transfer(to, amount, _) =>
        PaymentIsRuled(b, life, actor, to, amount, false);
        PayeeExists(b, actor, to, amount, false);
    }
  }

  lemma PayeeExists(b: Books, from: MemberId, to: MemberId, amount: int, usd: bool)
    ensures Payable(b, from, to, amount, usd) ==>
              (from != ISSUER ==> Exists(b, from)) && (to != ISSUER ==> Exists(b, to))
  {
  }

  lemma PurchaseIsRuled(b: Books, life: seq<Transaction>, actor: MemberId, c: Command, now: nat)
    requires HouseInv(b, life) && b.members != [] && c.Purchase?
    ensures Enabled(b, actor) ==> (ValidateTrade(b, actor, c, now).Success? <==> MayTrade(b, actor, c, now))
  {
    hide HouseInv, AccountsInv, ListingAt, OfferAt, QuoteAt, Payable, ValidatePosting, Enabled;
    HouseFacts(b, life, actor, c);
    Lookups(b, life);
    if ListingAt(b.listings, c.listing).Some? {
      var l := b.listings[ListingAt(b.listings, c.listing).value];
      PaymentIsRuled(b, life, actor, l.owner, l.price, false);
      PaymentIsRuled(b, life, l.owner, actor, l.price, false);
    }
  }

  lemma ReverseIsRuled(b: Books, life: seq<Transaction>, actor: MemberId, c: Command, now: nat)
    requires HouseInv(b, life) && b.members != [] && c.Reverse?
    ensures Enabled(b, actor) ==> (ValidateTrade(b, actor, c, now).Success? <==> MayTrade(b, actor, c, now))
  {
    hide HouseInv, AccountsInv, TransactionAt, Correctable, ValidateCurrencyPosting, Enabled, Admin, Governs,
      ValidateActor;
    HouseFacts(b, life, actor, c);
    forall i | 0 <= i < |b.history| && b.history[i].id == c.transaction
      ensures TransactionAt(b.history, c.transaction) == Some(i) {
      HistoryLookup(b, life, i);
    }
    if TransactionAt(b.history, c.transaction).Some? {
      var t := b.history[TransactionAt(b.history, c.transaction).value];
      CorrectionIsRuled(b, life, t.to, t.from, t.amount, t.usd);
    }
  }

  lemma ListingIsRuled(b: Books, life: seq<Transaction>, actor: MemberId, c: Command, now: nat)
    requires HouseInv(b, life) && b.members != [] && (c.List? || c.Cancel? || c.UpdateListing?)
    ensures Enabled(b, actor) ==> (ValidateTrade(b, actor, c, now).Success? <==> MayTrade(b, actor, c, now))
  {
    hide HouseInv, AccountsInv, ListingAt, OfferAt, QuoteAt, Enabled, Admin, Governs, ValidateActor, ValidDetails,
      ListingRecyclable, Blank;
    HouseFacts(b, life, actor, c);
    Lookups(b, life);
  }

  lemma DealingIsRuled(b: Books, life: seq<Transaction>, actor: MemberId, c: Command, now: nat)
    requires HouseInv(b, life) && IsOfferCommand(c) && (now == 0 || b.lastTimestamp <= now)
    ensures ValidateAt(b, actor, c, now).Success? <==> MayDeal(b, actor, c, now)
  {
    hide HouseInv, AccountsInv, ValidateAt, ValidateActor, ValidateTrade, MayDeal, ValidateMembership, ValidateForex,
      ValidateOffer;
    TwoSteps(b, actor, c, now);
    HouseFacts(b, life, actor, c);
    NobodyDeals(b, actor, c, now);
    if b.members != [] {
      match c {
        case MakeOffer(_, _, _) => MakingIsRuled(b, life, actor, c, now);
        case AcceptOffer(_) => AcceptingIsRuled(b, life, actor, c, now);
        case UnacceptOffer(_, _) => UndoingIsRuled(b, life, actor, c, now);
        case _ => ClosingIsRuled(b, life, actor, c, now);
      }
    }
  }

  lemma NobodyDeals(b: Books, actor: MemberId, c: Command, now: nat)
    requires IsOfferCommand(c)
    ensures MayDeal(b, actor, c, now) ==> Enabled(b, actor)
  {
    hide Payable, Correctable, Governs, Enabled;
  }

  lemma MakingIsRuled(b: Books, life: seq<Transaction>, actor: MemberId, c: Command, now: nat)
    requires HouseInv(b, life) && b.members != [] && c.MakeOffer?
    ensures Enabled(b, actor) ==> (ValidateOffer(b, actor, c, now).Success? <==> MayDeal(b, actor, c, now))
  {
    hide HouseInv, AccountsInv, ListingAt, OfferAt, QuoteAt, Enabled, HasControl;
    Lookups(b, life);
  }

  lemma ClosingIsRuled(b: Books, life: seq<Transaction>, actor: MemberId, c: Command, now: nat)
    requires HouseInv(b, life) && b.members != [] && (c.DeclineOffer? || c.WithdrawOffer?)
    ensures Enabled(b, actor) ==> (ValidateOffer(b, actor, c, now).Success? <==> MayDeal(b, actor, c, now))
  {
    hide HouseInv, AccountsInv, ListingAt, OfferAt, QuoteAt, Enabled, Admin, Governs, ValidateActor;
    HouseFacts(b, life, actor, c);
    Lookups(b, life);
  }

  lemma AcceptingIsRuled(b: Books, life: seq<Transaction>, actor: MemberId, c: Command, now: nat)
    requires HouseInv(b, life) && b.members != [] && c.AcceptOffer?
    ensures Enabled(b, actor) ==> (ValidateOffer(b, actor, c, now).Success? <==> MayDeal(b, actor, c, now))
  {
    hide HouseInv, AccountsInv, ListingAt, OfferAt, QuoteAt, Payable, ValidatePosting, ValidateOffer, MayDeal;
    HouseFacts(b, life, actor, c);
    Lookups(b, life);
    if OfferAt(b.offers, c.offer).Some? {
      var o := b.offers[OfferAt(b.offers, c.offer).value];
      PaymentIsRuled(b, life, actor, o.offerer, o.amount, false);
      PaymentIsRuled(b, life, o.offerer, actor, o.amount, false);
      DealersAreEnabled(b, actor, o.offerer, o.amount);
      DealersAreEnabled(b, o.offerer, actor, o.amount);
      OffererIsMember(b, life, OfferAt(b.offers, c.offer).value);
      if Enabled(b, actor) {
        AcceptanceIs(b, actor, o, OfferAt(b.offers, c.offer).value, now);
      }
    } else {
      NothingToAccept(b, actor, c, now);
    }
  }

  lemma OffererIsMember(b: Books, life: seq<Transaction>, i: nat)
    requires HouseInv(b, life) && i < |b.offers|
    ensures Exists(b, b.offers[i].offerer) && Exists(b, b.offers[i].owner)
  {
    hide AccountsInv, LedgerInv, QuotesInv;
    assert OfferKept(b.listings, b.offers[i], b.sequence, b.lastTimestamp, |b.members|);
  }

  lemma DealersAreEnabled(b: Books, from: MemberId, to: MemberId, amount: int)
    ensures Payable(b, from, to, amount, false) && from != ISSUER ==> Enabled(b, from)
    ensures Payable(b, from, to, amount, false) && to != ISSUER ==> Enabled(b, to)
  {
  }

  lemma NothingToAccept(b: Books, actor: MemberId, c: Command, now: nat)
    requires c.AcceptOffer? && OfferAt(b.offers, c.offer).None?
    ensures ValidateOffer(b, actor, c, now).Failure? && !MayDeal(b, actor, c, now)
  {
    hide Payable, ValidatePosting;
  }

  lemma AcceptanceIs(b: Books, actor: MemberId, o: Offer, i: nat, now: nat)
    requires OfferAt(b.offers, o.id) == Some(i) && b.offers[i] == o && Enabled(b, actor)
    requires Exists(b, o.offerer) && Numbered(b.members)
    requires forall j :: 0 <= j < |b.offers| ==> OfferAt(b.offers, b.offers[j].id) == Some(j)
    requires forall k :: 0 <= k < |b.listings| ==> ListingAt(b.listings, b.listings[k].id) == Some(k)
    requires ValidatePosting(b, actor, o.offerer, o.amount, false).Success? <==> Payable(b, actor, o.offerer, o.amount,
                                                                                         false)
    requires ValidatePosting(b, o.offerer, actor, o.amount, false).Success? <==> Payable(b, o.offerer, actor, o.amount,
                                                                                         false)
    requires Payable(b, actor, o.offerer, o.amount, false) ==> Enabled(b, o.offerer)
    requires Payable(b, o.offerer, actor, o.amount, false) ==> Enabled(b, o.offerer)
    ensures ValidateOffer(b, actor, AcceptOffer(o.id), now).Success? <==> MayDeal(b, actor, AcceptOffer(o.id), now)
  {
    hide Payable, ValidatePosting, ListingAt, OfferAt, MemberAt;
    MemberIndex(b.members, o.offerer);
    MemberIndex(b.members, actor);
  }

  lemma UndoingIsRuled(b: Books, life: seq<Transaction>, actor: MemberId, c: Command, now: nat)
    requires HouseInv(b, life) && b.members != [] && c.UnacceptOffer? && (now == 0 || b.lastTimestamp <= now)
    ensures Enabled(b, actor) ==> (ValidateOffer(b, actor, c, now).Success? <==> MayDeal(b, actor, c, now))
  {
    hide HouseInv, AccountsInv, ListingAt, OfferAt, QuoteAt, Enabled, Admin, Governs, ValidateActor, Correctable,
      ValidatePosting, HasControl;
    HouseFacts(b, life, actor, c);
    Lookups(b, life);
    if OfferAt(b.offers, c.offer).Some? && b.offers[OfferAt(b.offers, c.offer).value].phase.Accepted? {
      var i := OfferAt(b.offers, c.offer).value;
      var s := b.offers[i].phase.settlement;
      CorrectionIsRuled(b, life, s.payee, s.payer, b.offers[i].amount, false);
      if b.lastTimestamp <= now < s.settlesAt {
        var k := UnsettledAt(b, life, i);
      }
    }
  }

  lemma UnsettledAt(b: Books, life: seq<Transaction>, i: nat) returns (k: nat)
    requires HouseInv(b, life) && i < |b.offers| && b.offers[i].Pins(b.lastTimestamp)
    ensures ListingAt(b.listings, b.offers[i].listing) == Some(k) && k < |b.listings| && b.listings[k].status == Sold
  {
    k := UnsettledListing(b, life, i);
  }

  lemma ExchangingIsRuled(b: Books, life: seq<Transaction>, actor: MemberId, c: Command, now: nat)
    requires HouseInv(b, life) && IsForexCommand(c)
    ensures ValidateAt(b, actor, c, now).Success? <==> MayExchange(b, actor, c, now)
  {
    hide HouseInv, AccountsInv, ValidateAt, ValidateActor, ValidateTrade, MayExchange, ValidateMembership,
      ValidateForex, ValidateOffer;
    TwoSteps(b, actor, c, now);
    HouseFacts(b, life, actor, c);
    NobodyExchanges(b, actor, c, now);
    if b.members != [] {
      if c.TakeQuote? {
        TakingIsRuled(b, life, actor, c, now);
      } else {
        QuotingIsRuled(b, life, actor, c, now);
      }
    }
  }

  lemma NobodyExchanges(b: Books, actor: MemberId, c: Command, now: nat)
    requires IsForexCommand(c)
    ensures MayExchange(b, actor, c, now) ==> Enabled(b, actor)
  {
    hide Payable, Governs, Enabled;
  }

  lemma TakingIsRuled(b: Books, life: seq<Transaction>, actor: MemberId, c: Command, now: nat)
    requires HouseInv(b, life) && b.members != [] && c.TakeQuote?
    ensures Enabled(b, actor) ==> (ValidateForex(b, actor, c, now).Success? <==> MayExchange(b, actor, c, now))
  {
    hide HouseInv, AccountsInv, ListingAt, OfferAt, QuoteAt, Enabled, Payable, ValidateCurrencyPosting;
    Lookups(b, life);
    HouseFacts(b, life, actor, c);
    if QuoteAt(b.quotes, c.quote).Some? {
      var q := b.quotes[QuoteAt(b.quotes, c.quote).value];
      PaymentIsRuled(b, life, q.maker, actor, q.coins, false);
      PaymentIsRuled(b, life, actor, q.maker, q.coins, false);
      PaymentIsRuled(b, life, q.maker, actor, q.Cents(), true);
      PaymentIsRuled(b, life, actor, q.maker, q.Cents(), true);
    }
  }

  lemma QuotingIsRuled(b: Books, life: seq<Transaction>, actor: MemberId, c: Command, now: nat)
    requires HouseInv(b, life) && b.members != [] && (c.IssueUsd? || c.PostQuote? || c.CancelQuote?)
    ensures Enabled(b, actor) ==> (ValidateForex(b, actor, c, now).Success? <==> MayExchange(b, actor, c, now))
  {
    hide HouseInv, AccountsInv, ListingAt, OfferAt, QuoteAt, Enabled, Payable, ValidateCurrencyPosting, Admin, Governs,
      ValidateActor;
    Lookups(b, life);
    HouseFacts(b, life, actor, c);
    if c.IssueUsd? {
      PaymentIsRuled(b, life, ISSUER, c.to, c.cents, true);
    }
  }

  /** In every state the invariant allows, at any time from the last event on or at the time a clock behind it reads as,
      a command is accepted exactly if the rule book lets its sender do it. */
  lemma ValidationFollowsRules(b: Books, life: seq<Transaction>, actor: MemberId, c: Command, now: nat)
    requires HouseInv(b, life) && (now == 0 || b.lastTimestamp <= now)
    ensures ValidateAt(b, actor, c, now).Success? <==> May(b, actor, c, now)
  {
    hide HouseInv, ValidateAt, MayManage, MayTrade, MayDeal, MayExchange;
    if IsMembership(c) {
      ManagingIsRuled(b, life, actor, c, now);
    } else if IsForexCommand(c) {
      ExchangingIsRuled(b, life, actor, c, now);
    } else if IsOfferCommand(c) {
      DealingIsRuled(b, life, actor, c, now);
    } else {
      TradingIsRuled(b, life, actor, c, now);
    }
  }
}
