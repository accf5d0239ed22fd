/** The mutable state of a running household, updated in place by admitted events. */
module Household {
  import opened Wrappers
  import opened Types
  import opened Postings
  import opened Offers
  import opened Forex
  import opened Domain
  import opened Admission
  import opened Accounts
  import opened Sales
  import opened Replays
  import opened Runs

  // ---- An event in three parts: tables, rows, stamp ----

  /** The books once an event has changed its tables and recorded nothing yet. */
  function Tables(b: Books, e: Event): Books {
    b.(household := NextHousehold(b, e),
       initialGrant := if e.command.Configure? then e.command.initialGrant else b.initialGrant,
       currency := if e.command.Configure? then e.command.currency else b.currency,
       settlesAfter := NextWindow(b, e),
       offers := NextOffers(b, e), quotes := NextQuotes(b, e), listings := NextListings(b, e),
       members := NextAccounts(b, e), history := MarkReversed(b.history, Corrected(b, e)))
  }

  /** The books once one more row has been recorded. */
  function Recorded(b: Books, tx: Transaction): Books {
    b.(transactions := b.transactions + 1,
       issuance := b.issuance + Net([tx], ISSUER, false),
       usdIssuance := b.usdIssuance + Net([tx], ISSUER, true),
       members := Settle(b.members, [tx]),
       history := Recent(b.history + [tx]))
  }

  function RecordedAll(b: Books, txs: seq<Transaction>): Books
    decreases |txs|
  {
    if txs == [] then b else RecordedAll(Recorded(b, txs[0]), txs[1..])
  }

  function Stamped(b: Books, e: Event): Books {
    b.(lastTimestamp := e.timestamp, sequence := e.sequence, members := Watermark(b.members, e))
  }

  lemma {:induction false} RecordedAllIs(b: Books, txs: seq<Transaction>)
    requires |b.history| <= HISTORY
    ensures RecordedAll(b, txs) ==
            b.(transactions := b.transactions + |txs|,
               issuance := b.issuance + Net(txs, ISSUER, false),
               usdIssuance := b.usdIssuance + Net(txs, ISSUER, true),
               members := Settle(b.members, txs),
               history := Recent(b.history + txs))
    decreases |txs|
  {
    if txs == [] {
      assert Settle(b.members, txs) == b.members;
      assert b.history + txs == b.history;
    } else {
      var first, rest := txs[0], txs[1..];
      RecordedAllIs(Recorded(b, first), rest);
      forall id, usd ensures Net(txs, id, usd) == Net([first], id, usd) + Net(rest, id, usd) {
        assert [first] + rest == txs;
        NetAppend([first], rest, id, usd);
      }
      SettleInTwo(b.members, first, rest);
      RecentInTwo(b.history, first, rest);
      assert [first] + rest == txs;
    }
  }

  lemma SettleInTwo(members: seq<Member>, first: Transaction, rest: seq<Transaction>)
    ensures Settle(Settle(members, [first]), rest) == Settle(members, [first] + rest)
  {
    forall id, usd ensures Net([first] + rest, id, usd) == Net([first], id, usd) + Net(rest, id, usd) {
      NetAppend([first], rest, id, usd);
    }
  }

  lemma RecentDropsOldest(rows: seq<Transaction>)
    requires |rows| > HISTORY
    ensures Recent(rows[1..]) == Recent(rows)
  {
  }

  lemma RecentInTwo(history: seq<Transaction>, first: Transaction, rest: seq<Transaction>)
    requires |history| <= HISTORY
    ensures Recent(Recent(history + [first]) + rest) == Recent(history + ([first] + rest))
  {
    var rows := history + [first];
    assert rows + rest == history + ([first] + rest);
    if |rows| > HISTORY {
      assert Recent(rows) + rest == (rows + rest)[1..];
      RecentDropsOldest(rows + rest);
    }
  }

  lemma OneRow(b: Books, row: Transaction)
    ensures RecordedAll(b, [row]) == Recorded(b, row)
  {
    assert [row][1..] == [];
  }

  lemma TwoRows(b: Books, first: Transaction, second: Transaction)
    ensures RecordedAll(b, [first, second]) == Recorded(Recorded(b, first), second)
  {
    assert [first, second][1..] == [second] && |[second][1..]| == 0;
    assert RecordedAll(Recorded(b, first), [second]) == Recorded(Recorded(b, first), second);
  }

  /** Changing tables, then recording row by row, then stamping is the whole effect of an event. */
  lemma ApplyInParts(b: Books, e: Event)
    requires |b.history| <= HISTORY
    ensures Apply(b, e) == Stamped(RecordedAll(Tables(b, e), Posted(b, e)), e)
  {
    RecordedAllIs(Tables(b, e), Posted(b, e));
  }

  /** The capacities that bound every table. */
  ghost predicate Bounded(b: Books) {
    && Numbered(b.members) && |b.history| <= HISTORY
    && |b.listings| <= LISTINGS && |b.offers| <= OFFERS && |b.quotes| <= QUOTES
  }

  /** An admitted event about to be applied at its stamp. */
  ghost predicate Due(b: Books, e: Event, now: nat) {
    && Bounded(b) && Admitted(b, e, now)
    && now <= e.timestamp && (now == e.timestamp || now == 0)
  }

  lemma AdmissibleIsDue(b: Books, life: seq<Transaction>, e: Event, clock: nat)
    requires HouseInv(b, life) && Admissible(b, e, clock)
    ensures Due(b, e, NowFrom(clock, b.lastTimestamp)) && |b.history| <= HISTORY
  {
    ValidatedIsAdmitted(b, e, NowFrom(clock, b.lastTimestamp));
  }

  lemma RowsAreWithin(b: Books, e: Event, now: nat)
    requires Due(b, e, now)
    ensures |Posted(b, e)| <= 2
    ensures forall k :: 0 <= k < |Posted(b, e)| ==>
              Posted(b, e)[k].from <= |NextAccounts(b, e)| && Posted(b, e)[k].to <= |NextAccounts(b, e)|
    ensures Numbered(NextAccounts(b, e))
  {
    NextAccountsKeep(b, e, now);
    forall k | 0 <= k < |Posted(b, e)|
      ensures Posted(b, e)[k].from <= |NextAccounts(b, e)| && Posted(b, e)[k].to <= |NextAccounts(b, e)|
    {
      assert Sound(Posted(b, e)[k], |NextAccounts(b, e)|);
    }
  }

  lemma AcceptTables(b: Books, e: Event, now: nat)
    requires Due(b, e, now) && e.command.AcceptOffer?
    ensures OfferAt(b.offers, e.command.offer).Some?
    ensures ListingAt(b.listings, b.offers[OfferAt(b.offers, e.command.offer).value].listing).Some?
    ensures var i := OfferAt(b.offers, e.command.offer).value;
            var o := b.offers[i];
            var k := ListingAt(b.listings, o.listing).value;
            var (payer, payee) := DealParties(b.listings[k].side, o.owner, o.offerer);
            var s := Settlement(e.sequence, payer, payee, e.timestamp + b.settlesAfter);
            && Posted(b, e) == [Transaction(e.sequence, e.actor, e.timestamp, payer, payee, o.amount,
                                            b.listings[k].title, None, false, Some(b.listings[k].id), false, None)]
            && NextAccounts(b, e) == b.members
            && Tables(b, e) ==
               b.(offers := b.offers[i := o.(phase := Accepted(s), updatedAt := e.timestamp)],
                  listings := b.listings[k := Close(b.listings[k], payer, e.sequence, e.timestamp)])
  {
  }

  lemma UnacceptTables(b: Books, e: Event, now: nat)
    requires Due(b, e, now) && e.command.UnacceptOffer?
    ensures OfferAt(b.offers, e.command.offer).Some?
    ensures var o := b.offers[OfferAt(b.offers, e.command.offer).value];
            o.phase.Accepted? && ListingAt(b.listings, o.listing).Some?
    ensures var o := b.offers[OfferAt(b.offers, e.command.offer).value];
            var s := o.phase.settlement;
            Posted(b, e) == [Transaction(e.sequence, e.actor, e.timestamp, s.payee, s.payer, o.amount, e.command.reason,
                                         Some(s.transaction), false, Some(o.listing), false, None)]
    ensures NextAccounts(b, e) == b.members
    ensures var o := b.offers[OfferAt(b.offers, e.command.offer).value];
            var s := o.phase.settlement;
            var k := ListingAt(b.listings, o.listing).value;
            Tables(b, e) == b.(offers := MarkOffersReversed(b.offers, s.transaction, e.timestamp),
                               listings := b.listings[k := Reopen(b.listings[k], e.timestamp)],
                               history := MarkReversed(b.history, Some(s.transaction)))
  {
  }

  lemma StillNumbered(b: Books, tx: Transaction)
    requires Numbered(b.members) && |b.history| <= HISTORY
    ensures Numbered(Recorded(b, tx).members) && |Recorded(b, tx).members| == |b.members|
    ensures |Recorded(b, tx).history| <= HISTORY
  {
  }

  lemma TakeTables(b: Books, e: Event, quote: nat, now: nat)
    requires Due(b, e, now) && e.command == TakeQuote(quote)
    ensures QuoteAt(b.quotes, quote).Some? && NextAccounts(b, e) == b.members
    ensures var i := QuoteAt(b.quotes, quote).value;
            var q := b.quotes[i];
            var (seller, buyer) := q.Parties(e.actor);
            var coin := Transaction(e.sequence, e.actor, e.timestamp, seller, buyer, q.coins, "Exchange",
                                    None, false, None, false, Some(q.id));
            && Posted(b, e) == [coin, coin.(id := e.sequence + MAX_RECORDS, from := buyer, to := seller,
                                            amount := q.Cents(), usd := true)]
            && Tables(b, e) ==
               b.(quotes := b.quotes[i := q.(status := Filled, taker := Some(e.actor), updatedAt := e.timestamp,
                                             coinTx := Some(e.sequence), cashTx := Some(e.sequence + MAX_RECORDS))])
  {
  }

  /** Settings and account edits leave every other table as it is. */
  lemma EditTables(b: Books, e: Event)
    requires e.command.Configure? || e.command.UpdateMember? || e.command.MigrateMember?
    ensures Tables(b, e) ==
            b.(household := NextHousehold(b, e),
               initialGrant := if e.command.Configure? then e.command.initialGrant else b.initialGrant,
               currency := if e.command.Configure? then e.command.currency else b.currency,
               settlesAfter := NextWindow(b, e), members := NextAccounts(b, e))
  {
  }

  lemma CloseTables(b: Books, e: Event, offer: nat, now: nat)
    requires Due(b, e, now) && (e.command == DeclineOffer(offer) || e.command == WithdrawOffer(offer))
    ensures Posted(b, e) == [] && OfferAt(b.offers, offer).Some?
    ensures var i := OfferAt(b.offers, offer).value;
            var phase := if e.command.DeclineOffer? then Declined else Withdrawn;
            Tables(b, e) == b.(offers := b.offers[i := b.offers[i].(phase := phase, updatedAt := e.timestamp)])
  {
  }

  /** Once an event's accounts are open, its actor has one. */
  lemma ActorIsNumbered(b: Books, e: Event, now: nat)
    requires Due(b, e, now)
    ensures MemberAt(RecordedAll(Tables(b, e), Posted(b, e)).members, e.actor).Some?
  {
    RecordedAllIs(Tables(b, e), Posted(b, e));
    NextAccountsKeep(b, e, now);
    var settled := Settle(NextAccounts(b, e), Posted(b, e));
    assert Numbered(settled);
    MemberIndex(settled, e.actor);
  }

  /** What the first legs of a posting add to one balance. */
  ghost function LegSum(legs: seq<(MemberId, int)>, id: MemberId, legsUsd: bool, usd: bool): int {
    if legs == [] then 0
    else
      LegSum(legs[..|legs| - 1], id, legsUsd, usd)
      + if legs[|legs| - 1].0 == id && legsUsd == usd then legs[|legs| - 1].1 else 0
  }

  lemma BothLegs(tx: Transaction, legs: seq<(MemberId, int)>, id: MemberId, usd: bool)
    requires legs == [(tx.from, -tx.amount), (tx.to, tx.amount)]
    ensures LegSum(legs, id, tx.usd, usd) == Net([tx], id, usd)
  {
    var first := legs[..1];
    assert first == [(tx.from, -tx.amount)] && |first[..0]| == 0 && |[tx][..0]| == 0;
    assert LegSum(first, id, tx.usd, usd) == if tx.from == id && tx.usd == usd then -tx.amount else 0;
    assert Net([tx], id, usd) == Delta(tx, id, usd);
  }

  class State {
    var household: string
    var initialGrant: int
    var currency: string
    var settlesAfter: nat
    var offers: seq<Offer>
    var lastTimestamp: nat
    var sequence: nat
    var transactions: nat
    var issuance: int
    var usdIssuance: int
    var quotes: seq<Quote>
    var members: seq<Member>
    var listings: seq<Listing>
    var history: seq<Transaction>

    /** Every row ever recorded; `history` keeps only the newest. */
    ghost var lifetime: seq<Transaction>

    function Value(): Books
      reads this
    {
      Books(household, initialGrant, currency, settlesAfter, offers, lastTimestamp, sequence, transactions,
            issuance, usdIssuance, quotes, members, listings, history)
    }

    ghost predicate Valid()
      reads this
    {
      HouseInv(Value(), lifetime)
    }

    constructor ()
      ensures Value() == EMPTY_BOOKS && lifetime == [] && Valid()
    {
      household, initialGrant, currency, settlesAfter := "", 100, "NanaCoin", DEFAULT_SETTLEMENT;
      offers, quotes, members, listings, history, lifetime := [], [], [], [], [], [];
      lastTimestamp, sequence, transactions, issuance, usdIssuance := 0, 0, 0, 0, 0;
      EmptyHouse();
    }

    /** Adds `delta` to one account's balance in one currency. */
    method PostLeg(id: MemberId, delta: int, usd: bool)
      requires Numbered(members) && id <= |members|
      modifies this`issuance, this`usdIssuance, this`members
      ensures issuance == old(issuance) + if id == ISSUER && !usd then delta else 0
      ensures usdIssuance == old(usdIssuance) + if id == ISSUER && usd then delta else 0
      ensures |members| == |old(members)| && Numbered(members)
      ensures forall i :: 0 <= i < |members| ==>
        members[i] == old(members)[i].(balance := old(members)[i].balance + if id == i + 1 && !usd then delta else 0,
                                       usdCents := old(members)[i].usdCents + if id == i + 1 && usd then delta else 0)
    {
      if id == ISSUER {
        if usd {
          usdIssuance := usdIssuance + delta;
        } else {
          issuance := issuance + delta;
        }
      } else {
        MemberIndex(members, id);
        var i := MemberAt(members, id).value;
        if usd {
          members := members[i := members[i].(usdCents := members[i].usdCents + delta)];
        } else {
          members := members[i := members[i].(balance := members[i].balance + delta)];
        }
      }
    }

    /** Posts every leg in turn. */
    method PostLegs(legs: seq<(MemberId, int)>, usd: bool)
      requires Numbered(members) && forall k :: 0 <= k < |legs| ==> legs[k].0 <= |members|
      modifies this`issuance, this`usdIssuance, this`members
      ensures issuance == old(issuance) + LegSum(legs, ISSUER, usd, false)
      ensures usdIssuance == old(usdIssuance) + LegSum(legs, ISSUER, usd, true)
      ensures |members| == |old(members)|
      ensures forall i :: 0 <= i < |members| ==>
        members[i] == old(members)[i].(balance := old(members)[i].balance + LegSum(legs, i + 1, usd, false),
                                       usdCents := old(members)[i].usdCents + LegSum(legs, i + 1, usd, true))
    {
      for k := 0 to |legs|
        invariant |members| == |old(members)| && Numbered(members)
        invariant issuance == old(issuance) + LegSum(legs[..k], ISSUER, usd, false)
        invariant usdIssuance == old(usdIssuance) + LegSum(legs[..k], ISSUER, usd, true)
        invariant forall i :: 0 <= i < |members| ==>
          members[i] == old(members)[i].(balance := old(members)[i].balance + LegSum(legs[..k], i + 1, usd, false),
                                         usdCents := old(members)[i].usdCents + LegSum(legs[..k], i + 1, usd, true))
      {
        assert legs[..k + 1][..k] == legs[..k];
        PostLeg(legs[k].0, legs[k].1, usd);
      }
      assert legs[..|legs|] == legs;
    }

    /** Moves the row's amount from one account to the other. */
    method SettleRow(tx: Transaction)
      requires Numbered(members) && tx.from <= |members| && tx.to <= |members|
      modifies this`issuance, this`usdIssuance, this`members
      ensures issuance == old(issuance) + Net([tx], ISSUER, false)
      ensures usdIssuance == old(usdIssuance) + Net([tx], ISSUER, true)
      ensures members == Settle(old(members), [tx])
    {
      var legs: seq<(MemberId, int)> := [(tx.from, -tx.amount), (tx.to, tx.amount)];
      PostLegs(legs, tx.usd);
      forall id: MemberId, usd ensures LegSum(legs, id, tx.usd, usd) == Net([tx], id, usd) {
        BothLegs(tx, legs, id, usd);
      }
    }

    /** Moves money between two accounts and remembers the row, forgetting the oldest when full. */
    method RecordTransaction(tx: Transaction)
      requires Numbered(members) && tx.from <= |members| && tx.to <= |members|
      requires |history| <= HISTORY
      modifies this`transactions, this`issuance, this`usdIssuance, this`members, this`history
      ensures Value() == Recorded(old(Value()), tx)
    {
      hide Settle, Net;
      transactions := transactions + 1;
      SettleRow(tx);
      assert |history| == HISTORY ==> (history + [tx])[1..] == history[1..] + [tx];
      if |history| == HISTORY {
        history := history[1..];
      }
      history := history + [tx];
    }

    /** Closes whichever accepted offer the transaction paid for. */
    method MarkOfferReversed(transaction: nat, now: nat)
      modifies this`offers
      ensures offers == MarkOffersReversed(old(offers), transaction, now)
    {
      var i := 0;
      while i < |offers|
        invariant 0 <= i <= |offers| == |old(offers)|
        invariant forall j :: 0 <= j < i ==> offers[j] == MarkOffersReversed(old(offers), transaction, now)[j]
        invariant forall j :: i <= j < |offers| ==> offers[j] == old(offers)[j]
      {
        var o := offers[i];
        if o.phase.Accepted? && o.phase.settlement.transaction == transaction {
          offers := offers[i := o.(phase := Reversed(o.phase.settlement), updatedAt := now)];
        }
        i := i + 1;
      }
    }

    // ---- Deals ----

    method ApplyOffer(e: Event, ghost now: nat)
      requires Due(Value(), e, now) && IsOfferCommand(e.command)
      modifies this
      ensures Value() == RecordedAll(Tables(old(Value()), e), Posted(old(Value()), e)) && lifetime == old(lifetime)
    {
      match e.command {
        case MakeOffer(listing, amount, message) =>
          MakeOfferInPlace(e, listing, amount, message, now);
        case AcceptOffer(offer) =>
          AcceptOfferInPlace(e, offer, now);
        case UnacceptOffer(offer, reason) =>
          UnacceptOfferInPlace(e, offer, reason, now);
        case DeclineOffer(offer) =>
          CloseOfferInPlace(e, offer, now);
        case WithdrawOffer(offer) =>
          CloseOfferInPlace(e, offer, now);
      }
    }

    method MakeOfferInPlace(e: Event, listing: nat, amount: int, message: string, ghost now: nat)
      requires Due(Value(), e, now) && e.command == MakeOffer(listing, amount, message)
      modifies this`offers
      ensures Value() == RecordedAll(Tables(old(Value()), e), Posted(old(Value()), e))
    {
      var owner := listings[ListingAt(listings, listing).value].owner;
      if |offers| == OFFERS {
        offers := Without(offers, OldestRecyclable(offers, e.timestamp).value);
      }
      assert |offers| < OFFERS;
      offers := offers + [Offer(e.sequence, listing, owner, e.actor, amount, message,
                                e.timestamp, e.timestamp, OfferPhase.Open)];
    }

    method CloseOfferInPlace(e: Event, offer: nat, ghost now: nat)
      requires Due(Value(), e, now) && (e.command == DeclineOffer(offer) || e.command == WithdrawOffer(offer))
      modifies this`offers
      ensures Value() == RecordedAll(Tables(old(Value()), e), Posted(old(Value()), e))
    {
      hide Ready, GoodPostings, Posted, NextAccounts, NextOffers, NextListings, Corrected, Tables;
      CloseTables(Value(), e, offer, now);
      var i := OfferAt(offers, offer).value;
      offers := offers[i := offers[i].(phase := if e.command.DeclineOffer? then Declined else Withdrawn,
                                       updatedAt := e.timestamp)];
    }

    method AcceptOfferInPlace(e: Event, offer: nat, ghost now: nat)
      requires Due(Value(), e, now) && e.command == AcceptOffer(offer)
      modifies this
      ensures Value() == RecordedAll(Tables(old(Value()), e), Posted(old(Value()), e)) && lifetime == old(lifetime)
    {
      hide Ready, GoodPostings, Posted, NextAccounts, NextOffers, NextListings, Corrected, Tables;
      ghost var b := Value();
      RowsAreWithin(b, e, now);
      AcceptTables(b, e, now);
      var i := OfferAt(offers, offer).value;
      var o := offers[i];
      var k := ListingAt(listings, o.listing).value;
      var l := listings[k];
      var (payer, payee) := DealParties(l.side, o.owner, o.offerer);
      var tx := Transaction(e.sequence, e.actor, e.timestamp, payer, payee, o.amount, l.title,
                            None, false, Some(l.id), false, None);
      assert Posted(b, e) == [tx] && Posted(b, e)[0] == tx;
      offers := offers[i := o.(phase := Accepted(Settlement(e.sequence, payer, payee, e.timestamp + settlesAfter)),
                               updatedAt := e.timestamp)];
      listings := listings[k := l.(updatedAt := e.timestamp, status := Sold, buyer := Some(payer),
                                   soldTx := Some(e.sequence))];
      assert Value() == Tables(b, e);
      RecordTransaction(tx);
    }

    method UnacceptOfferInPlace(e: Event, offer: nat, reason: string, ghost now: nat)
      requires Due(Value(), e, now) && e.command == UnacceptOffer(offer, reason)
      modifies this
      ensures Value() == RecordedAll(Tables(old(Value()), e), Posted(old(Value()), e)) && lifetime == old(lifetime)
    {
      ghost var b := Value();
      RowsAreWithin(b, e, now);
      UnacceptTables(b, e, now);
      var tx := ReopenDeal(e, offer, reason, now);
      hide Ready, GoodPostings, Posted, NextAccounts, NextOffers, NextListings, Corrected, Tables, RecordedAll,
        Recorded;
      assert Posted(b, e)[0] == tx;
      OneRow(Value(), tx);
      RecordTransaction(tx);
    }

    /** Marks the payment reversed wherever it is still remembered and puts the listing back on sale. */
    method ReopenDeal(e: Event, offer: nat, reason: string, ghost now: nat) returns (tx: Transaction)
      requires Due(Value(), e, now) && e.command == UnacceptOffer(offer, reason)
      modifies this`history, this`offers, this`listings
      ensures Value() == Tables(old(Value()), e) && Posted(old(Value()), e) == [tx]
    {
      ghost var b := Value();
      UnacceptTables(b, e, now);
      hide Ready, GoodPostings, Posted, NextAccounts, NextOffers, NextListings, Corrected, Tables, MarkOffersReversed,
        MarkReversed;
      var o := offers[OfferAt(offers, offer).value];
      var s := o.phase.settlement;
      tx := Transaction(e.sequence, e.actor, e.timestamp, s.payee, s.payer, o.amount, reason,
                        Some(s.transaction), false, Some(o.listing), false, None);
      MarkRowReversed(s.transaction);
      MarkOfferReversed(s.transaction, e.timestamp);
      var k := ListingAt(listings, o.listing).value;
      var relisted := listings[k].(updatedAt := e.timestamp, status := Active, buyer := None, soldTx := None);
      listings := listings[k := relisted];
    }

    /** Flags a row, if history still holds it. */
    method MarkRowReversed(transaction: nat)
      modifies this`history
      ensures history == MarkReversed(old(history), Some(transaction))
    {
      var original := TransactionAt(history, transaction);
      if original.Some? {
        history := history[original.value := history[original.value].(reversed := true)];
      }
    }

    // ---- Quotes ----

    method ApplyForex(e: Event, ghost now: nat)
      requires Due(Value(), e, now) && IsForexCommand(e.command)
      modifies this
      ensures Value() == RecordedAll(Tables(old(Value()), e), Posted(old(Value()), e)) && lifetime == old(lifetime)
    {
      match e.command {
        case IssueUsd(to, cents, memo) =>
          RowsAreWithin(Value(), e, now);
          var tx := Transaction(e.sequence, e.actor, e.timestamp, ISSUER, to, cents, memo,
                                None, false, None, true, None);
          assert Posted(Value(), e) == [tx] && Posted(Value(), e)[0] == tx;
          assert Value() == Tables(Value(), e);
          RecordTransaction(tx);
        case PostQuote(side, rate, coins, expiresAt) =>
          if |quotes| == QUOTES {
            quotes := Without(quotes, OldestDead(quotes, e.timestamp).value);
          }
          assert |quotes| < QUOTES;
          quotes := quotes + [Quote(e.sequence, e.actor, side, rate, coins, expiresAt, e.timestamp, e.timestamp,
                                    QuoteStatus.Open, None, None, None)];
        case CancelQuote(quote) =>
          var i := QuoteAt(quotes, quote).value;
          quotes := quotes[i := quotes[i].(status := QuoteStatus.Cancelled, updatedAt := e.timestamp)];
        case TakeQuote(quote) =>
          TakeQuoteInPlace(e, quote, now);
      }
    }

    method TakeQuoteInPlace(e: Event, quote: nat, ghost now: nat)
      requires Due(Value(), e, now) && e.command == TakeQuote(quote)
      modifies this
      ensures Value() == RecordedAll(Tables(old(Value()), e), Posted(old(Value()), e)) && lifetime == old(lifetime)
    {
      ghost var b := Value();
      RowsAreWithin(b, e, now);
      TakeTables(b, e, quote, now);
      hide Ready, GoodPostings, Posted, NextAccounts, NextQuotes, Tables, RecordedAll, Recorded;
      var i := QuoteAt(quotes, quote).value;
      var q := quotes[i];
      var (seller, buyer) := q.Parties(e.actor);
      quotes := quotes[i := q.(status := Filled, taker := Some(e.actor), updatedAt := e.timestamp,
                               coinTx := Some(e.sequence), cashTx := Some(e.sequence + MAX_RECORDS))];
      var coin := Transaction(e.sequence, e.actor, e.timestamp, seller, buyer, q.coins, "Exchange",
                              None, false, None, false, Some(q.id));
      var cash := coin.(id := e.sequence + MAX_RECORDS, from := buyer, to := seller, amount := q.Cents(), usd := true);
      assert Posted(b, e)[0] == coin && Posted(b, e)[1] == cash;
      assert Value() == Tables(b, e);
      TwoRows(Value(), coin, cash);
      RecordBoth(coin, cash);
    }

    /** Both legs of an exchange. */
    method RecordBoth(coin: Transaction, cash: Transaction)
      requires Numbered(members) && |history| <= HISTORY
      requires coin.from <= |members| && coin.to <= |members| && cash.from <= |members| && cash.to <= |members|
      modifies this`transactions, this`issuance, this`usdIssuance, this`members, this`history
      ensures Value() == Recorded(Recorded(old(Value()), coin), cash)
    {
      StillNumbered(Value(), coin);
      hide Recorded;
      RecordTransaction(coin);
      RecordTransaction(cash);
    }

    // ---- Accounts ----

    /** Opens or edits accounts and settings; returns the row still to be recorded. */
    method ApplyMembership(e: Event, ghost now: nat) returns (posting: Option<Transaction>)
      requires Due(Value(), e, now) && IsMembership(e.command)
      modifies this
      ensures Value() == Tables(old(Value()), e) && lifetime == old(lifetime)
      ensures Posted(old(Value()), e) == if posting.Some? then [posting.value] else []
    {
      posting := None;
      if e.command.Provision? || e.command.CreateMember? || e.command.AddMember? {
        posting := OpenAccount(e, now);
      } else {
        EditAccount(e, now);
      }
    }

    method OpenAccount(e: Event, ghost now: nat) returns (posting: Option<Transaction>)
      requires Due(Value(), e, now) && (e.command.Provision? || e.command.CreateMember? || e.command.AddMember?)
      modifies this`household, this`members
      ensures Value() == Tables(old(Value()), e)
      ensures Posted(old(Value()), e) == if posting.Some? then [posting.value] else []
    {
      posting := None;
      match e.command {
        case Provision(householdName, username, displayName, password) =>
          household := householdName;
          AddPasswordMember(username, displayName, password, Nana, e.timestamp);
        case CreateMember(username, displayName, password, role, grant) =>
          AddPasswordMember(username, displayName, password, role, e.timestamp);
          if grant > 0 {
            posting := Some(Transaction(e.sequence, e.actor, e.timestamp, ISSUER, |members|, grant,
                                        "Initial household allocation", None, false, None, false, None));
          }
        case AddMember(name, tokenHash) =>
          var id := |members| + 1;
          assert |members| < MEMBERS;
          members := members + [Member(id, name, "", if id == 1 then Nana else User, false, None, 0, 0, e.timestamp,
                                       0, tokenHash, Zero, 0)];
      }
    }

    method EditAccount(e: Event, ghost now: nat)
      requires Due(Value(), e, now) && (e.command.Configure? || e.command.UpdateMember? || e.command.MigrateMember?)
      modifies this`household, this`initialGrant, this`currency, this`settlesAfter, this`members
      ensures Value() == Tables(old(Value()), e)
    {
      hide GoodPostings, Posted, Tables;
      EditTables(Value(), e);
      match e.command {
        case Configure(householdName, grant, currencyName, window) =>
          household := householdName;
          initialGrant := grant;
          currency := currencyName;
          if window.Some? {
            settlesAfter := if window.value == 0 then DEFAULT_SETTLEMENT else window.value;
          }
        case UpdateMember(member, name, password, role, disabled) =>
          UpdateMemberInPlace(member, name, password, role, disabled);
        case MigrateMember(member, username, password) =>
          if household == "" {
            household := "NanaCoin";
          }
          MemberIndex(members, member);
          var i := MemberAt(members, member).value;
          members := members[i := members[i].(username := username, password := Some(password), tokenHash := Zero)];
      }
    }

    method AddPasswordMember(username: string, displayName: string, password: PasswordVerifier, role: Role,
                             createdAt: nat)
      requires |members| < MEMBERS
      modifies this`members
      ensures members == old(members) + [Member(|old(members)| + 1, displayName, username, role, false, Some(password),
                                                0, 0, createdAt, 0, Zero, Zero, 0)]
    {
      members := members + [Member(|members| + 1, displayName, username, role, false, Some(password),
                                   0, 0, createdAt, 0, Zero, Zero, 0)];
    }

    method UpdateMemberInPlace(member: MemberId, name: Option<string>, password: Option<PasswordVerifier>,
                               role: Option<Role>, disabled: Option<bool>)
      requires Numbered(members) && 1 <= member <= |members|
      modifies this`members
      ensures MemberAt(old(members), member) == Some((member - 1) as nat)
      ensures members == old(members)[member - 1 := Updated(old(members)[member - 1], name, password, role, disabled)]
    {
      MemberIndex(members, member);
      var i := MemberAt(members, member).value;
      var m := members[i];
      if name.Some? {
        m := m.(name := name.value);
      }
      if password.Some? {
        m := m.(password := password, tokenHash := Zero);
      }
      if role.Some? {
        m := m.(role := role.value);
      }
      if disabled.Some? {
        m := m.(disabled := disabled.value);
      }
      members := members[i := m];
    }

    // ---- Money and the market ----

    /** Moves listings, marks corrections; returns the row still to be recorded. */
    method ApplyTrade(e: Event, ghost now: nat) returns (posting: Option<Transaction>)
      requires Due(Value(), e, now) && IsTrade(e.command)
      modifies this
      ensures Value() == Tables(old(Value()), e) && lifetime == old(lifetime)
      ensures Posted(old(Value()), e) == if posting.Some? then [posting.value] else []
    {
      posting := None;
      match e.command {
        case Issue(to, amount, memo) => posting := Some(Post(e, ISSUER, to, amount, memo));
        case Retire(from, amount, memo) => posting := Some(Post(e, from, ISSUER, amount, memo));
        case Transfer(to, amount, memo) => posting := Some(Post(e, e.actor, to, amount, memo));
        case List(_, _, _, _, _) => ListInPlace(e, now);
        case Cancel(listing) =>
          var i := ListingAt(listings, listing).value;
          listings := listings[i := listings[i].(status := ListingStatus.Cancelled, updatedAt := e.timestamp)];
        case UpdateListing(listing, title, description, price) =>
          var i := ListingAt(listings, listing).value;
          var l := listings[i].(updatedAt := e.timestamp);
          if title.Some? {
            l := l.(title := title.value);
          }
          if description.Some? {
            l := l.(description := description.value);
          }
          if price.Some? {
            l := l.(price := price.value);
          }
          listings := listings[i := l];
        case Purchase(listing) => posting := PurchaseInPlace(e, listing, now);
        case Reverse(transaction, memo) => posting := ReverseInPlace(e, transaction, memo, now);
      }
    }

    method PurchaseInPlace(e: Event, listing: nat, ghost now: nat) returns (posting: Option<Transaction>)
      requires Due(Value(), e, now) && e.command == Purchase(listing)
      modifies this`listings
      ensures Value() == Tables(old(Value()), e)
      ensures posting.Some? && Posted(old(Value()), e) == [posting.value]
    {
      var i := ListingAt(listings, listing).value;
      var l := listings[i];
      var (payer, payee) := DealParties(l.side, l.owner, e.actor);
      listings := listings[i := l.(status := Sold, updatedAt := e.timestamp, buyer := Some(payer),
                                   soldTx := Some(e.sequence))];
      posting := Some(Post(e, payer, payee, l.price, "Marketplace purchase").(listing := Some(listing)));
    }

    method ReverseInPlace(e: Event, transaction: nat, memo: string, ghost now: nat)
      returns (posting: Option<Transaction>)
      requires Due(Value(), e, now) && e.command == Reverse(transaction, memo)
      modifies this`history, this`offers
      ensures Value() == Tables(old(Value()), e)
      ensures posting.Some? && Posted(old(Value()), e) == [posting.value]
    {
      var i := TransactionAt(history, transaction).value;
      var t := history[i];
      history := history[i := t.(reversed := true)];
      posting := Some(Post(e, t.to, t.from, t.amount, memo).(reverses := Some(transaction), listing := t.listing,
                                                             usd := t.usd));
      MarkOfferReversed(transaction, e.timestamp);
    }

    method ListInPlace(e: Event, ghost now: nat)
      requires Due(Value(), e, now) && e.command.List?
      modifies this`listings
      ensures listings == NextListings(old(Value()), e)
    {
      var c := e.command;
      if |listings| == LISTINGS {
        ghost var gone := ListingToDrop(Value(), e, now);
        var i := FirstRecyclable(listings, offers, e.timestamp).value;
        listings := Without(listings, i);
      }
      assert |listings| < LISTINGS;
      listings := listings + [Listing(e.sequence, e.actor, c.title, c.description, c.price, c.side, Active, None, None,
                                      if c.details.Some? then c.details.value else ListingDetails("", "", 0),
                                      e.timestamp, e.timestamp)];
    }

    // ---- The whole event ----

    /** `apply`: every lookup it unwraps succeeds, no table overflows, and the books become exactly `Apply`. */
    method ApplyEvent(e: Event, ghost clock: nat)
      requires Valid() && Admissible(Value(), e, clock)
      modifies this
      ensures Value() == Apply(old(Value()), e)
      ensures lifetime == old(lifetime) + Posted(old(Value()), e)
      ensures Valid()
    {
      hide HouseInv, Admissible, Apply, Due;
      ghost var b, life, now := Value(), lifetime, NowFrom(clock, lastTimestamp);
      HouseStep(b, life, e, clock);
      AdmissibleIsDue(b, life, e, clock);
      ApplyInParts(b, e);
      Spread(e, now);
      ActorIsNumbered(b, e, now);
      lastTimestamp := e.timestamp;
      sequence := e.sequence;
      var i := MemberAt(members, e.actor).value;
      members := members[i := members[i].(lastRequest := e.requestId, lastCommand := Fingerprint(e.command),
                                          lastSequence := e.sequence)];
      lifetime := life + Posted(b, e);
    }

    /** Dispatches an event to its tables and records its rows. */
    method Spread(e: Event, ghost now: nat)
      requires Due(Value(), e, now)
      modifies this
      ensures Value() == RecordedAll(Tables(old(Value()), e), Posted(old(Value()), e)) && lifetime == old(lifetime)
    {
      ghost var b := Value();
      if IsForexCommand(e.command) {
        ApplyForex(e, now);
      } else if IsOfferCommand(e.command) {
        assert now == e.timestamp;
        ApplyOffer(e, now);
      } else {
        RowsAreWithin(b, e, now);
        var posting;
        if IsMembership(e.command) {
          posting := ApplyMembership(e, now);
        } else {
          posting := ApplyTrade(e, now);
        }
        if posting.Some? {
          assert Posted(b, e)[0] == posting.value;
          RecordTransaction(posting.value);
        }
      }
    }

    /** `replay`: re-validates a journalled event at its own timestamp, and applies it or changes nothing. */
    method ReplayEvent(e: Event) returns (r: Result<(), Error>)
      requires Valid()
      modifies this
      ensures Valid()
      ensures match Replay(old(Value()), e)
              case Success(b) => r == Success(()) && Value() == b && lifetime == old(lifetime) + Posted(old(Value()), e)
              case Failure(error) => r == Failure(error) && Value() == old(Value()) && lifetime == old(lifetime)
    {
      var outcome := Replay(Value(), e);
      if outcome.Failure? {
        return Failure(outcome.error);
      }
      ReplayedWasAdmissible(Value(), e);
      ApplyEvent(e, e.timestamp);
      return Success(());
    }
  }
}
