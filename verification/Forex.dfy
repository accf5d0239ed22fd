/** The bounded quote book: one event exchanges coins for cents. */
module Forex {
  import opened Wrappers
  import opened Types
  import opened Postings
  import Offers

  predicate IsForexCommand(c: Command) {
    c.IssueUsd? || c.PostQuote? || c.TakeQuote? || c.CancelQuote?
  }

  function ValidateForex(b: Books, actor: MemberId, c: Command, now: nat): Result<(), Error>
    requires IsForexCommand(c)
  {
    match c
    case IssueUsd(to, cents, _) =>
      var _ :- Admin(b, actor);
      ValidateCurrencyPosting(b, ISSUER, to, cents, false, true)
    case PostQuote(_, rate, coins, expiresAt) =>
      :- Need(MIN_CLOCK <= now <= MAX_SEQUENCE, Unavailable);
      :- Need(1 <= rate <= 10_000 && 1 <= coins <= 100_000
              && (expiresAt == 0 || now < expiresAt) && expiresAt <= MAX_SEQUENCE, InvalidInput);
      :- Need(|b.quotes| < QUOTES || exists i :: 0 <= i < |b.quotes| && !b.quotes[i].Live(now), Capacity);
      Success(())
    case TakeQuote(quote) =>
      :- Need(MIN_CLOCK <= now <= MAX_SEQUENCE, Unavailable);
      var q :- FindQuote(b, quote);
      :- Need(q.maker != actor, SelfDeal);
      :- Need(q.Live(now), Conflict);
      var (seller, buyer) := q.Parties(actor);
      var _ :- ValidateCurrencyPosting(b, seller, buyer, q.coins, false, false);
      ValidateCurrencyPosting(b, buyer, seller, q.Cents(), false, true)
    case CancelQuote(quote) =>
      var q :- FindQuote(b, quote);
      var _ :- if q.maker != actor then Admin(b, actor) else Success(());
      :- Need(q.status == QuoteStatus.Open, Conflict);
      Success(())
  }

  predicate QuoteBefore(a: Quote, b: Quote) {
    a.updatedAt < b.updatedAt || (a.updatedAt == b.updatedAt && a.id < b.id)
  }

  /** Quote `i` is the dead one with the least (updatedAt, id), the earliest in the table on a tie. */
  ghost predicate IsOldestDead(quotes: seq<Quote>, now: nat, i: nat) {
    && i < |quotes| && !quotes[i].Live(now)
    && forall j :: 0 <= j < |quotes| && !quotes[j].Live(now) ==>
         QuoteBefore(quotes[i], quotes[j])
         || (quotes[i].updatedAt == quotes[j].updatedAt && quotes[i].id == quotes[j].id && i <= j)
  }

  function OldestDead(quotes: seq<Quote>, now: nat): (r: Option<nat>)
    ensures r.None? ==> forall i :: 0 <= i < |quotes| ==> quotes[i].Live(now)
    ensures r.Some? ==> IsOldestDead(quotes, now, r.value)
  {
    if quotes == [] then None
    else
      var last := |quotes| - 1;
      var rest := OldestDead(quotes[..last], now);
      assert forall i :: 0 <= i < last ==> quotes[..last][i] == quotes[i];
      if quotes[last].Live(now) then rest
      else if rest.None? || QuoteBefore(quotes[last], quotes[rest.value]) then Some(last)
      else rest
  }

  function EvictQuote(quotes: seq<Quote>, now: nat): seq<Quote> {
    if |quotes| < QUOTES then quotes
    else
      match OldestDead(quotes, now)
      case None => quotes
      case Some(i) => Offers.Without(quotes, i)
  }

  /** The id of the cash leg that goes with the coin leg of an event. */
  function CashLeg(sequence: nat): nat {
    sequence + MAX_RECORDS
  }

  /** The quotes after an event. */
  function NextQuotes(b: Books, e: Event): seq<Quote> {
    match e.command
    case PostQuote(side, rate, coins, expiresAt) =>
      EvictQuote(b.quotes, e.timestamp) +
      [Quote(e.sequence, e.actor, side, rate, coins, expiresAt, e.timestamp, e.timestamp,
             QuoteStatus.Open, None, None, None)]
    case CancelQuote(quote) =>
      (match QuoteAt(b.quotes, quote)
       case None => b.quotes
       case Some(i) =>
         b.quotes[i := b.quotes[i].(status := QuoteStatus.Cancelled, updatedAt := e.timestamp)])
    case TakeQuote(quote) =>
      (match QuoteAt(b.quotes, quote)
       case None => b.quotes
       case Some(i) =>
         b.quotes[i := b.quotes[i].(status := Filled, taker := Some(e.actor), updatedAt := e.timestamp,
                                    coinTx := Some(e.sequence), cashTx := Some(CashLeg(e.sequence)))])
    case _ => b.quotes
  }
}
