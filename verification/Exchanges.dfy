/** Every exchange ever made is one taking of one posted quote, on exactly the terms it was posted on. */
module Exchanges {
  import opened Wrappers
  import opened Types
  import opened Postings
  import opened Forex
  import opened Domain
  import opened Admission
  import opened QuoteBook
  import opened Runs
  import opened Authority

  /** Event `n` posted a quote, the later event `m` took it, and these two rows pay what the quote offered: its coins
      from seller to buyer and their price, at its rate, back in cents, before it expired. */
  ghost predicate OnTerms(events: seq<Event>, n: nat, m: nat, coin: Transaction, cash: Transaction) {
    && n < m < |events| && events[n].command.PostQuote?
    && events[m].command == TakeQuote(events[n].sequence)
    && var (posted, maker, taker) := (events[n].command, events[n].actor, events[m].actor);
       && coin.quote == cash.quote == Some(events[n].sequence)
       && coin.id == events[m].sequence && cash.id == CashLeg(coin.id)
       && !coin.usd && cash.usd
       && (coin.from, coin.to) == (if posted.quoteSide.Ask? then (maker, taker) else (taker, maker))
       && (cash.from, cash.to) == (coin.to, coin.from)
       && coin.amount == posted.coins && cash.amount == posted.coins * posted.centsPerCoin
       && (posted.expiresAt == 0 || events[m].timestamp < posted.expiresAt)
  }

  lemma TakenOnTerms(b: Books, life: seq<Transaction>, events: seq<Event>, e: Event, clock: nat) returns (n: nat)
    requires HouseInv(b, life) && AuthorsInv(b, events) && Admissible(b, e, clock) && e.command.TakeQuote?
    ensures |Posted(b, e)| == 2 && OnTerms(events + [e], n, |events|, Posted(b, e)[0], Posted(b, e)[1])
  {
    hide HouseInv, AuthorsInv, Admissible, Apply, Posted;
    var i := TakenRows(b, life, e, clock);
    n := PostedBy(b, events, i);
    assert (events + [e])[n] == events[n];
  }

  lemma TakenRows(b: Books, life: seq<Transaction>, e: Event, clock: nat) returns (i: nat)
    requires HouseInv(b, life) && Admissible(b, e, clock) && e.command.TakeQuote?
    ensures i < |b.quotes| && b.quotes[i].id == e.command.quote && |Posted(b, e)| == 2
    ensures var (q, coin, cash) := (b.quotes[i], Posted(b, e)[0], Posted(b, e)[1]);
            && coin.quote == cash.quote == Some(q.id) && coin.id == e.sequence && cash.id == CashLeg(coin.id)
            && !coin.usd && cash.usd
            && (coin.from, coin.to) == (if q.side.Ask? then (q.maker, e.actor) else (e.actor, q.maker))
            && (cash.from, cash.to) == (coin.to, coin.from)
            && coin.amount == q.coins && cash.amount == q.coins * q.centsPerCoin
            && (q.expiresAt == 0 || e.timestamp < q.expiresAt)
  {
    hide HouseInv;
    i := QuoteToTake(b, e, clock);
  }

  /** A quote is taken only while it is live, at the very time its taker's event is stamped with. */
  lemma QuoteToTake(b: Books, e: Event, clock: nat) returns (i: nat)
    requires Admissible(b, e, clock) && e.command.TakeQuote?
    ensures QuoteAt(b.quotes, e.command.quote) == Some(i) && i < |b.quotes|
    ensures b.quotes[i].expiresAt == 0 || e.timestamp < b.quotes[i].expiresAt
  {
    hide ValidateCurrencyPosting, Posted;
    i := QuoteAt(b.quotes, e.command.quote).value;
  }

  lemma PostedBy(b: Books, events: seq<Event>, i: nat) returns (n: nat)
    requires AuthorsInv(b, events) && i < |b.quotes|
    ensures n < |events| && Posts(events[n], b.quotes[i])
  {
    assert Quoted(events, b.quotes[i]);
    n :| 0 <= n < |events| && Posts(events[n], b.quotes[i]);
  }

  /** Every row that carries a quote, however long ago the quote left the book, is one leg of a pair that pays exactly
      what some member posted, between that member and the one who took it; and no third row carries that quote. */
  lemma ExchangesAreAtomic(steps: seq<Step>, k: nat) returns (coin: nat, n: nat, m: nat)
    requires ValidRun(steps) && k < |Lifetime(steps)| && Lifetime(steps)[k].quote.Some?
    ensures coin + 1 < |Lifetime(steps)| && (k == coin || k == coin + 1)
    ensures OnTerms(Events(steps), n, m, Lifetime(steps)[coin], Lifetime(steps)[coin + 1])
    ensures forall j :: 0 <= j < |Lifetime(steps)| && Lifetime(steps)[j].quote == Lifetime(steps)[k].quote ==>
              j == coin || j == coin + 1
  {
    hide After, Lifetime, Events, OnTerms, LegPair;
    coin, n, m := PaidOnTerms(steps, k);
    PairAgrees(Events(steps), n, m, Lifetime(steps)[coin], Lifetime(steps)[coin + 1]);
    LegsArePaired(steps, coin);
  }

  lemma PairAgrees(events: seq<Event>, n: nat, m: nat, coin: Transaction, cash: Transaction)
    requires OnTerms(events, n, m, coin, cash)
    ensures coin.quote.Some? && coin.quote == cash.quote && !coin.usd
  {
  }

  lemma {:induction false} PaidOnTerms(steps: seq<Step>, k: nat) returns (coin: nat, n: nat, m: nat)
    requires ValidRun(steps) && k < |Lifetime(steps)| && Lifetime(steps)[k].quote.Some?
    ensures coin + 1 < |Lifetime(steps)| && (k == coin || k == coin + 1)
    ensures OnTerms(Events(steps), n, m, Lifetime(steps)[coin], Lifetime(steps)[coin + 1])
  {
    hide Posted, Apply, Admissible, Events, OnTerms;
    var front, last := steps[..|steps| - 1], steps[|steps| - 1];
    assert front + [last] == steps;
    OneMoreStep(front, last);
    var life := Lifetime(front);
    if k < |life| {
      coin, n, m := PaidOnTerms(front, k);
      TermsLast(Events(front), last.event, n, m, life[coin], life[coin + 1]);
    } else {
      RunsKeepHouse(front);
      RowsHaveAuthors(front);
      hide After, HouseInv, AuthorsInv;
      OnlyTakingsPost(After(front), life, last.event, last.clock, k - |life|);
      n := TakenOnTerms(After(front), life, Events(front), last.event, last.clock);
      coin, m := |life|, |front|;
    }
  }

  lemma TermsLast(events: seq<Event>, e: Event, n: nat, m: nat, coin: Transaction, cash: Transaction)
    requires OnTerms(events, n, m, coin, cash)
    ensures OnTerms(events + [e], n, m, coin, cash)
  {
  }

  lemma OnlyTakingsPost(b: Books, life: seq<Transaction>, e: Event, clock: nat, k: nat)
    requires HouseInv(b, life) && Admissible(b, e, clock) && k < |Posted(b, e)| && Posted(b, e)[k].quote.Some?
    ensures e.command.TakeQuote?
  {
    ValidatedIsAdmitted(b, e, NowFrom(clock, b.lastTimestamp));
    OnlyExchangesCarryQuotes(b, e, k);
  }
}
