/** Exchanges are atomic: a filled quote has exactly one coin leg and one cash leg, for ever. */
module QuoteBook {
  import opened Wrappers
  import opened Types
  import opened Postings
  import opened Offers
  import opened Forex
  import opened Domain
  import opened Admission
  import opened Accounts
  import opened Reversals
  import opened Sales

  function CentsAt(coins: int, rate: int): int {
    coins * rate
  }

  /** Two rows of one exchange: coins one way, their exact price in cents the other way. */
  ghost predicate LegPair(coin: Transaction, cash: Transaction) {
    && coin.quote.Some? && cash.quote == coin.quote
    && !coin.usd && cash.usd
    && coin.from == cash.to && coin.to == cash.from
    && cash.id == CashLeg(coin.id)
    && coin.reverses.None? && cash.reverses.None?
    && 1 <= cash.amount <= MAX_AMOUNT
    && exists rate :: 1 <= rate <= 10_000 && cash.amount == CentsAt(coin.amount, rate)
  }

  ghost predicate InPair(life: seq<Transaction>, k: nat, sequence: nat)
    requires k < |life| && life[k].quote.Some?
  {
    && life[k].quote.value <= sequence
    && (if life[k].usd then k >= 1 && LegPair(life[k - 1], life[k])
        else k + 1 < |life| && LegPair(life[k], life[k + 1]))
  }

  ghost predicate OnePairPerQuote(life: seq<Transaction>) {
    forall i, j :: 0 <= i < j < |life| && life[i].quote.Some? && life[i].quote == life[j].quote ==>
      life[i].usd != life[j].usd
  }

  /** Every row that carries a quote id is one leg of a complete pair, and no quote has two pairs. */
  ghost predicate LegsInv(life: seq<Transaction>, sequence: nat) {
    && (forall k :: 0 <= k < |life| && life[k].quote.Some? ==> InPair(life, k, sequence))
    && OnePairPerQuote(life)
  }

  ghost predicate Exchanged(life: seq<Transaction>, q: Quote, k: nat) {
    && k + 1 < |life|
    && q.taker.Some?
    && LegPair(life[k], life[k + 1])
    && life[k].quote == Some(q.id)
    && q.coinTx == Some(life[k].id) && q.cashTx == Some(life[k + 1].id)
    && (life[k].from, life[k].to) == q.Parties(q.taker.value)
    && life[k].amount == q.coins && life[k + 1].amount == q.Cents()
  }

  ghost predicate QuoteKept(life: seq<Transaction>, q: Quote, sequence: nat, members: nat) {
    && q.id <= sequence
    && 1 <= q.maker <= members
    && 1 <= q.centsPerCoin <= 10_000 && 1 <= q.coins <= 100_000 && q.expiresAt <= MAX_SEQUENCE
    && (q.status == Filled <==> q.taker.Some?)
    && (q.status == Filled <==> q.coinTx.Some?)
    && (q.status == Filled <==> q.cashTx.Some?)
    && (q.status == Filled ==> exists k :: Exchanged(life, q, k))
    && (q.status != Filled ==> forall k :: 0 <= k < |life| ==> life[k].quote != Some(q.id))
  }

  function QuoteIds(quotes: seq<Quote>): (r: seq<nat>)
    ensures |r| == |quotes|
  {
    seq(|quotes|, i requires 0 <= i < |quotes| => quotes[i].id)
  }

  ghost predicate QuotesInv(b: Books, life: seq<Transaction>) {
    && |b.quotes| <= QUOTES && Ascending(QuoteIds(b.quotes))
    && LegsInv(life, b.sequence)
    && forall i :: 0 <= i < |b.quotes| ==> QuoteKept(life, b.quotes[i], b.sequence, |b.members|)
  }

  // ---- One event ----

  /** The quote an event fills. */
  function FilledBy(b: Books, e: Event): Option<nat> {
    if e.command.TakeQuote? then Some(e.command.quote) else None
  }

  lemma OnlyExchangesCarryQuotes(b: Books, e: Event, k: nat)
    requires k < |Posted(b, e)| && Posted(b, e)[k].quote.Some?
    ensures FilledBy(b, e) == Posted(b, e)[k].quote
  {
  }

  lemma TakenPair(b: Books, life: seq<Transaction>, e: Event, now: nat) returns (i: nat)
    requires Stepping(b, life, e, now) && QuotesInv(b, life) && e.command.TakeQuote?
    ensures QuoteAt(b.quotes, e.command.quote) == Some(i) && i < |b.quotes|
    ensures b.quotes[i].id == e.command.quote && b.quotes[i].status == QuoteStatus.Open
    ensures |Posted(b, e)| == 2 && LegPair(Posted(b, e)[0], Posted(b, e)[1])
    ensures |NextQuotes(b, e)| == |b.quotes| && Exchanged(life + Posted(b, e), NextQuotes(b, e)[i], |life|)
    ensures NextQuotes(b, e) == b.quotes[i := NextQuotes(b, e)[i]]
    ensures NextQuotes(b, e)[i] == b.quotes[i].(status := Filled, taker := Some(e.actor), updatedAt := e.timestamp,
              coinTx := Some(e.sequence), cashTx := Some(CashLeg(e.sequence)))
  {
    i := QuoteAt(b.quotes, e.command.quote).value;
    var q := b.quotes[i];
    assert QuoteKept(life, q, b.sequence, |b.members|);
    var txs := Posted(b, e);
    assert Sound(txs[1], |NextAccounts(b, e)|);
    assert txs[1].amount == CentsAt(txs[0].amount, q.centsPerCoin);
    assert LegPair(txs[0], txs[1]);
    assert (life + txs)[|life|] == txs[0] && (life + txs)[|life| + 1] == txs[1];
  }

  /** A row of the lifetime ledger after the event that carries a quote. */
  lemma QuotedRow(b: Books, life: seq<Transaction>, e: Event, now: nat, k: nat)
    requires Stepping(b, life, e, now) && QuotesInv(b, life)
    requires k < |life + Posted(b, e)| && (life + Posted(b, e))[k].quote.Some?
    ensures k >= |life| ==> e.command.TakeQuote? && (life + Posted(b, e))[k].quote == Some(e.command.quote)
    ensures k < |life| ==> (life + Posted(b, e))[k] == life[k]
    ensures e.command.TakeQuote? && k < |life| ==> life[k].quote != Some(e.command.quote)
  {
    if k >= |life| {
      OnlyExchangesCarryQuotes(b, e, k - |life|);
    }
    if e.command.TakeQuote? {
      var i := TakenPair(b, life, e, now);
      assert QuoteKept(life, b.quotes[i], b.sequence, |b.members|);
    }
  }

  lemma PairsStep(b: Books, life: seq<Transaction>, e: Event, now: nat, k: nat)
    requires Stepping(b, life, e, now) && QuotesInv(b, life)
    requires k < |life + Posted(b, e)| && (life + Posted(b, e))[k].quote.Some?
    ensures InPair(life + Posted(b, e), k, e.sequence)
  {
    var after := life + Posted(b, e);
    FreshSequence(b.sequence);
    QuotedRow(b, life, e, now, k);
    if k < |life| {
      assert InPair(life, k, b.sequence);
      if after[k].usd {
        assert after[k - 1] == life[k - 1];
      } else {
        assert after[k + 1] == life[k + 1];
      }
    } else {
      var i := TakenPair(b, life, e, now);
      assert QuoteKept(life, b.quotes[i], b.sequence, |b.members|);
      assert after[|life|] == Posted(b, e)[0] && after[|life| + 1] == Posted(b, e)[1];
    }
  }

  lemma OnePairStep(b: Books, life: seq<Transaction>, e: Event, now: nat)
    requires Stepping(b, life, e, now) && QuotesInv(b, life)
    ensures OnePairPerQuote(life + Posted(b, e))
  {
    var txs := Posted(b, e);
    if e.command.TakeQuote? {
      var i := TakenPair(b, life, e, now);
      assert QuoteKept(life, b.quotes[i], b.sequence, |b.members|);
    }
    forall k | 0 <= k < |txs| && txs[k].quote.Some? ensures txs[k].quote == FilledBy(b, e) {
      OnlyExchangesCarryQuotes(b, e, k);
    }
    OnePairEach(life, txs, FilledBy(b, e));
  }

  lemma LegsStep(b: Books, life: seq<Transaction>, e: Event, now: nat)
    requires Stepping(b, life, e, now) && QuotesInv(b, life)
    ensures LegsInv(life + Posted(b, e), e.sequence)
  {
    var after := life + Posted(b, e);
    forall k | 0 <= k < |after| && after[k].quote.Some? ensures InPair(after, k, e.sequence) {
      PairsStep(b, life, e, now, k);
    }
    OnePairStep(b, life, e, now);
  }

  lemma OnePairEach(life: seq<Transaction>, txs: seq<Transaction>, filled: Option<nat>)
    requires OnePairPerQuote(life)
    requires forall k :: 0 <= k < |txs| && txs[k].quote.Some? ==> txs[k].quote == filled
    requires filled.Some? ==> forall k :: 0 <= k < |life| ==> life[k].quote != filled
    requires filled.Some? ==> |txs| == 2 && !txs[0].usd && txs[1].usd
    ensures OnePairPerQuote(life + txs)
  {
    var after := life + txs;
    forall i, j | 0 <= i < j < |after| && after[i].quote.Some? && after[i].quote == after[j].quote
      ensures after[i].usd != after[j].usd
    {
      if j >= |life| {
        assert after[j] == txs[j - |life|];
        if i >= |life| {
          assert after[i] == txs[i - |life|];
        }
      }
    }
  }

  /** A quote the event does not fill keeps its record. */
  lemma UnfilledQuoteKept(life: seq<Transaction>, txs: seq<Transaction>, q: Quote, q': Quote,
                          sequence: nat, sequence': nat, members: nat, members': nat)
    requires QuoteKept(life, q, sequence, members) && sequence <= sequence' && members <= members'
    requires forall k :: 0 <= k < |txs| ==> txs[k].quote != Some(q.id)
    requires q' == q || (q.status == QuoteStatus.Open
                         && q' == q.(status := QuoteStatus.Cancelled, updatedAt := q'.updatedAt))
    ensures QuoteKept(life + txs, q', sequence', members')
  {
    var after := life + txs;
    if q.status == Filled {
      var k: nat :| Exchanged(life, q, k);
      assert after[k] == life[k] && after[k + 1] == life[k + 1];
      assert Exchanged(after, q', k);
    }
  }

  lemma UnfilledQuote(b: Books, life: seq<Transaction>, e: Event, now: nat, j: nat, q': Quote, members: nat)
    requires Stepping(b, life, e, now) && QuotesInv(b, life) && |b.members| <= members
    requires j < |b.quotes| && FilledBy(b, e) != Some(b.quotes[j].id)
    requires q' == b.quotes[j] || (b.quotes[j].status == QuoteStatus.Open
                         && q' == b.quotes[j].(status := QuoteStatus.Cancelled, updatedAt := q'.updatedAt))
    ensures QuoteKept(life + Posted(b, e), q', e.sequence, members)
  {
    FreshSequence(b.sequence);
    forall k | 0 <= k < |Posted(b, e)| ensures Posted(b, e)[k].quote != Some(b.quotes[j].id) {
      if Posted(b, e)[k].quote.Some? {
        OnlyExchangesCarryQuotes(b, e, k);
      }
    }
    UnfilledQuoteKept(life, Posted(b, e), b.quotes[j], q', b.sequence, e.sequence, |b.members|, members);
  }

  lemma UniqueQuote(quotes: seq<Quote>, i: nat, j: nat)
    requires Ascending(QuoteIds(quotes))
    requires i < |quotes| && j < |quotes| && quotes[i].id == quotes[j].id
    ensures i == j
  {
    assert QuoteIds(quotes)[i] == QuoteIds(quotes)[j];
  }

  ghost predicate AmongQuotes(quotes: seq<Quote>, q: Quote) {
    exists i :: 0 <= i < |quotes| && quotes[i] == q
  }

  /** Room is made for a new quote only by dropping a dead one. */
  lemma EvictedQuotes(b: Books, e: Event, now: nat)
    requires Ascending(QuoteIds(b.quotes)) && |b.quotes| <= QUOTES
    requires e.command.PostQuote? && Admitted(b, e, now) && now == e.timestamp
    ensures var kept := EvictQuote(b.quotes, e.timestamp);
            && |kept| < QUOTES && Ascending(QuoteIds(kept))
            && (forall i :: 0 <= i < |kept| ==> AmongQuotes(b.quotes, kept[i]))
            && (forall j :: 0 <= j < |b.quotes| && b.quotes[j].Live(e.timestamp) ==> AmongQuotes(kept, b.quotes[j]))
  {
    if |b.quotes| == QUOTES {
      var gone := OldestDead(b.quotes, e.timestamp).value;
      var kept := EvictQuote(b.quotes, e.timestamp);
      AscendingWithout(QuoteIds(b.quotes), gone);
      assert QuoteIds(kept) == Without(QuoteIds(b.quotes), gone);
      forall j | 0 <= j < |b.quotes| && j != gone ensures AmongQuotes(kept, b.quotes[j]) {
        assert kept[if j < gone then j else j - 1] == b.quotes[j];
      }
    }
  }

  lemma PostedQuoteIds(b: Books, life: seq<Transaction>, e: Event, now: nat)
    requires Stepping(b, life, e, now) && QuotesInv(b, life) && e.command.PostQuote?
    ensures |NextQuotes(b, e)| <= QUOTES && Ascending(QuoteIds(NextQuotes(b, e)))
  {
    FreshSequence(b.sequence);
    EvictedQuotes(b, e, now);
    var kept, next := EvictQuote(b.quotes, e.timestamp), NextQuotes(b, e);
    forall i, j | 0 <= i < j < |next| ensures QuoteIds(next)[i] < QuoteIds(next)[j] {
      if j < |kept| {
        assert QuoteIds(kept)[i] < QuoteIds(kept)[j];
      } else {
        assert AmongQuotes(b.quotes, kept[i]);
        var k :| 0 <= k < |b.quotes| && b.quotes[k] == kept[i];
        assert QuoteKept(life, b.quotes[k], b.sequence, |b.members|);
      }
    }
  }

  lemma NewQuoteKept(b: Books, life: seq<Transaction>, e: Event, now: nat, q: Quote)
    requires Stepping(b, life, e, now) && QuotesInv(b, life) && e.command.PostQuote?
    requires NextQuotes(b, e) != [] && q == NextQuotes(b, e)[|NextQuotes(b, e)| - 1]
    ensures QuoteKept(life + Posted(b, e), q, e.sequence, |b.members|)
  {
    FreshSequence(b.sequence);
  }

  lemma PostedQuotes(b: Books, life: seq<Transaction>, e: Event, now: nat)
    requires Stepping(b, life, e, now) && QuotesInv(b, life) && e.command.PostQuote?
    ensures var next := NextQuotes(b, e);
            && |next| <= QUOTES && Ascending(QuoteIds(next))
            && forall i :: 0 <= i < |next| ==> QuoteKept(life + Posted(b, e), next[i], e.sequence, |b.members|)
  {
    PostedQuoteIds(b, life, e, now);
    EvictedQuotes(b, e, now);
    var kept, next := EvictQuote(b.quotes, e.timestamp), NextQuotes(b, e);
    forall i | 0 <= i < |next| ensures QuoteKept(life + Posted(b, e), next[i], e.sequence, |b.members|) {
      if i < |kept| {
        assert AmongQuotes(b.quotes, kept[i]);
        var j :| 0 <= j < |b.quotes| && b.quotes[j] == kept[i];
        UnfilledQuote(b, life, e, now, j, next[i], |b.members|);
      } else {
        NewQuoteKept(b, life, e, now, next[i]);
      }
    }
  }

  lemma OtherQuotes(b: Books, life: seq<Transaction>, e: Event, now: nat, members: nat)
    requires Stepping(b, life, e, now) && QuotesInv(b, life) && !e.command.PostQuote? && |b.members| <= members
    ensures var next := NextQuotes(b, e);
            && |next| == |b.quotes| && QuoteIds(next) == QuoteIds(b.quotes)
            && forall i :: 0 <= i < |next| ==> QuoteKept(life + Posted(b, e), next[i], e.sequence, members)
  {
    FreshSequence(b.sequence);
    var next := NextQuotes(b, e);
    forall i | 0 <= i < |next| ensures QuoteKept(life + Posted(b, e), next[i], e.sequence, members) {
      assert QuoteKept(life, b.quotes[i], b.sequence, |b.members|);
      if e.command.TakeQuote? {
        var t := TakenPair(b, life, e, now);
        if i != t {
          if b.quotes[i].id == b.quotes[t].id {
            UniqueQuote(b.quotes, i, t);
          }
          UnfilledQuote(b, life, e, now, i, next[i], members);
        }
      } else {
        UnfilledQuote(b, life, e, now, i, next[i], members);
      }
    }
  }

  lemma QuotesStep(b: Books, life: seq<Transaction>, e: Event, now: nat)
    requires Stepping(b, life, e, now) && QuotesInv(b, life)
    ensures QuotesInv(Apply(b, e), life + Posted(b, e))
  {
    NextAccountsKeep(b, e, now);
    LegsStep(b, life, e, now);
    if e.command.PostQuote? {
      PostedQuotes(b, life, e, now);
    } else {
      OtherQuotes(b, life, e, now, |Apply(b, e).members|);
    }
  }

  /** No live quote is ever evicted or otherwise touched: one that is live at an event's time is unchanged by it,
      unless the event takes or cancels this very quote, and then only its closing fields change. */
  lemma LiveQuotesSurvive(b: Books, life: seq<Transaction>, e: Event, now: nat, j: nat)
    requires Stepping(b, life, e, now) && QuotesInv(b, life)
    requires j < |b.quotes| && b.quotes[j].Live(e.timestamp)
    ensures exists i :: 0 <= i < |NextQuotes(b, e)| && Survives(b.quotes[j], e, NextQuotes(b, e)[i])
  {
    var next := NextQuotes(b, e);
    if e.command.PostQuote? {
      EvictedQuotes(b, e, now);
      var kept := EvictQuote(b.quotes, e.timestamp);
      assert AmongQuotes(kept, b.quotes[j]);
      var i :| 0 <= i < |kept| && kept[i] == b.quotes[j];
      assert next[i] == b.quotes[j];
      assert Survives(b.quotes[j], e, next[i]);
    } else {
      ClosedOnlyByName(b, life, e, now, j);
    }
  }

  /** What an event leaves of a quote that was live. */
  predicate Survives(q: Quote, e: Event, q': Quote) {
    match e.command
    case TakeQuote(quote) =>
      if quote == q.id then
        q' == q.(status := Filled, taker := Some(e.actor), updatedAt := e.timestamp, coinTx := Some(e.sequence),
                 cashTx := Some(CashLeg(e.sequence)))
      else q' == q
    case CancelQuote(quote) =>
      if quote == q.id then q' == q.(status := QuoteStatus.Cancelled, updatedAt := e.timestamp) else q' == q
    case _ => q' == q
  }

  lemma ClosedOnlyByName(b: Books, life: seq<Transaction>, e: Event, now: nat, j: nat)
    requires Stepping(b, life, e, now) && QuotesInv(b, life) && !e.command.PostQuote? && j < |b.quotes|
    ensures |NextQuotes(b, e)| == |b.quotes| && Survives(b.quotes[j], e, NextQuotes(b, e)[j])
  {
    if e.command.TakeQuote? && e.command.quote == b.quotes[j].id {
      UniqueQuote(b.quotes, j, QuoteAt(b.quotes, e.command.quote).value);
    } else if e.command.CancelQuote? && e.command.quote == b.quotes[j].id {
      UniqueQuote(b.quotes, j, QuoteAt(b.quotes, e.command.quote).value);
    }
  }
}
