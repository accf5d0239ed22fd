/** Rows keep their identity for ever; each is reversed at most once, by its exact mirror image. */
module Reversals {
  import opened Wrappers
  import opened Types
  import opened Postings
  import opened Offers
  import opened Forex
  import opened Domain
  import opened Admission

  // ---- Row numbering ----

  /** Ids of events and of the rows they write first: the lower half of each block of 8192. */
  predicate EventId(id: nat) {
    1 <= id % 8192 <= 4096
  }

  predicate CashRow(tx: Transaction) {
    tx.quote.Some? && tx.usd
  }

  /** A row written at or before event `sequence`; cash legs, and only they, use the upper half. */
  ghost predicate Issued(tx: Transaction, sequence: nat) {
    if CashRow(tx) then MAX_RECORDS <= tx.id && EventId(tx.id - MAX_RECORDS) && tx.id - MAX_RECORDS <= sequence
    else EventId(tx.id) && tx.id <= sequence
  }

  ghost predicate NumberingInv(sequence: nat, life: seq<Transaction>) {
    && (sequence == 0 || EventId(sequence))
    && sequence <= MAX_SEQUENCE - MAX_RECORDS
    && (forall k :: 0 <= k < |life| ==> Issued(life[k], sequence))
    && (forall i, j :: 0 <= i < j < |life| ==> life[i].id != life[j].id)
  }

  // ---- Reversal discipline ----

  ghost predicate Undone(life: seq<Transaction>, id: nat) {
    exists k :: 0 <= k < |life| && life[k].reverses == Some(id)
  }

  predicate Mirrors(r: Transaction, original: Transaction) {
    && r.reverses == Some(original.id) && original.reverses.None?
    && r.from == original.to && r.to == original.from
    && r.amount == original.amount && r.usd == original.usd && r.listing == original.listing
  }

  ghost predicate HasOriginal(life: seq<Transaction>, r: Transaction, before: nat) {
    exists j :: 0 <= j < before && j < |life| && Mirrors(r, life[j])
  }

  ghost predicate DisciplineInv(life: seq<Transaction>) {
    && (forall i, j :: 0 <= i < j < |life| && life[i].reverses.Some? ==> life[i].reverses != life[j].reverses)
    && (forall k :: 0 <= k < |life| && life[k].reverses.Some? ==> HasOriginal(life, life[k], k))
  }

  /** The retained history is the tail of the lifetime ledger, with its reversed flags exact. */
  ghost predicate HistoryInv(history: seq<Transaction>, life: seq<Transaction>) {
    && |history| == Min(HISTORY, |life|)
    && forall i :: 0 <= i < |history| ==> history[i] == Flagged(life, |life| - |history| + i)
  }

  ghost function Flagged(life: seq<Transaction>, k: nat): Transaction
    requires k < |life|
  {
    life[k].(reversed := Undone(life, life[k].id))
  }

  // ---- Settlements remember the payment they stand for ----

  predicate PaymentOf(tx: Transaction, o: Offer)
    requires o.Settled()
  {
    var s := o.phase.settlement;
    && tx.id == s.transaction && tx.from == s.payer && tx.to == s.payee && tx.amount == o.amount
    && !tx.usd && tx.reverses.None? && tx.listing == Some(o.listing)
  }

  /** A settled offer's payment is in the lifetime ledger; it stands exactly while the offer is accepted. */
  ghost predicate SettlementKept(life: seq<Transaction>, o: Offer)
    requires o.Settled()
  {
    && (exists k :: 0 <= k < |life| && PaymentOf(life[k], o))
    && (o.phase.Reversed? <==> Undone(life, o.phase.settlement.transaction))
  }

  ghost predicate SettlementsInv(offers: seq<Offer>, life: seq<Transaction>) {
    forall i :: 0 <= i < |offers| && offers[i].Settled() ==> SettlementKept(life, offers[i])
  }

  ghost predicate LedgerInv(b: Books, life: seq<Transaction>) {
    && NumberingInv(b.sequence, life)
    && DisciplineInv(life)
    && HistoryInv(b.history, life)
    && SettlementsInv(b.offers, life)
  }

  // ---- What an admitted event posts ----

  /** The rows are fresh; a correcting row mirrors a standing lifetime row, and is the event's only row. */
  ghost predicate PostedShape(b: Books, life: seq<Transaction>, e: Event, txs: seq<Transaction>) {
    && |txs| <= 2
    && (|txs| >= 1 ==> txs[0].id == e.sequence && !CashRow(txs[0]))
    && (|txs| == 2 ==> txs[1].id == CashLeg(e.sequence) && CashRow(txs[1]) && txs[1].reverses.None?)
    && (forall k :: 0 <= k < |txs| ==> !txs[k].reversed)
    && (Corrected(b, e).Some? <==> |txs| == 1 && txs[0].reverses.Some?)
    && (|txs| == 2 ==> txs[0].reverses.None?)
    && (Corrected(b, e).Some? ==>
          && txs[0].reverses == Corrected(b, e)
          && HasOriginal(life, txs[0], |life|)
          && !Undone(life, txs[0].reverses.value))
  }

  lemma ReverseShape(b: Books, life: seq<Transaction>, e: Event, now: nat)
    requires LedgerInv(b, life)
    requires e.command.Reverse? && Admitted(b, e, now)
    ensures PostedShape(b, life, e, Posted(b, e))
  {
    var i := TransactionAt(b.history, e.command.transaction).value;
    var k := |life| - |b.history| + i;
    assert b.history[i] == Flagged(life, k);
    assert Mirrors(Posted(b, e)[0], life[k]);
  }

  lemma UnacceptShape(b: Books, life: seq<Transaction>, e: Event, now: nat)
    requires LedgerInv(b, life)
    requires e.command.UnacceptOffer? && Admitted(b, e, now)
    ensures PostedShape(b, life, e, Posted(b, e))
  {
    var i := OfferAt(b.offers, e.command.offer).value;
    assert SettlementKept(life, b.offers[i]);
    var k :| 0 <= k < |life| && PaymentOf(life[k], b.offers[i]);
    assert Mirrors(Posted(b, e)[0], life[k]);
  }

  lemma PostedHasShape(b: Books, life: seq<Transaction>, e: Event, now: nat)
    requires LedgerInv(b, life)
    requires Admitted(b, e, now)
    ensures PostedShape(b, life, e, Posted(b, e))
  {
    if e.command.Reverse? {
      ReverseShape(b, life, e, now);
    } else if e.command.UnacceptOffer? {
      UnacceptShape(b, life, e, now);
    }
  }

  // ---- One event ----

  lemma FreshSequence(sequence: nat)
    requires (sequence == 0 || EventId(sequence)) && NextSequence(sequence).Some?
    ensures EventId(NextSequence(sequence).value)
    ensures sequence < NextSequence(sequence).value <= MAX_SEQUENCE - MAX_RECORDS
  {
  }

  /** It is the very next id an event may have, whatever the last one was. */
  lemma NextIsLeast(sequence: nat, x: nat)
    requires (sequence == 0 || EventId(sequence)) && NextSequence(sequence).Some?
    requires sequence < x && EventId(x)
    ensures NextSequence(sequence).value <= x
  {
  }

  lemma FreshRow(life: seq<Transaction>, sequence: nat, next: nat, k: nat, id: nat)
    requires NumberingInv(sequence, life) && k < |life|
    requires EventId(next) && sequence < next
    requires id == next || id == CashLeg(next)
    ensures life[k].id != id
  {
    assert Issued(life[k], sequence);
  }

  lemma NumberingStep(b: Books, life: seq<Transaction>, e: Event, txs: seq<Transaction>)
    requires NumberingInv(b.sequence, life) && PostedShape(b, life, e, txs)
    requires NextSequence(b.sequence) == Some(e.sequence)
    ensures NumberingInv(e.sequence, life + txs)
    ensures forall k, j :: 0 <= k < |life| && 0 <= j < |txs| ==> life[k].id != txs[j].id
  {
    FreshSequence(b.sequence);
    forall k, j | 0 <= k < |life| && 0 <= j < |txs| ensures life[k].id != txs[j].id {
      FreshRow(life, b.sequence, e.sequence, k, txs[j].id);
    }
    var after := life + txs;
    forall k | 0 <= k < |after| ensures Issued(after[k], e.sequence) {
      if k < |life| {
        assert Issued(life[k], b.sequence);
      } else {
        assert after[k] == txs[k - |life|];
      }
    }
  }

  lemma UndoneAfter(b: Books, life: seq<Transaction>, e: Event, txs: seq<Transaction>, id: nat)
    requires PostedShape(b, life, e, txs)
    ensures Undone(life + txs, id) <==> Undone(life, id) || Corrected(b, e) == Some(id)
  {
    if Undone(life, id) {
      var k :| 0 <= k < |life| && life[k].reverses == Some(id);
      assert (life + txs)[k].reverses == Some(id);
    }
    if Corrected(b, e) == Some(id) {
      assert (life + txs)[|life|].reverses == Some(id);
    }
    if Undone(life + txs, id) && !Undone(life, id) {
      var k :| 0 <= k < |life + txs| && (life + txs)[k].reverses == Some(id);
      assert k >= |life|;
      assert (life + txs)[k] == txs[k - |life|];
    }
  }

  /** Whatever is undone was written before. */
  lemma UndoneWasIssued(life: seq<Transaction>, id: nat)
    requires DisciplineInv(life) && Undone(life, id)
    ensures exists j :: 0 <= j < |life| && life[j].id == id
  {
    var k :| 0 <= k < |life| && life[k].reverses == Some(id);
    assert HasOriginal(life, life[k], k);
  }

  lemma DisciplineStep(b: Books, life: seq<Transaction>, e: Event, txs: seq<Transaction>)
    requires DisciplineInv(life) && PostedShape(b, life, e, txs)
    ensures DisciplineInv(life + txs)
  {
    var after := life + txs;
    forall i, j | 0 <= i < j < |after| && after[i].reverses.Some? ensures after[i].reverses != after[j].reverses {
      if j >= |life| {
        assert after[j] == txs[j - |life|];
        if i >= |life| {
          assert after[i] == txs[i - |life|];
        }
      }
    }
    forall k | 0 <= k < |after| && after[k].reverses.Some? ensures HasOriginal(after, after[k], k) {
      if k < |life| {
        assert HasOriginal(life, life[k], k);
        var j :| 0 <= j < k && Mirrors(life[k], life[j]);
        assert Mirrors(after[k], after[j]);
      } else {
        assert k == |life| && after[k] == txs[0];
        var j :| 0 <= j < |life| && Mirrors(txs[0], life[j]);
        assert Mirrors(after[k], after[j]);
      }
    }
  }

  lemma MarkedRow(history: seq<Transaction>, target: Option<nat>, i: nat)
    requires i < |history|
    requires forall i, j :: 0 <= i < j < |history| ==> history[i].id != history[j].id
    ensures MarkReversed(history, target)[i] ==
            if target == Some(history[i].id) then history[i].(reversed := true) else history[i]
  {
  }

  lemma RetainedIdsDistinct(history: seq<Transaction>, life: seq<Transaction>)
    requires HistoryInv(history, life)
    requires forall i, j :: 0 <= i < j < |life| ==> life[i].id != life[j].id
    ensures forall i, j :: 0 <= i < j < |history| ==> history[i].id != history[j].id
  {
    forall i, j | 0 <= i < j < |history| ensures history[i].id != history[j].id {
      assert history[i] == Flagged(life, |life| - |history| + i);
      assert history[j] == Flagged(life, |life| - |history| + j);
    }
  }

  /** A row retained before the event shows exactly whether the event or an earlier one undid it. */
  lemma RetainedRow(b: Books, life: seq<Transaction>, e: Event, txs: seq<Transaction>, i: nat)
    requires LedgerInv(b, life) && PostedShape(b, life, e, txs)
    requires i < |b.history|
    ensures MarkReversed(b.history, Corrected(b, e))[i] == Flagged(life + txs, |life| - |b.history| + i)
  {
    var k := |life| - |b.history| + i;
    assert b.history[i] == Flagged(life, k);
    RetainedIdsDistinct(b.history, life);
    MarkedRow(b.history, Corrected(b, e), i);
    UndoneAfter(b, life, e, txs, life[k].id);
    assert (life + txs)[k] == life[k];
  }

  /** A row written by the event stands. */
  lemma WrittenRow(b: Books, life: seq<Transaction>, e: Event, txs: seq<Transaction>, i: nat)
    requires LedgerInv(b, life) && PostedShape(b, life, e, txs)
    requires NextSequence(b.sequence) == Some(e.sequence) && i < |txs|
    ensures txs[i] == Flagged(life + txs, |life| + i)
  {
    NumberingStep(b, life, e, txs);
    assert (life + txs)[|life| + i] == txs[i];
    UndoneAfter(b, life, e, txs, txs[i].id);
    if Undone(life, txs[i].id) {
      UndoneWasIssued(life, txs[i].id);
    }
  }

  /** Dropping the oldest of a list of exact rows leaves the exact tail. */
  lemma RecentIsExact(rows: seq<Transaction>, life: seq<Transaction>, offset: nat)
    requires offset + |rows| == |life| && Min(HISTORY, |life|) <= |rows|
    requires forall i :: 0 <= i < |rows| ==> rows[i] == Flagged(life, offset + i)
    ensures HistoryInv(Recent(rows), life)
  {
    var recent := Recent(rows);
    var dropped := |rows| - |recent|;
    forall i | 0 <= i < |recent| ensures recent[i] == Flagged(life, |life| - |recent| + i) {
      assert recent[i] == rows[dropped + i];
    }
  }

  lemma HistoryStep(b: Books, life: seq<Transaction>, e: Event, txs: seq<Transaction>)
    requires LedgerInv(b, life) && PostedShape(b, life, e, txs)
    requires NextSequence(b.sequence) == Some(e.sequence)
    ensures HistoryInv(Recent(MarkReversed(b.history, Corrected(b, e)) + txs), life + txs)
  {
    var kept := MarkReversed(b.history, Corrected(b, e));
    var rows, offset := kept + txs, |life| - |b.history|;
    forall i | 0 <= i < |rows| ensures rows[i] == Flagged(life + txs, offset + i) {
      if i < |kept| {
        RetainedRow(b, life, e, txs, i);
      } else {
        WrittenRow(b, life, e, txs, i - |kept|);
      }
    }
    RecentIsExact(rows, life + txs, offset);
  }

  /** Offers settled before the event keep their payment; the corrected one becomes reversed. */
  lemma SettlementCarries(b: Books, life: seq<Transaction>, e: Event, txs: seq<Transaction>, o: Offer, o': Offer)
    requires PostedShape(b, life, e, txs)
    requires SameSettlement(o, o', Corrected(b, e)) && SettlementKept(life, o)
    ensures SettlementKept(life + txs, o')
  {
    UndoneAfter(b, life, e, txs, o.phase.settlement.transaction);
    var k :| 0 <= k < |life| && PaymentOf(life[k], o);
    assert PaymentOf((life + txs)[k], o');
  }

  lemma AcceptedSettlement(b: Books, life: seq<Transaction>, e: Event, now: nat)
    requires LedgerInv(b, life) && NextSequence(b.sequence) == Some(e.sequence)
    requires e.command.AcceptOffer? && Admitted(b, e, now)
    ensures SettlementsInv(NextOffers(b, e), life + Posted(b, e))
  {
    var txs := Posted(b, e);
    PostedHasShapeOfOffer(b, life, e, now);
    NumberingStep(b, life, e, txs);
    var i := OfferAt(b.offers, e.command.offer).value;
    var next := NextOffers(b, e);
    forall j | 0 <= j < |next| && next[j].Settled() ensures SettlementKept(life + txs, next[j]) {
      if j == i {
        UndoneAfter(b, life, e, txs, e.sequence);
        if Undone(life, e.sequence) {
          UndoneWasIssued(life, e.sequence);
        }
        assert PaymentOf((life + txs)[|life|], next[j]);
      } else {
        assert next[j] == b.offers[j];
        SettlementCarries(b, life, e, txs, b.offers[j], next[j]);
      }
    }
  }

  lemma PostedHasShapeOfOffer(b: Books, life: seq<Transaction>, e: Event, now: nat)
    requires LedgerInv(b, life)
    requires e.command.AcceptOffer? && Admitted(b, e, now)
    ensures PostedShape(b, life, e, Posted(b, e))
  {
  }

  /** `o'` is `o` with its settlement, reversed exactly if it was before or `corrected` pays it. */
  ghost predicate SameSettlement(o: Offer, o': Offer, corrected: Option<nat>) {
    && o.Settled() && o'.Settled()
    && o'.phase.settlement == o.phase.settlement
    && o'.amount == o.amount && o'.listing == o.listing
    && (o'.phase.Reversed? <==> o.phase.Reversed? || corrected == Some(o.phase.settlement.transaction))
  }

  lemma MarkedSettlement(offers: seq<Offer>, transaction: nat, now: nat, j: nat)
    requires j < |offers| && MarkOffersReversed(offers, transaction, now)[j].Settled()
    ensures SameSettlement(offers[j], MarkOffersReversed(offers, transaction, now)[j], Some(transaction))
  {
  }

  lemma EvictedSettlement(offers: seq<Offer>, now: nat, j: nat) returns (i: nat)
    requires j < |EvictOffer(offers, now)|
    ensures i < |offers| && offers[i] == EvictOffer(offers, now)[j]
  {
    i := j;
    if |offers| >= OFFERS && OldestRecyclable(offers, now).Some? {
      var gone := OldestRecyclable(offers, now).value;
      i := if j < gone then j else j + 1;
    }
  }

  /** Every offer an event other than an acceptance leaves settled was settled before it. */
  lemma SettledBefore(b: Books, e: Event, now: nat, j: nat) returns (i: nat)
    requires !e.command.AcceptOffer? && Admitted(b, e, now)
    requires j < |NextOffers(b, e)| && NextOffers(b, e)[j].Settled()
    ensures i < |b.offers| && SameSettlement(b.offers[i], NextOffers(b, e)[j], Corrected(b, e))
  {
    i := j;
    if e.command.MakeOffer? {
      i := EvictedSettlement(b.offers, e.timestamp, j);
    } else if Corrected(b, e).Some? {
      MarkedSettlement(b.offers, Corrected(b, e).value, e.timestamp, j);
    }
  }

  lemma SettlementsStep(b: Books, life: seq<Transaction>, e: Event, now: nat)
    requires LedgerInv(b, life) && NextSequence(b.sequence) == Some(e.sequence)
    requires Admitted(b, e, now)
    ensures SettlementsInv(NextOffers(b, e), life + Posted(b, e))
  {
    if e.command.AcceptOffer? {
      AcceptedSettlement(b, life, e, now);
    } else {
      PostedHasShape(b, life, e, now);
      forall j | 0 <= j < |NextOffers(b, e)| && NextOffers(b, e)[j].Settled()
        ensures SettlementKept(life + Posted(b, e), NextOffers(b, e)[j])
      {
        var i := SettledBefore(b, e, now, j);
        SettlementCarries(b, life, e, Posted(b, e), b.offers[i], NextOffers(b, e)[j]);
      }
    }
  }

  lemma LedgerStep(b: Books, life: seq<Transaction>, e: Event, now: nat)
    requires LedgerInv(b, life) && NextSequence(b.sequence) == Some(e.sequence)
    requires Admitted(b, e, now)
    ensures LedgerInv(Apply(b, e), life + Posted(b, e))
  {
    PostedHasShape(b, life, e, now);
    NumberingStep(b, life, e, Posted(b, e));
    DisciplineStep(b, life, e, Posted(b, e));
    HistoryStep(b, life, e, Posted(b, e));
    SettlementsStep(b, life, e, now);
  }
}
