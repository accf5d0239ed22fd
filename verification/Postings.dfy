/** Row lookups, admission of postings, and what recording postings does to balances and history. */
module Postings {
  import opened Wrappers
  import opened Types

  // ---- Lookups: the first row with the id, as `iter().find` returns it ----

  function MemberAt(members: seq<Member>, id: MemberId): (r: Option<nat>)
    ensures r.None? ==> forall i :: 0 <= i < |members| ==> members[i].id != id
    ensures r.Some? ==> r.value < |members| && members[r.value].id == id
  {
    Position(members, (m: Member) => m.id == id)
  }

  function ListingAt(listings: seq<Listing>, id: nat): (r: Option<nat>)
    ensures r.None? ==> forall i :: 0 <= i < |listings| ==> listings[i].id != id
    ensures r.Some? ==> r.value < |listings| && listings[r.value].id == id
  {
    Position(listings, (l: Listing) => l.id == id)
  }

  function OfferAt(offers: seq<Offer>, id: nat): (r: Option<nat>)
    ensures r.None? ==> forall i :: 0 <= i < |offers| ==> offers[i].id != id
    ensures r.Some? ==> r.value < |offers| && offers[r.value].id == id
  {
    Position(offers, (o: Offer) => o.id == id)
  }

  function QuoteAt(quotes: seq<Quote>, id: nat): (r: Option<nat>)
    ensures r.None? ==> forall i :: 0 <= i < |quotes| ==> quotes[i].id != id
    ensures r.Some? ==> r.value < |quotes| && quotes[r.value].id == id
  {
    Position(quotes, (q: Quote) => q.id == id)
  }

  function TransactionAt(history: seq<Transaction>, id: nat): (r: Option<nat>)
    ensures r.None? ==> forall i :: 0 <= i < |history| ==> history[i].id != id
    ensures r.Some? ==> r.value < |history| && history[r.value].id == id
  {
    Position(history, (t: Transaction) => t.id == id)
  }

  function FindMember(b: Books, id: MemberId): (r: Result<Member, Error>)
    ensures r.Success? ==> r.value in b.members && r.value.id == id
    ensures r.Failure? ==> r.error == NotFound
  {
    match MemberAt(b.members, id)
    case None => Failure(NotFound)
    case Some(i) => Success(b.members[i])
  }

  function FindListing(b: Books, id: nat): (r: Result<Listing, Error>)
    ensures r.Success? ==> r.value in b.listings && r.value.id == id
    ensures r.Failure? ==> r.error == NotFound
  {
    match ListingAt(b.listings, id)
    case None => Failure(NotFound)
    case Some(i) => Success(b.listings[i])
  }

  function FindOffer(b: Books, id: nat): (r: Result<Offer, Error>)
    ensures r.Success? ==> r.value in b.offers && r.value.id == id
    ensures r.Failure? ==> r.error == NotFound
  {
    match OfferAt(b.offers, id)
    case None => Failure(NotFound)
    case Some(i) => Success(b.offers[i])
  }

  function FindQuote(b: Books, id: nat): (r: Result<Quote, Error>)
    ensures r.Success? ==> r.value in b.quotes && r.value.id == id
    ensures r.Failure? ==> r.error == NotFound
  {
    match QuoteAt(b.quotes, id)
    case None => Failure(NotFound)
    case Some(i) => Success(b.quotes[i])
  }

  function FindTransaction(b: Books, id: nat): (r: Result<Transaction, Error>)
    ensures r.Success? ==> r.value in b.history && r.value.id == id
    ensures r.Failure? ==> r.error == NotFound
  {
    match TransactionAt(b.history, id)
    case None => Failure(NotFound)
    case Some(i) => Success(b.history[i])
  }

  function Admin(b: Books, actor: MemberId): Result<(), Error> {
    if b.members == [] && actor == 1 then Success(())
    else
      match FindMember(b, actor)
      case Success(m) => if m.ActiveNana() then Success(()) else Failure(Forbidden)
      case Failure(_) => Failure(Forbidden)
  }

  // ---- Admission of a posting ----

  /** The balance a posting would start from; an ordinary posting refuses a disabled member. */
  function Holding(b: Books, id: MemberId, correction: bool, usd: bool): Result<int, Error> {
    if id == ISSUER then Success(b.Issued(usd))
    else
      var m :- FindMember(b, id);
      :- Need(correction || !m.disabled, Disabled);
      Success(m.Holds(usd))
  }

  /** `i64::checked_add`. */
  function CheckedAdd(a: int, delta: int): Result<int, Error> {
    if I64_MIN <= a + delta <= I64_MAX then Success(a + delta) else Failure(Overflow)
  }

  function ValidatePosting(b: Books, from: MemberId, to: MemberId, amount: int, correction: bool)
    : Result<(), Error>
  {
    if !(from != to && 1 <= amount <= MAX_AMOUNT) then Failure(InvalidInput)
    else
      var payer :- Holding(b, from, correction, false);
      var debit :- CheckedAdd(payer, -amount);
      var payee :- Holding(b, to, correction, false);
      var credit :- CheckedAdd(payee, amount);
      :- Need(debit >= -MAX_SEQUENCE && credit <= MAX_SEQUENCE, Overflow);
      :- Need(correction || from == ISSUER || debit >= 0, InsufficientFunds);
      Success(())
  }

  function ValidateCurrencyPosting(b: Books, from: MemberId, to: MemberId, amount: int, correction: bool, usd: bool)
    : Result<(), Error>
  {
    if !usd then ValidatePosting(b, from, to, amount, correction)
    else
      :- Need(from != to && 1 <= amount <= MAX_AMOUNT, InvalidInput);
      var payer :- Holding(b, from, correction, true);
      var debit :- CheckedAdd(payer, -amount);
      var payee :- Holding(b, to, correction, true);
      var credit :- CheckedAdd(payee, amount);
      :- Need(-MAX_SEQUENCE <= debit <= MAX_SEQUENCE && -MAX_SEQUENCE <= credit <= MAX_SEQUENCE, Overflow);
      :- Need(correction || from == ISSUER || debit >= 0, InsufficientFunds);
      Success(())
  }

  // ---- The effect of postings ----

  function Delta(tx: Transaction, id: MemberId, usd: bool): int {
    if tx.usd != usd then 0
    else (if tx.to == id then tx.amount else 0) - (if tx.from == id then tx.amount else 0)
  }

  /** What a list of postings adds to the balance of `id`. */
  function Net(txs: seq<Transaction>, id: MemberId, usd: bool): int {
    if txs == [] then 0
    else Net(txs[..|txs| - 1], id, usd) + Delta(txs[|txs| - 1], id, usd)
  }

  function Settle(members: seq<Member>, txs: seq<Transaction>): (r: seq<Member>)
    ensures |r| == |members|
  {
    seq(|members|, i requires 0 <= i < |members| =>
      members[i].(balance := members[i].balance + Net(txs, members[i].id, false),
                  usdCents := members[i].usdCents + Net(txs, members[i].id, true)))
  }

  /** Only the most recent rows are remembered. */
  function Recent(txs: seq<Transaction>): (r: seq<Transaction>)
    ensures |r| == Min(HISTORY, |txs|)
  {
    if |txs| <= HISTORY then txs else txs[|txs| - HISTORY..]
  }

  /** The history rows after transaction `target` has been marked reversed. */
  function MarkReversed(history: seq<Transaction>, target: Option<nat>): (r: seq<Transaction>)
    ensures |r| == |history|
  {
    match target
    case None => history
    case Some(id) =>
      match TransactionAt(history, id)
      case None => history
      case Some(i) => history[i := history[i].(reversed := true)]
  }
}
