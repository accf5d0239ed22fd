/** The entities of the household ledger: commands, events and the rows of every table. */
module Types {
  import opened Wrappers

  const MEMBERS: int := 16
  const LISTINGS: int := 48
  const HISTORY: int := 365
  const OFFERS: int := 32
  const QUOTES: int := 16
  const MAX_AMOUNT: int := 1_000_000_000
  const MAX_SEQUENCE: int := 9_007_199_254_740_991
  const MAX_RECORDS: int := 4096
  const DEFAULT_SETTLEMENT: int := 48 * 60 * 60
  const MIN_CLOCK: int := 1_577_836_800
  const PASSWORD_ROUNDS: int := 1000
  const I64_MAX: int := 0x7FFF_FFFF_FFFF_FFFF
  const I64_MIN: int := -0x8000_0000_0000_0000
  const U64_MAX: nat := 0xFFFF_FFFF_FFFF_FFFF

  datatype Error =
    | InvalidInput | Unauthorized | Forbidden | NotFound | Capacity
    | InsufficientFunds | Overflow | Conflict | StaleRequest | Storage
    | CorruptJournal | InvalidCredentials | Disabled | RateLimited | Unavailable
    | OfferClosed | OfferSettled | ListingClosed | SelfDeal

  /** Member 0 is the currency issuer; real members are numbered from 1. */
  type MemberId = nat

  const ISSUER: MemberId := 0

  /** A 32-byte SHA-256 or PBKDF2 output, kept symbolic: distinct inputs have distinct
      digests, and none is the all-zero value of an unset field. */
  datatype Digest =
    | Zero
    | OfText(text: string)
    | OfCommand(command: Command)
    | OfPassword(secret: string, salt: seq<nat>, rounds: nat)

  datatype PasswordVerifier = PasswordVerifier(salt: seq<nat>, key: Digest, rounds: nat) {
    predicate Valid() {
      rounds == PASSWORD_ROUNDS
    }

    predicate Verify(password: string) {
      Valid() && key == OfPassword(password, salt, rounds)
    }
  }

  datatype Role = Nana | User

  datatype Side = Sell | Buy

  datatype ListingStatus = Active | Sold | Cancelled

  datatype ListingDetails = ListingDetails(kind: string, currency: string, minorUnits: int)

  datatype QuoteSide = Bid | Ask

  datatype QuoteStatus = Open | Filled | Cancelled

  datatype Command =
    | AddMember(name: string, tokenHash: Digest)
    | Provision(household: string, username: string, displayName: string, password: PasswordVerifier)
    | CreateMember(username: string, displayName: string, password: PasswordVerifier, role: Role, grant: int)
    | UpdateMember(member: MemberId, newName: Option<string>, newPassword: Option<PasswordVerifier>,
                   newRole: Option<Role>, newDisabled: Option<bool>)
    | MigrateMember(member: MemberId, username: string, password: PasswordVerifier)
    | Issue(to: MemberId, amount: int, memo: string)
    | Retire(from: MemberId, amount: int, memo: string)
    | Transfer(to: MemberId, amount: int, memo: string)
    | List(title: string, description: string, price: int, side: Side, details: Option<ListingDetails>)
    | IssueUsd(to: MemberId, cents: int, memo: string)
    | PostQuote(quoteSide: QuoteSide, centsPerCoin: int, coins: int, expiresAt: nat)
    | TakeQuote(quote: nat)
    | CancelQuote(quote: nat)
    | Cancel(listing: nat)
    | Purchase(listing: nat)
    | Reverse(transaction: nat, memo: string)
    | Configure(household: string, initialGrant: int, currency: string, offerSettlesAfter: Option<nat>)
    | UpdateListing(listing: nat, newTitle: Option<string>, newDescription: Option<string>, newPrice: Option<int>)
    | MakeOffer(listing: nat, amount: int, message: string)
    | AcceptOffer(offer: nat)
    | UnacceptOffer(offer: nat, reason: string)
    | DeclineOffer(offer: nat)
    | WithdrawOffer(offer: nat)

  function Fingerprint(command: Command): Digest {
    OfCommand(command)
  }

  datatype Event = Event(
    timestamp: nat, clientKey: Option<Digest>, version: nat, sequence: nat,
    actor: MemberId, requestId: nat, command: Command)

  datatype Receipt = Receipt(sequence: nat, replayed: bool)

  datatype Member = Member(
    id: MemberId, name: string, username: string, role: Role, disabled: bool,
    password: Option<PasswordVerifier>, balance: int, usdCents: int, createdAt: nat,
    lastRequest: nat, tokenHash: Digest, lastCommand: Digest, lastSequence: nat)
  {
    function Holds(usd: bool): int {
      if usd then usdCents else balance
    }

    predicate ActiveNana() {
      role == Nana && !disabled
    }
  }

  datatype Listing = Listing(
    id: nat, owner: MemberId, title: string, description: string, price: int, side: Side,
    status: ListingStatus, buyer: Option<MemberId>, soldTx: Option<nat>,
    details: ListingDetails, createdAt: nat, updatedAt: nat)

  datatype Transaction = Transaction(
    id: nat, actor: MemberId, createdAt: nat, from: MemberId, to: MemberId, amount: int,
    memo: string, reverses: Option<nat>, reversed: bool, listing: Option<nat>, usd: bool,
    quote: Option<nat>)

  datatype Settlement = Settlement(transaction: nat, payer: MemberId, payee: MemberId, settlesAt: nat)

  datatype OfferPhase =
    | Open
    | Accepted(settlement: Settlement)
    | Declined
    | Withdrawn
    | Reversed(settlement: Settlement)

  datatype Offer = Offer(
    id: nat, listing: nat, owner: MemberId, offerer: MemberId, amount: int, message: string,
    createdAt: nat, updatedAt: nat, phase: OfferPhase)
  {
    predicate Recyclable(now: nat) {
      match phase
      case Open => false
      case Accepted(s) => now >= s.settlesAt
      case _ => true
    }

    /** Accepted and still inside its settlement window: this offer pins its listing. */
    predicate Pins(now: nat) {
      phase.Accepted? && now < phase.settlement.settlesAt
    }

    predicate Settled() {
      phase.Accepted? || phase.Reversed?
    }
  }

  datatype Quote = Quote(
    id: nat, maker: MemberId, side: QuoteSide, centsPerCoin: int, coins: int, expiresAt: nat,
    createdAt: nat, updatedAt: nat, status: QuoteStatus, taker: Option<MemberId>,
    coinTx: Option<nat>, cashTx: Option<nat>)
  {
    predicate Live(now: nat) {
      && status == QuoteStatus.Open
      && MIN_CLOCK <= now <= MAX_SEQUENCE
      && (expiresAt == 0 || now < expiresAt)
    }

    function Cents(): int {
      coins * centsPerCoin
    }

    /** (seller of coins, buyer of coins) when `taker` fills this quote. */
    function Parties(taker: MemberId): (MemberId, MemberId) {
      match side
      case Ask => (maker, taker)
      case Bid => (taker, maker)
    }
  }

  /** The value of the whole in-memory state. `history` is oldest first and bounded. */
  datatype Books = Books(
    household: string, initialGrant: int, currency: string, settlesAfter: nat,
    offers: seq<Offer>, lastTimestamp: nat, sequence: nat, transactions: nat,
    issuance: int, usdIssuance: int, quotes: seq<Quote>, members: seq<Member>,
    listings: seq<Listing>, history: seq<Transaction>)
  {
    function Issued(usd: bool): int {
      if usd then usdIssuance else issuance
    }
  }

  const EMPTY_BOOKS := Books("", 100, "NanaCoin", DEFAULT_SETTLEMENT, [], 0, 0, 0, 0, 0, [], [], [], [])

  /** Event sequences skip every second block of 4096 ids; the skipped ids are cash legs. */
  function NextSequence(sequence: nat): Option<nat> {
    var next := sequence + (if sequence % 8192 == 4096 then 4097 else 1);
    if next <= MAX_SEQUENCE - 4096 then Some(next) else None
  }

  /** `char::is_control`: the Unicode general category Cc. */
  predicate IsControl(c: char) {
    c < ' ' || '\U{7f}' <= c <= '\U{9f}'
  }

  /** `char::is_whitespace`: the Unicode property White_Space. */
  predicate IsWhitespace(c: char) {
    || '\t' <= c <= '\r' || c == ' ' || c == '\U{85}' || c == '\U{a0}' || c == '\U{1680}'
    || '\U{2000}' <= c <= '\U{200a}' || c == '\U{2028}' || c == '\U{2029}' || c == '\U{202f}'
    || c == '\U{205f}' || c == '\U{3000}'
  }

  predicate Blank(s: string) {
    forall c :: c in s ==> IsWhitespace(c)
  }

  predicate HasControl(s: string) {
    exists c :: c in s && IsControl(c)
  }

  predicate ValidName(s: string) {
    !Blank(s) && !HasControl(s)
  }
}
