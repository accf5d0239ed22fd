# Verified model of the household services

This project models four services of the repository and proves what they promise over whole runs.

**The NanaCoin ledger service.** A bounded, two-currency, double-entry ledger with a marketplace, offers that can be
undone until they settle, and a quote book, driven by an append-only journal. `Types`, `Postings`, `Offers`, `Forex`
and `Domain` hold the entities, the validation of all 23 commands and the effect of an event as functions on the value
of the state. `Household` is the state object, updated in place command by command and proved equal to those functions.
`Admission`, `Accounts`, `Reversals`, `Sales`, `QuoteBook` and `Authority` hold the parts of the invariant, which relates
the bounded tables to the unbounded ledger of everything ever recorded. `Effects` says what each command does to the
books, without the functions that do it; `Rulebook` says who may send it, and that validation agrees. `Runs`, `Exchanges`,
`Closings` and `Passwords` state the theorems over all runs. `Replays` and `Watermarks` treat time and retries; `Frames`,
`Journal`, `Recovery`, `Calls` and `LiveService` the durable journal, crashes, restarts and keyed receipts; `Auth`,
`Lockout` and `LoginDesk` the login desk; `Signoffs` ledger and desk in one run.

**The job table** (`Jobs`, `JobRuns`, `JobService`). Slots under a lock, a bounded channel and one worker, as interleaved
atomic steps.

**The encrypted message store** (`Galois`, `Columns`, `Rijndael`, `Cipher`, `Fips197`, `Ctr`, `Secrets`, `Mailroom`,
`MessageStore`). AES-128 from the field up and against the standard's own formulas, counter mode, key wrapping, logins and
sessions, and the store's end-to-end round trip.

**The JSON surrogate normaliser** (`Surrogates`, with `Utf8`).

## How runs are modelled

A ledger run is any sequence of events a live service could commit: each is validated at the service's clock, which reads
0 whenever it is behind the last event, and stamped with the later of the two. A service run is any sequence of calls and
restarts, in which the clock is arbitrary and each append may reach the disk, be lost, or fail after reaching the disk.
Random secrets, clocks and append outcomes are arguments.

Replay validates at the stamp, while the live service validated at its clock. For one command this differs: configuring a
settlement window is refused if the window exceeds 2^53 − 1 minus the time, and at time 0 almost any window passes
(archive/nanacoin_rs/src/domain.rs:492). `Replays.LateWindow` is that case. `Runs.RunsReplay` and
`Recovery.ReopeningIsExact` hold if and only if it is absent; `Runs.LateWindowHappens` gives a run where it is present.
The other theorems over service runs hold whether it is there or not: a restart refused for it leaves the service latched,
with the log on its disk. `Recovery.RefusedRestartHappens` gives a service run that ends so.

Digests are symbolic constructors, so distinct inputs have distinct digests. The event serialiser and the checksum are any
functions with a round trip and 32-bit results. SHA-256 in the message store is any function to 32 bytes; nothing there
needs it to be collision-free.

## Model

| member | source | states |
|---|---|---|
| `Runs.RunsKeepHouse` | archive/nanacoin_rs/src/domain.rs:743-1043 | Every valid run, under any clock, keeps the whole invariant: accounts, row numbering, reversal discipline, history, settlements, sales and quotes. So applying a validated event is total and never breaks the books. |
| `Runs.HouseStep` | archive/nanacoin_rs/src/domain.rs:743-991 | One admitted event, applied at its stamp, re-establishes the whole invariant over the lifetime ledger it extends. |
| `Runs.MoneyIsConserved` | archive/nanacoin_rs/src/domain.rs:993-1010 | After every run, issuance plus all members’ balances is zero, in coins and in cents. |
| `Runs.BalancesAreTheLifetimeFold` | archive/nanacoin_rs/src/domain.rs:993-1015 | Every balance, issuance included, is the fold of every row ever recorded — although only 365 rows are retained — and stays within ±(2^53 − 1). |
| `Runs.OverdraftIsBounded` | archive/nanacoin_rs/src/domain.rs:392-423 | A member’s balance is at least minus what corrections debited from that member; with no corrections it is never negative. |
| `Accounts.SelfCheckSucceeds` | archive/nanacoin_rs/src/domain.rs:1017-1043 | The self-check run at boot succeeds on every state the invariant allows. |
| `Accounts.PostingsConserve` | archive/nanacoin_rs/src/domain.rs:993-1010 | Any ledger between the issuer and n members sums to zero over all accounts. |
| `Accounts.AccountsStep` | archive/nanacoin_rs/src/domain.rs:392-423 | An admitted event keeps every balance equal to its fold, in range, and overdrawn by corrections only. |
| `Runs.SelfCheckCatches` | archive/nanacoin_rs/src/domain.rs:1017-1043 | And the self-check passes nothing else: whatever it accepts sums to zero in both currencies with every balance in range. |
| `Effects.TransferPays` | archive/nanacoin_rs/src/domain.rs:864-866 | A transfer lowers its sender’s coins and raises its recipient’s by exactly the amount asked for, moves no other balance in either currency, and leaves the row that says so, memo included. |
| `Effects.IssueAndRetirePay` | archive/nanacoin_rs/src/domain.rs:858-863 | An issue creates exactly its amount of coins for its recipient, a retirement takes it back; no other balance moves. |
| `Effects.IssueUsdPays` | archive/nanacoin_rs/src/forex.rs:151-164 | Cash is issued in cents to its recipient and moves no coin. |
| `Effects.GrantPays` | archive/nanacoin_rs/src/domain.rs:763-781 | A new member starts with exactly the grant; nobody else gains or loses. |
| `Effects.PurchasePays` | archive/nanacoin_rs/src/domain.rs:922-940 | A purchase moves the listing’s price, from buyer to owner if it sells, from owner to taker if it buys. |
| `Effects.ReversePaysBack` | archive/nanacoin_rs/src/domain.rs:941-958 | A reversal moves exactly what the row moved back, in the row’s currency. |
| `Effects.AcceptPays` | archive/nanacoin_rs/src/offers.rs:219-259 | An acceptance moves the offered amount between owner and offerer, by the listing’s side. |
| `Effects.UndoPaysBack` | archive/nanacoin_rs/src/offers.rs:260-292 | An undo moves the amount back from the payee to the payer of the settlement. |
| `Effects.TakePays` | archive/nanacoin_rs/src/forex.rs:204-238 | Taking a quote moves its coins from seller to buyer and coins times rate in cents the other way. |
| `Effects.OthersPayNothing` | archive/nanacoin_rs/src/domain.rs:743-991 | The remaining commands move no balance at all. |
| `Runs.IdsNeverCollide` | archive/nanacoin_rs/src/domain.rs:14-21 | No two rows ever share an id, although cash legs are numbered half a block away from their event. |
| `Runs.RowIds` | archive/nanacoin_rs/src/domain.rs:14-21 | Every row of every run: its id is in the lower half of its block of 8192 exactly if it is an event row, in the upper half exactly if it is a cash leg, and never exceeds 2^53 − 1. |
| `Runs.IdsGrow` | archive/nanacoin_rs/src/forex.rs:204-238 | Among event rows, and among cash legs, ids grow strictly with time. |
| `Reversals.FreshSequence` | archive/nanacoin_rs/src/domain.rs:16-21 | The next sequence is larger, in the lower half of its block, and leaves room for its cash leg. |
| `Reversals.NextIsLeast` | archive/nanacoin_rs/src/domain.rs:16-21 | It is the least id above the last that an event may have. |
| `Runs.ReversalsAreExact` | archive/nanacoin_rs/src/domain.rs:941-958 | A row is reversed at most once; the reversing row mirrors an earlier row exactly (parties swapped, same amount, currency and listing); a reversal is never reversed. Offer undos of rows long evicted from history are included. |
| `Runs.HistoryIsTheTail` | archive/nanacoin_rs/src/domain.rs:1011-1014 | The retained history is exactly the newest rows of the lifetime ledger, each flagged reversed iff some row reverses it. |
| `Reversals.PostedHasShape` | archive/nanacoin_rs/src/domain.rs:644-655 | What an admitted event posts: at most a coin row and its cash leg under fresh ids; a correcting row mirrors a lifetime row that nothing has reversed yet. |
| `Reversals.LedgerStep` | archive/nanacoin_rs/src/offers.rs:306-315 | Numbering, reversal discipline, exact history and one unreversed payment per accepted offer survive every admitted event. |
| `Runs.NoListingIsPaidTwice` | archive/nanacoin_rs/src/offers.rs:122-165 | Of any two payments ever recorded for one listing, retained or evicted, at least one has been reversed — whatever mix of purchase, acceptance, undo, reversal, eviction and cancellation occurred. |
| `Runs.UndoUntilSettled` | archive/nanacoin_rs/src/offers.rs:146-165 | Until it settles, an accepted deal whose payment nobody reversed is still on the books as accepted, its listing retained and sold to it; undoing it by an enabled owner, offerer or Nana with a control-free reason succeeds if the returned payment keeps both balances representable, and otherwise fails with Overflow and nothing else. |
| `Recovery.DealsCanBeUndone` | archive/nanacoin_rs/src/offers.rs:146-165 | In every state calls, failed appends and restarts can leave a service in, the undo of an unsettled deal by an enabled owner, offerer or Nana with a control-free reason passes validation: Overflow never happens, because 4096 records cannot exhaust a balance. |
| `Runs.BalancesAreSmall` | archive/nanacoin_rs/src/domain.rs:992-1015 | No balance exceeds, either way, 2 · 10^9 for each event of the run. |
| `Runs.DealsAreHeld` | archive/nanacoin_rs/src/offers.rs:188-218 | From the step that accepts it until it settles, an offer stays on the books exactly as it was accepted, whatever else happens, unless its payment is reversed. |
| `Sales.UnsettledOffersSurvive` | archive/nanacoin_rs/src/offers.rs:68-73 | Any admitted event keeps an unsettled deal on the books with its terms and settlement; only a correction of its own payment closes it. |
| `Runs.UnsettledListing` | archive/nanacoin_rs/src/offers.rs:68-91 | The listing of an unsettled deal is never evicted and stays sold to exactly that deal. |
| `Sales.SalesStep` | archive/nanacoin_rs/src/offers.rs:185-304 | A listing that any standing payment names is sold to exactly that payment, offers stay tied to their sale, settlements stay distinct, ids stay ascending — through every admitted event. |
| `Sales.OneStandingStep` | archive/nanacoin_rs/src/offers.rs:219-292 | An event that pays for a listing does so only when no earlier payment for it stands. |
| `Sales.EvictedListings` | archive/nanacoin_rs/src/domain.rs:867-898 | Making room in a full listing table drops only a closed listing that no unsettled deal needs, and makes room. |
| `Effects.ListingAppears` | archive/nanacoin_rs/src/domain.rs:867-898 | A new listing is on the books exactly as its owner described it, active and unsold. |
| `Effects.ListingAfter` | archive/nanacoin_rs/src/domain.rs:899-940 | What one event makes of each listing on the books: cancelled, edited field by field, sold to whoever pays, relisted, or exactly as it was. |
| `Effects.OfferAppears` | archive/nanacoin_rs/src/offers.rs:188-218 | A new offer is on the books exactly as it was made, open, against the listing’s owner. |
| `Effects.OfferAfter` | archive/nanacoin_rs/src/offers.rs:219-315 | What one event makes of each offer: accepted with its payer, payee and settlement time, declined, withdrawn, reversed, or exactly as it was. |
| `Effects.OffersMakeRoom` | archive/nanacoin_rs/src/offers.rs:188-218 | A new offer drops one other only from a full table of 32, and then one that is declined, withdrawn, reversed or settled. |
| `Effects.ListingsMakeRoom` | archive/nanacoin_rs/src/domain.rs:867-898 | A new listing drops one other only from a full table of 48, and then one that is sold or cancelled and that no unsettled deal needs. |
| `Closings.ClosedForGood` | archive/nanacoin_rs/src/domain.rs:605-643 | In every run: after a listing is cancelled no later event buys it, offers on it or accepts an offer on it; after an offer is declined or withdrawn no later event accepts, undoes or closes it; after a quote is cancelled no later event takes it. |
| `Offers.OldestRecyclable` | archive/nanacoin_rs/src/offers.rs:188-218 | The offer dropped from a full table is recyclable and the oldest such by (updated_at, id); none is found only if none is recyclable. |
| `Exchanges.ExchangesAreAtomic` | archive/nanacoin_rs/src/forex.rs:149-241 | Every row that ever carried a quote’s id, retained or evicted, is one leg of a pair on the posted terms: the coins and, at the posted rate, the cents of the event that posted the quote, one way and the other between its maker and the member of the later event that took it; no third row carries that id. |
| `Runs.LegsArePaired` | archive/nanacoin_rs/src/forex.rs:204-238 | The partner of a coin leg is the next row, that of a cash leg the one before, and nothing else carries the quote’s id. |
| `Runs.FilledQuotesExchanged` | archive/nanacoin_rs/src/forex.rs:33-46 | Every retained filled quote names exactly the two rows that filled it, between its maker and taker, on its own terms. |
| `QuoteBook.QuotesStep` | archive/nanacoin_rs/src/forex.rs:149-241 | The quote book’s invariant survives every admitted event. |
| `QuoteBook.LiveQuotesSurvive` | archive/nanacoin_rs/src/forex.rs:165-198 | A quote that is live at an event’s time is unchanged by it, evicted by nothing, unless the event takes or cancels this very quote, and then only its closing fields change. |
| `Effects.QuoteAppears` | archive/nanacoin_rs/src/forex.rs:165-198 | A new quote is on the books exactly as it was posted, open. |
| `Effects.QuoteAfter` | archive/nanacoin_rs/src/forex.rs:199-238 | What one event makes of each quote: filled by its taker with its two row ids, cancelled, or exactly as it was. |
| `Effects.QuotesMakeRoom` | archive/nanacoin_rs/src/forex.rs:165-198 | A new quote drops one other only from a full book of 16, and then one that is filled, cancelled or expired. |
| `Forex.OldestDead` | archive/nanacoin_rs/src/forex.rs:165-198 | The quote dropped from a full book is not live and the oldest such by (updated_at, id). |
| `Admission.ValidatedIsAdmitted` | archive/nanacoin_rs/src/domain.rs:429-667 | A validated event finds every row it unwraps, in the phase it needs, with room for what it adds, and every posting affordable without overflow. |
| `Rulebook.ValidationFollowsRules` | archive/nanacoin_rs/src/domain.rs:429-667 | In every state the invariant allows, validation accepts a command if and only if the rule book does: for each of the 23 commands, who may send it, what must be on the books and in what phase, which amounts and balances, and whether there is room. |
| `Rulebook.PaymentIsRuled` | archive/nanacoin_rs/src/domain.rs:392-423 | A payment is possible exactly between two different accounts that are enabled or the issuer’s, for 1 to 10^9, out of a balance that covers it, with both balances staying in range. |
| `Rulebook.RefusedPayments` | archive/nanacoin_rs/src/domain.rs:392-423 | Why a payment between open accounts is refused: InvalidInput for a wrong amount or one account, Overflow if a balance would leave the range, InsufficientFunds if it does not cover the amount. |
| `Rulebook.RefusedActors` | archive/nanacoin_rs/src/domain.rs:429-447 | Strangers are answered NotFound, the disabled Disabled, and an empty household forbids everyone but its founder, before anything else is looked at. |
| `Rulebook.OnlyNanasGovern` | archive/nanacoin_rs/src/domain.rs:376-387 | Issuing, retiring, reversing, admitting and configuring are Forbidden to everyone who is not an enabled Nana. |
| `Rulebook.OnlyNana` | archive/nanacoin_rs/src/domain.rs:515-526 | The count of enabled Nanas is one exactly if there is no other. |
| `Rulebook.Characters` | archive/nanacoin_rs/src/domain.rs:1078-1084 | Control characters and white space are exactly the code points Unicode lists. |
| `Authority.DebitsAreConsented` | archive/nanacoin_rs/src/domain.rs:429-667 | Every row of the lifetime ledger is an issue, retirement or reversal by an enabled Nana, an undo by a party to the deal, the payer’s own act, or a payment the payer invited by an earlier event: an offer of that amount, a quote on those terms, or a buy-side listing, bought at exactly the price its owner or an enabled Nana last set. So a Nana can raise what an open buy-side listing will pay. |
| `Authority.PricesHaveAuthors` | archive/nanacoin_rs/src/domain.rs:614-632 | Every listing on the books carries the price its owner gave it, or the one that owner or a Nana, enabled at that moment, last changed it to. |
| `Authority.RowsHaveAuthors` | archive/nanacoin_rs/src/offers.rs:188-218 | Every listing, offer and quote on the books was put there by an event of the member it binds, with the side, amount, rate and message it still carries. |
| `Authority.AnEnabledNanaRemains` | archive/nanacoin_rs/src/domain.rs:496-528 | Once a household is founded, some Nana is always enabled. |
| `Authority.AccountsAreOwned` | archive/nanacoin_rs/src/domain.rs:496-547 | A member’s name, login and password change only by that member’s act or an enabled Nana’s; roles and disabling, only by an enabled Nana’s; balances never in the accounts step. |
| `Effects.UpdateTakesEffect` | archive/nanacoin_rs/src/domain.rs:799-820 | After an update the named member has exactly what was given (a new password also retires the old token) and keeps the rest; nobody else’s account changes. |
| `Effects.MembersJoin` | archive/nanacoin_rs/src/domain.rs:748-781 | A founder, a created member and a legacy member each take the next number with the name, login, password, token and role given; nobody else’s account changes. |
| `Effects.MigrationTakesEffect` | archive/nanacoin_rs/src/domain.rs:821-833 | A migration gives its member the username and password and retires the token; nobody else’s account changes. |
| `Effects.AccountsStay` | archive/nanacoin_rs/src/domain.rs:743-991 | No other command touches an account. |
| `Effects.SettingsAfter` | archive/nanacoin_rs/src/domain.rs:782-798 | Name, grant, currency and settlement window are what the last configuration set (0 for 48 hours), and change by nothing else. |
| `Passwords.RunsKeepNames` | archive/nanacoin_rs/src/domain.rs:669-687 | In every run no two accounts share a username, and whoever has a password has a username and a usable password. |
| `Passwords.PasswordStands` | archive/nanacoin_rs/src/domain.rs:810-813 | In every run a password set by an update is the member’s until another is set. |
| `Authority.ListingsAreOwned` | archive/nanacoin_rs/src/domain.rs:605-632 | A listing’s terms change, and it is cancelled, only by its owner’s act or an enabled Nana’s. |
| `Authority.OffersAreOwned` | archive/nanacoin_rs/src/offers.rs:122-182 | An offer is accepted only by the listing’s owner, declined only by the owner or an enabled Nana, withdrawn only by its maker or an enabled Nana. |
| `Runs.MoneyMoves` | archive/nanacoin_rs/src/domain.rs:858-860 | Founding a household and issuing coins is a valid run with one row, so the theorems above are about something. |
| `Household.State.ApplyEvent` | archive/nanacoin_rs/src/domain.rs:743-991 | Updating the state in place: every lookup it unwraps succeeds, no table overflows, and the new state is exactly the applied books, with the rows appended to the lifetime ledger. |
| `Household.State.ReplayEvent` | archive/nanacoin_rs/src/domain.rs:695-713 | Re-validates a journalled event at its own timestamp, then applies it or changes nothing. |
| `Household.State.RecordTransaction` | archive/nanacoin_rs/src/domain.rs:993-1015 | Moves the amount between the two accounts leg by leg and appends the row, dropping the oldest when 365 are held. |
| `Household.State.MarkOfferReversed` | archive/nanacoin_rs/src/offers.rs:306-315 | The loop over offers closes exactly the accepted one the transaction paid for. |
| `Household.State.ApplyOffer` | archive/nanacoin_rs/src/offers.rs:185-304 | Dispatches the five offer commands in place; tables, then rows, then nothing else changes. |
| `Household.State.ReopenDeal` | archive/nanacoin_rs/src/offers.rs:260-292 | An undo marks the original reversed if history still holds it, closes the offer and puts the listing back on sale. |
| `Household.State.TakeQuoteInPlace` | archive/nanacoin_rs/src/forex.rs:204-238 | Fills the quote and records both legs. |
| `Household.State.UpdateMemberInPlace` | archive/nanacoin_rs/src/domain.rs:799-820 | Edits exactly the named member, field by field. |
| `Household.ApplyInParts` | archive/nanacoin_rs/src/domain.rs:743-991 | Changing tables, recording rows one by one, then stamping is the whole effect of an event. |
| `Household.RecordedAllIs` | archive/nanacoin_rs/src/domain.rs:993-1015 | Recording rows one at a time equals settling them together and keeping the newest 365. |
| `Replays.ReplayAgrees` | archive/nanacoin_rs/src/journal.rs:196-203 | Replaying a live event at its stamp gives the live result, unless it sets a settlement window too late for that stamp; then, and only then, replay refuses it. |
| `Replays.ReplayedWasAdmissible` | archive/nanacoin_rs/src/domain.rs:695-713 | Whatever replay accepts is an event some live clock could have admitted. |
| `Runs.RunsReplay` | archive/nanacoin_rs/src/domain.rs:695-713 | The journal of a run replays to its final books iff it holds no late window. |
| `Runs.ReplaysAreRuns` | archive/nanacoin_rs/src/domain.rs:695-713 | Every journal that replays is the journal of a valid run. |
| `Runs.LateWindowHappens` | archive/nanacoin_rs/src/domain.rs:492-494 | The exception is real: a two-step run whose journal does not replay. |
| `Watermarks.RunsKeepLog` | archive/nanacoin_rs/src/domain.rs:987-990 | Each member’s watermark is that member’s last event; one (member, request id) pair takes effect at most once. |
| `Watermarks.RetriesAreLogged` | archive/nanacoin_rs/src/domain.rs:715-741 | Whatever a retry is answered from is an event of the log with that request id, command and sequence. |
| `Watermarks.LastCallIsAnswered` | archive/nanacoin_rs/src/domain.rs:715-741 | Conversely, in every run, sending a member’s last call again is answered with its receipt again. |
| `Watermarks.RetryAnswers` | archive/nanacoin_rs/src/domain.rs:715-741 | Below the watermark a request is stale, at it its receipt or a conflict, above it new. |
| `Frames.FramedIsRead` | archive/nanacoin_rs/src/journal.rs:342-363 | What is framed is read back. |
| `Frames.ReadIsCanonical` | archive/nanacoin_rs/src/journal.rs:352-363 | Whatever frame is accepted, byte for byte, is the one canonical frame of its payload. |
| `Frames.FillFrame` | archive/nanacoin_rs/src/journal.rs:342-350 | Filling a zeroed buffer piece by piece makes that canonical frame. |
| `Frames.LittleEndianIsOnto` | archive/nanacoin_rs/src/journal.rs:352-354 | Four bytes are the little-endian form of the number they read as. |
| `Frames.LeastFirst` | archive/nanacoin_rs/src/journal.rs:352-354 | Four bytes are read with the least significant first. |
| `Frames.FrameParts` | archive/nanacoin_rs/src/journal.rs:342-350 | A frame is the magic NCR1, the length, the checksum, the payload from byte 12 and zeros up to byte 1024. |
| `Journal.EncodedDecodes` | archive/nanacoin_rs/src/journal.rs:342-363 | An encoded event decodes to itself, for any serialiser that round-trips. |
| `Journal.CommitProgresses` | archive/nanacoin_rs/src/journal.rs:266-332 | However the append ends, a commit extends the log by its own event, or leaves it in doubt behind the latch, or changes nothing and answers with an error or an old receipt. |
| `Journal.CommitStops` | archive/nanacoin_rs/src/journal.rs:266-290 | A commit refused before its append changes nothing. |
| `Journal.UnusedKey` | archive/nanacoin_rs/src/journal.rs:85-107 | A key without a receipt has never taken effect for that member, so committing it keeps keys unique. |
| `Recovery.ReopeningIsExact` | archive/nanacoin_rs/src/journal.rs:78-119 | Reopening yields exactly the durable log — for an unlatched service, the live service itself — unless a late window is on the disk, and then it is refused. |
| `Recovery.LoadIs` | archive/nanacoin_rs/src/journal.rs:87-107 | Loading any prefix of the frames is replaying that prefix of the run, until a late window. |
| `Recovery.UsedKeysAnswer` | archive/nanacoin_rs/src/journal.rs:227-252 | A used key answers the same command with its sequence, another command with Conflict, and changes nothing. |
| `Calls.AllowedCallsCommit` | archive/nanacoin_rs/src/journal.rs:266-332 | On an unlatched service with room, a call under a fresh request id that the rule book allows and that fits a frame is acknowledged once durable, and exactly its event is applied and its frame appended. |
| `Calls.AllowedKeyedCallsCommit` | archive/nanacoin_rs/src/journal.rs:227-264 | Under a fresh key it becomes its sender’s next request and leaves its receipt. |
| `Calls.GenerationIsRead` | archive/nanacoin_rs/src/journal.rs:253-261 | A key written g, a decimal number, a colon and anything names that generation; a key without the g or the colon names none. |
| `Calls.LoadedIsRun` | archive/nanacoin_rs/src/journal.rs:87-107 | Whatever disk loads holds a valid run in its frames with no key used twice, and the service is exactly what that run leaves. |
| `Recovery.RunsAreSynced` | archive/nanacoin_rs/src/journal.rs:266-332 | Every run of calls and restarts, whatever the clock and the disk did, ends in a service that is exactly its log, plus at most one event in doubt behind the latch, with every acknowledgement on that log; no receipt is ever forgotten. |
| `Recovery.NothingAcknowledgedIsLost` | archive/nanacoin_rs/src/journal.rs:266-332 | After any run every acknowledged command is on the durable log under its acknowledged sequence and the disk holds exactly that log; one more restart brings it back if no late window is on it, and otherwise is refused and leaves the service latched. |
| `Recovery.ExactlyOnce` | archive/nanacoin_rs/src/journal.rs:227-264 | In every run, two acknowledgements of one member’s request id or key name the same command and the same event, across retries, failed appends and restarts. |
| `Recovery.RefusedRestartHappens` | archive/nanacoin_rs/src/journal.rs:78-119 | The refusal is real: founding at time 1 and setting the largest window while the clock reads 0 are both acknowledged and both on the disk, and the restart is refused. |
| `LiveService.HouseService.CommitInPlace` | archive/nanacoin_rs/src/journal.rs:266-332 | The service object becomes exactly what the commit function says, never writes a used slot, and signs a member off when a password, role or disabling is committed. |
| `LiveService.HouseService.Append` | archive/nanacoin_rs/src/journal.rs:296-331 | Durable write, then infallible apply, receipt and record count; a failed write latches the service. |
| `LiveService.HouseService.ExecuteKeyed` | archive/nanacoin_rs/src/journal.rs:227-264 | Finds the receipt by a loop and answers from it, or commits the member’s next request. |
| `LiveService.Open` | archive/nanacoin_rs/src/journal.rs:78-119 | The boot loop accepts exactly what the loading function accepts and fails with the error of the first bad frame. |
| `Auth.RunsKeepDesk` | archive/nanacoin_rs/src/auth.rs:131-298 | Every code and session in a slot traces back to the act that granted or opened it. |
| `Auth.AcceptedTokensAreEarned` | archive/nanacoin_rs/src/auth.rs:224-278 | An accepted token means: its member gave the right password, the resulting code was redeemed for this very token within 60 seconds with the verifier its challenge came from (sections 4.2 and 4.6 of RFC 7636) and the same redirect, that was less than 8 hours ago, nobody logged it out, the member was not revoked, nor the desk cleared by a restart, since, and is still enabled. |
| `Auth.CodesAreSpentOnce` | archive/nanacoin_rs/src/auth.rs:224-246 | A granted code answers at most one redemption, even a failed one. |
| `Auth.RevokedTokensStayDead` | archive/nanacoin_rs/src/auth.rs:287-298 | After a member is revoked, or the desk cleared, no session opened before is ever accepted again. |
| `Auth.RevokedCodesStayDead` | archive/nanacoin_rs/src/auth.rs:287-298 | After a member is revoked, or the desk cleared, no code granted before can be redeemed. |
| `Auth.LoggedOutTokensStayDead` | archive/nanacoin_rs/src/auth.rs:279-286 | After a token is logged out it is never accepted again. |
| `Auth.LoginAnswers` | archive/nanacoin_rs/src/auth.rs:131-199 | A login is answered with a code if and only if the request is well formed, the username not locked out, the password right for an enabled user, a code slot free and the random source working. |
| `Auth.CodesAreExchanged` | archive/nanacoin_rs/src/auth.rs:224-263 | Within the minute and through whatever else happens at the desk, an untried code is exchanged by whoever has the verifier behind its challenge and the same redirect, if its member is not revoked or disabled and a slot is free. |
| `Auth.TokensAreAccepted` | archive/nanacoin_rs/src/auth.rs:265-278 | For eight hours after its exchange and through whatever else happens at the desk, a token is accepted for its own member, unless it is logged out, the member revoked or disabled, or the desk cleared. |
| `Passwords.OwnersLogIn` | archive/nanacoin_rs/src/auth.rs:131-199 | In every reachable ledger, an enabled member’s username and password are answered with a code, if the username is not locked out, a slot is free and the random source works. |
| `Lockout.FiveFailuresLock` | archive/nanacoin_rs/src/auth.rs:131-222 | In any run of the desk where a username is tried and refused five times in a row, each failure within five minutes of the one before, while fewer than 64 other usernames fail at or after the first (by when their failures lapse) and the clock never runs backwards: until five minutes after the last failure, every well-formed request for it is refused as rate limited, right password or not, and changes nothing. |
| `Lockout.LockedMeansFive` | archive/nanacoin_rs/src/auth.rs:131-222 | Conversely, in any run, a username is refused as rate limited only after five failures of its own, none before its last right password or the last restart, each within five minutes of the one before and the last within five minutes of now. |
| `Lockout.FailuresAreRemembered` | archive/nanacoin_rs/src/auth.rs:201-222 | While fewer than 64 other usernames fail as recently and the username does not succeed, its slot counts at least its close failures, up to five, and lapses five minutes after the last. |
| `Lockout.TableIsTraced` | archive/nanacoin_rs/src/auth.rs:201-222 | Every slot of the failure table was written by a failure of its username since the desk opened and lapses five minutes after it; no username has two slots. |
| `Lockout.SoonestMeansFull` | archive/nanacoin_rs/src/auth.rs:206-213 | A new username can overwrite a slot only if 64 other usernames, itself included, have failed no less recently. |
| `Auth.SoonestSlot` | archive/nanacoin_rs/src/auth.rs:206-213 | The failure slot overwritten is the one that expires first, empty slots first of all, the lowest on a tie. |
| `Signoffs.NoChangeSinceLogin` | archive/nanacoin_rs/src/journal.rs:315-326 | Ledger and desk together, over calls, logins, exchanges, logouts, failed appends and restarts: an accepted token is the answer of an exchange, less than 8 hours ago, of the very code a login with the right password had answered, and no password, role or disable change of that member is on the journal now that was not on it at that login. |
| `Signoffs.CommittedChangesEndSessions` | archive/nanacoin_rs/src/journal.rs:315-326 | After a call acknowledged as new has changed a member’s password or role or disabled the member, every token accepted for that member is the answer of an exchange of a code from a later login. |
| `Signoffs.CommittedChangesVoidTokens` | archive/nanacoin_rs/src/journal.rs:315-326 | A token the member got before such a change is refused for ever after, through every later call, login, failed append and restart. |
| `Signoffs.CommittedChangesVoidCodes` | archive/nanacoin_rs/src/journal.rs:315-326 | Nor can any code granted to the member before that change be exchanged after it. |
| `Signoffs.NewPasswordsTakeEffect` | archive/nanacoin_rs/src/domain.rs:810-813 | Ledger and desk together: from the moment a new password is acknowledged until another is on the journal, no login of that member is granted unless the password typed is the new one. |
| `Signoffs.DeskIsItsActs` | archive/nanacoin_rs/src/journal.rs:111-118 | The desk of such a run is the desk its own acts leave, a restart being one that empties it. |
| `LoginDesk.SlotDesk.Grant` | archive/nanacoin_rs/src/auth.rs:131-199 | The slot arrays change exactly as authorisation says, on every branch. |
| `LoginDesk.SlotDesk.Exchange` | archive/nanacoin_rs/src/auth.rs:224-263 | The code leaves its slot before anything about it is checked. |
| `LoginDesk.SlotDesk.Fail` | archive/nanacoin_rs/src/auth.rs:201-222 | Counts a failure in the matching slot or the one that expires first. |
| `LoginDesk.SlotDesk.Find` | archive/nanacoin_rs/src/auth.rs:265-278 | Looks a token up among live sessions of enabled members. |
| `LoginDesk.SlotDesk.ForgetMember` | archive/nanacoin_rs/src/auth.rs:287-298 | Clears exactly the member’s sessions and codes. |
| `Surrogates.MeaningIsPreserved` | archive/nanacoin_rs/src/json.rs:9-43 | Reading the normalised text escape by escape gives what the surrogate-pair rule (section 7 of RFC 8259) gives on the original; a refused text has no meaning under that rule. |
| `Surrogates.RefusesExactlyFaults` | archive/nanacoin_rs/src/json.rs:13-30 | It refuses exactly the texts with a malformed unit escape or a high surrogate without its low one, anywhere. |
| `Surrogates.Normalise` | archive/nanacoin_rs/src/json.rs:5-43 | The loop stays within its fixed buffer, never writes past what it has read, and computes the normal form or the refusal. |
| `Surrogates.TakePair` | archive/nanacoin_rs/src/json.rs:13-32 | Recognises a leading surrogate pair, refuses a broken one and leaves everything else alone. |
| `Surrogates.NeverLonger` | archive/nanacoin_rs/src/json.rs:9-43 | The normal form is never longer than the text. |
| `Surrogates.Hex` | archive/nanacoin_rs/src/json.rs:56-66 | Hexadecimal digits fold to a number that fits their count, and none of them is a backslash. |
| `Surrogates.DigitsAreRead` | archive/nanacoin_rs/src/json.rs:56-66 | Digits picked by value from 0123456789abcdef, or its capitals, are read as the number they stand for in base 16. |
| `Surrogates.OnlyDigitsAreRead` | archive/nanacoin_rs/src/json.rs:56-66 | A text is read as hexadecimal if and only if every byte is one of those 22 characters. |
| `Surrogates.EscapeIsRead` | archive/nanacoin_rs/src/json.rs:13-20 | Any code unit written as an escape, in either case, is read back. |
| `Surrogates.PairIsWritten` | archive/nanacoin_rs/src/json.rs:13-32 | Any scalar past the first plane, written as its two surrogate escapes in either case, becomes its UTF-8, whatever follows. |
| `Surrogates.GrinningFace` | archive/nanacoin_rs/src/json.rs:13-32 | The twelve bytes that spell D83D DE00 become F0 9F 98 80. |
| `Utf8.EncodedIsRead` | archive/nanacoin_rs/src/json.rs:25-28 | UTF-8 (section 3 of RFC 3629) reads back every text it encodes. |
| `Utf8.EncodingHasBits` | archive/nanacoin_rs/src/json.rs:25-28 | The bytes have the bit patterns of the table in section 3 of RFC 3629, in the shortest form. |
| `Utf8.ReadIsCanonical` | secret_messages/crypto.py:114-122 | Whatever decodes is the one encoding of its text: overlong, truncated and surrogate forms are refused. |
| `Galois.NoShortPeriod` | secret_messages/aes_soft.py:27-49 | Tripling returns to 1 after 255 steps and never before, so the table walk visits 255 bytes. |
| `Galois.EveryElementIsAPower` | secret_messages/aes_soft.py:27-49 | Those 255 bytes are all the nonzero ones. |
| `Galois.Multiply` | secret_messages/aes_soft.py:70-78 | The shift-and-add loop computes the field product. |
| `Galois.MulIsLinear` | secret_messages/aes_soft.py:70-78 | Products distribute over sums. |
| `Galois.TripleThird` | secret_messages/aes_soft.py:29-37 | The shifts that divide by 3 undo the step that multiplies by 3. |
| `Galois.MulIsTimes` | secret_messages/aes_soft.py:70-78 | Multiplying by a power of 3 is tripling that often. |
| `Galois.InverseIsInvolutive` | secret_messages/aes_soft.py:32-37 | Inverting twice gives the element back. |
| `Fips197.ProductsArePolynomial` | secret_messages/aes_soft.py:70-78 | Products are those of polynomials modulo x^8 + x^4 + x^3 + x + 1 (section 4.2 of FIPS 197): additive, commutative, with unit 1, doubling a bit to the next, and x times x^7 to 1B. |
| `Rijndael.BuildTables` | secret_messages/aes_soft.py:24-53 | The walk ends, and both tables are right for every byte: each byte maps to the affine image of its inverse, and back. |
| `Rijndael.SubRoundTrip` | secret_messages/aes_soft.py:39-46 | Substitution and its inverse undo each other. |
| `Fips197.SubBits` | secret_messages/aes_soft.py:39-46 | Each bit of a substituted byte is the parity of five bits of the inverse and a bit of 63 (section 5.1.1 of FIPS 197). |
| `Rijndael.NextOnWalk` | secret_messages/aes_soft.py:45-49 | The walk is back at 1 exactly when 255 steps are done. |
| `Columns.MixIsUndone` | secret_messages/aes_soft.py:135-155 | The inverse column mix undoes the column mix, for every column. |
| `Fips197.ColumnsMix` | secret_messages/aes_soft.py:135-155 | Each byte of a mixed column is the sum of its column under the coefficients 2, 3, 1, 1 in turn (section 5.1.3 of FIPS 197). |
| `Fips197.RowsTurn` | secret_messages/aes_soft.py:117-132 | Row r moves left by r places, and back: byte (r, c) comes from (r, c + r mod 4). |
| `Cipher.DecryptionUndoesEncryption` | secret_messages/aes_soft.py:157-188 | Decrypting an encrypted block gives the block, for every block and whatever the eleven round keys (sections 5.1 to 5.3 of FIPS 197). |
| `Fips197.EncryptionIsStandard` | secret_messages/aes_soft.py:157-172 | Every byte of every ciphertext is the one the standard’s byte formulas give, round by round. |
| `Fips197.RoundKeysAreStandard` | secret_messages/aes_soft.py:93-110 | Every byte of every round key is the one the standard’s recurrence gives (section 5.2 of FIPS 197). |
| `Fips197.WordsTurn` | secret_messages/aes_soft.py:99-103 | Words turn left by one byte. |
| `Cipher.RoundsMeet` | secret_messages/aes_soft.py:174-188 | Inverse round by inverse round, decryption meets the states encryption went through. |
| `Cipher.RoundConstantsDouble` | secret_messages/aes_soft.py:58-59 | The round constants are the powers of 2 in the field. |
| `Cipher.Aes128.ExpandKey` | secret_messages/aes_soft.py:93-110 | The loop derives the eleven round keys of the key schedule. |
| `Cipher.Aes128.EncryptBlock` | secret_messages/aes_soft.py:157-172 | The table-driven rounds compute the cipher. |
| `Cipher.Aes128.DecryptBlock` | secret_messages/aes_soft.py:174-188 | The table-driven inverse rounds compute the inverse cipher. |
| `Ctr.AesCtr` | secret_messages/compat.py:67-95 | Refuses wrong key and nonce lengths, else combines every byte with its own key stream byte. |
| `Ctr.RunCounter` | secret_messages/compat.py:83-95 | The nested loops fill the output chunk by chunk under a counter from 0. |
| `Ctr.CryptIsItsOwnInverse` | secret_messages/compat.py:67-95 | Crypting twice under one key and nonce gives the data back. |
| `Ctr.CryptedByte` | secret_messages/compat.py:83-95 | Byte i of the output is byte i of the data combined with byte i mod 16 of the encryption of the nonce followed by i / 16 as eight bytes, most significant first. |
| `Ctr.StreamNeverRepeats` | secret_messages/compat.py:85-88 | Within one message no key stream block repeats. |
| `Secrets.BodyRoundTrip` | secret_messages/crypto.py:108-122 | A body decrypts, under its own key and nonce, to the text that was encrypted. |
| `Secrets.TextRoundTrip` | secret_messages/crypto.py:108-122 | Encoding and decoding a text gives it back. |
| `Secrets.DeriveMask` | secret_messages/crypto.py:57-74 | The iterated hash loop computes the mask. |
| `Secrets.UnwrapUndoesWrap` | secret_messages/crypto.py:96-105 | Wrapping twice under one mask gives the secret back. |
| `Secrets.RightPasswordUnwraps` | secret_messages/store.py:66-80 | The password an account was made with recovers its user key. |
| `Secrets.OthersAreRefused` | secret_messages/store.py:66-80 | A password opens an account if and only if its verifier is the one on file. |
| `Secrets.DerivedByRehashing` | secret_messages/crypto.py:57-74 | The mask is the first 16 bytes of the last of 20,000 rehashes with the salt, starting from the salted password. |
| `Secrets.HexSpells` | secret_messages/crypto.py:77-93 | The stored verifier spells each byte as two hexadecimal digits, high one first. |
| `Mailroom.InboxIsExact` | secret_messages/store.py:255-322 | End to end: a session opened with the account’s password shows, newest first, exactly the held letters that are public or for that user, each with the first 1000 characters its author posted, in any run with distinct account names none of which is "*". |
| `Mailroom.RunsKeepStore` | secret_messages/store.py:255-291 | The store holds the newest fifty letters, each locked for exactly its readers. |
| `Mailroom.LetterIsRead` | secret_messages/store.py:308-322 | A session recovers a message’s key exactly when the letter is for its user, and then reads its words. |
| `Mailroom.SessionStands` | secret_messages/store.py:195-241 | While it lasts, a session opened with the right password keeps its user and key. |
| `Mailroom.WrongPasswordsAreRefused` | secret_messages/store.py:195-214 | In every run with distinct account names, a login to an account is refused, and changes nothing, if and only if the verifier of the password tried is not that of the password the account was made with. |
| `Mailroom.SessionsAreEarned` | secret_messages/store.py:195-221 | Every session of every run was opened by a login to its user’s account with a password whose verifier matched, and was not logged out since. |
| `Mailroom.SessionsLast` | secret_messages/store.py:226-241 | A session that is used at least once an hour, and not logged out, is never lost. |
| `Mailroom.VisitsAreAnswered` | secret_messages/store.py:226-241 | A visit is answered if and only if the session was used within the last 3,600,000 milliseconds, and then counts as a use; otherwise the session is gone. |
| `Mailroom.LoginsReap` | secret_messages/store.py:209-221 | A login that succeeds leaves no session on the books that was unused for over an hour. |
| `MessageStore.MessageStore.PostMessage` | secret_messages/store.py:255-291 | Encrypts, wraps the key for each known reader, numbers and queues the message, and trims the ring. |
| `MessageStore.MessageStore.Enqueue` | secret_messages/store.py:284-289 | The trimming loop leaves exactly the newest fifty. |
| `MessageStore.MessageStore.ListReadable` | secret_messages/store.py:293-306 | Walks the ring newest first and keeps what the session can open. |
| `MessageStore.MessageStore.LogIn` | secret_messages/store.py:195-221 | One derivation verifies and unwraps; expired sessions are dropped. |
| `MessageStore.MessageStore.CheckSession` | secret_messages/store.py:226-241 | Drops an expired session, extends a live one. |
| `MessageStore.MessageStore.Decrypt` | secret_messages/store.py:321-322 | Decrypts a body, or gives the marker for bytes that are no text. |
| `JobRuns.RunsKeepTable` | async_worker_rs/src/lib.rs:65-95 | After every interleaving, each unfinished slot is in exactly one of the channel and the worker’s hand, finished and free slots in neither, and neither unwrap of the worker can fail. |
| `Jobs.SubmitKeeps` | async_worker_rs/src/lib.rs:127-164 | A submission never finds the channel full. |
| `Jobs.SubmitAnswers` | async_worker_rs/src/lib.rs:127-164 | A submission is turned away as full if and only if all eight slots hold a job that is unfinished or finished less than 120 seconds ago; otherwise it is accepted under the random id, if there is one. |
| `Jobs.HealthCounts` | async_worker_rs/src/lib.rs:112-125 | The health page counts exactly those busy slots. |
| `Jobs.RoomForFreeSlot` | async_worker_rs/src/lib.rs:128-148 | A free slot’s number is nowhere in the channel, which therefore has room for it. |
| `JobRuns.RunsAreTracked` | async_worker_rs/src/lib.rs:82-94 | The unfinished jobs are, in order, the accepted ids without an outcome; every finished job on the table holds the outcome of its own id, never one meant for an earlier tenant of its slot. |
| `JobRuns.OutcomesAnswerTickets` | async_worker_rs/src/lib.rs:79-94 | Each recorded outcome goes to the oldest accepted id still without one. |
| `JobRuns.NextTurnFinishesOne` | async_worker_rs/src/lib.rs:65-95 | While any accepted job is unfinished, the worker’s next turn records exactly one outcome, whatever it was doing: nothing is stranded. |
| `JobRuns.PollsTellTheTruth` | async_worker_rs/src/lib.rs:166-182 | After any interleaving a poll gives the recorded outcome of its own id for 120 seconds and nothing after; a pending job for an id still in flight; nothing for an id never handed out. |
| `JobRuns.PollOfPending` | async_worker_rs/src/lib.rs:166-182 | A pending job is reported running exactly when the worker is querying for it. |
| `JobService.JobService.SubmitJob` | async_worker_rs/src/lib.rs:127-164 | One critical section: expiry, the first free slot, the send; the reply is never "queue full". |
| `JobService.JobService.PollJob` | async_worker_rs/src/lib.rs:166-182 | One critical section: expiry and a search by id. |
| `JobService.JobService.ExpireSlots` | async_worker_rs/src/lib.rs:112-120 | Frees exactly the slots finished 120 seconds ago or more. |
| `JobService.JobService.StartJob` | async_worker_rs/src/lib.rs:75-78 | The worker’s first unwrap succeeds. |
| `JobService.JobService.FinishJob` | async_worker_rs/src/lib.rs:82-94 | The worker’s second unwrap succeeds and the outcome lands in the job that was enqueued. |

## Left out

- Checkpoints, generations and the economy reset (archive/nanacoin_rs/src/journal/checkpoint.rs): the journal is modelled as one that supports no checkpoints, at generation 0, as the trait's defaults say. So a full journal refuses every further command.
- Torn frames: an append writes a whole frame or none; a frame that is neither is refused by the decoder, which `Frames.ReadIsCanonical` covers.
- Byte capacities of text fields: texts are sequences of characters without the 40, 80, 96 and 140 byte limits. The memo a listing title or undo reason becomes is never larger than its field, so no conversion is cut.
- Machine widths: amounts, ids and times are unbounded integers; the code's explicit checks (checked additions, the 2^53 − 1 limits, saturating additions of expiry times) are modelled where they decide something.
- Auth.CodesAreSpentOnce: like every theorem about accepted or dead codes and tokens, in `Auth` and `Signoffs`, assumes the random source never repeats a secret; lengths of secrets are not modelled.
- Legacy token login, `require_https`, password hashing on creation, and the timing-equalising dummy derivation.
- HTTP routing, views and clients of every service; health and index pages beyond the occupied-slot count.
- The time query of the job worker: any success or failure. Pacing and real threads: a step taken at any time.
- Cipher.Aes128.EncryptBlock: takes blocks of exactly 16 bytes, as its documentation demands; the original would silently use the first 16 bytes of a longer one.
- Lone surrogates in Python strings: texts are sequences of Unicode scalar values, so encoding never fails.
- MessageStore.MessageStore.PostMessage: the creation time and the seeded accounts and messages are left out; seeding is an ordinary run of `AddUser` and `PostMessage`.
- Millisecond counters that wrap: session times are unbounded.
- Game Matcher, the dashboards, displays, firmware and web pages.
