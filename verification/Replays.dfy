/** Replaying a journalled event agrees with the live commit that wrote it, up to one exact exception. */
module Replays {
  import opened Wrappers
  import opened Types
  import opened Offers
  import opened Forex
  import opened Domain

  /** A settlement window that fits the validated time but not the time the event is stamped with. */
  predicate LateWindow(c: Command, timestamp: nat) {
    c.Configure? && c.offerSettlesAfter.Some?
    && c.offerSettlesAfter.value > SaturatingSub(MAX_SEQUENCE, timestamp)
  }

  lemma TradeLater(b: Books, actor: MemberId, c: Command, now: nat, later: nat)
    requires IsTrade(c) && now <= later
    requires ValidateTrade(b, actor, c, now).Success?
    ensures ValidateTrade(b, actor, c, later).Success?
  {
    if c.List? && |b.listings| >= LISTINGS {
      var i :| 0 <= i < |b.listings| && ListingRecyclable(b.offers, b.listings[i], now);
      assert ListingRecyclable(b.offers, b.listings[i], later);
    }
  }

  lemma MembershipLater(b: Books, actor: MemberId, c: Command, now: nat, later: nat)
    requires IsMembership(c) && now <= later
    requires ValidateMembership(b, actor, c, now).Success?
    ensures LateWindow(c, later) ==> ValidateMembership(b, actor, c, later) == Failure(InvalidInput)
    ensures !LateWindow(c, later) ==> ValidateMembership(b, actor, c, later).Success?
  {
  }

  /** What passes while the clock is unavailable passes at any later time, save a late window. */
  lemma UntimedLater(b: Books, actor: MemberId, c: Command, later: nat)
    requires ValidateAt(b, actor, c, 0).Success?
    ensures LateWindow(c, later) ==> ValidateAt(b, actor, c, later) == Failure(InvalidInput)
    ensures !LateWindow(c, later) ==> ValidateAt(b, actor, c, later).Success?
  {
    if IsMembership(c) {
      MembershipLater(b, actor, c, 0, later);
    } else if IsForexCommand(c) {
      assert c.IssueUsd? || c.CancelQuote?;
    } else if IsOfferCommand(c) {
      assert false;
    } else {
      TradeLater(b, actor, c, 0, later);
    }
  }

  /** At the very time it was validated, no window is late. */
  lemma TimedNow(b: Books, actor: MemberId, c: Command, now: nat)
    requires ValidateAt(b, actor, c, now).Success?
    ensures !LateWindow(c, now)
  {
  }

  /** A live event replays to the same books exactly when it is not a late window; a late window is refused. */
  lemma ReplayAgrees(b: Books, e: Event, clock: nat)
    requires Admissible(b, e, clock)
    ensures Replay(b, e) == Success(Apply(b, e)) <==> !LateWindow(e.command, e.timestamp)
    ensures Replay(b, e).Failure? <==> LateWindow(e.command, e.timestamp)
    ensures Replay(b, e).Failure? ==> Replay(b, e).error == InvalidInput && clock < b.lastTimestamp
  {
    if clock < b.lastTimestamp {
      UntimedLater(b, e.actor, e.command, e.timestamp);
    } else {
      TimedNow(b, e.actor, e.command, clock);
    }
  }

  /** Any event that replays was admissible under a clock reading its own timestamp. */
  lemma ReplayedWasAdmissible(b: Books, e: Event)
    requires Replay(b, e).Success?
    ensures Admissible(b, e, e.timestamp) && Replay(b, e).value == Apply(b, e)
  {
  }
}
