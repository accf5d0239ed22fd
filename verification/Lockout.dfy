/** Five wrong passwords in a row lock a username out, over runs of the login desk. */
module Lockout {
  import opened Wrappers
  import opened Types
  import opened Auth

  function Outcome(encode: Digest -> string, acts: seq<Act>, k: nat): Result<string, Error>
    requires k < |acts| && acts[k].Authorizing?
  {
    var a := acts[k];
    Authorize(After(encode, acts[..k]), a.b, a.username, a.password, a.pkce, a.method_, a.redirect, a.now, a.secret).1
  }

  /** Act `k` gave a wrong password for this username, or named a user who is not there. */
  predicate Fails(encode: Digest -> string, acts: seq<Act>, k: nat, username: string)
    requires k < |acts|
  {
    acts[k].Authorizing? && acts[k].username == username && Outcome(encode, acts, k) == Failure(InvalidCredentials)
  }

  /** Act `k` forgives no failure of this username: it is no login of this user past the password, and no restart. */
  predicate Quiet(encode: Digest -> string, acts: seq<Act>, k: nat, username: string)
    requires k < |acts|
  {
    && acts[k] != Clearing
    && (acts[k].Authorizing? && acts[k].username == username ==>
          && Outcome(encode, acts, k).Failure?
          && Outcome(encode, acts, k).error in [InvalidInput, RateLimited, InvalidCredentials, Disabled])
  }

  /** When this username failed, from act `start` on. */
  function FailTimes(encode: Digest -> string, acts: seq<Act>, start: nat, username: string): seq<nat>
    requires start <= |acts|
  {
    if start == |acts| then []
    else
      var last := |acts| - 1;
      FailTimes(encode, acts[..last], start, username)
      + if Fails(encode, acts, last, username) then [acts[last].now] else []
  }

  /** Each failure comes before the one before it is forgotten. */
  predicate Close(times: seq<nat>) {
    forall k :: 0 < k < |times| ==> times[k] < SaturatingAdd(times[k - 1], LOCKOUT)
  }

  /** The username's slot remembers these failures. */
  ghost predicate Remembers(failures: seq<Option<Attempts>>, username: Digest, times: seq<nat>)
    requires failures != []
  {
    times != [] ==>
      var f := failures[FailureSlot(failures, username)];
      && f.Some? && f.value.username == username && f.value.count >= Min(|times|, 5)
      && f.value.until == SaturatingAdd(times[|times| - 1], LOCKOUT)
  }

  // ---- Who else fails ----

  /** The desk was opened, or emptied by a restart, just before act `from`. */
  predicate OpensAt(acts: seq<Act>, from: nat) {
    from <= |acts| && (from == 0 || acts[from - 1] == Clearing)
  }

  /** The clock never runs backwards. */
  predicate Ticking(acts: seq<Act>, from: nat) {
    forall i, k :: from <= i < k < |acts| && acts[i].Authorizing? && acts[k].Authorizing? ==> acts[i].now <= acts[k].now
  }

  function Lapse(time: nat): nat {
    SaturatingAdd(time, 300)
  }

  /** Act `k` is a failure of somebody else that is remembered at least as long as one at `since`. */
  predicate Rival(encode: Digest -> string, acts: seq<Act>, k: nat, username: string, since: nat)
    requires k < |acts|
  {
    && acts[k].Authorizing? && acts[k].username != username && Fails(encode, acts, k, acts[k].username)
    && Lapse(since) <= Lapse(acts[k].now)
  }

  ghost function Rivals(encode: Digest -> string, acts: seq<Act>, from: nat, username: string, since: nat)
    : set<Digest>
  {
    set k: nat | from <= k < |acts| && Rival(encode, acts, k, username, since) :: OfText(acts[k].username)
  }

  lemma FailsBefore(encode: Digest -> string, acts: seq<Act>, k: nat, username: string)
    requires k + 1 < |acts|
    ensures Fails(encode, acts[..|acts| - 1], k, username) == Fails(encode, acts, k, username)
  {
    assert acts[..|acts| - 1][..k] == acts[..k];
  }

  lemma RivalsGrow(encode: Digest -> string, acts: seq<Act>, from: nat, username: string, since: nat)
    requires acts != []
    ensures Rivals(encode, acts[..|acts| - 1], from, username, since) <= Rivals(encode, acts, from, username, since)
  {
    hide Fails;
    forall k: nat | k + 1 < |acts| && acts[k].Authorizing?
      ensures Rival(encode, acts[..|acts| - 1], k, username, since) == Rival(encode, acts, k, username, since) {
      FailsBefore(encode, acts, k, acts[k].username);
    }
  }

  lemma SubsetsAreSmaller<T>(xs: set<T>, ys: set<T>)
    requires xs <= ys
    ensures |xs| <= |ys|
  {
    assert ys == xs + (ys - xs);
  }

  // ---- The table ----

  /** What authorisation does to the failure table. */
  lemma AuthorizeFailures(d: Desk, b: Books, username: string, password: string, pkce: string, method_: string,
                          redirect: string, now: nat, secret: Option<string>)
    requires d.Sized()
    ensures var (d', r) := Authorize(d, b, username, password, pkce, method_, redirect, now, secret);
            if r == Failure(InvalidCredentials) then d'.failures == RecordFailure(d.failures, OfText(username), now)
            else if r.Failure? && r.error in [InvalidInput, RateLimited, Disabled] then d'.failures == d.failures
            else d'.failures == Cleared(d.failures, (f: Attempts) => f.username == OfText(username))
  {
  }

  lemma OthersKeepFailures(encode: Digest -> string, d: Desk, a: Act)
    requires d.Sized() && a.Redeeming?
    ensures Redeem(encode, d, a.b, a.code, a.verifier, a.redirect, a.now, a.secret).0.failures == d.failures
  {
  }

  /** What the last act of a run does to the failure table. */
  lemma LastFailures(encode: Digest -> string, acts: seq<Act>)
    requires acts != []
    ensures var (before, after) := (After(encode, acts[..|acts| - 1]).failures, After(encode, acts).failures);
            match acts[|acts| - 1]
            case Authorizing(_, username, _, _, _, _, now, _) =>
              var r := Outcome(encode, acts, |acts| - 1);
              if r == Failure(InvalidCredentials) then after == RecordFailure(before, OfText(username), now)
              else if r.Failure? && r.error in [InvalidInput, RateLimited, Disabled] then after == before
              else after == Cleared(before, (f: Attempts) => f.username == OfText(username))
            case Clearing => after == EMPTY_DESK.failures
            case _ => after == before
  {
    var d, a := After(encode, acts[..|acts| - 1]), acts[|acts| - 1];
    hide Authorize, Redeem, RecordFailure, Cleared;
    if a.Authorizing? {
      AuthorizeFailures(d, a.b, a.username, a.password, a.pkce, a.method_, a.redirect, a.now, a.secret);
    } else if a.Redeeming? {
      OthersKeepFailures(encode, d, a);
    }
  }

  /** A slot was last written by this failure. */
  ghost predicate WrittenBy(encode: Digest -> string, acts: seq<Act>, from: nat, f: Attempts, m: nat) {
    && from <= m < |acts| && acts[m].Authorizing? && Fails(encode, acts, m, acts[m].username)
    && f.username == OfText(acts[m].username) && f.until == Lapse(acts[m].now)
  }

  ghost predicate Traced(encode: Digest -> string, acts: seq<Act>, from: nat, slot: Option<Attempts>) {
    slot.Some? ==> exists m :: WrittenBy(encode, acts, from, slot.value, m)
  }

  predicate Holds(slot: Option<Attempts>, username: Digest) {
    slot.Some? && slot.value.username == username
  }

  ghost predicate OneSlotEach(failures: seq<Option<Attempts>>) {
    forall i, j :: 0 <= i < j < |failures| && failures[i].Some? ==> !Holds(failures[j], failures[i].value.username)
  }

  ghost predicate TableInv(encode: Digest -> string, acts: seq<Act>, from: nat, failures: seq<Option<Attempts>>) {
    && |failures| == MAX_FAILURES && OneSlotEach(failures)
    && forall j :: 0 <= j < |failures| ==> Traced(encode, acts, from, failures[j])
  }

  lemma StillTraced(encode: Digest -> string, acts: seq<Act>, from: nat, slot: Option<Attempts>)
    requires acts != [] && Traced(encode, acts[..|acts| - 1], from, slot)
    ensures Traced(encode, acts, from, slot)
  {
    hide Fails;
    if slot.Some? {
      var m: nat :| WrittenBy(encode, acts[..|acts| - 1], from, slot.value, m);
      FailsBefore(encode, acts, m, acts[m].username);
      assert WrittenBy(encode, acts, from, slot.value, m);
    }
  }

  /** The slot a username's failure goes to: its own, if it has one. */
  lemma OwnSlot(failures: seq<Option<Attempts>>, username: Digest)
    requires failures != []
    ensures var i := FailureSlot(failures, username);
            if exists j :: 0 <= j < |failures| && Holds(failures[j], username) then Holds(failures[i], username)
            else i == SoonestSlot(failures)
  {
    hide SoonestSlot;
    var p := (f: Option<Attempts>) => f.Some? && f.value.username == username;
    assert forall f :: p(f) == Holds(f, username);
  }

  lemma HeldOnce(failures: seq<Option<Attempts>>, username: Digest, i: nat)
    requires OneSlotEach(failures) && i < |failures| && Holds(failures[i], username)
    ensures FailureSlot(failures, username) == i
  {
    OwnSlot(failures, username);
  }

  lemma RecordedOnce(failures: seq<Option<Attempts>>, username: Digest, now: nat)
    requires failures != [] && OneSlotEach(failures)
    ensures OneSlotEach(RecordFailure(failures, username, now))
  {
    hide FailureSlot;
    OwnSlot(failures, username);
  }

  /** Every slot goes back to the last failure of its username, and no username has two. */
  lemma {:induction false} TableIsTraced(encode: Digest -> string, acts: seq<Act>, from: nat)
    requires OpensAt(acts, from)
    ensures TableInv(encode, acts, from, After(encode, acts).failures)
  {
    if from < |acts| {
      var front, a := acts[..|acts| - 1], acts[|acts| - 1];
      TableIsTraced(encode, front, from);
      TableStep(encode, acts, from);
    }
  }

  lemma TableStep(encode: Digest -> string, acts: seq<Act>, from: nat)
    requires from < |acts| && TableInv(encode, acts[..|acts| - 1], from, After(encode, acts[..|acts| - 1]).failures)
    ensures TableInv(encode, acts, from, After(encode, acts).failures)
  {
    hide After, Authorize, RecordFailure, Traced, OneSlotEach, Cleared, Fails;
    var failures, a := After(encode, acts[..|acts| - 1]).failures, acts[|acts| - 1];
    forall j | 0 <= j < MAX_FAILURES ensures Traced(encode, acts, from, failures[j]) {
      StillTraced(encode, acts, from, failures[j]);
    }
    LastFailures(encode, acts);
    if a.Clearing? {
      EmptyIsTraced(encode, acts, from);
    } else if a.Authorizing? {
      if Outcome(encode, acts, |acts| - 1) == Failure(InvalidCredentials) {
        FailedNow(encode, acts);
        RecordedOnce(failures, OfText(a.username), a.now);
        RecordedIsTraced(encode, acts, from, failures);
      } else {
        ForgivenIsTraced(encode, acts, from, failures, OfText(a.username));
      }
    }
  }

  lemma FailedNow(encode: Digest -> string, acts: seq<Act>)
    requires acts != [] && acts[|acts| - 1].Authorizing?
    ensures Fails(encode, acts, |acts| - 1, acts[|acts| - 1].username) <==>
            Outcome(encode, acts, |acts| - 1) == Failure(InvalidCredentials)
  {
  }

  lemma ForgivenIsTraced(encode: Digest -> string, acts: seq<Act>, from: nat, failures: seq<Option<Attempts>>,
                         username: Digest)
    requires TableInv(encode, acts, from, failures)
    ensures TableInv(encode, acts, from, Cleared(failures, (f: Attempts) => f.username == username))
  {
    hide WrittenBy;
  }

  lemma EmptyIsTraced(encode: Digest -> string, acts: seq<Act>, from: nat)
    ensures TableInv(encode, acts, from, EMPTY_DESK.failures)
  {
  }

  lemma RecordedIsTraced(encode: Digest -> string, acts: seq<Act>, from: nat, failures: seq<Option<Attempts>>)
    requires from < |acts| && |failures| == MAX_FAILURES
    requires acts[|acts| - 1].Authorizing? && Fails(encode, acts, |acts| - 1, acts[|acts| - 1].username)
    requires forall j :: 0 <= j < |failures| ==> Traced(encode, acts, from, failures[j])
    ensures var next := RecordFailure(failures, OfText(acts[|acts| - 1].username), acts[|acts| - 1].now);
            |next| == MAX_FAILURES && forall j :: 0 <= j < |next| ==> Traced(encode, acts, from, next[j])
  {
    hide FailureSlot, Fails, SaturatingAdd;
    var a := acts[|acts| - 1];
    var next := RecordFailure(failures, OfText(a.username), a.now);
    var i := FailureSlot(failures, OfText(a.username));
    assert WrittenBy(encode, acts, from, next[i].value, |acts| - 1);
  }

  // ---- Room for everybody ----

  /** The usernames in the first `n` slots. */
  function Names(failures: seq<Option<Attempts>>, n: nat): set<Digest>
    requires n <= |failures| && forall j :: 0 <= j < |failures| ==> failures[j].Some?
  {
    set j | 0 <= j < n :: failures[j].value.username
  }

  lemma {:induction false} NamesAreDistinct(failures: seq<Option<Attempts>>, n: nat)
    requires n <= |failures| && OneSlotEach(failures) && forall j :: 0 <= j < |failures| ==> failures[j].Some?
    ensures |Names(failures, n)| == n
  {
    if n > 0 {
      NamesAreDistinct(failures, n - 1);
      var last := failures[n - 1].value.username;
      assert forall j :: 0 <= j < n - 1 ==> !Holds(failures[n - 1], failures[j].value.username);
      assert last !in Names(failures, n - 1);
      assert Names(failures, n) == Names(failures, n - 1) + {last};
    }
  }

  lemma SomeTimeLeft(time: nat)
    ensures Lapse(time) > 0
  {
  }

  lemma LastIsRival(encode: Digest -> string, acts: seq<Act>, from: nat, username: string, since: nat)
    requires from < |acts| && Rival(encode, acts, |acts| - 1, username, since)
    ensures OfText(acts[|acts| - 1].username) in Rivals(encode, acts, from, username, since)
  {
    hide Rival;
  }

  /** Whoever holds another slot as fresh is a rival. */
  lemma SlotIsRivals(encode: Digest -> string, acts: seq<Act>, from: nat, slot: Option<Attempts>, username: string,
                     since: nat)
    requires acts != [] && slot.Some? && Traced(encode, acts[..|acts| - 1], from, slot)
    requires slot.value.username != OfText(username) && Lapse(since) <= slot.value.until
    ensures slot.value.username in Rivals(encode, acts, from, username, since)
  {
    hide Fails;
    var m: nat :| WrittenBy(encode, acts[..|acts| - 1], from, slot.value, m);
    FailsBefore(encode, acts, m, acts[m].username);
    assert Rival(encode, acts, m, username, since);
  }

  /** A slot as fresh as `since` is overwritten by somebody new only in a table full of rivals as fresh. */
  lemma SoonestMeansFull(encode: Digest -> string, acts: seq<Act>, from: nat, failures: seq<Option<Attempts>>,
                         username: string, since: nat, i: nat)
    requires from < |acts| && TableInv(encode, acts[..|acts| - 1], from, failures)
    requires i < |failures| && Holds(failures[i], OfText(username)) && failures[i].value.until >= Lapse(since)
    requires Rival(encode, acts, |acts| - 1, username, since) && i == SoonestSlot(failures)
    requires forall j :: 0 <= j < |failures| ==> !Holds(failures[j], OfText(acts[|acts| - 1].username))
    ensures |Rivals(encode, acts, from, username, since)| >= MAX_FAILURES
  {
    assert acts[|acts| - 1].Authorizing?;
    hide Fails, Rivals, Rival, Traced, Lapse, OneSlotEach;
    var rivals, newcomer := Rivals(encode, acts, from, username, since), OfText(acts[|acts| - 1].username);
    SomeTimeLeft(since);
    LastIsRival(encode, acts, from, username, since);
    forall j | 0 <= j < |failures| ensures Until(failures[i]) <= Until(failures[j]) && failures[j].Some? {
    }
    forall j | 0 <= j < |failures| && j != i ensures failures[j].value.username in rivals {
      OthersHold(failures, i, j);
      SlotIsRivals(encode, acts, from, failures[j], username, since);
    }
    FullTableCounts(failures, i, newcomer, rivals);
  }

  lemma OthersHold(failures: seq<Option<Attempts>>, i: nat, j: nat)
    requires OneSlotEach(failures) && i < |failures| && j < |failures| && i != j
    requires failures[i].Some? && failures[j].Some?
    ensures failures[i].value.username != failures[j].value.username
  {
    assert i < j ==> !Holds(failures[j], failures[i].value.username);
    assert j < i ==> !Holds(failures[i], failures[j].value.username);
  }

  /** Everybody in a full table but one, and a newcomer, are as many as the table has slots. */
  lemma FullTableCounts(failures: seq<Option<Attempts>>, i: nat, newcomer: Digest, crowd: set<Digest>)
    requires i < |failures| && OneSlotEach(failures)
    requires forall j :: 0 <= j < |failures| ==> failures[j].Some? && failures[j].value.username != newcomer
    requires forall j :: 0 <= j < |failures| && j != i ==> failures[j].value.username in crowd
    requires newcomer in crowd
    ensures |crowd| >= |failures|
  {
    NamesAreDistinct(failures, |failures|);
    hide OneSlotEach;
    var names := Names(failures, |failures|);
    var counted := names - {failures[i].value.username} + {newcomer};
    assert counted <= crowd;
    SubsetsAreSmaller(counted, crowd);
  }

  // ---- Memory ----

  lemma SameSlot(failures: seq<Option<Attempts>>, username: Digest, now: nat)
    requires failures != []
    ensures FailureSlot(RecordFailure(failures, username, now), username) == FailureSlot(failures, username)
  {
    var i, next := FailureSlot(failures, username), RecordFailure(failures, username, now);
    var p := (f: Option<Attempts>) => f.Some? && f.value.username == username;
    assert p(next[i]) && forall j :: 0 <= j < i ==> next[j] == failures[j] && !p(failures[j]);
    assert FailureSlot(next, username) == Position(next, p).value;
  }

  lemma RecordedIsRemembered(failures: seq<Option<Attempts>>, username: Digest, times: seq<nat>, now: nat)
    requires failures != [] && Remembers(failures, username, times) && Close(times + [now])
    ensures Remembers(RecordFailure(failures, username, now), username, times + [now])
  {
    SameSlot(failures, username, now);
    if times != [] {
      assert (times + [now])[|times|] == now && (times + [now])[|times| - 1] == times[|times| - 1];
    }
  }

  /** Somebody else's failure in another slot leaves this one alone. */
  lemma OthersAreRecorded(failures: seq<Option<Attempts>>, username: Digest, other: Digest, times: seq<nat>, now: nat)
    requires failures != [] && OneSlotEach(failures) && username != other && times != []
    requires Remembers(failures, username, times) && FailureSlot(failures, other) != FailureSlot(failures, username)
    ensures Remembers(RecordFailure(failures, other, now), username, times)
  {
    var next := RecordFailure(failures, other, now);
    var p := (f: Option<Attempts>) => f.Some? && f.value.username == username;
    var i, slot := FailureSlot(failures, username), FailureSlot(failures, other);
    assert p(failures[i]);
    if Holds(failures[slot], username) {
      HeldOnce(failures, username, slot);
      assert false;
    }
    assert forall j :: 0 <= j < |failures| ==> (p(next[j]) <==> p(failures[j]));
    SamePosition(failures, next, p);
  }

  /** Forgiving another username leaves this one's slot alone. */
  lemma ForgivenIsRemembered(failures: seq<Option<Attempts>>, username: Digest, other: Digest, times: seq<nat>)
    requires failures != [] && username != other && Remembers(failures, username, times)
    ensures Remembers(Cleared(failures, (f: Attempts) => f.username == other), username, times)
  {
    if times != [] {
      var next := Cleared(failures, (f: Attempts) => f.username == other);
      var p := (f: Option<Attempts>) => f.Some? && f.value.username == username;
      var i := FailureSlot(failures, username);
      assert p(failures[i]) && next[i] == failures[i];
      assert forall j :: 0 <= j < |failures| ==> (p(next[j]) <==> p(failures[j]));
      assert Position(failures, p) == Some(i);
      SamePosition(failures, next, p);
    }
  }

  lemma SamePosition<T>(s: seq<T>, t: seq<T>, p: T -> bool)
    requires |s| == |t| && forall j :: 0 <= j < |s| ==> (p(s[j]) <==> p(t[j]))
    ensures Position(s, p) == Position(t, p)
  {
    var i, j := Position(s, p), Position(t, p);
    if i.Some? && j.Some? {
      assert i.value <= j.value <= i.value;
    }
  }

  /** Fewer than 64 rivals leave this username's slot in place. */
  lemma RivalsLeaveRoom(encode: Digest -> string, acts: seq<Act>, from: nat, username: string, since: nat,
                        times: seq<nat>)
    requires from < |acts| && times != [] && since <= times[|times| - 1]
    requires var failures := After(encode, acts[..|acts| - 1]).failures;
             TableInv(encode, acts[..|acts| - 1], from, failures) && Remembers(failures, OfText(username), times)
    requires Rival(encode, acts, |acts| - 1, username, since)
    requires |Rivals(encode, acts, from, username, since)| < MAX_FAILURES
    ensures var failures := After(encode, acts[..|acts| - 1]).failures;
            FailureSlot(failures, OfText(acts[|acts| - 1].username)) != FailureSlot(failures, OfText(username))
  {
    var failures, other := After(encode, acts[..|acts| - 1]).failures, OfText(acts[|acts| - 1].username);
    hide After, Fails, Rivals, Rival, FailureSlot, TableInv;
    var i := FailureSlot(failures, OfText(username));
    OwnSlot(failures, other);
    if FailureSlot(failures, other) == i {
      SoonestMeansFull(encode, acts, from, failures, username, since, i);
      assert false;
    }
  }

  lemma QuietStep(encode: Digest -> string, acts: seq<Act>, from: nat, username: string, since: nat, times: seq<nat>)
    requires from < |acts| && Quiet(encode, acts, |acts| - 1, username)
    requires TableInv(encode, acts[..|acts| - 1], from, After(encode, acts[..|acts| - 1]).failures)
    requires Remembers(After(encode, acts[..|acts| - 1]).failures, OfText(username), times)
    requires times != [] ==>
               since <= times[|times| - 1] && (acts[|acts| - 1].Authorizing? ==> since <= acts[|acts| - 1].now)
    requires |Rivals(encode, acts, from, username, since)| < MAX_FAILURES
    requires Close(times + if Fails(encode, acts, |acts| - 1, username) then [acts[|acts| - 1].now] else [])
    ensures Remembers(After(encode, acts).failures, OfText(username),
                      times + if Fails(encode, acts, |acts| - 1, username) then [acts[|acts| - 1].now] else [])
  {
    var failures, a := After(encode, acts[..|acts| - 1]).failures, acts[|acts| - 1];
    assert times + [] == times;
    hide After, Authorize, Remembers, RecordFailure, FailureSlot, Cleared, Close, TableInv, Rivals;
    LastFailures(encode, acts);
    if a.Authorizing? {
      if a.username == username {
        if Fails(encode, acts, |acts| - 1, username) {
          RecordedIsRemembered(failures, OfText(username), times, a.now);
        }
      } else if Fails(encode, acts, |acts| - 1, a.username) {
        OthersStep(encode, acts, from, username, since, times);
      } else {
        ForgivenIsRemembered(failures, OfText(username), OfText(a.username), times);
      }
    }
  }

  lemma OthersStep(encode: Digest -> string, acts: seq<Act>, from: nat, username: string, since: nat, times: seq<nat>)
    requires from < |acts| && acts[|acts| - 1].Authorizing? && acts[|acts| - 1].username != username
    requires Fails(encode, acts, |acts| - 1, acts[|acts| - 1].username)
    requires TableInv(encode, acts[..|acts| - 1], from, After(encode, acts[..|acts| - 1]).failures)
    requires Remembers(After(encode, acts[..|acts| - 1]).failures, OfText(username), times)
    requires times != [] ==> since <= times[|times| - 1] && since <= acts[|acts| - 1].now
    requires |Rivals(encode, acts, from, username, since)| < MAX_FAILURES
    ensures var (failures, a) := (After(encode, acts[..|acts| - 1]).failures, acts[|acts| - 1]);
            Remembers(RecordFailure(failures, OfText(a.username), a.now), OfText(username), times)
  {
    if times != [] {
      hide After, Rivals, Fails, Traced, RecordFailure, FailureSlot;
      RivalsLeaveRoom(encode, acts, from, username, since, times);
      var a := acts[|acts| - 1];
      OthersAreRecorded(After(encode, acts[..|acts| - 1]).failures, OfText(username), OfText(a.username), times, a.now);
    }
  }

  lemma {:induction false} FailTimeHasAct(encode: Digest -> string, acts: seq<Act>, start: nat, username: string,
                                          q: nat)
    returns (m: nat)
    requires start <= |acts| && q < |FailTimes(encode, acts, start, username)|
    ensures start <= m < |acts| && acts[m].Authorizing? && acts[m].now == FailTimes(encode, acts, start, username)[q]
  {
    hide Fails;
    var last := |acts| - 1;
    if q < |FailTimes(encode, acts[..last], start, username)| {
      m := FailTimeHasAct(encode, acts[..last], start, username, q);
    } else {
      FailsAuthorise(encode, acts, last, username);
      m := last;
    }
  }

  lemma FailsAuthorise(encode: Digest -> string, acts: seq<Act>, k: nat, username: string)
    requires k < |acts| && Fails(encode, acts, k, username)
    ensures acts[k].Authorizing?
  {
  }

  /** Under a clock that never runs backwards, while fewer than 64 others fail, a username's slot counts its close
      failures and lapses five minutes after the last. */
  lemma {:induction false} FailuresAreRemembered(encode: Digest -> string, acts: seq<Act>, from: nat, start: nat,
                                                 username: string, since: nat)
    requires OpensAt(acts, from) && from <= start <= |acts| && Ticking(acts, from)
    requires Close(FailTimes(encode, acts, start, username))
    requires forall k :: start <= k < |acts| ==> Quiet(encode, acts, k, username)
    requires FailTimes(encode, acts, start, username) != [] ==> since <= FailTimes(encode, acts, start, username)[0]
    requires |Rivals(encode, acts, from, username, since)| < MAX_FAILURES
    ensures Remembers(After(encode, acts).failures, OfText(username), FailTimes(encode, acts, start, username))
  {
    if start < |acts| {
      hide Remembers, After, Fails, Rivals, Ticking, TableInv, Close, Quiet, FailTimes;
      var front := acts[..|acts| - 1];
      QuietBefore(encode, acts, start, username);
      FewerBefore(encode, acts, from, start, username, since);
      FailuresAreRemembered(encode, front, from, start, username, since);
      TableIsTraced(encode, front, from);
      var times := FailTimes(encode, front, start, username);
      if times != [] {
        LaterThanFirst(encode, acts, from, start, username);
      }
      QuietStep(encode, acts, from, username, since, times);
    }
  }

  lemma QuietBefore(encode: Digest -> string, acts: seq<Act>, start: nat, username: string)
    requires start < |acts| && forall k :: start <= k < |acts| ==> Quiet(encode, acts, k, username)
    ensures var front := acts[..|acts| - 1];
            forall k :: start <= k < |front| ==> Quiet(encode, front, k, username)
  {
    var front := acts[..|acts| - 1];
    forall k | start <= k < |front| ensures Quiet(encode, front, k, username) {
      assert Quiet(encode, acts, k, username) && front[..k] == acts[..k];
    }
  }

  /** One act earlier there were no more failures, no more rivals and no other clock. */
  lemma FewerBefore(encode: Digest -> string, acts: seq<Act>, from: nat, start: nat, username: string, since: nat)
    requires start < |acts| && Ticking(acts, from)
    ensures var (front, last) := (acts[..|acts| - 1], |acts| - 1);
            var times, times' := FailTimes(encode, front, start, username), FailTimes(encode, acts, start, username);
            && times' == times + (if Fails(encode, acts, last, username) then [acts[last].now] else [])
            && (times != [] ==> times'[0] == times[0])
            && (Close(times') ==> Close(times))
            && |Rivals(encode, front, from, username, since)| <= |Rivals(encode, acts, from, username, since)|
            && Ticking(front, from)
  {
    hide Fails, Rivals, Ticking;
    RivalsGrow(encode, acts, from, username, since);
    SubsetsAreSmaller(Rivals(encode, acts[..|acts| - 1], from, username, since),
                      Rivals(encode, acts, from, username, since));
    TicksBefore(acts, from);
    var times := FailTimes(encode, acts[..|acts| - 1], start, username);
    assert forall k :: 0 <= k < |times| ==> FailTimes(encode, acts, start, username)[k] == times[k];
  }

  lemma TicksBefore(acts: seq<Act>, from: nat)
    requires acts != [] && Ticking(acts, from)
    ensures Ticking(acts[..|acts| - 1], from)
  {
  }

  /** Nothing after the first failure happens before it. */
  lemma LaterThanFirst(encode: Digest -> string, acts: seq<Act>, from: nat, start: nat, username: string)
    requires from <= start < |acts| && Ticking(acts, from)
    requires FailTimes(encode, acts[..|acts| - 1], start, username) != []
    ensures var times := FailTimes(encode, acts[..|acts| - 1], start, username);
            && times[0] <= times[|times| - 1]
            && (acts[|acts| - 1].Authorizing? ==> times[0] <= acts[|acts| - 1].now)
  {
    hide FailTimes;
    var front := acts[..|acts| - 1];
    var m := FailTimeHasAct(encode, front, start, username, 0);
    assert acts[m] == front[m];
    FirstIsEarliest(encode, front, from, start, username, |FailTimes(encode, front, start, username)| - 1);
  }

  lemma {:induction false} FirstIsEarliest(encode: Digest -> string, acts: seq<Act>, from: nat, start: nat,
                                           username: string, q: nat)
    requires from <= start <= |acts| && Ticking(acts, from) && q < |FailTimes(encode, acts, start, username)|
    ensures FailTimes(encode, acts, start, username)[0] <= FailTimes(encode, acts, start, username)[q]
  {
    hide Fails;
    var last := |acts| - 1;
    var front := acts[..last];
    if q < |FailTimes(encode, front, start, username)| {
      TicksBefore(acts, from);
      FirstIsEarliest(encode, front, from, start, username, q);
    } else if q > 0 {
      FailsAuthorise(encode, acts, last, username);
      var m := FailTimeHasAct(encode, front, start, username, 0);
      assert acts[m] == front[m];
    }
  }

  lemma RememberedIsLocked(d: Desk, b: Books, username: string, times: seq<nat>, password: string, pkce: string,
                           method_: string, redirect: string, now: nat, secret: Option<string>)
    requires d.Sized() && Remembers(d.failures, OfText(username), times)
    requires |times| >= 5 && now < SaturatingAdd(times[|times| - 1], LOCKOUT)
    ensures Authorize(d, b, username, password, pkce, method_, redirect, now, secret) ==
            (d, Failure(if WellFormed(pkce, method_, redirect) then RateLimited else InvalidInput))
  {
    hide FailureSlot;
    assert d.failures[FailureSlot(d.failures, OfText(username))].Some?;
  }

  /** After any run of the desk, under a clock that never runs backwards, in which a username failed five times in a
      row, each failure within five minutes of the one before, while fewer than 64 others failed since the first: until
      five minutes after the last failure every request for that username is refused, right password or not, and
      changes nothing. */
  lemma FiveFailuresLock(encode: Digest -> string, acts: seq<Act>, from: nat, start: nat, b: Books, username: string,
                         password: string, pkce: string, method_: string, redirect: string, now: nat,
                         secret: Option<string>)
    requires OpensAt(acts, from) && from <= start <= |acts| && Ticking(acts, from)
    requires forall k :: start <= k < |acts| ==> Quiet(encode, acts, k, username)
    requires var times := FailTimes(encode, acts, start, username);
             && |times| >= 5 && Close(times) && now < Lapse(times[|times| - 1])
             && |Rivals(encode, acts, from, username, times[0])| < MAX_FAILURES
    ensures Authorize(After(encode, acts), b, username, password, pkce, method_, redirect, now, secret) ==
            (After(encode, acts), Failure(if WellFormed(pkce, method_, redirect) then RateLimited else InvalidInput))
  {
    hide After, Authorize, Remembers, Quiet, FailTimes, Rivals, Ticking;
    var times := FailTimes(encode, acts, start, username);
    FailuresAreRemembered(encode, acts, from, start, username, times[0]);
    RememberedIsLocked(After(encode, acts), b, username, times, password, pkce, method_, redirect, now, secret);
  }

  // ---- Nobody else is locked out ----

  /** Act `k` wipes the failures of this username: it gave the right password, or the desk was emptied. */
  predicate Forgives(encode: Digest -> string, acts: seq<Act>, k: nat, username: string)
    requires k < |acts|
  {
    || acts[k] == Clearing
    || (acts[k].Authorizing? && acts[k].username == username
        && !(Outcome(encode, acts, k).Failure?
             && Outcome(encode, acts, k).error in [InvalidInput, RateLimited, InvalidCredentials, Disabled]))
  }

  /** The desk remembers nothing of this username just before act `from`. */
  predicate StartsClean(encode: Digest -> string, acts: seq<Act>, from: nat, username: string) {
    from <= |acts| && (from == 0 || Forgives(encode, acts, from - 1, username))
  }

  /** The slot counts the last of these failures, each within five minutes of the one before. */
  ghost predicate Tallies(slot: Option<Attempts>, times: seq<nat>) {
    slot.Some? ==>
      && 1 <= slot.value.count <= |times|
      && slot.value.until == Lapse(times[|times| - 1])
      && Close(times[|times| - slot.value.count..])
  }

  ghost predicate TableTallies(failures: seq<Option<Attempts>>, username: Digest, times: seq<nat>) {
    forall j :: 0 <= j < |failures| && Holds(failures[j], username) ==> Tallies(failures[j], times)
  }

  lemma OneMoreTallied(failures: seq<Option<Attempts>>, username: Digest, times: seq<nat>, now: nat)
    requires failures != [] && OneSlotEach(failures) && TableTallies(failures, username, times)
    ensures TableTallies(RecordFailure(failures, username, now), username, times + [now])
  {
    hide FailureSlot;
    var i := FailureSlot(failures, username);
    var next := RecordFailure(failures, username, now);
    OwnSlot(failures, username);
    forall j | 0 <= j < |next| && Holds(next[j], username) ensures Tallies(next[j], times + [now]) {
      if j != i {
        HeldElsewhere(failures, username, j);
        assert false;
      }
      TalliedNow(failures[i], username, times, now, next[i].value.count);
    }
  }

  lemma HeldElsewhere(failures: seq<Option<Attempts>>, username: Digest, j: int)
    requires failures != [] && OneSlotEach(failures)
    requires 0 <= j < |failures| && j != FailureSlot(failures, username)
    ensures !Holds(failures[j], username)
  {
    OwnSlot(failures, username);
  }

  lemma TalliedNow(slot: Option<Attempts>, username: Digest, times: seq<nat>, now: nat, count: nat)
    requires Holds(slot, username) ==> Tallies(slot, times)
    requires count == if Holds(slot, username) && now < slot.value.until then Min(slot.value.count + 1, 5) else 1
    ensures Tallies(Some(Attempts(username, count, Lapse(now))), times + [now])
  {
    hide SaturatingAdd;
    var after := times + [now];
    var tail := after[|after| - count..];
    if count > 1 {
      var earlier := times[|times| - slot.value.count..];
      assert forall k :: 0 <= k < count - 1 ==> tail[k] == earlier[slot.value.count - (count - 1) + k];
      assert tail[count - 1] == now && tail[count - 2] == times[|times| - 1];
      forall k | 0 < k < |tail| ensures tail[k] < SaturatingAdd(tail[k - 1], LOCKOUT) {
        if k < count - 1 {
          var place := slot.value.count - (count - 1) + k;
          assert earlier[place] < SaturatingAdd(earlier[place - 1], LOCKOUT);
        }
      }
    }
  }

  lemma TallyStep(encode: Digest -> string, acts: seq<Act>, from: nat, username: string)
    requires from < |acts|
    requires var failures := After(encode, acts[..|acts| - 1]).failures;
             && OneSlotEach(failures)
             && TableTallies(failures, OfText(username), FailTimes(encode, acts[..|acts| - 1], from, username))
    ensures TableTallies(After(encode, acts).failures, OfText(username), FailTimes(encode, acts, from, username))
  {
    hide After, Authorize, RecordFailure, FailureSlot, Tallies, OneSlotEach;
    var failures, a := After(encode, acts[..|acts| - 1]).failures, acts[|acts| - 1];
    var times := FailTimes(encode, acts[..|acts| - 1], from, username);
    assert times + [] == times;
    LastFailures(encode, acts);
    if a.Authorizing? && Outcome(encode, acts, |acts| - 1) == Failure(InvalidCredentials) {
      if a.username == username {
        OneMoreTallied(failures, OfText(username), times, a.now);
      } else {
        OthersTallied(failures, OfText(a.username), OfText(username), times, a.now);
      }
    }
  }

  lemma OthersTallied(failures: seq<Option<Attempts>>, other: Digest, username: Digest, times: seq<nat>, now: nat)
    requires failures != [] && other != username && TableTallies(failures, username, times)
    ensures TableTallies(RecordFailure(failures, other, now), username, times)
  {
    hide FailureSlot, Tallies;
  }

  lemma {:induction false} FailuresAreTallied(encode: Digest -> string, acts: seq<Act>, from: nat, username: string)
    requires StartsClean(encode, acts, from, username)
    ensures TableTallies(After(encode, acts).failures, OfText(username), FailTimes(encode, acts, from, username))
  {
    hide After, Authorize;
    if from < |acts| {
      var front := acts[..|acts| - 1];
      assert from > 0 ==> front[..from - 1] == acts[..from - 1] && front[from - 1] == acts[from - 1];
      FailuresAreTallied(encode, front, from, username);
      TableIsTraced(encode, front, 0);
      TallyStep(encode, acts, from, username);
    } else if acts != [] {
      LastFailures(encode, acts);
    } else {
      NobodyTallied(encode, username);
    }
  }

  lemma NobodyTallied(encode: Digest -> string, username: string)
    ensures TableTallies(After(encode, []).failures, OfText(username), FailTimes(encode, [], 0, username))
  {
  }

  /** A username is locked out only after five failures of its own, each within five minutes of the one before and the
      last within five minutes of now, none of them before its last right password or the last restart. */
  lemma LockedMeansFive(encode: Digest -> string, acts: seq<Act>, from: nat, b: Books, username: string,
                        password: string, pkce: string, method_: string, redirect: string, now: nat,
                        secret: Option<string>)
    requires StartsClean(encode, acts, from, username)
    requires Authorize(After(encode, acts), b, username, password, pkce, method_, redirect, now, secret).1
             == Failure(RateLimited)
    ensures var times := FailTimes(encode, acts, from, username);
            |times| >= 5 && Close(times[|times| - 5..]) && now < Lapse(times[|times| - 1])
  {
    hide After, Authorize, FailTimes, Close;
    FailuresAreTallied(encode, acts, from, username);
    LimitedMeansHeld(After(encode, acts), b, username, password, pkce, method_, redirect, now, secret);
    var failures, times := After(encode, acts).failures, FailTimes(encode, acts, from, username);
    var j :| 0 <= j < |failures| && LockedBy(failures[j], OfText(username), now);
    assert Holds(failures[j], OfText(username)) && Tallies(failures[j], times);
    LastFive(times, failures[j].value.count);
  }

  lemma LastFive(times: seq<nat>, count: nat)
    requires 5 <= count <= |times| && Close(times[|times| - count..])
    ensures Close(times[|times| - 5..])
  {
    var tail, five := times[|times| - count..], times[|times| - 5..];
    forall k | 0 < k < |five| ensures five[k] < SaturatingAdd(five[k - 1], LOCKOUT) {
      var place := count - 5 + k;
      assert five[k] == tail[place] && five[k - 1] == tail[place - 1];
    }
  }

  predicate LockedBy(slot: Option<Attempts>, username: Digest, now: nat) {
    Holds(slot, username) && slot.value.count >= 5 && now < slot.value.until
  }

  lemma LimitedMeansHeld(d: Desk, b: Books, username: string, password: string, pkce: string, method_: string,
                         redirect: string, now: nat, secret: Option<string>)
    requires d.Sized()
    requires Authorize(d, b, username, password, pkce, method_, redirect, now, secret).1 == Failure(RateLimited)
    ensures exists j :: 0 <= j < |d.failures| && LockedBy(d.failures[j], OfText(username), now)
  {
    var j :| 0 <= j < |d.failures| && d.failures[j].Some? && d.failures[j].value.username == OfText(username)
             && d.failures[j].value.count >= 5 && now < d.failures[j].value.until;
    assert LockedBy(d.failures[j], OfText(username), now);
  }
}
