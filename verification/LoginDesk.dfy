/** The login desk in place: three fixed slot arrays, searched, overwritten and cleared. */
module LoginDesk {
  import opened Wrappers
  import opened Types
  import opened Postings
  import opened Auth

  /** The first slot satisfying `p`. */
  method FindSlot<T>(slots: array<Option<T>>, p: Option<T> -> bool) returns (r: Option<nat>)
    ensures r == Position(slots[..], p)
  {
    for i := 0 to slots.Length
      invariant forall j :: 0 <= j < i ==> !p(slots[j])
    {
      if p(slots[i]) {
        FirstIsPosition(slots[..], p, i);
        return Some(i);
      }
    }
    return None;
  }

  lemma FirstIsPosition<T>(s: seq<Option<T>>, p: Option<T> -> bool, i: nat)
    requires i < |s| && p(s[i]) && forall j :: 0 <= j < i ==> !p(s[j])
    ensures Position(s, p) == Some(i)
  {
  }

  /** Empties every slot whose content is to be dropped. */
  method ClearSlots<T>(slots: array<Option<T>>, drop: T -> bool)
    modifies slots
    ensures slots[..] == Cleared(old(slots[..]), drop)
  {
    for i := 0 to slots.Length
      invariant forall j :: 0 <= j < i ==> slots[j] == Cleared(old(slots[..]), drop)[j]
      invariant forall j :: i <= j < slots.Length ==> slots[j] == old(slots[..])[j]
    {
      if slots[i].Some? && drop(slots[i].value) {
        slots[i] := None;
      }
    }
  }

  class SlotDesk {
    const sessions: array<Option<Session>>
    const codes: array<Option<Code>>
    const failures: array<Option<Attempts>>

    ghost predicate Valid() {
      sessions.Length == MAX_SESSIONS && codes.Length == MAX_CODES && failures.Length == MAX_FAILURES
    }

    ghost function Value(): Desk
      reads sessions, codes, failures
    {
      Desk(sessions[..], codes[..], failures[..])
    }

    constructor ()
      ensures Valid() && Value() == EMPTY_DESK
      ensures fresh(sessions) && fresh(codes) && fresh(failures)
    {
      sessions := new Option<Session>[MAX_SESSIONS](_ => None);
      codes := new Option<Code>[MAX_CODES](_ => None);
      failures := new Option<Attempts>[MAX_FAILURES](_ => None);
    }

    /** The failure slot that expires first. */
    method Soonest() returns (index: nat)
      requires Valid()
      ensures index == SoonestSlot(failures[..])
    {
      index := 0;
      for i := 1 to failures.Length
        invariant index < i
        invariant forall j :: 0 <= j < i ==>
          Until(failures[index]) < Until(failures[j])
          || (Until(failures[index]) == Until(failures[j]) && index <= j)
      {
        if Until(failures[i]) < Until(failures[index]) {
          index := i;
        }
      }
      var other := SoonestSlot(failures[..]);
      assert Until(failures[..][index]) <= Until(failures[..][other]) <= Until(failures[..][index]);
    }

    method Fail(username: Digest, now: nat)
      requires Valid()
      modifies failures
      ensures failures[..] == RecordFailure(old(failures[..]), username, now)
    {
      var matching := FindSlot(failures, (f: Option<Attempts>) => f.Some? && f.value.username == username);
      var index;
      if matching.Some? {
        index := matching.value;
      } else {
        index := Soonest();
      }
      var f, count := failures[index], 1;
      if f.Some? && f.value.username == username && now < f.value.until {
        count := Min(f.value.count + 1, 5);
      }
      failures[index] := Some(Attempts(username, count, SaturatingAdd(now, LOCKOUT)));
    }

    method Locked(username: Digest, now: nat) returns (locked: bool)
      requires Valid()
      ensures locked == LockedOut(failures[..], username, now)
    {
      for i := 0 to failures.Length
        invariant !LockedOut(failures[..i], username, now)
      {
        var f := failures[i];
        assert failures[..i + 1] == failures[..i] + [f];
        if f.Some? && f.value.username == username && f.value.count >= 5 && now < f.value.until {
          assert failures[..][i] == f;
          return true;
        }
      }
      assert failures[..failures.Length] == failures[..];
      return false;
    }

    /** Grants a code against a password, or counts the failure. */
    method Grant(b: Books, username: string, password: string, pkce: string, method_: string, redirect: string,
                 now: nat, secret: Option<string>) returns (r: Result<string, Error>)
      requires Valid()
      modifies codes, failures
      ensures (Value(), r) == Authorize(old(Value()), b, username, password, pkce, method_, redirect, now, secret)
    {
      if method_ != "S256" || |pkce| != 43 || !(forall c :: c in pkce ==> UrlSafe(c)) || |redirect| == 0
        || |redirect| > 256 {
        return Failure(InvalidInput);
      }
      var locked := Locked(OfText(username), now);
      if locked {
        return Failure(RateLimited);
      }
      var user := UserNamed(b, username);
      if user.None? || !b.members[user.value].password.value.Verify(password) {
        Fail(OfText(username), now);
        return Failure(InvalidCredentials);
      }
      var member := b.members[user.value];
      if member.disabled {
        return Failure(Disabled);
      }
      ClearSlots(failures, (f: Attempts) => f.username == OfText(username));
      var slot := FindSlot(codes, (c: Option<Code>) => c.None? || now >= c.value.expires);
      if slot.None? {
        return Failure(Capacity);
      }
      if secret.None? {
        return Failure(Unavailable);
      }
      codes[slot.value] := Some(Code(OfText(secret.value), OfText(pkce), OfText(redirect), member.id,
                                     SaturatingAdd(now, CODE_TTL)));
      return Success(secret.value);
    }

    /** Takes the code off the desk, then checks it and opens a session. */
    method Exchange(encode: Digest -> string, b: Books, code: string, verifier: string, redirect: string, now: nat,
                    secret: Option<string>) returns (r: Result<(string, MemberId), Error>)
      requires Valid()
      modifies sessions, codes
      ensures (Value(), r) == Redeem(encode, old(Value()), b, code, verifier, redirect, now, secret)
    {
      var index := FindSlot(codes, (c: Option<Code>) => c.Some? && c.value.hash == OfText(code));
      if index.None? {
        return Failure(Unauthorized);
      }
      var c := codes[index.value].value;
      codes[index.value] := None;
      var computed := Challenge(encode, verifier);
      if computed.Failure? || now >= c.expires || c.challenge != OfText(computed.value)
        || c.redirect != OfText(redirect) {
        return Failure(Unauthorized);
      }
      var member := FindMember(b, c.member);
      if member.Failure? {
        return Failure(member.error);
      }
      if member.value.disabled || member.value.password.None? {
        return Failure(Unauthorized);
      }
      var slot := FindSlot(sessions, (s: Option<Session>) => s.None? || now >= s.value.expires);
      if slot.None? {
        return Failure(Capacity);
      }
      if secret.None? {
        return Failure(Unavailable);
      }
      sessions[slot.value] := Some(Session(OfText(secret.value), c.member, SaturatingAdd(now, SESSION_TTL)));
      return Success((secret.value, c.member));
    }

    method Find(b: Books, token: string, now: nat) returns (r: Result<MemberId, Error>)
      requires Valid()
      ensures r == Lookup(Value(), b, token, now)
    {
      var slot := FindSlot(sessions,
                           (s: Option<Session>) => s.Some? && s.value.hash == OfText(token) && now < s.value.expires);
      if slot.None? {
        return Failure(Unauthorized);
      }
      var member := FindMember(b, sessions[slot.value].value.member);
      if member.Failure? {
        return Failure(member.error);
      }
      if member.value.disabled || member.value.password.None? {
        return Failure(Unauthorized);
      }
      return Success(member.value.id);
    }

    method Forget(token: string)
      requires Valid()
      modifies sessions
      ensures Value() == Revoke(old(Value()), token)
    {
      ClearSlots(sessions, (s: Session) => s.hash == OfText(token));
    }

    method ForgetMember(member: MemberId)
      requires Valid()
      modifies sessions, codes
      ensures Value() == RevokeMember(old(Value()), member)
    {
      ClearSlots(sessions, (s: Session) => s.member == member);
      ClearSlots(codes, (c: Code) => c.member == member);
    }
  }
}
