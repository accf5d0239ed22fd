/** Login by code exchange: salted passwords, S256 challenges, and expiring sessions held only in RAM. */
module Auth {
  import opened Wrappers
  import opened Types
  import opened Postings

  const SESSION_TTL: int := 8 * 60 * 60
  const CODE_TTL: int := 60
  const LOCKOUT: int := 5 * 60
  const MAX_SESSIONS: int := 64
  const MAX_CODES: int := 16
  const MAX_FAILURES: int := 64

  datatype Session = Session(hash: Digest, member: MemberId, expires: nat)

  datatype Code = Code(hash: Digest, challenge: Digest, redirect: Digest, member: MemberId, expires: nat)

  datatype Attempts = Attempts(username: Digest, count: nat, until: nat)

  /** The three fixed slot tables. */
  datatype Desk = Desk(sessions: seq<Option<Session>>, codes: seq<Option<Code>>, failures: seq<Option<Attempts>>) {
    ghost predicate Sized() {
      |sessions| == MAX_SESSIONS && |codes| == MAX_CODES && |failures| == MAX_FAILURES
    }
  }

  function EmptySlots<T>(n: nat): seq<Option<T>> {
    seq(n, _ => None)
  }

  const EMPTY_DESK := Desk(EmptySlots(MAX_SESSIONS), EmptySlots(MAX_CODES), EmptySlots(MAX_FAILURES))

  /** `u64::saturating_add`. */
  function SaturatingAdd(a: nat, b: nat): nat {
    Min(a + b, U64_MAX)
  }

  predicate UrlSafe(c: char) {
    'a' <= c <= 'z' || 'A' <= c <= 'Z' || '0' <= c <= '9' || c == '-' || c == '_'
  }

  predicate Unreserved(c: char) {
    UrlSafe(c) || c == '.' || c == '~'
  }

  /** The S256 challenge of a verifier; `encode` is the URL-safe text form of a digest. */
  function Challenge(encode: Digest -> string, verifier: string): Result<string, Error> {
    if 43 <= |verifier| <= 128 && (forall c :: c in verifier ==> Unreserved(c))
    then Success(encode(OfText(verifier)))
    else Failure(InvalidInput)
  }

  /** The slot is free for another session. */
  predicate Lapsed(s: Option<Session>, now: nat) {
    s.Some? ==> s.value.expires <= now
  }

  function FreeSession(sessions: seq<Option<Session>>, now: nat): (r: Option<nat>)
    ensures r.Some? ==> r.value < |sessions| && Lapsed(sessions[r.value], now)
    ensures r.None? ==> forall i :: 0 <= i < |sessions| ==> !Lapsed(sessions[i], now)
  {
    Position(sessions, (s: Option<Session>) => s.None? || now >= s.value.expires)
  }

  /** The slot is free for another code. */
  predicate Stale(c: Option<Code>, now: nat) {
    c.Some? ==> c.value.expires <= now
  }

  function FreeCode(codes: seq<Option<Code>>, now: nat): (r: Option<nat>)
    ensures r.Some? ==> r.value < |codes| && Stale(codes[r.value], now)
    ensures r.None? ==> forall i :: 0 <= i < |codes| ==> !Stale(codes[i], now)
  {
    Position(codes, (c: Option<Code>) => c.None? || now >= c.value.expires)
  }

  function CodeAt(codes: seq<Option<Code>>, hash: Digest): (r: Option<nat>)
    ensures r.None? ==> forall i :: 0 <= i < |codes| ==> !(codes[i].Some? && codes[i].value.hash == hash)
    ensures r.Some? ==> r.value < |codes| && codes[r.value].Some? && codes[r.value].value.hash == hash
  {
    Position(codes, (c: Option<Code>) => c.Some? && c.value.hash == hash)
  }

  function LiveSession(sessions: seq<Option<Session>>, hash: Digest, now: nat): (r: Option<nat>)
    ensures r.Some? ==> r.value < |sessions| && sessions[r.value].Some? && sessions[r.value].value.hash == hash
                        && now < sessions[r.value].value.expires
    ensures r.None? ==> forall i :: 0 <= i < |sessions| && sessions[i].Some? && sessions[i].value.hash == hash ==>
                          sessions[i].value.expires <= now
  {
    Position(sessions, (s: Option<Session>) => s.Some? && s.value.hash == hash && now < s.value.expires)
  }

  predicate LockedOut(failures: seq<Option<Attempts>>, username: Digest, now: nat) {
    exists i :: 0 <= i < |failures| && failures[i].Some? && failures[i].value.username == username
                && failures[i].value.count >= 5 && now < failures[i].value.until
  }

  function UserNamed(b: Books, username: string): (r: Option<nat>)
    ensures r.Some? ==> r.value < |b.members| && b.members[r.value].password.Some?
                        && b.members[r.value].username == username
  {
    Position(b.members, (m: Member) => m.username == username && m.password.Some?)
  }

  function Cleared<T>(slots: seq<Option<T>>, drop: T -> bool): (r: seq<Option<T>>)
    ensures |r| == |slots|
  {
    seq(|slots|, i requires 0 <= i < |slots| => if slots[i].Some? && drop(slots[i].value) then None else slots[i])
  }

  function Until(slot: Option<Attempts>): nat {
    if slot.Some? then slot.value.until else 0
  }

  /** The slot that expires first, an empty one counting as 0, the earliest on a tie. */
  function SoonestSlot(failures: seq<Option<Attempts>>): (i: nat)
    requires failures != []
    ensures i < |failures|
    ensures forall j :: 0 <= j < |failures| ==>
              Until(failures[i]) < Until(failures[j]) || (Until(failures[i]) == Until(failures[j]) && i <= j)
  {
    if |failures| == 1 then 0
    else
      var last := |failures| - 1;
      var i := SoonestSlot(failures[..last]);
      assert forall j :: 0 <= j < last ==> failures[..last][j] == failures[j];
      if Until(failures[last]) < Until(failures[i]) then last else i
  }

  function FailureSlot(failures: seq<Option<Attempts>>, username: Digest): (i: nat)
    requires failures != []
    ensures i < |failures|
  {
    match Position(failures, (f: Option<Attempts>) => f.Some? && f.value.username == username)
    case Some(i) => i
    case None => SoonestSlot(failures)
  }

  function RecordFailure(failures: seq<Option<Attempts>>, username: Digest, now: nat): seq<Option<Attempts>>
    requires failures != []
  {
    var i := FailureSlot(failures, username);
    var f := failures[i];
    var count :=
      if f.Some? && f.value.username == username && now < f.value.until then Min(f.value.count + 1, 5) else 1;
    failures[i := Some(Attempts(username, count, SaturatingAdd(now, LOCKOUT)))]
  }

  /** `authorize`; `secret` is the random source's answer, None when it failed. */
  function Authorize(d: Desk, b: Books, username: string, password: string, pkce: string, method_: string,
                     redirect: string, now: nat, secret: Option<string>): (r: (Desk, Result<string, Error>))
    requires d.Sized()
    ensures r.0.Sized()
  {
    if method_ != "S256" || |pkce| != 43 || !(forall c :: c in pkce ==> UrlSafe(c)) || |redirect| == 0
      || |redirect| > 256
    then (d, Failure(InvalidInput))
    else if LockedOut(d.failures, OfText(username), now) then (d, Failure(RateLimited))
    else
      var user := UserNamed(b, username);
      if user.None? || !b.members[user.value].password.value.Verify(password)
      then (d.(failures := RecordFailure(d.failures, OfText(username), now)), Failure(InvalidCredentials))
      else if b.members[user.value].disabled then (d, Failure(Disabled))
      else
        var forgiven := d.(failures := Cleared(d.failures, (f: Attempts) => f.username == OfText(username)));
        match FreeCode(d.codes, now)
        case None => (forgiven, Failure(Capacity))
        case Some(slot) =>
          match secret
          case None => (forgiven, Failure(Unavailable))
          case Some(s) =>
            (forgiven.(codes := d.codes[slot := Some(Code(OfText(s), OfText(pkce), OfText(redirect),
                                                         b.members[user.value].id, SaturatingAdd(now, CODE_TTL)))]),
             Success(s))
  }

  /** `redeem`: the code is consumed before anything about it is checked. */
  function Redeem(encode: Digest -> string, d: Desk, b: Books, code: string, verifier: string, redirect: string,
                  now: nat, secret: Option<string>): (r: (Desk, Result<(string, MemberId), Error>))
    requires d.Sized()
    ensures r.0.Sized()
  {
    match CodeAt(d.codes, OfText(code))
    case None => (d, Failure(Unauthorized))
    case Some(i) =>
      var c := d.codes[i].value;
      var consumed := d.(codes := d.codes[i := None]);
      match Challenge(encode, verifier)
      case Failure(_) => (consumed, Failure(Unauthorized))
      case Success(computed) =>
        if now >= c.expires || c.challenge != OfText(computed) || c.redirect != OfText(redirect)
        then (consumed, Failure(Unauthorized))
        else
          match FindMember(b, c.member)
          case Failure(error) => (consumed, Failure(error))
          case Success(m) =>
            if m.disabled || m.password.None? then (consumed, Failure(Unauthorized))
            else
              match FreeSession(d.sessions, now)
              case None => (consumed, Failure(Capacity))
              case Some(slot) =>
                match secret
                case None => (consumed, Failure(Unavailable))
                case Some(s) =>
                  var session := Session(OfText(s), c.member, SaturatingAdd(now, SESSION_TTL));
                  (consumed.(sessions := d.sessions[slot := Some(session)]),
                   Success((s, c.member)))
  }

  function Lookup(d: Desk, b: Books, token: string, now: nat): Result<MemberId, Error> {
    match LiveSession(d.sessions, OfText(token), now)
    case None => Failure(Unauthorized)
    case Some(i) =>
      var m :- FindMember(b, d.sessions[i].value.member);
      :- Need(!m.disabled && m.password.Some?, Unauthorized);
      Success(m.id)
  }

  function Revoke(d: Desk, token: string): Desk {
    d.(sessions := Cleared(d.sessions, (s: Session) => s.hash == OfText(token)))
  }

  function RevokeMember(d: Desk, member: MemberId): Desk {
    d.(sessions := Cleared(d.sessions, (s: Session) => s.member == member),
       codes := Cleared(d.codes, (c: Code) => c.member == member))
  }

  // ---- Runs of the login desk ----

  datatype Act =
    | Authorizing(b: Books, username: string, password: string, pkce: string, method_: string, redirect: string,
                  now: nat, secret: Option<string>)
    | Redeeming(b: Books, code: string, verifier: string, redirect: string, now: nat, secret: Option<string>)
    | Revoking(token: string)
    | RevokingMember(member: MemberId)
    | Clearing
    | Idling

  /** The act ends everything the member holds at the desk. */
  predicate Ends(a: Act, member: MemberId) {
    a == RevokingMember(member) || a == Clearing
  }

  function After(encode: Digest -> string, acts: seq<Act>): (d: Desk)
    ensures d.Sized()
  {
    if acts == [] then EMPTY_DESK
    else
      var d := After(encode, acts[..|acts| - 1]);
      match acts[|acts| - 1]
      case Authorizing(b, username, password, pkce, m, redirect, now, secret) =>
        Authorize(d, b, username, password, pkce, m, redirect, now, secret).0
      case Redeeming(b, code, verifier, redirect, now, secret) =>
        Redeem(encode, d, b, code, verifier, redirect, now, secret).0
      case Revoking(token) => Revoke(d, token)
      case RevokingMember(member) => RevokeMember(d, member)
      case Clearing => EMPTY_DESK
      case Idling => d
  }

  /** Act `i` handed out `secret` as an authorisation code. */
  ghost predicate Granted(encode: Digest -> string, acts: seq<Act>, i: nat, secret: string)
    requires i < |acts|
  {
    && acts[i].Authorizing?
    && var a := acts[i];
       Authorize(After(encode, acts[..i]), a.b, a.username, a.password, a.pkce, a.method_, a.redirect, a.now,
                 a.secret).1
       == Success(secret)
  }

  /** Act `i` exchanged its code for `secret`, a session of `member`. */
  ghost predicate Opened(encode: Digest -> string, acts: seq<Act>, i: nat, secret: string, member: MemberId)
    requires i < |acts|
  {
    && acts[i].Redeeming?
    && var a := acts[i];
       Redeem(encode, After(encode, acts[..i]), a.b, a.code, a.verifier, a.redirect, a.now, a.secret).1
       == Success((secret, member))
  }

  /** Since act `i`, nothing redeemed this code or revoked this member. */
  ghost predicate Untouched(acts: seq<Act>, i: nat, code: string, member: MemberId) {
    forall k :: i < k < |acts| ==> !(acts[k].Redeeming? && acts[k].code == code) && !Ends(acts[k], member)
  }

  ghost predicate Unrevoked(acts: seq<Act>, i: nat, member: MemberId) {
    forall k :: i < k < |acts| ==> !Ends(acts[k], member)
  }

  ghost predicate NotLoggedOut(acts: seq<Act>, j: nat, token: string) {
    forall k :: j < k < |acts| ==> acts[k] != Revoking(token)
  }

  /** A code in a slot was granted by act `i` for a verified, enabled member, and is unspent. */
  ghost predicate CodeFrom(encode: Digest -> string, acts: seq<Act>, c: Code, i: nat) {
    && i < |acts| && acts[i].Authorizing? && acts[i].secret.Some?
    && Granted(encode, acts, i, acts[i].secret.value)
    && c == Code(OfText(acts[i].secret.value), OfText(acts[i].pkce), OfText(acts[i].redirect), c.member,
                 SaturatingAdd(acts[i].now, CODE_TTL))
    && Authenticated(acts[i], c.member)
    && Untouched(acts, i, acts[i].secret.value, c.member)
  }

  /** The act carried the right password of an enabled member. */
  ghost predicate Authenticated(a: Act, member: MemberId)
    requires a.Authorizing?
  {
    var u := UserNamed(a.b, a.username);
    && u.Some?
    && var m := a.b.members[u.value];
       m.id == member && !m.disabled && m.password.value.Verify(a.password)
  }

  /** A session in a slot was opened by act `j` from a code granted by act `i` within the minute, lasts eight hours,
      and has had its member unrevoked and itself not logged out since. */
  ghost predicate SessionFrom(encode: Digest -> string, acts: seq<Act>, s: Session, i: nat, j: nat) {
    && i < j < |acts| && acts[j].Redeeming? && acts[j].secret.Some?
    && Opened(encode, acts, j, acts[j].secret.value, s.member)
    && s.hash == OfText(acts[j].secret.value)
    && acts[i].Authorizing? && Granted(encode, acts, i, acts[j].code)
    && Authenticated(acts[i], s.member)
    && acts[i].pkce == encode(OfText(acts[j].verifier)) && acts[i].redirect == acts[j].redirect
    && acts[j].now < SaturatingAdd(acts[i].now, CODE_TTL) && s.expires == SaturatingAdd(acts[j].now, SESSION_TTL)
    && Unrevoked(acts, i, s.member) && NotLoggedOut(acts, j, acts[j].secret.value)
  }

  /** The random source never repeats itself. */
  ghost predicate FreshSecrets(acts: seq<Act>) {
    forall i, k :: 0 <= i < k < |acts| && acts[i].Authorizing? && acts[k].Authorizing? && acts[i].secret.Some? ==>
      acts[i].secret != acts[k].secret
  }

  ghost predicate HasCodeOrigin(encode: Digest -> string, acts: seq<Act>, c: Code) {
    exists i :: CodeFrom(encode, acts, c, i)
  }

  ghost predicate HasSessionOrigin(encode: Digest -> string, acts: seq<Act>, s: Session) {
    exists i, j :: SessionFrom(encode, acts, s, i, j)
  }

  ghost predicate DistinctCodes(codes: seq<Option<Code>>) {
    forall i, k :: 0 <= i < k < |codes| && codes[i].Some? && codes[k].Some? ==>
      codes[i].value.hash != codes[k].value.hash
  }

  ghost predicate DeskInv(encode: Digest -> string, d: Desk, acts: seq<Act>) {
    && d.Sized()
    && DistinctCodes(d.codes)
    && (forall k :: 0 <= k < |d.codes| && d.codes[k].Some? ==> HasCodeOrigin(encode, acts, d.codes[k].value))
    && (forall k :: 0 <= k < |d.sessions| && d.sessions[k].Some? ==>
          HasSessionOrigin(encode, acts, d.sessions[k].value))
  }

  lemma PrefixKept(acts: seq<Act>, a: Act, i: nat)
    requires i <= |acts|
    ensures (acts + [a])[..i] == acts[..i]
  {
  }

  /** A code nobody redeems or revokes stays accounted for. */
  lemma CodeCarries(encode: Digest -> string, acts: seq<Act>, a: Act, c: Code)
    requires HasCodeOrigin(encode, acts, c)
    requires !(a.Redeeming? && OfText(a.code) == c.hash) && !Ends(a, c.member)
    ensures HasCodeOrigin(encode, acts + [a], c)
  {
    var i: nat :| CodeFrom(encode, acts, c, i);
    PrefixKept(acts, a, i);
    assert CodeFrom(encode, acts + [a], c, i);
  }

  lemma SessionCarries(encode: Digest -> string, acts: seq<Act>, a: Act, s: Session)
    requires HasSessionOrigin(encode, acts, s) && !Ends(a, s.member) && !(a.Revoking? && OfText(a.token) == s.hash)
    ensures HasSessionOrigin(encode, acts + [a], s)
  {
    var i: nat, j: nat :| SessionFrom(encode, acts, s, i, j);
    PrefixKept(acts, a, i);
    PrefixKept(acts, a, j);
    assert SessionFrom(encode, acts + [a], s, i, j);
  }

  lemma AuthorizeStep(encode: Digest -> string, acts: seq<Act>, a: Act)
    requires DeskInv(encode, After(encode, acts), acts) && FreshSecrets(acts + [a]) && a.Authorizing?
    ensures DeskInv(encode, Authorize(After(encode, acts), a.b, a.username, a.password, a.pkce, a.method_, a.redirect,
                                      a.now, a.secret).0, acts + [a])
  {
    hide HasCodeOrigin, HasSessionOrigin, FreshSecrets, After;
    var d := After(encode, acts);
    var (d', r) := Authorize(d, a.b, a.username, a.password, a.pkce, a.method_, a.redirect, a.now, a.secret);
    forall k | 0 <= k < |d'.sessions| && d'.sessions[k].Some?
      ensures HasSessionOrigin(encode, acts + [a], d'.sessions[k].value) {
      SessionCarries(encode, acts, a, d.sessions[k].value);
    }
    if d'.codes == d.codes {
      forall k | 0 <= k < |d'.codes| && d'.codes[k].Some? ensures HasCodeOrigin(encode, acts + [a], d'.codes[k].value) {
        CodeCarries(encode, acts, a, d.codes[k].value);
      }
    } else {
      GrantStep(encode, acts, a);
    }
  }

  /** If the codes change at all, exactly one free slot now holds the granted secret's code. */
  lemma AuthorizeGrants(d: Desk, b: Books, username: string, password: string, pkce: string, method_: string,
                        redirect: string, now: nat, secret: Option<string>) returns (slot: nat, c: Code)
    requires d.Sized() && Authorize(d, b, username, password, pkce, method_, redirect, now, secret).0.codes != d.codes
    ensures slot < |d.codes| && secret.Some?
    ensures var (d', r) := Authorize(d, b, username, password, pkce, method_, redirect, now, secret);
            d'.codes == d.codes[slot := Some(c)] && r == Success(secret.value)
    ensures c.hash == OfText(secret.value) && c.challenge == OfText(pkce) && c.redirect == OfText(redirect)
            && c.expires == SaturatingAdd(now, CODE_TTL)
    ensures var u := UserNamed(b, username);
            && u.Some?
            && var m := b.members[u.value];
               m.id == c.member && !m.disabled && m.password.value.Verify(password)
  {
    slot := FreeCode(d.codes, now).value;
    var u := UserNamed(b, username).value;
    c := Code(OfText(secret.value), OfText(pkce), OfText(redirect), b.members[u].id, SaturatingAdd(now, CODE_TTL));
  }

  /** A granted secret was never granted before, so no older code carries its hash. */
  lemma GrantIsNew(encode: Digest -> string, acts: seq<Act>, a: Act, c: Code)
    requires HasCodeOrigin(encode, acts, c) && FreshSecrets(acts + [a]) && a.Authorizing? && a.secret.Some?
    ensures c.hash != OfText(a.secret.value)
  {
    hide Granted, Authenticated, Untouched;
    var i: nat :| CodeFrom(encode, acts, c, i);
    assert (acts + [a])[i] == acts[i] && (acts + [a])[|acts|] == a;
  }

  lemma GrantOriginates(encode: Digest -> string, acts: seq<Act>, a: Act, c: Code)
    requires a.Authorizing? && a.secret.Some? && Authenticated(a, c.member)
    requires Authorize(After(encode, acts), a.b, a.username, a.password, a.pkce, a.method_, a.redirect, a.now,
                       a.secret).1
             == Success(a.secret.value)
    requires c == Code(OfText(a.secret.value), OfText(a.pkce), OfText(a.redirect), c.member,
                       SaturatingAdd(a.now, CODE_TTL))
    ensures HasCodeOrigin(encode, acts + [a], c)
  {
    hide Authorize, After, Authenticated;
    PrefixKept(acts, a, |acts|);
    assert acts[..|acts|] == acts;
    assert Granted(encode, acts + [a], |acts|, a.secret.value);
    assert CodeFrom(encode, acts + [a], c, |acts|);
  }

  /** Granting a code puts exactly one new, unique hash on the desk. */
  lemma GrantStep(encode: Digest -> string, acts: seq<Act>, a: Act)
    requires DeskInv(encode, After(encode, acts), acts) && FreshSecrets(acts + [a]) && a.Authorizing?
    requires var d := After(encode, acts);
             Authorize(d, a.b, a.username, a.password, a.pkce, a.method_, a.redirect, a.now,
                       a.secret).0.codes != d.codes
    ensures var codes := Authorize(After(encode, acts), a.b, a.username, a.password, a.pkce, a.method_, a.redirect,
                                   a.now, a.secret).0.codes;
            DistinctCodes(codes)
            && forall k :: 0 <= k < |codes| && codes[k].Some? ==> HasCodeOrigin(encode, acts + [a], codes[k].value)
  {
    hide Authorize, After, HasCodeOrigin, HasSessionOrigin, FreshSecrets;
    var d := After(encode, acts);
    var slot, c := AuthorizeGrants(d, a.b, a.username, a.password, a.pkce, a.method_, a.redirect, a.now, a.secret);
    forall k | 0 <= k < |d.codes| && d.codes[k].Some? && k != slot
      ensures HasCodeOrigin(encode, acts + [a], d.codes[k].value) && d.codes[k].value.hash != c.hash
    {
      CodeCarries(encode, acts, a, d.codes[k].value);
      GrantIsNew(encode, acts, a, d.codes[k].value);
    }
    GrantOriginates(encode, acts, a, c);
  }

  /** Whatever its outcome, a redemption takes exactly the matching code off the desk. */
  lemma RedeemConsumes(encode: Digest -> string, d: Desk, b: Books, code: string, verifier: string, redirect: string,
                       now: nat, secret: Option<string>)
    requires d.Sized()
    ensures Redeem(encode, d, b, code, verifier, redirect, now, secret).0.codes ==
            match CodeAt(d.codes, OfText(code))
            case None => d.codes
            case Some(i) => d.codes[i := None]
    ensures CodeAt(d.codes, OfText(code)).None? ==>
              Redeem(encode, d, b, code, verifier, redirect, now, secret) == (d, Failure(Unauthorized))
  {
  }

  lemma RedeemCodesStep(encode: Digest -> string, acts: seq<Act>, a: Act)
    requires DeskInv(encode, After(encode, acts), acts) && a.Redeeming?
    ensures var codes := Redeem(encode, After(encode, acts), a.b, a.code, a.verifier, a.redirect, a.now,
                                a.secret).0.codes;
            DistinctCodes(codes)
            && forall k :: 0 <= k < |codes| && codes[k].Some? ==> HasCodeOrigin(encode, acts + [a], codes[k].value)
  {
    var d := After(encode, acts);
    RedeemConsumes(encode, d, a.b, a.code, a.verifier, a.redirect, a.now, a.secret);
    hide Redeem, HasCodeOrigin, HasSessionOrigin, After;
    var codes := Redeem(encode, d, a.b, a.code, a.verifier, a.redirect, a.now, a.secret).0.codes;
    forall k | 0 <= k < |codes| && codes[k].Some? ensures HasCodeOrigin(encode, acts + [a], codes[k].value) {
      OthersDiffer(d.codes, OfText(a.code), k);
      CodeCarries(encode, acts, a, d.codes[k].value);
    }
  }

  /** With no hash repeated, only the slot a search stops at carries the hash it searched for. */
  lemma OthersDiffer(codes: seq<Option<Code>>, hash: Digest, k: nat)
    requires DistinctCodes(codes) && k < |codes| && codes[k].Some? && CodeAt(codes, hash) != Some(k)
    ensures codes[k].value.hash != hash
  {
    if CodeAt(codes, hash).Some? {
      var i := CodeAt(codes, hash).value;
      assert codes[i].value.hash == hash && (i < k || k < i);
    }
  }

  /** The one session a redemption can open comes from the code it consumed. */
  lemma RedeemOpens(encode: Digest -> string, d: Desk, b: Books, code: string, verifier: string, redirect: string,
                    now: nat, secret: Option<string>, k: nat)
    requires d.Sized() && k < MAX_SESSIONS
    requires Redeem(encode, d, b, code, verifier, redirect, now, secret).0.sessions[k] != d.sessions[k]
    ensures secret.Some? && CodeAt(d.codes, OfText(code)).Some?
    ensures var (d', r) := Redeem(encode, d, b, code, verifier, redirect, now, secret);
            var c := d.codes[CodeAt(d.codes, OfText(code)).value].value;
            && d'.sessions[k] == Some(Session(OfText(secret.value), c.member, SaturatingAdd(now, SESSION_TTL)))
            && r == Success((secret.value, c.member))
            && c.challenge == OfText(encode(OfText(verifier))) && c.redirect == OfText(redirect) && now < c.expires
  {
  }

  lemma RedeemSessionsStep(encode: Digest -> string, acts: seq<Act>, a: Act)
    requires DeskInv(encode, After(encode, acts), acts) && a.Redeeming?
    ensures var sessions :=
              Redeem(encode, After(encode, acts), a.b, a.code, a.verifier, a.redirect, a.now, a.secret).0.sessions;
            forall k :: 0 <= k < |sessions| && sessions[k].Some? ==>
              HasSessionOrigin(encode, acts + [a], sessions[k].value)
  {
    var d, after := After(encode, acts), acts + [a];
    var (d', r) := Redeem(encode, d, a.b, a.code, a.verifier, a.redirect, a.now, a.secret);
    hide Redeem, After, HasSessionOrigin;
    forall k | 0 <= k < |d'.sessions| && d'.sessions[k].Some?
      ensures HasSessionOrigin(encode, after, d'.sessions[k].value) {
      if d'.sessions[k] == d.sessions[k] {
        SessionCarries(encode, acts, a, d.sessions[k].value);
      } else {
        RedeemOpens(encode, d, a.b, a.code, a.verifier, a.redirect, a.now, a.secret, k);
        SessionOriginates(encode, acts, a, d.codes[CodeAt(d.codes, OfText(a.code)).value].value, d'.sessions[k].value);
      }
    }
  }

  lemma SessionOriginates(encode: Digest -> string, acts: seq<Act>, a: Act, c: Code, s: Session)
    requires HasCodeOrigin(encode, acts, c) && a.Redeeming? && a.secret.Some? && c.hash == OfText(a.code)
    requires Redeem(encode, After(encode, acts), a.b, a.code, a.verifier, a.redirect, a.now, a.secret).1
             == Success((a.secret.value, c.member))
    requires c.challenge == OfText(encode(OfText(a.verifier))) && c.redirect == OfText(a.redirect)
    requires a.now < c.expires && s == Session(OfText(a.secret.value), c.member, SaturatingAdd(a.now, SESSION_TTL))
    ensures HasSessionOrigin(encode, acts + [a], s)
  {
    hide Redeem, After;
    var i: nat :| CodeFrom(encode, acts, c, i);
    var after := acts + [a];
    PrefixKept(acts, a, i);
    PrefixKept(acts, a, |acts|);
    assert acts[..|acts|] == acts;
    assert Opened(encode, after, |acts|, a.secret.value, c.member);
    assert SessionFrom(encode, after, s, i, |acts|);
  }

  lemma RevokeStep(encode: Digest -> string, acts: seq<Act>, a: Act)
    requires DeskInv(encode, After(encode, acts), acts) && !a.Authorizing? && !a.Redeeming?
    ensures DeskInv(encode, After(encode, acts + [a]), acts + [a])
  {
    hide HasCodeOrigin, HasSessionOrigin, Authorize, Redeem;
    var d := After(encode, acts);
    PrefixKept(acts, a, |acts|);
    assert acts[..|acts|] == acts;
    var d' := After(encode, acts + [a]);
    if a.Clearing? {
      return;
    }
    assert d' == if a.Revoking? then Revoke(d, a.token) else if a.Idling? then d else RevokeMember(d, a.member);
    forall k | 0 <= k < |d'.codes| && d'.codes[k].Some? ensures HasCodeOrigin(encode, acts + [a], d'.codes[k].value) {
      assert d'.codes[k] == d.codes[k];
      CodeCarries(encode, acts, a, d.codes[k].value);
    }
    forall k | 0 <= k < |d'.sessions| && d'.sessions[k].Some?
      ensures HasSessionOrigin(encode, acts + [a], d'.sessions[k].value) {
      assert d'.sessions[k] == d.sessions[k];
      SessionCarries(encode, acts, a, d.sessions[k].value);
    }
  }

  lemma {:induction false} RunsKeepDesk(encode: Digest -> string, acts: seq<Act>)
    requires FreshSecrets(acts)
    ensures DeskInv(encode, After(encode, acts), acts)
  {
    hide Authorize, Redeem;
    if acts != [] {
      var front, a := acts[..|acts| - 1], acts[|acts| - 1];
      RunsKeepDesk(encode, front);
      assert acts == front + [a];
      if a.Authorizing? {
        AuthorizeStep(encode, front, a);
      } else if a.Redeeming? {
        RedeemCodesStep(encode, front, a);
        RedeemSessionsStep(encode, front, a);
      } else {
        RevokeStep(encode, front, a);
      }
    }
  }

  // ---- Consequences ----

  /** A token is accepted only if its member proved the right password, then within the minute redeemed the resulting
      code for this very token with the verifier its challenge came from, at most eight hours ago, nobody logged that
      token out, nothing revoked the member or cleared the desk since that proof, and the member is still enabled. */
  lemma AcceptedTokensAreEarned(encode: Digest -> string, acts: seq<Act>, b: Books, token: string, now: nat)
    returns (i: nat, j: nat)
    requires FreshSecrets(acts) && Lookup(After(encode, acts), b, token, now).Success?
    ensures i < j < |acts| && acts[i].Authorizing? && acts[j].Redeeming?
    ensures var member := Lookup(After(encode, acts), b, token, now).value;
            && Authenticated(acts[i], member)
            && Granted(encode, acts, i, acts[j].code) && Opened(encode, acts, j, token, member)
            && acts[i].pkce == encode(OfText(acts[j].verifier)) && acts[i].redirect == acts[j].redirect
            && acts[j].now < SaturatingAdd(acts[i].now, 60) && now < SaturatingAdd(acts[j].now, 28_800)
            && Unrevoked(acts, i, member) && NotLoggedOut(acts, j, token)
            && exists m :: m in b.members && m.id == member && !m.disabled && m.password.Some?
  {
    RunsKeepDesk(encode, acts);
    hide After, HasCodeOrigin;
    var s := LookedUp(After(encode, acts), b, token, now);
    i, j := SessionEarned(encode, acts, s);
  }

  /** The session behind an accepted token. */
  lemma LookedUp(d: Desk, b: Books, token: string, now: nat) returns (s: Session)
    requires Lookup(d, b, token, now).Success?
    ensures Some(s) in d.sessions && s.hash == OfText(token) && s.member == Lookup(d, b, token, now).value
    ensures now < s.expires
    ensures exists m :: m in b.members && m.id == s.member && !m.disabled && m.password.Some?
  {
    s := d.sessions[LiveSession(d.sessions, OfText(token), now).value].value;
  }

  lemma SessionEarned(encode: Digest -> string, acts: seq<Act>, s: Session) returns (i: nat, j: nat)
    requires HasSessionOrigin(encode, acts, s)
    ensures i < j < |acts| && acts[i].Authorizing? && acts[j].Redeeming? && acts[j].secret.Some?
    ensures s.hash == OfText(acts[j].secret.value) && Authenticated(acts[i], s.member)
    ensures Granted(encode, acts, i, acts[j].code) && Opened(encode, acts, j, acts[j].secret.value, s.member)
    ensures acts[i].pkce == encode(OfText(acts[j].verifier)) && acts[i].redirect == acts[j].redirect
    ensures acts[j].now < SaturatingAdd(acts[i].now, CODE_TTL) && s.expires == SaturatingAdd(acts[j].now, SESSION_TTL)
    ensures Unrevoked(acts, i, s.member) && NotLoggedOut(acts, j, acts[j].secret.value)
  {
    hide Granted, Opened, Authenticated, Unrevoked, NotLoggedOut;
    i, j :| SessionFrom(encode, acts, s, i, j);
  }

  /** A granted code answers at most one redemption, however it went: every later one is refused. */
  lemma CodesAreSpentOnce(encode: Digest -> string, acts: seq<Act>, g: nat, i: nat, j: nat, code: string)
    requires FreshSecrets(acts) && g < i < j < |acts|
    requires Granted(encode, acts, g, code)
    requires acts[i].Redeeming? && acts[i].code == code && acts[j].Redeeming? && acts[j].code == code
    ensures var a := acts[j];
            Redeem(encode, After(encode, acts[..j]), a.b, a.code, a.verifier, a.redirect, a.now, a.secret)
            == (After(encode, acts[..j]), Failure(Unauthorized))
  {
    var before := acts[..j];
    RunsKeepDesk(encode, before);
    var d := After(encode, before);
    forall k | 0 <= k < |d.codes| && d.codes[k].Some? ensures d.codes[k].value.hash != OfText(code) {
      SpentCodesAreGone(encode, acts, g, i, j, code, d.codes[k].value);
    }
    hide After;
    RedeemConsumes(encode, d, acts[j].b, code, acts[j].verifier, acts[j].redirect, acts[j].now, acts[j].secret);
  }

  lemma SpentCodesAreGone(encode: Digest -> string, acts: seq<Act>, g: nat, i: nat, j: nat, code: string, c: Code)
    requires FreshSecrets(acts) && g < i < j < |acts|
    requires Granted(encode, acts, g, code) && acts[i].Redeeming? && acts[i].code == code
    requires HasCodeOrigin(encode, acts[..j], c)
    ensures c.hash != OfText(code)
  {
    GrantedIsItsSecret(encode, acts, g, code);
    var before := acts[..j];
    var o: nat :| CodeFrom(encode, before, c, o);
    hide Granted;
    assert before[o] == acts[o] && before[i] == acts[i] && before[g] == acts[g];
  }

  lemma GrantedIsItsSecret(encode: Digest -> string, acts: seq<Act>, g: nat, code: string)
    requires g < |acts| && Granted(encode, acts, g, code)
    ensures acts[g].secret == Some(code)
  {
  }

  /** No two redemptions ever draw the same session token. */
  ghost predicate FreshTokens(acts: seq<Act>) {
    forall i, k :: 0 <= i < k < |acts| && acts[i].Redeeming? && acts[k].Redeeming? && acts[i].secret.Some? ==>
      acts[i].secret != acts[k].secret
  }

  lemma OpenedIsItsSecret(encode: Digest -> string, acts: seq<Act>, j: nat, token: string, member: MemberId)
    requires j < |acts| && Opened(encode, acts, j, token, member)
    ensures acts[j].Redeeming? && acts[j].secret == Some(token)
  {
  }

  /** Revoking a member, or clearing the desk, ends every session opened for that member before, for good. */
  lemma RevokedTokensStayDead(encode: Digest -> string, acts: seq<Act>, b: Books, token: string, now: nat,
                              member: MemberId, j: nat, k: nat)
    requires FreshSecrets(acts) && FreshTokens(acts) && j < k < |acts|
    requires Opened(encode, acts, j, token, member) && Ends(acts[k], member)
    ensures Lookup(After(encode, acts), b, token, now).Failure?
  {
    hide After, FreshSecrets, FreshTokens, Opened, Granted, Authenticated, Lookup, Unrevoked;
    if Lookup(After(encode, acts), b, token, now).Success? {
      var other := Lookup(After(encode, acts), b, token, now).value;
      var i', j' := AcceptedTokensAreEarned(encode, acts, b, token, now);
      OpenedAt(encode, acts, token, j, member, j', other);
      RevokedSince(acts, i', k, member);
      assert false;
    }
  }

  /** Logging a token out ends it for good. */
  lemma LoggedOutTokensStayDead(encode: Digest -> string, acts: seq<Act>, b: Books, token: string, now: nat,
                                member: MemberId, j: nat, k: nat)
    requires FreshSecrets(acts) && FreshTokens(acts) && j < k < |acts|
    requires Opened(encode, acts, j, token, member) && acts[k] == Revoking(token)
    ensures Lookup(After(encode, acts), b, token, now).Failure?
  {
    hide After, FreshSecrets, FreshTokens, Opened, Granted, Authenticated, Lookup, Unrevoked;
    if Lookup(After(encode, acts), b, token, now).Success? {
      var other := Lookup(After(encode, acts), b, token, now).value;
      var i', j' := AcceptedTokensAreEarned(encode, acts, b, token, now);
      OpenedAt(encode, acts, token, j, member, j', other);
      assert false;
    }
  }

  lemma RevokedSince(acts: seq<Act>, i: nat, k: nat, member: MemberId)
    requires i < k < |acts| && Ends(acts[k], member)
    ensures !Unrevoked(acts, i, member)
  {
  }

  /** A token was opened by one act, for one member. */
  lemma OpenedAt(encode: Digest -> string, acts: seq<Act>, token: string, j: nat, member: MemberId, j': nat,
                 other: MemberId)
    requires FreshTokens(acts) && j < |acts| && j' < |acts|
    requires Opened(encode, acts, j, token, member) && Opened(encode, acts, j', token, other)
    ensures j == j' && member == other
  {
    OpenedIsItsSecret(encode, acts, j, token, member);
    OpenedIsItsSecret(encode, acts, j', token, other);
    OpenedOnceFor(encode, acts, j, token, member, other);
  }

  lemma OpenedOnceFor(encode: Digest -> string, acts: seq<Act>, j: nat, token: string, member: MemberId,
                      other: MemberId)
    requires j < |acts| && Opened(encode, acts, j, token, member) && Opened(encode, acts, j, token, other)
    ensures member == other
  {
  }

  /** Revoking a member, or clearing the desk, voids every code granted to that member before: redeeming one is
      refused, for good. */
  lemma RevokedCodesStayDead(encode: Digest -> string, acts: seq<Act>, code: string, member: MemberId, g: nat, k: nat,
                             j: nat)
    requires FreshSecrets(acts) && g < k < j < |acts|
    requires Granted(encode, acts, g, code) && Authenticated(acts[g], member)
    requires Ends(acts[k], member) && acts[j].Redeeming? && acts[j].code == code
    ensures var a := acts[j];
            Redeem(encode, After(encode, acts[..j]), a.b, a.code, a.verifier, a.redirect, a.now, a.secret)
            == (After(encode, acts[..j]), Failure(Unauthorized))
  {
    var before := acts[..j];
    RunsKeepDesk(encode, before);
    var d := After(encode, before);
    forall i | 0 <= i < |d.codes| && d.codes[i].Some? ensures d.codes[i].value.hash != OfText(code) {
      RevokedCodesAreGone(encode, acts, g, k, j, code, member, d.codes[i].value);
    }
    hide After;
    RedeemConsumes(encode, d, acts[j].b, code, acts[j].verifier, acts[j].redirect, acts[j].now, acts[j].secret);
  }

  lemma RevokedCodesAreGone(encode: Digest -> string, acts: seq<Act>, g: nat, k: nat, j: nat, code: string,
                            member: MemberId, c: Code)
    requires FreshSecrets(acts) && g < k < j < |acts|
    requires Granted(encode, acts, g, code) && Authenticated(acts[g], member) && Ends(acts[k], member)
    requires HasCodeOrigin(encode, acts[..j], c)
    ensures c.hash != OfText(code)
  {
    GrantedIsItsSecret(encode, acts, g, code);
    OneMember(acts[g], member);
    var before := acts[..j];
    var o: nat :| CodeFrom(encode, before, c, o);
    hide Granted, After, Authenticated;
    assert before[o] == acts[o] && before[k] == acts[k] && before[g] == acts[g];
  }

  lemma OneMember(a: Act, member: MemberId)
    requires a.Authorizing? && Authenticated(a, member)
    ensures forall other :: Authenticated(a, other) ==> other == member
  {
  }

  // ---- What is accepted ----

  predicate WellFormed(pkce: string, method_: string, redirect: string) {
    method_ == "S256" && |pkce| == 43 && (forall c :: c in pkce ==> UrlSafe(c)) && 1 <= |redirect| <= 256
  }

  /** A login is answered with a code exactly if the request is well formed, the username not locked out, the password
      that of an enabled user, a code slot free and the random source working. */
  lemma LoginAnswers(d: Desk, b: Books, username: string, password: string, pkce: string, method_: string,
                     redirect: string, now: nat, secret: Option<string>)
    requires d.Sized()
    ensures var r := Authorize(d, b, username, password, pkce, method_, redirect, now, secret).1;
            && (r.Success? ==> secret == Some(r.value))
            && (r.Success? <==>
                  && WellFormed(pkce, method_, redirect) && !LockedOut(d.failures, OfText(username), now)
                  && UserNamed(b, username).Some?
                  && (var m := b.members[UserNamed(b, username).value];
                      m.password.value.Verify(password) && !m.disabled)
                  && (exists i :: 0 <= i < |d.codes| && Stale(d.codes[i], now))
                  && secret.Some?)
  {
    hide LockedOut;
  }

  /** The code act `g` handed out. */
  function CodeOf(a: Act, code: string, member: MemberId): Code
    requires a.Authorizing?
  {
    Code(OfText(code), OfText(a.pkce), OfText(a.redirect), member, SaturatingAdd(a.now, 60))
  }

  /** What an act that is no login and no exchange leaves of the desk. */
  lemma OtherActs(encode: Digest -> string, acts: seq<Act>)
    requires acts != [] && !acts[|acts| - 1].Authorizing? && !acts[|acts| - 1].Redeeming?
    ensures var d := After(encode, acts[..|acts| - 1]);
            After(encode, acts) == match acts[|acts| - 1]
                                   case Revoking(token) => Revoke(d, token)
                                   case RevokingMember(member) => RevokeMember(d, member)
                                   case Clearing => EMPTY_DESK
                                   case _ => d
  {
    hide Authorize, Redeem, Revoke, RevokeMember;
  }

  lemma LoginAct(encode: Digest -> string, acts: seq<Act>)
    requires acts != [] && acts[|acts| - 1].Authorizing?
    ensures var (d, a) := (After(encode, acts[..|acts| - 1]), acts[|acts| - 1]);
            After(encode, acts) ==
            Authorize(d, a.b, a.username, a.password, a.pkce, a.method_, a.redirect, a.now, a.secret).0
  {
    hide Authorize, Redeem, Revoke, RevokeMember;
  }

  lemma ExchangeAct(encode: Digest -> string, acts: seq<Act>)
    requires acts != [] && acts[|acts| - 1].Redeeming?
    ensures var (d, a) := (After(encode, acts[..|acts| - 1]), acts[|acts| - 1]);
            After(encode, acts) == Redeem(encode, d, a.b, a.code, a.verifier, a.redirect, a.now, a.secret).0
  {
    hide Authorize, Redeem, Revoke, RevokeMember;
  }

  /** A code nobody redeems lies in its slot while it is fresh, unless its member is revoked or the desk cleared. */
  lemma {:induction false} CodesLast(encode: Digest -> string, acts: seq<Act>, g: nat, code: string,
                                     member: MemberId)
    returns (i: nat)
    requires g < |acts| && Granted(encode, acts, g, code) && Authenticated(acts[g], member)
    requires Untouched(acts, g, code, member)
    requires forall k :: g < k < |acts| && acts[k].Authorizing? ==> acts[k].now < SaturatingAdd(acts[g].now, 60)
    ensures acts[g].Authorizing? && i < MAX_CODES
    ensures After(encode, acts).codes[i] == Some(CodeOf(acts[g], code, member))
  {
    hide Authorize, Redeem, Authenticated, SaturatingAdd, After;
    var last := |acts| - 1;
    var front, a := acts[..last], acts[last];
    if g == last {
      LoginAct(encode, acts);
      OneMember(a, member);
      i := CodeIsKept(After(encode, front), a, code, member);
    } else {
      assert front[g] == acts[g] && front[..g] == acts[..g];
      i := CodesLast(encode, front, g, code, member);
      CodeStays(encode, acts, CodeOf(acts[g], code, member), code, i);
    }
  }

  lemma CodeIsKept(d: Desk, a: Act, code: string, member: MemberId) returns (i: nat)
    requires d.Sized() && a.Authorizing? && Authenticated(a, member)
    requires Authorize(d, a.b, a.username, a.password, a.pkce, a.method_, a.redirect, a.now, a.secret).1 ==
               Success(code)
    ensures i < MAX_CODES
    ensures Authorize(d, a.b, a.username, a.password, a.pkce, a.method_, a.redirect, a.now, a.secret).0.codes[i]
            == Some(CodeOf(a, code, member))
  {
    hide LockedOut, SaturatingAdd;
    i := FreeCode(d.codes, a.now).value;
  }

  lemma CodeStays(encode: Digest -> string, acts: seq<Act>, c: Code, code: string, i: nat)
    requires acts != [] && c.hash == OfText(code)
    requires i < MAX_CODES && After(encode, acts[..|acts| - 1]).codes[i] == Some(c)
    requires var a := acts[|acts| - 1];
             && !(a.Redeeming? && a.code == code) && !Ends(a, c.member)
             && (a.Authorizing? ==> a.now < c.expires)
    ensures After(encode, acts).codes[i] == Some(c)
  {
    hide Authorize, Redeem, After, Revoke, RevokeMember;
    var a := acts[|acts| - 1];
    var d := After(encode, acts[..|acts| - 1]);
    if a.Authorizing? {
      LoginAct(encode, acts);
      FreshCodesStay(d, a, i);
    } else if a.Redeeming? {
      ExchangeAct(encode, acts);
      OtherCodesStay(encode, d, a, c, i);
    } else {
      OtherActs(encode, acts);
      RevocationsKeep(d, a, i);
    }
  }

  lemma OtherCodesStay(encode: Digest -> string, d: Desk, a: Act, c: Code, i: nat)
    requires d.Sized() && a.Redeeming? && i < MAX_CODES && d.codes[i] == Some(c) && c.hash != OfText(a.code)
    ensures Redeem(encode, d, a.b, a.code, a.verifier, a.redirect, a.now, a.secret).0.codes[i] == Some(c)
  {
    hide Redeem, CodeAt;
    RedeemConsumes(encode, d, a.b, a.code, a.verifier, a.redirect, a.now, a.secret);
  }

  lemma RevocationsKeep(d: Desk, a: Act, i: nat)
    requires d.Sized() && i < MAX_CODES && d.codes[i].Some?
    ensures a.Revoking? ==> Revoke(d, a.token).codes[i] == d.codes[i]
    ensures a.RevokingMember? && a.member != d.codes[i].value.member ==>
              RevokeMember(d, a.member).codes[i] == d.codes[i]
  {
  }

  lemma RevocationsKeepSession(d: Desk, a: Act, i: nat)
    requires d.Sized() && i < MAX_SESSIONS && d.sessions[i].Some?
    ensures a.Revoking? && OfText(a.token) != d.sessions[i].value.hash ==>
              Revoke(d, a.token).sessions[i] == d.sessions[i]
    ensures a.RevokingMember? && a.member != d.sessions[i].value.member ==>
              RevokeMember(d, a.member).sessions[i] == d.sessions[i]
  {
  }

  lemma FreshCodesStay(d: Desk, a: Act, i: nat)
    requires d.Sized() && a.Authorizing? && i < MAX_CODES && !Stale(d.codes[i], a.now)
    ensures Authorize(d, a.b, a.username, a.password, a.pkce, a.method_, a.redirect, a.now, a.secret).0.codes[i]
            == d.codes[i]
  {
    hide LockedOut;
  }

  /** The member is on the books, enabled, and logs in with a password. */
  predicate MayLogIn(b: Books, member: MemberId) {
    FindMember(b, member).Success? && !FindMember(b, member).value.disabled
    && FindMember(b, member).value.password.Some?
  }

  /** A code nobody tried yet is exchanged, within the minute, by whoever has the verifier behind its challenge and
      names the same redirect, if its member may still log in and was not revoked, a session slot is free and the
      random source works. */
  lemma CodesAreExchanged(encode: Digest -> string, acts: seq<Act>, g: nat, code: string, member: MemberId, b: Books,
                          verifier: string, now: nat, token: string)
    requires FreshSecrets(acts) && g < |acts| && Granted(encode, acts, g, code) && Authenticated(acts[g], member)
    requires Untouched(acts, g, code, member)
    requires forall k :: g < k < |acts| && acts[k].Authorizing? ==> acts[k].now < SaturatingAdd(acts[g].now, 60)
    requires now < SaturatingAdd(acts[g].now, 60)
    requires 43 <= |verifier| <= 128 && forall c :: c in verifier ==> Unreserved(c)
    requires encode(OfText(verifier)) == acts[g].pkce && MayLogIn(b, member)
    requires exists i :: 0 <= i < MAX_SESSIONS && Lapsed(After(encode, acts).sessions[i], now)
    ensures Redeem(encode, After(encode, acts), b, code, verifier, acts[g].redirect, now, Some(token)).1
            == Success((token, member))
  {
    hide After, Granted, Authenticated, Untouched, HasCodeOrigin, HasSessionOrigin, SaturatingAdd, Redeem, CodeAt,
      MayLogIn, Unreserved;
    var k := CodesLast(encode, acts, g, code, member);
    RunsKeepDesk(encode, acts);
    var codes := After(encode, acts).codes;
    if CodeAt(codes, OfText(code)) != Some(k) {
      OthersDiffer(codes, OfText(code), k);
      assert false;
    }
    CodeOpens(encode, After(encode, acts), b, code, verifier, acts[g].redirect, now, token, k);
  }

  lemma CodeOpens(encode: Digest -> string, d: Desk, b: Books, code: string, verifier: string, redirect: string,
                  now: nat, token: string, k: nat)
    requires d.Sized() && k < MAX_CODES && CodeAt(d.codes, OfText(code)) == Some(k)
    requires var c := d.codes[k].value;
             && now < c.expires && c.challenge == OfText(encode(OfText(verifier))) && c.redirect == OfText(redirect)
             && MayLogIn(b, c.member)
    requires 43 <= |verifier| <= 128 && forall c :: c in verifier ==> Unreserved(c)
    requires exists i :: 0 <= i < MAX_SESSIONS && Lapsed(d.sessions[i], now)
    ensures Redeem(encode, d, b, code, verifier, redirect, now, Some(token)).1
            == Success((token, d.codes[k].value.member))
  {
    hide CodeAt, Lapsed, SaturatingAdd;
  }

  /** The session act `j` opened. */
  function SessionOf(a: Act, token: string, member: MemberId): Session
    requires a.Redeeming?
  {
    Session(OfText(token), member, SaturatingAdd(a.now, 28_800))
  }

  /** A session lies in its slot until it expires, unless it is logged out, its member revoked or the desk cleared. */
  lemma {:induction false} SessionsLast(encode: Digest -> string, acts: seq<Act>, j: nat, token: string,
                                        member: MemberId)
    returns (i: nat)
    requires j < |acts| && Opened(encode, acts, j, token, member)
    requires Unrevoked(acts, j, member) && NotLoggedOut(acts, j, token)
    requires forall k :: j < k < |acts| && acts[k].Redeeming? ==>
               acts[k].now < SaturatingAdd(acts[j].now, 28_800)
    ensures acts[j].Redeeming? && i < MAX_SESSIONS
    ensures After(encode, acts).sessions[i] == Some(SessionOf(acts[j], token, member))
  {
    hide Authorize, Redeem, SaturatingAdd, After;
    var last := |acts| - 1;
    var front, a := acts[..last], acts[last];
    if j == last {
      ExchangeAct(encode, acts);
      i := SessionIsKept(encode, After(encode, front), a, token, member);
    } else {
      assert front[j] == acts[j] && front[..j] == acts[..j];
      i := SessionsLast(encode, front, j, token, member);
      SessionStays(encode, acts, SessionOf(acts[j], token, member), token, i);
    }
  }

  lemma SessionIsKept(encode: Digest -> string, d: Desk, a: Act, token: string, member: MemberId) returns (i: nat)
    requires d.Sized() && a.Redeeming?
    requires Redeem(encode, d, a.b, a.code, a.verifier, a.redirect, a.now, a.secret).1 == Success((token, member))
    ensures i < MAX_SESSIONS
    ensures Redeem(encode, d, a.b, a.code, a.verifier, a.redirect, a.now, a.secret).0.sessions[i]
            == Some(SessionOf(a, token, member))
  {
    hide SaturatingAdd;
    i := FreeSession(d.sessions, a.now).value;
  }

  lemma SessionStays(encode: Digest -> string, acts: seq<Act>, s: Session, token: string, i: nat)
    requires acts != [] && s.hash == OfText(token)
    requires i < MAX_SESSIONS && After(encode, acts[..|acts| - 1]).sessions[i] == Some(s)
    requires var a := acts[|acts| - 1];
             a != Revoking(token) && !Ends(a, s.member) && (a.Redeeming? ==> a.now < s.expires)
    ensures After(encode, acts).sessions[i] == Some(s)
  {
    hide Authorize, Redeem, After, Revoke, RevokeMember;
    var a := acts[|acts| - 1];
    var d := After(encode, acts[..|acts| - 1]);
    if a.Authorizing? {
      LoginAct(encode, acts);
      LoginsKeepSessions(d, a);
    } else if a.Redeeming? {
      ExchangeAct(encode, acts);
      LiveSessionsStay(encode, d, a, i);
    } else {
      OtherActs(encode, acts);
      RevocationsKeepSession(d, a, i);
    }
  }

  lemma LoginsKeepSessions(d: Desk, a: Act)
    requires d.Sized() && a.Authorizing?
    ensures Authorize(d, a.b, a.username, a.password, a.pkce, a.method_, a.redirect, a.now, a.secret).0.sessions
            == d.sessions
  {
    hide LockedOut;
  }

  lemma LiveSessionsStay(encode: Digest -> string, d: Desk, a: Act, i: nat)
    requires d.Sized() && a.Redeeming? && i < MAX_SESSIONS && !Lapsed(d.sessions[i], a.now)
    ensures Redeem(encode, d, a.b, a.code, a.verifier, a.redirect, a.now, a.secret).0.sessions[i] == d.sessions[i]
  {
  }

  /** A token is accepted, for its own member, for eight hours after the exchange that opened it, through whatever else
      happens at the desk, unless it is logged out, its member revoked or disabled, or the desk cleared. */
  lemma TokensAreAccepted(encode: Digest -> string, acts: seq<Act>, j: nat, token: string, member: MemberId, b: Books,
                          now: nat)
    requires FreshSecrets(acts) && FreshTokens(acts) && j < |acts| && Opened(encode, acts, j, token, member)
    requires Unrevoked(acts, j, member) && NotLoggedOut(acts, j, token)
    requires forall k :: j < k < |acts| && acts[k].Redeeming? ==>
               acts[k].now < SaturatingAdd(acts[j].now, 28_800)
    requires now < SaturatingAdd(acts[j].now, 28_800) && MayLogIn(b, member)
    ensures Lookup(After(encode, acts), b, token, now) == Success(member)
  {
    hide After, Opened, Unrevoked, NotLoggedOut, HasCodeOrigin, HasSessionOrigin, SaturatingAdd, FreshTokens,
      FreshSecrets;
    var i := SessionsLast(encode, acts, j, token, member);
    RunsKeepDesk(encode, acts);
    var d := After(encode, acts);
    var k := LiveSession(d.sessions, OfText(token), now).value;
    SameTokenSameMember(encode, acts, d.sessions[k].value, j, token, member);
  }

  lemma SameTokenSameMember(encode: Digest -> string, acts: seq<Act>, s: Session, j: nat, token: string,
                            member: MemberId)
    requires FreshTokens(acts) && j < |acts| && Opened(encode, acts, j, token, member)
    requires HasSessionOrigin(encode, acts, s) && s.hash == OfText(token)
    ensures s.member == member
  {
    hide FreshTokens, Opened;
    var i', j' := SessionEarned(encode, acts, s);
    OpenedAt(encode, acts, token, j, member, j', s.member);
  }
}
