/** Runs of the whole service, ledger and login desk together: a committed password, role or disable change signs the
    member off for good, through retries, failed appends and restarts. */
module Signoffs {
  import opened Wrappers
  import opened Types
  import opened Frames
  import opened Runs
  import opened Journal
  import opened Recovery
  import opened Passwords
  import Auth

  predicate SignsOff(c: Command) {
    c.UpdateMember? && (c.newPassword.Some? || c.newRole.Some? || c.newDisabled == Some(true))
  }

  /** The login desk after a committed command: a new password, a new role or a disabling signs the member off. */
  function SignedOff(d: Auth.Desk, c: Command): Auth.Desk {
    if SignsOff(c) then Auth.RevokeMember(d, c.member) else d
  }

  // ---- Joint runs ----

  datatype Move =
    | Serving(action: Action)
    | LoggingIn(username: string, password: string, pkce: string, method_: string, redirect: string, now: nat,
                secret: Option<string>)
    | Exchanging(code: string, verifier: string, redirect: string, now: nat, secret: Option<string>)
    | LoggingOut(token: string)

  datatype House = House(service: Service, desk: Auth.Desk)

  /** The call journals its command now, rather than being refused or answered from an old receipt. */
  predicate Commits(codec: Codec, v: Service, a: Action)
    requires IsChecksum(codec.crc)
  {
    a.Call? && Answer(codec, v, a).1.Success? && !Answer(codec, v, a).1.value.replayed
  }

  /** One move: the desk reads the service's own books; a restart opens it empty. */
  function Moved(codec: Codec, encode: Digest -> string, h: House, m: Move): (h': House)
    requires IsChecksum(codec.crc) && h.desk.Sized()
    ensures h'.desk.Sized()
  {
    match m
    case Serving(a) =>
      House(Act(codec, h.service, a).0,
            if a.Restart? then Auth.EMPTY_DESK
            else if Commits(codec, h.service, a) then SignedOff(h.desk, a.command)
            else h.desk)
    case LoggingIn(username, password, pkce, method_, redirect, now, secret) =>
      h.(desk := Auth.Authorize(h.desk, h.service.books, username, password, pkce, method_, redirect, now, secret).0)
    case Exchanging(code, verifier, redirect, now, secret) =>
      h.(desk := Auth.Redeem(encode, h.desk, h.service.books, code, verifier, redirect, now, secret).0)
    case LoggingOut(token) => h.(desk := Auth.Revoke(h.desk, token))
  }

  function Play(codec: Codec, encode: Digest -> string, moves: seq<Move>): (h: House)
    requires IsChecksum(codec.crc)
    ensures h.desk.Sized()
  {
    if moves == [] then House(FRESH, Auth.EMPTY_DESK)
    else Moved(codec, encode, Play(codec, encode, moves[..|moves| - 1]), moves[|moves| - 1])
  }

  // ---- What the desk sees of a run ----

  function DeskAct(codec: Codec, h: House, m: Move): Auth.Act
    requires IsChecksum(codec.crc)
  {
    match m
    case Serving(a) =>
      if a.Restart? then Auth.Clearing
      else if Commits(codec, h.service, a) && SignsOff(a.command) then Auth.RevokingMember(a.command.member)
      else Auth.Idling
    case LoggingIn(username, password, pkce, method_, redirect, now, secret) =>
      Auth.Authorizing(h.service.books, username, password, pkce, method_, redirect, now, secret)
    case Exchanging(code, verifier, redirect, now, secret) =>
      Auth.Redeeming(h.service.books, code, verifier, redirect, now, secret)
    case LoggingOut(token) => Auth.Revoking(token)
  }

  /** One act of the desk for each move. */
  function Acts(codec: Codec, encode: Digest -> string, moves: seq<Move>): (acts: seq<Auth.Act>)
    requires IsChecksum(codec.crc)
    ensures |acts| == |moves|
  {
    if moves == [] then []
    else
      var front := moves[..|moves| - 1];
      Acts(codec, encode, front) + [DeskAct(codec, Play(codec, encode, front), moves[|moves| - 1])]
  }

  lemma {:induction false} ActsOfPrefix(codec: Codec, encode: Digest -> string, moves: seq<Move>, k: nat)
    requires IsChecksum(codec.crc) && k <= |moves|
    ensures Acts(codec, encode, moves)[..k] == Acts(codec, encode, moves[..k])
    ensures k < |moves| ==> Acts(codec, encode, moves)[k] == DeskAct(codec, Play(codec, encode, moves[..k]), moves[k])
  {
    hide DeskAct, Play;
    var front := if moves == [] then [] else moves[..|moves| - 1];
    if k == |moves| {
      assert moves[..k] == moves;
    } else {
      ActsOfPrefix(codec, encode, front, k);
      assert front[..k] == moves[..k];
      if k == |front| {
        assert moves[..k] == front;
      }
    }
  }

  lemma DeskFollows(codec: Codec, encode: Digest -> string, h: House, m: Move, acts: seq<Auth.Act>)
    requires IsChecksum(codec.crc) && h.desk == Auth.After(encode, acts)
    ensures Moved(codec, encode, h, m).desk == Auth.After(encode, acts + [DeskAct(codec, h, m)])
  {
    hide Commits, Act, SignsOff, Auth.Authorize, Auth.Redeem;
    assert (acts + [DeskAct(codec, h, m)])[..|acts|] == acts;
  }

  /** The desk of a run is the desk its acts alone would leave. */
  lemma {:induction false} DeskIsItsActs(codec: Codec, encode: Digest -> string, moves: seq<Move>)
    requires IsChecksum(codec.crc)
    ensures Play(codec, encode, moves).desk == Auth.After(encode, Acts(codec, encode, moves))
  {
    hide Moved, DeskAct;
    if moves == [] {
      EmptyDesk(encode);
    } else {
      var front := moves[..|moves| - 1];
      DeskIsItsActs(codec, encode, front);
      hide Auth.After;
      DeskFollows(codec, encode, Play(codec, encode, front), moves[|moves| - 1], Acts(codec, encode, front));
    }
  }

  lemma EmptyDesk(encode: Digest -> string)
    ensures Auth.After(encode, []) == Auth.EMPTY_DESK
  {
  }

  // ---- The log of a run ----

  predicate Readable(codec: Codec, v: Service) {
    v.records <= |v.disk| && forall i :: 0 <= i < v.records ==> Decode(codec, v.disk[i]).Success?
  }

  /** The events the service has applied, read off its journal. */
  function Log(codec: Codec, v: Service): seq<Event>
    requires Readable(codec, v)
  {
    seq(v.records, i requires 0 <= i < v.records => Decode(codec, v.disk[i]).value)
  }

  lemma LogIsItsSteps(codec: Codec, v: Service, steps: seq<Step>, doubt: Option<Step>)
    requires codec.Faithful() && ServiceInv(codec, v, steps, doubt)
    ensures Readable(codec, v) && Log(codec, v) == Events(steps)
  {
    hide ServiceInv, Decode;
    var events := Events(steps);
    RecordsAreSteps(codec, v, steps, doubt);
    forall i | 0 <= i < |events| ensures Decode(codec, v.disk[i]) == Success(events[i]) {
      DecodedStep(codec, v, steps, doubt, i);
    }
  }

  lemma RecordsAreSteps(codec: Codec, v: Service, steps: seq<Step>, doubt: Option<Step>)
    requires IsChecksum(codec.crc) && ServiceInv(codec, v, steps, doubt)
    ensures |v.disk| >= v.records == |steps|
  {
    hide Encode, After, ValidRun, Receipts;
  }

  lemma DecodedStep(codec: Codec, v: Service, steps: seq<Step>, doubt: Option<Step>, i: nat)
    requires codec.Faithful() && ServiceInv(codec, v, steps, doubt) && i < |steps|
    ensures i < |v.disk| && v.records == |steps| && Decode(codec, v.disk[i]) == Success(Events(steps)[i])
  {
    hide Encode, Decode, After, ValidRun, Receipts;
    EncodedDecodes(codec, Events(steps)[i]);
  }

  /** One action: the log stays, gains the command the call commits, or gains what a restart finds durable. */
  lemma ActionLogs(codec: Codec, v: Service, steps: seq<Step>, doubt: Option<Step>, a: Action)
    returns (steps': seq<Step>, doubt': Option<Step>)
    requires codec.Faithful() && ServiceInv(codec, v, steps, doubt)
    ensures ServiceInv(codec, Act(codec, v, a).0, steps', doubt')
    ensures |steps| <= |steps'| && steps'[..|steps|] == steps
    ensures a.Call? ==>
              if Commits(codec, v, a)
              then |steps'| == |steps| + 1 && steps'[..|steps|] == steps && steps'[|steps|].event.command == a.command
              else steps' == steps
  {
    hide Answer, ServiceInv, Logged, NoLateWindow;
    if a.Call? {
      steps', doubt' := CallProgresses(codec, v, steps, doubt, a);
    } else {
      hide Act;
      RestartKeepsRun(codec, v, [], steps, doubt);
      steps', doubt' := Restarted(steps, doubt).0, Restarted(steps, doubt).1;
    }
  }

  lemma {:induction false} PlayIsSynced(codec: Codec, encode: Digest -> string, moves: seq<Move>)
    returns (steps: seq<Step>, doubt: Option<Step>)
    requires codec.Faithful()
    ensures ServiceInv(codec, Play(codec, encode, moves).service, steps, doubt)
  {
    hide ServiceInv, Act, Commits, SignedOff, Auth.Authorize, Auth.Redeem, Auth.Revoke;
    if moves == [] {
      steps, doubt := [], None;
      FreshIsSynced(codec);
    } else {
      var front, last := moves[..|moves| - 1], moves[|moves| - 1];
      steps, doubt := PlayIsSynced(codec, encode, front);
      if last.Serving? {
        steps, doubt := ActionLogs(codec, Play(codec, encode, front).service, steps, doubt, last.action);
      }
    }
  }

  /** The event changes the password, role or standing of this member. */
  predicate Changes(e: Event, member: MemberId) {
    SignsOff(e.command) && e.command.member == member
  }

  /** A move that ends nothing of a member's at the desk adds no change of that member to the log. */
  lemma QuietMove(codec: Codec, encode: Digest -> string, h: House, m: Move, steps: seq<Step>, doubt: Option<Step>,
                  member: MemberId)
    returns (steps': seq<Step>, doubt': Option<Step>)
    requires codec.Faithful() && ServiceInv(codec, h.service, steps, doubt) && h.desk.Sized()
    requires !Auth.Ends(DeskAct(codec, h, m), member)
    ensures ServiceInv(codec, Moved(codec, encode, h, m).service, steps', doubt')
    ensures |steps| <= |steps'| && steps'[..|steps|] == steps
    ensures forall n :: |steps| <= n < |steps'| ==> !Changes(steps'[n].event, member)
  {
    hide ServiceInv, Act, Commits, Auth.Authorize, Auth.Redeem, Auth.Revoke;
    steps', doubt' := steps, doubt;
    if m.Serving? {
      steps', doubt' := ActionLogs(codec, h.service, steps, doubt, m.action);
    }
  }

  /** While nothing of a member's is ended at the desk, the log grows by no change of that member. */
  lemma {:induction false} LogSince(codec: Codec, encode: Digest -> string, moves: seq<Move>, i: nat, member: MemberId)
    returns (before: seq<Step>, doubt: Option<Step>, after: seq<Step>, doubt': Option<Step>)
    requires codec.Faithful() && i <= |moves|
    requires forall k :: i <= k < |moves| ==> !Auth.Ends(Acts(codec, encode, moves)[k], member)
    ensures ServiceInv(codec, Play(codec, encode, moves[..i]).service, before, doubt)
    ensures ServiceInv(codec, Play(codec, encode, moves).service, after, doubt')
    ensures |before| <= |after| && after[..|before|] == before
    ensures forall n :: |before| <= n < |after| ==> !Changes(after[n].event, member)
    decreases |moves|
  {
    hide ServiceInv, Moved, DeskAct, Auth.Ends, Changes;
    if i == |moves| {
      assert moves[..i] == moves;
      before, doubt := PlayIsSynced(codec, encode, moves);
      after, doubt' := before, doubt;
    } else {
      var front, last := moves[..|moves| - 1], moves[|moves| - 1];
      assert front[..i] == moves[..i];
      forall k | i <= k < |front| ensures !Auth.Ends(Acts(codec, encode, front)[k], member) {
        assert Acts(codec, encode, front)[k] == Acts(codec, encode, moves)[k];
      }
      assert !Auth.Ends(Acts(codec, encode, moves)[|front|], member);
      var steps, inDoubt;
      before, doubt, steps, inDoubt := LogSince(codec, encode, front, i, member);
      after, doubt' := QuietMove(codec, encode, Play(codec, encode, front), last, steps, inDoubt, member);
    }
  }

  // ---- Consequences ----

  /** Move `i` answers a login with `code`; the password given is the member's. */
  ghost predicate LogsIn(codec: Codec, encode: Digest -> string, moves: seq<Move>, i: nat, code: string,
                         member: MemberId)
    requires IsChecksum(codec.crc)
  {
    && i < |moves| && moves[i].LoggingIn?
    && var (h, m) := (Play(codec, encode, moves[..i]), moves[i]);
       && Auth.Authorize(h.desk, h.service.books, m.username, m.password, m.pkce, m.method_, m.redirect, m.now,
                         m.secret).1
          == Success(code)
       && Auth.Authenticated(DeskAct(codec, h, m), member)
  }

  /** Move `j` answers an exchange with `token`, a session of the member. */
  predicate Exchanges(codec: Codec, encode: Digest -> string, moves: seq<Move>, j: nat, token: string,
                      member: MemberId)
    requires IsChecksum(codec.crc)
  {
    && j < |moves| && moves[j].Exchanging?
    && var (h, m) := (Play(codec, encode, moves[..j]), moves[j]);
       Auth.Redeem(encode, h.desk, h.service.books, m.code, m.verifier, m.redirect, m.now, m.secret).1
       == Success((token, member))
  }

  lemma LoginsAreGrants(codec: Codec, encode: Digest -> string, moves: seq<Move>, i: nat, code: string,
                        member: MemberId)
    requires IsChecksum(codec.crc) && i < |moves|
    ensures var acts := Acts(codec, encode, moves);
            LogsIn(codec, encode, moves, i, code, member) <==>
            Auth.Granted(encode, acts, i, code) && acts[i].Authorizing? && Auth.Authenticated(acts[i], member)
  {
    ActsOfPrefix(codec, encode, moves, i);
    DeskIsItsActs(codec, encode, moves[..i]);
    hide Play, Acts, Auth.After, Auth.Authorize, Auth.Authenticated, Commits, SignsOff;
  }

  lemma ExchangesAreOpenings(codec: Codec, encode: Digest -> string, moves: seq<Move>, j: nat, token: string,
                             member: MemberId)
    requires IsChecksum(codec.crc) && j < |moves|
    ensures Exchanges(codec, encode, moves, j, token, member) <==>
            Auth.Opened(encode, Acts(codec, encode, moves), j, token, member)
  {
    ActsOfPrefix(codec, encode, moves, j);
    DeskIsItsActs(codec, encode, moves[..j]);
    hide Play, Acts, Auth.After, Auth.Redeem, Commits, SignsOff;
  }

  /** Exchange `j` gave the member this very token, for the code login `i` gave, within the minute, with the verifier
      behind that login's challenge and the same redirect. */
  ghost predicate Earned(codec: Codec, encode: Digest -> string, moves: seq<Move>, i: nat, j: nat, token: string,
                         member: MemberId)
    requires IsChecksum(codec.crc)
  {
    && i < j && Exchanges(codec, encode, moves, j, token, member)
    && LogsIn(codec, encode, moves, i, moves[j].code, member)
    && moves[i].pkce == encode(OfText(moves[j].verifier)) && moves[i].redirect == moves[j].redirect
    && moves[j].now < Auth.SaturatingAdd(moves[i].now, 60)
  }

  /** The token is accepted for the member after the run. */
  predicate Accepted(codec: Codec, encode: Digest -> string, moves: seq<Move>, token: string, now: nat,
                     member: MemberId)
    requires IsChecksum(codec.crc)
  {
    var h := Play(codec, encode, moves);
    Auth.Lookup(h.desk, h.service.books, token, now) == Success(member)
  }

  /** The login behind an accepted token; nothing ended the member's sessions since. */
  lemma LoginBehind(codec: Codec, encode: Digest -> string, moves: seq<Move>, token: string, now: nat, member: MemberId)
    returns (i: nat, j: nat)
    requires IsChecksum(codec.crc) && Auth.FreshSecrets(Acts(codec, encode, moves))
    requires Accepted(codec, encode, moves, token, now, member)
    ensures Earned(codec, encode, moves, i, j, token, member)
    ensures now < Auth.SaturatingAdd(moves[j].now, 28_800)
    ensures Auth.Unrevoked(Acts(codec, encode, moves), i, member)
  {
    var acts := Acts(codec, encode, moves);
    DeskIsItsActs(codec, encode, moves);
    hide Play, Acts, Auth.After, Auth.Lookup, Auth.FreshSecrets, Auth.Granted, Auth.Opened, Auth.Authenticated,
      Auth.Unrevoked, LogsIn, Exchanges, DeskAct;
    i, j := Auth.AcceptedTokensAreEarned(encode, acts, Play(codec, encode, moves).service.books, token, now);
    ActsOfPrefix(codec, encode, moves, i);
    ActsOfPrefix(codec, encode, moves, j);
    LoggedInBy(codec, Play(codec, encode, moves[..i]), moves[i]);
    ExchangedBy(codec, Play(codec, encode, moves[..j]), moves[j]);
    LoginsAreGrants(codec, encode, moves, i, moves[j].code, member);
    ExchangesAreOpenings(codec, encode, moves, j, token, member);
  }

  lemma LoggedInBy(codec: Codec, h: House, m: Move)
    requires IsChecksum(codec.crc) && DeskAct(codec, h, m).Authorizing?
    ensures m.LoggingIn?
    ensures var a := DeskAct(codec, h, m); a.pkce == m.pkce && a.redirect == m.redirect && a.now == m.now
  {
    hide Commits, SignsOff;
  }

  lemma ExchangedBy(codec: Codec, h: House, m: Move)
    requires IsChecksum(codec.crc) && DeskAct(codec, h, m).Redeeming?
    ensures m.Exchanging?
    ensures var a := DeskAct(codec, h, m);
            a.code == m.code && a.verifier == m.verifier && a.redirect == m.redirect && a.now == m.now
  {
    hide Commits, SignsOff;
  }

  /** Every change of the member on the log after the moves was on it after the first `i` already. */
  predicate Unchanged(codec: Codec, encode: Digest -> string, moves: seq<Move>, i: nat, member: MemberId)
    requires IsChecksum(codec.crc) && i <= |moves|
  {
    var (v, v') := (Play(codec, encode, moves[..i]).service, Play(codec, encode, moves).service);
    && Readable(codec, v) && Readable(codec, v')
    && Log(codec, v) <= Log(codec, v')
    && forall n :: |Log(codec, v)| <= n < |Log(codec, v')| ==> !Changes(Log(codec, v')[n], member)
  }

  /** A token is accepted only if its member logged in with the right password, exchanged the code that gave for this
      token, at most eight hours ago, and has had no password, role or disable change committed since that login:
      every such change on the log today was on it then. */
  lemma NoChangeSinceLogin(codec: Codec, encode: Digest -> string, moves: seq<Move>, token: string, now: nat,
                           member: MemberId)
    returns (i: nat, j: nat)
    requires codec.Faithful() && Auth.FreshSecrets(Acts(codec, encode, moves))
    requires Accepted(codec, encode, moves, token, now, member)
    ensures Earned(codec, encode, moves, i, j, token, member) && Unchanged(codec, encode, moves, i, member)
    ensures now < Auth.SaturatingAdd(moves[j].now, 28_800)
  {
    hide Accepted, Unchanged, Exchanges, Play, Acts, Auth.FreshSecrets, Auth.Ends, Auth.Authenticated;
    i, j := LoginBehind(codec, encode, moves, token, now, member);
    ActsOfPrefix(codec, encode, moves, i);
    LoginsEndNothing(codec, Play(codec, encode, moves[..i]), moves[i], member);
    ChangesSince(codec, encode, moves, i, member);
  }

  lemma LoginsEndNothing(codec: Codec, h: House, m: Move, member: MemberId)
    requires IsChecksum(codec.crc) && m.LoggingIn?
    ensures !Auth.Ends(DeskAct(codec, h, m), member)
  {
  }

  /** `LogSince`, in terms of the journal. */
  lemma ChangesSince(codec: Codec, encode: Digest -> string, moves: seq<Move>, i: nat, member: MemberId)
    requires codec.Faithful() && i <= |moves|
    requires forall k :: i <= k < |moves| ==> !Auth.Ends(Acts(codec, encode, moves)[k], member)
    ensures Unchanged(codec, encode, moves, i, member)
  {
    hide Play, Acts, ServiceInv, Changes, Readable, Log, Auth.Ends;
    var before, doubt, after, doubt' := LogSince(codec, encode, moves, i, member);
    LogIsItsSteps(codec, Play(codec, encode, moves[..i]).service, before, doubt);
    LogIsItsSteps(codec, Play(codec, encode, moves).service, after, doubt');
    assert Events(after)[..|before|] == Events(before);
  }

  /** Move `k` is a call acknowledged as new that changes the member's password, role or standing. */
  predicate ChangeCommitted(codec: Codec, encode: Digest -> string, moves: seq<Move>, k: nat, member: MemberId)
    requires IsChecksum(codec.crc)
  {
    && k < |moves| && moves[k].Serving? && Commits(codec, Play(codec, encode, moves[..k]).service, moves[k].action)
    && SignsOff(moves[k].action.command) && moves[k].action.command.member == member
  }

  lemma CommittedChangesEnd(codec: Codec, encode: Digest -> string, moves: seq<Move>, k: nat, member: MemberId)
    requires IsChecksum(codec.crc) && ChangeCommitted(codec, encode, moves, k, member)
    ensures Auth.Ends(Acts(codec, encode, moves)[k], member)
  {
    ActsOfPrefix(codec, encode, moves, k);
    hide Play, Acts, Commits;
  }

  /** Once a password, role or disable change of a member is acknowledged as new, a token of that member is accepted
      only if it was exchanged for a code of a later login. */
  lemma CommittedChangesEndSessions(codec: Codec, encode: Digest -> string, moves: seq<Move>, k: nat, token: string,
                                    now: nat, member: MemberId)
    returns (i: nat, j: nat)
    requires IsChecksum(codec.crc) && Auth.FreshSecrets(Acts(codec, encode, moves))
    requires ChangeCommitted(codec, encode, moves, k, member)
    requires Accepted(codec, encode, moves, token, now, member)
    ensures k < i && Earned(codec, encode, moves, i, j, token, member)
  {
    hide Accepted, Exchanges, Acts, Commits, Auth.FreshSecrets, Auth.Ends, Auth.Authenticated;
    i, j := LoginBehind(codec, encode, moves, token, now, member);
    CommittedChangesEnd(codec, encode, moves, k, member);
    ActsOfPrefix(codec, encode, moves, i);
    LoginsEndNothing(codec, Play(codec, encode, moves[..i]), moves[i], member);
  }

  /** A token the member got before the change is refused for ever after, whoever is on the books. */
  lemma CommittedChangesVoidTokens(codec: Codec, encode: Digest -> string, moves: seq<Move>, j: nat, k: nat,
                                   token: string, member: MemberId, b: Books, now: nat)
    requires IsChecksum(codec.crc) && j < k
    requires Auth.FreshSecrets(Acts(codec, encode, moves)) && Auth.FreshTokens(Acts(codec, encode, moves))
    requires Exchanges(codec, encode, moves, j, token, member) && ChangeCommitted(codec, encode, moves, k, member)
    ensures Auth.Lookup(Play(codec, encode, moves).desk, b, token, now).Failure?
  {
    ExchangesAreOpenings(codec, encode, moves, j, token, member);
    CommittedChangesEnd(codec, encode, moves, k, member);
    DeskIsItsActs(codec, encode, moves);
    hide Play, Acts, Commits, Exchanges, Auth.After, Auth.Lookup, Auth.FreshSecrets, Auth.FreshTokens, Auth.Opened,
      Auth.Ends;
    Auth.RevokedTokensStayDead(encode, Acts(codec, encode, moves), b, token, now, member, j, k);
  }

  /** Nor can any code granted to the member before the change be exchanged after it. */
  lemma CommittedChangesVoidCodes(codec: Codec, encode: Digest -> string, moves: seq<Move>, g: nat, k: nat, j: nat,
                                  code: string, member: MemberId)
    requires IsChecksum(codec.crc) && Auth.FreshSecrets(Acts(codec, encode, moves)) && g < k < j < |moves|
    requires LogsIn(codec, encode, moves, g, code, member) && ChangeCommitted(codec, encode, moves, k, member)
    requires moves[j].Exchanging? && moves[j].code == code
    ensures var (h, m) := (Play(codec, encode, moves[..j]), moves[j]);
            Auth.Redeem(encode, h.desk, h.service.books, code, m.verifier, m.redirect, m.now, m.secret)
            == (h.desk, Failure(Unauthorized))
  {
    LoginsAreGrants(codec, encode, moves, g, code, member);
    ActsOfPrefix(codec, encode, moves, j);
    DeskIsItsActs(codec, encode, moves[..j]);
    CommittedChangesEnd(codec, encode, moves, k, member);
    hide Play, Acts, LogsIn, Auth.After, Auth.Redeem, Auth.FreshSecrets, Auth.Granted, Auth.Authenticated, Auth.Ends,
      ChangeCommitted;
    Auth.RevokedCodesStayDead(encode, Acts(codec, encode, moves), code, member, g, k, j);
  }

  // ---- Passwords ----

  /** A run only ever adds to the log. */
  lemma {:induction false} LogGrows(codec: Codec, encode: Digest -> string, moves: seq<Move>, i: nat)
    returns (before: seq<Step>, doubt: Option<Step>, after: seq<Step>, doubt': Option<Step>)
    requires codec.Faithful() && i <= |moves|
    ensures ServiceInv(codec, Play(codec, encode, moves[..i]).service, before, doubt)
    ensures ServiceInv(codec, Play(codec, encode, moves).service, after, doubt')
    ensures |before| <= |after| && after[..|before|] == before
    decreases |moves|
  {
    hide ServiceInv, Moved;
    if i == |moves| {
      assert moves[..i] == moves;
      before, doubt := PlayIsSynced(codec, encode, moves);
      after, doubt' := before, doubt;
    } else {
      var front, last := moves[..|moves| - 1], moves[|moves| - 1];
      assert front[..i] == moves[..i];
      var steps, inDoubt;
      before, doubt, steps, inDoubt := LogGrows(codec, encode, front, i);
      after, doubt' := MoveLogs(codec, encode, Play(codec, encode, front), last, steps, inDoubt);
    }
  }

  lemma MoveLogs(codec: Codec, encode: Digest -> string, h: House, m: Move, steps: seq<Step>, doubt: Option<Step>)
    returns (steps': seq<Step>, doubt': Option<Step>)
    requires codec.Faithful() && ServiceInv(codec, h.service, steps, doubt) && h.desk.Sized()
    ensures ServiceInv(codec, Moved(codec, encode, h, m).service, steps', doubt')
    ensures |steps| <= |steps'| && steps'[..|steps|] == steps
  {
    hide ServiceInv, Act, Commits, SignedOff, Auth.Authorize, Auth.Redeem, Auth.Revoke;
    steps', doubt' := steps, doubt;
    if m.Serving? {
      steps', doubt' := ActionLogs(codec, h.service, steps, doubt, m.action);
    }
  }

  /** The log just after a call is acknowledged as new ends with its command. */
  lemma CommittedIsLast(codec: Codec, encode: Digest -> string, moves: seq<Move>, k: nat)
    returns (steps: seq<Step>, doubt: Option<Step>)
    requires codec.Faithful() && k < |moves| && moves[k].Serving?
    requires Commits(codec, Play(codec, encode, moves[..k]).service, moves[k].action)
    ensures ServiceInv(codec, Play(codec, encode, moves[..k + 1]).service, steps, doubt)
    ensures steps != [] && steps[|steps| - 1].event.command == moves[k].action.command
  {
    hide ServiceInv, Act, Answer, SignedOff;
    var front, upto := moves[..k], moves[..k + 1];
    assert |upto| == k + 1 && upto[..k] == front && upto[k] == moves[k];
    assert Play(codec, encode, upto) == Moved(codec, encode, Play(codec, encode, front), moves[k]);
    var before, inDoubt := PlayIsSynced(codec, encode, front);
    steps, doubt := ActionLogs(codec, Play(codec, encode, front).service, before, inDoubt, moves[k].action);
  }

  /** After move `k` has set a member's password, nothing on the log up to move `i` sets another. */
  predicate LastSetAt(codec: Codec, encode: Digest -> string, moves: seq<Move>, k: nat, i: nat, member: MemberId)
    requires IsChecksum(codec.crc) && k < i <= |moves|
  {
    var (v, v') := (Play(codec, encode, moves[..k + 1]).service, Play(codec, encode, moves[..i]).service);
    && Readable(codec, v) && Readable(codec, v')
    && forall n :: |Log(codec, v)| <= n < |Log(codec, v')| ==> !SetsPassword(Log(codec, v')[n], member)
  }

  /** From the moment a new password is acknowledged, and until another is on the log, nobody logs in as that member
      with a password that is not the new one: the old one is refused. */
  lemma NewPasswordsTakeEffect(codec: Codec, encode: Digest -> string, moves: seq<Move>, k: nat, i: nat, code: string,
                               member: MemberId)
    requires codec.Faithful() && k < i < |moves|
    requires ChangeCommitted(codec, encode, moves, k, member) && moves[k].action.command.newPassword.Some?
    requires LastSetAt(codec, encode, moves, k, i, member) && LogsIn(codec, encode, moves, i, code, member)
    ensures moves[k].action.command.newPassword.value.Verify(moves[i].password)
  {
    hide Play, ServiceInv, Commits, Log, Readable, SetsPassword, Auth.Authorize;
    var front := moves[..i];
    assert front[..k + 1] == moves[..k + 1] && front[k] == moves[k] && front[..k] == moves[..k];
    var v, v' := Play(codec, encode, moves[..k + 1]).service, Play(codec, encode, front).service;
    var changed, d := CommittedIsLast(codec, encode, front, k);
    var before, doubt, after, doubt' := LogGrows(codec, encode, front, k + 1);
    SameLog(codec, v, changed, d, before, doubt);
    LogIsItsSteps(codec, v, before, doubt);
    LogIsItsSteps(codec, v', after, doubt');
    var n := |before| - 1;
    assert after[n] == before[n] && Events(before)[n] == Events(changed)[n];
    forall m | n < m < |after| ensures !SetsPassword(after[m].event, member) {
      assert Log(codec, v')[m] == after[m].event;
    }
    LoginIsCurrent(codec, v', after, doubt', n, DeskAct(codec, Play(codec, encode, front), moves[i]), member);
  }

  /** Two accounts of one service's log agree. */
  lemma SameLog(codec: Codec, v: Service, steps: seq<Step>, doubt: Option<Step>, other: seq<Step>, doubt': Option<Step>)
    requires codec.Faithful() && ServiceInv(codec, v, steps, doubt) && ServiceInv(codec, v, other, doubt')
    ensures Events(steps) == Events(other) && |steps| == |other|
  {
    hide ServiceInv, Log, Readable;
    LogIsItsSteps(codec, v, steps, doubt);
    LogIsItsSteps(codec, v, other, doubt');
  }

  lemma LoginIsCurrent(codec: Codec, v: Service, steps: seq<Step>, doubt: Option<Step>, n: nat, a: Auth.Act,
                       member: MemberId)
    requires codec.Faithful() && ServiceInv(codec, v, steps, doubt) && n < |steps|
    requires steps[n].event.command.UpdateMember? && steps[n].event.command.member == member
    requires steps[n].event.command.newPassword.Some?
    requires forall m :: n < m < |steps| ==> !SetsPassword(steps[m].event, member)
    requires a.Authorizing? && a.b == v.books && Auth.Authenticated(a, member)
    ensures steps[n].event.command.newPassword.value.Verify(a.password)
  {
    hide After, SetsPassword, Auth.UserNamed, Journalled, KeysOnce, Receipts;
    PasswordStands(steps, n);
    AccountsAreNumbered(steps);
  }

  lemma AccountsAreNumbered(steps: seq<Step>)
    requires ValidRun(steps)
    ensures forall i :: 0 <= i < |After(steps).members| ==> After(steps).members[i].id == i + 1
  {
    hide After, Lifetime;
    RunsKeepHouse(steps);
  }
}
