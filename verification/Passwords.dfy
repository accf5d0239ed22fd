/** Usernames name one account each, and a password stays in force until the next one set. */
module Passwords {
  import opened Wrappers
  import opened Types
  import opened Domain
  import opened Runs
  import opened Effects
  import opened Rulebook
  import opened Closings
  import Auth

  /** The event gives this member a password. */
  predicate SetsPassword(e: Event, member: MemberId) {
    || (e.command.UpdateMember? && e.command.member == member && e.command.newPassword.Some?)
    || (e.command.MigrateMember? && e.command.member == member)
  }

  lemma PasswordAfter(b: Books, life: seq<Transaction>, e: Event, clock: nat, i: nat)
    requires HouseInv(b, life) && Admissible(b, e, clock) && i < |b.members|
    ensures i < |Apply(b, e).members|
    ensures var (c, m, m') := (e.command, b.members[i], Apply(b, e).members[i]);
            && m'.password == (if !SetsPassword(e, i + 1) then m.password
                               else if c.UpdateMember? then c.newPassword else Some(c.password))
            && m'.username == if c.MigrateMember? && c.member == i + 1 then c.username else m.username
  {
    hide HouseInv, Admissible, Apply;
    match e.command {
      case UpdateMember(_, _, _, _, _) => UpdateTakesEffect(b, life, e, clock, i);
      case MigrateMember(_, _, _) => MigrationTakesEffect(b, life, e, clock, i);
      case Provision(_, _, _, _) => MembersJoin(b, e, clock);
      case CreateMember(_, _, _, _, _) => MembersJoin(b, e, clock);
      case AddMember(_, _) => MembersJoin(b, e, clock);
      case _ => AccountsStay(b, e, i);
    }
  }

  /** A password set by an update is the member's until another is set. */
  lemma {:induction false} PasswordStands(steps: seq<Step>, n: nat)
    requires ValidRun(steps) && n < |steps|
    requires steps[n].event.command.UpdateMember? && steps[n].event.command.newPassword.Some?
    requires forall m :: n < m < |steps| ==> !SetsPassword(steps[m].event, steps[n].event.command.member)
    ensures var c := steps[n].event.command;
            1 <= c.member <= |After(steps).members| && After(steps).members[c.member - 1].password == c.newPassword
  {
    hide Admissible, Apply, HouseInv, SetsPassword;
    var front, last := steps[..|steps| - 1], steps[|steps| - 1];
    var c := steps[n].event.command;
    RunsKeepHouse(front);
    if n == |front| {
      UpdatedExists(After(front), Lifetime(front), last.event, last.clock);
      UpdateTakesEffect(After(front), Lifetime(front), last.event, last.clock, c.member - 1);
    } else {
      assert front[n] == steps[n];
      PasswordStands(front, n);
      PasswordAfter(After(front), Lifetime(front), last.event, last.clock, c.member - 1);
    }
  }

  lemma UpdatedExists(b: Books, life: seq<Transaction>, e: Event, clock: nat)
    requires HouseInv(b, life) && Admissible(b, e, clock) && e.command.UpdateMember?
    ensures 1 <= e.command.member <= |b.members|
  {
    hide HouseInv, Admissible, ValidName, LastNana;
    Ruled(b, life, e, clock);
  }

  // ---- Usernames ----

  /** Whoever has a password has a username, nobody else has that username, and the password is usable. */
  ghost predicate NamesInv(members: seq<Member>) {
    && (forall i :: 0 <= i < |members| && members[i].password.Some? ==>
          members[i].username != "" && members[i].password.value.Valid())
    && (forall i, j :: 0 <= i < j < |members| && members[i].username != "" ==>
          members[i].username != members[j].username)
  }

  lemma NewNamesAreRuled(b: Books, life: seq<Transaction>, e: Event, clock: nat)
    requires HouseInv(b, life) && Admissible(b, e, clock)
    ensures e.command.CreateMember? || e.command.Provision? || e.command.MigrateMember? ==>
              && e.command.username != "" && e.command.password.Valid()
              && forall i :: 0 <= i < |b.members| ==> b.members[i].username != e.command.username
    ensures e.command.UpdateMember? && e.command.newPassword.Some? ==>
              && e.command.newPassword.value.Valid() && 1 <= e.command.member <= |b.members|
              && b.members[e.command.member - 1].password.Some?
  {
    hide HouseInv, Admissible, LastNana, HasControl;
    Ruled(b, life, e, clock);
  }

  lemma NamesStep(b: Books, life: seq<Transaction>, e: Event, clock: nat)
    requires HouseInv(b, life) && Admissible(b, e, clock) && NamesInv(b.members)
    ensures NamesInv(Apply(b, e).members)
  {
    hide HouseInv, Admissible, Apply;
    var next := Apply(b, e).members;
    NewNamesAreRuled(b, life, e, clock);
    if e.command.Provision? || e.command.CreateMember? || e.command.AddMember? {
      MembersJoin(b, e, clock);
    } else {
      SameMembers(b, life, e, clock);
      forall i | 0 <= i < |b.members|
        ensures next[i].password ==
                (if !SetsPassword(e, i + 1) then b.members[i].password
                 else if e.command.UpdateMember? then e.command.newPassword else Some(e.command.password))
        ensures next[i].username ==
                if e.command.MigrateMember? && e.command.member == i + 1 then e.command.username
                else b.members[i].username
      {
        PasswordAfter(b, life, e, clock, i);
      }
    }
  }

  lemma SameMembers(b: Books, life: seq<Transaction>, e: Event, clock: nat)
    requires HouseInv(b, life) && Admissible(b, e, clock)
    requires !e.command.Provision? && !e.command.CreateMember? && !e.command.AddMember?
    ensures |Apply(b, e).members| == |b.members|
  {
    hide Admissible, Apply, HouseInv;
    SameTable(b, e);
  }

  lemma SameTable(b: Books, e: Event)
    requires !e.command.Provision? && !e.command.CreateMember? && !e.command.AddMember?
    ensures |Apply(b, e).members| == |b.members|
  {
    hide Posted;
  }

  lemma {:induction false} RunsKeepNames(steps: seq<Step>)
    requires ValidRun(steps)
    ensures NamesInv(After(steps).members)
  {
    hide Admissible, Apply, HouseInv, NamesInv;
    if steps == [] {
      NoNames();
    } else {
      var front, last := steps[..|steps| - 1], steps[|steps| - 1];
      RunsKeepNames(front);
      RunsKeepHouse(front);
      NamesStep(After(front), Lifetime(front), last.event, last.clock);
    }
  }

  lemma NoNames()
    ensures NamesInv(EMPTY_BOOKS.members)
  {
  }

  /** In every state of every run, an enabled member who types the right username and password is let in: a well-formed
      login is answered with a code as long as the username is not locked out, a slot is free and the random source
      works. */
  lemma OwnersLogIn(steps: seq<Step>, i: nat, d: Auth.Desk, password: string, pkce: string, redirect: string, now: nat,
                    secret: string)
    requires ValidRun(steps) && i < |After(steps).members| && d.Sized()
    requires var m := After(steps).members[i];
             && !m.disabled && m.password.Some?
             && m.password.value.key == OfPassword(password, m.password.value.salt, m.password.value.rounds)
             && !Auth.LockedOut(d.failures, OfText(m.username), now)
    requires Auth.WellFormed(pkce, "S256", redirect)
    requires exists k :: 0 <= k < |d.codes| && Auth.Stale(d.codes[k], now)
    ensures Auth.Authorize(d, After(steps), After(steps).members[i].username, password, pkce, "S256", redirect, now,
                           Some(secret)).1
            == Success(secret)
  {
    hide After, Auth.Authorize, Auth.LockedOut, Auth.UserNamed;
    RunsKeepNames(steps);
    var b := After(steps);
    NamedAlone(b, i);
    Auth.LoginAnswers(d, b, b.members[i].username, password, pkce, "S256", redirect, now, Some(secret));
  }

  lemma NamedAlone(b: Books, i: nat)
    requires NamesInv(b.members) && i < |b.members| && b.members[i].password.Some?
    ensures Auth.UserNamed(b, b.members[i].username) == Some(i)
  {
  }
}
