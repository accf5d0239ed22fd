/** The message store: accounts, sessions and a ring of encrypted messages, over whole runs. */
module Mailroom {
  import opened Wrappers
  import opened Rijndael
  import opened Ctr
  import opened Secrets

  const MAX_MESSAGES: nat := 50
  const MAX_BODY: nat := 1000
  const SESSION_MS: nat := 60 * 60 * 1000
  const RESTRICTED := "restricted"
  const EVERYONE := "*"

  datatype Message = Message(id: nat, sender: string, visibility: string, recipients: seq<string>, subject: string,
                             nonce: Nonce, ciphertext: Bytes, keys: map<string, Block>)

  datatype Session = Session(user: string, key: Block, seen: nat)

  datatype Store = Store(users: map<string, User>, messages: seq<Message>, sessions: map<string, Session>, nextId: nat)

  const EMPTY := Store(map[], [], map[], 1)

  // ---- Operations ----

  predicate Expired(session: Session, now: nat) {
    now > session.seen + SESSION_MS
  }

  /** `login`: a wrong name or password changes nothing; a right one opens a session and drops the expired. */
  function Login(sha: Hash, s: Store, name: string, password: string, token: string, now: nat): (Store, Option<string>)
    requires IsHash(sha)
  {
    if name !in s.users then (s, None)
    else
      match UnwrapKey(sha, s.users[name], password)
      case None => (s, None)
      case Some(key) =>
        var added := s.sessions[token := Session(name, key, now)];
        (s.(sessions := map t | t in added && !Expired(added[t], now) :: added[t]), Some(token))
  }

  function Logout(s: Store, token: string): Store {
    s.(sessions := s.sessions - {token})
  }

  /** `session`: an expired one is dropped, a live one stays alive. */
  function Visit(s: Store, token: string, now: nat): (Store, Option<Session>) {
    if token == "" || token !in s.sessions then (s, None)
    else if Expired(s.sessions[token], now) then (Logout(s, token), None)
    else
      var session := s.sessions[token].(seen := now);
      (s.(sessions := s.sessions[token := session]), Some(session))
  }

  function Trimmed(body: string): string {
    if |body| > MAX_BODY then body[..MAX_BODY] else body
  }

  /** The body key wrapped for each known reader, or left open for everyone. */
  function KeysFor(users: map<string, User>, sender: string, visibility: string, recipients: seq<string>,
                   bodyKey: Block)
    : map<string, Block>
  {
    if visibility == RESTRICTED
    then map n | n in users && (n in recipients || n == sender) :: Wrap(bodyKey, users[n].userKey)
    else map[EVERYONE := bodyKey]
  }

  /** The newest fifty. */
  function Ring<T>(all: seq<T>): (r: seq<T>)
    ensures |r| == Min(|all|, MAX_MESSAGES)
  {
    if |all| > MAX_MESSAGES then all[|all| - MAX_MESSAGES..] else all
  }

  ghost function Post(s: Store, sender: string, visibility: string, recipients: seq<string>, subject: string,
                      body: string, bodyKey: Block, nonce: Nonce): (Store, Message)
  {
    var m := Message(s.nextId, sender, visibility, recipients, subject, nonce,
                     EncryptBody(Trimmed(body), bodyKey, nonce),
                     KeysFor(s.users, sender, visibility, recipients, bodyKey));
    (s.(messages := Ring(s.messages + [m]), nextId := s.nextId + 1), m)
  }

  /** The body key this session can recover for a message. */
  function BodyKeyFor(m: Message, session: Session): Option<Block> {
    if EVERYONE in m.keys then Some(m.keys[EVERYONE])
    else if session.user !in m.keys then None
    else Some(Wrap(m.keys[session.user], session.key))
  }

  /** What a session may read, newest first, each with its key. */
  function Readable(messages: seq<Message>, session: Session): seq<(Message, Block)> {
    if messages == [] then []
    else
      var last := messages[|messages| - 1];
      (match BodyKeyFor(last, session) case None => [] case Some(key) => [(last, key)])
      + Readable(messages[..|messages| - 1], session)
  }

  // ---- Runs ----

  datatype Act =
    | Adding(name: string, password: string, display: string, handle: string, salt: Bytes, userKey: Block)
    | LoggingIn(name: string, password: string, token: string, now: nat)
    | LoggingOut(token: string)
    | Visiting(token: string, now: nat)
    | Posting(sender: string, visibility: string, recipients: seq<string>, subject: string, body: string,
              bodyKey: Block, nonce: Nonce)

  ghost function Next(sha: Hash, s: Store, a: Act): Store
    requires IsHash(sha)
  {
    match a
    case Adding(name, password, display, handle, salt, userKey) =>
      s.(users := s.users[name := NewUser(sha, name, password, display, handle, salt, userKey)])
    case LoggingIn(name, password, token, now) => Login(sha, s, name, password, token, now).0
    case LoggingOut(token) => Logout(s, token)
    case Visiting(token, now) => Visit(s, token, now).0
    case Posting(sender, visibility, recipients, subject, body, bodyKey, nonce) =>
      Post(s, sender, visibility, recipients, subject, body, bodyKey, nonce).0
  }

  ghost function After(sha: Hash, acts: seq<Act>): Store
    requires IsHash(sha)
  {
    if acts == [] then EMPTY else Next(sha, After(sha, acts[..|acts| - 1]), acts[|acts| - 1])
  }

  /** A post as its author meant it: who may read it, and the words that were kept. */
  datatype Letter = Letter(id: nat, sender: string, subject: string, open: bool, readers: set<string>, text: string)

  /** The accounts that exist after a run. */
  function Names(acts: seq<Act>): set<string> {
    if acts == [] then {}
    else Names(acts[..|acts| - 1]) + if acts[|acts| - 1].Adding? then {acts[|acts| - 1].name} else {}
  }

  function LetterOf(names: set<string>, a: Act, id: nat): Letter
    requires a.Posting?
  {
    Letter(id, a.sender, a.subject, a.visibility != RESTRICTED,
           (set n | n in names && (n in a.recipients || n == a.sender)),
           if |a.body| > 1000 then a.body[..1000] else a.body)
  }

  /** Every letter ever posted, numbered from 1. */
  function Letters(acts: seq<Act>): seq<Letter> {
    if acts == [] then []
    else
      var front, a := acts[..|acts| - 1], acts[|acts| - 1];
      Letters(front) + if a.Posting? then [LetterOf(Names(front), a, |Letters(front)| + 1)] else []
  }

  /** What a page shows of a letter. */
  datatype Page = Page(id: nat, sender: string, subject: string, text: string)

  function PageOf(l: Letter): Page {
    Page(l.id, l.sender, l.subject, l.text)
  }

  /** The letters a user may read, newest first. */
  function Inbox(letters: seq<Letter>, user: string): seq<Page> {
    if letters == [] then []
    else
      var last := letters[|letters| - 1];
      (if last.open || user in last.readers then [PageOf(last)] else []) + Inbox(letters[..|letters| - 1], user)
  }

  function NewestFifty(letters: seq<Letter>): seq<Letter> {
    if |letters| <= 50 then letters else letters[|letters| - 50..]
  }

  ghost function Shown(m: Message, key: Block): Page {
    Page(m.id, m.sender, m.subject, DecryptBody(m.ciphertext, key, m.nonce))
  }

  ghost function Pages(list: seq<(Message, Block)>): seq<Page> {
    if list == [] then [] else [Shown(list[0].0, list[0].1)] + Pages(list[1..])
  }

  // ---- The run invariant ----

  /** No account is made twice, and none is named like the public key. */
  ghost predicate DistinctNames(acts: seq<Act>) {
    acts != [] ==>
      && DistinctNames(acts[..|acts| - 1])
      && (acts[|acts| - 1].Adding? ==>
            acts[|acts| - 1].name !in Names(acts[..|acts| - 1]) && acts[|acts| - 1].name != EVERYONE)
  }

  /** A message is its letter, locked for exactly its readers. */
  ghost predicate Carries(users: map<string, User>, m: Message, l: Letter, bodyKey: Block) {
    && m.id == l.id && m.sender == l.sender && m.subject == l.subject
    && m.ciphertext == EncryptBody(l.text, bodyKey, m.nonce)
    && if l.open then m.keys == map[EVERYONE := bodyKey]
       else
         && m.keys.Keys == l.readers && EVERYONE !in l.readers
         && forall n :: n in l.readers ==> n in users && m.keys[n] == Wrap(bodyKey, users[n].userKey)
  }

  ghost predicate Delivers(users: map<string, User>, m: Message, l: Letter) {
    exists bodyKey: Block :: Carries(users, m, l, bodyKey)
  }

  ghost predicate AllDeliver(users: map<string, User>, messages: seq<Message>, letters: seq<Letter>) {
    |messages| == |letters| && forall i :: 0 <= i < |messages| ==> Delivers(users, messages[i], letters[i])
  }

  ghost predicate Holds(s: Store, names: set<string>, letters: seq<Letter>) {
    && s.users.Keys == names && EVERYONE !in names
    && s.nextId == |letters| + 1
    && AllDeliver(s.users, s.messages, Ring(letters))
  }

  ghost predicate StoreInv(s: Store, acts: seq<Act>) {
    Holds(s, Names(acts), Letters(acts))
  }

  // ---- Each act keeps the invariant ----

  lemma AddedCarries(users: map<string, User>, name: string, user: User, m: Message, l: Letter)
    requires Delivers(users, m, l) && name !in users
    ensures Delivers(users[name := user], m, l)
  {
    hide EncryptBody, Wrap;
    var bodyKey: Block :| Carries(users, m, l, bodyKey);
    if !l.open {
      forall n | n in l.readers ensures n in users[name := user] && users[name := user][n] == users[n] {
        assert n in users;
      }
    }
    assert Carries(users[name := user], m, l, bodyKey);
  }

  lemma AddedDelivers(users: map<string, User>, name: string, user: User, messages: seq<Message>, letters: seq<Letter>)
    requires AllDeliver(users, messages, letters) && name !in users
    ensures AllDeliver(users[name := user], messages, letters)
  {
    hide Delivers;
    forall i | 0 <= i < |messages| ensures Delivers(users[name := user], messages[i], letters[i]) {
      AddedCarries(users, name, user, messages[i], letters[i]);
    }
  }

  lemma PostedDelivers(s: Store, names: set<string>, id: nat, a: Act)
    requires s.users.Keys == names && EVERYONE !in names && s.nextId == id && a.Posting?
    ensures Delivers(s.users, Post(s, a.sender, a.visibility, a.recipients, a.subject, a.body, a.bodyKey, a.nonce).1,
                     LetterOf(names, a, id))
  {
    hide EncryptBody;
    var m := Post(s, a.sender, a.visibility, a.recipients, a.subject, a.body, a.bodyKey, a.nonce).1;
    assert Carries(s.users, m, LetterOf(names, a, id), a.bodyKey);
  }

  lemma RingAppend<T>(all: seq<T>, x: T)
    ensures Ring(Ring(all) + [x]) == Ring(all + [x])
  {
  }

  lemma RingDelivers(users: map<string, User>, messages: seq<Message>, letters: seq<Letter>, m: Message, l: Letter)
    requires AllDeliver(users, messages, letters) && Delivers(users, m, l)
    ensures AllDeliver(users, Ring(messages + [m]), Ring(letters + [l]))
  {
    hide Delivers;
  }

  lemma PostKeeps(s: Store, names: set<string>, letters: seq<Letter>, a: Act)
    requires Holds(s, names, letters) && a.Posting?
    ensures Holds(Post(s, a.sender, a.visibility, a.recipients, a.subject, a.body, a.bodyKey, a.nonce).0, names,
                  letters + [LetterOf(names, a, |letters| + 1)])
  {
    var m := Post(s, a.sender, a.visibility, a.recipients, a.subject, a.body, a.bodyKey, a.nonce).1;
    var l := LetterOf(names, a, |letters| + 1);
    PostedDelivers(s, names, |letters| + 1, a);
    hide Delivers, EncryptBody, KeysFor, LetterOf, AllDeliver, Ring;
    RingDelivers(s.users, s.messages, Ring(letters), m, l);
    RingAppend(letters, l);
  }

  lemma PostTouches(s: Store, a: Act)
    requires a.Posting?
    ensures var s' := Post(s, a.sender, a.visibility, a.recipients, a.subject, a.body, a.bodyKey, a.nonce).0;
            s'.users == s.users && s'.sessions == s.sessions
  {
  }

  /** How one more act extends the accounts and the letters. */
  lemma OneMore(acts: seq<Act>, a: Act)
    ensures Names(acts + [a]) == Names(acts) + if a.Adding? then {a.name} else {}
    ensures Letters(acts + [a]) ==
              Letters(acts) + if a.Posting? then [LetterOf(Names(acts), a, |Letters(acts)| + 1)] else []
    ensures DistinctNames(acts + [a]) && a.Adding? ==> a.name !in Names(acts) && a.name != EVERYONE
  {
    assert (acts + [a])[..|acts|] == acts;
  }

  lemma AddKeeps(s: Store, names: set<string>, letters: seq<Letter>, name: string, user: User)
    requires Holds(s, names, letters) && name !in names && name != EVERYONE
    ensures Holds(s.(users := s.users[name := user]), names + {name}, letters)
  {
    hide Ring, AllDeliver;
    AddedDelivers(s.users, name, user, s.messages, Ring(letters));
  }

  /** Logging in or out and visiting change nothing but sessions. */
  lemma SessionsOnly(sha: Hash, s: Store, a: Act)
    requires IsHash(sha) && !a.Adding? && !a.Posting?
    ensures Next(sha, s, a) == s.(sessions := Next(sha, s, a).sessions)
  {
    hide UnwrapKey;
  }

  lemma NextKeeps(sha: Hash, s: Store, acts: seq<Act>, a: Act)
    requires IsHash(sha) && StoreInv(s, acts) && DistinctNames(acts + [a])
    ensures StoreInv(Next(sha, s, a), acts + [a])
  {
    OneMore(acts, a);
    var names, letters := Names(acts), Letters(acts);
    assert letters + [] == letters && names + {} == names;
    hide Names, Letters, LetterOf, DistinctNames, NewUser, Post;
    if a.Posting? {
      PostKeeps(s, names, letters, a);
    } else if a.Adding? {
      AddKeeps(s, names, letters, a.name, NewUser(sha, a.name, a.password, a.display, a.handle, a.salt, a.userKey));
    } else {
      SessionsOnly(sha, s, a);
    }
  }

  /** After every run the store holds the newest fifty letters, each locked for exactly its readers. */
  lemma {:induction false} RunsKeepStore(sha: Hash, acts: seq<Act>)
    requires IsHash(sha) && DistinctNames(acts)
    ensures StoreInv(After(sha, acts), acts)
  {
    hide Next, StoreInv;
    if acts == [] {
      EmptyStore();
    } else {
      var front, a := acts[..|acts| - 1], acts[|acts| - 1];
      RunsKeepStore(sha, front);
      assert acts == front + [a];
      NextKeeps(sha, After(sha, front), front, a);
    }
  }

  lemma EmptyStore()
    ensures StoreInv(EMPTY, [])
  {
  }

  // ---- Reading ----

  /** The session carries its own user's key. */
  ghost predicate Fits(s: Store, session: Session) {
    session.user in s.users && session.key == s.users[session.user].userKey
  }

  /** A fitting session recovers a message's key exactly when its letter is for the user, and then reads its words. */
  lemma LetterIsRead(s: Store, session: Session, m: Message, l: Letter)
    requires Fits(s, session) && Delivers(s.users, m, l)
    ensures BodyKeyFor(m, session).Some? <==> l.open || session.user in l.readers
    ensures BodyKeyFor(m, session).Some? ==> Shown(m, BodyKeyFor(m, session).value) == PageOf(l)
  {
    var bodyKey: Block :| Carries(s.users, m, l, bodyKey);
    UnwrapUndoesWrap(bodyKey, session.key);
    BodyRoundTrip(l.text, bodyKey, m.nonce);
    hide EncryptBody, DecryptBody, Wrap;
  }

  lemma {:induction false} ReadableIsInbox(s: Store, session: Session, messages: seq<Message>, letters: seq<Letter>)
    requires Fits(s, session) && AllDeliver(s.users, messages, letters)
    ensures Pages(Readable(messages, session)) == Inbox(letters, session.user)
    decreases |messages|
  {
    if messages != [] {
      var n := |messages| - 1;
      hide Delivers, BodyKeyFor, Fits, Shown;
      ReadableIsInbox(s, session, messages[..n], letters[..n]);
      LetterIsRead(s, session, messages[n], letters[n]);
      var rest := Readable(messages[..n], session);
      if BodyKeyFor(messages[n], session).Some? {
        var first := (messages[n], BodyKeyFor(messages[n], session).value);
        assert ([first] + rest)[1..] == rest;
      } else {
        assert [] + rest == rest;
        assert [] + Inbox(letters[..n], session.user) == Inbox(letters[..n], session.user);
      }
    }
  }

  // ---- Sessions ----

  /** The account an act made is still that account after any later run. */
  lemma {:induction false} AccountStands(sha: Hash, acts: seq<Act>, a: nat)
    requires IsHash(sha) && DistinctNames(acts) && a < |acts| && acts[a].Adding?
    ensures var c := acts[a];
            c.name in After(sha, acts).users
            && After(sha, acts).users[c.name] ==
                 NewUser(sha, c.name, c.password, c.display, c.handle, c.salt, c.userKey)
  {
    hide NewUser, UnwrapKey, Post;
    var front, last := acts[..|acts| - 1], acts[|acts| - 1];
    if a < |front| {
      assert front[a] == acts[a];
      AccountStands(sha, front, a);
      AddedIsNamed(front, a);
      if last.Posting? {
        PostTouches(After(sha, front), last);
      }
    }
  }

  lemma {:induction false} AddedIsNamed(acts: seq<Act>, a: nat)
    requires a < |acts| && acts[a].Adding?
    ensures acts[a].name in Names(acts)
  {
    if a < |acts| - 1 {
      AddedIsNamed(acts[..|acts| - 1], a);
    }
  }

  /** Logging in with the account's own password opens a session that carries the user's key. */
  lemma LoginFits(sha: Hash, s: Store, c: Act, token: string, now: nat)
    requires IsHash(sha) && c.Adding? && c.name in s.users
    requires s.users[c.name] == NewUser(sha, c.name, c.password, c.display, c.handle, c.salt, c.userKey)
    ensures var (s', r) := Login(sha, s, c.name, c.password, token, now);
            r == Some(token) && s'.users == s.users && token in s'.sessions
            && s'.sessions[token].user == c.name && Fits(s', s'.sessions[token])
  {
    RightPasswordUnwraps(sha, c.name, c.password, c.display, c.handle, c.salt, c.userKey);
    hide Derive, Verifier, Wrap, UnwrapKey;
    NewUserKeeps(sha, c);
  }

  lemma NewUserKeeps(sha: Hash, c: Act)
    requires IsHash(sha) && c.Adding?
    ensures var u := NewUser(sha, c.name, c.password, c.display, c.handle, c.salt, c.userKey);
            && u.name == c.name && u.display == c.display && u.handle == c.handle && u.salt == c.salt
            && u.userKey == c.userKey
  {
  }

  /** The login gives a password whose verifier is the account's. */
  ghost predicate Matches(sha: Hash, users: map<string, User>, login: Act)
    requires IsHash(sha) && login.LoggingIn?
  {
    && login.name in users
    && Verifier(sha, Derive(sha, login.password, users[login.name].salt)) == users[login.name].pwHash
  }

  lemma LoginAnswers(sha: Hash, s: Store, login: Act)
    requires IsHash(sha) && login.LoggingIn?
    ensures var (s', r) := Login(sha, s, login.name, login.password, login.token, login.now);
            && (r.Some? <==> Matches(sha, s.users, login))
            && (r.None? ==> s' == s)
  {
    hide Derive, Verifier, Wrap;
  }

  /** After any run, a login to an account is refused, and changes nothing, exactly if the verifier of the password
      tried
      is not that of the password the account was made with. */
  lemma WrongPasswordsAreRefused(sha: Hash, acts: seq<Act>, a: nat, attempt: string, token: string, now: nat)
    requires IsHash(sha) && DistinctNames(acts) && a < |acts| && acts[a].Adding?
    ensures var (s, c) := (After(sha, acts), acts[a]);
            var (s', r) := Login(sha, s, c.name, attempt, token, now);
            && (r.None? <==>
                  Verifier(sha, Derive(sha, attempt, c.salt)) != Verifier(sha, Derive(sha, c.password, c.salt)))
            && (r.None? ==> s' == s)
  {
    AccountStands(sha, acts, a);
    var c := acts[a];
    OthersAreRefused(sha, c.name, c.password, c.display, c.handle, c.salt, c.userKey, attempt);
    hide After, Derive, Verifier, Wrap, NewUser, UnwrapKey;
  }

  /** Act `l` opened this session, with a password that matched, and nobody logged it out since. */
  ghost predicate OpenedAt(sha: Hash, acts: seq<Act>, token: string, session: Session, l: nat)
    requires IsHash(sha)
  {
    && l < |acts| && acts[l].LoggingIn? && acts[l].token == token && acts[l].name == session.user
    && Matches(sha, After(sha, acts[..l]).users, acts[l])
    && forall k :: l < k < |acts| ==> acts[k] != LoggingOut(token)
  }

  /** Every session of every run was opened by a login whose password matched its account's, and not logged out since.
      */
  lemma {:induction false} SessionsAreEarned(sha: Hash, acts: seq<Act>, token: string) returns (l: nat)
    requires IsHash(sha) && token in After(sha, acts).sessions
    ensures OpenedAt(sha, acts, token, After(sha, acts).sessions[token], l)
  {
    hide NewUser, UnwrapKey, Post, Matches;
    var front, last := acts[..|acts| - 1], acts[|acts| - 1];
    var s := After(sha, front);
    if last.LoggingIn? {
      LoginAnswers(sha, s, last);
    }
    if last.LoggingIn? && last.token == token && Matches(sha, s.users, last) {
      l := |acts| - 1;
      NewSession(sha, s, last);
    } else {
      OtherSessions(sha, s, last, token);
      l := SessionsAreEarned(sha, front, token);
      assert acts[..l] == front[..l];
    }
  }

  lemma NewSession(sha: Hash, s: Store, a: Act)
    requires IsHash(sha) && a.LoggingIn? && a.token in Next(sha, s, a).sessions && Matches(sha, s.users, a)
    ensures Next(sha, s, a).sessions[a.token].user == a.name && Next(sha, s, a).sessions[a.token].seen == a.now
  {
    hide Derive, Verifier, Wrap;
  }

  lemma OtherSessions(sha: Hash, s: Store, a: Act, token: string)
    requires IsHash(sha) && token in Next(sha, s, a).sessions
    requires !(a.LoggingIn? && a.token == token && Matches(sha, s.users, a))
    ensures token in s.sessions && Next(sha, s, a).sessions[token].user == s.sessions[token].user
    ensures a != LoggingOut(token)
  {
    if a.LoggingIn? {
      LoginAnswers(sha, s, a);
    }
    hide NewUser, UnwrapKey, Post, Matches;
    if a.Posting? {
      PostTouches(s, a);
    }
  }

  // ---- How long sessions last ----

  /** When a session was last used, since the login that opened it. */
  function LastUse(acts: seq<Act>, l: nat): nat
    requires l < |acts| && acts[l].LoggingIn?
  {
    var last := |acts| - 1;
    if l == last then acts[l].now
    else if acts[last].Visiting? && acts[last].token == acts[l].token then acts[last].now
    else LastUse(acts[..last], l)
  }

  /** Nobody logs the session out or its token in again, and no act that looks at it finds it unused for over an hour.
      */
  predicate KeptUp(acts: seq<Act>, l: nat)
    requires l < |acts| && acts[l].LoggingIn?
    decreases |acts|
  {
    var last := |acts| - 1;
    l == last
    || (KeptUp(acts[..last], l)
        && match acts[last]
           case LoggingOut(token) => token != acts[l].token
           case LoggingIn(_, _, token, now) => token != acts[l].token && now <= LastUse(acts[..last], l) + 3_600_000
           case Visiting(token, now) => token == acts[l].token ==> now <= LastUse(acts[..last], l) + 3_600_000
           case _ => true)
  }

  /** A session used at least once an hour is never lost. */
  lemma {:induction false} SessionsLast(sha: Hash, acts: seq<Act>, l: nat)
    requires IsHash(sha) && l < |acts| && acts[l].LoggingIn? && acts[l].token != ""
    requires Matches(sha, After(sha, acts[..l]).users, acts[l]) && KeptUp(acts, l)
    ensures var s := After(sha, acts);
            acts[l].token in s.sessions && s.sessions[acts[l].token].seen == LastUse(acts, l)
  {
    hide Matches, NewUser, UnwrapKey, Post;
    var last := |acts| - 1;
    var s := After(sha, acts[..last]);
    if l == last {
      LoginOpens(sha, s, acts[l]);
    } else {
      assert acts[..last][..l] == acts[..l];
      SessionsLast(sha, acts[..last], l);
      SessionStays(sha, s, acts[last], acts[l].token);
    }
  }

  lemma LoginOpens(sha: Hash, s: Store, a: Act)
    requires IsHash(sha) && a.LoggingIn? && Matches(sha, s.users, a)
    ensures a.token in Next(sha, s, a).sessions && Next(sha, s, a).sessions[a.token].seen == a.now
  {
    hide Derive, Verifier, Wrap;
  }

  /** One act on a session it does not end. */
  lemma SessionStays(sha: Hash, s: Store, a: Act, token: string)
    requires IsHash(sha) && token in s.sessions && token != ""
    requires a.LoggingOut? ==> a.token != token
    requires a.LoggingIn? ==> a.token != token && a.now <= s.sessions[token].seen + 3_600_000
    requires a.Visiting? && a.token == token ==> a.now <= s.sessions[token].seen + 3_600_000
    ensures token in Next(sha, s, a).sessions
    ensures Next(sha, s, a).sessions[token].seen ==
            if a.Visiting? && a.token == token then a.now else s.sessions[token].seen
  {
    hide NewUser, UnwrapKey, Post;
    if a.Posting? {
      PostTouches(s, a);
    }
  }

  /** A login that succeeds leaves no session that was unused for over an hour. */
  lemma LoginsReap(sha: Hash, s: Store, a: Act, token: string)
    requires IsHash(sha) && a.LoggingIn? && Matches(sha, s.users, a) && token in Next(sha, s, a).sessions
    ensures a.now <= Next(sha, s, a).sessions[token].seen + 3_600_000
  {
    hide Derive, Verifier, Wrap;
  }

  /** A visit is answered exactly while the session was used within the hour, and then counts as a use. */
  lemma VisitsAreAnswered(s: Store, token: string, now: nat)
    requires token != ""
    ensures var (s', r) := Visit(s, token, now);
            && (r.Some? <==> token in s.sessions && now <= s.sessions[token].seen + 3_600_000)
            && (r.Some? ==>
                  && s' == s.(sessions := s.sessions[token := r.value])
                  && r.value == s.sessions[token].(seen := now))
            && (r.None? ==> s'.sessions == s.sessions - {token})
  {
    assert token !in s.sessions ==> s.sessions - {token} == s.sessions;
  }

  /** While it lasts, a session opened with the right password keeps its user and its key. */
  lemma {:induction false} SessionStands(sha: Hash, acts: seq<Act>, a: nat, l: nat)
    requires IsHash(sha) && DistinctNames(acts) && a < l < |acts| && acts[a].Adding? && acts[l].LoggingIn?
    requires acts[l].name == acts[a].name && acts[l].password == acts[a].password
    requires forall k :: l < k < |acts| ==> !(acts[k].LoggingIn? && acts[k].token == acts[l].token)
    requires acts[l].token in After(sha, acts).sessions
    ensures var session := After(sha, acts).sessions[acts[l].token];
            session.user == acts[a].name && session.key == acts[a].userKey
  {
    var front := acts[..|acts| - 1];
    assert forall k :: 0 <= k < |front| ==> front[k] == acts[k];
    if l == |acts| - 1 {
      AccountStands(sha, front, a);
      LoginFits(sha, After(sha, front), acts[a], acts[l].token, acts[l].now);
      NewUserKeeps(sha, acts[a]);
    } else {
      TokenKept(sha, After(sha, front), acts[|acts| - 1], acts[l].token);
      SessionStands(sha, front, a, l);
    }
  }

  /** No act but a login with its own token gives a session another user or key. */
  lemma TokenKept(sha: Hash, s: Store, a: Act, token: string)
    requires IsHash(sha) && !(a.LoggingIn? && a.token == token) && token in Next(sha, s, a).sessions
    ensures token in s.sessions
    ensures Next(sha, s, a).sessions[token].user == s.sessions[token].user
    ensures Next(sha, s, a).sessions[token].key == s.sessions[token].key
  {
    hide NewUser, UnwrapKey, Post;
    if a.Posting? {
      PostTouches(s, a);
    }
  }

  /** End to end: a session opened with the account's password shows, newest first, exactly the held letters that
      are public or for that user, each with the first 1000 characters of the words its author posted. */
  lemma InboxIsExact(sha: Hash, acts: seq<Act>, a: nat, l: nat)
    requires IsHash(sha) && DistinctNames(acts) && a < l < |acts| && acts[a].Adding? && acts[l].LoggingIn?
    requires acts[l].name == acts[a].name && acts[l].password == acts[a].password
    requires forall k :: l < k < |acts| ==> !(acts[k].LoggingIn? && acts[k].token == acts[l].token)
    requires acts[l].token in After(sha, acts).sessions
    ensures var s := After(sha, acts);
            Pages(Readable(s.messages, s.sessions[acts[l].token])) == Inbox(NewestFifty(Letters(acts)), acts[a].name)
  {
    RunsKeepStore(sha, acts);
    AccountStands(sha, acts, a);
    SessionStands(sha, acts, a, l);
    NewUserKeeps(sha, acts[a]);
    hide After, NewUser, Letters, Names, AllDeliver;
    var s := After(sha, acts);
    ReadableIsInbox(s, s.sessions[acts[l].token], s.messages, Ring(Letters(acts)));
  }
}
