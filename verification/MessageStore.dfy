/** The store in place: its dictionaries and its list change under the methods; randomness and clocks are arguments. */
module MessageStore {
  import opened Wrappers
  import opened Rijndael
  import opened Ctr
  import opened Secrets
  import opened Mailroom

  lemma {:induction false} EncodingIsShort(text: seq<Utf8.Scalar>)
    ensures |Utf8.EncodeAll(text)| <= 4 * |text|
  {
    if text != [] {
      EncodingIsShort(text[1..]);
    }
  }

  lemma OneReadable(list: seq<(Message, Block)>, messages: seq<Message>, i: nat, session: Session)
    requires i < |messages|
    ensures list + Readable(messages[..i + 1], session)
            == match BodyKeyFor(messages[i], session)
               case None => list + Readable(messages[..i], session)
               case Some(key) => list + [(messages[i], key)] + Readable(messages[..i], session)
  {
    hide BodyKeyFor;
    assert messages[..i + 1][..i] == messages[..i];
    var rest := Readable(messages[..i], session);
    assert [] + rest == rest;
    if BodyKeyFor(messages[i], session).Some? {
      var first := (messages[i], BodyKeyFor(messages[i], session).value);
      assert list + ([first] + rest) == list + [first] + rest;
    }
  }

  lemma NoneReadable(list: seq<(Message, Block)>, messages: seq<Message>, session: Session)
    requires messages == []
    ensures list + Readable(messages, session) == list
  {
  }

  class MessageStore {
    const sha: Hash
    var users: map<string, User>
    var messages: seq<Message>
    var sessions: map<string, Session>
    var nextId: nat

    /** Everything done to the store so far. */
    ghost var acts: seq<Act>

    ghost function Value(): Store
      reads this
    {
      Store(users, messages, sessions, nextId)
    }

    ghost predicate Valid()
      reads this
    {
      IsHash(sha) && Value() == After(sha, acts)
    }

    constructor (sha: Hash)
      requires IsHash(sha)
      ensures Valid() && acts == [] && this.sha == sha
    {
      this.sha := sha;
      users, messages, sessions, nextId, acts := map[], [], map[], 1, [];
    }

    ghost method Did(a: Act)
      requires IsHash(sha) && Value() == Next(sha, After(sha, acts), a)
      modifies this`acts
      ensures Valid() && acts == old(acts) + [a]
    {
      assert (acts + [a])[..|acts|] == acts;
      acts := acts + [a];
    }

    method AddUser(name: string, password: string, display: string, handle: string, salt: Bytes, userKey: Block)
      requires Valid()
      modifies this
      ensures Valid() && acts == old(acts) + [Adding(name, password, display, handle, salt, userKey)]
    {
      hide After, Derive, Verifier, Wrap;
      var mask := DeriveMask(sha, password, salt);
      var user := User(name, display, handle, salt, Verifier(sha, mask), userKey, Wrap(userKey, mask));
      users := users[name := user];
      Did(Adding(name, password, display, handle, salt, userKey));
    }

    method LogIn(name: string, password: string, token: string, now: nat) returns (r: Option<string>)
      requires Valid()
      modifies this
      ensures Valid() && acts == old(acts) + [LoggingIn(name, password, token, now)]
      ensures (Value(), r) == Login(sha, old(Value()), name, password, token, now)
    {
      hide After, Derive, Verifier, Wrap;
      r := None;
      if name in users {
        var user := users[name];
        var mask := DeriveMask(sha, password, user.salt);
        if Verifier(sha, mask) == user.pwHash {
          sessions := sessions[token := Session(name, Wrap(user.wrappedKey, mask), now)];
          sessions := map t | t in sessions && !Expired(sessions[t], now) :: sessions[t];
          r := Some(token);
        }
      }
      Did(LoggingIn(name, password, token, now));
    }

    method LogOut(token: string)
      requires Valid()
      modifies this
      ensures Valid() && acts == old(acts) + [LoggingOut(token)]
      ensures Value() == Logout(old(Value()), token)
    {
      hide After;
      sessions := sessions - {token};
      Did(LoggingOut(token));
    }

    method CheckSession(token: string, now: nat) returns (r: Option<Session>)
      requires Valid()
      modifies this
      ensures Valid() && acts == old(acts) + [Visiting(token, now)]
      ensures (Value(), r) == Visit(old(Value()), token, now)
    {
      hide After;
      r := None;
      if token != "" && token in sessions {
        if Expired(sessions[token], now) {
          sessions := sessions - {token};
        } else {
          sessions := sessions[token := sessions[token].(seen := now)];
          r := Some(sessions[token]);
        }
      }
      Did(Visiting(token, now));
    }

    /** The body key under the key of each of the first readers who has an account. */
    method WrapKeys(names: seq<string>, bodyKey: Block) returns (keys: map<string, Block>)
      ensures keys == map n | n in users && n in names :: Wrap(bodyKey, users[n].userKey)
    {
      hide Wrap;
      keys := map[];
      for i := 0 to |names|
        invariant keys == map n | n in users && n in names[..i] :: Wrap(bodyKey, users[n].userKey)
      {
        assert names[..i + 1] == names[..i] + [names[i]];
        if names[i] in users {
          keys := keys[names[i] := Wrap(bodyKey, users[names[i]].userKey)];
        }
      }
      assert names[..|names|] == names;
    }

    method EncryptText(text: string, key: Block, nonce: Nonce) returns (ciphertext: Bytes)
      requires |text| <= MAX_BODY
      ensures ciphertext == EncryptBody(text, key, nonce)
    {
      hide Crypt;
      EncodingIsShort(Scalars(text));
      var r := AesCtr(key, nonce, EncodeText(text));
      ciphertext := r.value;
    }

    method PostMessage(sender: string, visibility: string, recipients: seq<string>, subject: string, body: string,
                       bodyKey: Block, nonce: Nonce) returns (m: Message)
      requires Valid()
      modifies this
      ensures Valid() && acts == old(acts) + [Posting(sender, visibility, recipients, subject, body, bodyKey, nonce)]
      ensures (Value(), m) == Post(old(Value()), sender, visibility, recipients, subject, body, bodyKey, nonce)
    {
      hide After, EncryptBody, Wrap;
      var ciphertext := EncryptText(if |body| > MAX_BODY then body[..MAX_BODY] else body, bodyKey, nonce);
      var keys: map<string, Block> := map[EVERYONE := bodyKey];
      if visibility == RESTRICTED {
        keys := WrapKeys(recipients + [sender], bodyKey);
      }
      assert keys == KeysFor(users, sender, visibility, recipients, bodyKey);
      m := Message(nextId, sender, visibility, recipients, subject, nonce, ciphertext, keys);
      nextId := nextId + 1;
      Enqueue(m);
      Did(Posting(sender, visibility, recipients, subject, body, bodyKey, nonce));
    }

    /** Appends, then drops from the front while there are too many. */
    method Enqueue(m: Message)
      modifies this`messages
      ensures messages == Ring(old(messages) + [m])
    {
      messages := messages + [m];
      ghost var all := messages;
      while |messages| > MAX_MESSAGES
        invariant |messages| <= |all| && messages == all[|all| - |messages|..]
        invariant |all| > MAX_MESSAGES ==> |messages| >= MAX_MESSAGES
        invariant |all| <= MAX_MESSAGES ==> messages == all
        decreases |messages|
      {
        messages := messages[1..];
      }
    }

    /** Walks the ring from the newest message to the oldest. */
    method ListReadable(session: Session) returns (list: seq<(Message, Block)>)
      ensures list == Readable(messages, session)
    {
      hide BodyKeyFor, Readable;
      list := [];
      var i := |messages|;
      assert messages[..i] == messages;
      while i > 0
        invariant 0 <= i <= |messages|
        invariant list + Readable(messages[..i], session) == Readable(messages, session)
      {
        i := i - 1;
        OneReadable(list, messages, i, session);
        var key := BodyKeyFor(messages[i], session);
        if key.Some? {
          list := list + [(messages[i], key.value)];
        }
      }
      NoneReadable(list, messages[..i], session);
    }

    method Decrypt(m: Message, key: Block) returns (text: string)
      requires |m.ciphertext| <= 16 * MAX_BLOCKS
      ensures text == DecryptBody(m.ciphertext, key, m.nonce)
    {
      hide Crypt;
      var plain := AesCtr(key, m.nonce, m.ciphertext);
      var decoded := DecodeText(plain.value);
      text := if decoded.Some? then decoded.value else COULD_NOT_DECRYPT;
    }
  }
}
