/** The running service: one object holding the state, the login desk, the receipts and the journal. */
module LiveService {
  import opened Wrappers
  import opened Types
  import opened Postings
  import opened Domain
  import opened Frames
  import opened Runs
  import opened Signoffs
  import opened LoginDesk
  import opened Household
  import opened Journal

  /** The durable medium. An append that fails may still have reached it. */
  class Disk {
    var frames: seq<Frame>

    method Read(index: nat) returns (frame: Option<Frame>)
      ensures frame == if index < |frames| then Some(frames[index]) else None
    {
      if index < |frames| {
        return Some(frames[index]);
      }
      return None;
    }

    /** Writes the next free slot; a used slot is never written again. */
    method Write(index: nat, frame: Frame, fate: Append) returns (ok: bool)
      requires index == |frames|
      modifies this
      ensures ok <==> fate.Written?
      ensures frames == if fate.Lost? then old(frames) else old(frames) + [frame]
    {
      if !fate.Lost? {
        frames := frames + [frame];
      }
      ok := fate.Written?;
    }
  }

  class HouseService {
    const codec: Codec
    const state: State
    const auth: SlotDesk
    const journal: Disk
    var records: nat
    var storageFailed: bool
    var keyed: seq<KeyReceipt>

    function View(): Service
      reads this, state, journal
    {
      Service(state.Value(), records, storageFailed, keyed, journal.frames)
    }

    ghost predicate Valid()
      reads this, state, journal
    {
      && IsChecksum(codec.crc) && state.Valid() && auth.Valid()
      && |keyed| <= MAX_RECORDS && records <= MAX_RECORDS
      && (!storageFailed && records < MAX_RECORDS ==> records == |journal.frames|)
    }

    constructor (codec: Codec, state: State, journal: Disk, records: nat, keyed: seq<KeyReceipt>)
      requires IsChecksum(codec.crc) && state.Valid() && |keyed| <= MAX_RECORDS
      requires records <= MAX_RECORDS && (records < MAX_RECORDS ==> records == |journal.frames|)
      ensures Valid() && this.codec == codec && this.state == state && this.journal == journal
      ensures View() == Service(state.Value(), records, false, keyed, journal.frames)
      ensures fresh(auth) && fresh(auth.sessions) && fresh(auth.codes) && fresh(auth.failures)
      ensures auth.Value() == Auth.EMPTY_DESK
    {
      this.codec, this.state, this.journal := codec, state, journal;
      this.records, this.keyed, this.storageFailed := records, keyed, false;
      auth := new SlotDesk();
    }

    /** The receipt of a member's key. */
    method FindReceipt(actor: MemberId, key: Digest) returns (r: Option<nat>)
      ensures r == ReceiptAt(keyed, actor, key)
    {
      for i := 0 to |keyed|
        invariant forall j :: 0 <= j < i ==> !(keyed[j].actor == actor && keyed[j].key == key)
      {
        if keyed[i].actor == actor && keyed[i].key == key {
          return Some(i);
        }
      }
      return None;
    }

    /** Everything that can answer or refuse a command before it is journalled. */
    method Screen(actor: MemberId, requestId: nat, c: Command, key: Option<Digest>, clock: nat, ghost fate: Append)
      returns (answer: Option<Result<Receipt, Error>>)
      requires Valid()
      ensures answer.None? ==> Reaches(codec, View(), actor, requestId, c, key, clock)
      ensures answer.Some? ==> Commit(codec, View(), actor, requestId, c, key, clock, fate) == (View(), answer.value)
      ensures answer.Some? && answer.value.Success? ==> answer.value.value.replayed
    {
      hide ValidateAt, Retry, Encode, Apply, HouseInv, Remember, NextSequence;
      if storageFailed {
        return Some(Failure(Storage));
      }
      var retried := Retry(state.Value(), actor, requestId, c);
      if retried.Failure? {
        return Some(Failure(retried.error));
      }
      if retried.value.Some? {
        RetryIsReplayed(state.Value(), actor, requestId, c);
        return Some(Success(retried.value.value));
      }
      var valid := ValidateAt(state.Value(), actor, c, if clock < state.lastTimestamp then 0 else clock);
      if valid.Failure? {
        return Some(Failure(valid.error));
      }
      if records == MAX_RECORDS {
        return Some(Failure(Capacity));
      }
      if NextSequence(state.sequence).None? {
        return Some(Failure(Overflow));
      }
      var frame := Encode(codec, CommitEvent(View(), actor, requestId, c, key, clock));
      if frame.Failure? {
        return Some(Failure(frame.error));
      }
      return None;
    }

    /** The event a command becomes: the next sequence, and a stamp no earlier than the last. */
    method Stamp(actor: MemberId, requestId: nat, c: Command, key: Option<Digest>, clock: nat) returns (e: Event)
      requires NextSequence(state.sequence).Some?
      ensures e == CommitEvent(View(), actor, requestId, c, key, clock)
    {
      hide NextSequence;
      var now := if clock < state.lastTimestamp then 0 else clock;
      e := Event(Max(now, state.lastTimestamp), key, 1, NextSequence(state.sequence).value, actor, requestId, c);
    }

    /** Validates, appends durably, then applies; a failed append latches the service. */
    method CommitInPlace(actor: MemberId, requestId: nat, c: Command, key: Option<Digest>, clock: nat, fate: Append)
      returns (r: Result<Receipt, Error>)
      requires Valid()
      modifies this, state, journal, auth.sessions, auth.codes
      ensures Valid()
      ensures (View(), r) == Commit(codec, old(View()), actor, requestId, c, key, clock, fate)
      ensures auth.Value() ==
                if r.Success? && !r.value.replayed then SignedOff(old(auth.Value()), c) else old(auth.Value())
    {
      hide Commit, Reaches, Encode, Apply, HouseInv, Admissible, Remember, NextSequence, SignedOff,
        CommitEvent;
      var answer := Screen(actor, requestId, c, key, clock, fate);
      if answer.Some? {
        return answer.value;
      }
      ReachesUnlatched(codec, View(), actor, requestId, c, key, clock);
      CommitAppends(codec, View(), actor, requestId, c, key, clock, fate);
      var e := Stamp(actor, requestId, c, key, clock);
      r := Append(e, Encode(codec, e).value, clock, fate);
    }

    /** The part of a commit that can no longer be refused. */
    method Append(e: Event, frame: Frame, ghost clock: nat, fate: Append) returns (r: Result<Receipt, Error>)
      requires Valid() && !storageFailed && records < MAX_RECORDS
      requires Admissible(state.Value(), e, clock)
      modifies this, state, journal, auth.sessions, auth.codes
      ensures Valid()
      ensures match fate
              case Written =>
                && r == Success(Receipt(e.sequence, false))
                && View() == Service(Apply(old(state.Value()), e), old(records) + 1, false, Remember(old(keyed), e),
                                     old(journal.frames) + [frame])
                && auth.Value() == SignedOff(old(auth.Value()), e.command)
              case Lost =>
                r == Failure(Storage) && View() == old(View()).(failed := true) && auth.Value() == old(auth.Value())
              case InDoubt =>
                && r == Failure(Storage) && auth.Value() == old(auth.Value())
                && View() == old(View()).(failed := true, disk := old(journal.frames) + [frame])
    {
      hide Admissible, Apply, HouseInv;
      var ok := journal.Write(records, frame, fate);
      if !ok {
        storageFailed := true;
        return Failure(Storage);
      }
      state.ApplyEvent(e, clock);
      if e.clientKey.Some? {
        if |keyed| == MAX_RECORDS {
          keyed := keyed[1..];
        }
        keyed := keyed + [ReceiptFor(e)];
      }
      var c := e.command;
      if SignsOff(c) {
        auth.ForgetMember(c.member);
      }
      records := records + 1;
      return Success(Receipt(e.sequence, false));
    }

    /** A remembered key is answered from its receipt; a new key becomes the member's next request. */
    method ExecuteKeyed(actor: MemberId, key: string, c: Command, clock: nat, fate: Append)
      returns (r: Result<Receipt, Error>)
      requires Valid()
      modifies this, state, journal, auth.sessions, auth.codes
      ensures Valid()
      ensures (View(), r) == CommitKeyed(codec, old(View()), actor, key, c, clock, fate)
      ensures auth.Value() ==
                if r.Success? && !r.value.replayed then SignedOff(old(auth.Value()), c) else old(auth.Value())
    {
      hide Commit, KeyGeneration, SignedOff, HouseInv, Fingerprint, FindMember, ReceiptAt, MemberAt;
      if storageFailed {
        return Failure(Storage);
      }
      if |key| == 0 || |key| > 80 {
        return Failure(InvalidInput);
      }
      var known := FindReceipt(actor, OfText(key));
      if known.Some? {
        if keyed[known.value].command != Fingerprint(c) {
          return Failure(Conflict);
        }
        return Success(Receipt(keyed[known.value].sequence, true));
      }
      if KeyGeneration(key) != 0 {
        return Failure(StaleRequest);
      }
      var member := FindMember(state.Value(), actor);
      if member.Failure? {
        return Failure(member.error);
      }
      r := CommitInPlace(actor, member.value.lastRequest + 1, c, Some(OfText(key)), clock, fate);
    }
  }

  /** One frame of a boot: decoded, replayed, and its key remembered. */
  method LoadFrame(codec: Codec, state: State, keyed: seq<KeyReceipt>, frame: Frame)
    returns (r: Result<seq<KeyReceipt>, Error>)
    requires state.Valid() && |keyed| <= MAX_RECORDS
    modifies state
    ensures state.Valid()
    ensures r.Success? ==> |r.value| <= MAX_RECORDS
    ensures match Decode(codec, frame)
            case Failure(error) => r == Failure(error)
            case Success(e) =>
              match Replay(old(state.Value()), e)
              case Failure(error) => r == Failure(error)
              case Success(b) =>
                if e.clientKey.Some? && ReceiptAt(keyed, e.actor, e.clientKey.value).Some? then
                  r == Failure(CorruptJournal)
                else r == Success(Remember(keyed, e)) && state.Value() == b
  {
    hide Replay, HouseInv, Apply;
    var decoded := Decode(codec, frame);
    if decoded.Failure? {
      return Failure(decoded.error);
    }
    var e := decoded.value;
    var replayed := state.ReplayEvent(e);
    if replayed.Failure? {
      return Failure(replayed.error);
    }
    if e.clientKey.None? {
      return Success(keyed);
    }
    if ReceiptAt(keyed, e.actor, e.clientKey.value).Some? {
      return Failure(CorruptJournal);
    }
    return Success((if |keyed| == MAX_RECORDS then keyed[1..] else keyed) + [ReceiptFor(e)]);
  }

  lemma LoadNothing(codec: Codec, disk: seq<Frame>)
    ensures Load(codec, disk, 0) == Success(Service(EMPTY_BOOKS, 0, false, [], disk))
  {
  }

  /** One more frame: decoded, replayed, and its key remembered. */
  lemma LoadNext(codec: Codec, disk: seq<Frame>, n: nat)
    requires n < |disk| && Load(codec, disk, n).Success?
    ensures var v := Load(codec, disk, n).value;
            Load(codec, disk, n + 1) ==
            match Decode(codec, disk[n])
            case Failure(error) => Failure(error)
            case Success(e) =>
              match Replay(v.books, e)
              case Failure(error) => Failure(error)
              case Success(b) =>
                if e.clientKey.Some? && ReceiptAt(v.keyed, e.actor, e.clientKey.value).Some? then
                  Failure(CorruptJournal)
                else Success(Service(b, n + 1, false, Remember(v.keyed, e), disk))
  {
    hide Decode, Replay, ReceiptAt, Remember;
  }

  lemma {:induction false} LoadStopsAt(codec: Codec, disk: seq<Frame>, n: nat, m: nat)
    requires n <= m <= |disk| && Load(codec, disk, n).Failure?
    ensures Load(codec, disk, m) == Load(codec, disk, n)
  {
    hide Replay, Decode, Remember;
    if n < m {
      LoadStopsAt(codec, disk, n, m - 1);
    }
  }

  /** Boots a service from whatever the disk holds, or refuses it with the error of its first bad frame. */
  method Open(codec: Codec, journal: Disk) returns (r: Result<HouseService, Error>)
    requires IsChecksum(codec.crc)
    ensures journal.frames == old(journal.frames)
    ensures match OpenJournal(codec, journal.frames)
            case Failure(error) => r == Failure(error)
            case Success(v) =>
              && r.Success? && fresh(r.value) && fresh(r.value.state) && r.value.journal == journal
              && r.value.codec == codec
              && r.value.Valid() && r.value.View() == v && r.value.auth.Value() == Auth.EMPTY_DESK
  {
    hide Replay, Decode, HouseInv, CheckInvariants, Load, Remember, ReceiptAt;
    LoadNothing(codec, journal.frames);
    var state := new State();
    var records: nat, keyed: seq<KeyReceipt> := 0, [];
    var frame := journal.Read(records);
    while records < MAX_RECORDS && frame.Some?
      invariant fresh(state) && state.Valid() && records <= MAX_RECORDS && |keyed| <= MAX_RECORDS
      invariant records <= |journal.frames| && journal.frames == old(journal.frames)
      invariant frame == if records < |journal.frames| then Some(journal.frames[records]) else None
      invariant Load(codec, journal.frames, records) ==
                  Success(Service(state.Value(), records, false, keyed, journal.frames))
      decreases |journal.frames| - records
    {
      LoadNext(codec, journal.frames, records);
      var loaded := LoadFrame(codec, state, keyed, frame.value);
      if loaded.Failure? {
        LoadStopsAt(codec, journal.frames, records + 1, Min(|journal.frames|, MAX_RECORDS));
        return Failure(loaded.error);
      }
      keyed := loaded.value;
      records := records + 1;
      frame := journal.Read(records);
    }
    assert records == Min(|journal.frames|, MAX_RECORDS);
    var checked := CheckInvariants(state.Value());
    if checked.Failure? {
      return Failure(checked.error);
    }
    var service := new HouseService(codec, state, journal, records, keyed);
    return Success(service);
  }
}
