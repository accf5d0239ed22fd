/** Money is conserved: every balance is the fold of the whole lifetime ledger, in both currencies. */
module Accounts {
  import opened Wrappers
  import opened Types
  import opened Postings
  import opened Offers
  import opened Forex
  import opened Domain
  import opened Admission

  /** What ledger corrections have taken from `id` over the lifetime of the household. */
  function CorrectionDebits(life: seq<Transaction>, id: MemberId, usd: bool): int {
    if life == [] then 0
    else
      var tx := life[|life| - 1];
      CorrectionDebits(life[..|life| - 1], id, usd)
      + (if tx.reverses.Some? && tx.from == id && tx.usd == usd then tx.amount else 0)
  }

  ghost predicate Kept(b: Books, life: seq<Transaction>, id: MemberId, usd: bool)
    requires id <= |b.members|
  {
    && Balance(b, id, usd) == Net(life, id, usd)
    && -MAX_SEQUENCE <= Balance(b, id, usd) <= MAX_SEQUENCE
    && (id != ISSUER ==> 0 <= Balance(b, id, usd) + CorrectionDebits(life, id, usd))
  }

  ghost predicate AccountsInv(b: Books, life: seq<Transaction>) {
    && Numbered(b.members)
    && b.transactions == |life|
    && (forall k :: 0 <= k < |life| ==> Sound(life[k], |b.members|))
    && (forall id: MemberId, usd: bool :: id <= |b.members| ==> Kept(b, life, id, usd))
  }

  // ---- Folding ----

  lemma {:induction false} NetAppend(xs: seq<Transaction>, ys: seq<Transaction>, id: MemberId, usd: bool)
    ensures Net(xs + ys, id, usd) == Net(xs, id, usd) + Net(ys, id, usd)
    decreases |ys|
  {
    if ys == [] {
      assert xs + ys == xs;
    } else {
      var front := ys[..|ys| - 1];
      NetAppend(xs, front, id, usd);
      assert (xs + ys)[..|xs + ys| - 1] == xs + front;
    }
  }

  lemma {:induction false} CorrectionDebitsAppend(xs: seq<Transaction>, ys: seq<Transaction>, id: MemberId, usd: bool)
    ensures CorrectionDebits(xs + ys, id, usd) == CorrectionDebits(xs, id, usd) + CorrectionDebits(ys, id, usd)
    decreases |ys|
  {
    if ys == [] {
      assert xs + ys == xs;
    } else {
      var front := ys[..|ys| - 1];
      CorrectionDebitsAppend(xs, front, id, usd);
      assert (xs + ys)[..|xs + ys| - 1] == xs + front;
    }
  }

  /** An account no row mentions holds nothing. */
  lemma {:induction false} NetUnmentioned(life: seq<Transaction>, id: MemberId, usd: bool)
    requires forall k :: 0 <= k < |life| ==> life[k].from != id && life[k].to != id
    ensures Net(life, id, usd) == 0 == CorrectionDebits(life, id, usd)
  {
    if life != [] {
      NetUnmentioned(life[..|life| - 1], id, usd);
    }
  }

  function NetUpTo(life: seq<Transaction>, n: nat, usd: bool): int {
    Net(life, n, usd) + if n == 0 then 0 else NetUpTo(life, n - 1, usd)
  }

  function DeltaUpTo(tx: Transaction, n: nat, usd: bool): int {
    Delta(tx, n, usd) + if n == 0 then 0 else DeltaUpTo(tx, n - 1, usd)
  }

  lemma {:induction false} DeltaUpToIs(tx: Transaction, n: nat, usd: bool)
    ensures DeltaUpTo(tx, n, usd) ==
            if tx.usd != usd then 0
            else (if tx.to <= n then tx.amount else 0) - (if tx.from <= n then tx.amount else 0)
  {
    if n > 0 {
      DeltaUpToIs(tx, n - 1, usd);
    }
  }

  lemma {:induction false} NetUpToSplit(life: seq<Transaction>, n: nat, usd: bool)
    requires life != []
    ensures NetUpTo(life, n, usd) == NetUpTo(life[..|life| - 1], n, usd) + DeltaUpTo(life[|life| - 1], n, usd)
  {
    if n > 0 {
      NetUpToSplit(life, n - 1, usd);
    }
  }

  lemma {:induction false} NetUpToNil(n: nat, usd: bool)
    ensures NetUpTo([], n, usd) == 0
  {
    if n > 0 {
      NetUpToNil(n - 1, usd);
    }
  }

  /** Postings between accounts 0..n move money but create none. */
  lemma {:induction false} PostingsConserve(life: seq<Transaction>, n: nat, usd: bool)
    requires forall k :: 0 <= k < |life| ==> Sound(life[k], n)
    ensures NetUpTo(life, n, usd) == 0
  {
    if life == [] {
      NetUpToNil(n, usd);
    } else {
      NetUpToSplit(life, n, usd);
      DeltaUpToIs(life[|life| - 1], n, usd);
      PostingsConserve(life[..|life| - 1], n, usd);
    }
  }

  // ---- One event ----

  /** Accounts keep their number and money when others are opened or edited. */
  lemma NextAccountsKeep(b: Books, e: Event, now: nat)
    requires Numbered(b.members)
    requires Admitted(b, e, now)
    ensures Numbered(NextAccounts(b, e)) && |b.members| <= |NextAccounts(b, e)| <= |b.members| + 1
    ensures forall i, usd :: 0 <= i < |NextAccounts(b, e)| ==>
              NextAccounts(b, e)[i].Holds(usd) == if i < |b.members| then b.members[i].Holds(usd) else 0
  {
  }

  lemma WatermarkMovesNoMoney(members: seq<Member>, e: Event, i: nat, usd: bool)
    requires i < |members|
    ensures Watermark(members, e)[i].id == members[i].id
    ensures Watermark(members, e)[i].Holds(usd) == members[i].Holds(usd)
  {
  }

  lemma AppliedMembers(b: Books, e: Event)
    ensures Apply(b, e).members == Watermark(Settle(NextAccounts(b, e), Posted(b, e)), e)
    ensures forall usd :: Apply(b, e).Issued(usd) == b.Issued(usd) + Net(Posted(b, e), ISSUER, usd)
  {
    hide Posted, NextAccounts, NextOffers, NextListings, NextQuotes, NextHousehold, NextWindow, Corrected, Watermark,
      Settle;
  }

  lemma AppliedBalance(b: Books, e: Event, now: nat, id: MemberId, usd: bool)
    requires Numbered(b.members)
    requires Admitted(b, e, now)
    requires id <= |NextAccounts(b, e)|
    ensures Numbered(Apply(b, e).members) && |Apply(b, e).members| == |NextAccounts(b, e)|
    ensures Balance(Apply(b, e), id, usd) ==
            (if id <= |b.members| then Balance(b, id, usd) else 0) + Net(Posted(b, e), id, usd)
  {
    hide Admitted, Apply, Posted, NextAccounts, Watermark, Net;
    NextAccountsKeep(b, e, now);
    AppliedMembers(b, e);
    var next := NextAccounts(b, e);
    var settled := Settle(next, Posted(b, e));
    forall i | 0 <= i < |settled| ensures Watermark(settled, e)[i].id == i + 1 {
      WatermarkMovesNoMoney(settled, e, i, usd);
    }
    if id != ISSUER {
      WatermarkMovesNoMoney(settled, e, id - 1, usd);
      assert next[id - 1].Holds(usd) == if id <= |b.members| then b.members[id - 1].Holds(usd) else 0;
      assert settled[id - 1].Holds(usd) == next[id - 1].Holds(usd) + Net(Posted(b, e), id, usd);
    }
  }

  lemma NetOfPosted(txs: seq<Transaction>, id: MemberId, usd: bool)
    requires |txs| <= 2
    ensures |txs| == 0 ==> Net(txs, id, usd) == 0 == CorrectionDebits(txs, id, usd)
    ensures |txs| == 1 ==> Net(txs, id, usd) == Delta(txs[0], id, usd)
    ensures |txs| == 2 ==> Net(txs, id, usd) == Delta(txs[0], id, usd) + Delta(txs[1], id, usd)
  {
    if |txs| == 1 {
      assert txs[..0] == [];
    } else if |txs| == 2 {
      NetOfPosted(txs[..1], id, usd);
      assert txs[..1][0] == txs[0];
    }
  }

  /** Corrections account for every debit that is not covered by the balance it starts from. */
  lemma {:induction false} CorrectionsCover(txs: seq<Transaction>, id: MemberId, usd: bool)
    requires forall k :: 0 <= k < |txs| ==> 1 <= txs[k].amount
    ensures 0 <= CorrectionDebits(txs, id, usd)
    ensures forall k :: 0 <= k < |txs| && txs[k].reverses.Some? && txs[k].from == id && txs[k].usd == usd ==>
              txs[k].amount <= CorrectionDebits(txs, id, usd)
  {
    if txs != [] {
      CorrectionsCover(txs[..|txs| - 1], id, usd);
    }
  }

  /** Good postings move a kept balance to a kept balance. */
  lemma PostingsKeep(b: Books, txs: seq<Transaction>, n: nat, id: MemberId, usd: bool, before: int)
    requires GoodPostings(b, txs, n)
    requires id <= |b.members| ==> before == Balance(b, id, usd)
    requires id > |b.members| ==> before == 0
    requires -MAX_SEQUENCE <= before <= MAX_SEQUENCE
    ensures -MAX_SEQUENCE <= before + Net(txs, id, usd) <= MAX_SEQUENCE
    ensures id != ISSUER ==>
              0 <= before + Net(txs, id, usd) || before <= before + Net(txs, id, usd) + CorrectionDebits(txs, id, usd)
    ensures 0 <= CorrectionDebits(txs, id, usd)
  {
    NetOfPosted(txs, id, usd);
    CorrectionsCover(txs, id, usd);
    if |txs| > 0 && txs[0].usd == usd {
      assert Sound(txs[0], n) && Affordable(b, txs[0]);
    } else if |txs| > 1 && txs[1].usd == usd {
      assert Sound(txs[1], n) && Affordable(b, txs[1]);
    }
  }

  lemma KeptStep(b: Books, life: seq<Transaction>, e: Event, now: nat, id: MemberId, usd: bool)
    requires AccountsInv(b, life)
    requires Admitted(b, e, now)
    requires id <= |NextAccounts(b, e)|
    ensures |Apply(b, e).members| == |NextAccounts(b, e)|
    ensures Kept(Apply(b, e), life + Posted(b, e), id, usd)
  {
    var txs := Posted(b, e);
    var before := if id <= |b.members| then Balance(b, id, usd) else 0;
    if id <= |b.members| {
      assert Kept(b, life, id, usd);
    } else {
      NetUnmentioned(life, id, usd);
    }
    PostingsKeep(b, txs, |NextAccounts(b, e)|, id, usd, before);
    CorrectionsCover(life, id, usd);
    AppliedBalance(b, e, now, id, usd);
    NetAppend(life, txs, id, usd);
    CorrectionDebitsAppend(life, txs, id, usd);
  }

  lemma AccountsStep(b: Books, life: seq<Transaction>, e: Event, now: nat)
    requires AccountsInv(b, life)
    requires Admitted(b, e, now)
    ensures AccountsInv(Apply(b, e), life + Posted(b, e))
  {
    NextAccountsKeep(b, e, now);
    AppliedBalance(b, e, now, ISSUER, false);
    forall id: MemberId, usd: bool | id <= |Apply(b, e).members|
      ensures Kept(Apply(b, e), life + Posted(b, e), id, usd)
    {
      KeptStep(b, life, e, now, id, usd);
    }
  }

  // ---- Consequences ----

  /** The running total of `check_invariants` never overflows and ends at the conserved total. */
  lemma {:induction false} BalanceSumRuns(b: Books, life: seq<Transaction>, k: nat, usd: bool)
    requires AccountsInv(b, life) && k <= |b.members|
    ensures -(k + 1) * MAX_SEQUENCE <= NetUpTo(life, k, usd) <= (k + 1) * MAX_SEQUENCE
    ensures BalanceSum(b.members[k..], NetUpTo(life, k, usd), usd) == Some(NetUpTo(life, |b.members|, usd))
    decreases |b.members| - k
  {
    NetUpToBounded(b, life, k, usd);
    if k < |b.members| {
      assert Kept(b, life, k + 1, usd);
      BalanceSumRuns(b, life, k + 1, usd);
      assert b.members[k..][0] == b.members[k] && b.members[k..][1..] == b.members[k + 1..];
    } else {
      assert b.members[k..] == [];
    }
  }

  lemma {:induction false} NetUpToBounded(b: Books, life: seq<Transaction>, k: nat, usd: bool)
    requires AccountsInv(b, life) && k <= |b.members|
    ensures -(k + 1) * MAX_SEQUENCE <= NetUpTo(life, k, usd) <= (k + 1) * MAX_SEQUENCE
  {
    assert Kept(b, life, k, usd);
    if k > 0 {
      NetUpToBounded(b, life, k - 1, usd);
    }
  }

  /** In every state the invariant allows, `check_invariants` succeeds. */
  lemma SelfCheckSucceeds(b: Books, life: seq<Transaction>)
    requires AccountsInv(b, life)
    ensures CheckInvariants(b) == Success(())
  {
    forall usd: bool ensures BalanceSum(b.members, b.Issued(usd), usd) == Some(0) {
      assert Kept(b, life, ISSUER, usd);
      BalanceSumRuns(b, life, 0, usd);
      PostingsConserve(life, |b.members|, usd);
      assert b.members[0..] == b.members;
    }
    assert b.Issued(false) == b.issuance && b.Issued(true) == b.usdIssuance;
  }
}
