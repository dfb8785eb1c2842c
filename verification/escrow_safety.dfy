/** Safety of the escrow contract over any sequence of calls: each escrow
    pays out at most once, settled records never change again, and every
    payout is a release of a verified job or a refund after the deadline. */
module EscrowSafety {
  import opened Common
  import opened Escrow
  import ValidationViews

  /** One endpoint call with everything the contract reads from its
      environment: caller, block time, and for a release the validation
      registry's job records as they are at that moment. */
  datatype Call =
    | DepositCall(caller: Address, now: nat, jobId: Bytes, receiver: Address,
                  poaHash: Bytes, deadline: nat, payment: Payment)
    | ReleaseCall(caller: Address, jobs: ValidationViews.JobStore, jobId: Bytes)
    | RefundCall(now: nat, jobId: Bytes)

  /** An outgoing transfer, tagged with the escrow it pays out. */
  datatype Payout = Payout(jobId: Bytes, transfer: Transfer)

  /** The store after one transaction and the payouts it made. A failing
      call is rolled back: the store is unchanged and nothing is paid. */
  function Apply(store: EscrowStore, c: Call): (EscrowStore, seq<Payout>) {
    match c
    case DepositCall(caller, now, jobId, receiver, poaHash, deadline, payment) =>
      (match Deposit(store, caller, now, jobId, receiver, poaHash, deadline, payment)
       case Ok(s) => (s, [])
       case Err(_) => (store, []))
    case ReleaseCall(caller, jobs, jobId) =>
      (match Release(store, caller, jobs, jobId)
       case Ok(s) => (s.store, Tag(jobId, Transfers(s.steps)))
       case Err(_) => (store, []))
    case RefundCall(now, jobId) =>
      (match Refund(store, now, jobId)
       case Ok(s) => (s.store, Tag(jobId, Transfers(s.steps)))
       case Err(_) => (store, []))
  }

  function Tag(jobId: Bytes, ts: seq<Transfer>): (r: seq<Payout>)
    ensures |r| == |ts|
    ensures forall i | 0 <= i < |r| :: r[i] == Payout(jobId, ts[i])
  {
    if ts == [] then [] else [Payout(jobId, ts[0])] + Tag(jobId, ts[1..])
  }

  /** The store and the full payout log after running calls in order. */
  function Run(store: EscrowStore, calls: seq<Call>): (EscrowStore, seq<Payout>) {
    if calls == [] then (store, [])
    else
      var (s, log) := Run(store, calls[..|calls| - 1]);
      var (s', paid) := Apply(s, calls[|calls| - 1]);
      (s', log + paid)
  }

  /** How many payouts of the log belong to one escrow. */
  function PaidCount(log: seq<Payout>, jobId: Bytes): nat {
    if log == [] then 0
    else PaidCount(log[..|log| - 1], jobId) + (if log[|log| - 1].jobId == jobId then 1 else 0)
  }

  lemma {:induction false} PaidCountAppend(a: seq<Payout>, b: seq<Payout>, jobId: Bytes)
    ensures PaidCount(a + b, jobId) == PaidCount(a, jobId) + PaidCount(b, jobId)
    decreases |b|
  {
    if b == [] {
      assert a + b == a;
    } else {
      assert (a + b)[..|a + b| - 1] == a + b[..|b| - 1];
      PaidCountAppend(a, b[..|b| - 1], jobId);
    }
  }

  predicate Settled(store: EscrowStore, jobId: Bytes) {
    jobId in store && store[jobId].status != Active
  }

  /** One transaction pays an escrow exactly when it settles it, and never
      touches a settled record. */
  lemma {:induction false} ApplyPaysOnSettling(store: EscrowStore, c: Call, jobId: Bytes)
    ensures var (s', paid) := Apply(store, c);
      && PaidCount(paid, jobId) == (if Settled(s', jobId) && !Settled(store, jobId) then 1 else 0)
      && (Settled(store, jobId) ==> jobId in s' && s'[jobId] == store[jobId])
  {
    var (s', paid) := Apply(store, c);
    match c
    case DepositCall(caller, now, j, receiver, poaHash, deadline, payment) =>
    case ReleaseCall(caller, jobs, j) =>
      var r := Release(store, caller, jobs, j);
      if r.Ok? {
        ReleasePersistsBeforePaying(store, caller, jobs, j);
        assert paid == [Payout(j, Transfer(store[j].receiver, store[j].payment))];
        assert PaidCount(paid, jobId) == PaidCount([], jobId) + (if j == jobId then 1 else 0);
      }
    case RefundCall(now, j) =>
      var r := Refund(store, now, j);
      if r.Ok? {
        RefundPersistsBeforePaying(store, now, j);
        assert paid == [Payout(j, Transfer(store[j].employer, store[j].payment))];
        assert PaidCount(paid, jobId) == PaidCount([], jobId) + (if j == jobId then 1 else 0);
      }
  }

  /** From an empty store, an escrow has been paid out once if it is
      settled and never otherwise. */
  lemma {:induction false} PaidIffSettled(calls: seq<Call>, jobId: Bytes)
    ensures var (s, log) := Run(map[], calls);
      PaidCount(log, jobId) == if Settled(s, jobId) then 1 else 0
    decreases |calls|
  {
    if calls != [] {
      var (s, log) := Run(map[], calls[..|calls| - 1]);
      PaidIffSettled(calls[..|calls| - 1], jobId);
      var (s', paid) := Apply(s, calls[|calls| - 1]);
      ApplyPaysOnSettling(s, calls[|calls| - 1], jobId);
      PaidCountAppend(log, paid, jobId);
    }
  }

  /** Each escrow pays out at most once, whatever calls are made. */
  lemma PayoutAtMostOnce(calls: seq<Call>, jobId: Bytes)
    ensures PaidCount(Run(map[], calls).1, jobId) <= 1
  {
    PaidIffSettled(calls, jobId);
  }

  /** Released and Refunded are final: once settled, a record is never
      changed by any later sequence of calls. */
  lemma {:induction false} SettledIsFinal(store: EscrowStore, calls: seq<Call>, jobId: Bytes)
    requires Settled(store, jobId)
    ensures var s := Run(store, calls).0;
      jobId in s && s[jobId] == store[jobId]
    decreases |calls|
  {
    if calls != [] {
      SettledIsFinal(store, calls[..|calls| - 1], jobId);
      var s := Run(store, calls[..|calls| - 1]).0;
      ApplyPaysOnSettling(s, calls[|calls| - 1], jobId);
    }
  }

  /** A transaction that pays out is either a release by the employer of a
      job the validation registry reports as verified, or a refund strictly
      after the deadline; either way it pays exactly the locked payment. */
  lemma PayoutJustified(store: EscrowStore, c: Call)
    requires |Apply(store, c).1| > 0
    ensures c.ReleaseCall? || c.RefundCall?
    ensures c.jobId in store && store[c.jobId].status == Active
    ensures c.ReleaseCall? ==>
      && ValidationViews.IsJobVerified(c.jobs, c.jobId)
      && c.caller == store[c.jobId].employer
      && Apply(store, c).1 == [Payout(c.jobId, Transfer(store[c.jobId].receiver, store[c.jobId].payment))]
    ensures c.RefundCall? ==>
      && c.now > store[c.jobId].deadline
      && Apply(store, c).1 == [Payout(c.jobId, Transfer(store[c.jobId].employer, store[c.jobId].payment))]
  {
    match c
    case DepositCall(_, _, _, _, _, _, _) =>
    case ReleaseCall(caller, jobs, j) =>
      ReleasePersistsBeforePaying(store, caller, jobs, j);
    case RefundCall(now, j) =>
      RefundPersistsBeforePaying(store, now, j);
  }

  /** Scenario: a deposit followed by a release before the job is verified
      fails, and the escrow stays active. */
  lemma ReleaseBeforeVerificationFails(employer: Address, receiver: Address, now: nat, jobId: Bytes,
                                       poaHash: Bytes, payment: Payment, jobs: ValidationViews.JobStore)
    requires !ValidationViews.IsJobVerified(jobs, jobId)
    ensures var s := Deposit(map[], employer, now, jobId, receiver, poaHash, now + 100, payment);
      && s.Ok?
      && Release(s.value, employer, jobs, jobId).Err?
      && s.value[jobId].status == Active
  {
  }

  /** Scenario: after a refund past the deadline, a release by the employer
      fails as already settled even if the job is verified by then. */
  lemma RefundThenReleaseFails(employer: Address, receiver: Address, t: nat, jobId: Bytes,
                               poaHash: Bytes, payment: Payment, jobs: ValidationViews.JobStore)
    ensures var s := Deposit(map[], employer, t, jobId, receiver, poaHash, t + 10, payment);
      && s.Ok?
      && var r := Refund(s.value, t + 11, jobId);
      && r.Ok?
      && Release(r.value.store, employer, jobs, jobId) == Err(AlreadySettled)
  {
  }
}
