/** The escrow contract (escrow/src/lib.rs, records in escrow/src/storage.rs):
    an employer locks a payment for a job; the employer releases it to the
    receiver once the validation registry has verified the job, or anyone
    refunds it to the employer after the deadline. */
module Escrow {
  import opened Common
  import ValidationViews

  /** Settlement status of an escrow; Released and Refunded are final. */
  datatype EscrowStatus = Active | Released | Refunded

  /** The on-chain escrow record. */
  datatype EscrowData = EscrowData(
    employer: Address,
    receiver: Address,
    payment: Payment,
    poaHash: Bytes,
    deadline: nat,
    status: EscrowStatus)

  /** The per-job single-value mapper `escrowData`: at most one record per
      job id. */
  type EscrowStore = map<Bytes, EscrowData>

  datatype EscrowError =
    | DeadlineInPast
    | EscrowAlreadyExists
    | EscrowNotFound
    | AlreadySettled
    | NotEmployer
    | JobNotVerified
    | DeadlineNotPassed

  /** One observable effect of a settling call, in execution order: a write
      of the escrow record, or an outgoing transfer. */
  datatype Step = Persist(jobId: Bytes, record: EscrowData) | Send(transfer: Transfer)

  /** The state after a settling call and the effects it performed. */
  datatype Settlement = Settlement(store: EscrowStore, steps: seq<Step>)

  /** The record as it is after settling with the given final status. */
  function Settle(e: EscrowData, status: EscrowStatus): EscrowData {
    e.(status := status)
  }

  /** `deposit`: lock `payment` for `jobId` until `deadline`. The deadline
      is checked first, then the uniqueness of the job id. */
  function Deposit(store: EscrowStore, caller: Address, now: nat, jobId: Bytes,
                   receiver: Address, poaHash: Bytes, deadline: nat, payment: Payment)
    : (r: Result<EscrowStore, EscrowError>)
    ensures r.Ok? <==> deadline > now && jobId !in store
    ensures deadline <= now ==> r == Err(DeadlineInPast)
    ensures deadline > now && jobId in store ==> r == Err(EscrowAlreadyExists)
    ensures r.Ok? ==>
      && jobId in r.value
      && r.value[jobId] == EscrowData(caller, receiver, payment, poaHash, deadline, Active)
      && (forall j | j != jobId :: Lookup(r.value, j) == Lookup(store, j))
  {
    if deadline <= now then Err(DeadlineInPast)
    else if jobId in store then Err(EscrowAlreadyExists)
    else Ok(store[jobId := EscrowData(caller, receiver, payment, poaHash, deadline, Active)])
  }

  /** `release`: the employer pays the receiver once the job is verified.
      A missing validation record aborts with the escrow's not-found error,
      as in the source. */
  function Release(store: EscrowStore, caller: Address, jobs: ValidationViews.JobStore, jobId: Bytes)
    : (r: Result<Settlement, EscrowError>)
    ensures r.Ok? <==>
      && jobId in store
      && store[jobId].status == Active
      && caller == store[jobId].employer
      && jobId in jobs
      && jobs[jobId].status == ValidationViews.Verified
    ensures r.Ok? ==> ValidationViews.IsJobVerified(jobs, jobId)
    ensures jobId !in store ==> r == Err(EscrowNotFound)
    ensures jobId in store && store[jobId].status != Active ==> r == Err(AlreadySettled)
    ensures (jobId in store && store[jobId].status == Active && caller != store[jobId].employer)
            ==> r == Err(NotEmployer)
    ensures (&& jobId in store && store[jobId].status == Active && caller == store[jobId].employer
             && jobId !in jobs)
            ==> r == Err(EscrowNotFound)
    ensures (&& jobId in store && store[jobId].status == Active && caller == store[jobId].employer
             && jobId in jobs && jobs[jobId].status != ValidationViews.Verified)
            ==> r == Err(JobNotVerified)
    ensures r.Ok? ==>
      var e := store[jobId];
      && r.value.store == store[jobId := Settle(e, Released)]
      && r.value.steps == [Persist(jobId, Settle(e, Released)), Send(Transfer(e.receiver, e.payment))]
  {
    if jobId !in store then Err(EscrowNotFound)
    else
      var e := store[jobId];
      if e.status != Active then Err(AlreadySettled)
      else if caller != e.employer then Err(NotEmployer)
      else match ValidationViews.GetJobData(jobs, jobId)
        case None => Err(EscrowNotFound)
        case Some(job) =>
          if job.status != ValidationViews.Verified then Err(JobNotVerified)
          else
            var settled := Settle(e, Released);
            Ok(Settlement(store[jobId := settled],
                          [Persist(jobId, settled), Send(Transfer(e.receiver, e.payment))]))
  }

  /** `refund`: anyone may return an active escrow to its employer once the
      block time is strictly past the deadline. */
  function Refund(store: EscrowStore, now: nat, jobId: Bytes): (r: Result<Settlement, EscrowError>)
    ensures r.Ok? <==> jobId in store && store[jobId].status == Active && now > store[jobId].deadline
    ensures jobId !in store ==> r == Err(EscrowNotFound)
    ensures jobId in store && store[jobId].status != Active ==> r == Err(AlreadySettled)
    ensures (jobId in store && store[jobId].status == Active && now <= store[jobId].deadline)
            ==> r == Err(DeadlineNotPassed)
    ensures r.Ok? ==>
      var e := store[jobId];
      && r.value.store == store[jobId := Settle(e, Refunded)]
      && r.value.steps == [Persist(jobId, Settle(e, Refunded)), Send(Transfer(e.employer, e.payment))]
  {
    if jobId !in store then Err(EscrowNotFound)
    else
      var e := store[jobId];
      if e.status != Active then Err(AlreadySettled)
      else if now <= e.deadline then Err(DeadlineNotPassed)
      else
        var settled := Settle(e, Refunded);
        Ok(Settlement(store[jobId := settled],
                      [Persist(jobId, settled), Send(Transfer(e.employer, e.payment))]))
  }

  /** The store holds one record per job id and a deposit never replaces
      it: whatever the call, every existing escrow is left as it was, and a
      successful deposit adds exactly one record. */
  lemma DepositNeverOverwrites(store: EscrowStore, caller: Address, now: nat, jobId: Bytes,
                               receiver: Address, poaHash: Bytes, deadline: nat, payment: Payment)
    ensures var r := Deposit(store, caller, now, jobId, receiver, poaHash, deadline, payment);
      r.Ok? ==> && jobId !in store
                && r.value.Keys == store.Keys + {jobId}
                && (forall j | j in store :: j in r.value && r.value[j] == store[j])
  {
  }

  /** The transfers among a sequence of effects, in order. */
  function Transfers(steps: seq<Step>): (r: seq<Transfer>)
    ensures |r| <= |steps|
  {
    if steps == [] then []
    else Transfers(steps[..|steps| - 1])
         + (match steps[|steps| - 1] case Send(t) => [t] case Persist(_, _) => [])
  }

  /** Checks-effects-interactions: in every settlement the settled record is
      persisted, with a final status, before the single transfer leaves. */
  predicate PersistThenPay(jobId: Bytes, s: Settlement) {
    && |s.steps| == 2
    && s.steps[0].Persist?
    && s.steps[0].jobId == jobId
    && s.steps[0].record.status != Active
    && s.steps[1].Send?
    && jobId in s.store
    && s.store[jobId] == s.steps[0].record
  }

  /** A release persists Released before it sends exactly one transfer: the
      locked payment, to the receiver. */
  lemma ReleasePersistsBeforePaying(store: EscrowStore, caller: Address,
                                    jobs: ValidationViews.JobStore, jobId: Bytes)
    requires Release(store, caller, jobs, jobId).Ok?
    ensures PersistThenPay(jobId, Release(store, caller, jobs, jobId).value)
    ensures Release(store, caller, jobs, jobId).value.store[jobId].status == Released
    ensures Transfers(Release(store, caller, jobs, jobId).value.steps)
            == [Transfer(store[jobId].receiver, store[jobId].payment)]
  {
    var s := Release(store, caller, jobs, jobId).value;
    assert Transfers(s.steps[..1]) == [];
  }

  /** A refund persists Refunded before it sends exactly one transfer: the
      locked payment, back to the employer. */
  lemma RefundPersistsBeforePaying(store: EscrowStore, now: nat, jobId: Bytes)
    requires Refund(store, now, jobId).Ok?
    ensures PersistThenPay(jobId, Refund(store, now, jobId).value)
    ensures Refund(store, now, jobId).value.store[jobId].status == Refunded
    ensures Transfers(Refund(store, now, jobId).value.steps)
            == [Transfer(store[jobId].employer, store[jobId].payment)]
  {
    var s := Refund(store, now, jobId).value;
    assert Transfers(s.steps[..1]) == [];
  }
}
