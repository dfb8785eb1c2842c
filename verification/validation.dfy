/** The validation registry's job state machine as written in
    validation-registry/src/lib.rs: five separate per-job storage slots
    (proof, status, employer, creation timestamp, agent nonce). */
module ValidationRegistry {
  import opened Common
  import opened ValidationViews

  /** Three days, in seconds: the retention window of `clean_old_jobs`. */
  const RetentionWindow: nat := 3 * 24 * 60 * 60

  /** The registry's storage. An absent key is an empty storage slot. */
  datatype ValidationState = ValidationState(
    owner: Address,
    proof: map<Bytes, Bytes>,
    status: map<Bytes, JobStatus>,
    employer: map<Bytes, Address>,
    createdAt: map<Bytes, nat>,
    agentNonce: map<Bytes, nat>)

  datatype ValidationError = JobAlreadyInitialized | JobNotInitialized | NotContractOwner

  /** The stored agent nonce; an empty slot reads as 0. */
  function AgentNonceOf(s: ValidationState, jobId: Bytes): nat {
    GetOrDefault(s.agentNonce, jobId, 0)
  }

  /** The stored creation timestamp; an empty slot reads as 0. */
  function CreatedAtOf(s: ValidationState, jobId: Bytes): nat {
    GetOrDefault(s.createdAt, jobId, 0)
  }

  /** The state with every storage slot of one job id left as it is in `s`. */
  ghost predicate SameJob(s: ValidationState, t: ValidationState, jobId: Bytes) {
    && Lookup(s.proof, jobId) == Lookup(t.proof, jobId)
    && Lookup(s.status, jobId) == Lookup(t.status, jobId)
    && Lookup(s.employer, jobId) == Lookup(t.employer, jobId)
    && Lookup(s.createdAt, jobId) == Lookup(t.createdAt, jobId)
    && Lookup(s.agentNonce, jobId) == Lookup(t.agentNonce, jobId)
  }

  /** Every storage slot of the job id is empty. */
  ghost predicate Cleared(s: ValidationState, jobId: Bytes) {
    && jobId !in s.proof
    && jobId !in s.status
    && jobId !in s.employer
    && jobId !in s.createdAt
    && jobId !in s.agentNonce
  }

  /** `init_job`: a job id is initialised once, by its employer, at the
      current block time. */
  function InitJob(s: ValidationState, caller: Address, now: nat, jobId: Bytes, agentNonce: nat)
    : (r: Result<ValidationState, ValidationError>)
    ensures r.Err? <==> jobId in s.employer
    ensures r.Err? ==> r.error == JobAlreadyInitialized
    ensures r.Ok? ==>
      && r.value.employer == s.employer[jobId := caller]
      && r.value.createdAt == s.createdAt[jobId := now]
      && r.value.agentNonce == s.agentNonce[jobId := agentNonce]
      && r.value.proof == s.proof
      && r.value.status == s.status
      && r.value.owner == s.owner
  {
    if jobId in s.employer then Err(JobAlreadyInitialized)
    else
      Ok(s.(employer := s.employer[jobId := caller],
            createdAt := s.createdAt[jobId := now],
            agentNonce := s.agentNonce[jobId := agentNonce]))
  }

  /** `submit_proof`: anyone may submit a proof for a job whose agent nonce
      is non-zero; the status becomes Pending whatever it was before. */
  function SubmitProof(s: ValidationState, jobId: Bytes, proof: Bytes)
    : (r: Result<ValidationState, ValidationError>)
    ensures r.Err? <==> AgentNonceOf(s, jobId) == 0
    ensures r.Err? ==> r.error == JobNotInitialized
    ensures r.Ok? ==>
      && Lookup(r.value.status, jobId) == Some(Pending)
      && Lookup(r.value.proof, jobId) == Some(proof)
      && r.value.owner == s.owner
      && r.value.employer == s.employer
      && r.value.createdAt == s.createdAt
      && r.value.agentNonce == s.agentNonce
      && (forall j | j != jobId :: SameJob(s, r.value, j))
  {
    if AgentNonceOf(s, jobId) == 0 then Err(JobNotInitialized)
    else Ok(s.(proof := s.proof[jobId := proof], status := s.status[jobId := Pending]))
  }

  /** `verify_job`: only the contract owner may call it; it sets Verified
      without looking at any other slot of the job. */
  function VerifyJob(s: ValidationState, caller: Address, jobId: Bytes)
    : (r: Result<ValidationState, ValidationError>)
    ensures r.Err? <==> caller != s.owner
    ensures r.Err? ==> r.error == NotContractOwner
    ensures r.Ok? ==>
      && IsJobVerified(r.value, jobId)
      && r.value.owner == s.owner
      && r.value.employer == s.employer
      && r.value.agentNonce == s.agentNonce
      && r.value.createdAt == s.createdAt
      && r.value.proof == s.proof
      && (forall j | j != jobId :: SameJob(s, r.value, j))
  {
    if caller != s.owner then Err(NotContractOwner)
    else Ok(s.(status := s.status[jobId := Verified]))
  }

  /** `is_job_verified`: the stored status is Verified. An empty status slot
      decodes to the enum's first variant, Pending, so it is not verified. */
  function IsJobVerified(s: ValidationState, jobId: Bytes): (r: bool)
    ensures jobId !in s.status ==> !r
    ensures r ==> jobId in s.status && s.status[jobId] == Verified
  {
    Lookup(s.status, jobId) == Some(Verified)
  }

  /** A job is old enough to be garbage-collected at time `now`. */
  predicate Expired(s: ValidationState, now: nat, jobId: Bytes) {
    var ts := CreatedAtOf(s, jobId);
    ts > 0 && now > ts + RetentionWindow
  }

  /** Clears all five storage slots of one job id. */
  function ClearJob(s: ValidationState, jobId: Bytes): (r: ValidationState)
    ensures Cleared(r, jobId)
    ensures r.owner == s.owner
    ensures forall j | j != jobId :: SameJob(s, r, j)
  {
    s.(proof := s.proof - {jobId},
       status := s.status - {jobId},
       employer := s.employer - {jobId},
       createdAt := s.createdAt - {jobId},
       agentNonce := s.agentNonce - {jobId})
  }

  /** `clean_old_jobs`: for every listed id whose creation timestamp is set
      and older than the retention window, clear the job; skip every other
      id silently. The call never fails. */
  method CleanOldJobs(s: ValidationState, now: nat, jobIds: seq<Bytes>) returns (t: ValidationState)
    ensures t.owner == s.owner
    ensures forall j | j in jobIds && Expired(s, now, j) :: Cleared(t, j)
    ensures forall j | !(j in jobIds && Expired(s, now, j)) :: SameJob(s, t, j)
  {
    t := s;
    var i := 0;
    while i < |jobIds|
      invariant 0 <= i <= |jobIds|
      invariant t.owner == s.owner
      invariant forall j | j in jobIds[..i] && Expired(s, now, j) :: Cleared(t, j)
      invariant forall j | !(j in jobIds[..i] && Expired(s, now, j)) :: SameJob(s, t, j)
    {
      var jobId := jobIds[i];
      assert jobIds[..i + 1] == jobIds[..i] + [jobId];
      if Expired(t, now, jobId) {
        assert SameJob(s, t, jobId);
        t := ClearJob(t, jobId);
      } else if Expired(s, now, jobId) {
        assert jobId in jobIds[..i];
      }
      i := i + 1;
    }
    assert jobIds[..i] == jobIds;
  }

  /** Once a job has been cleaned, its id can be initialised again. */
  lemma ReinitAfterClean(t: ValidationState, caller: Address, now: nat, jobId: Bytes, agentNonce: nat)
    requires Cleared(t, jobId)
    ensures InitJob(t, caller, now, jobId, agentNonce).Ok?
    ensures !IsJobVerified(t, jobId)
  {
  }

  /** Verifying twice is the same as verifying once. */
  lemma VerifyJobIdempotent(s: ValidationState, caller: Address, jobId: Bytes)
    requires VerifyJob(s, caller, jobId).Ok?
    ensures VerifyJob(VerifyJob(s, caller, jobId).value, caller, jobId) == VerifyJob(s, caller, jobId)
  {
    var m := s.status[jobId := Verified];
    assert m[jobId := Verified] == m;
  }

  /** `submit_proof` does not respect the Verified status: a proof submitted
      after verification turns the job back to not verified. */
  lemma SubmitProofRevokesVerification(s: ValidationState, jobId: Bytes, proof: Bytes)
    requires IsJobVerified(s, jobId) && AgentNonceOf(s, jobId) != 0
    ensures SubmitProof(s, jobId, proof).Ok?
    ensures !IsJobVerified(SubmitProof(s, jobId, proof).value, jobId)
  {
  }

  /** `verify_job` marks even a job that was never initialised as verified. */
  lemma VerifyUninitialisedJob(s: ValidationState, jobId: Bytes)
    requires Cleared(s, jobId)
    ensures VerifyJob(s, s.owner, jobId).Ok?
    ensures IsJobVerified(VerifyJob(s, s.owner, jobId).value, jobId)
    ensures jobId !in VerifyJob(s, s.owner, jobId).value.employer
  {
  }

  /** A job with a submitted proof reads as not verified until the owner
      verifies it, and as verified afterwards. */
  lemma PendingUntilVerified(s: ValidationState, jobId: Bytes, proof: Bytes)
    requires AgentNonceOf(s, jobId) != 0
    ensures SubmitProof(s, jobId, proof).Ok?
    ensures var s1 := SubmitProof(s, jobId, proof).value;
      && !IsJobVerified(s1, jobId)
      && VerifyJob(s1, s.owner, jobId).Ok?
      && IsJobVerified(VerifyJob(s1, s.owner, jobId).value, jobId)
  {
  }

  /** The happy path: initialise, submit a proof, verify; the job then reads
      as verified and keeps its employer and agent nonce. */
  lemma LifecycleVerifies(s: ValidationState, employer: Address, now: nat, jobId: Bytes,
                          agentNonce: nat, proof: Bytes)
    requires jobId !in s.employer && agentNonce != 0
    ensures
      var s1 := InitJob(s, employer, now, jobId, agentNonce);
      s1.Ok? &&
      var s2 := SubmitProof(s1.value, jobId, proof);
      s2.Ok? &&
      var s3 := VerifyJob(s2.value, s.owner, jobId);
      && s3.Ok?
      && IsJobVerified(s3.value, jobId)
      && Lookup(s3.value.employer, jobId) == Some(employer)
      && AgentNonceOf(s3.value, jobId) == agentNonce
  {
  }
}
