/** The single-record job store of the validation registry (`job_data`), as
    read by the escrow contract and by the registry's read-only views
    (validation-registry/src/views.rs). */
module ValidationViews {
  import opened Common

  /** Verification status of a job. */
  datatype JobStatus = New | Pending | Verified

  /** The per-job record kept by the validation registry. */
  datatype JobData = JobData(
    status: JobStatus,
    proof: Bytes,
    employer: Address,
    creationTimestamp: nat,
    agentNonce: nat)

  /** Job records keyed by job id; an absent key is an empty mapper. */
  type JobStore = map<Bytes, JobData>

  /** `is_job_verified`: a record exists and its status is Verified. */
  function IsJobVerified(jobs: JobStore, jobId: Bytes): (r: bool)
    ensures jobId !in jobs ==> !r
  {
    jobId in jobs && jobs[jobId].status == Verified
  }

  /** `get_job_data`: the stored record, or nothing for an empty mapper. */
  function GetJobData(jobs: JobStore, jobId: Bytes): (r: Option<JobData>)
    ensures r.None? <==> jobId !in jobs
    ensures r.Some? ==> r.value == jobs[jobId]
  {
    if jobId !in jobs then None else Some(jobs[jobId])
  }

  /** The two views agree: a job reads as verified exactly when the record
      the data view returns carries the Verified status. */
  lemma VerifiedIffRecordVerified(jobs: JobStore, jobId: Bytes)
    ensures IsJobVerified(jobs, jobId)
        <==> GetJobData(jobs, jobId).Some? && GetJobData(jobs, jobId).value.status == Verified
  {
  }
}
