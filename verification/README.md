# mx-8004 job settlement, modelled in Dafny

This project models the job-settlement core of the mx-8004 agent registries on
MultiversX. Four contracts are covered:

- **identity registry**: one soulbound agent NFT per address, with
  key/value metadata whose `price:`, `token:` and `pnonce:` entries are synced
  into per-service pricing storage;
- **validation registry**: a job is initialised by its employer, the agent
  submits a proof, and the contract owner verifies the job; jobs older than
  three days can be cleaned;
- **escrow**: an employer locks a payment for a job; the employer releases it
  to the receiver once the job is verified, or anyone refunds it to the
  employer after the deadline;
- **reputation registry**: the employer of a verified job leaves one rating,
  if the agent authorised it, and the rating is folded into the agent's
  cumulative moving average.

Every endpoint is a pure function from the contract's storage and the call's
arguments to `Result<new storage, error>`. An error carries no storage, which
is the transaction rollback. Each cross-contract read is a parameter holding a
snapshot of the other contract's storage:

- the escrow reads the validation registry's `JobData` map (`ValidationViews`);
- the reputation registry reads the validation registry's per-field storage
  (`ValidationRegistry`);
- the reputation registry reads the owner of an agent from the identity
  registry. `append_response` reads the owner stored in the agent's details.
  That owner is passed as the nonce-to-owner map, because the identity
  registry's consistency invariant (`Identity.Valid`) makes the two equal.

Block time and the caller are also parameters. A settling escrow call returns
the ordered list of its effects: the record write, then the transfer. This is
what lets the checks-effects-interactions ordering be stated.

Modules, one per source file:

- `Common`: bytes, addresses, payments, `Option`, `Result`;
- `Codec`: top-decoding of `BigUint`, `u64` and token ids;
- `ValidationViews`;
- `ValidationRegistry`;
- `Escrow`, plus `EscrowSafety` for properties of whole call sequences;
- `Reputation`;
- `Metadata`: the metadata list and the pricing sync;
- `Identity`;
- `IdentityUtils`.

### Behaviour worth knowing

- **`submit_proof`** (validation-registry/src/lib.rs:32-41) sets the status to
  Pending unconditionally, so a Verified job goes back to Pending when a
  proof is submitted again. `ValidationRegistry.SubmitProofRevokesVerification`
  states this.
- **`verify_job`** (validation-registry/src/lib.rs:43-51) does not check that
  the job exists. `ValidationRegistry.VerifyUninitialisedJob` shows that a job
  id with no record becomes verified.
- **`authorize_feedback`** (reputation-registry/src/lib.rs:71-76) has no caller
  check: anyone may authorise any client for any job.
- **`submit_feedback`** does not check the agent nonce it is given against the
  job's agent. `Reputation.FeedbackAgentUnchecked` states this.
- **`JobStatus`**: the validation registry's own enum (lib.rs:8-11) has only
  Pending and Verified. An empty status slot reads as not verified. The `New`
  status of the shared `JobData` type is never stored by `ValidationRegistry`.

## Model

| member | source | states |
|---|---|---|
| Codec.DecodeBigUint | identity-registry/src/lib.rs:250-251 | decoding a price never fails, and the value fits in the buffer's width |
| Codec.EncodeBigUint | identity-registry/src/lib.rs:111 | the big-endian encoding of a number has no leading zero byte, and only zero encodes as the empty buffer |
| Codec.DecodeEncodeBigUint | identity-registry/src/lib.rs:109-112 | decoding the encoding of any number gives the number back |
| Codec.DecodeU64 | identity-registry/src/lib.rs:277 | a `u64` decode fails exactly when the buffer is longer than eight bytes; otherwise the value is below 2^64 |
| Codec.DecodeToken | identity-registry/src/lib.rs:263-264 | a token id decodes to the native coin exactly when the buffer is "EGLD" |
| ValidationViews.IsJobVerified | validation-registry/src/views.rs:10-14 | a job with no record is never verified |
| ValidationViews.GetJobData | validation-registry/src/views.rs:16-24 | the view is empty exactly when no record is stored, and otherwise returns the stored record |
| ValidationViews.VerifiedIffRecordVerified | validation-registry/src/views.rs:10-24 | `isJobVerified` holds exactly when `getJobData` returns a record whose status is Verified |
| ValidationRegistry.InitJob | validation-registry/src/lib.rs:19-29 | initialisation fails with "Job already initialized" exactly when the job has an employer; otherwise it records the caller, the block time and the agent nonce, and leaves every other job alone |
| ValidationRegistry.SubmitProof | validation-registry/src/lib.rs:32-41 | a proof is accepted exactly when the job's agent nonce is non-zero; the proof is then stored, the status becomes Pending, and the owner and the other slots are unchanged |
| ValidationRegistry.VerifyJob | validation-registry/src/lib.rs:43-51 | only the owner may verify; afterwards the job reads as verified, and nothing else changes (owner, proofs, employers, timestamps, nonces, other jobs' statuses) |
| ValidationRegistry.IsJobVerified | validation-registry/src/lib.rs:69-72 | a job whose status slot is empty is not verified; a verified job has Verified stored |
| ValidationRegistry.PendingUntilVerified | validation-registry/tests/validation_registry_test.rs:38-53 | after a proof is submitted the job is not verified; once the owner verifies it, it is |
| ValidationRegistry.CleanOldJobs | validation-registry/src/lib.rs:53-67 | every listed job created more than three days before `now` has all five slots cleared; a job with timestamp 0, a job that is not old enough, and every unlisted job keep all their slots |
| ValidationRegistry.ReinitAfterClean | validation-registry/src/lib.rs:19-29 | once a job's slots are cleared, its id can be initialised again, and it is not verified |
| ValidationRegistry.VerifyJobIdempotent | validation-registry/src/lib.rs:43-51 | verifying a job a second time leaves the state as the first verification did |
| ValidationRegistry.SubmitProofRevokesVerification | validation-registry/src/lib.rs:32-41 | a proof submitted for a verified job succeeds, and afterwards the job is no longer verified |
| ValidationRegistry.VerifyUninitialisedJob | validation-registry/src/lib.rs:43-51 | the owner can verify a job id that was never initialised, which then reads as verified with no employer |
| ValidationRegistry.LifecycleVerifies | validation-registry/src/lib.rs:19-72 | init, submit and verify all succeed in that order, and leave the job verified with its employer and agent nonce |
| Escrow.Deposit | escrow/src/lib.rs:41-71 | a deposit succeeds exactly when the deadline is in the future and the job has no escrow; the deadline is checked first; it stores an Active record of the caller's payment and changes no other job |
| Escrow.DepositNeverOverwrites | escrow/src/storage.rs:33-35 | a deposit only adds a record for a new job id; it never replaces or removes an existing escrow |
| Escrow.Release | escrow/src/lib.rs:76-108 | a release succeeds exactly when the escrow is Active, the caller is its employer and the validation record is Verified; each failing guard gives its own error, and a missing validation record gives "escrow not found"; on success the record is persisted as Released and the payment goes to the receiver |
| Escrow.Refund | escrow/src/lib.rs:113-134 | anyone can refund, and it succeeds exactly when the escrow is Active and the block time is strictly past the deadline; each failing guard gives its own error; on success the record is persisted as Refunded and the payment goes back to the employer |
| Escrow.ReleasePersistsBeforePaying | escrow/src/lib.rs:97-105 | a release writes the Released record before its only transfer: the locked payment to the receiver |
| Escrow.RefundPersistsBeforePaying | escrow/src/lib.rs:123-131 | a refund writes the Refunded record before its only transfer: the locked payment to the employer |
| EscrowSafety.ApplyPaysOnSettling | escrow/src/lib.rs:76-134 | a call pays out for a job exactly when it moves that job from Active to settled, and then it pays exactly once |
| EscrowSafety.PaidIffSettled | escrow/src/lib.rs:76-134 | from an empty store, after any sequence of calls, a job has been paid once if it is settled and never otherwise |
| EscrowSafety.PayoutAtMostOnce | escrow/src/lib.rs:76-134 | no sequence of deposits, releases and refunds pays out an escrow more than once |
| EscrowSafety.SettledIsFinal | escrow/src/lib.rs:80-81 | a Released or Refunded escrow keeps its record through any later sequence of calls |
| EscrowSafety.PayoutJustified | escrow/src/lib.rs:77-131 | every payout comes from a release or a refund of an Active escrow; a release pays the receiver of a verified job on the employer's call, and a refund pays the employer after the deadline |
| EscrowSafety.ReleaseBeforeVerificationFails | escrow/src/lib.rs:86-95 | after a deposit, a release before the job is verified fails and the store is unchanged |
| EscrowSafety.RefundThenReleaseFails | escrow/src/lib.rs:113-134 | after a refund, a release by the employer fails as already settled, even when the job is verified |
| Reputation.Average | reputation-registry/src/utils.rs:14-19 | the new score is the floor of (score × previous count + rating) ÷ new count; the first rating is taken as is |
| Reputation.CalculateNewScore | reputation-registry/src/utils.rs:7-20 | the agent's job count goes up by one and no other agent's does; the returned score lies between the old score and the rating |
| Reputation.AverageBetween | reputation-registry/src/utils.rs:7 | the cumulative moving average of an old score and a rating lies between the two |
| Reputation.RecordRating | reputation-registry/src/lib.rs:53-65 | a rating raises the agent's job count by one and sets its score to the floor of (old score × old count + rating) ÷ new count, which lies between the old score and the rating; every other agent, the feedback flags, authorisations and responses are unchanged |
| Reputation.SubmitFeedback | reputation-registry/src/lib.rs:14-69 | feedback succeeds exactly when the job is verified, the caller is its employer, the caller is authorised and no feedback was given; the guards are checked in that order, each with its own error; on success the rating is recorded and the job is marked as rated |
| Reputation.AuthorizeFeedback | reputation-registry/src/lib.rs:71-76 | the (job, client) pair becomes authorised and nothing else changes |
| Reputation.ResolveAgentOwner | reputation-registry/src/utils.rs:22-26 | an agent's owner is found exactly when the identity registry holds one, and it is that owner |
| Reputation.AppendResponse | reputation-registry/src/lib.rs:78-110 | a response is stored exactly when the job has a non-zero agent nonce and the caller owns that agent; the errors are "not initialized", unknown agent and not owner, in that order |
| Reputation.AuthorizeFeedbackIdempotent | reputation-registry/src/lib.rs:71-76 | authorising the same pair twice is the same as authorising it once |
| Reputation.FeedbackAtMostOnce | reputation-registry/src/lib.rs:47-51 | after a successful feedback, a second feedback for the same job fails as already provided |
| Reputation.FeedbackAgentUnchecked | reputation-registry/src/lib.rs:53-66 | feedback for a job can be recorded against an agent other than the job's own; the job's agent's score and count are then unchanged |
| Reputation.FirstRatingIsScore | reputation-registry/tests/authenticity_loop_test.rs:104-107 | an agent's first rating becomes its score, and its job count becomes 1 |
| Reputation.ScoreRecurrence | reputation-registry/src/lib.rs:53-65 | after n ratings, starting from no jobs, the count is n and the score is the integer cumulative moving average of the ratings |
| Reputation.MovingAverageNeverOverstates | reputation-registry/src/lib.rs:58-63 | rounding down at every rating never lets the score exceed the exact mean: score × number of ratings ≤ sum of the ratings |
| Reputation.MovingAverageBounded | reputation-registry/src/utils.rs:7 | if every rating lies in [lo, hi], the score does too |
| Metadata.Get | identity-registry/src/lib.rs:286-298 | the lookup is empty exactly when no entry has the key |
| Metadata.GetReturnsFirstMatch | identity-registry/src/lib.rs:292-296 | the lookup returns the value of the first entry with the key |
| Metadata.GetAppend | identity-registry/src/lib.rs:292-297 | a lookup in a concatenation searches the first part, then the second |
| Metadata.ReplaceKey | identity-registry/src/lib.rs:214-223 | one pass replaces every entry with the key by the new entry, keeps the others in place, and reports whether the key was found |
| Metadata.UpsertOne | identity-registry/src/lib.rs:213-227 | upserting one entry keeps the keys and order of existing entries, replaces the matching ones, and appends the entry when the key is new |
| Metadata.UpsertOneGet | identity-registry/src/lib.rs:213-227 | after upserting an entry, its key reads as its value and every other key reads as before |
| Metadata.ReplaceKeyGet | identity-registry/src/lib.rs:214-223 | after a replacing pass, the key reads as the new value if it was present; other keys read as before |
| Metadata.UpsertGet | identity-registry/src/lib.rs:212-228 | after upserting a list, a key reads as its last entry's value in the list, or as before if no entry names it |
| Metadata.UpsertKeepsOrder | identity-registry/src/lib.rs:212-228 | an upsert never drops or reorders existing keys; an entry whose key is not upserted stays as it was |
| Metadata.LastValue | identity-registry/src/lib.rs:212-228 | a key has a last value in a list exactly when some entry has the key |
| Metadata.ServiceIdOf | identity-registry/src/lib.rs:243-249 | a key names a service exactly when it is strictly longer than the prefix and starts with it; the service id is the non-empty rest |
| Metadata.ServiceIdOfConcat | identity-registry/src/lib.rs:243-249 | for a non-empty id, the prefix followed by that id is the only key that names it |
| Metadata.DecodePaymentNonce | identity-registry/src/lib.rs:277 | a payment nonce longer than eight bytes falls back to 0; otherwise it is the big-endian value |
| Metadata.SyncPricingByField | identity-registry/src/lib.rs:242-282 | syncing a list sets prices, tokens and payment nonces independently, each from its own prefix |
| Metadata.SyncFieldLookup | identity-registry/src/lib.rs:242-282 | after the sync, a service id holds the decoded value of the last entry keyed by prefix + id, or keeps its old value if there is none |
| Metadata.SyncPricingLookup | identity-registry/src/lib.rs:237-283 | after the sync, a service's price, token and payment nonce each come from the last matching `price:`, `token:` and `pnonce:` entry, and stay unchanged without one |
| Identity.DefaultMetadata | identity-registry/src/lib.rs:107-113 | the default metadata is the single entry `price:0` whose value decodes to zero |
| Identity.SyncPricingMetadata | identity-registry/src/lib.rs:237-283 | the sync changes only this agent's pricing storage |
| Identity.RegisterAgent | identity-registry/src/lib.rs:81-149 | registration succeeds exactly when the token is issued and the caller has no agent; the id is the next nonce; the caller becomes owner both ways; empty metadata becomes the default; pricing is synced from the stored metadata; the NFT goes to the caller |
| Identity.MergeDetails | identity-registry/src/lib.rs:175-185 | an empty URI or key keeps the old one; metadata is replaced only when supplied; name and owner never change |
| Identity.UpdateAgent | identity-registry/src/lib.rs:157-197 | an update succeeds exactly when the token is issued, the NFT sent is the agent token, and it stands for a known agent; the details are merged; pricing is re-synced only when metadata is supplied; the NFT is returned to the caller |
| Identity.SetMetadata | identity-registry/src/lib.rs:201-235 | only the agent's owner may set metadata; the entries are upserted into the list; pricing is re-synced from the whole merged list |
| Identity.GetMetadata | identity-registry/src/lib.rs:286-298 | a known agent's lookup is the metadata lookup, which returns the first entry with the key, and is empty exactly when no entry has it |
| Identity.RegisterKeepsValid | identity-registry/src/lib.rs:89-137 | registration keeps the registry consistent: ids run from 1 to the counter, the address-to-id and id-to-owner maps are inverse, and every agent has details with its owner; the new id is unused |
| Identity.UpdatesKeepValid | identity-registry/src/lib.rs:157-235 | updating an agent or setting its metadata keeps the registry consistent |
| Identity.SuccessiveIds | identity-registry/src/lib.rs:97-100 | distinct new addresses registering in turn get the ids counter+1, counter+2, … in order |
| Identity.RegisterWithoutMetadata | identity-registry/src/lib.rs:102-123 | an agent registered without metadata stores `price:0` and has price 0 for service "0" |
| Identity.SetMetadataEffect | identity-registry/src/lib.rs:201-235 | after setting metadata, a key the entries write reads as its last new value and any other key reads as before; a service's price comes from the last `price:` entry of the merged list, or stays as it was without one |
| Identity.PriceDefaultIsHundred | validation-registry/tests/edge_cases_test.rs:118-128 | setting `price:default` to the byte 0x64 makes service "default" cost 100 |
| Identity.LastValueOfUpsert | identity-registry/src/lib.rs:213-227 | after an upsert, the entry's key last holds its value |
| Identity.LastValueAllMatches | identity-registry/src/lib.rs:216-226 | if every entry with a key equals one entry, that entry's value is the key's last value |
| IdentityUtils.RequireAgentOwner | identity-registry/src/utils.rs:8-13 | the check passes exactly when the caller is the agent's stored owner, and it returns the caller |
| IdentityUtils.SyncMetadataLookup | identity-registry/src/utils.rs:15-23 | after the sync, a key holds its last entry's value, or its old value if no entry names it |
| IdentityUtils.ConfigFor | identity-registry/src/utils.rs:30-38 | an input stores a payment exactly when its price is positive, with that token, nonce and amount |
| IdentityUtils.LastInput | identity-registry/src/utils.rs:30-39 | a service id has a last input exactly when some input names it |
| IdentityUtils.SyncServiceConfigsLookup | identity-registry/src/utils.rs:25-40 | after the sync, a service id holds what its last input says: the payment for a positive price, or nothing for a zero price; unnamed ids are unchanged |
| IdentityUtils.StoredPricesPositive | identity-registry/src/utils.rs:31-35 | every stored service configuration has a positive amount |

## Left out

- NFT minting, `issue_token`, attribute storage on the NFT, and the NFT nonce.
  The agent's details live in the registry state, and the minted NFT's nonce
  is taken to equal the registry's counter.
- Events (`escrow_deposited_event`, `job_verified_event`,
  `reputation_updated_event`, …). They change no storage.
- `init_job_with_payment`, the contract-address setters and `init`. They are
  outside the settlement core modelled here.
- The views `get_agent`, `get_agent_id`, `get_agent_service_config` and the
  raw storage getters. Each reads one stored value.
- Integer widths: `u64` counters and nonces, the `u32` service id of a
  service configuration input, and `BigUint` are all unbounded `nat`. A `u64` overflow of the agent counter or of `total_jobs` is not
  modelled.
- `submit_feedback` with no employer stored for the job is modelled as failing
  with the not-employer error. On chain the cross-contract read of an empty
  address slot never equals a caller either.
- `append_response` for an agent the identity registry does not know is a
  separate error (`UnknownAgent`). On chain the cross-contract `get_agent`
  call fails.
- `update_agent` / `set_metadata` for a nonce with no agent is the
  `UnknownAgent` error. On chain, reading the attributes of a missing token
  fails.
- Codec.DecodeToken: accepts every buffer, so the fallback to the native coin
  in identity-registry/src/lib.rs:264 is unreachable here. The ESDT
  identifier format check of the real decoder is not modelled.
- Codec.EncodeBigUint: zero encodes as the empty buffer, which is what the
  virtual machine's big-integer byte export gives.
- Escrow.Deposit: takes exactly one payment with a positive amount. A call
  with no payment or with several aborts in `call_value().single()`
  (escrow/src/lib.rs:48), and that abort is not modelled.
- Identity.UpdateAgent: takes exactly one payment. A call with no ESDT
  payment or with several aborts in `call_value().single_esdt()`
  (identity-registry/src/lib.rs:165), and that abort is not modelled.
