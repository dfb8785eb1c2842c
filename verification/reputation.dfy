/** The reputation registry (reputation-registry/src/lib.rs and utils.rs):
    employers of verified jobs rate agents once per job, and each agent
    keeps an integer cumulative moving average of its ratings. */
module Reputation {
  import opened Common
  import ValidationRegistry

  /** The registry's storage, keyed by agent nonce or job id. Absent keys
      are empty mappers: score and total read as 0, flags as false. */
  datatype ReputationState = ReputationState(
    score: map<nat, nat>,
    totalJobs: map<nat, nat>,
    hasGivenFeedback: set<Bytes>,
    authorized: set<(Bytes, Address)>,
    response: map<Bytes, Bytes>)

  datatype ReputationError =
    | JobNotVerified
    | NotEmployer
    | FeedbackNotAuthorized
    | FeedbackAlreadyProvided
    | JobNotInitialized
    | UnknownAgent
    | NotAgentOwner

  function ScoreOf(st: ReputationState, agent: nat): nat {
    GetOrDefault(st.score, agent, 0)
  }

  function TotalOf(st: ReputationState, agent: nat): nat {
    GetOrDefault(st.totalJobs, agent, 0)
  }

  /** The cumulative moving average after one more rating: `k` ratings
      averaging `current` and a new `rating`, over `k + 1`, truncated.
      Characterised as the largest `v` with `v * (k + 1)` not above the
      weighted sum. */
  function Average(current: nat, k: nat, rating: nat): (v: nat)
    ensures v * (k + 1) <= current * k + rating < (v + 1) * (k + 1)
    ensures k == 0 ==> v == rating
  {
    var x: nat := current * k + rating;
    DivisionBounds(x, k + 1);
    x / (k + 1)
  }

  /** `calculate_new_score`: counts one more job for the agent and returns
      the cumulative moving average `(current * (n - 1) + rating) / n` over
      the incremented count `n`. The score itself is not written. */
  function CalculateNewScore(st: ReputationState, agent: nat, rating: nat): (r: (ReputationState, nat))
    ensures TotalOf(r.0, agent) == TotalOf(st, agent) + 1
    ensures forall a | a != agent :: Lookup(r.0.totalJobs, a) == Lookup(st.totalJobs, a)
    ensures r.0.score == st.score
    ensures r.0.hasGivenFeedback == st.hasGivenFeedback
    ensures r.0.authorized == st.authorized && r.0.response == st.response
    ensures r.1 == Average(ScoreOf(st, agent), TotalOf(st, agent), rating)
    ensures TotalOf(st, agent) == 0 ==> r.1 == rating
    ensures ScoreOf(st, agent) <= rating ==> ScoreOf(st, agent) <= r.1 <= rating
    ensures rating <= ScoreOf(st, agent) ==> rating <= r.1 <= ScoreOf(st, agent)
  {
    var n := TotalOf(st, agent) + 1;
    AverageBetween(ScoreOf(st, agent), n - 1, rating);
    (st.(totalJobs := st.totalJobs[agent := n]), Average(ScoreOf(st, agent), n - 1, rating))
  }

  lemma DivisionBounds(x: nat, n: nat)
    requires n > 0
    ensures (x / n) * n <= x < (x / n + 1) * n
  {
  }

  /** The new average lies between the old average and the new rating. */
  lemma {:induction false} AverageBetween(current: nat, k: nat, rating: nat)
    ensures var v := Average(current, k, rating);
      && (current <= rating ==> current <= v <= rating)
      && (rating <= current ==> rating <= v <= current)
  {
    var n := k + 1;
    var v := Average(current, k, rating);
    MulSucc(current, k);
    MulSucc(rating, k);
    if current <= rating {
      MulMono(current, rating, k);
      CancelLt(current, v + 1, n);
      CancelLe(v, rating, n);
    } else {
      MulMono(rating, current, k);
      CancelLt(rating, v + 1, n);
      CancelLe(v, current, n);
    }
  }

  lemma MulSucc(a: nat, m: nat)
    ensures a * (m + 1) == a * m + a
  {
  }

  lemma MulMono(a: nat, b: nat, k: nat)
    requires a <= b
    ensures a * k <= b * k
  {
  }

  /** Cancelling a positive factor from `a * n <= b * n`. */
  lemma CancelLe(a: nat, b: nat, n: nat)
    requires n > 0 && a * n <= b * n
    ensures a <= b
  {
    if a > b {
      MulMono(b + 1, a, n);
    }
  }

  /** Cancelling a positive factor from `a * n < b * n`. */
  lemma CancelLt(a: nat, b: nat, n: nat)
    requires n > 0 && a * n < b * n
    ensures a < b
  {
    if a >= b {
      MulMono(b, a, n);
    }
  }

  /** The effect of one accepted rating: the count goes up by one and the
      score becomes the new moving average. */
  function RecordRating(st: ReputationState, agent: nat, rating: nat): (r: ReputationState)
    ensures TotalOf(r, agent) == TotalOf(st, agent) + 1
    ensures forall a | a != agent ::
      Lookup(r.score, a) == Lookup(st.score, a) && Lookup(r.totalJobs, a) == Lookup(st.totalJobs, a)
    ensures ScoreOf(st, agent) <= rating ==> ScoreOf(st, agent) <= ScoreOf(r, agent) <= rating
    ensures rating <= ScoreOf(st, agent) ==> rating <= ScoreOf(r, agent) <= ScoreOf(st, agent)
    ensures ScoreOf(r, agent) == Average(ScoreOf(st, agent), TotalOf(st, agent), rating)
    ensures r.hasGivenFeedback == st.hasGivenFeedback
    ensures r.authorized == st.authorized && r.response == st.response
  {
    var (st', s) := CalculateNewScore(st, agent, rating);
    st'.(score := st'.score[agent := s])
  }

  /** `submit_feedback`: four guards in order (verified job, caller is the
      job's employer, feedback authorised for the caller, no feedback yet
      for the job), then the rating is recorded against the supplied agent
      nonce and the job is marked as rated. The nonce is not checked
      against the job's agent. */
  function SubmitFeedback(st: ReputationState, caller: Address, validation: ValidationRegistry.ValidationState,
                          jobId: Bytes, agent: nat, rating: nat)
    : (r: Result<ReputationState, ReputationError>)
    ensures r.Ok? <==>
      && ValidationRegistry.IsJobVerified(validation, jobId)
      && Lookup(validation.employer, jobId) == Some(caller)
      && (jobId, caller) in st.authorized
      && jobId !in st.hasGivenFeedback
    ensures !ValidationRegistry.IsJobVerified(validation, jobId) ==> r == Err(JobNotVerified)
    ensures (&& ValidationRegistry.IsJobVerified(validation, jobId)
             && Lookup(validation.employer, jobId) != Some(caller))
            ==> r == Err(NotEmployer)
    ensures (&& ValidationRegistry.IsJobVerified(validation, jobId)
             && Lookup(validation.employer, jobId) == Some(caller)
             && (jobId, caller) !in st.authorized)
            ==> r == Err(FeedbackNotAuthorized)
    ensures (&& ValidationRegistry.IsJobVerified(validation, jobId)
             && Lookup(validation.employer, jobId) == Some(caller)
             && (jobId, caller) in st.authorized
             && jobId in st.hasGivenFeedback)
            ==> r == Err(FeedbackAlreadyProvided)
    ensures r.Ok? ==>
      && r.value == RecordRating(st, agent, rating).(hasGivenFeedback := st.hasGivenFeedback + {jobId})
      && jobId in r.value.hasGivenFeedback
      && r.value.authorized == st.authorized
      && r.value.response == st.response
  {
    if !ValidationRegistry.IsJobVerified(validation, jobId) then Err(JobNotVerified)
    else if Lookup(validation.employer, jobId) != Some(caller) then Err(NotEmployer)
    else if (jobId, caller) !in st.authorized then Err(FeedbackNotAuthorized)
    else if jobId in st.hasGivenFeedback then Err(FeedbackAlreadyProvided)
    else
      var st' := RecordRating(st, agent, rating);
      Ok(st'.(hasGivenFeedback := st'.hasGivenFeedback + {jobId}))
  }

  /** `authorize_feedback`: sets the flag for (job, client). It does not
      check who calls it. */
  function AuthorizeFeedback(st: ReputationState, jobId: Bytes, client: Address): (r: ReputationState)
    ensures (jobId, client) in r.authorized
    ensures forall p | p != (jobId, client) :: p in r.authorized <==> p in st.authorized
    ensures r.score == st.score && r.totalJobs == st.totalJobs
    ensures r.hasGivenFeedback == st.hasGivenFeedback && r.response == st.response
  {
    st.(authorized := st.authorized + {(jobId, client)})
  }

  /** `require_agent_owner` (utils.rs): the owner the identity registry
      records for an agent nonce, with no comparison against the caller. */
  function ResolveAgentOwner(owners: map<nat, Address>, agent: nat): (r: Option<Address>)
    ensures r.Some? <==> agent in owners
    ensures r.Some? ==> r.value == owners[agent]
  {
    Lookup(owners, agent)
  }

  /** `append_response`: the owner of the job's agent stores a response
      reference for the job, replacing any earlier one. The agent's details
      come from the identity registry; an unknown agent aborts the read. */
  function AppendResponse(st: ReputationState, caller: Address, validation: ValidationRegistry.ValidationState,
                          owners: map<nat, Address>, jobId: Bytes, responseUri: Bytes)
    : (r: Result<ReputationState, ReputationError>)
    ensures var agent := ValidationRegistry.AgentNonceOf(validation, jobId);
      r.Ok? <==> agent != 0 && agent in owners && owners[agent] == caller
    ensures ValidationRegistry.AgentNonceOf(validation, jobId) == 0 ==> r == Err(JobNotInitialized)
    ensures var agent := ValidationRegistry.AgentNonceOf(validation, jobId);
      agent != 0 && agent in owners && owners[agent] != caller ==> r == Err(NotAgentOwner)
    ensures r.Ok? ==>
      && Lookup(r.value.response, jobId) == Some(responseUri)
      && (forall j | j != jobId :: Lookup(r.value.response, j) == Lookup(st.response, j))
      && r.value.score == st.score && r.value.totalJobs == st.totalJobs
      && r.value.hasGivenFeedback == st.hasGivenFeedback && r.value.authorized == st.authorized
  {
    var agent := ValidationRegistry.AgentNonceOf(validation, jobId);
    if agent == 0 then Err(JobNotInitialized)
    else match ResolveAgentOwner(owners, agent)
      case None => Err(UnknownAgent)
      case Some(owner) =>
        if caller != owner then Err(NotAgentOwner)
        else Ok(st.(response := st.response[jobId := responseUri]))
  }

  /** Authorising the same pair twice is the same as authorising it once. */
  lemma AuthorizeFeedbackIdempotent(st: ReputationState, jobId: Bytes, client: Address)
    ensures AuthorizeFeedback(AuthorizeFeedback(st, jobId, client), jobId, client)
            == AuthorizeFeedback(st, jobId, client)
  {
    var s1 := st.authorized + {(jobId, client)};
    assert s1 + {(jobId, client)} == s1;
  }

  /** Feedback for a job is accepted at most once: after one success, every
      later submission for the same job fails, whoever sends it and whatever
      agent nonce and rating it names; with the same caller and validation
      snapshot it fails precisely as already provided. */
  lemma FeedbackAtMostOnce(st: ReputationState, caller: Address, validation: ValidationRegistry.ValidationState,
                           jobId: Bytes, agent: nat, rating: nat,
                           caller2: Address, validation2: ValidationRegistry.ValidationState,
                           agent2: nat, rating2: nat)
    requires SubmitFeedback(st, caller, validation, jobId, agent, rating).Ok?
    ensures var st' := SubmitFeedback(st, caller, validation, jobId, agent, rating).value;
      && SubmitFeedback(st', caller2, validation2, jobId, agent2, rating2).Err?
      && SubmitFeedback(st', caller, validation, jobId, agent2, rating2) == Err(FeedbackAlreadyProvided)
  {
  }

  /** The agent nonce a rating is recorded against is the caller's choice:
      it need not be the agent the validation registry holds for the job,
      and that agent's reputation is then left untouched. */
  lemma FeedbackAgentUnchecked(st: ReputationState, caller: Address, validation: ValidationRegistry.ValidationState,
                               jobId: Bytes, agent: nat, rating: nat)
    requires SubmitFeedback(st, caller, validation, jobId, agent, rating).Ok?
    requires agent != ValidationRegistry.AgentNonceOf(validation, jobId)
    ensures var st' := SubmitFeedback(st, caller, validation, jobId, agent, rating).value;
      var jobAgent := ValidationRegistry.AgentNonceOf(validation, jobId);
      && TotalOf(st', agent) == TotalOf(st, agent) + 1
      && TotalOf(st', jobAgent) == TotalOf(st, jobAgent)
      && ScoreOf(st', jobAgent) == ScoreOf(st, jobAgent)
  {
  }

  /** The first rating an agent receives becomes its score. */
  lemma FirstRatingIsScore(st: ReputationState, agent: nat, rating: nat)
    requires TotalOf(st, agent) == 0
    ensures ScoreOf(RecordRating(st, agent, rating), agent) == rating
    ensures TotalOf(RecordRating(st, agent, rating), agent) == 1
  {
  }

  /** The reference definition of the score after ratings r1..rk, by the
      recurrence score_k = (score_{k-1} * (k - 1) + r_k) / k, score_0 = 0. */
  function MovingAverage(ratings: seq<nat>): nat {
    if ratings == [] then 0
    else Average(MovingAverage(ratings[..|ratings| - 1]), |ratings| - 1, ratings[|ratings| - 1])
  }

  /** Accepting ratings one after another for the same agent. */
  function RecordRatings(st: ReputationState, agent: nat, ratings: seq<nat>): ReputationState {
    if ratings == [] then st
    else RecordRating(RecordRatings(st, agent, ratings[..|ratings| - 1]), agent, ratings[|ratings| - 1])
  }

  /** For an agent with no accepted feedback yet, after ratings r1..rk the
      stored count is k and the stored score follows the recurrence. */
  lemma {:induction false} ScoreRecurrence(st: ReputationState, agent: nat, ratings: seq<nat>)
    requires TotalOf(st, agent) == 0
    requires |ratings| > 0
    ensures TotalOf(RecordRatings(st, agent, ratings), agent) == |ratings|
    ensures ScoreOf(RecordRatings(st, agent, ratings), agent) == MovingAverage(ratings)
    decreases |ratings|
  {
    var init := ratings[..|ratings| - 1];
    if init != [] {
      ScoreRecurrence(st, agent, init);
    }
  }

  /** The sum of the ratings. */
  function Sum(ratings: seq<nat>): nat {
    if ratings == [] then 0 else Sum(ratings[..|ratings| - 1]) + ratings[|ratings| - 1]
  }

  /** Rounding down at every step never overstates the exact mean: the score
      times the number of ratings is at most their sum. */
  lemma {:induction false} MovingAverageNeverOverstates(ratings: seq<nat>)
    ensures MovingAverage(ratings) * |ratings| <= Sum(ratings)
    decreases |ratings|
  {
    if ratings != [] {
      var init := ratings[..|ratings| - 1];
      MovingAverageNeverOverstates(init);
      var c := MovingAverage(init);
      assert MovingAverage(ratings) * (|init| + 1) <= c * |init| + ratings[|ratings| - 1];
    }
  }

  /** The average always lies between the smallest and the largest rating. */
  lemma {:induction false} MovingAverageBounded(ratings: seq<nat>, lo: nat, hi: nat)
    requires |ratings| > 0
    requires forall i | 0 <= i < |ratings| :: lo <= ratings[i] <= hi
    ensures lo <= MovingAverage(ratings) <= hi
    decreases |ratings|
  {
    var init := ratings[..|ratings| - 1];
    var last := ratings[|ratings| - 1];
    var k := |init|;
    if init == [] {
      assert MovingAverage(ratings) == last;
    } else {
      MovingAverageBounded(init, lo, hi);
      var c := MovingAverage(init);
      AverageBetween(c, k, last);
    }
  }
}
