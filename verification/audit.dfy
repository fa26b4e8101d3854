/** One run of the standalone audit (standalone/verify.py): load the key,
    check every mix stage in reverse order, then every decryption, and
    report either the results or the first check that failed. A failing
    status check re-raises its exception, so nothing after it is checked. */
module Audit {
  import opened Wrappers
  import opened ModArith
  import opened GroupSize
  import opened Election
  import opened VoterOrder
  import opened MixChain
  import opened Decryption
  import opened Tally

  /** The group and key of lines 51-53. A zero prime makes the logarithm
      raise; otherwise the key size is derived from p and the library
      decides whether it accepts the group and the key. */
  function LoadKey(k: ElectionKey, lib: Library): (r: Result<PublicKey, Reason>)
    ensures k.p == 0 ==> r == Err(LogDomainError)
    ensures k.p > 0 && !lib.acceptsKey(Group(NBits(k.p), k.p, k.g), k.y) ==> r == Err(KeyRejected)
    ensures r.Ok? <==> k.p > 0 && lib.acceptsKey(Group(NBits(k.p), k.p, k.g), k.y)
    ensures r.Ok? ==> r.value == PublicKey(Group(NBits(k.p), k.p, k.g), k.y)
    ensures r.Ok? ==> r.value.group.p == k.p && r.value.group.g == k.g && r.value.y == k.y
    ensures r.Ok? ==> r.value.group.p > 0 && r.value.group.p < Pow(2, r.value.group.nbits + 1)
    ensures r.Ok? ==> r.value.group.nbits % 256 == 0
  {
    if k.p == 0 then Err(LogDomainError)
    else
      var group := Group(NBits(k.p), k.p, k.g);
      if !lib.acceptsKey(group, k.y) then Err(KeyRejected)
      else Ok(PublicKey(group, k.y))
  }

  datatype Verdict = Valid(results: seq<seq<nat>>) | Invalid(failure: Failure)

  /** The checks that passed, in order, and how the run ended. */
  datatype Report = Report(passed: seq<Check>, verdict: Verdict)

  /** The reference condition for a valid election: the key loads, every
      stage passes for every question, and every question's decryptions
      verify. */
  predicate AuditPasses(t: Transcript, lib: Library)
  {
    && LoadKey(t.key, lib).Ok?
    && AllStagesPass(t, lib, LoadKey(t.key, lib).value)
    && QuestionsPass(t, lib, LoadKey(t.key, lib).value, 0, t.questionCount)
  }

  /** A reported failure is the first failing check of the run: the key
      does not load; or, the key loading, a stage check fails after every
      stage check before it in loop order passed; or, every stage check
      passing, a decryption check fails as TallyFails describes. */
  predicate GenuineFailure(t: Transcript, lib: Library, f: Failure)
  {
    if f.at == Download then LoadKey(t.key, lib) == Err(f.reason)
    else
      && LoadKey(t.key, lib).Ok?
      && var key := LoadKey(t.key, lib).value;
      if f.at.Mix? then
        && StageFails(t, lib, key, f)
        && exists k :: 0 <= k < |MixOrder(|t.mixes|, t.questionCount)|
             && MixOrder(|t.mixes|, t.questionCount)[k] == f.at
             && StagesPassed(t, lib, key, MixOrder(|t.mixes|, t.questionCount)[..k])
      else
        && AllStagesPass(t, lib, key)
        && TallyFails(t, lib, key, f)
  }

  /** The whole run. */
  function Run(t: Transcript, lib: Library): (r: Report)
    ensures r.verdict.Valid? <==> AuditPasses(t, lib)
    ensures r.verdict.Valid? ==> r.verdict.results == t.results
    ensures r.verdict.Valid? ==>
      r.passed == [Download] + MixOrder(|t.mixes|, t.questionCount) + TallyOrder(t, 0, t.questionCount)
    ensures r.verdict.Invalid? ==> GenuineFailure(t, lib, r.verdict.failure)
    ensures r.verdict.Invalid? && r.verdict.failure.at == Download ==> r.passed == []
    ensures r.verdict.Invalid? && r.verdict.failure.at.Mix? ==>
      && LoadKey(t.key, lib).Ok?
      && |r.passed| > 0 && r.passed[0] == Download
      && r.passed[1..] + [r.verdict.failure.at] <= MixOrder(|t.mixes|, t.questionCount)
      && StagesPassed(t, lib, LoadKey(t.key, lib).value, r.passed[1..])
    ensures r.verdict.Invalid? && r.verdict.failure.at != Download && !r.verdict.failure.at.Mix? ==>
      && LoadKey(t.key, lib).Ok?
      && r.passed == [Download] + MixOrder(|t.mixes|, t.questionCount) + TallyTrace(t, r.verdict.failure)
  {
    match LoadKey(t.key, lib)
    case Err(e) => Report([], Invalid(Failure(Download, e)))
    case Ok(key) =>
      var mixes := TranscriptMixWalk(t, lib, key);
      if mixes.out.Err? then
        var order := MixOrder(|t.mixes|, t.questionCount);
        var k := |mixes.passed|;
        assert order[..k] == mixes.passed && order[k] == mixes.out.error.at;
        assert ([Download] + mixes.passed)[1..] == mixes.passed;
        Report([Download] + mixes.passed, Invalid(mixes.out.error))
      else
        var tally := TranscriptTally(t, lib, key);
        if tally.out.Err? then
          Report([Download] + mixes.passed + tally.passed, Invalid(tally.out.error))
        else
          Report([Download] + mixes.passed + tally.passed, Valid(t.results))
  }

  /** An election with at least one question and no mix stage is never
      reported valid: once the key loads, the run stops when it reads stage
      0's output for the first question. */
  lemma NoMixStops(t: Transcript, lib: Library)
    requires t.questionCount >= 1 && |t.mixes| == 0
    requires LoadKey(t.key, lib).Ok?
    ensures Run(t, lib).verdict == Invalid(Failure(FinalMix(0), Malformed))
  {
  }

  /** Run reports an election valid exactly when the reference condition
      holds, so two transcripts with the same reference verdict get the
      same report verdict. */
  lemma SameValidity(t1: Transcript, t2: Transcript, lib: Library)
    requires AuditPasses(t1, lib) <==> AuditPasses(t2, lib)
    ensures Run(t1, lib).verdict.Valid? <==> Run(t2, lib).verdict.Valid?
  {
  }

  /** The order in which the server lists the cast ballots does not matter:
      as long as voter ids are distinct, any rearrangement of the same
      ballots gives every stage the same input, and the election is valid
      for one listing exactly when it is for the other, because the first
      stage's input is rebuilt in voter-id order. */
  lemma BallotListingIrrelevant(t: Transcript, lib: Library, ballots: seq<Ballot>)
    requires multiset(ballots) == multiset(t.ballots)
    requires UniqueVoters(t.ballots)
    ensures forall index, q :: 0 <= index < |t.mixes| ==>
      StageInput(t.(ballots := ballots), index, q) == StageInput(t, index, q)
    ensures Run(t.(ballots := ballots), lib).verdict.Valid? <==> Run(t, lib).verdict.Valid?
  {
    var t2 := t.(ballots := ballots);
    ListingOrderIrrelevant(t.ballots, ballots);
    forall index, q | 0 <= index < |t.mixes|
      ensures StageInput(t2, index, q) == StageInput(t, index, q)
    {
    }
    BallotListingSameReference(t, t2, lib);
    SameValidity(t, t2, lib);
  }

  lemma BallotListingSameReference(t: Transcript, t2: Transcript, lib: Library)
    requires t2 == t.(ballots := t2.ballots)
    requires forall index, q :: 0 <= index < |t.mixes| ==> StageInput(t2, index, q) == StageInput(t, index, q)
    ensures AuditPasses(t, lib) <==> AuditPasses(t2, lib)
  {
    assert LoadKey(t2.key, lib) == LoadKey(t.key, lib);
    if LoadKey(t.key, lib).Ok? {
      var key := LoadKey(t.key, lib).value;
      forall index, q | 0 <= index < |t.mixes|
        ensures StageOutcome(t, lib, key, index, q) == StageOutcome(t2, lib, key, index, q)
      {
        assert StageInstance(t, key, index, q) == StageInstance(t2, key, index, q);
      }
      forall q | 0 <= q < t.questionCount
        ensures QuestionPasses(t, lib, key, q) <==> QuestionPasses(t2, lib, key, q)
      {
        assert FinalCiphertexts(t, q) == FinalCiphertexts(t2, q);
      }
    }
  }

  /** Permuting the trustees never changes whether the election is
      reported valid. */
  lemma TrusteeOrderIrrelevantRun(t: Transcript, lib: Library, trustees: seq<Trustee>)
    requires multiset(trustees) == multiset(t.trustees)
    ensures Run(t.(trustees := trustees), lib).verdict.Valid? <==> Run(t, lib).verdict.Valid?
  {
    TrusteeOrderSameReference(t, lib, trustees);
    SameValidity(t, t.(trustees := trustees), lib);
  }

  lemma TrusteeOrderSameReference(t: Transcript, lib: Library, trustees: seq<Trustee>)
    requires multiset(trustees) == multiset(t.trustees)
    ensures AuditPasses(t.(trustees := trustees), lib) <==> AuditPasses(t, lib)
  {
    var t2 := t.(trustees := trustees);
    assert LoadKey(t2.key, lib) == LoadKey(t.key, lib);
    if LoadKey(t.key, lib).Ok? {
      var key := LoadKey(t.key, lib).value;
      forall index, q | 0 <= index < |t.mixes|
        ensures StageOutcome(t, lib, key, index, q) == StageOutcome(t2, lib, key, index, q)
      {
        assert StageInstance(t, key, index, q) == StageInstance(t2, key, index, q);
      }
      forall q | 0 <= q < t.questionCount
        ensures QuestionPasses(t, lib, key, q) <==> QuestionPasses(t2, lib, key, q)
      {
        assert FinalCiphertexts(t, q) == FinalCiphertexts(t2, q);
        if FinalCiphertexts(t, q).Some? {
          var finals := FinalCiphertexts(t, q).value;
          forall i | 0 <= i < |finals|
            ensures PositionPasses(lib, key, finals, t.results, t.trustees, q, i)
                <==> PositionPasses(lib, key, finals, t.results, trustees, q, i)
          {
            if ClaimAt(t.results, q, i).Some? {
              TrusteeOrderIrrelevant(lib, key, finals[i], ClaimAt(t.results, q, i).value, t.trustees, trustees, q, i);
            }
          }
        }
      }
    }
  }
}
