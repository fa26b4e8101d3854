/** Verification of the mix chain (standalone/verify.py lines 76-110).
    Stage n-1 shuffled the cast ballots, stage k shuffled stage k+1's
    output, and stage 0's output is what gets decrypted. The audit checks
    the stages in loop order i = 0 .. n-1, i.e. stage index n-1-i, so each
    stage's input is either the ballots or a stage already checked. */
module MixChain {
  import opened Wrappers
  import opened ModArith
  import opened Election
  import opened VoterOrder

  predicate HasFirstChoice(b: Ballot, q: nat)
  {
    q < |b.answers| && |b.answers[q]| > 0
  }

  /** One ciphertext per ballot, the first choice of its answer to
      question q, in list order; any ballot lacking it makes the stage's
      check fail. */
  function FirstChoices(bs: seq<Ballot>, q: nat): (r: Result<seq<Ciphertext>, Reason>)
    ensures r.Ok? <==> forall k :: 0 <= k < |bs| ==> HasFirstChoice(bs[k], q)
    ensures r.Ok? ==> |r.value| == |bs|
    ensures r.Ok? ==> forall k :: 0 <= k < |bs| ==> r.value[k] == bs[k].answers[q][0]
    ensures r.Err? ==> r.error == Malformed
    decreases |bs|
  {
    if |bs| == 0 then Ok([])
    else if !HasFirstChoice(bs[0], q) then Err(Malformed)
    else
      match FirstChoices(bs[1..], q)
      case Err(e) => Err(e)
      case Ok(rest) => Ok([bs[0].answers[q][0]] + rest)
  }

  /** A stage's published collection for question q. */
  function StageOutput(stage: MixStage, q: nat): Result<seq<Ciphertext>, Reason>
  {
    if q < |stage.outputs| then Ok(stage.outputs[q]) else Err(Malformed)
  }

  /** The collection stage `index` is claimed to have shuffled: the output
      of the stage after it, or, for the last stage, the first choices of
      the ballots in descending voter order. */
  function StageInput(t: Transcript, index: nat, q: nat): (r: Result<seq<Ciphertext>, Reason>)
    requires index < |t.mixes|
    ensures r.Err? ==> r.error == Malformed
    ensures index + 1 < |t.mixes| ==>
      && (r.Ok? <==> q < |t.mixes[index + 1].outputs|)
      && (r.Ok? ==> r.value == t.mixes[index + 1].outputs[q])
    ensures index + 1 == |t.mixes| ==>
      && (r.Ok? <==> forall b :: b in t.ballots ==> HasFirstChoice(b, q))
      && (r.Ok? ==> |r.value| == |t.ballots|)
      && (r.Ok? ==> forall k :: 0 <= k < |r.value| ==>
            var b := SortByVoterDesc(t.ballots)[k];
            HasFirstChoice(b, q) && r.value[k] == b.answers[q][0])
  {
    if index == |t.mixes| - 1 then
      SortedFirstChoices(t.ballots, q);
      FirstChoices(SortByVoterDesc(t.ballots), q)
    else StageOutput(t.mixes[index + 1], q)
  }

  /** Sorting the ballots changes neither how many there are nor whether
      all of them have a first choice. */
  lemma SortedFirstChoices(bs: seq<Ballot>, q: nat)
    ensures |SortByVoterDesc(bs)| == |bs|
    ensures FirstChoices(SortByVoterDesc(bs), q).Ok? <==> forall b :: b in bs ==> HasFirstChoice(b, q)
  {
    var sorted := SortByVoterDesc(bs);
    assert |sorted| == |multiset(sorted)| == |multiset(bs)| == |bs|;
    if FirstChoices(sorted, q).Ok? {
      forall b | b in bs
        ensures HasFirstChoice(b, q)
      {
        assert b in multiset(sorted);
        var k :| 0 <= k < |sorted| && sorted[k] == b;
      }
    } else {
      var k :| 0 <= k < |sorted| && !HasFirstChoice(sorted[k], q);
      assert sorted[k] in multiset(bs);
    }
  }

  /** Everything the library is handed for one stage and question: the
      proof is read first, then the original, then the shuffled collection.
      Any of them missing makes the stage malformed. */
  function StageInstance(t: Transcript, key: PublicKey, index: nat, q: nat): (r: Result<ShuffleInstance, Reason>)
    requires index < |t.mixes|
    ensures r.Ok? <==> q < |t.mixes[index].proofs| && q < |t.mixes[index].outputs| && StageInput(t, index, q).Ok?
    ensures r.Ok? ==> r.value == ShuffleInstance(key, StageInput(t, index, q).value, t.mixes[index].outputs[q], t.mixes[index].proofs[q])
    ensures r.Err? ==> r.error == Malformed
  {
    if q >= |t.mixes[index].proofs| then Err(Malformed)
    else
      match StageInput(t, index, q)
      case Err(e) => Err(e)
      case Ok(orig) =>
        match StageOutput(t.mixes[index], q)
        case Err(e) => Err(e)
        case Ok(shuf) => Ok(ShuffleInstance(key, orig, shuf, t.mixes[index].proofs[q]))
  }

  /** The check of one stage and question. The recomputed challenge is
      compared first, and a mismatch decides the check without consulting
      the shuffle verification. */
  function StageOutcome(t: Transcript, lib: Library, key: PublicKey, index: nat, q: nat): (r: Outcome<Reason>)
    requires index < |t.mixes|
    ensures r == Pass <==>
      && StageInstance(t, key, index, q).Ok?
      && lib.shuffleChallenge(StageInstance(t, key, index, q).value) == StageInstance(t, key, index, q).value.proof.challenge
      && lib.shuffleVerifies(StageInstance(t, key, index, q).value)
    ensures StageInstance(t, key, index, q).Ok?
      && lib.shuffleChallenge(StageInstance(t, key, index, q).value) != StageInstance(t, key, index, q).value.proof.challenge
      ==> r == Fail(ChallengeMismatch)
    ensures r == Fail(ShuffleRejected) ==>
      && StageInstance(t, key, index, q).Ok?
      && lib.shuffleChallenge(StageInstance(t, key, index, q).value) == StageInstance(t, key, index, q).value.proof.challenge
    ensures StageInstance(t, key, index, q).Ok?
      && lib.shuffleChallenge(StageInstance(t, key, index, q).value) == StageInstance(t, key, index, q).value.proof.challenge
      && !lib.shuffleVerifies(StageInstance(t, key, index, q).value)
      ==> r == Fail(ShuffleRejected)
    ensures StageInstance(t, key, index, q).Err? ==> r == Fail(Malformed)
  {
    match StageInstance(t, key, index, q)
    case Err(e) => Fail(e)
    case Ok(inst) =>
      if lib.shuffleChallenge(inst) != inst.proof.challenge then Fail(ChallengeMismatch)
      else if !lib.shuffleVerifies(inst) then Fail(ShuffleRejected)
      else Pass
  }

  /** The mix checks of stage `index`, questions q .. nq-1, in order. */
  function StageRow(index: nat, q: nat, nq: nat): seq<Check>
    decreases nq - q
  {
    if q >= nq then [] else [Mix(index, q)] + StageRow(index, q + 1, nq)
  }

  /** The mix checks of stages m-1 down to 0, each over every question. */
  function MixOrder(m: nat, nq: nat): seq<Check>
  {
    if m == 0 then [] else StageRow(m - 1, 0, nq) + MixOrder(m - 1, nq)
  }

  /** The verdict of every stage check of a transcript, as one function of
      (stage index, question); indices past the last stage never occur in
      the walk and read as malformed. */
  function StageVerdicts(t: Transcript, lib: Library, key: PublicKey): (v: (nat, nat) -> Outcome<Reason>)
    ensures forall index: nat, q: nat :: index < |t.mixes| ==> v(index, q) == StageOutcome(t, lib, key, index, q)
  {
    (index: nat, q: nat) => if index < |t.mixes| then StageOutcome(t, lib, key, index, q) else Fail(Malformed)
  }

  /** `f` is a failing mix check of one of the m stages, reported with its
      own reason. */
  predicate MixFails(v: (nat, nat) -> Outcome<Reason>, m: nat, f: Failure)
  {
    f.at.Mix? && f.at.index < m && v(f.at.index, f.at.question) == Fail(f.reason)
  }

  /** Every check listed is a mix check of one of the m stages that passes. */
  predicate MixesPassed(v: (nat, nat) -> Outcome<Reason>, m: nat, cs: seq<Check>)
  {
    forall k :: 0 <= k < |cs| ==> cs[k].Mix? && cs[k].index < m && v(cs[k].index, cs[k].question) == Pass
  }

  /** Stage `index` passes for every question from q up to nq-1. */
  predicate RowPasses(v: (nat, nat) -> Outcome<Reason>, nq: nat, index: nat, q: nat)
  {
    forall q' :: q <= q' < nq ==> v(index, q') == Pass
  }

  /** Stages 0 .. m-1 pass for every question. */
  predicate StagesPass(v: (nat, nat) -> Outcome<Reason>, nq: nat, m: nat)
  {
    forall index :: 0 <= index < m ==> RowPasses(v, nq, index, 0)
  }

  lemma StagesPassStep(v: (nat, nat) -> Outcome<Reason>, nq: nat, m: nat)
    requires 0 < m
    ensures StagesPass(v, nq, m) <==> RowPasses(v, nq, m - 1, 0) && StagesPass(v, nq, m - 1)
  {
  }

  lemma RowPassesStep(v: (nat, nat) -> Outcome<Reason>, nq: nat, index: nat, q: nat)
    requires q < nq
    ensures RowPasses(v, nq, index, q) <==> v(index, q) == Pass && RowPasses(v, nq, index, q + 1)
  {
  }

  lemma MixesPassedCons(v: (nat, nat) -> Outcome<Reason>, m: nat, c: Check, cs: seq<Check>)
    requires c.Mix? && c.index < m && v(c.index, c.question) == Pass
    requires MixesPassed(v, m, cs)
    ensures MixesPassed(v, m, [c] + cs)
  {
    assert forall k :: 0 < k < |[c] + cs| ==> ([c] + cs)[k] == cs[k - 1];
  }

  lemma MixesPassedAppend(v: (nat, nat) -> Outcome<Reason>, m: nat, a: seq<Check>, b: seq<Check>)
    requires MixesPassed(v, m, a) && MixesPassed(v, m, b)
    ensures MixesPassed(v, m, a + b)
  {
    assert forall k :: |a| <= k < |a + b| ==> (a + b)[k] == b[k - |a|];
  }

  /** Questions q .. nq-1 of stage `index` (the inner loop of lines 79-110);
      the first failure stops the walk. */
  function QuestionWalk(v: (nat, nat) -> Outcome<Reason>, nq: nat, index: nat, q: nat): (s: Step<()>)
    requires q <= nq
    ensures s.out.Ok? <==> RowPasses(v, nq, index, q)
    ensures s.out.Ok? ==> s.passed == StageRow(index, q, nq)
    ensures s.out.Err? ==> MixFails(v, index + 1, s.out.error) && s.out.error.at.index == index
    ensures s.out.Err? ==> s.passed + [s.out.error.at] <= StageRow(index, q, nq)
    ensures MixesPassed(v, index + 1, s.passed)
    decreases nq - q
  {
    if q == nq then Step([], Ok(()))
    else
      RowPassesStep(v, nq, index, q);
      match v(index, q)
      case Fail(r) => Step([], Err(Failure(Mix(index, q), r)))
      case Pass =>
        var rest := QuestionWalk(v, nq, index, q + 1);
        var row := StageRow(index, q + 1, nq);
        MixesPassedCons(v, index + 1, Mix(index, q), rest.passed);
        assert StageRow(index, q, nq) == [Mix(index, q)] + row;
        PrefixAfter([Mix(index, q)], rest.passed, if rest.out.Err? then [rest.out.error.at] else [], row);
        Step([Mix(index, q)] + rest.passed, rest.out)
  }

  /** Loop iterations i .. m-1 of lines 77-110: iteration i checks stage
      m-1-i for every question. */
  function MixWalk(v: (nat, nat) -> Outcome<Reason>, m: nat, nq: nat, i: nat): (s: Step<()>)
    requires i <= m
    ensures s.out.Ok? <==> StagesPass(v, nq, m - i)
    ensures s.out.Ok? ==> s.passed == MixOrder(m - i, nq)
    ensures s.out.Err? ==> MixFails(v, m - i, s.out.error)
    ensures s.out.Err? ==> s.passed + [s.out.error.at] <= MixOrder(m - i, nq)
    ensures MixesPassed(v, m - i, s.passed)
    decreases m - i
  {
    if i == m then Step([], Ok(()))
    else
      var index := m - i - 1;
      var row := QuestionWalk(v, nq, index, 0);
      StagesPassStep(v, nq, m - i);
      MixOrderUnfold(index, nq);
      if row.out.Err? then
        PrefixExtends(row.passed + [row.out.error.at], StageRow(index, 0, nq), MixOrder(index, nq));
        row
      else
        var rest := MixWalk(v, m, nq, i + 1);
        PrefixAfter(row.passed, rest.passed, if rest.out.Err? then [rest.out.error.at] else [], MixOrder(index, nq));
        MixesPassedWiden(v, index, m - i, rest.passed);
        MixesPassedAppend(v, m - i, row.passed, rest.passed);
        Step(row.passed + rest.passed, rest.out)
  }

  lemma MixesPassedWiden(v: (nat, nat) -> Outcome<Reason>, m1: nat, m2: nat, cs: seq<Check>)
    requires m1 <= m2 && MixesPassed(v, m1, cs)
    ensures MixesPassed(v, m2, cs)
  {
  }

  lemma MixOrderUnfold(index: nat, nq: nat)
    ensures MixOrder(index + 1, nq) == StageRow(index, 0, nq) + MixOrder(index, nq)
  {
  }

  lemma PrefixExtends(a: seq<Check>, b: seq<Check>, c: seq<Check>)
    requires a <= b
    ensures a <= b + c
  {
    assert (b + c)[..|b|] == b;
  }

  lemma PrefixAfter(a: seq<Check>, b: seq<Check>, x: seq<Check>, c: seq<Check>)
    requires b + x <= c
    ensures a + b + x <= a + c
  {
    assert a + b + x == a + (b + x);
    assert (a + c)[..|a + b + x|] == a + c[..|b + x|];
  }

  lemma {:induction false} StageRowShape(index: nat, q: nat, nq: nat)
    ensures |StageRow(index, q, nq)| == if q <= nq then nq - q else 0
    ensures forall k :: 0 <= k < |StageRow(index, q, nq)| ==> StageRow(index, q, nq)[k] == Mix(index, q + k)
    decreases nq - q
  {
    if q < nq {
      StageRowShape(index, q + 1, nq);
    }
  }

  /** The mix checks cover every stage and question: m*nq checks, each
      naming an existing stage and question, and every pair among them. */
  lemma {:induction false} MixOrderShape(m: nat, nq: nat)
    ensures |MixOrder(m, nq)| == m * nq
    ensures forall k :: 0 <= k < |MixOrder(m, nq)| ==>
      MixOrder(m, nq)[k].Mix? && MixOrder(m, nq)[k].index < m && MixOrder(m, nq)[k].question < nq
    ensures forall index, q :: 0 <= index < m && 0 <= q < nq ==> Mix(index, q) in MixOrder(m, nq)
    decreases m
  {
    if m > 0 {
      var j := m - 1;
      MixOrderShape(j, nq);
      StageRowShape(j, 0, nq);
      MixOrderUnfold(j, nq);
      var row, rest := StageRow(j, 0, nq), MixOrder(j, nq);
      var s := MixOrder(m, nq);
      MulSucc(j, nq);
      forall k | 0 <= k < |s|
        ensures s[k].Mix? && s[k].index < m && s[k].question < nq
      {
        if k >= |row| {
          assert s[k] == rest[k - |row|];
        }
      }
      forall index, q | 0 <= index < m && 0 <= q < nq
        ensures Mix(index, q) in s
      {
        if index == j {
          assert s[q] == Mix(index, q);
        } else {
          assert Mix(index, q) in rest;
        }
      }
    }
  }

  /** The mix checks run in descending stage order, and no check is made
      twice. */
  lemma {:induction false} MixOrderDescending(m: nat, nq: nat)
    ensures forall k :: 0 <= k < |MixOrder(m, nq)| ==> MixOrder(m, nq)[k].Mix?
    ensures forall k, l :: 0 <= k < l < |MixOrder(m, nq)| ==>
      MixOrder(m, nq)[k].index >= MixOrder(m, nq)[l].index
    ensures forall k, l :: 0 <= k < l < |MixOrder(m, nq)| ==> MixOrder(m, nq)[k] != MixOrder(m, nq)[l]
    decreases m
  {
    MixOrderShape(m, nq);
    if m > 0 {
      var j := m - 1;
      MixOrderDescending(j, nq);
      MixOrderShape(j, nq);
      StageRowShape(j, 0, nq);
      MixOrderUnfold(j, nq);
      var row, rest := StageRow(j, 0, nq), MixOrder(j, nq);
      var s := MixOrder(m, nq);
      forall k, l | 0 <= k < l < |s|
        ensures s[k].index >= s[l].index && s[k] != s[l]
      {
        if l < |row| {
        } else if k < |row| {
          assert s[l] == rest[l - |row|];
        } else {
          assert s[k] == rest[k - |row|] && s[l] == rest[l - |row|];
        }
      }
    }
  }

  /** When stage `index` reads stage index+1's output, that stage's check
      for the same question came earlier in the walk. */
  lemma PredecessorCheckedFirst(m: nat, nq: nat, k: nat, index: nat, q: nat)
    requires k < |MixOrder(m, nq)| && MixOrder(m, nq)[k] == Mix(index, q)
    requires index + 1 < m && q < nq
    ensures exists l :: 0 <= l < k && MixOrder(m, nq)[l] == Mix(index + 1, q)
  {
    MixOrderShape(m, nq);
    MixOrderDescending(m, nq);
    var s := MixOrder(m, nq);
    assert Mix(index + 1, q) in s;
    var l :| 0 <= l < |s| && s[l] == Mix(index + 1, q);
    if k < l {
      assert false;
    }
  }

  /** Every stage check of the transcript passes. */
  predicate AllStagesPass(t: Transcript, lib: Library, key: PublicKey)
  {
    forall index, q :: 0 <= index < |t.mixes| && 0 <= q < t.questionCount ==> StageOutcome(t, lib, key, index, q) == Pass
  }

  /** `f` names a stage check of the transcript that fails with f's reason. */
  predicate StageFails(t: Transcript, lib: Library, key: PublicKey, f: Failure)
  {
    f.at.Mix? && f.at.index < |t.mixes| && StageOutcome(t, lib, key, f.at.index, f.at.question) == Fail(f.reason)
  }

  /** Every check listed is a stage check of the transcript that passes. */
  predicate StagesPassed(t: Transcript, lib: Library, key: PublicKey, cs: seq<Check>)
  {
    forall k :: 0 <= k < |cs| ==>
      && cs[k].Mix? && cs[k].index < |t.mixes|
      && StageOutcome(t, lib, key, cs[k].index, cs[k].question) == Pass
  }

  /** The mix walk of a transcript, from the first loop iteration: it
      succeeds exactly when every stage check passes, lists the checks in
      loop order, every check it lists passed, and a failure it reports is
      a failing stage check right after them in loop order. */
  function TranscriptMixWalk(t: Transcript, lib: Library, key: PublicKey): (s: Step<()>)
    ensures s.out.Ok? <==> AllStagesPass(t, lib, key)
    ensures s.out.Ok? ==> s.passed == MixOrder(|t.mixes|, t.questionCount)
    ensures s.out.Err? ==> StageFails(t, lib, key, s.out.error)
    ensures s.out.Err? ==> s.passed + [s.out.error.at] <= MixOrder(|t.mixes|, t.questionCount)
    ensures StagesPassed(t, lib, key, s.passed)
  {
    var v := StageVerdicts(t, lib, key);
    StagesPassMeans(t, lib, key);
    var s := MixWalk(v, |t.mixes|, t.questionCount, 0);
    assert MixesPassed(v, |t.mixes|, s.passed);
    s
  }

  /** All stages pass, read through the verdict function, means every
      stage check of the transcript passes. */
  lemma StagesPassMeans(t: Transcript, lib: Library, key: PublicKey)
    ensures StagesPass(StageVerdicts(t, lib, key), t.questionCount, |t.mixes|) <==> AllStagesPass(t, lib, key)
  {
    var v := StageVerdicts(t, lib, key);
    if StagesPass(v, t.questionCount, |t.mixes|) {
      forall index, q | 0 <= index < |t.mixes| && 0 <= q < t.questionCount
        ensures StageOutcome(t, lib, key, index, q) == Pass
      {
        assert RowPasses(v, t.questionCount, index, 0);
      }
    }
    if AllStagesPass(t, lib, key) {
      forall index | 0 <= index < |t.mixes|
        ensures RowPasses(v, t.questionCount, index, 0)
      {
      }
    }
  }

  /** After a successful mix walk, the check of any stage and question
      passed. */
  lemma WalkPassedStage(t: Transcript, lib: Library, key: PublicKey, index: nat, q: nat)
    requires TranscriptMixWalk(t, lib, key).out.Ok?
    requires index < |t.mixes| && q < t.questionCount
    ensures StageOutcome(t, lib, key, index, q) == Pass
  {
  }

  /** A successful mix walk has verified every stage: for each stage and
      question the recomputed challenge matched and the shuffle proof held. */
  lemma VerifiedStages(t: Transcript, lib: Library, key: PublicKey)
    requires TranscriptMixWalk(t, lib, key).out.Ok?
    ensures forall index, q :: 0 <= index < |t.mixes| && 0 <= q < t.questionCount ==>
      && StageInstance(t, key, index, q).Ok?
      && lib.shuffleChallenge(StageInstance(t, key, index, q).value) == StageInstance(t, key, index, q).value.proof.challenge
      && lib.shuffleVerifies(StageInstance(t, key, index, q).value)
  {
    forall index, q | 0 <= index < |t.mixes| && 0 <= q < t.questionCount
      ensures && StageInstance(t, key, index, q).Ok?
              && lib.shuffleChallenge(StageInstance(t, key, index, q).value) == StageInstance(t, key, index, q).value.proof.challenge
              && lib.shuffleVerifies(StageInstance(t, key, index, q).value)
    {
      WalkPassedStage(t, lib, key, index, q);
    }
  }

  /** The verified stages form one unbroken chain: every stage but the
      first-applied one shuffled exactly what the stage after it in index
      order published. */
  lemma ChainLinked(t: Transcript, lib: Library, key: PublicKey, index: nat, q: nat)
    requires TranscriptMixWalk(t, lib, key).out.Ok?
    requires index + 1 < |t.mixes| && q < t.questionCount
    ensures StageInstance(t, key, index, q).Ok? && StageInstance(t, key, index + 1, q).Ok?
    ensures StageInstance(t, key, index, q).value.orig == StageInstance(t, key, index + 1, q).value.shuf
  {
    WalkPassedStage(t, lib, key, index, q);
    WalkPassedStage(t, lib, key, index + 1, q);
    assert StageInput(t, index, q) == StageOutput(t.mixes[index + 1], q);
  }

  /** The first-applied stage, n-1, shuffled the ballots' first choices in
      descending voter order. */
  lemma ChainStartsAtBallots(t: Transcript, lib: Library, key: PublicKey, q: nat)
    requires TranscriptMixWalk(t, lib, key).out.Ok?
    requires |t.mixes| > 0 && q < t.questionCount
    ensures StageInstance(t, key, |t.mixes| - 1, q).Ok?
    ensures FirstChoices(SortByVoterDesc(t.ballots), q).Ok?
    ensures StageInstance(t, key, |t.mixes| - 1, q).value.orig == FirstChoices(SortByVoterDesc(t.ballots), q).value
  {
    WalkPassedStage(t, lib, key, |t.mixes| - 1, q);
  }
}
