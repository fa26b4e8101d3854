/** Verification of the tally (standalone/verify.py lines 112-155): for
    every question, every ciphertext of the last mix stage's output is
    checked against the claimed result at the same position, trustee by
    trustee and then as a whole. The first failing check ends the run.

    Both loops, over questions and over the positions of one question, are
    the same walk over a numbered family of steps: `Walk` is written once
    and instantiated twice. */
module Tally {
  import opened Wrappers
  import opened Election
  import opened MixChain
  import opened Decryption

  /** The ciphertexts that were decrypted for question q: stage 0's output.
      Without a stage 0 or without that question they cannot be read. */
  function FinalCiphertexts(t: Transcript, q: nat): (r: Option<seq<Ciphertext>>)
    ensures r.Some? <==> |t.mixes| > 0 && q < |t.mixes[0].outputs|
    ensures r.Some? ==> r.value == t.mixes[0].outputs[q]
  {
    if |t.mixes| == 0 then None
    else
      match StageOutput(t.mixes[0], q)
      case Ok(c) => Some(c)
      case Err(_) => None
  }

  /** The claimed result for position i of question q, if one is published. */
  function ClaimAt(results: seq<seq<nat>>, q: nat, i: nat): (r: Option<nat>)
    ensures r.Some? <==> q < |results| && i < |results[q]|
    ensures r.Some? ==> r.value == results[q][i]
  {
    if q < |results| && i < |results[q]| then Some(results[q][i]) else None
  }

  /** Position i of question q verifies: a result is claimed and the
      trustees' factors decrypt the ciphertext to it. */
  predicate PositionPasses(lib: Library, key: PublicKey, finals: seq<Ciphertext>, results: seq<seq<nat>>,
                           ts: seq<Trustee>, q: nat, i: nat)
    requires key.group.p > 0 && i < |finals|
  {
    && ClaimAt(results, q, i).Some?
    && PositionOutcome(lib, key, finals[i], ClaimAt(results, q, i).value, ts, q, i).out.Ok?
  }

  /** The checks made for one position when all of them pass. */
  function PositionChecks(q: nat, i: nat, nt: nat): seq<Check>
  {
    ShareRow(q, i, 0, nt) + [Plaintext(q, i)]
  }

  /** How position i of question q fails: the claim is missing; or the
      first failing trustee, after every earlier trustee passed; or, all
      trustees passing, the combination check. */
  predicate PositionFails(lib: Library, key: PublicKey, finals: seq<Ciphertext>, results: seq<seq<nat>>,
                          ts: seq<Trustee>, q: nat, i: nat, f: Failure)
    requires key.group.p > 0 && i < |finals|
  {
    match f.at
    case ClaimedResult(q', i') =>
      q' == q && i' == i && ClaimAt(results, q, i).None? && f.reason == Malformed
    case Share(q', i', _) =>
      && q' == q && i' == i && ClaimAt(results, q, i).Some?
      && !SharesPass(lib, key, finals[i].alpha, ts, q, i)
      && ShareFails(lib, key, finals[i].alpha, ts, q, i, 0, f)
    case Plaintext(q', i') =>
      && q' == q && i' == i && ClaimAt(results, q, i).Some?
      && SharesPass(lib, key, finals[i].alpha, ts, q, i)
      && !PlaintextHolds(FactorProduct(ts, q, i), ClaimAt(results, q, i).value, finals[i].beta, key.group.p)
      && f.reason == PlaintextMismatch
    case _ => false
  }

  /** The checks of a position that pass before failure f: the trustees
      before the failing one, or all of them when the combination fails. */
  function PositionTrace(f: Failure, nt: nat): seq<Check>
  {
    match f.at
    case Share(q, i, j) => ShareRow(q, i, 0, j)
    case Plaintext(q, i) => ShareRow(q, i, 0, nt)
    case _ => []
  }

  /** One position (lines 117-155): the claimed result is read first, and a
      missing one stops the run before any trustee is checked. */
  function PositionStep(lib: Library, key: PublicKey, finals: seq<Ciphertext>, results: seq<seq<nat>>,
                        ts: seq<Trustee>, q: nat, i: nat): (s: Step<()>)
    requires key.group.p > 0 && i < |finals|
    ensures s.out.Ok? <==> PositionPasses(lib, key, finals, results, ts, q, i)
    ensures s.out.Ok? ==> s.passed == PositionChecks(q, i, |ts|)
    ensures s.out.Err? ==>
      && PositionFails(lib, key, finals, results, ts, q, i, s.out.error)
      && s.passed == PositionTrace(s.out.error, |ts|)
  {
    match ClaimAt(results, q, i)
    case None => Step([], Err(Failure(ClaimedResult(q, i), Malformed)))
    case Some(result) => PositionOutcome(lib, key, finals[i], result, ts, q, i)
  }

  // ---- A walk over numbered steps, stopping at the first failure ----

  /** Steps lo .. hi-1 all pass. */
  predicate StepsPass(step: nat -> Step<()>, lo: nat, hi: nat)
  {
    forall k :: lo <= k < hi ==> step(k).out.Ok?
  }

  /** The checks of steps lo .. hi-1, in order. */
  function StepsRow(step: nat -> Step<()>, lo: nat, hi: nat): seq<Check>
    decreases hi - lo
  {
    if lo >= hi then [] else step(lo).passed + StepsRow(step, lo + 1, hi)
  }

  lemma StepsPassStep(step: nat -> Step<()>, i: nat, n: nat)
    requires i < n
    ensures StepsPass(step, i, i)
    ensures StepsPass(step, i, n) <==> step(i).out.Ok? && StepsPass(step, i + 1, n)
  {
  }

  /** The first of steps i .. n-1 that fails, or n when none does. */
  function FirstFailing(step: nat -> Step<()>, i: nat, n: nat): (k: nat)
    requires i <= n
    ensures i <= k <= n
    ensures StepsPass(step, i, k)
    ensures k < n ==> step(k).out.Err?
    ensures k == n <==> StepsPass(step, i, n)
    decreases n - i
  {
    if i == n then n
    else
      StepsPassStep(step, i, n);
      if step(i).out.Err? then i
      else
        var k := FirstFailing(step, i + 1, n);
        StepsPassStep(step, i, k);
        k
  }

  /** Steps i .. n-1 in order: the walk ends with the first failing step's
      failure, after the checks of the steps before it and that step's own
      passing checks. */
  function Walk(step: nat -> Step<()>, i: nat, n: nat): (s: Step<()>)
    requires i <= n
    ensures s.out.Ok? <==> StepsPass(step, i, n)
    ensures var k := FirstFailing(step, i, n);
      && s.out == (if k < n then step(k).out else Ok(()))
      && s.passed == StepsRow(step, i, k) + (if k < n then step(k).passed else [])
    decreases n - i
  {
    if i == n then Step([], Ok(()))
    else
      FirstFailingStep(step, i, n);
      var here := step(i);
      if here.out.Err? then
        Step(here.passed, here.out)
      else
        var rest := Walk(step, i + 1, n);
        WalkCons(step, i, n, rest);
        Step(here.passed + rest.passed, rest.out)
  }

  /** A passing step followed by the walk of the steps after it is the walk
      from that step. */
  lemma WalkCons(step: nat -> Step<()>, i: nat, n: nat, rest: Step<()>)
    requires i < n && step(i).out.Ok?
    requires rest.out.Ok? <==> StepsPass(step, i + 1, n)
    requires var k := FirstFailing(step, i + 1, n);
      && rest.out == (if k < n then step(k).out else Ok(()))
      && rest.passed == StepsRow(step, i + 1, k) + (if k < n then step(k).passed else [])
    ensures rest.out.Ok? <==> StepsPass(step, i, n)
    ensures var k := FirstFailing(step, i, n);
      && rest.out == (if k < n then step(k).out else Ok(()))
      && step(i).passed + rest.passed == StepsRow(step, i, k) + (if k < n then step(k).passed else [])
  {
    FirstFailingStep(step, i, n);
    StepsPassStep(step, i, n);
    var k := FirstFailing(step, i + 1, n);
    var tail := if k < n then step(k).passed else [];
    assert step(i).passed + (StepsRow(step, i + 1, k) + tail) == (step(i).passed + StepsRow(step, i + 1, k)) + tail;
  }

  /** The first failing step from i is i itself when step i fails, and
      otherwise the first failing step from i + 1, after step i's checks. */
  lemma FirstFailingStep(step: nat -> Step<()>, i: nat, n: nat)
    requires i < n
    ensures step(i).out.Err? ==> FirstFailing(step, i, n) == i
    ensures step(i).out.Ok? ==> FirstFailing(step, i, n) == FirstFailing(step, i + 1, n)
    ensures step(i).out.Ok? ==>
      StepsRow(step, i, FirstFailing(step, i, n)) == step(i).passed + StepsRow(step, i + 1, FirstFailing(step, i, n))
  {
  }

  // ---- The two loops of the tally ----

  /** Question q of the transcript verifies: stage 0's output for it can be
      read and every position of it verifies. */
  predicate QuestionPasses(t: Transcript, lib: Library, key: PublicKey, q: nat)
    requires key.group.p > 0
  {
    && FinalCiphertexts(t, q).Some?
    && forall i :: 0 <= i < |FinalCiphertexts(t, q).value| ==>
         PositionPasses(lib, key, FinalCiphertexts(t, q).value, t.results, t.trustees, q, i)
  }

  /** Questions lo .. hi-1 all verify. */
  predicate QuestionsPass(t: Transcript, lib: Library, key: PublicKey, lo: nat, hi: nat)
    requires key.group.p > 0
  {
    forall q :: lo <= q < hi ==> QuestionPasses(t, lib, key, q)
  }

  /** The checks of positions lo .. hi-1 of question q when all pass. */
  function PositionsRow(q: nat, lo: nat, hi: nat, nt: nat): seq<Check>
    decreases hi - lo
  {
    if lo >= hi then [] else PositionChecks(q, lo, nt) + PositionsRow(q, lo + 1, hi, nt)
  }

  /** The checks of question q when all pass. */
  function QuestionChecks(t: Transcript, q: nat): seq<Check>
  {
    match FinalCiphertexts(t, q) case None => [] case Some(f) => PositionsRow(q, 0, |f|, |t.trustees|)
  }

  /** The checks of questions lo .. hi-1 when all pass. */
  function TallyOrder(t: Transcript, lo: nat, hi: nat): seq<Check>
    decreases hi - lo
  {
    if lo >= hi then [] else QuestionChecks(t, lo) + TallyOrder(t, lo + 1, hi)
  }

  /** The positions of one question as numbered steps; numbers past the
      last position never occur in the walk. */
  function PositionSteps(t: Transcript, lib: Library, key: PublicKey, finals: seq<Ciphertext>, q: nat): (step: nat -> Step<()>)
    requires key.group.p > 0
    ensures forall i: nat :: i < |finals| ==> step(i) == PositionStep(lib, key, finals, t.results, t.trustees, q, i)
  {
    (i: nat) => if i < |finals| then PositionStep(lib, key, finals, t.results, t.trustees, q, i) else Step([], Ok(()))
  }

  /** Steps that pass with one position's checks each form the row of
      those positions' checks. */
  lemma {:induction false} PositionsRowMeans(step: nat -> Step<()>, q: nat, lo: nat, hi: nat, nt: nat)
    requires lo <= hi
    requires forall k :: lo <= k < hi ==> step(k).passed == PositionChecks(q, k, nt)
    ensures StepsRow(step, lo, hi) == PositionsRow(q, lo, hi, nt)
    decreases hi - lo
  {
    if lo < hi {
      PositionsRowMeans(step, q, lo + 1, hi, nt);
    }
  }

  /** How question q fails: stage 0's output for it cannot be read, or a
      position fails, every earlier position having verified. */
  predicate QuestionFails(t: Transcript, lib: Library, key: PublicKey, q: nat, f: Failure)
    requires key.group.p > 0
  {
    && (f.at.FinalMix? || f.at.ClaimedResult? || f.at.Share? || f.at.Plaintext?)
    && f.at.question == q
    && (f.at.FinalMix? <==> FinalCiphertexts(t, q).None?)
    && (f.at.FinalMix? ==> f.reason == Malformed)
    && (!f.at.FinalMix? ==>
          var finals := FinalCiphertexts(t, q).value;
          && f.at.ballot < |finals|
          && (forall i :: 0 <= i < f.at.ballot ==> PositionPasses(lib, key, finals, t.results, t.trustees, q, i))
          && !PositionPasses(lib, key, finals, t.results, t.trustees, q, f.at.ballot)
          && PositionFails(lib, key, finals, t.results, t.trustees, q, f.at.ballot, f))
  }

  /** The checks of a question that pass before failure f: every earlier
      position's, then those of the failing position before f. */
  function QuestionTrace(f: Failure, nt: nat): seq<Check>
  {
    if f.at.ClaimedResult? || f.at.Share? || f.at.Plaintext? then
      PositionsRow(f.at.question, 0, f.at.ballot, nt) + PositionTrace(f, nt)
    else []
  }

  /** One question (lines 114-155): stage 0's output for it is read first,
      then its positions in order. A failure names this question; unless
      the output cannot be read, it names the first position that does not
      verify, all earlier ones having verified. */
  function QuestionStep(t: Transcript, lib: Library, key: PublicKey, q: nat): (s: Step<()>)
    requires key.group.p > 0
    ensures s.out.Ok? <==> QuestionPasses(t, lib, key, q)
    ensures s.out.Ok? ==> s.passed == QuestionChecks(t, q)
    ensures s.out.Err? ==>
      && QuestionFails(t, lib, key, q, s.out.error)
      && s.passed == QuestionTrace(s.out.error, |t.trustees|)
  {
    match FinalCiphertexts(t, q)
    case None => Step([], Err(Failure(FinalMix(q), Malformed)))
    case Some(finals) =>
      var step := PositionSteps(t, lib, key, finals, q);
      forall i | 0 <= i < |finals|
        ensures step(i).out.Ok? <==> PositionPasses(lib, key, finals, t.results, t.trustees, q, i)
        ensures step(i).out.Ok? ==> step(i).passed == PositionChecks(q, i, |t.trustees|)
      {
        assert step(i) == PositionStep(lib, key, finals, t.results, t.trustees, q, i);
      }
      var s := Walk(step, 0, |finals|);
      var k := FirstFailing(step, 0, |finals|);
      PositionsRowMeans(step, q, 0, k, |t.trustees|);
      if s.out.Ok? then
        s
      else
        assert step(k) == PositionStep(lib, key, finals, t.results, t.trustees, q, k);
        s
  }

  /** The questions of a transcript as numbered steps. */
  function QuestionSteps(t: Transcript, lib: Library, key: PublicKey): (step: nat -> Step<()>)
    requires key.group.p > 0
    ensures forall q: nat :: step(q) == QuestionStep(t, lib, key, q)
  {
    (q: nat) => QuestionStep(t, lib, key, q)
  }

  /** Steps that pass with one question's checks each form the tally's
      order. */
  lemma {:induction false} TallyOrderMeans(t: Transcript, step: nat -> Step<()>, lo: nat, hi: nat)
    requires lo <= hi
    requires forall q :: lo <= q < hi ==> step(q).passed == QuestionChecks(t, q)
    ensures StepsRow(step, lo, hi) == TallyOrder(t, lo, hi)
    decreases hi - lo
  {
    if lo < hi {
      TallyOrderMeans(t, step, lo + 1, hi);
    }
  }

  /** A failure the tally reports is a real one: it names a question, all
      questions before it verify and that one does not, and within it the
      failure is as QuestionFails describes. */
  predicate TallyFails(t: Transcript, lib: Library, key: PublicKey, f: Failure)
    requires key.group.p > 0
  {
    && (f.at.FinalMix? || f.at.ClaimedResult? || f.at.Share? || f.at.Plaintext?)
    && f.at.question < t.questionCount
    && QuestionsPass(t, lib, key, 0, f.at.question)
    && !QuestionPasses(t, lib, key, f.at.question)
    && QuestionFails(t, lib, key, f.at.question, f)
  }

  /** The decryption checks that pass before failure f: every earlier
      question's, then those of f's question before f. */
  function TallyTrace(t: Transcript, f: Failure): seq<Check>
  {
    if f.at.FinalMix? || f.at.ClaimedResult? || f.at.Share? || f.at.Plaintext? then
      TallyOrder(t, 0, f.at.question) + QuestionTrace(f, |t.trustees|)
    else []
  }

  /** The decryption checks of a transcript (lines 113-155), all questions
      in order. */
  function TranscriptTally(t: Transcript, lib: Library, key: PublicKey): (s: Step<()>)
    requires key.group.p > 0
    ensures s.out.Ok? <==> QuestionsPass(t, lib, key, 0, t.questionCount)
    ensures s.out.Ok? ==> s.passed == TallyOrder(t, 0, t.questionCount)
    ensures s.out.Err? ==> TallyFails(t, lib, key, s.out.error) && s.passed == TallyTrace(t, s.out.error)
  {
    var step := QuestionSteps(t, lib, key);
    forall q | 0 <= q < t.questionCount
      ensures step(q).out.Ok? <==> QuestionPasses(t, lib, key, q)
      ensures step(q).out.Ok? ==> step(q).passed == QuestionChecks(t, q)
    {
      assert step(q) == QuestionStep(t, lib, key, q);
    }
    var s := Walk(step, 0, t.questionCount);
    var r := FirstFailing(step, 0, t.questionCount);
    TallyOrderMeans(t, step, 0, r);
    if s.out.Ok? then
      s
    else
      assert step(r) == QuestionStep(t, lib, key, r);
      s
  }
}
