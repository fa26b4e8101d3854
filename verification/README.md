# Helios mixnet election audit, modelled in Dafny

This project models the standalone verifier of helios-server-mixnet
(`standalone/verify.py`). The verifier takes a published election: the
public key, the cast ballots, the mix stages with their shuffle proofs, and
the trustees' partial decryptions with Chaum-Pedersen proofs. It then
re-checks everything in a fixed order:

1. It loads the key and derives the group size `nbits` from the prime.
2. It checks every mix stage in reverse index order. For each question, it
   rebuilds the stage's input (the cast ballots sorted by voter id,
   descending, for the first-applied stage; otherwise the next stage's
   output). It compares the recomputed Fiat-Shamir challenge, and only then
   asks the library to verify the shuffle.
3. It checks every decryption. For each question, each position of stage
   0's output, and each trustee, it checks the challenge, `g^t = A*y^c` and
   `alpha^t = B*factor^c` (mod p). It then checks that the product of all
   factors, times the claimed result plus one, is `beta` (mod p).

Loading the key and downloading the data (lines 46-74), each stage and
question (80-110) and each trustee's proof (124-148) sit in `statusCheck`
blocks. On an exception such a block prints FAIL and returns nothing from
`__exit__`, so the exception propagates and ends the script. Three steps sit
outside any block: reading stage 0's output for a question (line 114),
reading the claimed result (line 118), and the plaintext check (lines
150-155), which prints FAIL itself and raises. An exception there ends the
script too. So the first failing check ends the run.

Modules:

- `Wrappers`: `Option`, `Result` and `Outcome`.
- `ModArith`: the unreduced power, Python's `pow(b, e, m)`, and modular
  algebra.
- `GroupSize`: floor log2, Python's `& ~255`, and `nbits`.
- `Decimal`: Python 2's `long(s)` on decimal strings, and `str(n)`.
- `Election`: the transcript, the library operations as oracles, and checks
  and failures.
- `VoterOrder`: Python's string order and the stable descending sort.
- `MixChain`: input reconstruction, one stage check, and the reverse walk.
- `Decryption`: one trustee's proof, the trustee loop, and the plaintext
  check.
- `Tally`: the two decryption loops.
- `Audit`: the whole run.

A run is a function from a transcript and a `Library` to a `Report`. The
`Library` holds the crypto library's operations and SHA-1. The `Report`
lists the checks that passed, in order, and either the results (valid) or
the first failure. All integers are unbounded, as in Python.

Behaviour of the code that shapes the model:

- A failing check ends the run, and nothing after it is checked. `Run` and
  every walk stop at the first failure.
- An election with no mix stage and at least one question fails. Line 114
  indexes `mixnets[0]`, which raises. `Audit.NoMixStops` states that such a
  run is reported invalid at `FinalMix(0)`.
- The decryption-proof challenge is SHA-1 of the two commitment strings
  exactly as published, joined by a comma. It is not SHA-1 of normalised
  numbers, so commitments stay strings in the model (`Decryption.ChallengeInput`).
  Their values are read by `long()`, which accepts blanks, a sign and an `L`
  suffix (`Decimal.ParseLong`).
- `nbits` is `((floor(log2 p) - 1) & ~255) + 256`. For `2^256 <= p < 2^257`
  this gives 256, not 512. The model keeps the formula as written and proves
  `p < 2^(nbits+1)` (`GroupSize.NBits`).

## Model

| member | source | states |
|---|---|---|
| GroupSize.NBits | standalone/verify.py:51 | nbits is a positive multiple of 256 within 256 of floor(log2 p) - 1, and p < 2^(nbits+1); p = 1 gives 0 |
| GroupSize.Log2Bounds | standalone/verify.py:51 | the integer logarithm e satisfies 2^e <= p < 2^(e+1), the exact value of `int(math.log(p, 2))` |
| GroupSize.ClearLowByte | standalone/verify.py:51 | `x & ~255` on an unbounded integer, negative x included: a multiple of 256, and the largest one not above x |
| ModArith.ModPow | standalone/verify.py:137-143 | square-and-multiply `pow(b, e, m)` is below m and equals b^e mod m |
| Decimal.ParseLong | standalone/verify.py:138 | whatever `long(s)` accepts is blanks, an optional sign, blanks, decimal digits, an optional `L` or `l`, and blanks; the value is the digits' value with that sign |
| Decimal.ParseLongAccepts | standalone/verify.py:138-143 | every string of that shape is accepted with its signed value, so `long(s)` succeeds exactly on those strings |
| Decimal.ParseRender | standalone/verify.py:138-143 | reading back the numeral of n gives n, and the numeral is canonical |
| Decimal.RenderParse | standalone/verify.py:130-138 | a canonical numeral is exactly the rendering of the number it denotes: for canonical commitments the hashed string and the number read from it determine each other |
| VoterOrder.SortByVoterDesc | standalone/verify.py:87 | the sorted ballots are a permutation of the ballots whose voter ids never increase under `VoterOrder.Less`, Python's `<` on strings (lexicographic by code point, a proper prefix smaller) |
| VoterOrder.ListingOrderIrrelevant | standalone/verify.py:87 | with distinct voter ids, any two listings of the same ballots sort to the same sequence |
| MixChain.FirstChoices | standalone/verify.py:87-90 | one ciphertext per ballot, the first choice for question q in order, and an error exactly when some ballot lacks one |
| MixChain.StageInput | standalone/verify.py:83-95 | the last stage's input is the ballots' first choices in descending voter order, one per ballot, and fails exactly when some ballot lacks one; any other stage's input is the next stage's output for q, and fails exactly when that is absent |
| MixChain.StageInstance | standalone/verify.py:81-101 | the library is handed the key, the rebuilt input, the stage's own output and its proof for q; any of them missing makes the stage malformed |
| MixChain.StageOutcome | standalone/verify.py:81-110 | a stage check passes iff the instance is well formed, the recomputed challenge matches and the shuffle verifies; a missing piece fails as malformed, a challenge mismatch fails as such whatever verify would say, and a matching challenge with a failed verify fails as a rejected shuffle |
| MixChain.QuestionWalk | standalone/verify.py:79-110 | the questions of one stage in order: ok iff every one passes; a failure is a failing check of this stage, after a prefix of passed checks |
| MixChain.MixWalk | standalone/verify.py:77-110 | stages in reverse order: ok iff all pass, with every check listed; a failure is a real failing check, and the checks before it are a prefix of the schedule |
| MixChain.TranscriptMixWalk | standalone/verify.py:77-110 | for a transcript: ok iff every stage check passes; every listed check passed; a reported failure fails and comes right after the listed checks in the schedule |
| MixChain.MixOrderShape | standalone/verify.py:77-79 | the schedule has m*nq checks, each naming an existing stage and question, and covers every pair |
| MixChain.MixOrderDescending | standalone/verify.py:77-78 | the schedule visits stage indices in non-increasing order and never repeats a check |
| MixChain.PredecessorCheckedFirst | standalone/verify.py:91-95 | when a stage reads the next stage's output, that stage's check for the same question came earlier |
| MixChain.VerifiedStages | standalone/verify.py:103-110 | after a successful mix walk every stage and question had a matching challenge and a verified shuffle |
| MixChain.ChainLinked | standalone/verify.py:91-101 | after a successful mix walk each stage's input is exactly the next stage's published output |
| MixChain.ChainStartsAtBallots | standalone/verify.py:84-90 | after a successful mix walk the first-applied stage shuffled the ballots' first choices in descending voter order |
| Decryption.ProofOutcome | standalone/verify.py:128-146 | a trustee proof passes iff the challenge is SHA-1 of "A,B", `long()` reads both commitments and both congruences hold; otherwise the failure is the first step that fails, in order: challenge mismatch (exactly when the hash differs), unreadable A, key equation, unreadable B, factor equation |
| Decryption.HonestProofAccepted | standalone/verify.py:128-146 | completeness: a proof built honestly from witnesses w and x is accepted |
| Decryption.ShareOutcome | standalone/verify.py:125-146 | a trustee without a factor or proof for the position fails as malformed; one that has both gets exactly its Chaum-Pedersen proof's verdict, failure reason included |
| Decryption.TrusteeWalk | standalone/verify.py:119-148 | the trustee loop: ok iff every trustee passes, listing all their checks, with the product of all their factors; otherwise it reports the first failing trustee, every earlier one having passed, after exactly their checks |
| Decryption.PositionOutcome | standalone/verify.py:117-155 | a position passes iff every trustee passes and factors*(result+1) = beta mod p; a trustee failure is the first failing trustee; a plaintext failure happens exactly when every trustee passes and the congruence fails, after all trustees' checks |
| Decryption.FactorProductPermutation | standalone/verify.py:148 | the combined factor is the same for any order of the trustees |
| Decryption.TrusteeOrderIrrelevant | standalone/verify.py:123-155 | permuting the trustees does not change whether a position verifies |
| Decryption.EarlyReductionSameVerdict | standalone/verify.py:148-153 | reducing the product mod p after every factor gives the same plaintext verdict as reducing once at the end |
| Decryption.OffByOneRejected | standalone/verify.py:151-153 | if a claim verifies and the combined factor is not 0 mod p, the claim plus one does not verify |
| Decryption.PositionOffByOneRejected | standalone/verify.py:151-155 | at a verified position, claiming result+1 fails with a plaintext mismatch |
| Tally.FinalCiphertexts | standalone/verify.py:114 | stage 0's output for question q, readable exactly when stage 0 exists and has that question |
| Tally.ClaimAt | standalone/verify.py:118 | the claimed result for position i of question q, present exactly when the results have that question and position |
| Tally.PositionStep | standalone/verify.py:117-155 | one position: a missing claim fails as malformed before any trustee; otherwise ok iff the position verifies; a failure is the first failing trustee or the plaintext check, after exactly the checks before it |
| Tally.Walk | standalone/verify.py:113-155 | a loop over numbered steps ends with the first failing step's failure, after all earlier steps' checks; it is ok iff every step passes |
| Tally.QuestionStep | standalone/verify.py:114-155 | one question: ok iff its ciphertexts can be read and every position verifies; a failure names the first position that does not verify, after exactly the checks before it |
| Tally.TranscriptTally | standalone/verify.py:113-155 | all questions: ok iff every question verifies, with the checks in loop order; a failure names the first question that does not verify and its first failing check, after exactly the checks before it |
| Audit.LoadKey | standalone/verify.py:51-53 | a zero prime fails the log; otherwise the key loads exactly when the library accepts the group (nbits, p, g) with y, and the loaded key is that group with y, where p < 2^(nbits+1) |
| Audit.Run | standalone/verify.py:35-158 | valid iff the key loads, every stage check passes and every decryption verifies; a valid run lists every check in order; an invalid run names the first failing check in run order and lists exactly the checks before it, all of which pass |
| Audit.NoMixStops | standalone/verify.py:114 | an election with a question and no mix stage is reported invalid at stage 0's output |
| Audit.BallotListingIrrelevant | standalone/verify.py:87 | with distinct voter ids, relisting the ballots gives every stage the same input and the same validity |
| Audit.TrusteeOrderIrrelevantRun | standalone/verify.py:123-155 | permuting the trustees does not change whether the election is valid |

## Left out

- Fetching the transcript over HTTP, JSON decoding and the ballot download
  loop (lines 46-74) are left out. The model starts from the parsed
  `Transcript`, with numbers already read as natural numbers. Only the two
  commitment strings are read by `long()` inside the model. For every other
  numeric field (p, g, y, ciphertexts, factors, challenges, responses,
  claimed results) the blanks, sign and suffix `long()` accepts, negative
  values and unreadable strings are not modelled.
- The mixnet library (`EGCryptoSystem.load`, `PublicKey`, `Ciphertext`,
  `CiphertextCollection`, `ShufflingProof.from_dict`, `_generate_challenge`,
  `verify`) is not part of this model. It is replaced by the uninterpreted
  operations of `Election.Library`, so every property holds for any
  implementation of them. `nbits` reaches them inside the key's group.
  Ciphertext fingerprints are not modelled. Whether `from_dict` itself can fail is folded into
  `shuffleChallenge` and `shuffleVerifies`.
- SHA-1 is an uninterpreted function from strings to numbers.
- Decimal.ParseLong: rejects every character outside ASCII. Python 2 reads
  JSON strings as unicode, and `long()` then also accepts non-ASCII decimal
  digits and blanks. For a commitment with such characters, line 130 raises
  when SHA-1 encodes the string, so that trustee fails in both; only the
  reported reason can differ.
- `math.log` is a float in the source. The model uses the exact integer
  floor of log2, so primes within float rounding of a power of two are not
  modelled.
- Console output is left out: the status lines, OK and FAIL, the extra
  "FAIL" print at line 154, and printing the results. A run ends in a
  `Report` instead.
- The configuration module (`settings.py`) plays no part in the verifier.
- GroupSize.NBits: states the bounds of the formula as written, not that it
  is the bit length of p, because the formula gives 256 for `2^256 <= p < 2^257`.
- Decryption.TrusteeOrderIrrelevant: states that the verdict is unchanged,
  not that the trace is, because the index of the first failing trustee
  legitimately depends on the order.
- Audit.TrusteeOrderIrrelevantRun: states that validity is unchanged, not
  the whole report, for the same reason.
- Audit.BallotListingIrrelevant: states that stage inputs and validity are
  unchanged, not that the reports are equal.
- Decryption.OffByOneRejected: requires the combined factor to be non-zero
  mod p. For a prime p and factors in the group this always holds, but the
  model does not assume p is prime.
