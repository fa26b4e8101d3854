/** The parsed election transcript the audit consumes, the crypto-library
    operations it calls but whose code is not modelled, and the vocabulary
    of checks and failures the audit reports. */
module Election {
  import opened Wrappers

  /** One ElGamal pair. */
  datatype Ciphertext = Ciphertext(alpha: nat, beta: nat)

  /** A cast ballot: `answers[q]` is the list of choice ciphertexts the voter
      submitted for question q. */
  datatype Ballot = Ballot(voterUuid: string, answers: seq<seq<Ciphertext>>)

  /** A shuffle proof record as the library deserialises it. */
  datatype ShuffleProof = ShuffleProof(challenge: nat, commitments: seq<nat>, responses: seq<nat>)

  /** One mix stage: per question, the shuffled collection it published and
      the proof that it shuffled its input correctly. */
  datatype MixStage = MixStage(outputs: seq<seq<Ciphertext>>, proofs: seq<ShuffleProof>)

  /** A Chaum-Pedersen proof of one partial decryption. The commitments stay
      in their decimal-string form because the challenge hashes the strings. */
  datatype DecryptionProof = DecryptionProof(challenge: nat, commitmentA: string, commitmentB: string, response: nat)

  /** A trustee's public key share, and per question and per ballot position
      of the final mix, its decryption factor and proof. */
  datatype Trustee = Trustee(y: nat, factors: seq<seq<nat>>, proofs: seq<seq<DecryptionProof>>)

  /** The election's public key record: prime, generator and joint key. */
  datatype ElectionKey = ElectionKey(p: nat, g: nat, y: nat)

  /** Everything the audit downloads for one election. */
  datatype Transcript = Transcript(
    questionCount: nat,
    key: ElectionKey,
    ballots: seq<Ballot>,
    results: seq<seq<nat>>,
    mixes: seq<MixStage>,
    trustees: seq<Trustee>)

  /** The library's view of the group and the public key. */
  datatype Group = Group(nbits: nat, p: nat, g: nat)
  datatype PublicKey = PublicKey(group: Group, y: nat)

  /** What the library's shuffle-proof operations are given for one stage
      and question: the key, the original and shuffled collections, and the
      proof. */
  datatype ShuffleInstance = ShuffleInstance(key: PublicKey, orig: seq<Ciphertext>, shuf: seq<Ciphertext>, proof: ShuffleProof)

  /** The operations the audit delegates: whether the library accepts the
      group and key, the shuffle proof's recomputed Fiat-Shamir challenge,
      the shuffle proof's algebraic verification, and SHA-1 read as an
      integer. They are parameters, so every property proved holds for any
      implementation of them. */
  datatype Library = Library(
    acceptsKey: (Group, nat) -> bool,
    shuffleChallenge: ShuffleInstance -> nat,
    shuffleVerifies: ShuffleInstance -> bool,
    sha1: string -> nat)

  /** Why a check failed. */
  datatype Reason =
    | LogDomainError        // math.log of a zero prime
    | KeyRejected           // the library refused the group or the key
    | Malformed             // a transcript entry the check needs is missing
    | ChallengeMismatch     // a recomputed challenge differs from the declared one
    | ShuffleRejected       // the shuffle proof's algebra does not hold
    | KeyEquationFails      // g^t != A * y^c (mod p)
    | FactorEquationFails   // alpha^t != B * factor^c (mod p)
    | PlaintextMismatch     // the factors and claimed result do not give beta

  /** The checks of one audit run, in the terms the trace names them. The
      `FinalMix` and `ClaimedResult` lookups sit outside any status check:
      they can only stop the run. */
  datatype Check =
    | Download
    | Mix(index: nat, question: nat)
    | FinalMix(question: nat)
    | ClaimedResult(question: nat, ballot: nat)
    | Share(question: nat, ballot: nat, trustee: nat)
    | Plaintext(question: nat, ballot: nat)

  datatype Failure = Failure(at: Check, reason: Reason)

  /** The progress of a walk over checks: the checks that passed, in order,
      and either a value or the failure that stopped the walk. */
  datatype Step<+T> = Step(passed: seq<Check>, out: Result<T, Failure>)
}
