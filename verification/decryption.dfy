/** Verification of the trustees' partial decryptions (standalone/verify.py
    lines 113-155): per question, per ballot position of the final mix and
    per trustee a Chaum-Pedersen proof that the trustee's decryption factor
    matches its key share, then a check that the product of all factors,
    times the claimed result plus one, is the ciphertext's beta (mod p). */
module Decryption {
  import opened Wrappers
  import opened ModArith
  import opened Decimal
  import opened Election

  /** The string whose SHA-1 is the proof's challenge: the two commitments
      exactly as published, joined by a comma. */
  function ChallengeInput(pf: DecryptionProof): string
  {
    pf.commitmentA + "," + pf.commitmentB
  }

  /** One trustee's proof for one ciphertext: the challenge is compared
      first, then g^t = A * y^c, then alpha^t = B * factor^c, all mod p.
      It passes exactly when the hash matches, `long()` reads both
      commitments, and both congruences hold of the unreduced powers. A
      commitment may be negative: for p > 0, `%` here and in Python both
      give the residue in [0, p). */
  function ProofOutcome(sha1: string -> nat, g: nat, p: nat, alpha: nat, y: nat, factor: nat, pf: DecryptionProof): (r: Outcome<Reason>)
    requires p > 0
    ensures r == Pass <==>
      && pf.challenge == sha1(ChallengeInput(pf))
      && ParseLong(pf.commitmentA).Some?
      && ParseLong(pf.commitmentB).Some?
      && Pow(g, pf.response) % p == (ParseLong(pf.commitmentA).value * Pow(y, pf.challenge)) % p
      && Pow(alpha, pf.response) % p == (ParseLong(pf.commitmentB).value * Pow(factor, pf.challenge)) % p
    ensures r == Fail(ChallengeMismatch) <==> pf.challenge != sha1(ChallengeInput(pf))
    ensures pf.challenge == sha1(ChallengeInput(pf)) && ParseLong(pf.commitmentA).None? ==> r == Fail(Malformed)
    ensures pf.challenge == sha1(ChallengeInput(pf)) && ParseLong(pf.commitmentA).Some?
      && Pow(g, pf.response) % p != (ParseLong(pf.commitmentA).value * Pow(y, pf.challenge)) % p
      ==> r == Fail(KeyEquationFails)
    ensures pf.challenge == sha1(ChallengeInput(pf)) && ParseLong(pf.commitmentA).Some?
      && Pow(g, pf.response) % p == (ParseLong(pf.commitmentA).value * Pow(y, pf.challenge)) % p
      && ParseLong(pf.commitmentB).None?
      ==> r == Fail(Malformed)
    ensures pf.challenge == sha1(ChallengeInput(pf)) && ParseLong(pf.commitmentA).Some?
      && Pow(g, pf.response) % p == (ParseLong(pf.commitmentA).value * Pow(y, pf.challenge)) % p
      && ParseLong(pf.commitmentB).Some?
      && Pow(alpha, pf.response) % p != (ParseLong(pf.commitmentB).value * Pow(factor, pf.challenge)) % p
      ==> r == Fail(FactorEquationFails)
    ensures r == Fail(KeyEquationFails) ==>
      && pf.challenge == sha1(ChallengeInput(pf))
      && ParseLong(pf.commitmentA).Some?
      && Pow(g, pf.response) % p != (ParseLong(pf.commitmentA).value * Pow(y, pf.challenge)) % p
    ensures r == Fail(FactorEquationFails) ==>
      && pf.challenge == sha1(ChallengeInput(pf))
      && ParseLong(pf.commitmentA).Some?
      && Pow(g, pf.response) % p == (ParseLong(pf.commitmentA).value * Pow(y, pf.challenge)) % p
  {
    if pf.challenge != sha1(ChallengeInput(pf)) then Fail(ChallengeMismatch)
    else
      match ParseLong(pf.commitmentA)
      case None => Fail(Malformed)
      case Some(a) =>
        MulModRight(a, Pow(y, pf.challenge), p);
        if ModPow(g, pf.response, p) != (a * ModPow(y, pf.challenge, p)) % p then Fail(KeyEquationFails)
        else
          match ParseLong(pf.commitmentB)
          case None => Fail(Malformed)
          case Some(b) =>
            MulModRight(b, Pow(factor, pf.challenge), p);
            if ModPow(alpha, pf.response, p) != (b * ModPow(factor, pf.challenge, p)) % p then Fail(FactorEquationFails)
            else Pass
  }

  /** An honest trustee's proof is accepted: with commitments A = g^w and
      B = alpha^w rendered as numerals, key share y = g^x, factor =
      alpha^x, challenge c = SHA-1(A "," B) and response t = w + c*x. */
  lemma HonestProofAccepted(sha1: string -> nat, g: nat, p: nat, alpha: nat, y: nat, factor: nat,
                            pf: DecryptionProof, w: nat, x: nat)
    requires p > 0
    requires pf.commitmentA == Render(Pow(g, w) % p)
    requires pf.commitmentB == Render(Pow(alpha, w) % p)
    requires pf.challenge == sha1(ChallengeInput(pf))
    requires y % p == Pow(g, x) % p && factor % p == Pow(alpha, x) % p
    requires pf.response == w + pf.challenge * x
    ensures ProofOutcome(sha1, g, p, alpha, y, factor, pf) == Pass
  {
    var c := pf.challenge;
    HonestEquation(g, w, x, c, pf.response, y, p);
    HonestEquation(alpha, w, x, c, pf.response, factor, p);
    ParseRender(Pow(g, w) % p);
    ParseRender(Pow(alpha, w) % p);
  }

  /** One congruence of an honest proof, with the commitment reduced mod p
      as it is published. */
  lemma HonestEquation(base: nat, w: nat, x: nat, c: nat, t: nat, pub: nat, p: nat)
    requires p > 0 && t == w + c * x
    requires pub % p == Pow(base, x) % p
    ensures Pow(base, t) % p == ((Pow(base, w) % p) * Pow(pub, c)) % p
  {
    var a := Pow(base, w) % p;
    ModOfMod(Pow(base, w), p);
    ExponentEquation(base, w, x, c, t, a, pub, p);
    var r := ModPow(pub, c, p);
    assert ModPow(base, t, p) == (a * r) % p;
    MulModRight(a, Pow(pub, c), p);
    assert (a * r) % p == (a * Pow(pub, c)) % p;
  }

  /** Trustee tr published a factor and a proof for question q, position i. */
  predicate HasShare(tr: Trustee, q: nat, i: nat)
  {
    q < |tr.factors| && i < |tr.factors[q]| && q < |tr.proofs| && i < |tr.proofs[q]|
  }

  /** The check of one trustee at one ballot position: a missing factor or
      proof fails it, otherwise its proof is checked against the ciphertext's
      alpha. */
  function ShareOutcome(lib: Library, key: PublicKey, alpha: nat, tr: Trustee, q: nat, i: nat): (r: Outcome<Reason>)
    requires key.group.p > 0
    ensures r == Pass ==> HasShare(tr, q, i)
    ensures !HasShare(tr, q, i) ==> r == Fail(Malformed)
    ensures HasShare(tr, q, i) ==>
      (r == Pass <==> ProofOutcome(lib.sha1, key.group.g, key.group.p, alpha, tr.y, tr.factors[q][i], tr.proofs[q][i]) == Pass)
    ensures HasShare(tr, q, i) ==>
      r == ProofOutcome(lib.sha1, key.group.g, key.group.p, alpha, tr.y, tr.factors[q][i], tr.proofs[q][i])
  {
    if !HasShare(tr, q, i) then Fail(Malformed)
    else ProofOutcome(lib.sha1, key.group.g, key.group.p, alpha, tr.y, tr.factors[q][i], tr.proofs[q][i])
  }

  /** Every trustee listed passes its check. */
  predicate SharesPass(lib: Library, key: PublicKey, alpha: nat, ts: seq<Trustee>, q: nat, i: nat)
    requires key.group.p > 0
  {
    forall tr :: tr in ts ==> ShareOutcome(lib, key, alpha, tr, q, i) == Pass
  }

  /** Every trustee listed published a factor and a proof for (q, i). */
  predicate AllShares(ts: seq<Trustee>, q: nat, i: nat)
  {
    forall tr :: tr in ts ==> HasShare(tr, q, i)
  }

  /** Trustees that pass their check published their shares. */
  lemma PassingSharesPresent(lib: Library, key: PublicKey, alpha: nat, ts: seq<Trustee>, q: nat, i: nat)
    requires key.group.p > 0
    requires SharesPass(lib, key, alpha, ts, q, i)
    ensures AllShares(ts, q, i)
  {
    forall tr | tr in ts
      ensures HasShare(tr, q, i)
    {
      assert ShareOutcome(lib, key, alpha, tr, q, i) == Pass;
    }
  }

  /** The product of the trustees' factors for question q, position i. */
  function FactorProduct(ts: seq<Trustee>, q: nat, i: nat): nat
    requires AllShares(ts, q, i)
    decreases |ts|
  {
    if |ts| == 0 then 1
    else
      assert ts[0] in ts;
      assert AllShares(ts[1..], q, i) by {
        forall tr | tr in ts[1..] ensures tr in ts { }
      }
      ts[0].factors[q][i] * FactorProduct(ts[1..], q, i)
  }

  /** The trustee checks j .. m-1 of one ballot position, in order. */
  function ShareRow(q: nat, i: nat, j: nat, m: nat): seq<Check>
    decreases m - j
  {
    if j >= m then [] else [Share(q, i, j)] + ShareRow(q, i, j + 1, m)
  }

  /** The verdict of every trustee at one ballot position, as one function
      of the trustee. */
  function ShareVerdicts(lib: Library, key: PublicKey, alpha: nat, q: nat, i: nat): (v: Trustee -> Outcome<Reason>)
    requires key.group.p > 0
    ensures forall tr :: v(tr) == ShareOutcome(lib, key, alpha, tr, q, i)
  {
    (tr: Trustee) => ShareOutcome(lib, key, alpha, tr, q, i)
  }

  /** Only trustees that published their shares can pass. */
  ghost predicate PassHasShare(v: Trustee -> Outcome<Reason>, q: nat, i: nat)
  {
    forall tr :: v(tr) == Pass ==> HasShare(tr, q, i)
  }

  /** Every trustee of ts passes. */
  predicate AllPass(v: Trustee -> Outcome<Reason>, ts: seq<Trustee>)
  {
    forall k :: 0 <= k < |ts| ==> v(ts[k]) == Pass
  }

  /** `f` is the first failing trustee of ts, the trustees being numbered
      from j: every one before it passes and it fails with f's reason. */
  predicate FirstFailure(v: Trustee -> Outcome<Reason>, ts: seq<Trustee>, q: nat, i: nat, j: nat, f: Failure)
  {
    && f.at.Share?
    && f.at == Share(q, i, f.at.trustee)
    && j <= f.at.trustee < j + |ts|
    && (forall k :: 0 <= k < f.at.trustee - j ==> v(ts[k]) == Pass)
    && v(ts[f.at.trustee - j]) == Fail(f.reason)
  }

  /** `f` is the first trustee of ts, numbered from j, whose check fails. */
  predicate ShareFails(lib: Library, key: PublicKey, alpha: nat, ts: seq<Trustee>, q: nat, i: nat, j: nat, f: Failure)
    requires key.group.p > 0
  {
    FirstFailure(ShareVerdicts(lib, key, alpha, q, i), ts, q, i, j, f)
  }

  /** The trustee walk's view of the trustees' verdicts agrees with
      SharesPass. */
  lemma SharesPassMeans(lib: Library, key: PublicKey, alpha: nat, ts: seq<Trustee>, q: nat, i: nat)
    requires key.group.p > 0
    ensures PassHasShare(ShareVerdicts(lib, key, alpha, q, i), q, i)
    ensures AllPass(ShareVerdicts(lib, key, alpha, q, i), ts) <==> SharesPass(lib, key, alpha, ts, q, i)
  {
    var v := ShareVerdicts(lib, key, alpha, q, i);
    if AllPass(v, ts) {
      forall tr | tr in ts
        ensures ShareOutcome(lib, key, alpha, tr, q, i) == Pass
      {
        var k :| 0 <= k < |ts| && ts[k] == tr;
        assert v(ts[k]) == Pass;
      }
    }
    if SharesPass(lib, key, alpha, ts, q, i) {
      forall k | 0 <= k < |ts|
        ensures v(ts[k]) == Pass
      {
        assert ts[k] in ts;
      }
    }
  }

  lemma AllPassStep(v: Trustee -> Outcome<Reason>, ts: seq<Trustee>)
    requires |ts| > 0
    ensures AllPass(v, ts) <==> v(ts[0]) == Pass && AllPass(v, ts[1..])
  {
    if v(ts[0]) == Pass && AllPass(v, ts[1..]) {
      forall k | 0 < k < |ts|
        ensures v(ts[k]) == Pass
      {
        assert ts[k] == ts[1..][k - 1];
      }
    }
  }

  /** The inner loop over trustees (lines 123-148), from trustee j on: `ts`
      are trustees j, j+1, ... and `acc` the running product. The first
      failing trustee stops the loop; when none fails the loop has
      multiplied acc by every trustee's factor. */
  function TrusteeWalk(v: Trustee -> Outcome<Reason>, ts: seq<Trustee>, q: nat, i: nat, j: nat, acc: nat): (s: Step<nat>)
    requires PassHasShare(v, q, i)
    ensures s.out.Ok? <==> AllPass(v, ts)
    ensures s.out.Ok? ==> s.passed == ShareRow(q, i, j, j + |ts|)
    ensures s.out.Ok? ==> AllShares(ts, q, i) && s.out.value == acc * FactorProduct(ts, q, i)
    ensures s.out.Err? ==>
      && FirstFailure(v, ts, q, i, j, s.out.error)
      && s.passed == ShareRow(q, i, j, s.out.error.at.trustee)
    decreases |ts|
  {
    if |ts| == 0 then Step([], Ok(acc))
    else
      AllPassStep(v, ts);
      match v(ts[0])
      case Fail(r) => Step([], Err(Failure(Share(q, i, j), r)))
      case Pass =>
        var f := ts[0].factors[q][i];
        var rest := TrusteeWalk(v, ts[1..], q, i, j + 1, acc * f);
        FirstFailureCons(v, ts, q, i, j, rest.out);
        ProductCons(ts, q, i, acc, rest.out);
        Step([Share(q, i, j)] + rest.passed, rest.out)
  }

  /** A first failure among the trustees after a passing one is the first
      failure among all of them. */
  lemma FirstFailureCons(v: Trustee -> Outcome<Reason>, ts: seq<Trustee>, q: nat, i: nat, j: nat, out: Result<nat, Failure>)
    requires |ts| > 0 && v(ts[0]) == Pass
    requires out.Err? ==> FirstFailure(v, ts[1..], q, i, j + 1, out.error)
    ensures out.Err? ==> FirstFailure(v, ts, q, i, j, out.error)
  {
    if out.Err? {
      var t := out.error.at.trustee;
      forall k | 0 <= k < t - j
        ensures v(ts[k]) == Pass
      {
        if k > 0 {
          assert ts[k] == ts[1..][k - 1];
        }
      }
      assert ts[t - j] == ts[1..][t - (j + 1)];
    }
  }

  /** Multiplying in the first trustee's factor and then the rest's product
      is multiplying in the product of all. */
  lemma ProductCons(ts: seq<Trustee>, q: nat, i: nat, acc: nat, out: Result<nat, Failure>)
    requires |ts| > 0 && HasShare(ts[0], q, i)
    requires out.Ok? ==>
      AllShares(ts[1..], q, i) && out.value == acc * ts[0].factors[q][i] * FactorProduct(ts[1..], q, i)
    ensures out.Ok? ==> AllShares(ts, q, i) && out.value == acc * FactorProduct(ts, q, i)
  {
    if out.Ok? {
      assert ts == [ts[0]] + ts[1..];
      AllSharesParts([ts[0]], ts[1..], q, i);
      MulAssocInt(acc, ts[0].factors[q][i], FactorProduct(ts[1..], q, i));
    }
  }

  /** Line 153: the combined factors times (result + 1) must equal beta
      modulo p. */
  predicate PlaintextHolds(combined: nat, result: nat, beta: nat, p: nat)
    requires p > 0
  {
    (combined * (result + 1)) % p == beta % p
  }

  /** One ballot position of one question (lines 117-155): every trustee's
      check, then the combination check. It passes exactly when every
      trustee passes and the product of all factors decrypts beta to the
      claimed result. A failure is either the first failing trustee, or,
      when all trustees pass, the combination check. */
  function PositionOutcome(lib: Library, key: PublicKey, ballot: Ciphertext, result: nat, ts: seq<Trustee>, q: nat, i: nat): (s: Step<()>)
    requires key.group.p > 0
    ensures s.out.Ok? <==>
      && SharesPass(lib, key, ballot.alpha, ts, q, i)
      && PlaintextHolds(FactorProduct(ts, q, i), result, ballot.beta, key.group.p)
    ensures s.out.Ok? ==> s.passed == ShareRow(q, i, 0, |ts|) + [Plaintext(q, i)]
    ensures s.out.Err? ==> s.out.error.at.Share? || s.out.error.at == Plaintext(q, i)
    ensures s.out.Err? && s.out.error.at.Share? ==>
      && !SharesPass(lib, key, ballot.alpha, ts, q, i)
      && ShareFails(lib, key, ballot.alpha, ts, q, i, 0, s.out.error)
      && s.passed == ShareRow(q, i, 0, s.out.error.at.trustee)
    ensures s.out.Err? && s.out.error.at == Plaintext(q, i) ==>
      && SharesPass(lib, key, ballot.alpha, ts, q, i)
      && !PlaintextHolds(FactorProduct(ts, q, i), result, ballot.beta, key.group.p)
      && s.out.error.reason == PlaintextMismatch
      && s.passed == ShareRow(q, i, 0, |ts|)
    ensures SharesPass(lib, key, ballot.alpha, ts, q, i) && !PlaintextHolds(FactorProduct(ts, q, i), result, ballot.beta, key.group.p) ==>
      s.out == Err(Failure(Plaintext(q, i), PlaintextMismatch))
  {
    var v := ShareVerdicts(lib, key, ballot.alpha, q, i);
    SharesPassMeans(lib, key, ballot.alpha, ts, q, i);
    var walk := TrusteeWalk(v, ts, q, i, 0, 1);
    match walk.out
    case Err(f) => Step(walk.passed, Err(f))
    case Ok(combined) =>
      if PlaintextHolds(combined, result, ballot.beta, key.group.p) then
        Step(walk.passed + [Plaintext(q, i)], Ok(()))
      else
        Step(walk.passed, Err(Failure(Plaintext(q, i), PlaintextMismatch)))
  }

  lemma AllSharesParts(a: seq<Trustee>, b: seq<Trustee>, q: nat, i: nat)
    ensures AllShares(a + b, q, i) <==> AllShares(a, q, i) && AllShares(b, q, i)
  {
    assert forall tr :: tr in a + b <==> tr in a || tr in b;
  }

  lemma {:induction false} FactorProductAppend(a: seq<Trustee>, b: seq<Trustee>, q: nat, i: nat)
    requires AllShares(a, q, i) && AllShares(b, q, i)
    ensures AllShares(a + b, q, i)
    ensures FactorProduct(a + b, q, i) == FactorProduct(a, q, i) * FactorProduct(b, q, i)
    decreases |a|
  {
    AllSharesParts(a, b, q, i);
    if |a| == 0 {
      assert a + b == b;
    } else {
      assert (a + b)[1..] == a[1..] + b;
      assert a[0] in a;
      AllSharesParts([a[0]], a[1..], q, i);
      assert a == [a[0]] + a[1..];
      FactorProductAppend(a[1..], b, q, i);
      MulAssocInt(a[0].factors[q][i], FactorProduct(a[1..], q, i), FactorProduct(b, q, i));
    }
  }

  /** Pulling one trustee out of the list divides its factor out of the product. */
  lemma FactorProductRemove(b: seq<Trustee>, k: nat, q: nat, i: nat)
    requires k < |b| && AllShares(b, q, i)
    ensures HasShare(b[k], q, i) && AllShares(b[..k] + b[k + 1..], q, i)
    ensures FactorProduct(b, q, i) == b[k].factors[q][i] * FactorProduct(b[..k] + b[k + 1..], q, i)
  {
    var pre, x, post := b[..k], b[k], b[k + 1..];
    assert x in b;
    assert b == pre + ([x] + post);
    AllSharesParts(pre, [x] + post, q, i);
    AllSharesParts([x], post, q, i);
    FactorProductAppend(pre, [x] + post, q, i);
    FactorProductAppend(pre, post, q, i);
    assert ([x] + post)[1..] == post;
    MulAssocInt(FactorProduct(pre, q, i), x.factors[q][i], FactorProduct(post, q, i));
    MulAssocInt(x.factors[q][i], FactorProduct(pre, q, i), FactorProduct(post, q, i));
  }

  /** The combined factor does not depend on the order of the trustees:
      any rearrangement of them gives the same product. */
  lemma {:induction false} FactorProductPermutation(a: seq<Trustee>, b: seq<Trustee>, q: nat, i: nat)
    requires multiset(a) == multiset(b)
    requires AllShares(a, q, i)
    ensures AllShares(b, q, i)
    ensures FactorProduct(a, q, i) == FactorProduct(b, q, i)
    decreases |a|
  {
    assert forall tr :: tr in b ==> tr in multiset(a);
    if |a| == 0 {
      assert |b| == |multiset(b)| == 0;
    } else {
      var x := a[0];
      assert x in multiset(b);
      var k :| 0 <= k < |b| && b[k] == x;
      var rest := b[..k] + b[k + 1..];
      assert b == b[..k] + [x] + b[k + 1..];
      assert a == [x] + a[1..];
      assert multiset(b) == multiset(b[..k]) + multiset{x} + multiset(b[k + 1..]);
      assert multiset(a) == multiset{x} + multiset(a[1..]);
      assert multiset(rest) == multiset(b[..k]) + multiset(b[k + 1..]);
      assert multiset(a[1..]) == multiset(a) - multiset{x};
      assert multiset(b) - multiset{x} == multiset(rest);
      AllSharesParts([x], a[1..], q, i);
      FactorProductPermutation(a[1..], rest, q, i);
      FactorProductRemove(b, k, q, i);
    }
  }

  /** Permuting the trustees never changes whether a ballot position
      verifies: every trustee is still checked and the product is the same. */
  lemma TrusteeOrderIrrelevant(lib: Library, key: PublicKey, ballot: Ciphertext, result: nat,
                               ts1: seq<Trustee>, ts2: seq<Trustee>, q: nat, i: nat)
    requires key.group.p > 0
    requires multiset(ts1) == multiset(ts2)
    ensures PositionOutcome(lib, key, ballot, result, ts1, q, i).out.Ok?
        <==> PositionOutcome(lib, key, ballot, result, ts2, q, i).out.Ok?
  {
    assert forall tr :: tr in ts1 <==> tr in ts2 by {
      assert forall tr :: tr in ts1 <==> tr in multiset(ts1);
      assert forall tr :: tr in ts2 <==> tr in multiset(ts2);
    }
    assert SharesPass(lib, key, ballot.alpha, ts1, q, i) <==> SharesPass(lib, key, ballot.alpha, ts2, q, i);
    if SharesPass(lib, key, ballot.alpha, ts1, q, i) {
      PassingSharesPresent(lib, key, ballot.alpha, ts1, q, i);
      FactorProductPermutation(ts1, ts2, q, i);
    }
  }

  /** The running product reduced mod p after every multiplication, as an
      implementation that keeps its numbers small would compute it. */
  function ReducedProduct(ts: seq<Trustee>, q: nat, i: nat, p: nat, acc: nat): nat
    requires p > 0 && AllShares(ts, q, i)
    decreases |ts|
  {
    if |ts| == 0 then acc
    else
      assert ts[0] in ts;
      AllSharesParts([ts[0]], ts[1..], q, i);
      assert ts == [ts[0]] + ts[1..];
      ReducedProduct(ts[1..], q, i, p, (acc * ts[0].factors[q][i]) % p)
  }

  lemma {:induction false} ReducedProductResidue(ts: seq<Trustee>, q: nat, i: nat, p: nat, acc: nat)
    requires p > 0 && AllShares(ts, q, i)
    ensures ReducedProduct(ts, q, i, p, acc) % p == (acc * FactorProduct(ts, q, i)) % p
    decreases |ts|
  {
    if |ts| > 0 {
      assert ts[0] in ts;
      AllSharesParts([ts[0]], ts[1..], q, i);
      assert ts == [ts[0]] + ts[1..];
      var f, x := ts[0].factors[q][i], FactorProduct(ts[1..], q, i);
      ReducedProductResidue(ts[1..], q, i, p, (acc * f) % p);
      MulMod(acc * f, x, p);
      MulMod((acc * f) % p, x, p);
      ModOfMod(acc * f, p);
      MulAssocInt(acc, f, x);
    }
  }

  /** Reducing the product mod p at every step or only at the end gives the
      same verdict on the claimed plaintext. */
  lemma EarlyReductionSameVerdict(ts: seq<Trustee>, q: nat, i: nat, p: nat, result: nat, beta: nat)
    requires p > 0 && AllShares(ts, q, i)
    ensures PlaintextHolds(ReducedProduct(ts, q, i, p, 1), result, beta, p)
        <==> PlaintextHolds(FactorProduct(ts, q, i), result, beta, p)
  {
    var r, f := ReducedProduct(ts, q, i, p, 1), FactorProduct(ts, q, i);
    ReducedProductResidue(ts, q, i, p, 1);
    MulMod(r, result + 1, p);
    MulMod(f, result + 1, p);
  }

  /** Adding a number that is not a multiple of p changes the residue. */
  lemma AddNonMultiple(x: nat, f: nat, p: nat)
    requires p > 0 && f % p != 0
    ensures (x + f) % p != x % p
  {
    var qx, rx := x / p, x % p;
    var qf, rf := f / p, f % p;
    assert x + f == (qx + qf) * p + (rx + rf);
    if rx + rf < p {
      ModUnique(x + f, qx + qf, rx + rf, p);
    } else {
      ModUnique(x + f, qx + qf + 1, rx + rf - p, p);
    }
  }

  /** The +1 offset is enforced exactly: against the same factors and beta,
      a claim one higher than an accepted claim is rejected whenever the
      combined factor is not a multiple of p. */
  lemma OffByOneRejected(combined: nat, result: nat, beta: nat, p: nat)
    requires p > 0
    requires PlaintextHolds(combined, result, beta, p)
    requires combined % p != 0
    ensures !PlaintextHolds(combined, result + 1, beta, p)
  {
    assert combined * (result + 2) == combined * (result + 1) + combined;
    AddNonMultiple(combined * (result + 1), combined, p);
  }

  /** At the level of one ballot position: if a claimed result verifies,
      the claim one higher fails with a plaintext mismatch. */
  lemma PositionOffByOneRejected(lib: Library, key: PublicKey, ballot: Ciphertext, result: nat,
                                 ts: seq<Trustee>, q: nat, i: nat)
    requires key.group.p > 0
    requires PositionOutcome(lib, key, ballot, result, ts, q, i).out.Ok?
    requires (PassingSharesPresent(lib, key, ballot.alpha, ts, q, i);
              FactorProduct(ts, q, i) % key.group.p != 0)
    ensures PositionOutcome(lib, key, ballot, result + 1, ts, q, i).out == Err(Failure(Plaintext(q, i), PlaintextMismatch))
  {
    PassingSharesPresent(lib, key, ballot.alpha, ts, q, i);
    OffByOneRejected(FactorProduct(ts, q, i), result, ballot.beta, key.group.p);
  }
}
