/**
  The proof object that issuance attaches to a credential
  (credentials.service.ts, issueCredential, the literal assigned to
  credInReq.proof).
 */
module Proofs {
  import opened Wrappers

  /** The signature suite every issuance proof names. */
  const SignatureSuite: string := "Ed25519Signature2020"

  /** The purpose every issuance proof names. */
  const AssertionMethod: string := "assertionMethod"

  /**
    An issuance proof. `proofValue` is whatever the signer's response body
    held under `signed`: None when the body had no such member.
   */
  datatype Proof = Proof(
    proofValue: Option<string>,
    proofType: string,
    created: string,
    verificationMethod: string,
    proofPurpose: string)

  /** The fixed shape of an issuance proof for `issuer`, signed `signed` at `created`. */
  predicate IsIssuanceProof(p: Proof, issuer: string, signed: Option<string>, created: string)
  {
    && p.proofValue == signed
    && p.proofType == SignatureSuite
    && p.created == created
    && p.verificationMethod == issuer
    && p.proofPurpose == AssertionMethod
  }

  /**
    Builds the proof from the signer's `signed` member, the credential's
    issuer and the ISO timestamp taken when the proof is built.
   */
  function BuildProof(issuer: string, signed: Option<string>, created: string): (p: Proof)
    ensures IsIssuanceProof(p, issuer, signed, created)
  {
    Proof(signed, SignatureSuite, created, issuer, AssertionMethod)
  }

  /** The shape determines the proof: nothing but the three inputs varies. */
  lemma IssuanceProofIsBuilt(p: Proof, issuer: string, signed: Option<string>, created: string)
    ensures IsIssuanceProof(p, issuer, signed, created) <==> p == BuildProof(issuer, signed, created)
  {
  }

  /** Distinct signer outputs, issuers or timestamps give distinct proofs. */
  lemma BuildProofInjective(i1: string, s1: Option<string>, c1: string, i2: string, s2: Option<string>, c2: string)
    requires BuildProof(i1, s1, c1) == BuildProof(i2, s2, c2)
    ensures i1 == i2 && s1 == s2 && c1 == c2
  {
  }
}
