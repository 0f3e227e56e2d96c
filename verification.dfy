/**
  Verification (credentials.service.ts, verifyCredential). The DID is the
  presented credential's issuer; the resolver GET, awaited before the
  try block, rejects on failure and that rejection escapes. Inside the try
  block the first verification method's key is read and ION.verifyJws is
  awaited; any exception there yields false, and anything it resolves to
  yields true.
 */
module Verification {
  import opened Wrappers
  import opened Proofs
  import Issuance

  /** A public key in JWK form, opaque here. */
  type Jwk = string

  datatype VerificationMethod = VerificationMethod(publicKeyJwk: Option<Jwk>)

  datatype DidDocument = DidDocument(verificationMethod: Option<seq<VerificationMethod>>)

  /** The resolver's response body; only an object has members to read. */
  datatype ResolverBody = Document(doc: DidDocument) | NotAnObject

  /** How `await ION.verifyJws(…)` ends: with a value, or by throwing. */
  datatype JwsOutcome = Returned(verified: bool) | Threw

  /** The `verifiableCredential` of a verify request, as far as it is read. */
  datatype PresentedCredential = PresentedCredential(issuer: string, proof: Option<Proof>)

  datatype VerifyError = ResolverFailed(reason: string)

  /** The GET of `<identity service>/did/resolve/<did>`: a body, or the rejection's reason. */
  type Resolver = string -> Result<ResolverBody, string>

  /** ION.verifyJws applied to the JWS and the public key (either may be undefined). */
  type JwsCheck = (Option<string>, Option<Jwk>) -> JwsOutcome

  /**
    `did.verificationMethod[0].publicKeyJwk`: Some(key) (a key that may itself
    be undefined), or None when the expression throws because the body is
    not an object, has no method list, or has an empty one.
   */
  function FirstKey(body: ResolverBody): (k: Option<Option<Jwk>>)
    ensures k.None? <==>
      !(body.Document? && body.doc.verificationMethod.Some? && |body.doc.verificationMethod.value| > 0)
    ensures k.Some? ==> k == Some(body.doc.verificationMethod.value[0].publicKeyJwk)
  {
    match body
    case NotAnObject => None
    case Document(doc) =>
      match doc.verificationMethod
      case None => None
      case Some(methods) => if |methods| == 0 then None else Some(methods[0].publicKeyJwk)
  }

  /** `verifiableCredential?.proof?.proofValue`: undefined without a proof or without a value in it. */
  function ProofValue(vc: PresentedCredential): (v: Option<string>)
    ensures v.Some? <==> vc.proof.Some? && vc.proof.value.proofValue.Some?
    ensures v.Some? ==> v == vc.proof.value.proofValue
  {
    match vc.proof
    case None => None
    case Some(p) => p.proofValue
  }

  /** The verdict of verifyCredential, or the resolver's rejection. */
  function Verify(vc: PresentedCredential, resolve: Resolver, verifyJws: JwsCheck): (r: Result<bool, VerifyError>)
    ensures r.Failure? <==> resolve(vc.issuer).Failure?
    ensures resolve(vc.issuer).Failure? ==> r == Failure(ResolverFailed(resolve(vc.issuer).error))
    ensures r == Success(true) <==>
      && resolve(vc.issuer).Success?
      && FirstKey(resolve(vc.issuer).value).Some?
      && verifyJws(ProofValue(vc), FirstKey(resolve(vc.issuer).value).value) != Threw
  {
    match resolve(vc.issuer)
    case Failure(reason) => Failure(ResolverFailed(reason))
    case Success(body) =>
      match FirstKey(body)
      case None => Success(false)
      case Some(key) => Success(!verifyJws(ProofValue(vc), key).Threw?)
  }

  /** A document with an empty method list gives false, not an error. */
  lemma EmptyMethodListIsFalse(vc: PresentedCredential, resolve: Resolver, verifyJws: JwsCheck)
    requires resolve(vc.issuer) == Success(Document(DidDocument(Some([]))))
    ensures Verify(vc, resolve, verifyJws) == Success(false)
  {
  }

  /** A resolver failure is never turned into false. */
  lemma ResolverFailureIsNotFalse(vc: PresentedCredential, resolve: Resolver, verifyJws: JwsCheck)
    requires resolve(vc.issuer).Failure?
    ensures Verify(vc, resolve, verifyJws) != Success(false)
  {
  }

  /** Whatever value verifyJws resolves to, even false, the verdict is true. */
  lemma ReturnedValueIsIgnored(vc: PresentedCredential, resolve: Resolver, verifyJws: JwsCheck)
    requires resolve(vc.issuer).Success?
    requires FirstKey(resolve(vc.issuer).value).Some?
    requires verifyJws(ProofValue(vc), FirstKey(resolve(vc.issuer).value).value) == Returned(false)
    ensures Verify(vc, resolve, verifyJws) == Success(true)
  {
  }

  /** Only the first verification method of the document is consulted. */
  lemma OnlyFirstMethodMatters(vc: PresentedCredential, r1: Resolver, r2: Resolver, verifyJws: JwsCheck,
                               m: VerificationMethod, rest1: seq<VerificationMethod>, rest2: seq<VerificationMethod>)
    requires r1(vc.issuer) == Success(Document(DidDocument(Some([m] + rest1))))
    requires r2(vc.issuer) == Success(Document(DidDocument(Some([m] + rest2))))
    ensures Verify(vc, r1, verifyJws) == Verify(vc, r2, verifyJws)
  {
  }

  /**
    The verdict depends on the credential only through its issuer and the
    proof value: the proof's own verificationMethod, type and purpose are
    never compared with anything.
   */
  lemma OnlyIssuerAndProofValueMatter(vc1: PresentedCredential, vc2: PresentedCredential,
                                      resolve: Resolver, verifyJws: JwsCheck)
    requires vc1.issuer == vc2.issuer
    requires ProofValue(vc1) == ProofValue(vc2)
    ensures Verify(vc1, resolve, verifyJws) == Verify(vc2, resolve, verifyJws)
  {
  }

  /** A credential as issuance stored it, presented for verification. */
  function Present(c: Issuance.IssuedCredential): (p: PresentedCredential)
    ensures p.issuer == c.credential.issuer && ProofValue(p) == c.proof.proofValue
  {
    PresentedCredential(c.credential.issuer, Some(c.proof))
  }

  /**
    Issue, then verify: the JWS checked is exactly the signer's output, so
    a just-issued credential verifies exactly when the issuer's DID
    resolves to a document with a first verification method and verifyJws
    does not throw on the signed member (undefined when the signer's body
    had none) and that method's key.
   */
  lemma IssuedCredentialVerifies(st: Issuance.IssueState, req: Issuance.IssueRequest, env: Issuance.IssueEnv,
                                 dflt: Issuance.CounterRow, resolve: Resolver, verifyJws: JwsCheck)
    requires Issuance.IssueSpec(st, req, env, dflt).result.Success?
    ensures var c := Issuance.IssueSpec(st, req, env, dflt).result.value;
      var did := req.credential.issuer;
      Verify(Present(c), resolve, verifyJws) == Success(true) <==>
        && resolve(did).Success?
        && FirstKey(resolve(did).value).Some?
        && verifyJws(env.signer.signed, FirstKey(resolve(did).value).value) != Threw
  {
  }
}
