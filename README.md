# Credential service: issuance, verification, revocation and rendering

A Dafny model of the credential service of a Verifiable Credential
microservice (`CredentialsService` in `src/credentials/credentials.service.ts`).
The service signs a credential through an identity service, numbers it
with a per-entity counter kept in the database, stores it, verifies a
presented credential against its issuer's resolved DID document, marks a
stored credential REVOKED, and renders a credential's subject through a
handlebars template.

Files:

- `wrappers.dfy`: `Option` and `Result` (a `Failure` is a thrown error or a rejected promise).
- `proofs.dfy`: the fixed-shape proof issuance attaches.
- `issuance.dfy`: one issuance as a pure step over the counter table and the
  vCV2 credential table (`IssueSpec`), runs of issuances (`IssueRun`) and the
  sequence-number properties.
- `revocation.dfy`: one revocation as a pure step over the vC table (`Revoke`).
- `verification.dfy`: the verification verdict (`Verify`), with the DID
  resolver and `ION.verifyJws` as oracles.
- `rendering.dfy`: the render dispatch (`Render`), with `JSON.parse` and
  handlebars as oracles.
- `service.dfy`: the class `CredentialsService` holding the three tables as
  fields; `IssueCredential` and `DeleteCredential` update them step by step,
  in the order the source awaits its queries. Each is proved equal to its
  pure step.

Collaborators are parameters. On one issuance call, `IssueEnv` holds:

- the signer's answer: a rejection, or a response body whose `signed` member
  may be missing (`as string` at credentials.service.ts:110 is only a cast);
- the timestamp that `new Date()` would give;
- whether creating the missing counter succeeds;
- the id the store gives the new row, or the failure of that create;
- whether the final counter update succeeds.

The row that `counter.create({ data: {} })` inserts comes from the database
schema, which is not part of this model, so it is the parameter
`counterDefault` (`dflt`). Verification takes the resolver as a function
from DID to response body or rejection. It takes `ION.verifyJws` as a
function from (JWS, key) to "returned a value" or "threw". Rendering takes
`JSON.parse` and `compile(template)(subject)` as partial functions.

What the code does, and the model with it:

- The signature is requested first, before any store access. Only after
  signing is the counter found (or created), read, used as `seqid` for the
  new vCV2 row, and written back as value + 1.
- The counter advances only after the credential row is created, as the
  source's own comment at credentials.service.ts:175 says. If that final
  update fails, the row stays and the number is not consumed, so the next
  issuance stores the same `seqid` again (`UpdateFailureRepeatsSeqId`,
  with a concrete instance in `UpdateFailureDuplicatesSeqId`).
  This assumes the database schema, which is not part of this model, puts
  no unique index on `vCV2.seqid`; with one, the second create would fail
  instead.
- A signer response without a `signed` member does not throw. The proof
  then has an undefined `proofValue`, and the credential is still numbered,
  stored and counted (`UnsignedAnswerStillIssues`).
- Suppose the default counter row is not of type `Credential`. Then the
  second `findFirst` returns null, and reading `for_next_credential` throws.
  Every such attempt leaves one more counter row behind
  (`MisconfiguredDefaultNeverIssues`).
- A resolver failure happens before the `try` block, so it propagates to
  the caller instead of giving `false`. Inside the `try`, a
  missing or empty method list and a throwing `verifyJws` give `false`.
  Whatever `verifyJws` returns, even `false`, gives `true`
  (`ReturnedValueIsIgnored`).
- The proof's own `verificationMethod` is never compared with the issuer.
- In rendering, `id` is deleted from the subject after the template has
  produced its text, not before. Only QR_LINK returns the text. PDF starts
  a write to `render-<credential id>.pdf` that is not awaited. STRING,
  HTML, JSON and QR return nothing, and there is no "not supported" answer.
  A JSON `null` subject makes the `delete` throw.
- Revocation writes the table vC, while issuance writes vCV2. Its outcome
  is an input as well: whether the store carries out the update.

## Model

| member | source | states |
|---|---|---|
| `Proofs.BuildProof` | src/credentials/credentials.service.ts:133-142 | the proof has suite Ed25519Signature2020, purpose assertionMethod, verificationMethod = issuer, proofValue = the signer's `signed` member (absent when the body has none), created = the timestamp |
| `Proofs.IssuanceProofIsBuilt` | src/credentials/credentials.service.ts:133-142 | a proof has that fixed shape exactly when it is the one built from those three inputs |
| `Proofs.BuildProofInjective` | src/credentials/credentials.service.ts:133-142 | equal proofs come from equal issuer, `signed` member and timestamp |
| `Issuance.FindCounter` | src/credentials/credentials.service.ts:148-150 | the result is the index of the first counter row of the entity type, and None exactly when no row has that type |
| `Issuance.NextSeqId` | src/credentials/credentials.service.ts:148-163 | the number the next issuance reads is absent exactly when there is no Credential counter and the created default row is not one |
| `Issuance.SubjectId` | src/credentials/credentials.service.ts:169 | the subject id is present exactly when the subject has an `id` claim, and is that claim's value |
| `Issuance.NewRecord` | src/credentials/credentials.service.ts:160-174 | the created row carries the store's id, the number read, the proof, the request's credential and schema, and as subject id the value of the subject's `id` claim, present exactly when there is one |
| `Issuance.IssueSpec` | src/credentials/credentials.service.ts:113-184 | a signer rejection changes nothing and fails; success happens exactly when the signer answers, the counter create (if needed), the record create and the update all succeed and a Credential counter is found. On success, one record is appended, with the proof built from the signer's `signed` member and seqid = the value read; the counter then reads that value + 1. Success writes only the Credential counter row (the existing one, or one appended at the end) and keeps every other row. A failure changes no existing counter row and at most leaves the created one behind. Each cause gives its own error: a failed counter create gives CounterCreateFailed with nothing changed; a non-Credential created row gives CounterMissing with that row left behind; a failed record create gives RecordCreateFailed with no record added; a failed counter update gives CounterUpdateFailed with the record, as built, already stored. A failure before the create leaves the credential table and the next number unchanged. An update failure keeps the record and leaves the counter unchanged |
| `Issuance.UnsignedAnswerStillIssues` | src/credentials/credentials.service.ts:110-179 | a signer body without `signed` still gives a successful issuance: the record is stored with the number read, the counter advances, and the stored proof has no value |
| `Issuance.CounterFindOrCreate` | src/credentials/credentials.service.ts:147-158 | an existing Credential counter is not duplicated; a missing one is created (one row, of the default's type) before it is read; counter rows of other types are untouched |
| `Issuance.MisconfiguredDefaultNeverIssues` | src/credentials/credentials.service.ts:152-163 | if the default row is not a Credential counter, issuance fails with no record and appends one more such row on every attempt |
| `Issuance.SuccessfulRunIsConsecutive` | src/credentials/credentials.service.ts:156-179 | in a run of issuances that all succeed, the i-th receives seqid start + i, and the counter ends at start + the number of issuances |
| `Issuance.SuccessfulRunIsIncreasing` | src/credentials/credentials.service.ts:156-179 | seqids handed out by a successful run are strictly increasing, so they are pairwise distinct |
| `Issuance.IssuePreservesFreshness` | src/credentials/credentials.service.ts:156-179 | stored seqids are distinct and below the next number; any issuance keeps this unless its final counter update fails |
| `Issuance.UpdateFailureRepeatsSeqId` | src/credentials/credentials.service.ts:160-179 | for every table: after an issuance whose counter update fails, the next successful issuance stores the same seqid again, and the seqid invariant is broken |
| `Issuance.UpdateFailureDuplicatesSeqId` | src/credentials/credentials.service.ts:160-179 | a concrete pair of calls: an update failure and then one success store two records with seqid 1, which breaks that invariant |
| `Revocation.Revoke` | src/credentials/credentials.service.ts:191-203 | succeeds exactly when the store carries out the update and the id is in vC; the row gets status REVOKED and is returned; all other rows and the key set are unchanged; a store failure or a missing id fails and changes nothing |
| `Revocation.RevokeIdempotent` | src/credentials/credentials.service.ts:193-198 | a successful revocation after another revocation, successful or not, gives the same table and answer as revoking once |
| `Revocation.RevokedStaysRevoked` | src/credentials/credentials.service.ts:193-198 | a row that is already REVOKED is left unchanged by any revocation |
| `Verification.FirstKey` | src/credentials/credentials.service.ts:88 | `verificationMethod[0].publicKeyJwk` throws exactly when the body is not an object or its method list is absent or empty; otherwise it is the first method's key |
| `Verification.ProofValue` | src/credentials/credentials.service.ts:87 | the JWS is present exactly when the credential has a proof holding a proofValue, and is that value |
| `Verification.Verify` | src/credentials/credentials.service.ts:59-96 | fails exactly when the resolver for the issuer's DID fails (it propagates); otherwise true exactly when the first method's key can be read and verifyJws on the proof value and that key does not throw |
| `Verification.EmptyMethodListIsFalse` | src/credentials/credentials.service.ts:85-95 | an empty verification-method list gives false, not an error |
| `Verification.ResolverFailureIsNotFalse` | src/credentials/credentials.service.ts:71-73 | a resolver failure never yields false |
| `Verification.ReturnedValueIsIgnored` | src/credentials/credentials.service.ts:86-91 | verifyJws finishing with the value false still gives true |
| `Verification.OnlyFirstMethodMatters` | src/credentials/credentials.service.ts:88 | documents that agree on their first verification method give the same verdict |
| `Verification.OnlyIssuerAndProofValueMatter` | src/credentials/credentials.service.ts:68-88 | credentials with the same issuer and proof value get the same verdict, whatever else their proofs hold |
| `Verification.IssuedCredentialVerifies` | src/credentials/credentials.service.ts:85-91 | a just-issued credential verifies exactly when its issuer resolves and verifyJws does not throw on the signer's original `signed` member (undefined when it had none) and the first method's key |
| `Rendering.PdfFileName` | src/credentials/credentials.service.ts:245 | the file name is `render-`, then the credential id, then `.pdf` |
| `Rendering.RemoveId` | src/credentials/credentials.service.ts:236 | an object subject loses its `id` member and keeps all others; non-objects are unchanged |
| `Rendering.Render` | src/credentials/credentials.service.ts:227-257 | fails exactly when the parse fails, the template fails, or the subject is null; on success, text is returned only for QR_LINK and a PDF write is started only for PDF. Both carry the template applied to the subject as parsed, with id, and the PDF goes to `render-<id>.pdf` |
| `Rendering.SilentFormatsProduceNothing` | src/credentials/credentials.service.ts:237-256 | QR, STRING, HTML and JSON return nothing and write nothing |
| `Rendering.IdRemovedOnlyAfterCompiling` | src/credentials/credentials.service.ts:233-236 | when the template's text depends on `id`, the QR_LINK text differs from the text of the subject without `id` |
| `Rendering.NullSubjectFails` | src/credentials/credentials.service.ts:231-236 | a null subject fails at the delete even when the template succeeded |
| `Service.CredentialsService.IssueCredential` | src/credentials/credentials.service.ts:113-184 | in-place issuance over the tables equals `IssueSpec` and leaves vC unchanged. A signer rejection leaves the tables unchanged. On success, one row is appended with the built proof and the counter advances by one. The seqid invariant is kept unless the update fails |
| `Service.CredentialsService.DeleteCredential` | src/credentials/credentials.service.ts:191-203 | in-place revocation equals `Revoke`; the counter and vCV2 tables are unchanged; it succeeds exactly when the store carries out the update and the id is present, and that row ends REVOKED; a failure changes nothing |

## Left out

- The HTTP controller (`src/credentials/credentials.controller.ts`): it routes requests and sets a response header.
- The controller's `delteCredential(@Param() id: string)` (credentials.controller.ts:53-55) passes the whole route-parameter object, not the id string. So a revocation over HTTP reaches `vC.update` with an object as the id, and by these lines it cannot find a row. The model's `DeleteCredential` takes the id string that `deleteCredential` declares.
- `getCredentials`, `getCredentialById`, `getCredentialsBySubjectOrIssuer`: each is a single store query, and its filter semantics belong to the ORM.
- `updateCredential` and `deriveCredential`: both are stubs that return nothing.
- `renderAsQR`: `renderCredential` does not call it; it is a store read plus a QR encoder call.
- `saveHTMLToPDF`: the headless browser is not modelled. The model records only the write request (HTML and file name). Because the call is not awaited, its outcome cannot affect the result.
- The PDF path: the model keeps the unresolved name `render-<id>.pdf`. It does not model how `path.join` resolves that name against `process.cwd()` and `/src/credentials/buffer/`. The id comes from the request, so `/` or `..` in it can move the write outside that directory, and the model does not show this.
- The payload the signer receives (`transformCredentialInput` and `JSON.stringify`) is not modelled. The signer's answer for the call is an input.
- `JSON.stringify` of the subject and schema on storage is not modelled: the record keeps the values.
- Store reads (`findFirst`) are assumed to succeed. `findFirst` returns the first matching row in table order.
- `Issuance.IssueSpec`: on its failure paths the request object has already had its `proof` set in memory. The model treats the request as a value, so this mutation is not visible.
- `Issuance.IssueSpec`: counter values are unbounded integers. A 32-bit overflow of the database column on `for_next_credential + 1` is not modelled.
- Issued vCV2 rows carry no status column here: its default comes from the schema, which is not part of this model.
- Concurrency: the find, create and update of the counter are separate awaits, not one atomic step. Two concurrent issuances can read the same value and store the same `seqid`. The model is sequential and says nothing about interleavings.
- The error wrapping: all issuance and revocation errors are rethrown as InternalServerErrorException. The model keeps the cause (`IssueError`, `RevokeError`) instead.
- Logging, `process.env` URL construction, and `new Date()`, whose value is `IssueEnv.now`.
- `Issuance.IssueSpec`: the issuer is a string. `CredentialPayload` also allows an issuer object (`{ id: … }`); the source then puts that object into `proof.verificationMethod` (credentials.service.ts:140) and passes it as the `issuer` column (credentials.service.ts:165), and the model cannot express this case.
- `Verification.Verify`: two document shapes are not expressible. A `null` first verification method makes `null.publicKeyJwk` throw inside the `try`, so the verdict is false. A method list that is a string makes `"…"[0].publicKeyJwk` undefined without throwing, so verifyJws gets an undefined key.
- `Verification.Verify`: an `issuer` that is not a string is out of scope; the source would interpolate it into the URL as text. A missing `verifiableCredential` is out of scope too.
- `Rendering.Render`: output values outside the six RENDER_OUTPUT variants are not modelled. Such a value would fall through the switch, like STRING does.
