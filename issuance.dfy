/**
  Issuance (credentials.service.ts, issueCredential) as a pure step over the
  two tables it touches: the counter table and the credential table (vCV2).
  The class in service.dfy performs the same step in place and is proved to
  agree with `IssueSpec`; the properties of issuance are proved here.

  The collaborators are not modelled: what they answer on one call is
  packed into an `IssueEnv`, and the row that `counter.create({ data: {} })`
  inserts (its column defaults live in the database schema) is the
  parameter `dflt`.
 */
module Issuance {
  import opened Wrappers
  import opened Proofs

  /** The `type_of_entity` of the counter row that numbers credentials. */
  const CredentialEntity: string := "Credential"

  /** A row of the counter table. */
  datatype CounterRow = CounterRow(typeOfEntity: string, forNextCredential: int)

  /**
    A credential subject: claim name to claim value. A value is an opaque
    string standing for the JSON value itself, not for its serialisation.
   */
  type Claims = map<string, string>

  /** The `credential` member of an issue request. */
  datatype CredentialDraft = CredentialDraft(
    types: seq<string>,
    issuer: string,
    issuanceDate: string,
    expirationDate: Option<string>,
    credentialSubject: Claims)

  datatype IssueRequest = IssueRequest(credential: CredentialDraft, credentialSchema: string)

  /**
    A row of the credential table. The type, issuer, date, subject and signed
    columns are all copies of `credential` (the signed column with `proof`
    attached); `id` is assigned by the store.
   */
  datatype IssuedCredential = IssuedCredential(
    id: string,
    seqid: int,
    credential: CredentialDraft,
    subjectId: Option<string>,
    proof: Proof,
    credentialSchema: string)

  /**
    How the POST to the signing endpoint ends: it rejects, or it resolves
    with a body whose `signed` member is read (None: the body has none, which
    the cast to string does not catch).
   */
  datatype SignerAnswer = Rejected | Answered(signed: Option<string>)

  /**
    What the collaborators answer during one issuance: the signer's answer,
    the timestamp of `new Date()`, whether
    creating the missing counter succeeds, the id the store gives the new
    credential row (None: the create fails), and whether the counter update
    succeeds.
   */
  datatype IssueEnv = IssueEnv(
    signer: SignerAnswer,
    now: string,
    counterCreateOk: bool,
    newId: Option<string>,
    counterUpdateOk: bool)

  /**
    Why an issuance failed. The source wraps every one of them in an
    InternalServerErrorException; `CounterMissing` is the TypeError of
    reading `for_next_credential` from a null counter.
   */
  datatype IssueError =
    | SignerFailed
    | CounterCreateFailed
    | CounterMissing
    | RecordCreateFailed
    | CounterUpdateFailed

  datatype IssueState = IssueState(counters: seq<CounterRow>, records: seq<IssuedCredential>)

  datatype Step = Step(state: IssueState, result: Result<IssuedCredential, IssueError>)

  /** `findFirst` on the counter table: the index of the first row of type `entity`. */
  function FindCounter(counters: seq<CounterRow>, entity: string): (r: Option<nat>)
    ensures r.Some? ==> r.value < |counters| && counters[r.value].typeOfEntity == entity
    ensures r.Some? ==> forall j :: 0 <= j < r.value ==> counters[j].typeOfEntity != entity
    ensures r.None? ==> forall j :: 0 <= j < |counters| ==> counters[j].typeOfEntity != entity
  {
    if |counters| == 0 then None
    else if counters[0].typeOfEntity == entity then Some(0)
    else match FindCounter(counters[1..], entity)
      case None => None
      case Some(k) => Some(k + 1)
  }

  /** Rows of the same types are found at the same index, whatever their counter values. */
  lemma FindCounterSameTypes(a: seq<CounterRow>, b: seq<CounterRow>, entity: string)
    requires |a| == |b|
    requires forall j :: 0 <= j < |a| ==> a[j].typeOfEntity == b[j].typeOfEntity
    ensures FindCounter(a, entity) == FindCounter(b, entity)
  {
    if |a| > 0 && a[0].typeOfEntity != entity {
      assert forall j :: 0 <= j < |a| - 1 ==> a[1..][j] == a[j + 1] && b[1..][j] == b[j + 1];
      FindCounterSameTypes(a[1..], b[1..], entity);
      assert b[0].typeOfEntity != entity;
    }
  }

  /** A row appended to a table without a match is found exactly when it matches. */
  lemma FindCounterAppend(counters: seq<CounterRow>, row: CounterRow, entity: string)
    ensures FindCounter(counters, entity).None? ==>
      FindCounter(counters + [row], entity) == if row.typeOfEntity == entity then Some(|counters|) else None
  {
    if |counters| > 0 && counters[0].typeOfEntity != entity {
      assert (counters + [row])[1..] == counters[1..] + [row];
      FindCounterAppend(counters[1..], row, entity);
    }
  }

  /**
    The sequence number the next issuance will read: the Credential counter's
    value, or, when there is none yet, the value of the row that issuance
    would create (None when that row would not be a Credential counter).
   */
  function NextSeqId(counters: seq<CounterRow>, dflt: CounterRow): (r: Option<int>)
    ensures r.None? <==> FindCounter(counters, CredentialEntity).None? && dflt.typeOfEntity != CredentialEntity
  {
    match FindCounter(counters, CredentialEntity)
    case Some(i) => Some(counters[i].forNextCredential)
    case None => if dflt.typeOfEntity == CredentialEntity then Some(dflt.forNextCredential) else None
  }

  /** `(credentialSubject as any).id`. */
  function SubjectId(claims: Claims): (r: Option<string>)
    ensures r.Some? <==> "id" in claims
    ensures r.Some? ==> r.value == claims["id"]
  {
    if "id" in claims then Some(claims["id"]) else None
  }

  /** The row `vCV2.create` is given: every column taken from the request, the proof and the number read. */
  function NewRecord(id: string, seqid: int, req: IssueRequest, proof: Proof): (c: IssuedCredential)
    ensures c.id == id && c.seqid == seqid && c.proof == proof
    ensures c.credential == req.credential && c.credentialSchema == req.credentialSchema
    ensures c.subjectId == SubjectId(req.credential.credentialSubject)
    ensures c.subjectId.Some? <==> "id" in req.credential.credentialSubject
  {
    IssuedCredential(id, seqid, req.credential, SubjectId(req.credential.credentialSubject),
                     proof, req.credentialSchema)
  }

  /**
    Issuance gets as far as `vCV2.create`: the signer answered, a missing
    counter was created, and the counter read is a Credential counter.
   */
  predicate ReachesCreate(st: IssueState, env: IssueEnv, dflt: CounterRow)
  {
    && env.signer.Answered?
    && (FindCounter(st.counters, CredentialEntity).None? ==> env.counterCreateOk)
    && NextSeqId(st.counters, dflt).Some?
  }

  /**
    One call of issueCredential: sign, build the proof, find or create the
    Credential counter, read it again, create the record with the value read,
    and only then write the counter back as that value + 1.
   */
  function IssueSpec(st: IssueState, req: IssueRequest, env: IssueEnv, dflt: CounterRow): (s: Step)
    // signing comes first: when it fails nothing is touched
    ensures env.signer.Rejected? ==> s == Step(st, Failure(SignerFailed))
    // exactly these conditions make an issuance succeed
    ensures s.result.Success? <==>
      && env.signer.Answered?
      && (FindCounter(st.counters, CredentialEntity).None? ==> env.counterCreateOk)
      && NextSeqId(st.counters, dflt).Some?
      && env.newId.Some?
      && env.counterUpdateOk
    // which input makes issuance fail at which step
    ensures env.signer.Answered? && FindCounter(st.counters, CredentialEntity).None? && !env.counterCreateOk ==>
      s == Step(st, Failure(CounterCreateFailed))
    ensures env.signer.Answered? && NextSeqId(st.counters, dflt).None? && env.counterCreateOk ==>
      s == Step(IssueState(st.counters + [dflt], st.records), Failure(CounterMissing))
    ensures ReachesCreate(st, env, dflt) && env.newId.None? ==>
      s.result == Failure(RecordCreateFailed) && s.state.records == st.records
    ensures ReachesCreate(st, env, dflt) && env.newId.Some? && !env.counterUpdateOk ==>
      && s.result == Failure(CounterUpdateFailed)
      && s.state.records == st.records + [NewRecord(env.newId.value, NextSeqId(st.counters, dflt).value, req,
                                                    BuildProof(req.credential.issuer, env.signer.signed, env.now))]
    // a successful issuance stores one record numbered with the value read and advances the counter by one
    ensures s.result.Success? ==>
      && var c := s.result.value;
      && c.id == env.newId.value
      && c.credential == req.credential
      && c.credentialSchema == req.credentialSchema
      && c.subjectId == SubjectId(req.credential.credentialSubject)
      && c.proof == BuildProof(req.credential.issuer, env.signer.signed, env.now)
      && c.seqid == NextSeqId(st.counters, dflt).value
      && s.state.records == st.records + [c]
      && NextSeqId(s.state.counters, dflt) == Some(c.seqid + 1)
    // a successful issuance writes the Credential counter and no other row, creating it at the end when missing
    ensures s.result.Success? ==>
      && FindCounter(s.state.counters, CredentialEntity).Some?
      && var k := FindCounter(s.state.counters, CredentialEntity).value;
      && (FindCounter(st.counters, CredentialEntity).Some? ==>
            |s.state.counters| == |st.counters| && k == FindCounter(st.counters, CredentialEntity).value)
      && (FindCounter(st.counters, CredentialEntity).None? ==>
            |s.state.counters| == |st.counters| + 1 && k == |st.counters|)
      && (forall j :: 0 <= j < |st.counters| && j != k ==> s.state.counters[j] == st.counters[j])
    // a failed issuance changes no existing counter row, at most it leaves the created one behind
    ensures s.result.Failure? ==>
      || s.state.counters == st.counters
      || (FindCounter(st.counters, CredentialEntity).None? && s.state.counters == st.counters + [dflt])
    // failing before the record is created leaves the credential table and the next number alone
    ensures s.result.Failure? && s.result.error != CounterUpdateFailed ==>
      && s.state.records == st.records
      && NextSeqId(s.state.counters, dflt) == NextSeqId(st.counters, dflt)
    // failing at the last write leaves the record in place but the counter not advanced
    ensures s.result == Failure(CounterUpdateFailed) ==>
      && |s.state.records| == |st.records| + 1
      && s.state.records[..|st.records|] == st.records
      && NextSeqId(st.counters, dflt).Some?
      && s.state.records[|st.records|].seqid == NextSeqId(st.counters, dflt).value
      && NextSeqId(s.state.counters, dflt) == NextSeqId(st.counters, dflt)
  {
    if env.signer.Rejected? then Step(st, Failure(SignerFailed))
    else
      var proof := BuildProof(req.credential.issuer, env.signer.signed, env.now);
      var found := FindCounter(st.counters, CredentialEntity);
      if found.None? && !env.counterCreateOk then Step(st, Failure(CounterCreateFailed))
      else
        var counters := if found.None? then st.counters + [dflt] else st.counters;
        FindCounterAppend(st.counters, dflt, CredentialEntity);
        var row := FindCounter(counters, CredentialEntity);
        if row.None? then Step(IssueState(counters, st.records), Failure(CounterMissing))
        else
          var next := counters[row.value].forNextCredential;
          if env.newId.None? then Step(IssueState(counters, st.records), Failure(RecordCreateFailed))
          else
            var c := NewRecord(env.newId.value, next, req, proof);
            var records := st.records + [c];
            if !env.counterUpdateOk then Step(IssueState(counters, records), Failure(CounterUpdateFailed))
            else
              var updated := counters[row.value := counters[row.value].(forNextCredential := next + 1)];
              FindCounterSameTypes(counters, updated, CredentialEntity);
              Step(IssueState(updated, records), Success(c))
  }

  /**
    A missing Credential counter is created before it is read; an existing
    one is not duplicated; no other counter row changes.
   */
  lemma CounterFindOrCreate(st: IssueState, req: IssueRequest, env: IssueEnv, dflt: CounterRow)
    requires env.signer.Answered?
    ensures var s := IssueSpec(st, req, env, dflt);
      && (FindCounter(st.counters, CredentialEntity).Some? ==> |s.state.counters| == |st.counters|)
      && (FindCounter(st.counters, CredentialEntity).None? && env.counterCreateOk ==>
            && |s.state.counters| == |st.counters| + 1
            && s.state.counters[|st.counters|].typeOfEntity == dflt.typeOfEntity)
      && (forall j :: 0 <= j < |st.counters| && st.counters[j].typeOfEntity != CredentialEntity ==>
            s.state.counters[j] == st.counters[j])
  {
  }

  /**
    A signer that resolves without a `signed` member does not stop issuance:
    the record is numbered and stored and the counter advances, with a proof
    that carries no value.
   */
  lemma UnsignedAnswerStillIssues(st: IssueState, req: IssueRequest, env: IssueEnv, dflt: CounterRow)
    requires env.signer == Answered(None)
    requires FindCounter(st.counters, CredentialEntity).None? ==> env.counterCreateOk
    requires NextSeqId(st.counters, dflt).Some?
    requires env.newId.Some? && env.counterUpdateOk
    ensures var s := IssueSpec(st, req, env, dflt);
      && s.result.Success?
      && s.result.value.proof.proofValue.None?
      && s.result.value.seqid == NextSeqId(st.counters, dflt).value
      && s.state.records == st.records + [s.result.value]
      && NextSeqId(s.state.counters, dflt) == Some(s.result.value.seqid + 1)
  {
  }

  /**
    When the created row is not a Credential counter, issuance can never
    succeed, and each attempt inserts one more such row.
   */
  lemma MisconfiguredDefaultNeverIssues(st: IssueState, req: IssueRequest, env: IssueEnv, dflt: CounterRow)
    requires FindCounter(st.counters, CredentialEntity).None?
    requires dflt.typeOfEntity != CredentialEntity
    requires env.signer.Answered? && env.counterCreateOk
    ensures var s := IssueSpec(st, req, env, dflt);
      && s.result == Failure(CounterMissing)
      && s.state == IssueState(st.counters + [dflt], st.records)
      && FindCounter(s.state.counters, CredentialEntity).None?
  {
  }

  datatype Call = Call(request: IssueRequest, env: IssueEnv)

  datatype Run = Run(state: IssueState, results: seq<Result<IssuedCredential, IssueError>>)

  /** Issuances performed one after another, each on the state the previous one left. */
  function IssueRun(st: IssueState, calls: seq<Call>, dflt: CounterRow): (r: Run)
    ensures |r.results| == |calls|
    decreases |calls|
  {
    if |calls| == 0 then Run(st, [])
    else
      var s := IssueSpec(st, calls[0].request, calls[0].env, dflt);
      var rest := IssueRun(s.state, calls[1..], dflt);
      Run(rest.state, [s.result] + rest.results)
  }

  /** The first call of a run and the run of the rest. */
  lemma IssueRunUnfold(st: IssueState, calls: seq<Call>, dflt: CounterRow)
    requires |calls| > 0
    ensures var s := IssueSpec(st, calls[0].request, calls[0].env, dflt);
      var r := IssueRun(st, calls, dflt);
      var rest := IssueRun(s.state, calls[1..], dflt);
      && r.state == rest.state
      && r.results[0] == s.result
      && r.results[1..] == rest.results
  {
  }

  /** What one successful issuance does to the numbering, as the run lemmas use it. */
  lemma SuccessfulIssue(st: IssueState, req: IssueRequest, env: IssueEnv, dflt: CounterRow)
    requires IssueSpec(st, req, env, dflt).result.Success?
    ensures var s := IssueSpec(st, req, env, dflt);
      && NextSeqId(st.counters, dflt).Some?
      && s.result.value.seqid == NextSeqId(st.counters, dflt).value
      && NextSeqId(s.state.counters, dflt) == Some(s.result.value.seqid + 1)
      && |s.state.records| == |st.records| + 1
  {
  }

  predicate AllSucceeded(results: seq<Result<IssuedCredential, IssueError>>)
  {
    forall i :: 0 <= i < |results| ==> results[i].Success?
  }

  /** In a run that succeeds throughout, the first call and the rest succeed. */
  lemma RunTailSucceeds(st: IssueState, calls: seq<Call>, dflt: CounterRow)
    requires |calls| > 0
    requires AllSucceeded(IssueRun(st, calls, dflt).results)
    ensures var s := IssueSpec(st, calls[0].request, calls[0].env, dflt);
      && s.result.Success?
      && AllSucceeded(IssueRun(s.state, calls[1..], dflt).results)
  {
    var s := IssueSpec(st, calls[0].request, calls[0].env, dflt);
    var r := IssueRun(st, calls, dflt);
    var rest := IssueRun(s.state, calls[1..], dflt);
    IssueRunUnfold(st, calls, dflt);
    assert r.results[0] == s.result;
    forall i | 0 <= i < |rest.results| ensures rest.results[i].Success? {
      assert rest.results[i] == r.results[i + 1];
    }
  }

  /**
    Over a run of successful issuances the sequence numbers handed out are
    the consecutive values start, start + 1, ... of the counter, and the
    counter ends just past the last of them.
   */
  lemma SuccessfulRunIsConsecutive(st: IssueState, calls: seq<Call>, dflt: CounterRow)
    requires |calls| > 0
    requires AllSucceeded(IssueRun(st, calls, dflt).results)
    ensures NextSeqId(st.counters, dflt).Some?
    ensures var r := IssueRun(st, calls, dflt);
      && |r.state.records| == |st.records| + |calls|
      && (forall i :: 0 <= i < |calls| ==>
            r.results[i].value.seqid == NextSeqId(st.counters, dflt).value + i)
      && NextSeqId(r.state.counters, dflt) == Some(NextSeqId(st.counters, dflt).value + |calls|)
  {
    RunNumbersConsecutively(st, calls, dflt);
    RunAdvancesCounter(st, calls, dflt);
    RunStoresEveryRecord(st, calls, dflt);
  }

  /** The i-th issuance of a successful run receives start + i. */
  lemma {:induction false} RunNumbersConsecutively(st: IssueState, calls: seq<Call>, dflt: CounterRow)
    requires |calls| > 0
    requires AllSucceeded(IssueRun(st, calls, dflt).results)
    ensures NextSeqId(st.counters, dflt).Some?
    ensures forall i :: 0 <= i < |calls| ==>
      IssueRun(st, calls, dflt).results[i].value.seqid == NextSeqId(st.counters, dflt).value + i
    decreases |calls|
  {
    var next := SuccessfulRunStep(st, calls, dflt);
    if |calls| > 1 {
      RunNumbersConsecutively(next, calls[1..], dflt);
      NumberingShifts(IssueRun(st, calls, dflt).results, IssueRun(next, calls[1..], dflt).results,
                      NextSeqId(st.counters, dflt).value);
    }
  }

  /** After a successful run the counter offers start + the number of issuances. */
  lemma {:induction false} RunAdvancesCounter(st: IssueState, calls: seq<Call>, dflt: CounterRow)
    requires |calls| > 0
    requires AllSucceeded(IssueRun(st, calls, dflt).results)
    ensures NextSeqId(st.counters, dflt).Some?
    ensures NextSeqId(IssueRun(st, calls, dflt).state.counters, dflt) ==
            Some(NextSeqId(st.counters, dflt).value + |calls|)
    decreases |calls|
  {
    var next := SuccessfulRunStep(st, calls, dflt);
    if |calls| > 1 {
      RunAdvancesCounter(next, calls[1..], dflt);
    }
  }

  /** A successful run stores one record per issuance. */
  lemma {:induction false} RunStoresEveryRecord(st: IssueState, calls: seq<Call>, dflt: CounterRow)
    requires |calls| > 0
    requires AllSucceeded(IssueRun(st, calls, dflt).results)
    ensures |IssueRun(st, calls, dflt).state.records| == |st.records| + |calls|
    decreases |calls|
  {
    var next := SuccessfulRunStep(st, calls, dflt);
    if |calls| > 1 {
      RunStoresEveryRecord(next, calls[1..], dflt);
    } else {
      assert IssueRun(next, calls[1..], dflt) == Run(next, []);
    }
  }

  /**
    The first step of a run that succeeds throughout: it takes the number
    the counter offers, advances the counter by one and stores one record,
    and leaves `next`, on which the rest of the run succeeds.
   */
  lemma SuccessfulRunStep(st: IssueState, calls: seq<Call>, dflt: CounterRow) returns (next: IssueState)
    requires |calls| > 0
    requires AllSucceeded(IssueRun(st, calls, dflt).results)
    ensures NextSeqId(st.counters, dflt).Some?
    ensures |calls| == 1 ==> IssueRun(st, calls, dflt).state == next
    ensures var r := IssueRun(st, calls, dflt);
      var rest := IssueRun(next, calls[1..], dflt);
      && r.results[0].Success?
      && r.results[0].value.seqid == NextSeqId(st.counters, dflt).value
      && NextSeqId(next.counters, dflt) == Some(NextSeqId(st.counters, dflt).value + 1)
      && |next.records| == |st.records| + 1
      && AllSucceeded(rest.results)
      && r.results[1..] == rest.results
      && r.state == rest.state
  {
    next := IssueSpec(st, calls[0].request, calls[0].env, dflt).state;
    IssueRunUnfold(st, calls, dflt);
    RunTailSucceeds(st, calls, dflt);
    SuccessfulIssue(st, calls[0].request, calls[0].env, dflt);
  }

  /** Numbers start + 1, ... on the tail and start on the head give start, start + 1, ... on the whole. */
  lemma NumberingShifts(results: seq<Result<IssuedCredential, IssueError>>,
                        tail: seq<Result<IssuedCredential, IssueError>>, start: int)
    requires |results| > 0 && results[1..] == tail
    requires results[0].Success? && results[0].value.seqid == start
    requires forall i :: 0 <= i < |tail| ==> tail[i].Success? && tail[i].value.seqid == start + 1 + i
    ensures forall i :: 0 <= i < |results| ==> results[i].Success? && results[i].value.seqid == start + i
  {
    forall i | 0 <= i < |results| ensures results[i].Success? && results[i].value.seqid == start + i {
      if i > 0 {
        assert results[i] == tail[i - 1];
      }
    }
  }

  /** Hence a successful run hands out strictly increasing, pairwise distinct numbers. */
  lemma SuccessfulRunIsIncreasing(st: IssueState, calls: seq<Call>, dflt: CounterRow, i: nat, j: nat)
    requires i < j < |calls|
    requires AllSucceeded(IssueRun(st, calls, dflt).results)
    ensures var r := IssueRun(st, calls, dflt);
      r.results[i].value.seqid < r.results[j].value.seqid
  {
    SuccessfulRunIsConsecutive(st, calls, dflt);
  }

  /**
    The table invariant behind uniqueness: every stored number is below the
    number the next issuance will read, and no number is stored twice.
   */
  predicate SeqIdsFresh(st: IssueState, dflt: CounterRow)
  {
    && (NextSeqId(st.counters, dflt).Some? ==>
          forall i :: 0 <= i < |st.records| ==> st.records[i].seqid < NextSeqId(st.counters, dflt).value)
    && (forall i, j :: 0 <= i < j < |st.records| ==> st.records[i].seqid != st.records[j].seqid)
  }

  /** Every issuance keeps the invariant, except one whose final counter update fails. */
  lemma IssuePreservesFreshness(st: IssueState, req: IssueRequest, env: IssueEnv, dflt: CounterRow)
    requires SeqIdsFresh(st, dflt)
    requires IssueSpec(st, req, env, dflt).result != Failure(CounterUpdateFailed)
    ensures SeqIdsFresh(IssueSpec(st, req, env, dflt).state, dflt)
  {
  }

  /**
    A failed counter update after a successful create leaves the number
    unconsumed, so the next issuance stores the same number again.
   */
  lemma UpdateFailureRepeatsSeqId(st: IssueState, req1: IssueRequest, env1: IssueEnv,
                                  req2: IssueRequest, env2: IssueEnv, dflt: CounterRow)
    requires IssueSpec(st, req1, env1, dflt).result == Failure(CounterUpdateFailed)
    requires IssueSpec(IssueSpec(st, req1, env1, dflt).state, req2, env2, dflt).result.Success?
    ensures var s1 := IssueSpec(st, req1, env1, dflt);
      var s2 := IssueSpec(s1.state, req2, env2, dflt);
      && |s2.state.records| == |st.records| + 2
      && s2.state.records[|st.records|].seqid == s2.state.records[|st.records| + 1].seqid
      && s2.result.value.seqid == NextSeqId(st.counters, dflt).value
      && !SeqIdsFresh(s2.state, dflt)
  {
    var s1 := IssueSpec(st, req1, env1, dflt);
    var s2 := IssueSpec(s1.state, req2, env2, dflt);
    assert s2.state.records == s1.state.records + [s2.result.value];
    assert s2.state.records[|st.records|] == s1.state.records[|st.records|];
  }

  /** A concrete instance: seqid 1 is stored twice. */
  lemma UpdateFailureDuplicatesSeqId(req: IssueRequest, dflt: CounterRow)
    ensures
      var st := IssueState([CounterRow(CredentialEntity, 1)], []);
      var s1 := IssueSpec(st, req, IssueEnv(Answered(Some("sig")), "t1", true, Some("a"), false), dflt);
      var s2 := IssueSpec(s1.state, req, IssueEnv(Answered(Some("sig")), "t2", true, Some("b"), true), dflt);
      && s1.result == Failure(CounterUpdateFailed)
      && s2.result.Success?
      && |s2.state.records| == 2
      && s2.state.records[0].seqid == s2.state.records[1].seqid == 1
      && !SeqIdsFresh(s2.state, dflt)
  {
  }
}
