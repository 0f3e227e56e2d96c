/**
  The credentials service with the store's tables as its state: the
  counter table, the credential table issuance writes (vCV2) and the legacy
  credential table revocation writes (vC). Issuance and revocation change
  these tables step by step, in the order the source awaits its queries;
  each method is proved to agree with the pure step it is specified by.
 */
module Service {
  import opened Wrappers
  import opened Proofs
  import opened Issuance
  import opened Revocation

  class CredentialsService {
    var counters: seq<CounterRow>
    var vcV2: seq<IssuedCredential>
    var vc: map<string, VcRow>
    /** The row `counter.create({ data: {} })` inserts: the schema's column defaults. */
    const counterDefault: CounterRow

    ghost function IssueTables(): (t: IssueState)
      reads this
      ensures t.counters == counters && t.records == vcV2
    {
      IssueState(counters, vcV2)
    }

    /**
      No stored sequence number is reused or reachable by the next issuance.
      It holds for an empty credential table and survives every issuance
      except one whose counter update fails; it is not a class invariant.
     */
    ghost predicate FreshNumbering()
      reads this
    {
      SeqIdsFresh(IssueTables(), counterDefault)
    }

    constructor (counterDefault: CounterRow, counters: seq<CounterRow>, vcV2: seq<IssuedCredential>,
                 vc: map<string, VcRow>)
      ensures this.counterDefault == counterDefault
      ensures this.counters == counters && this.vcV2 == vcV2 && this.vc == vc
      ensures vcV2 == [] ==> FreshNumbering()
    {
      this.counterDefault := counterDefault;
      this.counters := counters;
      this.vcV2 := vcV2;
      this.vc := vc;
    }

    /** issueCredential, with the collaborators' answers for this call in `env`. */
    method IssueCredential(request: IssueRequest, env: IssueEnv) returns (r: Result<IssuedCredential, IssueError>)
      modifies this
      ensures vc == old(vc)
      ensures Step(IssueTables(), r) == IssueSpec(old(IssueTables()), request, env, counterDefault)
      ensures env.signer.Rejected? ==> r == Failure(SignerFailed) && counters == old(counters) && vcV2 == old(vcV2)
      ensures r.Success? ==>
        && vcV2 == old(vcV2) + [r.value]
        && r.value.proof == BuildProof(request.credential.issuer, env.signer.signed, env.now)
        && Some(r.value.seqid) == NextSeqId(old(counters), counterDefault)
        && NextSeqId(counters, counterDefault) == Some(r.value.seqid + 1)
      ensures old(FreshNumbering()) && r != Failure(CounterUpdateFailed) ==> FreshNumbering()
    {
      ghost var before := IssueTables();
      // signVC: the POST to the signing endpoint
      if env.signer.Rejected? {
        return Failure(SignerFailed);
      }
      var proof := BuildProof(request.credential.issuer, env.signer.signed, env.now);
      // find the Credential counter, creating one when there is none
      var found := FindCounter(counters, CredentialEntity);
      if found.None? {
        if !env.counterCreateOk {
          return Failure(CounterCreateFailed);
        }
        counters := counters + [counterDefault];
      }
      // read it again
      var row := FindCounter(counters, CredentialEntity);
      if row.None? {
        return Failure(CounterMissing);
      }
      var next := counters[row.value].forNextCredential;
      // create the credential numbered with the value read
      if env.newId.None? {
        return Failure(RecordCreateFailed);
      }
      var c := NewRecord(env.newId.value, next, request, proof);
      vcV2 := vcV2 + [c];
      if !env.counterUpdateOk {
        return Failure(CounterUpdateFailed);
      }
      // only now advance the counter
      counters := counters[row.value := counters[row.value].(forNextCredential := next + 1)];
      r := Success(c);
      if SeqIdsFresh(before, counterDefault) {
        IssuePreservesFreshness(before, request, env, counterDefault);
      }
    }

    /**
      deleteCredential: mark the vC row with this id REVOKED; `updateOk` is
      whether the store carries out the update.
     */
    method DeleteCredential(id: string, updateOk: bool) returns (r: Result<VcRow, RevokeError>)
      modifies this
      ensures counters == old(counters) && vcV2 == old(vcV2)
      ensures Revocation(vc, r) == Revoke(old(vc), id, updateOk)
      ensures r.Success? <==> updateOk && id in old(vc)
      ensures vc.Keys == old(vc).Keys
      ensures r.Success? ==> vc[id].status == Revoked
      ensures r.Failure? ==> vc == old(vc)
    {
      if !updateOk {
        return Failure(StoreFailed);
      }
      if id !in vc {
        return Failure(RecordNotFound);
      }
      var row := vc[id].(status := Revoked);
      vc := vc[id := row];
      r := Success(row);
    }
  }
}
