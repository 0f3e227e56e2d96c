/**
  Revocation (credentials.service.ts, deleteCredential): the status of the
  row with the given id in the legacy credential table (vC) is overwritten
  with REVOKED. Issuance writes vCV2, so a credential it has just issued is
  not a row of this table.
 */
module Revocation {
  import opened Wrappers

  /** A value of the status column other than REVOKED. */
  type OtherStatus = s: string | s != "REVOKED" witness ""

  /** REVOKED, or any other value of the status column. */
  datatype Status = Revoked | NotRevoked(name: OtherStatus)

  /** A row of the vC table, apart from its id (the key of the table). */
  datatype VcRow = VcRow(status: Status, signed: string)

  /**
    Why `update` rejects: the store itself failed, or the record to update
    does not exist. The source rethrows either as InternalServerErrorException.
   */
  datatype RevokeError = StoreFailed | RecordNotFound

  datatype Revocation = Revocation(table: map<string, VcRow>, result: Result<VcRow, RevokeError>)

  /**
    One call of deleteCredential on the vC table; `updateOk` is whether the
    store carries out the update at all.
   */
  function Revoke(table: map<string, VcRow>, id: string, updateOk: bool): (r: Revocation)
    ensures r.result.Success? <==> updateOk && id in table
    ensures !updateOk ==> r.result == Failure(StoreFailed)
    ensures updateOk && id !in table ==> r.result == Failure(RecordNotFound)
    ensures r.table.Keys == table.Keys
    ensures r.result.Success? ==>
      && r.table[id] == table[id].(status := Revoked)
      && r.result.value == r.table[id]
    ensures forall k :: k in table && k != id ==> r.table[k] == table[k]
    ensures r.result.Failure? ==> r.table == table
  {
    if !updateOk then
      Revocation(table, Failure(StoreFailed))
    else if id in table then
      var row := table[id].(status := Revoked);
      Revocation(table[id := row], Success(row))
    else
      Revocation(table, Failure(RecordNotFound))
  }

  /**
    Revoking again after a revocation (successful or not) leaves the table
    a successful revocation leaves, and every row it answers with is REVOKED.
   */
  lemma RevokeIdempotent(table: map<string, VcRow>, id: string, firstOk: bool)
    ensures var once := Revoke(table, id, true);
      && Revoke(once.table, id, true) == once
      && Revoke(Revoke(table, id, firstOk).table, id, true) == once
  {
  }

  /** Status only moves towards REVOKED: a revoked row stays revoked. */
  lemma RevokedStaysRevoked(table: map<string, VcRow>, id: string, k: string)
    requires k in table && table[k].status == Revoked
    ensures forall updateOk: bool :: Revoke(table, id, updateOk).table[k] == table[k]
  {
  }
}
