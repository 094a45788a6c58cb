/**
 * The two persisted records of the cashbook: a financial transaction and the
 * group it is classified into (datamodel.go).
 */
module DataModel {

  /** Go's int64, the width of `Txn.Amount`. */
  const INT64_MIN: int := -0x8000_0000_0000_0000
  const INT64_MAX: int := 0x7FFF_FFFF_FFFF_FFFF
  type Int64 = x: int | INT64_MIN <= x <= INT64_MAX

  /**
   * A financial transaction. `amount` counts minor currency units (pennies),
   * so no fractional amount can be represented. `id == 0` means the record has
   * not been persisted yet. `occurredAt` and `created` are instants as
   * integers. `actionCode` and `version` are routing data that the store does
   * not keep.
   */
  datatype Txn = Txn(
    id: int,
    txnType: string,
    amount: Int64,
    description: string,
    occurredAt: int,
    txnHostType: string,
    traceNumber: string,
    combinationKey: string,
    categoryId: int,
    systemTxnGroupId: int,
    txnGroupId: int,
    txnGroupType: string,
    classification: string,
    accountGroupId: string,
    created: int,
    actionCode: string,
    version: string)

  /**
   * A group of related transactions. `fingerprint` is the `label` column: the
   * label a matcher derived, used for equality of groups. `accountGroupId == ""`
   * is the system (global) scope.
   */
  datatype TxnGroup = TxnGroup(
    id: int,
    groupType: string,
    fingerprint: string,
    description: string,
    classification: string,
    systemTxnGroupId: int,
    categoryId: int,
    accountGroupId: string,
    created: int)

  /** The natural key of a group row: (account group, group type, label). */
  datatype GroupKey = GroupKey(accountGroupId: string, groupType: string, fingerprint: string)

  function KeyOf(g: TxnGroup): GroupKey {
    GroupKey(g.accountGroupId, g.groupType, g.fingerprint)
  }

  /** The structural validity check; the source accepts every transaction. */
  function Valid(txn: Txn): (r: bool)
    ensures r
  {
    true
  }

  /** A transaction not yet written to the store. */
  predicate IsNew(txn: Txn) {
    txn.id == 0
  }

  /**
   * The row the store keeps for `txn`: every column except the two fields
   * tagged `db:"-"`, which read back empty.
   */
  function Persisted(txn: Txn): (r: Txn)
    ensures r.actionCode == "" && r.version == ""
    ensures r.(actionCode := txn.actionCode, version := txn.version) == txn
  {
    txn.(actionCode := "", version := "")
  }

  /** Two transactions that differ only in the unpersisted fields are stored as the same row. */
  lemma PersistedIgnoresRouting(a: Txn, b: Txn)
    requires a.(actionCode := b.actionCode, version := b.version) == b
    ensures Persisted(a) == Persisted(b)
  {
  }

  /** Storing a stored row again changes nothing. */
  lemma PersistedIdempotent(txn: Txn)
    ensures Persisted(Persisted(txn)) == Persisted(txn)
  {
  }
}
