/**
 * The classification engine as the source runs it: a database object whose
 * `txn_groups` and `txns` tables the three operations of
 * src/cashbook/txn_group_assigner.go change in place. Each operation is proved
 * to do exactly what the function of the same role in AssignerSpec describes,
 * so the lemmas there are facts about these methods.
 */
module TxnGroupAssigner {
  import opened Wrappers
  import opened DataModel
  import opened Matcher
  import opened AssignerSpec

  class Db {
    var groups: seq<TxnGroup>
    var nextGroupId: int
    var txns: seq<Txn>
    var nextTxnId: int

    function State(): Tables
      reads this
    {
      Tables(groups, nextGroupId, txns, nextTxnId)
    }

    /** The uniqueness constraint on the group key and the two id sequences. */
    ghost predicate Valid()
      reads this
    {
      WellFormed(State())
    }

    /** A freshly migrated, empty database. */
    constructor ()
      ensures Valid() && State() == EMPTY
    {
      groups, nextGroupId := [], 1;
      txns, nextTxnId := [], 1;
    }

    /**
     * find_or_create_txn_group and find_or_create_system_txn_group share this
     * protocol: select the row with the seed's key, insert the seed when there
     * is none, fall back to the seed on any error.
     */
    method FindOrCreateGroup(seed: TxnGroup, f: GroupFaults) returns (group: TxnGroup)
      requires Valid()
      modifies this
      ensures Valid()
      ensures var r := FindOrCreate(old(groups), old(nextGroupId), seed, f);
              group == r.group && groups == r.groups && nextGroupId == r.nextGroupId
      ensures txns == old(txns) && nextTxnId == old(nextTxnId)
    {
      FindOrCreatePreservesTable(groups, nextGroupId, seed, f);
      group := seed;
      if f.selectFails {
        // "Error selecting txn group": logged, the pre-initialised record is returned.
        return;
      }
      match FindGroup(groups, KeyOf(seed)) {
        case Some(row) =>
          group := row;
        case None =>
          if !f.insertFails {
            group := group.(id := nextGroupId);
            groups := groups + [group];
            nextGroupId := nextGroupId + 1;
          }
      }
    }

    /** The system-scope group for (label, type). */
    method FindOrCreateSystemTxnGroup(derived: string, groupType: string, now: int, f: GroupFaults)
      returns (group: TxnGroup)
      requires Valid()
      modifies this
      ensures Valid()
      ensures var r := FindOrCreate(old(groups), old(nextGroupId), SystemSeed(derived, groupType, now), f);
              group == r.group && groups == r.groups && nextGroupId == r.nextGroupId
      ensures txns == old(txns) && nextTxnId == old(nextTxnId)
    {
      group := FindOrCreateGroup(SystemSeed(derived, groupType, now), f);
    }

    /** The account-scope group derived from `systemGroup`. */
    method FindOrCreateTxnGroup(agid: string, systemGroup: TxnGroup, now: int, f: GroupFaults)
      returns (group: TxnGroup)
      requires Valid()
      modifies this
      ensures Valid()
      ensures var r := FindOrCreate(old(groups), old(nextGroupId), AccountSeed(agid, systemGroup, now), f);
              group == r.group && groups == r.groups && nextGroupId == r.nextGroupId
      ensures txns == old(txns) && nextTxnId == old(nextTxnId)
    {
      group := FindOrCreateGroup(AccountSeed(agid, systemGroup, now), f);
    }

    /**
     * The last step of assign_txn_to_txn_group: update the row when the
     * transaction has an id, otherwise stamp `created` and insert it.
     */
    method UpsertTxn(txn: Txn, now: int, writeFails: bool) returns (stored: Txn)
      requires Valid()
      modifies this
      ensures Valid()
      ensures var u := Upsert(old(txns), old(nextTxnId), txn, now, writeFails);
              stored == u.txn && txns == u.txns && nextTxnId == u.nextTxnId
      ensures groups == old(groups) && nextGroupId == old(nextGroupId)
    {
      PersistPreserves(State(), txn, now, writeFails);
      stored := txn;
      if !IsNew(stored) {
        if !writeFails {
          // "Error updating txn" otherwise: logged, nothing written.
          txns := ReplaceById(txns, Persisted(stored));
        }
      } else {
        stored := stored.(created := now);
        if !writeFails {
          stored := stored.(id := nextTxnId);
          txns := txns + [Persisted(stored)];
          nextTxnId := nextTxnId + 1;
        }
      }
    }

    /**
     * assign_txn_to_txn_group: classify `txn` with the first matcher that
     * fires, stamp the group references on it and upsert it. `now` is the
     * wall-clock instant of the call.
     */
    method AssignTxnToTxnGroup(txn: Txn, matchers: MatchSet, now: int, f: AssignFaults)
      returns (outcome: Outcome)
      requires Valid()
      modifies this
      ensures Valid()
      ensures Assign(old(State()), txn, matchers, now, f) == AssignResult(outcome, State())
    {
      if !DataModel.Valid(txn) {
        // "Invalid txn": logged, returned as it came.
        return Completed(txn);
      }
      var t := txn;
      var found := FindMatcher(matchers, t.description);
      match found {
        case NilMatcher(i) =>
          return Panicked(i);
        case NotFound =>
        case Found(_, m) =>
          var derived := Label(m, t.description);
          var groupType := m.groupType;
          var systemGroup := FindOrCreateSystemTxnGroup(derived, groupType, now, f.system);
          t := t.(systemTxnGroupId := systemGroup.id, classification := systemGroup.classification);
          var txnGroup := FindOrCreateTxnGroup(t.accountGroupId, systemGroup, now, f.account);
          t := t.(txnGroupId := txnGroup.id, txnGroupType := txnGroup.groupType, categoryId := txnGroup.categoryId);
      }
      t := UpsertTxn(t, now, f.txnWriteFails);
      outcome := Completed(t);
    }
  }
}
