/**
 * The classification engine of src/cashbook/txn_group_assigner.go as
 * functions over a value of the two tables it touches, `txn_groups` and
 * `txns`, with the lemmas that state what it guarantees. The imperative
 * version, class TxnGroupAssigner.Db, is proved equal to these functions.
 *
 * Store failures are inputs: each find-or-create is told whether its select
 * fails with an error other than "no rows" and whether its insert fails, and
 * the transaction upsert whether its write fails.
 */
module AssignerSpec {
  import opened Wrappers
  import opened DataModel
  import opened Matcher

  // ---------------------------------------------------------------------------
  // The tables
  // ---------------------------------------------------------------------------

  /** The two tables and the next value of each table's id sequence. */
  datatype Tables = Tables(groups: seq<TxnGroup>, nextGroupId: int, txns: seq<Txn>, nextTxnId: int)

  /** The uniqueness constraint over (account_group_id, group_type, label). */
  predicate KeysUnique(groups: seq<TxnGroup>) {
    forall i, j :: 0 <= i < j < |groups| ==> KeyOf(groups[i]) != KeyOf(groups[j])
  }

  /** Ids are positive, below the sequence's next value, and increase with insertion order. */
  predicate GroupIdsIssued(groups: seq<TxnGroup>, next: int) {
    && (forall i :: 0 <= i < |groups| ==> 0 < groups[i].id < next)
    && (forall i, j :: 0 <= i < j < |groups| ==> groups[i].id < groups[j].id)
  }

  predicate TxnIdsIssued(txns: seq<Txn>, next: int) {
    && (forall i :: 0 <= i < |txns| ==> 0 < txns[i].id < next)
    && (forall i, j :: 0 <= i < j < |txns| ==> txns[i].id < txns[j].id)
  }

  predicate GroupTableValid(groups: seq<TxnGroup>, next: int) {
    0 < next && KeysUnique(groups) && GroupIdsIssued(groups, next)
  }

  predicate WellFormed(t: Tables) {
    GroupTableValid(t.groups, t.nextGroupId) && 0 < t.nextTxnId && TxnIdsIssued(t.txns, t.nextTxnId)
  }

  /** The empty database a fresh schema starts from. */
  const EMPTY: Tables := Tables([], 1, [], 1)

  /** Rows of one table are told apart by their ids. */
  lemma IdsIdentifyRows(groups: seq<TxnGroup>, next: int, a: TxnGroup, b: TxnGroup)
    requires GroupIdsIssued(groups, next)
    requires a in groups && b in groups && a.id == b.id
    ensures a == b
  {
    var i :| 0 <= i < |groups| && groups[i] == a;
    var j :| 0 <= j < |groups| && groups[j] == b;
    if i < j {
      assert groups[i].id < groups[j].id;
    } else if j < i {
      assert groups[j].id < groups[i].id;
    }
  }

  // ---------------------------------------------------------------------------
  // select * from txn_groups where the natural key matches
  // ---------------------------------------------------------------------------

  /**
   * The first row with the key. On a table breaking the uniqueness constraint
   * gorp's SelectOne would fail on the second row instead (and the caller fall
   * back to the seed); every table here keeps the constraint (WellFormed), and
   * there the first row is the only one (FindGroupUnique).
   */
  function FindGroup(groups: seq<TxnGroup>, key: GroupKey): (r: Option<TxnGroup>)
    ensures r.Some? ==> r.value in groups && KeyOf(r.value) == key
    ensures r.None? <==> forall i :: 0 <= i < |groups| ==> KeyOf(groups[i]) != key
  {
    if groups == [] then None
    else if KeyOf(groups[0]) == key then Some(groups[0])
    else FindGroup(groups[1..], key)
  }

  /** Under the uniqueness constraint the select returns THE row with that key. */
  lemma {:induction false} FindGroupUnique(groups: seq<TxnGroup>, i: nat)
    requires KeysUnique(groups) && i < |groups|
    ensures FindGroup(groups, KeyOf(groups[i])) == Some(groups[i])
  {
    if i > 0 {
      assert KeyOf(groups[0]) != KeyOf(groups[i]);
      assert KeysUnique(groups[1..]) by {
        forall a, b | 0 <= a < b < |groups[1..]| ensures KeyOf(groups[1..][a]) != KeyOf(groups[1..][b]) {
          assert groups[1..][a] == groups[a + 1] && groups[1..][b] == groups[b + 1];
        }
      }
      FindGroupUnique(groups[1..], i - 1);
    }
  }

  /** A row appended at the end is seen only by keys nothing earlier holds. */
  lemma {:induction false} FindGroupAppend(groups: seq<TxnGroup>, row: TxnGroup, key: GroupKey)
    ensures FindGroup(groups + [row], key) ==
              if FindGroup(groups, key).Some? then FindGroup(groups, key)
              else if KeyOf(row) == key then Some(row) else None
  {
    if groups == [] {
      assert groups + [row] == [row];
    } else {
      assert (groups + [row])[0] == groups[0];
      assert (groups + [row])[1..] == groups[1..] + [row];
      FindGroupAppend(groups[1..], row, key);
    }
  }

  // ---------------------------------------------------------------------------
  // find-or-create
  // ---------------------------------------------------------------------------

  /** What the database does on one find-or-create call. */
  datatype GroupFaults = GroupFaults(selectFails: bool, insertFails: bool)

  const GROUP_OK: GroupFaults := GroupFaults(false, false)

  datatype FocResult = FocResult(group: TxnGroup, groups: seq<TxnGroup>, nextGroupId: int)

  /**
   * The protocol shared by both find-or-create functions: `seed` is the
   * pre-initialised record (id 0). A row with its key is returned as stored;
   * on "no rows" the seed is inserted under a fresh id; on a failed select or
   * a failed insert the seed comes back unchanged and nothing is written.
   */
  function FindOrCreate(groups: seq<TxnGroup>, nextId: int, seed: TxnGroup, f: GroupFaults): (r: FocResult)
    ensures KeyOf(r.group) == KeyOf(seed)
    ensures r.groups == groups || (r.groups == groups + [r.group] && r.group == seed.(id := nextId))
  {
    if f.selectFails then FocResult(seed, groups, nextId)
    else match FindGroup(groups, KeyOf(seed))
      case Some(row) => FocResult(row, groups, nextId)
      case None =>
        if f.insertFails then FocResult(seed, groups, nextId)
        else FocResult(seed.(id := nextId), groups + [seed.(id := nextId)], nextId + 1)
  }

  /** The pre-initialised system group: empty account group, no classification. */
  function SystemSeed(derived: string, groupType: string, now: int): (r: TxnGroup)
    ensures r.id == 0 && KeyOf(r) == GroupKey("", groupType, derived)
    ensures r.classification == "" && r.systemTxnGroupId == 0 && r.categoryId == 0 && r.created == now
  {
    TxnGroup(id := 0, groupType := groupType, fingerprint := derived, description := "",
             classification := "", systemTxnGroupId := 0, categoryId := 0,
             accountGroupId := "", created := now)
  }

  /**
   * The pre-initialised account group, derived from the system group; its
   * category is NOT copied from the system group.
   */
  function AccountSeed(agid: string, system: TxnGroup, now: int): (r: TxnGroup)
    ensures r.id == 0 && KeyOf(r) == GroupKey(agid, system.groupType, system.fingerprint)
    ensures r.systemTxnGroupId == system.id && r.classification == system.classification
    ensures r.categoryId == 0 && r.created == now
  {
    TxnGroup(id := 0, groupType := system.groupType, fingerprint := system.fingerprint, description := "",
             classification := system.classification, systemTxnGroupId := system.id, categoryId := 0,
             accountGroupId := agid, created := now)
  }

  /** Find-or-create keeps the uniqueness constraint and the id sequence. */
  lemma FindOrCreatePreservesTable(groups: seq<TxnGroup>, nextId: int, seed: TxnGroup, f: GroupFaults)
    requires GroupTableValid(groups, nextId)
    ensures var r := FindOrCreate(groups, nextId, seed, f);
            GroupTableValid(r.groups, r.nextGroupId) && nextId <= r.nextGroupId
            && (r.groups == groups ==> r.nextGroupId == nextId)
  {
    var r := FindOrCreate(groups, nextId, seed, f);
    if r.groups != groups {
      var row := seed.(id := nextId);
      assert FindGroup(groups, KeyOf(seed)).None?;
      assert r.groups == groups + [row];
      forall i, j | 0 <= i < j < |r.groups| ensures KeyOf(r.groups[i]) != KeyOf(r.groups[j]) {
        if j == |groups| {
          assert KeyOf(groups[i]) != KeyOf(seed);
        } else {
          assert r.groups[i] == groups[i] && r.groups[j] == groups[j];
        }
      }
    }
  }

  /**
   * The row returned after a successful call is the table's row for the key;
   * a call that returns id 0 has failed and written nothing.
   */
  lemma FindOrCreateResult(groups: seq<TxnGroup>, nextId: int, seed: TxnGroup, f: GroupFaults)
    requires GroupTableValid(groups, nextId) && seed.id == 0
    ensures var r := FindOrCreate(groups, nextId, seed, f);
            (r.group.id != 0 ==> FindGroup(r.groups, KeyOf(seed)) == Some(r.group) && r.group in r.groups)
            && (r.group.id == 0 <==> r.group == seed)
            && (r.group.id == 0 ==> r.groups == groups)
            && (!f.selectFails && !f.insertFails ==> r.group.id != 0)
  {
    var r := FindOrCreate(groups, nextId, seed, f);
    if r.groups != groups {
      FindGroupAppend(groups, r.group, KeyOf(seed));
    }
  }

  /**
   * Idempotence: a second call with the same key returns the first call's row
   * and writes nothing, once the first call has succeeded and the second's
   * select does. Whatever the two calls' faults, they add at most one row.
   */
  lemma FindOrCreateTwice(groups: seq<TxnGroup>, nextId: int, seed1: TxnGroup, f1: GroupFaults,
                          seed2: TxnGroup, f2: GroupFaults)
    requires GroupTableValid(groups, nextId) && seed1.id == 0 && KeyOf(seed1) == KeyOf(seed2)
    ensures var r1 := FindOrCreate(groups, nextId, seed1, f1);
            var r2 := FindOrCreate(r1.groups, r1.nextGroupId, seed2, f2);
            && |r2.groups| <= |groups| + 1
            && (r1.group.id != 0 && !f2.selectFails ==> r2.group == r1.group && r2.groups == r1.groups)
  {
    var r1 := FindOrCreate(groups, nextId, seed1, f1);
    FindOrCreateResult(groups, nextId, seed1, f1);
    if r1.groups != groups {
      FindGroupAppend(groups, r1.group, KeyOf(seed1));
    }
  }

  /**
   * System find-or-create: an existing ("", type, label) row comes back and
   * the table is untouched; otherwise, when the store cooperates, exactly one
   * row is added, in the system scope, with that type and label, no
   * classification and an id no other row has.
   */
  lemma SystemFindOrCreate(groups: seq<TxnGroup>, nextId: int, derived: string, groupType: string,
                           now: int, f: GroupFaults)
    requires GroupTableValid(groups, nextId)
    ensures var key := GroupKey("", groupType, derived);
            var r := FindOrCreate(groups, nextId, SystemSeed(derived, groupType, now), f);
            && (!f.selectFails && FindGroup(groups, key).Some? ==>
                  r.group == FindGroup(groups, key).value && r.groups == groups)
            && (!f.selectFails && !f.insertFails && FindGroup(groups, key).None? ==>
                  && r.groups == groups + [r.group]
                  && r.group.accountGroupId == "" && r.group.groupType == groupType
                  && r.group.fingerprint == derived && r.group.classification == ""
                  && r.group.id > 0 && (forall g :: g in groups ==> g.id != r.group.id))
  {
  }

  /**
   * Account find-or-create: an existing (agid, type, label) row is returned as
   * stored, whatever the system group holds; a new row points back at the
   * system group, copies its classification and starts without a category.
   */
  lemma AccountFindOrCreate(groups: seq<TxnGroup>, nextId: int, agid: string, system: TxnGroup,
                            now: int, f: GroupFaults)
    requires GroupTableValid(groups, nextId)
    ensures var key := GroupKey(agid, system.groupType, system.fingerprint);
            var r := FindOrCreate(groups, nextId, AccountSeed(agid, system, now), f);
            && (!f.selectFails && FindGroup(groups, key).Some? ==>
                  r.group == FindGroup(groups, key).value && r.groups == groups)
            && (!f.selectFails && !f.insertFails && FindGroup(groups, key).None? ==>
                  && r.groups == groups + [r.group]
                  && r.group.accountGroupId == agid && r.group.systemTxnGroupId == system.id
                  && r.group.classification == system.classification && r.group.categoryId == 0
                  && r.group.id > 0 && (forall g :: g in groups ==> g.id != r.group.id))
  {
  }

  /** On a failed select, or a failed insert after "no rows", the caller gets the seed with id 0. */
  lemma FindOrCreateFailure(groups: seq<TxnGroup>, nextId: int, seed: TxnGroup, f: GroupFaults)
    requires f.selectFails || (FindGroup(groups, KeyOf(seed)).None? && f.insertFails)
    ensures FindOrCreate(groups, nextId, seed, f) == FocResult(seed, groups, nextId)
  {
  }

  // ---------------------------------------------------------------------------
  // Upsert of the transaction
  // ---------------------------------------------------------------------------

  datatype UpsertResult = UpsertResult(txn: Txn, txns: seq<Txn>, nextTxnId: int)

  /** UPDATE txns ... WHERE id = row.id: every row with that id becomes `row`. */
  function ReplaceById(txns: seq<Txn>, row: Txn): (r: seq<Txn>)
    ensures |r| == |txns|
    ensures forall i :: 0 <= i < |txns| ==> r[i] == if txns[i].id == row.id then row else txns[i]
  {
    seq(|txns|, i requires 0 <= i < |txns| => if txns[i].id == row.id then row else txns[i])
  }

  /**
   * Persist `txn`: update when it has an id, otherwise stamp `created` and
   * insert it under a fresh id. A failed write changes no table.
   */
  function Upsert(txns: seq<Txn>, nextId: int, txn: Txn, now: int, writeFails: bool): (r: UpsertResult)
    ensures !IsNew(txn) ==> r.txn == txn && r.nextTxnId == nextId && |r.txns| == |txns|
    ensures IsNew(txn) ==> r.txn.(id := 0, created := txn.created) == txn && r.txn.created == now
    ensures writeFails ==> r.txns == txns && r.nextTxnId == nextId
    ensures r.nextTxnId == nextId || (r.nextTxnId == nextId + 1 && r.txns == txns + [Persisted(r.txn)])
  {
    if !IsNew(txn) then
      UpsertResult(txn, if writeFails then txns else ReplaceById(txns, Persisted(txn)), nextId)
    else
      var stamped := txn.(created := now);
      if writeFails then UpsertResult(stamped, txns, nextId)
      else UpsertResult(stamped.(id := nextId), txns + [Persisted(stamped.(id := nextId))], nextId + 1)
  }

  /**
   * An update leaves the transaction as it came (its `created` included) and
   * replaces the stored row with that id, if there is one, leaving every other
   * row and the length of the table alone.
   */
  lemma UpsertExisting(txns: seq<Txn>, nextId: int, txn: Txn, now: int, writeFails: bool)
    requires TxnIdsIssued(txns, nextId) && txn.id != 0
    ensures var u := Upsert(txns, nextId, txn, now, writeFails);
            && u.txn == txn && u.nextTxnId == nextId && |u.txns| == |txns|
            && (forall i :: 0 <= i < |txns| && txns[i].id != txn.id ==> u.txns[i] == txns[i])
            && (forall i :: 0 <= i < |txns| && txns[i].id == txn.id ==>
                  u.txns[i] == if writeFails then txns[i] else Persisted(txn))
            && TxnIdsIssued(u.txns, u.nextTxnId)
  {
    var u := Upsert(txns, nextId, txn, now, writeFails);
    if !writeFails {
      forall i | 0 <= i < |txns| ensures u.txns[i].id == txns[i].id {
      }
    }
  }

  /**
   * An insert stamps `created` with the supplied instant; on success the
   * transaction gets an id no stored row has and its row is appended, on
   * failure it keeps id 0 and nothing is written.
   */
  lemma UpsertNew(txns: seq<Txn>, nextId: int, txn: Txn, now: int, writeFails: bool)
    requires 0 < nextId && TxnIdsIssued(txns, nextId) && txn.id == 0
    ensures var u := Upsert(txns, nextId, txn, now, writeFails);
            && u.txn.created == now
            && u.txn.(id := 0, created := txn.created) == txn
            && (writeFails ==> u.txn.id == 0 && u.txns == txns && u.nextTxnId == nextId)
            && (!writeFails ==> u.txn.id > 0 && (forall r :: r in txns ==> r.id != u.txn.id)
                                && u.txns == txns + [Persisted(u.txn)])
            && TxnIdsIssued(u.txns, u.nextTxnId)
  {
  }

  // ---------------------------------------------------------------------------
  // assign_txn_to_txn_group
  // ---------------------------------------------------------------------------

  /** What the database does during one assignment. */
  datatype AssignFaults = AssignFaults(system: GroupFaults, account: GroupFaults, txnWriteFails: bool)

  const ASSIGN_OK: AssignFaults := AssignFaults(GROUP_OK, GROUP_OK, false)

  /**
   * The assignment either completes with the updated transaction or stops at a
   * nil matcher entry (a panic in Go) before any write.
   */
  datatype Outcome = Completed(txn: Txn) | Panicked(index: nat)

  datatype AssignResult = AssignResult(outcome: Outcome, tables: Tables)

  function Persist(t: Tables, txn: Txn, now: int, writeFails: bool): (r: AssignResult)
    ensures r.outcome.Completed? && r.tables.groups == t.groups && r.tables.nextGroupId == t.nextGroupId
  {
    var u := Upsert(t.txns, t.nextTxnId, txn, now, writeFails);
    AssignResult(Completed(u.txn), t.(txns := u.txns, nextTxnId := u.nextTxnId))
  }

  /** The system group and the account group a matcher's label leads to, and the stamped transaction. */
  datatype Classified = Classified(txn: Txn, system: TxnGroup, account: TxnGroup, groups: seq<TxnGroup>, nextGroupId: int)

  function Classify(t: Tables, txn: Txn, m: StartsWithMatcher, now: int, f: AssignFaults): (c: Classified)
    ensures KeyOf(c.system) == GroupKey("", m.groupType, Label(m, txn.description))
    ensures KeyOf(c.account) == GroupKey(txn.accountGroupId, m.groupType, Label(m, txn.description))
    ensures c.txn.systemTxnGroupId == c.system.id && c.txn.classification == c.system.classification
    ensures c.txn.txnGroupId == c.account.id && c.txn.txnGroupType == c.account.groupType
            && c.txn.categoryId == c.account.categoryId
    ensures c.txn.(systemTxnGroupId := txn.systemTxnGroupId, classification := txn.classification,
                   txnGroupId := txn.txnGroupId, txnGroupType := txn.txnGroupType,
                   categoryId := txn.categoryId) == txn
  {
    var derived := Label(m, txn.description);
    var sys := FindOrCreate(t.groups, t.nextGroupId, SystemSeed(derived, m.groupType, now), f.system);
    var stamped := txn.(systemTxnGroupId := sys.group.id, classification := sys.group.classification);
    var acct := FindOrCreate(sys.groups, sys.nextGroupId, AccountSeed(stamped.accountGroupId, sys.group, now), f.account);
    var classified := stamped.(txnGroupId := acct.group.id, txnGroupType := acct.group.groupType,
                               categoryId := acct.group.categoryId);
    Classified(classified, sys.group, acct.group, acct.groups, acct.nextGroupId)
  }

  function Assign(t: Tables, txn: Txn, matchers: MatchSet, now: int, f: AssignFaults): (r: AssignResult)
    ensures r.outcome.Panicked? <==> FirstMatch(matchers, txn.description).NilMatcher?
    ensures r.outcome.Panicked? ==> r.tables == t
    ensures r.outcome.Completed? ==>
              r.outcome.txn.(id := txn.id, created := txn.created, systemTxnGroupId := txn.systemTxnGroupId,
                             classification := txn.classification, txnGroupId := txn.txnGroupId,
                             txnGroupType := txn.txnGroupType, categoryId := txn.categoryId) == txn
  {
    if !Valid(txn) then AssignResult(Completed(txn), t)
    else match FirstMatch(matchers, txn.description)
      case NilMatcher(i) => AssignResult(Panicked(i), t)
      case NotFound => Persist(t, txn, now, f.txnWriteFails)
      case Found(_, m) =>
        var c := Classify(t, txn, m, now, f);
        Persist(t.(groups := c.groups, nextGroupId := c.nextGroupId), c.txn, now, f.txnWriteFails)
  }

  /** The validity gate: a rejected transaction would come back as it was, with no write. */
  lemma InvalidTxnUntouched(t: Tables, txn: Txn, matchers: MatchSet, now: int, f: AssignFaults)
    ensures !Valid(txn) ==> Assign(t, txn, matchers, now, f) == AssignResult(Completed(txn), t)
  {
  }

  /** Whatever the store does, an assignment keeps both tables well formed. */
  lemma AssignPreservesTables(t: Tables, txn: Txn, matchers: MatchSet, now: int, f: AssignFaults)
    requires WellFormed(t)
    ensures WellFormed(Assign(t, txn, matchers, now, f).tables)
  {
    var r := Assign(t, txn, matchers, now, f);
    match FirstMatch(matchers, txn.description)
    case NilMatcher(_) =>
    case NotFound =>
      PersistPreserves(t, txn, now, f.txnWriteFails);
    case Found(_, m) =>
      ClassifyPreservesGroups(t, txn, m, now, f);
      var c := Classify(t, txn, m, now, f);
      PersistPreserves(t.(groups := c.groups, nextGroupId := c.nextGroupId), c.txn, now, f.txnWriteFails);
  }

  lemma PersistPreserves(t: Tables, txn: Txn, now: int, writeFails: bool)
    requires WellFormed(t)
    ensures WellFormed(Persist(t, txn, now, writeFails).tables)
    ensures Persist(t, txn, now, writeFails).tables.groups == t.groups
  {
    if txn.id != 0 {
      UpsertExisting(t.txns, t.nextTxnId, txn, now, writeFails);
    } else {
      UpsertNew(t.txns, t.nextTxnId, txn, now, writeFails);
    }
  }

  lemma ClassifyPreservesGroups(t: Tables, txn: Txn, m: StartsWithMatcher, now: int, f: AssignFaults)
    requires GroupTableValid(t.groups, t.nextGroupId)
    ensures var c := Classify(t, txn, m, now, f);
            GroupTableValid(c.groups, c.nextGroupId)
  {
    var derived := Label(m, txn.description);
    var sys := FindOrCreate(t.groups, t.nextGroupId, SystemSeed(derived, m.groupType, now), f.system);
    FindOrCreatePreservesTable(t.groups, t.nextGroupId, SystemSeed(derived, m.groupType, now), f.system);
    FindOrCreatePreservesTable(sys.groups, sys.nextGroupId, AccountSeed(txn.accountGroupId, sys.group, now), f.account);
  }

  /**
   * No matcher fires: the group references, classification and category keep
   * their incoming values, the group table is untouched, and only the upsert
   * happens.
   */
  lemma UnmatchedPassesThrough(t: Tables, txn: Txn, matchers: MatchSet, now: int, f: AssignFaults)
    requires FirstMatch(matchers, txn.description) == NotFound
    ensures var r := Assign(t, txn, matchers, now, f);
            && r.outcome.Completed?
            && r.outcome.txn.systemTxnGroupId == txn.systemTxnGroupId
            && r.outcome.txn.classification == txn.classification
            && r.outcome.txn.txnGroupId == txn.txnGroupId
            && r.outcome.txn.txnGroupType == txn.txnGroupType
            && r.outcome.txn.categoryId == txn.categoryId
            && r.tables.groups == t.groups && r.tables.nextGroupId == t.nextGroupId
  {
  }

  /** A nil entry reached by the scan stops the assignment before anything is written. */
  lemma NilMatcherWritesNothing(t: Tables, txn: Txn, matchers: MatchSet, now: int, f: AssignFaults)
    requires FirstMatch(matchers, txn.description).NilMatcher?
    ensures Assign(t, txn, matchers, now, f) == AssignResult(Panicked(FirstMatch(matchers, txn.description).index), t)
  {
  }

  /**
   * A matched transaction with a cooperating store points at the rows the
   * group table holds under its two natural keys: the system row
   * ("", type, label) gives `systemTxnGroupId` and `classification`, the
   * account row (account group, type, label) gives `txnGroupId`,
   * `txnGroupType` and `categoryId`.
   */
  lemma ClassifyStampsRows(t: Tables, txn: Txn, m: StartsWithMatcher, now: int)
    requires GroupTableValid(t.groups, t.nextGroupId)
    ensures var c := Classify(t, txn, m, now, ASSIGN_OK);
            var derived := Label(m, txn.description);
            && FindGroup(c.groups, GroupKey("", m.groupType, derived)) == Some(c.system)
            && FindGroup(c.groups, GroupKey(txn.accountGroupId, m.groupType, derived)) == Some(c.account)
            && c.system.id > 0 && c.account.id > 0
            && c.txn.systemTxnGroupId == c.system.id && c.txn.classification == c.system.classification
            && c.txn.txnGroupId == c.account.id && c.txn.txnGroupType == m.groupType
            && c.txn.categoryId == c.account.categoryId
            && GroupTableValid(c.groups, c.nextGroupId) && t.groups <= c.groups
  {
    var derived := Label(m, txn.description);
    var seed := SystemSeed(derived, m.groupType, now);
    var sys := FindOrCreate(t.groups, t.nextGroupId, seed, GROUP_OK);
    SuccessfulLookup(t.groups, t.nextGroupId, seed);
    var aseed := AccountSeed(txn.accountGroupId, sys.group, now);
    SuccessfulLookup(sys.groups, sys.nextGroupId, aseed);
    LookupSurvives(sys.groups, sys.nextGroupId, aseed, KeyOf(seed));
  }

  /** A find-or-create that the store lets succeed leaves the table holding the returned row under its key. */
  lemma SuccessfulLookup(groups: seq<TxnGroup>, nextId: int, seed: TxnGroup)
    requires GroupTableValid(groups, nextId) && seed.id == 0
    ensures var r := FindOrCreate(groups, nextId, seed, GROUP_OK);
            && FindGroup(r.groups, KeyOf(seed)) == Some(r.group) && r.group.id > 0
            && GroupTableValid(r.groups, r.nextGroupId) && groups <= r.groups
  {
    FindOrCreateResult(groups, nextId, seed, GROUP_OK);
    FindOrCreatePreservesTable(groups, nextId, seed, GROUP_OK);
  }

  /** A later find-or-create does not change what an earlier key finds. */
  lemma LookupSurvives(groups: seq<TxnGroup>, nextId: int, seed: TxnGroup, key: GroupKey)
    requires FindGroup(groups, key).Some?
    ensures FindGroup(FindOrCreate(groups, nextId, seed, GROUP_OK).groups, key) == FindGroup(groups, key)
  {
    var r := FindOrCreate(groups, nextId, seed, GROUP_OK);
    if r.groups != groups {
      FindGroupAppend(groups, r.group, key);
    }
  }

  /** In the system scope both lookups reach the same row: the two group ids coincide. */
  lemma SystemScopeSharesRow(t: Tables, txn: Txn, m: StartsWithMatcher, now: int)
    requires GroupTableValid(t.groups, t.nextGroupId) && txn.accountGroupId == ""
    ensures var c := Classify(t, txn, m, now, ASSIGN_OK);
            c.txn.txnGroupId == c.txn.systemTxnGroupId && c.account == c.system
  {
    ClassifyStampsRows(t, txn, m, now);
  }

  /**
   * Scope isolation: for a real account group the system row and the account
   * row are distinct rows with distinct ids.
   */
  lemma AccountScopeIsolated(t: Tables, txn: Txn, m: StartsWithMatcher, now: int)
    requires GroupTableValid(t.groups, t.nextGroupId) && txn.accountGroupId != ""
    ensures var c := Classify(t, txn, m, now, ASSIGN_OK);
            c.txn.txnGroupId != c.txn.systemTxnGroupId && c.account != c.system
  {
    ClassifyStampsRows(t, txn, m, now);
    var c := Classify(t, txn, m, now, ASSIGN_OK);
    assert KeyOf(c.account).accountGroupId != KeyOf(c.system).accountGroupId;
    if c.account.id == c.system.id {
      IdsIdentifyRows(c.groups, c.nextGroupId, c.account, c.system);
    }
  }

  /**
   * Re-importing: a second transaction with the same description in the same
   * account group reuses both rows. No group row is added and it is stamped
   * with the same group ids.
   */
  lemma ReimportReusesGroups(t: Tables, txn1: Txn, txn2: Txn, m: StartsWithMatcher, now1: int, now2: int)
    requires GroupTableValid(t.groups, t.nextGroupId)
    requires txn2.description == txn1.description && txn2.accountGroupId == txn1.accountGroupId
    ensures var c1 := Classify(t, txn1, m, now1, ASSIGN_OK);
            var c2 := Classify(t.(groups := c1.groups, nextGroupId := c1.nextGroupId), txn2, m, now2, ASSIGN_OK);
            && c2.groups == c1.groups && c2.nextGroupId == c1.nextGroupId
            && c2.system == c1.system && c2.account == c1.account
            && c2.txn.systemTxnGroupId == c1.txn.systemTxnGroupId && c2.txn.txnGroupId == c1.txn.txnGroupId
  {
    ClassifyStampsRows(t, txn1, m, now1);
    var c1 := Classify(t, txn1, m, now1, ASSIGN_OK);
    var derived := Label(m, txn1.description);
    var seed2 := SystemSeed(derived, m.groupType, now2);
    assert FindOrCreate(c1.groups, c1.nextGroupId, seed2, GROUP_OK).group == c1.system;
    assert AccountSeed(txn2.accountGroupId, c1.system, now2).accountGroupId == txn1.accountGroupId;
  }

  /**
   * A failed system lookup leaves the transaction with system group id 0 and
   * an empty classification; the assignment still completes.
   */
  lemma SystemFailureDegrades(t: Tables, txn: Txn, m: StartsWithMatcher, now: int, f: AssignFaults)
    requires f.system.selectFails
    ensures var c := Classify(t, txn, m, now, f);
            c.txn.systemTxnGroupId == 0 && c.txn.classification == "" && c.system.id == 0
  {
  }

  /**
   * The whole assignment of a matched transaction with a cooperating store:
   * it completes, the returned transaction references the stored system and
   * account rows for its label, and its two group ids coincide exactly when it
   * belongs to the system scope.
   */
  lemma MatchedAssignment(t: Tables, txn: Txn, matchers: MatchSet, now: int)
    requires WellFormed(t) && FirstMatch(matchers, txn.description).Found?
    ensures var m := FirstMatch(matchers, txn.description).matcher;
            var derived := Label(m, txn.description);
            var r := Assign(t, txn, matchers, now, ASSIGN_OK);
            var sys := FindGroup(r.tables.groups, GroupKey("", m.groupType, derived));
            var acct := FindGroup(r.tables.groups, GroupKey(txn.accountGroupId, m.groupType, derived));
            && r.outcome.Completed? && sys.Some? && acct.Some?
            && r.outcome.txn.systemTxnGroupId == sys.value.id
            && r.outcome.txn.classification == sys.value.classification
            && r.outcome.txn.txnGroupId == acct.value.id
            && r.outcome.txn.txnGroupType == acct.value.groupType
            && r.outcome.txn.categoryId == acct.value.categoryId
            && (r.outcome.txn.txnGroupId == r.outcome.txn.systemTxnGroupId <==> txn.accountGroupId == "")
  {
    var m := FirstMatch(matchers, txn.description).matcher;
    ClassifyStampsRows(t, txn, m, now);
    var c := Classify(t, txn, m, now, ASSIGN_OK);
    PersistPreserves(t.(groups := c.groups, nextGroupId := c.nextGroupId), c.txn, now, false);
    if txn.accountGroupId == "" {
      SystemScopeSharesRow(t, txn, m, now);
    } else {
      AccountScopeIsolated(t, txn, m, now);
    }
  }
}
