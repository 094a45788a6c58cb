# Cashbook classification engine and reporting arithmetic, in Dafny

Cashbook imports financial transactions and sorts each one into a
*transaction group*: a merchant or payee identified by a label. The group
comes from an ordered list of prefix matchers. The first matcher whose pattern
starts the transaction's normalised description decides the group type and
derives the label. The assigner then looks up, or creates, two group rows for
that label:

- a system-wide row, whose account group is `""`;
- a row for the transaction's own account group, which points back at the
  system row.

It stamps both group ids on the transaction and writes the transaction, with
an update or an insert. The reporting API sums, counts and lists over the
transaction and group tables, and `currency` formats an amount in cents as
dollars.

The project is made of six modules:

- `Wrappers` (wrappers.dfy): `Option`.
- `DataModel` (datamodel.dfy): the `Txn` and `TxnGroup` records, the natural
  key of a group row, `Valid`, and the row the store keeps for a transaction.
- `Matcher` (matcher.dfy): normalisation, `strings.TrimPrefix` and
  `strings.TrimSpace`, the prefix matcher's `Match` and `Label`, and the
  first-match lookup.
  - The lookup is an imperative scan, `FindMatcher`, proved equal to the
    function `FirstMatch`.
  - The compile loop is an imperative method that fills an array.
  - `MatcherExamples` works through the description "AMAZON MKTPL 123".
- `AssignerSpec` (assigner_spec.dfy): the two tables as a value, and
  find-or-create, upsert and assignment as functions over that value.
  - Each store failure is a boolean input.
  - The lemmas state what the engine guarantees.
- `TxnGroupAssigner` (txn_group_assigner.dfy): class `Db`, which holds the two
  tables and their id sequences as fields.
  - `AssignTxnToTxnGroup`, `FindOrCreateSystemTxnGroup` and `FindOrCreateTxnGroup`
    are the three Go functions, with the same branches.
  - `FindOrCreateGroup` is the select-insert-fall-back protocol both
    find-or-create functions share.
  - `UpsertTxn` is the tail of assign_txn_to_txn_group (lines 58-70) as a
    method of its own.
  - Each method is proved to leave the state, and return the value, that the
    corresponding `AssignerSpec` function gives.
  - Each method also keeps the uniqueness constraint and the id sequences.
- `Report` (report.dfy): the reporting queries.
  - Each query is its WHERE clause as a predicate, with count and sum over
    the rows that clause selects.
  - `currency` uses Go's truncating `/` and `%`.
  - A parser proves that printing an amount loses nothing.
  - A corrected format is included; see Findings.

Modelling decisions:

- **Store failures.** Each store failure is an explicit input:
  - whether a group select fails with an error other than "no rows";
  - whether a group insert fails;
  - whether the transaction write fails;
  - whether a report query fails.

  After a failed select or insert, the caller gets the pre-initialised group
  record with id 0, and nothing is written. A failed report query gives
  `None`, Go's nil.
- **Fresh ids.** Ids come from a per-table sequence, as with the
  auto-increment keys declared at main.go:122-123. As with gorp's key
  write-back, a successful insert of a transaction or group sets its `Id`.
- **Updates.** An update of an id that no row holds changes nothing.
- **Nil matcher entries.** An unknown matcher kind leaves a nil entry in the
  compiled set. The lookup reports it as `NilMatcher(i)` when the scan
  reaches it before any match: this is where Go calls a method on a nil
  interface and panics. The assignment then ends as `Panicked(i)`, with no
  write.
- **Labels without stripping.** `Match` always compares the pattern with the
  normalised description, but a matcher with `DontStripNumbers` takes the
  pattern off the raw description. When the raw text does not start with the
  pattern ("7-ELEVEN" for pattern "ELEVEN"), the label keeps the pattern. The
  model keeps this behaviour.
- **Clock.** The wall-clock reads become one `now` parameter per assignment.
- **Values instead of pointers.** Go mutates `*txn` in place and returns it.
  The model returns the updated transaction as a value.

## Model

| member | source | states |
|---|---|---|
| DataModel.Valid | datamodel.go:57-59 | every transaction is accepted |
| DataModel.Persisted | datamodel.go:51-53 | the stored row drops ActionCode and Version (both read back empty) and keeps every other field |
| DataModel.PersistedIgnoresRouting | datamodel.go:51-53 | two transactions that differ only in ActionCode/Version are stored as the same row |
| DataModel.PersistedIdempotent | datamodel.go:51-53 | storing an already stored row changes nothing |
| Matcher.Normalize | src/cashbook/matcher.go:34 | the result holds only ASCII letters and spaces, is no longer than the input, and contains a character exactly when the input does and it is a letter or space |
| Matcher.NormalizeIsSubsequence | src/cashbook/matcher.go:34 | normalisation only deletes characters, and the survivors keep their order |
| Matcher.NormalizeFixesNormal | src/cashbook/matcher.go:34 | a string of letters and spaces is left unchanged |
| Matcher.NormalizeIdempotent | src/cashbook/matcher.go:34 | normalising twice is normalising once |
| Matcher.NormalizeAppend | src/cashbook/matcher.go:34 | normalisation distributes over concatenation |
| Matcher.TrimPrefix | src/cashbook/matcher.go:79 | with the prefix present, prefix + result is the input; otherwise the input comes back unchanged |
| Matcher.TrimSpace | src/cashbook/matcher.go:79 | the result is a slice of the input, only white space (Go's unicode.IsSpace) is cut on either side, and neither end of the result is white space |
| Matcher.TrimBoth | src/cashbook/matcher.go:79 | the right trim of the left trim of a string is a slice of it with only white space cut on either side and no white space at either end |
| Matcher.TrimSpaceEmptyIffAllSpaces | src/cashbook/matcher.go:79-83 | trimming leaves nothing exactly when the string is all white space |
| Matcher.Label | src/cashbook/matcher.go:68-87 | a set override is the label whatever the input; the label is empty only when both override and pattern are; with stripping and no override it is the pattern or a non-empty run of letters and spaces with no space at either end |
| Matcher.LabelIsRemainderOfMatch | src/cashbook/matcher.go:74-83 | for a matching input (stripping, no override) the label is the pattern when only white space follows it; otherwise it is TrimSpace of the normalised text after the pattern, a non-empty slice of that text with white space cut off both sides and none left at either end |
| Matcher.LabelWithoutStripping | src/cashbook/matcher.go:68-87 | with stripping off and no override, the pattern comes off the raw description only when the raw text starts with it; the label is TrimSpace of what remains, or the pattern when that is empty |
| Matcher.TrimSpaceOfTrimmed | src/cashbook/matcher.go:79 | a string with no white space at either end is left as it is |
| Matcher.MatchSeesOnlyNormalized | src/cashbook/matcher.go:60-62 | whether a matcher fires depends only on the normalised input |
| Matcher.Match | src/cashbook/matcher.go:60-62 | a firing pattern is never longer than the input it fires on |
| Matcher.MatchExtends | src/cashbook/matcher.go:60-62 | a matching description still matches with text appended |
| Matcher.MatchingPatternIsNormal | src/cashbook/matcher.go:60-62 | only a pattern of letters and spaces can ever fire |
| Matcher.FirstMatchFrom | src/cashbook/matcher.go:95-100 | the result is the first entry from the start position that fires (with every earlier entry a non-firing matcher), the first nil entry reached, or none when every entry is a non-firing matcher |
| Matcher.FirstMatch | src/cashbook/matcher.go:91-103 | the lookup yields the lowest-index entry that fires, with every earlier entry a real matcher that does not; the first nil entry reached; or none when every entry is a non-firing matcher |
| Matcher.FindMatcher | src/cashbook/matcher.go:91-103 | the loop returns the lowest-index matcher whose Match holds, every earlier one failing Match; nothing when none fires; the nil entry it reaches first instead, if any |
| Matcher.NoNilNoPanic | src/cashbook/matcher.go:95-96 | a set with no nil entries never reaches the panic |
| Matcher.CompileMatchSet | src/cashbook/matcher.go:131-138 | the set is as long as the definitions; entry i is present exactly when definition i names StartsWithMatcher, and then copies its GroupType, Matching, GroupLabel and DontStripNumbers |
| MatcherExamples.AmazonExample | src/cashbook/matcher.go:68-87 | pattern "AMAZON" matches "AMAZON MKTPL 123" and labels it "MKTPL" |
| MatcherExamples.ElevenExample | src/cashbook/matcher.go:60-87 | pattern "ELEVEN" with stripping off fires on "7-ELEVEN" (its normalised form is "ELEVEN"), and the label is the whole "7-ELEVEN" |
| MatcherExamples.LabelKeepsUnprefixed | src/cashbook/matcher.go:68-87 | with stripping off and no override, a description that does not start with the pattern and has no edge white space is its own label |
| MatcherExamples.FirstDeclaredWins | src/cashbook/matcher.go:95-100 | of two matchers that both fire, the one declared first is found |
| AssignerSpec.IdsIdentifyRows | src/cashbook/txn_group_assigner.go:96 | in a table whose ids come from the sequence, two rows with the same id are the same row |
| AssignerSpec.FindGroup | src/cashbook/txn_group_assigner.go:87-92 | the select returns a row of the table with the key, and returns nothing exactly when no row has that key |
| AssignerSpec.FindGroupUnique | src/cashbook/txn_group_assigner.go:87-92 | under the uniqueness constraint the select returns the one row with that key |
| AssignerSpec.FindGroupAppend | src/cashbook/txn_group_assigner.go:96 | a row appended by an insert is found only by a key no earlier row holds |
| AssignerSpec.FindOrCreate | src/cashbook/txn_group_assigner.go:87-108 | the returned record has the seed's key, and the table either is unchanged or has exactly the seed, under the next id, appended |
| AssignerSpec.SystemSeed | src/cashbook/txn_group_assigner.go:114-118 | the pre-initialised system record has id 0, key ("", type, label), no classification, no system group, no category and the supplied instant |
| AssignerSpec.AccountSeed | src/cashbook/txn_group_assigner.go:78-85 | the pre-initialised account record has id 0, key (account group, system type, system label), the system group's id and classification, category 0 (not copied from the system group) and the supplied instant |
| AssignerSpec.FindOrCreatePreservesTable | src/cashbook/txn_group_assigner.go:94-100 | find-or-create keeps the natural key unique and the ids issued, and the sequence advances only when a row is added |
| AssignerSpec.FindOrCreateResult | src/cashbook/txn_group_assigner.go:87-108 | a non-zero id means the returned record is the table's row for the key; id 0 means it is the seed and nothing was written; with no faults the id is non-zero |
| AssignerSpec.FindOrCreateTwice | src/cashbook/txn_group_assigner.go:87-100 | two calls with one key add at most one row, and after a successful first call a second whose select works returns the same row and writes nothing |
| AssignerSpec.SystemFindOrCreate | src/cashbook/txn_group_assigner.go:112-141 | an existing ("", type, label) row is returned and nothing is written; otherwise (no faults) exactly one row is added, in the system scope, with that type and label, no classification and an id no other row has |
| AssignerSpec.AccountFindOrCreate | src/cashbook/txn_group_assigner.go:75-109 | an existing (account group, type, label) row is returned as stored; a new row points at the system row, copies its classification, has category 0 and a fresh id |
| AssignerSpec.FindOrCreateFailure | src/cashbook/txn_group_assigner.go:94-106 | a failed select, or a failed insert after "no rows", returns the seed and leaves the table and sequence as they were |
| AssignerSpec.ReplaceById | src/cashbook/txn_group_assigner.go:58-59 | the update replaces every row with the transaction's id and leaves the others and the length alone |
| AssignerSpec.Upsert | src/cashbook/txn_group_assigner.go:58-70 | a stored transaction comes back as it came with the table length and sequence unchanged; a new one differs only in id and in `created`, which is the supplied instant; a failed write changes no table; the sequence advances only by appending the stored form of the returned transaction |
| AssignerSpec.Persist | src/cashbook/txn_group_assigner.go:58-72 | the upsert step always completes and leaves the group table and its sequence alone |
| AssignerSpec.UpsertExisting | src/cashbook/txn_group_assigner.go:58-62 | a transaction with an id comes back unchanged (Created included), only its row is replaced (or none on a failed write), and the ids stay issued |
| AssignerSpec.UpsertNew | src/cashbook/txn_group_assigner.go:63-70 | a new transaction gets Created = now; on success it gets an id no row has and is appended, on failure it keeps id 0 and nothing is written |
| AssignerSpec.InvalidTxnUntouched | src/cashbook/txn_group_assigner.go:33-36 | a transaction failing Valid would come back unchanged with both tables untouched |
| AssignerSpec.Classify | src/cashbook/txn_group_assigner.go:40-56 | the system row has key ("", group type, label) and the account row (account group, group type, label); the transaction gets system id and classification from the system row and group id, group type and category from the account row, and nothing else about it changes |
| AssignerSpec.Assign | src/cashbook/txn_group_assigner.go:31-73 | the call panics exactly when the lookup reaches a nil entry first, and then writes nothing; otherwise the returned transaction differs from the input only in id, `created` and the five classification fields |
| AssignerSpec.AssignPreservesTables | src/cashbook/txn_group_assigner.go:31-73 | whatever the store does, an assignment keeps both tables well formed |
| AssignerSpec.PersistPreserves | src/cashbook/txn_group_assigner.go:58-70 | the upsert keeps the txns ids issued and does not touch the group table |
| AssignerSpec.ClassifyPreservesGroups | src/cashbook/txn_group_assigner.go:46-51 | the two find-or-creates keep the group table valid |
| AssignerSpec.UnmatchedPassesThrough | src/cashbook/txn_group_assigner.go:38-56 | without a match the group ids, classification, group type and category keep their incoming values and the group table is untouched |
| AssignerSpec.NilMatcherWritesNothing | src/cashbook/txn_group_assigner.go:38-40 | reaching a nil entry ends the assignment before any write |
| AssignerSpec.ClassifyStampsRows | src/cashbook/txn_group_assigner.go:42-55 | with a cooperating store the transaction carries the ids of the rows the table holds under its system key and account key, the classification of the system row and the type and category of the account row |
| AssignerSpec.SuccessfulLookup | src/cashbook/txn_group_assigner.go:87-100 | a find-or-create without faults leaves the returned row in the table under its key, with a positive id, only appending |
| AssignerSpec.LookupSurvives | src/cashbook/txn_group_assigner.go:87-100 | a later find-or-create does not change what an earlier key finds |
| AssignerSpec.SystemScopeSharesRow | src/cashbook/txn_group_assigner.go:46-55 | for account group "" both lookups reach the same row, so the two group ids coincide |
| AssignerSpec.AccountScopeIsolated | src/cashbook/txn_group_assigner.go:46-55 | for a real account group the system and account rows are different rows with different ids |
| AssignerSpec.ReimportReusesGroups | src/cashbook/txn_group_assigner.go:46-55 | a second transaction with the same description and account group adds no group row and gets the same group ids |
| AssignerSpec.SystemFailureDegrades | src/cashbook/txn_group_assigner.go:46-49 | a failed system lookup leaves system group id 0 and an empty classification |
| AssignerSpec.MatchedAssignment | src/cashbook/txn_group_assigner.go:31-73 | a matched assignment with a cooperating store completes, and the returned transaction references the stored rows for its two keys, taking each field from the right row; its two group ids are equal exactly when its account group is "" |
| TxnGroupAssigner.Db.constructor | main.go:122-123 | the store starts with empty tables and both sequences at 1 |
| TxnGroupAssigner.Db.FindOrCreateGroup | src/cashbook/txn_group_assigner.go:87-108 | the shared select / insert-on-no-rows / fall-back-to-seed protocol: result and new group table are those of FindOrCreate, txns untouched, constraint kept |
| TxnGroupAssigner.Db.FindOrCreateSystemTxnGroup | src/cashbook/txn_group_assigner.go:112-141 | result and new group table are FindOrCreate's for the system seed (type, label, empty account group, created now), txns untouched, constraint kept |
| TxnGroupAssigner.Db.FindOrCreateTxnGroup | src/cashbook/txn_group_assigner.go:75-109 | result and new group table are FindOrCreate's for the account seed derived from the system group, txns untouched, constraint kept |
| TxnGroupAssigner.Db.UpsertTxn | src/cashbook/txn_group_assigner.go:58-70 | the returned transaction and the new txns table are Upsert's on the old table; the group table is untouched; the ids stay issued |
| TxnGroupAssigner.Db.AssignTxnToTxnGroup | src/cashbook/txn_group_assigner.go:31-73 | the outcome and the new tables are exactly Assign's on the old tables, so every AssignerSpec lemma holds of the method; both tables stay well formed |
| Report.Remaining | report.go:50-52 | the remainder plus the withdrawals gives back the deposits; it is zero exactly when the two are equal |
| Report.SelectKeepsMultiplicity | report.go:59 | a query sees each row its WHERE clause (inclusive BETWEEN on the period) selects as often as the table holds it, and no other row |
| Report.Select | report.go:59 | the selected rows are no more than the table holds, and each meets the WHERE clause |
| Report.Sum | report.go:59 | coalesce(sum(amount), 0) lies between the row count times the int64 minimum and the row count times the int64 maximum |
| Report.Aggregate | report.go:59 | count(*) and the exact coalesce(sum(amount), 0) of the selected rows, with a count between 0 and the table size |
| Report.Query | report.go:59-71 | nil exactly when the store fails the query or the exact sum does not fit the 64-bit `int` it is scanned into; otherwise a count between 0 and the table size and a sum within `int` |
| Report.SumBeyondIntIsNil | report.go:59-69 | two selected rows of amount INT64_MAX sum to 2 * INT64_MAX, and the query gives nil although the store did not fail it |
| Report.TxnTypeSummary | report.go:55-72 | nil exactly when the query fails or its sum is beyond `int`; otherwise a count no larger than the table |
| Report.TxnGroupTypeSummary | report.go:75-91 | nil exactly when the query fails or its sum is beyond `int`; otherwise a count no larger than the table |
| Report.TxnGroupSummary | report.go:94-127 | nil exactly when either query fails or has a sum beyond `int`; otherwise a count between minus and plus the table size |
| Report.SelectPartition | report.go:99-116 | the expense rows and the deposit rows of a group together are no more than the table |
| Report.SumAppend | report.go:59 | the sum over two tables together is the sum of their sums |
| Report.SelectAppend | report.go:59 | selecting from two tables together is selecting from each |
| Report.AggregateIsAdditive | report.go:59 | no rows aggregate to (0, 0) (the coalesce); one row counts with its amount exactly when its clause holds; aggregates add over concatenated tables |
| Report.CountIsMatchingRows | report.go:59 | count(*) is the number of table positions whose row the clause selects |
| Report.SelectedCount | report.go:59 | the number of selected rows is the number of table positions whose row the clause selects |
| Report.PositionsSnoc | report.go:59 | appending a row adds its position to the selected positions exactly when the clause selects it |
| Report.SignedTotalIsDifference | report.go:94-124 | the signed total over the group's rows in the period (+1 and +amount for rows of the type, -1 and -amount otherwise) is the expense aggregate less the deposit aggregate |
| Report.TxnGroupSummaryIsSignedTotal | report.go:94-127 | when both sums fit `int` the summary is that signed total; otherwise it is nil |
| Report.TxnGroupSummaryWithoutRefunds | report.go:94-127 | a group with no row of another type in the period summarises as the plain expense query |
| Report.TxnGroups | report.go:131-147 | nil exactly when the query fails; otherwise a group is listed exactly when it is in the table with that group type and the API's account group |
| Report.ListGroups | report.go:136 | a group is listed exactly when it is in the table with that type and account group |
| Report.TxnGroupsDistinctLabels | report.go:136 | over a table keeping the uniqueness constraint no label is listed twice |
| Report.Dollars | report.go:167 | Go's amount / 100: the remainder it leaves is in [0, 100) for non-negative amounts and in (-100, 0] for negative ones |
| Report.Cents | report.go:168 | Go's amount % 100: dollars * 100 + cents is the amount, and the cents carry the amount's sign, below 100 in size |
| Report.TruncationUnique | report.go:167-168 | truncated division is the only split of an amount with such a remainder |
| Report.Currency | report.go:166-171 | the string starts with "$" and has at least five characters |
| Report.CurrencyOfNonNegative | report.go:166-171 | a non-negative amount prints as "$", the dollars, ".", and exactly two digits of cents, zero-padded |
| Report.CurrencyOfNegative | report.go:166-171 | a negative amount that is not a whole number of dollars prints "-" in front of the cents, and also in front of the dollars from -100 down |
| Report.CurrencyExample | report.go:166-171 | -4599 prints as "$-45.-99" |
| Report.CurrencyRoundTrip | report.go:166-171 | reading the printed string back ("$" dollars "." cents, each a signed integer) gives the amount |
| Report.CurrencyInjective | report.go:166-171 | two different amounts never print the same |
| Report.CurrencyCorrected | report.go:166-171 | the corrected format: the string starts with "$" and has at least five characters |
| Report.CorrectedAgreesOnNonNegative | report.go:166-171 | for non-negative amounts the corrected format is the source's |
| Report.CorrectedNegative | report.go:166-171 | a negative amount prints in the corrected format as "$-" followed by its magnitude's dollars, "." and two digits of cents |
| Report.MagnitudeInjective | report.go:166-171 | the dollars-and-cents digits of a non-negative amount determine it |
| Report.SignShows | report.go:166-171 | in the corrected format the second character is "-" exactly for a negative amount |
| Report.CorrectedInjective | report.go:166-171 | two different amounts never print the same in the corrected format |
| Report.CorrectedExample | report.go:166-171 | -4599 prints as "$-45.99" in the corrected format |

## Left out

- Reading the matcher definitions from a JSON file (src/cashbook/matcher.go:116-129). This is file I/O and a library decoder. Only the compile loop is modelled.
- GetGroupType (src/cashbook/matcher.go:64-66) is the field `groupType` of the matcher datatype and has no member of its own.
- Concurrency. Two importers racing on the uniqueness constraint, and the commented-out retry (src/cashbook/txn_group_assigner.go:102, 134, 145-160), are not modelled. An insert that loses such a race appears only as a failed insert.
- Atomicity. The three writes of one assignment are separate statements in Go, and no transaction spans them. The model runs them in sequence and does not model an interruption between them.
- Clock. The three separate calls to `time.Now().UnixNano()` in one assignment are one `now` parameter. The group rows' `Created` and the transaction's `Created` therefore carry the same instant.
- Times. Timestamps (`OccurredAt`, the report period) are integers. Date formatting (`StartDate`, `EndDate`) and the `Api`/`SampleMethod` helpers of report.go are outside the model.
- Logging. The database layer (gorp, Postgres, `database/sql` error values) is replaced by the table model, with a failure flag per statement. Logging is dropped.
- SQL row order. `TxnGroups` issues its query without ORDER BY. The model lists rows in table order, which is one of the orders the query may return.
- Period end. The comment on `PeriodEnd` (report.go:36) says "before this time", but every query uses BETWEEN, which includes the end instant. The model follows the queries.
- Empty account group. The comment on `AccountGroupId` (report.go:39) says an empty value queries FI wide, but the queries filter on `account_group_id = ''`, which selects only the system scope. The model follows the queries.
- Nil slices. Go's distinction between a nil slice and an empty slice in `TxnGroups` is not kept: an empty result is `Some([])`.
- Report.Remaining: does not model 64-bit wrap-around of Go's `int`, because the model's integers are unbounded.
- Report.TxnGroupSummary: does not model 64-bit wrap-around of the subtractions at report.go:123-124, because the model's integers are unbounded. The two sums themselves never wrap: the store sums exactly and a sum beyond `int` makes the scan fail, which Report.Query models as nil.
- AssignerSpec.FindOrCreate: ids are unbounded integers, so the id sequence never wraps around or exhausts the `int64` range.
- AssignerSpec.Upsert: ids of `Txn` (Go `int64`) are unbounded integers as well, so the transaction sequence never wraps around either.
- Id gaps. In the model a failed insert does not use up a value of its id sequence, so issued ids have no gaps. A Postgres serial key may consume a value on a failed insert; no proved property depends on ids being gap-free, only on them increasing.
- Report.Currency: takes an unbounded integer where Go takes a 64-bit `int`. Every proved property also holds on the 64-bit range.

## Findings

| source | as written | input that shows it | evidently intended | confidence | as-written member | corrected member |
|---|---|---|---|---|---|---|
| report.go:166-171 | dollars and cents both come from truncating division and are printed with `%d` and `%02d`, so a negative amount carries a minus sign on both parts, and an amount between -99 and -1 shows its sign only on the cents | -4599 prints as "$-45.-99"; -5 prints as "$0.-5" | one sign, placed before the dollars, and cents always two digits: "$-45.99", "$-0.05" | medium, not executed | Report.CurrencyExample | Report.CorrectedNegative |

No other member of the model formats amounts. Report.Currency keeps the
source's behaviour, and the corrected format is Report.CurrencyCorrected:

- it agrees with the source on non-negative amounts;
- it prints a negative amount as its magnitude after "$-";
- it never prints two amounts the same.
