# gorm-adapter rule store, modelled in Dafny

This project models the core of `adapter.go`, a Casbin policy-storage adapter
built on the gorm client library. The adapter keeps policy rules in one SQL
table of nine string columns (`ptype`, `v0` .. `v7`) under a unique index over
all nine, and moves rules between that table and the policy engine:

- **Rules** (`rules.dfy`): the `CasbinRule` record and its conversions.
  - `savePolicyLine` builds a rule tuple into the nine-slot record.
  - `loadPolicyLine` reads a record back as a tuple without its trailing `""` slots.
  - `toStringPolicy` keeps every non-`""` slot.
- **Queries** (`queries.dfy`): the predicate builders.
  - `rawDelete`, `appendWhere` and `queryString` build the equality predicate `ptype = ? and vi = ? ...` over the non-empty slots, with its positional arguments.
  - The offset window of `RemoveFilteredPolicy` and `UpdateFilteredPolicies` places `fieldValues` on `V0..V7` from `fieldIndex` on.
  - `checkQueryField` rejects a value list with no non-empty value.
  - `filterQuery` builds one `col in (?)` clause per non-empty filter list.
- **Naming** (`naming.dfy`): the default table name, and the unique-index name `idx_<table>` with `.` replaced by `_`.
- **Table** (`table.dfy`): the database table as the adapter sees it.
  - Rows are kept in ID order, each with its auto-increment ID.
  - The table invariant is that IDs strictly increase and the unique index holds.
  - Select and delete by a condition.
  - The INSERT of a batch (`db.Create`), which the unique index can refuse.
  - Loading: `loadPolicyLine` applied to each row in order.
- **StoreSpec** (`store_spec.dfy`): specification functions for the multi-statement operations, with the lemmas that say what they do:
  - the delete loop of `RemoveRules`;
  - the chunked flush of `SavePolicy`;
  - the update loop of `UpdatePolicies`;
  - the select/delete/insert loop of `UpdateFilteredPolicies`.
- **GormAdapter** (`adapter.dfy`): the `Adapter` object.
  - It holds the rows, the next ID and the `isFiltered` flag.
  - Each operation is a method whose postcondition ties the new table, the error and the flag to the specification functions.
  - Transactions keep a snapshot of the rows and restore it on rollback.

Every database statement can fail. A single-statement operation takes a
`fault` flag. A multi-statement operation takes `faults`, the set of its
statement numbers that fail, numbered in the order the operation issues them;
each method's comment gives its numbering. A failed statement reports
`DbFault`. An insert or update that would break the unique index reports
`Duplicate` and changes nothing.

## Model

| member | source | states |
|---|---|---|
| Rules.Fields | adapter.go:34-45 | The record's nine columns in table order, with `ptype` first. |
| Rules.FieldsInjective | adapter.go:34-45 | Two records with the same nine columns are the same record. |
| Rules.SavePolicyLine | adapter.go:255-285 | The record's columns are `ptype` followed by the rule's first eight values, with missing values as `""`. Values past the eighth are dropped. |
| Rules.TrimTrailing | adapter.go:171-176 | The result is a prefix of the tuple. It is empty or ends in a non-`""` entry, and every dropped entry is `""`. |
| Rules.TrimTrailingUnique | adapter.go:171-176 | Those three properties determine the trimmed tuple. |
| Rules.LoadPolicyLine | adapter.go:165-179 | On the all-`""` record the down-counting loop runs off the front and fails with IndexOutOfRange. On any other record it returns the columns without the trailing `""` ones. |
| Rules.SaveThenLoad | adapter.go:165-179 | Round trip: a rule of at most eight values whose last element is not `""` reads back as `[ptype] + rule`. |
| Rules.LoadThenSave | adapter.go:255-285 | Round trip: every record except the all-`""` one is rebuilt exactly by `savePolicyLine` from the tuple read from it. |
| Rules.NonEmpty | adapter.go:621-651 | It returns the non-`""` entries of the tuple: nothing else, and all of them. |
| Rules.KeepNonEmptyFromSpec | adapter.go:621-651 | The chain of conditional appends is the old policy followed by the non-`""` columns. |
| Rules.KeepNonEmptyFrom | adapter.go:621-651 | The chain of `if vi != "" { policy = append(policy, vi) }` steps from column i on, as a recursion over the columns. |
| Rules.ToStringPolicy | adapter.go:621-651 | It returns the non-`""` columns in order, and the result contains no `""`. |
| Rules.NonEmptyVsTrim | adapter.go:621-651 | Dropping every `""` and dropping only the trailing ones agree exactly when the trimmed tuple has no `""` left. |
| Rules.ToStringPolicyVsLoad | adapter.go:621-651 | `toStringPolicy` returns the columns with the trailing `""` ones removed (what `loadPolicyLine` returns) if and only if the record has no `""` slot before its last non-empty column. On the all-`""` record both are empty, but `loadPolicyLine` panics there instead of returning. |
| Queries.NonEmptyColumnsSpec | adapter.go:453-490 | The constrained columns are exactly the non-`""` slots, in increasing column order. |
| Queries.AppendFromSpec | adapter.go:457-488 | The chain of conditional appends adds ` and vi = ?` and the value for exactly the constrained columns, in order. |
| Queries.AppendFrom | adapter.go:457-488 | The chain of `if line.Vi != ""` steps from column i on: each non-empty column appends ` and vi = ?` to the query and its value to the arguments. |
| Queries.AppendWhere | adapter.go:453-490 | The query is `ptype = ?` followed by ` and vi = ?` for each non-empty slot, in column order. The arguments are the type followed by those values in the same order. |
| Queries.AppendWhereShape | adapter.go:453-490 | Starting the appends from `ptype = ?` and `[ptype]` gives the rendering and the projection of the constrained columns. |
| Queries.PlaceholdersMatchArguments | adapter.go:581-619 | The predicate has exactly one `?` per positional argument. |
| Queries.AndClausesPlaceholders | adapter.go:584-616 | The appended clauses contain one `?` per column. |
| Queries.OnlyPtypeGivesOneClause | adapter.go:412-451 | A record with only its type set gives exactly `("ptype = ?", [ptype])`. |
| Queries.AppendWhereComplete | adapter.go:412-451 | Every row the wildcard record matches satisfies the predicate. |
| Queries.AppendWhereSound | adapter.go:412-451 | Every row satisfying the predicate is matched by the record, with its `""` slots read as wildcards. |
| Queries.AppendWhereMeansMatches | adapter.go:412-451 | A row satisfies the predicate if and only if the record matches it with `""` as wildcard. |
| Queries.PtypeOnlyMatches | adapter.go:365-367 | The record holding only a type matches exactly the rows of that type. |
| Queries.OffsetLine | adapter.go:374-397 | Slot Vi holds `fieldValues[i - fieldIndex]` exactly when `fieldIndex <= i < fieldIndex + len(fieldValues)`, and `""` otherwise. Every index used is in bounds. |
| Queries.OffsetLineIsShiftedRule | adapter.go:523-546 | The window is `savePolicyLine` of the values shifted into place. For `fieldIndex >= 0` they are padded with blanks in front. For a negative `fieldIndex` the first `-fieldIndex` values are dropped. |
| Queries.OffsetLineMatches | adapter.go:374-398 | A delete by the window removes exactly the rows of the type that equal every non-`""` value falling inside V0..V7. |
| Queries.OffsetLineBlank | adapter.go:374-397 | The window's V0..V7 hold a non-`""` value if and only if some non-`""` value lands inside V0..V7. Values placed before V0 or past V7 leave no trace. |
| Queries.OffsetLineNotBlank | adapter.go:374-397 | A non-`""` value that lands in V0..V7 makes the window differ from the type-only record and keeps it from matching the type's all-`""` record. |
| Queries.CheckQueryField | adapter.go:403-410 | No error if and only if some value is not `""`, so the empty list is rejected too. The error is EmptyFieldValues. |
| Queries.InClausesFromSpec | adapter.go:222-253 | There is one clause per non-empty filter list, bound to that list, in increasing column order. |
| Queries.FilterQuery | adapter.go:222-253 | Each clause belongs to a non-empty list and is bound to exactly that list. Every non-empty list has its clause, and the clauses come in column order. |
| Queries.FilterQuerySelects | adapter.go:222-253 | A row satisfies the `in` clauses if and only if, in every column with a non-empty list, its value is in that list. |
| Queries.EmptyFilterSelectsAll | adapter.go:222-253 | An all-empty filter builds no clause and accepts every row. |
| Naming.TableNameOrDefault | adapter.go:84-87 | An empty table name becomes `fastac_rules`; any other name is kept. |
| Naming.ReplaceDots | adapter.go:146 | Every `.` becomes `_`, and nothing else changes. |
| Naming.IndexName | adapter.go:145-146 | The name is `idx_` followed by the table name, with no `.` in it. Each character of the table name is kept except `.`, which becomes `_`. |
| Naming.IndexNameIgnoresDots | adapter.go:146 | Table names that differ only by `.` versus `_` get the same index name. |
| Table.InvariantDistinct | adapter.go:149 | A table that keeps its invariant has no duplicate record. |
| Table.KeepRowsRecords | adapter.go:449 | Filtering the rows filters their records in the same way. |
| Table.KeepRowsInvariant | adapter.go:449 | A delete keeps IDs increasing and the unique index intact. |
| Table.KeepDistinct | adapter.go:449 | Filtering never creates a duplicate. |
| Table.KeepTwice | adapter.go:351 | Filtering by one condition and then another is filtering by their conjunction. |
| Table.KeepPartition | adapter.go:556-570 | The rows a select returns and the rows the matching delete leaves make up the table as a multiset. |
| Table.StampKeepsInvariant | adapter.go:35 | Appending a batch under fresh auto-increment IDs keeps the invariant. The records become the old ones followed by the batch. |
| Table.Insert | adapter.go:149 | An insert succeeds if and only if there is no fault and the table plus the batch stays distinct. Then the whole batch is appended. Otherwise nothing is stored, and a non-fault error is Duplicate. |
| Table.InsertTwiceFails | adapter.go:323-327 | Adding a rule already stored fails with Duplicate and leaves one copy. |
| Table.LoadLines | adapter.go:188-190 | The loop hands the model `loadPolicyLine` of each row in order and stops at the first all-`""` row. |
| Table.LoadedPolicyComplete | adapter.go:182-193 | With no all-`""` row, loading succeeds with one tuple per row, in ID order, each with its trailing `""` slots removed. |
| Table.LoadedPolicy | adapter.go:188-190 | The tuples handed to the model for rows in order: `loadPolicyLine` of each, stopping with IndexOutOfRange at the first all-`""` row. |
| Table.LoadedPolicyAppend | adapter.go:188-190 | Loading `a + b` loads `a` and then `b`. |
| Table.LoadedPolicyOfEach | adapter.go:188-190 | Loading records that each read back as a given rule gives exactly those rules, with no error. |
| Table.LoadAfterAdd | adapter.go:323-327 | After a rule is added, loading returns the earlier rules followed by the new rule. |
| StoreSpec.RemoveEach | adapter.go:349-354 | The records left after deleting by each rule's record in turn. |
| StoreSpec.RemoveEachKeepsUnmatched | adapter.go:349-354 | Deleting by each rule in turn leaves exactly the records that no rule matches, in order. |
| StoreSpec.RemoveEachFaulty | adapter.go:349-354 | The delete loop from statement k on: each rule's delete in turn, stopping at the first failing statement with DbFault. |
| StoreSpec.RemoveEachFaultySpec | adapter.go:349-354 | The delete loop succeeds if and only if none of its statements faults. Then it has deleted by every rule. |
| StoreSpec.RemoveMany | adapter.go:347-357 | RemoveRules in one transaction: the delete loop, rolled back to the old records on its first failure or on a failed commit (statement `len(rules)`). |
| StoreSpec.RemoveManyAllOrNothing | adapter.go:347-357 | RemoveRules either removes every record some rule matches or changes nothing and reports the fault. It succeeds exactly when no statement faults. |
| StoreSpec.FilteredRemovalAsWritten | adapter.go:360-400 | As written: with `fieldIndex == -1` the check is skipped and the delete is by type alone. Otherwise it fails if and only if every value is `""`, and the error comes before any delete. |
| StoreSpec.FilteredRemoval | adapter.go:360-400 | Corrected (see Findings): with `fieldIndex == -1` the delete is by type alone. Otherwise it fails with EmptyFieldValues if and only if no non-`""` value lands in V0..V7, before any delete. |
| StoreSpec.FilteredRemovalNeverWholeType | adapter.go:369-398 | Corrected (see Findings): with a window, an accepted filter is never the type-only record, and the type's all-`""` record is not matched, so not every rule of the type is deleted. |
| StoreSpec.FilteredRemovalAsWrittenDeletesType | adapter.go:369-398 | Where the corrected check accepts, the code deletes by the same record. Where only the code's check accepts, the code deletes by the type-only record. |
| StoreSpec.OutOfWindowDeletesWholeType | adapter.go:369-398 | As written, `fieldIndex` 8 with `["x"]`, or -2 with `["x", "", ""]`, passes the check and deletes every rule of type `p`. The corrected check refuses both. |
| StoreSpec.FilteredRemovalDeletes | adapter.go:360-400 | The delete removes every record of the type, or, with a window, exactly those that equal each non-`""` windowed value. |
| StoreSpec.Flush | adapter.go:298-319 | Corrected (see Findings): chunks of 1001 records are inserted as buffered, a failed chunk ends the save with its error, and the remainder is inserted last. |
| StoreSpec.FlushChunk | adapter.go:301-309 | A full buffer of 1001 records is inserted as one statement. A failure ends the flush with its error. |
| StoreSpec.FlushStoresPrefix | adapter.go:298-319 | A save stores a prefix of the rules, and all of them when it reports no error. |
| StoreSpec.FlushSucceeds | adapter.go:298-319 | With distinct rules and no failing insert, every rule is stored. |
| StoreSpec.FlushAsWritten | adapter.go:298-319 | As written: a failed chunk stops the range, its error is lost in the shadowing `createErr`, and the final `Create` re-submits that chunk and reports only its own outcome. |
| StoreSpec.FlushAsWrittenChunk | adapter.go:302-311 | As written, a failed chunk stops the range, and the final insert re-submits the same chunk. |
| StoreSpec.FlushAsWrittenHidesFailure | adapter.go:302-315 | As written, more than 1001 rules with only the first insert failing report success with only 1001 rules stored. The fixed flush reports the fault. |
| StoreSpec.Save | adapter.go:288-320 | Corrected (see Findings): a failed drop changes nothing, a failed create leaves the table empty, and otherwise the corrected flush fills the empty table. |
| StoreSpec.SaveAsWritten | adapter.go:288-320 | As written: the same drop and create, followed by the flush with the shadowed error. |
| StoreSpec.SaveReplacesTable | adapter.go:288-320 | A save replaces the table by a prefix of the rules: all of them on success, and all of them when they are distinct and nothing faults. A failed drop changes nothing. |
| StoreSpec.SavedPolicyLoadsBack | adapter.go:288-320 | Saving rules of one to nine elements, none ending in `""`, and loading them back gives the same rules in the same order. |
| StoreSpec.SavedRuleLoadsBack | adapter.go:302 | One saved rule reads back as itself. |
| StoreSpec.UpdateOne | adapter.go:496 | One UPDATE: a fault, or a result with two equal records, changes nothing and reports DbFault or Duplicate. Otherwise every row becomes the client's rewrite of it. |
| StoreSpec.UpdateOneKeepsUnmatched | adapter.go:493-497 | The UPDATE keeps the number and order of rows. When the client's UPDATE is confined to the rows its `Where(&oldLine)` matches, every record the old rule does not match stays where and as it was. |
| StoreSpec.UpdateEach | adapter.go:509-514 | The update loop from pair i on: pair i's UPDATE is statement i, and the first failure stops the loop. |
| StoreSpec.UpdateEachKeepsUnmatched | adapter.go:509-514 | For confined UPDATEs, the loop keeps the number and order of rows and leaves in place every record that none of the remaining old rules matches. |
| StoreSpec.UpdateEachKeepsDistinct | adapter.go:509-514 | The update loop never breaks the unique index. |
| StoreSpec.UpdateManyAllOrNothing | adapter.go:499-516 | On an error the records are as before, and the result has no duplicate. |
| StoreSpec.UpdateMany | adapter.go:499-516 | UpdatePolicies in one transaction: the update loop, rolled back on its first failure or on a failed commit (statement `len(oldRules)`). |
| StoreSpec.UpdateManyKeepsUnmatched | adapter.go:499-516 | For confined UPDATEs, committed or rolled back, every record that no old rule matches stays where and as it was. |
| StoreSpec.InsertFrom | adapter.go:566-569 | One INSERT per new record from record i on, record j as statement k + j. The first failure stops. |
| StoreSpec.InsertFromStoresAll | adapter.go:566-569 | One-by-one inserts that report no error have stored every record, in order. |
| StoreSpec.InsertFromSucceeds | adapter.go:566-569 | One-by-one inserts succeed when the records are distinct and no insert faults. |
| StoreSpec.UpdateFiltered | adapter.go:518-579 | Corrected (see Findings): select and delete by the window once, then insert each new record, all in one transaction. With no new records there is no iteration, so it only commits, as in the code. |
| StoreSpec.UpdateFilteredReplaces | adapter.go:518-579 | Corrected (see Findings): with new records, a filtered replace swaps exactly the matching records for the new ones and reports the swapped-out records. With none it changes and reports nothing. Kept and reported records make up the old table. An error changes nothing. It succeeds when nothing faults and the new records are distinct. |
| StoreSpec.ReplaceLoopAsWritten | adapter.go:556-570 | As written, from iteration i on: select (statement 3i), delete (3i + 1) and insert new record i (3i + 2), stopping at the first failure. `findAppends` says whether Find adds to `oldP` or replaces it. |
| StoreSpec.UpdateFilteredAsWritten | adapter.go:554-578 | As written: the loop in one transaction, rolled back on its first failure. The commit is statement `3 * len(newP)`, and a failed commit still reports `oldP`. |
| StoreSpec.UpdateFilteredNothingNew | adapter.go:556-578 | With no new rules the corrected replace and the code as written agree: nothing is selected, deleted or reported, and only the commit can fail. |
| StoreSpec.AliceFilterMatches | adapter.go:523-525 | The window V0 = "alice" selects, and deletes, each rule of alice. |
| StoreSpec.UpdateFilteredAsWrittenDropsNewRules | adapter.go:556-570 | As written, replacing alice's one rule by two new alice rules keeps only the last new rule. |
| StoreSpec.UpdateFilteredKeepsNewRules | adapter.go:518-579 | With the select and delete issued once, the same call keeps both new rules and reports the old one. |
| GormAdapter.BuildLines | adapter.go:500-507 | The loop builds `savePolicyLine` of each rule, in order. |
| GormAdapter.Adapter.constructor | adapter.go:84-100 | The adapter starts unfiltered, with the default table name when none is given, the index name of that table, and the existing records. |
| GormAdapter.Adapter.NewAdapterWithTable | adapter.go:84-100 | It succeeds if and only if creating the table and index does not fault and the existing records are distinct. On failure it returns no adapter. |
| GormAdapter.Adapter.IsFiltered | adapter.go:217-219 | Reads the `isFiltered` flag, which only a completed `LoadFilteredPolicy` sets. |
| GormAdapter.Adapter.Create | adapter.go:325 | One INSERT: the records become `Insert` of the old ones, and the invariant is kept. |
| GormAdapter.Adapter.RawDelete | adapter.go:412-451 | One DELETE removes exactly the matching rows, or nothing on a fault. |
| GormAdapter.Adapter.Find | adapter.go:184 | One SELECT returns the records satisfying the condition, in ID order. |
| GormAdapter.Adapter.UpdateRows | adapter.go:496 | One UPDATE: the records become `UpdateOne` of the old ones, and the invariant is kept. |
| GormAdapter.Adapter.LoadPolicy | adapter.go:182-193 | A failed select loads nothing. Otherwise the model receives `loadPolicyLine` of every row in ID order: one trimmed tuple per row when no row is all `""`. |
| GormAdapter.Adapter.LoadFilteredPolicy | adapter.go:196-214 | A non-Filter argument or a failed select returns an error with the flag unchanged. Otherwise it loads the rows the filter selects, and sets the flag only once every row is loaded. |
| GormAdapter.Adapter.SavePolicy | adapter.go:288-320 | Corrected (see Findings): the table ends as `Save` of the rules, with the invariant kept. An intermediate flush error is returned. |
| GormAdapter.Adapter.FlushRules | adapter.go:298-319 | Corrected (see Findings): the range over the rules leaves the table as `Flush` of its old records, with the invariant kept. |
| GormAdapter.Adapter.SavePolicyAsWritten | adapter.go:288-320 | The table ends as `SaveAsWritten` of the rules: the intermediate flush error is lost. |
| GormAdapter.Adapter.FlushRulesAsWritten | adapter.go:298-319 | As written: the range over the rules leaves the table as `FlushAsWritten` of its old records. |
| GormAdapter.Adapter.BufferRuleAsWritten | adapter.go:299-311 | One rule of that range: it joins the buffer. A full buffer is inserted. On failure the range stops with the re-submitted chunk's outcome; otherwise the rest of the save is unchanged with the buffer emptied. |
| GormAdapter.Adapter.AddRule | adapter.go:323-327 | The record of the rule is inserted, or nothing on a fault or a duplicate. |
| GormAdapter.Adapter.AddRules | adapter.go:337-344 | The records of all rules are inserted in one statement: all of them or none. |
| GormAdapter.Adapter.RemoveRule | adapter.go:330-334 | The records the rule's record matches are deleted. |
| GormAdapter.Adapter.RemoveEachLoop | adapter.go:349-354 | The loop deletes rule by rule until the first failure. |
| GormAdapter.Adapter.RemoveRules | adapter.go:347-357 | The table ends as `RemoveMany`: every match removed, or nothing changed. |
| GormAdapter.Adapter.RemoveFilteredPolicy | adapter.go:360-400 | Corrected (see Findings): the table ends as `FilteredRemoval` says. A filter with no non-`""` value in V0..V7 fails before any delete. Otherwise it deletes by type alone (with -1) or by the window. |
| GormAdapter.Adapter.RemoveFilteredPolicyAsWritten | adapter.go:360-400 | As written: the table ends as `FilteredRemovalAsWritten` says. Only an all-`""` value list is refused, so a filter whose values all fall outside V0..V7 deletes the whole type. |
| GormAdapter.Adapter.UpdatePolicy | adapter.go:493-497 | The table ends as `UpdateOne` with the records `savePolicyLine` builds for the old and new rule. The new rows are the client's `rewrite` of the old ones, unless it faults or breaks the unique index. |
| GormAdapter.Adapter.UpdateEachLoop | adapter.go:509-514 | The loop updates pair by pair until the first failure. |
| GormAdapter.Adapter.UpdatePolicies | adapter.go:499-516 | The table ends as `UpdateMany`: all pairs applied, or nothing changed. |
| GormAdapter.Adapter.InsertEachLoop | adapter.go:566-569 | The loop inserts the records one at a time until the first failure. |
| GormAdapter.Adapter.UpdateFilteredPolicies | adapter.go:518-579 | Corrected (see Findings): the table ends as `UpdateFiltered`, and the removed rules are returned through `toStringPolicy`. |
| GormAdapter.Adapter.ReplaceStep | adapter.go:557-569 | One iteration as written: select, delete, then insert new record i. |
| GormAdapter.Adapter.ReplaceLoop | adapter.go:556-570 | The loop as written, until the first failure. |
| GormAdapter.Adapter.UpdateFilteredPoliciesAsWritten | adapter.go:518-579 | The table ends as `UpdateFilteredAsWritten`, and the rules reported removed are returned through `toStringPolicy`. |

## Left out

- gorm session, logger and connection plumbing are not modelled: `AddLogger`, `Close` and `finalizer`, `casbinRuleTable`, and the `Scopes` and `Session` calls. They are library I/O with nothing to state.
- Schema work is not modelled: `AutoMigrate`, `DropTable`, `HasIndex`, executing `CREATE UNIQUE INDEX`, and the `customTableKey` context override.
  - Only the index name and the uniqueness constraint remain, as the table invariant.
  - `NewAdapterWithTable` reports a fault for the whole of `createTable`.
  - It reports Duplicate when the existing rows already break the index.
- The `sec` argument of `RemoveFilteredPolicy`, `UpdatePolicy`, `UpdatePolicies` and `UpdateFilteredPolicies` is not modelled, because the code never reads it.
- The `Adapter` `db` handle is not modelled. The table is the object's own `rows` field.
- Column size limits (`size:100`, `size:25`) are not modelled. They are enforced, if at all, by the database.
- The policy engine's `AddRule` callback is not modelled. `LoadPolicy` returns the tuples it would hand over, and the callback's boolean result is ignored, as in the code.
- GormAdapter.Adapter.UpdatePolicy: which rows `Model(&old).Where(&old).Updates(new)` touches, and which columns it overwrites, is decided inside gorm. It is the `rewrite` function parameter, and the method's contract assumes no property of it.
  - StoreSpec.UpdateOneKeepsUnmatched, StoreSpec.UpdateEachKeepsUnmatched and StoreSpec.UpdateManyKeepsUnmatched assume only that it leaves every row its condition record does not match unchanged (`TouchesOnlyMatches`).
  - That assumption compares the type column even when it is `""`, where gorm's struct condition would skip it.
  - Which columns of a matched row change is not stated.
- GormAdapter.Adapter.UpdatePolicies: same as UpdatePolicy. It also requires at least as many new rules as old ones, because `newPolicies[i]` panics otherwise.
- GormAdapter.Adapter.UpdateFilteredPolicies: the select at adapter.go:558 has no `Order("ID")`, so the database may return the removed rows in any order. The model fixes that order to ID order, so the returned removed rules are stated as a sequence in ID order where the code promises only which rules they are (`UpdateFilteredReplaces` states them as a multiset too).
- GormAdapter.Adapter.UpdateFilteredPoliciesAsWritten: whether gorm's `Find(&oldP)` appends to `oldP` or replaces it is the `findAppends` parameter. The model does not decide it. The rows it reads are taken in ID order, as for UpdateFilteredPolicies.
- Table.Insert: gorm's behaviour on `Create` of an empty slice is not modelled; an empty batch is a successful no-op. This is reached when `SavePolicy` has no rules, or a multiple of 1001 of them, and when `AddRules` is given no rules (adapter.go:337-344), where gorm may return `ErrEmptySlice` and the model reports success.
- GormAdapter.Adapter.SavePolicy: the rules come as a sequence, standing for the engine's `RangeRules` iteration. Each rule must have at least one element, because `rule[0]` panics otherwise. The same holds for AddRule, AddRules, RemoveRule and RemoveRules.
- Rules.LoadPolicyLine: the all-`""` record gives IndexOutOfRange. A description of the adapter says the type is always kept; the code at adapter.go:171-174 reads `p[-1]` and panics. The model follows the code.
- StoreSpec.Flush: chunks hold 1001 records, because the code flushes when the buffer length exceeds 1000. A description of the adapter speaks of chunks of 1000; the model follows the code.
- Rules.SavePolicyLine: values past the eighth are silently dropped, as the code does. A description of the adapter calls such tuples a caller error.
- Transaction isolation and concurrency between adapters or processes are not modelled. Operations are sequential, and rollback restores the rows and the next auto-increment ID as they were.
- Record and filter comparisons are exact string equality. The database's collation, case folding and trailing-space rules, which decide the real `WHERE`, `IN` and unique index, are not modelled.
- Go `error` values are modelled as an `Error` datatype, and their message texts are not modelled.

## Findings

| source | as written | input that shows it | evidently intended | confidence | as-written member | corrected member |
|---|---|---|---|---|---|---|
| adapter.go:302-315 | Inside the `RangeRules` callback, `createErr := a.db.Create(&lines)` declares a new `createErr` that shadows the outer one. A failed intermediate flush stops the range, but the check at line 311 never fires. The final `Create` re-submits the uncleared 1001-record chunk and reports only its own result. | More than 1001 distinct rules, where only the first chunk's insert fails: the save reports success with only the first 1001 rules stored. | A failed intermediate flush ends the save and returns its error. | not executed | StoreSpec.FlushAsWrittenHidesFailure | StoreSpec.FlushSucceeds |
| adapter.go:556-570 | Each iteration of the loop over `newP` re-runs the select and the delete by the filter before inserting `newP[i]`. Every new rule the filter matches is deleted again by the next iteration. | Table `[p alice data1 read]`, filter V0 = "alice", new rules `[alice data2 read]` and `[alice data3 read]`: only `data3` remains. | Select and delete once, then insert every new rule: both `data2` and `data3` remain, and `data1` is reported removed. With no new rules the loop never runs, so the correction, like the code, selects and deletes nothing. | not executed | StoreSpec.UpdateFilteredAsWrittenDropsNewRules | StoreSpec.UpdateFilteredKeepsNewRules |
| adapter.go:369-398 | `checkQueryField` looks at every value of `fieldValues`, but the window then keeps only the values that land in V0..V7. A filter whose non-`""` values all fall outside V0..V7 passes the check, and the delete is by `ptype` alone. | `RemoveFilteredPolicy("p", "p", 8, "x")`, or `fieldIndex` -2 with `"x", "", ""`: every rule of type `p` is deleted. | A filtered delete never silently matches every rule of the type. The check looks at the values the delete uses and refuses a filter that puts no non-`""` value in V0..V7. | not executed | StoreSpec.OutOfWindowDeletesWholeType | StoreSpec.FilteredRemovalNeverWholeType |
