/** The Adapter object of adapter.go: a handle on one rule table plus the
    `isFiltered` flag. The table is held as its rows in ID order; every database
    statement an operation issues takes a fault flag (or the operation takes a
    set of the statement numbers that fail), and each operation is proved to leave
    the table as the specification functions of StoreSpec say. */
module GormAdapter {
  import opened Errors
  import opened Rules
  import opened Queries
  import opened Naming
  import opened Table
  import opened StoreSpec

  /** The `filter interface{}` LoadFilteredPolicy receives: a Filter, or a value
      of any other type. */
  datatype FilterArg = FilterValue(filter: Filter) | OtherValue

  /** The records savePolicyLine builds for each rule of one type, built one by one
      as UpdatePolicies and UpdateFilteredPolicies do. */
  method BuildLines(ptype: string, rules: seq<seq<string>>) returns (lines: seq<CasbinRule>)
    ensures lines == SaveLinesOfType(ptype, rules)
  {
    lines := [];
    var i := 0;
    while i < |rules|
      invariant 0 <= i <= |rules| && |lines| == i
      invariant forall j :: 0 <= j < i ==> lines[j] == SavePolicyLine(ptype, rules[j])
    {
      lines := lines + [SavePolicyLine(ptype, rules[i])];
      i := i + 1;
    }
  }

  class Adapter {
    const tableName: string
    const indexName: string
    var isFiltered: bool
    var rows: seq<Row>
    var nextId: nat

    /** The table keeps its invariant. */
    ghost predicate Valid()
      reads this
    {
      TableInvariant(rows, nextId)
    }

    /** The table's records in ID order. */
    function Records(): seq<CasbinRule>
      reads this
    {
      RecordsOf(rows)
    }

    /** IsFiltered: whether the last successful load was a filtered one. */
    function IsFiltered(): bool
      reads this
    {
      isFiltered
    }

    /** An adapter on a table holding `existing` in ID order. */
    constructor (tableName: string, existing: seq<CasbinRule>)
      requires Distinct(existing)
      ensures Valid() && !isFiltered && Records() == existing
      ensures this.tableName == TableNameOrDefault(tableName) && indexName == IndexName(this.tableName)
    {
      this.tableName := TableNameOrDefault(tableName);
      indexName := IndexName(TableNameOrDefault(tableName));
      isFiltered := false;
      StampFromEmpty(existing);
      rows := Stamp(existing, 0);
      nextId := |existing|;
    }

    /** NewAdapterWithTable over a table that already holds `existing`: an empty
        name selects the default table; creating the table and its unique index
        fails on a faulty statement, and the index cannot be created over
        duplicate records. */
    static method NewAdapterWithTable(tableName: string, existing: seq<CasbinRule>, fault: bool)
      returns (a: Adapter?, err: Option<Error>)
      ensures err.None? <==> !fault && Distinct(existing)
      ensures err.Some? ==> a == null && err.value == (if fault then DbFault else Duplicate)
      ensures err.None? ==> a != null && fresh(a) && a.Valid() && !a.isFiltered && a.Records() == existing &&
                            a.tableName == TableNameOrDefault(tableName) && a.indexName == IndexName(a.tableName)
    {
      if fault {
        return null, Some(DbFault);
      }
      if !Distinct(existing) {
        return null, Some(Duplicate);
      }
      a := new Adapter(tableName, existing);
      err := None;
    }

    // ------------------------------------------------------- single statements

    /** One INSERT of `batch`: the unique index refuses a batch that would
        duplicate a record, and a failed insert stores nothing. */
    method Create(batch: seq<CasbinRule>, fault: bool) returns (err: Option<Error>)
      requires Valid()
      modifies this`rows, this`nextId
      ensures Valid()
      ensures Stored(Records(), err) == Insert(old(Records()), batch, fault)
    {
      if fault {
        return Some(DbFault);
      }
      if !Distinct(Records() + batch) {
        return Some(Duplicate);
      }
      StampKeepsInvariant(rows, nextId, batch);
      rows := rows + Stamp(batch, nextId);
      nextId := nextId + |batch|;
      err := None;
    }

    /** rawDelete: one DELETE with the predicate appendWhere builds for `line`. */
    method RawDelete(line: CasbinRule, fault: bool) returns (err: Option<Error>)
      requires Valid()
      modifies this`rows
      ensures Valid()
      ensures err == if fault then Some(DbFault) else None
      ensures Records() == if fault then old(Records()) else Without(old(Records()), line)
    {
      if fault {
        return Some(DbFault);
      }
      KeepRowsRecords(rows, NotMatching(line));
      KeepRowsInvariant(rows, NotMatching(line), nextId);
      rows := KeepRows(rows, NotMatching(line));
      err := None;
    }

    /** One SELECT ... ORDER BY ID of the records satisfying `cond`. */
    method Find(cond: Condition, fault: bool) returns (found: seq<CasbinRule>, err: Option<Error>)
      ensures fault ==> found == [] && err == Some(DbFault)
      ensures !fault ==> found == Keep(Records(), cond) && err == None
    {
      if fault {
        return [], Some(DbFault);
      }
      found := Keep(Records(), cond);
      err := None;
    }

    /** One UPDATE: `rewrite` gives each row's new value; a fault, or a result the
        unique index refuses, changes nothing. */
    method UpdateRows(cond: CasbinRule, newLine: CasbinRule, rewrite: Rewrite, fault: bool) returns (err: Option<Error>)
      requires Valid()
      modifies this`rows
      ensures Valid()
      ensures Stored(Records(), err) == UpdateOne(old(Records()), cond, newLine, rewrite, fault)
    {
      if fault {
        return Some(DbFault);
      }
      var current := rows;
      var updated := seq(|current|, i requires 0 <= i < |current| => Row(current[i].id, rewrite(cond, newLine, current[i].rule)));
      assert RecordsOf(updated) == Rewritten(RecordsOf(current), cond, newLine, rewrite);
      if !Distinct(RecordsOf(updated)) {
        return Some(Duplicate);
      }
      forall i, j | 0 <= i < j < |updated| ensures updated[i].rule != updated[j].rule {
        assert RecordsOf(updated)[i] == updated[i].rule && RecordsOf(updated)[j] == updated[j].rule;
      }
      rows := updated;
      err := None;
    }

    // ------------------------------------------------------------------ loading

    /** LoadPolicy: reads every row in ID order and hands loadPolicyLine of each to
        the model; `rules` is what the model received before any panic. */
    method LoadPolicy(fault: bool) returns (rules: seq<seq<string>>, err: Option<Error>)
      ensures fault ==> rules == [] && err == Some(DbFault)
      ensures !fault ==> Loaded(rules, err) == LoadedPolicy(Records())
      ensures !fault && EmptyRule !in Records() ==>
                err == None && |rules| == |Records()| &&
                forall i :: 0 <= i < |rules| ==> rules[i] == TrimTrailing(Fields(Records()[i]))
    {
      var lines, e := Find(MatchingNone([]), fault);
      if e.Some? {
        return [], e;
      }
      KeepNoneOfNothing(Records());
      rules, err := LoadLines(lines);
      if EmptyRule !in Records() {
        LoadedPolicyComplete(Records());
      }
    }

    /** LoadFilteredPolicy: refuses anything but a Filter; otherwise loads the rows
        the filter's `in` clauses select, in ID order, and marks the adapter
        filtered once every row has been handed over. */
    method LoadFilteredPolicy(arg: FilterArg, fault: bool) returns (rules: seq<seq<string>>, err: Option<Error>)
      modifies this`isFiltered
      ensures arg.OtherValue? ==> rules == [] && err == Some(InvalidFilterType) && isFiltered == old(isFiltered)
      ensures arg.FilterValue? && fault ==> rules == [] && err == Some(DbFault) && isFiltered == old(isFiltered)
      ensures arg.FilterValue? && !fault ==>
                Loaded(rules, err) == LoadedPolicy(Keep(Records(), Passing(arg.filter))) &&
                isFiltered == (err.None? || old(isFiltered))
    {
      if arg.OtherValue? {
        return [], Some(InvalidFilterType);
      }
      var lines, e := Find(Passing(arg.filter), fault);
      if e.Some? {
        return [], e;
      }
      rules, err := LoadLines(lines);
      if err.None? {
        isFiltered := true;
      }
    }

    // ------------------------------------------------------------------- saving

    /** SavePolicy with the intermediate flush error reported: drops and
        re-creates the table, then inserts the rules in chunks of 1001 and the
        remainder; statement 0 is the drop, 1 the create, 2.. the inserts. */
    method SavePolicy(rules: seq<seq<string>>, faults: set<nat>) returns (err: Option<Error>)
      requires Valid()
      requires forall i :: 0 <= i < |rules| ==> |rules[i]| >= 1
      modifies this`rows, this`nextId
      ensures Valid()
      ensures Stored(Records(), err) == Save(old(Records()), SaveLines(rules), faults)
    {
      if 0 in faults {
        return Some(DbFault);
      }
      rows, nextId := [], 0;
      if 1 in faults {
        return Some(DbFault);
      }
      err := FlushRules(rules, faults);
    }

    /** The range over the rules in SavePolicy: each rule's record is buffered,
        a buffer of more than FlushEvery records is inserted (Create call k,
        from 2 on) and cleared, a failed insert ends the save with its error, and
        what is left is inserted at the end. */
    method FlushRules(rules: seq<seq<string>>, faults: set<nat>) returns (err: Option<Error>)
      requires Valid()
      requires forall i :: 0 <= i < |rules| ==> |rules[i]| >= 1
      modifies this`rows, this`nextId
      ensures Valid()
      ensures Stored(Records(), err) == Flush(old(Records()), SaveLines(rules), faults, 2)
    {
      ghost var all := SaveLines(rules);
      BufferNothing(all);
      assert all[0..] == all;
      var lines: seq<CasbinRule> := [];
      var i, k := 0, 2;
      while i < |rules|
        invariant 0 <= i <= |rules| && |lines| <= FlushEvery
        invariant Valid()
        invariant Flush(old(Records()), all, faults, 2) == Flush(Records(), lines + all[i..], faults, k)
      {
        BufferOne(lines, all, i);
        lines := lines + [SavePolicyLine(rules[i][0], rules[i][1..])];
        i := i + 1;
        if |lines| > FlushEvery {
          FlushChunk(Records(), lines, all[i..], faults, k);
          var e := Create(lines, k in faults);
          if e.Some? {
            return e;
          }
          lines := [];
          k := k + 1;
          BufferNothing(all[i..]);
        }
      }
      BufferDone(lines, all);
      err := Create(lines, k in faults);
    }

    /** SavePolicy as adapter.go writes it: the error of a failed intermediate
        flush is lost and the final Create re-submits that chunk. */
    method SavePolicyAsWritten(rules: seq<seq<string>>, faults: set<nat>) returns (err: Option<Error>)
      requires Valid()
      requires forall i :: 0 <= i < |rules| ==> |rules[i]| >= 1
      modifies this`rows, this`nextId
      ensures Valid()
      ensures Stored(Records(), err) == SaveAsWritten(old(Records()), SaveLines(rules), faults)
    {
      if 0 in faults {
        return Some(DbFault);
      }
      rows, nextId := [], 0;
      if 1 in faults {
        return Some(DbFault);
      }
      err := FlushRulesAsWritten(rules, faults);
    }

    /** The range over the rules in SavePolicy as adapter.go writes it: a failed
        intermediate insert stops the range, its error lands in the shadowing
        `createErr`, and the final Create re-submits the uncleared chunk. */
    method FlushRulesAsWritten(rules: seq<seq<string>>, faults: set<nat>) returns (err: Option<Error>)
      requires Valid()
      requires forall i :: 0 <= i < |rules| ==> |rules[i]| >= 1
      modifies this`rows, this`nextId
      ensures Valid()
      ensures Stored(Records(), err) == FlushAsWritten(old(Records()), SaveLines(rules), faults, 2)
    {
      ghost var all := SaveLines(rules);
      BufferNothing(all);
      assert all[0..] == all;
      var lines: seq<CasbinRule> := [];
      var i, k := 0, 2;
      while i < |rules|
        invariant 0 <= i <= |rules| && |lines| <= FlushEvery
        invariant Valid()
        invariant FlushAsWritten(old(Records()), all, faults, 2) == FlushAsWritten(Records(), lines + all[i..], faults, k)
      {
        BufferOne(lines, all, i);
        var stop;
        lines, k, stop, err := BufferRuleAsWritten(lines, SavePolicyLine(rules[i][0], rules[i][1..]), all[i + 1..], faults, k);
        i := i + 1;
        if stop {
          return;
        }
      }
      BufferDone(lines, all);
      err := Create(lines, k in faults);
    }

    /** One rule of that range: its record joins the buffer and, once the buffer
        holds more than FlushEvery records, the buffer is inserted as Create call
        k; on failure the range stops and the chunk is re-submitted as call k + 1. */
    method BufferRuleAsWritten(lines: seq<CasbinRule>, line: CasbinRule, ghost rest: seq<CasbinRule>, faults: set<nat>, k: nat)
      returns (lines': seq<CasbinRule>, k': nat, stop: bool, err: Option<Error>)
      requires Valid() && |lines| <= FlushEvery
      modifies this`rows, this`nextId
      ensures Valid()
      ensures stop ==> Stored(Records(), err) == FlushAsWritten(old(Records()), lines + [line] + rest, faults, k)
      ensures !stop ==> |lines'| <= FlushEvery &&
                        FlushAsWritten(old(Records()), lines + [line] + rest, faults, k) ==
                        FlushAsWritten(Records(), lines' + rest, faults, k')
    {
      lines', k', stop, err := lines + [line], k, false, None;
      if |lines'| > FlushEvery {
        FlushAsWrittenChunk(Records(), lines', rest, faults, k);
        var e := Create(lines', k in faults);
        if e.Some? {
          // the range stops; the shadowed error is never looked at
          err := Create(lines', k + 1 in faults);
          stop := true;
          return;
        }
        BufferNothing(rest);
        lines', k' := [], k + 1;
      }
    }

    // ---------------------------------------------------------- adding, removing

    /** AddRule: inserts the record of `rule` (its type first). */
    method AddRule(rule: seq<string>, fault: bool) returns (err: Option<Error>)
      requires Valid() && |rule| >= 1
      modifies this`rows, this`nextId
      ensures Valid()
      ensures Stored(Records(), err) == Insert(old(Records()), [SavePolicyLine(rule[0], rule[1..])], fault)
    {
      err := Create([SavePolicyLine(rule[0], rule[1..])], fault);
    }

    /** AddRules: builds the records of all the rules and inserts them in one statement. */
    method AddRules(rules: seq<seq<string>>, fault: bool) returns (err: Option<Error>)
      requires Valid()
      requires forall i :: 0 <= i < |rules| ==> |rules[i]| >= 1
      modifies this`rows, this`nextId
      ensures Valid()
      ensures Stored(Records(), err) == Insert(old(Records()), SaveLines(rules), fault)
    {
      var lines: seq<CasbinRule> := [];
      var i := 0;
      while i < |rules|
        invariant 0 <= i <= |rules| && |lines| == i
        invariant forall j :: 0 <= j < i ==> lines[j] == SavePolicyLine(rules[j][0], rules[j][1..])
      {
        lines := lines + [SavePolicyLine(rules[i][0], rules[i][1..])];
        i := i + 1;
      }
      assert lines == SaveLines(rules);
      err := Create(lines, fault);
    }

    /** RemoveRule: deletes the records the rule's record matches. */
    method RemoveRule(rule: seq<string>, fault: bool) returns (err: Option<Error>)
      requires Valid() && |rule| >= 1
      modifies this`rows
      ensures Valid()
      ensures err == if fault then Some(DbFault) else None
      ensures Records() == if fault then old(Records()) else Without(old(Records()), SavePolicyLine(rule[0], rule[1..]))
    {
      err := RawDelete(SavePolicyLine(rule[0], rule[1..]), fault);
    }

    /** The delete loop of RemoveRules: delete i is statement i; the first failure stops it. */
    method RemoveEachLoop(rules: seq<seq<string>>, faults: set<nat>) returns (err: Option<Error>)
      requires Valid()
      requires forall i :: 0 <= i < |rules| ==> |rules[i]| >= 1
      modifies this`rows
      ensures Valid()
      ensures Stored(Records(), err) == RemoveEachFaulty(old(Records()), SaveLines(rules), faults, 0)
    {
      ghost var lines := SaveLines(rules);
      assert lines[0..] == lines;
      var i := 0;
      while i < |rules|
        invariant 0 <= i <= |rules| && Valid()
        invariant RemoveEachFaulty(old(Records()), lines, faults, 0) == RemoveEachFaulty(Records(), lines[i..], faults, i)
      {
        RemoveEachFaultyStep(Records(), lines, faults, i, i);
        var e := RawDelete(SavePolicyLine(rules[i][0], rules[i][1..]), i in faults);
        if e.Some? {
          return e;
        }
        i := i + 1;
      }
      RemoveEachFaultyDone(Records(), lines, faults, i);
      err := None;
    }

    /** RemoveRules: the delete loop inside a transaction, rolled back on the first
        failure; the commit is statement |rules|. */
    method RemoveRules(rules: seq<seq<string>>, faults: set<nat>) returns (err: Option<Error>)
      requires Valid()
      requires forall i :: 0 <= i < |rules| ==> |rules[i]| >= 1
      modifies this`rows
      ensures Valid()
      ensures Stored(Records(), err) == RemoveMany(old(Records()), SaveLines(rules), faults)
    {
      var snapshot := rows;
      err := RemoveEachLoop(rules, faults);
      if err.Some? {
        rows := snapshot;
        return;
      }
      if |rules| in faults {
        rows := snapshot;
        return Some(DbFault);
      }
    }

    /** RemoveFilteredPolicy with checkQueryField applied to the window's columns:
        with fieldIndex -1 deletes by type alone; otherwise refuses a filter that
        puts no non-"" value in V0..V7, and deletes by the offset window. */
    method RemoveFilteredPolicy(ptype: string, fieldIndex: int, fieldValues: seq<string>, fault: bool)
      returns (err: Option<Error>)
      requires Valid()
      modifies this`rows
      ensures Valid()
      ensures match FilteredRemoval(ptype, fieldIndex, fieldValues)
              case Err(e) => err == Some(e) && Records() == old(Records())
              case Ok(line) =>
                err == (if fault then Some(DbFault) else None) &&
                Records() == if fault then old(Records()) else Without(old(Records()), line)
    {
      if fieldIndex == -1 {
        err := RawDelete(SavePolicyLine(ptype, []), fault);
        return;
      }
      var line := OffsetLine(ptype, fieldIndex, fieldValues);
      var e := CheckQueryField(Fields(line)[1..]);
      if e.Some? {
        return e;
      }
      err := RawDelete(line, fault);
    }

    /** RemoveFilteredPolicy as adapter.go writes it: the check looks at every
        value, so a filter whose non-"" values all fall outside V0..V7 deletes by
        type alone. */
    method RemoveFilteredPolicyAsWritten(ptype: string, fieldIndex: int, fieldValues: seq<string>, fault: bool)
      returns (err: Option<Error>)
      requires Valid()
      modifies this`rows
      ensures Valid()
      ensures match FilteredRemovalAsWritten(ptype, fieldIndex, fieldValues)
              case Err(e) => err == Some(e) && Records() == old(Records())
              case Ok(line) =>
                err == (if fault then Some(DbFault) else None) &&
                Records() == if fault then old(Records()) else Without(old(Records()), line)
    {
      if fieldIndex == -1 {
        err := RawDelete(SavePolicyLine(ptype, []), fault);
        return;
      }
      var e := CheckQueryField(fieldValues);
      if e.Some? {
        return e;
      }
      err := RawDelete(OffsetLine(ptype, fieldIndex, fieldValues), fault);
    }

    // ----------------------------------------------------------------- updating

    /** UpdatePolicy: one UPDATE of the rows the old rule's record selects. */
    method UpdatePolicy(ptype: string, oldRule: seq<string>, newPolicy: seq<string>, rewrite: Rewrite, fault: bool)
      returns (err: Option<Error>)
      requires Valid()
      modifies this`rows
      ensures Valid()
      ensures Stored(Records(), err) ==
                UpdateOne(old(Records()), SavePolicyLine(ptype, oldRule), SavePolicyLine(ptype, newPolicy), rewrite, fault)
    {
      err := UpdateRows(SavePolicyLine(ptype, oldRule), SavePolicyLine(ptype, newPolicy), rewrite, fault);
    }

    /** The update loop of UpdatePolicies: pair i's UPDATE is statement i; the
        first failure stops it. */
    method UpdateEachLoop(olds: seq<CasbinRule>, news: seq<CasbinRule>, rewrite: Rewrite, faults: set<nat>)
      returns (err: Option<Error>)
      requires Valid() && |olds| <= |news|
      modifies this`rows
      ensures Valid()
      ensures Stored(Records(), err) == UpdateEach(old(Records()), olds, news, rewrite, faults, 0)
    {
      var i := 0;
      while i < |olds|
        invariant 0 <= i <= |olds| && Valid()
        invariant UpdateEach(old(Records()), olds, news, rewrite, faults, 0) ==
                  UpdateEach(Records(), olds, news, rewrite, faults, i)
      {
        var e := UpdateRows(olds[i], news[i], rewrite, i in faults);
        if e.Some? {
          return e;
        }
        i := i + 1;
      }
      err := None;
    }

    /** UpdatePolicies: the update loop inside a transaction, rolled back on the
        first failure; the commit is statement |oldRules|. Pair i uses newRules[i],
        so there must be at least as many new rules as old ones. */
    method UpdatePolicies(ptype: string, oldRules: seq<seq<string>>, newRules: seq<seq<string>>, rewrite: Rewrite,
                          faults: set<nat>) returns (err: Option<Error>)
      requires Valid() && |oldRules| <= |newRules|
      modifies this`rows
      ensures Valid()
      ensures Stored(Records(), err) ==
                UpdateMany(old(Records()), SaveLinesOfType(ptype, oldRules), SaveLinesOfType(ptype, newRules), rewrite, faults)
    {
      var oldPolicies := BuildLines(ptype, oldRules);
      var newPolicies := BuildLines(ptype, newRules);
      var snapshot := rows;
      err := UpdateEachLoop(oldPolicies, newPolicies, rewrite, faults);
      if err.Some? {
        rows := snapshot;
        return;
      }
      if |oldPolicies| in faults {
        rows := snapshot;
        return Some(DbFault);
      }
    }

    /** One INSERT per record, record i as statement k + i; the first failure stops. */
    method InsertEachLoop(lines: seq<CasbinRule>, faults: set<nat>, k: nat) returns (err: Option<Error>)
      requires Valid()
      modifies this`rows, this`nextId
      ensures Valid()
      ensures Stored(Records(), err) == InsertFrom(old(Records()), lines, faults, k, 0)
    {
      var i := 0;
      while i < |lines|
        invariant 0 <= i <= |lines| && Valid()
        invariant InsertFrom(old(Records()), lines, faults, k, 0) == InsertFrom(Records(), lines, faults, k, i)
      {
        var e := Create([lines[i]], k + i in faults);
        if e.Some? {
          return e;
        }
        i := i + 1;
      }
      err := None;
    }

    /** UpdateFilteredPolicies with the select and delete issued once, before the
        inserts, inside one transaction; returns the removed rules as toStringPolicy
        gives them. With no new rules it only commits, as the code does. */
    method UpdateFilteredPolicies(ptype: string, newPolicies: seq<seq<string>>, fieldIndex: int,
                                  fieldValues: seq<string>, faults: set<nat>)
      returns (oldPolicies: seq<seq<string>>, err: Option<Error>)
      requires Valid()
      modifies this`rows, this`nextId
      ensures Valid()
      ensures var r := UpdateFiltered(old(Records()), OffsetLine(ptype, fieldIndex, fieldValues),
                                      SaveLinesOfType(ptype, newPolicies), faults);
              Records() == r.recs && oldPolicies == PolicyStrings(r.removed) && err == r.err
    {
      var line := OffsetLine(ptype, fieldIndex, fieldValues);
      var newP := BuildLines(ptype, newPolicies);
      if newP == [] {
        // no iteration: only the commit, statement 0
        return [], if 0 in faults then Some(DbFault) else None;
      }
      var snapshot, snapshotId := rows, nextId;
      var oldP, e := Find(Matching(line), 0 in faults);
      if e.Some? {
        return [], e;
      }
      e := RawDelete(line, 1 in faults);
      if e.Some? {
        rows := snapshot;
        return [], e;
      }
      e := InsertEachLoop(newP, faults, 2);
      if e.Some? {
        rows, nextId := snapshot, snapshotId;
        return [], e;
      }
      oldPolicies := PolicyStrings(oldP);
      if 2 + |newP| in faults {
        rows, nextId := snapshot, snapshotId;
        return oldPolicies, Some(DbFault);
      }
      err := None;
    }

    /** One iteration of the loop of UpdateFilteredPolicies as adapter.go writes
        it: select (statement 3i), delete (3i + 1) and insert record i (3i + 2). */
    method ReplaceStep(line: CasbinRule, newP: seq<CasbinRule>, i: nat, oldP: seq<CasbinRule>, faults: set<nat>,
                       findAppends: bool) returns (oldP': seq<CasbinRule>, err: Option<Error>)
      requires Valid() && i < |newP|
      modifies this`rows, this`nextId
      ensures Valid()
      ensures ReplaceLoopAsWritten(old(Records()), line, newP, i, oldP, faults, findAppends) ==
                if err.Some? then Replaced(Records(), oldP', err)
                else ReplaceLoopAsWritten(Records(), line, newP, i + 1, oldP', faults, findAppends)
    {
      var found, e := Find(Matching(line), 3 * i in faults);
      if e.Some? {
        return oldP, e;
      }
      oldP' := if findAppends then oldP + found else found;
      e := RawDelete(line, 3 * i + 1 in faults);
      if e.Some? {
        return oldP', e;
      }
      err := Create([newP[i]], 3 * i + 2 in faults);
    }

    /** The loop of UpdateFilteredPolicies as adapter.go writes it, one iteration
        per new record; the first failure stops it. */
    method ReplaceLoop(line: CasbinRule, newP: seq<CasbinRule>, faults: set<nat>, findAppends: bool)
      returns (oldP: seq<CasbinRule>, err: Option<Error>)
      requires Valid()
      modifies this`rows, this`nextId
      ensures Valid()
      ensures ReplaceLoopAsWritten(old(Records()), line, newP, 0, [], faults, findAppends) == Replaced(Records(), oldP, err)
    {
      oldP := [];
      var i := 0;
      while i < |newP|
        invariant 0 <= i <= |newP| && Valid()
        invariant ReplaceLoopAsWritten(old(Records()), line, newP, 0, [], faults, findAppends) ==
                  ReplaceLoopAsWritten(Records(), line, newP, i, oldP, faults, findAppends)
      {
        var e;
        oldP, e := ReplaceStep(line, newP, i, oldP, faults, findAppends);
        if e.Some? {
          return oldP, e;
        }
        i := i + 1;
      }
      err := None;
    }

    /** UpdateFilteredPolicies as adapter.go writes it: the loop inside one
        transaction, rolled back on the first failure, the commit statement
        3|newPolicies|; `findAppends` says whether Find adds to `oldP` or replaces it. */
    method UpdateFilteredPoliciesAsWritten(ptype: string, newPolicies: seq<seq<string>>, fieldIndex: int,
                                           fieldValues: seq<string>, faults: set<nat>, findAppends: bool)
      returns (oldPolicies: seq<seq<string>>, err: Option<Error>)
      requires Valid()
      modifies this`rows, this`nextId
      ensures Valid()
      ensures var r := UpdateFilteredAsWritten(old(Records()), OffsetLine(ptype, fieldIndex, fieldValues),
                                               SaveLinesOfType(ptype, newPolicies), faults, findAppends);
              Records() == r.recs && oldPolicies == PolicyStrings(r.removed) && err == r.err
    {
      var line := OffsetLine(ptype, fieldIndex, fieldValues);
      var newP := BuildLines(ptype, newPolicies);
      var snapshot, snapshotId := rows, nextId;
      var oldP, e := ReplaceLoop(line, newP, faults, findAppends);
      if e.Some? {
        rows, nextId := snapshot, snapshotId;
        return [], e;
      }
      oldPolicies := PolicyStrings(oldP);
      if 3 * |newP| in faults {
        rows, nextId := snapshot, snapshotId;
        return oldPolicies, Some(DbFault);
      }
      err := None;
    }
  }
}
