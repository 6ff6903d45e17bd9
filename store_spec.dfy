/** Specification functions for the adapter's multi-statement operations, stated
    on the table's records: the sequence of deletes of RemoveRules, the flush
    buffer of SavePolicy, the update loop of UpdatePolicies and the
    select/delete/insert loop of UpdateFilteredPolicies. A fault plan `faults`
    names the statements of one call (numbered from 0) the database client fails. */
module StoreSpec {
  import opened Errors
  import opened Rules
  import opened Queries
  import opened Table

  // ---------------------------------------------------------------- RemoveRules

  /** The records left after deleting by each of `lines` in turn. */
  function RemoveEach(recs: seq<CasbinRule>, lines: seq<CasbinRule>): seq<CasbinRule>
    decreases |lines|
  {
    if lines == [] then recs else RemoveEach(Without(recs, lines[0]), lines[1..])
  }

  lemma KeepNotMatchingThenNone(recs: seq<CasbinRule>, l: CasbinRule, ls: seq<CasbinRule>)
    ensures Keep(Keep(recs, NotMatching(l)), MatchingNone(ls)) == Keep(recs, MatchingNone([l] + ls))
  {
    forall x | x in recs
      ensures Holds(MatchingNone([l] + ls), x) <==> Holds(NotMatching(l), x) && Holds(MatchingNone(ls), x)
    {
      MatchingNoneCons(l, ls, x);
    }
    KeepTwice(recs, NotMatching(l), MatchingNone(ls), MatchingNone([l] + ls));
  }

  lemma MatchingNoneCons(l: CasbinRule, ls: seq<CasbinRule>, r: CasbinRule)
    ensures Holds(MatchingNone([l] + ls), r) <==> !Matches(l, r) && Holds(MatchingNone(ls), r)
  {
    assert forall x :: x in [l] + ls <==> x == l || x in ls;
  }

  lemma {:induction false} KeepNoneOfNothing(recs: seq<CasbinRule>)
    ensures Keep(recs, MatchingNone([])) == recs
  {
    if recs != [] {
      KeepNoneOfNothing(recs[1..]);
    }
  }

  /** Deleting by each rule in turn leaves exactly the records no rule matches, in
      their order: the order of the rules does not matter. */
  lemma {:induction false} RemoveEachKeepsUnmatched(recs: seq<CasbinRule>, lines: seq<CasbinRule>)
    ensures RemoveEach(recs, lines) == Keep(recs, MatchingNone(lines))
    decreases |lines|
  {
    if lines == [] {
      KeepNoneOfNothing(recs);
    } else {
      RemoveEachKeepsUnmatched(Without(recs, lines[0]), lines[1..]);
      KeepNotMatchingThenNone(recs, lines[0], lines[1..]);
      assert [lines[0]] + lines[1..] == lines;
    }
  }

  /** RemoveRules' delete loop from statement k on: the first failing delete stops it. */
  function RemoveEachFaulty(recs: seq<CasbinRule>, lines: seq<CasbinRule>, faults: set<nat>, k: nat): Stored
    decreases |lines|
  {
    if lines == [] then Stored(recs, None)
    else if k in faults then Stored(recs, Some(DbFault))
    else RemoveEachFaulty(Without(recs, lines[0]), lines[1..], faults, k + 1)
  }

  /** The delete loop succeeds exactly when none of its statements faults, and then
      it has deleted by every rule. */
  lemma {:induction false} RemoveEachFaultySpec(recs: seq<CasbinRule>, lines: seq<CasbinRule>, faults: set<nat>, k: nat)
    ensures var r := RemoveEachFaulty(recs, lines, faults, k);
            (r.err.None? <==> forall j :: k <= j < k + |lines| ==> j !in faults) &&
            (r.err.None? ==> r.recs == RemoveEach(recs, lines)) &&
            (r.err.Some? ==> r.err.value == DbFault)
    decreases |lines|
  {
    if lines != [] && k !in faults {
      RemoveEachFaultySpec(Without(recs, lines[0]), lines[1..], faults, k + 1);
    }
  }

  lemma RemoveEachFaultyStep(recs: seq<CasbinRule>, lines: seq<CasbinRule>, faults: set<nat>, i: nat, k: nat)
    requires i < |lines|
    ensures RemoveEachFaulty(recs, lines[i..], faults, k) ==
              if k in faults then Stored(recs, Some(DbFault))
              else RemoveEachFaulty(Without(recs, lines[i]), lines[i + 1..], faults, k + 1)
  {
    assert lines[i..][0] == lines[i] && lines[i..][1..] == lines[i + 1..];
  }

  lemma RemoveEachFaultyDone(recs: seq<CasbinRule>, lines: seq<CasbinRule>, faults: set<nat>, k: nat)
    ensures RemoveEachFaulty(recs, lines[|lines|..], faults, k) == Stored(recs, None)
  {
    assert lines[|lines|..] == [];
  }

  /** RemoveRules in one transaction: delete statement i removes the records
      matching rule i; the first failing delete rolls every delete back, and so does
      a failed commit (statement |lines|). */
  function RemoveMany(recs: seq<CasbinRule>, lines: seq<CasbinRule>, faults: set<nat>): Stored
  {
    var loop := RemoveEachFaulty(recs, lines, faults, 0);
    if loop.err.Some? then Stored(recs, loop.err)
    else if |lines| in faults then Stored(recs, Some(DbFault))
    else loop
  }

  /** RemoveRules is all-or-nothing: it either removes every record some rule
      matches, keeping the others in order, or changes nothing and reports the
      fault; it succeeds exactly when no statement faults. */
  lemma RemoveManyAllOrNothing(recs: seq<CasbinRule>, lines: seq<CasbinRule>, faults: set<nat>)
    ensures var r := RemoveMany(recs, lines, faults);
            (r.err.None? ==> r.recs == Keep(recs, MatchingNone(lines))) &&
            (r.err.Some? ==> r.recs == recs && r.err.value == DbFault)
    ensures RemoveMany(recs, lines, faults).err.None? <==> forall j :: 0 <= j <= |lines| ==> j !in faults
  {
    RemoveEachFaultySpec(recs, lines, faults, 0);
    RemoveEachKeepsUnmatched(recs, lines);
  }

  /** RemoveFilteredPolicy's delete predicate as adapter.go writes it: fieldIndex
      -1 deletes by type alone; otherwise an all-"" value list is refused, and the
      offset window picks the columns. The check looks at every value, the window
      only at those that land in V0..V7. */
  function FilteredRemovalAsWritten(ptype: string, fieldIndex: int, fieldValues: seq<string>): (r: Result<CasbinRule>)
    ensures fieldIndex == -1 ==> r == Ok(SavePolicyLine(ptype, []))
    ensures fieldIndex != -1 ==>
              (r.Err? <==> forall i :: 0 <= i < |fieldValues| ==> fieldValues[i] == "")
    ensures r.Err? ==> r.error == EmptyFieldValues
    ensures r.Ok? ==> r.value.ptype == ptype
  {
    if fieldIndex == -1 then Ok(SavePolicyLine(ptype, []))
    else
      match CheckQueryField(fieldValues)
      case Some(e) => Err(e)
      case None => Ok(OffsetLine(ptype, fieldIndex, fieldValues))
  }

  /** RemoveFilteredPolicy's delete predicate with checkQueryField applied to the
      columns the delete will use, V0..V7 of the window: a value list whose
      non-"" values all fall outside the eight columns is refused too. */
  function FilteredRemoval(ptype: string, fieldIndex: int, fieldValues: seq<string>): (r: Result<CasbinRule>)
    ensures fieldIndex == -1 ==> r == Ok(SavePolicyLine(ptype, []))
    ensures fieldIndex != -1 ==>
              (r.Err? <==> forall k :: 0 <= k < |fieldValues| && 0 <= fieldIndex + k < SlotCount ==> fieldValues[k] == "")
    ensures r.Err? ==> r.error == EmptyFieldValues
    ensures r.Ok? ==> r.value.ptype == ptype
  {
    if fieldIndex == -1 then Ok(SavePolicyLine(ptype, []))
    else
      var line := OffsetLine(ptype, fieldIndex, fieldValues);
      OffsetLineBlank(ptype, fieldIndex, fieldValues);
      match CheckQueryField(Fields(line)[1..])
      case Some(e) => Err(e)
      case None => Ok(line)
  }

  /** With a window, the refined check never lets through a delete by type alone:
      the record of the type with every column "" is not matched, so not every
      record of the type goes. */
  lemma FilteredRemovalNeverWholeType(ptype: string, fieldIndex: int, fieldValues: seq<string>)
    requires fieldIndex != -1 && FilteredRemoval(ptype, fieldIndex, fieldValues).Ok?
    ensures FilteredRemoval(ptype, fieldIndex, fieldValues).value != SavePolicyLine(ptype, [])
    ensures !Matches(FilteredRemoval(ptype, fieldIndex, fieldValues).value, SavePolicyLine(ptype, []))
  {
    assert FilteredRemoval(ptype, fieldIndex, fieldValues).value == OffsetLine(ptype, fieldIndex, fieldValues);
    var k :| 0 <= k < |fieldValues| && 0 <= fieldIndex + k < SlotCount && fieldValues[k] != "";
    OffsetLineNotBlank(ptype, fieldIndex, fieldValues, k);
  }

  /** The two checks differ only where the code as written deletes by type alone:
      whenever the refined check passes, the code deletes by the same record, and
      whenever only the code's check passes, it deletes every record of the type. */
  lemma FilteredRemovalAsWrittenDeletesType(ptype: string, fieldIndex: int, fieldValues: seq<string>)
    ensures FilteredRemoval(ptype, fieldIndex, fieldValues).Ok? ==>
              FilteredRemovalAsWritten(ptype, fieldIndex, fieldValues) == FilteredRemoval(ptype, fieldIndex, fieldValues)
    ensures FilteredRemoval(ptype, fieldIndex, fieldValues).Err? && FilteredRemovalAsWritten(ptype, fieldIndex, fieldValues).Ok? ==>
              FilteredRemovalAsWritten(ptype, fieldIndex, fieldValues).value == SavePolicyLine(ptype, [])
  {
    var r := FilteredRemoval(ptype, fieldIndex, fieldValues);
    var w := FilteredRemovalAsWritten(ptype, fieldIndex, fieldValues);
    if r.Ok? && fieldIndex != -1 {
      var k :| 0 <= k < |fieldValues| && 0 <= fieldIndex + k < SlotCount && fieldValues[k] != "";
      assert w.Ok?;
    }
    if r.Err? && w.Ok? {
      var line := w.value;
      forall j | 1 <= j <= SlotCount ensures Fields(line)[j] == "" {
        if fieldIndex <= j - 1 < fieldIndex + |fieldValues| {
          var k := j - 1 - fieldIndex;
          assert 0 <= k < |fieldValues| && 0 <= fieldIndex + k < SlotCount;
        }
      }
      assert Fields(line) == Fields(SavePolicyLine(ptype, []));
      FieldsInjective(line, SavePolicyLine(ptype, []));
    }
  }

  /** The value "x" placed at V8, or a list whose only non-"" value lands before V0,
      passes the code's check and deletes every rule of type "p"; the refined check
      refuses both. */
  lemma OutOfWindowDeletesWholeType(row: CasbinRule)
    requires row.ptype == "p"
    ensures FilteredRemovalAsWritten("p", 8, ["x"]) == Ok(SavePolicyLine("p", []))
    ensures FilteredRemovalAsWritten("p", -2, ["x", "", ""]) == Ok(SavePolicyLine("p", []))
    ensures Matches(SavePolicyLine("p", []), row)
    ensures FilteredRemoval("p", 8, ["x"]) == Err(EmptyFieldValues)
    ensures FilteredRemoval("p", -2, ["x", "", ""]) == Err(EmptyFieldValues)
  {
    FilteredRemovalAsWrittenDeletesType("p", 8, ["x"]);
    FilteredRemovalAsWrittenDeletesType("p", -2, ["x", "", ""]);
    assert ["x"][0] != "" && ["x", "", ""][0] != "";
    PtypeOnlyMatches("p", row);
  }

  /** What RemoveFilteredPolicy deletes: with fieldIndex -1 every record of the
      type; otherwise every record of the type that equals each non-"" value on
      the column the window places it in. */
  lemma FilteredRemovalDeletes(ptype: string, fieldIndex: int, fieldValues: seq<string>, row: CasbinRule)
    requires FilteredRemoval(ptype, fieldIndex, fieldValues).Ok?
    ensures var line := FilteredRemoval(ptype, fieldIndex, fieldValues).value;
            Matches(line, row) <==>
              row.ptype == ptype &&
              (fieldIndex != -1 ==>
                 forall k :: 0 <= k < |fieldValues| && 0 <= fieldIndex + k < SlotCount && fieldValues[k] != "" ==>
                   Fields(row)[fieldIndex + k + 1] == fieldValues[k])
  {
    if fieldIndex == -1 {
      PtypeOnlyMatches(ptype, row);
    } else {
      OffsetLineMatches(ptype, fieldIndex, fieldValues, row);
    }
  }

  // ---------------------------------------------------------------- SavePolicy

  /** SavePolicy inserts its buffer once it holds more than this many records. */
  const FlushEvery: nat := 1000

  /** SavePolicy's buffer with the intermediate error reported: whenever more than
      FlushEvery records are buffered they are inserted (Create call k) and the
      buffer is cleared; a failed insert ends the save with its error; what is
      left is inserted at the end. */
  function Flush(recs: seq<CasbinRule>, lines: seq<CasbinRule>, faults: set<nat>, k: nat): Stored
    decreases |lines|
  {
    if |lines| <= FlushEvery then Insert(recs, lines, k in faults)
    else
      var chunk := Insert(recs, lines[..FlushEvery + 1], k in faults);
      if chunk.err.Some? then chunk
      else Flush(chunk.recs, lines[FlushEvery + 1..], faults, k + 1)
  }

  /** Buffering rule i moves it from the pending rules to the buffer. */
  lemma BufferOne(lines: seq<CasbinRule>, all: seq<CasbinRule>, i: nat)
    requires i < |all|
    ensures lines + all[i..] == (lines + [all[i]]) + all[i + 1..]
  {
  }

  lemma BufferNothing(rest: seq<CasbinRule>)
    ensures [] + rest == rest
  {
  }

  lemma BufferDone(lines: seq<CasbinRule>, all: seq<CasbinRule>)
    ensures lines + all[|all|..] == lines
  {
    assert all[|all|..] == [];
  }

  /** A full buffer (1001 records) is inserted as one chunk. */
  lemma FlushChunk(recs: seq<CasbinRule>, chunk: seq<CasbinRule>, rest: seq<CasbinRule>, faults: set<nat>, k: nat)
    requires |chunk| == FlushEvery + 1
    ensures var c := Insert(recs, chunk, k in faults);
            Flush(recs, chunk + rest, faults, k) == if c.err.Some? then c else Flush(c.recs, rest, faults, k + 1)
  {
    assert (chunk + rest)[..FlushEvery + 1] == chunk && (chunk + rest)[FlushEvery + 1..] == rest;
  }

  /** SavePolicy's buffer as adapter.go writes it: a failed intermediate insert
      stops the range, but its error lands in a shadowing `createErr`, so the
      check after the range never fires and the final Create (call k + 1)
      re-submits the same, uncleared chunk and reports only its outcome. */
  function FlushAsWritten(recs: seq<CasbinRule>, lines: seq<CasbinRule>, faults: set<nat>, k: nat): Stored
    decreases |lines|
  {
    if |lines| <= FlushEvery then Insert(recs, lines, k in faults)
    else
      var chunk := Insert(recs, lines[..FlushEvery + 1], k in faults);
      if chunk.err.Some? then Insert(recs, lines[..FlushEvery + 1], k + 1 in faults)
      else FlushAsWritten(chunk.recs, lines[FlushEvery + 1..], faults, k + 1)
  }

  /** A full buffer in the code as written: a failed chunk is re-submitted once. */
  lemma FlushAsWrittenChunk(recs: seq<CasbinRule>, chunk: seq<CasbinRule>, rest: seq<CasbinRule>, faults: set<nat>, k: nat)
    requires |chunk| == FlushEvery + 1
    ensures var c := Insert(recs, chunk, k in faults);
            FlushAsWritten(recs, chunk + rest, faults, k) ==
              if c.err.Some? then Insert(recs, chunk, k + 1 in faults) else FlushAsWritten(c.recs, rest, faults, k + 1)
  {
    assert (chunk + rest)[..FlushEvery + 1] == chunk && (chunk + rest)[FlushEvery + 1..] == rest;
  }

  /** What a save stores is always a prefix of the rules, and all of them when it
      reports no error. */
  lemma {:induction false} FlushStoresPrefix(recs: seq<CasbinRule>, lines: seq<CasbinRule>, faults: set<nat>, k: nat)
    ensures var s := Flush(recs, lines, faults, k);
            (s.err.None? ==> s.recs == recs + lines) &&
            exists m :: 0 <= m <= |lines| && s.recs == recs + lines[..m]
    decreases |lines|
  {
    var s := Flush(recs, lines, faults, k);
    if |lines| <= FlushEvery {
      SliceJoin(recs, lines, |lines|, 0);
      SliceJoin(recs, lines, 0, 0);
    } else {
      var chunk := Insert(recs, lines[..FlushEvery + 1], k in faults);
      if chunk.err.Some? {
        SliceJoin(recs, lines, 0, 0);
      } else {
        var rest := lines[FlushEvery + 1..];
        FlushStoresPrefix(chunk.recs, rest, faults, k + 1);
        var m :| 0 <= m <= |rest| && s.recs == chunk.recs + rest[..m];
        SliceJoin(recs, lines, FlushEvery + 1, m);
        if s.err.None? {
          SliceJoin(recs, lines, FlushEvery + 1, |rest|);
        }
      }
    }
  }

  /** Storing the first n records and then the next m stores the first n + m. */
  lemma SliceJoin(recs: seq<CasbinRule>, lines: seq<CasbinRule>, n: nat, m: nat)
    requires n + m <= |lines|
    ensures recs + lines[..n] + lines[n..][..m] == recs + lines[..n + m]
    ensures n + m == |lines| ==> recs + lines[..n] + lines[n..] == recs + lines
    ensures recs + lines[..0] == recs
  {
    assert lines[..n] + lines[n..][..m] == lines[..n + m];
    assert lines[..n] + lines[n..] == lines;
    assert lines[..0] == [];
  }

  lemma DistinctPrefix(a: seq<CasbinRule>, b: seq<CasbinRule>, n: nat)
    requires Distinct(a + b) && n <= |b|
    ensures Distinct(a + b[..n])
  {
    assert forall i :: 0 <= i < |a| + n ==> (a + b[..n])[i] == (a + b)[i];
  }

  lemma DistinctNotInPrefix(s: seq<CasbinRule>, n: nat)
    requires Distinct(s) && n < |s|
    ensures s[n] !in s[..n]
  {
    forall i | 0 <= i < n ensures s[..n][i] != s[n] {
      assert s[..n][i] == s[i];
    }
  }

  /** When the rules are distinct and no Create call fails, the save stores all of them. */
  lemma {:induction false} FlushSucceeds(recs: seq<CasbinRule>, lines: seq<CasbinRule>, faults: set<nat>, k: nat)
    requires Distinct(recs + lines)
    requires forall j :: k <= j <= k + |lines| / (FlushEvery + 1) ==> j !in faults
    ensures Flush(recs, lines, faults, k) == Stored(recs + lines, None)
    decreases |lines|
  {
    if |lines| > FlushEvery {
      var head, rest := lines[..FlushEvery + 1], lines[FlushEvery + 1..];
      DistinctPrefix(recs, lines, FlushEvery + 1);
      assert lines == head + rest;
      assert recs + head + rest == recs + lines;
      FlushSucceeds(recs + head, rest, faults, k + 1);
    }
  }

  /** The shadowed error: with more than 1001 distinct rules and only the first
      Create call failing, the code as written reports success having stored only
      the first 1001 rules; the fixed flush reports the failure. */
  lemma FlushAsWrittenHidesFailure(lines: seq<CasbinRule>)
    requires |lines| > FlushEvery + 1 && Distinct(lines)
    ensures FlushAsWritten([], lines, {0}, 0) == Stored(lines[..FlushEvery + 1], None)
    ensures lines[FlushEvery + 1] !in FlushAsWritten([], lines, {0}, 0).recs
    ensures Flush([], lines, {0}, 0) == Stored([], Some(DbFault))
  {
    assert [] + lines == lines;
    DistinctPrefix([], lines, FlushEvery + 1);
    assert [] + lines[..FlushEvery + 1] == lines[..FlushEvery + 1];
    DistinctNotInPrefix(lines, FlushEvery + 1);
  }

  /** SavePolicy: statement 0 drops the table, statement 1 re-creates it empty,
      and the flush's Create calls are statements 2, 3, ... */
  function Save(recs: seq<CasbinRule>, lines: seq<CasbinRule>, faults: set<nat>): Stored
  {
    if 0 in faults then Stored(recs, Some(DbFault))
    else if 1 in faults then Stored([], Some(DbFault))
    else Flush([], lines, faults, 2)
  }

  /** SavePolicy as written, with the shadowed flush error. */
  function SaveAsWritten(recs: seq<CasbinRule>, lines: seq<CasbinRule>, faults: set<nat>): Stored
  {
    if 0 in faults then Stored(recs, Some(DbFault))
    else if 1 in faults then Stored([], Some(DbFault))
    else FlushAsWritten([], lines, faults, 2)
  }

  /** A save replaces the table by a prefix of the rules -- all of them when it
      reports no error, all of them when they are distinct and nothing faults --
      unless dropping the table fails, which changes nothing. */
  lemma SaveReplacesTable(recs: seq<CasbinRule>, lines: seq<CasbinRule>, faults: set<nat>)
    ensures var s := Save(recs, lines, faults);
            (s.err.None? ==> s.recs == lines) &&
            (0 in faults ==> s.recs == recs) &&
            (0 !in faults ==> exists m :: 0 <= m <= |lines| && s.recs == lines[..m])
    ensures Distinct(lines) && (forall j :: 0 <= j <= 2 + |lines| / (FlushEvery + 1) ==> j !in faults) ==>
              Save(recs, lines, faults) == Stored(lines, None)
  {
    assert [] + lines == lines;
    if 0 !in faults && 1 !in faults {
      FlushStoresPrefix([], lines, faults, 2);
      var m :| 0 <= m <= |lines| && Flush([], lines, faults, 2).recs == [] + lines[..m];
      assert [] + lines[..m] == lines[..m];
      if Distinct(lines) && (forall j :: 0 <= j <= 2 + |lines| / (FlushEvery + 1) ==> j !in faults) {
        FlushSucceeds([], lines, faults, 2);
      }
    } else if 0 !in faults {
      assert lines[..0] == [];
    }
  }

  /** Saving rules and loading them back gives the same rules in the same order,
      when every rule has one to nine elements and does not end with "". */
  lemma SavedPolicyLoadsBack(rules: seq<seq<string>>)
    requires forall i :: 0 <= i < |rules| ==> 1 <= |rules[i]| <= SlotCount + 1 && rules[i][|rules[i]| - 1] != ""
    ensures LoadedPolicy(SaveLines(rules)) == Loaded(rules, None)
  {
    var lines := SaveLines(rules);
    forall i | 0 <= i < |rules|
      ensures lines[i] != EmptyRule && TrimTrailing(Fields(lines[i])) == rules[i]
    {
      SavedRuleLoadsBack(rules[i]);
    }
    LoadedPolicyOfEach(lines, rules);
  }

  /** One rule of the policy: its record is not the all-"" one and reads back as the rule. */
  lemma SavedRuleLoadsBack(rule: seq<string>)
    requires 1 <= |rule| <= SlotCount + 1 && rule[|rule| - 1] != ""
    ensures SavePolicyLine(rule[0], rule[1..]) != EmptyRule
    ensures TrimTrailing(Fields(SavePolicyLine(rule[0], rule[1..]))) == rule
  {
    assert [rule[0]] + rule[1..] == rule;
    SaveThenLoad(rule[0], rule[1..]);
  }

  // ------------------------------------------------------------ UpdatePolicies

  /** The client library's UPDATE of one row: given the condition record, the
      record of new values and a row, the row after `Model(&cond).Where(&cond)
      .Updates(new)`. Which rows it touches and which columns it overwrites is
      decided inside the library, so it is a parameter of the model. */
  type Rewrite = (CasbinRule, CasbinRule, CasbinRule) -> CasbinRule

  function Rewritten(recs: seq<CasbinRule>, cond: CasbinRule, newLine: CasbinRule, rewrite: Rewrite): (r: seq<CasbinRule>)
    ensures |r| == |recs| && forall i :: 0 <= i < |recs| ==> r[i] == rewrite(cond, newLine, recs[i])
  {
    seq(|recs|, i requires 0 <= i < |recs| => rewrite(cond, newLine, recs[i]))
  }

  /** One UPDATE statement: a fault, or a result breaking the unique index, changes nothing. */
  function UpdateOne(recs: seq<CasbinRule>, cond: CasbinRule, newLine: CasbinRule, rewrite: Rewrite, fault: bool): Stored
  {
    if fault then Stored(recs, Some(DbFault))
    else
      var r := Rewritten(recs, cond, newLine, rewrite);
      if Distinct(r) then Stored(r, None) else Stored(recs, Some(Duplicate))
  }

  /** The update loop of UpdatePolicies from pair i on (statement i updates pair i). */
  function UpdateEach(recs: seq<CasbinRule>, olds: seq<CasbinRule>, news: seq<CasbinRule>, rewrite: Rewrite,
                      faults: set<nat>, i: nat): Stored
    requires i <= |olds| <= |news|
    decreases |olds| - i
  {
    if i == |olds| then Stored(recs, None)
    else
      var one := UpdateOne(recs, olds[i], news[i], rewrite, i in faults);
      if one.err.Some? then one else UpdateEach(one.recs, olds, news, rewrite, faults, i + 1)
  }

  /** The client's UPDATE leaves alone every row its condition record does not
      match, as `Where(&cond)` restricts it to the rows equal to the condition on
      its non-"" columns. */
  ghost predicate TouchesOnlyMatches(rewrite: Rewrite)
  {
    forall cond, newLine, row :: !Matches(cond, row) ==> rewrite(cond, newLine, row) == row
  }

  /** UpdatePolicy keeps the table's order and, for an UPDATE confined to the rows
      its condition matches, leaves every other record where and as it was. */
  lemma UpdateOneKeepsUnmatched(recs: seq<CasbinRule>, cond: CasbinRule, newLine: CasbinRule, rewrite: Rewrite, fault: bool)
    requires TouchesOnlyMatches(rewrite)
    ensures var r := UpdateOne(recs, cond, newLine, rewrite, fault);
            |r.recs| == |recs| &&
            forall n :: 0 <= n < |recs| && !Matches(cond, recs[n]) ==> r.recs[n] == recs[n]
  {
  }

  /** The update loop, for UPDATEs confined to the rows their condition matches,
      leaves in place every record that none of the remaining old rules matches. */
  lemma {:induction false} UpdateEachKeepsUnmatched(recs: seq<CasbinRule>, olds: seq<CasbinRule>, news: seq<CasbinRule>,
                                                    rewrite: Rewrite, faults: set<nat>, i: nat)
    requires i <= |olds| <= |news| && TouchesOnlyMatches(rewrite)
    ensures var r := UpdateEach(recs, olds, news, rewrite, faults, i);
            |r.recs| == |recs| &&
            forall n :: 0 <= n < |recs| && (forall j :: i <= j < |olds| ==> !Matches(olds[j], recs[n])) ==>
              r.recs[n] == recs[n]
    decreases |olds| - i
  {
    if i < |olds| {
      var one := UpdateOne(recs, olds[i], news[i], rewrite, i in faults);
      UpdateOneKeepsUnmatched(recs, olds[i], news[i], rewrite, i in faults);
      if one.err.None? {
        UpdateEachKeepsUnmatched(one.recs, olds, news, rewrite, faults, i + 1);
      }
    }
  }

  /** UpdatePolicies in one transaction: a failing pair rolls every pair back, and
      so does a failed commit (statement |olds|). */
  function UpdateMany(recs: seq<CasbinRule>, olds: seq<CasbinRule>, news: seq<CasbinRule>, rewrite: Rewrite,
                      faults: set<nat>): Stored
    requires |olds| <= |news|
  {
    var loop := UpdateEach(recs, olds, news, rewrite, faults, 0);
    if loop.err.Some? then Stored(recs, loop.err)
    else if |olds| in faults then Stored(recs, Some(DbFault))
    else loop
  }

  lemma {:induction false} UpdateEachKeepsDistinct(recs: seq<CasbinRule>, olds: seq<CasbinRule>, news: seq<CasbinRule>,
                                                   rewrite: Rewrite, faults: set<nat>, i: nat)
    requires i <= |olds| <= |news| && Distinct(recs)
    ensures Distinct(UpdateEach(recs, olds, news, rewrite, faults, i).recs)
    decreases |olds| - i
  {
    if i < |olds| {
      var one := UpdateOne(recs, olds[i], news[i], rewrite, i in faults);
      if one.err.None? {
        UpdateEachKeepsDistinct(one.recs, olds, news, rewrite, faults, i + 1);
      }
    }
  }

  /** UpdatePolicies is all-or-nothing and never breaks the unique index: on an
      error the records are as before, and what it stores has no duplicates. */
  lemma UpdateManyAllOrNothing(recs: seq<CasbinRule>, olds: seq<CasbinRule>, news: seq<CasbinRule>,
                               rewrite: Rewrite, faults: set<nat>)
    requires |olds| <= |news| && Distinct(recs)
    ensures var r := UpdateMany(recs, olds, news, rewrite, faults);
            (r.err.Some? ==> r.recs == recs) && Distinct(r.recs)
  {
    UpdateEachKeepsDistinct(recs, olds, news, rewrite, faults, 0);
  }

  /** UpdatePolicies, for UPDATEs confined to the rows their condition matches,
      keeps the order of the table and leaves in place every record no old rule
      matches, whether it commits or rolls back. */
  lemma UpdateManyKeepsUnmatched(recs: seq<CasbinRule>, olds: seq<CasbinRule>, news: seq<CasbinRule>,
                                 rewrite: Rewrite, faults: set<nat>)
    requires |olds| <= |news| && TouchesOnlyMatches(rewrite)
    ensures var r := UpdateMany(recs, olds, news, rewrite, faults);
            |r.recs| == |recs| &&
            forall n :: 0 <= n < |recs| && (forall j :: 0 <= j < |olds| ==> !Matches(olds[j], recs[n])) ==>
              r.recs[n] == recs[n]
  {
    UpdateEachKeepsUnmatched(recs, olds, news, rewrite, faults, 0);
  }

  // ---------------------------------------------------- UpdateFilteredPolicies

  /** The records after a filtered replace, the records reported as removed, and the error. */
  datatype Replaced = Replaced(recs: seq<CasbinRule>, removed: seq<CasbinRule>, err: Option<Error>)

  /** One insert per record from record i on, record j as statement k + j; the
      first failure stops. */
  function InsertFrom(recs: seq<CasbinRule>, lines: seq<CasbinRule>, faults: set<nat>, k: nat, i: nat): Stored
    requires i <= |lines|
    decreases |lines| - i
  {
    if i == |lines| then Stored(recs, None)
    else
      var one := Insert(recs, [lines[i]], k + i in faults);
      if one.err.Some? then one else InsertFrom(one.recs, lines, faults, k, i + 1)
  }

  /** Inserting one by one stores all the remaining records when it reports no error. */
  lemma {:induction false} InsertFromStoresAll(recs: seq<CasbinRule>, lines: seq<CasbinRule>, faults: set<nat>, k: nat, i: nat)
    requires i <= |lines|
    ensures InsertFrom(recs, lines, faults, k, i).err.None? ==> InsertFrom(recs, lines, faults, k, i).recs == recs + lines[i..]
    decreases |lines| - i
  {
    if i == |lines| {
      assert recs + lines[i..] == recs;
    } else if k + i !in faults && Distinct(recs + [lines[i]]) {
      InsertFromStoresAll(recs + [lines[i]], lines, faults, k, i + 1);
      assert recs + [lines[i]] + lines[i + 1..] == recs + lines[i..];
    }
  }

  /** Inserting one by one reports no error when the remaining records are distinct
      from the table and each other and no insert faults. */
  lemma {:induction false} InsertFromSucceeds(recs: seq<CasbinRule>, lines: seq<CasbinRule>, faults: set<nat>, k: nat, i: nat)
    requires i <= |lines| && Distinct(recs + lines[i..])
    requires forall j :: k + i <= j < k + |lines| ==> j !in faults
    ensures InsertFrom(recs, lines, faults, k, i).err.None?
    decreases |lines| - i
  {
    if i < |lines| {
      DistinctPrefix(recs, lines[i..], 1);
      assert lines[i..][..1] == [lines[i]];
      assert recs + [lines[i]] + lines[i + 1..] == recs + lines[i..];
      InsertFromSucceeds(recs + [lines[i]], lines, faults, k, i + 1);
    }
  }

  /** UpdateFilteredPolicies with the select and delete issued once, before the
      inserts: statement 0 selects the rows the offset record `line` matches,
      statement 1 deletes them, statements 2.. insert the new records one by one,
      and the commit is statement 2 + |newLines|. Any failure rolls back; only a
      failed commit still reports the selected rows, as the code returns them with
      the commit's error. With no new records there is no iteration, as in the
      code: nothing is selected or deleted, and the commit is statement 0. */
  function UpdateFiltered(recs: seq<CasbinRule>, line: CasbinRule, newLines: seq<CasbinRule>, faults: set<nat>): Replaced
  {
    if newLines == [] then Replaced(recs, [], if 0 in faults then Some(DbFault) else None)
    else if 0 in faults || 1 in faults then Replaced(recs, [], Some(DbFault))
    else
      var ins := InsertFrom(Without(recs, line), newLines, faults, 2, 0);
      if ins.err.Some? then Replaced(recs, [], ins.err)
      else if 2 + |newLines| in faults then Replaced(recs, Selected(recs, line), Some(DbFault))
      else Replaced(ins.recs, Selected(recs, line), None)
  }

  /** A filtered replace with new records swaps exactly the matching records for
      the new ones and reports the swapped-out records; with none it changes and
      reports nothing; every old record is either kept or reported; on an error
      nothing changes; and it succeeds whenever no statement faults and the new
      records are distinct from the kept ones and each other. */
  lemma UpdateFilteredReplaces(recs: seq<CasbinRule>, line: CasbinRule, newLines: seq<CasbinRule>, faults: set<nat>)
    ensures var r := UpdateFiltered(recs, line, newLines, faults);
            (newLines != [] && r.err.None? ==> r.recs == Without(recs, line) + newLines && r.removed == Selected(recs, line)) &&
            (newLines == [] ==> r.recs == recs && r.removed == []) &&
            (r.err.Some? ==> r.recs == recs) &&
            multiset(Selected(recs, line)) + multiset(Without(recs, line)) == multiset(recs)
    ensures (forall j :: 0 <= j <= 2 + |newLines| ==> j !in faults) && Distinct(Without(recs, line) + newLines) ==>
              UpdateFiltered(recs, line, newLines, faults).err.None?
  {
    InsertFromStoresAll(Without(recs, line), newLines, faults, 2, 0);
    assert newLines[0..] == newLines;
    if (forall j :: 0 <= j <= 2 + |newLines| ==> j !in faults) && Distinct(Without(recs, line) + newLines) {
      InsertFromSucceeds(Without(recs, line), newLines, faults, 2, 0);
    }
    KeepPartition(recs, line);
  }

  /** The loop of UpdateFilteredPolicies as adapter.go writes it, from iteration i
      on: every iteration selects (statement 3i), deletes (3i + 1) and inserts
      (3i + 2) afresh, so a new record the filter matches is deleted again by the
      next iteration. `findAppends` says whether the client's Find adds the rows it
      reads to `oldP` or replaces `oldP` with them. */
  function ReplaceLoopAsWritten(recs: seq<CasbinRule>, line: CasbinRule, newLines: seq<CasbinRule>, i: nat,
                                oldP: seq<CasbinRule>, faults: set<nat>, findAppends: bool): Replaced
    requires i <= |newLines|
    decreases |newLines| - i
  {
    if i == |newLines| then Replaced(recs, oldP, None)
    else if 3 * i in faults then Replaced(recs, oldP, Some(DbFault))
    else
      var found := Selected(recs, line);
      var oldP' := if findAppends then oldP + found else found;
      if 3 * i + 1 in faults then Replaced(recs, oldP', Some(DbFault))
      else
        var one := Insert(Without(recs, line), [newLines[i]], 3 * i + 2 in faults);
        if one.err.Some? then Replaced(one.recs, oldP', one.err)
        else ReplaceLoopAsWritten(one.recs, line, newLines, i + 1, oldP', faults, findAppends)
  }

  /** UpdateFilteredPolicies as written: the loop inside one transaction; a failure
      rolls back and reports nothing removed; the commit is statement 3|newLines|. */
  function UpdateFilteredAsWritten(recs: seq<CasbinRule>, line: CasbinRule, newLines: seq<CasbinRule>,
                                   faults: set<nat>, findAppends: bool): Replaced
  {
    var loop := ReplaceLoopAsWritten(recs, line, newLines, 0, [], faults, findAppends);
    if loop.err.Some? then Replaced(recs, [], loop.err)
    else if 3 * |newLines| in faults then Replaced(recs, loop.removed, Some(DbFault))
    else loop
  }

  /** With no new records the corrected replace and the code as written agree:
      the loop never runs, so nothing is selected, deleted or reported. */
  lemma UpdateFilteredNothingNew(recs: seq<CasbinRule>, line: CasbinRule, faults: set<nat>, findAppends: bool)
    ensures UpdateFiltered(recs, line, [], faults) == UpdateFilteredAsWritten(recs, line, [], faults, findAppends)
    ensures UpdateFiltered(recs, line, [], faults).recs == recs && UpdateFiltered(recs, line, [], faults).removed == []
  {
  }

  /** The alice rules of the example below: the stored one and the two new ones. */
  const Alice1 := CasbinRule("p", "alice", "data1", "read", "", "", "", "", "")
  const Alice2 := CasbinRule("p", "alice", "data2", "read", "", "", "", "", "")
  const Alice3 := CasbinRule("p", "alice", "data3", "read", "", "", "", "", "")

  /** The offset filter V0 = "alice" selects each alice rule. */
  lemma AliceFilterMatches()
    ensures OffsetLine("p", 0, ["alice"]) == CasbinRule("p", "alice", "", "", "", "", "", "", "")
    ensures Selected([Alice1], OffsetLine("p", 0, ["alice"])) == [Alice1]
    ensures Without([Alice1], OffsetLine("p", 0, ["alice"])) == []
    ensures Selected([Alice2], OffsetLine("p", 0, ["alice"])) == [Alice2]
    ensures Without([Alice2], OffsetLine("p", 0, ["alice"])) == []
  {
    var line := OffsetLine("p", 0, ["alice"]);
    assert line == CasbinRule("p", "alice", "", "", "", "", "", "", "");
    AliceAloneMatches(Alice1);
    AliceAloneMatches(Alice2);
    SelectOne(Alice1, line);
    SelectOne(Alice2, line);
  }

  /** The filter V0 = "alice" matches every "p" rule of alice. */
  lemma AliceAloneMatches(r: CasbinRule)
    requires r.ptype == "p" && r.v0 == "alice"
    ensures Matches(CasbinRule("p", "alice", "", "", "", "", "", "", ""), r)
  {
    var line := CasbinRule("p", "alice", "", "", "", "", "", "", "");
    assert Fields(line) == ["p", "alice", "", "", "", "", "", "", ""];
    forall i | 1 <= i <= SlotCount && Fields(line)[i] != "" ensures i == 1 { }
  }

  /** Replacing alice's rules (offset filter V0 = "alice") by two new alice rules,
      as adapter.go writes it: only the last new rule is kept and, when Find
      replaces its target, the first new rule is reported as the removed one. */
  lemma UpdateFilteredAsWrittenDropsNewRules(findAppends: bool)
    ensures UpdateFilteredAsWritten([Alice1], OffsetLine("p", 0, ["alice"]), [Alice2, Alice3], {}, findAppends) ==
              Replaced([Alice3], if findAppends then [Alice1, Alice2] else [Alice2], None)
  {
    AliceFilterMatches();
    var line := OffsetLine("p", 0, ["alice"]);
    var news := [Alice2, Alice3];
    assert [] + [Alice2] == [Alice2] && [] + [Alice3] == [Alice3];
    assert Distinct([Alice2]) && Distinct([Alice3]);
    var first := if findAppends then [] + [Alice1] else [Alice1];
    assert first == [Alice1];
    var second := if findAppends then [Alice1] + [Alice2] else [Alice2];
    assert ReplaceLoopAsWritten([Alice1], line, news, 0, [], {}, findAppends) ==
           ReplaceLoopAsWritten([Alice2], line, news, 1, [Alice1], {}, findAppends);
    assert ReplaceLoopAsWritten([Alice2], line, news, 1, [Alice1], {}, findAppends) ==
           ReplaceLoopAsWritten([Alice3], line, news, 2, second, {}, findAppends);
  }

  /** The same replace with the select and delete issued once stores both new
      rules and reports the original one. */
  lemma UpdateFilteredKeepsNewRules()
    ensures UpdateFiltered([Alice1], OffsetLine("p", 0, ["alice"]), [Alice2, Alice3], {}) ==
              Replaced([Alice2, Alice3], [Alice1], None)
  {
    AliceFilterMatches();
    assert [] + [Alice2, Alice3] == [Alice2, Alice3] && Distinct([Alice2, Alice3]);
    UpdateFilteredReplaces([Alice1], OffsetLine("p", 0, ["alice"]), [Alice2, Alice3], {});
  }
}
