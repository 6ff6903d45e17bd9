/** The predicate builders of adapter.go: the equality predicate over ptype and the
    non-empty slots (rawDelete, appendWhere and queryString), the offset window of
    RemoveFilteredPolicy and UpdateFilteredPolicies, checkQueryField, and the
    `col in (?)` clauses of filterQuery. */
module Queries {
  import opened Errors
  import opened Rules

  /** Column names in table order. */
  function ColumnName(c: nat): string
    requires c <= SlotCount
  {
    ["ptype", "v0", "v1", "v2", "v3", "v4", "v5", "v6", "v7"][c]
  }

  /** The clause `col = ?` for column c. */
  function EqClause(c: nat): string
    requires c <= SlotCount
  {
    ColumnName(c) + " = ?"
  }

  predicate ValidColumns(cols: seq<nat>)
  {
    forall k :: 0 <= k < |cols| ==> cols[k] <= SlotCount
  }

  /** The columns from i onward whose value is not "". */
  function NonEmptyColumns(f: seq<string>, i: nat): (cols: seq<nat>)
    requires |f| == SlotCount + 1 && 1 <= i <= |f|
    ensures ValidColumns(cols)
    decreases |f| - i
  {
    if i == |f| then []
    else if f[i] != "" then [i] + NonEmptyColumns(f, i + 1)
    else NonEmptyColumns(f, i + 1)
  }

  /** NonEmptyColumns lists, in increasing order, exactly the columns from i on
      whose value is not "". */
  lemma {:induction false} NonEmptyColumnsSpec(f: seq<string>, i: nat)
    requires |f| == SlotCount + 1 && 1 <= i <= |f|
    ensures var cols := NonEmptyColumns(f, i);
            (forall k :: 0 <= k < |cols| ==> i <= cols[k] && f[cols[k]] != "") &&
            (forall c :: i <= c < |f| && f[c] != "" ==> c in cols) &&
            (forall k, l :: 0 <= k < l < |cols| ==> cols[k] < cols[l])
    decreases |f| - i
  {
    if i < |f| {
      NonEmptyColumnsSpec(f, i + 1);
      var rest := NonEmptyColumns(f, i + 1);
      if f[i] != "" {
        var cols := [i] + rest;
        assert forall k :: 1 <= k < |cols| ==> cols[k] == rest[k - 1];
      }
    }
  }

  /** The columns the equality predicate of `line` constrains: ptype, then each
      slot whose value is not "", in column order. */
  function EqColumns(line: CasbinRule): (cols: seq<nat>)
    ensures |cols| >= 1 && cols[0] == 0 && ValidColumns(cols)
  {
    [0] + NonEmptyColumns(Fields(line), 1)
  }

  /** The clause ` and col = ?` appended for a constrained slot. */
  function AndClause(c: nat): string
    requires c <= SlotCount
  {
    " and " + EqClause(c)
  }

  /** ` and c1 = ? and c2 = ? ...` */
  function AndClauses(cols: seq<nat>): string
    requires ValidColumns(cols)
  {
    if cols == [] then "" else AndClause(cols[0]) + AndClauses(cols[1..])
  }

  /** The SQL text `c0 = ? and c1 = ? ...` of a conjunction of equalities. */
  function Render(cols: seq<nat>): string
    requires |cols| >= 1 && ValidColumns(cols)
  {
    EqClause(cols[0]) + AndClauses(cols[1..])
  }

  /** The positional arguments for `cols`: each column's value, in the same order. */
  function Project(f: seq<string>, cols: seq<nat>): (args: seq<string>)
    requires forall k :: 0 <= k < |cols| ==> cols[k] < |f|
    ensures |args| == |cols| && forall k :: 0 <= k < |cols| ==> args[k] == f[cols[k]]
  {
    seq(|cols|, k requires 0 <= k < |cols| => f[cols[k]])
  }

  /** The conditional appends of appendWhere for columns i..8, onto `query` and `args`. */
  function AppendFrom(f: seq<string>, i: nat, query: string, args: seq<string>): (string, seq<string>)
    requires |f| == SlotCount + 1 && 1 <= i <= |f|
    decreases |f| - i
  {
    if i == |f| then (query, args)
    else if f[i] != "" then AppendFrom(f, i + 1, query + AndClause(i), args + [f[i]])
    else AppendFrom(f, i + 1, query, args)
  }

  lemma AndClausesCons(c: nat, rest: seq<nat>)
    requires c <= SlotCount && ValidColumns(rest)
    ensures ValidColumns([c] + rest)
    ensures AndClauses([c] + rest) == AndClause(c) + AndClauses(rest)
  {
    assert ([c] + rest)[1..] == rest;
  }

  lemma ProjectCons(f: seq<string>, c: nat, rest: seq<nat>)
    requires c < |f| && forall k :: 0 <= k < |rest| ==> rest[k] < |f|
    ensures Project(f, [c] + rest) == [f[c]] + Project(f, rest)
  {
  }

  lemma {:induction false} AppendFromSpec(f: seq<string>, i: nat, query: string, args: seq<string>)
    requires |f| == SlotCount + 1 && 1 <= i <= |f|
    ensures var cols := NonEmptyColumns(f, i);
            AppendFrom(f, i, query, args) == (query + AndClauses(cols), args + Project(f, cols))
    decreases |f| - i
  {
    if i == |f| {
      assert query + AndClauses([]) == query;
      assert args + Project(f, []) == args;
    } else if f[i] != "" {
      var rest := NonEmptyColumns(f, i + 1);
      var q := query + AndClause(i);
      AppendFromSpec(f, i + 1, q, args + [f[i]]);
      AndClausesCons(i, rest);
      ProjectCons(f, i, rest);
      assert q + AndClauses(rest) == query + (AndClause(i) + AndClauses(rest));
      assert args + [f[i]] + Project(f, rest) == args + ([f[i]] + Project(f, rest));
    } else {
      AppendFromSpec(f, i + 1, query, args);
    }
  }

  /** The appends of appendWhere, started from `ptype = ?` and the type, produce
      the rendering and the projection of the constrained columns. */
  lemma AppendWhereShape(line: CasbinRule)
    ensures AppendFrom(Fields(line), 1, "ptype = ?", [line.ptype]) ==
              (Render(EqColumns(line)), Project(Fields(line), EqColumns(line)))
  {
    var f := Fields(line);
    var rest := NonEmptyColumns(f, 1);
    AppendFromSpec(f, 1, "ptype = ?", [line.ptype]);
    ProjectCons(f, 0, rest);
    assert ([0] + rest)[1..] == rest;
    assert EqClause(0) == "ptype = ?";
  }

  /** appendWhere (and the identical builders rawDelete and queryString): the
      query is `ptype = ?` followed by ` and vi = ?` for exactly the non-empty
      slots in column order, and the arguments are ptype followed by those values
      in the same order. */
  function AppendWhere(line: CasbinRule): (w: (string, seq<string>))
    ensures w.0 == Render(EqColumns(line))
    ensures w.1 == Project(Fields(line), EqColumns(line))
  {
    AppendWhereShape(line);
    AppendFrom(Fields(line), 1, "ptype = ?", [line.ptype])
  }

  /** Occurrences of `ch` in `s`. */
  function Count(s: string, ch: char): nat
  {
    if s == [] then 0 else (if s[0] == ch then 1 else 0) + Count(s[1..], ch)
  }

  lemma {:induction false} CountAppend(a: string, b: string, ch: char)
    ensures Count(a + b, ch) == Count(a, ch) + Count(b, ch)
  {
    if a == [] {
      assert a + b == b;
    } else {
      assert (a + b)[0] == a[0];
      assert (a + b)[1..] == a[1..] + b;
      CountAppend(a[1..], b, ch);
    }
  }

  lemma EqClauseHasOnePlaceholder(c: nat)
    requires c <= SlotCount
    ensures Count(EqClause(c), '?') == 1
  {
    CountAppend(ColumnName(c), " = ?", '?');
    assert Count(" = ?", '?') == 1;
    assert Count(ColumnName(c), '?') == 0;
  }

  lemma {:induction false} AndClausesPlaceholders(cols: seq<nat>)
    requires ValidColumns(cols)
    ensures Count(AndClauses(cols), '?') == |cols|
  {
    if cols != [] {
      CountAppend(" and ", EqClause(cols[0]), '?');
      CountAppend(AndClause(cols[0]), AndClauses(cols[1..]), '?');
      assert Count(" and ", '?') == 0;
      EqClauseHasOnePlaceholder(cols[0]);
      AndClausesPlaceholders(cols[1..]);
    }
  }

  /** The query appendWhere builds has exactly one `?` per positional argument. */
  lemma PlaceholdersMatchArguments(line: CasbinRule)
    ensures Count(AppendWhere(line).0, '?') == |AppendWhere(line).1|
  {
    var cols := EqColumns(line);
    CountAppend(EqClause(cols[0]), AndClauses(cols[1..]), '?');
    EqClauseHasOnePlaceholder(cols[0]);
    AndClausesPlaceholders(cols[1..]);
  }

  lemma {:induction false} NonEmptyColumnsOfBlank(f: seq<string>, i: nat)
    requires |f| == SlotCount + 1 && 1 <= i <= |f|
    requires forall c :: i <= c < |f| ==> f[c] == ""
    ensures NonEmptyColumns(f, i) == []
    decreases |f| - i
  {
    if i < |f| {
      NonEmptyColumnsOfBlank(f, i + 1);
    }
  }

  /** A record with only its type set gives the one-clause predicate `ptype = ?`. */
  lemma OnlyPtypeGivesOneClause(ptype: string)
    ensures AppendWhere(SavePolicyLine(ptype, [])) == ("ptype = ?", [ptype])
  {
    var line := SavePolicyLine(ptype, []);
    var f := Fields(line);
    assert forall c :: 1 <= c < |f| ==> f[c] == "";
    NonEmptyColumnsOfBlank(f, 1);
    assert EqColumns(line) == [0];
    assert [0][1..] == [];
    assert ColumnName(0) == "ptype";
    assert Render([0]) == "ptype = ?";
    assert Project(f, [0]) == [ptype];
  }

  /** A row satisfies `c0 = ? and c1 = ? ...` bound to `args`. */
  predicate WhereHolds(cols: seq<nat>, args: seq<string>, row: CasbinRule)
    requires ValidColumns(cols) && |cols| == |args|
  {
    forall k :: 0 <= k < |cols| ==> Fields(row)[cols[k]] == args[k]
  }

  /** Wildcard matching: the same type, and each non-empty slot of `line` equal in `row`. */
  predicate Matches(line: CasbinRule, row: CasbinRule)
  {
    row.ptype == line.ptype &&
    forall i :: 1 <= i <= SlotCount && Fields(line)[i] != "" ==> Fields(row)[i] == Fields(line)[i]
  }

  lemma AppendWhereComplete(line: CasbinRule, row: CasbinRule)
    requires Matches(line, row)
    ensures WhereHolds(EqColumns(line), AppendWhere(line).1, row)
  {
    var cols := EqColumns(line);
    var f := Fields(line);
    var args := AppendWhere(line).1;
    NonEmptyColumnsSpec(f, 1);
    forall k | 0 <= k < |cols| ensures Fields(row)[cols[k]] == args[k] {
      if k > 0 {
        assert cols[k] in NonEmptyColumns(f, 1) by {
          assert cols[k] == NonEmptyColumns(f, 1)[k - 1];
        }
      }
    }
  }

  /** Where column c (a non-empty slot from i on) sits in NonEmptyColumns(f, i). */
  lemma {:induction false} NonEmptyColumnPosition(f: seq<string>, i: nat, c: nat) returns (k: nat)
    requires |f| == SlotCount + 1 && 1 <= i <= c < |f| && f[c] != ""
    ensures k < |NonEmptyColumns(f, i)| && NonEmptyColumns(f, i)[k] == c
    decreases c - i
  {
    if c == i {
      k := 0;
    } else {
      var j := NonEmptyColumnPosition(f, i + 1, c);
      k := if f[i] != "" then j + 1 else j;
    }
  }

  lemma AppendWhereSound(line: CasbinRule, row: CasbinRule)
    requires WhereHolds(EqColumns(line), AppendWhere(line).1, row)
    ensures Matches(line, row)
  {
    var cols := EqColumns(line);
    var f := Fields(line);
    var args := AppendWhere(line).1;
    assert Fields(row)[0] == args[0];
    forall i | 1 <= i <= SlotCount && f[i] != "" ensures Fields(row)[i] == f[i] {
      var k := NonEmptyColumnPosition(f, 1, i);
      assert cols[k + 1] == i;
    }
  }

  /** The predicate appendWhere builds selects exactly the rows `line` matches with
      its "" slots read as wildcards. */
  lemma AppendWhereMeansMatches(line: CasbinRule, row: CasbinRule)
    ensures WhereHolds(EqColumns(line), AppendWhere(line).1, row) <==> Matches(line, row)
  {
    if Matches(line, row) {
      AppendWhereComplete(line, row);
    }
    if WhereHolds(EqColumns(line), AppendWhere(line).1, row) {
      AppendWhereSound(line, row);
    }
  }

  /** A record with only its type set matches every row of that type: deleting by it
      deletes by ptype alone. */
  lemma PtypeOnlyMatches(ptype: string, row: CasbinRule)
    ensures Matches(SavePolicyLine(ptype, []), row) <==> row.ptype == ptype
  {
    var f := Fields(SavePolicyLine(ptype, []));
    assert forall i :: 1 <= i < |f| ==> f[i] == "";
  }

  /** The value the offset window puts in slot Vi: fieldValues[i - fieldIndex] when
      fieldIndex <= i < fieldIndex + |fieldValues|, otherwise "" (a wildcard). */
  function Window(i: nat, fieldIndex: int, fieldValues: seq<string>): string
  {
    if fieldIndex <= i && i < fieldIndex + |fieldValues| then fieldValues[i - fieldIndex] else ""
  }

  /** The record RemoveFilteredPolicy and UpdateFilteredPolicies build from the
      offset filter: type `ptype`, slot Vi from the window, every index in bounds. */
  function OffsetLine(ptype: string, fieldIndex: int, fieldValues: seq<string>): (line: CasbinRule)
    ensures line.ptype == ptype
    ensures forall j :: 1 <= j <= SlotCount ==>
              Fields(line)[j] == if fieldIndex <= j - 1 < fieldIndex + |fieldValues| then fieldValues[j - 1 - fieldIndex] else ""
  {
    CasbinRule(ptype, Window(0, fieldIndex, fieldValues), Window(1, fieldIndex, fieldValues),
               Window(2, fieldIndex, fieldValues), Window(3, fieldIndex, fieldValues),
               Window(4, fieldIndex, fieldValues), Window(5, fieldIndex, fieldValues),
               Window(6, fieldIndex, fieldValues), Window(7, fieldIndex, fieldValues))
  }

  /** The rule the offset window amounts to: the values padded with fieldIndex
      blanks in front when fieldIndex >= 0, with the first -fieldIndex values
      dropped when it is negative. */
  function ShiftedRule(fieldIndex: int, fieldValues: seq<string>): seq<string>
  {
    if fieldIndex >= 0 then Blanks(fieldIndex) + fieldValues
    else fieldValues[(if -fieldIndex <= |fieldValues| then -fieldIndex else |fieldValues|)..]
  }

  lemma WindowIsSlot(i: nat, fieldIndex: int, fieldValues: seq<string>)
    ensures Window(i, fieldIndex, fieldValues) == Slot(ShiftedRule(fieldIndex, fieldValues), i)
  {
  }

  /** The offset window is savePolicyLine of the values shifted into place. */
  lemma OffsetLineIsShiftedRule(ptype: string, fieldIndex: int, fieldValues: seq<string>)
    ensures fieldIndex >= 0 ==>
              OffsetLine(ptype, fieldIndex, fieldValues) == SavePolicyLine(ptype, Blanks(fieldIndex) + fieldValues)
    ensures fieldIndex < 0 ==>
              var drop := if -fieldIndex <= |fieldValues| then -fieldIndex else |fieldValues|;
              OffsetLine(ptype, fieldIndex, fieldValues) == SavePolicyLine(ptype, fieldValues[drop..])
  {
    WindowIsSlot(0, fieldIndex, fieldValues);
    WindowIsSlot(1, fieldIndex, fieldValues);
    WindowIsSlot(2, fieldIndex, fieldValues);
    WindowIsSlot(3, fieldIndex, fieldValues);
    WindowIsSlot(4, fieldIndex, fieldValues);
    WindowIsSlot(5, fieldIndex, fieldValues);
    WindowIsSlot(6, fieldIndex, fieldValues);
    WindowIsSlot(7, fieldIndex, fieldValues);
  }

  /** Deleting by the offset window removes exactly the rows of type `ptype` that
      agree with every non-empty value whose column falls inside V0..V7; "" values
      and values outside the eight slots constrain nothing. */
  lemma OffsetLineMatches(ptype: string, fieldIndex: int, fieldValues: seq<string>, row: CasbinRule)
    ensures Matches(OffsetLine(ptype, fieldIndex, fieldValues), row) <==>
            row.ptype == ptype &&
            forall k :: 0 <= k < |fieldValues| && 0 <= fieldIndex + k < SlotCount && fieldValues[k] != "" ==>
              Fields(row)[fieldIndex + k + 1] == fieldValues[k]
  {
    var line := OffsetLine(ptype, fieldIndex, fieldValues);
    if Matches(line, row) {
      forall k | 0 <= k < |fieldValues| && 0 <= fieldIndex + k < SlotCount && fieldValues[k] != ""
        ensures Fields(row)[fieldIndex + k + 1] == fieldValues[k]
      {
        var j := fieldIndex + k + 1;
        assert Fields(line)[j] == fieldValues[k];
      }
    }
  }

  /** The window's columns V0..V7 hold a non-"" value exactly when some non-""
      value of `fieldValues` falls inside them: values placed before V0 or past V7
      leave no trace in the record. */
  lemma OffsetLineBlank(ptype: string, fieldIndex: int, fieldValues: seq<string>)
    ensures var v := Fields(OffsetLine(ptype, fieldIndex, fieldValues))[1..];
            (exists i :: 0 <= i < |v| && v[i] != "") <==>
            (exists k :: 0 <= k < |fieldValues| && 0 <= fieldIndex + k < SlotCount && fieldValues[k] != "")
  {
    var f := Fields(OffsetLine(ptype, fieldIndex, fieldValues));
    var v := f[1..];
    if exists i :: 0 <= i < |v| && v[i] != "" {
      var i :| 0 <= i < |v| && v[i] != "";
      assert v[i] == f[i + 1];
      var k := i - fieldIndex;
      assert 0 <= k < |fieldValues| && 0 <= fieldIndex + k < SlotCount && fieldValues[k] != "";
    }
    if exists k :: 0 <= k < |fieldValues| && 0 <= fieldIndex + k < SlotCount && fieldValues[k] != "" {
      var k :| 0 <= k < |fieldValues| && 0 <= fieldIndex + k < SlotCount && fieldValues[k] != "";
      assert v[fieldIndex + k] == f[fieldIndex + k + 1];
    }
  }

  /** A non-"" value that lands in V0..V7 keeps the window from matching the
      type's record with every column "". */
  lemma OffsetLineNotBlank(ptype: string, fieldIndex: int, fieldValues: seq<string>, k: nat)
    requires k < |fieldValues| && 0 <= fieldIndex + k < SlotCount && fieldValues[k] != ""
    ensures OffsetLine(ptype, fieldIndex, fieldValues) != SavePolicyLine(ptype, [])
    ensures !Matches(OffsetLine(ptype, fieldIndex, fieldValues), SavePolicyLine(ptype, []))
  {
    var line := OffsetLine(ptype, fieldIndex, fieldValues);
    var blank := SavePolicyLine(ptype, []);
    var j := fieldIndex + k + 1;
    assert Fields(line)[j] == fieldValues[k];
    assert Fields(blank)[j] == Padded([])[j - 1] == "";
  }

  /** checkQueryField: no error exactly when some value is not "" (so the empty
      list is rejected too). */
  function CheckQueryField(fieldValues: seq<string>): (err: Option<Error>)
    ensures err.None? <==> exists i :: 0 <= i < |fieldValues| && fieldValues[i] != ""
    ensures err.Some? ==> err.value == EmptyFieldValues
  {
    if fieldValues == [] then Some(EmptyFieldValues)
    else if fieldValues[0] != "" then None
    else
      var rest := CheckQueryField(fieldValues[1..]);
      assert forall i :: 1 <= i < |fieldValues| ==> fieldValues[i] == fieldValues[1..][i - 1];
      rest
  }

  /** The read-side filter: for each column, the accepted values ([] accepts all). */
  datatype Filter = Filter(
    ptype: seq<string>,
    v0: seq<string>, v1: seq<string>, v2: seq<string>, v3: seq<string>,
    v4: seq<string>, v5: seq<string>, v6: seq<string>, v7: seq<string>)

  function FilterLists(filter: Filter): (lists: seq<seq<string>>)
    ensures |lists| == SlotCount + 1
  {
    [filter.ptype, filter.v0, filter.v1, filter.v2, filter.v3, filter.v4, filter.v5, filter.v6, filter.v7]
  }

  /** One `col in (?)` clause bound to its list of values. */
  datatype InClause = In(column: nat, values: seq<string>)

  /** The clauses for columns i..8 whose list is non-empty. */
  function InClausesFrom(lists: seq<seq<string>>, i: nat): (clauses: seq<InClause>)
    requires |lists| == SlotCount + 1 && i <= |lists|
    ensures |clauses| <= |lists| - i
    decreases |lists| - i
  {
    if i == |lists| then []
    else if lists[i] != [] then [In(i, lists[i])] + InClausesFrom(lists, i + 1)
    else InClausesFrom(lists, i + 1)
  }

  /** The clauses from column i on are exactly one per non-empty list, each bound
      to its list, in increasing column order. */
  lemma {:induction false} InClausesFromSpec(lists: seq<seq<string>>, i: nat)
    requires |lists| == SlotCount + 1 && i <= |lists|
    ensures var clauses := InClausesFrom(lists, i);
            (forall cl :: cl in clauses ==> i <= cl.column < |lists| && cl.values == lists[cl.column] && cl.values != []) &&
            (forall c :: i <= c < |lists| && lists[c] != [] ==> In(c, lists[c]) in clauses) &&
            (forall k, l :: 0 <= k < l < |clauses| ==> clauses[k].column < clauses[l].column)
    decreases |lists| - i
  {
    if i < |lists| {
      InClausesFromSpec(lists, i + 1);
      var rest := InClausesFrom(lists, i + 1);
      if lists[i] != [] {
        var clauses := [In(i, lists[i])] + rest;
        assert forall k :: 1 <= k < |clauses| ==> clauses[k] == rest[k - 1];
      }
    }
  }

  /** filterQuery: one `col in (?)` clause per column whose list is non-empty, in
      column order, each bound to exactly that list; empty lists add no clause. */
  function FilterQuery(filter: Filter): (clauses: seq<InClause>)
    ensures forall cl :: cl in clauses ==>
              cl.column <= SlotCount && cl.values == FilterLists(filter)[cl.column] && cl.values != []
    ensures forall c :: 0 <= c <= SlotCount && FilterLists(filter)[c] != [] ==>
              In(c, FilterLists(filter)[c]) in clauses
    ensures forall k, l :: 0 <= k < l < |clauses| ==> clauses[k].column < clauses[l].column
  {
    InClausesFromSpec(FilterLists(filter), 0);
    InClausesFrom(FilterLists(filter), 0)
  }

  /** A row satisfies every `col in (values)` clause. */
  predicate InHolds(clauses: seq<InClause>, row: CasbinRule)
  {
    forall k :: 0 <= k < |clauses| ==> clauses[k].column <= SlotCount && Fields(row)[clauses[k].column] in clauses[k].values
  }

  /** A row passes the filter: in each column with a non-empty list, its value is in the list. */
  predicate FilterMatches(filter: Filter, row: CasbinRule)
  {
    forall c :: 0 <= c <= SlotCount && FilterLists(filter)[c] != [] ==> Fields(row)[c] in FilterLists(filter)[c]
  }

  /** The query filterQuery builds selects exactly the rows the filter accepts. */
  lemma FilterQuerySelects(filter: Filter, row: CasbinRule)
    ensures InHolds(FilterQuery(filter), row) <==> FilterMatches(filter, row)
  {
    var clauses := FilterQuery(filter);
    if InHolds(clauses, row) {
      forall c | 0 <= c <= SlotCount && FilterLists(filter)[c] != []
        ensures Fields(row)[c] in FilterLists(filter)[c]
      {
        var k :| 0 <= k < |clauses| && clauses[k] == In(c, FilterLists(filter)[c]);
      }
    }
  }

  lemma {:induction false} InClausesFromEmpty(lists: seq<seq<string>>, i: nat)
    requires |lists| == SlotCount + 1 && i <= |lists|
    requires forall c :: i <= c < |lists| ==> lists[c] == []
    ensures InClausesFrom(lists, i) == []
    decreases |lists| - i
  {
    if i < |lists| {
      InClausesFromEmpty(lists, i + 1);
    }
  }

  /** A filter with every list empty builds no clause and so loads every row. */
  lemma EmptyFilterSelectsAll(filter: Filter, row: CasbinRule)
    requires filter == Filter([], [], [], [], [], [], [], [], [])
    ensures FilterQuery(filter) == []
    ensures FilterMatches(filter, row)
  {
    InClausesFromEmpty(FilterLists(filter), 0);
  }
}
