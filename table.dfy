/** The database table behind the adapter, as the adapter sees it: rows in ID
    order under the unique index over (ptype, v0..v7) that createTable installs,
    and the specification functions the adapter's operations are proved against. */
module Table {
  import opened Errors
  import opened Rules
  import opened Queries

  /** One row: its auto-increment ID and its nine columns. */
  datatype Row = Row(id: nat, rule: CasbinRule)

  /** The records of `rows`, in the same order. */
  function RecordsOf(rows: seq<Row>): (recs: seq<CasbinRule>)
    ensures |recs| == |rows| && forall i :: 0 <= i < |rows| ==> recs[i] == rows[i].rule
  {
    seq(|rows|, i requires 0 <= i < |rows| => rows[i].rule)
  }

  /** No record occurs twice: what the unique index over the nine columns enforces. */
  predicate Distinct(recs: seq<CasbinRule>)
  {
    forall i, j :: 0 <= i < j < |recs| ==> recs[i] != recs[j]
  }

  /** The table's invariant: IDs strictly increase along the sequence (so its order
      is `ORDER BY ID`), every ID is below the next one handed out, and the unique
      index holds. */
  ghost predicate TableInvariant(rows: seq<Row>, nextId: nat)
  {
    (forall i, j :: 0 <= i < j < |rows| ==> rows[i].id < rows[j].id && rows[i].rule != rows[j].rule) &&
    (forall i :: 0 <= i < |rows| ==> rows[i].id < nextId)
  }

  lemma InvariantDistinct(rows: seq<Row>, nextId: nat)
    requires TableInvariant(rows, nextId)
    ensures Distinct(RecordsOf(rows))
  {
  }

  /** The first row comes before, and differs from, every later row. */
  lemma HeadFirst(rows: seq<Row>, nextId: nat)
    requires TableInvariant(rows, nextId) && rows != []
    ensures TableInvariant(rows[1..], nextId)
    ensures forall r :: r in rows[1..] ==> rows[0].id < r.id && rows[0].rule != r.rule
  {
    forall r | r in rows[1..] ensures rows[0].id < r.id && rows[0].rule != r.rule {
      var m :| 0 <= m < |rows[1..]| && rows[1..][m] == r;
      assert rows[m + 1] == r;
    }
  }

  /** The conditions rows are selected or deleted by. */
  datatype Condition =
    | Matching(line: CasbinRule)               // the equality predicate appendWhere builds for line
    | NotMatching(line: CasbinRule)            // the rows a delete by line leaves
    | Passing(filter: Filter)                  // the `in` clauses filterQuery builds
    | MatchingNone(lines: seq<CasbinRule>)     // the rows deletes by each of lines leave

  predicate Holds(cond: Condition, r: CasbinRule)
  {
    match cond
    case Matching(line) => Matches(line, r)
    case NotMatching(line) => !Matches(line, r)
    case Passing(filter) => FilterMatches(filter, r)
    case MatchingNone(lines) => forall l :: l in lines ==> !Matches(l, r)
  }

  /** The records satisfying `cond`, in their order. */
  function Keep(recs: seq<CasbinRule>, cond: Condition): (kept: seq<CasbinRule>)
    ensures forall r :: r in kept <==> r in recs && Holds(cond, r)
  {
    if recs == [] then []
    else (if Holds(cond, recs[0]) then [recs[0]] else []) + Keep(recs[1..], cond)
  }

  lemma KeepCons(r: CasbinRule, recs: seq<CasbinRule>, cond: Condition)
    ensures Keep([r] + recs, cond) == (if Holds(cond, r) then [r] else []) + Keep(recs, cond)
  {
    assert ([r] + recs)[1..] == recs;
  }

  /** Filtering by one condition and then another filters by their conjunction. */
  lemma {:induction false} KeepTwice(recs: seq<CasbinRule>, first: Condition, second: Condition, both: Condition)
    requires forall x :: x in recs ==> (Holds(both, x) <==> Holds(first, x) && Holds(second, x))
    ensures Keep(Keep(recs, first), second) == Keep(recs, both)
  {
    if recs != [] {
      var r, rest := recs[0], recs[1..];
      assert recs == [r] + rest;
      KeepTwice(rest, first, second, both);
      KeepCons(r, rest, first);
      KeepCons(r, rest, both);
      if Holds(first, r) {
        KeepCons(r, Keep(rest, first), second);
      } else {
        assert [] + Keep(rest, first) == Keep(rest, first);
      }
    }
  }

  /** The rows whose record satisfies `cond`, in their order. */
  function KeepRows(rows: seq<Row>, cond: Condition): (kept: seq<Row>)
    ensures forall r :: r in kept ==> r in rows
  {
    if rows == [] then []
    else (if Holds(cond, rows[0].rule) then [rows[0]] else []) + KeepRows(rows[1..], cond)
  }

  lemma RecordsOfCons(r: Row, rows: seq<Row>)
    ensures RecordsOf([r] + rows) == [r.rule] + RecordsOf(rows)
  {
  }

  /** Filtering rows filters their records. */
  lemma {:induction false} KeepRowsRecords(rows: seq<Row>, cond: Condition)
    ensures RecordsOf(KeepRows(rows, cond)) == Keep(RecordsOf(rows), cond)
  {
    if rows != [] {
      var recs := RecordsOf(rows);
      KeepRowsRecords(rows[1..], cond);
      assert rows == [rows[0]] + rows[1..];
      RecordsOfCons(rows[0], rows[1..]);
      assert recs[0] == rows[0].rule && recs[1..] == RecordsOf(rows[1..]);
      if Holds(cond, rows[0].rule) {
        RecordsOfCons(rows[0], KeepRows(rows[1..], cond));
      }
    }
  }

  /** A row placed before a table whose rows all come after it and differ from it
      keeps the invariant. */
  lemma ConsInvariant(r: Row, tail: seq<Row>, nextId: nat)
    requires TableInvariant(tail, nextId) && r.id < nextId
    requires forall x :: x in tail ==> r.id < x.id && r.rule != x.rule
    ensures TableInvariant([r] + tail, nextId)
  {
    var kept := [r] + tail;
    forall i, j | 0 <= i < j < |kept| ensures kept[i].id < kept[j].id && kept[i].rule != kept[j].rule {
      assert kept[j] == tail[j - 1] && kept[j] in tail;
      if i > 0 {
        assert kept[i] == tail[i - 1];
      }
    }
    forall i | 0 <= i < |kept| ensures kept[i].id < nextId {
      if i > 0 {
        assert kept[i] == tail[i - 1];
      }
    }
  }

  /** Filtering rows keeps the table invariant. */
  lemma {:induction false} KeepRowsInvariant(rows: seq<Row>, cond: Condition, nextId: nat)
    requires TableInvariant(rows, nextId)
    ensures TableInvariant(KeepRows(rows, cond), nextId)
  {
    if rows != [] {
      var tail := KeepRows(rows[1..], cond);
      HeadFirst(rows, nextId);
      KeepRowsInvariant(rows[1..], cond, nextId);
      if Holds(cond, rows[0].rule) {
        assert KeepRows(rows, cond) == [rows[0]] + tail;
        ConsInvariant(rows[0], tail, nextId);
      } else {
        assert KeepRows(rows, cond) == tail;
      }
    }
  }

  /** The first record differs from the rest, and the rest stay apart. */
  lemma DistinctHead(recs: seq<CasbinRule>)
    requires Distinct(recs) && recs != []
    ensures Distinct(recs[1..]) && recs[0] !in recs[1..]
  {
  }

  lemma ConsDistinct(x: CasbinRule, recs: seq<CasbinRule>)
    requires Distinct(recs) && x !in recs
    ensures Distinct([x] + recs)
  {
    var all := [x] + recs;
    assert forall k :: 1 <= k < |all| ==> all[k] == recs[k - 1];
  }

  /** Filtering keeps the records apart. */
  lemma {:induction false} KeepDistinct(recs: seq<CasbinRule>, cond: Condition)
    requires Distinct(recs)
    ensures Distinct(Keep(recs, cond))
  {
    if recs != [] {
      DistinctHead(recs);
      KeepDistinct(recs[1..], cond);
      if Holds(cond, recs[0]) {
        ConsDistinct(recs[0], Keep(recs[1..], cond));
      }
    }
  }

  /** Every record is either kept by `cond` or by its negation: what a delete
      removes and what it leaves make up the table. */
  lemma {:induction false} KeepPartition(recs: seq<CasbinRule>, line: CasbinRule)
    ensures multiset(Keep(recs, Matching(line))) + multiset(Keep(recs, NotMatching(line))) == multiset(recs)
  {
    if recs != [] {
      KeepPartition(recs[1..], line);
      assert recs == [recs[0]] + recs[1..];
    }
  }

  /** The records a delete by `line` leaves. */
  function Without(recs: seq<CasbinRule>, line: CasbinRule): seq<CasbinRule>
  {
    Keep(recs, NotMatching(line))
  }

  /** The records a select by `line` returns. */
  function Selected(recs: seq<CasbinRule>, line: CasbinRule): seq<CasbinRule>
  {
    Keep(recs, Matching(line))
  }

  /** A one-record table: a select by a line it matches returns it, a delete empties it. */
  lemma SelectOne(r: CasbinRule, line: CasbinRule)
    requires Matches(line, r)
    ensures Selected([r], line) == [r] && Without([r], line) == []
  {
    assert [r][1..] == [];
    assert Holds(Matching(line), r) && !Holds(NotMatching(line), r);
    assert Keep([r], Matching(line)) == [r] + Keep([], Matching(line));
    assert Keep([r], NotMatching(line)) == [] + Keep([], NotMatching(line));
  }

  /** Rows for a batch inserted with IDs first, first + 1, ... */
  function Stamp(batch: seq<CasbinRule>, first: nat): (rows: seq<Row>)
    ensures RecordsOf(rows) == batch
    ensures forall i :: 0 <= i < |rows| ==> rows[i].id == first + i
  {
    seq(|batch|, i requires 0 <= i < |batch| => Row(first + i, batch[i]))
  }

  /** Appending freshly numbered rows for a batch that keeps the records distinct
      keeps the table's invariant, and the table's records become the old ones
      followed by the batch. */
  lemma StampKeepsInvariant(rows: seq<Row>, nextId: nat, batch: seq<CasbinRule>)
    requires TableInvariant(rows, nextId) && Distinct(RecordsOf(rows) + batch)
    ensures TableInvariant(rows + Stamp(batch, nextId), nextId + |batch|)
    ensures RecordsOf(rows + Stamp(batch, nextId)) == RecordsOf(rows) + batch
  {
    var all := rows + Stamp(batch, nextId);
    var recs := RecordsOf(rows) + batch;
    assert forall i :: 0 <= i < |all| ==> all[i].rule == recs[i];
    forall i, j | 0 <= i < j < |all| ensures all[i].id < all[j].id && all[i].rule != all[j].rule {
      assert all[i].rule == recs[i] && all[j].rule == recs[j];
    }
  }

  /** A table filled with distinct records numbered from 0 keeps the invariant. */
  lemma StampFromEmpty(existing: seq<CasbinRule>)
    requires Distinct(existing)
    ensures TableInvariant(Stamp(existing, 0), |existing|) && RecordsOf(Stamp(existing, 0)) == existing
  {
    assert RecordsOf([]) + existing == existing;
    StampKeepsInvariant([], 0, existing);
    assert [] + Stamp(existing, 0) == Stamp(existing, 0);
  }

  /** The table's records after a statement, and the statement's error. */
  datatype Stored = Stored(recs: seq<CasbinRule>, err: Option<Error>)

  /** One INSERT of `batch` (db.Create): a client fault, or, under the unique
      index, a duplicate against the table or inside the batch, stores nothing;
      otherwise the whole batch is appended. */
  function Insert(recs: seq<CasbinRule>, batch: seq<CasbinRule>, fault: bool): (s: Stored)
    ensures s.err.None? <==> !fault && Distinct(recs + batch)
    ensures s.recs == if s.err.None? then recs + batch else recs
    ensures s.err.Some? && !fault ==> s.err.value == Duplicate
  {
    if fault then Stored(recs, Some(DbFault))
    else if !Distinct(recs + batch) then Stored(recs, Some(Duplicate))
    else Stored(recs + batch, None)
  }

  /** Inserting a record already in the table fails with Duplicate and leaves one copy. */
  lemma InsertTwiceFails(recs: seq<CasbinRule>, line: CasbinRule)
    requires Distinct(recs + [line])
    ensures Insert(recs + [line], [line], false) == Stored(recs + [line], Some(Duplicate))
    ensures multiset(Insert(recs + [line], [line], false).recs)[line] == 1
  {
    var both := recs + [line] + [line];
    assert both[|recs|] == both[|recs| + 1];
    assert recs + [line] == recs + [line];
    forall i | 0 <= i < |recs| ensures recs[i] != line {
      assert (recs + [line])[i] == recs[i];
    }
  }

  /** What LoadPolicy hands the model: loadPolicyLine of each row in order, up to
      the first all-"" row, on which loadPolicyLine panics. */
  datatype Loaded = Loaded(rules: seq<seq<string>>, err: Option<Error>)

  function LoadedPolicy(lines: seq<CasbinRule>): Loaded
  {
    if lines == [] then Loaded([], None)
    else if lines[0] == EmptyRule then Loaded([], Some(IndexOutOfRange))
    else
      var rest := LoadedPolicy(lines[1..]);
      Loaded([TrimTrailing(Fields(lines[0]))] + rest.rules, rest.err)
  }

  /** The loop of LoadPolicy and LoadFilteredPolicy: loadPolicyLine on each row in
      order; `rules` is what the model's AddRule received before any panic. */
  method LoadLines(lines: seq<CasbinRule>) returns (rules: seq<seq<string>>, err: Option<Error>)
    ensures Loaded(rules, err) == LoadedPolicy(lines)
  {
    rules := [];
    var i := 0;
    while i < |lines|
      invariant 0 <= i <= |lines|
      invariant LoadedPolicy(lines) == Loaded(rules + LoadedPolicy(lines[i..]).rules, LoadedPolicy(lines[i..]).err)
    {
      assert lines[i..][1..] == lines[i + 1..];
      var p := LoadPolicyLine(lines[i]);
      if p.Err? {
        return rules, Some(p.error);
      }
      rules := rules + [p.value];
      i := i + 1;
    }
    assert lines[i..] == [];
    err := None;
  }

  /** With no all-"" row, loading returns one tuple per row, in ID order, each the
      row with its trailing "" columns dropped. */
  lemma {:induction false} LoadedPolicyComplete(lines: seq<CasbinRule>)
    requires EmptyRule !in lines
    ensures LoadedPolicy(lines).err == None
    ensures |LoadedPolicy(lines).rules| == |lines|
    ensures forall i :: 0 <= i < |lines| ==> LoadedPolicy(lines).rules[i] == TrimTrailing(Fields(lines[i]))
  {
    if lines != [] {
      var rest := lines[1..];
      assert EmptyRule !in rest by {
        assert forall l :: l in rest ==> l in lines;
      }
      LoadedPolicyComplete(rest);
      var all := LoadedPolicy(lines).rules;
      assert all == [TrimTrailing(Fields(lines[0]))] + LoadedPolicy(rest).rules;
      forall i | 1 <= i < |lines| ensures all[i] == TrimTrailing(Fields(lines[i])) {
        assert lines[i] == rest[i - 1];
      }
    }
  }

  /** Loading `a + b` loads `a` and then `b`. */
  lemma {:induction false} LoadedPolicyAppend(a: seq<CasbinRule>, b: seq<CasbinRule>)
    requires EmptyRule !in a
    ensures LoadedPolicy(a + b) == Loaded(LoadedPolicy(a).rules + LoadedPolicy(b).rules, LoadedPolicy(b).err)
  {
    if a == [] {
      assert a + b == b;
    } else {
      var x, rest := a[0], a[1..];
      assert a == [x] + rest && a + b == [x] + (rest + b);
      assert EmptyRule !in rest by {
        assert forall l :: l in rest ==> l in a;
      }
      LoadedPolicyAppend(rest, b);
      LoadedPolicyCons(x, rest + b);
      LoadedPolicyCons(x, rest);
    }
  }

  /** Loading a table that starts with a record other than the all-"" one reads
      that record first. */
  lemma LoadedPolicyCons(line: CasbinRule, lines: seq<CasbinRule>)
    requires line != EmptyRule
    ensures LoadedPolicy([line] + lines) ==
            Loaded([TrimTrailing(Fields(line))] + LoadedPolicy(lines).rules, LoadedPolicy(lines).err)
  {
    assert ([line] + lines)[1..] == lines;
  }

  /** Loading a table with no all-"" record gives loadPolicyLine of each record, in order. */
  lemma {:induction false} LoadedPolicyOfEach(lines: seq<CasbinRule>, rules: seq<seq<string>>)
    requires |lines| == |rules|
    requires forall i :: 0 <= i < |lines| ==> lines[i] != EmptyRule && TrimTrailing(Fields(lines[i])) == rules[i]
    ensures LoadedPolicy(lines) == Loaded(rules, None)
  {
    if lines != [] {
      LoadedPolicyOfEach(lines[1..], rules[1..]);
      assert [rules[0]] + rules[1..] == rules;
    }
  }

  /** Rules load in insertion order: after a rule is appended to the table, loading
      returns what it returned before followed by the rule itself (when its last
      element is not ""). */
  lemma LoadAfterAdd(recs: seq<CasbinRule>, ptype: string, rule: seq<string>)
    requires EmptyRule !in recs
    requires LoadedPolicy(recs).err == None
    requires |rule| <= SlotCount && ([ptype] + rule)[|rule|] != ""
    ensures LoadedPolicy(recs + [SavePolicyLine(ptype, rule)]) == Loaded(LoadedPolicy(recs).rules + [[ptype] + rule], None)
  {
    var line := SavePolicyLine(ptype, rule);
    SaveThenLoad(ptype, rule);
    LoadedPolicyAppend(recs, [line]);
    assert [line][1..] == [];
  }

  /** The records savePolicyLine builds for each rule `[ptype] + values`. */
  function SaveLines(rules: seq<seq<string>>): (lines: seq<CasbinRule>)
    requires forall i :: 0 <= i < |rules| ==> |rules[i]| >= 1
    ensures |lines| == |rules|
    ensures forall i :: 0 <= i < |rules| ==> lines[i] == SavePolicyLine(rules[i][0], rules[i][1..])
  {
    seq(|rules|, i requires 0 <= i < |rules| => SavePolicyLine(rules[i][0], rules[i][1..]))
  }

  /** The records savePolicyLine builds for values `rules` under one type. */
  function SaveLinesOfType(ptype: string, rules: seq<seq<string>>): (lines: seq<CasbinRule>)
    ensures |lines| == |rules|
    ensures forall i :: 0 <= i < |rules| ==> lines[i] == SavePolicyLine(ptype, rules[i])
  {
    seq(|rules|, i requires 0 <= i < |rules| => SavePolicyLine(ptype, rules[i]))
  }

  /** toStringPolicy of each record. */
  function PolicyStrings(recs: seq<CasbinRule>): (policies: seq<seq<string>>)
    ensures |policies| == |recs|
    ensures forall i :: 0 <= i < |recs| ==> policies[i] == ToStringPolicy(recs[i])
  {
    seq(|recs|, i requires 0 <= i < |recs| => ToStringPolicy(recs[i]))
  }
}
