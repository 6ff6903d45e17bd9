/** The rule record: the nine-column shape one policy rule takes in the table,
    and the conversions between it and the engine's variable-length rule tuples
    (savePolicyLine, loadPolicyLine, toStringPolicy in adapter.go). */
module Rules {
  import opened Errors

  /** One stored rule: its type and eight value slots; "" marks an unset slot. */
  datatype CasbinRule = CasbinRule(
    ptype: string,
    v0: string, v1: string, v2: string, v3: string,
    v4: string, v5: string, v6: string, v7: string)

  /** Number of value slots V0..V7 that follow the rule type. */
  const SlotCount: nat := 8

  /** The record whose nine columns are all "". */
  const EmptyRule := CasbinRule("", "", "", "", "", "", "", "", "")

  /** The record's columns in table order: ptype, v0, ..., v7. */
  function Fields(line: CasbinRule): (f: seq<string>)
    ensures |f| == SlotCount + 1 && f[0] == line.ptype
  {
    [line.ptype, line.v0, line.v1, line.v2, line.v3, line.v4, line.v5, line.v6, line.v7]
  }

  /** Two records with the same columns are the same record. */
  lemma FieldsInjective(a: CasbinRule, b: CasbinRule)
    requires Fields(a) == Fields(b)
    ensures a == b
  {
    assert Fields(a)[1] == Fields(b)[1] && Fields(a)[2] == Fields(b)[2];
    assert Fields(a)[3] == Fields(b)[3] && Fields(a)[4] == Fields(b)[4];
    assert Fields(a)[5] == Fields(b)[5] && Fields(a)[6] == Fields(b)[6];
    assert Fields(a)[7] == Fields(b)[7] && Fields(a)[8] == Fields(b)[8];
  }

  /** n unset slots. */
  function Blanks(n: nat): (s: seq<string>)
    ensures |s| == n && forall i :: 0 <= i < n ==> s[i] == ""
  {
    seq(n, _ => "")
  }

  /** The rule values as they land in V0..V7: the first eight, padded with "". */
  function Padded(rule: seq<string>): (s: seq<string>)
    ensures |s| == SlotCount
  {
    if |rule| >= SlotCount then rule[..SlotCount] else rule + Blanks(SlotCount - |rule|)
  }

  /** The value savePolicyLine writes into slot Vi. */
  function Slot(rule: seq<string>, i: nat): string
  {
    if |rule| > i then rule[i] else ""
  }

  /** savePolicyLine: the record for rule type `ptype` and values `rule`; values
      past the eighth are dropped, missing ones are "". */
  function SavePolicyLine(ptype: string, rule: seq<string>): (line: CasbinRule)
    ensures Fields(line) == [ptype] + Padded(rule)
  {
    var line := CasbinRule(ptype, Slot(rule, 0), Slot(rule, 1), Slot(rule, 2), Slot(rule, 3),
                           Slot(rule, 4), Slot(rule, 5), Slot(rule, 6), Slot(rule, 7));
    assert forall i :: 0 <= i < SlotCount ==> Padded(rule)[i] == Slot(rule, i);
    line
  }

  /** The tuple `p` without its trailing "" entries. */
  function TrimTrailing(p: seq<string>): (r: seq<string>)
    ensures |r| <= |p| && r == p[..|r|]
    ensures r != [] ==> r[|r| - 1] != ""
    ensures forall i :: |r| <= i < |p| ==> p[i] == ""
  {
    if p == [] then []
    else if p[|p| - 1] == "" then TrimTrailing(p[..|p| - 1])
    else p
  }

  /** The three properties of TrimTrailing determine it: the only prefix ending in a
      non-empty entry and followed only by "" is the trimmed tuple. */
  lemma TrimTrailingUnique(p: seq<string>, m: nat)
    requires m <= |p|
    requires m > 0 ==> p[m - 1] != ""
    requires forall i :: m <= i < |p| ==> p[i] == ""
    ensures TrimTrailing(p) == p[..m]
  {
    var r := TrimTrailing(p);
    if r != [] {
      assert p[|r| - 1] == r[|r| - 1];
    }
  }

  /** loadPolicyLine: counts `index` down from the last column while the column is
      "", then keeps the columns up to `index`. On a record whose columns are all ""
      the Go loop reads p[-1] and panics; that is the IndexOutOfRange error here. */
  method LoadPolicyLine(line: CasbinRule) returns (r: Result<seq<string>>)
    ensures line == EmptyRule ==> r == Err(IndexOutOfRange)
    ensures line != EmptyRule ==> r == Ok(TrimTrailing(Fields(line)))
  {
    var p := Fields(line);
    var index := |p| - 1;
    while index >= 0 && p[index] == ""
      invariant -1 <= index < |p|
      invariant forall k :: index < k < |p| ==> p[k] == ""
    {
      index := index - 1;
    }
    if index < 0 {
      assert p[0] == "" && p[1] == "" && p[2] == "" && p[3] == "" && p[4] == "";
      assert p[5] == "" && p[6] == "" && p[7] == "" && p[8] == "";
      return Err(IndexOutOfRange);
    }
    TrimTrailingUnique(p, index + 1);
    assert line != EmptyRule by {
      assert Fields(EmptyRule)[index] == "";
    }
    r := Ok(p[..index + 1]);
  }

  /** Round trip write-then-read: a rule of at most eight values whose last element
      is non-empty reads back exactly as `[ptype] + rule`. */
  lemma {:induction false} SaveThenLoad(ptype: string, rule: seq<string>)
    requires |rule| <= SlotCount
    requires ([ptype] + rule)[|rule|] != ""
    ensures SavePolicyLine(ptype, rule) != EmptyRule
    ensures TrimTrailing(Fields(SavePolicyLine(ptype, rule))) == [ptype] + rule
  {
    var p := Fields(SavePolicyLine(ptype, rule));
    assert p == [ptype] + rule + Blanks(SlotCount - |rule|);
    assert p[..|rule| + 1] == [ptype] + rule;
    TrimTrailingUnique(p, |rule| + 1);
    assert Fields(EmptyRule)[|rule|] == "";
  }

  /** Round trip read-then-write: every record other than the all-"" one is rebuilt
      exactly by savePolicyLine from the tuple loadPolicyLine reads from it. */
  lemma {:induction false} LoadThenSave(line: CasbinRule)
    requires line != EmptyRule
    ensures var t := TrimTrailing(Fields(line));
            |t| >= 1 && SavePolicyLine(t[0], t[1..]) == line
  {
    var p := Fields(line);
    var t := TrimTrailing(p);
    if t == [] {
      FieldsInjective(line, EmptyRule);
    }
    assert p == t + Blanks(|p| - |t|);
    assert Padded(t[1..]) == p[1..];
    FieldsInjective(SavePolicyLine(t[0], t[1..]), line);
  }

  /** The non-empty entries of `s`, in order. */
  function NonEmpty(s: seq<string>): (r: seq<string>)
    ensures |r| <= |s|
    ensures forall x :: x in r ==> x in s && x != ""
    ensures forall x :: x in s && x != "" ==> x in r
  {
    if s == [] then []
    else (if s[0] != "" then [s[0]] else []) + NonEmpty(s[1..])
  }

  /** The appends of toStringPolicy, column `i` onward, onto `policy`. */
  function KeepNonEmptyFrom(f: seq<string>, i: nat, policy: seq<string>): seq<string>
    requires i <= |f|
    decreases |f| - i
  {
    if i == |f| then policy
    else KeepNonEmptyFrom(f, i + 1, if f[i] != "" then policy + [f[i]] else policy)
  }

  lemma {:induction false} KeepNonEmptyFromSpec(f: seq<string>, i: nat, policy: seq<string>)
    requires i <= |f|
    ensures KeepNonEmptyFrom(f, i, policy) == policy + NonEmpty(f[i..])
    decreases |f| - i
  {
    if i < |f| {
      assert f[i..][1..] == f[i + 1..];
      KeepNonEmptyFromSpec(f, i + 1, if f[i] != "" then policy + [f[i]] else policy);
    }
  }

  /** toStringPolicy: appends each column to the result when it is not "". */
  function ToStringPolicy(c: CasbinRule): (policy: seq<string>)
    ensures policy == NonEmpty(Fields(c))
    ensures "" !in policy
  {
    KeepNonEmptyFromSpec(Fields(c), 0, []);
    assert Fields(c)[0..] == Fields(c);
    KeepNonEmptyFrom(Fields(c), 0, [])
  }

  /** NonEmpty of a tuple with no "" entry is the tuple itself. */
  lemma {:induction false} NonEmptyOfFull(s: seq<string>)
    requires forall i :: 0 <= i < |s| ==> s[i] != ""
    ensures NonEmpty(s) == s
  {
    if s != [] {
      NonEmptyOfFull(s[1..]);
    }
  }

  /** NonEmpty only gets shorter when `s` has a "" entry. */
  lemma {:induction false} NonEmptyShorter(s: seq<string>, k: nat)
    requires k < |s| && s[k] == ""
    ensures |NonEmpty(s)| < |s|
  {
    if k > 0 {
      NonEmptyShorter(s[1..], k - 1);
    }
  }

  lemma {:induction false} NonEmptyOfBlanks(n: nat)
    ensures NonEmpty(Blanks(n)) == []
  {
    if n > 0 {
      assert Blanks(n)[1..] == Blanks(n - 1);
      NonEmptyOfBlanks(n - 1);
    }
  }

  lemma {:induction false} NonEmptyAppend(a: seq<string>, b: seq<string>)
    ensures NonEmpty(a + b) == NonEmpty(a) + NonEmpty(b)
  {
    if a == [] {
      assert a + b == b;
    } else {
      assert (a + b)[0] == a[0];
      assert (a + b)[1..] == a[1..] + b;
      NonEmptyAppend(a[1..], b);
    }
  }

  /** Dropping every "" entry and dropping only the trailing ones agree exactly
      when the trimmed tuple has no "" entry left. */
  lemma {:induction false} NonEmptyVsTrim(p: seq<string>)
    ensures var t := TrimTrailing(p);
            NonEmpty(p) == t <==> forall i :: 0 <= i < |t| ==> t[i] != ""
  {
    var t := TrimTrailing(p);
    var n := |p| - |t|;
    assert p == t + Blanks(n);
    NonEmptyAppend(t, Blanks(n));
    NonEmptyOfBlanks(n);
    assert NonEmpty(p) == NonEmpty(t);
    if forall i :: 0 <= i < |t| ==> t[i] != "" {
      NonEmptyOfFull(t);
    } else {
      var k :| 0 <= k < |t| && t[k] == "";
      NonEmptyShorter(t, k);
    }
  }

  /** toStringPolicy and loadPolicyLine agree on a record exactly when no slot
      before its last non-empty column is "" (no interior gap). */
  lemma ToStringPolicyVsLoad(c: CasbinRule)
    ensures var t := TrimTrailing(Fields(c));
            ToStringPolicy(c) == t <==> forall i :: 0 <= i < |t| ==> t[i] != ""
  {
    NonEmptyVsTrim(Fields(c));
  }
}
