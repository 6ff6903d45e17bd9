/** The configuration strings of adapter.go: the table name used when none is
    given, and the name of the unique index createTable puts on the table. */
module Naming {

  /** The table name NewAdapterWithTable falls back to. */
  const DefaultTableName: string := "fastac_rules"

  /** NewAdapterWithTable's table name: the given one, or the default when it is empty. */
  function TableNameOrDefault(tableName: string): (name: string)
    ensures |name| > 0
    ensures |tableName| > 0 ==> name == tableName
    ensures |tableName| == 0 ==> name == DefaultTableName
  {
    if |tableName| == 0 then DefaultTableName else tableName
  }

  /** strings.ReplaceAll(s, ".", "_"): every '.' becomes '_', nothing else changes. */
  function ReplaceDots(s: string): (r: string)
    ensures |r| == |s|
    ensures forall i :: 0 <= i < |s| ==> r[i] == if s[i] == '.' then '_' else s[i]
  {
    if s == [] then []
    else [if s[0] == '.' then '_' else s[0]] + ReplaceDots(s[1..])
  }

  /** The unique-index name createTable uses: "idx_" + tableName with every '.'
      replaced by '_', so it contains no '.' and keeps the table name's length. */
  function IndexName(tableName: string): (index: string)
    ensures |index| == 4 + |tableName| && index[..4] == "idx_"
    ensures '.' !in index
    ensures forall i :: 0 <= i < |tableName| ==> index[4 + i] == if tableName[i] == '.' then '_' else tableName[i]
  {
    var index := ReplaceDots("idx_" + tableName);
    assert forall i :: 0 <= i < |tableName| ==> ("idx_" + tableName)[4 + i] == tableName[i];
    index
  }

  /** The index name of a schema-qualified table "s.t" is the one of "s_t": two such
      tables share one index name. */
  lemma IndexNameIgnoresDots(a: string, b: string)
    requires |a| == |b|
    requires forall i :: 0 <= i < |a| ==> (a[i] == b[i] || (a[i] in "._" && b[i] in "._"))
    ensures IndexName(a) == IndexName(b)
  {
    var x, y := IndexName(a), IndexName(b);
    forall j | 0 <= j < |x| ensures x[j] == y[j] {
      if j >= 4 {
        assert x[4 + (j - 4)] == y[4 + (j - 4)];
      }
    }
  }
}
