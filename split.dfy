/**
 * The display name of a CHAID split's column.
 *
 * A split is created for a column index (`column_id`); until a list of
 * column names is applied with `name_columns`, its `column` is the index
 * written in decimal (`str(column_id)`), afterwards the name at that index.
 */
module ChaidSplit {
  import opened Values

  /** The character for a decimal digit. */
  function DigitChar(d: nat): (c: char)
    requires d < 10
    ensures '0' <= c <= '9'
    ensures c as int - '0' as int == d
  {
    ['0', '1', '2', '3', '4', '5', '6', '7', '8', '9'][d]
  }

  predicate IsDigits(s: string) {
    forall i :: 0 <= i < |s| ==> '0' <= s[i] <= '9'
  }

  /** Python's `str(n)` for a non-negative integer. */
  function DecimalString(n: nat): (s: string)
    ensures |s| >= 1 && IsDigits(s)
    ensures |s| > 1 ==> s[0] != '0'
  {
    if n < 10 then [DigitChar(n)]
    else DecimalString(n / 10) + [DigitChar(n % 10)]
  }

  /** The number a string of decimal digits denotes (Python's `int(s)`). */
  function ParseDecimal(s: string): nat
    requires IsDigits(s)
  {
    if s == [] then 0
    else 10 * ParseDecimal(s[..|s| - 1]) + (s[|s| - 1] as int - '0' as int)
  }

  /** `int(str(n)) == n`. */
  lemma {:induction false} ParseDecimalString(n: nat)
    ensures ParseDecimal(DecimalString(n)) == n
  {
    var s := DecimalString(n);
    if n >= 10 {
      ParseDecimalString(n / 10);
      assert s[..|s| - 1] == DecimalString(n / 10);
    }
  }

  /** Different column ids have different default names. */
  lemma DecimalStringInjective(m: nat, n: nat)
    requires m != n
    ensures DecimalString(m) != DecimalString(n)
  {
    ParseDecimalString(m);
    ParseDecimalString(n);
  }

  /** `CHAIDSplit`: one split, with the column it splits on. */
  class Split {
    /** The index of the column split on; `name_columns` never changes it. */
    const columnId: nat
    /** The category groups of the split, `None` when not given. */
    const splits: Option<seq<seq<int>>>
    /** The category-to-group mapping, `None` when not given. */
    const splitMap: Option<seq<nat>>
    const score: real
    /** The display name of the column. */
    var column: string

    /** `CHAIDSplit(column_id, splits, split_map, score)`. */
    constructor (columnId: nat, splits: Option<seq<seq<int>>>, splitMap: Option<seq<nat>>, score: real)
      ensures this.columnId == columnId && this.splits == splits
      ensures this.splitMap == splitMap && this.score == score
      ensures column == DecimalString(columnId)
    {
      this.columnId := columnId;
      this.splits := splits;
      this.splitMap := splitMap;
      this.score := score;
      column := DecimalString(columnId);
    }

    /**
     * `name_columns(names)`: the column is named `names[column_id]`.
     * When `names` has no entry at that index nothing changes and `false`
     * is returned (the lookup fails).
     */
    method NameColumns(names: seq<string>) returns (named: bool)
      modifies this`column
      ensures named <==> columnId < |names|
      ensures column == if named then names[columnId] else old(column)
    {
      named := columnId < |names|;
      if named {
        column := names[columnId];
      }
    }
  }

  /**
   * The column-name check: one split per column index, scored 1 with no
   * groups; each reports its index until its own `name_columns` call and
   * its name afterwards, and naming one split leaves the later ones as
   * they were.
   */
  method ColumnNameMappings(names: seq<string>) returns (all: seq<Split>)
    ensures |all| == |names|
    ensures forall i :: 0 <= i < |all| ==> all[i].columnId == i && all[i].column == names[i]
  {
    all := [];
    var n := 0;
    while n < |names|
      invariant 0 <= n <= |names| && |all| == n
      invariant forall i :: 0 <= i < n ==> fresh(all[i])
      invariant forall i :: 0 <= i < n ==> all[i].columnId == i && all[i].column == DecimalString(i)
    {
      var s := new Split(n, None, None, 1.0);
      all := all + [s];
      n := n + 1;
    }

    var k := 0;
    while k < |all|
      invariant 0 <= k <= |all|
      invariant forall i :: 0 <= i < |all| ==> fresh(all[i]) && all[i].columnId == i
      invariant forall i :: 0 <= i < k ==> all[i].column == names[i]
      invariant forall i :: k <= i < |all| ==> all[i].column == DecimalString(i)
    {
      var split := all[k];
      assert split.column == DecimalString(split.columnId);
      assert forall i :: 0 <= i < |all| && i != k ==> all[i] != split;
      var named := split.NameColumns(names);
      assert split.column == names[split.columnId];
      k := k + 1;
    }
  }
}
