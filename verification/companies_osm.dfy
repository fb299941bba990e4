/**
 * Column coalescing for the OpenStreetMap shop table (src/companies_open_street_map.py).
 *
 * Several raw columns describe the same property (a name, a website, a phone number).  For every
 * row, `concat` drops the null cells of a column group and merges what is left into one cell;
 * the driver does that for every row of every group.  A cell is `None` where pandas has a null.
 */
module CompaniesOsm {

  import opened Common

  /** One row of a column group, one cell per column, in column order. */
  type Row = seq<Option<string>>

  const Separator: string := "; "

  // ---------------------------------------------------------------------------------------------
  // Pieces of concat (lines 4-10)

  /** `row[row.notna()].values`: the non-null cells, in column order. */
  function NonNull(row: Row): (values: seq<string>)
    ensures |values| <= |row|
  {
    if |row| == 0 then []
    else (if row[0].Some? then [row[0].value] else []) + NonNull(row[1..])
  }

  /** Sum of the lengths of the strings. */
  function TotalLength(values: seq<string>): nat
  {
    if |values| == 0 then 0 else |values[0]| + TotalLength(values[1..])
  }

  /** `sep.join(values)`: the values with `sep` between neighbours, "" for no values. */
  function Join(values: seq<string>, sep: string): (s: string)
    ensures |values| == 0 ==> s == ""
    ensures |values| >= 1 ==> |s| == TotalLength(values) + |sep| * (|values| - 1)
  {
    if |values| == 0 then ""
    else if |values| == 1 then values[0]
    else values[0] + sep + Join(values[1..], sep)
  }

  /** `s[:-1]`: everything but the last character; the empty string stays empty. */
  function DropLast(s: string): (r: string)
    ensures |s| == 0 ==> r == ""
    ensures |s| > 0 ==> r + [s[|s| - 1]] == s
  {
    if |s| == 0 then s else s[..|s| - 1]
  }

  /**
   * `concat(row)` as written: `None` when every cell is null, the value itself when exactly one
   * is not, and otherwise the "; "-joined values with their last character cut off.
   */
  function Concat(row: Row): (r: Option<string>)
    ensures r.None? <==> NonNull(row) == []
  {
    var values := NonNull(row);
    if |values| == 0 then None
    else if |values| == 1 then Some(values[0])
    else Some(DropLast(Join(values, Separator)))
  }

  /** `concat` as evidently intended: the "; "-joined values, with nothing cut off. */
  function ConcatJoined(row: Row): (r: Option<string>)
    ensures r.None? <==> NonNull(row) == []
  {
    var values := NonNull(row);
    if |values| == 0 then None else Some(Join(values, Separator))
  }

  // ---------------------------------------------------------------------------------------------
  // Null cells

  /** Nulls are skipped wherever they are and the order of the other cells is kept. */
  lemma {:induction false} NonNullAppend(a: Row, b: Row)
    ensures NonNull(a + b) == NonNull(a) + NonNull(b)
    decreases |a|
  {
    if |a| == 0 {
      assert a + b == b;
    } else {
      assert (a + b)[0] == a[0];
      assert (a + b)[1..] == a[1..] + b;
      NonNullAppend(a[1..], b);
      var head := if a[0].Some? then [a[0].value] else [];
      AppendAssociates(head, NonNull(a[1..]), NonNull(b));
    }
  }

  /** A row without nulls yields its values unchanged, in order. */
  lemma {:induction false} NonNullOfValues(values: seq<string>)
    ensures NonNull(seq(|values|, i requires 0 <= i < |values| => Some(values[i]))) == values
    decreases |values|
  {
    if |values| > 0 {
      var row := seq(|values|, i requires 0 <= i < |values| => Some(values[i]));
      assert row[1..] == seq(|values[1..]|, i requires 0 <= i < |values[1..]| => Some(values[1..][i]));
      NonNullOfValues(values[1..]);
      assert [values[0]] + values[1..] == values;
    }
  }

  /** There are no values exactly when every cell is null. */
  lemma {:induction false} NonNullEmpty(row: Row)
    ensures NonNull(row) == [] <==> forall i :: 0 <= i < |row| ==> row[i].None?
    decreases |row|
  {
    if |row| > 0 {
      NonNullEmpty(row[1..]);
      assert forall i :: 1 <= i < |row| ==> row[i] == row[1..][i - 1];
    }
  }

  /** A row whose only non-null cell is cell `k` yields exactly that value. */
  lemma {:induction false} NonNullSingle(row: Row, k: nat)
    requires k < |row| && row[k].Some?
    requires forall i :: 0 <= i < |row| && i != k ==> row[i].None?
    ensures NonNull(row) == [row[k].value]
    decreases |row|
  {
    if k == 0 {
      NonNullEmpty(row[1..]);
    } else {
      NonNullSingle(row[1..], k - 1);
    }
  }

  // ---------------------------------------------------------------------------------------------
  // The three cases of concat

  /** Line 7: a row whose cells are all null gives `None`, and only such a row does. */
  lemma ConcatAllNull(row: Row)
    ensures Concat(row) == None <==> forall i :: 0 <= i < |row| ==> row[i].None?
  {
    NonNullEmpty(row);
  }

  /** Line 9: a row with exactly one non-null cell gives that value unchanged. */
  lemma ConcatSingle(row: Row, k: nat)
    requires k < |row| && row[k].Some?
    requires forall i :: 0 <= i < |row| && i != k ==> row[i].None?
    ensures Concat(row) == Some(row[k].value)
  {
    NonNullSingle(row, k);
  }

  /**
   * Line 10: with k >= 2 values the result is the join minus its last character, so its
   * length is the sum of the value lengths plus 2(k - 1) - 1.
   */
  lemma ConcatSeveral(row: Row)
    requires |NonNull(row)| >= 2
    ensures var values := NonNull(row);
      Concat(row).Some? &&
      Concat(row).value + [Join(values, Separator)[|Join(values, Separator)| - 1]]
        == Join(values, Separator) &&
      |Concat(row).value| == TotalLength(values) + 2 * (|values| - 1) - 1
  {
  }

  /** Apart from the cut-off character, as written and as intended agree. */
  lemma ConcatIsJoinedMinusLast(row: Row)
    ensures Concat(row).None? <==> ConcatJoined(row).None?
    ensures |NonNull(row)| <= 1 ==> Concat(row) == ConcatJoined(row)
    ensures |NonNull(row)| >= 2 ==> Concat(row).value == DropLast(ConcatJoined(row).value)
  {
  }

  /** ["a", "b"] gives "a; " where "a; b" is meant: the last character of the last value is lost. */
  lemma ConcatLosesLastCharacter()
    ensures Concat([Some("a"), Some("b")]) == Some("a; ")
    ensures ConcatJoined([Some("a"), Some("b")]) == Some("a; b")
  {
    var row: Row := [Some("a"), Some("b")];
    NonNullOfValues(["a", "b"]);
    assert row == seq(2, i requires 0 <= i < 2 => Some(["a", "b"][i]));
    assert Join(["a", "b"], Separator) == "a; b";
    assert DropLast("a; b") == "a; ";
  }

  // ---------------------------------------------------------------------------------------------
  // What the joined cell holds

  /** Where the `i`-th value starts in `Join(values, sep)`. */
  function Offset(values: seq<string>, sep: string, i: nat): nat
    requires i <= |values|
  {
    TotalLength(values[..i]) + |sep| * i
  }

  lemma SliceOfAppend(x: string, y: string, a: nat, b: nat)
    requires a <= b <= |y|
    ensures (x + y)[|x| + a..|x| + b] == y[a..b]
  {
  }

  /** Past the first value and separator, offsets are those of the remaining values. */
  lemma OffsetStep(values: seq<string>, sep: string, i: nat)
    requires 0 < i <= |values|
    ensures Offset(values, sep, i) == |values[0]| + |sep| + Offset(values[1..], sep, i - 1)
  {
    assert values[..i][1..] == values[1..][..i - 1];
  }

  /** The join holds every value at its offset. */
  lemma {:induction false} JoinHasValue(values: seq<string>, sep: string, i: nat)
    requires i < |values|
    ensures var s := Join(values, sep);
      var o := Offset(values, sep, i);
      o + |values[i]| <= |s| && s[o..o + |values[i]|] == values[i]
    decreases i
  {
    var s := Join(values, sep);
    if i == 0 {
      assert values[..0] == [];
      if |values| > 1 {
        assert s == values[0] + (sep + Join(values[1..], sep));
      }
    } else {
      var rest := values[1..];
      assert s == (values[0] + sep) + Join(rest, sep);
      JoinHasValue(rest, sep, i - 1);
      OffsetStep(values, sep, i);
      var o := Offset(rest, sep, i - 1);
      SliceOfAppend(values[0] + sep, Join(rest, sep), o, o + |values[i]|);
    }
  }

  /** Every value but the last is followed by the separator. */
  lemma {:induction false} JoinHasSeparatorAfter(values: seq<string>, sep: string, i: nat)
    requires i + 1 < |values|
    ensures var s := Join(values, sep);
      var e := Offset(values, sep, i) + |values[i]|;
      e + |sep| <= |s| && s[e..e + |sep|] == sep
    decreases i
  {
    var rest := values[1..];
    var s := Join(values, sep);
    if i == 0 {
      assert values[..0] == [];
      assert s == values[0] + (sep + Join(rest, sep));
      SliceOfAppend(values[0], sep + Join(rest, sep), 0, |sep|);
      assert (sep + Join(rest, sep))[0..|sep|] == sep;
    } else {
      assert s == (values[0] + sep) + Join(rest, sep);
      JoinHasSeparatorAfter(rest, sep, i - 1);
      OffsetStep(values, sep, i);
      var e := Offset(rest, sep, i - 1) + |values[i]|;
      SliceOfAppend(values[0] + sep, Join(rest, sep), e, e + |sep|);
    }
  }

  /**
   * The intended merge loses nothing: every non-null value of the row appears in the cell, in
   * column order, separated by "; ", and the cell ends with the last value.
   */
  lemma ConcatJoinedKeepsEveryValue(row: Row, i: nat)
    requires i < |NonNull(row)|
    ensures var values := NonNull(row);
      var cell := ConcatJoined(row).value;
      var o := Offset(values, Separator, i);
      o + |values[i]| <= |cell| && cell[o..o + |values[i]|] == values[i] &&
      (i + 1 < |values| ==>
        o + |values[i]| + 2 <= |cell| && cell[o + |values[i]|..o + |values[i]| + 2] == Separator) &&
      (i + 1 == |values| ==> o + |values[i]| == |cell|)
  {
    var values := NonNull(row);
    JoinHasValue(values, Separator, i);
    if i + 1 < |values| {
      JoinHasSeparatorAfter(values, Separator, i);
    } else {
      JoinEndsWithLast(values, Separator);
    }
  }

  /** The last value ends the join. */
  lemma {:induction false} JoinEndsWithLast(values: seq<string>, sep: string)
    requires |values| >= 1
    ensures Offset(values, sep, |values| - 1) + |values[|values| - 1]| == |Join(values, sep)|
    decreases |values|
  {
    var n := |values|;
    TotalLengthSplit(values, n - 1);
    assert values[n - 1..] == [values[n - 1]];
  }

  lemma {:induction false} TotalLengthSplit(values: seq<string>, i: nat)
    requires i <= |values|
    ensures TotalLength(values) == TotalLength(values[..i]) + TotalLength(values[i..])
    decreases i
  {
    if i > 0 {
      TotalLengthSplit(values[1..], i - 1);
      assert values[1..][..i - 1] == values[..i][1..];
      assert values[1..][i - 1..] == values[i..];
    } else {
      assert values[..0] == [] && values[0..] == values;
    }
  }

  // ---------------------------------------------------------------------------------------------
  // The driver (lines 39-44)

  /** Every column of the group is in the table and has `height` cells. */
  predicate HasColumns(table: map<string, seq<Option<string>>>, columns: seq<string>, height: nat)
  {
    forall c :: c in columns ==> c in table && |table[c]| == height
  }

  /** Row `r` of `df[columns]`: the cells of the group's columns, in column order. */
  function GroupRow(table: map<string, seq<Option<string>>>, columns: seq<string>, height: nat, r: nat): Row
    requires HasColumns(table, columns, height) && r < height
  {
    seq(|columns|, j requires 0 <= j < |columns| => table[columns[j]][r])
  }

  /** `col` holds one merged cell per row of the group, in row order. */
  predicate IsMergedColumn(table: map<string, seq<Option<string>>>, columns: seq<string>, height: nat,
                           col: seq<Option<string>>)
    requires HasColumns(table, columns, height)
  {
    |col| == height &&
    forall r :: 0 <= r < height ==> col[r] == ConcatJoined(GroupRow(table, columns, height, r))
  }

  /** Lines 41-43: one merged cell appended per row, in row order. */
  method MergeCategory(table: map<string, seq<Option<string>>>, columns: seq<string>, height: nat)
    returns (newCol: seq<Option<string>>)
    requires HasColumns(table, columns, height)
    ensures IsMergedColumn(table, columns, height, newCol)
  {
    newCol := [];
    for r := 0 to height
      invariant |newCol| == r
      invariant forall q :: 0 <= q < r ==> newCol[q] == ConcatJoined(GroupRow(table, columns, height, q))
    {
      var row := GroupRow(table, columns, height, r);
      newCol := newCol + [ConcatJoined(row)];
    }
  }

  /**
   * Lines 39-44: every category's list of column names is replaced by its merged column.
   * Categories are independent of each other, so the order of the keys does not matter.
   */
  method MergeAll(table: map<string, seq<Option<string>>>, groups: map<string, seq<string>>, height: nat)
    returns (merged: map<string, seq<Option<string>>>)
    requires forall cat :: cat in groups ==> HasColumns(table, groups[cat], height)
    ensures merged.Keys == groups.Keys
    ensures forall cat :: cat in merged ==> IsMergedColumn(table, groups[cat], height, merged[cat])
  {
    merged := map[];
    var todo := groups.Keys;
    while todo != {}
      invariant todo <= groups.Keys
      invariant merged.Keys == groups.Keys - todo
      invariant forall cat :: cat in merged ==> IsMergedColumn(table, groups[cat], height, merged[cat])
      decreases |todo|
    {
      var category :| category in todo;
      var newCol := MergeCategory(table, groups[category], height);
      merged := merged[category := newCol];
      todo := todo - {category};
    }
  }

  /** Merging a group of null-free columns of one row leaves just the joined values. */
  lemma MergedCellOfFullRow(table: map<string, seq<Option<string>>>, columns: seq<string>, height: nat,
                            col: seq<Option<string>>, r: nat, values: seq<string>)
    requires HasColumns(table, columns, height) && r < height
    requires IsMergedColumn(table, columns, height, col)
    requires |values| == |columns| >= 1
    requires forall j :: 0 <= j < |columns| ==> table[columns[j]][r] == Some(values[j])
    ensures col[r] == Some(Join(values, Separator))
  {
    var row := GroupRow(table, columns, height, r);
    assert row == seq(|values|, i requires 0 <= i < |values| => Some(values[i]));
    NonNullOfValues(values);
  }

  /**
   * What line 43 stores as written for the same row when the group has two or more columns:
   * the joined values with their last character cut off.
   */
  lemma FullRowCellAsWritten(table: map<string, seq<Option<string>>>, columns: seq<string>, height: nat,
                             r: nat, values: seq<string>)
    requires HasColumns(table, columns, height) && r < height
    requires |values| == |columns| >= 2
    requires forall j :: 0 <= j < |columns| ==> table[columns[j]][r] == Some(values[j])
    ensures Concat(GroupRow(table, columns, height, r)) == Some(DropLast(Join(values, Separator)))
  {
    var row := GroupRow(table, columns, height, r);
    assert row == seq(|values|, i requires 0 <= i < |values| => Some(values[i]));
    NonNullOfValues(values);
  }
}
