/**
  The row and column extraction rule of `load_csv_file`: rows from position
  70 on whose "Unnamed: 9" cell is present, preceded by rows 1, 2 and 3 when
  they exist, both cut down to 21 fixed column positions, with exact repeats
  removed.
 */
module Extraction {
  import opened Wrappers
  import opened Frames

  /** First row position of the filtered window (`df.loc[start_row:]`). */
  const StartRow: nat := 70

  /** The column whose presence decides whether a row of the window is kept, looked up by name. */
  const ConditionColumn: string := "Unnamed: 9"

  /** The column positions kept, in output order (see ExtractColumnsAsWritten). */
  const ExtractColumns: seq<nat> :=
    [9, 35, 37, 130, 134, 104, 105, 80, 81, 82, 83, 156, 157, 158, 159, 160, 150, 151, 115, 116, 117]

  /** Row positions forced into the result whenever they exist. */
  const FixedRowIndices: seq<nat> := [1, 2, 3]

  /** Python's `list(range(lo, hi))`. */
  function Range(lo: nat, hi: nat): (r: seq<nat>)
    decreases hi - lo
    ensures |r| == if lo <= hi then hi - lo else 0
    ensures forall k | 0 <= k < |r| :: r[k] == lo + k
  {
    if lo >= hi then [] else [lo] + Range(lo + 1, hi)
  }

  /** Why an extraction produced no result. */
  datatype LoadError =
    | MissingConditionColumn  // the header has no column named ConditionColumn
    | PositionOutOfBounds     // a position in ExtractColumns is not a column of the input

  /** The configured column list: 21 distinct positions, the largest 160. */
  lemma ExtractColumnsFacts()
    ensures |ExtractColumns| == 21
    ensures Distinct(ExtractColumns)
    ensures AllBelow(ExtractColumns, 161) && 160 in ExtractColumns
  {
  }

  /** The column list fits an input exactly when it has more than 160 columns. */
  lemma ExtractColumnsFit(width: nat)
    ensures AllBelow(ExtractColumns, width) <==> width > 160
  {
    ExtractColumnsFacts();
    if width <= 160 {
      assert ExtractColumns[15] == 160;
    }
  }

  /** The list above is the one the loader builds from literal parts and two ranges. */
  lemma ExtractColumnsAsWritten()
    ensures ExtractColumns ==
      [9, 35, 37, 130, 134, 104, 105, 80, 81, 82, 83] + Range(156, 161) + [150, 151] + Range(115, 118)
  {
  }

  /** Positions of the forced rows that exist in a table of n rows. */
  function FixedPositions(n: nat): (r: seq<nat>)
    ensures AllBelow(r, n) && StrictlyIncreasing(r)
    ensures forall p :: p in r <==> p in FixedRowIndices && p < n
  {
    Intersect(n, FixedRowIndices)
  }

  /** Exactly those of 1, 2, 3 below the row count, ascending; row 0 is never forced in. */
  lemma FixedPositionsExact(n: nat)
    ensures FixedPositions(n) == if n <= 1 then [] else if n == 2 then [1] else if n == 3 then [1, 2] else [1, 2, 3]
    ensures 0 !in FixedPositions(n)
  {
    assert [1, 2, 3][1..] == [2, 3] && [2, 3][1..] == [3] && [3][1..] == [];
    assert StrictlyIncreasing([3]) && StrictlyIncreasing([2, 3]);
    assert Intersect(n, []) == [];
    var tail := Intersect(n, [3]);
    assert tail == if 3 < n then [3] else [];
    var mid := Intersect(n, [2, 3]);
    assert mid == if 2 < n then [2] + tail else tail;
    assert FixedPositions(n) == if 1 < n then [1] + mid else mid;
    if n <= 1 {
      assert mid == [];
    } else if n == 2 {
      assert mid == [];
    } else if n == 3 {
      assert mid == [2];
    } else {
      assert mid == [2, 3];
    }
  }

  /** Positions of the rows of the filtered window whose condition cell (column c) is present. */
  function FilteredPositions(t: Table, c: nat): (r: seq<nat>)
    ensures AllBelow(r, |t.rows|) && StrictlyIncreasing(r)
    ensures forall p :: p in r <==> StartRow <= p < |t.rows| && Present(t.rows[p], c)
  {
    PresentFrom(t.rows, c, StartRow)
  }

  /** A row reaches the filtered part exactly when it is at or after StartRow and its condition cell is present. */
  lemma FilterPathExact(t: Table, c: nat, p: nat)
    ensures p in FilteredPositions(t, c) <==> StartRow <= p < |t.rows| && Present(t.rows[p], c)
    ensures p < StartRow ==> p !in FilteredPositions(t, c)
  {
  }

  /** The forced rows, projected (`fixed_result`). */
  function FixedPart(t: Table): (r: seq<Row>)
    requires WellFormed(t) && AllBelow(ExtractColumns, |t.header|)
    ensures |r| == |FixedPositions(|t.rows|)|
    ensures forall i | 0 <= i < |r| :: r[i] == Select(t.rows[FixedPositions(|t.rows|)[i]], ExtractColumns)
  {
    Columns(Select(t.rows, FixedPositions(|t.rows|)), ExtractColumns)
  }

  /** The filtered rows, projected (`filtered_result`). */
  function FilteredPart(t: Table, c: nat): (r: seq<Row>)
    requires WellFormed(t) && AllBelow(ExtractColumns, |t.header|)
    ensures |r| == |FilteredPositions(t, c)|
    ensures forall i | 0 <= i < |r| :: r[i] == Select(t.rows[FilteredPositions(t, c)[i]], ExtractColumns)
  {
    Columns(Select(t.rows, FilteredPositions(t, c)), ExtractColumns)
  }

  /** The rows of a successful extraction: forced then filtered, projected, repeats removed. */
  function ResultRows(t: Table, c: nat): (r: seq<Row>)
    requires WellFormed(t) && AllBelow(ExtractColumns, |t.header|)
    ensures Distinct(r) && |r| <= |FixedPart(t)| + |FilteredPart(t, c)|
    ensures forall i | 0 <= i < |r| :: r[i] in FixedPart(t) + FilteredPart(t, c)
  {
    Dedup(FixedPart(t) + FilteredPart(t, c))
  }

  /**
    The extraction: fail when the condition column is missing or a kept
    column position is beyond the input's width; otherwise the forced rows
    then the filtered rows, projected, with repeats removed.
   */
  function Extract(t: Table): (r: Result<Table, LoadError>)
    requires WellFormed(t)
    ensures r.Failure? <==> ConditionColumn !in t.header || |t.header| <= 160
    ensures r.Success? ==> WellFormed(r.value) && |r.value.header| == |ExtractColumns|
  {
    ExtractColumnsFit(|t.header|);
    match IndexOf(t.header, ConditionColumn)
    case None => Failure(MissingConditionColumn)
    case Some(c) =>
      if !AllBelow(ExtractColumns, |t.header|) then Failure(PositionOutOfBounds)
      else Success(Table(Select(t.header, ExtractColumns), ResultRows(t, c)))
  }

  /** Whether the source row at position p is drawn by the rule, forced or filtered. */
  predicate Selected(t: Table, c: nat, p: nat)
    requires p < |t.rows|
  {
    p in FixedRowIndices || (StartRow <= p && Present(t.rows[p], c))
  }

  /** Column c is where the load finds ConditionColumn: the first column of that name. */
  predicate ConditionAt(t: Table, c: nat) {
    c < |t.header| && t.header[c] == ConditionColumn &&
    forall k | 0 <= k < c :: t.header[k] != ConditionColumn
  }

  /** Without a column named ConditionColumn the load is rejected, and only then with this error. */
  lemma MissingColumnRejected(t: Table)
    requires WellFormed(t)
    ensures Extract(t) == Failure(MissingConditionColumn) <==> ConditionColumn !in t.header
  {
  }

  /** With the condition column present, the load fails exactly when the input has at most 160 columns. */
  lemma NarrowInputRejected(t: Table)
    requires WellFormed(t) && ConditionColumn in t.header
    ensures Extract(t) == Failure(PositionOutOfBounds) <==> |t.header| <= 160
    ensures Extract(t).Success? <==> |t.header| > 160
  {
    ExtractColumnsFacts();
    if |t.header| <= 160 {
      var k :| 0 <= k < |ExtractColumns| && ExtractColumns[k] == 160;
    }
  }

  /** Output header j is input header ExtractColumns[j]; the header and every row have 21 cells. */
  lemma ExtractShape(t: Table)
    requires WellFormed(t) && ConditionColumn in t.header && |t.header| > 160
    ensures |Extract(t).value.header| == 21
    ensures forall j | 0 <= j < 21 :: Extract(t).value.header[j] == t.header[ExtractColumns[j]]
    ensures forall i | 0 <= i < |Extract(t).value.rows| :: |Extract(t).value.rows[i]| == 21
  {
    NarrowInputRejected(t);
  }

  /** The successful result, spelled out in terms of its parts. */
  lemma ExtractValue(t: Table, c: nat)
    requires WellFormed(t) && ConditionAt(t, c) && |t.header| > 160
    ensures AllBelow(ExtractColumns, |t.header|) && Extract(t).Success?
    ensures Extract(t).value.rows == ResultRows(t, c)
  {
    ExtractColumnsFacts();
    assert IndexOf(t.header, ConditionColumn) == Some(c);
  }

  /**
    Every output row is the projection of a selected source row, and the
    projection of every selected source row is in the output.
   */
  lemma ExtractSelectsExactly(t: Table, c: nat)
    requires WellFormed(t) && ConditionAt(t, c) && |t.header| > 160
    ensures Extract(t).Success?
    ensures forall k | 0 <= k < |Extract(t).value.rows| :: exists p | 0 <= p < |t.rows| ::
      Selected(t, c, p) && Extract(t).value.rows[k] == Select(t.rows[p], ExtractColumns)
    ensures forall p | 0 <= p < |t.rows| && Selected(t, c, p) ::
      Select(t.rows[p], ExtractColumns) in Extract(t).value.rows
  {
    ExtractValue(t, c);
    forall k | 0 <= k < |Extract(t).value.rows|
      ensures exists p | 0 <= p < |t.rows| ::
        Selected(t, c, p) && Extract(t).value.rows[k] == Select(t.rows[p], ExtractColumns)
    {
      OutputRowIsSelected(t, c, k);
    }
    forall p | 0 <= p < |t.rows| && Selected(t, c, p)
      ensures Select(t.rows[p], ExtractColumns) in Extract(t).value.rows
    {
      SelectedRowIsOutput(t, c, p);
    }
  }

  /** The positions drawn from, forced then filtered, are exactly the selected ones. */
  lemma SelectedPositions(t: Table, c: nat, p: nat)
    ensures p in FixedPositions(|t.rows|) + FilteredPositions(t, c) <==> p < |t.rows| && Selected(t, c, p)
  {
  }

  /** Forced and filtered parts together are the selected positions' rows, cut to the kept columns. */
  lemma PartsAsOneSelection(t: Table, c: nat)
    requires WellFormed(t) && AllBelow(ExtractColumns, |t.header|)
    ensures FixedPart(t) + FilteredPart(t, c) ==
      Columns(Select(t.rows, FixedPositions(|t.rows|) + FilteredPositions(t, c)), ExtractColumns)
  {
    ColumnsOfSelectAppend(t.rows, FixedPositions(|t.rows|), FilteredPositions(t, c), ExtractColumns);
  }

  /** An output row is one of the cut rows at the forced or filtered positions. */
  lemma ResultRowInSelection(t: Table, c: nat, x: Row)
    requires WellFormed(t) && AllBelow(ExtractColumns, |t.header|)
    requires x in ResultRows(t, c)
    ensures x in Columns(Select(t.rows, FixedPositions(|t.rows|) + FilteredPositions(t, c)), ExtractColumns)
  {
    PartsAsOneSelection(t, c);
    DedupMembership(FixedPart(t) + FilteredPart(t, c), x);
  }

  lemma OutputRowIsSelected(t: Table, c: nat, k: nat)
    requires WellFormed(t) && AllBelow(ExtractColumns, |t.header|)
    requires k < |ResultRows(t, c)|
    ensures exists p | 0 <= p < |t.rows| ::
      Selected(t, c, p) && ResultRows(t, c)[k] == Select(t.rows[p], ExtractColumns)
  {
    var x := ResultRows(t, c)[k];
    var positions := FixedPositions(|t.rows|) + FilteredPositions(t, c);
    ResultRowInSelection(t, c, x);
    ColumnsOfSelect(t.rows, positions, ExtractColumns, x);
    var p :| p in positions && x == Select(t.rows[p], ExtractColumns);
    SelectedPositions(t, c, p);
  }

  lemma SelectedRowIsOutput(t: Table, c: nat, p: nat)
    requires WellFormed(t) && AllBelow(ExtractColumns, |t.header|)
    requires p < |t.rows| && Selected(t, c, p)
    ensures Select(t.rows[p], ExtractColumns) in ResultRows(t, c)
  {
    var x := Select(t.rows[p], ExtractColumns);
    var positions := FixedPositions(|t.rows|) + FilteredPositions(t, c);
    SelectedPositions(t, c, p);
    ColumnsOfSelect(t.rows, positions, ExtractColumns, x);
    PartsAsOneSelection(t, c);
    DedupMembership(FixedPart(t) + FilteredPart(t, c), x);
  }

  /**
    The surviving forced rows come first, in their own order; every row after
    them comes from the filtered part and equals no forced row.
   */
  lemma FixedRowsFirst(t: Table, c: nat)
    requires WellFormed(t) && ConditionAt(t, c) && |t.header| > 160
    ensures Extract(t).Success?
    ensures Dedup(FixedPart(t)) <= Extract(t).value.rows
    ensures forall k | |Dedup(FixedPart(t))| <= k < |Extract(t).value.rows| ::
      Extract(t).value.rows[k] in FilteredPart(t, c) && Extract(t).value.rows[k] !in FixedPart(t)
  {
    ExtractValue(t, c);
    DedupAppend(FixedPart(t), FilteredPart(t, c));
  }

  /** A filtered row equal to a forced row appears exactly once, among the forced rows. */
  lemma EqualFilteredRowDropped(t: Table, c: nat, x: Row)
    requires WellFormed(t) && ConditionAt(t, c) && |t.header| > 160
    requires AllBelow(ExtractColumns, |t.header|)
    requires x in FixedPart(t) && x in FilteredPart(t, c)
    ensures Extract(t).Success?
    ensures exists k | 0 <= k < |Extract(t).value.rows| :: k < |Dedup(FixedPart(t))| && Extract(t).value.rows[k] == x
    ensures forall i, j | 0 <= i < j < |Extract(t).value.rows| :: Extract(t).value.rows[i] != x || Extract(t).value.rows[j] != x
  {
    FixedRowsFirst(t, c);
    DedupMembership(FixedPart(t), x);
    var d := Dedup(FixedPart(t));
    var k :| 0 <= k < |d| && d[k] == x;
    assert Extract(t).value.rows[k] == x;
  }

  /** No two output rows are equal, and nothing but repeats is lost. */
  lemma ExtractNoRepeats(t: Table, c: nat)
    requires WellFormed(t) && ConditionAt(t, c) && |t.header| > 160
    ensures Extract(t).Success?
    ensures Distinct(Extract(t).value.rows)
    ensures |Extract(t).value.rows| <= |FixedPart(t)| + |FilteredPart(t, c)|
    ensures forall x :: x in Extract(t).value.rows <==> x in FixedPart(t) + FilteredPart(t, c)
  {
    ExtractValue(t, c);
    forall x
      ensures x in ResultRows(t, c) <==> x in FixedPart(t) + FilteredPart(t, c)
    {
      DedupMembership(FixedPart(t) + FilteredPart(t, c), x);
    }
  }
}
