/**
  The DataFrame operations the extraction rule is built from, each stated on
  plain sequences: a table is a header and rows of cells, a missing cell
  (NaN) is None, and the row index is the default RangeIndex, so a row's label
  is its position.
 */
module Frames {
  import opened Wrappers

  /** A parsed cell: None is a missing value, Some(v) a present one. */
  type Cell = Option<string>

  type Row = seq<Cell>

  datatype Table = Table(header: seq<string>, rows: seq<Row>)

  /** Every row is as wide as the header, as in any DataFrame. */
  predicate WellFormed(t: Table) {
    forall i | 0 <= i < |t.rows| :: |t.rows[i]| == |t.header|
  }

  /** `notna()` of the cell at position c. */
  predicate Present(row: Row, c: nat) {
    c < |row| && row[c].Some?
  }

  /** Every position in `positions` is below n. */
  predicate AllBelow(positions: seq<nat>, n: nat) {
    forall k | 0 <= k < |positions| :: positions[k] < n
  }

  predicate StrictlyIncreasing(positions: seq<nat>) {
    forall i, j | 0 <= i < j < |positions| :: positions[i] < positions[j]
  }

  /** No two elements are equal. */
  predicate Distinct<T(==)>(s: seq<T>) {
    forall i, j | 0 <= i < j < |s| :: s[i] != s[j]
  }

  /** Position of the first element equal to x; used for `name in df.columns` and `df[name]`. */
  function IndexOf<T(==)>(s: seq<T>, x: T): (r: Option<nat>)
    ensures r.None? <==> x !in s
    ensures r.Some? ==> r.value < |s| && s[r.value] == x
    ensures r.Some? ==> forall k | 0 <= k < r.value :: s[k] != x
  {
    if s == [] then None
    else if s[0] == x then Some(0)
    else match IndexOf(s[1..], x)
      case None => None
      case Some(i) => Some(i + 1)
  }

  /** The elements at the given positions, in the order given: `loc[labels]` on rows, `iloc[:, positions]` on a row. */
  function Select<T>(s: seq<T>, positions: seq<nat>): (r: seq<T>)
    requires AllBelow(positions, |s|)
    ensures |r| == |positions|
    ensures forall k | 0 <= k < |positions| :: r[k] == s[positions[k]]
  {
    if positions == [] then []
    else [s[positions[0]]] + Select(s, positions[1..])
  }

  /** `iloc[:, cols]` on a block of rows: each row cut down to the columns at `cols`. */
  function Columns(rows: seq<Row>, cols: seq<nat>): (r: seq<Row>)
    requires forall i | 0 <= i < |rows| :: AllBelow(cols, |rows[i]|)
    ensures |r| == |rows|
    ensures forall i | 0 <= i < |rows| :: r[i] == Select(rows[i], cols)
  {
    if rows == [] then []
    else [Select(rows[0], cols)] + Columns(rows[1..], cols)
  }

  /** Rows picked by position and cut to `cols` are exactly the cuts of the rows at those positions. */
  lemma ColumnsOfSelect(rows: seq<Row>, positions: seq<nat>, cols: seq<nat>, x: Row)
    requires AllBelow(positions, |rows|)
    requires forall i | 0 <= i < |rows| :: AllBelow(cols, |rows[i]|)
    ensures x in Columns(Select(rows, positions), cols) <==>
      exists p | p in positions :: x == Select(rows[p], cols)
  {
    var block := Columns(Select(rows, positions), cols);
    if x in block {
      var i :| 0 <= i < |block| && block[i] == x;
      assert positions[i] in positions && x == Select(rows[positions[i]], cols);
    }
    if exists p | p in positions :: x == Select(rows[p], cols) {
      var p :| p in positions && x == Select(rows[p], cols);
      var i :| 0 <= i < |positions| && positions[i] == p;
      assert block[i] == x;
    }
  }

  /** Picking and cutting rows at ps ++ qs is doing it at ps, then at qs. */
  lemma ColumnsOfSelectAppend(rows: seq<Row>, ps: seq<nat>, qs: seq<nat>, cols: seq<nat>)
    requires AllBelow(ps, |rows|) && AllBelow(qs, |rows|)
    requires forall i | 0 <= i < |rows| :: AllBelow(cols, |rows[i]|)
    ensures Columns(Select(rows, ps + qs), cols) == Columns(Select(rows, ps), cols) + Columns(Select(rows, qs), cols)
  {
  }

  /**
    `RangeIndex(n).intersection(positions)`: the positions that label an
    existing row, in ascending order; the others are dropped silently.
   */
  function Intersect(n: nat, positions: seq<nat>): (r: seq<nat>)
    requires StrictlyIncreasing(positions)
    ensures forall p :: p in r <==> p in positions && p < n
    ensures StrictlyIncreasing(r)
    ensures AllBelow(r, n)
  {
    if positions == [] then []
    else
      var rest := Intersect(n, positions[1..]);
      assert forall k | 0 <= k < |rest| :: positions[0] < rest[k] by {
        forall k | 0 <= k < |rest|
          ensures positions[0] < rest[k]
        {
          assert rest[k] in rest;
          var m :| 0 <= m < |positions[1..]| && positions[1..][m] == rest[k];
          assert positions[m + 1] == rest[k];
        }
      }
      if positions[0] < n then [positions[0]] + rest else rest
  }

  /**
    The positions of the rows of `df.loc[start:]` whose cell in column c is
    present, in row order: the label slice followed by the `notna()` mask.
   */
  function PresentFrom(rows: seq<Row>, c: nat, start: nat): (r: seq<nat>)
    decreases |rows| - start
    ensures forall p :: p in r <==> start <= p < |rows| && Present(rows[p], c)
    ensures StrictlyIncreasing(r)
    ensures AllBelow(r, |rows|)
  {
    if start >= |rows| then []
    else
      var rest := PresentFrom(rows, c, start + 1);
      assert forall k | 0 <= k < |rest| :: start < rest[k] by {
        forall k | 0 <= k < |rest|
          ensures start < rest[k]
        {
          assert rest[k] in rest;
        }
      }
      if Present(rows[start], c) then [start] + rest else rest
  }

  /**
    `drop_duplicates()` with keep='first': an element is kept exactly when no
    equal element comes before it. Missing cells compare equal to each other,
    as NaN does for pandas' duplicate detection.
   */
  function Dedup<T(==)>(s: seq<T>): (r: seq<T>)
    ensures |r| <= |s|
    ensures forall i | 0 <= i < |r| :: r[i] in s
    ensures Distinct(r)
  {
    if s == [] then []
    else
      var init, last := s[..|s| - 1], s[|s| - 1];
      assert s == init + [last];
      if last in init then Dedup(init) else Dedup(init) + [last]
  }

  /** Nothing is lost but repeats: every element of the input is kept. */
  lemma {:induction false} DedupMembership<T>(s: seq<T>, x: T)
    ensures x in Dedup(s) <==> x in s
  {
    if s != [] {
      var init, last := s[..|s| - 1], s[|s| - 1];
      assert s == init + [last];
      DedupSnoc(init, last);
      DedupMembership(init, x);
    }
  }

  lemma DedupSnoc<T>(s: seq<T>, x: T)
    ensures Dedup(s + [x]) == if x in s then Dedup(s) else Dedup(s) + [x]
  {
    assert (s + [x])[..|s|] == s;
  }

  /** Input without repeats passes through unchanged. */
  lemma {:induction false} DedupOfDistinct<T>(s: seq<T>)
    requires Distinct(s)
    ensures Dedup(s) == s
  {
    if s != [] {
      var init, last := s[..|s| - 1], s[|s| - 1];
      assert s == init + [last];
      DedupSnoc(init, last);
      DedupOfDistinct(init);
    }
  }

  /** Removing duplicates a second time changes nothing. */
  lemma DedupIdempotent<T>(s: seq<T>)
    ensures Dedup(Dedup(s)) == Dedup(s)
  {
    DedupOfDistinct(Dedup(s));
  }

  /**
    Deduplicating a concatenation keeps the deduplicated first part as a
    prefix; what follows it comes from the second part and equals nothing in
    the first.
   */
  lemma {:induction false} DedupAppend<T>(a: seq<T>, b: seq<T>)
    ensures Dedup(a) <= Dedup(a + b)
    ensures forall k | |Dedup(a)| <= k < |Dedup(a + b)| :: Dedup(a + b)[k] in b && Dedup(a + b)[k] !in a
  {
    if b == [] {
      assert a + b == a;
    } else {
      var init, last := b[..|b| - 1], b[|b| - 1];
      assert b == init + [last];
      assert a + b == (a + init) + [last];
      DedupSnoc(a + init, last);
      DedupAppend(a, init);
    }
  }

  lemma {:induction false} IndexOfSnoc<T>(s: seq<T>, x: T, y: T)
    requires y in s
    ensures IndexOf(s + [x], y) == IndexOf(s, y)
  {
    if s[0] != y {
      assert (s + [x])[1..] == s[1..] + [x];
      IndexOfSnoc(s[1..], x, y);
    }
  }

  /**
    The kept elements appear in the order of their first occurrences. With
    the element and distinctness clauses of Dedup this fixes its result
    completely.
   */
  lemma {:induction false} DedupFirstOccurrenceOrder<T>(s: seq<T>)
    ensures forall i, j | 0 <= i < j < |Dedup(s)| ::
      IndexOf(s, Dedup(s)[i]).value < IndexOf(s, Dedup(s)[j]).value
  {
    if s != [] {
      var init, last := s[..|s| - 1], s[|s| - 1];
      assert s == init + [last];
      DedupSnoc(init, last);
      DedupFirstOccurrenceOrder(init);
      var d := Dedup(init);
      forall y | y in init
        ensures IndexOf(s, y) == IndexOf(init, y)
      {
        IndexOfSnoc(init, last, y);
      }
      if last !in init {
        assert IndexOf(s, last) == Some(|init|);
        forall i, j | 0 <= i < j < |Dedup(s)|
          ensures IndexOf(s, Dedup(s)[i]).value < IndexOf(s, Dedup(s)[j]).value
        {
          assert Dedup(s)[i] == d[i] && d[i] in init;
          if j < |d| {
            assert Dedup(s)[j] == d[j] && d[j] in init;
          }
        }
      } else {
        forall i | 0 <= i < |d|
          ensures IndexOf(s, d[i]) == IndexOf(init, d[i])
        {
          assert d[i] in init;
        }
      }
    }
  }
}
