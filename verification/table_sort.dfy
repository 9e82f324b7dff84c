/**
 * Sorting of the displayed data tables: the header-click toggle that picks
 * the sort column and direction, and the comparator sort `renderTable`
 * applies to a copy of the rows.
 */
module TableSort {
  import opened Wrappers
  import opened Values
  import opened TextOrder

  datatype Direction = Asc | Desc

  /** The `{ column, direction }` state kept for each data table. */
  datatype SortState = SortState(column: Option<string>, direction: Direction)

  /** Both tables start unsorted, with the direction set to ascending. */
  const InitialSort: SortState := SortState(None, Asc)

  function Opposite(d: Direction): Direction
  {
    if d == Asc then Desc else Asc
  }

  /**
   * A click on header `col`: the column becomes `col`; the direction turns
   * descending only when `col` was already the ascending sort column.
   */
  function ToggleSort(prev: SortState, col: string): SortState
  {
    SortState(Some(col), if prev.column == Some(col) && prev.direction == Asc then Desc else Asc)
  }

  /** `n` successive clicks on the same header. */
  function Clicks(s: SortState, col: string, n: nat): SortState
    decreases n
  {
    if n == 0 then s else Clicks(ToggleSort(s, col), col, n - 1)
  }

  /** On the current sort column, clicks flip the direction: an even number restores the state. */
  lemma {:induction false} SameColumnClicks(s: SortState, col: string, n: nat)
    requires s.column == Some(col)
    ensures Clicks(s, col, n) == if n % 2 == 0 then s else s.(direction := Opposite(s.direction))
    decreases n
  {
    if n > 0 {
      var t := ToggleSort(s, col);
      assert t == s.(direction := Opposite(s.direction));
      SameColumnClicks(t, col, n - 1);
    }
  }

  /** Clicking a header that is not the sort column sorts ascending, then descending, and so on. */
  lemma {:induction false} NewColumnClicks(s: SortState, col: string, n: nat)
    requires s.column != Some(col) && n > 0
    ensures Clicks(s, col, n) == SortState(Some(col), if n % 2 == 1 then Asc else Desc)
  {
    var t := ToggleSort(s, col);
    assert t == SortState(Some(col), Asc);
    SameColumnClicks(t, col, n - 1);
  }

  /**
   * JavaScript `<` between two cells of a sortable column: numeric order on
   * numbers, `LexLess` on strings. Every other pairing (`undefined`, `null`,
   * mixed kinds) is treated as "not less".
   */
  predicate ValueLess(a: Value, b: Value)
  {
    match (a, b)
    case (Int(x), Int(y)) => x < y
    case (Text(x), Text(y)) => LexLess(x, y)
    case _ => false
  }

  /** The comparator passed to `Array.prototype.sort`. */
  function Compare(a: Row, b: Row, col: string, dir: Direction): int
  {
    var x := Lookup(a, col);
    var y := Lookup(b, col);
    if ValueLess(x, y) then (if dir == Asc then -1 else 1)
    else if ValueLess(y, x) then (if dir == Asc then 1 else -1)
    else 0
  }

  /** A column whose cells are all numbers or all strings; the fixture tables have only such columns. */
  predicate Sortable(rows: seq<Row>, col: string)
  {
    || (forall r :: r in rows ==> Lookup(r, col).Int?)
    || (forall r :: r in rows ==> Lookup(r, col).Text?)
  }

  /** No pair of rows is out of order for the comparator. */
  ghost predicate Ordered(rows: seq<Row>, col: string, dir: Direction)
  {
    forall i, j :: 0 <= i < j < |rows| ==> Compare(rows[i], rows[j], col, dir) <= 0
  }

  ghost predicate SameKind(a: Row, b: Row, c: Row, col: string)
  {
    || (Lookup(a, col).Int? && Lookup(b, col).Int? && Lookup(c, col).Int?)
    || (Lookup(a, col).Text? && Lookup(b, col).Text? && Lookup(c, col).Text?)
  }

  /** On a sortable column the comparator is a total preorder. */
  lemma CompareTotalPreorder(a: Row, b: Row, c: Row, col: string, dir: Direction)
    requires SameKind(a, b, c, col)
    ensures Compare(a, b, col, dir) > 0 ==> Compare(b, a, col, dir) < 0
    ensures Compare(a, b, col, dir) <= 0 && Compare(b, c, col, dir) <= 0 ==> Compare(a, c, col, dir) <= 0
  {
    var x, y, z := Lookup(a, col), Lookup(b, col), Lookup(c, col);
    if x.Text? {
      LexLessAsymmetric(x.s, y.s);
      LexLessAsymmetric(y.s, z.s);
      LexLessAsymmetric(x.s, z.s);
      LexLessTotal(x.s, y.s);
      LexLessTotal(y.s, z.s);
      LexLessTotal(x.s, z.s);
      if LexLess(x.s, y.s) && LexLess(y.s, z.s) { LexLessTransitive(x.s, y.s, z.s); }
      if LexLess(z.s, y.s) && LexLess(y.s, x.s) { LexLessTransitive(z.s, y.s, x.s); }
      if LexLess(z.s, x.s) && LexLess(x.s, y.s) { LexLessTransitive(z.s, x.s, y.s); }
      if LexLess(y.s, z.s) && LexLess(z.s, x.s) { LexLessTransitive(y.s, z.s, x.s); }
      if LexLess(x.s, z.s) && LexLess(z.s, y.s) { LexLessTransitive(x.s, z.s, y.s); }
      if LexLess(y.s, x.s) && LexLess(x.s, z.s) { LexLessTransitive(y.s, x.s, z.s); }
    }
  }

  /** On a sortable column, "the comparator does not ask to swap" means "not out of order". */
  lemma CompareMeaning(a: Row, b: Row, col: string, dir: Direction)
    requires SameKind(a, b, b, col)
    ensures dir == Asc ==> (Compare(a, b, col, dir) <= 0 <==> !ValueLess(Lookup(b, col), Lookup(a, col)))
    ensures dir == Desc ==> (Compare(a, b, col, dir) <= 0 <==> !ValueLess(Lookup(a, col), Lookup(b, col)))
  {
    var x, y := Lookup(a, col), Lookup(b, col);
    if x.Text? {
      LexLessAsymmetric(x.s, y.s);
    }
  }

  /** A row that precedes every row of an ordered sequence can head it. */
  lemma ConsOrdered(h: Row, rest: seq<Row>, col: string, dir: Direction)
    requires Ordered(rest, col, dir)
    requires forall y :: y in rest ==> Compare(h, y, col, dir) <= 0
    ensures Ordered([h] + rest, col, dir)
  {
    var r := [h] + rest;
    forall i, j | 0 <= i < j < |r| ensures Compare(r[i], r[j], col, dir) <= 0 {
      if i == 0 {
        assert r[j] in rest;
      } else {
        assert r[i] == rest[i - 1] && r[j] == rest[j - 1];
      }
    }
  }

  /** Places `x` before the first row it does not sort after, keeping `x` ahead of its ties. */
  function Insert(x: Row, sorted: seq<Row>, col: string, dir: Direction): (r: seq<Row>)
    ensures multiset(r) == multiset(sorted) + multiset{x}
    ensures Sortable([x] + sorted, col) && Ordered(sorted, col, dir) ==> Ordered(r, col, dir)
    decreases |sorted|
  {
    if |sorted| == 0 then [x]
    else if Compare(x, sorted[0], col, dir) <= 0 then
      InsertHeadOrdered(x, sorted, col, dir);
      [x] + sorted
    else
      var rest := Insert(x, sorted[1..], col, dir);
      InsertTailOrdered(x, sorted, rest, col, dir);
      assert sorted == [sorted[0]] + sorted[1..];
      [sorted[0]] + rest
  }

  lemma InsertHeadOrdered(x: Row, sorted: seq<Row>, col: string, dir: Direction)
    requires |sorted| > 0 && Compare(x, sorted[0], col, dir) <= 0
    ensures Sortable([x] + sorted, col) && Ordered(sorted, col, dir) ==> Ordered([x] + sorted, col, dir)
  {
    if Sortable([x] + sorted, col) && Ordered(sorted, col, dir) {
      forall y | y in sorted ensures Compare(x, y, col, dir) <= 0 {
        var j :| 0 <= j < |sorted| && sorted[j] == y;
        assert y in [x] + sorted && sorted[0] in [x] + sorted;
        CompareTotalPreorder(x, sorted[0], y, col, dir);
      }
      ConsOrdered(x, sorted, col, dir);
    }
  }

  lemma InsertTailOrdered(x: Row, sorted: seq<Row>, rest: seq<Row>, col: string, dir: Direction)
    requires |sorted| > 0 && Compare(x, sorted[0], col, dir) > 0
    requires multiset(rest) == multiset(sorted[1..]) + multiset{x}
    requires Sortable([x] + sorted[1..], col) && Ordered(sorted[1..], col, dir) ==> Ordered(rest, col, dir)
    ensures Sortable([x] + sorted, col) && Ordered(sorted, col, dir) ==> Ordered([sorted[0]] + rest, col, dir)
  {
    if Sortable([x] + sorted, col) && Ordered(sorted, col, dir) {
      assert Sortable([x] + sorted[1..], col) by {
        assert sorted == [sorted[0]] + sorted[1..];
        assert forall y :: y in [x] + sorted[1..] ==> y in [x] + sorted;
      }
      assert Ordered(sorted[1..], col, dir) by {
        OrderedTail(sorted, col, dir);
      }
      forall y | y in rest ensures Compare(sorted[0], y, col, dir) <= 0 {
        assert y in multiset(rest);
        HeadBeforeInserted(x, sorted, y, col, dir);
      }
      ConsOrdered(sorted[0], rest, col, dir);
    }
  }

  /** The head of an ordered sequence does not sort after `x` it was ahead of, nor after any later row. */
  lemma HeadBeforeInserted(x: Row, sorted: seq<Row>, y: Row, col: string, dir: Direction)
    requires |sorted| > 0 && Compare(x, sorted[0], col, dir) > 0
    requires Sortable([x] + sorted, col) && Ordered(sorted, col, dir)
    requires y == x || y in sorted[1..]
    ensures Compare(sorted[0], y, col, dir) <= 0
  {
    if y == x {
      assert sorted[0] in [x] + sorted && x in [x] + sorted;
      CompareTotalPreorder(x, sorted[0], x, col, dir);
    } else {
      var j :| 0 <= j < |sorted[1..]| && sorted[1..][j] == y;
      assert sorted[j + 1] == y;
    }
  }

  /** Rows drawn from a sortable column are sortable. */
  lemma SortableSubset(rows: seq<Row>, sub: seq<Row>, col: string)
    requires multiset(sub) <= multiset(rows)
    ensures Sortable(rows, col) ==> Sortable(sub, col)
  {
    forall y | y in sub ensures y in rows {
      assert y in multiset(sub);
    }
  }

  /** Insertion sort with the comparator: a permutation, ordered when the column is sortable. */
  function SortRows(rows: seq<Row>, col: string, dir: Direction): (r: seq<Row>)
    ensures multiset(r) == multiset(rows)
    ensures Sortable(rows, col) ==> Ordered(r, col, dir)
    decreases |rows|
  {
    if |rows| == 0 then []
    else
      var rest := SortRows(rows[1..], col, dir);
      assert rows == [rows[0]] + rows[1..];
      assert multiset(rows) == multiset{rows[0]} + multiset(rows[1..]);
      assert multiset([rows[0]] + rest) == multiset(rows);
      SortableSubset(rows, rows[1..], col);
      SortableSubset(rows, [rows[0]] + rest, col);
      Insert(rows[0], rest, col, dir)
  }

  /** The tail of an ordered sequence is ordered. */
  lemma OrderedTail(rows: seq<Row>, col: string, dir: Direction)
    requires |rows| > 0 && Ordered(rows, col, dir)
    ensures Ordered(rows[1..], col, dir)
  {
    var t := rows[1..];
    forall i, j | 0 <= i < j < |t| ensures Compare(t[i], t[j], col, dir) <= 0 {
      assert t[i] == rows[i + 1] && t[j] == rows[j + 1];
    }
  }

  lemma SortRowsStep(rows: seq<Row>, col: string, dir: Direction)
    requires |rows| > 0
    ensures SortRows(rows, col, dir) == Insert(rows[0], SortRows(rows[1..], col, dir), col, dir)
  {
  }

  /** A row that does not sort after the head is placed in front. */
  lemma InsertInFront(x: Row, sorted: seq<Row>, col: string, dir: Direction)
    requires |sorted| == 0 || Compare(x, sorted[0], col, dir) <= 0
    ensures Insert(x, sorted, col, dir) == [x] + sorted
  {
  }

  /** Sorting rows that are already in order moves nothing, ties included. */
  lemma {:induction false} SortOrderedIsIdentity(rows: seq<Row>, col: string, dir: Direction)
    requires Ordered(rows, col, dir)
    ensures SortRows(rows, col, dir) == rows
    decreases |rows|
  {
    if |rows| > 0 {
      var t := rows[1..];
      assert SortRows(t, col, dir) == t by {
        OrderedTail(rows, col, dir);
        SortOrderedIsIdentity(t, col, dir);
      }
      assert |t| == 0 || Compare(rows[0], t[0], col, dir) <= 0 by {
        if |t| > 0 {
          assert t[0] == rows[1];
        }
      }
      calc {
        SortRows(rows, col, dir);
      == { SortRowsStep(rows, col, dir); }
        Insert(rows[0], t, col, dir);
      == { InsertInFront(rows[0], t, col, dir); }
        [rows[0]] + t;
      }
      assert rows == [rows[0]] + t;
    }
  }

  /**
   * The rows `renderTable` displays. Without a (truthy) sort column the input
   * is shown as is; otherwise a sorted copy: a permutation of the input,
   * non-decreasing on the column when ascending and non-increasing when
   * descending. Rows are values, so the input itself is never altered.
   */
  function DisplaySort(rows: seq<Row>, sortColumn: Option<string>, dir: Direction): (shown: seq<Row>)
    ensures sortColumn == None || sortColumn == Some("") ==> shown == rows
    ensures multiset(shown) == multiset(rows)
    ensures sortColumn.Some? && sortColumn.value != "" && Sortable(rows, sortColumn.value) && dir == Asc ==>
              forall i, j :: 0 <= i < j < |shown| ==>
                !ValueLess(Lookup(shown[j], sortColumn.value), Lookup(shown[i], sortColumn.value))
    ensures sortColumn.Some? && sortColumn.value != "" && Sortable(rows, sortColumn.value) && dir == Desc ==>
              forall i, j :: 0 <= i < j < |shown| ==>
                !ValueLess(Lookup(shown[i], sortColumn.value), Lookup(shown[j], sortColumn.value))
  {
    if sortColumn == None || sortColumn == Some("") then rows
    else
      var col := sortColumn.value;
      var r := SortRows(rows, col, dir);
      OrderedMeaning(rows, r, col, dir);
      r
  }

  lemma OrderedMeaning(rows: seq<Row>, r: seq<Row>, col: string, dir: Direction)
    requires multiset(r) == multiset(rows)
    requires Sortable(rows, col) ==> Ordered(r, col, dir)
    ensures Sortable(rows, col) && dir == Asc ==>
              forall i, j :: 0 <= i < j < |r| ==> !ValueLess(Lookup(r[j], col), Lookup(r[i], col))
    ensures Sortable(rows, col) && dir == Desc ==>
              forall i, j :: 0 <= i < j < |r| ==> !ValueLess(Lookup(r[i], col), Lookup(r[j], col))
  {
    if Sortable(rows, col) {
      forall i, j | 0 <= i < j < |r|
        ensures dir == Asc ==> !ValueLess(Lookup(r[j], col), Lookup(r[i], col))
        ensures dir == Desc ==> !ValueLess(Lookup(r[i], col), Lookup(r[j], col))
      {
        assert r[i] in multiset(rows) && r[j] in multiset(rows);
        assert r[i] in rows && r[j] in rows;
        CompareMeaning(r[i], r[j], col, dir);
      }
    }
  }

  /** Sorting the displayed table again by the same column and direction shows the same rows. */
  lemma DisplaySortIdempotent(rows: seq<Row>, sortColumn: Option<string>, dir: Direction)
    requires sortColumn.Some? ==> Sortable(rows, sortColumn.value)
    ensures DisplaySort(DisplaySort(rows, sortColumn, dir), sortColumn, dir) == DisplaySort(rows, sortColumn, dir)
  {
    if sortColumn.Some? && sortColumn.value != "" {
      var col := sortColumn.value;
      var shown := SortRows(rows, col, dir);
      SortOrderedIsIdentity(shown, col, dir);
    }
  }
}
