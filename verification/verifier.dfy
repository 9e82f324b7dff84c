/**
 * The answer checker `rowsEqual`: two result sets are judged equal when they
 * have the same number of rows and, position by position, each pair of rows
 * has the same number of columns and every column of the first row holds a
 * strictly equal (`!==` is false) value in the second.
 */
module Verifier {
  import opened Values

  /** The per-row test: equal key counts, and every key of `rowA` reads the same value in `rowB`. */
  predicate RowsMatch(rowA: Row, rowB: Row)
  {
    && |rowA.Keys| == |rowB.Keys|
    && forall k :: k in rowA ==> Lookup(rowA, k) == Lookup(rowB, k)
  }

  /** Declarative reading of `rowsEqual(a, b)`. */
  predicate SameRows(a: seq<Row>, b: seq<Row>)
  {
    && |a| == |b|
    && forall i :: 0 <= i < |a| ==> RowsMatch(a[i], b[i])
  }

  /**
   * `rowsEqual` as the source runs it: an early length check, then a loop
   * over row positions with an inner loop over the keys of the first row.
   */
  method RowsEqual(a: seq<Row>, b: seq<Row>) returns (eq: bool)
    ensures eq <==> SameRows(a, b)
    ensures |a| != |b| ==> !eq
    ensures |a| == 0 && |b| == 0 ==> eq
    ensures WellFormedRows(a) ==> (eq <==> a == b)
  {
    SameRowsIsEquality(a, b);
    if |a| != |b| {
      return false;
    }
    var i := 0;
    while i < |a|
      invariant 0 <= i <= |a|
      invariant forall j :: 0 <= j < i ==> RowsMatch(a[j], b[j])
    {
      var rowA := a[i];
      var rowB := b[i];
      if |rowA.Keys| != |rowB.Keys| {
        return false;
      }
      var keys := rowA.Keys;
      while keys != {}
        invariant keys <= rowA.Keys
        invariant forall k :: k in rowA.Keys - keys ==> Lookup(rowA, k) == Lookup(rowB, k)
        decreases keys
      {
        var k :| k in keys;
        if Lookup(rowA, k) != Lookup(rowB, k) {
          return false;
        }
        keys := keys - {k};
      }
      i := i + 1;
    }
    return true;
  }

  lemma SubsetOfSameSize<T>(s: set<T>, t: set<T>)
    requires s <= t && |s| == |t|
    ensures s == t
  {
    assert t == s + (t - s);
  }

  /**
   * For a first row without `undefined` cells the row test is exactly map
   * equality: equal key counts plus "every key of A reads an equal value in
   * B" forces equal key sets.
   */
  lemma RowsMatchIsEquality(rowA: Row, rowB: Row)
    requires WellFormedRow(rowA)
    ensures RowsMatch(rowA, rowB) <==> rowA == rowB
  {
    if RowsMatch(rowA, rowB) {
      forall k | k in rowA
        ensures k in rowB && rowB[k] == rowA[k]
      {
        assert Lookup(rowA, k) == Lookup(rowB, k);
      }
      SubsetOfSameSize(rowA.Keys, rowB.Keys);
    }
  }

  /** When every row of the first argument is well-formed, the checker decides sequence equality. */
  lemma SameRowsIsEquality(a: seq<Row>, b: seq<Row>)
    ensures WellFormedRows(a) ==> (SameRows(a, b) <==> a == b)
  {
    if WellFormedRows(a) && SameRows(a, b) {
      forall i | 0 <= i < |a|
        ensures a[i] == b[i]
      {
        RowsMatchIsEquality(a[i], b[i]);
      }
    }
  }

  /** Reflexive for any rows; symmetric and transitive once the first argument is well-formed. */
  lemma SameRowsIsEquivalence(a: seq<Row>, b: seq<Row>, c: seq<Row>)
    ensures SameRows(a, a)
    ensures WellFormedRows(a) && SameRows(a, b) ==> SameRows(b, a)
    ensures WellFormedRows(a) && SameRows(a, b) && SameRows(b, c) ==> SameRows(a, c)
  {
    SameRowsIsEquality(a, b);
    if WellFormedRows(a) && SameRows(a, b) {
      SameRowsIsEquality(b, c);
    }
  }

  /** `a` with the rows at positions `i` and `j` exchanged. */
  function Swap(a: seq<Row>, i: nat, j: nat): seq<Row>
    requires i < |a| && j < |a|
  {
    a[i := a[j]][j := a[i]]
  }

  /**
   * The comparison is positional: exchanging two different rows of a
   * well-formed result makes it differ from the original, in either argument
   * order, although both hold the same rows.
   */
  lemma SwapIsDetected(a: seq<Row>, i: nat, j: nat)
    requires WellFormedRows(a)
    requires i < |a| && j < |a| && a[i] != a[j]
    ensures !SameRows(a, Swap(a, i, j))
    ensures !SameRows(Swap(a, i, j), a)
    ensures multiset(Swap(a, i, j)) == multiset(a)
  {
    var s := Swap(a, i, j);
    SameRowsIsEquality(a, s);
    assert s[i] != a[i];
    assert WellFormedRow(a[j]);
    assert WellFormedRows(s) by {
      forall k | 0 <= k < |s| ensures WellFormedRow(s[k]) {
        if k != i && k != j { assert s[k] == a[k]; }
      }
    }
    SameRowsIsEquality(s, a);
  }

  /**
   * Without the well-formedness premise the equivalence fails: a first row
   * holding `undefined` under a key the second row lacks passes the key test,
   * and the check is then not even symmetric.
   */
  lemma UndefinedCellsBreakEquality()
    ensures var a := [map["x" := Undefined]];
            var b := [map["y" := Int(1)]];
            SameRows(a, b) && a != b && !SameRows(b, a)
  {
    var a := [map["x" := Undefined]];
    var b := [map["y" := Int(1)]];
    assert a[0] != b[0] by { assert "x" in a[0]; }
    assert !RowsMatch(b[0], a[0]) by { assert Lookup(b[0], "y") == Int(1); }
  }
}
