/**
 * Turning an engine result set into rows: each positional value tuple is
 * zipped with the column-name list into `[name, value]` entries and handed to
 * `Object.fromEntries`, which writes them into a fresh object in order.
 */
module ResultSets {
  import opened Values

  /** One result set as the engine reports it: ordered column names and ordered value tuples. */
  datatype ResultSet = ResultSet(columns: seq<string>, values: seq<seq<Value>>)

  /**
   * `columns[i]` used as a property key: past the end of the list it is
   * `undefined`, which JavaScript turns into the key "undefined".
   */
  function ColumnAt(columns: seq<string>, i: nat): string
  {
    if i < |columns| then columns[i] else "undefined"
  }

  /** A `[key, value]` pair as passed to `Object.fromEntries`. */
  type Entry = (string, Value)

  /** Entry `i` is the last of `entries` that writes its key. */
  ghost predicate LastWriter(entries: seq<Entry>, i: nat)
  {
    forall j :: i < j < |entries| ==> entries[j].0 != entries[i].0
  }

  ghost predicate Distinct<T>(s: seq<T>)
  {
    forall i, j :: 0 <= i < j < |s| ==> s[i] != s[j]
  }

  /** The key written by each entry, in order. */
  function KeysOf(entries: seq<Entry>): seq<string>
  {
    seq(|entries|, i requires 0 <= i < |entries| => entries[i].0)
  }

  lemma KeysOfAt(entries: seq<Entry>)
    ensures |KeysOf(entries)| == |entries|
    ensures forall i :: 0 <= i < |entries| ==> KeysOf(entries)[i] == entries[i].0
  {
  }

  /**
   * `Object.fromEntries(entries)`: the keys are exactly the keys of the
   * entries, each bound to the value of the LAST entry carrying it, and every
   * value comes from some entry.
   */
  function FromEntries(entries: seq<Entry>): (row: Row)
    ensures forall k :: k in row <==> k in KeysOf(entries)
    ensures forall i :: 0 <= i < |entries| && LastWriter(entries, i) ==> entries[i].0 in row && row[entries[i].0] == entries[i].1
    ensures forall k :: k in row ==> (k, row[k]) in entries
    decreases |entries|
  {
    if |entries| == 0 then map[]
    else
      var n := |entries| - 1;
      var prefix := FromEntries(entries[..n]);
      assert entries == entries[..n] + [entries[n]];
      FromEntriesKeysStep(entries[..n], entries[n], prefix);
      FromEntriesLastStep(entries[..n], entries[n], prefix);
      FromEntriesValuesStep(entries[..n], entries[n], prefix);
      prefix[entries[n].0 := entries[n].1]
  }

  lemma FromEntriesKeysStep(init: seq<Entry>, last: Entry, prefix: Row)
    requires forall k :: k in prefix <==> k in KeysOf(init)
    ensures forall k :: k in prefix[last.0 := last.1] <==> k in KeysOf(init + [last])
  {
    KeysOfAt(init);
    KeysOfAt(init + [last]);
    assert KeysOf(init + [last]) == KeysOf(init) + [last.0];
  }

  lemma FromEntriesLastStep(init: seq<Entry>, last: Entry, prefix: Row)
    requires forall k :: k in prefix <==> k in KeysOf(init)
    requires forall i :: 0 <= i < |init| && LastWriter(init, i) ==> init[i].0 in prefix && prefix[init[i].0] == init[i].1
    ensures var entries, row := init + [last], prefix[last.0 := last.1];
            forall i :: 0 <= i < |entries| && LastWriter(entries, i) ==> entries[i].0 in row && row[entries[i].0] == entries[i].1
  {
    var entries := init + [last];
    forall i | 0 <= i < |init| && LastWriter(entries, i)
      ensures entries[i].0 in prefix[last.0 := last.1] && prefix[last.0 := last.1][entries[i].0] == entries[i].1
    {
      assert entries[i] == init[i];
      assert entries[|init|] == last;
      forall j | i < j < |init| ensures init[j].0 != init[i].0 {
        assert entries[j] == init[j];
      }
      assert LastWriter(init, i);
    }
  }

  lemma FromEntriesValuesStep(init: seq<Entry>, last: Entry, prefix: Row)
    requires forall k :: k in prefix ==> (k, prefix[k]) in init
    ensures var row := prefix[last.0 := last.1];
            forall k :: k in row ==> (k, row[k]) in init + [last]
  {
  }

  /** `values.map((v, i) => [columns[i], v])`. */
  function Entries(columns: seq<string>, values: seq<Value>): seq<Entry>
  {
    seq(|values|, i requires 0 <= i < |values| => (ColumnAt(columns, i), values[i]))
  }

  /** One row of the result set as an object. */
  function ZipRow(columns: seq<string>, values: seq<Value>): Row
  {
    FromEntries(Entries(columns, values))
  }

  /** The engine never reports `undefined` as a cell. */
  predicate WellFormedSet(rs: ResultSet)
  {
    forall i, j :: 0 <= i < |rs.values| && 0 <= j < |rs.values[i]| ==> IsSqlValue(rs.values[i][j])
  }

  /** Every tuple has one value per column. */
  predicate Rectangular(rs: ResultSet)
  {
    forall i :: 0 <= i < |rs.values| ==> |rs.values[i]| == |rs.columns|
  }

  /**
   * `res[0].values.map(...)`: every tuple becomes one row, in order. When
   * every tuple has one value per column and the names are distinct, each
   * row has exactly the column names as keys and binds `columns[j]` to the
   * tuple's `j`-th value; rows zipped from engine values never hold
   * `undefined`.
   */
  function ZipRows(rs: ResultSet): (rows: seq<Row>)
    ensures |rows| == |rs.values|
    ensures Rectangular(rs) && Distinct(rs.columns) ==>
              forall i :: 0 <= i < |rows| ==>
                && rows[i].Keys == (set c | c in rs.columns)
                && forall j :: 0 <= j < |rs.columns| ==> rs.columns[j] in rows[i] && rows[i][rs.columns[j]] == rs.values[i][j]
    ensures WellFormedSet(rs) ==> WellFormedRows(rows)
  {
    var rows := seq(|rs.values|, i requires 0 <= i < |rs.values| => ZipRow(rs.columns, rs.values[i]));
    forall i | 0 <= i < |rs.values|
      ensures Rectangular(rs) && Distinct(rs.columns) ==>
                && rows[i].Keys == (set c | c in rs.columns)
                && forall j :: 0 <= j < |rs.columns| ==> rs.columns[j] in rows[i] && rows[i][rs.columns[j]] == rs.values[i][j]
      ensures WellFormedSet(rs) ==> WellFormedRow(rows[i])
    {
      if Rectangular(rs) && Distinct(rs.columns) {
        ZipDistinct(rs.columns, rs.values[i]);
      }
      if WellFormedSet(rs) {
        ZipRowWellFormed(rs.columns, rs.values[i]);
      }
    }
    rows
  }

  /** A row zipped from `undefined`-free values holds no `undefined`. */
  lemma ZipRowWellFormed(columns: seq<string>, values: seq<Value>)
    requires forall j :: 0 <= j < |values| ==> IsSqlValue(values[j])
    ensures WellFormedRow(ZipRow(columns, values))
  {
    var es := Entries(columns, values);
    var row := ZipRow(columns, values);
    forall k | k in row
      ensures IsSqlValue(row[k])
    {
      assert (k, row[k]) in es;
      var i :| 0 <= i < |es| && es[i] == (k, row[k]);
    }
  }

  /** The image of a sequence is no larger than it, and equally large exactly when it has no repeats. */
  lemma {:induction false} ImageSize<T>(s: seq<T>)
    ensures |set x | x in s| <= |s|
    ensures Distinct(s) <==> |set x | x in s| == |s|
    decreases |s|
  {
    if |s| > 0 {
      var n := |s| - 1;
      var init := s[..n];
      ImageSize(init);
      assert (set x | x in s) == (set x | x in init) + {s[n]};
      if s[n] in init {
        var j :| 0 <= j < n && init[j] == s[n];
        assert s[j] == s[n];
      } else {
        assert (set x | x in init) !! {s[n]};
        if Distinct(init) {
          forall i, j | 0 <= i < j < |s| ensures s[i] != s[j] {
            if j == n { assert s[i] in init; } else { assert init[i] != init[j]; }
          }
        } else {
          var i, j :| 0 <= i < j < n && init[i] == init[j];
          assert s[i] == s[j];
        }
      }
    }
  }

  lemma ZipKeys(columns: seq<string>, values: seq<Value>)
    ensures ZipRow(columns, values).Keys == set k | k in KeysOf(Entries(columns, values))
  {
  }

  /**
   * With one value per column and pairwise distinct names, the row binds
   * `columns[j]` to `values[j]`, has exactly the column names as keys, and
   * has as many keys as there are columns.
   */
  lemma ZipDistinct(columns: seq<string>, values: seq<Value>)
    requires |values| == |columns| && Distinct(columns)
    ensures ZipRow(columns, values).Keys == set c | c in columns
    ensures forall j :: 0 <= j < |columns| ==> ZipRow(columns, values)[columns[j]] == values[j]
    ensures |ZipRow(columns, values)| == |columns|
  {
    var es := Entries(columns, values);
    KeysOfAt(es);
    assert KeysOf(es) == columns;
    ZipKeys(columns, values);
    ImageSize(columns);
    forall j | 0 <= j < |columns|
      ensures ZipRow(columns, values)[columns[j]] == values[j]
    {
      assert LastWriter(es, j);
    }
  }

  /**
   * A column name that repeats among the zipped positions collapses: the row
   * has fewer keys than the tuple has values, and the later position's value
   * is the one kept.
   */
  lemma ZipRepeated(columns: seq<string>, values: seq<Value>, i: nat, j: nat)
    requires i < j < |values| && ColumnAt(columns, i) == ColumnAt(columns, j)
    requires forall k :: j < k < |values| ==> ColumnAt(columns, k) != ColumnAt(columns, j)
    ensures |ZipRow(columns, values)| < |values|
    ensures ColumnAt(columns, i) in ZipRow(columns, values)
    ensures ZipRow(columns, values)[ColumnAt(columns, i)] == values[j]
  {
    var es := Entries(columns, values);
    var keys := KeysOf(es);
    KeysOfAt(es);
    ZipKeys(columns, values);
    ImageSize(keys);
    assert keys[i] == keys[j];
    assert LastWriter(es, j);
  }

  /**
   * Column order inside a row is irrelevant: the same name-to-value pairing
   * delivered in another column order zips to the same row.
   */
  lemma ColumnOrderIrrelevant(c1: seq<string>, v1: seq<Value>, c2: seq<string>, v2: seq<Value>)
    requires |v1| == |c1| && Distinct(c1)
    requires |v2| == |c2| && Distinct(c2)
    requires (set c | c in c1) == (set c | c in c2)
    requires forall i, j :: 0 <= i < |c1| && 0 <= j < |c2| && c1[i] == c2[j] ==> v1[i] == v2[j]
    ensures ZipRow(c1, v1) == ZipRow(c2, v2)
  {
    ZipDistinct(c1, v1);
    ZipDistinct(c2, v2);
    var r1 := ZipRow(c1, v1);
    var r2 := ZipRow(c2, v2);
    forall k | k in r1
      ensures r1[k] == r2[k]
    {
      var i :| 0 <= i < |c1| && c1[i] == k;
      assert k in set c | c in c2;
      var j :| 0 <= j < |c2| && c2[j] == k;
    }
  }

  /** Two result sets that report the same columns in different orders, tuple by tuple. */
  ghost predicate ReorderedColumns(rs1: ResultSet, rs2: ResultSet)
  {
    && Rectangular(rs1) && Rectangular(rs2)
    && Distinct(rs1.columns) && Distinct(rs2.columns)
    && (set c | c in rs1.columns) == (set c | c in rs2.columns)
    && |rs1.values| == |rs2.values|
    && forall r, i, j ::
         (0 <= r < |rs1.values| && 0 <= i < |rs1.columns| && 0 <= j < |rs2.columns| && rs1.columns[i] == rs2.columns[j])
         ==> rs1.values[r][i] == rs2.values[r][j]
  }

  /** Result sets that differ only in column order zip to the same rows. */
  lemma ReorderedColumnsZipEqual(rs1: ResultSet, rs2: ResultSet)
    requires ReorderedColumns(rs1, rs2)
    ensures ZipRows(rs1) == ZipRows(rs2)
  {
    forall r | 0 <= r < |rs1.values|
      ensures ZipRows(rs1)[r] == ZipRows(rs2)[r]
    {
      ColumnOrderIrrelevant(rs1.columns, rs1.values[r], rs2.columns, rs2.values[r]);
    }
  }
}
