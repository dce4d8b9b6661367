/** Keys of secondary indexes, and the UNIQUE check made while an index is built. */
module IndexKey {
  import opened Bytes
  import opened Options
  import opened Values

  predicate AreValues(vs: seq<Value>) { forall k :: 0 <= k < |vs| ==> IsValue(vs[k]) }

  /** Each value's bytes behind their length. */
  function Key(vs: seq<Value>): seq<byte>
    requires AreValues(vs)
  {
    if vs == [] then [] else Le(|EncValue(vs[0])| % U32_LIMIT, 4) + EncValue(vs[0]) + Key(vs[1..])
  }

  lemma KeyUnfold(vs: seq<Value>)
    requires AreValues(vs) && vs != []
    ensures |Key(vs)| > 4 && Key(vs)[4..] == EncValue(vs[0]) + Key(vs[1..])
  {
  }

  /** Two tuples, of whatever lengths, have the same key only if they are the same tuple. */
  lemma {:induction false} KeyInjective(vs: seq<Value>, ws: seq<Value>)
    requires AreValues(vs) && AreValues(ws)
    requires Key(vs) == Key(ws)
    ensures vs == ws
    decreases |vs|
  {
    hide IsValue, EncValue;
    if vs != [] {
      KeyUnfold(vs);
    }
    if ws != [] {
      KeyUnfold(ws);
    }
    if vs != [] && ws != [] {
      ValuePrefixFree(vs[0], ws[0], Key(vs[1..]), Key(ws[1..]));
      KeyInjective(vs[1..], ws[1..]);
      assert vs == [vs[0]] + vs[1..] && ws == [ws[0]] + ws[1..];
    }
  }

  method MakeKey(vs: seq<Value>) returns (key: seq<byte>)
    requires AreValues(vs)
    ensures key == Key(vs)
  {
    hide Le, EncValue, IsValue;
    key := [];
    assert vs[0..] == vs;
    for i := 0 to |vs|
      invariant Key(vs) == key + Key(vs[i..])
    {
      assert vs[i..][0] == vs[i] && vs[i..][1..] == vs[i + 1..];
      var encoded := EncValue(vs[i]);
      assert key + (Le(|encoded| % U32_LIMIT, 4) + encoded + Key(vs[i + 1..]))
        == key + Le(|encoded| % U32_LIMIT, 4) + encoded + Key(vs[i + 1..]);
      key := key + Le(|encoded| % U32_LIMIT, 4);
      key := key + encoded;
    }
  }

  /** The indexed columns of a row; a column the row does not reach is NULL. */
  function Indexed(row: Row, cols: seq<nat>): (r: Row)
    ensures |r| == |cols|
  {
    seq(|cols|, i requires 0 <= i < |cols| => if cols[i] < |row| then row[cols[i]] else Null)
  }

  /** Rows `i` and `j` agree on every indexed column; NULL never equals NULL in a UNIQUE index. */
  predicate Clash(rows: seq<(int, Row)>, cols: seq<nat>, i: nat, j: nat)
    requires i < |rows| && j < |rows|
  {
    var a, b := rows[i].1, rows[j].1;
    forall k :: 0 <= k < |cols| ==>
      cols[k] < |a| && cols[k] < |b| && a[cols[k]] != Null && a[cols[k]] == b[cols[k]]
  }

  /** The build compares tuples of indexed values. */
  lemma ClashIff(rows: seq<(int, Row)>, cols: seq<nat>, i: nat, j: nat)
    requires i < |rows| && j < |rows|
    ensures Clash(rows, cols, i, j) <==>
      Null !in Indexed(rows[i].1, cols) && Indexed(rows[i].1, cols) == Indexed(rows[j].1, cols)
  {
    var a, b := rows[i].1, rows[j].1;
    var u, v := Indexed(a, cols), Indexed(b, cols);
    if Null !in u && u == v {
      forall k | 0 <= k < |cols|
        ensures cols[k] < |a| && cols[k] < |b| && a[cols[k]] != Null && a[cols[k]] == b[cols[k]]
      {
        assert u[k] in u && v[k] == u[k];
      }
    }
  }

  ghost predicate NoClash(rows: seq<(int, Row)>, cols: seq<nat>, n: nat)
    requires n <= |rows|
  {
    forall i, j :: 0 <= i < j < n ==> !Clash(rows, cols, i, j)
  }

  predicate HasKey(rows: seq<(int, Row)>, cols: seq<nat>, i: nat, key: seq<byte>)
    requires i < |rows| && AreValues(rows[i].1)
  {
    Null !in Indexed(rows[i].1, cols) && KeyOf(rows, cols, i) == key
  }

  /** The keys seen are those of the first `n` rows without NULL. */
  ghost predicate Tracks(rows: seq<(int, Row)>, cols: seq<nat>, n: nat, seen: set<seq<byte>>)
    requires n <= |rows| && forall k :: 0 <= k < |rows| ==> AreValues(rows[k].1)
  {
    forall key :: key in seen <==> exists i :: 0 <= i < n && HasKey(rows, cols, i, key)
  }

  lemma FreshKey(rows: seq<(int, Row)>, cols: seq<nat>, n: nat, seen: set<seq<byte>>, key: seq<byte>)
    requires n < |rows| && forall k :: 0 <= k < |rows| ==> AreValues(rows[k].1)
    requires Tracks(rows, cols, n, seen) && NoClash(rows, cols, n)
    requires HasKey(rows, cols, n, key) && key !in seen
    ensures Tracks(rows, cols, n + 1, seen + {key}) && NoClash(rows, cols, n + 1)
  {
    hide AreValues, KeyOf, Clash;
    forall i | 0 <= i < n ensures !Clash(rows, cols, i, n) {
      ClashSameKey(rows, cols, i, n);
    }
    forall k | k in seen + {key} ensures exists i :: 0 <= i < n + 1 && HasKey(rows, cols, i, k) {
      if k == key {
        assert HasKey(rows, cols, n, k);
      }
    }
  }

  lemma NullKey(rows: seq<(int, Row)>, cols: seq<nat>, n: nat, seen: set<seq<byte>>)
    requires n < |rows| && forall k :: 0 <= k < |rows| ==> AreValues(rows[k].1)
    requires Tracks(rows, cols, n, seen) && NoClash(rows, cols, n)
    requires Null in Indexed(rows[n].1, cols)
    ensures Tracks(rows, cols, n + 1, seen) && NoClash(rows, cols, n + 1)
  {
    hide AreValues, KeyOf, Clash;
    forall i | 0 <= i < n ensures !Clash(rows, cols, i, n) {
      ClashIff(rows, cols, i, n);
    }
  }

  lemma ClashSameKey(rows: seq<(int, Row)>, cols: seq<nat>, i: nat, j: nat)
    requires i < |rows| && j < |rows| && AreValues(rows[i].1) && AreValues(rows[j].1)
    ensures Clash(rows, cols, i, j) ==> HasKey(rows, cols, i, KeyOf(rows, cols, j))
  {
    hide Clash;
    ClashIff(rows, cols, i, j);
  }

  /** The index row of a table row: the values at the indexed columns, NULL past its end, and the rowid. */
  ghost predicate IsIndexRow(x: Row, rowid: int, row: Row, cols: seq<nat>)
  {
    && |x| == |cols| + 1 && x[|cols|] == Integer(rowid)
    && forall k :: 0 <= k < |cols| ==> x[k] == if cols[k] < |row| then row[cols[k]] else Null
  }

  ghost predicate IndexRowsOf(out: seq<Row>, rows: seq<(int, Row)>, cols: seq<nat>, n: nat)
    requires n <= |rows|
  {
    |out| == n && forall k :: 0 <= k < n ==> IsIndexRow(out[k], rows[k].0, rows[k].1, cols)
  }

  lemma IndexRowMade(rowid: int, row: Row, cols: seq<nat>)
    ensures IsIndexRow(Indexed(row, cols) + [Integer(rowid)], rowid, row, cols)
  {
  }

  /**
   * Builds the rows of an index over a table's rows.  With `unique` the build fails exactly
   * when two rows agree, bit for bit, on every indexed column and none of these is NULL.
   */
  method BuildIndex(rows: seq<(int, Row)>, cols: seq<nat>, unique: bool) returns (r: Option<seq<Row>>)
    requires forall k :: 0 <= k < |rows| ==> AreValues(rows[k].1)
    ensures r.None? <==> unique && exists i, j :: 0 <= i < j < |rows| && Clash(rows, cols, i, j)
    ensures r.Some? ==> IndexRowsOf(r.value, rows, cols, |rows|)
  {
    hide AreValues, Tracks, Clash, Indexed, IsIndexRow;
    var seen: set<seq<byte>> := {};
    var out: seq<Row> := [];
    TracksNone(rows, cols);
    for n := 0 to |rows|
      invariant IndexRowsOf(out, rows, cols, n)
      invariant unique ==> Tracks(rows, cols, n, seen) && NoClash(rows, cols, n)
    {
      var indexed := Indexed(rows[n].1, cols);
      if unique && Null !in indexed {
        IndexedAreValues(rows[n].1, cols);
        var key := MakeKey(indexed);
        if key in seen {
          SeenClashes(rows, cols, n, seen, key);
          return None;
        }
        FreshKey(rows, cols, n, seen, key);
        seen := seen + {key};
      } else if unique {
        NullKey(rows, cols, n, seen);
      }
      IndexRowMade(rows[n].0, rows[n].1, cols);
      out := out + [indexed + [Integer(rows[n].0)]];
    }
    r := Some(out);
  }

  lemma TracksNone(rows: seq<(int, Row)>, cols: seq<nat>)
    requires forall k :: 0 <= k < |rows| ==> AreValues(rows[k].1)
    ensures Tracks(rows, cols, 0, {})
  {
  }

  lemma SeenClashes(rows: seq<(int, Row)>, cols: seq<nat>, n: nat, seen: set<seq<byte>>, key: seq<byte>)
    requires n < |rows| && forall k :: 0 <= k < |rows| ==> AreValues(rows[k].1)
    requires Tracks(rows, cols, n, seen) && key in seen && KeyOf(rows, cols, n) == key
    ensures exists i :: 0 <= i < n && Clash(rows, cols, i, n)
  {
    hide KeyOf;
    var i :| 0 <= i < n && HasKey(rows, cols, i, key);
    SameKeyClashes(rows, cols, i, n);
  }

  function KeyOf(rows: seq<(int, Row)>, cols: seq<nat>, i: nat): seq<byte>
    requires i < |rows| && AreValues(rows[i].1)
  {
    IndexedAreValues(rows[i].1, cols);
    Key(Indexed(rows[i].1, cols))
  }

  lemma IndexedAreValues(row: Row, cols: seq<nat>)
    requires AreValues(row)
    ensures AreValues(Indexed(row, cols))
  {
  }

  lemma SameKeyClashes(rows: seq<(int, Row)>, cols: seq<nat>, i: nat, j: nat)
    requires i < |rows| && j < |rows| && AreValues(rows[i].1) && AreValues(rows[j].1)
    requires KeyOf(rows, cols, i) == KeyOf(rows, cols, j) && Null !in Indexed(rows[i].1, cols)
    ensures Clash(rows, cols, i, j)
  {
    IndexedAreValues(rows[i].1, cols);
    IndexedAreValues(rows[j].1, cols);
    KeyInjective(Indexed(rows[i].1, cols), Indexed(rows[j].1, cols));
    ClashIff(rows, cols, i, j);
  }
}
