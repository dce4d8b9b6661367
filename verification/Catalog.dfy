/** The in-memory catalog: tables with numbered columns, indexes, and the list of indexes per table. */
module Catalog {
  import opened Bytes
  import opened Options
  import opened Values
  import opened IndexKey
  import opened Ascending

  /** Names are ASCII; they are compared without regard to case. */
  type Name = s: string | forall i :: 0 <= i < |s| ==> s[i] < 128 as char

  function LowerChar(c: char): char { if 'A' <= c <= 'Z' then 'a' + (c - 'A') else c }

  function Lower(s: Name): (r: Name)
    ensures |r| == |s|
  {
    seq(|s|, i requires 0 <= i < |s| => LowerChar(s[i]))
  }

  predicate SameName(a: Name, b: Name) { Lower(a) == Lower(b) }

  /** The same character, or the two cases of one letter. */
  predicate SameLetter(x: char, y: char)
  {
    || x == y
    || ('A' <= x <= 'Z' && y as int == x as int + 32)
    || ('A' <= y <= 'Z' && x as int == y as int + 32)
  }

  /** Two names are the same exactly when they agree in every position, up to the case of a letter. */
  lemma SameNameIff(a: Name, b: Name)
    ensures SameName(a, b) <==> |a| == |b| && forall i :: 0 <= i < |a| ==> SameLetter(a[i], b[i])
  {
    if SameName(a, b) {
      forall i | 0 <= i < |a| ensures SameLetter(a[i], b[i]) {
        assert Lower(a)[i] == Lower(b)[i];
      }
    }
  }

  /** A DEFAULT expression, as far as adding a column evaluates it. */
  datatype DefaultExpr = Literal(value: Value) | Nested(inner: DefaultExpr) | Minus(inner: DefaultExpr) | OtherExpr

  /** Constants, parentheses and the negation of numbers; anything else is an error. */
  function EvalDefault(e: DefaultExpr): Option<Value>
  {
    match e
    case Literal(v) => Some(v)
    case Nested(inner) => EvalDefault(inner)
    case Minus(inner) =>
      (match EvalDefault(inner)
       case Some(Integer(i)) => Some(Integer(if i == I64_MIN then i else -i))
       case Some(Real(bits)) => Some(Real(FlipSign(bits)))
       case _ => None)
    case OtherExpr => None
  }

  function Minuses(e: DefaultExpr): nat
  {
    match e
    case Literal(_) => 0
    case Nested(inner) => Minuses(inner)
    case Minus(inner) => 1 + Minuses(inner)
    case OtherExpr => 0
  }

  /** The expression inside all parentheses and minus signs. */
  function Innermost(e: DefaultExpr): DefaultExpr
  {
    match e
    case Literal(_) => e
    case Nested(inner) => Innermost(inner)
    case Minus(inner) => Innermost(inner)
    case OtherExpr => e
  }

  /** The other sign, where a 64-bit integer and a float have one. */
  function Opposite(v: Value): Value
  {
    match v
    case Integer(i) => Integer(if i == I64_MIN then i else -i)
    case Real(bits) =>
      Real(if bits < 0x8000_0000_0000_0000 then bits + 0x8000_0000_0000_0000 else bits - 0x8000_0000_0000_0000)
    case _ => v
  }

  /**
   * A default is its innermost constant, with the other sign under an odd number of minus signs;
   * there is none for another expression, or for a minus sign before what is no number.
   */
  lemma {:induction false} EvalDefaultMeans(e: DefaultExpr)
    requires Innermost(e).Literal? ==> IsValue(Innermost(e).value)
    ensures EvalDefault(e).Some? <==>
      (Innermost(e).Literal? && (Minuses(e) > 0 ==> Innermost(e).value.Integer? || Innermost(e).value.Real?))
    ensures EvalDefault(e).Some? ==>
      var v := Innermost(e).value;
      EvalDefault(e).value == if Minuses(e) % 2 == 0 then v else Opposite(v)
    decreases e
  {
    if e.Nested? || e.Minus? {
      EvalDefaultMeans(e.inner);
    }
  }

  /** The bits of a negated float. */
  function FlipSign(bits: nat): nat { if bits > I64_MAX then bits - (I64_MAX + 1) else bits + (I64_MAX + 1) }

  datatype ColumnDef =
    ColumnDef(name: Name, primaryKey: bool, notNull: bool, unique: bool, default: Option<DefaultExpr>)

  datatype Column = Column(name: Name, primaryKey: bool, notNull: bool, unique: bool, colIndex: nat)

  datatype TableSchema = TableSchema(name: Name, columns: seq<Column>, colNames: seq<Name>)

  datatype IndexSchema = IndexSchema(name: Name, table: Name, columns: seq<Name>, unique: bool)

  datatype Outcome =
    Ok | TableNotFound | TableExists | IndexNotFound | IndexExists | ColumnNotFound | ColumnExists | Refused

  // ---- Columns ----

  /** Each column knows its own position, and the list of names follows the columns. */
  ghost predicate Numbered(t: TableSchema)
  {
    && |t.colNames| == |t.columns|
    && forall i :: 0 <= i < |t.columns| ==> t.columns[i].colIndex == i && t.colNames[i] == t.columns[i].name
  }

  function NamesOf(cols: seq<Column>): (ns: seq<Name>)
    ensures |ns| == |cols|
  {
    seq(|cols|, i requires 0 <= i < |cols| => cols[i].name)
  }

  function Renumbered(cols: seq<Column>): (r: seq<Column>)
    ensures |r| == |cols|
  {
    seq(|cols|, i requires 0 <= i < |cols| => cols[i].(colIndex := i))
  }

  function ColumnsOf(defs: seq<ColumnDef>): (cols: seq<Column>)
    ensures |cols| == |defs|
  {
    seq(|defs|, i requires 0 <= i < |defs| =>
      Column(defs[i].name, defs[i].primaryKey, defs[i].notNull, defs[i].unique, i))
  }

  /** `retain`: the columns not called `name`. */
  function WithoutColumn(cols: seq<Column>, name: Name): seq<Column>
  {
    if cols == [] then []
    else
      var rest := WithoutColumn(cols[..|cols| - 1], name);
      if SameName(cols[|cols| - 1].name, name) then rest else rest + [cols[|cols| - 1]]
  }

  predicate HasColumn(cols: seq<Column>, name: Name) { exists i :: 0 <= i < |cols| && SameName(cols[i].name, name) }

  /** Column `i` is the first one called `name`. */
  predicate FirstCalled(cols: seq<Column>, i: int, name: Name)
  {
    0 <= i < |cols| && SameName(cols[i].name, name) && forall j :: 0 <= j < i ==> !SameName(cols[j].name, name)
  }

  /** The first column called `name`. */
  method FindColumn(cols: seq<Column>, name: Name) returns (r: Option<Column>)
    ensures r.Some? <==> HasColumn(cols, name)
    ensures r.Some? ==> exists i :: FirstCalled(cols, i, name) && cols[i] == r.value
  {
    hide SameName;
    for i := 0 to |cols|
      invariant forall j :: 0 <= j < i ==> !SameName(cols[j].name, name)
    {
      if SameName(cols[i].name, name) {
        assert FirstCalled(cols, i, name);
        return Some(cols[i]);
      }
    }
    r := None;
  }

  /** The column exists, is not the primary key and is not the only one. */
  ghost predicate Droppable(cols: seq<Column>, name: Name)
  {
    |cols| > 1 && exists i :: FirstCalled(cols, i, name) && !cols[i].primaryKey
  }

  lemma NoneCalled(cols: seq<Column>, name: Name)
    ensures !HasColumn(cols, name) ==> forall i :: !FirstCalled(cols, i, name)
    ensures forall i :: FirstCalled(cols, i, name) ==> 0 <= i < |cols|
  {
  }

  lemma OnlyCalled(cols: seq<Column>, name: Name, at: int)
    requires FirstCalled(cols, at, name)
    ensures forall i :: FirstCalled(cols, i, name) ==> i == at
  {
  }

  /** `ps` are the positions of the columns called `names`. */
  ghost predicate Positions(cols: seq<Column>, names: seq<Name>, ps: seq<nat>)
  {
    |ps| == |names| && forall k :: 0 <= k < |names| ==> FirstCalled(cols, ps[k], names[k])
  }

  method FindPositions(cols: seq<Column>, names: seq<Name>) returns (r: Option<seq<nat>>)
    requires forall i :: 0 <= i < |cols| ==> cols[i].colIndex == i
    ensures r.Some? <==> forall c :: c in names ==> HasColumn(cols, c)
    ensures r.Some? ==> Positions(cols, names, r.value)
  {
    hide HasColumn, FirstCalled;
    var ps: seq<nat> := [];
    for i := 0 to |names|
      invariant |ps| == i
      invariant forall j :: 0 <= j < i ==> HasColumn(cols, names[j]) && FirstCalled(cols, ps[j], names[j])
    {
      var found := FindColumn(cols, names[i]);
      if found.None? {
        return None;
      }
      NoneCalled(cols, names[i]);
      ps := ps + [found.value.colIndex];
    }
    r := Some(ps);
  }

  lemma {:induction false} WithoutColumnKeeps(cols: seq<Column>, name: Name)
    ensures forall c :: c in WithoutColumn(cols, name) <==> c in cols && !SameName(c.name, name)
    decreases |cols|
  {
    hide SameName;
    if cols != [] {
      assert cols == cols[..|cols| - 1] + [cols[|cols| - 1]];
      WithoutColumnKeeps(cols[..|cols| - 1], name);
    }
  }

  /** `at` are the positions of the columns not called `name`, ascending. */
  ghost predicate KeptAt(cols: seq<Column>, name: Name, at: seq<nat>)
  {
    && Ascends(at, |cols|)
    && (forall i :: 0 <= i < |at| ==> !SameName(cols[at[i]].name, name))
    && (forall p :: 0 <= p < |cols| && !SameName(cols[p].name, name) ==> p in at)
  }

  /** The columns that stay keep their order. */
  lemma {:induction false} WithoutColumnOrder(cols: seq<Column>, name: Name) returns (at: seq<nat>)
    ensures KeptAt(cols, name, at) && |WithoutColumn(cols, name)| == |at|
    ensures forall i :: 0 <= i < |at| ==> WithoutColumn(cols, name)[i] == cols[at[i]]
    decreases |cols|
  {
    hide SameName;
    if cols == [] {
      at := [];
    } else {
      var n := |cols| - 1;
      var front := WithoutColumnOrder(cols[..n], name);
      at := if SameName(cols[n].name, name) then front else front + [n];
      KeptSnoc(cols, name, front, at);
    }
  }

  lemma KeptSnoc(cols: seq<Column>, name: Name, front: seq<nat>, at: seq<nat>)
    requires cols != [] && KeptAt(cols[..|cols| - 1], name, front)
    requires at == if SameName(cols[|cols| - 1].name, name) then front else front + [|cols| - 1]
    ensures KeptAt(cols, name, at)
  {
    hide SameName, Ascends;
    var n := |cols| - 1;
    Snoc(front, n);
    assert forall p :: 0 <= p < n ==> cols[..n][p] == cols[p];
    AscendsBelow(front, n);
    forall p | 0 <= p < |cols| && !SameName(cols[p].name, name) ensures p in at {
      if p < n {
        assert cols[..n][p] == cols[p];
        assert p in front;
      } else {
        assert at[|at| - 1] == n;
      }
    }
  }

  // ---- The rows of an altered table ----

  function WithoutValue(row: Row, i: nat): Row { if i < |row| then row[..i] + row[i + 1..] else row }

  /** Every row loses its value number `i`. */
  method DropValues(rows: seq<(int, Row)>, i: nat) returns (out: seq<(int, Row)>)
    ensures |out| == |rows|
    ensures forall r :: 0 <= r < |rows| ==> out[r].0 == rows[r].0 && out[r].1 == WithoutValue(rows[r].1, i)
  {
    out := [];
    for r := 0 to |rows|
      invariant |out| == r
      invariant forall q :: 0 <= q < r ==> out[q].0 == rows[q].0 && out[q].1 == WithoutValue(rows[q].1, i)
    {
      var kept := DropValue(rows[r].1, i);
      out := out + [(rows[r].0, kept)];
    }
  }

  method DropValue(row: Row, i: nat) returns (kept: Row)
    ensures kept == WithoutValue(row, i)
  {
    kept := [];
    for k := 0 to |row|
      invariant kept == WithoutValue(row[..k], i)
    {
      assert row[..k + 1] == row[..k] + [row[k]];
      if k != i {
        kept := kept + [row[k]];
      }
    }
    assert row[..|row|] == row;
  }

  /** Every row gains a last value. */
  method AddValues(rows: seq<(int, Row)>, v: Value) returns (out: seq<(int, Row)>)
    ensures |out| == |rows| && forall r :: 0 <= r < |rows| ==> out[r] == (rows[r].0, rows[r].1 + [v])
  {
    out := [];
    for r := 0 to |rows|
      invariant |out| == r && forall q :: 0 <= q < r ==> out[q] == (rows[q].0, rows[q].1 + [v])
    {
      out := out + [(rows[r].0, rows[r].1 + [v])];
    }
  }

  predicate OnlyColumn(cols: seq<Column>, at: nat, name: Name)
  {
    at < |cols| && forall p :: 0 <= p < |cols| ==> (SameName(cols[p].name, name) <==> p == at)
  }

  /** The row holds exactly the values of the columns that stay, each at its column's new position. */
  ghost predicate Follows(now: Row, row: Row, at: seq<nat>)
    requires forall i :: 0 <= i < |at| ==> at[i] < |row|
  {
    |now| == |at| && forall i :: 0 <= i < |at| ==> now[i] == row[at[i]]
  }

  /**
   * `retain` drops every column called `name`, but a row loses only the first one's value: the rows
   * follow the columns exactly when no other column has that name.
   */
  lemma DropFollowsIff(cols: seq<Column>, name: Name, first: nat, at: seq<nat>, row: Row)
    requires FirstCalled(cols, first, name) && KeptAt(cols, name, at) && |row| == |cols|
    ensures forall i :: 0 <= i < |at| ==> at[i] < |row|
    ensures Follows(WithoutValue(row, first), row, at) <==> OnlyColumn(cols, first, name)
  {
    hide SameName, KeptAt, OnlyColumn, FirstCalled, WithoutValue;
    KeptBelow(cols, name, at);
    NoneCalled(cols, name);
    ShorterByOne(row, first);
    if OnlyColumn(cols, first, name) {
      KeptAllButOne(cols, name, first, at);
      ValuesMoveUp(row, first, at);
    } else {
      KeptFewer(cols, name, first, at);
    }
  }

  lemma KeptAllButOne(cols: seq<Column>, name: Name, first: nat, at: seq<nat>)
    requires KeptAt(cols, name, at) && OnlyColumn(cols, first, name)
    ensures |at| == |cols| - 1 && forall i :: 0 <= i < |at| ==> at[i] == if i < first then i else i + 1
  {
    hide SameName;
    OnlyGap(at, |cols|, first);
    AllButOne(at, |cols|, first);
  }

  lemma ShorterByOne(row: Row, i: nat)
    requires i < |row|
    ensures |WithoutValue(row, i)| == |row| - 1
  {
  }

  lemma ValuesMoveUp(row: Row, first: nat, at: seq<nat>)
    requires first < |row| && |at| == |row| - 1
    requires forall i :: 0 <= i < |at| ==> at[i] == if i < first then i else i + 1
    ensures Follows(WithoutValue(row, first), row, at)
  {
  }

  lemma KeptBelow(cols: seq<Column>, name: Name, at: seq<nat>)
    requires KeptAt(cols, name, at)
    ensures forall i :: 0 <= i < |at| ==> at[i] < |cols|
  {
  }

  lemma KeptFewer(cols: seq<Column>, name: Name, first: nat, at: seq<nat>)
    requires FirstCalled(cols, first, name) && KeptAt(cols, name, at) && !OnlyColumn(cols, first, name)
    ensures |at| != |cols| - 1
  {
    hide SameName;
    var p :| 0 <= p < |cols| && SameName(cols[p].name, name) && p != first;
    NoOtherGap(at, |cols|, first, p);
  }

  // ---- Indexes ----

  function Listed(byTable: map<Name, seq<Name>>, key: Name): seq<Name>
  {
    if key in byTable then byTable[key] else []
  }

  ghost predicate EachOnce(ns: seq<Name>) { forall i, j :: 0 <= i < j < |ns| ==> ns[i] != ns[j] }

  predicate On(indexes: map<Name, IndexSchema>, n: Name, key: Name)
  {
    n in indexes && Lower(indexes[n].table) == key
  }

  /** `ns` names the indexes of table `key`, each once. */
  ghost predicate Lists(indexes: map<Name, IndexSchema>, ns: seq<Name>, key: Name)
  {
    EachOnce(ns) && forall n :: n in ns <==> On(indexes, n, key)
  }

  /** Keys are lowercase names, every index has its table, and the lists are right for every key. */
  ghost predicate Consistent(
    tables: map<Name, TableSchema>, indexes: map<Name, IndexSchema>, byTable: map<Name, seq<Name>>)
  {
    && (forall k :: k in tables ==> Lower(tables[k].name) == k && Numbered(tables[k]))
    && (forall n :: n in indexes ==> Lower(indexes[n].name) == n && Lower(indexes[n].table) in tables)
    && byTable.Keys <= tables.Keys
    && forall k :: Lists(indexes, Listed(byTable, k), k)
  }

  /** `retain`: the names not in `doomed`. */
  function Without(ns: seq<Name>, doomed: set<Name>): seq<Name>
  {
    if ns == [] then []
    else
      var rest := Without(ns[..|ns| - 1], doomed);
      if ns[|ns| - 1] in doomed then rest else rest + [ns[|ns| - 1]]
  }

  lemma {:induction false} WithoutKeeps(ns: seq<Name>, doomed: set<Name>)
    requires EachOnce(ns)
    ensures EachOnce(Without(ns, doomed))
    ensures forall n :: n in Without(ns, doomed) <==> n in ns && n !in doomed
    decreases |ns|
  {
    if ns != [] {
      var front, last := ns[..|ns| - 1], ns[|ns| - 1];
      assert ns == front + [last];
      WithoutKeeps(front, doomed);
      var rest := Without(front, doomed);
      assert last !in front;
      assert forall i :: 0 <= i < |rest| ==> rest[i] in rest;
    }
  }

  /** `at` are the positions of the names not in `doomed`, ascending. */
  ghost predicate NamesKeptAt(ns: seq<Name>, doomed: set<Name>, at: seq<nat>)
  {
    && Ascends(at, |ns|)
    && (forall i :: 0 <= i < |at| ==> ns[at[i]] !in doomed)
    && (forall p :: 0 <= p < |ns| && ns[p] !in doomed ==> p in at)
  }

  /** The names that stay keep their order. */
  lemma {:induction false} WithoutOrder(ns: seq<Name>, doomed: set<Name>) returns (at: seq<nat>)
    ensures NamesKeptAt(ns, doomed, at) && |Without(ns, doomed)| == |at|
    ensures forall i :: 0 <= i < |at| ==> Without(ns, doomed)[i] == ns[at[i]]
    decreases |ns|
  {
    if ns == [] {
      at := [];
    } else {
      var n := |ns| - 1;
      var front := WithoutOrder(ns[..n], doomed);
      at := if ns[n] in doomed then front else front + [n];
      NamesSnoc(ns, doomed, front, at);
    }
  }

  lemma NamesSnoc(ns: seq<Name>, doomed: set<Name>, front: seq<nat>, at: seq<nat>)
    requires ns != [] && NamesKeptAt(ns[..|ns| - 1], doomed, front)
    requires at == if ns[|ns| - 1] in doomed then front else front + [|ns| - 1]
    ensures NamesKeptAt(ns, doomed, at)
  {
    hide Ascends;
    var n := |ns| - 1;
    Snoc(front, n);
    AscendsBelow(front, n);
    assert forall p :: 0 <= p < n ==> ns[..n][p] == ns[p];
    forall p | 0 <= p < |ns| && ns[p] !in doomed ensures p in at {
      if p < n {
        assert ns[..n][p] == ns[p];
        assert p in front;
      } else {
        assert at[|at| - 1] == n;
      }
    }
  }

  lemma WithoutNone(doomed: set<Name>)
    ensures Without([], doomed) == []
  {
  }

  // ---- What each operation does to the invariant ----

  lemma IndexAdded(
    tables: map<Name, TableSchema>, indexes: map<Name, IndexSchema>, byTable: map<Name, seq<Name>>, x: IndexSchema)
    requires Consistent(tables, indexes, byTable)
    requires Lower(x.name) !in indexes && Lower(x.table) in tables
    ensures var n, k := Lower(x.name), Lower(x.table);
      Consistent(tables, indexes[n := x], byTable[k := Listed(byTable, k) + [n]])
  {
    hide Lower, Numbered;
    var n, k := Lower(x.name), Lower(x.table);
    var ix, bt := indexes[n := x], byTable[k := Listed(byTable, k) + [n]];
    forall j ensures Lists(ix, Listed(bt, j), j) {
      assert Lists(indexes, Listed(byTable, j), j);
      assert n !in Listed(byTable, j);
      forall o ensures o in Listed(bt, j) <==> On(ix, o, j) {
        assert o in Listed(byTable, j) <==> On(indexes, o, j);
      }
    }
  }

  lemma IndexesRemoved(
    tables: map<Name, TableSchema>, indexes: map<Name, IndexSchema>, byTable: map<Name, seq<Name>>,
    doomed: set<Name>, k: Name)
    requires Consistent(tables, indexes, byTable)
    requires forall n :: n in doomed && n in indexes ==> On(indexes, n, k)
    requires k in byTable
    ensures Consistent(tables, indexes - doomed, byTable[k := Without(byTable[k], doomed)])
  {
    hide Lower, Numbered, Without;
    var ix, bt := indexes - doomed, byTable[k := Without(byTable[k], doomed)];
    assert Lists(indexes, Listed(byTable, k), k);
    WithoutKeeps(byTable[k], doomed);
    forall j ensures Lists(ix, Listed(bt, j), j) {
      assert Lists(indexes, Listed(byTable, j), j);
      if j != k {
        forall n ensures n in Listed(bt, j) <==> On(ix, n, j) {
          assert n in Listed(byTable, j) <==> On(indexes, n, j);
        }
      }
    }
  }

  /** A table without a list has no index to remove. */
  lemma NoListNoIndex(
    tables: map<Name, TableSchema>, indexes: map<Name, IndexSchema>, byTable: map<Name, seq<Name>>, n: Name, k: Name)
    requires Consistent(tables, indexes, byTable) && k !in byTable
    ensures !On(indexes, n, k)
  {
    hide Lower, Numbered;
    assert Lists(indexes, Listed(byTable, k), k);
  }

  lemma TableRemoved(
    tables: map<Name, TableSchema>, indexes: map<Name, IndexSchema>, byTable: map<Name, seq<Name>>,
    doomed: set<Name>, k: Name)
    requires Consistent(tables, indexes, byTable)
    requires forall n :: n in doomed <==> On(indexes, n, k)
    ensures Consistent(tables - {k}, indexes - doomed, byTable - {k})
  {
    hide Lower, Numbered;
    var ix, bt := indexes - doomed, byTable - {k};
    forall n | n in ix ensures Lower(ix[n].table) in tables - {k} {
      assert !On(indexes, n, k);
    }
    forall j ensures Lists(ix, Listed(bt, j), j) {
      assert Lists(indexes, Listed(byTable, j), j);
      forall n ensures n in Listed(bt, j) <==> On(ix, n, j) {
        assert n in Listed(byTable, j) <==> On(indexes, n, j);
      }
    }
  }

  /** Every index of table `k` now belongs to `name`. */
  function Moved(indexes: map<Name, IndexSchema>, k: Name, name: Name): (r: map<Name, IndexSchema>)
    ensures r.Keys == indexes.Keys
  {
    map n | n in indexes :: if Lower(indexes[n].table) == k then indexes[n].(table := name) else indexes[n]
  }

  lemma MovedMeans(indexes: map<Name, IndexSchema>, name: Name, newName: Name)
    ensures var r := Moved(indexes, Lower(name), newName);
      && r.Keys == indexes.Keys
      && (forall n :: n in r && SameName(indexes[n].table, name) ==> r[n] == indexes[n].(table := newName))
      && (forall n :: n in r && !SameName(indexes[n].table, name) ==> r[n] == indexes[n])
  {
    hide Lower;
  }

  function MovedList(byTable: map<Name, seq<Name>>, k: Name, l: Name): map<Name, seq<Name>>
  {
    if k in byTable then (byTable - {k})[l := byTable[k]] else byTable
  }

  lemma TableRenamed(
    tables: map<Name, TableSchema>, indexes: map<Name, IndexSchema>, byTable: map<Name, seq<Name>>, k: Name, name: Name)
    requires Consistent(tables, indexes, byTable)
    requires k in tables && Lower(name) !in tables
    ensures Consistent(
      (tables - {k})[Lower(name) := tables[k].(name := name)],
      Moved(indexes, k, name), MovedList(byTable, k, Lower(name)))
  {
    hide Lower;
    var l := Lower(name);
    var ix, bt := Moved(indexes, k, name), MovedList(byTable, k, l);
    assert Numbered(tables[k]);
    assert l !in byTable;
    forall j ensures Lists(ix, Listed(bt, j), j) {
      MovedLists(tables, indexes, byTable, k, name, j);
    }
  }

  lemma MovedLists(
    tables: map<Name, TableSchema>, indexes: map<Name, IndexSchema>, byTable: map<Name, seq<Name>>,
    k: Name, name: Name, j: Name)
    requires Consistent(tables, indexes, byTable)
    requires k in tables && Lower(name) !in tables
    ensures Lists(Moved(indexes, k, name), Listed(MovedList(byTable, k, Lower(name)), j), j)
  {
    hide Lower, Numbered;
    var l := Lower(name);
    var ix := Moved(indexes, k, name);
    assert Lists(indexes, Listed(byTable, k), k) && Lists(indexes, Listed(byTable, j), j);
    assert forall n :: n in indexes ==> !On(indexes, n, l);
    forall n ensures On(ix, n, j) <==> if j == l then On(indexes, n, k) else j != k && On(indexes, n, j) {
    }
  }

  lemma TableChanged(
    tables: map<Name, TableSchema>, indexes: map<Name, IndexSchema>, byTable: map<Name, seq<Name>>,
    k: Name, t: TableSchema)
    requires Consistent(tables, indexes, byTable)
    requires Lower(t.name) == k && Numbered(t)
    ensures Consistent(tables[k := t], indexes, byTable)
  {
  }

  class Schema {
    var tables: map<Name, TableSchema>
    var indexes: map<Name, IndexSchema>
    var indexesByTable: map<Name, seq<Name>>

    ghost predicate Valid()
      reads this
    {
      Consistent(tables, indexes, indexesByTable)
    }

    constructor ()
      ensures Valid() && tables == map[] && indexes == map[]
    {
      tables, indexes, indexesByTable := map[], map[], map[];
    }

    method CreateTable(name: Name, defs: seq<ColumnDef>, ifNotExists: bool) returns (out: Outcome)
      requires Valid()
      modifies this
      ensures Valid() && indexes == old(indexes)
      ensures Lower(name) in old(tables) ==>
        tables == old(tables) && out == if ifNotExists then Ok else TableExists
      ensures Lower(name) !in old(tables) ==>
        && out == Ok && tables.Keys == old(tables).Keys + {Lower(name)}
        && (forall k :: k in old(tables) ==> tables[k] == old(tables)[k])
        && tables[Lower(name)].name == name && |tables[Lower(name)].columns| == |defs|
        && (forall i :: 0 <= i < |defs| ==>
              tables[Lower(name)].columns[i] ==
                Column(defs[i].name, defs[i].primaryKey, defs[i].notNull, defs[i].unique, i))
    {
      hide Lower;
      var key := Lower(name);
      if key in tables {
        return if ifNotExists then Ok else TableExists;
      }
      var columns: seq<Column> := [];
      for i := 0 to |defs|
        invariant columns == ColumnsOf(defs)[..i]
      {
        var d := defs[i];
        columns := columns + [Column(d.name, d.primaryKey, d.notNull, d.unique, i)];
      }
      var t := TableSchema(name, columns, NamesOf(columns));
      TableChanged(tables, indexes, indexesByTable, key, t);
      tables := tables[key := t];
      out := Ok;
    }

    /** Adds an index over the table's `rows` and returns its entries; a UNIQUE violation stops the build. */
    method CreateIndex(x: IndexSchema, ifNotExists: bool, rows: seq<(int, Row)>)
      returns (out: Outcome, entries: seq<Row>, ghost ps: seq<nat>)
      requires Valid() && forall k :: 0 <= k < |rows| ==> AreValues(rows[k].1)
      modifies this
      ensures Valid() && tables == old(tables)
      ensures Lower(x.name) in old(indexes) ==>
        indexes == old(indexes) && out == if ifNotExists then Ok else IndexExists
      ensures Lower(x.name) !in old(indexes) ==>
        && indexes == (if out == Ok then old(indexes)[Lower(x.name) := x] else old(indexes))
        && (out == TableNotFound <==> Lower(x.table) !in tables)
        && (out == ColumnNotFound <==>
              Lower(x.table) in tables && exists c :: c in x.columns && !HasColumn(tables[Lower(x.table)].columns, c))
      ensures Lower(x.name) !in old(indexes) && out in {Ok, Refused} ==>
        && Lower(x.table) in tables && Positions(tables[Lower(x.table)].columns, x.columns, ps)
        && (out == Refused <==> x.unique && exists i, j :: 0 <= i < j < |rows| && Clash(rows, ps, i, j))
        && (out == Ok ==> IndexRowsOf(entries, rows, ps, |rows|))
        && (out == Ok ==>
              var k := Lower(x.table);
              Listed(indexesByTable, k) == Listed(old(indexesByTable), k) + [Lower(x.name)])
    {
      hide Lower, HasColumn, Lists, FirstCalled, AreValues, IndexRowsOf, Clash;
      var n, k := Lower(x.name), Lower(x.table);
      entries, ps := [], [];
      if n in indexes {
        return if ifNotExists then Ok else IndexExists, [], [];
      }
      if k !in tables {
        return TableNotFound, [], [];
      }
      var positions := FindPositions(tables[k].columns, x.columns);
      if positions.None? {
        return ColumnNotFound, [], [];
      }
      ps := positions.value;
      var built := BuildIndex(rows, positions.value, x.unique);
      if built.None? {
        return Refused, [], ps;
      }
      entries := built.value;
      IndexAdded(tables, indexes, indexesByTable, x);
      indexesByTable := indexesByTable[k := Listed(indexesByTable, k) + [n]];
      indexes := indexes[n := x];
      out := Ok;
    }

    method DropIndex(name: Name, ifExists: bool) returns (out: Outcome)
      requires Valid()
      modifies this
      ensures Valid() && tables == old(tables)
      ensures indexes == old(indexes) - {Lower(name)}
      ensures out == if Lower(name) in old(indexes) || ifExists then Ok else IndexNotFound
      ensures Lower(name) in old(indexes) ==>
        var k := Lower(old(indexes)[Lower(name)].table);
        Listed(indexesByTable, k) == Without(Listed(old(indexesByTable), k), {Lower(name)})
    {
      hide Lower, Consistent, Without;
      var n := Lower(name);
      if n !in indexes {
        assert indexes - {n} == indexes;
        return if ifExists then Ok else IndexNotFound;
      }
      var k := Lower(indexes[n].table);
      if k in indexesByTable {
        IndexesRemoved(tables, indexes, indexesByTable, {n}, k);
        indexesByTable := indexesByTable[k := Without(indexesByTable[k], {n})];
      } else {
        NoListNoIndex(tables, indexes, indexesByTable, n, k);
      }
      indexes := indexes - {n};
      out := Ok;
    }

    /** The indexes of a table go with it. */
    method DropTable(name: Name, ifExists: bool) returns (out: Outcome)
      requires Valid()
      modifies this
      ensures Valid()
      ensures Lower(name) in old(tables) ==>
        && out == Ok && tables == old(tables) - {Lower(name)}
        && indexes == map n | n in old(indexes) && Lower(old(indexes)[n].table) != Lower(name) :: old(indexes)[n]
      ensures Lower(name) !in old(tables) ==>
        tables == old(tables) && indexes == old(indexes) && out == if ifExists then Ok else TableNotFound
    {
      hide Lower, Consistent;
      var k := Lower(name);
      if k !in tables {
        return if ifExists then Ok else TableNotFound;
      }
      var doomed := set n | n in indexes && On(indexes, n, k) :: n;
      TableRemoved(tables, indexes, indexesByTable, doomed, k);
      indexes := indexes - doomed;
      indexesByTable := indexesByTable - {k};
      tables := tables - {k};
      out := Ok;
    }

    /** The indexes follow the table to its new name. */
    method RenameTable(name: Name, newName: Name) returns (out: Outcome)
      requires Valid()
      modifies this
      ensures Valid()
      ensures out ==
        if Lower(name) !in old(tables) then TableNotFound
        else if Lower(newName) in old(tables) then TableExists
        else Ok
      ensures out != Ok ==> tables == old(tables) && indexes == old(indexes)
      ensures out == Ok ==>
        && tables == (old(tables) - {Lower(name)})[Lower(newName) := old(tables)[Lower(name)].(name := newName)]
        && indexes.Keys == old(indexes).Keys
        && (forall n :: n in indexes && SameName(old(indexes)[n].table, name) ==>
              indexes[n] == old(indexes)[n].(table := newName))
        && (forall n :: n in indexes && !SameName(old(indexes)[n].table, name) ==> indexes[n] == old(indexes)[n])
    {
      hide Lower, Consistent, Moved;
      var k, l := Lower(name), Lower(newName);
      if k !in tables {
        return TableNotFound;
      }
      if l in tables {
        return TableExists;
      }
      TableRenamed(tables, indexes, indexesByTable, k, newName);
      MovedMeans(indexes, name, newName);
      tables := (tables - {k})[l := tables[k].(name := newName)];
      indexes := Moved(indexes, k, newName);
      indexesByTable := MovedList(indexesByTable, k, l);
      out := Ok;
    }

    /** Also appends the default, or NULL, to the table's `rows`. */
    method AddColumn(name: Name, d: ColumnDef, rows: seq<(int, Row)>) returns (out: Outcome, now: seq<(int, Row)>)
      requires Valid()
      modifies this
      ensures Valid() && indexes == old(indexes)
      ensures out != Ok ==> tables == old(tables)
      ensures out == Ok <==>
        (Lower(name) in old(tables) && !HasColumn(old(tables)[Lower(name)].columns, d.name)
          && (d.notNull ==> d.default.Some?) && (d.default.Some? ==> EvalDefault(d.default.value).Some?))
      ensures out == Ok ==>
        && Lower(name) in tables && tables == old(tables)[Lower(name) := tables[Lower(name)]]
        && var t := old(tables)[Lower(name)];
        && tables[Lower(name)].name == t.name && tables[Lower(name)].colNames == t.colNames + [d.name]
        && tables[Lower(name)].columns == t.columns + [Column(d.name, false, d.notNull, d.unique, |t.columns|)]
        && |now| == |rows|
        && (forall r :: 0 <= r < |rows| ==>
              now[r] == (rows[r].0, rows[r].1 + [if d.default.None? then Null else EvalDefault(d.default.value).value]))
    {
      hide Lower, HasColumn, Lists, EvalDefault;
      var k := Lower(name);
      now := [];
      if k !in tables {
        return TableNotFound, [];
      }
      var t := tables[k];
      var found := FindColumn(t.columns, d.name);
      if found.Some? {
        return ColumnExists, [];
      }
      if d.notNull && d.default.None? {
        return Refused, [];
      }
      if d.default.Some? && EvalDefault(d.default.value).None? {
        return Refused, [];
      }
      var c := Column(d.name, false, d.notNull, d.unique, |t.columns|);
      var u := t.(columns := t.columns + [c], colNames := t.colNames + [d.name]);
      TableChanged(tables, indexes, indexesByTable, k, u);
      tables := tables[k := u];
      now := AddValues(rows, if d.default.None? then Null else EvalDefault(d.default.value).value);
      out := Ok;
    }

    /**
     * Every column so called and every index that mentions it go, the columns after it move up, and
     * the table's `rows` lose the value of the first such column.
     */
    method DropColumn(name: Name, column: Name, rows: seq<(int, Row)>)
      returns (out: Outcome, now: seq<(int, Row)>, ghost at: seq<nat>)
      requires Valid()
      modifies this
      ensures Valid()
      ensures out != Ok ==> tables == old(tables) && indexes == old(indexes)
      ensures Lower(name) !in old(tables) ==> out == TableNotFound
      ensures out == Ok <==>
        (Lower(name) in old(tables) && Droppable(old(tables)[Lower(name)].columns, column))
      ensures out == Ok ==>
        var t, k := old(tables)[Lower(name)], Lower(name);
        && k in tables && tables == old(tables)[k := tables[k]] && tables[k].name == t.name
        && KeptAt(t.columns, column, at) && |tables[k].columns| == |at|
        && forall i :: 0 <= i < |at| ==> tables[k].columns[i] == t.columns[at[i]].(colIndex := i)
      ensures out == Ok ==>
        && (forall n :: n in indexes <==> n in old(indexes) && !Mentions(old(indexes)[n], name, column))
        && (forall n :: n in indexes ==> indexes[n] == old(indexes)[n])
        && Listed(indexesByTable, Lower(name)) ==
             Without(Listed(old(indexesByTable), Lower(name)), old(indexes).Keys - indexes.Keys)
      ensures out == Ok ==>
        && |now| == |rows|
        && forall first: nat :: FirstCalled(old(tables)[Lower(name)].columns, first, column) ==>
             forall r :: 0 <= r < |rows| ==>
               now[r].0 == rows[r].0 && now[r].1 == WithoutValue(rows[r].1, first)
    {
      hide Lower, HasColumn, Lists, Without, WithoutColumn, SameName, FirstCalled, KeptAt, WithoutValue;
      var k := Lower(name);
      now, at := [], [];
      if k !in tables {
        return TableNotFound, [], [];
      }
      var t := tables[k];
      var found := FindColumn(t.columns, column);
      NoneCalled(t.columns, column);
      if found.None? {
        return ColumnNotFound, [], [];
      }
      assert Numbered(t);
      ghost var first :| FirstCalled(t.columns, first, column) && t.columns[first] == found.value;
      OnlyCalled(t.columns, column, first);
      if t.columns[found.value.colIndex].primaryKey {
        return Refused, [], [];
      }
      if |t.columns| <= 1 {
        return Refused, [], [];
      }
      now := DropValues(rows, found.value.colIndex);
      var doomed := Mentioning(indexes, k, column);
      MentioningIff(indexes, name, column);
      RemoveIndexes(doomed, k);
      assert old(indexes).Keys - indexes.Keys == doomed;
      AfterDropNumbered(t, column);
      TableChanged(tables, indexes, indexesByTable, k, AfterDrop(t, column));
      at := WithoutColumnOrder(t.columns, column);
      tables := tables[k := AfterDrop(t, column)];
      out := Ok;
    }

    method RemoveIndexes(doomed: set<Name>, k: Name)
      requires Valid() && forall n :: n in doomed ==> On(indexes, n, k)
      modifies this`indexes, this`indexesByTable
      ensures Valid() && indexes == old(indexes) - doomed
      ensures Listed(indexesByTable, k) == Without(Listed(old(indexesByTable), k), doomed)
    {
      hide Lower, Consistent, Without, On;
      if k in indexesByTable {
        IndexesRemoved(tables, indexes, indexesByTable, doomed, k);
        indexesByTable := indexesByTable[k := Without(indexesByTable[k], doomed)];
      } else {
        forall n | n in doomed ensures false {
          NoListNoIndex(tables, indexes, indexesByTable, n, k);
        }
        assert indexes - doomed == indexes;
        WithoutNone(doomed);
      }
      indexes := indexes - doomed;
    }

    /** Exactly the indexes of the table, each once. */
    method IndexesForTable(name: Name) returns (r: seq<IndexSchema>)
      requires Valid()
      ensures forall x :: x in r <==> exists n :: n in indexes && indexes[n] == x && SameName(x.table, name)
      ensures forall i, j :: 0 <= i < j < |r| ==> r[i] != r[j]
      ensures var ns := Listed(indexesByTable, Lower(name));
        |r| == |ns| && forall i :: 0 <= i < |r| ==> ns[i] in indexes && r[i] == indexes[ns[i]]
    {
      hide Lower;
      var k := Lower(name);
      var names := Listed(indexesByTable, k);
      assert Lists(indexes, names, k);
      r := [];
      for i := 0 to |names|
        invariant |r| == i
        invariant forall j :: 0 <= j < i ==> names[j] in indexes && r[j] == indexes[names[j]]
      {
        assert names[i] in names;
        r := r + [indexes[names[i]]];
      }
      ListedOnce(indexes, names, k, r, tables, indexesByTable);
    }
  }

  function AfterDrop(t: TableSchema, column: Name): TableSchema
  {
    var kept := Renumbered(WithoutColumn(t.columns, column));
    t.(columns := kept, colNames := NamesOf(kept))
  }

  lemma AfterDropNumbered(t: TableSchema, column: Name)
    ensures Numbered(AfterDrop(t, column))
  {
  }

  /** The indexes of table `k` with the column among theirs. */
  function Mentioning(indexes: map<Name, IndexSchema>, k: Name, column: Name): set<Name>
  {
    set n | n in indexes && On(indexes, n, k) && (exists c :: c in indexes[n].columns && SameName(c, column)) :: n
  }

  /** An index of the table with the column among its own. */
  predicate Mentions(x: IndexSchema, table: Name, column: Name)
  {
    SameName(x.table, table) && exists i :: 0 <= i < |x.columns| && SameName(x.columns[i], column)
  }

  lemma MentioningIff(indexes: map<Name, IndexSchema>, table: Name, column: Name)
    ensures forall n :: n in indexes ==>
      (n in Mentioning(indexes, Lower(table), column) <==> Mentions(indexes[n], table, column))
  {
    hide Lower;
  }

  /** Columns a, b, B and c: dropping b leaves a and c, and rows that still hold a value between theirs. */
  lemma SameNamedColumns()
    ensures var cols := [Column("a", false, false, false, 0), Column("b", false, false, false, 1),
                         Column("B", false, false, false, 2), Column("c", false, false, false, 3)];
      && FirstCalled(cols, 1, "b") && KeptAt(cols, "b", [0, 3])
      && WithoutValue([Integer(1), Integer(2), Integer(3), Integer(4)], 1) == [Integer(1), Integer(3), Integer(4)]
  {
    assert Lower("b") == "b" && Lower("B") == "b" && Lower("a") == "a" && Lower("c") == "c";
    assert "a"[0] != "b"[0] && "c"[0] != "b"[0];
  }

  lemma ListedOnce(
    indexes: map<Name, IndexSchema>, names: seq<Name>, k: Name, r: seq<IndexSchema>,
    tables: map<Name, TableSchema>, byTable: map<Name, seq<Name>>)
    requires Consistent(tables, indexes, byTable) && Lists(indexes, names, k)
    requires |r| == |names| && forall j :: 0 <= j < |r| ==> names[j] in indexes && r[j] == indexes[names[j]]
    ensures forall x :: x in r <==> exists n :: n in indexes && indexes[n] == x && Lower(x.table) == k
    ensures forall i, j :: 0 <= i < j < |r| ==> r[i] != r[j]
  {
    hide Lower, Numbered;
    forall x | x in r ensures exists n :: n in indexes && indexes[n] == x && Lower(x.table) == k {
      var j :| 0 <= j < |r| && r[j] == x;
      assert names[j] in names;
    }
    forall n | n in indexes && Lower(indexes[n].table) == k ensures indexes[n] in r {
      assert n in names;
      var j :| 0 <= j < |names| && names[j] == n;
      assert r[j] == indexes[n];
    }
    forall i, j | 0 <= i < j < |r| ensures r[i] != r[j] {
      assert Lower(r[i].name) == names[i] && Lower(r[j].name) == names[j];
    }
  }
}
