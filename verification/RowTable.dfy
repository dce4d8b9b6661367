/** Rows of values in a table: serialized on the way in, deserialized on the way out. */
module RowTable {
  import opened Bytes
  import opened Options
  import opened Values
  import opened Table
  import opened AppendOnly
  import opened BTreeInsert
  import PageStore

  /** `insert` of a row at the next rowid of a table that only grew; a row over a limit is stored, but not read back. */
  method AppendRow(table: BTreeTable, row: Row) returns (ok: bool, rowid: int)
    requires table.Valid() && Growing(table) && IsRow(row)
    requires I64_MAX !in table.model
    requires |EncRow(row)| < U32_LIMIT ==>
      table.pager.total + ChainLen(table.pager.ps, EncRow(row)) + table.height + 2 <= PageStore.MAX_PAGES
    modifies table, table.pager
    ensures table.Valid() && Growing(table)
    ensures ok <==> |EncRow(row)| < U32_LIMIT
    ensures !ok ==> table.model == old(table.model)
    ensures ok ==>
      && rowid !in old(table.model) && table.model.Keys == old(table.model).Keys + {rowid}
      && (forall k :: k in old(table.model) ==> table.model[k] == old(table.model)[k])
      && DecRow(table.model[rowid]) == if |row| <= MAX_COLUMNS && RowWithin(row) then Some(row) else None
  {
    hide EncRow, DecRow, IsRow, RowWithin, BTreeTable.Valid, Growing;
    rowid := NextRowid(table);
    KeysAreI64(table);
    var payload := SerializeRow(row);
    ok := Append(table, rowid, payload);
    DecEncRow(row, []);
    assert EncRow(row) + [] == EncRow(row);
  }

  /** `insert` of a row at any rowid. */
  method InsertRow(table: BTreeTable, rowid: int, row: Row) returns (ok: bool)
    requires table.Valid() && IsRow(row) && IsI64(rowid)
    requires |EncRow(row)| < U32_LIMIT ==>
      && CanInsert(table.pager.ps, table.pager.nodes, table.tree, rowid, InlineSize(table.pager.ps, EncRow(row)), LO)
      && table.pager.total + ChainLen(table.pager.ps, EncRow(row)) + table.height + 2 <= PageStore.MAX_PAGES
    modifies table, table.pager
    ensures table.Valid()
    ensures ok <==> rowid !in old(table.model) && |EncRow(row)| < U32_LIMIT
    ensures !ok ==> table.model == old(table.model)
    ensures ok ==>
      && table.model.Keys == old(table.model).Keys + {rowid}
      && (forall k :: k in old(table.model) ==> table.model[k] == old(table.model)[k])
      && DecRow(table.model[rowid]) == if |row| <= MAX_COLUMNS && RowWithin(row) then Some(row) else None
  {
    hide EncRow, DecRow, IsRow, RowWithin, BTreeTable.Valid, CanInsert;
    var payload := SerializeRow(row);
    ghost var stray;
    ok, stray := table.Insert(rowid, payload);
    DecEncRow(row, []);
    assert EncRow(row) + [] == EncRow(row);
  }

  lemma KeysAreI64(table: BTreeTable)
    requires table.Valid()
    ensures forall k :: k in table.model ==> IsI64(k)
  {
  }

  /** `find_by_rowid`: the stored bytes, deserialized; no row is an absent rowid, no value a corrupt one. */
  method FindRow(table: BTreeTable, rowid: int) returns (r: Option<Option<Row>>)
    requires table.Valid() && IsI64(rowid)
    ensures r == if rowid in table.model then Some(DecRow(table.model[rowid])) else None
  {
    hide DecRow, BTreeTable.Valid;
    var payload := table.Find(rowid);
    if payload.None? {
      return None;
    }
    var row := DeserializeRow(payload.value);
    r := Some(row);
  }
}
