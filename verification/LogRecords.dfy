/** The logical records of the binlog and their byte encoding. */
module LogRecords {
  import opened Bytes
  import opened Options
  import opened Varint
  import opened Values

  /** Strings are their UTF-8 bytes. */
  datatype LogRecord =
    | Begin(txid: nat)
    | InsertRow(txid: nat, table: seq<byte>, rowid: int, row: Row)
    | UpdateRow(txid: nat, table: seq<byte>, rowid: int, oldRow: Row, newRow: Row)
    | DeleteRow(txid: nat, table: seq<byte>, rowid: int, deleted: Option<Row>)
    | Prepare(txid: nat)
    | Commit(txid: nat)
    | Rollback(txid: nat)
    | Sql(sql: seq<byte>, user: seq<byte>, raftIndex: nat)

  predicate IsString(s: seq<byte>) { IsUtf8(s) && |s| < U64_LIMIT }

  /** A row the decoder accepts, whose bytes have a 64-bit length. */
  predicate Storable(row: Row)
  {
    IsRow(row) && |row| <= MAX_COLUMNS && RowWithin(row) && |EncRow(row)| < U64_LIMIT
  }

  predicate IsRecord(r: LogRecord)
  {
    match r
    case Begin(t) => t < U64_LIMIT
    case InsertRow(t, name, rowid, row) => t < U64_LIMIT && IsString(name) && IsI64(rowid) && Storable(row)
    case UpdateRow(t, name, rowid, a, b) =>
      t < U64_LIMIT && IsString(name) && IsI64(rowid) && Storable(a) && Storable(b)
    case DeleteRow(t, name, rowid, row) =>
      t < U64_LIMIT && IsString(name) && IsI64(rowid) && (row.Some? ==> Storable(row.value))
    case Prepare(t) => t < U64_LIMIT
    case Commit(t) => t < U64_LIMIT
    case Rollback(t) => t < U64_LIMIT
    case Sql(sql, user, i) => IsString(sql) && IsString(user) && i < U64_LIMIT
  }

  function EncString(s: seq<byte>): seq<byte> { EncVarint(|s|) + s }

  function EncRowid(i: int): seq<byte>
    requires IsI64(i)
  {
    EncVarint(Zigzag(i))
  }

  function EncSized(row: Row): seq<byte>
    requires Storable(row)
  {
    EncString(EncRow(row))
  }

  function EncRecord(r: LogRecord): (b: seq<byte>)
    requires IsRecord(r)
    ensures |b| > 0
  {
    match r
    case Begin(t) => [1] + EncVarint(t)
    case InsertRow(t, name, rowid, row) => [2] + (EncVarint(t) + (EncString(name) + (EncRowid(rowid) + EncSized(row))))
    case UpdateRow(t, name, rowid, a, b) =>
      [3] + (EncVarint(t) + (EncString(name) + (EncRowid(rowid) + (EncSized(a) + EncSized(b)))))
    case DeleteRow(t, name, rowid, row) =>
      [4] + (EncVarint(t) + (EncString(name) + (EncRowid(rowid) +
        (if row.Some? then [1] + EncSized(row.value) else [0]))))
    case Prepare(t) => [5] + EncVarint(t)
    case Commit(t) => [6] + EncVarint(t)
    case Rollback(t) => [7] + EncVarint(t)
    case Sql(sql, user, i) => [8] + (EncVarint(i) + (EncString(sql) + EncString(user)))
  }

  // ---- Readers: the value at `pos` and the position after it ----

  function VarintAt(data: seq<byte>, pos: nat): (r: Option<(nat, nat)>)
    requires pos <= |data|
    ensures r.Some? ==> pos < r.value.1 <= |data| && r.value.0 < U64_LIMIT
  {
    DecVarintRange(data[pos..], 0);
    match DecVarint(data[pos..])
    case None => None
    case Some((v, n)) => Some((v, pos + n))
  }

  function BytesAt(data: seq<byte>, pos: nat): (r: Option<(seq<byte>, nat)>)
    requires pos <= |data|
    ensures r.Some? ==> pos < r.value.1 <= |data|
  {
    match VarintAt(data, pos)
    case None => None
    case Some((len, start)) =>
      if |data| < start + len then None else Some((data[start..start + len], start + len))
  }

  function StringAt(data: seq<byte>, pos: nat): (r: Option<(seq<byte>, nat)>)
    requires pos <= |data|
    ensures r.Some? ==> pos < r.value.1 <= |data|
  {
    match BytesAt(data, pos)
    case None => None
    case Some((s, end)) => if IsUtf8(s) then Some((s, end)) else None
  }

  function RowidAt(data: seq<byte>, pos: nat): (r: Option<(int, nat)>)
    requires pos <= |data|
    ensures r.Some? ==> pos < r.value.1 <= |data|
  {
    match VarintAt(data, pos)
    case None => None
    case Some((u, end)) => Some((Unzigzag(u), end))
  }

  function RowAt(data: seq<byte>, pos: nat): (r: Option<(Row, nat)>)
    requires pos <= |data|
    ensures r.Some? ==> pos < r.value.1 <= |data|
  {
    match BytesAt(data, pos)
    case None => None
    case Some((b, end)) =>
      match DecRow(b)
      case None => None
      case Some(row) => Some((row, end))
  }

  /** The transaction, table name and rowid that start every row change. */
  function ChangeAt(data: seq<byte>, pos: nat): (r: Option<(nat, seq<byte>, int, nat)>)
    requires pos <= |data|
    ensures r.Some? ==> pos < r.value.3 <= |data|
  {
    match VarintAt(data, pos)
    case None => None
    case Some((t, p)) =>
      match StringAt(data, p)
      case None => None
      case Some((name, q)) =>
        match RowidAt(data, q)
        case None => None
        case Some((rowid, end)) => Some((t, name, rowid, end))
  }

  function DecInsert(data: seq<byte>, pos: nat): (r: Option<(LogRecord, nat)>)
    requires pos <= |data|
    ensures r.Some? ==> pos < r.value.1 <= |data|
  {
    match ChangeAt(data, pos)
    case None => None
    case Some((t, name, rowid, p)) =>
      match RowAt(data, p)
      case None => None
      case Some((row, end)) => Some((InsertRow(t, name, rowid, row), end))
  }

  function DecUpdate(data: seq<byte>, pos: nat): (r: Option<(LogRecord, nat)>)
    requires pos <= |data|
    ensures r.Some? ==> pos < r.value.1 <= |data|
  {
    match ChangeAt(data, pos)
    case None => None
    case Some((t, name, rowid, p)) =>
      match RowAt(data, p)
      case None => None
      case Some((a, q)) =>
        match RowAt(data, q)
        case None => None
        case Some((b, end)) => Some((UpdateRow(t, name, rowid, a, b), end))
  }

  /** Any nonzero marker byte announces the deleted row. */
  function DecDelete(data: seq<byte>, pos: nat): (r: Option<(LogRecord, nat)>)
    requires pos <= |data|
    ensures r.Some? ==> pos < r.value.1 <= |data|
  {
    match ChangeAt(data, pos)
    case None => None
    case Some((t, name, rowid, p)) =>
      if p == |data| then None
      else if data[p] == 0 then Some((DeleteRow(t, name, rowid, None), p + 1))
      else
        match RowAt(data, p + 1)
        case None => None
        case Some((row, end)) => Some((DeleteRow(t, name, rowid, Some(row)), end))
  }

  function DecSql(data: seq<byte>, pos: nat): (r: Option<(LogRecord, nat)>)
    requires pos <= |data|
    ensures r.Some? ==> pos < r.value.1 <= |data|
  {
    match VarintAt(data, pos)
    case None => None
    case Some((i, p)) =>
      match StringAt(data, p)
      case None => None
      case Some((sql, q)) =>
        match StringAt(data, q)
        case None => None
        case Some((user, end)) => Some((Sql(sql, user, i), end))
  }

  function DecMark(data: seq<byte>, pos: nat, tag: byte): (r: Option<(LogRecord, nat)>)
    requires pos <= |data|
    ensures r.Some? ==> pos < r.value.1 <= |data|
  {
    match VarintAt(data, pos)
    case None => None
    case Some((t, end)) =>
      if tag == 1 then Some((Begin(t), end))
      else if tag == 5 then Some((Prepare(t), end))
      else if tag == 6 then Some((Commit(t), end))
      else Some((Rollback(t), end))
  }

  function DecRecord(data: seq<byte>, pos: nat): (r: Option<(LogRecord, nat)>)
    ensures r.Some? ==> pos < r.value.1 <= |data|
  {
    if pos >= |data| then None
    else
      var tag := data[pos];
      if tag in {1, 5, 6, 7} then DecMark(data, pos + 1, tag)
      else if tag == 2 then DecInsert(data, pos + 1)
      else if tag == 3 then DecUpdate(data, pos + 1)
      else if tag == 4 then DecDelete(data, pos + 1)
      else if tag == 8 then DecSql(data, pos + 1)
      else None
  }

  // ---- Round trips ----

  /** `data` holds `b` at `pos`, followed by anything. */
  ghost predicate HeldAt(data: seq<byte>, pos: nat, b: seq<byte>)
  {
    pos + |b| <= |data| && data[pos..pos + |b|] == b
  }

  lemma HoldsSplit(data: seq<byte>, pos: nat, a: seq<byte>, b: seq<byte>)
    requires HeldAt(data, pos, a + b)
    ensures HeldAt(data, pos, a) && HeldAt(data, pos + |a|, b)
  {
    var c := data[pos..pos + |a + b|];
    assert c[..|a|] == a && c[|a|..] == b;
    assert data[pos..pos + |a|] == c[..|a|];
    assert data[pos + |a|..pos + |a| + |b|] == c[|a|..];
  }

  lemma VarintHeld(data: seq<byte>, pos: nat, v: nat)
    requires v < U64_LIMIT && HeldAt(data, pos, EncVarint(v))
    ensures VarintAt(data, pos) == Some((v, pos + |EncVarint(v)|))
  {
    hide EncVarint, DecVarint;
    var b := EncVarint(v);
    DecEncVarint(v, data[pos + |b|..]);
    assert data[pos..] == b + data[pos + |b|..];
  }

  lemma BytesHeld(data: seq<byte>, pos: nat, s: seq<byte>)
    requires |s| < U64_LIMIT && HeldAt(data, pos, EncString(s))
    ensures BytesAt(data, pos) == Some((s, pos + |EncString(s)|))
  {
    hide EncVarint, VarintAt;
    HoldsSplit(data, pos, EncVarint(|s|), s);
    VarintHeld(data, pos, |s|);
  }

  lemma StringHeld(data: seq<byte>, pos: nat, s: seq<byte>)
    requires IsString(s) && HeldAt(data, pos, EncString(s))
    ensures StringAt(data, pos) == Some((s, pos + |EncString(s)|))
  {
    hide BytesAt, EncString;
    BytesHeld(data, pos, s);
  }

  lemma RowidHeld(data: seq<byte>, pos: nat, i: int)
    requires IsI64(i) && HeldAt(data, pos, EncRowid(i))
    ensures RowidAt(data, pos) == Some((i, pos + |EncRowid(i)|))
  {
    hide VarintAt, EncVarint, Zigzag, Unzigzag;
    ZigzagBound(i);
    VarintHeld(data, pos, Zigzag(i));
    ZigzagRoundTrip(i);
  }

  lemma RowHeld(data: seq<byte>, pos: nat, row: Row)
    requires Storable(row) && HeldAt(data, pos, EncSized(row))
    ensures RowAt(data, pos) == Some((row, pos + |EncSized(row)|))
  {
    hide BytesAt, EncString, EncRow, DecRow;
    BytesHeld(data, pos, EncRow(row));
    DecEncRow(row, []);
    assert EncRow(row) + [] == EncRow(row);
  }

  lemma ChangeHeld(data: seq<byte>, pos: nat, t: nat, name: seq<byte>, rowid: int, tail: seq<byte>)
    requires t < U64_LIMIT && IsString(name) && IsI64(rowid)
    requires HeldAt(data, pos, EncVarint(t) + (EncString(name) + (EncRowid(rowid) + tail)))
    ensures var end := pos + |EncVarint(t)| + |EncString(name)| + |EncRowid(rowid)|;
      ChangeAt(data, pos) == Some((t, name, rowid, end)) && HeldAt(data, end, tail)
  {
    hide VarintAt, StringAt, RowidAt, EncVarint, EncString, EncRowid, IsString, HeldAt;
    HoldsSplit(data, pos, EncVarint(t), EncString(name) + (EncRowid(rowid) + tail));
    var p := pos + |EncVarint(t)|;
    HoldsSplit(data, p, EncString(name), EncRowid(rowid) + tail);
    HoldsSplit(data, p + |EncString(name)|, EncRowid(rowid), tail);
    VarintHeld(data, pos, t);
    StringHeld(data, p, name);
    RowidHeld(data, p + |EncString(name)|, rowid);
    HoldsBound(data, pos, EncVarint(t));
    HoldsBound(data, p, EncString(name));
    HoldsBound(data, p + |EncString(name)|, EncRowid(rowid));
  }

  lemma HoldsBound(data: seq<byte>, pos: nat, b: seq<byte>)
    requires HeldAt(data, pos, b)
    ensures pos + |b| <= |data|
  {
  }

  lemma SqlHeld(data: seq<byte>, pos: nat, sql: seq<byte>, user: seq<byte>, i: nat)
    requires IsString(sql) && IsString(user) && i < U64_LIMIT
    requires HeldAt(data, pos, EncVarint(i) + (EncString(sql) + EncString(user)))
    ensures DecSql(data, pos) ==
      Some((Sql(sql, user, i), pos + |EncVarint(i)| + |EncString(sql)| + |EncString(user)|))
  {
    hide VarintAt, StringAt, EncVarint, EncString, IsString, HeldAt;
    HoldsSplit(data, pos, EncVarint(i), EncString(sql) + EncString(user));
    var p := pos + |EncVarint(i)|;
    HoldsSplit(data, p, EncString(sql), EncString(user));
    VarintHeld(data, pos, i);
    StringHeld(data, p, sql);
    StringHeld(data, p + |EncString(sql)|, user);
    HoldsBound(data, pos, EncVarint(i));
    HoldsBound(data, p, EncString(sql));
  }

  lemma InsertHeld(data: seq<byte>, pos: nat, r: LogRecord)
    requires IsRecord(r) && r.InsertRow? && HeldAt(data, pos, EncRecord(r)[1..])
    ensures DecInsert(data, pos) == Some((r, pos + |EncRecord(r)| - 1))
  {
    hide RowAt, ChangeAt, EncVarint, EncString, EncRowid, EncSized, Storable, IsString, HeldAt;
    ChangeHeld(data, pos, r.txid, r.table, r.rowid, EncSized(r.row));
    RowHeld(data, ChangeAt(data, pos).value.3, r.row);
  }

  lemma UpdateHeld(data: seq<byte>, pos: nat, r: LogRecord)
    requires IsRecord(r) && r.UpdateRow? && HeldAt(data, pos, EncRecord(r)[1..])
    ensures DecUpdate(data, pos) == Some((r, pos + |EncRecord(r)| - 1))
  {
    hide RowAt, ChangeAt, EncVarint, EncString, EncRowid, EncSized, Storable, IsString, HeldAt;
    var x, y := EncSized(r.oldRow), EncSized(r.newRow);
    ChangeHeld(data, pos, r.txid, r.table, r.rowid, x + y);
    var p := ChangeAt(data, pos).value.3;
    HoldsSplit(data, p, x, y);
    HoldsBound(data, p, x);
    RowHeld(data, p, r.oldRow);
    RowHeld(data, p + |x|, r.newRow);
  }

  lemma DeleteHeld(data: seq<byte>, pos: nat, r: LogRecord)
    requires IsRecord(r) && r.DeleteRow? && HeldAt(data, pos, EncRecord(r)[1..])
    ensures DecDelete(data, pos) == Some((r, pos + |EncRecord(r)| - 1))
  {
    hide RowAt, ChangeAt, EncVarint, EncString, EncRowid, EncSized, Storable, IsString, HeldAt;
    var tail := if r.deleted.Some? then [1] + EncSized(r.deleted.value) else [0];
    ChangeHeld(data, pos, r.txid, r.table, r.rowid, tail);
    var p := ChangeAt(data, pos).value.3;
    HeldByte(data, p, tail);
    if r.deleted.Some? {
      HoldsSplit(data, p, [1], EncSized(r.deleted.value));
      RowHeld(data, p + 1, r.deleted.value);
    }
  }

  lemma HeldByte(data: seq<byte>, pos: nat, b: seq<byte>)
    requires HeldAt(data, pos, b) && b != []
    ensures pos < |data| && data[pos] == b[0]
  {
  }

  lemma MarkHeld(data: seq<byte>, pos: nat, r: LogRecord)
    requires IsRecord(r) && (r.Begin? || r.Prepare? || r.Commit? || r.Rollback?)
    requires HeldAt(data, pos, EncRecord(r)[1..])
    ensures DecMark(data, pos, EncRecord(r)[0]) == Some((r, pos + |EncRecord(r)| - 1))
  {
    hide VarintAt, EncVarint, HeldAt;
    assert EncRecord(r)[1..] == EncVarint(r.txid);
    VarintHeld(data, pos, r.txid);
  }

  /** Every record reads back at any offset, with the exact end, whatever stands before and after it. */
  lemma DecEncRecord(data: seq<byte>, pos: nat, r: LogRecord)
    requires IsRecord(r) && HeldAt(data, pos, EncRecord(r))
    ensures DecRecord(data, pos) == Some((r, pos + |EncRecord(r)|))
  {
    hide EncVarint, EncString, EncRowid, EncSized, IsRecord, HeldAt, DecSql, DecMark, DecInsert, DecUpdate, DecDelete;
    var b := EncRecord(r);
    assert b == [b[0]] + b[1..];
    HeldByte(data, pos, b);
    HoldsSplit(data, pos, [b[0]], b[1..]);
    match r
    case InsertRow(_, _, _, _) => InsertHeld(data, pos + 1, r);
    case UpdateRow(_, _, _, _, _) => UpdateHeld(data, pos + 1, r);
    case DeleteRow(_, _, _, _) => DeleteHeld(data, pos + 1, r);
    case Sql(sql, user, i) =>
      SqlParts(r);
      SqlHeld(data, pos + 1, sql, user, i);
    case _ => MarkHeld(data, pos + 1, r);
  }

  lemma SqlParts(r: LogRecord)
    requires IsRecord(r) && r.Sql?
    ensures IsString(r.sql) && IsString(r.user) && r.raftIndex < U64_LIMIT
  {
  }

  /** No encoded record is the beginning of another. */
  lemma RecordPrefixFree(r: LogRecord, s: LogRecord, x: seq<byte>, y: seq<byte>)
    requires IsRecord(r) && IsRecord(s)
    requires EncRecord(r) + x == EncRecord(s) + y
    ensures r == s && x == y
  {
    hide EncRecord, DecRecord, IsRecord;
    var data := EncRecord(r) + x;
    assert data[0..0 + |EncRecord(r)|] == EncRecord(r);
    assert data == EncRecord(s) + y && data[0..0 + |EncRecord(s)|] == EncRecord(s);
    DecEncRecord(data, 0, r);
    DecEncRecord(data, 0, s);
    assert x == data[|EncRecord(r)|..] && y == data[|EncRecord(s)|..];
  }
}
