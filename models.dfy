/** Rows of the billing tables and the generic record operations every
    mapped class inherits (billing/db/sqlalchemy/models.py).

    A mapped object is a bag of attributes; `update`, `__setitem__` and
    `__getitem__` work on any column name.  A row is therefore modelled as a
    map from column to value, and the per-table column sets are predicates
    over such maps. */
module Models {

  datatype Option<T> = None | Some(value: T) {
    function GetOr(default: T): T {
      match this
      case Some(v) => v
      case None => default
    }
  }

  /** Every column of the three tables the billing agent touches. */
  datatype Column =
    | Id | ProjectId | ItemId | Name | Amount | Used | Price
    | Description | Until | CreatedAt | UpdatedAt | DeletedAt | Deleted

  /** Column values.  Timestamps are whole seconds (the agent compares them as
      fixed-width "%Y-%m-%d %H:%M:%S" strings, which orders them
      chronologically). */
  datatype Value = IntVal(i: int) | StrVal(s: string) | BoolVal(b: bool)

  /** A mapped object, or the `values` dict handed to the database layer. */
  type Row = map<Column, Value>

  /** The declared column types: ids, amounts and timestamps are integers,
      names and texts strings, the soft-delete flag a boolean. */
  predicate KindOk(c: Column, v: Value) {
    match c
    case ProjectId | Name | Description => v.StrVal?
    case Deleted => v.BoolVal?
    case _ => v.IntVal?
  }

  /** Every value supplied for a column has that column's declared type. */
  predicate Typed(row: Row) {
    forall c :: c in row ==> KindOk(c, row[c])
  }

  /** Integer column, with 0 for a NULL (absent) one. */
  function IntField(row: Row, c: Column): int {
    if c in row && row[c].IntVal? then row[c].i else 0
  }

  function StrField(row: Row, c: Column): string {
    if c in row && row[c].StrVal? then row[c].s else ""
  }

  function BoolField(row: Row, c: Column): bool {
    c in row && row[c].BoolVal? && row[c].b
  }

  /** `ModelBase.__setitem__`: setattr of one column. */
  function SetItem(row: Row, key: Column, v: Value): Row {
    row[key := v]
  }

  /** `ModelBase.__getitem__`: getattr of one column; an unset column reads as
      None. */
  function GetItem(row: Row, key: Column): Option<Value> {
    if key in row then Some(row[key]) else None
  }

  /** Reading a column back after writing it gives the written value, and no
      other column is disturbed. */
  lemma GetItemAfterSetItem(row: Row, key: Column, v: Value, other: Column)
    ensures GetItem(SetItem(row, key, v), key) == Some(v)
    ensures other != key ==> GetItem(SetItem(row, key, v), other) == GetItem(row, other)
  {
  }

  /** `ModelBase.update`: one setattr per key, so the object ends up as the
      dict union with the supplied values winning. */
  method Update(row: Row, values: Row) returns (r: Row)
    ensures r == row + values
  {
    r := row;
    var todo := values.Keys;
    while todo != {}
      invariant todo <= values.Keys
      invariant r.Keys == row.Keys + (values.Keys - todo)
      invariant forall k :: k in values && k !in todo ==> r[k] == values[k]
      invariant forall k :: k in row && k !in values - todo ==> r[k] == row[k]
      decreases todo
    {
      var k :| k in todo;
      r := SetItem(r, k, values[k]);
      todo := todo - {k};
    }
    assert r.Keys == (row + values).Keys;
  }

  /** Updating a well-typed row with well-typed values keeps it well typed. */
  lemma UpdateKeepsTyped(row: Row, values: Row)
    requires Typed(row) && Typed(values)
    ensures Typed(row + values)
  {
    forall c | c in row + values ensures KindOk(c, (row + values)[c]) {
      if c in values { assert (row + values)[c] == values[c]; } else { assert (row + values)[c] == row[c]; }
    }
  }

  /** A freshly constructed mapped object: its primary key (a generated uuid,
      here a fresh integer), `created_at` and `updated_at` at their column
      defaults, and `deleted = False`.  The timestamp defaults are
      `datetime.utcnow()` evaluated once when the module is imported, so they
      are the import instant `loadTime`, not the instant of creation. */
  function NewRecord(id: int, loadTime: int): (r: Row)
    ensures GetItem(r, Deleted) == Some(BoolVal(false))
    ensures GetItem(r, Id) == Some(IntVal(id))
    ensures GetItem(r, CreatedAt) == Some(IntVal(loadTime)) && GetItem(r, UpdatedAt) == Some(IntVal(loadTime))
    ensures GetItem(r, DeletedAt) == None && Typed(r)
  {
    map[Id := IntVal(id), CreatedAt := IntVal(loadTime), UpdatedAt := IntVal(loadTime),
        Deleted := BoolVal(false)]
  }

  /** `ModelBase.delete`: soft delete.  The flag is set and the deletion time
      stamped; the row itself is kept. */
  function Delete(row: Row, now: int): (r: Row)
    ensures BoolField(r, Deleted) && GetItem(r, DeletedAt) == Some(IntVal(now))
    ensures Typed(row) ==> Typed(r)
  {
    row[Deleted := BoolVal(true)][DeletedAt := IntVal(now)]
  }

  /** The assignments of a soft deletion touch no other column (the
      `updated_at` stamp of the save that follows is `Ledger.Retired`'s). */
  lemma DeleteKeeps(row: Row, now: int, c: Column)
    requires c != Deleted && c != DeletedAt
    ensures GetItem(Delete(row, now), c) == GetItem(row, c)
  {
  }

  /** The columns of `ProjectAccountRecord` that the agent reads are set. */
  predicate ProjectAccountRecordRow(r: Row) {
    Typed(r) && Id in r && ProjectId in r && Amount in r && Used in r && Until in r
    && CreatedAt in r && UpdatedAt in r && Deleted in r
  }

  /** The columns of `Items` (the billable-item catalog) are set. */
  predicate ItemsRow(r: Row) {
    Typed(r) && Id in r && Name in r && CreatedAt in r && UpdatedAt in r && Deleted in r
  }

  /** The columns of `ProjectItemRecord` that the agent reads are set; `price`
      is nullable and reads as 0 when unset. */
  predicate ProjectItemRecordRow(r: Row) {
    Typed(r) && Id in r && ItemId in r && ProjectId in r && Used in r
    && CreatedAt in r && UpdatedAt in r && Deleted in r
  }
}
