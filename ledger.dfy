/** The database layer (billing/db/sqlalchemy/api.py) over in-memory tables.

    Each table is a sequence of rows in insertion order; `filter_by(...)` is
    a `Filter`, `.first()` is `First` (the earliest matching row) and
    `.all()` is `Select`.  The session, its transactions and the connection
    retry loop are not modelled; every operation here is one committed
    change. */
module Ledger {
  import opened Models

  /** `ProjectRecordNotFound` / `ProjectItemRecordNotFound`, the only outcome
      of these queries besides a result. */
  datatype Result<T> = Ok(value: T) | NotFound

  /** The keyword arguments of a chain of `filter_by` calls. */
  datatype Filter = Filter(id: Option<int>, projectId: Option<string>, itemId: Option<int>,
                           name: Option<string>, deleted: Option<bool>)

  predicate Matches(row: Row, f: Filter) {
    && (f.id.Some? ==> Id in row && row[Id] == IntVal(f.id.value))
    && (f.projectId.Some? ==> ProjectId in row && row[ProjectId] == StrVal(f.projectId.value))
    && (f.itemId.Some? ==> ItemId in row && row[ItemId] == IntVal(f.itemId.value))
    && (f.name.Some? ==> Name in row && row[Name] == StrVal(f.name.value))
    && (f.deleted.Some? ==> Deleted in row && row[Deleted] == BoolVal(f.deleted.value))
  }

  function ById(id: int): Filter { Filter(Some(id), None, None, None, None) }
  function ByName(name: string): Filter { Filter(None, None, None, Some(name), None) }
  function ByProject(projectId: string): Filter { Filter(None, Some(projectId), None, None, None) }
  function ByProjectState(projectId: string, deleted: bool): Filter {
    Filter(None, Some(projectId), None, None, Some(deleted))
  }
  function ByItem(projectId: string, itemId: int, deleted: bool): Filter {
    Filter(None, Some(projectId), Some(itemId), None, Some(deleted))
  }

  /** `.first()`: some matching row, or none exactly when nothing matches.
      The query has no `order_by`, so which row comes back when several
      match is the database's choice; the model takes the earliest in table
      order. */
  function First(t: seq<Row>, f: Filter): (r: Option<nat>)
    ensures r.Some? ==> r.value < |t| && Matches(t[r.value], f)
    ensures r.Some? ==> forall j :: 0 <= j < r.value ==> !Matches(t[j], f)
    ensures r.None? <==> forall j :: 0 <= j < |t| ==> !Matches(t[j], f)
  {
    if |t| == 0 then None
    else if Matches(t[0], f) then Some(0)
    else match First(t[1..], f)
      case None => None
      case Some(k) => Some(k + 1)
  }

  /** `.all()`: the matching rows, in table order. */
  function Select(t: seq<Row>, f: Filter): (r: seq<Row>)
    ensures |r| <= |t|
    ensures forall x :: x in r ==> x in t && Matches(x, f)
    ensures forall j :: 0 <= j < |t| && Matches(t[j], f) ==> t[j] in r
  {
    if |t| == 0 then []
    else (if Matches(t[0], f) then [t[0]] else []) + Select(t[1..], f)
  }

  /** Appending a row never changes which row comes first, unless nothing
      matched before and the new row does. */
  lemma FirstAppend(t: seq<Row>, row: Row, f: Filter)
    ensures First(t + [row], f) ==
            if First(t, f).Some? then First(t, f)
            else if Matches(row, f) then Some(|t|) else None
  {
    var t' := t + [row];
    assert forall j :: 0 <= j < |t| ==> t'[j] == t[j];
    assert t'[|t|] == row;
  }

  /** A match found in a table is still the first one after rows are
      appended. */
  lemma FirstPrefix(t: seq<Row>, t': seq<Row>, f: Filter)
    requires t <= t' && First(t, f).Some?
    ensures First(t', f) == First(t, f)
  {
    var k := First(t, f).value;
    assert t'[k] == t[k];
    assert forall j :: 0 <= j < k ==> t'[j] == t[j];
  }

  /** Rewriting the first match with a row that still matches keeps it first. */
  lemma FirstRewriteSame(t: seq<Row>, k: nat, row: Row, f: Filter)
    requires First(t, f) == Some(k) && Matches(row, f)
    ensures First(t[k := row], f) == Some(k)
  {
    var t' := t[k := row];
    assert forall j :: 0 <= j < k ==> t'[j] == t[j];
    assert t'[k] == row;
  }

  /** Rewriting a row that neither matched nor matches is invisible to `first`. */
  lemma FirstRewriteOther(t: seq<Row>, k: nat, row: Row, f: Filter)
    requires k < |t| && !Matches(t[k], f) && !Matches(row, f)
    ensures First(t[k := row], f) == First(t, f)
  {
    var t' := t[k := row];
    assert forall j :: 0 <= j < |t| && j != k ==> t'[j] == t[j];
  }

  /** A filter that no row matches selects nothing. */
  lemma SelectNone(t: seq<Row>, f: Filter)
    requires forall j :: 0 <= j < |t| ==> !Matches(t[j], f)
    ensures Select(t, f) == []
  {
  }

  /** Table rows carry pairwise distinct primary keys. */
  ghost predicate UniqueIds(t: seq<Row>) {
    forall i, j :: 0 <= i < j < |t| ==> IntField(t[i], Id) != IntField(t[j], Id)
  }

  /** Active (not soft-deleted) item record. */
  predicate Active(r: Row) { !BoolField(r, Deleted) }

  /** At most one active item record per (project, item): the price-epoch
      invariant of the item ledger. */
  ghost predicate OneActivePerItem(t: seq<Row>) {
    forall i, j :: 0 <= i < j < |t| && Active(t[i]) && Active(t[j]) ==>
      StrField(t[i], ProjectId) != StrField(t[j], ProjectId) || IntField(t[i], ItemId) != IntField(t[j], ItemId)
  }

  /** At most one active account record per project: the invariant of the
      account ledger. */
  ghost predicate OneActivePerProject(t: seq<Row>) {
    forall p: string, i, j :: 0 <= i < j < |t| && Matches(t[i], ByProjectState(p, false)) ==>
      !Matches(t[j], ByProjectState(p, false))
  }

  /** Under that invariant the active account `.first()` finds is the only
      one. */
  lemma OnlyActiveAccount(t: seq<Row>, projectId: string)
    requires OneActivePerProject(t) && First(t, ByProjectState(projectId, false)).Some?
    ensures forall j :: 0 <= j < |t| && Matches(t[j], ByProjectState(projectId, false)) ==>
              j == First(t, ByProjectState(projectId, false)).value
  {
    var k := First(t, ByProjectState(projectId, false)).value;
    assert forall j :: k < j < |t| ==> !Matches(t[j], ByProjectState(projectId, false));
  }

  /** Rewriting a row without changing its project or its `deleted` flag
      keeps at most one active account per project. */
  lemma RewriteKeepsOneActivePerProject(t: seq<Row>, k: nat, row: Row)
    requires k < |t| && OneActivePerProject(t)
    requires GetItem(row, ProjectId) == GetItem(t[k], ProjectId) && GetItem(row, Deleted) == GetItem(t[k], Deleted)
    ensures OneActivePerProject(t[k := row])
  {
    var r := t[k := row];
    assert forall q: string :: Matches(row, ByProjectState(q, false)) == Matches(t[k], ByProjectState(q, false));
    assert forall q: string, i :: 0 <= i < |t| ==>
      Matches(r[i], ByProjectState(q, false)) == Matches(t[i], ByProjectState(q, false));
  }

  /** Appending a row for a project that has no active account keeps at
      most one active account per project. */
  lemma AppendKeepsOneActivePerProject(t: seq<Row>, row: Row, projectId: string)
    requires OneActivePerProject(t) && GetItem(row, ProjectId) == Some(StrVal(projectId))
    requires First(t, ByProjectState(projectId, false)).None?
    ensures OneActivePerProject(t + [row])
  {
    var r := t + [row];
    assert forall i :: 0 <= i < |t| ==> r[i] == t[i] && !Matches(t[i], ByProjectState(projectId, false));
    assert forall q: string :: Matches(row, ByProjectState(q, false)) ==> q == projectId;
  }

  /** `price=` supplied to `item_record_update_for_project` is truthy and
      differs from the stored price: the record's price epoch ends. */
  predicate PriceChanges(values: Row, stored: Row) {
    Price in values && values[Price] != IntVal(0) && GetItem(values, Price) != GetItem(stored, Price)
  }

  /** The dict `item_record_create_for_project` applies to a new record:
      creation time, owning project and `used` forced to 0 (the supplied
      `used` is discarded); `int(price)` is the identity on an integer. */
  function ItemRecordCreateValues(projectId: string, values: Row, now: int): (v: Row)
    ensures GetItem(v, Used) == Some(IntVal(0))
    ensures GetItem(v, ProjectId) == Some(StrVal(projectId)) && GetItem(v, CreatedAt) == Some(IntVal(now))
    ensures Typed(values) ==> Typed(v)
  {
    values[CreatedAt := IntVal(now)][ProjectId := StrVal(projectId)][Used := IntVal(0)]
  }

  /** Every other supplied column is stored as given. */
  lemma CreateValuesKeep(projectId: string, values: Row, now: int, c: Column)
    requires c != Used && c != ProjectId && c != CreatedAt
    ensures GetItem(ItemRecordCreateValues(projectId, values, now), c) == GetItem(values, c)
  {
  }

  /** An item record retired by `item_record_destroy_for_project`: soft
      deleted, and `updated_at` set by the column's `onupdate` value, which
      is the import instant `loadTime`. */
  function Retired(row: Row, now: int, loadTime: int): (r: Row)
    ensures BoolField(r, Deleted) && !Active(r)
    ensures Typed(row) ==> Typed(r)
  {
    Delete(row, now)[UpdatedAt := IntVal(loadTime)]
  }

  /** Retiring a record keeps every column but the deletion flag, the
      deletion time and `updated_at`. */
  lemma RetiredKeeps(row: Row, now: int, loadTime: int, c: Column)
    requires c != Deleted && c != DeletedAt && c != UpdatedAt
    ensures GetItem(Retired(row, now, loadTime), c) == GetItem(row, c)
  {
    DeleteKeeps(row, now, c);
  }

  /** `record_destroy_for_project`: the bulk update of every account record of
      the project, deleted or not. */
  function DestroyProjectRecords(t: seq<Row>, projectId: string, now: int): (r: seq<Row>)
    ensures |r| == |t|
    ensures forall i :: 0 <= i < |t| && Matches(t[i], ByProject(projectId)) ==>
      && Matches(r[i], ByProjectState(projectId, true))
      && GetItem(r[i], DeletedAt) == Some(IntVal(now)) && GetItem(r[i], UpdatedAt) == Some(IntVal(now))
    ensures forall i, c :: 0 <= i < |t| && c != Deleted && c != DeletedAt && c != UpdatedAt ==>
      GetItem(r[i], c) == GetItem(t[i], c)
    ensures forall i :: 0 <= i < |t| && !Matches(t[i], ByProject(projectId)) ==> r[i] == t[i]
  {
    seq(|t|, i requires 0 <= i < |t| =>
      if Matches(t[i], ByProject(projectId))
      then t[i] + map[Deleted := BoolVal(true), DeletedAt := IntVal(now), UpdatedAt := IntVal(now)]
      else t[i])
  }

  /** The MySQL error codes that mean the connection to the database failed. */
  const ConnErrCodes: seq<string> := ["2002", "2003", "2006"]

  /** `sub` occurs in `s` at position `j`. */
  predicate OccursAt(s: string, sub: string, j: int) {
    0 <= j && j + |sub| <= |s| && s[j..j + |sub|] == sub
  }

  /** `str.find`: the lowest position at which `sub` occurs, or -1. */
  function Find(s: string, sub: string): (r: int)
    ensures r == -1 || OccursAt(s, sub, r)
    ensures r == -1 <==> forall j :: 0 <= j <= |s| ==> !OccursAt(s, sub, j)
    ensures r != -1 ==> forall j :: 0 <= j < r ==> !OccursAt(s, sub, j)
    decreases |s|
  {
    if |sub| > |s| then -1
    else if s[..|sub|] == sub then 0
    else
      var k := Find(s[1..], sub);
      assert forall j :: 1 <= j <= |s| ==> (OccursAt(s, sub, j) <==> OccursAt(s[1..], sub, j - 1)) by {
        forall j | 1 <= j <= |s| ensures OccursAt(s, sub, j) <==> OccursAt(s[1..], sub, j - 1) {
          if j + |sub| <= |s| {
            var a, b := s[j..j + |sub|], s[1..][j - 1..j - 1 + |sub|];
            assert |a| == |b| && forall m :: 0 <= m < |a| ==> a[m] == b[m];
          }
        }
      }
      if k == -1 then -1 else k + 1
  }

  /** `is_db_connection_error`: the error text carries one of the connection
      failure codes. */
  method IsDbConnectionError(args: string) returns (b: bool)
    ensures b <==> Find(args, "2002") != -1 || Find(args, "2003") != -1 || Find(args, "2006") != -1
  {
    var i := 0;
    while i < |ConnErrCodes|
      invariant 0 <= i <= |ConnErrCodes|
      invariant forall j :: 0 <= j < i ==> Find(args, ConnErrCodes[j]) == -1
    {
      if Find(args, ConnErrCodes[i]) != -1 {
        return true;
      }
      i := i + 1;
    }
    assert ConnErrCodes[0] == "2002" && ConnErrCodes[1] == "2003" && ConnErrCodes[2] == "2006";
    return false;
  }

  /** Some row of the table has this primary key. */
  ghost predicate IsIdIn(t: seq<Row>, id: int) {
    exists j :: 0 <= j < |t| && IntField(t[j], Id) == id
  }

  /** Every row carries the columns its table's readers rely on, primary keys
      are distinct and below the next one to be handed out, and every item
      record names a catalog entry (the foreign key
      project_item_record.item_id -> items.id). */
  ghost predicate TablesValid(projectRecords: seq<Row>, items: seq<Row>, itemRecords: seq<Row>, nextId: int) {
    && (forall i :: 0 <= i < |projectRecords| ==> ProjectAccountRecordRow(projectRecords[i]))
    && (forall i :: 0 <= i < |items| ==> ItemsRow(items[i]) && IntField(items[i], Id) < nextId)
    && (forall i :: 0 <= i < |itemRecords| ==>
          ProjectItemRecordRow(itemRecords[i]) && IntField(itemRecords[i], Id) < nextId)
    && (forall i :: 0 <= i < |itemRecords| ==> IsIdIn(items, IntField(itemRecords[i], ItemId)))
    && UniqueIds(items) && UniqueIds(itemRecords)
  }

  /** The contents of the billing tables, as one value. */
  datatype Tables = Tables(projectRecords: seq<Row>, items: seq<Row>, itemRecords: seq<Row>, nextId: int)

  /** The catalog after `if not item_get_by_name(name): item_create(name)`:
      the name is entered when missing, and nothing else changes. */
  function WithItem(s: Tables, name: string, loadTime: int): (r: Tables)
    ensures First(r.items, ByName(name)).Some?
    ensures r.projectRecords == s.projectRecords && r.itemRecords == s.itemRecords
    ensures s.items <= r.items && |r.items| <= |s.items| + 1
    ensures First(s.items, ByName(name)).Some? ==> r == s
  {
    if First(s.items, ByName(name)).Some? then s
    else
      var row := NewRecord(s.nextId, loadTime)[Name := StrVal(name)];
      FirstAppend(s.items, row, ByName(name));
      s.(items := s.items + [row], nextId := s.nextId + 1)
  }

  /** Entering a name in the catalog leaves the entry every other name
      resolves to as it was. */
  lemma WithItemKeepsNames(s: Tables, name: string, loadTime: int, n: string)
    requires n != name || First(s.items, ByName(n)).Some?
    ensures First(WithItem(s, name, loadTime).items, ByName(n)) == First(s.items, ByName(n))
    ensures forall k :: 0 <= k < |s.items| ==> WithItem(s, name, loadTime).items[k] == s.items[k]
  {
    if First(s.items, ByName(name)).None? {
      FirstAppend(s.items, NewRecord(s.nextId, loadTime)[Name := StrVal(name)], ByName(n));
    }
  }

  /** The billing tables. */
  class Database {
    /** Instant the models module was imported: the value of the
        `created_at`/`updated_at` column defaults and of the `onupdate`. */
    const loadTime: int
    var projectRecords: seq<Row>
    var items: seq<Row>
    var itemRecords: seq<Row>
    /** Next primary key to hand out (stands for a generated uuid). */
    var nextId: int

    ghost predicate Valid()
      reads this
    {
      TablesValid(projectRecords, items, itemRecords, nextId)
    }

    function State(): Tables
      reads this
    {
      Tables(projectRecords, items, itemRecords, nextId)
    }

    /** Some catalog entry has this primary key. */
    ghost predicate IsItemId(id: int)
      reads this
    {
      IsIdIn(items, id)
    }

    constructor (loadTime: int)
      ensures Valid()
      ensures this.loadTime == loadTime
      ensures projectRecords == [] && items == [] && itemRecords == []
    {
      this.loadTime := loadTime;
      projectRecords, items, itemRecords := [], [], [];
      nextId := 0;
    }

    // ---------------------------------------------------------------- project account records

    /** `record_get_for_project`: the first account record of the project in
        the requested state, or ProjectRecordNotFound. */
    function RecordGetForProject(projectId: string, deleted: bool): (r: Result<Row>)
      reads this
      ensures r.NotFound? <==>
        forall i :: 0 <= i < |projectRecords| ==>
          GetItem(projectRecords[i], ProjectId) != Some(StrVal(projectId)) ||
          GetItem(projectRecords[i], Deleted) != Some(BoolVal(deleted))
      ensures r.Ok? ==> r.value in projectRecords && GetItem(r.value, ProjectId) == Some(StrVal(projectId))
                        && GetItem(r.value, Deleted) == Some(BoolVal(deleted))
    {
      match First(projectRecords, ByProjectState(projectId, deleted))
      case None => NotFound
      case Some(k) => Ok(projectRecords[k])
    }

    /** `record_create_for_project`: a new account record built from the
        supplied columns plus the project, `created_at` and `updated_at`. */
    method RecordCreateForProject(projectId: string, values: Row, now: int)
      requires Valid() && Typed(values)
      requires Id !in values && Amount in values && Used in values && Until in values
      modifies this
      ensures Valid()
      ensures items == old(items) && itemRecords == old(itemRecords) && nextId == old(nextId) + 1
      ensures projectRecords == old(projectRecords) +
        [NewRecord(old(nextId), loadTime) +
         values[ProjectId := StrVal(projectId)][CreatedAt := IntVal(now)][UpdatedAt := IntVal(now)]]
    {
      var vals := values[ProjectId := StrVal(projectId)][CreatedAt := IntVal(now)][UpdatedAt := IntVal(now)];
      var row := Update(NewRecord(nextId, loadTime), vals);
      UpdateKeepsTyped(NewRecord(nextId, loadTime), vals);
      assert row == NewRecord(nextId, loadTime) + vals;
      projectRecords := projectRecords + [row];
      nextId := nextId + 1;
    }

    /** `record_update_for_project`: the supplied columns plus `updated_at`
        are written into the first active account record of the project;
        every other column and every other record is left alone. */
    method RecordUpdateForProject(projectId: string, values: Row, now: int) returns (r: Result<Row>)
      requires Valid() && Typed(values) && Id !in values
      modifies this
      ensures Valid()
      ensures items == old(items) && itemRecords == old(itemRecords) && nextId == old(nextId)
      ensures match First(old(projectRecords), ByProjectState(projectId, false))
        case None => r.NotFound? && projectRecords == old(projectRecords)
        case Some(k) =>
          && projectRecords == old(projectRecords)[k := old(projectRecords)[k] + values[UpdatedAt := IntVal(now)]]
          && r == Ok(projectRecords[k])
    {
      var vals := values[UpdatedAt := IntVal(now)];
      var found := First(projectRecords, ByProjectState(projectId, false));
      if found.None? {
        return NotFound;
      }
      var k := found.value;
      var row := Update(projectRecords[k], vals);
      UpdateKeepsTyped(projectRecords[k], vals);
      assert row == projectRecords[k] + vals;
      projectRecords := projectRecords[k := row];
      r := Ok(row);
    }

    /** `record_destroy_for_project`: every account record of the project is
        soft deleted; no row is removed. */
    method RecordDestroyForProject(projectId: string, now: int)
      requires Valid()
      modifies this
      ensures Valid()
      ensures items == old(items) && itemRecords == old(itemRecords) && nextId == old(nextId)
      ensures projectRecords == DestroyProjectRecords(old(projectRecords), projectId, now)
    {
      var t := DestroyProjectRecords(projectRecords, projectId, now);
      forall i | 0 <= i < |t| ensures ProjectAccountRecordRow(t[i]) {
        if Matches(projectRecords[i], ByProject(projectId)) {
          var stamps := map[Deleted := BoolVal(true), DeletedAt := IntVal(now), UpdatedAt := IntVal(now)];
          assert t[i] == projectRecords[i] + stamps;
          UpdateKeepsTyped(projectRecords[i], stamps);
        } else {
          assert t[i] == projectRecords[i];
        }
      }
      projectRecords := t;
    }

    // ---------------------------------------------------------------- items (the catalog)

    /** `item_get_by_name`: the first catalog entry with that name, deleted or
        not. */
    function ItemGetByName(name: string): (r: Option<Row>)
      reads this
      ensures r.None? <==> forall i :: 0 <= i < |items| ==> GetItem(items[i], Name) != Some(StrVal(name))
      ensures r.Some? ==> r.value in items && GetItem(r.value, Name) == Some(StrVal(name))
    {
      match First(items, ByName(name))
      case None => None
      case Some(k) => Some(items[k])
    }

    /** `item_create`: a new catalog entry; its timestamps keep the column
        defaults. */
    method ItemCreate(name: string)
      requires Valid()
      modifies this
      ensures Valid()
      ensures projectRecords == old(projectRecords) && itemRecords == old(itemRecords)
      ensures nextId == old(nextId) + 1
      ensures items == old(items) + [NewRecord(old(nextId), loadTime)[Name := StrVal(name)]]
    {
      var row := Update(NewRecord(nextId, loadTime), map[Name := StrVal(name)]);
      assert row == NewRecord(nextId, loadTime)[Name := StrVal(name)];
      ItemAppendKeepsValid(projectRecords, items, itemRecords, nextId, row);
      items := items + [row];
      nextId := nextId + 1;
    }

    // ---------------------------------------------------------------- project item records

    /** `get_all_item_record_for_project`: every item record of the project in
        the requested state; ProjectItemRecordNotFound exactly when there is
        none. */
    function GetAllItemRecordForProject(projectId: string, deleted: bool): (r: Result<seq<Row>>)
      reads this
      ensures r.NotFound? <==> forall i :: 0 <= i < |itemRecords| ==> !Matches(itemRecords[i], ByProjectState(projectId, deleted))
      ensures r.Ok? ==> forall x :: x in r.value ==>
                          && x in itemRecords && GetItem(x, ProjectId) == Some(StrVal(projectId))
                          && GetItem(x, Deleted) == Some(BoolVal(deleted))
      ensures r.Ok? ==> forall i :: 0 <= i < |itemRecords| && Matches(itemRecords[i], ByProjectState(projectId, deleted)) ==>
                                    itemRecords[i] in r.value
    {
      var rows := Select(itemRecords, ByProjectState(projectId, deleted));
      if |rows| == 0 then
        assert forall i :: 0 <= i < |itemRecords| ==> !Matches(itemRecords[i], ByProjectState(projectId, deleted));
        NotFound
      else
        assert rows[0] in rows;
        Ok(rows)
    }

    /** `item_record_get_for_project`: the first item record of the project
        for a catalog id, or ProjectItemRecordNotFound. */
    function ItemRecordGetForProject(projectId: string, itemId: int, deleted: bool): (r: Result<Row>)
      reads this
      ensures r.NotFound? <==> forall i :: 0 <= i < |itemRecords| ==> !Matches(itemRecords[i], ByItem(projectId, itemId, deleted))
      ensures r.Ok? ==> r.value in itemRecords && Matches(r.value, ByItem(projectId, itemId, deleted))
    {
      match First(itemRecords, ByItem(projectId, itemId, deleted))
      case None => NotFound
      case Some(k) => Ok(itemRecords[k])
    }

    /** `get_project_item_record_by_name`: the item is entered in the catalog
        when missing, then every item record of the project for it in the
        requested state is returned.  Because a new catalog entry has a fresh
        id, the answer is the one the tables gave before the call. */
    method GetProjectItemRecordByName(projectId: string, itemName: string, deleted: bool)
      returns (r: Result<seq<Row>>)
      requires Valid()
      modifies this
      ensures Valid()
      ensures ItemGetByName(itemName).Some?
      ensures State() == WithItem(old(State()), itemName, loadTime)
      ensures forall n :: old(ItemGetByName(n)).Some? ==> ItemGetByName(n) == old(ItemGetByName(n))
      ensures forall n :: RecordsByItemName(items, itemRecords, projectId, n, deleted) ==
                          RecordsByItemName(old(items), old(itemRecords), projectId, n, deleted)
      ensures var rows := RecordsByItemName(old(items), old(itemRecords), projectId, itemName, deleted);
              r == if rows == [] then NotFound else Ok(rows)
    {
      ghost var s := State();
      EnsureItem(itemName);
      WithItemKeepsRecords(s, itemName, loadTime, projectId, deleted);
      forall n | old(ItemGetByName(n)).Some? ensures ItemGetByName(n) == old(ItemGetByName(n)) {
        WithItemKeepsNames(s, itemName, loadTime, n);
      }
      var k := First(items, ByName(itemName)).value;
      var rows := Select(itemRecords, ByItem(projectId, IntField(items[k], Id), deleted));
      if |rows| == 0 {
        r := NotFound;
      } else {
        r := Ok(rows);
      }
    }

    /** `if not item_get_by_name(name): item_create(name)`. */
    method EnsureItem(name: string)
      requires Valid()
      modifies this
      ensures Valid()
      ensures State() == WithItem(old(State()), name, loadTime)
    {
      if ItemGetByName(name).None? {
        ItemCreate(name);
      }
    }

    /** `item_record_create_for_project`: exactly one record is added, for the
        project, created now, with `used = 0` whatever was supplied. */
    method ItemRecordCreateForProject(projectId: string, values: Row, now: int) returns (row: Row)
      requires Valid() && Typed(values) && Id !in values
      requires ItemId in values && IsItemId(IntField(values, ItemId))
      modifies this
      ensures Valid()
      ensures projectRecords == old(projectRecords) && items == old(items) && nextId == old(nextId) + 1
      ensures row == NewRecord(old(nextId), loadTime) + ItemRecordCreateValues(projectId, values, now)
      ensures itemRecords == old(itemRecords) + [row]
      ensures old(OneActivePerItem(itemRecords)) &&
              (Active(row) ==> First(old(itemRecords), ByItem(projectId, IntField(values, ItemId), false)).None?)
              ==> OneActivePerItem(itemRecords)
    {
      var vals := ItemRecordCreateValues(projectId, values, now);
      row := Update(NewRecord(nextId, loadTime), vals);
      UpdateKeepsTyped(NewRecord(nextId, loadTime), vals);
      assert row == NewRecord(nextId, loadTime) + vals;
      assert ProjectItemRecordRow(row) && IntField(row, Id) == nextId;
      assert row[ProjectId] == StrVal(projectId) && row[ItemId] == values[ItemId];
      AppendKeepsTablesValid(projectRecords, items, itemRecords, nextId, row);
      AppendKeepsOneActive(itemRecords, row, projectId, IntField(values, ItemId));
      itemRecords := itemRecords + [row];
      nextId := nextId + 1;
    }

    /** `item_record_destroy_for_project`: the record with that id is soft
        deleted and stays in the table. */
    method ItemRecordDestroyForProject(recordId: int, now: int)
      requires Valid()
      requires exists i :: 0 <= i < |itemRecords| && IntField(itemRecords[i], Id) == recordId
      modifies this
      ensures Valid()
      ensures projectRecords == old(projectRecords) && items == old(items) && nextId == old(nextId)
      ensures var k := First(old(itemRecords), ById(recordId));
        k.Some? && itemRecords == old(itemRecords)[k.value := Retired(old(itemRecords)[k.value], now, loadTime)]
      ensures old(OneActivePerItem(itemRecords)) ==> OneActivePerItem(itemRecords)
    {
      var found := First(itemRecords, ById(recordId));
      assert found.Some? by {
        var i :| 0 <= i < |itemRecords| && IntField(itemRecords[i], Id) == recordId;
        assert Matches(itemRecords[i], ById(recordId));
      }
      var k := found.value;
      RetireKeepsValid(projectRecords, items, itemRecords, nextId, k, now, loadTime);
      itemRecords := itemRecords[k := Retired(itemRecords[k], now, loadTime)];
    }

    /** `item_record_update_for_project`.  With a truthy `price` different from
        the stored one, the active record is retired and a new one (used 0, the
        new price) starts the next price epoch; otherwise the supplied
        columns plus `updated_at` are written in place and no record is
        added. */
    method ItemRecordUpdateForProject(projectId: string, values: Row, now: int) returns (r: Result<Row>)
      requires Valid() && Typed(values) && Id !in values && ItemId in values
      modifies this
      ensures Valid()
      ensures projectRecords == old(projectRecords) && items == old(items)
      ensures var vals := values[UpdatedAt := IntVal(now)];
        match First(old(itemRecords), ByItem(projectId, IntField(values, ItemId), false))
        case None => r.NotFound? && itemRecords == old(itemRecords) && nextId == old(nextId)
        case Some(k) =>
          if PriceChanges(values, old(itemRecords)[k]) then
            && r == Ok(NewRecord(old(nextId), loadTime) + ItemRecordCreateValues(projectId, vals, now))
            && itemRecords == old(itemRecords)[k := Retired(old(itemRecords)[k], now, loadTime)] + [r.value]
            && nextId == old(nextId) + 1
          else
            && itemRecords == old(itemRecords)[k := old(itemRecords)[k] + vals]
            && r == Ok(itemRecords[k]) && nextId == old(nextId)
      ensures old(OneActivePerItem(itemRecords)) && ProjectId !in values ==> OneActivePerItem(itemRecords)
    {
      var vals := values[UpdatedAt := IntVal(now)];
      var found := First(itemRecords, ByItem(projectId, values[ItemId].i, false));
      if found.None? {
        return NotFound;
      }
      var k := found.value;
      if PriceChanges(values, itemRecords[k]) {
        var created := RetireAndRecreate(projectId, k, vals, now);
        r := Ok(created);
      } else {
        var row := RewriteItemRecord(k, vals);
        r := Ok(row);
      }
    }

    /** The price-change branch of `item_record_update_for_project`: the
        active record `k` of the pair is retired, then a new record is created
        from the same dict. */
    method RetireAndRecreate(projectId: string, k: nat, vals: Row, now: int) returns (row: Row)
      requires Valid() && Typed(vals) && Id !in vals && ItemId in vals
      requires First(itemRecords, ByItem(projectId, IntField(vals, ItemId), false)) == Some(k)
      modifies this
      ensures Valid()
      ensures projectRecords == old(projectRecords) && items == old(items) && nextId == old(nextId) + 1
      ensures row == NewRecord(old(nextId), loadTime) + ItemRecordCreateValues(projectId, vals, now)
      ensures itemRecords == old(itemRecords)[k := Retired(old(itemRecords)[k], now, loadTime)] + [row]
      ensures old(OneActivePerItem(itemRecords)) ==> OneActivePerItem(itemRecords)
    {
      var rec := itemRecords[k];
      FirstByUniqueId(itemRecords, k);
      RetireThenCreate(projectRecords, items, itemRecords, nextId, k, now, loadTime,
                       ByItem(projectId, IntField(vals, ItemId), false));
      ItemRecordDestroyForProject(IntField(rec, Id), now);
      row := ItemRecordCreateForProject(projectId, vals, now);
    }

    /** The in-place branch of `item_record_update_for_project`. */
    method RewriteItemRecord(k: nat, vals: Row) returns (row: Row)
      requires Valid() && Typed(vals) && Id !in vals && k < |itemRecords|
      requires ItemId in vals && IntField(vals, ItemId) == IntField(itemRecords[k], ItemId)
      modifies this
      ensures Valid()
      ensures projectRecords == old(projectRecords) && items == old(items) && nextId == old(nextId)
      ensures row == old(itemRecords)[k] + vals
      ensures itemRecords == old(itemRecords)[k := row]
      ensures old(OneActivePerItem(itemRecords)) && Active(old(itemRecords)[k]) && ProjectId !in vals ==>
              OneActivePerItem(itemRecords)
    {
      var rec := itemRecords[k];
      row := Update(rec, vals);
      UpdateKeepsTyped(rec, vals);
      assert row == rec + vals;
      assert ProjectItemRecordRow(row);
      assert ProjectId !in vals ==> row[ProjectId] == rec[ProjectId];
      if Active(rec) {
        RewriteKeepsInvariants(itemRecords, k, row);
      }
      RewriteKeepsTablesValid(projectRecords, items, itemRecords, nextId, k, row);
      itemRecords := itemRecords[k := row];
    }
  }

  /** Rewriting one item record in place, with its id and catalog id kept,
      keeps the tables valid. */
  lemma RewriteKeepsTablesValid(p: seq<Row>, items: seq<Row>, t: seq<Row>, nextId: int, k: nat, row: Row)
    requires TablesValid(p, items, t, nextId) && k < |t| && ProjectItemRecordRow(row)
    requires IntField(row, Id) == IntField(t[k], Id) && IntField(row, ItemId) == IntField(t[k], ItemId)
    ensures TablesValid(p, items, t[k := row], nextId)
  {
    var t' := t[k := row];
    assert forall i :: 0 <= i < |t| && i != k ==> t'[i] == t[i];
    assert forall i :: 0 <= i < |t| ==> IntField(t'[i], Id) == IntField(t[i], Id);
    assert forall i :: 0 <= i < |t| ==> IntField(t'[i], ItemId) == IntField(t[i], ItemId);
  }

  /** Retiring one item record keeps the tables valid and never adds an
      active record. */
  lemma RetireKeepsValid(p: seq<Row>, items: seq<Row>, t: seq<Row>, nextId: int, k: nat, now: int, loadTime: int)
    requires TablesValid(p, items, t, nextId) && k < |t|
    ensures TablesValid(p, items, t[k := Retired(t[k], now, loadTime)], nextId)
    ensures OneActivePerItem(t) ==> OneActivePerItem(t[k := Retired(t[k], now, loadTime)])
  {
    var row := Retired(t[k], now, loadTime);
    RetiredKeeps(t[k], now, loadTime, Id);
    RetiredKeeps(t[k], now, loadTime, ItemId);
    RetiredKeeps(t[k], now, loadTime, ProjectId);
    RetiredKeeps(t[k], now, loadTime, Used);
    RetiredKeeps(t[k], now, loadTime, CreatedAt);
    assert ProjectItemRecordRow(row);
    RewriteKeepsInvariants(t, k, row);
    RewriteKeepsTablesValid(p, items, t, nextId, k, row);
  }

  /** A catalog entry with a fresh id keeps the tables valid. */
  lemma ItemAppendKeepsValid(p: seq<Row>, items: seq<Row>, t: seq<Row>, nextId: int, row: Row)
    requires TablesValid(p, items, t, nextId) && ItemsRow(row) && IntField(row, Id) == nextId
    ensures TablesValid(p, items + [row], t, nextId + 1)
  {
    var items' := items + [row];
    assert forall i :: 0 <= i < |items| ==> items'[i] == items[i];
    AppendUnique(items, row);
    forall i | 0 <= i < |t| ensures IsIdIn(items', IntField(t[i], ItemId)) {
      assert IsIdIn(items, IntField(t[i], ItemId));
      var j :| 0 <= j < |items| && IntField(items[j], Id) == IntField(t[i], ItemId);
      assert items'[j] == items[j];
    }
  }

  /** Before the price-change branch retires record `k`, the active record
      of its pair: the catalog id it names exists, and once it is retired the
      pair has no active record left. */
  lemma RetireThenCreate(p: seq<Row>, items: seq<Row>, t: seq<Row>, nextId: int, k: nat, now: int, loadTime: int,
                         f: Filter)
    requires TablesValid(p, items, t, nextId)
    requires First(t, f) == Some(k) && f.deleted == Some(false) && f.projectId.Some? && f.itemId.Some?
    ensures IsIdIn(items, f.itemId.value)
    ensures OneActivePerItem(t) ==> First(t[k := Retired(t[k], now, loadTime)], f).None?
  {
    assert IntField(t[k], ItemId) == f.itemId.value;
    assert IsIdIn(items, IntField(t[k], ItemId));
    var t1 := t[k := Retired(t[k], now, loadTime)];
    assert forall i :: 0 <= i < |t| && i != k ==> t1[i] == t[i];
    RetiredLeavesNoActive(t, k, t1, f);
  }

  /** Appending an item record with a fresh id that names a catalog entry
      keeps the tables valid. */
  lemma AppendKeepsTablesValid(p: seq<Row>, items: seq<Row>, t: seq<Row>, nextId: int, row: Row)
    requires TablesValid(p, items, t, nextId) && ProjectItemRecordRow(row)
    requires IntField(row, Id) == nextId && IsIdIn(items, IntField(row, ItemId))
    ensures TablesValid(p, items, t + [row], nextId + 1)
  {
    var t' := t + [row];
    assert forall i :: 0 <= i < |t| ==> t'[i] == t[i];
    AppendUnique(t, row);
  }

  /** Appending a record with a fresh id keeps the ids distinct. */
  lemma AppendUnique(t: seq<Row>, row: Row)
    requires UniqueIds(t)
    requires forall i :: 0 <= i < |t| ==> IntField(t[i], Id) < IntField(row, Id)
    ensures UniqueIds(t + [row])
  {
    var t' := t + [row];
    forall i, j | 0 <= i < j < |t'| ensures IntField(t'[i], Id) != IntField(t'[j], Id) {
      assert t'[i] == t[i];
      if j < |t| { assert t'[j] == t[j]; }
    }
  }

  /** The id of the row found by a filter on a unique column is the row itself. */
  lemma FirstByUniqueId(t: seq<Row>, k: nat)
    requires k < |t| && UniqueIds(t) && Id in t[k] && t[k][Id].IntVal?
    ensures First(t, ById(IntField(t[k], Id))) == Some(k)
  {
    assert Matches(t[k], ById(IntField(t[k], Id)));
    var k' := First(t, ById(IntField(t[k], Id))).value;
    assert IntField(t[k'], Id) == IntField(t[k], Id);
  }

  /** A new record for (project, item) keeps at most one active record per
      pair, when no active record for the pair existed yet. */
  lemma AppendKeepsOneActive(t: seq<Row>, row: Row, projectId: string, itemId: int)
    requires forall i :: 0 <= i < |t| ==> ProjectItemRecordRow(t[i])
    requires ProjectId in row && row[ProjectId] == StrVal(projectId)
    requires ItemId in row && row[ItemId] == IntVal(itemId)
    ensures OneActivePerItem(t) && (Active(row) ==> First(t, ByItem(projectId, itemId, false)).None?) ==>
            OneActivePerItem(t + [row])
  {
    var t' := t + [row];
    if OneActivePerItem(t) && (Active(row) ==> First(t, ByItem(projectId, itemId, false)).None?) {
      forall i, j | 0 <= i < j < |t'| && Active(t'[i]) && Active(t'[j])
        ensures StrField(t'[i], ProjectId) != StrField(t'[j], ProjectId)
             || IntField(t'[i], ItemId) != IntField(t'[j], ItemId)
      {
        assert t'[i] == t[i];
        if j == |t| {
          assert !Matches(t[i], ByItem(projectId, itemId, false));
          assert KindOk(Deleted, t[i][Deleted]) && KindOk(ProjectId, t[i][ProjectId]) && KindOk(ItemId, t[i][ItemId]);
        } else {
          assert t'[j] == t[j];
        }
      }
    }
  }

  /** Rewriting one item record in place, with its id, project and catalog
      id kept, preserves the table invariants; so does retiring it. */
  lemma RewriteKeepsInvariants(t: seq<Row>, k: nat, row: Row)
    requires k < |t|
    requires IntField(row, Id) == IntField(t[k], Id) && IntField(row, ItemId) == IntField(t[k], ItemId)
    requires Active(row) ==> Active(t[k])
    ensures UniqueIds(t) ==> UniqueIds(t[k := row])
    ensures OneActivePerItem(t) && StrField(row, ProjectId) == StrField(t[k], ProjectId) ==>
            OneActivePerItem(t[k := row])
    ensures forall i :: 0 <= i < |t| ==>
      IntField(t[k := row][i], Id) == IntField(t[i], Id) && IntField(t[k := row][i], ItemId) == IntField(t[i], ItemId)
  {
    var t' := t[k := row];
    assert forall i :: 0 <= i < |t| && i != k ==> t'[i] == t[i];
  }

  /** After the active record of a pair is retired, no active record of the
      pair is left. */
  lemma RetiredLeavesNoActive(t: seq<Row>, k: nat, t1: seq<Row>, f: Filter)
    requires First(t, f) == Some(k) && f.deleted == Some(false) && f.projectId.Some? && f.itemId.Some?
    requires |t1| == |t| && !Active(t1[k]) && forall i :: 0 <= i < |t| && i != k ==> t1[i] == t[i]
    requires forall i :: 0 <= i < |t| ==> ProjectItemRecordRow(t[i])
    ensures OneActivePerItem(t) ==> First(t1, f).None?
  {
    if OneActivePerItem(t) {
      forall j | 0 <= j < |t1| ensures !Matches(t1[j], f) {
        if j != k && Matches(t[j], f) {
          assert KindOk(Deleted, t[j][Deleted]) && KindOk(Deleted, t[k][Deleted]);
          if j < k { assert false; }
          assert Active(t[j]) && Active(t[k]);
        }
      }
    }
  }

  /** A new catalog entry has a fresh id, so no item record refers to it
      and every name's records are what they were. */
  lemma WithItemKeepsRecords(s: Tables, name: string, loadTime: int, projectId: string, deleted: bool)
    requires TablesValid(s.projectRecords, s.items, s.itemRecords, s.nextId)
    ensures forall n :: RecordsByItemName(WithItem(s, name, loadTime).items, s.itemRecords, projectId, n, deleted) ==
                        RecordsByItemName(s.items, s.itemRecords, projectId, n, deleted)
  {
    forall j | 0 <= j < |s.itemRecords| ensures IntField(s.itemRecords[j], ItemId) != s.nextId {
      assert IsIdIn(s.items, IntField(s.itemRecords[j], ItemId));
    }
    forall n ensures RecordsByItemName(WithItem(s, name, loadTime).items, s.itemRecords, projectId, n, deleted) ==
                     RecordsByItemName(s.items, s.itemRecords, projectId, n, deleted) {
      if First(s.items, ByName(name)).None? {
        WithItemKeepsRecordsOf(s, name, loadTime, projectId, deleted, n);
      }
    }
  }

  lemma WithItemKeepsRecordsOf(s: Tables, name: string, loadTime: int, projectId: string, deleted: bool, n: string)
    requires First(s.items, ByName(name)).None?
    requires forall j :: 0 <= j < |s.itemRecords| ==> IntField(s.itemRecords[j], ItemId) != s.nextId
    ensures RecordsByItemName(WithItem(s, name, loadTime).items, s.itemRecords, projectId, n, deleted) ==
            RecordsByItemName(s.items, s.itemRecords, projectId, n, deleted)
  {
    var row := NewRecord(s.nextId, loadTime)[Name := StrVal(name)];
    var t := s.items + [row];
    assert WithItem(s, name, loadTime).items == t;
    FirstAppend(s.items, row, ByName(n));
    if n == name {
      assert First(t, ByName(n)) == Some(|s.items|) && t[|s.items|] == row;
      SelectNone(s.itemRecords, ByItem(projectId, s.nextId, deleted));
    } else if First(s.items, ByName(n)).Some? {
      var k := First(s.items, ByName(n)).value;
      assert t[k] == s.items[k];
    }
  }

  /** The item records of a project for the catalog entry named `itemName`,
      in the requested state (none when the name is not in the catalog). */
  function RecordsByItemName(items: seq<Row>, itemRecords: seq<Row>, projectId: string,
                             itemName: string, deleted: bool): seq<Row>
  {
    match First(items, ByName(itemName))
    case None => []
    case Some(k) => Select(itemRecords, ByItem(projectId, IntField(items[k], Id), deleted))
  }
}
