/** The redirect table (`cfc_redirects`) and its data-access class.

    A row maps each of the eight column names to a value. Writes convert
    every value to its column's type, as the database does in WordPress's
    non-strict SQL mode: integer columns keep the leading integer of a
    string, text columns keep the printed form of a number. The pure
    `Table*` functions say what each statement does to the table; the
    `Store` class holds the same state in fields and its methods are proved
    to follow those functions. */
module Db {
  import opened Php

  type Row = map<string, Val>

  const Columns: set<string> :=
    {"id", "entity_id", "page_type", "page_title", "post_id", "post_type", "post_title", "is_active"}

  const IntColumns: set<string> := {"id", "entity_id", "post_id"}

  /** The schema version this code installs. */
  const DbVersion: real := 0.1

  /** The value a column stores when it is written with `v`. */
  function Coerce(c: string, v: Val): Val {
    if v.Null? then Null else if c in IntColumns then Int(ToInt(v)) else Str(ToStr(v))
  }

  /** What an insert that does not name a column stores in it: `DEFAULT 0`
      for `is_active`, the type's implicit default for the others. */
  function InsertDefault(c: string): Val {
    if c == "is_active" then Str("0") else if c in IntColumns then Int(0) else Str("")
  }

  /** What an update that sets a NOT NULL column to NULL stores in it. */
  function ImplicitDefault(c: string): Val {
    if c in IntColumns then Int(0) else Str("")
  }

  /** A stored row: every column present, every value of its column's type,
      and only `is_active` (the one column without NOT NULL) may be NULL. */
  predicate WellFormedRow(r: Row) {
    r.Keys == Columns &&
    forall c :: c in r ==> r[c] == Coerce(c, r[c]) && (r[c] == Null ==> c == "is_active")
  }

  /** The whole table: its rows in storage order, the AUTO_INCREMENT counter
      and whether `CREATE TABLE` has run. */
  datatype Table = Table(rows: seq<Row>, nextId: int, created: bool)

  ghost predicate UniqueIds(rows: seq<Row>) {
    forall i, j :: 0 <= i < j < |rows| ==> Get(rows[i], "id") != Get(rows[j], "id")
  }

  ghost predicate WellFormed(t: Table) {
    && (!t.created ==> t.rows == [])
    && (forall i :: 0 <= i < |t.rows| ==> WellFormedRow(t.rows[i]))
    && UniqueIds(t.rows)
  }

  // ---------------------------------------------------------------- reads

  /** `get_by_id`: the row whose id is `id`, or null. */
  function FindById(rows: seq<Row>, id: int): (r: Option<Row>)
    ensures r.None? <==> forall i :: 0 <= i < |rows| ==> Get(rows[i], "id") != Int(id)
    ensures r.Some? ==> r.value in rows && Get(r.value, "id") == Int(id)
  {
    if rows == [] then None
    else if Get(rows[0], "id") == Int(id) then Some(rows[0])
    else FindById(rows[1..], id)
  }

  /** The WHERE clause of `get_by_entity_id`: the entity id, and the page
      type too unless the type given is empty. */
  predicate EntityMatch(r: Row, entityId: int, pageType: string) {
    Get(r, "entity_id") == Int(entityId) && (EmptyStr(pageType) || Get(r, "page_type") == Str(pageType))
  }

  /** `get_by_entity_id`: the first row, in table order, that matches. */
  function FindByEntity(rows: seq<Row>, entityId: int, pageType: string): (r: Option<Row>)
    ensures r.None? <==> forall i :: 0 <= i < |rows| ==> !EntityMatch(rows[i], entityId, pageType)
    ensures r.Some? ==> r.value in rows && EntityMatch(r.value, entityId, pageType)
  {
    if rows == [] then None
    else if EntityMatch(rows[0], entityId, pageType) then Some(rows[0])
    else FindByEntity(rows[1..], entityId, pageType)
  }

  /** The row `get_by_entity_id` returns is the first match: no earlier row
      matches. */
  lemma {:induction false} FindByEntityFirst(rows: seq<Row>, entityId: int, pageType: string)
    requires FindByEntity(rows, entityId, pageType).Some?
    ensures exists k :: 0 <= k < |rows| && rows[k] == FindByEntity(rows, entityId, pageType).value &&
                        (forall j :: 0 <= j < k ==> !EntityMatch(rows[j], entityId, pageType))
  {
    if !EntityMatch(rows[0], entityId, pageType) {
      FindByEntityFirst(rows[1..], entityId, pageType);
      var k :| 0 <= k < |rows| - 1 && rows[1..][k] == FindByEntity(rows[1..], entityId, pageType).value &&
        forall j :: 0 <= j < k ==> !EntityMatch(rows[1..][j], entityId, pageType);
      assert rows[k + 1] == FindByEntity(rows, entityId, pageType).value;
      forall j | 0 <= j < k + 1 ensures !EntityMatch(rows[j], entityId, pageType) {
        if j > 0 { assert rows[j] == rows[1..][j - 1]; }
      }
    }
  }

  // --------------------------------------------------------------- insert

  /** The id an insert gets: the one the data names, unless it is 0 or NULL,
      in which case the AUTO_INCREMENT counter's. */
  function AssignedId(t: Table, data: Row): int {
    var explicit := ToInt(Get(data, "id"));
    if explicit != 0 then explicit else t.nextId
  }

  /** The row an insert of `data` stores under `id`. */
  function NewRow(data: Row, id: int): Row {
    map c | c in Columns :: if c == "id" then Int(id) else if c in data then Coerce(c, data[c]) else InsertDefault(c)
  }

  /** An insert succeeds when the table exists, every key is a column, no NOT
      NULL column other than the AUTO_INCREMENT id is given NULL, and the id
      is not taken. */
  predicate InsertAccepted(t: Table, data: Row) {
    && t.created
    && data.Keys <= Columns
    && (forall c :: c in data && data[c] == Null ==> c == "id" || c == "is_active")
    && FindById(t.rows, AssignedId(t, data)).None?
  }

  /** `insert`: the new table and the inserted row as read back, or false.
      A failed insert changes nothing; a successful one adds one row after
      the others and reads it back by its id. */
  function TableInsert(t: Table, data: Row): (r: (Table, Option<Row>))
    ensures r.1.Some? <==> InsertAccepted(t, data)
    ensures r.1.None? ==> r.0 == t
    ensures r.1.Some? ==> |r.0.rows| == |t.rows| + 1 && r.0.rows[..|t.rows|] == t.rows
    ensures r.1.Some? ==> r.1.value == r.0.rows[|t.rows|] && Get(r.1.value, "id") == Int(AssignedId(t, data))
  {
    if !InsertAccepted(t, data) then (t, None)
    else
      var id := AssignedId(t, data);
      var rows := t.rows + [NewRow(data, id)];
      FindByIdAppend(t.rows, NewRow(data, id), id);
      (Table(rows, if id >= t.nextId then id + 1 else t.nextId, true), FindById(rows, id))
  }

  // --------------------------------------------------------------- update

  /** The value a column takes when an update sets it to `v`. */
  function UpdateValue(c: string, v: Val): Val {
    if v == Null && c != "is_active" then ImplicitDefault(c) else Coerce(c, v)
  }

  /** One row after `SET data`. */
  function Apply(r: Row, data: Row): Row {
    map c | c in r :: if c in data then UpdateValue(c, data[c]) else r[c]
  }

  /** The id the updated row has afterwards. */
  function NewId(data: Row, id: int): int {
    if "id" in data then ToInt(UpdateValue("id", data["id"])) else id
  }

  /** True when another row (not the one being updated) already has `newId`. */
  predicate IdTakenByOther(rows: seq<Row>, newId: int, id: int) {
    exists i :: 0 <= i < |rows| && Get(rows[i], "id") == Int(newId) && Get(rows[i], "id") != Int(id)
  }

  /** An update succeeds when the table exists, the SET list is non-empty and
      names columns only, and a changed id does not collide. */
  predicate UpdateAccepted(t: Table, data: Row, id: int) {
    && t.created
    && data != map[]
    && data.Keys <= Columns
    && !("id" in data && IdTakenByOther(t.rows, NewId(data, id), id))
  }

  function UpdateRows(rows: seq<Row>, data: Row, id: int): seq<Row> {
    seq(|rows|, i requires 0 <= i < |rows| => if Get(rows[i], "id") == Int(id) then Apply(rows[i], data) else rows[i])
  }

  datatype UpdateResult = UpdateFailed | Updated(row: Option<Row>)

  /** `update(data, ['id' => id])`: false on a failed statement, otherwise
      the row re-read by the id given (null when no row had it). A failed
      update changes nothing; any update keeps the number of rows. */
  function TableUpdate(t: Table, data: Row, id: int): (r: (Table, UpdateResult))
    ensures r.1 == UpdateFailed <==> !UpdateAccepted(t, data, id)
    ensures r.1 == UpdateFailed ==> r.0 == t
    ensures |r.0.rows| == |t.rows| && r.0.nextId == t.nextId && r.0.created == t.created
    ensures r.1.Updated? && r.1.row.Some? ==> r.1.row.value in r.0.rows && Get(r.1.row.value, "id") == Int(id)
  {
    if !UpdateAccepted(t, data, id) then (t, UpdateFailed)
    else
      var rows := UpdateRows(t.rows, data, id);
      (t.(rows := rows), Updated(FindById(rows, id)))
  }

  // --------------------------------------------------------------- delete

  /** The WHERE clause of `delete`: every key equal, after conversion to the
      column's type (a NULL compares with IS NULL). */
  predicate Matches(r: Row, where: Row) {
    forall k :: k in where ==> Get(r, k) == Coerce(k, where[k])
  }

  /** The rows a delete keeps, in their order. */
  function Remaining(rows: seq<Row>, where: Row): (kept: seq<Row>)
    ensures |kept| <= |rows|
    ensures forall r :: r in kept <==> r in rows && !Matches(r, where)
  {
    if rows == [] then []
    else if Matches(rows[0], where) then Remaining(rows[1..], where)
    else [rows[0]] + Remaining(rows[1..], where)
  }

  predicate DeleteAccepted(t: Table, where: Row) {
    t.created && where != map[] && where.Keys <= Columns
  }

  /** `delete(where)`: the number of rows removed, or false. A failed delete
      changes nothing; otherwise exactly the non-matching rows stay. */
  function TableDelete(t: Table, where: Row): (r: (Table, Option<nat>))
    ensures r.1.None? <==> !DeleteAccepted(t, where)
    ensures r.1.None? ==> r.0 == t
    ensures r.1.Some? ==> r.1.value + |r.0.rows| == |t.rows|
    ensures r.1.Some? ==> forall x :: x in r.0.rows <==> x in t.rows && !Matches(x, where)
  {
    if !DeleteAccepted(t, where) then (t, None)
    else
      var kept := Remaining(t.rows, where);
      (t.(rows := kept), Some(|t.rows| - |kept|))
  }

  // -------------------------------------------------------------- upgrade

  /** `upgrade_db` given the stored version (read as a float, so 0.0 when the
      option is missing): creates the table on first install and leaves the
      stored version at `DbVersion`. */
  function TableUpgrade(t: Table, version: real): (r: (Table, real))
    ensures r.0.rows == t.rows && r.0.nextId == t.nextId
    ensures r.0.created <==> t.created || version == 0.0
    ensures r.1 == DbVersion
  {
    (if version == 0.0 then t.(created := true) else t, DbVersion)
  }

  // --------------------------------------------------------------- lemmas

  lemma CoerceIdempotent(c: string, v: Val)
    ensures Coerce(c, Coerce(c, v)) == Coerce(c, v)
  {
  }

  lemma {:induction false} FindByIdAppend(rows: seq<Row>, row: Row, id: int)
    requires FindById(rows, id).None?
    requires Get(row, "id") == Int(id)
    ensures FindById(rows + [row], id) == Some(row)
  {
    if rows != [] {
      assert (rows + [row])[1..] == rows[1..] + [row];
      FindByIdAppend(rows[1..], row, id);
    }
  }

  /** With unique ids, the row found by id is the one at the index holding it. */
  lemma {:induction false} FindByIdAt(rows: seq<Row>, k: nat, id: int)
    requires UniqueIds(rows)
    requires k < |rows| && Get(rows[k], "id") == Int(id)
    ensures FindById(rows, id) == Some(rows[k])
  {
    if k > 0 {
      assert Get(rows[0], "id") != Int(id);
      FindByIdAt(rows[1..], k - 1, id);
    }
  }

  /** A successful insert appends one well-formed row under an id no row had,
      reads back exactly that row, and leaves the earlier rows as they were;
      a failed one changes nothing. */
  lemma InsertSpec(t: Table, data: Row)
    requires WellFormed(t)
    ensures var (t', r) := TableInsert(t, data);
      && WellFormed(t')
      && (r.Some? <==> InsertAccepted(t, data))
      && (r.None? ==> t' == t)
      && (r.Some? ==>
            var id := AssignedId(t, data);
            && FindById(t.rows, id).None?
            && t'.rows == t.rows + [r.value]
            && r.value == NewRow(data, id)
            && Get(r.value, "id") == Int(id)
            && FindById(t'.rows, id) == r
            && t'.nextId > id)
  {
    if InsertAccepted(t, data) {
      var id := AssignedId(t, data);
      var row := NewRow(data, id);
      FindByIdAppend(t.rows, row, id);
      NewRowWellFormed(data, id);
      AppendKeepsWellFormed(t, row, id, TableInsert(t, data).0.nextId);
    }
  }

  /** The row an accepted insert stores is a well-formed row. */
  lemma NewRowWellFormed(data: Row, id: int)
    requires forall c :: c in data && data[c] == Null ==> c == "id" || c == "is_active"
    ensures WellFormedRow(NewRow(data, id))
  {
    var row := NewRow(data, id);
    forall c | c in row ensures row[c] == Coerce(c, row[c]) {
      if c in data && c != "id" { CoerceIdempotent(c, data[c]); }
    }
  }

  /** Appending a well-formed row under an id no row has keeps the table
      well formed. */
  lemma AppendKeepsWellFormed(t: Table, row: Row, id: int, nextId: int)
    requires WellFormed(t) && t.created
    requires WellFormedRow(row) && Get(row, "id") == Int(id)
    requires FindById(t.rows, id).None?
    ensures WellFormed(Table(t.rows + [row], nextId, true))
  {
    var rows := t.rows + [row];
    forall i, j | 0 <= i < j < |rows| ensures Get(rows[i], "id") != Get(rows[j], "id") {
      if j == |rows| - 1 { assert rows[i] == t.rows[i]; }
    }
  }

  /** A row inserted without `is_active` is stored inactive ("0"). */
  lemma InsertDefaultsInactive(t: Table, data: Row)
    requires "is_active" !in data
    requires InsertAccepted(t, data)
    ensures var r := TableInsert(t, data).1; r.Some? && Get(r.value, "is_active") == Str("0")
  {
    var id := AssignedId(t, data);
    FindByIdAppend(t.rows, NewRow(data, id), id);
  }

  lemma UpdateValueWellTyped(c: string, v: Val)
    ensures UpdateValue(c, v) == Coerce(c, UpdateValue(c, v))
    ensures UpdateValue(c, v) == Null ==> c == "is_active"
  {
  }

  /** An update touches only the row with the given id, keeps the table
      well-formed and the row count, and returns the row read back by that
      id; when the data does not name `id` the row keeps its id and the
      result is that row with the data applied. A failed update changes
      nothing. */
  lemma UpdateSpec(t: Table, data: Row, id: int)
    requires WellFormed(t)
    ensures var (t', r) := TableUpdate(t, data, id);
      && WellFormed(t')
      && t'.nextId == t.nextId && t'.created == t.created
      && (r == UpdateFailed <==> !UpdateAccepted(t, data, id))
      && (r == UpdateFailed ==> t' == t)
      && (r != UpdateFailed ==>
            && |t'.rows| == |t.rows|
            && (forall i :: 0 <= i < |t.rows| && Get(t.rows[i], "id") != Int(id) ==> t'.rows[i] == t.rows[i])
            && r == Updated(FindById(t'.rows, id)))
      && (r != UpdateFailed && "id" !in data && FindById(t.rows, id).Some? ==>
            r == Updated(Some(Apply(FindById(t.rows, id).value, data))))
  {
    if UpdateAccepted(t, data, id) {
      var rows := UpdateRows(t.rows, data, id);
      assert TableUpdate(t, data, id) == (t.(rows := rows), Updated(FindById(rows, id)));
      UpdateRowsWellFormed(t.rows, data, id);
      UpdateRowsUnique(t.rows, data, id);
      assert WellFormed(t.(rows := rows));
      assert forall i :: 0 <= i < |t.rows| && Get(t.rows[i], "id") != Int(id) ==> rows[i] == t.rows[i];
      if "id" !in data && FindById(t.rows, id).Some? {
        UpdateFindsApplied(t.rows, data, id);
      }
    }
  }

  /** Every updated row is still a well-formed row. */
  lemma UpdateRowsWellFormed(rows: seq<Row>, data: Row, id: int)
    requires forall i :: 0 <= i < |rows| ==> WellFormedRow(rows[i])
    ensures var rows' := UpdateRows(rows, data, id);
      forall i :: 0 <= i < |rows'| ==> WellFormedRow(rows'[i])
  {
    var rows' := UpdateRows(rows, data, id);
    forall i | 0 <= i < |rows'| ensures WellFormedRow(rows'[i]) {
      if Get(rows[i], "id") == Int(id) {
        forall c | c in data { UpdateValueWellTyped(c, data[c]); }
        assert WellFormedRow(Apply(rows[i], data));
      }
    }
  }

  /** An update whose new id collides with no other row keeps ids unique. */
  lemma UpdateRowsUnique(rows: seq<Row>, data: Row, id: int)
    requires UniqueIds(rows)
    requires !("id" in data && IdTakenByOther(rows, NewId(data, id), id))
    ensures UniqueIds(UpdateRows(rows, data, id))
  {
    var rows' := UpdateRows(rows, data, id);
    forall i, j | 0 <= i < j < |rows'| ensures Get(rows'[i], "id") != Get(rows'[j], "id") {
      var a, b := rows[i], rows[j];
      if Get(a, "id") == Int(id) {
        assert Get(b, "id") != Int(id);
        if "id" in data {
          assert Get(rows'[i], "id") == Int(NewId(data, id));
        }
      } else if Get(b, "id") == Int(id) {
        if "id" in data {
          assert Get(rows'[j], "id") == Int(NewId(data, id));
        }
      }
    }
  }

  /** An update that does not set the id re-reads the row it changed. */
  lemma UpdateFindsApplied(rows: seq<Row>, data: Row, id: int)
    requires UniqueIds(rows)
    requires "id" !in data
    requires FindById(rows, id).Some?
    ensures UniqueIds(UpdateRows(rows, data, id))
    ensures FindById(UpdateRows(rows, data, id), id) == Some(Apply(FindById(rows, id).value, data))
  {
    UpdateRowsUnique(rows, data, id);
    var rows' := UpdateRows(rows, data, id);
    var k :| 0 <= k < |rows| && Get(rows[k], "id") == Int(id);
    FindByIdAt(rows, k, id);
    assert Get(rows'[k], "id") == Int(id);
    FindByIdAt(rows', k, id);
  }

  lemma {:induction false} RemainingUnique(rows: seq<Row>, where: Row)
    requires UniqueIds(rows)
    ensures UniqueIds(Remaining(rows, where))
  {
    if rows != [] {
      RemainingUnique(rows[1..], where);
      if !Matches(rows[0], where) {
        var kept := Remaining(rows, where);
        forall i, j | 0 <= i < j < |kept| ensures Get(kept[i], "id") != Get(kept[j], "id") {
          if i == 0 {
            assert kept[j] in rows[1..];
            var m :| 0 <= m < |rows[1..]| && rows[1..][m] == kept[j];
            assert rows[m + 1] == kept[j];
          } else {
            assert kept[i] == Remaining(rows[1..], where)[i - 1];
            assert kept[j] == Remaining(rows[1..], where)[j - 1];
          }
        }
      }
    }
  }

  /** A delete removes exactly the rows that match every key of the filter,
      reports how many it removed and keeps all other rows; a failed delete
      changes nothing. */
  lemma DeleteSpec(t: Table, where: Row)
    requires WellFormed(t)
    ensures var (t', n) := TableDelete(t, where);
      && WellFormed(t')
      && t'.nextId == t.nextId && t'.created == t.created
      && (n.None? <==> !DeleteAccepted(t, where))
      && (n.None? ==> t' == t)
      && (n.Some? ==>
            && (forall r :: r in t'.rows <==> r in t.rows && !Matches(r, where))
            && n.value + |t'.rows| == |t.rows|)
  {
    RemainingUnique(t.rows, where);
    var kept := Remaining(t.rows, where);
    forall i | 0 <= i < |kept| ensures WellFormedRow(kept[i]) {
      assert kept[i] in t.rows;
    }
  }

  /** `upgrade_db` creates the table only on first install, never touches the
      rows, leaves the version at `DbVersion`, and a second run changes
      nothing. */
  lemma UpgradeSpec(t: Table, version: real)
    requires WellFormed(t)
    ensures var (t', v') := TableUpgrade(t, version);
      && WellFormed(t')
      && v' == DbVersion
      && t'.rows == t.rows && t'.nextId == t.nextId
      && t'.created == (t.created || version == 0.0)
      && TableUpgrade(t', v') == (t', v')
  {
  }

  /** The table and the stored version option. */
  class Store {
    var rows: seq<Row>
    var nextId: int
    var created: bool
    var version: real

    function Snapshot(): Table
      reads this
    {
      Table(rows, nextId, created)
    }

    ghost predicate Valid()
      reads this
    {
      WellFormed(Snapshot())
    }

    /** A site where the plugin has never run: no table, no version option. */
    constructor ()
      ensures Valid()
      ensures rows == [] && nextId == 1 && !created && version == 0.0
    {
      rows, nextId, created, version := [], 1, false, 0.0;
    }

    method Insert(data: Row) returns (r: Option<Row>)
      requires Valid()
      modifies this
      ensures Valid()
      ensures (Snapshot(), r) == TableInsert(old(Snapshot()), data)
      ensures version == old(version)
    {
      var t := Snapshot();
      InsertSpec(t, data);
      if !InsertAccepted(t, data) {
        return None;
      }
      var id := AssignedId(t, data);
      ghost var after := TableInsert(t, data);
      assert WellFormed(after.0);
      rows := rows + [NewRow(data, id)];
      if id >= nextId {
        nextId := id + 1;
      }
      r := FindById(rows, id);
      assert Snapshot() == after.0;
      assert r == after.1;
    }

    method Update(data: Row, id: int) returns (r: UpdateResult)
      requires Valid()
      modifies this
      ensures Valid()
      ensures (Snapshot(), r) == TableUpdate(old(Snapshot()), data, id)
      ensures version == old(version)
    {
      UpdateSpec(Snapshot(), data, id);
      if !UpdateAccepted(Snapshot(), data, id) {
        return UpdateFailed;
      }
      rows := UpdateRows(rows, data, id);
      r := Updated(FindById(rows, id));
    }

    method Delete(where: Row) returns (n: Option<nat>)
      requires Valid()
      modifies this
      ensures Valid()
      ensures (Snapshot(), n) == TableDelete(old(Snapshot()), where)
      ensures version == old(version)
    {
      DeleteSpec(Snapshot(), where);
      if !DeleteAccepted(Snapshot(), where) {
        return None;
      }
      var before := |rows|;
      rows := Remaining(rows, where);
      n := Some(before - |rows|);
    }

    method UpgradeDb()
      requires Valid()
      modifies this
      ensures Valid()
      ensures (Snapshot(), version) == TableUpgrade(old(Snapshot()), old(version))
    {
      UpgradeSpec(Snapshot(), version);
      if version == 0.0 {
        created := true;
      }
      if version != DbVersion {
        version := DbVersion;
      }
    }
  }
}
