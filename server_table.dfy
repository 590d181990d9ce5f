/**
 * The `z_tasks` table behind the server's task routes
 * (backend/app/routers/tasks.py), as an in-memory sequence of rows with an
 * auto-increment counter, and the handlers that change it. Each handler is
 * one transaction; `date.today()` is the parameter `today`.
 */
module ServerTable {
  import opened Results
  import opened Seqs
  import opened Calendar
  import opened ServerRules

  /** A row as `create_task` stores it: fields that passed the checks and a
      due date that `TaskCreate` accepted as a real date. */
  predicate WellFormed(r: Record) {
    WellFormedFields(r.title, r.description, r.priority) && IsValid(r.dueDate)
  }

  predicate HasId(rows: seq<Record>, id: int) {
    exists i :: 0 <= i < |rows| && rows[i].id == id
  }

  predicate UniqueIds(rows: seq<Record>) {
    forall i, j :: 0 <= i < j < |rows| ==> rows[i].id != rows[j].id
  }

  /** `query(Task).filter(Task.id == id).first()`, as an index. */
  function FindRow(rows: seq<Record>, id: int): (r: Option<nat>)
    ensures r.Some? ==> r.value < |rows| && rows[r.value].id == id
    ensures r.None? <==> !HasId(rows, id)
  {
    if rows == [] then None
    else if rows[0].id == id then Some(0)
    else match FindRow(rows[1..], id)
      case None =>
        assert forall i :: 1 <= i < |rows| ==> rows[i] == rows[1..][i - 1];
        None
      case Some(i) => Some(i + 1)
  }

  function Toggled(r: Record): Record {
    r.(completed := !r.completed)
  }

  /** The table after toggling `id`: that row has `completed` negated and
      every other row is as it was. */
  function FlipId(rows: seq<Record>, id: int): (r: seq<Record>)
    ensures |r| == |rows|
    ensures forall i :: 0 <= i < |rows| ==> r[i] == if rows[i].id == id then Toggled(rows[i]) else rows[i]
  {
    seq(|rows|, i requires 0 <= i < |rows| => if rows[i].id == id then Toggled(rows[i]) else rows[i])
  }

  /** Toggling twice restores the table. */
  lemma ToggleTwiceRestores(rows: seq<Record>, id: int)
    ensures FlipId(FlipId(rows, id), id) == rows
  {
  }

  /** The table after deleting `id`: the other rows, in their order. */
  function RemoveId(rows: seq<Record>, id: int): (r: seq<Record>)
    ensures |r| <= |rows|
    ensures forall x :: x in r <==> x in rows && x.id != id
    ensures forall x :: multiset(r)[x] == if x.id != id then multiset(rows)[x] else 0
    ensures IsSubsequence(r, rows)
  {
    if rows == [] then []
    else
      var rest := RemoveId(rows[1..], id);
      assert rows == [rows[0]] + rows[1..];
      assert multiset(rows) == multiset{rows[0]} + multiset(rows[1..]);
      if rows[0].id != id then
        var r := [rows[0]] + rest;
        assert r[1..] == rest;
        assert multiset(r) == multiset{rows[0]} + multiset(rest);
        r
      else
        rest
  }

  /** Deleting from a non-empty table looks at the first row, then at the rest. */
  lemma RemoveIdHead(rows: seq<Record>, id: int)
    requires rows != []
    ensures RemoveId(rows, id) == (if rows[0].id != id then [rows[0]] else []) + RemoveId(rows[1..], id)
  {
  }

  lemma TailUnique(rows: seq<Record>)
    requires UniqueIds(rows) && rows != []
    ensures UniqueIds(rows[1..])
    ensures forall k :: 0 <= k < |rows| - 1 ==> rows[1..][k].id != rows[0].id
  {
    var tail := rows[1..];
    forall a, b | 0 <= a < b < |tail| ensures tail[a].id != tail[b].id {
      assert tail[a] == rows[a + 1] && tail[b] == rows[b + 1];
    }
    forall k | 0 <= k < |tail| ensures tail[k].id != rows[0].id {
      assert tail[k] == rows[k + 1];
    }
  }

  /** Cutting out index `i > 0` is keeping the head and cutting `i - 1` out
      of the tail. */
  lemma CutLater(rows: seq<Record>, i: nat)
    requires 0 < i < |rows|
    ensures rows[..i] + rows[i + 1..] == [rows[0]] + (rows[1..][..i - 1] + rows[1..][i..])
  {
    assert rows[1..][..i - 1] == rows[1..i];
    assert rows[1..][i..] == rows[i + 1..];
    assert rows[..i] == [rows[0]] + rows[1..i];
  }

  /** With unique ids, deleting the row found at `i` is removing its id,
      and exactly one row goes. */
  lemma {:induction false} RemoveAtIndex(rows: seq<Record>, i: nat, id: int)
    requires UniqueIds(rows) && i < |rows| && rows[i].id == id
    ensures rows[..i] + rows[i + 1..] == RemoveId(rows, id)
    ensures |RemoveId(rows, id)| == |rows| - 1
  {
    RemoveIdHead(rows, id);
    TailUnique(rows);
    if i == 0 {
      KeepsRowsWithoutId(rows[1..], id);
    } else {
      assert rows[1..][i - 1] == rows[i];
      RemoveAtIndex(rows[1..], i - 1, id);
      assert rows[0].id != rows[i].id;
      CutLater(rows, i);
    }
  }

  lemma {:induction false} KeepsRowsWithoutId(rows: seq<Record>, id: int)
    requires forall k :: 0 <= k < |rows| ==> rows[k].id != id
    ensures RemoveId(rows, id) == rows
  {
    if rows != [] {
      RemoveIdHead(rows, id);
      KeepsRowsWithoutId(rows[1..], id);
      assert rows == [rows[0]] + rows[1..];
    }
  }

  /** Dropping the row at `i` shifts the later rows down by one and keeps
      the ids unique. */
  lemma DropRow(rows: seq<Record>, i: nat)
    requires UniqueIds(rows) && i < |rows|
    ensures var r := rows[..i] + rows[i + 1..];
      |r| == |rows| - 1 && UniqueIds(r) &&
      forall k :: 0 <= k < |r| ==> r[k] == rows[if k < i then k else k + 1]
  {
    var r := rows[..i] + rows[i + 1..];
    assert forall k :: 0 <= k < |r| ==> r[k] == rows[if k < i then k else k + 1];
  }

  /** With unique ids, negating the row found at `i` is toggling its id. */
  lemma FlipAtIndex(rows: seq<Record>, i: nat, id: int)
    requires UniqueIds(rows) && i < |rows| && rows[i].id == id
    ensures rows[i := Toggled(rows[i])] == FlipId(rows, id)
  {
  }

  /** Ids are unique and below the counter, and every row is well formed. */
  ghost predicate TableInvariant(rows: seq<Record>, nextId: int) {
    nextId >= 1 && UniqueIds(rows) &&
    forall i :: 0 <= i < |rows| ==> 1 <= rows[i].id < nextId && WellFormed(rows[i])
  }

  /** Appending a well-formed row that takes the counter's id keeps the
      invariant once the counter advances; no stored row had that id. */
  lemma AppendKeepsInvariant(rows: seq<Record>, nextId: int, x: Record)
    requires TableInvariant(rows, nextId) && x.id == nextId && WellFormed(x)
    ensures !HasId(rows, x.id)
    ensures TableInvariant(rows + [x], nextId + 1)
  {
    var r := rows + [x];
    assert forall i :: 0 <= i < |rows| ==> r[i] == rows[i];
  }

  /** Dropping a row keeps the invariant. */
  lemma DropKeepsInvariant(rows: seq<Record>, nextId: int, i: nat)
    requires TableInvariant(rows, nextId) && i < |rows|
    ensures TableInvariant(rows[..i] + rows[i + 1..], nextId)
  {
    DropRow(rows, i);
  }

  /** A stored row fits its columns: `String(100)` for the title and
      `String(255)` for the description, and its id is positive. */
  lemma StoredRowsFitColumns(rows: seq<Record>, nextId: int, x: Record)
    requires TableInvariant(rows, nextId) && x in rows
    ensures 1 <= x.id < nextId
    ensures MinTitleLength <= |x.title| <= 100 && |x.description| <= 255
  {
    var i :| 0 <= i < |rows| && rows[i] == x;
  }

  /** Deleting the row the lookup found is deleting its id: exactly one row
      goes, no row with that id is left, and the invariant holds. */
  lemma DeleteFound(rows: seq<Record>, nextId: int, i: nat, id: int)
    requires TableInvariant(rows, nextId) && i < |rows| && rows[i].id == id
    ensures var r := rows[..i] + rows[i + 1..];
      r == RemoveId(rows, id) && |r| == |rows| - 1 && !HasId(r, id) && TableInvariant(r, nextId)
  {
    RemoveAtIndex(rows, i, id);
    DropKeepsInvariant(rows, nextId, i);
  }

  class TaskTable {
    var rows: seq<Record>
    var nextId: int

    /** Ids are unique and below the counter, and every row passed the
        checks of `create_task`. */
    ghost predicate Valid()
      reads this
    {
      TableInvariant(rows, nextId)
    }

    constructor ()
      ensures Valid() && rows == [] && nextId == 1
    {
      rows := [];
      nextId := 1;
    }

    /** `create_task`: on a failed check the table is unchanged; otherwise
        one row is appended with a fresh id, the cleaned title and
        description, the given priority and due date, and `completed` false. */
    method CreateTask(req: TaskCreate, today: Date) returns (r: Result<Record, Rejection>)
      requires Valid() && IsValid(req.dueDate)
      modifies this
      ensures Valid()
      ensures var v := ValidateCreate(req, today);
        && (v.Err? ==> r == Err(v.error) && rows == old(rows) && nextId == old(nextId))
        && (v.Ok? ==>
              r == Ok(Record(old(nextId), v.value.title, v.value.description, v.value.priority,
                             v.value.dueDate, false)) &&
              !HasId(old(rows), r.value.id) &&
              rows == old(rows) + [r.value] && nextId == old(nextId) + 1)
    {
      var v := ValidateCreate(req, today);
      if v.Err? {
        return Err(v.error);
      }
      var record := Record(nextId, v.value.title, v.value.description, v.value.priority,
                           v.value.dueDate, false);
      AppendKeepsInvariant(rows, nextId, record);
      rows := rows + [record];
      nextId := nextId + 1;
      r := Ok(record);
    }

    /** `list_tasks`: every row of the table, as often as it is stored;
        each is well formed, and no id occurs twice. */
    function ListTasks(): (r: seq<Record>)
      reads this
      requires Valid()
      ensures multiset(r) == multiset(rows)
      ensures UniqueIds(r)
      ensures forall x :: x in r ==> WellFormed(x) && x.id < nextId
      ensures |r| == |rows|
    {
      rows
    }

    /** `search_tasks` over the table: a 400 exactly for a date that does
        not parse; otherwise the stored rows the filters select, in table
        order, and no others. */
    function SearchTasks(title: Option<string>, dueDate: Option<string>): (r: Result<seq<Record>, Rejection>)
      reads this
      ensures r.Err? <==> dueDate.Some? && dueDate.value != [] && ParseDueDate(dueDate.value).None?
      ensures r.Err? ==> Status(r.error) == 400
      ensures r.Ok? ==> IsSubsequence(r.value, rows)
      ensures r.Ok? ==> forall x :: multiset(r.value)[x] == if SearchSelects(x, title, dueDate) then multiset(rows)[x] else 0
    {
      SearchRecords(rows, title, dueDate)
    }

    /** `toggle_task`: 404 on an unknown id with the table unchanged;
        otherwise that one row's `completed` is negated and returned. */
    method ToggleTask(id: int) returns (r: Result<Record, Rejection>)
      requires Valid()
      modifies this
      ensures Valid() && nextId == old(nextId)
      ensures !HasId(old(rows), id) ==> r == Err(NotFound) && rows == old(rows)
      ensures HasId(old(rows), id) ==> rows == FlipId(old(rows), id) && r.Ok? && r.value in rows &&
                                       r.value.id == id && r.value == Toggled(RowWithId(old(rows), id))
    {
      match FindRow(rows, id)
      case None =>
        r := Err(NotFound);
      case Some(i) =>
        FlipAtIndex(rows, i, id);
        rows := rows[i := Toggled(rows[i])];
        r := Ok(rows[i]);
    }

    /** `delete_task`: 404 on an unknown id with the table unchanged;
        otherwise exactly that row is removed and the others keep their
        order. */
    method DeleteTask(id: int) returns (r: Result<string, Rejection>)
      requires Valid()
      modifies this
      ensures Valid() && nextId == old(nextId)
      ensures !HasId(old(rows), id) ==> r == Err(NotFound) && rows == old(rows)
      ensures HasId(old(rows), id) ==> r == Ok("Tarea eliminada") && rows == RemoveId(old(rows), id) &&
                                       |rows| == |old(rows)| - 1 && !HasId(rows, id)
    {
      var found := FindRow(rows, id);
      if found.None? {
        return Err(NotFound);
      }
      var i := found.value;
      var kept := rows[..i] + rows[i + 1..];
      DeleteFound(rows, nextId, i, id);
      rows := kept;
      r := Ok("Tarea eliminada");
    }
  }

  /** The row with `id` (the first, and with unique ids the only one). */
  function RowWithId(rows: seq<Record>, id: int): Record
    requires HasId(rows, id)
  {
    rows[FindRow(rows, id).value]
  }
}
