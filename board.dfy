/**
 * The task board page (script.js) as an object whose fields the event
 * handlers update: the columns, the text field, the task being dragged and
 * the stored snapshot.
 */
module TaskBoard {
  import opened Wrappers
  import opened Placement
  import opened Text
  import opened Tasks

  class Board {
    /** Each column's tasks, top to bottom, under its status; the page layout
        fixes the set of statuses (`columns`, script.js:5). */
    var columns: Columns
    /** The value of the text field (`taskInput.value`). */
    var input: string
    /** The task being dragged (`draggedTask`, script.js:7): `None` when idle. */
    var dragged: Option<Task>
    /** The decoded entry under the storage key `taskManagerTasks`, if any. */
    var store: Option<TasksByColumn>
    /** The identity the next created task element receives. */
    var nextId: nat

    /** A "todo" column, no task on the board twice, and every identity
        handed out already. */
    ghost predicate Valid()
      reads this`columns, this`nextId, this`dragged
    {
      && Todo in columns
      && Distinct(columns)
      && IdsBelow(columns, nextId)
      && (dragged.Some? ==> dragged.value.id < nextId)
    }

    /** Page load (script.js:1-7, 141-142): empty columns, an empty text field,
        no drag in progress, then `loadTasks`. */
    constructor (statuses: set<string>, stored: Option<TasksByColumn>)
      requires Todo in statuses
      ensures Valid()
      ensures columns.Keys == statuses && input == [] && dragged == None && store == stored
      ensures stored.None? ==> columns == EmptyColumns(statuses)
      ensures stored.Some? ==> Snapshot(columns) == AppendStored(Snapshot(EmptyColumns(statuses)), stored.value)
    {
      columns := EmptyColumns(statuses);
      input := [];
      dragged := None;
      store := stored;
      nextId := 0;
      new;
      LoadTasks();
    }

    /** The tasks of a column that compete for the insertion point: all but
        the dragged one (`.bg-white:not(.dragging)`, script.js:81). */
    function Candidates(status: string): (r: seq<Task>)
      reads this
      requires status in columns
      ensures |r| <= |columns[status]|
      ensures dragged.Some? ==> dragged.value !in r
    {
      if dragged.Some? then Without(columns[status], dragged.value) else columns[status]
    }

    /** `addTask` (script.js:42-51): a non-blank trimmed input becomes a new
        task at the bottom of "todo", the field is cleared and the board saved;
        a blank input changes nothing. */
    method AddTask()
      requires Valid()
      modifies this`columns, this`input, this`nextId, this`store
      ensures Valid()
      ensures Trim(old(input)) == [] ==>
                columns == old(columns) && input == old(input) && nextId == old(nextId) && store == old(store)
      ensures Trim(old(input)) != [] ==>
                && columns == old(columns)[Todo := old(columns)[Todo] + [Task(old(nextId), Trim(old(input)))]]
                && input == [] && nextId == old(nextId) + 1
                && store == Some(Snapshot(columns))
    {
      var text := Trim(input);
      if text != [] {
        var task := Task(nextId, text);
        AppendFreshKeepsDistinct(columns, Todo, task, nextId);
        columns := columns[Todo := columns[Todo] + [task]];
        nextId := nextId + 1;
        input := [];
        SaveTasks();
      }
    }

    /** The delete button of the task in row `i` of column `status`
        (script.js:25-29): that row goes, the board is saved. Since no task is
        on the board twice, the task is then nowhere on the board. */
    method Delete(status: string, i: nat)
      requires Valid() && status in columns && i < |columns[status]|
      modifies this`columns, this`store
      ensures Valid()
      ensures columns == old(columns)[status := RemoveAt(old(columns)[status], i)]
      ensures columns == Detach(old(columns), old(columns)[status][i])
      ensures forall s :: s in columns ==> old(columns)[status][i] !in columns[s]
      ensures store == Some(Snapshot(columns))
    {
      DeleteKeepsDistinct(columns, status, i, nextId);
      columns := columns[status := RemoveAt(columns[status], i)];
      SaveTasks();
    }

    /** `handleDragStart` (script.js:55-60): the dragged task is recorded. */
    method DragStart(t: Task)
      requires Valid()
      requires exists s :: s in columns && t in columns[s]
      modifies this`dragged
      ensures Valid() && dragged == Some(t)
    {
      ghost var s :| s in columns && t in columns[s];
      assert t in AllTasks(columns);
      dragged := Some(t);
    }

    /** `handleDragEnd` (script.js:62-66): back to idle, then save. */
    method DragEnd()
      requires Valid()
      modifies this`dragged, this`store
      ensures Valid() && dragged == None && store == Some(Snapshot(columns))
    {
      dragged := None;
      SaveTasks();
    }

    /** `handleDragOver` (script.js:68-77) over column `status`, with the
        pointer at `y` and `mids` the midpoints of the column's candidates. The
        dragged task lands before the candidate `DragAfterElement` picks, or
        last; it is then on the board exactly once, and every column read
        without it is as before. With no drag in progress `appendChild(null)`
        or `insertBefore(null, afterElement)` throws and nothing moves. */
    method DragOver(status: string, y: real, mids: seq<real>)
      requires Valid() && status in columns
      requires |mids| == |Candidates(status)|
      modifies this`columns
      ensures Valid()
      ensures dragged.None? ==> columns == old(columns)
      ensures dragged.Some? ==> columns == Move(old(columns), dragged.value, status, DragAfterElement(y, mids))
      ensures dragged.Some? ==>
                forall s :: s in columns ==> multiset(columns[s])[dragged.value] == if s == status then 1 else 0
      ensures dragged.Some? ==>
                forall s :: s in columns ==> Without(columns[s], dragged.value) == Without(old(columns)[s], dragged.value)
    {
      if dragged.Some? {
        var t := dragged.value;
        var after := DragAfterElement(y, mids);
        MoveKeepsDistinct(columns, t, status, after, nextId);
        MoveConserves(columns, t, status, after);
        MoveKeepsOrder(columns, t, status, after);
        columns := Move(columns, t, status, after);
      }
    }

    /** The snapshot `saveTasks` builds (script.js:98-103): each column's
        status with the texts of its tasks in order. */
    method SnapshotColumns() returns (snapshot: TasksByColumn)
      ensures snapshot == Snapshot(columns)
    {
      snapshot := map[];
      var rest := columns.Keys;
      while rest != {}
        invariant rest <= columns.Keys
        invariant snapshot == map s | s in columns.Keys - rest :: Texts(columns[s])
        decreases rest
      {
        var status :| status in rest;
        snapshot := snapshot[status := Texts(columns[status])];
        rest := rest - {status};
      }
    }

    /** `saveTasks` (script.js:97-105): the snapshot replaces the stored entry. */
    method SaveTasks()
      modifies this`store
      ensures store == Some(Snapshot(columns))
    {
      var snapshot := SnapshotColumns();
      store := Some(snapshot);
    }

    /** `loadTasks` (script.js:108-122): with no stored entry nothing happens;
        otherwise each stored list is appended, in order, as new tasks to the
        column of that status, and statuses without a column are skipped. */
    method LoadTasks()
      requires Valid()
      modifies this`columns, this`nextId
      ensures Valid() && columns.Keys == old(columns).Keys
      ensures store.None? ==> columns == old(columns) && nextId == old(nextId)
      ensures store.Some? ==> Snapshot(columns) == AppendStored(old(Snapshot(columns)), store.value)
      ensures forall s :: s in old(columns) ==> old(columns)[s] <= columns[s]
    {
      if store.None? {
        return;
      }
      var cols, id := LoadInto(columns, store.value, nextId);
      columns, nextId := cols, id;
    }
  }

  /** The loop of `loadTasks` (script.js:112-120) over the stored statuses,
      from columns `start` with identities from `id` on: every stored list
      whose status has a column is appended to it, the others are skipped. */
  method LoadInto(start: Columns, stored: TasksByColumn, id: nat) returns (cols: Columns, next: nat)
    requires Distinct(start) && IdsBelow(start, id)
    ensures cols.Keys == start.Keys && id <= next
    ensures Distinct(cols) && IdsBelow(cols, next)
    ensures forall s :: s in start ==> start[s] <= cols[s]
    ensures Snapshot(cols) == AppendStored(Snapshot(start), stored)
  {
    cols, next := start, id;
    var pending := stored.Keys;
    while pending != {}
      invariant pending <= stored.Keys && cols.Keys == start.Keys
      invariant Distinct(cols) && IdsBelow(cols, next) && id <= next
      invariant forall s :: s in cols ==> start[s] <= cols[s]
      invariant forall s :: s in cols ==>
                  Texts(cols[s]) == Texts(start[s]) + if s in stored && s !in pending then stored[s] else []
      decreases pending
    {
      var status :| status in pending;
      if status in cols {
        var before, first := cols[status], next;
        cols, next := AppendCreated(cols, status, stored[status], next);
        TextsConcat(before, Created(stored[status], first));
      }
      pending := pending - {status};
    }
    SnapshotAppended(start, cols, stored);
  }

  /** The `forEach` in `loadTasks` (script.js:115-118): one new
      task per stored text, appended in order to column `status`, numbered
      from `id`. The board stays free of duplicates. */
  method AppendCreated(cols: Columns, status: string, texts: seq<string>, id: nat) returns (r: Columns, next: nat)
    requires status in cols && Distinct(cols) && IdsBelow(cols, id)
    ensures next == id + |texts|
    ensures r == cols[status := cols[status] + Created(texts, id)]
    ensures Distinct(r) && IdsBelow(r, next)
  {
    r, next := cols, id;
    assert cols[status := cols[status] + Created(texts[..0], id)] == cols by {
      assert cols[status] + Created(texts[..0], id) == cols[status];
    }
    for k := 0 to |texts|
      invariant next == id + k
      invariant r == cols[status := cols[status] + Created(texts[..k], id)]
      invariant Distinct(r) && IdsBelow(r, next)
    {
      var task := Task(next, texts[k]);
      AppendFreshKeepsDistinct(r, status, task, next);
      assert cols[status] + Created(texts[..k + 1], id) == r[status] + [task] by {
        assert Created(texts[..k + 1], id) == Created(texts[..k], id) + [task];
      }
      r := r[status := r[status] + [task]];
      next := next + 1;
    }
    assert texts[..|texts|] == texts;
  }

  /** Saving a board and then loading the stored entry into a freshly loaded
      page with the same columns gives back every column's texts, in order. */
  method SaveThenReload(board: Board) returns (reloaded: Board)
    requires board.Valid()
    modifies board`store
    ensures fresh(reloaded) && reloaded.Valid()
    ensures reloaded.columns.Keys == board.columns.Keys
    ensures Snapshot(reloaded.columns) == Snapshot(board.columns)
  {
    board.SaveTasks();
    reloaded := new Board(board.columns.Keys, board.store);
    SaveThenLoad(board.columns, board.columns.Keys);
  }
}
