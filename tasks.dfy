/**
 * The board as values: tasks, columns, and the snapshot that is persisted.
 * The column operations here are the specifications that the `Board` class
 * methods are proved against.
 */
module Tasks {
  import opened Wrappers

  /** A task row on the page. `id` stands for the identity of its element:
      two rows holding the same text are still two tasks. */
  datatype Task = Task(id: nat, text: string)

  /** Each column's status mapped to its tasks, top to bottom. */
  type Columns = map<string, seq<Task>>

  /** The persisted form (`tasksByColumn`, script.js:98): each status mapped
      to its task texts, top to bottom. */
  type TasksByColumn = map<string, seq<string>>

  /** The status of the column that `addTask` appends to. */
  const Todo: string := "todo"

  /** The texts of a column's tasks, in order. */
  function Texts(ts: seq<Task>): seq<string>
  {
    seq(|ts|, i requires 0 <= i < |ts| => ts[i].text)
  }

  /** The snapshot `saveTasks` builds: every column's status with its texts. */
  function Snapshot(cols: Columns): TasksByColumn
  {
    map s | s in cols :: Texts(cols[s])
  }

  /** The texts `loadTasks` leaves in each column: what was there, followed by
      the stored list for that status. Stored statuses without a column are
      dropped. */
  function AppendStored(base: TasksByColumn, stored: TasksByColumn): TasksByColumn
  {
    map s | s in base :: base[s] + (if s in stored then stored[s] else [])
  }

  /** Every task on the board. */
  ghost function AllTasks(cols: Columns): set<Task>
  {
    set s, u | s in cols && u in cols[s] :: u
  }

  /** The tasks that appear twice: more than once in a column, or in two
      columns. */
  ghost function Duplicates(cols: Columns): set<Task>
  {
    set s, u | s in cols && u in cols[s] && (multiset(cols[s])[u] > 1 || exists s2 :: s2 in cols && s2 != s && u in cols[s2]) :: u
  }

  /** A board on which no task appears twice, as every task element is in
      the document at most once. */
  ghost predicate Distinct(cols: Columns)
  {
    Duplicates(cols) == {}
  }

  /** Every task on the board has an identity below `n`. */
  ghost predicate IdsBelow(cols: Columns, n: nat)
  {
    forall u :: u in AllTasks(cols) ==> u.id < n
  }

  /** `Distinct` counted column by column: each task at most once in a
      column, and never in two columns. */
  ghost predicate DistinctCounts(cols: Columns)
  {
    && (forall s, u :: s in cols ==> multiset(cols[s])[u] <= 1)
    && (forall s1, s2, u :: s1 in cols && s2 in cols && s1 != s2 && multiset(cols[s1])[u] > 0 ==> multiset(cols[s2])[u] == 0)
  }

  /** `IdsBelow` counted column by column. */
  ghost predicate IdsBelowCounts(cols: Columns, n: nat)
  {
    forall s, u :: s in cols && multiset(cols[s])[u] > 0 ==> u.id < n
  }

  /** The two readings of "no task twice" agree. */
  lemma DistinctMeans(cols: Columns)
    ensures Distinct(cols) <==> DistinctCounts(cols)
  {
    if Distinct(cols) {
      forall s, u | s in cols ensures multiset(cols[s])[u] <= 1 {
        assert u in cols[s] ==> u !in Duplicates(cols);
      }
      forall s1, s2, u | s1 in cols && s2 in cols && s1 != s2 && multiset(cols[s1])[u] > 0
        ensures multiset(cols[s2])[u] == 0
      {
        assert u !in Duplicates(cols);
      }
    }
    if DistinctCounts(cols) {
      forall u ensures u !in Duplicates(cols) {
        forall s | s in cols && u in cols[s]
          ensures multiset(cols[s])[u] <= 1 && forall s2 :: s2 in cols && s2 != s ==> u !in cols[s2]
        {
        }
      }
    }
  }

  /** The two readings of the identity bound agree. */
  lemma IdsBelowMeans(cols: Columns, n: nat)
    ensures IdsBelow(cols, n) <==> IdsBelowCounts(cols, n)
  {
    if IdsBelow(cols, n) {
      forall s, u | s in cols && multiset(cols[s])[u] > 0 ensures u.id < n {
        assert u in cols[s];
        assert u in AllTasks(cols);
      }
    }
  }

  /** A column with `t` taken out (`t` detached from its parent). */
  function Without(ts: seq<Task>, t: Task): (r: seq<Task>)
    ensures |r| <= |ts| && t !in r
  {
    if ts == [] then []
    else if ts[0] == t then Without(ts[1..], t) else [ts[0]] + Without(ts[1..], t)
  }

  /** Taking `t` out loses every copy of `t` and nothing else. */
  lemma {:induction false} WithoutCounts(ts: seq<Task>, t: Task)
    ensures multiset(Without(ts, t)) == multiset(ts)[t := 0]
  {
    if ts != [] {
      assert ts == [ts[0]] + ts[1..];
      WithoutCounts(ts[1..], t);
    }
  }

  /** A column that does not hold `t` is untouched by taking `t` out. */
  lemma {:induction false} WithoutAbsent(ts: seq<Task>, t: Task)
    requires t !in ts
    ensures Without(ts, t) == ts
  {
    if ts != [] {
      WithoutAbsent(ts[1..], t);
    }
  }

  /** Taking `t` out of two joined runs takes it out of each. */
  lemma {:induction false} WithoutConcat(a: seq<Task>, b: seq<Task>, t: Task)
    ensures Without(a + b, t) == Without(a, t) + Without(b, t)
  {
    if a == [] {
      assert a + b == b;
    } else {
      assert (a + b)[1..] == a[1..] + b;
      WithoutConcat(a[1..], b, t);
    }
  }

  /** Every column with `t` taken out: the effect of `appendChild` or
      `insertBefore` detaching a node from wherever it was. */
  function Detach(cols: Columns, t: Task): (r: Columns)
    ensures r.Keys == cols.Keys
    ensures forall s :: s in cols ==> r[s] == Without(cols[s], t)
    ensures forall s :: s in r ==> t !in r[s]
  {
    map s | s in cols :: Without(cols[s], t)
  }

  /** Putting `t` at position `i` adds it, and only it, to the column. */
  lemma InsertCount(w: seq<Task>, i: nat, t: Task)
    requires i <= |w|
    ensures multiset(w[..i] + [t] + w[i..]) == multiset(w) + multiset{t}
  {
    assert w == w[..i] + w[i..];
  }

  /** The position `t` takes in the target column. */
  function MovedIndex(cols: Columns, t: Task, status: string, at: Option<nat>): nat
    requires status in cols
  {
    if at.Some? then at.value else |Without(cols[status], t)|
  }

  /** `handleDragOver` (script.js:68-77): detach `t`, then put it into column
      `status` before candidate `at` (the column without `t`), or last. */
  function Move(cols: Columns, t: Task, status: string, at: Option<nat>): (r: Columns)
    requires status in cols
    requires at.Some? ==> at.value < |Without(cols[status], t)|
    ensures r.Keys == cols.Keys
  {
    var target := Without(cols[status], t);
    var i := MovedIndex(cols, t, status, at);
    Detach(cols, t)[status := target[..i] + [t] + target[i..]]
  }

  /** After a move, `t` sits in the target column, right before the selected
      candidate, or last when none was selected. */
  lemma MovePlacesTask(cols: Columns, t: Task, status: string, at: Option<nat>)
    requires status in cols
    requires at.Some? ==> at.value < |Without(cols[status], t)|
    ensures var r := Move(cols, t, status, at);
            var i := MovedIndex(cols, t, status, at);
            && i < |r[status]|
            && r[status][i] == t
            && (at.Some? ==> r[status][i + 1] == Without(cols[status], t)[at.value])
            && (at.None? ==> i == |r[status]| - 1)
  {
  }

  /** After a move, `t` occurs exactly once on the whole board (in the target
      column), and no other task is gained or lost by any column. */
  lemma MoveConserves(cols: Columns, t: Task, status: string, at: Option<nat>)
    requires status in cols
    requires at.Some? ==> at.value < |Without(cols[status], t)|
    ensures var r := Move(cols, t, status, at);
            && (forall s :: s in r ==> multiset(r[s])[t] == if s == status then 1 else 0)
            && (forall s, u :: s in r && u != t ==> multiset(r[s])[u] == multiset(cols[s])[u])
  {
    var r := Move(cols, t, status, at);
    var w := Without(cols[status], t);
    var i := MovedIndex(cols, t, status, at);
    InsertCount(w, i, t);
    forall s | s in r
      ensures multiset(r[s]) == multiset(cols[s])[t := 0] + (if s == status then multiset{t} else multiset{})
    {
      WithoutCounts(cols[s], t);
      if s == status {
        assert r[s] == w[..i] + [t] + w[i..];
      } else {
        assert r[s] == Without(cols[s], t);
      }
    }
  }

  /** A move reorders nothing else: with `t` taken out, every column reads as
      it did before. */
  lemma MoveKeepsOrder(cols: Columns, t: Task, status: string, at: Option<nat>)
    requires status in cols
    requires at.Some? ==> at.value < |Without(cols[status], t)|
    ensures var r := Move(cols, t, status, at);
            forall s :: s in r ==> Without(r[s], t) == Without(cols[s], t)
  {
    var r := Move(cols, t, status, at);
    forall s | s in r ensures Without(r[s], t) == Without(cols[s], t) {
      var w := Without(cols[s], t);
      assert t !in w by {
        WithoutCounts(cols[s], t);
        assert multiset(w)[t] == 0;
      }
      if s == status {
        var i := MovedIndex(cols, t, status, at);
        assert r[s] == w[..i] + [t] + w[i..];
        WithoutInserted(w, i, t);
      } else {
        assert r[s] == w;
        WithoutAbsent(w, t);
      }
    }
  }

  /** Taking out a task just put into a column that did not hold it gives the
      column back. */
  lemma WithoutInserted(w: seq<Task>, i: nat, t: Task)
    requires i <= |w| && t !in w
    ensures Without(w[..i] + [t] + w[i..], t) == w
  {
    var a, b := w[..i], w[i..];
    assert w == a + b;
    assert t !in a && t !in b;
    calc {
      Without(a + [t] + b, t);
      { WithoutConcat(a + [t], b, t); }
      Without(a + [t], t) + Without(b, t);
      { WithoutConcat(a, [t], t); }
      Without(a, t) + Without([t], t) + Without(b, t);
      { WithoutAbsent(a, t); WithoutAbsent(b, t); }
      a + Without([t], t) + b;
      { assert Without([t], t) == []; }
      a + [] + b;
      { assert a + [] == a; }
      w;
    }
  }

  /** Taking a task out of every column keeps the board free of duplicates. */
  lemma DetachKeepsDistinct(cols: Columns, t: Task, n: nat)
    requires DistinctCounts(cols) && IdsBelowCounts(cols, n)
    ensures DistinctCounts(Detach(cols, t)) && IdsBelowCounts(Detach(cols, t), n)
  {
    var d := Detach(cols, t);
    forall s | s in d ensures multiset(d[s]) == multiset(cols[s])[t := 0] {
      WithoutCounts(cols[s], t);
    }
  }

  /** A board that differs from a duplicate-free one only in where `t` is,
      and holds `t` in at most one place, is duplicate-free too. */
  lemma RelocatedKeepsDistinct(cols: Columns, r: Columns, t: Task, status: string, n: nat)
    requires DistinctCounts(cols) && IdsBelowCounts(cols, n) && t.id < n
    requires r.Keys == cols.Keys
    requires forall s :: s in r ==> multiset(r[s])[t] == if s == status then 1 else 0
    requires forall s, u :: s in r && u != t ==> multiset(r[s])[u] == multiset(cols[s])[u]
    ensures DistinctCounts(r) && IdsBelowCounts(r, n)
  {
    forall s, u: Task | s in r ensures multiset(r[s])[u] <= 1 {
      if u != t { assert multiset(r[s])[u] == multiset(cols[s])[u]; }
    }
    forall s1, s2, u: Task | s1 in r && s2 in r && s1 != s2 && multiset(r[s1])[u] > 0
      ensures multiset(r[s2])[u] == 0
    {
      if u != t {
        assert multiset(r[s1])[u] == multiset(cols[s1])[u];
        assert multiset(r[s2])[u] == multiset(cols[s2])[u];
      }
    }
    forall s, u: Task | s in r && multiset(r[s])[u] > 0 ensures u.id < n {
      if u != t { assert multiset(r[s])[u] == multiset(cols[s])[u]; }
    }
  }

  /** A move keeps the board free of duplicates, and keeps identities below
      `n` when `t`'s is. */
  lemma MoveKeepsDistinct(cols: Columns, t: Task, status: string, at: Option<nat>, n: nat)
    requires Distinct(cols) && IdsBelow(cols, n) && t.id < n
    requires status in cols
    requires at.Some? ==> at.value < |Without(cols[status], t)|
    ensures Distinct(Move(cols, t, status, at))
    ensures IdsBelow(Move(cols, t, status, at), n)
  {
    var r := Move(cols, t, status, at);
    DistinctMeans(cols);
    IdsBelowMeans(cols, n);
    MoveConserves(cols, t, status, at);
    RelocatedKeepsDistinct(cols, r, t, status, n);
    DistinctMeans(r);
    IdsBelowMeans(r, n);
  }

  /** A column with its `i`th task removed (`task.remove()`). */
  function RemoveAt(ts: seq<Task>, i: nat): (r: seq<Task>)
    requires i < |ts|
    ensures |r| == |ts| - 1
    ensures forall j :: 0 <= j < |r| ==> r[j] == if j < i then ts[j] else ts[j + 1]
  {
    ts[..i] + ts[i + 1..]
  }

  /** On a board without duplicates, removing one row takes that task off the
      whole board and leaves everything else as it was: deleting one
      occurrence is detaching the task. */
  lemma DeleteIsDetach(cols: Columns, status: string, i: nat)
    requires DistinctCounts(cols) && status in cols && i < |cols[status]|
    ensures cols[status := RemoveAt(cols[status], i)] == Detach(cols, cols[status][i])
  {
    var t := cols[status][i];
    assert multiset(cols[status])[t] > 0;
    RemoveOnlyIsDetach(cols, status, i);
  }

  /** Deleting a row keeps the board free of duplicates, and leaves the
      deleted task in no column. */
  lemma DeleteKeepsDistinct(cols: Columns, status: string, i: nat, n: nat)
    requires Distinct(cols) && IdsBelow(cols, n) && status in cols && i < |cols[status]|
    ensures var r := cols[status := RemoveAt(cols[status], i)];
            && r == Detach(cols, cols[status][i])
            && Distinct(r) && IdsBelow(r, n)
            && forall s :: s in r ==> cols[status][i] !in r[s]
  {
    var t := cols[status][i];
    var d := Detach(cols, t);
    assert cols[status := RemoveAt(cols[status], i)] == d by {
      DistinctMeans(cols);
      DeleteIsDetach(cols, status, i);
    }
    assert Distinct(d) && IdsBelow(d, n) by {
      DistinctMeans(cols);
      IdsBelowMeans(cols, n);
      DetachKeepsDistinct(cols, t, n);
      DistinctMeans(d);
      IdsBelowMeans(d, n);
    }
    forall s | s in d ensures t !in d[s] {
      WithoutCounts(cols[s], t);
      assert multiset(d[s])[t] == 0;
    }
  }

  /** Removing the only occurrence of a task on the board is detaching it. */
  lemma RemoveOnlyIsDetach(cols: Columns, status: string, i: nat)
    requires status in cols && i < |cols[status]|
    requires multiset(cols[status])[cols[status][i]] <= 1
    requires forall s :: s in cols && s != status ==> cols[status][i] !in cols[s]
    ensures cols[status := RemoveAt(cols[status], i)] == Detach(cols, cols[status][i])
  {
    var t := cols[status][i];
    var r := cols[status := RemoveAt(cols[status], i)];
    var d := Detach(cols, t);
    forall s | s in cols ensures r[s] == d[s] {
      RemoveOnlyColumn(cols, status, i, s);
    }
    assert r.Keys == d.Keys;
  }

  /** One column of `RemoveOnlyIsDetach`. */
  lemma RemoveOnlyColumn(cols: Columns, status: string, i: nat, s: string)
    requires status in cols && i < |cols[status]| && s in cols
    requires multiset(cols[status])[cols[status][i]] <= 1
    requires s != status ==> cols[status][i] !in cols[s]
    ensures cols[status := RemoveAt(cols[status], i)][s] == Without(cols[s], cols[status][i])
  {
    if s == status {
      WithoutRemoved(cols[s], i);
    } else {
      WithoutAbsent(cols[s], cols[status][i]);
    }
  }

  /** In a column holding its `i`th task only once, taking that task out is
      removing row `i`. */
  lemma WithoutRemoved(ts: seq<Task>, i: nat)
    requires i < |ts| && multiset(ts)[ts[i]] <= 1
    ensures Without(ts, ts[i]) == RemoveAt(ts, i)
  {
    var t := ts[i];
    var a, b := ts[..i], ts[i + 1..];
    assert ts == a + [t] + b;
    assert t !in a + b by {
      assert multiset(ts) == multiset(a) + multiset{t} + multiset(b);
    }
    assert (a + b)[..i] == a && (a + b)[i..] == b;
    WithoutInserted(a + b, i, t);
  }

  /** Appending a task whose identity is fresh keeps the board free of
      duplicates. */
  lemma AppendFreshKeepsDistinct(cols: Columns, status: string, t: Task, n: nat)
    requires Distinct(cols) && IdsBelow(cols, n) && status in cols && t.id == n
    ensures Distinct(cols[status := cols[status] + [t]])
    ensures IdsBelow(cols[status := cols[status] + [t]], n + 1)
  {
    var r := cols[status := cols[status] + [t]];
    assert DistinctCounts(r) && IdsBelowCounts(r, n + 1) by {
      DistinctMeans(cols);
      IdsBelowMeans(cols, n);
      IdsBelowMeans(cols, n + 1);
      assert forall s :: s in cols ==> multiset(cols[s])[t] == 0;
      assert multiset(r[status]) == multiset(cols[status]) + multiset{t};
      RelocatedKeepsDistinct(cols, r, t, status, n + 1);
    }
    DistinctMeans(r);
    IdsBelowMeans(r, n + 1);
  }

  /** The tasks `loadTasks` creates for a stored list, numbered from `id`:
      one per text, in order. */
  function Created(texts: seq<string>, id: nat): seq<Task>
  {
    seq(|texts|, k requires 0 <= k < |texts| => Task(id + k, texts[k]))
  }

  /** The tasks created for a stored list carry exactly its texts, in order,
      and each gets its own identity from `id` up to `id + |texts|`: no two
      of them are the same task, and none is older than `id`. */
  lemma CreatedFresh(texts: seq<string>, id: nat)
    ensures Texts(Created(texts, id)) == texts
    ensures forall j, k :: 0 <= j < k < |texts| ==> Created(texts, id)[j] != Created(texts, id)[k]
    ensures forall u :: u in Created(texts, id) ==> id <= u.id < id + |texts|
  {
  }

  /** A stored entry that lists no status (`{}`) loads nothing. */
  lemma AppendNothingStored(base: TasksByColumn)
    ensures AppendStored(base, map[]) == base
  {
    var r := AppendStored(base, map[]);
    forall s | s in base ensures r[s] == base[s] {
      assert base[s] + [] == base[s];
    }
    assert r.Keys == base.Keys;
  }

  /** The texts of two joined runs of tasks are joined. */
  lemma TextsConcat(a: seq<Task>, b: seq<Task>)
    ensures Texts(a + b) == Texts(a) + Texts(b)
  {
  }

  /** Columns whose texts are the old texts followed by the stored lists
      have the snapshot `AppendStored` describes. */
  lemma SnapshotAppended(start: Columns, cols: Columns, stored: TasksByColumn)
    requires cols.Keys == start.Keys
    requires forall s :: s in cols ==> Texts(cols[s]) == Texts(start[s]) + if s in stored then stored[s] else []
    ensures Snapshot(cols) == AppendStored(Snapshot(start), stored)
  {
    var l, r := Snapshot(cols), AppendStored(Snapshot(start), stored);
    forall s | s in cols ensures l[s] == r[s] {
    }
    assert l.Keys == r.Keys;
  }

  /** The columns of a freshly loaded page, all empty. */
  function EmptyColumns(statuses: set<string>): Columns
  {
    map s | s in statuses :: []
  }

  /** Loading a saved snapshot into empty columns with the same statuses gives
      back the saved texts, column by column and in order. */
  lemma SaveThenLoad(saved: Columns, statuses: set<string>)
    requires forall s :: s in saved <==> s in statuses
    ensures AppendStored(Snapshot(EmptyColumns(statuses)), Snapshot(saved)) == Snapshot(saved)
  {
    var empty := EmptyColumns(statuses);
    var loaded := AppendStored(Snapshot(empty), Snapshot(saved));
    forall s | s in saved ensures s in loaded && loaded[s] == Snapshot(saved)[s] {
      assert Texts(empty[s]) == [];
      assert [] + Snapshot(saved)[s] == Snapshot(saved)[s];
    }
    assert loaded.Keys == Snapshot(saved).Keys;
  }
}
