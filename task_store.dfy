/**
 * The task table behind the task repository: rows keyed by primary key, and the
 * identity column that hands out keys 1, 2, 3, ... on insertion.
 */
module TaskStore {
  import opened Optional
  import opened TaskModel

  /** True when the table holds `t` as the row under its own id. */
  ghost predicate Stored(rows: map<int, TaskRecord>, t: TaskRecord)
  {
    t.id.Some? && t.id.value in rows && rows[t.id.value] == t
  }

  /** Every row carries its own key as its id. */
  ghost predicate KeyedById(rows: map<int, TaskRecord>)
  {
    forall k :: k in rows ==> rows[k].id == Some(k)
  }

  datatype TaskTable = TaskTable(rows: map<int, TaskRecord>, nextId: int) {

    /** Keys come from the identity column: each lies below the next key to be handed out. */
    ghost predicate Valid()
    {
      && nextId >= 1
      && KeyedById(rows)
      && forall k :: k in rows ==> 1 <= k < nextId
    }

    /** findAll: every stored row, one per key. */
    function FindAll(): (r: set<TaskRecord>)
      requires Valid()
      ensures forall t :: t in r <==> Stored(rows, t)
      ensures |r| == |rows|
    {
      RowCountBelow(rows, nextId);
      assert RowsBelow(rows, nextId) == set k | k in rows :: rows[k];
      assert KeysBelow(rows, nextId) == rows.Keys;
      set k | k in rows :: rows[k]
    }

    /** findById: the row under `id`, or nothing. */
    function FindById(id: int): (r: Option<TaskRecord>)
      requires Valid()
      ensures r.Some? <==> id in rows
      ensures r.Some? ==> Stored(rows, r.value) && r.value.id == Some(id)
    {
      if id in rows then Some(rows[id]) else None
    }

    /** existsById */
    predicate ExistsById(id: int)
    {
      id in rows
    }

    /**
     * save: a record with no id, or with an id that has no row, is inserted under the
     * next key and comes back carrying that key; a record whose id has a row
     * overwrites that row.
     */
    function Save(t: TaskRecord): (r: (TaskTable, TaskRecord))
      requires Valid()
      ensures r.0.Valid()
      ensures Stored(r.0.rows, r.1)
      ensures r.1 == t.(id := r.1.id)
      ensures t.id.Some? && t.id.value in rows ==> r.1 == t && r.0.nextId == nextId
      ensures !(t.id.Some? && t.id.value in rows) ==>
                r.1.id == Some(nextId) && nextId !in rows && r.0.nextId == nextId + 1
      ensures r.0.rows.Keys == rows.Keys + {r.1.id.value}
      ensures forall k :: k in rows && Some(k) != r.1.id ==> r.0.rows[k] == rows[k]
    {
      if t.id.Some? && t.id.value in rows then
        (TaskTable(rows[t.id.value := t], nextId), t)
      else
        var saved := t.(id := Some(nextId));
        (TaskTable(rows[nextId := saved], nextId + 1), saved)
    }

    /** deleteById: the row under `id` is gone, every other row stays. */
    function DeleteById(id: int): (r: TaskTable)
      requires Valid()
      ensures r.Valid()
      ensures r.rows.Keys == rows.Keys - {id} && r.nextId == nextId
      ensures forall k :: k in r.rows ==> r.rows[k] == rows[k]
    {
      TaskTable(rows - {id}, nextId)
    }
  }

  /** The rows whose keys lie below `n`, and those keys. */
  ghost function RowsBelow(rows: map<int, TaskRecord>, n: int): set<TaskRecord>
  {
    set k | k in rows && k < n :: rows[k]
  }

  ghost function KeysBelow(rows: map<int, TaskRecord>, n: int): set<int>
  {
    set k | k in rows && k < n
  }

  /**
   * When every row carries its own key, no two keys hold the same row, so there are as
   * many rows below `n` as keys below `n`. By induction on `n` upwards from the
   * smallest key the identity column hands out.
   */
  lemma {:induction false} RowCountBelow(rows: map<int, TaskRecord>, n: int)
    requires KeyedById(rows)
    requires forall k :: k in rows ==> 1 <= k
    requires n >= 1
    ensures |RowsBelow(rows, n)| == |KeysBelow(rows, n)|
    decreases n
  {
    if n == 1 {
      assert RowsBelow(rows, n) == {};
      assert KeysBelow(rows, n) == {};
    } else {
      var m := n - 1;
      RowCountBelow(rows, m);
      if m in rows {
        assert RowsBelow(rows, n) == RowsBelow(rows, m) + {rows[m]};
        assert KeysBelow(rows, n) == KeysBelow(rows, m) + {m};
        assert rows[m] !in RowsBelow(rows, m) by {
          forall j | j in rows && j < m ensures rows[j] != rows[m] {
            assert rows[j].id == Some(j);
          }
        }
      } else {
        assert RowsBelow(rows, n) == RowsBelow(rows, m);
        assert KeysBelow(rows, n) == KeysBelow(rows, m);
      }
    }
  }

  /** Saving each of `ts` in turn, from `table`: the final table and what each save returned. */
  ghost function SaveAll(table: TaskTable, ts: seq<TaskRecord>): (r: (TaskTable, seq<TaskRecord>))
    requires table.Valid()
    ensures r.0.Valid() && |r.1| == |ts|
    decreases |ts|
  {
    if ts == [] then (table, [])
    else
      var next := table.Save(ts[0]);
      var rest := SaveAll(next.0, ts[1..]);
      (rest.0, [next.1] + rest.1)
  }

  /** Every task in `ts` is new: it carries no id. */
  ghost predicate AllNew(ts: seq<TaskRecord>)
  {
    forall i :: 0 <= i < |ts| ==> ts[i].id == None
  }

  /** Saving one new task: it takes the next key and the table grows by one row. */
  lemma FreshSaveTakesNextKey(table: TaskTable, t: TaskRecord)
    requires table.Valid() && t.id == None
    ensures table.Save(t).1 == t.(id := Some(table.nextId))
    ensures table.Save(t).0.nextId == table.nextId + 1
    ensures |table.Save(t).0.rows| == |table.rows| + 1
  {
  }

  /** The tail of a sequence of new tasks is a sequence of new tasks. */
  lemma AllNewTail(ts: seq<TaskRecord>)
    requires AllNew(ts) && ts != []
    ensures AllNew(ts[1..])
  {
  }

  /** `saved` is `ts` with the ids n, n + 1, ... filled in, one per task, in order. */
  ghost predicate NumberedFrom(saved: seq<TaskRecord>, ts: seq<TaskRecord>, n: int)
  {
    |saved| == |ts| && forall i :: 0 <= i < |ts| ==> saved[i] == ts[i].(id := Some(n + i))
  }

  lemma NumberedCons(s: TaskRecord, rest: seq<TaskRecord>, ts: seq<TaskRecord>, n: int)
    requires ts != [] && s == ts[0].(id := Some(n)) && NumberedFrom(rest, ts[1..], n + 1)
    ensures NumberedFrom([s] + rest, ts, n)
  {
  }

  /**
   * Saving new tasks one after another hands them the consecutive keys nextId,
   * nextId + 1, ...: the ids are distinct and increase, and each task keeps its
   * title, description and flag.
   */
  lemma {:induction false} FreshSavesNumberConsecutively(table: TaskTable, ts: seq<TaskRecord>)
    requires table.Valid() && AllNew(ts)
    ensures NumberedFrom(SaveAll(table, ts).1, ts, table.nextId)
    decreases |ts|
  {
    if ts != [] {
      FreshSaveTakesNextKey(table, ts[0]);
      AllNewTail(ts);
      var next := table.Save(ts[0]);
      FreshSavesNumberConsecutively(next.0, ts[1..]);
      NumberedCons(next.1, SaveAll(next.0, ts[1..]).1, ts, table.nextId);
    }
  }

  /** Saving new tasks one after another grows the table, and advances the identity column, by one per task. */
  lemma {:induction false} FreshSavesGrowTable(table: TaskTable, ts: seq<TaskRecord>)
    requires table.Valid() && AllNew(ts)
    ensures SaveAll(table, ts).0.nextId == table.nextId + |ts|
    ensures |SaveAll(table, ts).0.rows| == |table.rows| + |ts|
    decreases |ts|
  {
    if ts != [] {
      FreshSaveTakesNextKey(table, ts[0]);
      AllNewTail(ts);
      FreshSavesGrowTable(table.Save(ts[0]).0, ts[1..]);
    }
  }

  /** A row already in the table survives any number of later inserts of new tasks. */
  lemma {:induction false} FreshSavesKeepRows(table: TaskTable, ts: seq<TaskRecord>, k: int)
    requires table.Valid() && AllNew(ts) && k in table.rows
    ensures k in SaveAll(table, ts).0.rows && SaveAll(table, ts).0.rows[k] == table.rows[k]
    decreases |ts|
  {
    if ts != [] {
      var next := table.Save(ts[0]).0;
      AllNewTail(ts);
      FreshSavesKeepRows(next, ts[1..], k);
    }
  }

  /** The repository object: the task table, updated in place by save and deleteById. */
  class TaskRepository {
    var rows: map<int, TaskRecord>
    var nextId: int

    function Table(): TaskTable
      reads this
    {
      TaskTable(rows, nextId)
    }

    ghost predicate Valid()
      reads this
    {
      Table().Valid()
    }

    /** An empty table whose identity column starts at 1. */
    constructor ()
      ensures Valid() && rows == map[] && nextId == 1
    {
      rows := map[];
      nextId := 1;
    }

    method Save(t: TaskRecord) returns (saved: TaskRecord)
      requires Valid()
      modifies this
      ensures Valid()
      ensures (Table(), saved) == old(Table()).Save(t)
    {
      var r := Table().Save(t);
      rows, nextId := r.0.rows, r.0.nextId;
      saved := r.1;
    }

    method DeleteById(id: int)
      requires Valid()
      modifies this
      ensures Valid()
      ensures Table() == old(Table()).DeleteById(id)
    {
      rows := rows - {id};
    }

    /** findById as the entity manager does it: a fresh managed object loaded with the row, or null. */
    method FindEntityById(id: int) returns (task: Task?)
      requires Valid()
      ensures task == null <==> id !in rows
      ensures task != null ==> fresh(task) && task.Snapshot() == rows[id]
    {
      if id !in rows {
        return null;
      }
      var row := rows[id];
      task := new Task();
      task.SetId(row.id);
      task.SetTitle(row.title);
      task.SetDescription(row.description);
      task.SetCompleted(row.completed);
    }
  }

}
