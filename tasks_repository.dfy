/**
 * The SQLite-backed task repository (app/infra/tasks/tasks.repository.sqlite.ts),
 * the implementation of the `TaskRepository` port (app/core/tasks/tasks.port.ts):
 * `listAll` and `create` over the `tasks` table (app/infra/db/schema.ts).
 */
module TasksRepository {
  import opened TaskTypes
  import opened TaskSchema

  /**
   * One row of the `tasks` table. `description` is NULL-able; `status` and
   * `priority` are plain TEXT columns: the table itself does not restrict
   * them to the enumerations.
   */
  datatype Row = Row(
    id: string,
    title: string,
    description: Option<string>,
    status: string,
    priority: string,
    createdAt: Timestamp,
    updatedAt: Timestamp)

  /** A row whose status and priority texts the `as` casts can read. */
  predicate WellFormedRow(row: Row)
  {
    IsStatusText(row.status) && IsPriorityText(row.priority)
  }

  /**
   * The row `create` inserts: the supplied id, the input's title, NULL for
   * a missing description, the literal status 'todo' and priority 'medium',
   * and one CURRENT_TIMESTAMP for both timestamps.
   */
  function NewRow(input: TaskCreateInput, id: string, now: Timestamp): (row: Row)
    ensures WellFormedRow(row)
  {
    Row(id, input.title, input.description, "todo", "medium", now, now)
  }

  /** The row-to-Task mapping `listAll` and `create` share. */
  function ToTask(row: Row): (t: Task)
    requires WellFormedRow(row)
  {
    Task(row.id, row.title, row.description,
         ParseStatus(row.status), ParsePriority(row.priority),
         row.createdAt, row.updatedAt)
  }

  /** How a Task is laid out as a row: the inverse of `ToTask`. */
  function RowOf(t: Task): (row: Row)
    ensures WellFormedRow(row)
  {
    StatusTextRoundTrip(t.status);
    PriorityTextRoundTrip(t.priority);
    Row(t.id, t.title, t.description, StatusText(t.status), PriorityText(t.priority),
        t.createdAt, t.updatedAt)
  }

  /** `ToTask` loses nothing: a well-formed row is the layout of its Task, and back. */
  lemma ToTaskRoundTrip(row: Row, t: Task)
    requires WellFormedRow(row)
    ensures RowOf(ToTask(row)) == row
    ensures ToTask(RowOf(t)) == t
  {
  }

  /**
   * What `create` returns for an input: status 'todo' and priority 'medium'
   * whatever the input, the input's title and description (absent stays
   * absent), the fresh id, and equal timestamps.
   */
  lemma CreatedTask(input: TaskCreateInput, id: string, now: Timestamp)
    ensures var t := ToTask(NewRow(input, id, now));
      && t.id == id && t.title == input.title && t.description == input.description
      && t.status == Todo && t.priority == Medium
      && t.createdAt == now && t.updatedAt == t.createdAt
  {
  }

  /** Every row mapped, in table order. */
  function MapRows(rows: seq<Row>): (ts: seq<Task>)
    requires forall i :: 0 <= i < |rows| ==> WellFormedRow(rows[i])
    ensures |ts| == |rows|
    ensures forall i :: 0 <= i < |rows| ==> ts[i] == ToTask(rows[i])
  {
    if rows == [] then [] else [ToTask(rows[0])] + MapRows(rows[1..])
  }

  // ---------------------------------------------------------------------------
  // ORDER BY created_at DESC
  // ---------------------------------------------------------------------------

  /** Most recently created first; equal timestamps in either order. */
  ghost predicate NewestFirst(ts: seq<Task>)
  {
    forall i, j :: 0 <= i < j < |ts| ==> ts[j].createdAt <= ts[i].createdAt
  }

  /** Putting a task no older than the head in front keeps a list newest first. */
  lemma PrependNewest(x: Task, ts: seq<Task>)
    requires NewestFirst(ts)
    requires ts == [] || ts[0].createdAt <= x.createdAt
    ensures NewestFirst([x] + ts)
  {
  }

  /** Places `t` before the first task created no later than it. */
  function InsertNewestFirst(t: Task, ts: seq<Task>): (r: seq<Task>)
    requires NewestFirst(ts)
    ensures NewestFirst(r)
    ensures multiset(r) == multiset(ts) + multiset{t}
    ensures r[0] == t || (ts != [] && r[0] == ts[0])
  {
    if ts == [] || ts[0].createdAt <= t.createdAt then
      PrependNewest(t, ts);
      [t] + ts
    else
      var rest := InsertNewestFirst(t, ts[1..]);
      assert rest[0].createdAt <= ts[0].createdAt;
      PrependNewest(ts[0], rest);
      assert ts == [ts[0]] + ts[1..];
      [ts[0]] + rest
  }

  /** The rows of a query with `ORDER BY created_at DESC`. */
  function SortNewestFirst(ts: seq<Task>): (r: seq<Task>)
    ensures NewestFirst(r)
    ensures multiset(r) == multiset(ts)
  {
    if ts == [] then []
    else
      assert ts == [ts[0]] + ts[1..];
      InsertNewestFirst(ts[0], SortNewestFirst(ts[1..]))
  }

  /**
   * In a list ordered newest first, a task created strictly later comes
   * strictly earlier.
   */
  lemma LaterComesFirst(ts: seq<Task>, i: nat, j: nat)
    requires NewestFirst(ts)
    requires i < |ts| && j < |ts|
    requires ts[i].createdAt < ts[j].createdAt
    ensures j < i
  {
  }

  /** Pairwise distinct ids: `id` is the table's primary key. */
  ghost predicate UniqueIds(rows: seq<Row>)
  {
    forall i, j :: 0 <= i < j < |rows| ==> rows[i].id != rows[j].id
  }

  function IdsOf(rows: seq<Row>): set<string>
  {
    set row | row in rows :: row.id
  }

  /**
   * What holds of every table the application writes: unique ids, status
   * and priority texts the casts accept, and no row updated before it was
   * created.
   */
  ghost predicate ValidTable(rows: seq<Row>)
  {
    && UniqueIds(rows)
    && (forall i :: 0 <= i < |rows| ==> WellFormedRow(rows[i]))
    && (forall i :: 0 <= i < |rows| ==> rows[i].createdAt <= rows[i].updatedAt)
  }

  /**
   * Inserting the row `create` builds, with an id not yet in use, keeps the
   * table valid, adds exactly that id, and makes the created Task part of
   * the listing.
   */
  lemma InsertKeepsValid(rows: seq<Row>, input: TaskCreateInput, id: string, now: Timestamp)
    requires ValidTable(rows)
    requires id !in IdsOf(rows)
    ensures ValidTable(rows + [NewRow(input, id, now)])
    ensures IdsOf(rows + [NewRow(input, id, now)]) == IdsOf(rows) + {id}
    ensures ToTask(NewRow(input, id, now)) in SortNewestFirst(MapRows(rows + [NewRow(input, id, now)]))
  {
    var row := NewRow(input, id, now);
    var all := rows + [row];
    assert UniqueIds(all) by {
      forall i | 0 <= i < |rows| ensures rows[i].id != id {
        assert rows[i] in rows;
      }
    }
    assert forall i :: 0 <= i < |all| ==> WellFormedRow(all[i]) && all[i].createdAt <= all[i].updatedAt by {
      forall i | 0 <= i < |all|
        ensures WellFormedRow(all[i]) && all[i].createdAt <= all[i].updatedAt
      {
        if i < |rows| { assert all[i] == rows[i]; } else { assert all[i] == row; }
      }
    }
    assert IdsOf(all) == IdsOf(rows) + {id} by {
      assert forall r :: r in all <==> r in rows || r == row;
    }
    ListedAfterInsert(rows, row);
  }

  /**
   * The repository over one `tasks` table. The only writes the application
   * makes are `Create`'s, so the invariant `Valid` holds of every table it
   * ever sees.
   */
  class SqliteTaskRepository {
    /** The rows of the `tasks` table, in insertion order. */
    var tasks: seq<Row>

    ghost predicate Valid()
      reads this
    {
      ValidTable(tasks)
    }

    /** The ids in use. */
    function Ids(): set<string>
      reads this
    {
      IdsOf(tasks)
    }

    /** An empty table. */
    constructor ()
      ensures Valid() && tasks == []
    {
      tasks := [];
    }

    /**
     * `listAll`: one Task per row, newest first; an empty table gives the
     * empty sequence.
     */
    function ListAll(): (r: seq<Task>)
      reads this
      requires Valid()
      ensures |r| == |tasks|
      ensures NewestFirst(r)
      ensures multiset(r) == multiset(MapRows(tasks))
    {
      SortNewestFirst(MapRows(tasks))
    }

    /**
     * `create`: inserts exactly one row with the fresh id `id` (standing for
     * `crypto.randomUUID()`) and the clock value `now` (standing for
     * CURRENT_TIMESTAMP), and returns that row mapped to a Task.
     */
    method Create(input: TaskCreateInput, id: string, now: Timestamp) returns (t: Task)
      requires Valid()
      requires id !in Ids()
      modifies this
      ensures Valid()
      ensures tasks == old(tasks) + [NewRow(input, id, now)]
      ensures Ids() == old(Ids()) + {id}
      ensures t == ToTask(NewRow(input, id, now))
      ensures t in ListAll()
      ensures forall u :: u in old(ListAll()) ==> u in ListAll()
    {
      InsertKeepsValid(tasks, input, id, now);
      ListingGrows(tasks, [NewRow(input, id, now)]);
      tasks := tasks + [NewRow(input, id, now)];
      t := ToTask(NewRow(input, id, now));
    }
  }

  /**
   * A row appended to a table is listed: its Task is in the listing of the
   * table it was appended to (later listings are `ListingGrows`'s concern).
   */
  lemma ListedAfterInsert(rows: seq<Row>, row: Row)
    requires forall i :: 0 <= i < |rows| ==> WellFormedRow(rows[i])
    requires WellFormedRow(row)
    ensures ToTask(row) in SortNewestFirst(MapRows(rows + [row]))
  {
    var all := rows + [row];
    var mapped := MapRows(all);
    assert mapped[|rows|] == ToTask(row);
    assert ToTask(row) in multiset(mapped);
  }

  /**
   * Appending rows never drops a task from the listing: every Task listed
   * before is listed after, so a created Task stays in every later listing.
   */
  lemma ListingGrows(rows: seq<Row>, more: seq<Row>)
    requires forall i :: 0 <= i < |rows + more| ==> WellFormedRow((rows + more)[i])
    ensures forall i :: 0 <= i < |rows| ==> WellFormedRow(rows[i])
    ensures forall t :: t in SortNewestFirst(MapRows(rows)) ==>
      t in SortNewestFirst(MapRows(rows + more))
  {
    assert forall i :: 0 <= i < |rows| ==> rows[i] == (rows + more)[i];
    var before, after := MapRows(rows), MapRows(rows + more);
    forall t | t in SortNewestFirst(before)
      ensures t in SortNewestFirst(after)
    {
      assert t in multiset(before);
      var i :| 0 <= i < |before| && before[i] == t;
      assert after[i] == t;
      assert t in multiset(after);
    }
  }
}
