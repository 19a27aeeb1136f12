/** The task service: create, read, update and delete tasks in the `tasks`
    table, plus the status filter, the text search and the batch operations.
    The clock and the id generator are parameters (`now`, `freshId`). */
module Tasks {
  import opened Options
  import opened Text
  import opened Seqs
  import opened RowStore
  import opened Records

  /** What `createTask` takes: a task without its id and timestamps. */
  datatype TaskInput = TaskInput(title: string, description: string, completed: bool)

  /** What `updateTask` takes: any of the fields other than id and createdAt. */
  datatype TaskPatch = TaskPatch(
    title: Option<string>,
    description: Option<string>,
    completed: Option<bool>,
    updatedAt: Option<int>)

  /** One element of `updateMultipleTasks`'s argument. */
  datatype TaskUpdate = TaskUpdate(id: string, data: TaskPatch)

  const NoChanges := TaskPatch(None, None, None, None)

  /** No two tasks share an id: the first id does not recur, and the rest are
      distinct. */
  ghost predicate DistinctIds(ts: seq<Task>) {
    ts == [] || (ts[0].id !in Ids(ts[1..]) && DistinctIds(ts[1..]))
  }

  /** DistinctIds read position by position. */
  lemma {:induction false} DistinctIdsAt(ts: seq<Task>, i: nat, j: nat)
    requires DistinctIds(ts) && i < j < |ts|
    ensures ts[i].id != ts[j].id
  {
    if i == 0 {
      assert Ids(ts[1..])[j - 1] == ts[j].id;
    } else {
      DistinctIdsAt(ts[1..], i - 1, j - 1);
    }
  }

  /** The id a task is stored under. */
  function TaskId(t: Task): string {
    t.id
  }

  /** `{...taskData, id, createdAt: now, updatedAt: now}` */
  function NewTask(data: TaskInput, id: string, now: int): (t: Task)
    ensures t.id == id && t.createdAt == now && t.updatedAt == now
    ensures t.title == data.title && t.description == data.description && t.completed == data.completed
  {
    Task(id, data.title, data.description, data.completed, now, now)
  }

  /** `{...existing, ...updates, updatedAt: now}`: the patch's fields win, the
      timestamp is refreshed whatever the patch says, and id and createdAt stay. */
  function MergeTask(t: Task, p: TaskPatch, now: int): (r: Task)
    ensures r.id == t.id && r.createdAt == t.createdAt && r.updatedAt == now
    ensures r.title == p.title.GetOr(t.title)
    ensures r.description == p.description.GetOr(t.description)
    ensures r.completed == p.completed.GetOr(t.completed)
  {
    Task(t.id, p.title.GetOr(t.title), p.description.GetOr(t.description),
         p.completed.GetOr(t.completed), t.createdAt, now)
  }

  /** An empty patch only refreshes updatedAt. */
  lemma EmptyPatchOnlyStamps(t: Task, now: int)
    ensures MergeTask(t, NoChanges, now) == t.(updatedAt := now)
  {
  }

  /** Applying the same patch twice is applying it once (at the later time). */
  lemma MergeIdempotent(t: Task, p: TaskPatch, now1: int, now2: int)
    ensures MergeTask(MergeTask(t, p, now1), p, now2) == MergeTask(t, p, now2)
  {
  }

  function HasStatus(completed: bool): Task -> bool {
    (t: Task) => t.completed == completed
  }

  /** `getTasksByStatus(completed)` over the table's rows. */
  function TasksByStatus(ts: seq<Task>, completed: bool): (r: seq<Task>)
    ensures forall t :: t in r <==> t in ts && t.completed == completed
    ensures IsSubsequence(r, ts)
  {
    Filter(ts, HasStatus(completed))
  }

  function MatchesQuery(query: string): Task -> bool {
    (t: Task) => ContainsIgnoringCase(t.title, query) || ContainsIgnoringCase(t.description, query)
  }

  /** `searchTasks(query)` over the table's rows: the tasks whose lower-cased
      title or description contains the lower-cased query, in table order. */
  function SearchTasks(ts: seq<Task>, query: string): (r: seq<Task>)
    ensures forall t :: t in r <==>
      (t in ts && (HasSubstring(Lower(t.title), Lower(query)) || HasSubstring(Lower(t.description), Lower(query))))
    ensures IsSubsequence(r, ts)
  {
    Filter(ts, MatchesQuery(query))
  }

  /** Searching for the empty string returns every task. */
  lemma EmptySearchReturnsAll(ts: seq<Task>)
    ensures SearchTasks(ts, "") == ts
  {
    forall i | 0 <= i < |ts| ensures MatchesQuery("")(ts[i]) {
      EmptyQueryMatches(ts[i].title);
    }
    FilterKeepsAll(ts, MatchesQuery(""));
  }

  /** The ids of a sequence of tasks. */
  function Ids(ts: seq<Task>): (ids: seq<string>)
    ensures |ids| == |ts|
    ensures forall i :: 0 <= i < |ts| ==> ids[i] == ts[i].id
  {
    seq(|ts|, i requires 0 <= i < |ts| => ts[i].id)
  }

  lemma IdsAppend(ts: seq<Task>, t: Task)
    ensures Ids(ts + [t]) == Ids(ts) + [t.id]
  {
  }

  /** The set of ids of some tasks. */
  function IdSet(ts: seq<Task>): set<string> {
    set t | t in ts :: t.id
  }

  lemma IdSetPrefix(ts: seq<Task>, i: nat)
    requires i < |ts|
    ensures IdSet(ts[..i + 1]) == IdSet(ts[..i]) + {ts[i].id}
  {
    assert ts[..i + 1] == ts[..i] + [ts[i]];
  }

  /** With distinct ids, a task's id is not among those of the tasks before it. */
  lemma IdNotBefore(ts: seq<Task>, i: nat)
    requires DistinctIds(ts) && i < |ts|
    ensures ts[i].id !in IdSet(ts[..i])
  {
    forall t | t in ts[..i] ensures t.id != ts[i].id {
      var m :| 0 <= m < i && ts[..i][m] == t;
      DistinctIdsAt(ts, m, i);
    }
  }

  /** The ids an `updateMultipleTasks` call asks for, in order. */
  function RequestedIds(us: seq<TaskUpdate>): (ids: seq<string>)
    ensures |ids| == |us|
    ensures forall i :: 0 <= i < |us| ==> ids[i] == us[i].id
  {
    seq(|us|, i requires 0 <= i < |us| => us[i].id)
  }

  function IsKeyOf(keys: seq<string>): string -> bool {
    (k: string) => k in keys
  }

  /** The requested ids among keys, in request order: what
      `updateMultipleTasks` returns the tasks of. */
  function PresentIds(us: seq<TaskUpdate>, keys: seq<string>): seq<string>
    decreases |us|
  {
    if us == [] then []
    else PresentIds(us[..|us| - 1], keys) + (if us[|us| - 1].id in keys then [us[|us| - 1].id] else [])
  }

  lemma PresentIdsStep(us: seq<TaskUpdate>, i: nat, keys: seq<string>)
    requires i < |us|
    ensures PresentIds(us[..i + 1], keys) ==
      PresentIds(us[..i], keys) + (if us[i].id in keys then [us[i].id] else [])
  {
    assert us[..i + 1][..i] == us[..i];
  }

  /** The present ids are the requested ids filtered by membership in keys. */
  lemma {:induction false} PresentIdsAreFiltered(us: seq<TaskUpdate>, keys: seq<string>)
    ensures PresentIds(us, keys) == Filter(RequestedIds(us), IsKeyOf(keys))
    decreases |us|
  {
    if us != [] {
      var last := |us| - 1;
      PresentIdsAreFiltered(us[..last], keys);
      assert RequestedIds(us) == RequestedIds(us[..last]) + [us[last].id];
      FilterAppend(RequestedIds(us[..last]), [us[last].id], IsKeyOf(keys));
      FilterSingle(us[last].id, IsKeyOf(keys));
    }
  }

  /** ts are the tasks built from the first |ts| inputs, ids and times. */
  ghost predicate Built(ts: seq<Task>, ds: seq<TaskInput>, ids: seq<string>, clock: seq<int>) {
    && |ts| <= |ds| && |ts| <= |ids| && |ts| <= |clock|
    && forall j :: 0 <= j < |ts| ==> ts[j] == NewTask(ds[j], ids[j], clock[j])
  }

  lemma BuiltExtend(ts: seq<Task>, ds: seq<TaskInput>, ids: seq<string>, clock: seq<int>)
    requires Built(ts, ds, ids, clock)
    requires |ts| < |ds| && |ts| < |ids| && |ts| < |clock|
    ensures Built(ts + [NewTask(ds[|ts|], ids[|ts|], clock[|ts|])], ds, ids, clock)
  {
  }

  /** The table after `createTask` has stored each of ts in turn. */
  function StoreTasks(es: seq<Entry<Task>>, ts: seq<Task>): seq<Entry<Task>>
    decreases |ts|
  {
    if ts == [] then es
    else Put(StoreTasks(es, ts[..|ts| - 1]), ts[|ts| - 1].id, ts[|ts| - 1])
  }

  lemma StoreTasksAppend(es: seq<Entry<Task>>, ts: seq<Task>, t: Task)
    ensures StoreTasks(es, ts + [t]) == Put(StoreTasks(es, ts), t.id, t)
  {
    assert (ts + [t])[..|ts|] == ts;
  }

  /** After storing ts, each id holds the last task stored under it, and every
      other id holds what it held before. */
  lemma StoreTasksRows(es: seq<Entry<Task>>, ts: seq<Task>)
    ensures forall j :: 0 <= j < |ts| && (forall m :: j < m < |ts| ==> ts[m].id != ts[j].id) ==>
      Lookup(StoreTasks(es, ts), ts[j].id) == Some(ts[j])
    ensures forall k :: k !in Ids(ts) ==> Lookup(StoreTasks(es, ts), k) == Lookup(es, k)
  {
    forall j | 0 <= j < |ts| && (forall m :: j < m < |ts| ==> ts[m].id != ts[j].id)
      ensures Lookup(StoreTasks(es, ts), ts[j].id) == Some(ts[j])
    {
      StoreTasksFindsLast(es, ts, j);
    }
    forall k | k !in Ids(ts)
      ensures Lookup(StoreTasks(es, ts), k) == Lookup(es, k)
    {
      StoreTasksKeepsOthers(es, ts, k);
    }
  }

  /** In a table keyed by id, the rows' ids are the table's ids, so they are distinct. */
  lemma {:induction false} RowIdsAreKeys(es: seq<Entry<Task>>)
    requires DistinctKeys(es) && KeyedBy(es, TaskId)
    ensures Ids(Values(es)) == Keys(es)
    ensures DistinctIds(Values(es))
  {
    if es != [] {
      RowIdsAreKeys(es[1..]);
      assert Values(es)[1..] == Values(es[1..]);
      assert Ids(Values(es)) == [es[0].key] + Keys(es[1..]);
    }
  }

  /** In a table keyed by id, every row's id is one of the table's ids. */
  lemma RowIdsStored(es: seq<Entry<Task>>, t: Task)
    requires KeyedBy(es, TaskId) && t in Values(es)
    ensures t.id in Keys(es)
  {
    var m :| 0 <= m < |Values(es)| && Values(es)[m] == t;
    KeyedByAt(es, TaskId, m);
    assert Keys(es)[m] == es[m].key;
  }

  /** Storing tasks under other ids does not disturb the row at k. */
  lemma {:induction false} StoreTasksKeepsOthers(es: seq<Entry<Task>>, ts: seq<Task>, k: string)
    requires forall j :: 0 <= j < |ts| ==> ts[j].id != k
    ensures Lookup(StoreTasks(es, ts), k) == Lookup(es, k)
    decreases |ts|
  {
    if ts != [] {
      StoreTasksKeepsOthers(es, ts[..|ts| - 1], k);
      PutLookup(StoreTasks(es, ts[..|ts| - 1]), ts[|ts| - 1].id, ts[|ts| - 1], k);
    }
  }

  /** The last task stored under an id is the one found there. */
  lemma {:induction false} StoreTasksFindsLast(es: seq<Entry<Task>>, ts: seq<Task>, j: nat)
    requires j < |ts|
    requires forall m :: j < m < |ts| ==> ts[m].id != ts[j].id
    ensures Lookup(StoreTasks(es, ts), ts[j].id) == Some(ts[j])
    decreases |ts|
  {
    var last := |ts| - 1;
    var prev := StoreTasks(es, ts[..last]);
    assert StoreTasks(es, ts) == Put(prev, ts[last].id, ts[last]);
    PutLookup(prev, ts[last].id, ts[last], ts[j].id);
    if j < last {
      assert ts[..last][j] == ts[j];
      assert forall m :: j < m < last ==> ts[..last][m] == ts[m];
      StoreTasksFindsLast(es, ts[..last], j);
      assert Lookup(prev, ts[j].id) == Some(ts[j]);
    }
    assert Lookup(Put(prev, ts[last].id, ts[last]), ts[j].id) == Some(ts[j]);
  }

  /** Filtering keeps ids distinct. */
  lemma {:induction false} FilterKeepsIdsDistinct(ts: seq<Task>, p: Task -> bool)
    requires DistinctIds(ts)
    ensures DistinctIds(Filter(ts, p))
  {
    if ts != [] {
      FilterKeepsIdsDistinct(ts[1..], p);
      if p(ts[0]) {
        var rest := Filter(ts[1..], p);
        forall i | 0 <= i < |rest| ensures Ids(rest)[i] != ts[0].id {
          var j :| 0 <= j < |ts[1..]| && ts[1..][j] == rest[i];
          assert Ids(ts[1..])[j] == rest[i].id;
        }
        assert Filter(ts, p)[1..] == rest;
      }
    }
  }

  /** A completed task is among the completed tasks. */
  lemma CompletedIsListed(ts: seq<Task>, i: nat)
    requires i < |ts| && ts[i].completed
    ensures ts[i] in TasksByStatus(ts, true)
  {
  }

  /** With distinct ids, every other task has another id. */
  lemma OthersHaveOtherIds(ts: seq<Task>, i: nat)
    requires DistinctIds(ts) && i < |ts|
    ensures forall m :: 0 <= m < |ts| && m != i ==> ts[m].id != ts[i].id
  {
    forall m | 0 <= m < |ts| && m != i ensures ts[m].id != ts[i].id {
      if m < i {
        DistinctIdsAt(ts, m, i);
      } else {
        DistinctIdsAt(ts, i, m);
      }
    }
  }

  /** An incomplete task whose id no other task shares is not among the ids of
      the completed tasks. */
  lemma IncompleteNotListed(ts: seq<Task>, i: nat)
    requires i < |ts| && !ts[i].completed
    requires forall m :: 0 <= m < |ts| && m != i ==> ts[m].id != ts[i].id
    ensures ts[i].id !in IdSet(TasksByStatus(ts, true))
  {
    forall t | t in TasksByStatus(ts, true) ensures t.id != ts[i].id {
      var m :| 0 <= m < |ts| && ts[m] == t;
    }
  }

  /** With distinct ids, a task's id is the id of a completed task exactly when
      the task itself is completed. */
  lemma CompletedIds(ts: seq<Task>, i: nat)
    requires DistinctIds(ts) && i < |ts|
    ensures ts[i].id in IdSet(TasksByStatus(ts, true)) <==> ts[i].completed
  {
    if ts[i].completed {
      CompletedIsListed(ts, i);
    } else {
      OthersHaveOtherIds(ts, i);
      IncompleteNotListed(ts, i);
    }
  }

  /** In a table keyed by id, an id belongs to a completed task exactly when the
      row stored under it is completed. */
  lemma CompletedIdsAreCompletedKeys(es: seq<Entry<Task>>, i: nat)
    requires DistinctKeys(es) && KeyedBy(es, TaskId) && i < |es|
    ensures es[i].key in IdSet(TasksByStatus(Values(es), true)) <==> es[i].row.completed
  {
    RowIdsAreKeys(es);
    KeyedByAt(es, TaskId, i);
    CompletedIds(Values(es), i);
  }

  /** Among the incomplete tasks there is no completed one. */
  lemma OnlyIncompleteRemain(ts: seq<Task>)
    ensures TasksByStatus(TasksByStatus(ts, false), true) == []
  {
    var rest := TasksByStatus(ts, false);
    FilterDropsAll(rest, HasStatus(true));
  }

  /** Deleting exactly the ids of the completed rows leaves the incomplete
      rows, in table order. */
  lemma {:induction false} RemainingAreIncomplete(es: seq<Entry<Task>>, ks: set<string>)
    requires forall i :: 0 <= i < |es| ==> (es[i].key in ks <==> es[i].row.completed)
    ensures Values(Without(es, ks)) == TasksByStatus(Values(es), false)
  {
    if es != [] {
      RemainingAreIncomplete(es[1..], ks);
      assert Values(es)[1..] == Values(es[1..]);
      if es[0].key !in ks {
        assert Values([es[0]] + Without(es[1..], ks))[1..] == Values(Without(es[1..], ks));
      }
    }
  }

  /** The table and the tasks returned so far while `updateMultipleTasks`
      runs `updateTask` over its requests. */
  datatype Batch = Batch(entries: seq<Entry<Task>>, updated: seq<Task>)

  /** One `updateTask(u.id, u.data)` at time now: a held id gets its row merged
      with the patch and the merged task is returned; an absent id changes
      nothing, and the `null` it returns is dropped by the final `filter`. */
  function UpdateOne(b: Batch, u: TaskUpdate, now: int): Batch {
    match Lookup(b.entries, u.id)
    case None => b
    case Some(t) =>
      var merged := MergeTask(t, u.data, now);
      Batch(Put(b.entries, u.id, merged), b.updated + [merged])
  }

  /** The batch after the requests of us, in order, the i-th at clock[i]. */
  function UpdateAll(es: seq<Entry<Task>>, us: seq<TaskUpdate>, clock: seq<int>): Batch
    requires |us| <= |clock|
    decreases |us|
  {
    if us == [] then Batch(es, [])
    else UpdateOne(UpdateAll(es, us[..|us| - 1], clock), us[|us| - 1], clock[|us| - 1])
  }

  lemma UpdateAllStep(es: seq<Entry<Task>>, us: seq<TaskUpdate>, clock: seq<int>, i: nat)
    requires i < |us| <= |clock|
    ensures UpdateAll(es, us[..i + 1], clock) == UpdateOne(UpdateAll(es, us[..i], clock), us[i], clock[i])
  {
    assert us[..i + 1][..i] == us[..i];
  }

  /** Requests for other ids leave the row at k as it was. */
  lemma {:induction false} UpdateAllKeepsOthers(es: seq<Entry<Task>>, us: seq<TaskUpdate>, clock: seq<int>, k: string)
    requires |us| <= |clock|
    requires forall j :: 0 <= j < |us| ==> us[j].id != k
    ensures Lookup(UpdateAll(es, us, clock).entries, k) == Lookup(es, k)
    decreases |us|
  {
    if us != [] {
      var last := |us| - 1;
      var prev := UpdateAll(es, us[..last], clock);
      UpdateAllKeepsOthers(es, us[..last], clock, k);
      match Lookup(prev.entries, us[last].id)
      case None =>
      case Some(t) =>
        PutLookup(prev.entries, us[last].id, MergeTask(t, us[last].data, clock[last]), k);
    }
  }

  /** The row held under id after the batch: the old row merged with the one
      request for id at its own time, or still nothing when id was not held. */
  function MergedRow(es: seq<Entry<Task>>, id: string, p: TaskPatch, now: int): Option<Task> {
    match Lookup(es, id)
    case None => None
    case Some(t) => Some(MergeTask(t, p, now))
  }

  /** A request whose id no other request names merges its patch into the row
      held before the call. */
  lemma {:induction false} UpdateAllMergesOnce(es: seq<Entry<Task>>, us: seq<TaskUpdate>, clock: seq<int>, j: nat)
    requires j < |us| <= |clock|
    requires forall m :: 0 <= m < |us| && m != j ==> us[m].id != us[j].id
    ensures Lookup(UpdateAll(es, us, clock).entries, us[j].id) == MergedRow(es, us[j].id, us[j].data, clock[j])
    decreases |us|
  {
    var last := |us| - 1;
    var prev := UpdateAll(es, us[..last], clock);
    if j == last {
      UpdateAllKeepsOthers(es, us[..last], clock, us[j].id);
      match Lookup(prev.entries, us[j].id)
      case None =>
      case Some(t) =>
        PutLookup(prev.entries, us[j].id, MergeTask(t, us[j].data, clock[j]), us[j].id);
    } else {
      assert us[..last][j] == us[j];
      UpdateAllMergesOnce(es, us[..last], clock, j);
      match Lookup(prev.entries, us[last].id)
      case None =>
      case Some(t) =>
        PutLookup(prev.entries, us[last].id, MergeTask(t, us[last].data, clock[last]), us[j].id);
    }
  }

  /** The tasks returned when every request is read against the table as it
      was before the call: one merged task per request whose id is held. */
  function MergedFromOld(es: seq<Entry<Task>>, us: seq<TaskUpdate>, clock: seq<int>): seq<Task>
    requires |us| <= |clock|
    decreases |us|
  {
    if us == [] then []
    else
      var last := |us| - 1;
      MergedFromOld(es, us[..last], clock) +
        match MergedRow(es, us[last].id, us[last].data, clock[last])
        case None => []
        case Some(t) => [t]
  }

  /** No two requests name the same id. */
  ghost predicate DistinctRequests(us: seq<TaskUpdate>) {
    forall a, b :: 0 <= a < b < |us| ==> us[a].id != us[b].id
  }

  /** With no id requested twice, the batch returns, in request order, each
      held row merged with its request's patch. */
  lemma {:induction false} UpdateAllReturnsMerged(es: seq<Entry<Task>>, us: seq<TaskUpdate>, clock: seq<int>)
    requires |us| <= |clock| && DistinctRequests(us)
    ensures UpdateAll(es, us, clock).updated == MergedFromOld(es, us, clock)
    decreases |us|
  {
    if us != [] {
      var last := |us| - 1;
      assert DistinctRequests(us[..last]);
      UpdateAllReturnsMerged(es, us[..last], clock);
      UpdateAllKeepsOthers(es, us[..last], clock, us[last].id);
    }
  }

  class TaskService {
    const table: Table<Task>

    ghost predicate Valid()
      reads this, table
    {
      table.Valid() && KeyedBy(table.entries, TaskId)
    }

    constructor (table: Table<Task>)
      requires table.Valid() && KeyedBy(table.entries, TaskId)
      ensures this.table == table && Valid()
    {
      this.table := table;
    }

    /** `getAllTasks()`: the rows in table order, one per stored id. */
    function GetAllTasks(): (r: seq<Task>)
      reads this, table
      requires Valid()
      ensures |r| == |table.entries|
      ensures forall i :: 0 <= i < |r| ==> r[i] == table.entries[i].row
      ensures Ids(r) == Keys(table.entries)
      ensures DistinctIds(r)
    {
      RowIdsAreKeys(table.entries);
      table.GetTable()
    }

    /** `getTaskById(id)`: the row stored under id, absent when there is none. */
    function GetTaskById(id: string): (r: Option<Task>)
      reads this, table
      requires Valid()
      ensures r.Some? <==> id in Keys(table.entries)
      ensures r.Some? ==> Entry(id, r.value) in table.entries
      ensures r.Some? ==> r.value.id == id
    {
      var r := table.GetRow(id);
      assert r.Some? ==> r.value.id == id by {
        if r.Some? {
          FoundUnderOwnKey(table.entries, TaskId, id);
        }
      }
      r
    }

    method CreateTask(data: TaskInput, freshId: string, now: int) returns (task: Task)
      requires Valid()
      modifies table
      ensures Valid()
      ensures task == NewTask(data, freshId, now)
      ensures table.entries == Put(old(table.entries), freshId, task)
    {
      task := NewTask(data, freshId, now);
      PutKeepsKeyedBy(table.entries, TaskId, task);
      table.SetRow(freshId, task);
    }

    method UpdateTask(id: string, updates: TaskPatch, now: int) returns (r: Option<Task>)
      requires Valid()
      modifies table
      ensures Valid()
      ensures old(table.GetRow(id)).None? ==> r.None? && table.entries == old(table.entries)
      ensures old(table.GetRow(id)).Some? ==>
        && r == Some(MergeTask(old(table.GetRow(id)).value, updates, now))
        && table.entries == Put(old(table.entries), id, r.value)
      ensures r.Some? <==> id in old(Keys(table.entries))
      ensures r.Some? ==> r.value.id == id
      ensures Keys(table.entries) == old(Keys(table.entries))
    {
      var existing := GetTaskById(id);
      if existing.None? {
        return None;
      }
      var updated := MergeTask(existing.value, updates, now);
      PutKeepsKeyedBy(table.entries, TaskId, updated);
      PutKeys(table.entries, id, updated);
      table.SetRow(id, updated);
      r := Some(updated);
    }

    method ToggleTaskCompletion(id: string, now: int) returns (r: Option<Task>)
      requires Valid()
      modifies table
      ensures Valid()
      ensures old(table.GetRow(id)).None? ==> r.None? && table.entries == old(table.entries)
      ensures old(table.GetRow(id)).Some? ==>
        var t := old(table.GetRow(id)).value;
        && r == Some(t.(completed := !t.completed, updatedAt := now))
        && table.entries == Put(old(table.entries), id, r.value)
    {
      var task := GetTaskById(id);
      if task.None? {
        return None;
      }
      r := UpdateTask(id, TaskPatch(None, None, Some(!task.value.completed), None), now);
    }

    method DeleteTask(id: string) returns (deleted: bool)
      requires Valid()
      modifies table
      ensures Valid()
      ensures deleted == old(table.GetRow(id)).Some?
      ensures table.entries == if deleted then Remove(old(table.entries), id) else old(table.entries)
    {
      var task := GetTaskById(id);
      if task.None? {
        return false;
      }
      WithoutKeepsKeyedBy(table.entries, TaskId, {id});
      table.DelRow(id);
      deleted := true;
    }

    method DeleteAllCompletedTasks() returns (deletedCount: nat)
      requires Valid()
      modifies table
      ensures Valid()
      ensures deletedCount == |TasksByStatus(old(GetAllTasks()), true)|
      ensures GetAllTasks() == TasksByStatus(old(GetAllTasks()), false)
      ensures TasksByStatus(GetAllTasks(), true) == []
    {
      var completedTasks := TasksByStatus(GetAllTasks(), true);
      ghost var e0 := table.entries;
      ghost var removed: set<string> := {};
      WithoutNothing(e0);
      RowIdsAreKeys(e0);
      FilterKeepsIdsDistinct(GetAllTasks(), HasStatus(true));
      deletedCount := 0;
      var i := 0;
      while i < |completedTasks|
        invariant 0 <= i <= |completedTasks|
        invariant Valid()
        invariant deletedCount == i
        invariant removed == IdSet(completedTasks[..i])
        invariant table.entries == Without(e0, removed)
      {
        var id := completedTasks[i].id;
        IdNotBefore(completedTasks, i);
        RowIdsStored(e0, completedTasks[i]);
        WithoutLookup(e0, removed, id);
        var deleted := DeleteTask(id);
        if deleted {
          deletedCount := deletedCount + 1;
        }
        WithoutTwice(e0, removed, id);
        IdSetPrefix(completedTasks, i);
        removed := removed + {id};
        i := i + 1;
      }
      assert completedTasks[..i] == completedTasks;
      forall m | 0 <= m < |e0|
        ensures e0[m].key in removed <==> e0[m].row.completed
      {
        CompletedIdsAreCompletedKeys(e0, m);
      }
      RemainingAreIncomplete(e0, removed);
      OnlyIncompleteRemain(old(GetAllTasks()));
    }

    method CreateMultipleTasks(tasksData: seq<TaskInput>, freshIds: seq<string>, clock: seq<int>)
      returns (created: seq<Task>)
      requires Valid()
      requires |freshIds| == |tasksData| && |clock| == |tasksData|
      modifies table
      ensures Valid()
      ensures |created| == |tasksData|
      ensures forall j :: 0 <= j < |created| ==>
        created[j] == NewTask(tasksData[j], freshIds[j], clock[j])
      ensures table.entries == StoreTasks(old(table.entries), created)
    {
      ghost var e0 := table.entries;
      created := [];
      var i := 0;
      while i < |tasksData|
        invariant 0 <= i <= |tasksData|
        invariant Valid()
        invariant |created| == i
        invariant Built(created, tasksData, freshIds, clock)
        invariant table.entries == StoreTasks(e0, created)
      {
        var task := CreateTask(tasksData[i], freshIds[i], clock[i]);
        StoreTasksAppend(e0, created, task);
        BuiltExtend(created, tasksData, freshIds, clock);
        created := created + [task];
        i := i + 1;
      }
    }

    method UpdateMultipleTasks(updates: seq<TaskUpdate>, clock: seq<int>) returns (updated: seq<Task>)
      requires Valid()
      requires |clock| == |updates|
      modifies table
      ensures Valid()
      ensures Batch(table.entries, updated) == UpdateAll(old(table.entries), updates, clock)
      ensures Ids(updated) == Filter(RequestedIds(updates), IsKeyOf(old(Keys(table.entries))))
      ensures |updated| <= |updates|
      ensures Keys(table.entries) == old(Keys(table.entries))
    {
      ghost var e0 := table.entries;
      ghost var keys0 := Keys(table.entries);
      updated := [];
      var i := 0;
      while i < |updates|
        invariant 0 <= i <= |updates|
        invariant Valid()
        invariant Keys(table.entries) == keys0
        invariant |updated| <= i
        invariant Ids(updated) == PresentIds(updates[..i], keys0)
        invariant Batch(table.entries, updated) == UpdateAll(e0, updates[..i], clock)
      {
        var r := UpdateTask(updates[i].id, updates[i].data, clock[i]);
        PresentIdsStep(updates, i, keys0);
        UpdateAllStep(e0, updates, clock, i);
        if r.Some? {
          IdsAppend(updated, r.value);
          updated := updated + [r.value];
        }
        i := i + 1;
      }
      assert updates[..i] == updates;
      PresentIdsAreFiltered(updates, keys0);
    }
  }
}
