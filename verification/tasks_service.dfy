/** The task service: creation, listing, lookup, single and bulk deletion
    and update of tasks, with the ownership rules that decide who may
    delete or change a task. The database is an immutable map from task id
    to task; every operation returns the new map together with its output. */
module TasksService {
  import opened Common

  type TaskId = Id

  /** A stored task. `dueDate` is kept as the client's date string: date
      parsing is not part of the model. */
  datatype Task = Task(
    id: TaskId,
    title: string,
    description: Option<string>,
    status: Option<string>,
    priority: Option<string>,
    workspaceId: Id,
    projectId: Id,
    authorId: UserId,
    assigneeId: Option<UserId>,
    dueDate: Option<string>,
    createdAt: int)

  type Store = map<TaskId, Task>

  /** Body of the create request. An absent, null or empty `assigneeId`
      and `dueDate` are all falsy. */
  datatype CreateTaskInput = CreateTaskInput(
    title: string,
    description: Option<string>,
    status: Option<string>,
    priority: Option<string>,
    projectId: Id,
    assigneeId: Option<UserId>,
    dueDate: Option<string>)

  /** The three shapes a nullable field of an update body can take: left
      out, `null`, or a value. */
  datatype Field<T> = Absent | Null | Given(value: T)

  /** Body of the update request. `title`, `projectId` and `dueDate` are
      `None` when left out; for `dueDate` a `null` is falsy like an absent
      field, so `None` stands for both. */
  datatype UpdateTaskInput = UpdateTaskInput(
    title: Option<string>,
    description: Field<string>,
    status: Field<string>,
    priority: Field<string>,
    projectId: Option<Id>,
    assigneeId: Field<UserId>,
    dueDate: Option<string>)

  /** Result of a bulk delete: the number of rows removed, or the message
      returned when nothing was removed. */
  datatype BulkOutcome = Deleted(count: nat) | NothingDeleted(message: string)

  const NothingDeletedMessage: string := "No tasks were deleted (you might not be the author)"

  /** What the database and the service keep true of every stored task:
      it is stored under its own id, it has an author, and an assignee,
      when there is one, is a non-empty id. */
  predicate Valid(store: Store) {
    forall k | k in store ::
      && store[k].id == k
      && store[k].authorId != ""
      && (store[k].assigneeId.Some? ==> store[k].assigneeId.value != "")
  }

  /** Creates a task authored by `userId`. The database supplies the fresh
      id `newId` and the creation time `now`. */
  function Create(store: Store, userId: UserId, dto: Option<CreateTaskInput>, workspaceId: Id,
                  newId: TaskId, now: int): (r: Result<(Store, Task)>)
    requires newId !in store
    ensures r.Failure? <==> userId == "" || dto.None?
    ensures r.Failure? ==> r.error == BadRequest
    ensures r.Success? ==>
      var (store', t) := r.value;
      && store' == store[newId := t]
      && t.id == newId
      && t.authorId == userId
      && t.projectId == dto.value.projectId
      && t.workspaceId == workspaceId
      && t.createdAt == now
      && (t.assigneeId.Some? <==> Truthy(dto.value.assigneeId))
      && (t.assigneeId.Some? ==> t.assigneeId == dto.value.assigneeId)
      && (t.dueDate.Some? <==> Truthy(dto.value.dueDate))
      && (t.dueDate.Some? ==> t.dueDate == dto.value.dueDate)
    ensures r.Success? && Valid(store) ==> Valid(r.value.0)
  {
    if userId == "" || dto.None? then Failure(BadRequest)
    else
      var d := dto.value;
      var t := Task(
        newId, d.title, d.description, d.status, d.priority, workspaceId, d.projectId, userId,
        if Truthy(d.assigneeId) then d.assigneeId else None,
        if Truthy(d.dueDate) then d.dueDate else None,
        now);
      Success((store[newId := t], t))
  }

  /** A created task can be fetched back by its id. */
  lemma CreateThenGet(store: Store, userId: UserId, dto: Option<CreateTaskInput>, workspaceId: Id,
                      newId: TaskId, now: int)
    requires newId !in store && newId != ""
    requires Create(store, userId, dto, workspaceId, newId, now).Success?
    ensures var (store', t) := Create(store, userId, dto, workspaceId, newId, now).value;
      Get(store', newId) == Success(t)
  {
  }

  /** Tasks of a project are listed newest first. */
  predicate NewestFirst(ts: seq<Task>) {
    forall i, j | 0 <= i < j < |ts| :: ts[i].createdAt >= ts[j].createdAt
  }

  /** Ids of the stored tasks that belong to `projectId`. */
  function InProject(store: Store, projectId: Id): set<TaskId> {
    set k | k in store && store[k].projectId == projectId
  }

  /** Inserts `t` into a newest-first list, keeping it newest first. */
  function InsertNewestFirst(t: Task, ts: seq<Task>): (r: seq<Task>)
    requires NewestFirst(ts)
    ensures NewestFirst(r)
    ensures |r| == |ts| + 1
    ensures multiset(r) == multiset(ts) + multiset{t}
    ensures forall x :: x in r <==> x == t || x in ts
  {
    if ts == [] || t.createdAt >= ts[0].createdAt then
      PrependNewest(t, ts);
      [t] + ts
    else
      var rest := InsertNewestFirst(t, ts[1..]);
      assert ts == [ts[0]] + ts[1..];
      PrependNewest(ts[0], rest);
      [ts[0]] + rest
  }

  /** A task no younger than every element of a newest-first list can
      head it. */
  lemma PrependNewest(h: Task, ts: seq<Task>)
    requires NewestFirst(ts)
    requires forall x | x in ts :: h.createdAt >= x.createdAt
    ensures NewestFirst([h] + ts)
  {
  }

  /** `acc` lists, newest first and once each, the tasks of `projectId`
      among the already visited keys `done`. */
  predicate Listed(store: Store, projectId: Id, done: set<TaskId>, acc: seq<Task>) {
    && NewestFirst(acc)
    && (forall x | x in acc :: x.id in done && x.id in store && store[x.id] == x && x.projectId == projectId)
    && (forall k | k in done && k in store && store[k].projectId == projectId :: store[k] in acc)
    && |acc| == |InProject(store, projectId) * done|
  }

  lemma ListedStep(store: Store, projectId: Id, done: set<TaskId>, acc: seq<Task>, k: TaskId)
    requires Valid(store) && k in store && k !in done
    requires Listed(store, projectId, done, acc)
    ensures store[k].projectId == projectId ==>
      Listed(store, projectId, done + {k}, InsertNewestFirst(store[k], acc))
    ensures store[k].projectId != projectId ==> Listed(store, projectId, done + {k}, acc)
  {
    var before := InProject(store, projectId) * done;
    var after := InProject(store, projectId) * (done + {k});
    if store[k].projectId == projectId {
      assert after == before + {k};
      assert k !in before;
    } else {
      assert after == before;
    }
  }

  /** One step of the listing: visits key `k`. */
  function CollectStep(store: Store, projectId: Id, ghost done: set<TaskId>, acc: seq<Task>, k: TaskId): (acc': seq<Task>)
    requires Valid(store) && k in store && k !in done
    requires Listed(store, projectId, done, acc)
    ensures Listed(store, projectId, done + {k}, acc')
  {
    ListedStep(store, projectId, done, acc, k);
    if store[k].projectId == projectId then InsertNewestFirst(store[k], acc) else acc
  }

  lemma ListedAll(store: Store, projectId: Id, acc: seq<Task>)
    requires Listed(store, projectId, store.Keys, acc)
    ensures forall x | x in acc :: x.id in store && store[x.id] == x && x.projectId == projectId
    ensures forall k | k in store && store[k].projectId == projectId :: store[k] in acc
    ensures |acc| == |InProject(store, projectId)|
  {
    assert InProject(store, projectId) * store.Keys == InProject(store, projectId);
  }

  /** Visits every stored key once, inserting the tasks of `projectId`. */
  method CollectProject(store: Store, projectId: Id) returns (acc: seq<Task>)
    requires Valid(store)
    ensures Listed(store, projectId, store.Keys, acc)
  {
    var done: set<TaskId> := {};
    acc := [];
    while done != store.Keys
      invariant done <= store.Keys
      invariant Listed(store, projectId, done, acc)
      decreases store.Keys - done
    {
      assert (store.Keys - done) + done == store.Keys;
      var k :| k in store.Keys - done;
      acc := CollectStep(store, projectId, done, acc, k);
      done := done + {k};
    }
  }

  /** The tasks of `projectId`, newest first; an empty project id is a bad
      request. Every listed task is a stored task of that project and every
      stored task of that project is listed exactly once. */
  method GetAll(store: Store, projectId: Id) returns (r: Result<seq<Task>>)
    requires Valid(store)
    ensures projectId == "" <==> r == Failure(BadRequest)
    ensures r.Success? <==> projectId != ""
    ensures r.Success? ==> NewestFirst(r.value)
    ensures r.Success? ==> forall x | x in r.value ::
      x.id in store && store[x.id] == x && x.projectId == projectId
    ensures r.Success? ==> forall k | k in store && store[k].projectId == projectId :: store[k] in r.value
    ensures r.Success? ==> |r.value| == |InProject(store, projectId)|
  {
    if projectId == "" {
      return Failure(BadRequest);
    }
    var acc := CollectProject(store, projectId);
    ListedAll(store, projectId, acc);
    return Success(acc);
  }

  /** Looks a task up by id: an empty id is a bad request, an unknown one
      is not found. */
  function Get(store: Store, taskId: TaskId): (r: Result<Task>)
    ensures taskId == "" ==> r == Failure(BadRequest)
    ensures taskId != "" && taskId !in store ==> r == Failure(NotFound)
    ensures r.Success? <==> taskId != "" && taskId in store
    ensures r.Success? ==> r.value == store[taskId]
    ensures r.Success? && Valid(store) ==> r.value.id == taskId
  {
    if taskId == "" then Failure(BadRequest)
    else if taskId !in store then Failure(NotFound)
    else Success(store[taskId])
  }

  /** Deletes one task. Only its author may: anybody else, the assignee
      included, gets Forbidden; an unknown id is not found. */
  function Delete(store: Store, userId: UserId, taskId: TaskId): (r: Result<(Store, Task)>)
    ensures r.Success? <==> taskId in store && store[taskId].authorId == userId
    ensures taskId !in store ==> r == Failure(NotFound)
    ensures taskId in store && store[taskId].authorId != userId ==> r == Failure(Forbidden)
    ensures r.Success? ==> r.value.0.Keys == store.Keys - {taskId}
    ensures r.Success? ==> forall k | k in r.value.0 :: r.value.0[k] == store[k]
    ensures r.Success? ==> r.value.1 == store[taskId]
    ensures r.Success? && Valid(store) ==> Valid(r.value.0)
  {
    if taskId !in store then Failure(NotFound)
    else if store[taskId].authorId != userId then Failure(Forbidden)
    else Success((store - {taskId}, store[taskId]))
  }

  /** Being assigned to a task does not entitle its assignee to delete it. */
  lemma AssigneeCannotDelete(store: Store, userId: UserId, taskId: TaskId)
    requires taskId in store && store[taskId].assigneeId == Some(userId)
    requires store[taskId].authorId != userId
    ensures Delete(store, userId, taskId) == Failure(Forbidden)
  {
  }

  /** A deleted task can no longer be fetched. */
  lemma DeleteThenGet(store: Store, userId: UserId, taskId: TaskId)
    requires taskId != ""
    requires Delete(store, userId, taskId).Success?
    ensures Get(Delete(store, userId, taskId).value.0, taskId) == Failure(NotFound)
  {
  }

  /** The bulk-delete filter: in the given project and written by the caller. */
  predicate Owned(t: Task, userId: UserId, projectId: Id) {
    t.projectId == projectId && t.authorId == userId
  }

  /** Reference definition of the rows a bulk delete removes: the requested
      ids that exist, lie in the project and were written by the caller. */
  function Matching(store: Store, ids: seq<TaskId>, userId: UserId, projectId: Id): set<TaskId> {
    set k | k in store && k in ids && Owned(store[k], userId, projectId)
  }

  lemma MatchingStep(store: Store, ids: seq<TaskId>, userId: UserId, projectId: Id)
    requires ids != []
    ensures ids[0] in store && Owned(store[ids[0]], userId, projectId) ==>
      Matching(store, ids, userId, projectId)
        == {ids[0]} + Matching(store - {ids[0]}, ids[1..], userId, projectId)
    ensures !(ids[0] in store && Owned(store[ids[0]], userId, projectId)) ==>
      Matching(store, ids, userId, projectId) == Matching(store, ids[1..], userId, projectId)
  {
  }

  /** Removes the requested rows one id at a time and counts them; proved
      to agree with the set-based definition `Matching`. */
  function RemoveOwned(store: Store, ids: seq<TaskId>, userId: UserId, projectId: Id): (r: (Store, nat))
    ensures r.0 == store - Matching(store, ids, userId, projectId)
    ensures r.1 == |Matching(store, ids, userId, projectId)|
    decreases |ids|
  {
    if ids == [] then
      assert Matching(store, ids, userId, projectId) == {};
      (store, 0)
    else
      MatchingStep(store, ids, userId, projectId);
      var k := ids[0];
      if k in store && Owned(store[k], userId, projectId) then
        var rest := RemoveOwned(store - {k}, ids[1..], userId, projectId);
        assert k !in Matching(store - {k}, ids[1..], userId, projectId);
        assert store - Matching(store, ids, userId, projectId)
            == (store - {k}) - Matching(store - {k}, ids[1..], userId, projectId);
        (rest.0, rest.1 + 1)
      else
        RemoveOwned(store, ids[1..], userId, projectId)
  }

  lemma RemovedCount(store: Store, gone: set<TaskId>)
    requires gone <= store.Keys
    ensures |(store - gone).Keys| == |store.Keys| - |gone|
  {
  }

  /** Bulk delete with a list of ids: silently skips rows the caller did
      not write or that lie outside the project, and reports how many rows
      went, or a message when none did. It never fails. */
  function DeleteMany(store: Store, ids: seq<TaskId>, userId: UserId, projectId: Id): (r: (Store, BulkOutcome))
    ensures r.0.Keys == store.Keys - Matching(store, ids, userId, projectId)
    ensures forall k | k in r.0 :: r.0[k] == store[k]
    ensures forall k | k in store && k !in r.0 :: k in ids && Owned(store[k], userId, projectId)
    ensures r.1.Deleted? ==> r.1.count == |store| - |r.0| && r.1.count > 0
    ensures r.1.NothingDeleted? <==> r.0 == store
    ensures r.1.NothingDeleted? ==> r.1.message == NothingDeletedMessage
    ensures Valid(store) ==> Valid(r.0)
  {
    var (rest, n) := RemoveOwned(store, ids, userId, projectId);
    RemovedCount(store, Matching(store, ids, userId, projectId));
    if n == 0 then
      assert rest == store;
      (rest, NothingDeleted(NothingDeletedMessage))
    else
      assert rest.Keys != store.Keys;
      (rest, Deleted(n))
  }

  /** The bulk delete with the id filter dropped: every task of the caller
      in the project goes. */
  function DeleteAllOwned(store: Store, userId: UserId, projectId: Id): (r: (Store, BulkOutcome))
    ensures r.0.Keys == store.Keys - (set k | k in store && Owned(store[k], userId, projectId))
    ensures forall k | k in r.0 :: r.0[k] == store[k]
    ensures r.1.Deleted? ==> r.1.count == |store| - |r.0| && r.1.count > 0
    ensures r.1.NothingDeleted? <==> r.0 == store
    ensures r.1.NothingDeleted? ==> r.1.message == NothingDeletedMessage
  {
    var all := set k | k in store && Owned(store[k], userId, projectId);
    var rest := store - all;
    RemovedCount(store, all);
    if |all| == 0 then
      assert rest == store;
      (rest, NothingDeleted(NothingDeletedMessage))
    else
      assert rest.Keys != store.Keys;
      (rest, Deleted(|all|))
  }

  /** The bulk delete as the service is called when the request body has
      no `ids` field: the `in` filter becomes undefined, the ORM drops it,
      and every task of the caller in the project matches. */
  function DeleteManyAsWritten(store: Store, ids: Option<seq<TaskId>>, userId: UserId, projectId: Id): (r: (Store, BulkOutcome))
    ensures ids.Some? ==> r == DeleteMany(store, ids.value, userId, projectId)
    ensures ids.None? ==> forall k | k in store && Owned(store[k], userId, projectId) :: k !in r.0
    ensures forall k | k in store && k !in r.0 :: Owned(store[k], userId, projectId)
    ensures forall k | k in r.0 :: k in store && r.0[k] == store[k]
    ensures r.1.Deleted? ==> r.1.count == |store| - |r.0| && r.1.count > 0
    ensures r.1.NothingDeleted? <==> r.0 == store
    ensures Valid(store) ==> Valid(r.0)
  {
    match ids
    case Some(list) => DeleteMany(store, list, userId, projectId)
    case None => DeleteAllOwned(store, userId, projectId)
  }

  /** A body without `ids` deletes a task nobody asked to delete. */
  lemma MissingIdsDeletesUnrequestedTask()
    ensures var t := Task("t1", "a", None, None, None, "w", "p", "u", None, None, 0);
      var (store', outcome) := DeleteManyAsWritten(map["t1" := t], None, "u", "p");
      "t1" !in store' && outcome == Deleted(1)
  {
    var t := Task("t1", "a", None, None, None, "w", "p", "u", None, None, 0);
    var all := set k | k in map["t1" := t] && Owned(map["t1" := t][k], "u", "p");
    assert all == {"t1"};
  }

  /** Corrected bulk delete: a missing id list requests nothing, so only
      listed tasks can ever be removed. */
  function DeleteManyRequested(store: Store, ids: Option<seq<TaskId>>, userId: UserId, projectId: Id): (r: (Store, BulkOutcome))
    ensures forall k | k in store && k !in r.0 :: ids.Some? && k in ids.value && Owned(store[k], userId, projectId)
    ensures forall k | k in r.0 :: k in store && r.0[k] == store[k]
    ensures ids.None? ==> r == (store, NothingDeleted(NothingDeletedMessage))
    ensures ids.Some? ==> r == DeleteMany(store, ids.value, userId, projectId)
    ensures Valid(store) ==> Valid(r.0)
  {
    match ids
    case Some(list) => DeleteMany(store, list, userId, projectId)
    case None =>
      var r := DeleteMany(store, [], userId, projectId);
      assert Matching(store, [], userId, projectId) == {};
      r
  }

  /** The author and the current assignee may change a task. */
  predicate MayUpdate(t: Task, userId: UserId) {
    t.authorId == userId || t.assigneeId == Some(userId)
  }

  /** The assignee after an update: an absent field keeps it, `null` or an
      empty string disconnects it, any other id connects that user. */
  function NewAssignee(current: Option<UserId>, field: Field<UserId>): (r: Option<UserId>)
    ensures field.Absent? ==> r == current
    ensures field.Null? ==> r == None
    ensures field.Given? ==> (r.Some? <==> field.value != "")
    ensures r.Some? && !field.Absent? ==> r.value == field.value
  {
    match field
    case Absent => current
    case Null => None
    case Given(a) => if a != "" then Some(a) else None
  }

  /** A nullable column after an update: an absent field keeps it, `null`
      clears it, a value replaces it. */
  function Patched<T>(current: Option<T>, field: Field<T>): (r: Option<T>)
    ensures field.Absent? ==> r == current
    ensures field.Null? ==> r == None
    ensures field.Given? ==> r == Some(field.value)
  {
    match field
    case Absent => current
    case Null => None
    case Given(v) => Some(v)
  }

  /** The task after applying an update body. `projectId` is taken out of
      the body before the rest is written, so the project never changes; id,
      author, workspace and creation time are not fields of the body and
      stay as they were. A falsy due date leaves the old one. */
  function ApplyUpdate(t: Task, dto: UpdateTaskInput): (r: Task)
    ensures r.id == t.id && r.authorId == t.authorId && r.projectId == t.projectId
    ensures r.workspaceId == t.workspaceId && r.createdAt == t.createdAt
    ensures r.assigneeId == NewAssignee(t.assigneeId, dto.assigneeId)
    ensures r.dueDate == if Truthy(dto.dueDate) then dto.dueDate else t.dueDate
    ensures r.title == if dto.title.Some? then dto.title.value else t.title
    ensures r.description == Patched(t.description, dto.description)
    ensures r.status == Patched(t.status, dto.status)
    ensures r.priority == Patched(t.priority, dto.priority)
  {
    t.(
      title := if dto.title.Some? then dto.title.value else t.title,
      description := Patched(t.description, dto.description),
      status := Patched(t.status, dto.status),
      priority := Patched(t.priority, dto.priority),
      dueDate := if Truthy(dto.dueDate) then dto.dueDate else t.dueDate,
      assigneeId := NewAssignee(t.assigneeId, dto.assigneeId))
  }

  /** Updates a task on behalf of `userId`: unknown ids are not found,
      callers who are neither author nor assignee are forbidden, and only
      the one task changes. */
  function Update(store: Store, userId: UserId, taskId: TaskId, dto: UpdateTaskInput): (r: Result<(Store, Task)>)
    ensures r.Success? <==> taskId in store && MayUpdate(store[taskId], userId)
    ensures taskId !in store ==> r == Failure(NotFound)
    ensures taskId in store && !MayUpdate(store[taskId], userId) ==> r == Failure(Forbidden)
    ensures r.Success? ==> r.value.0 == store[taskId := r.value.1]
    ensures r.Success? ==> r.value.1 == ApplyUpdate(store[taskId], dto)
    ensures r.Success? && Valid(store) ==> Valid(r.value.0)
  {
    if taskId !in store then Failure(NotFound)
    else
      var t := store[taskId];
      if !MayUpdate(t, userId) then Failure(Forbidden)
      else
        var t' := ApplyUpdate(t, dto);
        Success((store[taskId := t'], t'))
  }

  /** Whatever `projectId` an update body carries, it has no effect. */
  lemma UpdateIgnoresProjectId(t: Task, dto: UpdateTaskInput, p: Option<Id>)
    ensures ApplyUpdate(t, dto.(projectId := p)) == ApplyUpdate(t, dto)
  {
  }

  /** Sending the same update body twice leaves the task as sending it once. */
  lemma ApplyUpdateIdempotent(t: Task, dto: UpdateTaskInput)
    ensures ApplyUpdate(ApplyUpdate(t, dto), dto) == ApplyUpdate(t, dto)
  {
  }

  /** An assignee who is not the author and hands the task to somebody
      else loses the right to update it any further. */
  lemma AssigneeHandOff(store: Store, userId: UserId, taskId: TaskId, dto: UpdateTaskInput, next: UserId, dto2: UpdateTaskInput)
    requires taskId in store && store[taskId].authorId != userId
    requires store[taskId].assigneeId == Some(userId)
    requires dto.assigneeId == Given(next) && next != "" && next != userId
    ensures Update(store, userId, taskId, dto).Success?
    ensures Update(Update(store, userId, taskId, dto).value.0, userId, taskId, dto2) == Failure(Forbidden)
  {
  }

  /** In a valid store a caller with an empty id can neither delete nor
      update anything. */
  lemma EmptyCallerOwnsNothing(store: Store, taskId: TaskId, dto: UpdateTaskInput)
    requires Valid(store)
    ensures Delete(store, "", taskId).Failure?
    ensures Update(store, "", taskId, dto).Failure?
  {
  }
}
