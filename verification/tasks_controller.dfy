/** The task routes under `workspaces/:workspaceId/projects/:projectId/tasks`.
    Every route runs the JWT guard first and the roles guard second; the
    roles each route admits form a plain lookup table. The handler then
    calls the task service with the logged-in user's id, never an id taken
    from the body. */
module TasksController {
  import opened Common
  import opened TasksService
  import JwtStrategy

  /** Membership roles, spelled in tokens as their upper-case names. */
  datatype Role = OWNER | ADMIN | MEMBER

  function RoleName(r: Role): string {
    match r
    case OWNER => "OWNER"
    case ADMIN => "ADMIN"
    case MEMBER => "MEMBER"
  }

  /** The role a token's `role` claim names, if it names one. */
  function ParseRole(s: string): (r: Option<Role>)
    ensures r.Some? ==> RoleName(r.value) == s
    ensures r.None? ==> forall x :: RoleName(x) != s
  {
    if s == "OWNER" then Some(OWNER)
    else if s == "ADMIN" then Some(ADMIN)
    else if s == "MEMBER" then Some(MEMBER)
    else None
  }

  lemma ParseRoleName(x: Role)
    ensures ParseRole(RoleName(x)) == Some(x)
  {
  }

  datatype Route = CreateTask | ListTasks | GetTask | DeleteTasks | DeleteTask | UpdateTask

  /** The roles each route declares; `None` is a route that declares none
      and is open to every authenticated caller. */
  function RequiredRoles(route: Route): (r: Option<set<Role>>)
    ensures r.None? <==> route == DeleteTasks
    ensures r.Some? ==> OWNER in r.value && ADMIN in r.value
    ensures r.Some? ==> (MEMBER in r.value <==> route != CreateTask)
  {
    match route
    case CreateTask => Some({OWNER, ADMIN})
    case ListTasks => Some({OWNER, ADMIN, MEMBER})
    case GetTask => Some({OWNER, ADMIN, MEMBER})
    case DeleteTasks => None
    case DeleteTask => Some({OWNER, ADMIN, MEMBER})
    case UpdateTask => Some({OWNER, ADMIN, MEMBER})
  }

  /** The roles guard: admits the principal when the route declares no
      roles or the principal's role is among them; otherwise Forbidden. */
  function RolesGate(pr: JwtStrategy.Principal, route: Route): (r: Result<JwtStrategy.Principal>)
    ensures r.Success? <==>
      RequiredRoles(route).None? || exists x :: x in RequiredRoles(route).value && RoleName(x) == pr.role
    ensures r.Failure? ==> r.error == Forbidden
    ensures r.Success? ==> r.value == pr
  {
    match RequiredRoles(route)
    case None => Success(pr)
    case Some(roles) =>
      var role := ParseRole(pr.role);
      if role.Some? && role.value in roles then Success(pr) else Failure(Forbidden)
  }

  /** The guard chain `JwtAuthGuard, RolesGuard`: authentication first,
      and the roles guard only for an authenticated principal. */
  function Guard(authorization: Option<string>, verify: string -> Option<JwtStrategy.VerifiedToken>,
                 nowSeconds: int, route: Route): (r: Result<JwtStrategy.Principal>)
    ensures JwtStrategy.Authenticate(authorization, verify, nowSeconds).Failure? ==> r == Failure(Unauthenticated)
    ensures r.Success? <==>
      && JwtStrategy.Authenticate(authorization, verify, nowSeconds).Success?
      && RolesGate(JwtStrategy.Authenticate(authorization, verify, nowSeconds).value, route).Success?
    ensures r.Success? ==> r.value == JwtStrategy.Authenticate(authorization, verify, nowSeconds).value
    ensures r.Failure? && r.error != Unauthenticated ==> r.error == Forbidden
  {
    var pr :- JwtStrategy.Authenticate(authorization, verify, nowSeconds);
    RolesGate(pr, route)
  }

  /** A member may read, update and delete through the routes but may not
      create; owners and admins may do everything. */
  lemma RoleTable(pr: JwtStrategy.Principal, route: Route)
    ensures pr.role == "MEMBER" ==> (RolesGate(pr, route).Success? <==> route != CreateTask)
    ensures pr.role == "OWNER" || pr.role == "ADMIN" ==> RolesGate(pr, route).Success?
  {
  }

  /** The bulk delete declares no roles, so any authenticated caller, even
      one whose role claim names no role, passes the roles guard. */
  lemma BulkDeleteDeclaresNoRoles(pr: JwtStrategy.Principal)
    ensures RolesGate(pr, DeleteTasks) == Success(pr)
  {
  }

  /** A caller whose role claim names no role reaches only the bulk delete. */
  lemma UnknownRoleReachesOnlyBulkDelete(pr: JwtStrategy.Principal, route: Route)
    requires ParseRole(pr.role).None?
    ensures RolesGate(pr, route).Success? <==> route == DeleteTasks
  {
  }

  /** A request to one of the task routes, with its path parameters. */
  datatype Request =
    | CreateTaskRequest(workspaceId: Id, projectId: Id, body: Option<CreateTaskInput>)
    | ListTasksRequest(workspaceId: Id, projectId: Id)
    | GetTaskRequest(workspaceId: Id, projectId: Id, taskId: TaskId)
    | DeleteTasksRequest(workspaceId: Id, projectId: Id, ids: Option<seq<TaskId>>)
    | DeleteTaskRequest(workspaceId: Id, projectId: Id, taskId: TaskId)
    | UpdateTaskRequest(workspaceId: Id, projectId: Id, taskId: TaskId, update: UpdateTaskInput)

  function RouteOf(req: Request): Route {
    match req
    case CreateTaskRequest(_, _, _) => CreateTask
    case ListTasksRequest(_, _) => ListTasks
    case GetTaskRequest(_, _, _) => GetTask
    case DeleteTasksRequest(_, _, _) => DeleteTasks
    case DeleteTaskRequest(_, _, _) => DeleteTask
    case UpdateTaskRequest(_, _, _, _) => UpdateTask
  }

  datatype Response = OneTask(task: Task) | TaskList(tasks: seq<Task>) | BulkDeleted(outcome: BulkOutcome)

  /** Wraps a service result that returns a single task. */
  function AsResponse(r: Result<(Store, Task)>): Result<(Store, Response)> {
    match r
    case Success((s, t)) => Success((s, OneTask(t)))
    case Failure(e) => Failure(e)
  }

  /** Wraps a lookup, which leaves the store as it was. */
  function Fetched(store: Store, r: Result<Task>): Result<(Store, Response)> {
    match r
    case Success(t) => Success((store, OneTask(t)))
    case Failure(e) => Failure(e)
  }

  /** Handles one request against the task store. The database supplies
      the id and creation time of a new task (`newTaskId`, `nowMs`).

      Beyond what each route does, the contract states the system-wide
      ownership rules: only a task's author ever removes it, the author and
      project of a task never change, a task changes only on behalf of its
      author or assignee, and a new task is authored by the caller. */
  method Handle(store: Store, authorization: Option<string>, verify: string -> Option<JwtStrategy.VerifiedToken>,
                nowSeconds: int, newTaskId: TaskId, nowMs: int, req: Request)
    returns (r: Result<(Store, Response)>)
    requires Valid(store)
    requires newTaskId !in store
    ensures JwtStrategy.Authenticate(authorization, verify, nowSeconds).Failure? ==> r == Failure(Unauthenticated)
    ensures Guard(authorization, verify, nowSeconds, RouteOf(req)).Failure? ==>
      r == Failure(Guard(authorization, verify, nowSeconds, RouteOf(req)).error)
    ensures r.Success? ==> Guard(authorization, verify, nowSeconds, RouteOf(req)).Success?
    ensures r.Success? ==> Valid(r.value.0)
    ensures r.Success? ==>
      var caller := Guard(authorization, verify, nowSeconds, RouteOf(req)).value.userId;
      var store' := r.value.0;
      && (forall k | k in store && k !in store' :: store[k].authorId == caller)
      && (forall k | k in store && k in store' ::
            store'[k].authorId == store[k].authorId && store'[k].projectId == store[k].projectId)
      && (forall k | k in store && k in store' && store'[k] != store[k] :: MayUpdate(store[k], caller))
      && (forall k | k in store' && k !in store ::
            k == newTaskId && req.CreateTaskRequest? && store'[k].authorId == caller)
    ensures Guard(authorization, verify, nowSeconds, RouteOf(req)).Success? ==>
      var caller := Guard(authorization, verify, nowSeconds, RouteOf(req)).value.userId;
      match req
      case CreateTaskRequest(w, _, body) => r == AsResponse(Create(store, caller, body, w, newTaskId, nowMs))
      case ListTasksRequest(_, p) =>
        && (r.Success? <==> p != "")
        && (r.Failure? ==> r.error == BadRequest)
        && (r.Success? ==> r.value.0 == store && r.value.1.TaskList?
                           && NewestFirst(r.value.1.tasks)
                           && |r.value.1.tasks| == |InProject(store, p)|
                           && (forall k | k in store && store[k].projectId == p :: store[k] in r.value.1.tasks)
                           && forall x | x in r.value.1.tasks :: x.projectId == p && x.id in store && store[x.id] == x)
      case GetTaskRequest(_, _, id) => r == Fetched(store, Get(store, id))
      case DeleteTasksRequest(_, p, ids) =>
        r == Success((DeleteManyAsWritten(store, ids, caller, p).0, BulkDeleted(DeleteManyAsWritten(store, ids, caller, p).1)))
      case DeleteTaskRequest(_, _, id) => r == AsResponse(Delete(store, caller, id))
      case UpdateTaskRequest(_, _, id, dto) => r == AsResponse(Update(store, caller, id, dto))
  {
    var principal :- Guard(authorization, verify, nowSeconds, RouteOf(req));
    var caller := principal.userId;
    match req {
      case CreateTaskRequest(w, _, body) =>
        r := AsResponse(Create(store, caller, body, w, newTaskId, nowMs));
      case ListTasksRequest(_, p) =>
        var tasks := GetAll(store, p);
        match tasks {
          case Success(ts) => r := Success((store, TaskList(ts)));
          case Failure(e) => r := Failure(e);
        }
      case GetTaskRequest(_, _, id) =>
        r := Fetched(store, Get(store, id));
      case DeleteTasksRequest(_, p, ids) =>
        var (store', outcome) := DeleteManyAsWritten(store, ids, caller, p);
        r := Success((store', BulkDeleted(outcome)));
      case DeleteTaskRequest(_, _, id) =>
        r := AsResponse(Delete(store, caller, id));
      case UpdateTaskRequest(_, _, id, dto) =>
        r := AsResponse(Update(store, caller, id, dto));
    }
  }
}
