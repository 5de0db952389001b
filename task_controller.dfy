/**
 * The task endpoints: list, create, fetch, update and delete, each behind the role
 * gate, each answering with a status and, on success, a body.
 */
module TaskApi {
  import opened Optional
  import opened TaskModel
  import opened TaskStore
  import opened Access

  /** What a handler answers: 200 with a body, 404, or the gate's 401 or 403. */
  datatype Response<T> = Ok(body: T) | NotFound | Unauthorized | Forbidden

  /** The answer for a call the gate turned away. */
  function Denied<T>(d: Decision): (r: Response<T>)
    requires d != Allow
    ensures r.Unauthorized? <==> d.Unauthenticated?
    ensures r.Forbidden? <==> d.LacksRole?
  {
    if d == Unauthenticated then Unauthorized else Forbidden
  }

  class TaskController {
    const repo: TaskRepository

    constructor (repo: TaskRepository)
      ensures this.repo == repo
    {
      this.repo := repo;
    }

    /** GET /tasks: every stored task, one per row, and nothing else. */
    function GetAllTasks(caller: Caller): (r: Response<set<TaskRecord>>)
      reads repo
      requires repo.Valid()
      ensures Gate(Operation.GetAllTasks, caller) != Allow ==> r == Denied(Gate(Operation.GetAllTasks, caller))
      ensures Gate(Operation.GetAllTasks, caller) == Allow ==> r.Ok?
      ensures r.Ok? ==> |r.body| == |repo.rows| && forall t :: t in r.body <==> Stored(repo.rows, t)
    {
      var d := Gate(Operation.GetAllTasks, caller);
      if d != Allow then Denied(d) else Ok(repo.Table().FindAll())
    }

    /** GET /tasks/{id}: the row under `id`, or 404 when there is none. */
    function GetTaskById(caller: Caller, id: int): (r: Response<TaskRecord>)
      reads repo
      requires repo.Valid()
      ensures Gate(Operation.GetTaskById, caller) != Allow ==> r == Denied(Gate(Operation.GetTaskById, caller))
      ensures Gate(Operation.GetTaskById, caller) == Allow ==> (r.Ok? <==> id in repo.rows)
      ensures Gate(Operation.GetTaskById, caller) == Allow && id !in repo.rows ==> r == NotFound
      ensures r.Ok? ==> r.body.id == Some(id) && Stored(repo.rows, r.body)
    {
      var d := Gate(Operation.GetTaskById, caller);
      if d != Allow then Denied(d)
      else
        match repo.Table().FindById(id)
        case Some(task) => Ok(task)
        case None => NotFound
    }

    /** POST /tasks: the body is saved; a body without an id gets the next key, and the table grows by that one row. */
    method CreateTask(caller: Caller, body: TaskRecord) returns (r: Response<TaskRecord>)
      requires repo.Valid()
      modifies repo
      ensures repo.Valid()
      ensures Gate(Operation.CreateTask, caller) != Allow ==>
                r == Denied(Gate(Operation.CreateTask, caller)) && unchanged(repo)
      ensures Gate(Operation.CreateTask, caller) == Allow ==>
                r.Ok? && (repo.Table(), r.body) == old(repo.Table()).Save(body)
      ensures Gate(Operation.CreateTask, caller) == Allow && body.id == None ==>
                && r.Ok? && r.body == body.(id := Some(old(repo.nextId)))
                && old(repo.nextId) !in old(repo.rows)
                && repo.rows == old(repo.rows)[old(repo.nextId) := r.body]
    {
      var d := Gate(Operation.CreateTask, caller);
      if d != Allow {
        return Denied(d);
      }
      var saved := repo.Save(body);
      r := Ok(saved);
    }

    /**
     * PUT /tasks/{id}: the stored task's title, description and flag are overwritten
     * from the body through the entity's setters, its id is kept, and every other row
     * stays; 404 and no save when there is no row under `id`.
     */
    method UpdateTask(caller: Caller, id: int, updated: TaskRecord) returns (r: Response<TaskRecord>)
      requires repo.Valid()
      modifies repo
      ensures repo.Valid()
      ensures Gate(Operation.UpdateTask, caller) != Allow ==>
                r == Denied(Gate(Operation.UpdateTask, caller)) && unchanged(repo)
      ensures Gate(Operation.UpdateTask, caller) == Allow && id !in old(repo.rows) ==>
                r == NotFound && unchanged(repo)
      ensures Gate(Operation.UpdateTask, caller) == Allow && id in old(repo.rows) ==>
                && r.Ok?
                && r.body.id == Some(id)
                && r.body.title == updated.title
                && r.body.description == updated.description
                && r.body.completed == updated.completed
                && repo.rows == old(repo.rows)[id := r.body]
                && repo.nextId == old(repo.nextId)
    {
      var d := Gate(Operation.UpdateTask, caller);
      if d != Allow {
        return Denied(d);
      }
      var task := repo.FindEntityById(id);
      if task == null {
        return NotFound;
      }
      task.SetTitle(updated.title);
      task.SetDescription(updated.description);
      task.SetCompleted(updated.completed);
      var saved := repo.Save(task.Snapshot());
      r := Ok(saved);
    }

    /** DELETE /tasks/{id}: the row under `id` is removed and nothing else changes; 404 and no change when there is none. */
    method DeleteTask(caller: Caller, id: int) returns (r: Response<()>)
      requires repo.Valid()
      modifies repo
      ensures repo.Valid()
      ensures Gate(Operation.DeleteTask, caller) != Allow ==>
                r == Denied(Gate(Operation.DeleteTask, caller)) && unchanged(repo)
      ensures Gate(Operation.DeleteTask, caller) == Allow && id !in old(repo.rows) ==>
                r == NotFound && unchanged(repo)
      ensures Gate(Operation.DeleteTask, caller) == Allow && id in old(repo.rows) ==>
                && r == Ok(())
                && repo.rows.Keys == old(repo.rows).Keys - {id}
                && (forall k :: k in repo.rows ==> repo.rows[k] == old(repo.rows)[k])
                && repo.nextId == old(repo.nextId)
    {
      var d := Gate(Operation.DeleteTask, caller);
      if d != Allow {
        return Denied(d);
      }
      if repo.Table().ExistsById(id) {
        repo.DeleteById(id);
        r := Ok(());
      } else {
        r := NotFound;
      }
    }
  }

  /**
   * A delete request from any caller not granted ROLE_ADMIN is refused, 401 when there
   * is no caller and 403 otherwise, and the table is left as it was.
   */
  method NonAdminDeleteIsRefused(controller: TaskController, caller: Caller, id: int) returns (r: Response<()>)
    requires controller.repo.Valid()
    requires caller.Authenticated? ==> Authority(Admin) !in caller.authorities
    modifies controller.repo
    ensures r.Unauthorized? <==> caller.Anonymous?
    ensures r.Forbidden? <==> caller.Authenticated?
    ensures unchanged(controller.repo)
  {
    OnlyAdminsDelete(caller);
    r := controller.DeleteTask(caller, id);
  }

  /** In particular a member's delete request gets 403 and deletes nothing. */
  method MemberDeleteIsForbidden(controller: TaskController, id: int) returns (r: Response<()>)
    requires controller.repo.Valid()
    modifies controller.repo
    ensures r.Forbidden? && unchanged(controller.repo)
  {
    r := NonAdminDeleteIsRefused(controller, Authenticated([Authority(Member)]), id);
  }

}
