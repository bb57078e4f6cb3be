/** The task and project store and the operations of the task and project
    controllers on it. The store holds the two collections as maps from id
    to record; the caller's id and the clock are parameters of every
    operation. Every read and write is scoped by ownership as the source
    scopes it, except `FindProject`, which checks existence only. */
module Tracker {
  import opened Common
  import opened Records
  import opened Timer

  const TaskNotFound: string := "Task not found or unauthorized"
  const TitleAndProjectRequired: string := "Title and projectId are required"
  const TaskValidationFailed: string := "Task validation failed"
  const ProjectIdRequired: string := "projectId query param is required"
  const InvalidProject: string := "Unauthorized or invalid project"
  const ProjectNotFound: string := "Project not found or unauthorized"
  const ProjectMissing: string := "Project not found"
  const AllFieldsRequired: string := "All fields are required"

  /** `status || "todo"`. */
  function StatusOrDefault(status: Option<string>): (s: string)
    ensures Given(status) ==> s == status.value
    ensures !Given(status) ==> s == Todo
  {
    if Given(status) then status.value else Todo
  }

  /** `Project.findByIdAndUpdate(p, { isRunning: b })`: sets the flag of
      project `p` whoever owns it, and silently does nothing when there is
      no such project. */
  function SetRunning(projects: map<ProjectId, Project>, p: ProjectId, b: bool)
    : (r: map<ProjectId, Project>)
    ensures r.Keys == projects.Keys
    ensures forall q :: q in projects && q != p ==> r[q] == projects[q]
    ensures p in projects ==> r[p] == projects[p].(isRunning := b)
  {
    if p in projects then projects[p := projects[p].(isRunning := b)] else projects
  }

  /** `Task.find({ project: p, isRunning: true, user: u })`. */
  function RunningTasks(tasks: map<TaskId, Task>, p: ProjectId, u: UserId): set<TaskId>
  {
    set k | k in tasks && tasks[k].project == p && tasks[k].isRunning && tasks[k].user == u
  }

  /** The sibling query run after a stop is saved finds exactly the tasks
      it would have found before, less the stopped one. */
  lemma RunningAfterStop(tasks: map<TaskId, Task>, id: TaskId, now: int, p: ProjectId, u: UserId)
    requires id in tasks
    ensures var t := tasks[id];
      RunningTasks(tasks[id := Stopped(t, now)], p, u)
      == if Stoppable(t) then RunningTasks(tasks, p, u) - {id} else RunningTasks(tasks, p, u)
  {
    var t := tasks[id];
    var saved := tasks[id := Stopped(t, now)];
    if Stoppable(t) {
      assert id !in RunningTasks(saved, p, u);
      forall k | k != id ensures k in RunningTasks(saved, p, u) <==> k in RunningTasks(tasks, p, u) {
        assert k in saved <==> k in tasks;
      }
    } else {
      assert saved == tasks;
    }
  }

  /** The projects after starting task `t`: nothing is written when it was
      already running; otherwise its project's flag is set unconditionally. */
  function ProjectsAfterStart(projects: map<ProjectId, Project>, t: Task)
    : (r: map<ProjectId, Project>)
    ensures t.isRunning ==> r == projects
    ensures !t.isRunning ==> r == SetRunning(projects, t.project, true)
    ensures !t.isRunning && t.project in projects ==> t.project in r && r[t.project].isRunning
  {
    if t.isRunning then projects else SetRunning(projects, t.project, true)
  }

  /** The projects after stopping task `t` for `caller`, given the tasks as
      saved: nothing is written when the stop was a no-op; otherwise the flag
      is cleared iff no task of the caller in that project still runs, and
      left untouched when one does. */
  function ProjectsAfterStop(projects: map<ProjectId, Project>, saved: map<TaskId, Task>,
                             t: Task, caller: UserId): (r: map<ProjectId, Project>)
    ensures !Stoppable(t) ==> r == projects
    ensures Stoppable(t) && RunningTasks(saved, t.project, caller) == {} ==>
      r == SetRunning(projects, t.project, false)
    ensures Stoppable(t) && RunningTasks(saved, t.project, caller) != {} ==> r == projects
  {
    if !Stoppable(t) then projects
    else if RunningTasks(saved, t.project, caller) == {} then SetRunning(projects, t.project, false)
    else projects
  }

  /** The cached flag of project `p` says whether some task of the project's
      owner in `p` is running. */
  ghost predicate FlagSynced(tasks: map<TaskId, Task>, projects: map<ProjectId, Project>, p: ProjectId)
  {
    p in projects ==> (projects[p].isRunning <==> RunningTasks(tasks, p, projects[p].user) != {})
  }

  /** Starting a task of the project's owner leaves the flag in sync (for a
      stopped task whatever it was before: the flag is set and the task now
      runs). */
  lemma StartKeepsFlagSynced(tasks: map<TaskId, Task>, projects: map<ProjectId, Project>,
                             id: TaskId, now: int)
    requires id in tasks
    requires tasks[id].project in projects ==> projects[tasks[id].project].user == tasks[id].user
    requires tasks[id].isRunning ==> FlagSynced(tasks, projects, tasks[id].project)
    ensures FlagSynced(tasks[id := Started(tasks[id], now)],
                       ProjectsAfterStart(projects, tasks[id]), tasks[id].project)
  {
    var t := tasks[id];
    var after := tasks[id := Started(t, now)];
    if !t.isRunning && t.project in projects {
      assert id in RunningTasks(after, t.project, projects[t.project].user);
    }
  }

  /** Stopping a task of the project's owner keeps the flag in sync: when
      it was the last running one the flag is cleared; when another still
      runs, the flag was already set and stays set. */
  lemma StopKeepsFlagSynced(tasks: map<TaskId, Task>, projects: map<ProjectId, Project>,
                            id: TaskId, now: int)
    requires id in tasks
    requires tasks[id].project in projects ==> projects[tasks[id].project].user == tasks[id].user
    requires FlagSynced(tasks, projects, tasks[id].project)
    ensures var saved := tasks[id := Stopped(tasks[id], now)];
      FlagSynced(saved, ProjectsAfterStop(projects, saved, tasks[id], tasks[id].user), tasks[id].project)
  {
    var t := tasks[id];
    var p := t.project;
    if Stoppable(t) && p in projects {
      assert id in RunningTasks(tasks, p, projects[p].user);
    }
  }

  /** What the cascade leaves: the tasks of every other project, and none of
      project `p`, whoever owns them. */
  function WithoutProject(tasks: map<TaskId, Task>, p: ProjectId): (r: map<TaskId, Task>)
    ensures forall k :: k in r <==> k in tasks && tasks[k].project != p
    ensures forall k :: k in r ==> r[k] == tasks[k]
  {
    map k | k in tasks && tasks[k].project != p :: tasks[k]
  }

  class Store {
    var tasks: map<TaskId, Task>
    var projects: map<ProjectId, Project>
    var nextId: nat

    /** Every stored id was handed out before: the next one is fresh. */
    ghost predicate Valid()
      reads this
    {
      (forall k :: k in tasks ==> k < nextId) && (forall k :: k in projects ==> k < nextId)
    }

    constructor ()
      ensures Valid() && tasks == map[] && projects == map[]
    {
      tasks := map[];
      projects := map[];
      nextId := 0;
    }

    predicate OwnsTask(id: TaskId, caller: UserId)
      reads this
    {
      id in tasks && tasks[id].user == caller
    }

    predicate OwnsProject(id: ProjectId, caller: UserId)
      reads this
    {
      id in projects && projects[id].user == caller
    }

    /** A new document id, unused in both collections. */
    method FreshId() returns (id: nat)
      requires Valid()
      modifies this`nextId
      ensures Valid() && id !in tasks && id !in projects && id < nextId
    {
      id := nextId;
      nextId := nextId + 1;
    }

    // -------------------------------------------------------------------
    // Task controller

    /** `createTask`: title and project id are required; the project must
        exist and belong to the caller; the status defaults to "todo" and
        must be one the schema admits; the task belongs to the caller. */
    method CreateTask(caller: UserId, title: Option<string>, description: Option<string>,
                      status: Option<string>, projectId: Option<ProjectId>, now: int)
      returns (r: Result<TaskId>)
      requires Valid()
      modifies this
      ensures Valid() && projects == old(projects)
      ensures !Given(title) || projectId.None? ==> r == Err(TitleAndProjectRequired)
      ensures Given(title) && projectId.Some? && !old(OwnsProject(projectId.value, caller)) ==>
        r == Err(ProjectNotFound)
      ensures (Given(title) && projectId.Some? && old(OwnsProject(projectId.value, caller)) &&
               !IsStatus(StatusOrDefault(status))) ==> r == Err(TaskValidationFailed)
      ensures r.Err? ==> tasks == old(tasks)
      ensures r.Ok? <==> (Given(title) && projectId.Some? && old(OwnsProject(projectId.value, caller)) &&
                          IsStatus(StatusOrDefault(status)))
      ensures r.Ok? ==> r.value !in old(tasks) && tasks == old(tasks)[r.value :=
        NewTask(title.value, description, StatusOrDefault(status), projectId.value, caller, now)]
    {
      if !Given(title) || projectId.None? {
        return Err(TitleAndProjectRequired);
      }
      if !OwnsProject(projectId.value, caller) {
        return Err(ProjectNotFound);
      }
      var s := StatusOrDefault(status);
      if !IsStatus(s) {
        return Err(TaskValidationFailed);
      }
      var id := FreshId();
      tasks := tasks[id := NewTask(title.value, description, s, projectId.value, caller, now)];
      r := Ok(id);
    }

    /** `getTasks`: the caller's tasks in a project the caller owns. */
    function GetTasks(projectId: Option<ProjectId>, caller: UserId): (r: Result<map<TaskId, Task>>)
      reads this
      ensures projectId.None? ==> r == Err(ProjectIdRequired)
      ensures projectId.Some? && !OwnsProject(projectId.value, caller) ==> r == Err(InvalidProject)
      ensures r.Ok? <==> projectId.Some? && OwnsProject(projectId.value, caller)
      ensures r.Ok? ==> forall k :: k in r.value <==>
        k in tasks && tasks[k].project == projectId.value && tasks[k].user == caller
      ensures r.Ok? ==> forall k :: k in r.value ==> r.value[k] == tasks[k]
    {
      if projectId.None? then Err(ProjectIdRequired)
      else if !OwnsProject(projectId.value, caller) then Err(InvalidProject)
      else Ok(map k | k in tasks && tasks[k].project == projectId.value && tasks[k].user == caller
                :: tasks[k])
    }

    /** `getTaskById`: the task when it exists and is the caller's. */
    function GetTaskById(id: TaskId, caller: UserId): (r: Result<Task>)
      reads this
      ensures r.Ok? <==> OwnsTask(id, caller)
      ensures r.Ok? ==> r.value == tasks[id]
      ensures r.Err? ==> r.msg == TaskNotFound
    {
      if OwnsTask(id, caller) then Ok(tasks[id]) else Err(TaskNotFound)
    }

    /** `updateTask`: applies the body to the task matching (id, caller). */
    method UpdateTask(id: TaskId, caller: UserId, patch: TaskPatch, now: int)
      returns (r: Result<Task>)
      requires Valid()
      modifies this
      ensures Valid() && projects == old(projects)
      ensures !old(OwnsTask(id, caller)) ==> r == Err(TaskNotFound) && tasks == old(tasks)
      ensures old(OwnsTask(id, caller)) ==>
        r == Ok(ApplyTaskPatch(old(tasks)[id], patch, now)) && tasks == old(tasks)[id := r.value]
    {
      if !OwnsTask(id, caller) {
        return Err(TaskNotFound);
      }
      var t := ApplyTaskPatch(tasks[id], patch, now);
      tasks := tasks[id := t];
      r := Ok(t);
    }

    /** `deleteTask`: removes the task matching (id, caller). */
    method DeleteTask(id: TaskId, caller: UserId) returns (r: Result<()>)
      requires Valid()
      modifies this
      ensures Valid() && projects == old(projects)
      ensures !old(OwnsTask(id, caller)) ==> r == Err(TaskNotFound) && tasks == old(tasks)
      ensures old(OwnsTask(id, caller)) ==> r == Ok(()) && tasks == old(tasks) - {id}
    {
      if !OwnsTask(id, caller) {
        return Err(TaskNotFound);
      }
      tasks := tasks - {id};
      r := Ok(());
    }

    /** `startTaskTimer`: a missing or foreign task is an error and nothing
        changes; an already running task is returned unchanged and no
        project is written; otherwise the task runs from `now`, is saved,
        and its project's flag is set. Only that task and that project
        change. */
    method StartTaskTimer(id: TaskId, caller: UserId, now: int) returns (r: Result<Task>)
      requires Valid()
      modifies this
      ensures Valid()
      ensures !old(OwnsTask(id, caller)) ==>
        r == Err(TaskNotFound) && tasks == old(tasks) && projects == old(projects)
      ensures old(OwnsTask(id, caller)) ==>
        var t := old(tasks)[id];
        && r == Ok(Started(t, now))
        && tasks == old(tasks)[id := Started(t, now)]
        && projects == ProjectsAfterStart(old(projects), t)
    {
      if !OwnsTask(id, caller) {
        return Err(TaskNotFound);
      }
      var t := tasks[id];
      if t.isRunning {
        return Ok(t);
      }
      var saved := t.(isRunning := true, startTime := Some(now), updatedAt := now);
      tasks := tasks[id := saved];
      projects := SetRunning(projects, t.project, true);
      r := Ok(saved);
    }

    /** `stopTaskTimer`: a missing or foreign task is an error and nothing
        changes; a task that is not running or has no start time is returned
        unchanged; otherwise the elapsed whole seconds are added, the timer
        is cleared and the task saved; then the project's flag is cleared iff
        no task of the caller in that project is still running. */
    method StopTaskTimer(id: TaskId, caller: UserId, now: int) returns (r: Result<Task>)
      requires Valid()
      modifies this
      ensures Valid()
      ensures !old(OwnsTask(id, caller)) ==>
        r == Err(TaskNotFound) && tasks == old(tasks) && projects == old(projects)
      ensures old(OwnsTask(id, caller)) ==>
        var t := old(tasks)[id];
        && r == Ok(Stopped(t, now))
        && tasks == old(tasks)[id := Stopped(t, now)]
        && projects == ProjectsAfterStop(old(projects), tasks, t, caller)
    {
      if !OwnsTask(id, caller) {
        return Err(TaskNotFound);
      }
      var t := tasks[id];
      if !t.isRunning || t.startTime.None? {
        return Ok(t);
      }
      var elapsed := CalculateTime.MsToSeconds(now - t.startTime.value);
      var saved := t.(isRunning := false, endTime := Some(now), duration := t.duration + elapsed,
                      startTime := None, updatedAt := now);
      tasks := tasks[id := saved];
      var others := RunningTasks(tasks, t.project, caller);
      if others == {} {
        projects := SetRunning(projects, t.project, false);
      }
      r := Ok(saved);
    }

    // -------------------------------------------------------------------
    // Project controller

    /** `createProject`: name, description and start time must all be
        given; `isRunning` is the supplied value when there is one (an
        explicit false included), else false; the project is the caller's. */
    method CreateProject(caller: UserId, name: Option<string>, description: Option<string>,
                         startTime: Option<string>, isRunning: Option<bool>)
      returns (r: Result<ProjectId>)
      requires Valid()
      modifies this
      ensures Valid() && tasks == old(tasks)
      ensures r.Ok? <==> Given(name) && Given(description) && Given(startTime)
      ensures r.Err? ==> r.msg == AllFieldsRequired && projects == old(projects)
      ensures r.Ok? ==> r.value !in old(projects) && projects == old(projects)[r.value :=
        Project(name.value, description.value, startTime.value, Patched(false, isRunning), caller)]
    {
      if !Given(name) || !Given(description) || !Given(startTime) {
        return Err(AllFieldsRequired);
      }
      var id := FreshId();
      var running := if isRunning.Some? then isRunning.value else false;
      projects := projects[id := Project(name.value, description.value, startTime.value, running, caller)];
      r := Ok(id);
    }

    /** `getProjects`: exactly the caller's projects. */
    function GetProjects(caller: UserId): (r: map<ProjectId, Project>)
      reads this
      ensures forall p :: p in r <==> OwnsProject(p, caller)
      ensures forall p :: p in r ==> p in projects && r[p] == projects[p]
    {
      map p | p in projects && projects[p].user == caller :: projects[p]
    }

    /** `getProjectById`: the project when it exists and is the caller's. */
    function GetProjectById(id: ProjectId, caller: UserId): (r: Result<Project>)
      reads this
      ensures r.Ok? <==> OwnsProject(id, caller)
      ensures r.Ok? ==> r.value == projects[id]
      ensures r.Err? ==> r.msg == ProjectNotFound
    {
      if OwnsProject(id, caller) then Ok(projects[id]) else Err(ProjectNotFound)
    }

    /** `findProject`: the project when it exists, whoever owns it. */
    function FindProject(id: ProjectId): (r: Result<Project>)
      reads this
      ensures r.Ok? <==> id in projects
      ensures r.Ok? ==> r.value == projects[id]
      ensures r.Err? ==> r.msg == ProjectMissing
    {
      if id in projects then Ok(projects[id]) else Err(ProjectMissing)
    }

    /** `updateProject`: applies the body to the project matching
        (id, caller). */
    method UpdateProject(id: ProjectId, caller: UserId, patch: ProjectPatch)
      returns (r: Result<Project>)
      requires Valid()
      modifies this
      ensures Valid() && tasks == old(tasks)
      ensures !old(OwnsProject(id, caller)) ==> r == Err(ProjectNotFound) && projects == old(projects)
      ensures old(OwnsProject(id, caller)) ==>
        r == Ok(ApplyProjectPatch(old(projects)[id], patch)) && projects == old(projects)[id := r.value]
    {
      if !OwnsProject(id, caller) {
        return Err(ProjectNotFound);
      }
      var pr := ApplyProjectPatch(projects[id], patch);
      projects := projects[id := pr];
      r := Ok(pr);
    }

    /** `deleteProject`: removes the project matching (id, caller), then
        every task of that project, whoever owns it. When the project is not
        the caller's, nothing is removed. */
    method DeleteProject(id: ProjectId, caller: UserId) returns (r: Result<()>)
      requires Valid()
      modifies this
      ensures Valid()
      ensures !old(OwnsProject(id, caller)) ==>
        r == Err(ProjectNotFound) && projects == old(projects) && tasks == old(tasks)
      ensures old(OwnsProject(id, caller)) ==>
        r == Ok(()) && projects == old(projects) - {id} && tasks == WithoutProject(old(tasks), id)
      ensures r.Ok? ==> forall k :: k in tasks ==> tasks[k].project != id
      ensures r.Ok? ==> forall k :: k in old(tasks) && old(tasks)[k].project == id ==>
        GetTaskById(k, old(tasks)[k].user).Err?
    {
      if !OwnsProject(id, caller) {
        return Err(ProjectNotFound);
      }
      projects := projects - {id};
      tasks := WithoutProject(tasks, id);
      r := Ok(());
    }
  }
}
