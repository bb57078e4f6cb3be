/** The stored records of the time tracker, with their defaults, and the
    field-wise updates that a request body applies to them. */
module Records {
  import opened Common

  /** Identifiers of stored documents and of the authenticated caller. */
  type UserId = nat
  type ProjectId = nat
  type TaskId = nat

  const Todo: string := "todo"
  const InProgress: string := "in-progress"
  const Done: string := "done"

  /** The values the task schema's `status` enum admits. */
  predicate IsStatus(s: string)
  {
    s == Todo || s == InProgress || s == Done
  }

  /** A task. Timestamps are integers (milliseconds). `endTime` is assigned
      by the stop path but is not a path of the task schema, so a store with
      strict schemas would not persist it; the model keeps it on the record.
      `updatedAt` is the schema's automatic update timestamp. */
  datatype Task = Task(
    title: string,
    description: Option<string>,
    status: string,
    duration: int,
    project: ProjectId,
    user: UserId,
    isRunning: bool,
    startTime: Option<int>,
    endTime: Option<int>,
    updatedAt: int)

  /** A project. `startTime` is kept as the value supplied on creation. */
  datatype Project = Project(
    name: string,
    description: string,
    startTime: string,
    isRunning: bool,
    user: UserId)

  /** A new task with the schema defaults: duration 0, not running, no
      start time. */
  function NewTask(title: string, description: Option<string>, status: string,
                   project: ProjectId, user: UserId, now: int): (t: Task)
    ensures t.duration == 0 && !t.isRunning && t.startTime.None? && t.endTime.None?
    ensures t.title == title && t.description == description && t.status == status
    ensures t.project == project && t.user == user && t.updatedAt == now
  {
    Task(title, description, status, 0, project, user, false, None, None, now)
  }

  /** A supplied field replaces the stored one; an absent field keeps it. */
  function Patched<T>(current: T, supplied: Option<T>): (r: T)
    ensures supplied.None? ==> r == current
    ensures supplied.Some? ==> r == supplied.value
  {
    if supplied.Some? then supplied.value else current
  }

  /** The fields of a task a request body may carry. `startTime` may be set
      to null, hence its inner Option. */
  datatype TaskPatch = TaskPatch(
    title: Option<string>,
    description: Option<string>,
    status: Option<string>,
    duration: Option<int>,
    project: Option<ProjectId>,
    user: Option<UserId>,
    isRunning: Option<bool>,
    startTime: Option<Option<int>>)

  /** The stored task after an update with body `p` at time `now`: every
      field the body carries is stored, every other field keeps its value,
      and the update timestamp becomes `now`. */
  function ApplyTaskPatch(t: Task, p: TaskPatch, now: int): (r: Task)
    ensures r.title == (if p.title.Some? then p.title.value else t.title)
    ensures r.description == (if p.description.Some? then p.description else t.description)
    ensures r.status == (if p.status.Some? then p.status.value else t.status)
    ensures r.duration == (if p.duration.Some? then p.duration.value else t.duration)
    ensures r.project == (if p.project.Some? then p.project.value else t.project)
    ensures r.user == (if p.user.Some? then p.user.value else t.user)
    ensures r.isRunning == (if p.isRunning.Some? then p.isRunning.value else t.isRunning)
    ensures r.startTime == (if p.startTime.Some? then p.startTime.value else t.startTime)
    ensures r.endTime == t.endTime && r.updatedAt == now
  {
    Task(Patched(t.title, p.title),
         if p.description.Some? then p.description else t.description,
         Patched(t.status, p.status),
         Patched(t.duration, p.duration),
         Patched(t.project, p.project),
         Patched(t.user, p.user),
         Patched(t.isRunning, p.isRunning),
         Patched(t.startTime, p.startTime),
         t.endTime,
         now)
  }

  /** The fields of a project a request body may carry. */
  datatype ProjectPatch = ProjectPatch(
    name: Option<string>,
    description: Option<string>,
    startTime: Option<string>,
    isRunning: Option<bool>,
    user: Option<UserId>)

  /** The stored project after an update with body `p`: every field the
      body carries is stored, every other field keeps its value. */
  function ApplyProjectPatch(pr: Project, p: ProjectPatch): (r: Project)
    ensures r.name == (if p.name.Some? then p.name.value else pr.name)
    ensures r.description == (if p.description.Some? then p.description.value else pr.description)
    ensures r.startTime == (if p.startTime.Some? then p.startTime.value else pr.startTime)
    ensures r.isRunning == (if p.isRunning.Some? then p.isRunning.value else pr.isRunning)
    ensures r.user == (if p.user.Some? then p.user.value else pr.user)
  {
    Project(Patched(pr.name, p.name),
            Patched(pr.description, p.description),
            Patched(pr.startTime, p.startTime),
            Patched(pr.isRunning, p.isRunning),
            Patched(pr.user, p.user))
  }

  /** Sending the same body twice stores the same task as sending it once
      at the second time. */
  lemma ApplyTaskPatchIdempotent(t: Task, p: TaskPatch, now: int)
    ensures ApplyTaskPatch(ApplyTaskPatch(t, p, now), p, now) == ApplyTaskPatch(t, p, now)
  {
  }

  /** An empty body changes nothing but the update timestamp. */
  lemma ApplyTaskPatchEmpty(t: Task, now: int)
    ensures ApplyTaskPatch(t, TaskPatch(None, None, None, None, None, None, None, None), now)
            == t.(updatedAt := now)
  {
  }

  /** Sending the same project body twice stores the same project as
      sending it once. */
  lemma ApplyProjectPatchIdempotent(pr: Project, p: ProjectPatch)
    ensures ApplyProjectPatch(ApplyProjectPatch(pr, p), p) == ApplyProjectPatch(pr, p)
  {
  }

  /** An empty project body changes nothing. */
  lemma ApplyProjectPatchEmpty(pr: Project)
    ensures ApplyProjectPatch(pr, ProjectPatch(None, None, None, None, None)) == pr
  {
  }
}
