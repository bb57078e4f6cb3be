/** The report controller: read-only folds over the task collection, given
    as a sequence in collection order, for one caller. The aggregation
    stages (`$match` on the user, `$group` by status or by project) are
    functions over that sequence; the status report fills its result
    dictionary in a loop as the source does. */
module Reports {
  import opened Common
  import opened Records
  import opened CalculateTime

  const DatesRequired: string := "Both 'from' and 'to' date parameters are required"
  const UnknownProject: string := "Unknown"

  /** `$match: { user: caller }`: the caller's tasks, in order. */
  function OwnedBy(ts: seq<Task>, caller: UserId): (r: seq<Task>)
    ensures forall t :: t in r <==> t in ts && t.user == caller
    ensures |r| <= |ts|
  {
    if ts == [] then []
    else (if ts[0].user == caller then [ts[0]] else []) + OwnedBy(ts[1..], caller)
  }

  /** Matching distributes over concatenation. */
  lemma {:induction false} OwnedByAppend(a: seq<Task>, b: seq<Task>, caller: UserId)
    ensures OwnedBy(a + b, caller) == OwnedBy(a, caller) + OwnedBy(b, caller)
  {
    if a != [] {
      assert (a + b)[1..] == a[1..] + b;
      OwnedByAppend(a[1..], b, caller);
    } else {
      assert a + b == b;
    }
  }

  // ---------------------------------------------------------------------
  // getTaskStats

  /** Number of tasks with status `s`. */
  function CountStatus(ts: seq<Task>, s: string): (n: nat)
    ensures n <= |ts|
    ensures n == 0 <==> forall t :: t in ts ==> t.status != s
  {
    if ts == [] then 0
    else (if ts[0].status == s then 1 else 0) + CountStatus(ts[1..], s)
  }

  /** Number of the caller's tasks with status `s`, counted on the whole
      collection. */
  function CallerStatusCount(ts: seq<Task>, caller: UserId, s: string): nat
  {
    if ts == [] then 0
    else (if ts[0].user == caller && ts[0].status == s then 1 else 0)
         + CallerStatusCount(ts[1..], caller, s)
  }

  /** Grouping after matching counts exactly the caller's tasks with that
      status: other users' tasks never contribute. */
  lemma {:induction false} MatchThenCount(ts: seq<Task>, caller: UserId, s: string)
    ensures CountStatus(OwnedBy(ts, caller), s) == CallerStatusCount(ts, caller, s)
  {
    if ts != [] {
      MatchThenCount(ts[1..], caller, s);
      var head := if ts[0].user == caller then [ts[0]] else [];
      CountAppend(head, OwnedBy(ts[1..], caller), s);
    }
  }

  lemma {:induction false} CountAppend(a: seq<Task>, b: seq<Task>, s: string)
    ensures CountStatus(a + b, s) == CountStatus(a, s) + CountStatus(b, s)
  {
    if a != [] {
      assert (a + b)[1..] == a[1..] + b;
      CountAppend(a[1..], b, s);
    } else {
      assert a + b == b;
    }
  }

  function StatusesOf(ts: seq<Task>): (r: seq<string>)
    ensures |r| == |ts| && forall i :: 0 <= i < |ts| ==> r[i] == ts[i].status
  {
    seq(|ts|, i requires 0 <= i < |ts| => ts[i].status)
  }

  /** The statuses the caller's tasks carry. */
  ghost function CallerStatuses(ts: seq<Task>, caller: UserId): set<string>
  {
    set t | t in ts && t.user == caller :: t.status
  }

  /** One output document of the status `$group` stage. */
  datatype StatusGroup = StatusGroup(status: string, count: nat)

  /** `$group: { _id: "$status", count: { $sum: 1 } }` after the match: one
      group per distinct status among the caller's tasks. */
  function StatusGroups(ts: seq<Task>, caller: UserId): seq<StatusGroup>
  {
    var mine := OwnedBy(ts, caller);
    var keys := Distinct(StatusesOf(mine));
    seq(|keys|, i requires 0 <= i < |keys| => StatusGroup(keys[i], CountStatus(mine, keys[i])))
  }

  /** The statuses of the matched tasks are those the caller's tasks carry. */
  lemma MatchedStatuses(ts: seq<Task>, caller: UserId)
    ensures forall s :: s in StatusesOf(OwnedBy(ts, caller)) <==> s in CallerStatuses(ts, caller)
  {
    var mine := OwnedBy(ts, caller);
    forall s | s in CallerStatuses(ts, caller) ensures s in StatusesOf(mine) {
      var t :| t in ts && t.user == caller && t.status == s;
      assert t in mine;
      var j :| 0 <= j < |mine| && mine[j] == t;
      assert StatusesOf(mine)[j] == s;
    }
    forall s | s in StatusesOf(mine) ensures s in CallerStatuses(ts, caller) {
      var j :| 0 <= j < |mine| && StatusesOf(mine)[j] == s;
      assert mine[j] in mine;
    }
  }

  /** The groups: one per status the caller's tasks carry, none repeated,
      each counting exactly the caller's tasks with that status. */
  lemma StatusGroupsFacts(ts: seq<Task>, caller: UserId)
    ensures var g := StatusGroups(ts, caller);
      && (forall i :: 0 <= i < |g| ==> g[i].count == CallerStatusCount(ts, caller, g[i].status))
      && (forall i, j :: 0 <= i < j < |g| ==> g[i].status != g[j].status)
      && (forall i :: 0 <= i < |g| ==> g[i].status in CallerStatuses(ts, caller))
      && (forall s :: s in CallerStatuses(ts, caller) ==> exists i :: 0 <= i < |g| && g[i].status == s)
  {
    var mine := OwnedBy(ts, caller);
    var keys := Distinct(StatusesOf(mine));
    var g := StatusGroups(ts, caller);
    forall i | 0 <= i < |g| ensures g[i].count == CallerStatusCount(ts, caller, g[i].status) {
      MatchThenCount(ts, caller, keys[i]);
    }
    MatchedStatuses(ts, caller);
    forall s | s in CallerStatuses(ts, caller) ensures exists i :: 0 <= i < |g| && g[i].status == s {
      var i :| 0 <= i < |keys| && keys[i] == s;
      assert g[i].status == s;
    }
  }

  /** A status no task of the caller carries has count 0. */
  lemma {:induction false} AbsentStatusCountsZero(ts: seq<Task>, caller: UserId, s: string)
    requires s !in CallerStatuses(ts, caller)
    ensures CallerStatusCount(ts, caller, s) == 0
  {
    if ts != [] {
      assert ts[0].user == caller ==> ts[0].status in CallerStatuses(ts, caller);
      assert CallerStatuses(ts[1..], caller) <= CallerStatuses(ts, caller) by {
        forall t | t in ts[1..] ensures t in ts {
        }
      }
      AbsentStatusCountsZero(ts[1..], caller, s);
    }
  }

  /** The three statuses every report shows. */
  ghost function DefaultStatuses(): set<string>
  {
    {Todo, InProgress, Done}
  }

  /** The statuses the groups carry. */
  ghost function GroupStatuses(groups: seq<StatusGroup>): set<string>
  {
    set j | 0 <= j < |groups| :: groups[j].status
  }

  /** The `forEach` of `getTaskStats`: starts from todo, in-progress and
      done at 0 and writes each group's count over its status. */
  method FillStats(groups: seq<StatusGroup>) returns (stats: map<string, nat>)
    requires forall i, j :: 0 <= i < j < |groups| ==> groups[i].status != groups[j].status
    ensures stats.Keys == DefaultStatuses() + GroupStatuses(groups)
    ensures forall i :: 0 <= i < |groups| ==> stats[groups[i].status] == groups[i].count
    ensures forall s :: s in stats && s !in GroupStatuses(groups) ==> stats[s] == 0
  {
    stats := map[Todo := 0, InProgress := 0, Done := 0];
    ghost var seen: set<string> := {};
    var i := 0;
    while i < |groups|
      invariant 0 <= i <= |groups|
      invariant forall j :: 0 <= j < i ==> groups[j].status in seen
      invariant seen <= GroupStatuses(groups)
      invariant stats.Keys == DefaultStatuses() + seen
      invariant forall j :: 0 <= j < i ==> stats[groups[j].status] == groups[j].count
      invariant forall s :: s in stats && s !in seen ==> stats[s] == 0
    {
      stats := stats[groups[i].status := groups[i].count];
      seen := seen + {groups[i].status};
      i := i + 1;
    }
    assert seen == GroupStatuses(groups);
  }

  /** `getTaskStats`. The result shows todo, in-progress and done plus
      every other status a task of the caller carries (an off-enum status
      becomes an extra key), each with the number of the caller's tasks
      that have it. */
  method GetTaskStats(ts: seq<Task>, caller: UserId) returns (stats: map<string, nat>)
    ensures stats.Keys == DefaultStatuses() + CallerStatuses(ts, caller)
    ensures forall s :: s in stats ==> stats[s] == CallerStatusCount(ts, caller, s)
  {
    var groups := StatusGroups(ts, caller);
    StatusGroupsFacts(ts, caller);
    stats := FillStats(groups);
    assert GroupStatuses(groups) == CallerStatuses(ts, caller) by {
      forall s | s in CallerStatuses(ts, caller) ensures s in GroupStatuses(groups) {
        var j :| 0 <= j < |groups| && groups[j].status == s;
      }
    }
    forall s | s in stats ensures stats[s] == CallerStatusCount(ts, caller, s) {
      if s in GroupStatuses(groups) {
        var j :| 0 <= j < |groups| && groups[j].status == s;
      } else {
        AbsentStatusCountsZero(ts, caller, s);
      }
    }
  }

  // ---------------------------------------------------------------------
  // getTimeSpent

  /** The sum of the durations. */
  function TotalDuration(ts: seq<Task>): int
  {
    if ts == [] then 0 else ts[0].duration + TotalDuration(ts[1..])
  }

  lemma {:induction false} TotalDurationAppend(a: seq<Task>, b: seq<Task>)
    ensures TotalDuration(a + b) == TotalDuration(a) + TotalDuration(b)
  {
    if a != [] {
      assert (a + b)[1..] == a[1..] + b;
      TotalDurationAppend(a[1..], b);
    } else {
      assert a + b == b;
    }
  }

  lemma {:induction false} TotalDurationNonNegative(ts: seq<Task>)
    requires forall t :: t in ts ==> t.duration >= 0
    ensures TotalDuration(ts) >= 0
  {
    if ts != [] {
      assert ts[0] in ts;
      assert forall t :: t in ts[1..] ==> t in ts;
      TotalDurationNonNegative(ts[1..]);
    }
  }

  /** The summed duration of the caller's tasks, taken over the whole
      collection. */
  function CallerTotal(ts: seq<Task>, caller: UserId): int
  {
    if ts == [] then 0
    else (if ts[0].user == caller then ts[0].duration else 0) + CallerTotal(ts[1..], caller)
  }

  /** Summing after matching adds exactly the caller's durations: other
      users' tasks never contribute. */
  lemma {:induction false} MatchThenSum(ts: seq<Task>, caller: UserId)
    ensures TotalDuration(OwnedBy(ts, caller)) == CallerTotal(ts, caller)
  {
    if ts != [] {
      MatchThenSum(ts[1..], caller);
      var head := if ts[0].user == caller then [ts[0]] else [];
      TotalDurationAppend(head, OwnedBy(ts[1..], caller));
    }
  }

  datatype TimeSpent = TimeSpent(totalDuration: int, formatted: string)

  /** `getTimeSpent`: the caller's total duration and its `HH:MM:SS` text,
      which reads back as the total when no duration is negative. */
  function GetTimeSpent(ts: seq<Task>, caller: UserId): (r: TimeSpent)
    ensures r.totalDuration == CallerTotal(ts, caller)
    ensures r.formatted == FormatDuration(r.totalDuration)
    ensures (forall t :: t in ts && t.user == caller ==> t.duration >= 0) ==>
      r.totalDuration >= 0 && ParseDuration(r.formatted) == Some(r.totalDuration)
  {
    var total := TotalDuration(OwnedBy(ts, caller));
    MatchThenSum(ts, caller);
    assert (forall t :: t in ts && t.user == caller ==> t.duration >= 0) ==>
      total >= 0 && ParseDuration(FormatDuration(total)) == Some(total) by {
      if (forall t :: t in ts && t.user == caller ==> t.duration >= 0) {
        TotalDurationNonNegative(OwnedBy(ts, caller));
      }
    }
    TimeSpent(total, FormatDuration(total))
  }

  lemma {:induction false} OwnedByNone(ts: seq<Task>, caller: UserId)
    requires forall t :: t in ts ==> t.user != caller
    ensures OwnedBy(ts, caller) == []
  {
    if ts != [] {
      assert ts[0] in ts;
      assert forall t :: t in ts[1..] ==> t in ts;
      OwnedByNone(ts[1..], caller);
    }
  }

  /** Tasks of other users, wherever they are in the collection, do not
      change the caller's time report. */
  lemma TimeSpentIgnoresOthers(mine: seq<Task>, others: seq<Task>, caller: UserId)
    requires forall t :: t in others ==> t.user != caller
    ensures GetTimeSpent(mine + others, caller) == GetTimeSpent(mine, caller)
    ensures GetTimeSpent(others + mine, caller) == GetTimeSpent(mine, caller)
  {
    OwnedByAppend(mine, others, caller);
    OwnedByAppend(others, mine, caller);
    OwnedByNone(others, caller);
    assert OwnedBy(mine, caller) + [] == OwnedBy(mine, caller);
    assert [] + OwnedBy(mine, caller) == OwnedBy(mine, caller);
  }

  // ---------------------------------------------------------------------
  // getProjectTaskSummary

  /** The tasks of project `p`, in order. */
  function GroupTasks(ts: seq<Task>, p: ProjectId): (r: seq<Task>)
    ensures forall t :: t in r <==> t in ts && t.project == p
    ensures |r| <= |ts|
  {
    if ts == [] then []
    else (if ts[0].project == p then [ts[0]] else []) + GroupTasks(ts[1..], p)
  }

  function ProjectsOf(ts: seq<Task>): (r: seq<ProjectId>)
    ensures |r| == |ts| && forall i :: 0 <= i < |ts| ==> r[i] == ts[i].project
  {
    seq(|ts|, i requires 0 <= i < |ts| => ts[i].project)
  }

  /** `project?.name || "Unknown"`, where the project is looked up among
      the caller's projects: its name when the caller owns a project with
      that id and the name is not empty, else "Unknown". */
  function ProjectName(projects: map<ProjectId, Project>, caller: UserId, p: ProjectId): (name: string)
    ensures p in projects && projects[p].user == caller && projects[p].name != "" ==>
      name == projects[p].name
    ensures !(p in projects && projects[p].user == caller && projects[p].name != "") ==>
      name == UnknownProject
  {
    if p in projects && projects[p].user == caller && projects[p].name != "" then projects[p].name
    else UnknownProject
  }

  datatype SummaryEntry = SummaryEntry(
    projectId: ProjectId,
    projectName: string,
    totalTasks: nat,
    completedTasks: nat,
    timeSpent: int,
    formattedTimeSpent: string)

  /** The entry of one project group. */
  function Entry(mine: seq<Task>, projects: map<ProjectId, Project>, caller: UserId, p: ProjectId)
    : SummaryEntry
  {
    var g := GroupTasks(mine, p);
    SummaryEntry(p, ProjectName(projects, caller, p), |g|, CountStatus(g, Done),
                 TotalDuration(g), FormatDuration(TotalDuration(g)))
  }

  function EntriesFor(mine: seq<Task>, projects: map<ProjectId, Project>, caller: UserId,
                      keys: seq<ProjectId>): (r: seq<SummaryEntry>)
    ensures |r| == |keys| && forall i :: 0 <= i < |keys| ==> r[i] == Entry(mine, projects, caller, keys[i])
  {
    seq(|keys|, i requires 0 <= i < |keys| => Entry(mine, projects, caller, keys[i]))
  }

  /** `getProjectTaskSummary`: the caller's tasks grouped by project, each
      group joined with the caller's projects for its name. No project
      appears twice, and every entry is the entry of its own project's
      group. */
  function ProjectTaskSummary(ts: seq<Task>, caller: UserId, projects: map<ProjectId, Project>)
    : (r: seq<SummaryEntry>)
    ensures forall i, j :: 0 <= i < j < |r| ==> r[i].projectId != r[j].projectId
    ensures forall i :: 0 <= i < |r| ==> r[i] == Entry(OwnedBy(ts, caller), projects, caller, r[i].projectId)
  {
    var mine := OwnedBy(ts, caller);
    EntriesFor(mine, projects, caller, Distinct(ProjectsOf(mine)))
  }

  /** The projects the caller's tasks refer to. */
  ghost function CallerProjects(ts: seq<Task>, caller: UserId): set<ProjectId>
  {
    set t | t in ts && t.user == caller :: t.project
  }

  ghost function EntryIds(r: seq<SummaryEntry>): set<ProjectId>
  {
    set i | 0 <= i < |r| :: r[i].projectId
  }

  /** The summary's project ids are the distinct projects of the caller's
      tasks, in order of first occurrence. */
  lemma SummaryIds(ts: seq<Task>, caller: UserId, projects: map<ProjectId, Project>)
    ensures var r := ProjectTaskSummary(ts, caller, projects);
      var keys := Distinct(ProjectsOf(OwnedBy(ts, caller)));
      |r| == |keys| && forall i :: 0 <= i < |r| ==> r[i].projectId == keys[i]
  {
  }

  /** The projects of the matched tasks are those the caller's tasks refer
      to. */
  lemma MatchedProjects(ts: seq<Task>, caller: UserId)
    ensures forall p :: p in ProjectsOf(OwnedBy(ts, caller)) <==> p in CallerProjects(ts, caller)
  {
    var mine := OwnedBy(ts, caller);
    forall p | p in CallerProjects(ts, caller) ensures p in ProjectsOf(mine) {
      var t :| t in ts && t.user == caller && t.project == p;
      assert t in mine;
      var j :| 0 <= j < |mine| && mine[j] == t;
      assert ProjectsOf(mine)[j] == p;
    }
    forall p | p in ProjectsOf(mine) ensures p in CallerProjects(ts, caller) {
      var j :| 0 <= j < |mine| && ProjectsOf(mine)[j] == p;
      assert mine[j] in mine;
    }
  }

  /** Exactly one entry per distinct project that a task of the caller
      refers to; projects without such a task do not appear. */
  lemma SummaryOnePerProject(ts: seq<Task>, caller: UserId, projects: map<ProjectId, Project>)
    ensures var r := ProjectTaskSummary(ts, caller, projects);
      && (forall i, j :: 0 <= i < j < |r| ==> r[i].projectId != r[j].projectId)
      && EntryIds(r) == CallerProjects(ts, caller)
  {
    var keys := Distinct(ProjectsOf(OwnedBy(ts, caller)));
    var r := ProjectTaskSummary(ts, caller, projects);
    SummaryIds(ts, caller, projects);
    MatchedProjects(ts, caller);
    forall p | p in CallerProjects(ts, caller) ensures p in EntryIds(r) {
      var i :| 0 <= i < |keys| && keys[i] == p;
      assert r[i].projectId == p;
    }
  }

  /** Every entry: at least one task, completed tasks are the group's "done"
      tasks and never more than the total, the time is the group's summed
      duration with its formatted text, and the name is the caller's
      project's name or "Unknown". */
  lemma SummaryEntryFacts(ts: seq<Task>, caller: UserId, projects: map<ProjectId, Project>, i: nat)
    requires i < |ProjectTaskSummary(ts, caller, projects)|
    ensures var e := ProjectTaskSummary(ts, caller, projects)[i];
      var g := GroupTasks(OwnedBy(ts, caller), e.projectId);
      && e.totalTasks >= 1 && e.totalTasks == |g|
      && (forall t :: t in g <==> t in ts && t.user == caller && t.project == e.projectId)
      && e.completedTasks == CountStatus(g, Done) <= e.totalTasks
      && e.timeSpent == TotalDuration(g)
      && e.formattedTimeSpent == FormatDuration(e.timeSpent)
      && e.projectName == ProjectName(projects, caller, e.projectId)
    ensures var e := ProjectTaskSummary(ts, caller, projects)[i];
      && e.totalTasks == CallerProjectCount(ts, caller, e.projectId)
      && e.completedTasks == CallerProjectDone(ts, caller, e.projectId)
      && e.timeSpent == CallerProjectTime(ts, caller, e.projectId)
  {
    var mine := OwnedBy(ts, caller);
    var keys := Distinct(ProjectsOf(mine));
    var p := keys[i];
    assert ProjectTaskSummary(ts, caller, projects)[i] == Entry(mine, projects, caller, p);
    assert p in ProjectsOf(mine);
    var j :| 0 <= j < |mine| && ProjectsOf(mine)[j] == p;
    GroupFacts(ts, caller, p, mine[j]);
    GroupThenCount(ts, caller, p);
  }

  /** The group of a project that one of the caller's tasks `t` refers to
      is non-empty and holds exactly the caller's tasks of that project. */
  lemma GroupFacts(ts: seq<Task>, caller: UserId, p: ProjectId, t: Task)
    requires t in OwnedBy(ts, caller) && t.project == p
    ensures var g := GroupTasks(OwnedBy(ts, caller), p);
      && |g| >= 1
      && (forall u :: u in g <==> u in ts && u.user == caller && u.project == p)
  {
  }

  /** Grouping distributes over concatenation, so together with its
      membership contract `GroupTasks` keeps every task of the project, in
      order, as many times as it occurs. */
  lemma {:induction false} GroupTasksAppend(a: seq<Task>, b: seq<Task>, p: ProjectId)
    ensures GroupTasks(a + b, p) == GroupTasks(a, p) + GroupTasks(b, p)
  {
    if a != [] {
      assert (a + b)[1..] == a[1..] + b;
      GroupTasksAppend(a[1..], b, p);
    } else {
      assert a + b == b;
    }
  }

  /** Number of the caller's tasks of project `p`, counted on the whole
      collection. */
  function CallerProjectCount(ts: seq<Task>, caller: UserId, p: ProjectId): nat
  {
    if ts == [] then 0
    else (if ts[0].user == caller && ts[0].project == p then 1 else 0)
         + CallerProjectCount(ts[1..], caller, p)
  }

  /** Number of the caller's "done" tasks of project `p`, counted on the
      whole collection. */
  function CallerProjectDone(ts: seq<Task>, caller: UserId, p: ProjectId): nat
  {
    if ts == [] then 0
    else (if ts[0].user == caller && ts[0].project == p && ts[0].status == Done then 1 else 0)
         + CallerProjectDone(ts[1..], caller, p)
  }

  /** Summed duration of the caller's tasks of project `p`, taken over the
      whole collection. */
  function CallerProjectTime(ts: seq<Task>, caller: UserId, p: ProjectId): int
  {
    if ts == [] then 0
    else (if ts[0].user == caller && ts[0].project == p then ts[0].duration else 0)
         + CallerProjectTime(ts[1..], caller, p)
  }

  /** Matching then grouping by project counts, and sums, exactly the
      caller's tasks of that project: every stored document counts once. */
  lemma {:induction false} GroupThenCount(ts: seq<Task>, caller: UserId, p: ProjectId)
    ensures var g := GroupTasks(OwnedBy(ts, caller), p);
      && |g| == CallerProjectCount(ts, caller, p)
      && CountStatus(g, Done) == CallerProjectDone(ts, caller, p)
      && TotalDuration(g) == CallerProjectTime(ts, caller, p)
  {
    if ts != [] {
      GroupThenCount(ts[1..], caller, p);
      var t := ts[0];
      var head := if t.user == caller then [t] else [];
      var rest := OwnedBy(ts[1..], caller);
      assert OwnedBy(ts, caller) == head + rest;
      GroupTasksAppend(head, rest, p);
      var gh := GroupTasks(head, p);
      assert gh == if t.user == caller && t.project == p then [t] else [];
      CountAppend(gh, GroupTasks(rest, p), Done);
      TotalDurationAppend(gh, GroupTasks(rest, p));
    }
  }

  /** Summed duration of the groups of `keys`. */
  function SumOver(keys: seq<ProjectId>, ts: seq<Task>): int
  {
    if keys == [] then 0 else TotalDuration(GroupTasks(ts, keys[0])) + SumOver(keys[1..], ts)
  }

  lemma {:induction false} SumOverNoTasks(keys: seq<ProjectId>)
    ensures SumOver(keys, []) == 0
  {
    if keys != [] {
      SumOverNoTasks(keys[1..]);
    }
  }

  /** Adding one task in front adds its duration to exactly the one group
      of its project, if that project is among the keys. */
  lemma {:induction false} SumOverCons(keys: seq<ProjectId>, t: Task, rest: seq<Task>)
    requires NoDuplicates(keys)
    ensures SumOver(keys, [t] + rest) == SumOver(keys, rest) + (if t.project in keys then t.duration else 0)
  {
    if keys != [] {
      var k := keys[0];
      GroupTasksCons(t, rest, k);
      assert NoDuplicates(keys[1..]);
      assert k !in keys[1..];
      SumOverCons(keys[1..], t, rest);
      assert t.project in keys <==> t.project == k || t.project in keys[1..];
    }
  }

  /** The group of `k` in `[t] + rest` gains `t`'s duration exactly when
      `t` is of project `k`. */
  lemma GroupTasksCons(t: Task, rest: seq<Task>, k: ProjectId)
    ensures TotalDuration(GroupTasks([t] + rest, k))
         == TotalDuration(GroupTasks(rest, k)) + (if t.project == k then t.duration else 0)
  {
    var ts := [t] + rest;
    assert ts[0] == t && ts[1..] == rest;
    var g := GroupTasks(rest, k);
    if t.project == k {
      assert GroupTasks(ts, k) == [t] + g;
      assert ([t] + g)[1..] == g;
    } else {
      assert GroupTasks(ts, k) == [] + g;
      assert [] + g == g;
    }
  }

  lemma {:induction false} SumOverCovers(keys: seq<ProjectId>, ts: seq<Task>)
    requires NoDuplicates(keys)
    requires forall t :: t in ts ==> t.project in keys
    ensures SumOver(keys, ts) == TotalDuration(ts)
  {
    if ts == [] {
      SumOverNoTasks(keys);
    } else {
      assert ts == [ts[0]] + ts[1..];
      assert ts[0] in ts;
      assert forall t :: t in ts[1..] ==> t in ts;
      SumOverCons(keys, ts[0], ts[1..]);
      SumOverCovers(keys, ts[1..]);
    }
  }

  /** The summed time of a list of entries. */
  function SumTimeSpent(entries: seq<SummaryEntry>): int
  {
    if entries == [] then 0 else entries[0].timeSpent + SumTimeSpent(entries[1..])
  }

  lemma {:induction false} SumTimeSpentOfEntries(mine: seq<Task>, projects: map<ProjectId, Project>,
                                                 caller: UserId, keys: seq<ProjectId>)
    ensures SumTimeSpent(EntriesFor(mine, projects, caller, keys)) == SumOver(keys, mine)
  {
    if keys != [] {
      assert EntriesFor(mine, projects, caller, keys)[1..] == EntriesFor(mine, projects, caller, keys[1..]);
      SumTimeSpentOfEntries(mine, projects, caller, keys[1..]);
    }
  }

  /** The per-project times add up to the caller's total time spent. */
  lemma SummaryTimeAddsUp(ts: seq<Task>, caller: UserId, projects: map<ProjectId, Project>)
    ensures SumTimeSpent(ProjectTaskSummary(ts, caller, projects)) == GetTimeSpent(ts, caller).totalDuration
  {
    var mine := OwnedBy(ts, caller);
    var keys := Distinct(ProjectsOf(mine));
    SumTimeSpentOfEntries(mine, projects, caller, keys);
    forall t | t in mine ensures t.project in keys {
      var j :| 0 <= j < |mine| && mine[j] == t;
      assert ProjectsOf(mine)[j] == t.project;
    }
    SumOverCovers(keys, mine);
  }

  // ---------------------------------------------------------------------
  // getActivityByDateRange

  /** Number of the caller's tasks last updated within [lo, hi], counted
      on the whole collection. */
  function CallerWindowCount(ts: seq<Task>, caller: UserId, lo: int, hi: int): nat
  {
    if ts == [] then 0
    else (if ts[0].user == caller && lo <= ts[0].updatedAt <= hi then 1 else 0)
         + CallerWindowCount(ts[1..], caller, lo, hi)
  }

  /** The caller's tasks last updated within [lo, hi], in order: every
      stored document in the window once. */
  function InWindow(ts: seq<Task>, caller: UserId, lo: int, hi: int): (r: seq<Task>)
    ensures forall t :: t in r <==> t in ts && t.user == caller && lo <= t.updatedAt <= hi
    ensures |r| == CallerWindowCount(ts, caller, lo, hi) <= |ts|
  {
    if ts == [] then []
    else (if ts[0].user == caller && lo <= ts[0].updatedAt <= hi then [ts[0]] else [])
         + InWindow(ts[1..], caller, lo, hi)
  }

  /** The window filter distributes over concatenation, so together with
      its membership contract it keeps every matching task, in order, as
      many times as it occurs. */
  lemma {:induction false} InWindowAppend(a: seq<Task>, b: seq<Task>, caller: UserId, lo: int, hi: int)
    ensures InWindow(a + b, caller, lo, hi) == InWindow(a, caller, lo, hi) + InWindow(b, caller, lo, hi)
  {
    if a != [] {
      assert (a + b)[1..] == a[1..] + b;
      InWindowAppend(a[1..], b, caller, lo, hi);
    } else {
      assert a + b == b;
    }
  }

  /** No update time lies in an empty window. */
  lemma {:induction false} EmptyWindow(ts: seq<Task>, caller: UserId, lo: int, hi: int)
    requires lo > hi
    ensures InWindow(ts, caller, lo, hi) == []
  {
    if ts != [] {
      EmptyWindow(ts[1..], caller, lo, hi);
    }
  }

  datatype ActivityItem = ActivityItem(task: Task, formattedDuration: string)
  datatype Activity = Activity(count: nat, tasks: seq<ActivityItem>)

  /** The tasks of the items, in order. */
  function TasksOf(items: seq<ActivityItem>): (r: seq<Task>)
    ensures |r| == |items| && forall i :: 0 <= i < |items| ==> r[i] == items[i].task
  {
    seq(|items|, i requires 0 <= i < |items| => items[i].task)
  }

  /** Each task with its duration formatted as `HH:MM:SS`. */
  function Annotated(found: seq<Task>): (r: seq<ActivityItem>)
    ensures TasksOf(r) == found
    ensures forall i :: 0 <= i < |r| ==> r[i].formattedDuration == FormatDuration(r[i].task.duration)
  {
    var r := seq(|found|, i requires 0 <= i < |found| =>
                 ActivityItem(found[i], FormatDuration(found[i].duration)));
    assert TasksOf(r) == found;
    r
  }

  /** `getActivityByDateRange`: both bounds are required; the result is the
      caller's tasks whose update time lies in [from, to], bounds included,
      each with its formatted duration, and their number. */
  function GetActivityByDateRange(ts: seq<Task>, caller: UserId, from: Option<int>, to: Option<int>)
    : (r: Result<Activity>)
    ensures from.None? || to.None? ==> r == Err(DatesRequired)
    ensures from.Some? && to.Some? ==> r.Ok?
    ensures r.Ok? ==> r.value.count == |r.value.tasks| == CallerWindowCount(ts, caller, from.value, to.value)
    ensures r.Ok? ==> forall i :: 0 <= i < |r.value.tasks| ==>
      r.value.tasks[i].formattedDuration == FormatDuration(r.value.tasks[i].task.duration)
    ensures r.Ok? ==> forall t :: t in TasksOf(r.value.tasks) <==>
      t in ts && t.user == caller && from.value <= t.updatedAt <= to.value
    ensures r.Ok? && from.value > to.value ==> r.value.tasks == []
  {
    if from.None? || to.None? then Err(DatesRequired)
    else
      var found := InWindow(ts, caller, from.value, to.value);
      assert from.value > to.value ==> found == [] by {
        if from.value > to.value {
          EmptyWindow(ts, caller, from.value, to.value);
        }
      }
      var items := Annotated(found);
      Ok(Activity(|items|, items))
  }
}
