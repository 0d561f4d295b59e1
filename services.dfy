/** The project/task domain service of lib/services.ts over an in-memory
    store. The Prisma tables become sequences of rows in storage order, the
    catalog of task statuses is fixed, and an integer clock stands for
    `new Date()`. Reads are functions over the tables; writes are methods
    that change the tables in the same steps as the source. */
module Services {
  import opened Wrappers
  import opened Seqs
  import opened Utils

  // ---------------------------------------------------------------------
  // Rows and result shapes
  // ---------------------------------------------------------------------

  /** A row of the Project table; `description` is nullable. */
  datatype Project = Project(
    id: string,
    title: string,
    description: Option<string>,
    createdAt: int,
    updatedAt: int,
    userId: string)

  /** A row of the Task table. */
  datatype Task = Task(
    id: string,
    title: string,
    description: Option<string>,
    statusId: string,
    createdAt: int,
    updatedAt: int,
    projectId: string)

  /** A row of the TaskStatus catalog. */
  datatype TaskStatus = TaskStatus(id: string, name: string, sortOrder: int)

  /** A project with the number of its tasks (`_count.tasks`). */
  datatype ProjectWithTaskCount = ProjectWithTaskCount(project: Project, taskCount: nat)

  /** A task joined to its status row. */
  datatype TaskWithStatus = TaskWithStatus(task: Task, status: TaskStatus)

  /** A project with its tasks, each joined to its status. */
  datatype ProjectWithTasks = ProjectWithTasks(project: Project, tasks: seq<TaskWithStatus>)

  /** What a store call throws: Prisma's "record to update/delete not
      found", a foreign-key or unique-constraint violation, and the
      service's own "Task not found". */
  datatype Error = RecordNotFound | ForeignKeyViolation | UniqueViolation | TaskNotFound

  /** The columns a partial update may name. */
  datatype Column = Title | Description | StatusColumn

  /** The argument of `updateProject`: each field present or absent. */
  datatype ProjectPatch = ProjectPatch(title: Option<string>, description: Option<string>)

  /** The argument of `updateTask`: each field present or absent. */
  datatype TaskPatch = TaskPatch(title: Option<string>, description: Option<string>, statusId: Option<string>)

  function IdOfProject(p: Project): string { p.id }
  function IdOfTask(t: Task): string { t.id }
  function IdOfStatus(s: TaskStatus): string { s.id }

  function ProjectById(ps: seq<Project>, id: string): Option<Project> {
    FindByKey(ps, IdOfProject, id)
  }

  function TaskById(ts: seq<Task>, id: string): Option<Task> {
    FindByKey(ts, IdOfTask, id)
  }

  function StatusById(ss: seq<TaskStatus>, id: string): Option<TaskStatus> {
    FindByKey(ss, IdOfStatus, id)
  }

  // ---------------------------------------------------------------------
  // Store invariant: keys, foreign keys and timestamps
  // ---------------------------------------------------------------------

  /** Primary keys are unique in every table. */
  ghost predicate KeysUnique(ps: seq<Project>, ts: seq<Task>, ss: seq<TaskStatus>) {
    DistinctBy(ps, IdOfProject) && DistinctBy(ts, IdOfTask) && DistinctBy(ss, IdOfStatus)
  }

  /** Every project's user exists, and every task's project and status exist. */
  ghost predicate ReferencesResolve(users: set<string>, ps: seq<Project>, ts: seq<Task>, ss: seq<TaskStatus>) {
    && (forall p :: p in ps ==> p.userId in users)
    && (forall t :: t in ts ==> t.projectId in KeySet(ps, IdOfProject) && t.statusId in KeySet(ss, IdOfStatus))
  }

  /** No row was modified before it was created, nor after the present time. */
  ghost predicate TimestampsOrdered(ps: seq<Project>, ts: seq<Task>, clock: int) {
    && (forall p :: p in ps ==> p.createdAt <= p.updatedAt <= clock)
    && (forall t :: t in ts ==> t.createdAt <= t.updatedAt <= clock)
  }

  ghost predicate TablesValid(users: set<string>, ps: seq<Project>, ts: seq<Task>, ss: seq<TaskStatus>, clock: int) {
    KeysUnique(ps, ts, ss) && ReferencesResolve(users, ps, ts, ss) && TimestampsOrdered(ps, ts, clock)
  }

  // ---------------------------------------------------------------------
  // Queries
  // ---------------------------------------------------------------------

  /** `where: { userId }`. */
  function OwnedProjects(ps: seq<Project>, userId: string): seq<Project> {
    Filter(ps, (p: Project) => p.userId == userId)
  }

  /** Prisma's `contains`, taken as case-sensitive substring containment. */
  predicate Contains(s: string, q: string) {
    exists i :: 0 <= i <= |s| && q <= s[i..]
  }

  lemma ContainsEmpty(s: string)
    ensures Contains(s, "")
  {
    assert "" <= s[0..];
  }

  /** `where: { userId, title: { contains: searchQuery } }`. */
  function MatchingProjects(ps: seq<Project>, userId: string, q: string): seq<Project> {
    Filter(ps, (p: Project) => p.userId == userId && Contains(p.title, q))
  }

  /** The tasks of project `projectId` (the `tasks` relation). */
  function TasksOf(ts: seq<Task>, projectId: string): seq<Task> {
    Filter(ts, (t: Task) => t.projectId == projectId)
  }

  /** `_count: { select: { tasks: true } }`. */
  function TaskCount(ts: seq<Task>, projectId: string): nat {
    |TasksOf(ts, projectId)|
  }

  /** The number of rows of `ts` that belong to `projectId`, counted one row
      at a time. */
  function CountRows(ts: seq<Task>, projectId: string): nat {
    if ts == [] then 0
    else (if ts[0].projectId == projectId then 1 else 0) + CountRows(ts[1..], projectId)
  }

  /** The task count is the number of task rows whose `projectId` is the
      project's id. */
  lemma {:induction false} TaskCountCountsRows(ts: seq<Task>, projectId: string)
    ensures TaskCount(ts, projectId) == CountRows(ts, projectId)
  {
    if ts != [] {
      TaskCountCountsRows(ts[1..], projectId);
    }
  }

  /** Each project annotated with its task count. */
  function WithTaskCounts(ps: seq<Project>, ts: seq<Task>): (r: seq<ProjectWithTaskCount>)
    ensures |r| == |ps|
  {
    seq(|ps|, i requires 0 <= i < |ps| => ProjectWithTaskCount(ps[i], TaskCount(ts, ps[i].id)))
  }

  lemma WithTaskCountsMembers(ps: seq<Project>, ts: seq<Task>)
    ensures forall x :: x in WithTaskCounts(ps, ts) <==> x.project in ps && x.taskCount == TaskCount(ts, x.project.id)
  {
    var r := WithTaskCounts(ps, ts);
    forall x: ProjectWithTaskCount | x.project in ps && x.taskCount == TaskCount(ts, x.project.id) ensures x in r {
      var i :| 0 <= i < |ps| && ps[i] == x.project;
      assert r[i] == x;
    }
  }

  /** `orderBy: { updatedAt: "desc" }`. */
  predicate NewerOrSame(a: ProjectWithTaskCount, b: ProjectWithTaskCount) {
    a.project.updatedAt >= b.project.updatedAt
  }

  /** `orderBy: { sortOrder: "asc" }`. */
  predicate SortOrderAsc(a: TaskStatus, b: TaskStatus) {
    a.sortOrder <= b.sortOrder
  }

  /** `orderBy: [{ status: { sortOrder: 'asc' } }, { createdAt: 'desc' }]`. */
  predicate StatusThenNewest(a: TaskWithStatus, b: TaskWithStatus) {
    || a.status.sortOrder < b.status.sortOrder
    || (a.status.sortOrder == b.status.sortOrder && a.task.createdAt >= b.task.createdAt)
  }

  lemma OrdersArePreorders()
    ensures TotalPreorder(NewerOrSame)
    ensures TotalPreorder(SortOrderAsc)
    ensures TotalPreorder(StatusThenNewest)
  {
  }

  /** The task joined to its status row (`include: { status: true }`). */
  function JoinStatus(t: Task, ss: seq<TaskStatus>): (r: TaskWithStatus)
    requires t.statusId in KeySet(ss, IdOfStatus)
    ensures r.task == t && r.status in ss && r.status.id == t.statusId
  {
    TaskWithStatus(t, StatusById(ss, t.statusId).value)
  }

  function JoinStatuses(ts: seq<Task>, ss: seq<TaskStatus>): (r: seq<TaskWithStatus>)
    requires forall t :: t in ts ==> t.statusId in KeySet(ss, IdOfStatus)
    ensures |r| == |ts|
  {
    seq(|ts|, i requires 0 <= i < |ts| => JoinStatus(ts[i], ss))
  }

  /** With unique status ids, the joined rows are exactly the tasks paired
      with the status their `statusId` names. */
  lemma JoinStatusesMembers(ts: seq<Task>, ss: seq<TaskStatus>)
    requires DistinctBy(ss, IdOfStatus)
    requires forall t :: t in ts ==> t.statusId in KeySet(ss, IdOfStatus)
    ensures forall x :: x in JoinStatuses(ts, ss) <==> x.task in ts && x.status in ss && x.status.id == x.task.statusId
  {
    var r := JoinStatuses(ts, ss);
    forall x: TaskWithStatus | x.task in ts && x.status in ss && x.status.id == x.task.statusId ensures x in r {
      var i :| 0 <= i < |ts| && ts[i] == x.task;
      var k :| 0 <= k < |ss| && ss[k] == x.status;
      FindByKeyUnique(ss, IdOfStatus, k);
      assert r[i] == x;
    }
  }

  // ---------------------------------------------------------------------
  // Partial updates
  // ---------------------------------------------------------------------

  /** The entries of an `updateProject` argument: every patchable field, in
      declaration order, an absent one as an `undefined` entry. */
  function ProjectPatchEntries(patch: ProjectPatch): seq<(Column, Field<string>)> {
    [(Title, FromOption(patch.title)), (Description, FromOption(patch.description))]
  }

  /** The entries of an `updateTask` argument, in the same form. */
  function TaskPatchEntries(patch: TaskPatch): seq<(Column, Field<string>)> {
    [(Title, FromOption(patch.title)), (Description, FromOption(patch.description)),
     (StatusColumn, FromOption(patch.statusId))]
  }

  /** Writing one entry of update data into a project row: a defined value
      sets its column, a `null` description clears it. Entries the typed
      argument cannot produce (a `null` title, a status column) write nothing. */
  function SetProjectColumn(p: Project, e: (Column, Field<string>)): Project {
    match e
    case (Title, Value(s)) => p.(title := s)
    case (Description, Value(s)) => p.(description := Some(s))
    case (Description, Null) => p.(description := None)
    case _ => p
  }

  /** Spreading update data into a project row (`{ ...data }`). */
  function ApplyProjectData(p: Project, data: seq<(Column, Field<string>)>): Project
    decreases |data|
  {
    if data == [] then p else ApplyProjectData(SetProjectColumn(p, data[0]), data[1..])
  }

  /** Writing one entry of update data into a task row. */
  function SetTaskColumn(t: Task, e: (Column, Field<string>)): Task {
    match e
    case (Title, Value(s)) => t.(title := s)
    case (Description, Value(s)) => t.(description := Some(s))
    case (Description, Null) => t.(description := None)
    case (StatusColumn, Value(s)) => t.(statusId := s)
    case _ => t
  }

  /** Spreading update data into a task row. */
  function ApplyTaskData(t: Task, data: seq<(Column, Field<string>)>): Task
    decreases |data|
  {
    if data == [] then t else ApplyTaskData(SetTaskColumn(t, data[0]), data[1..])
  }

  lemma ApplyProjectDataCons(p: Project, e: (Column, Field<string>), data: seq<(Column, Field<string>)>)
    ensures ApplyProjectData(p, [e] + data) == ApplyProjectData(SetProjectColumn(p, e), data)
  {
  }

  lemma ApplyTaskDataCons(t: Task, e: (Column, Field<string>), data: seq<(Column, Field<string>)>)
    ensures ApplyTaskData(t, [e] + data) == ApplyTaskData(SetTaskColumn(t, e), data)
  {
  }

  /** The intended effect of `updateProject`: present fields replace the
      row's, absent fields are left as they were, `updatedAt` is `now`. */
  function PatchedProject(p: Project, patch: ProjectPatch, now: int): Project {
    p.(title := patch.title.GetOr(p.title),
       description := if patch.description.Some? then patch.description else p.description,
       updatedAt := now)
  }

  /** The intended effect of `updateTask` on the task row. */
  function PatchedTask(t: Task, patch: TaskPatch, now: int): Task {
    t.(title := patch.title.GetOr(t.title),
       description := if patch.description.Some? then patch.description else t.description,
       statusId := patch.statusId.GetOr(t.statusId),
       updatedAt := now)
  }

  /** An `undefined` entry writes nothing, so dropping the undefined
      entries first does not change what the spread writes. */
  lemma {:induction false} ProjectDataSkipsUndefined(p: Project, data: seq<(Column, Field<string>)>)
    ensures ApplyProjectData(p, RemoveUndefinedProperties(data)) == ApplyProjectData(p, data)
    decreases |data|
  {
    if data != [] {
      var e, rest := data[0], data[1..];
      assert data == [e] + rest;
      assert RemoveUndefinedProperties(data) == (if IsDefined(e) then [e] else []) + RemoveUndefinedProperties(rest);
      ApplyProjectDataCons(p, e, rest);
      if IsDefined(e) {
        ProjectDataSkipsUndefined(SetProjectColumn(p, e), rest);
        ApplyProjectDataCons(p, e, RemoveUndefinedProperties(rest));
      } else {
        assert SetProjectColumn(p, e) == p;
        assert RemoveUndefinedProperties(data) == RemoveUndefinedProperties(rest);
        ProjectDataSkipsUndefined(p, rest);
      }
    }
  }

  lemma {:induction false} TaskDataSkipsUndefined(t: Task, data: seq<(Column, Field<string>)>)
    ensures ApplyTaskData(t, RemoveUndefinedProperties(data)) == ApplyTaskData(t, data)
    decreases |data|
  {
    if data != [] {
      var e, rest := data[0], data[1..];
      assert data == [e] + rest;
      assert RemoveUndefinedProperties(data) == (if IsDefined(e) then [e] else []) + RemoveUndefinedProperties(rest);
      ApplyTaskDataCons(t, e, rest);
      if IsDefined(e) {
        TaskDataSkipsUndefined(SetTaskColumn(t, e), rest);
        ApplyTaskDataCons(t, e, RemoveUndefinedProperties(rest));
      } else {
        assert SetTaskColumn(t, e) == t;
        assert RemoveUndefinedProperties(data) == RemoveUndefinedProperties(rest);
        TaskDataSkipsUndefined(t, rest);
      }
    }
  }

  /** `removeUndefinedProperties`, the spread and the `updatedAt` stamp
      together are exactly the partial update. */
  lemma ProjectUpdateIsPartial(p: Project, patch: ProjectPatch, now: int)
    ensures ApplyProjectData(p, RemoveUndefinedProperties(ProjectPatchEntries(patch))).(updatedAt := now)
         == PatchedProject(p, patch, now)
  {
    var es := ProjectPatchEntries(patch);
    ProjectDataSkipsUndefined(p, es);
    var a, b := es[0], es[1];
    assert es == [a] + [b];
    ApplyProjectDataCons(p, a, [b]);
    ApplyProjectDataCons(SetProjectColumn(p, a), b, []);
  }

  lemma TaskUpdateIsPartial(t: Task, patch: TaskPatch, now: int)
    ensures ApplyTaskData(t, RemoveUndefinedProperties(TaskPatchEntries(patch))).(updatedAt := now)
         == PatchedTask(t, patch, now)
  {
    var es := TaskPatchEntries(patch);
    TaskDataSkipsUndefined(t, es);
    var a, b, c := es[0], es[1], es[2];
    assert es == [a] + ([b] + [c]);
    ApplyTaskDataCons(t, a, [b] + [c]);
    var t1 := SetTaskColumn(t, a);
    ApplyTaskDataCons(t1, b, [c]);
    var t2 := SetTaskColumn(t1, b);
    ApplyTaskDataCons(t2, c, []);
  }

  // ---------------------------------------------------------------------
  // Row updates and deletes (UPDATE/DELETE ... WHERE)
  // ---------------------------------------------------------------------

  /** `project.update({ where: { id: p.id }, data })`: the row with `p`'s id becomes `p`. */
  function ReplaceProject(ps: seq<Project>, p: Project): seq<Project> {
    ReplaceByKey(ps, IdOfProject, p)
  }

  /** `project.update({ where: { id }, data: { updatedAt: now } })`. */
  function TouchProject(ps: seq<Project>, id: string, now: int): (r: seq<Project>)
    ensures |r| == |ps|
  {
    seq(|ps|, i requires 0 <= i < |ps| => if ps[i].id == id then ps[i].(updatedAt := now) else ps[i])
  }

  /** `task.update({ where: { id: t.id }, data })`. */
  function ReplaceTask(ts: seq<Task>, t: Task): seq<Task> {
    ReplaceByKey(ts, IdOfTask, t)
  }

  /** `project.delete({ where: { id } })`. */
  function RemoveProject(ps: seq<Project>, id: string): seq<Project> {
    Filter(ps, (p: Project) => p.id != id)
  }

  /** The cascade of a project delete: its tasks go with it. */
  function RemoveTasksOf(ts: seq<Task>, projectId: string): seq<Task> {
    Filter(ts, (t: Task) => t.projectId != projectId)
  }

  /** `task.delete({ where: { id } })`. */
  function RemoveTask(ts: seq<Task>, id: string): seq<Task> {
    Filter(ts, (t: Task) => t.id != id)
  }

  /** After a touch, looking up project `q` finds the old row, with
      `updatedAt` set to `now` when `q` is the touched id; the lookup of every
      other id is unchanged. */
  lemma TouchProjectLookup(ps: seq<Project>, id: string, now: int, q: string)
    requires DistinctBy(ps, IdOfProject)
    ensures ProjectById(TouchProject(ps, id, now), q)
         == match ProjectById(ps, q)
            case None => None
            case Some(p) => Some(if q == id then p.(updatedAt := now) else p)
  {
    var r := TouchProject(ps, id, now);
    SameKeys(ps, r, IdOfProject);
    if q in KeySet(ps, IdOfProject) {
      var i :| 0 <= i < |ps| && ps[i].id == q;
      FindByKeyUnique(ps, IdOfProject, i);
      FindByKeyUnique(r, IdOfProject, i);
    }
  }

  // ---------------------------------------------------------------------
  // The invariant is kept by every write
  // ---------------------------------------------------------------------

  lemma TouchKeepsValid(users: set<string>, ps: seq<Project>, ts: seq<Task>, ss: seq<TaskStatus>, clock: int, id: string)
    requires TablesValid(users, ps, ts, ss, clock)
    ensures TablesValid(users, TouchProject(ps, id, clock), ts, ss, clock)
  {
    var r := TouchProject(ps, id, clock);
    SameKeys(ps, r, IdOfProject);
    forall p | p in r ensures p.userId in users && p.createdAt <= p.updatedAt <= clock {
      var i :| 0 <= i < |r| && r[i] == p;
      assert ps[i] in ps;
    }
  }

  lemma ReplaceProjectKeepsValid(users: set<string>, ps: seq<Project>, ts: seq<Task>, ss: seq<TaskStatus>, clock: int, p: Project)
    requires TablesValid(users, ps, ts, ss, clock)
    requires p.userId in users && p.createdAt <= p.updatedAt <= clock
    ensures TablesValid(users, ReplaceProject(ps, p), ts, ss, clock)
  {
    var r := ReplaceProject(ps, p);
    SameKeys(ps, r, IdOfProject);
    forall x | x in r ensures x.userId in users && x.createdAt <= x.updatedAt <= clock {
      var i :| 0 <= i < |r| && r[i] == x;
      assert ps[i] in ps;
    }
  }

  lemma ReplaceTaskKeepsValid(users: set<string>, ps: seq<Project>, ts: seq<Task>, ss: seq<TaskStatus>, clock: int, t: Task)
    requires TablesValid(users, ps, ts, ss, clock)
    requires t.projectId in KeySet(ps, IdOfProject) && t.statusId in KeySet(ss, IdOfStatus)
    requires t.createdAt <= t.updatedAt <= clock
    ensures TablesValid(users, ps, ReplaceTask(ts, t), ss, clock)
  {
  }

  lemma CreateProjectKeepsValid(users: set<string>, ps: seq<Project>, ts: seq<Task>, ss: seq<TaskStatus>, clock: int, p: Project)
    requires TablesValid(users, ps, ts, ss, clock)
    requires p.id !in KeySet(ps, IdOfProject) && p.userId in users && p.createdAt <= p.updatedAt <= clock
    ensures TablesValid(users, ps + [p], ts, ss, clock)
  {
    DistinctSnoc(ps, p, IdOfProject);
  }

  lemma CreateTaskKeepsValid(users: set<string>, ps: seq<Project>, ts: seq<Task>, ss: seq<TaskStatus>, clock: int, t: Task)
    requires TablesValid(users, ps, ts, ss, clock)
    requires t.id !in KeySet(ts, IdOfTask)
    requires t.projectId in KeySet(ps, IdOfProject) && t.statusId in KeySet(ss, IdOfStatus)
    requires t.createdAt <= t.updatedAt <= clock
    ensures TablesValid(users, ps, ts + [t], ss, clock)
  {
  }

  lemma DeleteTaskKeepsValid(users: set<string>, ps: seq<Project>, ts: seq<Task>, ss: seq<TaskStatus>, clock: int, id: string)
    requires TablesValid(users, ps, ts, ss, clock)
    ensures TablesValid(users, ps, RemoveTask(ts, id), ss, clock)
  {
    FilterPreservesDistinct(ts, (t: Task) => t.id != id, IdOfTask);
  }

  lemma DeleteProjectKeepsValid(users: set<string>, ps: seq<Project>, ts: seq<Task>, ss: seq<TaskStatus>, clock: int, id: string)
    requires TablesValid(users, ps, ts, ss, clock)
    ensures TablesValid(users, RemoveProject(ps, id), RemoveTasksOf(ts, id), ss, clock)
    ensures id !in KeySet(RemoveProject(ps, id), IdOfProject)
  {
    var ps' := RemoveProject(ps, id);
    var ts' := RemoveTasksOf(ts, id);
    forall k | k in KeySet(ps', IdOfProject) ensures k != id {
      var i :| 0 <= i < |ps'| && ps'[i].id == k;
      assert ps'[i] in ps';
    }
    FilterPreservesDistinct(ps, (p: Project) => p.id != id, IdOfProject);
    FilterPreservesDistinct(ts, (t: Task) => t.projectId != id, IdOfTask);
    forall t | t in ts' ensures t.projectId in KeySet(ps', IdOfProject) {
      var i :| 0 <= i < |ps| && ps[i].id == t.projectId;
      assert ps[i] in ps';
      var j :| 0 <= j < |ps'| && ps'[j] == ps[i];
    }
  }

  // ---------------------------------------------------------------------
  // The store
  // ---------------------------------------------------------------------

  class Store {
    /** Ids of the users, created by the session provider and read only here. */
    const users: set<string>
    /** The seeded status catalog, never changed here. */
    const statuses: seq<TaskStatus>
    var projects: seq<Project>
    var tasks: seq<Task>
    /** The present time, what `new Date()` returns. */
    var clock: int

    ghost predicate Valid()
      reads this
    {
      TablesValid(users, projects, tasks, statuses, clock)
    }

    /** An empty store over a seeded catalog. */
    constructor (users: set<string>, statuses: seq<TaskStatus>, clock: int)
      requires DistinctBy(statuses, IdOfStatus)
      ensures Valid()
      ensures this.users == users && this.statuses == statuses && this.clock == clock
      ensures projects == [] && tasks == []
    {
      this.users := users;
      this.statuses := statuses;
      this.clock := clock;
      projects := [];
      tasks := [];
    }

    /** Time passes between calls. */
    method Tick(elapsed: nat)
      requires Valid()
      modifies this`clock
      ensures Valid()
      ensures clock == old(clock) + elapsed
    {
      clock := clock + elapsed;
    }

    // --- owner-scoped reads ----------------------------------------------

    /** `searchProjects(userId, searchQuery)`: the user's projects whose title
        contains the query, each with its task count, in no promised order. */
    function SearchProjects(userId: string, searchQuery: string): (r: seq<ProjectWithTaskCount>)
      reads this
      ensures forall x :: x in r <==>
        && x.project in projects
        && x.project.userId == userId
        && Contains(x.project.title, searchQuery)
        && x.taskCount == TaskCount(tasks, x.project.id)
      ensures |r| == |MatchingProjects(projects, userId, searchQuery)|
    {
      var matching := MatchingProjects(projects, userId, searchQuery);
      WithTaskCountsMembers(matching, tasks);
      WithTaskCounts(matching, tasks)
    }

    /** `getAllTaskStatuses()`: the catalog ordered by `sortOrder`. */
    function GetAllTaskStatuses(): (r: seq<TaskStatus>)
      reads this
      ensures multiset(r) == multiset(statuses)
      ensures forall i, j :: 0 <= i < j < |r| ==> r[i].sortOrder <= r[j].sortOrder
    {
      OrdersArePreorders();
      SortBySorted(statuses, SortOrderAsc);
      SortBy(statuses, SortOrderAsc)
    }

    /** `getAllProjects(userId)`: every project of the user and no other, each
        with its task count, most recently updated first. */
    function GetAllProjects(userId: string): (r: seq<ProjectWithTaskCount>)
      reads this
      ensures forall x :: x in r <==>
        && x.project in projects
        && x.project.userId == userId
        && x.taskCount == TaskCount(tasks, x.project.id)
      ensures forall i, j :: 0 <= i < j < |r| ==> r[i].project.updatedAt >= r[j].project.updatedAt
      ensures |r| == |OwnedProjects(projects, userId)|
    {
      var counted := WithTaskCounts(OwnedProjects(projects, userId), tasks);
      WithTaskCountsMembers(OwnedProjects(projects, userId), tasks);
      OrdersArePreorders();
      SortBySorted(counted, NewerOrSame);
      assert forall x :: x in SortBy(counted, NewerOrSame) <==> x in counted by {
        assert forall x :: x in SortBy(counted, NewerOrSame) <==> x in multiset(counted);
      }
      SortBy(counted, NewerOrSame)
    }

    /** `getProjectById(projectId)`: the project with its tasks joined to
        their statuses, ordered by status `sortOrder`, newest first within a
        status; `None` (Prisma's `null`) for an unknown id. No ownership
        check is made here. */
    function GetProjectById(projectId: string): (r: Option<ProjectWithTasks>)
      reads this
      requires Valid()
      ensures r.None? <==> projectId !in KeySet(projects, IdOfProject)
      ensures r.Some? ==> r.value.project in projects && r.value.project.id == projectId
      ensures r.Some? ==> forall x :: x in r.value.tasks <==>
        x.task in tasks && x.task.projectId == projectId && x.status in statuses && x.status.id == x.task.statusId
      ensures r.Some? ==> |r.value.tasks| == TaskCount(tasks, projectId)
      ensures r.Some? ==> forall i, j :: 0 <= i < j < |r.value.tasks| ==>
        || r.value.tasks[i].status.sortOrder < r.value.tasks[j].status.sortOrder
        || (r.value.tasks[i].status.sortOrder == r.value.tasks[j].status.sortOrder
            && r.value.tasks[i].task.createdAt >= r.value.tasks[j].task.createdAt)
    {
      match ProjectById(projects, projectId)
      case None => None
      case Some(p) =>
        var own := TasksOf(tasks, projectId);
        var joined := JoinStatuses(own, statuses);
        JoinStatusesMembers(own, statuses);
        OrdersArePreorders();
        SortBySorted(joined, StatusThenNewest);
        assert forall x :: x in SortBy(joined, StatusThenNewest) <==> x in joined by {
          assert forall x :: x in SortBy(joined, StatusThenNewest) <==> x in multiset(joined);
        }
        Some(ProjectWithTasks(p, SortBy(joined, StatusThenNewest)))
    }

    /** With the empty query every title matches, so searching returns the
        same rows as listing the user's projects, up to order. */
    lemma SearchWithEmptyQuery(userId: string)
      ensures multiset(SearchProjects(userId, "")) == multiset(GetAllProjects(userId))
    {
      forall p: Project | p in projects
        ensures (p.userId == userId && Contains(p.title, "")) == (p.userId == userId)
      {
        ContainsEmpty(p.title);
      }
      FilterCongruent(projects, (p: Project) => p.userId == userId && Contains(p.title, ""),
                      (p: Project) => p.userId == userId);
    }

    // --- project writes --------------------------------------------------

    /** `createProject(data)`: a new row stamped with the present time. The
        id stands for the one the store's default generates. */
    method CreateProject(id: string, title: string, description: Option<string>, userId: string)
      returns (r: Result<Project, Error>)
      requires Valid()
      modifies this`projects
      ensures Valid()
      ensures id in KeySet(old(projects), IdOfProject) ==>
        r == Failure(UniqueViolation) && projects == old(projects)
      ensures id !in KeySet(old(projects), IdOfProject) && userId !in users ==>
        r == Failure(ForeignKeyViolation) && projects == old(projects)
      ensures id !in KeySet(old(projects), IdOfProject) && userId in users ==>
        && r == Success(Project(id, title, description, clock, clock, userId))
        && projects == old(projects) + [r.value]
    {
      if id in KeySet(projects, IdOfProject) {
        return Failure(UniqueViolation);
      }
      if userId !in users {
        return Failure(ForeignKeyViolation);
      }
      var now := clock;
      var p := Project(id, title, description, now, now, userId);
      CreateProjectKeepsValid(users, projects, tasks, statuses, clock, p);
      projects := projects + [p];
      r := Success(p);
    }

    /** `updateProject(projectId, data)`: only the defined fields are written
        and `updatedAt` is set to the present time, even for an empty patch. */
    method UpdateProject(projectId: string, patch: ProjectPatch) returns (r: Result<Project, Error>)
      requires Valid()
      modifies this`projects
      ensures Valid()
      ensures ProjectById(old(projects), projectId).None? ==>
        r == Failure(RecordNotFound) && projects == old(projects)
      ensures ProjectById(old(projects), projectId).Some? ==>
        && r == Success(PatchedProject(ProjectById(old(projects), projectId).value, patch, clock))
        && projects == ReplaceProject(old(projects), r.value)
        && ProjectById(projects, projectId) == Some(r.value)
      ensures forall q :: q != projectId ==> ProjectById(projects, q) == ProjectById(old(projects), q)
    {
      var now := clock;
      var data := RemoveUndefinedProperties(ProjectPatchEntries(patch));
      var found := ProjectById(projects, projectId);
      if found.None? {
        return Failure(RecordNotFound);
      }
      var updated := ApplyProjectData(found.value, data).(updatedAt := now);
      ProjectUpdateIsPartial(found.value, patch, now);
      ReplaceProjectKeepsValid(users, projects, tasks, statuses, clock, updated);
      forall q ensures ProjectById(ReplaceProject(projects, updated), q)
                    == if q == projectId then Some(updated) else ProjectById(projects, q) {
        ReplaceByKeyLookup(projects, IdOfProject, updated, q);
      }
      projects := ReplaceProject(projects, updated);
      r := Success(updated);
    }

    /** `deleteProject(projectId)`: the row goes, and its tasks with it. */
    method DeleteProject(projectId: string) returns (r: Result<(), Error>)
      requires Valid()
      modifies this`projects, this`tasks
      ensures Valid()
      ensures projectId !in KeySet(old(projects), IdOfProject) ==>
        r == Failure(RecordNotFound) && projects == old(projects) && tasks == old(tasks)
      ensures projectId in KeySet(old(projects), IdOfProject) ==>
        && r == Success(())
        && projects == RemoveProject(old(projects), projectId)
        && tasks == RemoveTasksOf(old(tasks), projectId)
      ensures projectId !in KeySet(projects, IdOfProject)
      ensures forall t :: t in tasks ==> t.projectId != projectId
      ensures forall p :: p in projects <==> p in old(projects) && p.id != projectId
      ensures forall t :: t in tasks <==> t in old(tasks) && t.projectId != projectId
    {
      if projectId !in KeySet(projects, IdOfProject) {
        return Failure(RecordNotFound);
      }
      DeleteProjectKeepsValid(users, projects, tasks, statuses, clock, projectId);
      tasks := RemoveTasksOf(tasks, projectId);
      projects := RemoveProject(projects, projectId);
      r := Success(());
    }

    // --- task writes, each followed by a touch of the parent project -----

    /** `createTask(data)`: insert the row, then set the parent project's
        `updatedAt` to the present time. */
    method CreateTask(id: string, title: string, description: Option<string>, statusId: string, projectId: string)
      returns (r: Result<TaskWithStatus, Error>)
      requires Valid()
      modifies this`projects, this`tasks
      ensures Valid()
      ensures id in KeySet(old(tasks), IdOfTask) ==>
        r == Failure(UniqueViolation) && projects == old(projects) && tasks == old(tasks)
      ensures id !in KeySet(old(tasks), IdOfTask)
              && (projectId !in KeySet(old(projects), IdOfProject) || statusId !in KeySet(statuses, IdOfStatus)) ==>
        r == Failure(ForeignKeyViolation) && projects == old(projects) && tasks == old(tasks)
      ensures r.Success? ==>
        && r.value.task == Task(id, title, description, statusId, clock, clock, projectId)
        && r.value.status in statuses && r.value.status.id == statusId
        && tasks == old(tasks) + [r.value.task]
        && projects == TouchProject(old(projects), projectId, clock)
        && ProjectById(projects, projectId) == Some(ProjectById(old(projects), projectId).value.(updatedAt := clock))
        && ProjectById(old(projects), projectId).value.updatedAt <= ProjectById(projects, projectId).value.updatedAt
      ensures (&& id !in KeySet(old(tasks), IdOfTask)
               && projectId in KeySet(old(projects), IdOfProject)
               && statusId in KeySet(statuses, IdOfStatus)) ==> r.Success?
      ensures forall q :: q != projectId ==> ProjectById(projects, q) == ProjectById(old(projects), q)
    {
      if id in KeySet(tasks, IdOfTask) {
        return Failure(UniqueViolation);
      }
      if projectId !in KeySet(projects, IdOfProject) || statusId !in KeySet(statuses, IdOfStatus) {
        return Failure(ForeignKeyViolation);
      }
      // task.create
      var now := clock;
      var t := Task(id, title, description, statusId, now, now, projectId);
      var joined := JoinStatus(t, statuses);
      CreateTaskKeepsValid(users, projects, tasks, statuses, clock, t);
      tasks := tasks + [t];
      // project.update of the parent's updatedAt
      TouchKeepsValid(users, projects, tasks, statuses, clock, projectId);
      forall q ensures ProjectById(TouchProject(projects, projectId, now), q)
                    == match ProjectById(projects, q)
                       case None => None
                       case Some(p) => Some(if q == projectId then p.(updatedAt := now) else p) {
        TouchProjectLookup(projects, projectId, now, q);
      }
      projects := TouchProject(projects, projectId, now);
      r := Success(joined);
    }

    /** `updateTask(taskId, data)`: write the defined fields and the
        present time into the row, then touch the row's parent project. */
    method UpdateTask(taskId: string, patch: TaskPatch) returns (r: Result<TaskWithStatus, Error>)
      requires Valid()
      modifies this`projects, this`tasks
      ensures Valid()
      ensures TaskById(old(tasks), taskId).None? ==>
        r == Failure(RecordNotFound) && projects == old(projects) && tasks == old(tasks)
      ensures TaskById(old(tasks), taskId).Some? && patch.statusId.Some?
              && patch.statusId.value !in KeySet(statuses, IdOfStatus) ==>
        r == Failure(ForeignKeyViolation) && projects == old(projects) && tasks == old(tasks)
      ensures r.Success? ==>
        var before := TaskById(old(tasks), taskId).value;
        && r.value.task == PatchedTask(before, patch, clock)
        && r.value.status in statuses && r.value.status.id == r.value.task.statusId
        && tasks == ReplaceTask(old(tasks), r.value.task)
        && TaskById(tasks, taskId) == Some(r.value.task)
        && projects == TouchProject(old(projects), before.projectId, clock)
        && ProjectById(projects, before.projectId).Some?
        && ProjectById(projects, before.projectId).value.updatedAt == clock
        && ProjectById(old(projects), before.projectId).Some?
        && ProjectById(old(projects), before.projectId).value.updatedAt <= clock
        && (forall q :: q != before.projectId ==> ProjectById(projects, q) == ProjectById(old(projects), q))
      ensures (&& TaskById(old(tasks), taskId).Some?
               && (patch.statusId.None? || patch.statusId.value in KeySet(statuses, IdOfStatus))) ==> r.Success?
    {
      var now := clock;
      var data := RemoveUndefinedProperties(TaskPatchEntries(patch));
      var found := TaskById(tasks, taskId);
      if found.None? {
        return Failure(RecordNotFound);
      }
      if patch.statusId.Some? && patch.statusId.value !in KeySet(statuses, IdOfStatus) {
        return Failure(ForeignKeyViolation);
      }
      // task.update
      var updated := ApplyTaskData(found.value, data).(updatedAt := now);
      TaskUpdateIsPartial(found.value, patch, now);
      var joined := JoinStatus(updated, statuses);
      ReplaceTaskKeepsValid(users, projects, tasks, statuses, clock, updated);
      ReplaceByKeyLookup(tasks, IdOfTask, updated, taskId);
      tasks := ReplaceTask(tasks, updated);
      // project.update of the parent's updatedAt, the parent read from the updated row
      var parent := updated.projectId;
      TouchKeepsValid(users, projects, tasks, statuses, clock, parent);
      forall q ensures ProjectById(TouchProject(projects, parent, now), q)
                    == match ProjectById(projects, q)
                       case None => None
                       case Some(p) => Some(if q == parent then p.(updatedAt := now) else p) {
        TouchProjectLookup(projects, parent, now, q);
      }
      projects := TouchProject(projects, parent, now);
      r := Success(joined);
    }

    /** `deleteTask(taskId)`: look the row up (failing with "Task not
        found"), keep its project id, delete the row, then touch that
        project. */
    method DeleteTask(taskId: string) returns (r: Result<(), Error>)
      requires Valid()
      modifies this`projects, this`tasks
      ensures Valid()
      ensures TaskById(old(tasks), taskId).None? ==>
        r == Failure(TaskNotFound) && projects == old(projects) && tasks == old(tasks)
      ensures TaskById(old(tasks), taskId).Some? ==>
        var parent := TaskById(old(tasks), taskId).value.projectId;
        && r == Success(())
        && tasks == RemoveTask(old(tasks), taskId)
        && TaskById(tasks, taskId).None?
        && projects == TouchProject(old(projects), parent, clock)
        && ProjectById(projects, parent).Some?
        && ProjectById(projects, parent).value.updatedAt == clock
        && ProjectById(old(projects), parent).Some?
        && ProjectById(old(projects), parent).value.updatedAt <= clock
        && (forall q :: q != parent ==> ProjectById(projects, q) == ProjectById(old(projects), q))
    {
      var found := TaskById(tasks, taskId);
      if found.None? {
        return Failure(TaskNotFound);
      }
      var parent := found.value.projectId;
      // task.delete
      DeleteTaskKeepsValid(users, projects, tasks, statuses, clock, taskId);
      tasks := RemoveTask(tasks, taskId);
      // project.update of the remembered parent's updatedAt
      var now := clock;
      TouchKeepsValid(users, projects, tasks, statuses, clock, parent);
      forall q ensures ProjectById(TouchProject(projects, parent, now), q)
                    == match ProjectById(projects, q)
                       case None => None
                       case Some(p) => Some(if q == parent then p.(updatedAt := now) else p) {
        TouchProjectLookup(projects, parent, now, q);
      }
      projects := TouchProject(projects, parent, now);
      r := Success(());
    }
  }
}
