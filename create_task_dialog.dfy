/** The state logic of the create-task dialog: which status is selected
    initially, and how submitting the form changes `open`, `isLoading` and
    the selected status. Rendering is not modelled. */
module CreateTaskDialog {
  import opened Wrappers
  import opened Seqs
  import Services

  type TaskStatus = Services.TaskStatus

  const Incomplete: string := "Incomplete"

  predicate NamedIncomplete(s: TaskStatus) {
    s.name == Incomplete
  }

  /** JavaScript's `a || b` on an optional string: `undefined` and `""` fall through. */
  function OrElse(a: Option<string>, b: string): string {
    if a.Some? && a.value != "" then a.value else b
  }

  /** `defaultStatus?.id || taskStatuses[0]?.id || ""`, where
      `defaultStatus = taskStatuses.find(s => s.name === "Incomplete")`. */
  function DefaultStatusId(statuses: seq<TaskStatus>): string {
    var found := Find(statuses, NamedIncomplete);
    var first := if |statuses| > 0 then Some(statuses[0]) else None;
    OrElse(if found.Some? then Some(found.value.id) else None,
           OrElse(if first.Some? then Some(first.value.id) else None, ""))
  }

  /** The first status named "Incomplete" is chosen when its id is non-empty. */
  lemma DefaultIsFirstIncomplete(statuses: seq<TaskStatus>, k: nat)
    requires k < |statuses| && statuses[k].name == Incomplete
    requires forall j :: 0 <= j < k ==> statuses[j].name != Incomplete
    requires statuses[k].id != ""
    ensures DefaultStatusId(statuses) == statuses[k].id
  {
  }

  /** Without an "Incomplete" status, the first status is chosen. */
  lemma DefaultWithoutIncompleteIsFirst(statuses: seq<TaskStatus>)
    requires |statuses| > 0
    requires forall j :: 0 <= j < |statuses| ==> statuses[j].name != Incomplete
    ensures DefaultStatusId(statuses) == statuses[0].id
  {
  }

  /** With no statuses there is no choice: `""`. */
  lemma DefaultOfEmptyCatalog()
    ensures DefaultStatusId([]) == ""
  {
  }

  /** `||` treats `""` as false: an "Incomplete" status with an empty id
      falls through to the first status. */
  lemma EmptyIncompleteIdFallsThrough(statuses: seq<TaskStatus>, k: nat)
    requires k < |statuses| && statuses[k].name == Incomplete && statuses[k].id == ""
    requires forall j :: 0 <= j < k ==> statuses[j].name != Incomplete
    ensures DefaultStatusId(statuses) == statuses[0].id
  {
  }

  /** The default is `""` or the id of one of the listed statuses. */
  lemma DefaultIsListedOrEmpty(statuses: seq<TaskStatus>)
    ensures DefaultStatusId(statuses) == "" || exists s :: s in statuses && s.id == DefaultStatusId(statuses)
  {
  }

  /** What the form submits: its own title and description fields, then the
      appended `projectId` and `status`. */
  datatype TaskForm = TaskForm(title: string, description: string, projectId: string, status: string)

  class Dialog {
    const projectId: string
    const taskStatuses: seq<TaskStatus>
    var open: bool
    var isLoading: bool
    var status: string

    /** The first render: closed, idle, the default status selected. */
    constructor (projectId: string, taskStatuses: seq<TaskStatus>)
      ensures this.projectId == projectId && this.taskStatuses == taskStatuses
      ensures !open && !isLoading && status == DefaultStatusId(taskStatuses)
    {
      this.projectId := projectId;
      this.taskStatuses := taskStatuses;
      open := false;
      isLoading := false;
      status := DefaultStatusId(taskStatuses);
    }

    /** `onOpenChange={setOpen}`. */
    method SetOpen(value: bool)
      modifies this`open
      ensures open == value
    {
      open := value;
    }

    /** `onValueChange={setStatus}`: the user picks a status. */
    method SetStatus(value: string)
      modifies this`status
      ensures status == value
    {
      status := value;
    }

    /** `handleSubmit`: mark loading, build the form with the project id and
        the selected status, call the create action (whose outcome is
        `actionSucceeds`), on success close and reset the selection, and in
        every case clear `isLoading`. Returns the form that was submitted. */
    method HandleSubmit(title: string, description: string, actionSucceeds: bool) returns (form: TaskForm)
      modifies this`open, this`isLoading, this`status
      ensures form == TaskForm(title, description, projectId, old(status))
      ensures !isLoading
      ensures actionSucceeds ==> !open && status == DefaultStatusId(taskStatuses)
      ensures !actionSucceeds ==> open == old(open) && status == old(status)
    {
      isLoading := true;
      form := TaskForm(title, description, projectId, status);
      if actionSucceeds {
        open := false;
        status := DefaultStatusId(taskStatuses);
      }
      isLoading := false;
    }
  }
}
