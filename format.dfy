/**
  `format_task_info`: a task record, read as a dictionary of strings, mapped to the
  human-friendly record with its defaults.
*/
module Format {
  import opened Wrappers
  import Events
  import opened Reconstruct

  /** The status shown for a record that has none. */
  const Unknown := "UNKNOWN"

  datatype FormattedTask = FormattedTask(
    id: string,
    assignee: string,
    status: string,
    space: string,
    createdAt: Option<string>,
    lastUpdated: Option<string>)

  /** The `KeyError` of `task['id']` when the record has no id. */
  datatype FormatError = MissingKey(key: string)

  /** Python's `d.get(key)`. */
  function Get(d: map<string, string>, key: string): (r: Option<string>)
    ensures r.Some? <==> key in d
    ensures r.Some? ==> r.value == d[key]
  {
    if key in d then Some(d[key]) else None
  }

  /** Python's `d.get(key, default)`. */
  function GetOr(d: map<string, string>, key: string, default: string): (r: string)
    ensures key in d ==> r == d[key]
    ensures key !in d ==> r == default
  {
    if key in d then d[key] else default
  }

  /**
    The formatted record: the id is required, the assignee defaults to "Unassigned",
    the status to "UNKNOWN", the space is the one given, and the last update falls
    back to the creation time.
  */
  function FormatTaskInfo(task: map<string, string>, spaceName: string): (r: Result<FormattedTask, FormatError>)
    ensures r.Failure? <==> "id" !in task
    ensures r.Failure? ==> r.error == MissingKey("id")
    ensures r.Success? ==> r.value.id == task["id"] && r.value.space == spaceName
    ensures r.Success? ==> r.value.assignee == GetOr(task, "assignee", Events.Unassigned)
    ensures r.Success? ==> r.value.status == GetOr(task, "status", Unknown)
    ensures r.Success? ==> r.value.createdAt == Get(task, "created_time")
    ensures r.Success? && "last_update_time" in task ==> r.value.lastUpdated == Some(task["last_update_time"])
    ensures r.Success? && "last_update_time" !in task ==> r.value.lastUpdated == r.value.createdAt
  {
    if "id" !in task then
      Failure(MissingKey("id"))
    else
      Success(FormattedTask(
        task["id"],
        GetOr(task, "assignee", Events.Unassigned),
        GetOr(task, "status", Unknown),
        spaceName,
        Get(task, "created_time"),
        if "last_update_time" in task then Some(task["last_update_time"]) else Get(task, "created_time")))
  }

  function StatusName(s: Status): string {
    match s
    case OPEN => "OPEN"
    case COMPLETED => "COMPLETED"
  }

  /** A record built by the reconstruction, as the dictionary it is in the program. */
  function TaskToDict(t: Task): (d: map<string, string>)
    ensures d.Keys == {"id", "assignee", "status", "created_time", "space_name"}
  {
    map["id" := t.id, "assignee" := t.assignee, "status" := StatusName(t.status),
        "created_time" := t.createdTime, "space_name" := t.spaceName]
  }

  /**
    Formatting a reconstructed record never fails and keeps its id, assignee and
    status; as such a record has no update time, the last update is its creation time.
  */
  lemma FormatReconstructed(t: Task, spaceName: string)
    ensures FormatTaskInfo(TaskToDict(t), spaceName) ==
            Success(FormattedTask(t.id, t.assignee, StatusName(t.status), spaceName,
                                  Some(t.createdTime), Some(t.createdTime)))
  {
    var d := TaskToDict(t);
    assert "last_update_time" !in d;
  }
}
