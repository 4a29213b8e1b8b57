/**
 * The JSON view of a task returned by the API: a field-by-field copy in
 * which the id becomes its text form and tags become their names.
 */
module ResponseDto {
  import opened Results
  import opened Uuids
  import opened TaskModel

  /**
   * `TaskResponseDTO`. `tags` is `None` for the nil slice, which the JSON
   * encoder omits; tag ids do not appear.
   */
  datatype TaskResponse = TaskResponse(
    id: string,
    title: string,
    content: string,
    status: string,
    priority: string,
    tags: Option<seq<string>>,
    due: Option<int>,
    archived: bool,
    createdAt: int,
    updatedAt: int)

  /**
   * `ToTaskResponseDTO`: the tag names are appended one by one to a list
   * that starts nil, so a task without tags yields no list at all.
   */
  method ToTaskResponse(task: Task) returns (r: TaskResponse)
    ensures r.tags.None? <==> task.tags == []
    ensures r.tags.Some? ==> |r.tags.value| == |task.tags|
                             && forall k :: 0 <= k < |task.tags| ==> r.tags.value[k] == task.tags[k].name
    ensures r.id == ToString(task.id) && Parse(r.id) == Some(task.id)
    ensures r.title == task.title && r.content == task.content
    ensures r.status == task.status && r.priority == task.priority
    ensures r.due == task.due && r.archived == task.archived
    ensures r.createdAt == task.createdAt && r.updatedAt == task.updatedAt
  {
    var tags: Option<seq<string>> := None;
    var i := 0;
    while i < |task.tags|
      invariant 0 <= i <= |task.tags|
      invariant tags.None? <==> i == 0
      invariant tags.Some? ==> |tags.value| == i && forall k :: 0 <= k < i ==> tags.value[k] == task.tags[k].name
    {
      var names := if tags.None? then [] else tags.value;
      tags := Some(names + [task.tags[i].name]);
      i := i + 1;
    }
    ParseToString(task.id);
    r := TaskResponse(ToString(task.id), task.title, task.content, task.status, task.priority,
                      tags, task.due, task.archived, task.createdAt, task.updatedAt);
  }
}
