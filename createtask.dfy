/** The admin task editor (`new-frontend/pages/admin/createtask.js`): the
    form guard, create-or-update dispatch, the edit and reset transitions and
    the task-list filter. A form field is `None` when the page copied an
    `undefined` into it. */
module CreateTask {
  import opened Wrappers
  import opened Seqs
  import opened Strings
  import opened Calendar
  import opened Models

  datatype TaskForm = TaskForm(designation: Option<string>, date: Option<string>,
                               title: Option<string>, description: Option<string>)

  const BlankForm := TaskForm(Some(""), Some(""), Some(""), Some(""))

  /** The page's editing state. */
  datatype Editor = Editor(form: TaskForm, isEditing: bool, editTaskId: Option<string>)

  /** `fetchTasks`: no request without a chosen designation, else
      `GET /admin/tasks/designation/:taskName`. */
  function FetchTasksRequest(taskName: string): (r: Option<string>)
    ensures r.None? <==> taskName == ""
    ensures r.Some? ==> r.value == taskName
  {
    if taskName == "" then None else Some(taskName)
  }

  /** `validateForm`: every one of the four fields is truthy. */
  predicate ValidateForm(f: TaskForm) {
    Filled(f.designation) && Filled(f.date) && Filled(f.title) && Filled(f.description)
  }

  datatype Request = Put(id: Option<string>, body: TaskForm) | Post(body: TaskForm)

  /** `handleSubmit`: nothing for an invalid form; while editing a `PUT` to
      the edited task, otherwise a `POST`; the body is the form. */
  function Submit(e: Editor): (r: Option<Request>)
    ensures r.None? <==> !ValidateForm(e.form)
    ensures r.Some? ==> r.value.body == e.form
    ensures r.Some? ==> (r.value.Put? <==> e.isEditing)
    ensures r.Some? && r.value.Put? ==> r.value.id == e.editTaskId
  {
    if !ValidateForm(e.form) then None
    else if e.isEditing then Some(Put(e.editTaskId, e.form))
    else Some(Post(e.form))
  }

  /** `resetForm`: blank fields, not editing, no edited task. */
  function ResetForm(e: Editor): (r: Editor)
    ensures r.form == BlankForm && !r.isEditing && r.editTaskId.None?
  {
    Editor(BlankForm, false, None)
  }

  /** `handleEdit(task)`: the task's fields, the date cut at its first "T",
      and editing that task. The page only lists stored tasks, whose date is
      required; `task.date.split` would throw without one. */
  function HandleEdit(e: Editor, task: Task): (r: Editor)
    requires task.date.Some?
    ensures r.form.designation == task.designation && r.form.title == task.title
    ensures r.form.description == task.description
    ensures r.form.date == SplitPiece(IsoString(task.date.value), "T", 0)
    ensures r.form.date == Some(IsoDate(task.date.value))
    ensures r.isEditing && r.editTaskId == Some(task.id)
  {
    IsoStringDatePart(task.date.value);
    Editor(TaskForm(task.designation, SplitPiece(IsoString(task.date.value), "T", 0), task.title, task.description),
           true, Some(task.id))
  }

  /** A blank form is never sent: reset always leaves a form that fails the
      guard. */
  lemma ResetThenSubmit(e: Editor)
    ensures Submit(ResetForm(e)).None?
  {
  }

  /** Editing a stored task and submitting it unchanged updates that very
      task, with its date as `YYYY-MM-DD`. */
  lemma EditThenSubmit(e: Editor, task: Task)
    requires ValidTask(task) && task.designation.Some? && task.designation.value != ""
    ensures Submit(HandleEdit(e, task)) == Some(Put(Some(task.id), HandleEdit(e, task).form))
    ensures HandleEdit(e, task).form.date == Some(IsoDate(task.date.value))
  {
    assert |IsoDate(task.date.value)| > 0;
  }

  /** A listed task: its title is a string and its date an ISO string. */
  predicate Listed(t: Task) {
    t.title.Some? && t.date.Some?
  }

  predicate MatchesFilter(filter: string, t: Task)
    requires Listed(t)
  {
    ContainsIgnoreCase(t.title.value, filter) || ContainsIgnoreCase(IsoString(t.date.value), filter)
  }

  function Keep(filter: string, t: Task): bool {
    Listed(t) && MatchesFilter(filter, t)
  }

  /** `filteredTasks`: the tasks whose title or date contains the filter,
      ignoring case, in their order. */
  function FilteredTasks(tasks: seq<Task>, filter: string): (r: seq<Task>)
    requires forall k :: 0 <= k < |tasks| ==> Listed(tasks[k])
    ensures forall t :: t in r <==> t in tasks && MatchesFilter(filter, t)
    ensures IsSubsequence(r, tasks)
  {
    FilterSpec(tasks, t => Keep(filter, t));
    Filter(tasks, t => Keep(filter, t))
  }

  /** The empty filter keeps every task. */
  lemma FilteredEmpty(tasks: seq<Task>)
    requires forall k :: 0 <= k < |tasks| ==> Listed(tasks[k])
    ensures FilteredTasks(tasks, "") == tasks
  {
    forall k | 0 <= k < |tasks| ensures Keep("", tasks[k]) {
      ContainsIgnoreCaseEmpty(tasks[k].title.value);
    }
    FilterAll(tasks, t => Keep("", t));
  }

  /** A task is found by its own title and by its own day written
      `YYYY-MM-DD`, the form the editor shows. */
  lemma FoundByTitleOrDay(tasks: seq<Task>, t: Task)
    requires forall k :: 0 <= k < |tasks| ==> Listed(tasks[k])
    requires t in tasks && Listed(t)
    ensures t in FilteredTasks(tasks, t.title.value)
    ensures t in FilteredTasks(tasks, IsoDate(t.date.value))
  {
    var k :| 0 <= k < |tasks| && tasks[k] == t;
    var title, d := t.title.value, t.date.value;
    assert OccursAt(Lower(title), Lower(title), 0);
    LowerAppend(IsoDate(d), "T00:00:00.000Z");
    ContainsParts(Lower(IsoDate(d)), Lower("T00:00:00.000Z"));
  }
}
