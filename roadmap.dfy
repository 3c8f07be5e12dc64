/** The intern's roadmap (`new-frontend/pages/intern/roadmap.js`): the
    completed/pending split of the assigned tasks and each task's line on
    the timeline. */
module Roadmap {
  import opened Wrappers
  import opened Seqs
  import opened Strings
  import opened Models

  /** `statuses.some(s => s.taskId === task._id && s.status === "completed")`. */
  predicate Completed(statuses: seq<TaskStatus>, t: Task) {
    exists k :: 0 <= k < |statuses| && statuses[k].taskId == t.id && statuses[k].status == "completed"
  }

  predicate NotCompleted(statuses: seq<TaskStatus>, t: Task) {
    !Completed(statuses, t)
  }

  /** `completedTasks`: the completed tasks, in their order. */
  function CompletedTasks(tasks: seq<Task>, statuses: seq<TaskStatus>): (r: seq<Task>)
    ensures forall t :: t in r <==> t in tasks && Completed(statuses, t)
    ensures IsSubsequence(r, tasks)
  {
    FilterSpec(tasks, t => Completed(statuses, t));
    Filter(tasks, t => Completed(statuses, t))
  }

  datatype Progress = Progress(completed: int, pending: int)

  /** `progressCounts`. */
  function ProgressCounts(tasks: seq<Task>, statuses: seq<TaskStatus>): Progress {
    var c := |CompletedTasks(tasks, statuses)|;
    Progress(c, |tasks| - c)
  }

  /** The two counts share out the tasks: none is counted twice or lost, and
      the pending count is the number of tasks without a "completed" record. */
  lemma ProgressSplit(tasks: seq<Task>, statuses: seq<TaskStatus>)
    ensures ProgressCounts(tasks, statuses).completed + ProgressCounts(tasks, statuses).pending == |tasks|
    ensures 0 <= ProgressCounts(tasks, statuses).completed <= |tasks|
    ensures ProgressCounts(tasks, statuses).pending == |Filter(tasks, t => NotCompleted(statuses, t))|
  {
    FilterComplement(tasks, t => Completed(statuses, t), t => NotCompleted(statuses, t));
  }

  predicate ForTask(t: Task, s: TaskStatus) {
    s.taskId == t.id
  }

  /** `s => s.taskId === task._id`. */
  function IsFor(t: Task): TaskStatus -> bool {
    s => ForTask(t, s)
  }

  /** Record `k` is the first one for task `t`. */
  predicate FirstFor(statuses: seq<TaskStatus>, t: Task, k: int) {
    0 <= k < |statuses| && statuses[k].taskId == t.id && forall j :: 0 <= j < k ==> statuses[j].taskId != t.id
  }

  /** `statuses.find(s => s.taskId === task._id)?.status || "Upcoming"`:
      the status of the first record for the task, or "Upcoming" when there
      is none or it is empty. */
  function TimelineStatus(statuses: seq<TaskStatus>, t: Task): (shown: string)
    ensures shown != ""
    ensures (forall k :: 0 <= k < |statuses| ==> statuses[k].taskId != t.id) ==> shown == "Upcoming"
    ensures forall k :: FirstFor(statuses, t, k) && statuses[k].status != "" ==> shown == statuses[k].status
    ensures forall k :: FirstFor(statuses, t, k) && statuses[k].status == "" ==> shown == "Upcoming"
  {
    var found := Find(statuses, IsFor(t));
    assert forall k :: FirstFor(statuses, t, k) ==> found == Some(statuses[k]) by {
      forall k | FirstFor(statuses, t, k) ensures found == Some(statuses[k]) {
        FirstForFound(statuses, t, k);
      }
    }
    match found
    case None => "Upcoming"
    case Some(s) => if s.status == "" then "Upcoming" else s.status
  }

  /** The first record for the task is the one `find` returns. */
  lemma FirstForFound(statuses: seq<TaskStatus>, t: Task, k: int)
    requires FirstFor(statuses, t, k)
    ensures Find(statuses, IsFor(t)) == Some(statuses[k])
  {
    var p := IsFor(t);
    assert p(statuses[k]);
    var r := Find(statuses, p);
    var i :| 0 <= i < |statuses| && statuses[i] == r.value && p(r.value)
      && forall j :: 0 <= j < i ==> !p(statuses[j]);
    assert statuses[i].taskId == t.id;
    assert i == k;
  }

  /** The chart and the timeline can disagree: with an "in progress" record
      ahead of a "completed" one the task counts as completed but its line
      reads "in progress". */
  lemma ChartAndTimelineDisagree(t: Task, intern: string, d: Calendar.Date)
    ensures var statuses := [TaskStatus(intern, t.id, "in progress", d), TaskStatus(intern, t.id, "completed", d)];
      Completed(statuses, t) && TimelineStatus(statuses, t) == "in progress"
  {
    var statuses := [TaskStatus(intern, t.id, "in progress", d), TaskStatus(intern, t.id, "completed", d)];
    assert statuses[1].taskId == t.id && statuses[1].status == "completed";
  }

  /** The classes of a timeline line: dot colour, text colour, weight. */
  datatype Style = Style(dot: string, text: string, weight: string)

  function StatusStyle(status: string): (st: Style)
    ensures status == "completed" ==> st == Style("bg-green-500", "text-gray-500", "")
    ensures status == "in progress" ==> st == Style("bg-red-500", "text-red-500", "font-bold")
    ensures status != "completed" && status != "in progress" ==> st == Style("bg-gray-300", "text-gray-400", "")
  {
    if status == "completed" then Style("bg-green-500", "text-gray-500", "")
    else if status == "in progress" then Style("bg-red-500", "text-red-500", "font-bold")
    else Style("bg-gray-300", "text-gray-400", "")
  }

  /** Only an "in progress" line is bold. */
  lemma BoldOnlyInProgress(status: string)
    ensures StatusStyle(status).weight == "font-bold" <==> status == "in progress"
  {
  }

  /** `s.charAt(0).toUpperCase() + s.slice(1)`. */
  function Capitalise(s: string): (r: string)
    ensures |r| == |s|
    ensures s != [] ==> r[0] == UpperChar(s[0]) && r[1..] == s[1..]
  {
    if s == [] then [] else [UpperChar(s[0])] + s[1..]
  }

  /** Capitalising twice is capitalising once, and the three labels the
      timeline shows come out as "Completed", "In progress" and "Upcoming". */
  lemma CapitaliseLabels(s: string)
    ensures Capitalise(Capitalise(s)) == Capitalise(s)
    ensures Capitalise("completed") == "Completed"
    ensures Capitalise("in progress") == "In progress"
    ensures Capitalise("Upcoming") == "Upcoming"
  {
    assert "completed"[1..] == "ompleted";
    assert "in progress"[1..] == "n progress";
    assert "Upcoming"[1..] == "pcoming";
  }
}
