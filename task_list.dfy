/** The task list screen (src/pages/Tab1.tsx): saving, completing and
    deleting tasks, the undo of the last deletion, and the filtered and
    sorted list it shows. */
module TaskList {
  import opened Optional
  import opened Tasks
  import opened Seqs
  import opened Calendar

  /** The reminder call an action makes. The screen does not wait for it:
      the call is returned, and the scheduler is modelled on its own. */
  datatype ReminderRequest =
    | NoRequest
    | ScheduleReminder(task: Task)
    | CancelReminder(id: string)
    | RescheduleAllReminders(tasks: seq<Task>)

  /** `list.find(p => p.id === id)`: the first task with that id. */
  function FindById(tasks: seq<Task>, id: string): (r: Option<Task>)
    ensures r.None? <==> id !in Ids(tasks)
    ensures r.Some? ==> r.value in tasks && r.value.id == id
    ensures r.Some? ==> exists i :: 0 <= i < |tasks| && tasks[i] == r.value && forall j :: 0 <= j < i ==> tasks[j].id != id
  {
    if tasks == [] then None
    else if tasks[0].id == id then Some(tasks[0])
    else
      var r := FindById(tasks[1..], id);
      assert r.Some? ==> exists i :: 0 <= i < |tasks| && tasks[i] == r.value && forall j :: 0 <= j < i ==> tasks[j].id != id by {
        if r.Some? {
          var i :| 0 <= i < |tasks[1..]| && tasks[1..][i] == r.value && forall j :: 0 <= j < i ==> tasks[1..][j].id != id;
          assert tasks[i + 1] == r.value;
          assert forall j :: 0 <= j < i + 1 ==> tasks[j].id != id by {
            forall j | 0 <= j < i + 1 ensures tasks[j].id != id {
              if j > 0 {
                assert tasks[j] == tasks[1..][j - 1];
              }
            }
          }
        }
      }
      r
  }

  /** `prev.map(p => p.id === task.id ? task : p)`. */
  function ReplaceById(tasks: seq<Task>, task: Task): (r: seq<Task>)
    ensures |r| == |tasks|
    ensures forall i :: 0 <= i < |tasks| ==> r[i] == (if tasks[i].id == task.id then task else tasks[i])
  {
    if tasks == [] then [] else [if tasks[0].id == task.id then task else tasks[0]] + ReplaceById(tasks[1..], task)
  }

  /** `handleSave`: a task whose id is already listed replaces every task
      with that id where it stands; a new task goes to the head of the list. */
  function Upsert(tasks: seq<Task>, task: Task): seq<Task> {
    if FindById(tasks, task.id).Some? then ReplaceById(tasks, task) else [task] + tasks
  }

  /** Only a new task has its reminder scheduled on save. */
  function SaveRequest(tasks: seq<Task>, task: Task): (r: ReminderRequest)
    ensures r == NoRequest <==> task.id in Ids(tasks)
    ensures r != NoRequest ==> r == ScheduleReminder(task)
  {
    if FindById(tasks, task.id).Some? then NoRequest else ScheduleReminder(task)
  }

  /** After saving, the saved task is listed and the ids are those before
      plus its own; an existing id keeps the length and every other task,
      a new one is put at the head. */
  lemma UpsertMeaning(tasks: seq<Task>, task: Task)
    ensures task in Upsert(tasks, task)
    ensures Ids(Upsert(tasks, task)) == Ids(tasks) + {task.id}
    ensures task.id in Ids(tasks) ==> |Upsert(tasks, task)| == |tasks|
    ensures task.id !in Ids(tasks) ==> Upsert(tasks, task) == [task] + tasks
  {
    if task.id in Ids(tasks) {
      ReplaceKeepsIds(tasks, task);
    } else {
      var r := Upsert(tasks, task);
      assert forall u :: u in r <==> u == task || u in tasks;
    }
  }

  lemma ReplaceKeepsIds(tasks: seq<Task>, task: Task)
    requires task.id in Ids(tasks)
    ensures task in ReplaceById(tasks, task)
    ensures Ids(ReplaceById(tasks, task)) == Ids(tasks)
  {
    var t :| t in tasks && t.id == task.id;
    var i :| 0 <= i < |tasks| && tasks[i] == t;
    assert ReplaceById(tasks, task)[i] == task;
    ReplaceSameIds(tasks, task);
  }

  /** Replacing tasks by one with the same id leaves the set of ids alone. */
  lemma {:induction false} ReplaceSameIds(tasks: seq<Task>, task: Task)
    ensures Ids(ReplaceById(tasks, task)) == Ids(tasks)
  {
    if tasks != [] {
      ReplaceSameIds(tasks[1..], task);
      var x := if tasks[0].id == task.id then task else tasks[0];
      IdsCons(x, ReplaceById(tasks[1..], task));
      IdsCons(tasks[0], tasks[1..]);
      assert tasks == [tasks[0]] + tasks[1..];
    }
  }

  lemma IdsCons(x: Task, rest: seq<Task>)
    ensures Ids([x] + rest) == {x.id} + Ids(rest)
  {
    assert forall u :: u in [x] + rest <==> u == x || u in rest;
  }

  /** Saving the same task again changes nothing. */
  lemma UpsertIdempotent(tasks: seq<Task>, task: Task)
    ensures Upsert(Upsert(tasks, task), task) == Upsert(tasks, task)
  {
    var r := Upsert(tasks, task);
    UpsertSettles(tasks, task);
    FindsPresent(r, task);
    var r2 := ReplaceById(r, task);
    forall i | 0 <= i < |r| ensures r2[i] == r[i] {
    }
  }

  /** After a save, the saved task is listed and is the only task carrying
      its id. */
  lemma UpsertSettles(tasks: seq<Task>, task: Task)
    ensures task in Upsert(tasks, task)
    ensures forall i :: 0 <= i < |Upsert(tasks, task)| && Upsert(tasks, task)[i].id == task.id ==>
      Upsert(tasks, task)[i] == task
  {
    if FindById(tasks, task.id).Some? {
      var t := FindById(tasks, task.id).value;
      var i :| 0 <= i < |tasks| && tasks[i] == t;
      assert ReplaceById(tasks, task)[i] == task;
    } else {
      var r := [task] + tasks;
      forall i | 0 < i < |r| ensures r[i].id != task.id {
        assert r[i] == tasks[i - 1];
        assert tasks[i - 1] in tasks;
      }
    }
  }

  lemma FindsPresent(tasks: seq<Task>, t: Task)
    requires t in tasks
    ensures FindById(tasks, t.id).Some?
  {
    assert t.id in Ids(tasks);
  }

  /** Ids that are unique stay unique when a task is saved. */
  lemma UpsertKeepsIdsUnique(tasks: seq<Task>, task: Task)
    requires UniqueIds(tasks)
    ensures UniqueIds(Upsert(tasks, task))
  {
    if FindById(tasks, task.id).None? {
      var r := [task] + tasks;
      forall i, j | 0 <= i < j < |r| ensures r[i].id != r[j].id {
        assert r[j] == tasks[j - 1];
        if i == 0 {
          assert tasks[j - 1] in tasks;
        } else {
          assert r[i] == tasks[i - 1];
        }
      }
    } else {
      var r := ReplaceById(tasks, task);
      assert forall i :: 0 <= i < |r| ==> r[i].id == tasks[i].id;
    }
  }

  ghost predicate UniqueIds(tasks: seq<Task>) {
    forall i, j :: 0 <= i < j < |tasks| ==> tasks[i].id != tasks[j].id
  }

  // ---------------------------------------------------------------------------
  // Completion

  /** One task of `toggle`: completing stamps `completedAt` with `now`,
      reopening clears it; nothing else about the task changes. */
  function Toggled(t: Task, now: Instant): (r: Task)
    ensures r.completed == !t.completed
    ensures CompletionConsistent(r)
    ensures r.completed ==> r.completedAt == Some(now)
    ensures r.(completed := t.completed, completedAt := t.completedAt) == t
  {
    if !t.completed then t.(completed := true, completedAt := Some(now))
    else t.(completed := false, completedAt := None)
  }

  /** `toggle(id)`: every task with that id is toggled, the others are kept. */
  function ToggleById(tasks: seq<Task>, id: string, now: Instant): (r: seq<Task>)
    ensures |r| == |tasks|
    ensures forall i :: 0 <= i < |tasks| ==> r[i] == (if tasks[i].id == id then Toggled(tasks[i], now) else tasks[i])
  {
    if tasks == [] then [] else [if tasks[0].id == id then Toggled(tasks[0], now) else tasks[0]] + ToggleById(tasks[1..], id, now)
  }

  /** The reminder call of `toggle`, made for the first task with the id
      in the toggled list: a task that became complete has its reminder
      cancelled, one that was reopened has it scheduled. */
  function ToggleRequest(toggled: seq<Task>, id: string): (r: ReminderRequest)
    ensures id !in Ids(toggled) <==> r == NoRequest
    ensures id in Ids(toggled) && (forall t :: t in toggled && t.id == id ==> t.completed) ==> r == CancelReminder(id)
    ensures id in Ids(toggled) && (forall t :: t in toggled && t.id == id ==> !t.completed) ==>
      r.ScheduleReminder? && r.task.id == id
    ensures FindById(toggled, id).Some? && FindById(toggled, id).value.completed ==> r == CancelReminder(id)
    ensures FindById(toggled, id).Some? && !FindById(toggled, id).value.completed ==>
      r == ScheduleReminder(FindById(toggled, id).value)
    ensures r.CancelReminder? ==> r.id == id && exists t :: t in toggled && t.id == id && t.completed
    ensures r.ScheduleReminder? ==> r.task in toggled && r.task.id == id && !r.task.completed
  {
    match FindById(toggled, id)
    case None => NoRequest
    case Some(t) => if t.completed then CancelReminder(id) else ScheduleReminder(t)
  }

  /** Toggling twice restores every completion flag; when the toggled tasks
      were open and had no completion time, the list comes back unchanged. */
  lemma ToggleTwice(tasks: seq<Task>, id: string, now1: Instant, now2: Instant)
    ensures var r := ToggleById(ToggleById(tasks, id, now1), id, now2);
      && (forall i :: 0 <= i < |tasks| ==> r[i].completed == tasks[i].completed)
      && ((forall t :: t in tasks && t.id == id ==> !t.completed && t.completedAt.None?) ==> r == tasks)
  {
    var r := ToggleById(ToggleById(tasks, id, now1), id, now2);
    if forall t :: t in tasks && t.id == id ==> !t.completed && t.completedAt.None? {
      forall i | 0 <= i < |tasks| ensures r[i] == tasks[i] {
        if tasks[i].id == id {
          assert tasks[i] in tasks;
        }
      }
    }
  }

  /** Toggling keeps the flag and the timestamp in step: a consistent list
      stays consistent, and the toggled tasks become consistent. */
  lemma ToggleKeepsConsistency(tasks: seq<Task>, id: string, now: Instant)
    ensures var r := ToggleById(tasks, id, now);
      forall i :: 0 <= i < |r| ==> (CompletionConsistent(tasks[i]) || tasks[i].id == id ==> CompletionConsistent(r[i]))
  {
  }

  // ---------------------------------------------------------------------------
  // Filtering and sorting

  datatype ListFilter = All | Today | Upcoming | CompletedOnly

  /** Whether a task is shown under a filter at instant `now`. */
  predicate Shown(f: ListFilter, t: Task, now: Instant, dayOf: Instant -> CivilDate) {
    match f
    case All => true
    case Today => t.due.Some? && SameDay(t.due.value, now, dayOf) && !t.completed
    case Upcoming => t.due.Some? && t.due.value > now && !SameDay(t.due.value, now, dayOf) && !t.completed
    case CompletedOnly => t.completed
  }

  /** `priorityRank`: high first, then medium, then low or none. */
  function PriorityRank(p: Option<Priority>): (r: int)
    ensures 0 <= r <= 2
    ensures r == 0 <==> p == Some(High)
    ensures r == 1 <==> p == Some(Medium)
  {
    match p
    case Some(High) => 0
    case Some(Medium) => 1
    case _ => 2
  }

  /** The list screen's comparator, as written: negative when `a` goes first. */
  function CompareForList(a: Task, b: Task): int {
    var pa, pb := PriorityRank(a.priority), PriorityRank(b.priority);
    if pa != pb then pa - pb
    else if a.due.Some? && b.due.Some? then a.due.value - b.due.value
    else if a.due.Some? then -1
    else if b.due.Some? then 1
    else b.createdAt - a.createdAt
  }

  /** The order of the comparator as a key: priority rank, then tasks with a
      due time before those without, then due time ascending, or creation
      time descending among tasks without a due time. */
  function ListKey(t: Task): Key {
    match t.due
    case Some(d) => Key(PriorityRank(t.priority), 0, d)
    case None => Key(PriorityRank(t.priority), 1, -t.createdAt)
  }

  /** The comparator and the key order agree, so sorting with the comparator
      (stably, as `Array.prototype.sort` does) is sorting by the key. */
  lemma CompareForListFollowsKey(a: Task, b: Task)
    ensures CompareForList(a, b) <= 0 <==> KeyLeq(ListKey(a), ListKey(b))
    ensures CompareForList(a, b) == 0 <==> ListKey(a) == ListKey(b)
  {
  }

  /** `filteredAndSorted`: the tasks the filter shows, sorted. */
  method FilteredAndSorted(tasks: seq<Task>, filter: ListFilter, now: Instant, dayOf: Instant -> CivilDate)
    returns (list: seq<Task>)
    ensures list == SortBy(Filter(tasks, t => Shown(filter, t, now, dayOf)), ListKey)
    ensures forall t :: t in list <==> t in tasks && Shown(filter, t, now, dayOf)
    ensures multiset(list) == multiset(Filter(tasks, t => Shown(filter, t, now, dayOf)))
    ensures SortedBy(list, ListKey)
  {
    list := tasks;
    if filter == Today {
      list := Filter(list, t => Shown(Today, t, now, dayOf));
    } else if filter == Upcoming {
      list := Filter(list, t => Shown(Upcoming, t, now, dayOf));
    } else if filter == CompletedOnly {
      list := Filter(list, t => Shown(CompletedOnly, t, now, dayOf));
    } else {
      FilterAll(list, t => Shown(All, t, now, dayOf));
    }
    ghost var filtered := list;
    list := SortBy(list, ListKey);
    SortBySorted(filtered, ListKey);
    SortByMembers(filtered, ListKey);
  }

  /** Every filter shows a sub-sequence of the list. */
  lemma FilterShowsSubsequence(tasks: seq<Task>, filter: ListFilter, now: Instant, dayOf: Instant -> CivilDate)
    ensures Subsequence(Filter(tasks, t => Shown(filter, t, now, dayOf)), tasks)
  {
    FilterIsSubsequence(tasks, t => Shown(filter, t, now, dayOf));
  }

  /** `completedCount`: how many tasks are complete. */
  function CompletedCount(tasks: seq<Task>): (n: nat)
    ensures n <= |tasks|
    ensures n + |Filter(tasks, IsPending)| == |tasks|
    ensures n == |tasks| <==> forall t :: t in tasks ==> t.completed
  {
    FilterPartition(tasks, IsCompleted, IsPending);
    assert (forall t :: t in tasks ==> t.completed) <==> Filter(tasks, IsPending) == [] by {
      if Filter(tasks, IsPending) != [] {
        assert Filter(tasks, IsPending)[0] in Filter(tasks, IsPending);
      }
    }
    |Filter(tasks, IsCompleted)|
  }

  // ---------------------------------------------------------------------------
  // Deletion with undo

  /** Removing a task keeps the others in order, drops every task with that id. */
  function RemoveById(tasks: seq<Task>, id: string): (r: seq<Task>)
    ensures id !in Ids(r)
    ensures forall t :: t in r <==> t in tasks && t.id != id
    ensures Subsequence(r, tasks)
    ensures forall t {:trigger multiset(r)[t]} :: multiset(r)[t] == if t.id == id then 0 else multiset(tasks)[t]
  {
    FilterIsSubsequence(tasks, (t: Task) => t.id != id);
    FilterPartition(tasks, (t: Task) => t.id != id, (t: Task) => t.id == id);
    Filter(tasks, (t: Task) => t.id != id)
  }

  /** Removing an id that is not listed changes nothing. */
  lemma RemoveAbsent(tasks: seq<Task>, id: string)
    requires id !in Ids(tasks)
    ensures RemoveById(tasks, id) == tasks
  {
    FilterAll(tasks, (t: Task) => t.id != id);
  }

  /** Deleting a task and restoring it gives back the same tasks (with the
      restored one at the head) when ids are unique. */
  lemma RemoveThenRestore(tasks: seq<Task>, id: string)
    requires UniqueIds(tasks)
    requires id in Ids(tasks)
    ensures multiset([FindById(tasks, id).value] + RemoveById(tasks, id)) == multiset(tasks)
  {
    var t := FindById(tasks, id).value;
    FilterPartition(tasks, (u: Task) => u.id != id, (u: Task) => u.id == id);
    OnlyOneWithId(tasks, t);
  }

  lemma {:induction false} OnlyOneWithId(tasks: seq<Task>, t: Task)
    requires UniqueIds(tasks)
    requires t in tasks
    ensures Filter(tasks, (u: Task) => u.id == t.id) == [t]
  {
    if tasks[0] == t {
      assert forall u :: u in tasks[1..] ==> u.id != t.id;
      FilterNone(tasks[1..], t.id);
    } else {
      OnlyOneWithId(tasks[1..], t);
    }
  }

  lemma {:induction false} FilterNone(tasks: seq<Task>, id: string)
    requires forall u :: u in tasks ==> u.id != id
    ensures Filter(tasks, (u: Task) => u.id == id) == []
  {
    if tasks != [] {
      FilterNone(tasks[1..], id);
    }
  }

  /** How long a deletion can be undone, in milliseconds. */
  const UndoWindowMs: int := 8000

  /** The state of the list screen. */
  class TaskListPage {
    var tasks: seq<Task>
    var filter: ListFilter
    /** The id awaiting confirmation of its deletion. */
    var pendingDeleteId: Option<string>
    var showConfirm: bool
    /** The one deletion that can still be undone. */
    var lastDeleted: Option<Task>
    var showUndoToast: bool
    /** The pending undo timer, by the instant it fires. */
    var undoDeadline: Option<Instant>
    /** The task the form edits (`None` for a new task) and whether it is open. */
    var editing: Option<Task>
    var showModal: bool

    /** A deletion can be undone exactly while a timer is pending that will
        discard it, and the undo toast shows only while that timer is pending. */
    ghost predicate Valid()
      reads this
    {
      && (lastDeleted.Some? <==> undoDeadline.Some?)
      && (showUndoToast ==> undoDeadline.Some?)
    }

    constructor()
      ensures Valid()
      ensures tasks == [] && filter == All && pendingDeleteId == None && !showConfirm
      ensures lastDeleted == None && !showUndoToast && undoDeadline == None
      ensures editing == None && !showModal
    {
      editing := None;
      showModal := false;
      tasks := [];
      filter := All;
      pendingDeleteId := None;
      showConfirm := false;
      lastDeleted := None;
      showUndoToast := false;
      undoDeadline := None;
    }

    /** The first effect: the stored list replaces the empty one, and the
        reminders of the stored tasks are all scheduled afresh. */
    method Loaded(stored: seq<Task>) returns (req: ReminderRequest)
      requires Valid()
      modifies this`tasks
      ensures Valid()
      ensures tasks == stored
      ensures req == RescheduleAllReminders(stored)
    {
      tasks := stored;
      req := RescheduleAllReminders(stored);
    }

    method Save(task: Task) returns (req: ReminderRequest)
      requires Valid()
      modifies this`tasks
      ensures Valid()
      ensures tasks == Upsert(old(tasks), task)
      ensures req == SaveRequest(old(tasks), task)
    {
      req := SaveRequest(tasks, task);
      tasks := Upsert(tasks, task);
    }

    method Toggle(id: string, now: Instant) returns (req: ReminderRequest)
      requires Valid()
      modifies this`tasks
      ensures Valid()
      ensures tasks == ToggleById(old(tasks), id, now)
      ensures req == ToggleRequest(tasks, id)
    {
      tasks := ToggleById(tasks, id, now);
      req := ToggleRequest(tasks, id);
    }

    /** `requestDelete`: ask for confirmation. */
    method RequestDelete(id: string)
      requires Valid()
      modifies this`pendingDeleteId, this`showConfirm
      ensures Valid()
      ensures pendingDeleteId == Some(id) && showConfirm
    {
      pendingDeleteId := Some(id);
      showConfirm := true;
    }

    /** `cancelDelete`: forget the request. */
    method CancelDelete()
      requires Valid()
      modifies this`pendingDeleteId, this`showConfirm
      ensures Valid()
      ensures pendingDeleteId == None && !showConfirm
    {
      pendingDeleteId := None;
      showConfirm := false;
    }

    /** `confirmDelete`: delete the pending id, if it is a non-empty string. */
    method ConfirmDelete(now: Instant) returns (req: ReminderRequest)
      requires Valid()
      modifies this`tasks, this`lastDeleted, this`showUndoToast, this`undoDeadline
      modifies this`pendingDeleteId, this`showConfirm
      ensures Valid()
      ensures !showConfirm
      ensures old(pendingDeleteId).None? || old(pendingDeleteId) == Some("") ==>
        pendingDeleteId == old(pendingDeleteId) && req == NoRequest && tasks == old(tasks)
        && lastDeleted == old(lastDeleted) && showUndoToast == old(showUndoToast) && undoDeadline == old(undoDeadline)
      ensures old(pendingDeleteId).Some? && old(pendingDeleteId) != Some("") ==>
        (var id := old(pendingDeleteId).value;
         pendingDeleteId == None
         && tasks == RemoveById(old(tasks), id)
         && (id in Ids(old(tasks)) ==>
               lastDeleted == FindById(old(tasks), id) && showUndoToast
               && undoDeadline == Some(now + UndoWindowMs) && req == CancelReminder(id))
         && (id !in Ids(old(tasks)) ==>
               lastDeleted == old(lastDeleted) && showUndoToast == old(showUndoToast)
               && undoDeadline == old(undoDeadline) && req == NoRequest))
    {
      req := NoRequest;
      if pendingDeleteId.Some? && pendingDeleteId.value != "" {
        if pendingDeleteId.value !in Ids(tasks) {
          RemoveAbsent(tasks, pendingDeleteId.value);
        }
        req := Remove(pendingDeleteId.value, now);
        pendingDeleteId := None;
      }
      showConfirm := false;
    }

    /** `remove(id)`: an unknown id changes nothing. Otherwise every task with
        the id is removed, the first of them becomes the one deletion that can
        be undone (replacing any earlier one), the undo toast is shown and the
        undo timer is restarted for eight seconds. */
    method Remove(id: string, now: Instant) returns (req: ReminderRequest)
      requires Valid()
      modifies this`tasks, this`lastDeleted, this`showUndoToast, this`undoDeadline
      ensures Valid()
      ensures id !in Ids(old(tasks)) ==>
        tasks == old(tasks) && lastDeleted == old(lastDeleted) && showUndoToast == old(showUndoToast)
        && undoDeadline == old(undoDeadline) && req == NoRequest
      ensures id in Ids(old(tasks)) ==>
        tasks == RemoveById(old(tasks), id) && lastDeleted == FindById(old(tasks), id)
        && showUndoToast && undoDeadline == Some(now + UndoWindowMs) && req == CancelReminder(id)
    {
      var task := FindById(tasks, id);
      if task.Some? {
        assert id in Ids(tasks);
        lastDeleted := task;
        tasks := RemoveById(tasks, id);
        req := CancelReminder(id);
        showUndoToast := true;
        undoDeadline := Some(now + UndoWindowMs);
      } else {
        assert id !in Ids(tasks);
        req := NoRequest;
      }
    }

    /** `handleUndo`: a deletion that can still be undone is put back at the
        head of the list and its reminder scheduled again; either way the
        toast is hidden and the timer cleared. */
    method Undo() returns (req: ReminderRequest)
      requires Valid()
      modifies this`tasks, this`lastDeleted, this`showUndoToast, this`undoDeadline
      ensures Valid()
      ensures old(lastDeleted).Some? ==>
        tasks == [old(lastDeleted).value] + old(tasks) && req == ScheduleReminder(old(lastDeleted).value)
      ensures old(lastDeleted).None? ==> tasks == old(tasks) && req == NoRequest
      ensures lastDeleted == None && !showUndoToast && undoDeadline == None
    {
      req := NoRequest;
      if lastDeleted.Some? {
        tasks := [lastDeleted.value] + tasks;
        req := ScheduleReminder(lastDeleted.value);
        lastDeleted := None;
      }
      showUndoToast := false;
      undoDeadline := None;
    }

    /** Time passes: once the undo timer is due it fires, hiding the toast
        and discarding the deletion for good. */
    method UndoTimerFires(now: Instant)
      requires Valid()
      modifies this`lastDeleted, this`showUndoToast, this`undoDeadline
      ensures Valid()
      ensures old(undoDeadline).Some? && now >= old(undoDeadline).value ==>
        lastDeleted == None && !showUndoToast && undoDeadline == None
      ensures !(old(undoDeadline).Some? && now >= old(undoDeadline).value) ==>
        lastDeleted == old(lastDeleted) && showUndoToast == old(showUndoToast) && undoDeadline == old(undoDeadline)
    {
      if undoDeadline.Some? && now >= undoDeadline.value {
        showUndoToast := false;
        lastDeleted := None;
        undoDeadline := None;
      }
    }

    /** `startEdit`: open the form on an existing task. */
    method StartEdit(t: Task)
      requires Valid()
      modifies this`editing, this`showModal
      ensures Valid() && editing == Some(t) && showModal
    {
      editing := Some(t);
      showModal := true;
    }

    /** The add button: open the form on a new task. */
    method StartNew()
      requires Valid()
      modifies this`editing, this`showModal
      ensures Valid() && editing == None && showModal
    {
      editing := None;
      showModal := true;
    }

    /** The form's `onClose`: the form closes, `editing` is kept. */
    method CloseForm()
      requires Valid()
      modifies this`showModal
      ensures Valid() && !showModal
    {
      showModal := false;
    }

    /** The toast's own dismissal hides it but keeps the deletion undoable
        until the undo timer fires. */
    method ToastDismissed()
      requires Valid()
      modifies this`showUndoToast
      ensures Valid() && !showUndoToast
    {
      showUndoToast := false;
    }

    /** The segment control. */
    method SetFilter(f: ListFilter)
      requires Valid()
      modifies this`filter
      ensures Valid() && filter == f
    {
      filter := f;
    }
  }

  /** A deletion undone before its timer fires restores the deleted task at
      the head of the list; once the timer has fired, undo changes nothing. */
  method RemoveThenUndo(page: TaskListPage, id: string, now: Instant, later: Instant)
    requires page.Valid()
    requires id in Ids(page.tasks)
    modifies page
    ensures page.Valid()
    ensures later < now + UndoWindowMs ==>
      page.tasks == [FindById(old(page.tasks), id).value] + RemoveById(old(page.tasks), id)
    ensures later >= now + UndoWindowMs ==> page.tasks == RemoveById(old(page.tasks), id)
  {
    var _ := page.Remove(id, now);
    page.UndoTimerFires(later);
    var _ := page.Undo();
  }
}
