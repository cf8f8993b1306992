/** The task form (src/components/AddTaskModal.tsx): the fields it edits,
    their defaults when it opens, the subtask and attachment lists, and the
    task it hands back on save or to the focus timer. */
module TaskForm {
  import opened Optional
  import opened Tasks
  import opened Seqs

  /** The characters `String.prototype.trim` removes: WhiteSpace and
      LineTerminator of section 12.2 and 12.3 of ECMA-262. */
  predicate IsSpace(c: char) {
    var n := c as int;
    || 0x09 <= n <= 0x0D
    || n == 0x20 || n == 0xA0 || n == 0x1680
    || 0x2000 <= n <= 0x200A
    || n == 0x2028 || n == 0x2029 || n == 0x202F || n == 0x205F || n == 0x3000
    || n == 0xFEFF
  }

  /** `s` without its leading white space. */
  function TrimStart(s: string): (r: string)
    ensures |r| <= |s| && r == s[|s| - |r|..]
    ensures forall k :: 0 <= k < |s| - |r| ==> IsSpace(s[k])
    ensures r == [] || !IsSpace(r[0])
  {
    if s != [] && IsSpace(s[0]) then TrimStart(s[1..]) else s
  }

  /** `s` without its trailing white space. */
  function TrimEnd(s: string): (r: string)
    ensures |r| <= |s| && r == s[..|r|]
    ensures forall k :: |r| <= k < |s| ==> IsSpace(s[k])
    ensures r == [] || !IsSpace(r[|r| - 1])
  {
    if s != [] && IsSpace(s[|s| - 1]) then TrimEnd(s[..|s| - 1]) else s
  }

  /** `s.trim()`. */
  function Trim(s: string): string {
    TrimEnd(TrimStart(s))
  }

  /** The trimmed string is the middle of `s`: what is cut on either side is
      white space, and it neither starts nor ends with white space. */
  lemma TrimMeaning(s: string)
    ensures var i := |s| - |TrimStart(s)|;
      var j := i + |Trim(s)|;
      && 0 <= i <= j <= |s|
      && Trim(s) == s[i..j]
      && (forall k :: 0 <= k < i ==> IsSpace(s[k]))
      && (forall k :: j <= k < |s| ==> IsSpace(s[k]))
    ensures Trim(s) == [] || (!IsSpace(Trim(s)[0]) && !IsSpace(Trim(s)[|Trim(s)| - 1]))
  {
    var a := TrimStart(s);
    TrimSlice(s, a, TrimEnd(a));
  }

  lemma TrimSlice(s: string, a: string, r: string)
    requires |a| <= |s| && a == s[|s| - |a|..]
    requires forall k :: 0 <= k < |s| - |a| ==> IsSpace(s[k])
    requires a == [] || !IsSpace(a[0])
    requires |r| <= |a| && r == a[..|r|]
    requires forall k :: |r| <= k < |a| ==> IsSpace(a[k])
    requires r == [] || !IsSpace(r[|r| - 1])
    ensures var i := |s| - |a|;
      var j := i + |r|;
      && r == s[i..j]
      && (forall k :: j <= k < |s| ==> IsSpace(s[k]))
      && (r == [] || !IsSpace(r[0]))
  {
    var i := |s| - |a|;
    forall k | i + |r| <= k < |s| ensures IsSpace(s[k]) {
      assert s[k] == a[k - i];
    }
    if r != [] {
      assert r[0] == a[0];
    }
  }

  /** A string trims to nothing exactly when it is all white space: the
      condition that disables saving and ignores a new subtask. */
  lemma TrimEmptyIff(s: string)
    ensures Trim(s) == [] <==> forall k :: 0 <= k < |s| ==> IsSpace(s[k])
  {
    TrimMeaning(s);
    if Trim(s) != [] {
      assert Trim(s)[0] == s[|s| - |TrimStart(s)|];
    }
  }

  /** Trimming twice is trimming once. */
  lemma TrimIdempotent(s: string)
    ensures Trim(Trim(s)) == Trim(s)
  {
    var r := Trim(s);
    TrimMeaning(s);
    if r != [] {
      assert TrimStart(r) == r;
      assert TrimEnd(r) == r;
    }
  }

  /** The save button is enabled when the title is not blank. */
  predicate CanSave(title: string) {
    Trim(title) != []
  }

  /** `prev.filter((_, i) => i !== index)`, with the index counted down as
      the list is walked. */
  function RemoveIndex<T>(s: seq<T>, index: int): seq<T> {
    if s == [] then [] else (if index == 0 then [] else [s[0]]) + RemoveIndex(s[1..], index - 1)
  }

  /** Removing by index drops exactly that element and keeps the rest in
      order; an index outside the list changes nothing. */
  lemma {:induction false} RemoveIndexMeaning<T>(s: seq<T>, index: int)
    ensures 0 <= index < |s| ==> RemoveIndex(s, index) == s[..index] + s[index + 1..]
    ensures !(0 <= index < |s|) ==> RemoveIndex(s, index) == s
  {
    if s != [] {
      RemoveIndexMeaning(s[1..], index - 1);
      if index == 0 {
        assert s[index + 1..] == s[1..];
      } else if 0 < index < |s| {
        assert s[1..][..index - 1] == s[1..index];
        assert s[1..][index..] == s[index + 1..];
        assert [s[0]] + s[1..index] == s[..index];
      } else {
        assert s == [s[0]] + s[1..];
      }
    }
  }

  /** The form's fields. Priority and the three lists always have a value;
      the notes are a string, empty when there are none. */
  class TaskFormState {
    var title: string
    var notes: string
    var due: Option<Instant>
    var priority: Priority
    var category: Option<Category>
    var attachments: seq<string>
    var subtasks: seq<Subtask>
    var recurrence: Option<Recurrence>
    /** The text of the subtask being typed. */
    var newSubtask: string

    /** The form as first mounted: every field at its default. */
    constructor()
      ensures title == "" && notes == "" && due == None && priority == Medium && category == None
      ensures attachments == [] && subtasks == [] && recurrence == None && newSubtask == ""
    {
      title := "";
      notes := "";
      due := None;
      priority := Medium;
      category := None;
      attachments := [];
      subtasks := [];
      recurrence := None;
      newSubtask := "";
    }

    /** The effect run when the form opens or `editing` changes: the fields
        are copied from the task being edited, with defaults for what it
        lacks, or reset for a new task.  The subtask being typed is kept. */
    method Open(editing: Option<Task>)
      modifies this`title, this`notes, this`due, this`priority, this`category,
               this`attachments, this`subtasks, this`recurrence
      ensures editing.Some? ==>
        var e := editing.value;
        && title == e.title && notes == e.notes.GetOr("") && due == e.due
        && priority == e.priority.GetOr(Medium) && category == e.category
        && attachments == e.attachments.GetOr([]) && subtasks == e.subtasks.GetOr([])
        && recurrence == e.recurrence
      ensures editing.None? ==>
        && title == "" && notes == "" && due == None && priority == Medium && category == None
        && attachments == [] && subtasks == [] && recurrence == None
    {
      if editing.Some? {
        var e := editing.value;
        title := e.title;
        notes := e.notes.GetOr("");
        due := e.due;
        priority := e.priority.GetOr(Medium);
        category := e.category;
        attachments := e.attachments.GetOr([]);
        subtasks := e.subtasks.GetOr([]);
        recurrence := e.recurrence;
      } else {
        title := "";
        notes := "";
        due := None;
        priority := Medium;
        category := None;
        attachments := [];
        subtasks := [];
        recurrence := None;
      }
    }

    /** `removeAttachment(index)`. */
    method RemoveAttachment(index: int)
      modifies this`attachments
      ensures 0 <= index < |old(attachments)| ==>
        attachments == old(attachments)[..index] + old(attachments)[index + 1..]
      ensures !(0 <= index < |old(attachments)|) ==> attachments == old(attachments)
    {
      RemoveIndexMeaning(attachments, index);
      attachments := RemoveIndex(attachments, index);
    }

    /** `addSubtask`: a blank entry is ignored; otherwise the trimmed text is
        appended as an open subtask with the given id, and the entry is
        cleared. */
    method AddSubtask(newId: string)
      modifies this`subtasks, this`newSubtask
      ensures Trim(old(newSubtask)) == [] ==> subtasks == old(subtasks) && newSubtask == old(newSubtask)
      ensures Trim(old(newSubtask)) != [] ==>
        subtasks == old(subtasks) + [Subtask(newId, Trim(old(newSubtask)), false)] && newSubtask == ""
    {
      var text := Trim(newSubtask);
      if text == [] {
        return;
      }
      subtasks := subtasks + [Subtask(newId, text, false)];
      newSubtask := "";
    }

    /** `removeSubtask(id)`: every subtask with the id goes, the others stay
        in order. */
    method RemoveSubtask(id: string)
      modifies this`subtasks
      ensures subtasks == Filter(old(subtasks), (s: Subtask) => s.id != id)
      ensures forall s :: s in subtasks <==> s in old(subtasks) && s.id != id
      ensures Subsequence(subtasks, old(subtasks))
    {
      FilterIsSubsequence(subtasks, (s: Subtask) => s.id != id);
      subtasks := Filter(subtasks, (s: Subtask) => s.id != id);
    }

    /** `handleSave`: the task handed to the list.  An edited task keeps its
        id, completion and creation time and takes every field of the form;
        a new task takes `newId`, is open and was created at `now`. */
    method Save(editing: Option<Task>, newId: string, now: Instant) returns (task: Task)
      ensures task.title == title && task.notes == Some(notes) && task.due == due
      ensures task.priority == Some(priority) && task.category == category
      ensures task.attachments == Some(attachments) && task.subtasks == Some(subtasks)
      ensures task.recurrence == recurrence
      ensures editing.Some? ==>
        && task.id == editing.value.id && task.completed == editing.value.completed
        && task.createdAt == editing.value.createdAt && task.completedAt == editing.value.completedAt
      ensures editing.None? ==>
        task.id == newId && !task.completed && task.createdAt == now && task.completedAt == None
    {
      var base := if editing.Some? then editing.value
        else Task(newId, "", None, None, false, None, None, None, now, None, None, None);
      task := base.(title := title, notes := Some(notes), due := due, priority := Some(priority),
                    category := category, attachments := Some(attachments), subtasks := Some(subtasks),
                    recurrence := recurrence);
    }

    /** The focus button's task: the edited task with the form's title,
        notes, due time, priority, category and attachments; its subtasks
        and recurrence stay those of the edited task. */
    method FocusTask(editing: Task) returns (task: Task)
      ensures task.title == title && task.notes == Some(notes) && task.due == due
      ensures task.priority == Some(priority) && task.category == category
      ensures task.attachments == Some(attachments)
      ensures task.(title := editing.title, notes := editing.notes, due := editing.due,
                    priority := editing.priority, category := editing.category,
                    attachments := editing.attachments) == editing
    {
      task := editing.(title := title, notes := Some(notes), due := due, priority := Some(priority),
                       category := category, attachments := Some(attachments));
    }
  }

  /** A new task saved by the form is consistent: open, with no completion
      time. */
  method SaveNewIsConsistent(form: TaskFormState, newId: string, now: Instant) returns (task: Task)
    ensures CompletionConsistent(task) && !task.completed
    ensures task.id == newId && task.createdAt == now
  {
    task := form.Save(None, newId, now);
  }
}
