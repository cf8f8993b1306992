/** The task record shared by every screen (src/models/task.ts), with its
    priority and category enumerations.  Timestamps, stored as ISO strings
    in the application, are instants in milliseconds here. */
module Tasks {
  import opened Optional

  /** Milliseconds since the epoch. */
  type Instant = int

  datatype Priority = Low | Medium | High
  datatype Category = Work | Personal | Study | Shopping | Others
  datatype Recurrence = Daily | Weekly | Monthly

  datatype Subtask = Subtask(id: string, title: string, completed: bool)

  /** A task. `id`, `title`, `completed` and `createdAt` are always present;
      every other field may be absent.  `subtasks` and `recurrence` are not
      declared by the interface but are read and written by the task form. */
  datatype Task = Task(
    id: string,
    title: string,
    notes: Option<string>,
    due: Option<Instant>,
    completed: bool,
    priority: Option<Priority>,
    category: Option<Category>,
    attachments: Option<seq<string>>,
    createdAt: Instant,
    completedAt: Option<Instant>,
    subtasks: Option<seq<Subtask>>,
    recurrence: Option<Recurrence>)

  /** The string a priority is stored as. */
  function PriorityName(p: Priority): (r: string)
    ensures r in {"low", "medium", "high"}
  {
    match p
    case Low => "low"
    case Medium => "medium"
    case High => "high"
  }

  /** Reads a stored priority; a string outside the union is not a priority. */
  function ParsePriority(s: string): Option<Priority> {
    if s == "low" then Some(Low)
    else if s == "medium" then Some(Medium)
    else if s == "high" then Some(High)
    else None
  }

  /** The string a category is stored as. */
  function CategoryName(c: Category): (r: string)
    ensures r in {"work", "personal", "study", "shopping", "others"}
  {
    match c
    case Work => "work"
    case Personal => "personal"
    case Study => "study"
    case Shopping => "shopping"
    case Others => "others"
  }

  /** Reads a stored category; a string outside the union is not a category. */
  function ParseCategory(s: string): Option<Category> {
    if s == "work" then Some(Work)
    else if s == "personal" then Some(Personal)
    else if s == "study" then Some(Study)
    else if s == "shopping" then Some(Shopping)
    else if s == "others" then Some(Others)
    else None
  }

  /** A priority is exactly one of the three names: the stored names and the
      enumeration are in one-to-one correspondence. */
  lemma PriorityNamesRoundTrip(p: Priority, s: string)
    ensures ParsePriority(PriorityName(p)) == Some(p)
    ensures ParsePriority(s) == Some(p) <==> s == PriorityName(p)
  {
  }

  /** A category is exactly one of the five names. */
  lemma CategoryNamesRoundTrip(c: Category, s: string)
    ensures ParseCategory(CategoryName(c)) == Some(c)
    ensures ParseCategory(s) == Some(c) <==> s == CategoryName(c)
  {
  }

  /** A task is completed exactly when it carries a completion time. */
  predicate CompletionConsistent(t: Task) {
    t.completed <==> t.completedAt.Some?
  }

  predicate IsCompleted(t: Task) {
    t.completed
  }

  predicate IsPending(t: Task) {
    !t.completed
  }

  /** The ids occurring in a list of tasks. */
  function Ids(tasks: seq<Task>): (r: set<string>)
    ensures forall t :: t in tasks ==> t.id in r
    ensures forall id :: id in r ==> exists t :: t in tasks && t.id == id
  {
    set t | t in tasks :: t.id
  }
}
