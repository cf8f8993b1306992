/** The statistics screen (src/pages/Tab3.tsx): the share of completed
    tasks, the tasks completed in the last seven days and the completion
    history. */
module Stats {
  import opened Optional
  import opened Tasks
  import opened Seqs

  /** `completed`: the completed tasks, in list order. */
  function Completed(tasks: seq<Task>): (r: seq<Task>)
    ensures forall t :: t in r <==> t in tasks && t.completed
    ensures |r| <= |tasks|
    ensures Subsequence(r, tasks)
    ensures forall t {:trigger multiset(r)[t]} :: multiset(r)[t] == if t.completed then multiset(tasks)[t] else 0
  {
    FilterIsSubsequence(tasks, IsCompleted);
    FilterPartition(tasks, IsCompleted, IsPending);
    Filter(tasks, IsCompleted)
  }

  /** `Math.round(100 * completed / total)` in exact arithmetic: the nearest
      integer, halves rounded up. */
  function RoundedPercent(completed: nat, total: nat): int
    requires total > 0
  {
    (200 * completed + total) / (2 * total)
  }

  /** `percent`: 0 for an empty list, otherwise the rounded percentage of
      completed tasks. */
  function Percent(tasks: seq<Task>): int {
    if |tasks| == 0 then 0 else RoundedPercent(|Completed(tasks)|, |tasks|)
  }

  /** The rounded percentage is the integer nearest to 100·c/t (halves
      rounded up), so it lies between 0 and 100 and is 0 or 100 exactly at
      the ends. */
  lemma RoundedPercentMeaning(c: nat, t: nat)
    requires 0 < t && c <= t
    ensures var r := RoundedPercent(c, t);
      && 2 * t * r <= 200 * c + t < 2 * t * r + 2 * t
      && 0 <= r <= 100
      && (c == 0 ==> r == 0)
      && (c == t ==> r == 100)
  {
    var r := RoundedPercent(c, t);
    var n := 200 * c + t;
    assert n == (2 * t) * r + n % (2 * t);
    assert 2 * t * r <= n < 2 * t * r + 2 * t;
    MulMonotone(2 * t, 101, r);
    MulMonotone(2 * t, 1, r);
    MulMonotone(2 * t, r, 99);
  }

  lemma MulMonotone(k: nat, a: int, b: int)
    ensures a <= b ==> k * a <= k * b
  {
  }

  /** The percentage of a list: 0 for the empty list, within 0..100, 100
      when every task is completed and 0 when none is. */
  lemma PercentMeaning(tasks: seq<Task>)
    ensures 0 <= Percent(tasks) <= 100
    ensures |tasks| == 0 ==> Percent(tasks) == 0
    ensures |tasks| > 0 && (forall t :: t in tasks ==> t.completed) ==> Percent(tasks) == 100
    ensures (forall t :: t in tasks ==> !t.completed) ==> Percent(tasks) == 0
  {
    if |tasks| > 0 {
      RoundedPercentMeaning(|Completed(tasks)|, |tasks|);
      if forall t :: t in tasks ==> t.completed {
        FilterAll(tasks, IsCompleted);
      }
      if forall t :: t in tasks ==> !t.completed {
        if Completed(tasks) != [] {
          assert Completed(tasks)[0] in Completed(tasks);
        }
      }
    }
  }

  /** Seven days in milliseconds. */
  const WeekMs: int := 7 * 24 * 60 * 60 * 1000

  /** Completed at or after the instant a week before `now`. */
  predicate CompletedSince(t: Task, weekAgo: Instant) {
    t.completedAt.Some? && t.completedAt.value >= weekAgo
  }

  /** `completedThisWeek`: among the completed tasks, those with a completion
      time no earlier than a week before `now`. */
  function CompletedThisWeek(tasks: seq<Task>, now: Instant): (n: nat)
    ensures n <= |Completed(tasks)|
  {
    FilterMonotone(Completed(tasks), t => CompletedSince(t, now - WeekMs), t => true);
    FilterAll(Completed(tasks), t => true);
    |Filter(Completed(tasks), t => CompletedSince(t, now - WeekMs))|
  }

  /** The week's count counts exactly the completed tasks with a completion
      time in the last seven days: one without a completion time is never
      counted, and a task completed in the future still is. */
  lemma CompletedThisWeekCounts(tasks: seq<Task>, now: Instant)
    ensures CompletedThisWeek(tasks, now) == |Filter(tasks, (t: Task) => t.completed && CompletedSince(t, now - WeekMs))|
  {
    FilterFilter(tasks, IsCompleted, t => CompletedSince(t, now - WeekMs),
      (t: Task) => t.completed && CompletedSince(t, now - WeekMs));
  }

  /** The instant the history sorts by: the completion time, or 0. */
  function CompletionTime(t: Task): int {
    t.completedAt.GetOr(0)
  }

  /** The history comparator, as written: `db - da`. */
  function CompareHistory(a: Task, b: Task): int {
    CompletionTime(b) - CompletionTime(a)
  }

  function HistoryKey(t: Task): Key {
    Key(-CompletionTime(t), 0, 0)
  }

  /** The comparator orders by the key: latest completion first. */
  lemma CompareHistoryFollowsKey(a: Task, b: Task)
    ensures CompareHistory(a, b) <= 0 <==> KeyLeq(HistoryKey(a), HistoryKey(b))
    ensures CompareHistory(a, b) == 0 <==> HistoryKey(a) == HistoryKey(b)
  {
  }

  /** `history`: the completed tasks, sorted stably on a copy. */
  function History(tasks: seq<Task>): seq<Task> {
    SortBy(Completed(tasks), HistoryKey)
  }

  /** The history is a permutation of the completed tasks, latest
      completion first, a missing completion time counting as 0. */
  lemma HistoryMeaning(tasks: seq<Task>)
    ensures multiset(History(tasks)) == multiset(Completed(tasks))
    ensures forall t :: t in History(tasks) <==> t in tasks && t.completed
    ensures forall i, j :: 0 <= i < j < |History(tasks)| ==>
      CompletionTime(History(tasks)[i]) >= CompletionTime(History(tasks)[j])
  {
    SortBySorted(Completed(tasks), HistoryKey);
    SortByMembers(Completed(tasks), HistoryKey);
  }

  /** Tasks completed at the same instant keep their list order. */
  lemma HistoryStable(tasks: seq<Task>, k: Key)
    ensures Filter(History(tasks), t => HistoryKey(t) == k) == Filter(Completed(tasks), t => HistoryKey(t) == k)
  {
    SortByStable(Completed(tasks), HistoryKey, k, t => HistoryKey(t) == k);
  }
}
