/** The reminder scheduler (src/utils/notifications.ts).  A reminder fires
    two hours before a task is due.  It goes through the native
    local-notification plugin when that can be loaded and its call
    succeeds, and otherwise through a browser timer kept in a registry by
    task id.  What the environment answers (whether the plugin loads,
    whether its calls succeed, whether the browser has granted
    notifications, the clock) is passed in as parameters. */
module Reminders {
  import opened Optional
  import opened Tasks

  const TwoTo32: int := 0x1_0000_0000

  /** The hash `idFromString` computes, character by character from the
      left: `h := (31 * h + code) mod 2^32`, starting from 0. */
  function Hash(s: string): (h: int)
    ensures 0 <= h < TwoTo32
  {
    if s == [] then 0 else (Hash(s[..|s| - 1]) * 31 + s[|s| - 1] as int) % TwoTo32
  }

  /** The same polynomial without reduction: the codes as digits in base 31. */
  function Poly(s: string): (p: nat)
    ensures s == [] ==> p == 0
  {
    if s == [] then 0 else Poly(s[..|s| - 1]) * 31 + s[|s| - 1] as int
  }

  /** Reducing at every step gives the polynomial hash modulo 2^32. */
  lemma {:induction false} HashIsPolyMod(s: string)
    ensures Hash(s) == Poly(s) % TwoTo32
  {
    if s != [] {
      var init := s[..|s| - 1];
      HashIsPolyMod(init);
      ModStep(Poly(init), s[|s| - 1] as int);
    }
  }

  /** `((a mod m) * 31 + c) mod m == (a * 31 + c) mod m`. */
  lemma ModStep(a: nat, c: nat)
    ensures ((a % TwoTo32) * 31 + c) % TwoTo32 == (a * 31 + c) % TwoTo32
  {
    var q := a / TwoTo32;
    var r := a % TwoTo32;
    assert a == q * TwoTo32 + r;
    assert a * 31 + c == (r * 31 + c) + (q * 31) * TwoTo32;
    ModShift(r * 31 + c, q * 31);
  }

  lemma ModShift(x: nat, k: nat)
    ensures (x + k * TwoTo32) % TwoTo32 == x % TwoTo32
  {
    var q := x / TwoTo32;
    var r := x % TwoTo32;
    assert x + k * TwoTo32 == (q + k) * TwoTo32 + r;
  }

  /** `idFromString`: the notification id of a task id. */
  method IdFromString(s: string) returns (h: int)
    ensures h == Hash(s)
    ensures 0 <= h < TwoTo32
    ensures s == [] ==> h == 0
  {
    h := 0;
    for i := 0 to |s|
      invariant h == Hash(s[..i])
    {
      assert s[..i + 1][..i] == s[..i];
      h := (h * 31 + s[i] as int) % TwoTo32;
    }
    assert s[..|s|] == s;
  }

  const TwoHoursMs: int := 2 * 60 * 60 * 1000
  const SoonMs: int := 5 * 1000

  /** When the reminder for a task due at `due` fires: two hours before the
      due time, or five seconds from `now` when that moment has passed. */
  function ScheduleAt(due: Instant, now: Instant): (at: Instant)
    ensures at > now
    ensures at >= due - TwoHoursMs
    ensures at == due - TwoHoursMs || at == now + SoonMs
    ensures due - TwoHoursMs > now <==> at == due - TwoHoursMs
  {
    var when := due - TwoHoursMs;
    if when > now then when else now + SoonMs
  }

  /** A task gets a reminder only when it has a due time and is not completed. */
  predicate Remindable(t: Task) {
    t.due.Some? && !t.completed
  }

  /** The ids of the tasks that get a reminder. */
  function RemindableIds(tasks: seq<Task>): set<string> {
    set t | t in tasks && Remindable(t) :: t.id
  }

  /** The notification ids of the tasks that get a reminder. */
  function RemindableHashes(tasks: seq<Task>): set<int> {
    set t | t in tasks && Remindable(t) :: Hash(t.id)
  }

  /** Going one task further along the list adds that task's id (and its
      notification id) exactly when it gets a reminder. */
  lemma RemindableIdsAppend(tasks: seq<Task>, i: nat)
    requires i < |tasks|
    ensures RemindableIds(tasks[..i + 1]) == RemindableIds(tasks[..i]) + (if Remindable(tasks[i]) then {tasks[i].id} else {})
    ensures RemindableHashes(tasks[..i + 1]) == RemindableHashes(tasks[..i]) + (if Remindable(tasks[i]) then {Hash(tasks[i].id)} else {})
  {
    assert tasks[..i + 1] == tasks[..i] + [tasks[i]];
    assert forall u :: u in tasks[..i + 1] <==> u in tasks[..i] || u == tasks[i];
  }

  /** The last task of the list whose reminder has notification id `h`:
      scheduling in list order, its call is the last to set that
      notification. */
  function LastWithHash(tasks: seq<Task>, h: int): (r: Option<Task>)
    ensures r.Some? ==> r.value in tasks && Remindable(r.value) && Hash(r.value.id) == h
    ensures r.None? ==> h !in RemindableHashes(tasks)
    decreases |tasks|
  {
    if tasks == [] then None
    else
      var last := tasks[|tasks| - 1];
      assert forall u :: u in tasks <==> u in tasks[..|tasks| - 1] || u == last by {
        assert tasks == tasks[..|tasks| - 1] + [last];
      }
      if Remindable(last) && Hash(last.id) == h then Some(last) else LastWithHash(tasks[..|tasks| - 1], h)
  }

  /** The last task of the list that gets a reminder and has the id `id`:
      its browser timer is the one the registry keeps. */
  function LastWithId(tasks: seq<Task>, id: string): (r: Option<Task>)
    ensures r.Some? ==> r.value in tasks && Remindable(r.value) && r.value.id == id
    ensures r.None? ==> id !in RemindableIds(tasks)
    decreases |tasks|
  {
    if tasks == [] then None
    else
      var last := tasks[|tasks| - 1];
      assert forall u :: u in tasks <==> u in tasks[..|tasks| - 1] || u == last by {
        assert tasks == tasks[..|tasks| - 1] + [last];
      }
      if Remindable(last) && last.id == id then Some(last) else LastWithId(tasks[..|tasks| - 1], id)
  }

  /** One task further along the list: the task itself, if it gets a
      reminder with that id, is now the last one. */
  lemma LastWithStep(tasks: seq<Task>, i: nat)
    requires i < |tasks|
    ensures forall h :: LastWithHash(tasks[..i + 1], h) == (if Remindable(tasks[i]) && Hash(tasks[i].id) == h then Some(tasks[i]) else LastWithHash(tasks[..i], h))
    ensures forall id :: LastWithId(tasks[..i + 1], id) == (if Remindable(tasks[i]) && tasks[i].id == id then Some(tasks[i]) else LastWithId(tasks[..i], id))
  {
    var pre := tasks[..i + 1];
    assert pre != [] && pre[..|pre| - 1] == tasks[..i] && pre[|pre| - 1] == tasks[i];
    forall h
      ensures LastWithHash(pre, h)
        == (if Remindable(tasks[i]) && Hash(tasks[i].id) == h then Some(tasks[i]) else LastWithHash(tasks[..i], h))
    {
    }
    forall id
      ensures LastWithId(pre, id)
        == (if Remindable(tasks[i]) && tasks[i].id == id then Some(tasks[i]) else LastWithId(tasks[..i], id))
    {
    }
  }

  /** `Math.max(0, scheduleAt - Date.now())`: the browser timer's delay. */
  function ArmDelay(at: Instant, armNow: Instant): (d: int)
    ensures d >= 0
    ensures d == 0 <==> at <= armNow
    ensures d > 0 ==> armNow + d == at
  {
    if at - armNow > 0 then at - armNow else 0
  }

  /** Each native notification fires at the instant computed for the last
      task of the list carrying its notification id, or, when no task of
      the list carries it, is one of `before`, unchanged. */
  ghost predicate NativeArmed(native: map<int, Instant>, before: map<int, Instant>, tasks: seq<Task>, now: Instant) {
    forall h :: h in native ==>
      match LastWithHash(tasks, h)
      case Some(t) => native[h] == ScheduleAt(t.due.value, now)
      case None => h in before && native[h] == before[h]
  }

  /** Each registered browser timer is armed with the delay computed for the
      last task of the list with its id, or, when no task of the list gets a
      reminder under that id, is the entry of `before`, unchanged. */
  ghost predicate TimersArmed(timeouts: map<string, nat>, timers: map<nat, int>, before: map<string, nat>,
                              tasks: seq<Task>, now: Instant, armNow: Instant) {
    forall id :: id in timeouts ==>
      && timeouts[id] in timers
      && match LastWithId(tasks, id)
         case Some(t) => timers[timeouts[id]] == ArmDelay(ScheduleAt(t.due.value, now), armNow)
         case None => id in before && timeouts[id] == before[id]
  }

  /** The module-level state of the scheduler, with the two back ends it
      drives. */
  class ReminderService {
    /** `hasCapacitorLocal`: unknown until the plugin has been looked for. */
    var hasCapacitorLocal: Option<bool>
    /** `timeouts`: the browser timer registered for each task id. */
    var timeouts: map<string, nat>
    /** The browser timers that are armed, by handle, with their delay. */
    var timers: map<nat, int>
    /** The handle the browser gives the next timer (always positive). */
    var nextHandle: nat
    /** The notifications the native plugin holds, by notification id, with
        the instant each fires. */
    var native: map<int, Instant>

    /** Registered timers are armed timers, no two task ids share one, and
        handles are positive and below the next handle to be given out. */
    ghost predicate Valid()
      reads this
    {
      && (forall id :: id in timeouts ==> timeouts[id] in timers)
      && (forall a, b :: a in timeouts && b in timeouts && a != b ==> timeouts[a] != timeouts[b])
      && (forall h :: h in timers ==> 1 <= h < nextHandle)
      && nextHandle >= 1
    }

    constructor()
      ensures Valid()
      ensures hasCapacitorLocal == None && timeouts == map[] && timers == map[] && native == map[]
    {
      hasCapacitorLocal := None;
      timeouts := map[];
      timers := map[];
      nextHandle := 1;
      native := map[];
    }

    /** `ensureCapacitor`: looks for the plugin once; after that the answer is
        fixed and returned unchanged. */
    method EnsureCapacitor(pluginLoads: bool) returns (cap: bool)
      requires Valid()
      modifies this`hasCapacitorLocal
      ensures Valid()
      ensures old(hasCapacitorLocal).Some? ==> hasCapacitorLocal == old(hasCapacitorLocal)
      ensures old(hasCapacitorLocal).None? ==> hasCapacitorLocal == Some(pluginLoads)
      ensures hasCapacitorLocal == Some(cap)
    {
      if hasCapacitorLocal.None? {
        hasCapacitorLocal := Some(pluginLoads);
      }
      cap := hasCapacitorLocal.value;
    }

    /** `scheduleForTask`.  `now` is the clock when the fire time is computed
        and `armNow` the clock when the browser timer is armed; `nativeOk`
        says whether the plugin call succeeds and `webGranted` whether the
        browser can show notifications. */
    method ScheduleForTask(task: Task, now: Instant, armNow: Instant,
                           pluginLoads: bool, nativeOk: bool, webGranted: bool)
      requires Valid()
      modifies this
      ensures Valid()
      ensures !Remindable(task) ==>
        && hasCapacitorLocal == old(hasCapacitorLocal) && timeouts == old(timeouts)
        && timers == old(timers) && nextHandle == old(nextHandle) && native == old(native)
      ensures Remindable(task) ==>
        && hasCapacitorLocal.Some?
        && (old(hasCapacitorLocal).Some? ==> hasCapacitorLocal == old(hasCapacitorLocal))
        && (old(hasCapacitorLocal).None? ==> hasCapacitorLocal == Some(pluginLoads))
      ensures Remindable(task) && hasCapacitorLocal.value && nativeOk ==>
        && native == old(native)[Hash(task.id) := ScheduleAt(task.due.value, now)]
        && native.Keys == old(native).Keys + {Hash(task.id)}
        && timeouts == old(timeouts) && timers == old(timers) && nextHandle == old(nextHandle)
      ensures Remindable(task) && !(hasCapacitorLocal.value && nativeOk) ==> native == old(native)
      ensures Remindable(task) && !(hasCapacitorLocal.value && nativeOk) && webGranted ==>
        && timeouts == old(timeouts)[task.id := old(nextHandle)]
        && timeouts.Keys == old(timeouts).Keys + {task.id}
        && timers == old(timers)[old(nextHandle) := ArmDelay(ScheduleAt(task.due.value, now), armNow)]
        && nextHandle == old(nextHandle) + 1
      ensures Remindable(task) && !(hasCapacitorLocal.value && nativeOk) && !webGranted ==>
        timeouts == old(timeouts) && timers == old(timers) && nextHandle == old(nextHandle)
      ensures forall h :: h in old(timers) ==> h in timers && timers[h] == old(timers)[h]
      ensures forall h :: h in timers ==> h in old(timers) || h == old(nextHandle)
      ensures old(nextHandle) <= nextHandle
    {
      if task.due.None? || task.completed {
        return;
      }
      var at := ScheduleAt(task.due.value, now);
      var cap := EnsureCapacitor(pluginLoads);
      var notifId := IdFromString(task.id);
      if cap && nativeOk {
        native := native[notifId := at];
        return;
      }
      if webGranted {
        var handle := nextHandle;
        timers := timers[handle := ArmDelay(at, armNow)];
        nextHandle := nextHandle + 1;
        timeouts := timeouts[task.id := handle];
      }
    }

    /** `cancelForTask`: through the plugin when it is there and its call
        succeeds; otherwise the registered browser timer, if any, is cleared
        and its entry deleted. */
    method CancelForTask(taskId: string, pluginLoads: bool, nativeOk: bool)
      requires Valid()
      modifies this`hasCapacitorLocal, this`native, this`timeouts, this`timers
      ensures Valid()
      ensures old(hasCapacitorLocal).Some? ==> hasCapacitorLocal == old(hasCapacitorLocal)
      ensures old(hasCapacitorLocal).None? ==> hasCapacitorLocal == Some(pluginLoads)
      ensures hasCapacitorLocal.Some?
      ensures hasCapacitorLocal.value && nativeOk ==>
        native == old(native) - {Hash(taskId)} && timeouts == old(timeouts) && timers == old(timers)
      ensures !(hasCapacitorLocal.value && nativeOk) ==> native == old(native)
      ensures !(hasCapacitorLocal.value && nativeOk) && taskId in old(timeouts) ==>
        timeouts == old(timeouts) - {taskId} && timers == old(timers) - {old(timeouts)[taskId]}
      ensures !(hasCapacitorLocal.value && nativeOk) && taskId !in old(timeouts) ==>
        timeouts == old(timeouts) && timers == old(timers)
    {
      var cap := EnsureCapacitor(pluginLoads);
      var notifId := IdFromString(taskId);
      if cap && nativeOk {
        native := native - {notifId};
        return;
      }
      if taskId in timeouts && timeouts[taskId] != 0 {
        var t := timeouts[taskId];
        timers := timers - {t};
        timeouts := timeouts - {taskId};
      }
    }

    /** `rescheduleAll`: empties the back end in use (the plugin's
        notifications, or every registered browser timer), then schedules
        each task in list order.  Afterwards the back end holds exactly the
        reminders of the tasks that have a due time and are not completed. */
    method RescheduleAll(tasks: seq<Task>, now: Instant, armNow: Instant,
                         pluginLoads: bool, nativeOk: bool, webGranted: bool)
      requires Valid()
      modifies this
      ensures Valid()
      ensures old(hasCapacitorLocal).Some? ==> hasCapacitorLocal == old(hasCapacitorLocal)
      ensures old(hasCapacitorLocal).None? ==> hasCapacitorLocal == Some(pluginLoads)
      ensures hasCapacitorLocal.Some?
      ensures hasCapacitorLocal.value && nativeOk ==>
        && native.Keys == RemindableHashes(tasks) && NativeArmed(native, map[], tasks, now)
        && timeouts == old(timeouts) && timers == old(timers)
      ensures hasCapacitorLocal.value && !nativeOk ==>
        && native == old(native)
        && timeouts.Keys == old(timeouts).Keys + (if webGranted then RemindableIds(tasks) else {})
        && (webGranted ==> TimersArmed(timeouts, timers, old(timeouts), tasks, now, armNow))
      ensures !hasCapacitorLocal.value ==>
        && native == old(native)
        && timeouts.Keys == (if webGranted then RemindableIds(tasks) else {})
        && TimersArmed(timeouts, timers, map[], tasks, now, armNow)
        && forall id :: id in old(timeouts) ==> old(timeouts)[id] !in timers
    {
      var cap := EnsureCapacitor(pluginLoads);
      if cap {
        if nativeOk {
          native := map[];
        }
      } else {
        ClearTimers();
      }
      ScheduleEach(tasks, now, armNow, pluginLoads, nativeOk, webGranted);
    }

    /** The browser side of `rescheduleAll`'s first step: every registered
        timer is cleared and the registry emptied. */
    method ClearTimers()
      requires Valid()
      modifies this`timers, this`timeouts
      ensures Valid()
      ensures timeouts == map[]
      ensures timers == map h | h in old(timers) && h !in old(timeouts).Values :: old(timers)[h]
      ensures forall id :: id in old(timeouts) ==> old(timeouts)[id] !in timers
    {
      timers := map h | h in timers && h !in timeouts.Values :: timers[h];
      timeouts := map[];
    }

    /** What the loop of `rescheduleAll` has done after scheduling the
        first `i` tasks, starting from the back ends `native0`, `timeouts0`
        and `timers0` and the next handle `handle0`. */
    ghost predicate ScheduledUpTo(tasks: seq<Task>, i: nat, now: Instant, armNow: Instant,
                                  nativeOk: bool, webGranted: bool,
                                  native0: map<int, Instant>, timeouts0: map<string, nat>,
                                  timers0: map<nat, int>, handle0: nat)
      requires i <= |tasks|
      reads this
    {
      && hasCapacitorLocal.Some?
      && (hasCapacitorLocal.value && nativeOk ==>
            && native.Keys == native0.Keys + RemindableHashes(tasks[..i])
            && NativeArmed(native, native0, tasks[..i], now)
            && timeouts == timeouts0 && timers == timers0)
      && (!(hasCapacitorLocal.value && nativeOk) ==> native == native0)
      && (!(hasCapacitorLocal.value && nativeOk) && webGranted ==>
            && timeouts.Keys == timeouts0.Keys + RemindableIds(tasks[..i])
            && TimersArmed(timeouts, timers, timeouts0, tasks[..i], now, armNow))
      && (!(hasCapacitorLocal.value && nativeOk) && !webGranted ==> timeouts == timeouts0 && timers == timers0)
      && (forall h :: h in timers0 ==> h in timers && timers[h] == timers0[h])
      && nextHandle >= handle0
      && (forall h :: h in timers ==> h in timers0 || h >= handle0)
    }

    /** The loop of `rescheduleAll`, once the plugin has been looked for:
        each task is scheduled in list order, so a notification id or a task
        id ends up armed for the last task that carries it. */
    method ScheduleEach(tasks: seq<Task>, now: Instant, armNow: Instant,
                        pluginLoads: bool, nativeOk: bool, webGranted: bool)
      requires Valid()
      requires hasCapacitorLocal.Some?
      modifies this
      ensures Valid()
      ensures hasCapacitorLocal == old(hasCapacitorLocal)
      ensures hasCapacitorLocal.value && nativeOk ==>
        && native.Keys == old(native).Keys + RemindableHashes(tasks) && NativeArmed(native, old(native), tasks, now)
        && timeouts == old(timeouts) && timers == old(timers)
      ensures !(hasCapacitorLocal.value && nativeOk) ==>
        && native == old(native)
        && timeouts.Keys == old(timeouts).Keys + (if webGranted then RemindableIds(tasks) else {})
        && (webGranted ==> TimersArmed(timeouts, timers, old(timeouts), tasks, now, armNow))
        && (!webGranted ==> timeouts == old(timeouts) && timers == old(timers))
        && (forall h :: h in old(timers) ==> h in timers && timers[h] == old(timers)[h])
        && (forall h :: h in timers ==> h in old(timers) || h >= old(nextHandle))
    {
      ghost var native0, timeouts0, timers0, handle0 := native, timeouts, timers, nextHandle;
      assert tasks[..0] == [];
      for i := 0 to |tasks|
        invariant Valid()
        invariant hasCapacitorLocal == old(hasCapacitorLocal)
        invariant ScheduledUpTo(tasks, i, now, armNow, nativeOk, webGranted, native0, timeouts0, timers0, handle0)
      {
        ScheduleStep(tasks, i, now, armNow, pluginLoads, nativeOk, webGranted, native0, timeouts0, timers0, handle0);
      }
      assert tasks[..|tasks|] == tasks;
    }

    /** `scheduleForTask` for the task at index `i`, once the plugin has been
        looked for, as the loop of `rescheduleAll` sees it: the back end in
        use gains that task's reminder, armed as the last one for its id. */
    method ScheduleStep(tasks: seq<Task>, i: nat, now: Instant, armNow: Instant,
                        pluginLoads: bool, nativeOk: bool, webGranted: bool,
                        ghost native0: map<int, Instant>, ghost timeouts0: map<string, nat>,
                        ghost timers0: map<nat, int>, ghost handle0: nat)
      requires i < |tasks|
      requires Valid()
      requires ScheduledUpTo(tasks, i, now, armNow, nativeOk, webGranted, native0, timeouts0, timers0, handle0)
      modifies this
      ensures Valid()
      ensures hasCapacitorLocal == old(hasCapacitorLocal)
      ensures ScheduledUpTo(tasks, i + 1, now, armNow, nativeOk, webGranted, native0, timeouts0, timers0, handle0)
    {
      ghost var nativeBefore, timeoutsBefore, timersBefore, handle := native, timeouts, timers, nextHandle;
      ScheduleForTask(tasks[i], now, armNow, pluginLoads, nativeOk, webGranted);
      if hasCapacitorLocal.value && nativeOk {
        NativeKeysStep(tasks, i, native0.Keys, nativeBefore.Keys, native.Keys);
        NativeStep(tasks, i, now, native0, nativeBefore, native);
      } else if webGranted {
        TimeoutKeysStep(tasks, i, timeouts0.Keys, timeoutsBefore.Keys, timeouts.Keys);
        TimersStep(tasks, i, now, armNow, timeouts0, timeoutsBefore, timersBefore, handle, timeouts, timers);
      }
    }
  }

  /** Scheduling the task at index `i` through the plugin adds its
      notification id exactly when it gets a reminder. */
  lemma NativeKeysStep(tasks: seq<Task>, i: nat, keys0: set<int>, before: set<int>, after: set<int>)
    requires i < |tasks|
    requires before == keys0 + RemindableHashes(tasks[..i])
    requires after == before + (if Remindable(tasks[i]) then {Hash(tasks[i].id)} else {})
    ensures after == keys0 + RemindableHashes(tasks[..i + 1])
  {
    RemindableIdsAppend(tasks, i);
  }

  /** Scheduling the task at index `i` through a browser timer registers its
      id exactly when it gets a reminder. */
  lemma TimeoutKeysStep(tasks: seq<Task>, i: nat, keys0: set<string>, before: set<string>, after: set<string>)
    requires i < |tasks|
    requires before == keys0 + RemindableIds(tasks[..i])
    requires after == before + (if Remindable(tasks[i]) then {tasks[i].id} else {})
    ensures after == keys0 + RemindableIds(tasks[..i + 1])
  {
    RemindableIdsAppend(tasks, i);
  }

  /** Scheduling the task at index `i` through the plugin keeps every
      notification armed for the last task carrying its id. */
  lemma NativeStep(tasks: seq<Task>, i: nat, now: Instant,
                   native0: map<int, Instant>, before: map<int, Instant>, after: map<int, Instant>)
    requires i < |tasks|
    requires NativeArmed(before, native0, tasks[..i], now)
    requires after == if Remindable(tasks[i]) then before[Hash(tasks[i].id) := ScheduleAt(tasks[i].due.value, now)] else before
    ensures NativeArmed(after, native0, tasks[..i + 1], now)
  {
    LastWithStep(tasks, i);
    forall h | h in after
      ensures match LastWithHash(tasks[..i + 1], h)
        case Some(t) => after[h] == ScheduleAt(t.due.value, now)
        case None => h in native0 && after[h] == native0[h]
    {
      if !(Remindable(tasks[i]) && Hash(tasks[i].id) == h) {
        assert LastWithHash(tasks[..i + 1], h) == LastWithHash(tasks[..i], h);
      }
    }
  }

  /** Arming a browser timer for the task at index `i` under a fresh handle
      keeps every registered timer armed for the last task with its id. */
  lemma TimersStep(tasks: seq<Task>, i: nat, now: Instant, armNow: Instant, timeouts0: map<string, nat>,
                   timeoutsBefore: map<string, nat>, timersBefore: map<nat, int>,
                   handle: nat, timeoutsAfter: map<string, nat>, timersAfter: map<nat, int>)
    requires i < |tasks|
    requires TimersArmed(timeoutsBefore, timersBefore, timeouts0, tasks[..i], now, armNow)
    requires handle !in timersBefore
    requires Remindable(tasks[i]) ==>
        && timeoutsAfter == timeoutsBefore[tasks[i].id := handle]
        && timersAfter == timersBefore[handle := ArmDelay(ScheduleAt(tasks[i].due.value, now), armNow)]
    requires !Remindable(tasks[i]) ==> timeoutsAfter == timeoutsBefore && timersAfter == timersBefore
    ensures TimersArmed(timeoutsAfter, timersAfter, timeouts0, tasks[..i + 1], now, armNow)
  {
    LastWithStep(tasks, i);
    if Remindable(tasks[i]) {
      forall id | id in timeoutsAfter
        ensures timeoutsAfter[id] in timersAfter
        ensures match LastWithId(tasks[..i + 1], id)
          case Some(t) => timersAfter[timeoutsAfter[id]] == ArmDelay(ScheduleAt(t.due.value, now), armNow)
          case None => id in timeouts0 && timeoutsAfter[id] == timeouts0[id]
      {
        if tasks[i].id != id {
          assert LastWithId(tasks[..i + 1], id) == LastWithId(tasks[..i], id);
          assert timeoutsBefore[id] in timersBefore;
        }
      }
    } else {
      forall id | id in timeoutsAfter
        ensures LastWithId(tasks[..i + 1], id) == LastWithId(tasks[..i], id)
      {
      }
    }
  }
}
