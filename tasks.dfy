/** The daily-task list of `TasksProvider` (src/hooks/use-tasks.tsx): the
    three updaters that `addTask`, `deleteTask` and `toggleTaskCompletion`
    hand to `setTasks`, the streak invariant they keep, and the provider
    that owns the list. */
module Tasks {
  import opened JsText
  import LocalStorage

  /** The icon names a task may carry (`TaskIconName`). */
  datatype TaskIcon =
    | ClipboardCheck | Brain | Droplets | Dumbbell | BookOpen
    | Repeat | Coffee | Bed | Utensils | Heart
    | Sprout | Paintbrush | Music | Code | Smile
    | Sunrise | Sunset | Dog | Cat | Route

  /** A `DailyTask` record. */
  datatype DailyTask = DailyTask(id: JsString, title: JsString, icon: TaskIcon, streak: int, completed: bool)

  /** "task-" */
  const TASK_ID_PREFIX: JsString := [0x74, 0x61, 0x73, 0x6B, 0x2D]

  /** The id `task-${Date.now()}` of a task created at millisecond `now`. */
  function TaskId(now: nat): (id: JsString)
    ensures |id| > |TASK_ID_PREFIX| && id[..|TASK_ID_PREFIX|] == TASK_ID_PREFIX
    ensures AllAsciiDigits(id[|TASK_ID_PREFIX|..])
  {
    TASK_ID_PREFIX + Decimal(now)
  }

  /** Two tasks get the same id exactly when they are created in the same
      millisecond. */
  lemma TaskIdInjective(m: nat, n: nat)
    ensures TaskId(m) == TaskId(n) <==> m == n
  {
    if TaskId(m) == TaskId(n) {
      assert Decimal(m) == TaskId(m)[|TASK_ID_PREFIX|..];
      assert Decimal(n) == TaskId(n)[|TASK_ID_PREFIX|..];
      DecimalInjective(m, n);
    }
  }

  /** A task id never looks like a timestamp, so reloading the list from
      storage never turns an id into a date. */
  lemma TaskIdNotRevived(now: nat)
    ensures !LocalStorage.IsTimestampText(TaskId(now))
  {
    LocalStorage.TimestampPatternMeaning(TaskId(now));
    assert TaskId(now)[0] == 0x74;
  }

  /** A title, unlike an id, can have timestamp shape. The reviver walks
      every string of the stored list, so a title of that shape, stored as
      member `j` of the task object at position `k`, comes back from
      storage as a date under the same key. */
  lemma TimestampTitleRevived(stored: seq<LocalStorage.JsonValue>, k: nat, j: nat, title: JsString)
    requires k < |stored| && stored[k].JObject? && j < |stored[k].members|
    requires stored[k].members[j].value == LocalStorage.JString(title)
    requires LocalStorage.HasTimestampShape(title)
    ensures var revived := LocalStorage.Revive(LocalStorage.JArray(stored));
      |revived.items| == |stored| && revived.items[k].JObject?
      && |revived.items[k].members| == |stored[k].members|
      && revived.items[k].members[j] == LocalStorage.Member(stored[k].members[j].key, LocalStorage.JDate(title))
  {
    var task := stored[k];
    var revivedTask := LocalStorage.Revive(task);
    var m := task.members[j];
    assert LocalStorage.Revive(LocalStorage.JArray(stored)).items[k] == revivedTask;
    assert revivedTask.members[j] == LocalStorage.ReviveMember(m, task);
    assert LocalStorage.Revive(m.value) == LocalStorage.JDate(title);
  }

  // ---------------------------------------------------------------------
  // The updaters
  // ---------------------------------------------------------------------

  /** `[...prevTasks, newTask]`: the task list after `addTask(title, icon)`
      at millisecond `now`. */
  function Appended(tasks: seq<DailyTask>, title: JsString, icon: TaskIcon, now: nat): (r: seq<DailyTask>)
    ensures |r| == |tasks| + 1 && r[..|tasks|] == tasks
    ensures var t := r[|tasks|];
      t.id == TaskId(now) && t.title == title && t.icon == icon && t.streak == 0 && !t.completed
  {
    tasks + [DailyTask(TaskId(now), title, icon, 0, false)]
  }

  /** `prevTasks.filter(task => task.id !== taskId)`. */
  function WithoutId(tasks: seq<DailyTask>, id: JsString): (r: seq<DailyTask>)
    ensures |r| <= |tasks|
    decreases |tasks|
  {
    if tasks == [] then []
    else (if tasks[0].id == id then [] else [tasks[0]]) + WithoutId(tasks[1..], id)
  }

  /** A task survives deletion exactly when it was in the list and has a
      different id. */
  lemma {:induction false} WithoutIdMembers(tasks: seq<DailyTask>, id: JsString, t: DailyTask)
    ensures t in WithoutId(tasks, id) <==> t in tasks && t.id != id
    decreases |tasks|
  {
    if tasks != [] {
      WithoutIdMembers(tasks[1..], id, t);
      assert t in tasks <==> t == tasks[0] || t in tasks[1..];
    }
  }

  /** Deleting from a concatenation deletes from each part: the tasks that
      stay keep their relative order. */
  lemma {:induction false} WithoutIdAppend(a: seq<DailyTask>, b: seq<DailyTask>, id: JsString)
    ensures WithoutId(a + b, id) == WithoutId(a, id) + WithoutId(b, id)
    decreases |a|
  {
    if a == [] {
      assert a + b == b;
    } else {
      var head: seq<DailyTask> := if a[0].id == id then [] else [a[0]];
      var ab := a + b;
      assert ab[0] == a[0] && ab[1..] == a[1..] + b;
      assert WithoutId(ab, id) == head + WithoutId(a[1..] + b, id);
      WithoutIdAppend(a[1..], b, id);
      assert WithoutId(a, id) == head + WithoutId(a[1..], id);
    }
  }

  /** Deleting leaves the list as it was exactly when no task has the id, and
      otherwise makes it shorter. */
  lemma {:induction false} WithoutIdUnchanged(tasks: seq<DailyTask>, id: JsString)
    ensures WithoutId(tasks, id) == tasks <==> forall t :: t in tasks ==> t.id != id
    ensures |WithoutId(tasks, id)| == |tasks| <==> forall t :: t in tasks ==> t.id != id
    decreases |tasks|
  {
    if tasks != [] {
      WithoutIdUnchanged(tasks[1..], id);
      assert tasks == [tasks[0]] + tasks[1..];
    }
  }

  /** Deleting the same id twice is deleting it once. */
  lemma WithoutIdIdempotent(tasks: seq<DailyTask>, id: JsString)
    ensures WithoutId(WithoutId(tasks, id), id) == WithoutId(tasks, id)
  {
    forall t | t in WithoutId(tasks, id) ensures t.id != id {
      WithoutIdMembers(tasks, id, t);
    }
    WithoutIdUnchanged(WithoutId(tasks, id), id);
  }

  /** The object `{ ...task, completed: isCompleted, streak: newStreak }`
      built for a matching task. */
  function ToggledTask(t: DailyTask): (r: DailyTask)
    ensures r.id == t.id && r.title == t.title && r.icon == t.icon
    ensures r.completed == !t.completed
    ensures !t.completed ==> r.streak == t.streak + 1
    ensures t.completed ==> r.streak == if t.streak >= 1 then t.streak - 1 else 0
  {
    var isCompleted := !t.completed;
    var newStreak := if isCompleted then t.streak + 1 else Max(0, t.streak - 1);
    t.(completed := isCompleted, streak := newStreak)
  }

  /** `Math.max`. */
  function Max(a: int, b: int): (r: int)
    ensures r >= a && r >= b && (r == a || r == b)
  {
    if a >= b then a else b
  }

  /** `prevTasks.map(...)` in `toggleTaskCompletion(taskId)`: every task with
      the id is toggled, every other task stays as it is. */
  function ToggledById(tasks: seq<DailyTask>, id: JsString): (r: seq<DailyTask>)
    ensures |r| == |tasks|
    ensures forall i :: 0 <= i < |tasks| ==>
      r[i] == if tasks[i].id == id then ToggledTask(tasks[i]) else tasks[i]
    ensures (forall t :: t in tasks ==> t.id != id) ==> r == tasks
    decreases |tasks|
  {
    if tasks == [] then []
    else [if tasks[0].id == id then ToggledTask(tasks[0]) else tasks[0]] + ToggledById(tasks[1..], id)
  }

  // ---------------------------------------------------------------------
  // The streak invariant
  // ---------------------------------------------------------------------

  /** A streak is never negative, and a completed task has a streak of at
      least one (its completion counted). */
  predicate StreakConsistent(t: DailyTask) {
    t.streak >= 0 && (t.completed ==> t.streak >= 1)
  }

  predicate AllStreaksConsistent(tasks: seq<DailyTask>) {
    forall i :: 0 <= i < |tasks| ==> StreakConsistent(tasks[i])
  }

  /** Toggling a consistent task gives a consistent task. */
  lemma ToggledTaskConsistent(t: DailyTask)
    requires t.streak >= 0
    ensures StreakConsistent(ToggledTask(t))
  {
  }

  /** Toggling a consistent task twice gives it back. */
  lemma ToggledTaskTwice(t: DailyTask)
    requires StreakConsistent(t)
    ensures ToggledTask(ToggledTask(t)) == t
  {
  }

  /** Without the invariant the round trip fails: a task stored as completed
      with streak 0 comes back with streak 1. */
  lemma ToggledTaskTwiceNeedsInvariant(t: DailyTask)
    requires t.completed && t.streak == 0
    ensures ToggledTask(ToggledTask(t)) == t.(streak := 1)
  {
  }

  /** With the invariant, toggling the same id twice restores the list. */
  lemma ToggledByIdTwice(tasks: seq<DailyTask>, id: JsString)
    requires AllStreaksConsistent(tasks)
    ensures ToggledById(ToggledById(tasks, id), id) == tasks
  {
  }

  /** Deleting an id after toggling it is deleting it. */
  lemma {:induction false} WithoutIdAfterToggle(tasks: seq<DailyTask>, id: JsString)
    ensures WithoutId(ToggledById(tasks, id), id) == WithoutId(tasks, id)
    decreases |tasks|
  {
    if tasks != [] {
      var r := ToggledById(tasks, id);
      assert r[1..] == ToggledById(tasks[1..], id);
      WithoutIdAfterToggle(tasks[1..], id);
    }
  }

  /** The three ways the provider changes its list. */
  datatype Action =
    | AddTask(title: JsString, icon: TaskIcon, now: nat)
    | DeleteTask(id: JsString)
    | ToggleTaskCompletion(id: JsString)

  /** The list after one action. */
  function Apply(tasks: seq<DailyTask>, a: Action): (r: seq<DailyTask>)
    ensures a.AddTask? ==> |r| == |tasks| + 1 && r[..|tasks|] == tasks
    ensures a.DeleteTask? ==> |r| <= |tasks|
    ensures a.ToggleTaskCompletion? ==> |r| == |tasks|
  {
    match a
    case AddTask(title, icon, now) => Appended(tasks, title, icon, now)
    case DeleteTask(id) => WithoutId(tasks, id)
    case ToggleTaskCompletion(id) => ToggledById(tasks, id)
  }

  /** Every action keeps every streak consistent. */
  lemma ApplyKeepsStreaksConsistent(tasks: seq<DailyTask>, a: Action)
    ensures AllStreaksConsistent(tasks) ==> AllStreaksConsistent(Apply(tasks, a))
  {
    if a.DeleteTask? && AllStreaksConsistent(tasks) {
      var r := WithoutId(tasks, a.id);
      forall i | 0 <= i < |r| ensures StreakConsistent(r[i]) {
        WithoutIdMembers(tasks, a.id, r[i]);
      }
    }
  }

  /** The list after the actions, in order, starting from the empty list.
      Whatever the actions, no streak is negative and every completed task
      has a streak of at least one. */
  function Replay(actions: seq<Action>): (r: seq<DailyTask>)
    ensures AllStreaksConsistent(r)
    decreases |actions|
  {
    if actions == [] then []
    else
      var before := Replay(actions[..|actions| - 1]);
      ApplyKeepsStreaksConsistent(before, actions[|actions| - 1]);
      Apply(before, actions[|actions| - 1])
  }

  /** So from the empty list, toggling an id twice is always a round trip. */
  lemma ReplayToggleTwice(actions: seq<Action>, id: JsString)
    ensures ToggledById(ToggledById(Replay(actions), id), id) == Replay(actions)
  {
    ToggledByIdTwice(Replay(actions), id);
  }

  // ---------------------------------------------------------------------
  // The provider
  // ---------------------------------------------------------------------

  /** `TasksProvider`'s state: the list `setTasks` replaces. */
  class TasksProvider {
    var tasks: seq<DailyTask>

    /** The provider starts from what `useLocalStorage('dailyTasks', [])`
        gives. */
    constructor(initial: seq<DailyTask>)
      ensures tasks == initial
    {
      tasks := initial;
    }

    method AddTask(title: JsString, icon: TaskIcon, now: nat)
      modifies this
      ensures tasks == Appended(old(tasks), title, icon, now)
      ensures AllStreaksConsistent(old(tasks)) ==> AllStreaksConsistent(tasks)
    {
      ApplyKeepsStreaksConsistent(tasks, Action.AddTask(title, icon, now));
      tasks := Apply(tasks, Action.AddTask(title, icon, now));
    }

    method DeleteTask(id: JsString)
      modifies this
      ensures tasks == WithoutId(old(tasks), id)
      ensures AllStreaksConsistent(old(tasks)) ==> AllStreaksConsistent(tasks)
    {
      ApplyKeepsStreaksConsistent(tasks, Action.DeleteTask(id));
      tasks := Apply(tasks, Action.DeleteTask(id));
    }

    method ToggleTaskCompletion(id: JsString)
      modifies this
      ensures tasks == ToggledById(old(tasks), id)
      ensures AllStreaksConsistent(old(tasks)) ==> AllStreaksConsistent(tasks)
    {
      ApplyKeepsStreaksConsistent(tasks, Action.ToggleTaskCompletion(id));
      tasks := Apply(tasks, Action.ToggleTaskCompletion(id));
    }
  }
}
