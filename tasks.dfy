/** The task record and the effect of each store operation on the list of
    tasks, as functions of the list before the operation. */
module Tasks {
  import opened Text

  datatype Option<T> = None | Some(value: T)

  /** A "YYYY-MM-DD HH:MM" string read from the clock by the caller. */
  type Timestamp = string

  /** One entry of `self.tasks`. `completedAt` is the optional
      `completed_at` key. */
  datatype Task = Task(
    id: int,
    text: string,
    priority: string,
    completed: bool,
    createdAt: Timestamp,
    completedAt: Option<Timestamp>)

  /** `completed_at` is present exactly when the task is completed. */
  predicate Consistent(t: Task) {
    t.completedAt.Some? <==> t.completed
  }

  predicate AllConsistent(ts: seq<Task>) {
    forall k :: 0 <= k < |ts| ==> Consistent(ts[k])
  }

  /** No two tasks share an id. The code does not enforce this for a loaded
      file; the operations below keep it when it holds. */
  predicate UniqueIds(ts: seq<Task>) {
    forall i, j :: 0 <= i < j < |ts| ==> ts[i].id != ts[j].id
  }

  /** `a` is `b` with some elements left out, the rest in their order. */
  predicate IsSubsequence(a: seq<Task>, b: seq<Task>)
    decreases |b|
  {
    a == [] || (b != [] && ((a[0] == b[0] && IsSubsequence(a[1..], b[1..])) || IsSubsequence(a, b[1..])))
  }

  // ---------------------------------------------------------------------
  // Filtering (the list comprehensions of the source)
  // ---------------------------------------------------------------------

  /** `[t for t in ts if keep(t)]`. */
  function Where(ts: seq<Task>, keep: Task -> bool): (r: seq<Task>)
    ensures |r| <= |ts|
    ensures forall t :: t in r <==> t in ts && keep(t)
  {
    if ts == [] then []
    else (if keep(ts[0]) then [ts[0]] else []) + Where(ts[1..], keep)
  }

  /** Filtering a list with a known head: the head, if kept, then the
      filtered tail. */
  lemma WhereCons(t: Task, ts: seq<Task>, keep: Task -> bool)
    ensures Where([t] + ts, keep) == (if keep(t) then [t] else []) + Where(ts, keep)
  {
    assert ([t] + ts)[1..] == ts;
  }

  /** The comprehension keeps each kept task as often as it occurs, and
      drops the others entirely. */
  lemma {:induction false} WhereCount(ts: seq<Task>, keep: Task -> bool, t: Task)
    ensures multiset(Where(ts, keep))[t] == if keep(t) then multiset(ts)[t] else 0
  {
    if ts != [] {
      WhereCount(ts[1..], keep, t);
      assert ts == [ts[0]] + ts[1..];
    }
  }

  /** The comprehension keeps the relative order of what it keeps. */
  lemma {:induction false} WhereIsSubsequence(ts: seq<Task>, keep: Task -> bool)
    ensures IsSubsequence(Where(ts, keep), ts)
  {
    if ts != [] {
      var rest := Where(ts[1..], keep);
      WhereIsSubsequence(ts[1..], keep);
      if keep(ts[0]) {
        assert Where(ts, keep) == [ts[0]] + rest;
        assert ([ts[0]] + rest)[1..] == rest;
      } else {
        assert Where(ts, keep) == rest;
      }
    }
  }

  /** Filtering twice with the same condition is filtering once. */
  lemma {:induction false} WhereIdempotent(ts: seq<Task>, keep: Task -> bool)
    ensures Where(Where(ts, keep), keep) == Where(ts, keep)
  {
    if ts != [] {
      var rest := Where(ts[1..], keep);
      WhereIdempotent(ts[1..], keep);
      if keep(ts[0]) {
        assert Where(ts, keep) == [ts[0]] + rest;
        assert ([ts[0]] + rest)[1..] == rest;
      } else {
        assert Where(ts, keep) == rest;
      }
    }
  }

  /** A condition every task meets keeps the whole list. */
  lemma {:induction false} WhereAll(ts: seq<Task>, keep: Task -> bool)
    ensures (forall t :: t in ts ==> keep(t)) ==> Where(ts, keep) == ts
  {
    if ts != [] && forall t :: t in ts ==> keep(t) {
      WhereAll(ts[1..], keep);
      assert ts == [ts[0]] + ts[1..];
    }
  }

  /** Two lists holding the same tasks give filters holding the same tasks. */
  lemma WhereOfPermutation(a: seq<Task>, b: seq<Task>, keep: Task -> bool)
    requires multiset(a) == multiset(b)
    ensures multiset(Where(a, keep)) == multiset(Where(b, keep))
  {
    forall t ensures multiset(Where(a, keep))[t] == multiset(Where(b, keep))[t] {
      WhereCount(a, keep, t);
      WhereCount(b, keep, t);
    }
  }

  lemma {:induction false} SubsequenceMembers(a: seq<Task>, b: seq<Task>)
    requires IsSubsequence(a, b)
    ensures forall t :: t in a ==> t in b
    decreases |b|
  {
    if a != [] {
      if a[0] == b[0] && IsSubsequence(a[1..], b[1..]) {
        SubsequenceMembers(a[1..], b[1..]);
        assert a == [a[0]] + a[1..];
      } else {
        SubsequenceMembers(a, b[1..]);
      }
    }
  }

  /** Leaving tasks out cannot create an id clash. */
  lemma {:induction false} SubsequenceKeepsUniqueIds(a: seq<Task>, b: seq<Task>)
    requires IsSubsequence(a, b)
    ensures UniqueIds(b) ==> UniqueIds(a)
    decreases |b|
  {
    if a != [] && UniqueIds(b) {
      assert UniqueIds(b[1..]);
      if a[0] == b[0] && IsSubsequence(a[1..], b[1..]) {
        SubsequenceKeepsUniqueIds(a[1..], b[1..]);
        SubsequenceMembers(a[1..], b[1..]);
        forall j | 0 < j < |a| ensures a[0].id != a[j].id {
          assert a[j] == a[1..][j - 1];
          assert a[j] in b[1..];
        }
      } else {
        SubsequenceKeepsUniqueIds(a, b[1..]);
      }
    }
  }

  // ---------------------------------------------------------------------
  // Fresh ids (add_task)
  // ---------------------------------------------------------------------

  /** `max(t['id'] for t in ts)`. */
  function MaxId(ts: seq<Task>): (m: int)
    requires ts != []
    ensures forall t :: t in ts ==> t.id <= m
    ensures exists t :: t in ts && t.id == m
  {
    if |ts| == 1 then ts[0].id
    else
      var m := MaxId(ts[1..]);
      assert ts == [ts[0]] + ts[1..];
      if ts[0].id > m then ts[0].id else m
  }

  /** `max([...], default=0) + 1`: greater than every id present, and 1 on
      an empty list; otherwise it follows the largest id present. */
  function NextId(ts: seq<Task>): (n: int)
    ensures ts == [] ==> n == 1
    ensures forall t :: t in ts ==> t.id < n
    ensures ts != [] ==> exists t :: t in ts && t.id == n - 1
  {
    if ts == [] then 1 else MaxId(ts) + 1
  }

  // ---------------------------------------------------------------------
  // Finding a task by id (the loop in toggle_task, `next(...)` in edit_task)
  // ---------------------------------------------------------------------

  /** The position of the first task with this id, if any. */
  function FirstIndexOf(ts: seq<Task>, id: int): (r: Option<nat>)
    ensures r.None? ==> forall k :: 0 <= k < |ts| ==> ts[k].id != id
    ensures r.Some? ==> r.value < |ts| && ts[r.value].id == id
                        && forall k :: 0 <= k < r.value ==> ts[k].id != id
  {
    if ts == [] then None
    else if ts[0].id == id then Some(0)
    else match FirstIndexOf(ts[1..], id)
      case None => None
      case Some(i) => Some(i + 1)
  }

  /** Only the ids decide where the first match is. */
  lemma {:induction false} FirstIndexOfSameIds(a: seq<Task>, b: seq<Task>, id: int)
    requires |a| == |b|
    requires forall k :: 0 <= k < |a| ==> a[k].id == b[k].id
    ensures FirstIndexOf(a, id) == FirstIndexOf(b, id)
  {
    if a != [] && a[0].id != id {
      FirstIndexOfSameIds(a[1..], b[1..], id);
    }
  }

  /** A scan that stops at the first task with the id, or at the end, has
      found `FirstIndexOf`. */
  lemma FirstIndexAt(ts: seq<Task>, id: int, i: nat)
    requires i <= |ts|
    requires forall k :: 0 <= k < i ==> ts[k].id != id
    requires i < |ts| ==> ts[i].id == id
    ensures FirstIndexOf(ts, id) == if i < |ts| then Some(i) else None
  {
  }

  /** Lists whose ids agree position by position clash alike. */
  lemma SameIdsSameClashes(a: seq<Task>, b: seq<Task>)
    requires |a| == |b|
    requires forall k :: 0 <= k < |a| ==> a[k].id == b[k].id
    ensures UniqueIds(a) <==> UniqueIds(b)
  {
  }

  // ---------------------------------------------------------------------
  // toggle_task
  // ---------------------------------------------------------------------

  /** One task after its check box is clicked: `completed` flips,
      `completed_at` is set to `now` on completion and removed otherwise. */
  function Toggled(t: Task, now: Timestamp): (r: Task)
    ensures r.completed == !t.completed
    ensures Consistent(r)
    ensures r.completed ==> r.completedAt == Some(now)
    ensures r.(completed := t.completed, completedAt := t.completedAt) == t
  {
    if !t.completed then t.(completed := true, completedAt := Some(now))
    else t.(completed := false, completedAt := None)
  }

  /** The list after `toggle_task(id)`: only the first task with this id
      changes, and only in its completion state. */
  function ToggleFirst(ts: seq<Task>, id: int, now: Timestamp): (r: seq<Task>)
    ensures |r| == |ts|
    ensures forall k :: 0 <= k < |ts| ==>
      r[k].(completed := ts[k].completed, completedAt := ts[k].completedAt) == ts[k]
    ensures forall k :: 0 <= k < |ts| ==>
      (r[k].completed != ts[k].completed <==> FirstIndexOf(ts, id) == Some(k))
    ensures forall k :: 0 <= k < |ts| && FirstIndexOf(ts, id) != Some(k) ==> r[k] == ts[k]
    ensures forall k :: 0 <= k < |ts| && FirstIndexOf(ts, id) == Some(k) ==>
      (r[k].completed ==> r[k].completedAt == Some(now)) && (!r[k].completed ==> r[k].completedAt.None?)
    ensures (forall k :: 0 <= k < |ts| ==> ts[k].id != id) ==> r == ts
    ensures AllConsistent(ts) ==> AllConsistent(r)
    ensures UniqueIds(ts) ==> UniqueIds(r)
  {
    match FirstIndexOf(ts, id)
    case None => ts
    case Some(i) => ts[i := Toggled(ts[i], now)]
  }

  /** Running the toggle loop twice on the same id, with no refresh in
      between, restores every task except for the `completed_at` of the
      toggled one. (Two clicks of the check box do have a refresh in between,
      which under "All" sorts the store, so the second click may find another
      task first.) When `completed_at` was consistent,
      the only trace left is the new `completed_at` of a task that was
      complete to begin with; a task that started incomplete is fully
      restored, its `completed_at` cleared by the second toggle. */
  lemma ToggleTwice(ts: seq<Task>, id: int, first: Timestamp, second: Timestamp)
    ensures var twice := ToggleFirst(ToggleFirst(ts, id, first), id, second);
      && |twice| == |ts|
      && (forall k :: 0 <= k < |ts| ==> twice[k].(completedAt := ts[k].completedAt) == ts[k])
      && (AllConsistent(ts) ==>
           forall k :: 0 <= k < |ts| ==>
             twice[k] == if ts[k].completed && FirstIndexOf(ts, id) == Some(k)
                         then ts[k].(completedAt := Some(second))
                         else ts[k])
  {
    match FirstIndexOf(ts, id)
    case None =>
    case Some(i) =>
      var once := ts[i := Toggled(ts[i], first)];
      assert ToggleFirst(ts, id, first) == once;
      FirstIndexOfSameIds(once, ts, id);
      assert ToggleFirst(once, id, second) == once[i := Toggled(once[i], second)];
  }

  // ---------------------------------------------------------------------
  // delete_task
  // ---------------------------------------------------------------------

  /** The condition of the comprehension in `delete_task`. */
  function IdIsNot(id: int): Task -> bool {
    (t: Task) => t.id != id
  }

  /** `[t for t in ts if t['id'] != id]`: every task with that id goes,
      every other task stays with its multiplicity and in its order. */
  function WithoutId(ts: seq<Task>, id: int): (r: seq<Task>)
    ensures forall t :: t in r ==> t.id != id
    ensures forall t :: multiset(r)[t] == if t.id == id then 0 else multiset(ts)[t]
    ensures IsSubsequence(r, ts)
    ensures (forall k :: 0 <= k < |ts| ==> ts[k].id != id) ==> r == ts
  {
    var r := Where(ts, IdIsNot(id));
    WhereAll(ts, IdIsNot(id));
    WhereIsSubsequence(ts, IdIsNot(id));
    forall t: Task ensures multiset(r)[t] == if t.id == id then 0 else multiset(ts)[t] {
      WhereCount(ts, IdIsNot(id), t);
    }
    r
  }

  /** Deleting keeps ids unique and completion records consistent. */
  lemma DeleteKeepsInvariants(ts: seq<Task>, id: int)
    ensures UniqueIds(ts) ==> UniqueIds(WithoutId(ts, id))
    ensures AllConsistent(ts) ==> AllConsistent(WithoutId(ts, id))
  {
    var r := WithoutId(ts, id);
    SubsequenceKeepsUniqueIds(r, ts);
    SubsequenceMembers(r, ts);
    if AllConsistent(ts) {
      forall k | 0 <= k < |r| ensures Consistent(r[k]) {
        assert r[k] in ts;
      }
    }
  }

  /** Deleting the same id twice gives the same list as deleting it once. */
  lemma DeleteIdempotent(ts: seq<Task>, id: int)
    ensures WithoutId(WithoutId(ts, id), id) == WithoutId(ts, id)
  {
    WhereIdempotent(ts, IdIsNot(id));
  }

  /** With unique ids, deleting an id that is present removes exactly one
      task. */
  lemma {:induction false} DeleteRemovesOne(ts: seq<Task>, id: int)
    requires UniqueIds(ts)
    requires exists t :: t in ts && t.id == id
    ensures |WithoutId(ts, id)| == |ts| - 1
  {
    var rest := ts[1..];
    assert UniqueIds(rest);
    if ts[0].id == id {
      forall t | t in rest ensures IdIsNot(id)(t) {
        var j :| 0 <= j < |rest| && rest[j] == t;
        assert ts[j + 1] == t;
      }
      WhereAll(rest, IdIsNot(id));
    } else {
      DeleteRemovesOne(rest, id);
    }
  }

  // ---------------------------------------------------------------------
  // edit_task / save_edit
  // ---------------------------------------------------------------------

  /** The text the edit dialog's priority combo box starts with: a badge for
      the task's priority (green for anything that is not High or Medium),
      a space, and the priority itself. */
  function DialogPriority(priority: string): (raw: string)
    ensures |raw| == |priority| + 2
    ensures raw[0] != ' ' && raw[1..] == " " + priority
  {
    (if priority == "High" then "\U{1F534}"
     else if priority == "Medium" then "\U{1F7E1}"
     else "\U{1F7E2}") + " " + priority
  }

  /** Saving the edit dialog without touching its priority combo box keeps
      the task's priority, for any priority without a space in it. */
  lemma UntouchedDialogKeepsPriority(priority: string)
    requires ' ' !in priority
    ensures PriorityLabel(DialogPriority(priority)) == priority
  {
    var raw := DialogPriority(priority);
    assert raw == [raw[0]] + " " + priority;
    BadgedLabel([raw[0]], priority);
  }

  /** The list with the task at index `k` given a new text and priority:
      every other field of every task stays, so the ids and the completion
      records are those of `ts`. */
  function Retexted(ts: seq<Task>, k: nat, text: string, priority: string): (r: seq<Task>)
    requires k < |ts|
    ensures |r| == |ts|
    ensures forall j :: 0 <= j < |ts| ==>
      && r[j].id == ts[j].id && r[j].completed == ts[j].completed
      && r[j].createdAt == ts[j].createdAt && r[j].completedAt == ts[j].completedAt
    ensures forall j :: 0 <= j < |ts| && j != k ==> r[j] == ts[j]
    ensures r[k].text == text && r[k].priority == priority
    ensures UniqueIds(ts) ==> UniqueIds(r)
    ensures AllConsistent(ts) ==> AllConsistent(r)
  {
    var r := ts[k := ts[k].(text := text, priority := priority)];
    SameIdsSameClashes(r, ts);
    r
  }

  /** The list after saving the edit dialog for `id` with the typed text and
      the chosen priority. Nothing changes when no task has the id or when
      the text is blank; otherwise the first task with the id gets the
      stripped text and the cleaned priority and keeps everything else. */
  function ApplyEdit(ts: seq<Task>, id: int, newText: string, priorityRaw: string): (r: seq<Task>)
    ensures FirstIndexOf(ts, id).None? || IsBlank(newText) ==> r == ts
    ensures |r| == |ts|
    ensures forall k :: 0 <= k < |ts| ==>
      && r[k].id == ts[k].id && r[k].completed == ts[k].completed
      && r[k].createdAt == ts[k].createdAt && r[k].completedAt == ts[k].completedAt
    ensures forall k :: 0 <= k < |ts| && r[k] != ts[k] ==>
      FirstIndexOf(ts, id) == Some(k)
    ensures !IsBlank(newText) && FirstIndexOf(ts, id).Some? ==>
      var k := FirstIndexOf(ts, id).value;
      r[k].text == Strip(newText) && r[k].text != [] && r[k].priority == PriorityLabel(priorityRaw)
    ensures UniqueIds(ts) ==> UniqueIds(r)
    ensures AllConsistent(ts) ==> AllConsistent(r)
  {
    var text := Strip(newText);
    match FirstIndexOf(ts, id)
    case None => ts
    case Some(k) =>
      if text == [] then ts
      else
        Retexted(ts, k, text, PriorityLabel(priorityRaw))
  }

  // ---------------------------------------------------------------------
  // add_task
  // ---------------------------------------------------------------------

  /** The list after `add_task` with the entry text, the priority combo text
      and the current time: unchanged when the entry is blank; otherwise one
      new, incomplete task at the end with a fresh id. */
  function Added(ts: seq<Task>, entry: string, priorityRaw: string, now: Timestamp): (r: seq<Task>)
    ensures IsBlank(entry) ==> r == ts
    ensures !IsBlank(entry) ==> |r| == |ts| + 1 && r[..|ts|] == ts
    ensures !IsBlank(entry) ==>
      var t := r[|ts|];
      && t.text == Strip(entry) && t.text != []
      && t.priority == PriorityLabel(priorityRaw)
      && !t.completed && Consistent(t) && t.createdAt == now
      && t.id == NextId(ts) && forall u :: u in ts ==> u.id < t.id
    ensures UniqueIds(ts) ==> UniqueIds(r)
    ensures AllConsistent(ts) ==> AllConsistent(r)
  {
    var text := Strip(entry);
    if text == [] then ts
    else ts + [Task(NextId(ts), text, PriorityLabel(priorityRaw), false, now, None)]
  }

  /** With no deletion in between, two successful adds hand out consecutive
      ids: the second is one more than the first. */
  lemma SuccessiveAddIds(ts: seq<Task>, e1: string, p1: string, n1: Timestamp,
                         e2: string, p2: string, n2: Timestamp)
    requires !IsBlank(e1) && !IsBlank(e2)
    ensures var once := Added(ts, e1, p1, n1);
            var twice := Added(once, e2, p2, n2);
            twice[|ts| + 1].id == twice[|ts|].id + 1
  {
    var once := Added(ts, e1, p1, n1);
    var t := once[|ts|];
    assert once == ts + [t];
    forall u | u in once ensures u.id <= t.id {
      if u != t {
        assert u in ts;
      }
    }
  }

  /** Ids are not fresh over the store's history: once the task with the
      largest id is deleted, the next add hands out an id no larger than the
      deleted one (with positive ids). */
  lemma DeletedNewestIdComesBack(ts: seq<Task>, entry: string, priorityRaw: string, now: Timestamp)
    requires ts != [] && !IsBlank(entry)
    requires forall t :: t in ts ==> t.id >= 1
    ensures var newest := MaxId(ts);
            var after := Added(WithoutId(ts, newest), entry, priorityRaw, now);
            after[|after| - 1].id <= newest
  {
    var m := MaxId(ts);
    var rest := WithoutId(ts, m);
    forall u | u in rest ensures u.id < m {
      assert multiset(rest)[u] == multiset(ts)[u];
    }
  }

  /** The reuse happens: with tasks 1 and 2, deleting 2 and adding a task
      gives the new task id 2 again. */
  lemma IdReuseExample(a: Task, b: Task, entry: string, priorityRaw: string, now: Timestamp)
    requires a.id == 1 && b.id == 2 && !IsBlank(entry)
    ensures var after := Added(WithoutId([a, b], 2), entry, priorityRaw, now);
            |after| == 2 && after[0] == a && after[1].id == 2
  {
    WhereCons(a, [b], IdIsNot(2));
    WhereCons(b, [], IdIsNot(2));
    assert [a, b] == [a] + [b] && [b] == [b] + [];
    assert WithoutId([a, b], 2) == [a];
    assert MaxId([a]) == 1;
  }
}
