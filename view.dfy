/** What the task list shows: the filter selector, the selection it makes,
    the display sort of `refresh_task_list`, and the counts of
    `update_stats`. */
module View {
  import opened Text
  import opened Tasks

  // ---------------------------------------------------------------------
  // get_filtered_tasks
  // ---------------------------------------------------------------------

  /** The six outcomes of the selector test. */
  datatype Selection = ShowAll | PendingOnly | CompletedOnly | HighOnly | MediumOnly | LowOnly

  /** The substring tests of `get_filtered_tasks`, in the order it tries
      them, and the selection each one makes. */
  const Keywords: seq<string> := ["Pending", "Completed", "High Priority", "Medium Priority", "Low Priority"]
  const Narrowed: seq<Selection> := [PendingOnly, CompletedOnly, HighOnly, MediumOnly, LowOnly]

  /** The branches of `get_filtered_tasks`, tried in order: the exact text
      "All" shows all; otherwise the first keyword the text contains picks
      its selection, and a text with none of them shows all. */
  function Classify(selector: string): (r: Selection)
    ensures selector == "All" ==> r == ShowAll
    ensures r == ShowAll ==> selector == "All" || forall i :: 0 <= i < |Keywords| ==> !Contains(selector, Keywords[i])
    ensures r != ShowAll ==>
      exists i :: (0 <= i < |Keywords| && r == Narrowed[i] && Contains(selector, Keywords[i])
                   && forall j :: 0 <= j < i ==> !Contains(selector, Keywords[j]))
  {
    if selector == "All" then ShowAll
    else if Contains(selector, "Pending") then
      assert Keywords[0] == "Pending" && Narrowed[0] == PendingOnly;
      PendingOnly
    else if Contains(selector, "Completed") then
      assert Keywords[1] == "Completed" && Narrowed[1] == CompletedOnly && Keywords[0] == "Pending";
      CompletedOnly
    else if Contains(selector, "High Priority") then
      assert Keywords[2] == "High Priority" && Narrowed[2] == HighOnly && Keywords[..2] == ["Pending", "Completed"];
      HighOnly
    else if Contains(selector, "Medium Priority") then
      assert Keywords[3] == "Medium Priority" && Narrowed[3] == MediumOnly && Keywords[..3] == ["Pending", "Completed", "High Priority"];
      MediumOnly
    else if Contains(selector, "Low Priority") then
      assert Keywords[4] == "Low Priority" && Narrowed[4] == LowOnly;
      LowOnly
    else ShowAll
  }

  /** The condition of each comprehension. */
  predicate Admits(sel: Selection, t: Task) {
    match sel
    case ShowAll => true
    case PendingOnly => !t.completed
    case CompletedOnly => t.completed
    case HighOnly => t.priority == "High"
    case MediumOnly => t.priority == "Medium"
    case LowOnly => t.priority == "Low"
  }

  function Condition(sel: Selection): Task -> bool {
    (t: Task) => Admits(sel, t)
  }

  lemma {:induction false} SubsequenceOfItself(ts: seq<Task>)
    ensures IsSubsequence(ts, ts)
  {
    if ts != [] {
      SubsequenceOfItself(ts[1..]);
    }
  }

  /** The list `get_filtered_tasks` returns: the store's own list for "All"
      and the fallback, otherwise a fresh list of the admitted tasks in store
      order. */
  function Select(ts: seq<Task>, sel: Selection): (r: seq<Task>)
    ensures sel == ShowAll ==> r == ts
    ensures IsSubsequence(r, ts)
    ensures forall t :: t in r <==> t in ts && Admits(sel, t)
    ensures forall t :: multiset(r)[t] == if Admits(sel, t) then multiset(ts)[t] else 0
  {
    if sel == ShowAll then
      SubsequenceOfItself(ts);
      ts
    else
      WhereIsSubsequence(ts, Condition(sel));
      forall t ensures multiset(Where(ts, Condition(sel)))[t] == if Admits(sel, t) then multiset(ts)[t] else 0 {
        WhereCount(ts, Condition(sel), t);
      }
      Where(ts, Condition(sel))
  }

  /** A letter of `sub` that `s` lacks shows that `s` does not contain it. */
  lemma LacksLetter(s: string, sub: string, c: char)
    requires c in sub && c !in s
    ensures !Contains(s, sub)
  {
    if Contains(s, sub) {
      ContainsLetters(s, sub);
    }
  }

  /** A badge of non-ASCII characters, a space and a word lack every ASCII
      letter the word lacks. */
  lemma BadgedLacks(badge: string, word: string, sub: string, c: char)
    requires forall x :: x in badge ==> x > 'z'
    requires c <= 'z' && c != ' ' && c in sub && c !in word
    ensures !Contains(badge + " " + word, sub)
  {
    var s := badge + " " + word;
    forall i | 0 <= i < |s| ensures s[i] != c {
      if i < |badge| {
        assert s[i] in badge;
      } else if i > |badge| {
        assert s[i] == word[i - |badge| - 1];
      }
    }
    LacksLetter(s, sub, c);
  }

  /** The filter combo box offers "All" and five keywords, each behind an
      emoji badge and a space. Each selects what its words say; this lemma
      covers the status entries and the three after it the priority entries. */
  lemma StatusSelectors(badge: string)
    requires forall c :: c in badge ==> c > 'z'
    ensures Classify("All") == ShowAll
    ensures Classify(badge + " " + "Pending") == PendingOnly
    ensures Classify(badge + " " + "Completed") == CompletedOnly
  {
    ContainsSuffix(badge + " ", "Pending");
    BadgedLacks(badge, "Completed", "Pending", 'P');
    ContainsSuffix(badge + " ", "Completed");
  }

  lemma HighSelector(badge: string)
    requires forall c :: c in badge ==> c > 'z'
    ensures Classify(badge + " " + "High Priority") == HighOnly
  {
    BadgedLacks(badge, "High Priority", "Pending", 'e');
    BadgedLacks(badge, "High Priority", "Completed", 'e');
    ContainsSuffix(badge + " ", "High Priority");
  }

  lemma MediumSelector(badge: string)
    requires forall c :: c in badge ==> c > 'z'
    ensures Classify(badge + " " + "Medium Priority") == MediumOnly
  {
    BadgedLacks(badge, "Medium Priority", "Pending", 'n');
    BadgedLacks(badge, "Medium Priority", "Completed", 'C');
    BadgedLacks(badge, "Medium Priority", "High Priority", 'H');
    ContainsSuffix(badge + " ", "Medium Priority");
  }

  lemma LowSelector(badge: string)
    requires forall c :: c in badge ==> c > 'z'
    ensures Classify(badge + " " + "Low Priority") == LowOnly
  {
    BadgedLacks(badge, "Low Priority", "Pending", 'e');
    BadgedLacks(badge, "Low Priority", "Completed", 'e');
    BadgedLacks(badge, "Low Priority", "High Priority", 'H');
    BadgedLacks(badge, "Low Priority", "Medium Priority", 'e');
    ContainsSuffix(badge + " ", "Low Priority");
  }

  /** "Pending" and "Completed" split the store: every task is in exactly
      one of the two selections, as often as it is in the store, and with
      unique ids no id appears on both sides. */
  lemma PendingCompletedPartition(ts: seq<Task>)
    ensures multiset(Select(ts, PendingOnly)) + multiset(Select(ts, CompletedOnly)) == multiset(ts)
    ensures forall t :: t in Select(ts, PendingOnly) ==> t !in Select(ts, CompletedOnly)
    ensures UniqueIds(ts) ==>
      forall a, b :: a in Select(ts, PendingOnly) && b in Select(ts, CompletedOnly) ==> a.id != b.id
  {
    var pending, done := Select(ts, PendingOnly), Select(ts, CompletedOnly);
    assert forall t :: (multiset(pending) + multiset(done))[t] == multiset(ts)[t];
    if UniqueIds(ts) {
      forall a, b | a in pending && b in done ensures a.id != b.id {
        var i :| 0 <= i < |ts| && ts[i] == a;
        var j :| 0 <= j < |ts| && ts[j] == b;
        assert i != j;
      }
    }
  }

  // ---------------------------------------------------------------------
  // The sort in refresh_task_list
  // ---------------------------------------------------------------------

  /** `priority_order.get(priority, 3)` with High=0, Medium=1, Low=2. */
  function Rank(priority: string): (r: nat)
    ensures r <= 3
    ensures r == 3 <==> priority != "High" && priority != "Medium" && priority != "Low"
  {
    if priority == "High" then 0
    else if priority == "Medium" then 1
    else if priority == "Low" then 2
    else 3
  }

  /** The ranks order the three known priorities High, Medium, Low, and
      any other priority after them. */
  lemma PriorityRanks(other: string)
    requires other != "High" && other != "Medium" && other != "Low"
    ensures Rank("High") < Rank("Medium") < Rank("Low") < Rank(other)
  {
  }

  /** The sort key `(task['completed'], rank)`. */
  datatype SortKey = SortKey(completed: bool, rank: nat)

  function KeyOf(t: Task): SortKey {
    SortKey(t.completed, Rank(t.priority))
  }

  /** Python's `<=` on the key tuples: `False < True` first, then rank. */
  predicate KeyLe(a: SortKey, b: SortKey) {
    (!a.completed && b.completed) || (a.completed == b.completed && a.rank <= b.rank)
  }

  /** Keys never decrease along the list: incomplete tasks first, each group
      by rank. */
  predicate DisplayOrdered(s: seq<Task>) {
    forall i, j :: 0 <= i < j < |s| ==> KeyLe(KeyOf(s[i]), KeyOf(s[j]))
  }

  function HasKey(k: SortKey): Task -> bool {
    (t: Task) => KeyOf(t) == k
  }

  /** The tasks with key `k`, in list order. A sort is stable when it keeps
      every one of these the same. */
  function Bucket(s: seq<Task>, k: SortKey): seq<Task> {
    Where(s, HasKey(k))
  }

  /** Puts `t` in front of the first task it may precede. */
  function Insert(t: Task, s: seq<Task>): (r: seq<Task>)
    ensures |r| == |s| + 1
    ensures forall x :: x in r <==> x == t || x in s
    ensures multiset(r) == multiset(s) + multiset{t}
  {
    if s == [] then [t]
    else if KeyLe(KeyOf(t), KeyOf(s[0])) then [t] + s
    else
      assert s == [s[0]] + s[1..];
      [s[0]] + Insert(t, s[1..])
  }

  lemma {:induction false} InsertOrdered(t: Task, s: seq<Task>)
    requires DisplayOrdered(s)
    ensures DisplayOrdered(Insert(t, s))
  {
    if s != [] && !KeyLe(KeyOf(t), KeyOf(s[0])) {
      InsertOrdered(t, s[1..]);
      var r := Insert(t, s);
      forall j | 0 < j < |r| ensures KeyLe(KeyOf(r[0]), KeyOf(r[j])) {
        assert r[j] in Insert(t, s[1..]);
      }
    }
  }

  /** Inserting `t` in front of its equals puts it first in its bucket. */
  lemma {:induction false} InsertBucket(t: Task, s: seq<Task>, k: SortKey)
    ensures Bucket(Insert(t, s), k) == (if KeyOf(t) == k then [t] else []) + Bucket(s, k)
  {
    if s == [] {
      WhereCons(t, [], HasKey(k));
      assert [t] + [] == [t];
    } else if KeyLe(KeyOf(t), KeyOf(s[0])) {
      WhereCons(t, s, HasKey(k));
    } else {
      var rest := Insert(t, s[1..]);
      InsertBucket(t, s[1..], k);
      WhereCons(s[0], rest, HasKey(k));
      WhereCons(s[0], s[1..], HasKey(k));
      assert s == [s[0]] + s[1..];
      if KeyOf(t) == k {
        assert KeyOf(s[0]) != k;
        assert Bucket(Insert(t, s), k) == Bucket(rest, k) == [t] + Bucket(s[1..], k);
      } else {
        assert Bucket(rest, k) == Bucket(s[1..], k);
      }
    }
  }

  /** The stable sort `list.sort(key=...)`, modelled as insertion sort. It
      gives the ordered permutation that keeps every bucket's order, and
      `DisplaySortUnique` shows that every stable sort gives this list. */
  function DisplaySort(s: seq<Task>): (r: seq<Task>)
    ensures DisplayOrdered(r)
    ensures multiset(r) == multiset(s)
    ensures forall k :: Bucket(r, k) == Bucket(s, k)
  {
    if s == [] then []
    else
      var rest := DisplaySort(s[1..]);
      InsertOrdered(s[0], rest);
      assert s == [s[0]] + s[1..];
      var r := Insert(s[0], rest);
      assert forall k :: Bucket(r, k) == Bucket(s, k) by {
        forall k ensures Bucket(r, k) == Bucket(s, k) {
          InsertBucket(s[0], rest, k);
        }
      }
      r
  }

  /** The order the sort produces, spelled out: no completed task precedes
      an incomplete one, and among equally completed tasks High comes before
      Medium before Low before any other priority. */
  lemma DisplayOrder(s: seq<Task>)
    ensures var r := DisplaySort(s);
      forall i, j :: 0 <= i < j < |r| ==>
        (r[i].completed ==> r[j].completed)
        && (r[i].completed == r[j].completed ==> Rank(r[i].priority) <= Rank(r[j].priority))
  {
  }

  /** Sorting an already sorted list leaves it as it is. */
  lemma {:induction false} SortOfOrdered(s: seq<Task>)
    requires DisplayOrdered(s)
    ensures DisplaySort(s) == s
  {
    if s != [] {
      SortOfOrdered(s[1..]);
      assert s == [s[0]] + s[1..];
    }
  }

  /** Two ordered lists whose buckets agree are the same list: the key
      order fixes where each bucket goes, and the bucket fixes the order
      within it. */
  lemma {:induction false} OrderedBucketsDetermine(a: seq<Task>, b: seq<Task>)
    requires DisplayOrdered(a) && DisplayOrdered(b)
    requires forall k :: Bucket(a, k) == Bucket(b, k)
    ensures a == b
    decreases |a|
  {
    if b != [] {
      assert b[0] in Bucket(b, KeyOf(b[0]));
      assert b[0] in a;
    }
    if a == [] {
      assert b == [];
    } else {
      assert a[0] in Bucket(a, KeyOf(a[0]));
      assert a[0] in b;
      var ka, kb := KeyOf(a[0]), KeyOf(b[0]);
      assert a[0] in Bucket(b, ka);
      assert b[0] in Bucket(a, kb);
      assert ka == kb;
      assert Bucket(a, ka) == [a[0]] + Bucket(a[1..], ka);
      assert Bucket(b, ka) == [b[0]] + Bucket(b[1..], ka);
      assert a[0] == Bucket(a, ka)[0] == Bucket(b, ka)[0] == b[0];
      forall k ensures Bucket(a[1..], k) == Bucket(b[1..], k) {
        if k == ka {
          assert ([a[0]] + Bucket(a[1..], ka))[1..] == Bucket(a[1..], ka);
          assert ([b[0]] + Bucket(b[1..], ka))[1..] == Bucket(b[1..], ka);
        } else {
          assert Bucket(a, k) == Bucket(a[1..], k);
          assert Bucket(b, k) == Bucket(b[1..], k);
        }
      }
      OrderedBucketsDetermine(a[1..], b[1..]);
      assert a == [a[0]] + a[1..] == [b[0]] + b[1..] == b;
    }
  }

  /** `DisplaySort` is the only stable sort: any ordering of the keys that
      keeps every bucket as it was in `s` is the result it gives. */
  lemma DisplaySortUnique(s: seq<Task>, r: seq<Task>)
    requires DisplayOrdered(r)
    requires forall k :: Bucket(r, k) == Bucket(s, k)
    ensures r == DisplaySort(s)
  {
    OrderedBucketsDetermine(r, DisplaySort(s));
  }

  /** A pending High task, a completed Low task and a pending Medium task
      are shown pending High, pending Medium, then completed Low. */
  lemma SortExample(now: Timestamp)
    ensures var t1 := Task(1, "a", "High", false, now, None);
            var t2 := Task(2, "b", "Low", true, now, Some(now));
            var t3 := Task(3, "c", "Medium", false, now, None);
            DisplaySort([t1, t2, t3]) == [t1, t3, t2]
  {
    var t1 := Task(1, "a", "High", false, now, None);
    var t2 := Task(2, "b", "Low", true, now, Some(now));
    var t3 := Task(3, "c", "Medium", false, now, None);
    assert KeyOf(t1) == SortKey(false, 0) && KeyOf(t2) == SortKey(true, 2) && KeyOf(t3) == SortKey(false, 1);
    assert [t1, t2, t3][1..] == [t2, t3] && [t2, t3][1..] == [t3] && [t3][1..] == [];
    assert DisplaySort([t3]) == [t3];
    assert Insert(t2, [t3]) == [t3] + Insert(t2, []) == [t3, t2];
    assert DisplaySort([t2, t3]) == [t3, t2];
    assert Insert(t1, [t3, t2]) == [t1, t3, t2];
  }

  /** What the cards of the list show for a selector, top to bottom. */
  function Shown(ts: seq<Task>, selector: string): (r: seq<Task>)
    ensures DisplayOrdered(r)
    ensures forall t :: multiset(r)[t] == if Admits(Classify(selector), t) then multiset(ts)[t] else 0
    ensures forall k :: Bucket(r, k) == Bucket(Select(ts, Classify(selector)), k)
  {
    DisplaySort(Select(ts, Classify(selector)))
  }

  // ---------------------------------------------------------------------
  // update_stats
  // ---------------------------------------------------------------------

  /** The progress line: a greeting when there are no tasks, otherwise the
      completed and total counts it divides. */
  datatype Progress = ReadyToStart | Fraction(completed: nat, total: nat)

  datatype Stats = Stats(total: nat, completed: nat, pending: nat, progress: Progress)

  /** The counts of `update_stats`, always over the whole store. */
  function UpdateStats(ts: seq<Task>): (s: Stats)
    ensures s.total == |ts|
    ensures s.completed == |Select(ts, CompletedOnly)|
    ensures s.pending == |Select(ts, PendingOnly)|
    ensures 0 <= s.completed <= s.total && s.pending == s.total - s.completed
    ensures s.progress.ReadyToStart? <==> s.total == 0
    ensures s.progress.Fraction? ==> s.progress.completed == s.completed && 0 < s.progress.total == s.total
  {
    var total := |ts|;
    var completed := |Where(ts, Condition(CompletedOnly))|;
    PendingCompletedPartition(ts);
    var pending, done := Select(ts, PendingOnly), Select(ts, CompletedOnly);
    assert |multiset(pending) + multiset(done)| == total;
    assert |multiset(pending)| == |pending| && |multiset(done)| == |done| == completed;
    Stats(total, completed, total - completed, if total == 0 then ReadyToStart else Fraction(completed, total))
  }

  /** The counts depend only on which tasks there are, not on their order,
      so the "All" sort cannot change them. */
  lemma StatsIgnoreOrder(a: seq<Task>, b: seq<Task>)
    requires multiset(a) == multiset(b)
    ensures UpdateStats(a) == UpdateStats(b)
  {
    WhereOfPermutation(a, b, Condition(CompletedOnly));
    assert |multiset(Where(a, Condition(CompletedOnly)))| == |multiset(Where(b, Condition(CompletedOnly)))|;
    assert |multiset(a)| == |multiset(b)|;
  }
}
