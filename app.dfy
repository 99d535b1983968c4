/** The task-list state of the desktop app and its event handlers. Widget
    construction is not modelled: the cards the list shows and the stats
    labels are fields holding what they display. */
module App {
  import opened Text
  import opened Tasks
  import opened View

  /** How a press of the edit dialog's save button ends. */
  datatype EditOutcome = UnknownId | EmptyText | Saved

  class ModernTodoApp {
    /** `self.tasks`. */
    var tasks: seq<Task>
    /** The text of the filter combo box (`self.filter_var`). */
    var filter: string
    /** What `save_tasks` last wrote to the data file. */
    var persisted: seq<Task>
    /** The task cards in the scrollable list, top to bottom. */
    var cards: seq<Task>
    /** What the progress and quick-stats labels show. */
    var stats: Stats

    /** Under "All" (or an unrecognised filter text) every refresh sorts
        `self.tasks` itself, so the store is kept in display order. */
    predicate Valid()
      reads this
    {
      Classify(filter) == ShowAll ==> DisplayOrdered(tasks)
    }

    /** The state `refresh_task_list` leaves behind when it starts from the
        list `ts`: the store sorted in place when the filter shows all, the
        cards for the filter, and the counts over the whole store. */
    predicate Refreshed(ts: seq<Task>)
      reads this
    {
      && tasks == (if Classify(filter) == ShowAll then DisplaySort(ts) else ts)
      && cards == Shown(ts, filter)
      && stats == UpdateStats(ts)
    }

    /** `__init__`: the loaded list (read from the data file by the caller),
        the filter on "All", and a first refresh, which sorts the loaded
        list in place. */
    constructor (loaded: seq<Task>)
      ensures filter == "All" && persisted == loaded
      ensures Refreshed(loaded) && Valid()
      ensures multiset(tasks) == multiset(loaded)
    {
      tasks, filter, persisted := loaded, "All", loaded;
      cards, stats := [], UpdateStats([]);
      new;
      RefreshTaskList();
    }

    /** `refresh_task_list` with the cards and labels as data. */
    method RefreshTaskList()
      modifies this
      ensures filter == old(filter) && persisted == old(persisted)
      ensures Refreshed(old(tasks)) && Valid()
      ensures multiset(tasks) == multiset(old(tasks))
    {
      var kind := Classify(filter);
      var filtered := Select(tasks, kind);
      if filtered != [] {
        // `filtered_tasks.sort(...)`: for "All" this list is `self.tasks`
        filtered := DisplaySort(filtered);
      }
      assert filtered == Shown(tasks, filter);
      var store := if kind == ShowAll then filtered else tasks;
      StatsIgnoreOrder(store, tasks);
      tasks, cards, stats := store, filtered, UpdateStats(store);
    }

    /** `save_tasks` followed by `refresh_task_list`, the tail of every
        handler that changes the store. */
    method SaveAndRefresh()
      modifies this
      ensures persisted == old(tasks) && filter == old(filter)
      ensures Refreshed(persisted) && Valid()
    {
      persisted := tasks;
      RefreshTaskList();
    }

    /** Picking a filter in the combo box refreshes the list. */
    method SelectFilter(selector: string)
      modifies this
      ensures filter == selector && persisted == old(persisted)
      ensures Refreshed(old(tasks)) && Valid()
    {
      filter := selector;
      RefreshTaskList();
    }

    /** `add_task` with the entry text, the priority combo text and the
        current time. A blank entry only warns. Otherwise the new task is
        appended, the list is saved, and the refresh may move the new task
        into display order. */
    method AddTask(entry: string, priorityRaw: string, now: Timestamp) returns (added: bool)
      modifies this
      ensures added <==> !IsBlank(entry)
      ensures !added ==> unchanged(this)
      ensures added ==> persisted == Added(old(tasks), entry, priorityRaw, now)
                        && filter == old(filter) && Refreshed(persisted) && Valid()
    {
      var text := Strip(entry);
      if text == [] {
        return false;
      }
      var priority := PriorityLabel(priorityRaw);
      var task := Task(NextId(tasks), text, priority, false, now, None);
      tasks := tasks + [task];
      assert tasks == Added(old(tasks), entry, priorityRaw, now);
      SaveAndRefresh();
      added := true;
    }

    /** `toggle_task`: the loop stops at the first task with the id, flips
        it, then the list is saved and refreshed whether or not a task
        matched. With no task of that id no task changes and the store
        keeps its order, since it was already in display order if the
        refresh sorts it; the file is still rewritten. */
    method ToggleTask(id: int, now: Timestamp)
      requires Valid()
      modifies this
      ensures persisted == ToggleFirst(old(tasks), id, now)
      ensures filter == old(filter) && Refreshed(persisted) && Valid()
      ensures (forall k :: 0 <= k < |old(tasks)| ==> old(tasks)[k].id != id) ==> tasks == old(tasks)
    {
      var i := 0;
      while i < |tasks| && tasks[i].id != id
        invariant 0 <= i <= |tasks|
        invariant forall k :: 0 <= k < i ==> tasks[k].id != id
      {
        i := i + 1;
      }
      FirstIndexAt(tasks, id, i);
      if i < |tasks| {
        tasks := tasks[i := Toggled(tasks[i], now)];
      } else if Classify(filter) == ShowAll {
        SortOfOrdered(tasks);
      }
      assert tasks == ToggleFirst(old(tasks), id, now);
      SaveAndRefresh();
    }

    /** `delete_task`, with the answer to its confirmation prompt: on "no"
        nothing happens; on "yes" every task with the id goes, and the list
        is saved and refreshed. */
    method DeleteTask(id: int, confirmed: bool)
      requires Valid()
      modifies this
      ensures !confirmed ==> unchanged(this)
      ensures confirmed ==> persisted == WithoutId(old(tasks), id)
                            && filter == old(filter) && Refreshed(persisted) && Valid()
      ensures (forall k :: 0 <= k < |old(tasks)| ==> old(tasks)[k].id != id) ==> tasks == old(tasks)
    {
      if !confirmed {
        return;
      }
      var kept := WithoutId(tasks, id);
      if kept == tasks && Classify(filter) == ShowAll {
        SortOfOrdered(tasks);
      }
      tasks := kept;
      SaveAndRefresh();
    }

    /** `edit_task` for `id` followed by its `save_edit` with the typed text
        and the chosen priority. An unknown id opens no dialog; blank text
        only warns; otherwise the first task with the id gets the new text
        and priority, and the list is saved and refreshed. */
    method EditTask(id: int, newText: string, priorityRaw: string) returns (outcome: EditOutcome)
      modifies this
      ensures outcome == if FirstIndexOf(old(tasks), id).None? then UnknownId
                         else if IsBlank(newText) then EmptyText
                         else Saved
      ensures outcome != Saved ==> unchanged(this)
      ensures outcome == Saved ==> persisted == ApplyEdit(old(tasks), id, newText, priorityRaw)
                                   && filter == old(filter) && Refreshed(persisted) && Valid()
    {
      var found := FirstIndexOf(tasks, id);
      if found.None? {
        return UnknownId;
      }
      var text := Strip(newText);
      if text == [] {
        return EmptyText;
      }
      var k := found.value;
      tasks := tasks[k := tasks[k].(text := text, priority := PriorityLabel(priorityRaw))];
      assert tasks == ApplyEdit(old(tasks), id, newText, priorityRaw);
      SaveAndRefresh();
      outcome := Saved;
    }
  }
}
