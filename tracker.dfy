/** The task-tracker application's state and its five user actions, with
    the window's dialogs, selection and confirmation replaced by the values
    they return. */
module Tracker {
  import opened Text
  import opened Tasks

  /** What an action ended in, as the user sees it: the list was changed and
      written out, the action was dropped without a message (cancelled or
      blank dialog, unconfirmed delete, status window closed), the "Select
      Task" warning, or the "Task not found." error. */
  datatype Outcome = Saved | Dismissed | NoSelection | NotFound

  /** The tasks `filter` lets through: all of them when it is `None`,
      otherwise the ones whose status equals it. */
  predicate Shows(filter: Option<string>, t: Task) {
    filter.None? || t.status == filter.value
  }

  /** `after` is `before` with at most the task at `i` changed, and that one
      keeps its identifier and creation time. */
  ghost predicate SameExceptAt(before: seq<Task>, after: seq<Task>, i: nat) {
    |after| == |before| && i < |before|
    && (forall j :: 0 <= j < |before| && j != i ==> after[j] == before[j])
    && after[i].id == before[i].id && after[i].createdAt == before[i].createdAt
  }

  class TaskTrackerApp {
    /** The task list, in insertion order. */
    var tasks: seq<Task>
    /** The status the list view is restricted to, if any. */
    var filterStatus: Option<string>
    /** Every list written to the task file, oldest first. */
    ghost var saves: seq<seq<Task>>

    /** Starts on the list read from the task file, showing every task. */
    constructor (loaded: seq<Task>)
      ensures tasks == loaded && filterStatus == None && saves == []
    {
      tasks := loaded;
      filterStatus := None;
      saves := [];
    }

    /** `get_filtered_tasks`: the list itself when no filter is set,
        otherwise the tasks with the filter's status, each as often as in the
        list and in the list's order. */
    function GetFilteredTasks(): (r: seq<Task>)
      reads this
      ensures filterStatus.None? ==> r == tasks
      ensures Subsequence(r, tasks)
      ensures forall t :: multiset(r)[t] == if Shows(filterStatus, t) then multiset(tasks)[t] else 0
      ensures forall t :: t in r <==> t in tasks && Shows(filterStatus, t)
    {
      if filterStatus.None? then
        SubsequenceReflexive(tasks);
        tasks
      else
        var status := filterStatus.value;
        Keep(tasks, (t: Task) => t.status == status)
    }

    /** `add_task`: `input` is what the description dialog returned (`None`
        when cancelled), `id` and `now` a fresh identifier and the current
        time. A cancelled or blank input changes nothing; otherwise a task
        with the stripped input is appended and the list is saved. */
    method AddTask(input: Option<string>, id: string, now: string) returns (outcome: Outcome)
      modifies this
      ensures outcome == if input.None? || Strip(input.value) == [] then Dismissed else Saved
      ensures outcome == Dismissed ==> tasks == old(tasks)
      ensures outcome == Saved ==> tasks == old(tasks) + [NewTask(id, Strip(input.value), now)]
      ensures outcome == Saved ==> tasks[|tasks| - 1].description != []
      ensures UniqueIds(old(tasks)) && !HasId(old(tasks), id) ==> UniqueIds(tasks)
      ensures WellFormed(old(tasks)) && !HasId(old(tasks), id) ==> WellFormed(tasks)
      ensures filterStatus == old(filterStatus)
      ensures outcome == Saved ==> saves == old(saves) + [tasks]
      ensures outcome != Saved ==> saves == old(saves)
    {
      if input.None? || Strip(input.value) == [] {
        return Dismissed;
      }
      var task := NewTask(id, Strip(input.value), now);
      if UniqueIds(tasks) && !HasId(tasks, id) {
        AppendUniqueIds(tasks, task);
      }
      if WellFormed(tasks) && !HasId(tasks, id) {
        AppendWellFormed(tasks, input.value, id, now);
      }
      tasks := tasks + [task];
      saves := saves + [tasks];
      outcome := Saved;
    }

    /** `update_task`: `selection` is the selected row's identifier, `input`
        what the edit dialog returned. The first task with that identifier
        gets the stripped input as description and `now` as update time;
        nothing else changes. No selection, an unknown identifier, and a
        cancelled or blank input each leave the list as it was. */
    method UpdateTask(selection: Option<string>, input: Option<string>, now: string)
      returns (outcome: Outcome)
      modifies this
      ensures outcome ==
        if selection.None? then NoSelection
        else if FindFirst(old(tasks), selection.value).None? then NotFound
        else if input.None? || Strip(input.value) == [] then Dismissed
        else Saved
      ensures outcome != Saved ==> tasks == old(tasks)
      ensures outcome == Saved ==>
        var i := FindFirst(old(tasks), selection.value).value;
        SameExceptAt(old(tasks), tasks, i)
        && tasks[i].description == Strip(input.value)
        && tasks[i].status == old(tasks)[i].status
        && tasks[i].updatedAt == now
      ensures WellFormed(old(tasks)) ==> WellFormed(tasks)
      ensures filterStatus == old(filterStatus)
      ensures outcome == Saved ==> saves == old(saves) + [tasks]
      ensures outcome != Saved ==> saves == old(saves)
    {
      if selection.None? {
        return NoSelection;
      }
      var found := FindFirst(tasks, selection.value);
      if found.None? {
        return NotFound;
      }
      if input.None? || Strip(input.value) == [] {
        return Dismissed;
      }
      var i := found.value;
      var edited := tasks[i].(description := Strip(input.value), updatedAt := now);
      if WellFormed(tasks) {
        assert tasks[i] in tasks;
        ReplaceWellFormed(tasks, i, edited);
      }
      tasks := tasks[i := edited];
      saves := saves + [tasks];
      outcome := Saved;
    }

    /** `delete_task`: `selection` is the selected row's identifier,
        `confirmed` the answer to the confirmation question. A confirmed
        delete keeps exactly the tasks with another identifier, in their
        order, and saves the list even when nothing was removed. */
    method DeleteTask(selection: Option<string>, confirmed: bool) returns (outcome: Outcome)
      modifies this
      ensures outcome ==
        if selection.None? then NoSelection
        else if !confirmed then Dismissed
        else Saved
      ensures outcome != Saved ==> tasks == old(tasks)
      ensures outcome == Saved ==> Subsequence(tasks, old(tasks))
      ensures outcome == Saved ==>
        forall t :: multiset(tasks)[t] == if t.id != selection.value then multiset(old(tasks))[t] else 0
      ensures outcome == Saved ==> forall t :: t in tasks ==> t.id != selection.value
      ensures outcome == Saved && !HasId(old(tasks), selection.value) ==> tasks == old(tasks)
      ensures WellFormed(old(tasks)) ==> WellFormed(tasks)
      ensures filterStatus == old(filterStatus)
      ensures outcome == Saved ==> saves == old(saves) + [tasks]
      ensures outcome != Saved ==> saves == old(saves)
    {
      if selection.None? {
        return NoSelection;
      }
      if !confirmed {
        return Dismissed;
      }
      var id := selection.value;
      var p := (t: Task) => t.id != id;
      if !HasId(tasks, id) {
        KeepAll(tasks, p);
      }
      if WellFormed(tasks) {
        KeepWellFormed(tasks, p);
      }
      tasks := Keep(tasks, p);
      saves := saves + [tasks];
      outcome := Saved;
    }

    /** `set_status` with its dialog's `on_set`: `selection` is the selected
        row's identifier, `picked` the option chosen in the read-only status
        box (if the user chose one), `pressed` whether "Set" was clicked
        rather than the window closed. The first task with that identifier
        gets the box's status and `now` as update time; nothing else
        changes. */
    method SetStatus(selection: Option<string>, picked: Option<nat>, pressed: bool, now: string)
      returns (outcome: Outcome)
      requires picked.Some? ==> picked.value < |StatusOptions|
      modifies this
      ensures outcome ==
        if selection.None? then NoSelection
        else if FindFirst(old(tasks), selection.value).None? then NotFound
        else if !pressed then Dismissed
        else Saved
      ensures outcome != Saved ==> tasks == old(tasks)
      ensures outcome == Saved ==>
        var i := FindFirst(old(tasks), selection.value).value;
        SameExceptAt(old(tasks), tasks, i)
        && tasks[i].status == StatusChoice(old(tasks)[i].status, picked)
        && tasks[i].description == old(tasks)[i].description
        && tasks[i].updatedAt == now
      ensures WellFormed(old(tasks)) ==> WellFormed(tasks)
      ensures filterStatus == old(filterStatus)
      ensures outcome == Saved ==> saves == old(saves) + [tasks]
      ensures outcome != Saved ==> saves == old(saves)
    {
      if selection.None? {
        return NoSelection;
      }
      var found := FindFirst(tasks, selection.value);
      if found.None? {
        return NotFound;
      }
      if !pressed {
        return Dismissed;
      }
      var i := found.value;
      var edited := tasks[i].(status := StatusChoice(tasks[i].status, picked), updatedAt := now);
      if WellFormed(tasks) {
        assert tasks[i] in tasks;
        ReplaceWellFormed(tasks, i, edited);
      }
      tasks := tasks[i := edited];
      saves := saves + [tasks];
      outcome := Saved;
    }

    /** `filter_tasks`: switches the view's filter; the list is untouched and
        nothing is saved. */
    method FilterTasks(status: Option<string>)
      modifies this
      ensures filterStatus == status
      ensures tasks == old(tasks) && saves == old(saves)
    {
      filterStatus := status;
    }
  }
}
