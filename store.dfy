/** The module-level task list of script.js with the five actions that
    change it and the `load`/`save` round trip to local storage. */
module Store {
  import opened Text
  import opened Seqs
  import opened Tasks

  /** What `load` finds under the tasks key: nothing (or an empty string),
      text that does not parse, parsed JSON that is not an array, or an
      array of task records. */
  datatype Stored = Absent | Unparsable | NotAList | TaskList(items: seq<Task>)

  /** `load`: the stored array, or an empty list for anything else. */
  function Loaded(raw: Stored): seq<Task> {
    match raw
    case TaskList(items) => items
    case _ => []
  }

  class TaskStore {
    /** The task list, in insertion order. */
    var tasks: seq<Task>
    /** What local storage holds under the tasks key. */
    var stored: Stored

    /** Start-up: read whatever storage holds. */
    constructor (initial: Stored)
      ensures stored == initial
      ensures initial.TaskList? ==> tasks == initial.items
      ensures !initial.TaskList? ==> tasks == []
    {
      stored := initial;
      tasks := Loaded(initial);
    }

    /** `save`: write the whole list; loading it back gives the same list. */
    method Save()
      modifies this`stored
      ensures stored == TaskList(tasks)
      ensures Loaded(stored) == tasks
    {
      stored := TaskList(tasks);
    }

    /** addTask: blank input changes nothing and saves nothing. */
    method AddTask(text: string, id: string, now: int)
      modifies this
      ensures tasks == Added(old(tasks), text, id, now)
      ensures stored == if Trim(text) == [] then old(stored) else TaskList(tasks)
      ensures WellFormed(old(tasks)) ==> WellFormed(tasks)
      ensures UniqueIds(old(tasks)) && (forall k :: 0 <= k < |old(tasks)| ==> old(tasks)[k].id != id) ==>
        UniqueIds(tasks)
    {
      if WellFormed(tasks) { AddedWellFormed(tasks, text, id, now); }
      if UniqueIds(tasks) && forall k :: 0 <= k < |tasks| ==> tasks[k].id != id {
        AddedUniqueIds(tasks, text, id, now);
      }
      var trimmed := Trim(text);
      if trimmed == [] {
        return;
      }
      tasks := tasks + [Task(id, trimmed, false, now)];
      Save();
    }

    /** toggleTask: an unknown id changes nothing and saves nothing. */
    method ToggleTask(id: string)
      modifies this
      ensures tasks == Toggled(old(tasks), id)
      ensures stored == if FindIndex(old(tasks), id).None? then old(stored) else TaskList(tasks)
      ensures WellFormed(old(tasks)) ==> WellFormed(tasks)
      ensures UniqueIds(old(tasks)) ==> UniqueIds(tasks)
    {
      ToggledPreserves(tasks, id);
      var found := FindIndex(tasks, id);
      if found.None? {
        return;
      }
      var i := found.value;
      tasks := tasks[i := tasks[i].(completed := !tasks[i].completed)];
      Save();
    }

    /** updateTask: an unknown id or blank text keeps the old text and
      saves nothing. */
    method UpdateTask(id: string, newText: string)
      modifies this
      ensures tasks == Updated(old(tasks), id, newText)
      ensures stored == if FindIndex(old(tasks), id).None? || Trim(newText) == [] then old(stored) else TaskList(tasks)
      ensures WellFormed(old(tasks)) ==> WellFormed(tasks)
      ensures UniqueIds(old(tasks)) ==> UniqueIds(tasks)
    {
      UpdatedPreserves(tasks, id, newText);
      var found := FindIndex(tasks, id);
      if found.None? {
        return;
      }
      var trimmed := Trim(newText);
      if trimmed == [] {
        return;
      }
      var i := found.value;
      tasks := tasks[i := tasks[i].(text := trimmed)];
      Save();
    }

    /** removeTask: always saves, even when no task had the id. */
    method RemoveTask(id: string)
      modifies this
      ensures tasks == Removed(old(tasks), id)
      ensures stored == TaskList(tasks)
      ensures WellFormed(old(tasks)) ==> WellFormed(tasks)
      ensures UniqueIds(old(tasks)) ==> UniqueIds(tasks)
    {
      RemovedPreserves(tasks, id);
      tasks := Removed(tasks, id);
      Save();
    }

    /** clearCompleted: with nothing completed, changes nothing and saves
      nothing. */
    method ClearCompleted()
      modifies this
      ensures tasks == Cleared(old(tasks))
      ensures stored == if AnyCompleted(old(tasks)) then TaskList(tasks) else old(stored)
      ensures WellFormed(old(tasks)) ==> WellFormed(tasks)
      ensures UniqueIds(old(tasks)) ==> UniqueIds(tasks)
    {
      ClearedPreserves(tasks);
      if !AnyCompleted(tasks) {
        return;
      }
      tasks := Filter(tasks, IsActive);
      Save();
    }
  }
}
