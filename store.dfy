/**
 * The TaskFlow store: the module-level `tasks` list and `filter` value, the
 * five operations that change the list, startup loading, and the two reads
 * render makes (the filtered view and the counters).
 */
module TaskFlow {
  import opened Text
  import opened Tasks
  import Lists

  class TaskStore {
    /** The ordered task list, newest first. */
    var tasks: seq<Task>
    /** The current filter value: "all", "pending", "completed" or anything else. */
    var filter: string

    constructor ()
      ensures tasks == [] && filter == "all"
    {
      tasks := [];
      filter := "all";
    }

    /** Startup load: the stored list, or an empty one when the slot is
        missing, empty or does not parse (None). */
    method Load(stored: Option<seq<Task>>)
      modifies this`tasks
      ensures stored.Some? ==> tasks == stored.value
      ensures stored.None? ==> tasks == []
    {
      match stored
      case None => tasks := [];
      case Some(ts) => tasks := ts;
    }

    /** addTaskFromForm, with the form fields, the id and the creation time as
        inputs and toIso standing for the date parsing. */
    method AddTaskFromForm(title: string, desc: string, date: string, time: string,
                           toIso: string -> Option<string>, id: string, createdAt: string)
      modifies this`tasks
      ensures tasks == AddTask(old(tasks), title, desc, DueDateTime(date, time, toIso), id, createdAt)
      ensures IsBlank(title) ==> tasks == old(tasks)
      ensures !IsBlank(title) ==> |tasks| == |old(tasks)| + 1 && tasks[1..] == old(tasks)
                                  && tasks[0].id == id && !tasks[0].completed
      ensures date == "" ==> tasks == AddTask(old(tasks), title, desc, None, id, createdAt)
      ensures date != "" && time == "" ==>
                tasks == AddTask(old(tasks), title, desc, toIso(date + "T00:00:00"), id, createdAt)
      ensures date != "" && time != "" ==>
                tasks == AddTask(old(tasks), title, desc, toIso(date + "T" + time + ":00"), id, createdAt)
    {
      var t := Trim(title);
      if t == "" {
        return;
      }
      var d := Trim(desc);
      var due: Option<string> := None;
      if date != "" {
        var timeVal := if time == "" then "00:00" else time;
        due := toIso(date + "T" + timeVal + ":00");
        assert time == "" ==> date + "T" + timeVal + ":00" == date + "T00:00:00";
      }
      assert due == DueDateTime(date, time, toIso);
      tasks := [Task(id, t, d, due, false, createdAt)] + tasks;
    }

    /** toggleComplete: flip `completed` on the first task with the id. */
    method ToggleComplete(id: string)
      modifies this`tasks
      ensures tasks == Toggled(old(tasks), id)
      ensures FirstIndex(old(tasks), id).None? ==> tasks == old(tasks)
    {
      UpdateFirstAt(tasks, id, Flip);
      var i := FirstIndex(tasks, id);
      if i.None? {
        return;
      }
      var t := tasks[i.value];
      tasks := tasks[i.value := t.(completed := !t.completed)];
    }

    /** deleteTask: keep every task whose id differs. */
    method DeleteTask(id: string)
      modifies this`tasks
      ensures tasks == Without(old(tasks), id)
      ensures forall t :: t in tasks <==> t in old(tasks) && t.id != id
    {
      tasks := Without(tasks, id);
      DeleteSpec(old(tasks), id);
    }

    /** openEdit, with the two prompt results as inputs (None = cancelled). */
    method OpenEdit(id: string, newTitle: Option<string>, newDesc: Option<string>)
      modifies this`tasks
      ensures tasks == Edited(old(tasks), id, newTitle, newDesc)
      ensures |tasks| == |old(tasks)|
      ensures forall k :: 0 <= k < |tasks| ==> tasks[k].id == old(tasks)[k].id
    {
      EditSpec(tasks, id, newTitle, newDesc);
      var i := FirstIndex(tasks, id);
      if i.None? {
        return;
      }
      if newTitle.None? {
        return;
      }
      UpdateFirstAt(tasks, id, EditWith(newTitle.value, newDesc));
      var t := tasks[i.value];
      var title := if IsBlank(newTitle.value) then t.title else Trim(newTitle.value);
      var desc := if newDesc.None? then t.desc else Trim(newDesc.value);
      tasks := tasks[i.value := t.(title := title, desc := desc)];
    }

    /** clearCompleted: keep the tasks that are not completed. */
    method ClearCompleted()
      modifies this`tasks
      ensures tasks == Pending(old(tasks))
      ensures forall t :: t in tasks <==> t in old(tasks) && !t.completed
    {
      tasks := Pending(tasks);
      ClearCompletedSpec(old(tasks));
    }

    /** Choosing a filter button sets the filter value. */
    method SetFilter(mode: string)
      modifies this`filter
      ensures filter == mode
    {
      filter := mode;
    }

    /** The list render shows. */
    function FilteredView(): (r: seq<Task>)
      reads this
      ensures r == View(tasks, filter)
      ensures filter == "pending" ==> forall t :: t in r <==> t in tasks && !t.completed
      ensures filter == "completed" ==> forall t :: t in r <==> t in tasks && t.completed
      ensures filter != "pending" && filter != "completed" ==> r == tasks
    {
      Lists.KeepMembers(tasks, IsPending);
      Lists.KeepMembers(tasks, IsCompleted);
      View(tasks, filter)
    }

    /** The total, pending and completed counters render shows. */
    function Counters(): (c: Counts)
      reads this
      ensures c == CountsOf(tasks)
      ensures c.total == |tasks| && c.pending + c.completed == c.total
    {
      CountsConsistent(tasks);
      CountsOf(tasks)
    }
  }
}
