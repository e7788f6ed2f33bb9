/**
 * The task records of TaskFlow and, as functions on the ordered list of
 * records, what each store operation does to that list, the filtered views
 * and the counters; lemmas state what the store promises about them.
 */
module Tasks {
  import opened Text
  import opened Lists

  datatype Option<T> = None | Some(value: T)

  /** One task: {id, title, desc, dueDateTime (ISO text or null), completed, createdAt}. */
  datatype Task = Task(
    id: string,
    title: string,
    desc: string,
    dueDateTime: Option<string>,
    completed: bool,
    createdAt: string)

  // ---------------------------------------------------------------------
  // Lookup by id: tasks.find(x => x.id === id)

  /** The position of the first task with the given id, if there is one. */
  function FirstIndex(ts: seq<Task>, id: string): (r: Option<nat>)
    ensures r.Some? ==> r.value < |ts| && ts[r.value].id == id
                        && forall k :: 0 <= k < r.value ==> ts[k].id != id
    ensures r.None? <==> forall k :: 0 <= k < |ts| ==> ts[k].id != id
  {
    if ts == [] then None
    else if ts[0].id == id then Some(0)
    else match FirstIndex(ts[1..], id)
      case None => None
      case Some(i) => Some(i + 1)
  }

  /** ts with f applied to the first task whose id is id; ts itself when there is none. */
  function UpdateFirst(ts: seq<Task>, id: string, f: Task -> Task): seq<Task>
  {
    if ts == [] then []
    else if ts[0].id == id then [f(ts[0])] + ts[1..]
    else [ts[0]] + UpdateFirst(ts[1..], id, f)
  }

  /** Updating the first match is an update at the index the lookup finds. */
  lemma {:induction false} UpdateFirstAt(ts: seq<Task>, id: string, f: Task -> Task)
    ensures UpdateFirst(ts, id, f) == match FirstIndex(ts, id)
                                       case None => ts
                                       case Some(i) => ts[i := f(ts[i])]
  {
    if ts != [] {
      if ts[0].id == id {
        assert [f(ts[0])] + ts[1..] == ts[0 := f(ts[0])];
      } else {
        UpdateFirstAt(ts[1..], id, f);
        match FirstIndex(ts[1..], id)
        case None =>
          assert [ts[0]] + ts[1..] == ts;
        case Some(i) =>
          assert [ts[0]] + ts[1..][i := f(ts[1..][i])] == ts[i + 1 := f(ts[i + 1])];
      }
    }
  }

  // ---------------------------------------------------------------------
  // Add: addTaskFromForm

  /** The text handed to the date parser: the date, 'T', the time or midnight, ':00'. */
  function DueText(date: string, time: string): string
  {
    date + "T" + (if time == "" then "00:00" else time) + ":00"
  }

  /** The due date of a new task; toIso stands for parsing into a Date and
      calling toISOString, None for a Date that is not a number. */
  function DueDateTime(date: string, time: string, toIso: string -> Option<string>): Option<string>
  {
    if date == "" then None else toIso(DueText(date, time))
  }

  /** The list after adding a task: unchanged for a blank title, else the new
      task at the head. */
  function AddTask(ts: seq<Task>, title: string, desc: string, due: Option<string>,
                   id: string, createdAt: string): seq<Task>
  {
    if IsBlank(title) then ts
    else [Task(id, Trim(title), Trim(desc), due, false, createdAt)] + ts
  }

  /** Adding with a title that is blank after trimming leaves the list as it was. */
  lemma AddBlankUnchanged(ts: seq<Task>, title: string, desc: string, due: Option<string>,
                          id: string, createdAt: string)
    requires forall k :: 0 <= k < |title| ==> IsWhitespace(title[k])
    ensures AddTask(ts, title, desc, due, id, createdAt) == ts
  {
    BlankIffAllWhitespace(title);
  }

  /** A successful add puts a fresh, not completed task with trimmed, non-empty
      title and trimmed description first; the old tasks follow in order. */
  lemma AddAtHead(ts: seq<Task>, title: string, desc: string, due: Option<string>,
                  id: string, createdAt: string)
    requires !IsBlank(title)
    ensures var r := AddTask(ts, title, desc, due, id, createdAt);
            && |r| == |ts| + 1 && r[1..] == ts
            && r[0].id == id && r[0].createdAt == createdAt && r[0].dueDateTime == due
            && !r[0].completed
            && r[0].title == Trim(title) && r[0].title != [] && Trim(r[0].title) == r[0].title
            && r[0].desc == Trim(desc) && Trim(r[0].desc) == r[0].desc
  {
    TrimIdempotent(title);
    TrimIdempotent(desc);
  }

  // ---------------------------------------------------------------------
  // Toggle: toggleComplete

  function Flip(t: Task): Task
  {
    t.(completed := !t.completed)
  }

  /** The list after toggling: the first task with the id has its completion flipped. */
  function Toggled(ts: seq<Task>, id: string): seq<Task>
  {
    UpdateFirst(ts, id, Flip)
  }

  /** Toggling flips `completed` of the first task with the id and changes
      nothing else; with no such task it changes nothing. */
  lemma ToggleSpec(ts: seq<Task>, id: string)
    ensures FirstIndex(ts, id).None? ==> Toggled(ts, id) == ts
    ensures FirstIndex(ts, id).Some? ==>
              var i := FirstIndex(ts, id).value;
              Toggled(ts, id) == ts[i := ts[i].(completed := !ts[i].completed)]
  {
    UpdateFirstAt(ts, id, Flip);
  }

  /** Toggling the same id twice restores the list. */
  lemma {:induction false} ToggleTwice(ts: seq<Task>, id: string)
    ensures Toggled(Toggled(ts, id), id) == ts
  {
    if ts != [] {
      if ts[0].id == id {
        assert ([Flip(ts[0])] + ts[1..])[1..] == ts[1..];
      } else {
        ToggleTwice(ts[1..], id);
        assert ([ts[0]] + Toggled(ts[1..], id))[1..] == Toggled(ts[1..], id);
      }
    }
  }

  // ---------------------------------------------------------------------
  // Delete: deleteTask

  function HasOtherId(id: string): Task -> bool
  {
    (t: Task) => t.id != id
  }

  function HasId(id: string): Task -> bool
  {
    (t: Task) => t.id == id
  }

  /** The list after deleting: tasks.filter(x => x.id !== id). */
  function Without(ts: seq<Task>, id: string): seq<Task>
  {
    Keep(ts, HasOtherId(id))
  }

  /** Deleting removes exactly the tasks with the id, keeps the others in
      their order, every copy included (what is kept and what is removed make
      up the list, with multiplicity), and is the identity exactly when the id
      is absent; after it no task with the id is left to find. */
  lemma DeleteSpec(ts: seq<Task>, id: string)
    ensures forall t :: t in Without(ts, id) <==> t in ts && t.id != id
    ensures IsSubsequence(Without(ts, id), ts)
    ensures multiset(Without(ts, id)) + multiset(Keep(ts, HasId(id))) == multiset(ts)
    ensures |Without(ts, id)| + |Keep(ts, HasId(id))| == |ts|
    ensures Without(ts, id) == ts <==> FirstIndex(ts, id).None?
    ensures FirstIndex(Without(ts, id), id).None?
  {
    KeepPartition(ts, HasOtherId(id), HasId(id));
    KeepMembers(ts, HasOtherId(id));
    KeepIsSubsequence(ts, HasOtherId(id));
    KeepAllIff(ts, HasOtherId(id));
    var r := Without(ts, id);
    forall k | 0 <= k < |r| ensures r[k].id != id {
      assert r[k] in r;
    }
  }

  /** After a delete, toggling or editing that id finds nothing and changes nothing. */
  lemma DeleteThenNotFound(ts: seq<Task>, id: string, newTitle: Option<string>, newDesc: Option<string>)
    ensures Toggled(Without(ts, id), id) == Without(ts, id)
    ensures Edited(Without(ts, id), id, newTitle, newDesc) == Without(ts, id)
  {
    DeleteSpec(ts, id);
    ToggleSpec(Without(ts, id), id);
    EditSpec(Without(ts, id), id, newTitle, newDesc);
  }

  // ---------------------------------------------------------------------
  // Edit: openEdit, with the two prompt results as inputs (None = cancelled)

  /** The record after an edit: `newTitle.trim() || t.title` and
      `newDesc === null ? t.desc : newDesc.trim()`. */
  function EditRecord(t: Task, newTitle: string, newDesc: Option<string>): Task
  {
    t.(title := if IsBlank(newTitle) then t.title else Trim(newTitle),
       desc := match newDesc case None => t.desc case Some(d) => Trim(d))
  }

  function EditWith(newTitle: string, newDesc: Option<string>): Task -> Task
  {
    (t: Task) => EditRecord(t, newTitle, newDesc)
  }

  /** The list after an edit; a cancelled title prompt changes nothing. */
  function Edited(ts: seq<Task>, id: string, newTitle: Option<string>, newDesc: Option<string>): seq<Task>
  {
    match newTitle
    case None => ts
    case Some(nt) => UpdateFirst(ts, id, EditWith(nt, newDesc))
  }

  /** An edit changes only the title and description of the first task with
      the id: a blank new title keeps the old one, a cancelled description
      keeps the old one, anything else is trimmed; a cancelled title prompt or
      an absent id changes nothing. */
  lemma EditSpec(ts: seq<Task>, id: string, newTitle: Option<string>, newDesc: Option<string>)
    ensures newTitle.None? || FirstIndex(ts, id).None? ==> Edited(ts, id, newTitle, newDesc) == ts
    ensures newTitle.Some? && FirstIndex(ts, id).Some? ==>
              var i := FirstIndex(ts, id).value;
              var r := Edited(ts, id, newTitle, newDesc);
              && |r| == |ts|
              && (forall k :: 0 <= k < |ts| && k != i ==> r[k] == ts[k])
              && r[i].id == ts[i].id && r[i].dueDateTime == ts[i].dueDateTime
              && r[i].completed == ts[i].completed && r[i].createdAt == ts[i].createdAt
              && r[i].title == (if IsBlank(newTitle.value) then ts[i].title else Trim(newTitle.value))
              && r[i].desc == (if newDesc.None? then ts[i].desc else Trim(newDesc.value))
  {
    if newTitle.Some? {
      UpdateFirstAt(ts, id, EditWith(newTitle.value, newDesc));
    }
  }

  // ---------------------------------------------------------------------
  // Views, counters and clearCompleted

  predicate IsPending(t: Task)
  {
    !t.completed
  }

  predicate IsCompleted(t: Task)
  {
    t.completed
  }

  /** tasks.filter(t => !t.completed); also what clearCompleted keeps. */
  function Pending(ts: seq<Task>): seq<Task>
  {
    Keep(ts, IsPending)
  }

  /** tasks.filter(t => t.completed) */
  function Completed(ts: seq<Task>): seq<Task>
  {
    Keep(ts, IsCompleted)
  }

  /** The filtered view render shows for a filter value. */
  function View(ts: seq<Task>, mode: string): seq<Task>
  {
    if mode == "pending" then Pending(ts)
    else if mode == "completed" then Completed(ts)
    else ts
  }

  datatype Counts = Counts(total: nat, pending: nat, completed: nat)

  /** The three counters render writes. */
  function CountsOf(ts: seq<Task>): Counts
  {
    Counts(|ts|, |Pending(ts)|, |Completed(ts)|)
  }

  /** The pending and completed views are order-preserving subsequences
      holding exactly the not completed and the completed tasks, together
      they are the whole list, and any other filter value shows everything. */
  lemma ViewPartition(ts: seq<Task>, other: string)
    requires other != "pending" && other != "completed"
    ensures IsSubsequence(View(ts, "pending"), ts) && IsSubsequence(View(ts, "completed"), ts)
    ensures forall t :: t in View(ts, "pending") <==> t in ts && !t.completed
    ensures forall t :: t in View(ts, "completed") <==> t in ts && t.completed
    ensures multiset(View(ts, "pending")) + multiset(View(ts, "completed")) == multiset(ts)
    ensures View(ts, other) == ts
  {
    KeepIsSubsequence(ts, IsPending);
    KeepIsSubsequence(ts, IsCompleted);
    KeepMembers(ts, IsPending);
    KeepMembers(ts, IsCompleted);
    KeepPartition(ts, IsPending, IsCompleted);
  }

  /** total = pending + completed = the number of tasks. */
  lemma CountsConsistent(ts: seq<Task>)
    ensures CountsOf(ts).total == |ts|
    ensures CountsOf(ts).pending + CountsOf(ts).completed == CountsOf(ts).total
  {
    KeepPartition(ts, IsPending, IsCompleted);
  }

  /** Putting a task in front of the list: its counters and views. */
  lemma ConsViews(t: Task, ts: seq<Task>)
    ensures CountsOf([t] + ts) == Counts(|ts| + 1, |Pending(ts)| + (if t.completed then 0 else 1),
                                         |Completed(ts)| + (if t.completed then 1 else 0))
    ensures View([t] + ts, "all") == [t] + ts
    ensures View([t] + ts, "pending") == if t.completed then View(ts, "pending") else [t] + View(ts, "pending")
    ensures View([t] + ts, "completed") == if t.completed then [t] + View(ts, "completed") else View(ts, "completed")
  {
    KeepCons(t, ts, IsPending);
    KeepCons(t, ts, IsCompleted);
  }

  /** A successful add raises total and pending by one and leaves completed
      as it was; the new task heads the "all" and "pending" views and the
      "completed" view is unchanged. */
  lemma AddCounts(ts: seq<Task>, title: string, desc: string, due: Option<string>,
                  id: string, createdAt: string)
    requires !IsBlank(title)
    ensures var r := AddTask(ts, title, desc, due, id, createdAt);
            && CountsOf(r) == Counts(|ts| + 1, |Pending(ts)| + 1, |Completed(ts)|)
            && View(r, "all") == r
            && View(r, "pending") == [r[0]] + View(ts, "pending")
            && View(r, "completed") == View(ts, "completed")
  {
    var t := Task(id, Trim(title), Trim(desc), due, false, createdAt);
    assert AddTask(ts, title, desc, due, id, createdAt) == [t] + ts;
    ConsViews(t, ts);
  }

  /** clearCompleted keeps exactly the not completed tasks in their order,
      every copy included (what is kept and what is cleared make up the list,
      with multiplicity); doing it again changes nothing, and the pending count
      stays while the completed count drops to zero. */
  lemma ClearCompletedSpec(ts: seq<Task>)
    ensures forall t :: t in Pending(ts) <==> t in ts && !t.completed
    ensures IsSubsequence(Pending(ts), ts)
    ensures Pending(Pending(ts)) == Pending(ts)
    ensures CountsOf(Pending(ts)) == Counts(|Pending(ts)|, |Pending(ts)|, 0)
    ensures CountsOf(Pending(ts)).pending == CountsOf(ts).pending
    ensures multiset(Pending(ts)) + multiset(Completed(ts)) == multiset(ts)
  {
    var p := Pending(ts);
    KeepPartition(ts, IsPending, IsCompleted);
    KeepMembers(ts, IsPending);
    KeepIsSubsequence(ts, IsPending);
    KeepAllIff(p, IsPending);
    assert forall i :: 0 <= i < |p| ==> IsPending(p[i]) by {
      forall i | 0 <= i < |p| ensures IsPending(p[i]) {
        assert p[i] in p;
      }
    }
    KeepNone(p, IsCompleted);
  }

  // ---------------------------------------------------------------------
  // Invariants the operations keep

  /** No two tasks share an id. The source does not enforce this (ids are
      random), so it holds only as long as every added id is fresh. */
  ghost predicate UniqueIds(ts: seq<Task>)
  {
    forall i, j :: 0 <= i < j < |ts| ==> ts[i].id != ts[j].id
  }

  /** What add and edit guarantee of a record: a trimmed, non-empty title and a trimmed description. */
  predicate WellFormed(t: Task)
  {
    t.title != [] && Trim(t.title) == t.title && Trim(t.desc) == t.desc
  }

  ghost predicate AllWellFormed(ts: seq<Task>)
  {
    forall t :: t in ts ==> WellFormed(t)
  }

  lemma {:induction false} KeepUniqueIds(ts: seq<Task>, p: Task -> bool)
    requires UniqueIds(ts)
    ensures UniqueIds(Keep(ts, p))
  {
    if ts != [] {
      KeepUniqueIds(ts[1..], p);
      var rest := Keep(ts[1..], p);
      KeepMembers(ts[1..], p);
      if p(ts[0]) {
        var r := Keep(ts, p);
        assert r == [ts[0]] + rest;
        forall j | 0 < j < |r| ensures r[0].id != r[j].id {
          assert r[j] == rest[j - 1];
          assert rest[j - 1] in ts[1..];
          var m :| 0 <= m < |ts[1..]| && ts[1..][m] == rest[j - 1];
          assert ts[m + 1] == rest[j - 1];
        }
      }
    }
  }

  /** Putting a well-formed task with a fresh id in front keeps both invariants. */
  lemma ConsPreserves(t: Task, ts: seq<Task>)
    requires UniqueIds(ts) && AllWellFormed(ts) && WellFormed(t)
    requires forall k :: 0 <= k < |ts| ==> ts[k].id != t.id
    ensures UniqueIds([t] + ts) && AllWellFormed([t] + ts)
  {
    var r := [t] + ts;
    assert forall j :: 0 < j < |r| ==> r[j] == ts[j - 1];
  }

  /** Replacing one task by a well-formed task with the same id keeps both invariants. */
  lemma ReplacePreserves(ts: seq<Task>, i: nat, t: Task)
    requires UniqueIds(ts) && AllWellFormed(ts)
    requires i < |ts| && t.id == ts[i].id && WellFormed(t)
    ensures UniqueIds(ts[i := t]) && AllWellFormed(ts[i := t])
  {
    var r := ts[i := t];
    forall u | u in r ensures WellFormed(u) {
      var k :| 0 <= k < |r| && r[k] == u;
      if k != i {
        assert ts[k] in ts;
      }
    }
  }

  /** Adding a task with a fresh id keeps ids unique and records well formed. */
  lemma AddPreserves(ts: seq<Task>, title: string, desc: string, due: Option<string>,
                     id: string, createdAt: string)
    requires UniqueIds(ts) && AllWellFormed(ts)
    requires forall k :: 0 <= k < |ts| ==> ts[k].id != id
    ensures UniqueIds(AddTask(ts, title, desc, due, id, createdAt))
    ensures AllWellFormed(AddTask(ts, title, desc, due, id, createdAt))
  {
    if !IsBlank(title) {
      var t := Task(id, Trim(title), Trim(desc), due, false, createdAt);
      TrimIdempotent(title);
      TrimIdempotent(desc);
      assert WellFormed(t);
      ConsPreserves(t, ts);
    }
  }

  /** Toggling keeps ids unique and records well formed. */
  lemma TogglePreserves(ts: seq<Task>, id: string)
    requires UniqueIds(ts) && AllWellFormed(ts)
    ensures UniqueIds(Toggled(ts, id)) && AllWellFormed(Toggled(ts, id))
  {
    ToggleSpec(ts, id);
    if FirstIndex(ts, id).Some? {
      var i := FirstIndex(ts, id).value;
      assert ts[i] in ts;
      ReplacePreserves(ts, i, Flip(ts[i]));
    }
  }

  /** An edited record keeps its id and stays well formed. */
  lemma EditRecordWellFormed(t: Task, newTitle: string, newDesc: Option<string>)
    requires WellFormed(t)
    ensures EditRecord(t, newTitle, newDesc).id == t.id
    ensures WellFormed(EditRecord(t, newTitle, newDesc))
  {
    TrimIdempotent(newTitle);
    if newDesc.Some? {
      TrimIdempotent(newDesc.value);
    }
  }

  /** Editing keeps ids unique and records well formed: a new title is either
      the old one or a non-blank trimmed text. */
  lemma EditPreserves(ts: seq<Task>, id: string, newTitle: Option<string>, newDesc: Option<string>)
    requires UniqueIds(ts) && AllWellFormed(ts)
    ensures UniqueIds(Edited(ts, id, newTitle, newDesc)) && AllWellFormed(Edited(ts, id, newTitle, newDesc))
  {
    if newTitle.Some? {
      var f := EditWith(newTitle.value, newDesc);
      UpdateFirstAt(ts, id, f);
      if FirstIndex(ts, id).Some? {
        var i := FirstIndex(ts, id).value;
        assert ts[i] in ts;
        EditRecordWellFormed(ts[i], newTitle.value, newDesc);
        ReplacePreserves(ts, i, f(ts[i]));
      }
    }
  }

  /** Deleting and clearing completed tasks keep ids unique and records well formed. */
  lemma FilterPreserves(ts: seq<Task>, id: string)
    requires UniqueIds(ts) && AllWellFormed(ts)
    ensures UniqueIds(Without(ts, id)) && AllWellFormed(Without(ts, id))
    ensures UniqueIds(Pending(ts)) && AllWellFormed(Pending(ts))
  {
    KeepUniqueIds(ts, HasOtherId(id));
    KeepUniqueIds(ts, IsPending);
    KeepMembers(ts, HasOtherId(id));
    KeepMembers(ts, IsPending);
  }
}
