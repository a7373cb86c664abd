/** The task store inside the to-do window: the ordered list of tasks, the three operations the
    buttons trigger, and the whole-list save and load through the file "tasks.dat". */
module App {
  import opened JavaStrings
  import opened ArrayLists
  import opened Tasks

  /** What the file keeps of one task. */
  datatype TaskRecord = TaskRecord(title: string, completed: bool)

  type Snapshot = seq<TaskRecord>

  /** The file as loading sees it. Damaged covers every content that reading rejects with an
      IOException or ClassNotFoundException: garbage bytes, a truncated write, an unknown class. */
  datatype FileState =
    | Missing
    | Damaged
    | Holds(records: Snapshot)

  /** How one save went: the stream could not be opened (the old file stays), or it failed after
      the file had been truncated (the file is left damaged), or the list was written. */
  datatype WriteResult = Written | OpenFailed | WriteFailed

  /** The file after a save of `snap` that ended with `w`. */
  function AfterWrite(before: FileState, w: WriteResult, snap: Snapshot): FileState {
    match w
    case Written => Holds(snap)
    case OpenFailed => before
    case WriteFailed => Damaged
  }

  /** The list a load yields for the file: its records, or the empty list when reading fails. */
  function LoadedRecords(f: FileState): Snapshot {
    if f.Holds? then f.records else []
  }

  /** The (title, completed) pairs of a list of tasks, in list order. */
  function Records(ts: seq<Task>): (r: Snapshot)
    reads ts
    ensures |r| == |ts|
    ensures forall i :: 0 <= i < |ts| ==> r[i] == TaskRecord(ts[i].title, ts[i].completed)
  {
    if ts == [] then [] else [TaskRecord(ts[0].title, ts[0].completed)] + Records(ts[1..])
  }

  /** Appending a task appends its pair. */
  lemma RecordsAppend(ts: seq<Task>, t: Task)
    ensures Records(ts + [t]) == Records(ts) + [TaskRecord(t.title, t.completed)]
  {
  }

  /** The file "tasks.dat", shared by every session of the application. */
  class TaskFile {
    var state: FileState

    constructor (state: FileState)
      ensures this.state == state
    {
      this.state := state;
    }
  }

  class ToDoApp {
    var tasks: seq<Task>
    const file: TaskFile

    /** The list never holds the same task object twice. */
    ghost predicate Valid()
      reads this
    {
      Distinct(tasks)
    }

    /** Starts with an empty list and replaces it by what the file holds. */
    constructor (file: TaskFile)
      ensures Valid()
      ensures this.file == file
      ensures forall t :: t in tasks ==> fresh(t)
      ensures Records(tasks) == LoadedRecords(file.state)
    {
      this.file := file;
      tasks := [];
      new;
      LoadTasks();
    }

    /** Reads the whole list back from the file. The tasks are new objects rebuilt from the
        saved pairs; an unreadable or missing file gives the empty list. */
    method LoadTasks()
      modifies this
      ensures Valid()
      ensures forall t :: t in tasks ==> fresh(t)
      ensures Records(tasks) == LoadedRecords(file.state)
    {
      match file.state {
        case Holds(snap) =>
          var loaded: seq<Task> := [];
          var i := 0;
          while i < |snap|
            invariant 0 <= i <= |snap| && |loaded| == i
            invariant Distinct(loaded)
            invariant forall t :: t in loaded ==> fresh(t)
            invariant forall k :: 0 <= k < i ==> TaskRecord(loaded[k].title, loaded[k].completed) == snap[k]
          {
            var t := new Task(snap[i].title);
            t.completed := snap[i].completed;
            AppendKeepsDistinct(loaded, t);
            loaded := loaded + [t];
            i := i + 1;
          }
          assert Records(loaded) == snap;
          tasks := loaded;
        case _ =>
          tasks := [];
      }
    }

    /** Overwrites the file with the whole current list; the list itself never changes,
        whatever the outcome of the write. */
    method SaveTasks(w: WriteResult)
      modifies file
      ensures file.state == AfterWrite(old(file.state), w, Records(tasks))
      ensures Records(tasks) == old(Records(tasks))
    {
      match w {
        case Written => file.state := Holds(Records(tasks));
        case OpenFailed =>
        case WriteFailed => file.state := Damaged;
      }
    }

    /** Appends a new, not completed task titled with the trimmed input, then saves; input that
        trims to nothing is ignored and nothing is saved. */
    method AddTask(input: string, w: WriteResult)
      requires Valid()
      modifies this, file
      ensures Valid()
      ensures Trim(input) == [] ==> tasks == old(tasks) && file.state == old(file.state)
      ensures Trim(input) != [] ==>
        && |tasks| == |old(tasks)| + 1
        && tasks[..|old(tasks)|] == old(tasks)
        && fresh(tasks[|old(tasks)|])
        && Records(tasks) == old(Records(tasks)) + [TaskRecord(Trim(input), false)]
        && file.state == AfterWrite(old(file.state), w, Records(tasks))
      ensures |tasks| > |old(tasks)| ==>
        var title := tasks[|tasks| - 1].title; title != [] && IsTrimmed(title)
    {
      var title := Trim(input);
      if title != [] {
        var t := new Task(title);
        assert t !in tasks;
        assert Records(tasks) == old(Records(tasks));
        AppendKeepsDistinct(tasks, t);
        RecordsAppend(tasks, t);
        tasks := tasks + [t];
        SaveTasks(w);
      }
    }

    /** Flips the flag of `t` and saves; the list of references and every other task stay as
        they were. */
    method MarkTaskAsDone(t: Task, w: WriteResult)
      requires Valid()
      modifies t, file
      ensures Valid()
      ensures tasks == old(tasks)
      ensures t.title == old(t.title) && t.completed == !old(t.completed)
      ensures |Records(tasks)| == |old(Records(tasks))|
      ensures forall i :: 0 <= i < |tasks| ==>
        Records(tasks)[i] ==
          if tasks[i] == t then TaskRecord(old(t.title), !old(t.completed)) else old(Records(tasks))[i]
      ensures file.state == AfterWrite(old(file.state), w, Records(tasks))
    {
      t.ToggleCompletion();
      SaveTasks(w);
    }

    /** Removes `t` itself (not a task that merely looks the same) if it is in the list, keeping
        the order of the rest, then saves in either case. */
    method DeleteTask(t: Task, w: WriteResult)
      requires Valid()
      modifies this, file
      ensures Valid()
      ensures tasks == RemoveFirst(old(tasks), t)
      ensures t !in tasks
      ensures |tasks| == if t in old(tasks) then |old(tasks)| - 1 else |old(tasks)|
      ensures forall u :: u in tasks <==> u in old(tasks) && u != t
      ensures file.state == AfterWrite(old(file.state), w, Records(tasks))
    {
      RemoveFirstKeepsDistinct(tasks, t);
      tasks := RemoveFirst(tasks, t);
      SaveTasks(w);
    }
  }

  /** Saving and then starting a new session on the same file gives back the same pairs in the
      same order. */
  method SaveThenReopen(app: ToDoApp) returns (again: ToDoApp)
    modifies app.file
    ensures again.file == app.file
    ensures Records(again.tasks) == old(Records(app.tasks))
  {
    app.SaveTasks(Written);
    again := new ToDoApp(app.file);
  }

  /** A first session: adding a task and marking it done. */
  method UsageScenario() returns (app: ToDoApp)
    ensures app.Valid() && |app.tasks| == 1
    ensures Records(app.tasks) == [TaskRecord("Buy milk", true)]
  {
    var file := new TaskFile(Missing);
    app := new ToDoApp(file);
    assert app.tasks == [];

    TrimUnique([], "Buy milk", []);
    assert [] + "Buy milk" + [] == "Buy milk";
    app.AddTask("Buy milk", Written);
    assert Records(app.tasks) == [TaskRecord("Buy milk", false)];

    var t0 := app.tasks[0];
    app.MarkTaskAsDone(t0, Written);
  }

  /** The same session continued: blank input is ignored, and deleting the only task twice
      empties the list once and then changes nothing. */
  method UsageScenarioContinued(app: ToDoApp)
    requires app.Valid() && |app.tasks| == 1
    modifies app, app.file
    ensures app.tasks == [] && app.file.state == Holds([])
  {
    var t0 := app.tasks[0];
    assert AllBlank("  ");
    app.AddTask("  ", Written);
    assert app.tasks == [t0];

    app.DeleteTask(t0, Written);
    assert app.tasks == [];
    app.DeleteTask(t0, Written);
  }
}
