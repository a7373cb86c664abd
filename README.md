# To-do list task store

A model of the memory side of a desktop to-do list. It covers:

- a `Task` holds a title and a completion flag;
- the application keeps an ordered list of tasks;
- three buttons add, mark as done and delete;
- the whole list is written to the file `tasks.dat` after every change and read back when the
  program starts.

The window, panels and buttons are left out. Each button handler is modelled as a method of the
class that owns the list.

Modules, one per source concept:

- `Tasks` (`tasks.dfy`): the `Task` class. `ToggleCompletion` flips `completed` in place. It also
  holds a client method showing that two toggles restore the original state.
- `JavaStrings` (`java_strings.dfy`): `String.trim`, which cleans the input. Blank means a char
  with code at most U+0020. `SkipLeading` and `SkipTrailing` follow trim's two index scans, and
  `Trim` takes the slice between them. `TrimUnique` shows `Trim` agrees with a reference
  definition: every blank prefix + trimmed middle + blank suffix split yields that middle.
- `ArrayLists` (`array_lists.dfy`): `ArrayList.indexOf` and `ArrayList.remove(Object)` over
  sequences. `Task` does not override `equals`, so they compare references.
- `App` (`todo_app.dfy`): the class `ToDoApp` with its `tasks: seq<Task>` field, and the file
  `tasks.dat` as a `TaskFile` object with an abstract `FileState`:
  - `Missing`: there is no file;
  - `Damaged`: reading fails with `IOException` or `ClassNotFoundException`;
  - `Holds(records)`: the file holds a list of `(title, completed)` pairs.

  How a save ends is a parameter (`WriteResult`):
  - `Written`: the file now holds the current pairs;
  - `OpenFailed`: the old file stays;
  - `WriteFailed`: the file was truncated, so it is now `Damaged`.

  Loading builds one new `Task` object per saved pair. A file that is not `Holds` gives the empty
  list.

The object invariant `ToDoApp.Valid()` says the list never holds the same object twice. Adding
keeps it because each new task is a freshly allocated object. Deleting keeps it because removal
only drops an element. Marking does not change the list of references.

Points where the code's behaviour is easy to misread, and which the model follows:

- `addTask` returns nothing, so `AddTask` has no result.
- `markTaskAsDone` toggles whatever task it is handed and then saves, so `MarkTaskAsDone` has no
  precondition that the task is in the list.
- `deleteTask` rewrites the file even when the task is absent and the list is unchanged;
  `DeleteTask` does the same.
- `loadTasks` catches only `IOException | ClassNotFoundException` (ToDoApp.java:150). A
  `ClassCastException` or `NullPointerException` raised while loading escapes the constructor
  (see "## Left out").

The functions `AfterWrite` and `LoadedRecords` carry no contract of their own. They are the
definitions behind the `SaveTasks` and `LoadTasks` rows below: `AfterWrite` gives the three write
outcomes of ToDoApp.java:156-159, and `LoadedRecords` gives the empty-list fallback of
ToDoApp.java:150-151. The methods `UsageScenario` and `UsageScenarioContinued` are usage
examples that replay one session through the contracts; they model no source function and have
no row.

## Model

| member | source | states |
|---|---|---|
| `Tasks.Task.constructor` | Task.java:7-10 | a new task has exactly the given title and is not completed |
| `Tasks.Task.GetTitle` | Task.java:12-14 | returns the title; as a function it changes no state |
| `Tasks.Task.IsCompleted` | Task.java:16-18 | returns the completion flag; changes no state |
| `Tasks.Task.ToggleCompletion` | Task.java:20-22 | the flag becomes the negation of its old value; the title is unchanged; only this task is modified |
| `Tasks.ToggleCompletionTwice` | Task.java:20-22 | toggling twice restores the original flag and title |
| `JavaStrings.SkipLeading` | ToDoApp.java:78 | returns the first non-blank position at or after the start, or the length; every char skipped is blank |
| `JavaStrings.SkipTrailing` | ToDoApp.java:78 | returns the end left after dropping trailing blanks, never below the start; every char dropped is blank; the char before the end is non-blank when something is left |
| `JavaStrings.Trim` | ToDoApp.java:78 | the result has no blank first or last char; it is empty exactly when the input is all blank; it is the slice of the input between a blank prefix and a blank suffix, and is no longer than the input |
| `JavaStrings.TrimUnique` | ToDoApp.java:78 | for every split of a string into blank prefix, trimmed middle and blank suffix, trim returns that middle |
| `JavaStrings.TrimIdempotent` | ToDoApp.java:78-80 | trimming a trimmed title changes nothing |
| `ArrayLists.IndexOf` | ToDoApp.java:136 | -1 exactly when the element is absent; otherwise the element sits at that position and at no earlier one |
| `ArrayLists.RemoveFirst` | ToDoApp.java:136 | no change when the element is absent; otherwise the length drops by one, the part before the first occurrence and the part after it are kept in order, and every other element stays in the list |
| `ArrayLists.RemoveFirstKeepsDistinct` | ToDoApp.java:136 | removing from a repeat-free list leaves it repeat-free and without the removed element |
| `ArrayLists.RemoveFirstTwice` | ToDoApp.java:136 | on a repeat-free list a second removal of the same element is a no-op |
| `ArrayLists.AppendKeepsDistinct` | ToDoApp.java:80-81 | appending an element that is not yet present keeps the list repeat-free |
| `App.Records` | ToDoApp.java:157 | the saved pairs have the list's length and, position by position, each task's title and flag |
| `App.RecordsAppend` | ToDoApp.java:81 | appending a task to the list appends its pair to the saved pairs |
| `App.ToDoApp.constructor` | ToDoApp.java:14-64 | the application starts with repeat-free new task objects whose pairs are what the file yields on loading |
| `App.ToDoApp.LoadTasks` | ToDoApp.java:144-153 | a file holding pairs yields new tasks with those pairs in order; a missing or damaged file yields the empty list; the list is repeat-free |
| `App.ToDoApp.SaveTasks` | ToDoApp.java:155-161 | the file holds the current pairs after a successful write, keeps its old content when opening fails and is damaged when writing fails; the tasks are untouched in every case |
| `App.ToDoApp.AddTask` | ToDoApp.java:77-86 | when the input trims to nothing, the list and the file are unchanged; otherwise a new, fresh task whose title is the trimmed input and which is not completed is appended, earlier tasks stay in order and state, and the file is saved; a stored title is non-empty and trimmed; the list stays repeat-free |
| `App.ToDoApp.MarkTaskAsDone` | ToDoApp.java:129-133 | the list of references is unchanged; the given task's flag is negated and its title kept; every other task's pair is unchanged; the file is saved |
| `App.ToDoApp.DeleteTask` | ToDoApp.java:135-141 | exactly the given reference is removed (first occurrence, order of the rest kept); the length drops by one when it was present and is unchanged otherwise; the list stays repeat-free; the file is saved in both cases |
| `App.SaveThenReopen` | ToDoApp.java:144-161 | a successful save followed by a new session on the same file gives back the same pairs in the same order |

## Left out

- The Swing user interface is not modelled. This covers frame layout, `createButton`,
  `addTaskToUI`, panel colours, hover listeners and `revalidate`/`repaint`. It is presentation
  only, and the model's `UsageScenario` methods act as the buttons would.
- Clearing the input field after an add is not modelled: it is widget state.
- Java object serialisation is not modelled. The byte format of `tasks.dat` is a foreign library's
  concern. The file is an abstract `FileState`, a save writes the list of `(title, completed)` pairs,
  and a load reads them back or fails.
- The outcome of each save is not decided by the model; it is given by the caller as a
  `WriteResult` parameter, because it depends on the file system.
- Loading failures that the handler at ToDoApp.java:150 does not catch are not modelled; the
  model has no file state for them. In the code each escapes the constructor, so the program does
  not start:
  - a serialised object of a class other than `ArrayList` fails the cast at ToDoApp.java:146 with
    a `ClassCastException`;
  - an `ArrayList` of something other than `Task` throws a `ClassCastException` in the loop at
    ToDoApp.java:147;
  - a serialised `null` passes the cast at ToDoApp.java:146 and throws a `NullPointerException`
    in the loop at ToDoApp.java:147;
  - a list holding a `null` element throws a `NullPointerException` in `addTaskToUI` at
    ToDoApp.java:94.
- Object identity across sessions is not modelled: a snapshot does not record references.
  Serialisation would keep one object listed twice as one object, but the list never holds an
  object twice, so new objects per pair give the same list.
- Reporting a failed save with `printStackTrace` is left out: it is output only.
- `main` and `SwingUtilities.invokeLater` are left out: they are thread plumbing.
- Strings are sequences of Unicode scalar values, not UTF-16 code units. Trim only looks at chars
  up to U+0020, which are the same in both encodings. The identity of the string object that
  `trim` returns is not modelled.
