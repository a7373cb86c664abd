/** One to-do item: a title fixed when it is created and a completion flag flipped in place. */
module Tasks {

  class Task {
    var title: string
    var completed: bool

    /** A new task carries the given title and is not completed. */
    constructor (title: string)
      ensures this.title == title
      ensures !completed
    {
      this.title := title;
      completed := false;
    }

    function GetTitle(): (r: string)
      reads this
      ensures r == title
    {
      title
    }

    function IsCompleted(): (r: bool)
      reads this
      ensures r == completed
    {
      completed
    }

    /** Flips the flag and touches nothing else. */
    method ToggleCompletion()
      modifies this
      ensures completed == !old(completed)
      ensures title == old(title)
    {
      completed := !completed;
    }
  }

  /** Toggling a task twice brings it back to the state it started in. */
  method ToggleCompletionTwice(t: Task)
    modifies t
    ensures t.completed == old(t.completed)
    ensures t.title == old(t.title)
  {
    t.ToggleCompletion();
    t.ToggleCompletion();
  }
}
