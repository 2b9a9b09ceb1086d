/**
 * The `Task` record: a to-do item that moves between pending and completed,
 * records when it was completed, and lets only its title, description and
 * due date be edited.
 */
module Tasks {
  import opened Wrappers
  import opened Text

  /**
   * The JavaScript values a task's editable fields can hold: `update` copies
   * whatever value it is given, so these fields are not restricted to strings
   * and dates.
   */
  datatype Value = Null | Str(s: string) | Num(n: int) | Bool(b: bool) | DateAt(ms: int)

  /** JavaScript truthiness of a value. */
  predicate Truthy(v: Value) {
    match v
    case Null => false
    case Str(s) => s != ""
    case Num(n) => n != 0
    case Bool(b) => b
    case DateAt(_) => true
  }

  /** The keys `update` accepts; every other key is ignored. */
  const UpdatableKeys: set<string> := {"title", "description", "dueDate"}

  const NoDueDate: string := "No due date"
  const Completed: string := "Completed"
  const Pending: string := "Pending"

  class Task {
    var id: nat
    var title: Value
    var description: Value
    var dueDate: Value
    var isCompleted: bool
    var createdAt: nat
    var completedAt: Option<nat>

    /** A completion time is recorded exactly when the task is completed. */
    ghost predicate Valid()
      reads this
    {
      completedAt.Some? <==> isCompleted
    }

    /**
     * `new Task(title, description, dueDate)`: pending, with no completion
     * time. `now` is the clock reading (`Date.now()`), used for both `id`
     * and `createdAt`.
     */
    constructor (title: Value, description: Value, dueDate: Value, now: nat)
      ensures Valid()
      ensures this.title == title && this.description == description && this.dueDate == dueDate
      ensures id == now && createdAt == now
      ensures !isCompleted && completedAt == None
    {
      id := now;
      this.title := title;
      this.description := description;
      this.dueDate := dueDate;
      isCompleted := false;
      createdAt := now;
      completedAt := None;
    }

    /** `markAsCompleted`: completes a pending task at time `now`; on a completed task it changes nothing. */
    method MarkAsCompleted(now: nat)
      requires Valid()
      modifies this
      ensures Valid() && isCompleted
      ensures completedAt == if old(isCompleted) then old(completedAt) else Some(now)
      ensures id == old(id) && title == old(title) && description == old(description)
      ensures dueDate == old(dueDate) && createdAt == old(createdAt)
    {
      if !isCompleted {
        isCompleted := true;
        completedAt := Some(now);
      }
    }

    /**
     * `update(updates)`: for each key of `updates`, copies its value into the
     * field of that name when the key is `title`, `description` or `dueDate`.
     */
    method Update(updates: map<string, Value>)
      modifies this
      ensures title == if "title" in updates then updates["title"] else old(title)
      ensures description == if "description" in updates then updates["description"] else old(description)
      ensures dueDate == if "dueDate" in updates then updates["dueDate"] else old(dueDate)
      ensures id == old(id) && isCompleted == old(isCompleted)
      ensures createdAt == old(createdAt) && completedAt == old(completedAt)
    {
      var keys := updates.Keys;
      while keys != {}
        invariant keys <= updates.Keys
        invariant title == if "title" in updates && "title" !in keys then updates["title"] else old(title)
        invariant description == if "description" in updates && "description" !in keys then updates["description"] else old(description)
        invariant dueDate == if "dueDate" in updates && "dueDate" !in keys then updates["dueDate"] else old(dueDate)
        invariant id == old(id) && isCompleted == old(isCompleted)
        invariant createdAt == old(createdAt) && completedAt == old(completedAt)
        decreases keys
      {
        var key :| key in keys;
        if key in UpdatableKeys {
          if key == "title" {
            title := updates[key];
          } else if key == "description" {
            description := updates[key];
          } else {
            dueDate := updates[key];
          }
        }
        keys := keys - {key};
      }
    }

    /** `reset`: back to pending with no completion time; nothing else changes. */
    method Reset()
      modifies this
      ensures Valid() && !isCompleted && completedAt == None
      ensures id == old(id) && title == old(title) && description == old(description)
      ensures dueDate == old(dueDate) && createdAt == old(createdAt)
    {
      isCompleted := false;
      completedAt := None;
    }

    /** The status line of `toString`. */
    function StatusText(): (r: string)
      reads this
      ensures r == Completed <==> isCompleted
      ensures r == Pending <==> !isCompleted
    {
      if isCompleted then Completed else Pending
    }

    /**
     * The due line of `toString`; `localeDate` stands for the browser's
     * `toLocaleDateString` applied to a date given in milliseconds. `None`
     * is the `TypeError` raised when a truthy due date is not a `Date`.
     */
    function DueText(localeDate: int -> string): (r: Option<string>)
      reads this
      ensures !Truthy(dueDate) ==> r == Some(NoDueDate)
      ensures r.None? <==> Truthy(dueDate) && !dueDate.DateAt?
      ensures dueDate.DateAt? ==> r == Some(localeDate(dueDate.ms))
    {
      if dueDate.DateAt? then Some(localeDate(dueDate.ms))
      else if Truthy(dueDate) then None
      else Some(NoDueDate)
    }

    /**
     * `toString`: four lines naming title, description, due date and status.
     * `show` stands for JavaScript's string conversion of a field.
     */
    function ToText(show: Value -> string, localeDate: int -> string): (r: Option<string>)
      reads this
      ensures r.Some? <==> DueText(localeDate).Some?
      ensures r.Some? ==> (EndsWith(r.value, "\nStatus: " + Completed) <==> isCompleted)
      ensures r.Some? ==> (EndsWith(r.value, "\nStatus: " + Pending) <==> !isCompleted)
      ensures r.Some? ==> StartsWith(r.value, "Task: " + show(title) + "\nDescription: ")
      ensures r.Some? ==>
        r.value == "Task: " + show(title) + "\nDescription: " + show(description)
          + "\nDue: " + DueText(localeDate).value + "\nStatus: " + StatusText()
    {
      match DueText(localeDate)
      case None => None
      case Some(due) =>
        var head := "Task: " + show(title) + "\nDescription: ";
        RenderedLines(head, show(description), due, isCompleted);
        Some(head + show(description) + "\nDue: " + due + "\nStatus: " + StatusText())
    }

    /**
     * `getDaysRemaining` at clock reading `today` (milliseconds): `NoDays` is
     * `null`, `Failed` the `TypeError` of calling `getTime` on a truthy value
     * that is not a `Date`, and otherwise the difference rounded up to whole
     * days.
     */
    function DaysRemaining(today: int): (r: Days)
      reads this
      ensures r == NoDays <==> !Truthy(dueDate)
      ensures r == Failed <==> Truthy(dueDate) && !dueDate.DateAt?
      ensures r.Remaining? ==>
        dueDate.DateAt? && (r.days - 1) * MsPerDay < dueDate.ms - today <= r.days * MsPerDay
    {
      if dueDate.DateAt? then Remaining(CeilDiv(dueDate.ms - today, MsPerDay))
      else if Truthy(dueDate) then Failed
      else NoDays
    }
  }

  /** The result of `getDaysRemaining`. */
  datatype Days = NoDays | Failed | Remaining(days: int)

  const MsPerDay: int := 1000 * 3600 * 24

  /** `Math.ceil(d / m)` for a positive divisor. */
  function CeilDiv(d: int, m: int): (q: int)
    requires m > 0
    ensures (q - 1) * m < d <= q * m
  {
    -((-d) / m)
  }

  predicate EndsWith(s: string, suffix: string) {
    |suffix| <= |s| && s[|s| - |suffix|..] == suffix
  }

  /**
   * A rendered task starts with its head (the title and description labels)
   * and its status line names the state, and only that one.
   */
  lemma RenderedLines(head: string, description: string, due: string, completed: bool)
    ensures var text := head + description + "\nDue: " + due + "\nStatus: " + (if completed then Completed else Pending);
      StartsWith(text, head)
      && (EndsWith(text, "\nStatus: " + Completed) <==> completed)
      && (EndsWith(text, "\nStatus: " + Pending) <==> !completed)
  {
    var body := head + description + "\nDue: " + due;
    var text := body + "\nStatus: " + (if completed then Completed else Pending);
    assert text[..|head|] == body[..|head|] == head;
    StatusLine(body, completed);
  }

  /**
   * The status line names the state, and only that one: the two lines differ
   * in length, so the newline opening one falls where the other has a letter.
   */
  lemma StatusLine(body: string, completed: bool)
    ensures var text := body + "\nStatus: " + (if completed then Completed else Pending);
      (EndsWith(text, "\nStatus: " + Completed) <==> completed)
      && (EndsWith(text, "\nStatus: " + Pending) <==> !completed)
  {
    if completed {
      var tail := "\nStatus: " + Completed;
      var text := body + "\nStatus: " + Completed;
      assert text[|text| - |tail|..] == tail;
      assert text[|text| - |tail| + 2] == 't';
    } else {
      var tail := "\nStatus: " + Pending;
      var text := body + "\nStatus: " + Pending;
      assert text[|text| - |tail|..] == tail;
      assert text[|text| - |tail|] == '\n';
    }
  }

  /** Marking a task completed twice keeps the time of the first call. */
  method CompleteTwice(t: Task, first: nat, second: nat)
    requires t.Valid() && !t.isCompleted
    modifies t
    ensures t.Valid() && t.isCompleted && t.completedAt == Some(first)
  {
    t.MarkAsCompleted(first);
    t.MarkAsCompleted(second);
  }
}
