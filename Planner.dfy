/**
 * The planner's task form: the recurrence choices, opening a task for
 * editing, resetting the form, and saving as an insert or an update.
 * Times are integers (the clock is the parameter `now`).
 */
module Planner {
  import opened Wrappers
  import opened Text

  /** The four choices of the recurrence picker. */
  datatype Recurrence = NoRepeat | Daily | Weekly | Monthly

  /** The stored value of each choice. */
  function RecurrenceValue(r: Recurrence): (v: string)
    ensures v in {"none", "daily", "weekly", "monthly"}
  {
    match r
    case NoRepeat => "none"
    case Daily => "daily"
    case Weekly => "weekly"
    case Monthly => "monthly"
  }

  /** Reading a stored value back: only the four picker values are recurrences. */
  function ParseRecurrence(v: string): (r: Option<Recurrence>)
    ensures r.Some? ==> RecurrenceValue(r.value) == v
  {
    if v == "none" then Some(NoRepeat)
    else if v == "daily" then Some(Daily)
    else if v == "weekly" then Some(Weekly)
    else if v == "monthly" then Some(Monthly)
    else None
  }

  /** Every choice is stored under a value that reads back as that choice. */
  lemma RecurrenceRoundTrip(r: Recurrence)
    ensures ParseRecurrence(RecurrenceValue(r)) == Some(r)
  {
  }

  /** Distinct choices are stored under distinct values. */
  lemma RecurrenceValueInjective(a: Recurrence, b: Recurrence)
    requires RecurrenceValue(a) == RecurrenceValue(b)
    ensures a == b
  {
    RecurrenceRoundTrip(a);
    RecurrenceRoundTrip(b);
  }

  /** A row of `planner_tasks`; `recurring` may be null. */
  datatype Task = Task(id: int, title: string, datetime: int, recurring: Option<Recurrence>)

  /** The columns written on save. */
  datatype TaskPayload = TaskPayload(title: string, datetime: int, recurring: Recurrence, userId: UserId)

  /** The write `handleSave` sends to the store. */
  datatype SaveRequest = Insert(payload: TaskPayload) | Update(id: int, payload: TaskPayload)

  /** `task.recurring || 'none'`: a null recurrence reads as no repeat. */
  function RecurrenceOrNone(r: Option<Recurrence>): (c: Recurrence)
    ensures r.Some? ==> c == r.value
    ensures r.None? ==> c == NoRepeat
  {
    if r.Some? then r.value else NoRepeat
  }

  /** `if (editTaskId)`: a task is being edited when the id is set and is not the falsy 0. */
  predicate Editing(editTaskId: Option<int>) {
    editTaskId.Some? && editTaskId.value != 0
  }

  /** The request `handleSave` builds from the form: an update of the edited task, otherwise an insert. */
  function SaveRequestFor(editTaskId: Option<int>, payload: TaskPayload): (r: SaveRequest)
    ensures r.payload == payload
    ensures r.Update? <==> Editing(editTaskId)
    ensures r.Update? ==> r.id == editTaskId.value && r.id != 0
  {
    if Editing(editTaskId) then Update(editTaskId.value, payload) else Insert(payload)
  }

  class PlannerScreen {
    var tasks: seq<Task>
    var modalVisible: bool
    var taskTitle: string
    var selectedDate: int
    var recurrence: Recurrence
    var editTaskId: Option<int>

    /** The form as `resetForm` leaves it at time `now`. */
    predicate FormIsReset(now: int)
      reads this
    {
      taskTitle == [] && selectedDate == now && recurrence == NoRepeat && editTaskId == None
    }

    constructor (now: int)
      ensures tasks == [] && !modalVisible && FormIsReset(now)
    {
      tasks := [];
      modalVisible := false;
      taskTitle := [];
      selectedDate := now;
      recurrence := NoRepeat;
      editTaskId := None;
    }

    /**
     * `fetchTasks`: the signed-in user's rows (ordered by the store) replace the
     * list; without a user, or on an error, the list is kept.
     */
    method FetchTasks(signedIn: bool, response: Result<seq<Task>>)
      modifies this
      ensures signedIn && response.Ok? ==> tasks == response.value
      ensures !signedIn || response.Err? ==> tasks == old(tasks)
      ensures modalVisible == old(modalVisible) && taskTitle == old(taskTitle)
      ensures selectedDate == old(selectedDate) && recurrence == old(recurrence) && editTaskId == old(editTaskId)
    {
      if signedIn && response.Ok? {
        tasks := response.value;
      }
    }

    /** The Add Task button. */
    method OpenModal()
      modifies this
      ensures modalVisible
      ensures tasks == old(tasks) && taskTitle == old(taskTitle) && selectedDate == old(selectedDate)
      ensures recurrence == old(recurrence) && editTaskId == old(editTaskId)
    {
      modalVisible := true;
    }

    /** The Cancel button: the modal closes and the form is kept. */
    method CloseModal()
      modifies this
      ensures !modalVisible
      ensures tasks == old(tasks) && taskTitle == old(taskTitle) && selectedDate == old(selectedDate)
      ensures recurrence == old(recurrence) && editTaskId == old(editTaskId)
    {
      modalVisible := false;
    }

    /** The form fields as the user edits them. */
    method EditForm(title: string, date: int, choice: Recurrence)
      modifies this
      ensures taskTitle == title && selectedDate == date && recurrence == choice
      ensures tasks == old(tasks) && modalVisible == old(modalVisible) && editTaskId == old(editTaskId)
    {
      taskTitle := title;
      selectedDate := date;
      recurrence := choice;
    }

    /** `openEditModal`: the task's fields fill the form, its id marks the edit, and the modal opens. */
    method OpenEditModal(task: Task)
      modifies this
      ensures taskTitle == task.title && selectedDate == task.datetime
      ensures recurrence == RecurrenceOrNone(task.recurring)
      ensures editTaskId == Some(task.id) && modalVisible
      ensures task.id != 0 ==> Editing(editTaskId)
      ensures tasks == old(tasks)
    {
      taskTitle := task.title;
      selectedDate := task.datetime;
      recurrence := RecurrenceOrNone(task.recurring);
      editTaskId := Some(task.id);
      modalVisible := true;
    }

    /** `resetForm`: empty title, the current time, no repeat, no task being edited. */
    method ResetForm(now: int)
      modifies this
      ensures FormIsReset(now) && !Editing(editTaskId)
      ensures tasks == old(tasks) && modalVisible == old(modalVisible)
    {
      taskTitle := [];
      selectedDate := now;
      recurrence := NoRepeat;
      editTaskId := None;
    }

    /**
     * `handleSave`. A blank title, or no signed-in user (an alert), sends nothing
     * and changes nothing. Otherwise the form's payload goes out as an update of
     * the edited task or as an insert. When the store accepts it the list is
     * refreshed, the modal closes and the form is reset; on an error the form is kept.
     */
    method HandleSave(user: Option<UserId>, outcome: Outcome, now: int)
      returns (request: Option<SaveRequest>, refresh: bool)
      modifies this
      ensures IsBlank(old(taskTitle)) || user.None? ==>
        request == None && !refresh && taskTitle == old(taskTitle) && selectedDate == old(selectedDate)
        && recurrence == old(recurrence) && editTaskId == old(editTaskId) && modalVisible == old(modalVisible)
      ensures !IsBlank(old(taskTitle)) && user.Some? ==>
        request == Some(SaveRequestFor(old(editTaskId),
          TaskPayload(old(taskTitle), old(selectedDate), old(recurrence), user.value)))
      ensures request.Some? && outcome.Success? ==> refresh && !modalVisible && FormIsReset(now)
      ensures request.Some? && outcome.Failure? ==>
        !refresh && taskTitle == old(taskTitle) && selectedDate == old(selectedDate)
        && recurrence == old(recurrence) && editTaskId == old(editTaskId) && modalVisible == old(modalVisible)
      ensures tasks == old(tasks)
    {
      refresh := false;
      if IsBlank(taskTitle) {
        return None, false;
      }
      if user.None? {
        return None, false;
      }
      var payload := TaskPayload(taskTitle, selectedDate, recurrence, user.value);
      request := Some(SaveRequestFor(editTaskId, payload));
      if outcome.Success? {
        refresh := true;
        modalVisible := false;
        ResetForm(now);
      }
    }
  }
}
