/**
 * The state of the browser-side `TaskManager` (frontend/js/app.js) and the
 * operations that change it. Page updates, toasts and dialogs are not
 * modelled; the answer of `confirm` and the outcome of each `fetch` are
 * inputs. Only a transport failure (the promise rejects, or the body is not
 * JSON) is a failure: `fetch` resolves on every HTTP status.
 */
module ClientStore {
  import opened Results
  import opened Calendar
  import opened Seqs
  import opened ClientViews

  /** What a `fetch` (and the `res.json()` after it) came to. */
  datatype Transport<T> = TransportFailed | Completed(body: T)

  datatype AddOutcome = Invalid(error: DraftError) | CreateFailed | Created(task: Task)

  datatype DeleteOutcome = Cancelled | DeleteFailed | Deleted

  datatype ToggleOutcome = NotListed | Toggled | ToggleFailed

  class TaskManager {
    var tasks: seq<Task>
    var currentFilter: string

    /** A new manager shows every task of an empty list; the first
        `LoadTasks` is the caller's. */
    constructor ()
      ensures tasks == [] && currentFilter == "all"
    {
      tasks := [];
      currentFilter := "all";
    }

    /** `loadTasks`: the fetched list replaces the local one wholesale; on a
        failure the list is kept. */
    method LoadTasks(response: Transport<seq<Task>>) returns (loaded: bool)
      modifies this`tasks
      ensures loaded <==> response.Completed?
      ensures tasks == if loaded then response.body else old(tasks)
    {
      loaded := response.Completed?;
      if loaded {
        tasks := response.body;
      }
    }

    /** `addTask`: a draft that fails validation sends nothing and changes
        nothing; otherwise the POST body is `request`, and a completed
        request appends the returned record at the end of the list. */
    method AddTask(title: string, description: string, priority: string,
                   dueDate: Option<Date>, today: Date, response: Transport<Task>)
      returns (request: Option<NewTaskBody>, outcome: AddOutcome)
      modifies this`tasks
      ensures var v := ValidateDraft(title, description, priority, dueDate, today);
        && (v.Err? ==> request == None && outcome == Invalid(v.error) && tasks == old(tasks))
        && (v.Ok? ==> request == Some(v.value) && request.value.completed == false)
        && (v.Ok? && response.TransportFailed? ==> outcome == CreateFailed && tasks == old(tasks))
        && (v.Ok? && response.Completed? ==>
              outcome == Created(response.body) && tasks == old(tasks) + [response.body])
    {
      var v := ValidateDraft(title, description, priority, dueDate, today);
      if v.Err? {
        return None, Invalid(v.error);
      }
      request := Some(v.value);
      match response
      case TransportFailed =>
        outcome := CreateFailed;
      case Completed(record) =>
        tasks := tasks + [record];
        outcome := Created(record);
    }

    /** `deleteTask`: nothing happens unless the user confirms; once the
        DELETE request completes, every task with `id` is removed and the
        others keep their order; a transport failure keeps the list. */
    method DeleteTask(id: int, confirmed: bool, response: Transport<()>)
      returns (requested: bool, outcome: DeleteOutcome)
      modifies this`tasks
      ensures requested <==> confirmed
      ensures !confirmed ==> outcome == Cancelled && tasks == old(tasks)
      ensures confirmed && response.TransportFailed? ==> outcome == DeleteFailed && tasks == old(tasks)
      ensures confirmed && response.Completed? ==> outcome == Deleted && tasks == WithoutId(old(tasks), id)
    {
      if !confirmed {
        return false, Cancelled;
      }
      requested := true;
      if response.TransportFailed? {
        outcome := DeleteFailed;
      } else {
        tasks := WithoutId(tasks, id);
        outcome := Deleted;
      }
    }

    /** `toggleTask`: an id not in the list changes nothing and sends
        nothing; otherwise the first task with `id` has `completed` negated
        before the PATCH is sent, and a failed request does not undo it. */
    method ToggleTask(id: int, response: Transport<()>) returns (requested: bool, outcome: ToggleOutcome)
      modifies this`tasks
      ensures requested <==> exists j :: 0 <= j < |old(tasks)| && old(tasks)[j].id == id
      ensures tasks == ToggleFirst(old(tasks), id)
      ensures !requested ==> outcome == NotListed && tasks == old(tasks)
      ensures requested ==> outcome == if response.TransportFailed? then ToggleFailed else Toggled
    {
      match FindId(tasks, id)
      case None =>
        return false, NotListed;
      case Some(i) =>
        tasks := tasks[i := Flip(tasks[i])];
        requested := true;
        outcome := if response.TransportFailed? then ToggleFailed else Toggled;
    }

    /** `setFilter`: only the selector changes. */
    method SetFilter(filter: string)
      modifies this`currentFilter
      ensures currentFilter == filter
    {
      currentFilter := filter;
    }

    /** `getFilteredTasks` on the current state; it reads a copy, so the
        list itself is never reordered. */
    function FilteredTasks(): (r: seq<Task>)
      reads this
      ensures forall t :: multiset(r)[t] == if MatchesFilter(t, currentFilter) then multiset(tasks)[t] else 0
      ensures forall i, j :: 0 <= i < j < |r| ==> !r[i].completed || r[j].completed
    {
      FilteredView(tasks, currentFilter)
    }

    /** The counters `updateStats` writes into the page. */
    function CurrentStats(): (s: Stats)
      reads this
      ensures s.total == |tasks| && s.completed + s.pending == s.total
      ensures s.completed == |set i | 0 <= i < |tasks| && tasks[i].completed|
    {
      StatsOf(tasks)
    }

    /** `searchTasks` over the whole list. */
    function SearchTasks(titleQuery: string, dateQuery: string): (r: seq<Task>)
      reads this
      ensures IsSubsequence(r, tasks)
      ensures forall t :: multiset(r)[t] == if SearchMatches(t, titleQuery, dateQuery) then multiset(tasks)[t] else 0
    {
      Search(tasks, titleQuery, dateQuery)
    }
  }

  /** A session: load, toggle the same task twice, and the list, the
      filtered view and the statistics are back where they were, even when
      both PATCH requests fail. */
  method ToggleTwiceSession(m: TaskManager, loaded: seq<Task>, id: int,
                            first: Transport<()>, second: Transport<()>)
    modifies m
    ensures m.tasks == loaded
    ensures m.FilteredTasks() == FilteredView(loaded, old(m.currentFilter))
    ensures m.CurrentStats() == StatsOf(loaded)
  {
    var ok := m.LoadTasks(Completed(loaded));
    var r1, o1 := m.ToggleTask(id, first);
    var r2, o2 := m.ToggleTask(id, second);
    ToggleTwice(loaded, id);
  }
}
