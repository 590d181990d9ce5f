/**
 * The pure part of the browser-side `TaskManager` (frontend/js/app.js): the
 * filtered and sorted task list, the statistics, the search, and the
 * validation of the creation form. The class that holds the state is in
 * module ClientStore.
 */
module ClientViews {
  import opened Results
  import opened Text
  import opened Seqs
  import opened Calendar

  /** A task as the client holds it: the JSON record the server returned. */
  datatype Task = Task(id: int, title: string, description: string, priority: string,
                       dueDate: Date, completed: bool)

  const Priorities: seq<string> := ["baja", "media", "alta"]

  // ---------------------------------------------------------------------
  // getFilteredTasks

  /** The `switch` on the filter selector: a priority name keeps tasks of
      that priority, `completed` keeps completed tasks, anything else
      (including `all`) keeps everything. */
  predicate MatchesFilter(t: Task, filter: string) {
    if filter == "alta" || filter == "media" || filter == "baja" then t.priority == filter
    else if filter == "completed" then t.completed
    else true
  }

  function Selected(tasks: seq<Task>, filter: string): seq<Task> {
    Filter(tasks, t => MatchesFilter(t, filter))
  }

  /** The comparator handed to `sort`: `a.completed - b.completed`, or on a
      tie the difference of the due dates' time values (whole days here). */
  function CompareTasks(a: Task, b: Task): int {
    var c := (if a.completed then 1 else 0) - (if b.completed then 1 else 0);
    if c != 0 then c else DayNumber(a.dueDate) - DayNumber(b.dueDate)
  }

  predicate InOrder(a: Task, b: Task) {
    CompareTasks(a, b) <= 0
  }

  predicate SortedView(s: seq<Task>) {
    forall i, j :: 0 <= i < j < |s| ==> InOrder(s[i], s[j])
  }

  /** What the comparator looks at; two tasks compare equal exactly when
      their keys are equal. */
  datatype SortKey = SortKey(completed: bool, day: int)

  function KeyOf(t: Task): SortKey {
    SortKey(t.completed, DayNumber(t.dueDate))
  }

  /** The tasks of `s` whose key is `k`, in their order in `s`. */
  function WithKey(s: seq<Task>, k: SortKey): seq<Task> {
    Filter(s, t => KeyOf(t) == k)
  }

  /** Puts `t` in front of the first element it is not greater than, so it
      stays ahead of every element that compares equal to it. */
  function Insert(t: Task, s: seq<Task>): (r: seq<Task>)
    ensures multiset(r) == multiset(s) + multiset{t}
    ensures forall x :: x in r <==> x == t || x in s
  {
    if s == [] || InOrder(t, s[0]) then
      [t] + s
    else
      var rest := Insert(t, s[1..]);
      assert s == [s[0]] + s[1..];
      [s[0]] + rest
  }

  /** The comparator orders tasks totally: by completion, then by day. */
  lemma CompareIsTotalOrder(a: Task, b: Task, c: Task)
    ensures InOrder(a, b) || InOrder(b, a)
    ensures InOrder(a, b) && InOrder(b, c) ==> InOrder(a, c)
  {
  }

  /** The comparator puts incomplete tasks first and then earlier days
      first, and calls two tasks equal exactly when their keys agree. */
  lemma CompareByKeys(a: Task, b: Task)
    ensures CompareTasks(a, b) < 0 <==>
              (!a.completed && b.completed) ||
              (a.completed == b.completed && DayNumber(a.dueDate) < DayNumber(b.dueDate))
    ensures CompareTasks(a, b) == 0 <==> KeyOf(a) == KeyOf(b)
  {
  }

  lemma {:induction false} InsertSorted(t: Task, s: seq<Task>)
    requires SortedView(s)
    ensures SortedView(Insert(t, s))
  {
    var r := Insert(t, s);
    if s == [] || InOrder(t, s[0]) {
      forall i, j | 0 <= i < j < |r| ensures InOrder(r[i], r[j]) {
        if i == 0 && j > 1 {
          CompareIsTotalOrder(t, s[0], s[j - 1]);
        }
      }
    } else {
      InsertSorted(t, s[1..]);
      var rest := Insert(t, s[1..]);
      assert r == [s[0]] + rest;
      forall i, j | 0 <= i < j < |r| ensures InOrder(r[i], r[j]) {
        if i == 0 {
          assert r[j] in rest;
          CompareIsTotalOrder(t, s[0], t);
          if r[j] != t {
            var k :| 0 <= k < |s[1..]| && s[1..][k] == r[j];
            assert s[k + 1] == r[j];
          }
        } else {
          assert r[i] == rest[i - 1] && r[j] == rest[j - 1];
        }
      }
    }
  }

  lemma {:induction false} InsertWithKey(t: Task, s: seq<Task>, k: SortKey)
    ensures WithKey(Insert(t, s), k) == if KeyOf(t) == k then [t] + WithKey(s, k) else WithKey(s, k)
  {
    if s == [] || InOrder(t, s[0]) {
      assert ([t] + s)[1..] == s;
    } else {
      InsertWithKey(t, s[1..], k);
      var r := Insert(t, s);
      assert r[0] == s[0] && r[1..] == Insert(t, s[1..]);
    }
  }

  /** A stable sort by `CompareTasks` (`Array.prototype.sort` has been
      stable since ES2019): the result is ordered, is a permutation of the
      input, and tasks that compare equal keep their relative order. */
  function SortTasks(s: seq<Task>): (r: seq<Task>)
    ensures multiset(r) == multiset(s)
    ensures SortedView(r)
    ensures forall k :: WithKey(r, k) == WithKey(s, k)
  {
    if s == [] then []
    else
      var rest := SortTasks(s[1..]);
      InsertKeepsKeyOrder(s[0], rest);
      InsertSorted(s[0], rest);
      SplitHead(s);
      Insert(s[0], rest)
  }

  lemma InsertKeepsKeyOrder(t: Task, s: seq<Task>)
    ensures forall k :: WithKey(Insert(t, s), k) == if KeyOf(t) == k then [t] + WithKey(s, k) else WithKey(s, k)
  {
    forall k ensures WithKey(Insert(t, s), k) == if KeyOf(t) == k then [t] + WithKey(s, k) else WithKey(s, k) {
      InsertWithKey(t, s, k);
    }
  }

  /** Filtering a non-empty sequence looks at its head, then at the rest. */
  lemma SplitHead(s: seq<Task>)
    requires s != []
    ensures forall k :: WithKey(s, k) == (if KeyOf(s[0]) == k then [s[0]] else []) + WithKey(s[1..], k)
    ensures multiset(s) == multiset{s[0]} + multiset(s[1..])
  {
    assert s == [s[0]] + s[1..];
  }

  /** `getFilteredTasks`: the tasks the filter selects, incomplete ones first
      and by ascending due date within each group; ties keep their order in
      `tasks`. */
  function FilteredView(tasks: seq<Task>, filter: string): (r: seq<Task>)
    ensures forall t :: multiset(r)[t] == if MatchesFilter(t, filter) then multiset(tasks)[t] else 0
    ensures forall i, j :: 0 <= i < j < |r| ==> !r[i].completed || r[j].completed
    ensures forall i, j :: 0 <= i < j < |r| && r[i].completed == r[j].completed ==>
              DayNumber(r[i].dueDate) <= DayNumber(r[j].dueDate)
    ensures forall k :: WithKey(r, k) == WithKey(Selected(tasks, filter), k)
  {
    var r := SortTasks(Selected(tasks, filter));
    assert forall i, j :: 0 <= i < j < |r| ==> InOrder(r[i], r[j]);
    r
  }

  /** A task is in the view exactly when it is in the list and the filter
      keeps it. */
  lemma ViewMembership(tasks: seq<Task>, filter: string, t: Task)
    ensures t in FilteredView(tasks, filter) <==> t in tasks && MatchesFilter(t, filter)
  {
    var r := FilteredView(tasks, filter);
    assert t in r <==> multiset(r)[t] > 0;
    assert t in tasks <==> multiset(tasks)[t] > 0;
  }

  /** What each selector of the filter bar shows. */
  lemma FilterSelectors(tasks: seq<Task>, filter: string, t: Task)
    ensures filter in Priorities ==>
              (t in FilteredView(tasks, filter) <==> t in tasks && t.priority == filter)
    ensures filter == "completed" ==>
              (t in FilteredView(tasks, filter) <==> t in tasks && t.completed)
    ensures filter !in Priorities && filter != "completed" ==>
              multiset(FilteredView(tasks, filter)) == multiset(tasks)
  {
    ViewMembership(tasks, filter, t);
    var named := filter == "alta" || filter == "media" || filter == "baja";
    assert filter in Priorities <==> named;
    if !named && filter != "completed" {
      ViewOfAll(tasks, filter);
    }
  }

  /** A selector that is neither a priority nor `completed` shows every task. */
  lemma ViewOfAll(tasks: seq<Task>, filter: string)
    requires filter != "alta" && filter != "media" && filter != "baja" && filter != "completed"
    ensures multiset(FilteredView(tasks, filter)) == multiset(tasks)
  {
    var r := FilteredView(tasks, filter);
    assert forall x :: multiset(r)[x] == multiset(tasks)[x];
  }

  /** On valid due dates, "ascending due date" is the calendar order. */
  lemma ViewDatesAscend(tasks: seq<Task>, filter: string, i: int, j: int)
    requires 0 <= i < j < |FilteredView(tasks, filter)|
    requires IsValid(FilteredView(tasks, filter)[i].dueDate)
    requires IsValid(FilteredView(tasks, filter)[j].dueDate)
    requires FilteredView(tasks, filter)[i].completed == FilteredView(tasks, filter)[j].completed
    ensures !Before(FilteredView(tasks, filter)[j].dueDate, FilteredView(tasks, filter)[i].dueDate)
  {
    var r := FilteredView(tasks, filter);
    DayNumberOrder(r[j].dueDate, r[i].dueDate);
  }

  // ---------------------------------------------------------------------
  // updateStats

  datatype Stats = Stats(total: nat, completed: nat, pending: nat)

  predicate IsCompleted(t: Task) {
    t.completed
  }

  predicate IsPending(t: Task) {
    !t.completed
  }

  /** The three counters of the statistics panel: the number of tasks, of
      completed tasks and of pending tasks. They always add up. */
  function StatsOf(tasks: seq<Task>): (s: Stats)
    ensures s.total == |tasks|
    ensures s.completed == |set i | 0 <= i < |tasks| && tasks[i].completed|
    ensures s.pending == |set i | 0 <= i < |tasks| && !tasks[i].completed|
    ensures s.completed + s.pending == s.total
    ensures s.completed == |tasks| <==> forall t :: t in tasks ==> t.completed
  {
    FilterComplement(tasks, IsCompleted, IsPending);
    AllCompleted(tasks);
    CountsAreIndices(tasks);
    Stats(|tasks|, |Filter(tasks, IsCompleted)|, |Filter(tasks, IsPending)|)
  }

  /** The two filtered lengths count the indices of completed and of
      pending tasks. */
  lemma CountsAreIndices(tasks: seq<Task>)
    ensures |Filter(tasks, IsCompleted)| == |set i | 0 <= i < |tasks| && tasks[i].completed|
    ensures |Filter(tasks, IsPending)| == |set i | 0 <= i < |tasks| && !tasks[i].completed|
  {
    FilterCountsPositions(tasks, IsCompleted);
    FilterCountsPositions(tasks, IsPending);
    assert Positions(tasks, IsCompleted) == set i | 0 <= i < |tasks| && tasks[i].completed;
    assert Positions(tasks, IsPending) == set i | 0 <= i < |tasks| && !tasks[i].completed;
  }

  /** Every task is completed exactly when the completed count is the total. */
  lemma AllCompleted(tasks: seq<Task>)
    ensures |Filter(tasks, IsCompleted)| == |tasks| <==> forall t :: t in tasks ==> t.completed
  {
    FilterComplement(tasks, IsCompleted, IsPending);
    if forall t :: t in tasks ==> t.completed {
      FilterKeepsAll(tasks, IsCompleted);
    }
    if |Filter(tasks, IsCompleted)| == |tasks| {
      assert |Filter(tasks, IsPending)| == 0;
      forall t | t in tasks ensures t.completed {
      }
    }
  }

  // ---------------------------------------------------------------------
  // searchTasks

  /** `Number(s)` for the strings the search splits out: surrounding
      whitespace is ignored, the empty string is 0, an optionally signed
      run of decimal digits is its value, anything else is NaN (`None`). */
  function JsNumber(s: string): Option<int> {
    var t := Trim(s);
    if t == [] then Some(0)
    else if AllDigits(t) then Some(NumeralValue(t))
    else if (t[0] == '-' || t[0] == '+') && |t| > 1 && AllDigits(t[1..]) then
      var v: int := NumeralValue(t[1..]);
      Some(if t[0] == '-' then -v else v)
    else None
  }

  /** A part holding only whitespace (or nothing) is the number 0, so
      `"//2099"` has day and month 0. */
  lemma JsNumberOfBlank(s: string)
    requires AllSpace(s)
    ensures JsNumber(s) == Some(0)
  {
    TrimBlank(s);
  }

  /** A minus sign before a decimal numeral negates its value. */
  lemma JsNumberOfNegative(s: string)
    requires |s| >= 1 && AllDigits(s)
    ensures JsNumber(['-'] + s) == Some(-(NumeralValue(s) as int))
  {
    var t := ['-'] + s;
    NegativeShape(s, t);
    TrimUntouched(t);
    MinusNumeral(t);
  }

  /** A minus sign and a numeral: neither end is whitespace, and the tail
      is the numeral. */
  lemma NegativeShape(s: string, t: string)
    requires |s| >= 1 && AllDigits(s) && t == ['-'] + s
    ensures |t| > 1 && t[0] == '-' && t[1..] == s && AllDigits(t[1..])
    ensures !IsSpace(t[0]) && !IsSpace(t[|t| - 1])
  {
    assert t[1..] == s;
    assert t[|t| - 1] == s[|s| - 1] && IsDigit(s[|s| - 1]);
  }


  lemma MinusNumeral(t: string)
    requires |t| > 1 && t[0] == '-' && AllDigits(t[1..]) && Trim(t) == t
    ensures JsNumber(t) == Some(-(NumeralValue(t[1..]) as int))
  {
    assert !IsDigit(t[0]);
  }



  /** `new Date(y, ...)` reads a year from 0 to 99 as 1900 to 1999. */
  function FullYear(y: int): int {
    if 0 <= y <= 99 then 1900 + y else y
  }

  /** JavaScript time values are limited to 10^8 days either side of
      1970-01-01; beyond that a `Date` is invalid and matches nothing. */
  const MaxJsDays: int := 100000000

  /** The day of `new Date(y, m - 1, d)`: months and days out of range roll
      over, as `DayNumber` does; `None` for an invalid date. */
  function JsLocalDay(y: int, m: int, d: int): Option<int> {
    var n := DayNumber(Date(FullYear(y), m, d));
    if -MaxJsDays <= n - UnixEpochDay <= MaxJsDays then Some(n) else None
  }

  /** The numbers `[y, m, d]` the search takes from its date field:
      `D/M/YYYY` if it contains `/`, otherwise `YYYY-MM-DD`; `None` when a
      part is missing or is not a number. */
  function QueryFields(q: string): Option<(int, int, int)> {
    var dmy := '/' in q;
    var parts := Split(q, if dmy then '/' else '-');
    if |parts| < 3 then None
    else
      var a, b, c := JsNumber(parts[0]), JsNumber(parts[1]), JsNumber(parts[2]);
      if a.None? || b.None? || c.None? then None
      else if dmy then Some((c.value, b.value, a.value))
      else Some((a.value, b.value, c.value))
  }

  /** The day the date field denotes, or `None` when the `Date` built from
      it is invalid. */
  function ClientDateQuery(q: string): Option<int> {
    match QueryFields(q)
    case None => None
    case Some((y, m, d)) => JsLocalDay(y, m, d)
  }

  /** A date query with fewer than three parts builds an invalid `Date`,
      which matches no task. */
  lemma MissingPartMatchesNothing(tasks: seq<Task>, q: string)
    requires q != [] && |Split(q, if '/' in q then '/' else '-')| < 3
    ensures ClientDateQuery(q) == None
    ensures Search(tasks, "", q) == []
  {
    var r := Search(tasks, "", q);
    if r != [] {
      assert r[0] in r;
    }
  }

  /** The text test: the lower-cased query occurs in the lower-cased title
      or the lower-cased description. */
  predicate TextHit(t: Task, query: string) {
    IsSubstring(Lower(query), Lower(t.title)) || IsSubstring(Lower(query), Lower(t.description))
  }

  /** The date test. Comparing year, month and day of two `Date`s is
      comparing the days they fall on, so a task matches when its due date
      is the queried day; an invalid query date matches nothing. */
  predicate DateHit(t: Task, day: Option<int>) {
    day.Some? && DayNumber(t.dueDate) == day.value
  }

  predicate SearchMatches(t: Task, titleQuery: string, dateQuery: string) {
    (titleQuery == [] || TextHit(t, titleQuery)) &&
    (dateQuery == [] || DateHit(t, ClientDateQuery(dateQuery)))
  }

  /** `searchTasks`: the tasks (of the whole list, not the filtered view)
      that pass both tests, in list order; an empty field tests nothing. */
  function Search(tasks: seq<Task>, titleQuery: string, dateQuery: string): (r: seq<Task>)
    ensures IsSubsequence(r, tasks)
    ensures forall t :: t in r <==>
              t in tasks &&
              (titleQuery == [] || TextHit(t, titleQuery)) &&
              (dateQuery == [] || DateHit(t, ClientDateQuery(dateQuery)))
    ensures forall t :: multiset(r)[t] == if SearchMatches(t, titleQuery, dateQuery) then multiset(tasks)[t] else 0
    ensures titleQuery == [] && dateQuery == [] ==> r == tasks
  {
    var p := t => SearchMatches(t, titleQuery, dateQuery);
    if titleQuery == [] && dateQuery == [] then
      FilterKeepsAll(tasks, p);
      Filter(tasks, p)
    else
      Filter(tasks, p)
  }

  // ---------------------------------------------------------------------
  // addTask: validation of the form

  datatype DraftError = TitleTooShort | DescriptionTooShort | InvalidPriority
                      | MissingDueDate | DueDateNotFuture

  /** The body of the POST request; `completed` is always sent as false. */
  datatype NewTaskBody = NewTaskBody(title: string, description: string, priority: string,
                                     dueDate: Date, completed: bool)

  /** The checks of `addTask`, in order, on the trimmed title and
      description, whose lengths are counted in UTF-16 code units as
      `length` does; the due date must fall after `today`. An empty date
      input is `None`. */
  function ValidateDraft(title: string, description: string, priority: string,
                         dueDate: Option<Date>, today: Date): (r: Result<NewTaskBody, DraftError>)
    ensures r.Ok? <==>
              JsLength(Trim(title)) >= 3 && JsLength(Trim(description)) >= 5 && priority in Priorities &&
              dueDate.Some? && DayNumber(today) < DayNumber(dueDate.value)
    ensures r.Ok? ==> r.value == NewTaskBody(Trim(title), Trim(description), priority, dueDate.value, false)
    ensures JsLength(Trim(title)) < 3 ==> r == Err(TitleTooShort)
    ensures dueDate.Some? && IsValid(dueDate.value) && IsValid(today) ==>
              (r.Ok? ==> Before(today, dueDate.value)) &&
              (!Before(today, dueDate.value) ==> r.Err?)
  {
    var t, d := Trim(title), Trim(description);
    ValidDayOrder(today, if dueDate.Some? then dueDate.value else today);
    if JsLength(t) < 3 then Err(TitleTooShort)
    else if JsLength(d) < 5 then Err(DescriptionTooShort)
    else if priority !in Priorities then Err(InvalidPriority)
    else if dueDate.None? then Err(MissingDueDate)
    else if DayNumber(dueDate.value) <= DayNumber(today) then Err(DueDateNotFuture)
    else Ok(NewTaskBody(t, d, priority, dueDate.value, false))
  }

  /** Each check rejects exactly the drafts that pass the checks before it
      and fail it. */
  lemma DraftChecksInOrder(title: string, description: string, priority: string,
                           dueDate: Option<Date>, today: Date)
    ensures var r := ValidateDraft(title, description, priority, dueDate, today);
      && (r == Err(TitleTooShort) <==> JsLength(Trim(title)) < 3)
      && (r == Err(DescriptionTooShort) <==> JsLength(Trim(title)) >= 3 && JsLength(Trim(description)) < 5)
      && (r == Err(InvalidPriority) <==>
            JsLength(Trim(title)) >= 3 && JsLength(Trim(description)) >= 5 && priority !in Priorities)
      && (r == Err(MissingDueDate) <==>
            JsLength(Trim(title)) >= 3 && JsLength(Trim(description)) >= 5 && priority in Priorities && dueDate.None?)
      && (r == Err(DueDateNotFuture) <==>
            JsLength(Trim(title)) >= 3 && JsLength(Trim(description)) >= 5 && priority in Priorities &&
            dueDate.Some? && DayNumber(dueDate.value) <= DayNumber(today))
  {
  }

  // ---------------------------------------------------------------------
  // deleteTask and toggleTask on the list

  /** `tasks.filter(t => t.id !== id)`. */
  function WithoutId(tasks: seq<Task>, id: int): (r: seq<Task>)
    ensures IsSubsequence(r, tasks)
    ensures forall t :: t in r <==> t in tasks && t.id != id
    ensures forall t :: t in tasks && t.id != id ==> multiset(r)[t] == multiset(tasks)[t]
  {
    Filter(tasks, (t: Task) => t.id != id)
  }

  /** `tasks.find(t => t.id === id)`, as an index: the first task with `id`. */
  function FindId(tasks: seq<Task>, id: int): (r: Option<nat>)
    ensures r.Some? ==> r.value < |tasks| && tasks[r.value].id == id &&
                        forall j :: 0 <= j < r.value ==> tasks[j].id != id
    ensures r.None? ==> forall j :: 0 <= j < |tasks| ==> tasks[j].id != id
  {
    if tasks == [] then None
    else if tasks[0].id == id then Some(0)
    else match FindId(tasks[1..], id)
      case None => None
      case Some(i) => Some(i + 1)
  }

  function Flip(t: Task): Task {
    t.(completed := !t.completed)
  }

  /** The list after `toggleTask(id)`: the first task with `id` has its
      `completed` negated; a missing id changes nothing. */
  function ToggleFirst(tasks: seq<Task>, id: int): seq<Task> {
    match FindId(tasks, id)
    case None => tasks
    case Some(i) => tasks[i := Flip(tasks[i])]
  }

  /** Toggling changes only the `completed` field of the one task found. */
  lemma ToggleFirstTouchesOne(tasks: seq<Task>, id: int)
    ensures |ToggleFirst(tasks, id)| == |tasks|
    ensures forall j :: 0 <= j < |tasks| ==>
              var before, after := tasks[j], ToggleFirst(tasks, id)[j];
              after.(completed := before.completed) == before
    ensures forall j :: 0 <= j < |tasks| ==>
              (ToggleFirst(tasks, id)[j] != tasks[j] <==> FirstWithId(tasks, id, j))
    ensures |Filter(ToggleFirst(tasks, id), IsCompleted)| != |Filter(tasks, IsCompleted)| <==>
              exists j :: 0 <= j < |tasks| && tasks[j].id == id
  {
    ToggleFirstChangesFirst(tasks, id);
    match FindId(tasks, id)
    case None =>
    case Some(i) =>
      FlipChangesCount(tasks, i);
  }

  /** Position `j` holds the first task with `id`. */
  predicate FirstWithId(tasks: seq<Task>, id: int, j: int)
    requires 0 <= j < |tasks|
  {
    tasks[j].id == id && forall k :: 0 <= k < j ==> tasks[k].id != id
  }

  /** The one position `toggleTask` changes is that of the first task with
      the id. */
  lemma ToggleFirstChangesFirst(tasks: seq<Task>, id: int)
    ensures |ToggleFirst(tasks, id)| == |tasks|
    ensures forall j :: 0 <= j < |tasks| ==>
              (ToggleFirst(tasks, id)[j] != tasks[j] <==> FirstWithId(tasks, id, j))
  {
    match FindId(tasks, id)
    case None =>
    case Some(i) =>
      assert forall j :: 0 <= j < |tasks| ==> (FirstWithId(tasks, id, j) <==> j == i);
  }

  /** Negating one task's `completed` moves the completed count by one. */
  lemma {:induction false} FlipChangesCount(tasks: seq<Task>, i: nat)
    requires i < |tasks|
    ensures var n, m := |Filter(tasks, IsCompleted)|, |Filter(tasks[i := Flip(tasks[i])], IsCompleted)|;
      m == if tasks[i].completed then n - 1 else n + 1
  {
    var u := tasks[i := Flip(tasks[i])];
    if i == 0 {
      assert u[1..] == tasks[1..];
    } else {
      FlipChangesCount(tasks[1..], i - 1);
      assert u[1..] == tasks[1..][i - 1 := Flip(tasks[i])];
    }
  }

  /** Toggling twice restores the list. */
  lemma ToggleTwice(tasks: seq<Task>, id: int)
    ensures ToggleFirst(ToggleFirst(tasks, id), id) == tasks
  {
    match FindId(tasks, id)
    case None =>
    case Some(i) =>
      var once := ToggleFirst(tasks, id);
      assert FindId(once, id) == Some(i) by {
        FindIdIgnoresCompleted(tasks, i, id);
      }
      assert once[i := Flip(once[i])] == tasks;
  }

  /** Flipping a task's `completed` does not change where `find` lands. */
  lemma {:induction false} FindIdIgnoresCompleted(tasks: seq<Task>, i: nat, id: int)
    requires i < |tasks|
    ensures FindId(tasks[i := Flip(tasks[i])], id) == FindId(tasks, id)
  {
    var u := tasks[i := Flip(tasks[i])];
    if i > 0 && tasks[0].id != id {
      FindIdIgnoresCompleted(tasks[1..], i - 1, id);
      assert u[1..] == tasks[1..][i - 1 := Flip(tasks[i])];
    }
  }
}
