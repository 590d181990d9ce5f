/**
 * The browser and the server check and search the same tasks by different
 * rules. This module relates the two models: where they agree (a date the
 * server prints or accepts is read as the same day by the browser) and
 * where they part (a due date of today, a two-digit year, a match in the
 * description only).
 */
module ClientServer {
  import opened Results
  import opened Text
  import opened Calendar
  import opened ClientViews
  import opened ServerRules

  /** The object the browser receives for a stored row (`TaskOut`). */
  function ToTask(r: Record): Task {
    Task(r.id, r.title, r.description, r.priority, r.dueDate, r.completed)
  }

  function ToTasks(rows: seq<Record>): (ts: seq<Task>)
    ensures |ts| == |rows|
    ensures forall i :: 0 <= i < |rows| ==> ts[i] == ToTask(rows[i])
  {
    seq(|rows|, i requires 0 <= i < |rows| => ToTask(rows[i]))
  }

  /** Every row reaches the browser, and nothing else does. */
  lemma ToTasksMembership(rows: seq<Record>, x: Record)
    ensures ToTask(x) in ToTasks(rows) <==> x in rows
  {
    if ToTask(x) in ToTasks(rows) {
      var i :| 0 <= i < |rows| && ToTasks(rows)[i] == ToTask(x);
      assert rows[i] == x;
    }
    if x in rows {
      var i :| 0 <= i < |rows| && rows[i] == x;
      assert ToTasks(rows)[i] == ToTask(x);
    }
  }

  // ---------------------------------------------------------------------
  // The due date of a new task

  /** On a valid date, the browser's check (strictly after today) implies
      the server's (not before today), and the two differ on exactly one
      day: today itself. */
  lemma DueDateChecks(due: Date, today: Date)
    requires IsValid(due) && IsValid(today)
    ensures DayNumber(today) < DayNumber(due) ==> !Before(due, today)
    ensures (!Before(due, today) && DayNumber(due) <= DayNumber(today)) <==> due == today
  {
    DayNumberOrder(due, today);
  }

  /** A draft due today that passes every other check: the form refuses
      it, while the same request sent to the server is stored. */
  lemma DueTodayDiverges(title: string, description: string, priority: string, today: Date)
    requires IsValid(today)
    requires JsLength(Trim(title)) >= 3 && JsLength(Trim(description)) >= 5 && priority in Priorities
    requires WellFormedFields(Trim(title), Trim(description), priority)
    ensures ValidateDraft(title, description, priority, Some(today), today) == Err(DueDateNotFuture)
    ensures ValidateCreate(TaskCreate(title, Some(description), priority, today), today).Ok?
  {
    DraftChecksInOrder(title, description, priority, Some(today), today);
  }

  /** Every draft the form sends carries a date the server accepts. */
  lemma DraftDateAccepted(title: string, description: string, priority: string,
                          due: Date, today: Date)
    requires IsValid(due) && IsValid(today)
    requires ValidateDraft(title, description, priority, Some(due), today).Ok?
    ensures !Before(due, today)
  {
    DueDateChecks(due, today);
  }

  // ---------------------------------------------------------------------
  // The search date

  /** `Number` of a plain decimal numeral is its value. */
  lemma JsNumberOfNumeral(s: string)
    requires |s| >= 1 && AllDigits(s)
    ensures JsNumber(s) == Some(NumeralValue(s))
  {
    assert IsDigit(s[0]) && IsDigit(s[|s| - 1]);
    TrimUntouched(s);
    assert Trim(s) == s;
  }

  /** A date with a four-digit year is a valid JavaScript `Date`. */
  lemma FourDigitYearInRange(d: Date)
    requires IsValid(d) && 1 <= d.year <= 9999
    ensures -MaxJsDays <= DayNumber(d) - UnixEpochDay <= MaxJsDays
  {
    WithinYear(d);
    YearsAscend(1, d.year);
    YearsAscend(d.year + 1, 10000);
  }

  /** A date the browser reads with `new Date(y, m - 1, d)` as written. */
  lemma LocalDayOf(d: Date)
    requires IsValid(d) && 100 <= d.year <= 9999
    ensures JsLocalDay(d.year, d.month, d.day) == Some(DayNumber(d))
  {
    FourDigitYearInRange(d);
  }

  /** The parts of `a + [sep] + b + [sep] + c + tail`, none of `a`, `b`, `c`
      holding the separator. */
  lemma ThreeParts(a: string, b: string, c: string, sep: char, tail: string)
    requires sep !in a && sep !in b
    ensures Split(a + [sep] + b + [sep] + c + tail, sep) == [a, b] + Split(c + tail, sep)
  {
    assert a + [sep] + b + [sep] + c + tail == a + [sep] + (b + [sep] + (c + tail));
    SplitAt(a, sep, b + [sep] + (c + tail));
    SplitAt(b, sep, c + tail);
  }

  /** When the first three parts the search splits `q` into are numerals,
      it reads their values, in the order the separator calls for. */
  lemma ReadParts(q: string, a: string, b: string, c: string)
    requires |a| >= 1 && |b| >= 1 && |c| >= 1 && AllDigits(a) && AllDigits(b) && AllDigits(c)
    requires var p := Split(q, if '/' in q then '/' else '-'); |p| >= 3 && p[0] == a && p[1] == b && p[2] == c
    ensures QueryFields(q) == if '/' in q then Some((NumeralValue(c), NumeralValue(b), NumeralValue(a)))
                              else Some((NumeralValue(a), NumeralValue(b), NumeralValue(c)))
  {
    JsNumberOfNumeral(a);
    JsNumberOfNumeral(b);
    JsNumberOfNumeral(c);
  }

  /** The numbers the search takes from `a-b-c`, three numerals. */
  lemma IsoFields(a: string, b: string, c: string)
    requires |a| >= 1 && |b| >= 1 && |c| >= 1 && AllDigits(a) && AllDigits(b) && AllDigits(c)
    ensures QueryFields(a + ['-'] + b + ['-'] + c) == Some((NumeralValue(a), NumeralValue(b), NumeralValue(c)))
  {
    var q := a + ['-'] + b + ['-'] + c;
    DigitsHaveNoSeparators(a);
    DigitsHaveNoSeparators(b);
    DigitsHaveNoSeparators(c);
    ThreeParts(a, b, c, '-', []);
    assert q + [] == q && c + [] == c;
    assert '/' !in q;
    ReadParts(q, a, b, c);
  }

  /** The parts `a/b/c` splits into, followed by nothing or by more
      `/`-separated parts, when `a`, `b` and `c` have no `/`. */
  lemma DmySplit(a: string, b: string, c: string, tail: string)
    requires '/' !in a && '/' !in b && '/' !in c
    requires tail == [] || tail[0] == '/'
    ensures var q := a + ['/'] + b + ['/'] + c + tail;
      '/' in q && var p := Split(q, '/'); |p| >= 3 && p[0] == a && p[1] == b && p[2] == c
  {
    var q := a + ['/'] + b + ['/'] + c + tail;
    ThreeParts(a, b, c, '/', tail);
    assert Split(c + tail, '/')[0] == c by {
      if tail == [] {
        assert c + tail == c;
      } else {
        SplitAt(c, '/', tail[1..]);
        assert c + tail == c + ['/'] + tail[1..];
      }
    }
    assert q[|a|] == '/';
  }

  /** The numbers the search takes from `a/b/c` followed by nothing or by
      more `/`-separated parts, `a`, `b` and `c` three numerals. */
  lemma DmyFields(a: string, b: string, c: string, tail: string)
    requires |a| >= 1 && |b| >= 1 && |c| >= 1 && AllDigits(a) && AllDigits(b) && AllDigits(c)
    requires tail == [] || tail[0] == '/'
    ensures QueryFields(a + ['/'] + b + ['/'] + c + tail) == Some((NumeralValue(c), NumeralValue(b), NumeralValue(a)))
  {
    DigitsHaveNoSeparators(a);
    DigitsHaveNoSeparators(b);
    DigitsHaveNoSeparators(c);
    DmySplit(a, b, c, tail);
    ReadParts(a + ['/'] + b + ['/'] + c + tail, a, b, c);
  }

  /** The three numbers the browser takes from `YYYY-MM-DD`. */
  lemma ClientIsoReads(d: Date)
    requires IsValid(d) && 0 <= d.year <= 9999
    ensures QueryFields(FormatIso(d)) == Some((d.year, d.month, d.day))
  {
    IsoFields(Numeral(d.year, 4), Numeral(d.month, 2), Numeral(d.day, 2));
  }

  /** The browser reads `YYYY-MM-DD`, the form the server sends, as that
      day (years from 100 on; earlier ones are taken as 19xx). */
  lemma ClientIsoRoundTrip(d: Date)
    requires IsValid(d) && 100 <= d.year <= 9999
    ensures ClientDateQuery(FormatIso(d)) == Some(DayNumber(d))
  {
    ClientIsoReads(d);
    LocalDayOf(d);
  }

  /** The three numbers the browser takes from `D/M/YYYY`. */
  lemma ClientDmyReads(d: Date)
    requires IsValid(d) && 0 <= d.year <= 9999
    ensures QueryFields(FormatDmy(d)) == Some((d.year, d.month, d.day))
  {
    DmyFields(Show(d.day), Show(d.month), Numeral(d.year, 4), []);
    assert FormatDmy(d) == Show(d.day) + ['/'] + Show(d.month) + ['/'] + Numeral(d.year, 4) + [];
  }

  /** The same for `D/M/YYYY`. */
  lemma ClientDmyRoundTrip(d: Date)
    requires IsValid(d) && 100 <= d.year <= 9999
    ensures ClientDateQuery(FormatDmy(d)) == Some(DayNumber(d))
  {
    ClientDmyReads(d);
    LocalDayOf(d);
  }

  /** A date written in a form both sides accept selects the same rows on
      both sides, as long as the stored due dates are real dates. */
  lemma DateSearchAgrees(rows: seq<Record>, d: Date, q: string, x: Record)
    requires IsValid(d) && 100 <= d.year <= 9999
    requires q == FormatIso(d) || q == FormatDmy(d)
    requires IsValid(x.dueDate)
    ensures SearchRecords(rows, None, Some(q)).Ok?
    ensures ToTask(x) in Search(ToTasks(rows), "", q) <==> x in SearchRecords(rows, None, Some(q)).value
  {
    if q == FormatIso(d) {
      ClientIsoRoundTrip(d);
      ParseIsoRoundTrip(d);
    } else {
      ClientDmyRoundTrip(d);
      ParseDmyRoundTrip(d);
    }
    ToTasksMembership(rows, x);
    DayNumberOrder(x.dueDate, d);
  }

  /** `new Date(y, ...)` with a year from 0 to 99 lands in the 1900s. */
  lemma LocalDayOfShortYear(d: Date)
    requires IsValid(d) && 1900 <= d.year <= 1999
    ensures JsLocalDay(d.year - 1900, d.month, d.day) == Some(DayNumber(d))
  {
    FourDigitYearInRange(d);
  }

  /** A date query the server cannot parse is answered with 400, whatever
      the table holds and whatever the title query. */
  lemma UnparsedIsRejected(rows: seq<Record>, title: Option<string>, q: string)
    requires q != [] && ParseDueDate(q) == None
    ensures SearchRecords(rows, title, Some(q)) == Err(InvalidDateFormat)
  {
  }

  /** `D/M/YY`, the date with a two-digit year. */
  function ShortYearDmy(d: Date): string
    requires 1 <= d.month <= 12 && 1 <= d.day <= 31 && 1900 <= d.year <= 1999
  {
    Show(d.day) + "/" + Show(d.month) + "/" + Show(d.year - 1900)
  }

  lemma ShortYearReads(d: Date)
    requires IsValid(d) && 1900 <= d.year <= 1999
    ensures QueryFields(ShortYearDmy(d)) == Some((d.year - 1900, d.month, d.day))
  {
    DmyFields(Show(d.day), Show(d.month), Show(d.year - 1900), []);
    assert ShortYearDmy(d) == Show(d.day) + ['/'] + Show(d.month) + ['/'] + Show(d.year - 1900) + [];
  }

  lemma ShortYearUnparsed(d: Date)
    requires IsValid(d) && 1900 <= d.year <= 1999
    ensures ParseDueDate(ShortYearDmy(d)) == None
  {
    var dd, m, y := Show(d.day), Show(d.month), Show(d.year - 1900);
    DigitsHaveNoSeparators(dd);
    DigitsHaveNoSeparators(m);
    DigitsHaveNoSeparators(y);
    assert ShortYearDmy(d) == dd + ['/'] + m + ['/'] + y;
    DmyParts(dd, m, y);
    assert YearField(y) == None;
  }

  /** A date query the browser reads as the day of `d` finds every task due
      on `d`. */
  lemma QueryFindsDay(tasks: seq<Task>, q: string, d: Date)
    requires q != [] && ClientDateQuery(q) == Some(DayNumber(d))
    ensures forall t :: t in tasks && t.dueDate == d ==> t in Search(tasks, "", q)
  {
    forall t | t in tasks && t.dueDate == d ensures t in Search(tasks, "", q) {
      assert DateHit(t, ClientDateQuery(q));
    }
  }

  /** The browser reads `D/M/YY` as the day of that date in 19YY. */
  lemma ShortYearDay(d: Date)
    requires IsValid(d) && 1900 <= d.year <= 1999
    ensures ShortYearDmy(d) != [] && ClientDateQuery(ShortYearDmy(d)) == Some(DayNumber(d))
  {
    ShortYearReads(d);
    LocalDayOfShortYear(d);
  }

  /** A two-digit year: the browser searches for that year of the 1900s
      and finds every task due that day, the server answers 400. */
  lemma TwoDigitYearDiverges(d: Date, tasks: seq<Task>, rows: seq<Record>)
    requires IsValid(d) && 1900 <= d.year <= 1999
    ensures ClientDateQuery(ShortYearDmy(d)) == Some(DayNumber(d))
    ensures forall t :: t in tasks && t.dueDate == d ==> t in Search(tasks, "", ShortYearDmy(d))
    ensures SearchRecords(rows, None, Some(ShortYearDmy(d))) == Err(InvalidDateFormat)
  {
    ShortYearDay(d);
    ShortYearUnparsed(d);
    UnparsedIsRejected(rows, None, ShortYearDmy(d));
    QueryFindsDay(tasks, ShortYearDmy(d), d);
  }

  /** A string whose only dash is its last character splits into the
      rest and an empty part. */
  lemma LastDash(head: string)
    requires '-' !in head
    ensures '-' in head + ['-'] && Split(head + ['-'], '-') == [head, ""]
  {
    SplitAt(head, '-', []);
    assert head + ['-'] + [] == head + ['-'];
    assert (head + ['-'])[|head|] == '-';
  }

  lemma TrailingDashParts(d: Date)
    requires IsValid(d) && 100 <= d.year <= 9999
    ensures var q := FormatDmy(d) + "/-";
      '-' in q && Split(q, '-') == [FormatDmy(d) + "/", ""]
  {
    var dd, m, y := Show(d.day), Show(d.month), Numeral(d.year, 4);
    DigitsHaveNoSeparators(dd);
    DigitsHaveNoSeparators(m);
    DigitsHaveNoSeparators(y);
    var f := FormatDmy(d);
    assert f == dd + ['/'] + m + ['/'] + y;
    DmyParts(dd, m, y);
    var head := f + ['/'];
    NoDashInJoin(f, []);
    assert head == f + ['/'] + [];
    LastDash(head);
    assert f + "/-" == head + ['-'];
  }

  lemma TrailingReads(d: Date)
    requires IsValid(d) && 100 <= d.year <= 9999
    ensures QueryFields(FormatDmy(d) + "/-") == Some((d.year, d.month, d.day))
  {
    DmyFields(Show(d.day), Show(d.month), Numeral(d.year, 4), "/-");
    assert FormatDmy(d) + "/-" == Show(d.day) + ['/'] + Show(d.month) + ['/'] + Numeral(d.year, 4) + "/-";
  }

  /** The browser reads `D/M/YYYY/-` as the day of that date. */
  lemma TrailingDay(d: Date)
    requires IsValid(d) && 100 <= d.year <= 9999
    ensures ClientDateQuery(FormatDmy(d) + "/-") == Some(DayNumber(d))
  {
    TrailingReads(d);
    LocalDayOf(d);
  }

  /** Extra separators: the browser reads the first three parts of
      `D/M/YYYY/-` and finds every task due that day, the server finds a
      `-`, splits on it and answers 400. */
  lemma TrailingPartsDiverge(d: Date, tasks: seq<Task>, rows: seq<Record>)
    requires IsValid(d) && 100 <= d.year <= 9999
    ensures ClientDateQuery(FormatDmy(d) + "/-") == Some(DayNumber(d))
    ensures forall t :: t in tasks && t.dueDate == d ==> t in Search(tasks, "", FormatDmy(d) + "/-")
    ensures SearchRecords(rows, None, Some(FormatDmy(d) + "/-")) == Err(InvalidDateFormat)
  {
    TrailingDay(d);
    TrailingDashParts(d);
    UnparsedIsRejected(rows, None, FormatDmy(d) + "/-");
    QueryFindsDay(tasks, FormatDmy(d) + "/-", d);
  }

  // ---------------------------------------------------------------------
  // The search text

  /** Every row the server's title search returns is also found by the
      browser's text search, for a query without surrounding whitespace. */
  lemma TitleSearchIncluded(rows: seq<Record>, q: string, x: Record)
    requires q != [] && Trim(q) == q
    requires x in SearchRecords(rows, Some(q), None).value
    ensures ToTask(x) in Search(ToTasks(rows), q, "")
  {
    ToTasksMembership(rows, x);
  }

  /** A task whose description contains the query and whose title does
      not: the browser lists it, the server does not. */
  lemma DescriptionOnlyDiverges(rows: seq<Record>, q: string, x: Record)
    requires q != [] && Trim(q) == q && x in rows
    requires IsSubstring(Lower(q), Lower(x.description)) && !IsSubstring(Lower(q), Lower(x.title))
    ensures ToTask(x) in Search(ToTasks(rows), q, "")
    ensures x !in SearchRecords(rows, Some(q), None).value
  {
    ToTasksMembership(rows, x);
  }
}
