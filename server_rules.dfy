/**
 * The pure part of the server's task routes (backend/app/routers/tasks.py):
 * the validation of a new task, the strict parsing of the search date and
 * the search filter. The table the handlers change is in module ServerTable.
 *
 * `bleach.clean` is taken as the identity; `re.match` with the two regular
 * expressions is written out as a length bound and a character set.
 */
module ServerRules {
  import opened Results
  import opened Text
  import opened Seqs
  import opened Calendar

  const ValidPriorities: seq<string> := ["baja", "media", "alta"]

  const MinTitleLength: nat := 3
  const MaxTitleLength: nat := 100
  const MaxDescriptionLength: nat := 255

  /** The accented vowels and the eñe the expressions list explicitly. */
  predicate IsSpanishLetter(c: char) {
    c in "áéíóúÁÉÍÓÚñÑ"
  }

  /** `[a-zA-Z0-9áéíóúÁÉÍÓÚñÑ\s.,-]` */
  predicate IsTitleChar(c: char) {
    ('a' <= c <= 'z') || ('A' <= c <= 'Z') || IsDigit(c) || IsSpanishLetter(c) || IsSpace(c) ||
    c == '.' || c == ',' || c == '-'
  }

  /** `[a-zA-Z0-9áéíóúÁÉÍÓÚñÑ\s.,!?()\-]` */
  predicate IsDescriptionChar(c: char) {
    IsTitleChar(c) || c == '!' || c == '?' || c == '(' || c == ')'
  }

  /** `TITLE_REGEX`: 3 to 100 title characters. */
  predicate MatchesTitleRegex(s: string) {
    MinTitleLength <= |s| <= MaxTitleLength && forall i :: 0 <= i < |s| ==> IsTitleChar(s[i])
  }

  /** `DESC_REGEX`: at most 255 description characters. */
  predicate MatchesDescriptionRegex(s: string) {
    |s| <= MaxDescriptionLength && forall i :: 0 <= i < |s| ==> IsDescriptionChar(s[i])
  }

  /** One of the four characters only a description may hold. */
  predicate HasDescriptionMark(s: string) {
    '!' in s || '?' in s || '(' in s || ')' in s
  }

  /** The description's character class is the title's plus `!?()`: every
      valid title is a valid description, and a valid description of at
      least 3 characters without those four is a valid title exactly when
      it is at most 100 long. */
  lemma DescriptionExtendsTitle(s: string)
    ensures MatchesTitleRegex(s) ==> MatchesDescriptionRegex(s)
    ensures MatchesDescriptionRegex(s) && MinTitleLength <= |s| && !HasDescriptionMark(s) ==>
              MatchesTitleRegex(s) == (|s| <= MaxTitleLength)
    ensures !MatchesTitleRegex("¿Qué?") && !MatchesDescriptionRegex("¿Qué?")
    ensures !MatchesTitleRegex("Hola!") && MatchesDescriptionRegex("Hola!")
  {
    if MatchesDescriptionRegex(s) && !HasDescriptionMark(s) {
      forall i | 0 <= i < |s| ensures IsTitleChar(s[i]) {
        assert s[i] in s;
      }
    }
    var q, h := "¿Qué?", "Hola!";
    assert q[0] == '¿' && !IsDescriptionChar(q[0]);
    assert h[4] == '!' && !IsTitleChar(h[4]);
    assert forall i :: 0 <= i < 4 ==> IsTitleChar(h[i]);
  }

  /** The `HTTPException`s the handlers raise. */
  datatype Rejection = InvalidTitle | InvalidDescription | InvalidPriority | PastDueDate
                     | NotFound | InvalidDateFormat

  function Status(e: Rejection): int {
    if e == NotFound then 404 else 400
  }

  function Detail(e: Rejection): string {
    match e
    case InvalidTitle => "Título inválido (3-100 caracteres, letras, números, espacios y algunos símbolos)"
    case InvalidDescription => "Descripción inválida (máx 255 caracteres, letras, números y signos permitidos)"
    case InvalidPriority => "Prioridad inválida"
    case PastDueDate => "La fecha de vencimiento debe ser futura"
    case NotFound => "Tarea no encontrada"
    case InvalidDateFormat => "Formato de fecha inválido. Usa YYYY-MM-DD o D/M/YYYY"
  }

  /** The request body of `POST /tasks/` (`TaskCreate`). */
  datatype TaskCreate = TaskCreate(title: string, description: Option<string>, priority: string, dueDate: Date)

  /** The cleaned fields that `create_task` stores. */
  datatype NewTask = NewTask(title: string, description: string, priority: string, dueDate: Date)

  /** What a stored row may hold: every row enters through `create_task`. */
  predicate WellFormedFields(title: string, description: string, priority: string) {
    MatchesTitleRegex(title) && (description == [] || MatchesDescriptionRegex(description)) &&
    priority in ValidPriorities
  }

  function CleanDescription(d: Option<string>): string {
    if d.Some? then Trim(d.value) else ""
  }

  /** The checks of `create_task`, in order: title, description (only when
      not empty), priority, and a due date that is not before `today`. */
  function ValidateCreate(req: TaskCreate, today: Date): (r: Result<NewTask, Rejection>)
    ensures r.Ok? <==>
              WellFormedFields(Trim(req.title), CleanDescription(req.description), req.priority) &&
              !Before(req.dueDate, today)
    ensures r.Ok? ==> r.value == NewTask(Trim(req.title), CleanDescription(req.description), req.priority, req.dueDate)
    ensures r.Err? ==> Status(r.error) == 400
  {
    var title := Trim(req.title);
    var description := CleanDescription(req.description);
    if !MatchesTitleRegex(title) then Err(InvalidTitle)
    else if description != [] && !MatchesDescriptionRegex(description) then Err(InvalidDescription)
    else if req.priority !in ValidPriorities then Err(InvalidPriority)
    else if Before(req.dueDate, today) then Err(PastDueDate)
    else Ok(NewTask(title, description, req.priority, req.dueDate))
  }

  /** The first failing check decides the error. */
  lemma CreateChecksInOrder(req: TaskCreate, today: Date)
    ensures var r, title, description := ValidateCreate(req, today), Trim(req.title), CleanDescription(req.description);
      && (r == Err(InvalidTitle) <==> !MatchesTitleRegex(title))
      && (r == Err(InvalidDescription) <==>
            MatchesTitleRegex(title) && description != [] && !MatchesDescriptionRegex(description))
      && (r == Err(InvalidPriority) <==>
            MatchesTitleRegex(title) && (description == [] || MatchesDescriptionRegex(description)) &&
            req.priority !in ValidPriorities)
      && (r == Err(PastDueDate) <==>
            WellFormedFields(title, description, req.priority) && Before(req.dueDate, today))
  {
  }

  /** A due date of today is accepted; only dates before today are refused. */
  lemma TodayIsAccepted(req: TaskCreate, today: Date)
    requires WellFormedFields(Trim(req.title), CleanDescription(req.description), req.priority)
    requires IsValid(today)
    ensures req.dueDate == today ==> ValidateCreate(req, today).Ok?
    ensures IsValid(req.dueDate) ==>
              (ValidateCreate(req, today).Ok? <==> DayNumber(today) <= DayNumber(req.dueDate))
  {
    if IsValid(req.dueDate) {
      DayNumberOrder(req.dueDate, today);
    }
  }

  /** A missing or blank description is stored as the empty string. */
  lemma BlankDescriptionAccepted(req: TaskCreate, today: Date)
    requires req.description == None || AllSpace(req.description.value)
    requires MatchesTitleRegex(Trim(req.title)) && req.priority in ValidPriorities
    requires !Before(req.dueDate, today)
    ensures ValidateCreate(req, today).Ok? && ValidateCreate(req, today).value.description == ""
  {
    if req.description.Some? {
      TrimBlank(req.description.value);
    }
  }

  // ---------------------------------------------------------------------
  // The search date: datetime.strptime with "%Y-%m-%d" or "%d/%m/%Y"

  /** `%Y`: exactly four digits, read as their value; anything else (a
      fifth digit, a sign, a space) is a `ValueError`. */
  function YearField(s: string): (r: Option<int>)
    ensures r.Some? <==> |s| == 4 && AllDigits(s)
    ensures r.Some? ==> r.value == NumeralValue(s) && 0 <= r.value <= 9999
  {
    if |s| == 4 && AllDigits(s) then
      NumeralBound(s);
      Some(NumeralValue(s))
    else None
  }

  /** The value of a numeral of one or two digits. */
  lemma NumeralOfShort(s: string)
    ensures |s| == 1 && AllDigits(s) ==> NumeralValue(s) == DigitValue(s[0])
    ensures |s| == 2 && AllDigits(s) ==> NumeralValue(s) == 10 * DigitValue(s[0]) + DigitValue(s[1])
  {
    if |s| == 1 && AllDigits(s) {
      assert s[..0] == [];
    } else if |s| == 2 && AllDigits(s) {
      var h := s[..1];
      assert AllDigits(h) && h[..0] == [] && h[0] == s[0];
      assert NumeralValue(h) == DigitValue(s[0]);
    }
  }

  /** A day padded with a space, as `%d` allows (` 7`). */
  lemma DayFieldSpacePadded(d: int)
    requires 1 <= d <= 9
    ensures DayField([' ', DigitChar(d)]) == Some(d)
  {
  }

  /** `%m`: `1[0-2]|0[1-9]|[1-9]`, one or two digits naming a month. */
  function MonthField(s: string): (r: Option<int>)
    ensures r.Some? ==> 1 <= r.value <= 12 && 1 <= |s| <= 2 && AllDigits(s) && r.value == NumeralValue(s)
  {
    NumeralOfShort(s);
    if |s| == 2 && s[0] == '1' && '0' <= s[1] <= '2' then Some(10 + DigitValue(s[1]))
    else if |s| == 2 && s[0] == '0' && '1' <= s[1] <= '9' then Some(DigitValue(s[1]))
    else if |s| == 1 && '1' <= s[0] <= '9' then Some(DigitValue(s[0]))
    else None
  }

  /** `%d`: `3[01]|[12]\d|0[1-9]|[1-9]| [1-9]`, one or two digits naming a
      day of the month, or a space and one digit. */
  function DayField(s: string): (r: Option<int>)
    ensures r.Some? ==> 1 <= r.value <= 31 && 1 <= |s| <= 2
    ensures r.Some? && AllDigits(s) ==> r.value == NumeralValue(s)
    ensures r.Some? && !AllDigits(s) ==> |s| == 2 && s[0] == ' ' && IsDigit(s[1]) && r.value == DigitValue(s[1])
  {
    NumeralOfShort(s);
    if |s| == 2 && s[0] == '3' && '0' <= s[1] <= '1' then Some(30 + DigitValue(s[1]))
    else if |s| == 2 && '1' <= s[0] <= '2' && IsDigit(s[1]) then Some(10 * DigitValue(s[0]) + DigitValue(s[1]))
    else if |s| == 2 && (s[0] == '0' || s[0] == ' ') && '1' <= s[1] <= '9' then Some(DigitValue(s[1]))
    else if |s| == 1 && '1' <= s[0] <= '9' then Some(DigitValue(s[0]))
    else None
  }

  /** The `date` the three fields make, if it exists (year 1 or later):
      a missing field, year 0 or a day past the month's end is a
      `ValueError`. */
  function MakeDate(y: Option<int>, m: Option<int>, d: Option<int>): (r: Option<Date>)
    ensures r.Some? ==> IsValid(r.value) && r.value.year >= 1
    ensures r.Some? ==> y == Some(r.value.year) && m == Some(r.value.month) && d == Some(r.value.day)
    ensures y.None? || m.None? || d.None? ==> r.None?
    ensures y.Some? && m.Some? && d.Some? && y.value >= 1 && IsValid(Date(y.value, m.value, d.value)) ==> r.Some?
  {
    if y.Some? && m.Some? && d.Some? && y.value >= 1 && IsValid(Date(y.value, m.value, d.value)) then
      Some(Date(y.value, m.value, d.value))
    else None
  }

  /** The `due_date` query parameter: `%Y-%m-%d` when it contains `-`,
      `%d/%m/%Y` otherwise; `None` is the `ValueError` that becomes a 400.
      A string is read only when it splits into exactly three parts on its
      separator and each part is read by its field; only a date that exists
      in the calendar is produced. */
  function ParseDueDate(s: string): (r: Option<Date>)
    ensures r.Some? ==> IsValid(r.value) && 1 <= r.value.year <= 9999
    ensures r.Some? ==> |Split(s, if '-' in s then '-' else '/')| == 3
    ensures r.Some? ==> var p := Split(s, if '-' in s then '-' else '/');
      if '-' in s then YearField(p[0]).Some? && MonthField(p[1]).Some? && DayField(p[2]).Some?
      else DayField(p[0]).Some? && MonthField(p[1]).Some? && YearField(p[2]).Some?
  {
    if '-' in s then
      var p := Split(s, '-');
      if |p| == 3 then MakeDate(YearField(p[0]), MonthField(p[1]), DayField(p[2])) else None
    else
      var p := Split(s, '/');
      if |p| == 3 then MakeDate(YearField(p[2]), MonthField(p[1]), DayField(p[0])) else None
  }

  /** A five-digit year is refused, whatever follows it. */
  lemma FiveDigitYearRefused(a: string, b: string, c: string)
    requires |a| == 5 && AllDigits(a) && NoSeparators(a) && NoSeparators(b) && NoSeparators(c)
    ensures YearField(a) == None
    ensures ParseDueDate(a + ['-'] + b + ['-'] + c) == None
    ensures ParseDueDate(c + ['/'] + b + ['/'] + a) == None
  {
    IsoParts(a, b, c);
    DmyParts(c, b, a);
  }

  lemma MonthFieldOfNumeral(m: int)
    requires 1 <= m <= 12
    ensures MonthField(Numeral(m, 2)) == Some(m)
    ensures MonthField(Show(m)) == Some(m)
  {
    NumeralTwoDigits(m);
    ShowSmall(m);
  }

  lemma DayFieldOfNumeral(d: int)
    requires 1 <= d <= 31
    ensures DayField(Numeral(d, 2)) == Some(d)
    ensures DayField(Show(d)) == Some(d)
  {
    NumeralTwoDigits(d);
    ShowSmall(d);
  }

  predicate NoSeparators(s: string) {
    '-' !in s && '/' !in s
  }

  /** `%Y-%m-%d` reads the three dash-separated fields. */
  lemma IsoParts(a: string, b: string, c: string)
    requires NoSeparators(a) && NoSeparators(b) && NoSeparators(c)
    ensures ParseDueDate(a + ['-'] + b + ['-'] + c) == MakeDate(YearField(a), MonthField(b), DayField(c))
  {
    var s := a + ['-'] + b + ['-'] + c;
    assert s == a + ['-'] + (b + ['-'] + c);
    assert s[|a|] == '-';
    SplitAt(a, '-', b + ['-'] + c);
    SplitAt(b, '-', c);
  }

  /** `%d/%m/%Y` reads the three slash-separated fields of a string
      without a dash. */
  lemma DmyParts(a: string, b: string, c: string)
    requires NoSeparators(a) && NoSeparators(b) && NoSeparators(c)
    ensures '-' !in a + ['/'] + b + ['/'] + c
    ensures ParseDueDate(a + ['/'] + b + ['/'] + c) == MakeDate(YearField(c), MonthField(b), DayField(a))
  {
    var s := a + ['/'] + b + ['/'] + c;
    assert s == a + ['/'] + (b + ['/'] + c);
    assert '-' !in s by {
      NoDashInJoin(b, c);
      NoDashInJoin(a, b + ['/'] + c);
    }
    SplitAt(a, '/', b + ['/'] + c);
    SplitAt(b, '/', c);
  }

  lemma NoDashInJoin(a: string, b: string)
    requires '-' !in a && '-' !in b
    ensures '-' !in a + ['/'] + b
  {
  }

  lemma DigitsHaveNoSeparators(s: string)
    requires AllDigits(s)
    ensures NoSeparators(s)
  {
    assert forall c :: c in s ==> IsDigit(c);
  }

  lemma YearFieldOfNumeral(y: int)
    requires 0 <= y <= 9999
    ensures YearField(Numeral(y, 4)) == Some(y)
  {
  }

  /** Every date Python can hold survives printing as `YYYY-MM-DD` and
      parsing back. */
  lemma ParseIsoRoundTrip(d: Date)
    requires IsValid(d) && 1 <= d.year <= 9999
    ensures ParseDueDate(FormatIso(d)) == Some(d)
  {
    var y, m, dd := Numeral(d.year, 4), Numeral(d.month, 2), Numeral(d.day, 2);
    DigitsHaveNoSeparators(y);
    DigitsHaveNoSeparators(m);
    DigitsHaveNoSeparators(dd);
    assert FormatIso(d) == y + ['-'] + m + ['-'] + dd;
    IsoParts(y, m, dd);
    YearFieldOfNumeral(d.year);
    MonthFieldOfNumeral(d.month);
    DayFieldOfNumeral(d.day);
  }

  /** The same for `D/M/YYYY` without padding, as in `1/1/2099`. */
  lemma ParseDmyRoundTrip(d: Date)
    requires IsValid(d) && 1 <= d.year <= 9999
    ensures ParseDueDate(FormatDmy(d)) == Some(d)
  {
    var dd, m, y := Show(d.day), Show(d.month), Numeral(d.year, 4);
    DigitsHaveNoSeparators(dd);
    DigitsHaveNoSeparators(m);
    DigitsHaveNoSeparators(y);
    assert FormatDmy(d) == dd + ['/'] + m + ['/'] + y;
    DmyParts(dd, m, y);
    YearFieldOfNumeral(d.year);
    MonthFieldOfNumeral(d.month);
    DayFieldOfNumeral(d.day);
  }

  // ---------------------------------------------------------------------
  // search_tasks

  /** A stored row of the `z_tasks` table (its `created_at` is left out). */
  datatype Record = Record(id: int, title: string, description: string, priority: string,
                           dueDate: Date, completed: bool)

  /** `Task.title.ilike(f"%{q}%")`: `q` occurs in the title, ignoring case. */
  predicate TitleLike(r: Record, q: string) {
    IsSubstring(Lower(q), Lower(r.title))
  }

  /** The two filters of `search_tasks`: an absent or empty parameter
      tests nothing; the date test needs a date that parses. */
  predicate SearchSelects(x: Record, title: Option<string>, dueDate: Option<string>) {
    (title.None? || title.value == [] || TitleLike(x, Trim(title.value))) &&
    (dueDate.None? || dueDate.value == [] ||
     (ParseDueDate(dueDate.value).Some? && x.dueDate == ParseDueDate(dueDate.value).value))
  }

  /** `search_tasks`: an absent or empty parameter applies no filter; the
      title query is stripped and matched against the title only; a date
      that does not parse is a 400. Rows keep their table order and their
      multiplicities. */
  function SearchRecords(rows: seq<Record>, title: Option<string>, dueDate: Option<string>)
    : (r: Result<seq<Record>, Rejection>)
    ensures r.Err? <==> dueDate.Some? && dueDate.value != [] && ParseDueDate(dueDate.value).None?
    ensures r.Err? ==> r.error == InvalidDateFormat && Status(r.error) == 400
    ensures r.Ok? ==> IsSubsequence(r.value, rows)
    ensures r.Ok? ==> forall x :: x in r.value <==> x in rows && SearchSelects(x, title, dueDate)
    ensures r.Ok? ==> forall x :: multiset(r.value)[x] == if SearchSelects(x, title, dueDate) then multiset(rows)[x] else 0
    ensures (title.None? || title.value == []) && (dueDate.None? || dueDate.value == []) ==> r == Ok(rows)
  {
    var noTitle := title.None? || title.value == [];
    var noDate := dueDate.None? || dueDate.value == [];
    var day := if noDate then None else ParseDueDate(dueDate.value);
    if !noDate && day.None? then Err(InvalidDateFormat)
    else
      var q := if noTitle then "" else Trim(title.value);
      var p := (x: Record) => (noTitle || TitleLike(x, q)) && (noDate || x.dueDate == day.value);
      if noTitle && noDate then
        FilterKeepsAll(rows, p);
        Ok(Filter(rows, p))
      else
        Ok(Filter(rows, p))
  }
}
