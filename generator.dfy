/** The write side (generate-ephemeris.mjs): parsing the model's reply into
    a record, the existence check and insert answers, the per-day and batch
    control flow, and the command-line dispatch. The text-generation API and
    the store are oracles: `Services` gives their answers. */
module Generator {
  import opened Wrappers
  import opened JsStrings
  import opened Schema

  // ------------------------------------------------------ parsing a reply

  /** `text.split(" - ")[0]`. */
  function GeneratorTitle(text: string): string {
    Split(text, Separator)[0]
  }

  /** Every piece after the first, joined back with the separator, or the
      whole text when there is no separator. */
  function GeneratorDescription(text: string): string {
    var parts := Split(text, Separator);
    if |parts| > 1 then Join(parts[1..], Separator) else text
  }

  /** Without a separator title and description are the whole text. With
      one, the title is what precedes its first occurrence and the
      description everything after it, so that title, separator and
      description give back the text. */
  lemma GeneratorSplit(text: string)
    ensures !Includes(text, Separator) ==>
      GeneratorTitle(text) == text && GeneratorDescription(text) == text
    ensures Includes(text, Separator) ==>
      var i := IndexOf(text, Separator).value;
      GeneratorTitle(text) == text[..i]
      && GeneratorDescription(text) == text[i + |Separator|..]
      && GeneratorTitle(text) + Separator + GeneratorDescription(text) == text
      && !Includes(GeneratorTitle(text), Separator)
  {
    SplitFirst(text, Separator);
    if Includes(text, Separator) {
      var i := IndexOf(text, Separator).value;
      JoinSplit(text[i + |Separator|..], Separator);
      AroundOccurrence(text, Separator, i);
      SplitPiecesFree(text, Separator);
    }
  }

  // --------------------------------------------------- the historical year

  /** A character `\w` matches: ASCII letters, digits and underscore. */
  predicate IsWordChar(c: char) {
    'a' <= c <= 'z' || 'A' <= c <= 'Z' || '0' <= c <= '9' || c == '_'
  }

  /** `/\b(1\d{3}|20\d{2})\b/` matches the four characters at index `i`. */
  predicate YearTokenAt(s: string, i: int) {
    0 <= i && i + 4 <= |s|
    && (i == 0 || !IsWordChar(s[i - 1]))
    && ((s[i] == '1' && IsDecimalDigit(s[i + 1])) || (s[i] == '2' && s[i + 1] == '0'))
    && IsDecimalDigit(s[i + 2]) && IsDecimalDigit(s[i + 3])
    && (i + 4 == |s| || !IsWordChar(s[i + 4]))
  }

  /** The first match at or after `from`. */
  function FirstYearTokenFrom(s: string, from: nat): (r: Option<nat>)
    decreases |s| - from
    ensures r.Some? ==> from <= r.value && YearTokenAt(s, r.value)
  {
    if from + 4 > |s| then None
    else if YearTokenAt(s, from) then Some(from)
    else FirstYearTokenFrom(s, from + 1)
  }

  /** The match found is the leftmost one, and none means there is no
      match at or after `from`. */
  lemma {:induction false} FirstYearTokenLeftmost(s: string, from: nat)
    ensures var r := FirstYearTokenFrom(s, from);
      && (r.Some? ==> forall j :: from <= j < r.value ==> !YearTokenAt(s, j))
      && (r.None? ==> forall j :: from <= j ==> !YearTokenAt(s, j))
    decreases |s| - from
  {
    if from + 4 <= |s| && !YearTokenAt(s, from) {
      FirstYearTokenLeftmost(s, from + 1);
    }
  }

  /** The year read off the first match in the description, or the target
      year when there is none. */
  function HistoricalYear(description: string, year: int): int {
    match FirstYearTokenFrom(description, 0)
    case None => year
    case Some(i) =>
      TokenDigits(description, i);
      Value(description[i..i + 4], 10)
  }

  lemma TokenDigits(s: string, i: nat)
    requires YearTokenAt(s, i)
    ensures AllDigitsIn(s[i..i + 4], 10)
  {
    var t := s[i..i + 4];
    assert t[0] == s[i] && t[1] == s[i + 1] && t[2] == s[i + 2] && t[3] == s[i + 3];
  }

  /** The value of four decimal digits. */
  lemma FourDigitValue(t: string)
    requires |t| == 4 && AllDigitsIn(t, 10)
    ensures Value(t, 10) == 1000 * DigitValue(t[0]) + 100 * DigitValue(t[1]) + 10 * DigitValue(t[2]) + DigitValue(t[3])
  {
    var t3, t2, t1 := t[..3], t[..2], t[..1];
    assert t[..|t| - 1] == t3 && t3[..|t3| - 1] == t2 && t2[..|t2| - 1] == t1 && t1[..0] == [];
    assert t3[2] == t[2] && t2[1] == t[1] && t1[0] == t[0];
    assert Value(t1, 10) == DigitValue(t[0]);
    assert Value(t2, 10) == Value(t1, 10) * 10 + DigitValue(t[1]);
    assert Value(t3, 10) == Value(t2, 10) * 10 + DigitValue(t[2]);
    assert Value(t, 10) == Value(t3, 10) * 10 + DigitValue(t[3]);
  }

  /** The historical year is the target year or lies in 1000..2099; when a
      token matched it is that token's number, in 1000..1999 for a token
      starting with 1 and in 2000..2099 for one starting with 20. */
  lemma HistoricalYearRange(description: string, year: int)
    ensures var h := HistoricalYear(description, year);
      h == year || 1000 <= h <= 2099
    ensures var found := FirstYearTokenFrom(description, 0);
      found.None? ==> HistoricalYear(description, year) == year
    ensures var found := FirstYearTokenFrom(description, 0);
      found.Some? ==>
        var i := found.value;
        var h := HistoricalYear(description, year);
        (description[i] == '1' ==> 1000 <= h <= 1999)
        && (description[i] == '2' ==> 2000 <= h <= 2099)
  {
    var found := FirstYearTokenFrom(description, 0);
    if found.Some? {
      var i := found.value;
      var t := description[i..i + 4];
      TokenDigits(description, i);
      FourDigitValue(t);
      assert t[0] == description[i] && t[1] == description[i + 1];
      assert t[2] == description[i + 2] && t[3] == description[i + 3];
    }
  }

  // ------------------------------------------------------------ the record

  /** The object `generateEphemerisWithAI` returns, ready for the store. */
  datatype Record = Record(
    day: int,
    month: int,
    year: int,
    event: string,
    displayDate: string,
    historicalDay: int,
    historicalMonth: int,
    historicalYear: int)

  /** The completion call's outcome: the reply's content, or a failure (an
      API error, or content the code cannot read), which the code rethrows. */
  datatype Completion = Completed(content: string) | CompletionFailed

  /** `generateEphemerisWithAI`: `None` when it throws. */
  function GenerateEphemerisWithAI(d: CalendarDate, c: Completion): (r: Option<Record>)
    ensures r.Some? <==> c.Completed?
  {
    match c
    case CompletionFailed => None
    case Completed(content) =>
      var text := Trim(content);
      Some(Record(
        d.day, d.month, d.year,
        text,
        DisplayDate(d),
        d.day, d.month,
        HistoricalYear(GeneratorDescription(text), d.year)))
  }

  /** The record carries the target date, the trimmed reply as its event,
      the target's `YYYY-MM-DD`, the target day and month as historical day
      and month, and a historical year that is the target year or in
      1000..2099. */
  lemma RecordFields(d: CalendarDate, content: string)
    requires ValidDate(d)
    ensures var r := GenerateEphemerisWithAI(d, Completed(content)).value;
      && r.day == d.day && r.month == d.month && r.year == d.year
      && r.historicalDay == r.day && r.historicalMonth == r.month
      && r.event == Trim(content)
      && r.displayDate == DisplayDate(d)
      && (r.historicalYear == d.year || 1000 <= r.historicalYear <= 2099)
  {
    HistoricalYearRange(GeneratorDescription(Trim(content)), d.year);
  }

  // ------------------------------------------------- store answers mapped

  /** `ephemerisExists`: true only when the answer carries a row; an error,
      an exception or null data all read as false. */
  function EphemerisExists(q: QueryResult): (b: bool)
    ensures b <==> HasRows(q)
  {
    match q
    case Errored => false
    case Threw => false
    case Returned(data) => data.Some? && |data.value| > 0
  }

  /** `insertEphemeris`: true only when the insert answered with rows. An
      error is false; so is an exception, and so are null or empty data,
      since reading `data[0].id` for the log then throws and is caught. */
  function InsertSucceeded(q: QueryResult): (b: bool)
    ensures b <==> HasRows(q)
  {
    match q
    case Errored => false
    case Threw => false
    case Returned(data) =>
      match data
      case None => false
      case Some(rows) => |rows| > 0
  }

  /** Against a store holding `rows`, the existence check for a day, month
      and year is true exactly when a row has those three fields. */
  lemma ExistsIffStored(rows: seq<Row>, day: int, month: int, year: int)
    ensures EphemerisExists(SelectByDate(rows, day, month, year))
      <==> exists x :: x in rows && x.day == day && x.month == month && x.year == year
  {
    var keep := (x: Row) => x.day == day && x.month == month && x.year == year;
    var matching := Filter(rows, keep);
    if exists x :: x in rows && x.day == day && x.month == month && x.year == year {
      var x :| x in rows && x.day == day && x.month == month && x.year == year;
      assert x in matching;
    }
    if matching != [] {
      var x := matching[0];
      assert x in matching;
    }
  }

  // --------------------------------------------------- per-day control flow

  /** The answers of the outside world, as functions of each call's
      argument: the existence query for a date, the completion for a date,
      the insert of a record. */
  datatype Services = Services(
    lookup: CalendarDate -> QueryResult,
    complete: CalendarDate -> Completion,
    insert: Record -> QueryResult)

  /** `generateTomorrowEphemeris` for the target date `d`. */
  function GenerateTomorrowEphemeris(d: CalendarDate, svc: Services): bool {
    if EphemerisExists(svc.lookup(d)) then true
    else match GenerateEphemerisWithAI(d, svc.complete(d))
      case None => false
      case Some(rec) => InsertSucceeded(svc.insert(rec))
  }

  datatype Status = Success | Skipped | Failed | Error

  /** One entry of the batch summary: `d/m/y`, the status and, when a
      record was generated, the start of its event. */
  datatype DayResult = DayResult(date: string, status: Status, event: Option<string>)

  function DayLabel(d: CalendarDate): string {
    IntToString(d.day) + "/" + IntToString(d.month) + "/" + IntToString(d.year)
  }

  /** `event.substring(0, 50) + '...'`. */
  function Excerpt(event: string): (r: string)
    ensures 3 <= |r| <= 53 && |r| - 3 <= |event|
    ensures r[|r| - 3..] == "..." && r[..|r| - 3] == event[..|r| - 3]
  {
    Prefix(event, 50) + "..."
  }

  /** The excerpt keeps exactly the first 50 characters of the event, or
      all of a shorter one. */
  lemma ExcerptLength(event: string)
    ensures |Excerpt(event)| == (if |event| < 50 then |event| else 50) + 3
  {
  }

  /** The result one iteration of the batch loop appends for date `d`. */
  function DayOutcome(d: CalendarDate, svc: Services): DayResult {
    if EphemerisExists(svc.lookup(d)) then DayResult(DayLabel(d), Skipped, None)
    else match GenerateEphemerisWithAI(d, svc.complete(d))
      case None => DayResult(DayLabel(d), Error, None)
      case Some(rec) =>
        DayResult(DayLabel(d), if InsertSucceeded(svc.insert(rec)) then Success else Failed, Some(Excerpt(rec.event)))
  }

  /** The generator is called for a date exactly when no entry exists. */
  predicate GeneratorCalledFor(d: CalendarDate, svc: Services) {
    !EphemerisExists(svc.lookup(d))
  }

  /** A day is skipped exactly when the generator is not called for it. */
  lemma SkippedIffNotCalled(d: CalendarDate, svc: Services)
    ensures DayOutcome(d, svc).status == Skipped <==> !GeneratorCalledFor(d, svc)
  {
  }

  /** Which status a day gets, as a function of the three answers. */
  lemma DayOutcomeStatus(d: CalendarDate, svc: Services)
    ensures var r := DayOutcome(d, svc);
      var gen := GenerateEphemerisWithAI(d, svc.complete(d));
      && r.date == DayLabel(d)
      && (r.status == Skipped <==> !GeneratorCalledFor(d, svc))
      && (r.status == Error <==> GeneratorCalledFor(d, svc) && svc.complete(d).CompletionFailed?)
      && (r.status == Success <==> GeneratorCalledFor(d, svc) && gen.Some? && HasRows(svc.insert(gen.value)))
      && (r.status == Failed <==> GeneratorCalledFor(d, svc) && gen.Some? && !HasRows(svc.insert(gen.value)))
      && (r.event.Some? <==> r.status == Success || r.status == Failed)
  {
  }

  // ------------------------------------------------------------- the batch

  /** The outcomes `outcome(1)`, ..., `outcome(n)`, in order. */
  function Batch(n: int, outcome: int -> DayResult): seq<DayResult>
    decreases n
  {
    if n <= 0 then [] else Batch(n - 1, outcome) + [outcome(n)]
  }

  /** The dates `date(i)` for `i` in 1..n with `called(i)`, in order. */
  function Calls(n: int, date: int -> CalendarDate, called: int -> bool): seq<CalendarDate>
    decreases n
  {
    if n <= 0 then [] else Calls(n - 1, date, called) + (if called(n) then [date(n)] else [])
  }

  /** Day `i`'s outcome, day `i` being `dateOf(i)`. */
  function Outcomes(dateOf: int -> CalendarDate, svc: Services): int -> DayResult {
    i => DayOutcome(dateOf(i), svc)
  }

  /** Whether the generator is called on day `i`. */
  function CalledOn(dateOf: int -> CalendarDate, svc: Services): int -> bool {
    i => GeneratorCalledFor(dateOf(i), svc)
  }

  /** The summary of a batch of `n` days. */
  function BatchResults(n: int, dateOf: int -> CalendarDate, svc: Services): seq<DayResult> {
    Batch(n, Outcomes(dateOf, svc))
  }

  /** The dates, in order, for which a batch of `n` days calls the
      generator. */
  function GeneratorCalls(n: int, dateOf: int -> CalendarDate, svc: Services): seq<CalendarDate> {
    Calls(n, dateOf, CalledOn(dateOf, svc))
  }

  /** `generateMultipleDays(days)`: one result per day `i` in 1..days,
      appended in order; `generated` lists the dates handed to the
      generator. */
  method GenerateMultipleDays(days: int, dateOf: int -> CalendarDate, svc: Services)
    returns (results: seq<DayResult>, generated: seq<CalendarDate>)
    ensures |results| == if days > 0 then days else 0
    ensures forall k :: 0 <= k < |results| ==> results[k] == DayOutcome(dateOf(k + 1), svc)
    ensures results == BatchResults(days, dateOf, svc)
    ensures generated == GeneratorCalls(days, dateOf, svc)
  {
    results, generated := [], [];
    var i := 1;
    while i <= days
      invariant 1 <= i <= if days >= 1 then days + 1 else 1
      invariant results == BatchResults(i - 1, dateOf, svc)
      invariant generated == GeneratorCalls(i - 1, dateOf, svc)
    {
      var target := dateOf(i);
      var result, called := GenerateDay(target, svc);
      results := results + [result];
      if called {
        generated := generated + [target];
      }
      i := i + 1;
    }
    if days <= 0 {
      assert i == 1;
    }
    assert results == BatchResults(days, dateOf, svc) && generated == GeneratorCalls(days, dateOf, svc);
    BatchResultsAt(days, dateOf, svc);
  }

  /** One iteration of the batch loop: skip an existing date, otherwise
      generate and insert, recording an exception from the generator as
      `Error`. `called` tells whether the generator was called. */
  method GenerateDay(target: CalendarDate, svc: Services) returns (result: DayResult, called: bool)
    ensures result == DayOutcome(target, svc)
    ensures called == GeneratorCalledFor(target, svc)
    ensures called <==> result.status != Skipped
  {
    var date := DayLabel(target);
    if EphemerisExists(svc.lookup(target)) {
      return DayResult(date, Skipped, None), false;
    }
    called := true;
    var record := GenerateEphemerisWithAI(target, svc.complete(target));
    match record {
      case None =>
        result := DayResult(date, Error, None);
      case Some(rec) =>
        var success := InsertSucceeded(svc.insert(rec));
        result := DayResult(date, if success then Success else Failed, Some(Excerpt(rec.event)));
    }
  }

  /** A batch of `n` has one entry per day, the k-th being `outcome(k + 1)`. */
  lemma {:induction false} BatchAt(n: int, outcome: int -> DayResult)
    ensures |Batch(n, outcome)| == if n > 0 then n else 0
    ensures forall k :: 0 <= k < |Batch(n, outcome)| ==> Batch(n, outcome)[k] == outcome(k + 1)
    decreases n
  {
    if n > 0 {
      BatchAt(n - 1, outcome);
    }
  }

  /** A batch of `n` days has one result per day, the k-th for `dateOf(k + 1)`. */
  lemma BatchResultsAt(n: int, dateOf: int -> CalendarDate, svc: Services)
    ensures |BatchResults(n, dateOf, svc)| == if n > 0 then n else 0
    ensures forall k :: 0 <= k < |BatchResults(n, dateOf, svc)| ==>
      BatchResults(n, dateOf, svc)[k] == DayOutcome(dateOf(k + 1), svc)
  {
    BatchAt(n, Outcomes(dateOf, svc));
  }

  /** The number of results with status `s`. */
  function CountStatus(results: seq<DayResult>, s: Status): nat
    decreases |results|
  {
    if results == [] then 0
    else CountStatus(results[..|results| - 1], s) + (if results[|results| - 1].status == s then 1 else 0)
  }

  lemma CountStep(prev: seq<DayResult>, last: DayResult, s: Status)
    ensures CountStatus(prev + [last], s) == CountStatus(prev, s) + (if last.status == s then 1 else 0)
  {
    assert (prev + [last])[..|prev|] == prev;
  }

  /** When a day is skipped exactly when it is not called, the calls and
      the skipped days together account for every day. */
  lemma {:induction false} CallsPlusSkippedFor(n: int, date: int -> CalendarDate, outcome: int -> DayResult, called: int -> bool)
    requires forall i :: outcome(i).status == Skipped <==> !called(i)
    ensures |Calls(n, date, called)| + CountStatus(Batch(n, outcome), Skipped) == |Batch(n, outcome)|
    decreases n
  {
    if n > 0 {
      CallsPlusSkippedFor(n - 1, date, outcome, called);
      CountStep(Batch(n - 1, outcome), outcome(n), Skipped);
    }
  }

  /** Every day of a batch is either handed to the generator or skipped. */
  lemma CallsPlusSkipped(n: int, dateOf: int -> CalendarDate, svc: Services)
    ensures |GeneratorCalls(n, dateOf, svc)| + CountStatus(BatchResults(n, dateOf, svc), Skipped)
      == |BatchResults(n, dateOf, svc)|
  {
    var outcome, called := Outcomes(dateOf, svc), CalledOn(dateOf, svc);
    forall i
      ensures outcome(i).status == Skipped <==> !called(i)
    {
      SkippedIffNotCalled(dateOf(i), svc);
    }
    CallsPlusSkippedFor(n, dateOf, outcome, called);
  }

  /** Three days of which only the second already has an entry: one
      skipped result, and the generator called for the first and third. */
  lemma ThreeDaysSecondExists(dateOf: int -> CalendarDate, svc: Services)
    requires !EphemerisExists(svc.lookup(dateOf(1)))
    requires EphemerisExists(svc.lookup(dateOf(2)))
    requires !EphemerisExists(svc.lookup(dateOf(3)))
    ensures |BatchResults(3, dateOf, svc)| == 3
    ensures CountStatus(BatchResults(3, dateOf, svc), Skipped) == 1
    ensures GeneratorCalls(3, dateOf, svc) == [dateOf(1), dateOf(3)]
  {
    var r1 := BatchResults(1, dateOf, svc);
    var r2 := BatchResults(2, dateOf, svc);
    var r3 := BatchResults(3, dateOf, svc);
    assert r1 == [DayOutcome(dateOf(1), svc)];
    assert r3[..|r3| - 1] == r2 && r2[..|r2| - 1] == r1 && r1[..|r1| - 1] == [];
    DayOutcomeStatus(dateOf(1), svc);
    DayOutcomeStatus(dateOf(2), svc);
    DayOutcomeStatus(dateOf(3), svc);
    assert CountStatus(r1, Skipped) == 0;
    assert CountStatus(r2, Skipped) == 1;
  }

  /** The single-day run succeeds exactly when a batch of that one day
      reports it skipped or inserted. */
  lemma TomorrowAgreesWithBatch(dateOf: int -> CalendarDate, svc: Services)
    ensures var s := BatchResults(1, dateOf, svc)[0].status;
      GenerateTomorrowEphemeris(dateOf(1), svc) <==> s == Skipped || s == Success
  {
    DayOutcomeStatus(dateOf(1), svc);
  }

  /** When an entry exists the single-day run reports success whatever the
      generator and the insert would answer. */
  lemma TomorrowSkipsGenerator(d: CalendarDate, svc: Services, other: Services)
    requires EphemerisExists(svc.lookup(d)) && other.lookup == svc.lookup
    ensures GenerateTomorrowEphemeris(d, svc) && GenerateTomorrowEphemeris(d, other)
  {
  }

  // --------------------------------------------------------- command line

  datatype Command = Tomorrow | Days(count: int) | Usage

  /** `main`'s switch on `args[0] || 'tomorrow'`; for `multiple` the count
      is `parseInt(args[1]) || 7`, with a missing argument reading as the
      text "undefined". */
  function Dispatch(args: seq<string>): Command {
    var command := if |args| > 0 && args[0] != "" then args[0] else "tomorrow";
    if command == "tomorrow" then Tomorrow
    else if command == "week" then Days(7)
    else if command == "month" then Days(30)
    else if command == "multiple" then Days(OrElse(ParseInt(if |args| > 1 then args[1] else "undefined"), 7))
    else Usage
  }

  /** No command, or an empty one, runs the single-day generation. */
  lemma DispatchDefault()
    ensures Dispatch([]) == Tomorrow && Dispatch([""]) == Tomorrow && Dispatch(["tomorrow"]) == Tomorrow
  {
  }

  /** `week` is 7 days and `month` 30, whatever follows. */
  lemma DispatchFixedCounts(rest: seq<string>)
    ensures Dispatch(["week"] + rest) == Days(7) && Dispatch(["month"] + rest) == Days(30)
  {
    assert (["week"] + rest)[0] == "week";
    assert (["month"] + rest)[0] == "month";
  }

  /** `multiple n` is n days for every non-zero n written as a numeral. */
  lemma DispatchMultiple(n: int)
    requires n != 0
    ensures Dispatch(["multiple", IntToString(n)]) == Days(n)
  {
    ParseIntOfIntToString(n);
  }

  /** `multiple` with a count that is missing, zero or not a number is 7
      days. */
  lemma DispatchMultipleDefault(arg: string)
    requires ParseInt(arg).None? || ParseInt(arg) == Some(0)
    ensures Dispatch(["multiple", arg]) == Days(7)
    ensures Dispatch(["multiple"]) == Days(7)
  {
    UndefinedIsNaN();
  }

  lemma UndefinedIsNaN()
    ensures ParseInt("undefined") == None
  {
    var u := "undefined";
    assert !IsWhiteSpace(u[0]) && u[0] != '-' && u[0] != '+';
    assert TrimStart(u) == u;
    assert !IsDigitIn(u[0], 10);
    assert LeadingDigits(u, 10) == 0;
  }

  /** Any other command prints the usage and generates nothing. */
  lemma DispatchUnknown(args: seq<string>)
    requires |args| > 0 && args[0] != "" && args[0] != "tomorrow" && args[0] != "week"
    requires args[0] != "month" && args[0] != "multiple"
    ensures Dispatch(args) == Usage
  {
  }

  /** What `main` did. */
  datatype Outcome = TomorrowRan(ok: bool) | BatchRan(results: seq<DayResult>) | UsagePrinted

  /** `main`: the day after today is `dateOf(1)`, the i-th next day
      `dateOf(i)`. `generated` lists the dates handed to the generator. */
  method RunCommand(args: seq<string>, dateOf: int -> CalendarDate, svc: Services)
    returns (outcome: Outcome, generated: seq<CalendarDate>)
    ensures Dispatch(args) == Usage ==> outcome == UsagePrinted && generated == []
    ensures Dispatch(args) == Tomorrow ==>
      outcome == TomorrowRan(GenerateTomorrowEphemeris(dateOf(1), svc)) && generated == GeneratorCalls(1, dateOf, svc)
    ensures Dispatch(args).Days? ==>
      outcome == BatchRan(BatchResults(Dispatch(args).count, dateOf, svc))
      && generated == GeneratorCalls(Dispatch(args).count, dateOf, svc)
  {
    match Dispatch(args) {
      case Tomorrow =>
        var target := dateOf(1);
        outcome := TomorrowRan(GenerateTomorrowEphemeris(target, svc));
        generated := if GeneratorCalledFor(target, svc) then [target] else [];
      case Days(count) =>
        var results;
        results, generated := GenerateMultipleDays(count, dateOf, svc);
        outcome := BatchRan(results);
      case Usage =>
        outcome, generated := UsagePrinted, [];
    }
  }
}
