/** The shapes both sides share: a row of the `ephemerides` table, the
    calendar fields of a date, what a store call gives back, the `MM-DD` and
    `YYYY-MM-DD` keys, and the equality filters the two sides query with. */
module Schema {
  import opened Wrappers
  import opened JsStrings

  /** One row of the `ephemerides` table. The historical fields may be
      absent; `id` and the timestamps are assigned by the store. */
  datatype Row = Row(
    id: int,
    day: int,
    month: int,
    year: int,
    event: string,
    displayDate: string,
    historicalDay: Option<int>,
    historicalMonth: Option<int>,
    historicalYear: Option<int>,
    createdAt: string,
    updatedAt: string)

  /** The calendar fields read off a `Date`: `getFullYear()`,
      `getMonth() + 1` and `getDate()`. */
  datatype CalendarDate = CalendarDate(year: int, month: int, day: int)

  /** What a `Date` can yield: a month in 1..12 and a day in 1..31. */
  predicate ValidDate(d: CalendarDate) {
    1 <= d.month <= 12 && 1 <= d.day <= 31
  }

  /** What one call into the store gives back: an `error` in the answer,
      an exception thrown by the client, or `data`, which may be null. */
  datatype QueryResult = Errored | Threw | Returned(data: Option<seq<Row>>)

  /** The answer carries at least one row (`data && data.length > 0`). */
  predicate HasRows(q: QueryResult) {
    q.Returned? && q.data.Some? && |q.data.value| > 0
  }

  function FirstRow(q: QueryResult): Row
    requires HasRows(q)
  {
    q.data.value[0]
  }

  /** The separator between title and description in an `event`. */
  const Separator: string := " - "

  /** The year-independent lookup key `MM-DD`. */
  function DateKey(month: int, day: int): string {
    Pad2(month) + "-" + Pad2(day)
  }

  /** The `display_date` of a date, `YYYY-MM-DD` (the year is not padded). */
  function DisplayDate(d: CalendarDate): string {
    IntToString(d.year) + "-" + Pad2(d.month) + "-" + Pad2(d.day)
  }

  /** A `display_date` is the year's numeral, a dash, and the date's
      `MM-DD` key. */
  lemma DisplayDateHasKey(d: CalendarDate)
    ensures DisplayDate(d) == IntToString(d.year) + "-" + DateKey(d.month, d.day)
    ensures |DisplayDate(d)| > 5
  {
    assert |Pad2(d.month)| >= 2 && |Pad2(d.day)| >= 2;
  }

  /** Two decimal digits, a dash, two decimal digits. */
  predicate WellFormedKey(k: string) {
    |k| == 5 && k[2] == '-'
    && IsDecimalDigit(k[0]) && IsDecimalDigit(k[1]) && IsDecimalDigit(k[3]) && IsDecimalDigit(k[4])
  }

  /** The month a well-formed key names. */
  function KeyMonth(k: string): int
    requires WellFormedKey(k)
  {
    10 * (k[0] as int - '0' as int) + (k[1] as int - '0' as int)
  }

  /** The day a well-formed key names. */
  function KeyDay(k: string): int
    requires WellFormedKey(k)
  {
    10 * (k[3] as int - '0' as int) + (k[4] as int - '0' as int)
  }

  /** For a month and day below 100 the key is well formed and reads back
      as that month and day. */
  lemma DateKeyRoundTrip(month: int, day: int)
    requires 0 <= month < 100 && 0 <= day < 100
    ensures var k := DateKey(month, day);
      WellFormedKey(k) && KeyMonth(k) == month && KeyDay(k) == day
  {
    Pad2Digits(month);
    Pad2Digits(day);
    KeyOf(Pad2(month), Pad2(day));
  }

  /** A key glued from two two-digit numerals reads back as their values. */
  lemma KeyOf(p: string, q: string)
    requires |p| == 2 && |q| == 2 && AllDigitsIn(p, 10) && AllDigitsIn(q, 10)
    ensures var k := p + "-" + q;
      WellFormedKey(k) && KeyMonth(k) == Value(p, 10) && KeyDay(k) == Value(q, 10)
  {
    TwoDigitValue(p);
    TwoDigitValue(q);
    var k := p + "-" + q;
    assert k[0] == p[0] && k[1] == p[1] && k[2] == '-' && k[3] == q[0] && k[4] == q[1];
  }

  lemma TwoDigitValue(p: string)
    requires |p| == 2 && AllDigitsIn(p, 10)
    ensures IsDecimalDigit(p[0]) && IsDecimalDigit(p[1])
    ensures Value(p, 10) == 10 * (p[0] as int - '0' as int) + (p[1] as int - '0' as int)
  {
    assert IsDigitIn(p[0], 10) && IsDigitIn(p[1], 10);
    var head := p[..1];
    assert head[..0] == [] && head[0] == p[0];
    assert Value(head, 10) == DigitValue(p[0]);
    assert p[..|p| - 1] == head;
    assert Value(p, 10) == Value(head, 10) * 10 + DigitValue(p[1]);
  }

  /** Distinct dates have distinct keys. */
  lemma DateKeyInjective(m1: int, d1: int, m2: int, d2: int)
    requires 0 <= m1 < 100 && 0 <= d1 < 100 && 0 <= m2 < 100 && 0 <= d2 < 100
    requires DateKey(m1, d1) == DateKey(m2, d2)
    ensures m1 == m2 && d1 == d2
  {
    DateKeyRoundTrip(m1, d1);
    DateKeyRoundTrip(m2, d2);
    Pad2Injective(m1, m2);
    Pad2Injective(d1, d2);
  }

  // ------------------------------------------------- the store as a table

  /** The rows that satisfy an equality filter, in the store's order. */
  function Filter(rows: seq<Row>, keep: Row -> bool): (r: seq<Row>)
    decreases |rows|
    ensures |r| <= |rows|
    ensures forall x :: x in r <==> x in rows && keep(x)
  {
    if rows == [] then []
    else if keep(rows[0]) then [rows[0]] + Filter(rows[1..], keep)
    else Filter(rows[1..], keep)
  }

  /** The first row kept by a filter is the first stored row it accepts. */
  lemma {:induction false} FilterFirst(rows: seq<Row>, keep: Row -> bool, k: nat)
    requires k < |rows| && keep(rows[k])
    requires forall j :: 0 <= j < k ==> !keep(rows[j])
    ensures Filter(rows, keep) != [] && Filter(rows, keep)[0] == rows[k]
    decreases k
  {
    if k > 0 {
      FilterFirst(rows[1..], keep, k - 1);
    }
  }

  /** `.limit(1)`. */
  function Limit1(rows: seq<Row>): (r: seq<Row>)
    ensures |r| <= 1 && (rows != [] <==> r != []) && (r != [] ==> r[0] == rows[0])
  {
    if |rows| <= 1 then rows else rows[..1]
  }

  /** `.eq("month", month).eq("day", day).limit(1)` against a store
      holding `rows`. */
  function SelectByMonthDay(rows: seq<Row>, month: int, day: int): QueryResult {
    Returned(Some(Limit1(Filter(rows, (x: Row) => x.month == month && x.day == day))))
  }

  /** `.eq("display_date", key).limit(1)`. */
  function SelectByDisplayDate(rows: seq<Row>, key: string): QueryResult {
    Returned(Some(Limit1(Filter(rows, (x: Row) => x.displayDate == key))))
  }

  /** `.eq('day', day).eq('month', month).eq('year', year).limit(1)`. */
  function SelectByDate(rows: seq<Row>, day: int, month: int, year: int): QueryResult {
    Returned(Some(Limit1(Filter(rows, (x: Row) => x.day == day && x.month == month && x.year == year))))
  }
}
