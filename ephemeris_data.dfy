/** The read side (lib/ephemeris-data.ts): the compiled-in table, the
    conversion of a store row into the display shape, the static fallback,
    and the query cascade that resolves a date to exactly one record. */
module EphemerisData {
  import opened Wrappers
  import opened JsStrings
  import opened Schema

  /** The display shape. */
  datatype Ephemeris = Ephemeris(
    date: string,
    title: string,
    description: string,
    category: string,
    year: Option<int>,
    constellation: Option<string>,
    magnitude: Option<real>)

  /** The seven compiled-in records, one per day from 1 to 7 January. */
  const StaticTable: seq<Ephemeris> := [
    Ephemeris("01-01", "Conjunción de Júpiter y Saturno",
      "En esta fecha histórica, Júpiter y Saturno aparecen muy cerca en el cielo nocturno, un evento conocido como la 'Gran Conjunción' que ocurre aproximadamente cada 20 años.",
      "Conjunción Planetaria", Some(2020), Some("Acuario"), Some(-2.0)),
    Ephemeris("01-02", "Perihelio de la Tierra",
      "La Tierra alcanza su punto más cercano al Sol en su órbita elíptica, aproximadamente 147 millones de kilómetros. Paradójicamente, esto ocurre durante el invierno en el hemisferio norte.",
      "Evento Orbital", Some(2024), None, None),
    Ephemeris("01-03", "Lluvia de meteoros Cuadrántidas",
      "Una de las lluvias de meteoros más intensas del año, con hasta 120 meteoros por hora en su pico. Originada por los restos del asteroide 2003 EH1.",
      "Lluvia de Meteoros", None, Some("Boyero"), None),
    Ephemeris("01-04", "Descubrimiento de Ceres",
      "Giuseppe Piazzi descubrió Ceres, el primer asteroide conocido y ahora clasificado como planeta enano, desde el Observatorio de Palermo en Sicilia.",
      "Descubrimiento", Some(1801), Some("Tauro"), None),
    Ephemeris("01-05", "Lanzamiento del Surveyor 7",
      "La NASA lanzó la sonda Surveyor 7, la última de la serie Surveyor, que aterrizó cerca del cráter Tycho en la Luna para estudiar su composición.",
      "Exploración Espacial", Some(1968), None, None),
    Ephemeris("01-06", "Descubrimiento de las lunas de Júpiter",
      "Galileo Galilei observó por primera vez las cuatro lunas más grandes de Júpiter: Ío, Europa, Ganimedes y Calisto, conocidas como las lunas galileanas.",
      "Descubrimiento Histórico", Some(1610), Some("Géminis"), None),
    Ephemeris("01-07", "Oposición de Marte",
      "Marte se encuentra en oposición, apareciendo más brillante y grande en el cielo nocturno. Es el momento ideal para la observación del planeta rojo.",
      "Oposición Planetaria", None, Some("Cáncer"), Some(-1.6))
  ]

  // ------------------------------------------------------ row conversion

  const MonthNames: seq<string> := [
    "enero", "febrero", "marzo", "abril", "mayo", "junio",
    "julio", "agosto", "septiembre", "octubre", "noviembre", "diciembre"
  ]

  /** `monthNames[m - 1]` interpolated into a template: an index off the
      list reads `undefined`, which prints as the word "undefined". */
  function MonthName(m: int): string {
    if 1 <= m <= 12 then MonthNames[m - 1] else "undefined"
  }

  /** `event.split(" - ")[0]`. */
  function ReaderTitle(event: string): string {
    Split(event, Separator)[0]
  }

  /** The base description: the second piece of the split when there is
      one, otherwise the first. */
  function ReaderBase(event: string): string {
    var parts := Split(event, Separator);
    if |parts| > 1 then parts[1] else parts[0]
  }

  const ConjunctionLabel: string := "Conjunción Planetaria"
  const MeteorShowerLabel: string := "Lluvia de Meteoros"
  const OppositionLabel: string := "Oposición Planetaria"
  const ExplorationLabel: string := "Exploración Espacial"
  const DiscoveryLabel: string := "Descubrimiento Histórico"
  const DefaultLabel: string := "Efeméride Astronómica"

  /** The keyword classifier over an already lowercased title, as an
      if/else-if chain whose first matching branch decides. */
  function Classify(t: string): string {
    if Includes(t, "conjunción") then ConjunctionLabel
    else if Includes(t, "lluvia") || Includes(t, "meteoros") then MeteorShowerLabel
    else if Includes(t, "oposición") then OppositionLabel
    else if Includes(t, "alunizaje") || Includes(t, "caminata lunar") || Includes(t, "apollo") then ExplorationLabel
    else if Includes(t, "descubrimiento") then DiscoveryLabel
    else if Includes(t, "lanzamiento") || Includes(t, "misión") || Includes(t, "telescopio") then ExplorationLabel
    else DefaultLabel
  }

  /** The category of a title: the classifier applied to its lowercase. */
  function CategoryOf(title: string): string {
    Classify(ToLowerCase(title))
  }

  /** `convertSupabaseToEphemeris`. */
  function Convert(row: Row): (e: Ephemeris)
    ensures e.year.Some? && e.constellation.None? && e.magnitude.None?
  {
    var historicalYear := OrElse(row.historicalYear, row.year);
    var monthName := MonthName(OrElse(row.historicalMonth, row.month));
    var historicalDay := OrElse(row.historicalDay, row.day);
    var base := ReaderBase(row.event);
    var title := ReaderTitle(row.event);
    Ephemeris(
      DateKey(row.month, row.day),
      title,
      "El " + IntToString(historicalDay) + " de " + monthName + " de " + IntToString(historicalYear) + ", " + ToLowerCase(base),
      CategoryOf(title),
      Some(historicalYear),
      None,
      None)
  }

  // ------------------------------------------------------------- fallback

  /** `table.find(e => e.date === key)`, as the index of the first match. */
  function FindByDate(table: seq<Ephemeris>, key: string): (r: Option<nat>)
    decreases |table|
    ensures r.Some? ==> r.value < |table| && table[r.value].date == key
    ensures r.Some? ==> forall j :: 0 <= j < r.value ==> table[j].date != key
    ensures r.None? ==> forall j :: 0 <= j < |table| ==> table[j].date != key
  {
    if table == [] then None
    else if table[0].date == key then Some(0)
    else match FindByDate(table[1..], key)
      case None => None
      case Some(i) => Some(i + 1)
  }

  /** The index used when no entry has the date's key; the month is the
      0-based `getMonth()`. */
  function FallbackIndex(d: CalendarDate): int {
    ((d.month - 1) * 31 + d.day) % |StaticTable|
  }

  /** `getFallbackEphemeris`: the first entry whose key is the date's
      `MM-DD`, otherwise the entry at `FallbackIndex`. Always an entry of
      the table. */
  function Fallback(d: CalendarDate): (e: Ephemeris)
    requires ValidDate(d)
    ensures e in StaticTable
  {
    match FindByDate(StaticTable, DateKey(d.month, d.day))
    case Some(i) => StaticTable[i]
    case None => StaticTable[FallbackIndex(d)]
  }

  // -------------------------------------------------------- query cascade

  /** `getEphemerisForDate`: `byMonthDay` answers the query on month and
      day, `byDisplayDate` the query on `display_date`, which is only
      consulted when the first answer carried no error and no row. */
  function GetEphemerisForDate(d: CalendarDate, byMonthDay: QueryResult, byDisplayDate: QueryResult): (e: Ephemeris)
    requires ValidDate(d)
  {
    if !byMonthDay.Returned? then Fallback(d)
    else if HasRows(byMonthDay) then Convert(FirstRow(byMonthDay))
    else if !byDisplayDate.Returned? then Fallback(d)
    else if HasRows(byDisplayDate) then Convert(FirstRow(byDisplayDate))
    else Fallback(d)
  }

  /** The cascade run against a store that holds `rows`. */
  function ResolveFromStore(rows: seq<Row>, d: CalendarDate): Ephemeris
    requires ValidDate(d)
  {
    GetEphemerisForDate(d, SelectByMonthDay(rows, d.month, d.day), SelectByDisplayDate(rows, DisplayDate(d)))
  }

  /** `getAllEphemeris`: the conversion of every returned row, in order, or
      the static table on an error, an exception or null data. */
  function GetAllEphemeris(q: QueryResult): seq<Ephemeris> {
    if q.Returned? && q.data.Some? then
      var rows := q.data.value;
      seq(|rows|, i requires 0 <= i < |rows| => Convert(rows[i]))
    else StaticTable
  }

  // ========================================================== properties

  // --------------------------------------------------- date of a record

  /** A converted record is keyed by the row's own month and day, padded
      to two digits each; for a valid month and day the key is well formed
      and reads back as that month and day. */
  lemma ConvertDate(row: Row)
    requires 1 <= row.month <= 12 && 1 <= row.day <= 31
    ensures var k := Convert(row).date;
      WellFormedKey(k) && KeyMonth(k) == row.month && KeyDay(k) == row.day
  {
    DateKeyRoundTrip(row.month, row.day);
  }

  /** The key never depends on the historical fields, the event or the
      year: two rows with the same month and day get the same key. */
  lemma ConvertDateIgnoresHistory(row: Row, other: Row)
    requires other.month == row.month && other.day == row.day
    ensures Convert(other).date == Convert(row).date
  {
  }

  // ---------------------------------------------------- title and base

  /** Without a separator the title and the base description are both the
      whole event. With one, the title is the text before its first
      occurrence and the base is what follows it up to the next occurrence
      (or the end): later pieces are dropped. */
  lemma ReaderSplit(event: string)
    ensures !Includes(event, Separator) ==>
      ReaderTitle(event) == event && ReaderBase(event) == event
    ensures Includes(event, Separator) ==>
      var i := IndexOf(event, Separator).value;
      var rest := event[i + |Separator|..];
      var base := ReaderBase(event);
      ReaderTitle(event) == event[..i]
      && |base| <= |rest| && base == rest[..|base|] && !Includes(base, Separator)
      && (Includes(rest, Separator) <==> |base| < |rest|)
      && (Includes(rest, Separator) ==> base == rest[..IndexOf(rest, Separator).value])
      && (!Includes(rest, Separator) ==> base == rest)
  {
    SplitFirst(event, Separator);
    if Includes(event, Separator) {
      var i := IndexOf(event, Separator).value;
      var rest := event[i + |Separator|..];
      SplitFirst(rest, Separator);
      assert ReaderBase(event) == Split(rest, Separator)[0];
      SplitPiecesFree(rest, Separator);
    }
  }

  /** The title is empty exactly when the event is empty or starts with
      the separator: nothing then precedes the first piece. */
  lemma EmptyTitle(row: Row)
    ensures Convert(row).title == "" <==>
      row.event == "" || (|Separator| <= |row.event| && row.event[..|Separator|] == Separator)
  {
    var event := row.event;
    SplitFirst(event, Separator);
    if |Separator| <= |event| && event[..|Separator|] == Separator {
      assert OccursAt(event, Separator, 0);
    }
  }

  // ---------------------------------------------------------- the year

  /** The displayed year is the historical year when it is present and not
      zero, and the row's year otherwise. */
  lemma ConvertYear(row: Row)
    ensures row.historicalYear.Some? && row.historicalYear.value != 0 ==>
      Convert(row).year == row.historicalYear
    ensures row.historicalYear.None? || row.historicalYear.value == 0 ==>
      Convert(row).year == Some(row.year)
  {
  }

  // --------------------------------------------------- the description

  /** The month name used in the sentence is one of the twelve Spanish
      names exactly when the month is in 1..12. */
  lemma MonthNameValid(m: int)
    ensures 1 <= m <= 12 <==> MonthName(m) in MonthNames
    ensures 1 <= m <= 12 ==> MonthName(m) == MonthNames[m - 1]
  {
    assert "undefined" !in MonthNames;
  }

  /** The description is the Spanish sentence "El {día} de {mes} de {año}, "
      on the historical (or, falling back, the row's) day, month and year,
      followed by the lowercased base description. */
  lemma ConvertDescription(row: Row)
    ensures var e := Convert(row);
      var prefix := "El " + IntToString(OrElse(row.historicalDay, row.day))
        + " de " + MonthName(OrElse(row.historicalMonth, row.month))
        + " de " + IntToString(e.year.value) + ", ";
      e.description == prefix + ToLowerCase(ReaderBase(row.event))
      && e.description[..3] == "El "
  {
    var e := Convert(row);
    SentenceStart(IntToString(OrElse(row.historicalDay, row.day)), MonthName(OrElse(row.historicalMonth, row.month)),
      IntToString(e.year.value), ToLowerCase(ReaderBase(row.event)));
  }

  lemma SentenceStart(day: string, month: string, year: string, tail: string)
    ensures ("El " + day + " de " + month + " de " + year + ", " + tail)[..3] == "El "
  {
    var s := "El " + day + " de " + month + " de " + year + ", " + tail;
    forall k | 0 <= k < 3
      ensures s[k] == "El "[k]
    {
    }
  }

  // ------------------------------------------------------- the category

  /** One rule of the classifier: any of its keywords selects its label. */
  datatype Rule = Rule(keywords: seq<string>, category: string)

  /** The rules in the order the classifier tries them. */
  const Rules: seq<Rule> := [
    Rule(["conjunción"], ConjunctionLabel),
    Rule(["lluvia", "meteoros"], MeteorShowerLabel),
    Rule(["oposición"], OppositionLabel),
    Rule(["alunizaje", "caminata lunar", "apollo"], ExplorationLabel),
    Rule(["descubrimiento"], DiscoveryLabel),
    Rule(["lanzamiento", "misión", "telescopio"], ExplorationLabel)
  ]

  predicate AnyIncluded(t: string, keywords: seq<string>)
    decreases |keywords|
  {
    |keywords| > 0 && (Includes(t, keywords[0]) || AnyIncluded(t, keywords[1..]))
  }

  /** A reference classifier: the label of the first rule with a keyword in
      `t`, or the default label. */
  function FirstMatch(rules: seq<Rule>, t: string): string
    decreases |rules|
  {
    if rules == [] then DefaultLabel
    else if AnyIncluded(t, rules[0].keywords) then rules[0].category
    else FirstMatch(rules[1..], t)
  }

  /** The if/else-if chain is the first-match rule table. */
  lemma ClassifyIsFirstMatch(t: string)
    ensures Classify(t) == FirstMatch(Rules, t)
  {
    var r := Rules;
    assert r[6..] == [];
    forall k | 0 <= k < 6
      ensures FirstMatch(r[k..], t) == if AnyIncluded(t, r[k].keywords) then r[k].category else FirstMatch(r[k + 1..], t)
    {
      assert r[k..][1..] == r[k + 1..];
    }
    assert AnyIncluded(t, r[0].keywords) == Includes(t, "conjunción");
    assert AnyIncluded(t, r[1].keywords) == (Includes(t, "lluvia") || Includes(t, "meteoros"));
    assert AnyIncluded(t, r[2].keywords) == Includes(t, "oposición");
    assert AnyIncluded(t, r[3].keywords) == (Includes(t, "alunizaje") || Includes(t, "caminata lunar") || Includes(t, "apollo"));
    assert AnyIncluded(t, r[4].keywords) == Includes(t, "descubrimiento");
    assert AnyIncluded(t, r[5].keywords) == (Includes(t, "lanzamiento") || Includes(t, "misión") || Includes(t, "telescopio"));
  }

  /** Each label is chosen exactly when its rule matches and no earlier
      rule does. */
  lemma ClassifyOutcomes(t: string)
    ensures var conj := Includes(t, "conjunción");
      var shower := Includes(t, "lluvia") || Includes(t, "meteoros");
      var opp := Includes(t, "oposición");
      var moon := Includes(t, "alunizaje") || Includes(t, "caminata lunar") || Includes(t, "apollo");
      var disc := Includes(t, "descubrimiento");
      var launch := Includes(t, "lanzamiento") || Includes(t, "misión") || Includes(t, "telescopio");
      && (Classify(t) == ConjunctionLabel <==> conj)
      && (Classify(t) == MeteorShowerLabel <==> !conj && shower)
      && (Classify(t) == OppositionLabel <==> !conj && !shower && opp)
      && (Classify(t) == ExplorationLabel <==> !conj && !shower && !opp && (moon || (!disc && launch)))
      && (Classify(t) == DiscoveryLabel <==> !conj && !shower && !opp && !moon && disc)
      && (Classify(t) == DefaultLabel <==> !conj && !shower && !opp && !moon && !disc && !launch)
  {
    LabelsDistinct();
  }

  lemma LabelsDistinct()
    ensures ConjunctionLabel != MeteorShowerLabel && ConjunctionLabel != OppositionLabel
    ensures ConjunctionLabel != ExplorationLabel && ConjunctionLabel != DiscoveryLabel
    ensures ConjunctionLabel != DefaultLabel && MeteorShowerLabel != OppositionLabel
    ensures MeteorShowerLabel != ExplorationLabel && MeteorShowerLabel != DiscoveryLabel
    ensures MeteorShowerLabel != DefaultLabel && OppositionLabel != ExplorationLabel
    ensures OppositionLabel != DiscoveryLabel && OppositionLabel != DefaultLabel
    ensures ExplorationLabel != DiscoveryLabel && ExplorationLabel != DefaultLabel
    ensures DiscoveryLabel != DefaultLabel
  {
    assert ConjunctionLabel[0] == 'C' && MeteorShowerLabel[0] == 'L' && OppositionLabel[0] == 'O';
    assert ExplorationLabel[1] == 'x' && DiscoveryLabel[0] == 'D' && DefaultLabel[1] == 'f';
  }

  /** A title mentioning both a meteor shower and an opposition (and no
      conjunction) is a meteor shower: the earlier rule wins. */
  lemma ShowerBeatsOpposition(t: string)
    requires Includes(ToLowerCase(t), "lluvia") && Includes(ToLowerCase(t), "oposición")
    requires !Includes(ToLowerCase(t), "conjunción")
    ensures CategoryOf(t) == MeteorShowerLabel
  {
  }

  /** Classification ignores case: a title and its lowercase classify alike. */
  lemma CategoryIgnoresCase(t: string)
    ensures CategoryOf(ToLowerCase(t)) == CategoryOf(t)
  {
    ToLowerCaseIdempotent(t);
  }

  // --------------------------------------------------------- the fallback

  lemma Pad2Small(n: int)
    requires 0 <= n < 10
    ensures Pad2(n) == ['0', DigitChar(n)]
  {
  }

  /** The table's keys are 01-01 .. 01-07, in order. */
  lemma TableKeys()
    ensures |StaticTable| == 7
    ensures forall j :: 0 <= j < 7 ==> StaticTable[j].date == DateKey(1, j + 1)
  {
    forall j | 0 <= j < 7
      ensures StaticTable[j].date == DateKey(1, j + 1)
    {
      Pad2Small(1);
      Pad2Small(j + 1);
    }
  }

  /** Some entry of the table has the date's key exactly when the date is
      1 to 7 January, and then it is the entry for that day. */
  lemma FallbackKeyMatch(d: CalendarDate)
    requires ValidDate(d)
    ensures var found := FindByDate(StaticTable, DateKey(d.month, d.day));
      (found.Some? <==> d.month == 1 && d.day <= 7)
      && (found.Some? ==> found.value == d.day - 1)
  {
    TableKeys();
    KeyedTableSearch(StaticTable, d.month, d.day);
  }

  /** The search in any seven-entry table keyed 01-01 to 01-07. */
  lemma KeyedTableSearch(table: seq<Ephemeris>, month: int, day: int)
    requires 1 <= month <= 12 && 1 <= day <= 31
    requires |table| == 7 && forall j :: 0 <= j < 7 ==> table[j].date == DateKey(1, j + 1)
    ensures var found := FindByDate(table, DateKey(month, day));
      (found.Some? <==> month == 1 && day <= 7)
      && (found.Some? ==> found.value == day - 1)
  {
    var key := DateKey(month, day);
    var found := FindByDate(table, key);
    if month == 1 && day <= 7 {
      assert table[day - 1].date == key;
    }
    if found.Some? {
      DateKeyInjective(month, day, 1, found.value + 1);
    }
  }

  /** The fallback is total and deterministic: the entry for the day from
      1 to 7 January, and otherwise the entry at
      ((month - 1) * 31 + day) mod 7. */
  lemma FallbackChoice(d: CalendarDate)
    requires ValidDate(d)
    ensures 0 <= FallbackIndex(d) < |StaticTable|
    ensures d.month == 1 && d.day <= 7 ==> Fallback(d) == StaticTable[d.day - 1]
    ensures !(d.month == 1 && d.day <= 7) ==> Fallback(d) == StaticTable[((d.month - 1) * 31 + d.day) % 7]
  {
    FallbackKeyMatch(d);
    if d.month == 1 && d.day <= 7 {
      FallbackFound(d, d.day - 1);
    } else {
      FallbackNotFound(d);
      FallbackIndexValue(d);
    }
  }

  lemma FallbackFound(d: CalendarDate, i: nat)
    requires ValidDate(d)
    requires FindByDate(StaticTable, DateKey(d.month, d.day)) == Some(i)
    ensures Fallback(d) == StaticTable[i]
  {
  }

  lemma FallbackNotFound(d: CalendarDate)
    requires ValidDate(d)
    requires FindByDate(StaticTable, DateKey(d.month, d.day)) == None
    ensures Fallback(d) == StaticTable[FallbackIndex(d)]
  {
  }

  lemma FallbackIndexValue(d: CalendarDate)
    requires ValidDate(d)
    ensures FallbackIndex(d) == ((d.month - 1) * 31 + d.day) % 7
  {
    TableKeys();
  }

  // ---------------------------------------------------- the cascade

  /** The three outcomes of the cascade. */
  lemma GetEphemerisForDateCases(d: CalendarDate, byMonthDay: QueryResult, byDisplayDate: QueryResult)
    requires ValidDate(d)
    ensures var e := GetEphemerisForDate(d, byMonthDay, byDisplayDate);
      && (HasRows(byMonthDay) ==> e == Convert(FirstRow(byMonthDay)))
      && (byMonthDay.Returned? && !HasRows(byMonthDay) && HasRows(byDisplayDate) ==>
            e == Convert(FirstRow(byDisplayDate)))
      && (!HasRows(byMonthDay) && (!byMonthDay.Returned? || !HasRows(byDisplayDate)) ==>
            e == Fallback(d) && e in StaticTable)
  {
  }

  /** The `display_date` answer matters only when the first query returned
      no error and no row. */
  lemma DisplayDateConsultedOnlyWhenEmpty(d: CalendarDate, byMonthDay: QueryResult, q1: QueryResult, q2: QueryResult)
    requires ValidDate(d)
    requires !byMonthDay.Returned? || HasRows(byMonthDay)
    ensures GetEphemerisForDate(d, byMonthDay, q1) == GetEphemerisForDate(d, byMonthDay, q2)
  {
  }

  /** With nothing stored, the date resolves to the fallback. */
  lemma ResolveEmptyStore(d: CalendarDate)
    requires ValidDate(d)
    ensures ResolveFromStore([], d) == Fallback(d)
  {
  }

  /** When the store holds a row for the date's month and day, the date
      resolves to the conversion of such a row, keyed by the date. */
  lemma ResolveStoredDay(rows: seq<Row>, d: CalendarDate, row: Row)
    requires ValidDate(d)
    requires row in rows && row.month == d.month && row.day == d.day
    ensures var e := ResolveFromStore(rows, d);
      e.date == DateKey(d.month, d.day)
      && exists x :: x in rows && x.month == d.month && x.day == d.day && e == Convert(x)
  {
    var q := SelectByMonthDay(rows, d.month, d.day);
    var matching := Filter(rows, (x: Row) => x.month == d.month && x.day == d.day);
    assert row in matching;
    assert HasRows(q);
    var first := FirstRow(q);
    assert first == matching[0];
    assert first in matching;
  }

  /** When `row` is the only stored row for the date's month and day, the
      date resolves to its conversion. */
  lemma ResolveOnlyRow(rows: seq<Row>, d: CalendarDate, row: Row)
    requires ValidDate(d)
    requires row in rows && row.month == d.month && row.day == d.day
    requires forall x :: x in rows && x.month == d.month && x.day == d.day ==> x == row
    ensures ResolveFromStore(rows, d) == Convert(row)
  {
    ResolveStoredDay(rows, d, row);
  }

  /** The date resolves to the conversion of the first stored row, in the
      store's order, with the date's month and day, whatever its year:
      a later row for the same month and day is never shown. */
  lemma ResolveFirstStored(rows: seq<Row>, d: CalendarDate, k: nat)
    requires ValidDate(d)
    requires k < |rows| && rows[k].month == d.month && rows[k].day == d.day
    requires forall j :: 0 <= j < k ==> !(rows[j].month == d.month && rows[j].day == d.day)
    ensures ResolveFromStore(rows, d) == Convert(rows[k])
  {
    var keep := (x: Row) => x.month == d.month && x.day == d.day;
    FilterFirst(rows, keep, k);
    var q := SelectByMonthDay(rows, d.month, d.day);
    assert HasRows(q) && FirstRow(q) == rows[k];
  }

  /** Whatever the store holds, as long as its rows carry a valid month
      and day, the resolved record's key is a well-formed `MM-DD`. */
  lemma ResolvedKeyWellFormed(rows: seq<Row>, d: CalendarDate)
    requires ValidDate(d)
    requires forall x :: x in rows ==> 1 <= x.month <= 12 && 1 <= x.day <= 31
    ensures WellFormedKey(ResolveFromStore(rows, d).date)
  {
    var first := SelectByMonthDay(rows, d.month, d.day);
    var second := SelectByDisplayDate(rows, DisplayDate(d));
    var e := ResolveFromStore(rows, d);
    if HasRows(first) {
      var x := FirstRow(first);
      assert x in Filter(rows, (x: Row) => x.month == d.month && x.day == d.day);
      DateKeyRoundTrip(x.month, x.day);
    } else if HasRows(second) {
      var x := FirstRow(second);
      assert x in Filter(rows, (x: Row) => x.displayDate == DisplayDate(d));
      DateKeyRoundTrip(x.month, x.day);
    } else {
      TableKeys();
      assert e in StaticTable;
      var j :| 0 <= j < 7 && e == StaticTable[j];
      DateKeyRoundTrip(1, j + 1);
    }
  }

  /** `getAllEphemeris` converts every row, keeping count and order, and
      gives the static table on an error, an exception or null data. */
  lemma GetAllEphemerisShape(q: QueryResult)
    ensures q.Returned? && q.data.Some? ==>
      |GetAllEphemeris(q)| == |q.data.value|
      && forall i :: 0 <= i < |q.data.value| ==> GetAllEphemeris(q)[i] == Convert(q.data.value[i])
    ensures !(q.Returned? && q.data.Some?) ==> GetAllEphemeris(q) == StaticTable
  {
  }
}
