/** What the site reads back from a row the generator wrote: the writer
    (generate-ephemeris.mjs) and the reader (lib/ephemeris-data.ts) share
    the store, and these lemmas follow a generated record through an insert
    and a conversion. */
module RoundTrip {
  import opened Wrappers
  import opened JsStrings
  import opened Schema
  import opened EphemerisData
  import opened Generator

  /** The row the store holds once `rec` is inserted: the record's columns,
      plus the identifier and timestamps the store assigns. */
  function StoredRow(rec: Record, id: int, createdAt: string, updatedAt: string): Row {
    Row(id, rec.day, rec.month, rec.year, rec.event, rec.displayDate,
      Some(rec.historicalDay), Some(rec.historicalMonth), Some(rec.historicalYear),
      createdAt, updatedAt)
  }

  /** The reader's base description is a prefix of the generator's
      description, and the two agree exactly when the generator's
      description holds no further separator: a reply with three or more
      pieces loses everything after the second on the way to the page. */
  lemma {:induction false} ReaderBaseTruncates(text: string)
    ensures ReaderBase(text) <= GeneratorDescription(text)
    ensures ReaderBase(text) == GeneratorDescription(text)
      <==> !Includes(GeneratorDescription(text), Separator)
  {
    SplitFirst(text, Separator);
    if Includes(text, Separator) {
      var i := IndexOf(text, Separator).value;
      var rest := text[i + |Separator|..];
      GeneratorSplit(text);
      assert GeneratorDescription(text) == rest;
      assert ReaderBase(text) == Split(rest, Separator)[0];
      SplitFirst(rest, Separator);
      if Includes(rest, Separator) {
        var k := IndexOf(rest, Separator).value;
        assert ReaderBase(text) == rest[..k];
        assert |rest[..k]| < |rest|;
      }
    }
  }

  /** Converting the stored row of a generated record gives the target's
      `MM-DD` key, the reply's first piece as title and its category, the
      record's historical year, and a sentence on the target day and month
      whose tail is the lowercased base description of the reply. */
  lemma ReadBack(d: CalendarDate, content: string, rec: Record, id: int, createdAt: string, updatedAt: string)
    requires ValidDate(d)
    requires GenerateEphemerisWithAI(d, Completed(content)) == Some(rec)
    ensures var e := Convert(StoredRow(rec, id, createdAt, updatedAt));
      && e.date == DateKey(d.month, d.day)
      && e.title == GeneratorTitle(Trim(content))
      && e.category == CategoryOf(GeneratorTitle(Trim(content)))
      && e.year == Some(rec.historicalYear)
      && e.description == "El " + IntToString(d.day) + " de " + MonthNames[d.month - 1]
        + " de " + IntToString(rec.historicalYear) + ", " + ToLowerCase(ReaderBase(Trim(content)))
  {
    RecordFields(d, content);
    assert rec.day == d.day && rec.month == d.month && rec.event == Trim(content);
    assert rec.historicalYear == rec.year || rec.historicalYear != 0;
    ReadBackRecord(rec, id, createdAt, updatedAt);
  }

  /** The same for any record whose historical day and month are its own
      day and month, and whose historical year is non-zero or its year. */
  lemma ReadBackRecord(rec: Record, id: int, createdAt: string, updatedAt: string)
    requires 1 <= rec.month <= 12
    requires rec.historicalDay == rec.day && rec.historicalMonth == rec.month
    requires rec.historicalYear == rec.year || rec.historicalYear != 0
    ensures var e := Convert(StoredRow(rec, id, createdAt, updatedAt));
      && e.date == DateKey(rec.month, rec.day)
      && e.title == GeneratorTitle(rec.event)
      && e.category == CategoryOf(GeneratorTitle(rec.event))
      && e.year == Some(rec.historicalYear)
      && e.description == "El " + IntToString(rec.day) + " de " + MonthNames[rec.month - 1]
        + " de " + IntToString(rec.historicalYear) + ", " + ToLowerCase(ReaderBase(rec.event))
  {
    var row := StoredRow(rec, id, createdAt, updatedAt);
    assert OrElse(row.historicalYear, row.year) == rec.historicalYear;
    assert OrElse(row.historicalDay, row.day) == rec.day;
    assert OrElse(row.historicalMonth, row.month) == rec.month;
    MonthNameValid(rec.month);
    ConvertDescription(row);
  }

  /** A row stored in an earlier year for the same month and day hides the
      generated one: the existence check looks for the target's day, month
      and year, so it does not stop the generation, and the page's lookup
      on month and day, which has no year, shows the earlier row. */
  lemma GeneratedShadowed(prev: Row, d: CalendarDate, content: string, rec: Record, id: int, createdAt: string, updatedAt: string)
    requires ValidDate(d)
    requires GenerateEphemerisWithAI(d, Completed(content)) == Some(rec)
    requires prev.month == d.month && prev.day == d.day && prev.year != d.year
    ensures !EphemerisExists(SelectByDate([prev], d.day, d.month, d.year))
    ensures ResolveFromStore([prev, StoredRow(rec, id, createdAt, updatedAt)], d) == Convert(prev)
  {
    ExistsIffStored([prev], d.day, d.month, d.year);
    ResolveFirstStored([prev, StoredRow(rec, id, createdAt, updatedAt)], d, 0);
  }

  /** When the stored row of a generated record is the only one for its
      month and day, the page's lookup for the target date shows its
      conversion. */
  lemma ResolveGenerated(rows: seq<Row>, d: CalendarDate, content: string, rec: Record, id: int, createdAt: string, updatedAt: string)
    requires ValidDate(d)
    requires GenerateEphemerisWithAI(d, Completed(content)) == Some(rec)
    requires StoredRow(rec, id, createdAt, updatedAt) in rows
    requires forall x :: x in rows && x.month == d.month && x.day == d.day ==> x == StoredRow(rec, id, createdAt, updatedAt)
    ensures ResolveFromStore(rows, d) == Convert(StoredRow(rec, id, createdAt, updatedAt))
  {
    RecordFields(d, content);
    ResolveOnlyRow(rows, d, StoredRow(rec, id, createdAt, updatedAt));
  }
}
