/** What the week view shows: seven day columns starting at the displayed
    Monday, Monday to Friday one after another with word-count inputs, and
    Saturday and Sunday, notes only, grouped in one weekend row after them.
    Localised day names and date labels are not modelled; a column carries
    its day number instead. */
module Week {
  import opened Calendar
  import opened DateKey
  import opened Records
  import opened Decimal
  import opened Options

  /** The two number inputs of a weekday header and the values they show. */
  datatype WordInputs = WordInputs(goal: int, written: int)

  /** One day column: its date, the key its inputs and text area carry,
      the word inputs (weekdays only) and the stored text the text area is
      rendered from (what the HTML parse makes of it is not modelled). */
  datatype DayColumn = DayColumn(date: int, key: string, inputs: Option<WordInputs>, text: string)

  /** A child of the week view: a weekday column, or the weekend row holding
      the columns appended to it. */
  datatype ViewItem = Day(column: DayColumn) | WeekendRow(days: seq<DayColumn>)

  /** What the page shows for a loaded record: the record itself, or the
      zeros and empty text it falls back to when the load gave nothing. */
  function Shown(saved: Option<DayRecord>): DayRecord {
    match saved
    case None => DefaultRecord
    case Some(record) => record
  }

  /** The column for day i (0 = Monday) of the week starting at start,
      showing what a load of its key yields. */
  function Column(start: int, i: int, saved: Option<DayRecord>): DayColumn {
    var date := AddDays(start, i);
    var shown := Shown(saved);
    DayColumn(date, FormatDateKey(date),
              if i < 5 then Some(WordInputs(shown.goal, shown.written)) else None,
              shown.text)
  }

  /** What a load yields: nothing while the database or its store is
      missing, otherwise the saved record or the default. */
  function Loaded(records: Store, ready: bool, key: string): (r: Option<DayRecord>)
    ensures ready <==> r.Some?
    ensures ready && key !in records ==> r == Some(DefaultRecord)
    ensures ready && key in records ==> r == Some(records[key])
  {
    if ready then Some(Get(records, key)) else None
  }

  /** The key a load reads for day i of the week starting at start. */
  function DayKey(start: int, i: int): string {
    FormatDateKey(AddDays(start, i))
  }

  /** The column for day i as rendering builds it: the load of the day's key
      from records, when ready, feeds the column. */
  function ColumnOf(start: int, i: int, records: Store, ready: bool): DayColumn {
    Column(start, i, Loaded(records, ready, DayKey(start, i)))
  }

  /** The seven columns of the week starting at start, Monday first. */
  function WeekColumns(start: int, records: Store, ready: bool): seq<DayColumn> {
    seq(7, i requires 0 <= i < 7 => ColumnOf(start, i, records, ready))
  }

  /** How the view groups seven columns: the first five as children of the
      view, the last two inside one weekend row. */
  function Group(cols: seq<DayColumn>): seq<ViewItem>
    requires |cols| == 7
  {
    seq(5, j requires 0 <= j < 5 => Day(cols[j])) + [WeekendRow(cols[5..])]
  }

  /** The whole week view. */
  function WeekLayout(start: int, records: Store, ready: bool): seq<ViewItem> {
    Group(WeekColumns(start, records, ready))
  }

  /** The day columns of a view in document order. */
  function Columns(view: seq<ViewItem>): seq<DayColumn> {
    if view == [] then []
    else
      (match view[0]
       case Day(c) => [c]
       case WeekendRow(days) => days) + Columns(view[1..])
  }

  /** Grouping keeps the columns and their order: five weekday children,
      then a weekend row of two. */
  lemma GroupColumns(cols: seq<DayColumn>)
    requires |cols| == 7
    ensures var view := Group(cols);
      && |view| == 6 && (forall j :: 0 <= j < 5 ==> view[j] == Day(cols[j]))
      && view[5] == WeekendRow(cols[5..]) && |view[5].days| == 2
      && Columns(view) == cols
  {
    var view := Group(cols);
    assert Columns(view[5..]) == cols[5..];
    assert Columns(view[4..]) == cols[4..];
    assert Columns(view[3..]) == cols[3..];
    assert Columns(view[2..]) == cols[2..];
    assert Columns(view[1..]) == cols[1..];
  }

  /** Each column of the week: the i-th consecutive day from start, keyed by
      its date, showing the saved record for that key (or the defaults),
      with word inputs exactly on the first five. */
  lemma WeekColumnContents(start: int, records: Store, ready: bool, i: int)
    requires 0 <= i < 7
    ensures var c := WeekColumns(start, records, ready)[i];
      && c.date == AddDays(start, i)
      && c.key == FormatDateKey(c.date)
      && var shown := Shown(Loaded(records, ready, c.key));
      && c.text == shown.text
      && (c.inputs.Some? <==> i < 5)
      && (i < 5 ==> c.inputs == Some(WordInputs(shown.goal, shown.written)))
  {
  }

  /** No two columns of a week share a key, so each edits its own record. */
  lemma WeekKeysDistinct(start: int, records: Store, ready: bool, i: int, j: int)
    requires 0 <= i < 7 && 0 <= j < 7 && i != j
    ensures var cols := WeekColumns(start, records, ready);
      cols[i].key != cols[j].key
  {
    var cols := WeekColumns(start, records, ready);
    WeekColumnContents(start, records, ready, i);
    WeekColumnContents(start, records, ready, j);
    if cols[i].key == cols[j].key {
      DateKeyInjective(cols[i].date, cols[j].date);
    }
  }

  /** Starting on a Monday, the five columns with inputs are Monday to Friday
      and the weekend row holds Saturday then Sunday. */
  lemma WeekdaysOfWeek(start: int, records: Store, ready: bool, i: int)
    requires IsMonday(start) && 0 <= i < 7
    ensures var c := WeekColumns(start, records, ready)[i];
      && (i < 5 ==> 1 <= Weekday(c.date) <= 5)
      && (i == 5 ==> Weekday(c.date) == 6)
      && (i == 6 ==> Weekday(c.date) == 0)
  {
    WeekColumnContents(start, records, ready, i);
    WeekdayOfWeekIndex(start, i);
  }

  /** After a word-count edit of weekday i's record, rendering the week
      again shows the typed counts, normalised, in that column with its notes
      kept, and every other column as before. */
  lemma CountsEditShown(start: int, records: Store, i: int, goalInput: string, writtenInput: string, j: int)
    requires 0 <= i < 5 && 0 <= j < 7
    ensures var before := WeekColumns(start, records, true);
      var after := WeekColumns(start, EditCounts(records, DayKey(start, i), goalInput, writtenInput), true);
      && after[i].inputs == Some(WordInputs(ParseIntOrZero(goalInput), ParseIntOrZero(writtenInput)))
      && after[i].text == before[i].text
      && (j != i ==> after[j] == before[j])
  {
    var edited := EditCounts(records, DayKey(start, i), goalInput, writtenInput);
    WeekColumnContents(start, records, true, i);
    WeekColumnContents(start, edited, true, i);
    if j != i {
      WeekColumnContents(start, records, true, j);
      WeekColumnContents(start, edited, true, j);
      WeekKeysDistinct(start, records, true, i, j);
    }
  }

  /** After a notes edit of day i's record, rendering the week again shows
      the new text in that column with its counts kept, and every other
      column as before. */
  lemma TextEditShown(start: int, records: Store, i: int, text: string, j: int)
    requires 0 <= i < 7 && 0 <= j < 7
    ensures var before := WeekColumns(start, records, true);
      var after := WeekColumns(start, EditText(records, DayKey(start, i), text), true);
      && after[i].text == text
      && after[i].inputs == before[i].inputs
      && (j != i ==> after[j] == before[j])
  {
    var edited := EditText(records, DayKey(start, i), text);
    WeekColumnContents(start, records, true, i);
    WeekColumnContents(start, edited, true, i);
    if j != i {
      WeekColumnContents(start, records, true, j);
      WeekColumnContents(start, edited, true, j);
      WeekKeysDistinct(start, records, true, i, j);
    }
  }

  /** While the database or its store is missing, every column shows the
      defaults: zero counts on the weekdays and empty notes on all seven. */
  lemma NotReadyShowsDefaults(start: int, records: Store, i: int)
    requires 0 <= i < 7
    ensures var c := WeekColumns(start, records, false)[i];
      && c.text == ""
      && (i < 5 ==> c.inputs == Some(WordInputs(0, 0)))
      && (i >= 5 ==> c.inputs == None)
  {
    WeekColumnContents(start, records, false, i);
  }

  /** The week of Monday 2024-04-15 starts with the column keyed
      "2024-04-15", which has word inputs. */
  lemma ExampleWeekStart(records: Store, ready: bool)
    ensures var c := WeekColumns(19828, records, ready)[0];
      c.date == 19828 && c.key == "2024-04-15" && c.inputs.Some?
  {
    WeekColumnContents(19828, records, ready, 0);
    ExampleMondayKey();
  }

  /** ... and ends with the column keyed "2024-04-21", a Sunday in the
      weekend row, without word inputs. */
  lemma ExampleWeekEnd(records: Store, ready: bool)
    ensures var c := WeekColumns(19828, records, ready)[6];
      c.date == 19834 && c.key == "2024-04-21" && c.inputs.None?
  {
    WeekColumnContents(19828, records, ready, 6);
    ExampleSundayKey();
  }
}
