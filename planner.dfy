/** The page's state and its event handlers: the open database with its
    object store of day records, the Monday of the displayed week, and the
    week view last rendered. Promises are modelled as calls that complete
    before the handler returns. */
module PlannerPage {
  import opened Calendar
  import opened DateKey
  import opened Records
  import opened Week
  import opened Options

  /** The children appended to the week view once the first i days of cols
      have been rendered: the weekday columns so far, and the weekend row
      once Sunday has closed it. */
  ghost function RenderedSoFar(cols: seq<DayColumn>, i: int): seq<ViewItem>
    requires |cols| == 7 && 0 <= i <= 7
  {
    if i < 5 then seq(i, j requires 0 <= j < i => Day(cols[j]))
    else if i < 7 then seq(5, j requires 0 <= j < 5 => Day(cols[j]))
    else Group(cols)
  }

  /** The weekend row under construction once the first i days have been
      rendered: none before Saturday. */
  ghost function WeekendSoFar(cols: seq<DayColumn>, i: int): Option<seq<DayColumn>>
    requires |cols| == 7 && 0 <= i <= 7
  {
    if i <= 5 then None else Some(cols[5..i])
  }

  /** Rendering Monday to Friday appends the day's column to the view. */
  lemma WeekdayStep(cols: seq<DayColumn>, i: int)
    requires |cols| == 7 && 0 <= i < 5
    ensures RenderedSoFar(cols, i + 1) == RenderedSoFar(cols, i) + [Day(cols[i])]
  {
  }

  /** Rendering Saturday starts the weekend row and leaves the view alone. */
  lemma SaturdayStep(cols: seq<DayColumn>)
    requires |cols| == 7
    ensures RenderedSoFar(cols, 6) == RenderedSoFar(cols, 5)
    ensures WeekendSoFar(cols, 6) == Some([cols[5]])
  {
    assert cols[5..6] == [cols[5]];
  }

  /** Rendering Sunday completes the weekend row and appends it, which
      completes the grouped week. */
  lemma SundayStep(cols: seq<DayColumn>)
    requires |cols| == 7
    ensures WeekendSoFar(cols, 7) == Some(WeekendSoFar(cols, 6).value + [cols[6]])
    ensures RenderedSoFar(cols, 7) == RenderedSoFar(cols, 6) + [WeekendRow(WeekendSoFar(cols, 7).value)]
  {
    assert cols[5..7] == cols[5..6] + [cols[6]];
    assert cols[5..] == cols[5..7];
  }

  class Planner {
    /** The `db` handle has been set by a successful open. */
    var dbOpen: bool
    /** The database holds the `plannerData` object store. */
    var storeExists: bool
    /** The object store's contents, keyed by `YYYY-MM-DD`. */
    var records: Store
    /** The Monday of the displayed week. */
    var currentWeekStart: int
    /** The children of the week view. */
    var view: seq<ViewItem>

    /** The displayed week always starts on a Monday, and a missing object
        store holds nothing. */
    ghost predicate Valid()
      reads this`currentWeekStart, this`storeExists, this`records
    {
      IsMonday(currentWeekStart) && (!storeExists ==> records == map[])
    }

    /** Loads reach the object store. */
    predicate Ready()
      reads this`dbOpen, this`storeExists
    {
      dbOpen && storeExists
    }

    /** Page load: the displayed week is the one holding today; the database
        is not open yet. hadStore and persisted describe the database as an
        earlier visit left it. */
    constructor (today: int, hadStore: bool, persisted: Store)
      ensures Valid() && !dbOpen
      ensures storeExists == hadStore
      ensures records == (if hadStore then persisted else map[])
      ensures currentWeekStart == GetMonday(today) && view == []
    {
      dbOpen := false;
      storeExists := hadStore;
      records := if hadStore then persisted else map[];
      currentWeekStart := GetMonday(today);
      view := [];
    }

    /** openDB: on success the handle is set; when the open upgrades the
        database, the object store is created unless it is already there,
        and a newly created store is empty. A failed open leaves the handle
        unset. */
    method OpenDB(succeeded: bool, upgradeNeeded: bool)
      requires Valid()
      modifies this
      ensures Valid()
      ensures dbOpen == (old(dbOpen) || succeeded)
      ensures storeExists == (old(storeExists) || (succeeded && upgradeNeeded))
      ensures !old(storeExists) && storeExists ==> records == map[]
      ensures records == old(records)
      ensures currentWeekStart == old(currentWeekStart) && view == old(view)
    {
      if succeeded {
        if upgradeNeeded && !storeExists {
          storeExists := true;
        }
        dbOpen := true;
      }
    }

    /** saveData: without a handle nothing happens; with one, the record is
        put under the key. A transaction on a missing store throws before
        the put, so nothing is saved then either. */
    method SaveData(key: string, data: DayRecord)
      requires Valid()
      modifies this
      ensures Valid()
      ensures records == if Ready() then old(records)[key := data] else old(records)
      ensures dbOpen == old(dbOpen) && storeExists == old(storeExists)
      ensures currentWeekStart == old(currentWeekStart) && view == old(view)
    {
      if !dbOpen {
        return;
      }
      if !storeExists {
        return;
      }
      records := records[key := data];
    }

    /** loadData: nothing (null) without a handle or without the store;
        otherwise the saved record, or the zero record when the key has
        none. */
    method LoadData(key: string) returns (r: Option<DayRecord>)
      ensures !dbOpen || !storeExists ==> r == None
      ensures Ready() && key in records ==> r == Some(records[key])
      ensures Ready() && key !in records ==> r == Some(DefaultRecord)
    {
      if !dbOpen {
        return None;
      }
      if !storeExists {
        return None;
      }
      if key in records {
        r := Some(records[key]);
      } else {
        r := Some(DefaultRecord);
      }
    }

    /** handleInputChange on a day's word inputs: key is the day's
        data-date-key, goalInput and writtenInput the two inputs' values.
        The existing record is loaded and saved back with both counts
        replaced and its text kept. */
    method HandleInputChange(key: string, goalInput: string, writtenInput: string)
      requires Valid()
      modifies this
      ensures Valid()
      ensures records == if key != "" && Ready() then EditCounts(old(records), key, goalInput, writtenInput) else old(records)
      ensures dbOpen == old(dbOpen) && storeExists == old(storeExists)
      ensures currentWeekStart == old(currentWeekStart) && view == old(view)
    {
      if key != "" {
        var existing := LoadData(key);
        if existing.Some? {
          SaveData(key, WithCounts(existing.value, goalInput, writtenInput));
        }
      }
    }

    /** handleTextareaInput on a day's text area: the existing record is
        loaded and saved back with its text replaced and its counts kept. */
    method HandleTextareaInput(key: string, text: string)
      requires Valid()
      modifies this
      ensures Valid()
      ensures records == if key != "" && Ready() then EditText(old(records), key, text) else old(records)
      ensures dbOpen == old(dbOpen) && storeExists == old(storeExists)
      ensures currentWeekStart == old(currentWeekStart) && view == old(view)
    {
      if key != "" {
        var existing := LoadData(key);
        if existing.Some? {
          SaveData(key, WithText(existing.value, text));
        }
      }
    }

    /** One pass of the render loop's body before placement: the day's date
        and key, the load of its record, and the column built from it. */
    method RenderDay(startDate: int, i: int) returns (dayElement: DayColumn)
      ensures dayElement == ColumnOf(startDate, i, records, Ready())
    {
      var dayDate := AddDays(startDate, i);
      var dateKey := FormatDateKey(dayDate);
      var savedData := LoadData(dateKey);
      dayElement := Column(startDate, i, savedData);
    }

    /** The placement at the end of the render loop's body: Monday to Friday
        are appended to the view, Saturday starts the weekend row, and
        Sunday completes it and appends it to the view. */
    static method PlaceDay(weekView: seq<ViewItem>, weekendRow: Option<seq<DayColumn>>, i: int,
                           dayElement: DayColumn, ghost cols: seq<DayColumn>)
      returns (weekView': seq<ViewItem>, weekendRow': Option<seq<DayColumn>>)
      requires |cols| == 7 && 0 <= i < 7 && dayElement == cols[i]
      requires weekView == RenderedSoFar(cols, i) && weekendRow == WeekendSoFar(cols, i)
      ensures weekView' == RenderedSoFar(cols, i + 1) && weekendRow' == WeekendSoFar(cols, i + 1)
    {
      weekView', weekendRow' := weekView, weekendRow;
      if i < 5 {
        WeekdayStep(cols, i);
        weekView' := weekView + [Day(dayElement)];
      } else if i == 5 {
        SaturdayStep(cols);
        weekendRow' := Some([dayElement]);
      } else {
        SundayStep(cols);
        weekendRow' := Some(weekendRow.value + [dayElement]);
        weekView' := weekView + [WeekendRow(weekendRow'.value)];
      }
    }

    /** renderWeekDays: empties the view, then for each of the seven days
        from startDate loads the day's record and builds its column;
        Monday to Friday are appended to the view, Saturday starts the
        weekend row, and Sunday completes it and appends it. */
    method RenderWeekDays(startDate: int)
      modifies this
      ensures view == WeekLayout(startDate, records, Ready())
      ensures records == old(records) && dbOpen == old(dbOpen) && storeExists == old(storeExists)
      ensures currentWeekStart == old(currentWeekStart)
    {
      var weekView: seq<ViewItem> := [];
      var weekendRow: Option<seq<DayColumn>> := None;
      ghost var cols := WeekColumns(startDate, records, Ready());
      var i := 0;
      while i < 7
        invariant 0 <= i <= 7
        invariant weekView == RenderedSoFar(cols, i)
        invariant weekendRow == WeekendSoFar(cols, i)
        modifies {}
      {
        var dayElement := RenderDay(startDate, i);
        weekView, weekendRow := PlaceDay(weekView, weekendRow, i, dayElement, cols);
        i := i + 1;
      }
      view := weekView;
    }

    /** The previous-week button: back seven days, then redisplay. */
    method PrevWeek()
      requires Valid()
      modifies this
      ensures Valid()
      ensures currentWeekStart == AddDays(old(currentWeekStart), -7)
      ensures view == WeekLayout(currentWeekStart, records, Ready())
      ensures records == old(records) && dbOpen == old(dbOpen) && storeExists == old(storeExists)
    {
      currentWeekStart := AddDays(currentWeekStart, -7);
      AddWeeksKeepsWeekday(old(currentWeekStart), -1);
      RenderWeekDays(currentWeekStart);
    }

    /** The next-week button: forward seven days, then redisplay. */
    method NextWeek()
      requires Valid()
      modifies this
      ensures Valid()
      ensures currentWeekStart == AddDays(old(currentWeekStart), 7)
      ensures view == WeekLayout(currentWeekStart, records, Ready())
      ensures records == old(records) && dbOpen == old(dbOpen) && storeExists == old(storeExists)
    {
      currentWeekStart := AddDays(currentWeekStart, 7);
      AddWeeksKeepsWeekday(old(currentWeekStart), 1);
      RenderWeekDays(currentWeekStart);
    }

    /** The today button: back to the week holding today, then redisplay. */
    method GoToToday(today: int)
      requires Valid()
      modifies this
      ensures Valid()
      ensures currentWeekStart == GetMonday(today)
      ensures view == WeekLayout(currentWeekStart, records, Ready())
      ensures records == old(records) && dbOpen == old(dbOpen) && storeExists == old(storeExists)
    {
      currentWeekStart := GetMonday(today);
      RenderWeekDays(currentWeekStart);
    }

    /** Document ready: open the database and, once it is open, display the
        current week. A failed open stops here. */
    method OnDocumentReady(succeeded: bool, upgradeNeeded: bool)
      requires Valid()
      modifies this
      ensures Valid()
      ensures dbOpen == (old(dbOpen) || succeeded)
      ensures storeExists == (old(storeExists) || (succeeded && upgradeNeeded))
      ensures !old(storeExists) && storeExists ==> records == map[]
      ensures records == old(records) && currentWeekStart == old(currentWeekStart)
      ensures succeeded ==> view == WeekLayout(currentWeekStart, records, Ready())
      ensures !succeeded ==> view == old(view)
    {
      OpenDB(succeeded, upgradeNeeded);
      if succeeded {
        RenderWeekDays(currentWeekStart);
      }
    }
  }
}
