/** The planner's saved data: one record per day, kept in a key-value store
    under the day's `YYYY-MM-DD` key, and the two merge-on-write edits the
    page's inputs make to it. */
module Records {
  import opened Decimal

  /** What is saved for a day: the word goal, the words written and the
      free-text notes. */
  datatype DayRecord = DayRecord(goal: int, written: int, text: string)

  /** What a load yields for a day nothing was saved for. */
  const DefaultRecord: DayRecord := DayRecord(0, 0, "")

  type Store = map<string, DayRecord>

  /** A successful read of key: the saved record, or the default when the
      store has none (a saved record is an object, never falsy). */
  function Get(records: Store, key: string): DayRecord {
    if key in records then records[key] else DefaultRecord
  }

  /** The word-count edit: the existing record with goal and written
      replaced by the normalised values of the two inputs. */
  function WithCounts(existing: DayRecord, goalInput: string, writtenInput: string): DayRecord {
    existing.(goal := ParseIntOrZero(goalInput), written := ParseIntOrZero(writtenInput))
  }

  /** The notes edit: the existing record with its text replaced. */
  function WithText(existing: DayRecord, text: string): DayRecord {
    existing.(text := text)
  }

  /** Load, merge and save of a word-count change on the day key. */
  function EditCounts(records: Store, key: string, goalInput: string, writtenInput: string): (r: Store)
    ensures r.Keys == records.Keys + {key}
    ensures Get(r, key) == DayRecord(ParseIntOrZero(goalInput), ParseIntOrZero(writtenInput), Get(records, key).text)
    ensures forall k :: k != key ==> Get(r, k) == Get(records, k)
  {
    records[key := WithCounts(Get(records, key), goalInput, writtenInput)]
  }

  /** Load, merge and save of a notes change on the day key. */
  function EditText(records: Store, key: string, text: string): (r: Store)
    ensures r.Keys == records.Keys + {key}
    ensures Get(r, key) == DayRecord(Get(records, key).goal, Get(records, key).written, text)
    ensures forall k :: k != key ==> Get(r, k) == Get(records, k)
  {
    records[key := WithText(Get(records, key), text)]
  }

  /** A saved record is read back unchanged, and saving one key leaves
      every other key as it was. */
  lemma GetAfterPut(records: Store, key: string, r: DayRecord, other: string)
    ensures Get(records[key := r], key) == r
    ensures other != key ==> Get(records[key := r], other) == Get(records, other)
  {
  }

  /** Two stores that read alike on every key and have the same keys are
      the same store. */
  lemma {:induction false} StoreExtensionality(a: Store, b: Store)
    requires a.Keys == b.Keys
    requires forall k :: Get(a, k) == Get(b, k)
    ensures a == b
  {
    forall k | k in a.Keys
      ensures a[k] == b[k]
    {
      assert Get(a, k) == Get(b, k);
    }
  }

  /** The two edits touch disjoint fields, so in whichever order they land
      (on the same day or on different days) the store ends up the same. */
  lemma EditsCommute(records: Store, k1: string, goalInput: string, writtenInput: string, k2: string, text: string)
    ensures EditText(EditCounts(records, k1, goalInput, writtenInput), k2, text)
         == EditCounts(EditText(records, k2, text), k1, goalInput, writtenInput)
  {
    var a := EditText(EditCounts(records, k1, goalInput, writtenInput), k2, text);
    var b := EditCounts(EditText(records, k2, text), k1, goalInput, writtenInput);
    forall k
      ensures Get(a, k) == Get(b, k)
    {
    }
    StoreExtensionality(a, b);
  }

  /** Repeating a word-count edit with the same inputs changes nothing. */
  lemma EditCountsIdempotent(records: Store, key: string, goalInput: string, writtenInput: string)
    ensures var once := EditCounts(records, key, goalInput, writtenInput);
      EditCounts(once, key, goalInput, writtenInput) == once
  {
    var once := EditCounts(records, key, goalInput, writtenInput);
    var twice := EditCounts(once, key, goalInput, writtenInput);
    forall k
      ensures Get(twice, k) == Get(once, k)
    {
    }
    StoreExtensionality(twice, once);
  }

  lemma ParseNumerals()
    ensures ParseIntOrZero("500") == 500 && ParseIntOrZero("120") == 120
  {
    ParseIntOrZeroOfNumeral(500, "");
    ParseIntOrZeroOfNumeral(120, "");
    assert IntToString(500) + "" == "500";
    assert IntToString(120) + "" == "120";
  }

  /** Typing 500 and 120 into the inputs of a day with nothing saved, then
      notes into its text area, leaves exactly that record for the day. */
  lemma EditScenario(key: string, notes: string)
    ensures var m := EditText(EditCounts(map[], key, "500", "120"), key, notes);
      m == map[key := DayRecord(500, 120, notes)]
  {
    ParseNumerals();
    var m := EditText(EditCounts(map[], key, "500", "120"), key, notes);
    StoreExtensionality(m, map[key := DayRecord(500, 120, notes)]);
  }

  /** Inputs left empty or holding no number save zero counts. */
  lemma EditWithoutNumbers(records: Store, key: string)
    ensures Get(EditCounts(records, key, "", "abc"), key) == DayRecord(0, 0, Get(records, key).text)
  {
    ParseIntOrZeroNoDigits("");
    ParseIntOrZeroNoDigits("abc");
  }

  /** A day saved with goal 500, nothing written and no notes: changing the
      written input to 120 (the goal input still showing 500) stores goal 500,
      written 120 and the empty notes. */
  lemma WrittenEditScenario(key: string)
    ensures EditCounts(map[key := DayRecord(500, 0, "")], key, "500", "120")
         == map[key := DayRecord(500, 120, "")]
  {
    ParseNumerals();
    var m := EditCounts(map[key := DayRecord(500, 0, "")], key, "500", "120");
    StoreExtensionality(m, map[key := DayRecord(500, 120, "")]);
  }

  /** A change to the goal input saves both inputs again; the written input
      still shows the stored count as rendered, so the stored count is kept. */
  lemma GoalEditKeepsWritten(records: Store, key: string, goalInput: string)
    ensures var saved := Get(records, key);
      var r := Get(EditCounts(records, key, goalInput, IntToString(saved.written)), key);
      r.written == saved.written && r.text == saved.text
  {
    var n := Get(records, key).written;
    ParseIntOrZeroOfNumeral(n, "");
    assert IntToString(n) + "" == IntToString(n);
  }

  /** Likewise a change to the written input keeps the stored goal. */
  lemma WrittenEditKeepsGoal(records: Store, key: string, writtenInput: string)
    ensures var saved := Get(records, key);
      var r := Get(EditCounts(records, key, IntToString(saved.goal), writtenInput), key);
      r.goal == saved.goal && r.text == saved.text
  {
    var n := Get(records, key).goal;
    ParseIntOrZeroOfNumeral(n, "");
    assert IntToString(n) + "" == IntToString(n);
  }
}
