/** The top-level component's state: the persisted sleep-record log and the
    persisted dark-mode flag, with the handlers that the view calls. */
module SleepApp {
  import opened Records
  import opened Wrappers
  import Csv

  /** The dark-mode flag after one press of the toggle button. */
  function Toggled(dark: bool): bool {
    !dark
  }

  /** Pressing the toggle twice restores the flag; one press always changes it. */
  lemma ToggledInvolution(dark: bool)
    ensures Toggled(Toggled(dark)) == dark
    ensures Toggled(dark) != dark
  {
  }

  class App {
    /** The sleep-record log, newest first. */
    var records: seq<SleepRecord>
    /** Whether the dark theme is on. */
    var darkMode: bool

    /** The component's first render: each state cell holds what storage gave
        back, or its default (the empty log, light mode) when storage had
        nothing usable. */
    constructor (storedRecords: Option<seq<SleepRecord>>, storedDarkMode: Option<bool>)
      ensures storedRecords.Some? ==> records == storedRecords.value
      ensures storedRecords.None? ==> records == []
      ensures storedDarkMode.Some? ==> darkMode == storedDarkMode.value
      ensures storedDarkMode.None? ==> !darkMode
    {
      records := storedRecords.GetOr([]);
      darkMode := storedDarkMode.GetOr(false);
    }

    /** Records a sleep at instant `now` (epoch milliseconds) with the fresh
        identifier `freshId`, formatting its display strings with `fmt`, the
        date utilities as they behave at that moment (locale and time zone
        may differ from one tap to the next): the new record goes to the head
        of the log, the previous log follows it unchanged, and the flag is
        untouched. */
    method RecordSleep(now: int, freshId: string, fmt: Formatters)
      modifies this`records
      ensures records == [NewRecord(freshId, now, fmt)] + old(records)
      ensures |records| == |old(records)| + 1
      ensures records[0].id == freshId && records[0].timestamp == now
      ensures IsSnapshot(records[0], fmt)
      ensures records[1..] == old(records)
      ensures NewestFirst(old(records)) && (old(records) == [] || now >= old(records)[0].timestamp)
              ==> NewestFirst(records)
    {
      var newRecord := NewRecord(freshId, now, fmt);
      NewRecordFromOneInstant(freshId, now, fmt);
      if NewestFirst(records) {
        PrependNewestFirst(newRecord, records);
      }
      records := [newRecord] + records;
    }

    /** Empties the log, whatever it held; the flag is untouched. */
    method ClearAll()
      modifies this`records
      ensures records == []
    {
      records := [];
    }

    /** Flips the dark-mode flag; the log is untouched. */
    method ToggleDarkMode()
      modifies this`darkMode
      ensures darkMode == Toggled(old(darkMode))
    {
      darkMode := Toggled(darkMode);
    }

    /** The CSV document handed to the download, before URI encoding; the
        state is left as it was. */
    method Export() returns (csv: string)
      ensures csv == Csv.Export(records)
      ensures records == old(records) && darkMode == old(darkMode)
    {
      csv := Csv.Export(records);
    }
  }
}
