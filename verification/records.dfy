/** The sleep record and the facts about one record that the log relies on. */
module Records {

  /** One recorded sleep event. `timestamp` is epoch milliseconds; `day`, `date`
      and `time` are display strings computed once, when the record is made. */
  datatype SleepRecord = SleepRecord(
    id: string,
    timestamp: int,
    day: string,
    date: string,
    time: string)

  /** The three display formatters of the application's date utilities. Their
      definitions (locale, time zone) are not part of this model, so they are
      carried as total functions of the instant, given in epoch milliseconds. */
  datatype Formatters = Formatters(
    formatDay: int -> string,
    formatDate: int -> string,
    formatTime24h: int -> string)

  /** The record's display strings are what the formatters give for its own
      timestamp: they are a snapshot of one single instant. */
  ghost predicate IsSnapshot(r: SleepRecord, fmt: Formatters) {
    && r.day == fmt.formatDay(r.timestamp)
    && r.date == fmt.formatDate(r.timestamp)
    && r.time == fmt.formatTime24h(r.timestamp)
  }

  /** The record built when the user taps "record sleep" at instant `now`,
      with the identifier `id` that the random generator supplied. */
  function NewRecord(id: string, now: int, fmt: Formatters): SleepRecord {
    SleepRecord(id, now, fmt.formatDay(now), fmt.formatDate(now), fmt.formatTime24h(now))
  }

  /** Every field of a new record comes from the one instant `now` and the
      supplied identifier, and nothing else. */
  lemma NewRecordFromOneInstant(id: string, now: int, fmt: Formatters)
    ensures NewRecord(id, now, fmt).id == id
    ensures NewRecord(id, now, fmt).timestamp == now
    ensures IsSnapshot(NewRecord(id, now, fmt), fmt)
  {
  }

  /** The log is ordered newest first: timestamps never increase along it. */
  ghost predicate NewestFirst(log: seq<SleepRecord>) {
    forall i, j :: 0 <= i < j < |log| ==> log[i].timestamp >= log[j].timestamp
  }

  /** Putting a record at the head of a newest-first log keeps it newest first
      exactly when the record is not older than the current head. */
  lemma PrependNewestFirst(r: SleepRecord, log: seq<SleepRecord>)
    requires NewestFirst(log)
    ensures NewestFirst([r] + log) <==> (log == [] || r.timestamp >= log[0].timestamp)
  {
    var s := [r] + log;
    if log == [] || r.timestamp >= log[0].timestamp {
      forall i, j | 0 <= i < j < |s| ensures s[i].timestamp >= s[j].timestamp {
        if i > 0 {
          assert s[i] == log[i - 1] && s[j] == log[j - 1];
        } else {
          assert s[j] == log[j - 1];
        }
      }
    } else {
      assert s[0].timestamp < s[1].timestamp;
    }
  }
}
