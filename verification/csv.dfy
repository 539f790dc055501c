/** The CSV text that the export action hands to the browser as a data URI:
    a fixed preamble, then one `day,date,time` line per record, in log order,
    separated by newlines, with no quoting or escaping and no final newline. */
module Csv {
  import opened Records
  import opened Wrappers

  /** The data-URI scheme and media type put in front of the document. */
  const DataUriPrefix: string := "data:text/csv;charset=utf-8,"

  /** The header line, with its newline. */
  const Header: string := "Day,Date,Time\n"

  /** Everything before the first record's row. */
  const Preamble: string := DataUriPrefix + Header

  // ---------------------------------------------------------------------------
  // Joining and splitting on a one-character separator

  /** The parts, with `sep` between consecutive ones (JavaScript's
      `Array.prototype.join`): nothing for no parts, and no separator after
      the last part. */
  function Join(parts: seq<string>, sep: char): string
    decreases |parts|
  {
    if |parts| == 0 then ""
    else if |parts| == 1 then parts[0]
    else parts[0] + [sep] + Join(parts[1..], sep)
  }

  /** The maximal `sep`-free pieces of `s`, in order: a reader's view of the
      text. There is always at least one piece (the empty text is one empty
      piece). */
  function Split(s: string, sep: char): (pieces: seq<string>)
    ensures |pieces| >= 1
    ensures forall i :: 0 <= i < |pieces| ==> sep !in pieces[i]
    decreases |s|
  {
    if s == [] then [""]
    else
      var tail := Split(s[1..], sep);
      if s[0] == sep then [""] + tail
      else [[s[0]] + tail[0]] + tail[1..]
  }

  /** A separator-free prefix is glued onto the first piece of what follows. */
  lemma {:induction false} SplitPrefix(a: string, rest: string, sep: char)
    requires sep !in a
    ensures Split(a + rest, sep) == [a + Split(rest, sep)[0]] + Split(rest, sep)[1..]
    decreases |a|
  {
    var t := Split(rest, sep);
    if a == [] {
      assert a + rest == rest;
      assert a + t[0] == t[0];
      assert [t[0]] + t[1..] == t;
    } else {
      assert (a + rest)[0] == a[0];
      assert (a + rest)[1..] == a[1..] + rest;
      SplitPrefix(a[1..], rest, sep);
      assert [a[0]] + (a[1..] + t[0]) == a + t[0];
    }
  }

  /** Splitting undoes joining when no part contains the separator and there
      is at least one part. */
  lemma {:induction false} SplitJoin(parts: seq<string>, sep: char)
    requires |parts| >= 1
    requires forall i :: 0 <= i < |parts| ==> sep !in parts[i]
    ensures Split(Join(parts, sep), sep) == parts
    decreases |parts|
  {
    if |parts| == 1 {
      SplitPrefix(parts[0], "", sep);
      assert parts[0] + "" == parts[0];
    } else {
      var rest := Join(parts[1..], sep);
      assert Join(parts, sep) == parts[0] + ([sep] + rest);
      SplitPrefix(parts[0], [sep] + rest, sep);
      assert ([sep] + rest)[1..] == rest;
      SplitJoin(parts[1..], sep);
      assert Split([sep] + rest, sep) == [""] + parts[1..];
      assert parts[0] + "" == parts[0];
      assert [parts[0]] + parts[1..] == parts;
    }
  }

  /** Joining puts exactly one separator between consecutive parts and none
      elsewhere: the separator occurs |parts| - 1 times. */
  lemma {:induction false} JoinSeparatorCount(parts: seq<string>, sep: char)
    requires |parts| >= 1
    requires forall i :: 0 <= i < |parts| ==> sep !in parts[i]
    ensures multiset(Join(parts, sep))[sep] == |parts| - 1
    decreases |parts|
  {
    assert multiset(parts[0])[sep] == 0;
    if |parts| > 1 {
      JoinSeparatorCount(parts[1..], sep);
      assert multiset(parts[0] + [sep] + Join(parts[1..], sep))
          == multiset(parts[0]) + multiset([sep]) + multiset(Join(parts[1..], sep));
    }
  }

  /** The joined text ends with the last part: no separator follows it. */
  lemma {:induction false} JoinEndsWithLast(parts: seq<string>, sep: char)
    requires |parts| >= 1
    ensures var s := Join(parts, sep); var last := parts[|parts| - 1];
      |s| >= |last| && s[|s| - |last|..] == last
    decreases |parts|
  {
    if |parts| > 1 {
      var rest := Join(parts[1..], sep);
      JoinEndsWithLast(parts[1..], sep);
      var s := parts[0] + [sep] + rest;
      assert s[|s| - |parts[|parts| - 1]|..] == rest[|rest| - |parts[|parts| - 1]|..];
    }
  }

  // ---------------------------------------------------------------------------
  // Rows and the exported document

  /** One record's line: its three display fields, verbatim, comma-separated. */
  function Row(r: SleepRecord): string {
    r.day + "," + r.date + "," + r.time
  }

  /** One line per record, in log order. */
  function Rows(log: seq<SleepRecord>): (rows: seq<string>)
    ensures |rows| == |log|
    ensures forall i :: 0 <= i < |log| ==> rows[i] == Row(log[i])
    decreases |log|
  {
    if log == [] then [] else [Row(log[0])] + Rows(log[1..])
  }

  /** The exported document for the log. */
  function Export(log: seq<SleepRecord>): string {
    Preamble + Join(Rows(log), '\n')
  }

  /** The three fields of every record, in log order: what a CSV reader should
      find under the header. */
  function Fields(log: seq<SleepRecord>): seq<seq<string>> {
    seq(|log|, i requires 0 <= i < |log| => [log[i].day, log[i].date, log[i].time])
  }

  /** A record whose display strings hold neither a comma nor a newline, so that
      unescaped CSV can carry them. */
  predicate PlainFields(r: SleepRecord) {
    && ',' !in r.day && ',' !in r.date && ',' !in r.time
    && '\n' !in r.day && '\n' !in r.date && '\n' !in r.time
  }

  /** Reads an exported document back: `None` unless it starts with the
      preamble; otherwise the lines after the preamble, each split at commas. */
  function ParseExport(csv: string): Option<seq<seq<string>>> {
    if |csv| >= |Preamble| && csv[..|Preamble|] == Preamble then
      var lines := Split(csv[|Preamble|..], '\n');
      Some(seq(|lines|, i requires 0 <= i < |lines| => Split(lines[i], ',')))
    else None
  }

  /** A row is the three fields joined with commas. */
  lemma RowIsJoin(r: SleepRecord)
    ensures Row(r) == Join([r.day, r.date, r.time], ',')
  {
    assert [r.day, r.date, r.time][1..] == [r.date, r.time];
    assert [r.date, r.time][1..] == [r.time];
    assert Join([r.date, r.time], ',') == r.date + [','] + r.time;
  }

  /** Splitting a row at commas gives back the record's day, date and time,
      in that order, when none of them holds a comma. */
  lemma RowSplit(r: SleepRecord)
    requires ',' !in r.day && ',' !in r.date && ',' !in r.time
    ensures Split(Row(r), ',') == [r.day, r.date, r.time]
  {
    RowIsJoin(r);
    SplitJoin([r.day, r.date, r.time], ',');
  }

  /** Every export starts with the data-URI prefix immediately followed by the
      header line; the rest is the joined rows. */
  lemma ExportStartsWithPreamble(log: seq<SleepRecord>)
    ensures var csv := Export(log);
      && |csv| >= |DataUriPrefix| + |Header|
      && csv[..|DataUriPrefix|] == "data:text/csv;charset=utf-8,"
      && csv[|DataUriPrefix|..|DataUriPrefix| + |Header|] == "Day,Date,Time\n"
      && csv[|Preamble|..] == Join(Rows(log), '\n')
  {
  }

  /** The empty log exports the prefix and the header line, and nothing else. */
  lemma ExportEmpty()
    ensures Export([]) == "data:text/csv;charset=utf-8,Day,Date,Time\n"
  {
  }

  /** Reading an export back gives one line per record, in log order, each
      line holding exactly that record's day, date and time, verbatim. The
      empty log is excluded: its body is empty text, which reads as one
      empty line. */
  lemma {:induction false} ExportRoundTrip(log: seq<SleepRecord>)
    requires log != []
    requires forall i :: 0 <= i < |log| ==> PlainFields(log[i])
    ensures ParseExport(Export(log)) == Some(Fields(log))
  {
    var csv := Export(log);
    var rows := Rows(log);
    assert csv[..|Preamble|] == Preamble;
    assert csv[|Preamble|..] == Join(rows, '\n');
    forall i | 0 <= i < |rows| ensures '\n' !in rows[i] {
      assert rows[i] == log[i].day + "," + log[i].date + "," + log[i].time;
    }
    SplitJoin(rows, '\n');
    var lines := Split(csv[|Preamble|..], '\n');
    assert lines == rows;
    var table := seq(|lines|, i requires 0 <= i < |lines| => Split(lines[i], ','));
    assert ParseExport(csv) == Some(table);
    forall i | 0 <= i < |log| ensures table[i] == Fields(log)[i] {
      RowSplit(log[i]);
    }
    assert table == Fields(log);
  }

  /** Below the header, the export holds one newline between consecutive
      rows and none after the last: |log| - 1 newlines, none for the empty
      log. */
  lemma ExportBodyNewlineCount(log: seq<SleepRecord>)
    requires forall i :: 0 <= i < |log| ==>
      '\n' !in log[i].day && '\n' !in log[i].date && '\n' !in log[i].time
    ensures multiset(Export(log)[|Preamble|..])['\n'] == if log == [] then 0 else |log| - 1
  {
    var rows := Rows(log);
    assert Export(log)[|Preamble|..] == Join(rows, '\n');
    if log != [] {
      forall i | 0 <= i < |rows| ensures '\n' !in rows[i] {
        assert rows[i] == log[i].day + "," + log[i].date + "," + log[i].time;
      }
      JoinSeparatorCount(rows, '\n');
    }
  }

  /** A non-empty log's export ends with the last record's row (the oldest
      when the log is newest first), so it has no trailing newline when that
      record's time holds none. */
  lemma ExportEndsWithLastRow(log: seq<SleepRecord>)
    requires log != []
    ensures var csv := Export(log); var last := Row(log[|log| - 1]);
      |csv| >= |last| && csv[|csv| - |last|..] == last
    ensures '\n' !in log[|log| - 1].time ==> Export(log)[|Export(log)| - 1] != '\n'
  {
    var rows := Rows(log);
    var body := Join(rows, '\n');
    JoinEndsWithLast(rows, '\n');
    var csv := Export(log);
    var last := Row(log[|log| - 1]);
    assert csv[|csv| - |last|..] == body[|body| - |last|..];
    if '\n' !in log[|log| - 1].time {
      assert csv[|csv| - 1] == last[|last| - 1];
    }
  }

  /** A two-record log exports the prefix and the header, then its two rows,
      newest first, separated by one newline. */
  lemma ExportTwoRecords()
    ensures Export([SleepRecord("a", 1704151800000, "Mon", "2024-01-01", "23:30"),
                    SleepRecord("b", 1704060900000, "Sun", "2023-12-31", "22:15")])
         == DataUriPrefix + Header
            + "Mon" + "," + "2024-01-01" + "," + "23:30" + "\n"
            + "Sun" + "," + "2023-12-31" + "," + "22:15"
  {
    var r1 := SleepRecord("a", 1704151800000, "Mon", "2024-01-01", "23:30");
    var r2 := SleepRecord("b", 1704060900000, "Sun", "2023-12-31", "22:15");
    assert Rows([r1, r2]) == [Row(r1), Row(r2)];
    assert Join([Row(r1), Row(r2)], '\n') == Row(r1) + "\n" + Row(r2) by {
      assert [Row(r1), Row(r2)][1..] == [Row(r2)];
    }
  }

  /** Fields are written without quoting: a date that holds a comma reads back
      as four columns, not three. */
  lemma CommaInDateAddsColumn()
    ensures Split(Row(SleepRecord("a", 0, "Mon", "Jan 1, 2024", "23:30")), ',')
         == ["Mon", "Jan 1", " 2024", "23:30"]
  {
    var r := SleepRecord("a", 0, "Mon", "Jan 1, 2024", "23:30");
    var parts := ["Mon", "Jan 1", " 2024", "23:30"];
    assert Row(r) == Join(parts, ',') by {
      assert parts[1..] == ["Jan 1", " 2024", "23:30"];
      assert parts[1..][1..] == [" 2024", "23:30"];
      assert parts[1..][1..][1..] == ["23:30"];
    }
    SplitJoin(parts, ',');
  }
}
