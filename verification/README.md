# SleepLog: the record log and its CSV export, in Dafny

SleepLog is a one-page web application. The user taps a button to record
the moment they go to sleep, sees the records in a list and a chart, exports
them as CSV, and switches between a light and a dark theme. The behaviour
behind the rendering is modelled here:

- `records.dfy` (module `Records`): the `SleepRecord` value (`id`,
  `timestamp` in epoch milliseconds, and the display strings `day`, `date`
  and `time`), and the record built when the user taps "record sleep". The
  date utilities' three formatters are not part of this model. They are
  carried as a `Formatters` value holding three total functions of the
  instant.
- `app.dfy` (module `SleepApp`): the top-level component as a class `App`.
  Its fields are the two persisted state cells, `records` and `darkMode`.
  There is one method per handler: record sleep, clear all, toggle dark
  mode, and export. The current instant and the random identifier are
  parameters of `RecordSleep`, and so are the formatters, since
  their output may change between taps.
- `csv.dfy` (module `Csv`): the exported text as a recursive function over
  the log. It is the data-URI prefix `data:text/csv;charset=utf-8,`, then the
  header `Day,Date,Time` and a newline, then one `day,date,time` row per
  record joined by newlines. `Join` is JavaScript's `Array.prototype.join`.
  `Split` and `ParseExport` are a reader used as the export's inverse: the
  round-trip lemma shows that, for a non-empty log in which no day, date or
  time string contains a comma or a newline, reading the export back gives
  every record's three fields, in log order.
- `wrappers.dfy` (module `Wrappers`): `Option`. It stands for "storage held
  a usable value" at startup.

The exported text starts with the data-URI prefix, which `App.tsx:48-50`
puts before the header line and which is still there before URI encoding.
`Csv.ExportTwoRecords` shows the whole text for a two-record log:
`data:text/csv;charset=utf-8,Day,Date,Time`, a newline,
`Mon,2024-01-01,23:30`, a newline, `Sun,2023-12-31,22:15`.

## Model

| member | source | states |
|---|---|---|
| `Records.NewRecordFromOneInstant` | App.tsx:27-35 | the new record's id is the supplied fresh id, its timestamp is the instant `now`, and its day, date and time are the formatters' output for that same timestamp |
| `Records.PrependNewestFirst` | App.tsx:37-38 | putting a record at the head of a newest-first log keeps the log newest first if and only if the record is not older than the old head |
| `SleepApp.App.constructor` | App.tsx:12-13 | each state cell starts with the stored value, or with the default (empty log, dark mode off) when storage has none |
| `SleepApp.App.RecordSleep` | App.tsx:26-41 | the log becomes the new record followed by the old log: one longer, index 0 is the new record built from `now`, the fresh id and the formatters of that tap, indices 1..n are the old log in the same order; the log stays newest first when the clock has not gone back; the flag is not touched |
| `SleepApp.App.ClearAll` | App.tsx:43-45 | the log is empty afterwards, whatever it held; the flag is not touched |
| `SleepApp.App.ToggleDarkMode` | App.tsx:75 | the flag becomes its negation; the log is not touched |
| `SleepApp.ToggledInvolution` | App.tsx:75 | toggling twice restores the flag, and one toggle always changes it |
| `SleepApp.App.Export` | App.tsx:47-50 | the returned text is the CSV document of the current log, and neither the log nor the flag changes |
| `Csv.Rows` | App.tsx:50 | one row per record, in log order, and row i is record i's row |
| `Csv.RowIsJoin` | App.tsx:50 | a row is the day, date and time joined with commas |
| `Csv.RowSplit` | App.tsx:50 | splitting a row at commas gives exactly day, date and time, in order, when none of them holds a comma |
| `Csv.SplitJoin` | App.tsx:50 | splitting at the separator undoes the join of a non-empty list of separator-free parts |
| `Csv.JoinSeparatorCount` | App.tsx:50 | the join of n separator-free parts holds the separator exactly n - 1 times |
| `Csv.JoinEndsWithLast` | App.tsx:50 | the joined text ends with the last part, so no separator trails it |
| `Csv.ExportStartsWithPreamble` | App.tsx:48-50 | every export starts with `data:text/csv;charset=utf-8,`, immediately followed by `Day,Date,Time` and a newline, and the rest is the rows joined by newlines |
| `Csv.ExportEmpty` | App.tsx:48-50 | the empty log exports exactly the prefix and the header line |
| `Csv.ExportRoundTrip` | App.tsx:48-50 | for a non-empty log whose display strings hold no comma or newline, reading the export back gives one line per record, in log order, each with that record's day, date and time verbatim |
| `Csv.ExportBodyNewlineCount` | App.tsx:49-50 | when no display string holds a newline, below the header there are \|log\| - 1 newlines, or none for the empty log |
| `Csv.ExportEndsWithLastRow` | App.tsx:50 | a non-empty log's export ends with the last record's row (the oldest when the log is newest first), so it has no trailing newline when that record's time holds no newline |
| `Csv.ExportTwoRecords` | App.tsx:48-50 | a two-record log exports the prefix, the header, and its two rows, newest first, separated by one newline |
| `Csv.CommaInDateAddsColumn` | App.tsx:50 | fields are not quoted: a date holding a comma reads back as four columns |

## Left out

- Persistence: the `useLocalStorage` hook (`App.tsx:12-13`) is not part of this model. That covers reading storage, parsing JSON, writing through on every update, and swallowing storage errors. The constructor takes what storage gave back as an `Option`, and every setter is a plain assignment to the field. So the storage round trip is not modelled.
- `new Date()`, `crypto.randomUUID()` (`App.tsx:27`, `App.tsx:30`): nondeterministic browser calls. Their results are the parameters `now` and `freshId` of `RecordSleep`. Uniqueness of identifiers is not modelled.
- `formatDay`, `formatDate`, `formatTime24h`, `getGreeting`: the date utilities are not part of this model. They depend on locale and time zone. The first three are opaque total functions in a `Formatters` value passed to each `RecordSleep`, so a change of locale or time zone between taps is allowed. The greeting only feeds the rendering.
- The theme side effect on the document's class list (`App.tsx:16-24`), the `mounted` guard and all rendering (`App.tsx:61-123`): browser I/O and UI, with no behaviour to state.
- The download in `handleExport` (`App.tsx:52-58`): `encodeURI`, the temporary anchor, and the click. The model stops at the CSV text before encoding.
- `SleepButton`, `SleepList`, `SleepChart`, `AiInsights`: these components are not part of this model. `SleepStats` and `AiInsightResponse` (`types.ts:9-17`) are used by none of the modelled code.
- Integer width: `timestamp` is an unbounded `int`. The source's JavaScript number holds epoch milliseconds exactly, so no wrap-around matters here.
