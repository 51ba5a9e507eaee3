# Vaccination-by-commune record store, in Dafny

This project models the backend of a small REST service over the dataset
"donnees-de-vaccination-par-commune". At start-up the backend loads the whole
dataset from a JSON file into one process-wide list, `records`. Request
handlers create, read, update, delete and filter the entries of that list,
and a daily job, `job1`, fetches from the upstream open-data API the entries
of the week its previous run fell in, appends them, and writes the list back
to the file. Apart from the start value (the first run asks for week 00 of
2022, whichever week it falls in), the job only asks for weeks it ran in: a
week in which it never ran is skipped as long as the clock never reads
earlier than a previous run (`TickSkipsWeek`), and can still be fetched when
it does (`ClockBackAsksWeekTen`).

The model has six modules:

- `Seqs`: order-preserving filter, subsequence, and first-occurrence de-duplication.
- `Clock`: naive date-times, the C `%W` week number the job compares,
  and the `record_timestamp` text.
- `Records`: the entities and one specification function per operation,
  `CreateSpec`, `ReadSpec`, `UpdateSpec`, `DeleteSpec` and `SelectSpec`.
  Each is a function of the record list before the call, and returns an
  `Outcome` together with the new list.
- `Store`: the class `RecordStore`, whose field `records` is the process-wide
  list. Its methods are loops, as the handlers are, and each is proved equal
  to its specification function.
- `StoreProperties`: what the operations promise, proved about the
  specification functions.
- `Refresh`: the job, as a transition function `Tick` and as the class
  `RefreshJob`, whose method `Run` is proved to follow `Tick`.

Each group of near-identical handlers is modelled as one operation:

- The four create handlers (unscoped, commune, commune and week,
  commune, week and age class) are one `Create` over a `Scope`. The scope
  supplies both the path values checked against the body and the fields
  seeded from the path.
- The four update handlers are one `Update`. The handler's path parameter
  plays no part in any of them.
- The three filters are one `Select` over a `Scope`.

Behaviours of the code worth noting, all modelled as written:

- Only the three-test filter answers "No data". The commune and
  commune-week filters compare a list with `{}`, which never holds, so an
  empty result is an empty list (`SelectEmptyAnswer`).
- The commune, week and age-class value lists ignore their path parameters
  and scan the whole store (`Store.RecordStore.ListDistinct`).
- The job asks the upstream API for the week of its previous run, not for
  the current week (`TickNewWeek`).
- The job rewrites the data file on every run later than the previous one,
  including a run in the same week (`TickSameWeek`).
- When an upstream request or the decoding of its answer raises, the
  exception leaves `job1` before `date` is reassigned. Such a run changes
  nothing, not even `date` (`TickNewWeek`).
- Every create and update writes `record_timestamp` in the format
  "%Y-%m-%dT%H:%M:%F.%f", which repeats the date where the seconds belong
  (`StampAsWritten`; see "Findings").
- The job's first last-run instant is 1 January 2022, the value the start
  text "2022-09" parses to (`Refresh.RefreshJob.constructor`; see "Findings").
- The job appends fetched records without checking ids (`TickCanDuplicateIds`).
  Id uniqueness is therefore not a store invariant. Create, update and
  delete preserve it (`CreatePreservesUnique`, `UpdatePreservesInvariants`,
  `DeletePreservesUnique`).

## Model

| member | source | states |
|---|---|---|
| `Store.MergeAllowed` | backend/runapp.py:268-290 | the field-by-field copy yields the old fields overwritten by exactly the allow-listed body keys (`Merge`) |
| `Store.Passes` | backend/runapp.py:757-760 | the left-to-right `and` of the equality tests answers whether the record passes every test of the scope |
| `Records.IdUsedIffShorter` | backend/runapp.py:319-324 | some record has the id exactly when dropping the records with that id shortens the store, so the delete flag and the shrinking agree |
| `Store.Without` | backend/runapp.py:317-322 | the copy loop keeps exactly the records whose id differs, in order, and its flag tells whether some record had the id |
| `Store.RecordStore.constructor` | backend/runapp.py:38-40 | the store starts out holding the loaded records |
| `Store.RecordStore.Create` | backend/runapp.py:171-206 | every create handler, the scoped ones included (:405-444, :593-636, :800-847), leaves the outcome and store that `CreateSpec` gives |
| `Store.RecordStore.ReadOne` | backend/runapp.py:229-233 | returns the first record whose id is the path's, or not-found |
| `Store.RecordStore.Update` | backend/runapp.py:262-294 | every update handler (also :473-505, :670-702, :886-918) leaves the outcome and store that `UpdateSpec` gives, whatever the path id |
| `Store.RecordStore.Delete` | backend/runapp.py:315-327 | the new store is the old one without any record bearing the id, and the outcome is "deleted" exactly when one had it |
| `Store.RecordStore.Select` | backend/runapp.py:371-378 | each filter handler (also :554-561, :756-763) answers `SelectSpec` for its scope |
| `Store.RecordStore.ListDistinct` | backend/runapp.py:344-349 | each value-list handler (also :522-527, :719-724) answers the de-duplicated column of the whole store |
| `Store.RecordStore.AppendAll` | backend/runapp.py:955-956 | the fetched batch is appended after the existing records, in order |
| `Records.Seeds` | backend/runapp.py:411-412 | the path values a scoped create seeds are allow-listed fields and equal the path's values |
| `Records.NewRecord` | backend/runapp.py:174-200 | a created record has the body's id, the constant dataset tag and the call's time in the handlers' own timestamp format; its field keys are the allow-listed body keys plus the seeds, and its values come from the body or, absent there, from the path |
| `Records.IndexOf` | backend/runapp.py:230-232 | the position found holds the id and no earlier record holds it; nothing is found exactly when no record has the id |
| `StoreProperties.CreateRejects` | backend/runapp.py:172-173 | a body without `recordid` is refused first; a used id or a path conflict is refused; a refusal leaves the store unchanged |
| `StoreProperties.CreateAppendsAllowListed` | backend/runapp.py:174-206 | a create succeeds exactly when the body has an unused id and agrees with the path; it then appends one record and keeps the prefix. The record holds the dataset tag, the "%F"-format timestamp of the call, only the allow-listed keys and the seeds, never `effectif_cumu_termine` or `datasetid`, and each scoped field equals its path value |
| `StoreProperties.CreateIgnoresUnknownKeys` | backend/runapp.py:175-199 | adding a key outside the allow-list to the body changes neither the outcome nor the store |
| `StoreProperties.ConflictsIgnoresUnknownKeys` | backend/runapp.py:409-410 | the path-value check looks only at path-scoped keys, so a key outside the allow-list never causes a conflict |
| `StoreProperties.CreatePreservesUnique` | backend/runapp.py:201-205 | create keeps record ids pairwise distinct |
| `StoreProperties.CreateThenRead` | backend/runapp.py:205 | reading the id just created returns the created record |
| `StoreProperties.CreateTwiceIsDuplicate` | backend/runapp.py:202-204 | a second create with the same id is refused as a duplicate and changes nothing |
| `StoreProperties.UpdateFrame` | backend/runapp.py:266-293 | a successful update rewrites only the first record with the body's id. Exactly the allow-listed body keys are overwritten and the timestamp is set to the "%F"-format text of the call. The id, the dataset tag, the other fields, the length, the order and every other record are unchanged |
| `StoreProperties.UpdateRejects` | backend/runapp.py:264-265 | missing-key exactly when the body lacks `recordid`, not-found exactly when no record has the body's id; both leave the store unchanged |
| `StoreProperties.UpdatePreservesInvariants` | backend/runapp.py:266-291 | update keeps ids unique and fields within the allow-list |
| `StoreProperties.UpdateKeepsOmittedFields` | backend/runapp.py:268-290 | a body naming only the age class changes that field and keeps the commune |
| `StoreProperties.DeleteRemovesAllMatches` | backend/runapp.py:315-327 | no record with the id remains; the rest keep their order; the length drops by the number of matches; "deleted" exactly when there was a match; "not found" exactly when the store is unchanged |
| `StoreProperties.FilterKeepsAll` | backend/runapp.py:317-322 | filtering with a test every record passes keeps the list as it is |
| `StoreProperties.DeleteThenRead` | backend/runapp.py:323 | after a delete, reading the id finds nothing |
| `StoreProperties.FilterKeepsUnique` | backend/runapp.py:317-323 | dropping records keeps ids unique |
| `StoreProperties.DeletePreservesUnique` | backend/runapp.py:315-323 | delete keeps ids unique |
| `StoreProperties.SelectIsOrderedSubseq` | backend/runapp.py:372-375 | a filter answers, in store order, exactly the records passing all its tests, each as many times as the store holds it |
| `StoreProperties.SelectEverything` | backend/runapp.py:107 | the unscoped listing is the whole store |
| `StoreProperties.SelectNarrows` | backend/runapp.py:557 | adding the week, then the age class, narrows the answer to a subsequence |
| `StoreProperties.SelectEmptyAnswer` | backend/runapp.py:759-762 | "No data" only from the three-test filter, exactly when no record matches; the other filters answer a (possibly empty) list |
| `StoreProperties.DistinctValues` | backend/runapp.py:344-349 | the value list holds each value of the field that some record has, once, in order of first occurrence, and nothing else |
| `Clock.WeekOf` | backend/runapp.py:941 | the week key keeps the instant's year |
| `Clock.WeekNumberRange` | backend/runapp.py:944 | a `%W` week number lies between 0 and 53 |
| `Clock.ParsedStartIsWeekZero` | backend/runapp.py:37 | the start value as parsed is Saturday 1 January 2022, in week 00 |
| `Clock.IntendedStartIsWeekNine` | backend/runapp.py:37 | Monday 28 February 2022 is in week 09 of 2022 |
| `Clock.StampRoundTrip` | backend/runapp.py:200 | the corrected timestamp text reads back as the instant it was made from |
| `Clock.StampInjective` | backend/runapp.py:291 | two instants get the same corrected timestamp exactly when they are equal |
| `Clock.StampAsWrittenDropsSeconds` | backend/runapp.py:438 | the format as written gives the same text for instants one second apart |
| `Refresh.RefreshJob.constructor` | backend/runapp.py:37 | the job starts with its last run at 1 January 2022, in week 00, the value the start text parses to, and with the loaded records as the file contents |
| `Refresh.RefreshJob.Run` | backend/runapp.py:935-964 | one run leaves the date, store and file contents that `Tick` gives and reports the week it asked for |
| `Refresh.TickNotDue` | backend/runapp.py:964 | a run not later than the last one only moves the last-run instant, and asks for nothing |
| `Refresh.TickSameWeek` | backend/runapp.py:958-960 | a later run in the same week asks for nothing, keeps the records and rewrites the file |
| `Refresh.TickNewWeek` | backend/runapp.py:944-956 | a run in a new week asks for the previous run's week; on success it appends the answer and saves; on failure nothing changes |
| `Refresh.TickExtends` | backend/runapp.py:955-956 | the old records are a prefix of the new ones, and anything added is the upstream answer for the week asked |
| `Refresh.TickSettles` | backend/runapp.py:964 | a second run at the instant of a completed one changes nothing |
| `Refresh.TickCanDuplicateIds` | backend/runapp.py:956 | a fetched record already in the store yields two records with one id |
| `Refresh.DayOfYearMonotone` | backend/runapp.py:941 | a later date of the same year has a later or equal day of the year |
| `Refresh.WeekMonotone` | backend/runapp.py:944 | within a year, a later day never has a smaller `%W` week |
| `Refresh.WeekOfMonotone` | backend/runapp.py:940-944 | an earlier instant has an earlier or equal week key |
| `Refresh.QueriedIsPastWeek` | backend/runapp.py:946 | the week the job asks for is always strictly before the current week |
| `Refresh.NoRunAsksWeekTen` | backend/runapp.py:941-964 | from a last run on or after 14 March 2022, any sequence of runs whose readings are all on or after 14 March never asks for week 10 |
| `Refresh.TickSkipsWeek` | backend/runapp.py:941-964 | after a run in week 09, a successful run on 14 March (week 11) asks for week 09, and no run after it with a reading on or after 14 March asks for week 10 |
| `Refresh.ClockBackAsksWeekTen` | backend/runapp.py:941-964 | runs on 14 March, 8 March and 15 March ask for nothing and then for week 10: the last-run instant moves back with the clock |
| `Refresh.FirstRunAsWritten` | backend/runapp.py:37 | with the start value as parsed, the first run in 2022 after week 00 asks for week 00 |
| `Refresh.FirstRunIntended` | backend/runapp.py:941-947 | with the intended start value, the first run after week 09 asks for week 09 |

## Left out

- HTTP and framework wiring is not modelled: Flask routing, request parsing, status codes, JWT checks, bcrypt, the API docs, MongoDB initialisation and the scheduler registration. Outcomes are a datatype rather than HTTP responses.
- File I/O and JSON encoding are not modelled. Loading the data file is the `RecordStore` constructor's argument. Writing it back is the `saved` field of `RefreshJob`.
- The upstream API is an input. The two requests (count, then fetch that many) are a single function from a week key to the week's records, or to `None` when a request or the decoding of its answer raises.
- The clock is an input. `job1` reads the clock up to three times; the model uses one reading per run.
- A record's extra top-level keys coming from the upstream API (`geometry` and the like) are not modelled. Key order inside a record is not modelled either.
- JSON values other than strings are identified by their JSON text, and a string is always `Str`, never `Other`: the model relies on that single representation when it compares values. Python's `1 == 1.0` equality between such values is not modelled.
- Years are restricted to 1000..9999, the range the four-digit `%Y` covers.
- Concurrency is not modelled: request threads and the scheduler thread share the list without a lock, and the model has sequential calls only.
- Records are values, not shared dictionaries. The record an update returns is the one stored, but aliasing between the handler's reply and the list is not modelled.
- The filters and value lists look fields up directly, and raise on a record lacking the field. The model makes "every record has the field" a precondition (`Evaluable` for filters, which follows the short-circuit of `and`).
- Global id uniqueness is not an invariant of the store, since neither the data file nor the job guarantees it.
- `Records.Seeds`: states that the seeded fields hold the path values and are allow-listed, not that they are the only seeded keys. Exact key sets are stated by `Records.NewRecord` instead.
- `Clock.WeekOf`: its own contract states only the year. The ordering of week keys is stated by `Refresh.WeekMonotone` and `Refresh.WeekOfMonotone`.
- The registration of user accounts and the superseded draft of the backend are not part of this model. Neither is the front-end form proxy.

## Findings

| source | as written | input that shows it | evidently intended | confidence | as-written member | corrected member |
|---|---|---|---|---|---|---|
| backend/runapp.py:200 | the format "%Y-%m-%dT%H:%M:%F.%f" puts `%F` (the whole date) where the seconds belong, also at :291, :438, :502, :630, :699, :841 and :915 | two updates at 10:00:00 and 10:00:01 on the same day get the same `record_timestamp` | "%Y-%m-%dT%H:%M:%S.%f", which determines the instant | not executed | `Clock.StampAsWrittenDropsSeconds` | `Clock.StampRoundTrip` |
| backend/runapp.py:37 | `strptime("2022-09", "%Y-%W")` ignores a week number given without a weekday, so the start value is 1 January 2022, in week 00 | the first run after week 00 of 2022 asks the upstream API for week 00, not week 09 | the start of week 09 of 2022, Monday 28 February | not executed | `Refresh.FirstRunAsWritten` | `Refresh.FirstRunIntended` |
