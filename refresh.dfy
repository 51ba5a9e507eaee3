/** The daily refresh job: on every run later than its last one it rewrites the
    data file, and when the week has also changed it first fetches the records
    of the week it last ran in and appends them to the store; a failed fetch
    leaves everything as it was. */
module Refresh {
  import opened Seqs
  import opened Clock
  import opened Records
  import opened Store

  /** What the job reads and writes: the instant of its last run, the store's
      records, and the contents of the data file. */
  datatype JobState = JobState(date: DateTime, records: seq<Record>, saved: seq<Record>)

  /** The upstream search API: the records of one week, or `None` when a request
      or the decoding of its answer raises. */
  type Fetch = WeekKey -> Option<seq<Record>>

  /** The week the job asks the upstream API for, if any. */
  function Queried(date: DateTime, now: DateTime): (q: Option<WeekKey>)
    requires date.Valid() && now.Valid()
    ensures q.Some? <==> Before(date, now) && WeekOf(date) != WeekOf(now)
    ensures q.Some? ==> q.value == WeekOf(date)
  {
    if Before(date, now) && WeekOf(date) != WeekOf(now) then Some(WeekOf(date)) else None
  }

  /** One run of the job at instant `now`. */
  function Tick(s: JobState, now: DateTime, fetch: Fetch): JobState
    requires s.date.Valid() && now.Valid()
  {
    if !Before(s.date, now) then s.(date := now)
    else match Queried(s.date, now)
      case None => JobState(now, s.records, s.records)
      case Some(k) =>
        match fetch(k)
        case None => s
        case Some(batch) => JobState(now, s.records + batch, s.records + batch)
  }

  class RefreshJob {
    /** The instant of the last run; the next run compares its week with the clock's. */
    var date: DateTime
    /** The records last written to the data file. */
    var saved: seq<Record>

    predicate Valid()
      reads this
    {
      date.Valid()
    }

    function State(store: RecordStore): JobState
      reads this, store
    {
      JobState(date, store.records, saved)
    }

    /** The job as the backend starts it: the store was just read from the data
        file, and the last run is the value the start text parses to,
        1 January 2022 (week 00), not the start of week 09 it names. */
    constructor (store: RecordStore)
      ensures Valid() && date == ParsedStart && WeekOf(date) == WeekKey(2022, 0)
      ensures saved == store.records
    {
      ParsedStartIsWeekZero();
      date := ParsedStart;
      saved := store.records;
    }

    method Run(store: RecordStore, now: DateTime, fetch: Fetch) returns (queried: Option<WeekKey>)
      requires Valid() && now.Valid()
      modifies this, store
      ensures Valid()
      ensures State(store) == Tick(old(State(store)), now, fetch)
      ensures queried == Queried(old(date), now)
    {
      if Before(date, now) {
        var last := WeekOf(date);
        queried := None;
        if last != WeekOf(now) {
          queried := Some(last);
          var answer := fetch(last);
          if answer.None? {
            return;
          }
          store.AppendAll(answer.value);
        }
        saved := store.records;
      } else {
        queried := None;
      }
      date := now;
    }
  }

  // ---- Properties of one run ----------------------------------------------

  /** A run that is not later than the last one only moves the last-run instant. */
  lemma TickNotDue(s: JobState, now: DateTime, fetch: Fetch)
    requires s.date.Valid() && now.Valid() && !Before(s.date, now)
    ensures Tick(s, now, fetch) == JobState(now, s.records, s.saved)
    ensures Queried(s.date, now) == None
  {
  }

  /** A later run in the same week fetches nothing, but still rewrites the data file. */
  lemma TickSameWeek(s: JobState, now: DateTime, fetch: Fetch)
    requires s.date.Valid() && now.Valid() && Before(s.date, now) && WeekOf(s.date) == WeekOf(now)
    ensures Tick(s, now, fetch) == JobState(now, s.records, s.records)
    ensures Queried(s.date, now) == None
  {
  }

  /** A run in a new week asks for the week of the previous run; on success it
      appends the answer and saves the result, on failure it changes nothing,
      not even the last-run instant. */
  lemma TickNewWeek(s: JobState, now: DateTime, fetch: Fetch)
    requires s.date.Valid() && now.Valid() && Before(s.date, now) && WeekOf(s.date) != WeekOf(now)
    ensures Queried(s.date, now) == Some(WeekOf(s.date))
    ensures fetch(WeekOf(s.date)).None? ==> Tick(s, now, fetch) == s
    ensures fetch(WeekOf(s.date)).Some? ==>
      var b := fetch(WeekOf(s.date)).value;
      Tick(s, now, fetch) == JobState(now, s.records + b, s.records + b)
  {
  }

  /** The job never removes or reorders a record: the old list is a prefix of
      the new one, and every record added came from the upstream answer. */
  lemma TickExtends(s: JobState, now: DateTime, fetch: Fetch)
    requires s.date.Valid() && now.Valid()
    ensures var t := Tick(s, now, fetch);
      && |s.records| <= |t.records|
      && t.records[..|s.records|] == s.records
      && (|t.records| > |s.records| ==>
            Queried(s.date, now).Some? && fetch(Queried(s.date, now).value) == Some(t.records[|s.records|..]))
  {
  }

  /** A second run at the same instant as a completed one does nothing and asks for nothing. */
  lemma TickSettles(s: JobState, now: DateTime, fetch: Fetch)
    requires s.date.Valid() && now.Valid()
    requires Tick(s, now, fetch).date == now
    ensures Tick(Tick(s, now, fetch), now, fetch) == Tick(s, now, fetch)
    ensures Queried(now, now) == None
  {
  }

  /** The job adds what it fetches without looking at ids, so a week fetched
      twice, or a record already present, leaves two records with one id. */
  lemma TickCanDuplicateIds(r: Record, now: DateTime)
    requires now.Valid() && Before(February28, now) && WeekOf(now) != WeekKey(2022, 9)
    ensures February28.Valid()
    ensures var s := JobState(February28, [r], [r]);
      Unique(s.records) && !Unique(Tick(s, now, Answering([r])).records)
  {
    SampleWeeks();
    var t := Tick(JobState(February28, [r], [r]), now, Answering([r]));
    assert t.records == [r, r];
    assert t.records[0].recordid == t.records[1].recordid;
  }

  /** An upstream that answers every week with the same records. */
  function Answering(batch: seq<Record>): Fetch {
    (k: WeekKey) => Some(batch)
  }

  // ---- The week asked for is always a past week ---------------------------

  /** `a` comes before `b` in "%Y-%W" order. */
  predicate WeekBefore(a: WeekKey, b: WeekKey) {
    a.year < b.year || (a.year == b.year && a.week < b.week)
  }

  lemma DayOfYearMonotone(a: DateTime, b: DateTime)
    requires a.Valid() && b.Valid() && a.year == b.year
    requires a.month < b.month || (a.month == b.month && a.day <= b.day)
    ensures DayOfYear(a) <= DayOfYear(b)
  {
  }

  /** Within a year, a later day never has a smaller week number. */
  lemma WeekMonotone(a: DateTime, b: DateTime)
    requires a.Valid() && b.Valid() && a.year == b.year && DayOfYear(a) <= DayOfYear(b)
    ensures WeekOf(a).week <= WeekOf(b).week
  {
    var c := DaysBeforeYear(a.year) + 7;
    var da, db := DayOfYear(a), DayOfYear(b);
    var qa, qb := (c + da) / 7, (c + db) / 7;
    assert Ordinal(a) + 6 == c + da && Ordinal(b) + 6 == c + db;
    assert da + 7 - Weekday(a) == 7 * qa - c + 7;
    assert db + 7 - Weekday(b) == 7 * qb - c + 7;
    assert qa <= qb;
  }

  /** An earlier instant has an earlier or equal week key. */
  lemma WeekOfMonotone(a: DateTime, b: DateTime)
    requires a.Valid() && b.Valid() && Before(a, b)
    ensures WeekOf(a) == WeekOf(b) || WeekBefore(WeekOf(a), WeekOf(b))
  {
    if a.year == b.year {
      DayOfYearMonotone(a, b);
      WeekMonotone(a, b);
    }
  }

  /** The job only ever asks for a week that is already over. */
  lemma QueriedIsPastWeek(date: DateTime, now: DateTime)
    requires date.Valid() && now.Valid()
    ensures Queried(date, now).Some? ==> WeekBefore(Queried(date, now).value, WeekOf(now))
  {
    if Queried(date, now).Some? {
      WeekOfMonotone(date, now);
    }
  }

  // ---- Weeks without a run -------------------------------------------------

  /** Monday 28 February 2022, in week 09. */
  const February28: DateTime := DateTime(2022, 2, 28, 0, 0, 0, 0)

  /** Tuesday 8 March 2022, in week 10. */
  const March8: DateTime := DateTime(2022, 3, 8, 0, 0, 0, 0)

  /** Monday 14 March 2022, in week 11. */
  const March14: DateTime := DateTime(2022, 3, 14, 0, 0, 0, 0)

  /** Tuesday 15 March 2022, in week 11. */
  const March15: DateTime := DateTime(2022, 3, 15, 0, 0, 0, 0)

  lemma SampleWeeks()
    ensures February28.Valid() && WeekOf(February28) == WeekKey(2022, 9)
    ensures March8.Valid() && WeekOf(March8) == WeekKey(2022, 10)
    ensures March14.Valid() && WeekOf(March14) == WeekKey(2022, 11)
    ensures March15.Valid() && WeekOf(March15) == WeekKey(2022, 11)
  {
    assert DaysBeforeYear(2022) == 738155;
    assert Ordinal(February28) + 6 == 7 * 105460;
    assert Ordinal(March8) + 6 == 7 * 105461 + 1;
    assert Ordinal(March14) + 6 == 7 * 105462;
    assert Ordinal(March15) + 6 == 7 * 105462 + 1;
  }

  /** The weeks asked of the upstream API by runs at the readings `nows`, in
      order, starting from state `s` (`None` for a run that asks nothing). */
  function Asked(s: JobState, nows: seq<DateTime>, fetch: Fetch): seq<Option<WeekKey>>
    requires s.date.Valid() && forall i :: 0 <= i < |nows| ==> nows[i].Valid()
    decreases |nows|
  {
    if nows == [] then []
    else [Queried(s.date, nows[0])] + Asked(Tick(s, nows[0], fetch), nows[1..], fetch)
  }

  /** An instant not before 14 March 2022 is not in week 10 of 2022. */
  lemma NotWeekTen(d: DateTime)
    requires d.Valid() && !Before(d, March14)
    ensures WeekOf(d) != WeekKey(2022, 10)
  {
    SampleWeeks();
    if d != March14 {
      WeekOfMonotone(March14, d);
    }
  }

  /** While the last run and every clock reading are on or after 14 March 2022,
      no run asks for week 10: each run either keeps the last-run instant or
      moves it to its own reading. */
  lemma {:induction false} NoRunAsksWeekTen(s: JobState, nows: seq<DateTime>, fetch: Fetch)
    requires s.date.Valid() && !Before(s.date, March14)
    requires forall i :: 0 <= i < |nows| ==> nows[i].Valid() && !Before(nows[i], March14)
    ensures Some(WeekKey(2022, 10)) !in Asked(s, nows, fetch)
    decreases |nows|
  {
    if nows != [] {
      NotWeekTen(s.date);
      NoRunAsksWeekTen(Tick(s, nows[0], fetch), nows[1..], fetch);
    }
  }

  /** A week with no run in it is skipped: after a run in week 09, a successful
      run on 14 March (week 11) asks for week 09, and no run after it whose
      clock reads no earlier than 14 March ever asks for week 10. */
  lemma TickSkipsWeek(rs: seq<Record>, fetch: Fetch, nows: seq<DateTime>)
    requires fetch(WeekKey(2022, 9)).Some?
    requires forall i :: 0 <= i < |nows| ==> nows[i].Valid() && !Before(nows[i], March14)
    ensures February28.Valid() && March14.Valid()
    ensures var asked := Asked(JobState(February28, rs, rs), [March14] + nows, fetch);
      |asked| == 1 + |nows| && asked[0] == Some(WeekKey(2022, 9)) && Some(WeekKey(2022, 10)) !in asked
  {
    SampleWeeks();
    var s := JobState(February28, rs, rs);
    var t := Tick(s, March14, fetch);
    assert t.date == March14;
    assert ([March14] + nows)[1..] == nows;
    NoRunAsksWeekTen(t, nows, fetch);
    AskedLength(t, nows, fetch);
  }

  lemma {:induction false} AskedLength(s: JobState, nows: seq<DateTime>, fetch: Fetch)
    requires s.date.Valid() && forall i :: 0 <= i < |nows| ==> nows[i].Valid()
    ensures |Asked(s, nows, fetch)| == |nows|
    decreases |nows|
  {
    if nows != [] {
      AskedLength(Tick(s, nows[0], fetch), nows[1..], fetch);
    }
  }

  /** With a clock that goes back, the skipped week can still be asked for: a
      run on 14 March, one on 8 March and one on 15 March ask for week 10. */
  lemma ClockBackAsksWeekTen(rs: seq<Record>, fetch: Fetch)
    ensures March8.Valid() && March14.Valid() && March15.Valid()
    ensures Asked(JobState(March14, rs, rs), [March8, March15], fetch) == [None, Some(WeekKey(2022, 10))]
  {
    SampleWeeks();
    var s := JobState(March14, rs, rs);
    var t := Tick(s, March8, fetch);
    assert t.date == March8;
    assert Queried(March14, March8) == None;
    assert Queried(March8, March15) == Some(WeekKey(2022, 10));
    assert [March8, March15][1..] == [March15];
    assert Asked(t, [March15], fetch) == [Some(WeekKey(2022, 10))] + Asked(Tick(t, March15, fetch), [], fetch);
  }

  // ---- The start value ----------------------------------------------------

  /** With the start value as the backend parses it, the first run in 2022
      after its first week asks for week 00 of 2022. */
  lemma FirstRunAsWritten(now: DateTime)
    requires now.Valid() && now.year == 2022 && WeekOf(now).week != 0
    ensures Queried(ParsedStart, now) == Some(WeekKey(2022, 0))
  {
  }

  /** With the intended start value, the first run after week 09 of 2022 asks
      for week 09 of 2022. */
  lemma FirstRunIntended(now: DateTime)
    requires now.Valid() && Before(IntendedStart, now) && WeekOf(now) != WeekKey(2022, 9)
    ensures Queried(IntendedStart, now) == Some(WeekKey(2022, 9))
  {
  }
}
