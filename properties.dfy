/** What the store operations promise, proved from their specifications in `Records`. */
module StoreProperties {
  import opened Seqs
  import opened Clock
  import opened Records

  // ---- Create -------------------------------------------------------------

  /** A body without `recordid` is refused before anything else is looked at,
      and a refused create leaves the store as it was. */
  lemma CreateRejects(rs: seq<Record>, body: Body, scope: Scope, now: DateTime)
    requires now.Valid()
    ensures IdKey !in body ==> CreateSpec(rs, body, scope, now) == Step(MissingKey, rs)
    ensures IdKey in body && IdUsed(rs, body[IdKey]) ==>
      CreateSpec(rs, body, scope, now).outcome in {Duplicate, Conflict}
    ensures IdKey in body && Conflicts(body, scope) ==>
      CreateSpec(rs, body, scope, now) == Step(Conflict, rs)
    ensures !CreateSpec(rs, body, scope, now).outcome.Created? ==> CreateSpec(rs, body, scope, now).records == rs
  {
  }

  /** A create succeeds exactly when the body has an id, agrees with the path
      and names an id not in use; it then appends one record built from the
      allow-listed body keys and the path seeds, and leaves the rest alone. */
  lemma CreateAppendsAllowListed(rs: seq<Record>, body: Body, scope: Scope, now: DateTime)
    requires now.Valid()
    ensures CreateSpec(rs, body, scope, now).outcome.Created? <==>
      IdKey in body && !Conflicts(body, scope) && !IdUsed(rs, body[IdKey])
    ensures var s := CreateSpec(rs, body, scope, now);
      s.outcome.Created? ==>
        var rec := s.outcome.record;
        && s.records == rs + [rec]
        && |s.records| == |rs| + 1 && s.records[..|rs|] == rs
        && rec.recordid == body[IdKey]
        && rec.datasetid == DatasetId
        && rec.timestamp == StampAsWritten(now)
        && rec.fields.Keys == (body.Keys * AllowList) + Seeds(scope).Keys
        && (forall k :: k in body && k in AllowList ==> rec.fields[k] == body[k])
        && "effectif_cumu_termine" !in rec.fields && "datasetid" !in rec.fields
        && (forall i :: 0 <= i < |Conditions(scope)| ==>
              rec.fields[Conditions(scope)[i].field] == Str(Conditions(scope)[i].value))
  {
    var s := CreateSpec(rs, body, scope, now);
    if s.outcome.Created? {
      assert (rs + [s.outcome.record])[..|rs|] == rs;
      assert "effectif_cumu_termine" !in AllowList && "datasetid" !in AllowList;
    }
  }

  /** A key outside the allow-list cannot clash with a path value. */
  lemma ConflictsIgnoresUnknownKeys(body: Body, scope: Scope, k: string, v: Value)
    requires k !in AllowList
    ensures Conflicts(body[k := v], scope) == Conflicts(body, scope)
  {
    assert k !in Seeds(scope);
    if Conflicts(body[k := v], scope) {
      var j :| j in Seeds(scope) && j in body[k := v] && body[k := v][j] != Seeds(scope)[j];
      assert j in body && body[j] != Seeds(scope)[j];
    }
    if Conflicts(body, scope) {
      var j :| j in Seeds(scope) && j in body && body[j] != Seeds(scope)[j];
      assert j in body[k := v] && body[k := v][j] != Seeds(scope)[j];
    }
  }

  /** Keys outside the allow-list (other than `recordid`) make no difference to a create. */
  lemma CreateIgnoresUnknownKeys(rs: seq<Record>, body: Body, scope: Scope, now: DateTime, k: string, v: Value)
    requires now.Valid()
    requires k !in AllowList && k != IdKey
    ensures CreateSpec(rs, body[k := v], scope, now) == CreateSpec(rs, body, scope, now)
  {
    ConflictsIgnoresUnknownKeys(body, scope, k, v);
    if IdKey in body && !Conflicts(body, scope) {
      assert k !in Seeds(scope);
      var seeds := Seeds(scope) - body.Keys;
      assert Seeds(scope) - body[k := v].Keys == seeds;
      assert Merge(seeds, body[k := v]) == Merge(seeds, body);
    }
  }

  /** Create keeps record ids unique. */
  lemma CreatePreservesUnique(rs: seq<Record>, body: Body, scope: Scope, now: DateTime)
    requires now.Valid() && Unique(rs)
    ensures Unique(CreateSpec(rs, body, scope, now).records)
  {
  }

  /** After a successful create, reading the new id returns the new record. */
  lemma CreateThenRead(rs: seq<Record>, body: Body, scope: Scope, now: DateTime, id: string)
    requires now.Valid()
    requires IdKey in body && body[IdKey] == Str(id)
    requires CreateSpec(rs, body, scope, now).outcome.Created?
    ensures var s := CreateSpec(rs, body, scope, now);
      ReadSpec(s.records, Str(id)) == Found(s.outcome.record)
  {
    var s := CreateSpec(rs, body, scope, now);
    var rs' := s.records;
    assert rs'[|rs|].recordid == Str(id);
    assert IdUsed(rs', Str(id));
    assert !IdUsed(rs, Str(id));
  }

  /** A second create with an id the first one stored is refused as a duplicate
      and leaves the store as the first left it. */
  lemma CreateTwiceIsDuplicate(rs: seq<Record>, body: Body, body': Body, scope: Scope, scope': Scope, now: DateTime, now': DateTime)
    requires now.Valid() && now'.Valid()
    requires CreateSpec(rs, body, scope, now).outcome.Created?
    requires IdKey in body' && body'[IdKey] == body[IdKey] && !Conflicts(body', scope')
    ensures var s := CreateSpec(rs, body, scope, now);
      CreateSpec(s.records, body', scope', now') == Step(Duplicate, s.records)
  {
    var s := CreateSpec(rs, body, scope, now);
    assert s.records[|rs|].recordid == body[IdKey];
  }

  // ---- Update -------------------------------------------------------------

  /** A successful update rewrites only the first record carrying the body's
      id: exactly the allow-listed body keys are overwritten and the timestamp
      refreshed; its id, dataset tag and other fields, the list length, the
      order and every other record stay as they were. */
  lemma UpdateFrame(rs: seq<Record>, body: Body, now: DateTime)
    requires now.Valid()
    ensures var s := UpdateSpec(rs, body, now);
      s.outcome.Updated? ==>
        && IdKey in body && IdUsed(rs, body[IdKey])
        && var i := IndexOf(rs, body[IdKey]).value;
        && (forall j :: 0 <= j < i ==> rs[j].recordid != body[IdKey])
        && |s.records| == |rs|
        && (forall j :: 0 <= j < |rs| && j != i ==> s.records[j] == rs[j])
        && s.records[i] == s.outcome.record
        && s.records[i].recordid == rs[i].recordid == body[IdKey]
        && s.records[i].datasetid == rs[i].datasetid
        && s.records[i].timestamp == StampAsWritten(now)
        && s.records[i].fields.Keys == rs[i].fields.Keys + (body.Keys * AllowList)
        && (forall k :: k in body && k in AllowList ==> s.records[i].fields[k] == body[k])
        && (forall k :: k in rs[i].fields && !(k in body && k in AllowList) ==>
              s.records[i].fields[k] == rs[i].fields[k])
  {
  }

  /** An update without an id in the body, or whose id matches no record,
      changes nothing. */
  lemma UpdateRejects(rs: seq<Record>, body: Body, now: DateTime)
    requires now.Valid()
    ensures UpdateSpec(rs, body, now).outcome == MissingKey <==> IdKey !in body
    ensures UpdateSpec(rs, body, now).outcome == NotFound <==> IdKey in body && !IdUsed(rs, body[IdKey])
    ensures !UpdateSpec(rs, body, now).outcome.Updated? ==> UpdateSpec(rs, body, now).records == rs
  {
  }

  /** Update keeps ids unique, and keeps `fields` within the allow-list. */
  lemma UpdatePreservesInvariants(rs: seq<Record>, body: Body, now: DateTime)
    requires now.Valid()
    ensures Unique(rs) ==> Unique(UpdateSpec(rs, body, now).records)
    ensures Confined(rs) ==> Confined(UpdateSpec(rs, body, now).records)
  {
  }

  /** A partial update keeps the fields the body leaves out. */
  lemma UpdateKeepsOmittedFields(now: DateTime)
    requires now.Valid()
    ensures
      var r := Record(Str("R1"), DatasetId, map[AgeField := Str("65-74"), CommuneField := Str("X")], "");
      var body := map[IdKey := Str("R1"), AgeField := Str("75+")];
      var s := UpdateSpec([r], body, now);
      s.outcome.Updated? &&
      s.records[0].fields == map[AgeField := Str("75+"), CommuneField := Str("X")]
  {
  }

  // ---- Delete -------------------------------------------------------------

  /** Delete removes every record with the id, not just the first, keeps the
      others in their order, and reports "deleted" exactly when it removed one. */
  lemma DeleteRemovesAllMatches(rs: seq<Record>, id: Value)
    ensures var s := DeleteSpec(rs, id);
      && !IdUsed(s.records, id)
      && IsSubseq(s.records, rs)
      && (forall r :: r in rs && r.recordid != id ==> r in s.records)
      && |s.records| == |rs| - |Filter(rs, HasId(id))|
      && (s.outcome == Deleted <==> |Filter(rs, HasId(id))| > 0)
      && (s.outcome == NotFound <==> s.records == rs)
  {
    var s := DeleteSpec(rs, id);
    FilterIsSubseq(rs, LacksId(id));
    FilterComplement(rs, LacksId(id), HasId(id));
    IdUsedIffShorter(rs, id);
    forall i | 0 <= i < |s.records| ensures s.records[i].recordid != id {
      assert s.records[i] in s.records;
    }
    if s.records == rs {
      assert !IdUsed(rs, id);
    }
    if !IdUsed(rs, id) {
      FilterKeepsAll(rs, LacksId(id));
    }
  }

  lemma {:induction false} FilterKeepsAll(rs: seq<Record>, p: Record -> bool)
    requires forall i :: 0 <= i < |rs| ==> p(rs[i])
    ensures Filter(rs, p) == rs
  {
    if rs != [] {
      FilterKeepsAll(rs[1..], p);
    }
  }

  /** After a delete, reading the id finds nothing. */
  lemma DeleteThenRead(rs: seq<Record>, id: Value)
    ensures ReadSpec(DeleteSpec(rs, id).records, id) == NotFound
  {
    DeleteRemovesAllMatches(rs, id);
  }

  /** Dropping records keeps ids unique. */
  lemma {:induction false} FilterKeepsUnique(rs: seq<Record>, p: Record -> bool)
    requires Unique(rs)
    ensures Unique(Filter(rs, p))
  {
    if rs != [] {
      assert Unique(rs[1..]);
      FilterKeepsUnique(rs[1..], p);
      var rest := Filter(rs[1..], p);
      if p(rs[0]) {
        forall j | 0 <= j < |rest| ensures rest[j].recordid != rs[0].recordid {
          assert rest[j] in rs[1..];
          var m :| 0 <= m < |rs[1..]| && rs[1..][m] == rest[j];
          assert rs[m + 1] == rest[j];
        }
        assert Filter(rs, p) == [rs[0]] + rest;
      } else {
        assert Filter(rs, p) == rest;
      }
    }
  }

  lemma DeletePreservesUnique(rs: seq<Record>, id: Value)
    requires Unique(rs)
    ensures Unique(DeleteSpec(rs, id).records)
  {
    FilterKeepsUnique(rs, LacksId(id));
  }

  // ---- Filters ------------------------------------------------------------

  function RowsOf(l: Listing): seq<Record> {
    if l.Rows? then l.rows else []
  }

  /** A filter returns, in store order, exactly the records that pass all of its
      tests, each as many times as the store holds it. */
  lemma SelectIsOrderedSubseq(rs: seq<Record>, scope: Scope)
    ensures IsSubseq(RowsOf(SelectSpec(rs, scope)), rs)
    ensures forall r :: r in RowsOf(SelectSpec(rs, scope)) <==> r in rs && Matches(r, Conditions(scope))
    ensures forall r ::
      multiset(RowsOf(SelectSpec(rs, scope)))[r] == (if Matches(r, Conditions(scope)) then multiset(rs)[r] else 0)
  {
    FilterIsSubseq(rs, MatchesAll(Conditions(scope)));
    FilterCounts(rs, MatchesAll(Conditions(scope)));
  }

  /** The unscoped listing is the whole store. */
  lemma SelectEverything(rs: seq<Record>)
    ensures SelectSpec(rs, Everything) == Rows(rs)
  {
    FilterKeepsAll(rs, MatchesAll([]));
  }

  /** Adding the week, then the age class, narrows the result to a subsequence. */
  lemma SelectNarrows(rs: seq<Record>, c: string, w: string, a: string)
    ensures IsSubseq(RowsOf(SelectSpec(rs, CommuneWeek(c, w))), RowsOf(SelectSpec(rs, Commune(c))))
    ensures IsSubseq(RowsOf(SelectSpec(rs, CommuneWeekAge(c, w, a))), RowsOf(SelectSpec(rs, CommuneWeek(c, w))))
  {
    var c1, c2, c3 := Conditions(Commune(c)), Conditions(CommuneWeek(c, w)), Conditions(CommuneWeekAge(c, w, a));
    forall r | MatchesAll(c2)(r) ensures MatchesAll(c1)(r) {
      assert c1[0] == c2[0];
    }
    forall r | MatchesAll(c3)(r) ensures MatchesAll(c2)(r) {
      assert c2[0] == c3[0] && c2[1] == c3[1];
    }
    FilterNarrows(rs, MatchesAll(c1), MatchesAll(c2));
    FilterNarrows(rs, MatchesAll(c2), MatchesAll(c3));
  }

  /** Only the three-test filter reports "No data", and only when nothing matches;
      the others answer an empty list instead. */
  lemma SelectEmptyAnswer(rs: seq<Record>, scope: Scope)
    ensures !scope.CommuneWeekAge? ==> SelectSpec(rs, scope).Rows?
    ensures scope.CommuneWeekAge? ==>
      (SelectSpec(rs, scope) == NoData <==> forall r :: r in rs ==> !Matches(r, Conditions(scope)))
  {
    var rows := Filter(rs, MatchesAll(Conditions(scope)));
    if rows != [] {
      assert rows[0] in rows;
    }
  }

  // ---- Distinct-value lists -----------------------------------------------

  /** A value list holds each observed value of the field exactly once, in order
      of first occurrence, and nothing else. */
  lemma DistinctValues(rs: seq<Record>, key: string)
    requires forall i :: 0 <= i < |rs| ==> key in rs[i].fields
    ensures var d := Dedup(Column(rs, key));
      && (forall v :: v in d <==> exists i :: 0 <= i < |rs| && rs[i].fields[key] == v)
      && (forall i, j :: 0 <= i < j < |d| ==> d[i] != d[j])
      && (forall i, j :: 0 <= i < j < |d| ==>
            FirstIndex(Column(rs, key), d[i]) < FirstIndex(Column(rs, key), d[j]))
  {
    var col := Column(rs, key);
    DedupFirstOccurrence(col);
    forall v ensures v in col <==> exists i :: 0 <= i < |rs| && rs[i].fields[key] == v {
      if v in col {
        var i :| 0 <= i < |col| && col[i] == v;
      }
    }
  }
}
