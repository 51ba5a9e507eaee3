/** The backend's process-wide record list and the request handlers that read
    and change it. Each handler is proved against the function in `Records`
    that states its meaning. */
module Store {
  import opened Seqs
  import opened Clock
  import opened Records

  /** Copies every allow-listed key of `body` into `fields`, one body key at a time. */
  method MergeAllowed(fields: Fields, body: Body) returns (merged: Fields)
    ensures merged == Merge(fields, body)
  {
    merged := fields;
    var todo := body.Keys;
    assert body - todo == map[];
    assert Merge(fields, map[]) == fields;
    while todo != {}
      invariant todo <= body.Keys
      invariant merged == Merge(fields, body - todo)
      decreases todo
    {
      var k :| k in todo;
      MergeOneMore(fields, body, todo, k);
      if k in AllowList {
        merged := merged[k := body[k]];
      }
      todo := todo - {k};
    }
    assert body - todo == body;
  }

  /** Evaluates the conditions left to right and stops at the first that fails,
      looking each field up directly. */
  method Passes(r: Record, cs: seq<Condition>) returns (ok: bool)
    requires Evaluable(r, cs)
    ensures ok == Matches(r, cs)
  {
    var j := 0;
    while j < |cs|
      invariant 0 <= j <= |cs|
      invariant Evaluable(r, cs[j..])
      invariant forall i :: 0 <= i < j ==> cs[i].field in r.fields && r.fields[cs[i].field] == Str(cs[i].value)
    {
      if r.fields[cs[j].field] != Str(cs[j].value) {
        return false;
      }
      assert cs[j..][1..] == cs[j + 1..];
      j := j + 1;
    }
    return true;
  }

  /** Copies the records whose id differs from `id`, noting whether any had it. */
  method Without(rs: seq<Record>, id: Value) returns (kept: seq<Record>, found: bool)
    ensures kept == Filter(rs, LacksId(id))
    ensures found == IdUsed(rs, id)
  {
    found := false;
    kept := [];
    var i := 0;
    while i < |rs|
      invariant 0 <= i <= |rs|
      invariant kept == Filter(rs[..i], LacksId(id))
      invariant found <==> |kept| < i
    {
      var r := rs[i];
      FilterSnoc(rs, i, LacksId(id));
      if r.recordid == id {
        found := true;
      } else {
        kept := kept + [r];
      }
      i := i + 1;
    }
    assert rs[..i] == rs;
    IdUsedIffShorter(rs, id);
  }

  class RecordStore {
    /** The records, in the order the handlers list them. */
    var records: seq<Record>

    /** The store as loaded from the data file at start-up. */
    constructor (loaded: seq<Record>)
      ensures records == loaded
    {
      records := loaded;
    }

    /** POST on the dataset or on one of its scopes: builds the record from the
        body and the path, then appends it unless its id is already used. */
    method Create(body: Body, scope: Scope, now: DateTime) returns (o: Outcome)
      requires now.Valid()
      modifies this
      ensures Step(o, records) == CreateSpec(old(records), body, scope, now)
    {
      if IdKey !in body {
        return MissingKey;
      }
      if Conflicts(body, scope) {
        return Conflict;
      }
      var fields := MergeAllowed(Seeds(scope) - body.Keys, body);
      var rec := Record(body[IdKey], DatasetId, fields, StampAsWritten(now));
      var i := 0;
      while i < |records|
        invariant 0 <= i <= |records|
        invariant forall j :: 0 <= j < i ==> records[j].recordid != rec.recordid
      {
        if records[i].recordid == rec.recordid {
          return Duplicate;
        }
        i := i + 1;
      }
      records := records + [rec];
      o := Created(rec);
    }

    /** GET on one record: the first record whose id is the path's. */
    method ReadOne(id: string) returns (o: Outcome)
      ensures o == ReadSpec(records, Str(id))
    {
      var i := 0;
      while i < |records|
        invariant 0 <= i <= |records|
        invariant forall j :: 0 <= j < i ==> records[j].recordid != Str(id)
      {
        if records[i].recordid == Str(id) {
          return Found(records[i]);
        }
        i := i + 1;
      }
      return NotFound;
    }

    /** PUT on a record or a scope: overwrites the first record whose id is the
        BODY's `recordid`; the path's id plays no part. */
    method Update(id: string, body: Body, now: DateTime) returns (o: Outcome)
      requires now.Valid()
      modifies this
      ensures Step(o, records) == UpdateSpec(old(records), body, now)
    {
      if IdKey !in body {
        return MissingKey;
      }
      var target := body[IdKey];
      var i := 0;
      while i < |records|
        invariant 0 <= i <= |records|
        invariant records == old(records)
        invariant forall j :: 0 <= j < i ==> records[j].recordid != target
      {
        if records[i].recordid == target {
          var fields := MergeAllowed(records[i].fields, body);
          var rec := records[i].(fields := fields, timestamp := StampAsWritten(now));
          records := records[i := rec];
          return Updated(rec);
        }
        i := i + 1;
      }
      return NotFound;
    }

    /** DELETE on a record: keeps every record whose id differs from the path's. */
    method Delete(id: string) returns (o: Outcome)
      modifies this
      ensures Step(o, records) == DeleteSpec(old(records), Str(id))
    {
      var kept, found := Without(records, Str(id));
      records := kept;
      o := if found then Deleted else NotFound;
    }

    /** GET on a scope: the records that pass all of the scope's tests, in order. */
    method Select(scope: Scope) returns (l: Listing)
      requires forall i :: 0 <= i < |records| ==> Evaluable(records[i], Conditions(scope))
      ensures l == SelectSpec(records, scope)
    {
      var cs := Conditions(scope);
      var rows: seq<Record> := [];
      var i := 0;
      while i < |records|
        invariant 0 <= i <= |records|
        invariant rows == Filter(records[..i], MatchesAll(cs))
      {
        FilterSnoc(records, i, MatchesAll(cs));
        var ok := Passes(records[i], cs);
        if ok {
          rows := rows + [records[i]];
        }
        i := i + 1;
      }
      assert records[..i] == records;
      if scope.CommuneWeekAge? && rows == [] {
        l := NoData;
      } else {
        l := Rows(rows);
      }
    }

    /** GET on a value list: each value of field `key` once, in order of first
        occurrence, over the whole store whatever the request's scope. */
    method ListDistinct(key: string, scope: Scope) returns (vals: seq<Value>)
      requires forall i :: 0 <= i < |records| ==> key in records[i].fields
      ensures vals == Dedup(Column(records, key))
    {
      vals := [];
      var i := 0;
      while i < |records|
        invariant 0 <= i <= |records|
        invariant vals == Dedup(Column(records[..i], key))
      {
        var v := records[i].fields[key];
        var xs := Column(records[..i + 1], key);
        assert xs[..i] == Column(records[..i], key);
        assert xs[i] == v;
        if v !in vals {
          vals := vals + [v];
        }
        i := i + 1;
      }
      assert records[..i] == records;
    }

    /** Appends a fetched batch verbatim, in order, with no id check. */
    method AppendAll(batch: seq<Record>)
      modifies this
      ensures records == old(records) + batch
    {
      var i := 0;
      while i < |batch|
        invariant 0 <= i <= |batch|
        invariant records == old(records) + batch[..i]
      {
        records := records + [batch[i]];
        assert batch[..i + 1] == batch[..i] + [batch[i]];
        i := i + 1;
      }
      assert batch[..i] == batch;
    }
  }
}
