/** The vaccination records held by the backend and the meaning of each store
    operation, stated as functions of the record list before the call. */
module Records {
  import opened Seqs
  import opened Clock

  /** A JSON value as it arrives in a request body or is read from the data file:
      a string, or any other JSON value (number, boolean, null, array, object)
      identified by its JSON text. A decoded string is always `Str`, so `Other`
      never holds a string and each value has exactly one representation here.
      A path parameter is always a string. */
  datatype Value = Str(s: string) | Other(json: string)

  /** A decoded JSON request body. */
  type Body = map<string, Value>

  /** The `fields` object of a record. */
  type Fields = map<string, Value>

  /** One entry of the dataset. */
  datatype Record = Record(recordid: Value, datasetid: string, fields: Fields, timestamp: string)

  const DatasetId: string := "donnees-de-vaccination-par-commune"
  const IdKey: string := "recordid"
  const CommuneField: string := "commune_residence"
  const WeekField: string := "semaine_injection"
  const AgeField: string := "classe_age"

  /** The body keys that create and update copy into `fields`; every other key is ignored. */
  const AllowList: set<string> := {
    "classe_age", "commune_residence", "date", "date_reference", "effectif_cumu_1_inj",
    "libelle_classe_age", "libelle_commune", "population_carto", "semaine_injection",
    "taux_cumu_1_inj", "taux_cumu_termine"
  }

  /** The URL scope of a request: the whole dataset, one commune, one commune
      and injection week, or one commune, week and age class. */
  datatype Scope =
    | Everything
    | Commune(code: string)
    | CommuneWeek(code: string, week: string)
    | CommuneWeekAge(code: string, week: string, age: string)

  /** An equality test `str(value) == record["fields"][field]`. */
  datatype Condition = Condition(field: string, value: string)

  /** The tests a filter applies, in the order the backend evaluates them. */
  function Conditions(scope: Scope): seq<Condition> {
    match scope
    case Everything => []
    case Commune(c) => [Condition(CommuneField, c)]
    case CommuneWeek(c, w) => [Condition(CommuneField, c), Condition(WeekField, w)]
    case CommuneWeekAge(c, w, a) =>
      [Condition(CommuneField, c), Condition(WeekField, w), Condition(AgeField, a)]
  }

  /** The fields a scoped create pre-seeds from its path. */
  function Seeds(scope: Scope): (m: Fields)
    ensures m.Keys <= AllowList
    ensures forall i :: 0 <= i < |Conditions(scope)| ==>
      Conditions(scope)[i].field in m && m[Conditions(scope)[i].field] == Str(Conditions(scope)[i].value)
  {
    match scope
    case Everything => map[]
    case Commune(c) => map[CommuneField := Str(c)]
    case CommuneWeek(c, w) => map[CommuneField := Str(c), WeekField := Str(w)]
    case CommuneWeekAge(c, w, a) => map[CommuneField := Str(c), WeekField := Str(w), AgeField := Str(a)]
  }

  /** The body names a path-scoped field with a value other than the path's. */
  predicate Conflicts(body: Body, scope: Scope) {
    exists k :: k in Seeds(scope) && k in body && body[k] != Seeds(scope)[k]
  }

  /** `fields` after copying every allow-listed key of `body` over it. */
  function Merge(fields: Fields, body: Body): Fields {
    fields + map k | k in body.Keys * AllowList :: body[k]
  }

  /** Copying one more body key extends the merge by that key, if it is allow-listed. */
  lemma MergeOneMore(fields: Fields, body: Body, todo: set<string>, k: string)
    requires k in todo && todo <= body.Keys
    ensures Merge(fields, body - (todo - {k})) ==
      if k in AllowList then Merge(fields, body - todo)[k := body[k]] else Merge(fields, body - todo)
  {
    var before, after := body - todo, body - (todo - {k});
    assert after == before[k := body[k]];
  }

  /** The record a successful create appends. */
  function NewRecord(body: Body, scope: Scope, now: DateTime): (r: Record)
    requires IdKey in body && now.Valid()
    ensures r.recordid == body[IdKey] && r.datasetid == DatasetId && r.timestamp == StampAsWritten(now)
    ensures r.fields.Keys == (body.Keys * AllowList) + Seeds(scope).Keys
    ensures r.fields.Keys <= AllowList
    ensures forall k :: k in body && k in AllowList ==> r.fields[k] == body[k]
    ensures !Conflicts(body, scope) ==> forall k :: k in Seeds(scope) ==> r.fields[k] == Seeds(scope)[k]
  {
    Record(body[IdKey], DatasetId, Merge(Seeds(scope) - body.Keys, body), StampAsWritten(now))
  }

  /** The record after an update has overwritten it from `body`. */
  function Touch(r: Record, body: Body, now: DateTime): (r': Record)
    requires now.Valid()
  {
    r.(fields := Merge(r.fields, body), timestamp := StampAsWritten(now))
  }

  predicate IdUsed(rs: seq<Record>, id: Value) {
    exists i :: 0 <= i < |rs| && rs[i].recordid == id
  }

  /** No two records share a `recordid`. */
  predicate Unique(rs: seq<Record>) {
    forall i, j :: 0 <= i < j < |rs| ==> rs[i].recordid != rs[j].recordid
  }

  /** Every record's `fields` holds allow-listed keys only. */
  predicate Confined(rs: seq<Record>) {
    forall i :: 0 <= i < |rs| ==> rs[i].fields.Keys <= AllowList
  }

  /** Position of the first record with the given id. */
  function IndexOf(rs: seq<Record>, id: Value): (r: Option<nat>)
    ensures r.None? <==> !IdUsed(rs, id)
    ensures r.Some? ==> r.value < |rs| && rs[r.value].recordid == id
    ensures r.Some? ==> forall j :: 0 <= j < r.value ==> rs[j].recordid != id
  {
    if rs == [] then None
    else if rs[0].recordid == id then Some(0)
    else match IndexOf(rs[1..], id)
      case None => None
      case Some(k) => Some(k + 1)
  }

  function HasId(id: Value): Record -> bool {
    (r: Record) => r.recordid == id
  }

  function LacksId(id: Value): Record -> bool {
    (r: Record) => r.recordid != id
  }

  /** Some record has the id exactly when dropping the records that have it shortens the list. */
  lemma IdUsedIffShorter(rs: seq<Record>, id: Value)
    ensures IdUsed(rs, id) <==> |Filter(rs, LacksId(id))| < |rs|
  {
    FilterComplement(rs, LacksId(id), HasId(id));
    var hits := Filter(rs, HasId(id));
    if IdUsed(rs, id) {
      var i :| 0 <= i < |rs| && rs[i].recordid == id;
      assert rs[i] in hits;
    }
    if hits != [] {
      assert hits[0] in rs;
      var i :| 0 <= i < |rs| && rs[i] == hits[0];
    }
  }

  /** Every condition holds of the record's fields. */
  predicate Matches(r: Record, cs: seq<Condition>) {
    forall i :: 0 <= i < |cs| ==> cs[i].field in r.fields && r.fields[cs[i].field] == Str(cs[i].value)
  }

  function MatchesAll(cs: seq<Condition>): Record -> bool {
    (r: Record) => Matches(r, cs)
  }

  /** The conditions can be evaluated left to right, stopping at the first that
      fails, without looking up a field the record lacks. */
  predicate Evaluable(r: Record, cs: seq<Condition>) {
    cs == [] ||
    (cs[0].field in r.fields &&
     (r.fields[cs[0].field] == Str(cs[0].value) ==> Evaluable(r, cs[1..])))
  }

  /** The values of one field, record by record. */
  function Column(rs: seq<Record>, key: string): (vs: seq<Value>)
    requires forall i :: 0 <= i < |rs| ==> key in rs[i].fields
    ensures |vs| == |rs|
    ensures forall i :: 0 <= i < |rs| ==> vs[i] == rs[i].fields[key]
  {
    seq(|rs|, i requires 0 <= i < |rs| => rs[i].fields[key])
  }

  /** What a request reports. */
  datatype Outcome =
    | Created(record: Record)
    | Updated(record: Record)
    | Found(record: Record)
    | Deleted
    | MissingKey
    | Duplicate
    | Conflict
    | NotFound

  /** The response of a filter: the matching records, or the "No data" message. */
  datatype Listing = Rows(rows: seq<Record>) | NoData

  /** An operation's outcome together with the record list it leaves. */
  datatype Step = Step(outcome: Outcome, records: seq<Record>)

  function CreateSpec(rs: seq<Record>, body: Body, scope: Scope, now: DateTime): Step
    requires now.Valid()
  {
    if IdKey !in body then Step(MissingKey, rs)
    else if Conflicts(body, scope) then Step(Conflict, rs)
    else if IdUsed(rs, body[IdKey]) then Step(Duplicate, rs)
    else
      var rec := NewRecord(body, scope, now);
      Step(Created(rec), rs + [rec])
  }

  function ReadSpec(rs: seq<Record>, id: Value): Outcome {
    match IndexOf(rs, id)
    case None => NotFound
    case Some(i) => Found(rs[i])
  }

  function UpdateSpec(rs: seq<Record>, body: Body, now: DateTime): Step
    requires now.Valid()
  {
    if IdKey !in body then Step(MissingKey, rs)
    else match IndexOf(rs, body[IdKey])
      case None => Step(NotFound, rs)
      case Some(i) =>
        var rec := Touch(rs[i], body, now);
        Step(Updated(rec), rs[i := rec])
  }

  function DeleteSpec(rs: seq<Record>, id: Value): Step {
    Step(if IdUsed(rs, id) then Deleted else NotFound, Filter(rs, LacksId(id)))
  }

  function SelectSpec(rs: seq<Record>, scope: Scope): Listing {
    var rows := Filter(rs, MatchesAll(Conditions(scope)));
    if scope.CommuneWeekAge? && rows == [] then NoData else Rows(rows)
  }
}
