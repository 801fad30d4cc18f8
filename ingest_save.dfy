/** `save_data` of `proco/schools/loaders/ingest.py`: the legacy importer's
    row loop. Every non-empty row is checked (IngestRows.Examine); a row that
    passes saves its school at once (updating the school it matched, or
    creating one) and queues a weekly status for the current week. The queue
    is written out (that week's records of the queued schools deleted, the
    queue inserted) whenever the row number is a positive multiple of 5000,
    and once more at the end. */
module IngestSave {
  import opened Wrappers
  import opened Collections
  import opened SchoolModels
  import opened ConnectionStatistics
  import opened Validation
  import opened Store
  import opened PipelineRows
  import opened IngestRows
  import PipelineStatuses

  /** Rows between two writes of the queued statuses. */
  const FlushEvery: nat := 5000

  /** What one call works with: the checks' configuration, the country, and
      the ISO (year, week) of the day it runs, with the calendar that gives a
      week's first day. */
  datatype Params = Params(config: Config, country: CountryId, year: int, week: int, weekStart: (int, int) -> Date)

  /** The two tables and their id counters, as values. */
  datatype Tables = Tables(schools: seq<School>, statuses: seq<SchoolWeeklyStatus>, nextSchoolId: nat, nextStatusId: nat)

  /** The loop's own variables: the messages so far, the queued statuses and
      the ids of their schools (`updated_schools`); `raised` records that a
      write of the queue raised, which ends the call. */
  datatype Batch = Batch(errors: seq<string>, warnings: seq<string>, pending: seq<SchoolWeeklyStatus>, updated: seq<SchoolId>,
                         raised: bool)

  const EmptyBatch := Batch([], [], [], [], false)

  function Snapshot(db: Database): Tables
    reads db
  {
    Tables(db.schools, db.statuses, db.nextSchoolId, db.nextStatusId)
  }

  // ------------------------------------------------------------ one saved row

  /** `School(**school_data)`: the columns the row supplies, every other text
      column blank. This model of the School table has no lower-cased name
      that the legacy importer would fill, so it stays blank too. */
  function IngestSchool(sd: SchoolData): (s: School)
    ensures s.country == sd.country && s.geopoint == sd.geopoint && s.lastWeeklyStatus.None?
    ensures s.name == sd.name.GetOr("") && s.externalId == sd.externalId.GetOr("")
    ensures s.environment == sd.environment.GetOr("") && s.admin1Name == sd.admin1Name.GetOr("")
  {
    School(0, sd.country, sd.externalId.GetOr(""), sd.name.GetOr(""), "", sd.geopoint,
           sd.educationLevel.GetOr(""), sd.admin1Name.GetOr(""), sd.admin2Name.GetOr(""),
           sd.admin3Name.GetOr(""), sd.admin4Name.GetOr(""), sd.environment.GetOr(""),
           sd.address.GetOr(""), sd.schoolType.GetOr(""), None)
  }

  /** The matched school after `setattr` of every `school_data` entry and a
      save. */
  function Resaved(stored: School, sd: SchoolData): (r: School)
    ensures r.id == stored.id && r.lastWeeklyStatus == stored.lastWeeklyStatus
  {
    CopyFields(stored, IngestSchool(sd), Keys(sd))
  }

  /** The supplied columns take the row's values; the others keep the stored
      ones. */
  lemma ResavedTakesRow(stored: School, sd: SchoolData)
    ensures var r := Resaved(stored, sd);
            && r.country == sd.country && r.geopoint == sd.geopoint
            && r.name == (if sd.name.Some? then sd.name.value else stored.name)
            && r.externalId == (if sd.externalId.Some? then sd.externalId.value else stored.externalId)
            && r.address == (if sd.address.Some? then sd.address.value else stored.address)
  {
    KeysNamed(sd);
  }

  /** The status queued for a saved school: a fresh record for the current
      week with the row's history columns, its date and its connectivity
      status computed before the bulk insert. */
  function Record(p: Params, id: SchoolId, hd: HistoryData): (r: SchoolWeeklyStatus)
    ensures r.school == id && r.year == p.year && r.week == p.week
    ensures r.date == p.weekStart(p.year, p.week)
    ensures StatusConsistent(r)
    ensures PipelineStatuses.Supplied(r, hd)
  {
    SaveSchoolWeeklyStatus(PipelineStatuses.ApplyHistory(DefaultStatus(id, p.year, p.week, 0), hd), p.weekStart)
  }

  /** The columns the row does not supply are at their defaults. */
  lemma RecordDefaults(p: Params, id: SchoolId, hd: HistoryData)
    requires hd.numStudents.None? && hd.connectivity.None? && hd.connectivitySpeed.None?
    ensures var r := Record(p, id, hd);
            r.numStudents == 0 && !r.connectivity && r.connectivityStatus == No
  {
    PipelineStatuses.ApplyHistoryUnique(PipelineStatuses.ApplyHistory(DefaultStatus(id, p.year, p.week, 0), hd),
                                        DefaultStatus(id, p.year, p.week, 0), hd);
  }

  /** In a year and week the columns can hold, the queued status fits the
      table exactly when the row's history does. */
  lemma RecordStorable(p: Params, id: SchoolId, hd: HistoryData)
    requires FitsPositiveSmallInt(p.year) && FitsPositiveSmallInt(p.week)
    ensures Storable(Record(p, id, hd), p.config.env.parseInt) <==> PipelineStatuses.HistoryFits(hd, p.config.env.parseInt)
  {
    PipelineStatuses.ApplyHistoryStorable(DefaultStatus(id, p.year, p.week, 0), hd, p.config.env.parseInt);
  }

  /** The tables after the matched school at `k` is saved with the row. */
  function SaveInto(t: Tables, k: nat, sd: SchoolData): Tables
    requires k < |t.schools|
  {
    t.(schools := t.schools[k := Resaved(t.schools[k], sd)])
  }

  /** The tables after `School.objects.create(**school_data)`. */
  function CreateIn(t: Tables, sd: SchoolData): Tables {
    t.(schools := t.schools + NumberSchools([IngestSchool(sd)], t.nextSchoolId), nextSchoolId := t.nextSchoolId + 1)
  }

  /** The insert of the queue raises: two records for one school, or a
      small-integer column given a value it cannot hold. */
  predicate WriteFails(p: Params, pending: seq<SchoolWeeklyStatus>) {
    HasDuplicateSchool(pending) || !AllStorable(pending, p.config.env.parseInt)
  }

  /** The tables after the queued statuses are written: the week's records of
      the queued schools are deleted and the queue is inserted with fresh ids,
      unless the insert raises, in which case only the delete has happened. */
  function Flush(p: Params, t: Tables, pending: seq<SchoolWeeklyStatus>): Tables {
    var inserted := if WriteFails(p, pending) then [] else NumberStatuses(pending, t.nextStatusId);
    t.(statuses := Filter(t.statuses, OutsideWeek(StatusSchools(pending), p.year, p.week)) + inserted,
       nextStatusId := t.nextStatusId + |inserted|)
  }

  /** Row `i` saves its school and queues its status. */
  function Kept(p: Params, t: Tables, b: Batch, found: Option<nat>, sd: SchoolData, hd: HistoryData): (Tables, Batch)
    requires found.Some? ==> found.value < |t.schools|
  {
    if found.Some? then
      var id := t.schools[found.value].id;
      (SaveInto(t, found.value, sd), b.(pending := b.pending + [Record(p, id, hd)], updated := b.updated + [id]))
    else
      var id := t.nextSchoolId;
      (CreateIn(t, sd), b.(pending := b.pending + [Record(p, id, hd)], updated := b.updated + [id]))
  }

  /** The queue is written after the row with this (zero-based) number. */
  predicate FlushesAt(i: nat) {
    i > 0 && i % FlushEvery == 0
  }

  /** What a verdict on row number `i` does (the row is reported as i + 2,
      after the header). */
  function Apply(p: Params, t: Tables, b: Batch, i: nat, v: Verdict): (Tables, Batch)
    requires v.Keep? && v.found.Some? ==> v.found.value < |t.schools|
  {
    match v
    case Skip => (t, b)
    case Reject(e) => (t, b.(errors := b.errors + [RowMessage(i + 2, e)]))
    case Warn(w) => (t, b.(warnings := b.warnings + [RowMessage(i + 2, w)]))
    case Keep(found, sd, hd) =>
      var next := Kept(p, t, b, found, sd, hd);
      if FlushesAt(i) then
        (Flush(p, next.0, next.1.pending), next.1.(pending := [], updated := [], raised := WriteFails(p, next.1.pending)))
      else next
  }

  /** One pass of the loop body for row number `i`; once a write has raised
      no further row is read. */
  function Step(p: Params, t: Tables, b: Batch, i: nat, raw: RawRow): (Tables, Batch) {
    if b.raised then (t, b)
    else Apply(p, t, b, i, Examine(p.config, p.country, t.schools, b.updated, CleanCells(raw)))
  }

  /** The loop over the first |rows| rows. */
  function Run(p: Params, t: Tables, b: Batch, rows: seq<RawRow>): (Tables, Batch) {
    if rows == [] then (t, b)
    else
      var before := Run(p, t, b, rows[..|rows| - 1]);
      Step(p, before.0, before.1, |rows| - 1, rows[|rows| - 1])
  }

  /** The write after the loop, when the loop ended normally and anything is
      queued. */
  function Finish(p: Params, t: Tables, b: Batch): Tables {
    if !b.raised && |b.pending| > 0 then Flush(p, t, b.pending) else t
  }

  /** `save_data` ends in an exception: a write inside the loop raised, or the
      last one does. */
  predicate SaveRaises(p: Params, b: Batch) {
    b.raised || (|b.pending| > 0 && WriteFails(p, b.pending))
  }

  // -------------------------------------------------------- the queue is sound

  /** Every school id is below the next one to be given out. */
  ghost predicate TablesOk(t: Tables) {
    forall k :: 0 <= k < |t.schools| ==> t.schools[k].id < t.nextSchoolId
  }

  /** The queue holds one status of the current week per id in `updated`, in
      the same order, and no id twice. */
  ghost predicate BatchOk(p: Params, t: Tables, b: Batch) {
    && |b.pending| == |b.updated|
    && (forall k :: 0 <= k < |b.pending| ==>
          b.pending[k].school == b.updated[k] && b.pending[k].year == p.year && b.pending[k].week == p.week)
    && Distinct(b.updated)
    && (forall k :: 0 <= k < |b.updated| ==> b.updated[k] < t.nextSchoolId)
  }

  /** A sound queue never names a school twice, so the week's delete and
      insert cannot collide with itself. */
  lemma NoDuplicateInBatch(p: Params, t: Tables, b: Batch)
    requires BatchOk(p, t, b)
    ensures !HasDuplicateSchool(b.pending)
  {
    forall i, j | 0 <= i < j < |b.pending| ensures b.pending[i].school != b.pending[j].school {
      assert b.updated[i] != b.updated[j];
    }
  }

  /** Saving a row that is not a duplicate keeps the queue sound. */
  lemma KeptBatchOk(p: Params, t: Tables, b: Batch, found: Option<nat>, sd: SchoolData, hd: HistoryData)
    requires TablesOk(t) && BatchOk(p, t, b)
    requires found.Some? ==> found.value < |t.schools| && t.schools[found.value].id !in b.updated
    ensures var next := Kept(p, t, b, found, sd, hd);
            TablesOk(next.0) && BatchOk(p, next.0, next.1)
  {
    var next := Kept(p, t, b, found, sd, hd);
    var id := if found.Some? then t.schools[found.value].id else t.nextSchoolId;
    assert next.1.updated == b.updated + [id];
    assert id !in b.updated by {
      if found.None? {
        forall k | 0 <= k < |b.updated| ensures b.updated[k] != id {
        }
      }
    }
    forall i, j | 0 <= i < j < |next.1.updated| ensures next.1.updated[i] != next.1.updated[j] {
      if j == |b.updated| {
        assert next.1.updated[i] == b.updated[i];
      }
    }
  }

  /** A verdict that saves into a school not yet in the queue keeps the
      tables and the queue sound. */
  lemma ApplyBatchOk(p: Params, t: Tables, b: Batch, i: nat, v: Verdict)
    requires TablesOk(t) && BatchOk(p, t, b)
    requires v.Keep? && v.found.Some? ==> v.found.value < |t.schools| && t.schools[v.found.value].id !in b.updated
    ensures var after := Apply(p, t, b, i, v);
            TablesOk(after.0) && BatchOk(p, after.0, after.1)
  {
    if v.Keep? {
      KeptBatchOk(p, t, b, v.found, v.sd, v.hd);
    }
  }

  /** One row keeps the tables and the queue sound. */
  lemma StepBatchOk(p: Params, t: Tables, b: Batch, i: nat, raw: RawRow)
    requires TablesOk(t) && BatchOk(p, t, b)
    ensures var after := Step(p, t, b, i, raw);
            TablesOk(after.0) && BatchOk(p, after.0, after.1)
  {
    ApplyBatchOk(p, t, b, i, Examine(p.config, p.country, t.schools, b.updated, CleanCells(raw)));
  }

  /** Over any number of rows the queue never holds two statuses of one
      school, so a write of it raises only when a column value does not fit. */
  lemma {:induction false} RunBatchOk(p: Params, t: Tables, b: Batch, rows: seq<RawRow>)
    requires TablesOk(t) && BatchOk(p, t, b)
    ensures var after := Run(p, t, b, rows);
            && TablesOk(after.0) && BatchOk(p, after.0, after.1) && !HasDuplicateSchool(after.1.pending)
            && (WriteFails(p, after.1.pending) <==> !AllStorable(after.1.pending, p.config.env.parseInt))
  {
    if rows != [] {
      RunBatchOk(p, t, b, rows[..|rows| - 1]);
      var before := Run(p, t, b, rows[..|rows| - 1]);
      StepBatchOk(p, before.0, before.1, |rows| - 1, rows[|rows| - 1]);
    }
    var after := Run(p, t, b, rows);
    NoDuplicateInBatch(p, after.0, after.1);
  }

  // --------------------------------------------------------- what a row leaves

  /** Messages, queued statuses and written statuses together. */
  function Handled(t: Tables, b: Batch): int {
    |b.errors| + |b.warnings| + |b.pending| + t.nextStatusId
  }

  /** The rows that are not empty once cleaned. */
  function NonEmptyRows(rows: seq<RawRow>): (n: nat)
    ensures n <= |rows|
  {
    if rows == [] then 0
    else NonEmptyRows(rows[..|rows| - 1]) + (if CleanCells(rows[|rows| - 1]) == map[] then 0 else 1)
  }

  /** A row that does not raise adds exactly one error, one warning or one
      status, unless it is empty, in which case it adds nothing and changes
      nothing. */
  lemma StepAccounting(p: Params, t: Tables, b: Batch, i: nat, raw: RawRow)
    ensures var after := Step(p, t, b, i, raw);
            !after.1.raised ==> Handled(after.0, after.1) == Handled(t, b) + (if CleanCells(raw) == map[] then 0 else 1)
    ensures CleanCells(raw) == map[] ==> Step(p, t, b, i, raw) == (t, b)
  {
  }

  /** A row raises exactly when it is kept, its row number brings a write,
      and the queue with its status does not fit the table. */
  lemma StepRaises(p: Params, t: Tables, b: Batch, i: nat, raw: RawRow)
    requires !b.raised
    ensures var v := Examine(p.config, p.country, t.schools, b.updated, CleanCells(raw));
            Step(p, t, b, i, raw).1.raised
            <==> v.Keep? && FlushesAt(i) && WriteFails(p, Kept(p, t, b, v.found, v.sd, v.hd).1.pending)
  {
  }

  /** Over a whole file that does not raise: the errors, the warnings and the
      statuses written together number the non-empty rows. */
  lemma {:induction false} RunAccounting(p: Params, t: Tables, b: Batch, rows: seq<RawRow>)
    ensures var after := Run(p, t, b, rows);
            !after.1.raised ==> Handled(after.0, after.1) == Handled(t, b) + NonEmptyRows(rows)
  {
    if rows != [] {
      RunAccounting(p, t, b, rows[..|rows| - 1]);
      var before := Run(p, t, b, rows[..|rows| - 1]);
      StepAccounting(p, before.0, before.1, |rows| - 1, rows[|rows| - 1]);
    }
  }

  /** `save_data` as a whole, when it returns: every non-empty row of the
      file is answered by one error, one warning, or one weekly status written
      to the table. */
  lemma SaveAccounting(p: Params, t: Tables, rows: seq<RawRow>)
    ensures var after := Run(p, t, EmptyBatch, rows);
            !SaveRaises(p, after.1) ==>
              |after.1.errors| + |after.1.warnings| + Finish(p, after.0, after.1).nextStatusId - t.nextStatusId
              == NonEmptyRows(rows)
  {
    RunAccounting(p, t, EmptyBatch, rows);
  }

  /** Once a write has raised, the rows after it change nothing. */
  lemma {:induction false} RunAfterRaise(p: Params, t: Tables, b: Batch, rows: seq<RawRow>, k: nat)
    requires k <= |rows| && Run(p, t, b, rows[..k]).1.raised
    ensures Run(p, t, b, rows) == Run(p, t, b, rows[..k])
    decreases |rows| - k
  {
    if k < |rows| {
      assert rows[..k + 1][..k] == rows[..k];
      RunAfterRaise(p, t, b, rows, k + 1);
    } else {
      assert rows[..k] == rows;
    }
  }

  /** After a write the queue is empty, so a row for a school saved just
      before it is not reported as a duplicate: the duplicate check spans one
      batch only. */
  lemma DuplicateCheckResetsAtFlush(p: Params, t: Tables, b: Batch, i: nat, raw: RawRow, data: Row)
    requires !b.raised && FlushesAt(i) && Examine(p.config, p.country, t.schools, b.updated, CleanCells(raw)).Keep?
    ensures var after := Step(p, t, b, i, raw);
            after.1.pending == [] && !Examine(p.config, p.country, after.0.schools, after.1.updated, data).Warn?
  {
  }

  /** A write replaces the week: afterwards any record of the queued schools
      for that week is one of the queued ones, under a fresh id at the end,
      and there is one only when the insert did not raise. */
  lemma FlushReplacesWeek(p: Params, t: Tables, pending: seq<SchoolWeeklyStatus>, j: int)
    requires forall k :: 0 <= k < |pending| ==> pending[k].year == p.year && pending[k].week == p.week
    requires var s := Flush(p, t, pending).statuses;
             0 <= j < |s| && s[j].school in StatusSchools(pending) && s[j].year == p.year && s[j].week == p.week
    ensures var s := Flush(p, t, pending).statuses;
            && !WriteFails(p, pending)
            && |s| - |pending| <= j && s[j] == pending[j - (|s| - |pending|)].(id := t.nextStatusId + j - (|s| - |pending|))
  {
    var kept := Filter(t.statuses, OutsideWeek(StatusSchools(pending), p.year, p.week));
    var s := Flush(p, t, pending).statuses;
    assert s == kept + NumberStatuses(pending, t.nextStatusId);
  }

  // ------------------------------------------------------------- as written

  /** One pass of the loop body with the admin lookup as the source writes
      it: a row that reaches the lookup raises and ends the loop. */
  function StepAsWritten(p: Params, t: Tables, b: Batch, i: nat, raw: RawRow): (Tables, Batch) {
    if b.raised then (t, b)
    else match ExamineAsWritten(p.config, p.country, t.schools, b.updated, CleanCells(raw))
      case Raised => (t, b.(raised := true))
      case Answered(v) => Apply(p, t, b, i, v)
  }

  /** The loop over the first |rows| rows, as written. */
  function RunAsWritten(p: Params, t: Tables, b: Batch, rows: seq<RawRow>): (Tables, Batch) {
    if rows == [] then (t, b)
    else
      var before := RunAsWritten(p, t, b, rows[..|rows| - 1]);
      StepAsWritten(p, before.0, before.1, |rows| - 1, rows[|rows| - 1])
  }

  /** One row, as written, before anything is queued: it changes no table and
      queues nothing, and raises exactly when it reaches the admin lookup. */
  lemma StepAsWrittenSavesNothing(p: Params, t: Tables, b: Batch, i: nat, raw: RawRow)
    requires b.pending == [] && b.updated == []
    ensures var r := StepAsWritten(p, t, b, i, raw);
            && r.0 == t && r.1.pending == [] && r.1.updated == []
            && (r.1.raised <==> b.raised || ReachesLookup(p.config, p.country, t.schools, [], CleanCells(raw)))
  {
  }

  /** The rows that reach the admin lookup while nothing is queued. */
  function Reaches(p: Params, schools: seq<School>): RawRow -> bool {
    raw => ReachesLookup(p.config, p.country, schools, [], CleanCells(raw))
  }

  /** Some row among `rows` passes `test`, looking from the last row back. */
  ghost predicate SomeRow(rows: seq<RawRow>, test: RawRow -> bool) {
    rows != [] && (SomeRow(rows[..|rows| - 1], test) || test(rows[|rows| - 1]))
  }

  lemma {:induction false} SomeRowAt(rows: seq<RawRow>, test: RawRow -> bool)
    ensures SomeRow(rows, test) <==> exists m :: 0 <= m < |rows| && test(rows[m])
  {
    if rows != [] {
      var n := |rows| - 1;
      var prefix := rows[..n];
      SomeRowAt(prefix, test);
      if SomeRow(prefix, test) {
        var m :| 0 <= m < n && test(prefix[m]);
        assert prefix[m] == rows[m];
      } else {
        forall m | 0 <= m < n
          ensures !test(rows[m])
        {
          assert prefix[m] == rows[m];
        }
      }
    }
  }

  /** As written, `save_data` saves nothing: the School table and the weekly
      statuses stay as they were, nothing is queued, and the call raises
      exactly when some row gets as far as the admin lookup. */
  lemma {:induction false} AsWrittenSavesNothing(p: Params, t: Tables, rows: seq<RawRow>)
    ensures var r := RunAsWritten(p, t, EmptyBatch, rows);
            && r.0 == t && r.1.pending == [] && r.1.updated == [] && Finish(p, r.0, r.1) == t
            && (r.1.raised <==> exists m :: 0 <= m < |rows| && ReachesLookup(p.config, p.country, t.schools, [], CleanCells(rows[m])))
  {
    RunAsWrittenReaches(p, t, rows);
    SomeRowAt(rows, Reaches(p, t.schools));
  }

  lemma {:induction false} RunAsWrittenReaches(p: Params, t: Tables, rows: seq<RawRow>)
    ensures var r := RunAsWritten(p, t, EmptyBatch, rows);
            && r.0 == t && r.1.pending == [] && r.1.updated == []
            && (r.1.raised <==> SomeRow(rows, Reaches(p, t.schools)))
  {
    if rows != [] {
      var n := |rows| - 1;
      var before := RunAsWritten(p, t, EmptyBatch, rows[..n]);
      RunAsWrittenReaches(p, t, rows[..n]);
      StepAsWrittenSavesNothing(p, before.0, before.1, n, rows[n]);
    }
  }

  // ------------------------------------------------------------------ methods

  /** Saves the row's school (the matched one, or a new one) and queues its
      status. */
  method SaveRow(p: Params, db: Database, b: Batch, found: Option<nat>, sd: SchoolData, hd: HistoryData) returns (b': Batch)
    requires db.Valid() && (found.Some? ==> found.value < |db.schools|)
    modifies db
    ensures db.Valid()
    ensures (Snapshot(db), b') == Kept(p, old(Snapshot(db)), b, found, sd, hd)
  {
    var id;
    if found.Some? {
      var k := found.value;
      id := db.schools[k].id;
      db.SaveSchool(k, Resaved(db.schools[k], sd));
    } else {
      var created := db.CreateSchools([IngestSchool(sd)]);
      id := created[0].id;
    }
    b' := b.(pending := b.pending + [Record(p, id, hd)], updated := b.updated + [id]);
  }

  /** Deletes the week's records of the queued schools and inserts the queue;
      `raised` when the insert raises. */
  method WriteBatch(p: Params, db: Database, pending: seq<SchoolWeeklyStatus>) returns (raised: bool)
    requires db.Valid()
    requires forall k :: 0 <= k < |pending| ==> pending[k].year == p.year && pending[k].week == p.week
    modifies db
    ensures db.Valid()
    ensures raised == WriteFails(p, pending)
    ensures Snapshot(db) == Flush(p, old(Snapshot(db)), pending)
  {
    raised := db.ReplaceWeek(pending, p.year, p.week, p.config.env.parseInt);
  }

  /** The loop body for row `i`, on the database. */
  method ProcessRow(p: Params, db: Database, b: Batch, i: nat, raw: RawRow) returns (b': Batch)
    requires db.Valid() && BatchOk(p, Snapshot(db), b) && !b.raised
    modifies db
    ensures db.Valid() && BatchOk(p, Snapshot(db), b')
    ensures (Snapshot(db), b') == Step(p, old(Snapshot(db)), b, i, raw)
  {
    ghost var t := Snapshot(db);
    StepBatchOk(p, t, b, i, raw);
    var verdict := Examine(p.config, p.country, db.schools, b.updated, CleanCells(raw));
    match verdict
    case Skip =>
      b' := b;
    case Reject(e) =>
      b' := b.(errors := b.errors + [RowMessage(i + 2, e)]);
    case Warn(w) =>
      b' := b.(warnings := b.warnings + [RowMessage(i + 2, w)]);
    case Keep(found, sd, hd) =>
      b' := SaveRow(p, db, b, found, sd, hd);
      if FlushesAt(i) {
        KeptBatchOk(p, t, b, found, sd, hd);
        var failed := WriteBatch(p, db, b'.pending);
        b' := b'.(pending := [], updated := [], raised := failed);
      }
  }

  /** The loop of `save_data` over the rows of the file, left by the
      exception of a write that raises. */
  method ProcessRows(p: Params, loaded: seq<RawRow>, db: Database) returns (b: Batch)
    requires db.Valid()
    modifies db
    ensures db.Valid() && BatchOk(p, Snapshot(db), b)
    ensures (Snapshot(db), b) == Run(p, old(Snapshot(db)), EmptyBatch, loaded)
  {
    ghost var t0 := Snapshot(db);
    b := EmptyBatch;
    var i := 0;
    while i < |loaded| && !b.raised
      invariant 0 <= i <= |loaded|
      invariant db.Valid() && BatchOk(p, Snapshot(db), b)
      invariant (Snapshot(db), b) == Run(p, t0, EmptyBatch, loaded[..i])
    {
      assert loaded[..i + 1][..i] == loaded[..i];
      b := ProcessRow(p, db, b, i, loaded[i]);
      i := i + 1;
    }
    if i < |loaded| {
      RunAfterRaise(p, t0, EmptyBatch, loaded, i);
    } else {
      assert loaded[..i] == loaded;
    }
  }

  /** `save_data`: the rows in order, then the last write. When `raised` the
      call ends in the exception of a write and returns nothing; otherwise it
      returns the warnings and the errors. */
  method SaveData(p: Params, loaded: seq<RawRow>, db: Database) returns (warnings: seq<string>, errors: seq<string>, raised: bool)
    requires db.Valid()
    modifies db
    ensures db.Valid()
    ensures var after := Run(p, old(Snapshot(db)), EmptyBatch, loaded);
            && Snapshot(db) == Finish(p, after.0, after.1) && raised == SaveRaises(p, after.1)
            && warnings == after.1.warnings && errors == after.1.errors
  {
    var b := ProcessRows(p, loaded, db);
    raised := b.raised;
    if !raised && |b.pending| > 0 {
      raised := WriteBatch(p, db, b.pending);
    }
    warnings, errors := b.warnings, b.errors;
  }
}
