/** `update_schools_weekly_statuses` of `proco/schools/loaders/pipeline.py`:
    each imported row carries its school's latest weekly status forward into
    the current week, with the row's history columns laid over it; the
    week's old records are replaced by the new ones and every school is
    pointed at its new record. */
module PipelineStatuses {
  import opened Wrappers
  import opened Collections
  import opened SchoolModels
  import opened ConnectionStatistics
  import opened Validation
  import opened Store
  import opened PipelineRows

  // ------------------------------------------------------- one status record

  /** The history columns a row supplies: where `supplied` has a value it
      wins over `current`. */
  function Override<T>(supplied: Option<T>, current: T): T {
    if supplied.Some? then supplied.value else current
  }

  /** `setattr(status, k, v)` for every `k, v` of `history_data`. */
  function ApplyHistory(s: SchoolWeeklyStatus, h: HistoryData): (r: SchoolWeeklyStatus)
    ensures Supplied(r, h) && KeepsRest(r, s, h)
    ensures SameRecord(r, s)
  {
    s.(numStudents := Override(h.numStudents, s.numStudents),
       numTeachers := Override(h.numTeachers, s.numTeachers),
       numClassroom := Override(h.numClassroom, s.numClassroom),
       numLatrines := Override(h.numLatrines, s.numLatrines),
       runningWater := Override(h.runningWater, s.runningWater),
       electricityAvailability := Override(h.electricityAvailability, s.electricityAvailability),
       computerLab := Override(h.computerLab, s.computerLab),
       numComputers := Override(h.numComputers, s.numComputers),
       connectivity := Override(h.connectivity, s.connectivity),
       connectivityType := Override(h.connectivityType, s.connectivityType),
       connectivitySpeed := Override(h.connectivitySpeed, s.connectivitySpeed),
       connectivityLatency := Override(h.connectivityLatency, s.connectivityLatency),
       coverageAvailability := if h.coverageAvailability.Some? then h.coverageAvailability else s.coverageAvailability,
       coverageType := if h.coverageType.Some? then h.coverageType else s.coverageType)
  }

  /** Every column the row supplies holds the row's value. */
  ghost predicate Supplied(r: SchoolWeeklyStatus, h: HistoryData) {
    && (h.numStudents.Some? ==> r.numStudents == h.numStudents.value)
    && (h.numTeachers.Some? ==> r.numTeachers == h.numTeachers.value)
    && (h.numClassroom.Some? ==> r.numClassroom == h.numClassroom.value)
    && (h.numLatrines.Some? ==> r.numLatrines == h.numLatrines.value)
    && (h.runningWater.Some? ==> r.runningWater == h.runningWater.value)
    && (h.electricityAvailability.Some? ==> r.electricityAvailability == h.electricityAvailability.value)
    && (h.computerLab.Some? ==> r.computerLab == h.computerLab.value)
    && (h.numComputers.Some? ==> r.numComputers == h.numComputers.value)
    && (h.connectivity.Some? ==> r.connectivity == h.connectivity.value)
    && (h.connectivityType.Some? ==> r.connectivityType == h.connectivityType.value)
    && (h.connectivitySpeed.Some? ==> r.connectivitySpeed == h.connectivitySpeed.value)
    && (h.connectivityLatency.Some? ==> r.connectivityLatency == h.connectivityLatency.value)
    && (h.coverageAvailability.Some? ==> r.coverageAvailability == h.coverageAvailability)
    && (h.coverageType.Some? ==> r.coverageType == h.coverageType)
  }

  /** Every history column the row leaves out keeps the value of `s`. */
  ghost predicate KeepsRest(r: SchoolWeeklyStatus, s: SchoolWeeklyStatus, h: HistoryData) {
    && (h.numStudents.None? ==> r.numStudents == s.numStudents)
    && (h.numTeachers.None? ==> r.numTeachers == s.numTeachers)
    && (h.numClassroom.None? ==> r.numClassroom == s.numClassroom)
    && (h.numLatrines.None? ==> r.numLatrines == s.numLatrines)
    && (h.runningWater.None? ==> r.runningWater == s.runningWater)
    && (h.electricityAvailability.None? ==> r.electricityAvailability == s.electricityAvailability)
    && (h.computerLab.None? ==> r.computerLab == s.computerLab)
    && (h.numComputers.None? ==> r.numComputers == s.numComputers)
    && (h.connectivity.None? ==> r.connectivity == s.connectivity)
    && (h.connectivityType.None? ==> r.connectivityType == s.connectivityType)
    && (h.connectivitySpeed.None? ==> r.connectivitySpeed == s.connectivitySpeed)
    && (h.connectivityLatency.None? ==> r.connectivityLatency == s.connectivityLatency)
    && (h.coverageAvailability.None? ==> r.coverageAvailability == s.coverageAvailability)
    && (h.coverageType.None? ==> r.coverageType == s.coverageType)
  }

  /** The columns that are not history columns agree. */
  ghost predicate SameRecord(r: SchoolWeeklyStatus, s: SchoolWeeklyStatus) {
    && r.id == s.id && r.school == s.school && r.year == s.year && r.week == s.week
    && r.date == s.date && r.connectivityStatus == s.connectivityStatus
  }

  /** The three predicates pin the record down: laying the history over `s`
      is the only record that takes the supplied values, keeps the rest and
      leaves the other columns alone. */
  lemma ApplyHistoryUnique(r: SchoolWeeklyStatus, s: SchoolWeeklyStatus, h: HistoryData)
    requires Supplied(r, h) && KeepsRest(r, s, h) && SameRecord(r, s)
    ensures r == ApplyHistory(s, h)
  {
  }

  /** Laying the same history over twice changes nothing more. */
  lemma ApplyHistoryIdempotent(s: SchoolWeeklyStatus, h: HistoryData)
    ensures ApplyHistory(ApplyHistory(s, h), h) == ApplyHistory(s, h)
  {
  }

  /** A history with no columns leaves the record as it is. */
  lemma ApplyNoHistory(s: SchoolWeeklyStatus)
    ensures ApplyHistory(s, HistoryData(None, None, None, None, None, None, None, None, None, None, None, None, None, None)) == s
  {
  }

  /** The small-integer columns the row supplies hold values the table
      accepts. The validator only refuses negative counts, so a count above
      32767 or a latency that is not a number gets through to the insert. */
  predicate HistoryFits(h: HistoryData, parseInt: string -> Option<int>) {
    && (h.numStudents.Some? ==> FitsPositiveSmallInt(h.numStudents.value))
    && (h.numTeachers.Some? ==> FitsPositiveSmallInt(h.numTeachers.value))
    && (h.numClassroom.Some? ==> FitsPositiveSmallInt(h.numClassroom.value))
    && (h.numLatrines.Some? ==> FitsPositiveSmallInt(h.numLatrines.value))
    && (h.numComputers.Some? ==> FitsPositiveSmallInt(h.numComputers.value))
    && (h.connectivityLatency.Some? ==> LatencyStorable(h.connectivityLatency.value, parseInt))
  }

  /** Laid over a record the table accepts, a history gives a record the table
      accepts exactly when the history fits. */
  lemma ApplyHistoryStorable(s: SchoolWeeklyStatus, h: HistoryData, parseInt: string -> Option<int>)
    requires Storable(s, parseInt)
    ensures Storable(ApplyHistory(s, h), parseInt) <==> HistoryFits(h, parseInt)
  {
  }

  // --------------------------------------------------------- the new records

  /** The record the loop prepares for a row: a copy of the school's last
      status (its id cleared), or a fresh record when it has none, with the
      row's history over it and the current week and its date. The
      connectivity status is left as it was: `bulk_create` does not go
      through `save`. */
  function NewStatus(statuses: seq<SchoolWeeklyStatus>, r: ImportRow, year: int, week: int, weekStart: (int, int) -> Date): (st: SchoolWeeklyStatus)
    requires r.school.Some?
    ensures st.school == r.school.value.id && st.year == year && st.week == week && st.date == weekStart(year, week)
    ensures Supplied(st, r.historyData)
  {
    var id := r.school.value.id;
    var base := match LastStatusOf(statuses, id)
                case Some(last) => last.(id := 0)
                case None => DefaultStatus(id, year, week, weekStart(year, week));
    ApplyHistory(base, r.historyData).(year := year, week := week, date := weekStart(year, week))
  }

  function NewStatuses(statuses: seq<SchoolWeeklyStatus>, rows: seq<ImportRow>, year: int, week: int, weekStart: (int, int) -> Date): (r: seq<SchoolWeeklyStatus>)
    requires forall k :: 0 <= k < |rows| ==> rows[k].school.Some?
    ensures |r| == |rows|
  {
    seq(|rows|, k requires 0 <= k < |rows| => NewStatus(statuses, rows[k], year, week, weekStart))
  }

  /** A history column the row leaves out is carried over from the school's
      last status; one it supplies overrides it. */
  lemma CarriedForward(statuses: seq<SchoolWeeklyStatus>, r: ImportRow, year: int, week: int, weekStart: (int, int) -> Date)
    requires r.school.Some? && LastStatusOf(statuses, r.school.value.id).Some?
    ensures var last := LastStatusOf(statuses, r.school.value.id).value;
            var st := NewStatus(statuses, r, year, week, weekStart);
            && Supplied(st, r.historyData)
            && KeepsRest(st, last, r.historyData)
            && st.connectivityStatus == last.connectivityStatus
  {
  }

  /** A school with no status yet starts from the column defaults. */
  lemma StartsFromDefaults(statuses: seq<SchoolWeeklyStatus>, r: ImportRow, year: int, week: int, weekStart: (int, int) -> Date)
    requires r.school.Some? && LastStatusOf(statuses, r.school.value.id).None?
    ensures var st := NewStatus(statuses, r, year, week, weekStart);
            KeepsRest(st, DefaultStatus(r.school.value.id, year, week, weekStart(year, week)), r.historyData)
            && st.connectivityStatus == Unknown
  {
  }

  /** The stored connectivity status is not derived from the new columns: a
      school seen for the first time with a fast connection is stored as
      "unknown". */
  lemma StatusNotRecomputed(r: ImportRow, year: int, week: int, weekStart: (int, int) -> Date)
    requires r.school.Some? && r.historyData.connectivity == Some(true) && r.historyData.connectivitySpeed == Some(10.0)
    ensures !StatusConsistent(NewStatus([], r, year, week, weekStart))
  {
    var st := NewStatus([], r, year, week, weekStart);
    StartsFromDefaults([], r, year, week, weekStart);
    assert GetConnectivityStatus(st.connectivity, st.connectivitySpeed) == Good;
  }

  /** Two rows for one school make two records for the same week, which the
      insert refuses. */
  lemma SameSchoolTwiceRaises(statuses: seq<SchoolWeeklyStatus>, rows: seq<ImportRow>, i: nat, j: nat,
                              year: int, week: int, weekStart: (int, int) -> Date)
    requires forall k :: 0 <= k < |rows| ==> rows[k].school.Some?
    requires i < j < |rows| && rows[i].school.value.id == rows[j].school.value.id
    ensures HasDuplicateSchool(NewStatuses(statuses, rows, year, week, weekStart))
  {
    var news := NewStatuses(statuses, rows, year, week, weekStart);
    assert news[i].school == news[j].school;
  }

  // --------------------------------------------------- last_weekly_status

  /** The school of each record, in list order. */
  function SchoolsOf(news: seq<SchoolWeeklyStatus>): (ids: seq<SchoolId>)
    ensures |ids| == |news| && forall k :: 0 <= k < |news| ==> ids[k] == news[k].school
  {
    seq(|news|, k requires 0 <= k < |news| => news[k].school)
  }

  /** The id each school is pointed at when the records of the schools
      `ids`, inserted from id `first` on, are walked in list order: the
      school's last record. */
  function LastPointers(ids: seq<SchoolId>, first: nat): (p: map<SchoolId, nat>)
  {
    if ids == [] then map[]
    else LastPointers(ids[..|ids| - 1], first)[ids[|ids| - 1] := first + |ids| - 1]
  }

  /** Each school of `ids` is pointed at its last position in `ids`, and
      nothing else is pointed at. */
  lemma {:induction false} LastPointersMeaning(ids: seq<SchoolId>, first: nat)
    ensures var p := LastPointers(ids, first);
            && (forall k :: 0 <= k < |ids| ==> ids[k] in p)
            && (forall id :: id in p ==> PointsAtLast(ids, first, id, p[id]))
  {
    if ids != [] {
      var init := ids[..|ids| - 1];
      LastPointersMeaning(init, first);
      var p := LastPointers(ids, first);
      var q := LastPointers(init, first);
      forall k | 0 <= k < |ids|
        ensures ids[k] in p
      {
        if k < |init| {
          assert ids[k] == init[k];
        }
      }
      forall id | id in p
        ensures PointsAtLast(ids, first, id, p[id])
      {
        if id != ids[|ids| - 1] {
          assert PointsAtLast(init, first, id, q[id]);
        }
      }
    }
  }

  /** `at` is the id of the last record of `id` among the records of `ids`
      numbered from `first`. */
  ghost predicate PointsAtLast(ids: seq<SchoolId>, first: nat, id: SchoolId, at: nat) {
    && first <= at < first + |ids|
    && ids[at - first] == id
    && forall m :: at - first < m < |ids| ==> ids[m] != id
  }

  lemma PointOneMore(ids: seq<SchoolId>, k: nat, first: nat)
    requires k < |ids|
    ensures LastPointers(ids[..k + 1], first) == LastPointers(ids[..k], first)[ids[k] := first + k]
  {
    assert ids[..k + 1][..k] == ids[..k];
  }

  /** Every school of the batch is pointed at an inserted record that is its
      own and is for the current week. */
  lemma PointersAreStored(news: seq<SchoolWeeklyStatus>, first: nat, year: int, week: int)
    requires forall k :: 0 <= k < |news| ==> news[k].year == year && news[k].week == week
    ensures var p := LastPointers(SchoolsOf(news), first);
            var inserted := NumberStatuses(news, first);
            forall id :: id in p ==> exists k :: 0 <= k < |inserted| && inserted[k].id == p[id]
                                              && inserted[k].school == id && inserted[k].year == year && inserted[k].week == week
  {
    var ids := SchoolsOf(news);
    var p := LastPointers(ids, first);
    var inserted := NumberStatuses(news, first);
    forall id | id in p
      ensures exists k :: 0 <= k < |inserted| && inserted[k].id == p[id]
                          && inserted[k].school == id && inserted[k].year == year && inserted[k].week == week
    {
      LastPointersMeaning(ids, first);
      assert PointsAtLast(ids, first, id, p[id]);
      var j := p[id] - first;
      assert inserted[j] == news[j].(id := first + j);
    }
  }

  // -------------------------------------------------------------- the stage

  /** The first loop: one record per row, in row order. */
  method PrepareStatuses(statuses: seq<SchoolWeeklyStatus>, rows: seq<ImportRow>, year: int, week: int, weekStart: (int, int) -> Date)
    returns (news: seq<SchoolWeeklyStatus>)
    requires forall k :: 0 <= k < |rows| ==> rows[k].school.Some?
    ensures news == NewStatuses(statuses, rows, year, week, weekStart)
  {
    news := [];
    var i := 0;
    while i < |rows|
      invariant 0 <= i <= |rows| && |news| == i
      invariant forall k :: 0 <= k < i ==> news[k] == NewStatus(statuses, rows[k], year, week, weekStart)
    {
      news := news + [NewStatus(statuses, rows[i], year, week, weekStart)];
      i := i + 1;
    }
  }

  /** The last loop: each school is pointed at its records in turn, so the
      last one stays. */
  method PointSchools(news: seq<SchoolWeeklyStatus>, first: nat) returns (pointer: map<SchoolId, nat>)
    ensures pointer == LastPointers(SchoolsOf(news), first)
  {
    var ids := SchoolsOf(news);
    pointer := map[];
    var k := 0;
    while k < |news|
      invariant 0 <= k <= |news|
      invariant pointer == LastPointers(ids[..k], first)
    {
      PointOneMore(ids, k, first);
      pointer := pointer[ids[k] := first + k];
      k := k + 1;
    }
    TakeAll(ids);
  }

  /** `update_schools_weekly_statuses` for the week `(year, week)` of the
      day it runs. With no rows nothing is written. Otherwise the week's
      records of the rows' schools are replaced by the new ones; when the
      insert raises (two records for one school, or a column value the table
      cannot hold) the schools are left alone, and when it succeeds each
      school points at its last new record. */
  method UpdateSchoolsWeeklyStatuses(rows: seq<ImportRow>, db: Database, year: int, week: int, weekStart: (int, int) -> Date,
                                     parseInt: string -> Option<int>)
    returns (raised: bool)
    requires db.Valid()
    requires forall k :: 0 <= k < |rows| ==> rows[k].school.Some?
    modifies db
    ensures db.Valid()
    ensures var news := NewStatuses(old(db.statuses), rows, year, week, weekStart);
            && raised == (HasDuplicateSchool(news) || !AllStorable(news, parseInt))
            && (rows == [] ==> db.statuses == old(db.statuses) && db.schools == old(db.schools))
            && (rows != [] ==>
                  var kept := Filter(old(db.statuses), OutsideWeek(StatusSchools(news), year, week));
                  var inserted := NumberStatuses(news, old(db.nextStatusId));
                  && db.statuses == (if raised then kept else kept + inserted)
                  && (raised ==> db.schools == old(db.schools))
                  && (!raised ==> SetPointers(old(db.schools), db.schools, LastPointers(SchoolsOf(news), old(db.nextStatusId)))))
  {
    var news := PrepareStatuses(db.statuses, rows, year, week, weekStart);
    if news == [] {
      raised := false;
      return;
    }
    var first := db.nextStatusId;
    raised := db.ReplaceWeek(news, year, week, parseInt);
    if raised {
      return;
    }
    var pointer := PointSchools(news, first);
    db.SetLastWeeklyStatus(pointer);
  }

  /** `after` is `before` with the schools in `pointer` re-pointed. */
  ghost predicate SetPointers(before: seq<School>, after: seq<School>, pointer: map<SchoolId, nat>) {
    && |after| == |before|
    && forall k :: 0 <= k < |after| ==>
         after[k] == if before[k].id in pointer then before[k].(lastWeeklyStatus := Some(pointer[before[k].id])) else before[k]
  }
}
