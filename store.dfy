/** The two tables the loaders write, School and SchoolWeeklyStatus, as one
    in-memory database: rows in id order, ids handed out by counters, and the
    bulk operations the loaders issue (bulk_create, the cascading delete, the
    delete-then-insert of one week's statuses). */
module Store {
  import opened Wrappers
  import opened Collections
  import opened SchoolModels
  import opened ConnectionStatistics

  function SchoolIdBefore(a: School, b: School): bool { a.id < b.id }

  function StatusIdBefore(a: SchoolWeeklyStatus, b: SchoolWeeklyStatus): bool { a.id < b.id }

  /** The records `bulk_create` inserts: the given ones, numbered from `first`
      in list order. */
  function NumberSchools(news: seq<School>, first: nat): (r: seq<School>)
    ensures |r| == |news|
    ensures forall k :: 0 <= k < |r| ==> r[k] == news[k].(id := first + k)
  {
    seq(|news|, k requires 0 <= k < |news| => news[k].(id := first + k))
  }

  /** The same numbering for the statuses table. It is written twice because
      the two record types share no supertype through which one generic
      function could reach their `id` field. */
  function NumberStatuses(news: seq<SchoolWeeklyStatus>, first: nat): (r: seq<SchoolWeeklyStatus>)
    ensures |r| == |news|
    ensures forall k :: 0 <= k < |r| ==> r[k] == news[k].(id := first + k)
  {
    seq(|news|, k requires 0 <= k < |news| => news[k].(id := first + k))
  }

  function SchoolIds(schools: seq<School>): set<SchoolId> {
    set s | s in schools :: s.id
  }

  function StatusSchools(statuses: seq<SchoolWeeklyStatus>): set<SchoolId> {
    set s | s in statuses :: s.school
  }

  /** `School.objects.filter(country=country)`, which iterates in id order. */
  function InCountry(country: CountryId): School -> bool {
    (s: School) => s.country == country
  }

  /** The statuses a delete of (`schools`, `year`, `week`) leaves in place. */
  function OutsideWeek(schools: set<SchoolId>, year: int, week: int): SchoolWeeklyStatus -> bool {
    (s: SchoolWeeklyStatus) => !(s.school in schools && s.year == year && s.week == week)
  }

  /** Two of the records are for the same school, which a delete-then-insert of
      one week cannot store side by side. */
  predicate HasDuplicateSchool(news: seq<SchoolWeeklyStatus>) {
    exists i, j | 0 <= i < j < |news| :: news[i].school == news[j].school
  }

  /** Every record fits the table's columns. */
  predicate AllStorable(news: seq<SchoolWeeklyStatus>, parseInt: string -> Option<int>) {
    forall k :: 0 <= k < |news| ==> Storable(news[k], parseInt)
  }

  /** `SchoolWeeklyStatus.objects.filter(school=school).last()`: the status of
      the school with the highest id. */
  function LastStatusOf(statuses: seq<SchoolWeeklyStatus>, school: SchoolId): (r: Option<SchoolWeeklyStatus>)
    ensures r.None? <==> forall k :: 0 <= k < |statuses| ==> statuses[k].school != school
    ensures r.Some? ==> exists k :: 0 <= k < |statuses| && statuses[k] == r.value && r.value.school == school
                                    && forall m :: k < m < |statuses| ==> statuses[m].school != school
  {
    if statuses == [] then None
    else if statuses[|statuses| - 1].school == school then Some(statuses[|statuses| - 1])
    else
      var init := statuses[..|statuses| - 1];
      var r := LastStatusOf(init, school);
      LastStatusOfSnoc(init, statuses, school, r);
      r
  }

  /** The step of `LastStatusOf` that skips a last status of another school. */
  lemma LastStatusOfSnoc(init: seq<SchoolWeeklyStatus>, statuses: seq<SchoolWeeklyStatus>, school: SchoolId, r: Option<SchoolWeeklyStatus>)
    requires statuses != [] && init == statuses[..|statuses| - 1] && statuses[|statuses| - 1].school != school
    requires r.None? <==> forall k :: 0 <= k < |init| ==> init[k].school != school
    requires r.Some? ==> exists k :: 0 <= k < |init| && init[k] == r.value && r.value.school == school
                                    && forall m :: k < m < |init| ==> init[m].school != school
    ensures r.None? <==> forall k :: 0 <= k < |statuses| ==> statuses[k].school != school
    ensures r.Some? ==> exists k :: 0 <= k < |statuses| && statuses[k] == r.value && r.value.school == school
                                    && forall m :: k < m < |statuses| ==> statuses[m].school != school
  {
    assert forall k :: 0 <= k < |init| ==> init[k] == statuses[k];
    if r.Some? {
      var k :| 0 <= k < |init| && init[k] == r.value && r.value.school == school
               && forall m :: k < m < |init| ==> init[m].school != school;
      assert forall m :: k < m < |statuses| ==> statuses[m].school != school;
    }
  }

  /** The table after `UPDATE school SET <fields> WHERE id = school.id`, the
      values taken from `school`. */
  function WriteBack(schools: seq<School>, school: School, fields: set<string>): (r: seq<School>)
    ensures |r| == |schools|
    ensures forall k :: 0 <= k < |r| ==> r[k].id == schools[k].id
    ensures forall k :: 0 <= k < |r| && schools[k].id != school.id ==> r[k] == schools[k]
    ensures forall k :: 0 <= k < |r| && schools[k].id == school.id ==> r[k] == CopyFields(schools[k], school, fields)
  {
    seq(|schools|, k requires 0 <= k < |schools| =>
          if schools[k].id == school.id then CopyFields(schools[k], school, fields) else schools[k])
  }

  /** `school` is what the table holds under its id. */
  ghost predicate Current(schools: seq<School>, school: School) {
    forall k :: 0 <= k < |schools| && schools[k].id == school.id ==> schools[k] == school
  }

  /** Writing back what the table already holds changes nothing. */
  lemma WriteBackCurrent(schools: seq<School>, school: School, fields: set<string>)
    requires Current(schools, school)
    ensures WriteBack(schools, school, fields) == schools
  {
    var r := WriteBack(schools, school, fields);
    forall k | 0 <= k < |schools|
      ensures r[k] == schools[k]
    {
      if schools[k].id == school.id {
        CopyNothing(schools[k], school, fields);
      }
    }
  }

  /** A school read from a table whose ids are distinct is current in it. */
  lemma StoredIsCurrent(schools: seq<School>, school: School)
    requires Pairwise(schools, SchoolIdBefore) && school in schools
    ensures Current(schools, school)
  {
  }

  class Database {
    var schools: seq<School>
    var statuses: seq<SchoolWeeklyStatus>
    var nextSchoolId: nat
    var nextStatusId: nat

    /** Both tables are in id order, every id is below its counter, and no
        school has two statuses for one week. */
    ghost predicate Valid()
      reads this
    {
      && Pairwise(schools, SchoolIdBefore)
      && (forall k :: 0 <= k < |schools| ==> schools[k].id < nextSchoolId)
      && Pairwise(statuses, StatusIdBefore)
      && (forall k :: 0 <= k < |statuses| ==> statuses[k].id < nextStatusId)
      && UniqueSchoolWeeks(statuses)
    }

    constructor ()
      ensures Valid() && schools == [] && statuses == []
    {
      schools, statuses := [], [];
      nextSchoolId, nextStatusId := 1, 1;
    }

    /** `School.objects.bulk_create(news)`: the schools are stored under fresh
        ids in list order and returned with them. */
    method CreateSchools(news: seq<School>) returns (created: seq<School>)
      requires Valid()
      modifies this
      ensures Valid()
      ensures created == NumberSchools(news, old(nextSchoolId))
      ensures schools == old(schools) + created
      ensures statuses == old(statuses) && nextStatusId == old(nextStatusId)
      ensures nextSchoolId == old(nextSchoolId) + |news|
    {
      created := NumberSchools(news, nextSchoolId);
      PairwiseAppend(schools, created, SchoolIdBefore);
      schools := schools + created;
      nextSchoolId := nextSchoolId + |news|;
    }

    /** `school.save()` on a stored school: its row is overwritten. */
    method SaveSchool(k: nat, school: School)
      requires Valid() && k < |schools| && school.id == schools[k].id
      modifies this
      ensures Valid()
      ensures schools == old(schools)[k := school]
      ensures statuses == old(statuses) && nextSchoolId == old(nextSchoolId) && nextStatusId == old(nextStatusId)
    {
      schools := schools[k := school];
    }

    /** One object of `School.objects.bulk_update(objects, fields)`. */
    method UpdateFields(school: School, fields: set<string>)
      requires Valid()
      modifies this
      ensures Valid()
      ensures schools == WriteBack(old(schools), school, fields)
      ensures statuses == old(statuses) && nextSchoolId == old(nextSchoolId) && nextStatusId == old(nextStatusId)
    {
      schools := WriteBack(schools, school, fields);
    }

    /** `School.objects.filter(...).delete()`: the schools `doomed` selects go,
        and their statuses with them (the foreign key cascades). */
    method DeleteSchools(doomed: School -> bool)
      requires Valid()
      modifies this
      ensures Valid()
      ensures schools == Filter(old(schools), s => !doomed(s))
      ensures statuses == Filter(old(statuses), (st: SchoolWeeklyStatus) => st.school !in SchoolIds(Filter(old(schools), doomed)))
      ensures nextSchoolId == old(nextSchoolId) && nextStatusId == old(nextStatusId)
    {
      var gone := SchoolIds(Filter(schools, doomed));
      FilterPairwise(schools, s => !doomed(s), SchoolIdBefore);
      FilterPairwise(statuses, (st: SchoolWeeklyStatus) => st.school !in gone, StatusIdBefore);
      FilterPairwise(statuses, (st: SchoolWeeklyStatus) => st.school !in gone, DistinctSchoolWeeks);
      schools := Filter(schools, s => !doomed(s));
      statuses := Filter(statuses, (st: SchoolWeeklyStatus) => st.school !in gone);
    }

    /** The delete of the week's statuses for the schools of `news` followed by
        `bulk_create(news)`. The insert raises, and stores none of the records,
        when two of them are for one school (the uniqueness constraint) or when
        a small-integer column gets a value it cannot hold (`int()` on the
        latency text raises ValueError, the database refuses a number out of
        range); `parseInt` is Python's `int()` on a string. The delete before
        it stays done. */
    method ReplaceWeek(news: seq<SchoolWeeklyStatus>, year: int, week: int, parseInt: string -> Option<int>)
      returns (raised: bool)
      requires Valid()
      requires forall k :: 0 <= k < |news| ==> news[k].year == year && news[k].week == week
      modifies this
      ensures Valid()
      ensures raised <==> HasDuplicateSchool(news) || !AllStorable(news, parseInt)
      ensures var kept := Filter(old(statuses), OutsideWeek(StatusSchools(news), year, week));
              statuses == (if raised then kept else kept + NumberStatuses(news, old(nextStatusId)))
      ensures nextStatusId == old(nextStatusId) + (if raised then 0 else |news|)
      ensures schools == old(schools) && nextSchoolId == old(nextSchoolId)
    {
      var ids := StatusSchools(news);
      var kept := Filter(statuses, OutsideWeek(ids, year, week));
      FilterPairwise(statuses, OutsideWeek(ids, year, week), StatusIdBefore);
      FilterPairwise(statuses, OutsideWeek(ids, year, week), DistinctSchoolWeeks);
      raised := HasDuplicateSchool(news) || !AllStorable(news, parseInt);
      if raised {
        statuses := kept;
      } else {
        var inserted := NumberStatuses(news, nextStatusId);
        assert Pairwise(inserted, DistinctSchoolWeeks);
        forall i, j | 0 <= i < |kept| && 0 <= j < |inserted|
          ensures DistinctSchoolWeeks(kept[i], inserted[j])
        {
          assert OutsideWeek(ids, year, week)(kept[i]);
          assert news[j] in news;
        }
        PairwiseAppend(kept, inserted, DistinctSchoolWeeks);
        PairwiseAppend(kept, inserted, StatusIdBefore);
        statuses := kept + inserted;
        nextStatusId := nextStatusId + |news|;
      }
    }

    /** `School.objects.bulk_update(schools, ['last_weekly_status'])`: each
        listed school id gets the given pointer; nothing else changes. */
    method SetLastWeeklyStatus(pointer: map<SchoolId, nat>)
      requires Valid()
      modifies this
      ensures Valid()
      ensures |schools| == |old(schools)|
      ensures forall k :: 0 <= k < |schools| ==>
                schools[k] == if old(schools)[k].id in pointer
                              then old(schools)[k].(lastWeeklyStatus := Some(pointer[old(schools)[k].id]))
                              else old(schools)[k]
      ensures statuses == old(statuses) && nextSchoolId == old(nextSchoolId) && nextStatusId == old(nextStatusId)
    {
      var current := schools;
      var updated := seq(|current|, k requires 0 <= k < |current| =>
                           if current[k].id in pointer then current[k].(lastWeeklyStatus := Some(pointer[current[k].id]))
                           else current[k]);
      assert forall k :: 0 <= k < |updated| ==> updated[k].id == current[k].id;
      schools := updated;
    }
  }
}
