/** `change_integration_status_country` of `proco/schools/signals.py`: after a
    school with a point is created, its country's latest weekly summary is
    carried into the current week, a country that had only joined becomes
    "school locations mapped" (and its mapping date is set), and the summary
    counts one more school of unknown connectivity. */
module Signals {
  import opened Wrappers
  import opened Collections
  import opened SchoolModels
  import opened ConnectionStatistics

  /** The CountryWeeklyStatus table with its id counter, and the
      `date_schools_mapped` column of the countries (absent: null). */
  datatype Summaries = Summaries(weekly: seq<CountryWeeklyStatus>, nextWeeklyId: nat, datesMapped: map<CountryId, Date>)

  /** Why the handler stops with an exception. */
  datatype SignalError =
    | NoCountrySummary      // `.last()` found nothing, so attribute access fails
    | ExpressionInInsert    // an F() expression in an INSERT
    | DuplicateCountryWeek  // `unique_together = ('year', 'week', 'country')`

  datatype Outcome = Ignored | Raised(error: SignalError) | Recorded

  function WeeklyIdBefore(a: CountryWeeklyStatus, b: CountryWeeklyStatus): bool {
    a.id.Some? && b.id.Some? && a.id.value < b.id.value
  }

  /** `CountryWeeklyStatus.objects.filter(country_id=country).last()` in a
      table kept in id order: the position of the country's newest summary. */
  function LastIndexOf(weekly: seq<CountryWeeklyStatus>, country: CountryId): (r: Option<nat>)
    ensures r.None? <==> forall k :: 0 <= k < |weekly| ==> weekly[k].country != country
    ensures r.Some? ==> r.value < |weekly| && weekly[r.value].country == country
                        && forall m :: r.value < m < |weekly| ==> weekly[m].country != country
  {
    if weekly == [] then None
    else if weekly[|weekly| - 1].country == country then Some(|weekly| - 1)
    else LastIndexOf(weekly[..|weekly| - 1], country)
  }

  /** The country already has a summary for (year, week). */
  predicate HasWeek(weekly: seq<CountryWeeklyStatus>, country: CountryId, year: int, week: int) {
    exists k :: 0 <= k < |weekly| && weekly[k].country == country && weekly[k].year == year && weekly[k].week == week
  }

  // ---------------------------------------------------- the summary's changes

  /** A summary of another week becomes an unsaved copy dated this week. */
  function RollForward(c: CountryWeeklyStatus, year: int, week: int): (r: CountryWeeklyStatus)
    ensures r.year == year && r.week == week
    ensures r.id.Some? <==> c.id.Some? && c.year == year && c.week == week
    ensures r.(id := c.id, year := c.year, week := c.week) == c
  {
    if c.year == year && c.week == week then c else c.(id := None, year := year, week := week)
  }

  /** A country that had only joined now has its schools mapped. */
  function MarkMapped(c: CountryWeeklyStatus): (r: CountryWeeklyStatus)
    ensures r.integrationStatus == (if c.integrationStatus == Joined then SchoolMapped else c.integrationStatus)
    ensures r.(integrationStatus := c.integrationStatus) == c
  {
    if c.integrationStatus == Joined then c.(integrationStatus := SchoolMapped) else c
  }

  /** One more school, of unknown connectivity. */
  function CountNewSchool(c: CountryWeeklyStatus): (r: CountryWeeklyStatus)
    ensures r.schoolsTotal == c.schoolsTotal + 1 && r.schoolsConnectivityUnknown == c.schoolsConnectivityUnknown + 1
    ensures r.(schoolsTotal := c.schoolsTotal, schoolsConnectivityUnknown := c.schoolsConnectivityUnknown) == c
  {
    c.(schoolsTotal := c.schoolsTotal + 1, schoolsConnectivityUnknown := c.schoolsConnectivityUnknown + 1)
  }

  /** The summary as `save` writes it. */
  function Counted(c: CountryWeeklyStatus, year: int, week: int, weekStart: (int, int) -> Date): CountryWeeklyStatus {
    SaveCountryWeeklyStatus(CountNewSchool(MarkMapped(RollForward(c, year, week))), weekStart)
  }

  /** The mapping date is set exactly when the summary leaves "joined". */
  function MappedDates(dates: map<CountryId, Date>, country: CountryId, rolled: CountryWeeklyStatus,
                       weekStart: (int, int) -> Date): map<CountryId, Date> {
    if rolled.integrationStatus == Joined then dates[country := weekStart(rolled.year, rolled.week)] else dates
  }

  /** The final `save` as the handler means it: an UPDATE of the summary it
      read when that is this week's, else an INSERT of the copy with a fresh
      id, refused when the country already has this week. */
  function Store(t: Summaries, k: nat, r: CountryWeeklyStatus): (Summaries, Outcome)
    requires k < |t.weekly|
  {
    if r.id.Some? then (t.(weekly := t.weekly[k := r]), Recorded)
    else if HasWeek(t.weekly, r.country, r.year, r.week) then (t, Raised(DuplicateCountryWeek))
    else (t.(weekly := t.weekly + [r.(id := Some(t.nextWeeklyId))], nextWeeklyId := t.nextWeeklyId + 1), Recorded)
  }

  /** The handler, with the summary stored as intended. */
  function Signal(t: Summaries, school: School, created: bool, hasGeopoint: bool,
                  year: int, week: int, weekStart: (int, int) -> Date): (r: (Summaries, Outcome))
    ensures !created || !hasGeopoint ==> r == (t, Ignored)
    ensures r.1 == Raised(NoCountrySummary)
            <==> created && hasGeopoint && forall k :: 0 <= k < |t.weekly| ==> t.weekly[k].country != school.country
    ensures r.1 != Recorded ==> r.0.weekly == t.weekly && r.0.nextWeeklyId == t.nextWeeklyId
  {
    if !created || !hasGeopoint then (t, Ignored)
    else match LastIndexOf(t.weekly, school.country)
      case None => (t, Raised(NoCountrySummary))
      case Some(k) =>
        var rolled := RollForward(t.weekly[k], year, week);
        Store(t.(datesMapped := MappedDates(t.datesMapped, school.country, rolled, weekStart)), k,
              Counted(t.weekly[k], year, week, weekStart))
  }

  /** The handler as written: the copy for a new week still holds the F()
      increments, which an INSERT refuses, after the mapping date is saved. */
  function SignalAsWritten(t: Summaries, school: School, created: bool, hasGeopoint: bool,
                           year: int, week: int, weekStart: (int, int) -> Date): (Summaries, Outcome)
  {
    if !created || !hasGeopoint then (t, Ignored)
    else match LastIndexOf(t.weekly, school.country)
      case None => (t, Raised(NoCountrySummary))
      case Some(k) =>
        var rolled := RollForward(t.weekly[k], year, week);
        var t1 := t.(datesMapped := MappedDates(t.datesMapped, school.country, rolled, weekStart));
        var r := Counted(t.weekly[k], year, week, weekStart);
        if r.id.None? then (t1, Raised(ExpressionInInsert)) else Store(t1, k, r)
  }

  // ------------------------------------------------------------------- lemmas

  /** As written, the first school created in a new week never reaches the
      summary table; as intended, it starts that week's summary. */
  lemma NewWeekInsertRejected(t: Summaries, school: School, year: int, week: int, weekStart: (int, int) -> Date)
    requires LastIndexOf(t.weekly, school.country).Some?
    requires var c := t.weekly[LastIndexOf(t.weekly, school.country).value]; c.year != year || c.week != week
    requires !HasWeek(t.weekly, school.country, year, week)
    ensures SignalAsWritten(t, school, true, true, year, week, weekStart).1 == Raised(ExpressionInInsert)
    ensures SignalAsWritten(t, school, true, true, year, week, weekStart).0.weekly == t.weekly
    ensures Signal(t, school, true, true, year, week, weekStart).1 == Recorded
    ensures |Signal(t, school, true, true, year, week, weekStart).0.weekly| == |t.weekly| + 1
  {
  }

  /** Within a week the two agree: the summary is updated in place. */
  lemma SameWeekAgrees(t: Summaries, school: School, created: bool, hasGeopoint: bool,
                       year: int, week: int, weekStart: (int, int) -> Date)
    requires forall k :: 0 <= k < |t.weekly| ==> t.weekly[k].id.Some?
    requires LastIndexOf(t.weekly, school.country).Some?
    requires var c := t.weekly[LastIndexOf(t.weekly, school.country).value]; c.year == year && c.week == week
    ensures SignalAsWritten(t, school, created, hasGeopoint, year, week, weekStart)
            == Signal(t, school, created, hasGeopoint, year, week, weekStart)
  {
  }

  /** After a recorded signal the country's newest summary is this week's,
      with one more school of unknown connectivity than the summary it
      started from and every other counter and the speed carried over. */
  lemma RecordedSummary(t: Summaries, school: School, year: int, week: int, weekStart: (int, int) -> Date)
    requires Signal(t, school, true, true, year, week, weekStart).1 == Recorded
    ensures LastIndexOf(t.weekly, school.country).Some?
    ensures var c := t.weekly[LastIndexOf(t.weekly, school.country).value];
            var after := Signal(t, school, true, true, year, week, weekStart).0.weekly;
            var j := LastIndexOf(after, school.country);
            && j.Some?
            && after[j.value].year == year && after[j.value].week == week
            && after[j.value].schoolsTotal == c.schoolsTotal + 1
            && after[j.value].schoolsConnectivityUnknown == c.schoolsConnectivityUnknown + 1
            && after[j.value].schoolsConnected == c.schoolsConnected
            && after[j.value].schoolsConnectivityNo == c.schoolsConnectivityNo
            && after[j.value].connectivitySpeed == c.connectivitySpeed
  {
    var k := LastIndexOf(t.weekly, school.country).value;
    var after := Signal(t, school, true, true, year, week, weekStart).0.weekly;
    var r := Counted(t.weekly[k], year, week, weekStart);
    if r.id.Some? {
      assert after == t.weekly[k := r];
      LastAfterUpdate(t.weekly, k, r);
    } else {
      assert after == t.weekly + [r.(id := Some(t.nextWeeklyId))];
      LastAfterAppend(t.weekly, r.(id := Some(t.nextWeeklyId)));
    }
  }

  /** Replacing a country's newest summary by one of the same country keeps
      it the newest. */
  lemma LastAfterUpdate(weekly: seq<CountryWeeklyStatus>, k: nat, r: CountryWeeklyStatus)
    requires LastIndexOf(weekly, r.country) == Some(k)
    ensures LastIndexOf(weekly[k := r], r.country) == Some(k)
  {
    var after := weekly[k := r];
    assert after[k].country == r.country;
    var j := LastIndexOf(after, r.country);
    assert k <= j.value;
    assert after[j.value].country == r.country;
    assert forall m :: k < m < |after| ==> after[m].country != r.country by {
      forall m | k < m < |after| ensures after[m].country != r.country {
        assert after[m] == weekly[m];
      }
    }
  }

  /** An appended summary is its country's newest. */
  lemma LastAfterAppend(weekly: seq<CountryWeeklyStatus>, r: CountryWeeklyStatus)
    ensures LastIndexOf(weekly + [r], r.country) == Some(|weekly|)
  {
  }

  /** The integration status after a recorded signal: a country that had
      only joined has its schools mapped, and moves straight on to static
      connectivity mapped when its summary already has a speed; the mapping
      date is set for it and for no other. A status never moves back. */
  lemma StatusAfterSignal(t: Summaries, school: School, year: int, week: int, weekStart: (int, int) -> Date)
    requires LastIndexOf(t.weekly, school.country).Some?
    ensures var c := t.weekly[LastIndexOf(t.weekly, school.country).value];
            var r := Counted(c, year, week, weekStart);
            var after := Signal(t, school, true, true, year, week, weekStart).0;
            && (c.integrationStatus == Joined ==>
                  r.integrationStatus == (if c.connectivitySpeed != 0.0 then StaticMapped else SchoolMapped)
                  && after.datesMapped == t.datesMapped[school.country := weekStart(year, week)])
            && (c.integrationStatus != Joined ==> after.datesMapped == t.datesMapped)
            && IntegrationRank(c.integrationStatus) <= IntegrationRank(r.integrationStatus)
  {
  }

  /** The handler keeps one summary per country and week. */
  lemma SignalKeepsWeeksUnique(t: Summaries, school: School, created: bool, hasGeopoint: bool,
                               year: int, week: int, weekStart: (int, int) -> Date)
    requires UniqueCountryWeeks(t.weekly)
    ensures UniqueCountryWeeks(Signal(t, school, created, hasGeopoint, year, week, weekStart).0.weekly)
  {
    var after := Signal(t, school, created, hasGeopoint, year, week, weekStart);
    if after.1 == Recorded {
      var k := LastIndexOf(t.weekly, school.country).value;
      var r := Counted(t.weekly[k], year, week, weekStart);
      if r.id.Some? {
        UpdateKeepsUnique(t.weekly, k, r);
      } else {
        AppendKeepsUnique(t.weekly, r.(id := Some(t.nextWeeklyId)));
      }
    }
  }

  lemma UpdateKeepsUnique(weekly: seq<CountryWeeklyStatus>, k: nat, r: CountryWeeklyStatus)
    requires UniqueCountryWeeks(weekly) && k < |weekly|
    requires r.country == weekly[k].country && r.year == weekly[k].year && r.week == weekly[k].week
    ensures UniqueCountryWeeks(weekly[k := r])
  {
    var after := weekly[k := r];
    forall i, j | 0 <= i < j < |after| ensures DistinctCountryWeeks(after[i], after[j]) {
      assert DistinctCountryWeeks(weekly[i], weekly[j]);
    }
  }

  lemma AppendKeepsUnique(weekly: seq<CountryWeeklyStatus>, r: CountryWeeklyStatus)
    requires UniqueCountryWeeks(weekly) && !HasWeek(weekly, r.country, r.year, r.week)
    ensures UniqueCountryWeeks(weekly + [r])
  {
    var after := weekly + [r];
    forall i, j | 0 <= i < j < |after| ensures DistinctCountryWeeks(after[i], after[j]) {
      if j < |weekly| {
        assert DistinctCountryWeeks(weekly[i], weekly[j]);
      } else {
        assert after[i] == weekly[i];
      }
    }
  }

  // ------------------------------------------------------------- the tables

  class CountrySummaries {
    var weekly: seq<CountryWeeklyStatus>
    var nextWeeklyId: nat
    var datesMapped: map<CountryId, Date>

    /** Every summary is stored with an id below the counter, the table is in
        id order, and no country has two summaries for one week. */
    ghost predicate Valid()
      reads this
    {
      && (forall k :: 0 <= k < |weekly| ==> weekly[k].id.Some? && weekly[k].id.value < nextWeeklyId)
      && Pairwise(weekly, WeeklyIdBefore)
      && UniqueCountryWeeks(weekly)
    }

    function Snapshot(): Summaries
      reads this
    {
      Summaries(weekly, nextWeeklyId, datesMapped)
    }

    constructor ()
      ensures Valid() && weekly == [] && datesMapped == map[]
    {
      weekly := [];
      nextWeeklyId := 1;
      datesMapped := map[];
    }

    /** An UPDATE of the summary at `k`. */
    method UpdateSummary(k: nat, r: CountryWeeklyStatus)
      requires Valid() && k < |weekly| && r.id == weekly[k].id
      requires r.country == weekly[k].country && r.year == weekly[k].year && r.week == weekly[k].week
      modifies this
      ensures Valid()
      ensures weekly == old(weekly)[k := r] && nextWeeklyId == old(nextWeeklyId) && datesMapped == old(datesMapped)
    {
      UpdateKeepsUnique(weekly, k, r);
      weekly := weekly[k := r];
    }

    /** An INSERT with a fresh id, refused when the country already has a
        summary for that week. */
    method InsertSummary(r: CountryWeeklyStatus) returns (raised: bool)
      requires Valid()
      modifies this
      ensures Valid()
      ensures raised <==> HasWeek(old(weekly), r.country, r.year, r.week)
      ensures weekly == (if raised then old(weekly) else old(weekly) + [r.(id := Some(old(nextWeeklyId)))])
      ensures nextWeeklyId == (if raised then old(nextWeeklyId) else old(nextWeeklyId) + 1)
      ensures datesMapped == old(datesMapped)
    {
      raised := HasWeek(weekly, r.country, r.year, r.week);
      if !raised {
        var stored := r.(id := Some(nextWeeklyId));
        AppendKeepsUnique(weekly, stored);
        weekly := weekly + [stored];
        nextWeeklyId := nextWeeklyId + 1;
      }
    }

    /** `country.save(update_fields=('date_schools_mapped',))`. */
    method SetDateSchoolsMapped(country: CountryId, date: Date)
      modifies this
      ensures datesMapped == old(datesMapped)[country := date]
      ensures weekly == old(weekly) && nextWeeklyId == old(nextWeeklyId)
    {
      datesMapped := datesMapped[country := date];
    }

    /** The summary carried into the current week and, for a country that
        had only joined, marked as mapped with the mapping date saved. */
    method CarryForward(country: CountryId, k: nat, year: int, week: int, weekStart: (int, int) -> Date)
      returns (summary: CountryWeeklyStatus)
      requires k < |weekly|
      modifies this
      ensures summary == MarkMapped(RollForward(old(weekly)[k], year, week))
      ensures datesMapped == MappedDates(old(datesMapped), country, RollForward(old(weekly)[k], year, week), weekStart)
      ensures weekly == old(weekly) && nextWeeklyId == old(nextWeeklyId)
    {
      summary := weekly[k];
      if !(summary.year == year && summary.week == week) {
        summary := summary.(id := None, year := year, week := week);
      }
      if summary.integrationStatus == Joined {
        summary := summary.(integrationStatus := SchoolMapped);
        SetDateSchoolsMapped(country, weekStart(summary.year, summary.week));
      }
    }

    /** `country_weekly.save()`, as intended. */
    method StoreSummary(k: nat, summary: CountryWeeklyStatus) returns (outcome: Outcome)
      requires Valid() && k < |weekly|
      requires summary.id.Some? ==> summary.id == weekly[k].id && summary.country == weekly[k].country
                                    && summary.year == weekly[k].year && summary.week == weekly[k].week
      modifies this
      ensures Valid()
      ensures (Snapshot(), outcome) == Store(old(Snapshot()), k, summary)
    {
      if summary.id.Some? {
        UpdateSummary(k, summary);
        outcome := Recorded;
      } else {
        var raised := InsertSummary(summary);
        outcome := if raised then Raised(DuplicateCountryWeek) else Recorded;
      }
    }

    /** The post-save handler for a School, with the summary stored as
        intended; `year` and `week` are the ISO week of the moment it runs. */
    method ChangeIntegrationStatusCountry(school: School, created: bool, hasGeopoint: bool,
                                          year: int, week: int, weekStart: (int, int) -> Date)
      returns (outcome: Outcome)
      requires Valid()
      modifies this
      ensures Valid()
      ensures (Snapshot(), outcome) == Signal(old(Snapshot()), school, created, hasGeopoint, year, week, weekStart)
    {
      if !created || !hasGeopoint {
        return Ignored;
      }
      var last := LastIndexOf(weekly, school.country);
      if last.None? {
        return Raised(NoCountrySummary);
      }
      var k := last.value;
      var summary := CarryForward(school.country, k, year, week, weekStart);
      summary := summary.(schoolsTotal := summary.schoolsTotal + 1,
                          schoolsConnectivityUnknown := summary.schoolsConnectivityUnknown + 1);
      summary := SaveCountryWeeklyStatus(summary, weekStart);
      outcome := StoreSummary(k, summary);
    }
  }
}
