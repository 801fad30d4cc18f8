/** The weekly status records of `proco/connection_statistics/models.py`: the
    per-school snapshot with its derived connectivity status, the per-country
    summary with its integration-status promotion, and the one-record-per-week
    constraints of both tables. */
module ConnectionStatistics {
  import opened Wrappers
  import opened SchoolModels
  import opened Collections

  /** A calendar day. `strptime(f'{year}-W{week}-1', '%Y-W%W-%w')` is not
      computed here: the day a (year, week) pair stands for is a parameter,
      `weekStart`, of the operations that fill the `date` column. */
  type Date = int

  // ----------------------------------------------------- SchoolWeeklyStatus

  datatype ConnectivityStatus = No | Unknown | Moderate | Good

  /** One row of the SchoolWeeklyStatus table. The coverage columns are the
      ones the loaders write; None is the column left at its default. The
      latency is kept as the text the loaders assign to it. */
  datatype SchoolWeeklyStatus = SchoolWeeklyStatus(
    id: nat,
    school: SchoolId,
    year: int,
    week: int,
    date: Date,
    numStudents: int,
    numTeachers: int,
    numClassroom: int,
    numLatrines: int,
    runningWater: bool,
    electricityAvailability: bool,
    computerLab: bool,
    numComputers: int,
    connectivity: bool,
    connectivityStatus: ConnectivityStatus,
    connectivityType: string,
    connectivitySpeed: real,
    connectivityLatency: string,
    coverageAvailability: Option<bool>,
    coverageType: Option<string>)

  /** A new, unsaved record for `school` with every column at its default. */
  function DefaultStatus(school: SchoolId, year: int, week: int, date: Date): (s: SchoolWeeklyStatus)
    ensures s.school == school && s.year == year && s.week == week && s.date == date
    ensures s.numStudents == 0 && s.numComputers == 0 && !s.connectivity && s.connectivitySpeed == 0.0
    ensures s.connectivityStatus == Unknown && s.connectivityType == "unknown"
  {
    SchoolWeeklyStatus(0, school, year, week, date, 0, 0, 0, 0, false, false, false, 0,
                       false, Unknown, "unknown", 0.0, "0", None, None)
  }

  /** `get_connectivity_status`: a case split on the connectivity flag and the
      speed, a zero speed reading as absent. */
  function GetConnectivityStatus(connectivity: bool, speed: real): (r: ConnectivityStatus)
    ensures r == No <==> !connectivity
    ensures r == Unknown <==> connectivity && speed == 0.0
    ensures r == Good <==> connectivity && speed > 5.0
    ensures r == Moderate <==> connectivity && speed != 0.0 && speed <= 5.0
  {
    if !connectivity then No
    else if speed == 0.0 then Unknown
    else if speed > 5.0 then Good
    else Moderate
  }

  /** Rank of a connectivity status, worst first, for comparing two of them. */
  function StatusRank(s: ConnectivityStatus): nat {
    match s
    case No => 0
    case Unknown => 1
    case Moderate => 2
    case Good => 3
  }

  /** A faster measured link never gets a worse status (a speed of zero reads
      as no measurement at all, so only positive speeds compare). */
  lemma ConnectivityStatusMonotone(connectivity: bool, slow: real, fast: real)
    requires 0.0 < slow <= fast
    ensures StatusRank(GetConnectivityStatus(connectivity, slow)) <= StatusRank(GetConnectivityStatus(connectivity, fast))
  {
  }

  /** The stored status agrees with the stored flag and speed. */
  ghost predicate StatusConsistent(s: SchoolWeeklyStatus) {
    s.connectivityStatus == GetConnectivityStatus(s.connectivity, s.connectivitySpeed)
  }

  /** `SchoolWeeklyStatus.save`: the record as written, with the date of its
      (year, week) and the status recomputed from the current fields; nothing
      else changes. */
  function SaveSchoolWeeklyStatus(s: SchoolWeeklyStatus, weekStart: (int, int) -> Date): (r: SchoolWeeklyStatus)
    ensures StatusConsistent(r)
    ensures r.date == weekStart(r.year, r.week)
    ensures r.(date := s.date, connectivityStatus := s.connectivityStatus) == s
  {
    s.(date := weekStart(s.year, s.week),
       connectivityStatus := GetConnectivityStatus(s.connectivity, s.connectivitySpeed))
  }

  /** Saving again changes nothing. */
  lemma SaveSchoolWeeklyStatusIdempotent(s: SchoolWeeklyStatus, weekStart: (int, int) -> Date)
    ensures SaveSchoolWeeklyStatus(SaveSchoolWeeklyStatus(s, weekStart), weekStart) == SaveSchoolWeeklyStatus(s, weekStart)
  {
  }

  /** `PositiveSmallIntegerField`: PostgreSQL's `smallint` under a check that
      the value is not negative. */
  const PositiveSmallIntMax: int := 32767

  predicate FitsPositiveSmallInt(v: int) {
    0 <= v <= PositiveSmallIntMax
  }

  /** The latency column's default, the integer 0. */
  const DefaultLatency: string := "0"

  /** The loaders put the latency cell's text into a `PositiveSmallIntegerField`;
      on insert Django passes it through `int()`, which raises ValueError on
      text that is not an integer, and the database refuses a value out of
      range. */
  predicate LatencyStorable(text: string, parseInt: string -> Option<int>) {
    text == DefaultLatency || (parseInt(text).Some? && FitsPositiveSmallInt(parseInt(text).value))
  }

  /** Every small-integer column of the record holds a value the table
      accepts. */
  predicate Storable(s: SchoolWeeklyStatus, parseInt: string -> Option<int>) {
    && FitsPositiveSmallInt(s.year) && FitsPositiveSmallInt(s.week)
    && FitsPositiveSmallInt(s.numStudents) && FitsPositiveSmallInt(s.numTeachers)
    && FitsPositiveSmallInt(s.numClassroom) && FitsPositiveSmallInt(s.numLatrines)
    && FitsPositiveSmallInt(s.numComputers)
    && LatencyStorable(s.connectivityLatency, parseInt)
  }

  /** `unique_together = ('year', 'week', 'school')`. */
  ghost predicate UniqueSchoolWeeks(statuses: seq<SchoolWeeklyStatus>) {
    Pairwise(statuses, DistinctSchoolWeeks)
  }

  function DistinctSchoolWeeks(a: SchoolWeeklyStatus, b: SchoolWeeklyStatus): bool {
    !(a.school == b.school && a.year == b.year && a.week == b.week)
  }

  // ---------------------------------------------------- CountryWeeklyStatus

  datatype IntegrationStatus = Joined | SchoolMapped | StaticMapped | RealtimeMapped

  function IntegrationRank(s: IntegrationStatus): nat {
    match s
    case Joined => 0
    case SchoolMapped => 1
    case StaticMapped => 2
    case RealtimeMapped => 3
  }

  /** One row of the CountryWeeklyStatus table; the counters are
      PositiveIntegerFields. `id` is None for a record not yet inserted. */
  datatype CountryWeeklyStatus = CountryWeeklyStatus(
    id: Option<nat>,
    country: CountryId,
    year: int,
    week: int,
    date: Date,
    schoolsTotal: nat,
    schoolsConnected: nat,
    schoolsConnectivityUnknown: nat,
    schoolsConnectivityNo: nat,
    schoolsConnectivityModerate: nat,
    schoolsConnectivityGood: nat,
    connectivitySpeed: real,
    integrationStatus: IntegrationStatus,
    avgDistanceSchool: real)

  /** `CountryWeeklyStatus.save`: the date of its (year, week), and a country
      whose schools are mapped moves on to "static connectivity mapped" exactly
      when it has a non-zero speed. */
  function SaveCountryWeeklyStatus(c: CountryWeeklyStatus, weekStart: (int, int) -> Date): (r: CountryWeeklyStatus)
    ensures r.date == weekStart(c.year, c.week)
    ensures r.integrationStatus != c.integrationStatus
            <==> c.integrationStatus == SchoolMapped && c.connectivitySpeed != 0.0
    ensures r.integrationStatus != c.integrationStatus ==> r.integrationStatus == StaticMapped
    ensures IntegrationRank(c.integrationStatus) <= IntegrationRank(r.integrationStatus)
    ensures r.(date := c.date, integrationStatus := c.integrationStatus) == c
  {
    var promoted := c.integrationStatus == SchoolMapped && c.connectivitySpeed != 0.0;
    c.(date := weekStart(c.year, c.week),
       integrationStatus := if promoted then StaticMapped else c.integrationStatus)
  }

  /** Saving again changes nothing. */
  lemma SaveCountryWeeklyStatusIdempotent(c: CountryWeeklyStatus, weekStart: (int, int) -> Date)
    ensures SaveCountryWeeklyStatus(SaveCountryWeeklyStatus(c, weekStart), weekStart) == SaveCountryWeeklyStatus(c, weekStart)
  {
  }

  /** `unique_together = ('year', 'week', 'country')`. */
  ghost predicate UniqueCountryWeeks(statuses: seq<CountryWeeklyStatus>) {
    Pairwise(statuses, DistinctCountryWeeks)
  }

  function DistinctCountryWeeks(a: CountryWeeklyStatus, b: CountryWeeklyStatus): bool {
    !(a.country == b.country && a.year == b.year && a.week == b.week)
  }
}
