/** The row validator of `proco/schools/loaders/validation.py`: one sparse row of
    strings becomes the School attributes and the weekly-status attributes, or
    exactly one error. It also holds the digit filter `clean_number` and the
    second-nearest-neighbour test `validate_point_distance`. */
module Validation {
  import opened Wrappers
  import opened Text
  import opened SchoolModels
  import opened Collections

  /** A spreadsheet row after normalisation: column name to text. A column that
      is absent was not supplied. */
  type Row = map<string, string>

  /** What the validator consults but does not define: Python's `float()` and
      `int()` on a string (None where they raise ValueError), the keys of
      `School.ENVIRONMENT_STATUSES`, the values of `COVERAGE_TYPES`, and the
      width of the `coverage_type` column. */
  datatype Env = Env(
    parseFloat: string -> Option<real>,
    parseInt: string -> Option<int>,
    environmentValues: set<string>,
    coverageTypes: set<string>,
    coverageTypeMaxLength: nat)

  /** The `school_data` dict: keys that are absent in the source are None here. */
  datatype SchoolData = SchoolData(
    country: CountryId,
    externalId: Option<string>,
    geopoint: GeoPoint,
    educationLevel: Option<string>,
    name: Option<string>,
    admin1Name: Option<string>,
    admin2Name: Option<string>,
    admin3Name: Option<string>,
    admin4Name: Option<string>,
    environment: Option<string>,
    address: Option<string>,
    schoolType: Option<string>)

  /** The `history_data` dict. The latency is kept as the text of the cell. */
  datatype HistoryData = HistoryData(
    numStudents: Option<int>,
    numTeachers: Option<int>,
    numClassroom: Option<int>,
    numLatrines: Option<int>,
    electricityAvailability: Option<bool>,
    computerLab: Option<bool>,
    numComputers: Option<int>,
    connectivity: Option<bool>,
    connectivityType: Option<string>,
    connectivitySpeed: Option<real>,
    coverageAvailability: Option<bool>,
    coverageType: Option<string>,
    connectivityLatency: Option<string>,
    runningWater: Option<bool>)

  /** The four-tuple `(school_data, history_data, errors, warnings)`. */
  datatype RowResult = RowResult(
    school: Option<SchoolData>,
    history: Option<HistoryData>,
    errors: seq<string>,
    warnings: seq<string>)

  const ConnectivityTypeMaxLength: nat := 64
  const TrueWords: set<string> := {"true", "yes", "1"}
  const NoCoverageWords: set<string> := {"no service", "no coverage", "no"}

  /** The names of the School columns present in `school_data` (the keys
      `update_existing_schools` groups rows by). */
  function Keys(sd: SchoolData): set<string> {
    {"country", "geopoint"}
    + (if sd.externalId.Some? then {"external_id"} else {})
    + (if sd.educationLevel.Some? then {"education_level"} else {})
    + (if sd.name.Some? then {"name"} else {})
    + (if sd.admin1Name.Some? then {"admin_1_name"} else {})
    + (if sd.admin2Name.Some? then {"admin_2_name"} else {})
    + (if sd.admin3Name.Some? then {"admin_3_name"} else {})
    + (if sd.admin4Name.Some? then {"admin_4_name"} else {})
    + (if sd.environment.Some? then {"environment"} else {})
    + (if sd.address.Some? then {"address"} else {})
    + (if sd.schoolType.Some? then {"school_type"} else {})
  }

  /** The identifier, the name and the address are among the keys exactly
      when the row supplies them; the country and the point always are. */
  lemma KeysNamed(sd: SchoolData)
    ensures "country" in Keys(sd) && "geopoint" in Keys(sd)
    ensures "name" in Keys(sd) <==> sd.name.Some?
    ensures "external_id" in Keys(sd) <==> sd.externalId.Some?
    ensures "address" in Keys(sd) <==> sd.address.Some?
  {
  }

  // ---------------------------------------------------------------- messages

  function TooLongMessage(column: string, maxLength: nat): string {
    "Bad data provided for " + column + ": max length of " + NatToString(maxLength) + " characters exceeded"
  }

  /** `', '.join(missing_fields)`; when both are missing the source's set order is
      unspecified and the model lists "lat, lon". */
  function MissingColumns(data: Row): string
    requires "lat" !in data || "lon" !in data
  {
    if "lat" !in data && "lon" !in data then "lat, lon"
    else if "lat" !in data then "lat"
    else "lon"
  }

  function MissingMessage(data: Row): string
    requires "lat" !in data || "lon" !in data
  {
    "Missing data for required column(s) " + MissingColumns(data)
  }

  const GeopointMessage := "Bad data provided for geopoint"
  const ZeroPointMessage := "Bad data provided for geopoint: zero point"
  const SpeedMessage := "Bad data provided for connectivity_speed"

  // ------------------------------------------------------ what each check means

  /** The cell, if present, fits the column. */
  ghost predicate Fits(data: Row, key: string, maxLength: nat) {
    key in data ==> |data[key]| <= maxLength
  }

  /** An optional text column: present exactly when the cell is, then as given and
      within the width. */
  ghost predicate CopiedWithin(data: Row, key: string, maxLength: nat, field: Option<string>) {
    (key in data <==> field.Some?) && (field.Some? ==> field.value == data[key] && |data[key]| <= maxLength)
  }

  ghost predicate PointOk(env: Env, data: Row)
    requires "lat" in data && "lon" in data
  {
    && env.parseFloat(data["lon"]).Some? && env.parseFloat(data["lat"]).Some?
    && !(env.parseFloat(data["lon"]).value == 0.0 && env.parseFloat(data["lat"]).value == 0.0)
  }

  ghost predicate CountOk(env: Env, data: Row, key: string) {
    key in data ==> env.parseInt(data[key]).Some? && env.parseInt(data[key]).value >= 0
  }

  /** A count column: present exactly when the cell is, then the parsed, non-negative value. */
  ghost predicate CountFrom(env: Env, data: Row, key: string, field: Option<int>) {
    (key in data <==> field.Some?) && (field.Some? ==> env.parseInt(data[key]) == field && field.value >= 0)
  }

  ghost predicate SpeedOk(env: Env, data: Row) {
    "speed_connectivity" in data ==> env.parseFloat(data["speed_connectivity"]).Some?
  }

  ghost predicate CoverageOk(env: Env, data: Row) {
    "coverage_type" in data ==>
      var c := data["coverage_type"];
      (Lower(c) in NoCoverageWords || |c| <= env.coverageTypeMaxLength) && Lower(c) in env.coverageTypes
  }

  // ------------------------------------------------------------ field checks

  /** The cell as given, if it fits the column. */
  function BoundedField(data: Row, key: string, maxLength: nat, column: string): (r: Result<Option<string>, string>)
    ensures r.Success? <==> Fits(data, key, maxLength)
    ensures r.Success? ==> CopiedWithin(data, key, maxLength, r.value)
    ensures r.Failure? ==> r.error == TooLongMessage(column, maxLength)
  {
    if key !in data then Success(None)
    else if |data[key]| > maxLength then Failure(TooLongMessage(column, maxLength))
    else Success(Some(data[key]))
  }

  /** The identifier is stored lower-cased. */
  function ExternalIdField(data: Row): (r: Result<Option<string>, string>)
    ensures r.Success? <==> Fits(data, "school_id", ExternalIdMaxLength)
    ensures r.Success? ==> ("school_id" in data <==> r.value.Some?)
    ensures r.Success? && r.value.Some? ==> r.value.value == Lower(data["school_id"])
    ensures r.Failure? ==> r.error == TooLongMessage("school identifier", ExternalIdMaxLength)
  {
    if "school_id" !in data then Success(None)
    else if |data["school_id"]| > ExternalIdMaxLength then
      Failure(TooLongMessage("school identifier", ExternalIdMaxLength))
    else Success(Some(Lower(data["school_id"])))
  }

  /** The zero point and an unreadable coordinate are rejected with two
      different messages. */
  function GeopointField(env: Env, data: Row): (r: Result<GeoPoint, string>)
    requires "lat" in data && "lon" in data
    ensures r.Success? <==> PointOk(env, data)
    ensures r.Success? ==> env.parseFloat(data["lon"]) == Some(r.value.x) && env.parseFloat(data["lat"]) == Some(r.value.y)
    ensures r.Failure? ==>
              r.error == (if env.parseFloat(data["lon"]).Some? && env.parseFloat(data["lat"]).Some?
                          then ZeroPointMessage else GeopointMessage)
  {
    match (env.parseFloat(data["lon"]), env.parseFloat(data["lat"]))
    case (Some(x), Some(y)) =>
      if x == 0.0 && y == 0.0 then Failure(ZeroPointMessage) else Success(GeoPoint(x, y))
    case _ => Failure(GeopointMessage)
  }

  /** An unknown environment is coerced to `urban`, never an error; a known one
      is stored lower-cased. */
  function EnvironmentField(env: Env, data: Row): (r: Option<string>)
    ensures "environment" in data <==> r.Some?
    ensures r.Some? && Lower(data["environment"]) in env.environmentValues ==> r.value == Lower(data["environment"])
    ensures r.Some? && Lower(data["environment"]) !in env.environmentValues ==> r.value == Urban
  {
    if "environment" !in data then None
    else if Lower(data["environment"]) in env.environmentValues then Some(Lower(data["environment"]))
    else Some(Urban)
  }

  /** A count column: `int()` must succeed and give a value of at least zero;
      `clean_number` of an int is that int. */
  function CountField(env: Env, data: Row, key: string): (r: Result<Option<int>, string>)
    ensures r.Success? <==> CountOk(env, data, key)
    ensures r.Success? ==> CountFrom(env, data, key, r.value)
    ensures r.Failure? ==> r.error == "Bad data provided for " + key
  {
    if key !in data then Success(None)
    else match env.parseInt(data[key])
      case None => Failure("Bad data provided for " + key)
      case Some(n) => if n < 0 then Failure("Bad data provided for " + key) else Success(Some(n))
  }

  /** `value.lower() in ['true', 'yes', '1']`. */
  function FlagField(data: Row, key: string): Option<bool> {
    if key in data then Some(Lower(data[key]) in TrueWords) else None
  }

  /** Megabits to bits per second; a value strictly between 500 and 600 is read
      as a unit mistake and taken as 0.5. */
  function MbpsToBps(speed: real): real {
    (if 500.0 < speed < 600.0 then 0.5 else speed) * 1000000.0
  }

  function SpeedField(env: Env, data: Row): (r: Result<Option<real>, string>)
    ensures r.Success? <==> SpeedOk(env, data)
    ensures r.Success? ==> ("speed_connectivity" in data <==> r.value.Some?)
    ensures r.Success? && r.value.Some? ==>
              r.value.value == MbpsToBps(env.parseFloat(data["speed_connectivity"]).value)
    ensures r.Failure? ==> r.error == SpeedMessage
  {
    if "speed_connectivity" !in data then Success(None)
    else match env.parseFloat(data["speed_connectivity"])
      case None => Failure(SpeedMessage)
      case Some(s) => Success(Some(MbpsToBps(s)))
  }

  /** The `coverage_availability` and `coverage_type` pair. On the "no service"
      words the source first stores False and COVERAGE_NO, but then falls through
      to the membership test, which either rejects the row or overwrites both; so
      on success with a type the availability is True and the type is the
      lower-cased input. */
  function CoverageFields(env: Env, data: Row): (r: Result<(Option<bool>, Option<string>), string>)
    ensures r.Success? <==> CoverageOk(env, data)
    ensures r.Success? && "coverage_type" in data ==>
              r.value == (Some(true), Some(Lower(data["coverage_type"])))
    ensures r.Success? && "coverage_type" !in data ==>
              r.value == (FlagField(data, "coverage_availability"), None)
  {
    var availability := FlagField(data, "coverage_availability");
    if "coverage_type" !in data then Success((availability, None))
    else
      var c := data["coverage_type"];
      if Lower(c) !in NoCoverageWords && |c| > env.coverageTypeMaxLength then
        Failure(TooLongMessage("coverage_type", env.coverageTypeMaxLength))
      else if Lower(c) !in env.coverageTypes then
        Failure("Bad data provided for coverage_type: " + c + " type does not exist")
      else Success((Some(true), Some(Lower(c))))
  }

  // --------------------------------------------------------------- the stages

  ghost predicate SchoolColumnsValid(env: Env, data: Row)
    requires "lat" in data && "lon" in data
  {
    && Fits(data, "school_id", ExternalIdMaxLength)
    && PointOk(env, data)
    && Fits(data, "educ_level", EducationLevelMaxLength)
    && Fits(data, "name", NameMaxLength)
    && Fits(data, "admin1", AdminNameMaxLength)
    && Fits(data, "admin2", AdminNameMaxLength)
    && Fits(data, "admin3", AdminNameMaxLength)
    && Fits(data, "admin4", AdminNameMaxLength)
    && Fits(data, "address", AddressMaxLength)
    && Fits(data, "type_school", SchoolTypeMaxLength)
  }

  ghost predicate HistoryColumnsValid(env: Env, data: Row) {
    CountColumnsValid(env, data) && ConnectivityColumnsValid(env, data)
  }

  /** Reference definition of the rows the validator accepts, independent of
      the order in which the source checks the columns. */
  ghost predicate RowIsValid(env: Env, data: Row) {
    "lat" in data && "lon" in data && SchoolColumnsValid(env, data) && HistoryColumnsValid(env, data)
  }

  ghost predicate SchoolDataMeans(env: Env, country: CountryId, data: Row, sd: SchoolData)
    requires "lat" in data && "lon" in data
  {
    && sd.country == country
    && ("school_id" in data <==> sd.externalId.Some?)
    && (sd.externalId.Some? ==>
          |data["school_id"]| <= ExternalIdMaxLength && sd.externalId.value == Lower(data["school_id"]))
    && env.parseFloat(data["lon"]) == Some(sd.geopoint.x)
    && env.parseFloat(data["lat"]) == Some(sd.geopoint.y)
    && !(sd.geopoint.x == 0.0 && sd.geopoint.y == 0.0)
    && CopiedWithin(data, "educ_level", EducationLevelMaxLength, sd.educationLevel)
    && CopiedWithin(data, "name", NameMaxLength, sd.name)
    && CopiedWithin(data, "admin1", AdminNameMaxLength, sd.admin1Name)
    && CopiedWithin(data, "admin2", AdminNameMaxLength, sd.admin2Name)
    && CopiedWithin(data, "admin3", AdminNameMaxLength, sd.admin3Name)
    && CopiedWithin(data, "admin4", AdminNameMaxLength, sd.admin4Name)
    && ("environment" in data <==> sd.environment.Some?)
    && (sd.environment.Some? ==>
          sd.environment.value ==
            (if Lower(data["environment"]) in env.environmentValues then Lower(data["environment"]) else Urban))
    && CopiedWithin(data, "address", AddressMaxLength, sd.address)
    && CopiedWithin(data, "type_school", SchoolTypeMaxLength, sd.schoolType)
  }

  ghost predicate HistoryDataMeans(env: Env, data: Row, hd: HistoryData) {
    CountsMean(env, data, hd) && ConnectionMeans(env, data, hd)
  }

  ghost predicate CountsMean(env: Env, data: Row, hd: HistoryData) {
    && CountFrom(env, data, "num_students", hd.numStudents)
    && CountFrom(env, data, "num_teachers", hd.numTeachers)
    && CountFrom(env, data, "num_classroom", hd.numClassroom)
    && CountFrom(env, data, "num_latrines", hd.numLatrines)
    && CountFrom(env, data, "num_computers", hd.numComputers)
    && hd.electricityAvailability == FlagField(data, "electricity")
    && hd.computerLab == (if "num_computers" in data then Some(true) else FlagField(data, "computer_lab"))
    && hd.runningWater == FlagField(data, "water")
  }

  ghost predicate ConnectionMeans(env: Env, data: Row, hd: HistoryData) {
    && CopiedWithin(data, "type_connectivity", ConnectivityTypeMaxLength, hd.connectivityType)
    && ("speed_connectivity" in data <==> hd.connectivitySpeed.Some?)
    && (hd.connectivitySpeed.Some? ==>
          && env.parseFloat(data["speed_connectivity"]).Some?
          && hd.connectivitySpeed.value == MbpsToBps(env.parseFloat(data["speed_connectivity"]).value))
    && hd.connectivity == (if "speed_connectivity" in data then Some(true) else FlagField(data, "connectivity"))
    && ("coverage_type" in data <==> hd.coverageType.Some?)
    && (hd.coverageType.Some? ==>
          && hd.coverageType.value == Lower(data["coverage_type"])
          && hd.coverageType.value in env.coverageTypes
          && hd.coverageAvailability == Some(true))
    && ("coverage_type" !in data ==> hd.coverageAvailability == FlagField(data, "coverage_availability"))
    && ("latency_connectivity" in data <==> hd.connectivityLatency.Some?)
    && (hd.connectivityLatency.Some? ==> hd.connectivityLatency.value == data["latency_connectivity"])
  }

  /** The School columns, checked in the source's order. */
  function SchoolFields(env: Env, country: CountryId, data: Row): (r: Result<SchoolData, string>)
    requires "lat" in data && "lon" in data
    ensures r.Success? <==> SchoolColumnsValid(env, data)
    ensures r.Success? ==> SchoolDataMeans(env, country, data, r.value)
  {
    var externalId :- ExternalIdField(data);
    var geopoint :- GeopointField(env, data);
    var educationLevel :- BoundedField(data, "educ_level", EducationLevelMaxLength, "name");
    var name :- BoundedField(data, "name", NameMaxLength, "name");
    var admin1 :- BoundedField(data, "admin1", AdminNameMaxLength, "admin1");
    var admin2 :- BoundedField(data, "admin2", AdminNameMaxLength, "admin2");
    var admin3 :- BoundedField(data, "admin3", AdminNameMaxLength, "admin3");
    var admin4 :- BoundedField(data, "admin4", AdminNameMaxLength, "admin4");
    var environment := EnvironmentField(env, data);
    var address :- BoundedField(data, "address", AddressMaxLength, "address");
    var schoolType :- BoundedField(data, "type_school", SchoolTypeMaxLength, "type_school");
    Success(SchoolData(country, externalId, geopoint, educationLevel, name,
                       admin1, admin2, admin3, admin4, environment, address, schoolType))
  }

  ghost predicate CountColumnsValid(env: Env, data: Row) {
    && CountOk(env, data, "num_students")
    && CountOk(env, data, "num_teachers")
    && CountOk(env, data, "num_classroom")
    && CountOk(env, data, "num_latrines")
    && CountOk(env, data, "num_computers")
  }

  ghost predicate ConnectivityColumnsValid(env: Env, data: Row) {
    Fits(data, "type_connectivity", ConnectivityTypeMaxLength) && SpeedOk(env, data) && CoverageOk(env, data)
  }

  datatype Counts = Counts(students: Option<int>, teachers: Option<int>, classrooms: Option<int>,
                           latrines: Option<int>, computers: Option<int>)

  ghost predicate CountsFrom(env: Env, data: Row, counts: Counts) {
    && CountFrom(env, data, "num_students", counts.students)
    && CountFrom(env, data, "num_teachers", counts.teachers)
    && CountFrom(env, data, "num_classroom", counts.classrooms)
    && CountFrom(env, data, "num_latrines", counts.latrines)
    && CountFrom(env, data, "num_computers", counts.computers)
  }

  /** The five count columns, in the source's order (the flag columns that sit
      between them cannot fail). */
  function CountColumns(env: Env, data: Row): (r: Result<Counts, string>)
    ensures r.Success? <==> CountColumnsValid(env, data)
    ensures r.Success? ==> CountsFrom(env, data, r.value)
  {
    var students :- CountField(env, data, "num_students");
    var teachers :- CountField(env, data, "num_teachers");
    var classrooms :- CountField(env, data, "num_classroom");
    var latrines :- CountField(env, data, "num_latrines");
    var computers :- CountField(env, data, "num_computers");
    Success(Counts(students, teachers, classrooms, latrines, computers))
  }

  /** Connection type, speed and the (coverage availability, coverage type) pair. */
  type Connection = (Option<string>, Option<real>, (Option<bool>, Option<string>))

  /** The connection type, the speed and the coverage pair, in the source's order. */
  function ConnectivityColumns(env: Env, data: Row): (r: Result<Connection, string>)
    ensures r.Success? <==> ConnectivityColumnsValid(env, data)
    ensures r.Success? ==> ConnectionFrom(env, data, r.value)
  {
    var connectivityType :- BoundedField(data, "type_connectivity", ConnectivityTypeMaxLength, "type_connectivity");
    var speed :- SpeedField(env, data);
    var coverage :- CoverageFields(env, data);
    Success((connectivityType, speed, coverage))
  }

  ghost predicate ConnectionFrom(env: Env, data: Row, connection: Connection) {
    && CopiedWithin(data, "type_connectivity", ConnectivityTypeMaxLength, connection.0)
    && ("speed_connectivity" in data <==> connection.1.Some?)
    && (connection.1.Some? ==>
          && env.parseFloat(data["speed_connectivity"]).Some?
          && connection.1.value == MbpsToBps(env.parseFloat(data["speed_connectivity"]).value))
    && ("coverage_type" in data ==>
          && connection.2 == (Some(true), Some(Lower(data["coverage_type"])))
          && Lower(data["coverage_type"]) in env.coverageTypes)
    && ("coverage_type" !in data ==> connection.2 == (FlagField(data, "coverage_availability"), None))
  }

  /** The status record made of the parsed columns and the flag columns. */
  function History(data: Row, counts: Counts, connection: Connection): HistoryData {
    var computerLab := if counts.computers.Some? then Some(true) else FlagField(data, "computer_lab");
    var connectivity := if connection.1.Some? then Some(true) else FlagField(data, "connectivity");
    var latency := if "latency_connectivity" in data then Some(data["latency_connectivity"]) else None;
    HistoryData(counts.students, counts.teachers, counts.classrooms, counts.latrines,
                FlagField(data, "electricity"), computerLab, counts.computers,
                connectivity, connection.0, connection.1, connection.2.0, connection.2.1, latency,
                FlagField(data, "water"))
  }

  lemma HistoryCounts(env: Env, data: Row, counts: Counts, connection: Connection)
    requires CountsFrom(env, data, counts)
    ensures CountsMean(env, data, History(data, counts, connection))
  {
  }

  lemma HistoryConnection(env: Env, data: Row, counts: Counts, connection: Connection)
    requires ConnectionFrom(env, data, connection)
    ensures ConnectionMeans(env, data, History(data, counts, connection))
  {
  }

  /** The weekly-status columns, checked in the source's order. */
  function HistoryFields(env: Env, data: Row): (r: Result<HistoryData, string>)
    ensures r.Success? <==> HistoryColumnsValid(env, data)
    ensures r.Success? ==> HistoryDataMeans(env, data, r.value)
  {
    match CountColumns(env, data)
    case Failure(e) => Failure(e)
    case Success(counts) =>
      match ConnectivityColumns(env, data)
      case Failure(e) => Failure(e)
      case Success(connection) =>
        HistoryCounts(env, data, counts, connection);
        HistoryConnection(env, data, counts, connection);
        Success(History(data, counts, connection))
  }

  // ------------------------------------------------------------ validate_row

  /** `validate_row`: fail-fast, so a rejected row carries exactly one error and
      neither dict, and the warnings list is never filled. What an accepted row
      holds is stated by ValidateRowMeaning. */
  function ValidateRow(env: Env, country: CountryId, data: Row): (r: RowResult)
    ensures r.warnings == []
    ensures r.errors == [] <==> (r.school.Some? && r.history.Some?)
    ensures r.errors != [] ==> |r.errors| == 1 && r.school.None? && r.history.None?
    ensures ("lat" !in data || "lon" !in data) ==> r.errors == [MissingMessage(data)]
  {
    if "lat" !in data || "lon" !in data then RowResult(None, None, [MissingMessage(data)], [])
    else match SchoolFields(env, country, data)
      case Failure(e) => RowResult(None, None, [e], [])
      case Success(sd) =>
        match HistoryFields(env, data)
        case Failure(e) => RowResult(None, None, [e], [])
        case Success(hd) => RowResult(Some(sd), Some(hd), [], [])
  }

  /** A row is accepted exactly when it meets every check, whatever their
      order, and then the two dicts hold what the columns say. */
  lemma ValidateRowMeaning(env: Env, country: CountryId, data: Row)
    ensures ValidateRow(env, country, data).errors == [] <==> RowIsValid(env, data)
    ensures ValidateRow(env, country, data).errors == [] ==>
              && "lat" in data && "lon" in data
              && SchoolDataMeans(env, country, data, ValidateRow(env, country, data).school.value)
              && HistoryDataMeans(env, data, ValidateRow(env, country, data).history.value)
  {
  }

  /** The first checks, in order: an over-long identifier, then an unreadable
      point, then the zero point, each with its own message. */
  lemma EarlyRejections(env: Env, country: CountryId, data: Row)
    requires "lat" in data && "lon" in data
    ensures "school_id" in data && |data["school_id"]| > ExternalIdMaxLength ==>
              ValidateRow(env, country, data).errors == [TooLongMessage("school identifier", ExternalIdMaxLength)]
    ensures Fits(data, "school_id", ExternalIdMaxLength)
            && (env.parseFloat(data["lon"]).None? || env.parseFloat(data["lat"]).None?) ==>
              ValidateRow(env, country, data).errors == [GeopointMessage]
    ensures Fits(data, "school_id", ExternalIdMaxLength)
            && env.parseFloat(data["lon"]) == Some(0.0) && env.parseFloat(data["lat"]) == Some(0.0) ==>
              ValidateRow(env, country, data).errors == [ZeroPointMessage]
  {
  }

  /** Whatever the environment cell says, the row is accepted exactly when the
      same row without it is. */
  lemma EnvironmentNeverRejects(env: Env, country: CountryId, data: Row, value: string)
    ensures ValidateRow(env, country, data["environment" := value]).errors == []
        <==> ValidateRow(env, country, data - {"environment"}).errors == []
  {
    var with, without := data["environment" := value], data - {"environment"};
    ValidateRowMeaning(env, country, with);
    ValidateRowMeaning(env, country, without);
    EnvironmentIrrelevant(env, with, without);
  }

  lemma EnvironmentIrrelevant(env: Env, with: Row, without: Row)
    requires forall k :: k != "environment" ==> (k in with <==> k in without)
    requires forall k :: k != "environment" && k in with ==> with[k] == without[k]
    ensures RowIsValid(env, with) <==> RowIsValid(env, without)
  {
    assert HistoryColumnsValid(env, with) <==> HistoryColumnsValid(env, without);
    if "lat" in with && "lon" in with {
      assert SchoolColumnsValid(env, with) <==> SchoolColumnsValid(env, without);
    }
  }

  /** The test in the design notes: 550 "mbps" is stored as 500000 bps, and a
      speed marks the school connected. */
  lemma UnitMistakeSpeed(env: Env, country: CountryId, data: Row)
    requires "speed_connectivity" in data && env.parseFloat(data["speed_connectivity"]) == Some(550.0)
    requires ValidateRow(env, country, data).errors == []
    ensures ValidateRow(env, country, data).history.value.connectivitySpeed == Some(500000.0)
    ensures ValidateRow(env, country, data).history.value.connectivity == Some(true)
  {
    ValidateRowMeaning(env, country, data);
  }

  // ------------------------------------------------------------- clean_number

  /** The argument of `clean_number`: an int or a str. */
  datatype IntOrText = Int(i: int) | Text(s: string)

  /** `''.join(findall(r'[0-9]+', s))`: the ASCII digits of `s`, in order. */
  function KeepDigits(s: string): (r: string)
    ensures r == Filter(s, IsDigit)
  {
    if s == [] then []
    else
      assert s == [s[0]] + s[1..];
      FilterCons(s[0], s[1..], IsDigit);
      if IsDigit(s[0]) then [s[0]] + KeepDigits(s[1..]) else KeepDigits(s[1..])
  }

  /** A string of digits only comes through unchanged. */
  lemma DigitsUnchanged(s: string)
    requires forall i :: 0 <= i < |s| ==> IsDigit(s[i])
    ensures KeepDigits(s) == s
  {
    FilterAll(s, IsDigit);
  }

  /** Filtering commutes with concatenation, so the digits of a string are the
      digits of its pieces. */
  lemma {:induction false} KeepDigitsAppend(a: string, b: string)
    ensures KeepDigits(a + b) == KeepDigits(a) + KeepDigits(b)
    decreases |a|
  {
    if a == [] {
      assert a + b == b;
    } else {
      assert (a + b)[0] == a[0] && (a + b)[1..] == a[1..] + b;
      KeepDigitsAppend(a[1..], b);
      if IsDigit(a[0]) {
        calc {
          KeepDigits(a + b);
          [a[0]] + KeepDigits(a[1..] + b);
          [a[0]] + (KeepDigits(a[1..]) + KeepDigits(b));
          ([a[0]] + KeepDigits(a[1..])) + KeepDigits(b);
        }
      }
    }
  }

  function CleanNumber(num: IntOrText): (r: IntOrText)
    ensures num.Int? ==> r == num
    ensures num.Text? ==> r.Text? && r.s == Filter(num.s, IsDigit)
  {
    match num
    case Int(_) => num
    case Text(s) => Text(KeepDigits(s))
  }

  /** Cleaning twice is cleaning once. */
  lemma CleanNumberIdempotent(num: IntOrText)
    ensures CleanNumber(CleanNumber(num)) == CleanNumber(num)
  {
    if num.Text? {
      DigitsUnchanged(KeepDigits(num.s));
    }
  }

  // -------------------------------------------------- validate_point_distance

  const DefaultDistance: real := 0.5

  /** How many entries of the index lie strictly closer than `d` to `q`. */
  function CloseCount<P>(index: seq<P>, q: P, dist: (P, P) -> real, d: real): (n: nat)
    ensures n <= |index|
  {
    if index == [] then 0
    else CloseCount(index[..|index| - 1], q, dist, d) + (if dist(q, index[|index| - 1]) < d then 1 else 0)
  }

  ghost predicate TwoClose<P>(index: seq<P>, q: P, dist: (P, P) -> real, d: real) {
    exists i, j :: 0 <= i < j < |index| && dist(q, index[i]) < d && dist(q, index[j]) < d
  }

  lemma {:induction false} CloseCountAtLeastTwo<P>(index: seq<P>, q: P, dist: (P, P) -> real, d: real)
    ensures CloseCount(index, q, dist, d) >= 2 <==> TwoClose(index, q, dist, d)
    ensures CloseCount(index, q, dist, d) >= 1 <==> exists i :: 0 <= i < |index| && dist(q, index[i]) < d
  {
    if index != [] {
      var init := index[..|index| - 1];
      var last := |index| - 1;
      CloseCountAtLeastTwo(init, q, dist, d);
      if TwoClose(init, q, dist, d) {
        var i, j :| 0 <= i < j < |init| && dist(q, init[i]) < d && dist(q, init[j]) < d;
        assert index[i] == init[i] && index[j] == init[j];
      }
      if TwoClose(index, q, dist, d) {
        var i, j :| 0 <= i < j < |index| && dist(q, index[i]) < d && dist(q, index[j]) < d;
        if j < last {
          assert init[i] == index[i] && init[j] == index[j];
        } else {
          assert init[i] == index[i];
        }
      }
      if exists i :: 0 <= i < |index| && dist(q, index[i]) < d {
        var i :| 0 <= i < |index| && dist(q, index[i]) < d;
        if i < last { assert init[i] == index[i]; }
      }
      if exists i :: 0 <= i < |init| && dist(q, init[i]) < d {
        var i :| 0 <= i < |init| && dist(q, init[i]) < d;
        assert index[i] == init[i];
      }
    }
  }

  /** `validate_point_distance`: the k-d tree query returns the two nearest
      distances and the point fails when the second one is below `d`, which is
      to say when two distinct entries of the index are closer than `d`. An index
      with a single entry passes (the missing neighbour is at infinity). */
  function ValidatePointDistance<P>(index: seq<P>, q: P, dist: (P, P) -> real, d: real): (ok: bool)
    ensures !ok <==> TwoClose(index, q, dist, d)
    ensures |index| <= 1 ==> ok
  {
    CloseCountAtLeastTwo(index, q, dist, d);
    CloseCount(index, q, dist, d) < 2
  }

  /** When the checked point is itself in the index (as in every use), it passes
      exactly when no other entry lies closer than `d`. */
  lemma SelfInIndex<P>(index: seq<P>, k: nat, dist: (P, P) -> real, d: real)
    requires k < |index| && dist(index[k], index[k]) < d
    ensures ValidatePointDistance(index, index[k], dist, d)
            <==> forall j :: 0 <= j < |index| && j != k ==> dist(index[k], index[j]) >= d
  {
    var q := index[k];
    if forall j :: 0 <= j < |index| && j != k ==> dist(q, index[j]) >= d {
      assert !TwoClose(index, q, dist, d);
    } else {
      var j :| 0 <= j < |index| && j != k && dist(q, index[j]) < d;
      if j < k {
        assert dist(q, index[j]) < d && dist(q, index[k]) < d;
      } else {
        assert dist(q, index[k]) < d && dist(q, index[j]) < d;
      }
    }
  }

}
