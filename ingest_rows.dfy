/** The row rules of the legacy importer, `proco/schools/loaders/ingest.py`:
    the choice of file reader, the cleaning of a row, and the checks one row
    goes through before it is saved, in the order the loop makes them. They
    differ from the validator's: the name is required, an unknown environment
    is an error, and a school is matched by identifier or by name nearby. */
module IngestRows {
  import opened Wrappers
  import opened Text
  import opened SchoolModels
  import opened Validation
  import opened PipelineRows
  import PipelineSchools

  // ---------------------------------------------------------------- load_data

  datatype Loader = CsvLoader | XlsLoader

  /** `load_data`: the reader is chosen by the file name's extension; any
      other name raises NotImplementedError (None). */
  function LoaderFor(fileName: string): (r: Option<Loader>)
    ensures r == Some(CsvLoader) <==> EndsWith(fileName, ".csv")
    ensures r.None? <==> !EndsWith(fileName, ".csv") && !EndsWith(fileName, ".xls") && !EndsWith(fileName, ".xlsx")
  {
    if EndsWith(fileName, ".csv") then Some(CsvLoader)
    else if EndsWith(fileName, ".xls") then Some(XlsLoader)
    else if EndsWith(fileName, ".xlsx") then Some(XlsLoader)
    else None
  }

  /** A spreadsheet name, either extension, is read by the spreadsheet
      reader: no name ends in both ".xlsx" and ".csv". */
  lemma SpreadsheetsReadAsSpreadsheets(fileName: string)
    requires EndsWith(fileName, ".xls") || EndsWith(fileName, ".xlsx")
    ensures LoaderFor(fileName) == Some(XlsLoader)
  {
    LastOfSuffix(fileName, ".csv");
    LastOfSuffix(fileName, ".xls");
    LastOfSuffix(fileName, ".xlsx");
  }

  lemma LastOfSuffix(s: string, suffix: string)
    requires suffix != []
    ensures EndsWith(s, suffix) ==> s[|s| - 1] == suffix[|suffix| - 1]
  {
    if EndsWith(s, suffix) {
      assert s[|s| - 1] == s[|s| - |suffix|..][|suffix| - 1];
    }
  }

  // ------------------------------------------------------------ the row dict

  /** `{key.encode('ascii', 'ignore').decode(): value for key, value in
      data.items() if value != ''}`: empty cells go first, then keys lose
      their non-ASCII characters, a later column replacing an earlier one
      whose key collapses onto the same text. Values are not stripped. */
  function CleanCells(raw: RawRow): (data: Row)
    ensures forall k :: k in data ==> data[k] != ""
    ensures forall k :: k in data <==> exists i :: 0 <= i < |raw| && raw[i].1 != "" && AsciiOnly(raw[i].0) == k
  {
    if raw == [] then map[]
    else
      var init, last := raw[..|raw| - 1], raw[|raw| - 1];
      var before := CleanCells(init);
      assert forall i :: 0 <= i < |init| ==> init[i] == raw[i];
      if last.1 == "" then before else before[AsciiOnly(last.0) := last.1]
  }

  /** A cell holds the value of the last non-empty column whose key collapses
      onto it. */
  lemma {:induction false} CleanCellFromLastColumn(raw: RawRow, i: nat)
    requires i < |raw| && raw[i].1 != ""
    requires forall j :: i < j < |raw| && raw[j].1 != "" ==> AsciiOnly(raw[j].0) != AsciiOnly(raw[i].0)
    ensures CleanCells(raw)[AsciiOnly(raw[i].0)] == raw[i].1
  {
    if i < |raw| - 1 {
      var init := raw[..|raw| - 1];
      assert init[i] == raw[i];
      CleanCellFromLastColumn(init, i);
    }
  }

  // ---------------------------------------------------------------- messages

  /** The required columns the row lacks, listed as name, lat, lon (the
      source joins a set difference, whose order Python leaves open). */
  function MissingRequired(data: Row): (r: seq<string>)
    ensures r == [] <==> "name" in data && "lat" in data && "lon" in data
  {
    (if "name" !in data then ["name"] else [])
    + (if "lat" !in data then ["lat"] else [])
    + (if "lon" !in data then ["lon"] else [])
  }

  function RequiredMessage(missing: seq<string>): string {
    "Missing data for required column(s) " + Join(", ", missing)
  }

  function EnvironmentMessage(keys: seq<string>): string {
    "Bad data provided for environment: should be in " + Join(", ", keys)
  }

  // ---------------------------------------------------------- configuration

  /** What the importer consults but does not define: the parsers, the keys
      of `School.ENVIRONMENT_STATUSES` in their order, the country's
      geometry, and the 500 m distance test of `geopoint__distance_lte`. */
  datatype Config = Config(
    env: Env,
    environmentKeys: seq<string>,
    contains: GeoPoint -> bool,
    near: (GeoPoint, GeoPoint) -> bool)

  // ---------------------------------------------------- checks before lookup

  /** The cell as given, within the column width. */
  ghost predicate Within(data: Row, key: string, maxLength: nat, field: Option<string>) {
    CopiedWithin(data, key, maxLength, field)
  }

  /** The checks between the required columns and the lookup all pass. */
  ghost predicate EarlyValid(c: Config, data: Row)
    requires "lat" in data && "lon" in data
  {
    && Fits(data, "school_id", ExternalIdMaxLength)
    && PointOk(c.env, data)
    && c.contains(GeoPoint(c.env.parseFloat(data["lon"]).value, c.env.parseFloat(data["lat"]).value))
    && Fits(data, "educ_level", EducationLevelMaxLength)
    && Fits(data, "name", NameMaxLength)
  }

  /** Identifier, point, education level and name, checked in that order.
      The identifier is kept as given; an over-long education level is
      reported under the name "name", as the source's message says. */
  function EarlyFields(c: Config, country: CountryId, data: Row): (r: Result<SchoolData, string>)
    requires "name" in data && "lat" in data && "lon" in data
    ensures r.Success? <==> EarlyValid(c, data)
    ensures r.Success? ==>
              && r.value.country == country
              && Within(data, "school_id", ExternalIdMaxLength, r.value.externalId)
              && Within(data, "educ_level", EducationLevelMaxLength, r.value.educationLevel)
              && r.value.name == Some(data["name"])
              && c.contains(r.value.geopoint)
              && c.env.parseFloat(data["lon"]) == Some(r.value.geopoint.x)
              && c.env.parseFloat(data["lat"]) == Some(r.value.geopoint.y)
  {
    var externalId :- BoundedField(data, "school_id", ExternalIdMaxLength, "school identifier");
    var geopoint :- GeopointField(c.env, data);
    if !c.contains(geopoint) then Failure(PipelineSchools.OutsideMessage)
    else
      var educationLevel :- BoundedField(data, "educ_level", EducationLevelMaxLength, "name");
      var name :- BoundedField(data, "name", NameMaxLength, "name");
      Success(SchoolData(country, externalId, geopoint, educationLevel, name,
                         None, None, None, None, None, None, None))
  }

  /** A zero point, and a point outside the country, are errors. */
  lemma PointRejections(c: Config, country: CountryId, data: Row)
    requires "name" in data && "lat" in data && "lon" in data
    requires Fits(data, "school_id", ExternalIdMaxLength)
    requires c.env.parseFloat(data["lon"]).Some? && c.env.parseFloat(data["lat"]).Some?
    ensures var x, y := c.env.parseFloat(data["lon"]).value, c.env.parseFloat(data["lat"]).value;
            && (x == 0.0 && y == 0.0 ==> EarlyFields(c, country, data) == Failure(ZeroPointMessage))
            && (!(x == 0.0 && y == 0.0) && !c.contains(GeoPoint(x, y)) ==>
                  EarlyFields(c, country, data) == Failure(PipelineSchools.OutsideMessage))
  {
  }

  // ----------------------------------------------------------------- lookup

  /** `.first()` of a query over the School table, which is kept in id
      order: the position of the first school the filter selects. */
  function FirstMatch(schools: seq<School>, selects: School -> bool): (r: Option<nat>)
    ensures r.Some? ==> r.value < |schools| && selects(schools[r.value])
                        && forall k :: 0 <= k < r.value ==> !selects(schools[k])
    ensures r.None? ==> forall k :: 0 <= k < |schools| ==> !selects(schools[k])
  {
    if schools == [] then None
    else if selects(schools[0]) then Some(0)
    else
      var rest := FirstMatch(schools[1..], selects);
      if rest.Some? then Some(rest.value + 1) else None
  }

  /** `School.objects.filter(external_id=...)`: exact text, any country. */
  function WithExternalId(id: string): School -> bool {
    (s: School) => s.externalId == id
  }

  /** `School.objects.filter(name=..., geopoint__distance_lte=(point, 500 m))`,
      narrowed to the education level when the row gives one. */
  function NamedNear(c: Config, name: string, point: GeoPoint, level: Option<string>): School -> bool {
    (s: School) => s.name == name && c.near(s.geopoint, point) && (level.Some? ==> s.educationLevel == level.value)
  }

  /** The school the row is saved into: the first with the row's identifier,
      else the first with its name within 500 m. */
  function FindSchool(c: Config, schools: seq<School>, data: Row, early: SchoolData): (r: Option<nat>)
    requires "name" in data
    ensures r.Some? ==> r.value < |schools|
    ensures "school_id" in data && FirstMatch(schools, WithExternalId(data["school_id"])).Some? ==>
              r == FirstMatch(schools, WithExternalId(data["school_id"]))
    ensures ("school_id" !in data || FirstMatch(schools, WithExternalId(data["school_id"])).None?) ==>
              r == FirstMatch(schools, NamedNear(c, data["name"], early.geopoint, early.educationLevel))
    ensures r.Some? && ("school_id" !in data || FirstMatch(schools, WithExternalId(data["school_id"])).None?) ==>
              var s := schools[r.value];
              s.name == data["name"] && c.near(s.geopoint, early.geopoint)
              && (early.educationLevel.Some? ==> s.educationLevel == early.educationLevel.value)
  {
    var byId := if "school_id" in data then FirstMatch(schools, WithExternalId(data["school_id"])) else None;
    if byId.Some? then byId
    else FirstMatch(schools, NamedNear(c, data["name"], early.geopoint, early.educationLevel))
  }

  // --------------------------------------------- admin columns (see README)

  /** `School._meta.get_field(name).max_length` for the columns the importer
      asks about; None is FieldDoesNotExist. */
  function ColumnMaxLength(column: string): Option<nat> {
    if column == "external_id" then Some(ExternalIdMaxLength)
    else if column == "name" then Some(NameMaxLength)
    else if column in {"admin_1_name", "admin_2_name", "admin_3_name", "admin_4_name"} then Some(AdminNameMaxLength)
    else if column == "education_level" then Some(EducationLevelMaxLength)
    else if column == "environment" then Some(EnvironmentMaxLength)
    else if column == "school_type" then Some(SchoolTypeMaxLength)
    else if column == "address" then Some(AddressMaxLength)
    else None
  }

  datatype AdminOutcome = AdminRaised | AdminChecked(r: Result<seq<Option<string>>, string>)

  /** The admin columns as the source checks them: the width is asked of a
      column called "admin1", which the School model does not have. */
  function AdminFieldsAsWritten(data: Row): (r: AdminOutcome)
  {
    match ColumnMaxLength("admin1")
    case None => AdminRaised
    case Some(width) => AdminChecked(AdminColumns(data, width))
  }

  /** Whatever the row holds, the as-written check raises; so does every row
      of `save_data` that gets this far. */
  lemma AdminLookupRaises(data: Row)
    ensures AdminFieldsAsWritten(data) == AdminRaised
  {
    assert "admin1" !in {"admin_1_name", "admin_2_name", "admin_3_name", "admin_4_name"};
  }

  /** The four admin columns against one width, in order. */
  function AdminColumns(data: Row, width: nat): (r: Result<seq<Option<string>>, string>)
    ensures r.Success? <==> Fits(data, "admin1", width) && Fits(data, "admin2", width)
                            && Fits(data, "admin3", width) && Fits(data, "admin4", width)
    ensures r.Success? ==> |r.value| == 4
                           && Within(data, "admin1", width, r.value[0]) && Within(data, "admin2", width, r.value[1])
                           && Within(data, "admin3", width, r.value[2]) && Within(data, "admin4", width, r.value[3])
  {
    var a1 :- BoundedField(data, "admin1", width, "admin1");
    var a2 :- BoundedField(data, "admin2", width, "admin2");
    var a3 :- BoundedField(data, "admin3", width, "admin3");
    var a4 :- BoundedField(data, "admin4", width, "admin4");
    Success([a1, a2, a3, a4])
  }

  /** The admin columns as intended: the width of `admin_1_name`. */
  function AdminFields(data: Row): (r: Result<seq<Option<string>>, string>)
    ensures r.Success? <==> Fits(data, "admin1", AdminNameMaxLength) && Fits(data, "admin2", AdminNameMaxLength)
                            && Fits(data, "admin3", AdminNameMaxLength) && Fits(data, "admin4", AdminNameMaxLength)
    ensures r.Success? ==> |r.value| == 4
                           && Within(data, "admin1", AdminNameMaxLength, r.value[0])
                           && Within(data, "admin2", AdminNameMaxLength, r.value[1])
                           && Within(data, "admin3", AdminNameMaxLength, r.value[2])
                           && Within(data, "admin4", AdminNameMaxLength, r.value[3])
  {
    var width := ColumnMaxLength("admin_1_name").value;
    AdminColumns(data, width)
  }

  // ------------------------------------------------------ checks after lookup

  ghost predicate LateValid(c: Config, data: Row) {
    && Fits(data, "admin1", AdminNameMaxLength) && Fits(data, "admin2", AdminNameMaxLength)
    && Fits(data, "admin3", AdminNameMaxLength) && Fits(data, "admin4", AdminNameMaxLength)
    && ("environment" in data ==> data["environment"] in c.environmentKeys && |data["environment"]| <= EnvironmentMaxLength)
    && Fits(data, "address", AddressMaxLength)
    && Fits(data, "type_school", SchoolTypeMaxLength)
    && CountColumnsValid(c.env, data)
    && Fits(data, "type_connectivity", ConnectivityTypeMaxLength)
    && SpeedOk(c.env, data)
  }

  /** An environment must be one of the known keys exactly as written, and
      fit its column. */
  function EnvironmentCell(c: Config, data: Row): (r: Result<Option<string>, string>)
    ensures r.Success? <==> ("environment" in data ==> data["environment"] in c.environmentKeys
                                                       && |data["environment"]| <= EnvironmentMaxLength)
    ensures r.Success? ==> Within(data, "environment", EnvironmentMaxLength, r.value)
  {
    if "environment" !in data then Success(None)
    else if data["environment"] !in c.environmentKeys then Failure(EnvironmentMessage(c.environmentKeys))
    else BoundedField(data, "environment", EnvironmentMaxLength, "environment")
  }

  /** The weekly-status columns of this importer: no coverage columns. */
  function IngestHistory(c: Config, data: Row): (r: Result<HistoryData, string>)
    ensures r.Success? <==> CountColumnsValid(c.env, data) && Fits(data, "type_connectivity", ConnectivityTypeMaxLength)
                            && SpeedOk(c.env, data)
    ensures r.Success? ==> CountsMean(c.env, data, r.value)
                           && Within(data, "type_connectivity", ConnectivityTypeMaxLength, r.value.connectivityType)
                           && ("speed_connectivity" in data <==> r.value.connectivitySpeed.Some?)
                           && (r.value.connectivitySpeed.Some? ==>
                                 r.value.connectivitySpeed.value == MbpsToBps(c.env.parseFloat(data["speed_connectivity"]).value)
                                 && r.value.connectivity == Some(true))
                           && r.value.connectivity == (if "speed_connectivity" in data then Some(true)
                                                       else FlagField(data, "connectivity"))
                           && ("latency_connectivity" in data <==> r.value.connectivityLatency.Some?)
                           && (r.value.connectivityLatency.Some? ==>
                                 r.value.connectivityLatency.value == data["latency_connectivity"])
                           && r.value.coverageAvailability.None? && r.value.coverageType.None?
  {
    var counts :- CountColumns(c.env, data);
    var connectivityType :- BoundedField(data, "type_connectivity", ConnectivityTypeMaxLength, "type_connectivity");
    var speed :- SpeedField(c.env, data);
    HistoryCounts(c.env, data, counts, (connectivityType, speed, (None, None)));
    Success(History(data, counts, (connectivityType, speed, (None, None))))
  }

  /** The admin, static and history columns, in the source's order, laid
      onto the fields checked before the lookup. */
  function LateFields(c: Config, data: Row, early: SchoolData): (r: Result<(SchoolData, HistoryData), string>)
    ensures r.Success? <==> LateValid(c, data)
    ensures r.Success? ==>
              var sd := r.value.0;
              && sd == early.(admin1Name := sd.admin1Name, admin2Name := sd.admin2Name, admin3Name := sd.admin3Name,
                              admin4Name := sd.admin4Name, environment := sd.environment, address := sd.address,
                              schoolType := sd.schoolType)
              && Within(data, "admin1", AdminNameMaxLength, sd.admin1Name)
              && Within(data, "admin2", AdminNameMaxLength, sd.admin2Name)
              && Within(data, "admin3", AdminNameMaxLength, sd.admin3Name)
              && Within(data, "admin4", AdminNameMaxLength, sd.admin4Name)
              && Within(data, "environment", EnvironmentMaxLength, sd.environment)
              && Within(data, "address", AddressMaxLength, sd.address)
              && Within(data, "type_school", SchoolTypeMaxLength, sd.schoolType)
    ensures r.Success? ==>
              var hd := r.value.1;
              && CountsMean(c.env, data, hd)
              && Within(data, "type_connectivity", ConnectivityTypeMaxLength, hd.connectivityType)
              && ("speed_connectivity" in data <==> hd.connectivitySpeed.Some?)
              && (hd.connectivitySpeed.Some? ==>
                    hd.connectivitySpeed.value == MbpsToBps(c.env.parseFloat(data["speed_connectivity"]).value)
                    && hd.connectivity == Some(true))
              && hd.connectivity == (if "speed_connectivity" in data then Some(true) else FlagField(data, "connectivity"))
              && ("latency_connectivity" in data <==> hd.connectivityLatency.Some?)
              && (hd.connectivityLatency.Some? ==> hd.connectivityLatency.value == data["latency_connectivity"])
              && hd.coverageAvailability.None? && hd.coverageType.None?
  {
    var admins :- AdminFields(data);
    var environment :- EnvironmentCell(c, data);
    var address :- BoundedField(data, "address", AddressMaxLength, "address");
    var schoolType :- BoundedField(data, "type_school", SchoolTypeMaxLength, "type_school");
    var hd :- IngestHistory(c, data);
    Success((early.(admin1Name := admins[0], admin2Name := admins[1], admin3Name := admins[2], admin4Name := admins[3],
                    environment := environment, address := address, schoolType := schoolType), hd))
  }

  /** No coercion here: an environment outside the known keys rejects the
      row (the validator turns it into "urban" instead). */
  lemma UnknownEnvironmentRejected(c: Config, data: Row, early: SchoolData)
    requires "environment" in data && data["environment"] !in c.environmentKeys
    requires Fits(data, "admin1", AdminNameMaxLength) && Fits(data, "admin2", AdminNameMaxLength)
    requires Fits(data, "admin3", AdminNameMaxLength) && Fits(data, "admin4", AdminNameMaxLength)
    ensures LateFields(c, data, early) == Failure(EnvironmentMessage(c.environmentKeys))
  {
  }

  // ------------------------------------------------------------ one row

  /** What the loop does with one cleaned row: nothing, one error, one
      warning, or a save into the school at `found` (None: a new school). */
  datatype Verdict =
    | Skip
    | Reject(error: string)
    | Warn(warning: string)
    | Keep(found: Option<nat>, sd: SchoolData, hd: HistoryData)

  /** The checks of one row against the School table and the ids already
      saved in the current batch. */
  function Examine(c: Config, country: CountryId, schools: seq<School>, updated: seq<SchoolId>, data: Row): (v: Verdict)
    ensures v.Skip? <==> data == map[]
    ensures v.Keep? ==>
              && "name" in data && "lat" in data && "lon" in data
              && EarlyValid(c, data) && LateValid(c, data)
              && v.sd.name == Some(data["name"]) && c.contains(v.sd.geopoint)
              && (v.found.Some? ==> v.found.value < |schools| && schools[v.found.value].id !in updated)
    ensures v.Warn? ==> v.warning == DuplicateIdWarning && updated != []
  {
    if data == map[] then Skip
    else if MissingRequired(data) != [] then Reject(RequiredMessage(MissingRequired(data)))
    else match EarlyFields(c, country, data)
      case Failure(e) => Reject(e)
      case Success(early) =>
        var found := FindSchool(c, schools, data, early);
        if found.Some? && schools[found.value].id in updated then Warn(DuplicateIdWarning)
        else match LateFields(c, data, early)
          case Failure(e) => Reject(e)
          case Success((sd, hd)) => Keep(found, sd, hd)
  }

  /** The row gets past the required-column, early and duplicate checks, and
      so as far as the admin lookup. */
  predicate ReachesLookup(c: Config, country: CountryId, schools: seq<School>, updated: seq<SchoolId>, data: Row) {
    && data != map[] && MissingRequired(data) == []
    && EarlyFields(c, country, data).Success?
    && var found := FindSchool(c, schools, data, EarlyFields(c, country, data).value);
       !(found.Some? && schools[found.value].id in updated)
  }

  /** What one row comes to as the source writes it: an answer, or the
      exception the admin lookup raises. */
  datatype Outcome = Answered(v: Verdict) | Raised

  /** The checks of one row with the admin lookup as written: every row that
      reaches it raises, so no row is ever kept, and the rows that stop
      earlier get the same answer as with the corrected lookup. */
  function ExamineAsWritten(c: Config, country: CountryId, schools: seq<School>, updated: seq<SchoolId>, data: Row): (o: Outcome)
    ensures o.Raised? <==> ReachesLookup(c, country, schools, updated, data)
    ensures o.Answered? ==> o.v == Examine(c, country, schools, updated, data) && !o.v.Keep?
  {
    if data == map[] then Answered(Skip)
    else if MissingRequired(data) != [] then Answered(Reject(RequiredMessage(MissingRequired(data))))
    else match EarlyFields(c, country, data)
      case Failure(e) => Answered(Reject(e))
      case Success(early) =>
        var found := FindSchool(c, schools, data, early);
        if found.Some? && schools[found.value].id in updated then Answered(Warn(DuplicateIdWarning))
        else
          AdminLookupRaises(data);
          if AdminFieldsAsWritten(data).AdminRaised? then Raised
          else Answered(Examine(c, country, schools, updated, data))
  }

  /** Every row the corrected checks keep raises as written. */
  lemma KeptRaisesAsWritten(c: Config, country: CountryId, schools: seq<School>, updated: seq<SchoolId>, data: Row)
    requires Examine(c, country, schools, updated, data).Keep?
    ensures ExamineAsWritten(c, country, schools, updated, data) == Raised
  {
  }

  /** A row past the early checks and not a duplicate of the batch is saved
      into the school `FindSchool` resolves it to, with the columns
      `LateFields` makes of it, or rejected with `LateFields`' error. */
  lemma ValidRowKept(c: Config, country: CountryId, schools: seq<School>, updated: seq<SchoolId>, data: Row)
    requires data != map[] && MissingRequired(data) == [] && EarlyFields(c, country, data).Success?
    ensures var early := EarlyFields(c, country, data).value;
            var found := FindSchool(c, schools, data, early);
            var late := LateFields(c, data, early);
            var v := Examine(c, country, schools, updated, data);
            && (!(found.Some? && schools[found.value].id in updated) && late.Success? ==>
                  v == Keep(found, late.value.0, late.value.1))
            && (!(found.Some? && schools[found.value].id in updated) && late.Failure? ==> v == Reject(late.error))
  {
  }

  /** A row lacking any of name, lat and lon is answered with one error
      naming the missing columns. */
  lemma RequiredColumns(c: Config, country: CountryId, schools: seq<School>, updated: seq<SchoolId>, data: Row)
    requires data != map[]
    requires "name" !in data || "lat" !in data || "lon" !in data
    ensures Examine(c, country, schools, updated, data) == Reject(RequiredMessage(MissingRequired(data)))
  {
  }

  /** A row matching a school already saved in this batch is a duplicate;
      an empty batch (as right after a flush) has none. */
  lemma DuplicateInBatch(c: Config, country: CountryId, schools: seq<School>, updated: seq<SchoolId>, data: Row)
    requires data != map[] && MissingRequired(data) == []
    requires EarlyFields(c, country, data).Success?
    ensures var found := FindSchool(c, schools, data, EarlyFields(c, country, data).value);
            found.Some? && schools[found.value].id in updated
            <==> Examine(c, country, schools, updated, data).Warn?
  {
  }
}
