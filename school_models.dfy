/** The School record of `proco/schools/models.py`: its persisted fields, the
    column widths the loaders check against, and the point type. */
module SchoolModels {
  import opened Wrappers

  type CountryId = nat
  type SchoolId = nat

  /** `Point(x=lon, y=lat)`. */
  datatype GeoPoint = GeoPoint(x: real, y: real)

  // max_length of the School columns
  const ExternalIdMaxLength: nat := 50
  const NameMaxLength: nat := 255
  const AdminNameMaxLength: nat := 100
  const AddressMaxLength: nat := 255
  const EducationLevelMaxLength: nat := 64
  const EnvironmentMaxLength: nat := 64
  const SchoolTypeMaxLength: nat := 64

  /** `School.ENVIRONMENT_STATUSES.urban`, the value an unknown environment is coerced to. */
  const Urban: string := "urban"

  /** A persisted School. Text columns left blank hold "", as Django's CharField
      default gives. `lastWeeklyStatus` is the id of the status the
      `last_weekly_status` pointer refers to. */
  datatype School = School(
    id: SchoolId,
    country: CountryId,
    externalId: string,
    name: string,
    nameLower: string,
    geopoint: GeoPoint,
    educationLevel: string,
    admin1Name: string,
    admin2Name: string,
    admin3Name: string,
    admin4Name: string,
    environment: string,
    address: string,
    schoolType: string,
    lastWeeklyStatus: Option<nat>)

  /** One column of an UPDATE: the new value when the column is named. */
  function Pick<T>(column: string, fields: set<string>, from: T, stored: T): (v: T)
    ensures v == (if column in fields then from else stored)
  {
    if column in fields then from else stored
  }

  /** A stored school after an UPDATE that sets the named columns (named as
      the `school_data` keys) to the values of `from`; the id, the lower-cased
      name and the status pointer are not among them. */
  function CopyFields(stored: School, from: School, fields: set<string>): (r: School)
    ensures r.id == stored.id && r.nameLower == stored.nameLower && r.lastWeeklyStatus == stored.lastWeeklyStatus
    ensures r.country == (if "country" in fields then from.country else stored.country)
    ensures r.externalId == (if "external_id" in fields then from.externalId else stored.externalId)
    ensures r.name == (if "name" in fields then from.name else stored.name)
    ensures r.geopoint == (if "geopoint" in fields then from.geopoint else stored.geopoint)
    ensures r.educationLevel == (if "education_level" in fields then from.educationLevel else stored.educationLevel)
    ensures r.admin1Name == (if "admin_1_name" in fields then from.admin1Name else stored.admin1Name)
    ensures r.admin2Name == (if "admin_2_name" in fields then from.admin2Name else stored.admin2Name)
    ensures r.admin3Name == (if "admin_3_name" in fields then from.admin3Name else stored.admin3Name)
    ensures r.admin4Name == (if "admin_4_name" in fields then from.admin4Name else stored.admin4Name)
    ensures r.environment == (if "environment" in fields then from.environment else stored.environment)
    ensures r.address == (if "address" in fields then from.address else stored.address)
    ensures r.schoolType == (if "school_type" in fields then from.schoolType else stored.schoolType)
  {
    stored.(
      country := Pick("country", fields, from.country, stored.country),
      externalId := Pick("external_id", fields, from.externalId, stored.externalId),
      name := Pick("name", fields, from.name, stored.name),
      geopoint := Pick("geopoint", fields, from.geopoint, stored.geopoint),
      educationLevel := Pick("education_level", fields, from.educationLevel, stored.educationLevel),
      admin1Name := Pick("admin_1_name", fields, from.admin1Name, stored.admin1Name),
      admin2Name := Pick("admin_2_name", fields, from.admin2Name, stored.admin2Name),
      admin3Name := Pick("admin_3_name", fields, from.admin3Name, stored.admin3Name),
      admin4Name := Pick("admin_4_name", fields, from.admin4Name, stored.admin4Name),
      environment := Pick("environment", fields, from.environment, stored.environment),
      address := Pick("address", fields, from.address, stored.address),
      schoolType := Pick("school_type", fields, from.schoolType, stored.schoolType))
  }

  /** An UPDATE of no columns, or with the values already stored, leaves the
      row as it is. */
  lemma CopyNothing(stored: School, from: School, fields: set<string>)
    requires fields == {} || from == stored
    ensures CopyFields(stored, from, fields) == stored
  {
  }
}
