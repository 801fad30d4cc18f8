/** `remove_too_close_points` of `proco/schools/loaders/pipeline.py`: the points
    of the country's schools and of the new rows are grouped by education level
    (and all of them under "all"), and a new row whose point lies closer than
    500 m to another point of its group is reported and dropped.

    The k-d tree over cartesian coordinates is a distance function `dist` on
    geographic points, given as a parameter. */
module PipelinePoints {
  import opened Wrappers
  import opened Collections
  import opened SchoolModels
  import opened Validation
  import opened Store
  import opened PipelineRows

  const AllLevels: string := "all"

  const SameLevelMessage: string := "Geopoint is closer than 500m to another with same education level."
  const NoLevelMessage: string := "Geopoint is closer than 500m to another. Please specify education_level for better search."

  /** A new row's education level, when it has a non-empty one. */
  function RowLevel(r: ImportRow): Option<string> {
    if r.schoolData.educationLevel.Some? && r.schoolData.educationLevel.value != "" then r.schoolData.educationLevel
    else None
  }

  /** The group a new row is checked against. */
  function GroupOf(r: ImportRow): string {
    match RowLevel(r)
    case Some(level) => level
    case None => AllLevels
  }

  /** What one point adds to the list of group `key`: itself once for its level,
      and once more for "all". */
  function Contribution(level: Option<string>, key: string, p: GeoPoint): (r: seq<GeoPoint>)
    ensures |r| == (if level == Some(key) then 1 else 0) + (if key == AllLevels then 1 else 0)
    ensures forall i :: 0 <= i < |r| ==> r[i] == p
  {
    (if level == Some(key) then [p] else []) + (if key == AllLevels then [p] else [])
  }

  /** The points the country's schools put in group `key`; a stored school
      counts under its level even when that level is blank. */
  function SchoolPoints(schools: seq<School>, key: string): seq<GeoPoint> {
    if schools == [] then []
    else
      var s := schools[|schools| - 1];
      SchoolPoints(schools[..|schools| - 1], key) + Contribution(Some(s.educationLevel), key, s.geopoint)
  }

  /** The points the new rows put in group `key`. */
  function RowPoints(news: seq<ImportRow>, key: string): seq<GeoPoint> {
    if news == [] then []
    else
      var r := news[|news| - 1];
      RowPoints(news[..|news| - 1], key) + Contribution(RowLevel(r), key, r.schoolData.geopoint)
  }

  /** The list the k-d tree of group `key` is built from. */
  function Group(schools: seq<School>, news: seq<ImportRow>, key: string): seq<GeoPoint> {
    SchoolPoints(schools, key) + RowPoints(news, key)
  }

  /** A new row fails when two points of its group lie closer than 500 m to it
      (one of them is its own). */
  function Crowded(schools: seq<School>, news: seq<ImportRow>, dist: (GeoPoint, GeoPoint) -> real, r: ImportRow): bool {
    !ValidatePointDistance(Group(schools, news, GroupOf(r)), r.schoolData.geopoint, dist, DefaultDistance)
  }

  function CrowdedMessage(r: ImportRow): string {
    RowMessage(r.rowIndex, if RowLevel(r).Some? then SameLevelMessage else NoLevelMessage)
  }

  /** The reported rows, in row order, with one message each. */
  function BadRows(schools: seq<School>, rows: seq<ImportRow>, dist: (GeoPoint, GeoPoint) -> real): seq<ImportRow> {
    var news := Filter(rows, IsNew);
    Filter(news, r => Crowded(schools, news, dist, r))
  }

  function Messages(bad: seq<ImportRow>): (r: seq<string>)
    ensures |r| == |bad|
    ensures forall k :: 0 <= k < |bad| ==> r[k] == CrowdedMessage(bad[k])
  {
    seq(|bad|, k requires 0 <= k < |bad| => CrowdedMessage(bad[k]))
  }

  // ------------------------------------------------------------ properties

  /** Rows that already have a school are neither checked nor removed. */
  lemma MatchedRowsStay(schools: seq<School>, rows: seq<ImportRow>, dist: (GeoPoint, GeoPoint) -> real)
    ensures forall k :: 0 <= k < |BadRows(schools, rows, dist)| ==> IsNew(BadRows(schools, rows, dist)[k])
  {
  }

  /** A new row's own point is in its group. */
  lemma {:induction false} OwnPointInGroup(news: seq<ImportRow>, k: nat)
    requires k < |news|
    ensures news[k].schoolData.geopoint in RowPoints(news, GroupOf(news[k]))
  {
    var init := news[..|news| - 1];
    if k < |news| - 1 {
      assert init[k] == news[k];
      OwnPointInGroup(init, k);
    }
  }

  /** A new row whose education level is spelled "all" lands twice in the
      catch-all group, so it is reported whenever a point is at distance less
      than 500 m from itself. */
  lemma LevelNamedAll(schools: seq<School>, news: seq<ImportRow>, k: nat, dist: (GeoPoint, GeoPoint) -> real)
    requires k < |news| && RowLevel(news[k]) == Some(AllLevels)
    requires dist(news[k].schoolData.geopoint, news[k].schoolData.geopoint) < DefaultDistance
    ensures Crowded(schools, news, dist, news[k])
  {
    TwiceInRowPoints(news, k);
    var group := Group(schools, news, AllLevels);
    var p := news[k].schoolData.geopoint;
    var i, j :| 0 <= i < j < |RowPoints(news, AllLevels)| && RowPoints(news, AllLevels)[i] == p
                && RowPoints(news, AllLevels)[j] == p;
    var off := |SchoolPoints(schools, AllLevels)|;
    assert group[off + i] == p && group[off + j] == p;
    assert TwoClose(group, p, dist, DefaultDistance);
  }

  ghost predicate Twice(pts: seq<GeoPoint>, p: GeoPoint) {
    exists i, j :: 0 <= i < j < |pts| && pts[i] == p && pts[j] == p
  }

  lemma {:induction false} TwiceInRowPoints(news: seq<ImportRow>, k: nat)
    requires k < |news| && RowLevel(news[k]) == Some(AllLevels)
    ensures Twice(RowPoints(news, AllLevels), news[k].schoolData.geopoint)
  {
    var init := news[..|news| - 1];
    var pts := RowPoints(news, AllLevels);
    var p := news[k].schoolData.geopoint;
    if k < |news| - 1 {
      assert init[k] == news[k];
      TwiceInRowPoints(init, k);
      var before := RowPoints(init, AllLevels);
      assert pts == before + Contribution(RowLevel(news[|news| - 1]), AllLevels, news[|news| - 1].schoolData.geopoint);
      var i, j :| 0 <= i < j < |before| && before[i] == p && before[j] == p;
      assert pts[i] == p && pts[j] == p;
    } else {
      var n := |RowPoints(init, AllLevels)|;
      assert pts[n] == p && pts[n + 1] == p;
    }
  }

  // --------------------------------------------------------------- the method

  /** The group lists after adding the stored schools (`lo` of them), read
      with a missing key as an empty list. */
  function Lookup(groups: map<string, seq<GeoPoint>>, key: string): seq<GeoPoint> {
    if key in groups then groups[key] else []
  }

  /** One point appended to the list of its level (created when missing)
      and to the "all" list. */
  function AddPoint(groups: map<string, seq<GeoPoint>>, level: Option<string>, p: GeoPoint)
    : (r: map<string, seq<GeoPoint>>)
    requires AllLevels in groups
    ensures AllLevels in r
    ensures forall key :: Lookup(r, key) == Lookup(groups, key) + Contribution(level, key, p)
  {
    var withLevel := match level
      case Some(l) => groups[l := Lookup(groups, l) + [p]]
      case None => groups;
    withLevel[AllLevels := withLevel[AllLevels] + [p]]
  }

  lemma MessagesAppend(bad: seq<ImportRow>, r: ImportRow)
    ensures Messages(bad + [r]) == Messages(bad) + [CrowdedMessage(r)]
  {
  }

  /** Every group list holds the points of the stored schools and then those
      of the new rows. */
  ghost predicate GroupsBuilt(groups: map<string, seq<GeoPoint>>, schools: seq<School>, news: seq<ImportRow>) {
    forall key :: Lookup(groups, key) == Group(schools, news, key)
  }

  /** The group lists hold the points of `schools` and then of `news`. */
  ghost predicate GroupsHold(groups: map<string, seq<GeoPoint>>, schools: seq<School>, news: seq<ImportRow>) {
    && AllLevels in groups
    && forall key :: Lookup(groups, key) == SchoolPoints(schools, key) + RowPoints(news, key)
  }

  lemma AddSchoolStep(groups: map<string, seq<GeoPoint>>, schools: seq<School>, i: nat)
    requires i < |schools| && GroupsHold(groups, schools[..i], [])
    ensures GroupsHold(AddPoint(groups, Some(schools[i].educationLevel), schools[i].geopoint), schools[..i + 1], [])
  {
    assert schools[..i + 1][..i] == schools[..i];
  }

  lemma AddRowStep(groups: map<string, seq<GeoPoint>>, schools: seq<School>, news: seq<ImportRow>, m: nat)
    requires m < |news| && GroupsHold(groups, schools, news[..m])
    ensures GroupsHold(AddPoint(groups, RowLevel(news[m]), news[m].schoolData.geopoint), schools, news[..m + 1])
  {
    assert news[..m + 1][..m] == news[..m];
  }

  lemma GroupsComplete(groups: map<string, seq<GeoPoint>>, schools: seq<School>, news: seq<ImportRow>)
    requires GroupsHold(groups, schools, news)
    ensures GroupsBuilt(groups, schools, news)
  {
  }

  /** The first two loops of `remove_too_close_points`: the group lists, before
      they become k-d trees. */
  method BuildGroups(schools: seq<School>, news: seq<ImportRow>) returns (groups: map<string, seq<GeoPoint>>)
    ensures GroupsBuilt(groups, schools, news)
  {
    groups := map[AllLevels := []];
    TakeNone(schools);
    var i := 0;
    while i < |schools|
      invariant 0 <= i <= |schools|
      invariant GroupsHold(groups, schools[..i], [])
    {
      AddSchoolStep(groups, schools, i);
      groups := AddPoint(groups, Some(schools[i].educationLevel), schools[i].geopoint);
      i := i + 1;
    }
    TakeAll(schools);
    TakeNone(news);
    var m := 0;
    while m < |news|
      invariant 0 <= m <= |news|
      invariant GroupsHold(groups, schools, news[..m])
    {
      AddRowStep(groups, schools, news, m);
      groups := AddPoint(groups, RowLevel(news[m]), news[m].schoolData.geopoint);
      m := m + 1;
    }
    TakeAll(news);
    GroupsComplete(groups, schools, news);
  }

  /** The group of a new row is never missing: the row's own point is in it. */
  lemma GroupAt(groups: map<string, seq<GeoPoint>>, schools: seq<School>, news: seq<ImportRow>, m: nat)
    requires m < |news| && GroupsBuilt(groups, schools, news)
    ensures GroupOf(news[m]) in groups && groups[GroupOf(news[m])] == Group(schools, news, GroupOf(news[m]))
  {
    OwnPointInGroup(news, m);
    assert Lookup(groups, GroupOf(news[m])) == Group(schools, news, GroupOf(news[m]));
  }

  /** The third loop: each new row is checked against its group. */
  method CheckPoints(groups: map<string, seq<GeoPoint>>, schools: seq<School>, news: seq<ImportRow>,
                     dist: (GeoPoint, GeoPoint) -> real)
    returns (errors: seq<string>, bad: seq<ImportRow>)
    requires GroupsBuilt(groups, schools, news)
    ensures bad == Filter(news, r => Crowded(schools, news, dist, r))
    ensures errors == Messages(bad)
  {
    errors, bad := [], [];
    var m := 0;
    while m < |news|
      invariant 0 <= m <= |news|
      invariant bad == Filter(news[..m], r => Crowded(schools, news, dist, r))
      invariant errors == Messages(bad)
    {
      var r := news[m];
      var key := GroupOf(r);
      GroupAt(groups, schools, news, m);
      var ok := ValidatePointDistance(groups[key], r.schoolData.geopoint, dist, DefaultDistance);
      if !ok {
        MessagesAppend(bad, r);
        errors := errors + [CrowdedMessage(r)];
        bad := bad + [r];
      }
      TakeOneMore(news, m);
      m := m + 1;
    }
    TakeAll(news);
  }

  /** `remove_too_close_points`: the rows whose point is too close to another
      of its group are reported with their row number and removed; the reports
      come in row order. */
  method RemoveTooClosePoints(batch: RowList, db: Database, country: CountryId, dist: (GeoPoint, GeoPoint) -> real)
    returns (errors: seq<string>)
    modifies batch
    ensures var bad := BadRows(Filter(db.schools, InCountry(country)), old(batch.rows), dist);
            && errors == Messages(bad)
            && batch.rows == RemoveEach(old(batch.rows), bad)
  {
    var schools := Filter(db.schools, InCountry(country));
    var news := Filter(batch.rows, IsNew);
    var groups := BuildGroups(schools, news);
    var bad;
    errors, bad := CheckPoints(groups, schools, news, dist);
    batch.RemoveRows(bad);
  }

  /** On rows without repeats, what is left is the input without the reported
      rows: every row with a school, and every new row that passed. */
  lemma RemovedAreReported(schools: seq<School>, rows: seq<ImportRow>, dist: (GeoPoint, GeoPoint) -> real)
    requires Distinct(rows)
    ensures var bad := BadRows(schools, rows, dist);
            && Distinct(bad)
            && RemoveEach(rows, bad) == Filter(rows, NotIn(set x | x in bad))
  {
    var news := Filter(rows, IsNew);
    var bad := BadRows(schools, rows, dist);
    FilterDistinct(rows, IsNew);
    FilterDistinct(news, r => Crowded(schools, news, dist, r));
    forall k | 0 <= k < |bad|
      ensures bad[k] in rows
    {
      assert bad[k] in news;
    }
    RemoveEachIsFilter(rows, bad);
  }
}
