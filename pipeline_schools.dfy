/** `create_new_schools`, `update_existing_schools` and
    `delete_schools_not_in_bounds` of `proco/schools/loaders/pipeline.py`: the
    rows no lookup matched become new schools, the matched ones are written
    back, and schools lying outside their country are deleted together with
    the rows that point at them. */
module PipelineSchools {
  import opened Wrappers
  import opened Text
  import opened Collections
  import opened SchoolModels
  import opened Validation
  import opened Store
  import opened PipelineRows
  import opened PipelineLookup

  // ------------------------------------------------------- create_new_schools

  /** `School(**school_data)` with the identifier and the name lower-cased;
      a column the row leaves out keeps its default, the empty string. */
  function NewSchool(sd: SchoolData): School {
    var name := sd.name.GetOr("");
    School(0, sd.country, Lower(sd.externalId.GetOr("")), name, Lower(name), sd.geopoint,
           sd.educationLevel.GetOr(""), sd.admin1Name.GetOr(""), sd.admin2Name.GetOr(""),
           sd.admin3Name.GetOr(""), sd.admin4Name.GetOr(""), sd.environment.GetOr(""),
           sd.address.GetOr(""), sd.schoolType.GetOr(""), None)
  }

  /** The schools built for the new rows, in row order. */
  function NewSchools(rows: seq<ImportRow>): (r: seq<School>)
    ensures |r| <= |rows|
  {
    if rows == [] then []
    else
      var last := rows[|rows| - 1];
      NewSchools(rows[..|rows| - 1]) + (if IsNew(last) then [NewSchool(last.schoolData)] else [])
  }

  /** One school per row without a school, in row order, each built from
      that row's data. */
  lemma {:induction false} NewSchoolsOfNewRows(rows: seq<ImportRow>)
    ensures |NewSchools(rows)| == |Filter(rows, IsNew)|
    ensures forall k :: 0 <= k < |NewSchools(rows)| ==> NewSchools(rows)[k] == NewSchool(Filter(rows, IsNew)[k].schoolData)
  {
    if rows != [] {
      NewSchoolsOfNewRows(rows[..|rows| - 1]);
    }
  }

  /** The rows after creation: the k-th new row holds the k-th created school
      and is marked as created. */
  function WithCreated(rows: seq<ImportRow>, created: seq<School>): (r: seq<ImportRow>)
    requires |created| == |NewSchools(rows)|
    ensures |r| == |rows|
  {
    if rows == [] then []
    else
      var init, last := rows[..|rows| - 1], rows[|rows| - 1];
      if IsNew(last) then
        WithCreated(init, created[..|created| - 1]) + [last.(school := Some(created[|created| - 1]), schoolCreated := true)]
      else WithCreated(init, created) + [last]
  }

  /** A longer prefix holds at least as many new rows. */
  lemma {:induction false} NewSchoolsPrefix(rows: seq<ImportRow>, j: nat)
    requires j <= |rows|
    ensures |NewSchools(rows[..j])| <= |NewSchools(rows)|
  {
    if j < |rows| {
      var init := rows[..|rows| - 1];
      assert rows[..j] == init[..j];
      NewSchoolsPrefix(init, j);
    } else {
      assert rows[..j] == rows;
    }
  }

  /** A row before and after creation: it has a school afterwards; a row
      that had one is unchanged, a new row changes only in its school and its
      mark. */
  predicate Matched(before: ImportRow, after: ImportRow) {
    && after.school.Some?
    && (if IsNew(before) then after.schoolCreated && after.(school := None, schoolCreated := before.schoolCreated) == before
        else after == before)
  }

  /** After creation every row has a school, and no column of any row
      changed. */
  lemma {:induction false} WithCreatedAllMatched(rows: seq<ImportRow>, created: seq<School>)
    requires |created| == |NewSchools(rows)|
    ensures forall j :: 0 <= j < |rows| ==> Matched(rows[j], WithCreated(rows, created)[j])
  {
    if rows != [] {
      var init, last := rows[..|rows| - 1], rows[|rows| - 1];
      var c := if IsNew(last) then created[..|created| - 1] else created;
      WithCreatedAllMatched(init, c);
      var before := WithCreated(init, c);
      var x := if IsNew(last) then last.(school := Some(created[|created| - 1]), schoolCreated := true) else last;
      assert WithCreated(rows, created) == before + [x];
      assert Matched(last, x);
      forall j | 0 <= j < |rows|
        ensures Matched(rows[j], (before + [x])[j])
      {
        if j < |init| {
          assert rows[j] == init[j];
        }
      }
    }
  }

  /** A school created from a row carries the key the row is looked up by, so
      importing the same file again matches it instead of creating it twice. */
  lemma CreatedSchoolFoundAgain(pass: Pass, r: ImportRow)
    requires RowKey(pass, r).Some?
    ensures SchoolKey(pass, NewSchool(r.schoolData)) == RowKey(pass, r).value
  {
  }

  /** The first half of the loop of `create_new_schools`: a school built for
      each row without one. */
  method CollectNewSchools(rows: seq<ImportRow>) returns (news: seq<School>)
    ensures news == NewSchools(rows)
  {
    news := [];
    var j := 0;
    while j < |rows|
      invariant 0 <= j <= |rows|
      invariant news == NewSchools(rows[..j])
    {
      TakeOneMore(rows, j);
      if IsNew(rows[j]) {
        news := news + [NewSchool(rows[j].schoolData)];
      }
      j := j + 1;
    }
    TakeAll(rows);
  }

  /** The rows while the loop is at row `j`, having used `c` created schools. */
  ghost predicate AttachedUpTo(current: seq<ImportRow>, rows: seq<ImportRow>, created: seq<School>, j: int, c: int) {
    && 0 <= j <= |rows|
    && c == |NewSchools(rows[..j])| <= |created|
    && current == WithCreated(rows[..j], created[..c]) + rows[j..]
  }

  lemma AttachStart(rows: seq<ImportRow>, created: seq<School>)
    requires |created| == |NewSchools(rows)|
    ensures AttachedUpTo(rows, rows, created, 0, 0)
  {
    assert rows[..0] == [] && rows[0..] == rows && created[..0] == [];
  }

  /** One more row of the loop, when that row is new. */
  lemma AttachStepNew(current: seq<ImportRow>, rows: seq<ImportRow>, created: seq<School>, j: int, c: int)
    requires 0 <= j < |rows| && |created| == |NewSchools(rows)| && IsNew(rows[j])
    requires AttachedUpTo(current, rows, created, j, c)
    ensures c < |created|
    ensures AttachedUpTo(current[j := rows[j].(school := Some(created[c]), schoolCreated := true)], rows, created, j + 1, c + 1)
  {
    NewSchoolsPrefix(rows, j + 1);
    TakeOneMore(rows, j);
    assert NewSchools(rows[..j + 1]) == NewSchools(rows[..j]) + [NewSchool(rows[j].schoolData)];
    var x := rows[j].(school := Some(created[c]), schoolCreated := true);
    WithCreatedNew(rows, created, j, c);
    ReplaceAfter(WithCreated(rows[..j], created[..c]), rows[j..], x);
    assert rows[j..][1..] == rows[j + 1..];
  }

  lemma WithCreatedNew(rows: seq<ImportRow>, created: seq<School>, j: int, c: int)
    requires 0 <= j < |rows| && IsNew(rows[j])
    requires 0 <= c < |created| && |NewSchools(rows[..j])| == c && |NewSchools(rows[..j + 1])| == c + 1
    ensures WithCreated(rows[..j + 1], created[..c + 1])
            == WithCreated(rows[..j], created[..c]) + [rows[j].(school := Some(created[c]), schoolCreated := true)]
  {
    assert rows[..j + 1][..j] == rows[..j];
    assert created[..c + 1][..c] == created[..c];
  }

  /** One more row of the loop, when that row already has a school. */
  lemma AttachStepKept(current: seq<ImportRow>, rows: seq<ImportRow>, created: seq<School>, j: int, c: int)
    requires 0 <= j < |rows| && |created| == |NewSchools(rows)| && !IsNew(rows[j])
    requires AttachedUpTo(current, rows, created, j, c)
    ensures AttachedUpTo(current, rows, created, j + 1, c)
  {
    var done := WithCreated(rows[..j], created[..c]);
    assert rows[..j + 1][..j] == rows[..j];
    assert NewSchools(rows[..j + 1]) == NewSchools(rows[..j]);
    assert WithCreated(rows[..j + 1], created[..c]) == done + [rows[j]];
    assert rows[j..] == [rows[j]] + rows[j + 1..];
  }

  lemma AttachDone(current: seq<ImportRow>, rows: seq<ImportRow>, created: seq<School>, c: int)
    requires |created| == |NewSchools(rows)| && AttachedUpTo(current, rows, created, |rows|, c)
    ensures current == WithCreated(rows, created)
  {
    assert rows[..|rows|] == rows && rows[|rows|..] == [];
    assert created[..c] == created;
  }

  /** The loop of the second half, over the rows as values. */
  method AttachRows(rows: seq<ImportRow>, created: seq<School>) returns (current: seq<ImportRow>)
    requires |created| == |NewSchools(rows)|
    ensures current == WithCreated(rows, created)
  {
    current := rows;
    var j := 0;
    var c := 0;
    AttachStart(rows, created);
    while j < |rows|
      invariant 0 <= j <= |rows|
      invariant AttachedUpTo(current, rows, created, j, c)
    {
      if IsNew(rows[j]) {
        AttachStepNew(current, rows, created, j, c);
        current := current[j := rows[j].(school := Some(created[c]), schoolCreated := true)];
        c := c + 1;
      } else {
        AttachStepKept(current, rows, created, j, c);
      }
      j := j + 1;
    }
    AttachDone(current, rows, created, c);
  }

  /** The second half: each row without a school receives the next stored
      one (in the source the row holds the very object `bulk_create` then
      gives its id to). */
  method AttachCreated(batch: RowList, created: seq<School>)
    requires |created| == |NewSchools(batch.rows)|
    modifies batch
    ensures batch.rows == WithCreated(old(batch.rows), created)
  {
    batch.rows := AttachRows(batch.rows, created);
  }

  /** `create_new_schools`: one bulk insert of the schools of the new rows,
      each row then pointing at its stored school. */
  method CreateNewSchools(batch: RowList, db: Database)
    requires db.Valid()
    modifies batch, db
    ensures db.Valid()
    ensures var created := NumberSchools(NewSchools(old(batch.rows)), old(db.nextSchoolId));
            && db.schools == old(db.schools) + created
            && batch.rows == WithCreated(old(batch.rows), created)
    ensures db.statuses == old(db.statuses)
  {
    var news := CollectNewSchools(batch.rows);
    var created: seq<School> := [];
    if news != [] {
      created := db.CreateSchools(news);
    }
    AttachCreated(batch, created);
  }

  // --------------------------------------------------- update_existing_schools

  function NotCreated(r: ImportRow): bool { !r.schoolCreated }

  /** The distinct key sets of the rows, in order of first appearance (the
      source iterates over a set, whose order Python leaves unspecified). */
  function Combinations(rows: seq<ImportRow>): (r: seq<set<string>>)
    ensures forall i, j :: 0 <= i < j < |r| ==> r[i] != r[j]
    ensures forall fields :: fields in r <==> exists i :: 0 <= i < |rows| && Keys(rows[i].schoolData) == fields
  {
    if rows == [] then []
    else
      var init := rows[..|rows| - 1];
      assert forall i :: 0 <= i < |init| ==> init[i] == rows[i];
      var before := Combinations(init);
      var keys := Keys(rows[|rows| - 1].schoolData);
      if keys in before then before else before + [keys]
  }

  function WithKeys(fields: set<string>): ImportRow -> bool {
    (r: ImportRow) => Keys(r.schoolData) == fields
  }

  /** One `bulk_update` call: each row's school object written back, in turn. */
  function WriteRows(schools: seq<School>, group: seq<ImportRow>, fields: set<string>): (r: seq<School>)
    requires forall k :: 0 <= k < |group| ==> group[k].school.Some?
    ensures |r| == |schools|
  {
    if group == [] then schools
    else WriteBack(WriteRows(schools, group[..|group| - 1], fields), group[|group| - 1].school.value, fields)
  }

  /** All the `bulk_update` calls, one per key set. */
  function WriteCombinations(schools: seq<School>, pending: seq<ImportRow>, combos: seq<set<string>>): (r: seq<School>)
    requires forall k :: 0 <= k < |pending| ==> pending[k].school.Some?
    ensures |r| == |schools|
  {
    if combos == [] then schools
    else
      var fields := combos[|combos| - 1];
      WriteRows(WriteCombinations(schools, pending, combos[..|combos| - 1]), Filter(pending, WithKeys(fields)), fields)
  }

  /** The table after `update_existing_schools`. */
  function UpdatedTable(schools: seq<School>, rows: seq<ImportRow>): seq<School>
    requires forall k :: 0 <= k < |rows| && NotCreated(rows[k]) ==> rows[k].school.Some?
  {
    var pending := Filter(rows, NotCreated);
    WriteCombinations(schools, pending, Combinations(pending))
  }

  /** `School.objects.bulk_update(group's schools, fields)`. */
  method BulkUpdate(db: Database, group: seq<ImportRow>, fields: set<string>)
    requires db.Valid()
    requires forall k :: 0 <= k < |group| ==> group[k].school.Some?
    modifies db
    ensures db.Valid()
    ensures db.schools == WriteRows(old(db.schools), group, fields)
    ensures db.statuses == old(db.statuses)
  {
    var k := 0;
    TakeNone(group);
    while k < |group|
      invariant 0 <= k <= |group|
      invariant db.Valid() && db.statuses == old(db.statuses)
      invariant db.schools == WriteRows(old(db.schools), group[..k], fields)
    {
      db.UpdateFields(group[k].school.value, fields);
      TakeOneMore(group, k);
      k := k + 1;
    }
    TakeAll(group);
  }

  /** `update_existing_schools`: for each key set, one `bulk_update` of the
      school objects of the rows with that key set. */
  method UpdateExistingSchools(batch: RowList, db: Database)
    requires db.Valid()
    requires forall k :: 0 <= k < |batch.rows| && NotCreated(batch.rows[k]) ==> batch.rows[k].school.Some?
    modifies db
    ensures db.Valid()
    ensures db.schools == UpdatedTable(old(db.schools), batch.rows)
    ensures db.statuses == old(db.statuses)
  {
    var pending := Filter(batch.rows, NotCreated);
    var combos := Combinations(pending);
    ghost var start := db.schools;
    TakeNone(combos);
    var c := 0;
    while c < |combos|
      invariant 0 <= c <= |combos|
      invariant db.Valid() && db.statuses == old(db.statuses)
      invariant db.schools == WriteCombinations(start, pending, combos[..c])
    {
      var fields := combos[c];
      var group := Filter(pending, WithKeys(fields));
      BulkUpdate(db, group, fields);
      TakeOneMore(combos, c);
      c := c + 1;
    }
    TakeAll(combos);
  }

  /** Every object written back is the one the lookup read, and nothing from
      `school_data` is copied onto it: when the matched schools are what the
      table holds, the update leaves the table as it was. */
  lemma {:induction false} WriteRowsCurrent(schools: seq<School>, group: seq<ImportRow>, fields: set<string>)
    requires forall k :: 0 <= k < |group| ==> group[k].school.Some? && Current(schools, group[k].school.value)
    ensures WriteRows(schools, group, fields) == schools
  {
    if group != [] {
      WriteRowsCurrent(schools, group[..|group| - 1], fields);
      WriteBackCurrent(schools, group[|group| - 1].school.value, fields);
    }
  }

  lemma {:induction false} WriteCombinationsCurrent(schools: seq<School>, pending: seq<ImportRow>, combos: seq<set<string>>)
    requires forall k :: 0 <= k < |pending| ==> pending[k].school.Some? && Current(schools, pending[k].school.value)
    ensures WriteCombinations(schools, pending, combos) == schools
  {
    if combos != [] {
      WriteCombinationsCurrent(schools, pending, combos[..|combos| - 1]);
      var group := Filter(pending, WithKeys(combos[|combos| - 1]));
      WriteRowsCurrent(schools, group, combos[|combos| - 1]);
    }
  }

  /** The update writes back only what the lookups read: on a table that has
      not changed since, it changes nothing. */
  lemma UpdateWritesNothingNew(schools: seq<School>, rows: seq<ImportRow>)
    requires forall k :: 0 <= k < |rows| && NotCreated(rows[k]) ==>
               rows[k].school.Some? && Current(schools, rows[k].school.value)
    ensures UpdatedTable(schools, rows) == schools
  {
    var pending := Filter(rows, NotCreated);
    WriteCombinationsCurrent(schools, pending, Combinations(pending));
  }

  // ---------------------------------------------- delete_schools_not_in_bounds

  const OutsideMessage: string := "Bad data provided for geopoint: point outside country"

  /** The schools of `country` whose point is not within its geometry. */
  function OutOfBounds(country: CountryId, inside: GeoPoint -> bool): School -> bool {
    (s: School) => s.country == country && !inside(s.geopoint)
  }

  function NotOut(country: CountryId, inside: GeoPoint -> bool): School -> bool {
    (s: School) => !OutOfBounds(country, inside)(s)
  }

  /** A row whose school is no longer stored. */
  function Gone(ids: set<SchoolId>): ImportRow -> bool {
    (r: ImportRow) => r.school.Some? && r.school.value.id !in ids
  }

  function OutsideMessages(bad: seq<ImportRow>): (r: seq<string>)
    ensures |r| == |bad|
    ensures forall k :: 0 <= k < |bad| ==> r[k] == RowMessage(bad[k].rowIndex, OutsideMessage)
  {
    seq(|bad|, k requires 0 <= k < |bad| => RowMessage(bad[k].rowIndex, OutsideMessage))
  }

  /** The loop of `delete_schools_not_in_bounds` over the rows: each row whose
      school is not among `within` is reported. */
  method OutsideRows(rows: seq<ImportRow>, within: set<SchoolId>) returns (errors: seq<string>, bad: seq<ImportRow>)
    requires forall k :: 0 <= k < |rows| ==> rows[k].school.Some?
    ensures bad == Filter(rows, Gone(within))
    ensures errors == OutsideMessages(bad)
  {
    errors, bad := [], [];
    TakeNone(rows);
    var j := 0;
    while j < |rows|
      invariant 0 <= j <= |rows|
      invariant bad == Filter(rows[..j], Gone(within))
      invariant errors == OutsideMessages(bad)
    {
      TakeOneMore(rows, j);
      if rows[j].school.value.id !in within {
        errors := errors + [RowMessage(rows[j].rowIndex, OutsideMessage)];
        bad := bad + [rows[j]];
      }
      j := j + 1;
    }
    TakeAll(rows);
  }

  /** `delete_schools_not_in_bounds`: the out-of-bounds schools of the
      country go (with their statuses), and every row whose school went is
      reported and removed. */
  method DeleteSchoolsNotInBounds(batch: RowList, db: Database, country: CountryId, inside: GeoPoint -> bool)
    returns (errors: seq<string>)
    requires db.Valid()
    requires forall k :: 0 <= k < |batch.rows| ==> batch.rows[k].school.Some?
    modifies batch, db
    ensures db.Valid()
    ensures db.schools == Filter(old(db.schools), NotOut(country, inside))
    ensures var bad := Filter(old(batch.rows), Gone(SchoolIds(db.schools)));
            errors == OutsideMessages(bad) && batch.rows == RemoveEach(old(batch.rows), bad)
  {
    db.DeleteSchools(OutOfBounds(country, inside));
    FilterSame(old(db.schools), (s: School) => !OutOfBounds(country, inside)(s), NotOut(country, inside));
    var within := SchoolIds(db.schools);
    var bad;
    errors, bad := OutsideRows(batch.rows, within);
    batch.RemoveRows(bad);
  }

  /** On rows without repeats, the rows left are exactly those whose school
      is still stored. */
  lemma DeletedRowsAreTheGoneOnes(rows: seq<ImportRow>, ids: set<SchoolId>)
    requires Distinct(rows)
    requires forall k :: 0 <= k < |rows| ==> rows[k].school.Some?
    ensures RemoveEach(rows, Filter(rows, Gone(ids)))
            == Filter(rows, (r: ImportRow) => r.school.Some? && r.school.value.id in ids)
  {
    var bad := Filter(rows, Gone(ids));
    FilterDistinct(rows, Gone(ids));
    RemoveEachIsFilter(rows, bad);
    forall k | 0 <= k < |rows|
      ensures NotIn(set x | x in bad)(rows[k]) == (rows[k].school.Some? && rows[k].school.value.id in ids)
    {
      if Gone(ids)(rows[k]) {
        assert rows[k] in bad;
      }
    }
    FilterSame(rows, NotIn(set x | x in bad), (r: ImportRow) => r.school.Some? && r.school.value.id in ids);
  }
}
