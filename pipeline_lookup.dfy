/** `map_schools_by_external_id` and `map_schools_by_name` of
    `proco/schools/loaders/pipeline.py`: the rows are indexed by a lower-cased
    key, the keys are sent to the database in slices of 500, and every school
    of the country that a slice finds is attached to the row its key indexes. */
module PipelineLookup {
  import opened Wrappers
  import opened Text
  import opened Collections
  import opened SchoolModels
  import opened Validation
  import opened Store
  import opened PipelineRows

  const ChunkSize: nat := 500

  /** The two passes: by identifier over every row that has one, then by name
      over the rows still without a school. */
  datatype Pass = ByExternalId | ByName

  /** The key a pass indexes a row under, if the pass considers the row. */
  function RowKey(pass: Pass, r: ImportRow): Option<string> {
    match pass
    case ByExternalId =>
      if r.schoolData.externalId.Some? then Some(Lower(r.schoolData.externalId.value)) else None
    case ByName =>
      if r.school.None? && r.schoolData.name.Some? then Some(Lower(r.schoolData.name.value)) else None
  }

  /** The column the query compares the keys with (`external_id__in`,
      `name_lower__in`). */
  function SchoolKey(pass: Pass, s: School): string {
    match pass
    case ByExternalId => s.externalId
    case ByName => s.nameLower
  }

  /** The name pass reads `school_data['name']` of every row without a school;
      a row that has none raises KeyError before anything is attached. */
  predicate MissingName(rows: seq<ImportRow>) {
    exists k | 0 <= k < |rows| :: rows[k].school.None? && rows[k].schoolData.name.None?
  }

  function Min(a: int, b: int): int { if a < b then a else b }

  // ------------------------------------------------------------ the index

  /** `list(d.keys())` of the dict comprehension: each key once, in order of
      first appearance. */
  function KeyList(pass: Pass, rows: seq<ImportRow>): (keys: seq<string>)
    ensures forall i, j :: 0 <= i < j < |keys| ==> keys[i] != keys[j]
    ensures forall key :: key in keys <==> exists m :: 0 <= m < |rows| && RowKey(pass, rows[m]) == Some(key)
  {
    if rows == [] then []
    else
      var init := rows[..|rows| - 1];
      var keys := KeyList(pass, init);
      assert forall m :: 0 <= m < |init| ==> init[m] == rows[m];
      match RowKey(pass, rows[|rows| - 1])
      case Some(key) => if key in keys then keys else keys + [key]
      case None => keys
  }

  /** The row a key indexes: the dict keeps the last row written under it. */
  function Owner(pass: Pass, rows: seq<ImportRow>, key: string): (j: int)
    ensures -1 <= j < |rows|
    ensures j >= 0 ==> RowKey(pass, rows[j]) == Some(key)
    ensures j >= 0 ==> forall m :: j < m < |rows| ==> RowKey(pass, rows[m]) != Some(key)
    ensures j == -1 <==> forall m :: 0 <= m < |rows| ==> RowKey(pass, rows[m]) != Some(key)
  {
    if rows == [] then -1
    else if RowKey(pass, rows[|rows| - 1]) == Some(key) then |rows| - 1
    else
      var init := rows[..|rows| - 1];
      assert forall m :: 0 <= m < |init| ==> init[m] == rows[m];
      Owner(pass, init, key)
  }

  /** The school the last assignment for `key` leaves in place: the last one,
      in id order, whose column equals the key. */
  function LastMatch(pass: Pass, candidates: seq<School>, key: string): (r: Option<School>)
    ensures r.Some? ==> r.value in candidates && SchoolKey(pass, r.value) == key
    ensures r.None? <==> forall i :: 0 <= i < |candidates| ==> SchoolKey(pass, candidates[i]) != key
  {
    if candidates == [] then None
    else if SchoolKey(pass, candidates[|candidates| - 1]) == key then Some(candidates[|candidates| - 1])
    else
      var init := candidates[..|candidates| - 1];
      assert forall i :: 0 <= i < |init| ==> init[i] == candidates[i];
      LastMatch(pass, init, key)
  }

  /** The query of one slice finds, among others, every candidate with the key,
      in the same order, so the last assignment for that key is the same. */
  lemma {:induction false} LastMatchFilter(pass: Pass, candidates: seq<School>, p: School -> bool, key: string)
    requires forall s :: SchoolKey(pass, s) == key ==> p(s)
    ensures LastMatch(pass, Filter(candidates, p), key) == LastMatch(pass, candidates, key)
  {
    if candidates != [] {
      var init, last := candidates[..|candidates| - 1], candidates[|candidates| - 1];
      LastMatchFilter(pass, init, p, key);
      var fi := Filter(init, p);
      assert Filter(candidates, p) == fi + (if p(last) then [last] else []);
      if SchoolKey(pass, last) == key {
        assert p(last);
        assert LastMatch(pass, fi + [last], key) == Some(last);
      } else {
        assert LastMatch(pass, candidates, key) == LastMatch(pass, init, key);
        if p(last) {
          assert (fi + [last])[..|fi|] == fi;
          assert LastMatch(pass, fi + [last], key) == LastMatch(pass, fi, key);
        } else {
          assert Filter(candidates, p) == fi;
        }
      }
    }
  }

  /** The loop over the query result meets one more school. */
  lemma LastMatchExtend(pass: Pass, found: seq<School>, m: nat, key: string)
    requires m < |found|
    ensures LastMatch(pass, found[..m + 1], key)
            == if SchoolKey(pass, found[m]) == key then Some(found[m]) else LastMatch(pass, found[..m], key)
  {
    assert found[..m + 1][..m] == found[..m];
  }

  // ------------------------------------------------------ the intended result

  /** Row `j` after the pass, when `picked` gives the school found for each key:
      only the row that owns a found key receives it. */
  function Assigned(pass: Pass, rows: seq<ImportRow>, j: nat, picked: map<string, School>): ImportRow
    requires j < |rows|
  {
    match RowKey(pass, rows[j])
    case None => rows[j]
    case Some(key) =>
      if key in picked && Owner(pass, rows, key) == j then rows[j].(school := Some(picked[key])) else rows[j]
  }

  function AttachAll(pass: Pass, rows: seq<ImportRow>, picked: map<string, School>): (r: seq<ImportRow>)
    ensures |r| == |rows|
    ensures forall j :: 0 <= j < |rows| ==> r[j] == Assigned(pass, rows, j, picked)
  {
    seq(|rows|, j requires 0 <= j < |rows| => Assigned(pass, rows, j, picked))
  }

  /** For every key of the rows, the school the query loop ends with. */
  function Matches(pass: Pass, rows: seq<ImportRow>, candidates: seq<School>): map<string, School> {
    var keys := KeyList(pass, rows);
    map key | key in keys && LastMatch(pass, candidates, key).Some? :: LastMatch(pass, candidates, key).value
  }

  /** The rows after a pass over `candidates` (the country's schools in id
      order). */
  function Attached(pass: Pass, rows: seq<ImportRow>, candidates: seq<School>): seq<ImportRow> {
    AttachAll(pass, rows, Matches(pass, rows, candidates))
  }

  /** Finding one more school changes the row that owns its key, and no other. */
  lemma AttachOne(pass: Pass, rows: seq<ImportRow>, picked: map<string, School>, key: string, s: School)
    requires Owner(pass, rows, key) >= 0
    ensures var j := Owner(pass, rows, key);
            AttachAll(pass, rows, picked[key := s]) == AttachAll(pass, rows, picked)[j := rows[j].(school := Some(s))]
  {
    var j := Owner(pass, rows, key);
    var a, b := AttachAll(pass, rows, picked[key := s]), AttachAll(pass, rows, picked)[j := rows[j].(school := Some(s))];
    forall j' | 0 <= j' < |rows|
      ensures a[j'] == b[j']
    {
    }
  }

  /** What the outer loop has found once the keys `done` were queried. */
  ghost predicate PickedUpTo(pass: Pass, picked: map<string, School>, done: seq<string>, candidates: seq<School>) {
    && (forall key :: key in picked <==> key in done && LastMatch(pass, candidates, key).Some?)
    && (forall key :: key in picked ==> picked[key] == LastMatch(pass, candidates, key).value)
  }

  /** What the inner loop has found once it met the schools `seen` of the
      query of `chunk`, on top of `before`. */
  ghost predicate PickedSoFar(pass: Pass, picked: map<string, School>, before: map<string, School>,
                              chunk: seq<string>, seen: seq<School>) {
    && (forall key :: key in picked <==> key in before || (key in chunk && LastMatch(pass, seen, key).Some?))
    && (forall key :: key in picked ==>
          picked[key] == if key in before then before[key] else LastMatch(pass, seen, key).value)
  }

  lemma PickedStep(pass: Pass, picked: map<string, School>, before: map<string, School>,
                   chunk: seq<string>, found: seq<School>, m: nat)
    requires m < |found| && SchoolKey(pass, found[m]) in chunk && SchoolKey(pass, found[m]) !in before
    requires PickedSoFar(pass, picked, before, chunk, found[..m])
    ensures PickedSoFar(pass, picked[SchoolKey(pass, found[m]) := found[m]], before, chunk, found[..m + 1])
  {
    var key, s := SchoolKey(pass, found[m]), found[m];
    var next := picked[key := s];
    forall other: string
      ensures other in next <==> other in before || (other in chunk && LastMatch(pass, found[..m + 1], other).Some?)
      ensures other in next ==>
                next[other] == if other in before then before[other] else LastMatch(pass, found[..m + 1], other).value
    {
      LastMatchExtend(pass, found, m, other);
      if other != key {
        assert LastMatch(pass, found[..m + 1], other) == LastMatch(pass, found[..m], other);
      }
    }
  }

  lemma ChunkDone(pass: Pass, picked: map<string, School>, before: map<string, School>,
                  done: seq<string>, chunk: seq<string>, found: seq<School>, candidates: seq<School>)
    requires PickedUpTo(pass, before, done, candidates)
    requires PickedSoFar(pass, picked, before, chunk, found)
    requires forall key :: key in chunk ==> LastMatch(pass, found, key) == LastMatch(pass, candidates, key)
    ensures PickedUpTo(pass, picked, done + chunk, candidates)
  {
  }

  /** Once every key was queried, the loop found what `Matches` names. */
  lemma PickedAll(pass: Pass, picked: map<string, School>, rows: seq<ImportRow>, candidates: seq<School>)
    requires PickedUpTo(pass, picked, KeyList(pass, rows), candidates)
    ensures picked == Matches(pass, rows, candidates)
  {
  }

  /** A key of one slice was in no earlier slice. */
  lemma SlicesDisjoint(keys: seq<string>, lo: nat, hi: nat, key: string)
    requires lo <= hi <= |keys|
    requires forall i, j :: 0 <= i < j < |keys| ==> keys[i] != keys[j]
    requires key in keys[lo..hi]
    ensures key !in keys[..lo]
  {
    var q :| lo <= q < hi && keys[q] == key;
    forall p | 0 <= p < lo
      ensures keys[p] != key
    {
      assert keys[p] != keys[q];
    }
  }

  /** Before a slice is queried: none of its keys was found already, and
      each indexes a row. */
  lemma SliceReady(pass: Pass, rows: seq<ImportRow>, keys: seq<string>, lo: nat, hi: nat,
                   before: map<string, School>, candidates: seq<School>)
    requires keys == KeyList(pass, rows) && lo <= hi <= |keys|
    requires PickedUpTo(pass, before, keys[..lo], candidates)
    ensures forall key :: key in keys[lo..hi] ==> key !in before && Owner(pass, rows, key) >= 0
  {
    forall key | key in keys[lo..hi]
      ensures key !in before && Owner(pass, rows, key) >= 0
    {
      SlicesDisjoint(keys, lo, hi, key);
    }
  }

  /** After a slice was queried, the keys up to its end are done. */
  lemma SliceDone(pass: Pass, keys: seq<string>, lo: nat, hi: nat, before: map<string, School>,
                  picked: map<string, School>, found: seq<School>, candidates: seq<School>)
    requires lo <= hi <= |keys|
    requires PickedUpTo(pass, before, keys[..lo], candidates)
    requires found == Filter(candidates, (s: School) => SchoolKey(pass, s) in keys[lo..hi])
    requires PickedSoFar(pass, picked, before, keys[lo..hi], found)
    ensures PickedUpTo(pass, picked, keys[..hi], candidates)
  {
    var chunk := keys[lo..hi];
    forall key | key in chunk
      ensures LastMatch(pass, found, key) == LastMatch(pass, candidates, key)
    {
      LastMatchFilter(pass, candidates, (s: School) => SchoolKey(pass, s) in chunk, key);
    }
    ChunkDone(pass, picked, before, keys[..lo], chunk, found, candidates);
    assert keys[..hi] == keys[..lo] + chunk;
  }

  /** A pass changes no column but `school`, and a row it changes receives a
      school of the candidates whose column equals the row's key: the last
      such school in id order. */
  lemma AttachedChangesOnlySchools(pass: Pass, rows: seq<ImportRow>, candidates: seq<School>)
    ensures var r := Attached(pass, rows, candidates);
            && |r| == |rows|
            && (forall j :: 0 <= j < |rows| ==> r[j].(school := rows[j].school) == rows[j])
            && (forall j :: 0 <= j < |rows| && r[j] != rows[j] ==>
                  && RowKey(pass, rows[j]).Some?
                  && r[j].school == LastMatch(pass, candidates, RowKey(pass, rows[j]).value)
                  && r[j].school.Some?)
  {
  }

  /** The row a key indexes is the row with that key when no two rows share
      one. */
  lemma OwnerOfDistinct(pass: Pass, rows: seq<ImportRow>, j: nat)
    requires NoDuplicates(rows) && j < |rows| && RowKey(pass, rows[j]).Some?
    ensures Owner(pass, rows, RowKey(pass, rows[j]).value) == j
  {
  }

  /** On the rows `get_validated_rows` keeps (no two share a lower-cased
      identifier or name) a pass attaches a school to every row it considers
      whose key some candidate carries, and leaves every other row as it was. */
  lemma AttachedToEveryMatch(pass: Pass, rows: seq<ImportRow>, candidates: seq<School>)
    requires NoDuplicates(rows)
    ensures var r := Attached(pass, rows, candidates);
            forall j :: 0 <= j < |rows| ==>
              r[j] == match RowKey(pass, rows[j])
                      case None => rows[j]
                      case Some(key) =>
                        if LastMatch(pass, candidates, key).Some?
                        then rows[j].(school := LastMatch(pass, candidates, key))
                        else rows[j]
  {
    forall j | 0 <= j < |rows| && RowKey(pass, rows[j]).Some?
      ensures Owner(pass, rows, RowKey(pass, rows[j]).value) == j
    {
      OwnerOfDistinct(pass, rows, j);
    }
  }

  /** The first stages composed: on the rows `get_validated_rows` keeps from
      a file, a pass attaches to each row it considers the last candidate
      carrying the row's key, and leaves every other row as it was. */
  lemma ValidatedRowsFindTheirSchools(env: Env, country: CountryId, loaded: seq<RawRow>, pass: Pass, candidates: seq<School>)
    ensures var rows := ScanRows(env, country, loaded).rows;
            var r := Attached(pass, rows, candidates);
            forall j :: 0 <= j < |rows| ==>
              r[j] == match RowKey(pass, rows[j])
                      case None => rows[j]
                      case Some(key) =>
                        if LastMatch(pass, candidates, key).Some?
                        then rows[j].(school := LastMatch(pass, candidates, key))
                        else rows[j]
  {
    ScanRowsInvariant(env, country, loaded);
    AttachedToEveryMatch(pass, ScanRows(env, country, loaded).rows, candidates);
  }

  // --------------------------------------------------------------- the loop

  /** Both passes: build the index, query it slice by slice, attach what each
      slice finds. */
  method AttachSchools(pass: Pass, batch: RowList, db: Database, country: CountryId) returns (raised: bool)
    modifies batch
    ensures raised <==> pass == ByName && MissingName(old(batch.rows))
    ensures batch.rows == if raised then old(batch.rows)
                          else Attached(pass, old(batch.rows), Filter(db.schools, InCountry(country)))
  {
    raised := pass == ByName && MissingName(batch.rows);
    if raised {
      return;
    }
    var rows := batch.rows;
    var keys := KeyList(pass, rows);
    var candidates := Filter(db.schools, InCountry(country));
    ghost var picked: map<string, School> := map[];
    var i := 0;
    while i < |keys|
      invariant 0 <= i
      invariant |batch.rows| == |rows|
      invariant batch.rows == AttachAll(pass, rows, picked)
      invariant PickedUpTo(pass, picked, keys[..Min(i, |keys|)], candidates)
    {
      var chunk := keys[i..Min(i + ChunkSize, |keys|)];
      var found := Filter(candidates, (s: School) => SchoolKey(pass, s) in chunk);
      ghost var before := picked;
      SliceReady(pass, rows, keys, i, Min(i + ChunkSize, |keys|), before, candidates);
      picked := AttachFound(pass, batch, rows, chunk, found, before);
      SliceDone(pass, keys, i, Min(i + ChunkSize, |keys|), before, picked, found, candidates);
      i := i + ChunkSize;
    }
    assert keys[..Min(i, |keys|)] == keys;
    PickedAll(pass, picked, rows, candidates);
  }

  /** The loop over one query's result: each school found is attached to the
      row its key indexes, a later school of the same key replacing an earlier
      one. */
  method AttachFound(pass: Pass, batch: RowList, rows: seq<ImportRow>, chunk: seq<string>,
                     found: seq<School>, ghost before: map<string, School>)
    returns (ghost picked: map<string, School>)
    requires batch.rows == AttachAll(pass, rows, before)
    requires forall m :: 0 <= m < |found| ==> SchoolKey(pass, found[m]) in chunk
    requires forall key :: key in chunk ==> key !in before && Owner(pass, rows, key) >= 0
    modifies batch
    ensures batch.rows == AttachAll(pass, rows, picked)
    ensures PickedSoFar(pass, picked, before, chunk, found)
  {
    picked := before;
    var m := 0;
    while m < |found|
      invariant 0 <= m <= |found|
      invariant batch.rows == AttachAll(pass, rows, picked)
      invariant PickedSoFar(pass, picked, before, chunk, found[..m])
    {
      var s := found[m];
      var key := SchoolKey(pass, s);
      var j := Owner(pass, rows, key);
      AttachOne(pass, rows, picked, key, s);
      PickedStep(pass, picked, before, chunk, found, m);
      batch.rows := batch.rows[j := rows[j].(school := Some(s))];
      picked := picked[key := s];
      m := m + 1;
    }
    assert found[..m] == found;
  }

  /** `map_schools_by_external_id`. */
  method MapSchoolsByExternalId(batch: RowList, db: Database, country: CountryId)
    modifies batch
    ensures batch.rows == Attached(ByExternalId, old(batch.rows), Filter(db.schools, InCountry(country)))
  {
    var raised := AttachSchools(ByExternalId, batch, db, country);
  }

  /** `map_schools_by_name`; `raised` is the KeyError of a row without a name. */
  method MapSchoolsByName(batch: RowList, db: Database, country: CountryId) returns (raised: bool)
    modifies batch
    ensures raised <==> MissingName(old(batch.rows))
    ensures batch.rows == if raised then old(batch.rows)
                          else Attached(ByName, old(batch.rows), Filter(db.schools, InCountry(country)))
  {
    raised := AttachSchools(ByName, batch, db, country);
  }
}
