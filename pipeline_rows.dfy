/** `get_validated_rows` of `proco/schools/loaders/pipeline.py`: every loaded
    row is normalised, validated, and either kept, or answered with its error,
    or dropped as a duplicate of an earlier row of the same file. Also the row
    record the later stages work on and the list object they mutate. */
module PipelineRows {
  import opened Wrappers
  import opened Text
  import opened SchoolModels
  import opened Validation
  import opened Collections

  /** A row as read from the file: (column, cell) pairs in column order. */
  type RawRow = seq<(string, string)>

  /** The row dict the stages pass along: its file row number, the two dicts
      made by the validator, and the keys the lookup and creation stages add
      (`school` absent is None; `school_created` absent is false). */
  datatype ImportRow = ImportRow(
    rowIndex: nat,
    schoolData: SchoolData,
    historyData: HistoryData,
    school: Option<School>,
    schoolCreated: bool)

  /** The `rows` list the stages receive and change in place. */
  class RowList {
    var rows: seq<ImportRow>

    constructor (rows: seq<ImportRow>)
      ensures this.rows == rows
    {
      this.rows := rows;
    }

    /** `for bad_row in bad_rows: rows.remove(bad_row)`. */
    method RemoveRows(bad: seq<ImportRow>)
      modifies this
      ensures rows == RemoveEach(old(rows), bad)
    {
      ghost var start := rows;
      TakeNone(bad);
      var k := 0;
      while k < |bad|
        invariant 0 <= k <= |bad|
        invariant rows == RemoveEach(start, bad[..k])
      {
        rows := RemoveFirst(rows, bad[k]);
        TakeOneMore(bad, k);
        k := k + 1;
      }
      TakeAll(bad);
    }
  }

  /** A row no lookup has matched with a stored school. */
  function IsNew(r: ImportRow): bool { r.school.None? }

  /** `'Row {0}: ...'.format(n)`. */
  function RowMessage(n: nat, message: string): string {
    "Row " + NatToString(n) + ": " + message
  }

  const DuplicateIdWarning := "Bad data provided for school identifier: duplicate entry"
  const DuplicateNameWarning := "Bad data provided for school name: duplicate entry"

  // ------------------------------------------------------------ normalisation

  /** The first dict comprehension: keys lose their non-ASCII characters,
      values their surrounding white space; a later column whose key collapses
      onto an earlier one replaces it. */
  function Cells(raw: RawRow): (m: map<string, string>)
    ensures m.Keys == set i | 0 <= i < |raw| :: AsciiOnly(raw[i].0)
  {
    if raw == [] then map[]
    else
      var init := raw[..|raw| - 1];
      assert forall i :: 0 <= i < |init| ==> init[i] == raw[i];
      Cells(init)[AsciiOnly(raw[|raw| - 1].0) := Strip(raw[|raw| - 1].1)]
  }

  /** Each cell holds the stripped value of the last column whose key
      collapses onto it. */
  lemma {:induction false} CellsFromLastColumn(raw: RawRow, i: nat)
    requires i < |raw|
    requires forall j :: i < j < |raw| ==> AsciiOnly(raw[j].0) != AsciiOnly(raw[i].0)
    ensures Cells(raw)[AsciiOnly(raw[i].0)] == Strip(raw[i].1)
  {
    if i < |raw| - 1 {
      var init := raw[..|raw| - 1];
      CellsFromLastColumn(init, i);
    }
  }

  /** The second comprehension's test: no empty value, and no "na"/"nd" except
      under an admin column. */
  predicate KeepCell(key: string, value: string) {
    value != "" && (StartsWith(key, "admin") || (value != "na" && value != "nd"))
  }

  function Normalise(raw: RawRow): (data: Row)
    ensures forall k :: k in data <==> k in Cells(raw) && KeepCell(k, Cells(raw)[k])
    ensures forall k :: k in data ==> data[k] == Cells(raw)[k] && data[k] != ""
    ensures forall k :: k in data ==> StartsWith(k, "admin") || (data[k] != "na" && data[k] != "nd")
  {
    var cells := Cells(raw);
    map k | k in cells && KeepCell(k, cells[k]) :: cells[k]
  }

  // ------------------------------------------------------------- the scan

  /** What the loop has built: the three returned lists and the lower-cased
      identifiers and names seen so far. */
  datatype Scan = Scan(
    rows: seq<ImportRow>,
    errors: seq<string>,
    warnings: seq<string>,
    externalIds: seq<string>,
    names: seq<string>)

  /** The row has no identifier, or one not recorded yet. */
  predicate IdFree(st: Scan, sd: SchoolData) {
    sd.externalId.None? || Lower(sd.externalId.value) !in st.externalIds
  }

  /** The row has no name, or one not recorded yet. */
  predicate NameFree(st: Scan, sd: SchoolData) {
    sd.name.None? || Lower(sd.name.value) !in st.names
  }

  /** Duplicate suppression for one accepted row: the identifier is checked
      and recorded first, then the name. The row is kept exactly when both are
      free; a taken identifier gives the identifier warning, a free identifier
      with a taken name the name warning, and in that last case the
      identifier stays recorded although the row is dropped. */
  function Admit(st: Scan, rowIndex: nat, sd: SchoolData, hd: HistoryData): (r: Scan)
    ensures r.errors == st.errors
    ensures IdFree(st, sd) && NameFree(st, sd) ==>
              r.rows == st.rows + [ImportRow(rowIndex, sd, hd, None, false)] && r.warnings == st.warnings
    ensures !IdFree(st, sd) ==> r.rows == st.rows && r.warnings == st.warnings + [DuplicateIdWarning]
    ensures IdFree(st, sd) && !NameFree(st, sd) ==> r.rows == st.rows && r.warnings == st.warnings + [DuplicateNameWarning]
    ensures r.externalIds == if IdFree(st, sd) && sd.externalId.Some? then st.externalIds + [Lower(sd.externalId.value)]
                             else st.externalIds
    ensures r.names == if IdFree(st, sd) && NameFree(st, sd) && sd.name.Some? then st.names + [Lower(sd.name.value)]
                       else st.names
  {
    if sd.externalId.Some? && Lower(sd.externalId.value) in st.externalIds then
      st.(warnings := st.warnings + [DuplicateIdWarning])
    else
      var st1 := if sd.externalId.Some? then st.(externalIds := st.externalIds + [Lower(sd.externalId.value)]) else st;
      if sd.name.Some? && Lower(sd.name.value) in st1.names then
        st1.(warnings := st1.warnings + [DuplicateNameWarning])
      else
        var st2 := if sd.name.Some? then st1.(names := st1.names + [Lower(sd.name.value)]) else st1;
        st2.(rows := st2.rows + [ImportRow(rowIndex, sd, hd, None, false)])
  }

  /** `f'Row {row_index}: {error}'` for each message. */
  function Prefixed(n: nat, messages: seq<string>): (r: seq<string>)
    ensures |r| == |messages|
    ensures forall k :: 0 <= k < |r| ==> r[k] == RowMessage(n, messages[k])
  {
    seq(|messages|, k requires 0 <= k < |messages| => RowMessage(n, messages[k]))
  }

  /** One iteration of the loop, for the row at position `i` of the file. The
      validator never returns warnings, so the branch that would prefix them
      (pipeline.py:51-53) is not reached and not modelled. */
  function Step(env: Env, country: CountryId, st: Scan, i: nat, raw: RawRow): Scan {
    var data := Normalise(raw);
    if data == map[] then st
    else
      var result := ValidateRow(env, country, data);
      if result.errors != [] then st.(errors := st.errors + Prefixed(i + 2, result.errors))
      else Admit(st, i + 2, result.school.value, result.history.value)
  }

  /** The loop over the first |loaded| rows. */
  function ScanRows(env: Env, country: CountryId, loaded: seq<RawRow>): Scan {
    if loaded == [] then Scan([], [], [], [], [])
    else Step(env, country, ScanRows(env, country, loaded[..|loaded| - 1]), |loaded| - 1, loaded[|loaded| - 1])
  }

  /** `get_validated_rows`. */
  method GetValidatedRows(env: Env, country: CountryId, loaded: seq<RawRow>)
    returns (rows: seq<ImportRow>, errors: seq<string>, warnings: seq<string>)
    ensures var st := ScanRows(env, country, loaded);
            rows == st.rows && errors == st.errors && warnings == st.warnings
  {
    var st := Scan([], [], [], [], []);
    var i := 0;
    while i < |loaded|
      invariant 0 <= i <= |loaded|
      invariant st == ScanRows(env, country, loaded[..i])
    {
      assert loaded[..i + 1][..i] == loaded[..i];
      var data := Normalise(loaded[i]);
      if data != map[] {
        var result := ValidateRow(env, country, data);
        if result.errors != [] {
          st := st.(errors := st.errors + Prefixed(i + 2, result.errors));
        } else {
          var sd, hd := result.school.value, result.history.value;
          if sd.externalId.Some? && Lower(sd.externalId.value) in st.externalIds {
            st := st.(warnings := st.warnings + [DuplicateIdWarning]);
          } else {
            if sd.externalId.Some? {
              st := st.(externalIds := st.externalIds + [Lower(sd.externalId.value)]);
            }
            if sd.name.Some? && Lower(sd.name.value) in st.names {
              st := st.(warnings := st.warnings + [DuplicateNameWarning]);
            } else {
              if sd.name.Some? {
                st := st.(names := st.names + [Lower(sd.name.value)]);
              }
              st := st.(rows := st.rows + [ImportRow(i + 2, sd, hd, None, false)]);
            }
          }
        }
      }
      i := i + 1;
    }
    assert loaded[..|loaded|] == loaded;
    rows, errors, warnings := st.rows, st.errors, st.warnings;
  }

  // ---------------------------------------------------------- properties

  /** The recorded identifiers and names are distinct, and every kept row's
      lower-cased identifier and name are among them. */
  ghost predicate Recorded(st: Scan) {
    && (forall i, j :: 0 <= i < j < |st.externalIds| ==> st.externalIds[i] != st.externalIds[j])
    && (forall i, j :: 0 <= i < j < |st.names| ==> st.names[i] != st.names[j])
    && (forall k :: 0 <= k < |st.rows| && st.rows[k].schoolData.externalId.Some? ==>
          LowerId(st.rows[k]) in st.externalIds)
    && (forall k :: 0 <= k < |st.rows| && st.rows[k].schoolData.name.Some? ==>
          LowerName(st.rows[k]) in st.names)
  }

  /** The kept rows come in file order, numbered from 2 up to the number of
      rows read plus one. */
  ghost predicate InFileOrder(rows: seq<ImportRow>, n: nat) {
    && (forall i, j :: 0 <= i < j < |rows| ==> rows[i].rowIndex < rows[j].rowIndex)
    && (forall k :: 0 <= k < |rows| ==> 2 <= rows[k].rowIndex < n + 2)
  }

  function LowerId(r: ImportRow): string
    requires r.schoolData.externalId.Some?
  {
    Lower(r.schoolData.externalId.value)
  }

  function LowerName(r: ImportRow): string
    requires r.schoolData.name.Some?
  {
    Lower(r.schoolData.name.value)
  }

  /** Two kept rows never share a lower-cased identifier, nor a lower-cased
      name. */
  ghost predicate NoDuplicates(rows: seq<ImportRow>) {
    && (forall i, j :: 0 <= i < j < |rows| && rows[i].schoolData.externalId.Some? && rows[j].schoolData.externalId.Some? ==>
          LowerId(rows[i]) != LowerId(rows[j]))
    && (forall i, j :: 0 <= i < j < |rows| && rows[i].schoolData.name.Some? && rows[j].schoolData.name.Some? ==>
          LowerName(rows[i]) != LowerName(rows[j]))
  }

  lemma AdmitKeeps(st: Scan, n: nat, sd: SchoolData, hd: HistoryData)
    requires Recorded(st) && InFileOrder(st.rows, n) && NoDuplicates(st.rows)
    ensures var r := Admit(st, n + 2, sd, hd);
            Recorded(r) && InFileOrder(r.rows, n + 1) && NoDuplicates(r.rows)
  {
    if !(sd.externalId.Some? && Lower(sd.externalId.value) in st.externalIds) {
      var st1 := if sd.externalId.Some? then st.(externalIds := st.externalIds + [Lower(sd.externalId.value)]) else st;
      RecordKeeps(st, sd);
      if !(sd.name.Some? && Lower(sd.name.value) in st1.names) {
        var st2 := if sd.name.Some? then st1.(names := st1.names + [Lower(sd.name.value)]) else st1;
        RecordNameKeeps(st1, sd);
        AppendKeeps(st, st2, n, ImportRow(n + 2, sd, hd, None, false));
      }
    }
  }

  lemma RecordKeeps(st: Scan, sd: SchoolData)
    requires Recorded(st)
    requires sd.externalId.Some? ==> Lower(sd.externalId.value) !in st.externalIds
    ensures Recorded(if sd.externalId.Some? then st.(externalIds := st.externalIds + [Lower(sd.externalId.value)]) else st)
  {
  }

  lemma RecordNameKeeps(st: Scan, sd: SchoolData)
    requires Recorded(st)
    requires sd.name.Some? ==> Lower(sd.name.value) !in st.names
    ensures Recorded(if sd.name.Some? then st.(names := st.names + [Lower(sd.name.value)]) else st)
  {
  }

  /** Appending a row whose identifier and name were not recorded before. */
  lemma AppendKeeps(st: Scan, st2: Scan, n: nat, row: ImportRow)
    requires Recorded(st) && InFileOrder(st.rows, n) && NoDuplicates(st.rows)
    requires Recorded(st2) && st2.rows == st.rows && row.rowIndex == n + 2
    requires row.schoolData.externalId.Some? ==> LowerId(row) !in st.externalIds && LowerId(row) in st2.externalIds
    requires row.schoolData.name.Some? ==> LowerName(row) !in st.names && LowerName(row) in st2.names
    ensures var r := st2.(rows := st2.rows + [row]);
            Recorded(r) && InFileOrder(r.rows, n + 1) && NoDuplicates(r.rows)
  {
  }

  /** The scan keeps its invariant, so the kept rows of a whole file have no
      duplicate identifier or name and keep the file's order. */
  lemma {:induction false} ScanRowsInvariant(env: Env, country: CountryId, loaded: seq<RawRow>)
    ensures var st := ScanRows(env, country, loaded);
            Recorded(st) && InFileOrder(st.rows, |loaded|) && NoDuplicates(st.rows)
  {
    if loaded != [] {
      var n := |loaded| - 1;
      var st := ScanRows(env, country, loaded[..n]);
      ScanRowsInvariant(env, country, loaded[..n]);
      var data := Normalise(loaded[n]);
      if data != map[] {
        var result := ValidateRow(env, country, data);
        if result.errors == [] {
          AdmitKeeps(st, n, result.school.value, result.history.value);
        }
      }
    }
  }

  /** Every non-empty row is accounted for exactly once: kept, or one error, or
      one duplicate warning (the validator gives exactly one error and no
      warning). */
  function NonEmptyCount(loaded: seq<RawRow>): nat {
    if loaded == [] then 0
    else NonEmptyCount(loaded[..|loaded| - 1]) + (if Normalise(loaded[|loaded| - 1]) == map[] then 0 else 1)
  }

  lemma {:induction false} ScanAccounting(env: Env, country: CountryId, loaded: seq<RawRow>)
    ensures var st := ScanRows(env, country, loaded);
            |st.rows| + |st.errors| + |st.warnings| == NonEmptyCount(loaded)
  {
    if loaded != [] {
      var n := |loaded| - 1;
      ScanAccounting(env, country, loaded[..n]);
      StepCount(env, country, ScanRows(env, country, loaded[..n]), n, loaded[n]);
    }
  }

  /** One iteration adds one row, error or warning for a non-empty row and
      nothing for an empty one. */
  lemma StepCount(env: Env, country: CountryId, st: Scan, n: nat, raw: RawRow)
    ensures var after := Step(env, country, st, n, raw);
            |after.rows| + |after.errors| + |after.warnings|
              == |st.rows| + |st.errors| + |st.warnings| + (if Normalise(raw) == map[] then 0 else 1)
  {
    StepAnswer(env, country, st, n, raw);
    var a := AnswerOf(env, country, raw);
    if a.Some? {
      AdmitCount(st, n + 2, a.value.0, a.value.1);
    }
  }

  /** Admitting a row adds it or one warning, never both. */
  lemma AdmitCount(st: Scan, rowIndex: nat, sd: SchoolData, hd: HistoryData)
    ensures var r := Admit(st, rowIndex, sd, hd);
            |r.rows| + |r.warnings| == |st.rows| + |st.warnings| + 1 && r.errors == st.errors
  {
  }

  /** One iteration keeps the rows so far and adds at most the validator's
      answer for the row it reads. */
  lemma StepRows(env: Env, country: CountryId, st: Scan, i: nat, raw: RawRow)
    ensures var rows := Step(env, country, st, i, raw).rows;
            var result := ValidateRow(env, country, Normalise(raw));
            || rows == st.rows
            || (&& result.school.Some? && result.history.Some?
                && rows == st.rows + [ImportRow(i + 2, result.school.value, result.history.value, None, false)])
  {
  }

  /** `r` is the validator's answer to the normalised file row it names. */
  ghost predicate AnswerTo(env: Env, country: CountryId, loaded: seq<RawRow>, r: ImportRow) {
    && 2 <= r.rowIndex < |loaded| + 2
    && ValidateRow(env, country, Normalise(loaded[r.rowIndex - 2])).school == Some(r.schoolData)
    && ValidateRow(env, country, Normalise(loaded[r.rowIndex - 2])).history == Some(r.historyData)
    && r.school.None? && !r.schoolCreated
  }

  lemma AnswerToLonger(env: Env, country: CountryId, loaded: seq<RawRow>, r: ImportRow)
    requires loaded != [] && AnswerTo(env, country, loaded[..|loaded| - 1], r)
    ensures AnswerTo(env, country, loaded, r)
  {
    assert loaded[..|loaded| - 1][r.rowIndex - 2] == loaded[r.rowIndex - 2];
  }

  /** A kept row is the validator's answer to its normalised file row. */
  lemma {:induction false} KeptRowsAreValidated(env: Env, country: CountryId, loaded: seq<RawRow>, k: nat)
    requires k < |ScanRows(env, country, loaded).rows|
    ensures AnswerTo(env, country, loaded, ScanRows(env, country, loaded).rows[k])
  {
    var n := |loaded| - 1;
    var st := ScanRows(env, country, loaded[..n]);
    var all := ScanRows(env, country, loaded).rows;
    assert all == Step(env, country, st, n, loaded[n]).rows;
    StepRows(env, country, st, n, loaded[n]);
    if k < |st.rows| {
      KeptRowsAreValidated(env, country, loaded[..n], k);
      assert all[k] == st.rows[k];
      AnswerToLonger(env, country, loaded, st.rows[k]);
    } else {
      var result := ValidateRow(env, country, Normalise(loaded[n]));
      assert all[k] == ImportRow(n + 2, result.school.value, result.history.value, None, false);
    }
  }

  // ---------------------------------------------------- which rows are kept

  /** What the validator made of one file row: the school and history columns
      of an accepted row; None for an empty or a rejected one. */
  type Answer = Option<(SchoolData, HistoryData)>

  function AnswerOf(env: Env, country: CountryId, raw: RawRow): Answer {
    var data := Normalise(raw);
    if data == map[] then None
    else
      var result := ValidateRow(env, country, data);
      if result.errors != [] then None else Some((result.school.value, result.history.value))
  }

  /** The answers to the rows of a file, in file order. */
  function Answers(env: Env, country: CountryId, loaded: seq<RawRow>): (answers: seq<Answer>)
    ensures |answers| == |loaded|
  {
    seq(|loaded|, m requires 0 <= m < |loaded| => AnswerOf(env, country, loaded[m]))
  }

  /** Duplicate suppression alone, over the answers to the first |answers|
      rows of a file; its error list stays empty. */
  function Admitted(answers: seq<Answer>): Scan {
    if answers == [] then Scan([], [], [], [], [])
    else
      var st := Admitted(answers[..|answers| - 1]);
      var a := answers[|answers| - 1];
      if a.None? then st else Admit(st, |answers| + 1, a.value.0, a.value.1)
  }

  /** One iteration leaves everything but the error list alone for an empty
      or rejected row, and admits an accepted one. */
  lemma StepAnswer(env: Env, country: CountryId, st: Scan, n: nat, raw: RawRow)
    ensures var after := Step(env, country, st, n, raw);
            var a := AnswerOf(env, country, raw);
            && (a.None? ==> && after.rows == st.rows && after.warnings == st.warnings
                            && after.externalIds == st.externalIds && after.names == st.names)
            && (a.Some? ==> after == Admit(st, n + 2, a.value.0, a.value.1))
  {
  }

  /** The scan keeps, records and warns exactly as duplicate suppression over
      the validator's answers does; only its error list differs. */
  lemma {:induction false} ScanIsAdmitted(env: Env, country: CountryId, loaded: seq<RawRow>)
    ensures var st := ScanRows(env, country, loaded);
            var ad := Admitted(Answers(env, country, loaded));
            && st.rows == ad.rows && st.warnings == ad.warnings
            && st.externalIds == ad.externalIds && st.names == ad.names
  {
    if loaded != [] {
      var n := |loaded| - 1;
      var st := ScanRows(env, country, loaded[..n]);
      ScanIsAdmitted(env, country, loaded[..n]);
      StepAnswer(env, country, st, n, loaded[n]);
      assert Answers(env, country, loaded)[..n] == Answers(env, country, loaded[..n]);
      assert Answers(env, country, loaded)[n] == AnswerOf(env, country, loaded[n]);
    }
  }

  /** The lower-cased identifier of an accepted row. */
  function IdOf(a: Answer): Option<string> {
    if a.Some? && a.value.0.externalId.Some? then Some(Lower(a.value.0.externalId.value)) else None
  }

  /** The lower-cased name of an accepted row. */
  function NameOf(a: Answer): Option<string> {
    if a.Some? && a.value.0.name.Some? then Some(Lower(a.value.0.name.value)) else None
  }

  /** An identifier is recorded exactly when some accepted row carries it,
      whether that row was kept or dropped as a duplicate. */
  lemma {:induction false} AdmittedIds(answers: seq<Answer>)
    ensures forall x :: x in Admitted(answers).externalIds
                        <==> exists m :: 0 <= m < |answers| && IdOf(answers[m]) == Some(x)
  {
    if answers != [] {
      var n := |answers| - 1;
      var prefix := answers[..n];
      AdmittedIds(prefix);
      forall x
        ensures x in Admitted(answers).externalIds
                <==> exists m :: 0 <= m < |answers| && IdOf(answers[m]) == Some(x)
      {
        if x in Admitted(prefix).externalIds {
          var m :| 0 <= m < n && IdOf(prefix[m]) == Some(x);
          assert answers[m] == prefix[m];
        } else if IdOf(answers[n]) != Some(x) {
          forall m | 0 <= m < |answers|
            ensures IdOf(answers[m]) != Some(x)
          {
            if m < n {
              assert answers[m] == prefix[m];
            }
          }
        }
      }
    }
  }

  /** The name of a kept row. */
  ghost predicate KeptName(rows: seq<ImportRow>, x: string) {
    exists k :: 0 <= k < |rows| && rows[k].schoolData.name.Some? && LowerName(rows[k]) == x
  }

  /** A name is recorded exactly when a kept row carries it. */
  lemma {:induction false} AdmittedNames(answers: seq<Answer>)
    ensures forall x :: x in Admitted(answers).names <==> KeptName(Admitted(answers).rows, x)
  {
    if answers != [] {
      var n := |answers| - 1;
      AdmittedNames(answers[..n]);
      var st := Admitted(answers[..n]);
      var after := Admitted(answers);
      var a := answers[n];
      if a.Some? && IdFree(st, a.value.0) && NameFree(st, a.value.0) {
        var row := after.rows[|st.rows|];
        assert after.rows == st.rows + [row];
        forall x
          ensures x in after.names <==> KeptName(after.rows, x)
        {
          if x in st.names {
            assert KeptName(st.rows, x);
            var k :| 0 <= k < |st.rows| && st.rows[k].schoolData.name.Some? && LowerName(st.rows[k]) == x;
            assert after.rows[k] == st.rows[k];
          } else if KeptName(after.rows, x) {
            var k :| 0 <= k < |after.rows| && after.rows[k].schoolData.name.Some? && LowerName(after.rows[k]) == x;
            if k < |st.rows| {
              assert after.rows[k] == st.rows[k];
            }
          }
        }
      } else {
        assert after.rows == st.rows && after.names == st.names;
      }
    }
  }

  /** No accepted row before position `n` carries the identifier of row `n`. */
  ghost predicate IdUnseen(answers: seq<Answer>, n: nat)
    requires n < |answers|
  {
    IdOf(answers[n]).None? || forall m :: 0 <= m < n ==> IdOf(answers[m]) != IdOf(answers[n])
  }

  /** No kept row carries the lower-cased `name`. */
  ghost predicate NameUnkept(rows: seq<ImportRow>, name: Option<string>) {
    name.None? || forall k :: 0 <= k < |rows| && rows[k].schoolData.name.Some? ==> LowerName(rows[k]) != name.value
  }

  /** The last row is kept exactly when the validator accepted it, no accepted
      row before it (kept or not) carries its lower-cased identifier, and no
      kept row before it carries its lower-cased name. An identifier clash
      gives the identifier warning, otherwise a name clash gives the name
      warning; a row that is not kept leaves the rows alone. */
  lemma {:induction false} KeptExactly(answers: seq<Answer>)
    requires answers != []
    ensures var n := |answers| - 1;
            var before := Admitted(answers[..n]);
            var after := Admitted(answers);
            var a := answers[n];
            var idFresh := IdUnseen(answers, n);
            var nameFresh := NameUnkept(before.rows, NameOf(a));
            && (a.Some? && idFresh && nameFresh ==>
                  after.rows == before.rows + [ImportRow(n + 2, a.value.0, a.value.1, None, false)]
                  && after.warnings == before.warnings)
            && (!(a.Some? && idFresh && nameFresh) ==> after.rows == before.rows)
            && (a.None? ==> after.warnings == before.warnings)
            && (a.Some? && !idFresh ==> after.warnings == before.warnings + [DuplicateIdWarning])
            && (a.Some? && idFresh && !nameFresh ==> after.warnings == before.warnings + [DuplicateNameWarning])
  {
    var n := |answers| - 1;
    var prefix := answers[..n];
    var before := Admitted(prefix);
    var a := answers[n];
    AdmittedIds(prefix);
    AdmittedNames(prefix);
    if a.Some? {
      var sd := a.value.0;
      assert IdFree(before, sd) <==> IdUnseen(answers, n) by {
        if !IdUnseen(answers, n) {
          var m :| 0 <= m < n && IdOf(answers[m]) == IdOf(a);
          assert prefix[m] == answers[m];
        }
        if !IdFree(before, sd) {
          var m :| 0 <= m < n && IdOf(prefix[m]) == IdOf(a);
          assert prefix[m] == answers[m];
        }
      }
      assert NameFree(before, sd) <==> NameUnkept(before.rows, NameOf(a)) by {
        if sd.name.Some? && !NameUnkept(before.rows, NameOf(a)) {
          var k :| 0 <= k < |before.rows| && before.rows[k].schoolData.name.Some?
                   && LowerName(before.rows[k]) == Lower(sd.name.value);
          assert KeptName(before.rows, Lower(sd.name.value));
        }
        if !NameFree(before, sd) {
          assert KeptName(before.rows, Lower(sd.name.value));
          var k :| 0 <= k < |before.rows| && before.rows[k].schoolData.name.Some?
                   && LowerName(before.rows[k]) == Lower(sd.name.value);
        }
      }
    }
  }

  /** A kept row is the accepted answer to the file row it names. */
  lemma {:induction false} KeptAreAnswers(answers: seq<Answer>, k: nat)
    requires k < |Admitted(answers).rows|
    ensures var r := Admitted(answers).rows[k];
            2 <= r.rowIndex < |answers| + 2 && answers[r.rowIndex - 2] == Some((r.schoolData, r.historyData))
  {
    var n := |answers| - 1;
    var prefix := answers[..n];
    var before := Admitted(prefix);
    if k < |before.rows| {
      KeptAreAnswers(prefix, k);
      assert Admitted(answers).rows[k] == before.rows[k];
      assert prefix[before.rows[k].rowIndex - 2] == answers[before.rows[k].rowIndex - 2];
    }
  }

  /** The first occurrence survives: an accepted row whose lower-cased
      identifier and name no accepted row before it carries is kept. */
  lemma FirstOccurrenceKept(answers: seq<Answer>)
    requires answers != []
    requires var n := |answers| - 1;
             && answers[n].Some? && IdUnseen(answers, n)
             && (NameOf(answers[n]).None? || forall m :: 0 <= m < n ==> NameOf(answers[m]) != NameOf(answers[n]))
    ensures var n := |answers| - 1;
            var a := answers[n];
            Admitted(answers).rows == Admitted(answers[..n]).rows + [ImportRow(n + 2, a.value.0, a.value.1, None, false)]
  {
    var n := |answers| - 1;
    var prefix := answers[..n];
    var before := Admitted(prefix);
    KeptExactly(answers);
    forall k | 0 <= k < |before.rows| && before.rows[k].schoolData.name.Some?
      ensures NameOf(answers[n]).Some? ==> LowerName(before.rows[k]) != NameOf(answers[n]).value
    {
      KeptAreAnswers(prefix, k);
      var m := before.rows[k].rowIndex - 2;
      assert prefix[m] == answers[m];
    }
  }
}
