/** `sync_realtime_data` of `proco/realtime_unicef/tasks.py`: the measurements
    newer than the stored watermark are copied as real-time connectivity
    records of the schools they name (by external id), and the watermark moves
    to the newest measurement fetched, or to the current time when there was
    none. */
module RealtimeSync {
  import opened Wrappers
  import opened Collections
  import opened SchoolModels
  import ConnectionStatistics

  /** A point in time, as comparable numbers. */
  type Timestamp = int

  /** One row of the realtime database; `schoolId` is a school's external id.
      The uuid, used only in a log line, is not part of this model; nor is
      any bound the realtime database puts on the latency. */
  datatype Measurement = Measurement(timestamp: Timestamp, schoolId: string, download: Option<real>, latency: Option<int>)

  datatype RealTimeConnectivity = RealTimeConnectivity(
    created: Timestamp,
    connectivitySpeed: Option<real>,
    connectivityLatency: Option<int>,
    school: SchoolId)

  /** A latency the table's PositiveSmallIntegerField can hold. */
  predicate LatencyFits(latency: Option<int>) {
    latency.None? || ConnectionStatistics.FitsPositiveSmallInt(latency.value)
  }

  /** `bulk_create` of these records succeeds. */
  predicate AllRecordsFit(records: seq<RealTimeConnectivity>) {
    forall k :: 0 <= k < |records| ==> LatencyFits(records[k].connectivityLatency)
  }

  /** `timestamp__gt=watermark`. */
  function After(watermark: Timestamp): Measurement -> bool {
    (m: Measurement) => m.timestamp > watermark
  }

  /** The measurements one run fetches. */
  function Fetched(measurements: seq<Measurement>, watermark: Timestamp): seq<Measurement> {
    Filter(measurements, After(watermark))
  }

  /** The external ids the fetched measurements name. */
  function NamedSchools(fetched: seq<Measurement>): set<string> {
    set k | 0 <= k < |fetched| :: fetched[k].schoolId
  }

  /** `{school.external_id: school for school in School.objects.filter(external_id__in=ids)}`:
      a later school with the same external id replaces an earlier one. */
  function SchoolIndex(schools: seq<School>, ids: set<string>): (index: map<string, SchoolId>)
    ensures forall e :: e in index <==> e in ids && exists k :: 0 <= k < |schools| && schools[k].externalId == e
  {
    if schools == [] then map[]
    else
      var s := schools[|schools| - 1];
      var index := SchoolIndex(schools[..|schools| - 1], ids);
      if s.externalId in ids then index[s.externalId := s.id] else index
  }

  /** The index maps an external id to the last school holding it. */
  lemma {:induction false} SchoolIndexPointsAtLast(schools: seq<School>, ids: set<string>, e: string)
    requires e in SchoolIndex(schools, ids)
    ensures exists k :: 0 <= k < |schools| && schools[k].externalId == e && schools[k].id == SchoolIndex(schools, ids)[e]
                        && forall m :: k < m < |schools| ==> schools[m].externalId != e
  {
    var s := schools[|schools| - 1];
    var init := schools[..|schools| - 1];
    if s.externalId == e {
      assert schools[|schools| - 1].externalId == e;
    } else {
      SchoolIndexPointsAtLast(init, ids, e);
      var k :| 0 <= k < |init| && init[k].externalId == e && init[k].id == SchoolIndex(init, ids)[e]
               && forall m :: k < m < |init| ==> init[m].externalId != e;
      assert schools[k] == init[k];
      assert forall m :: k < m < |schools| ==> schools[m].externalId != e by {
        forall m | k < m < |schools| ensures schools[m].externalId != e {
          if m < |init| {
            assert schools[m] == init[m];
          }
        }
      }
    }
  }

  /** A fetched measurement is kept exactly when some school has its
      external id; the others are skipped. */
  lemma KnownExactlyWhenRegistered(schools: seq<School>, fetched: seq<Measurement>, j: int)
    requires 0 <= j < |fetched|
    ensures KnownTo(SchoolIndex(schools, NamedSchools(fetched)))(fetched[j])
            <==> exists k :: 0 <= k < |schools| && schools[k].externalId == fetched[j].schoolId
  {
    assert fetched[j].schoolId in NamedSchools(fetched);
  }

  /** The record a measurement becomes. */
  function Copy(m: Measurement, school: SchoolId): (r: RealTimeConnectivity) {
    RealTimeConnectivity(m.timestamp, m.download, m.latency, school)
  }

  /** The records built from the fetched measurements, in order, skipping
      those of an unknown school. */
  function Synced(fetched: seq<Measurement>, index: map<string, SchoolId>): (r: seq<RealTimeConnectivity>)
    ensures |r| <= |fetched|
  {
    if fetched == [] then []
    else
      var m := fetched[|fetched| - 1];
      Synced(fetched[..|fetched| - 1], index) + (if m.schoolId in index then [Copy(m, index[m.schoolId])] else [])
  }

  /** The measurement names a school the index holds. */
  function KnownTo(index: map<string, SchoolId>): Measurement -> bool {
    (m: Measurement) => m.schoolId in index
  }

  /** The records of measurements all of known schools, one each, in order. */
  function Copies(known: seq<Measurement>, index: map<string, SchoolId>): (r: seq<RealTimeConnectivity>)
    requires forall k :: 0 <= k < |known| ==> known[k].schoolId in index
    ensures |r| == |known|
  {
    seq(|known|, k requires 0 <= k < |known| => Copy(known[k], index[known[k].schoolId]))
  }

  /** The loop's records are the measurements of known schools, each copied
      once with its time, download and latency, in their order. */
  lemma {:induction false} SyncedIsFilteredCopies(fetched: seq<Measurement>, index: map<string, SchoolId>)
    ensures Synced(fetched, index) == Copies(Filter(fetched, KnownTo(index)), index)
  {
    if fetched != [] {
      var init, last := fetched[..|fetched| - 1], fetched[|fetched| - 1];
      SyncedIsFilteredCopies(init, index);
      var known := Filter(init, KnownTo(index));
      assert Filter(fetched, KnownTo(index)) == known + (if last.schoolId in index then [last] else []);
    }
  }

  /** The insert raises exactly when a measurement of a known school has a
      latency outside 0..32767; a skipped measurement never makes it raise. */
  lemma {:induction false} SyncedFit(fetched: seq<Measurement>, index: map<string, SchoolId>)
    ensures AllRecordsFit(Synced(fetched, index))
            <==> forall k :: 0 <= k < |fetched| && fetched[k].schoolId in index ==> LatencyFits(fetched[k].latency)
  {
    if fetched != [] {
      var init, last := fetched[..|fetched| - 1], fetched[|fetched| - 1];
      SyncedFit(init, index);
      var before := Synced(init, index);
      var after := Synced(fetched, index);
      assert after == before + (if last.schoolId in index then [Copy(last, index[last.schoolId])] else []);
      if AllRecordsFit(after) {
        forall k | 0 <= k < |init| && init[k].schoolId in index ensures LatencyFits(init[k].latency) {
          assert AllRecordsFit(before) by {
            forall j | 0 <= j < |before| ensures LatencyFits(before[j].connectivityLatency) {
              assert after[j] == before[j];
            }
          }
        }
        if last.schoolId in index {
          assert after[|before|] == Copy(last, index[last.schoolId]);
        }
      }
      forall k | 0 <= k < |init| ensures init[k] == fetched[k] { }
    }
  }

  /** Python's `max` over the fetched timestamps. */
  function MaxTimestamp(ms: seq<Measurement>): (r: Timestamp)
    requires ms != []
    ensures forall k :: 0 <= k < |ms| ==> ms[k].timestamp <= r
    ensures exists k :: 0 <= k < |ms| && ms[k].timestamp == r
  {
    if |ms| == 1 then ms[0].timestamp
    else
      var m := MaxTimestamp(ms[..|ms| - 1]);
      assert forall k :: 0 <= k < |ms| - 1 ==> ms[k] == ms[..|ms| - 1][k];
      if ms[|ms| - 1].timestamp > m then ms[|ms| - 1].timestamp else m
  }

  /** The watermark after a run. */
  function NextWatermark(fetched: seq<Measurement>, now: Timestamp): Timestamp {
    if fetched == [] then now else MaxTimestamp(fetched)
  }

  // ------------------------------------------------------------------- lemmas

  /** Every record made is newer than the watermark the run started from. */
  lemma SyncedAreNewer(measurements: seq<Measurement>, watermark: Timestamp, index: map<string, SchoolId>)
    ensures forall k :: 0 <= k < |Synced(Fetched(measurements, watermark), index)| ==>
              Synced(Fetched(measurements, watermark), index)[k].created > watermark
  {
    var fetched := Fetched(measurements, watermark);
    SyncedIsFilteredCopies(fetched, index);
    var known := Filter(fetched, KnownTo(index));
    forall k | 0 <= k < |known| ensures known[k].timestamp > watermark {
      assert known[k] in fetched;
      var j :| 0 <= j < |fetched| && fetched[j] == known[k];
      assert After(watermark)(fetched[j]);
    }
  }

  /** The watermark covers every measurement fetched, skipped ones included,
      and moves forward whenever anything was fetched. */
  lemma WatermarkCoversFetched(measurements: seq<Measurement>, watermark: Timestamp, now: Timestamp)
    ensures var fetched := Fetched(measurements, watermark);
            && (forall k :: 0 <= k < |fetched| ==> fetched[k].timestamp <= NextWatermark(fetched, now))
            && (fetched != [] ==> NextWatermark(fetched, now) > watermark)
  {
    var fetched := Fetched(measurements, watermark);
    if fetched != [] {
      var k :| 0 <= k < |fetched| && fetched[k].timestamp == MaxTimestamp(fetched);
      assert After(watermark)(fetched[k]);
    }
  }

  /** A second run over the same measurements fetches nothing, unless the
      first fetched nothing and the clock is behind the watermark. */
  lemma SecondRunFetchesNothing(measurements: seq<Measurement>, watermark: Timestamp, now: Timestamp)
    requires Fetched(measurements, watermark) != [] || now >= watermark
    ensures Fetched(measurements, NextWatermark(Fetched(measurements, watermark), now)) == []
  {
    var fetched := Fetched(measurements, watermark);
    var next := NextWatermark(fetched, now);
    WatermarkCoversFetched(measurements, watermark, now);
    forall j | 0 <= j < |measurements| ensures !After(next)(measurements[j]) {
      if After(watermark)(measurements[j]) {
        assert measurements[j] in fetched;
      }
    }
    FilterNone(measurements, After(next));
  }

  /** Moving the watermark back fetches again everything the later one did. */
  lemma RewindRefetches(measurements: seq<Measurement>, earlier: Timestamp, later: Timestamp)
    requires earlier <= later
    ensures forall m :: m in Fetched(measurements, later) ==> m in Fetched(measurements, earlier)
  {
    forall m | m in Fetched(measurements, later) ensures m in Fetched(measurements, earlier) {
      var k :| 0 <= k < |Fetched(measurements, later)| && Fetched(measurements, later)[k] == m;
      assert After(later)(m);
      var j :| 0 <= j < |measurements| && measurements[j] == m;
      assert After(earlier)(measurements[j]);
    }
  }

  // -------------------------------------------------------------- the store

  class RealtimeStore {
    /** The realtime database's measurements and the School table, which a
        run only reads. */
    var measurements: seq<Measurement>
    var schools: seq<School>
    /** The RealTimeConnectivity table. */
    var realtime: seq<RealTimeConnectivity>
    /** The stored last-measurement date. */
    var lastMeasurementDate: Timestamp

    constructor (measurements: seq<Measurement>, schools: seq<School>, watermark: Timestamp)
      ensures this.measurements == measurements && this.schools == schools
      ensures realtime == [] && lastMeasurementDate == watermark
    {
      this.measurements := measurements;
      this.schools := schools;
      realtime := [];
      lastMeasurementDate := watermark;
    }

    /** One run of the task; `now` is the time it runs at. When the insert
        raises, nothing is stored and the watermark stays, so the next run
        fetches the same measurements again. */
    method SyncRealtimeData(now: Timestamp) returns (raised: bool)
      modifies this
      ensures measurements == old(measurements) && schools == old(schools)
      ensures var fetched := Fetched(old(measurements), old(lastMeasurementDate));
              var synced := Synced(fetched, SchoolIndex(schools, NamedSchools(fetched)));
              && (raised <==> !AllRecordsFit(synced))
              && (raised ==> realtime == old(realtime) && lastMeasurementDate == old(lastMeasurementDate))
              && (!raised ==> realtime == old(realtime) + synced && lastMeasurementDate == NextWatermark(fetched, now))
    {
      var fetched := Fetched(measurements, lastMeasurementDate);
      var index := SchoolIndex(schools, NamedSchools(fetched));
      var created := [];
      var i := 0;
      while i < |fetched|
        invariant 0 <= i <= |fetched|
        invariant created == Synced(fetched[..i], index)
      {
        assert fetched[..i + 1][..i] == fetched[..i];
        var m := fetched[i];
        if m.schoolId in index {
          created := created + [Copy(m, index[m.schoolId])];
        }
        i := i + 1;
      }
      assert fetched[..i] == fetched;
      raised := !AllRecordsFit(created);
      if raised {
        return;
      }
      realtime := realtime + created;
      if fetched != [] {
        lastMeasurementDate := MaxTimestamp(fetched);
      } else {
        lastMeasurementDate := now;
      }
    }
  }
}
