/** The job runner as the service performs it: one call that updates the tables statement by statement. */
module IngestService {
  import opened Prelude
  import opened LogFile
  import opened IngestProtocol
  import opened IngestRuns
  import S = Silver
  import V = SchemaVersions

  /** How the statements of the schema-version step turn out. */
  datatype SchemaIo = SchemaIo(queryOk: bool, insertOk: bool, readBack: bool)

  /** What RunJob reports: the status it ended in and the rows it wrote; None for a call that was turned away. */
  datatype RunResult = RunResult(status: Option<Status>, rowsIngested: nat, schemaValid: bool, bronzeId: Option<nat>, silverId: Option<nat>, goldId: Option<nat>)

  /**
   * What a call that was let in reports when the catalogue had `n` rows before: its
   * status, the row count of its Bronze row, and the id of each layer row it wrote,
   * each made from the one before.
   */
  ghost predicate Reports(n: nat, rows: seq<Row>, r: RunResult, pulled: bool, io: Io) {
    && r.bronzeId == (if pulled && io.bronze.Written? then Some(n) else None)
    && r.silverId == (if r.bronzeId.Some? && io.silver.Written? then Some(n + 1) else None)
    && r.goldId == (if r.silverId.Some? && io.gold.Written? then Some(n + 2) else None)
    && r.status == Some(if r.bronzeId.None? then Failed else if io.finished then Completed else Running)
    && (r.bronzeId.Some? ==> n < |rows| && rows[n].layer.Bronze? && rows[n].rowCount == r.rowsIngested)
    && (r.silverId.Some? ==> n + 1 < |rows| && rows[n + 1].layer.Silver? && rows[n + 1].inputs == [n])
    && (r.goldId.Some? ==> n + 2 < |rows| && rows[n + 2].layer.Gold? && rows[n + 2].inputs == [n + 1])
  }

  /**
   * The schema-version step of a call that pulled something: the history of the source
   * takes the schema in, and the call reports it as not valid if and only if that
   * added a breaking version, which could be read back.
   */
  ghost predicate RecordsSchema(json: V.Json, was: seq<V.Version>, now: seq<V.Version>, pulled: bool, io: SchemaIo, valid: bool) {
    && now == (if pulled && io.queryOk && io.insertOk then V.Recorded(json, was, FIELDS) else was)
    && (valid <==> pulled && !(io.readBack && now != was && now != [] && now[|now| - 1].breaking))
  }

  lemma LayersRows(s: State, source: nat, bronze: nat, io: Io)
    requires bronze < |s.rows| && s.rows[bronze].payload.Records?
    ensures var rows, n := Layers(s, source, bronze, io).rows, |s.rows|;
      && s.rows <= rows
      && (io.silver.Written? ==> n < |rows| && rows[n].layer.Silver? && rows[n].inputs == [bronze])
      && (io.silver.Written? && io.gold.Written? ==> n + 1 < |rows| && rows[n + 1].layer.Gold? && rows[n + 1].inputs == [n])
  {
  }

  const FIELDS := V.LINE_SCHEMA

  class Service {
    var files: map<nat, string>
    var jobs: map<nat, Job>
    var checkpoints: map<(nat, nat), Checkpoint>
    var rows: seq<Row>
    var clock: nat
    const registry: V.Registry

    /** A service over jobs that are still to run. */
    constructor (files: map<nat, string>, jobs: map<nat, Job>, registry: V.Registry, clock: nat)
      requires forall j | j in jobs :: !jobs[j].status.Completed?
      ensures Initial(With(map[])) && With(map[]) == State(files, jobs, map[], [], map[], clock) && this.registry == registry
    {
      this.files, this.jobs, this.registry, this.clock := files, jobs, registry, clock;
      checkpoints, rows := map[], [];
    }

    /** The tables and files as a protocol state with `runs` in progress. */
    ghost function With(runs: map<nat, Run>): State
      reads this
    {
      State(files, jobs, checkpoints, rows, runs, clock)
    }

    /** One UPDATE: status, both row counts and the message; running sets the start once, an end sets the end. */
    method UpdateJobProgress(job: nat, status: Status, rowCount: nat, error: bool, saved: bool)
      modifies this`jobs
      ensures With(map[]) == SetStatus(old(With(map[])), job, status, rowCount, error, saved)
      ensures jobs.Keys == old(jobs).Keys && forall j :: j in jobs && !(saved && j == job) ==> jobs[j] == old(jobs)[j]
      ensures saved && job in jobs ==>
        var was := old(jobs)[job];
        jobs[job] == Job(was.source, status, rowCount, rowCount, error,
          if was.startedAt.Some? || status != Running then was.startedAt else Some(clock),
          if status == Completed || status == Failed then Some(clock) else was.completedAt)
    {
      if saved && job in jobs {
        var j := jobs[job].(status := status, ingested := rowCount, expected := rowCount, error := error);
        if status == Running && j.startedAt.None? {
          j := j.(startedAt := Some(clock));
        }
        if status == Completed || status == Failed {
          j := j.(completedAt := Some(clock));
        }
        jobs := jobs[job := j];
      }
    }

    /** The checkpoint of the source with the newest update time; a failed query looks like none. */
    method LatestCheckpointForSource(source: nat, queryOk: bool) returns (latest: Option<nat>)
      ensures latest.Some? ==> queryOk && IsLatest(With(map[]), source, latest.value)
      ensures latest.Some? ==> (source, latest.value) in checkpoints && forall k :: k in checkpoints && k.0 == source ==> checkpoints[k].updatedAt <= checkpoints[(source, latest.value)].updatedAt
      ensures latest.None? && queryOk ==> forall k :: k in checkpoints ==> k.0 != source
    {
      latest := None;
      if !queryOk {
        return;
      }
      var left := checkpoints.Keys;
      while left != {}
        invariant left <= checkpoints.Keys
        invariant latest.Some? ==> (source, latest.value) in checkpoints
        invariant forall k :: k in checkpoints.Keys - left && k.0 == source ==>
          latest.Some? && checkpoints[k].updatedAt <= checkpoints[(source, latest.value)].updatedAt
        decreases left
      {
        var k :| k in left;
        left := left - {k};
        if k.0 == source && (latest.None? || checkpoints[(source, latest.value)].updatedAt < checkpoints[k].updatedAt) {
          latest := Some(k.1);
        }
      }
    }

    /** Opens the log, seeks to the resume offset and turns one read of the tail into records. */
    method PullLogFile(source: nat, saved: nat, atMost: nat) returns (from: nat, to: nat, records: seq<S.Record>)
      requires source in files
      ensures from == StartOffset(saved, |files[source]|) && to == ReadEnd(from, |files[source]|, atMost)
      ensures from == (if saved <= |files[source]| then saved else 0) && from <= to <= |files[source]|
      ensures to == if from + atMost < |files[source]| then from + atMost else |files[source]|
      ensures records == LineRecords(Lines(files[source][from..to]))
    {
      from := if saved > |files[source]| then 0 else saved;
      var remaining := |files[source]| - from;
      to := from + if remaining < atMost then remaining else atMost;
      var lines := PullLines(files[source][from..to]);
      records := LineRecords(lines);
    }

    method SaveCheckpoint(source: nat, job: nat, offset: nat, saved: bool)
      modifies this`checkpoints
      ensures With(map[]) == WithCheckpoint(old(With(map[])), source, job, offset, saved)
      ensures checkpoints.Keys == old(checkpoints).Keys + (if saved then {(source, job)} else {})
      ensures forall k :: k in old(checkpoints) && !(saved && k == (source, job)) ==> checkpoints[k] == old(checkpoints)[k]
      ensures saved ==> checkpoints[(source, job)].offset == offset
      ensures saved && (source, job) in old(checkpoints) && old(checkpoints)[(source, job)].offset == offset ==> checkpoints == old(checkpoints)
      ensures saved && !((source, job) in old(checkpoints) && old(checkpoints)[(source, job)].offset == offset) ==> checkpoints[(source, job)].updatedAt == clock
    {
      if saved {
        if (source, job) !in checkpoints || checkpoints[(source, job)].offset != offset {
          checkpoints := checkpoints[(source, job) := Checkpoint(offset, clock)];
        } else {
          assert checkpoints == checkpoints[(source, job) := checkpoints[(source, job)]];
        }
      }
    }

    /** The lakehouse writer: the id of the new row, unless an error is reported. */
    method Write(row: Row, outcome: Outcome) returns (id: Option<nat>)
      modifies this`rows
      ensures With(map[]) == WithRow(old(With(map[])), row, outcome)
      ensures rows == old(rows) + match outcome
        case NotWritten => []
        case RowWithoutLineage => [row.(inputs := [])]
        case _ => [row]
      ensures id == if outcome.Written? then Some(|old(rows)|) else None
    {
      id := if outcome.Written? then Some(|rows|) else None;
      if !outcome.NotWritten? {
        rows := rows + [if outcome.RowWithoutLineage? then row.(inputs := []) else row];
      }
    }

    /** Silver, with Bronze as its input, and then Gold, with Silver as its input, as far as they go. */
    method WriteLayers(source: nat, bronze: nat, io: Io) returns (silverId: Option<nat>, goldId: Option<nat>)
      requires bronze < |rows| && rows[bronze].payload.Records?
      modifies this`rows
      ensures With(map[]) == Layers(old(With(map[])), source, bronze, io)
      ensures silverId == if io.silver.Written? then Some(|old(rows)|) else None
      ensures goldId == if io.silver.Written? && io.gold.Written? then Some(|old(rows)| + 1) else None
    {
      var payload, silverRows := S.BuildSilver(rows[bronze].payload.records, FIELDS);
      silverId, goldId := None, None;
      silverId := Write(Row(source, Silver, Records(payload), silverRows, [bronze], Some(bronze), 0, 0), io.silver);
      if silverId.Some? {
        goldId := Write(Row(source, Gold, Summary(silverRows, payload), 1, [silverId.value], Some(silverId.value), 0, 0), io.gold);
      }
    }

    /** The schema-version step: its failures other than a breaking change are ignored. */
    method RecordSchema(source: nat, io: SchemaIo) returns (valid: bool)
      requires registry.Valid()
      modifies registry
      ensures registry.Valid() && forall s :: s != source ==> registry.HistoryOf(s) == old(registry.HistoryOf(s))
      ensures RecordsSchema(registry.json, old(registry.HistoryOf(source)), registry.HistoryOf(source), true, io, valid)
    {
      var recorded := registry.RecordSchemaVersion(source, FIELDS, io.queryOk, io.insertOk, io.readBack);
      valid := !(recorded.Err? && recorded.error.SchemaBroken?);
    }

    /** The part of the call after the Bronze write. */
    method Conclude(job: nat, source: nat, to: nat, bronze: nat, count: nat, io: Io) returns (silverId: Option<nat>, goldId: Option<nat>)
      requires bronze < |rows| && rows[bronze].payload.Records?
      modifies this
      ensures clock == old(clock)
      ensures With(map[]) == SetStatus(
        WithCheckpoint(Layers(old(With(map[])), source, bronze, io), source, job, to, io.checkpointSaved), job, Completed, count, false, io.finished)
      ensures silverId == if io.silver.Written? then Some(|old(rows)|) else None
      ensures goldId == if io.silver.Written? && io.gold.Written? then Some(|old(rows)| + 1) else None
      ensures rows == Layers(old(With(map[])), source, bronze, io).rows
    {
      silverId, goldId := WriteLayers(source, bronze, io);
      SaveCheckpoint(source, job, to, io.checkpointSaved);
      UpdateJobProgress(job, Completed, count, false, io.finished);
    }

    /** The part of the call after the pull. */
    method WriteAll(job: nat, source: nat, from: nat, to: nat, records: seq<S.Record>, io: Io, valid: bool) returns (result: RunResult)
      modifies this
      ensures clock == old(clock)
      ensures With(map[]) == AfterPull(old(With(map[])), job, source, Row(source, Bronze, Records(records), |records|, [], None, from, to), io)
      ensures Reports(|old(rows)|, rows, result, true, io) && result.schemaValid == valid && result.rowsIngested == |records|
    {
      result := RunResult(Some(Failed), |records|, valid, None, None, None);
      var bronze := Write(Row(source, Bronze, Records(records), |records|, [], None, from, to), io.bronze);
      if bronze.None? {
        UpdateJobProgress(job, Failed, |records|, true, io.failureSaved);
        return;
      }
      LayersRows(With(map[]), source, bronze.value, io);
      var silverId, goldId := Conclude(job, source, to, bronze.value, |records|, io);
      result := RunResult(Some(if io.finished then Completed else Running), |records|, valid, bronze, silverId, goldId);
    }

    /** The call from its resume offset on. */
    method Continue(job: nat, source: nat, offset: nat, io: Io, schemaIo: SchemaIo) returns (result: RunResult)
      requires registry.Valid()
      modifies this, registry
      ensures registry.Valid() && forall s :: s != source ==> registry.HistoryOf(s) == old(registry.HistoryOf(s))
      ensures With(map[]) == Continued(old(With(map[])), job, source, offset, io) && clock == old(clock)
      ensures var pulled := io.read.Some? && source in old(files);
        && Reports(|old(rows)|, rows, result, pulled, io)
        && RecordsSchema(registry.json, old(registry.HistoryOf(source)), registry.HistoryOf(source), pulled, schemaIo, result.schemaValid)
        && result.rowsIngested == if pulled then BronzeRow(old(With(map[])), source, offset, io.read.value).rowCount else 0
    {
      if io.read.None? || source !in files {
        UpdateJobProgress(job, Failed, 0, true, io.failureSaved);
        return RunResult(Some(Failed), 0, false, None, None, None);
      }
      var from, to, records := PullLogFile(source, offset, io.read.value);
      var valid := RecordSchema(source, schemaIo);
      result := WriteAll(job, source, from, to, records, io, valid);
    }

    /** The body of RunJob once its job row says it may run. */
    method Perform(job: nat, io: Io, schemaIo: SchemaIo) returns (result: RunResult, latest: Option<nat>)
      requires registry.Valid() && Admitted(With(map[]), job)
      modifies this, registry
      ensures registry.Valid() && forall s :: s != old(jobs)[job].source ==> registry.HistoryOf(s) == old(registry.HistoryOf(s))
      ensures With(map[]) == Performed(old(With(map[])), job, io, latest) && clock == old(clock)
      ensures latest.Some? ==> io.queryOk && IsLatest(old(With(map[])), old(jobs)[job].source, latest.value)
      ensures io.queryOk && latest.None? ==> forall k :: k in old(checkpoints) ==> k.0 != old(jobs)[job].source
      ensures var source := old(jobs)[job].source;
        var pulled := io.read.Some? && source in old(files);
        && Reports(|old(rows)|, rows, result, pulled, io)
        && RecordsSchema(registry.json, old(registry.HistoryOf(jobs[job].source)), registry.HistoryOf(source), pulled, schemaIo, result.schemaValid)
        && result.rowsIngested == if pulled then BronzeRow(old(With(map[])), source, ResumeOffset(old(With(map[])), source, latest), io.read.value).rowCount else 0
    {
      var source := jobs[job].source;
      UpdateJobProgress(job, Running, 0, false, true);
      latest := LatestCheckpointForSource(source, io.queryOk);
      result := Continue(job, source, if latest.Some? then checkpoints[(source, latest.value)].offset else 0, io, schemaIo);
    }

    /**
     * RunJob: resume from the newest checkpoint, pull, record the schema, write Bronze,
     * then the other layers, then the checkpoint. Whatever fails, the tables end as the
     * protocol's steps for this call leave them; a call that is turned away leaves no
     * trace.
     */
    method RunJob(job: nat, io: Io, schemaIo: SchemaIo) returns (result: RunResult, latest: Option<nat>)
      requires registry.Valid()
      modifies this, registry
      ensures registry.Valid()
      ensures With(map[]) == RunOnce(old(With(map[])), job, io, latest)
      ensures result.status.None? <==> job !in old(jobs) || old(jobs)[job].status == Running || old(jobs)[job].status == Completed || !io.sourceRead || !io.marked
      ensures jobs.Keys == old(jobs).Keys && forall j :: j in jobs && (j != job || result.status.None?) ==> jobs[j] == old(jobs)[j]
      ensures result.status.Some? ==>
        var was, now := old(jobs)[job], jobs[job];
        && now.status == (if result.status == Some(Failed) && !io.failureSaved then Running else result.status.value)
        && now.source == was.source && now.startedAt == (if was.startedAt.Some? then was.startedAt else Some(clock))
        && now.completedAt == (if now.status == Running then was.completedAt else Some(clock))
        && (now.error <==> now.status == Failed)
        && now.expected == now.ingested == if now.status == Running then 0 else result.rowsIngested
      ensures latest.Some? ==> io.queryOk && job in old(jobs) && IsLatest(old(With(map[])), old(jobs)[job].source, latest.value)
      ensures result.status.Some? && io.queryOk && latest.None? ==> forall k :: k in old(checkpoints) ==> k.0 != old(jobs)[job].source
      ensures result.status.None? ==> With(map[]) == old(With(map[])) && registry.histories == old(registry.histories)
      ensures result.status.Some? ==> job in old(jobs) && Reports(|old(rows)|, rows, result, io.read.Some? && old(jobs)[job].source in old(files), io)
      ensures result.status.Some? ==> job in old(jobs) && RecordsSchema(
        registry.json, old(registry.HistoryOf(jobs[job].source)), registry.HistoryOf(old(jobs)[job].source),
        io.read.Some? && old(jobs)[job].source in old(files), schemaIo, result.schemaValid)
    {
      hide RunOnce, Performed, BronzeRow, ResumeOffset, IsLatest, RecordsSchema;
      result, latest := RunResult(None, 0, false, None, None, None), None;
      ghost var s := With(map[]);
      if job !in jobs || jobs[job].status == Running || jobs[job].status == Completed || !io.sourceRead || !io.marked {
        TurnedAway(s, job, io, None);
        return;
      }
      result, latest := Perform(job, io, schemaIo);
      RunOnceIsPerformed(s, job, io, latest);
      JobAfterCall(s, job, io, latest);
    }
  }
}
