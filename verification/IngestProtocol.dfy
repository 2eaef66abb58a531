/**
 * Resumable ingestion of append-only log files as a step protocol. Any number of
 * RunJob calls interleave, statement by statement, with each other and with
 * writers appending to the files; every fallible step may fail, and a call may
 * stop for good between any two steps.
 */
module IngestProtocol {
  import opened Prelude
  import opened Runs
  import opened LogFile
  import S = Silver
  import Utf8

  const LINE := "line"

  /** One record per line, as pullLogFile writes it to JSON; a record is what its JSON text gives back. */
  function LineRecord(line: string): S.Record {
    map[LINE := Some(Utf8.Stored(line))]
  }

  function LineRecords(lines: seq<string>): (r: seq<S.Record>)
    ensures |r| == |lines|
    ensures forall k :: 0 <= k < |r| ==> r[k] == LineRecord(lines[k])
  {
    seq(|lines|, k requires 0 <= k < |lines| => LineRecord(lines[k]))
  }

  datatype Layer = Bronze | Silver | Gold

  /** Record layers hold records; a Gold payload summarises a Silver payload (its hash is taken as the payload itself). */
  datatype Payload = Records(records: seq<S.Record>) | Summary(rowCount: nat, hashed: seq<S.Record>)

  /**
   * A lakehouse_metadata row with its file's payload and its lakehouse_lineage inputs.
   * Row `i` of the catalogue has id `i`. The rest is bookkeeping of the model: `basis`
   * is the row whose payload this one was computed from, whether or not the lineage
   * table knows, and `from` and `to` bound the stretch of the log that a Bronze payload
   * was read from.
   */
  datatype Row = Row(source: nat, layer: Layer, payload: Payload, rowCount: nat, inputs: seq<nat>, basis: Option<nat>, from: nat, to: nat)

  datatype Status = Pending | Running | Completed | Failed | Paused

  /** An ingest_jobs row; `error` tells whether it carries an error message. */
  datatype Job = Job(source: nat, status: Status, ingested: nat, expected: nat, error: bool, startedAt: Option<nat>, completedAt: Option<nat>)

  datatype Checkpoint = Checkpoint(offset: nat, updatedAt: nat)

  /** Where a RunJob call stands: what it has read and written so far. */
  datatype Stage =
    | Checked
    | Marked
    | Resuming(offset: nat)
    | Pulled(from: nat, to: nat, records: seq<S.Record>)
    | BronzeWritten(to: nat, bronze: nat)
    | SilverWritten(to: nat, bronze: nat, silver: nat)
    | Layered(to: nat, bronze: nat)
    | Saved(bronze: nat)

  datatype Run = Run(job: nat, source: nat, stage: Stage)

  datatype State = State(
    files: map<nat, string>,
    jobs: map<nat, Job>,
    checkpoints: map<(nat, nat), Checkpoint>,
    rows: seq<Row>,
    runs: map<nat, Run>,
    clock: nat)

  /**
   * A layer write may succeed or fail before its row exists. It may also report an error
   * with the row in place: before its lineage rows went in, or when it is read back.
   */
  datatype Outcome = Written | WrittenThenError | RowWithoutLineage | NotWritten

  datatype Event =
    | Tick
    | Append(source: nat, bytes: string)
    | Begin(run: nat, job: nat, sourceRead: bool)
    | MarkRunning(run: nat, ok: bool)
    | ReadCheckpoint(run: nat, latest: Option<nat>)
    | Pull(run: nat, atMost: Option<nat>, failureSaved: bool)
    | WriteBronze(run: nat, outcome: Outcome, failureSaved: bool)
    | WriteSilver(run: nat, outcome: Outcome)
    | WriteGold(run: nat, outcome: Outcome)
    | SaveCheckpoint(run: nat, ok: bool)
    | Finish(run: nat, ok: bool)
    | Stop(run: nat)

  function WithStage(s: State, run: nat, stage: Stage): State
    requires run in s.runs
  {
    s.(runs := s.runs[run := s.runs[run].(stage := stage)])
  }

  /** The call returns. */
  function Leave(s: State, run: nat): State {
    s.(runs := s.runs - {run})
  }

  /** The job row after UpdateJobProgress: the first start is kept, the end is that of the last ending. */
  function Progressed(j: Job, status: Status, rows: nat, error: bool, now: nat): Job {
    Job(j.source, status, rows, rows, error,
        if status.Running? && j.startedAt.None? then Some(now) else j.startedAt,
        if status.Completed? || status.Failed? then Some(now) else j.completedAt)
  }

  /** UpdateJobProgress on the jobs table, when the statement goes through. */
  function SetStatus(s: State, job: nat, status: Status, rows: nat, error: bool, saved: bool): State {
    if saved && job in s.jobs then s.(jobs := s.jobs[job := Progressed(s.jobs[job], status, rows, error, s.clock)]) else s
  }

  /** `job` owns a checkpoint of `source` that no other checkpoint of the source is newer than. */
  predicate IsLatest(s: State, source: nat, job: nat) {
    && (source, job) in s.checkpoints
    && forall k | k in s.checkpoints :: k.0 == source ==> s.checkpoints[k].updatedAt <= s.checkpoints[(source, job)].updatedAt
  }

  /** The row SaveCheckpoint leaves: an upsert that changes nothing keeps its update time. */
  function Upserted(s: State, source: nat, job: nat, offset: nat): Checkpoint {
    if (source, job) in s.checkpoints && s.checkpoints[(source, job)].offset == offset
    then s.checkpoints[(source, job)]
    else Checkpoint(offset, s.clock)
  }

  function WithCheckpoint(s: State, source: nat, job: nat, offset: nat, saved: bool): State {
    if saved then s.(checkpoints := s.checkpoints[(source, job) := Upserted(s, source, job, offset)]) else s
  }

  /** The row a write leaves when it leaves one. */
  function AsWritten(row: Row, outcome: Outcome): Row {
    if outcome.RowWithoutLineage? then row.(inputs := []) else row
  }

  function WithRow(s: State, row: Row, outcome: Outcome): State {
    if outcome.NotWritten? then s else s.(rows := s.rows + [AsWritten(row, outcome)])
  }

  function SilverRow(s: State, source: nat, bronze: nat): Row
    requires bronze < |s.rows| && s.rows[bronze].payload.Records?
  {
    var records := S.Sorted(s.rows[bronze].payload.records, LINE);
    Row(source, Silver, Records(records), |records|, [bronze], Some(bronze), 0, 0)
  }

  function GoldRow(s: State, source: nat, silver: nat): Row
    requires silver < |s.rows| && s.rows[silver].payload.Records?
  {
    Row(source, Gold, Summary(s.rows[silver].rowCount, s.rows[silver].payload.records), 1, [silver], Some(silver), 0, 0)
  }

  /** One read call returns no more than is left in the file, and possibly less. */
  function ReadEnd(from: nat, size: nat, atMost: nat): (to: nat)
    requires from <= size
    ensures from <= to <= size && to <= from + atMost && (to == size || to == from + atMost)
  {
    if size - from < atMost then size else from + atMost
  }

  /** Reads the tail of the log; a failed read fails the job. */
  function Pulling(s: State, run: nat, r: Run, atMost: Option<nat>, failureSaved: bool): State
    requires run in s.runs && r.stage.Resuming?
  {
    if atMost.None? || r.source !in s.files then Leave(SetStatus(s, r.job, Failed, 0, true, failureSaved), run)
    else
      var from := StartOffset(r.stage.offset, |s.files[r.source]|);
      var to := ReadEnd(from, |s.files[r.source]|, atMost.value);
      WithStage(s, run, Pulled(from, to, LineRecords(Lines(s.files[r.source][from..to]))))
  }

  function PulledRow(source: nat, stage: Stage): Row
    requires stage.Pulled?
  {
    Row(source, Bronze, Records(stage.records), |stage.records|, [], None, stage.from, stage.to)
  }

  /** The Bronze write is the one that must succeed for the run to go on. */
  function WritingBronze(s: State, run: nat, r: Run, outcome: Outcome, failureSaved: bool): State
    requires run in s.runs && r.stage.Pulled?
  {
    var s' := WithRow(s, PulledRow(r.source, r.stage), outcome);
    if outcome.Written? then WithStage(s', run, BronzeWritten(r.stage.to, |s.rows|))
    else Leave(SetStatus(s', r.job, Failed, |r.stage.records|, true, failureSaved), run)
  }

  /** A failed Silver write skips Gold, but the run goes on. */
  function WritingSilver(s: State, run: nat, r: Run, outcome: Outcome): State
    requires run in s.runs && r.stage.BronzeWritten? && r.stage.bronze < |s.rows| && s.rows[r.stage.bronze].payload.Records?
  {
    var s' := WithRow(s, SilverRow(s, r.source, r.stage.bronze), outcome);
    WithStage(s', run, if outcome.Written? then SilverWritten(r.stage.to, r.stage.bronze, |s.rows|) else Layered(r.stage.to, r.stage.bronze))
  }

  function WritingGold(s: State, run: nat, r: Run, outcome: Outcome): State
    requires run in s.runs && r.stage.SilverWritten? && r.stage.silver < |s.rows| && s.rows[r.stage.silver].payload.Records?
  {
    WithStage(WithRow(s, GoldRow(s, r.source, r.stage.silver), outcome), run, Layered(r.stage.to, r.stage.bronze))
  }

  /** The state after an event; an event that cannot happen where the system stands changes nothing. */
  function Apply(s: State, e: Event): State {
    match e
    case Tick => s.(clock := s.clock + 1)
    case Append(source, bytes) =>
      s.(files := s.files[source := if source in s.files then s.files[source] + bytes else bytes])
    case Begin(run, job, sourceRead) =>
      if run in s.runs || job !in s.jobs then s
      else if s.jobs[job].status in {Running, Completed} || !sourceRead then s
      else s.(runs := s.runs[run := Run(job, s.jobs[job].source, Checked)])
    case _ =>
      if e.run !in s.runs then s else Advance(s, e)
  }

  /** A step of a RunJob call in progress; a step out of turn changes nothing. */
  function Advance(s: State, e: Event): State
    requires !e.Tick? && !e.Append? && !e.Begin? && e.run in s.runs
  {
    var r := s.runs[e.run];
    match e
    case MarkRunning(run, ok) =>
      if !r.stage.Checked? then s
      else if ok then WithStage(SetStatus(s, r.job, Running, 0, false, true), run, Marked)
      else Leave(s, run)
    case ReadCheckpoint(run, latest) =>
      if !r.stage.Marked? then s
      else if latest.None? then WithStage(s, run, Resuming(0))
      else if IsLatest(s, r.source, latest.value)
      then WithStage(s, run, Resuming(s.checkpoints[(r.source, latest.value)].offset))
      else s
    case Pull(run, atMost, failureSaved) =>
      if !r.stage.Resuming? then s else Pulling(s, run, r, atMost, failureSaved)
    case WriteBronze(run, outcome, failureSaved) =>
      if !r.stage.Pulled? then s else WritingBronze(s, run, r, outcome, failureSaved)
    case WriteSilver(run, outcome) =>
      if !r.stage.BronzeWritten? || r.stage.bronze >= |s.rows| || !s.rows[r.stage.bronze].payload.Records? then s
      else WritingSilver(s, run, r, outcome)
    case WriteGold(run, outcome) =>
      if !r.stage.SilverWritten? || r.stage.silver >= |s.rows| || !s.rows[r.stage.silver].payload.Records? then s
      else WritingGold(s, run, r, outcome)
    case SaveCheckpoint(run, ok) =>
      if !r.stage.Layered? then s
      else WithStage(WithCheckpoint(s, r.source, r.job, r.stage.to, ok), run, Saved(r.stage.bronze))
    case Finish(run, ok) =>
      if !r.stage.Saved? || r.stage.bronze >= |s.rows| then s
      else Leave(SetStatus(s, r.job, Completed, s.rows[r.stage.bronze].rowCount, false, ok), run)
    case Stop(run) => Leave(s, run)
  }

  function Exec(s: State, es: seq<Event>): State {
    if es == [] then s else Apply(Exec(s, es[..|es| - 1]), es[|es| - 1])
  }

  lemma ExecSnoc(s: State, es: seq<Event>, e: Event)
    ensures Exec(s, es + [e]) == Apply(Exec(s, es), e)
  {
    assert (es + [e])[..|es|] == es;
  }

  /** Sources and jobs may exist, but nothing has been ingested and no job is completed. */
  predicate Initial(s: State) {
    s.checkpoints == map[] && s.rows == [] && s.runs == map[] && forall j | j in s.jobs :: !s.jobs[j].status.Completed?
  }

  // ---------------------------------------------------------------- invariant

  /** Row `i` is a Bronze row of `source` read from a stretch around byte `p`. */
  predicate HoldsByte(s: State, source: nat, i: nat, p: int) {
    i < |s.rows| && s.rows[i].layer.Bronze? && s.rows[i].source == source && s.rows[i].from <= p < s.rows[i].to
  }

  ghost predicate ByteRead(s: State, source: nat, p: int) {
    exists i: nat :: HoldsByte(s, source, i, p)
  }

  /** The first `n` bytes of the source's log exist and lie in stretches that Bronze rows were read from. */
  ghost predicate Covered(s: State, source: nat, n: nat) {
    && (n > 0 ==> source in s.files && n <= |s.files[source]|)
    && forall p :: 0 <= p < n ==> ByteRead(s, source, p)
  }

  /** `records` are the lines of bytes `[from, to)` of the source's log. */
  ghost predicate ReadFrom(s: State, source: nat, from: nat, to: nat, records: seq<S.Record>) {
    && source in s.files && from <= to <= |s.files[source]|
    && records == LineRecords(Lines(s.files[source][from..to]))
  }

  ghost predicate RowOk(s: State, i: nat)
    requires i < |s.rows|
  {
    var r := s.rows[i];
    match r.layer
    case Bronze =>
      && r.inputs == [] && r.basis.None?
      && r.payload.Records? && r.rowCount == |r.payload.records| && ReadFrom(s, r.source, r.from, r.to, r.payload.records)
    case Silver =>
      && r.basis.Some? && r.basis.value < i && s.rows[r.basis.value].layer.Bronze? && s.rows[r.basis.value].payload.Records?
      && (r.inputs == [] || r.inputs == [r.basis.value])
      && r == SilverRow(s, s.rows[r.basis.value].source, r.basis.value).(inputs := r.inputs)
      && r.rowCount == s.rows[r.basis.value].rowCount
    case Gold =>
      && r.basis.Some? && r.basis.value < i && s.rows[r.basis.value].layer.Silver? && s.rows[r.basis.value].payload.Records?
      && s.rows[r.basis.value].inputs != []
      && (r.inputs == [] || r.inputs == [r.basis.value])
      && r == GoldRow(s, s.rows[r.basis.value].source, r.basis.value).(inputs := r.inputs)
  }

  predicate IsBronzeOf(s: State, source: nat, b: nat) {
    b < |s.rows| && s.rows[b].layer.Bronze? && s.rows[b].source == source
  }

  ghost predicate RunOk(s: State, r: Run) {
    && r.job in s.jobs && s.jobs[r.job].source == r.source
    && match r.stage
       case Checked => true
       case Marked => true
       case Resuming(offset) => Covered(s, r.source, offset)
       case Pulled(from, to, records) => Covered(s, r.source, from) && ReadFrom(s, r.source, from, to, records)
       case BronzeWritten(to, bronze) =>
         Covered(s, r.source, to) && IsBronzeOf(s, r.source, bronze)
       case SilverWritten(to, bronze, silver) =>
         && Covered(s, r.source, to) && IsBronzeOf(s, r.source, bronze)
         && silver < |s.rows| && s.rows[silver].layer.Silver? && s.rows[silver].source == r.source && s.rows[silver].inputs != []
       case Layered(to, bronze) => Covered(s, r.source, to) && IsBronzeOf(s, r.source, bronze)
       case Saved(bronze) => IsBronzeOf(s, r.source, bronze)
  }

  /** Some Bronze row of the source has that many rows. */
  ghost predicate Ingested(s: State, source: nat, count: nat) {
    exists b: nat :: IsBronzeOf(s, source, b) && s.rows[b].rowCount == count
  }

  /** A completed job reports the row count of a Bronze row of its source, and no error. */
  ghost predicate JobOk(s: State, job: nat)
    requires job in s.jobs
  {
    var j := s.jobs[job];
    j.status.Completed? ==> !j.error && j.completedAt.Some? && j.expected == j.ingested && Ingested(s, j.source, j.ingested)
  }

  ghost predicate Inv(s: State) {
    && (forall i: nat :: i < |s.rows| ==> RowOk(s, i))
    && (forall k :: k in s.checkpoints ==> Covered(s, k.0, s.checkpoints[k].offset))
    && (forall n :: n in s.runs ==> RunOk(s, s.runs[n]))
    && (forall j :: j in s.jobs ==> JobOk(s, j))
  }

  /** Logs only grow at the end, catalogue rows stay as they are, and jobs stay with their source. */
  ghost predicate Grows(s: State, t: State) {
    && (forall f :: f in s.files ==> f in t.files && s.files[f] <= t.files[f])
    && (forall j :: j in s.jobs ==> j in t.jobs && t.jobs[j].source == s.jobs[j].source)
    && s.rows <= t.rows
  }

  lemma CoveredGrows(s: State, t: State, source: nat, n: nat)
    requires Grows(s, t) && Covered(s, source, n)
    ensures Covered(t, source, n)
  {
    forall p | 0 <= p < n
      ensures ByteRead(t, source, p)
    {
      assert ByteRead(s, source, p);
      var i: nat :| HoldsByte(s, source, i, p);
      assert HoldsByte(t, source, i, p);
    }
  }

  lemma ReadFromGrows(s: State, t: State, source: nat, from: nat, to: nat, records: seq<S.Record>)
    requires Grows(s, t) && ReadFrom(s, source, from, to, records)
    ensures ReadFrom(t, source, from, to, records)
  {
    assert s.files[source] == t.files[source][..|s.files[source]|];
    assert s.files[source][from..to] == t.files[source][from..to];
  }

  lemma RowGrows(s: State, t: State, i: nat)
    requires Grows(s, t) && i < |s.rows| && RowOk(s, i)
    ensures RowOk(t, i)
  {
    var r := s.rows[i];
    assert t.rows[i] == r;
    if r.layer.Bronze? {
      ReadFromGrows(s, t, r.source, r.from, r.to, r.payload.records);
    } else {
      assert t.rows[r.basis.value] == s.rows[r.basis.value];
    }
  }

  lemma RunGrows(s: State, t: State, r: Run)
    requires Grows(s, t) && RunOk(s, r)
    ensures RunOk(t, r)
  {
    match r.stage
    case Checked =>
    case Marked =>
    case Saved(bronze) =>
    case Resuming(offset) => CoveredGrows(s, t, r.source, offset);
    case Pulled(from, to, records) =>
      CoveredGrows(s, t, r.source, from);
      ReadFromGrows(s, t, r.source, from, to, records);
    case BronzeWritten(to, bronze) => CoveredGrows(s, t, r.source, to);
    case SilverWritten(to, bronze, silver) => CoveredGrows(s, t, r.source, to);
    case Layered(to, bronze) => CoveredGrows(s, t, r.source, to);
  }

  lemma JobGrows(s: State, t: State, job: nat)
    requires Grows(s, t) && job in s.jobs && t.jobs[job] == s.jobs[job] && JobOk(s, job)
    ensures JobOk(t, job)
  {
    var j := s.jobs[job];
    if j.status.Completed? {
      var b: nat :| IsBronzeOf(s, j.source, b) && s.rows[b].rowCount == j.ingested;
      assert IsBronzeOf(t, j.source, b) && t.rows[b].rowCount == j.ingested;
    }
  }

  lemma WithRowGrows(s: State, row: Row, outcome: Outcome)
    ensures s.rows <= WithRow(s, row, outcome).rows
  {
  }

  /** A status update touches jobs only. */
  lemma SetStatusGrows(s: State, job: nat, status: Status, rows: nat, error: bool, saved: bool)
    ensures var t := SetStatus(s, job, status, rows, error, saved);
      t == s.(jobs := t.jobs) && Grows(s, t)
  {
  }

  lemma WritingBronzeGrows(s: State, run: nat, outcome: Outcome, failureSaved: bool)
    requires run in s.runs && s.runs[run].stage.Pulled?
    ensures Grows(s, WritingBronze(s, run, s.runs[run], outcome, failureSaved))
  {
    var r := s.runs[run];
    WithRowGrows(s, PulledRow(r.source, r.stage), outcome);
    SetStatusGrows(WithRow(s, PulledRow(r.source, r.stage), outcome), r.job, Failed, |r.stage.records|, true, failureSaved);
  }

  /** A layer write in turn adds at most one row. */
  lemma LayerWriteGrows(s: State, e: Event)
    requires (e.WriteBronze? || e.WriteSilver? || e.WriteGold?) && e.run in s.runs
    ensures Grows(s, Advance(s, e))
  {
    var r := s.runs[e.run];
    if e.WriteBronze? {
      if r.stage.Pulled? { WritingBronzeGrows(s, e.run, e.outcome, e.failureSaved); }
    } else if e.WriteSilver? {
      if r.stage.BronzeWritten? && r.stage.bronze < |s.rows| && s.rows[r.stage.bronze].payload.Records? {
        WithRowGrows(s, SilverRow(s, r.source, r.stage.bronze), e.outcome);
      }
    } else if r.stage.SilverWritten? && r.stage.silver < |s.rows| && s.rows[r.stage.silver].payload.Records? {
      WithRowGrows(s, GoldRow(s, r.source, r.stage.silver), e.outcome);
    }
  }

  lemma OutsideGrows(s: State, e: Event)
    requires e.Tick? || e.Append? || e.Begin?
    ensures Grows(s, Apply(s, e))
  {
  }

  lemma StepGrows(s: State, e: Event)
    ensures Grows(s, Apply(s, e))
  {
    if e.Tick? || e.Append? || e.Begin? {
      OutsideGrows(s, e);
    } else if (e.WriteBronze? || e.WriteSilver? || e.WriteGold?) && e.run in s.runs {
      LayerWriteGrows(s, e);
    }
  }

  /** What a step must still show once growth has carried the old facts over. */
  lemma InvFromNew(s: State, t: State)
    requires Inv(s) && Grows(s, t)
    requires forall i: nat :: |s.rows| <= i < |t.rows| ==> RowOk(t, i)
    requires forall k :: k in t.checkpoints && (k !in s.checkpoints || s.checkpoints[k] != t.checkpoints[k]) ==>
      Covered(t, k.0, t.checkpoints[k].offset)
    requires forall n :: n in t.runs && (n !in s.runs || s.runs[n] != t.runs[n]) ==> RunOk(t, t.runs[n])
    requires forall j :: j in t.jobs && (j !in s.jobs || s.jobs[j] != t.jobs[j]) ==> JobOk(t, j)
    ensures Inv(t)
  {
    forall i: nat | i < |t.rows|
      ensures RowOk(t, i)
    {
      if i < |s.rows| { RowGrows(s, t, i); }
    }
    forall k | k in t.checkpoints
      ensures Covered(t, k.0, t.checkpoints[k].offset)
    {
      if k in s.checkpoints && s.checkpoints[k] == t.checkpoints[k] {
        CoveredGrows(s, t, k.0, s.checkpoints[k].offset);
      }
    }
    forall n | n in t.runs
      ensures RunOk(t, t.runs[n])
    {
      if n in s.runs && s.runs[n] == t.runs[n] { RunGrows(s, t, s.runs[n]); }
    }
    forall j | j in t.jobs
      ensures JobOk(t, j)
    {
      if j in s.jobs && s.jobs[j] == t.jobs[j] { JobGrows(s, t, j); }
    }
  }

  /** Writing the stretch that follows a covered prefix covers the longer prefix. */
  lemma CoverExtends(s: State, t: State, source: nat, from: nat, to: nat, i: nat)
    requires Grows(s, t) && Covered(s, source, from) && source in t.files && to <= |t.files[source]|
    requires i < |t.rows| && t.rows[i].layer.Bronze? && t.rows[i].source == source
    requires t.rows[i].from == from && t.rows[i].to == to
    ensures Covered(t, source, to)
  {
    CoveredGrows(s, t, source, from);
    forall p | 0 <= p < to
      ensures ByteRead(t, source, p)
    {
      if from <= p {
        assert HoldsByte(t, source, i, p);
      }
    }
  }

  /** A run that moves on alone, with no other table changed. */
  lemma StageKeepsInv(s: State, run: nat, stage: Stage)
    requires Inv(s) && run in s.runs
    requires RunOk(s, s.runs[run].(stage := stage))
    ensures Inv(WithStage(s, run, stage))
  {
    var t := WithStage(s, run, stage);
    RunGrows(s, t, s.runs[run].(stage := stage));
    InvFromNew(s, t);
  }

  /** A call that returns, with or without a status saved on its job. */
  lemma LeaveKeepsInv(s: State, run: nat, job: nat, status: Status, rows: nat, error: bool, saved: bool)
    requires Inv(s)
    requires status.Completed? && job in s.jobs ==> !error && Ingested(s, s.jobs[job].source, rows)
    ensures Inv(Leave(SetStatus(s, job, status, rows, error, saved), run))
  {
    var t := Leave(SetStatus(s, job, status, rows, error, saved), run);
    if status.Completed? && job in s.jobs {
      var b: nat :| IsBronzeOf(s, s.jobs[job].source, b) && s.rows[b].rowCount == rows;
      assert IsBronzeOf(t, s.jobs[job].source, b);
    }
    InvFromNew(s, t);
  }

  /** A layer write: one more row, at most the writing call moves on, and no job gets completed. */
  lemma AppendKeepsInv(s: State, t: State, row: Row, run: nat)
    requires Inv(s)
    requires forall j :: j in s.jobs ==> j in t.jobs && t.jobs[j].source == s.jobs[j].source
    requires forall j :: j in t.jobs ==> j in s.jobs && (t.jobs[j] == s.jobs[j] || !t.jobs[j].status.Completed?)
    requires t.files == s.files && t.checkpoints == s.checkpoints && t.rows == s.rows + [row]
    requires RowOk(t, |s.rows|)
    requires forall n :: n in t.runs && n != run ==> n in s.runs && t.runs[n] == s.runs[n]
    requires run in t.runs ==> RunOk(t, t.runs[run])
    ensures Inv(t)
  {
    InvFromNew(s, t);
  }

  lemma PullKeepsInv(s: State, e: Event)
    requires Inv(s) && e.Pull? && e.run in s.runs && s.runs[e.run].stage.Resuming?
    ensures Inv(Apply(s, e))
  {
    var Run(job, source, stage) := s.runs[e.run];
    assert RunOk(s, s.runs[e.run]);
    if e.atMost.None? || source !in s.files {
      LeaveKeepsInv(s, e.run, job, Failed, 0, true, e.failureSaved);
    } else {
      var from := StartOffset(stage.offset, |s.files[source]|);
      assert from == stage.offset;
      var to := ReadEnd(from, |s.files[source]|, e.atMost.value);
      StageKeepsInv(s, e.run, Pulled(from, to, LineRecords(Lines(s.files[source][from..to]))));
    }
  }

  /** The row of a read continues what was covered before it. */
  lemma BronzeAppended(s: State, t: State, r: Run)
    requires RunOk(s, r) && r.stage.Pulled?
    requires Grows(s, t) && t.rows == s.rows + [PulledRow(r.source, r.stage)]
    ensures RowOk(t, |s.rows|) && Covered(t, r.source, r.stage.to)
  {
    ReadFromGrows(s, t, r.source, r.stage.from, r.stage.to, r.stage.records);
    CoverExtends(s, t, r.source, r.stage.from, r.stage.to, |s.rows|);
  }

  lemma WritingBronzeKeepsInv(s: State, run: nat, outcome: Outcome, failureSaved: bool)
    requires Inv(s) && run in s.runs && s.runs[run].stage.Pulled? && !outcome.NotWritten?
    ensures Inv(WritingBronze(s, run, s.runs[run], outcome, failureSaved))
  {
    var r := s.runs[run];
    var t := WritingBronze(s, run, r, outcome, failureSaved);
    assert AsWritten(PulledRow(r.source, r.stage), outcome) == PulledRow(r.source, r.stage);
    assert t.rows == s.rows + [PulledRow(r.source, r.stage)] && t.files == s.files && t.checkpoints == s.checkpoints;
    BronzeAppended(s, t, r);
    AppendKeepsInv(s, t, PulledRow(r.source, r.stage), run);
  }

  lemma WriteBronzeKeepsInv(s: State, e: Event)
    requires Inv(s) && e.WriteBronze? && e.run in s.runs && s.runs[e.run].stage.Pulled?
    ensures Inv(Apply(s, e))
  {
    if e.outcome.NotWritten? {
      LeaveKeepsInv(s, e.run, s.runs[e.run].job, Failed, |s.runs[e.run].stage.records|, true, e.failureSaved);
    } else {
      WritingBronzeKeepsInv(s, e.run, e.outcome, e.failureSaved);
    }
  }

  lemma SilverAppended(s: State, t: State, source: nat, bronze: nat, outcome: Outcome)
    requires IsBronzeOf(s, source, bronze) && RowOk(s, bronze)
    requires t.rows == s.rows + [AsWritten(SilverRow(s, source, bronze), outcome)]
    ensures RowOk(t, |s.rows|)
  {
    S.SortedInOrder(s.rows[bronze].payload.records, LINE);
    assert t.rows[bronze] == s.rows[bronze];
  }

  lemma WritingSilverKeepsInv(s: State, run: nat, r: Run, outcome: Outcome)
    requires Inv(s) && run in s.runs && s.runs[run] == r && RunOk(s, r) && r.stage.BronzeWritten? && RowOk(s, r.stage.bronze)
    requires !outcome.NotWritten?
    ensures Inv(WritingSilver(s, run, r, outcome))
  {
    var t := WritingSilver(s, run, r, outcome);
    var row := AsWritten(SilverRow(s, r.source, r.stage.bronze), outcome);
    assert t.rows == s.rows + [row] && t.files == s.files;
    SilverAppended(s, t, r.source, r.stage.bronze, outcome);
    CoveredGrows(s, t, r.source, r.stage.to);
    AppendKeepsInv(s, t, row, run);
  }

  lemma WriteSilverKeepsInv(s: State, e: Event)
    requires Inv(s) && e.WriteSilver? && e.run in s.runs && s.runs[e.run].stage.BronzeWritten?
    ensures Inv(Apply(s, e))
  {
    var r := s.runs[e.run];
    var b, to := r.stage.bronze, r.stage.to;
    assert RunOk(s, r) && RowOk(s, b);
    if e.outcome.NotWritten? {
      StageKeepsInv(s, e.run, Layered(to, b));
    } else {
      WritingSilverKeepsInv(s, e.run, r, e.outcome);
    }
  }

  lemma WritingGoldKeepsInv(s: State, run: nat, r: Run, outcome: Outcome)
    requires Inv(s) && run in s.runs && s.runs[run] == r && RunOk(s, r) && r.stage.SilverWritten? && RowOk(s, r.stage.silver)
    requires !outcome.NotWritten?
    ensures Inv(WritingGold(s, run, r, outcome))
  {
    var t := WritingGold(s, run, r, outcome);
    var row := AsWritten(GoldRow(s, r.source, r.stage.silver), outcome);
    assert t.rows == s.rows + [row] && t.files == s.files;
    assert t.rows[r.stage.silver] == s.rows[r.stage.silver] && RowOk(t, |s.rows|);
    CoveredGrows(s, t, r.source, r.stage.to);
    AppendKeepsInv(s, t, row, run);
  }

  lemma WriteGoldKeepsInv(s: State, e: Event)
    requires Inv(s) && e.WriteGold? && e.run in s.runs && s.runs[e.run].stage.SilverWritten?
    ensures Inv(Apply(s, e))
  {
    var r := s.runs[e.run];
    assert RunOk(s, r) && RowOk(s, r.stage.silver);
    if e.outcome.NotWritten? {
      StageKeepsInv(s, e.run, Layered(r.stage.to, r.stage.bronze));
    } else {
      WritingGoldKeepsInv(s, e.run, r, e.outcome);
    }
  }

  lemma CheckpointKeepsInv(s: State, source: nat, job: nat, offset: nat, saved: bool)
    requires Inv(s) && Covered(s, source, offset)
    ensures Inv(WithCheckpoint(s, source, job, offset, saved))
  {
    var t := WithCheckpoint(s, source, job, offset, saved);
    CoveredGrows(s, t, source, offset);
    InvFromNew(s, t);
  }

  lemma SaveCheckpointKeepsInv(s: State, e: Event)
    requires Inv(s) && e.SaveCheckpoint? && e.run in s.runs && s.runs[e.run].stage.Layered?
    ensures Inv(Apply(s, e))
  {
    var r := s.runs[e.run];
    assert RunOk(s, r);
    CheckpointKeepsInv(s, r.source, r.job, r.stage.to, e.ok);
    StageKeepsInv(WithCheckpoint(s, r.source, r.job, r.stage.to, e.ok), e.run, Saved(r.stage.bronze));
  }

  lemma MarkKeepsInv(s: State, e: Event)
    requires Inv(s) && e.MarkRunning? && e.run in s.runs && s.runs[e.run].stage.Checked?
    ensures Inv(Apply(s, e))
  {
    assert RunOk(s, s.runs[e.run]);
    if e.ok {
      InvFromNew(s, Apply(s, e));
    } else {
      LeaveKeepsInv(s, e.run, s.runs[e.run].job, Failed, 0, true, false);
    }
  }

  lemma ReadCheckpointKeepsInv(s: State, e: Event)
    requires Inv(s) && e.ReadCheckpoint? && e.run in s.runs && s.runs[e.run].stage.Marked?
    ensures Inv(Apply(s, e))
  {
    assert RunOk(s, s.runs[e.run]);
    if e.latest.None? {
      StageKeepsInv(s, e.run, Resuming(0));
    } else if IsLatest(s, s.runs[e.run].source, e.latest.value) {
      StageKeepsInv(s, e.run, Resuming(s.checkpoints[(s.runs[e.run].source, e.latest.value)].offset));
    }
  }

  /** Steps from outside the calls, and the start of one. */
  lemma OutsideKeepsInv(s: State, e: Event)
    requires Inv(s) && (e.Tick? || e.Append? || e.Begin?)
    ensures Inv(Apply(s, e))
  {
    StepGrows(s, e);
    InvFromNew(s, Apply(s, e));
  }

  /** Every step of every call, whatever fails, keeps the invariant. */
  lemma StepKeepsInv(s: State, e: Event)
    requires Inv(s)
    ensures Inv(Apply(s, e))
  {
    if e.Tick? || e.Append? || e.Begin? {
      OutsideKeepsInv(s, e);
    } else if e.run in s.runs {
      var r := s.runs[e.run];
      if e.Stop? {
        LeaveKeepsInv(s, e.run, r.job, Failed, 0, true, false);
      } else if e.MarkRunning? && r.stage.Checked? {
        MarkKeepsInv(s, e);
      } else if e.ReadCheckpoint? && r.stage.Marked? {
        ReadCheckpointKeepsInv(s, e);
      } else if e.Pull? && r.stage.Resuming? {
        PullKeepsInv(s, e);
      } else if e.WriteBronze? && r.stage.Pulled? {
        WriteBronzeKeepsInv(s, e);
      } else if e.WriteSilver? && r.stage.BronzeWritten? {
        WriteSilverKeepsInv(s, e);
      } else if e.WriteGold? && r.stage.SilverWritten? {
        WriteGoldKeepsInv(s, e);
      } else if e.SaveCheckpoint? && r.stage.Layered? {
        SaveCheckpointKeepsInv(s, e);
      } else if e.Finish? && r.stage.Saved? {
        assert RunOk(s, r);
        LeaveKeepsInv(s, e.run, r.job, Completed, s.rows[r.stage.bronze].rowCount, false, e.ok);
      } else {
        assert Apply(s, e) == s;
      }
    }
  }

  lemma {:induction false} ExecKeepsInv(s: State, es: seq<Event>)
    requires Inv(s)
    ensures Inv(Exec(s, es))
  {
    if es != [] {
      ExecKeepsInv(s, es[..|es| - 1]);
      StepKeepsInv(Exec(s, es[..|es| - 1]), es[|es| - 1]);
    }
  }

  lemma GrowsTransitive(s: State, t: State, u: State)
    requires Grows(s, t) && Grows(t, u)
    ensures Grows(s, u)
  {
  }

  lemma {:induction false} ExecGrows(s: State, es: seq<Event>, n: nat)
    requires n <= |es|
    ensures Grows(Exec(s, es[..n]), Exec(s, es))
  {
    if n == |es| {
      assert es[..n] == es;
    } else {
      var front := es[..|es| - 1];
      assert front[..n] == es[..n];
      ExecGrows(s, front, n);
      StepGrows(Exec(s, front), es[|es| - 1]);
      GrowsTransitive(Exec(s, es[..n]), Exec(s, front), Exec(s, es));
    }
  }

  // ------------------------------------------------------------ main theorems

  /** Line `k` of the text takes the places from `a` up to `b`. */
  predicate IsSpot(buf: string, k: nat, a: int, b: int) {
    k < |Spots(LineByte, buf)| && Spots(LineByte, buf)[k] == (a, b)
  }

  /** Bronze row `i` was read from a stretch around byte `p` of the source's log; its record `k` is of the line `[a, b)` of that stretch, and `p` is inside. */
  ghost predicate StoredAt(s: State, source: nat, i: nat, k: nat, a: nat, b: nat, p: int)
    requires source in s.files
  {
    && IsBronzeOf(s, source, i) && s.rows[i].payload.Records? && k < |s.rows[i].payload.records|
    && s.rows[i].from <= a <= p < b <= s.rows[i].to <= |s.files[source]|
    && IsSpot(s.files[source][s.rows[i].from..s.rows[i].to], k, a - s.rows[i].from, b - s.rows[i].from)
    && s.rows[i].payload.records[k] == LineRecord(s.files[source][a..b])
  }

  ghost predicate StoredInRow(s: State, source: nat, i: nat, p: int)
    requires source in s.files
  {
    exists k: nat, a: nat, b: nat :: StoredAt(s, source, i, k, a, b, p)
  }

  lemma SliceOfSlice(f: string, from: int, to: int, a: int, b: int)
    requires 0 <= from <= to <= |f| && 0 <= a <= b <= to - from
    ensures f[from..to][a..b] == f[from + a..from + b]
  {
    var outer := f[from..to];
    var left, right := outer[a..b], f[from + a..from + b];
    forall k | 0 <= k < b - a
      ensures left[k] == right[k]
    {
      assert left[k] == outer[a + k] == f[from + a + k];
    }
    assert left == right;
  }

  /** A byte read that is no newline is inside one of the records of the read. */
  lemma ByteInRecord(s: State, source: nat, i: nat, p: int)
    requires HoldsByte(s, source, i, p) && RowOk(s, i) && s.files[source][p] != '\n'
    ensures StoredInRow(s, source, i, p)
  {
    var r := s.rows[i];
    var buf := s.files[source][r.from..r.to];
    var x := p - r.from;
    var k := SpotOf(LineByte, buf, x);
    TextsAtSpots(LineByte, buf);
    SpotsLaid(LineByte, buf);
    var (a, b) := Spots(LineByte, buf)[k];
    SliceOfSlice(s.files[source], r.from, r.to, a, b);
    assert StoredAt(s, source, i, k, r.from + a, r.from + b, p);
  }

  /**
   * No loss. Take any run of the system and any checkpoint row as it stood after the
   * first `n` steps: from then on every byte of the log below its offset, newlines
   * apart, is inside a record of a Bronze payload that has been written.
   */
  lemma NoLoss(s: State, es: seq<Event>, n: nat, early: State, late: State, key: (nat, nat), p: nat)
    requires Initial(s) && n <= |es| && early == Exec(s, es[..n]) && late == Exec(s, es)
    requires key in early.checkpoints && p < early.checkpoints[key].offset
    ensures key.0 in late.files && p < |late.files[key.0]|
    ensures late.files[key.0][p] == '\n' || exists i: nat :: StoredInRow(late, key.0, i, p)
  {
    ExecKeepsInv(s, es[..n]);
    ExecKeepsInv(s, es);
    ExecGrows(s, es, n);
    CoveredGrows(early, late, key.0, early.checkpoints[key].offset);
    assert ByteRead(late, key.0, p);
    var i: nat :| HoldsByte(late, key.0, i, p);
    if late.files[key.0][p] != '\n' {
      assert RowOk(late, i);
      ByteInRecord(late, key.0, i, p);
    }
  }

  /**
   * And whether it can be read back: the byte sequence around it stands in its place in
   * the stored text as it was read if and only if, in the line as it was read, it is part
   * of a character. Bytes below 0x80 always are, and are read back by themselves.
   */
  lemma ReadBackExactly(s: State, es: seq<Event>, n: nat, early: State, late: State, key: (nat, nat), p: nat) returns (i: nat, k: nat, a: nat, b: nat)
    requires Initial(s) && n <= |es| && early == Exec(s, es[..n]) && late == Exec(s, es)
    requires key in early.checkpoints && p < early.checkpoints[key].offset
    requires key.0 in late.files && p < |late.files[key.0]| ==> late.files[key.0][p] != '\n'
    ensures key.0 in late.files && StoredAt(late, key.0, i, k, a, b, p)
    ensures var line, x := late.files[key.0][a..b], p - a;
      var u := Utf8.UnitStart(line, x);
      var m := Utf8.Step(line[u..]);
      && LINE in late.rows[i].payload.records[k] && late.rows[i].payload.records[k][LINE] == Some(Utf8.Stored(line))
      && u <= x < u + m <= |line| && Utf8.InPlace(line, u, m)
      && (Utf8.StoredUnit(line[u..]) == line[u..u + m] <==> Utf8.Keeps(line, x))
      && (Utf8.Within(line[x], 0, 0x7F) ==> Utf8.Keeps(line, x) && u == x)
  {
    hide Exec, Initial, Spots, Utf8.Stored, Utf8.UnitStart, Utf8.UnitLength, Utf8.Step, Utf8.StoredUnit, Utf8.InPlace, Utf8.Keeps;
    NoLoss(s, es, n, early, late, key, p);
    i :| StoredInRow(late, key.0, i, p);
    k, a, b :| StoredAt(late, key.0, i, k, a, b, p);
    ReadBackByte(late.files[key.0][a..b], p - a);
  }

  lemma ReadBackByte(line: string, x: nat)
    requires x < |line|
    ensures var u := Utf8.UnitStart(line, x);
      var m := Utf8.Step(line[u..]);
      && u <= x < u + m <= |line| && Utf8.InPlace(line, u, m)
      && (Utf8.StoredUnit(line[u..]) == line[u..u + m] <==> Utf8.Keeps(line, x))
      && (Utf8.Within(line[x], 0, 0x7F) ==> Utf8.Keeps(line, x) && u == x)
  {
    hide Utf8.UnitLength, Utf8.InPlace;
    Utf8.KeepsExactly(line, x);
    if Utf8.Within(line[x], 0, 0x7F) {
      Utf8.AsciiSurvives(line, x);
    }
  }

  /** The records of a read give every line back as it was read if and only if all of its lines are valid. */
  lemma LinesKeptExactly(lines: seq<string>)
    ensures (forall k :: 0 <= k < |lines| ==> LineRecord(lines[k]) == map[LINE := Some(lines[k])]) <==> forall k :: 0 <= k < |lines| ==> Utf8.Valid(lines[k])
  {
    hide Utf8.Stored, Utf8.Valid;
    forall k | 0 <= k < |lines|
      ensures LineRecord(lines[k]) == map[LINE := Some(lines[k])] <==> Utf8.Valid(lines[k])
    {
      Utf8.StoredExactly(lines[k]);
      assert LineRecord(lines[k])[LINE] == Some(Utf8.Stored(lines[k]));
    }
  }

  /** On append-only logs no read ever takes the truncated-file branch: a resumed offset is never past the end. */
  lemma NeverSeesTruncation(s: State, es: seq<Event>, t: State, run: nat)
    requires Initial(s) && t == Exec(s, es)
    requires run in t.runs && t.runs[run].stage.Resuming?
    ensures t.runs[run].source in t.files ==> t.runs[run].stage.offset <= |t.files[t.runs[run].source]|
    ensures t.runs[run].source !in t.files ==> t.runs[run].stage.offset == 0
  {
    ExecKeepsInv(s, es);
    assert RunOk(t, t.runs[run]);
  }

  /**
   * Every Silver payload is the sorted records of one earlier Bronze row of its source,
   * with its row count, and every Gold payload summarises one earlier Silver row,
   * whether or not the lineage table says so. What it says is never anything else: a
   * row has no input, or that one.
   */
  lemma LayersAgree(s: State, es: seq<Event>, t: State, i: nat)
    requires Initial(s) && t == Exec(s, es) && i < |t.rows|
    ensures var rows := t.rows;
      && |rows[i].inputs| <= 1
      && (rows[i].layer.Bronze? ==> rows[i].inputs == [] && rows[i].basis.None? && rows[i].payload.Records? && rows[i].rowCount == |rows[i].payload.records|)
      && (!rows[i].layer.Bronze? ==> rows[i].basis.Some? && rows[i].basis.value < i && (rows[i].inputs == [] || rows[i].inputs == [rows[i].basis.value]))
      && (rows[i].layer.Silver? ==>
            var b := rows[rows[i].basis.value];
            && b.layer.Bronze? && b.source == rows[i].source && b.payload.Records?
            && rows[i].payload == Records(S.Sorted(b.payload.records, LINE)) && rows[i].rowCount == b.rowCount)
      && (rows[i].layer.Gold? ==>
            var v := rows[rows[i].basis.value];
            && v.layer.Silver? && v.source == rows[i].source && v.payload.Records?
            && v.basis.Some? && v.basis.value < rows[i].basis.value && v.inputs == [v.basis.value]
            && rows[i].payload == Summary(v.rowCount, v.payload.records) && rows[i].rowCount == 1
            && rows[v.basis.value].layer.Bronze? && rows[v.basis.value].rowCount == v.rowCount)
  {
    ExecKeepsInv(s, es);
    assert RowOk(t, i);
    if !t.rows[i].layer.Bronze? {
      assert RowOk(t, t.rows[i].basis.value);
    }
  }

  /** The outcome of a layer write; other events have none. */
  function OutcomeOf(e: Event): Option<Outcome> {
    if e.WriteBronze? || e.WriteSilver? || e.WriteGold? then Some(e.outcome) else None
  }

  lemma WriteAddsRow(s: State, e: Event)
    requires OutcomeOf(e).Some? && e.run in s.runs
    ensures var t := Advance(s, e);
      t.rows == s.rows ||
      (|t.rows| == |s.rows| + 1
       && (e.WriteBronze? <==> t.rows[|s.rows|].layer.Bronze?)
       && (t.rows[|s.rows|].inputs != [] <==> !e.WriteBronze? && !e.outcome.RowWithoutLineage?))
  {
  }

  /** A step adds a row or none; a row it adds has an input exactly when it is not Bronze and its lineage row went in. */
  lemma StepAddsRow(s: State, e: Event)
    ensures var t := Apply(s, e);
      && |s.rows| <= |t.rows| <= |s.rows| + 1
      && (|t.rows| == |s.rows| + 1 ==>
            && OutcomeOf(e).Some? && (e.WriteBronze? <==> t.rows[|s.rows|].layer.Bronze?)
            && (t.rows[|s.rows|].inputs != [] <==> !e.WriteBronze? && !e.outcome.RowWithoutLineage?))
  {
    if OutcomeOf(e).Some? && e.run in s.runs {
      WriteAddsRow(s, e);
    } else {
      assert Apply(s, e).rows == s.rows;
    }
  }

  /** Which rows of a run have an input: those of the layer writes whose lineage statement went through. */
  lemma {:induction false} LinkedExactly(s: State, es: seq<Event>, t: State, i: nat) returns (k: nat)
    requires Initial(s) && t == Exec(s, es) && i < |t.rows|
    ensures k < |es| && |Exec(s, es[..k]).rows| == i && OutcomeOf(es[k]).Some?
    ensures es[k].WriteBronze? <==> t.rows[i].layer.Bronze?
    ensures t.rows[i].inputs != [] <==> !t.rows[i].layer.Bronze? && !es[k].outcome.RowWithoutLineage?
  {
    var front, e := es[..|es| - 1], es[|es| - 1];
    var before := Exec(s, front);
    StepAddsRow(before, e);
    StepGrows(before, e);
    if i < |before.rows| {
      k := LinkedExactly(s, front, before, i);
      assert front[..k] == es[..k] && t.rows[i] == before.rows[i];
    } else {
      k := |es| - 1;
    }
  }

  /** However calls overlap, a completed job reports the row count of a Bronze row of its source, twice, and no error. */
  lemma CompletedJobsHonest(s: State, es: seq<Event>, t: State, job: nat)
    requires Initial(s) && t == Exec(s, es) && job in t.jobs && t.jobs[job].status.Completed?
    ensures !t.jobs[job].error && t.jobs[job].completedAt.Some? && t.jobs[job].expected == t.jobs[job].ingested
    ensures exists b: nat :: b < |t.rows| && t.rows[b].layer.Bronze? && t.rows[b].source == t.jobs[job].source && t.rows[b].rowCount == t.jobs[job].ingested
  {
    ExecKeepsInv(s, es);
    assert JobOk(t, job);
    var b: nat :| IsBronzeOf(t, t.jobs[job].source, b) && t.rows[b].rowCount == t.jobs[job].ingested;
    assert b < |t.rows|;
  }
}
