/**
 * Sequential ingestion: RunJob as one call after another, as a fold of the protocol's
 * steps and as one closed-form change of the tables.
 */
module IngestRuns {
  import opened Prelude
  import opened LogFile
  import opened IngestProtocol

  /** How the fallible operations of one RunJob call turn out. */
  datatype Io = Io(
    sourceRead: bool,
    marked: bool,
    queryOk: bool,
    read: Option<nat>,
    bronze: Outcome,
    silver: Outcome,
    gold: Outcome,
    checkpointSaved: bool,
    finished: bool,
    failureSaved: bool)

  /** The call up to the point where it knows its resume offset. */
  function Opening(s: State, job: nat, io: Io, latest: Option<nat>): State {
    Apply(Apply(Apply(s, Begin(0, job, io.sourceRead)), MarkRunning(0, io.marked)), ReadCheckpoint(0, latest))
  }

  /** Reading the tail of the log and writing Bronze. */
  function Ingesting(s: State, io: Io): State {
    Apply(Apply(s, Pull(0, io.read, io.failureSaved)), WriteBronze(0, io.bronze, io.failureSaved))
  }

  /** Silver, Gold, the checkpoint and the final status. */
  function Closing(s: State, io: Io): State {
    Apply(Apply(Apply(Apply(s, WriteSilver(0, io.silver)), WriteGold(0, io.gold)), SaveCheckpoint(0, io.checkpointSaved)), Finish(0, io.finished))
  }

  /** A whole call that nothing interleaves with; after an early return the remaining steps have no run to act on. */
  function RunOnce(s: State, job: nat, io: Io, latest: Option<nat>): State {
    Closing(Ingesting(Opening(s, job, io, latest), io), io)
  }

  /** The tables of `s` with one call in progress. */
  function At(s: State, job: nat, source: nat, stage: Stage): State {
    s.(runs := map[0 := Run(job, source, stage)])
  }

  lemma StageAt(s: State, job: nat, source: nat, stage: Stage, next: Stage)
    ensures WithStage(At(s, job, source, stage), 0, next) == At(s, job, source, next)
  {
  }

  /** Steps of a call that is not there change nothing. */
  lemma Idle(s: State, io: Io, latest: Option<nat>)
    requires 0 !in s.runs
    ensures Apply(Apply(s, MarkRunning(0, io.marked)), ReadCheckpoint(0, latest)) == s
    ensures Ingesting(s, io) == s && Closing(s, io) == s
  {
  }

  predicate Admitted(s: State, job: nat) {
    job in s.jobs && s.jobs[job].status !in {Running, Completed}
  }

  /** A call on an unknown, running or finished job, or one whose source cannot be read or whose status cannot be saved, leaves no trace. */
  lemma TurnedAway(s: State, job: nat, io: Io, latest: Option<nat>)
    requires s.runs == map[] && (!Admitted(s, job) || !io.sourceRead || !io.marked)
    ensures RunOnce(s, job, io, latest) == s
  {
    var s1 := Apply(s, Begin(0, job, io.sourceRead));
    if !Admitted(s, job) || !io.sourceRead {
      assert s1 == s;
    } else {
      assert Apply(s1, MarkRunning(0, io.marked)).runs == map[];
    }
    Idle(s, io, latest);
  }

  /** The tables once the job is marked as running. */
  function Started(s: State, job: nat): State {
    SetStatus(s, job, Running, 0, false, true)
  }

  /** The offset a call resumes at. */
  function ResumeOffset(s: State, source: nat, latest: Option<nat>): nat {
    if latest.Some? && (source, latest.value) in s.checkpoints then s.checkpoints[(source, latest.value)].offset else 0
  }

  lemma Opened(s: State, job: nat, io: Io, latest: Option<nat>)
    requires s.runs == map[] && Admitted(s, job) && io.sourceRead && io.marked
    requires latest.Some? ==> IsLatest(s, s.jobs[job].source, latest.value)
    ensures var source := s.jobs[job].source;
      Opening(s, job, io, latest) == At(Started(s, job), job, source, Resuming(ResumeOffset(s, source, latest)))
  {
    var source := s.jobs[job].source;
    var s1 := Apply(s, Begin(0, job, true));
    assert s1 == At(s, job, source, Checked);
    var s2 := Apply(s1, MarkRunning(0, true));
    assert s2 == At(Started(s, job), job, source, Marked);
    if latest.Some? {
      assert IsLatest(s2, source, latest.value);
    }
  }

  /** What the Bronze row of a read says. */
  function BronzeRow(s: State, source: nat, offset: nat, atMost: nat): Row
    requires source in s.files
  {
    var from := StartOffset(offset, |s.files[source]|);
    var to := ReadEnd(from, |s.files[source]|, atMost);
    var records := LineRecords(Lines(s.files[source][from..to]));
    Row(source, Bronze, Records(records), |records|, [], None, from, to)
  }

  lemma PullFailed(s: State, job: nat, source: nat, offset: nat, io: Io)
    requires s.runs == map[] && (io.read.None? || source !in s.files)
    ensures Ingesting(At(s, job, source, Resuming(offset)), io) == SetStatus(s, job, Failed, 0, true, io.failureSaved)
  {
    var s1 := Apply(At(s, job, source, Resuming(offset)), Pull(0, io.read, io.failureSaved));
    assert s1 == SetStatus(s, job, Failed, 0, true, io.failureSaved);
    Idle(s1, io, None);
  }

  lemma PullAt(s: State, job: nat, source: nat, offset: nat, atMost: nat, failureSaved: bool)
    requires source in s.files
    ensures var row := BronzeRow(s, source, offset, atMost);
      Apply(At(s, job, source, Resuming(offset)), Pull(0, Some(atMost), failureSaved)) ==
        At(s, job, source, Pulled(row.from, row.to, row.payload.records))
  {
    var s1 := At(s, job, source, Resuming(offset));
    var row := BronzeRow(s, source, offset, atMost);
    assert Apply(s1, Pull(0, Some(atMost), failureSaved)) == WithStage(s1, 0, Pulled(row.from, row.to, row.payload.records));
  }

  lemma WriteBronzeAt(s: State, job: nat, source: nat, stage: Stage, outcome: Outcome, failureSaved: bool)
    requires stage.Pulled? && s.runs == map[]
    ensures var s' := WithRow(s, PulledRow(source, stage), outcome);
      Apply(At(s, job, source, stage), WriteBronze(0, outcome, failureSaved)) ==
        if outcome.Written? then At(s', job, source, BronzeWritten(stage.to, |s.rows|))
        else SetStatus(s', job, Failed, |stage.records|, true, failureSaved)
  {
    var s1 := At(s, job, source, stage);
    assert Apply(s1, WriteBronze(0, outcome, failureSaved)) == WritingBronze(s1, 0, s1.runs[0], outcome, failureSaved);
  }

  lemma Ingested(s: State, job: nat, source: nat, offset: nat, io: Io)
    requires source in s.files && s.runs == map[] && io.read.Some?
    ensures
      var row := BronzeRow(s, source, offset, io.read.value);
      var s' := WithRow(s, row, io.bronze);
      Ingesting(At(s, job, source, Resuming(offset)), io) ==
        if io.bronze.Written? then At(s', job, source, BronzeWritten(row.to, |s.rows|))
        else SetStatus(s', job, Failed, row.rowCount, true, io.failureSaved)
  {
    var row := BronzeRow(s, source, offset, io.read.value);
    PullAt(s, job, source, offset, io.read.value, io.failureSaved);
    WriteBronzeAt(s, job, source, Pulled(row.from, row.to, row.payload.records), io.bronze, io.failureSaved);
  }

  /** The tables after the Silver and Gold writes of a run whose Bronze row is `bronze`. */
  function Layers(s: State, source: nat, bronze: nat, io: Io): State
    requires bronze < |s.rows| && s.rows[bronze].payload.Records?
  {
    var s1 := WithRow(s, SilverRow(s, source, bronze), io.silver);
    if io.silver.Written? then WithRow(s1, GoldRow(s1, source, |s.rows|), io.gold) else s1
  }

  lemma Silvered(s: State, job: nat, source: nat, to: nat, bronze: nat, io: Io)
    requires bronze < |s.rows| && s.rows[bronze].payload.Records?
    ensures Apply(At(s, job, source, BronzeWritten(to, bronze)), WriteSilver(0, io.silver)) ==
      At(WithRow(s, SilverRow(s, source, bronze), io.silver), job, source,
         if io.silver.Written? then SilverWritten(to, bronze, |s.rows|) else Layered(to, bronze))
  {
    var s1 := At(s, job, source, BronzeWritten(to, bronze));
    assert Apply(s1, WriteSilver(0, io.silver)) == WritingSilver(s1, 0, s1.runs[0], io.silver);
    var s2 := WithRow(s, SilverRow(s, source, bronze), io.silver);
    assert WithRow(s1, SilverRow(s1, source, bronze), io.silver) == At(s2, job, source, s1.runs[0].stage);
    StageAt(s2, job, source, s1.runs[0].stage, if io.silver.Written? then SilverWritten(to, bronze, |s.rows|) else Layered(to, bronze));
  }

  lemma Gilded(s: State, job: nat, source: nat, to: nat, bronze: nat, silver: nat, io: Io)
    requires io.silver.Written? ==> silver < |s.rows| && s.rows[silver].payload.Records?
    ensures Apply(At(s, job, source, if io.silver.Written? then SilverWritten(to, bronze, silver) else Layered(to, bronze)), WriteGold(0, io.gold)) ==
      At(if io.silver.Written? then WithRow(s, GoldRow(s, source, silver), io.gold) else s, job, source, Layered(to, bronze))
  {
    if io.silver.Written? {
      var s1 := At(s, job, source, SilverWritten(to, bronze, silver));
      var s2 := WithRow(s, GoldRow(s, source, silver), io.gold);
      assert WithRow(s1, GoldRow(s1, source, silver), io.gold) == At(s2, job, source, SilverWritten(to, bronze, silver));
      StageAt(s2, job, source, SilverWritten(to, bronze, silver), Layered(to, bronze));
    }
  }

  lemma FinishAt(s: State, job: nat, source: nat, bronze: nat, ok: bool)
    requires s.runs == map[] && bronze < |s.rows|
    ensures Apply(At(s, job, source, Saved(bronze)), Finish(0, ok)) == SetStatus(s, job, Completed, s.rows[bronze].rowCount, false, ok)
  {
  }

  lemma Finished(s: State, job: nat, source: nat, to: nat, bronze: nat, io: Io)
    requires s.runs == map[] && bronze < |s.rows|
    ensures Apply(Apply(At(s, job, source, Layered(to, bronze)), SaveCheckpoint(0, io.checkpointSaved)), Finish(0, io.finished)) ==
      SetStatus(WithCheckpoint(s, source, job, to, io.checkpointSaved), job, Completed, s.rows[bronze].rowCount, false, io.finished)
  {
    var s1 := Apply(At(s, job, source, Layered(to, bronze)), SaveCheckpoint(0, io.checkpointSaved));
    assert s1 == At(WithCheckpoint(s, source, job, to, io.checkpointSaved), job, source, Saved(bronze));
    FinishAt(WithCheckpoint(s, source, job, to, io.checkpointSaved), job, source, bronze, io.finished);
  }

  lemma Closed(s: State, job: nat, source: nat, to: nat, bronze: nat, io: Io)
    requires bronze < |s.rows| && s.rows[bronze].payload.Records? && s.runs == map[]
    ensures Closing(At(s, job, source, BronzeWritten(to, bronze)), io) ==
      SetStatus(WithCheckpoint(Layers(s, source, bronze, io), source, job, to, io.checkpointSaved), job, Completed, s.rows[bronze].rowCount, false, io.finished)
  {
    Silvered(s, job, source, to, bronze, io);
    Gilded(WithRow(s, SilverRow(s, source, bronze), io.silver), job, source, to, bronze, |s.rows|, io);
    Finished(Layers(s, source, bronze, io), job, source, to, bronze, io);
  }

  /** The tables after a call that has pulled `row` has gone on as far as it gets. */
  function AfterPull(s: State, job: nat, source: nat, row: Row, io: Io): State
    requires row.payload.Records?
  {
    var s2 := WithRow(s, row, io.bronze);
    if !io.bronze.Written? then SetStatus(s2, job, Failed, row.rowCount, true, io.failureSaved)
    else
      var s3 := WithCheckpoint(Layers(s2, source, |s.rows|, io), source, job, row.to, io.checkpointSaved);
      SetStatus(s3, job, Completed, row.rowCount, false, io.finished)
  }

  /** The same for a call that knows its resume offset. */
  function Continued(s: State, job: nat, source: nat, offset: nat, io: Io): State {
    if io.read.None? || source !in s.files then SetStatus(s, job, Failed, 0, true, io.failureSaved)
    else AfterPull(s, job, source, BronzeRow(s, source, offset, io.read.value), io)
  }

  /** The tables after a call that is let in, in one piece. */
  function Performed(s: State, job: nat, io: Io, latest: Option<nat>): State
    requires Admitted(s, job)
  {
    var source := s.jobs[job].source;
    Continued(Started(s, job), job, source, ResumeOffset(s, source, latest), io)
  }

  lemma RunOnceIsPerformed(s: State, job: nat, io: Io, latest: Option<nat>)
    requires s.runs == map[] && Admitted(s, job) && io.sourceRead && io.marked
    requires latest.Some? ==> IsLatest(s, s.jobs[job].source, latest.value)
    ensures RunOnce(s, job, io, latest) == Performed(s, job, io, latest)
  {
    var source := s.jobs[job].source;
    var s1 := Started(s, job);
    var offset := ResumeOffset(s, source, latest);
    Opened(s, job, io, latest);
    if io.read.None? || source !in s.files {
      PullFailed(s1, job, source, offset, io);
      Idle(SetStatus(s1, job, Failed, 0, true, io.failureSaved), io, None);
    } else {
      Ingested(s1, job, source, offset, io);
      var row := BronzeRow(s1, source, offset, io.read.value);
      var s2 := WithRow(s1, row, io.bronze);
      if !io.bronze.Written? {
        Idle(SetStatus(s2, job, Failed, row.rowCount, true, io.failureSaved), io, None);
      } else {
        Closed(s2, job, source, row.to, |s.rows|, io);
      }
    }
  }

  /** Only the last status update of a call that has pulled something touches the jobs. */
  lemma JobAfterPull(s: State, job: nat, source: nat, row: Row, io: Io)
    requires row.payload.Records?
    ensures AfterPull(s, job, source, row, io).jobs ==
      if io.bronze.Written? then SetStatus(s, job, Completed, row.rowCount, false, io.finished).jobs
      else SetStatus(s, job, Failed, row.rowCount, true, io.failureSaved).jobs
  {
    hide SilverRow, GoldRow, Upserted, Progressed;
    var s2 := WithRow(s, row, io.bronze);
    assert s2.jobs == s.jobs && s2.clock == s.clock;
  }

  /**
   * The job row after a call that is let in. A call that ends at the pull or at Bronze
   * leaves it Failed, with an error and an end; one that gets to its last statement leaves
   * it Completed; and if that status cannot be saved it stays Running. No other row changes.
   */
  lemma JobAfterCall(s: State, job: nat, io: Io, latest: Option<nat>)
    requires s.runs == map[] && job in s.jobs && s.jobs[job].status in {Pending, Failed, Paused} && io.sourceRead && io.marked
    requires latest.Some? ==> IsLatest(s, s.jobs[job].source, latest.value)
    ensures var was, t := s.jobs[job], RunOnce(s, job, io, latest);
      var pulled := io.read.Some? && was.source in s.files;
      var failed := !pulled || !io.bronze.Written?;
      && t.jobs.Keys == s.jobs.Keys && (forall j :: j in s.jobs && j != job ==> t.jobs[j] == s.jobs[j])
      && t.jobs[job].status == (if failed && io.failureSaved then Failed else if !failed && io.finished then Completed else Running)
      && t.jobs[job].source == was.source && t.jobs[job].startedAt == (if was.startedAt.Some? then was.startedAt else Some(s.clock))
      && t.jobs[job].completedAt == (if t.jobs[job].status == Running then was.completedAt else Some(s.clock))
      && (t.jobs[job].error <==> t.jobs[job].status == Failed)
      && t.jobs[job].expected == t.jobs[job].ingested
      && t.jobs[job].ingested == (if !pulled || t.jobs[job].status == Running then 0
           else BronzeRow(s, was.source, ResumeOffset(s, was.source, latest), io.read.value).rowCount)
  {
    hide ResumeOffset, BronzeRow, AfterPull, RunOnce;
    RunOnceIsPerformed(s, job, io, latest);
    var source, offset := s.jobs[job].source, ResumeOffset(s, s.jobs[job].source, latest);
    if io.read.Some? && source in s.files {
      SameBronzeRow(s, Started(s, job), source, latest, io.read.value);
      JobAfterPull(Started(s, job), job, source, BronzeRow(s, source, offset, io.read.value), io);
    }
  }

  /** What is read does not depend on the jobs. */
  lemma SameBronzeRow(s: State, t: State, source: nat, latest: Option<nat>, atMost: nat)
    requires source in s.files && t == s.(jobs := t.jobs)
    ensures ResumeOffset(t, source, latest) == ResumeOffset(s, source, latest) && BronzeRow(s, source, ResumeOffset(s, source, latest), atMost).payload.Records?
    ensures BronzeRow(t, source, ResumeOffset(s, source, latest), atMost) == BronzeRow(s, source, ResumeOffset(s, source, latest), atMost)
  {
  }

  function RunEvents(job: nat, io: Io, latest: Option<nat>): seq<Event> {
    [Begin(0, job, io.sourceRead), MarkRunning(0, io.marked), ReadCheckpoint(0, latest),
     Pull(0, io.read, io.failureSaved), WriteBronze(0, io.bronze, io.failureSaved),
     WriteSilver(0, io.silver), WriteGold(0, io.gold), SaveCheckpoint(0, io.checkpointSaved), Finish(0, io.finished)]
  }

  lemma {:induction false} ExecConcat(s: State, es: seq<Event>, fs: seq<Event>)
    ensures Exec(s, es + fs) == Exec(Exec(s, es), fs)
  {
    if fs == [] {
      assert es + fs == es;
    } else {
      var front := fs[..|fs| - 1];
      ExecConcat(s, es, front);
      assert es + fs == (es + front) + [fs[|fs| - 1]];
      ExecSnoc(s, es + front, fs[|fs| - 1]);
    }
  }

  lemma ExecOne(s: State, e: Event)
    ensures Exec(s, [e]) == Apply(s, e)
  {
    assert [e] == [] + [e];
    ExecSnoc(s, [], e);
  }

  lemma ExecThree(s: State, a: Event, b: Event, c: Event)
    ensures Exec(s, [a, b, c]) == Apply(Apply(Apply(s, a), b), c)
  {
    ExecOne(s, a);
    ExecSnoc(s, [a], b);
    ExecSnoc(s, [a, b], c);
    assert [a] + [b] == [a, b] && [a, b] + [c] == [a, b, c];
  }

  /** A sequential call is one of the runs of the protocol. */
  lemma RunOnceIsExec(s: State, job: nat, io: Io, latest: Option<nat>)
    ensures RunOnce(s, job, io, latest) == Exec(s, RunEvents(job, io, latest))
  {
    var es := RunEvents(job, io, latest);
    ExecThree(s, es[0], es[1], es[2]);
    ExecThree(Exec(s, es[..3]), es[3], es[4], es[5]);
    ExecThree(Exec(Exec(s, es[..3]), es[3..6]), es[6], es[7], es[8]);
    assert es[..3] == [es[0], es[1], es[2]] && es[3..6] == [es[3], es[4], es[5]] && es[6..] == [es[6], es[7], es[8]];
    ExecConcat(Exec(s, es[..3]), es[3..6], es[6..]);
    ExecConcat(s, es[..3], es[3..6] + es[6..]);
    assert es == es[..3] + (es[3..6] + es[6..]);
  }
}
