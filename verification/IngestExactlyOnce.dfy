/**
 * Sequential runs over one append-only log: what ends up in Bronze, counted in
 * bytes and counted in lines.
 */
module IngestExactlyOnce {
  import opened Prelude
  import opened Runs
  import opened LogFile
  import opened IngestProtocol
  import opened IngestRuns
  import S = Silver
  import Utf8

  /** Some bytes arrive in some log, time passes, and then one RunJob call runs by itself. */
  datatype Round = Round(log: nat, arriving: string, job: nat, io: Io, latest: Option<nat>)

  function Before(s: State, r: Round): State {
    Apply(Apply(s, Append(r.log, r.arriving)), Tick)
  }

  /** The steps of the round's call, one after the other. */
  function Call(s: State, r: Round): State {
    Exec(s, RunEvents(r.job, r.io, r.latest))
  }

  function Play(s: State, rs: seq<Round>): State {
    if rs == [] then s
    else
      var r := rs[|rs| - 1];
      Call(Before(Play(s, rs[..|rs| - 1]), r), r)
  }

  /** The call is let in. */
  predicate LetIn(s: State, r: Round) {
    Admitted(s, r.job) && r.io.sourceRead && r.io.marked
  }

  /**
   * A call that is let in resumes from a newest checkpoint of its source. If the source
   * is the one in question, the checkpoint lookup works and nothing fails between the
   * Bronze write and the saved checkpoint; calls on other sources fail as they like.
   */
  predicate Smooth(s: State, source: nat, r: Round) {
    LetIn(s, r) ==>
      && (r.latest.Some? ==> IsLatest(s, s.jobs[r.job].source, r.latest.value))
      && (s.jobs[r.job].source == source ==>
            && (r.latest.None? ==> forall k | k in s.checkpoints :: k.0 != source)
            && (r.io.bronze.NotWritten? || (r.io.bronze.Written? && r.io.checkpointSaved)))
  }

  predicate AllSmooth(s: State, source: nat, rs: seq<Round>) {
    rs == [] ||
    (AllSmooth(s, source, rs[..|rs| - 1]) && Smooth(Before(Play(s, rs[..|rs| - 1]), rs[|rs| - 1]), source, rs[|rs| - 1]))
  }

  /** The bytes of a log; one that is not there yet has none. */
  function LogOf(s: State, source: nat): string {
    if source in s.files then s.files[source] else ""
  }

  /** The Bronze rows of a source, oldest first. */
  function BronzeOf(rows: seq<Row>, source: nat): seq<Row> {
    if rows == [] then []
    else
      var r := rows[|rows| - 1];
      BronzeOf(rows[..|rows| - 1], source) + if r.layer.Bronze? && r.source == source then [r] else []
  }

  lemma BronzeOfSnoc(rows: seq<Row>, r: Row, source: nat)
    ensures BronzeOf(rows + [r], source) == BronzeOf(rows, source) + if r.layer.Bronze? && r.source == source then [r] else []
  {
    assert (rows + [r])[..|rows|] == rows;
  }

  /** The stretches read tile the first `c` bytes: each starts where the one before stopped. */
  predicate Tiled(rs: seq<Row>, c: nat) {
    if rs == [] then c == 0
    else rs[|rs| - 1].to == c && rs[|rs| - 1].from <= c && Tiled(rs[..|rs| - 1], rs[|rs| - 1].from)
  }

  /** Everything read so far of `source` is the first `c` bytes, each byte once, and the next run resumes at `c`. */
  ghost predicate Level(s: State, source: nat, c: nat) {
    && Inv(s) && s.runs == map[]
    && c <= |LogOf(s, source)|
    && Tiled(BronzeOf(s.rows, source), c)
    && (forall k :: k in s.checkpoints && k.0 == source ==> s.checkpoints[k].offset <= c && s.checkpoints[k].updatedAt <= s.clock)
    && (forall job :: IsLatest(s, source, job) ==> s.checkpoints[(source, job)].offset == c)
    && ((forall k :: k in s.checkpoints ==> k.0 != source) ==> c == 0)
  }

  lemma BeforeLevel(s: State, source: nat, r: Round, c: nat)
    requires Level(s, source, c)
    ensures Level(Before(s, r), source, c)
    ensures Before(s, r).clock == s.clock + 1
    ensures Before(s, r).checkpoints == s.checkpoints
  {
    var t := Before(s, r);
    StepKeepsInv(s, Append(r.log, r.arriving));
    StepKeepsInv(Apply(s, Append(r.log, r.arriving)), Tick);
    forall job | IsLatest(t, source, job)
      ensures s.checkpoints[(source, job)].offset == c
    {
      assert IsLatest(s, source, job);
    }
  }

  lemma DerivedRow(s: State, row: Row, outcome: Outcome, source: nat)
    requires !row.layer.Bronze?
    ensures BronzeOf(WithRow(s, row, outcome).rows, source) == BronzeOf(s.rows, source)
  {
    BronzeOfSnoc(s.rows, AsWritten(row, outcome), source);
  }

  /** Silver and Gold rows leave the Bronze history alone. */
  lemma LayersBronze(s: State, own: nat, bronze: nat, io: Io, source: nat)
    requires bronze < |s.rows| && s.rows[bronze].payload.Records?
    ensures BronzeOf(Layers(s, own, bronze, io).rows, source) == BronzeOf(s.rows, source)
    ensures Layers(s, own, bronze, io) == s.(rows := Layers(s, own, bronze, io).rows)
  {
    var silver := SilverRow(s, own, bronze);
    var s1 := WithRow(s, silver, io.silver);
    DerivedRow(s, silver, io.silver, source);
    if io.silver.Written? {
      DerivedRow(s1, GoldRow(s1, own, |s.rows|), io.gold, source);
    }
  }

  /** The state that only differs from `s` in job rows is just as level. */
  lemma JobsLevel(s: State, t: State, source: nat, c: nat)
    requires Level(s, source, c) && Inv(t)
    requires t == s.(jobs := t.jobs)
    ensures Level(t, source, c)
  {
    forall job | IsLatest(t, source, job)
      ensures s.checkpoints[(source, job)].offset == c
    {
      assert IsLatest(s, source, job);
    }
  }

  /** Saving the checkpoint after the matching Bronze row moves the level up to it. */
  lemma SavedLevel(s: State, t: State, source: nat, job: nat, c: nat, to: nat)
    requires Level(s, source, c) && Inv(t) && c <= to
    requires forall k :: k in s.checkpoints && k.0 == source ==> s.checkpoints[k].updatedAt < s.clock
    requires t.runs == map[] && t.clock == s.clock && to <= |LogOf(t, source)|
    requires Tiled(BronzeOf(t.rows, source), to)
    requires t.checkpoints == s.checkpoints[(source, job) := Upserted(s, source, job, to)]
    ensures Level(t, source, to)
  {
    var key := (source, job);
    if key in s.checkpoints && s.checkpoints[key].offset == to {
      assert t.checkpoints == s.checkpoints;
      forall j | IsLatest(t, source, j)
        ensures t.checkpoints[(source, j)].offset == to
      {
        assert IsLatest(s, source, j);
      }
    } else {
      assert t.checkpoints[key] == Checkpoint(to, s.clock);
      forall j | IsLatest(t, source, j)
        ensures t.checkpoints[(source, j)].offset == to
      {
        assert j == job;
      }
    }
    assert key in t.checkpoints;
  }

  lemma OtherRow(s: State, row: Row, outcome: Outcome, source: nat)
    requires row.source != source
    ensures BronzeOf(WithRow(s, row, outcome).rows, source) == BronzeOf(s.rows, source)
  {
    BronzeOfSnoc(s.rows, AsWritten(row, outcome), source);
  }

  /** What a call on another source leaves alone. */
  ghost predicate SameFor(s: State, t: State, source: nat) {
    && t.files == s.files && t.clock == s.clock && t.runs == s.runs
    && BronzeOf(t.rows, source) == BronzeOf(s.rows, source)
    && forall k: (nat, nat) :: k.0 == source ==> (k in t.checkpoints <==> k in s.checkpoints) && (k in s.checkpoints ==> t.checkpoints[k] == s.checkpoints[k])
  }

  lemma SameForCheckpoint(s: State, t: State, own: nat, job: nat, offset: nat, saved: bool, source: nat)
    requires SameFor(s, t, source) && own != source
    ensures SameFor(s, WithCheckpoint(t, own, job, offset, saved), source)
  {
  }

  lemma SameForStatus(s: State, t: State, job: nat, status: Status, rows: nat, error: bool, saved: bool, source: nat)
    requires SameFor(s, t, source)
    ensures SameFor(s, SetStatus(t, job, status, rows, error, saved), source)
  {
  }

  lemma SameForLayers(s: State, t: State, own: nat, bronze: nat, io: Io, source: nat)
    requires SameFor(s, t, source) && bronze < |t.rows| && t.rows[bronze].payload.Records?
    ensures SameFor(s, Layers(t, own, bronze, io), source)
  {
    LayersBronze(t, own, bronze, io, source);
  }

  /** A call on another source adds no Bronze row and touches no checkpoint of this one. */
  lemma ContinuedElsewhere(s: State, job: nat, own: nat, offset: nat, io: Io, source: nat)
    requires own != source
    ensures SameFor(s, Continued(s, job, own, offset, io), source)
  {
    if io.read.None? || own !in s.files {
      SameForStatus(s, s, job, Failed, 0, true, io.failureSaved, source);
    } else {
      var row := BronzeRow(s, own, offset, io.read.value);
      var s2 := WithRow(s, row, io.bronze);
      OtherRow(s, row, io.bronze, source);
      if !io.bronze.Written? {
        SameForStatus(s, s2, job, Failed, row.rowCount, true, io.failureSaved, source);
      } else {
        assert s2.rows[|s.rows|] == row;
        var s3 := Layers(s2, own, |s.rows|, io);
        SameForLayers(s, s2, own, |s.rows|, io, source);
        SameForCheckpoint(s, s3, own, job, row.to, io.checkpointSaved, source);
        SameForStatus(s, WithCheckpoint(s3, own, job, row.to, io.checkpointSaved), job, Completed, row.rowCount, false, io.finished, source);
      }
    }
  }

  lemma ElsewhereLevel(s: State, source: nat, r: Round, c: nat)
    requires Level(s, source, c) && Admitted(s, r.job) && s.jobs[r.job].source != source
    requires Inv(Performed(s, r.job, r.io, r.latest))
    ensures Level(Performed(s, r.job, r.io, r.latest), source, c)
  {
    var t := Performed(s, r.job, r.io, r.latest);
    var own := s.jobs[r.job].source;
    ContinuedElsewhere(Started(s, r.job), r.job, own, ResumeOffset(s, own, r.latest), r.io, source);
    assert SameFor(s, t, source);
    forall job | IsLatest(t, source, job)
      ensures t.checkpoints[(source, job)].offset == c
    {
      assert IsLatest(s, source, job);
    }
    if forall k :: k in t.checkpoints ==> k.0 != source {
      assert forall k :: k in s.checkpoints ==> k.0 != source;
    }
  }

  lemma RoundLevel(s: State, source: nat, r: Round, c: nat) returns (c': nat)
    requires Level(s, source, c)
    requires forall k :: k in s.checkpoints && k.0 == source ==> s.checkpoints[k].updatedAt < s.clock
    requires Smooth(s, source, r)
    ensures Level(Call(s, r), source, c') && c <= c'
  {
    ExecKeepsInv(s, RunEvents(r.job, r.io, r.latest));
    RunOnceIsExec(s, r.job, r.io, r.latest);
    if !LetIn(s, r) {
      c' := c;
      TurnedAway(s, r.job, r.io, r.latest);
    } else {
      RunOnceIsPerformed(s, r.job, r.io, r.latest);
      c' := PerformedLevel(s, source, r, c);
    }
  }

  lemma PerformedLevel(s: State, source: nat, r: Round, c: nat) returns (c': nat)
    requires Level(s, source, c)
    requires forall k :: k in s.checkpoints && k.0 == source ==> s.checkpoints[k].updatedAt < s.clock
    requires Smooth(s, source, r) && LetIn(s, r) && Inv(Performed(s, r.job, r.io, r.latest))
    ensures Level(Performed(s, r.job, r.io, r.latest), source, c') && c <= c'
  {
    var t := Performed(s, r.job, r.io, r.latest);
    c' := c;
    if s.jobs[r.job].source != source {
      ElsewhereLevel(s, source, r, c);
    } else {
      assert ResumeOffset(s, source, r.latest) == c;
      if r.io.read.None? || source !in s.files || r.io.bronze.NotWritten? {
        assert t == s.(jobs := t.jobs);
        JobsLevel(s, t, source, c);
      } else {
        c' := IngestLevel(s, source, r, c);
      }
    }
  }

  /** The tables a successful ingest leaves: one more Bronze row, and the checkpoint at its end. */
  lemma IngestTables(s: State, source: nat, r: Round) returns (row: Row)
    requires Admitted(s, r.job) && s.jobs[r.job].source == source && source in s.files
    requires r.io.read.Some? && r.io.bronze.Written? && r.io.checkpointSaved
    ensures var t := Performed(s, r.job, r.io, r.latest);
      && row == BronzeRow(s, source, ResumeOffset(s, source, r.latest), r.io.read.value)
      && BronzeOf(t.rows, source) == BronzeOf(s.rows, source) + [row]
      && t.checkpoints == s.checkpoints[(source, r.job) := Upserted(s, source, r.job, row.to)]
      && t.files == s.files && t.clock == s.clock && t.runs == s.runs
  {
    var s1 := Started(s, r.job);
    row := BronzeRow(s1, source, ResumeOffset(s, source, r.latest), r.io.read.value);
    var s2 := WithRow(s1, row, r.io.bronze);
    assert s2.rows == s.rows + [row];
    LayersBronze(s2, source, |s.rows|, r.io, source);
    BronzeOfSnoc(s.rows, row, source);
  }

  lemma IngestLevel(s: State, source: nat, r: Round, c: nat) returns (c': nat)
    requires Level(s, source, c)
    requires forall k :: k in s.checkpoints && k.0 == source ==> s.checkpoints[k].updatedAt < s.clock
    requires Smooth(s, source, r) && LetIn(s, r) && s.jobs[r.job].source == source && source in s.files
    requires ResumeOffset(s, source, r.latest) == c
    requires r.io.read.Some? && r.io.bronze.Written?
    requires Inv(Performed(s, r.job, r.io, r.latest))
    ensures Level(Performed(s, r.job, r.io, r.latest), source, c') && c <= c'
  {
    var row := IngestTables(s, source, r);
    c' := row.to;
    var bronze := BronzeOf(s.rows, source);
    assert (bronze + [row])[..|bronze|] == bronze;
    SavedLevel(s, Performed(s, r.job, r.io, r.latest), source, r.job, c, c');
  }

  /** Byte by byte: after any sequence of smooth rounds the Bronze rows tile the log up to the checkpoint. */
  lemma {:induction false} SequentialTiles(s: State, source: nat, rs: seq<Round>, t: State) returns (c: nat)
    requires Initial(s) && AllSmooth(s, source, rs) && t == Play(s, rs)
    ensures Level(t, source, c)
  {
    if rs == [] {
      c := 0;
      assert forall job :: !IsLatest(s, source, job);
    } else {
      var front, r := rs[..|rs| - 1], rs[|rs| - 1];
      var t0 := Play(s, front);
      var c0 := SequentialTiles(s, source, front, t0);
      BeforeLevel(t0, source, r, c0);
      c := RoundLevel(Before(t0, r), source, r, c0);
    }
  }

  // ------------------------------------------------------------------- lines

  /** All records of the given Bronze rows, in order. */
  function Collected(rs: seq<Row>): seq<S.Record> {
    if rs == [] then []
    else Collected(rs[..|rs| - 1]) + if rs[|rs| - 1].payload.Records? then rs[|rs| - 1].payload.records else []
  }

  /** The read starts inside a line: the byte before it and its first byte belong to the same one. */
  predicate Torn(f: string, r: Row) {
    0 < r.from < r.to && r.from < |f| && f[r.from - 1] != '\n' && f[r.from] != '\n'
  }

  function TornReads(f: string, rs: seq<Row>): nat {
    if rs == [] then 0 else TornReads(f, rs[..|rs| - 1]) + if Torn(f, rs[|rs| - 1]) then 1 else 0
  }

  ghost predicate AllReadFrom(f: string, rs: seq<Row>) {
    forall k :: 0 <= k < |rs| ==>
      rs[k].from <= rs[k].to <= |f| && rs[k].payload == Records(LineRecords(Lines(f[rs[k].from..rs[k].to])))
  }

  lemma LineRecordsConcat(a: seq<string>, b: seq<string>)
    ensures LineRecords(a + b) == LineRecords(a) + LineRecords(b)
  {
  }

  /** One more read of the tile that follows: the lines up to its end, from the lines up to its start. */
  lemma OneMoreRead(f: string, r: Row)
    requires r.from <= r.to <= |f|
    ensures |Lines(f[..r.from])| + |Lines(f[r.from..r.to])| == |Lines(f[..r.to])| + if Torn(f, r) then 1 else 0
    ensures !Torn(f, r) ==> Lines(f[..r.to]) == Lines(f[..r.from]) + Lines(f[r.from..r.to])
  {
    var g := f[..r.to];
    assert g[..r.from] == f[..r.from] && g[r.from..] == f[r.from..r.to];
    ResumeCommutes(g, r.from);
  }

  lemma TornSnoc(f: string, rs: seq<Row>, r: Row)
    ensures TornReads(f, rs + [r]) == TornReads(f, rs) + if Torn(f, r) then 1 else 0
  {
    assert (rs + [r])[..|rs|] == rs;
  }

  /** `whole(n)` standing for the records of the first `n` bytes: the read adds its own, and one more if it is torn. */
  predicate Continues(f: string, whole: nat -> seq<S.Record>, r: Row) {
    && r.payload.Records?
    && |whole(r.from)| + |r.payload.records| == |whole(r.to)| + (if Torn(f, r) then 1 else 0)
    && (!Torn(f, r) ==> whole(r.to) == whole(r.from) + r.payload.records)
  }

  lemma {:induction false} TiledRecords(f: string, rs: seq<Row>, c: nat, whole: nat -> seq<S.Record>)
    requires Tiled(rs, c) && whole(0) == [] && forall k :: 0 <= k < |rs| ==> Continues(f, whole, rs[k])
    ensures |Collected(rs)| == |whole(c)| + TornReads(f, rs)
    ensures TornReads(f, rs) == 0 ==> Collected(rs) == whole(c)
  {
    if rs != [] {
      var front, r := rs[..|rs| - 1], rs[|rs| - 1];
      TiledRecords(f, front, r.from, whole);
      assert Continues(f, whole, r);
    }
  }

  /** Line by line: each torn read adds one record too many, and without any the records are the lines. */
  lemma TiledLines(f: string, rs: seq<Row>, c: nat)
    requires Tiled(rs, c) && c <= |f| && AllReadFrom(f, rs)
    ensures |Collected(rs)| == |Lines(f[..c])| + TornReads(f, rs)
    ensures TornReads(f, rs) == 0 ==> Collected(rs) == LineRecords(Lines(f[..c]))
  {
    var whole := (n: nat) => if n <= |f| then LineRecords(Lines(f[..n])) else [];
    assert f[..0] == "";
    forall k | 0 <= k < |rs|
      ensures Continues(f, whole, rs[k])
    {
      OneMoreRead(f, rs[k]);
      LineRecordsConcat(Lines(f[..rs[k].from]), Lines(f[rs[k].from..rs[k].to]));
    }
    TiledRecords(f, rs, c, whole);
  }

  lemma {:induction false} NoTornReads(f: string, rs: seq<Row>)
    ensures TornReads(f, rs) == 0 <==> forall k :: 0 <= k < |rs| ==> !Torn(f, rs[k])
  {
    if rs != [] {
      NoTornReads(f, rs[..|rs| - 1]);
    }
  }

  lemma {:induction false} BronzeReadFrom(s: State, source: nat, n: nat)
    requires Inv(s) && n <= |s.rows|
    ensures AllReadFrom(LogOf(s, source), BronzeOf(s.rows[..n], source))
  {
    if n > 0 {
      BronzeReadFrom(s, source, n - 1);
      assert s.rows[..n][..n - 1] == s.rows[..n - 1];
      assert RowOk(s, n - 1);
    }
  }

  /**
   * Exactly once. After any sequence of smooth rounds the next run resumes at some
   * offset `c`, and the records of all runs, end to end, are the lines of the first
   * `c` bytes, each once and in order, if and only if no read started inside a line.
   * Otherwise there is exactly one record too many for every read that did.
   */
  lemma ExactlyOnce(s: State, source: nat, rs: seq<Round>, t: State) returns (c: nat)
    requires Initial(s) && AllSmooth(s, source, rs) && t == Play(s, rs)
    ensures
      && c <= |LogOf(t, source)|
      && (forall job :: IsLatest(t, source, job) ==> t.checkpoints[(source, job)].offset == c)
      && var bronze, f := BronzeOf(t.rows, source), LogOf(t, source);
         && (Collected(bronze) == LineRecords(Lines(f[..c])) <==> forall k :: 0 <= k < |bronze| ==> !Torn(f, bronze[k]))
         && |Collected(bronze)| == |Lines(f[..c])| + TornReads(f, bronze)
  {
    c := SequentialTiles(s, source, rs, t);
    var bronze, f := BronzeOf(t.rows, source), LogOf(t, source);
    assert t.rows[..|t.rows|] == t.rows;
    BronzeReadFrom(t, source, |t.rows|);
    TiledLines(f, bronze, c);
    NoTornReads(f, bronze);
  }

  /** Once the whole log is read, it has as many records as it has lines, and one more for every torn read. */
  lemma AllReadCounted(s: State, source: nat, rs: seq<Round>, t: State, job: nat)
    requires Initial(s) && AllSmooth(s, source, rs) && t == Play(s, rs)
    requires IsLatest(t, source, job) && t.checkpoints[(source, job)].offset == |LogOf(t, source)|
    ensures |Collected(BronzeOf(t.rows, source))| == |Lines(LogOf(t, source))| + TornReads(LogOf(t, source), BronzeOf(t.rows, source))
  {
    var c := ExactlyOnce(s, source, rs, t);
    assert LogOf(t, source)[..c] == LogOf(t, source);
  }

  lemma ContinuedJobs(s: State, job: nat, source: nat, offset: nat, io: Io, other: nat)
    requires other in s.jobs && other != job
    ensures other in Continued(s, job, source, offset, io).jobs && Continued(s, job, source, offset, io).jobs[other] == s.jobs[other]
  {
    if io.read.Some? && source in s.files && io.bronze.Written? {
      var row := BronzeRow(s, source, offset, io.read.value);
      var s2 := WithRow(s, row, io.bronze);
      assert s2.jobs == s.jobs && s2.rows[|s.rows|] == row;
      LayersBronze(s2, source, |s.rows|, io, source);
      var s3 := WithCheckpoint(Layers(s2, source, |s.rows|, io), source, job, row.to, io.checkpointSaved);
      assert s3.jobs == s.jobs;
    }
  }

  /** A call in which nothing fails and whose read returns up to that many bytes. */
  function AllGoesWell(atMost: nat): Io {
    Io(true, true, true, Some(atMost), Written, Written, Written, true, true, true)
  }

  const NEW_JOB := Job(1, Pending, 0, 0, false, None, None)

  /** Two jobs of source 1, and nothing ingested. */
  predicate TwoJobs(s: State) {
    Initial(s) && s.clock == 0 && s.files == map[] && s.jobs == map[1 := NEW_JOB, 2 := NEW_JOB]
  }

  /** What a round of source 1 that goes well leaves, given the offset it resumes at. */
  lemma GoodRound(s: State, r: Round, n: nat) returns (t: State, row: Row)
    requires s.runs == map[] && r.job in s.jobs && s.jobs[r.job] == NEW_JOB
    requires r.log == 1 && r.io == AllGoesWell(n) && |LogOf(s, 1)| + |r.arriving| <= n
    requires r.latest.Some? ==> IsLatest(s, 1, r.latest.value)
    requires r.latest.None? ==> s.checkpoints == map[]
    requires ResumeOffset(s, 1, r.latest) <= |LogOf(s, 1)|
    ensures Smooth(Before(s, r), 1, r) && t == Call(Before(s, r), r)
    ensures LogOf(t, 1) == LogOf(s, 1) + r.arriving && t.runs == map[] && t.clock == s.clock + 1
    ensures row.from == ResumeOffset(s, 1, r.latest) && row.to == |LogOf(t, 1)|
    ensures BronzeOf(t.rows, 1) == BronzeOf(s.rows, 1) + [row]
    ensures t.checkpoints == s.checkpoints[(1, r.job) := Upserted(Before(s, r), 1, r.job, row.to)]
    ensures forall other :: other in s.jobs && other != r.job ==> other in t.jobs && t.jobs[other] == s.jobs[other]
  {
    hide Exec, Lines, Utf8.Stored;
    var s1 := Before(s, r);
    assert LogOf(s1, 1) == LogOf(s, 1) + r.arriving;
    assert s1.jobs == s.jobs && s1.checkpoints == s.checkpoints && s1.rows == s.rows && s1.runs == map[];
    assert r.latest.Some? ==> IsLatest(s1, 1, r.latest.value);
    RunOnceIsExec(s1, r.job, r.io, r.latest);
    RunOnceIsPerformed(s1, r.job, r.io, r.latest);
    t := Performed(s1, r.job, r.io, r.latest);
    row := IngestTables(s1, 1, r);
    forall other | other in s.jobs && other != r.job
      ensures other in t.jobs && t.jobs[other] == s.jobs[other]
    {
      ContinuedJobs(Started(s1, r.job), r.job, 1, ResumeOffset(s1, 1, r.latest), r.io, other);
    }
  }

  lemma PlayOn(s: State, rs: seq<Round>, t: State, r: Round, u: State)
    requires AllSmooth(s, 1, rs) && t == Play(s, rs)
    requires Smooth(Before(t, r), 1, r) && u == Call(Before(t, r), r)
    ensures AllSmooth(s, 1, rs + [r]) && u == Play(s, rs + [r])
  {
    assert (rs + [r])[..|rs|] == rs;
  }

  lemma PlayFirst(s: State, r: Round, t: State) returns (rs: seq<Round>)
    requires Smooth(Before(s, r), 1, r) && t == Call(Before(s, r), r)
    ensures AllSmooth(s, 1, rs) && t == Play(s, rs)
  {
    PlayOn(s, [], s, r, t);
    rs := [] + [r];
  }

  lemma FirstRound(s: State, a: string, n: nat) returns (rs: seq<Round>, t: State, row: Row)
    requires TwoJobs(s) && |a| <= n
    ensures AllSmooth(s, 1, rs) && t == Play(s, rs)
    ensures LogOf(t, 1) == a && t.runs == map[] && t.clock == 1
    ensures row.from == 0 && row.to == |a| && BronzeOf(t.rows, 1) == [row]
    ensures t.checkpoints == map[(1, 1) := Checkpoint(|a|, 1)] && 2 in t.jobs && t.jobs[2] == NEW_JOB
  {
    var r := Round(1, a, 1, AllGoesWell(n), None);
    t, row := GoodRound(s, r, n);
    assert "" + a == a && BronzeOf(s.rows, 1) + [row] == [row];
    assert Upserted(Before(s, r), 1, 1, row.to) == Checkpoint(row.to, 1);
    rs := PlayFirst(s, r, t);
  }

  lemma SecondRound(s: State, rs1: seq<Round>, t1: State, row1: Row, b: string, n: nat) returns (rs: seq<Round>, t: State, row: Row)
    requires AllSmooth(s, 1, rs1) && t1 == Play(s, rs1)
    requires |LogOf(t1, 1)| + |b| <= n && row1.to == |LogOf(t1, 1)|
    requires t1.runs == map[] && t1.clock == 1 && t1.checkpoints == map[(1, 1) := Checkpoint(row1.to, 1)]
    requires BronzeOf(t1.rows, 1) == [row1] && 2 in t1.jobs && t1.jobs[2] == NEW_JOB
    ensures AllSmooth(s, 1, rs) && t == Play(s, rs)
    ensures LogOf(t, 1) == LogOf(t1, 1) + b && row.from == row1.to && row.to == |LogOf(t, 1)|
    ensures BronzeOf(t.rows, 1) == [row1, row]
    ensures IsLatest(t, 1, 2) && t.checkpoints[(1, 2)].offset == |LogOf(t, 1)|
  {
    var r := Round(1, b, 2, AllGoesWell(n), Some(1));
    t, row := GoodRound(t1, r, n);
    assert Upserted(Before(t1, r), 1, 2, row.to) == Checkpoint(row.to, 2);
    PlayOn(s, rs1, t1, r, t);
    rs := rs1 + [r];
  }

  lemma TwoRounds(s: State, a: string, b: string) returns (rs: seq<Round>, t: State, row1: Row, row2: Row)
    requires TwoJobs(s)
    ensures AllSmooth(s, 1, rs) && t == Play(s, rs)
    ensures LogOf(t, 1) == a + b && BronzeOf(t.rows, 1) == [row1, row2]
    ensures row1.from == 0 && row1.to == row2.from == |a| && row2.to == |a + b|
    ensures IsLatest(t, 1, 2) && t.checkpoints[(1, 2)].offset == |a + b|
  {
    var rs1, t1;
    rs1, t1, row1 := FirstRound(s, a, |a + b|);
    rs, t, row2 := SecondRound(s, rs1, t1, row1, b, |a + b|);
  }

  /** A line that is still being written when the first of two reads ends comes out as two records. */
  lemma TornLineComesTwice(s: State, a: string, b: string) returns (rs: seq<Round>, t: State)
    requires TwoJobs(s)
    requires a != "" && b != "" && a[|a| - 1] != '\n' && b[0] != '\n'
    ensures AllSmooth(s, 1, rs) && t == Play(s, rs)
    ensures LogOf(t, 1) == a + b && |Collected(BronzeOf(t.rows, 1))| == |Lines(a + b)| + 1
  {
    var row1, row2;
    rs, t, row1, row2 := TwoRounds(s, a, b);
    AllReadCounted(s, 1, rs, t, 2);
    TornTwo(a + b, row1, row2);
  }

  lemma TornTwo(f: string, row1: Row, row2: Row)
    ensures TornReads(f, [row1, row2]) == (if Torn(f, row1) then 1 else 0) + if Torn(f, row2) then 1 else 0
  {
    TornSnoc(f, [], row1);
    TornSnoc(f, [row1], row2);
    assert [] + [row1] == [row1] && [row1] + [row2] == [row1, row2];
  }

  lemma LinesOfOne(c: char)
    requires c != '\n'
    ensures Lines([c]) == [[c]]
  {
    assert [c][..0] == "" && Texts(LineByte, "") == [] && !Open(LineByte, "");
    assert [] + [[c]] == [[c]];
  }

  lemma CollectedTwo(row1: Row, row2: Row, r1: seq<S.Record>, r2: seq<S.Record>)
    requires row1.payload == Records(r1) && row2.payload == Records(r2)
    ensures Collected([row1, row2]) == r1 + r2
  {
    assert [row1, row2][..1] == [row1] && [row1][..0] == [];
    assert Collected([row1]) == [] + r1;
  }

  /** A character whose two bytes arrive one read apart is lost, though the log is valid: each half is stored as U+FFFD. */
  lemma CutCharacterLost(s: State) returns (rs: seq<Round>, t: State)
    requires TwoJobs(s)
    ensures AllSmooth(s, 1, rs) && t == Play(s, rs)
    ensures Utf8.Valid(LogOf(t, 1)) && LogOf(t, 1) == [0xC3 as char, 0xA9 as char]
    ensures Collected(BronzeOf(t.rows, 1)) == [map[LINE := Some(Utf8.REPLACEMENT)], map[LINE := Some(Utf8.REPLACEMENT)]]
  {
    hide Utf8.Stored;
    var c, d := 0xC3 as char, 0xA9 as char;
    var row1, row2;
    rs, t, row1, row2 := TwoRounds(s, [c], [d]);
    assert [c] + [d] == [c, d];
    var n := SequentialTiles(s, 1, rs, t);
    assert t.rows[..|t.rows|] == t.rows;
    BronzeReadFrom(t, 1, |t.rows|);
    TwoHalves([c, d], row1, row2);
    Utf8.CutCharacter();
    Utf8.StoredIsValid([c, d]);
  }

  lemma TwoHalves(f: string, row1: Row, row2: Row)
    requires |f| == 2 && f[0] != '\n' && f[1] != '\n'
    requires AllReadFrom(f, [row1, row2]) && row1.from == 0 && row1.to == 1 && row2.from == 1 && row2.to == 2
    ensures Collected([row1, row2]) == [LineRecord([f[0]]), LineRecord([f[1]])]
  {
    assert [row1, row2][0] == row1 && [row1, row2][1] == row2;
    assert f[0..1] == [f[0]] && f[1..2] == [f[1]];
    LinesOfOne(f[0]);
    LinesOfOne(f[1]);
    CollectedTwo(row1, row2, LineRecords([[f[0]]]), LineRecords([[f[1]]]));
    assert LineRecords([[f[0]]]) + LineRecords([[f[1]]]) == [LineRecord([f[0]]), LineRecord([f[1]])];
  }
}
