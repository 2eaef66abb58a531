/** What becomes of job rows, however RunJob calls overlap: who is let in, and which rows can still change. */
module IngestJobs {
  import opened Prelude
  import opened IngestProtocol

  /** The event ends a call whose pull or Bronze write fails, and its UPDATE goes through. */
  predicate FailsCall(s: State, e: Event) {
    && (e.Pull? || e.WriteBronze?) && e.run in s.runs && e.failureSaved
    && (e.Pull? ==> s.runs[e.run].stage.Resuming? && (e.atMost.None? || s.runs[e.run].source !in s.files))
    && (e.WriteBronze? ==> s.runs[e.run].stage.Pulled? && !e.outcome.Written?)
  }

  /**
   * However calls overlap, a call that ends at the pull or at Bronze, with its status
   * saved, leaves its job Failed, with an error and an end, and open to another call.
   */
  lemma FailedCallCanRunAgain(s: State, e: Event, next: nat)
    requires FailsCall(s, e) && s.runs[e.run].job in s.jobs
    ensures var job, t := s.runs[e.run].job, Apply(s, e);
      && e.run !in t.runs && job in t.jobs
      && t.jobs[job].status == Failed && t.jobs[job].error && t.jobs[job].completedAt == Some(s.clock)
      && t.jobs[job].startedAt == s.jobs[job].startedAt && t.jobs[job].source == s.jobs[job].source
      && (next !in t.runs ==> next in Apply(t, Begin(next, job, true)).runs)
  {
  }

  /** A call that marks its job leaves it Running, with the first start kept, and no other call is let in. */
  lemma MarkedShutsOut(s: State, run: nat, next: nat, sourceRead: bool)
    requires run in s.runs && s.runs[run].stage.Checked? && s.runs[run].job in s.jobs
    ensures var job, t := s.runs[run].job, Apply(s, MarkRunning(run, true));
      && job in t.jobs && t.jobs[job].status == Running && !t.jobs[job].error
      && t.jobs[job].startedAt == (if s.jobs[job].startedAt.Some? then s.jobs[job].startedAt else Some(s.clock))
      && t.jobs[job].completedAt == s.jobs[job].completedAt
      && Apply(t, Begin(next, job, sourceRead)) == t
  {
  }

  ghost predicate NoCallOn(s: State, job: nat) {
    job in s.jobs && forall n :: n in s.runs ==> s.runs[n].job != job
  }

  lemma WriteKeepsCalls(s: State, e: Event, n: nat)
    requires OutcomeOf(e).Some? && n in Apply(s, e).runs
    ensures n in s.runs && Apply(s, e).runs[n].job == s.runs[n].job
  {
    hide Progressed, SilverRow, GoldRow, WithRow;
    if e.run in s.runs {
      WithRowKeepsRuns(s, e);
    }
  }

  lemma WithRowKeepsRuns(s: State, e: Event)
    requires OutcomeOf(e).Some?
    ensures forall row :: WithRow(s, row, e.outcome).runs == s.runs
  {
  }

  /** A call that is in progress after a step was so before, on the same job, or has just been let in. */
  lemma StepKeepsCalls(s: State, e: Event, n: nat)
    requires n in Apply(s, e).runs
    ensures if n in s.runs then Apply(s, e).runs[n].job == s.runs[n].job
      else e.Begin? && Apply(s, e).runs[n].job == e.job && e.job in s.jobs && s.jobs[e.job].status !in {Running, Completed}
  {
    hide Progressed, LineRecords, IsLatest, ReadEnd, Upserted;
    if OutcomeOf(e).Some? {
      WriteKeepsCalls(s, e, n);
    } else {
      hide WritingBronze, WritingSilver, WritingGold;
      assert n in s.runs || e.Begin?;
    }
  }

  /** A job row is changed by calls on that job alone. */
  lemma StepKeepsOtherJobs(s: State, e: Event, job: nat)
    requires NoCallOn(s, job)
    ensures job in Apply(s, e).jobs && Apply(s, e).jobs[job] == s.jobs[job]
  {
    hide Progressed, LineRecords, SilverRow, GoldRow, IsLatest, ReadEnd, Upserted, AsWritten;
    if !e.Tick? && !e.Append? && !e.Begin? && e.run in s.runs {
      assert s.runs[e.run].job != job;
    }
  }

  lemma StepKeepsStuck(s: State, e: Event, job: nat)
    requires NoCallOn(s, job) && s.jobs[job].status in {Running, Completed}
    ensures NoCallOn(Apply(s, e), job) && Apply(s, e).jobs[job] == s.jobs[job]
  {
    hide Apply;
    StepKeepsOtherJobs(s, e, job);
    forall n | n in Apply(s, e).runs
      ensures Apply(s, e).runs[n].job != job
    {
      StepKeepsCalls(s, e, n);
    }
  }

  lemma {:induction false} StaysStuck(s: State, es: seq<Event>, job: nat)
    requires NoCallOn(s, job) && s.jobs[job].status in {Running, Completed}
    ensures NoCallOn(Exec(s, es), job) && Exec(s, es).jobs[job] == s.jobs[job]
  {
    if es != [] {
      StaysStuck(s, es[..|es| - 1], job);
      StepKeepsStuck(Exec(s, es[..|es| - 1]), es[|es| - 1], job);
    }
  }

  /** Two steps that change the row of a job that may be run. */
  lemma MarkedAgain(s: State, job: nat) returns (es: seq<Event>)
    requires job in s.jobs && s.jobs[job].status !in {Running, Completed}
    ensures job in Exec(s, es).jobs && Exec(s, es).jobs[job].status == Running
  {
    assert Exec(s, []) == s;
    var run := Above(s.runs.Keys);
    var begin, mark := Begin(run, job, true), MarkRunning(run, true);
    ExecSnoc(s, [], begin);
    ExecSnoc(s, [begin], mark);
    es := [] + [begin] + [mark];
    MarkedShutsOut(Apply(s, begin), run, run, true);
  }

  /**
   * Which jobs are done for good: the row of a job that no call is working on changes in
   * some run if and only if it is neither Running nor Completed. So a call that stops
   * half-way, or cannot save its last status, leaves a row that says Running for ever.
   */
  lemma StuckExactly(s: State, job: nat)
    requires NoCallOn(s, job)
    ensures (exists es :: job !in Exec(s, es).jobs || Exec(s, es).jobs[job] != s.jobs[job]) <==> s.jobs[job].status !in {Running, Completed}
  {
    if s.jobs[job].status in {Running, Completed} {
      forall es
        ensures job in Exec(s, es).jobs && Exec(s, es).jobs[job] == s.jobs[job]
      {
        StaysStuck(s, es, job);
      }
    } else {
      var es := MarkedAgain(s, job);
    }
  }

  lemma {:induction false} Above(ids: set<nat>) returns (n: nat)
    ensures forall id :: id in ids ==> id < n
    decreases |ids|
  {
    n := 0;
    if ids != {} {
      var id :| id in ids;
      var m := Above(ids - {id});
      n := if id < m then m else id + 1;
      assert ids == (ids - {id}) + {id};
    }
  }
}
