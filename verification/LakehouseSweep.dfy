/** What lifecycle sweeps may and may not do to rows, whatever runs beside them. */
module LakehouseSweep {
  import opened Prelude
  import opened Lakehouse

  // -------------------------------------------------------------------- ages

  /** Sweeps use at least these day counts. */
  predicate DaysAtLeast(e: Event, archiveDays: nat, purgeDays: nat) {
    e.ReadHolds? ==> e.archiveDays >= archiveDays && e.purgeDays >= purgeDays
  }

  /** Archived rows are Bronze and were old enough; purged rows were archived long enough before. */
  predicate AgedRow(r: Row, archiveDays: nat, purgeDays: nat) {
    && (r.archivedAt.Some? ==> r.layer.Bronze? && r.ingestedAt + archiveDays * DAY < r.archivedAt.value)
    && (r.purgedAt.Some? ==> r.archivedAt.Some? && r.archivedAt.value + purgeDays * DAY < r.purgedAt.value)
  }

  ghost predicate Aged(s: State, archiveDays: nat, purgeDays: nat) {
    && (forall i :: 0 <= i < |s.rows| ==> AgedRow(s.rows[i], archiveDays, purgeDays))
    && (s.sweep.HoldsRead? ==> s.sweep.archiveDays >= archiveDays && s.sweep.purgeDays >= purgeDays)
    && (s.sweep.Working? ==> s.sweep.purgeDays >= purgeDays && Distinct(s.sweep.todo))
    && (InPhase(s, Archiving) ==> forall k :: 0 <= k < |s.sweep.todo| ==>
          s.sweep.todo[k] < |s.rows| && ToArchive(s.rows[s.sweep.todo[k]], s.clock, archiveDays))
    && (InPhase(s, Purging) ==> forall k :: 0 <= k < |s.sweep.todo| ==>
          s.sweep.todo[k] < |s.rows| && ToPurge(s.rows[s.sweep.todo[k]], s.clock, purgeDays))
  }

  lemma ArchiveKeepsAged(s: State, io: Io, archiveDays: nat, purgeDays: nat)
    requires Aged(s, archiveDays, purgeDays)
    ensures Aged(ApplyArchive(s, io), archiveDays, purgeDays)
  {
    if InPhase(s, Archiving) && s.sweep.todo != [] {
      RestDistinct(s.sweep.todo);
      assert ToArchive(s.rows[s.sweep.todo[0]], s.clock, archiveDays);
    }
  }

  lemma PurgeKeepsAged(s: State, removeOk: bool, updateOk: bool, archiveDays: nat, purgeDays: nat)
    requires Aged(s, archiveDays, purgeDays)
    ensures Aged(ApplyPurge(s, removeOk, updateOk), archiveDays, purgeDays)
  {
    if InPhase(s, Purging) && s.sweep.todo != [] {
      RestDistinct(s.sweep.todo);
      assert ToPurge(s.rows[s.sweep.todo[0]], s.clock, purgeDays);
    }
  }

  lemma StepKeepsAged(s: State, e: Event, archiveDays: nat, purgeDays: nat)
    requires Aged(s, archiveDays, purgeDays) && DaysAtLeast(e, archiveDays, purgeDays)
    ensures Aged(Apply(s, e), archiveDays, purgeDays)
  {
    match e
    case ArchiveNext(io) => ArchiveKeepsAged(s, io, archiveDays, purgeDays);
    case PurgeNext(removeOk, updateOk) => PurgeKeepsAged(s, removeOk, updateOk, archiveDays, purgeDays);
    case SelectArchive(order) =>
    case SelectPurge(order) =>
    case Write(_, _, _, _, _) =>
    case _ =>
  }

  /**
   * Over any run in which every sweep asks for at least these day counts: only Bronze
   * rows are ever archived, none before its age is reached, and a row is purged only
   * after it was archived and more than the purge days later.
   */
  lemma {:induction false} AgesRespected(s: State, es: seq<Event>, archiveDays: nat, purgeDays: nat)
    requires Initial(s) && forall k :: 0 <= k < |es| ==> DaysAtLeast(es[k], archiveDays, purgeDays)
    ensures Aged(Exec(s, es), archiveDays, purgeDays)
  {
    if es != [] {
      AgesRespected(s, es[..|es| - 1], archiveDays, purgeDays);
      StepKeepsAged(Exec(s, es[..|es| - 1]), es[|es| - 1], archiveDays, purgeDays);
    }
  }

  // ------------------------------------------------------------------- holds

  /** A source is held exactly when some active hold names it. */
  lemma HeldMeans(holds: seq<Hold>, source: nat)
    ensures source in HeldSources(holds) <==> exists i :: 0 <= i < |holds| && !holds[i].released && holds[i].source == Some(source)
  {
    if exists i :: 0 <= i < |holds| && !holds[i].released && holds[i].source == Some(source) {
      var i :| 0 <= i < |holds| && !holds[i].released && holds[i].source == Some(source);
      assert holds[i].source.value == source;
    }
  }

  /** A hold placed on a job alone protects no source, so a sweep treats every row as it would without it. */
  lemma JobHoldsProtectNothing(s: State, job: nat)
    ensures HeldSources(Apply(s, PlaceHold(None, Some(job))).holds) == HeldSources(s.holds)
  {
    var holds := s.holds + [Hold(None, Some(job), false)];
    assert forall i :: 0 <= i < |s.holds| ==> holds[i] == s.holds[i];
    forall source | source in HeldSources(s.holds)
      ensures source in HeldSources(holds)
    {
      HeldMeans(s.holds, source);
      var i :| 0 <= i < |s.holds| && !s.holds[i].released && s.holds[i].source == Some(source);
      assert holds[i].source == Some(source);
    }
  }

  /** The file of row `i` of `s` is in `t` as it was, or was missing before and still is. */
  predicate SameFile(s: State, t: State, i: nat)
    requires i < |s.rows|
  {
    var p := s.rows[i].path;
    (p in t.files <==> p in s.files) && (p in s.files ==> t.files[p] == s.files[p])
  }

  /**
   * Until the next sweep reads the holds again, rows of the held sources and their files
   * stay exactly as they are, whatever fails and whatever happens to the holds.
   */
  lemma {:induction false} HeldRowsUntouched(s: State, es: seq<Event>, t: State, i: nat)
    requires s.sweep.HoldsRead? && i < |s.rows| && s.rows[i].source in s.sweep.held
    requires RelsDistinct(s.rows) && FreshNames(s, es) && t == Exec(s, es)
    requires forall k :: 0 <= k < |es| ==> !es[k].ReadHolds?
    ensures i < |t.rows| && t.rows[i] == s.rows[i] && SameFile(s, t, i)
    ensures RelsDistinct(t.rows) && (t.sweep.Off? || t.sweep.held == s.sweep.held)
  {
    if es != [] {
      var front, e := es[..|es| - 1], es[|es| - 1];
      var u := Exec(s, front);
      HeldRowsUntouched(s, front, u, i);
      StepKeepsRels(u, e);
      HeldStep(u, e, i);
      HeldFileStep(u, e, i);
    }
  }

  lemma HeldStep(s: State, e: Event, i: nat)
    requires i < |s.rows| && (s.sweep.Off? || s.rows[i].source in s.sweep.held) && !e.ReadHolds?
    ensures i < |Apply(s, e).rows| && Apply(s, e).rows[i] == s.rows[i]
    ensures Apply(s, e).sweep.Off? || (!s.sweep.Off? && Apply(s, e).sweep.held == s.sweep.held)
  {
  }

  lemma HeldFileStep(s: State, e: Event, i: nat)
    requires i < |s.rows| && (s.sweep.Off? || s.rows[i].source in s.sweep.held)
    requires RelsDistinct(s.rows) && FreshName(s, e)
    ensures SameFile(s, Apply(s, e), i)
  {
    if e.ArchiveNext? && InPhase(s, Archiving) && s.sweep.todo != [] && s.sweep.todo[0] < |s.rows| {
      if s.rows[s.sweep.todo[0]].source !in s.sweep.held {
        MoveFileFrame(s.files, s.rows[s.sweep.todo[0]].path, e.io, s.rows[i].path);
      }
    }
  }

  // ------------------------------------------------------------------ counts

  predicate Accounted(s: State) {
    s.sweep.Working? ==>
      var c := s.sweep.counts;
      c.archived + c.purged + c.held + c.failed + |s.sweep.todo| == s.sweep.selected
  }

  lemma StepAccounted(s: State, e: Event)
    requires Accounted(s)
    ensures Accounted(Apply(s, e))
  {
  }

  /** Every row a sweep selected is counted once: as archived, purged, held or failed, or it is still to do. */
  lemma {:induction false} SweepConserves(s: State, es: seq<Event>)
    requires s.sweep.Off?
    ensures Accounted(Exec(s, es))
  {
    if es != [] {
      SweepConserves(s, es[..|es| - 1]);
      StepAccounted(Exec(s, es[..|es| - 1]), es[|es| - 1]);
    }
  }

  lemma {:induction false} ArchivedSince(s: State, es: seq<Event>, i: nat)
    requires i < |s.rows| && s.rows[i].archivedAt.None?
    ensures var t := Exec(s, es);
      i < |t.rows| && t.clock >= s.clock && (t.rows[i].archivedAt.Some? ==> t.rows[i].archivedAt.value >= s.clock)
  {
    if es != [] {
      ArchivedSince(s, es[..|es| - 1], i);
      ClockOnly(Exec(s, es[..|es| - 1]), es[|es| - 1], i);
    }
  }

  lemma ClockOnly(s: State, e: Event, i: nat)
    requires i < |s.rows|
    ensures var t := Apply(s, e);
      i < |t.rows| && t.clock >= s.clock && (t.rows[i].archivedAt == s.rows[i].archivedAt || t.rows[i].archivedAt == Some(s.clock))
  {
  }

  /**
   * No row is counted in both halves of a sweep, as long as no more than the purge
   * days pass between its two SELECTs: what the first one returns the second does not.
   */
  lemma NotCountedTwice(s: State, es: seq<Event>, i: nat, archiveDays: nat, purgeDays: nat)
    requires i < |s.rows| && ToArchive(s.rows[i], s.clock, archiveDays)
    requires Exec(s, es).clock <= s.clock + purgeDays * DAY
    ensures i < |Exec(s, es).rows| && !ToPurge(Exec(s, es).rows[i], Exec(s, es).clock, purgeDays)
  {
    ArchivedSince(s, es, i);
  }
}
