/**
 * Lakehouse files through their life: written, archived to the backup directory,
 * purged. Layer writes, legal holds and the statements of one lifecycle sweep
 * interleave freely, and every file operation may fail.
 */
module Lakehouse {
  import opened Prelude

  const DAY := 86_400

  datatype Layer = Bronze | Silver | Gold

  /** Where a file lives: under the base or under the backup directory, which are disjoint. */
  datatype Root = Base | Backup

  /** Layer, source and the nanosecond the write read off the clock. */
  datatype Rel = Rel(layer: Layer, source: nat, nanos: nat)

  datatype Path = Path(root: Root, rel: Rel)

  /** A lakehouse_metadata row; `payload` is what the stored payload hash stands for. */
  datatype Row = Row(source: nat, layer: Layer, path: Path, payload: string, ingestedAt: nat, archivedAt: Option<nat>, purgedAt: Option<nat>)

  datatype Hold = Hold(source: Option<nat>, job: Option<nat>, released: bool)

  /** What a sweep reports, and how many archive attempts failed. */
  datatype Counts = Counts(archived: nat, purged: nat, held: nat, failed: nat)

  datatype Phase = Archiving | Purging

  datatype Sweep =
    | Off
    | HoldsRead(held: set<nat>, archiveDays: nat, purgeDays: nat)
    | Working(phase: Phase, held: set<nat>, todo: seq<nat>, purgeDays: nat, selected: nat, counts: Counts)

  predicate InPhase(s: State, phase: Phase) {
    s.sweep.Working? && s.sweep.phase == phase
  }

  /** Row `i` has id `i`. */
  datatype State = State(rows: seq<Row>, files: map<Path, string>, holds: seq<Hold>, clock: nat, sweep: Sweep)

  datatype CopyOutcome = Copied | Partial(bytes: string) | Untouched

  /** How the fallible steps of moving one file turn out. */
  datatype Io = Io(mkdirOk: bool, renameOk: bool, readOk: bool, copy: CopyOutcome, removeOk: bool, updateOk: bool)

  /** How far a layer write gets. */
  datatype WriteOutcome = NoFile | PartFile(bytes: string) | FileOnly | RowInserted

  datatype Event =
    | Tick
    | Write(source: nat, layer: Layer, payload: string, nanos: nat, outcome: WriteOutcome)
    | PlaceHold(onSource: Option<nat>, onJob: Option<nat>)
    | ReleaseHold(id: nat)
    | ReadHolds(archiveDays: nat, purgeDays: nat)
    | SelectArchive(order: seq<nat>)
    | ArchiveNext(io: Io)
    | SelectPurge(order: seq<nat>)
    | PurgeNext(removeOk: bool, updateOk: bool)
    | SweepStops

  /** Sources under an active hold. Holds on a job alone name no source. */
  function HeldSources(holds: seq<Hold>): set<nat> {
    set i | 0 <= i < |holds| && !holds[i].released && holds[i].source.Some? :: holds[i].source.value
  }

  /** One more hold. */
  lemma HeldSnoc(holds: seq<Hold>, n: nat)
    requires n < |holds|
    ensures HeldSources(holds[..n + 1]) ==
      HeldSources(holds[..n]) + if !holds[n].released && holds[n].source.Some? then {holds[n].source.value} else {}
  {
    var a, b := holds[..n], holds[..n + 1];
    forall x | x in HeldSources(a)
      ensures x in HeldSources(b)
    {
      var i :| 0 <= i < |a| && !a[i].released && a[i].source.Some? && a[i].source.value == x;
      assert b[i] == a[i];
    }
    forall x | x in HeldSources(b)
      ensures x in HeldSources(a) || (!holds[n].released && holds[n].source == Some(x))
    {
      var i :| 0 <= i < |b| && !b[i].released && b[i].source.Some? && b[i].source.value == x;
      if i < n { assert a[i] == b[i]; }
    }
    if !holds[n].released && holds[n].source.Some? {
      assert b[n] == holds[n];
    }
  }

  /** The archive SELECT: live Bronze rows older than the limit. */
  predicate ToArchive(r: Row, now: nat, days: nat) {
    r.layer.Bronze? && r.archivedAt.None? && r.ingestedAt + days * DAY < now
  }

  /** The purge SELECT: archived rows whose archive time is past the limit. */
  predicate ToPurge(r: Row, now: nat, days: nat) {
    r.archivedAt.Some? && r.purgedAt.None? && r.archivedAt.value + days * DAY < now
  }

  /** Rows that the archive SELECT returns, each once, but not necessarily all: its result set may break off. */
  predicate DrawsArchive(rows: seq<Row>, order: seq<nat>, now: nat, days: nat) {
    Distinct(order) && forall k :: 0 <= k < |order| ==> order[k] < |rows| && ToArchive(rows[order[k]], now, days)
  }

  predicate DrawsPurge(rows: seq<Row>, order: seq<nat>, now: nat, days: nat) {
    Distinct(order) && forall k :: 0 <= k < |order| ==> order[k] < |rows| && ToPurge(rows[order[k]], now, days)
  }

  function Backed(p: Path): Path {
    Path(Backup, p.rel)
  }

  /** The file part of archiveFile: rename, or else copy and delete. Tells whether the row is to be updated. */
  function MoveFile(files: map<Path, string>, src: Path, io: Io): (map<Path, string>, bool) {
    var dst := Backed(src);
    if !io.mkdirOk then (files, false)
    else if io.renameOk && src in files then ((files - {src})[dst := files[src]], true)
    else if !io.readOk || src !in files then (files, false)
    else
      match io.copy
      case Untouched => (files, false)
      case Partial(bytes) => (files[dst := bytes], false)
      case Copied =>
        var copied := files[dst := files[src]];
        (if io.removeOk then copied - {src} else copied, true)
  }

  /** archiveFile on row `i`; the flag tells whether it returned without error. */
  function ArchiveRow(s: State, i: nat, io: Io): (State, bool)
    requires i < |s.rows|
  {
    var (files, moved) := MoveFile(s.files, s.rows[i].path, io);
    if moved && io.updateOk
    then (s.(files := files, rows := s.rows[i := s.rows[i].(archivedAt := Some(s.clock), path := Backed(s.rows[i].path))]), true)
    else (s.(files := files), false)
  }

  function PurgeRow(s: State, i: nat, removeOk: bool, updateOk: bool): State
    requires i < |s.rows|
  {
    var s1 := if removeOk then s.(files := s.files - {s.rows[i].path}) else s;
    if updateOk then s1.(rows := s1.rows[i := s1.rows[i].(purgedAt := Some(s.clock))]) else s1
  }

  function Apply(s: State, e: Event): State {
    match e
    case Tick => s.(clock := s.clock + 1)
    case Write(source, layer, payload, nanos, outcome) => ApplyWrite(s, e)
    case PlaceHold(source, job) =>
      if source.None? && job.None? then s else s.(holds := s.holds + [Hold(source, job, false)])
    case ReleaseHold(id) =>
      if id < |s.holds| then s.(holds := s.holds[id := s.holds[id].(released := true)]) else s
    case ReadHolds(archiveDays, purgeDays) =>
      if !s.sweep.Off? then s
      else s.(sweep := HoldsRead(HeldSources(s.holds), archiveDays, purgeDays))
    case SelectArchive(order) =>
      if !s.sweep.HoldsRead? || !DrawsArchive(s.rows, order, s.clock, s.sweep.archiveDays) then s
      else s.(sweep := Working(Archiving, s.sweep.held, order, s.sweep.purgeDays, |order|, Counts(0, 0, 0, 0)))
    case ArchiveNext(io) => ApplyArchive(s, io)
    case SelectPurge(order) =>
      if !InPhase(s, Archiving) || s.sweep.todo != [] || !DrawsPurge(s.rows, order, s.clock, s.sweep.purgeDays) then s
      else s.(sweep := Working(Purging, s.sweep.held, order, s.sweep.purgeDays, s.sweep.selected + |order|, s.sweep.counts))
    case PurgeNext(removeOk, updateOk) => ApplyPurge(s, removeOk, updateOk)
    case SweepStops => s.(sweep := Off)
  }

  /** The name a write gives its file. */
  function NameOf(e: Event): Rel
    requires e.Write?
  {
    Rel(e.layer, e.source, e.nanos)
  }

  /** The file comes first, then the row. A file of that name is overwritten. */
  function ApplyWrite(s: State, e: Event): State
    requires e.Write?
  {
    var path := Path(Base, NameOf(e));
    match e.outcome
    case NoFile => s
    case PartFile(bytes) => s.(files := s.files[path := bytes])
    case FileOnly => s.(files := s.files[path := e.payload])
    case RowInserted =>
      s.(files := s.files[path := e.payload], rows := s.rows + [Row(e.source, e.layer, path, e.payload, s.clock, None, None)])
  }

  /** No row has the name of the write yet: no earlier write of its layer and source read the same nanosecond. */
  predicate FreshName(s: State, e: Event) {
    e.Write? ==> forall i | 0 <= i < |s.rows| :: s.rows[i].path.rel != NameOf(e)
  }

  /** The next row of the archive list: skipped when its source is held, else moved. */
  function ApplyArchive(s: State, io: Io): State {
    if !InPhase(s, Archiving) || s.sweep.todo == [] || s.sweep.todo[0] >= |s.rows| then s
    else
      var i, c := s.sweep.todo[0], s.sweep.counts;
      var rest := s.sweep.(todo := s.sweep.todo[1..]);
      if s.rows[i].source in s.sweep.held then s.(sweep := rest.(counts := c.(held := c.held + 1)))
      else
        var (t, ok) := ArchiveRow(s, i, io);
        t.(sweep := rest.(counts := if ok then c.(archived := c.archived + 1) else c.(failed := c.failed + 1)))
  }

  /** The next row of the purge list; the count does not look at how the removal or the update went. */
  function ApplyPurge(s: State, removeOk: bool, updateOk: bool): State {
    if !InPhase(s, Purging) || s.sweep.todo == [] || s.sweep.todo[0] >= |s.rows| then s
    else
      var i, c := s.sweep.todo[0], s.sweep.counts;
      var rest := s.sweep.(todo := s.sweep.todo[1..]);
      if s.rows[i].source in s.sweep.held then s.(sweep := rest.(counts := c.(held := c.held + 1)))
      else PurgeRow(s, i, removeOk, updateOk).(sweep := rest.(counts := c.(purged := c.purged + 1)))
  }

  function Exec(s: State, es: seq<Event>): State {
    if es == [] then s else Apply(Exec(s, es[..|es| - 1]), es[|es| - 1])
  }

  lemma ExecSnoc(s: State, es: seq<Event>, e: Event)
    ensures Exec(s, es + [e]) == Apply(Exec(s, es), e)
  {
    assert (es + [e])[..|es|] == es;
  }

  predicate Initial(s: State) {
    s.rows == [] && s.files == map[] && s.sweep.Off?
  }

  /** Every write of the run reads a fresh nanosecond. */
  predicate FreshNames(s: State, es: seq<Event>) {
    es == [] || (FreshNames(s, es[..|es| - 1]) && FreshName(Exec(s, es[..|es| - 1]), es[|es| - 1]))
  }

  /** The row statements of the sweep go through; file operations may fail at will. */
  predicate UpdatesSucceed(e: Event) {
    (e.ArchiveNext? ==> e.io.updateOk) && (e.PurgeNext? ==> e.updateOk)
  }

  // ------------------------------------------------------------ file integrity

  /** The row is purged or its file holds what was written. */
  predicate Intact(s: State, i: nat)
    requires i < |s.rows|
  {
    s.rows[i].purgedAt.Some? || (s.rows[i].path in s.files && s.files[s.rows[i].path] == s.rows[i].payload)
  }

  /** Live rows are under the base directory; archived ones are Bronze and under the backup directory. */
  predicate Shaped(r: Row) {
    && (r.archivedAt.None? ==> r.path.root.Base? && r.purgedAt.None?)
    && (r.archivedAt.Some? ==> r.path.root.Backup? && r.layer.Bronze?)
  }

  ghost predicate TodoOk(s: State) {
    && (s.sweep.Working? ==> Distinct(s.sweep.todo))
    && (InPhase(s, Archiving) ==> forall k :: 0 <= k < |s.sweep.todo| ==>
          s.sweep.todo[k] < |s.rows| && s.rows[s.sweep.todo[k]].archivedAt.None? && s.rows[s.sweep.todo[k]].layer.Bronze?)
    && (InPhase(s, Purging) ==> forall k :: 0 <= k < |s.sweep.todo| ==>
          s.sweep.todo[k] < |s.rows| && s.rows[s.sweep.todo[k]].archivedAt.Some?)
  }

  /** No two rows were written under the same name. */
  predicate RelsDistinct(rows: seq<Row>) {
    forall i, j :: 0 <= i < j < |rows| ==> rows[i].path.rel != rows[j].path.rel
  }

  ghost predicate Inv(s: State) {
    && (forall i: nat :: i < |s.rows| ==> Shaped(s.rows[i]) && Intact(s, i))
    && RelsDistinct(s.rows)
    && TodoOk(s)
  }

  /** Moving one row's file touches no other row's file. */
  lemma MoveFileFrame(files: map<Path, string>, src: Path, io: Io, p: Path)
    requires p.rel != src.rel
    ensures p in MoveFile(files, src, io).0 <==> p in files
    ensures p in files ==> MoveFile(files, src, io).0[p] == files[p]
  {
  }

  /** An archive attempt that does not move the row leaves its file where it was. */
  lemma MoveFileOwn(files: map<Path, string>, src: Path, io: Io)
    requires src.root.Base? && src in files
    ensures var (after, moved) := MoveFile(files, src, io);
      && (moved ==> Backed(src) in after && after[Backed(src)] == files[src])
      && (!moved ==> src in after && after[src] == files[src])
      && (src in after ==> after[src] == files[src])
  {
  }

  lemma ArchiveKeepsInv(s: State, io: Io)
    requires Inv(s) && io.updateOk
    ensures Inv(ApplyArchive(s, io))
  {
    var t := ApplyArchive(s, io);
    if InPhase(s, Archiving) && s.sweep.todo != [] {
      var i := s.sweep.todo[0];
      RestDistinct(s.sweep.todo);
      if s.rows[i].source in s.sweep.held {
        assert forall j: nat :: j < |t.rows| ==> Intact(s, j) && Intact(t, j);
      } else {
        MoveFileOwn(s.files, s.rows[i].path, io);
        assert Shaped(s.rows[i]) && Intact(s, i);
        forall j: nat | j < |t.rows|
          ensures Shaped(t.rows[j]) && Intact(t, j)
        {
          assert Shaped(s.rows[j]) && Intact(s, j);
          if j != i {
            MoveFileFrame(s.files, s.rows[i].path, io, s.rows[j].path);
          }
        }
      }
    }
  }

  lemma PurgeKeepsInv(s: State, removeOk: bool)
    requires Inv(s)
    ensures Inv(ApplyPurge(s, removeOk, true))
  {
    var t := ApplyPurge(s, removeOk, true);
    if InPhase(s, Purging) && s.sweep.todo != [] {
      var i := s.sweep.todo[0];
      RestDistinct(s.sweep.todo);
      forall j: nat | j < |t.rows|
        ensures Shaped(t.rows[j]) && Intact(t, j)
      {
        assert Shaped(s.rows[j]) && Intact(s, j);
        if j != i {
          assert s.rows[j].path != s.rows[i].path;
        }
      }
    }
  }

  lemma WriteKeepsInv(s: State, e: Event)
    requires Inv(s) && e.Write? && FreshName(s, e)
    ensures Inv(ApplyWrite(s, e))
  {
    var t := ApplyWrite(s, e);
    var path := Path(Base, NameOf(e));
    if t != s {
      forall j: nat | j < |t.rows|
        ensures Shaped(t.rows[j]) && Intact(t, j)
      {
        if j < |s.rows| {
          assert Shaped(s.rows[j]) && Intact(s, j);
          assert s.rows[j].path != path;
        }
      }
    }
  }

  lemma SelectKeepsInv(s: State, e: Event)
    requires Inv(s) && (e.SelectArchive? || e.SelectPurge?)
    ensures Inv(Apply(s, e))
  {
    assert forall j: nat :: j < |s.rows| ==> Intact(s, j) ==> Intact(Apply(s, e), j);
  }

  /** Every statement of the writer and of the sweep keeps files and rows together. */
  lemma StepKeepsInv(s: State, e: Event)
    requires Inv(s) && UpdatesSucceed(e) && FreshName(s, e)
    ensures Inv(Apply(s, e))
  {
    match e
    case Write(_, _, _, _, _) => WriteKeepsInv(s, e);
    case ArchiveNext(io) => ArchiveKeepsInv(s, io);
    case PurgeNext(removeOk, _) => PurgeKeepsInv(s, removeOk);
    case SelectArchive(_) => SelectKeepsInv(s, e);
    case SelectPurge(_) => SelectKeepsInv(s, e);
    case _ => assert forall j: nat :: j < |s.rows| ==> Intact(s, j) ==> Intact(Apply(s, e), j);
  }

  lemma {:induction false} ExecKeepsInv(s: State, es: seq<Event>)
    requires Initial(s) && FreshNames(s, es) && forall k :: 0 <= k < |es| ==> UpdatesSucceed(es[k])
    ensures Inv(Exec(s, es))
  {
    if es != [] {
      ExecKeepsInv(s, es[..|es| - 1]);
      StepKeepsInv(Exec(s, es[..|es| - 1]), es[|es| - 1]);
    }
  }

  /**
   * Whatever file operations fail, every row that is not purged names a file that
   * holds exactly the payload the row was written with, and no other row names it.
   */
  lemma FilesIntact(s: State, es: seq<Event>, t: State, i: nat)
    requires Initial(s) && FreshNames(s, es) && forall k :: 0 <= k < |es| ==> UpdatesSucceed(es[k])
    requires t == Exec(s, es) && i < |t.rows|
    ensures t.rows[i].purgedAt.Some? || (t.rows[i].path in t.files && t.files[t.rows[i].path] == t.rows[i].payload)
    ensures forall j :: 0 <= j < |t.rows| && j != i ==> t.rows[j].path != t.rows[i].path
  {
    ExecKeepsInv(s, es);
    assert Intact(t, i);
  }

  /** A write under the name of a live row leaves that row intact if and only if it writes no file or the same bytes. */
  lemma ClashExact(s: State, e: Event, i: nat)
    requires Inv(s) && e.Write? && i < |s.rows| && s.rows[i].path == Path(Base, NameOf(e))
    ensures Intact(Apply(s, e), i) <==>
      match e.outcome
      case NoFile => true
      case PartFile(bytes) => bytes == s.rows[i].payload
      case _ => e.payload == s.rows[i].payload
  {
    assert Shaped(s.rows[i]) && Intact(s, i);
  }

  /** The file part of an archive attempt takes the file from its old place. */
  predicate Moves(io: Io) {
    io.mkdirOk && (io.renameOk || (io.readOk && io.copy.Copied? && io.removeOk))
  }

  /** With a failing row update: after an archive attempt the row is intact if and only if the update went through or the file was not taken from its old place. */
  lemma ArchiveExact(s: State, io: Io)
    requires Inv(s) && InPhase(s, Archiving) && s.sweep.todo != [] && s.rows[s.sweep.todo[0]].source !in s.sweep.held
    ensures Intact(Apply(s, ArchiveNext(io)), s.sweep.todo[0]) <==> io.updateOk || !Moves(io)
  {
    var i := s.sweep.todo[0];
    assert Shaped(s.rows[i]) && Intact(s, i);
    MoveFileOwn(s.files, s.rows[i].path, io);
  }

  /** One Bronze row that a sweep has just listed. */
  function Listed(): State {
    var path := Path(Base, Rel(Bronze, 1, 5));
    State([Row(1, Bronze, path, "x", 0, None, None)], map[path := "x"], [], 1, Working(Archiving, {}, [0], 0, 1, Counts(0, 0, 0, 0)))
  }

  lemma Then(s: State, es: seq<Event>, t: State, e: Event) returns (fs: seq<Event>)
    requires FreshNames(s, es) && Exec(s, es) == t && FreshName(t, e)
    ensures FreshNames(s, fs) && Exec(s, fs) == Apply(t, e)
  {
    fs := es + [e];
    assert fs[..|es|] == es;
  }

  lemma ListedReached() returns (s: State, es: seq<Event>)
    ensures Initial(s) && FreshNames(s, es) && Exec(s, es) == Listed()
  {
    s := State([], map[], [], 0, Off);
    var t := Listed();
    es := Then(s, [], s, Write(1, Bronze, "x", 5, RowInserted));
    assert Exec(s, es) == t.(clock := 0, sweep := Off);
    es := Then(s, es, t.(clock := 0, sweep := Off), Tick);
    es := Then(s, es, t.(sweep := Off), ReadHolds(0, 0));
    assert HeldSources([]) == {};
    es := Then(s, es, t.(sweep := HoldsRead({}, 0, 0)), SelectArchive([0]));
  }

  lemma ListedLost(io: Io)
    requires io == Io(true, true, true, Copied, true, false)
    ensures |Apply(Listed(), ArchiveNext(io)).rows| == 1 && !Intact(Apply(Listed(), ArchiveNext(io)), 0)
  {
  }

  /** A rename whose row update is then lost: the row names a file that is gone. */
  lemma LostUpdateBreaks() returns (s: State, es: seq<Event>)
    ensures Initial(s) && FreshNames(s, es) && |Exec(s, es).rows| == 1 && !Intact(Exec(s, es), 0)
  {
    s, es := ListedReached();
    var io := Io(true, true, true, Copied, true, false);
    ListedLost(io);
    es := Then(s, es, Listed(), ArchiveNext(io));
  }

  /** A purge leaves a row intact or purged exactly when its update went through or its file was not removed. */
  lemma PurgeExact(s: State, removeOk: bool, updateOk: bool)
    requires Inv(s) && InPhase(s, Purging) && s.sweep.todo != [] && s.rows[s.sweep.todo[0]].source !in s.sweep.held
    requires s.rows[s.sweep.todo[0]].purgedAt.None?
    ensures Intact(Apply(s, PurgeNext(removeOk, updateOk)), s.sweep.todo[0]) <==> updateOk || !removeOk
  {
    var i := s.sweep.todo[0];
    assert Intact(s, i);
  }

  lemma StepKeepsRels(s: State, e: Event)
    requires RelsDistinct(s.rows) && FreshName(s, e)
    ensures RelsDistinct(Apply(s, e).rows)
    ensures |s.rows| <= |Apply(s, e).rows| && forall i :: 0 <= i < |s.rows| ==> Apply(s, e).rows[i].path.rel == s.rows[i].path.rel
  {
  }
}
