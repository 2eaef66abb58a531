/** The lakehouse service as it performs its calls: files, rows and holds updated in place. */
module LakehouseService {
  import opened Prelude
  import opened Lakehouse
  import opened SweepEffects

  /** All rows that the archive SELECT returns and that are read before its result set breaks off. */
  predicate ListsArchive(rows: seq<Row>, order: seq<nat>, now: nat, days: nat, lost: nat -> bool) {
    DrawsArchive(rows, order, now, days) && forall i: nat | i < |rows| :: ToArchive(rows[i], now, days) ==> (i in order <==> !lost(i))
  }

  predicate ListsPurge(rows: seq<Row>, order: seq<nat>, now: nat, days: nat, lost: nat -> bool) {
    DrawsPurge(rows, order, now, days) && forall i: nat | i < |rows| :: ToPurge(rows[i], now, days) ==> (i in order <==> !lost(i))
  }

  /** What the archive SELECT lists: a day is 86400 seconds. */
  lemma ArchiveListMeans(rows: seq<Row>, order: seq<nat>, now: nat, days: nat, lost: nat -> bool)
    ensures ListsArchive(rows, order, now, days, lost) <==> Distinct(order) && forall i: nat ::
      i in order <==> i < |rows| && rows[i].layer == Bronze && rows[i].archivedAt == None && rows[i].ingestedAt + days * 86_400 < now && !lost(i)
  {
    if Distinct(order) && forall i: nat :: i in order <==> i < |rows| && ToArchive(rows[i], now, days) && !lost(i) {
      assert forall k :: 0 <= k < |order| ==> order[k] in order;
    }
  }

  lemma PurgeListMeans(rows: seq<Row>, order: seq<nat>, now: nat, days: nat, lost: nat -> bool)
    ensures ListsPurge(rows, order, now, days, lost) <==> Distinct(order) && forall i: nat ::
      i in order <==> i < |rows| && rows[i].archivedAt.Some? && rows[i].purgedAt == None && rows[i].archivedAt.value + days * 86_400 < now && !lost(i)
  {
    if Distinct(order) && forall i: nat :: i in order <==> i < |rows| && ToPurge(rows[i], now, days) && !lost(i) {
      assert forall k :: 0 <= k < |order| ==> order[k] in order;
    }
  }

  ghost predicate NoneLost(lost: nat -> bool) {
    forall id :: !lost(id)
  }

  /** Nothing that the two SELECTs of a sweep would return at these instants, except under a hold. */
  ghost predicate Settled(rows: seq<Row>, held: set<nat>, archiveAt: nat, purgeAt: nat, archiveDays: nat, purgeDays: nat) {
    forall i :: 0 <= i < |rows| && (ToArchive(rows[i], archiveAt, archiveDays) || ToPurge(rows[i], purgeAt, purgeDays)) ==> rows[i].source in held
  }

  /** Archived by a sweep between two instants, and changed in no other way. */
  predicate ArchivedWithin(was: Row, now: Row, from: nat, to: nat) {
    now.archivedAt.Some? && from <= now.archivedAt.value <= to && now == was.(archivedAt := now.archivedAt, path := Backed(was.path))
  }

  /** The rows `now` after the first `n` turns of the archive loop over `order`, `failed` of which went wrong. */
  ghost predicate ArchivedSoFar(was: seq<Row>, now: seq<Row>, held: set<nat>, order: seq<nat>, n: nat, from: nat, to: nat, failed: nat) {
    && |now| == |was| && n <= |order| && (forall k :: 0 <= k < |order| ==> order[k] < |was|)
    && (forall j :: 0 <= j < |was| ==> now[j] == was[j] || (was[j].source !in held && ArchivedWithin(was[j], now[j], from, to)))
    && (forall j: nat :: j < |was| && j !in order[..n] ==> now[j] == was[j])
    && (failed == 0 ==> forall k :: 0 <= k < n ==> now[order[k]].source in held || ArchivedWithin(was[order[k]], now[order[k]], from, to))
  }

  /** Rows, files and counts after the first `n` turns of the archive loop over `order`. */
  ghost predicate ArchiveLoop(was: seq<Row>, now: seq<Row>, before: map<Path, string>, after: map<Path, string>,
      held: set<nat>, order: seq<nat>, n: nat, from: nat, to: nat, io: nat -> Io, c: Counts)
  {
    && ArchivedSoFar(was, now, held, order, n, from, to, c.failed)
    && MovedSoFar(was, now, before, after, held, order, n, io)
    && CountedSoFar(was, now, held, order, n, c)
  }

  lemma ArchiveLoopStarts(rows: seq<Row>, files: map<Path, string>, held: set<nat>, order: seq<nat>, at: nat, io: nat -> Io)
    requires forall k :: 0 <= k < |order| ==> order[k] < |rows|
    ensures ArchiveLoop(rows, rows, files, files, held, order, 0, at, at, io, Counts(0, 0, 0, 0))
  {
    MovedNothing(rows, files, held, order, io);
  }

  lemma ArchiveLoopTurn(was: seq<Row>, now: seq<Row>, next: seq<Row>, before: map<Path, string>, mid: map<Path, string>, after: map<Path, string>,
      held: set<nat>, order: seq<nat>, n: nat, from: nat, to: nat, at: nat, io: nat -> Io, c: Counts, c': Counts)
    requires ArchiveLoop(was, now, before, mid, held, order, n, from, to, io, c) && n < |order| && Distinct(order) && from <= to <= at
    requires |now| == |was| && order[n] < |was| && was[order[n]].archivedAt.None?
    requires ArchiveTurned(now, next, mid, after, held, order[n], at, io(order[n])) && (now[order[n]].archivedAt.None? ==> CountsTurn(now, next, held, order[n], c, c'))
    ensures ArchiveLoop(was, next, before, after, held, order, n + 1, from, at, io, c')
  {
    hide MovedSoFar, CountedSoFar;
    assert order[n] !in order[..n];
    assert now[order[n]] == was[order[n]];
    MovedTurn(was, now, next, before, mid, after, held, order, n, at, io);
    CountedTurn(was, now, next, mid, after, held, order, n, at, io(order[n]), c, c');
    ArchiveTurnSoFar(was, now, next, mid, after, held, order, n, from, to, at, io(order[n]), c, c');
  }

  lemma ArchiveTurnSoFar(was: seq<Row>, now: seq<Row>, next: seq<Row>, mid: map<Path, string>, after: map<Path, string>,
      held: set<nat>, order: seq<nat>, n: nat, from: nat, to: nat, at: nat, io: Io, c: Counts, c': Counts)
    requires ArchivedSoFar(was, now, held, order, n, from, to, c.failed) && n < |order| && Distinct(order) && from <= to <= at
    requires now[order[n]] == was[order[n]] && ArchiveTurned(now, next, mid, after, held, order[n], at, io) && CountsTurn(now, next, held, order[n], c, c')
    ensures ArchivedSoFar(was, next, held, order, n + 1, from, at, c'.failed)
  {
    hide MoveFile;
    var id := order[n];
    assert order[..n + 1] == order[..n] + [id];
    assert id !in order[..n];
  }

  /** Purged by a sweep at the latest at some instant, and changed in no other way. */
  predicate PurgedWithin(was: Row, now: Row, to: nat) {
    now.purgedAt.Some? && now.purgedAt.value <= to && now == was.(purgedAt := now.purgedAt)
  }

  /** The rows `now` after the first `n` turns of the purge loop over `order`. */
  ghost predicate PurgedSoFar(was: seq<Row>, now: seq<Row>, held: set<nat>, order: seq<nat>, n: nat, to: nat, io: nat -> PurgeIo) {
    && |now| == |was| && n <= |order| && (forall k :: 0 <= k < |order| ==> order[k] < |was|)
    && (forall j :: 0 <= j < |was| ==> now[j] == was[j] || (was[j].source !in held && PurgedWithin(was[j], now[j], to)))
    && (forall j: nat :: j < |was| && j !in order[..n] ==> now[j] == was[j])
    && (forall k :: 0 <= k < n && was[order[k]].source !in held ==>
          if io(order[k]).updateOk then PurgedWithin(was[order[k]], now[order[k]], to) else now[order[k]] == was[order[k]])
  }

  /** Rows and files after the purge turn of row `id`. */
  ghost predicate PurgeTurned(now: seq<Row>, next: seq<Row>, before: map<Path, string>, after: map<Path, string>, held: set<nat>, id: nat, at: nat, io: PurgeIo)
    requires id < |now|
  {
    && after == (if now[id].source !in held && io.removeOk then before - {now[id].path} else before)
    && next == (if now[id].source !in held && io.updateOk then now[id := now[id].(purgedAt := Some(at))] else now)
  }

  /** Rows, files and counts after the first `n` turns of the purge loop over `order`. */
  ghost predicate PurgeLoop(was: seq<Row>, now: seq<Row>, before: map<Path, string>, after: map<Path, string>,
      held: set<nat>, order: seq<nat>, n: nat, to: nat, io: nat -> PurgeIo, start: Counts, c: Counts)
  {
    && PurgedSoFar(was, now, held, order, n, to, io) && RemovedSoFar(was, before, after, held, order, n, io)
    && c.archived == start.archived && c.failed == start.failed
    && c.held == start.held + |HeldOf(was, held, order[..n])| && c.purged + c.held == start.purged + start.held + n
  }

  lemma PurgeLoopStarts(rows: seq<Row>, files: map<Path, string>, held: set<nat>, order: seq<nat>, at: nat, io: nat -> PurgeIo, c: Counts)
    requires forall k :: 0 <= k < |order| ==> order[k] < |rows|
    ensures PurgeLoop(rows, rows, files, files, held, order, 0, at, io, c, c)
  {
    assert HeldOf(rows, held, order[..0]) == {};
  }

  lemma PurgeLoopTurn(was: seq<Row>, now: seq<Row>, next: seq<Row>, before: map<Path, string>, mid: map<Path, string>, after: map<Path, string>,
      held: set<nat>, order: seq<nat>, n: nat, to: nat, at: nat, io: nat -> PurgeIo, start: Counts, c: Counts, c': Counts)
    requires PurgeLoop(was, now, before, mid, held, order, n, to, io, start, c) && n < |order| && Distinct(order) && to <= at
    requires |now| == |was| && order[n] < |was| && PurgeTurned(now, next, mid, after, held, order[n], at, io(order[n]))
    requires c' == if now[order[n]].source in held then c.(held := c.held + 1) else c.(purged := c.purged + 1)
    ensures PurgeLoop(was, next, before, after, held, order, n + 1, at, io, start, c')
  {
    hide RemovedSoFar, HeldOf;
    assert order[n] !in order[..n];
    assert now[order[n]] == was[order[n]];
    RemovedTurn(was, before, mid, after, held, order, n, io);
    HeldOfSnoc(was, held, order, n);
    PurgeTurnSoFar(was, now, next, mid, after, held, order, n, to, at, io);
  }

  lemma PurgeTurnSoFar(was: seq<Row>, now: seq<Row>, next: seq<Row>, mid: map<Path, string>, after: map<Path, string>,
      held: set<nat>, order: seq<nat>, n: nat, to: nat, at: nat, io: nat -> PurgeIo)
    requires PurgedSoFar(was, now, held, order, n, to, io) && n < |order| && Distinct(order) && to <= at
    requires now[order[n]] == was[order[n]] && PurgeTurned(now, next, mid, after, held, order[n], at, io(order[n]))
    ensures PurgedSoFar(was, next, held, order, n + 1, at, io)
  {
    var id := order[n];
    assert order[..n + 1] == order[..n] + [id];
    assert id !in order[..n];
  }

  /** Unless the sweep takes longer than the purge days, what the archive loop leaves changes nothing for the purge SELECT. */
  lemma ArchivedNowNotPurgeable(was: seq<Row>, now: seq<Row>, held: set<nat>, order: seq<nat>, from: nat, to: nat, failed: nat, purgeOrder: seq<nat>, purgeAt: nat, archiveDays: nat, purgeDays: nat, lost: nat -> bool)
    requires DrawsArchive(was, order, from, archiveDays)
    requires ArchivedSoFar(was, now, held, order, |order|, from, to, failed)
    requires ListsPurge(now, purgeOrder, purgeAt, purgeDays, lost) && purgeAt <= from + purgeDays * DAY
    ensures ListsPurge(was, purgeOrder, purgeAt, purgeDays, lost)
    ensures forall i :: i in order ==> i !in purgeOrder
  {
    assert order[..|order|] == order;
    forall i: nat | i < |was|
      ensures ToPurge(was[i], purgeAt, purgeDays) <==> ToPurge(now[i], purgeAt, purgeDays)
      ensures i in order ==> !ToPurge(now[i], purgeAt, purgeDays)
    {
      if i in order {
        var k :| 0 <= k < |order| && order[k] == i;
        assert ToArchive(was[i], from, archiveDays);
      }
    }
  }

  ghost predicate AllUpdated(io: nat -> PurgeIo) {
    forall id :: io(id).updateOk
  }

  lemma OnlyHeldListed(rows: seq<Row>, held: set<nat>, order: seq<nat>, archiveAt: nat, purgeAt: nat, archiveDays: nat, purgeDays: nat)
    requires Settled(rows, held, archiveAt, purgeAt, archiveDays, purgeDays) && DrawsArchive(rows, order, archiveAt, archiveDays)
    ensures forall k :: 0 <= k < |order| ==> rows[order[k]].source in held
  {
  }

  lemma OnlyHeldPurgeable(rows: seq<Row>, held: set<nat>, order: seq<nat>, archiveAt: nat, purgeAt: nat, archiveDays: nat, purgeDays: nat)
    requires Settled(rows, held, archiveAt, purgeAt, archiveDays, purgeDays) && DrawsPurge(rows, order, purgeAt, purgeDays)
    ensures forall k :: 0 <= k < |order| ==> rows[order[k]].source in held
  {
  }

  /** After two loops in which nothing failed, of what the SELECTs looked for only rows under a hold are left. */
  lemma SweptSettled(was: seq<Row>, mid: seq<Row>, now: seq<Row>, held: set<nat>, order: seq<nat>, purgeOrder: seq<nat>,
      from: nat, to: nat, purgeAt: nat, end: nat, io: nat -> PurgeIo, archiveDays: nat, purgeDays: nat, lost: nat -> bool)
    requires ListsArchive(was, order, from, archiveDays, lost) && ListsPurge(mid, purgeOrder, purgeAt, purgeDays, lost) && NoneLost(lost)
    requires ArchivedSoFar(was, mid, held, order, |order|, from, to, 0)
    requires PurgedSoFar(mid, now, held, purgeOrder, |purgeOrder|, end, io)
    requires AllUpdated(io)
    ensures Settled(now, held, from, purgeAt, archiveDays, purgeDays)
  {
    assert order[..|order|] == order && purgeOrder[..|purgeOrder|] == purgeOrder;
    forall i | 0 <= i < |now| && (ToArchive(now[i], from, archiveDays) || ToPurge(now[i], purgeAt, purgeDays))
      ensures now[i].source in held
    {
      if ToPurge(now[i], purgeAt, purgeDays) {
        if i in purgeOrder {
          var k :| 0 <= k < |purgeOrder| && purgeOrder[k] == i;
        }
      } else {
        assert ToArchive(was[i], from, archiveDays);
        var k :| 0 <= k < |order| && order[k] == i;
      }
    }
  }

  /** The rows after a sweep: what it archived between two instants, what it purged, and everything else as it was. */
  ghost predicate SweptRows(was: seq<Row>, now: seq<Row>, held: set<nat>, toArchive: seq<nat>, toPurge: seq<nat>, purgeIo: nat -> PurgeIo, from: nat, to: nat) {
    && |now| == |was| && (forall i :: i in toArchive || i in toPurge ==> i < |was|)
    && (forall i :: 0 <= i < |was| ==> now[i] == was[i].(archivedAt := now[i].archivedAt, path := now[i].path, purgedAt := now[i].purgedAt))
    && (forall i: nat :: i < |was| && (i !in toArchive || was[i].source in held) ==> now[i].archivedAt == was[i].archivedAt && now[i].path == was[i].path)
    && (forall i: nat :: i < |was| && (i !in toPurge || was[i].source in held) ==> now[i].purgedAt == was[i].purgedAt)
    && (forall i :: i in toArchive ==>
          || (now[i].archivedAt == was[i].archivedAt && now[i].path == was[i].path)
          || (now[i].archivedAt.Some? && from <= now[i].archivedAt.value <= to && now[i].path == Path(Backup, was[i].path.rel)))
    && (forall i :: i in toPurge && was[i].source !in held ==>
          if purgeIo(i).updateOk then now[i].purgedAt.Some? && now[i].purgedAt.value <= to else now[i].purgedAt == was[i].purgedAt)
  }

  /** Every listed row is counted once: as held, as archived if it now is, as failed if not, and as purged whatever becomes of it. */
  ghost predicate SweptCounts(was: seq<Row>, now: seq<Row>, held: set<nat>, toArchive: seq<nat>, toPurge: seq<nat>, res: Counts) {
    && res.archived == |NewlyArchived(was, now)|
    && res.archived + res.failed == |toArchive| - |HeldOf(was, held, toArchive)|
    && res.purged == |toPurge| - |HeldOf(was, held, toPurge)|
    && res.held == |HeldOf(was, held, toArchive)| + |HeldOf(was, held, toPurge)|
  }

  lemma RowsSwept(was: seq<Row>, mid: seq<Row>, now: seq<Row>, held: set<nat>, toArchive: seq<nat>, toPurge: seq<nat>, purgeIo: nat -> PurgeIo, from: nat, to: nat, end: nat, failed: nat)
    requires ArchivedSoFar(was, mid, held, toArchive, |toArchive|, from, to, failed)
    requires PurgedSoFar(mid, now, held, toPurge, |toPurge|, end, purgeIo) && to <= end
    ensures SweptRows(was, now, held, toArchive, toPurge, purgeIo, from, end)
    ensures |mid| == |was| && forall i :: 0 <= i < |was| ==> mid[i].path.rel == was[i].path.rel && mid[i].source == was[i].source && now[i].path == mid[i].path && now[i].archivedAt == mid[i].archivedAt
    ensures forall i: nat :: i < |was| && (i !in toArchive || was[i].source in held) ==> mid[i] == was[i]
    ensures forall i: nat :: i < |was| && i !in toPurge ==> now[i] == mid[i]
  {
    assert toArchive[..|toArchive|] == toArchive && toPurge[..|toPurge|] == toPurge;
    forall i | i in toPurge && was[i].source !in held
      ensures if purgeIo(i).updateOk then now[i].purgedAt.Some? && now[i].purgedAt.value <= end else now[i].purgedAt == was[i].purgedAt
    {
      var k :| 0 <= k < |toPurge| && toPurge[k] == i;
      assert now[toPurge[k]] == now[i];
    }
  }

  lemma CountsSwept(was: seq<Row>, mid: seq<Row>, now: seq<Row>, before: map<Path, string>, between: map<Path, string>, after: map<Path, string>,
      held: set<nat>, toArchive: seq<nat>, toPurge: seq<nat>, end: nat, purgeIo: nat -> PurgeIo, half: Counts, res: Counts)
    requires CountedSoFar(was, mid, held, toArchive, |toArchive|, half) && PurgeLoop(mid, now, between, after, held, toPurge, |toPurge|, end, purgeIo, half, res)
    requires |mid| == |was| == |now| && forall i :: 0 <= i < |was| ==> mid[i].source == was[i].source && now[i].archivedAt == mid[i].archivedAt
    ensures SweptCounts(was, now, held, toArchive, toPurge, res)
  {
    hide PurgedSoFar, RemovedSoFar;
    assert toArchive[..|toArchive|] == toArchive && toPurge[..|toPurge|] == toPurge;
    assert NewlyArchived(was, mid) == NewlyArchived(was, now);
    assert HeldOf(mid, held, toPurge) == HeldOf(was, held, toPurge);
  }

  /** Both loops together. */
  lemma SweepDone(was: seq<Row>, mid: seq<Row>, now: seq<Row>, before: map<Path, string>, between: map<Path, string>, after: map<Path, string>,
      held: set<nat>, toArchive: seq<nat>, toPurge: seq<nat>, from: nat, to: nat, end: nat, io: nat -> Io, purgeIo: nat -> PurgeIo, half: Counts, res: Counts)
    requires ArchiveLoop(was, mid, before, between, held, toArchive, |toArchive|, from, to, io, half) && to <= end
    requires PurgeLoop(mid, now, between, after, held, toPurge, |toPurge|, end, purgeIo, half, res)
    ensures SweptFiles(was, now, before, after, held, toArchive, toPurge, io, purgeIo)
    ensures SweptRows(was, now, held, toArchive, toPurge, purgeIo, from, end)
    ensures SweptCounts(was, now, held, toArchive, toPurge, res) && res.failed == half.failed
  {
    assert |now| == |mid| && forall k :: 0 <= k < |toPurge| ==> toPurge[k] < |mid|;
    hide MovedSoFar, RemovedSoFar, CountedSoFar, ArchivedSoFar, PurgedSoFar, SweptFiles, SweptRows, SweptCounts, HeldOf, NewlyArchived;
    RowsSwept(was, mid, now, held, toArchive, toPurge, purgeIo, from, to, end, half.failed);
    CountsSwept(was, mid, now, before, between, after, held, toArchive, toPurge, end, purgeIo, half, res);
    forall i | 0 <= i < |was|
      ensures was[i].source == now[i].source
    {
      assert SweptRows(was, now, held, toArchive, toPurge, purgeIo, from, end);
      SweptSource(was, now, held, toArchive, toPurge, purgeIo, from, end, i);
    }
    SweepFiles(was, mid, now, before, between, after, held, toArchive, toPurge, io, purgeIo);
  }

  lemma SweptFilesMeans(was: seq<Row>, now: seq<Row>, before: map<Path, string>, after: map<Path, string>, held: set<nat>,
      toArchive: seq<nat>, toPurge: seq<nat>, io: nat -> Io, purgeIo: nat -> PurgeIo)
    requires SweptFiles(was, now, before, after, held, toArchive, toPurge, io, purgeIo)
    ensures forall i :: i in toPurge && i < |now| && now[i].source !in held && purgeIo(i).removeOk ==> now[i].path !in after
    ensures forall i :: i in toArchive && i < |was| && was[i].source !in held && was[i].path.root == Base ==>
      io(i).mkdirOk && (io(i).renameOk || (io(i).readOk && io(i).copy == Copied && io(i).removeOk)) ==> was[i].path !in after
  {
  }

  lemma SweptSource(was: seq<Row>, now: seq<Row>, held: set<nat>, toArchive: seq<nat>, toPurge: seq<nat>, purgeIo: nat -> PurgeIo, from: nat, to: nat, i: nat)
    requires SweptRows(was, now, held, toArchive, toPurge, purgeIo, from, to) && i < |was|
    ensures |now| == |was| && now[i].source == was[i].source
  {
  }

  lemma ArchiveLoopRows(was: seq<Row>, now: seq<Row>, before: map<Path, string>, after: map<Path, string>, held: set<nat>, order: seq<nat>, from: nat, to: nat, io: nat -> Io, c: Counts)
    requires ArchiveLoop(was, now, before, after, held, order, |order|, from, to, io, c)
    ensures ArchivedSoFar(was, now, held, order, |order|, from, to, c.failed)
  {
  }

  lemma PurgeLoopRows(was: seq<Row>, now: seq<Row>, before: map<Path, string>, after: map<Path, string>, held: set<nat>, order: seq<nat>, to: nat, io: nat -> PurgeIo, start: Counts, c: Counts)
    requires PurgeLoop(was, now, before, after, held, order, |order|, to, io, start, c)
    ensures PurgedSoFar(was, now, held, order, |order|, to, io)
  {
  }

  lemma SweepOpens(s: State, archiveDays: nat, purgeDays: nat)
    requires s.sweep.Off?
    ensures Exec(s, [ReadHolds(archiveDays, purgeDays)]) == s.(sweep := HoldsRead(HeldSources(s.holds), archiveDays, purgeDays))
  {
    ExecSnoc(s, [], ReadHolds(archiveDays, purgeDays));
    assert [] + [ReadHolds(archiveDays, purgeDays)] == [ReadHolds(archiveDays, purgeDays)];
  }

  lemma SweepSelects(t: State, order: seq<nat>)
    requires t.sweep.HoldsRead? && DrawsArchive(t.rows, order, t.clock, t.sweep.archiveDays)
    ensures Apply(t, SelectArchive(order)) ==
      t.(sweep := Working(Phase.Archiving, t.sweep.held, order, t.sweep.purgeDays, |order|, Counts(0, 0, 0, 0)))
  {
  }

  lemma SweepTurns(t: State, order: seq<nat>)
    requires InPhase(t, Phase.Archiving) && t.sweep.todo == [] && DrawsPurge(t.rows, order, t.clock, t.sweep.purgeDays)
    ensures Apply(t, SelectPurge(order)) ==
      t.(sweep := Working(Phase.Purging, t.sweep.held, order, t.sweep.purgeDays, t.sweep.selected + |order|, t.sweep.counts))
  {
  }

  /** Time passes and nothing else. */
  lemma {:induction false} ExecTicks(s: State, es: seq<Event>, n: nat)
    ensures Exec(s, es + seq(n, _ => Tick)) == Exec(s, es).(clock := Exec(s, es).clock + n)
  {
    if n == 0 {
      assert es + seq(0, _ => Tick) == es;
    } else {
      ExecTicks(s, es, n - 1);
      assert es + seq(n, _ => Tick) == (es + seq(n - 1, _ => Tick)) + [Tick];
      ExecSnoc(s, es + seq(n - 1, _ => Tick), Tick);
    }
  }

  /** Which queries of a sweep succeed, which rows of their results are lost, and how long it waits before each of them and before each row. */
  datatype SweepIo = SweepIo(holdsOk: bool, archiveOk: bool, purgeOk: bool, lost: nat -> bool, beforeArchive: nat, beforePurge: nat, beforeRow: nat -> nat)

  class Service {
    var rows: seq<Row>
    var files: map<Path, string>
    var holds: seq<Hold>
    var clock: nat

    ghost function With(sweep: Sweep): State
      reads this
    {
      State(rows, files, holds, clock, sweep)
    }

    /** write: the file first, then the metadata row. */
    method Write(source: nat, layer: Layer, payload: string, nanos: nat, outcome: WriteOutcome) returns (id: Option<nat>)
      modifies this
      ensures With(Off) == ApplyWrite(old(With(Off)), Event.Write(source, layer, payload, nanos, outcome))
      ensures id == if outcome.RowInserted? then Some(|old(rows)|) else None
      ensures rows == old(rows) + if outcome == RowInserted then [Row(source, layer, Path(Base, Rel(layer, source, nanos)), payload, clock, None, None)] else []
      ensures files == if outcome == NoFile then old(files) else old(files)[Path(Base, Rel(layer, source, nanos)) := if outcome.PartFile? then outcome.bytes else payload]
      ensures holds == old(holds) && clock == old(clock)
    {
      var full := Path(Base, Rel(layer, source, nanos));
      id := None;
      match outcome {
        case NoFile => return;
        case PartFile(bytes) =>
          files := files[full := bytes];
          return;
        case _ =>
          files := files[full := payload];
      }
      if outcome.FileOnly? {
        return;
      }
      id := Some(|rows|);
      rows := rows + [Row(source, layer, full, payload, clock, None, None)];
    }

    /** PlaceHold: a hold must name a source or a job; the row may be there although reading it back fails. */
    method PlaceHold(source: Option<nat>, job: Option<nat>, saved: bool, readBack: bool) returns (id: Option<nat>)
      modifies this
      ensures saved ==> With(Off) == Apply(old(With(Off)), Event.PlaceHold(source, job))
      ensures !saved ==> With(Off) == old(With(Off))
      ensures id == if (source.None? && job.None?) || !saved || !readBack then None else Some(|old(holds)|)
      ensures holds == old(holds) + if saved && (source.Some? || job.Some?) then [Hold(source, job, false)] else []
    {
      if source.None? && job.None? {
        return None;
      }
      if !saved {
        return None;
      }
      id := if readBack then Some(|holds|) else None;
      holds := holds + [Hold(source, job, false)];
    }

    /** ReleaseHold: only an active hold can be released, and the statement may fail. */
    method ReleaseHold(id: nat, saved: bool) returns (released: bool)
      modifies this
      ensures saved ==> With(Off) == Apply(old(With(Off)), Event.ReleaseHold(id))
      ensures !saved ==> With(Off) == old(With(Off))
      ensures released <==> saved && id < |old(holds)| && !old(holds)[id].released
      ensures |holds| == |old(holds)| && forall i :: 0 <= i < |holds| ==> holds[i] == if released && i == id then old(holds)[i].(released := true) else old(holds)[i]
      ensures released ==> HeldSources(holds) == HeldSources(old(holds)) - (if exists i :: 0 <= i < |holds| && i != id && !holds[i].released && holds[i].source == holds[id].source then {} else if holds[id].source.Some? then {holds[id].source.value} else {})
    {
      if !saved {
        return false;
      }
      released := id < |holds| && !holds[id].released;
      if released {
        holds := holds[id := holds[id].(released := true)];
      } else if id < |holds| {
        assert holds[id := holds[id].(released := true)] == holds;
      }
    }

    /** activeHoldFilter, the source half: job ids are collected too but nobody reads them. */
    method ActiveHoldFilter() returns (sources: set<nat>, jobs: set<nat>)
      ensures sources == HeldSources(holds)
      ensures forall source: nat :: source in sources <==> exists i :: 0 <= i < |holds| && !holds[i].released && holds[i].source == Some(source)
    {
      sources, jobs := {}, {};
      for i := 0 to |holds|
        invariant sources == HeldSources(holds[..i])
      {
        Lakehouse.HeldSnoc(holds, i);
        if !holds[i].released {
          if holds[i].source.Some? {
            sources := sources + {holds[i].source.value};
          }
          if holds[i].job.Some? {
            jobs := jobs + {holds[i].job.value};
          }
        }
      }
      assert holds[..|holds|] == holds;
    }

    /** archiveFile: rename, or else copy and delete; then the row. */
    method ArchiveFile(id: nat, src: Path, io: Io) returns (ok: bool)
      requires id < |rows| && rows[id].path == src
      modifies this`rows, this`files
      ensures (With(Off), ok) == ArchiveRow(old(With(Off)), id, io)
    {
      var dst := Backed(src);
      if !io.mkdirOk {
        return false;
      }
      if io.renameOk && src in files {
        files := (files - {src})[dst := files[src]];
      } else {
        if !io.readOk || src !in files {
          return false;
        }
        var data := files[src];
        match io.copy {
          case Untouched => return false;
          case Partial(bytes) =>
            files := files[dst := bytes];
            return false;
          case Copied =>
            files := files[dst := data];
            if io.removeOk {
              files := files - {src};
            }
        }
      }
      if !io.updateOk {
        return false;
      }
      rows := rows[id := rows[id].(archivedAt := Some(clock), path := dst)];
      return true;
    }

    /** The archive SELECT; that its result set broke off is not noticed. */
    method SelectToArchive(days: nat, lost: nat -> bool) returns (order: seq<nat>)
      ensures ListsArchive(rows, order, clock, days, lost)
      ensures Distinct(order) && forall i: nat :: i in order <==>
        i < |rows| && rows[i].layer == Bronze && rows[i].archivedAt == None && rows[i].ingestedAt + days * 86_400 < clock && !lost(i)
    {
      order := [];
      for i := 0 to |rows|
        invariant Distinct(order) && forall k :: 0 <= k < |order| ==> order[k] < i && ToArchive(rows[order[k]], clock, days) && !lost(order[k])
        invariant forall j: nat | j < i && ToArchive(rows[j], clock, days) && !lost(j) :: j in order
      {
        if ToArchive(rows[i], clock, days) && !lost(i) {
          order := order + [i];
        }
      }
    }

    /** The purge SELECT; that its result set broke off is not noticed. */
    method SelectToPurge(days: nat, lost: nat -> bool) returns (order: seq<nat>)
      ensures ListsPurge(rows, order, clock, days, lost)
      ensures Distinct(order) && forall i: nat :: i in order <==>
        i < |rows| && rows[i].archivedAt.Some? && rows[i].purgedAt == None && rows[i].archivedAt.value + days * 86_400 < clock && !lost(i)
    {
      order := [];
      for i := 0 to |rows|
        invariant Distinct(order) && forall k :: 0 <= k < |order| ==> order[k] < i && ToPurge(rows[order[k]], clock, days) && !lost(order[k])
        invariant forall j: nat | j < i && ToPurge(rows[j], clock, days) && !lost(j) :: j in order
      {
        if ToPurge(rows[i], clock, days) && !lost(i) {
          order := order + [i];
        }
      }
    }

    /** One turn of the archive loop: a row of a held source is skipped, and a failure is not the end. */
    method ArchiveTurn(held: set<nat>, todo: seq<nat>, ghost purgeDays: nat, ghost selected: nat, before: Counts, io: Io) returns (after: Counts)
      requires todo != [] && todo[0] < |rows|
      modifies this`rows, this`files
      ensures With(Working(Phase.Archiving, held, todo[1..], purgeDays, selected, after)) ==
        ApplyArchive(old(With(Working(Phase.Archiving, held, todo, purgeDays, selected, before))), io)
      ensures ArchiveTurned(old(rows), rows, old(files), files, held, todo[0], clock, io)
      ensures old(rows)[todo[0]].archivedAt.None? ==> CountsTurn(old(rows), rows, held, todo[0], before, after)
    {
      after := before;
      var id := todo[0];
      if rows[id].source in held {
        after := after.(held := after.held + 1);
      } else {
        var ok := ArchiveFile(id, rows[id].path, io);
        if ok {
          after := after.(archived := after.archived + 1);
        } else {
          after := after.(failed := after.failed + 1);
        }
      }
    }

    /** One turn of the purge loop. */
    method PurgeTurn(held: set<nat>, todo: seq<nat>, ghost purgeDays: nat, ghost selected: nat, before: Counts, removeOk: bool, updateOk: bool)
      returns (after: Counts)
      requires todo != [] && todo[0] < |rows|
      modifies this`rows, this`files
      ensures With(Working(Phase.Purging, held, todo[1..], purgeDays, selected, after)) ==
        ApplyPurge(old(With(Working(Phase.Purging, held, todo, purgeDays, selected, before))), removeOk, updateOk)
      ensures after == if old(rows)[todo[0]].source in held then before.(held := before.held + 1) else before.(purged := before.purged + 1)
      ensures PurgeTurned(old(rows), rows, old(files), files, held, todo[0], clock, PurgeIo(removeOk, updateOk))
    {
      var id := todo[0];
      if rows[id].source in held {
        after := before.(held := before.held + 1);
      } else {
        if removeOk {
          files := files - {rows[id].path};
        }
        if updateOk {
          rows := rows[id := rows[id].(purgedAt := Some(clock))];
        }
        after := before.(purged := before.purged + 1);
      }
    }

    /** Time passes. */
    method Wait(n: nat, ghost sweep: Sweep, ghost start: State, ghost es: seq<Event>) returns (ghost fs: seq<Event>)
      requires Exec(start, es) == With(sweep)
      modifies this`clock
      ensures clock == old(clock) + n && Exec(start, fs) == With(sweep)
    {
      clock := clock + n;
      fs := es + seq(n, _ => Tick);
      ExecTicks(start, es, n);
    }

    /** The archive loop. */
    method ArchiveAll(held: set<nat>, order: seq<nat>, ghost purgeDays: nat, io: nat -> Io, pause: nat -> nat, ghost start: State, ghost es: seq<Event>)
      returns (counts: Counts, ghost fs: seq<Event>)
      requires Distinct(order) && forall k :: 0 <= k < |order| ==> order[k] < |rows| && rows[order[k]].archivedAt.None?
      requires Exec(start, es) == With(Working(Phase.Archiving, held, order, purgeDays, |order|, Counts(0, 0, 0, 0)))
      modifies this`rows, this`files, this`clock
      ensures old(clock) <= clock
      ensures Exec(start, fs) == With(Working(Phase.Archiving, held, [], purgeDays, |order|, counts))
      ensures ArchiveLoop(old(rows), rows, old(files), files, held, order, |order|, old(clock), clock, io, counts)
      ensures (forall k :: 0 <= k < |order| ==> old(rows)[order[k]].source in held) ==> counts.archived == 0 && counts.purged == 0 && rows == old(rows) && files == old(files)
    {
      hide Exec, ArchiveLoop, MoveFile;
      counts, fs := Counts(0, 0, 0, 0), es;
      var todo := order;
      ghost var n, idle := 0, forall k :: 0 <= k < |order| ==> rows[order[k]].source in held;
      ArchiveLoopStarts(rows, files, held, order, clock, io);
      while todo != []
        invariant n <= |order| && todo == order[n..] && old(clock) <= clock && |rows| == |old(rows)|
        invariant Exec(start, fs) == With(Working(Phase.Archiving, held, todo, purgeDays, |order|, counts))
        invariant ArchiveLoop(old(rows), rows, old(files), files, held, order, n, old(clock), clock, io, counts)
        invariant idle ==> counts.archived == 0 && counts.purged == 0 && rows == old(rows) && files == old(files)
        decreases |todo|
      {
        var id := todo[0];
        ghost var now, had, at, c := rows, files, clock, counts;
        counts, fs := ArchiveStep(held, todo, purgeDays, |order|, counts, io(id), pause(id), start, fs);
        ArchiveLoopTurn(old(rows), now, rows, old(files), had, files, held, order, n, old(clock), at, clock, io, c, counts);
        todo := todo[1..];
        n := n + 1;
      }
    }

    /** Time passes, then one turn of the archive loop. */
    method ArchiveStep(held: set<nat>, todo: seq<nat>, ghost purgeDays: nat, ghost selected: nat, before: Counts, io: Io, pause: nat, ghost start: State, ghost es: seq<Event>)
      returns (after: Counts, ghost fs: seq<Event>)
      requires todo != [] && todo[0] < |rows|
      requires Exec(start, es) == With(Working(Phase.Archiving, held, todo, purgeDays, selected, before))
      modifies this`rows, this`files, this`clock
      ensures clock == old(clock) + pause
      ensures Exec(start, fs) == With(Working(Phase.Archiving, held, todo[1..], purgeDays, selected, after))
      ensures ArchiveTurned(old(rows), rows, old(files), files, held, todo[0], clock, io)
      ensures old(rows)[todo[0]].archivedAt.None? ==> CountsTurn(old(rows), rows, held, todo[0], before, after)
    {
      fs := Wait(pause, Working(Phase.Archiving, held, todo, purgeDays, selected, before), start, es);
      ExecSnoc(start, fs, ArchiveNext(io));
      fs := fs + [ArchiveNext(io)];
      after := ArchiveTurn(held, todo, purgeDays, selected, before, io);
    }

    /** Time passes, then one turn of the purge loop. */
    method PurgeStep(held: set<nat>, todo: seq<nat>, ghost purgeDays: nat, ghost selected: nat, before: Counts, io: PurgeIo, pause: nat, ghost start: State, ghost es: seq<Event>)
      returns (after: Counts, ghost fs: seq<Event>)
      requires todo != [] && todo[0] < |rows|
      requires Exec(start, es) == With(Working(Phase.Purging, held, todo, purgeDays, selected, before))
      modifies this`rows, this`files, this`clock
      ensures clock == old(clock) + pause
      ensures Exec(start, fs) == With(Working(Phase.Purging, held, todo[1..], purgeDays, selected, after))
      ensures after == if old(rows)[todo[0]].source in held then before.(held := before.held + 1) else before.(purged := before.purged + 1)
      ensures PurgeTurned(old(rows), rows, old(files), files, held, todo[0], clock, io)
    {
      fs := Wait(pause, Working(Phase.Purging, held, todo, purgeDays, selected, before), start, es);
      ExecSnoc(start, fs, PurgeNext(io.removeOk, io.updateOk));
      fs := fs + [PurgeNext(io.removeOk, io.updateOk)];
      after := PurgeTurn(held, todo, purgeDays, selected, before, io.removeOk, io.updateOk);
    }

    /** The purge loop. */
    method PurgeAll(held: set<nat>, order: seq<nat>, ghost purgeDays: nat, ghost selected: nat, before: Counts, io: nat -> PurgeIo, pause: nat -> nat, ghost start: State, ghost es: seq<Event>)
      returns (counts: Counts, ghost fs: seq<Event>)
      requires Distinct(order) && forall k :: 0 <= k < |order| ==> order[k] < |rows|
      requires Exec(start, es) == With(Working(Phase.Purging, held, order, purgeDays, selected, before))
      modifies this`rows, this`files, this`clock
      ensures old(clock) <= clock
      ensures Exec(start, fs) == With(Working(Phase.Purging, held, [], purgeDays, selected, counts))
      ensures PurgeLoop(old(rows), rows, old(files), files, held, order, |order|, clock, io, before, counts)
      ensures (forall k :: 0 <= k < |order| ==> old(rows)[order[k]].source in held) ==> counts.purged == before.purged && rows == old(rows) && files == old(files)
    {
      hide Exec, PurgeLoop;
      counts, fs := before, es;
      var todo := order;
      ghost var n, idle := 0, forall k :: 0 <= k < |order| ==> rows[order[k]].source in held;
      PurgeLoopStarts(rows, files, held, order, clock, io, before);
      while todo != []
        invariant n <= |order| && todo == order[n..] && old(clock) <= clock && |rows| == |old(rows)|
        invariant Exec(start, fs) == With(Working(Phase.Purging, held, todo, purgeDays, selected, counts))
        invariant PurgeLoop(old(rows), rows, old(files), files, held, order, n, clock, io, before, counts)
        invariant idle ==> counts.purged == before.purged && rows == old(rows) && files == old(files)
        decreases |todo|
      {
        var id := todo[0];
        ghost var now, had, at, c := rows, files, clock, counts;
        counts, fs := PurgeStep(held, todo, purgeDays, selected, counts, io(id), pause(id), start, fs);
        PurgeLoopTurn(old(rows), now, rows, old(files), had, files, held, order, n, at, clock, io, before, c, counts);
        todo := todo[1..];
        n := n + 1;
      }
    }

    /** From the archive SELECT to the end of the archive loop. */
    method ArchiveHalf(held: set<nat>, archiveDays: nat, purgeDays: nat, io: nat -> Io, sweepIo: SweepIo, ghost start: State, ghost es: seq<Event>)
      returns (res: Counts, ghost order: seq<nat>, ghost at: nat, ghost events: seq<Event>)
      requires Exec(start, es) == With(HoldsRead(held, archiveDays, purgeDays))
      modifies this`rows, this`files, this`clock
      ensures old(clock) <= at <= clock && ListsArchive(old(rows), order, at, archiveDays, sweepIo.lost)
      ensures Exec(start, events) == With(Working(Phase.Archiving, held, [], purgeDays, |order|, res))
      ensures ArchiveLoop(old(rows), rows, old(files), files, held, order, |order|, at, clock, io, res)
      ensures (forall k :: 0 <= k < |order| ==> old(rows)[order[k]].source in held) ==> res.archived == 0 && res.purged == 0 && rows == old(rows) && files == old(files)
    {
      events := Wait(sweepIo.beforeArchive, HoldsRead(held, archiveDays, purgeDays), start, es);
      at := clock;
      var list := SelectToArchive(archiveDays, sweepIo.lost);
      order := list;
      ExecSnoc(start, events, SelectArchive(list));
      SweepSelects(Exec(start, events), list);
      res, events := ArchiveAll(held, list, purgeDays, io, sweepIo.beforeRow, start, events + [SelectArchive(list)]);
    }

    /** From the purge SELECT to the end of the purge loop. */
    method PurgeHalf(held: set<nat>, purgeDays: nat, before: Counts, ghost selected: nat, io: nat -> PurgeIo, sweepIo: SweepIo, ghost start: State, ghost es: seq<Event>)
      returns (res: Counts, ghost order: seq<nat>, ghost at: nat, ghost events: seq<Event>)
      requires Exec(start, es) == With(Working(Phase.Archiving, held, [], purgeDays, selected, before))
      modifies this`rows, this`files, this`clock
      ensures old(clock) <= at <= clock && ListsPurge(old(rows), order, at, purgeDays, sweepIo.lost)
      ensures Exec(start, events) == With(Working(Phase.Purging, held, [], purgeDays, selected + |order|, res))
      ensures PurgeLoop(old(rows), rows, old(files), files, held, order, |order|, clock, io, before, res)
      ensures (forall k :: 0 <= k < |order| ==> old(rows)[order[k]].source in held) ==> res.purged == before.purged && rows == old(rows) && files == old(files)
    {
      events := Wait(sweepIo.beforePurge, Working(Phase.Archiving, held, [], purgeDays, selected, before), start, es);
      at := clock;
      var list := SelectToPurge(purgeDays, sweepIo.lost);
      order := list;
      ExecSnoc(start, events, SelectPurge(list));
      SweepTurns(Exec(start, events), list);
      res, events := PurgeAll(held, list, purgeDays, selected + |list|, before, io, sweepIo.beforeRow, start, events + [SelectPurge(list)]);
    }

    ghost method Stop(sweep: Sweep, start: State, es: seq<Event>) returns (fs: seq<Event>)
      requires Exec(start, es) == With(sweep)
      ensures Exec(start, fs) == With(Off)
    {
      fs := es + [SweepStops];
      ExecSnoc(start, es, SweepStops);
    }

    /** Both halves, with what they mean for a sweep whose queries succeed. */
    method BothHalves(held: set<nat>, archiveDays: nat, purgeDays: nat, io: nat -> Io, purgeIo: nat -> PurgeIo, sweepIo: SweepIo, ghost start: State, ghost es: seq<Event>)
      returns (res: Counts, ghost toArchive: seq<nat>, ghost toPurge: seq<nat>, ghost archiveAt: nat, ghost purgeAt: nat, ghost events: seq<Event>)
      requires Exec(start, es) == With(HoldsRead(held, archiveDays, purgeDays))
      modifies this`rows, this`files, this`clock
      ensures Exec(start, events) == With(Off)
      ensures SweptFiles(old(rows), rows, old(files), files, held, toArchive, toPurge, io, purgeIo)
      ensures SweptRows(old(rows), rows, held, toArchive, toPurge, purgeIo, archiveAt, clock)
      ensures SweptCounts(old(rows), rows, held, toArchive, toPurge, res)
      ensures old(clock) <= archiveAt <= purgeAt <= clock
      ensures ListsArchive(old(rows), toArchive, archiveAt, archiveDays, sweepIo.lost)
      ensures purgeAt <= archiveAt + purgeDays * DAY ==>
        ListsPurge(old(rows), toPurge, purgeAt, purgeDays, sweepIo.lost) && forall i :: i in toArchive ==> i !in toPurge
      ensures res.failed == 0 && AllUpdated(purgeIo) && NoneLost(sweepIo.lost) ==> Settled(rows, held, archiveAt, purgeAt, archiveDays, purgeDays)
      ensures Settled(old(rows), held, archiveAt, purgeAt, archiveDays, purgeDays) ==>
        res.archived == 0 && res.purged == 0 && rows == old(rows) && files == old(files)
    {
      hide Exec, DrawsArchive, DrawsPurge, ArchiveLoop, PurgeLoop, SweptFiles, SweptRows, SweptCounts, Settled, AllUpdated, NoneLost;
      res, toArchive, archiveAt, events := ArchiveHalf(held, archiveDays, purgeDays, io, sweepIo, start, es);
      ghost var mid, midAt, between, half := rows, clock, files, res;
      res, toPurge, purgeAt, events := PurgeHalf(held, purgeDays, res, |toArchive|, purgeIo, sweepIo, start, events);
      events := Stop(Working(Phase.Purging, held, [], purgeDays, |toArchive| + |toPurge|, res), start, events);
      SweepDone(old(rows), mid, rows, old(files), between, files, held, toArchive, toPurge, archiveAt, midAt, clock, io, purgeIo, half, res);
      if Settled(old(rows), held, archiveAt, purgeAt, archiveDays, purgeDays) {
        OnlyHeldListed(old(rows), held, toArchive, archiveAt, purgeAt, archiveDays, purgeDays);
        OnlyHeldPurgeable(old(rows), held, toPurge, archiveAt, purgeAt, archiveDays, purgeDays);
      }
      if purgeAt <= archiveAt + purgeDays * DAY {
        ArchiveLoopRows(old(rows), mid, old(files), between, held, toArchive, archiveAt, midAt, io, half);
        ArchivedNowNotPurgeable(old(rows), mid, held, toArchive, archiveAt, midAt, half.failed, toPurge, purgeAt, archiveDays, purgeDays, sweepIo.lost);
      }
      if res.failed == 0 && AllUpdated(purgeIo) && NoneLost(sweepIo.lost) {
        ArchiveLoopRows(old(rows), mid, old(files), between, held, toArchive, archiveAt, midAt, io, half);
        PurgeLoopRows(mid, rows, between, files, held, toPurge, clock, purgeIo, half, res);
        SweptSettled(old(rows), mid, rows, held, toArchive, toPurge, archiveAt, midAt, purgeAt, clock, purgeIo, archiveDays, purgeDays, sweepIo.lost);
      }
    }

    /**
     * RunLifecycle, with time passing between its statements and with queries that may
     * fail or break off. Every selected row is counted once; unless the sweep takes longer than the
     * purge days no row is in both lists. A file whose removal went through is gone whatever
     * becomes of its row, and so is the old one of a file that was moved; rows that are held or
     * not listed keep theirs. If nothing fails or is lost, of what the SELECTs looked for only
     * held rows are left; and if they find only held rows, nothing changes.
     */
    method RunLifecycle(archiveDays: nat, purgeDays: nat, io: nat -> Io, purgeIo: nat -> PurgeIo, sweepIo: SweepIo)
      returns (res: Counts, ok: bool, ghost toArchive: seq<nat>, ghost toPurge: seq<nat>, ghost archiveAt: nat, ghost purgeAt: nat, ghost events: seq<Event>)
      modifies this`rows, this`files, this`clock
      ensures ok == (sweepIo.holdsOk && sweepIo.archiveOk && sweepIo.purgeOk)
      ensures With(Off) == Exec(old(With(Off)), events)
      ensures res.archived + res.purged + res.held + res.failed == |toArchive| + |toPurge|
      ensures !sweepIo.holdsOk || !sweepIo.archiveOk ==> toArchive == [] && rows == old(rows) && files == old(files)
      ensures !ok ==> toPurge == []
      ensures sweepIo.holdsOk && sweepIo.archiveOk ==> ListsArchive(old(rows), toArchive, archiveAt, archiveDays, sweepIo.lost)
      ensures sweepIo.holdsOk && sweepIo.archiveOk ==> Distinct(toArchive) && forall i: nat :: i in toArchive <==>
        i < |old(rows)| && old(rows)[i].layer == Bronze && old(rows)[i].archivedAt == None && old(rows)[i].ingestedAt + archiveDays * 86_400 < archiveAt && !sweepIo.lost(i)
      ensures sweepIo.holdsOk && sweepIo.archiveOk ==>
        && SweptFiles(old(rows), rows, old(files), files, HeldSources(holds), toArchive, toPurge, io, purgeIo)
        && SweptRows(old(rows), rows, HeldSources(holds), toArchive, toPurge, purgeIo, archiveAt, clock)
        && SweptCounts(old(rows), rows, HeldSources(holds), toArchive, toPurge, res)
      ensures forall i :: i in toPurge && i < |rows| && rows[i].source !in HeldSources(holds) && purgeIo(i).removeOk ==> rows[i].path !in files
      ensures forall i :: i in toArchive && i < |old(rows)| && old(rows)[i].source !in HeldSources(holds) && old(rows)[i].path.root == Base ==>
        io(i).mkdirOk && (io(i).renameOk || (io(i).readOk && io(i).copy == Copied && io(i).removeOk)) ==> old(rows)[i].path !in files
      ensures ok ==> old(clock) <= archiveAt <= purgeAt <= clock
      ensures ok && purgeAt <= archiveAt + purgeDays * DAY ==>
        ListsPurge(old(rows), toPurge, purgeAt, purgeDays, sweepIo.lost) && forall i :: i in toArchive ==> i !in toPurge
      ensures ok && res.failed == 0 && AllUpdated(purgeIo) && NoneLost(sweepIo.lost) ==>
        Settled(rows, HeldSources(holds), archiveAt, purgeAt, archiveDays, purgeDays)
      ensures ok && Settled(old(rows), HeldSources(holds), archiveAt, purgeAt, archiveDays, purgeDays) ==>
        res.archived == 0 && res.purged == 0 && rows == old(rows) && files == old(files)
    {
      ghost var start := With(Off);
      assert Exec(start, []) == start;
      hide Exec, HeldSources, ListsArchive, ListsPurge, ArchiveLoop, PurgeLoop, Settled, AllUpdated, NoneLost, SweptFiles, SweptRows, SweptCounts;
      res, ok, toArchive, toPurge, archiveAt, purgeAt, events := Counts(0, 0, 0, 0), false, [], [], clock, clock, [];
      if !sweepIo.holdsOk {
        return;
      }
      var held, _ := ActiveHoldFilter();
      events := [ReadHolds(archiveDays, purgeDays)];
      SweepOpens(start, archiveDays, purgeDays);
      if !sweepIo.archiveOk {
        events := Stop(HoldsRead(held, archiveDays, purgeDays), start, events);
      } else if !sweepIo.purgeOk {
        res, toArchive, archiveAt, events := ArchiveHalf(held, archiveDays, purgeDays, io, sweepIo, start, events);
        events := Stop(Working(Phase.Archiving, held, [], purgeDays, |toArchive|, res), start, events);
        PurgeLoopStarts(rows, files, held, [], clock, purgeIo, res);
        SweepDone(old(rows), rows, rows, old(files), files, files, held, toArchive, [], archiveAt, clock, clock, io, purgeIo, res, res);
        ArchiveListMeans(old(rows), toArchive, archiveAt, archiveDays, sweepIo.lost);
        SweptFilesMeans(old(rows), rows, old(files), files, held, toArchive, toPurge, io, purgeIo);
      } else {
        ok := true;
        res, toArchive, toPurge, archiveAt, purgeAt, events := BothHalves(held, archiveDays, purgeDays, io, purgeIo, sweepIo, start, events);
        ArchiveListMeans(old(rows), toArchive, archiveAt, archiveDays, sweepIo.lost);
        SweptFilesMeans(old(rows), rows, old(files), files, held, toArchive, toPurge, io, purgeIo);
      }
    }
  }
}
