/** What one lifecycle sweep does to files, rows and counts, row by row. */
module SweepEffects {
  import opened Prelude
  import opened Lakehouse

  /** How removing one file and updating its row turn out. */
  datatype PurgeIo = PurgeIo(removeOk: bool, updateOk: bool)

  /** The file part of an archive attempt gets the bytes to the backup path. */
  predicate Carries(io: Io) {
    io.mkdirOk && (io.renameOk || (io.readOk && io.copy.Copied?))
  }

  /** The file at `p` is the same in both, or missing in both. */
  predicate SameAt(a: map<Path, string>, b: map<Path, string>, p: Path) {
    (p in a <==> p in b) && (p in a ==> a[p] == b[p])
  }

  /** Everything an archive attempt does to the files. */
  lemma MoveFileExact(files: map<Path, string>, src: Path, io: Io)
    requires src.root.Base?
    ensures var (after, moved) := MoveFile(files, src, io);
      var dst := Path(Backup, src.rel);
      && (moved <==> src in files && Carries(io))
      && (src in after <==> src in files && !Moves(io))
      && (src in after ==> after[src] == files[src])
      && (moved ==> dst in after && after[dst] == files[src])
      && (!moved ==> after == if src in files && io.mkdirOk && io.readOk && io.copy.Partial? then files[dst := io.copy.bytes] else files)
      && forall p :: p != src && p != dst ==> SameAt(files, after, p)
  {
  }

  /** A purge removes the file whatever becomes of the row, and no other file. */
  lemma PurgeRemoves(s: State, removeOk: bool, updateOk: bool)
    requires InPhase(s, Purging) && s.sweep.todo != [] && s.sweep.todo[0] < |s.rows| && s.rows[s.sweep.todo[0]].source !in s.sweep.held
    ensures var t, path := Apply(s, PurgeNext(removeOk, updateOk)), s.rows[s.sweep.todo[0]].path;
      && (path in t.files <==> path in s.files && !removeOk)
      && (forall p :: p != path || !removeOk ==> SameAt(s.files, t.files, p))
      && (updateOk ==> t.rows[s.sweep.todo[0]].purgedAt == Some(s.clock))
      && (!updateOk ==> t.rows == s.rows)
  {
  }

  // ---------------------------------------------------------- the archive loop

  /** Row and files after the archive turn of a row that is not held. */
  predicate Shelved(was: Row, now: Row, before: map<Path, string>, after: map<Path, string>, io: Io) {
    var dst := Path(Backup, was.path.rel);
    if was.path in before && Carries(io) then
      && dst in after && after[dst] == before[was.path] && (was.path in after <==> !Moves(io))
      && (io.updateOk ==> now.archivedAt.Some? && now.path == dst) && (!io.updateOk ==> now == was)
    else now == was && SameAt(before, after, was.path)
  }

  /** One of the first `n` rows of the list is not held and was written under the name. */
  ghost predicate Touched(rows: seq<Row>, held: set<nat>, order: seq<nat>, n: nat, rel: Rel) {
    exists k: nat :: k < n && k < |order| && order[k] < |rows| && rows[order[k]].source !in held && rows[order[k]].path.rel == rel
  }

  /** What the first `n` turns of the archive loop have done to the files. */
  ghost predicate MovedSoFar(was: seq<Row>, now: seq<Row>, before: map<Path, string>, after: map<Path, string>, held: set<nat>, order: seq<nat>, n: nat, io: nat -> Io) {
    && |now| == |was| && n <= |order| && (forall k :: 0 <= k < |order| ==> order[k] < |was|)
    && (forall p: Path :: p.root.Base? && p in after ==> p in before && after[p] == before[p])
    && (forall k :: 0 <= k < n && was[order[k]].source !in held && was[order[k]].path.root.Base? && Moves(io(order[k])) ==> was[order[k]].path !in after)
    && (forall p: Path :: !Touched(was, held, order, n, p.rel) ==> SameAt(before, after, p))
    && (RelsDistinct(was) ==> forall k :: 0 <= k < n && was[order[k]].source !in held && was[order[k]].path.root.Base? ==>
          Shelved(was[order[k]], now[order[k]], before, after, io(order[k])))
  }

  /** One archive turn on `row`, as far as rows and files go. */
  ghost predicate ArchiveTurned(now: seq<Row>, next: seq<Row>, before: map<Path, string>, after: map<Path, string>, held: set<nat>, id: nat, at: nat, io: Io)
    requires id < |now|
  {
    var (files, moved) := MoveFile(before, now[id].path, io);
    if now[id].source in held then next == now && after == before
    else after == files && next == if moved && io.updateOk then now[id := now[id].(archivedAt := Some(at), path := Path(Backup, now[id].path.rel))] else now
  }

  /** The files of other names stay as they are in a turn. */
  lemma TurnFrame(now: seq<Row>, next: seq<Row>, before: map<Path, string>, after: map<Path, string>, held: set<nat>, id: nat, at: nat, io: Io, p: Path)
    requires id < |now| && ArchiveTurned(now, next, before, after, held, id, at, io)
    requires now[id].source in held || p.rel != now[id].path.rel
    ensures SameAt(before, after, p)
  {
  }

  lemma TouchedSnoc(rows: seq<Row>, held: set<nat>, order: seq<nat>, n: nat, rel: Rel)
    requires n < |order| && order[n] < |rows|
    ensures Touched(rows, held, order, n + 1, rel) <==> Touched(rows, held, order, n, rel) || (rows[order[n]].source !in held && rows[order[n]].path.rel == rel)
  {
    if rows[order[n]].source !in held && rows[order[n]].path.rel == rel {
      assert n < n + 1;
    }
  }

  /** What the turn of row `n` adds. */
  lemma MovedOwn(was: seq<Row>, now: seq<Row>, next: seq<Row>, before: map<Path, string>, mid: map<Path, string>, after: map<Path, string>,
      held: set<nat>, order: seq<nat>, n: nat, at: nat, io: nat -> Io)
    requires MovedSoFar(was, now, before, mid, held, order, n, io) && n < |order| && Distinct(order) && now[order[n]] == was[order[n]]
    requires ArchiveTurned(now, next, mid, after, held, order[n], at, io(order[n]))
    requires was[order[n]].source !in held && was[order[n]].path.root.Base?
    ensures Moves(io(order[n])) ==> was[order[n]].path !in after
    ensures RelsDistinct(was) ==> Shelved(was[order[n]], next[order[n]], before, after, io(order[n]))
  {
    var path := was[order[n]].path;
    MoveFileExact(mid, path, io(order[n]));
    if RelsDistinct(was) {
      assert SameAt(before, mid, path) by {
        if Touched(was, held, order, n, path.rel) {
          var k: nat :| k < n && was[order[k]].path.rel == path.rel;
          assert order[k] != order[n];
        }
      }
    }
  }

  /** A turn takes nothing back from the rows before. */
  lemma MovedEarlier(was: seq<Row>, now: seq<Row>, next: seq<Row>, before: map<Path, string>, mid: map<Path, string>, after: map<Path, string>,
      held: set<nat>, order: seq<nat>, n: nat, at: nat, io: nat -> Io, k: nat)
    requires MovedSoFar(was, now, before, mid, held, order, n, io) && k < n < |order| && Distinct(order) && now[order[n]] == was[order[n]]
    requires ArchiveTurned(now, next, mid, after, held, order[n], at, io(order[n]))
    requires was[order[k]].source !in held && was[order[k]].path.root.Base? && RelsDistinct(was)
    ensures Shelved(was[order[k]], next[order[k]], before, after, io(order[k]))
  {
    var path := was[order[k]].path;
    assert order[k] != order[n] && path.rel != was[order[n]].path.rel;
    TurnFrame(now, next, mid, after, held, order[n], at, io(order[n]), path);
    TurnFrame(now, next, mid, after, held, order[n], at, io(order[n]), Path(Backup, path.rel));
  }

  lemma BaseOnlyGoes(now: seq<Row>, next: seq<Row>, before: map<Path, string>, after: map<Path, string>, held: set<nat>, id: nat, at: nat, io: Io, p: Path)
    requires id < |now| && ArchiveTurned(now, next, before, after, held, id, at, io) && p.root.Base? && p in after
    ensures p in before && after[p] == before[p]
  {
  }

  lemma MovedRow(was: seq<Row>, now: seq<Row>, next: seq<Row>, before: map<Path, string>, mid: map<Path, string>, after: map<Path, string>,
      held: set<nat>, order: seq<nat>, n: nat, at: nat, io: nat -> Io, k: nat)
    requires MovedSoFar(was, now, before, mid, held, order, n, io) && n < |order| && Distinct(order) && now[order[n]] == was[order[n]]
    requires ArchiveTurned(now, next, mid, after, held, order[n], at, io(order[n]))
    requires k <= n && was[order[k]].source !in held && was[order[k]].path.root.Base?
    ensures |next| == |was|
    ensures Moves(io(order[k])) ==> was[order[k]].path !in after
    ensures RelsDistinct(was) ==> Shelved(was[order[k]], next[order[k]], before, after, io(order[k]))
  {
    hide Moves, Shelved, Touched;
    if k == n {
      MovedOwn(was, now, next, before, mid, after, held, order, n, at, io);
    } else {
      if RelsDistinct(was) {
        MovedEarlier(was, now, next, before, mid, after, held, order, n, at, io, k);
      }
      if Moves(io(order[k])) && was[order[k]].path in after {
        BaseOnlyGoes(now, next, mid, after, held, order[n], at, io(order[n]), was[order[k]].path);
      }
    }
  }

  lemma MovedElsewhere(was: seq<Row>, now: seq<Row>, next: seq<Row>, before: map<Path, string>, mid: map<Path, string>, after: map<Path, string>,
      held: set<nat>, order: seq<nat>, n: nat, at: nat, io: nat -> Io, p: Path)
    requires MovedSoFar(was, now, before, mid, held, order, n, io) && n < |order| && Distinct(order) && now[order[n]] == was[order[n]]
    requires ArchiveTurned(now, next, mid, after, held, order[n], at, io(order[n]))
    ensures p.root.Base? && p in after ==> p in before && after[p] == before[p]
    ensures !Touched(was, held, order, n + 1, p.rel) ==> SameAt(before, after, p)
  {
    if p.root.Base? && p in after {
      BaseOnlyGoes(now, next, mid, after, held, order[n], at, io(order[n]), p);
    }
    TouchedSnoc(was, held, order, n, p.rel);
    if !Touched(was, held, order, n + 1, p.rel) {
      TurnFrame(now, next, mid, after, held, order[n], at, io(order[n]), p);
    }
  }

  lemma MovedTurn(was: seq<Row>, now: seq<Row>, next: seq<Row>, before: map<Path, string>, mid: map<Path, string>, after: map<Path, string>,
      held: set<nat>, order: seq<nat>, n: nat, at: nat, io: nat -> Io)
    requires MovedSoFar(was, now, before, mid, held, order, n, io) && n < |order| && Distinct(order) && now[order[n]] == was[order[n]]
    requires ArchiveTurned(now, next, mid, after, held, order[n], at, io(order[n]))
    ensures MovedSoFar(was, next, before, after, held, order, n + 1, io)
  {
    assert |next| == |was| && forall k :: 0 <= k < |order| ==> order[k] < |was|;
    hide Shelved, Moves, ArchiveTurned, Touched, RelsDistinct, SameAt;
    forall p: Path
      ensures p.root.Base? && p in after ==> p in before && after[p] == before[p]
      ensures !Touched(was, held, order, n + 1, p.rel) ==> SameAt(before, after, p)
    {
      MovedElsewhere(was, now, next, before, mid, after, held, order, n, at, io, p);
    }
    forall k: nat | k <= n && was[order[k]].source !in held && was[order[k]].path.root.Base?
      ensures Moves(io(order[k])) ==> was[order[k]].path !in after
      ensures RelsDistinct(was) ==> Shelved(was[order[k]], next[order[k]], before, after, io(order[k]))
    {
      MovedRow(was, now, next, before, mid, after, held, order, n, at, io, k);
    }
  }

  // ---------------------------------------------------------------- the counts

  /** The rows whose archive time has changed. */
  function NewlyArchived(was: seq<Row>, now: seq<Row>): set<nat> {
    set i: nat | i < |was| && i < |now| && now[i].archivedAt != was[i].archivedAt
  }

  /** The listed rows of held sources. */
  function HeldOf(rows: seq<Row>, held: set<nat>, order: seq<nat>): set<nat> {
    set i | i in order && i < |rows| && rows[i].source in held
  }

  lemma HeldOfSnoc(rows: seq<Row>, held: set<nat>, order: seq<nat>, n: nat)
    requires n < |order| && order[n] < |rows| && Distinct(order)
    ensures |HeldOf(rows, held, order[..n + 1])| == |HeldOf(rows, held, order[..n])| + if rows[order[n]].source in held then 1 else 0
  {
    assert order[..n + 1] == order[..n] + [order[n]] && order[n] !in order[..n];
    assert HeldOf(rows, held, order[..n + 1]) == HeldOf(rows, held, order[..n]) + if rows[order[n]].source in held then {order[n]} else {};
  }

  lemma NewlySnoc(was: seq<Row>, now: seq<Row>, id: nat, row: Row)
    requires |now| == |was| && id < |was| && now[id] == was[id] && row.archivedAt != was[id].archivedAt
    ensures |NewlyArchived(was, now[id := row])| == |NewlyArchived(was, now)| + 1
  {
    assert NewlyArchived(was, now[id := row]) == NewlyArchived(was, now) + {id};
  }

  /** What the first `n` turns of the archive loop have counted. */
  ghost predicate CountedSoFar(was: seq<Row>, now: seq<Row>, held: set<nat>, order: seq<nat>, n: nat, c: Counts) {
    && n <= |order| && |now| == |was|
    && c.archived == |NewlyArchived(was, now)| && c.held == |HeldOf(was, held, order[..n])|
    && c.purged == 0 && c.archived + c.held + c.failed == n
  }

  lemma CountedTurn(was: seq<Row>, now: seq<Row>, next: seq<Row>, before: map<Path, string>, after: map<Path, string>,
      held: set<nat>, order: seq<nat>, n: nat, at: nat, io: Io, c: Counts, c': Counts)
    requires CountedSoFar(was, now, held, order, n, c) && n < |order| && Distinct(order)
    requires order[n] < |was| && now[order[n]] == was[order[n]] && was[order[n]].archivedAt.None?
    requires ArchiveTurned(now, next, before, after, held, order[n], at, io) && CountsTurn(now, next, held, order[n], c, c')
    ensures CountedSoFar(was, next, held, order, n + 1, c')
  {
    hide NewlyArchived, HeldOf, MoveFile;
    HeldOfSnoc(was, held, order, n);
    if next != now {
      NewlySnoc(was, now, order[n], next[order[n]]);
    }
  }

  lemma MovedNothing(rows: seq<Row>, files: map<Path, string>, held: set<nat>, order: seq<nat>, io: nat -> Io)
    requires forall k :: 0 <= k < |order| ==> order[k] < |rows|
    ensures MovedSoFar(rows, rows, files, files, held, order, 0, io) && CountedSoFar(rows, rows, held, order, 0, Counts(0, 0, 0, 0))
  {
    assert NewlyArchived(rows, rows) == {} && HeldOf(rows, held, order[..0]) == {};
  }

  /** One turn counts its row as held, archived or failed. */
  ghost predicate CountsTurn(now: seq<Row>, next: seq<Row>, held: set<nat>, id: nat, c: Counts, c': Counts)
    requires id < |now|
  {
    c' == if now[id].source in held then c.(held := c.held + 1)
          else if next != now then c.(archived := c.archived + 1)
          else c.(failed := c.failed + 1)
  }

  // ------------------------------------------------------------ the purge loop

  /** One of the first `n` rows of the list is not held, had this path, and its removal went through. */
  ghost predicate Removed(rows: seq<Row>, held: set<nat>, order: seq<nat>, n: nat, io: nat -> PurgeIo, p: Path) {
    exists k: nat :: k < n && k < |order| && order[k] < |rows| && rows[order[k]].source !in held && io(order[k]).removeOk && rows[order[k]].path == p
  }

  /** The first `n` turns of the purge loop have removed those files and no others. */
  ghost predicate RemovedSoFar(rows: seq<Row>, before: map<Path, string>, after: map<Path, string>, held: set<nat>, order: seq<nat>, n: nat, io: nat -> PurgeIo) {
    && (forall p :: p in after <==> p in before && !Removed(rows, held, order, n, io, p))
    && (forall p :: p in after ==> after[p] == before[p])
  }

  lemma RemovedTurn(rows: seq<Row>, before: map<Path, string>, mid: map<Path, string>, after: map<Path, string>, held: set<nat>, order: seq<nat>, n: nat, io: nat -> PurgeIo)
    requires RemovedSoFar(rows, before, mid, held, order, n, io) && n < |order| && order[n] < |rows|
    requires after == if rows[order[n]].source !in held && io(order[n]).removeOk then mid - {rows[order[n]].path} else mid
    ensures RemovedSoFar(rows, before, after, held, order, n + 1, io)
  {
    forall p
      ensures Removed(rows, held, order, n + 1, io, p) <==>
        Removed(rows, held, order, n, io, p) || (rows[order[n]].source !in held && io(order[n]).removeOk && rows[order[n]].path == p)
    {
      if rows[order[n]].source !in held && io(order[n]).removeOk && rows[order[n]].path == p {
        assert n < n + 1;
      }
    }
  }

  // ------------------------------------------------------------ the whole sweep

  ghost predicate SweptFiles(was: seq<Row>, now: seq<Row>, before: map<Path, string>, after: map<Path, string>, held: set<nat>,
      toArchive: seq<nat>, toPurge: seq<nat>, io: nat -> Io, purgeIo: nat -> PurgeIo)
  {
    && |now| == |was| && (forall i :: i in toArchive || i in toPurge ==> i < |was|)
    && (forall i :: i in toPurge && now[i].source !in held && purgeIo(i).removeOk ==> now[i].path !in after)
    && (forall i :: i in toArchive && was[i].source !in held && was[i].path.root.Base? && Moves(io(i)) ==> was[i].path !in after)
    && (RelsDistinct(was) ==>
          && (forall i :: i in toArchive && i !in toPurge && was[i].source !in held && was[i].path.root.Base? ==> Shelved(was[i], now[i], before, after, io(i)))
          && (forall i: nat :: i < |was| && (i !in toArchive || was[i].source in held) && (i in toPurge && was[i].source !in held ==> !purgeIo(i).removeOk) ==>
                SameAt(before, after, was[i].path)))
  }

  /** The two loops of a sweep, one after the other. */
  ghost predicate TwoLoops(was: seq<Row>, mid: seq<Row>, now: seq<Row>, before: map<Path, string>, between: map<Path, string>, after: map<Path, string>, held: set<nat>,
      toArchive: seq<nat>, toPurge: seq<nat>, io: nat -> Io, purgeIo: nat -> PurgeIo)
  {
    && MovedSoFar(was, mid, before, between, held, toArchive, |toArchive|, io)
    && RemovedSoFar(mid, between, after, held, toPurge, |toPurge|, purgeIo)
    && |now| == |was| && (forall k :: 0 <= k < |toPurge| ==> toPurge[k] < |was|)
    && (forall i :: 0 <= i < |was| ==> mid[i].path.rel == was[i].path.rel && mid[i].source == was[i].source == now[i].source && now[i].path == mid[i].path)
    && (forall i: nat :: i < |was| && (i !in toArchive || was[i].source in held) ==> mid[i] == was[i])
    && (forall i: nat :: i < |was| && i !in toPurge ==> now[i] == mid[i])
  }

  /** A file removed in the purge loop has the name of a row purged there. */
  lemma KeptInPurge(rows: seq<Row>, before: map<Path, string>, after: map<Path, string>, held: set<nat>, order: seq<nat>, io: nat -> PurgeIo, i: nat, p: Path)
    requires RemovedSoFar(rows, before, after, held, order, |order|, io) && RelsDistinct(rows) && i < |rows| && p.rel == rows[i].path.rel
    requires i in order && rows[i].source !in held ==> !io(i).removeOk
    ensures SameAt(before, after, p)
  {
    assert !Removed(rows, held, order, |order|, io, p);
  }

  lemma SweptPurged(was: seq<Row>, mid: seq<Row>, now: seq<Row>, before: map<Path, string>, between: map<Path, string>, after: map<Path, string>, held: set<nat>,
      toArchive: seq<nat>, toPurge: seq<nat>, io: nat -> Io, purgeIo: nat -> PurgeIo, i: nat)
    requires TwoLoops(was, mid, now, before, between, after, held, toArchive, toPurge, io, purgeIo)
    requires i in toPurge && now[i].source !in held && purgeIo(i).removeOk
    ensures now[i].path !in after
  {
    var k: nat :| k < |toPurge| && toPurge[k] == i;
    assert mid[toPurge[k]].path == now[i].path;
    assert Removed(mid, held, toPurge, |toPurge|, purgeIo, now[i].path);
  }

  lemma SweptMoved(was: seq<Row>, mid: seq<Row>, now: seq<Row>, before: map<Path, string>, between: map<Path, string>, after: map<Path, string>, held: set<nat>,
      toArchive: seq<nat>, toPurge: seq<nat>, io: nat -> Io, purgeIo: nat -> PurgeIo, i: nat)
    requires TwoLoops(was, mid, now, before, between, after, held, toArchive, toPurge, io, purgeIo)
    requires i in toArchive && was[i].source !in held && was[i].path.root.Base?
    ensures Moves(io(i)) ==> was[i].path !in after
    ensures RelsDistinct(was) && i !in toPurge ==> Shelved(was[i], now[i], before, after, io(i))
  {
    hide Moves, Carries, Removed, Touched;
    var k: nat :| k < |toArchive| && toArchive[k] == i;
    if RelsDistinct(was) && i !in toPurge {
      KeptInPurge(mid, between, after, held, toPurge, purgeIo, i, was[i].path);
      KeptInPurge(mid, between, after, held, toPurge, purgeIo, i, Path(Backup, was[i].path.rel));
      assert Shelved(was[toArchive[k]], mid[toArchive[k]], before, between, io(toArchive[k]));
    }
  }

  lemma SweptOther(was: seq<Row>, mid: seq<Row>, now: seq<Row>, before: map<Path, string>, between: map<Path, string>, after: map<Path, string>, held: set<nat>,
      toArchive: seq<nat>, toPurge: seq<nat>, io: nat -> Io, purgeIo: nat -> PurgeIo, i: nat)
    requires TwoLoops(was, mid, now, before, between, after, held, toArchive, toPurge, io, purgeIo) && RelsDistinct(was)
    requires i < |was| && (i !in toArchive || was[i].source in held) && (i in toPurge && was[i].source !in held ==> !purgeIo(i).removeOk)
    ensures SameAt(before, after, was[i].path)
  {
    KeptInPurge(mid, between, after, held, toPurge, purgeIo, i, was[i].path);
    assert !Touched(was, held, toArchive, |toArchive|, was[i].path.rel);
  }

  lemma SweepFiles(was: seq<Row>, mid: seq<Row>, now: seq<Row>, before: map<Path, string>, between: map<Path, string>, after: map<Path, string>, held: set<nat>,
      toArchive: seq<nat>, toPurge: seq<nat>, io: nat -> Io, purgeIo: nat -> PurgeIo)
    requires TwoLoops(was, mid, now, before, between, after, held, toArchive, toPurge, io, purgeIo)
    ensures SweptFiles(was, now, before, after, held, toArchive, toPurge, io, purgeIo)
  {
    hide RelsDistinct, Shelved, SameAt, Moves;
    assert |now| == |was| && forall i :: i in toArchive || i in toPurge ==> i < |was|;
    hide TwoLoops;
    forall i | i in toPurge && now[i].source !in held && purgeIo(i).removeOk
      ensures now[i].path !in after
    {
      SweptPurged(was, mid, now, before, between, after, held, toArchive, toPurge, io, purgeIo, i);
    }
    forall i | i in toArchive && was[i].source !in held && was[i].path.root.Base?
      ensures Moves(io(i)) ==> was[i].path !in after
      ensures RelsDistinct(was) && i !in toPurge ==> Shelved(was[i], now[i], before, after, io(i))
    {
      SweptMoved(was, mid, now, before, between, after, held, toArchive, toPurge, io, purgeIo, i);
    }
    forall i: nat | RelsDistinct(was) && i < |was| && (i !in toArchive || was[i].source in held) && (i in toPurge && was[i].source !in held ==> !purgeIo(i).removeOk)
      ensures SameAt(before, after, was[i].path)
    {
      SweptOther(was, mid, now, before, between, after, held, toArchive, toPurge, io, purgeIo, i);
    }
  }
}
