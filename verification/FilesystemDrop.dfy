/**
 * The filesystem_drop puller: one record per file modified after the checkpoint, and
 * what that means for a directory in which files arrive, are rewritten and go away.
 * Time 0 is Go's zero time.
 */
module FilesystemDrop {
  import opened Prelude

  /** A file as a walk sees it; a file that is rewritten is another value under the same path. */
  datatype File = File(path: string, modified: nat, digest: string)

  /** An entry of a walk: one that cannot be listed or examined, a directory, or a file. */
  datatype Entry = Broken(path: string) | Directory(path: string) | Regular(file: File)

  /** The files of a walk, in its order. */
  function Files(walk: seq<Entry>): seq<File> {
    if walk == [] then []
    else Files(walk[..|walk| - 1]) + if walk[|walk| - 1].Regular? then [walk[|walk| - 1].file] else []
  }

  lemma FilesSnoc(walk: seq<Entry>, e: Entry)
    ensures Files(walk + [e]) == if e.Regular? then Files(walk) + [e.file] else Files(walk)
  {
    assert (walk + [e])[..|walk|] == walk;
  }

  /** The files of a walk that are newer than `since`, in walk order. */
  function NewerThan(dir: seq<File>, since: nat): seq<File> {
    if dir == [] then []
    else NewerThan(dir[..|dir| - 1], since) + if dir[|dir| - 1].modified > since then [dir[|dir| - 1]] else []
  }

  /** The latest modification time, or 0. */
  function Newest(files: seq<File>): nat {
    if files == [] then 0
    else
      var m := Newest(files[..|files| - 1]);
      if files[|files| - 1].modified > m then files[|files| - 1].modified else m
  }

  /** The checkpoint a pull saves. */
  function NextCheckpoint(dir: seq<File>, since: nat): nat {
    var newest := Newest(NewerThan(dir, since));
    if newest != 0 then newest else since
  }

  lemma NewerSnoc(dir: seq<File>, f: File, since: nat)
    ensures NewerThan(dir + [f], since) == if f.modified > since then NewerThan(dir, since) + [f] else NewerThan(dir, since)
  {
    assert (dir + [f])[..|dir|] == dir;
  }

  lemma NewestSnoc(files: seq<File>, f: File)
    ensures Newest(files + [f]) == if f.modified > Newest(files) then f.modified else Newest(files)
  {
    assert (files + [f])[..|files|] == files;
  }

  /** The walk gets past the entry: it can be examined, and read if it is a new file. */
  predicate Passes(e: Entry, since: nat, unreadable: set<string>) {
    match e
    case Broken(_) => false
    case Directory(_) => true
    case Regular(f) => f.modified > since ==> f.path !in unreadable
  }

  /** Entry `i` is the first that the walk does not get past, and the error names it. */
  predicate StopsAt(walk: seq<Entry>, i: nat, since: nat, unreadable: set<string>, path: string) {
    && i < |walk| && (walk[i] == Broken(path) || (walk[i].Regular? && walk[i].file.modified > since && walk[i].file.path in unreadable && walk[i].file.path == path))
    && forall j :: 0 <= j < i ==> Passes(walk[j], since, unreadable)
  }

  lemma StopsHere(walk: seq<Entry>, i: nat, since: nat, unreadable: set<string>, path: string)
    requires i < |walk| && forall e :: e in walk[..i] ==> Passes(e, since, unreadable)
    requires walk[i] == Broken(path) || (walk[i].Regular? && walk[i].file.modified > since && walk[i].file.path in unreadable && walk[i].file.path == path)
    ensures StopsAt(walk, i, since, unreadable, path)
  {
    assert forall j :: 0 <= j < i ==> walk[j] in walk[..i];
  }

  /** One walk; it fails as a whole when any entry cannot be examined or any new file cannot be read. */
  method PullFilesystemDrop(walk: seq<Entry>, since: nat, unreadable: set<string>) returns (pulled: Result<(seq<File>, nat), string>, ghost stop: nat)
    ensures pulled.Ok? ==> pulled.value == (NewerThan(Files(walk), since), NextCheckpoint(Files(walk), since))
    ensures pulled.Ok? <==> forall e :: e in walk ==> Passes(e, since, unreadable)
    ensures pulled.Err? ==> StopsAt(walk, stop, since, unreadable, pulled.error)
  {
    var records: seq<File> := [];
    var newestMod := 0;
    stop := 0;
    hide StopsAt;
    for i := 0 to |walk|
      invariant records == NewerThan(Files(walk[..i]), since) && newestMod == Newest(records)
      invariant forall e :: e in walk[..i] ==> Passes(e, since, unreadable)
    {
      var e := walk[i];
      assert walk[..i + 1] == walk[..i] + [e] && e in walk;
      FilesSnoc(walk[..i], e);
      if e.Broken? {
        StopsHere(walk, i, since, unreadable, e.path);
        return Err(e.path), i;
      }
      if e.Directory? {
        continue;
      }
      var f := e.file;
      NewerSnoc(Files(walk[..i]), f, since);
      if !(f.modified > since) {
        continue;
      }
      if f.path in unreadable {
        StopsHere(walk, i, since, unreadable, f.path);
        return Err(f.path), i;
      }
      NewestSnoc(records, f);
      records := records + [f];
      if f.modified > newestMod {
        newestMod := f.modified;
      }
    }
    assert walk[..|walk|] == walk;
    pulled := Ok((records, if newestMod != 0 then newestMod else since));
  }

  lemma {:induction false} NewerThanExact(dir: seq<File>, since: nat)
    ensures forall f :: f in NewerThan(dir, since) <==> f in dir && f.modified > since
  {
    if dir != [] {
      NewerThanExact(dir[..|dir| - 1], since);
      assert dir == dir[..|dir| - 1] + [dir[|dir| - 1]];
    }
  }

  lemma {:induction false} NewestBounds(files: seq<File>)
    ensures forall f :: f in files ==> f.modified <= Newest(files)
    ensures Newest(files) != 0 ==> exists f :: f in files && f.modified == Newest(files)
  {
    if files != [] {
      var front, last := files[..|files| - 1], files[|files| - 1];
      NewestBounds(front);
      assert files == front + [last];
      if Newest(files) != 0 && last.modified < Newest(files) {
        var f :| f in front && f.modified == Newest(front);
        assert f in files;
      }
    }
  }

  /** What is new keeps the order of the walk: the new files of two stretches are those of the one and then those of the other. */
  lemma {:induction false} NewerInOrder(a: seq<File>, b: seq<File>, since: nat)
    ensures NewerThan(a + b, since) == NewerThan(a, since) + NewerThan(b, since)
  {
    if b == [] {
      assert a + b == a;
    } else {
      var front, f := b[..|b| - 1], b[|b| - 1];
      NewerInOrder(a, front, since);
      assert a + b == (a + front) + [f] && b == front + [f];
      NewerSnoc(a + front, f, since);
      NewerSnoc(front, f, since);
    }
  }

  lemma {:induction false} FilesInOrder(a: seq<Entry>, b: seq<Entry>)
    ensures Files(a + b) == Files(a) + Files(b)
  {
    if b == [] {
      assert a + b == a;
    } else {
      var front, e := b[..|b| - 1], b[|b| - 1];
      FilesInOrder(a, front);
      assert a + b == (a + front) + [e] && b == front + [e];
      FilesSnoc(a + front, e);
      FilesSnoc(front, e);
    }
  }

  /** Every file of the walk that is newer is pulled at its place: after the newer ones before it and before the newer ones behind it. */
  lemma PulledInPlace(walk: seq<Entry>, since: nat, i: nat)
    requires i < |walk|
    ensures NewerThan(Files(walk), since) ==
      NewerThan(Files(walk[..i]), since)
      + (if walk[i].Regular? && walk[i].file.modified > since then [walk[i].file] else [])
      + NewerThan(Files(walk[i + 1..]), since)
  {
    var before, e, after := walk[..i], walk[i], walk[i + 1..];
    assert walk == (before + [e]) + after;
    FilesInOrder(before + [e], after);
    FilesSnoc(before, e);
    NewerInOrder(Files(before + [e]), Files(after), since);
    if e.Regular? {
      NewerSnoc(Files(before), e.file, since);
    }
  }

  /** The saved checkpoint is never earlier than the one resumed from, and every file in the directory is at or before it. */
  lemma CheckpointCovers(dir: seq<File>, since: nat)
    ensures since <= NextCheckpoint(dir, since)
    ensures forall f :: f in dir ==> f.modified <= NextCheckpoint(dir, since)
  {
    var newer := NewerThan(dir, since);
    NewerThanExact(dir, since);
    NewestBounds(newer);
    forall f | f in dir
      ensures f.modified <= NextCheckpoint(dir, since)
    {
      if f.modified > since { assert f in newer; }
    }
  }

  /** One pull: what the walk finds, whether the lookup finds the checkpoint, and whether the new one is saved. */
  datatype Pull = Pull(dir: seq<File>, found: bool, saved: bool)

  /** The checkpoint that stands after the pulls. A pull that does not find it starts from the beginning. */
  function Standing(pulls: seq<Pull>): nat {
    if pulls == [] then 0
    else
      var before, p := Standing(pulls[..|pulls| - 1]), pulls[|pulls| - 1];
      if p.saved then NextCheckpoint(p.dir, if p.found then before else 0) else before
  }

  /** The checkpoint that pull `m` reads. */
  function ReadBy(pulls: seq<Pull>, m: nat): nat
    requires m < |pulls|
  {
    if pulls[m].found then Standing(pulls[..m]) else 0
  }

  /** What pull `m` ingests. */
  function IngestedAt(pulls: seq<Pull>, m: nat): seq<File>
    requires m < |pulls|
  {
    NewerThan(pulls[m].dir, ReadBy(pulls, m))
  }

  /** Pull `k` is the first to see the file. */
  predicate FirstSeen(pulls: seq<Pull>, k: nat, f: File) {
    k < |pulls| && f in pulls[k].dir && forall i :: 0 <= i < k ==> f !in pulls[i].dir
  }

  predicate AllFound(pulls: seq<Pull>) {
    forall i | 0 <= i < |pulls| :: pulls[i].found
  }

  predicate AllSaved(pulls: seq<Pull>) {
    forall i | 0 <= i < |pulls| :: pulls[i].saved
  }

  lemma StandingStep(pulls: seq<Pull>, m: nat)
    requires m < |pulls|
    ensures Standing(pulls[..m + 1]) == if pulls[m].saved then NextCheckpoint(pulls[m].dir, ReadBy(pulls, m)) else Standing(pulls[..m])
  {
    assert pulls[..m + 1][..m] == pulls[..m] && pulls[..m + 1][m] == pulls[m];
  }

  /** While every lookup finds the checkpoint, it does not go back. */
  lemma {:induction false} NeverBack(pulls: seq<Pull>, k: nat, m: nat)
    requires AllFound(pulls) && k <= m <= |pulls|
    ensures Standing(pulls[..k]) <= Standing(pulls[..m])
  {
    if k < m {
      NeverBack(pulls, k, m - 1);
      StandingStep(pulls, m - 1);
      CheckpointCovers(pulls[m - 1].dir, Standing(pulls[..m - 1]));
    }
  }

  /** A file that a saved pull has seen is covered from then on, while every lookup finds the checkpoint. */
  lemma StaysCovered(pulls: seq<Pull>, k: nat, m: nat, f: File)
    requires AllFound(pulls) && k < m <= |pulls| && f in pulls[k].dir && pulls[k].saved
    ensures f.modified <= Standing(pulls[..m])
  {
    StandingStep(pulls, k);
    CheckpointCovers(pulls[k].dir, Standing(pulls[..k]));
    NeverBack(pulls, k + 1, m);
  }

  /** Exactly the files that a pull sees and that are newer than the checkpoint it reads are ingested by it; without a checkpoint found, all of them. */
  lemma IngestedExactly(pulls: seq<Pull>, m: nat, f: File)
    requires m < |pulls|
    ensures f in IngestedAt(pulls, m) <==> f in pulls[m].dir && f.modified > ReadBy(pulls, m)
    ensures !pulls[m].found && f.modified > 0 ==> (f in IngestedAt(pulls, m) <==> f in pulls[m].dir)
  {
    NewerThanExact(pulls[m].dir, ReadBy(pulls, m));
  }

  /**
   * While every lookup finds the checkpoint, whether or not it is saved each time, a file
   * is ever ingested if and only if the first pull that sees it ingests it.
   */
  lemma FirstSightDecides(pulls: seq<Pull>, k: nat, f: File)
    requires AllFound(pulls) && FirstSeen(pulls, k, f)
    ensures (exists m :: 0 <= m < |pulls| && f in IngestedAt(pulls, m)) <==> f.modified > Standing(pulls[..k])
  {
    IngestedExactly(pulls, k, f);
    if m :| 0 <= m < |pulls| && f in IngestedAt(pulls, m) {
      IngestedExactly(pulls, m, f);
      NeverBack(pulls, k, m);
    }
  }

  /** And it is ingested again, by a later pull that sees it, if and only if no checkpoint saved since has reached it. */
  lemma AgainExactly(pulls: seq<Pull>, k: nat, m: nat, f: File)
    requires AllFound(pulls) && FirstSeen(pulls, k, f) && k < m < |pulls| && f in pulls[m].dir
    ensures f in IngestedAt(pulls, m) <==> Standing(pulls[..m]) < f.modified
    ensures (exists i :: k <= i < m && f in pulls[i].dir && pulls[i].saved) ==> f !in IngestedAt(pulls, m)
  {
    IngestedExactly(pulls, m, f);
    if i :| k <= i < m && f in pulls[i].dir && pulls[i].saved {
      StaysCovered(pulls, i, m, f);
    }
  }

  /** A checkpoint is the time of some file seen, unless nothing was. */
  lemma {:induction false} CheckpointIsSeen(pulls: seq<Pull>, n: nat)
    requires n <= |pulls|
    ensures Standing(pulls[..n]) != 0 ==> exists i, g :: 0 <= i < n && g in pulls[i].dir && g.modified == Standing(pulls[..n])
  {
    if n > 0 {
      var m := n - 1;
      CheckpointIsSeen(pulls, m);
      StandingStep(pulls, m);
      NewestBounds(NewerThan(pulls[m].dir, ReadBy(pulls, m)));
      NewerThanExact(pulls[m].dir, ReadBy(pulls, m));
    }
  }

  /**
   * When every checkpoint is saved and found, a new or rewritten file is ingested by the
   * first pull that sees it and by no other, if it is newer than every file seen before,
   * and otherwise never.
   */
  lemma OnceIfNewer(pulls: seq<Pull>, k: nat, f: File)
    requires AllFound(pulls) && AllSaved(pulls) && FirstSeen(pulls, k, f) && f.modified > 0
    ensures (exists m :: 0 <= m < |pulls| && f in IngestedAt(pulls, m)) <==>
            forall i, g :: 0 <= i < k && g in pulls[i].dir ==> g.modified < f.modified
    ensures forall m :: 0 <= m < |pulls| && f in IngestedAt(pulls, m) ==> m == k
  {
    FirstSightDecides(pulls, k, f);
    if f.modified > Standing(pulls[..k]) {
      forall i, g | 0 <= i < k && g in pulls[i].dir
        ensures g.modified < f.modified
      {
        StaysCovered(pulls, i, k, g);
      }
    }
    if forall i, g :: 0 <= i < k && g in pulls[i].dir ==> g.modified < f.modified {
      CheckpointIsSeen(pulls, k);
    }
    forall m | 0 <= m < |pulls| && f in IngestedAt(pulls, m)
      ensures m == k
    {
      IngestedExactly(pulls, m, f);
      if k < m {
        AgainExactly(pulls, k, m, f);
      }
    }
  }

  /** A file moved in with an older time than one already seen: in no pull, however many follow, if checkpoints are saved and found. */
  lemma OlderNeverIngested(pulls: seq<Pull>, seen: File, late: File, m: nat)
    requires AllFound(pulls) && AllSaved(pulls)
    requires |pulls| >= 2 && pulls[0].dir == [seen] && pulls[1].dir == [seen, late]
    requires seen == File("a.csv", 20, "1") && late == File("b.csv", 10, "2")
    requires m < |pulls|
    ensures late !in IngestedAt(pulls, m)
  {
    assert seen in pulls[0].dir && late !in pulls[0].dir;
    OnceIfNewer(pulls, 1, late);
  }

  /** When the first checkpoint is not saved, or the second lookup fails, the older file is ingested, and the other one twice. */
  lemma OlderIngestedAfterFailure(pulls: seq<Pull>, seen: File, late: File)
    requires |pulls| == 2 && pulls[0].dir == [seen] && pulls[1].dir == [seen, late] && (!pulls[0].saved || !pulls[1].found)
    requires seen == File("a.csv", 20, "1") && late == File("b.csv", 10, "2")
    ensures late in IngestedAt(pulls, 1) && seen in IngestedAt(pulls, 0) && seen in IngestedAt(pulls, 1)
  {
    assert pulls[..0] == [];
    StandingStep(pulls, 0);
    IngestedExactly(pulls, 0, seen);
    IngestedExactly(pulls, 1, seen);
    IngestedExactly(pulls, 1, late);
  }
}
