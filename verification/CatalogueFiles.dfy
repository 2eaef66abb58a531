/**
 * The two halves of the lakehouse catalogue together. The ingestion protocol sees rows
 * with their payloads, the lifecycle sees rows with their files; here every row that a
 * RunJob call inserts is a file that the layer writer wrote and that sweeps may move or
 * purge, while calls, writers, holds and sweeps interleave.
 */
module CatalogueFiles {
  import opened Marking
  import opened Prelude
  import I = IngestProtocol
  import L = Lakehouse
  import LogFile
  import S = Silver
  import Utf8

  /** How a payload is written as the bytes of a file, and read. */
  datatype Codec = Codec(enc: I.Payload -> string, dec: string -> I.Payload)

  /** A record with one text, as the log puller makes them. */
  predicate IsLine(r: S.Record) {
    r.Keys == {I.LINE} && r[I.LINE].Some?
  }

  function RecordsOf(p: I.Payload): seq<S.Record> {
    match p
    case Records(records) => records
    case Summary(_, hashed) => hashed
  }

  predicate AllLines(rs: seq<S.Record>) {
    forall k :: 0 <= k < |rs| ==> IsLine(rs[k])
  }

  predicate LinePayload(p: I.Payload) {
    AllLines(RecordsOf(p))
  }

  function TextOf(r: S.Record): string
    requires IsLine(r)
  {
    r[I.LINE].value
  }

  /** What JSON keeps of a payload: of each text what it keeps of a text. */
  function AsStored(p: I.Payload): (q: I.Payload)
    requires LinePayload(p)
    ensures LinePayload(q)
  {
    var kept := seq(|RecordsOf(p)|, k requires 0 <= k < |RecordsOf(p)| => I.LineRecord(TextOf(RecordsOf(p)[k])));
    match p
    case Records(_) => I.Records(kept)
    case Summary(rowCount, _) => I.Summary(rowCount, kept)
  }

  /** Written and read, a payload is what JSON keeps of it. */
  ghost predicate JsonLike(c: Codec) {
    forall p :: LinePayload(p) ==> c.dec(c.enc(p)) == AsStored(p)
  }

  predicate AllValid(rs: seq<S.Record>)
    requires AllLines(rs)
  {
    forall k :: 0 <= k < |rs| ==> Utf8.Valid(TextOf(rs[k]))
  }

  lemma LineKept(r: S.Record)
    requires IsLine(r)
    ensures I.LineRecord(TextOf(r)) == r <==> Utf8.Valid(TextOf(r))
  {
    hide Utf8.Stored, Utf8.Valid;
    Utf8.StoredExactly(TextOf(r));
    assert I.LineRecord(TextOf(r))[I.LINE] == Some(Utf8.Stored(TextOf(r)));
    assert Utf8.Valid(TextOf(r)) ==> r == map[I.LINE := Some(TextOf(r))];
  }

  /** A payload comes back from its file as it was written if and only if all its texts are valid. */
  lemma ReadBackExactly(c: Codec, p: I.Payload)
    requires JsonLike(c) && LinePayload(p)
    ensures c.dec(c.enc(p)) == p <==> AllValid(RecordsOf(p))
  {
    hide Utf8.Stored, Utf8.Valid, I.LineRecord;
    var rs, kept := RecordsOf(p), RecordsOf(AsStored(p));
    forall k | 0 <= k < |rs|
      ensures kept[k] == rs[k] <==> Utf8.Valid(TextOf(rs[k]))
    {
      LineKept(rs[k]);
    }
    if AllValid(rs) {
      assert kept == rs;
    } else {
      var k :| 0 <= k < |rs| && !Utf8.Valid(TextOf(rs[k]));
      assert kept[k] != rs[k];
    }
  }

  // --------------------------------------------------------- such codecs exist

  function ListText(rs: seq<S.Record>): string
    requires AllLines(rs)
  {
    if rs == [] then "" else Marked(TextOf(rs[0])) + ListText(rs[1..])
  }

  lemma SameLine(r: S.Record, q: S.Record)
    requires IsLine(r) && IsLine(q) && TextOf(r) == TextOf(q)
    ensures r == q
  {
    assert r == map[I.LINE := r[I.LINE]] && q == map[I.LINE := q[I.LINE]];
  }

  lemma {:induction false} ListTextInjective(rs: seq<S.Record>, qs: seq<S.Record>)
    requires AllLines(rs)
    requires AllLines(qs)
    requires ListText(rs) == ListText(qs)
    ensures rs == qs
  {
    if rs != [] && qs != [] {
      MarkedSplits(TextOf(rs[0]), ListText(rs[1..]), TextOf(qs[0]), ListText(qs[1..]));
      SameLine(rs[0], qs[0]);
      ListTextInjective(rs[1..], qs[1..]);
      assert rs == [rs[0]] + rs[1..] && qs == [qs[0]] + qs[1..];
    }
  }

  function Unary(n: nat): (s: string)
    ensures |s| == n
  {
    seq(n, _ => 'i')
  }

  function Plain(p: I.Payload): string {
    if !LinePayload(p) then ""
    else
      match p
      case Records(records) => ['r'] + ListText(records)
      case Summary(rowCount, hashed) => ['s'] + (Marked(Unary(rowCount)) + ListText(hashed))
  }

  lemma PlainInjective(p: I.Payload, q: I.Payload)
    requires LinePayload(p) && LinePayload(q) && Plain(p) == Plain(q)
    ensures p == q
  {
    assert Plain(p)[0] == Plain(q)[0] && Plain(p)[1..] == Plain(q)[1..];
    if p.Summary? {
      MarkedSplits(Unary(p.rowCount), ListText(p.hashed), Unary(q.rowCount), ListText(q.hashed));
    }
    ListTextInjective(RecordsOf(p), RecordsOf(q));
  }

  ghost function Parsed(text: string): I.Payload {
    if exists p :: LinePayload(p) && Plain(p) == text then var p :| LinePayload(p) && Plain(p) == text; p else I.Records([])
  }

  lemma JsonLikeExists() returns (c: Codec)
    ensures JsonLike(c)
  {
    c := Codec(p => if LinePayload(p) then Plain(AsStored(p)) else "", text => Parsed(text));
    forall p | LinePayload(p)
      ensures c.dec(c.enc(p)) == AsStored(p)
    {
      PlainInjective(AsStored(p), Parsed(Plain(AsStored(p))));
    }
  }

  // ------------------------------------------------------- both halves together

  datatype State = State(ingest: I.State, lake: L.State)

  /** A step of ingestion, with the nanosecond its write reads if it writes; or one of the lifecycle, or a write that leaves no row. */
  datatype Event = Ingest(step: I.Event, nanos: nat) | Lifecycle(sweep: L.Event)

  function LayerOf(layer: I.Layer): L.Layer {
    match layer
    case Bronze => L.Bronze
    case Silver => L.Silver
    case Gold => L.Gold
  }

  function WriteOf(c: Codec, row: I.Row, nanos: nat): L.Event {
    L.Write(row.source, LayerOf(row.layer), c.enc(row.payload), nanos, L.RowInserted)
  }

  /** What the step does to files and file metadata, if anything; rows are inserted by ingestion alone. */
  function OnLake(c: Codec, s: State, e: Event): Option<L.Event> {
    match e
    case Ingest(step, nanos) =>
      var t := I.Apply(s.ingest, step);
      if |t.rows| > |s.ingest.rows| then Some(WriteOf(c, t.rows[|s.ingest.rows|], nanos)) else None
    case Lifecycle(step) =>
      if step.Write? && step.outcome.RowInserted? then None else Some(step)
  }

  function Apply(c: Codec, s: State, e: Event): State {
    State(if e.Ingest? then I.Apply(s.ingest, e.step) else s.ingest,
          if OnLake(c, s, e).Some? then L.Apply(s.lake, OnLake(c, s, e).value) else s.lake)
  }

  function Exec(c: Codec, s: State, es: seq<Event>): State {
    if es == [] then s else Apply(c, Exec(c, s, es[..|es| - 1]), es[|es| - 1])
  }

  predicate Initial(s: State) {
    I.Initial(s.ingest) && L.Initial(s.lake)
  }

  /** Writes read fresh nanoseconds and the row updates of sweeps go through; everything else may fail. */
  predicate Fine(c: Codec, s: State, es: seq<Event>) {
    es == [] ||
    var t, e := Exec(c, s, es[..|es| - 1]), es[|es| - 1];
    && Fine(c, s, es[..|es| - 1])
    && (OnLake(c, t, e).Some? ==> L.FreshName(t.lake, OnLake(c, t, e).value) && L.UpdatesSucceed(OnLake(c, t, e).value))
  }

  /** Row by row the two halves speak of the same source, layer and payload. */
  predicate Agree(c: Codec, s: State) {
    && |s.lake.rows| == |s.ingest.rows|
    && forall i :: 0 <= i < |s.lake.rows| ==>
         && s.lake.rows[i].source == s.ingest.rows[i].source && s.lake.rows[i].layer == LayerOf(s.ingest.rows[i].layer)
         && s.lake.rows[i].payload == c.enc(s.ingest.rows[i].payload)
  }

  ghost predicate Inv(c: Codec, s: State) {
    I.Inv(s.ingest) && L.Inv(s.lake) && Agree(c, s)
  }

  lemma {:induction false} FinePrefix(c: Codec, s: State, es: seq<Event>, n: nat)
    requires Fine(c, s, es) && n <= |es|
    ensures Fine(c, s, es[..n])
  {
    if n == |es| {
      assert es[..n] == es;
    } else {
      var front := es[..|es| - 1];
      assert front[..n] == es[..n];
      FinePrefix(c, s, front, n);
    }
  }

  /** No step of the lifecycle changes what a row says, or adds or drops one. */
  lemma LakeKeepsRows(s: L.State, e: L.Event)
    requires !(e.Write? && e.outcome.RowInserted?)
    ensures var t := L.Apply(s, e);
      |t.rows| == |s.rows| && forall i :: 0 <= i < |s.rows| ==>
        t.rows[i].source == s.rows[i].source && t.rows[i].layer == s.rows[i].layer && t.rows[i].payload == s.rows[i].payload
  {
  }

  lemma StepAgrees(c: Codec, s: State, e: Event)
    requires Agree(c, s)
    ensures Agree(c, Apply(c, s, e))
  {
    hide I.Apply;
    var w := OnLake(c, s, e);
    if e.Ingest? {
      I.StepGrows(s.ingest, e.step);
      I.StepAddsRow(s.ingest, e.step);
    }
    if w.Some? && !(w.value.Write? && w.value.outcome.RowInserted?) {
      LakeKeepsRows(s.lake, w.value);
    }
  }

  lemma {:induction false} RunKeepsInv(c: Codec, s: State, es: seq<Event>)
    requires Initial(s) && Fine(c, s, es)
    ensures Inv(c, Exec(c, s, es))
  {
    if es != [] {
      var front, e := es[..|es| - 1], es[|es| - 1];
      var t := Exec(c, s, front);
      RunKeepsInv(c, s, front);
      StepAgrees(c, t, e);
      if OnLake(c, t, e).Some? {
        L.StepKeepsInv(t.lake, OnLake(c, t, e).value);
      }
      if e.Ingest? {
        I.StepKeepsInv(t.ingest, e.step);
      }
    }
  }

  lemma {:induction false} RunGrows(c: Codec, s: State, es: seq<Event>, n: nat)
    requires n <= |es|
    ensures I.Grows(Exec(c, s, es[..n]).ingest, Exec(c, s, es).ingest)
  {
    if n == |es| {
      assert es[..n] == es;
    } else {
      var front, e := es[..|es| - 1], es[|es| - 1];
      var t := Exec(c, s, front);
      assert front[..n] == es[..n];
      RunGrows(c, s, front, n);
      if e.Ingest? {
        I.StepGrows(t.ingest, e.step);
      }
      I.GrowsTransitive(Exec(c, s, es[..n]).ingest, t.ingest, Exec(c, s, es).ingest);
    }
  }

  lemma LineRecordIsValid(line: string)
    ensures IsLine(I.LineRecord(line)) && Utf8.Valid(TextOf(I.LineRecord(line)))
  {
    Utf8.StoredIsValid(line);
  }

  lemma LineRecordsValid(lines: seq<string>)
    ensures AllLines(I.LineRecords(lines)) && AllValid(I.LineRecords(lines))
  {
    forall k | 0 <= k < |lines|
      ensures IsLine(I.LineRecords(lines)[k]) && Utf8.Valid(TextOf(I.LineRecords(lines)[k]))
    {
      LineRecordIsValid(lines[k]);
    }
  }

  lemma SortedValid(rs: seq<S.Record>)
    requires AllLines(rs) && AllValid(rs)
    ensures AllLines(S.Sorted(rs, I.LINE)) && AllValid(S.Sorted(rs, I.LINE))
  {
    S.SortedFrom(rs, I.LINE);
    var out := S.Sorted(rs, I.LINE);
    forall k | 0 <= k < |out|
      ensures IsLine(out[k]) && Utf8.Valid(TextOf(out[k]))
    {
      assert out[k] in rs;
    }
  }

  /** All texts that ingestion stores have been through JSON before, so they go through it again unchanged. */
  lemma PayloadsValid(s: I.State, i: nat)
    requires I.Inv(s) && i < |s.rows|
    ensures LinePayload(s.rows[i].payload) && AllValid(RecordsOf(s.rows[i].payload))
  {
    hide AllLines, AllValid;
    assert I.RowOk(s, i);
    var r := s.rows[i];
    match r.layer
    case Bronze =>
      LineRecordsValid(LogFile.Lines(s.files[r.source][r.from..r.to]));
    case Silver =>
      PayloadsValid(s, r.basis.value);
      SortedValid(s.rows[r.basis.value].payload.records);
    case Gold =>
      PayloadsValid(s, r.basis.value);
  }

  /** The file of row `i` is there, and what is read from it is the row's payload. */
  predicate OnDisk(c: Codec, s: State, i: nat) {
    && i < |s.lake.rows| && i < |s.ingest.rows|
    && s.lake.rows[i].path in s.lake.files && c.dec(s.lake.files[s.lake.rows[i].path]) == s.ingest.rows[i].payload
  }

  /** Every catalogue row is purged or its payload can be read from its file, and purged rows are Bronze ones that were archived. */
  lemma PayloadsOnDisk(c: Codec, s: State, es: seq<Event>, t: State, i: nat)
    requires JsonLike(c) && Initial(s) && Fine(c, s, es) && t == Exec(c, s, es) && i < |t.ingest.rows|
    ensures i < |t.lake.rows|
    ensures t.lake.rows[i].purgedAt.None? ==> OnDisk(c, t, i)
    ensures t.lake.rows[i].purgedAt.Some? ==> t.ingest.rows[i].layer.Bronze? && t.lake.rows[i].archivedAt.Some?
  {
    hide Exec, I.Inv, I.RowOk, LinePayload, AllValid;
    RunKeepsInv(c, s, es);
    assert L.Shaped(t.lake.rows[i]) && L.Intact(t.lake, i);
    PayloadsValid(t.ingest, i);
    ReadBackExactly(c, t.ingest.rows[i].payload);
  }

  /**
   * No loss, down to the disk. Take any checkpoint row as it stood after the first `n`
   * steps and any byte of the log below its offset, newlines apart: from then on there
   * is a Bronze row with a record of the line, as it was read, that the byte is in; and
   * unless that row has been purged, that record is what is read from its file.
   */
  lemma NoLossOnDisk(c: Codec, s: State, es: seq<Event>, n: nat, early: State, late: State, key: (nat, nat), p: nat)
    requires JsonLike(c) && Initial(s) && Fine(c, s, es) && n <= |es|
    requires early == Exec(c, s, es[..n]) && late == Exec(c, s, es)
    requires key in early.ingest.checkpoints && p < early.ingest.checkpoints[key].offset
    ensures key.0 in late.ingest.files && p < |late.ingest.files[key.0]|
    ensures late.ingest.files[key.0][p] == '\n' || exists i: nat ::
      I.StoredInRow(late.ingest, key.0, i, p) && i < |late.lake.rows| && (late.lake.rows[i].purgedAt.Some? || OnDisk(c, late, i))
  {
    FinePrefix(c, s, es, n);
    RunKeepsInv(c, s, es[..n]);
    RunKeepsInv(c, s, es);
    RunGrows(c, s, es, n);
    I.CoveredGrows(early.ingest, late.ingest, key.0, early.ingest.checkpoints[key].offset);
    assert I.ByteRead(late.ingest, key.0, p);
    var i: nat :| I.HoldsByte(late.ingest, key.0, i, p);
    if late.ingest.files[key.0][p] != '\n' {
      assert I.RowOk(late.ingest, i);
      I.ByteInRecord(late.ingest, key.0, i, p);
      PayloadsOnDisk(c, s, es, late, i);
    }
  }
}
