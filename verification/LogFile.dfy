/**
 * The log_file puller: what one read of the file's tail turns into.
 * Characters stand for bytes; a line is the text between newlines.
 */
module LogFile {
  import opened Runs

  /** Go's strings.TrimRight(s, "\n"). */
  function TrimNewlines(s: string): string {
    if s != [] && s[|s| - 1] == '\n' then TrimNewlines(s[..|s| - 1]) else s
  }

  /** Go's strings.Split(s, "\n"): always at least one piece, and empty pieces are kept. */
  function Split(s: string): (r: seq<string>)
    ensures r != []
  {
    if s == [] then [""]
    else
      var r, c := Split(s[..|s| - 1]), s[|s| - 1];
      if c == '\n' then r + [""] else r[..|r| - 1] + [r[|r| - 1] + [c]]
  }

  function NonEmpty(r: seq<string>): seq<string> {
    if r == [] then []
    else NonEmpty(r[..|r| - 1]) + if r[|r| - 1] == "" then [] else [r[|r| - 1]]
  }

  /** The lines of a text: its maximal runs of non-newline bytes. */
  function Lines(s: string): seq<string> {
    Texts(LineByte, s)
  }

  lemma NonEmptySnoc(front: seq<string>, last: string)
    ensures NonEmpty(front + [last]) == if last == "" then NonEmpty(front) else NonEmpty(front) + [last]
  {
    assert (front + [last])[..|front|] == front;
  }

  /** The piece being read is empty exactly when the next byte starts a line. */
  lemma {:induction false} LastPiece(s: string)
    ensures Split(s)[|Split(s)| - 1] != "" <==> Open(LineByte, s)
  {
    if s != [] {
      LastPiece(s[..|s| - 1]);
    }
  }

  lemma GrowLast(kept: seq<string>, last: string, c: char)
    requires c != '\n' && last != ""
    ensures Grow(LineByte, kept + [last], true, c) == kept + [last + [c]]
  {
    assert (kept + [last])[..|kept|] == kept;
  }

  lemma GrowNew(kept: seq<string>, c: char)
    requires c != '\n'
    ensures Grow(LineByte, kept, false, c) == kept + [[c]]
  {
  }

  /** One more byte of a piece moves the non-empty pieces as `Grow` moves the runs. */
  lemma PiecesGrow(front: seq<string>, last: string, c: char)
    requires c != '\n'
    ensures NonEmpty(front + [last + [c]]) == Grow(LineByte, NonEmpty(front + [last]), last != "", c)
  {
    hide NonEmpty, Grow;
    NonEmptySnoc(front, last);
    NonEmptySnoc(front, last + [c]);
    var kept := NonEmpty(front);
    if last == "" {
      assert last + [c] == [c];
      GrowNew(kept, c);
    } else {
      GrowLast(kept, last, c);
    }
  }

  /** Splitting at newlines and dropping the empty pieces lists the maximal runs. */
  lemma {:induction false} SplitIsLines(s: string)
    ensures NonEmpty(Split(s)) == Lines(s)
  {
    if s == [] {
      NonEmptySnoc([], "");
    } else {
      var before, c := s[..|s| - 1], s[|s| - 1];
      SplitIsLines(before);
      LastPiece(before);
      var r := Split(before);
      var front, last := r[..|r| - 1], r[|r| - 1];
      assert r == front + [last];
      if c == '\n' {
        NonEmptySnoc(r, "");
      } else {
        PiecesGrow(front, last, c);
      }
    }
  }

  /** Trailing newlines carry no lines. */
  lemma {:induction false} TrimKeepsLines(s: string)
    ensures Lines(TrimNewlines(s)) == Lines(s)
  {
    if s != [] && s[|s| - 1] == '\n' {
      TrimKeepsLines(s[..|s| - 1]);
    }
  }

  /**
   * The loop of pullLogFile over a buffer that was read: one record per non-empty
   * piece. The records are exactly the lines of the buffer.
   */
  method PullLines(buf: string) returns (records: seq<string>)
    ensures records == Lines(buf)
  {
    var lines := Split(TrimNewlines(buf));
    records := [];
    for i := 0 to |lines|
      invariant records == NonEmpty(lines[..i])
    {
      assert lines[..i + 1][..i] == lines[..i];
      if lines[i] == "" {
        continue;
      }
      records := records + [lines[i]];
    }
    assert lines[..|lines|] == lines;
    SplitIsLines(TrimNewlines(buf));
    TrimKeepsLines(buf);
  }

  /** Where a read starts: the saved offset, or the beginning when there is none or the file is shorter than it. */
  function StartOffset(saved: nat, size: nat): (offset: nat)
    ensures offset <= size
    ensures saved <= size ==> offset == saved
    ensures saved > size ==> offset == 0
  {
    if saved > size then 0 else saved
  }

  /**
   * Byte conservation of one read: the records, put end to end, are the bytes read
   * without their newlines. Nothing in the buffer is lost or made up.
   */
  lemma ReadConserves(buf: string)
    ensures Concat(Lines(buf)) == Kept(LineByte, buf)
  {
    TextsConserve(LineByte, buf);
  }

  /**
   * Resuming at `cut` commutes with listing lines exactly when the cut is next to a
   * newline or at an end of the text; any other cut tears one line in two.
   */
  lemma ResumeCommutes(s: string, cut: nat)
    requires cut <= |s|
    ensures Lines(s) == Lines(s[..cut]) + Lines(s[cut..]) <==>
            cut == 0 || cut == |s| || s[cut - 1] == '\n' || s[cut] == '\n'
    ensures |Lines(s[..cut])| + |Lines(s[cut..])| == |Lines(s)| + if CleanCut(LineByte, s[..cut], s[cut..]) then 0 else 1
  {
    var a, b := s[..cut], s[cut..];
    assert s == a + b;
    CutTexts(LineByte, a, b);
    if CleanCut(LineByte, a, b) {
      CleanCutTexts(LineByte, a, b);
    } else {
      SplitCutTexts(LineByte, a, b);
    }
  }
}
