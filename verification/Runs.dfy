/**
 * Maximal runs: the longest stretches of consecutive characters of one class. A
 * log line is a maximal run of non-newline bytes and a moderation token is a
 * maximal run of alphanumeric characters, so both the log reader and the
 * tokenizer are measured against this one theory.
 */
module Runs {

  datatype Class = LineByte | WordChar

  predicate Keeps(p: Class, c: char) {
    match p
    case LineByte => c != '\n'
    case WordChar => 'a' <= c <= 'z' || '0' <= c <= '9'
  }

  /** `s` ends in a character of class `p`. */
  predicate Open(p: Class, s: string) {
    s != [] && Keeps(p, s[|s| - 1])
  }

  /** The runs `r` after one more character `c`; `open` tells that the last run may still grow. */
  function Grow(p: Class, r: seq<string>, open: bool, c: char): seq<string> {
    if !Keeps(p, c) then r
    else if open && r != [] then r[..|r| - 1] + [r[|r| - 1] + [c]]
    else r + [[c]]
  }

  /** The maximal runs of `s`, left to right, grown one character at a time. */
  function Texts(p: Class, s: string): (r: seq<string>)
    ensures Open(p, s) ==> r != []
  {
    if s == [] then []
    else
      var front := s[..|s| - 1];
      Grow(p, Texts(p, front), Open(p, front), s[|s| - 1])
  }

  lemma SnocTexts(p: Class, s: string, c: char)
    ensures Texts(p, s + [c]) == Grow(p, Texts(p, s), Open(p, s), c)
  {
    assert (s + [c])[..|s|] == s;
  }

  /** A cut between `a` and `b` splits no run: one of the two neighbours is a delimiter or missing. */
  predicate CleanCut(p: Class, a: string, b: string) {
    !Open(p, a) || b == [] || !Keeps(p, b[0])
  }

  lemma GrowAfter(p: Class, ra: seq<string>, rb: seq<string>, open: bool, c: char)
    requires open ==> rb != []
    ensures Grow(p, ra + rb, open, c) == ra + Grow(p, rb, open, c)
  {
    if Keeps(p, c) && open {
      assert (ra + rb)[..|ra + rb| - 1] == ra + rb[..|rb| - 1];
    }
  }

  /** A cut before the last character. */
  lemma CutLast(p: Class, a: string, c: char)
    ensures Texts(p, a + [c]) == Grow(p, Texts(p, a), Open(p, a), c)
    ensures Texts(p, [c]) == if Keeps(p, c) then [[c]] else []
  {
    SnocTexts(p, a, c);
    SnocTexts(p, [], c);
    assert [] + [c] == [c];
  }

  /** One more character leaves the runs before the growing part alone. */
  lemma CutGrows(p: Class, a: string, front: string, c: char, ra: seq<string>, rf: seq<string>)
    requires front != [] && Texts(p, a + front) == ra + rf && Texts(p, front) == rf
    ensures Texts(p, a + (front + [c])) == ra + Texts(p, front + [c])
  {
    var open := Open(p, front);
    assert a + (front + [c]) == (a + front) + [c];
    SnocTexts(p, a + front, c);
    SnocTexts(p, front, c);
    GrowAfter(p, ra, rf, open, c);
  }

  /** At a clean cut the runs of the whole are the runs of the parts. */
  lemma {:induction false} CleanCutTexts(p: Class, a: string, b: string)
    requires CleanCut(p, a, b)
    ensures Texts(p, a + b) == Texts(p, a) + Texts(p, b)
  {
    if |b| == 0 {
      assert a + b == a;
    } else if |b| == 1 {
      CutLast(p, a, b[0]);
      assert b == [b[0]];
    } else {
      var front, c := b[..|b| - 1], b[|b| - 1];
      CleanCutTexts(p, a, front);
      CutGrows(p, a, front, c, Texts(p, a), Texts(p, front));
      assert b == front + [c];
    }
  }

  /** One more character adds to the count of the whole what it adds to the count of the part. */
  lemma CountGrows(p: Class, a: string, front: string, c: char)
    requires front != [] && |Texts(p, a + front)| >= |Texts(p, front)|
    ensures |Texts(p, a + (front + [c]))| - |Texts(p, a + front)| == |Texts(p, front + [c])| - |Texts(p, front)|
  {
    assert a + (front + [c]) == (a + front) + [c];
    SnocTexts(p, a + front, c);
    SnocTexts(p, front, c);
  }

  /** At any other cut the run across it comes out in two, so there is exactly one more. */
  lemma {:induction false} SplitCutTexts(p: Class, a: string, b: string)
    requires !CleanCut(p, a, b)
    ensures |Texts(p, a + b)| == |Texts(p, a)| + |Texts(p, b)| - 1
  {
    if |b| == 1 {
      CutLast(p, a, b[0]);
      assert b == [b[0]];
    } else {
      var front, c := b[..|b| - 1], b[|b| - 1];
      SplitCutTexts(p, a, front);
      CountGrows(p, a, front, c);
      assert b == front + [c];
    }
  }

  /** Cutting commutes with listing runs exactly at the clean cuts. */
  lemma CutTexts(p: Class, a: string, b: string)
    ensures Texts(p, a + b) == Texts(p, a) + Texts(p, b) <==> CleanCut(p, a, b)
  {
    if CleanCut(p, a, b) {
      CleanCutTexts(p, a, b);
    } else {
      SplitCutTexts(p, a, b);
    }
  }

  function Concat(r: seq<string>): string {
    if r == [] then [] else Concat(r[..|r| - 1]) + r[|r| - 1]
  }

  /** `s` without the characters outside class `p`. */
  function Kept(p: Class, s: string): string {
    if s == [] then []
    else Kept(p, s[..|s| - 1]) + if Keeps(p, s[|s| - 1]) then [s[|s| - 1]] else []
  }

  lemma GrowConcat(p: Class, r: seq<string>, open: bool, c: char)
    ensures Concat(Grow(p, r, open, c)) == Concat(r) + if Keeps(p, c) then [c] else []
  {
    var g := Grow(p, r, open, c);
    if Keeps(p, c) {
      assert g[..|g| - 1] == if open && r != [] then r[..|r| - 1] else r;
    }
  }

  /** Listing runs loses and invents nothing but delimiters. */
  lemma {:induction false} TextsConserve(p: Class, s: string)
    ensures Concat(Texts(p, s)) == Kept(p, s)
  {
    if s != [] {
      var front := s[..|s| - 1];
      TextsConserve(p, front);
      GrowConcat(p, Texts(p, front), Open(p, front), s[|s| - 1]);
    }
  }

  /** `s[i..j]` is of class `p` throughout and cannot be widened on either side. */
  ghost predicate IsMaximal(p: Class, s: string, i: int, j: int) {
    && 0 <= i < j <= |s|
    && (forall k :: i <= k < j ==> Keeps(p, s[k]))
    && (i == 0 || !Keeps(p, s[i - 1]))
    && (j == |s| || !Keeps(p, s[j]))
  }

  function GrowSpots(p: Class, ps: seq<(int, int)>, open: bool, n: nat, c: char): seq<(int, int)> {
    if !Keeps(p, c) then ps
    else if open && ps != [] then ps[..|ps| - 1] + [(ps[|ps| - 1].0, n + 1)]
    else ps + [(n, n + 1)]
  }

  /** The positions of the runs, left to right: start and end of each. */
  function Spots(p: Class, s: string): (ps: seq<(int, int)>)
    ensures Open(p, s) ==> ps != []
  {
    if s == [] then []
    else
      var front := s[..|s| - 1];
      GrowSpots(p, Spots(p, front), Open(p, front), |front|, s[|s| - 1])
  }

  /** `ps` are maximal runs of `s`, left to right and apart; the last one touches the end just when `s` is open. */
  ghost predicate Laid(p: Class, s: string, ps: seq<(int, int)>) {
    && (forall k :: 0 <= k < |ps| ==> IsMaximal(p, s, ps[k].0, ps[k].1))
    && (forall k, l :: 0 <= k < l < |ps| ==> ps[k].1 < ps[l].0)
    && (Open(p, s) ==> ps != [] && ps[|ps| - 1].1 == |s|)
  }

  lemma MaximalStays(p: Class, s: string, c: char, i: int, j: int)
    requires IsMaximal(p, s, i, j)
    requires j < |s| || !Keeps(p, c)
    ensures IsMaximal(p, s + [c], i, j)
  {
  }

  lemma LaidGrows(p: Class, s: string, c: char, ps: seq<(int, int)>)
    requires Laid(p, s, ps)
    ensures Laid(p, s + [c], GrowSpots(p, ps, Open(p, s), |s|, c))
  {
    var qs := GrowSpots(p, ps, Open(p, s), |s|, c);
    forall k | 0 <= k < |qs|
      ensures IsMaximal(p, s + [c], qs[k].0, qs[k].1)
    {
      if k < |ps| {
        assert IsMaximal(p, s, ps[k].0, ps[k].1);
        if ps[k].1 < |s| || !Keeps(p, c) {
          MaximalStays(p, s, c, ps[k].0, ps[k].1);
        }
      }
    }
  }

  /** The spots are maximal runs in order. */
  lemma {:induction false} SpotsLaid(p: Class, s: string)
    ensures Laid(p, s, Spots(p, s))
  {
    if s != [] {
      var front, c := s[..|s| - 1], s[|s| - 1];
      SpotsLaid(p, front);
      LaidGrows(p, front, c, Spots(p, front));
      assert s == front + [c];
    }
  }

  /** `r` are the stretches of `s` at `ps`. */
  ghost predicate Stretches(s: string, ps: seq<(int, int)>, r: seq<string>) {
    && |r| == |ps|
    && forall k :: 0 <= k < |ps| ==> 0 <= ps[k].0 <= ps[k].1 <= |s| && r[k] == s[ps[k].0..ps[k].1]
  }

  lemma StretchesKeep(s: string, c: char, ps: seq<(int, int)>, r: seq<string>)
    requires Stretches(s, ps, r)
    ensures Stretches(s + [c], ps, r)
  {
    forall k | 0 <= k < |ps|
      ensures (s + [c])[ps[k].0..ps[k].1] == s[ps[k].0..ps[k].1]
    {
    }
  }

  lemma StretchesAdd(s: string, ps: seq<(int, int)>, r: seq<string>, i: int, j: int)
    requires Stretches(s, ps, r) && 0 <= i <= j <= |s|
    ensures Stretches(s, ps + [(i, j)], r + [s[i..j]])
  {
  }

  lemma StretchesDrop(s: string, ps: seq<(int, int)>, r: seq<string>)
    requires Stretches(s, ps, r) && ps != []
    ensures Stretches(s, ps[..|ps| - 1], r[..|r| - 1])
  {
  }

  lemma StretchesGrow(p: Class, s: string, c: char, ps: seq<(int, int)>, r: seq<string>)
    requires Stretches(s, ps, r) && Laid(p, s, ps)
    ensures Stretches(s + [c], GrowSpots(p, ps, Open(p, s), |s|, c), Grow(p, r, Open(p, s), c))
  {
    var t, n := s + [c], |s|;
    StretchesKeep(s, c, ps, r);
    if Keeps(p, c) && Open(p, s) {
      var i := ps[|ps| - 1].0;
      StretchesDrop(t, ps, r);
      StretchesAdd(t, ps[..|ps| - 1], r[..|r| - 1], i, n + 1);
      assert t[i..n + 1] == t[i..n] + [c];
    } else if Keeps(p, c) {
      StretchesAdd(t, ps, r, n, n + 1);
      assert t[n..n + 1] == [c];
    }
  }

  /** `Texts` are the stretches of `s` at `Spots`. */
  lemma {:induction false} TextsAtSpots(p: Class, s: string)
    ensures Stretches(s, Spots(p, s), Texts(p, s))
  {
    if s != [] {
      var front, c := s[..|s| - 1], s[|s| - 1];
      TextsAtSpots(p, front);
      SpotsLaid(p, front);
      StretchesGrow(p, front, c, Spots(p, front), Texts(p, front));
      assert s == front + [c];
    }
  }

  /** Growing the list of spots keeps a place for every character that had one, and makes one for the new character. */
  lemma GrowSpotsKeeps(p: Class, s: string, c: char, ps: seq<(int, int)>, k: nat)
    requires k < |ps| && ps[k].1 <= |s|
    ensures var qs := GrowSpots(p, ps, Open(p, s), |s|, c);
      k < |qs| && qs[k].0 == ps[k].0 && qs[k].1 >= ps[k].1
  {
  }

  lemma GrowSpotsNew(p: Class, s: string, c: char, ps: seq<(int, int)>)
    requires Laid(p, s, ps) && Keeps(p, c)
    ensures var qs := GrowSpots(p, ps, Open(p, s), |s|, c);
      qs != [] && qs[|qs| - 1].0 <= |s| < qs[|qs| - 1].1
  {
    if Open(p, s) {
      assert IsMaximal(p, s, ps[|ps| - 1].0, ps[|ps| - 1].1);
    }
  }

  /** The run around a character of class `p`. */
  lemma {:induction false} SpotOf(p: Class, s: string, x: int) returns (k: nat)
    requires 0 <= x < |s| && Keeps(p, s[x])
    ensures k < |Spots(p, s)| && Spots(p, s)[k].0 <= x < Spots(p, s)[k].1
  {
    var front, c := s[..|s| - 1], s[|s| - 1];
    SpotsLaid(p, front);
    if x == |front| {
      GrowSpotsNew(p, front, c, Spots(p, front));
      k := |Spots(p, s)| - 1;
    } else {
      k := SpotOf(p, front, x);
      assert IsMaximal(p, front, Spots(p, front)[k].0, Spots(p, front)[k].1);
      GrowSpotsKeeps(p, front, c, Spots(p, front), k);
    }
  }

  /** No maximal run is missed: `[i, j)` is maximal exactly when it is one of the spots. */
  lemma SpotsComplete(p: Class, s: string, i: int, j: int)
    ensures IsMaximal(p, s, i, j) <==> (i, j) in Spots(p, s)
  {
    SpotsLaid(p, s);
    var ps := Spots(p, s);
    if IsMaximal(p, s, i, j) {
      var k := SpotOf(p, s, i);
      OverlapIsEqual(p, s, i, j, ps[k].0, ps[k].1);
      assert ps[k] == (i, j);
    }
  }

  lemma OverlapIsEqual(p: Class, s: string, i: int, j: int, a: int, b: int)
    requires IsMaximal(p, s, i, j) && IsMaximal(p, s, a, b) && a <= i < b
    ensures (a, b) == (i, j)
  {
  }
}
