/**
 * What is left of a text when it is written as JSON and read back. Characters stand for
 * bytes. Go's json.Marshal keeps every byte sequence that encodes a character in UTF-8
 * (RFC 3629, section 4) and puts U+FFFD in the place of any byte that is not part of one.
 */
module Utf8 {

  predicate Within(c: char, lo: int, hi: int) {
    lo <= c as int <= hi
  }

  predicate Tail(c: char) {
    Within(c, 0x80, 0xBF)
  }

  /** What may follow the first byte of a sequence of three or four. */
  predicate Second(first: char, c: char) {
    if first as int == 0xE0 then Within(c, 0xA0, 0xBF)
    else if first as int == 0xED then Within(c, 0x80, 0x9F)
    else if first as int == 0xF0 then Within(c, 0x90, 0xBF)
    else if first as int == 0xF4 then Within(c, 0x80, 0x8F)
    else Tail(c)
  }

  /** How many bytes at the front of `s` encode a character; 0 if the first byte begins none. */
  function UnitLength(s: string): (n: nat)
    ensures n <= |s|
  {
    if s == "" then 0
    else if Within(s[0], 0, 0x7F) then 1
    else if Within(s[0], 0xC2, 0xDF) then if |s| >= 2 && Tail(s[1]) then 2 else 0
    else if Within(s[0], 0xE0, 0xEF) then if |s| >= 3 && Second(s[0], s[1]) && Tail(s[2]) then 3 else 0
    else if Within(s[0], 0xF0, 0xF4) then if |s| >= 4 && Second(s[0], s[1]) && Tail(s[2]) && Tail(s[3]) then 4 else 0
    else 0
  }

  /** A character: any code point but the surrogates. */
  predicate Scalar(v: int) {
    0 <= v <= 0x10FFFF && !(0xD800 <= v <= 0xDFFF)
  }

  /** The bytes of a character: the first says how many there are, and each of the others carries six bits. */
  function Encode(v: int): (s: string)
    requires Scalar(v)
    ensures 1 <= |s| <= 4
  {
    if v < 0x80 then [v as char]
    else if v < 0x800 then [(0xC0 + v / 64) as char, (0x80 + v % 64) as char]
    else if v < 0x1_0000 then [(0xE0 + v / 4096) as char, (0x80 + v / 64 % 64) as char, (0x80 + v % 64) as char]
    else [(0xF0 + v / 262144) as char, (0x80 + v / 4096 % 64) as char, (0x80 + v / 64 % 64) as char, (0x80 + v % 64) as char]
  }

  /** Every character is taken whole. */
  lemma EncodedIsUnit(v: int, rest: string)
    requires Scalar(v)
    ensures UnitLength(Encode(v) + rest) == |Encode(v)|
  {
    var e := Encode(v);
    var s := e + rest;
    assert forall k :: 0 <= k < |e| ==> s[k] == e[k];
  }

  lemma UnitOfTwo(s: string) returns (v: int)
    requires UnitLength(s) == 2
    ensures Scalar(v) && s[..2] == Encode(v)
  {
    v := (s[0] as int - 0xC0) * 64 + (s[1] as int - 0x80);
    assert v / 64 == s[0] as int - 0xC0 && v % 64 == s[1] as int - 0x80;
  }

  lemma UnitOfThree(s: string) returns (v: int)
    requires UnitLength(s) == 3
    ensures Scalar(v) && s[..3] == Encode(v)
  {
    var high := (s[0] as int - 0xE0) * 64 + (s[1] as int - 0x80);
    v := high * 64 + (s[2] as int - 0x80);
    assert v / 64 == high && v % 64 == s[2] as int - 0x80;
    assert high / 64 == s[0] as int - 0xE0 && high % 64 == s[1] as int - 0x80;
    assert v / 4096 == high / 64;
  }

  lemma UnitOfFour(s: string) returns (v: int)
    requires UnitLength(s) == 4
    ensures Scalar(v) && s[..4] == Encode(v)
  {
    var top := (s[0] as int - 0xF0) * 64 + (s[1] as int - 0x80);
    var high := top * 64 + (s[2] as int - 0x80);
    v := high * 64 + (s[3] as int - 0x80);
    assert v / 64 == high && v % 64 == s[3] as int - 0x80;
    assert high / 64 == top && high % 64 == s[2] as int - 0x80;
    assert top / 64 == s[0] as int - 0xF0 && top % 64 == s[1] as int - 0x80;
    assert v / 4096 == top && v / 262144 == top / 64;
  }

  /** What the encoder keeps are the characters and nothing else: a text begins with a unit of `n` bytes if and only if it begins with the `n` bytes of some character. */
  lemma UnitExactly(s: string, n: nat)
    requires n > 0
    ensures UnitLength(s) == n <==> exists v :: Scalar(v) && |Encode(v)| == n && Encode(v) <= s
  {
    hide Encode;
    if UnitLength(s) == n {
      var v;
      if n == 1 {
        v := s[0] as int;
        AsciiEncodes(s);
      } else if n == 2 {
        v := UnitOfTwo(s);
      } else if n == 3 {
        v := UnitOfThree(s);
      } else {
        v := UnitOfFour(s);
      }
      assert Scalar(v) && |Encode(v)| == n && Encode(v) == s[..n];
    }
    if v :| Scalar(v) && |Encode(v)| == n && Encode(v) <= s {
      EncodedIsUnit(v, s[n..]);
      assert s == Encode(v) + s[n..];
    }
  }

  lemma AsciiEncodes(s: string)
    requires UnitLength(s) == 1
    ensures Scalar(s[0] as int) && Encode(s[0] as int) == s[..1]
  {
  }

  /** How many bytes the encoder takes at once: a character, or one byte that begins none. */
  function Step(s: string): (n: nat)
    requires s != ""
    ensures 1 <= n <= |s|
  {
    if UnitLength(s) > 0 then UnitLength(s) else 1
  }

  /** U+FFFD. */
  const REPLACEMENT: string := [0xEF as char, 0xBF as char, 0xBD as char]

  function StoredUnit(s: string): string
    requires s != ""
  {
    if UnitLength(s) > 0 then s[..UnitLength(s)] else REPLACEMENT
  }

  /** The text that is read back. */
  function Stored(s: string): string {
    if s == "" then "" else StoredUnit(s) + Stored(s[Step(s)..])
  }

  predicate Valid(s: string) {
    s == "" || (UnitLength(s) > 0 && Valid(s[UnitLength(s)..]))
  }

  /** Bytes behind a character do not matter for it. */
  lemma UnitThen(s: string, t: string)
    requires UnitLength(s) > 0
    ensures UnitLength(s + t) == UnitLength(s) && (s + t)[UnitLength(s)..] == s[UnitLength(s)..] + t
  {
    var all := s + t;
    assert forall k :: 0 <= k < |s| ==> all[k] == s[k];
    assert all[UnitLength(s)..] == s[UnitLength(s)..] + t;
  }

  lemma {:induction false} ValidConcat(s: string, t: string)
    requires Valid(s) && Valid(t)
    ensures Valid(s + t)
  {
    if s == "" {
      assert s + t == t;
    } else {
      UnitThen(s, t);
      ValidConcat(s[UnitLength(s)..], t);
    }
  }

  lemma UnitIsValid(s: string)
    requires s != ""
    ensures Valid(StoredUnit(s))
  {
    var u := StoredUnit(s);
    assert UnitLength(u) == |u| && u[|u|..] == "";
  }

  /** What is read back can be written again without loss. */
  lemma {:induction false} StoredIsValid(s: string)
    ensures Valid(Stored(s))
  {
    if s != "" {
      UnitIsValid(s);
      StoredIsValid(s[Step(s)..]);
      ValidConcat(StoredUnit(s), Stored(s[Step(s)..]));
    }
  }

  /** The replacement is itself a character, U+FFFD. */
  lemma ReplacementIsUnit(rest: string)
    ensures REPLACEMENT == Encode(0xFFFD) && UnitLength(REPLACEMENT + rest) == 3
  {
    var s := REPLACEMENT + rest;
    assert s[0] == REPLACEMENT[0] && s[1] == REPLACEMENT[1] && s[2] == REPLACEMENT[2];
  }

  /** A first step that is no character changes the text. */
  lemma ReplacedDiffers(s: string)
    requires s != "" && UnitLength(s) == 0
    ensures Stored(s) != s
  {
    hide UnitLength;
    ReplacementIsUnit(Stored(s[Step(s)..]));
  }

  lemma SameSplit(a: string, b: string, c: string)
    ensures a + b == a + c <==> b == c
  {
    assert (a + b)[|a|..] == b && (a + c)[|a|..] == c;
  }

  /** A text is read back as it was written if and only if it is valid. */
  lemma {:induction false} StoredExactly(s: string)
    ensures Stored(s) == s <==> Valid(s)
  {
    hide UnitLength;
    if s != "" {
      var n := Step(s);
      StoredExactly(s[n..]);
      if UnitLength(s) == 0 {
        ReplacedDiffers(s);
      } else {
        assert s == s[..n] + s[n..];
        SameSplit(s[..n], Stored(s[n..]), s[n..]);
      }
    }
  }

  // ------------------------------------------------------------ byte by byte

  /** Where the sequence begins that the encoder takes byte `k` with. */
  function UnitStart(s: string, k: nat): (a: nat)
    requires k < |s|
    ensures a <= k
  {
    if k < Step(s) then 0 else Step(s) + UnitStart(s[Step(s)..], k - Step(s))
  }

  /** Byte `k` is part of a character. */
  predicate Keeps(s: string, k: nat)
    requires k < |s|
  {
    UnitLength(s[UnitStart(s, k)..]) > 0
  }

  /** A text cut behind its first step begins with the same step. */
  lemma StepOfPrefix(s: string, m: nat)
    requires s != "" && Step(s) <= m <= |s|
    ensures Step(s[..m]) == Step(s) && StoredUnit(s[..m]) == StoredUnit(s)
  {
    var t := s[..m];
    assert forall k :: 0 <= k < m ==> t[k] == s[k];
    assert UnitLength(t) == UnitLength(s);
    assert t[..Step(s)] == s[..Step(s)];
  }

  /** What is read back consists of what is before the `n` bytes at `a`, of what they become, and of what is behind them. */
  predicate InPlace(s: string, a: nat, n: nat)
    requires a < |s| && a + n <= |s|
  {
    Stored(s) == Stored(s[..a]) + StoredUnit(s[a..]) + Stored(s[a + n..])
  }

  lemma FirstInPlace(s: string)
    requires s != ""
    ensures InPlace(s, 0, Step(s))
  {
    hide UnitLength, StoredUnit;
    assert s[0..] == s && s[..0] == "" && Stored("") == "";
    assert "" + StoredUnit(s) == StoredUnit(s);
  }

  lemma LaterInPlace(s: string, b: nat, n: nat)
    requires s != "" && Step(s) + b < |s| && Step(s) + b + n <= |s|
    requires InPlace(s[Step(s)..], b, n)
    ensures InPlace(s, Step(s) + b, n)
  {
    hide UnitLength, StoredUnit;
    var st := Step(s);
    var rest := s[st..];
    StoredPrefix(s, st + b);
    assert rest[b..] == s[st + b..] && rest[b + n..] == s[st + b + n..];
    Regroup(StoredUnit(s), Stored(rest[..b]), StoredUnit(rest[b..]), Stored(rest[b + n..]));
  }

  /**
   * Which bytes survive. The sequence that holds byte `k` is read back in its place, and
   * as it was written if and only if it is a character.
   */
  lemma {:induction false} KeepsExactly(s: string, k: nat)
    requires k < |s|
    ensures var a := UnitStart(s, k);
      var n := Step(s[a..]);
      a <= k < a + n <= |s| && InPlace(s, a, n) && (StoredUnit(s[a..]) == s[a..a + n] <==> Keeps(s, k))
  {
    hide UnitLength, StoredUnit, InPlace, Stored;
    var a := UnitStart(s, k);
    var n := Step(s[a..]);
    UnitKept(s[a..]);
    assert s[a..][..n] == s[a..a + n];
    if k < Step(s) {
      assert s[0..] == s;
      FirstInPlace(s);
    } else {
      var rest := s[Step(s)..];
      KeepsExactly(rest, k - Step(s));
      BehindFirst(s, k);
      LaterInPlace(s, UnitStart(rest, k - Step(s)), n);
    }
  }

  lemma UnitKept(s: string)
    requires s != ""
    ensures StoredUnit(s) == s[..Step(s)] <==> UnitLength(s) > 0
  {
  }

  lemma BehindFirst(s: string, k: nat)
    requires s != "" && Step(s) <= k < |s|
    ensures var st := Step(s);
      UnitStart(s, k) == st + UnitStart(s[st..], k - st) && s[st..][UnitStart(s[st..], k - st)..] == s[UnitStart(s, k)..]
  {
    hide UnitLength;
  }

  lemma StoredPrefix(s: string, m: nat)
    requires s != "" && Step(s) <= m <= |s|
    ensures Stored(s[..m]) == StoredUnit(s) + Stored(s[Step(s)..][..m - Step(s)])
  {
    hide UnitLength, StoredUnit;
    StepOfPrefix(s, m);
    assert s[..m][Step(s)..] == s[Step(s)..][..m - Step(s)];
  }

  lemma Regroup(a: string, b: string, c: string, d: string)
    ensures a + (b + c + d) == a + b + c + d
  {
  }

  lemma AsciiStandsAlone(s: string, k: nat)
    requires k < |s| && k < Step(s) && Within(s[k], 0, 0x7F)
    ensures k == 0 && UnitLength(s) == 1
  {
  }

  /** A byte below 0x80 is a character by itself wherever it stands. */
  lemma {:induction false} AsciiSurvives(s: string, k: nat)
    requires k < |s| && Within(s[k], 0, 0x7F)
    ensures Keeps(s, k) && UnitStart(s, k) == k
  {
    if k < Step(s) {
      AsciiStandsAlone(s, k);
      assert s[0..] == s;
    } else {
      hide UnitLength;
      AsciiSurvives(s[Step(s)..], k - Step(s));
      assert s[Step(s)..][k - Step(s)..] == s[k..];
    }
  }

  /** A text is valid if and only if each of its bytes survives. */
  lemma {:induction false} ValidExactly(s: string)
    ensures Valid(s) <==> forall k :: 0 <= k < |s| ==> Keeps(s, k)
  {
    if s != "" {
      var st := Step(s);
      var rest := s[st..];
      ValidExactly(rest);
      assert s[0..] == s && UnitStart(s, 0) == 0;
      forall k | st <= k < |s|
        ensures Keeps(s, k) <==> Keeps(rest, k - st)
      {
        assert rest[UnitStart(rest, k - st)..] == s[UnitStart(s, k)..];
      }
      if forall k :: 0 <= k < |s| ==> Keeps(s, k) {
        assert Keeps(s, 0);
        assert forall k :: 0 <= k < |rest| ==> Keeps(rest, k) by {
          forall k | 0 <= k < |rest|
            ensures Keeps(rest, k)
          {
            assert Keeps(s, k + st);
          }
        }
      }
      if Valid(s) {
        forall k | 0 <= k < |s|
          ensures Keeps(s, k)
        {
          if k < st { assert UnitStart(s, k) == 0; } else { assert Keeps(rest, k - st); }
        }
      }
    }
  }

  /** 0xFF is no byte of any character. */
  lemma InvalidByte()
    ensures Stored([0xFF as char]) == REPLACEMENT && !Keeps([0xFF as char], 0)
  {
    var s := [0xFF as char];
    assert UnitLength(s) == 0 && s[1..] == "" && s[0..] == s;
    assert REPLACEMENT + "" == REPLACEMENT;
  }

  /** The two bytes of an accented letter survive together, and neither survives alone. */
  lemma CutCharacter()
    ensures var (c, d) := (0xC3 as char, 0xA9 as char);
      Stored([c, d]) == [c, d] && Stored([c]) == REPLACEMENT && Stored([d]) == REPLACEMENT
  {
    var c, d := 0xC3 as char, 0xA9 as char;
    assert UnitLength([c, d]) == 2 && [c, d][2..] == "" && [c, d][..2] == [c, d];
    assert UnitLength([c]) == 0 && [c][1..] == "" && UnitLength([d]) == 0 && [d][1..] == "";
    assert REPLACEMENT + "" == REPLACEMENT && [c, d] + "" == [c, d];
  }
}
