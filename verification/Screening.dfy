/** Tokenising and scanning texts against the sensitive-term dictionary. */
module Screening {
  import opened Prelude
  import opened Runs

  datatype TermClass = Prohibited | Borderline

  datatype Verdict = Clean | HasBorderline | HasProhibited

  datatype ScreenResult = ScreenResult(verdict: Verdict, flagged: seq<string>)

  type Dict = map<string, TermClass>

  /**
   * Go's rune-wise lowering as far as tokens can see it: the ASCII capitals and the
   * two other letters, U+0130 and U+212A, whose lower case is ASCII. What any other
   * character becomes is still a delimiter.
   */
  function LowerChar(c: char): char {
    if 'A' <= c <= 'Z' then (c as int + 32) as char
    else if c == '\U{0130}' then 'i'
    else if c == '\U{212A}' then 'k'
    else c
  }

  function Lower(s: string): (r: string)
    ensures |r| == |s| && forall i :: 0 <= i < |s| ==> r[i] == LowerChar(s[i])
  {
    seq(|s|, i requires 0 <= i < |s| => LowerChar(s[i]))
  }

  lemma LowerConcat(a: string, b: string)
    ensures Lower(a + b) == Lower(a) + Lower(b)
  {
  }

  /** The tokens of a text: the maximal alphanumeric runs of its lowered form, in order. */
  function Tokens(text: string): seq<string> {
    Texts(WordChar, Lower(text))
  }

  /** In other words: the tokens are the stretches at the maximal runs, all of them, left to right. */
  lemma TokensAreMaximalRuns(text: string) returns (ps: seq<(int, int)>)
    ensures Stretches(Lower(text), ps, Tokens(text))
    ensures Laid(WordChar, Lower(text), ps)
    ensures forall i: int, j: int :: IsMaximal(WordChar, Lower(text), i, j) <==> (i, j) in ps
  {
    ps := Spots(WordChar, Lower(text));
    TextsAtSpots(WordChar, Lower(text));
    SpotsLaid(WordChar, Lower(text));
    forall i: int, j: int
      ensures IsMaximal(WordChar, Lower(text), i, j) <==> (i, j) in ps
    {
      SpotsComplete(WordChar, Lower(text), i, j);
    }
  }

  // ------------------------------------------- tokens as characters of the text

  /** The characters that tokens are made of: ASCII letters of either case, digits, and the two letters with an ASCII small form. */
  predicate WordLetter(c: char) {
    'A' <= c <= 'Z' || 'a' <= c <= 'z' || '0' <= c <= '9' || c == '\U{0130}' || c == '\U{212A}'
  }

  /** `t` is the small form of `c`: 32 above an ASCII capital, and a small letter or digit itself. */
  predicate SmallForm(c: char, t: char) {
    || ('A' <= c <= 'Z' && t as int == c as int + 32)
    || (('a' <= c <= 'z' || '0' <= c <= '9') && t == c)
    || (c == '\U{0130}' && t == 'i')
    || (c == '\U{212A}' && t == 'k')
  }

  /** Between two delimiters or ends, `text[i..j]` spells `w` in letters of either case. */
  predicate WordAt(text: string, i: int, j: int, w: string) {
    && 0 <= i < j <= |text| && |w| == j - i
    && (forall x :: 0 <= x < |w| ==> SmallForm(text[i + x], w[x]))
    && (i == 0 || !WordLetter(text[i - 1]))
    && (j == |text| || !WordLetter(text[j]))
  }

  lemma SmallFormExact(c: char, t: char)
    ensures WordLetter(c) <==> Keeps(WordChar, LowerChar(c))
    ensures SmallForm(c, t) <==> WordLetter(c) && t == LowerChar(c)
  {
  }

  lemma WordIsMaximal(text: string, i: int, j: int, w: string)
    requires WordAt(text, i, j, w)
    ensures IsMaximal(WordChar, Lower(text), i, j) && w == Lower(text)[i..j]
  {
    hide SmallForm, WordLetter, LowerChar, Keeps;
    var low := Lower(text);
    forall k | 0 <= k < |text|
      ensures Keeps(WordChar, low[k]) <==> WordLetter(text[k])
    {
      SmallFormExact(text[k], low[k]);
    }
    forall k | i <= k < j
      ensures Keeps(WordChar, low[k]) && low[i..j][k - i] == w[k - i]
    {
      assert SmallForm(text[i + (k - i)], w[k - i]);
      SmallFormExact(text[k], w[k - i]);
    }
    assert forall x :: 0 <= x < |w| ==> low[i..j][x] == w[x] by {
      forall x | 0 <= x < |w|
        ensures low[i..j][x] == w[x]
      {
        assert low[i..j][(i + x) - i] == w[(i + x) - i];
      }
    }
  }

  lemma MaximalIsWord(text: string, i: int, j: int)
    requires IsMaximal(WordChar, Lower(text), i, j)
    ensures WordAt(text, i, j, Lower(text)[i..j])
  {
    hide SmallForm, WordLetter, LowerChar, Keeps;
    var low := Lower(text);
    forall k | 0 <= k < |text|
      ensures Keeps(WordChar, low[k]) <==> WordLetter(text[k])
      ensures Keeps(WordChar, low[k]) ==> SmallForm(text[k], low[k])
    {
      SmallFormExact(text[k], low[k]);
    }
    forall x | 0 <= x < j - i
      ensures SmallForm(text[i + x], low[i..j][x])
    {
      assert low[i..j][x] == low[i + x];
    }
  }

  /** The tokens are the words of the text in small letters: every one of them, left to right, and nothing else. */
  lemma TokensExact(text: string) returns (ps: seq<(int, int)>)
    ensures |ps| == |Tokens(text)| && forall k :: 0 <= k < |ps| ==> WordAt(text, ps[k].0, ps[k].1, Tokens(text)[k])
    ensures forall k, l :: 0 <= k < l < |ps| ==> ps[k].1 < ps[l].0
    ensures forall i: int, j: int, w: string :: WordAt(text, i, j, w) ==> (i, j) in ps
  {
    hide Tokens, WordAt, IsMaximal;
    ps := TokensAreMaximalRuns(text);
    forall k | 0 <= k < |ps|
      ensures WordAt(text, ps[k].0, ps[k].1, Tokens(text)[k])
    {
      assert IsMaximal(WordChar, Lower(text), ps[k].0, ps[k].1) by { assert (ps[k].0, ps[k].1) == ps[k]; }
      MaximalIsWord(text, ps[k].0, ps[k].1);
    }
    forall i: int, j: int, w: string | WordAt(text, i, j, w)
      ensures (i, j) in ps
    {
      WordIsMaximal(text, i, j, w);
    }
  }

  lemma TokenIsWord(text: string, w: string)
    ensures w in Tokens(text) <==> exists i, j :: WordAt(text, i, j, w)
  {
    hide Tokens, WordAt;
    var ps := TokensExact(text);
    if i, j :| WordAt(text, i, j, w) {
      var k :| 0 <= k < |ps| && ps[k] == (i, j);
      WordIsMaximal(text, i, j, w);
      WordIsMaximal(text, i, j, Tokens(text)[k]);
      assert w == Tokens(text)[k];
    }
  }

  /** Two texts that differ in the case of ASCII letters only. */
  predicate SameButCase(a: string, b: string) {
    && |a| == |b|
    && forall i :: 0 <= i < |a| ==>
         a[i] == b[i] || ('A' <= a[i] <= 'Z' && b[i] as int == a[i] as int + 32) || ('A' <= b[i] <= 'Z' && a[i] as int == b[i] as int + 32)
  }

  /** Case is no way around a term: such texts have the same tokens. */
  lemma TokensIgnoreCase(a: string, b: string)
    requires SameButCase(a, b)
    ensures Tokens(a) == Tokens(b)
  {
    assert Lower(a) == Lower(b);
  }

  /** A word by itself is one token, in small letters. */
  lemma WordIsToken(word: string) returns (t: string)
    requires word != "" && forall i :: 0 <= i < |word| ==> WordLetter(word[i])
    ensures Tokens(word) == [t] && |t| == |word| && forall i :: 0 <= i < |word| ==> SmallForm(word[i], t[i])
    ensures forall i :: 0 <= i < |word| && 'A' <= word[i] <= 'Z' ==> 'a' <= t[i] <= 'z' && t[i] as int - 'a' as int == word[i] as int - 'A' as int
  {
    t := Lower(word);
    forall i | 0 <= i < |word|
      ensures SmallForm(word[i], t[i])
    {
      SmallFormExact(word[i], t[i]);
    }
    assert WordAt(word, 0, |word|, t);
    OnlyToken(word, t);
  }

  lemma OnlyToken(word: string, t: string)
    requires WordAt(word, 0, |word|, t)
    ensures Tokens(word) == [t]
  {
    hide Tokens, SmallForm, WordLetter;
    var ps := TokensExact(word);
    forall k | 0 <= k < |ps|
      ensures ps[k] == (0, |word|) && Tokens(word)[k] == t
    {
      var u := Tokens(word)[k];
      assert WordAt(word, ps[k].0, ps[k].1, u);
      AllLetters(word, t);
      assert ps[k] == (0, |word|);
      WordIsMaximal(word, 0, |word|, t);
      WordIsMaximal(word, 0, |word|, u);
    }
    assert (0, |word|) in ps;
    assert |ps| > 1 ==> ps[0].1 < ps[1].0;
  }

  lemma AllLetters(word: string, t: string)
    requires WordAt(word, 0, |word|, t)
    ensures forall i :: 0 <= i < |word| ==> WordLetter(word[i])
  {
    forall i | 0 <= i < |word|
      ensures WordLetter(word[i])
    {
      assert SmallForm(word[0 + i], t[i]);
    }
  }

  /** tokenize: a builder that is flushed at every delimiter and once more at the end. */
  method Tokenize(text: string) returns (out: seq<string>)
    ensures out == Tokens(text)
    ensures forall w :: w in out <==> exists i, j :: WordAt(text, i, j, w)
  {
    var low := Lower(text);
    out := [];
    var cur := "";
    for i := 0 to |low|
      invariant Texts(WordChar, low[..i]) == if cur == "" then out else out + [cur]
      invariant cur != "" <==> Open(WordChar, low[..i])
    {
      assert low[..i + 1] == low[..i] + [low[i]];
      SnocTexts(WordChar, low[..i], low[i]);
      if Keeps(WordChar, low[i]) {
        if cur != "" {
          assert (out + [cur])[..|out|] == out;
        } else {
          assert cur + [low[i]] == [low[i]];
        }
        cur := cur + [low[i]];
      } else {
        if |cur| > 0 {
          out := out + [cur];
          cur := "";
        }
      }
    }
    assert low[..|low|] == low;
    if |cur| > 0 {
      out := out + [cur];
    }
    forall w
      ensures w in out <==> exists i, j :: WordAt(text, i, j, w)
    {
      TokenIsWord(text, w);
    }
  }

  /** A space between two texts keeps their tokens apart. */
  lemma TokensAcrossSpace(a: string, b: string)
    ensures Tokens(a + " " + b) == Tokens(a) + Tokens(b)
  {
    LowerConcat(a + " ", b);
    LowerConcat(a, " ");
    assert Lower(" ") == " ";
    SnocTexts(WordChar, Lower(a), ' ');
    CleanCutTexts(WordChar, Lower(a) + " ", Lower(b));
  }

  // -------------------------------------------------------------------- scan

  /** The dictionary tokens in order of first occurrence. */
  function Flagged(tokens: seq<string>, dict: Dict): seq<string> {
    if tokens == [] then []
    else
      var r, w := Flagged(tokens[..|tokens| - 1], dict), tokens[|tokens| - 1];
      if w in dict && w !in r then r + [w] else r
  }

  ghost predicate Hits(tokens: seq<string>, dict: Dict, cls: TermClass) {
    exists w :: w in tokens && w in dict && dict[w] == cls
  }

  /** The strongest class present. */
  ghost function VerdictOf(tokens: seq<string>, dict: Dict): Verdict {
    if Hits(tokens, dict, Prohibited) then HasProhibited
    else if Hits(tokens, dict, Borderline) then HasBorderline
    else Clean
  }

  lemma HitsSnoc(tokens: seq<string>, w: string, dict: Dict, cls: TermClass)
    ensures Hits(tokens + [w], dict, cls) <==> Hits(tokens, dict, cls) || (w in dict && dict[w] == cls)
  {
    assert w in tokens + [w];
    if Hits(tokens, dict, cls) {
      var v :| v in tokens && v in dict && dict[v] == cls;
      assert v in tokens + [w];
    }
  }

  lemma FlaggedSnoc(tokens: seq<string>, w: string, dict: Dict)
    ensures Flagged(tokens + [w], dict) == if w in dict && w !in Flagged(tokens, dict) then Flagged(tokens, dict) + [w] else Flagged(tokens, dict)
  {
    assert (tokens + [w])[..|tokens|] == tokens;
  }

  /** The flagged terms are exactly the dictionary words among the tokens, each once. */
  lemma {:induction false} FlaggedExact(tokens: seq<string>, dict: Dict)
    ensures Distinct(Flagged(tokens, dict))
    ensures forall w :: w in Flagged(tokens, dict) <==> w in tokens && w in dict
  {
    if tokens != [] {
      var front, w := tokens[..|tokens| - 1], tokens[|tokens| - 1];
      assert tokens == front + [w];
      FlaggedExact(front, dict);
    }
  }

  lemma {:induction false} NothingFlagged(tokens: seq<string>, dict: Dict)
    ensures dict == map[] ==> Flagged(tokens, dict) == []
  {
    if tokens != [] {
      NothingFlagged(tokens[..|tokens| - 1], dict);
    }
  }

  function FirstIndex(tokens: seq<string>, w: string): nat {
    if tokens == [] || tokens[0] == w then 0 else 1 + FirstIndex(tokens[1..], w)
  }

  lemma {:induction false} FirstIndexSnoc(tokens: seq<string>, x: string, w: string)
    ensures FirstIndex(tokens, w) <= |tokens|
    ensures w in tokens ==> FirstIndex(tokens, w) < |tokens| && FirstIndex(tokens + [x], w) == FirstIndex(tokens, w)
    ensures w !in tokens && w == x ==> FirstIndex(tokens + [x], w) == |tokens|
  {
    if tokens != [] {
      assert (tokens + [x])[1..] == tokens[1..] + [x];
      FirstIndexSnoc(tokens[1..], x, w);
      assert tokens == [tokens[0]] + tokens[1..];
    }
  }

  /** They stand in the order in which they first occur. */
  lemma {:induction false} FlaggedInOrder(tokens: seq<string>, dict: Dict, i: nat, j: nat)
    requires i < j < |Flagged(tokens, dict)|
    ensures FirstIndex(tokens, Flagged(tokens, dict)[i]) < FirstIndex(tokens, Flagged(tokens, dict)[j])
  {
    var front, w := tokens[..|tokens| - 1], tokens[|tokens| - 1];
    assert tokens == front + [w];
    var r := Flagged(front, dict);
    FlaggedExact(front, dict);
    FirstIndexSnoc(front, w, r[i]);
    if j < |r| {
      FlaggedInOrder(front, dict, i, j);
      FirstIndexSnoc(front, w, r[j]);
    } else {
      FirstIndexSnoc(front, w, w);
      assert r[i] in front && w !in front;
    }
  }

  lemma SeenAgain(tokens: seq<string>, w: string, dict: Dict)
    requires w in tokens && w in dict
    ensures Hits(tokens, dict, dict[w])
  {
  }

  /** What one more word does to the flagged list and to the verdict. */
  lemma ScanWord(tokens: seq<string>, w: string, dict: Dict)
    ensures w !in dict || w in tokens ==>
      Flagged(tokens + [w], dict) == Flagged(tokens, dict) && VerdictOf(tokens + [w], dict) == VerdictOf(tokens, dict)
    ensures w in dict && w !in tokens ==>
      && Flagged(tokens + [w], dict) == Flagged(tokens, dict) + [w]
      && VerdictOf(tokens + [w], dict) ==
        if dict[w] == Prohibited || VerdictOf(tokens, dict) == HasProhibited then HasProhibited else HasBorderline
  {
    FlaggedSnoc(tokens, w, dict);
    FlaggedExact(tokens, dict);
    HitsSnoc(tokens, w, dict, Prohibited);
    HitsSnoc(tokens, w, dict, Borderline);
    if w in dict && w in tokens {
      SeenAgain(tokens, w, dict);
    }
  }

  /** ScanText: the seen-set keeps a word from being flagged twice. */
  method ScanText(text: string, dict: Dict) returns (r: ScreenResult)
    ensures r.flagged == Flagged(Tokens(text), dict)
    ensures r.verdict == VerdictOf(Tokens(text), dict)
  {
    r := ScreenResult(Clean, []);
    if text == "" || dict == map[] {
      NothingFlagged(Tokens(text), dict);
      return;
    }
    var words := Tokenize(text);
    var seen: set<string> := {};
    for i := 0 to |words|
      invariant r.flagged == Flagged(words[..i], dict)
      invariant r.verdict == VerdictOf(words[..i], dict)
      invariant forall w :: w in seen <==> w in words[..i] && w in dict
    {
      var w := words[i];
      assert words[..i + 1] == words[..i] + [w];
      ScanWord(words[..i], w, dict);
      if w in dict {
        if w in seen {
          continue;
        }
        seen := seen + {w};
        r := r.(flagged := r.flagged + [w]);
        if dict[w] == Prohibited {
          r := r.(verdict := HasProhibited);
        } else if r.verdict != HasProhibited {
          r := r.(verdict := HasBorderline);
        }
      }
    }
    assert words[..|words|] == words;
  }

  // -------------------------------------------------------------- whole requests

  /** The tokens of the fields that are there, one field after the other. */
  function FieldTokens(fields: seq<Option<string>>): seq<string> {
    if fields == [] then []
    else FieldTokens(fields[..|fields| - 1]) + if fields[|fields| - 1].Some? then Tokens(fields[|fields| - 1].value) else []
  }

  /** The fields that are there, each followed by a space. */
  function Joined(fields: seq<Option<string>>): string {
    if fields == [] then ""
    else Joined(fields[..|fields| - 1]) + if fields[|fields| - 1].Some? then fields[|fields| - 1].value + " " else ""
  }

  /** The loop that joins the screened fields: each is followed by a space, so their tokens stay apart. */
  method JoinFields(fields: seq<Option<string>>) returns (text: string)
    ensures text == Joined(fields) && Tokens(text) == FieldTokens(fields)
    ensures text == "" <==> forall i :: 0 <= i < |fields| ==> fields[i].None?
  {
    text := "";
    for i := 0 to |fields|
      invariant text == Joined(fields[..i]) && Tokens(text) == FieldTokens(fields[..i])
      invariant text != "" ==> text[|text| - 1] == ' '
      invariant text == "" <==> forall j :: 0 <= j < i ==> fields[j].None?
    {
      assert fields[..i + 1][..i] == fields[..i];
      if fields[i].Some? {
        JoinOne(text, fields[i].value);
        text := text + fields[i].value + " ";
      }
    }
    assert fields[..|fields|] == fields;
  }

  lemma TrailingSpace(a: string)
    ensures Tokens(a + " ") == Tokens(a)
  {
    TokensAcrossSpace(a, "");
    assert a + " " + "" == a + " ";
  }

  lemma NoTokens()
    ensures Tokens("") == []
  {
  }

  lemma JoinOne(text: string, field: string)
    requires text != "" ==> text[|text| - 1] == ' '
    ensures Tokens(text + field + " ") == Tokens(text) + Tokens(field)
  {
    hide Tokens;
    TrailingSpace(text + field);
    if text == "" {
      NoTokens();
      assert text + field == field && [] + Tokens(field) == Tokens(field);
    } else {
      var front := text[..|text| - 1];
      assert text == front + " ";
      TrailingSpace(front);
      TokensAcrossSpace(front, field);
    }
  }

  lemma {:induction false} FieldTokensMember(fields: seq<Option<string>>, w: string)
    ensures w in FieldTokens(fields) <==> exists i :: 0 <= i < |fields| && fields[i].Some? && w in Tokens(fields[i].value)
  {
    hide Tokens;
    if fields != [] {
      var n := |fields| - 1;
      var front := fields[..n];
      FieldTokensMember(front, w);
      if w in FieldTokens(front) {
        var i :| 0 <= i < |front| && front[i].Some? && w in Tokens(front[i].value);
        assert fields[i].Some? && w in Tokens(fields[i].value);
      }
      if i :| 0 <= i < |fields| && fields[i].Some? && w in Tokens(fields[i].value) {
        if i < n { assert front[i] == fields[i]; }
      }
    }
  }

  datatype Decision = Pass | Blocked(flagged: seq<string>) | PassFlagged(text: string, flagged: seq<string>)

  /** Some field that is there has a dictionary word of this class. */
  ghost predicate FieldHits(fields: seq<Option<string>>, dict: Dict, cls: TermClass) {
    exists i :: 0 <= i < |fields| && fields[i].Some? && Hits(Tokens(fields[i].value), dict, cls)
  }

  /** Requests whose fields differ in the case of ASCII letters only are decided alike, and the same words are reported. */
  lemma {:induction false} CaseDecidesNothing(fields: seq<Option<string>>, others: seq<Option<string>>, dict: Dict, cls: TermClass)
    requires |fields| == |others|
    requires forall i :: 0 <= i < |fields| ==>
      if fields[i].Some? then others[i].Some? && SameButCase(fields[i].value, others[i].value) else others[i].None?
    ensures FieldTokens(fields) == FieldTokens(others)
    ensures FieldHits(fields, dict, cls) <==> FieldHits(others, dict, cls)
  {
    hide Tokens;
    if fields != [] {
      var n := |fields| - 1;
      CaseDecidesNothing(fields[..n], others[..n], dict, cls);
      if fields[n].Some? {
        TokensIgnoreCase(fields[n].value, others[n].value);
      }
    }
    FieldHitsJoined(fields, dict, cls);
    FieldHitsJoined(others, dict, cls);
  }

  /** In other words: some field has, between delimiters, the letters of a dictionary word of this class in either case. */
  lemma FieldHitsMeans(fields: seq<Option<string>>, dict: Dict, cls: TermClass)
    ensures FieldHits(fields, dict, cls) <==>
      exists k, i, j, w :: 0 <= k < |fields| && fields[k].Some? && WordAt(fields[k].value, i, j, w) && w in dict && dict[w] == cls
  {
    hide WordAt, Tokens;
    if FieldHits(fields, dict, cls) {
      var k :| 0 <= k < |fields| && fields[k].Some? && Hits(Tokens(fields[k].value), dict, cls);
      var w :| w in Tokens(fields[k].value) && w in dict && dict[w] == cls;
      TokenIsWord(fields[k].value, w);
    }
    if k, i, j, w :| 0 <= k < |fields| && fields[k].Some? && WordAt(fields[k].value, i, j, w) && w in dict && dict[w] == cls {
      TokenIsWord(fields[k].value, w);
      assert Hits(Tokens(fields[k].value), dict, cls);
    }
  }

  lemma FieldHitsJoined(fields: seq<Option<string>>, dict: Dict, cls: TermClass)
    ensures Hits(FieldTokens(fields), dict, cls) <==> FieldHits(fields, dict, cls)
  {
    if Hits(FieldTokens(fields), dict, cls) {
      var w :| w in FieldTokens(fields) && w in dict && dict[w] == cls;
      FieldTokensMember(fields, w);
      var i :| 0 <= i < |fields| && fields[i].Some? && w in Tokens(fields[i].value);
      assert Hits(Tokens(fields[i].value), dict, cls);
    }
    if FieldHits(fields, dict, cls) {
      var i :| 0 <= i < |fields| && fields[i].Some? && Hits(Tokens(fields[i].value), dict, cls);
      var w :| w in Tokens(fields[i].value) && w in dict && dict[w] == cls;
      FieldTokensMember(fields, w);
    }
  }

  /**
   * ScreenContent on the fields of a request: it is blocked exactly when some field
   * by itself has a prohibited word, let through with a note exactly when none has
   * but some field has a borderline word, and the words reported are those of all fields.
   */
  method ScreenContent(fields: seq<Option<string>>, dict: Dict) returns (d: Decision)
    ensures d.Blocked? <==> FieldHits(fields, dict, Prohibited)
    ensures d.Blocked? <==> exists k, i, j, w ::
      0 <= k < |fields| && fields[k].Some? && WordAt(fields[k].value, i, j, w) && w in dict && dict[w] == Prohibited
    ensures d.PassFlagged? <==> FieldHits(fields, dict, Borderline) && !FieldHits(fields, dict, Prohibited)
    ensures d.PassFlagged? <==> !d.Blocked? && exists k, i, j, w ::
      0 <= k < |fields| && fields[k].Some? && WordAt(fields[k].value, i, j, w) && w in dict && dict[w] == Borderline
    ensures !d.Pass? ==> d.flagged == Flagged(FieldTokens(fields), dict) && (d.PassFlagged? ==> d.text == Joined(fields))
    ensures !d.Pass? ==> forall w :: w in d.flagged <==>
      w in dict && exists i :: 0 <= i < |fields| && fields[i].Some? && w in Tokens(fields[i].value)
  {
    var text := JoinFields(fields);
    FieldHitsJoined(fields, dict, Prohibited);
    FieldHitsJoined(fields, dict, Borderline);
    FieldHitsMeans(fields, dict, Prohibited);
    FieldHitsMeans(fields, dict, Borderline);
    hide FieldHits, WordAt, Tokens;
    if text == "" {
      return Pass;
    }
    var r := ScanText(text, dict);
    FlaggedExact(Tokens(text), dict);
    forall w
      ensures w in r.flagged <==> w in dict && exists i :: 0 <= i < |fields| && fields[i].Some? && w in Tokens(fields[i].value)
    {
      FieldTokensMember(fields, w);
    }
    if r.verdict == HasProhibited {
      return Blocked(r.flagged);
    }
    if r.verdict == HasBorderline {
      return PassFlagged(text, r.flagged);
    }
    return Pass;
  }
}
