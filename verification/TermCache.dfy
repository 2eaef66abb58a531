/** The sensitive-term table and the in-memory dictionary that must agree with it. */
module TermCache {
  import opened Prelude
  import opened Screening

  predicate IsSpace(c: char) {
    c == ' ' || '\t' <= c <= '\r'
  }

  /** strings.TrimSpace, on ASCII white space. */
  function TrimSpace(s: string): (r: string)
    ensures r != "" ==> !IsSpace(r[0]) && !IsSpace(r[|r| - 1])
    ensures s != "" && !IsSpace(s[0]) && !IsSpace(s[|s| - 1]) ==> r == s
    decreases |s|
  {
    if s == "" then s
    else if IsSpace(s[0]) then TrimSpace(s[1..])
    else if IsSpace(s[|s| - 1]) then TrimSpace(s[..|s| - 1])
    else s
  }

  /** The dictionary key of a term. */
  function KeyOf(term: string): string {
    Lower(TrimSpace(term))
  }

  /** Space, tab, newline, vertical tab, form feed, carriage return. */
  predicate White(c: char) {
    c as int in {32, 9, 10, 11, 12, 13}
  }

  /** `s[i..j]` is all of `s` but the white space at both ends. */
  predicate Trims(s: string, i: int, j: int) {
    && 0 <= i <= j <= |s|
    && (forall k :: 0 <= k < i ==> White(s[k])) && (forall k :: j <= k < |s| ==> White(s[k]))
    && (i < j ==> !White(s[i]) && !White(s[j - 1]))
  }

  lemma TrimsAfter(s: string, i: int, j: int)
    requires s != "" && White(s[0]) && Trims(s[1..], i, j)
    ensures Trims(s, i + 1, j + 1) && s[1..][i..j] == s[i + 1..j + 1]
  {
    hide White;
    var rest := s[1..];
    assert forall k :: 0 < k < |s| ==> s[k] == rest[k - 1];
  }

  lemma TrimsBefore(s: string, i: int, j: int)
    requires s != "" && White(s[|s| - 1]) && Trims(s[..|s| - 1], i, j)
    ensures Trims(s, i, j) && s[..|s| - 1][i..j] == s[i..j]
  {
    hide White;
    var rest := s[..|s| - 1];
    assert forall k :: 0 <= k < |rest| ==> s[k] == rest[k];
  }

  lemma {:induction false} TrimExact(s: string) returns (i: int, j: int)
    ensures Trims(s, i, j) && TrimSpace(s) == s[i..j]
    decreases |s|
  {
    if s == "" {
      i, j := 0, 0;
    } else if IsSpace(s[0]) {
      i, j := TrimExact(s[1..]);
      TrimsAfter(s, i, j);
      i, j := i + 1, j + 1;
    } else if IsSpace(s[|s| - 1]) {
      i, j := TrimExact(s[..|s| - 1]);
      TrimsBefore(s, i, j);
    } else {
      i, j := 0, |s|;
    }
  }

  lemma LettersAreKept(s: string)
    requires s != "" && forall i :: 0 <= i < |s| ==> WordLetter(s[i])
    ensures TrimSpace(s) == s
  {
    assert WordLetter(s[0]) && WordLetter(s[|s| - 1]);
  }

  lemma LettersInEitherCase(a: string, b: string)
    requires SameButCase(a, b) && forall i :: 0 <= i < |a| ==> WordLetter(a[i])
    ensures forall i :: 0 <= i < |b| ==> WordLetter(b[i])
  {
    forall i | 0 <= i < |b|
      ensures WordLetter(b[i])
    {
      assert WordLetter(a[i]);
    }
  }

  /** A term of letters and digits is found in every text that spells it, in whatever case: its key is the text's one token. */
  lemma TermIsFound(term: string, text: string)
    requires term != "" && (forall i :: 0 <= i < |term| ==> WordLetter(term[i])) && SameButCase(term, text)
    ensures Tokens(text) == [KeyOf(term)] && KeyOf(text) == KeyOf(term)
  {
    assert text != "";
    hide WordLetter, SmallForm, Tokens, TrimSpace, SameButCase;
    LettersInEitherCase(term, text);
    LettersAreKept(term);
    LettersAreKept(text);
    TokensIgnoreCase(term, text);
    var t := WordIsToken(term);
    var u := WordIsToken(text);
    SmallKey(term, t);
    SmallKey(text, u);
  }

  lemma SmallKey(term: string, t: string)
    requires |t| == |term| && forall i :: 0 <= i < |term| ==> SmallForm(term[i], t[i])
    ensures Lower(term) == t
  {
    forall i | 0 <= i < |term|
      ensures Lower(term)[i] == t[i]
    {
      SmallFormExact(term[i], t[i]);
    }
  }

  datatype Term = Term(text: string, cls: TermClass)

  /** No two rows have the same key: the table's unique index ignores case. */
  ghost predicate KeysUnique(table: map<nat, Term>) {
    forall i, j :: i in table && j in table && KeyOf(table[i].text) == KeyOf(table[j].text) ==> i == j
  }

  /** `dict` maps exactly the keys of the table's terms, each to its class. */
  ghost predicate IsDictOf(dict: Dict, table: map<nat, Term>) {
    && (forall i :: i in table ==> KeyOf(table[i].text) in dict && dict[KeyOf(table[i].text)] == table[i].cls)
    && (forall k :: k in dict ==> HasKey(table, k))
  }

  ghost predicate HasKey(table: map<nat, Term>, k: string) {
    exists i :: i in table && KeyOf(table[i].text) == k
  }

  /** A table has one dictionary. */
  lemma DictUnique(d: Dict, e: Dict, table: map<nat, Term>)
    requires IsDictOf(d, table) && IsDictOf(e, table)
    ensures d == e
  {
    forall k
      ensures k in d <==> k in e
      ensures k in d && k in e ==> d[k] == e[k]
    {
      if k in d {
        assert HasKey(table, k);
        var i :| i in table && KeyOf(table[i].text) == k;
      }
      if k in e {
        assert HasKey(table, k);
      }
    }
  }

  datatype AddError = MissingTerm | Duplicate | NotSaved | NotReloaded | NotReadBack

  /** The outcomes of adding a term that leave it in the table. */
  predicate Stored(r: Result<nat, AddError>) {
    r.Ok? || r == Err(NotReloaded) || r == Err(NotReadBack)
  }

  class Service {
    var table: map<nat, Term>
    var cacheTerm: Dict
    var cacheLoaded: bool

    ghost predicate Valid()
      reads this
    {
      KeysUnique(table) && (!cacheLoaded ==> cacheTerm == map[])
    }

    /** The cache, once loaded, is the dictionary of the table as it is now. */
    ghost predicate Fresh()
      reads this
    {
      cacheLoaded ==> IsDictOf(cacheTerm, table)
    }

    constructor ()
      ensures Valid() && Fresh() && table == map[] && !cacheLoaded
    {
      table, cacheTerm, cacheLoaded := map[], map[], false;
    }

    /** ReloadTerms: reads all rows, in whatever order, into a new map and swaps it in. */
    method ReloadTerms(readOk: bool) returns (ok: bool)
      requires Valid()
      modifies this`cacheTerm, this`cacheLoaded
      ensures Valid() && ok == readOk
      ensures ok ==> cacheLoaded && IsDictOf(cacheTerm, table)
      ensures !ok ==> cacheTerm == old(cacheTerm) && cacheLoaded == old(cacheLoaded)
    {
      if !readOk {
        return false;
      }
      var m: Dict := map[];
      var left := table.Keys;
      while left != {}
        invariant left <= table.Keys
        invariant forall i :: i in table.Keys - left ==> KeyOf(table[i].text) in m && m[KeyOf(table[i].text)] == table[i].cls
        invariant forall k :: k in m ==> HasKey(table, k)
        decreases left
      {
        var i :| i in left;
        left := left - {i};
        var k := KeyOf(table[i].text);
        assert HasKey(table, k);
        m := m[k := table[i].cls];
      }
      cacheTerm, cacheLoaded := m, true;
      return true;
    }

    /**
     * AddTerm: the unique index turns away a term whose key is taken; then the cache is
     * reloaded and the row read back. An error after the INSERT leaves the term stored.
     */
    method AddTerm(id: nat, term: string, cls: TermClass, insertOk: bool, readOk: bool, readBack: bool) returns (r: Result<nat, AddError>)
      requires Valid() && id !in table
      modifies this
      ensures Valid()
      ensures Stored(r) <==> TrimSpace(term) != "" && insertOk && !HasKey(old(table), KeyOf(term))
      ensures r == Err(MissingTerm) <==> TrimSpace(term) == ""
      ensures r == Err(Duplicate) <==> TrimSpace(term) != "" && HasKey(old(table), KeyOf(term))
      ensures Stored(r) ==> r == if !readOk then Err(NotReloaded) else if !readBack then Err(NotReadBack) else Ok(id)
      ensures table == if Stored(r) then old(table)[id := Term(TrimSpace(term), cls)] else old(table)
      ensures Stored(r) && readOk ==> cacheLoaded && Fresh()
      ensures !Stored(r) ==> Fresh() == old(Fresh())
      ensures r == Err(NotReloaded) && old(cacheLoaded && Fresh()) ==> !Fresh()
    {
      ghost var before := table;
      var trimmed := TrimSpace(term);
      if trimmed == "" {
        return Err(MissingTerm);
      }
      assert TrimSpace(trimmed) == trimmed;
      var taken := exists i | i in table :: KeyOf(table[i].text) == KeyOf(trimmed);
      assert taken <==> HasKey(table, KeyOf(term));
      if taken {
        return Err(Duplicate);
      }
      if !insertOk {
        return Err(NotSaved);
      }
      table := table[id := Term(trimmed, cls)];
      var ok := ReloadTerms(readOk);
      if !ok {
        if old(cacheLoaded && Fresh()) {
          assert KeyOf(table[id].text) == KeyOf(trimmed);
          assert KeyOf(trimmed) in cacheTerm ==> HasKey(before, KeyOf(trimmed));
        }
        return Err(NotReloaded);
      }
      return if readBack then Ok(id) else Err(NotReadBack);
    }

    /** DeleteTerm: the row goes, then the cache is reloaded. */
    method DeleteTerm(id: nat, readOk: bool) returns (found: bool, reloaded: bool)
      requires Valid()
      modifies this
      ensures Valid() && found == (id in old(table)) && table == old(table) - {id}
      ensures reloaded == (found && readOk)
      ensures reloaded ==> cacheLoaded && Fresh()
      ensures found && !reloaded && old(cacheLoaded && Fresh()) ==> !Fresh()
      ensures !found ==> Fresh() == old(Fresh())
    {
      if id !in table {
        assert table - {id} == table;
        return false, false;
      }
      ghost var key := KeyOf(table[id].text);
      table := table - {id};
      reloaded := ReloadTerms(readOk);
      if !reloaded && old(cacheLoaded && Fresh()) {
        assert key in cacheTerm;
        assert !HasKey(table, key);
      }
      return true, reloaded;
    }

    /**
     * Screen: loads the cache on first use and scans with it. With a fresh cache, or
     * one that can be loaded now, the result is that of the current table.
     */
    method Screen(text: string, readOk: bool) returns (r: ScreenResult)
      requires Valid()
      modifies this`cacheTerm, this`cacheLoaded
      ensures Valid()
      ensures old(Fresh()) ==> Fresh()
      ensures old(Fresh()) && (old(cacheLoaded) || readOk) ==>
        ScanOf(table, text, r)
    {
      if !cacheLoaded {
        var _ := ReloadTerms(readOk);
      }
      r := ScanText(text, cacheTerm);
      assert cacheLoaded && Fresh() ==> IsDictOf(cacheTerm, table);
    }
  }

  // --------------------------------------------------- any sequence of calls

  datatype Op = Add(id: nat, term: string, cls: TermClass) | Delete(id: nat) | Scan(text: string)

  /** The table has a dictionary, its only one, and `r` is the scan of `text` that it gives. */
  ghost predicate ScanOf(table: map<nat, Term>, text: string, r: ScreenResult) {
    exists dict :: IsDictOf(dict, table) && r == ScreenResult(VerdictOf(Tokens(text), dict), Flagged(Tokens(text), dict))
  }

  /** What a call does to the table when the database goes along; ids are new, as AUTO_INCREMENT makes them. */
  ghost function Updated(table: map<nat, Term>, op: Op): map<nat, Term> {
    match op
    case Add(id, term, cls) =>
      if id in table || TrimSpace(term) == "" || HasKey(table, KeyOf(term)) then table else table[id := Term(TrimSpace(term), cls)]
    case Delete(id) => table - {id}
    case Scan(_) => table
  }

  ghost function TableAfter(ops: seq<Op>): map<nat, Term> {
    if ops == [] then map[] else Updated(TableAfter(ops[..|ops| - 1]), ops[|ops| - 1])
  }

  lemma TableAfterSnoc(ops: seq<Op>, n: nat)
    requires n < |ops|
    ensures TableAfter(ops[..n + 1]) == Updated(TableAfter(ops[..n]), ops[n])
  {
    assert ops[..n + 1][..n] == ops[..n];
  }

  /** One call, the database going along. */
  method Call(s: Service, op: Op) returns (answer: Option<ScreenResult>)
    requires s.Valid() && s.Fresh()
    modifies s
    ensures s.Valid() && s.Fresh() && s.table == Updated(old(s.table), op)
    ensures answer.Some? == op.Scan?
    ensures op.Scan? ==> ScanOf(old(s.table), op.text, answer.value)
  {
    answer := None;
    match op
    case Add(id, term, cls) =>
      if id !in s.table {
        var _ := s.AddTerm(id, term, cls, true, true, true);
      }
    case Delete(id) =>
      var _, _ := s.DeleteTerm(id, true);
    case Scan(text) =>
      var r := s.Screen(text, true);
      answer := Some(r);
  }

  /** Each scan, and nothing else, has an answer: the scan with the table that the calls before it left. */
  ghost predicate Answered(ops: seq<Op>, answers: seq<Option<ScreenResult>>) {
    && |answers| <= |ops|
    && forall k :: 0 <= k < |answers| ==>
         answers[k].Some? == ops[k].Scan? && (ops[k].Scan? ==> ScanOf(TableAfter(ops[..k]), ops[k].text, answers[k].value))
  }

  /**
   * Any sequence of calls on an empty table, reads and writes succeeding: every scan,
   * also one before the cache was ever loaded, is the scan with the table of its moment.
   */
  method Serve(ops: seq<Op>) returns (answers: seq<Option<ScreenResult>>)
    ensures |answers| == |ops| && Answered(ops, answers)
  {
    var s := new Service();
    answers := [];
    assert ops[..0] == [];
    for n := 0 to |ops|
      invariant fresh(s) && s.Valid() && s.Fresh() && s.table == TableAfter(ops[..n])
      invariant |answers| == n && Answered(ops, answers)
    {
      TableAfterSnoc(ops, n);
      var answer := Call(s, ops[n]);
      answers := answers + [answer];
    }
  }
}
