/**
 * The Silver and Gold payloads of a run. Silver is Bronze with its records sorted,
 * stably, by the value of the first schema field; Gold is a one-row summary.
 */
module Silver {
  import opened Prelude
  import Lex = Lexicographic

  /** A decoded JSON record: each field is null or a text. */
  type Record = map<string, Option<string>>

  datatype SchemaField = SchemaField(name: string, typ: string)

  /** The sort key: Go prints a missing or null value as `<nil>`. */
  function KeyOf(r: Record, field: string): string {
    if field in r && r[field].Some? then r[field].value else "<nil>"
  }

  /** `x` placed after every record of the sorted `s` that it is not below. */
  function Insert(s: seq<Record>, x: Record, f: string): seq<Record> {
    if s == [] || !Lex.Less(KeyOf(x, f), KeyOf(s[|s| - 1], f)) then s + [x]
    else Insert(s[..|s| - 1], x, f) + [s[|s| - 1]]
  }

  function Sorted(s: seq<Record>, f: string): (r: seq<Record>)
  {
    if s == [] then [] else Insert(Sorted(s[..|s| - 1], f), s[|s| - 1], f)
  }

  ghost predicate InOrder(s: seq<Record>, f: string) {
    forall i, j :: 0 <= i < j < |s| ==> !Lex.Less(KeyOf(s[j], f), KeyOf(s[i], f))
  }

  /** The records whose key is `v`, in the order they stand. */
  function Having(s: seq<Record>, f: string, v: string): seq<Record> {
    if s == [] then []
    else Having(s[..|s| - 1], f, v) + if KeyOf(s[|s| - 1], f) == v then [s[|s| - 1]] else []
  }

  lemma HavingSnoc(s: seq<Record>, x: Record, f: string, v: string)
    ensures Having(s + [x], f, v) == Having(s, f, v) + if KeyOf(x, f) == v then [x] else []
  {
    assert (s + [x])[..|s|] == s;
  }

  lemma {:induction false} InsertInOrder(s: seq<Record>, x: Record, f: string)
    requires InOrder(s, f)
    ensures InOrder(Insert(s, x, f), f)
    ensures forall y :: y in Insert(s, x, f) ==> y == x || y in s
    ensures |Insert(s, x, f)| == |s| + 1
  {
    if s == [] {
    } else {
      var front, last := s[..|s| - 1], s[|s| - 1];
      if !Lex.Less(KeyOf(x, f), KeyOf(last, f)) {
        forall i | 0 <= i < |s|
          ensures !Lex.Less(KeyOf(x, f), KeyOf(s[i], f))
        {
          if i < |s| - 1 {
            Lex.AtMostTransitive(KeyOf(s[i], f), KeyOf(last, f), KeyOf(x, f));
          }
        }
      } else {
        InsertInOrder(front, x, f);
        var t := Insert(front, x, f);
        forall i | 0 <= i < |t|
          ensures !Lex.Less(KeyOf(last, f), KeyOf(t[i], f))
        {
          assert t[i] in t;
          Lex.Trichotomy(KeyOf(x, f), KeyOf(last, f));
        }
      }
    }
  }

  lemma InsertBelow(s: seq<Record>, x: Record, f: string)
    requires s != [] && Lex.Less(KeyOf(x, f), KeyOf(s[|s| - 1], f))
    ensures Insert(s, x, f) == Insert(s[..|s| - 1], x, f) + [s[|s| - 1]]
  {
  }

  lemma HavingSwap(front: seq<Record>, last: Record, x: Record, t: seq<Record>, f: string, v: string)
    requires KeyOf(x, f) != KeyOf(last, f)
    requires Having(t, f, v) == Having(front, f, v) + if KeyOf(x, f) == v then [x] else []
    ensures Having(t + [last], f, v) == Having(front + [last], f, v) + if KeyOf(x, f) == v then [x] else []
  {
    hide Having, KeyOf;
    HavingSnoc(t, last, f, v);
    HavingSnoc(front, last, f, v);
    var h := Having(front, f, v);
    assert h + [] == h && h + [x] + [] == h + [x];
  }

  /** Inserting adds the record after the others with its key and disturbs no other key. */
  lemma {:induction false} InsertHaving(s: seq<Record>, x: Record, f: string, v: string)
    ensures Having(Insert(s, x, f), f, v) == Having(s, f, v) + if KeyOf(x, f) == v then [x] else []
  {
    if s == [] || !Lex.Less(KeyOf(x, f), KeyOf(s[|s| - 1], f)) {
      HavingSnoc(s, x, f, v);
    } else {
      var front, last := s[..|s| - 1], s[|s| - 1];
      InsertHaving(front, x, f, v);
      InsertBelow(s, x, f);
      Lex.Trichotomy(KeyOf(x, f), KeyOf(last, f));
      HavingSwap(front, last, x, Insert(front, x, f), f, v);
      assert s == front + [last];
    }
  }

  /** The Silver order is sorted by key and keeps the number of rows. */
  lemma {:induction false} SortedInOrder(s: seq<Record>, f: string)
    ensures InOrder(Sorted(s, f), f)
    ensures |Sorted(s, f)| == |s|
  {
    if s != [] {
      var front := s[..|s| - 1];
      SortedInOrder(front, f);
      InsertInOrder(Sorted(front, f), s[|s| - 1], f);
    }
  }

  /** The text a record is sorted by: that of the field, and `<nil>` for a field that is missing or null. */
  predicate SortsBy(r: Record, f: string, text: string) {
    (f in r && r[f] == Some(text)) || ((f !in r || r[f] == None) && text == "<nil>")
  }

  /** Of two Silver records the earlier has the smaller text, or the same. */
  lemma SilverAscends(s: seq<Record>, f: string, i: nat, j: nat, v: string, w: string)
    requires i < j < |Sorted(s, f)| && SortsBy(Sorted(s, f)[i], f, v) && SortsBy(Sorted(s, f)[j], f, w)
    ensures v == w || Lex.Less(v, w)
  {
    SortedInOrder(s, f);
    Lex.Trichotomy(v, w);
  }

  /** No record is made up. */
  lemma {:induction false} SortedFrom(s: seq<Record>, f: string)
    ensures forall y :: y in Sorted(s, f) ==> y in s
  {
    if s != [] {
      var front := s[..|s| - 1];
      SortedFrom(front, f);
      SortedInOrder(front, f);
      InsertInOrder(Sorted(front, f), s[|s| - 1], f);
    }
  }

  /** Stability: records with equal keys keep their Bronze order, and none is added or dropped. */
  lemma {:induction false} SortedStable(s: seq<Record>, f: string, v: string)
    ensures Having(Sorted(s, f), f, v) == Having(s, f, v)
  {
    if s != [] {
      var front, x := s[..|s| - 1], s[|s| - 1];
      SortedStable(front, f, v);
      InsertHaving(Sorted(front, f), x, f, v);
    }
  }

  lemma {:induction false} HavingMember(s: seq<Record>, f: string, i: nat)
    requires i < |s|
    ensures Having(s, f, KeyOf(s[i], f)) != []
  {
    if i < |s| - 1 {
      assert s[..|s| - 1][i] == s[i];
      HavingMember(s[..|s| - 1], f, i);
    }
  }

  lemma {:induction false} HavingIndex(s: seq<Record>, f: string, v: string) returns (i: nat)
    requires Having(s, f, v) != []
    ensures i < |s| && KeyOf(s[i], f) == v
  {
    if KeyOf(s[|s| - 1], f) == v {
      i := |s| - 1;
    } else {
      i := HavingIndex(s[..|s| - 1], f, v);
    }
  }

  lemma LastKeyAtMost(t: seq<Record>, u: seq<Record>, f: string)
    requires InOrder(u, f) && t != [] && u != []
    requires Having(t, f, KeyOf(t[|t| - 1], f)) == Having(u, f, KeyOf(t[|t| - 1], f))
    ensures !Lex.Less(KeyOf(u[|u| - 1], f), KeyOf(t[|t| - 1], f))
  {
    HavingMember(t, f, |t| - 1);
    var i := HavingIndex(u, f, KeyOf(t[|t| - 1], f));
    Lex.Trichotomy(KeyOf(u[i], f), KeyOf(u[i], f));
  }

  lemma EmptyHaving(u: seq<Record>, f: string)
    requires forall v :: Having(u, f, v) == []
    ensures u == []
  {
    if u != [] {
      HavingMember(u, f, 0);
      assert false;
    }
  }

  lemma SnocEqual(p: seq<Record>, x: Record, q: seq<Record>, y: Record)
    requires p + [x] == q + [y]
    ensures p == q && x == y
  {
    assert (p + [x])[|p|] == x && (q + [y])[|q|] == y;
    assert (p + [x])[..|p|] == p && (q + [y])[..|q|] == q;
  }

  lemma SameSnoc(t: seq<Record>, x: Record, u: seq<Record>, y: Record, f: string, v: string)
    requires Having(t + [x], f, v) == Having(u + [y], f, v) && KeyOf(x, f) == KeyOf(y, f)
    ensures Having(t, f, v) == Having(u, f, v) && (v == KeyOf(x, f) ==> x == y)
  {
    HavingSnoc(t, x, f, v);
    HavingSnoc(u, y, f, v);
    var p, q := Having(t, f, v), Having(u, f, v);
    if v == KeyOf(x, f) {
      assert p + [x] == q + [y];
      SnocEqual(p, x, q, y);
    } else {
      assert p + [] == p && q + [] == q;
    }
  }

  /** A list in key order is determined by what it holds under each key. */
  lemma {:induction false} OrderUnique(t: seq<Record>, u: seq<Record>, f: string)
    requires InOrder(t, f) && InOrder(u, f)
    requires forall v :: Having(t, f, v) == Having(u, f, v)
    ensures t == u
  {
    if t == [] {
      EmptyHaving(u, f);
    } else if u == [] {
      EmptyHaving(t, f);
    } else {
      var t', u', x, y := t[..|t| - 1], u[..|u| - 1], t[|t| - 1], u[|u| - 1];
      LastKeyAtMost(t, u, f);
      LastKeyAtMost(u, t, f);
      Lex.Trichotomy(KeyOf(x, f), KeyOf(y, f));
      assert t == t' + [x] && u == u' + [y];
      forall v
        ensures Having(t', f, v) == Having(u', f, v) && (v == KeyOf(x, f) ==> x == y)
      {
        assert Having(t, f, v) == Having(u, f, v);
        SameSnoc(t', x, u', y, f, v);
      }
      OrderUnique(t', u', f);
    }
  }

  /** Whatever stable sort the library runs, the Silver payload is this one. */
  lemma StableSortUnique(s: seq<Record>, t: seq<Record>, f: string)
    requires InOrder(t, f)
    requires forall v :: Having(t, f, v) == Having(s, f, v)
    ensures t == Sorted(s, f)
  {
    SortedInOrder(s, f);
    forall v
      ensures Having(t, f, v) == Having(Sorted(s, f), f, v)
    {
      SortedStable(s, f, v);
    }
    OrderUnique(t, Sorted(s, f), f);
  }

  lemma SplitLast(s: seq<Record>, x: Record, j: nat)
    requires j < |s|
    ensures s[..|s| - 1][..j] + [x] + s[..|s| - 1][j..] + [s[|s| - 1]] == s[..j] + [x] + s[j..]
  {
    assert s[..|s| - 1][..j] == s[..j];
    assert s[..|s| - 1][j..] + [s[|s| - 1]] == s[j..];
  }

  lemma {:induction false} InsertAt(s: seq<Record>, x: Record, f: string, j: nat)
    requires j <= |s|
    requires forall k :: j <= k < |s| ==> Lex.Less(KeyOf(x, f), KeyOf(s[k], f))
    requires j == 0 || !Lex.Less(KeyOf(x, f), KeyOf(s[j - 1], f))
    ensures Insert(s, x, f) == s[..j] + [x] + s[j..]
  {
    if j < |s| {
      var front, last := s[..|s| - 1], s[|s| - 1];
      InsertAt(front, x, f, j);
      InsertBelow(s, x, f);
      SplitLast(s, x, j);
    } else {
      assert s[..j] == s;
    }
  }

  /** Swapping the moving record with its left neighbour moves its slot one to the left. */
  lemma SlotMoves(s: seq<Record>, x: Record, t: seq<Record>, j: nat)
    requires 0 < j <= |s| && t == s[..j] + [x] + s[j..]
    ensures t[j - 1] == s[j - 1] && t[j] == x
    ensures t[j - 1 := x][j := s[j - 1]] == s[..j - 1] + [x] + s[j - 1..]
  {
  }

  /** Moves the record at `i` down by adjacent swaps to its place in the sorted records before it. */
  method SiftDown(a: array<Record>, i: nat, f: string)
    requires i < a.Length
    modifies a
    ensures a[..i + 1] == Insert(old(a[..i]), old(a[i]), f)
    ensures a[i + 1..] == old(a[i + 1..])
  {
    ghost var s, x := a[..i], a[i];
    var j := i;
    assert a[..i + 1] == s[..i] + [x] + s[i..];
    while j > 0 && Lex.Less(KeyOf(a[j], f), KeyOf(a[j - 1], f))
      invariant 0 <= j <= i
      invariant a[..i + 1] == s[..j] + [x] + s[j..]
      invariant forall k :: j <= k < i ==> Lex.Less(KeyOf(x, f), KeyOf(s[k], f))
      invariant a[i + 1..] == old(a[i + 1..])
    {
      ghost var t := a[..i + 1];
      SlotMoves(s, x, t, j);
      assert a[j] == t[j] && a[j - 1] == t[j - 1];
      a[j], a[j - 1] := a[j - 1], a[j];
      assert a[..i + 1] == t[j - 1 := x][j := s[j - 1]];
      j := j - 1;
    }
    assert a[j] == a[..i + 1][j] == x;
    assert j > 0 ==> a[j - 1] == a[..i + 1][j - 1] == s[j - 1];
    InsertAt(s, x, f, j);
  }

  lemma SortedNone(f: string)
    ensures Sorted([], f) == []
  {
  }

  lemma SortedSnoc(s: seq<Record>, x: Record, f: string)
    ensures Sorted(s + [x], f) == Insert(Sorted(s, f), x, f)
  {
    assert (s + [x])[..|s|] == s;
  }

  /** In-place stable insertion sort, as Go's stable sort does on one block. */
  method SortStable(a: array<Record>, f: string)
    modifies a
    ensures a[..] == Sorted(old(a[..]), f)
  {
    hide Sorted, Insert;
    ghost var was := a[..];
    assert Sorted(was[..0], f) == [] by { SortedNone(f); }
    for i := 0 to a.Length
      invariant a[..i] == Sorted(was[..i], f)
      invariant a[i..] == was[i..]
    {
      assert was[..i + 1] == was[..i] + [was[i]];
      SortedSnoc(was[..i], was[i], f);
      assert a[i] == a[i..][0] == was[i];
      assert a[i + 1..] == a[i..][1..] == was[i + 1..];
      SiftDown(a, i, f);
    }
    assert a[..a.Length] == a[..] && was[..a.Length] == was;
  }

  /** The Silver payload and its row count. */
  method BuildSilver(bronze: seq<Record>, fields: seq<SchemaField>) returns (out: seq<Record>, rows: nat)
    ensures out == if fields == [] then bronze else Sorted(bronze, fields[0].name)
    ensures rows == |bronze| == |out|
  {
    out := bronze;
    if |bronze| > 1 && |fields| > 0 {
      var a := new Record[|bronze|](i requires 0 <= i < |bronze| => bronze[i]);
      assert a[..] == bronze;
      SortStable(a, fields[0].name);
      out := a[..];
    } else if |bronze| == 1 && fields != [] {
      assert bronze[..0] == [] && Sorted(bronze, fields[0].name) == Insert([], bronze[0], fields[0].name);
    }
    rows := |out|;
    if fields != [] {
      SortedInOrder(bronze, fields[0].name);
    }
  }
}
