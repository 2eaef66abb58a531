/**
 * Lineage of lakehouse rows: which rows a row was made from, and the depth-capped
 * walk that shows them.
 */
module Lineage {
  import opened Prelude
  import P = IngestProtocol
  import R = IngestRuns
  import S = Silver

  /** For each row its direct inputs; row `i` has id `i`. */
  type Graph = seq<seq<nat>>

  /** A row of the answer with the rows it was made from. */
  datatype Node = Node(id: nat, inputs: seq<Node>)

  const DEPTH_CAP := 8

  /** buildLineage; a missing row is an error, which a caller one level up skips. */
  function Build(g: Graph, id: nat, depth: nat): Option<Node>
    decreases depth, 0
  {
    if id >= |g| then None
    else if depth == 0 then Some(Node(id, []))
    else Some(Node(id, BuildAll(g, g[id], depth - 1)))
  }

  function BuildAll(g: Graph, ids: seq<nat>, depth: nat): seq<Node>
    decreases depth, |ids| + 1
  {
    if ids == [] then []
    else
      var last := Build(g, ids[|ids| - 1], depth);
      BuildAll(g, ids[..|ids| - 1], depth) + if last.Some? then [last.value] else []
  }

  function Lineage(g: Graph, id: nat): Option<Node> {
    Build(g, id, DEPTH_CAP)
  }

  /** The row appears somewhere in the tree. */
  predicate Shows(n: Node, x: nat) {
    n.id == x || exists i | 0 <= i < |n.inputs| :: Shows(n.inputs[i], x)
  }

  /** A chain of existing rows, each made from the next. */
  predicate Chain(g: Graph, p: seq<nat>) {
    && p != []
    && (forall i :: 0 <= i < |p| ==> p[i] < |g|)
    && (forall i :: 0 <= i < |p| - 1 ==> p[i + 1] in g[p[i]])
  }

  predicate ChainFrom(g: Graph, p: seq<nat>, from: nat, to: nat) {
    Chain(g, p) && p[0] == from && p[|p| - 1] == to
  }

  /** `x` went into `id` over at most `n` steps. */
  ghost predicate Within(g: Graph, id: nat, x: nat, n: nat) {
    exists p :: ChainFrom(g, p, id, x) && |p| <= n + 1
  }

  lemma ChainCons(g: Graph, id: nat, p: seq<nat>)
    requires Chain(g, p) && id < |g| && p[0] in g[id]
    ensures Chain(g, [id] + p)
  {
    var q := [id] + p;
    forall i | 0 <= i < |q| - 1
      ensures q[i + 1] in g[q[i]]
    {
      if i > 0 {
        assert q[i] == p[i - 1] && q[i + 1] == p[i];
      }
    }
  }

  lemma ChainTail(g: Graph, p: seq<nat>)
    requires Chain(g, p) && |p| > 1
    ensures Chain(g, p[1..]) && p[1] in g[p[0]]
  {
    forall i | 0 <= i < |p[1..]| - 1
      ensures p[1..][i + 1] in g[p[1..][i]]
    {
      assert p[i + 2] in g[p[i + 1]];
    }
    assert p[0 + 1] in g[p[0]];
  }

  /** Reaching in at most `n + 1` steps is being there or reaching in at most `n` from a direct input. */
  lemma WithinStep(g: Graph, id: nat, x: nat, n: nat)
    requires id < |g|
    ensures Within(g, id, x, n + 1) <==> id == x || exists c | c in g[id] :: Within(g, c, x, n)
  {
    if Within(g, id, x, n + 1) && id != x {
      var p :| ChainFrom(g, p, id, x) && |p| <= n + 2;
      ChainTail(g, p);
      assert ChainFrom(g, p[1..], p[1], x);
    }
    if id == x {
      assert ChainFrom(g, [id], id, x);
    } else if exists c | c in g[id] :: Within(g, c, x, n) {
      var c :| c in g[id] && Within(g, c, x, n);
      var p :| ChainFrom(g, p, c, x) && |p| <= n + 1;
      ChainCons(g, id, p);
      assert ChainFrom(g, [id] + p, id, x);
    }
  }

  /** The tree shows exactly the existing rows that went into `id` over at most `depth` steps. */
  lemma {:induction false} BuildExact(g: Graph, id: nat, depth: nat, x: nat)
    requires id < |g|
    ensures Shows(Build(g, id, depth).value, x) <==> Within(g, id, x, depth)
    decreases depth, 0
  {
    if depth == 0 {
      if Within(g, id, x, 0) {
        var p :| ChainFrom(g, p, id, x) && |p| <= 1;
      }
      if id == x {
        assert ChainFrom(g, [id], id, x);
      }
    } else {
      BuildAllExact(g, g[id], depth - 1, x);
      WithinStep(g, id, x, depth - 1);
    }
  }

  ghost predicate ShownBy(ns: seq<Node>, x: nat) {
    exists i | 0 <= i < |ns| :: Shows(ns[i], x)
  }

  lemma ShownSnoc(ns: seq<Node>, n: Node, x: nat)
    ensures ShownBy(ns + [n], x) <==> ShownBy(ns, x) || Shows(n, x)
  {
    var all := ns + [n];
    if ShownBy(ns, x) {
      var i :| 0 <= i < |ns| && Shows(ns[i], x);
      assert Shows(all[i], x);
    }
    if Shows(n, x) {
      assert Shows(all[|ns|], x);
    }
  }

  ghost predicate AnyWithin(g: Graph, ids: seq<nat>, x: nat, n: nat) {
    exists c | c in ids :: Within(g, c, x, n)
  }

  lemma AnyWithinSnoc(g: Graph, ids: seq<nat>, c: nat, x: nat, n: nat)
    ensures AnyWithin(g, ids + [c], x, n) <==> AnyWithin(g, ids, x, n) || Within(g, c, x, n)
  {
    assert c in ids + [c];
    if AnyWithin(g, ids, x, n) {
      var d :| d in ids && Within(g, d, x, n);
      assert d in ids + [c];
    }
  }

  lemma {:induction false} BuildAllExact(g: Graph, ids: seq<nat>, depth: nat, x: nat)
    ensures ShownBy(BuildAll(g, ids, depth), x) <==> AnyWithin(g, ids, x, depth)
    decreases depth, |ids| + 1
  {
    if ids != [] {
      var front, c := ids[..|ids| - 1], ids[|ids| - 1];
      BuildAllExact(g, front, depth, x);
      AnyWithinSnoc(g, front, c, x, depth);
      assert ids == front + [c];
      if c < |g| {
        BuildExact(g, c, depth, x);
        ShownSnoc(BuildAll(g, front, depth), Build(g, c, depth).value, x);
      } else {
        assert !Within(g, c, x, depth);
        assert BuildAll(g, ids, depth) == BuildAll(g, front, depth);
      }
    }
  }

  // ------------------------------------------------------ the shape of the tree

  /** The ids that name a row, in order. */
  function Existing(ids: seq<nat>, n: nat): seq<nat> {
    if ids == [] then []
    else Existing(ids[..|ids| - 1], n) + if ids[|ids| - 1] < n then [ids[|ids| - 1]] else []
  }

  /** Under each node, down to the depth, are its direct inputs that exist, in their order; below that nothing. */
  predicate IsTree(g: Graph, n: Node, depth: nat)
    decreases depth
  {
    && n.id < |g|
    && if depth == 0 then n.inputs == []
       else
         var ids := Existing(g[n.id], |g|);
         |n.inputs| == |ids| && forall i :: 0 <= i < |ids| ==> n.inputs[i].id == ids[i] && IsTree(g, n.inputs[i], depth - 1)
  }

  /** The walk gives that tree: no input is missing, repeated, out of place or at another level. */
  lemma {:induction false} BuildIsTree(g: Graph, id: nat, depth: nat)
    ensures Build(g, id, depth).Some? <==> id < |g|
    ensures id < |g| ==> Build(g, id, depth).value.id == id && IsTree(g, Build(g, id, depth).value, depth)
    decreases depth, 0
  {
    if id < |g| && depth > 0 {
      BuildAllAreTrees(g, g[id], depth - 1);
    }
  }

  lemma {:induction false} BuildAllAreTrees(g: Graph, ids: seq<nat>, depth: nat)
    ensures var ns, there := BuildAll(g, ids, depth), Existing(ids, |g|);
      |ns| == |there| && forall i :: 0 <= i < |ns| ==> ns[i].id == there[i] && IsTree(g, ns[i], depth)
    decreases depth, |ids| + 1
  {
    if ids != [] {
      BuildAllAreTrees(g, ids[..|ids| - 1], depth);
      BuildIsTree(g, ids[|ids| - 1], depth);
    }
  }

  /** And there is only one. */
  lemma {:induction false} TreeUnique(g: Graph, n: Node, m: Node, depth: nat)
    requires IsTree(g, n, depth) && IsTree(g, m, depth) && n.id == m.id
    ensures n == m
    decreases depth
  {
    if depth > 0 {
      forall i | 0 <= i < |n.inputs|
        ensures n.inputs[i] == m.inputs[i]
      {
        TreeUnique(g, n.inputs[i], m.inputs[i], depth - 1);
      }
      assert n.inputs == m.inputs;
    }
  }

  /** The answer for a row is the tree of at most eight steps. */
  lemma LineageIsTree(g: Graph, id: nat, n: Node)
    requires id < |g|
    ensures Lineage(g, id) == Some(n) <==> n.id == id && IsTree(g, n, 8)
  {
    hide IsTree;
    BuildIsTree(g, id, 8);
    if n.id == id && IsTree(g, n, 8) {
      TreeUnique(g, n, Lineage(g, id).value, 8);
    }
  }

  // ------------------------------------------------------- growing the graph

  /** Every row was made from earlier ones. */
  predicate Descending(g: Graph) {
    forall i :: 0 <= i < |g| ==> forall c | c in g[i] :: c < i
  }

  /**
   * The lineage inserts of one layer write, the first `errorAt` of which go through.
   * INSERT IGNORE skips an input that is already linked and one that names no row; the
   * new row itself exists by then, and stays when an insert fails.
   */
  method WriteLineage(g: Graph, inputs: seq<nat>, errorAt: nat) returns (h: Graph, ok: bool)
    ensures |h| == |g| + 1 && h[..|g|] == g && ok == (|inputs| <= errorAt)
    ensures Distinct(h[|g|]) && forall c :: c in h[|g|] <==> c in (if ok then inputs else inputs[..errorAt]) && c <= |g|
    ensures Descending(g) && |g| !in inputs ==> Descending(h)
  {
    var linked: seq<nat> := [];
    var i := 0;
    while i < |inputs| && i != errorAt
      invariant i <= |inputs| && i <= errorAt
      invariant Distinct(linked) && forall c :: c in linked <==> c in inputs[..i] && c <= |g|
    {
      assert inputs[..i + 1] == inputs[..i] + [inputs[i]];
      if inputs[i] <= |g| && inputs[i] !in linked {
        linked := linked + [inputs[i]];
      }
      i := i + 1;
    }
    ok := i == |inputs|;
    assert inputs[..|inputs|] == inputs;
    h := g + [linked];
    if Descending(g) && |g| !in inputs {
      forall i | 0 <= i < |h|
        ensures forall c | c in h[i] :: c < i
      {
        if i < |g| { assert h[i] == g[i]; }
      }
    }
  }

  /** Where every row is made from earlier ones, a chain loses at least one in id per step, so it never returns. */
  lemma {:induction false} ChainsDescend(g: Graph, p: seq<nat>, k: nat)
    requires Descending(g) && Chain(g, p) && k < |p|
    ensures p[k] + k <= p[0]
  {
    if k > 0 {
      ChainsDescend(g, p, k - 1);
      assert p[k - 1 + 1] in g[p[k - 1]];
    }
  }

  // -------------------------------------------------- graphs of ingestion runs

  function Rank(layer: P.Layer): nat {
    match layer
    case Bronze => 0
    case Silver => 1
    case Gold => 2
  }

  /** What the lineage table says. */
  function GraphOf(rows: seq<P.Row>): (g: Graph)
    ensures |g| == |rows| && forall i :: 0 <= i < |g| ==> g[i] == rows[i].inputs
  {
    seq(|rows|, i requires 0 <= i < |rows| => rows[i].inputs)
  }

  /** What each row was computed from. */
  function OriginsOf(rows: seq<P.Row>): (g: Graph)
    ensures |g| == |rows| && forall i :: 0 <= i < |g| ==> g[i] == if rows[i].basis.Some? then [rows[i].basis.value] else []
  {
    seq(|rows|, i requires 0 <= i < |rows| => if rows[i].basis.Some? then [rows[i].basis.value] else [])
  }

  /** Each step of a chain goes down one layer, so no chain of a run's graph has more than two steps. */
  lemma {:induction false} ChainsAreShort(s: P.State, es: seq<P.Event>, t: P.State, p: seq<nat>, k: nat)
    requires P.Initial(s) && t == P.Exec(s, es) && Chain(GraphOf(t.rows), p) && k < |p|
    ensures Rank(t.rows[p[k]].layer) + k <= 2
  {
    if k > 0 {
      ChainsAreShort(s, es, t, p, k - 1);
      P.LayersAgree(s, es, t, p[k - 1]);
      assert p[k - 1 + 1] in GraphOf(t.rows)[p[k - 1]];
    }
  }

  /** For every graph that ingestion produces the cap cuts nothing off: the tree shows all that the lineage table links, and only that. */
  lemma LineageComplete(s: P.State, es: seq<P.Event>, t: P.State, id: nat, x: nat)
    requires P.Initial(s) && t == P.Exec(s, es) && id < |t.rows|
    ensures var g := GraphOf(t.rows);
      Lineage(g, id).Some? && (Shows(Lineage(g, id).value, x) <==> exists p :: ChainFrom(g, p, id, x))
  {
    var g := GraphOf(t.rows);
    BuildExact(g, id, DEPTH_CAP, x);
    if exists p :: ChainFrom(g, p, id, x) {
      var p :| ChainFrom(g, p, id, x);
      ChainsAreShort(s, es, t, p, |p| - 1);
    }
  }

  /** On a chain of origins from a linked row every row that was made from another is linked. */
  lemma {:induction false} LinkedAlong(s: P.State, es: seq<P.Event>, t: P.State, p: seq<nat>, k: nat)
    requires P.Initial(s) && t == P.Exec(s, es) && Chain(OriginsOf(t.rows), p) && k < |p|
    requires t.rows[p[0]].layer.Bronze? || t.rows[p[0]].inputs != []
    ensures t.rows[p[k]].layer.Bronze? || t.rows[p[k]].inputs != []
  {
    if k > 0 {
      LinkedAlong(s, es, t, p, k - 1);
      P.LayersAgree(s, es, t, p[k - 1]);
      assert p[k - 1 + 1] in OriginsOf(t.rows)[p[k - 1]];
    }
  }

  /**
   * The tree shows every row that a row was computed from if and only if the row is
   * Bronze or its own lineage statement went through.
   */
  lemma AncestorsShownExactly(s: P.State, es: seq<P.Event>, t: P.State, id: nat)
    requires P.Initial(s) && t == P.Exec(s, es) && id < |t.rows|
    ensures Lineage(GraphOf(t.rows), id).Some?
    ensures (forall p, x :: ChainFrom(OriginsOf(t.rows), p, id, x) ==> Shows(Lineage(GraphOf(t.rows), id).value, x)) <==>
            t.rows[id].layer.Bronze? || t.rows[id].inputs != []
  {
    var g, h := GraphOf(t.rows), OriginsOf(t.rows);
    P.LayersAgree(s, es, t, id);
    if t.rows[id].layer.Bronze? || t.rows[id].inputs != [] {
      forall p, x | ChainFrom(h, p, id, x)
        ensures Shows(Lineage(g, id).value, x)
      {
        forall i | 0 <= i < |p| - 1
          ensures p[i + 1] in g[p[i]]
        {
          assert p[i + 1] in h[p[i]];
          LinkedAlong(s, es, t, p, i);
          P.LayersAgree(s, es, t, p[i]);
        }
        assert ChainFrom(g, p, id, x);
        LineageComplete(s, es, t, id, x);
      }
    } else {
      var b := t.rows[id].basis.value;
      assert ChainFrom(h, [id, b], id, b);
      LineageComplete(s, es, t, id, b);
      forall q
        ensures !ChainFrom(g, q, id, b)
      {
        if ChainFrom(g, q, id, b) { assert false; }
      }
    }
  }

  /** One call on an empty log whose Silver write gets its row in, but not its lineage. */
  lemma UnlinkedSilver() returns (s: P.State, es: seq<P.Event>, t: P.State)
    ensures P.Initial(s) && t == P.Exec(s, es)
    ensures |t.rows| == 2 && t.rows[0].layer.Bronze? && t.rows[1].layer.Silver? && t.rows[1].basis == Some(0) && t.rows[1].inputs == []
  {
    s := P.State(map[1 := ""], map[1 := P.Job(1, P.Pending, 0, 0, false, None, None)], map[], [], map[], 0);
    var io := R.Io(true, true, true, Some(0), P.Written, P.RowWithoutLineage, P.NotWritten, true, true, true);
    es := R.RunEvents(1, io, None);
    R.RunOnceIsExec(s, 1, io, None);
    R.RunOnceIsPerformed(s, 1, io, None);
    t := R.Performed(s, 1, io, None);
    var s1 := R.Started(s, 1);
    var row := R.BronzeRow(s1, 1, 0, 0);
    var s2 := P.WithRow(s1, row, P.Written);
    assert s2.rows == [row];
    assert t.rows == R.Layers(s2, 1, 0, io).rows;
  }

  /** So there are runs after which the tree of a Silver row does not show the Bronze row it was computed from. */
  lemma MissingAncestor() returns (s: P.State, es: seq<P.Event>, t: P.State)
    ensures P.Initial(s) && t == P.Exec(s, es) && |t.rows| == 2
    ensures ChainFrom(OriginsOf(t.rows), [1, 0], 1, 0)
    ensures Lineage(GraphOf(t.rows), 1).Some? && !Shows(Lineage(GraphOf(t.rows), 1).value, 0)
  {
    s, es, t := UnlinkedSilver();
    LineageComplete(s, es, t, 1, 0);
    var g := GraphOf(t.rows);
    assert OriginsOf(t.rows)[1] == [0] && g[1] == [];
    forall p
      ensures !ChainFrom(g, p, 1, 0)
    {
      if ChainFrom(g, p, 1, 0) { assert false; }
    }
  }

  /** `n` rows, each made from the one before. */
  function Ladder(n: nat): (g: Graph)
    ensures |g| == n && forall i :: 0 <= i < n ==> g[i] == if i == 0 then [] else [i - 1]
  {
    seq(n, i => if i == 0 then [] else [i - 1])
  }

  function Countdown(n: nat): (p: seq<nat>)
    ensures |p| == n + 1 && forall i :: 0 <= i <= n ==> p[i] == n - i
  {
    seq(n + 1, i requires 0 <= i <= n => n - i)
  }

  lemma {:induction false} OneByOne(n: nat, p: seq<nat>, k: nat)
    requires Chain(Ladder(n), p) && k < |p|
    ensures p[k] + k == p[0]
  {
    if k > 0 {
      OneByOne(n, p, k - 1);
      assert p[k - 1 + 1] in Ladder(n)[p[k - 1]];
    }
  }

  /** Not so for every graph: on a ladder the first row is an ancestor of row `n`, and is shown only while `n` is within the cap. */
  lemma CapTruncates(n: nat)
    ensures var g := Ladder(n + 1);
      && Descending(g) && ChainFrom(g, Countdown(n), n, 0)
      && (Shows(Lineage(g, n).value, 0) <==> n <= 8)
  {
    var g := Ladder(n + 1);
    BuildExact(g, n, DEPTH_CAP, 0);
    assert ChainFrom(g, Countdown(n), n, 0);
    if Within(g, n, 0, DEPTH_CAP) {
      var p :| ChainFrom(g, p, n, 0) && |p| <= DEPTH_CAP + 1;
      OneByOne(n + 1, p, |p| - 1);
    }
  }
}
