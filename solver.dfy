/**
  The minimum-vertex-cover solver of solver.py: the reduction rules, the
  greedy approximation that seeds the bound, and the branch-and-reduce
  search. The solver only ever derives new graphs with `Remove`.
*/
module Solver {
  import opened Graphs

  /** No reduction rule applies to g under the bound best: no vertex of
      degree 1, none of degree 2 and none of degree above best. */
  ghost predicate Reduced(g: Graph, best: int) {
    forall k :: k in g.adj ==> |g.adj[k]| != 1 && |g.adj[k]| != 2 && |g.adj[k]| <= best
  }

  /** Every edge of root that no vertex of taken covers is still an edge of g. */
  ghost predicate Residual(root: Graph, g: Graph, taken: set<int>) {
    forall u, w :: IsEdge(root, u, w) ==> u in taken || w in taken || IsEdge(g, u, w)
  }

  /** h is g with some of its vertices deleted, and t is s with exactly those
      vertices added. */
  ghost predicate Shrunk(g: Graph, s: set<int>, h: Graph, t: set<int>) {
    && InducedBy(g, h, g.adj.Keys - h.adj.Keys)
    && t == s + (g.adj.Keys - h.adj.Keys)
  }

  lemma ShrunkNothing(g: Graph, s: set<int>)
    requires Valid(g)
    ensures Shrunk(g, s, g, s)
  {
    InducedNothing(g);
    assert g.adj.Keys - g.adj.Keys == {};
  }

  /** Deleting D and then X deletes (G - H) + X in all. */
  lemma DeletedUnion(G: set<int>, H: set<int>, K: set<int>, D: set<int>, X: set<int>)
    requires H == G - D && K == H - X && X <= H
    ensures (G - H) + X == G - K
  {
  }

  /** Deleting X from h and adding X to t keeps the relation. */
  lemma ShrunkCompose(g: Graph, s: set<int>, h: Graph, t: set<int>, h': Graph, X: set<int>)
    requires Shrunk(g, s, h, t) && InducedBy(h, h', X)
    ensures Shrunk(g, s, h', t + X)
  {
    InducedCompose(g, h, h', g.adj.Keys - h.adj.Keys, X);
    DeletedUnion(g.adj.Keys, h.adj.Keys, h'.adj.Keys, g.adj.Keys - h.adj.Keys, X);
  }

  /** Deleting a set that holds a key shortens the key order. */
  lemma InducedShorter(h: Graph, h': Graph, X: set<int>, n: int)
    requires IsDict(h) && InducedBy(h, h', X) && n in X
    ensures |h'.order| < |h.order|
  {
    assert n in h.order;
    StripShorter(h.order, X, n);
  }

  /** `g.remove(nodes)` followed by adding the batch to the set, as every
      rule and branch of the solver does it. */
  method Take(ghost g: Graph, ghost s: set<int>, h: Graph, t: set<int>, nodes: Nodes)
    returns (h': Graph, t': set<int>)
    requires Valid(h) && Shrunk(g, s, h, t)
    requires Listed(nodes) != [] && Distinct(Listed(nodes))
    requires forall n :: n in Listed(nodes) ==> n in h.adj
    ensures Valid(h') && Shrunk(g, s, h', t')
    ensures InducedBy(h, h', Elements(Listed(nodes)))
    ensures Removed(h, nodes).Ok? && h' == Removed(h, nodes).value
    ensures t' == t + Elements(Listed(nodes))
    ensures |h'.order| < |h.order|
  {
    var X := Elements(Listed(nodes));
    RemovedInduced(h, nodes);
    var r := Remove(h, nodes);
    h', t' := r.value, t + X;
    ShrunkCompose(g, s, h, t, h', X);
    InducedShorter(h, h', X, Listed(nodes)[0]);
  }

  /** Shrinking twice is shrinking once. */
  lemma ShrunkTrans(g: Graph, s: set<int>, h: Graph, t: set<int>, k: Graph, u: set<int>)
    requires Shrunk(g, s, h, t) && Shrunk(h, t, k, u)
    ensures Shrunk(g, s, k, u)
    ensures |k.order| <= |h.order| <= |g.order|
  {
    var X, Y := g.adj.Keys - h.adj.Keys, h.adj.Keys - k.adj.Keys;
    InducedCompose(g, h, k, X, Y);
    DeletedUnion(g.adj.Keys, h.adj.Keys, k.adj.Keys, X, Y);
  }

  /** A valid graph with an edge has a key, and a bound on all its degrees
      is positive. */
  lemma EdgeAtTop(g: Graph, d: int)
    requires Valid(g) && g.e > 0
    requires forall k :: k in g.adj ==> |g.adj[k]| <= d
    ensures g.order != [] && d > 0
  {
    SomeEdge(g);
    var u :| u in g.adj && |g.adj[u]| > 0;
    assert u in g.order;
  }

  /** The deleted vertices cover every edge of g that is gone from h. */
  lemma ShrunkResidual(g: Graph, s: set<int>, h: Graph, t: set<int>)
    requires Shrunk(g, s, h, t)
    ensures Residual(g, h, t)
  {
    forall u, w | IsEdge(g, u, w) ensures u in t || w in t || IsEdge(h, u, w) {
      InducedKeepsEdges(g, h, g.adj.Keys - h.adj.Keys, u, w);
    }
  }

  /** Deleting X from g and taking X keeps every uncovered edge of root
      present. */
  lemma ResidualStep(root: Graph, g: Graph, t: set<int>, h: Graph, X: set<int>)
    requires Residual(root, g, t) && InducedBy(g, h, X)
    ensures Residual(root, h, t + X)
  {
    forall u, w | IsEdge(root, u, w) ensures u in t + X || w in t + X || IsEdge(h, u, w) {
      if !(u in t || w in t) {
        InducedKeepsEdges(g, h, X, u, w);
      }
    }
  }

  /** The vertices a reduction took, together with any cover of the reduced
      graph, cover the graph it started from. */
  lemma ShrunkCover(g: Graph, s: set<int>, h: Graph, t: set<int>, c: set<int>)
    requires Shrunk(g, s, h, t) && IsCover(h, c)
    ensures IsCover(g, t + c)
  {
    ShrunkResidual(g, s, h, t);
  }

  lemma ResidualTrans(root: Graph, g: Graph, s: set<int>, h: Graph, t: set<int>)
    requires Residual(root, g, s) && Residual(g, h, t) && s <= t
    ensures Residual(root, h, t)
  {
  }

  /** Once no edge is left, the taken vertices cover root. */
  lemma ResidualCover(root: Graph, g: Graph, t: set<int>)
    requires Residual(root, g, t) && Valid(g) && g.e == 0
    ensures IsCover(root, t)
  {
    NoEdges(g);
    forall u, w | IsEdge(root, u, w) ensures u in t || w in t {
      assert !IsEdge(g, u, w);
    }
  }

  lemma EmptyOrMember(xs: set<int>)
    ensures xs == {} || exists y :: y in xs
  {
    if forall y :: y !in xs {
      assert xs == {};
    }
  }

  /** A nonempty finite set of ids has a smallest element. */
  lemma {:induction false} SmallestExists(xs: set<int>)
    requires xs != {}
    ensures exists x :: x in xs && forall y :: y in xs ==> x <= y
    decreases |xs|
  {
    EmptyOrMember(xs);
    var z :| z in xs;
    var rest := xs - {z};
    if rest == {} {
      forall y | y in xs ensures z <= y {
        assert y == z || y in rest;
      }
    } else {
      SmallestExists(rest);
      var m :| m in rest && forall y :: y in rest ==> m <= y;
      var x := if z < m then z else m;
      forall y | y in xs ensures x <= y {
        if y != z {
          assert y in rest;
        }
      }
      assert x in xs;
    }
  }

  /** The element `set.pop()` is taken to return: the smallest id of the set. */
  function Choose(xs: set<int>): (x: int)
    requires xs != {}
    ensures x in xs && forall y :: y in xs ==> x <= y
  {
    SmallestExists(xs);
    var x :| x in xs && forall y :: y in xs ==> x <= y; x
  }

  // ---------------------------------------------------------------------
  // The reduction rules as functions (solver.py:56-87)
  // ---------------------------------------------------------------------

  /** The three rules of `MVC.reduce`; the high-degree rule carries its bound. */
  datatype Rule = DegreeOne | DegreeTwo | HighDegree(best: int)

  /** Whether a vertex of degree d is one the rule acts on. */
  predicate Fits(rule: Rule, d: int) {
    match rule
    case DegreeOne => d == 1
    case DegreeTwo => d == 2
    case HighDegree(best) => d > best
  }

  /** The set the rule's loop pops from: `degree_n_vertices(1)`,
      `degree_n_vertices(2)` or `degree_at_least_n_vertices(best)`. */
  function Due(rule: Rule, g: Graph): set<int> {
    set k | k in g.adj && Fits(rule, |g.adj[k]|)
  }

  /** What the rule removes for the popped vertex v: its sole neighbour
      `g.neighbors(v)[0]` (solver.py:63), both its neighbours
      `g.neighbors(v)` (solver.py:73), or v itself (solver.py:82). */
  function Taken(rule: Rule, g: Graph, v: int): Nodes
    requires v in Due(rule, g)
  {
    match rule
    case DegreeOne => Single(g.adj[v][0])
    case DegreeTwo => Batch(g.adj[v])
    case HighDegree(_) => Single(v)
  }

  lemma TakenKeys(rule: Rule, g: Graph, v: int)
    requires Valid(g) && v in Due(rule, g)
    ensures Listed(Taken(rule, g, v)) != [] && Distinct(Listed(Taken(rule, g, v)))
    ensures forall n :: n in Listed(Taken(rule, g, v)) ==> n in g.adj
  {
  }

  /** One rule's loop run to its end: pop a vertex, remove what the rule
      takes for it, add that to s, until no vertex is due. */
  ghost function Exhaust(rule: Rule, g: Graph, s: set<int>): (r: (Graph, set<int>))
    requires Valid(g)
    ensures Valid(r.0)
    ensures r == (g, s) || |r.0.order| < |g.order|
    decreases |g.order|
  {
    var due := Due(rule, g);
    if due == {} then (g, s)
    else
      var v := Choose(due);
      var nodes := Taken(rule, g, v);
      TakenKeys(rule, g, v);
      RemovedInduced(g, nodes);
      var h := Removed(g, nodes).value;
      InducedShorter(g, h, Elements(Listed(nodes)), Listed(nodes)[0]);
      Exhaust(rule, h, s + Elements(Listed(nodes)))
  }

  /** The set a degree query returns is the rule's due set. */
  lemma DueFromDegrees(rule: Rule, g: Graph, xs: set<int>)
    requires forall k :: k in xs <==> k in g.adj && Degree(g, k).Ok? && Fits(rule, Degree(g, k).value)
    ensures xs == Due(rule, g)
  {
    forall k ensures k in xs <==> k in Due(rule, g) {
    }
  }

  /** When no vertex is due, the rule's loop stops at once. */
  lemma DueEmpty(rule: Rule, g: Graph, s: set<int>)
    requires Valid(g) && Due(rule, g) == {}
    ensures forall k :: k in g.adj ==> !Fits(rule, |g.adj[k]|)
    ensures Exhaust(rule, g, s) == (g, s)
  {
    forall k | k in g.adj ensures !Fits(rule, |g.adj[k]|) {
      assert k in Due(rule, g) <==> Fits(rule, |g.adj[k]|);
    }
  }

  /** One turn of a rule's loop, unfolded. */
  lemma ExhaustStep(rule: Rule, g: Graph, s: set<int>)
    requires Valid(g) && Due(rule, g) != {}
    ensures var nodes := Taken(rule, g, Choose(Due(rule, g)));
      && Removed(g, nodes).Ok? && Valid(Removed(g, nodes).value)
      && Exhaust(rule, g, s) == Exhaust(rule, Removed(g, nodes).value, s + Elements(Listed(nodes)))
  {
    var nodes := Taken(rule, g, Choose(Due(rule, g)));
    TakenKeys(rule, g, Choose(Due(rule, g)));
    RemovedInduced(g, nodes);
  }

  /** One pass of the outer loop of `MVC.reduce`: the three rules in turn. */
  ghost function Pass(g: Graph, s: set<int>, best: int): (r: (Graph, set<int>))
    requires Valid(g)
    ensures Valid(r.0)
    ensures r == (g, s) || |r.0.order| < |g.order|
  {
    var r1 := Exhaust(DegreeOne, g, s);
    var r2 := Exhaust(DegreeTwo, r1.0, r1.1);
    Exhaust(HighDegree(best), r2.0, r2.1)
  }

  /** What `MVC.reduce(g, s, best)` returns: passes until one changes nothing. */
  ghost function Reduction(g: Graph, s: set<int>, best: int): (r: (Graph, set<int>))
    requires Valid(g)
    ensures Valid(r.0) && |r.0.order| <= |g.order|
    decreases |g.order|
  {
    var p := Pass(g, s, best);
    if p == (g, s) then p else Reduction(p.0, p.1, best)
  }

  /** One pass of `Reduction`, unfolded. */
  lemma ReductionUnfold(g: Graph, s: set<int>, best: int)
    requires Valid(g)
    ensures Pass(g, s, best) == (g, s) ==> Reduction(g, s, best) == (g, s)
    ensures Pass(g, s, best) != (g, s) ==>
      Reduction(g, s, best) == Reduction(Pass(g, s, best).0, Pass(g, s, best).1, best)
  {
  }

  /** Every vertex of g that h no longer has was a neighbour, in g, of a
      vertex that h keeps with no neighbours left. */
  ghost predicate Isolates(g: Graph, h: Graph) {
    forall x :: x in g.adj && x !in h.adj ==>
      exists w :: w in h.adj && h.adj[w] == [] && w in g.adj && x in g.adj[w]
  }

  /** Every vertex of g that h no longer has had degree above best in g. */
  ghost predicate AllAbove(g: Graph, h: Graph, best: int) {
    forall x :: x in g.adj && x !in h.adj ==> |g.adj[x]| > best
  }

  lemma {:induction false} StripAll(s: seq<int>, X: set<int>)
    requires forall y :: y in s ==> y in X
    ensures Strip(s, X) == []
    decreases |s|
  {
    if s != [] {
      var y := s[0];
      assert y in s;
      assert y in X;
      StripAll(s[1..], X);
    }
  }

  /** Deleting all neighbours of a vertex v of h isolates v and keeps the
      vertices h already isolates. */
  lemma IsolatesStep(g: Graph, s: set<int>, h: Graph, t: set<int>, h': Graph, v: int, X: set<int>)
    requires Valid(h) && Shrunk(g, s, h, t) && Isolates(g, h)
    requires v in h.adj && X == Elements(h.adj[v]) && InducedBy(h, h', X)
    ensures Isolates(g, h')
  {
    assert v !in X;
    StripAll(h.adj[v], X);
    forall y | y in X ensures h.adj[y] != [] {
      assert v in h.adj[y];
    }
    forall x | x in g.adj && x !in h'.adj
      ensures exists w :: w in h'.adj && h'.adj[w] == [] && w in g.adj && x in g.adj[w]
    {
      if x in h.adj {
        assert x in h.adj[v];
        assert x in g.adj[v];
        assert h'.adj[v] == [];
      } else {
        var w :| w in h.adj && h.adj[w] == [] && w in g.adj && x in g.adj[w];
        assert w !in X;
        assert h'.adj[w] == Strip([], X) == [];
      }
    }
  }

  /** Deleting a vertex v of h whose degree is above best keeps AllAbove. */
  lemma AboveStep(g: Graph, s: set<int>, h: Graph, t: set<int>, h': Graph, v: int, best: int)
    requires Shrunk(g, s, h, t) && AllAbove(g, h, best)
    requires v in h.adj && |h.adj[v]| > best && InducedBy(h, h', Elements([v]))
    ensures AllAbove(g, h', best)
  {
    assert Elements([v]) == {v};
    assert |h.adj[v]| <= |g.adj[v]|;
  }

  /** What a turn of each rule keeps: the degree rules only take neighbours
      of a vertex they isolate, the high-degree rule only vertices of degree
      above its bound. */
  lemma TurnKeeps(rule: Rule, g: Graph, s: set<int>, h: Graph, t: set<int>, h': Graph, v: int)
    requires Valid(h) && Shrunk(g, s, h, t) && v in Due(rule, h)
    requires InducedBy(h, h', Elements(Listed(Taken(rule, h, v))))
    ensures !rule.HighDegree? && Isolates(g, h) ==> Isolates(g, h')
    ensures rule.HighDegree? && AllAbove(g, h, rule.best) ==> AllAbove(g, h', rule.best)
  {
    if !rule.HighDegree? && Isolates(g, h) {
      if rule.DegreeOne? {
        assert h.adj[v] == [h.adj[v][0]];
      }
      IsolatesStep(g, s, h, t, h', v, Elements(Listed(Taken(rule, h, v))));
    }
    if rule.HighDegree? && AllAbove(g, h, rule.best) {
      AboveStep(g, s, h, t, h', v, rule.best);
    }
  }

  /** One turn of a rule's loop (solver.py:62-65, 72-75, 81-84): pop a
      vertex of the due set, remove what the rule takes for it and add that
      to the set. */
  method Turn(rule: Rule, ghost g: Graph, ghost s: set<int>, h: Graph, t: set<int>, due: set<int>)
    returns (h': Graph, t': set<int>)
    requires Valid(h) && Shrunk(g, s, h, t) && due == Due(rule, h) && due != {}
    ensures Valid(h') && Shrunk(g, s, h', t') && |h'.order| < |h.order|
    ensures Removed(h, Taken(rule, h, Choose(due))).Ok?
    ensures h' == Removed(h, Taken(rule, h, Choose(due))).value
    ensures t' == t + Elements(Listed(Taken(rule, h, Choose(due))))
    ensures Exhaust(rule, h', t') == Exhaust(rule, h, t)
    ensures !rule.HighDegree? && Isolates(g, h) ==> Isolates(g, h')
    ensures rule.HighDegree? && AllAbove(g, h, rule.best) ==> AllAbove(g, h', rule.best)
  {
    var v := Choose(due);
    ExhaustStep(rule, h, t);
    var nodes := Taken(rule, h, v);
    TakenKeys(rule, h, v);
    h', t' := Take(g, s, h, t, nodes);
    TurnKeeps(rule, g, s, h, t, h', v);
  }

  /** The degree-one rule of `MVC.reduce` (solver.py:59-67): while some
      vertex has degree 1, delete its sole neighbour and take it. Every
      vertex it deletes was the neighbour of a vertex it leaves isolated. */
  method DegreeOneRule(g: Graph, s: set<int>) returns (g': Graph, s': set<int>, fired: bool)
    requires Valid(g)
    ensures Valid(g') && Shrunk(g, s, g', s')
    ensures (g', s') == Exhaust(DegreeOne, g, s)
    ensures Isolates(g, g')
    ensures forall k :: k in g'.adj ==> |g'.adj[k]| != 1
    ensures if fired then |g'.order| < |g.order| else g' == g && s' == s
    ensures (forall k :: k in g.adj ==> |g.adj[k]| != 1) ==> !fired
  {
    g', s', fired := g, s, false;
    ShrunkNothing(g, s);
    var ones := DegreeNVertices(g', 1);
    DueFromDegrees(DegreeOne, g', ones);
    while ones != {}
      invariant Valid(g') && Shrunk(g, s, g', s') && ones == Due(DegreeOne, g')
      invariant Exhaust(DegreeOne, g', s') == Exhaust(DegreeOne, g, s)
      invariant Isolates(g, g')
      invariant if fired then |g'.order| < |g.order| else g' == g && s' == s
      invariant (forall k :: k in g.adj ==> |g.adj[k]| != 1) ==> !fired
      decreases |g'.order|
    {
      EmptyOrMember(ones);
      g', s' := Turn(DegreeOne, g, s, g', s', ones);
      ones := DegreeNVertices(g', 1);
      DueFromDegrees(DegreeOne, g', ones);
      fired := true;
    }
    DueEmpty(DegreeOne, g', s');
  }

  /** The degree-two rule of `MVC.reduce` (solver.py:69-77): while some
      vertex has degree 2, delete both its neighbours and take them. Every
      vertex it deletes was a neighbour of a vertex it leaves isolated. */
  method DegreeTwoRule(g: Graph, s: set<int>) returns (g': Graph, s': set<int>, fired: bool)
    requires Valid(g)
    ensures Valid(g') && Shrunk(g, s, g', s')
    ensures (g', s') == Exhaust(DegreeTwo, g, s)
    ensures Isolates(g, g')
    ensures forall k :: k in g'.adj ==> |g'.adj[k]| != 2
    ensures if fired then |g'.order| < |g.order| else g' == g && s' == s
    ensures (forall k :: k in g.adj ==> |g.adj[k]| != 2) ==> !fired
  {
    g', s', fired := g, s, false;
    ShrunkNothing(g, s);
    var twos := DegreeNVertices(g', 2);
    DueFromDegrees(DegreeTwo, g', twos);
    while twos != {}
      invariant Valid(g') && Shrunk(g, s, g', s') && twos == Due(DegreeTwo, g')
      invariant Exhaust(DegreeTwo, g', s') == Exhaust(DegreeTwo, g, s)
      invariant Isolates(g, g')
      invariant if fired then |g'.order| < |g.order| else g' == g && s' == s
      invariant (forall k :: k in g.adj ==> |g.adj[k]| != 2) ==> !fired
      decreases |g'.order|
    {
      EmptyOrMember(twos);
      g', s' := Turn(DegreeTwo, g, s, g', s', twos);
      twos := DegreeNVertices(g', 2);
      DueFromDegrees(DegreeTwo, g', twos);
      fired := true;
    }
    DueEmpty(DegreeTwo, g', s');
  }

  /** The high-degree rule of `MVC.reduce` (solver.py:79-86): while some
      vertex has degree above best, delete it and take it. Every vertex it
      deletes had degree above best. */
  method HighDegreeRule(g: Graph, s: set<int>, best: int) returns (g': Graph, s': set<int>, fired: bool)
    requires Valid(g)
    ensures Valid(g') && Shrunk(g, s, g', s')
    ensures (g', s') == Exhaust(HighDegree(best), g, s)
    ensures AllAbove(g, g', best)
    ensures forall k :: k in g'.adj ==> |g'.adj[k]| <= best
    ensures if fired then |g'.order| < |g.order| else g' == g && s' == s
    ensures (forall k :: k in g.adj ==> |g.adj[k]| <= best) ==> !fired
  {
    g', s', fired := g, s, false;
    ShrunkNothing(g, s);
    var high := DegreeAtLeastNVertices(g', best);
    DueFromDegrees(HighDegree(best), g', high);
    while high != {}
      invariant Valid(g') && Shrunk(g, s, g', s') && high == Due(HighDegree(best), g')
      invariant Exhaust(HighDegree(best), g', s') == Exhaust(HighDegree(best), g, s)
      invariant AllAbove(g, g', best)
      invariant if fired then |g'.order| < |g.order| else g' == g && s' == s
      invariant (forall k :: k in g.adj ==> |g.adj[k]| <= best) ==> !fired
      decreases |g'.order|
    {
      EmptyOrMember(high);
      g', s' := Turn(HighDegree(best), g, s, g', s', high);
      high := DegreeAtLeastNVertices(g', best);
      DueFromDegrees(HighDegree(best), g', high);
      fired := true;
    }
    DueEmpty(HighDegree(best), g', s');
  }

  /** `MVC.reduce(g, s, best)` (solver.py:46-87): applies the three rules
      until a whole pass changes nothing. The vertices it deletes from the
      graph are exactly those it adds to the set; the result admits no rule;
      and on a graph that admits none nothing changes, so running it again
      on its own result is a no-op. */
  method Reduce(g: Graph, s: set<int>, best: int) returns (g': Graph, s': set<int>)
    requires Valid(g)
    ensures Valid(g') && Shrunk(g, s, g', s')
    ensures (g', s') == Reduction(g, s, best)
    ensures Reduced(g', best)
    ensures Reduced(g, best) ==> g' == g && s' == s
  {
    // solver.py:51-54: the caller's set is copied, never changed
    g', s' := g, s;
    ShrunkNothing(g, s);
    var changed := true;
    while changed
      invariant Valid(g') && Shrunk(g, s, g', s')
      invariant !changed ==> Reduced(g', best)
      invariant changed ==> Reduction(g', s', best) == Reduction(g, s, best)
      invariant !changed ==> (g', s') == Reduction(g, s, best)
      invariant Reduced(g, best) ==> g' == g && s' == s
      decreases 2 * |g'.order| + (if changed then 1 else 0)
    {
      var g1, s1, one := DegreeOneRule(g', s');
      var g2, s2, two := DegreeTwoRule(g1, s1);
      var g3, s3, high := HighDegreeRule(g2, s2, best);
      ShrunkTrans(g', s', g1, s1, g2, s2);
      ShrunkTrans(g', s', g2, s2, g3, s3);
      ShrunkTrans(g, s, g', s', g3, s3);
      ReductionUnfold(g', s', best);
      g', s', changed := g3, s3, one || two || high;
    }
  }

  // ---------------------------------------------------------------------
  // The greedy approximation (solver.py:90-106)
  // ---------------------------------------------------------------------

  /** A valid graph with an edge has a first vertex of highest degree, and
      that vertex has a neighbour. */
  lemma TopHasEdge(h: Graph)
    requires Valid(h) && h.e > 0
    ensures h.order != [] && |h.adj[Top(h)]| > 0
  {
    SomeEdge(h);
    var u :| u in h.adj && |h.adj[u]| > 0;
    assert u in h.order;
  }

  /** Removing the first vertex of highest degree from a valid graph with
      an edge succeeds and loses at least one edge. */
  lemma TopRemoved(h: Graph)
    requires Valid(h) && h.e > 0
    ensures h.order != [] && Removed(h, Single(Top(h))).Ok?
    ensures var h' := Removed(h, Single(Top(h))).value;
      Valid(h') && InducedBy(h, h', {Top(h)}) && 0 <= h'.e < h.e
  {
    TopHasEdge(h);
    var x := Top(h);
    RemovedInduced(h, Single(x));
    assert Elements([x]) == {x};
    InducedOneEdges(h, Removed(h, Single(x)).value, x);
  }

  /** The solution the greedy loop of `MVC.approx` ends with, started on h
      with the solution sol. */
  ghost function GreedyCover(h: Graph, sol: set<int>): set<int>
    requires Valid(h)
    decreases h.e
  {
    if h.e <= 0 then sol
    else
      TopRemoved(h);
      GreedyCover(Removed(h, Single(Top(h))).value, sol + {Top(h)})
  }

  /** One turn of the greedy loop, unfolded. */
  lemma GreedyUnfold(h: Graph, sol: set<int>)
    requires Valid(h) && h.e > 0
    ensures h.order != [] && Removed(h, Single(Top(h))).Ok?
    ensures Valid(Removed(h, Single(Top(h))).value)
    ensures GreedyCover(h, sol) == GreedyCover(Removed(h, Single(Top(h))).value, sol + {Top(h)})
  {
    TopRemoved(h);
  }

  lemma ElementsSingle(x: int)
    ensures Elements([x]) == {x}
  {
    assert x in Elements([x]);
  }

  /** The value `MVC.approx(g)` returns. */
  ghost function ApproxValue(g: Graph): nat
    requires Valid(g)
  {
    var r := Reduction(g, {}, g.e);
    |GreedyCover(r.0, r.1)|
  }

  /** One step of the greedy loop of `MVC.approx` (solver.py:100-104):
      delete the first vertex of highest degree and add it to the solution;
      at least one edge goes. */
  method Greedy(ghost g: Graph, h: Graph, sol: set<int>) returns (h': Graph, sol': set<int>)
    requires Valid(h) && Shrunk(g, {}, h, sol) && h.e > 0
    ensures Valid(h') && Shrunk(g, {}, h', sol')
    ensures h.order != [] && InducedBy(h, h', {Top(h)}) && sol' == sol + {Top(h)}
    ensures GreedyCover(h', sol') == GreedyCover(h, sol)
    ensures 0 <= h'.e < h.e
  {
    var top, degree := HighestDegree(h);
    EdgeAtTop(h, degree);
    var vmax := top.value;
    TopRemoved(h);
    GreedyUnfold(h, sol);
    ElementsSingle(vmax);
    h', sol' := Take(g, {}, h, sol, Single(vmax));
  }

  /** `MVC.approx(g)` (solver.py:90-106): reduces once with the edge count
      as bound, then takes a vertex of highest degree until no edge is left.
      The result is the size of a vertex cover of g made of vertices of g;
      an edgeless graph gives 0. */
  method Approx(g: Graph) returns (size: nat, ghost solution: set<int>)
    requires Valid(g)
    ensures size == ApproxValue(g)
    ensures IsCover(g, solution) && size == |solution|
    ensures solution <= g.adj.Keys
    ensures g.e == 0 ==> size == 0
  {
    if g.e == 0 {
      NoEdges(g);
    }
    var sol: set<int> := {};
    var h, reduced := Reduce(g, sol, g.e);
    sol := sol + reduced;
    assert sol == reduced;
    ghost var start := (h, sol);
    while h.e > 0
      invariant Valid(h) && Shrunk(g, {}, h, sol)
      invariant GreedyCover(h, sol) == GreedyCover(start.0, start.1)
      invariant g.e == 0 ==> h == g && sol == {}
      decreases h.e
    {
      h, sol := Greedy(g, h, sol);
    }
    ShrunkResidual(g, {}, h, sol);
    ResidualCover(g, h, sol);
    size, solution := |sol|, sol;
  }

  /** A set that extends t by vertices of h extends s by vertices of g. */
  lemma CoverExtends(g: Graph, s: set<int>, h: Graph, t: set<int>, c: set<int>)
    requires Shrunk(g, s, h, t) && t <= c && c - t <= h.adj.Keys
    ensures s <= c && c - s <= g.adj.Keys
  {
    assert h.adj.Keys == g.adj.Keys - (g.adj.Keys - h.adj.Keys);
    forall x | x in c - s ensures x in g.adj.Keys {
      if x !in t {
        assert x in h.adj.Keys;
      }
    }
  }

  /** Deleting the neighbours of the first vertex of highest degree of a
      valid graph with an edge succeeds and shortens the key order. */
  lemma NeighboursRemoved(h: Graph)
    requires Valid(h) && h.e > 0
    ensures h.order != [] && Removed(h, Batch(h.adj[Top(h)])).Ok?
    ensures var h' := Removed(h, Batch(h.adj[Top(h)])).value;
      Valid(h') && InducedBy(h, h', Elements(h.adj[Top(h)])) && |h'.order| < |h.order|
  {
    TopHasEdge(h);
    var nbs := h.adj[Top(h)];
    RemovedInduced(h, Batch(nbs));
    InducedShorter(h, Removed(h, Batch(nbs)).value, Elements(nbs), nbs[0]);
  }

  /** The value of `best` after `rec(g, s)` (solver.py:22-40) started with
      the bound best: reduce, then prune, accept or branch. */
  ghost function SearchValue(g: Graph, s: set<int>, best: int): int
    requires Valid(g)
    decreases |g.order|, 1
  {
    var r := Reduction(g, s, best);
    var h, t := r.0, r.1;
    if |t| > best || h.e > (best - |t| - 1) * (best - |t| - 1) then best
    else if h.e == 0 then (if |t| < best then |t| else best)
    else BranchValue(h, t, best)
  }

  /** The value of `best` after the branching step of `rec` on the reduced
      graph h and its set t: first take `Top(h)`, then, with the bound that
      branch left, take its neighbours. */
  ghost function BranchValue(h: Graph, t: set<int>, best: int): int
    requires Valid(h) && h.e > 0
    decreases |h.order|, 0
  {
    TopRemoved(h);
    var v := Top(h);
    InducedShorter(h, Removed(h, Single(v)).value, {v}, v);
    var best1 := SearchValue(Removed(h, Single(v)).value, t + {v}, best);
    NeighboursRemoved(h);
    SearchValue(Removed(h, Batch(h.adj[v])).value, t + Elements(h.adj[v]), best1)
  }

  /** One call of `rec`, unfolded: the reduction, then the three cases. */
  lemma SearchUnfold(g: Graph, s: set<int>, best: int)
    requires Valid(g)
    ensures var h, t := Reduction(g, s, best).0, Reduction(g, s, best).1;
      SearchValue(g, s, best) ==
        if |t| > best || h.e > (best - |t| - 1) * (best - |t| - 1) then best
        else if h.e == 0 then (if |t| < best then |t| else best)
        else BranchValue(h, t, best)
  {
  }

  /** One branching step, unfolded: the two recursive calls in turn. */
  lemma BranchUnfold(h: Graph, t: set<int>, best: int)
    requires Valid(h) && h.e > 0
    ensures h.order != [] && Removed(h, Single(Top(h))).Ok? && Removed(h, Batch(h.adj[Top(h)])).Ok?
    ensures Valid(Removed(h, Single(Top(h))).value) && Valid(Removed(h, Batch(h.adj[Top(h)])).value)
    ensures BranchValue(h, t, best) ==
      SearchValue(Removed(h, Batch(h.adj[Top(h)])).value, t + Elements(h.adj[Top(h)]),
                  SearchValue(Removed(h, Single(Top(h))).value, t + {Top(h)}, best))
  {
    TopRemoved(h);
    NeighboursRemoved(h);
  }

  /** The inner `rec(g, s)` of `MVC.bnr` (solver.py:22-40), with the shared
      `best` passed in and handed back. The bound only goes down; it goes
      down only to the size of an accepted set, which extends s by vertices
      of g and covers the root graph; otherwise the incumbent cover stays. */
  method Search(ghost root: Graph, g: Graph, s: set<int>, best: int, ghost incumbent: set<int>)
    returns (best': int, ghost incumbent': set<int>)
    requires Valid(g) && Residual(root, g, s)
    requires IsCover(root, incumbent) && |incumbent| == best
    ensures IsCover(root, incumbent') && |incumbent'| == best'
    ensures best' <= best
    ensures best' == best ==> incumbent' == incumbent
    ensures best' < best ==> s <= incumbent' && incumbent' - s <= g.adj.Keys
    ensures best' == SearchValue(g, s, best)
    decreases |g.order|, 1
  {
    var h, t := Reduce(g, s, best);
    SearchUnfold(g, s, best);
    ShrunkResidual(g, s, h, t);
    ResidualTrans(root, g, s, h, t);
    if |t| > best || h.e > (best - |t| - 1) * (best - |t| - 1) {
      // solver.py:27-28: this branch cannot beat best
      best', incumbent' := best, incumbent;
    } else if h.e == 0 {
      // solver.py:30-31: t is a cover; best = min(best, len(s))
      ResidualCover(root, h, t);
      if |t| < best {
        best', incumbent' := |t|, t;
      } else {
        best', incumbent' := best, incumbent;
      }
    } else {
      best', incumbent' := Branch(root, g, s, h, t, best, incumbent);
    }
  }

  /** The branching step of `rec` (solver.py:33-40) on the reduced graph h
      and its set t: recurse with the vertex of highest degree taken, then
      with all its neighbours taken. */
  method Branch(ghost root: Graph, ghost g: Graph, ghost s: set<int>, h: Graph, t: set<int>,
                best: int, ghost incumbent: set<int>)
    returns (best': int, ghost incumbent': set<int>)
    requires Valid(h) && Shrunk(g, s, h, t) && Residual(root, h, t) && h.e > 0
    requires IsCover(root, incumbent) && |incumbent| == best
    ensures IsCover(root, incumbent') && |incumbent'| == best'
    ensures best' <= best
    ensures best' == best ==> incumbent' == incumbent
    ensures best' < best ==> s <= incumbent' && incumbent' - s <= g.adj.Keys
    ensures best' == BranchValue(h, t, best)
    decreases |h.order|, 0
  {
    // heuristic.py:12-13: the first vertex of highest degree
    var top, degree := HighestDegree(h);
    EdgeAtTop(h, degree);
    var vmax := top.value;
    BranchUnfold(h, t, best);
    ElementsSingle(vmax);
    // solver.py:37 passes the result of s.add(v_max), which is None; the
    // intended set t + {vmax} is passed instead.
    var left, withTop := Take(g, s, h, t, Single(vmax));
    ResidualStep(root, h, t, left, Elements([vmax]));
    best', incumbent' := Search(root, left, withTop, best, incumbent);
    if best' < best {
      CoverExtends(g, s, left, withTop, incumbent');
    }
    // solver.py:39-40 calls s.add on a list, which raises TypeError; the
    // intended set t + set(nbs) is passed instead.
    var nbs := Neighbors(h, vmax).value;
    var right, withNeighbours := Take(g, s, h, t, Batch(nbs));
    ResidualStep(root, h, t, right, Elements(nbs));
    ghost var best1 := best';
    best', incumbent' := Search(root, right, withNeighbours, best', incumbent');
    if best' < best1 {
      CoverExtends(g, s, right, withNeighbours, incumbent');
    }
  }

  /** `MVC.bnr(graph)` (solver.py:15-43): the size of a vertex cover of graph
      no larger than the approximation `seed` that seeds the bound; 0 on an
      edgeless graph. */
  method Bnr(graph: Graph) returns (best: int, ghost seed: int, ghost cover: set<int>)
    requires Valid(graph)
    ensures seed == ApproxValue(graph)
    ensures IsCover(graph, cover) && |cover| == best
    ensures best == SearchValue(graph, {}, seed)
    ensures best <= seed
    ensures graph.e == 0 ==> best == 0
  {
    var a, approxCover := Approx(graph);
    seed := a;
    best, cover := Search(graph, graph, {}, a, approxCover);
  }
}
