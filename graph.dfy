/**
  The adjacency-list graph of graph.py: a dictionary from vertex id to the
  list of its neighbour ids, an edge counter `e` and a vertex counter `v`.

  A Python dictionary remembers the order in which its keys were inserted;
  `highest_degree` depends on that order, so the model keeps it as `order`
  next to the map `adj`. A graph is never changed after it is built: `remove`
  returns a fresh graph, so a graph is a datatype value here.
*/
module Graphs {

  /** The exceptions the Python code raises on bad input. */
  datatype Error =
    | KeyError(key: int)     // a dictionary lookup of an id that is not a key
    | ValueError(item: int)  // list.remove of a value the list does not hold

  datatype Result<T> = Ok(value: T) | Err(error: Error)

  datatype Option<T> = None | Some(value: T)

  /** The constructor's branch without a file (graph.py:62-65) stores the
      three arguments as they are; `order` is the key order of `adj`. */
  datatype Graph = Graph(order: seq<int>, adj: map<int, seq<int>>, e: int, v: int)

  /** The argument of `remove`: one vertex id or a list of ids. */
  datatype Nodes = Single(n: int) | Batch(ns: seq<int>)

  // ---------------------------------------------------------------------
  // Sequences of vertex ids
  // ---------------------------------------------------------------------

  predicate Distinct(s: seq<int>) {
    forall i, j :: 0 <= i < j < |s| ==> s[i] != s[j]
  }

  function Elements(s: seq<int>): set<int> {
    set x | x in s
  }

  lemma ElementsCons(s: seq<int>)
    requires s != []
    ensures Elements(s) == {s[0]} + Elements(s[1..])
  {
    assert s == [s[0]] + s[1..];
  }

  /** s without the ids in X, the others kept in their order. */
  function Strip(s: seq<int>, X: set<int>): (r: seq<int>)
    ensures forall x :: x in r <==> x in s && x !in X
    ensures |r| <= |s|
  {
    if s == [] then [] else (if s[0] in X then [] else [s[0]]) + Strip(s[1..], X)
  }

  /** Python's list.remove(x): drops the first occurrence of x. */
  function RemoveFirst(s: seq<int>, x: int): (r: seq<int>)
    requires x in s
    ensures multiset(r) == multiset(s) - multiset{x}
    ensures |r| == |s| - 1
  {
    assert s == [s[0]] + s[1..];
    if s[0] == x then s[1..] else [s[0]] + RemoveFirst(s[1..], x)
  }

  lemma {:induction false} StripNothing(s: seq<int>, X: set<int>)
    requires forall x :: x in s ==> x !in X
    ensures Strip(s, X) == s
  {
    if s != [] {
      var x := s[0];
      assert x in s;
      assert x !in X;
      StripNothing(s[1..], X);
      assert s == [s[0]] + s[1..];
    }
  }

  lemma {:induction false} StripTwice(s: seq<int>, X: set<int>, Y: set<int>)
    ensures Strip(Strip(s, X), Y) == Strip(s, X + Y)
  {
    if s != [] {
      StripTwice(s[1..], X, Y);
      var t := if s[0] in X then [] else [s[0]];
      StripConcat(t, Strip(s[1..], X), Y);
    }
  }

  lemma {:induction false} StripConcat(s: seq<int>, t: seq<int>, X: set<int>)
    ensures Strip(s + t, X) == Strip(s, X) + Strip(t, X)
  {
    if s == [] {
      assert s + t == t;
    } else {
      assert (s + t)[1..] == s[1..] + t;
      StripConcat(s[1..], t, X);
    }
  }

  lemma {:induction false} DistinctTail(s: seq<int>)
    requires Distinct(s) && s != []
    ensures Distinct(s[1..]) && s[0] !in s[1..]
  {
    forall j | 0 <= j < |s[1..]| ensures s[1..][j] != s[0] {
      assert s[1..][j] == s[j + 1];
    }
  }

  lemma {:induction false} StripDistinct(s: seq<int>, X: set<int>)
    requires Distinct(s)
    ensures Distinct(Strip(s, X))
  {
    if s != [] {
      DistinctTail(s);
      StripDistinct(s[1..], X);
      var r := Strip(s[1..], X);
      if s[0] !in X {
        assert Strip(s, X) == [s[0]] + r;
        forall i, j | 0 <= i < j < |[s[0]] + r| ensures ([s[0]] + r)[i] != ([s[0]] + r)[j] {
          if i == 0 {
            assert ([s[0]] + r)[j] == r[j - 1];
            assert r[j - 1] in r;
          } else {
            assert ([s[0]] + r)[i] == r[i - 1];
            assert ([s[0]] + r)[j] == r[j - 1];
          }
        }
      } else {
        assert Strip(s, X) == r;
      }
    }
  }

  /** Taking away one id the sequence holds makes it one shorter. */
  lemma {:induction false} StripOne(s: seq<int>, x: int)
    requires Distinct(s) && x in s
    ensures |Strip(s, {x})| == |s| - 1
  {
    DistinctTail(s);
    if s[0] == x {
      StripNothing(s[1..], {x});
    } else {
      StripOne(s[1..], x);
    }
  }

  lemma {:induction false} StripShorter(s: seq<int>, X: set<int>, x: int)
    requires x in s && x in X
    ensures |Strip(s, X)| < |s|
  {
    if s[0] != x {
      StripShorter(s[1..], X, x);
    }
  }

  /** Taking away a batch of distinct ids the sequence holds shortens it by the batch size. */
  lemma {:induction false} StripLength(s: seq<int>, ns: seq<int>)
    requires Distinct(s) && Distinct(ns)
    requires forall n :: n in ns ==> n in s
    ensures |Strip(s, Elements(ns))| == |s| - |ns|
    decreases |ns|
  {
    if ns == [] {
      StripNothing(s, Elements(ns));
    } else {
      var n := ns[0];
      DistinctTail(ns);
      StripOne(s, n);
      StripDistinct(s, {n});
      StripLength(Strip(s, {n}), ns[1..]);
      StripTwice(s, {n}, Elements(ns[1..]));
      assert {n} + Elements(ns[1..]) == Elements(ns) by {
        assert ns == [n] + ns[1..];
      }
    }
  }

  /** On a list without repetitions list.remove(x) is the same as stripping x. */
  lemma {:induction false} RemoveFirstDistinct(s: seq<int>, x: int)
    requires Distinct(s) && x in s
    ensures RemoveFirst(s, x) == Strip(s, {x})
  {
    DistinctTail(s);
    if s[0] == x {
      StripNothing(s[1..], {x});
    } else {
      RemoveFirstDistinct(s[1..], x);
    }
  }

  // ---------------------------------------------------------------------
  // Degree sums
  // ---------------------------------------------------------------------

  /** The length of k's list, 0 for an id that is not a key. */
  function Deg(adj: map<int, seq<int>>, k: int): nat {
    if k in adj then |adj[k]| else 0
  }

  /** The sum of the list lengths of the ids in keys. */
  function DegreeSum(adj: map<int, seq<int>>, keys: seq<int>): nat {
    if keys == [] then 0 else Deg(adj, keys[0]) + DegreeSum(adj, keys[1..])
  }

  lemma {:induction false} DegreeSumMono(a: map<int, seq<int>>, b: map<int, seq<int>>, keys: seq<int>)
    requires forall k :: k in keys ==> Deg(a, k) <= Deg(b, k)
    ensures DegreeSum(a, keys) <= DegreeSum(b, keys)
  {
    if keys != [] {
      DegreeSumMono(a, b, keys[1..]);
    }
  }

  lemma DegreeSumAgree(a: map<int, seq<int>>, b: map<int, seq<int>>, keys: seq<int>)
    requires forall k :: k in keys ==> Deg(a, k) == Deg(b, k)
    ensures DegreeSum(a, keys) == DegreeSum(b, keys)
  {
    DegreeSumMono(a, b, keys);
    DegreeSumMono(b, a, keys);
  }

  /** Dropping one listed key from the sum subtracts its degree. */
  lemma {:induction false} DegreeSumDrop(adj: map<int, seq<int>>, keys: seq<int>, k: int)
    requires Distinct(keys) && k in keys
    ensures DegreeSum(adj, keys) == Deg(adj, k) + DegreeSum(adj, Strip(keys, {k}))
  {
    DistinctTail(keys);
    var t := Strip(keys[1..], {k});
    if keys[0] == k {
      StripNothing(keys[1..], {k});
      assert Strip(keys, {k}) == t;
    } else {
      DegreeSumDrop(adj, keys[1..], k);
      assert Strip(keys, {k}) == [keys[0]] + t;
      assert ([keys[0]] + t)[1..] == t;
    }
  }

  lemma {:induction false} DegreeSumStrip(adj: map<int, seq<int>>, keys: seq<int>, X: set<int>)
    ensures DegreeSum(adj, Strip(keys, X)) <= DegreeSum(adj, keys)
  {
    if keys != [] {
      DegreeSumStrip(adj, keys[1..], X);
      var t := Strip(keys[1..], X);
      if keys[0] in X {
        assert Strip(keys, X) == t;
      } else {
        assert Strip(keys, X) == [keys[0]] + t;
        assert ([keys[0]] + t)[1..] == t;
      }
    }
  }

  /** Lowering the degree of each of the distinct keys ys by one lowers the sum by |ys|. */
  lemma {:induction false} DegreeSumDecrement(a: map<int, seq<int>>, b: map<int, seq<int>>, keys: seq<int>, ys: seq<int>)
    requires Distinct(keys) && Distinct(ys)
    requires forall y :: y in ys ==> y in keys
    requires forall k :: k in keys ==> Deg(b, k) + (if k in ys then 1 else 0) == Deg(a, k)
    ensures DegreeSum(b, keys) + |ys| == DegreeSum(a, keys)
    decreases |ys|
  {
    if ys == [] {
      DegreeSumAgree(a, b, keys);
    } else {
      var y := ys[0];
      DistinctTail(ys);
      var keys' := Strip(keys, {y});
      StripDistinct(keys, {y});
      DegreeSumDrop(a, keys, y);
      DegreeSumDrop(b, keys, y);
      assert forall k :: k in ys <==> k == y || k in ys[1..] by {
        assert ys == [y] + ys[1..];
      }
      DegreeSumDecrement(a, b, keys', ys[1..]);
    }
  }

  /** A sum over distinct keys is at least the number of keys ys of positive degree. */
  lemma {:induction false} DegreeSumCount(adj: map<int, seq<int>>, keys: seq<int>, ys: seq<int>)
    requires Distinct(keys) && Distinct(ys)
    requires forall y :: y in ys ==> y in keys && Deg(adj, y) >= 1
    ensures DegreeSum(adj, keys) >= |ys|
    decreases |ys|
  {
    if ys != [] {
      var y := ys[0];
      DistinctTail(ys);
      var keys' := Strip(keys, {y});
      StripDistinct(keys, {y});
      DegreeSumDrop(adj, keys, y);
      assert forall k :: k in ys <==> k == y || k in ys[1..] by {
        assert ys == [y] + ys[1..];
      }
      DegreeSumCount(adj, keys', ys[1..]);
    }
  }

  /** A positive sum has a key of positive degree. */
  lemma {:induction false} DegreeSumWitness(adj: map<int, seq<int>>, keys: seq<int>)
    requires DegreeSum(adj, keys) > 0
    ensures exists k :: k in keys && Deg(adj, k) > 0
  {
    if Deg(adj, keys[0]) == 0 {
      DegreeSumWitness(adj, keys[1..]);
      var k :| k in keys[1..] && Deg(adj, k) > 0;
      assert k in keys;
    } else {
      assert keys[0] in keys;
    }
  }

  /** A zero sum: every key has degree 0. */
  lemma {:induction false} DegreeSumZero(adj: map<int, seq<int>>, keys: seq<int>)
    requires DegreeSum(adj, keys) == 0
    ensures forall k :: k in keys ==> Deg(adj, k) == 0
  {
    if keys != [] {
      DegreeSumZero(adj, keys[1..]);
      assert keys == [keys[0]] + keys[1..];
    }
  }

  // ---------------------------------------------------------------------
  // Well-formed graphs
  // ---------------------------------------------------------------------

  /** What a Python dictionary guarantees: each key once in its key order,
      and the key order lists exactly the keys. */
  ghost predicate IsDict(g: Graph) {
    Distinct(g.order) && forall k :: k in g.adj <==> k in g.order
  }

  /** No self-loops, no parallel edges, no reference to an id that is not a key. */
  ghost predicate Simple(g: Graph) {
    forall u :: u in g.adj ==>
      Distinct(g.adj[u]) && u !in g.adj[u] && forall w :: w in g.adj[u] ==> w in g.adj
  }

  /** Every edge is listed at both of its endpoints. */
  ghost predicate Symmetric(g: Graph) {
    forall u, w :: u in g.adj && w in g.adj[u] ==> w in g.adj && u in g.adj[w]
  }

  /** A graph the solver can run on: a simple symmetric adjacency whose
      edge counter is half the sum of the degrees. */
  ghost predicate Valid(g: Graph) {
    IsDict(g) && Simple(g) && Symmetric(g) && 2 * g.e == DegreeSum(g.adj, g.order)
  }

  /** A valid graph whose vertex counter equals its number of keys. */
  ghost predicate Counted(g: Graph) {
    Valid(g) && g.v == |g.order|
  }

  ghost predicate IsEdge(g: Graph, u: int, w: int) {
    u in g.adj && w in g.adj[u]
  }

  /** Every edge of g has an endpoint in c. */
  ghost predicate IsCover(g: Graph, c: set<int>) {
    forall u, w :: IsEdge(g, u, w) ==> u in c || w in c
  }

  /** h is g with the vertices X deleted: the other keys keep their order,
      each surviving list is the old list with the ids in X taken out, and
      h's edge counter is half of h's degree sum. */
  ghost predicate InducedBy(g: Graph, h: Graph, X: set<int>) {
    && X <= g.adj.Keys
    && h.order == Strip(g.order, X)
    && h.adj.Keys == g.adj.Keys - X
    && (forall k :: k in h.adj ==> h.adj[k] == Strip(g.adj[k], X))
    && 2 * h.e == DegreeSum(h.adj, h.order)
  }

  /** Deleting nothing: a valid graph is itself with the empty set deleted. */
  lemma InducedNothing(g: Graph)
    requires Valid(g)
    ensures InducedBy(g, g, {})
  {
    StripNothing(g.order, {});
    forall k | k in g.adj ensures g.adj[k] == Strip(g.adj[k], {}) {
      StripNothing(g.adj[k], {});
    }
  }

  /** Deleting vertices from a valid graph leaves a valid graph. */
  lemma InducedValid(g: Graph, h: Graph, X: set<int>)
    requires Valid(g) && InducedBy(g, h, X)
    ensures Valid(h)
  {
    StripDistinct(g.order, X);
    forall u | u in h.adj ensures Distinct(h.adj[u]) {
      StripDistinct(g.adj[u], X);
    }
  }

  /** With a distinct batch of keys of g, v' = v - |batch| keeps v equal to the number of keys. */
  lemma InducedCounted(g: Graph, h: Graph, ns: seq<int>)
    requires Counted(g) && InducedBy(g, h, Elements(ns))
    requires Distinct(ns) && h.v == g.v - |ns|
    ensures Counted(h)
  {
    InducedValid(g, h, Elements(ns));
    StripLength(g.order, ns);
  }

  /** Deleting X and then Y is deleting X + Y. */
  lemma InducedCompose(g: Graph, h: Graph, k: Graph, X: set<int>, Y: set<int>)
    requires InducedBy(g, h, X) && InducedBy(h, k, Y)
    ensures InducedBy(g, k, X + Y) && X !! Y
  {
    StripTwice(g.order, X, Y);
    forall u | u in k.adj ensures k.adj[u] == Strip(g.adj[u], X + Y) {
      StripTwice(g.adj[u], X, Y);
    }
  }

  /** Every edge of g that does not touch X is still an edge after deleting X. */
  lemma InducedKeepsEdges(g: Graph, h: Graph, X: set<int>, u: int, w: int)
    requires InducedBy(g, h, X) && IsEdge(g, u, w)
    ensures u in X || w in X || IsEdge(h, u, w)
  {
  }

  /** Deleting vertices never adds edges. */
  lemma InducedFewerEdges(g: Graph, h: Graph, X: set<int>)
    requires Valid(g) && InducedBy(g, h, X)
    ensures h.e <= g.e
  {
    forall k | k in h.order ensures Deg(h.adj, k) <= Deg(g.adj, k) { }
    DegreeSumMono(h.adj, g.adj, h.order);
    DegreeSumStrip(g.adj, g.order, X);
  }

  /** An edge counter of zero means no vertex has a neighbour. */
  lemma NoEdges(g: Graph)
    requires Valid(g) && g.e == 0
    ensures forall u :: u in g.adj ==> g.adj[u] == []
    ensures IsCover(g, {})
  {
    DegreeSumZero(g.adj, g.order);
    forall u | u in g.adj ensures g.adj[u] == [] {
      assert Deg(g.adj, u) == 0;
    }
  }

  /** A positive edge counter means some vertex has a neighbour. */
  lemma SomeEdge(g: Graph)
    requires Valid(g) && g.e > 0
    ensures exists u :: u in g.adj && |g.adj[u]| > 0
  {
    DegreeSumWitness(g.adj, g.order);
  }

  // ---------------------------------------------------------------------
  // Queries (graph.py:67-77)
  // ---------------------------------------------------------------------

  /** `degree(node)`: the length of node's list; a KeyError if node is not a key. */
  function Degree(g: Graph, node: int): Result<nat> {
    if node in g.adj then Ok(|g.adj[node]|) else Err(KeyError(node))
  }

  /** `neighbors(node)`: node's list; a KeyError if node is not a key. */
  function Neighbors(g: Graph, node: int): Result<seq<int>> {
    if node in g.adj then Ok(g.adj[node]) else Err(KeyError(node))
  }

  /** The two queries fail on the same ids, and the degree is the number of
      neighbours; in a valid graph a degree is at most the edge counter and
      smaller than the number of vertices. */
  lemma DegreeBounds(g: Graph, node: int)
    requires Valid(g)
    ensures Degree(g, node).Ok? <==> Neighbors(g, node).Ok?
    ensures Degree(g, node).Err? ==> Degree(g, node).error == Neighbors(g, node).error == KeyError(node)
    ensures Degree(g, node).Ok? ==> Degree(g, node).value == |Neighbors(g, node).value|
    ensures Degree(g, node).Ok? ==> Degree(g, node).value <= g.e
    ensures Degree(g, node).Ok? ==> Degree(g, node).value < |g.order|
  {
    if node in g.adj {
      var nbs := g.adj[node];
      var rest := Strip(g.order, {node});
      DegreeSumDrop(g.adj, g.order, node);
      StripDistinct(g.order, {node});
      forall y | y in nbs ensures y in rest && Deg(g.adj, y) >= 1 {
        assert node in g.adj[y];
      }
      DegreeSumCount(g.adj, rest, nbs);
      StripOne(g.order, node);
      StripLength(rest, nbs);
    }
  }

  // ---------------------------------------------------------------------
  // remove (graph.py:79-100)
  // ---------------------------------------------------------------------

  /** An int argument is a one-element batch (graph.py:84-86). */
  function Listed(nodes: Nodes): (ns: seq<int>)
    ensures nodes.Single? ==> ns == [nodes.n]
    ensures nodes.Batch? ==> ns == nodes.ns
  {
    match nodes
    case Single(n) => [n]
    case Batch(ns) => ns
  }

  /** The inner loop of remove (graph.py:96-98): for each id nb of nbs, one
      fewer edge and the first n taken out of nb's list. */
  function StripNeighbors(adj: map<int, seq<int>>, n: int, nbs: seq<int>, e: int): Result<(map<int, seq<int>>, int)>
    decreases |nbs|
  {
    if nbs == [] then Ok((adj, e))
    else if nbs[0] !in adj then Err(KeyError(nbs[0]))
    else if n !in adj[nbs[0]] then Err(ValueError(n))
    else StripNeighbors(adj[nbs[0] := RemoveFirst(adj[nbs[0]], n)], n, nbs[1..], e - 1)
  }

  /** The outer loop of remove (graph.py:92-98): each id of the batch has its
      entry deleted and is stripped from the lists of its neighbours. */
  function DeleteNodes(adj: map<int, seq<int>>, order: seq<int>, e: int, nodes: seq<int>): Result<(map<int, seq<int>>, seq<int>, int)>
    decreases |nodes|
  {
    if nodes == [] then Ok((adj, order, e))
    else
      var n := nodes[0];
      if n !in adj then Err(KeyError(n))
      else
        match StripNeighbors(adj - {n}, n, adj[n], e)
        case Err(err) => Err(err)
        case Ok((adj', e')) => DeleteNodes(adj', Strip(order, {n}), e', nodes[1..])
  }

  /** What `g.remove(nodes)` returns or raises. */
  function Removed(g: Graph, nodes: Nodes): Result<Graph> {
    var ns := Listed(nodes);
    match DeleteNodes(g.adj, g.order, g.e, ns)
    case Err(err) => Err(err)
    case Ok((adj, order, e)) => Ok(Graph(order, adj, e, g.v - |ns|))
  }

  lemma {:induction false} StripNeighborsOk(adj: map<int, seq<int>>, n: int, nbs: seq<int>, e: int)
    requires Distinct(nbs)
    requires forall nb :: nb in nbs ==> nb in adj && n in adj[nb]
    ensures var r := StripNeighbors(adj, n, nbs, e);
      && r.Ok? && r.value.1 == e - |nbs| && r.value.0.Keys == adj.Keys
      && forall k :: k in adj ==> r.value.0[k] == if k in nbs then RemoveFirst(adj[k], n) else adj[k]
    decreases |nbs|
  {
    if nbs != [] {
      var nb := nbs[0];
      DistinctTail(nbs);
      var adj' := adj[nb := RemoveFirst(adj[nb], n)];
      StripNeighborsOk(adj', n, nbs[1..], e - 1);
      assert forall k :: k in nbs <==> k == nb || k in nbs[1..] by {
        assert nbs == [nb] + nbs[1..];
      }
    }
  }

  /** Deleting one key n of a valid graph: the inner loop succeeds and
      leaves the graph with n deleted, with |adj[n]| fewer edges. */
  lemma DeleteOneStep(h: Graph, n: int)
    requires Valid(h) && n in h.adj
    ensures var r := StripNeighbors(h.adj - {n}, n, h.adj[n], h.e);
      && r.Ok? && r.value.1 == h.e - |h.adj[n]|
      && InducedBy(h, Graph(Strip(h.order, {n}), r.value.0, r.value.1, h.v), {n})
  {
    var nbs := h.adj[n];
    var m := h.adj - {n};
    assert forall nb :: nb in nbs ==> nb in m && n in m[nb];
    StripNeighborsOk(m, n, nbs, h.e);
    var r := StripNeighbors(m, n, nbs, h.e);
    DeleteOneLists(h, n, r.value.0);
    DeleteOneSum(h, n, r.value.0);
  }

  /** The degree sum after the inner loop: n's own list and one entry in the
      list of each neighbour of n are gone. */
  lemma DeleteOneSum(h: Graph, n: int, adj': map<int, seq<int>>)
    requires IsDict(h) && n in h.adj && Distinct(h.adj[n])
    requires forall nb :: nb in h.adj[n] ==> nb in h.adj && nb != n
    requires adj'.Keys == h.adj.Keys - {n}
    requires forall k :: k in adj' ==> |adj'[k]| + (if k in h.adj[n] then 1 else 0) == |h.adj[k]|
    ensures DegreeSum(adj', Strip(h.order, {n})) + 2 * |h.adj[n]| == DegreeSum(h.adj, h.order)
  {
    var nbs := h.adj[n];
    var m := h.adj - {n};
    var order' := Strip(h.order, {n});
    StripDistinct(h.order, {n});
    DegreeSumDrop(h.adj, h.order, n);
    DegreeSumAgree(h.adj, m, order');
    forall k | k in order'
      ensures Deg(adj', k) + (if k in nbs then 1 else 0) == Deg(m, k)
    {
    }
    DegreeSumDecrement(m, adj', order', nbs);
  }

  /** The lists left by the inner loop are the old lists with n stripped. */
  lemma DeleteOneLists(h: Graph, n: int, adj': map<int, seq<int>>)
    requires Simple(h) && Symmetric(h) && n in h.adj
    requires adj'.Keys == h.adj.Keys - {n}
    requires forall k :: k in adj' ==>
      adj'[k] == if k in h.adj[n] then RemoveFirst(h.adj[k], n) else h.adj[k]
    ensures forall k :: k in adj' ==> adj'[k] == Strip(h.adj[k], {n})
  {
    forall k | k in adj' ensures adj'[k] == Strip(h.adj[k], {n}) {
      if k in h.adj[n] {
        RemoveFirstDistinct(h.adj[k], n);
      } else {
        StripNothing(h.adj[k], {n});
      }
    }
  }

  /** Deleting the same set from the same graph gives the same graph, up to v. */
  lemma InducedUnique(g: Graph, h: Graph, h': Graph, X: set<int>)
    requires InducedBy(g, h, X) && InducedBy(g, h', X)
    ensures h.order == h'.order && h.adj == h'.adj && h.e == h'.e
  {
    forall k | k in h.adj ensures h.adj[k] == h'.adj[k] { }
    assert h.adj == h'.adj;
  }

  /** Deleting one vertex takes away exactly the edges at that vertex. */
  lemma InducedOneEdges(g: Graph, h: Graph, x: int)
    requires Valid(g) && InducedBy(g, h, {x})
    ensures h.e == g.e - |g.adj[x]|
  {
    DeleteOneStep(g, x);
    var r := StripNeighbors(g.adj - {x}, x, g.adj[x], g.e);
    InducedUnique(g, h, Graph(Strip(g.order, {x}), r.value.0, r.value.1, g.v), {x});
  }

  /** One step of the outer loop on a valid graph from which P is already deleted. */
  lemma DeleteOneInduced(g: Graph, P: set<int>, h: Graph, n: int)
    requires Valid(g) && InducedBy(g, h, P)
    requires n in g.adj && n !in P
    ensures n in h.adj
    ensures var r := StripNeighbors(h.adj - {n}, n, h.adj[n], h.e);
      && r.Ok?
      && InducedBy(g, Graph(Strip(h.order, {n}), r.value.0, r.value.1, h.v), P + {n})
  {
    InducedValid(g, h, P);
    DeleteOneStep(h, n);
    var r := StripNeighbors(h.adj - {n}, n, h.adj[n], h.e);
    InducedCompose(g, h, Graph(Strip(h.order, {n}), r.value.0, r.value.1, h.v), P, {n});
  }

  /** The first step of the outer loop, with what the rest of the loop needs. */
  lemma DeleteNodesStep(g: Graph, P: set<int>, h: Graph, rest: seq<int>)
    requires Valid(g) && InducedBy(g, h, P)
    requires rest != [] && Distinct(rest) && forall n :: n in rest ==> n in g.adj && n !in P
    ensures rest[0] in h.adj
    ensures var r := StripNeighbors(h.adj - {rest[0]}, rest[0], h.adj[rest[0]], h.e);
      && r.Ok?
      && var h' := Graph(Strip(h.order, {rest[0]}), r.value.0, r.value.1, h.v);
      && InducedBy(g, h', P + {rest[0]})
      && DeleteNodes(h.adj, h.order, h.e, rest) == DeleteNodes(h'.adj, h'.order, h'.e, rest[1..])
    ensures Distinct(rest[1..]) && forall n :: n in rest[1..] ==> n in g.adj && n !in P + {rest[0]}
  {
    var n := rest[0];
    DeleteOneInduced(g, P, h, n);
    var r := StripNeighbors(h.adj - {n}, n, h.adj[n], h.e);
    DeleteNodesCons(h.adj, h.order, h.e, rest, r.value.0, r.value.1);
    DistinctTail(rest);
  }

  lemma {:induction false} DeleteNodesInduced(g: Graph, P: set<int>, h: Graph, rest: seq<int>)
    requires Valid(g) && InducedBy(g, h, P)
    requires Distinct(rest) && forall n :: n in rest ==> n in g.adj && n !in P
    ensures var r := DeleteNodes(h.adj, h.order, h.e, rest);
      r.Ok? && InducedBy(g, Graph(r.value.1, r.value.0, r.value.2, h.v), P + Elements(rest))
    decreases |rest|
  {
    if rest == [] {
      assert P + Elements(rest) == P;
    } else {
      var n := rest[0];
      DeleteNodesStep(g, P, h, rest);
      var r := StripNeighbors(h.adj - {n}, n, h.adj[n], h.e);
      var h' := Graph(Strip(h.order, {n}), r.value.0, r.value.1, h.v);
      DeleteNodesInduced(g, P + {n}, h', rest[1..]);
      ElementsCons(rest);
      assert P + {n} + Elements(rest[1..]) == P + Elements(rest);
    }
  }

  /** One unfolding of the outer loop whose first step succeeds. */
  lemma DeleteNodesCons(adj: map<int, seq<int>>, order: seq<int>, e: int, nodes: seq<int>,
                        adj': map<int, seq<int>>, e': int)
    requires nodes != [] && nodes[0] in adj
    requires StripNeighbors(adj - {nodes[0]}, nodes[0], adj[nodes[0]], e) == Ok((adj', e'))
    ensures DeleteNodes(adj, order, e, nodes) == DeleteNodes(adj', Strip(order, {nodes[0]}), e', nodes[1..])
  {
  }

  /** On a valid graph, removing a batch of distinct keys succeeds and deletes
      exactly that batch; the result is valid, and its vertex counter stays
      equal to its number of keys when it was so before. */
  lemma RemovedInduced(g: Graph, nodes: Nodes)
    requires Valid(g)
    requires Distinct(Listed(nodes)) && forall n :: n in Listed(nodes) ==> n in g.adj
    ensures Removed(g, nodes).Ok?
    ensures var h := Removed(g, nodes).value;
      && InducedBy(g, h, Elements(Listed(nodes)))
      && h.v == g.v - |Listed(nodes)|
      && Valid(h)
      && (Counted(g) ==> Counted(h))
  {
    var ns := Listed(nodes);
    InducedNothing(g);
    DeleteNodesInduced(g, {}, g, ns);
    assert {} + Elements(ns) == Elements(ns);
    var h := Removed(g, nodes).value;
    InducedValid(g, h, Elements(ns));
    if Counted(g) {
      InducedCounted(g, h, ns);
    }
  }

  /** An id of the batch that is not a key at the time it is processed has no entry to delete. */
  ghost predicate MissingOrRepeated(adj: map<int, seq<int>>, nodes: seq<int>) {
    exists i :: 0 <= i < |nodes| && (nodes[i] !in adj || nodes[i] in nodes[..i])
  }

  lemma {:induction false} StripNeighborsKeys(adj: map<int, seq<int>>, n: int, nbs: seq<int>, e: int)
    requires StripNeighbors(adj, n, nbs, e).Ok?
    ensures StripNeighbors(adj, n, nbs, e).value.0.Keys == adj.Keys
    decreases |nbs|
  {
    if nbs != [] {
      StripNeighborsKeys(adj[nbs[0] := RemoveFirst(adj[nbs[0]], n)], n, nbs[1..], e - 1);
    }
  }

  lemma {:induction false} DeleteNodesMissing(adj: map<int, seq<int>>, order: seq<int>, e: int, nodes: seq<int>)
    requires MissingOrRepeated(adj, nodes)
    ensures DeleteNodes(adj, order, e, nodes).Err?
    decreases |nodes|
  {
    var i :| 0 <= i < |nodes| && (nodes[i] !in adj || nodes[i] in nodes[..i]);
    var n := nodes[0];
    if n in adj {
      var r := StripNeighbors(adj - {n}, n, adj[n], e);
      if r.Ok? {
        StripNeighborsKeys(adj - {n}, n, adj[n], e);
        var adj' := r.value.0;
        assert i > 0;
        var rest := nodes[1..];
        assert rest[i - 1] == nodes[i];
        if nodes[i] in rest[..i - 1] {
        } else if nodes[i] in nodes[..i] {
          assert nodes[..i] == [n] + rest[..i - 1];
          assert nodes[i] == n;
        }
        assert rest[i - 1] !in adj' || rest[i - 1] in rest[..i - 1];
        DeleteNodesMissing(adj', Strip(order, {n}), r.value.1, rest);
      }
    }
  }

  /** Each list of adj holds only ids that the same list of base holds, and
      each key of adj is a key of base. */
  ghost predicate Within(adj: map<int, seq<int>>, base: map<int, seq<int>>) {
    && adj.Keys <= base.Keys
    && forall k, x :: k in adj && x in adj[k] ==> x in base[k]
  }

  /** The inner loop only shrinks lists. */
  lemma {:induction false} StripNeighborsShrinks(adj: map<int, seq<int>>, n: int, nbs: seq<int>, e: int)
    requires StripNeighbors(adj, n, nbs, e).Ok?
    ensures Within(StripNeighbors(adj, n, nbs, e).value.0, adj)
    decreases |nbs|
  {
    if nbs != [] {
      var k := nbs[0];
      var adj1 := adj[k := RemoveFirst(adj[k], n)];
      StripNeighborsShrinks(adj1, n, nbs[1..], e - 1);
      forall y | y in adj1[k] ensures y in adj[k] {
        assert multiset(adj1[k])[y] > 0;
      }
      assert Within(adj1, adj);
      WithinTrans(StripNeighbors(adj, n, nbs, e).value.0, adj1, adj);
    }
  }

  /** The inner loop keeps an id x in node's list unless x is n and node is one of nbs. */
  lemma {:induction false} StripNeighborsKeeps(adj: map<int, seq<int>>, n: int, nbs: seq<int>, e: int, node: int, x: int)
    requires StripNeighbors(adj, n, nbs, e).Ok?
    requires node in adj && x in adj[node] && (x != n || node !in nbs)
    ensures node in StripNeighbors(adj, n, nbs, e).value.0
    ensures x in StripNeighbors(adj, n, nbs, e).value.0[node]
    decreases |nbs|
  {
    StripNeighborsKeys(adj, n, nbs, e);
    if nbs != [] {
      var k := nbs[0];
      var adj1 := adj[k := RemoveFirst(adj[k], n)];
      assert nbs == [k] + nbs[1..];
      if node == k {
        assert multiset(adj1[k])[x] == multiset(adj[k])[x];
      }
      StripNeighborsKeeps(adj1, n, nbs[1..], e - 1, node, x);
    }
  }

  lemma {:induction false} WithinTrans(a: map<int, seq<int>>, b: map<int, seq<int>>, c: map<int, seq<int>>)
    requires Within(a, b) && Within(b, c)
    ensures Within(a, c)
  {
  }

  /** The inner loop fails when it reaches an id nb whose list does not hold n. */
  lemma {:induction false} StripNeighborsFails(adj: map<int, seq<int>>, base: map<int, seq<int>>, n: int, nbs: seq<int>, e: int, nb: int)
    requires Within(adj, base) && nb in nbs
    requires nb !in adj || nb !in base || n !in base[nb]
    ensures StripNeighbors(adj, n, nbs, e).Err?
    decreases |nbs|
  {
    var k := nbs[0];
    if k in adj && n in adj[k] {
      var adj1 := adj[k := RemoveFirst(adj[k], n)];
      forall x | x in adj1[k] ensures x in adj[k] {
        assert multiset(adj1[k])[x] > 0;
      }
      assert Within(adj1, base);
      assert k != nb;
      StripNeighborsFails(adj1, base, n, nbs[1..], e - 1, nb);
    }
  }

  /** The outer loop fails once it reaches node, when node's list names an id
      that is node itself, is not a key, or does not list node back. */
  lemma {:induction false} DeleteNodesAsymmetric(adj: map<int, seq<int>>, base: map<int, seq<int>>, order: seq<int>, e: int, nodes: seq<int>, node: int, nb: int)
    requires Within(adj, base) && node in nodes
    requires node in adj && nb in adj[node]
    requires nb == node || nb !in base || node !in base[nb]
    ensures DeleteNodes(adj, order, e, nodes).Err?
    decreases |nodes|
  {
    var n := nodes[0];
    assert nodes == [n] + nodes[1..];
    if n in adj {
      var m := adj - {n};
      if n == node {
        StripNeighborsFails(m, base, n, adj[n], e, nb);
      } else {
        var r := StripNeighbors(m, n, adj[n], e);
        if r.Ok? {
          assert nb != n || node !in adj[n];
          StripNeighborsShrinks(m, n, adj[n], e);
          StripNeighborsKeeps(m, n, adj[n], e, node, nb);
          var adj' := r.value.0;
          WithinTrans(adj', m, base);
          assert nb != n || node !in adj[n];
          DeleteNodesAsymmetric(adj', base, Strip(order, {n}), r.value.1, nodes[1..], node, nb);
        }
      }
    }
  }

  /** remove raises for an id of the batch that is not a key or is repeated
      (graph.py:93), whatever the graph. */
  lemma RemoveRejectsMissing(g: Graph, nodes: Nodes)
    requires MissingOrRepeated(g.adj, Listed(nodes))
    ensures Removed(g, nodes).Err?
  {
    DeleteNodesMissing(g.adj, g.order, g.e, Listed(nodes));
  }

  /** remove raises when a vertex of the batch lists itself, lists an id that
      is not a key, or lists a vertex that does not list it back
      (graph.py:93, graph.py:98). */
  lemma RemoveRejectsAsymmetric(g: Graph, nodes: Nodes, node: int, nb: int)
    requires node in Listed(nodes) && node in g.adj && nb in g.adj[node]
    requires nb == node || nb !in g.adj || node !in g.adj[nb]
    ensures Removed(g, nodes).Err?
  {
    DeleteNodesAsymmetric(g.adj, g.adj, g.order, g.e, Listed(nodes), node, nb);
  }

  /** On a valid graph, remove succeeds exactly when the batch consists of
      distinct keys. */
  lemma RemoveSucceedsIff(g: Graph, nodes: Nodes)
    requires Valid(g)
    ensures Removed(g, nodes).Ok? <==>
      Distinct(Listed(nodes)) && forall n :: n in Listed(nodes) ==> n in g.adj
  {
    var ns := Listed(nodes);
    if Distinct(ns) && forall n :: n in ns ==> n in g.adj {
      RemovedInduced(g, nodes);
    } else if !Distinct(ns) {
      var i, j :| 0 <= i < j < |ns| && ns[i] == ns[j];
      assert ns[j] in ns[..j];
      RemoveRejectsMissing(g, nodes);
    } else {
      var n :| n in ns && n !in g.adj;
      var i :| 0 <= i < |ns| && ns[i] == n;
      RemoveRejectsMissing(g, nodes);
    }
  }

  /** `remove(nodes)` (graph.py:79-100): copies the dictionary, then for each
      id of the batch deletes its entry and strips it from its neighbours'
      lists, one fewer edge per stripped reference. */
  method Remove(g: Graph, nodes: Nodes) returns (r: Result<Graph>)
    ensures r == Removed(g, nodes)
  {
    var ns := Listed(nodes);
    var adj, order, e := g.adj, g.order, g.e;
    var i := 0;
    while i < |ns|
      invariant 0 <= i <= |ns|
      invariant DeleteNodes(adj, order, e, ns[i..]) == DeleteNodes(g.adj, g.order, g.e, ns)
    {
      var n := ns[i];
      assert ns[i..][0] == n && ns[i..][1..] == ns[i + 1..];
      if n !in adj {
        r := Err(KeyError(n));
        return;
      }
      var stripped := StripFromNeighbours(adj - {n}, n, adj[n], e);
      if stripped.Err? {
        r := Err(stripped.error);
        return;
      }
      adj, order, e := stripped.value.0, Strip(order, {n}), stripped.value.1;
      i := i + 1;
    }
    assert ns[i..] == [];
    r := Ok(Graph(order, adj, e, g.v - |ns|));
  }

  /** The inner loop of remove (graph.py:96-98), run on the copy after n's
      own entry is deleted. */
  method StripFromNeighbours(adj0: map<int, seq<int>>, n: int, nbs: seq<int>, e0: int)
    returns (r: Result<(map<int, seq<int>>, int)>)
    ensures r == StripNeighbors(adj0, n, nbs, e0)
  {
    var adj, e := adj0, e0;
    var j := 0;
    while j < |nbs|
      invariant 0 <= j <= |nbs|
      invariant StripNeighbors(adj, n, nbs[j..], e) == StripNeighbors(adj0, n, nbs, e0)
    {
      var nb := nbs[j];
      assert nbs[j..][0] == nb && nbs[j..][1..] == nbs[j + 1..];
      e := e - 1;
      if nb !in adj {
        r := Err(KeyError(nb));
        return;
      }
      if n !in adj[nb] {
        r := Err(ValueError(n));
        return;
      }
      adj := adj[nb := RemoveFirst(adj[nb], n)];
      j := j + 1;
    }
    assert nbs[j..] == [];
    r := Ok((adj, e));
  }



  // ---------------------------------------------------------------------
  // Degree queries over all vertices (graph.py:102-137)
  // ---------------------------------------------------------------------

  /** The first i of the first n keys whose degree none of them exceeds. */
  ghost predicate FirstMaxIn(g: Graph, n: int, i: int)
    requires IsDict(g)
  {
    && 0 <= i < n <= |g.order|
    && g.order[i] in g.adj
    && (forall j :: 0 <= j < n ==> |g.adj[g.order[j]]| <= |g.adj[g.order[i]]|)
    && (forall j :: 0 <= j < i ==> |g.adj[g.order[j]]| < |g.adj[g.order[i]]|)
  }

  /** x has the highest degree of g and comes first in key order among the
      vertices of that degree. */
  ghost predicate IsTop(g: Graph, x: int)
    requires IsDict(g)
  {
    && x in g.adj
    && (forall k :: k in g.adj ==> |g.adj[k]| <= |g.adj[x]|)
    && exists i :: 0 <= i < |g.order| && g.order[i] == x &&
         forall j :: 0 <= j < i ==> |g.adj[g.order[j]]| < |g.adj[x]|
  }

  /** Each nonempty prefix of the key order has a first maximum. */
  lemma {:induction false} PrefixTop(g: Graph, n: int)
    requires IsDict(g) && 0 < n <= |g.order|
    ensures exists i :: FirstMaxIn(g, n, i)
  {
    if n == 1 {
      assert FirstMaxIn(g, 1, 0);
    } else {
      PrefixTop(g, n - 1);
      var i :| FirstMaxIn(g, n - 1, i);
      if |g.adj[g.order[n - 1]]| > |g.adj[g.order[i]]| {
        assert FirstMaxIn(g, n, n - 1);
      } else {
        assert FirstMaxIn(g, n, i);
      }
    }
  }

  /** A graph with a key has exactly one first vertex of highest degree. */
  lemma TopExists(g: Graph)
    requires IsDict(g) && g.order != []
    ensures exists x :: IsTop(g, x)
  {
    PrefixTop(g, |g.order|);
    var i :| FirstMaxIn(g, |g.order|, i);
    var x := g.order[i];
    forall k | k in g.adj ensures |g.adj[k]| <= |g.adj[x]| {
      var j :| 0 <= j < |g.order| && g.order[j] == k;
    }
    assert IsTop(g, x);
  }

  lemma TopUnique(g: Graph, x: int, y: int)
    requires IsDict(g) && IsTop(g, x) && IsTop(g, y)
    ensures x == y
  {
    var i :| 0 <= i < |g.order| && g.order[i] == x &&
      forall j :: 0 <= j < i ==> |g.adj[g.order[j]]| < |g.adj[x]|;
    var j :| 0 <= j < |g.order| && g.order[j] == y &&
      forall k :: 0 <= k < j ==> |g.adj[g.order[k]]| < |g.adj[y]|;
  }

  /** The vertex `highest_degree()` returns on a graph with a key. */
  ghost function Top(g: Graph): (x: int)
    requires IsDict(g) && g.order != []
    ensures IsTop(g, x)
  {
    TopExists(g);
    var x :| IsTop(g, x); x
  }

  /** `highest_degree()`: the first vertex in key order whose degree is not
      exceeded by any vertex, with that degree; (None, -1) on an empty graph. */
  method HighestDegree(g: Graph) returns (vertex: Option<int>, degree: int)
    requires IsDict(g)
    ensures vertex.None? <==> g.order == []
    ensures vertex.None? ==> degree == -1
    ensures vertex.Some? ==> vertex.value in g.adj && degree == |g.adj[vertex.value]|
    ensures forall k :: k in g.adj ==> |g.adj[k]| <= degree
    ensures vertex.Some? ==>
      exists i :: 0 <= i < |g.order| && g.order[i] == vertex.value &&
        forall j :: 0 <= j < i ==> |g.adj[g.order[j]]| < degree
    ensures vertex.Some? ==> vertex.value == Top(g)
  {
    degree, vertex := -1, None;
    ghost var at := 0;
    for idx := 0 to |g.order|
      invariant vertex.None? <==> idx == 0
      invariant vertex.None? ==> degree == -1
      invariant vertex.Some? ==>
        && 0 <= at < idx && g.order[at] == vertex.value && degree == |g.adj[vertex.value]|
        && forall j :: 0 <= j < at ==> |g.adj[g.order[j]]| < degree
      invariant forall j :: 0 <= j < idx ==> |g.adj[g.order[j]]| <= degree
    {
      var k := g.order[idx];
      var d := |g.adj[k]|;
      if d > degree {
        degree, vertex := d, Some(k);
        at := idx;
      }
    }
    forall k | k in g.adj ensures |g.adj[k]| <= degree {
      var j :| 0 <= j < |g.order| && g.order[j] == k;
    }
    if vertex.Some? {
      assert IsTop(g, vertex.value);
      TopUnique(g, vertex.value, Top(g));
    }
  }

  /** `degree_n_vertices(n)`: the keys whose degree is n. */
  method DegreeNVertices(g: Graph, n: int) returns (vs: set<int>)
    requires IsDict(g)
    ensures forall k :: k in vs <==> k in g.adj && Degree(g, k) == Ok(n)
  {
    vs := {};
    for i := 0 to |g.order|
      invariant forall k :: k in vs <==> k in g.order[..i] && Degree(g, k) == Ok(n)
    {
      var k := g.order[i];
      assert g.order[..i + 1] == g.order[..i] + [k];
      if Degree(g, k).value == n {
        vs := vs + {k};
      }
    }
    assert g.order[..|g.order|] == g.order;
  }

  /** `degree_at_least_n_vertices(n)`: despite its name, the keys whose degree
      is strictly greater than n (graph.py:135). */
  method DegreeAtLeastNVertices(g: Graph, n: int) returns (vs: set<int>)
    requires IsDict(g)
    ensures forall k :: k in vs <==> k in g.adj && Degree(g, k).Ok? && Degree(g, k).value > n
  {
    vs := {};
    for i := 0 to |g.order|
      invariant forall k :: k in vs <==> k in g.order[..i] && Degree(g, k).Ok? && Degree(g, k).value > n
    {
      var k := g.order[i];
      assert g.order[..i + 1] == g.order[..i] + [k];
      if Degree(g, k).value > n {
        vs := vs + {k};
      }
    }
    assert g.order[..|g.order|] == g.order;
  }
}
