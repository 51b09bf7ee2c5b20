# Minimum vertex cover by branch and reduce

A Dafny model of the exact minimum-vertex-cover solver and the graph it runs on:

- the adjacency-list `Graph` of `graph.py`: its queries, its degree filters and `remove`;
- the solver class `MVC` of `solver.py`: the reduction rules (`reduce`), the greedy bound (`approx`) and the branch-and-reduce search (`bnr` with its inner `rec`).

`graph.dfy` holds module `Graphs`.

- A graph is a datatype value `Graph(order, adj, e, v)`. `remove` never changes the graph it is called on; it builds a new one.
- `order` is the insertion order of the Python dictionary's keys. `highest_degree` breaks ties by that order.
- `Valid(g)` states the shape the solver relies on:
  - `order` lists the keys once each;
  - the lists are duplicate-free, hold no self-loop and name only keys;
  - every edge is listed at both ends;
  - `2 * e` is the sum of the degrees.
- `Counted(g)` adds that `v` is the number of keys.
- `remove` has two parts:
  - a specification function `Removed`, a fold that mirrors the two Python loops, including the `KeyError` and `ValueError` they raise;
  - a method `Remove` with the same nested loops, proved equal to `Removed`.
- Lemmas describe the result declaratively with `InducedBy(g, h, X)`, the graph `g` with the vertices `X` deleted:
  - the remaining keys keep their order;
  - each surviving list loses exactly the ids in `X`, and its other entries keep their order;
  - the edge counter stays half the degree sum.
- `RemovedInduced` adds that the vertex counter drops by the size of the batch.
- Other lemmas give conditions under which `remove` raises on any adjacency. On a valid graph `RemoveSucceedsIff` makes them exact.
- `Top(g)` is the vertex `highest_degree` returns: the first key, in key order, of highest degree.

`solver.dfy` holds module `Solver`.

- Each rule of `reduce` is a method with the same loop: `DegreeOneRule`, `DegreeTwoRule` and `HighDegreeRule`. One turn of a loop is `Turn`.
- Each method is proved equal to a specification function:
  - a rule loop to `Exhaust`;
  - `reduce` to `Reduction`;
  - the greedy loop of `approx` to `GreedyCover`;
  - `approx` to `ApproxValue`;
  - `rec` to `SearchValue`, and its branching step to `BranchValue`.
- `Reduce` repeats the three rules until a pass changes nothing. Its contract states:
  - exactly the vertices it deletes are added to the set;
  - no rule applies to the result;
  - a graph to which no rule applies comes back unchanged, so running `reduce` again on its own output is a no-op.
- `Approx` returns the size of a vertex cover, and 0 on an edgeless graph.
- `Search` is `rec`. The shared `best` goes in and comes back out. Ghost parameters carry the root graph and the cover whose size `best` is.
- `SearchValue` follows `rec` case by case: reduce, prune when `len(s) > best` or `e > (best - len(s) - 1)^2` and leave `best` alone, accept when `e == 0`, and otherwise branch on `Top(h)`, first with it taken and then, with the bound that call left, with its neighbours taken.
- `Bnr` returns `SearchValue(graph, {}, ApproxValue(graph))`. That is the size of a vertex cover no larger than `ApproxValue(graph)`, the value `approx` returns on the same graph.

Each Python `set.pop()` is modelled by `Choose`, which returns the smallest id of the set. The same choice is used in `approx` and in `bnr`, so the bound compares two runs of the same deterministic program.

A batch holding two adjacent vertices is neither counted twice nor rejected: deleting the first endpoint removes the shared edge from the second endpoint's list. `RemovedInduced` proves that `e` stays half the degree sum.

## Model

| member | source | states |
|---|---|---|
| Graphs.DegreeBounds | graph.py:67-77 | `degree` and `neighbors` fail on exactly the same ids, with `KeyError(node)`; otherwise the degree is the length of the neighbour list; on a valid graph it is at most `e` and below the number of vertices |
| Graphs.RemoveFirst | graph.py:98 | `list.remove(n)` takes out exactly one occurrence of `n`: the multiset loses one `n` and the length drops by one |
| Graphs.StripFromNeighbours | graph.py:96-98 | the inner loop equals the fold `StripNeighbors`; that fold decrements `e` once per neighbour, raises `KeyError` for a neighbour that is not a key and `ValueError` when the neighbour does not list `n` |
| Graphs.Remove | graph.py:79-100 | the nested loops on the copied dictionary return exactly `Removed(g, nodes)`, the value or the exception of the fold over the batch |
| Graphs.RemovedInduced | graph.py:88-100 | on a valid graph and a batch of distinct keys, `remove` succeeds; the keys are the old keys minus the batch, still in dictionary order; each surviving list is the old list without the batch ids, its other entries in order; `v' = v - len(nodes)`; the result is valid again; `v == keys` is preserved |
| Graphs.RemoveSucceedsIff | graph.py:92-98 | on a valid graph, `remove` succeeds if and only if the batch has no repeated id and holds only keys |
| Graphs.RemoveRejectsMissing | graph.py:92-94 | on any adjacency, a batch id that is not a key, or is repeated, makes `remove` raise |
| Graphs.RemoveRejectsAsymmetric | graph.py:92-98 | on any adjacency, when a batch vertex lists itself, lists a non-key, or lists a vertex that does not list it back, `remove` raises |
| Graphs.InducedOneEdges | graph.py:92-98 | deleting one vertex of a valid graph lowers `e` by exactly its degree |
| Graphs.InducedFewerEdges | graph.py:90-98 | deleting vertices never raises `e` |
| Graphs.InducedValid | graph.py:92-98 | deleting vertices of a valid graph keeps it symmetric, simple, free of dangling ids, and with `2e` equal to the degree sum |
| Graphs.InducedCounted | graph.py:89 | with a distinct batch of keys, `v' = v - len(nodes)` keeps `v` equal to the number of keys |
| Graphs.InducedKeepsEdges | graph.py:92-98 | every edge with neither end in the batch survives the deletion |
| Graphs.InducedCompose | graph.py:92-98 | deleting `X` and then `Y` is deleting `X + Y`, and the two sets are disjoint |
| Graphs.TopExists | graph.py:102-115 | a graph with a key has a first vertex, in key order, among those of highest degree |
| Graphs.TopUnique | graph.py:102-115 | that vertex is unique |
| Graphs.HighestDegree | graph.py:102-115 | returns a key whose degree no key exceeds; it is the first such key in dictionary order, because the update uses a strict `>`, and so it is `Top(g)`; on an empty graph it returns `(None, -1)` and only there |
| Graphs.DegreeNVertices | graph.py:117-126 | exactly the keys whose degree is `n` |
| Graphs.DegreeAtLeastNVertices | graph.py:128-137 | exactly the keys whose degree is strictly greater than `n` |
| Solver.Choose | solver.py:62 | `set.pop()` returns a member of the nonempty set, the smallest one |
| Solver.Exhaust | solver.py:60-66 | running one rule's loop to its end on a valid graph gives a valid graph; either nothing changed or the key order got shorter |
| Solver.TurnKeeps | solver.py:62-65 | a turn of the degree-1 or degree-2 rule removes only neighbours of the popped vertex, which it leaves isolated; a turn of the high-degree rule removes only a vertex of degree above the bound |
| Solver.Turn | solver.py:62-65 | one turn pops `Choose(due)`, the smallest due vertex; the new graph is exactly `remove` of what the rule takes for it, and the set grows by exactly that batch; this is the next step of `Exhaust`; the graph stays valid and its key order gets shorter |
| Solver.Take | solver.py:63-65 | removing a batch of distinct keys and adding it to the set keeps the graph valid; the set grows by exactly the vertices deleted; the key order gets shorter |
| Solver.DegreeOneRule | solver.py:59-67 | the result is `Exhaust(DegreeOne, g, s)`; afterwards no vertex has degree 1; the vertices taken are exactly those deleted; each deleted vertex was a neighbour of a vertex the result keeps isolated; the loop fires only when some vertex has degree 1 and then shortens the key order; otherwise graph and set are unchanged |
| Solver.DegreeTwoRule | solver.py:69-77 | the same for degree 2: afterwards no vertex has degree 2, and each deleted vertex was a neighbour of a vertex the result keeps isolated |
| Solver.HighDegreeRule | solver.py:79-86 | the same for degree above `best`: afterwards every degree is at most `best`, and every deleted vertex had degree above `best` |
| Solver.Reduce | solver.py:46-87 | the result is `Reduction(g, s, best)`, the passes repeated until one changes nothing; the result is valid; the vertices it deletes are exactly those added to `s`, so `s' ⊇ s` and the caller's set is not changed; no vertex of the result has degree 1, degree 2 or degree above `best`; a graph to which no rule applies is returned with `s` unchanged, so `reduce` is idempotent |
| Solver.ShrunkResidual | solver.py:63-84 | every edge of the input that is gone from the reduced graph has an endpoint in `s'` |
| Solver.ShrunkCover | solver.py:56-87 | the set `reduce` returns, together with any cover of the reduced graph, covers the input graph |
| Solver.EdgeAtTop | solver.py:100-104 | a valid graph with an edge has a key, and its maximum degree is at least 1, so each greedy step removes an edge |
| Solver.TopRemoved | solver.py:102-103 | on a valid graph with an edge, removing `Top(h)` succeeds, keeps the graph valid and lowers `e` by at least one |
| Solver.Greedy | solver.py:100-104 | one greedy step deletes exactly `Top(h)`, the first vertex of highest degree, and adds it to the solution; the graph stays valid and `e` strictly drops; `GreedyCover` is unchanged |
| Solver.Approx | solver.py:90-106 | the returned size is `ApproxValue(g)`; it is the size of a vertex cover of `g` made of vertices of `g`; an edgeless graph gives 0 |
| Solver.ResidualCover | solver.py:30-31 | once the reduced graph has no edge, the accumulated set covers the root graph |
| Solver.ResidualStep | solver.py:35-40 | after either branch deletes its vertices and takes them, every uncovered edge of the root is still an edge of the child graph |
| Solver.NeighboursRemoved | solver.py:39-40 | on a valid graph with an edge, removing the neighbours of `Top(h)` succeeds, keeps the graph valid and shortens the key order |
| Solver.Search | solver.py:22-31 | the returned bound is `SearchValue(g, s, best)`: reduce, prune leaving `best` unchanged, accept `len(s)` only at `e == 0` and only when smaller, else branch; `best` only goes down; when it stays, the incumbent cover stays; when it drops, the new value is the size of an accepted set that extends `s` by vertices of `g` and covers the root graph |
| Solver.Branch | solver.py:33-40 | the returned bound is `BranchValue(h, t, best)`: the search with `Top(h)` removed and added to `t`, then, from the bound it returns, the search with the neighbours of `Top(h)` removed and added; it keeps the same cover promises as `Search` for the reduced graph and its set |
| Solver.Bnr | solver.py:15-43 | the result is `SearchValue(graph, {}, seed)` with `seed == ApproxValue(graph)`, the value `approx` returns; it is the size of a vertex cover of the graph and at most `seed`; an edgeless graph gives 0 |

## Left out

- The constructor's file-reading branch (graph.py:51-61): file I/O and text parsing. The other branch (graph.py:62-65) is the datatype constructor `Graph`. It stores its arguments as given, so the aliasing of the default `adj={}` is not modelled.
- `generate_ba_graph` (graph.py:11-33) calls a foreign random-graph library. main.py only reads input and prints.
- heuristic.py is a one-line wrapper around `highest_degree()[0]`. It is inlined where `Branch` picks its branching vertex.
- `deepcopy` and the fresh `Graph` are implicit: graphs are values, so `remove` cannot change its receiver.
- `Branch`: solver.py:37 passes `s.add(v_max)`, which evaluates to `None`. solver.py:40 calls `s.add` on a list, which raises `TypeError`. The model passes the intended sets `s ∪ {v_max}` and `s ∪ set(nbs)` instead. Comments at both calls say so.
- `Bnr`: does not claim that the result is the minimum cover size. The degree-2 rule takes both neighbours even when they are not adjacent, and the model does not prove that this keeps a minimum cover reachable.
- `RemovedInduced`: states the new `e` through `2e' = Σ deg'`, and through `InducedOneEdges` for a single vertex. It does not count the edges that touch a batch as a set of pairs.
- `Reduce`, `Approx`, `Search` and `Bnr` require `Valid(g)`, the simple symmetric shape with `2e` equal to the degree sum. The Python solver assumes this shape and does not check it. What `remove` does on other adjacencies is stated separately by `RemoveRejectsMissing` and `RemoveRejectsAsymmetric`.
- `Choose`: CPython's `set.pop()` returns the element in the first occupied slot of the set's hash table. For small non-negative ids that is the smallest one, but not in general. The model always takes the smallest.
- Python recursion limits and running time are not modelled.
