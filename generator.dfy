/**
 * The Erdős–Rényi and Barabási–Albert graph generators.
 *
 * The process-wide random stream becomes an explicit oracle: Erdős–Rényi
 * reads one coin per unordered pair from `coins` (the outcome of the
 * comparison of a uniform draw with `p`), and Barabási–Albert reads one
 * natural per draw from `draws` and picks `pool[draw % |pool|]`, as
 * `rand() % vertexIndexes.size()` does. The draw stream being finite,
 * the Barabási–Albert rejection loop stops with `DrawsExhausted` where the
 * source would keep drawing.
 */
module GraphGenerator {
  import opened AdjacencyList

  function Max(a: nat, b: nat): nat
  {
    if a < b then b else a
  }

  /**
   * a · b by repeated addition: the running counts below grow by one factor
   * per step, and this keeps their bookkeeping linear.
   */
  function Times(a: nat, b: nat): nat
  {
    if a == 0 then 0 else Times(a - 1, b) + b
  }

  lemma {:induction false} TimesIsProduct(a: nat, b: nat)
    ensures Times(a, b) == a * b
  {
    if a != 0 {
      TimesIsProduct(a - 1, b);
      assert (a - 1) * b + b == a * b;
    }
  }

  /** The ids 1..n in ascending order. */
  function IdsUpTo(n: nat): seq<VertexId>
  {
    if n == 0 then [] else IdsUpTo(n - 1) + [n]
  }

  /** `IdsUpTo(n)` is the vertex set holding exactly the ids 1..n, in order. */
  lemma {:induction false} IdsUpToFacts(n: nat)
    ensures |IdsUpTo(n)| == n
    ensures forall k :: 0 <= k < n ==> IdsUpTo(n)[k] == k + 1
    ensures Ascending(IdsUpTo(n))
    ensures forall x :: x in IdsUpTo(n) <==> 1 <= x <= n
  {
    if n != 0 {
      IdsUpToFacts(n - 1);
    }
    forall x | 1 <= x <= n
      ensures x in IdsUpTo(n)
    {
      assert IdsUpTo(n)[x - 1] == x;
    }
  }

  // ---------------------------------------------------------------------
  // Counting the pairs i < j visited by the nested pair loops
  // ---------------------------------------------------------------------

  /** The number of pairs (a, b), 1 <= a < b <= n, with a < i: the draws made before row i. */
  function RowStart(n: nat, i: nat): nat
    requires 1 <= i <= n + 1
  {
    if i == 1 then 0 else RowStart(n, i - 1) + (n - (i - 1))
  }

  /** The number of unordered pairs of distinct ids in 1..n. */
  function PairCount(n: nat): nat
  {
    RowStart(n, n + 1)
  }

  lemma {:induction false} RowStartClosedForm(n: nat, i: nat)
    requires 1 <= i <= n + 1
    ensures 2 * RowStart(n, i) == (i - 1) * (2 * n - i)
  {
    if i > 1 {
      RowStartClosedForm(n, i - 1);
      assert 2 * RowStart(n, i) == (i - 2) * (2 * n - i + 1) + 2 * (n - i + 1);
      assert (i - 2) * (2 * n - i + 1) + 2 * (n - i + 1) == (i - 1) * (2 * n - i);
    }
  }

  /** n ids have n(n-1)/2 unordered pairs. */
  lemma PairCountClosedForm(n: nat)
    ensures PairCount(n) == n * (n - 1) / 2
  {
    RowStartClosedForm(n, n + 1);
  }

  lemma {:induction false} RowStartMonotone(n: nat, i: nat, k: nat)
    requires 1 <= i <= k <= n + 1
    ensures RowStart(n, i) <= RowStart(n, k)
  {
    if i < k {
      RowStartMonotone(n, i, k - 1);
    }
  }

  /**
   * The position of pair (i, j) in the order the nested loops visit pairs,
   * which is the index of the draw that decides it. It lies within the
   * draws the loops make.
   */
  function DrawIndex(n: nat, i: nat, j: nat): (k: nat)
    requires 1 <= i < j <= n
    ensures RowStart(n, i) <= k < RowStart(n, i + 1)
    ensures k < PairCount(n)
  {
    RowStartMonotone(n, i + 1, n + 1);
    RowStart(n, i) + (j - i - 1)
  }

  /**
   * Each pair is considered exactly once: visiting pairs in lexicographic
   * order, the draw index strictly increases, so distinct pairs read
   * distinct draws.
   */
  lemma DrawIndexOrdered(n: nat, a: nat, b: nat, a': nat, b': nat)
    requires 1 <= a < b <= n && 1 <= a' < b' <= n
    requires a < a' || (a == a' && b < b')
    ensures DrawIndex(n, a, b) < DrawIndex(n, a', b')
  {
    if a < a' {
      RowStartMonotone(n, a + 1, a');
    }
  }

  /** The number of accepting coins in `s`. */
  function Accepted(s: seq<bool>): (c: nat)
    ensures c <= |s|
  {
    if s == [] then 0 else Accepted(s[..|s| - 1]) + (if s[|s| - 1] then 1 else 0)
  }

  /** Reading one more coin adds one to the count exactly when it accepts. */
  lemma AcceptedStep(s: seq<bool>, k: nat)
    requires k < |s|
    ensures Accepted(s[..k + 1]) == Accepted(s[..k]) + (if s[k] then 1 else 0)
  {
    assert s[..k + 1][..k] == s[..k];
  }

  lemma {:induction false} AllAccepted(s: seq<bool>)
    requires forall k :: 0 <= k < |s| ==> s[k]
    ensures Accepted(s) == |s|
  {
    if s != [] {
      AllAccepted(s[..|s| - 1]);
    }
  }

  lemma {:induction false} NoneAccepted(s: seq<bool>)
    requires forall k :: 0 <= k < |s| ==> !s[k]
    ensures Accepted(s) == 0
  {
    if s != [] {
      NoneAccepted(s[..|s| - 1]);
    }
  }

  /**
   * After the pair loops have reached pair (i, j), the edges are exactly the
   * earlier pairs (lexicographic order) whose coin accepted.
   */
  ghost predicate DecidedUpTo(edges: set<(VertexId, VertexId)>, n: nat, coins: seq<bool>, i: nat, j: nat)
    requires PairCount(n) <= |coins|
  {
    forall a, b :: (a, b) in edges <==>
      1 <= a < b <= n && (a < i || (a == i && b < j)) && coins[DrawIndex(n, a, b)]
  }

  /**
   * Deciding pair (i, j), whose coin is read at draw index c, adds it exactly
   * when that coin accepts, and the edge count follows the accepting coins.
   */
  lemma DecideNext(edges: set<(VertexId, VertexId)>, n: nat, coins: seq<bool>, i: nat, j: nat, c: nat)
    requires PairCount(n) <= |coins| && 1 <= i < j <= n
    requires c == DrawIndex(n, i, j)
    requires DecidedUpTo(edges, n, coins, i, j)
    requires |edges| == Accepted(coins[..c])
    ensures (i, j) !in edges
    ensures DecidedUpTo(if coins[c] then edges + {(i, j)} else edges, n, coins, i, j + 1)
    ensures |if coins[c] then edges + {(i, j)} else edges| == Accepted(coins[..c + 1])
  {
    AcceptedStep(coins, c);
  }

  // ---------------------------------------------------------------------
  // Building blocks shared by both generators
  // ---------------------------------------------------------------------

  /** `for i in 1..n: graph->addVertex(new Vertex(i))` on a graph with no vertices. */
  method InsertVertices(g: AdjacencyListGraph, n: nat)
    requires g.Valid() && g.vertices == []
    modifies g
    ensures g.Valid() && g.vertices == IdsUpTo(n)
    ensures g.adjacency == old(g.adjacency) && g.Edges == old(g.Edges)
  {
    var i := 1;
    while i <= n
      invariant 1 <= i <= n + 1
      invariant g.Valid() && g.vertices == IdsUpTo(i - 1)
      invariant g.adjacency == old(g.adjacency) && g.Edges == old(g.Edges)
    {
      IdsUpToFacts(i - 1);
      InsertGreatest(g.vertices, i);
      g.AddVertex(i);
      assert IdsUpTo(i - 1) + [i] == IdsUpTo(i);
      i := i + 1;
    }
  }

  // ---------------------------------------------------------------------
  // Erdős–Rényi
  // ---------------------------------------------------------------------

  /**
   * One step of the inner loop of `generateErdosRenyiGraph`: look up vertex
   * j and, when the coin at draw index c accepts, link the source vertex i
   * to it. `addEdge` never reports `DuplicateEdge` here.
   */
  method ErdosRenyiPair(g: AdjacencyListGraph, n: nat, i: nat, j: nat, coins: seq<bool>, c: nat)
    requires 1 <= i < j <= n && PairCount(n) <= |coins|
    requires g.Valid() && g.vertices == IdsUpTo(n)
    requires c == DrawIndex(n, i, j)
    requires DecidedUpTo(g.Edges, n, coins, i, j)
    requires |g.Edges| == Accepted(coins[..c])
    modifies g
    ensures g.Valid() && g.vertices == old(g.vertices)
    ensures DecidedUpTo(g.Edges, n, coins, i, j + 1)
    ensures |g.Edges| == Accepted(coins[..c + 1])
  {
    IdsUpToFacts(n);
    var dst := g.GetVertexById(j);
    DecideNext(g.Edges, n, coins, i, j, c);
    if coins[c] {
      assert !g.IsNeighbourOf(i, j) by {
        assert i in g.Neighbours(j) <==> j in g.Neighbours(i);
      }
      var st := g.AddEdge(i, dst.value);
      assert st == Added;
    }
  }

  /**
   * The inner loop of `generateErdosRenyiGraph` for source vertex i: one coin
   * per j in i+1..n, read at draw index c, an edge {i, j} when it accepts.
   */
  method ErdosRenyiRow(g: AdjacencyListGraph, n: nat, i: nat, coins: seq<bool>, c0: nat) returns (c: nat)
    requires 1 <= i < n && PairCount(n) <= |coins|
    requires g.Valid() && g.vertices == IdsUpTo(n)
    requires c0 == RowStart(n, i) <= PairCount(n)
    requires DecidedUpTo(g.Edges, n, coins, i, i + 1)
    requires |g.Edges| == Accepted(coins[..c0])
    modifies g
    ensures g.Valid() && g.vertices == IdsUpTo(n)
    ensures c == RowStart(n, i + 1) <= PairCount(n)
    ensures DecidedUpTo(g.Edges, n, coins, i, n + 1)
    ensures |g.Edges| == Accepted(coins[..c])
  {
    RowStartMonotone(n, i + 1, n + 1);
    IdsUpToFacts(n);
    c := c0;
    var src := g.GetVertexById(i);
    var j := i + 1;
    while j <= n
      invariant i + 1 <= j <= n + 1
      invariant c == RowStart(n, i) + (j - i - 1) <= PairCount(n)
      invariant g.Valid() && g.vertices == IdsUpTo(n)
      invariant DecidedUpTo(g.Edges, n, coins, i, j)
      invariant |g.Edges| == Accepted(coins[..c])
    {
      ErdosRenyiPair(g, n, src.value, j, coins, c);
      c := c + 1;
      j := j + 1;
    }
  }

  /**
   * `generateErdosRenyiGraph` up to the pruning step: vertices 1..n, then
   * one coin per pair i < j in lexicographic order, an edge exactly when
   * the coin accepts. `addEdge` never reports `DuplicateEdge` (asserted at
   * the call).
   */
  method GenerateErdosRenyi(n: nat, coins: seq<bool>) returns (g: AdjacencyListGraph)
    requires PairCount(n) <= |coins|
    ensures fresh(g) && g.Valid()
    ensures !g.isDigraph && !g.isMultigraph
    ensures g.vertices == IdsUpTo(n)
    ensures forall a, b :: (a, b) in g.Edges <==> 1 <= a < b <= n && coins[DrawIndex(n, a, b)]
    ensures forall v :: !g.IsNeighbourOf(v, v)
    ensures |g.Edges| == Accepted(coins[..PairCount(n)])
  {
    g := new AdjacencyListGraph(false, false);
    InsertVertices(g, n);
    IdsUpToFacts(n);
    var c := 0;
    var i := 1;
    while i < n
      invariant 1 <= i <= Max(n, 1)
      invariant g.Valid() && g.vertices == IdsUpTo(n)
      invariant c == RowStart(n, i) <= PairCount(n)
      invariant forall a, b :: (a, b) in g.Edges <==> 1 <= a < b <= n && a < i && coins[DrawIndex(n, a, b)]
      invariant |g.Edges| == Accepted(coins[..c])
    {
      c := ErdosRenyiRow(g, n, i, coins, c);
      i := i + 1;
    }
    assert coins[..PairCount(n)] == coins[..c];
    forall v: VertexId
      ensures !g.IsNeighbourOf(v, v)
    {
      assert (v, v) !in g.Edges;
    }
  }

  /** An always-accepting oracle yields the complete graph: every pair, n(n-1)/2 edges. */
  lemma ErdosRenyiAllAccept(n: nat, coins: seq<bool>)
    requires PairCount(n) <= |coins|
    requires forall k :: 0 <= k < PairCount(n) ==> coins[k]
    ensures forall a, b :: 1 <= a < b <= n ==> coins[DrawIndex(n, a, b)]
    ensures Accepted(coins[..PairCount(n)]) == n * (n - 1) / 2
  {
    AllAccepted(coins[..PairCount(n)]);
    PairCountClosedForm(n);
  }

  /** An always-rejecting oracle yields no edge at all. */
  lemma ErdosRenyiAllReject(n: nat, coins: seq<bool>)
    requires PairCount(n) <= |coins|
    requires forall k :: 0 <= k < PairCount(n) ==> !coins[k]
    ensures forall a, b :: 1 <= a < b <= n ==> !coins[DrawIndex(n, a, b)]
    ensures Accepted(coins[..PairCount(n)]) == 0
  {
    NoneAccepted(coins[..PairCount(n)]);
  }

  // ---------------------------------------------------------------------
  // Barabási–Albert
  // ---------------------------------------------------------------------

  /** How a Barabási–Albert run ended. */
  datatype Outcome =
    | Complete
      /** a draw was needed from an empty pool: the source's `rand() % 0` */
    | EmptyPool
      /** the draw stream ran out before vertex n had its m links */
    | DrawsExhausted

  /** The neighbours of `v` with smaller ids: the links `v` made when it was new. */
  ghost function Earlier(s: set<VertexId>, v: VertexId): set<VertexId>
  {
    set u | u in s && u < v
  }

  /** A later vertex joining the neighbours of `v` leaves its earlier neighbours as they were. */
  lemma EarlierIgnoresLater(s: set<VertexId>, v: VertexId, w: VertexId)
    requires v <= w
    ensures Earlier(s + {w}, v) == Earlier(s, v)
  {
  }

  /**
   * Linking the new vertex d to an earlier s leaves the earlier neighbours of
   * every vertex before d as they were, and every id after d without
   * neighbours.
   */
  lemma LinkKeepsEarlier(adj: map<VertexId, set<VertexId>>, s: VertexId, d: VertexId, m0: nat, m: nat)
    requires s < d
    requires forall v :: m0 < v < d ==> |Earlier(NeighboursIn(adj, v), v)| == m
    requires forall v :: d < v ==> NeighboursIn(adj, v) == {}
    ensures forall v :: m0 < v < d ==> |Earlier(NeighboursIn(Link(adj, s, d), v), v)| == m
    ensures forall v :: d < v ==> NeighboursIn(Link(adj, s, d), v) == {}
  {
    EarlierIgnoresLater(NeighboursIn(adj, s), s, d);
  }

  /**
   * The pool weight of `v`: its degree, plus one for a seed vertex (the
   * seed pool holds m0 copies of each seed id while its degree is m0 - 1).
   */
  function Weight(m0: nat, v: VertexId, degree: nat): nat
  {
    if 1 <= v <= m0 then degree + 1 else degree
  }

  /**
   * Appending s and then d to the pool while linking s and d (not yet
   * adjacent, distinct) keeps every id's pool multiplicity equal to its weight.
   */
  lemma LinkKeepsWeights(adj: map<VertexId, set<VertexId>>, pool: seq<VertexId>, m0: nat, s: VertexId, d: VertexId)
    requires s != d && d !in NeighboursIn(adj, s) && s !in NeighboursIn(adj, d)
    requires forall v :: multiset(pool)[v] == Weight(m0, v, |NeighboursIn(adj, v)|)
    ensures forall v :: multiset(pool + [s] + [d])[v] == Weight(m0, v, |NeighboursIn(Link(adj, s, d), v)|)
  {
    var r := Link(adj, s, d);
    assert |NeighboursIn(r, s)| == |NeighboursIn(adj, s)| + 1;
    assert |NeighboursIn(r, d)| == |NeighboursIn(adj, d)| + 1;
    var grown := multiset(pool + [s] + [d]);
    assert grown == multiset(pool) + multiset{s} + multiset{d};
    forall v: VertexId
      ensures grown[v] == Weight(m0, v, |NeighboursIn(r, v)|)
    {
      assert multiset(pool)[v] == Weight(m0, v, |NeighboursIn(adj, v)|);
      if v == s {
        assert grown[v] == multiset(pool)[v] + 1;
      } else if v == d {
        assert grown[v] == multiset(pool)[v] + 1;
      } else {
        assert grown[v] == multiset(pool)[v];
      }
    }
  }

  /**
   * What holds at every step of a Barabási–Albert run: a valid graph whose
   * edges join distinct held vertices, a pool holding only held vertices,
   * each id as many times as its weight, and a pool length of m0² plus two
   * per link made after the seed.
   */
  ghost predicate Consistent(g: AdjacencyListGraph, pool: seq<VertexId>, m0: nat)
    reads g
  {
    ConsistentState(g.vertices, g.adjacency, g.Edges, pool, m0)
  }

  /** `Consistent`, stated on the graph's fields as values. */
  ghost predicate ConsistentState(vertices: seq<VertexId>, adj: map<VertexId, set<VertexId>>,
                                  edges: set<(VertexId, VertexId)>, pool: seq<VertexId>, m0: nat)
  {
    && Ascending(vertices) && Symmetric(adj) && EdgesOf(edges, adj)
    && (forall a, b :: (a, b) in edges ==> a < b && a in vertices && b in vertices)
    && (forall x :: x in pool ==> x in vertices)
    && (forall v :: multiset(pool)[v] == Weight(m0, v, |NeighboursIn(adj, v)|))
    && |edges| >= PairCount(m0)
    && |pool| == Times(m0, m0) + 2 * (|edges| - PairCount(m0))
  }

  /**
   * One accepted draw keeps the run consistent: with s already held, d held
   * afterwards and s < d not yet adjacent, appending s then d to the pool and
   * linking them.
   */
  lemma LinkKeepsConsistent(vertices: seq<VertexId>, vertices': seq<VertexId>,
                            adj: map<VertexId, set<VertexId>>, edges: set<(VertexId, VertexId)>,
                            pool: seq<VertexId>, m0: nat, s: VertexId, d: VertexId)
    requires ConsistentState(vertices, adj, edges, pool, m0)
    requires Ascending(vertices') && (forall x :: x in vertices ==> x in vertices')
    requires s in vertices && d in vertices'
    requires s < d && d !in NeighboursIn(adj, s)
    ensures ConsistentState(vertices', Link(adj, s, d), edges + {EdgeOf(s, d)}, pool + [s] + [d], m0)
  {
    LinkKeepsInvariant(adj, edges, s, d);
    assert s !in NeighboursIn(adj, d) by {
      assert s in NeighboursIn(adj, d) <==> d in NeighboursIn(adj, s);
    }
    LinkKeepsWeights(adj, pool, m0, s, d);
    assert EdgeOf(s, d) !in edges;
  }

  /**
   * The state before the attachment loop for vertex i (m0 < i): the seed
   * clique, every vertex m0 < v < i linked to exactly m earlier vertices,
   * nothing yet on ids i and above, and the vertex set 1..i-1 (only 1..m0
   * when m = 0, since a vertex enters on its first link).
   */
  ghost predicate Stage(g: AdjacencyListGraph, pool: seq<VertexId>, m0: nat, m: nat, i: VertexId)
    reads g
  {
    StageState(g.vertices, g.adjacency, g.Edges, pool, m0, m, i)
  }

  /** `Stage`, stated on the graph's fields as values. */
  ghost predicate StageState(vertices: seq<VertexId>, adj: map<VertexId, set<VertexId>>,
                             edges: set<(VertexId, VertexId)>, pool: seq<VertexId>, m0: nat, m: nat, i: VertexId)
  {
    && m0 < i
    && ConsistentState(vertices, adj, edges, pool, m0)
    && vertices == IdsUpTo(if m == 0 then m0 else i - 1)
    && (forall a, b :: 1 <= a < b <= m0 ==> (a, b) in edges)
    && (forall v :: m0 < v < i ==> |Earlier(NeighboursIn(adj, v), v)| == m)
    && (forall v :: i <= v ==> NeighboursIn(adj, v) == {})
    && |edges| == PairCount(m0) + Times(i - 1 - m0, m)
  }

  /**
   * The state inside the rejection loop for vertex i after k links: as
   * `StageState`, except that i already has k earlier neighbours and is held
   * once it has at least one.
   */
  ghost predicate AttachingState(vertices: seq<VertexId>, adj: map<VertexId, set<VertexId>>,
                                 edges: set<(VertexId, VertexId)>, pool: seq<VertexId>,
                                 m0: nat, m: nat, i: VertexId, k: nat)
  {
    && m0 < i && k <= m
    && ConsistentState(vertices, adj, edges, pool, m0)
    && vertices == IdsUpTo(if 0 < k then i else if m == 0 then m0 else i - 1)
    && (forall a, b :: 1 <= a < b <= m0 ==> (a, b) in edges)
    && (forall v :: m0 < v < i ==> |Earlier(NeighboursIn(adj, v), v)| == m)
    && (forall v :: i < v ==> NeighboursIn(adj, v) == {})
    && |NeighboursIn(adj, i)| == k
    && (forall u :: u in NeighboursIn(adj, i) ==> u < i)
    && |edges| == PairCount(m0) + Times(i - 1 - m0, m) + k
  }

  /** Entering the rejection loop: no link made yet. */
  lemma StartAttaching(vertices: seq<VertexId>, adj: map<VertexId, set<VertexId>>,
                       edges: set<(VertexId, VertexId)>, pool: seq<VertexId>, m0: nat, m: nat, i: VertexId)
    requires StageState(vertices, adj, edges, pool, m0, m, i)
    ensures AttachingState(vertices, adj, edges, pool, m0, m, i, 0)
  {
    assert NeighboursIn(adj, i) == {};
  }

  /** Leaving the rejection loop after m links: the stage for vertex i + 1. */
  lemma FinishAttaching(vertices: seq<VertexId>, adj: map<VertexId, set<VertexId>>,
                        edges: set<(VertexId, VertexId)>, pool: seq<VertexId>, m0: nat, m: nat, i: VertexId)
    requires AttachingState(vertices, adj, edges, pool, m0, m, i, m)
    ensures StageState(vertices, adj, edges, pool, m0, m, i + 1)
  {
    assert Earlier(NeighboursIn(adj, i), i) == NeighboursIn(adj, i);
    assert Times(i - 1 - m0, m) + m == Times(i - m0, m);
  }

  /**
   * One accepted draw: s is in the pool, is not i and is not yet adjacent
   * to i. Holding 1..i, appending s and i to the pool and linking s with i
   * makes link k + 1.
   */
  lemma AttachStep(vertices: seq<VertexId>, adj: map<VertexId, set<VertexId>>,
                   edges: set<(VertexId, VertexId)>, pool: seq<VertexId>,
                   m0: nat, m: nat, i: VertexId, k: nat, s: VertexId)
    requires AttachingState(vertices, adj, edges, pool, m0, m, i, k)
    requires k < m && s in pool && s != i && s !in NeighboursIn(adj, i)
    ensures AttachingState(IdsUpTo(i), Link(adj, s, i), edges + {EdgeOf(s, i)},
                           pool + [s] + [i], m0, m, i, k + 1)
  {
    var held := if 0 < k then i else i - 1;
    assert vertices == IdsUpTo(held);
    IdsUpToFacts(held);
    IdsUpToFacts(i);
    assert 1 <= s < i by {
      assert s in vertices;
    }
    assert i !in NeighboursIn(adj, s) by {
      assert i in NeighboursIn(adj, s) <==> s in NeighboursIn(adj, i);
    }
    LinkKeepsEarlier(adj, s, i, m0, m);
    LinkKeepsConsistent(vertices, IdsUpTo(i), adj, edges, pool, m0, s, i);
    assert |edges + {EdgeOf(s, i)}| == |edges| + 1 by {
      assert EdgeOf(s, i) !in edges;
    }
  }

  /** Inserting i into 1..i-1 (no link yet) or into 1..i (linked already) gives 1..i. */
  lemma InsertNewest(vertices: seq<VertexId>, i: VertexId, k: nat, m0: nat, m: nat)
    requires m0 < i && k < m
    requires vertices == IdsUpTo(if 0 < k then i else i - 1)
    ensures Ascending(vertices)
    ensures Insert(vertices, i) == IdsUpTo(i)
  {
    IdsUpToFacts(i - 1);
    IdsUpToFacts(i);
    if k == 0 {
      InsertGreatest(vertices, i);
      assert IdsUpTo(i - 1) + [i] == IdsUpTo(i);
    }
  }

  /** After the clique loops have reached pair (i, j), exactly the earlier pairs are joined. */
  ghost predicate JoinedUpTo(edges: set<(VertexId, VertexId)>, n: nat, i: nat, j: nat)
  {
    forall a, b :: (a, b) in edges <==> 1 <= a < b <= n && (a < i || (a == i && b < j))
  }

  lemma JoinNext(edges: set<(VertexId, VertexId)>, n: nat, i: nat, j: nat)
    requires 1 <= i < j <= n
    requires JoinedUpTo(edges, n, i, j)
    ensures (i, j) !in edges
    ensures JoinedUpTo(edges + {(i, j)}, n, i, j + 1)
  {
  }

  /** Lines building K_m0: every pair i < j of seed ids joined, in lexicographic order. */
  method BuildSeedClique(g: AdjacencyListGraph, m0: nat)
    requires g.Valid() && g.vertices == IdsUpTo(m0) && g.Edges == {}
    modifies g
    ensures g.Valid() && g.vertices == IdsUpTo(m0)
    ensures forall a, b :: (a, b) in g.Edges <==> 1 <= a < b <= m0
    ensures |g.Edges| == PairCount(m0)
  {
    IdsUpToFacts(m0);
    var i := 1;
    while i < m0
      invariant 1 <= i <= Max(m0, 1)
      invariant g.Valid() && g.vertices == IdsUpTo(m0)
      invariant JoinedUpTo(g.Edges, m0, i, i + 1)
      invariant |g.Edges| == RowStart(m0, i)
    {
      var src := g.GetVertexById(i);
      var j := i + 1;
      while j <= m0
        invariant i + 1 <= j <= m0 + 1
        invariant g.Valid() && g.vertices == IdsUpTo(m0)
        invariant JoinedUpTo(g.Edges, m0, i, j)
        invariant |g.Edges| == RowStart(m0, i) + (j - i - 1)
      {
        var dst := g.GetVertexById(j);
        JoinNext(g.Edges, m0, i, j);
        assert !g.IsNeighbourOf(i, j) by {
          assert i in NeighboursIn(g.adjacency, j) <==> j in NeighboursIn(g.adjacency, i);
        }
        var st := g.AddEdge(src.value, dst.value);
        assert st == Added;
        j := j + 1;
      }
      assert JoinedUpTo(g.Edges, m0, i + 1, i + 2);
      i := i + 1;
    }
    assert JoinedUpTo(g.Edges, m0, m0 + 1, m0 + 2);
  }

  /** In K_m0 every seed vertex has degree m0 - 1 and every other id none. */
  lemma CliqueDegrees(g: AdjacencyListGraph, m0: nat)
    requires g.Valid()
    requires forall a, b :: (a, b) in g.Edges <==> 1 <= a < b <= m0
    ensures forall v :: 1 <= v <= m0 ==> |NeighboursIn(g.adjacency, v)| == m0 - 1
    ensures forall v: VertexId :: (v < 1 || m0 < v) ==> NeighboursIn(g.adjacency, v) == {}
  {
    IdsUpToFacts(m0);
    AscendingCard(IdsUpTo(m0));
    forall v: VertexId, u: VertexId
      ensures u in NeighboursIn(g.adjacency, v) <==> 1 <= u <= m0 && 1 <= v <= m0 && u != v
    {
      assert u in NeighboursIn(g.adjacency, v) <==> v in NeighboursIn(g.adjacency, u);
      assert (u, v) in g.Edges <==> u <= v && v in NeighboursIn(g.adjacency, u);
      assert (v, u) in g.Edges <==> v <= u && u in NeighboursIn(g.adjacency, v);
    }
    forall v: VertexId | 1 <= v <= m0
      ensures |NeighboursIn(g.adjacency, v)| == m0 - 1
    {
      var seed := Elems(IdsUpTo(m0));
      assert NeighboursIn(g.adjacency, v) == seed - {v};
      assert seed == (seed - {v}) + {v};
    }
    forall v: VertexId | v < 1 || m0 < v
      ensures NeighboursIn(g.adjacency, v) == {}
    {
      forall u: VertexId
        ensures u !in NeighboursIn(g.adjacency, v)
      {
      }
    }
  }

  /**
   * After the seed: K_m0 on the ids 1..m0 and m0 copies of each seed id in
   * the pool is the stage for the first new vertex m0 + 1.
   */
  lemma SeedStage(vertices: seq<VertexId>, adj: map<VertexId, set<VertexId>>,
                  edges: set<(VertexId, VertexId)>, pool: seq<VertexId>, m0: nat, m: nat)
    requires Symmetric(adj) && EdgesOf(edges, adj)
    requires vertices == IdsUpTo(m0)
    requires forall a, b :: (a, b) in edges <==> 1 <= a < b <= m0
    requires |edges| == PairCount(m0)
    requires forall v :: 1 <= v <= m0 ==> |NeighboursIn(adj, v)| == m0 - 1
    requires forall v: VertexId :: (v < 1 || m0 < v) ==> NeighboursIn(adj, v) == {}
    requires |pool| == m0 * m0
    requires forall v :: multiset(pool)[v] == (if 1 <= v <= m0 then m0 else 0)
    ensures StageState(vertices, adj, edges, pool, m0, m, m0 + 1)
  {
    IdsUpToFacts(m0);
    TimesIsProduct(m0, m0);
    forall x | x in pool
      ensures x in vertices
    {
      assert multiset(pool)[x] > 0;
    }
    forall v: VertexId
      ensures multiset(pool)[v] == Weight(m0, v, |NeighboursIn(adj, v)|)
    {
      assert multiset(pool)[v] == (if 1 <= v <= m0 then m0 else 0);
    }
  }

  /** Multiplying by the same factor keeps the order. */
  lemma {:induction false} MulMono(a: nat, b: nat, d: nat)
    requires a <= b
    ensures a * d <= b * d
  {
    if a < b {
      MulMono(a, b - 1, d);
      assert (b - 1) * d + d == b * d;
    }
  }

  /** Position r of block q, in blocks of d entries, lies in block q. */
  lemma BlockOf(q: nat, r: nat, d: nat)
    requires r < d
    ensures (q * d + r) / d == q
  {
    var x := q * d + r;
    var y: nat := x / d;
    assert x == y * d + x % d;
    assert (y + 1) * d == y * d + d;
    assert (q + 1) * d == q * d + d;
    if y < q {
      MulMono(y + 1, q, d);
    } else if q < y {
      MulMono(q + 1, y, d);
    }
  }

  /** The inner filling loop: c more copies of v at the end of the pool. */
  method PushCopies(pool0: seq<VertexId>, v: VertexId, c: nat) returns (pool: seq<VertexId>)
    ensures |pool| == |pool0| + c && pool[..|pool0|] == pool0
    ensures forall q :: |pool0| <= q < |pool| ==> pool[q] == v
    ensures multiset(pool) == multiset(pool0)[v := multiset(pool0)[v] + c]
  {
    pool := pool0;
    var k := 0;
    while k < c
      invariant 0 <= k <= c
      invariant |pool| == |pool0| + k && pool[..|pool0|] == pool0
      invariant forall q :: |pool0| <= q < |pool| ==> pool[q] == v
      invariant multiset(pool) == multiset(pool0)[v := multiset(pool0)[v] + k]
    {
      pool := pool + [v];
      k := k + 1;
    }
  }

  /**
   * Lines filling `vertexIndexes`: m0 copies of 1, then m0 copies of 2, and
   * so on up to m0, so entry k holds id k / m0 + 1.
   */
  method SeedPool(m0: nat) returns (pool: seq<VertexId>)
    ensures |pool| == m0 * m0
    ensures forall k :: 0 <= k < |pool| ==> pool[k] == k / m0 + 1
    ensures forall v :: multiset(pool)[v] == (if 1 <= v <= m0 then m0 else 0)
  {
    pool := [];
    var i := 1;
    while i <= m0
      invariant 1 <= i <= m0 + 1
      invariant |pool| == (i - 1) * m0
      invariant forall q :: 0 <= q < |pool| ==> pool[q] == q / m0 + 1
      invariant forall v :: multiset(pool)[v] == (if 1 <= v < i then m0 else 0)
    {
      var before := pool;
      pool := PushCopies(pool, i, m0);
      forall q | 0 <= q < |pool|
        ensures pool[q] == q / m0 + 1
      {
        if q < |before| {
          assert pool[q] == pool[..|before|][q];
        } else {
          BlockOf(i - 1, q - |before|, m0);
        }
      }
      assert (i - 1) * m0 + m0 == i * m0;
      i := i + 1;
    }
  }

  /**
   * The accepted branch of the rejection loop: append the target s and then
   * i to the pool, insert i (a no-op after its first link) and link s with
   * i. This is link k + 1 of vertex i.
   */
  method LinkNewVertex(g: AdjacencyListGraph, pool0: seq<VertexId>, m0: nat, m: nat, i: VertexId, k: nat,
                       s: VertexId)
    returns (pool: seq<VertexId>)
    requires AttachingState(g.vertices, g.adjacency, g.Edges, pool0, m0, m, i, k)
    requires k < m && s in pool0 && s != i && !g.IsNeighbourOf(s, i)
    modifies g
    ensures pool == pool0 + [s] + [i]
    ensures g.vertices == Insert(old(g.vertices), i)
    ensures g.adjacency == Link(old(g.adjacency), s, i)
    ensures g.Edges == old(g.Edges) + {EdgeOf(s, i)}
    ensures AttachingState(g.vertices, g.adjacency, g.Edges, pool, m0, m, i, k + 1)
  {
    InsertNewest(g.vertices, i, k, m0, m);
    AttachStep(g.vertices, g.adjacency, g.Edges, pool0, m0, m, i, k, s);
    pool := pool0 + [s];
    pool := pool + [i];
    assert g.Valid();
    g.AddVertex(i);
    var st := g.AddEdge(s, i);
    assert st == Added;
  }

  /**
   * One pass of the rejection loop for new vertex i: pick the pool entry the
   * draw selects and look it up. The draw is accepted exactly when the entry
   * is not i and not yet a neighbour of i; a rejected draw changes nothing,
   * an accepted one makes link k + 1 as `LinkNewVertex` does.
   */
  method TryDraw(g: AdjacencyListGraph, pool0: seq<VertexId>, m0: nat, m: nat, i: VertexId, k: nat, draw: nat)
    returns (pool: seq<VertexId>, index: VertexId, accepted: bool)
    requires AttachingState(g.vertices, g.adjacency, g.Edges, pool0, m0, m, i, k)
    requires k < m && 0 < |pool0|
    modifies g
    ensures index == pool0[draw % |pool0|]
    ensures accepted <==> index != i && index !in old(g.Neighbours(i))
    ensures !accepted ==> pool == pool0 && g.vertices == old(g.vertices)
                          && g.adjacency == old(g.adjacency) && g.Edges == old(g.Edges)
    ensures accepted ==> pool == pool0 + [index] + [i] && g.vertices == Insert(old(g.vertices), i)
                         && g.adjacency == Link(old(g.adjacency), index, i)
                         && g.Edges == old(g.Edges) + {EdgeOf(index, i)}
    ensures AttachingState(g.vertices, g.adjacency, g.Edges, pool, m0, m, i, if accepted then k + 1 else k)
  {
    index := pool0[draw % |pool0|];
    var selected := g.GetVertexById(index);
    accepted := index != i && !g.IsNeighbourOf(selected.value, i);
    if accepted {
      pool := LinkNewVertex(g, pool0, m0, m, i, k, selected.value);
    } else {
      pool := pool0;
    }
  }

  /**
   * The rejection loop for new vertex i: one `TryDraw` per draw, reading
   * the draws from index t0 on, until i has m links. It stops early with
   * `EmptyPool` on an empty pool and with `DrawsExhausted` when no draw is
   * left; on completion the state is the stage for vertex i + 1.
   */
  method AttachVertex(g: AdjacencyListGraph, pool0: seq<VertexId>, m0: nat, m: nat, i: VertexId,
                      draws: seq<nat>, t0: nat)
    returns (pool: seq<VertexId>, t: nat, outcome: Outcome)
    requires Stage(g, pool0, m0, m, i)
    requires t0 <= |draws|
    modifies g
    ensures outcome != Complete ==> Consistent(g, pool, m0)
    ensures t0 <= t <= |draws|
    ensures outcome == EmptyPool ==> pool == [] && m0 == 0 && 0 < m
    ensures outcome == DrawsExhausted ==> t == |draws|
    ensures outcome == Complete ==> Stage(g, pool, m0, m, i + 1)
  {
    pool, t, outcome := pool0, t0, Complete;
    StartAttaching(g.vertices, g.adjacency, g.Edges, pool, m0, m, i);
    var k := 0;
    while k < m
      invariant t0 <= t <= |draws|
      invariant AttachingState(g.vertices, g.adjacency, g.Edges, pool, m0, m, i, k)
      decreases |draws| - t
    {
      if |pool| == 0 {
        return pool, t, EmptyPool;
      }
      if t == |draws| {
        return pool, t, DrawsExhausted;
      }
      var index, accepted;
      pool, index, accepted := TryDraw(g, pool, m0, m, i, k, draws[t]);
      t := t + 1;
      if accepted {
        k := k + 1;
      }
    }
    FinishAttaching(g.vertices, g.adjacency, g.Edges, pool, m0, m, i);
  }

  /**
   * `generateBarabasiAlbertGraph`: the seed clique K_m0, the pool of m0
   * copies of each seed id, then for each new vertex i = m0+1..n the
   * rejection loop. Whatever the outcome, the pool weights equal the
   * degrees (plus one on seed vertices) and no edge is a self-loop; when
   * every vertex got its m links, the vertex set is 1..max(n, m0) (1..m0
   * when m = 0), each new vertex has exactly m earlier neighbours, there are
   * m0(m0-1)/2 + (max(n, m0) - m0)·m edges, and the graph is connected.
   */
  method GenerateBarabasiAlbert(m0: nat, m: nat, n: nat, draws: seq<nat>)
    returns (g: AdjacencyListGraph, pool: seq<VertexId>, outcome: Outcome)
    ensures fresh(g) && !g.isDigraph && !g.isMultigraph
    ensures Consistent(g, pool, m0)
    ensures forall v :: !g.IsNeighbourOf(v, v)
    ensures forall v :: multiset(pool)[v] == Weight(m0, v, g.Degree(v))
    ensures |pool| == m0 * m0 + 2 * (|g.Edges| - PairCount(m0))
    ensures outcome == EmptyPool ==> m0 == 0 && 0 < m && 0 < n
    ensures outcome == Complete ==> g.vertices == IdsUpTo(if m == 0 then m0 else Max(n, m0))
    ensures outcome == Complete ==> forall a, b :: 1 <= a < b <= m0 ==> (a, b) in g.Edges
    ensures outcome == Complete ==> forall v :: m0 < v <= n ==> |Earlier(g.Neighbours(v), v)| == m
    ensures outcome == Complete ==> |g.Edges| == PairCount(m0) + (Max(n, m0) - m0) * m
    ensures outcome == Complete ==> forall u, v :: u in g.vertices && v in g.vertices ==> Connected(g.adjacency, u, v)
  {
    g, pool := SeedGraph(m0, m);
    pool, outcome := AttachAll(g, pool, m0, m, n, draws);
    ConsistentFacts(g, pool, m0);
    if outcome == Complete {
      CompleteFacts(g, pool, m0, m, n);
    }
  }

  /**
   * The outer loop over the new vertices i = m0+1..n, each running the
   * rejection loop on the shared draw stream; a run that cannot complete
   * stops at the vertex where it failed.
   */
  method AttachAll(g: AdjacencyListGraph, pool0: seq<VertexId>, m0: nat, m: nat, n: nat, draws: seq<nat>)
    returns (pool: seq<VertexId>, outcome: Outcome)
    requires Stage(g, pool0, m0, m, m0 + 1)
    modifies g
    ensures outcome != Complete ==> Consistent(g, pool, m0)
    ensures outcome == EmptyPool ==> m0 == 0 && 0 < m && 0 < n
    ensures outcome == Complete ==> Stage(g, pool, m0, m, Max(n, m0) + 1)
  {
    pool, outcome := pool0, Complete;
    var t := 0;
    var i := m0 + 1;
    while i <= n && outcome == Complete
      invariant m0 + 1 <= i <= Max(n, m0) + 1
      invariant t <= |draws|
      invariant outcome == Complete ==> Stage(g, pool, m0, m, i)
      invariant outcome != Complete ==> Consistent(g, pool, m0)
      invariant outcome == EmptyPool ==> m0 == 0 && 0 < m && 0 < n
      decreases n + 1 - i, if outcome == Complete then 1 else 0
    {
      pool, t, outcome := AttachVertex(g, pool, m0, m, i, draws, t);
      if outcome == Complete {
        i := i + 1;
      }
    }
  }

  /**
   * The seed: K_m0 on the ids 1..m0 (inserted in order, then joined pair by
   * pair) and the pool of m0 copies of each seed id.
   */
  method SeedGraph(m0: nat, m: nat) returns (g: AdjacencyListGraph, pool: seq<VertexId>)
    ensures fresh(g) && !g.isDigraph && !g.isMultigraph
    ensures Stage(g, pool, m0, m, m0 + 1)
  {
    g := new AdjacencyListGraph(false, false);
    InsertVertices(g, m0);
    BuildSeedClique(g, m0);
    pool := SeedPool(m0);
    CliqueDegrees(g, m0);
    SeedStage(g.vertices, g.adjacency, g.Edges, pool, m0, m);
  }

  /**
   * Whatever the outcome: no vertex is its own neighbour, every id is in the
   * pool as many times as its weight, and the pool grew by two per link.
   */
  lemma ConsistentFacts(g: AdjacencyListGraph, pool: seq<VertexId>, m0: nat)
    requires Consistent(g, pool, m0)
    ensures forall v :: !g.IsNeighbourOf(v, v)
    ensures forall v :: multiset(pool)[v] == Weight(m0, v, g.Degree(v))
    ensures |pool| == m0 * m0 + 2 * (|g.Edges| - PairCount(m0))
  {
    TimesIsProduct(m0, m0);
    forall v: VertexId
      ensures !g.IsNeighbourOf(v, v)
    {
      assert (v, v) in g.Edges <==> v in g.Neighbours(v);
    }
  }

  /**
   * When every new vertex up to n got its m links: the vertex set is 1..n
   * (1..m0 when m = 0 or n < m0), the seed clique is intact, each new vertex
   * has exactly m earlier neighbours, and the edge count is
   * m0(m0-1)/2 + (max(n, m0) - m0)·m.
   */
  lemma CompleteFacts(g: AdjacencyListGraph, pool: seq<VertexId>, m0: nat, m: nat, n: nat)
    requires Stage(g, pool, m0, m, Max(n, m0) + 1)
    ensures g.vertices == IdsUpTo(if m == 0 then m0 else Max(n, m0))
    ensures forall a, b :: 1 <= a < b <= m0 ==> (a, b) in g.Edges
    ensures forall v :: m0 < v <= n ==> |Earlier(g.Neighbours(v), v)| == m
    ensures |g.Edges| == PairCount(m0) + (Max(n, m0) - m0) * m
    ensures forall u, v :: u in g.vertices && v in g.vertices ==> Connected(g.adjacency, u, v)
  {
    TimesIsProduct(Max(n, m0) - m0, m);
    StageConnected(g.vertices, g.adjacency, g.Edges, pool, m0, m, Max(n, m0) + 1);
  }

  /** w is a walk in the graph: each vertex after the first is a neighbour of the one before it. */
  ghost predicate Walk(adj: map<VertexId, set<VertexId>>, w: seq<VertexId>)
  {
    forall j :: 0 <= j < |w| - 1 ==> w[j + 1] in NeighboursIn(adj, w[j])
  }

  /** Some walk leads from u to v. */
  ghost predicate Connected(adj: map<VertexId, set<VertexId>>, u: VertexId, v: VertexId)
  {
    exists w :: Walk(adj, w) && 0 < |w| && w[0] == u && w[|w| - 1] == v
  }

  /**
   * In a stage, every held vertex v has a walk to vertex 1 and one back:
   * a seed vertex is adjacent to 1 through the clique, and a later vertex
   * has an earlier neighbour (it has m >= 1 of them), which is held.
   */
  lemma {:induction false} SeedWalks(vertices: seq<VertexId>, adj: map<VertexId, set<VertexId>>,
                                     edges: set<(VertexId, VertexId)>, pool: seq<VertexId>,
                                     m0: nat, m: nat, i: VertexId, v: VertexId)
    returns (up: seq<VertexId>, down: seq<VertexId>)
    requires StageState(vertices, adj, edges, pool, m0, m, i)
    requires v in vertices
    ensures Walk(adj, up) && 0 < |up| && up[0] == v && up[|up| - 1] == 1
    ensures Walk(adj, down) && 0 < |down| && down[0] == 1 && down[|down| - 1] == v
    decreases v
  {
    IdsUpToFacts(if m == 0 then m0 else i - 1);
    if v == 1 {
      up, down := [1], [1];
    } else if v <= m0 {
      assert (1, v) in edges;
      assert 1 in NeighboursIn(adj, v);
      up, down := [v, 1], [1, v];
    } else {
      assert 0 < |Earlier(NeighboursIn(adj, v), v)|;
      var u :| u in Earlier(NeighboursIn(adj, v), v);
      assert (u, v) in edges by {
        assert v in NeighboursIn(adj, u);
      }
      var up', down' := SeedWalks(vertices, adj, edges, pool, m0, m, i, u);
      up, down := [v] + up', down' + [v];
      assert v in NeighboursIn(adj, u);
      assert forall j :: 0 <= j < |up| - 1 ==> up[j + 1] in NeighboursIn(adj, up[j]) by {
        forall j | 1 <= j < |up| - 1
          ensures up[j + 1] in NeighboursIn(adj, up[j])
        {
          assert up[j] == up'[j - 1] && up[j + 1] == up'[j];
        }
      }
      assert forall j :: 0 <= j < |down| - 1 ==> down[j + 1] in NeighboursIn(adj, down[j]) by {
        forall j | 0 <= j < |down| - 2
          ensures down[j + 1] in NeighboursIn(adj, down[j])
        {
          assert down[j] == down'[j] && down[j + 1] == down'[j + 1];
        }
      }
    }
  }

  /** In a stage, any two held vertices are joined by a walk through vertex 1. */
  lemma StageConnected(vertices: seq<VertexId>, adj: map<VertexId, set<VertexId>>,
                       edges: set<(VertexId, VertexId)>, pool: seq<VertexId>, m0: nat, m: nat, i: VertexId)
    requires StageState(vertices, adj, edges, pool, m0, m, i)
    ensures forall u, v :: u in vertices && v in vertices ==> Connected(adj, u, v)
  {
    forall u, v | u in vertices && v in vertices
      ensures Connected(adj, u, v)
    {
      var up, _ := SeedWalks(vertices, adj, edges, pool, m0, m, i, u);
      var _, down := SeedWalks(vertices, adj, edges, pool, m0, m, i, v);
      var w := up + down[1..];
      forall j | 0 <= j < |w| - 1
        ensures w[j + 1] in NeighboursIn(adj, w[j])
      {
        if j < |up| - 1 {
          assert w[j] == up[j] && w[j + 1] == up[j + 1];
        } else {
          assert w[j] == down[j - |up| + 1] && w[j + 1] == down[j - |up| + 2];
        }
      }
      assert Walk(adj, w) && w[0] == u && w[|w| - 1] == v;
    }
  }

  /**
   * A complete run with new vertices needs m <= m0: the first new vertex
   * m0 + 1 can only link to the m0 seed vertices. With m > m0 the rejection
   * loop for vertex m0 + 1 never finishes.
   */
  lemma CompletionNeedsEnoughSeeds(g: AdjacencyListGraph, pool: seq<VertexId>, m0: nat, m: nat, n: nat)
    requires Consistent(g, pool, m0)
    requires m0 < n && g.vertices == IdsUpTo(n)
    requires |Earlier(g.Neighbours(m0 + 1), m0 + 1)| == m
    ensures m <= m0
  {
    IdsUpToFacts(n);
    IdsUpToFacts(m0);
    AscendingCard(IdsUpTo(m0));
    var early := Earlier(g.Neighbours(m0 + 1), m0 + 1);
    forall u | u in early
      ensures u in Elems(IdsUpTo(m0))
    {
      assert (u, m0 + 1) in g.Edges;
    }
    assert early <= Elems(IdsUpTo(m0));
    SubsetCard(early, Elems(IdsUpTo(m0)));
  }

  /** A subset is no larger than the set holding it. */
  lemma {:induction false} SubsetCard(a: set<VertexId>, b: set<VertexId>)
    requires a <= b
    ensures |a| <= |b|
  {
    if a != {} {
      var x :| x in a;
      SubsetCard(a - {x}, b - {x});
    }
  }
}
