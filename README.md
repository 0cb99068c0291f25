# Graph core of the complex-network toolkit, modelled in Dafny

This project models the graph core of a complex-network analysis toolkit:

- the adjacency-list graph container, `AdjacencyListGraph` (file `graph.dfy`, module `AdjacencyList`);
- the two discrete graph generators of `GraphGenerator` (file `generator.dfy`, module `GraphGenerator`):
  - Erdős–Rényi: vertices 1..n and one coin per unordered pair;
  - Barabási–Albert: a seed clique K_m0, then preferential attachment through a pool of vertex ids that is sampled with rejection.

The graph is a class:

- `vertices` is the vertex set, held in the iteration order of the `std::set` with `VertexComparator`, which is ascending id.
- `adjacency` maps each vertex id to the ids of its neighbours.
- a ghost `Edges` lists every edge once, as (smaller id, larger id).
- `Valid()` ties these together: ascending ids, mutual adjacency, and `Edges` matching `adjacency`.

The generators are methods with the source's loops. They build a fresh graph through `AddVertex`, `AddEdge` and `GetVertexById`, exactly as the source calls `addVertex`, `addEdge` and `getVertexById`.

The process-wide random stream is replaced by explicit oracle parameters:

- Erdős–Rényi reads `coins: seq<bool>`. Coin k is the outcome of the k-th comparison `(float) rand() / RAND_MAX <= p`, one per pair, in the order the nested loops visit the pairs.
- Barabási–Albert reads `draws: seq<nat>` and picks `pool[draw % |pool|]`, as `vertexIndexes[rand() % vertexIndexes.size()]` does.

The source's rejection loop `while (k < m)` has no bound. In the model the draw stream is finite:

- In the method bodies, the rejection loop stops with `DrawsExhausted` when no draw is left. This stands for the source drawing for ever, or until the stream would have produced an accepted draw. The contracts do not guarantee this reading (see `AttachAll` under "## Left out").
- A draw from an empty pool stops with `EmptyPool`. That is `rand() % 0` in the source, which is undefined, and happens only when m0 = 0 and m > 0.

What is proved:

- the container keeps ids ascending;
- adding a vertex that is already held changes nothing;
- `addEdge` reports `DuplicateEdge` exactly when the two vertices are already adjacent, and then changes nothing;
- otherwise `addEdge` adds exactly the symmetric pair of back-references and one edge;
- `getVertexById` is correct and complete;
- Erdős–Rényi produces, before the pruning step, exactly the vertices 1..n, with an edge {i, j} exactly when the coin of pair (i, j) accepted, and never triggers `DuplicateEdge`;
- Barabási–Albert keeps a pool in which each id occurs as many times as its degree, plus one for a seed id, and whose length is m0² plus two per link made after the seed;
- Barabási–Albert has no self-loops and never triggers `DuplicateEdge`;
- Barabási–Albert draws are specified one at a time: a draw selects `pool[draw % |pool|]`, it is accepted exactly when that id is neither the new vertex nor already its neighbour, a rejected draw changes nothing, and an accepted one appends the id and the new vertex to the pool and links the two;
- the seed pool holds m0 copies of 1, then m0 copies of 2, and so on up to m0;
- on completion of a Barabási–Albert run:
  - each new vertex has exactly m neighbours with smaller ids;
  - the vertex set is 1..max(n, m0), or 1..m0 when m = 0;
  - there are m0(m0-1)/2 + (max(n, m0) − m0)·m edges;
  - the graph is connected: a walk joins any two of its vertices;
  - completion with any new vertex requires m <= m0.

Three behaviours of the code are worth stating outright:

- `addVertex` does no id check of its own. The default container is a `std::set` ordered by id, so inserting an id that is already present leaves the set unchanged. `AddVertex` models that, and Barabási–Albert relies on it when it calls `addVertex(newVertex)` on every successful link.
- In Barabási–Albert a new vertex enters the graph only on its first link. With m = 0 no new vertex is inserted, and only the m0 seed vertices are present. `GenerateBarabasiAlbert` states this.
- Barabási–Albert can complete with m = m0: the first new vertex then links to every seed vertex. It cannot complete with m > m0 once a new vertex exists; `CompletionNeedsEnoughSeeds` proves that bound.

## Model

| member | source | states |
|---|---|---|
| AdjacencyList.PrecedesIsStrictTotalOrder | src/ComplexNets/AdjacencyListGraph.h:12-23 | The comparator (smaller id first) is irreflexive and transitive, and ids that neither precedes are equal, so the set holds one vertex per id |
| AdjacencyList.Insert | src/ComplexNets/AdjacencyListGraph.h:36 | Insertion into the ordered set keeps it ascending, its members are the old ones plus v, an id already present leaves it unchanged, and a new id makes it one longer |
| AdjacencyList.InsertGreatest | src/ComplexNets/AdjacencyListGraph.h:36 | Inserting an id larger than every held id appends it at the end of the iteration order |
| AdjacencyList.AscendingDeterminedByMembers | src/ComplexNets/AdjacencyListGraph.h:36 | Two ascending vertex sequences with the same members are equal: the container's content does not depend on insertion order |
| AdjacencyList.AscendingCard | src/ComplexNets/AdjacencyListGraph.h:36 | An ascending sequence holds no id twice: its length is its number of distinct ids |
| AdjacencyList.Link | src/ComplexNets/AdjacencyListGraph.h:85-86 | The two back-references add d to the neighbours of s and s to those of d, and change no other vertex's neighbours |
| AdjacencyList.LinkKeepsInvariant | src/ComplexNets/AdjacencyListGraph.h:80-87 | Linking keeps adjacency mutual and adds exactly the unordered edge {s, d} to the edge set |
| AdjacencyList.AdjacencyListGraph.constructor | src/ComplexNets/AdjacencyListGraph.h:45-49 | Stores the digraph and multigraph flags; the graph starts valid, with no vertices and no edges |
| AdjacencyList.AdjacencyListGraph.AddVertex | src/ComplexNets/AdjacencyListGraph.h:67-71 | The vertex set becomes the ordered insertion of v: members old plus v, unchanged when v's id is already held; adjacency and edges unchanged |
| AdjacencyList.AdjacencyListGraph.AddEdge | src/ComplexNets/AdjacencyListGraph.h:80-87 | `DuplicateEdge` exactly when s is already a neighbour of d, and then nothing changes; otherwise d joins s's neighbours and s joins d's, nothing else changes, and the edge count grows by one; the vertex set never changes and the flags play no part |
| AdjacencyList.AdjacencyListGraph.VerticesCount | src/ComplexNets/AdjacencyListGraph.h:117-120 | The count is the number of distinct vertices held |
| AdjacencyList.AdjacencyListGraph.GetVertexById | src/ComplexNets/AdjacencyListGraph.h:139-155 | The linear scan returns a held vertex with the requested id, and returns none (NULL) exactly when no held vertex has that id |
| GraphGenerator.IdsUpToFacts | src/ComplexNets/GraphGenerator.cpp:60-62 | The ids 1..n in order form an ascending vertex sequence of length n holding exactly the ids 1..n |
| GraphGenerator.InsertVertices | src/ComplexNets/GraphGenerator.cpp:60-62 | Adding vertices 1..n one by one to an empty graph yields exactly the vertex set 1..n and adds no edges |
| GraphGenerator.RowStartClosedForm | src/ComplexNets/GraphGenerator.cpp:64-73 | The number of pairs visited before row i is (i-1)(2n-i)/2 |
| GraphGenerator.PairCountClosedForm | src/ComplexNets/GraphGenerator.cpp:64-73 | The nested pair loops make n(n-1)/2 draws |
| GraphGenerator.DrawIndex | src/ComplexNets/GraphGenerator.cpp:64-73 | The draw deciding pair (i, j) lies within row i's block of draws and before the total number of draws |
| GraphGenerator.DrawIndexOrdered | src/ComplexNets/GraphGenerator.cpp:64-73 | Pairs visited later read strictly later draws, so each pair is considered exactly once, with its own coin |
| GraphGenerator.AcceptedStep | src/ComplexNets/GraphGenerator.cpp:70-71 | Reading one more coin adds an edge to the count exactly when that coin accepts |
| GraphGenerator.DecideNext | src/ComplexNets/GraphGenerator.cpp:70-71 | Deciding pair (i, j) adds the edge exactly when its coin accepts, the pair was not present before, and the edge count stays equal to the accepting coins read so far |
| GraphGenerator.ErdosRenyiPair | src/ComplexNets/GraphGenerator.cpp:67-72 | One inner step looks up vertex j and links it to i exactly when the coin accepts, without `DuplicateEdge`; edges are then decided up to the next pair |
| GraphGenerator.ErdosRenyiRow | src/ComplexNets/GraphGenerator.cpp:64-73 | Row i reads the coins of pairs (i, i+1..n) and leaves the edges decided through the end of row i, the count equal to the accepting coins read |
| GraphGenerator.GenerateErdosRenyi | src/ComplexNets/GraphGenerator.cpp:56-73 | A fresh undirected simple graph with vertex set exactly 1..n, an edge {a, b} exactly when the coin of pair (a, b) accepted, no self-loops, and as many edges as accepting coins |
| GraphGenerator.ErdosRenyiAllAccept | src/ComplexNets/GraphGenerator.cpp:70-71 | With an always-accepting oracle every pair is an edge and there are n(n-1)/2 edges: the complete graph |
| GraphGenerator.ErdosRenyiAllReject | src/ComplexNets/GraphGenerator.cpp:70-71 | With an always-rejecting oracle no pair is an edge |
| GraphGenerator.JoinNext | src/ComplexNets/GraphGenerator.cpp:91-95 | Joining pair (i, j) in the clique loops adds a pair not yet present and advances the joined prefix by one pair |
| GraphGenerator.BuildSeedClique | src/ComplexNets/GraphGenerator.cpp:88-96 | The seed loops join every pair a < b of ids 1..m0 and nothing else, m0(m0-1)/2 edges, without `DuplicateEdge` |
| GraphGenerator.CliqueDegrees | src/ComplexNets/GraphGenerator.cpp:88-96 | In K_m0 every seed vertex has degree m0-1 and every other id none |
| GraphGenerator.PushCopies | src/ComplexNets/GraphGenerator.cpp:101-102 | The inner loop appends c copies of v after the existing pool, which it leaves in place, and adds c to v's multiplicity |
| GraphGenerator.SeedPool | src/ComplexNets/GraphGenerator.cpp:99-102 | The pool is m0 copies of 1, then m0 copies of 2, up to m0 (entry k is k / m0 + 1); it holds each seed id m0 times and nothing else, and its length is m0² |
| GraphGenerator.SeedStage | src/ComplexNets/GraphGenerator.cpp:86-102 | The seed clique with its pool is the stage before the first new vertex m0+1: each id's pool multiplicity is its weight |
| GraphGenerator.SeedGraph | src/ComplexNets/GraphGenerator.cpp:84-102 | A fresh undirected graph holding the seed clique and its pool, in the stage for vertex m0+1 |
| GraphGenerator.LinkKeepsWeights | src/ComplexNets/GraphGenerator.cpp:115-118 | Appending the target and then the new id while linking them keeps every id's pool multiplicity equal to its degree, plus one for a seed id |
| GraphGenerator.LinkKeepsEarlier | src/ComplexNets/GraphGenerator.cpp:113-119 | Linking the new vertex to an earlier one leaves every earlier vertex's count of smaller neighbours as it was, and every later id without neighbours |
| GraphGenerator.LinkKeepsConsistent | src/ComplexNets/GraphGenerator.cpp:113-119 | An accepted draw keeps the run consistent: valid graph, edges between distinct held vertices, pool within the vertex set, weights equal to multiplicities, pool length m0² plus two per link |
| GraphGenerator.StartAttaching | src/ComplexNets/GraphGenerator.cpp:106-108 | Entering the rejection loop for vertex i, it has no links yet |
| GraphGenerator.AttachStep | src/ComplexNets/GraphGenerator.cpp:113-120 | A draw that is not i and not yet adjacent to i becomes link k+1 of i, to a smaller id, with i held from then on |
| GraphGenerator.InsertNewest | src/ComplexNets/GraphGenerator.cpp:117 | `addVertex(newVertex)` adds i after 1..i-1 on the first link and is a no-op on later links |
| GraphGenerator.FinishAttaching | src/ComplexNets/GraphGenerator.cpp:108-121 | After m links, vertex i has exactly m neighbours, all with smaller ids: the stage for vertex i+1 |
| GraphGenerator.LinkNewVertex | src/ComplexNets/GraphGenerator.cpp:113-120 | The accepted branch appends the target and then i to the pool, inserts i, links the two without `DuplicateEdge`, and makes link k+1 |
| GraphGenerator.TryDraw | src/ComplexNets/GraphGenerator.cpp:110-120 | One draw selects pool entry `draw % |pool|`; it is accepted exactly when that id is not i and not already a neighbour of i; a rejected draw leaves the graph and the pool unchanged; an accepted one appends the id and then i to the pool, inserts i, links the two and makes link k+1 |
| GraphGenerator.AttachVertex | src/ComplexNets/GraphGenerator.cpp:106-121 | On completion, i has exactly m smaller neighbours: the stage for i+1. Otherwise the run stays consistent, `EmptyPool` means the pool is empty (m0 = 0, m > 0), and `DrawsExhausted` comes with the read position at the end of the draws; the contract does not say which draws were read or accepted |
| GraphGenerator.AttachAll | src/ComplexNets/GraphGenerator.cpp:104-122 | The outer loop over i = m0+1..n ends in the stage after the last vertex when every rejection loop completes; otherwise the run stays consistent. The contract does not mention the draws |
| GraphGenerator.GenerateBarabasiAlbert | src/ComplexNets/GraphGenerator.cpp:82-125 | A fresh undirected graph; no self-loops; each id's pool multiplicity is its degree, plus one for a seed id; pool length m0² plus two per post-seed edge. On completion: vertex set 1..max(n, m0) (1..m0 when m = 0), the seed clique present, each new vertex with exactly m smaller neighbours, m0(m0-1)/2 + (max(n, m0) − m0)·m edges, and any two vertices joined by a walk. The contract does not say when a run stops short of completion |
| GraphGenerator.ConsistentFacts | src/ComplexNets/GraphGenerator.cpp:99-116 | In every consistent state no vertex is its own neighbour, multiplicities equal weights by degree, and the pool length is m0² plus two per post-seed edge |
| GraphGenerator.CompleteFacts | src/ComplexNets/GraphGenerator.cpp:104-122 | After the last new vertex: the vertex set, the seed clique, m smaller neighbours per new vertex, the closed-form edge count, and connectivity |
| GraphGenerator.SeedWalks | src/ComplexNets/GraphGenerator.cpp:86-122 | Every held vertex has a walk to vertex 1 and a walk back: a seed vertex through the clique, a later vertex through one of its m >= 1 earlier neighbours |
| GraphGenerator.StageConnected | src/ComplexNets/GraphGenerator.cpp:86-122 | At every stage of a run any two held vertices are joined by a walk, so the generated graph is connected |
| GraphGenerator.CompletionNeedsEnoughSeeds | src/ComplexNets/GraphGenerator.cpp:104-121 | If vertex m0+1 completed its m links, then m <= m0: with m > m0 the rejection loop for the first new vertex can never finish |

## Left out

- Pruning to the largest component after Erdős–Rényi (`ConexityVerifier::getBiggestComponent`): the verifier's code is not part of this model. Erdős–Rényi properties are stated for the graph before pruning, and connectivity is not claimed.
- The HOT Extended generator, the file-based generators and the Molloy–Reed generator: floating-point weights, breadth-first hop counts and file readers that are not part of this model.
- `distanceBetweenVertex` and `addVertexPosition`: floating-point geometry.
- The `getInstance` singleton and the graph destructor: memory management only.
- The `isDigraph()` and `isMultigraph()` accessors: they return the member function instead of the stored flag, so they are ill-formed as written. The stored flags are modelled as constants.
- Iterators (`verticesIterator`, `verticesConstIterator`): only their ascending order is modelled, through the order of `vertices`.
- The random source and the float comparison `(float) rand() / RAND_MAX <= p`: replaced by the coin and draw oracles.
- GenerateErdosRenyi: requires at least n(n-1)/2 coins, one per pair. The oracle must cover every draw the loops make.
- AttachVertex: its contract does not constrain when the rejection loop fails. It does not say which draws were read or accepted, and a body that returns `DrawsExhausted` at once, with the pool unchanged and the read position at the end of the draws, meets it. Only the contract of `TryDraw`, which the loop calls once per draw, ties one draw to its effect on the graph and the pool. A whole-loop relation to the draw sequence is not stated: its proof next to the attachment-state invariant does not fit within the verification resource bound.
- AttachAll: its contract never mentions `draws` and does not tie the outcome to the rejection loops of cpp:106-121. A body that returns `DrawsExhausted` at once, with the seed graph and pool unchanged, meets it. The reason is the one given for AttachVertex.
- GenerateBarabasiAlbert: its contract does not constrain when a run fails. A run that returns `DrawsExhausted` straight after building the seed clique meets it. What the contract guarantees on `Complete` holds, but nothing forces `Complete` for any draw sequence, and the graph a run produces is not defined as one function of the draws. Only `TryDraw`'s contract ties one draw to its effect.
- AttachVertex: the unbounded rejection loop is modelled on a finite draw stream. Non-termination, when m exceeds the eligible targets, shows up only as `DrawsExhausted`.
- GenerateBarabasiAlbert: `rand() % 0` on an empty pool is undefined behaviour in the source. The model stops with `EmptyPool` instead.
- GenerateBarabasiAlbert: returns the pool for its contracts. The source clears `vertexIndexes` before returning.
- 32-bit `unsigned int` arithmetic: ids, loop counters and `m_0 + 1` are unbounded naturals. Wrap-around for n = 2³²−1, where `i <= n` never fails, is not modelled.
- Vertex objects: a vertex is its id. `new Vertex(i)` and object identity are not modelled, and `getVertexById` returns the id. Two distinct objects with the same id cannot arise in the generators.
- The constructor's default arguments (`isDigraph = true`, `isMultigraph = true`): the model's constructor takes both flags explicitly. Both generators pass `false, false`, so no call in the core relies on the defaults.
- `DuplicateEdge` is a returned status rather than an exception. The generators assert that it never occurs.
