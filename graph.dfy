/**
 * The adjacency-list graph container: a collection of vertices kept in a
 * set ordered by vertex id, each vertex holding the set of its neighbours.
 *
 * A vertex is identified by its id. The neighbour set belongs to the vertex
 * object, not to the container, so a vertex that was created but not yet
 * inserted (the Barabási–Albert generator's `newVertex`) still has one; here
 * `adjacency` maps each vertex id that has neighbours to that set and every
 * other id has none.
 */
module AdjacencyList {

  type VertexId = nat

  datatype Option<T> = None | Some(value: T)

  /** Outcome of `addEdge`: either done, or the `DuplicateEdge` exception. */
  datatype EdgeStatus = Added | DuplicateEdge

  /** The `VertexComparator`: `v1` comes before `v2` when its id is smaller. */
  predicate Precedes(v1: VertexId, v2: VertexId)
  {
    v1 < v2
  }

  /**
   * The comparator is a strict total order on ids, and two vertices that
   * neither precedes are the same id: the set therefore keeps at most one
   * vertex per id.
   */
  lemma PrecedesIsStrictTotalOrder(a: VertexId, b: VertexId, c: VertexId)
    ensures !Precedes(a, a)
    ensures Precedes(a, b) && Precedes(b, c) ==> Precedes(a, c)
    ensures !Precedes(a, b) && !Precedes(b, a) ==> a == b
  {
  }

  /** Iteration order of the vertex set: strictly ascending by the comparator. */
  ghost predicate Ascending(s: seq<VertexId>)
  {
    forall i, j :: 0 <= i < j < |s| ==> Precedes(s[i], s[j])
  }

  ghost function Elems(s: seq<VertexId>): set<VertexId>
  {
    set x | x in s
  }

  /**
   * Insertion into the ordered vertex set: the new id goes in its place by
   * the comparator, and an id already present leaves the set as it was.
   */
  function Insert(s: seq<VertexId>, v: VertexId): (r: seq<VertexId>)
    requires Ascending(s)
    ensures Ascending(r)
    ensures forall x :: x in r <==> x in s || x == v
    ensures v in s ==> r == s
    ensures v !in s ==> |r| == |s| + 1
  {
    if s == [] then [v]
    else if !Precedes(v, s[0]) && !Precedes(s[0], v) then s
    else if Precedes(v, s[0]) then [v] + s
    else
      var rest := Insert(s[1..], v);
      assert forall k :: 0 <= k < |rest| ==> rest[k] in rest;
      AscendingCons(s[0], rest);
      [s[0]] + rest
  }

  /** An id smaller than every id of an ascending sequence can go in front of it. */
  lemma AscendingCons(h: VertexId, t: seq<VertexId>)
    requires Ascending(t) && forall x :: x in t ==> Precedes(h, x)
    ensures Ascending([h] + t)
  {
  }

  /** Inserting an id larger than every stored id appends it. */
  lemma {:induction false} InsertGreatest(s: seq<VertexId>, v: VertexId)
    requires Ascending(s)
    requires forall x :: x in s ==> Precedes(x, v)
    ensures Insert(s, v) == s + [v]
  {
    if s != [] {
      assert Precedes(s[0], v) by { assert s[0] in s; }
      assert Insert(s, v) == [s[0]] + Insert(s[1..], v);
      InsertGreatest(s[1..], v);
      assert s == [s[0]] + s[1..];
    }
  }

  /**
   * The ordered container is determined by its members: two ascending
   * sequences holding the same ids are the same sequence, whatever order the
   * ids were inserted in.
   */
  lemma {:induction false} AscendingDeterminedByMembers(a: seq<VertexId>, b: seq<VertexId>)
    requires Ascending(a) && Ascending(b)
    requires forall x :: x in a <==> x in b
    ensures a == b
  {
    assert |a| > 0 ==> a[0] in b;
    assert |b| > 0 ==> b[0] in a;
    if a != [] {
      assert a[0] in b;
      assert b[0] in a;
      assert a[0] == b[0];
      forall x
        ensures x in a[1..] <==> x in b[1..]
      {
        if x in a[1..] {
          var i :| 1 <= i < |a| && a[i] == x;
          assert x in b;
          assert x != b[0];
        }
        if x in b[1..] {
          var j :| 1 <= j < |b| && b[j] == x;
          assert x in a;
          assert x != a[0];
        }
      }
      AscendingDeterminedByMembers(a[1..], b[1..]);
      assert a == [a[0]] + a[1..] && b == [b[0]] + b[1..];
    }
  }

  /** An ascending sequence holds no id twice: its length is its number of members. */
  lemma {:induction false} AscendingCard(s: seq<VertexId>)
    requires Ascending(s)
    ensures |Elems(s)| == |s|
  {
    if s != [] {
      AscendingCard(s[1..]);
      assert Elems(s) == Elems(s[1..]) + {s[0]};
      assert s[0] !in Elems(s[1..]);
    }
  }

  /** The unordered edge {s, d}, written with its smaller endpoint first. */
  function EdgeOf(s: VertexId, d: VertexId): (VertexId, VertexId)
  {
    if s <= d then (s, d) else (d, s)
  }

  /** Neighbours of `v` under an adjacency map; an id without entry has none. */
  function NeighboursIn(adj: map<VertexId, set<VertexId>>, v: VertexId): set<VertexId>
  {
    if v in adj then adj[v] else {}
  }

  /** Adjacency is mutual: `u` is a neighbour of `w` exactly when `w` is one of `u`. */
  ghost predicate Symmetric(adj: map<VertexId, set<VertexId>>)
  {
    forall u, w :: u in NeighboursIn(adj, w) <==> w in NeighboursIn(adj, u)
  }

  /** `edges` lists each adjacent pair once, smaller endpoint first. */
  ghost predicate EdgesOf(edges: set<(VertexId, VertexId)>, adj: map<VertexId, set<VertexId>>)
  {
    forall a, b :: (a, b) in edges <==> a <= b && b in NeighboursIn(adj, a)
  }

  /** The two back-references `s->addEdge(d); d->addEdge(s)`. */
  function Link(adj: map<VertexId, set<VertexId>>, s: VertexId, d: VertexId): (r: map<VertexId, set<VertexId>>)
    ensures NeighboursIn(r, s) == NeighboursIn(adj, s) + {d}
    ensures NeighboursIn(r, d) == NeighboursIn(adj, d) + {s}
    ensures forall v :: v != s && v != d ==> NeighboursIn(r, v) == NeighboursIn(adj, v)
  {
    var a1 := adj[s := NeighboursIn(adj, s) + {d}];
    a1[d := NeighboursIn(a1, d) + {s}]
  }

  /** Linking keeps adjacency mutual and adds exactly the edge {s, d}. */
  lemma LinkKeepsInvariant(adj: map<VertexId, set<VertexId>>, edges: set<(VertexId, VertexId)>,
                           s: VertexId, d: VertexId)
    requires Symmetric(adj) && EdgesOf(edges, adj)
    ensures Symmetric(Link(adj, s, d))
    ensures EdgesOf(edges + {EdgeOf(s, d)}, Link(adj, s, d))
  {
    var r := Link(adj, s, d);
    forall u, w
      ensures u in NeighboursIn(r, w) <==> w in NeighboursIn(r, u)
    {
      assert u in NeighboursIn(adj, w) <==> w in NeighboursIn(adj, u);
    }
    forall a, b
      ensures (a, b) in edges + {EdgeOf(s, d)} <==> a <= b && b in NeighboursIn(r, a)
    {
      assert (a, b) in edges <==> a <= b && b in NeighboursIn(adj, a);
      assert b in NeighboursIn(adj, a) <==> a in NeighboursIn(adj, b);
    }
  }

  class AdjacencyListGraph {
    const isDigraph: bool
    const isMultigraph: bool
    /** The vertex set, in its iteration order. */
    var vertices: seq<VertexId>
    /** Neighbour ids of every vertex object that has any. */
    var adjacency: map<VertexId, set<VertexId>>
    /** The edges as unordered pairs, each written (smaller, larger). */
    ghost var Edges: set<(VertexId, VertexId)>

    ghost predicate Valid()
      reads this
    {
      Ascending(vertices) && Symmetric(adjacency) && EdgesOf(Edges, adjacency)
    }

    function Neighbours(v: VertexId): set<VertexId>
      reads this
    {
      NeighboursIn(adjacency, v)
    }

    /** `u->isNeighbourOf(w)`: `u` is among the neighbours of `w`. */
    predicate IsNeighbourOf(u: VertexId, w: VertexId)
      reads this
    {
      u in Neighbours(w)
    }

    ghost function Degree(v: VertexId): nat
      reads this
    {
      |Neighbours(v)|
    }

    /**
     * The constructor stores both flags; the graph starts with no vertices
     * and no edges.
     */
    constructor (isDigraph: bool, isMultigraph: bool)
      ensures Valid()
      ensures this.isDigraph == isDigraph && this.isMultigraph == isMultigraph
      ensures vertices == [] && adjacency == map[] && Edges == {}
    {
      this.isDigraph := isDigraph;
      this.isMultigraph := isMultigraph;
      vertices := [];
      adjacency := map[];
      Edges := {};
    }

    /**
     * `addVertex`: inserts into the ordered vertex set. An id already
     * present leaves the set unchanged. No adjacency changes.
     */
    method AddVertex(v: VertexId)
      requires Valid()
      modifies this
      ensures Valid()
      ensures vertices == Insert(old(vertices), v)
      ensures forall x :: x in vertices <==> x in old(vertices) || x == v
      ensures v in old(vertices) ==> vertices == old(vertices)
      ensures adjacency == old(adjacency) && Edges == old(Edges)
    {
      vertices := Insert(vertices, v);
    }

    /**
     * `addEdge`: `DuplicateEdge` exactly when `s` is already a neighbour of
     * `d`, and then nothing changes; otherwise `d` joins the neighbours of
     * `s` and `s` those of `d`, one edge is added and no other vertex's
     * neighbours change. The digraph and multigraph flags play no part.
     */
    method AddEdge(s: VertexId, d: VertexId) returns (st: EdgeStatus)
      requires Valid()
      modifies this
      ensures Valid()
      ensures st == DuplicateEdge <==> old(IsNeighbourOf(s, d))
      ensures st == DuplicateEdge ==> adjacency == old(adjacency) && Edges == old(Edges)
      ensures st == Added ==> adjacency == Link(old(adjacency), s, d)
      ensures st == Added ==> Neighbours(s) == old(Neighbours(s)) + {d}
      ensures st == Added ==> Neighbours(d) == old(Neighbours(d)) + {s}
      ensures st == Added ==> forall v :: v != s && v != d ==> Neighbours(v) == old(Neighbours(v))
      ensures st == Added ==> EdgeOf(s, d) !in old(Edges) && Edges == old(Edges) + {EdgeOf(s, d)}
      ensures st == Added ==> |Edges| == |old(Edges)| + 1
      ensures vertices == old(vertices)
    {
      if IsNeighbourOf(s, d) {
        return DuplicateEdge;
      }
      assert EdgeOf(s, d) !in Edges by {
        assert s in NeighboursIn(adjacency, d) <==> d in NeighboursIn(adjacency, s);
      }
      LinkKeepsInvariant(adjacency, Edges, s, d);
      adjacency := Link(adjacency, s, d);
      Edges := Edges + {EdgeOf(s, d)};
      st := Added;
    }

    /** `verticesCount`: the number of distinct vertices held. */
    function VerticesCount(): (c: nat)
      reads this
      requires Valid()
      ensures c == |Elems(vertices)|
    {
      AscendingCard(vertices);
      |vertices|
    }

    /**
     * `getVertexById`: a linear scan over the vertex set that stops at the
     * first vertex with the wanted id; `None` (the source's NULL) exactly
     * when no stored vertex has that id.
     */
    method GetVertexById(id: VertexId) returns (r: Option<VertexId>)
      ensures r.Some? ==> r.value in vertices && r.value == id
      ensures r.None? <==> id !in vertices
    {
      var it := 0;
      r := None;
      var quit := false;
      while it < |vertices| && !quit
        invariant 0 <= it <= |vertices|
        invariant quit ==> r.Some? && r.value in vertices && r.value == id
        invariant !quit ==> r.None? && id !in vertices[..it]
      {
        if vertices[it] == id {
          r := Some(vertices[it]);
          quit := true;
        }
        it := it + 1;
      }
    }
  }
}
