/**
  `clean_data`: the fold over the edge list that builds the undirected
  adjacency map (both directions of every pair, neighbours as sets) and the
  running maximum id, reported plus one as the vertex count.
*/
module Graph {

  /** A pair of vertex ids as read from one line, in file order. */
  type Edge = (nat, nat)

  /** `HashMap<u64, HashSet<u64>>`: each vertex that occurs in an edge, to its neighbours. */
  type Adjacency = map<nat, set<nat>>

  /** `adj_list.entry(u).or_default().insert(v)`. */
  function Insert(adj: Adjacency, u: nat, v: nat): (r: Adjacency)
    ensures r.Keys == adj.Keys + {u}
    ensures v in r[u]
    ensures forall w :: w in r[u] ==> w == v || (u in adj && w in adj[u])
    ensures u in adj ==> adj[u] <= r[u]
    ensures forall w :: w in adj && w != u ==> r[w] == adj[w]
  {
    adj[u := (if u in adj then adj[u] else {}) + {v}]
  }

  /** One iteration of the loop in `clean_data`: `v` becomes a neighbour of `u`, then `u` of `v`. */
  function AddEdge(adj: Adjacency, e: Edge): Adjacency {
    Insert(Insert(adj, e.0, e.1), e.1, e.0)
  }

  /** The adjacency map `clean_data` builds, folding the edges from first to last. */
  function Build(edges: seq<Edge>): Adjacency
    decreases |edges|
  {
    if |edges| == 0 then map[]
    else AddEdge(Build(edges[..|edges| - 1]), edges[|edges| - 1])
  }

  function Max(a: nat, b: nat): nat {
    if a >= b then a else b
  }

  /** The running maximum of `clean_data`: starts at 0, then `max(node1)` and `max(node2)` per edge. */
  function MaxVertexId(edges: seq<Edge>): nat
    decreases |edges|
  {
    if |edges| == 0 then 0
    else
      var e := edges[|edges| - 1];
      Max(Max(MaxVertexId(edges[..|edges| - 1]), e.0), e.1)
  }

  /** `clean_data`: the adjacency map and the vertex count, the largest id plus one. */
  function CleanData(edges: seq<Edge>): (Adjacency, nat) {
    (Build(edges), MaxVertexId(edges) + 1)
  }

  // ---------------------------------------------------------------------------
  // Reference relations on the edge list
  // ---------------------------------------------------------------------------

  /** `x` is an endpoint of some pair. */
  ghost predicate Mentioned(edges: seq<Edge>, x: nat) {
    exists e :: e in edges && (e.0 == x || e.1 == x)
  }

  /** Some pair joins `u` and `v`, in either order. */
  ghost predicate Linked(edges: seq<Edge>, u: nat, v: nat) {
    (u, v) in edges || (v, u) in edges
  }

  /** The neighbour relation is its own inverse. */
  ghost predicate Symmetric(adj: Adjacency) {
    forall u, v :: u in adj && v in adj[u] ==> v in adj && u in adj[v]
  }

  // ---------------------------------------------------------------------------
  // Properties of the adjacency map
  // ---------------------------------------------------------------------------

  /** One loop iteration adds both endpoints as keys and joins them both ways, and nothing else. */
  lemma AddEdgeEffect(adj: Adjacency, e: Edge)
    ensures forall u :: u in AddEdge(adj, e) <==> u in adj || u == e.0 || u == e.1
    ensures forall u, v :: u in AddEdge(adj, e) ==>
      (v in AddEdge(adj, e)[u] <==> (u in adj && v in adj[u]) || (u, v) == e || (v, u) == e)
  {
  }

  /** The keys of the map are exactly the ids that occur as an endpoint. */
  lemma {:induction false} BuildKeys(edges: seq<Edge>)
    ensures forall u :: u in Build(edges) <==> Mentioned(edges, u)
    decreases |edges|
  {
    if |edges| > 0 {
      var p := edges[..|edges| - 1];
      var e := edges[|edges| - 1];
      assert edges == p + [e];
      assert forall x :: x in edges <==> x in p || x == e;
      BuildKeys(p);
      AddEdgeEffect(Build(p), e);
      forall u | Mentioned(edges, u)
        ensures u in Build(edges)
      {
        var f :| f in edges && (f.0 == u || f.1 == u);
        if f != e {
          assert Mentioned(p, u);
        }
      }
      forall u | u in Build(edges)
        ensures Mentioned(edges, u)
      {
        if u in Build(p) {
          var f :| f in p && (f.0 == u || f.1 == u);
          assert f in edges;
        } else {
          assert e in edges;
        }
      }
    }
  }

  /** The neighbours of `u` are exactly the ids some pair joins to `u`, in either order, each once. */
  lemma {:induction false} BuildNeighbour(edges: seq<Edge>, u: nat, v: nat)
    requires u in Build(edges)
    ensures v in Build(edges)[u] <==> Linked(edges, u, v)
    decreases |edges|
  {
    var p := edges[..|edges| - 1];
    var e := edges[|edges| - 1];
    assert edges == p + [e];
    var adj := Build(p);
    AddEdgeEffect(adj, e);
    assert (u, v) in edges <==> (u, v) in p || (u, v) == e;
    assert (v, u) in edges <==> (v, u) in p || (v, u) == e;
    if u in adj {
      BuildNeighbour(p, u, v);
    } else {
      BuildKeys(p);
      if (u, v) in p {
        assert Mentioned(p, u);
      } else if (v, u) in p {
        assert Mentioned(p, u);
      }
    }
  }

  lemma BuildNeighbours(edges: seq<Edge>)
    ensures forall u, v :: u in Build(edges) ==> (v in Build(edges)[u] <==> Linked(edges, u, v))
  {
    forall u, v | u in Build(edges)
      ensures v in Build(edges)[u] <==> Linked(edges, u, v)
    {
      BuildNeighbour(edges, u, v);
    }
  }

  /** Both characterisations of the map together. */
  lemma BuildCharacterised(edges: seq<Edge>)
    ensures forall u :: u in Build(edges) <==> Mentioned(edges, u)
    ensures forall u, v :: u in Build(edges) ==> (v in Build(edges)[u] <==> Linked(edges, u, v))
  {
    BuildKeys(edges);
    BuildNeighbours(edges);
  }

  /** After `clean_data`, `v` is a neighbour of `u` exactly when `u` is a neighbour of `v`. */
  lemma {:induction false} BuildSymmetric(edges: seq<Edge>)
    ensures Symmetric(Build(edges))
  {
    BuildCharacterised(edges);
    var adj := Build(edges);
    forall u, v | u in adj && v in adj[u]
      ensures v in adj && u in adj[v]
    {
      assert Linked(edges, v, u);
      if (u, v) in edges {
        assert Mentioned(edges, v);
      } else {
        assert Mentioned(edges, v);
      }
    }
  }

  /**
    The map depends only on which unordered pairs occur: repeating a pair,
    reversing it or reordering the list leaves it unchanged.
  */
  lemma SameEdgesSameAdjacency(a: seq<Edge>, b: seq<Edge>)
    requires forall u, v :: Linked(a, u, v) <==> Linked(b, u, v)
    ensures Build(a) == Build(b)
  {
    BuildCharacterised(a);
    BuildCharacterised(b);
    forall u | Mentioned(a, u)
      ensures Mentioned(b, u)
    {
      var f :| f in a && (f.0 == u || f.1 == u);
      assert Linked(a, f.0, f.1);
      assert Linked(b, f.0, f.1);
    }
    forall u | Mentioned(b, u)
      ensures Mentioned(a, u)
    {
      var f :| f in b && (f.0 == u || f.1 == u);
      assert Linked(b, f.0, f.1);
      assert Linked(a, f.0, f.1);
    }
    assert Build(a).Keys == Build(b).Keys;
    forall u | u in Build(a)
      ensures Build(a)[u] == Build(b)[u]
    {
      assert forall v :: v in Build(a)[u] <==> v in Build(b)[u];
    }
  }

  /** A pair already present, in either order, changes nothing when it occurs again. */
  lemma RepeatedEdgeChangesNothing(edges: seq<Edge>, e: Edge)
    requires Linked(edges, e.0, e.1)
    ensures Build(edges + [e]) == Build(edges)
  {
    var longer := edges + [e];
    assert forall x :: x in longer <==> x in edges || x == e;
    SameEdgesSameAdjacency(longer, edges);
  }

  /** A self-loop makes the vertex its own neighbour, once however often it occurs. */
  lemma SelfLoopCountsOnce(u: nat)
    ensures Build([(u, u), (u, u)]) == map[u := {u}]
  {
    var once := map[u := {u}];
    assert [(u, u)][..0] == [];
    assert Build([(u, u)]) == AddEdge(map[], (u, u));
    var none: set<nat> := {};
    assert none + {u} == {u};
    assert Insert(map[], u, u) == once;
    assert Insert(once, u, u) == once;
    assert [(u, u), (u, u)][..1] == [(u, u)];
  }

  /**
    The vertex count exceeds every endpoint, is 1 for an empty list, and
    otherwise is one more than an id that actually occurs.
  */
  lemma {:induction false} VertexCountIsMaxPlusOne(edges: seq<Edge>)
    ensures forall e :: e in edges ==> e.0 < CleanData(edges).1 && e.1 < CleanData(edges).1
    ensures |edges| == 0 ==> CleanData(edges).1 == 1
    ensures |edges| > 0 ==> Mentioned(edges, CleanData(edges).1 - 1)
    decreases |edges|
  {
    if |edges| > 0 {
      var p := edges[..|edges| - 1];
      var e := edges[|edges| - 1];
      assert edges == p + [e];
      assert forall x :: x in edges <==> x in p || x == e;
      VertexCountIsMaxPlusOne(p);
      var m := MaxVertexId(edges);
      if m != e.0 && m != e.1 {
        assert m == MaxVertexId(p) && |p| > 0;
        var f :| f in p && (f.0 == m || f.1 == m);
        assert f in edges;
      } else {
        assert e in edges;
      }
    }
  }

  /** The ids below `n`. */
  function Below(n: nat): (s: set<nat>)
    ensures |s| == n
    ensures forall x: nat :: x in s <==> x < n
  {
    if n == 0 then {} else Below(n - 1) + {n - 1}
  }

  lemma {:induction false} SubsetCardinality(a: set<nat>, b: set<nat>)
    requires a <= b
    ensures |a| <= |b|
    decreases |b|
  {
    if b != {} {
      var x :| x in b;
      SubsetCardinality(a - {x}, b - {x});
    }
  }

  /**
    Every vertex of the map lies below the vertex count, so the count never
    undercounts the map; ids that occur in no pair are counted by it although
    the map has no entry for them.
  */
  lemma KeysBelowVertexCount(edges: seq<Edge>)
    ensures forall u :: u in CleanData(edges).0 ==> u < CleanData(edges).1
    ensures |CleanData(edges).0| <= CleanData(edges).1
  {
    var (adj, n) := CleanData(edges);
    BuildCharacterised(edges);
    VertexCountIsMaxPlusOne(edges);
    forall u | u in adj
      ensures u < n
    {
      var f :| f in edges && (f.0 == u || f.1 == u);
    }
    SubsetCardinality(adj.Keys, Below(n));
  }
}
