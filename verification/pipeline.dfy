/**
  `main` without its I/O: read the edges, clean them into the adjacency map,
  and hand the reporter the vertex count, the raw edge count, the degree
  distribution ordered by degree descending, and the average degree.
*/
module Pipeline {
  import opened Results
  import opened Parser
  import opened Graph
  import opened Stats

  /** What `main` prints, in the order it prints it. */
  datatype Summary = Summary(vertexCount: nat, edgeCount: nat, distribution: seq<Entry>, average: Option<real>)

  /**
    The statistics of an adjacency map as `main` reports them: the
    distribution lists each degree once, largest first, with counts adding up
    to the number of vertices; the average is undefined exactly for an empty
    map and is otherwise the sum of the neighbour-set sizes over that number,
    which is also the distribution's degree-weighted total over its counts.
  */
  method Statistics(adj: Adjacency) returns (report: seq<Entry>, average: Option<real>)
    ensures StrictlyDescending(report)
    ensures forall x :: x in report <==> x.0 in Distribution(adj) && Distribution(adj)[x.0] == x.1
    ensures SumCounts(report) == |adj|
    ensures average.None? <==> |adj| == 0
    ensures average == Mean(WeightedSum(report), SumCounts(report))
    ensures average == Mean(DegreeSum(adj), |adj|)
  {
    var dist := DegreeDistribution(adj);
    report := ReportOrder(dist);
    ReportTotals(adj, report);
    average := AverageDegree(adj);
  }

  /**
    `s` is what `main` reports for `edges`: the vertex count exceeds every id,
    is 1 for no edges and is otherwise one more than an id that occurs (so it
    is the largest id plus one), and is never below the number of vertices in
    the map; the edge count is the raw number of pairs; the distribution lists
    each degree of the map once, largest first, with counts adding up to the
    number of vertices; the average is undefined exactly when there are no
    edges, and is otherwise the sum of the neighbour-set sizes over that
    number, which is also the report's degree-weighted total over its counts.
  */
  ghost predicate Summarises(edges: seq<Edge>, s: Summary) {
    && (forall e :: e in edges ==> e.0 < s.vertexCount && e.1 < s.vertexCount)
    && (|edges| == 0 ==> s.vertexCount == 1)
    && s.vertexCount >= 1 && (|edges| > 0 ==> Mentioned(edges, s.vertexCount - 1))
    && |Build(edges)| <= s.vertexCount
    && s.edgeCount == |edges|
    && StrictlyDescending(s.distribution)
    && (forall x :: x in s.distribution <==>
          x.0 in Distribution(Build(edges)) && Distribution(Build(edges))[x.0] == x.1)
    && SumCounts(s.distribution) == |Build(edges)|
    && (s.average.None? <==> |edges| == 0)
    && s.average == Mean(WeightedSum(s.distribution), SumCounts(s.distribution))
    && s.average == Mean(DegreeSum(Build(edges)), |Build(edges)|)
  }

  /** The statistics of an edge list, as `main` reports them. */
  method Summarise(edges: seq<Edge>) returns (s: Summary)
    ensures Summarises(edges, s)
  {
    var cleaned := CleanData(edges);
    var adj, vertexCount := cleaned.0, cleaned.1;
    VertexCountIsMaxPlusOne(edges);
    KeysBelowVertexCount(edges);
    var report, average := Statistics(adj);
    if |edges| > 0 {
      BuildKeys(edges);
      assert edges[0] in edges;
      assert edges[0].0 in adj;
    }
    s := Summary(vertexCount, |edges|, report, average);
  }

  /** The whole run: a malformed number aborts it; otherwise the statistics of the edges read. */
  method Analyze(lines: seq<string>) returns (r: Result<Summary, ReadError>)
    ensures r.Ok? <==> forall i :: 0 <= i < |lines| ==> !ParseLine(lines[i]).Rejected?
    ensures r.Err? ==> ReadEdges(lines) == Err(r.error)
    ensures r.Err? ==> r.error.line < |lines| && ParseLine(lines[r.error.line]).Rejected?
    ensures r.Ok? ==> ReadEdges(lines).Ok? && Summarises(ReadEdges(lines).value, r.value)
    ensures r.Ok? ==> r.value.edgeCount <= |lines|
    ensures lines == [] ==> r == Ok(Summary(1, 0, [], None))
  {
    ReadEdgesOutcome(lines);
    match ReadEdges(lines)
    case Err(e) =>
      r := Err(e);
    case Ok(edges) =>
      var s := Summarise(edges);
      if lines == [] {
        assert Build(edges) == map[];
        assert |s.distribution| == 0;
      }
      r := Ok(s);
  }

  /** The edge list of the source's unit test. */
  const SampleEdges: seq<Edge> := [(1, 2), (1, 3), (2, 3), (3, 4)]

  /** The adjacency map the sample should produce: vertices 1 to 4 with degrees 2, 2, 3 and 1. */
  const SampleMap: Adjacency := map[1 := {2, 3}, 2 := {1, 3}, 3 := {1, 2, 4}, 4 := {3}]

  /** The first two loop iterations on the sample. */
  lemma SampleFirstSteps()
    ensures Build([(1, 2), (1, 3)]) == map[1 := {2, 3}, 2 := {1}, 3 := {1}]
  {
    var e0: seq<Edge> := [];
    var e1: seq<Edge> := [(1, 2)];
    var e2: seq<Edge> := [(1, 2), (1, 3)];
    assert e2[..1] == e1 && e1[..0] == e0;
    var m1: Adjacency := map[1 := {2}, 2 := {1}];
    var none: set<nat> := {};
    assert none + {2} == {2} && none + {1} == {1} && {2} + {3} == {2, 3};
    var empty: Adjacency := map[];
    assert Insert(empty, 1, 2) == map[1 := {2}];
    assert Insert(map[1 := {2}], 2, 1) == m1;
    assert Build(e1) == m1;
    assert Insert(m1, 1, 3) == map[1 := {2, 3}, 2 := {1}];
    assert Insert(map[1 := {2, 3}, 2 := {1}], 3, 1) == map[1 := {2, 3}, 2 := {1}, 3 := {1}];
  }

  /** The third loop iteration on the sample. */
  lemma SampleThirdStep()
    ensures Build([(1, 2), (1, 3), (2, 3)]) == map[1 := {2, 3}, 2 := {1, 3}, 3 := {1, 2}]
  {
    var e2: seq<Edge> := [(1, 2), (1, 3)];
    var e3: seq<Edge> := [(1, 2), (1, 3), (2, 3)];
    assert e3[..2] == e2;
    SampleFirstSteps();
    var m2: Adjacency := map[1 := {2, 3}, 2 := {1}, 3 := {1}];
    assert {1} + {3} == {1, 3} && {1} + {2} == {1, 2};
    assert Insert(m2, 2, 3) == map[1 := {2, 3}, 2 := {1, 3}, 3 := {1}];
    assert Insert(map[1 := {2, 3}, 2 := {1, 3}, 3 := {1}], 3, 2) == map[1 := {2, 3}, 2 := {1, 3}, 3 := {1, 2}];
  }

  /** The fourth loop iteration on the sample. */
  lemma SampleLastStep()
    ensures AddEdge(map[1 := {2, 3}, 2 := {1, 3}, 3 := {1, 2}], (3, 4)) == SampleMap
  {
    var m3: Adjacency := map[1 := {2, 3}, 2 := {1, 3}, 3 := {1, 2}];
    var m: Adjacency := map[1 := {2, 3}, 2 := {1, 3}, 3 := {1, 2, 4}];
    var none: set<nat> := {};
    assert {1, 2} + {4} == {1, 2, 4};
    assert Insert(m3, 3, 4) == m;
    assert none + {3} == {3};
    assert m[4 := {3}] == SampleMap;
  }

  /** Cleaning the sample gives the expected map, one loop iteration at a time. */
  lemma SampleAdjacency()
    ensures Build(SampleEdges) == SampleMap
  {
    var e3: seq<Edge> := [(1, 2), (1, 3), (2, 3)];
    var e4: seq<Edge> := [(1, 2), (1, 3), (2, 3), (3, 4)];
    assert e4[..3] == e3;
    SampleThirdStep();
    SampleLastStep();
    assert Build(e4) == AddEdge(Build(e3), (3, 4));
  }

  /** The sample's vertex count is its largest id, 4, plus one. */
  lemma SampleVertexCount()
    ensures CleanData(SampleEdges).1 == 5
  {
    var e0: seq<Edge> := [];
    var e1: seq<Edge> := [(1, 2)];
    var e2: seq<Edge> := [(1, 2), (1, 3)];
    var e3: seq<Edge> := [(1, 2), (1, 3), (2, 3)];
    assert SampleEdges[..3] == e3 && e3[..2] == e2 && e2[..1] == e1 && e1[..0] == e0;
    assert MaxVertexId(e1) == 2;
    assert MaxVertexId(e2) == 3;
    assert MaxVertexId(e3) == 3;
  }

  /** No id of the sample exceeds 4. */
  lemma SampleIds()
    ensures forall e :: e in SampleEdges ==> e.0 <= 4 && e.1 <= 4
  {
    assert forall e :: e in SampleEdges <==> e == (1, 2) || e == (1, 3) || e == (2, 3) || e == (3, 4);
  }

  /** The degree distribution of the sample map: one vertex of degree 3, two of degree 2, one of degree 1. */
  lemma SampleDistribution()
    ensures Distribution(SampleMap) == map[3 := 1, 2 := 2, 1 := 1]
  {
    var adj := SampleMap;
    assert adj.Keys == {1, 2, 3, 4};
    assert |adj[1]| == 2 && |adj[2]| == 2 && |adj[3]| == 3 && |adj[4]| == 1;
    var degrees := DegreesOver(adj, adj.Keys);
    forall d: nat
      ensures d in degrees <==> d in {1, 2, 3}
    {
      if d == 1 {
        assert |adj[4]| == d;
      } else if d == 2 {
        assert |adj[1]| == d;
      } else if d == 3 {
        assert |adj[3]| == d;
      }
    }
    assert degrees == {1, 2, 3};
    assert OfDegree(adj, 3) == {3};
    assert OfDegree(adj, 2) == {1, 2};
    assert OfDegree(adj, 1) == {4};
  }

  /** The only strictly descending listing of the sample's distribution. */
  lemma SampleReport(report: seq<Entry>)
    requires StrictlyDescending(report)
    requires forall x :: x in report <==> x.0 in Distribution(SampleMap) && Distribution(SampleMap)[x.0] == x.1
    ensures report == [(3, 1), (2, 2), (1, 1)]
  {
    SampleDistribution();
    var expected: seq<Entry> := [(3, 1), (2, 2), (1, 1)];
    assert forall x :: x in expected <==> x == (3, 1) || x == (2, 2) || x == (1, 1);
    DescendingReportIsUnique(report, expected);
  }

  /** The sample's report totals 8 neighbour entries over 4 vertices: average 2.0. */
  lemma SampleAverage()
    ensures Mean(WeightedSum([(3, 1), (2, 2), (1, 1)]), SumCounts([(3, 1), (2, 2), (1, 1)])) == Some(2.0)
  {
  }

  /** A vertex count above every id of the sample and one more than an id that occurs is 5. */
  lemma SampleVertexCountFrom(n: nat)
    requires forall e :: e in SampleEdges ==> e.0 < n && e.1 < n
    requires n >= 1 && Mentioned(SampleEdges, n - 1)
    ensures n == 5
  {
    assert (3, 4) in SampleEdges;
    SampleIds();
  }

  /**
    The source's unit test, run through the whole pipeline: 5 vertices by the
    largest-id rule, 4 edges, the distribution (3,1), (2,2), (1,1), and average
    degree 2.0.
  */
  method SampleRun() returns (s: Summary)
    ensures s == Summary(5, 4, [(3, 1), (2, 2), (1, 1)], Some(2.0))
  {
    s := Summarise(SampleEdges);
    SampleAdjacency();
    SampleVertexCountFrom(s.vertexCount);
    SampleReport(s.distribution);
    SampleAverage();
  }
}
