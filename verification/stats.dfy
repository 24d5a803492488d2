/**
  The statistics read off the adjacency map: `degree_distribution`,
  `average_degree`, and the ordering `main` gives the distribution before
  reporting it (collected from the map, then sorted by degree, descending).

  A `HashMap` is iterated in an order the program does not control; the
  methods here pick the next key arbitrarily, and their contracts are stated
  against order-free reference definitions.
*/
module Stats {
  import opened Results
  import opened Graph

  /** One reported pair: a degree and the number of vertices with that degree. */
  type Entry = (nat, nat)

  // ---------------------------------------------------------------------------
  // Reference definitions over a set of vertices of the map
  // ---------------------------------------------------------------------------

  /** The degrees that occur among the vertices `s`. */
  ghost function DegreesOver(adj: Adjacency, s: set<nat>): set<nat>
    requires s <= adj.Keys
  {
    set v | v in s :: |adj[v]|
  }

  /** The vertices among `s` whose degree is `d`. */
  ghost function OfDegreeOver(adj: Adjacency, s: set<nat>, d: nat): set<nat>
    requires s <= adj.Keys
  {
    set v | v in s && |adj[v]| == d
  }

  /** For each degree occurring among `s`, how many vertices of `s` have it. */
  ghost function DistributionOver(adj: Adjacency, s: set<nat>): map<nat, nat>
    requires s <= adj.Keys
  {
    map d | d in DegreesOver(adj, s) :: |OfDegreeOver(adj, s, d)|
  }

  /** The degree distribution of the whole map. */
  ghost function Distribution(adj: Adjacency): map<nat, nat> {
    DistributionOver(adj, adj.Keys)
  }

  /** The vertices of the whole map with degree `d`. */
  ghost function OfDegree(adj: Adjacency, d: nat): set<nat> {
    OfDegreeOver(adj, adj.Keys, d)
  }

  ghost function Pick(s: set<nat>): nat
    requires s != {}
  {
    var x :| x in s; x
  }

  /** The sum of the degrees of the vertices `s`, in no particular order. */
  ghost function DegreeSumOver(adj: Adjacency, s: set<nat>): nat
    requires s <= adj.Keys
    decreases s
  {
    if s == {} then 0
    else
      var v := Pick(s);
      |adj[v]| + DegreeSumOver(adj, s - {v})
  }

  /** The sum of all neighbour-set sizes. */
  ghost function DegreeSum(adj: Adjacency): nat {
    DegreeSumOver(adj, adj.Keys)
  }

  // ---------------------------------------------------------------------------
  // Degree distribution
  // ---------------------------------------------------------------------------

  /** `*dist.entry(degree).or_default() += 1`. */
  function Bump(dist: map<nat, nat>, d: nat): (r: map<nat, nat>)
    ensures r.Keys == dist.Keys + {d}
    ensures r[d] == (if d in dist then dist[d] else 0) + 1
    ensures forall k :: k in dist && k != d ==> r[k] == dist[k]
  {
    dist[d := (if d in dist then dist[d] else 0) + 1]
  }

  /** Counting one more vertex `k` bumps the count of its degree. */
  lemma DistributionStep(adj: Adjacency, s: set<nat>, k: nat)
    requires s <= adj.Keys && k in adj && k !in s
    ensures DistributionOver(adj, s + {k}) == Bump(DistributionOver(adj, s), |adj[k]|)
  {
    var t := s + {k};
    var d0 := |adj[k]|;
    var before := DistributionOver(adj, s);
    var after := DistributionOver(adj, t);
    assert DegreesOver(adj, t) == DegreesOver(adj, s) + {d0};
    forall d | d in DegreesOver(adj, t)
      ensures after[d] == Bump(before, d0)[d]
    {
      forall v | v in OfDegreeOver(adj, s, d)
        ensures d in DegreesOver(adj, s)
      {
        assert |adj[v]| in DegreesOver(adj, s);
      }
      if d == d0 {
        assert OfDegreeOver(adj, t, d) == OfDegreeOver(adj, s, d) + {k};
        if d !in DegreesOver(adj, s) {
          assert OfDegreeOver(adj, s, d) == {};
        }
      } else {
        assert OfDegreeOver(adj, t, d) == OfDegreeOver(adj, s, d);
      }
    }
  }

  /**
    `degree_distribution`: the degrees that occur are exactly the keys, each
    mapped to the number of vertices with that degree, which is at least one.
  */
  method DegreeDistribution(adj: Adjacency) returns (dist: map<nat, nat>)
    ensures dist == Distribution(adj)
    ensures forall d :: d in dist <==> exists v :: v in adj && |adj[v]| == d
    ensures forall d :: d in dist ==> dist[d] == |OfDegree(adj, d)| && dist[d] >= 1
  {
    dist := map[];
    var todo := adj.Keys;
    assert DegreesOver(adj, {}) == {};
    while todo != {}
      invariant todo <= adj.Keys
      invariant dist == DistributionOver(adj, adj.Keys - todo)
      decreases |todo|
    {
      var v :| v in todo;
      DistributionStep(adj, adj.Keys - todo, v);
      assert adj.Keys - todo + {v} == adj.Keys - (todo - {v});
      dist := Bump(dist, |adj[v]|);
      todo := todo - {v};
    }
    assert adj.Keys - todo == adj.Keys;
    forall d | d in dist
      ensures dist[d] >= 1
    {
      var v :| v in adj && |adj[v]| == d;
      assert v in OfDegree(adj, d);
    }
  }

  // ---------------------------------------------------------------------------
  // Average degree
  // ---------------------------------------------------------------------------

  /** The degree sum may take the vertices in any order: any vertex can be counted first. */
  lemma DegreeSumRemove(adj: Adjacency, s: set<nat>, k: nat)
    requires s <= adj.Keys && k in s
    ensures DegreeSumOver(adj, s) == |adj[k]| + DegreeSumOver(adj, s - {k})
    decreases |s|
  {
    var x := Pick(s);
    if x != k {
      DegreeSumRemove(adj, s - {x}, k);
      DegreeSumRemove(adj, s - {k}, x);
      assert s - {x} - {k} == s - {k} - {x};
    }
  }

  /** `total as f64 / count as f64`, with `None` for the NaN of zero over zero. */
  function Mean(total: nat, count: nat): (r: Option<real>)
    ensures r.None? <==> count == 0
    ensures r.Some? ==> r.value * (count as real) == total as real
  {
    if count == 0 then None else Some(total as real / count as real)
  }

  /**
    `average_degree`: the sum of the neighbour-set sizes, taken in whatever
    order the map yields them, over the number of vertices.
  */
  method AverageDegree(adj: Adjacency) returns (avg: Option<real>)
    ensures avg.None? <==> |adj| == 0
    ensures avg == Mean(DegreeSum(adj), |adj|)
  {
    var sum := 0;
    var todo := adj.Keys;
    while todo != {}
      invariant todo <= adj.Keys
      invariant sum + DegreeSumOver(adj, todo) == DegreeSum(adj)
      decreases |todo|
    {
      var v :| v in todo;
      DegreeSumRemove(adj, todo, v);
      sum := sum + |adj[v]|;
      todo := todo - {v};
    }
    avg := Mean(sum, |adj|);
  }

  // ---------------------------------------------------------------------------
  // Report order
  // ---------------------------------------------------------------------------

  predicate DescendingByDegree(s: seq<Entry>) {
    forall i, j :: 0 <= i < j < |s| ==> s[i].0 >= s[j].0
  }

  predicate StrictlyDescending(s: seq<Entry>) {
    forall i, j :: 0 <= i < j < |s| ==> s[i].0 > s[j].0
  }

  predicate DistinctDegrees(s: seq<Entry>) {
    forall i, j :: 0 <= i < j < |s| ==> s[i].0 != s[j].0
  }

  /** One step of a stable insertion sort by degree, descending: `e` goes after every entry of equal or larger degree. */
  function InsertByDegree(e: Entry, s: seq<Entry>): (r: seq<Entry>)
    ensures |r| == |s| + 1
    ensures multiset(r) == multiset(s) + multiset{e}
    decreases |s|
  {
    if |s| == 0 then [e]
    else if s[0].0 < e.0 then [e] + s
    else
      assert s == [s[0]] + s[1..];
      [s[0]] + InsertByDegree(e, s[1..])
  }

  /** No entry of `s` has degree `d`. */
  predicate Avoids(s: seq<Entry>, d: nat) {
    forall k :: 0 <= k < |s| ==> s[k].0 != d
  }

  /** No entry of `s` has a degree above `b`. */
  predicate AtMost(s: seq<Entry>, b: nat) {
    forall k :: 0 <= k < |s| ==> s[k].0 <= b
  }

  lemma {:induction false} InsertAtMost(e: Entry, s: seq<Entry>, b: nat)
    requires AtMost(s, b) && e.0 <= b
    ensures AtMost(InsertByDegree(e, s), b)
    decreases |s|
  {
    if |s| > 0 && s[0].0 >= e.0 {
      InsertAtMost(e, s[1..], b);
    }
  }

  lemma {:induction false} InsertAvoids(e: Entry, s: seq<Entry>, d: nat)
    requires Avoids(s, d) && e.0 != d
    ensures Avoids(InsertByDegree(e, s), d)
    decreases |s|
  {
    if |s| > 0 && s[0].0 >= e.0 {
      InsertAvoids(e, s[1..], d);
    }
  }

  /** Inserting into a list ordered by descending degree keeps it ordered. */
  lemma {:induction false} InsertKeepsDescending(e: Entry, s: seq<Entry>)
    requires DescendingByDegree(s)
    ensures DescendingByDegree(InsertByDegree(e, s))
    decreases |s|
  {
    if |s| > 0 && s[0].0 >= e.0 {
      var tail := s[1..];
      assert AtMost(tail, s[0].0) by {
        forall k | 0 <= k < |tail|
          ensures tail[k].0 <= s[0].0
        {
          assert tail[k] == s[k + 1];
        }
      }
      InsertKeepsDescending(e, tail);
      InsertAtMost(e, tail, s[0].0);
      var t := InsertByDegree(e, tail);
      assert InsertByDegree(e, s) == [s[0]] + t;
    }
  }

  /** Inserting an entry whose degree is new into a list of distinct degrees keeps them distinct. */
  lemma {:induction false} InsertKeepsDistinct(e: Entry, s: seq<Entry>)
    requires DistinctDegrees(s) && Avoids(s, e.0)
    ensures DistinctDegrees(InsertByDegree(e, s))
    decreases |s|
  {
    if |s| > 0 && s[0].0 >= e.0 {
      var tail := s[1..];
      assert Avoids(tail, s[0].0) by {
        forall k | 0 <= k < |tail|
          ensures tail[k].0 != s[0].0
        {
          assert tail[k] == s[k + 1];
        }
      }
      InsertKeepsDistinct(e, tail);
      InsertAvoids(e, tail, s[0].0);
      var t := InsertByDegree(e, tail);
      assert InsertByDegree(e, s) == [s[0]] + t;
    }
  }

  /** `sort_by_key(|x| Reverse(x.0))`: the entries ordered by degree, largest first. */
  function SortByDegree(s: seq<Entry>): (r: seq<Entry>)
    ensures |r| == |s|
    ensures multiset(r) == multiset(s)
    ensures DescendingByDegree(r)
    decreases |s|
  {
    if |s| == 0 then []
    else
      var p := s[..|s| - 1];
      assert s == p + [s[|s| - 1]];
      var sorted := SortByDegree(p);
      InsertKeepsDescending(s[|s| - 1], sorted);
      InsertByDegree(s[|s| - 1], sorted)
  }

  lemma {:induction false} SortAvoids(s: seq<Entry>, d: nat)
    requires Avoids(s, d)
    ensures Avoids(SortByDegree(s), d)
    decreases |s|
  {
    if |s| > 0 {
      var p := s[..|s| - 1];
      SortAvoids(p, d);
      InsertAvoids(s[|s| - 1], SortByDegree(p), d);
    }
  }

  /** Sorting keeps the entries, and keeps their degrees distinct when they were. */
  lemma {:induction false} SortKeepsEntries(s: seq<Entry>)
    ensures forall x :: x in SortByDegree(s) <==> x in s
    ensures DistinctDegrees(s) ==> DistinctDegrees(SortByDegree(s))
    decreases |s|
  {
    var r := SortByDegree(s);
    assert forall x :: x in r <==> x in multiset(r);
    assert forall x :: x in s <==> x in multiset(s);
    if |s| > 0 && DistinctDegrees(s) {
      var p := s[..|s| - 1];
      var e := s[|s| - 1];
      var sorted := SortByDegree(p);
      SortKeepsEntries(p);
      SortAvoids(p, e.0);
      InsertKeepsDistinct(e, sorted);
    }
  }

  /** `degree_dist.into_iter().collect()`: the entries of the map, in whatever order the map yields them. */
  method CollectEntries(dist: map<nat, nat>) returns (entries: seq<Entry>)
    ensures forall x :: x in entries <==> x.0 in dist && dist[x.0] == x.1
    ensures DistinctDegrees(entries)
    ensures |entries| == |dist|
  {
    entries := [];
    var todo := dist.Keys;
    while todo != {}
      invariant todo <= dist.Keys
      invariant forall x :: x in entries <==> x.0 in dist && x.0 !in todo && dist[x.0] == x.1
      invariant DistinctDegrees(entries)
      invariant |entries| + |todo| == |dist|
      decreases |todo|
    {
      var d :| d in todo;
      forall i | 0 <= i < |entries|
        ensures entries[i].0 != d
      {
        assert entries[i] in entries;
      }
      entries := entries + [(d, dist[d])];
      todo := todo - {d};
    }
  }

  /**
    The reported distribution: every entry of the map exactly once, in
    strictly descending order of degree.
  */
  method ReportOrder(dist: map<nat, nat>) returns (report: seq<Entry>)
    ensures StrictlyDescending(report)
    ensures forall x :: x in report <==> x.0 in dist && dist[x.0] == x.1
    ensures |report| == |dist|
  {
    var entries := CollectEntries(dist);
    report := SortByDegree(entries);
    SortKeepsEntries(entries);
  }

  /**
    Two strictly descending lists with the same entries are the same list: the
    report does not depend on the order in which the map was iterated.
  */
  lemma {:induction false} DescendingReportIsUnique(a: seq<Entry>, b: seq<Entry>)
    requires StrictlyDescending(a) && StrictlyDescending(b)
    requires forall x :: x in a <==> x in b
    ensures a == b
    decreases |a|
  {
    assert |b| > 0 ==> b[0] in b && b[0] in a;
    if |a| > 0 {
      assert a[0] in a;
      assert |b| > 0;
      var j :| 0 <= j < |b| && b[j] == a[0];
      var k :| 0 <= k < |a| && a[k] == b[0];
      assert b[0].0 >= b[j].0 == a[0].0;
      assert a[0].0 >= a[k].0 == b[0].0;
      assert j == 0;
      assert a[0] == b[0];
      forall x
        ensures x in a[1..] <==> x in b[1..]
      {
        if x in a[1..] {
          var i :| 0 <= i < |a[1..]| && a[1..][i] == x;
          assert x == a[i + 1] && x.0 < a[0].0;
          assert x in b;
          var m :| 0 <= m < |b| && b[m] == x;
          assert m != 0;
          assert b[1..][m - 1] == x;
        }
        if x in b[1..] {
          var i :| 0 <= i < |b[1..]| && b[1..][i] == x;
          assert x == b[i + 1] && x.0 < b[0].0;
          assert x in a;
          var m :| 0 <= m < |a| && a[m] == x;
          assert m != 0;
          assert a[1..][m - 1] == x;
        }
      }
      DescendingReportIsUnique(a[1..], b[1..]);
      assert a == [a[0]] + a[1..];
      assert b == [b[0]] + b[1..];
    }
  }

  // ---------------------------------------------------------------------------
  // Totals of the report
  // ---------------------------------------------------------------------------

  /** The vertex counts of the report, added up. */
  function SumCounts(report: seq<Entry>): nat
    decreases |report|
  {
    if |report| == 0 then 0 else report[0].1 + SumCounts(report[1..])
  }

  /** Degree times count, added up over the report. */
  function WeightedSum(report: seq<Entry>): nat
    decreases |report|
  {
    if |report| == 0 then 0 else report[0].0 * report[0].1 + WeightedSum(report[1..])
  }

  ghost function DegreeSet(report: seq<Entry>): set<nat> {
    set k | 0 <= k < |report| :: report[k].0
  }

  /** The vertices whose degree the report lists. */
  ghost function Covered(adj: Adjacency, report: seq<Entry>): set<nat> {
    set v | v in adj && |adj[v]| in DegreeSet(report)
  }

  lemma {:induction false} DegreeSumUnion(adj: Adjacency, a: set<nat>, b: set<nat>)
    requires a + b <= adj.Keys && a !! b
    ensures DegreeSumOver(adj, a + b) == DegreeSumOver(adj, a) + DegreeSumOver(adj, b)
    decreases |a|
  {
    if a == {} {
      assert a + b == b;
    } else {
      var x :| x in a;
      DegreeSumRemove(adj, a + b, x);
      DegreeSumRemove(adj, a, x);
      assert (a + b) - {x} == (a - {x}) + b;
      DegreeSumUnion(adj, a - {x}, b);
    }
  }

  lemma {:induction false} DegreeSumUniform(adj: Adjacency, s: set<nat>, d: nat)
    requires s <= adj.Keys
    requires forall v :: v in s ==> |adj[v]| == d
    ensures DegreeSumOver(adj, s) == d * |s|
    decreases |s|
  {
    if s != {} {
      var x := Pick(s);
      DegreeSumUniform(adj, s - {x}, d);
    }
  }

  /** The vertices a report covers split into those of its first degree and those the rest covers. */
  lemma CoveredSplit(adj: Adjacency, report: seq<Entry>)
    requires |report| > 0 && DistinctDegrees(report)
    ensures Covered(adj, report) == OfDegree(adj, report[0].0) + Covered(adj, report[1..])
    ensures OfDegree(adj, report[0].0) !! Covered(adj, report[1..])
  {
    var t := report[1..];
    assert DegreeSet(report) == {report[0].0} + DegreeSet(t) by {
      forall k | 0 <= k < |t|
        ensures t[k].0 == report[k + 1].0
      {
      }
      assert report[0].0 in DegreeSet(report);
    }
    forall v | v in Covered(adj, t)
      ensures |adj[v]| != report[0].0
    {
      var k :| 0 <= k < |t| && t[k].0 == |adj[v]|;
      assert report[k + 1].0 != report[0].0;
    }
  }

  lemma {:induction false} TotalsOverCovered(adj: Adjacency, report: seq<Entry>)
    requires forall k :: 0 <= k < |report| ==> report[k].1 == |OfDegree(adj, report[k].0)|
    requires DistinctDegrees(report)
    ensures SumCounts(report) == |Covered(adj, report)|
    ensures WeightedSum(report) == DegreeSumOver(adj, Covered(adj, report))
    decreases |report|
  {
    if |report| == 0 {
      assert Covered(adj, report) == {};
    } else {
      var t := report[1..];
      assert forall k :: 0 <= k < |t| ==> t[k] == report[k + 1];
      TotalsOverCovered(adj, t);
      var here := OfDegree(adj, report[0].0);
      var later := Covered(adj, t);
      CoveredSplit(adj, report);
      DegreeSumUnion(adj, here, later);
      DegreeSumUniform(adj, here, report[0].0);
    }
  }

  /**
    A report that lists the distribution's entries, each once, accounts for
    every vertex exactly once, and its degree-weighted total is the degree sum
    the average is taken over.
  */
  lemma ReportTotals(adj: Adjacency, report: seq<Entry>)
    requires forall x :: x in report <==> x.0 in Distribution(adj) && Distribution(adj)[x.0] == x.1
    requires DistinctDegrees(report)
    ensures SumCounts(report) == |adj|
    ensures WeightedSum(report) == DegreeSum(adj)
  {
    forall k | 0 <= k < |report|
      ensures report[k].1 == |OfDegree(adj, report[k].0)|
    {
      assert report[k] in report;
    }
    TotalsOverCovered(adj, report);
    forall v | v in adj
      ensures |adj[v]| in DegreeSet(report)
    {
      var d := |adj[v]|;
      assert d in DegreesOver(adj, adj.Keys);
      assert (d, Distribution(adj)[d]) in report;
      var k :| 0 <= k < |report| && report[k] == (d, Distribution(adj)[d]);
    }
    assert Covered(adj, report) == adj.Keys;
  }
}
