/**
 * DataStore.h's build_similarity_graph and the neighbour search of similar.
 * Records are arena positions; two records are close when their squared
 * distance is below 0.09 (distance_between below 0.3).
 */
module Similarity {
  import opened Stocks
  import opened StoreKeys
  import opened Sorting
  import opened AdjacencyLists
  import opened AdjacencyListGraphs
  import opened Ints

  /* ---------------- build_similarity_graph ---------------- */

  /** Whether record u is close to each of the records 0 .. n - 1. */
  ghost function NearRow(stocks: seq<Stock>, u: nat, n: nat): (r: seq<bool>)
    requires u < |stocks| && n <= |stocks|
    ensures |r| == n
  {
    if n == 0 then [] else NearRow(stocks, u, n - 1) + [Close(stocks[u], stocks[n - 1])]
  }

  lemma {:induction false} NearRowAt(stocks: seq<Stock>, u: nat, n: nat, v: nat)
    requires u < |stocks| && v < n <= |stocks|
    ensures NearRow(stocks, u, n)[v] == Close(stocks[u], stocks[v])
  {
    if v < n - 1 {
      NearRowAt(stocks, u, n - 1, v);
    }
  }

  /** The closeness matrix of records 0 .. n - 1 against every record. */
  ghost function Nearness(stocks: seq<Stock>, n: nat): (m: seq<seq<bool>>)
    requires n <= |stocks|
    ensures |m| == n && forall u :: 0 <= u < n ==> m[u] == NearRow(stocks, u, |stocks|)
  {
    if n == 0 then [] else Nearness(stocks, n - 1) + [NearRow(stocks, n - 1, |stocks|)]
  }

  /** The closeness matrix holds build_similarity_graph's test for every pair of records. */
  lemma NearnessAt(stocks: seq<Stock>, u: nat, v: nat)
    requires u < |stocks| && v < |stocks|
    ensures Nearness(stocks, |stocks|)[u][v] == Close(stocks[u], stocks[v])
  {
    NearRowAt(stocks, u, |stocks|, v);
  }

  /**
   * The double loop `for i, for j > i` has already visited the pair {u, v}
   * when it stands at (i, j).
   */
  predicate Visited(i: int, j: int, u: int, v: int)
  {
    u != v && (Min(u, v) < i || (Min(u, v) == i && Max(u, v) < j))
  }

  /** Every visited pair that the square matrix near marks, and nothing else, is an edge. */
  ghost predicate EdgesBefore(adj: seq<seq<int>>, near: seq<seq<bool>>, i: int, j: int)
  {
    |adj| == |near| && (forall u :: 0 <= u < |near| ==> |near[u]| == |near|) &&
    forall u, v :: 0 <= u < |near| && 0 <= v < |near| ==>
      (v in adj[u] <==> Visited(i, j, u, v) && near[u][v])
  }

  /** Moving from (i, j) to (i, j + 1) visits exactly the pair {i, j}. */
  lemma VisitedNext(i: int, j: int, u: int, v: int)
    requires 0 <= i < j
    ensures Visited(i, j + 1, u, v) <==> Visited(i, j, u, v) || (u == i && v == j) || (u == j && v == i)
  {
  }

  /** Visiting a pair that is not close adds nothing. */
  lemma FarStep(adj: seq<seq<int>>, near: seq<seq<bool>>, i: int, j: int)
    requires EdgesBefore(adj, near, i, j) && 0 <= i < j < |near|
    requires !near[i][j] && !near[j][i]
    ensures EdgesBefore(adj, near, i, j + 1)
  {
    forall u, v | 0 <= u < |near| && 0 <= v < |near|
      ensures v in adj[u] <==> Visited(i, j + 1, u, v) && near[u][v]
    {
      VisitedNext(i, j, u, v);
    }
  }

  /** Visiting a close pair adds the edge in both directions. */
  lemma NearStep(adj: seq<seq<int>>, near: seq<seq<bool>>, i: int, j: int)
    requires EdgesBefore(adj, near, i, j) && 0 <= i < j < |near|
    requires near[i][j] && near[j][i]
    ensures EdgesBefore(AddEdgeLists(adj, i, j, false), near, i, j + 1)
  {
    var r := AddEdgeLists(adj, i, j, false);
    AddEdgeMembers(adj, i, j, false);
    forall u, v | 0 <= u < |near| && 0 <= v < |near|
      ensures v in r[u] <==> Visited(i, j + 1, u, v) && near[u][v]
    {
      VisitedNext(i, j, u, v);
    }
  }

  /** Visiting (i, j) adds the undirected edge exactly when the pair is close. */
  lemma EdgeStep(adj: seq<seq<int>>, near: seq<seq<bool>>, i: int, j: int)
    requires EdgesBefore(adj, near, i, j) && 0 <= i < j < |near|
    requires near[i][j] == near[j][i]
    ensures EdgesBefore(if near[i][j] then AddEdgeLists(adj, i, j, false) else adj, near, i, j + 1)
  {
    if near[i][j] {
      NearStep(adj, near, i, j);
    } else {
      FarStep(adj, near, i, j);
    }
  }

  /** At the end of row i the visited pairs are those of the next row's start. */
  lemma RowDone(adj: seq<seq<int>>, near: seq<seq<bool>>, i: int)
    requires EdgesBefore(adj, near, i, |near|) && 0 <= i < |near|
    ensures EdgesBefore(adj, near, i + 1, i + 2)
  {
    forall u, v | 0 <= u < |near| && 0 <= v < |near|
      ensures v in adj[u] <==> Visited(i + 1, i + 2, u, v) && near[u][v]
    {
      assert Visited(i, |near|, u, v) == Visited(i + 1, i + 2, u, v);
    }
  }

  /**
   * The similarity graph of an arena: undirected, one vertex per record, and
   * an edge between two distinct records exactly when they are close.
   */
  ghost predicate SimilarityGraphOf(g: AdjacencyListGraph<int>, stocks: seq<Stock>)
    reads g
  {
    g.Valid() && !g.isDirected && g.numVertices == |stocks| == |g.adjacencyList| &&
    forall u, v :: 0 <= u < |stocks| && 0 <= v < |stocks| ==>
      (v in g.adjacencyList[u] <==> u != v && Close(stocks[u], stocks[v]))
  }

  /**
   * build_similarity_graph: an undirected graph with one vertex per record,
   * vertex u carrying u, and an edge between two distinct records exactly
   * when they are close.
   */
  method BuildSimilarityGraph(stocks: seq<Stock>) returns (g: AdjacencyListGraph<int>)
    ensures fresh(g) && g.Valid() && !g.isDirected && g.numVertices == |stocks|
    ensures |g.vertexData| == |stocks| && forall u :: 0 <= u < |stocks| ==> g.vertexData[u] == u
    ensures SimilarityGraphOf(g, stocks)
  {
    var n := |stocks|;
    g := new AdjacencyListGraph(false, n, 0);
    LabelVertices(g, n);
    ghost var data := g.vertexData;
    ghost var near := Nearness(stocks, n);
    var i := 0;
    while i < n
      invariant 0 <= i <= n && g.Valid() && !g.isDirected && g.numVertices == n && g.vertexData == data
      invariant EdgesBefore(g.adjacencyList, near, i, i + 1)
    {
      ConnectRow(g, stocks, i);
      RowDone(g.adjacencyList, near, i);
      i := i + 1;
    }
    forall u, v | 0 <= u < n && 0 <= v < n
      ensures v in g.adjacencyList[u] <==> u != v && Close(stocks[u], stocks[v])
    {
      NearnessAt(stocks, u, v);
    }
  }

  /** The first loop of build_similarity_graph: vertex u carries u. */
  method LabelVertices(g: AdjacencyListGraph<int>, n: nat)
    requires g.Valid() && !g.isDirected && g.numVertices == n
    requires g.adjacencyList == seq(n, _ => []) && |g.vertexData| == n
    modifies g
    ensures g.Valid() && !g.isDirected && g.numVertices == n
    ensures g.adjacencyList == seq(n, _ => []) && |g.vertexData| == n
    ensures forall u :: 0 <= u < n ==> g.vertexData[u] == u
  {
    var i := 0;
    while i < n
      invariant 0 <= i <= n && g.Valid() && !g.isDirected && g.numVertices == n
      invariant g.adjacencyList == seq(n, _ => []) && |g.vertexData| == n
      invariant forall u :: 0 <= u < i ==> g.vertexData[u] == u
    {
      var ok := g.SetVertexData(i, i);
      i := i + 1;
    }
  }

  /** The inner loop of build_similarity_graph: record i is joined to each later record close to it. */
  method ConnectRow(g: AdjacencyListGraph<int>, stocks: seq<Stock>, i: nat)
    requires i < |stocks| && g.Valid() && !g.isDirected && g.numVertices == |stocks|
    requires EdgesBefore(g.adjacencyList, Nearness(stocks, |stocks|), i, i + 1)
    modifies g
    ensures g.Valid() && !g.isDirected && g.numVertices == |stocks| && g.vertexData == old(g.vertexData)
    ensures EdgesBefore(g.adjacencyList, Nearness(stocks, |stocks|), i, |stocks|)
  {
    ghost var near := Nearness(stocks, |stocks|);
    var n := |stocks|;
    var j := i + 1;
    while j < n
      invariant i + 1 <= j <= n && g.Valid() && !g.isDirected && g.numVertices == n
      invariant g.vertexData == old(g.vertexData)
      invariant EdgesBefore(g.adjacencyList, near, i, j)
    {
      NearnessAt(stocks, i, j);
      NearnessAt(stocks, j, i);
      DistanceFacts(stocks[i], stocks[j]);
      EdgeStep(g.adjacencyList, near, i, j);
      if DistanceSq(stocks[i], stocks[j]) < 0.09 {
        var ok := g.AddEdge(i, j);
      }
      j := j + 1;
    }
  }

  /* ---------------- similar ---------------- */

  /** The squared distances of records 0 .. n - 1 from record `index`. */
  ghost function DistancesFrom(stocks: seq<Stock>, index: nat, n: nat): (d: seq<real>)
    requires index < |stocks| && n <= |stocks|
    ensures |d| == n && forall x :: 0 <= x < n ==> d[x] == DistanceSq(stocks[index], stocks[x])
  {
    if n == 0 then [] else DistancesFrom(stocks, index, n - 1) + [DistanceSq(stocks[index], stocks[n - 1])]
  }

  /** Each record other than `index` below n, with its distance dist[x], in arena order. */
  function Candidates(dist: seq<real>, index: nat, n: nat): (c: seq<(nat, real)>)
    requires n <= |dist|
    ensures |c| <= n
  {
    if n == 0 then
      []
    else
      var step := if n - 1 == index then [] else [(n - 1, dist[n - 1])];
      Candidates(dist, index, n - 1) + step
  }

  /** A candidate is exactly a record other than `index`, paired with its distance. */
  lemma {:induction false} CandidatesMeaning(dist: seq<real>, index: nat, n: nat, p: (nat, real))
    requires n <= |dist|
    ensures p in Candidates(dist, index, n) <==> p.0 < n && p.0 != index && p.1 == dist[p.0]
  {
    if n > 0 {
      CandidatesMeaning(dist, index, n - 1, p);
    }
  }

  /** Records other than `index` appear once each: n - 1 candidates when index < n. */
  lemma {:induction false} CandidatesCount(dist: seq<real>, index: nat, n: nat)
    requires n <= |dist|
    ensures |Candidates(dist, index, n)| == if index < n then n - 1 else n
  {
    if n > 0 {
      CandidatesCount(dist, index, n - 1);
    }
  }

  function Distance(p: (nat, real)): real
  {
    p.1
  }

  /** similar's first loop: every other record paired with its squared distance from `index`. */
  method DistancePairs(stocks: seq<Stock>, index: nat) returns (pairs: seq<(nat, real)>)
    requires index < |stocks|
    ensures pairs == Candidates(DistancesFrom(stocks, index, |stocks|), index, |stocks|)
    ensures |pairs| == |stocks| - 1
  {
    var n := |stocks|;
    ghost var dist := DistancesFrom(stocks, index, n);
    pairs := [];
    var i := 0;
    while i < n
      invariant 0 <= i <= n && pairs == Candidates(dist, index, i)
    {
      if i != index {
        pairs := pairs + [(i, DistanceSq(stocks[index], stocks[i]))];
      }
      i := i + 1;
    }
    CandidatesCount(dist, index, n);
  }

  /** The position of a record's pair in a sequence holding it. */
  lemma PositionOf(sorted: seq<(nat, real)>, p: (nat, real)) returns (q: nat)
    requires p in multiset(sorted)
    ensures q < |sorted| && sorted[q] == p
  {
    assert p in sorted;
    q :| 0 <= q < |sorted| && sorted[q] == p;
  }

  /**
   * Taking the leading records of the candidates sorted by distance gives
   * other records, nearest first, with no record left out nearer than one taken.
   */
  lemma NearestFirstBy(dist: seq<real>, index: nat, sorted: seq<(nat, real)>, out: seq<nat>)
    requires multiset(sorted) == multiset(Candidates(dist, index, |dist|)) && SortedBy(sorted, Distance)
    requires |out| <= |sorted| && forall j :: 0 <= j < |out| ==> out[j] == sorted[j].0
    ensures forall j :: 0 <= j < |out| ==> out[j] < |dist| && out[j] != index
    ensures forall a, b :: 0 <= a < b < |out| ==> dist[out[a]] <= dist[out[b]]
    ensures forall x, j :: 0 <= x < |dist| && x != index && x !in out && 0 <= j < |out| ==> dist[out[j]] <= dist[x]
  {
    var n := |dist|;
    forall j | 0 <= j < |sorted|
      ensures sorted[j].0 < n && sorted[j].0 != index && sorted[j].1 == dist[sorted[j].0]
    {
      assert sorted[j] in multiset(Candidates(dist, index, n));
      CandidatesMeaning(dist, index, n, sorted[j]);
    }
    forall x, j | 0 <= x < n && x != index && x !in out && 0 <= j < |out|
      ensures dist[out[j]] <= dist[x]
    {
      var p := (x, dist[x]);
      CandidatesMeaning(dist, index, n, p);
      var q := PositionOf(sorted, p);
      assert sorted[q].0 == x && x !in out;
      assert Distance(sorted[j]) <= Distance(sorted[q]);
    }
  }

  /** NearestFirstBy over the squared distances of the records from record `index`. */
  lemma NearestFirst(stocks: seq<Stock>, index: nat, dist: seq<real>, sorted: seq<(nat, real)>, out: seq<nat>)
    requires index < |stocks| && dist == DistancesFrom(stocks, index, |stocks|)
    requires multiset(sorted) == multiset(Candidates(dist, index, |stocks|))
    requires SortedBy(sorted, Distance)
    requires |out| <= |sorted| && forall j :: 0 <= j < |out| ==> out[j] == sorted[j].0
    ensures forall j :: 0 <= j < |out| ==> out[j] < |stocks| && out[j] != index
    ensures forall a, b :: 0 <= a < b < |out| ==>
      DistanceSq(stocks[index], stocks[out[a]]) <= DistanceSq(stocks[index], stocks[out[b]])
    ensures forall x, j :: 0 <= x < |stocks| && x != index && x !in out && 0 <= j < |out| ==>
      DistanceSq(stocks[index], stocks[out[j]]) <= DistanceSq(stocks[index], stocks[x])
  {
    NearestFirstBy(dist, index, sorted, out);
  }
}
