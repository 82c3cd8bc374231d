/**
 * AdjacencyListGraph.h: a directed or undirected graph over vertices
 * 0 .. num_vertices - 1, one neighbour list per vertex plus one data value per
 * vertex. `add_edge` never stores an edge twice, and in undirected mode every
 * edge operation acts on both endpoints. This is the graph the index engine
 * builds its similarity graph on.
 */
module AdjacencyListGraphs {
  import opened Wrappers
  import opened AdjacencyLists

  /** The list with x appended unless it already holds x (the edge_exists test). */
  function AddIfAbsent(s: seq<int>, x: int): (r: seq<int>)
    ensures x in r && forall y :: y in r <==> y in s || y == x
    ensures Distinct(s) ==> Distinct(r)
  {
    if x in s then s else s + [x]
  }

  /** The lists after add_edge(from, to) with both endpoints in range. */
  function AddEdgeLists(adj: seq<seq<int>>, from: int, to: int, directed: bool): (r: seq<seq<int>>)
    requires 0 <= from < |adj| && 0 <= to < |adj|
    ensures |r| == |adj|
  {
    var a := adj[from := AddIfAbsent(adj[from], to)];
    if directed then a else a[to := AddIfAbsent(a[to], from)]
  }

  /** The lists after remove_edge(from, to) with both endpoints in range. */
  function RemoveEdgeLists(adj: seq<seq<int>>, from: int, to: int, directed: bool): (r: seq<seq<int>>)
    requires 0 <= from < |adj| && 0 <= to < |adj|
    ensures |r| == |adj|
  {
    var a := adj[from := RemoveFirst(adj[from], to)];
    if directed then a else a[to := RemoveFirst(a[to], from)]
  }

  /** has_edge: false for an out-of-range vertex, otherwise membership in the list of `from`. */
  function HasEdge(adj: seq<seq<int>>, n: int, from: int, to: int): bool
  {
    0 <= from < n && 0 <= to < n && from < |adj| && to in adj[from]
  }

  /** No list holds a vertex twice. */
  ghost predicate NoDuplicateEdges(adj: seq<seq<int>>)
  {
    forall u :: 0 <= u < |adj| ==> Distinct(adj[u])
  }

  /** Every edge is stored at both of its endpoints. */
  ghost predicate Symmetric(adj: seq<seq<int>>)
  {
    forall u, v :: 0 <= u < |adj| && 0 <= v < |adj| ==> (v in adj[u] <==> u in adj[v])
  }

  /** What add_edge does to membership: exactly the new edge (and its mirror) are added. */
  lemma AddEdgeMembers(adj: seq<seq<int>>, from: int, to: int, directed: bool)
    requires 0 <= from < |adj| && 0 <= to < |adj|
    ensures var r := AddEdgeLists(adj, from, to, directed);
      forall u, v :: 0 <= u < |adj| ==>
        (v in r[u] <==> v in adj[u] || (u == from && v == to) || (!directed && u == to && v == from))
  {
  }

  /** add_edge only touches the lists of its two endpoints. */
  lemma AddEdgeFrame(adj: seq<seq<int>>, from: int, to: int, directed: bool)
    requires 0 <= from < |adj| && 0 <= to < |adj|
    ensures var r := AddEdgeLists(adj, from, to, directed);
      forall u :: 0 <= u < |adj| && u != from && u != to ==> r[u] == adj[u]
  {
  }

  /** Adding an edge that is already there changes nothing, so add_edge is idempotent. */
  lemma AddEdgeIdempotent(adj: seq<seq<int>>, from: int, to: int, directed: bool)
    requires 0 <= from < |adj| && 0 <= to < |adj|
    ensures var r := AddEdgeLists(adj, from, to, directed);
      AddEdgeLists(r, from, to, directed) == r
  {
    var r := AddEdgeLists(adj, from, to, directed);
    AddEdgeMembers(adj, from, to, directed);
    assert to in r[from];
    assert !directed ==> from in r[to];
  }

  /** add_edge keeps the lists duplicate-free, in range and, when undirected, symmetric. */
  lemma AddEdgeKeeps(adj: seq<seq<int>>, n: int, from: int, to: int, directed: bool)
    requires WellFormed(adj, n) && NoDuplicateEdges(adj) && (!directed ==> Symmetric(adj))
    requires 0 <= from < n && 0 <= to < n
    ensures var r := AddEdgeLists(adj, from, to, directed);
      WellFormed(r, n) && NoDuplicateEdges(r) && (!directed ==> Symmetric(r))
  {
    var r := AddEdgeLists(adj, from, to, directed);
    AddEdgeMembers(adj, from, to, directed);
    forall u, k | 0 <= u < |r| && 0 <= k < |r[u]|
      ensures 0 <= r[u][k] < n
    {
      assert r[u][k] in r[u];
    }
  }

  /** What remove_edge does to duplicate-free lists: exactly the edge (and its mirror) go. */
  lemma RemoveEdgeMembers(adj: seq<seq<int>>, from: int, to: int, directed: bool)
    requires 0 <= from < |adj| && 0 <= to < |adj| && NoDuplicateEdges(adj)
    ensures var r := RemoveEdgeLists(adj, from, to, directed);
      NoDuplicateEdges(r) &&
      forall u, v :: 0 <= u < |adj| ==>
        (v in r[u] <==> v in adj[u] && !(u == from && v == to) && !(!directed && u == to && v == from))
  {
    var a := adj[from := RemoveFirst(adj[from], to)];
    RemoveFirstDistinct(adj[from], to);
    if !directed {
      RemoveFirstDistinct(a[to], from);
    }
  }

  /** remove_edge only touches the lists of its two endpoints. */
  lemma RemoveEdgeFrame(adj: seq<seq<int>>, from: int, to: int, directed: bool)
    requires 0 <= from < |adj| && 0 <= to < |adj|
    ensures var r := RemoveEdgeLists(adj, from, to, directed);
      forall u :: 0 <= u < |adj| && u != from && u != to ==> r[u] == adj[u]
  {
  }

  /** remove_edge keeps the lists duplicate-free, in range and, when undirected, symmetric. */
  lemma RemoveEdgeKeeps(adj: seq<seq<int>>, n: int, from: int, to: int, directed: bool)
    requires WellFormed(adj, n) && NoDuplicateEdges(adj) && (!directed ==> Symmetric(adj))
    requires 0 <= from < n && 0 <= to < n
    ensures var r := RemoveEdgeLists(adj, from, to, directed);
      WellFormed(r, n) && NoDuplicateEdges(r) && (!directed ==> Symmetric(r))
  {
    var r := RemoveEdgeLists(adj, from, to, directed);
    RemoveEdgeMembers(adj, from, to, directed);
    forall u, k | 0 <= u < |r| && 0 <= k < |r[u]|
      ensures 0 <= r[u][k] < n
    {
      assert r[u][k] in r[u];
    }
  }

  /** In an undirected graph has_edge(u, v) and has_edge(v, u) always agree. */
  lemma HasEdgeSymmetric(adj: seq<seq<int>>, n: int, u: int, v: int)
    requires WellFormed(adj, n) && Symmetric(adj)
    ensures HasEdge(adj, n, u, v) == HasEdge(adj, n, v, u)
  {
  }

  class AdjacencyListGraph<T> {
    var isDirected: bool
    var numVertices: int
    var adjacencyList: seq<seq<int>>
    var vertexData: seq<T>

    /**
     * One list and one data value per vertex; every list entry is a vertex below
     * numVertices, no list repeats an entry, and undirected graphs store each
     * edge at both ends. (numVertices may be negative when the constructor was
     * given a negative count; the lists then start empty.)
     */
    ghost predicate Valid()
      reads this
    {
      |adjacencyList| == |vertexData| && WellFormed(adjacencyList, numVertices) &&
      NoDuplicateEdges(adjacencyList) && (!isDirected ==> Symmetric(adjacencyList))
    }

    /** AdjacencyListGraph(is_directed, num_vertices): that many empty lists and default values. */
    constructor (directed: bool, count: int, defaultValue: T)
      ensures Valid() && isDirected == directed && numVertices == count
      ensures adjacencyList == seq(if count > 0 then count else 0, _ => [])
      ensures vertexData == seq(if count > 0 then count else 0, _ => defaultValue)
    {
      isDirected := directed;
      numVertices := count;
      var lists: seq<seq<int>> := [];
      var data: seq<T> := [];
      if count > 0 {
        var i := 0;
        while i < count
          invariant 0 <= i <= count
          invariant lists == seq(i, _ => []) && data == seq(i, _ => defaultValue)
        {
          lists := lists + [[]];
          data := data + [defaultValue];
          i := i + 1;
        }
      }
      adjacencyList := lists;
      vertexData := data;
    }

    /** add_vertex: one more vertex with an empty list and the given data. */
    method AddVertex(data: T)
      requires Valid()
      modifies this
      ensures Valid() && isDirected == old(isDirected)
      ensures numVertices == old(numVertices) + 1
      ensures adjacencyList == old(adjacencyList) + [[]]
      ensures vertexData == old(vertexData) + [data]
    {
      numVertices := numVertices + 1;
      vertexData := vertexData + [data];
      adjacencyList := adjacencyList + [[]];
      assert forall u :: 0 <= u < |old(adjacencyList)| ==> adjacencyList[u] == old(adjacencyList)[u];
    }

    /**
     * add_edge: throws when either endpoint is outside [0, num_vertices);
     * otherwise appends `to` to the list of `from` unless present, and in
     * undirected mode `from` to the list of `to` unless present.
     */
    method AddEdge(from: int, to: int) returns (ok: bool)
      requires Valid()
      modifies this
      ensures Valid() && unchanged(`isDirected, `numVertices, `vertexData)
      ensures ok <==> 0 <= from < numVertices && 0 <= to < numVertices
      ensures adjacencyList == if ok then AddEdgeLists(old(adjacencyList), from, to, isDirected) else old(adjacencyList)
    {
      if from < 0 || from >= numVertices || to < 0 || to >= numVertices {
        return false;
      }
      AddEdgeKeeps(adjacencyList, numVertices, from, to, isDirected);
      var exists1 := Contains(adjacencyList[from], to);
      if !exists1 {
        adjacencyList := adjacencyList[from := adjacencyList[from] + [to]];
      }
      if !isDirected {
        var exists2 := Contains(adjacencyList[to], from);
        if !exists2 {
          adjacencyList := adjacencyList[to := adjacencyList[to] + [from]];
        }
      }
      return true;
    }

    /**
     * remove_edge: throws on a bad endpoint; otherwise erases the first `to`
     * from the list of `from` and, in undirected mode, the first `from` from the
     * list of `to`. No other list changes.
     */
    method RemoveEdge(from: int, to: int) returns (ok: bool)
      requires Valid()
      modifies this
      ensures Valid() && unchanged(`isDirected, `numVertices, `vertexData)
      ensures ok <==> 0 <= from < numVertices && 0 <= to < numVertices
      ensures adjacencyList == if ok then RemoveEdgeLists(old(adjacencyList), from, to, isDirected) else old(adjacencyList)
    {
      if from < 0 || from >= numVertices || to < 0 || to >= numVertices {
        return false;
      }
      RemoveEdgeKeeps(adjacencyList, numVertices, from, to, isDirected);
      var list := EraseFirst(adjacencyList[from], to);
      adjacencyList := adjacencyList[from := list];
      if !isDirected {
        var list2 := EraseFirst(adjacencyList[to], from);
        adjacencyList := adjacencyList[to := list2];
      }
      return true;
    }

    /** has_edge: false (no throw) for an out-of-range vertex, otherwise a scan of the list of `from`. */
    method HasEdgeQuery(from: int, to: int) returns (b: bool)
      requires Valid()
      ensures b <==> 0 <= from < numVertices && 0 <= to < numVertices && to in adjacencyList[from]
    {
      if from < 0 || from >= numVertices || to < 0 || to >= numVertices {
        return false;
      }
      b := Contains(adjacencyList[from], to);
    }

    /** get_neighbors: a copy of the list; throws on a bad vertex. */
    method GetNeighbors(vertex: int) returns (r: Result<seq<int>>)
      requires Valid()
      ensures r.Ok? <==> 0 <= vertex < numVertices
      ensures r.Ok? ==> r.value == adjacencyList[vertex] && Distinct(r.value)
      ensures r.Ok? ==> forall w :: w in r.value ==> 0 <= w < numVertices
    {
      if vertex < 0 || vertex >= numVertices {
        return Err(IndexOutOfRange);
      }
      assert forall k :: 0 <= k < |adjacencyList[vertex]| ==> 0 <= adjacencyList[vertex][k] < numVertices;
      return Ok(adjacencyList[vertex]);
    }

    /** set_vertex_data: throws on a bad vertex; otherwise replaces that vertex's data only. */
    method SetVertexData(vertex: int, data: T) returns (ok: bool)
      requires Valid()
      modifies this
      ensures Valid() && unchanged(`isDirected, `numVertices, `adjacencyList)
      ensures ok <==> 0 <= vertex < numVertices
      ensures vertexData == if ok then old(vertexData)[vertex := data] else old(vertexData)
    {
      if vertex < 0 || vertex >= numVertices {
        return false;
      }
      vertexData := vertexData[vertex := data];
      return true;
    }

    /** get_vertex_data: throws on a bad vertex. */
    method GetVertexData(vertex: int) returns (r: Result<T>)
      requires Valid()
      ensures r.Ok? <==> 0 <= vertex < numVertices
      ensures r.Ok? ==> r.value == vertexData[vertex]
    {
      if vertex < 0 || vertex >= numVertices {
        return Err(IndexOutOfRange);
      }
      return Ok(vertexData[vertex]);
    }

    /** bfs: throws on an invalid start; otherwise each reachable vertex once, the start first. */
    method Bfs(start: int) returns (r: Result<seq<int>>)
      requires Valid()
      ensures r.Ok? <==> 0 <= start < numVertices
      ensures r.Ok? ==> |r.value| > 0 && r.value[0] == start && Distinct(r.value)
      ensures r.Ok? ==> forall v :: v in r.value <==> 0 <= v < numVertices && Reachable(adjacencyList, start, v)
    {
      if start < 0 || start >= numVertices {
        return Err(IndexOutOfRange);
      }
      var order := AdjacencyLists.Bfs(adjacencyList, numVertices, start);
      return Ok(order);
    }

    /** dfs: throws on an invalid start; otherwise each reachable vertex once, the start first. */
    method Dfs(start: int) returns (r: Result<seq<int>>)
      requires Valid()
      ensures r.Ok? <==> 0 <= start < numVertices
      ensures r.Ok? ==> |r.value| > 0 && r.value[0] == start && Distinct(r.value)
      ensures r.Ok? ==> forall v :: v in r.value <==> 0 <= v < numVertices && Reachable(adjacencyList, start, v)
    {
      if start < 0 || start >= numVertices {
        return Err(IndexOutOfRange);
      }
      var order := AdjacencyLists.Dfs(adjacencyList, numVertices, start);
      return Ok(order);
    }
  }
}
