/**
 * Graph.h: a directed or undirected graph that keeps an adjacency matrix of
 * booleans next to the neighbour lists. `has_edge` reads the matrix; the
 * lists feed `get_neighbors` and the traversals. Unlike AdjacencyListGraph,
 * `add_edge` appends to the lists even when the edge is already there, and
 * `remove_edge` erases only the first matching entry, so the lists can keep an
 * edge the matrix has dropped.
 */
module Graphs {
  import opened Wrappers
  import opened AdjacencyLists

  /** A row of k false cells (none when k is not positive). */
  function Falses(k: int): (r: seq<bool>)
    ensures |r| == (if k > 0 then k else 0) && forall j :: 0 <= j < |r| ==> !r[j]
  {
    seq(if k > 0 then k else 0, _ => false)
  }

  /** Every existing row with one more false cell at its end. */
  function Widen(m: seq<seq<bool>>): (r: seq<seq<bool>>)
    ensures |r| == |m| && forall i :: 0 <= i < |m| ==> r[i] == m[i] + [false]
  {
    seq(|m|, i requires 0 <= i < |m| => m[i] + [false])
  }

  /** The matrix with cell (i, j) set to b. */
  function SetCell(m: seq<seq<bool>>, i: int, j: int, b: bool): (r: seq<seq<bool>>)
    requires 0 <= i < |m| && 0 <= j < |m[i]|
    ensures |r| == |m| && forall k :: 0 <= k < |m| ==> |r[k]| == |m[k]|
    ensures r[i][j] == b
    ensures forall k, l :: 0 <= k < |m| && 0 <= l < |m[k]| && (k != i || l != j) ==> r[k][l] == m[k][l]
  {
    m[i := m[i][j := b]]
  }

  /** n rows and n columns. */
  ghost predicate Square(m: seq<seq<bool>>, n: int)
  {
    |m| == n && forall i :: 0 <= i < |m| ==> |m[i]| == n
  }

  /** At least n rows, each with at least n cells, so every (i, j) with i, j < n exists. */
  ghost predicate Covers(m: seq<seq<bool>>, n: int)
  {
    n <= |m| && forall i :: 0 <= i < |m| ==> n <= |m[i]|
  }

  /** Every cell outside the n by n corner is false (add_edge never reaches it). */
  ghost predicate OutsideFalse(m: seq<seq<bool>>, n: int)
  {
    forall i, j :: 0 <= i < |m| && 0 <= j < |m[i]| && (i >= n || j >= n) ==> !m[i][j]
  }

  /** Cell (i, j) equals cell (j, i) for all vertices below n. */
  ghost predicate MatrixSymmetric(m: seq<seq<bool>>, n: int)
    requires Covers(m, n)
  {
    forall i, j :: 0 <= i < n && 0 <= j < n ==> m[i][j] == m[j][i]
  }

  /** The matrix after add_edge(from, to) (set to true) or remove_edge (set to false). */
  function MarkEdge(m: seq<seq<bool>>, n: int, from: int, to: int, directed: bool, b: bool): (r: seq<seq<bool>>)
    requires Covers(m, n) && 0 <= from < n && 0 <= to < n
    ensures Covers(r, n)
  {
    var a := SetCell(m, from, to, b);
    if directed then a else SetCell(a, to, from, b)
  }

  /** The lists after add_edge(from, to): appended without any duplicate test. */
  function AppendEdge(adj: seq<seq<int>>, from: int, to: int, directed: bool): (r: seq<seq<int>>)
    requires 0 <= from < |adj| && 0 <= to < |adj|
    ensures |r| == |adj|
  {
    var a := adj[from := adj[from] + [to]];
    if directed then a else a[to := a[to] + [from]]
  }

  /** The lists after remove_edge(from, to): the first match erased at each end. */
  function EraseEdge(adj: seq<seq<int>>, from: int, to: int, directed: bool): (r: seq<seq<int>>)
    requires 0 <= from < |adj| && 0 <= to < |adj|
    ensures |r| == |adj|
  {
    var a := adj[from := RemoveFirst(adj[from], to)];
    if directed then a else a[to := RemoveFirst(a[to], from)]
  }

  /** has_edge: false for an out-of-range vertex, otherwise the matrix cell. */
  function MatrixHasEdge(m: seq<seq<bool>>, n: int, from: int, to: int): bool
    requires Covers(m, n)
  {
    0 <= from < n && 0 <= to < n && m[from][to]
  }

  /** add_vertex turns an n by n matrix into an n+1 by n+1 one, the new row and column false. */
  lemma AddVertexSquare(m: seq<seq<bool>>, n: int)
    requires n >= 0 && Square(m, n)
    ensures var r := Widen(m) + [Falses(n + 1)];
      Square(r, n + 1) &&
      (forall i, j :: 0 <= i < n && 0 <= j < n ==> r[i][j] == m[i][j]) &&
      (forall j :: 0 <= j <= n ==> !r[n][j] && !r[j][n])
  {
    var r := Widen(m) + [Falses(n + 1)];
    forall j | 0 <= j <= n
      ensures !r[j][n]
    {
      if j < n {
        assert r[j] == m[j] + [false];
      }
    }
  }

  /** add_vertex keeps every part of a graph's invariant, whatever the vertex count. */
  lemma AddVertexKeeps(m: seq<seq<bool>>, adj: seq<seq<int>>, n: int, directed: bool)
    requires |m| == |adj| && Covers(m, n) && WellFormed(adj, n) && OutsideFalse(m, n)
    requires !directed ==> MatrixSymmetric(m, n)
    ensures var r := Widen(m) + [Falses(n + 1)];
      |r| == |adj + [[]]| && Covers(r, n + 1) && WellFormed(adj + [[]], n + 1) &&
      OutsideFalse(r, n + 1) && (!directed ==> MatrixSymmetric(r, n + 1))
  {
    var r := Widen(m) + [Falses(n + 1)];
    forall i, j | 0 <= i < |r| && 0 <= j < |r[i]| && (i >= n || j >= n)
      ensures !r[i][j]
    {
      if i < |m| && j < |m[i]| {
        assert r[i][j] == m[i][j];
      }
    }
    var a := adj + [[]];
    forall u, k | 0 <= u < |a| && 0 <= k < |a[u]|
      ensures 0 <= a[u][k] < n + 1
    {
      assert a[u] == adj[u];
    }
  }

  /** The loop of add_vertex that appends a false cell to every existing row. */
  method WidenRows(m: seq<seq<bool>>) returns (matrix: seq<seq<bool>>)
    ensures matrix == Widen(m)
  {
    matrix := m;
    var i := 0;
    while i < |matrix|
      invariant 0 <= i <= |matrix| && |matrix| == |m|
      invariant forall k :: 0 <= k < i ==> matrix[k] == m[k] + [false]
      invariant forall k :: i <= k < |matrix| ==> matrix[k] == m[k]
    {
      matrix := matrix[i := matrix[i] + [false]];
      i := i + 1;
    }
  }

  /** The loop of add_vertex that builds the new vertex's row of `count` false cells. */
  method FalseRow(count: int) returns (row: seq<bool>)
    ensures row == Falses(count)
  {
    row := [];
    var j := 0;
    while j < count
      invariant 0 <= j && (count > 0 ==> j <= count) && (count <= 0 ==> j == 0)
      invariant row == Falses(j)
    {
      row := row + [false];
      j := j + 1;
    }
  }

  /** Setting or clearing an edge affects exactly its cell and, when undirected, the mirror cell. */
  lemma MarkEdgeCells(m: seq<seq<bool>>, n: int, from: int, to: int, directed: bool, b: bool)
    requires Covers(m, n) && 0 <= from < n && 0 <= to < n
    ensures var r := MarkEdge(m, n, from, to, directed, b);
      forall u, v :: 0 <= u < n && 0 <= v < n ==>
        MatrixHasEdge(r, n, u, v) ==
          if (u == from && v == to) || (!directed && u == to && v == from) then b
          else MatrixHasEdge(m, n, u, v)
  {
  }

  /** In undirected mode add_edge and remove_edge keep the matrix symmetric. */
  lemma MarkEdgeSymmetric(m: seq<seq<bool>>, n: int, from: int, to: int, b: bool)
    requires Covers(m, n) && 0 <= from < n && 0 <= to < n && MatrixSymmetric(m, n)
    ensures var r := MarkEdge(m, n, from, to, false, b);
      MatrixSymmetric(r, n)
  {
    var r := MarkEdge(m, n, from, to, false, b);
    MarkEdgeCells(m, n, from, to, false, b);
    forall i, j | 0 <= i < n && 0 <= j < n
      ensures r[i][j] == r[j][i]
    {
      assert MatrixHasEdge(r, n, i, j) == MatrixHasEdge(r, n, j, i);
    }
  }

  /** Adding the same edge twice leaves it twice in the list of `from`. */
  lemma AddEdgeTwiceDuplicates(adj: seq<seq<int>>, from: int, to: int, directed: bool)
    requires 0 <= from < |adj| && 0 <= to < |adj| && from != to
    ensures AppendEdge(AppendEdge(adj, from, to, directed), from, to, directed)[from] == adj[from] + [to, to]
  {
  }

  /**
   * After adding an absent edge twice and removing it once, has_edge is false
   * while the list of `from` still holds `to`.
   */
  lemma RemoveAfterDoubleAdd(m: seq<seq<bool>>, adj: seq<seq<int>>, n: int, from: int, to: int)
    requires Covers(m, n) && n <= |adj| && 0 <= from < n && 0 <= to < n && from != to
    requires to !in adj[from]
    ensures var lists := EraseEdge(AppendEdge(AppendEdge(adj, from, to, true), from, to, true), from, to, true);
      var cells := MarkEdge(MarkEdge(MarkEdge(m, n, from, to, true, true), n, from, to, true, true), n, from, to, true, false);
      !MatrixHasEdge(cells, n, from, to) && lists[from] == adj[from] + [to]
  {
    var twice := adj[from] + [to, to];
    assert AppendEdge(AppendEdge(adj, from, to, true), from, to, true)[from] == twice;
    assert twice[|adj[from]|] == to && to !in twice[..|adj[from]|];
    RemoveFirstAt(twice, to, |adj[from]|);
    assert twice[..|adj[from]|] + twice[|adj[from]| + 1..] == adj[from] + [to];
  }

  class Graph<T> {
    var isDirected: bool
    var numVertices: int
    var adjacencyMatrix: seq<seq<bool>>
    var adjacencyList: seq<seq<int>>
    var vertexData: seq<T>

    /**
     * One matrix row, one list and one data value per stored vertex; every cell
     * (i, j) with i, j below numVertices exists; list entries are vertices below
     * numVertices; cells outside the numVertices corner (possible only after a
     * negative initial count) are false; an undirected graph has a symmetric matrix.
     */
    ghost predicate Valid()
      reads this
    {
      |adjacencyMatrix| == |adjacencyList| == |vertexData| &&
      Covers(adjacencyMatrix, numVertices) && WellFormed(adjacencyList, numVertices) &&
      OutsideFalse(adjacencyMatrix, numVertices) &&
      (!isDirected ==> MatrixSymmetric(adjacencyMatrix, numVertices))
    }

    /** Graph(is_directed, num_vertices): an n by n all-false matrix, n empty lists, n default values. */
    constructor (directed: bool, count: int, defaultValue: T)
      ensures Valid() && isDirected == directed && numVertices == count
      ensures count >= 0 ==> Square(adjacencyMatrix, count)
      ensures forall i, j :: 0 <= i < |adjacencyMatrix| && 0 <= j < |adjacencyMatrix[i]| ==> !adjacencyMatrix[i][j]
      ensures adjacencyList == seq(if count > 0 then count else 0, _ => [])
      ensures vertexData == seq(if count > 0 then count else 0, _ => defaultValue)
    {
      isDirected := directed;
      numVertices := count;
      var matrix: seq<seq<bool>> := [];
      var lists: seq<seq<int>> := [];
      var data: seq<T> := [];
      if count > 0 {
        var i := 0;
        while i < count
          invariant 0 <= i <= count
          invariant |matrix| == i && forall k :: 0 <= k < i ==> matrix[k] == Falses(count)
          invariant lists == seq(i, _ => []) && data == seq(i, _ => defaultValue)
        {
          var row: seq<bool> := [];
          var j := 0;
          while j < count
            invariant 0 <= j <= count && row == Falses(j)
          {
            row := row + [false];
            j := j + 1;
          }
          matrix := matrix + [row];
          lists := lists + [[]];
          data := data + [defaultValue];
          i := i + 1;
        }
      }
      adjacencyMatrix := matrix;
      adjacencyList := lists;
      vertexData := data;
    }

    /**
     * add_vertex: one more vertex; each existing row gains a false cell and a
     * new all-false row of the new vertex count is appended, with an empty list
     * and the given data.
     */
    method AddVertex(data: T)
      requires Valid()
      modifies this
      ensures Valid() && isDirected == old(isDirected)
      ensures numVertices == old(numVertices) + 1
      ensures adjacencyMatrix == Widen(old(adjacencyMatrix)) + [Falses(numVertices)]
      ensures adjacencyList == old(adjacencyList) + [[]]
      ensures vertexData == old(vertexData) + [data]
    {
      AddVertexKeeps(adjacencyMatrix, adjacencyList, numVertices, isDirected);
      var matrix := WidenRows(adjacencyMatrix);
      var row := FalseRow(numVertices + 1);
      numVertices := numVertices + 1;
      vertexData := vertexData + [data];
      adjacencyMatrix := matrix + [row];
      adjacencyList := adjacencyList + [[]];
    }

    /**
     * add_edge: throws on a bad endpoint; otherwise sets the matrix cell and
     * appends `to` to the list of `from` (and the mirror when undirected), even
     * when the edge is already present.
     */
    method AddEdge(from: int, to: int) returns (ok: bool)
      requires Valid()
      modifies this
      ensures Valid() && unchanged(`isDirected, `numVertices, `vertexData)
      ensures ok <==> 0 <= from < numVertices && 0 <= to < numVertices
      ensures ok ==> adjacencyMatrix == MarkEdge(old(adjacencyMatrix), numVertices, from, to, isDirected, true)
      ensures ok ==> adjacencyList == AppendEdge(old(adjacencyList), from, to, isDirected)
      ensures !ok ==> unchanged(this)
    {
      if from < 0 || from >= numVertices || to < 0 || to >= numVertices {
        return false;
      }
      if !isDirected {
        MarkEdgeSymmetric(adjacencyMatrix, numVertices, from, to, true);
      }
      AppendKeepsWellFormed(adjacencyList, numVertices, from, to, isDirected);
      adjacencyMatrix := SetCell(adjacencyMatrix, from, to, true);
      adjacencyList := adjacencyList[from := adjacencyList[from] + [to]];
      if !isDirected {
        adjacencyMatrix := SetCell(adjacencyMatrix, to, from, true);
        adjacencyList := adjacencyList[to := adjacencyList[to] + [from]];
      }
      return true;
    }

    /**
     * remove_edge: throws on a bad endpoint; otherwise clears the matrix cell
     * and erases the first `to` from the list of `from` (and the mirrors when
     * undirected).
     */
    method RemoveEdge(from: int, to: int) returns (ok: bool)
      requires Valid()
      modifies this
      ensures Valid() && unchanged(`isDirected, `numVertices, `vertexData)
      ensures ok <==> 0 <= from < numVertices && 0 <= to < numVertices
      ensures ok ==> adjacencyMatrix == MarkEdge(old(adjacencyMatrix), numVertices, from, to, isDirected, false)
      ensures ok ==> adjacencyList == EraseEdge(old(adjacencyList), from, to, isDirected)
      ensures !ok ==> unchanged(this)
    {
      if from < 0 || from >= numVertices || to < 0 || to >= numVertices {
        return false;
      }
      if !isDirected {
        MarkEdgeSymmetric(adjacencyMatrix, numVertices, from, to, false);
      }
      EraseKeepsWellFormed(adjacencyList, numVertices, from, to, isDirected);
      adjacencyMatrix := SetCell(adjacencyMatrix, from, to, false);
      var list := EraseFirst(adjacencyList[from], to);
      adjacencyList := adjacencyList[from := list];
      if !isDirected {
        adjacencyMatrix := SetCell(adjacencyMatrix, to, from, false);
        var list2 := EraseFirst(adjacencyList[to], from);
        adjacencyList := adjacencyList[to := list2];
      }
      return true;
    }

    /** has_edge: false for an out-of-range vertex, otherwise the matrix cell. */
    method HasEdge(from: int, to: int) returns (b: bool)
      requires Valid()
      ensures b == MatrixHasEdge(adjacencyMatrix, numVertices, from, to)
      ensures b ==> 0 <= from < numVertices && 0 <= to < numVertices
      ensures b && !isDirected ==> MatrixHasEdge(adjacencyMatrix, numVertices, to, from)
    {
      if from < 0 || from >= numVertices || to < 0 || to >= numVertices {
        return false;
      }
      return adjacencyMatrix[from][to];
    }

    /** get_neighbors: a copy of the list; throws on a bad vertex. */
    method GetNeighbors(vertex: int) returns (r: Result<seq<int>>)
      requires Valid()
      ensures r.Ok? <==> 0 <= vertex < numVertices
      ensures r.Ok? ==> r.value == adjacencyList[vertex]
    {
      if vertex < 0 || vertex >= numVertices {
        return Err(IndexOutOfRange);
      }
      return Ok(adjacencyList[vertex]);
    }

    /** bfs over the lists: throws on an invalid start; otherwise each reachable vertex once. */
    method Bfs(start: int) returns (r: Result<seq<int>>)
      requires Valid()
      ensures r.Ok? <==> 0 <= start < numVertices
      ensures r.Ok? ==> |r.value| > 0 && r.value[0] == start && Distinct(r.value)
      ensures r.Ok? ==> forall v :: v in r.value <==> 0 <= v < numVertices && Reachable(adjacencyList, start, v)
    {
      if start < 0 || start >= numVertices {
        return Err(IndexOutOfRange);
      }
      var order := AdjacencyLists.Bfs(adjacencyList, numVertices, start);
      return Ok(order);
    }

    /** dfs over the lists: throws on an invalid start; otherwise each reachable vertex once. */
    method Dfs(start: int) returns (r: Result<seq<int>>)
      requires Valid()
      ensures r.Ok? <==> 0 <= start < numVertices
      ensures r.Ok? ==> |r.value| > 0 && r.value[0] == start && Distinct(r.value)
      ensures r.Ok? ==> forall v :: v in r.value <==> 0 <= v < numVertices && Reachable(adjacencyList, start, v)
    {
      if start < 0 || start >= numVertices {
        return Err(IndexOutOfRange);
      }
      var order := AdjacencyLists.Dfs(adjacencyList, numVertices, start);
      return Ok(order);
    }
  }

  /** Appending in-range endpoints keeps every list entry in range. */
  lemma AppendKeepsWellFormed(adj: seq<seq<int>>, n: int, from: int, to: int, directed: bool)
    requires WellFormed(adj, n) && 0 <= from < n && 0 <= to < n
    ensures WellFormed(AppendEdge(adj, from, to, directed), n)
  {
    var r := AppendEdge(adj, from, to, directed);
    forall u, k | 0 <= u < |r| && 0 <= k < |r[u]|
      ensures 0 <= r[u][k] < n
    {
      assert r[u][k] in r[u];
      assert forall x :: x in r[u] ==> x in adj[u] || x == from || x == to;
    }
  }

  /** Erasing entries keeps every list entry in range. */
  lemma EraseKeepsWellFormed(adj: seq<seq<int>>, n: int, from: int, to: int, directed: bool)
    requires WellFormed(adj, n) && 0 <= from < n && 0 <= to < n
    ensures WellFormed(EraseEdge(adj, from, to, directed), n)
  {
    var r := EraseEdge(adj, from, to, directed);
    var a := adj[from := RemoveFirst(adj[from], to)];
    RemoveFirstKeeps(adj[from], to);
    RemoveFirstKeeps(a[to], from);
    forall u, k | 0 <= u < |r| && 0 <= k < |r[u]|
      ensures 0 <= r[u][k] < n
    {
      assert r[u][k] in r[u];
    }
  }
}
