/**
 * What AdjacencyListGraph.h and Graph.h share: a neighbour list per vertex
 * (`adjacency_list_`, a Vector<Vector<int>>, here a sequence of sequences),
 * the first-match search and erase both `remove_edge`s perform on a list, and
 * the breadth-first and depth-first traversals both classes implement word for
 * word. The `visited` vector, the Queue and the Stack of the traversals are
 * local sequences here.
 */
module AdjacencyLists {

  /** The edge_exists scan: true iff x occurs in the list. */
  method Contains(list: seq<int>, x: int) returns (found: bool)
    ensures found <==> x in list
  {
    var i := 0;
    while i < |list|
      invariant 0 <= i <= |list| && x !in list[..i]
    {
      if list[i] == x {
        return true;
      }
      i := i + 1;
    }
    assert list[..i] == list;
    return false;
  }

  /** The index of the first occurrence of x, or |list| when there is none. */
  method FindFirst(list: seq<int>, x: int) returns (i: int)
    ensures 0 <= i <= |list| && x !in list[..i]
    ensures i < |list| ==> list[i] == x
    ensures i == |list| ==> x !in list
  {
    i := 0;
    while i < |list|
      invariant 0 <= i <= |list| && x !in list[..i]
    {
      if list[i] == x {
        return;
      }
      i := i + 1;
    }
    assert list[..i] == list;
  }

  /** The list with its first occurrence of x erased; unchanged when x is absent. */
  function RemoveFirst(s: seq<int>, x: int): (r: seq<int>)
    ensures x !in s ==> r == s
    ensures x in s ==> |r| == |s| - 1 && multiset(r) == multiset(s) - multiset{x}
  {
    if s == [] then []
    else if s[0] == x then
      assert s == [s[0]] + s[1..];
      s[1..]
    else
      assert s == [s[0]] + s[1..];
      [s[0]] + RemoveFirst(s[1..], x)
  }

  /** Erasing never introduces an entry. */
  lemma RemoveFirstKeeps(s: seq<int>, x: int)
    ensures forall y :: y in RemoveFirst(s, x) ==> y in s
  {
    forall y | y in RemoveFirst(s, x)
      ensures y in s
    {
      assert y in multiset(RemoveFirst(s, x));
    }
  }

  /** Erasing at the first match found by FindFirst is RemoveFirst. */
  lemma {:induction false} RemoveFirstAt(s: seq<int>, x: int, i: int)
    requires 0 <= i < |s| && s[i] == x && x !in s[..i]
    ensures RemoveFirst(s, x) == s[..i] + s[i + 1..]
    decreases i
  {
    if i > 0 {
      assert s[0] != x by { assert s[0] == s[..i][0]; }
      assert s[1..][..i - 1] == s[..i][1..];
      RemoveFirstAt(s[1..], x, i - 1);
      RemoveFirstSkip(s, x, i);
    }
  }

  /** A head other than x stays in front of what erasing from the tail leaves. */
  lemma RemoveFirstSkip(s: seq<int>, x: int, i: int)
    requires 0 < i < |s| && s[0] != x
    requires RemoveFirst(s[1..], x) == s[1..][..i - 1] + s[1..][i..]
    ensures RemoveFirst(s, x) == s[..i] + s[i + 1..]
  {
    var t := s[1..];
    assert RemoveFirst(s, x) == [s[0]] + (t[..i - 1] + t[i..]);
    assert s[..i] == [s[0]] + t[..i - 1];
    assert s[i + 1..] == t[i..];
  }

  /** The search-then-erase loop of remove_edge applied to one list. */
  method EraseFirst(list: seq<int>, x: int) returns (r: seq<int>)
    ensures r == RemoveFirst(list, x)
  {
    var i := FindFirst(list, x);
    if i < |list| {
      RemoveFirstAt(list, x, i);
      r := list[..i] + list[i + 1..];
    } else {
      r := list;
    }
  }

  predicate Distinct(s: seq<int>)
  {
    forall i, j :: 0 <= i < j < |s| ==> s[i] != s[j]
  }

  /** In a list without duplicates, RemoveFirst removes x entirely and nothing else. */
  lemma RemoveFirstDistinct(s: seq<int>, x: int)
    requires Distinct(s)
    ensures var r := RemoveFirst(s, x);
      Distinct(r) && x !in r && forall y :: y != x ==> (y in r <==> y in s)
  {
    if x in s {
      var i :| 0 <= i < |s| && s[i] == x;
      assert x !in s[..i];
      RemoveFirstAt(s, x, i);
      EraseDistinct(s, i);
    }
  }

  /** Erasing index i of a list without duplicates removes exactly s[i]. */
  lemma EraseDistinct(s: seq<int>, i: int)
    requires Distinct(s) && 0 <= i < |s|
    ensures var r := s[..i] + s[i + 1..];
      Distinct(r) && s[i] !in r && forall y :: y != s[i] ==> (y in r <==> y in s)
  {
    var r := s[..i] + s[i + 1..];
    assert forall a :: 0 <= a < |r| ==> r[a] == if a < i then s[a] else s[a + 1];
    forall y | y != s[i] && y in s
      ensures y in r
    {
      var k :| 0 <= k < |s| && s[k] == y;
      assert r[if k < i then k else k - 1] == y;
    }
  }

  /** Every vertex below n has a list, and every list entry names a vertex in [0, n). */
  ghost predicate WellFormed(adj: seq<seq<int>>, n: int)
  {
    n <= |adj| && forall u, k :: 0 <= u < |adj| && 0 <= k < |adj[u]| ==> 0 <= adj[u][k] < n
  }

  /** p is a non-empty walk: each vertex has a list and each step follows a list entry. */
  ghost predicate Walk(adj: seq<seq<int>>, p: seq<int>)
    decreases |p|
  {
    |p| > 0 && 0 <= p[0] < |adj| && (|p| > 1 ==> p[1] in adj[p[0]] && Walk(adj, p[1..]))
  }

  /** v can be reached from s by following list entries (zero or more steps). */
  ghost predicate Reachable(adj: seq<seq<int>>, s: int, v: int)
  {
    exists p :: Walk(adj, p) && p[0] == s && p[|p| - 1] == v
  }

  /** Every list entry of a member of `order` is itself a member. */
  ghost predicate Closed(adj: seq<seq<int>>, order: seq<int>)
  {
    forall u, w :: u in order && 0 <= u < |adj| && w in adj[u] ==> w in order
  }

  /** The number of vertices marked visited. */
  function CountTrue(visited: seq<bool>): (c: nat)
    ensures c <= |visited|
  {
    if visited == [] then 0 else (if visited[0] then 1 else 0) + CountTrue(visited[1..])
  }

  lemma {:induction false} CountMark(visited: seq<bool>, x: int)
    requires 0 <= x < |visited| && !visited[x]
    ensures CountTrue(visited[x := true]) == CountTrue(visited) + 1
    decreases |visited|
  {
    if x > 0 {
      assert visited[x := true][1..] == visited[1..][x - 1 := true];
      CountMark(visited[1..], x - 1);
    } else {
      assert visited[x := true][1..] == visited[1..];
    }
  }

  lemma {:induction false} CountNone(visited: seq<bool>)
    requires forall i :: 0 <= i < |visited| ==> !visited[i]
    ensures CountTrue(visited) == 0
    decreases |visited|
  {
    if visited != [] {
      CountNone(visited[1..]);
    }
  }

  lemma {:induction false} WalkAppend(adj: seq<seq<int>>, p: seq<int>, w: int)
    requires Walk(adj, p) && 0 <= p[|p| - 1] < |adj| && w in adj[p[|p| - 1]] && 0 <= w < |adj|
    ensures Walk(adj, p + [w])
    decreases |p|
  {
    if |p| > 1 {
      WalkAppend(adj, p[1..], w);
      assert (p + [w])[1..] == p[1..] + [w];
    }
  }

  /** Following one more list entry keeps a vertex reachable. */
  lemma ReachStep(adj: seq<seq<int>>, s: int, u: int, w: int)
    requires Reachable(adj, s, u) && 0 <= u < |adj| && w in adj[u] && 0 <= w < |adj|
    ensures Reachable(adj, s, w)
  {
    var p :| Walk(adj, p) && p[0] == s && p[|p| - 1] == u;
    WalkAppend(adj, p, w);
    assert (p + [w])[0] == s;
  }

  lemma StartReachable(adj: seq<seq<int>>, s: int)
    requires 0 <= s < |adj|
    ensures Reachable(adj, s, s)
  {
    assert Walk(adj, [s]);
  }

  lemma {:induction false} WalkStaysIn(adj: seq<seq<int>>, order: seq<int>, p: seq<int>)
    requires Closed(adj, order) && Walk(adj, p) && p[0] in order
    ensures p[|p| - 1] in order
    decreases |p|
  {
    if |p| > 1 {
      WalkStaysIn(adj, order, p[1..]);
    }
  }

  /** A closed set holding s holds everything reachable from s. */
  lemma ClosedHoldsReachable(adj: seq<seq<int>>, order: seq<int>, s: int)
    requires Closed(adj, order) && s in order
    ensures forall v :: Reachable(adj, s, v) ==> v in order
  {
    forall v | Reachable(adj, s, v)
      ensures v in order
    {
      var p :| Walk(adj, p) && p[0] == s && p[|p| - 1] == v;
      WalkStaysIn(adj, order, p);
    }
  }

  /** Every list entry of u is marked visited. */
  ghost predicate NeighboursVisited(adj: seq<seq<int>>, visited: seq<bool>, u: int)
  {
    0 <= u < |adj| && forall w :: w in adj[u] ==> 0 <= w < |visited| && visited[w]
  }

  /** Every list entry of u is marked visited or still waits on the stack. */
  ghost predicate NeighboursCovered(adj: seq<seq<int>>, visited: seq<bool>, stack: seq<int>, u: int)
  {
    0 <= u < |adj| && forall w :: w in adj[u] ==> 0 <= w < |visited| && (visited[w] || w in stack)
  }

  /** Marking one more vertex keeps every member's neighbours visited. */
  lemma MarkKeepsVisited(adj: seq<seq<int>>, visited: seq<bool>, x: int, us: seq<int>)
    requires 0 <= x < |visited|
    requires forall u :: u in us ==> NeighboursVisited(adj, visited, u)
    ensures forall u :: u in us ==> NeighboursVisited(adj, visited[x := true], u)
  {
  }

  /** Pushing one more vertex keeps every member's neighbours covered. */
  lemma PushKeepsCovered(adj: seq<seq<int>>, visited: seq<bool>, stack: seq<int>, x: int, us: seq<int>)
    requires forall u :: u in us ==> NeighboursCovered(adj, visited, stack, u)
    ensures forall u :: u in us ==> NeighboursCovered(adj, visited, stack + [x], u)
  {
  }

  /** Popping a vertex and marking it keeps every member's neighbours covered. */
  lemma PopKeepsCovered(adj: seq<seq<int>>, visited: seq<bool>, below: seq<int>, x: int, us: seq<int>)
    requires 0 <= x < |visited|
    requires forall u :: u in us ==> NeighboursCovered(adj, visited, below + [x], u)
    ensures forall u :: u in us ==> NeighboursCovered(adj, visited[x := true], below, u)
  {
  }

  /**
   * The inner loop of bfs: marks and enqueues the unmarked list entries of
   * `current`, first entry first. The vertices seen so far stay marked and
   * reachable, and `current`'s list entries all become marked.
   */
  method EnqueueUnvisited(adj: seq<seq<int>>, n: int, start: int, current: int, visited0: seq<bool>,
                          queue0: seq<int>, ghost order: seq<int>, ghost seen0: seq<int>)
      returns (visited: seq<bool>, queue: seq<int>, ghost seen: seq<int>)
    requires WellFormed(adj, n) && 0 <= current < n && Reachable(adj, start, current)
    requires |visited0| == n && seen0 == order + queue0 && |order| > 0 && seen0[0] == start
    requires Distinct(seen0) && CountTrue(visited0) == |seen0|
    requires forall v :: v in seen0 ==> 0 <= v < n && Reachable(adj, start, v)
    requires forall v :: 0 <= v < n ==> (visited0[v] <==> v in seen0)
    requires forall u :: u in order[..|order| - 1] ==> NeighboursVisited(adj, visited0, u)
    ensures |visited| == n && seen == order + queue && seen[0] == start
    ensures Distinct(seen) && CountTrue(visited) == |seen|
    ensures forall v :: v in seen ==> 0 <= v < n && Reachable(adj, start, v)
    ensures forall v :: 0 <= v < n ==> (visited[v] <==> v in seen)
    ensures forall u :: u in order[..|order| - 1] ==> NeighboursVisited(adj, visited, u)
    ensures NeighboursVisited(adj, visited, current)
  {
    visited, queue, seen := visited0, queue0, seen0;
    var neighbours := adj[current];
    var i := 0;
    while i < |neighbours|
      invariant 0 <= i <= |neighbours|
      invariant |visited| == n && seen == order + queue && seen[0] == start
      invariant Distinct(seen) && CountTrue(visited) == |seen|
      invariant forall v :: v in seen ==> 0 <= v < n && Reachable(adj, start, v)
      invariant forall v :: 0 <= v < n ==> (visited[v] <==> v in seen)
      invariant forall u :: u in order[..|order| - 1] ==> NeighboursVisited(adj, visited, u)
      invariant forall k :: 0 <= k < i ==> visited[neighbours[k]]
    {
      var w := neighbours[i];
      assert 0 <= w < n;
      if !visited[w] {
        CountMark(visited, w);
        ReachStep(adj, start, current, w);
        MarkKeepsVisited(adj, visited, w, order[..|order| - 1]);
        visited := visited[w := true];
        queue := queue + [w];
        seen := seen + [w];
      }
      i := i + 1;
    }
  }

  /**
   * What holds between turns of bfs's loop: `seen` is the output followed by
   * the queue, holds distinct reachable vertices, and is exactly what is
   * marked; every output vertex has all its list entries marked.
   */
  ghost predicate BfsInvariant(adj: seq<seq<int>>, n: int, start: int, visited: seq<bool>,
                               order: seq<int>, queue: seq<int>, seen: seq<int>)
  {
    |visited| == n && seen == order + queue && |seen| > 0 && seen[0] == start &&
    Distinct(seen) && CountTrue(visited) == |seen| &&
    (forall v :: v in seen ==> 0 <= v < n && Reachable(adj, start, v)) &&
    (forall v :: 0 <= v < n ==> (visited[v] <==> v in seen)) &&
    (forall u :: u in order ==> NeighboursVisited(adj, visited, u))
  }

  /** One turn of bfs's loop: dequeue a vertex, output it and enqueue its unmarked list entries. */
  method BfsStep(adj: seq<seq<int>>, n: int, start: int, visited0: seq<bool>, order0: seq<int>,
                 queue0: seq<int>, ghost seen0: seq<int>)
      returns (visited: seq<bool>, order: seq<int>, queue: seq<int>, ghost seen: seq<int>)
    requires WellFormed(adj, n) && queue0 != []
    requires BfsInvariant(adj, n, start, visited0, order0, queue0, seen0)
    ensures BfsInvariant(adj, n, start, visited, order, queue, seen)
    ensures |order| == |order0| + 1
  {
    var current := queue0[0];
    assert current in seen0;
    queue := queue0[1..];
    order := order0 + [current];
    assert seen0 == order + queue;
    visited, queue, seen := EnqueueUnvisited(adj, n, start, current, visited0, queue, order, seen0);
    assert NeighboursVisited(adj, visited, current);
    assert forall u :: u in order ==> u in order[..|order| - 1] || u == current;
  }

  /**
   * bfs: marks the start, then repeatedly dequeues a vertex, appends it to the
   * output and enqueues its unmarked list entries, marking them. The output
   * starts with the start and holds each vertex reachable from it exactly once.
   */
  method Bfs(adj: seq<seq<int>>, n: int, start: int) returns (order: seq<int>)
    requires WellFormed(adj, n) && 0 <= start < n
    ensures |order| > 0 && order[0] == start
    ensures Distinct(order)
    ensures forall v :: v in order <==> 0 <= v < n && Reachable(adj, start, v)
  {
    var visited := seq(n, _ => false);
    CountNone(visited);
    CountMark(visited, start);
    visited := visited[start := true];
    var queue := [start];
    StartReachable(adj, start);
    order := [];
    ghost var seen := [start];
    while queue != []
      invariant BfsInvariant(adj, n, start, visited, order, queue, seen)
      decreases n - |order|
    {
      visited, order, queue, seen := BfsStep(adj, n, start, visited, order, queue, seen);
    }
    assert seen == order + [] == order;
    assert Closed(adj, order);
    ClosedHoldsReachable(adj, order, start);
  }

  /**
   * The inner loop of dfs: pushes the unmarked list entries of `current`, last
   * entry first. Members of `prior` stay covered and `current` becomes covered.
   */
  method PushUnvisited(adj: seq<seq<int>>, n: int, start: int, current: int, visited: seq<bool>,
                       stack0: seq<int>, ghost prior: seq<int>) returns (stack: seq<int>)
    requires WellFormed(adj, n) && 0 <= current < n && |visited| == n
    requires Reachable(adj, start, current)
    requires forall v :: v in stack0 ==> 0 <= v < n && Reachable(adj, start, v)
    requires forall u :: u in prior ==> NeighboursCovered(adj, visited, stack0, u)
    ensures forall v :: v in stack ==> 0 <= v < n && Reachable(adj, start, v)
    ensures forall u :: u in prior ==> NeighboursCovered(adj, visited, stack, u)
    ensures NeighboursCovered(adj, visited, stack, current)
  {
    stack := stack0;
    var neighbours := adj[current];
    var i := |neighbours| - 1;
    while i >= 0
      invariant -1 <= i < |neighbours|
      invariant forall v :: v in stack ==> 0 <= v < n && Reachable(adj, start, v)
      invariant forall u :: u in prior ==> NeighboursCovered(adj, visited, stack, u)
      invariant forall k :: i < k < |neighbours| ==> visited[neighbours[k]] || neighbours[k] in stack
    {
      var w := neighbours[i];
      assert 0 <= w < n;
      if !visited[w] {
        ReachStep(adj, start, current, w);
        PushKeepsCovered(adj, visited, stack, w, prior);
        stack := stack + [w];
      }
      i := i - 1;
    }
  }

  /**
   * dfs's loop body for an unmarked popped vertex: mark it, push its unmarked
   * list entries (PushUnvisited) and append it to the output.
   */
  method Expand(adj: seq<seq<int>>, n: int, start: int, current: int, visited0: seq<bool>,
                stack0: seq<int>, order0: seq<int>) returns (visited: seq<bool>, stack: seq<int>, order: seq<int>)
    requires WellFormed(adj, n) && 0 <= current < n && Reachable(adj, start, current)
    requires |visited0| == n && !visited0[current] && Distinct(order0) && CountTrue(visited0) == |order0|
    requires forall v :: v in order0 ==> 0 <= v < n && Reachable(adj, start, v)
    requires forall v :: v in stack0 ==> 0 <= v < n && Reachable(adj, start, v)
    requires forall v :: 0 <= v < n ==> (visited0[v] <==> v in order0)
    requires forall u :: u in order0 ==> NeighboursCovered(adj, visited0[current := true], stack0, u)
    ensures order == order0 + [current] && |visited| == n && Distinct(order) && CountTrue(visited) == |order|
    ensures forall v :: v in order ==> 0 <= v < n && Reachable(adj, start, v)
    ensures forall v :: v in stack ==> 0 <= v < n && Reachable(adj, start, v)
    ensures forall v :: 0 <= v < n ==> (visited[v] <==> v in order)
    ensures forall u :: u in order ==> NeighboursCovered(adj, visited, stack, u)
  {
    CountMark(visited0, current);
    visited := visited0[current := true];
    stack := PushUnvisited(adj, n, start, current, visited, stack0, order0);
    order := order0 + [current];
    assert forall u :: u in order ==> u in order0 || u == current;
  }

  /**
   * dfs: pops a vertex; when it is unmarked, marks it, appends it to the output
   * and pushes its unmarked list entries from the last to the first, so the
   * first entry is explored first. The output starts with the start and holds
   * each vertex reachable from it exactly once.
   */
  method Dfs(adj: seq<seq<int>>, n: int, start: int) returns (order: seq<int>)
    requires WellFormed(adj, n) && 0 <= start < n
    ensures |order| > 0 && order[0] == start
    ensures Distinct(order)
    ensures forall v :: v in order <==> 0 <= v < n && Reachable(adj, start, v)
  {
    var visited := seq(n, _ => false);
    CountNone(visited);
    var stack := [start];
    StartReachable(adj, start);
    order := [];
    while stack != []
      invariant |visited| == n && Distinct(order) && CountTrue(visited) == |order|
      invariant |order| == 0 ==> stack == [start]
      invariant |order| > 0 ==> order[0] == start
      invariant forall v :: v in order ==> 0 <= v < n && Reachable(adj, start, v)
      invariant forall v :: v in stack ==> 0 <= v < n && Reachable(adj, start, v)
      invariant forall v :: 0 <= v < n ==> (visited[v] <==> v in order)
      invariant forall u :: u in order ==> NeighboursCovered(adj, visited, stack, u)
      decreases n - |order|, |stack|
    {
      var current := stack[|stack| - 1];
      assert current in stack;
      var below := stack[..|stack| - 1];
      assert stack == below + [current];
      assert forall v :: v in below ==> v in stack;
      PopKeepsCovered(adj, visited, below, current, order);
      stack := below;
      if !visited[current] {
        visited, stack, order := Expand(adj, n, start, current, visited, stack, order);
      }
    }
    assert Closed(adj, order);
    ClosedHoldsReachable(adj, order, start);
  }
}
