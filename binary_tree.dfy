/**
 * Binary_Tree_Lib.h: a binary tree filled in level order. `insert` walks the
 * nodes breadth-first with a queue and hangs the new node in the first free
 * child slot, so the tree is always complete. The class stores the values in
 * level order; node k's children are nodes 2k+1 and 2k+2, and Build turns the
 * sequence into the linked shape the source's recursive functions walk.
 */
module BinaryTrees {

  datatype BTree<T> = Nil | Node(val: T, left: BTree<T>, right: BTree<T>)

  /** search: some node holds the value. */
  predicate Search<T(==)>(t: BTree<T>, value: T)
  {
    match t
    case Nil => false
    case Node(v, l, r) => v == value || Search(l, value) || Search(r, value)
  }

  /** height: 0 for the empty tree, 1 + the taller child otherwise. */
  function Height<T>(t: BTree<T>): (h: nat)
    ensures h == 0 <==> t.Nil?
  {
    match t
    case Nil => 0
    case Node(_, l, r) => 1 + (if Height(l) > Height(r) then Height(l) else Height(r))
  }

  /** count_nodes. */
  function CountNodes<T>(t: BTree<T>): (c: nat)
    ensures c == 0 <==> t.Nil?
  {
    match t
    case Nil => 0
    case Node(_, l, r) => 1 + CountNodes(l) + CountNodes(r)
  }

  /** count_leaves: nodes without children. */
  function CountLeaves<T>(t: BTree<T>): (c: nat)
    ensures c <= CountNodes(t) && (t.Node? ==> c >= 1)
  {
    if t.Nil? then 0
    else if t.left.Nil? && t.right.Nil? then 1
    else CountLeaves(t.left) + CountLeaves(t.right)
  }

  /** The subtree rooted at level-order index k of a complete tree holding s. */
  function Build<T>(s: seq<T>, k: nat): (t: BTree<T>)
    ensures t.Node? <==> k < |s|
    ensures t.Node? ==> t.val == s[k]
    decreases |s| - k
  {
    if k >= |s| then Nil else Node(s[k], Build(s, 2 * k + 1), Build(s, 2 * k + 2))
  }

  /** k is j or an ancestor of j in level-order numbering. */
  ghost predicate Below(j: nat, k: nat)
    decreases j
  {
    j == k || (j > k && Below((j - 1) / 2, k))
  }

  lemma {:induction false} BelowRoot(j: nat)
    ensures Below(j, 0)
    decreases j
  {
    if j > 0 {
      BelowRoot((j - 1) / 2);
    }
  }

  lemma BelowAtLeast(j: nat, k: nat)
    ensures Below(j, k) ==> j >= k
  {
  }

  /** Below a node means at one of its children or below one of them. */
  lemma {:induction false} BelowSplit(j: nat, k: nat)
    requires j > k
    ensures Below(j, k) <==> Below(j, 2 * k + 1) || Below(j, 2 * k + 2)
    decreases j
  {
    var p := (j - 1) / 2;
    BelowAtLeast(p, k);
    BelowAtLeast(p, 2 * k + 1);
    BelowAtLeast(p, 2 * k + 2);
    if p > k {
      BelowSplit(p, k);
    }
  }

  /** The ancestors of a node form one chain. */
  lemma {:induction false} BelowChain(j: nat, a: nat, b: nat)
    requires Below(j, a) && Below(j, b) && a < b
    ensures Below(b, a)
    decreases j
  {
    BelowAtLeast(j, b);
    if j != b {
      BelowChain((j - 1) / 2, a, b);
    }
  }

  /** No node lies below both children of the same parent. */
  lemma SiblingsDisjoint(j: nat, k: nat)
    ensures !(Below(j, 2 * k + 1) && Below(j, 2 * k + 2))
  {
    if Below(j, 2 * k + 1) && Below(j, 2 * k + 2) {
      BelowChain(j, 2 * k + 1, 2 * k + 2);
      assert false;
    }
  }

  /** Appending a value adds one node to every subtree that will contain index |s|. */
  lemma {:induction false} AppendCount<T>(s: seq<T>, v: T, k: nat)
    ensures CountNodes(Build(s + [v], k)) == CountNodes(Build(s, k)) + (if Below(|s|, k) then 1 else 0)
    decreases |s| - k
  {
    var n := |s|;
    if k < n {
      AppendCount(s, v, 2 * k + 1);
      AppendCount(s, v, 2 * k + 2);
      BelowSplit(n, k);
      SiblingsDisjoint(n, k);
    } else if k > n {
      assert !Below(n, k);
    }
  }

  /** Appending a value makes it findable in every subtree that will contain index |s|. */
  lemma {:induction false} AppendSearch<T>(s: seq<T>, v: T, k: nat, x: T)
    ensures Search(Build(s + [v], k), x) <==> Search(Build(s, k), x) || (Below(|s|, k) && v == x)
    decreases |s| - k
  {
    var n := |s|;
    if k < n {
      AppendSearch(s, v, 2 * k + 1, x);
      AppendSearch(s, v, 2 * k + 2, x);
      BelowSplit(n, k);
    } else if k > n {
      assert !Below(n, k);
    }
  }

  /**
   * Appending a value at index n: a left child (n odd) turns its leaf parent
   * into an inner node, so the leaf count above the parent is unchanged; a
   * right child (n even, or the root) adds a leaf.
   */
  lemma {:induction false} AppendLeaves<T>(s: seq<T>, s': seq<T>, k: nat)
    requires |s'| == |s| + 1 && s'[..|s|] == s
    ensures CountLeaves(Build(s', k)) == CountLeaves(Build(s, k)) + LeafGain(|s|, k)
    decreases |s| - k
  {
    if k < |s| {
      AppendLeaves(s, s', 2 * k + 1);
      AppendLeaves(s, s', 2 * k + 2);
      AppendLeavesStep(s, s', k);
    } else {
      AppendLeavesBase(s, s', k);
    }
  }

  /** AppendLeaves where index k is not yet in the tree. */
  lemma AppendLeavesBase<T>(s: seq<T>, s': seq<T>, k: nat)
    requires |s'| == |s| + 1 && s'[..|s|] == s && k >= |s|
    ensures CountLeaves(Build(s', k)) == CountLeaves(Build(s, k)) + LeafGain(|s|, k)
  {
    BelowAtLeast(|s|, k);
    if k == |s| {
      assert Build(s', k) == Node(s'[k], Nil, Nil);
    }
  }

  /** The leaves subtree k gains when index n is added. */
  ghost function LeafGain(n: nat, k: nat): nat
  {
    if Below(n, k) && (k == n || n % 2 == 0) then 1 else 0
  }

  /** The inductive step of AppendLeaves at an existing node k. */
  lemma AppendLeavesStep<T>(s: seq<T>, s': seq<T>, k: nat)
    requires |s'| == |s| + 1 && s'[..|s|] == s && k < |s|
    requires CountLeaves(Build(s', 2 * k + 1)) == CountLeaves(Build(s, 2 * k + 1)) + LeafGain(|s|, 2 * k + 1)
    requires CountLeaves(Build(s', 2 * k + 2)) == CountLeaves(Build(s, 2 * k + 2)) + LeafGain(|s|, 2 * k + 2)
    ensures CountLeaves(Build(s', k)) == CountLeaves(Build(s, k)) + LeafGain(|s|, k)
  {
    var n := |s|;
    BelowSplit(n, k);
    SiblingsDisjoint(n, k);
    var l, r, l', r' := Build(s, 2 * k + 1), Build(s, 2 * k + 2), Build(s', 2 * k + 1), Build(s', 2 * k + 2);
    assert s'[k] == s[k];
    assert Build(s, k) == Node(s[k], l, r) && Build(s', k) == Node(s[k], l', r');
    if n < 2 * k + 1 {
      assert !Below(n, 2 * k + 1) && !Below(n, 2 * k + 2);
      assert l == r == l' == r' == Nil;
    } else if n == 2 * k + 1 {
      assert l == Nil && r == Nil && r' == Nil && l'.Node? && l'.left == Nil && l'.right == Nil;
      assert Below(n, k) && n % 2 == 1;
      LeavesOfLeafParent(s[k], l, r, l', r');
    } else {
      assert l.Node? && l'.Node?;
      LeavesOfInner(s[k], l, r);
      LeavesOfInner(s[k], l', r');
    }
  }

  /** A node with a left child counts the leaves of its children. */
  lemma LeavesOfInner<T>(d: T, l: BTree<T>, r: BTree<T>)
    requires l.Node?
    ensures CountLeaves(Node(d, l, r)) == CountLeaves(l) + CountLeaves(r)
  {
  }

  /** A leaf that gains a left leaf child still contributes one leaf. */
  lemma LeavesOfLeafParent<T>(d: T, l: BTree<T>, r: BTree<T>, l': BTree<T>, r': BTree<T>)
    requires l.Nil? && r.Nil? && l'.Node? && l'.left.Nil? && l'.right.Nil? && r'.Nil?
    ensures CountLeaves(Node(d, l, r)) == CountLeaves(Node(d, l', r')) == 1
  {
  }

  /** size() == the number of stored values. */
  lemma {:induction false} SizeIsLength<T>(s: seq<T>)
    ensures CountNodes(Build(s, 0)) == |s|
    decreases |s|
  {
    if s != [] {
      var init := s[..|s| - 1];
      assert s == init + [s[|s| - 1]];
      SizeIsLength(init);
      AppendCount(init, s[|s| - 1], 0);
      BelowRoot(|init|);
    }
  }

  /** search finds exactly the stored values. */
  lemma {:induction false} SearchIsMembership<T>(s: seq<T>, x: T)
    ensures Search(Build(s, 0), x) <==> x in s
    decreases |s|
  {
    if s != [] {
      var init := s[..|s| - 1];
      assert s == init + [s[|s| - 1]];
      SearchIsMembership(init, x);
      AppendSearch(init, s[|s| - 1], 0, x);
      BelowRoot(|init|);
    }
  }

  /** A complete tree of n nodes has ceil(n / 2) leaves. */
  lemma {:induction false} LeavesOfComplete<T>(s: seq<T>)
    ensures CountLeaves(Build(s, 0)) == (|s| + 1) / 2
    decreases |s|
  {
    if s != [] {
      var init := s[..|s| - 1];
      assert s == init + [s[|s| - 1]];
      LeavesOfComplete(init);
      AppendLeaves(init, s, 0);
      BelowRoot(|init|);
    }
  }

  function Pow2(e: nat): (p: nat)
    ensures p >= 1
  {
    if e == 0 then 1 else 2 * Pow2(e - 1)
  }

  /** The length of the left-most path down from level-order index k in a tree of n nodes. */
  function LeftDepth(k: nat, n: nat): nat
    decreases n - k
  {
    if k >= n then 0 else 1 + LeftDepth(2 * k + 1, n)
  }

  /** A node further right in level order never has a longer left-most path. */
  lemma {:induction false} LeftDepthAntitone(a: nat, b: nat, n: nat)
    requires a <= b
    ensures LeftDepth(b, n) <= LeftDepth(a, n)
    decreases n - a
  {
    if b < n {
      LeftDepthAntitone(2 * a + 1, 2 * b + 1, n);
    }
  }

  /** In a complete tree the left-most path is the longest, so it gives the height. */
  lemma {:induction false} HeightIsLeftDepth<T>(s: seq<T>, k: nat)
    ensures Height(Build(s, k)) == LeftDepth(k, |s|)
    decreases |s| - k
  {
    if k < |s| {
      HeightIsLeftDepth(s, 2 * k + 1);
      HeightIsLeftDepth(s, 2 * k + 2);
      LeftDepthAntitone(2 * k + 1, 2 * k + 2, |s|);
    }
  }

  /** Doubling the factor k + 1 halves the power of two it multiplies. */
  lemma Rescale(k: nat, p: nat)
    ensures (k + 1) * (2 * p) == (2 * k + 2) * p
    ensures (k + 1) * (4 * p) == (2 * k + 2) * (2 * p)
  {
  }

  /** Below node k, the left-most path has length d with (k+1) * 2^(d-1) <= n < (k+1) * 2^d. */
  lemma {:induction false} LeftDepthBounds(k: nat, n: nat)
    requires k < n
    ensures var d := LeftDepth(k, n);
      d >= 1 && (k + 1) * Pow2(d - 1) <= n < (k + 1) * Pow2(d)
    decreases n - k
  {
    if 2 * k + 1 < n {
      LeftDepthBounds(2 * k + 1, n);
      var d' := LeftDepth(2 * k + 1, n);
      var p := Pow2(d' - 1);
      assert (2 * k + 2) * p <= n < (2 * k + 2) * (2 * p);
      Rescale(k, p);
      assert Pow2(d') == 2 * p && Pow2(d' + 1) == 4 * p;
    } else {
      assert LeftDepth(2 * k + 1, n) == 0;
    }
  }

  /** A complete tree of n > 0 nodes has height h with 2^(h-1) <= n < 2^h, i.e. floor(log2 n) + 1. */
  lemma HeightOfComplete<T>(s: seq<T>)
    requires s != []
    ensures var h := Height(Build(s, 0));
      Pow2(h - 1) <= |s| < Pow2(h)
  {
    HeightIsLeftDepth(s, 0);
    LeftDepthBounds(0, |s|);
  }

  class BinaryTree<T(==)> {
    /** The node values in level order; index k's children are 2k+1 and 2k+2. */
    var values: seq<T>

    ghost function Root(): BTree<T>
      reads this
    {
      Build(values, 0)
    }

    constructor ()
      ensures Root() == Nil && values == []
    {
      values := [];
    }

    /** clear: the tree becomes empty. */
    method Clear()
      modifies this
      ensures Root() == Nil && values == []
    {
      values := [];
    }

    /**
     * insert: an empty tree gets the value as its root; otherwise nodes are
     * dequeued in level order and the value becomes the left child, else the
     * right child, of the first node missing one. That slot is index |values|,
     * so the value is appended to the level order.
     */
    method Insert(value: T)
      modifies this
      ensures values == old(values) + [value]
    {
      var n := |values|;
      if n == 0 {
        values := [value];
        return;
      }
      var queue := [0];
      var c := 0;
      while queue != []
        invariant 0 <= c && 2 * c < n && values == old(values)
        invariant queue == seq(c + 1, i => c + i)
        decreases n - c
      {
        var cur := queue[0];
        queue := queue[1..];
        if 2 * cur + 1 >= n {
          assert 2 * cur + 1 == n;
          values := values + [value];
          return;
        }
        queue := queue + [2 * cur + 1];
        if 2 * cur + 2 >= n {
          assert 2 * cur + 2 == n;
          values := values + [value];
          return;
        }
        queue := queue + [2 * cur + 2];
        c := c + 1;
      }
    }

    /** search(value). */
    method SearchValue(value: T) returns (found: bool)
      ensures found <==> value in values
    {
      SearchIsMembership(values, value);
      found := Search(Build(values, 0), value);
    }

    /** size(): count_nodes of the root. */
    method Size() returns (n: int)
      ensures n == |values|
    {
      SizeIsLength(values);
      n := CountNodes(Build(values, 0));
    }

    /** height(): 0 for an empty tree, otherwise floor(log2 n) + 1 for n nodes. */
    method TreeHeight() returns (h: int)
      ensures h == 0 <==> values == []
      ensures values != [] ==> h >= 1 && Pow2(h - 1) <= |values| < Pow2(h)
    {
      h := Height(Build(values, 0));
      if values != [] {
        HeightOfComplete(values);
      }
    }

    /** leaf_count(): a complete tree of n nodes has ceil(n / 2) leaves. */
    method LeafCount() returns (c: int)
      ensures c == (|values| + 1) / 2
    {
      LeavesOfComplete(values);
      c := CountLeaves(Build(values, 0));
    }
  }
}
