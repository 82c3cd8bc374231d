/**
 * AVLTree.h, instantiated as the engine's P/E index (AVLTree<StockPeKey>).
 * The ordering is the handles' operator< and operator>; their operator==
 * compares the record pointed to, modelled as the arena index `ref`.
 * insert_node and the rotations rewire nodes in place; here they build the
 * new subtree as a value, and the class stores it back into `root`.
 */
module AvlTrees {
  import opened AvlShape
  import opened Ints
  import opened Ranking

  type KeyTree = Tree<RankKey>

  /** get_balance: left cached height minus right cached height, 0 for null. */
  function GetBalance(t: KeyTree): int
  {
    if t.Nil? then 0 else GetHeight(t.left) - GetHeight(t.right)
  }

  /** Strictly ascending under the handle order. */
  ghost predicate Sorted(s: seq<RankKey>)
  {
    forall i, j :: 0 <= i < j < |s| ==> Less(s[i], s[j])
  }

  /** Some handle of s is equivalent to v (neither is < the other). */
  ghost predicate HasEquiv(s: seq<RankKey>, v: RankKey)
  {
    exists i :: 0 <= i < |s| && Equiv(s[i], v)
  }

  /**
   * The in-order effect of insert on a sorted sequence: v goes just before
   * the first handle greater than it, unless it meets an equivalent handle first.
   */
  function SeqInsert(s: seq<RankKey>, v: RankKey): (r: seq<RankKey>)
    ensures |r| == |s| || |r| == |s| + 1
    ensures |r| > 0
  {
    if |s| == 0 then [v]
    else if Less(v, s[0]) then [v] + s
    else if Less(s[0], v) then [s[0]] + SeqInsert(s[1..], v)
    else s
  }

  lemma EquivFacts(a: RankKey, b: RankKey, c: RankKey)
    ensures Equiv(a, b) ==> Equiv(b, a) && Less(a, c) == Less(b, c) && Less(c, a) == Less(c, b)
    ensures Equiv(a, b) ==> !Less(a, b) && !Less(b, a)
    ensures Less(a, b) || Less(b, a) || Equiv(a, b)
    ensures !(Less(a, b) && Less(b, a))
  {
    LessTrichotomy(a, b);
  }

  /** A handle below every handle of a sorted sequence can be put in front of it. */
  lemma SortedCons(h: RankKey, t: seq<RankKey>)
    requires Sorted(t) && forall i :: 0 <= i < |t| ==> Less(h, t[i])
    ensures Sorted([h] + t)
  {
    var r := [h] + t;
    forall i, j | 0 <= i < j < |r|
      ensures Less(r[i], r[j])
    {
      assert r[j] == t[j - 1];
      if i > 0 {
        assert r[i] == t[i - 1];
      }
    }
  }

  /** The head of a sorted sequence is below the rest. */
  lemma SortedTail(s: seq<RankKey>)
    requires Sorted(s) && |s| > 0
    ensures Sorted(s[1..]) && forall i :: 0 <= i < |s[1..]| ==> Less(s[0], s[1..][i])
  {
    forall i, j | 0 <= i < j < |s[1..]|
      ensures Less(s[1..][i], s[1..][j])
    {
      assert s[1..][i] == s[i + 1] && s[1..][j] == s[j + 1];
    }
  }

  /** Insertion either changes nothing or adds exactly one occurrence of v. */
  lemma {:induction false} SeqInsertMembers(s: seq<RankKey>, v: RankKey)
    ensures SeqInsert(s, v) == s || multiset(SeqInsert(s, v)) == multiset(s) + multiset{v}
    ensures |SeqInsert(s, v)| == |s| ==> SeqInsert(s, v) == s
    decreases |s|
  {
    if |s| > 0 && !Less(v, s[0]) && Less(s[0], v) {
      SeqInsertMembers(s[1..], v);
      assert s == [s[0]] + s[1..];
    }
  }

  /** Sorted insertion keeps the sequence sorted. */
  lemma {:induction false} SeqInsertSorted(s: seq<RankKey>, v: RankKey)
    requires Sorted(s)
    ensures Sorted(SeqInsert(s, v))
    decreases |s|
  {
    if |s| > 0 {
      var h := s[0];
      SortedTail(s);
      if Less(v, h) {
        forall i | 0 <= i < |s|
          ensures Less(v, s[i])
        {
          if i > 0 {
            assert s[i] == s[1..][i - 1];
            LessTransitive(v, h, s[i]);
          }
        }
        SortedCons(v, s);
      } else if Less(h, v) {
        var t := s[1..];
        SeqInsertSorted(t, v);
        SeqInsertMembers(t, v);
        var rt := SeqInsert(t, v);
        forall i | 0 <= i < |rt|
          ensures Less(h, rt[i])
        {
          var y := rt[i];
          assert y in multiset(rt);
          if y != v {
            assert y in multiset(t);
            var k :| 0 <= k < |t| && t[k] == y;
          }
        }
        SortedCons(h, rt);
      }
    }
  }

  /** In a sorted sequence, v is added exactly when no equivalent handle is present. */
  lemma {:induction false} SeqInsertEquiv(s: seq<RankKey>, v: RankKey)
    requires Sorted(s)
    ensures HasEquiv(s, v) <==> SeqInsert(s, v) == s
    decreases |s|
  {
    if |s| > 0 {
      var h := s[0];
      EquivFacts(h, v, h);
      SortedTail(s);
      if Less(v, h) {
        forall i | 0 <= i < |s|
          ensures !Equiv(s[i], v)
        {
          if i > 0 {
            assert s[i] == s[1..][i - 1];
            LessTransitive(v, h, s[i]);
          }
          EquivFacts(s[i], v, s[i]);
        }
        assert |SeqInsert(s, v)| != |s|;
      } else if Less(h, v) {
        var t := s[1..];
        SeqInsertEquiv(t, v);
        assert HasEquiv(s, v) == HasEquiv(t, v) by {
          forall i | 0 <= i < |t|
            ensures t[i] == s[i + 1]
          {
          }
        }
        assert s == [h] + t;
      } else {
        assert Equiv(s[0], v);
      }
    }
  }

  /** Sorted insertion keeps the sequence sorted, and adds v exactly when no equivalent handle is present. */
  lemma SeqInsertContents(s: seq<RankKey>, v: RankKey)
    requires Sorted(s)
    ensures Sorted(SeqInsert(s, v))
    ensures HasEquiv(s, v) ==> SeqInsert(s, v) == s
    ensures !HasEquiv(s, v) ==> multiset(SeqInsert(s, v)) == multiset(s) + multiset{v}
  {
    SeqInsertSorted(s, v);
    SeqInsertEquiv(s, v);
    SeqInsertMembers(s, v);
  }

  /** Inserting below the head of b, into a + b, inserts into a. */
  lemma {:induction false} SeqInsertBefore(a: seq<RankKey>, b: seq<RankKey>, v: RankKey)
    requires |b| > 0 && Less(v, b[0])
    ensures SeqInsert(a + b, v) == SeqInsert(a, v) + b
    decreases |a|
  {
    if |a| > 0 {
      assert (a + b)[0] == a[0] && (a + b)[1..] == a[1..] + b;
      SeqInsertBefore(a[1..], b, v);
    } else {
      assert a + b == b;
    }
  }

  /** Inserting above every handle of a, into a + b, inserts into b. */
  lemma {:induction false} SeqInsertSkip(a: seq<RankKey>, b: seq<RankKey>, v: RankKey)
    requires forall i :: 0 <= i < |a| ==> Less(a[i], v)
    ensures SeqInsert(a + b, v) == a + SeqInsert(b, v)
    decreases |a|
  {
    if |a| > 0 {
      var h := a[0];
      var s := a + b;
      assert Less(h, v);
      EquivFacts(h, v, v);
      assert s[0] == h && s[1..] == a[1..] + b;
      assert SeqInsert(s, v) == [h] + SeqInsert(a[1..] + b, v);
      SeqInsertSkip(a[1..], b, v);
      var rest := SeqInsert(b, v);
      assert SeqInsert(a[1..] + b, v) == a[1..] + rest;
      assert SeqInsert(s, v) == [h] + (a[1..] + rest);
      assert [h] + (a[1..] + rest) == ([h] + a[1..]) + rest;
      assert a == [h] + a[1..];
      assert SeqInsert(s, v) == a + rest;
    } else {
      assert a + b == b;
    }
  }

  /** A sorted in-order sequence splits at the root into sorted halves on either side of it. */
  lemma SortedSplit(a: seq<RankKey>, d: RankKey, b: seq<RankKey>)
    requires Sorted(a + [d] + b)
    ensures Sorted(a) && Sorted(b)
    ensures forall i :: 0 <= i < |a| ==> Less(a[i], d)
    ensures forall i :: 0 <= i < |b| ==> Less(d, b[i])
  {
    var s := a + [d] + b;
    forall i | 0 <= i < |a|
      ensures Less(a[i], d)
    {
      assert s[i] == a[i] && s[|a|] == d;
    }
    forall i | 0 <= i < |b|
      ensures Less(d, b[i])
    {
      assert s[|a| + 1 + i] == b[i] && s[|a|] == d;
    }
    forall i, j | 0 <= i < j < |a|
      ensures Less(a[i], a[j])
    {
      assert s[i] == a[i] && s[j] == a[j];
    }
    forall i, j | 0 <= i < j < |b|
      ensures Less(b[i], b[j])
    {
      assert s[|a| + 1 + i] == b[i] && s[|a| + 1 + j] == b[j];
    }
  }

  /** The subtree leans towards the side `value` went to, and by exactly one. */
  ghost predicate Leans(c: KeyTree, value: RankKey)
  {
    c.Node? &&
    ((Less(value, c.data) && Ht(c.left) == Ht(c.right) + 1) ||
     (Less(c.data, value) && Ht(c.right) == Ht(c.left) + 1))
  }

  /**
   * The tail of insert_node once a child has been replaced: recompute the
   * height, then rotate when the balance leaves {-1, 0, 1}, choosing the case
   * by comparing `value` with the heavy child's handle.
   */
  function Rebalance(d: RankKey, l: KeyTree, r: KeyTree, value: RankKey): (t: KeyTree)
    requires Balanced(l) && Balanced(r) && -2 <= Ht(l) - Ht(r) <= 2
    requires Ht(l) == Ht(r) + 2 ==> Leans(l, value)
    requires Ht(r) == Ht(l) + 2 ==> Leans(r, value)
    ensures Balanced(t) && InOrder(t) == InOrder(l) + [d] + InOrder(r)
    ensures -1 <= Ht(l) - Ht(r) <= 1 ==> t == Mk(d, l, r) && Ht(t) == 1 + Max(Ht(l), Ht(r))
    ensures !(-1 <= Ht(l) - Ht(r) <= 1) ==> Ht(t) == Max(Ht(l), Ht(r))
  {
    CachedHeight(l);
    CachedHeight(r);
    var node := Mk(d, l, r);
    var balance := GetBalance(node);
    if balance > 1 && Less(node.left.data, value) then
      EquivFacts(l.data, value, value);
      LeftHeavyDouble(d, l, r, node.height);
      RotateRight(node.(left := RotateLeft(node.left)))
    else if balance < -1 && Less(value, node.right.data) then
      EquivFacts(r.data, value, value);
      RightHeavyDouble(d, l, r, node.height);
      RotateLeft(node.(right := RotateRight(node.right)))
    else if balance > 1 && Less(value, node.left.data) then
      LeftHeavySingle(d, l, r, node.height);
      RotateRight(node)
    else if balance < -1 && Less(node.right.data, value) then
      RightHeavySingle(d, l, r, node.height);
      RotateLeft(node)
    else
      node
  }

  /** insert_node: BST descent, a new leaf at the bottom, rebalancing on the way back up. */
  function InsertNode(node: KeyTree, value: RankKey): (t: KeyTree)
    requires Balanced(node)
    ensures Balanced(t) && Ht(node) <= Ht(t) <= Ht(node) + 1
    ensures Ht(t) == Ht(node) + 1 && Ht(t) >= 2 ==> Leans(t, value)
  {
    match node
    case Nil => Node(value, Nil, Nil, 1)
    case Node(d, l, r, _) =>
      if Less(value, d) then Rebalance(d, InsertNode(l, value), r, value)
      else if Less(d, value) then Rebalance(d, l, InsertNode(r, value), value)
      else node
  }

  /** insert's effect on the in-order sequence: a sorted insertion of the handle. */
  lemma {:induction false} InsertNodeInOrder(node: KeyTree, value: RankKey)
    requires Balanced(node) && Sorted(InOrder(node))
    ensures InOrder(InsertNode(node, value)) == SeqInsert(InOrder(node), value)
  {
    match node
    case Nil =>
    case Node(d, l, r, _) =>
      var a, b := InOrder(l), InOrder(r);
      SortedSplit(a, d, b);
      if Less(value, d) {
        InsertNodeInOrder(l, value);
        InsertLeftSeq(a, d, b, value);
      } else if Less(d, value) {
        InsertNodeInOrder(r, value);
        InsertRightSeq(a, d, b, value);
      } else {
        InsertEquivSeq(a, d, b, value);
      }
  }

  /** A handle below the root is inserted into the left side of a + [d] + b. */
  lemma InsertLeftSeq(a: seq<RankKey>, d: RankKey, b: seq<RankKey>, value: RankKey)
    requires Less(value, d)
    ensures SeqInsert(a + [d] + b, value) == SeqInsert(a, value) + [d] + b
  {
    assert a + [d] + b == a + ([d] + b);
    SeqInsertBefore(a, [d] + b, value);
  }

  /** A handle above the root, which is above all of a, is inserted into the right side of a + [d] + b. */
  lemma InsertRightSeq(a: seq<RankKey>, d: RankKey, b: seq<RankKey>, value: RankKey)
    requires Less(d, value) && forall i :: 0 <= i < |a| ==> Less(a[i], d)
    ensures SeqInsert(a + [d] + b, value) == a + [d] + SeqInsert(b, value)
  {
    forall i | 0 <= i < |a + [d]|
      ensures Less((a + [d])[i], value)
    {
      if i < |a| {
        LessTransitive(a[i], d, value);
      }
    }
    SeqInsertSkip(a + [d], b, value);
  }

  /** A handle equivalent to the root leaves a + [d] + b as it is. */
  lemma InsertEquivSeq(a: seq<RankKey>, d: RankKey, b: seq<RankKey>, value: RankKey)
    requires !Less(value, d) && !Less(d, value) && forall i :: 0 <= i < |a| ==> Less(a[i], d)
    ensures SeqInsert(a + [d] + b, value) == a + [d] + b
  {
    forall i | 0 <= i < |a|
      ensures Less(a[i], value)
    {
      EquivFacts(d, value, a[i]);
    }
    assert a + [d] + b == a + ([d] + b);
    SeqInsertSkip(a, [d] + b, value);
  }

  /** A handle equivalent to one already present is not inserted: the tree is returned as is. */
  lemma {:induction false} InsertEquivUnchanged(node: KeyTree, value: RankKey)
    requires Balanced(node) && Sorted(InOrder(node)) && HasEquiv(InOrder(node), value)
    ensures InsertNode(node, value) == node
  {
    match node
    case Nil =>
    case Node(d, l, r, _) =>
      var a, b := InOrder(l), InOrder(r);
      var s := InOrder(node);
      SortedSplit(a, d, b);
      assert s[|a|] == d;
      EquivFacts(d, value, d);
      CachedHeight(l);
      CachedHeight(r);
      if Less(value, d) {
        forall j | |a| <= j < |s|
          ensures !Equiv(s[j], value)
        {
          if j > |a| {
            assert s[j] == b[j - |a| - 1];
            LessTransitive(value, d, s[j]);
          }
          EquivFacts(s[j], value, s[j]);
        }
        var k :| 0 <= k < |s| && Equiv(s[k], value);
        assert s[k] == a[k];
        InsertEquivUnchanged(l, value);
      } else if Less(d, value) {
        forall j | 0 <= j <= |a|
          ensures !Equiv(s[j], value)
        {
          if j < |a| {
            assert s[j] == a[j];
            LessTransitive(s[j], d, value);
          }
          EquivFacts(s[j], value, s[j]);
        }
        var k :| 0 <= k < |s| && Equiv(s[k], value);
        assert s[k] == b[k - |a| - 1];
        InsertEquivUnchanged(r, value);
      }
  }

  /** search_node: descend by the ordering, stopping at a handle of the same record (== is identity). */
  function SearchNode(node: KeyTree, value: RankKey): bool
  {
    match node
    case Nil => false
    case Node(d, l, r, _) =>
      if value.ref == d.ref then true
      else if Less(value, d) then SearchNode(l, value)
      else SearchNode(r, value)
  }

  /** Every handle of the tree for value's record carries the same metric and name as value. */
  ghost predicate Consistent(s: seq<RankKey>, value: RankKey)
  {
    forall i :: 0 <= i < |s| && s[i].ref == value.ref ==> Equiv(s[i], value)
  }

  /** Some handle of s belongs to value's record. */
  ghost predicate HasRef(s: seq<RankKey>, value: RankKey)
  {
    exists i :: 0 <= i < |s| && s[i].ref == value.ref
  }

  /** A handle of value's record in a + [d] + b is in a, is d, or is in b. */
  lemma HasRefSplit(a: seq<RankKey>, d: RankKey, b: seq<RankKey>, value: RankKey)
    ensures HasRef(a + [d] + b, value) <==> HasRef(a, value) || d.ref == value.ref || HasRef(b, value)
  {
    var s := a + [d] + b;
    if HasRef(s, value) {
      var i :| 0 <= i < |s| && s[i].ref == value.ref;
      if i < |a| {
        assert a[i] == s[i];
      } else if i > |a| {
        assert b[i - |a| - 1] == s[i];
      }
    }
    if HasRef(a, value) {
      var i :| 0 <= i < |a| && a[i].ref == value.ref;
      assert s[i] == a[i];
    }
    if HasRef(b, value) {
      var i :| 0 <= i < |b| && b[i].ref == value.ref;
      assert s[|a| + 1 + i] == b[i];
    }
    if d.ref == value.ref {
      assert s[|a|] == d;
    }
  }

  /** Consistency of a + [d] + b holds for each part. */
  lemma ConsistentSplit(a: seq<RankKey>, d: RankKey, b: seq<RankKey>, value: RankKey)
    requires Consistent(a + [d] + b, value)
    ensures Consistent(a, value) && Consistent(b, value)
    ensures d.ref == value.ref ==> Equiv(d, value)
  {
    var s := a + [d] + b;
    forall i | 0 <= i < |a|
      ensures a[i] == s[i]
    {
    }
    forall i | 0 <= i < |b|
      ensures b[i] == s[|a| + 1 + i]
    {
    }
    assert s[|a|] == d;
  }

  /** Every handle of a below d and value not below d: no handle of a belongs to value's record. */
  lemma NoRefBelow(a: seq<RankKey>, d: RankKey, value: RankKey)
    requires Consistent(a, value) && !Less(value, d)
    requires forall i :: 0 <= i < |a| ==> Less(a[i], d)
    ensures !HasRef(a, value)
  {
    forall i | 0 <= i < |a|
      ensures a[i].ref != value.ref
    {
      var x := a[i];
      EquivFacts(x, value, d);
    }
  }

  /** Every handle of b above d and value below d: no handle of b belongs to value's record. */
  lemma NoRefAbove(b: seq<RankKey>, d: RankKey, value: RankKey)
    requires Consistent(b, value) && Less(value, d)
    requires forall i :: 0 <= i < |b| ==> Less(d, b[i])
    ensures !HasRef(b, value)
  {
    forall i | 0 <= i < |b|
      ensures b[i].ref != value.ref
    {
      var x := b[i];
      LessTransitive(value, d, x);
      EquivFacts(x, value, x);
    }
  }

  /** Below the root's handle, the record can only be in the left part. */
  lemma RefOnlyLeft(a: seq<RankKey>, d: RankKey, b: seq<RankKey>, value: RankKey)
    requires Sorted(a + [d] + b) && Consistent(a + [d] + b, value) && Less(value, d)
    ensures Sorted(a) && Consistent(a, value)
    ensures HasRef(a + [d] + b, value) <==> HasRef(a, value)
  {
    SortedSplit(a, d, b);
    ConsistentSplit(a, d, b, value);
    HasRefSplit(a, d, b, value);
    NoRefAbove(b, d, value);
    EquivFacts(d, value, d);
  }

  /** Not below the root's handle and not its record: the record can only be in the right part. */
  lemma RefOnlyRight(a: seq<RankKey>, d: RankKey, b: seq<RankKey>, value: RankKey)
    requires Sorted(a + [d] + b) && Consistent(a + [d] + b, value)
    requires !Less(value, d) && value.ref != d.ref
    ensures Sorted(b) && Consistent(b, value)
    ensures HasRef(a + [d] + b, value) <==> HasRef(b, value)
  {
    SortedSplit(a, d, b);
    ConsistentSplit(a, d, b, value);
    HasRefSplit(a, d, b, value);
    NoRefBelow(a, d, value);
  }

  /** With consistent handles, search finds value's record exactly when the tree holds a handle of it. */
  lemma {:induction false} SearchNodeFinds(node: KeyTree, value: RankKey)
    requires Sorted(InOrder(node)) && Consistent(InOrder(node), value)
    ensures SearchNode(node, value) <==> HasRef(InOrder(node), value)
  {
    match node
    case Nil =>
    case Node(d, l, r, _) =>
      var a, b := InOrder(l), InOrder(r);
      if value.ref == d.ref {
        assert InOrder(node)[|a|] == d;
      } else if Less(value, d) {
        RefOnlyLeft(a, d, b, value);
        SearchNodeFinds(l, value);
      } else {
        RefOnlyRight(a, d, b, value);
        SearchNodeFinds(r, value);
      }
  }

  /**
   * The identity quirk: a handle for a different record with the same metric
   * and name is neither found by search nor added by insert.
   */
  lemma SearchMissesEquivalentHandle()
    ensures var k := RankKey(12.5, "ACME", 0);
      var other := RankKey(12.5, "ACME", 1);
      var t := Node(k, Nil, Nil, 1);
      !SearchNode(t, other) && InsertNode(t, other) == t && InOrder(t) == [k]
  {
    var k := RankKey(12.5, "ACME", 0);
    StrLessIrreflexive("ACME");
  }

  /** The P/E index: the root of the node chain, empty when null. */
  class AVLTree {
    var root: KeyTree

    ghost predicate Valid()
      reads this
    {
      Balanced(root) && Sorted(InOrder(root))
    }

    constructor ()
      ensures Valid() && root == Nil
    {
      root := Nil;
    }

    /** The copy constructor: copy_tree duplicates every node with its cached height. */
    constructor Copy(other: AVLTree)
      requires other.Valid()
      ensures Valid() && root == other.root
    {
      root := other.root;
    }

    method Insert(value: RankKey)
      requires Valid()
      modifies this
      ensures Valid() && root == InsertNode(old(root), value)
      ensures InOrder(root) == SeqInsert(old(InOrder(root)), value)
    {
      InsertNodeInOrder(root, value);
      SeqInsertContents(InOrder(root), value);
      root := InsertNode(root, value);
    }

    /**
     * search: when the stored handles of value's record agree with value's
     * metric and name, found exactly when a handle of that record is stored.
     */
    method Search(value: RankKey) returns (found: bool)
      requires Valid()
      ensures found == SearchNode(root, value)
      ensures Consistent(InOrder(root), value) ==> (found <==> HasRef(InOrder(root), value))
    {
      if Consistent(InOrder(root), value) {
        SearchNodeFinds(root, value);
      }
      return SearchNode(root, value);
    }

    method Empty() returns (b: bool)
      requires Valid()
      ensures b <==> InOrder(root) == []
    {
      return root.Nil?;
    }
  }
}
