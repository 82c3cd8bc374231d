/**
 * AVL.h: the `tree` class template, instantiated at int (T{} is 0). Insert
 * and delete descend recursively and rebalance on the way back up; delete
 * replaces a node with two children by its in-order predecessor. The node
 * rewiring is modelled on values (see AvlShape); the class keeps the root.
 */
module AvlLib {
  import opened AvlShape
  import opened Ints
  import opened Wrappers

  type IntTree = Tree<int>

  /** find_height: one more than the larger cached child height, 0 for null. */
  function FindHeight(t: IntTree): int
  {
    if t.Nil? then 0 else 1 + Max(GetHeight(t.left), GetHeight(t.right))
  }

  /** balancing_factor: left cached height minus right cached height, 0 for null. */
  function BalancingFactor(t: IntTree): int
  {
    if t.Nil? then 0 else GetHeight(t.left) - GetHeight(t.right)
  }

  /** Strictly ascending. */
  ghost predicate Sorted(s: seq<int>)
  {
    forall i, j :: 0 <= i < j < |s| ==> s[i] < s[j]
  }

  lemma SortedSplit(a: seq<int>, d: int, b: seq<int>)
    requires Sorted(a + [d] + b)
    ensures Sorted(a) && Sorted(b)
    ensures forall x :: x in a ==> x < d
    ensures forall x :: x in b ==> d < x
  {
    var s := a + [d] + b;
    assert s[|a|] == d;
    forall i | 0 <= i < |a|
      ensures s[i] == a[i]
    {
    }
    forall i | 0 <= i < |b|
      ensures s[|a| + 1 + i] == b[i]
    {
    }
  }

  lemma SortedJoin(a: seq<int>, d: int, b: seq<int>)
    requires Sorted(a) && Sorted(b)
    requires forall x :: x in a ==> x < d
    requires forall x :: x in b ==> d < x
    ensures Sorted(a + [d] + b)
  {
    var s := a + [d] + b;
    forall i, j | 0 <= i < j < |s|
      ensures s[i] < s[j]
    {
      if i < |a| {
        assert s[i] in a;
      }
      if j > |a| {
        assert s[j] == b[j - |a| - 1];
        assert s[j] in b;
      }
      if i > |a| {
        assert s[i] == b[i - |a| - 1];
      }
      if j < |a| {
        assert s[j] == a[j];
      }
    }
  }

  /** right_rotation: a no-op without a left child. */
  function RightRotation(t: IntTree): (r: IntTree)
    ensures InOrder(r) == InOrder(t)
  {
    if t.Nil? || t.left.Nil? then t else RotateRight(t)
  }

  /** left_rotation: a no-op without a right child. */
  function LeftRotation(t: IntTree): (r: IntTree)
    ensures InOrder(r) == InOrder(t)
  {
    if t.Nil? || t.right.Nil? then t else RotateLeft(t)
  }

  /** left_imbalance: a left-right double rotation when the left child leans right, else one right rotation. */
  function LeftImbalance(t: IntTree): (r: IntTree)
    ensures InOrder(r) == InOrder(t)
  {
    if t.Nil? || t.left.Nil? then t
    else if BalancingFactor(t.left) < 0 then RightRotation(t.(left := LeftRotation(t.left)))
    else RightRotation(t)
  }

  /** right_imbalance: a right-left double rotation when the right child leans left, else one left rotation. */
  function RightImbalance(t: IntTree): (r: IntTree)
    ensures InOrder(r) == InOrder(t)
  {
    if t.Nil? || t.right.Nil? then t
    else if BalancingFactor(t.right) > 0 then LeftRotation(t.(right := RightRotation(t.right)))
    else LeftRotation(t)
  }

  /** A left subtree two taller than the right: left_imbalance restores balance, shrinking by one unless the left child is even. */
  lemma LeftImbalanceRestores(t: IntTree)
    requires t.Node? && Balanced(t.left) && Balanced(t.right) && Ht(t.left) == Ht(t.right) + 2
    ensures Balanced(LeftImbalance(t))
    ensures Ht(LeftImbalance(t)) == if Ht(t.left.left) == Ht(t.left.right) then Ht(t.left) + 1 else Ht(t.left)
  {
    CachedHeight(t.left.left);
    CachedHeight(t.left.right);
    if Ht(t.left.left) < Ht(t.left.right) {
      LeftHeavyDouble(t.data, t.left, t.right, t.height);
    } else {
      LeftHeavySingle(t.data, t.left, t.right, t.height);
    }
  }

  /** The mirror image for right_imbalance. */
  lemma RightImbalanceRestores(t: IntTree)
    requires t.Node? && Balanced(t.left) && Balanced(t.right) && Ht(t.right) == Ht(t.left) + 2
    ensures Balanced(RightImbalance(t))
    ensures Ht(RightImbalance(t)) == if Ht(t.right.left) == Ht(t.right.right) then Ht(t.right) + 1 else Ht(t.right)
  {
    CachedHeight(t.right.left);
    CachedHeight(t.right.right);
    if Ht(t.right.right) < Ht(t.right.left) {
      RightHeavyDouble(t.data, t.left, t.right, t.height);
    } else {
      RightHeavySingle(t.data, t.left, t.right, t.height);
    }
  }

  /**
   * The common tail of insert_utl and delete_utl: store the recomputed
   * height, then call left_imbalance or right_imbalance when the balancing
   * factor leaves {-1, 0, 1}.
   */
  function Rebalance(t: IntTree): (r: IntTree)
    requires t.Node? && Balanced(t.left) && Balanced(t.right) && -2 <= Ht(t.left) - Ht(t.right) <= 2
    ensures Balanced(r) && InOrder(r) == InOrder(t)
    ensures -1 <= Ht(t.left) - Ht(t.right) <= 1 ==> r == Mk(t.data, t.left, t.right)
    ensures -1 <= Ht(t.left) - Ht(t.right) <= 1 ==> Ht(r) == 1 + Max(Ht(t.left), Ht(t.right))
    ensures Max(Ht(t.left), Ht(t.right)) <= Ht(r) <= 1 + Max(Ht(t.left), Ht(t.right))
  {
    CachedHeight(t.left);
    CachedHeight(t.right);
    var n := t.(height := 1 + Max(FindHeight(t.left), FindHeight(t.right)));
    if BalancingFactor(n) > 1 then
      LeftImbalanceRestores(n);
      LeftImbalance(n)
    else if BalancingFactor(n) < -1 then
      RightImbalanceRestores(n);
      RightImbalance(n)
    else
      n
  }

  /** insert_utl: a new leaf at the bottom of the search path; an equal value changes nothing. */
  function InsertUtl(t: IntTree, val: int): (r: IntTree)
    requires Balanced(t)
    ensures Balanced(r) && Ht(t) <= Ht(r) <= Ht(t) + 1
  {
    match t
    case Nil => Node(val, Nil, Nil, 1)
    case Node(d, l, rt, _) =>
      if d > val then Rebalance(t.(left := InsertUtl(l, val)))
      else if d < val then Rebalance(t.(right := InsertUtl(rt, val)))
      else Rebalance(t)
  }

  /** insert keeps the values sorted and adds exactly val. */
  lemma {:induction false} InsertUtlContents(t: IntTree, val: int)
    requires Balanced(t) && Sorted(InOrder(t))
    ensures Sorted(InOrder(InsertUtl(t, val)))
    ensures forall x :: x in InOrder(InsertUtl(t, val)) <==> x in InOrder(t) || x == val
  {
    match t
    case Nil =>
    case Node(d, l, rt, _) =>
      SortedSplit(InOrder(l), d, InOrder(rt));
      if d > val {
        InsertUtlContents(l, val);
        SortedJoin(InOrder(InsertUtl(l, val)), d, InOrder(rt));
      } else if d < val {
        InsertUtlContents(rt, val);
        SortedJoin(InOrder(l), d, InOrder(InsertUtl(rt, val)));
      }
  }

  /** Inserting a value already present returns the same tree. */
  lemma {:induction false} InsertUtlDuplicate(t: IntTree, val: int)
    requires Balanced(t) && Sorted(InOrder(t)) && val in InOrder(t)
    ensures InsertUtl(t, val) == t
  {
    match t
    case Nil =>
    case Node(d, l, rt, _) =>
      SortedSplit(InOrder(l), d, InOrder(rt));
      CachedHeight(l);
      CachedHeight(rt);
      if d > val {
        InsertUtlDuplicate(l, val);
      } else if d < val {
        InsertUtlDuplicate(rt, val);
      }
  }

  /** The right-most value of a non-empty tree: where find_pred's walk ends. */
  function Rightmost(t: IntTree): int
    requires t.Node?
  {
    if t.right.Nil? then t.data else Rightmost(t.right)
  }

  /** The left-most value of a non-empty tree. */
  function Leftmost(t: IntTree): int
    requires t.Node?
  {
    if t.left.Nil? then t.data else Leftmost(t.left)
  }

  /** The right-most value is the last in in-order, the left-most the first. */
  lemma {:induction false} ExtremesInOrder(t: IntTree)
    requires t.Node?
    ensures |InOrder(t)| > 0
    ensures InOrder(t)[|InOrder(t)| - 1] == Rightmost(t)
    ensures InOrder(t)[0] == Leftmost(t)
  {
    if t.right.Node? {
      ExtremesInOrder(t.right);
    }
    if t.left.Node? {
      ExtremesInOrder(t.left);
    }
  }

  /** In a sorted tree the right-most value is the maximum and the left-most the minimum. */
  lemma ExtremesBound(t: IntTree)
    requires t.Node? && Sorted(InOrder(t))
    ensures Rightmost(t) in InOrder(t) && Leftmost(t) in InOrder(t)
    ensures forall x :: x in InOrder(t) ==> Leftmost(t) <= x <= Rightmost(t)
  {
    ExtremesInOrder(t);
    var s := InOrder(t);
    forall x | x in s
      ensures s[0] <= x <= s[|s| - 1]
    {
      var i :| 0 <= i < |s| && s[i] == x;
    }
  }

  /**
   * delete_utl: descend to the node holding val; a node with two children
   * takes its in-order predecessor's value, which is then deleted from the
   * left subtree; a node with at most one child is replaced by that child.
   */
  function DeleteUtl(t: IntTree, val: int): (r: IntTree)
    requires Balanced(t)
    ensures Balanced(r) && Ht(t) - 1 <= Ht(r) <= Ht(t)
  {
    match t
    case Nil => Nil
    case Node(d, l, rt, h) =>
      if d > val then Rebalance(t.(left := DeleteUtl(l, val)))
      else if d < val then Rebalance(t.(right := DeleteUtl(rt, val)))
      else if rt.Node? && l.Node? then
        var pred := Rightmost(l);
        Rebalance(Node(pred, DeleteUtl(l, pred), rt, h))
      else if rt.Node? then rt
      else l
  }

  /** delete keeps the values sorted and removes exactly val; an absent val leaves the values as they were. */
  lemma {:induction false} DeleteUtlContents(t: IntTree, val: int)
    requires Balanced(t) && Sorted(InOrder(t))
    ensures Sorted(InOrder(DeleteUtl(t, val)))
    ensures forall x :: x in InOrder(DeleteUtl(t, val)) <==> x in InOrder(t) && x != val
  {
    match t
    case Nil =>
    case Node(d, l, rt, h) =>
      SortedSplit(InOrder(l), d, InOrder(rt));
      if d > val {
        DeleteUtlContents(l, val);
        SpliceContents(InOrder(l), d, InOrder(rt), InOrder(DeleteUtl(l, val)), InOrder(rt), val);
      } else if d < val {
        DeleteUtlContents(rt, val);
        SpliceContents(InOrder(l), d, InOrder(rt), InOrder(l), InOrder(DeleteUtl(rt, val)), val);
      } else if rt.Node? && l.Node? {
        var pred := Rightmost(l);
        ExtremesBound(l);
        DeleteUtlContents(l, pred);
        SpliceRoot(InOrder(l), d, InOrder(rt), InOrder(DeleteUtl(l, pred)), pred);
      }
  }

  /** Deleting val from the side of d it belongs to removes exactly val from a + [d] + b. */
  lemma SpliceContents(a: seq<int>, d: int, b: seq<int>, a2: seq<int>, b2: seq<int>, val: int)
    requires Sorted(a + [d] + b) && val != d
    requires val < d ==> b2 == b && Sorted(a2) && forall x :: x in a2 <==> x in a && x != val
    requires d < val ==> a2 == a && Sorted(b2) && forall x :: x in b2 <==> x in b && x != val
    ensures Sorted(a2 + [d] + b2)
    ensures forall x :: x in a2 + [d] + b2 <==> x in a + [d] + b && x != val
  {
    SortedSplit(a, d, b);
    SortedJoin(a2, d, b2);
  }

  /** Replacing the root d by the largest value pred of its left side, deleted from there, removes exactly d. */
  lemma SpliceRoot(a: seq<int>, d: int, b: seq<int>, a2: seq<int>, pred: int)
    requires Sorted(a + [d] + b) && pred in a && forall x :: x in a ==> x <= pred
    requires Sorted(a2) && forall x :: x in a2 <==> x in a && x != pred
    ensures Sorted(a2 + [pred] + b)
    ensures forall x :: x in a2 + [pred] + b <==> x in a + [d] + b && x != d
  {
    SortedSplit(a, d, b);
    forall x | x in a2
      ensures x < pred
    {
    }
    SortedJoin(a2, pred, b);
  }

  /** Deleting an absent value returns the same tree. */
  lemma {:induction false} DeleteUtlAbsent(t: IntTree, val: int)
    requires Balanced(t) && val !in InOrder(t)
    ensures DeleteUtl(t, val) == t
  {
    match t
    case Nil =>
    case Node(d, l, rt, _) =>
      CachedHeight(l);
      CachedHeight(rt);
      if d > val {
        DeleteUtlAbsent(l, val);
      } else if d < val {
        DeleteUtlAbsent(rt, val);
      }
  }

  /** find_pred: null without a left child, otherwise the right-most node of the left subtree. */
  method FindPred(t: IntTree) returns (pred: Option<int>)
    ensures t.Nil? || t.left.Nil? ==> pred == None
    ensures t.Node? && t.left.Node? ==> pred == Some(Rightmost(t.left))
    ensures t.Node? && t.left.Node? && Sorted(InOrder(t.left)) ==>
      forall x :: x in InOrder(t.left) ==> x <= pred.value
  {
    if t.Nil? || t.left.Nil? {
      return None;
    }
    var ptr := t.left;
    while ptr.right.Node?
      invariant ptr.Node? && Rightmost(ptr) == Rightmost(t.left)
      decreases ptr
    {
      ptr := ptr.right;
    }
    if Sorted(InOrder(t.left)) {
      ExtremesBound(t.left);
    }
    return Some(ptr.data);
  }

  /** min_utl: T{} for an empty tree, otherwise walk left to the end. */
  method MinUtl(t: IntTree) returns (m: int)
    ensures t.Nil? ==> m == 0
    ensures t.Node? ==> m == Leftmost(t)
    ensures t.Node? && Sorted(InOrder(t)) ==> m in InOrder(t) && forall x :: x in InOrder(t) ==> m <= x
  {
    if t.Nil? {
      return 0;
    }
    var ptr := t;
    while ptr.left.Node?
      invariant ptr.Node? && Leftmost(ptr) == Leftmost(t)
      decreases ptr
    {
      ptr := ptr.left;
    }
    if Sorted(InOrder(t)) {
      ExtremesBound(t);
    }
    return ptr.data;
  }

  /** max_utl: T{} for an empty tree, otherwise walk right to the end. */
  method MaxUtl(t: IntTree) returns (m: int)
    ensures t.Nil? ==> m == 0
    ensures t.Node? ==> m == Rightmost(t)
    ensures t.Node? && Sorted(InOrder(t)) ==> m in InOrder(t) && forall x :: x in InOrder(t) ==> x <= m
  {
    if t.Nil? {
      return 0;
    }
    var ptr := t;
    while ptr.right.Node?
      invariant ptr.Node? && Rightmost(ptr) == Rightmost(t)
      decreases ptr
    {
      ptr := ptr.right;
    }
    if Sorted(InOrder(t)) {
      ExtremesBound(t);
    }
    return ptr.data;
  }

  /** search: walk the search path; the stored equal value, or T{} when the walk falls off the tree. */
  method SearchPath(t: IntTree, val: int) returns (value: int)
    requires Sorted(InOrder(t))
    ensures value == if val in InOrder(t) then val else 0
  {
    var ptr := t;
    value := 0;
    while ptr.Node?
      invariant Sorted(InOrder(ptr))
      invariant val in InOrder(t) <==> val in InOrder(ptr)
      decreases ptr
    {
      SortedSplit(InOrder(ptr.left), ptr.data, InOrder(ptr.right));
      if ptr.data == val {
        value := ptr.data;
        break;
      } else if ptr.data > val {
        ptr := ptr.left;
      } else {
        ptr := ptr.right;
      }
    }
  }

  /** The tree object: its root pointer, null when empty. */
  class AvlTree {
    var root: IntTree

    ghost predicate Valid()
      reads this
    {
      Balanced(root) && Sorted(InOrder(root))
    }

    constructor ()
      ensures Valid() && root == Nil
    {
      root := Nil;
    }

    /** The copy constructor: copy duplicates every node with its cached height. */
    constructor Copy(other: AvlTree)
      requires other.Valid()
      ensures Valid() && root == other.root
    {
      root := other.root;
    }

    method Insert(val: int)
      requires Valid()
      modifies this
      ensures Valid() && root == InsertUtl(old(root), val)
      ensures forall x :: x in InOrder(root) <==> x in old(InOrder(root)) || x == val
    {
      InsertUtlContents(root, val);
      root := InsertUtl(root, val);
    }

    method Remove(val: int)
      requires Valid()
      modifies this
      ensures Valid() && root == DeleteUtl(old(root), val)
      ensures forall x :: x in InOrder(root) <==> x in old(InOrder(root)) && x != val
    {
      DeleteUtlContents(root, val);
      root := DeleteUtl(root, val);
    }

    method Size() returns (n: nat)
      requires Valid()
      ensures n == |InOrder(root)|
    {
      return AvlShape.Size(root);
    }

    method Empty() returns (b: bool)
      requires Valid()
      ensures b <==> InOrder(root) == []
    {
      return root.Nil?;
    }

    method Clear()
      modifies this
      ensures Valid() && root == Nil
    {
      root := Nil;
    }

    method MinNode() returns (m: int)
      requires Valid()
      ensures root.Nil? ==> m == 0
      ensures root.Node? ==> m in InOrder(root) && forall x :: x in InOrder(root) ==> m <= x
    {
      m := MinUtl(root);
    }

    method MaxNode() returns (m: int)
      requires Valid()
      ensures root.Nil? ==> m == 0
      ensures root.Node? ==> m in InOrder(root) && forall x :: x in InOrder(root) ==> x <= m
    {
      m := MaxUtl(root);
    }

    method Search(val: int) returns (value: int)
      requires Valid()
      ensures value == if val in InOrder(root) then val else 0
    {
      value := SearchPath(root, val);
    }
  }
}
