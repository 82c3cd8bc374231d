/**
 * The node shape shared by the two AVL trees (AVLTree.h and AVL.h): a value,
 * two children and a cached height, 1 for a leaf. Pointer rewiring is modelled
 * on values: a rotation builds the rotated subtree and the caller stores it
 * where the source stores the returned pointer.
 */
module AvlShape {
  import opened Ints

  datatype Tree<T> = Nil | Node(data: T, left: Tree<T>, right: Tree<T>, height: int)

  /** get_height (AVLTree.h) and the child reads of find_height (AVL.h): the cached height, 0 for null. */
  function GetHeight<T>(t: Tree<T>): int
  {
    if t.Nil? then 0 else t.height
  }

  /** A node whose cached height is recomputed from its children's cached heights. */
  function Mk<T>(d: T, l: Tree<T>, r: Tree<T>): Tree<T>
  {
    Node(d, l, r, 1 + Max(GetHeight(l), GetHeight(r)))
  }

  /** The true height of a tree. */
  function Ht<T>(t: Tree<T>): nat
  {
    match t
    case Nil => 0
    case Node(_, l, r, _) => 1 + Max(Ht(l), Ht(r))
  }

  /** Every cached height is right and every balance factor lies in {-1, 0, 1}. */
  ghost predicate Balanced<T>(t: Tree<T>)
  {
    match t
    case Nil => true
    case Node(_, l, r, h) =>
      Balanced(l) && Balanced(r) && h == Ht(t) && -1 <= Ht(l) - Ht(r) <= 1
  }

  /** The values in in-order (left, node, right). */
  function InOrder<T>(t: Tree<T>): seq<T>
  {
    match t
    case Nil => []
    case Node(d, l, r, _) => InOrder(l) + [d] + InOrder(r)
  }

  /** size_utl: the number of nodes. */
  function Size<T>(t: Tree<T>): (n: nat)
    ensures n == |InOrder(t)|
  {
    match t
    case Nil => 0
    case Node(_, l, r, _) => 1 + Size(l) + Size(r)
  }

  /** In a balanced tree the cached height of the root is its true height. */
  lemma CachedHeight<T>(t: Tree<T>)
    requires Balanced(t)
    ensures GetHeight(t) == Ht(t)
  {
  }

  /** Rotating right around y: its left child x becomes the subtree's root, both heights recomputed. */
  function RotateRight<T>(y: Tree<T>): (r: Tree<T>)
    requires y.Node? && y.left.Node?
    ensures InOrder(r) == InOrder(y)
    ensures r.Node? && r.data == y.left.data && r.right.Node? && r.right.data == y.data
  {
    var x := y.left;
    Mk(x.data, x.left, Mk(y.data, x.right, y.right))
  }

  /** Rotating left around x: its right child y becomes the subtree's root, both heights recomputed. */
  function RotateLeft<T>(x: Tree<T>): (r: Tree<T>)
    requires x.Node? && x.right.Node?
    ensures InOrder(r) == InOrder(x)
    ensures r.Node? && r.data == x.right.data && r.left.Node? && r.left.data == x.data
  {
    var y := x.right;
    Mk(y.data, Mk(x.data, x.left, y.left), y.right)
  }

  /** Left-left case: one right rotation of a node whose left child is two taller and not right-leaning. */
  lemma LeftHeavySingle<T>(d: T, lt: Tree<T>, rt: Tree<T>, h: int)
    requires Balanced(lt) && Balanced(rt) && lt.Node? && Ht(lt) == Ht(rt) + 2
    requires Ht(lt.left) >= Ht(lt.right)
    ensures var r := RotateRight(Node(d, lt, rt, h));
      Balanced(r) && Ht(r) == if Ht(lt.left) > Ht(lt.right) then Ht(lt) else Ht(lt) + 1
  {
  }

  /** Left-right case: rotate the left child left, then the node right. */
  lemma LeftHeavyDouble<T>(d: T, lt: Tree<T>, rt: Tree<T>, h: int)
    requires Balanced(lt) && Balanced(rt) && lt.Node? && Ht(lt) == Ht(rt) + 2
    requires Ht(lt.left) < Ht(lt.right)
    ensures lt.right.Node?
    ensures var r := RotateRight(Node(d, RotateLeft(lt), rt, h));
      Balanced(r) && Ht(r) == Ht(lt)
  {
    var x := lt.right;
    var a, b, c := lt.left, x.left, x.right;
    assert Ht(b) <= Ht(rt) && Ht(c) <= Ht(rt) && Ht(a) == Ht(rt);
    assert Ht(b) >= Ht(rt) - 1 && Ht(c) >= Ht(rt) - 1;
    CachedHeight(a); CachedHeight(b); CachedHeight(c); CachedHeight(rt);
    var lower := Mk(lt.data, a, b);
    var upper := Mk(d, c, rt);
    assert Balanced(lower) && Ht(lower) == Ht(rt) + 1;
    assert Balanced(upper) && Ht(upper) == Ht(rt) + 1;
    assert RotateRight(Node(d, RotateLeft(lt), rt, h)) == Mk(x.data, lower, upper);
  }

  /** Right-right case: one left rotation of a node whose right child is two taller and not left-leaning. */
  lemma RightHeavySingle<T>(d: T, lt: Tree<T>, rt: Tree<T>, h: int)
    requires Balanced(lt) && Balanced(rt) && rt.Node? && Ht(rt) == Ht(lt) + 2
    requires Ht(rt.right) >= Ht(rt.left)
    ensures var r := RotateLeft(Node(d, lt, rt, h));
      Balanced(r) && Ht(r) == if Ht(rt.right) > Ht(rt.left) then Ht(rt) else Ht(rt) + 1
  {
  }

  /** Right-left case: rotate the right child right, then the node left. */
  lemma RightHeavyDouble<T>(d: T, lt: Tree<T>, rt: Tree<T>, h: int)
    requires Balanced(lt) && Balanced(rt) && rt.Node? && Ht(rt) == Ht(lt) + 2
    requires Ht(rt.right) < Ht(rt.left)
    ensures rt.left.Node?
    ensures var r := RotateLeft(Node(d, lt, RotateRight(rt), h));
      Balanced(r) && Ht(r) == Ht(rt)
  {
    var y := rt.left;
    var a, b, c := y.left, y.right, rt.right;
    assert Ht(a) <= Ht(lt) && Ht(b) <= Ht(lt) && Ht(c) == Ht(lt);
    assert Ht(a) >= Ht(lt) - 1 && Ht(b) >= Ht(lt) - 1;
    CachedHeight(a); CachedHeight(b); CachedHeight(c); CachedHeight(lt);
    var lower := Mk(d, lt, a);
    var upper := Mk(rt.data, b, c);
    assert Balanced(lower) && Ht(lower) == Ht(lt) + 1;
    assert Balanced(upper) && Ht(upper) == Ht(lt) + 1;
    assert RotateLeft(Node(d, lt, RotateRight(rt), h)) == Mk(y.data, lower, upper);
  }
}
