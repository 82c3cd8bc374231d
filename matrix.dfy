/**
 * Matrix.h instantiated with int elements (so T() is 0 and T(1) is 1): a
 * rows by cols grid stored as a Vector of row Vectors. A matrix is either
 * empty (0 by 0) or has positive dimensions, because the constructor turns a
 * non-positive dimension into 0 by 0. Operations that build a new matrix are
 * methods returning a fresh Matrix; each is tied to a function on grids that
 * states the result, and the lemmas relate those functions.
 */
module Matrices {
  import opened Wrappers

  /** r rows of c cells each. */
  ghost predicate IsGrid(m: seq<seq<int>>, r: int, c: int)
  {
    |m| == r && forall i :: 0 <= i < |m| ==> |m[i]| == c
  }

  /** Either 0 by 0 or both dimensions positive. */
  predicate Shape(r: int, c: int)
  {
    (r > 0 && c > 0) || (r == 0 && c == 0)
  }

  /** The dimensions the constructor keeps for a request of r by c. */
  function Fit(r: int, c: int): (d: (int, int))
    ensures Shape(d.0, d.1)
    ensures r > 0 && c > 0 ==> d == (r, c)
    ensures r <= 0 || c <= 0 ==> d == (0, 0)
  {
    if r > 0 && c > 0 then (r, c) else (0, 0)
  }

  function Filled(r: nat, c: nat, v: int): (m: seq<seq<int>>)
    ensures IsGrid(m, r, c) && forall i, j :: 0 <= i < r && 0 <= j < c ==> m[i][j] == v
  {
    seq(r, _ => seq(c, _ => v))
  }

  /** transpose: cell (j, i) of the result is cell (i, j) of m. */
  function Transpose(m: seq<seq<int>>, r: nat, c: nat): (t: seq<seq<int>>)
    requires IsGrid(m, r, c)
    ensures IsGrid(t, c, r) && forall i, j :: 0 <= i < r && 0 <= j < c ==> t[j][i] == m[i][j]
  {
    seq(c, j requires 0 <= j < c => seq(r, i requires 0 <= i < r => m[i][j]))
  }

  /** Transposing twice gives back the matrix. */
  lemma TransposeTwice(m: seq<seq<int>>, r: nat, c: nat)
    requires IsGrid(m, r, c)
    ensures Transpose(Transpose(m, r, c), c, r) == m
  {
    var t := Transpose(Transpose(m, r, c), c, r);
    assert forall i :: 0 <= i < r ==> t[i] == m[i];
  }

  /** Cell-by-cell sum (operator+). */
  function Add(a: seq<seq<int>>, b: seq<seq<int>>, r: nat, c: nat): (s: seq<seq<int>>)
    requires IsGrid(a, r, c) && IsGrid(b, r, c)
    ensures IsGrid(s, r, c)
  {
    seq(r, i requires 0 <= i < r => seq(c, j requires 0 <= j < c => a[i][j] + b[i][j]))
  }

  /** Cell-by-cell difference (operator-). */
  function Subtract(a: seq<seq<int>>, b: seq<seq<int>>, r: nat, c: nat): (s: seq<seq<int>>)
    requires IsGrid(a, r, c) && IsGrid(b, r, c)
    ensures IsGrid(s, r, c)
  {
    seq(r, i requires 0 <= i < r => seq(c, j requires 0 <= j < c => a[i][j] - b[i][j]))
  }

  /** Subtracting what was added gives back the matrix, so + and - are inverses. */
  lemma AddThenSubtract(a: seq<seq<int>>, b: seq<seq<int>>, r: nat, c: nat)
    requires IsGrid(a, r, c) && IsGrid(b, r, c)
    ensures Subtract(Add(a, b, r, c), b, r, c) == a
  {
    var s := Subtract(Add(a, b, r, c), b, r, c);
    assert forall i :: 0 <= i < r ==> s[i] == a[i];
  }

  /** Cell-by-cell product (element_wise_multiply). */
  function Hadamard(a: seq<seq<int>>, b: seq<seq<int>>, r: nat, c: nat): (s: seq<seq<int>>)
    requires IsGrid(a, r, c) && IsGrid(b, r, c)
    ensures IsGrid(s, r, c)
  {
    seq(r, i requires 0 <= i < r => seq(c, j requires 0 <= j < c => a[i][j] * b[i][j]))
  }

  /** C++ integer division: the quotient is truncated toward zero. */
  function TruncDiv(x: int, y: int): (q: int)
    requires y != 0
  {
    var q := (if x < 0 then -x else x) / (if y < 0 then -y else y);
    if (x < 0) == (y < 0) then q else -q
  }

  /** The remainder left by TruncDiv is smaller than the divisor and takes the sign of x. */
  lemma TruncDivRemainder(x: int, y: int)
    requires y != 0
    ensures var rem := x - TruncDiv(x, y) * y;
      (if rem < 0 then -rem else rem) < (if y < 0 then -y else y) && (rem == 0 || (rem < 0) == (x < 0))
  {
    var ax, ay := if x < 0 then -x else x, if y < 0 then -y else y;
    var q := ax / ay;
    assert ax == q * ay + ax % ay;
    if x < 0 && y < 0 {
      assert x - q * y == -(ax - q * ay);
    } else if x < 0 {
      assert x - (-q) * y == -(ax - q * ay);
    } else if y < 0 {
      assert x - (-q) * y == ax - q * ay;
    }
  }

  /** A cell is zero: element_wise_divide throws. */
  ghost predicate HasZero(m: seq<seq<int>>, r: nat, c: nat)
    requires IsGrid(m, r, c)
  {
    exists i, j :: 0 <= i < r && 0 <= j < c && m[i][j] == 0
  }

  /** Cell-by-cell truncating quotient (element_wise_divide). */
  function Quotient(a: seq<seq<int>>, b: seq<seq<int>>, r: nat, c: nat): (s: seq<seq<int>>)
    requires IsGrid(a, r, c) && IsGrid(b, r, c) && !HasZero(b, r, c)
    ensures IsGrid(s, r, c)
  {
    seq(r, i requires 0 <= i < r => seq(c, j requires 0 <= j < c => TruncDiv(a[i][j], b[i][j])))
  }

  /** sum over t < k of a[i][t] * b[t][j], accumulated in the order of the innermost loop of operator*. */
  function Dot(a: seq<seq<int>>, b: seq<seq<int>>, i: nat, j: nat, k: nat): int
    requires i < |a| && k <= |a[i]| && k <= |b| && forall t :: 0 <= t < k ==> j < |b[t]|
  {
    if k == 0 then 0 else Dot(a, b, i, j, k - 1) + a[i][k - 1] * b[k - 1][j]
  }

  /** operator*: an r by n times an n by c matrix. */
  function Product(a: seq<seq<int>>, b: seq<seq<int>>, r: nat, n: nat, c: nat): (p: seq<seq<int>>)
    requires IsGrid(a, r, n) && IsGrid(b, n, c)
    ensures IsGrid(p, r, c)
  {
    seq(r, i requires 0 <= i < r => seq(c, j requires 0 <= j < c => Dot(a, b, i, j, n)))
  }

  /** identity(size): ones on the diagonal, zeros elsewhere; empty for size <= 0. */
  function Identity(n: nat): (m: seq<seq<int>>)
    ensures IsGrid(m, n, n) && forall i, j :: 0 <= i < n && 0 <= j < n ==> m[i][j] == if i == j then 1 else 0
  {
    seq(n, i => seq(n, j => if i == j then 1 else 0))
  }

  /** A dot product against column j of the identity picks out a[i][j] once t passes j. */
  lemma {:induction false} DotIdentityRight(a: seq<seq<int>>, n: nat, i: nat, j: nat, k: nat)
    requires i < |a| && |a[i]| == n && j < n && k <= n
    ensures Dot(a, Identity(n), i, j, k) == if j < k then a[i][j] else 0
  {
    if k > 0 {
      DotIdentityRight(a, n, i, j, k - 1);
    }
  }

  /** A dot product against row i of the identity picks out b[i][j] once t passes i. */
  lemma {:induction false} DotIdentityLeft(b: seq<seq<int>>, n: nat, c: nat, i: nat, j: nat, k: nat)
    requires IsGrid(b, n, c) && i < n && j < c && k <= n
    ensures Dot(Identity(n), b, i, j, k) == if i < k then b[i][j] else 0
  {
    if k > 0 {
      DotIdentityLeft(b, n, c, i, j, k - 1);
    }
  }

  /** The identity is neutral on both sides of operator*. */
  lemma IdentityNeutral(a: seq<seq<int>>, r: nat, c: nat)
    requires IsGrid(a, r, c)
    ensures Product(Identity(r), a, r, r, c) == a
    ensures Product(a, Identity(c), r, c, c) == a
  {
    var left, right := Product(Identity(r), a, r, r, c), Product(a, Identity(c), r, c, c);
    forall i, j | 0 <= i < r && 0 <= j < c
      ensures left[i][j] == a[i][j] && right[i][j] == a[i][j]
    {
      DotIdentityLeft(a, r, c, i, j, r);
      DotIdentityRight(a, c, i, j, c);
    }
    assert forall i :: 0 <= i < r ==> left[i] == a[i] && right[i] == a[i];
  }

  /** horizontal_concatenate: each row of a followed by the same row of b. */
  function HConcat(a: seq<seq<int>>, b: seq<seq<int>>, r: nat, ca: nat, cb: nat): (h: seq<seq<int>>)
    requires IsGrid(a, r, ca) && IsGrid(b, r, cb)
    ensures IsGrid(h, r, ca + cb)
  {
    seq(r, i requires 0 <= i < r => a[i] + b[i])
  }

  /** Horizontal concatenation is vertical concatenation of the transposes, transposed. */
  lemma TransposeHConcat(a: seq<seq<int>>, b: seq<seq<int>>, r: nat, ca: nat, cb: nat)
    requires IsGrid(a, r, ca) && IsGrid(b, r, cb)
    ensures Transpose(HConcat(a, b, r, ca, cb), r, ca + cb) == Transpose(a, r, ca) + Transpose(b, r, cb)
  {
    var lhs, rhs := Transpose(HConcat(a, b, r, ca, cb), r, ca + cb), Transpose(a, r, ca) + Transpose(b, r, cb);
    forall j | 0 <= j < ca + cb
      ensures lhs[j] == rhs[j]
    {
      if j < ca {
        assert forall i :: 0 <= i < r ==> lhs[j][i] == a[i][j];
      } else {
        assert forall i :: 0 <= i < r ==> lhs[j][i] == b[i][j - ca];
      }
    }
  }

  /** get_submatrix: the square matrix without row er and column ec. */
  function Submatrix(m: seq<seq<int>>, n: nat, er: nat, ec: nat): (s: seq<seq<int>>)
    requires IsGrid(m, n, n) && er < n && ec < n
    ensures IsGrid(s, n - 1, n - 1)
    ensures forall i, j :: 0 <= i < n - 1 && 0 <= j < n - 1 ==>
      s[i][j] == m[if i < er then i else i + 1][if j < ec then j else j + 1]
  {
    seq(n - 1, i requires 0 <= i < n - 1 =>
      seq(n - 1, j requires 0 <= j < n - 1 => m[if i < er then i else i + 1][if j < ec then j else j + 1]))
  }

  /** A row that holds the cells of row k of the submatrix is that row. */
  lemma SubmatrixRow(m: seq<seq<int>>, n: nat, er: nat, ec: nat, k: nat, row: seq<int>)
    requires IsGrid(m, n, n) && er < n && ec < n && k < n - 1 && |row| == n - 1
    requires forall j :: 0 <= j < n - 1 ==> row[j] == m[if k < er then k else k + 1][if j < ec then j else j + 1]
    ensures Submatrix(m, n, er, ec)[k] == row
  {
  }

  /** Appending row k of the submatrix to its first k rows gives its first k + 1 rows. */
  lemma SubmatrixPrefix(m: seq<seq<int>>, n: nat, er: nat, ec: nat, k: nat, row: seq<int>)
    requires IsGrid(m, n, n) && er < n && ec < n && k < n - 1 && |row| == n - 1
    requires forall j :: 0 <= j < n - 1 ==> row[j] == m[if k < er then k else k + 1][if j < ec then j else j + 1]
    ensures Submatrix(m, n, er, ec)[..k + 1] == Submatrix(m, n, er, ec)[..k] + [row]
  {
    var s := Submatrix(m, n, er, ec);
    SubmatrixRow(m, n, er, ec, k, row);
    assert s[..k + 1] == s[..k] + [s[k]];
  }

  /** +1 for even columns, -1 for odd ones: the alternating `sign` of the expansion. */
  function Sign(j: nat): (s: int)
    ensures s == 1 || s == -1
  {
    if j == 0 then 1 else -Sign(j - 1)
  }

  /**
   * determinant: the 1 by 1 and 2 by 2 closed forms, otherwise cofactor
   * expansion along row 0. The 0 by 0 matrix gets T(), that is 0.
   */
  function Det(m: seq<seq<int>>, n: nat): int
    requires IsGrid(m, n, n)
    decreases n, n + 3
  {
    if n == 0 then 0
    else if n == 1 then m[0][0]
    else if n == 2 then m[0][0] * m[1][1] - m[0][1] * m[1][0]
    else Expansion(m, n, n)
  }

  /** The first j terms of the expansion along row 0. */
  function Expansion(m: seq<seq<int>>, n: nat, j: nat): int
    requires IsGrid(m, n, n) && n >= 3 && j <= n
    decreases n, j + 2
  {
    if j == 0 then 0
    else Expansion(m, n, j - 1) + Cofactor(m, n, j - 1)
  }

  /** The term of column t in the expansion along row 0. */
  function Cofactor(m: seq<seq<int>>, n: nat, t: nat): int
    requires IsGrid(m, n, n) && n >= 3 && t < n
    decreases n, 1
  {
    Sign(t) * m[0][t] * Minor(m, n, t)
  }

  /** The determinant of the submatrix without row 0 and column t. */
  function Minor(m: seq<seq<int>>, n: nat, t: nat): int
    requires IsGrid(m, n, n) && n >= 1 && t < n
    decreases n, 0
  {
    Det(Submatrix(m, n, 0, t), n - 1)
  }

  /** The term of column j from the determinant of its submatrix. */
  lemma CofactorOf(m: seq<seq<int>>, n: nat, j: nat, sign: int, sub: seq<seq<int>>, k: nat, minor: int)
    requires IsGrid(m, n, n) && n >= 3 && j < n && k == n - 1
    requires sign == Sign(j) && sub == Submatrix(m, n, 0, j) && IsGrid(sub, k, k) && minor == Det(sub, k)
    ensures Cofactor(m, n, j) == sign * m[0][j] * minor
  {
  }

  /** A column whose row-0 cell is zero contributes nothing. */
  lemma CofactorZero(m: seq<seq<int>>, n: nat, t: nat)
    requires IsGrid(m, n, n) && n >= 3 && t < n && m[0][t] == 0
    ensures Cofactor(m, n, t) == 0
  {
    var d := Minor(m, n, t);
    assert Sign(t) * m[0][t] * d == Sign(t) * 0 * d;
  }

  /** Removing row 0 and column 0 of an identity leaves the next smaller identity. */
  lemma IdentityMinor(n: nat)
    requires n >= 1
    ensures Submatrix(Identity(n), n, 0, 0) == Identity(n - 1)
  {
    var s := Submatrix(Identity(n), n, 0, 0);
    assert forall i :: 0 <= i < n - 1 ==> s[i] == Identity(n - 1)[i];
  }

  /** Terms past the first vanish when row 0 is zero beyond column 0. */
  lemma {:induction false} ExpansionFirstOnly(m: seq<seq<int>>, n: nat, j: nat)
    requires IsGrid(m, n, n) && n >= 3 && 1 <= j <= n
    requires forall t :: 1 <= t < n ==> m[0][t] == 0
    ensures Expansion(m, n, j) == Cofactor(m, n, 0)
  {
    if j > 1 {
      ExpansionFirstOnly(m, n, j - 1);
      CofactorZero(m, n, j - 1);
    }
  }

  /** The determinant of an identity of size at least 1 is 1. */
  lemma {:induction false} DetIdentity(n: nat)
    requires n >= 1
    ensures Det(Identity(n), n) == 1
  {
    if n >= 3 {
      ExpansionFirstOnly(Identity(n), n, n);
      IdentityMinor(n);
      DetIdentity(n - 1);
    }
  }

  /** Every term of the expansion carries a cell of row 0, so a zero row 0 gives determinant 0. */
  lemma {:induction false} ExpansionZeroRow(m: seq<seq<int>>, n: nat, j: nat)
    requires IsGrid(m, n, n) && n >= 3 && j <= n
    requires forall t :: 0 <= t < n ==> m[0][t] == 0
    ensures Expansion(m, n, j) == 0
  {
    if j > 0 {
      ExpansionZeroRow(m, n, j - 1);
      CofactorZero(m, n, j - 1);
    }
  }

  lemma DetZeroRow(m: seq<seq<int>>, n: nat)
    requires IsGrid(m, n, n) && n >= 1
    requires forall t :: 0 <= t < n ==> m[0][t] == 0
    ensures Det(m, n) == 0
  {
    if n >= 3 {
      ExpansionZeroRow(m, n, n);
    }
  }

  /** swap_rows on a grid: rows a and b exchanged (a no-op when a == b). */
  function SwapRows(m: seq<seq<int>>, a: nat, b: nat): (s: seq<seq<int>>)
    requires a < |m| && b < |m|
    ensures |s| == |m| && s[a] == m[b] && s[b] == m[a]
    ensures forall i :: 0 <= i < |m| && i != a && i != b ==> s[i] == m[i]
  {
    m[a := m[b]][b := m[a]]
  }

  /** swap_columns on a grid: columns a and b exchanged in every row. */
  function SwapColumns(m: seq<seq<int>>, r: nat, c: nat, a: nat, b: nat): (s: seq<seq<int>>)
    requires IsGrid(m, r, c) && a < c && b < c
    ensures IsGrid(s, r, c)
    ensures forall i, j :: 0 <= i < r && 0 <= j < c ==>
      s[i][j] == m[i][if j == a then b else if j == b then a else j]
  {
    seq(r, i requires 0 <= i < r => m[i][a := m[i][b]][b := m[i][a]])
  }

  /** Swapping the same two rows twice restores the matrix. */
  lemma SwapRowsTwice(m: seq<seq<int>>, a: nat, b: nat)
    requires a < |m| && b < |m|
    ensures SwapRows(SwapRows(m, a, b), a, b) == m
  {
    assert forall i :: 0 <= i < |m| ==> SwapRows(SwapRows(m, a, b), a, b)[i] == m[i];
  }

  /** Swapping the same two columns twice restores the matrix. */
  lemma SwapColumnsTwice(m: seq<seq<int>>, r: nat, c: nat, a: nat, b: nat)
    requires IsGrid(m, r, c) && a < c && b < c
    ensures SwapColumns(SwapColumns(m, r, c, a, b), r, c, a, b) == m
  {
    var s := SwapColumns(SwapColumns(m, r, c, a, b), r, c, a, b);
    assert forall i :: 0 <= i < r ==> s[i] == m[i];
  }

  /** Swapping rows and then transposing is transposing and then swapping columns. */
  lemma TransposeSwapRows(m: seq<seq<int>>, r: nat, c: nat, a: nat, b: nat)
    requires IsGrid(m, r, c) && a < r && b < r
    ensures IsGrid(SwapRows(m, a, b), r, c)
    ensures Transpose(SwapRows(m, a, b), r, c) == SwapColumns(Transpose(m, r, c), c, r, a, b)
  {
    var lhs, rhs := Transpose(SwapRows(m, a, b), r, c), SwapColumns(Transpose(m, r, c), c, r, a, b);
    assert forall j :: 0 <= j < c ==> lhs[j] == rhs[j];
  }

  /** Column j of an r by c grid, top to bottom. */
  function Column(m: seq<seq<int>>, r: nat, c: nat, j: nat): (v: seq<int>)
    requires IsGrid(m, r, c) && j < c
    ensures |v| == r && forall i :: 0 <= i < r ==> v[i] == m[i][j]
  {
    seq(r, i requires 0 <= i < r => m[i][j])
  }

  /** Column j of a grid is row j of its transpose. */
  lemma ColumnIsTransposeRow(m: seq<seq<int>>, r: nat, c: nat, j: nat)
    requires IsGrid(m, r, c) && j < c
    ensures Column(m, r, c, j) == Transpose(m, r, c)[j]
  {
  }

  /** The first k diagonal cells added up, in the order of trace's loop. */
  function DiagSum(m: seq<seq<int>>, n: nat, k: nat): int
    requires IsGrid(m, n, n) && k <= n
  {
    if k == 0 then 0 else DiagSum(m, n, k - 1) + m[k - 1][k - 1]
  }

  /** The first k diagonal cells of an identity add up to k, so trace(identity(n)) == n. */
  lemma {:induction false} DiagSumIdentity(n: nat, k: nat)
    requires k <= n
    ensures DiagSum(Identity(n), n, k) == k
  {
    if k > 0 {
      DiagSumIdentity(n, k - 1);
    }
  }

  /** Transposing keeps the diagonal, so the trace too. */
  lemma {:induction false} DiagSumTranspose(m: seq<seq<int>>, n: nat, k: nat)
    requires IsGrid(m, n, n) && k <= n
    ensures DiagSum(Transpose(m, n, n), n, k) == DiagSum(m, n, k)
  {
    if k > 0 {
      DiagSumTranspose(m, n, k - 1);
    }
  }

  class Matrix {
    var data: seq<seq<int>>
    var rows: int
    var cols: int

    ghost predicate Valid()
      reads this
    {
      Shape(rows, cols) && IsGrid(data, rows, cols)
    }

    /** Matrix(rows, cols, value): rows by cols copies of value, or 0 by 0 for a non-positive dimension. */
    constructor (r: int, c: int, value: int)
      ensures Valid() && (rows, cols) == Fit(r, c)
      ensures data == Filled(rows, cols, value)
    {
      if r > 0 && c > 0 {
        var d: seq<seq<int>> := [];
        var i := 0;
        while i < r
          invariant 0 <= i <= r && d == Filled(i, c, value)
        {
          var row: seq<int> := [];
          var j := 0;
          while j < c
            invariant 0 <= j <= c && row == seq(j, _ => value)
          {
            row := row + [value];
            j := j + 1;
          }
          d := d + [row];
          i := i + 1;
        }
        data, rows, cols := d, r, c;
      } else {
        data, rows, cols := [], 0, 0;
      }
    }

    /** set_element: throws outside the grid, otherwise replaces that one cell. */
    method SetElement(row: int, col: int, value: int) returns (ok: bool)
      requires Valid()
      modifies this
      ensures Valid() && rows == old(rows) && cols == old(cols)
      ensures ok <==> 0 <= row < rows && 0 <= col < cols
      ensures data == if ok then old(data)[row := old(data)[row][col := value]] else old(data)
    {
      if row < 0 || row >= rows || col < 0 || col >= cols {
        return false;
      }
      data := data[row := data[row][col := value]];
      return true;
    }

    /** get_element: throws outside the grid. */
    method GetElement(row: int, col: int) returns (r: Result<int>)
      requires Valid()
      ensures r.Ok? <==> 0 <= row < rows && 0 <= col < cols
      ensures r.Ok? ==> r.value == data[row][col]
    {
      if row < 0 || row >= rows || col < 0 || col >= cols {
        return Err(IndexOutOfRange);
      }
      return Ok(data[row][col]);
    }

    /** operator[](row): throws on a bad row index, otherwise that row. */
    method Row(row: int) returns (r: Result<seq<int>>)
      requires Valid()
      ensures r.Ok? <==> 0 <= row < rows
      ensures r.Ok? ==> r.value == data[row] && |r.value| == cols
    {
      if row < 0 || row >= rows {
        return Err(IndexOutOfRange);
      }
      return Ok(data[row]);
    }

    method IsSquare() returns (b: bool)
      requires Valid()
      ensures b <==> rows == cols
    {
      return rows == cols;
    }

    /** transpose: a cols by rows result filled as result[j][i] = data[i][j]. */
    method Transposed() returns (t: Matrix)
      requires Valid()
      ensures fresh(t) && t.Valid() && t.rows == cols && t.cols == rows
      ensures t.data == Transpose(data, rows, cols)
    {
      var target := Transpose(data, rows, cols);
      t := new Matrix(cols, rows, 0);
      var d: seq<seq<int>> := [];
      var j := 0;
      while j < cols
        invariant 0 <= j <= cols && d == target[..j]
      {
        var row: seq<int> := [];
        var i := 0;
        while i < rows
          invariant 0 <= i <= rows && row == target[j][..i]
        {
          row := row + [data[i][j]];
          i := i + 1;
        }
        assert row == target[j];
        assert d + [row] == target[..j + 1];
        d := d + [row];
        j := j + 1;
      }
      t.data := d;
    }

    /** The shared loop of operator+ and operator-: sign 1 adds, sign -1 subtracts. */
    method CombineRows(other: Matrix, sign: int) returns (d: seq<seq<int>>)
      requires Valid() && other.Valid() && rows == other.rows && cols == other.cols
      requires sign == 1 || sign == -1
      ensures IsGrid(d, rows, cols)
      ensures d == if sign == 1 then Add(data, other.data, rows, cols) else Subtract(data, other.data, rows, cols)
    {
      var target := if sign == 1 then Add(data, other.data, rows, cols) else Subtract(data, other.data, rows, cols);
      d := [];
      var i := 0;
      while i < rows
        invariant 0 <= i <= rows && d == target[..i]
      {
        var row: seq<int> := [];
        var j := 0;
        while j < cols
          invariant 0 <= j <= cols && row == target[i][..j]
        {
          row := row + [if sign == 1 then data[i][j] + other.data[i][j] else data[i][j] - other.data[i][j]];
          j := j + 1;
        }
        assert row == target[i];
        assert d + [row] == target[..i + 1];
        d := d + [row];
        i := i + 1;
      }
    }

    /** operator+: throws unless the dimensions match. */
    method Plus(other: Matrix) returns (r: Result<Matrix>)
      requires Valid() && other.Valid()
      ensures r.Ok? <==> rows == other.rows && cols == other.cols
      ensures r.Ok? ==> fresh(r.value) && r.value.Valid() && r.value.rows == rows && r.value.cols == cols
      ensures r.Ok? ==> r.value.data == Add(data, other.data, rows, cols)
    {
      if rows != other.rows || cols != other.cols {
        return Err(DimensionMismatch);
      }
      var m := new Matrix(rows, cols, 0);
      var d := CombineRows(other, 1);
      m.data := d;
      return Ok(m);
    }

    /** operator-: throws unless the dimensions match. */
    method Minus(other: Matrix) returns (r: Result<Matrix>)
      requires Valid() && other.Valid()
      ensures r.Ok? <==> rows == other.rows && cols == other.cols
      ensures r.Ok? ==> fresh(r.value) && r.value.Valid() && r.value.rows == rows && r.value.cols == cols
      ensures r.Ok? ==> r.value.data == Subtract(data, other.data, rows, cols)
    {
      if rows != other.rows || cols != other.cols {
        return Err(DimensionMismatch);
      }
      var m := new Matrix(rows, cols, 0);
      var d := CombineRows(other, -1);
      m.data := d;
      return Ok(m);
    }

    /** operator*: throws unless cols == other.rows; each cell is accumulated over k. */
    method Times(other: Matrix) returns (r: Result<Matrix>)
      requires Valid() && other.Valid()
      ensures r.Ok? <==> cols == other.rows
      ensures r.Ok? ==> fresh(r.value) && r.value.Valid() && r.value.rows == rows && r.value.cols == other.cols
      ensures r.Ok? ==> r.value.data == Product(data, other.data, rows, cols, other.cols)
    {
      if cols != other.rows {
        return Err(DimensionMismatch);
      }
      var target := Product(data, other.data, rows, cols, other.cols);
      var m := new Matrix(rows, other.cols, 0);
      var d: seq<seq<int>> := [];
      var i := 0;
      while i < rows
        invariant 0 <= i <= rows && d == target[..i]
      {
        var row: seq<int> := [];
        var j := 0;
        while j < other.cols
          invariant 0 <= j <= other.cols && row == target[i][..j]
        {
          var sum := 0;
          var k := 0;
          while k < cols
            invariant 0 <= k <= cols && sum == Dot(data, other.data, i, j, k)
          {
            sum := sum + data[i][k] * other.data[k][j];
            k := k + 1;
          }
          row := row + [sum];
          j := j + 1;
        }
        assert row == target[i];
        assert d + [row] == target[..i + 1];
        d := d + [row];
        i := i + 1;
      }
      m.data := d;
      return Ok(m);
    }

    /** element_wise_multiply: throws unless the dimensions match. */
    method ElementWiseMultiply(other: Matrix) returns (r: Result<Matrix>)
      requires Valid() && other.Valid()
      ensures r.Ok? <==> rows == other.rows && cols == other.cols
      ensures r.Ok? ==> fresh(r.value) && r.value.Valid() && r.value.rows == rows && r.value.cols == cols
      ensures r.Ok? ==> r.value.data == Hadamard(data, other.data, rows, cols)
    {
      if rows != other.rows || cols != other.cols {
        return Err(DimensionMismatch);
      }
      var target := Hadamard(data, other.data, rows, cols);
      var m := new Matrix(rows, cols, 0);
      var d: seq<seq<int>> := [];
      var i := 0;
      while i < rows
        invariant 0 <= i <= rows && d == target[..i]
      {
        var row: seq<int> := [];
        var j := 0;
        while j < cols
          invariant 0 <= j <= cols && row == target[i][..j]
        {
          row := row + [data[i][j] * other.data[i][j]];
          j := j + 1;
        }
        assert row == target[i];
        assert d + [row] == target[..i + 1];
        d := d + [row];
        i := i + 1;
      }
      m.data := d;
      return Ok(m);
    }

    /**
     * element_wise_divide: throws on a dimension mismatch, and throws when the
     * scan meets a zero divisor; otherwise cell-by-cell truncating quotients.
     */
    method ElementWiseDivide(other: Matrix) returns (r: Result<Matrix>)
      requires Valid() && other.Valid()
      ensures r.Err? && r.error == DimensionMismatch <==> rows != other.rows || cols != other.cols
      ensures r.Err? && r.error == DivisionByZero <==>
        rows == other.rows && cols == other.cols && HasZero(other.data, rows, cols)
      ensures r.Ok? ==> fresh(r.value) && r.value.Valid() && r.value.rows == rows && r.value.cols == cols
      ensures r.Ok? ==> !HasZero(other.data, rows, cols) && r.value.data == Quotient(data, other.data, rows, cols)
    {
      if rows != other.rows || cols != other.cols {
        return Err(DimensionMismatch);
      }
      var m := new Matrix(rows, cols, 0);
      var d: seq<seq<int>> := [];
      var i := 0;
      while i < rows
        invariant 0 <= i <= rows && |d| == i
        invariant forall ii, jj :: 0 <= ii < i && 0 <= jj < cols ==> other.data[ii][jj] != 0
        invariant forall ii :: 0 <= ii < i ==> (|d[ii]| == cols &&
          forall jj :: 0 <= jj < cols ==> d[ii][jj] == TruncDiv(data[ii][jj], other.data[ii][jj]))
      {
        var row: seq<int> := [];
        var j := 0;
        while j < cols
          invariant 0 <= j <= cols && |row| == j
          invariant forall jj :: 0 <= jj < j ==> other.data[i][jj] != 0 && row[jj] == TruncDiv(data[i][jj], other.data[i][jj])
        {
          if other.data[i][j] == 0 {
            return Err(DivisionByZero);
          }
          row := row + [TruncDiv(data[i][j], other.data[i][j])];
          j := j + 1;
        }
        d := d + [row];
        i := i + 1;
      }
      assert !HasZero(other.data, rows, cols);
      assert forall ii :: 0 <= ii < rows ==> d[ii] == Quotient(data, other.data, rows, cols)[ii];
      m.data := d;
      return Ok(m);
    }

    /**
     * get_submatrix: throws unless square with more than one row; the excluded
     * indices are not checked by the method itself, but a bad one makes the
     * copy loop write past the result, which Vector's operator[] rejects.
     */
    method GetSubmatrix(excludeRow: int, excludeCol: int) returns (r: Result<Matrix>)
      requires Valid()
      ensures r.Err? <==> rows != cols || rows <= 1 || !(0 <= excludeRow < rows) || !(0 <= excludeCol < cols)
      ensures r.Ok? ==> fresh(r.value) && r.value.Valid() && r.value.rows == rows - 1 && r.value.cols == cols - 1
      ensures r.Ok? ==> r.value.data == Submatrix(data, rows, excludeRow, excludeCol)
    {
      if rows != cols {
        return Err(DimensionMismatch);
      }
      if rows <= 1 {
        return Err(DimensionMismatch);
      }
      if excludeRow < 0 || excludeRow >= rows || excludeCol < 0 || excludeCol >= cols {
        return Err(IndexOutOfRange);
      }
      var d := SubmatrixRows(excludeRow, excludeCol);
      var m := new Matrix(rows - 1, cols - 1, 0);
      m.data := d;
      return Ok(m);
    }

    /** The row loop of get_submatrix: every row but excludeRow, each without excludeCol. */
    method SubmatrixRows(excludeRow: int, excludeCol: int) returns (d: seq<seq<int>>)
      requires Valid() && rows == cols && rows > 1
      requires 0 <= excludeRow < rows && 0 <= excludeCol < cols
      ensures d == Submatrix(data, rows, excludeRow, excludeCol)
    {
      d := [];
      var i := 0;
      while i < rows
        invariant 0 <= i <= rows && |d| == (if i <= excludeRow then i else i - 1)
        invariant d == Submatrix(data, rows, excludeRow, excludeCol)[..|d|]
      {
        if i != excludeRow {
          var row := RowWithout(i, excludeCol);
          SubmatrixPrefix(data, rows, excludeRow, excludeCol, |d|, row);
          d := d + [row];
        }
        i := i + 1;
      }
    }

    /** The column loop of get_submatrix: row i with column excludeCol skipped. */
    method RowWithout(i: int, excludeCol: int) returns (row: seq<int>)
      requires Valid() && 0 <= i < rows && 0 <= excludeCol < cols
      ensures |row| == cols - 1
      ensures forall j :: 0 <= j < cols - 1 ==> row[j] == data[i][if j < excludeCol then j else j + 1]
    {
      row := [];
      var j := 0;
      while j < cols
        invariant 0 <= j <= cols && |row| == (if j <= excludeCol then j else j - 1)
        invariant forall k :: 0 <= k < |row| ==> row[k] == data[i][if k < excludeCol then k else k + 1]
      {
        if j != excludeCol {
          row := row + [data[i][j]];
        }
        j := j + 1;
      }
    }

    /** determinant: throws unless square; otherwise Det, expanding along row 0 for n >= 3. */
    method Determinant() returns (r: Result<int>)
      requires Valid()
      ensures r.Ok? <==> rows == cols
      ensures r.Ok? ==> r.value == Det(data, rows)
      decreases rows, 2
    {
      if rows != cols {
        return Err(DimensionMismatch);
      }
      if rows == 1 {
        return Ok(data[0][0]);
      }
      if rows == 2 {
        return Ok(data[0][0] * data[1][1] - data[0][1] * data[1][0]);
      }
      var det := ExpandRow0();
      return Ok(det);
    }

    /** determinant's loop: the alternating sum of row 0 times the determinants of the minors. */
    method ExpandRow0() returns (det: int)
      requires Valid() && rows == cols && rows != 1 && rows != 2
      ensures det == Det(data, rows)
      decreases rows, 1
    {
      det := 0;
      var sign := 1;
      var j := 0;
      while j < cols
        invariant 0 <= j <= cols && sign == Sign(j)
        invariant rows >= 3 ==> det == Expansion(data, rows, j)
        invariant rows == 0 ==> det == 0
      {
        var term := SignedTerm(j, sign);
        det := det + term;
        sign := -sign;
        j := j + 1;
      }
    }

    /** One step of determinant's loop: sign times the row-0 cell of column j times its minor's determinant. */
    method SignedTerm(j: int, sign: int) returns (term: int)
      requires Valid() && rows == cols && rows >= 3 && 0 <= j < cols && sign == Sign(j)
      ensures term == Cofactor(data, rows, j)
      decreases rows, 0
    {
      var sub := GetSubmatrix(0, j);
      var subDet := sub.value.Determinant();
      CofactorOf(data, rows, j, sign, sub.value.data, sub.value.rows, subDet.value);
      term := sign * data[0][j] * subDet.value;
    }

    /** identity(size): a fresh size by size identity (0 by 0 when size <= 0). */
    static method MakeIdentity(size: int) returns (m: Matrix)
      ensures fresh(m) && m.Valid() && (m.rows, m.cols) == Fit(size, size)
      ensures m.data == Identity(m.rows)
    {
      m := new Matrix(size, size, 0);
      var d := m.data;
      var i := 0;
      while i < m.rows
        invariant 0 <= i <= m.rows && IsGrid(d, m.rows, m.rows)
        invariant forall ii, jj :: 0 <= ii < m.rows && 0 <= jj < m.rows ==>
          d[ii][jj] == if ii < i && ii == jj then 1 else 0
      {
        var j := 0;
        while j < m.rows
          invariant 0 <= j <= m.rows && IsGrid(d, m.rows, m.rows)
          invariant forall ii, jj :: 0 <= ii < m.rows && 0 <= jj < m.rows ==>
            d[ii][jj] == if (ii < i || (ii == i && jj < j)) && ii == jj then 1 else 0
        {
          d := d[i := d[i][j := if i == j then 1 else 0]];
          j := j + 1;
        }
        i := i + 1;
      }
      assert forall ii :: 0 <= ii < m.rows ==> d[ii] == Identity(m.rows)[ii];
      m.data := d;
    }

    /** horizontal_concatenate: throws unless the row counts match. */
    method HorizontalConcatenate(other: Matrix) returns (r: Result<Matrix>)
      requires Valid() && other.Valid()
      ensures r.Ok? <==> rows == other.rows
      ensures r.Ok? ==> fresh(r.value) && r.value.Valid() && r.value.rows == rows && r.value.cols == cols + other.cols
      ensures r.Ok? ==> r.value.data == HConcat(data, other.data, rows, cols, other.cols)
    {
      if rows != other.rows {
        return Err(DimensionMismatch);
      }
      var target := HConcat(data, other.data, rows, cols, other.cols);
      var m := new Matrix(rows, cols + other.cols, 0);
      var d: seq<seq<int>> := [];
      var i := 0;
      while i < rows
        invariant 0 <= i <= rows && d == target[..i]
      {
        var row: seq<int> := [];
        var j := 0;
        while j < cols
          invariant 0 <= j <= cols && row == data[i][..j]
        {
          row := row + [data[i][j]];
          j := j + 1;
        }
        j := 0;
        while j < other.cols
          invariant 0 <= j <= other.cols && row == data[i] + other.data[i][..j]
        {
          row := row + [other.data[i][j]];
          j := j + 1;
        }
        assert row == target[i];
        assert d + [row] == target[..i + 1];
        d := d + [row];
        i := i + 1;
      }
      m.data := d;
      return Ok(m);
    }

    /** vertical_concatenate: throws unless the column counts match; the rows of this, then of other. */
    method VerticalConcatenate(other: Matrix) returns (r: Result<Matrix>)
      requires Valid() && other.Valid()
      ensures r.Ok? <==> cols == other.cols
      ensures r.Ok? ==> fresh(r.value) && r.value.Valid() && r.value.rows == rows + other.rows && r.value.cols == cols
      ensures r.Ok? ==> r.value.data == data + other.data
    {
      if cols != other.cols {
        return Err(DimensionMismatch);
      }
      var m := new Matrix(rows + other.rows, cols, 0);
      var d: seq<seq<int>> := [];
      var i := 0;
      while i < rows
        invariant 0 <= i <= rows && d == data[..i]
      {
        d := d + [data[i]];
        i := i + 1;
      }
      i := 0;
      while i < other.rows
        invariant 0 <= i <= other.rows && d == data + other.data[..i]
      {
        d := d + [other.data[i]];
        i := i + 1;
      }
      m.data := d;
      return Ok(m);
    }

    /** swap_rows: throws on a bad index, does nothing for equal indices, else swaps cell by cell. */
    method SwapRowsInPlace(row1: int, row2: int) returns (ok: bool)
      requires Valid()
      modifies this
      ensures Valid() && rows == old(rows) && cols == old(cols)
      ensures ok <==> 0 <= row1 < rows && 0 <= row2 < rows
      ensures data == if ok then SwapRows(old(data), row1, row2) else old(data)
    {
      if row1 < 0 || row1 >= rows || row2 < 0 || row2 >= rows {
        return false;
      }
      if row1 == row2 {
        return true;
      }
      var g := data;
      var j := 0;
      while j < cols
        invariant 0 <= j <= cols && IsGrid(g, rows, cols)
        invariant forall i :: 0 <= i < rows && i != row1 && i != row2 ==> g[i] == data[i]
        invariant forall k :: 0 <= k < cols ==> g[row1][k] == (if k < j then data[row2][k] else data[row1][k])
        invariant forall k :: 0 <= k < cols ==> g[row2][k] == (if k < j then data[row1][k] else data[row2][k])
      {
        var temp := g[row1][j];
        g := g[row1 := g[row1][j := g[row2][j]]];
        g := g[row2 := g[row2][j := temp]];
        j := j + 1;
      }
      assert g[row1] == data[row2] && g[row2] == data[row1];
      assert forall i :: 0 <= i < rows ==> g[i] == SwapRows(data, row1, row2)[i];
      data := g;
      return true;
    }

    /** swap_columns: throws on a bad index, does nothing for equal indices, else swaps row by row. */
    method SwapColumnsInPlace(col1: int, col2: int) returns (ok: bool)
      requires Valid()
      modifies this
      ensures Valid() && rows == old(rows) && cols == old(cols)
      ensures ok <==> 0 <= col1 < cols && 0 <= col2 < cols
      ensures data == if ok then SwapColumns(old(data), rows, cols, col1, col2) else old(data)
    {
      if col1 < 0 || col1 >= cols || col2 < 0 || col2 >= cols {
        return false;
      }
      if col1 == col2 {
        assert forall i :: 0 <= i < rows ==> data[i] == SwapColumns(data, rows, cols, col1, col2)[i];
        assert data == SwapColumns(data, rows, cols, col1, col2);
        return true;
      }
      var i := 0;
      while i < rows
        invariant 0 <= i <= rows && IsGrid(data, rows, cols)
        invariant rows == old(rows) && cols == old(cols)
        invariant forall k :: 0 <= k < i ==> data[k] == SwapColumns(old(data), rows, cols, col1, col2)[k]
        invariant forall k :: i <= k < rows ==> data[k] == old(data)[k]
      {
        var temp := data[i][col1];
        data := data[i := data[i][col1 := data[i][col2]]];
        data := data[i := data[i][col2 := temp]];
        i := i + 1;
      }
      return true;
    }

    /** get_column: throws on a bad index, otherwise the cells of that column, top to bottom. */
    method GetColumn(col: int) returns (r: Result<seq<int>>)
      requires Valid()
      ensures r.Ok? <==> 0 <= col < cols
      ensures r.Ok? ==> r.value == Column(data, rows, cols, col)
    {
      if col < 0 || col >= cols {
        return Err(IndexOutOfRange);
      }
      var v: seq<int> := [];
      var i := 0;
      while i < rows
        invariant 0 <= i <= rows && v == Column(data, rows, cols, col)[..i]
      {
        v := v + [data[i][col]];
        i := i + 1;
      }
      return Ok(v);
    }

    /** set_row: throws on a bad index or a row of the wrong length, otherwise overwrites that row. */
    method SetRow(row: int, values: seq<int>) returns (r: Result<bool>)
      requires Valid()
      modifies this
      ensures Valid() && rows == old(rows) && cols == old(cols)
      ensures r.Err? && r.error == IndexOutOfRange <==> !(0 <= row < rows)
      ensures r.Err? && r.error == DimensionMismatch <==> 0 <= row < rows && |values| != cols
      ensures data == if r.Ok? then old(data)[row := values] else old(data)
    {
      if row < 0 || row >= rows {
        return Err(IndexOutOfRange);
      }
      if |values| != cols {
        return Err(DimensionMismatch);
      }
      var j := 0;
      while j < cols
        invariant 0 <= j <= cols && IsGrid(data, rows, cols)
        invariant rows == old(rows) && cols == old(cols)
        invariant forall k :: 0 <= k < rows && k != row ==> data[k] == old(data)[k]
        invariant forall k :: 0 <= k < cols ==> data[row][k] == if k < j then values[k] else old(data)[row][k]
      {
        data := data[row := data[row][j := values[j]]];
        j := j + 1;
      }
      assert data[row] == values;
      assert forall k :: 0 <= k < rows ==> data[k] == old(data)[row := values][k];
      return Ok(true);
    }

    /** set_column: throws on a bad index or a column of the wrong length, otherwise overwrites that column. */
    method SetColumn(col: int, values: seq<int>) returns (r: Result<bool>)
      requires Valid()
      modifies this
      ensures Valid() && rows == old(rows) && cols == old(cols)
      ensures r.Err? && r.error == IndexOutOfRange <==> !(0 <= col < cols)
      ensures r.Err? && r.error == DimensionMismatch <==> 0 <= col < cols && |values| != rows
      ensures r.Ok? ==> forall i, j :: 0 <= i < rows && 0 <= j < cols ==>
        data[i][j] == if j == col then values[i] else old(data)[i][j]
      ensures r.Ok? ==> Column(data, rows, cols, col) == values
      ensures r.Err? ==> data == old(data)
    {
      if col < 0 || col >= cols {
        return Err(IndexOutOfRange);
      }
      if |values| != rows {
        return Err(DimensionMismatch);
      }
      var i := 0;
      while i < rows
        invariant 0 <= i <= rows && IsGrid(data, rows, cols)
        invariant rows == old(rows) && cols == old(cols)
        invariant forall k :: 0 <= k < i ==> data[k] == old(data)[k][col := values[k]]
        invariant forall k :: i <= k < rows ==> data[k] == old(data)[k]
      {
        data := data[i := data[i][col := values[i]]];
        i := i + 1;
      }
      return Ok(true);
    }

    /** trace: throws unless square; otherwise the sum of the diagonal, T() for 0 by 0. */
    method Trace() returns (r: Result<int>)
      requires Valid()
      ensures r.Ok? <==> rows == cols
      ensures r.Ok? ==> r.value == DiagSum(data, rows, rows)
    {
      if rows != cols {
        return Err(DimensionMismatch);
      }
      var sum := 0;
      var i := 0;
      while i < rows
        invariant 0 <= i <= rows && sum == DiagSum(data, rows, i)
      {
        sum := sum + data[i][i];
        i := i + 1;
      }
      return Ok(sum);
    }

    /** max_element: throws on an empty matrix, otherwise a cell no other cell exceeds. */
    method MaxElement() returns (r: Result<int>)
      requires Valid()
      ensures r.Ok? <==> rows > 0
      ensures r.Ok? ==> (exists i, j :: 0 <= i < rows && 0 <= j < cols && data[i][j] == r.value)
      ensures r.Ok? ==> forall i, j :: 0 <= i < rows && 0 <= j < cols ==> data[i][j] <= r.value
    {
      if rows == 0 || cols == 0 {
        return Err(EmptyContainer);
      }
      var best := data[0][0];
      ghost var bi, bj := 0, 0;
      var i := 0;
      while i < rows
        invariant 0 <= i <= rows && 0 <= bi < rows && 0 <= bj < cols && data[bi][bj] == best
        invariant forall ii, jj :: 0 <= ii < i && 0 <= jj < cols ==> data[ii][jj] <= best
      {
        var j := 0;
        while j < cols
          invariant 0 <= j <= cols && 0 <= bi < rows && 0 <= bj < cols && data[bi][bj] == best
          invariant forall ii, jj :: 0 <= ii < i && 0 <= jj < cols ==> data[ii][jj] <= best
          invariant forall jj :: 0 <= jj < j ==> data[i][jj] <= best
        {
          if data[i][j] > best {
            best := data[i][j];
            bi, bj := i, j;
          }
          j := j + 1;
        }
        i := i + 1;
      }
      return Ok(best);
    }

    /** min_element: throws on an empty matrix, otherwise a cell no other cell undercuts. */
    method MinElement() returns (r: Result<int>)
      requires Valid()
      ensures r.Ok? <==> rows > 0
      ensures r.Ok? ==> (exists i, j :: 0 <= i < rows && 0 <= j < cols && data[i][j] == r.value)
      ensures r.Ok? ==> forall i, j :: 0 <= i < rows && 0 <= j < cols ==> r.value <= data[i][j]
    {
      if rows == 0 || cols == 0 {
        return Err(EmptyContainer);
      }
      var best := data[0][0];
      ghost var bi, bj := 0, 0;
      var i := 0;
      while i < rows
        invariant 0 <= i <= rows && 0 <= bi < rows && 0 <= bj < cols && data[bi][bj] == best
        invariant forall ii, jj :: 0 <= ii < i && 0 <= jj < cols ==> best <= data[ii][jj]
      {
        var j := 0;
        while j < cols
          invariant 0 <= j <= cols && 0 <= bi < rows && 0 <= bj < cols && data[bi][bj] == best
          invariant forall ii, jj :: 0 <= ii < i && 0 <= jj < cols ==> best <= data[ii][jj]
          invariant forall jj :: 0 <= jj < j ==> best <= data[i][jj]
        {
          if data[i][j] < best {
            best := data[i][j];
            bi, bj := i, j;
          }
          j := j + 1;
        }
        i := i + 1;
      }
      return Ok(best);
    }
  }
}
