/**
  Whole-number vectors and matrices, and the sums the transportation problem
  is stated with. A matrix is a sequence of rows; `IsMatrix(g, m, n)` says it
  has m rows of n entries each.
 */
module Matrix {

  predicate IsMatrix<T>(g: seq<seq<T>>, m: nat, n: nat) {
    |g| == m && forall r :: 0 <= r < m ==> |g[r]| == n
  }

  /** The sum of the entries of a vector. */
  function Sum(s: seq<int>): int {
    if |s| == 0 then 0 else Sum(s[..|s| - 1]) + s[|s| - 1]
  }

  /** Column c of a matrix, top to bottom. */
  function Column(g: seq<seq<int>>, c: nat): (col: seq<int>)
    requires forall r :: 0 <= r < |g| ==> c < |g[r]|
    ensures |col| == |g|
    ensures forall r :: 0 <= r < |g| ==> col[r] == g[r][c]
  {
    seq(|g|, r requires 0 <= r < |g| => g[r][c])
  }

  function ColSum(g: seq<seq<int>>, c: nat): int
    requires forall r :: 0 <= r < |g| ==> c < |g[r]|
  {
    Sum(Column(g, c))
  }

  /** The vector of row sums. */
  function RowSums(g: seq<seq<int>>): (sums: seq<int>)
    ensures |sums| == |g|
    ensures forall r :: 0 <= r < |g| ==> sums[r] == Sum(g[r])
  {
    seq(|g|, r requires 0 <= r < |g| => Sum(g[r]))
  }

  /** The vector of the sums of the first n columns. */
  function ColSums(g: seq<seq<int>>, n: nat): (sums: seq<int>)
    requires forall r :: 0 <= r < |g| ==> n <= |g[r]|
    ensures |sums| == n
    ensures forall c :: 0 <= c < n ==> sums[c] == ColSum(g, c)
  {
    seq(n, c requires 0 <= c < n => ColSum(g, c))
  }

  /** The sum of every entry of a matrix. */
  function Total(g: seq<seq<int>>): int {
    Sum(RowSums(g))
  }

  /** The matrix g with entry (i, j) replaced by v. */
  function SetCell(g: seq<seq<int>>, i: nat, j: nat, v: int): seq<seq<int>>
    requires i < |g| && j < |g[i]|
  {
    g[i := g[i][j := v]]
  }

  /** The m-by-n matrix of zeros. */
  function Zeros(m: nat, n: nat): (g: seq<seq<int>>)
    ensures IsMatrix(g, m, n)
    ensures forall r, c :: 0 <= r < m && 0 <= c < n ==> g[r][c] == 0
  {
    seq(m, r => seq(n, c => 0))
  }

  /** Element-wise product of two matrices of the same shape. */
  function Product(a: seq<seq<int>>, b: seq<seq<int>>, m: nat, n: nat): (p: seq<seq<int>>)
    requires IsMatrix(a, m, n) && IsMatrix(b, m, n)
    ensures IsMatrix(p, m, n)
    ensures forall r, c :: 0 <= r < m && 0 <= c < n ==> p[r][c] == a[r][c] * b[r][c]
  {
    seq(m, r requires 0 <= r < m => seq(n, c requires 0 <= c < n => a[r][c] * b[r][c]))
  }

  /** The entries of a two-dimensional array, row by row. */
  function Cells<T>(a: array2<T>): (g: seq<seq<T>>)
    reads a
    ensures IsMatrix(g, a.Length0, a.Length1)
    ensures forall r, c :: 0 <= r < a.Length0 && 0 <= c < a.Length1 ==> g[r][c] == a[r, c]
  {
    seq(a.Length0, r reads a requires 0 <= r < a.Length0 =>
      seq(a.Length1, c reads a requires 0 <= c < a.Length1 => a[r, c]))
  }

  // ---------------------------------------------------------------------
  // Facts about Sum
  // ---------------------------------------------------------------------

  lemma {:induction false} SumNonNegative(s: seq<int>)
    requires forall k :: 0 <= k < |s| ==> s[k] >= 0
    ensures Sum(s) >= 0
  {
    if |s| > 0 {
      SumNonNegative(s[..|s| - 1]);
    }
  }

  /** A sum of non-negative entries is zero exactly when every entry is. */
  lemma {:induction false} SumZeroIffAllZero(s: seq<int>)
    requires forall k :: 0 <= k < |s| ==> s[k] >= 0
    ensures Sum(s) == 0 <==> forall k :: 0 <= k < |s| ==> s[k] == 0
  {
    if |s| > 0 {
      var init := s[..|s| - 1];
      SumZeroIffAllZero(init);
      SumNonNegative(init);
      if Sum(s) == 0 {
        forall k | 0 <= k < |s| ensures s[k] == 0 {
          if k < |s| - 1 {
            assert s[k] == init[k];
          }
        }
      } else {
        assert !(forall k :: 0 <= k < |init| ==> init[k] == 0) || s[|s| - 1] != 0;
      }
    }
  }

  /** Summing entry-wise sums: Sum(a + b) == Sum(a) + Sum(b). */
  lemma {:induction false} SumPointwise(a: seq<int>, b: seq<int>, c: seq<int>)
    requires |a| == |b| == |c|
    requires forall k :: 0 <= k < |c| ==> c[k] == a[k] + b[k]
    ensures Sum(c) == Sum(a) + Sum(b)
  {
    if |c| > 0 {
      var l := |c| - 1;
      SumPointwise(a[..l], b[..l], c[..l]);
    }
  }

  /** Replacing entry k by v changes the sum by v - s[k]. */
  lemma {:induction false} SumSet(s: seq<int>, k: nat, v: int)
    requires k < |s|
    ensures Sum(s[k := v]) == Sum(s) - s[k] + v
  {
    var l := |s| - 1;
    var t := s[k := v];
    if k < l {
      assert t[..l] == s[..l][k := v];
      SumSet(s[..l], k, v);
    } else {
      assert t[..l] == s[..l];
    }
  }

  /** Zero entries from position k on do not contribute to the sum. */
  lemma {:induction false} SumZeroTail(s: seq<int>, k: nat)
    requires k <= |s|
    requires forall t :: k <= t < |s| ==> s[t] == 0
    ensures Sum(s) == Sum(s[..k])
  {
    if k < |s| {
      var l := |s| - 1;
      assert s[..l][..k] == s[..k];
      SumZeroTail(s[..l], k);
    } else {
      assert s[..k] == s;
    }
  }

  lemma {:induction false} SumOfZeros(s: seq<int>)
    requires forall k :: 0 <= k < |s| ==> s[k] == 0
    ensures Sum(s) == 0
  {
    SumZeroTail(s, 0);
  }

  /** If lo * y[k] <= x[k] <= hi * y[k] entry by entry, the same holds of the sums. */
  lemma {:induction false} SumScaledBounds(x: seq<int>, y: seq<int>, lo: int, hi: int)
    requires |x| == |y|
    requires forall k :: 0 <= k < |x| ==> lo * y[k] <= x[k] <= hi * y[k]
    ensures lo * Sum(y) <= Sum(x) <= hi * Sum(y)
  {
    if |x| > 0 {
      var l := |x| - 1;
      SumScaledBounds(x[..l], y[..l], lo, hi);
      assert lo * Sum(y) == lo * Sum(y[..l]) + lo * y[l];
      assert hi * Sum(y) == hi * Sum(y[..l]) + hi * y[l];
    }
  }

  // ---------------------------------------------------------------------
  // Facts about matrices
  // ---------------------------------------------------------------------

  /** Two matrices of the same shape with the same entries are equal. */
  lemma MatrixEquality(a: seq<seq<int>>, b: seq<seq<int>>, m: nat, n: nat)
    requires IsMatrix(a, m, n) && IsMatrix(b, m, n)
    requires forall r, c :: 0 <= r < m && 0 <= c < n ==> a[r][c] == b[r][c]
    ensures a == b
  {
    forall r | 0 <= r < m ensures a[r] == b[r] {
      assert forall c :: 0 <= c < n ==> a[r][c] == b[r][c];
    }
  }

  /**
    Writing v into cell (i, j) changes the sum of row i and of column j by
    v minus the old entry, and leaves every other row and column sum alone.
   */
  lemma SetCellSums(g: seq<seq<int>>, m: nat, n: nat, i: nat, j: nat, v: int)
    requires IsMatrix(g, m, n) && i < m && j < n
    ensures IsMatrix(SetCell(g, i, j, v), m, n)
    ensures forall r :: 0 <= r < m ==>
      Sum(SetCell(g, i, j, v)[r]) == Sum(g[r]) + (if r == i then v - g[i][j] else 0)
    ensures forall c :: 0 <= c < n ==>
      ColSum(SetCell(g, i, j, v), c) == ColSum(g, c) + (if c == j then v - g[i][j] else 0)
  {
    var h := SetCell(g, i, j, v);
    SumSet(g[i], j, v);
    forall c | 0 <= c < n
      ensures ColSum(h, c) == ColSum(g, c) + (if c == j then v - g[i][j] else 0)
    {
      if c == j {
        assert Column(h, j) == Column(g, j)[i := v];
        SumSet(Column(g, j), i, v);
      } else {
        assert Column(h, c) == Column(g, c);
      }
    }
  }

  /** Writing into cell (i, j) does not change the part of row r left of column c, unless it lies there. */
  lemma SetCellRowPrefix(g: seq<seq<int>>, m: nat, n: nat, i: nat, j: nat, v: int, r: nat, c: nat)
    requires IsMatrix(g, m, n) && i < m && j < n && r < m && c <= n
    requires r != i || c <= j
    ensures SetCell(g, i, j, v)[r][..c] == g[r][..c]
  {
  }

  /** Writing into cell (i, j) does not change the part of column c above row r, unless it lies there. */
  lemma SetCellColumnPrefix(g: seq<seq<int>>, m: nat, n: nat, i: nat, j: nat, v: int, r: nat, c: nat)
    requires IsMatrix(g, m, n) && i < m && j < n && r <= m && c < n
    requires c != j || r <= i
    ensures Column(SetCell(g, i, j, v), c)[..r] == Column(g, c)[..r]
  {
  }

  /** Every row and every column of the zero matrix sums to zero. */
  lemma ZerosSums(m: nat, n: nat)
    ensures forall r :: 0 <= r < m ==> Sum(Zeros(m, n)[r]) == 0
    ensures forall c :: 0 <= c < n ==> ColSum(Zeros(m, n), c) == 0
  {
    var z := Zeros(m, n);
    forall r | 0 <= r < m ensures Sum(z[r]) == 0 {
      SumOfZeros(z[r]);
    }
    forall c | 0 <= c < n ensures ColSum(z, c) == 0 {
      SumOfZeros(Column(z, c));
    }
  }

  /** Adding up the row sums gives the same total as adding up the column sums. */
  lemma {:induction false} TotalByColumns(g: seq<seq<int>>, m: nat, n: nat)
    requires IsMatrix(g, m, n)
    ensures Total(g) == Sum(ColSums(g, n))
  {
    if m == 0 {
      SumOfZeros(ColSums(g, n));
      assert RowSums(g) == [];
    } else {
      var init, last := g[..m - 1], g[m - 1];
      TotalByColumns(init, m - 1, n);
      assert RowSums(g)[..m - 1] == RowSums(init);
      forall c | 0 <= c < n ensures ColSums(g, n)[c] == ColSums(init, n)[c] + last[c] {
        assert Column(g, c)[..m - 1] == Column(init, c);
      }
      SumPointwise(ColSums(init, n), last, ColSums(g, n));
    }
  }

  /** With non-negative weights a and costs between lo and hi, the weighted sum lies between lo and hi times the total weight. */
  lemma WeightedTotalBounds(a: seq<seq<int>>, w: seq<seq<int>>, m: nat, n: nat, lo: int, hi: int)
    requires IsMatrix(a, m, n) && IsMatrix(w, m, n)
    requires forall r, c :: 0 <= r < m && 0 <= c < n ==> a[r][c] >= 0 && lo <= w[r][c] <= hi
    ensures lo * Total(a) <= Total(Product(a, w, m, n)) <= hi * Total(a)
  {
    var p := Product(a, w, m, n);
    forall r | 0 <= r < m ensures lo * Sum(a[r]) <= Sum(p[r]) <= hi * Sum(a[r]) {
      forall c | 0 <= c < n ensures lo * a[r][c] <= p[r][c] <= hi * a[r][c] {
        ProductBounds(a[r][c], w[r][c], lo, hi);
      }
      SumScaledBounds(p[r], a[r], lo, hi);
    }
    SumScaledBounds(RowSums(p), RowSums(a), lo, hi);
  }

  lemma ProductBounds(x: int, y: int, lo: int, hi: int)
    requires x >= 0 && lo <= y <= hi
    ensures lo * x <= x * y <= hi * x
  {
  }
}
