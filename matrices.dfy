/** Dense integer matrices: the `toarray()` images of the boundary
    operators and the products numpy forms from them. */
module Matrices {
  import opened Sums

  /** A list of rows. */
  type Matrix = seq<seq<int>>

  /** A has the given number of rows, each of the given length. */
  predicate HasShape(A: Matrix, rows: nat, cols: nat)
  {
    |A| == rows && forall r :: 0 <= r < rows ==> |A[r]| == cols
  }

  /** A is square with side n and equal to its transpose. */
  predicate Symmetric(A: Matrix, n: nat)
  {
    HasShape(A, n, n) && forall r, s :: 0 <= r < n && 0 <= s < n ==> A[r][s] == A[s][r]
  }

  /** The inner product of two rows of equal length. */
  function Dot(u: seq<int>, v: seq<int>): int
    requires |u| == |v|
  {
    Sum(|u|, (k: nat) => if k < |u| then u[k] * v[k] else 0)
  }

  /** The inner product of columns c and d of B. */
  function ColumnDot(B: Matrix, n: nat, c: nat, d: nat): int
    requires HasShape(B, |B|, n) && c < n && d < n
  {
    Sum(|B|, (k: nat) => if k < |B| then B[k][c] * B[k][d] else 0)
  }

  /** `np.matmul(B, np.transpose(B))`: entry (r, s) is row r of B dotted
      with row s. */
  function Gram(B: Matrix, n: nat): (G: Matrix)
    requires HasShape(B, |B|, n)
    ensures HasShape(G, |B|, |B|)
    ensures forall r, s :: 0 <= r < |B| && 0 <= s < |B| ==> G[r][s] == Dot(B[r], B[s])
  {
    seq(|B|, r requires 0 <= r < |B| => seq(|B|, s requires 0 <= s < |B| => Dot(B[r], B[s])))
  }

  /** `np.matmul(np.transpose(B), B)` for a B with n columns: entry (c, d)
      is column c of B dotted with column d. */
  function CoGram(B: Matrix, n: nat): (G: Matrix)
    requires HasShape(B, |B|, n)
    ensures HasShape(G, n, n)
    ensures forall c, d :: 0 <= c < n && 0 <= d < n ==> G[c][d] == ColumnDot(B, n, c, d)
  {
    seq(n, c requires 0 <= c < n => seq(n, d requires 0 <= d < n => ColumnDot(B, n, c, d)))
  }

  /** `np.matmul(A, B)` for an A with |B| columns and a B with n columns. */
  function Mul(A: Matrix, B: Matrix, n: nat): (P: Matrix)
    requires HasShape(A, |A|, |B|) && HasShape(B, |B|, n)
    ensures HasShape(P, |A|, n)
  {
    seq(|A|, r requires 0 <= r < |A| =>
      seq(n, c requires 0 <= c < n => Sum(|B|, (k: nat) => if k < |B| then A[r][k] * B[k][c] else 0)))
  }

  /** Entrywise sum of two matrices of one shape. */
  function Add(A: Matrix, C: Matrix, rows: nat, cols: nat): (R: Matrix)
    requires HasShape(A, rows, cols) && HasShape(C, rows, cols)
    ensures HasShape(R, rows, cols)
    ensures forall r, c :: 0 <= r < rows && 0 <= c < cols ==> R[r][c] == A[r][c] + C[r][c]
  {
    seq(rows, r requires 0 <= r < rows => seq(cols, c requires 0 <= c < cols => A[r][c] + C[r][c]))
  }

  /** `M - np.diag(np.diag(M))`: M with its diagonal set to 0. */
  function OffDiagonal(M: Matrix, n: nat): (R: Matrix)
    requires HasShape(M, n, n)
    ensures HasShape(R, n, n)
    ensures forall r, c :: 0 <= r < n && 0 <= c < n ==> R[r][c] == (if r == c then 0 else M[r][c])
  {
    seq(n, r requires 0 <= r < n => seq(n, c requires 0 <= c < n => if r == c then 0 else M[r][c]))
  }

  /** The zero matrix test used by "the boundary of a boundary". */
  predicate IsZero(A: Matrix)
  {
    forall r, c :: 0 <= r < |A| && 0 <= c < |A[r]| ==> A[r][c] == 0
  }

  lemma DotSymmetric(u: seq<int>, v: seq<int>)
    requires |u| == |v|
    ensures Dot(u, v) == Dot(v, u)
  {
    SumExt(|u|, (k: nat) => if k < |u| then u[k] * v[k] else 0, (k: nat) => if k < |v| then v[k] * u[k] else 0);
  }

  /** B·Bᵀ equals its transpose. */
  lemma GramSymmetric(B: Matrix, n: nat)
    requires HasShape(B, |B|, n)
    ensures Symmetric(Gram(B, n), |B|)
  {
    forall r, s | 0 <= r < |B| && 0 <= s < |B| ensures Dot(B[r], B[s]) == Dot(B[s], B[r]) {
      DotSymmetric(B[r], B[s]);
    }
  }

  /** Bᵀ·B equals its transpose. */
  lemma CoGramSymmetric(B: Matrix, n: nat)
    requires HasShape(B, |B|, n)
    ensures Symmetric(CoGram(B, n), n)
  {
    forall c, d | 0 <= c < n && 0 <= d < n ensures ColumnDot(B, n, c, d) == ColumnDot(B, n, d, c) {
      SumExt(|B|, (k: nat) => if k < |B| then B[k][c] * B[k][d] else 0,
                  (k: nat) => if k < |B| then B[k][d] * B[k][c] else 0);
    }
  }

  /** The sum of two symmetric matrices is symmetric. */
  lemma AddSymmetric(A: Matrix, C: Matrix, n: nat)
    requires Symmetric(A, n) && Symmetric(C, n)
    ensures Symmetric(Add(A, C, n, n), n)
  {
  }

  /** Removing the diagonal keeps symmetry and leaves a zero diagonal. */
  lemma OffDiagonalSymmetric(M: Matrix, n: nat)
    requires Symmetric(M, n)
    ensures Symmetric(OffDiagonal(M, n), n)
    ensures forall r :: 0 <= r < n ==> OffDiagonal(M, n)[r][r] == 0
  {
  }
}
