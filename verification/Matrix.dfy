/** Flat row-major matrices, and the inner products the multiply kernels compute.
    Element arithmetic is exact. */
module Matrix {
  import opened Arith

  /** The element at `i`; kernels are shown separately never to leave the matrix. */
  function At(s: seq<int>, i: int): int {
    if 0 <= i < |s| then s[i] else 0
  }

  function Put(s: seq<int>, i: int, v: int): (r: seq<int>)
    ensures |r| == |s|
  {
    if 0 <= i < |s| then s[i := v] else s
  }

  /** Position of row `i`, column `j` in a matrix whose rows are `ld` apart. */
  function Cell(ld: nat, i: nat, j: nat): nat { i * ld + j }

  /** Sum over k < n of a[ao + k] * b[bo + k * ldb]: a piece of a row times a piece of a column. */
  function Dot(a: seq<int>, ao: int, b: seq<int>, bo: int, ldb: int, n: nat): int {
    if n == 0 then 0
    else Dot(a, ao, b, bo, ldb, n - 1) + At(a, ao + (n - 1)) * At(b, bo + (n - 1) * ldb)
  }

  /** Entry (j, i) of the product of the `ld` x `ld` matrices `a` and `b`. */
  function Entry(a: seq<int>, b: seq<int>, ld: nat, j: nat, i: nat): int {
    Dot(a, Cell(ld, j, 0), b, i, ld, ld)
  }

  lemma CellBound(ld: nat, i: nat, j: nat)
    requires i < ld && j < ld
    ensures Cell(ld, i, j) < ld * ld
  {
    MulMono(i, ld - 1, ld);
  }
}

/** The inputs and the shared memory of the kernels that share a static buffer. */
module SharedJob {
  /** The shared memory: the static buffer and the result matrix. */
  datatype Mem = Mem(buf: seq<int>, c: seq<int>)

  /** `per` is the number of rows of C per core, lda / ncores.
      `c0` is what C holds at the start. */
  datatype Job = Job(ncores: nat, lda: nat, per: nat,
                     a: seq<int>, b: seq<int>, c0: seq<int>)
}
