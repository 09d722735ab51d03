/**
 * Matrix transpose kernels: B = A^T for an N-by-M matrix A and an M-by-N
 * matrix B, both row-major C arrays, here `array2<int>` values indexed
 * [row, column]. Every kernel modifies B only, so A is never written.
 */
module Trans {

  const MM_BSIZE := 8
  const MM_MINIBSIZE := 4

  /** A is N-by-M and B is M-by-N, two distinct matrices. */
  predicate Shapes(M: nat, N: nat, A: array2<int>, B: array2<int>) {
    A != B && A.Length0 == N && A.Length1 == M && B.Length0 == M && B.Length1 == N
  }

  /** B holds the transpose of A. */
  ghost predicate Transposed(A: array2<int>, B: array2<int>)
    reads A, B
    requires A.Length0 == B.Length1 && A.Length1 == B.Length0
  {
    forall i, j :: 0 <= i < A.Length0 && 0 <= j < A.Length1 ==> B[j, i] == A[i, j]
  }

  /** Whether (r, c) is a cell of B. */
  predicate Cell(B: array2<int>, r: int, c: int) {
    0 <= r < B.Length0 && 0 <= c < B.Length1
  }

  /** Whether cell (r, c) lies in the h-by-w rectangle with top-left corner (r0, c0). */
  predicate InRect(r: int, c: int, r0: int, c0: int, h: int, w: int) {
    r0 <= r < r0 + h && c0 <= c < c0 + w
  }

  /**
   * The transposing loop nest of the kernels: for i < h (outer) and j < w
   * (inner), B[bi + j][bj + i] = A[ai + i][aj + j]. The w-by-h rectangle of B
   * at (bi, bj) receives the transpose of the h-by-w rectangle of A at
   * (ai, aj); no other cell of B changes.
   */
  method CopyTransposed(A: array2<int>, B: array2<int>, ai: nat, aj: nat, bi: nat, bj: nat, h: nat, w: nat)
    requires A != B
    requires ai + h <= A.Length0 && aj + w <= A.Length1 && bi + w <= B.Length0 && bj + h <= B.Length1
    modifies B
    ensures forall r, c :: InRect(r, c, bi, bj, w, h) ==> B[r, c] == A[ai + (c - bj), aj + (r - bi)]
    ensures forall r, c :: Cell(B, r, c) && !InRect(r, c, bi, bj, w, h) ==>
      B[r, c] == old(B[r, c])
  {
    var i := 0;
    while i < h
      invariant i <= h
      invariant forall r, c :: InRect(r, c, bi, bj, w, i) ==> B[r, c] == A[ai + (c - bj), aj + (r - bi)]
      invariant forall r, c :: Cell(B, r, c) && !InRect(r, c, bi, bj, w, i) ==>
        B[r, c] == old(B[r, c])
    {
      var j := 0;
      while j < w
        invariant j <= w
        invariant forall r, c :: InRect(r, c, bi, bj, w, i) ==> B[r, c] == A[ai + (c - bj), aj + (r - bi)]
        invariant forall r, c :: InRect(r, c, bi, bj + i, j, 1) ==> B[r, c] == A[ai + i, aj + (r - bi)]
        invariant forall r, c :: Cell(B, r, c) && !InRect(r, c, bi, bj, w, i) && !InRect(r, c, bi, bj + i, j, 1) ==>
          B[r, c] == old(B[r, c])
      {
        B[bi + j, bj + i] := A[ai + i, aj + j];
        j := j + 1;
      }
      i := i + 1;
    }
  }

  /** trans: the row-wise baseline transpose. */
  method Trans(M: nat, N: nat, A: array2<int>, B: array2<int>)
    requires Shapes(M, N, A, B)
    modifies B
    ensures Transposed(A, B)
  {
    CopyTransposed(A, B, 0, 0, 0, 0, N, M);
  }

  /** is_transpose: 1 exactly when B is the transpose of A, 0 otherwise. */
  method IsTranspose(M: nat, N: nat, A: array2<int>, B: array2<int>) returns (r: int)
    requires Shapes(M, N, A, B)
    ensures r == 0 || r == 1
    ensures r == 1 <==> Transposed(A, B)
  {
    var i := 0;
    while i < N
      invariant i <= N
      invariant forall i', j :: 0 <= i' < i && 0 <= j < M ==> B[j, i'] == A[i', j]
    {
      var j := 0;
      while j < M
        invariant j <= M
        invariant forall j' :: 0 <= j' < j ==> B[j', i] == A[i, j']
      {
        if A[i, j] != B[j, i] {
          return 0;
        }
        j := j + 1;
      }
      i := i + 1;
    }
    return 1;
  }

  /** swap: exchange two cells of B (the same cell is left as it is). */
  method Swap(B: array2<int>, r0: nat, c0: nat, r1: nat, c1: nat)
    requires r0 < B.Length0 && c0 < B.Length1 && r1 < B.Length0 && c1 < B.Length1
    modifies B
    ensures B[r0, c0] == old(B[r1, c1]) && B[r1, c1] == old(B[r0, c0])
    ensures forall r, c :: Cell(B, r, c) && !(r == r0 && c == c0) && !(r == r1 && c == c1) ==>
      B[r, c] == old(B[r, c])
  {
    var tmp := B[r1, c1];
    B[r1, c1] := B[r0, c0];
    B[r0, c0] := tmp;
  }

  /**
   * The swap loop nest of the kernels: swap(&B[si+i][si+j], &B[ti+i][ti+j])
   * for i, j < n exchanges the n-by-n diagonal blocks at si and ti.
   */
  method SwapBlocks(B: array2<int>, si: nat, ti: nat, n: nat)
    requires si + n <= ti || ti + n <= si
    requires si + n <= B.Length0 && si + n <= B.Length1 && ti + n <= B.Length0 && ti + n <= B.Length1
    modifies B
    ensures forall r, c :: InRect(r, c, si, si, n, n) ==> B[r, c] == old(B[r - si + ti, c - si + ti])
    ensures forall r, c :: InRect(r, c, ti, ti, n, n) ==> B[r, c] == old(B[r - ti + si, c - ti + si])
    ensures forall r, c :: Cell(B, r, c) && !InRect(r, c, si, si, n, n) && !InRect(r, c, ti, ti, n, n) ==> B[r, c] == old(B[r, c])
  {
    var i := 0;
    while i < n
      invariant i <= n
      invariant forall r, c :: InRect(r, c, si, si, i, n) ==> B[r, c] == old(B[r - si + ti, c - si + ti])
      invariant forall r, c :: InRect(r, c, ti, ti, i, n) ==> B[r, c] == old(B[r - ti + si, c - ti + si])
      invariant forall r, c :: Cell(B, r, c) && !InRect(r, c, si, si, i, n) && !InRect(r, c, ti, ti, i, n) ==> B[r, c] == old(B[r, c])
    {
      SwapRow(B, si + i, si, ti + i, ti, n);
      i := i + 1;
    }
  }

  /** The inner loop of SwapBlocks: swaps the n cells of row r0 from column c0 with those of row r1 from column c1. */
  method SwapRow(B: array2<int>, r0: nat, c0: nat, r1: nat, c1: nat, n: nat)
    requires r0 != r1 && r0 < B.Length0 && r1 < B.Length0 && c0 + n <= B.Length1 && c1 + n <= B.Length1
    modifies B
    ensures forall c :: c0 <= c < c0 + n ==> B[r0, c] == old(B[r1, c - c0 + c1])
    ensures forall c :: c1 <= c < c1 + n ==> B[r1, c] == old(B[r0, c - c1 + c0])
    ensures forall r, c :: Cell(B, r, c) && !InRect(r, c, r0, c0, 1, n) && !InRect(r, c, r1, c1, 1, n) ==> B[r, c] == old(B[r, c])
  {
    var j := 0;
    while j < n
      invariant j <= n
      invariant forall c :: c0 <= c < c0 + j ==> B[r0, c] == old(B[r1, c - c0 + c1])
      invariant forall c :: c1 <= c < c1 + j ==> B[r1, c] == old(B[r0, c - c1 + c0])
      invariant forall r, c :: Cell(B, r, c) && !InRect(r, c, r0, c0, 1, j) && !InRect(r, c, r1, c1, 1, j) ==> B[r, c] == old(B[r, c])
    {
      Swap(B, r0, c0 + j, r1, c1 + j);
      j := j + 1;
    }
  }

  /**
   * The copy-back loop nest of the 64-by-64 kernel: B[tr+i][tc+j] = B[fr+i][fc+j]
   * for i, j < n, between two n-by-n rectangles of B that do not overlap.
   */
  method CopyWithin(B: array2<int>, fr: nat, fc: nat, tr: nat, tc: nat, n: nat)
    requires fr + n <= tr || tr + n <= fr || fc + n <= tc || tc + n <= fc
    requires fr + n <= B.Length0 && fc + n <= B.Length1 && tr + n <= B.Length0 && tc + n <= B.Length1
    modifies B
    ensures forall r, c :: InRect(r, c, tr, tc, n, n) ==> B[r, c] == old(B[r - tr + fr, c - tc + fc])
    ensures forall r, c :: Cell(B, r, c) && !InRect(r, c, tr, tc, n, n) ==>
      B[r, c] == old(B[r, c])
  {
    var i := 0;
    while i < n
      invariant i <= n
      invariant forall r, c :: InRect(r, c, tr, tc, i, n) ==> B[r, c] == old(B[r - tr + fr, c - tc + fc])
      invariant forall r, c :: Cell(B, r, c) && !InRect(r, c, tr, tc, i, n) ==>
        B[r, c] == old(B[r, c])
    {
      var j := 0;
      while j < n
        invariant j <= n
        invariant forall r, c :: InRect(r, c, tr, tc, i, n) ==> B[r, c] == old(B[r - tr + fr, c - tc + fc])
        invariant forall r, c :: InRect(r, c, tr + i, tc, 1, j) ==> B[r, c] == old(B[r - tr + fr, c - tc + fc])
        invariant forall r, c :: Cell(B, r, c) && !InRect(r, c, tr, tc, i, n) && !InRect(r, c, tr + i, tc, 1, j) ==>
          B[r, c] == old(B[r, c])
      {
        B[tr + i, tc + j] := B[fr + i, fc + j];
        j := j + 1;
      }
      i := i + 1;
    }
  }

  /** The first index of the 8-block holding index x of a matrix at most 64 wide. */
  function Blk(x: int): (t: int)
    ensures t % MM_BSIZE == 0 && (0 <= x < 64 ==> t <= x < t + MM_BSIZE)
  {
    if x < 8 then 0 else if x < 16 then 8 else if x < 24 then 16 else if x < 32 then 24
    else if x < 40 then 32 else if x < 48 then 40 else if x < 56 then 48 else 56
  }

  /** Whether cell (r, c) lies in one of the 8-by-8 diagonal blocks. */
  predicate OnDiagonal(r: int, c: int) {
    Blk(r) == Blk(c)
  }

  /** Whether cell (r, c) lies in the diagonal 8-by-8 block that starts at row and column t. */
  predicate InDiag(r: int, c: int, t: int) {
    InRect(r, c, t, t, MM_BSIZE, MM_BSIZE)
  }

  /**
   * The diagonal pass of the 32-by-32 kernel: the transpose of A's diagonal
   * block at si is written into B's diagonal block at ti = 24 - si (0 and 24,
   * 8 and 16 trade places). Cells off the diagonal blocks keep their values.
   */
  method DiagonalPass(A: array2<int>, B: array2<int>)
    requires Shapes(32, 32, A, B)
    modifies B
    ensures forall r, c :: InDiag(r, c, 24) ==> B[r, c] == A[c - 24, r - 24]
    ensures forall r, c :: InDiag(r, c, 16) ==> B[r, c] == A[c - 8, r - 8]
    ensures forall r, c :: InDiag(r, c, 8) ==> B[r, c] == A[c + 8, r + 8]
    ensures forall r, c :: InDiag(r, c, 0) ==> B[r, c] == A[c + 24, r + 24]
    ensures forall r, c :: Cell(B, r, c) && !OnDiagonal(r, c) ==> B[r, c] == old(B[r, c])
  {
    var si := 0;
    while si < 32
      invariant si % MM_BSIZE == 0 && si <= 32
      invariant si > 0 ==> forall r, c :: InDiag(r, c, 24) ==> B[r, c] == A[c - 24, r - 24]
      invariant si > 8 ==> forall r, c :: InDiag(r, c, 16) ==> B[r, c] == A[c - 8, r - 8]
      invariant si > 16 ==> forall r, c :: InDiag(r, c, 8) ==> B[r, c] == A[c + 8, r + 8]
      invariant si > 24 ==> forall r, c :: InDiag(r, c, 0) ==> B[r, c] == A[c + 24, r + 24]
      invariant forall r, c :: Cell(B, r, c) && !(OnDiagonal(r, c) && 32 - si <= r) ==> B[r, c] == old(B[r, c])
    {
      var ti := 32 - MM_BSIZE - si;
      CopyTransposed(A, B, si, si, ti, ti, MM_BSIZE, MM_BSIZE);
      si := si + MM_BSIZE;
    }
  }

  /**
   * The swap pass of the 32-by-32 kernel: each diagonal block si in the lower
   * half is swapped with block 24 - si, that is 16 with 8, then 24 with 0.
   * Cells off the diagonal blocks keep their values.
   */
  method SwapPass(B: array2<int>)
    requires B.Length0 == 32 && B.Length1 == 32
    modifies B
    ensures forall r, c :: InDiag(r, c, 16) ==> B[r, c] == old(B[r - 8, c - 8])
    ensures forall r, c :: InDiag(r, c, 8) ==> B[r, c] == old(B[r + 8, c + 8])
    ensures forall r, c :: InDiag(r, c, 24) ==> B[r, c] == old(B[r - 24, c - 24])
    ensures forall r, c :: InDiag(r, c, 0) ==> B[r, c] == old(B[r + 24, c + 24])
    ensures forall r, c :: Cell(B, r, c) && !OnDiagonal(r, c) ==> B[r, c] == old(B[r, c])
  {
    var si := 32 / 2;
    while si < 32
      invariant si == 16 || si == 24 || si == 32
      invariant si > 16 ==> forall r, c :: InDiag(r, c, 16) ==> B[r, c] == old(B[r - 8, c - 8])
      invariant si > 16 ==> forall r, c :: InDiag(r, c, 8) ==> B[r, c] == old(B[r + 8, c + 8])
      invariant si > 24 ==> forall r, c :: InDiag(r, c, 24) ==> B[r, c] == old(B[r - 24, c - 24])
      invariant si > 24 ==> forall r, c :: InDiag(r, c, 0) ==> B[r, c] == old(B[r + 24, c + 24])
      invariant forall r, c :: Cell(B, r, c) && !(si > 16 && (InDiag(r, c, 16) || InDiag(r, c, 8))) && !(si > 24 && (InDiag(r, c, 24) || InDiag(r, c, 0))) ==>
                                B[r, c] == old(B[r, c])
    {
      var ti := 32 - MM_BSIZE - si;
      SwapBlocks(B, si, ti, MM_BSIZE);
      si := si + MM_BSIZE;
    }
  }

  /** The diagonal pass followed by the swap pass transposes the diagonal blocks and leaves the rest of B alone. */
  method TransposeDiagonal(A: array2<int>, B: array2<int>)
    requires Shapes(32, 32, A, B)
    modifies B
    ensures forall r, c :: Cell(B, r, c) && OnDiagonal(r, c) ==> B[r, c] == A[c, r]
    ensures forall r, c :: Cell(B, r, c) && !OnDiagonal(r, c) ==> B[r, c] == old(B[r, c])
  {
    DiagonalPass(A, B);
    SwapPass(B);
  }

  /** transpose_submit for 32-by-32: the off-diagonal blocks directly, then the diagonal ones by mirror and swap. */
  method Transpose32(A: array2<int>, B: array2<int>)
    requires Shapes(32, 32, A, B)
    modifies B
    ensures Transposed(A, B)
  {
    var si := 0;
    while si < 32
      invariant si % MM_BSIZE == 0 && si <= 32
      invariant forall r, c :: 0 <= r < 32 && 0 <= c < 32 && !OnDiagonal(r, c) && c < si ==> B[r, c] == A[c, r]
    {
      var sj := 0;
      while sj < 32
        invariant sj % MM_BSIZE == 0 && sj <= 32
        invariant forall r, c :: 0 <= r < 32 && 0 <= c < 32 && !OnDiagonal(r, c) && (c < si || (c < si + MM_BSIZE && r < sj)) ==>
          B[r, c] == A[c, r]
      {
        if si != sj {
          CopyTransposed(A, B, si, sj, sj, si, MM_BSIZE, MM_BSIZE);
        }
        sj := sj + MM_BSIZE;
      }
      si := si + MM_BSIZE;
    }
    TransposeDiagonal(A, B);
  }

  /**
   * One step of the 64-by-64 kernel: A's off-diagonal block (si, sj) is
   * transposed into B's block (sj, si) through four 4-by-4 mini-blocks. The
   * mini-block at A (si, sj + 4) is first staged, transposed, in the top-left
   * corner of B's block (nsj, nsi) (the block the next step writes) and then
   * copied to its place (sj + 4, si). The staging cells keep the staged values.
   */
  method Step64(A: array2<int>, B: array2<int>, si: nat, sj: nat, nsi: nat, nsj: nat)
    requires Shapes(64, 64, A, B)
    requires si + MM_BSIZE <= 64 && sj + MM_BSIZE <= 64 && nsi + MM_MINIBSIZE <= 64 && nsj + MM_MINIBSIZE <= 64
    requires nsj + MM_MINIBSIZE <= sj || sj + MM_BSIZE <= nsj || nsi + MM_MINIBSIZE <= si || si + MM_BSIZE <= nsi
    modifies B
    ensures forall r, c :: InRect(r, c, sj, si, MM_BSIZE, MM_BSIZE) ==> B[r, c] == A[c, r]
    ensures forall r, c :: InRect(r, c, nsj, nsi, MM_MINIBSIZE, MM_MINIBSIZE) ==>
      B[r, c] == A[si + (c - nsi), sj + MM_MINIBSIZE + (r - nsj)]
    ensures forall r, c :: Cell(B, r, c) && !InRect(r, c, sj, si, MM_BSIZE, MM_BSIZE) && !InRect(r, c, nsj, nsi, MM_MINIBSIZE, MM_MINIBSIZE) ==>
      B[r, c] == old(B[r, c])
  {
    StepStage(A, B, si, sj, nsi, nsj);
    StepLower(A, B, si, sj);
    label Lowered:
    // the staged mini-block #1 moves to its place
    CopyWithin(B, nsj, nsi, sj + MM_MINIBSIZE, si, MM_MINIBSIZE);
    forall r, c | InRect(r, c, sj + MM_MINIBSIZE, si, MM_MINIBSIZE, MM_MINIBSIZE)
      ensures B[r, c] == A[c, r]
    {
      assert B[r, c] == old@Lowered(B[r - (sj + MM_MINIBSIZE) + nsj, c - si + nsi]);
    }
  }

  /** Mini-block #0 of a 64-by-64 step, then mini-block #1 staged in B's block (nsj, nsi). */
  method StepStage(A: array2<int>, B: array2<int>, si: nat, sj: nat, nsi: nat, nsj: nat)
    requires Shapes(64, 64, A, B)
    requires si + MM_BSIZE <= 64 && sj + MM_BSIZE <= 64 && nsi + MM_MINIBSIZE <= 64 && nsj + MM_MINIBSIZE <= 64
    requires nsj + MM_MINIBSIZE <= sj || sj + MM_BSIZE <= nsj || nsi + MM_MINIBSIZE <= si || si + MM_BSIZE <= nsi
    modifies B
    ensures forall r, c :: InRect(r, c, sj, si, MM_MINIBSIZE, MM_MINIBSIZE) ==> B[r, c] == A[c, r]
    ensures forall r, c :: InRect(r, c, nsj, nsi, MM_MINIBSIZE, MM_MINIBSIZE) ==>
      B[r, c] == A[si + (c - nsi), sj + MM_MINIBSIZE + (r - nsj)]
    ensures forall r, c :: Cell(B, r, c) && !InRect(r, c, sj, si, MM_MINIBSIZE, MM_MINIBSIZE) && !InRect(r, c, nsj, nsi, MM_MINIBSIZE, MM_MINIBSIZE) ==>
      B[r, c] == old(B[r, c])
  {
    // mini-block #0
    CopyTransposed(A, B, si, sj, sj, si, MM_MINIBSIZE, MM_MINIBSIZE);
    // mini-block #1, staged in the next block of B
    CopyTransposed(A, B, si, sj + MM_MINIBSIZE, nsj, nsi, MM_MINIBSIZE, MM_MINIBSIZE);
  }

  /** Mini-blocks #2 and #3 of a 64-by-64 step: the lower half of A's block (si, sj), transposed. */
  method StepLower(A: array2<int>, B: array2<int>, si: nat, sj: nat)
    requires Shapes(64, 64, A, B)
    requires si + MM_BSIZE <= 64 && sj + MM_BSIZE <= 64
    modifies B
    ensures forall r, c :: InRect(r, c, sj, si + MM_MINIBSIZE, MM_BSIZE, MM_MINIBSIZE) ==> B[r, c] == A[c, r]
    ensures forall r, c :: Cell(B, r, c) && !InRect(r, c, sj, si + MM_MINIBSIZE, MM_BSIZE, MM_MINIBSIZE) ==>
      B[r, c] == old(B[r, c])
  {
    CopyTransposed(A, B, si + MM_MINIBSIZE, sj, sj, si + MM_MINIBSIZE, MM_MINIBSIZE, MM_MINIBSIZE);
    CopyTransposed(A, B, si + MM_MINIBSIZE, sj + MM_MINIBSIZE, sj + MM_MINIBSIZE, si + MM_MINIBSIZE, MM_MINIBSIZE, MM_MINIBSIZE);
  }

  /** Whether cell (r, c) is in the top-left 4-by-4 corner of a diagonal block other than the first. */
  predicate Staged(r: int, c: int) {
    OnDiagonal(r, c) && Blk(r) > 0 && r < Blk(r) + MM_MINIBSIZE && c < Blk(c) + MM_MINIBSIZE
  }

  /** An aligned block start t is the block of every index in [t, t + 8). */
  lemma BlkOf(t: int, x: int)
    requires t % MM_BSIZE == 0 && 0 <= t <= x < t + MM_BSIZE && x < 64
    ensures Blk(x) == t
  {
  }

  /** The values of B, row by row. */
  ghost function Snapshot(B: array2<int>): (s: seq<seq<int>>)
    reads B
    ensures |s| == B.Length0
    ensures forall r :: 0 <= r < |s| ==> |s[r]| == B.Length1
    ensures forall r, c :: Cell(B, r, c) ==> s[r][c] == B[r, c]
  {
    seq(B.Length0, r requires 0 <= r < B.Length0 reads B => seq(B.Length1, c requires 0 <= c < B.Length1 reads B => B[r, c]))
  }

  /** The cells of B that the 64-by-64 kernel has finished once it reaches A's block (si, sj). */
  predicate Done64(r: int, c: int, si: int, sj: int) {
    !OnDiagonal(r, c) && (r < sj || (r < sj + MM_BSIZE && c < si))
  }

  /** The diagonal corners the 64-by-64 kernel has staged a mini-block into once it reaches A's block (si, sj). */
  predicate StagedBy(r: int, c: int, si: int, sj: int) {
    Staged(r, c) && (r < sj || (r < sj + MM_BSIZE && sj <= si))
  }

  /**
   * The state of B when the 64-by-64 kernel reaches A's block (si, sj), B0
   * being B at the start: finished cells hold the transpose, staged corners
   * hold their staged mini-block, and every other cell, except the staging
   * area in B's block (sj, si), holds its original value.
   */
  ghost predicate Progress64(A: array2<int>, B: array2<int>, B0: seq<seq<int>>, si: int, sj: int)
    reads A, B
    requires Shapes(64, 64, A, B) && |B0| == 64 && forall r :: 0 <= r < 64 ==> |B0[r]| == 64
  {
    (forall r, c :: Cell(B, r, c) && Done64(r, c, si, sj) ==> B[r, c] == A[c, r]) &&
    (forall r, c :: Cell(B, r, c) && StagedBy(r, c, si, sj) ==> B[r, c] == A[c - MM_BSIZE, r + MM_MINIBSIZE]) &&
    (forall r, c :: Cell(B, r, c) && !Done64(r, c, si, sj) && !StagedBy(r, c, si, sj) && !(si != sj && InRect(r, c, sj, si, MM_MINIBSIZE, MM_MINIBSIZE)) ==>
       B[r, c] == B0[r][c])
  }

  /** Whether (nsi, nsj) is the block after (si, sj) in the 64-by-64 kernel's order (sj outer, si inner). */
  predicate Next64(si: int, sj: int, nsi: int, nsj: int) {
    (nsi == si + MM_BSIZE && nsj == sj) || (si == 56 && nsi == 0 && nsj == sj + MM_BSIZE)
  }

  /** The body of the 64-by-64 kernel's loop at A's block (si, sj), the next one being (nsi, nsj). */
  method Advance64(A: array2<int>, B: array2<int>, ghost B0: seq<seq<int>>, si: nat, sj: nat, nsi: nat, nsj: nat)
    requires Shapes(64, 64, A, B) && |B0| == 64 && forall r :: 0 <= r < 64 ==> |B0[r]| == 64
    requires si % MM_BSIZE == 0 && sj % MM_BSIZE == 0 && nsi % MM_BSIZE == 0 && nsj % MM_BSIZE == 0
    requires si < 64 && nsi < 64 && nsj < 64 && Next64(si, sj, nsi, nsj)
    requires Progress64(A, B, B0, si, sj)
    modifies B
    ensures Progress64(A, B, B0, nsi, nsj)
  {
    if si != sj {
      Step64(A, B, si, sj, nsi, nsj);
      forall r, c | InRect(r, c, sj, si, MM_BSIZE, MM_BSIZE)
        ensures !OnDiagonal(r, c)
      {
        BlkOf(sj, r);
        BlkOf(si, c);
      }
      forall r, c | InRect(r, c, nsj, nsi, MM_MINIBSIZE, MM_MINIBSIZE)
        ensures OnDiagonal(r, c) <==> nsi == nsj
        ensures nsi == nsj ==> Staged(r, c)
      {
        BlkOf(nsj, r);
        BlkOf(nsi, c);
      }
    }
    forall r, c | Staged(r, c) && nsj <= r < nsj + MM_BSIZE
      ensures InRect(r, c, nsj, nsj, MM_MINIBSIZE, MM_MINIBSIZE)
    {
      BlkOf(nsj, r);
    }
  }

  /**
   * transpose_submit for 64-by-64 as written: the off-diagonal blocks in the
   * order (sj outer, si inner), each with the block after it as staging area.
   * The pass over the diagonal blocks is commented out, so B's diagonal blocks
   * are left as they were, except that the top-left 4-by-4 corner of each
   * diagonal block after the first keeps the mini-block staged there by the
   * step before it. In particular B is not the transpose of A whenever the
   * first cell of B differed from the first cell of A.
   */
  method Transpose64(A: array2<int>, B: array2<int>)
    requires Shapes(64, 64, A, B)
    modifies B
    ensures forall r, c :: Cell(B, r, c) && !OnDiagonal(r, c) ==> B[r, c] == A[c, r]
    ensures forall r, c :: Cell(B, r, c) && Staged(r, c) ==> B[r, c] == A[c - MM_BSIZE, r + MM_MINIBSIZE]
    ensures forall r, c :: Cell(B, r, c) && OnDiagonal(r, c) && !Staged(r, c) ==> B[r, c] == old(B[r, c])
    ensures old(B[0, 0]) != A[0, 0] ==> !Transposed(A, B)
  {
    ghost var B0 := Snapshot(B);
    var si, sj := 0, 0;
    var nsj := 0;
    while nsj < 64
      invariant nsj % MM_BSIZE == 0 && nsj <= 64
      invariant nsj == 0 ==> si == 0 && sj == 0
      invariant nsj > 0 ==> si == 56 && sj == nsj - MM_BSIZE
      invariant Progress64(A, B, B0, si, sj)
    {
      var nsi := 0;
      while nsi < 64
        invariant nsi % MM_BSIZE == 0 && nsi <= 64
        invariant nsi == 0 && nsj == 0 ==> si == 0 && sj == 0
        invariant nsi == 0 && nsj > 0 ==> si == 56 && sj == nsj - MM_BSIZE
        invariant nsi > 0 ==> si == nsi - MM_BSIZE && sj == nsj
        invariant Progress64(A, B, B0, si, sj)
      {
        if nsi == 0 && nsj == 0 {
          nsi := MM_BSIZE;
        }
        Advance64(A, B, B0, si, sj, nsi, nsj);
        si, sj := nsi, nsj;
        nsi := nsi + MM_BSIZE;
      }
      nsj := nsj + MM_BSIZE;
    }
    assert InRect(0, 0, 0, 0, 1, 1);
  }

  /**
   * The 64-by-64 kernel with its diagonal pass restored: after the
   * off-diagonal blocks, each diagonal 8-by-8 block of A is transposed into
   * the same block of B. B then holds the transpose of A.
   */
  method Transpose64Fixed(A: array2<int>, B: array2<int>)
    requires Shapes(64, 64, A, B)
    modifies B
    ensures Transposed(A, B)
  {
    Transpose64(A, B);
    var t := 0;
    while t < 64
      invariant t % MM_BSIZE == 0 && t <= 64
      invariant forall r, c :: Cell(B, r, c) && (!OnDiagonal(r, c) || r < t) ==> B[r, c] == A[c, r]
    {
      CopyTransposed(A, B, t, t, t, t, MM_BSIZE, MM_BSIZE);
      forall r, c | Cell(B, r, c) && t <= r < t + MM_BSIZE
        ensures OnDiagonal(r, c) <==> InDiag(r, c, t)
      {
        BlkOf(t, r);
        if t <= c < t + MM_BSIZE {
          BlkOf(t, c);
        }
      }
      t := t + MM_BSIZE;
    }
  }

  /**
   * transpose_submit as written: the 32-by-32 and 64-by-64 kernels for
   * those shapes, the plain row-wise transpose for every other shape. B ends
   * as the transpose of A except on the diagonal blocks of the 64-by-64
   * case, which its kernel never transposes.
   */
  method TransposeSubmit(M: nat, N: nat, A: array2<int>, B: array2<int>)
    requires Shapes(M, N, A, B)
    modifies B
    ensures !(M == 64 && N == 64) ==> Transposed(A, B)
    ensures M == 64 && N == 64 ==> forall r, c :: Cell(B, r, c) && !OnDiagonal(r, c) ==> B[r, c] == A[c, r]
    ensures M == 64 && N == 64 && old(B[0, 0]) != A[0, 0] ==> !Transposed(A, B)
  {
    if M == 32 && N == 32 {
      Transpose32(A, B);
    } else if M == 64 && N == 64 {
      Transpose64(A, B);
    } else {
      Trans(M, N, A, B);
    }
  }

  /**
   * transpose_submit with the 64-by-64 kernel's diagonal pass restored: B
   * ends as the transpose of A for every shape.
   */
  method TransposeSubmitFixed(M: nat, N: nat, A: array2<int>, B: array2<int>)
    requires Shapes(M, N, A, B)
    modifies B
    ensures Transposed(A, B)
  {
    if M == 32 && N == 32 {
      Transpose32(A, B);
    } else if M == 64 && N == 64 {
      Transpose64Fixed(A, B);
    } else {
      Trans(M, N, A, B);
    }
  }
}
