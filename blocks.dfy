/**
 * Rectangular block tilings of the interior (rows 1..n-2, columns 1..m-2),
 * as used by the block crossovers: hardCrossover's nCount-by-mCount
 * factorisations, the genetic algorithm's 3-by-5 blocks and the C++ 5-by-5
 * blocks. Blocks start every `height` rows and every `width` columns from
 * (1, 1), the last ones clipped at the interior's edge, and are numbered
 * row by row.
 */
module Blocks {
  import opened Bits
  import opened Grid

  /** innerN and innerM of hardCrossover. */
  const InnerN: int := N - 2
  const InnerM: int := M - 2

  /** (inner - 1) / count + 1: the block length that splits `inner` cells into at most `count` blocks. */
  function BlockSize(inner: int, count: int): (s: int)
    requires inner >= 1 && count >= 1
    ensures s >= 1
  {
    (inner - 1) / count + 1
  }

  /**
   * The number of starts 1, 1 + size, 1 + 2*size, ... that are at most
   * `inner`: the same quotient as BlockSize, read with `size` as divisor.
   */
  function StartCount(inner: int, size: int): (c: int)
    requires inner >= 1 && size >= 1
    ensures c >= 1
  {
    BlockSize(inner, size)
  }

  /** BlockSize is the ceiling of inner / count. */
  lemma BlockSizeIsCeiling(inner: int, count: int)
    requires inner >= 1 && count >= 1
    ensures count * (BlockSize(inner, count) - 1) < inner <= count * BlockSize(inner, count)
  {
    var q, r := (inner - 1) / count, (inner - 1) % count;
    assert inner - 1 == count * q + r;
    assert BlockSize(inner, count) == q + 1;
    assert count * (q + 1) == count * q + count;
  }

  /** With blocks of BlockSize(inner, count), there are at most `count` of them. */
  lemma StartCountFits(inner: int, count: int)
    requires inner >= 1 && count >= 1
    ensures StartCount(inner, BlockSize(inner, count)) <= count
  {
    var s := BlockSize(inner, count);
    BlockSizeIsCeiling(inner, count);
    DivLess(inner - 1, s, count);
  }

  /** The start 1 + t*size is inside exactly for the first StartCount(inner, size) values of t. */
  lemma StartBelow(inner: int, size: int, t: int)
    requires inner >= 1 && size >= 1 && t >= 0
    ensures 1 + t * size <= inner <==> t < StartCount(inner, size)
  {
    var q := (inner - 1) / size;
    assert size * q <= inner - 1;
    if t <= q {
      MulMonotone(size, t, q);
    } else {
      MulMonotone(size, q + 1, t);
      assert size * (q + 1) == size * q + size;
    }
  }

  lemma DivMonotone(a: int, b: int, d: int)
    requires 0 <= a <= b && d > 0
    ensures a / d <= b / d
  {
    assert b == d * (b / d) + b % d;
    assert d * (b / d + 1) == d * (b / d) + d;
    DivLess(a, d, b / d + 1);
  }

  /** Blocks of `height` rows by `width` columns. */
  datatype Tiling = Tiling(height: int, width: int)

  predicate ValidTiling(t: Tiling) {
    t.height >= 1 && t.width >= 1
  }

  function Rows(t: Tiling): int
    requires ValidTiling(t)
  {
    StartCount(InnerN, t.height)
  }

  function Cols(t: Tiling): int
    requires ValidTiling(t)
  {
    StartCount(InnerM, t.width)
  }

  /** The number of blocks: the `size = startIndex` of hardCrossover. */
  function Count(t: Tiling): int
    requires ValidTiling(t)
  {
    Rows(t) * Cols(t)
  }

  /** The number of the block holding interior cell (x, y). */
  function BlockIndex(t: Tiling, x: int, y: int): int
    requires ValidTiling(t)
  {
    ((x - 1) / t.height) * Cols(t) + (y - 1) / t.width
  }

  function BlockTop(t: Tiling, k: int): int
    requires ValidTiling(t)
  {
    1 + (k / Cols(t)) * t.height
  }

  function BlockLeft(t: Tiling, k: int): int
    requires ValidTiling(t)
  {
    1 + (k % Cols(t)) * t.width
  }

  /** Cell (x, y) lies in block k, clipped to the interior. */
  predicate InBlock(t: Tiling, k: int, x: int, y: int)
    requires ValidTiling(t)
  {
    Interior(x, y) &&
    BlockTop(t, k) <= x < BlockTop(t, k) + t.height &&
    BlockLeft(t, k) <= y < BlockLeft(t, k) + t.width
  }

  /** Every interior cell has a block number below Count. */
  lemma IndexInRange(t: Tiling, x: int, y: int)
    requires ValidTiling(t) && Interior(x, y)
    ensures 0 <= BlockIndex(t, x, y) < Count(t)
  {
    var rows, cols := Rows(t), Cols(t);
    var r, c := (x - 1) / t.height, (y - 1) / t.width;
    assert 0 <= r < rows by {
      DivNonneg(x - 1, t.height);
      DivMonotone(x - 1, InnerN - 1, t.height);
    }
    assert 0 <= c < cols by {
      DivNonneg(y - 1, t.width);
      DivMonotone(y - 1, InnerM - 1, t.width);
    }
    IndexBound(r, c, rows, cols);
    assert BlockIndex(t, x, y) == r * cols + c;
  }

  /**
   * The blocks tile the interior exactly: an interior cell lies in block k
   * if and only if k is its block number.
   */
  lemma InBlockIff(t: Tiling, k: int, x: int, y: int)
    requires ValidTiling(t) && 0 <= k < Count(t) && Interior(x, y)
    ensures InBlock(t, k, x, y) <==> BlockIndex(t, x, y) == k
  {
    var cols := Cols(t);
    var r, c := (x - 1) / t.height, (y - 1) / t.width;
    assert InBlock(t, k, x, y) <==> r == k / cols && c == k % cols by {
      SpanIff(x - 1, t.height, k / cols);
      SpanIff(y - 1, t.width, k % cols);
    }
    assert r * cols + c == k <==> r == k / cols && c == k % cols by {
      assert 0 <= c < cols by {
        DivNonneg(y - 1, t.width);
        DivMonotone(y - 1, InnerM - 1, t.width);
      }
      RowMajorIff(k, cols, r, c);
    }
    assert BlockIndex(t, x, y) == r * cols + c;
  }

  /** Every block starts inside the interior. */
  lemma BlockStartInside(t: Tiling, k: int)
    requires ValidTiling(t) && 0 <= k < Count(t)
    ensures Interior(BlockTop(t, k), BlockLeft(t, k))
  {
    var rows, cols := Rows(t), Cols(t);
    var r, c := k / cols, k % cols;
    assert 0 <= c < cols && 0 <= r;
    assert cols * rows == Count(t);
    DivLess(k, cols, rows);
    StartBelow(InnerN, t.height, r);
    StartBelow(InnerM, t.width, c);
    assert BlockTop(t, k) == 1 + r * t.height && BlockLeft(t, k) == 1 + c * t.width;
  }

  /** g with block k copied from src. */
  function CopyBlock(g: Cells, src: Cells, t: Tiling, k: int): (r: Cells)
    requires IsGrid(g) && IsGrid(src) && ValidTiling(t)
    ensures IsGrid(r)
  {
    seq(N, x requires 0 <= x < N => seq(M, y requires 0 <= y < M =>
      if InBlock(t, k, x, y) then src[x][y] else g[x][y]))
  }

  /**
   * The child of a block crossover: each interior cell from `b` when its
   * block's pick is set and from `a` otherwise; the border from `base`.
   */
  function Crossed(base: Cells, a: Cells, b: Cells, t: Tiling, pick: seq<bool>): (r: Cells)
    requires IsGrid(base) && IsGrid(a) && IsGrid(b) && ValidTiling(t) && |pick| >= Count(t)
    ensures IsGrid(r)
  {
    seq(N, x requires 0 <= x < N => seq(M, y requires 0 <= y < M =>
      if Interior(x, y) then
        IndexInRange(t, x, y);
        (if pick[BlockIndex(t, x, y)] then b else a)[x][y]
      else base[x][y]))
  }

  /** The child after the first k blocks have been written. */
  function Partial(base: Cells, a: Cells, b: Cells, t: Tiling, pick: seq<bool>, k: int): (r: Cells)
    requires IsGrid(base) && IsGrid(a) && IsGrid(b) && ValidTiling(t) && |pick| >= Count(t)
    ensures IsGrid(r)
  {
    seq(N, x requires 0 <= x < N => seq(M, y requires 0 <= y < M =>
      if Interior(x, y) && BlockIndex(t, x, y) < k then
        IndexInRange(t, x, y);
        (if pick[BlockIndex(t, x, y)] then b else a)[x][y]
      else base[x][y]))
  }

  /** Writing block k from its parent extends the first k blocks to k + 1. */
  lemma PartialStep(base: Cells, a: Cells, b: Cells, t: Tiling, pick: seq<bool>, k: int)
    requires IsGrid(base) && IsGrid(a) && IsGrid(b) && ValidTiling(t) && |pick| >= Count(t)
    requires 0 <= k < Count(t)
    ensures CopyBlock(Partial(base, a, b, t, pick, k), if pick[k] then b else a, t, k) == Partial(base, a, b, t, pick, k + 1)
  {
    var lhs := CopyBlock(Partial(base, a, b, t, pick, k), if pick[k] then b else a, t, k);
    var rhs := Partial(base, a, b, t, pick, k + 1);
    forall x | 0 <= x < N
      ensures lhs[x] == rhs[x]
    {
      forall y | 0 <= y < M
        ensures lhs[x][y] == rhs[x][y]
      {
        if Interior(x, y) {
          InBlockIff(t, k, x, y);
        }
      }
    }
  }

  lemma PartialEnds(base: Cells, a: Cells, b: Cells, t: Tiling, pick: seq<bool>)
    requires IsGrid(base) && IsGrid(a) && IsGrid(b) && ValidTiling(t) && |pick| >= Count(t)
    ensures Partial(base, a, b, t, pick, 0) == base
    ensures Partial(base, a, b, t, pick, Count(t)) == Crossed(base, a, b, t, pick)
  {
    var p0, pc, cr := Partial(base, a, b, t, pick, 0), Partial(base, a, b, t, pick, Count(t)), Crossed(base, a, b, t, pick);
    forall x | 0 <= x < N
      ensures p0[x] == base[x] && pc[x] == cr[x]
    {
      forall y | 0 <= y < M
        ensures p0[x][y] == base[x][y] && pc[x][y] == cr[x][y]
      {
        if Interior(x, y) {
          IndexInRange(t, x, y);
        }
      }
    }
  }

  /**
   * A block crossover keeps the border of its base: with a walled border the
   * child is consistent once its entry and exit are opened, and it is
   * already consistent when both parents have them open.
   */
  lemma CrossedBorder(base: Cells, a: Cells, b: Cells, t: Tiling, pick: seq<bool>)
    requires IsGrid(base) && IsGrid(a) && IsGrid(b) && ValidTiling(t) && |pick| >= Count(t)
    requires BorderWalled(base)
    ensures BorderWalled(Crossed(base, a, b, t, pick))
    ensures Consistent(SoftConsistent(Crossed(base, a, b, t, pick)))
    ensures FixedOpen(a) && FixedOpen(b) ==> Consistent(Crossed(base, a, b, t, pick))
  {
    var c := Crossed(base, a, b, t, pick);
    assert forall i, j :: 0 <= i < N && 0 <= j < M && OnBorder(i, j) ==> c[i][j] == base[i][j];
    ConsistentAfterSoft(c);
    assert Interior(1, 1) && Interior(N - 2, M - 2);
  }

  /**
   * The copy loop of one block: rows nStart.. while fewer than `height` and
   * at most innerN, columns mStart.. likewise.
   */
  method WriteBlock(child: array2<bool>, src: Cells, t: Tiling, k: int, nStart: int, mStart: int)
    requires Shaped(child) && IsGrid(src) && ValidTiling(t) && 0 <= k < Count(t)
    requires nStart == BlockTop(t, k) && mStart == BlockLeft(t, k)
    modifies child
    ensures Snapshot(child) == CopyBlock(old(Snapshot(child)), src, t, k)
  {
    BlockStartInside(t, k);
    ghost var g := Snapshot(child);
    ghost var bottom := if nStart + t.height <= InnerN + 1 then nStart + t.height else InnerN + 1;
    ghost var right := if mStart + t.width <= InnerM + 1 then mStart + t.width else InnerM + 1;
    var i, x := 0, nStart;
    while i < t.height && x <= InnerN
      invariant 0 <= i <= t.height && x == nStart + i && x <= bottom
      invariant forall p, q :: InGrid(p, q) ==>
        child[p, q] == if nStart <= p < x && mStart <= q < right then src[p][q] else g[p][q]
    {
      var j, y := 0, mStart;
      while j < t.width && y <= InnerM
        invariant 0 <= j <= t.width && y == mStart + j && y <= right
        invariant forall p, q :: InGrid(p, q) ==>
          child[p, q] == if (nStart <= p < x && mStart <= q < right) || (p == x && mStart <= q < y) then src[p][q] else g[p][q]
      {
        child[x, y] := src[x][y];
        j, y := j + 1, y + 1;
      }
      i, x := i + 1, x + 1;
    }
    ghost var r := CopyBlock(g, src, t, k);
    forall p, q | InGrid(p, q)
      ensures child[p, q] == r[p][q]
    {
      assert InBlock(t, k, p, q) <==> nStart <= p < bottom && mStart <= q < right;
    }
    SnapshotEq(child, r);
  }

  /** The block numbered ti*cols + tj starts at row 1 + ti*height and column 1 + tj*width. */
  lemma StartOf(t: Tiling, ti: int, tj: int)
    requires ValidTiling(t) && 0 <= ti < Rows(t) && 0 <= tj < Cols(t)
    ensures 0 <= ti * Cols(t) + tj < Count(t)
    ensures BlockTop(t, ti * Cols(t) + tj) == 1 + ti * t.height
    ensures BlockLeft(t, ti * Cols(t) + tj) == 1 + tj * t.width
  {
    IndexBound(ti, tj, Rows(t), Cols(t));
    RowMajorIff(ti * Cols(t) + tj, Cols(t), ti, tj);
  }

  /** A factorisation's blocks number at most nCount * mCount. */
  lemma CountFits(nCount: int, mCount: int, t: Tiling)
    requires nCount >= 1 && mCount >= 1
    requires t == Tiling(BlockSize(InnerN, nCount), BlockSize(InnerM, mCount))
    ensures Count(t) <= nCount * mCount
  {
    StartCountFits(InnerN, nCount);
    StartCountFits(InnerM, mCount);
    MulMonotone(Cols(t), Rows(t), nCount);
    MulMonotone(nCount, Cols(t), mCount);
  }

  /** The starts of blocks 0..n-1, in order. */
  function StartList(t: Tiling, n: nat): (r: seq<(int, int)>)
    requires ValidTiling(t)
    ensures |r| == n
  {
    if n == 0 then [] else StartList(t, n - 1) + [(BlockTop(t, n - 1), BlockLeft(t, n - 1))]
  }

  lemma {:induction false} StartListAt(t: Tiling, n: nat, k: int)
    requires ValidTiling(t) && 0 <= k < n
    ensures StartList(t, n)[k] == (BlockTop(t, k), BlockLeft(t, k))
  {
    if k < n - 1 {
      StartListAt(t, n - 1, k);
    }
  }

  /** The inner loop of blockStarts: the starts of block row ti, from startIndex on. */
  method WriteRowStarts(starts: array<(int, int)>, t: Tiling, ghost ti: int, i: int, startIndex: int) returns (next: int)
    requires ValidTiling(t) && 0 <= ti < Rows(t) && i == 1 + ti * t.height
    requires startIndex == ti * Cols(t)
    requires 0 <= startIndex && startIndex + Cols(t) <= Count(t) <= starts.Length
    requires starts[..startIndex] == StartList(t, startIndex)
    modifies starts
    ensures next == startIndex + Cols(t)
    ensures starts[..next] == StartList(t, next)
  {
    ghost var cols := Cols(t);
    next := startIndex;
    var j := 1;
    ghost var tj := 0;
    while j <= InnerM
      invariant 0 <= tj <= cols && j == 1 + tj * t.width
      invariant next == startIndex + tj
      invariant starts[..next] == StartList(t, next)
    {
      StartBelow(InnerM, t.width, tj);
      StartOf(t, ti, tj);
      starts[next] := (i, j);
      assert starts[..next + 1] == starts[..next] + [(i, j)];
      MulSucc(tj, t.width);
      j, next, tj := j + t.width, next + 1, tj + 1;
    }
    StartBelow(InnerM, t.width, tj);
  }

  /**
   * blockStarts of hardCrossover: the start of every block, row by row,
   * written into an array of nCount*mCount entries that is never overrun.
   */
  method ComputeBlockStarts(nCount: int, mCount: int, t: Tiling) returns (starts: array<(int, int)>, size: int)
    requires nCount >= 1 && mCount >= 1
    requires t == Tiling(BlockSize(InnerN, nCount), BlockSize(InnerM, mCount))
    ensures starts.Length == nCount * mCount
    ensures size == Count(t) <= nCount * mCount
    ensures starts[..size] == StartList(t, size)
  {
    ghost var rows, cols := Rows(t), Cols(t);
    CountFits(nCount, mCount, t);
    starts := new (int, int)[nCount * mCount];
    var startIndex := 0;
    var i := 1;
    ghost var ti := 0;
    while i <= InnerN
      invariant 0 <= ti <= rows && i == 1 + ti * t.height
      invariant startIndex == ti * cols && 0 <= startIndex <= Count(t) <= starts.Length
      invariant starts[..startIndex] == StartList(t, startIndex)
    {
      StartBelow(InnerN, t.height, ti);
      MulSucc(ti, cols);
      MulSucc(ti, t.height);
      MulMonotone(cols, ti + 1, rows);
      assert cols * (ti + 1) == (ti + 1) * cols;
      startIndex := WriteRowStarts(starts, t, ti, i, startIndex);
      i, ti := i + t.height, ti + 1;
    }
    StartBelow(InnerN, t.height, ti);
    size := startIndex;
  }
}
