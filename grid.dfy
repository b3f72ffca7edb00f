/**
 * The maze grid of BugField (a boolean[SITE_N][SITE_M], true = wall) and of
 * the C++ field_t<21, 31>: its dimensions, its invariants, its byte layout,
 * its row masks, its text form, and the array operations the other modules
 * share (row-by-row copy, window write).
 */
module Grid {
  import opened Bits
  import opened Decimal

  /** SITE_N / X_SIZE and SITE_M / Y_SIZE. */
  const N: int := 21
  const M: int := 31

  /** SITE_WALL = (char) 254 and SITE_EMPTY = (char) 0: the bytes of the persisted layout. */
  const WallByte: int := 254
  const EmptyByte: int := 0

  /** The characters of the text form ('#' and '.', as in the C++ WALL and EMPTY). */
  const WallChar: char := '#'
  const EmptyChar: char := '.'

  /** A grid as a value: rows of cells, true for a wall. */
  type Cells = seq<seq<bool>>

  /** A field's grid together with its cached step count (-1 until computed). */
  datatype Scored = Scored(cells: Cells, steps: int)

  const Unknown: int := -1

  predicate IsGrid(g: Cells) {
    |g| == N && forall i :: 0 <= i < N ==> |g[i]| == M
  }

  predicate InGrid(i: int, j: int) {
    0 <= i < N && 0 <= j < M
  }

  predicate OnBorder(i: int, j: int) {
    i == 0 || i == N - 1 || j == 0 || j == M - 1
  }

  predicate Interior(i: int, j: int) {
    1 <= i <= N - 2 && 1 <= j <= M - 2
  }

  /** The entry (1, 1) and the exit (N-2, M-2), which must stay open. */
  predicate IsFixedCell(i: int, j: int) {
    (i == 1 && j == 1) || (i == N - 2 && j == M - 2)
  }

  predicate BorderWalled(g: Cells)
    requires IsGrid(g)
  {
    forall i, j :: 0 <= i < N && 0 <= j < M && OnBorder(i, j) ==> g[i][j]
  }

  predicate FixedOpen(g: Cells)
    requires IsGrid(g)
  {
    !g[1][1] && !g[N - 2][M - 2]
  }

  /** What BugField.isConsistent checks. */
  predicate Consistent(g: Cells)
    requires IsGrid(g)
  {
    BorderWalled(g) && FixedOpen(g)
  }

  /** The blank grid of BugField.create(): walls on the border, open inside. */
  function Blank(): (g: Cells)
    ensures IsGrid(g)
  {
    seq(N, i => seq(M, j => OnBorder(i, j)))
  }

  /** The grid `new boolean[n][m]` starts as: every cell open. */
  function AllOpen(): (g: Cells)
    ensures IsGrid(g)
  {
    seq(N, i => seq(M, j => false))
  }

  /** BugField.makeSoftConsistent on a value: open the entry and the exit. */
  function SoftConsistent(g: Cells): (r: Cells)
    requires IsGrid(g)
    ensures IsGrid(r) && FixedOpen(r)
    ensures forall i, j :: InGrid(i, j) && !IsFixedCell(i, j) ==> r[i][j] == g[i][j]
  {
    g[1 := g[1][1 := false]][N - 2 := g[N - 2][M - 2 := false]]
  }

  lemma SoftConsistentIdempotent(g: Cells)
    requires IsGrid(g)
    ensures SoftConsistent(SoftConsistent(g)) == SoftConsistent(g)
  {
    SoftConsistentKeepsFixedOpen(SoftConsistent(g));
  }

  /** A grid whose entry and exit are already open is left as it is. */
  lemma SoftConsistentKeepsFixedOpen(g: Cells)
    requires IsGrid(g) && FixedOpen(g)
    ensures SoftConsistent(g) == g
  {
    assert g[1][1 := false] == g[1];
    assert g[N - 2][M - 2 := false] == g[N - 2];
  }

  /**
   * After makeSoftConsistent a grid passes isConsistent exactly when its
   * border is all walls: recalculateSteps always hands the oracle a
   * consistent grid when the border is walled.
   */
  lemma ConsistentAfterSoft(g: Cells)
    requires IsGrid(g)
    ensures Consistent(SoftConsistent(g)) <==> BorderWalled(g)
  {
    var r := SoftConsistent(g);
    if BorderWalled(g) {
      forall i, j | InGrid(i, j) && OnBorder(i, j)
        ensures r[i][j]
      {
        assert !IsFixedCell(i, j);
      }
    }
    if BorderWalled(r) {
      forall i, j | InGrid(i, j) && OnBorder(i, j)
        ensures g[i][j]
      {
        assert !IsFixedCell(i, j);
      }
    }
  }

  lemma BlankConsistent()
    ensures Consistent(Blank())
    ensures forall i, j :: InGrid(i, j) ==> (Blank()[i][j] <==> OnBorder(i, j))
  {
  }

  // ---------------------------------------------------------------------
  // Windows: the rectangles that mutation and hardMutations rewrite.

  /** The rectangle of `height` rows from `top` and `width` columns from `left`. */
  datatype Window = Window(top: int, left: int, height: int, width: int)

  predicate InWindow(w: Window, i: int, j: int) {
    w.top <= i < w.top + w.height && w.left <= j < w.left + w.width
  }

  /** A non-empty window that touches no border cell. */
  predicate InsideBorder(w: Window) {
    w.height >= 1 && w.width >= 1 &&
    1 <= w.top && w.top + w.height <= N - 1 &&
    1 <= w.left && w.left + w.width <= M - 1
  }

  /** The bit that drives cell (x, y) of a window, counted row by row. */
  function WindowBit(w: Window, x: int, y: int): (k: nat)
    requires w.width >= 1 && 0 <= x < w.height && 0 <= y < w.width
    ensures k < w.height * w.width
  {
    MulMonotone(w.width, x + 1, w.height);
    x * w.width + y
  }

  /** The grid with every cell of `w` set from `bits`, row by row, and the rest kept. */
  function WriteWindow(g: Cells, w: Window, bits: seq<bool>): (r: Cells)
    requires IsGrid(g) && InsideBorder(w) && |bits| >= w.height * w.width
    ensures IsGrid(r)
  {
    seq(N, i requires 0 <= i < N =>
      seq(M, j requires 0 <= j < M =>
        if InWindow(w, i, j) then bits[WindowBit(w, i - w.top, j - w.left)] else g[i][j]))
  }

  /** Writing a window inside the border keeps the border walled. */
  lemma WriteWindowKeepsBorder(g: Cells, w: Window, bits: seq<bool>)
    requires IsGrid(g) && InsideBorder(w) && |bits| >= w.height * w.width
    requires BorderWalled(g)
    ensures BorderWalled(WriteWindow(g, w, bits))
    ensures Consistent(SoftConsistent(WriteWindow(g, w, bits)))
  {
    var r := WriteWindow(g, w, bits);
    forall i, j | InGrid(i, j) && OnBorder(i, j)
      ensures r[i][j]
    {
      assert !InWindow(w, i, j);
    }
    ConsistentAfterSoft(r);
  }

  // ---------------------------------------------------------------------
  // The persisted byte layout of printToZip / readFromZip.

  /** printToZip: one byte per cell, column by column, SITE_WALL for a wall. */
  function Encode(g: Cells): (bytes: seq<int>)
    requires IsGrid(g)
    ensures |bytes| == N * M
  {
    seq(N * M, k requires 0 <= k < N * M => if g[k % N][k / N] then WallByte else EmptyByte)
  }

  /** InputStream.read(): the next byte, or -1 past the end of the stream. */
  function ReadByte(bytes: seq<int>, k: nat): int
  {
    if k < |bytes| then bytes[k] else -1
  }

  /** readFromZip before create(): cell (i, j) is a wall when byte j*n+i is SITE_WALL. */
  function Decode(bytes: seq<int>): (g: Cells)
    ensures IsGrid(g)
  {
    seq(N, i requires 0 <= i < N => seq(M, j requires 0 <= j < M => ReadByte(bytes, j * N + i) == WallByte))
  }

  lemma ColumnMajorIndex(i: int, j: int)
    requires InGrid(i, j)
    ensures 0 <= j * N + i < N * M
    ensures (j * N + i) % N == i && (j * N + i) / N == j
  {
    MulMonotone(N, j + 1, M);
    DivUnique(j * N + i, N, j, i);
  }

  /** Reading back the bytes printToZip wrote reproduces the grid. */
  lemma DecodeEncode(g: Cells)
    requires IsGrid(g)
    ensures Decode(Encode(g)) == g
  {
    var r := Decode(Encode(g));
    forall i | 0 <= i < N
      ensures r[i] == g[i]
    {
      forall j | 0 <= j < M
        ensures r[i][j] == g[i][j]
      {
        ColumnMajorIndex(i, j);
      }
    }
  }

  /** Conversely, a stream of n*m wall/empty bytes is what encoding its decoding writes. */
  lemma EncodeDecode(bytes: seq<int>)
    requires |bytes| == N * M
    requires forall k :: 0 <= k < |bytes| ==> bytes[k] == WallByte || bytes[k] == EmptyByte
    ensures Encode(Decode(bytes)) == bytes
  {
    var r := Encode(Decode(bytes));
    forall k | 0 <= k < N * M
      ensures r[k] == bytes[k]
    {
      var i, j := k % N, k / N;
      assert k == j * N + i;
      DivLess(k, N, M);
    }
  }

  // ---------------------------------------------------------------------
  // Row masks of initMasks / equalsByMasks.

  /** masks[i] after initMasks: bit j set exactly when wall[i][j]. */
  function Masks(g: Cells): (masks: seq<nat>)
    requires IsGrid(g)
    ensures |masks| == N
  {
    seq(N, i requires 0 <= i < N => MaskOf(g[i]))
  }

  /** With m = 31 columns every row mask is a non-negative Java int, and bit j is cell j. */
  lemma MasksFitInt(g: Cells, i: int, j: int)
    requires IsGrid(g) && InGrid(i, j)
    ensures 0 <= Masks(g)[i] <= IntMax
    ensures BitOf(Masks(g)[i], j) == (if g[i][j] then 1 else 0)
  {
    MaskOfBound(g[i]);
    Pow2Values();
    MaskOfBits(g[i], j);
  }

  /** Comparing row masks (equalsByMasks) is comparing grids. */
  lemma MasksEqualIffCellsEqual(a: Cells, b: Cells)
    requires IsGrid(a) && IsGrid(b)
    ensures Masks(a) == Masks(b) <==> a == b
  {
    if Masks(a) == Masks(b) {
      forall i | 0 <= i < N
        ensures a[i] == b[i]
      {
        assert Masks(a)[i] == Masks(b)[i];
        MaskOfInjective(a[i], b[i]);
      }
    }
  }

  // ---------------------------------------------------------------------
  // The text form of BugField.toString, the exact-equality key of hardCrossover.

  function RowText(row: seq<bool>): (s: string)
    ensures |s| == |row|
  {
    seq(|row|, j requires 0 <= j < |row| => if row[j] then WallChar else EmptyChar)
  }

  function RowsText(rows: Cells): string
  {
    if rows == [] then "" else RowText(rows[0]) + "\n" + RowsText(rows[1..])
  }

  /** BugField.toString: "n m", the rows, and the step count, each line ended by '\n'. */
  function FieldText(g: Cells, steps: int): string
  {
    IntText(N) + " " + IntText(M) + "\n" + RowsText(g) + IntText(steps) + "\n"
  }

  lemma {:induction false} RowsTextLength(rows: Cells)
    requires forall i :: 0 <= i < |rows| ==> |rows[i]| == M
    ensures |RowsText(rows)| == |rows| * (M + 1)
  {
    if rows != [] {
      RowsTextLength(rows[1..]);
    }
  }

  lemma RowTextInjective(a: seq<bool>, b: seq<bool>)
    requires RowText(a) == RowText(b)
    ensures a == b
  {
    forall j | 0 <= j < |a|
      ensures a[j] == b[j]
    {
      assert RowText(a)[j] == RowText(b)[j];
    }
  }

  lemma {:induction false} RowsTextInjective(a: Cells, b: Cells)
    requires |a| == |b|
    requires forall i :: 0 <= i < |a| ==> |a[i]| == M && |b[i]| == M
    requires RowsText(a) == RowsText(b)
    ensures a == b
  {
    if a != [] {
      var ta, tb := RowsText(a), RowsText(b);
      assert ta[..M] == RowText(a[0]);
      assert tb[..M] == RowText(b[0]);
      RowTextInjective(a[0], b[0]);
      assert ta[M + 1..] == RowsText(a[1..]);
      assert tb[M + 1..] == RowsText(b[1..]);
      RowsTextInjective(a[1..], b[1..]);
      assert a == [a[0]] + a[1..] && b == [b[0]] + b[1..];
    }
  }

  /**
   * Two fields print the same toString exactly when their grids and their
   * step counts are equal, so a set of these strings deduplicates by exact
   * pattern.
   */
  lemma FieldTextInjective(g1: Cells, s1: int, g2: Cells, s2: int)
    requires IsGrid(g1) && IsGrid(g2)
    requires FieldText(g1, s1) == FieldText(g2, s2)
    ensures g1 == g2 && s1 == s2
  {
    var head := IntText(N) + " " + IntText(M) + "\n";
    var r1, r2 := RowsText(g1), RowsText(g2);
    RowsTextLength(g1);
    RowsTextLength(g2);
    var t1, t2 := FieldText(g1, s1), FieldText(g2, s2);
    assert t1 == head + r1 + (IntText(s1) + "\n");
    assert t2 == head + r2 + (IntText(s2) + "\n");
    assert t1[|head|..|head| + |r1|] == r1;
    assert t2[|head|..|head| + |r2|] == r2;
    RowsTextInjective(g1, g2);
    assert t1[|head| + |r1|..] == IntText(s1) + "\n";
    assert t2[|head| + |r2|..] == IntText(s2) + "\n";
    assert IntText(s1) == (IntText(s1) + "\n")[..|IntText(s1) + "\n"| - 1];
    assert IntText(s2) == (IntText(s2) + "\n")[..|IntText(s2) + "\n"| - 1];
    IntTextInjective(s1, s2);
  }

  /**
   * BugField.compareTo: -Integer.compare(steps, other.steps), so that a sort
   * puts the larger step count first.
   */
  function CompareSteps(steps: int, other: int): (r: int)
    ensures r == -1 || r == 0 || r == 1
    ensures r < 0 <==> steps > other
    ensures r == 0 <==> steps == other
    ensures r > 0 <==> steps < other
  {
    var compare := if steps < other then -1 else if steps == other then 0 else 1;
    -compare
  }

  // ---------------------------------------------------------------------
  // Grids held in arrays.

  predicate Shaped(a: array2<bool>) {
    a.Length0 == N && a.Length1 == M
  }

  /** The current contents of an array grid, as a value. */
  function Snapshot(a: array2<bool>): (g: Cells)
    reads a
    ensures |g| == a.Length0
    ensures forall i :: 0 <= i < a.Length0 ==> |g[i]| == a.Length1
    ensures forall i, j :: 0 <= i < a.Length0 && 0 <= j < a.Length1 ==> g[i][j] == a[i, j]
  {
    seq(a.Length0, i requires 0 <= i < a.Length0 reads a =>
      seq(a.Length1, j requires 0 <= j < a.Length1 reads a => a[i, j]))
  }

  /** Two array grids of the same shape hold the same value when they agree cell by cell. */
  lemma SnapshotEq(a: array2<bool>, g: Cells)
    requires Shaped(a) && IsGrid(g)
    requires forall i, j :: InGrid(i, j) ==> a[i, j] == g[i][j]
    ensures Snapshot(a) == g
  {
    var s := Snapshot(a);
    forall i | 0 <= i < N
      ensures s[i] == g[i]
    {
    }
  }

  /** `new boolean[n][m]`. */
  method NewWall() returns (a: array2<bool>)
    ensures fresh(a) && Shaped(a) && Snapshot(a) == AllOpen()
  {
    a := new bool[N, M]((i, j) => false);
    SnapshotEq(a, AllOpen());
  }

  /** The row-by-row System.arraycopy of a whole grid from `src` into `dst`. */
  method CopyCells(src: array2<bool>, dst: array2<bool>)
    requires Shaped(src) && Shaped(dst)
    modifies dst
    ensures Snapshot(dst) == old(Snapshot(src))
  {
    ghost var g := Snapshot(src);
    for i := 0 to N
      invariant forall x, y :: InGrid(x, y) ==> src[x, y] == g[x][y]
      invariant forall x, y :: 0 <= x < i && 0 <= y < M ==> dst[x, y] == g[x][y]
    {
      for j := 0 to M
        invariant forall x, y :: InGrid(x, y) ==> src[x, y] == g[x][y]
        invariant forall x, y :: 0 <= x < i && 0 <= y < M ==> dst[x, y] == g[x][y]
        invariant forall y :: 0 <= y < j ==> dst[i, y] == g[i][y]
      {
        dst[i, j] := src[i, j];
      }
    }
    SnapshotEq(dst, g);
  }

  /** A fresh array grid holding `g` (a clone of a row-by-row copy). */
  method NewWallOf(g: Cells) returns (a: array2<bool>)
    requires IsGrid(g)
    ensures fresh(a) && Shaped(a) && Snapshot(a) == g
  {
    a := new bool[N, M]((i, j) => false);
    for i := 0 to N
      invariant forall x, y :: 0 <= x < i && 0 <= y < M ==> a[x, y] == g[x][y]
    {
      for j := 0 to M
        invariant forall x, y :: 0 <= x < i && 0 <= y < M ==> a[x, y] == g[x][y]
        invariant forall y :: 0 <= y < j ==> a[i, y] == g[i][y]
      {
        a[i, j] := g[i][j];
      }
    }
    SnapshotEq(a, g);
  }

  /**
   * The double loop shared by mutation and hardMutations: cell
   * (top + x, left + y) of the window receives bit x * width + y.
   */
  method WriteWindowInPlace(a: array2<bool>, w: Window, bits: seq<bool>)
    requires Shaped(a) && InsideBorder(w) && |bits| >= w.height * w.width
    modifies a
    ensures Snapshot(a) == WriteWindow(old(Snapshot(a)), w, bits)
  {
    ghost var g := Snapshot(a);
    ghost var r := WriteWindow(g, w, bits);
    for x := 0 to w.height
      invariant forall i, j :: InGrid(i, j) && !(w.top <= i < w.top + x && InWindow(w, i, j)) ==> a[i, j] == g[i][j]
      invariant forall i, j :: InGrid(i, j) && w.top <= i < w.top + x && InWindow(w, i, j) ==> a[i, j] == r[i][j]
    {
      WriteWindowRow(a, w, bits, x);
    }
    SnapshotEq(a, r);
  }

  /** The inner loop for window row x: its cells take their bits, every other cell is kept. */
  method WriteWindowRow(a: array2<bool>, w: Window, bits: seq<bool>, x: int)
    requires Shaped(a) && InsideBorder(w) && |bits| >= w.height * w.width && 0 <= x < w.height
    modifies a
    ensures forall i, j :: InGrid(i, j) ==>
      a[i, j] == if i == w.top + x && w.left <= j < w.left + w.width then bits[WindowBit(w, x, j - w.left)] else old(a[i, j])
  {
    var row := w.top + x;
    for y := 0 to w.width
      invariant forall i, j :: InGrid(i, j) ==>
        a[i, j] == if i == row && w.left <= j < w.left + y then bits[WindowBit(w, x, j - w.left)] else old(a[i, j])
    {
      a[row, w.left + y] := bits[WindowBit(w, x, y)];
    }
  }
}
