/**
 * The genetic operators of BugFieldGeneticAlgorithm: the 3-by-5 block
 * crossover and the random-window mutation. The random source is replaced by
 * its draws: one coin per block for crossover, and for mutation the four
 * `nextInt` results and one coin per window cell.
 */
module GeneticOperators {
  import opened Bits
  import opened Grid
  import opened Blocks
  import opened Field

  /** sizeN = 3, sizeM = 5: the blocks of crossover. */
  const Blocks35: Tiling := Tiling(3, 5)

  /** A grid as BugField.create(wall) leaves it: opened at the entry and the exit, then scored. */
  function Scoring(g: Cells, oracle: Cells -> int): (x: Scored)
    requires IsGrid(g)
    ensures IsGrid(x.cells) && FixedOpen(x.cells) && x.steps == oracle(x.cells)
    ensures BorderWalled(g) ==> Consistent(x.cells)
  {
    ConsistentAfterSoft(g);
    Scored(SoftConsistent(g), oracle(SoftConsistent(g)))
  }

  /** BugField.create(wall) on a fresh buffer: the field takes the buffer and recalculates its steps. */
  method CreateFrom(wall: array2<bool>, oracle: Cells -> int) returns (x: Scored)
    requires Shaped(wall)
    modifies wall
    ensures x == Scoring(old(Snapshot(wall)), oracle) && Snapshot(wall) == x.cells
  {
    var f := new Field(wall);
    f.RecalculateSteps(oracle);
    x := Scored(Snapshot(wall), f.steps);
  }

  /** `new boolean[n][m]` with its four border lines set to walls. */
  method BorderedWall() returns (a: array2<bool>)
    ensures fresh(a) && Shaped(a) && Snapshot(a) == Blank()
  {
    a := NewWall();
    assert forall x, y :: InGrid(x, y) ==> !a[x, y] by {
      assert Snapshot(a) == AllOpen();
    }
    for i := 0 to N
      invariant forall x, y :: InGrid(x, y) ==> (a[x, y] <==> x < i && (y == 0 || y == M - 1))
    {
      a[i, 0] := true;
      a[i, M - 1] := true;
    }
    for j := 0 to M
      invariant forall x, y :: InGrid(x, y) ==> (a[x, y] <==> y == 0 || y == M - 1 || ((x == 0 || x == N - 1) && y < j))
    {
      a[0, j] := true;
      a[N - 1, j] := true;
    }
    SnapshotEq(a, Blank());
  }

  /** The 3-by-5 blocks: 7 block rows and 6 block columns, 42 blocks. */
  lemma Blocks35Shape()
    ensures ValidTiling(Blocks35) && Rows(Blocks35) == 7 && Cols(Blocks35) == 6 && Count(Blocks35) == 42
  {
  }

  /**
   * crossover(first, second): a blank bordered grid whose 3-by-5 blocks,
   * taken row by row, each come from `first` when their coin is true and
   * from `second` otherwise, then created (scored).
   */
  method Crossover(first: Scored, second: Scored, coins: seq<bool>, oracle: Cells -> int)
    returns (child: Scored, wall: array2<bool>)
    requires IsGrid(first.cells) && IsGrid(second.cells) && |coins| >= 42
    ensures fresh(wall) && Shaped(wall) && Snapshot(wall) == child.cells
    ensures child == Scoring(Crossed(Blank(), second.cells, first.cells, Blocks35, coins), oracle)
  {
    Blocks35Shape();
    var t := Blocks35;
    wall := BorderedWall();
    PartialEnds(Blank(), second.cells, first.cells, t, coins);
    var k := 0;
    var i := 1;
    ghost var ti := 0;
    while i < N - 1
      invariant 0 <= ti <= 7 && i == 1 + ti * 3 && k == ti * 6
      invariant Shaped(wall)
      invariant Snapshot(wall) == Partial(Blank(), second.cells, first.cells, t, coins, k)
    {
      k := CrossRow(wall, first.cells, second.cells, coins, ti, i, k);
      i, ti := i + 3, ti + 1;
    }
    ghost var crossed := Crossed(Blank(), second.cells, first.cells, t, coins);
    assert Snapshot(wall) == crossed;
    child := CreateFrom(wall, oracle);
  }

  /** One row of blocks of crossover: the blocks starting at row i, left to right. */
  method CrossRow(wall: array2<bool>, first: Cells, second: Cells, coins: seq<bool>, ghost ti: int, i: int, k0: int)
    returns (k: int)
    requires Shaped(wall) && IsGrid(first) && IsGrid(second) && |coins| >= 42
    requires 0 <= ti < 7 && i == 1 + ti * 3 && k0 == ti * 6
    requires Snapshot(wall) == Partial(Blank(), second, first, Blocks35, coins, k0)
    modifies wall
    ensures k == k0 + 6
    ensures Snapshot(wall) == Partial(Blank(), second, first, Blocks35, coins, k)
  {
    Blocks35Shape();
    var t := Blocks35;
    k := k0;
    var j := 1;
    ghost var tj := 0;
    while j < M - 1
      invariant 0 <= tj <= 6 && j == 1 + tj * 5 && k == k0 + tj
      invariant Snapshot(wall) == Partial(Blank(), second, first, t, coins, k)
    {
      StartOf(t, ti, tj);
      var firstPart := coins[k];
      var fromWall := if firstPart then first else second;
      WriteBlock(wall, fromWall, t, k, i, j);
      PartialStep(Blank(), second, first, t, coins, k);
      k, j, tj := k + 1, j + 5, tj + 1;
    }
  }

  /**
   * Every cell of a crossover child: the border is wall, the entry and the
   * exit are open, and any other interior cell is the cell of `first` when
   * the coin of its 3-by-5 block is true and of `second` otherwise, the
   * block starting at row 1 + 3a and column 1 + 5b.
   */
  lemma CrossoverCells(first: Cells, second: Cells, coins: seq<bool>, oracle: Cells -> int, x: int, y: int)
    requires IsGrid(first) && IsGrid(second) && |coins| >= 42 && InGrid(x, y)
    ensures var c := Scoring(Crossed(Blank(), second, first, Blocks35, coins), oracle).cells;
      Consistent(c) &&
      (Interior(x, y) && !IsFixedCell(x, y) ==>
        var k := BlockIndex(Blocks35, x, y);
        0 <= k < 42 && InBlock(Blocks35, k, x, y) &&
        BlockTop(Blocks35, k) == 1 + 3 * ((x - 1) / 3) && BlockLeft(Blocks35, k) == 1 + 5 * ((y - 1) / 5) &&
        c[x][y] == (if coins[k] then first[x][y] else second[x][y]))
  {
    Blocks35Shape();
    var t := Blocks35;
    BlankConsistent();
    CrossedBorder(Blank(), second, first, t, coins);
    if Interior(x, y) {
      IndexInRange(t, x, y);
      var k := BlockIndex(t, x, y);
      InBlockIff(t, k, x, y);
      var a, b := (x - 1) / 3, (y - 1) / 5;
      RowMajorIff(k, 6, a, b);
    }
  }

  // ---------------------------------------------------------------------
  // mutation.

  /**
   * The draws of one mutation: sizeN = heightDraw + 1, sizeM = widthDraw + 1,
   * startN = topDraw + 1, startM = leftDraw + 1, and the coins of the window
   * cells row by row.
   */
  datatype MutationDraw = MutationDraw(heightDraw: int, widthDraw: int, topDraw: int, leftDraw: int, bits: seq<bool>)

  /** What Random.nextInt(bound) can return for each bound of mutation (every bound is positive). */
  predicate ValidDraw(d: MutationDraw) {
    0 <= d.heightDraw < N / 3 && 0 <= d.widthDraw < M / 3 &&
    0 <= d.topDraw < N - (d.heightDraw + 1) - 1 &&
    0 <= d.leftDraw < M - (d.widthDraw + 1) - 1 &&
    |d.bits| >= (d.heightDraw + 1) * (d.widthDraw + 1)
  }

  /**
   * The window a mutation rewrites. Its height is in [1, n/3], its width in
   * [1, m/3], and it lies inside the border: startN >= 1 and
   * startN + sizeN <= n - 1, likewise for the columns.
   */
  function MutationWindow(d: MutationDraw): (w: Window)
    ensures ValidDraw(d) ==> InsideBorder(w) && 1 <= w.height <= N / 3 && 1 <= w.width <= M / 3
    ensures ValidDraw(d) ==> |d.bits| >= w.height * w.width
  {
    Window(d.topDraw + 1, d.leftDraw + 1, d.heightDraw + 1, d.widthDraw + 1)
  }

  /** The grid a mutation of g produces, before it is scored. */
  function Mutated(g: Cells, d: MutationDraw): (r: Cells)
    requires IsGrid(g) && ValidDraw(d)
    ensures IsGrid(r)
  {
    WriteWindow(g, MutationWindow(d), d.bits)
  }

  /**
   * mutation(field, mutateSelf): write the window's coins into the field's
   * own buffer (mutateSelf) or into a row-by-row clone of it, then score the
   * result. Without mutateSelf the field's buffer is left as it was.
   */
  method Mutation(wall: array2<bool>, mutateSelf: bool, d: MutationDraw, oracle: Cells -> int)
    returns (r: Scored, rWall: array2<bool>)
    requires Shaped(wall) && ValidDraw(d)
    modifies if mutateSelf then {wall} else {}
    ensures mutateSelf ==> rWall == wall
    ensures !mutateSelf ==> fresh(rWall) && Snapshot(wall) == old(Snapshot(wall))
    ensures Shaped(rWall) && Snapshot(rWall) == r.cells
    ensures r == Scoring(Mutated(old(Snapshot(wall)), d), oracle)
  {
    var w := MutationWindow(d);
    if mutateSelf {
      rWall := wall;
    } else {
      rWall := NewWall();
      CopyCells(wall, rWall);
    }
    WriteWindowInPlace(rWall, w, d.bits);
    r := CreateFrom(rWall, oracle);
  }

  /**
   * Nothing outside the window changes but the entry and the exit, which
   * end up open; so a field whose entry and exit are open keeps every cell
   * outside the window, and a walled border stays walled.
   */
  lemma MutationOutsideWindow(g: Cells, d: MutationDraw, oracle: Cells -> int)
    requires IsGrid(g) && ValidDraw(d)
    ensures var c := Scoring(Mutated(g, d), oracle).cells;
      (forall i, j :: InGrid(i, j) && !InWindow(MutationWindow(d), i, j) && !IsFixedCell(i, j) ==> c[i][j] == g[i][j]) &&
      (FixedOpen(g) ==> forall i, j :: InGrid(i, j) && !InWindow(MutationWindow(d), i, j) ==> c[i][j] == g[i][j]) &&
      (BorderWalled(g) ==> Consistent(c))
  {
    var w := MutationWindow(d);
    if BorderWalled(g) {
      WriteWindowKeepsBorder(g, w, d.bits);
    }
  }

  /** Inside the window, cell (startN + x, startM + y) takes coin x * sizeM + y. */
  lemma MutationInsideWindow(g: Cells, d: MutationDraw, oracle: Cells -> int, x: int, y: int)
    requires IsGrid(g) && ValidDraw(d)
    requires 0 <= x <= d.heightDraw && 0 <= y <= d.widthDraw
    ensures var w := MutationWindow(d); var c := Scoring(Mutated(g, d), oracle).cells;
      !IsFixedCell(w.top + x, w.left + y) ==> c[w.top + x][w.left + y] == d.bits[x * w.width + y]
  {
  }
}
