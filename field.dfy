/**
 * BugField objects and their pool: a field owns (or shares) a wall grid, a
 * row-mask cache and a cached step count; the pool is the free-list queue
 * `freeFields` that getInstance polls and delete appends to.
 *
 * The step oracle BugAcmp.BugStepsCalculator is not part of this model: it
 * is the parameter `oracle`, an arbitrary function of the grid.
 */
module Field {
  import opened Wrappers
  import opened Bits
  import opened Grid

  class Field {
    var wall: array2?<bool>
    var masks: array?<int>
    var steps: int
    var printFileName: Option<string>

    /** The field holds an n-by-m grid. */
    predicate HasGrid()
      reads this
    {
      wall != null && Shaped(wall)
    }

    /** masks holds the row masks of the current grid. */
    predicate MasksCurrent()
      reads this, wall, masks
    {
      HasGrid() && masks != null && masks.Length == N &&
      forall i :: 0 <= i < N ==> masks[i] == MaskOf(Snapshot(wall)[i])
    }

    /** BugField(wall): constructor() and then alias the given array. */
    constructor (w: array2<bool>)
      ensures wall == w && masks == null
      ensures steps == Unknown && printFileName == None
    {
      wall := w;
      masks := null;
      steps := Unknown;
      printFileName := None;
    }

    /** The private constructor(): forget the step count and the file name. */
    method Reset()
      modifies this
      ensures wall == old(wall) && masks == old(masks)
      ensures steps == Unknown && printFileName == None
    {
      steps := Unknown;
      printFileName := None;
    }

    /** Open the entry and the exit, in place. */
    method MakeSoftConsistent()
      requires HasGrid()
      modifies wall
      ensures Snapshot(wall) == SoftConsistent(old(Snapshot(wall)))
    {
      ghost var g := Snapshot(wall);
      wall[1, 1] := false;
      wall[N - 2, M - 2] := false;
      SnapshotEq(wall, SoftConsistent(g));
    }

    method IsConsistent() returns (b: bool)
      requires HasGrid()
      ensures b == Consistent(Snapshot(wall))
    {
      ghost var g := Snapshot(wall);
      for i := 0 to N
        invariant forall x :: 0 <= x < i ==> g[x][0] && g[x][M - 1]
      {
        assert g[i][0] == wall[i, 0] && g[i][M - 1] == wall[i, M - 1];
        if !wall[i, 0] || !wall[i, M - 1] {
          assert OnBorder(i, 0) && OnBorder(i, M - 1);
          return false;
        }
      }
      for j := 0 to M
        invariant forall y :: 0 <= y < j ==> g[0][y] && g[N - 1][y]
      {
        assert g[0][j] == wall[0, j] && g[N - 1][j] == wall[N - 1, j];
        if !wall[0, j] || !wall[N - 1, j] {
          assert OnBorder(0, j) && OnBorder(N - 1, j);
          return false;
        }
      }
      forall x, y | 0 <= x < N && 0 <= y < M && OnBorder(x, y)
        ensures g[x][y]
      {
        if x == 0 || x == N - 1 {
          assert g[0][y] && g[N - 1][y];
        } else {
          assert g[x][0] && g[x][M - 1];
        }
      }
      b := !wall[1, 1] && !wall[N - 2, M - 2];
    }

    /**
     * makeSoftConsistent, then ask the oracle: the oracle always sees the
     * entry and the exit open, and sees a consistent grid whenever the
     * border was walled.
     */
    method RecalculateSteps(oracle: Cells -> int)
      requires HasGrid()
      modifies this, wall
      ensures wall == old(wall) && masks == old(masks) && printFileName == old(printFileName)
      ensures Snapshot(wall) == SoftConsistent(old(Snapshot(wall)))
      ensures steps == oracle(Snapshot(wall))
      ensures BorderWalled(old(Snapshot(wall))) ==> Consistent(Snapshot(wall))
    {
      ghost var g := Snapshot(wall);
      MakeSoftConsistent();
      steps := oracle(Snapshot(wall));
      ConsistentAfterSoft(g);
    }

    /** Fill masks (allocating it on first use) with the row masks of the grid. */
    method InitMasks()
      requires HasGrid()
      requires masks == null || masks.Length == N
      modifies this, masks
      ensures wall == old(wall) && steps == old(steps) && printFileName == old(printFileName)
      ensures old(masks) == null ==> fresh(masks)
      ensures old(masks) != null ==> masks == old(masks)
      ensures MasksCurrent()
    {
      if masks == null {
        masks := new int[N];
      }
      var ms: array<int> := masks;
      ghost var g := Snapshot(wall);
      for i := 0 to N
        modifies ms
        invariant forall x :: 0 <= x < i ==> ms[x] == MaskOf(g[x])
      {
        ms[i] := 0;
        for j := 0 to M
          modifies ms
          invariant forall x :: 0 <= x < i ==> ms[x] == MaskOf(g[x])
          invariant ms[i] == MaskOf(g[i][..j])
        {
          ghost var before := g[i][..j];
          assert g[i][..j + 1] == before + [g[i][j]];
          MaskOfSnoc(before, g[i][j]);
          if wall[i, j] {
            MaskOfBound(before);
            OrAddsHighBit(ms[i], j);
          }
          // 1 << j, exact for j < 31
          ms[i] := Or(ms[i], if wall[i, j] then Pow2(j) else 0);
        }
        assert g[i][..M] == g[i];
      }
    }

    /** Row-by-row comparison of the mask caches; with current caches, comparison of the grids. */
    method EqualsByMasks(other: Field) returns (b: bool)
      requires masks != null && masks.Length == N
      requires other.masks != null && other.masks.Length == N
      ensures b <==> masks[..] == other.masks[..]
      ensures MasksCurrent() && other.MasksCurrent() ==> (b <==> Snapshot(wall) == Snapshot(other.wall))
    {
      b := true;
      var i := 0;
      while i < N
        invariant 0 <= i <= N
        invariant masks[..i] == other.masks[..i]
      {
        if masks[i] != other.masks[i] {
          assert masks[..][i] != other.masks[..][i];
          b := false;
          break;
        }
        assert masks[..i + 1] == masks[..i] + [masks[i]];
        assert other.masks[..i + 1] == other.masks[..i] + [other.masks[i]];
        i := i + 1;
      }
      if b {
        assert masks[..] == masks[..N] && other.masks[..] == other.masks[..N];
      }
      if MasksCurrent() && other.MasksCurrent() {
        var g, h := Snapshot(wall), Snapshot(other.wall);
        MasksEqualIffCellsEqual(g, h);
        assert masks[..] == other.masks[..] <==> Masks(g) == Masks(h) by {
          if masks[..] == other.masks[..] {
            forall x | 0 <= x < N
              ensures Masks(g)[x] == Masks(h)[x]
            {
              assert masks[..][x] == other.masks[..][x];
            }
          }
          if Masks(g) == Masks(h) {
            forall x | 0 <= x < N
              ensures masks[..][x] == other.masks[..][x]
            {
              assert Masks(g)[x] == Masks(h)[x];
            }
          }
        }
      }
    }

    /** compareTo: larger step counts sort first. */
    function CompareTo(other: Field): int
      reads this, other
    {
      CompareSteps(steps, other.steps)
    }

    /** toString. */
    function Text(): string
      reads this, wall
      requires HasGrid()
    {
      FieldText(Snapshot(wall), steps)
    }

    /**
     * The byte stream printToZip writes, column by column, and the file
     * name it records; the file system itself is not modelled.
     */
    method PrintToZip(name: string) returns (bytes: seq<int>)
      requires HasGrid()
      modifies this
      ensures wall == old(wall) && masks == old(masks) && steps == old(steps)
      ensures printFileName == Some(name + ".zip")
      ensures bytes == Encode(Snapshot(wall))
    {
      printFileName := Some(name + ".zip");
      bytes := ColumnBytes(wall);
    }
  }

  /** The double loop of printToZip: one byte per cell, column by column. */
  method ColumnBytes(a: array2<bool>) returns (bytes: seq<int>)
    requires Shaped(a)
    ensures bytes == Encode(Snapshot(a))
  {
    ghost var e := Encode(Snapshot(a));
    bytes := [];
    for j := 0 to M
      invariant |bytes| == j * N
      invariant forall k :: 0 <= k < |bytes| ==> bytes[k] == e[k]
    {
      for i := 0 to N
        invariant |bytes| == j * N + i
        invariant forall k :: 0 <= k < |bytes| ==> bytes[k] == e[k]
      {
        ColumnMajorIndex(i, j);
        bytes := bytes + [if a[i, j] then WallByte else EmptyByte];
      }
    }
  }

  /** The free-list `freeFields`, oldest first. */
  class FieldPool {
    var free: seq<Field>

    /** Every pooled field either has no grid or an n-by-m one. */
    predicate Valid()
      reads this, free
    {
      forall f :: f in free ==> f.wall == null || Shaped(f.wall)
    }

    /** What getInstance may change: the field at the head of the queue and its grid. */
    function HeadFrame(): set<object>
      reads this, free
    {
      if free == [] then {}
      else if free[0].wall == null then {free[0]}
      else {free[0], free[0].wall}
    }

    /** The queue after getInstance has polled it. */
    function Polled(): seq<Field>
      reads this
    {
      if free == [] then [] else free[1..]
    }

    constructor ()
      ensures free == [] && Valid()
    {
      free := [];
    }

    /**
     * getInstance: with an empty queue a new field sharing `w`; otherwise
     * the oldest pooled field, reset, which shares `w` if it had no grid and
     * otherwise receives a row-by-row copy of `w` in its own grid.
     */
    method GetInstance(w: array2<bool>) returns (f: Field)
      requires Valid() && Shaped(w)
      modifies this, HeadFrame()
      ensures Valid() && free == old(Polled())
      ensures f.HasGrid() && f.steps == Unknown && f.printFileName == None
      ensures old(free) == [] ==> fresh(f) && f.wall == w && f.masks == null
      ensures old(free) != [] ==> f == old(free[0]) && f.masks == old(free[0].masks)
      ensures old(free) != [] && old(free[0].wall) == null ==> f.wall == w
      ensures old(free) != [] && old(free[0].wall) != null ==> f.wall == old(free[0].wall)
      ensures Snapshot(f.wall) == old(Snapshot(w))
    {
      if free == [] {
        f := new Field(w);
      } else {
        f := free[0];
        free := free[1..];
        f.Reset();
        if f.wall == null {
          f.wall := w;
        } else {
          CopyCells(w, f.wall);
        }
      }
    }

    /** delete: append the field to the queue. */
    method Delete(f: Field)
      requires Valid() && (f.wall == null || Shaped(f.wall))
      modifies this
      ensures Valid() && free == old(free) + [f]
      ensures f.wall == old(f.wall) && f.masks == old(f.masks) && f.steps == old(f.steps)
      ensures f.printFileName == old(f.printFileName)
      ensures f.wall != null ==> Snapshot(f.wall) == old(Snapshot(f.wall))
    {
      free := free + [f];
    }

    /** create(wall): getInstance, then recalculateSteps on the field's grid. */
    method Create(w: array2<bool>, oracle: Cells -> int) returns (f: Field)
      requires Valid() && Shaped(w)
      modifies this, HeadFrame(), w
      ensures Valid() && free == old(Polled())
      ensures f.HasGrid() && f.printFileName == None
      ensures old(free) == [] ==> fresh(f) && f.wall == w && f.masks == null
      ensures old(free) != [] ==> f == old(free[0]) && f.masks == old(free[0].masks)
      ensures f.wall == w || (old(free) != [] && f.wall == old(free[0].wall))
      ensures f.wall != w ==> Snapshot(w) == old(Snapshot(w))
      ensures Snapshot(f.wall) == SoftConsistent(old(Snapshot(w)))
      ensures f.steps == oracle(Snapshot(f.wall))
      ensures BorderWalled(old(Snapshot(w))) ==> Consistent(Snapshot(f.wall))
    {
      f := GetInstance(w);
      label Got:
      f.RecalculateSteps(oracle);
      assert forall g :: g in free ==> g.wall == old@Got(g.wall);
    }

    /** create(): the bordered blank grid, scored by the oracle. */
    method CreateBlank(oracle: Cells -> int) returns (f: Field)
      requires Valid()
      modifies this, HeadFrame()
      ensures Valid() && free == old(Polled())
      ensures f.HasGrid() && Snapshot(f.wall) == Blank()
      ensures f.steps == oracle(Blank())
      ensures Consistent(Snapshot(f.wall))
    {
      var w := NewWall();
      for j := 0 to M
        modifies w
        invariant forall x, y :: InGrid(x, y) ==> w[x, y] == ((x == 0 || x == N - 1) && y < j)
      {
        w[0, j] := true;
        w[N - 1, j] := true;
      }
      for i := 0 to N
        modifies w
        invariant forall x, y :: InGrid(x, y) ==> w[x, y] == (x == 0 || x == N - 1 || ((y == 0 || y == M - 1) && x < i))
      {
        w[i, 0] := true;
        w[i, M - 1] := true;
      }
      SnapshotEq(w, Blank());
      BlankConsistent();
      SoftConsistentKeepsFixedOpen(Blank());
      f := Create(w, oracle);
    }

    /**
     * create(other): getInstance on other's grid, then take other's step
     * count without asking the oracle. With an empty queue the new field
     * shares other's grid array rather than copying it; when other is
     * itself the polled field, its step count has just been reset.
     */
    method CreateCopy(other: Field) returns (f: Field)
      requires Valid() && other.HasGrid()
      modifies this, HeadFrame()
      ensures Valid() && free == old(Polled())
      ensures f.HasGrid() && f.printFileName == None
      ensures Snapshot(f.wall) == old(Snapshot(other.wall))
      ensures f.steps == (if old(free) != [] && old(free[0]) == other then Unknown else old(other.steps))
      ensures old(free) == [] ==> fresh(f) && f.wall == other.wall
      ensures old(free) != [] ==> f == old(free[0])
      ensures old(free) != [] && old(free[0].wall) != null ==> f.wall == old(free[0].wall)
    {
      f := GetInstance(other.wall);
      f.steps := other.steps;
    }

    /**
     * create(other) as its callers rely on it: the new field gets a grid of
     * its own (a fresh copy, or a copy in the pooled field's buffer), never
     * other's array unless that array was already pooled.
     */
    method CreateCopyOwned(other: Field) returns (f: Field)
      requires Valid() && other.HasGrid()
      modifies this, HeadFrame()
      ensures Valid() && free == old(Polled())
      ensures f.HasGrid() && f.printFileName == None
      ensures Snapshot(f.wall) == old(Snapshot(other.wall))
      ensures f.steps == (if old(free) != [] && old(free[0]) == other then Unknown else old(other.steps))
      ensures f.wall == other.wall ==> old(free) != [] && old(free[0].wall) == other.wall
      ensures old(free) == [] ==> fresh(f)
      ensures old(free) == [] || old(free[0].wall) == null ==> fresh(f.wall)
    {
      var w := NewWallOf(Snapshot(other.wall));
      f := GetInstance(w);
      f.steps := other.steps;
    }

    /** readFromZip on the bytes of the file: decode column by column, then create(wall). */
    method ReadFromZip(bytes: seq<int>, oracle: Cells -> int) returns (f: Field)
      requires Valid()
      modifies this, HeadFrame()
      ensures Valid() && free == old(Polled())
      ensures f.HasGrid() && Snapshot(f.wall) == SoftConsistent(Decode(bytes))
      ensures f.steps == oracle(Snapshot(f.wall))
    {
      var w := NewWall();
      var d := Decode(bytes);
      for j := 0 to M
        modifies w
        invariant forall x, y :: InGrid(x, y) ==> w[x, y] == (y < j && d[x][y])
      {
        for i := 0 to N
          modifies w
          invariant forall x, y :: InGrid(x, y) ==> w[x, y] == ((y < j || (y == j && x < i)) && d[x][y])
        {
          var cell := ReadByte(bytes, j * N + i);
          w[i, j] := cell == WallByte;
        }
      }
      SnapshotEq(w, d);
      f := Create(w, oracle);
    }
  }

  /**
   * The pool traffic of hardMutations on its first improvement, when the
   * queue is empty on entry: totalBestField = create(baseField), then
   * delete(totalBestField) and totalBestField = create(mutantField). The
   * first create shares the base grid, so the second one copies the
   * mutant's grid into the base field's own array.
   */
  method BestReplacedAsWritten(pool: FieldPool, base: Field, mutant: Field) returns (best: Field)
    requires pool.Valid() && pool.free == []
    requires base.HasGrid() && mutant.HasGrid() && base.wall != mutant.wall
    requires Snapshot(base.wall) != Snapshot(mutant.wall)
    modifies pool, base.wall
    ensures best.HasGrid() && Snapshot(best.wall) == old(Snapshot(mutant.wall))
    ensures Snapshot(base.wall) == old(Snapshot(mutant.wall))
    ensures Snapshot(base.wall) != old(Snapshot(base.wall))
  {
    var first := pool.CreateCopy(base);
    pool.Delete(first);
    assert pool.free == [first] && first.wall == base.wall;
    best := pool.CreateCopy(mutant);
    assert best == first;
  }

  /** The same traffic with create(other) copying: the base grid is left alone. */
  method BestReplacedOwned(pool: FieldPool, base: Field, mutant: Field) returns (best: Field)
    requires pool.Valid() && pool.free == []
    requires base.HasGrid() && mutant.HasGrid()
    modifies pool
    ensures best.HasGrid() && Snapshot(best.wall) == old(Snapshot(mutant.wall))
    ensures Snapshot(base.wall) == old(Snapshot(base.wall))
  {
    best := pool.CreateCopyOwned(base);
    pool.Delete(best);
    best := pool.CreateCopyOwned(mutant);
  }

  /**
   * The pool traffic of hardMutations with populationSize 1 when a mutant
   * beats the base and the queue is empty at that moment (as it is on the
   * first improvement when at most one field was pooled on entry): the heap
   * evicts the base field and deletes it, totalBestField is deleted, and
   * totalBestField = create(mutantField) polls the base field and copies
   * the mutant's grid into its array, which is the baseWall the search
   * goes on reading.
   */
  method EvictedBaseAsWritten(pool: FieldPool, base: Field, totalBest: Field, mutant: Field) returns (best: Field)
    requires pool.Valid() && pool.free == []
    requires base.HasGrid() && mutant.HasGrid() && base.wall != mutant.wall
    requires totalBest.wall == null || Shaped(totalBest.wall)
    requires Snapshot(base.wall) != Snapshot(mutant.wall)
    modifies pool, base, base.wall
    ensures best == base && base.wall == old(base.wall)
    ensures Snapshot(base.wall) == old(Snapshot(mutant.wall))
    ensures Snapshot(base.wall) != old(Snapshot(base.wall))
  {
    pool.Delete(base);
    pool.Delete(totalBest);
    assert pool.free[0] == base;
    best := pool.CreateCopy(mutant);
  }

  /**
   * The same traffic when the search reads a base grid of its own, copied
   * before the search starts: the eviction leaves that grid untouched.
   */
  method EvictedBasePrivate(pool: FieldPool, base: Field, totalBest: Field, mutant: Field)
    returns (best: Field, baseWall: array2<bool>)
    requires pool.Valid() && pool.free == []
    requires base.HasGrid() && mutant.HasGrid()
    requires totalBest.wall == null || Shaped(totalBest.wall)
    modifies pool, base, base.wall
    ensures fresh(baseWall) && Snapshot(baseWall) == old(Snapshot(base.wall))
    ensures best.HasGrid() && Snapshot(best.wall) == old(Snapshot(mutant.wall))
  {
    baseWall := NewWallOf(Snapshot(base.wall));
    pool.Delete(base);
    pool.Delete(totalBest);
    best := pool.CreateCopy(mutant);
  }
}
