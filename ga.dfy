/**
 * BugFieldGeneticAlgorithm's state and its two array-rewriting steps. The
 * work array `fields` holds the population in slots 0..P-1 and the children
 * after them: one mutant per parent and one crossover child per pair of
 * parents, P + P(P+1)/2 slots in all. An empty slot (null) is None; a field
 * is held as its grid and step count.
 */
module Genetic {
  import opened Wrappers
  import opened Grid
  import opened Blocks
  import opened GeneticOperators
  import opened Survivors

  // ---------------------------------------------------------------------
  // The slot layout of childGenerating.

  /** populationSize + (populationSize + 1) * populationSize / 2. */
  function SlotCount(populationSize: nat): (c: nat)
    ensures c >= populationSize
  {
    populationSize + (populationSize + 1) * populationSize / 2
  }

  /** The slot of parent i's mutant; its crossover children follow it. */
  function RowStart(populationSize: nat, i: nat): int
  {
    if i == 0 then populationSize else RowStart(populationSize, i - 1) + (populationSize - (i - 1))
  }

  /** The slot childGenerating fills for the pair i <= j (i == j: the mutant of parent i). */
  function SlotOf(populationSize: nat, i: nat, j: nat): (k: int)
    requires i <= j < populationSize
    ensures populationSize <= k < SlotCount(populationSize)
  {
    SlotBounds(populationSize, i);
    RowStart(populationSize, i) + (j - i)
  }

  lemma SlotBounds(populationSize: nat, i: nat)
    requires i < populationSize
    ensures populationSize <= RowStart(populationSize, i)
    ensures RowStart(populationSize, i + 1) <= SlotCount(populationSize)
  {
    RowStartMonotone(populationSize, 0, i);
    RowStartMonotone(populationSize, i + 1, populationSize);
    RowStartEnd(populationSize);
  }

  lemma {:induction false} RowStartClosed(populationSize: nat, i: nat)
    ensures 2 * RowStart(populationSize, i) == 2 * populationSize + 2 * i * populationSize - i * (i - 1)
  {
    if i > 0 {
      RowStartClosed(populationSize, i - 1);
      assert 2 * (i - 1) * populationSize == 2 * i * populationSize - 2 * populationSize;
      assert (i - 1) * (i - 2) == i * (i - 1) - 2 * (i - 1);
    }
  }

  /** The rows of pairs end exactly at the end of the work array. */
  lemma RowStartEnd(populationSize: nat)
    ensures RowStart(populationSize, populationSize) == SlotCount(populationSize)
  {
    var p := populationSize;
    RowStartClosed(p, p);
    assert (p + 1) * p == 2 * (RowStart(p, p) - p);
  }

  lemma {:induction false} RowStartMonotone(populationSize: nat, i: nat, i2: nat)
    requires i <= i2 <= populationSize
    ensures RowStart(populationSize, i) + (i2 - i) <= RowStart(populationSize, i2)
    decreases i2
  {
    if i < i2 {
      RowStartMonotone(populationSize, i, i2 - 1);
    }
  }

  /**
   * Every pair i <= j < P has its own slot in P..length-1: pairs in
   * row-major order get increasing slots.
   */
  lemma SlotOfOrder(populationSize: nat, i: nat, j: nat, i2: nat, j2: nat)
    requires i <= j < populationSize && i2 <= j2 < populationSize
    requires i < i2 || (i == i2 && j < j2)
    ensures SlotOf(populationSize, i, j) < SlotOf(populationSize, i2, j2)
  {
    if i < i2 {
      RowStartMonotone(populationSize, i + 1, i2);
    }
  }

  /** Every child slot belongs to some pair. */
  lemma SlotOfOnto(populationSize: nat, k: int) returns (i: nat, j: nat)
    requires populationSize <= k < SlotCount(populationSize)
    ensures i <= j < populationSize && SlotOf(populationSize, i, j) == k
  {
    RowStartEnd(populationSize);
    i, j := FindRow(populationSize, 0, k);
  }

  lemma {:induction false} FindRow(populationSize: nat, row: nat, k: int) returns (i: nat, j: nat)
    requires row <= populationSize && RowStart(populationSize, row) <= k < RowStart(populationSize, populationSize)
    ensures i <= j < populationSize && SlotOf(populationSize, i, j) == k
    decreases populationSize - row
  {
    if row == populationSize {
      assert false;
    } else if k < RowStart(populationSize, row + 1) {
      i, j := row, row + (k - RowStart(populationSize, row));
    } else {
      i, j := FindRow(populationSize, row + 1, k);
    }
  }

  // ---------------------------------------------------------------------
  // The children.

  /** The draws of one child slot: the crossover coins (unused for a mutant) and the mutation draws. */
  datatype ChildDraw = ChildDraw(coins: seq<bool>, mutation: MutationDraw)

  predicate ValidChildDraw(d: ChildDraw) {
    |d.coins| >= 42 && ValidDraw(d.mutation)
  }

  /**
   * The child of pair (i, j): for i == j mutation(parent i, false); for
   * i < j mutation(crossover(parent i, parent j), true).
   */
  function Child(parents: seq<Scored>, i: int, j: int, d: ChildDraw, oracle: Cells -> int): Scored
    requires 0 <= i <= j < |parents| && IsGrid(parents[i].cells) && IsGrid(parents[j].cells) && ValidChildDraw(d)
  {
    if i == j then Scoring(Mutated(parents[i].cells, d.mutation), oracle)
    else
      var crossed := Scoring(Crossed(Blank(), parents[j].cells, parents[i].cells, Blocks35, d.coins), oracle);
      Scoring(Mutated(crossed.cells, d.mutation), oracle)
  }

  /**
   * Every crossover child is consistent, and so is every mutant of a parent
   * with a walled border: the border invariant passes from one generation
   * to the next.
   */
  lemma ChildConsistent(parents: seq<Scored>, i: int, j: int, d: ChildDraw, oracle: Cells -> int)
    requires 0 <= i <= j < |parents| && IsGrid(parents[i].cells) && IsGrid(parents[j].cells) && ValidChildDraw(d)
    requires i == j ==> BorderWalled(parents[i].cells)
    ensures var c := Child(parents, i, j, d, oracle); Consistent(c.cells) && c.steps == oracle(c.cells)
  {
    if i == j {
      MutationOutsideWindow(parents[i].cells, d.mutation, oracle);
    } else {
      var crossed := Scoring(Crossed(Blank(), parents[j].cells, parents[i].cells, Blocks35, d.coins), oracle);
      CrossoverCells(parents[i].cells, parents[j].cells, d.coins, oracle, 0, 0);
      MutationOutsideWindow(crossed.cells, d.mutation, oracle);
    }
  }

  /** The fields of slots 0..n-1, all present. */
  function Population(fs: seq<Option<Scored>>, n: nat): (p: seq<Scored>)
    requires n <= |fs| && forall k :: 0 <= k < n ==> fs[k].Some?
    ensures |p| == n && forall k :: 0 <= k < n ==> fs[k] == Some(p[k])
  {
    seq(n, k requires 0 <= k < n => fs[k].value)
  }

  predicate Gridded(fs: seq<Option<Scored>>, n: nat)
    requires n <= |fs|
  {
    forall k :: 0 <= k < n ==> fs[k].Some? && IsGrid(fs[k].value.cells)
  }

  /**
   * Slot SlotOf(P, i, j) of s holds the child of the pair (i, j) drawn with
   * that slot's draws (P, the number of parents).
   */
  ghost predicate Placed(s: seq<Option<Scored>>, parents: seq<Scored>, i: int, j: int, draws: seq<ChildDraw>, oracle: Cells -> int)
  {
    var p := |parents|;
    0 <= i <= j < p && IsGrid(parents[i].cells) && IsGrid(parents[j].cells) &&
    var k := SlotOf(p, i, j);
    k < |s| && k - p < |draws| && ValidChildDraw(draws[k - p]) &&
    s[k] == Some(Child(parents, i, j, draws[k - p], oracle))
  }

  /** Every pair (i, j) with i < rows has its child in place. */
  ghost predicate ChildrenPlaced(s: seq<Option<Scored>>, parents: seq<Scored>, rows: int, draws: seq<ChildDraw>, oracle: Cells -> int)
  {
    forall i, j :: 0 <= i < rows && i <= j < |parents| ==> Placed(s, parents, i, j, draws, oracle)
  }

  /** Writing the child of (i, i + n) keeps the children of (i, i)..(i, i + n - 1) in place. */
  lemma RowStep(s: seq<Option<Scored>>, s': seq<Option<Scored>>, parents: seq<Scored>, i: int, n: nat,
                draws: seq<ChildDraw>, oracle: Cells -> int)
    requires forall j :: i <= j < i + n ==> Placed(s, parents, i, j, draws, oracle)
    requires 0 <= i && i + n < |parents| && IsGrid(parents[i].cells) && IsGrid(parents[i + n].cells)
    requires var k := SlotOf(|parents|, i, i + n); k < |s| && k - |parents| < |draws| && ValidChildDraw(draws[k - |parents|])
    requires var k := SlotOf(|parents|, i, i + n);
      s' == s[k := Some(Child(parents, i, i + n, draws[k - |parents|], oracle))]
    ensures forall j :: i <= j < i + n + 1 ==> Placed(s', parents, i, j, draws, oracle)
  {
    forall j | i <= j < i + n + 1
      ensures Placed(s', parents, i, j, draws, oracle)
    {
      if j < i + n {
        assert Placed(s, parents, i, j, draws, oracle);
        assert SlotOf(|parents|, i, j) < SlotOf(|parents|, i, i + n);
      }
    }
  }

  /**
   * The pick loop after i positions: bestSelected holds the leaders found
   * so far, followed by the earlier round's entries.
   */
  predicate PicksSoFar(sorted: seq<Scored>, stale: seq<int>, b: seq<int>, i: int, count: int, len: int) {
    |b| == |stale| && 0 <= i <= |sorted| == len && 0 <= count <= |b| && InRange(b, len) &&
    b[..count] == Leaders(sorted, i) && b[count..] == stale[count..]
  }

  /** A leading position is recorded next. */
  lemma PickNext(sorted: seq<Scored>, stale: seq<int>, b: seq<int>, i: int, count: int, len: int)
    requires PicksSoFar(sorted, stale, b, i, count, len) && i < len && count < |b|
    requires i == 0 || sorted[i].steps != sorted[i - 1].steps
    ensures PicksSoFar(sorted, stale, b[count := i], i + 1, count + 1, len)
  {
    var b' := b[count := i];
    assert IsLeader(sorted, i);
    assert b'[..count + 1] == b[..count] + [i];
    assert b'[count + 1..] == b[count + 1..];
  }

  /** A position that repeats the step count before it is skipped. */
  lemma SkipNext(sorted: seq<Scored>, stale: seq<int>, b: seq<int>, i: int, count: int, len: int)
    requires PicksSoFar(sorted, stale, b, i, count, len) && i < len
    requires i > 0 && sorted[i].steps == sorted[i - 1].steps
    ensures PicksSoFar(sorted, stale, b, i + 1, count, len)
  {
    assert !IsLeader(sorted, i);
  }

  /** When the loop stops, bestSelected and selectedCount are what selection picks. */
  lemma PicksDone(sorted: seq<Scored>, stale: seq<int>, b: seq<int>, i: int, count: int, len: int)
    requires PicksSoFar(sorted, stale, b, i, count, len) && !(i < len && count < |b|)
    ensures count == PickedCount(sorted, |b|) && b == Picked(sorted, stale, |b|)
  {
    LeadersPrefix(sorted, i, |sorted|);
    assert b == b[..count] + b[count..];
  }

  /** Storing the child of (i, j) in its slot, and nothing else, extends row i to j. */
  lemma ChildStored(s: seq<Option<Scored>>, s': seq<Option<Scored>>, parents: seq<Scored>, i: int, j: int,
                    draws: seq<ChildDraw>, oracle: Cells -> int)
    requires 0 <= i <= j < |parents| && IsGrid(parents[i].cells) && IsGrid(parents[j].cells)
    requires forall j' :: i <= j' < j ==> Placed(s, parents, i, j', draws, oracle)
    requires var k := SlotOf(|parents|, i, j); k < |s| == |s'| && k - |parents| < |draws| && ValidChildDraw(draws[k - |parents|])
    requires var k := SlotOf(|parents|, i, j);
      s'[k] == Some(Child(parents, i, j, draws[k - |parents|], oracle)) &&
      forall t :: 0 <= t < |s| && t != k ==> s'[t] == s[t]
    ensures forall j' :: i <= j' <= j ==> Placed(s', parents, i, j', draws, oracle)
  {
    var k := SlotOf(|parents|, i, j);
    assert s' == s[k := Some(Child(parents, i, j, draws[k - |parents|], oracle))];
    RowStep(s, s', parents, i, j - i, draws, oracle);
  }

  /** A finished row i, written past every slot of the rows before it, extends the placed rows. */
  lemma RowsStep(s: seq<Option<Scored>>, s': seq<Option<Scored>>, parents: seq<Scored>, i: int, draws: seq<ChildDraw>, oracle: Cells -> int)
    requires 0 <= i < |parents| && |s'| == |s|
    requires ChildrenPlaced(s, parents, i, draws, oracle)
    requires forall j :: i <= j < |parents| ==> Placed(s', parents, i, j, draws, oracle)
    requires forall t :: 0 <= t < RowStart(|parents|, i) && t < |s| ==> s'[t] == s[t]
    ensures ChildrenPlaced(s', parents, i + 1, draws, oracle)
  {
    forall i', j' | 0 <= i' < i && i' <= j' < |parents|
      ensures Placed(s', parents, i', j', draws, oracle)
    {
      RowStartMonotone(|parents|, i' + 1, i);
      assert Placed(s, parents, i', j', draws, oracle);
    }
  }

  /**
   * Once every row is placed, every child slot P..length-1 holds a field:
   * with SlotOfOrder, childGenerating writes each of them exactly once.
   */
  lemma ChildrenFillAll(s: seq<Option<Scored>>, parents: seq<Scored>, draws: seq<ChildDraw>, oracle: Cells -> int)
    requires ChildrenPlaced(s, parents, |parents|, draws, oracle)
    ensures SlotCount(|parents|) <= |s|
    ensures forall k :: |parents| <= k < SlotCount(|parents|) ==> s[k].Some?
  {
    if |parents| > 0 {
      ChildFills(s, parents, draws, oracle, SlotCount(|parents|) - 1);
    }
    forall k | |parents| <= k < SlotCount(|parents|)
      ensures s[k].Some?
    {
      ChildFills(s, parents, draws, oracle, k);
    }
  }

  /** Slot k is the slot of some pair, whose child is placed there. */
  lemma ChildFills(s: seq<Option<Scored>>, parents: seq<Scored>, draws: seq<ChildDraw>, oracle: Cells -> int, k: int)
    requires ChildrenPlaced(s, parents, |parents|, draws, oracle)
    requires |parents| <= k < SlotCount(|parents|)
    ensures k < |s| && s[k].Some?
  {
    var i, j := SlotOfOnto(|parents|, k);
    assert Placed(s, parents, i, j, draws, oracle);
  }

  class GeneticAlgorithm {
    const populationSize: nat
    const bestSelected: array<int>
    const fields: array<Option<Scored>>

    predicate Valid()
      reads this, bestSelected
    {
      bestSelected.Length == populationSize && fields.Length == SlotCount(populationSize) &&
      InRange(bestSelected[..], fields.Length)
    }

    constructor (populationSize: nat)
      ensures Valid() && this.populationSize == populationSize
      ensures bestSelected[..] == seq(populationSize, k => 0)
      ensures fields[..] == seq(SlotCount(populationSize), k => None)
    {
      this.populationSize := populationSize;
      bestSelected := new int[populationSize](k => 0);
      fields := new Option<Scored>[SlotCount(populationSize)](k => None);
    }

    /**
     * childGenerating: for every parent i, its mutant and then, for every
     * later parent j, the mutated crossover of i and j, in consecutive slots
     * from P on. The population slots are only read.
     */
    method ChildGenerating(draws: seq<ChildDraw>, oracle: Cells -> int)
      requires Valid() && |draws| == fields.Length - populationSize
      requires Gridded(fields[..], populationSize)
      requires forall k :: 0 <= k < |draws| ==> ValidChildDraw(draws[k])
      modifies fields
      ensures fields[..populationSize] == old(fields[..populationSize])
      ensures ChildrenPlaced(fields[..], Population(old(fields[..]), populationSize), populationSize, draws, oracle)
    {
      ghost var parents := Population(fields[..], populationSize);
      var index := populationSize;
      var i := 0;
      while i < populationSize
        invariant 0 <= i <= populationSize && index == RowStart(populationSize, i)
        invariant fields[..populationSize] == old(fields[..populationSize])
        invariant ChildrenPlaced(fields[..], parents, i, draws, oracle)
      {
        SlotBounds(populationSize, i);
        ghost var before := fields[..];
        index := ChildRow(parents, i, index, draws, oracle);
        RowsStep(before, fields[..], parents, i, draws, oracle);
        i := i + 1;
      }
    }

    /** The slots of parent i: its mutant, then its crossovers with parents i+1..P-1. */
    method ChildRow(ghost parents: seq<Scored>, i: nat, index0: int, draws: seq<ChildDraw>, oracle: Cells -> int)
      returns (index: int)
      requires Valid() && |draws| == fields.Length - populationSize
      requires |parents| == populationSize && i < populationSize
      requires forall k :: 0 <= k < populationSize ==> fields[k] == Some(parents[k]) && IsGrid(parents[k].cells)
      requires forall k :: 0 <= k < |draws| ==> ValidChildDraw(draws[k])
      requires index0 == RowStart(populationSize, i) >= populationSize
      requires RowStart(populationSize, i + 1) <= fields.Length
      modifies fields
      ensures index == RowStart(populationSize, i + 1)
      ensures forall t :: 0 <= t < fields.Length && !(index0 <= t < index) ==> fields[t] == old(fields[t])
      ensures forall j :: i <= j < populationSize ==> Placed(fields[..], parents, i, j, draws, oracle)
    {
      index := index0;
      PlaceChild(parents, i, i, index, draws, oracle);
      index := index + 1;
      var j := i + 1;
      while j < populationSize
        invariant i + 1 <= j <= populationSize && index == index0 + (j - i)
        invariant forall t :: 0 <= t < fields.Length && !(index0 <= t < index) ==> fields[t] == old(fields[t])
        invariant forall j' :: i <= j' < j ==> Placed(fields[..], parents, i, j', draws, oracle)
      {
        PlaceChild(parents, i, j, index, draws, oracle);
        j, index := j + 1, index + 1;
      }
    }

    /** fields[index] = the child of (i, j), made from fields[i] and fields[j]. */
    method PlaceChild(ghost parents: seq<Scored>, i: nat, j: nat, index: int, draws: seq<ChildDraw>, oracle: Cells -> int)
      requires Valid() && |draws| == fields.Length - populationSize
      requires |parents| == populationSize && i <= j < populationSize
      requires forall k :: 0 <= k < populationSize ==> fields[k] == Some(parents[k]) && IsGrid(parents[k].cells)
      requires forall k :: 0 <= k < |draws| ==> ValidChildDraw(draws[k])
      requires index == SlotOf(populationSize, i, j)
      requires forall j' :: i <= j' < j ==> Placed(fields[..], parents, i, j', draws, oracle)
      modifies fields
      ensures forall t :: 0 <= t < fields.Length && t != index ==> fields[t] == old(fields[t])
      ensures forall j' :: i <= j' <= j ==> Placed(fields[..], parents, i, j', draws, oracle)
    {
      var child := ChildOf(parents, i, j, fields[i].value, fields[j].value, draws[index - populationSize], oracle);
      ghost var before := fields[..];
      fields[index] := Some(child);
      ChildStored(before, fields[..], parents, i, j, draws, oracle);
    }

    /**
     * One child: mutation(parent i, false) for i == j, and for i < j
     * mutation(crossover(parent i, parent j), true).
     */
    static method ChildOf(ghost parents: seq<Scored>, i: nat, j: nat, first: Scored, second: Scored, d: ChildDraw, oracle: Cells -> int)
      returns (c: Scored)
      requires i <= j < |parents| && first == parents[i] && second == parents[j]
      requires IsGrid(first.cells) && IsGrid(second.cells) && ValidChildDraw(d)
      ensures c == Child(parents, i, j, d, oracle)
    {
      if i == j {
        var parentWall := NewWallOf(first.cells);
        var mutantWall;
        c, mutantWall := Mutation(parentWall, false, d.mutation, oracle);
      } else {
        var crossed, childWall := Crossover(first, second, d.coins, oracle);
        c, childWall := Mutation(childWall, true, d.mutation, oracle);
      }
    }

    /**
     * selection: sort the work array, record in bestSelected the first
     * position of every step count (at most P), move those fields to the
     * front by exchanges over the picked slots, and release the fields of
     * slots P..length-1.
     */
    method Selection() returns (released: seq<Scored>)
      requires Valid() && forall k :: 0 <= k < fields.Length ==> fields[k].Some?
      modifies fields, bestSelected
      ensures Valid()
      ensures var r := Select(Population(old(fields[..]), fields.Length), old(bestSelected[..]), populationSize);
        fields[..] == r.slots && released == r.released && bestSelected[..] == r.picked
    {
      ghost var stale := bestSelected[..];
      ghost var fs := Population(fields[..], fields.Length);
      var sorted := SortDesc(Population(fields[..], fields.Length));
      forall k | 0 <= k < fields.Length {
        fields[k] := Some(sorted[k]);
      }
      assert fields[..] == Somes(sorted);
      var selectedCount := PickLeaders(sorted);
      ghost var b := bestSelected[..];
      Compaction(sorted, selectedCount);
      released := ReleaseTail([]);
      assert sorted == SortDesc(fs);
      assert b == Picked(sorted, stale, populationSize) && selectedCount == PickedCount(sorted, populationSize);
      assert fields[..] == SwapPicked(Somes(sorted), b, selectedCount);
    }

    /** The pick loop of selection over the sorted work array. */
    method PickLeaders(ghost sorted: seq<Scored>) returns (selectedCount: int)
      requires Valid() && |sorted| == fields.Length
      requires forall k :: 0 <= k < fields.Length ==> fields[k] == Some(sorted[k])
      modifies bestSelected
      ensures Valid()
      ensures selectedCount == PickedCount(sorted, populationSize)
      ensures bestSelected[..] == Picked(sorted, old(bestSelected[..]), populationSize)
    {
      ghost var stale := bestSelected[..];
      ghost var b := stale;
      selectedCount := 0;
      var i := 0;
      while i < fields.Length && selectedCount < populationSize
        invariant bestSelected[..] == b
        invariant PicksSoFar(sorted, stale, b, i, selectedCount, fields.Length)
      {
        if i == 0 || fields[i].value.steps != fields[i - 1].value.steps {
          PickNext(sorted, stale, b, i, selectedCount, fields.Length);
          PickOne(i, selectedCount);
          b := b[selectedCount := i];
          selectedCount := selectedCount + 1;
        } else {
          SkipNext(sorted, stale, b, i, selectedCount, fields.Length);
        }
        i := i + 1;
      }
      PicksDone(sorted, stale, b, i, selectedCount, fields.Length);
    }

    /** bestSelected[selectedCount] = i. */
    method PickOne(i: int, selectedCount: int)
      requires 0 <= selectedCount < bestSelected.Length
      modifies bestSelected
      ensures bestSelected[..] == old(bestSelected[..])[selectedCount := i]
    {
      bestSelected[selectedCount] := i;
    }

    /**
     * The compaction loop of selection over the selectedCount picked slots,
     * exchanging slot i with slot bestSelected[i].
     */
    method Compaction(ghost sorted: seq<Scored>, selectedCount: int)
      requires Valid() && |sorted| == fields.Length && fields[..] == Somes(sorted)
      requires 0 <= selectedCount <= populationSize
      modifies fields
      ensures fields[..] == SwapPicked(Somes(sorted), bestSelected[..], selectedCount)
    {
      ghost var b := bestSelected[..];
      for i := 0 to selectedCount
        invariant fields[..] == SwapPicked(Somes(sorted), b, i)
      {
        SwapPickedNext(Somes(sorted), b, i);
        if bestSelected[i] != i {
          Exchange(i, bestSelected[i]);
        }
      }
    }

    /** Slots i and j trade their fields. */
    method Exchange(i: int, j: int)
      requires 0 <= i < fields.Length && 0 <= j < fields.Length
      modifies fields
      ensures fields[..] == old(fields[..])[i := old(fields[j])][j := old(fields[i])]
    {
      var field := fields[i];
      fields[i] := fields[j];
      fields[j] := field;
    }

    /** The release loop of selection over slots P..length-1. */
    method ReleaseTail(released0: seq<Scored>) returns (released: seq<Scored>)
      requires Valid()
      ensures released == released0 + Unpicked(fields[..], [], populationSize, fields.Length)
    {
      released := released0;
      for i := populationSize to fields.Length
        invariant released == released0 + Unpicked(fields[..], [], populationSize, i)
      {
        if fields[i].Some? {
          released := released + [fields[i].value];
        }
      }
    }
  }
}
