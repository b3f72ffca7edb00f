/**
 * The exhaustive local searches of BugFieldUtils.
 *
 * hardCrossover tries, for every factorisation nCount x mCount of maxCount,
 * every assignment of the tiling's blocks to one parent or the other;
 * hardMutations tries, for every window shape nSize x mSize and every
 * offset inside the border, every bit pattern of the window. Candidates
 * are built in a scratch grid (childWall, mutantWall) written in place;
 * the candidates worth keeping enter a min-heap of bounded size.
 *
 * Fields held by the heap are Scored values (a grid and its step count):
 * a held field is a copy of the scratch grid, as the cloning in the source
 * makes it. Step counts come from the oracle `oracle`.
 */
module LocalSearch {
  import opened Wrappers
  import opened Bits
  import opened Decimal
  import opened JavaInt
  import opened Grid
  import opened Field
  import opened Heap
  import opened Blocks

  function Max(a: int, b: int): int {
    if a < b then b else a
  }

  /** The key of hardCrossover's `unique` set: BugField.toString. */
  function Text(x: Scored): string {
    FieldText(x.cells, x.steps)
  }

  function Texts(items: seq<Scored>): set<string> {
    set x | x in items :: Text(x)
  }

  /** A field as create() leaves it: a grid with the entry and exit open and its step count. */
  predicate Evaluated(x: Scored, oracle: Cells -> int) {
    IsGrid(x.cells) && FixedOpen(x.cells) && x.steps == oracle(x.cells)
  }

  // ---------------------------------------------------------------------
  // Masks: bit k of the mask drives block (or window cell) k.

  /** checkBit(mask, bit) for bit = 0 .. size-1. */
  function Picks(mask: int, size: nat): (pick: seq<bool>)
    ensures |pick| == size
  {
    seq(size, k requires 0 <= k < size => CheckBit(mask, k))
  }

  /**
   * With at most 30 bits the masks 0 .. (1 << size) - 1 enumerate every
   * assignment of the bits, each one as the mask MaskOf(bits).
   */
  lemma MasksEnumerate(bits: seq<bool>)
    requires |bits| <= 30
    ensures ShiftOne(|bits|) == Pow2(|bits|)
    ensures 0 <= MaskOf(bits) < ShiftOne(|bits|) && Picks(MaskOf(bits), |bits|) == bits
  {
    assert |bits| % 32 == |bits|;
    MasksCoverAssignments(bits);
    var p := Picks(MaskOf(bits), |bits|);
    assert forall k :: 0 <= k < |bits| ==> p[k] == bits[k];
  }

  /** Dropping the lowest pick is halving the mask. */
  lemma PicksTail(mask: int, size: nat)
    requires 1 <= size <= 31
    ensures Picks(mask, size)[1..] == Picks(mask / 2, size - 1)
    ensures Picks(mask, size)[0] <==> mask % 2 == 1
  {
    var p, q := Picks(mask, size)[1..], Picks(mask / 2, size - 1);
    forall k | 0 <= k < size - 1
      ensures p[k] == q[k]
    {
      assert (k + 1) % 32 == k + 1 && k % 32 == k;
      assert p[k] <==> BitOf(mask, k + 1) == 1;
      assert q[k] <==> BitOf(mask / 2, k) == 1;
    }
    assert 0 % 32 == 0;
  }

  /** Below 2^size, the mask is the number its picks spell. */
  lemma {:induction false} PicksSpellMask(mask: int, size: nat)
    requires size <= 31 && 0 <= mask < Pow2(size)
    ensures MaskOf(Picks(mask, size)) == mask
  {
    if size > 0 {
      var p := Picks(mask, size);
      PicksTail(mask, size);
      assert mask / 2 < Pow2(size - 1);
      PicksSpellMask(mask / 2, size - 1);
      assert MaskOf(p) == (if p[0] then 1 else 0) + 2 * MaskOf(p[1..]);
    }
  }

  lemma {:induction false} MaskOfAll(size: nat, b: bool)
    ensures MaskOf(seq(size, _ => b)) == if b then Pow2(size) - 1 else 0
  {
    if size > 0 {
      assert seq(size, _ => b)[1..] == seq(size - 1, _ => b);
      MaskOfAll(size - 1, b);
    }
  }

  /** Every pick is b exactly for the mask 0 (b false) or 2^size - 1 (b true). */
  lemma PicksAll(mask: int, size: nat, b: bool)
    requires size <= 31 && 0 <= mask < Pow2(size)
    ensures Picks(mask, size) == seq(size, _ => b) <==> mask == if b then Pow2(size) - 1 else 0
  {
    var p, all := Picks(mask, size), seq(size, _ => b);
    PicksSpellMask(mask, size);
    MaskOfAll(size, b);
    if MaskOf(p) == MaskOf(all) {
      MaskOfInjective(p, all);
    }
  }

  /**
   * hardCrossover's masks 1 .. maskLimit - 1 are exactly the assignments
   * in which neither parent supplies every block ("we don't need all '0'
   * and all '1'"), when there are at most 30 blocks.
   */
  lemma CrossoverMasksMixed(mask: int, size: nat)
    requires 1 <= size <= 30 && 0 <= mask < ShiftOne(size)
    ensures 1 <= mask < Wrap(ShiftOne(size) - 1) <==>
      (exists k :: 0 <= k < size && Picks(mask, size)[k]) && (exists k :: 0 <= k < size && !Picks(mask, size)[k])
  {
    var p := Picks(mask, size);
    Pow2Monotone(size, 30);
    Pow2Bounds();
    assert Wrap(ShiftOne(size) - 1) == Pow2(size) - 1;
    PicksAll(mask, size, false);
    PicksAll(mask, size, true);
    SomeDiffer(p, false);
    SomeDiffer(p, true);
  }

  /** Some entry of p is b exactly when p is not all !b. */
  lemma SomeDiffer(p: seq<bool>, b: bool)
    ensures (exists k :: 0 <= k < |p| && p[k] == b) <==> p != seq(|p|, _ => !b)
  {
    if p != seq(|p|, _ => !b) {
      var k :| 0 <= k < |p| && p[k] != seq(|p|, _ => !b)[k];
      assert p[k] == b;
    }
  }

  // ---------------------------------------------------------------------
  // The verbose progress line of hardCrossover divides by maskSize / 10.

  /** The mask loop runs and `mask % verbosePart` divides by zero. */
  predicate VerboseCrash(size: int) {
    var maskSize := ShiftOne(size);
    Div(maskSize, 10) == 0 && 1 < Wrap(maskSize - 1)
  }

  /**
   * verbosePart is 0 and the mask loop runs exactly when 1 << size is 4 or
   * 8: a tiling of 2 or 3 blocks (or 34, 35, ..., as the shift distance is
   * taken modulo 32).
   */
  lemma VerboseCrashIff(size: int)
    ensures VerboseCrash(size) <==> size % 32 == 2 || size % 32 == 3
  {
    var e := size % 32;
    var maskSize := ShiftOne(size);
    if e < 31 {
      if e >= 4 {
        Pow2Monotone(4, e);
        assert Pow2(4) == 16;
        DivTruncates(maskSize, 10);
      } else {
        assert Pow2(0) == 1 && Pow2(1) == 2 && Pow2(2) == 4 && Pow2(3) == 8;
      }
    }
  }

  // ---------------------------------------------------------------------
  // The factorisations of hardCrossover.

  /** (nCount, mCount) of iteration `it`: mCount = maxCount / it, nCount = maxCount / mCount. */
  function Factorisation(maxCount: int, it: int): (f: (int, int))
    requires 1 <= it <= maxCount
    ensures f.0 >= 1 && f.1 >= 1
  {
    DivLeast(maxCount, it);
    var mCount := maxCount / it;
    DivLeast(maxCount, mCount);
    (maxCount / mCount, mCount)
  }

  lemma DivLeast(x: int, d: int)
    requires 1 <= d <= x
    ensures 1 <= x / d <= x
  {
    MulLeDiv(1, d, x);
    DivAntitone(x, 1, d);
  }

  lemma MulLeDiv(a: int, b: int, x: int)
    requires b >= 1 && x >= 0 && a * b <= x
    ensures a <= x / b
  {
    var q := x / b;
    assert b * q + x % b == x;
    assert b * (q + 1) == b * q + b;
    if a > q {
      MulMonotone(b, q + 1, a);
      assert false;
    }
  }

  lemma DivAntitone(x: int, d1: int, d2: int)
    requires x >= 0 && 1 <= d1 <= d2
    ensures x / d2 <= x / d1
  {
    var q := x / d2;
    assert d2 * q <= x;
    MulMonotone(q, d1, d2);
    MulLeDiv(q, d1, x);
  }

  /** The tiling hardCrossover uses for iteration `it`. */
  function FactorTiling(maxCount: int, it: int): (t: Tiling)
    requires 1 <= it <= maxCount
    ensures ValidTiling(t)
  {
    var f := Factorisation(maxCount, it);
    Tiling(BlockSize(InnerN, f.0), BlockSize(InnerM, f.1))
  }

  /**
   * maxCount / nCount gives back mCount: the pair is determined by nCount,
   * so an iteration skipped for repeating nCount repeats the whole
   * factorisation.
   */
  lemma FactorisationStable(maxCount: int, it: int)
    requires 1 <= it <= maxCount
    ensures maxCount / Factorisation(maxCount, it).0 == Factorisation(maxCount, it).1
  {
    var m := maxCount / it;
    DivLeast(maxCount, it);
    var n := maxCount / m;
    assert it * m <= maxCount by {
      assert it * m == m * it;
      assert maxCount == it * m + maxCount % it;
    }
    MulLeDiv(it, m, maxCount);
    DivAntitone(maxCount, it, n);
    assert n * m <= maxCount by {
      assert maxCount == m * n + maxCount % m;
    }
    MulLeDiv(m, n, maxCount);
  }

  /** nCount never decreases from one iteration to the next. */
  lemma FactorisationMonotone(maxCount: int, it1: int, it2: int)
    requires 1 <= it1 <= it2 <= maxCount
    ensures Factorisation(maxCount, it1).0 <= Factorisation(maxCount, it2).0
  {
    DivAntitone(maxCount, it1, it2);
    DivLeast(maxCount, it2);
    DivAntitone(maxCount, maxCount / it2, maxCount / it1);
  }

  /** Both factors of an iteration multiply to at most maxCount. */
  lemma FactorisationFits(maxCount: int, it: int)
    requires 1 <= it <= maxCount
    ensures Factorisation(maxCount, it).0 * Factorisation(maxCount, it).1 <= maxCount
    ensures Count(FactorTiling(maxCount, it)) <= maxCount
  {
    var f := Factorisation(maxCount, it);
    assert maxCount == f.1 * f.0 + maxCount % f.1;
    CountFits(f.0, f.1, FactorTiling(maxCount, it));
  }

  // ---------------------------------------------------------------------
  // Block crossover into the scratch grid.

  /** The grids a block crossover of a and b can produce. */
  ghost predicate IsCrossing(g: Cells, a: Cells, b: Cells)
    requires IsGrid(a) && IsGrid(b)
  {
    exists t: Tiling, pick: seq<bool> :: ValidTiling(t) && |pick| >= Count(t) && g == Crossed(Blank(), a, b, t, pick)
  }

  /** Only the border of the base reaches the crossing, so any walled border gives the blank one's result. */
  lemma CrossedOnWalledBase(g: Cells, a: Cells, b: Cells, t: Tiling, pick: seq<bool>)
    requires IsGrid(g) && IsGrid(a) && IsGrid(b) && ValidTiling(t) && |pick| >= Count(t)
    requires BorderWalled(g)
    ensures Crossed(g, a, b, t, pick) == Crossed(Blank(), a, b, t, pick)
  {
    var l, r := Crossed(g, a, b, t, pick), Crossed(Blank(), a, b, t, pick);
    BlankConsistent();
    forall i | 0 <= i < N
      ensures l[i] == r[i]
    {
      forall j | 0 <= j < M
        ensures l[i][j] == r[i][j]
      {
        if !Interior(i, j) {
          assert OnBorder(i, j);
        }
      }
    }
  }

  /**
   * The block loop of one mask: every block, taken from secondWall when its
   * bit is set and from firstWall otherwise. The result is the crossing of
   * the two parents on any walled border.
   */
  method WriteCrossing(childWall: array2<bool>, first: Cells, second: Cells, t: Tiling,
                       starts: array<(int, int)>, size: int, mask: int)
    requires Shaped(childWall) && IsGrid(first) && IsGrid(second) && ValidTiling(t)
    requires size == Count(t) <= starts.Length && starts[..size] == StartList(t, size)
    requires BorderWalled(Snapshot(childWall))
    modifies childWall
    ensures Snapshot(childWall) == Crossed(Blank(), first, second, t, Picks(mask, size))
  {
    ghost var g0 := Snapshot(childWall);
    ghost var pick := Picks(mask, size);
    PartialEnds(g0, first, second, t, pick);
    for bit := 0 to size
      invariant Snapshot(childWall) == Partial(g0, first, second, t, pick, bit)
    {
      assert starts[bit] == starts[..size][bit];
      StartListAt(t, size, bit);
      var nStart, mStart := starts[bit].0, starts[bit].1;
      var parentWall := if CheckBit(mask, bit) then second else first;
      WriteBlock(childWall, parentWall, t, bit, nStart, mStart);
      PartialStep(g0, first, second, t, pick, bit);
    }
    CrossedOnWalledBase(g0, first, second, t, pick);
  }

  /** A field hardCrossover may hold: a parent, or a consistent crossing of the parents. */
  ghost predicate FromCrossover(x: Scored, first: Scored, second: Scored, oracle: Cells -> int)
    requires IsGrid(first.cells) && IsGrid(second.cells)
  {
    IsGrid(x.cells) && x.steps == oracle(x.cells) &&
    (x == first || x == second || (Consistent(x.cells) && IsCrossing(x.cells, first.cells, second.cells)))
  }

  /**
   * What hardCrossover keeps between candidates: a non-empty heap of at most
   * max(populationSize, 2) fields from the crossover, a `unique` set naming
   * only held fields, and a best field at least as good as every held one.
   */
  ghost predicate CrossState(items: seq<Scored>, unique: set<string>, best: Scored,
                             first: Scored, second: Scored, populationSize: int, oracle: Cells -> int)
    requires IsGrid(first.cells) && IsGrid(second.cells)
  {
    items != [] && |items| <= Max(populationSize, 2) &&
    (forall x :: x in items ==> FromCrossover(x, first, second, oracle) && x.steps <= best.steps) &&
    FromCrossover(best, first, second, oracle) &&
    unique <= Texts(items)
  }

  // ---------------------------------------------------------------------
  // Admission into the heap.

  /** An added candidate's text joins what `unique` may name. */
  lemma UniqueAfterAdd(before: seq<Scored>, items: seq<Scored>, child: Scored, unique: set<string>)
    requires unique <= Texts(before)
    requires multiset(items) == multiset(before) + multiset{child}
    ensures unique + {Text(child)} <= Texts(items)
  {
    forall s | s in unique + {Text(child)}
      ensures s in Texts(items)
    {
      if s == Text(child) {
        assert child in multiset(items);
      } else {
        var x :| x in before && Text(x) == s;
        assert x in multiset(items);
      }
    }
  }

  /** An added candidate that pushes out m: m's text leaves, the candidate's joins. */
  /** Polling the least of the heap after adding a better child evicts an old minimum. */
  lemma Evicted(before: seq<Scored>, items: seq<Scored>, child: Scored, m: Scored, unique: set<string>)
    requires unique <= Texts(before)
    requires m in before + [child] && AtMost(m, before + [child])
    requires multiset(items) + multiset{m} == multiset(before + [child])
    requires exists y :: y in before && child.steps > y.steps
    ensures m in before && AtMost(m, before) && m.steps < child.steps
    ensures multiset(items) == multiset(before) - multiset{m} + multiset{child}
    ensures child in items && unique + {Text(child)} - {Text(m)} <= Texts(items)
    ensures forall x :: x in items ==> x in before || x == child
  {
    var full := before + [child];
    var y :| y in before && child.steps > y.steps;
    assert y in full;
    assert m != child;
    assert m in before;
    assert AtMost(m, before) by {
      forall j | 0 <= j < |before|
        ensures m.steps <= before[j].steps
      {
        assert before[j] in full;
      }
    }
    assert multiset(full) == multiset(before) + multiset{child};
    assert m in multiset(before);
    assert multiset(items) == multiset(before) - multiset{m} + multiset{child} by {
      forall z
        ensures multiset(items)[z] == (multiset(before) - multiset{m} + multiset{child})[z]
      {
        assert (multiset(items) + multiset{m})[z] == (multiset(before) + multiset{child})[z];
      }
    }
    assert child in multiset(items);
    UniqueAfterEvict(before, items, child, m, unique);
    forall x | x in items
      ensures x in before || x == child
    {
      assert x in multiset(items);
    }
  }

  lemma UniqueAfterEvict(before: seq<Scored>, items: seq<Scored>, child: Scored, m: Scored, unique: set<string>)
    requires unique <= Texts(before) && m != child
    requires multiset(items) == multiset(before) - multiset{m} + multiset{child}
    ensures unique + {Text(child)} - {Text(m)} <= Texts(items)
  {
    forall s | s in unique + {Text(child)} - {Text(m)}
      ensures s in Texts(items)
    {
      if s == Text(child) {
        assert child in multiset(items);
      } else {
        var x :| x in before && Text(x) == s;
        assert x != m;
        assert x in multiset(items);
      }
    }
  }

  /**
   * The insertion of hardCrossover: add the candidate; if that overfills
   * the heap, poll its minimum (never the candidate, which found room or
   * beat a held field) and drop that minimum's text from `unique`.
   */
  method AddCapped(heap: MinHeap, unique: set<string>, child: Scored, populationSize: int)
    returns (unique': set<string>)
    requires heap.items != [] && unique <= Texts(heap.items)
    requires |heap.items| < populationSize || exists y :: y in heap.items && child.steps > y.steps
    modifies heap
    ensures |old(heap.items)| < populationSize ==>
      multiset(heap.items) == old(multiset(heap.items)) + multiset{child} && unique' == unique + {Text(child)}
    ensures |old(heap.items)| >= populationSize ==>
      exists m :: m in old(heap.items) && AtMost(m, old(heap.items)) && m.steps < child.steps &&
        multiset(heap.items) == old(multiset(heap.items)) - multiset{m} + multiset{child} &&
        unique' == unique + {Text(child)} - {Text(m)}
    ensures child in heap.items && unique' <= Texts(heap.items)
    ensures |heap.items| == if |old(heap.items)| < populationSize then |old(heap.items)| + 1 else |old(heap.items)|
    ensures forall x :: x in heap.items ==> x in old(heap.items) || x == child
  {
    ghost var before := heap.items;
    unique' := unique + {Text(child)};
    heap.Add(child);
    ghost var full := heap.items;
    if heap.Size() > populationSize {
      var least := heap.Poll();
      var m := least.value;
      unique' := unique' - {Text(m)};
      Evicted(before, heap.items, child, m, unique);
    } else {
      UniqueAfterAdd(before, heap.items, child, unique);
    }
  }

  /**
   * The admission of hardCrossover: a candidate that finds room or beats
   * the heap's minimum, and whose text is not yet in `unique`, is added
   * (AddCapped); a strictly better admitted candidate becomes the best.
   */
  method AdmitUnique(heap: MinHeap, unique: set<string>, best: Scored, child: Scored, populationSize: int)
    returns (unique': set<string>, best': Scored, admitted: bool)
    requires heap.items != [] && unique <= Texts(heap.items)
    modifies heap
    ensures admitted <==>
      (|old(heap.items)| < populationSize || exists y :: y in old(heap.items) && child.steps > y.steps) &&
      Text(child) !in unique
    ensures !admitted ==> heap.items == old(heap.items) && unique' == unique
    ensures admitted ==> child in heap.items
    ensures best' == if admitted && child.steps > best.steps then child else best
    ensures heap.items != [] && unique' <= Texts(heap.items)
    ensures |heap.items| == if admitted && |old(heap.items)| < populationSize then |old(heap.items)| + 1 else |old(heap.items)|
    ensures forall x :: x in heap.items ==> x in old(heap.items) || (admitted && x == child)
  {
    ghost var before := heap.items;
    unique', best', admitted := unique, best, false;
    var room := heap.Size() < populationSize;
    var beats := false;
    if !room {
      var least := heap.Peek();
      beats := child.steps > least.steps;
      assert beats <==> exists y :: y in before && child.steps > y.steps;
    }
    if (room || beats) && Text(child) !in unique {
      admitted := true;
      unique' := AddCapped(heap, unique, child, populationSize);
      if child.steps > best.steps {
        best' := child;
      }
    }
  }

  // ---------------------------------------------------------------------
  // hardCrossover.

  /**
   * The body of the mask loop: cross the parents into childWall by the
   * mask's bits and evaluate the wall as a new field.
   */
  method CrossChild(childWall: array2<bool>, first: Scored, second: Scored, t: Tiling,
                    starts: array<(int, int)>, size: int, mask: int, oracle: Cells -> int)
    returns (child: Scored)
    requires Evaluated(first, oracle) && Evaluated(second, oracle) && ValidTiling(t)
    requires size == Count(t) <= starts.Length && starts[..size] == StartList(t, size)
    requires Shaped(childWall) && BorderWalled(Snapshot(childWall))
    modifies childWall
    ensures BorderWalled(Snapshot(childWall))
    ensures FromCrossover(child, first, second, oracle)
  {
    WriteCrossing(childWall, first.cells, second.cells, t, starts, size, mask);
    ghost var pick := Picks(mask, size);
    ghost var crossed := Snapshot(childWall);
    CrossedBorder(Blank(), first.cells, second.cells, t, pick);
    SoftConsistentKeepsFixedOpen(crossed);
    var childField := new Field(childWall);
    childField.RecalculateSteps(oracle);
    child := Scored(Snapshot(childWall), childField.steps);
    assert IsCrossing(child.cells, first.cells, second.cells) by {
      assert ValidTiling(t) && |pick| >= Count(t) && child.cells == Crossed(Blank(), first.cells, second.cells, t, pick);
    }
  }

  /**
   * One factorisation nCount x mCount of hardCrossover: the tiling and its
   * block starts, then every mask 1 .. maskLimit - 1 crossed into
   * childWall, evaluated and offered to the heap. With `verbose`, a
   * verbosePart of 0 makes the first mask divide by zero.
   */
  method CrossFactorisation(first: Scored, second: Scored, populationSize: int, nCount: int, mCount: int,
                            heap: MinHeap, unique: set<string>, best: Scored, childWall: array2<bool>,
                            verbose: bool, oracle: Cells -> int)
    returns (r: Result<Scored>, unique': set<string>)
    requires Evaluated(first, oracle) && Evaluated(second, oracle)
    requires nCount >= 1 && mCount >= 1
    requires Shaped(childWall) && BorderWalled(Snapshot(childWall))
    requires CrossState(heap.items, unique, best, first, second, populationSize, oracle)
    modifies heap, childWall
    ensures BorderWalled(Snapshot(childWall))
    ensures r.Err? <==> verbose && VerboseCrash(Count(Tiling(BlockSize(InnerN, nCount), BlockSize(InnerM, mCount))))
    ensures r.Err? ==> r.error == DivisionByZero
    ensures r.Ok? ==> CrossState(heap.items, unique', r.value, first, second, populationSize, oracle) && r.value.steps >= best.steps
  {
    var nSize := (InnerN - 1) / nCount + 1;
    var mSize := (InnerM - 1) / mCount + 1;
    var t := Tiling(nSize, mSize);
    var starts, size := ComputeBlockStarts(nCount, mCount, t);
    var maskSize := ShiftOne(size);
    var maskLimit := Wrap(maskSize - 1);
    var verbosePart := Div(maskSize, 10);
    unique' := unique;
    var b := best;
    var mask := 1;
    while mask < maskLimit
      modifies heap, childWall
      invariant 1 <= mask
      invariant verbose && verbosePart == 0 ==> mask == 1
      invariant BorderWalled(Snapshot(childWall))
      invariant CrossState(heap.items, unique', b, first, second, populationSize, oracle) && b.steps >= best.steps
      decreases maskLimit - mask
    {
      var child := CrossChild(childWall, first, second, t, starts, size, mask, oracle);
      if verbose && verbosePart == 0 {
        return Err(DivisionByZero), unique';
      }
      ghost var before, uniqueBefore, bestBefore := heap.items, unique', b;
      var admitted;
      unique', b, admitted := AdmitUnique(heap, unique', b, child, populationSize);
      CrossStateAdmits(before, uniqueBefore, bestBefore, heap.items, unique', b, child, admitted, first, second, populationSize, oracle);
      mask := mask + 1;
    }
    r := Ok(b);
  }

  /** An offer to the heap keeps the crossover state, and the best never gets worse. */
  lemma CrossStateAdmits(before: seq<Scored>, unique: set<string>, best: Scored,
                         items: seq<Scored>, unique': set<string>, best': Scored, child: Scored, admitted: bool,
                         first: Scored, second: Scored, populationSize: int, oracle: Cells -> int)
    requires Evaluated(first, oracle) && Evaluated(second, oracle)
    requires CrossState(before, unique, best, first, second, populationSize, oracle)
    requires FromCrossover(child, first, second, oracle)
    requires best' == if admitted && child.steps > best.steps then child else best
    requires items != [] && unique' <= Texts(items)
    requires |items| == if admitted && |before| < populationSize then |before| + 1 else |before|
    requires forall x :: x in items ==> x in before || (admitted && x == child)
    ensures CrossState(items, unique', best', first, second, populationSize, oracle) && best'.steps >= best.steps
  {
    forall x | x in items
      ensures FromCrossover(x, first, second, oracle) && x.steps <= best'.steps
    {
      if x != child {
        assert x in before;
      }
    }
  }

  /**
   * The working overload of hardCrossover: every iteration 1 .. maxCount
   * whose nCount differs from the last one crosses its factorisation.
   * `tried` lists the factorisations crossed, in order: each one of
   * maxCount's factorisations exactly once. With `verbose`, the search
   * fails with a division by zero exactly when some factorisation's tiling
   * makes verbosePart 0.
   */
  method Search(first: Scored, second: Scored, populationSize: int, maxCount: int,
                heap: MinHeap, unique: set<string>, best: Scored, childWall: array2<bool>,
                verbose: bool, oracle: Cells -> int)
    returns (r: Result<Scored>, unique': set<string>, ghost tried: seq<(int, int)>)
    requires Evaluated(first, oracle) && Evaluated(second, oracle)
    requires Shaped(childWall) && BorderWalled(Snapshot(childWall))
    requires CrossState(heap.items, unique, best, first, second, populationSize, oracle)
    modifies heap, childWall
    ensures r.Err? <==> verbose && exists it :: 1 <= it <= maxCount && VerboseCrash(Count(FactorTiling(maxCount, it)))
    ensures r.Err? ==> r.error == DivisionByZero
    ensures r.Ok? ==> CrossState(heap.items, unique', r.value, first, second, populationSize, oracle) && r.value.steps >= best.steps
    ensures r.Ok? ==> forall a, c :: 0 <= a < c < |tried| ==> tried[a].0 < tried[c].0
    ensures r.Ok? ==> forall f :: f in tried <==> exists it :: 1 <= it <= maxCount && f == Factorisation(maxCount, it)
  {
    unique' := unique;
    var b := best;
    tried := [];
    var lastNCount := -1;
    ghost var lastIt := 0;
    var it := 1;
    while it <= maxCount
      invariant 1 <= it <= Max(maxCount + 1, 1)
      invariant BorderWalled(Snapshot(childWall))
      invariant CrossState(heap.items, unique', b, first, second, populationSize, oracle) && b.steps >= best.steps
      invariant it == 1 ==> lastNCount == -1 && tried == []
      invariant it > 1 ==> (1 <= lastIt < it && lastNCount == Factorisation(maxCount, lastIt).0 &&
                             tried != [] && tried[|tried| - 1] == Factorisation(maxCount, lastIt))
      invariant forall a, c :: 0 <= a < c < |tried| ==> tried[a].0 < tried[c].0
      invariant forall f :: f in tried <==> exists i :: 1 <= i < it && f == Factorisation(maxCount, i)
      invariant verbose ==> forall i :: 1 <= i < it ==> !VerboseCrash(Count(FactorTiling(maxCount, i)))
    {
      DivLeast(maxCount, it);
      var mCount := maxCount / it;
      DivLeast(maxCount, mCount);
      var nCount := maxCount / mCount;
      assert (nCount, mCount) == Factorisation(maxCount, it);
      if lastNCount == nCount {
        FactorisationStable(maxCount, it);
        FactorisationStable(maxCount, lastIt);
        assert Factorisation(maxCount, it) == Factorisation(maxCount, lastIt);
        assert FactorTiling(maxCount, it) == FactorTiling(maxCount, lastIt);
        it := it + 1;
        continue;
      }
      if it > 1 {
        FactorisationMonotone(maxCount, lastIt, it);
      }
      lastNCount := nCount;
      var res;
      res, unique' := CrossFactorisation(first, second, populationSize, nCount, mCount, heap, unique', b, childWall, verbose, oracle);
      assert Tiling(BlockSize(InnerN, nCount), BlockSize(InnerM, mCount)) == FactorTiling(maxCount, it);
      if res.Err? {
        assert VerboseCrash(Count(FactorTiling(maxCount, it)));
        return res, unique', tried;
      }
      assert verbose ==> !VerboseCrash(Count(FactorTiling(maxCount, it)));
      b := res.value;
      tried := tried + [(nCount, mCount)];
      lastIt := it;
      it := it + 1;
    }
    r := Ok(b);
  }

  /**
   * hardCrossover(first, second, populationSize, maxCount): the search
   * from a heap holding both parents, the better parent as the best so
   * far and a blank childWall, in verbose mode; then the heap's best
   * populationSize fields, in descending order of steps.
   */
  method HardCrossover(first: Scored, second: Scored, populationSize: int, maxCount: int, oracle: Cells -> int)
    returns (r: Result<array<Option<Scored>>>)
    requires Evaluated(first, oracle) && Evaluated(second, oracle)
    requires populationSize >= 0
    ensures r.Err? <==> exists it :: 1 <= it <= maxCount && VerboseCrash(Count(FactorTiling(maxCount, it)))
    ensures r.Err? ==> r.error == DivisionByZero
    ensures r.Ok? ==> r.value.Length == populationSize && NonIncreasing(r.value[..])
    ensures r.Ok? && populationSize >= 1 ==> r.value[populationSize - 1].Some?
    ensures r.Ok? ==> forall k :: 0 <= k < populationSize && r.value[k].Some? ==>
      FromCrossover(r.value[k].value, first, second, oracle)
  {
    var heap := new MinHeap();
    heap.Add(first);
    heap.Add(second);
    var childWall := NewWallOf(Blank());
    BlankConsistent();
    var best := if first.steps > second.steps then first else second;
    var res, unique;
    ghost var tried;
    res, unique, tried := Search(first, second, populationSize, maxCount, heap, {}, best, childWall, true, oracle);
    if res.Err? {
      return Err(res.error);
    }
    ghost var held := heap.items;
    var fields := Collect(heap, populationSize);
    forall k | 0 <= k < populationSize && fields[k].Some?
      ensures FromCrossover(fields[k].value, first, second, oracle)
    {
      assert fields[k].value in held;
    }
    r := Ok(fields);
  }


  // ---------------------------------------------------------------------
  // hardMutations.

  /** Held step counts are pairwise different. */
  predicate DistinctSteps(items: seq<Scored>) {
    forall i, j :: 0 <= i < j < |items| ==> items[i].steps != items[j].steps
  }

  lemma DistinctRemove(s: seq<Scored>, k: int)
    requires DistinctSteps(s) && 0 <= k < |s|
    ensures DistinctSteps(s[..k] + s[k + 1..])
  {
    var r := s[..k] + s[k + 1..];
    forall i, j | 0 <= i < j < |r|
      ensures r[i].steps != r[j].steps
    {
      var i', j' := if i < k then i else i + 1, if j < k then j else j + 1;
      assert r[i] == s[i'] && r[j] == s[j'];
    }
  }

  /**
   * The insertion of hardMutations: add the mutant; if that overfills the
   * heap, poll its minimum (never the mutant, which found room or beat a
   * held field). Step counts stay pairwise different.
   */
  method AddDistinct(heap: MinHeap, mutant: Scored, populationSize: int)
    requires heap.items != [] && DistinctSteps(heap.items)
    requires |heap.items| < populationSize || exists y :: y in heap.items && mutant.steps > y.steps
    requires forall y :: y in heap.items ==> y.steps != mutant.steps
    modifies heap
    ensures mutant in heap.items && DistinctSteps(heap.items)
    ensures |heap.items| == if |old(heap.items)| < populationSize then |old(heap.items)| + 1 else |old(heap.items)|
    ensures forall x :: x in heap.items ==> x in old(heap.items) || x == mutant
  {
    ghost var before := heap.items;
    heap.Add(mutant);
    AddKeepsDistinct(before, mutant);
    if heap.Size() > populationSize {
      var least := heap.Poll();
      ghost var k :| 0 <= k < |before| + 1 && (before + [mutant])[k] == least.value &&
        heap.items == (before + [mutant])[..k] + (before + [mutant])[k + 1..];
      PollSparesMutant(before, mutant, k);
    }
  }

  /** A step count no held field has keeps the step counts distinct. */
  lemma AddKeepsDistinct(before: seq<Scored>, mutant: Scored)
    requires DistinctSteps(before)
    requires forall y :: y in before ==> y.steps != mutant.steps
    ensures DistinctSteps(before + [mutant])
  {
    var full := before + [mutant];
    forall i, j | 0 <= i < j < |full|
      ensures full[i].steps != full[j].steps
    {
      if j == |before| {
        assert full[i] in before;
      }
    }
  }

  /**
   * Polling the minimum after the add removes a held field, never the
   * mutant, when the mutant beats some held field.
   */
  lemma PollSparesMutant(before: seq<Scored>, mutant: Scored, k: int)
    requires DistinctSteps(before + [mutant]) && 0 <= k < |before| + 1
    requires AtMost((before + [mutant])[k], before + [mutant])
    requires exists y :: y in before && mutant.steps > y.steps
    ensures var full := before + [mutant]; var r := full[..k] + full[k + 1..];
      mutant in r && DistinctSteps(r) && |r| == |before| &&
      forall x :: x in r ==> x in before || x == mutant
  {
    var full := before + [mutant];
    var r := full[..k] + full[k + 1..];
    var y :| y in before && mutant.steps > y.steps;
    assert y in full;
    assert k != |before|;
    DistinctRemove(full, k);
    assert r[|before| - 1] == mutant;
    forall x | x in r
      ensures x in before || x == mutant
    {
      var i :| 0 <= i < |r| && r[i] == x;
      assert x == full[if i < k then i else i + 1];
    }
  }

  /**
   * The admission of hardMutations: a mutant that finds room or beats the
   * heap's minimum (possibleAdd), and whose step count no held field has
   * (alreadyContained), is added (AddDistinct); a strictly better admitted
   * mutant becomes the best.
   */
  method AdmitDistinct(heap: MinHeap, best: Scored, mutant: Scored, populationSize: int)
    returns (best': Scored, admitted: bool)
    requires heap.items != [] && DistinctSteps(heap.items)
    modifies heap
    ensures admitted <==>
      (|old(heap.items)| < populationSize || exists y :: y in old(heap.items) && mutant.steps > y.steps) &&
      !(exists y :: y in old(heap.items) && y.steps == mutant.steps)
    ensures !admitted ==> heap.items == old(heap.items)
    ensures admitted ==> mutant in heap.items
    ensures best' == if admitted && mutant.steps > best.steps then mutant else best
    ensures heap.items != [] && DistinctSteps(heap.items)
    ensures |heap.items| == if admitted && |old(heap.items)| < populationSize then |old(heap.items)| + 1 else |old(heap.items)|
    ensures forall x :: x in heap.items ==> x in old(heap.items) || (admitted && x == mutant)
  {
    ghost var before := heap.items;
    best', admitted := best, false;
    var room := heap.Size() < populationSize;
    var beats := false;
    if !room {
      var least := heap.Peek();
      beats := mutant.steps > least.steps;
      assert beats <==> exists y :: y in before && mutant.steps > y.steps;
    }
    var possibleAdd := room || beats;
    if possibleAdd {
      var alreadyContained := heap.ContainsSteps(mutant.steps);
      if !alreadyContained {
        admitted := true;
        AddDistinct(heap, mutant, populationSize);
        if mutant.steps > best.steps {
          best' := mutant;
        }
      }
    }
  }

  /** The grids a single window rewrite of `base` gives once its entry and exit are opened. */
  ghost predicate IsMutant(g: Cells, base: Cells)
    requires IsGrid(base)
  {
    exists w: Window, bits: seq<bool> :: InsideBorder(w) && |bits| >= w.height * w.width &&
      g == SoftConsistent(WriteWindow(base, w, bits))
  }

  /**
   * A field hardMutations may hold: the base or one window rewrite of it,
   * with the entry and exit open, its step count, and a walled border when
   * the base has one.
   */
  ghost predicate FromMutation(x: Scored, base: Scored, oracle: Cells -> int)
    requires IsGrid(base.cells)
  {
    IsGrid(x.cells) && FixedOpen(x.cells) && x.steps == oracle(x.cells) &&
    (x == base || IsMutant(x.cells, base.cells)) &&
    (BorderWalled(base.cells) ==> Consistent(x.cells))
  }

  /**
   * What hardMutations keeps between candidates: a non-empty heap of at most
   * max(populationSize, 1) mutants with pairwise different step counts, and
   * a best field at least as good as every held one.
   */
  ghost predicate MutState(items: seq<Scored>, best: Scored, base: Scored, populationSize: int, oracle: Cells -> int)
    requires IsGrid(base.cells)
  {
    items != [] && |items| <= Max(populationSize, 1) && DistinctSteps(items) &&
    (forall x :: x in items ==> FromMutation(x, base, oracle) && x.steps <= best.steps) &&
    FromMutation(best, base, oracle)
  }

  /** g and h agree outside window w. */
  predicate AgreeOutside(g: Cells, h: Cells, w: Window)
    requires IsGrid(g) && IsGrid(h)
  {
    forall i, j :: 0 <= i < N && 0 <= j < M && !InWindow(w, i, j) ==> g[i][j] == h[i][j]
  }

  /** Writing a whole window forgets what the window held before. */
  lemma WriteWindowAgree(g: Cells, base: Cells, w: Window, bits: seq<bool>)
    requires IsGrid(g) && IsGrid(base) && InsideBorder(w) && |bits| >= w.height * w.width
    requires AgreeOutside(g, base, w)
    ensures WriteWindow(g, w, bits) == WriteWindow(base, w, bits)
  {
    var l, r := WriteWindow(g, w, bits), WriteWindow(base, w, bits);
    forall i | 0 <= i < N
      ensures l[i] == r[i]
    {
    }
  }

  /**
   * The restore loop of hardMutations: copy the window back from baseWall.
   * Once the rest agrees, the scratch grid is the base again.
   */
  method RestoreWindow(mutantWall: array2<bool>, w: Window, base: Cells)
    requires Shaped(mutantWall) && IsGrid(base) && InsideBorder(w)
    requires AgreeOutside(Snapshot(mutantWall), base, w)
    modifies mutantWall
    ensures Snapshot(mutantWall) == base
  {
    var x := 0;
    while x < w.height
      invariant 0 <= x <= w.height
      invariant forall i, j :: 0 <= i < N && 0 <= j < M && !(InWindow(w, i, j) && i >= w.top + x) ==>
        mutantWall[i, j] == base[i][j]
    {
      var y := 0;
      while y < w.width
        invariant 0 <= y <= w.width
        invariant forall i, j ::
          (0 <= i < N && 0 <= j < M && !(InWindow(w, i, j) && (i > w.top + x || (i == w.top + x && j >= w.left + y)))) ==>
          mutantWall[i, j] == base[i][j]
      {
        mutantWall[w.top + x, w.left + y] := base[w.top + x][w.left + y];
        y := y + 1;
      }
      x := x + 1;
    }
    SnapshotEq(mutantWall, base);
  }


  /**
   * The body of the mask loop: write the bits into the window, evaluate the
   * wall as a new field and offer it to the heap.
   */
  method TryMask(mutantWall: array2<bool>, heap: MinHeap, best: Scored, base: Scored, w: Window,
                 bits: seq<bool>, populationSize: int, oracle: Cells -> int)
    returns (best': Scored)
    requires Evaluated(base, oracle) && InsideBorder(w) && |bits| >= w.height * w.width
    requires Shaped(mutantWall) && AgreeOutside(Snapshot(mutantWall), base.cells, w)
    requires MutState(heap.items, best, base, populationSize, oracle)
    modifies mutantWall, heap
    ensures AgreeOutside(Snapshot(mutantWall), base.cells, w)
    ensures MutState(heap.items, best', base, populationSize, oracle) && best'.steps >= best.steps
  {
    ghost var g := Snapshot(mutantWall);
    WriteWindowInPlace(mutantWall, w, bits);
    WriteWindowAgree(g, base.cells, w, bits);
    var mutantField := new Field(mutantWall);
    mutantField.RecalculateSteps(oracle);
    var mutant := Scored(Snapshot(mutantWall), mutantField.steps);
    assert IsMutant(mutant.cells, base.cells) by {
      assert InsideBorder(w) && |bits| >= w.height * w.width &&
        mutant.cells == SoftConsistent(WriteWindow(base.cells, w, bits));
    }
    if BorderWalled(base.cells) {
      WriteWindowKeepsBorder(base.cells, w, bits);
    }
    MutantAgrees(base.cells, w, bits);
    assert FromMutation(mutant, base, oracle);
    ghost var before := heap.items;
    var admitted;
    best', admitted := AdmitDistinct(heap, best, mutant, populationSize);
    MutStateAdmits(before, best, heap.items, best', mutant, admitted, base, populationSize, oracle);
  }

  /** A mutant of a base with the entry and the exit open differs from it only inside the window. */
  lemma MutantAgrees(base: Cells, w: Window, bits: seq<bool>)
    requires IsGrid(base) && FixedOpen(base) && InsideBorder(w) && |bits| >= w.height * w.width
    ensures AgreeOutside(SoftConsistent(WriteWindow(base, w, bits)), base, w)
  {
    var written := WriteWindow(base, w, bits);
    var r := SoftConsistent(written);
    forall i, j | 0 <= i < N && 0 <= j < M && !InWindow(w, i, j)
      ensures r[i][j] == base[i][j]
    {
      if !IsFixedCell(i, j) {
        assert r[i][j] == written[i][j];
      }
    }
  }

  /** An offer to the heap keeps the mutation state, and the best never gets worse. */
  lemma MutStateAdmits(before: seq<Scored>, best: Scored, items: seq<Scored>, best': Scored,
                       mutant: Scored, admitted: bool, base: Scored, populationSize: int, oracle: Cells -> int)
    requires Evaluated(base, oracle)
    requires MutState(before, best, base, populationSize, oracle)
    requires FromMutation(mutant, base, oracle)
    requires best' == if admitted && mutant.steps > best.steps then mutant else best
    requires items != [] && DistinctSteps(items)
    requires |items| == if admitted && |before| < populationSize then |before| + 1 else |before|
    requires forall x :: x in items ==> x in before || (admitted && x == mutant)
    ensures MutState(items, best', base, populationSize, oracle) && best'.steps >= best.steps
  {
    forall x | x in items
      ensures FromMutation(x, base, oracle) && x.steps <= best'.steps
    {
      if x != mutant {
        assert x in before;
      }
    }
  }

  /**
   * One offset of hardMutations: every mask 0 .. maskSize - 1 written into
   * the window of mutantWall bit by bit, row by row, evaluated and offered
   * to the heap; then the window restored from the base.
   */
  method SearchOffset(mutantWall: array2<bool>, heap: MinHeap, best: Scored, base: Scored, w: Window,
                      maskSize: int, populationSize: int, oracle: Cells -> int)
    returns (best': Scored)
    requires Evaluated(base, oracle) && InsideBorder(w)
    requires Shaped(mutantWall) && Snapshot(mutantWall) == base.cells
    requires MutState(heap.items, best, base, populationSize, oracle)
    modifies mutantWall, heap
    ensures Snapshot(mutantWall) == base.cells
    ensures MutState(heap.items, best', base, populationSize, oracle) && best'.steps >= best.steps
  {
    var size := w.height * w.width;
    best' := best;
    var mask := 0;
    while mask < maskSize
      modifies mutantWall, heap
      invariant AgreeOutside(Snapshot(mutantWall), base.cells, w)
      invariant MutState(heap.items, best', base, populationSize, oracle) && best'.steps >= best.steps
      decreases maskSize - mask
    {
      best' := TryMask(mutantWall, heap, best', base, w, Picks(mask, size), populationSize, oracle);
      mask := mask + 1;
    }
    RestoreWindow(mutantWall, w, base.cells);
  }

  /**
   * hardMutations(baseField, populationSize, maxSize): for every iteration
   * 1 .. maxSize whose mSize = maxSize / it differs from the last one, the
   * window shape nSize x mSize (nSize = maxSize / mSize) at every offset
   * inside the border; then the heap's best populationSize fields, in
   * descending order of steps, and the best field met.
   */
  method HardMutations(base: Scored, populationSize: int, maxSize: int, oracle: Cells -> int)
    returns (fields: array<Option<Scored>>, best: Scored)
    requires Evaluated(base, oracle) && populationSize >= 0
    ensures fields.Length == populationSize && NonIncreasing(fields[..])
    ensures populationSize >= 1 ==> fields[populationSize - 1].Some?
    ensures forall k :: 0 <= k < populationSize && fields[k].Some? ==>
      FromMutation(fields[k].value, base, oracle) && fields[k].value.steps <= best.steps
    ensures forall a, b :: 0 <= a < b < populationSize && fields[a].Some? && fields[b].Some? ==>
      fields[a].value.steps > fields[b].value.steps
    ensures FromMutation(best, base, oracle) && best.steps >= base.steps
  {
    var heap := new MinHeap();
    heap.Add(base);
    best := base;
    var mutantWall := NewWallOf(base.cells);
    var lastMSize := -1;
    var it := 1;
    while it <= maxSize
      invariant Snapshot(mutantWall) == base.cells
      invariant MutState(heap.items, best, base, populationSize, oracle) && best.steps >= base.steps
    {
      DivLeast(maxSize, it);
      var mSize := maxSize / it;
      if mSize == lastMSize {
        it := it + 1;
        continue;
      }
      DivLeast(maxSize, mSize);
      var nSize := maxSize / mSize;
      lastMSize := mSize;
      var size := nSize * mSize;
      var maskSize := ShiftOne(size);
      var i := 1;
      while i + nSize < N
        invariant 1 <= i
        invariant Snapshot(mutantWall) == base.cells
        invariant MutState(heap.items, best, base, populationSize, oracle) && best.steps >= base.steps
        decreases N - i
      {
        var j := 1;
        while j + mSize < M
          invariant 1 <= j
          invariant Snapshot(mutantWall) == base.cells
          invariant MutState(heap.items, best, base, populationSize, oracle) && best.steps >= base.steps
          decreases M - j
        {
          best := SearchOffset(mutantWall, heap, best, base, Window(i, j, nSize, mSize), maskSize, populationSize, oracle);
          j := j + 1;
        }
        i := i + 1;
      }
      it := it + 1;
    }
    ghost var held := heap.items;
    fields := Collect(heap, populationSize);
    forall k | 0 <= k < populationSize && fields[k].Some?
      ensures FromMutation(fields[k].value, base, oracle) && fields[k].value.steps <= best.steps
    {
      assert fields[k].value in held;
    }
    forall a, b | 0 <= a < b < populationSize && fields[a].Some? && fields[b].Some?
      ensures fields[a].value.steps > fields[b].value.steps
    {
      DistinctMultiset(held, fields[a].value, fields[b].value);
    }
  }

  /**
   * The closing fill of both searches: a fresh array of populationSize
   * positions filled from the heap, in descending order of steps, its last
   * position present when the heap was not empty.
   */
  method Collect(heap: MinHeap, populationSize: int) returns (fields: array<Option<Scored>>)
    requires populationSize >= 0
    modifies heap
    ensures fresh(fields) && fields.Length == populationSize && NonIncreasing(fields[..])
    ensures populationSize >= 1 && old(heap.items) != [] ==> fields[populationSize - 1].Some?
    ensures forall k :: 0 <= k < populationSize && fields[k].Some? ==> fields[k].value in old(heap.items)
    ensures forall a, b :: 0 <= a < b < populationSize && fields[a].Some? && fields[b].Some? ==>
      multiset{fields[a].value, fields[b].value} <= multiset(old(heap.items))
  {
    fields := new Option<Scored>[populationSize](_ => None);
    heap.Fill(fields, populationSize);
    assert fields[..populationSize] == fields[..];
    forall k | 0 <= k < populationSize && fields[k].Some?
      ensures fields[k].value in old(heap.items)
    {
      PresentHas(fields[..], k);
      assert fields[k].value in old(multiset(heap.items));
    }
    forall a, b | 0 <= a < b < populationSize && fields[a].Some? && fields[b].Some?
      ensures multiset{fields[a].value, fields[b].value} <= multiset(old(heap.items))
    {
      PresentTwo(fields[..], a, b);
    }
  }

  /** Two present positions contribute two elements. */
  lemma PresentTwo(s: seq<Option<Scored>>, a: int, b: int)
    requires 0 <= a < b < |s| && s[a].Some? && s[b].Some?
    ensures multiset{s[a].value, s[b].value} <= Present(s)
  {
    PresentSplit(s, b);
    PresentHas(s[..b], a);
  }

  lemma {:induction false} PresentSplit(s: seq<Option<Scored>>, b: int)
    requires 0 <= b < |s| && s[b].Some?
    ensures Present(s[..b]) + multiset{s[b].value} <= Present(s)
    decreases |s|
  {
    if b < |s| - 1 {
      PresentSplit(s[..|s| - 1], b);
      assert s[..|s| - 1][..b] == s[..b];
    } else {
      assert s[..|s| - 1] == s[..b];
    }
  }

  /** In a heap with pairwise different steps, two elements (counted with multiplicity) differ in steps. */
  lemma DistinctMultiset(items: seq<Scored>, x: Scored, y: Scored)
    requires DistinctSteps(items) && multiset{x, y} <= multiset(items)
    ensures x.steps != y.steps
  {
    if x == y {
      Twice(items, x);
    } else {
      var i :| 0 <= i < |items| && items[i] == x;
      assert y in multiset(items);
      var j :| 0 <= j < |items| && items[j] == y;
    }
  }

  /** An element counted twice sits at two positions. */
  lemma Twice(items: seq<Scored>, x: Scored)
    requires multiset(items)[x] >= 2
    ensures exists i, j :: 0 <= i < j < |items| && items[i] == x && items[j] == x
  {
    assert x in multiset(items);
    var i :| 0 <= i < |items| && items[i] == x;
    var pre, post := items[..i], items[i + 1..];
    assert items == pre + [x] + post;
    assert multiset(items) == multiset(pre) + multiset{x} + multiset(post);
    if x in multiset(pre) {
      var j :| 0 <= j < |pre| && pre[j] == x;
      assert 0 <= j < i < |items| && items[j] == x && items[i] == x;
    } else {
      assert x in multiset(post);
      var j :| 0 <= j < |post| && post[j] == x;
      assert 0 <= i < i + 1 + j < |items| && items[i] == x && items[i + 1 + j] == x;
    }
  }
}
