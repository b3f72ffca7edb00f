# BugGenerator core, modelled in Dafny

BugGenerator evolves the wall layout of a 21-by-31 maze so that a walker
needs as many steps as possible from the entry (1, 1) to the exit (19, 29).
This project models the parts of the program that carry its logic and
proves what they promise:

- **The grid and its field objects** (`src/BugField.java`). The blank
  bordered grid, makeSoftConsistent and isConsistent, row masks and
  equalsByMasks, compareTo and toString, the column-major byte layout, and
  the pool of field objects (getInstance, delete, the three create
  overloads). The grid is a value `Cells` (rows of booleans). The Java
  `boolean[][]` is an `array2<bool>` wherever the source writes it in place.
- **The genetic algorithm** (`src/BugFieldGeneticAlgorithm.java`). The
  3-by-5 block crossover and the window mutation, with their random draws
  as parameters. The slot layout of the work array that childGenerating
  fills. The selection (sort, first field of each step count, compaction,
  release). The stopping rule of process. The choice of the start file
  name.
- **The exhaustive local searches** (`src/BugFieldUtils.java`). getBit and
  checkBit. The min-heap and its fill. hardCrossover over every
  factorisation and every block assignment. hardMutations over every window
  shape, offset and bit pattern. Both searches admit into a size-capped
  heap, deduplicated by text or by step count. hardMutations also restores
  its scratch window.
- **The C++ variant** (`cpp/bug.cpp`). The field_t class: constructor,
  operator=, the breadth-first check_path, the deterministic walk of
  calculate, mutate and its cell choice, and the 5-by-5 block crossover
  operator%. Also the text form (operator<< and operator>>) and the
  `std::set<Field>` population ordered by operator<, with its trim loop.

The step oracle `BugAcmp.BugStepsCalculator` is not part of this model. It
is a parameter `oracle: Cells -> int`, an arbitrary function of the grid.
Every random choice (`rnd.nextBoolean`, `rnd.nextInt`, `rand()`) is a
parameter too: a coin per block, the four draws and the coins of a mutation
window, and the draw of a mutated cell.

Modules, one file each: `Wrappers` (Option, Result, errors), `Bits`,
`Decimal`, `JavaInt` (Java int wrap-around, shifts, truncating division),
`Grid`, `Field`, `Heap`, `Blocks` (block tilings of the interior),
`LocalSearch`, `GeneticOperators`, `Survivors` (selection on values),
`Genetic` (the algorithm's class), `StopRule`, `StartName`, `BugWalk`
(field_t), `BugText` (the text form) and `Population` (the set and its trim).

Two behaviours of the code worth knowing:

- create(wall) forces only the entry and the exit open; it does not wall
  the border (src/BugField.java:212-226). The model proves that the result
  is consistent exactly when the border was already walled.
- delete always queues the field (src/BugField.java:83-85). A field whose
  grid was dropped is pooled with no grid, not discarded.

## Model

| member | source | states |
|---|---|---|
| `Grid.BlankConsistent` | src/BugField.java:34-48 | create()'s grid has a wall exactly on the border cells and passes isConsistent |
| `Grid.SoftConsistent` | src/BugField.java:223-226 | the entry and the exit end up open; every other cell keeps its value |
| `Grid.SoftConsistentIdempotent` | src/BugField.java:223-226 | makeSoftConsistent applied twice is the same as applied once |
| `Grid.SoftConsistentKeepsFixedOpen` | src/BugField.java:223-226 | a grid whose entry and exit are already open is left unchanged |
| `Grid.ConsistentAfterSoft` | src/BugField.java:212-238 | after makeSoftConsistent, isConsistent holds if and only if the border is all walls |
| `Grid.WriteWindowKeepsBorder` | src/BugFieldGeneticAlgorithm.java:204-208 | writing a window inside the border keeps a walled border walled, so the created field is consistent |
| `Grid.Encode` | src/BugField.java:176-180 | the layout has n·m bytes |
| `Grid.DecodeEncode` | src/BugField.java:196-210 | reading back the bytes printToZip wrote gives the same grid |
| `Grid.EncodeDecode` | src/BugField.java:171-187 | a stream of n·m wall or empty bytes is exactly what writing its decoded grid produces |
| `Grid.MasksFitInt` | src/BugField.java:100-111 | with m = 31, each row mask is a non-negative int whose bit j is cell j of the row |
| `Grid.MasksEqualIffCellsEqual` | src/BugField.java:121-127 | two grids have equal row masks if and only if they are equal |
| `Grid.FieldTextInjective` | src/BugField.java:134-151 | equal toString texts imply equal grids and equal step counts, so `unique` deduplicates by exact pattern |
| `Grid.CompareSteps` | src/BugField.java:129-132 | compareTo is negative iff this has more steps, zero iff the steps are equal, positive iff fewer |
| `Grid.NewWall` | src/BugFieldUtils.java:168-168 | `new boolean[n][m]` is a fresh grid with every cell open |
| `Grid.CopyCells` | src/BugField.java:74-76 | the row-by-row arraycopy leaves the destination holding the source's grid |
| `Grid.NewWallOf` | src/BugFieldUtils.java:111-114 | the clone of a grid is a fresh array holding that grid |
| `Grid.WriteWindowInPlace` | src/BugFieldUtils.java:189-193 | window cell (top + x, left + y) takes bit x·width + y and every other cell is kept |
| `Grid.WriteWindowRow` | src/BugFieldUtils.java:190-192 | the inner loop sets the cells of window row x from their bits and keeps every other cell |
| `Bits.GetBit` | src/BugFieldUtils.java:19-19 | getBit on an int is 0 or 1, and it is bit (bit mod 32) of the two's-complement mask |
| `Bits.GetBitLong` | src/BugFieldUtils.java:21-21 | getBit on a long is 0 or 1, and it is bit (bit mod 64) of the mask |
| `Bits.CheckBit` | src/BugFieldUtils.java:23-25 | checkBit holds exactly when that bit of the int is 1 |
| `Bits.CheckBitLong` | src/BugFieldUtils.java:27-30 | checkBit on a long holds exactly when that bit is 1 |
| `Bits.ShiftedParity` | src/BugFieldUtils.java:19-19 | `(x >> k) & 1` is bit k of x, for negative x too |
| `Bits.MaskOfBits` | src/BugField.java:105-110 | bit k of a row's mask is cell k, and every higher bit is clear |
| `Bits.MaskOfSnoc` | src/BugField.java:107-109 | one more cell of initMasks adds its weight 2^j when it is a wall |
| `Bits.OrAddsHighBit` | src/BugField.java:108-108 | `masks[i] \|= 1 << j` adds 2^j when only lower bits are set |
| `Bits.MaskOfInjective` | src/BugField.java:121-127 | rows of one length with equal masks are equal |
| `Bits.MasksCoverAssignments` | src/BugFieldUtils.java:188-192 | every assignment of at most 31 bits is read by checkBit from some mask below 2^size |
| `Decimal.NatTextValue` | cpp/bug.cpp:280-280 | the digits written for a count read back to that count |
| `Decimal.ParseInt` | src/BugFieldGeneticAlgorithm.java:27-27 | parseInt succeeds only on an optional sign followed by digits, with a value in the int range |
| `Decimal.IntTextRoundTrip` | src/BugField.java:148-148 | Integer.parseInt reads back the decimal text StringBuilder.append(int) writes |
| `Decimal.IntTextInjective` | src/BugField.java:148-148 | different ints have different decimal texts |
| `JavaInt.Wrap` | src/BugFieldUtils.java:81-81 | the int result of an expression lies in the int range and agrees with the exact value modulo 2^32 |
| `JavaInt.ShiftOne` | src/BugFieldUtils.java:81-81 | `1 << size` is 2^(size mod 32) below 31 and Integer.MIN_VALUE at 31 |
| `JavaInt.DivTruncates` | src/BugFieldGeneticAlgorithm.java:95-95 | Java's quotient truncates toward zero: the remainder is smaller than the divisor in size and has the dividend's sign |
| `Field.Field.constructor` | src/BugField.java:87-98 | BugField(wall) shares the given array, with steps -1, no masks and no file name |
| `Field.Field.Reset` | src/BugField.java:92-98 | constructor() sets steps to -1 and the file name to null, and changes nothing else |
| `Field.Field.MakeSoftConsistent` | src/BugField.java:223-226 | the field's grid becomes SoftConsistent of its old grid, in place |
| `Field.Field.IsConsistent` | src/BugField.java:228-238 | returns true exactly when the border is all walls and the entry and exit are open |
| `Field.Field.RecalculateSteps` | src/BugField.java:212-221 | the grid is opened at the entry and exit, steps is the oracle's value on that grid, and a walled border yields a consistent grid |
| `Field.Field.InitMasks` | src/BugField.java:100-111 | allocates masks on first use only and fills them with the row masks of the current grid |
| `Field.Field.EqualsByMasks` | src/BugField.java:121-127 | true iff the mask arrays are equal, and with current masks iff the grids are equal |
| `Field.Field.PrintToZip` | src/BugField.java:171-187 | records name + ".zip" and writes exactly the column-major encoding of the grid |
| `Field.ColumnBytes` | src/BugField.java:176-180 | the double loop emits Encode of the array's grid |
| `Field.FieldPool.constructor` | src/BugField.java:24-24 | the free list starts empty |
| `Field.FieldPool.GetInstance` | src/BugField.java:64-81 | empty pool: a new field sharing the array. Otherwise the oldest pooled field is polled and reset; it shares the array if it had no grid, else receives a copy in its own buffer |
| `Field.FieldPool.Delete` | src/BugField.java:83-85 | appends exactly the given field to the queue, even when it is already queued; the field keeps its grid array, its cells, masks, steps and name, so whoever still holds that array shares it with the pool |
| `Field.FieldPool.Create` | src/BugField.java:50-55 | getInstance, then recalculateSteps: a fresh field wrapping the argument on an empty pool, else the polled field with its masks. It holds SoftConsistent of the argument, scored by the oracle, and the caller's array is untouched whenever the field got a grid of its own |
| `Field.FieldPool.CreateBlank` | src/BugField.java:34-48 | create() holds the bordered blank grid, is consistent and is scored by the oracle |
| `Field.FieldPool.CreateCopy` | src/BugField.java:57-62 | create(other) as written: same grid and steps, but on an empty pool it shares other's array |
| `Field.FieldPool.CreateCopyOwned` | src/BugField.java:57-62 | create(other) with the copy its callers rely on: the new field never shares other's array |
| `Field.FieldPool.ReadFromZip` | src/BugField.java:196-210 | decodes the bytes column by column, then creates the field (opened and scored) |
| `Field.BestReplacedAsWritten` | src/BugFieldUtils.java:241-243 | with an empty pool at entry, replacing the best field overwrites the base field's grid with the mutant's |
| `Field.BestReplacedOwned` | src/BugFieldUtils.java:241-243 | with the owned copy, the same traffic leaves the base grid untouched |
| `Field.EvictedBaseAsWritten` | src/BugFieldUtils.java:235-243 | with populationSize 1, once the base field is polled from the heap and deleted, replacing the best hands out the base field object itself and copies the mutant's grid into baseWall |
| `Field.EvictedBasePrivate` | src/BugFieldUtils.java:235-243 | with the base grid held in a private copy, the same traffic leaves that copy equal to the base grid and gives the best the mutant's grid |
| `Heap.MinIndex` | src/BugFieldUtils.java:9-9 | finds the first element of least step count |
| `Heap.MinHeap.constructor` | src/BugFieldUtils.java:8-10 | the heap starts empty |
| `Heap.MinHeap.Add` | src/BugFieldUtils.java:120-120 | add puts exactly one more element in the heap |
| `Heap.MinHeap.Peek` | src/BugFieldUtils.java:110-110 | peek gives a held element of least step count |
| `Heap.MinHeap.Poll` | src/BugFieldUtils.java:122-122 | poll removes and returns one element of least step count, or null when the heap is empty |
| `Heap.MinHeap.ContainsSteps` | src/BugFieldUtils.java:215-220 | the scan finds a held field with step count s exactly when one exists |
| `Heap.MinHeap.Fill` | src/BugFieldUtils.java:12-16 | positions below size get non-increasing step counts; missing elements leave nulls at the low end; the least elements are polled first, so every element left in the heap has at least the steps of every filled one; nothing is lost |
| `Heap.FillStep` | src/BugFieldUtils.java:13-14 | one poll placed in front of the filled part keeps fill's invariant |
| `Blocks.BlockSizeIsCeiling` | src/BugFieldUtils.java:65-66 | `(inner - 1) / count + 1` is the ceiling of inner / count |
| `Blocks.StartCountFits` | src/BugFieldUtils.java:73-74 | blocks of that size have at most `count` starts along the side |
| `Blocks.StartBelow` | src/BugFieldUtils.java:73-74 | start 1 + t·size is inside exactly for the first StartCount values of t |
| `Blocks.IndexInRange` | src/BugFieldUtils.java:86-95 | every interior cell has a block number below the block count |
| `Blocks.InBlockIff` | src/BugFieldUtils.java:86-95 | the blocks tile the interior exactly: a cell is in block k if and only if k is its block number |
| `Blocks.BlockStartInside` | src/BugFieldUtils.java:75-76 | every block starts inside the interior |
| `Blocks.PartialStep` | src/BugFieldUtils.java:86-95 | writing block k from its parent extends the first k blocks to k + 1 |
| `Blocks.PartialEnds` | src/BugFieldUtils.java:85-95 | no block written is the base grid; all blocks written is the crossed grid |
| `Blocks.CrossedBorder` | src/BugFieldUtils.java:85-97 | a block crossover keeps the walled border, so the created child is consistent |
| `Blocks.WriteBlock` | src/BugFieldUtils.java:90-94 | the copy loop of one block writes exactly that block, clipped at the interior's edge |
| `Blocks.StartOf` | src/BugFieldUtils.java:73-77 | block ti·cols + tj starts at row 1 + ti·height and column 1 + tj·width |
| `Blocks.CountFits` | src/BugFieldUtils.java:68-80 | a factorisation's tiling has at most nCount·mCount blocks |
| `Blocks.WriteRowStarts` | src/BugFieldUtils.java:74-77 | the inner loop writes the starts of one row of blocks, in order |
| `Blocks.ComputeBlockStarts` | src/BugFieldUtils.java:70-80 | blockStarts holds every block's start in order; startIndex never passes nCount·mCount |
| `LocalSearch.MasksEnumerate` | src/BugFieldUtils.java:182-192 | with at most 30 bits, masks 0 .. (1 << size) - 1 produce every bit assignment |
| `LocalSearch.PicksAll` | src/BugFieldUtils.java:85-88 | all picks are one parent exactly for mask 0 or mask 2^size - 1 |
| `LocalSearch.CrossoverMasksMixed` | src/BugFieldUtils.java:81-88 | masks 1 .. maskLimit - 1 are exactly the assignments in which neither parent supplies every block |
| `LocalSearch.VerboseCrashIff` | src/BugFieldUtils.java:81-100 | verbosePart is 0 while the mask loop runs exactly for 2 or 3 blocks (size mod 32), so `mask % verbosePart` divides by zero |
| `LocalSearch.Factorisation` | src/BugFieldUtils.java:58-60 | both factors of an iteration are at least 1 |
| `LocalSearch.FactorisationStable` | src/BugFieldUtils.java:58-63 | maxCount / nCount gives mCount back, so a skipped iteration repeats a whole factorisation |
| `LocalSearch.FactorisationMonotone` | src/BugFieldUtils.java:58-63 | nCount never decreases over the iterations |
| `LocalSearch.FactorisationFits` | src/BugFieldUtils.java:58-68 | nCount·mCount is at most maxCount, and so is the number of blocks |
| `LocalSearch.CrossedOnWalledBase` | src/BugFieldUtils.java:85-95 | on any walled childWall the crossing equals the one over the blank grid |
| `LocalSearch.WriteCrossing` | src/BugFieldUtils.java:86-95 | the block loop of a mask crosses the parents into childWall by the mask's bits |
| `LocalSearch.UniqueAfterAdd` | src/BugFieldUtils.java:119-120 | after an add, `unique` names only held fields |
| `LocalSearch.Evicted` | src/BugFieldUtils.java:121-124 | the polled minimum after adding a better child is an old held field, never the child |
| `LocalSearch.UniqueAfterEvict` | src/BugFieldUtils.java:121-124 | removing the evicted text keeps `unique` naming only held fields |
| `LocalSearch.AddCapped` | src/BugFieldUtils.java:119-124 | the child is held, the heap grows by one only when it had room, and `unique` names only held fields |
| `LocalSearch.AdmitUnique` | src/BugFieldUtils.java:110-128 | admitted iff there is room or the child beats the minimum, and its text is new; an admitted better child becomes the best |
| `LocalSearch.CrossChild` | src/BugFieldUtils.java:85-98 | the child of a mask is a consistent crossing of the parents, scored by the oracle |
| `LocalSearch.CrossFactorisation` | src/BugFieldUtils.java:59-151 | one factorisation keeps the crossover state and never lowers the best; it fails with a division by zero exactly in verbose mode on 2 or 3 blocks |
| `LocalSearch.CrossStateAdmits` | src/BugFieldUtils.java:110-128 | an offer keeps the heap bounded and non-empty, all held fields from the crossover, and the best at least every held one |
| `LocalSearch.Search` | src/BugFieldUtils.java:51-155 | each factorisation is tried exactly once, in increasing nCount; the state is kept; verbose fails iff some factorisation gives 2 or 3 blocks |
| `LocalSearch.HardCrossover` | src/BugFieldUtils.java:32-48 | populationSize results in non-increasing steps, the last one present, every one a parent or consistent crossing; fails exactly as Search does |
| `LocalSearch.AddKeepsDistinct` | src/BugFieldUtils.java:215-232 | adding a mutant whose step count no held field has keeps step counts pairwise distinct |
| `LocalSearch.PollSparesMutant` | src/BugFieldUtils.java:235-239 | the eviction after adding a better mutant removes an old field, never the mutant |
| `LocalSearch.AddDistinct` | src/BugFieldUtils.java:232-239 | the mutant is held, the size stays capped, and step counts stay pairwise distinct |
| `LocalSearch.AdmitDistinct` | src/BugFieldUtils.java:208-252 | admitted iff possibleAdd holds and no held field has its step count; an admitted better mutant becomes the best |
| `LocalSearch.WriteWindowAgree` | src/BugFieldUtils.java:189-193 | writing a whole window forgets what the window held before |
| `LocalSearch.MutantAgrees` | src/BugFieldUtils.java:189-195 | the created mutant differs from the base only inside the window |
| `LocalSearch.RestoreWindow` | src/BugFieldUtils.java:257-261 | after the restore loop, mutantWall equals baseWall again |
| `LocalSearch.TryMask` | src/BugFieldUtils.java:188-254 | one mask keeps the mutation state and never lowers the best; the scratch grid differs from the base only inside the window |
| `LocalSearch.MutStateAdmits` | src/BugFieldUtils.java:208-252 | an offer keeps the heap bounded, non-empty, of window mutants with distinct step counts, and the best at least every one |
| `LocalSearch.SearchOffset` | src/BugFieldUtils.java:186-262 | every mask at one offset keeps the state, and the scratch grid is the base again afterwards |
| `LocalSearch.HardMutations` | src/BugFieldUtils.java:157-276 | populationSize results in strictly decreasing steps, the last one present, each the base or a window mutant, none above the best; the best is at least the base |
| `LocalSearch.Collect` | src/BugFieldUtils.java:273-275 | the fill of a fresh array: non-increasing, from the heap, distinct elements at distinct positions |
| `Genetic.SlotCount` | src/BugFieldGeneticAlgorithm.java:89-89 | the work array has at least P slots |
| `Genetic.SlotOf` | src/BugFieldGeneticAlgorithm.java:218-226 | the slot of pair (i, j) lies in P .. length - 1 |
| `Genetic.SlotBounds` | src/BugFieldGeneticAlgorithm.java:218-222 | parent i's row of slots lies within the child slots |
| `Genetic.RowStartEnd` | src/BugFieldGeneticAlgorithm.java:218-228 | the rows of slots end exactly at P + P(P+1)/2 |
| `Genetic.SlotOfOrder` | src/BugFieldGeneticAlgorithm.java:218-228 | pairs in loop order get strictly increasing slots, so no slot is written twice |
| `Genetic.SlotOfOnto` | src/BugFieldGeneticAlgorithm.java:218-228 | every child slot is the slot of some pair |
| `Genetic.ChildConsistent` | src/BugFieldGeneticAlgorithm.java:219-226 | every crossover child, and every mutant of a walled parent, is consistent and scored |
| `Genetic.ChildrenFillAll` | src/BugFieldGeneticAlgorithm.java:217-231 | once every row is placed, every slot P .. length - 1 holds a field |
| `Genetic.ChildFills` | src/BugFieldGeneticAlgorithm.java:217-231 | slot k holds the child of its pair |
| `Genetic.RowStep` | src/BugFieldGeneticAlgorithm.java:222-227 | writing the next child of row i keeps the earlier ones of the row in place |
| `Genetic.ChildStored` | src/BugFieldGeneticAlgorithm.java:223-226 | storing the child of (i, j) in its slot extends row i to j |
| `Genetic.RowsStep` | src/BugFieldGeneticAlgorithm.java:218-228 | a finished row i extends the rows placed before it |
| `Genetic.PickNext` | src/BugFieldGeneticAlgorithm.java:240-241 | recording a leading position advances the pick loop's invariant |
| `Genetic.SkipNext` | src/BugFieldGeneticAlgorithm.java:240-240 | skipping a repeated step count keeps the invariant |
| `Genetic.PicksDone` | src/BugFieldGeneticAlgorithm.java:239-243 | when the pick loop stops, bestSelected and selectedCount are the picks |
| `Genetic.GeneticAlgorithm.constructor` | src/BugFieldGeneticAlgorithm.java:85-90 | bestSelected has P zeros; the work array has P + (P+1)P/2 empty slots |
| `Genetic.GeneticAlgorithm.ChildGenerating` | src/BugFieldGeneticAlgorithm.java:217-231 | the parents' slots are only read, and every pair's child is placed in its slot |
| `Genetic.GeneticAlgorithm.ChildRow` | src/BugFieldGeneticAlgorithm.java:219-227 | the slots of parent i are filled with its mutant and its crossovers; nothing else changes |
| `Genetic.GeneticAlgorithm.PlaceChild` | src/BugFieldGeneticAlgorithm.java:223-226 | writes the child of (i, j) into its slot and nowhere else |
| `Genetic.GeneticAlgorithm.ChildOf` | src/BugFieldGeneticAlgorithm.java:220-224 | for i = j, the child is mutation(parent, false); for i < j, mutation(crossover(i, j), true) |
| `Genetic.GeneticAlgorithm.Selection` | src/BugFieldGeneticAlgorithm.java:233-267 | the new slots, picks and released fields are those of the exchanging Select on the old work array and picks |
| `Genetic.GeneticAlgorithm.PickLeaders` | src/BugFieldGeneticAlgorithm.java:238-243 | bestSelected and selectedCount are what the pick loop leaves on the sorted array |
| `Genetic.GeneticAlgorithm.PickOne` | src/BugFieldGeneticAlgorithm.java:241-241 | sets exactly entry selectedCount of bestSelected |
| `Genetic.GeneticAlgorithm.Compaction` | src/BugFieldGeneticAlgorithm.java:245-256 | exchanging slot i with slot bestSelected[i] for each of the selectedCount picks gives SwapPicked of the sorted array |
| `Genetic.GeneticAlgorithm.Exchange` | src/BugFieldGeneticAlgorithm.java:252-253 | slots i and j trade their fields; no other slot changes |
| `Genetic.GeneticAlgorithm.ReleaseTail` | src/BugFieldGeneticAlgorithm.java:258-264 | the fields still present in slots P .. length - 1 are released, in order |
| `GeneticOperators.Scoring` | src/BugField.java:50-55 | a created field is opened at the entry and the exit and scored, and it is consistent when its border is walled |
| `GeneticOperators.CreateFrom` | src/BugFieldGeneticAlgorithm.java:187-187 | create(wall) on a fresh buffer scores that buffer's opened grid |
| `GeneticOperators.BorderedWall` | src/BugFieldGeneticAlgorithm.java:160-166 | the fresh wall has exactly its four border lines set |
| `GeneticOperators.Blocks35Shape` | src/BugFieldGeneticAlgorithm.java:169-174 | 3-by-5 blocks give 7 block rows, 6 block columns, 42 blocks |
| `GeneticOperators.Crossover` | src/BugFieldGeneticAlgorithm.java:157-188 | the child is the 3-by-5 block crossing on the bordered grid (first when the coin is true), scored |
| `GeneticOperators.CrossRow` | src/BugFieldGeneticAlgorithm.java:174-184 | one row of blocks extends the crossing by six blocks |
| `GeneticOperators.CrossoverCells` | src/BugFieldGeneticAlgorithm.java:160-185 | the child is consistent; each other interior cell comes from first or second by the coin of its block at (1 + 3a, 1 + 5b) |
| `GeneticOperators.MutationWindow` | src/BugFieldGeneticAlgorithm.java:191-195 | the window's height is in [1, n/3] and width in [1, m/3]; it lies inside the border |
| `GeneticOperators.Mutation` | src/BugFieldGeneticAlgorithm.java:190-215 | writes the window into the field's own buffer or into a clone; with mutateSelf false the parent's grid is untouched |
| `GeneticOperators.MutationOutsideWindow` | src/BugFieldGeneticAlgorithm.java:204-208 | outside the window only the entry and exit may change; a walled border gives a consistent child |
| `GeneticOperators.MutationInsideWindow` | src/BugFieldGeneticAlgorithm.java:204-208 | cell (startN + x, startM + y) takes coin x·sizeM + y |
| `Survivors.InsertPermutes` | src/BugFieldGeneticAlgorithm.java:234-234 | one insertion adds exactly its element |
| `Survivors.InsertSorted` | src/BugFieldGeneticAlgorithm.java:234-234 | inserting into a descending array keeps it descending |
| `Survivors.SortDescCorrect` | src/BugFieldGeneticAlgorithm.java:234-234 | sorting by compareTo yields a descending permutation of the work array |
| `Survivors.SortedUnchanged` | src/BugFieldGeneticAlgorithm.java:234-234 | the sort leaves an already sorted array as it is (it is stable) |
| `Survivors.LeadersExact` | src/BugFieldGeneticAlgorithm.java:239-243 | the picks are exactly the leading positions, in increasing order |
| `Survivors.LeadersPrefix` | src/BugFieldGeneticAlgorithm.java:239-239 | a shorter scan picks a prefix of a longer one |
| `Survivors.LeaderIsFirst` | src/BugFieldGeneticAlgorithm.java:240-240 | in a sorted array a leading position is the first of its step count |
| `Survivors.LeadersDecrease` | src/BugFieldGeneticAlgorithm.java:239-243 | the step counts at the picked positions strictly decrease |
| `Survivors.LeaderOfEach` | src/BugFieldGeneticAlgorithm.java:239-243 | every step count present has its leading position among the picks |
| `Survivors.CompactFront` | src/BugFieldGeneticAlgorithm.java:245-256 | with valid picks, the rounds move the picked fields to the front, clear their old slots and release the unpicked ones |
| `Survivors.CompactStep` | src/BugFieldGeneticAlgorithm.java:246-255 | one round of the compaction extends that description by one slot |
| `Survivors.PickedGood` | src/BugFieldGeneticAlgorithm.java:238-243 | the first selectedCount picks are increasing leading positions, each at least its own index |
| `Survivors.LeadersGood` | src/BugFieldGeneticAlgorithm.java:239-243 | the first k leading positions increase, each at least its own index, and each is a leading position |
| `Survivors.SelectSurvivors` | src/BugFieldGeneticAlgorithm.java:233-267 | slots 0..k-1 hold the picked leading fields, one per step count; every slot holds a field and the slots are a permutation of the sorted array; the fields of slots P..length-1 are released, in order |
| `Survivors.BoundedSurvivors` | src/BugFieldGeneticAlgorithm.java:245-256 | with the loop bounded by selectedCount: slots 0..k-1 hold the picked fields, the other slots below P keep their field or are cleared when picked, and the unpicked fields outside are released |
| `Survivors.SwapPickedPermutes` | src/BugFieldGeneticAlgorithm.java:245-256 | exchanges over the picked slots only permute the work array |
| `Survivors.SwapFront` | src/BugFieldGeneticAlgorithm.java:245-256 | after n exchanges slots 0..n-1 hold the first n picked fields, and every later picked slot still holds its own field |
| `Survivors.SwapPresent` | src/BugFieldGeneticAlgorithm.java:245-256 | exchanges leave no slot empty |
| `Survivors.UnpickedAllPresent` | src/BugFieldGeneticAlgorithm.java:258-264 | with every slot filled, the release loop releases exactly the fields of slots P..length-1, in order |
| `Survivors.SurvivorsDistinct` | src/BugFieldGeneticAlgorithm.java:233-243 | the survivors have strictly decreasing steps, and below P of them means every step count is present |
| `Survivors.AsWrittenAgrees` | src/BugFieldGeneticAlgorithm.java:245-256 | with at least P distinct step counts the loop over P slots and the loop bounded by selectedCount give the same selection |
| `Survivors.CorrectedAgrees` | src/BugFieldGeneticAlgorithm.java:245-256 | with at least P distinct step counts the exchanging selection fills slots 0..P-1 exactly as the loop as written does |
| `Survivors.StaleSelectionClearsBest` | src/BugFieldGeneticAlgorithm.java:245-256 | P = 2 with one step count: the loop as written empties slot 0, the exchanging selection fills slots 0 and 1 |
| `Survivors.BoundedLeavesGap` | src/BugFieldGeneticAlgorithm.java:245-256 | P = 3 and steps [a, a, b, b, b, b, b, b, b] with a > b: the picks are [0, 2]; the loop bounded by selectedCount leaves slot 2 empty, the loop as written empties slot 0, the exchanging selection fills slots 0..2 |
| `StopRule.FilterStopSizeIsCeiling` | src/BugFieldGeneticAlgorithm.java:95-95 | filterStopSize is ceil(P·pct/100) for P·pct ≥ 1 |
| `StopRule.FilterStopSizeAtZero` | src/BugFieldGeneticAlgorithm.java:95-95 | with P·pct = 0 the truncating quotient gives filterStopSize 1 |
| `StopRule.FilterStopIndexOfConstants` | src/BugFieldGeneticAlgorithm.java:95-96 | P = 20 and 10 percent give filterStopSize 2 and filterStopIndex 17 |
| `StopRule.FilterStopIndexInRange` | src/BugFieldGeneticAlgorithm.java:96-96 | fields[filterStopIndex] is a population slot exactly when the share leaves a field behind it |
| `StopRule.ProcessStop` | src/BugFieldGeneticAlgorithm.java:95-143 | with filterStopIndex computed from P and the percentage: the loop breaks at the first iteration whose test fires, throws ArrayIndexOutOfBounds at the first iteration whose filter test reads outside the work array, and otherwise runs on |
| `StopRule.IterateUntilStop` | src/BugFieldGeneticAlgorithm.java:101-143 | the same outcome for a given index and array length; every earlier iteration neither breaks nor throws |
| `StopRule.QuietStep` | src/BugFieldGeneticAlgorithm.java:134-142 | an iteration that neither breaks nor throws extends the run of such iterations |
| `StopRule.SingleFieldIndex` | src/BugFieldGeneticAlgorithm.java:95-96 | with P = 1, any percentage from 1 to 100 gives filterStopIndex -1 |
| `StopRule.FullShareIndex` | src/BugFieldGeneticAlgorithm.java:95-96 | at 100 percent, every population gives filterStopIndex -1 |
| `StopRule.SingleFieldCrashes` | src/BugFieldGeneticAlgorithm.java:134-137 | with P = 1, reaching the filter test throws |
| `StopRule.ConstantsNeverCrash` | src/BugFieldGeneticAlgorithm.java:134-137 | with the program's 20 fields and 10 percent the read at line 137 never throws |
| `StopRule.ChangedMeans` | src/BugFieldGeneticAlgorithm.java:101-114 | changed holds iff the input beat the start field or some iteration so far improved the best |
| `StopRule.BestBefore` | src/BugFieldGeneticAlgorithm.java:105-111 | bestSteps at the top of an iteration is the previous iteration's best |
| `StopRule.DeltaCounts` | src/BugFieldGeneticAlgorithm.java:104-127 | lastUpdateIterationDelta counts the iterations since the last improvement (k + 1 before any) |
| `StopRule.BreakNeedsQuiet` | src/BugFieldGeneticAlgorithm.java:134-142 | a break needs some improvement, then more than filterStopIterations quiet iterations |
| `StartName.IndexOf` | src/BugFieldGeneticAlgorithm.java:22-22 | indexOf gives the first position of the character, or -1 when it is absent |
| `StartName.ScanStep` | src/BugFieldGeneticAlgorithm.java:28-31 | a greater score makes the name the best; anything else keeps the best |
| `StartName.ParseFails` | src/BugFieldGeneticAlgorithm.java:27-27 | a candidate whose prefix is not an int makes the scan throw |
| `StartName.StartFieldName` | src/BugFieldGeneticAlgorithm.java:8-35 | a given name comes back; else NumberFormatException iff a prefix does not parse, else the first name of greatest score ≥ 0, or null |
| `StartName.FieldScore` | src/BugFieldGeneticAlgorithm.java:16-27 | skips a name unless it ends in ".zip" and has a space, then parses the prefix |
| `BugWalk.ReachStep` | cpp/bug.cpp:85-93 | a free neighbour of a reachable cell is reachable |
| `BugWalk.ClosedHoldsReachable` | cpp/bug.cpp:81-94 | a set closed under free neighbours holds every cell reachable from its members |
| `BugWalk.CellsBound` | cpp/bug.cpp:81-93 | distinct cells number at most x_size·y_size, so `_q` never overflows |
| `BugWalk.QueuedAdd` | cpp/bug.cpp:91-92 | queueing a new reachable free cell keeps queue and stamps consistent |
| `BugWalk.Enqueue` | cpp/bug.cpp:86-92 | queueing a free, unmarked neighbour keeps the search invariant |
| `BugWalk.Skip` | cpp/bug.cpp:88-89 | a wall or an already marked neighbour keeps the search invariant |
| `BugWalk.MarkedClosed` | cpp/bug.cpp:81-94 | once the queue is exhausted, the marked cells take in every free neighbour |
| `BugWalk.SearchDone` | cpp/bug.cpp:81-96 | at the end, the exit carries the stamp iff it is reachable from the entry |
| `BugWalk.FieldT.CheckPath` | cpp/bug.cpp:71-97 | false when wall[1][1]; otherwise true iff the exit is reachable through free cells. The stamp advances only when the search runs |
| `BugWalk.FieldT.Dequeue` | cpp/bug.cpp:81-83 | one turn of the queue loop processes the next queued cell |
| `BugWalk.FieldT.Visit` | cpp/bug.cpp:85-93 | the four directions of a cell extend the search invariant to it |
| `BugWalk.FieldT.VisitStep` | cpp/bug.cpp:86-92 | one direction queues its neighbour when it is free and not yet stamped |
| `BugWalk.Inc` | cpp/bug.cpp:115-115 | `_counts[x][y]++` raises exactly that count by one |
| `BugWalk.MinFromIsLeast` | cpp/bug.cpp:117-123 | min_cnt is at most every free neighbour's count and at most 1e18, and equals one of them or 1e18 |
| `BugWalk.FirstFromIsFirst` | cpp/bug.cpp:131-139 | the scan returns the first qualifying direction, and -1 only when none qualifies |
| `BugWalk.SelectDirRule` | cpp/bug.cpp:125-140 | the current direction if it qualifies, else the first qualifying one in dx/dy order |
| `BugWalk.Step` | cpp/bug.cpp:114-145 | a step lands on a free cell of the walled grid and adds one to result |
| `BugWalk.StepRule` | cpp/bug.cpp:114-145 | a step moves to an adjacent free cell of least visit count, keeping the direction when it qualifies |
| `BugWalk.RunState` | cpp/bug.cpp:114-146 | the walk stays on free cells, and its step count only grows |
| `BugWalk.NeverStuck` | cpp/bug.cpp:118-144 | with a path, a walk that has not arrived always has a direction to take |
| `BugWalk.RunReaches` | cpp/bug.cpp:114-146 | a walk that arrives with some fuel arrives at the same state with any more fuel |
| `BugWalk.RunStaysReachable` | cpp/bug.cpp:110-146 | every cell the walk stands on is reachable from the entry |
| `BugWalk.WalkZeroIffNoPath` | cpp/bug.cpp:99-102 | calculate yields 0 without a path; with one it takes at least one step, since the exit is elsewhere |
| `BugWalk.FieldT.Calculate` | cpp/bug.cpp:99-149 | calculate returns the walk's step count, 0 without a path; result and `_counts` hold the walk's final state |
| `BugWalk.FieldT.RunWalk` | cpp/bug.cpp:110-146 | the while loop leaves result, the counts and the position at the walk's final state |
| `BugWalk.FieldT.WalkStep` | cpp/bug.cpp:115-145 | one turn of the loop follows one step of the walk |
| `BugWalk.FieldT.ResetCounts` | cpp/bug.cpp:104-108 | every count becomes 0 |
| `BugWalk.FieldT.MinNeighbour` | cpp/bug.cpp:117-123 | min_cnt is MinCount of the current counts |
| `BugWalk.FieldT.SelectDirection` | cpp/bug.cpp:125-140 | selected_dir is SelectDir of the current counts |
| `BugWalk.FieldT.FirstDirection` | cpp/bug.cpp:131-139 | the fallback scan finds the first qualifying direction |
| `BugWalk.FieldT.constructor` | cpp/bug.cpp:37-57 | a wall exactly on the border, all else open, and result is the walk on that grid |
| `BugWalk.FieldT.Assign` | cpp/bug.cpp:59-69 | operator= copies every wall cell and result |
| `BugWalk.GenCell` | cpp/bug.cpp:218-225 | `_gen_cell` is in [1, (x_size-2)(y_size-2) - 2] |
| `BugWalk.Flip` | cpp/bug.cpp:231-231 | `wall[x][y] ^= true` changes exactly that cell |
| `BugWalk.MutatedCellInterior` | cpp/bug.cpp:227-231 | the mutated cell is interior and is neither the entry nor the exit |
| `BugWalk.MutatedCellOnto` | cpp/bug.cpp:218-231 | every other interior cell is the mutated cell of some draw |
| `BugWalk.FlipKeepsConsistent` | cpp/bug.cpp:227-231 | mutating a consistent grid leaves it consistent |
| `BugWalk.FieldT.Mutate` | cpp/bug.cpp:227-235 | mutate flips exactly the drawn cell |
| `BugWalk.Blocks55Shape` | cpp/bug.cpp:358-364 | 5-by-5 blocks give 4 block rows, 6 block columns, 24 blocks |
| `BugWalk.Cross` | cpp/bug.cpp:360-379 | operator%'s child is the 5-by-5 block crossing on a bordered grid (left when the coin is true) |
| `BugWalk.CrossBlocks` | cpp/bug.cpp:363-373 | the block loops write that crossing into the child's grid |
| `BugWalk.CrossRow` | cpp/bug.cpp:364-372 | one row of blocks extends the crossing by six blocks |
| `BugWalk.CrossCells` | cpp/bug.cpp:363-373 | border cells are walls; each interior cell comes from left or right by its block's coin |
| `BugText.SkipSpace` | cpp/bug.cpp:294-300 | `>>` skips exactly the white space before the next token |
| `BugText.ReadWord` | cpp/bug.cpp:300-300 | `in >> row` reads a word inside the text |
| `BugText.WordOfRow` | cpp/bug.cpp:283-286 | a written row is read back as one word of Y_SIZE characters |
| `BugText.RowOfText` | cpp/bug.cpp:301-303 | that word gives the row back ('#' is a wall) |
| `BugText.RowsRoundTrip` | cpp/bug.cpp:298-304 | the rows written are read back in order |
| `BugText.ResultRoundTrip` | cpp/bug.cpp:294-294 | `in >> score` reads back the written result when it fits an int |
| `BugText.PrintRead` | cpp/bug.cpp:279-309 | reading what operator<< wrote gives back the grid, when the result fits an int |
| `BugText.LargeResultNotRead` | cpp/bug.cpp:292-296 | a result above the int range is written but not read; the field stays as it was |
| `BugText.PrintInjective` | cpp/bug.cpp:279-290 | equal texts mean equal grids and equal results, for every uint64 result, including those above the int range |
| `BugText.Write` | cpp/bug.cpp:279-290 | operator<< writes the result line and then each row with its line break |
| `BugText.WriteRow` | cpp/bug.cpp:283-286 | the inner loop writes one row and its line break |
| `BugText.Load` | cpp/bug.cpp:292-309 | no int: nothing changes; a malformed row: an error; otherwise the grid is stored and result recalculated |
| `BugText.ReadShape` | cpp/bug.cpp:298-304 | what is read has X_SIZE rows of Y_SIZE cells |
| `BugText.StoreCells` | cpp/bug.cpp:298-304 | the cell loop stores the read grid |
| `Population.Insert` | cpp/bug.cpp:461-461 | set insert keeps one field per result; the field goes in iff its result is new, and the order stays ascending |
| `Population.InsertAll` | cpp/bug.cpp:465-468 | range insert: ascending, the results are the union, and members come from the set or the range |
| `Population.Limit` | cpp/bug.cpp:470-470 | population_size compared as size_t: taken modulo 2^64 |
| `Population.BestIsGreatest` | cpp/bug.cpp:472-472 | `*fields.rbegin()` has the greatest result of the set |
| `Population.TopIsBest` | cpp/bug.cpp:464-470 | the top k of an ordered set has min(k, size) members, each above every member left out |
| `Population.InsertAllSnoc` | cpp/bug.cpp:458-461 | inserting a range and then one more field is inserting the longer range |
| `Population.InsertPrefix` | cpp/bug.cpp:458-461 | the set of a brood's first j + 1 children is one insert on that of its first j |
| `Population.Trim` | cpp/bug.cpp:470-470 | the trim keeps the top min(size, limit) fields and erases only fields below every kept one |
| `Population.NextGeneration` | cpp/bug.cpp:455-472 | the new set is the top min(limit, size) of the old set merged with new_fields, the union of each brood set's top five; it is ascending and within the limit; its best beats every old field and every child |
| `Population.AddBrood` | cpp/bug.cpp:457-465 | new_fields gains the range insert of the top five of the brood's set; every child of the brood is matched or beaten by a result they bring in |
| `Population.BroodSet` | cpp/bug.cpp:457-462 | a brood's set is the range insert of its children, so it holds exactly their results |
| `Population.BroodsStep` | cpp/bug.cpp:456-466 | one more brood keeps the loop's invariant |
| `Population.BestOfMerge` | cpp/bug.cpp:468-468 | the merged set's best is at least every field and every child |
| `Population.BroodCovered` | cpp/bug.cpp:464-465 | the best of a brood's set is among its top five |

## Left out

- I/O is not modelled: files, directories, zip and text files, and console output. printToZip and readFromZip are modelled on the byte stream only; operator<< and operator>> on the text only; getStartFieldName on a given list of names.
- The file names printToTmp and printToPopulation use (getFileName with hashCode) and removeZip are not modelled. They touch only the file system.
- The step oracle BugAcmp.BugStepsCalculator is a parameter. BugAcmp's WALL and EMPTY characters for toString are taken as '#' and '.', as in the C++ code.
- Randomness is taken as parameters (draws and coins). The model does not state the distributions.
- simulated_annealing, connect and randomize are not modelled: floating point and `exp`, and a Dijkstra search over random costs.
- initialize_fields, generate_winners, both main functions and the outer loop of generate_winner are not modelled. They are drivers that do not terminate or that only do I/O.
- process of the genetic algorithm is modelled only through its stopping rule. Copying the input in and out, the first sort, and the per-iteration create, print and delete are driver code.
- BugWalk.FieldT.Calculate: the walk runs for at most `fuel` steps and yields None when the fuel runs out, because the C++ loop's termination is not proved. Counts stay below 1e18 (`fuel <= Cap`), so the uint64 counters and min_cnt never wrap.
- BugWalk.FieldT.CheckPath: the `uint` stamp `_check_path_iteration` is an unbounded int; its wrap-around after 2^32 searches is not modelled.
- BugWalk.FieldT.Mutate: the state after the flip, before connect and calculate (connect is not modelled).
- BugWalk.Cross: the child before connect; its result is the blank grid's walk, from the child's constructor.
- BugText.Load: stops with IndexOutOfBounds before writing when the read grid has an open border cell. The C++ code writes the grid and runs out of bounds only if the search reaches that cell.
- BugText.Load: a row word shorter than Y_SIZE - 1 characters is Malformed, with nothing written. The C++ code has already written the earlier rows when it reads that word out of bounds.
- Field.FieldPool.Delete: requires the field's grid to be n-by-m or absent. Every grid the program makes is SITE_N by SITE_M, so this holds for every call, but delete itself does not check it.
- StopRule.ProcessStop: the product populationSize * filterStopPercentage and the work array's length are exact. Their int overflow for huge values is not modelled. The steps at fields[filterStopIndex] are a given observation, used only when the index is inside the array.
- BugText.ReadInt: reads only ASCII digits with an optional sign. Locales and hexadecimal input are not modelled.
- Decimal.ParseInt: reads only ASCII digits; Integer.parseInt also accepts other Unicode decimal digits.
- Genetic.SlotCount: P + (P+1)P/2 is exact; Java's int overflow for very large P is not modelled.
- JavaInt.Div: the overflow of Integer.MIN_VALUE / -1 is not modelled; the program never divides by a negative number.
- Survivors.SortDesc: Arrays.sort is modelled by a stable insertion sort. Arrays.sort on objects is stable too, so both give the same order; its internals are not modelled.
- The heap is modelled as a sequence whose order carries no meaning. PriorityQueue's array layout, and which of several equal minima poll returns, are not modelled.
- The searches hold fields as values (grid and step count). Admitted fields are copies, as the cloning in the source makes them. Pool traffic inside the searches is modelled only by Field.BestReplacedAsWritten, Field.BestReplacedOwned, Field.EvictedBaseAsWritten and Field.EvictedBasePrivate.
- LocalSearch.HardMutations: reads a fixed base grid throughout. This is the corrected program of Findings rows 2 and 3, where baseWall is never handed out by the pool. The source's overwriting of baseWall once the base field is deleted, and the aliasing behind it, are not captured here.
- LocalSearch.TryMask: compares against a fixed base grid. It assumes, as HardMutations does, that baseWall is never handed out by the pool and overwritten.
- LocalSearch.SearchOffset: restores the window from a fixed base grid. It assumes, as HardMutations does, that baseWall is never handed out by the pool and overwritten.
- The release of fields in selection is the list of released fields; their removeZip and delete into the pool are not modelled.
- Population.NextGeneration: the broods (the children of operator% and mutate for each left field) are given as parameters.

## Findings

| source | as written | input that shows it | evidently intended | confidence | as-written member | corrected member |
|---|---|---|---|---|---|---|
| src/BugFieldGeneticAlgorithm.java:245-256 | the compaction loop runs over all P slots. It reads bestSelected entries that this round's pick loop did not write. Each move also leaves its source slot null, and that slot can lie below P | P = 2 and a work array of five fields with one step count: only position 0 is picked, and a fresh bestSelected is [0, 0]. Round 1 moves slot 0 to slot 1 and leaves slot 0 null, which line 111 then reads. Bounding the loop by selectedCount is not enough: P = 3 and steps [10, 10, 9, 9, 9, 9, 9, 9, 9] pick [0, 2], round 1 moves slot 2 to slot 1 and leaves slot 2 null, which line 131 reads | slots 0..P-1 hold the picked fields and then other fields: for each of the selectedCount picks, exchange slot i with slot bestSelected[i]; then release slots P..length-1 | not executed | `Survivors.StaleSelectionClearsBest`, `Survivors.BoundedLeavesGap` | `Survivors.SelectSurvivors` |
| src/BugFieldUtils.java:163-243 | create(baseField) on an empty pool returns a field that shares baseWall. On the first improvement that field is deleted, and create(mutantField) polls it and copies the mutant into baseWall | hardMutations entered with an empty pool, and a mutant that beats the base | create(other) gives the new field a grid of its own | not executed | `Field.BestReplacedAsWritten` | `Field.BestReplacedOwned` |
| src/BugFieldUtils.java:235-243 | with populationSize 1 the heap overflows at the first mutant that beats the base. poll removes the base field, whose grid is baseWall, and delete puts it in the pool. The next create (line 243, or line 195 for the next mask) polls it and copies another grid into baseWall, so the restore at lines 257-261 writes a mutant's cells back instead of the base's | hardMutations with populationSize 1 and a mutant that beats the base | baseWall stays the base grid throughout: the restore reads a private copy that the pool never hands out | not executed | `Field.EvictedBaseAsWritten` | `Field.EvictedBasePrivate` |
