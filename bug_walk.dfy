/**
 * The C++ field_t<21, 31> of cpp/bug.cpp: the maze, its BFS path check
 * (check_path) and the deterministic bug walk that counts the steps from the
 * entry (1, 1) to the exit (19, 29) (calculate). The walk moves to a free
 * neighbour visited least often, keeping its direction when it can.
 */
module BugWalk {
  import opened Wrappers
  import opened Grid
  import opened Bits
  import opened Blocks

  // ---------------------------------------------------------------------
  // Moves and reachability.

  /** dx = {1, 0, -1, 0} and dy = {0, 1, 0, -1}. */
  function Dx(step: int): int
    requires 0 <= step < 4
  {
    if step == 0 then 1 else if step == 2 then -1 else 0
  }

  function Dy(step: int): int
    requires 0 <= step < 4
  {
    if step == 1 then 1 else if step == 3 then -1 else 0
  }

  /** A cell the walk and the search may stand on. */
  predicate Free(g: Cells, x: int, y: int)
    requires IsGrid(g)
  {
    InGrid(x, y) && !g[x][y]
  }

  predicate Adjacent(a: (int, int), b: (int, int)) {
    (b.0 == a.0 + 1 && b.1 == a.1) || (b.0 == a.0 && b.1 == a.1 + 1) ||
    (b.0 == a.0 - 1 && b.1 == a.1) || (b.0 == a.0 && b.1 == a.1 - 1)
  }

  /** A run of free cells, each a 4-neighbour of the one before. */
  ghost predicate IsPath(g: Cells, p: seq<(int, int)>)
    requires IsGrid(g)
  {
    |p| >= 1 &&
    (forall k :: 0 <= k < |p| ==> Free(g, p[k].0, p[k].1)) &&
    (forall k :: 0 <= k < |p| - 1 ==> Adjacent(p[k], p[k + 1]))
  }

  ghost predicate Reachable(g: Cells, a: (int, int), b: (int, int))
    requires IsGrid(g)
  {
    exists p :: IsPath(g, p) && p[0] == a && p[|p| - 1] == b
  }

  /** What check_path decides: the entry is free and the exit can be reached from it. */
  ghost predicate PathExists(g: Cells)
    requires IsGrid(g)
  {
    !g[1][1] && Reachable(g, (1, 1), (N - 2, M - 2))
  }

  /** One more free neighbour extends a reachable cell. */
  lemma ReachStep(g: Cells, a: (int, int), b: (int, int), c: (int, int))
    requires IsGrid(g) && Reachable(g, a, b) && Adjacent(b, c) && Free(g, c.0, c.1)
    ensures Reachable(g, a, c)
  {
    var p :| IsPath(g, p) && p[0] == a && p[|p| - 1] == b;
    var q := p + [c];
    assert IsPath(g, q) && q[0] == a && q[|q| - 1] == c;
  }

  /**
   * A set of cells that holds a and takes in every free neighbour of its
   * members holds every cell reachable from a.
   */
  lemma ClosedHoldsReachable(g: Cells, s: set<(int, int)>, a: (int, int), b: (int, int))
    requires IsGrid(g) && a in s && Reachable(g, a, b)
    requires forall c, d :: c in s && Adjacent(c, d) && InGrid(d.0, d.1) && !g[d.0][d.1] ==> d in s
    ensures b in s
  {
    var p :| IsPath(g, p) && p[0] == a && p[|p| - 1] == b;
    PathInClosed(g, s, p, |p| - 1);
  }

  lemma {:induction false} PathInClosed(g: Cells, s: set<(int, int)>, p: seq<(int, int)>, k: int)
    requires IsGrid(g) && IsPath(g, p) && p[0] in s && 0 <= k < |p|
    requires forall c, d :: c in s && Adjacent(c, d) && InGrid(d.0, d.1) && !g[d.0][d.1] ==> d in s
    ensures p[k] in s
  {
    if k > 0 {
      PathInClosed(g, s, p, k - 1);
      assert Adjacent(p[k - 1], p[k]) && Free(g, p[k].0, p[k].1);
    }
  }

  /** With a walled border a free cell is inside it, so its four neighbours are in the grid. */
  lemma FreeIsInterior(g: Cells, x: int, y: int)
    requires IsGrid(g) && BorderWalled(g) && Free(g, x, y)
    ensures Interior(x, y)
  {
  }

  /** The code of cell (x, y) in the queue: x * y_size + y. */
  lemma CellCode(x: int, y: int)
    requires InGrid(x, y)
    ensures 0 <= x * M + y < N * M && (x * M + y) / M == x && (x * M + y) - M * ((x * M + y) / M) == y
  {
  }

  /** Distinct codes below n number at most n. */
  lemma {:induction false} DistinctBound(q: seq<int>, n: nat)
    requires forall k :: 0 <= k < |q| ==> 0 <= q[k] < n
    requires forall a, b :: 0 <= a < b < |q| ==> q[a] != q[b]
    ensures |q| <= n
    decreases |q|
  {
    if |q| > 0 {
      // Drop the last code and rename n - 1, if it occurs, to that code.
      var last := q[|q| - 1];
      var r := seq(|q| - 1, t requires 0 <= t < |q| - 1 => if q[t] == n - 1 then last else q[t]);
      DistinctBound(r, n - 1);
    }
  }

  /** The code of a cell in the search queue. */
  function Code(c: (int, int)): int {
    c.0 * M + c.1
  }

  /** Distinct grid cells number at most N * M: the queue never overflows. */
  lemma CellsBound(cells: seq<(int, int)>)
    requires forall k :: 0 <= k < |cells| ==> InGrid(cells[k].0, cells[k].1)
    requires forall a, b :: 0 <= a < b < |cells| ==> cells[a] != cells[b]
    ensures |cells| <= N * M
  {
    var codes := seq(|cells|, k requires 0 <= k < |cells| => Code(cells[k]));
    forall k | 0 <= k < |codes|
      ensures 0 <= codes[k] < N * M
    {
      CellCode(cells[k].0, cells[k].1);
    }
    forall a, b | 0 <= a < b < |codes|
      ensures codes[a] != codes[b]
    {
      CellCode(cells[a].0, cells[a].1);
      CellCode(cells[b].0, cells[b].1);
    }
    DistinctBound(codes, N * M);
  }

  // ---------------------------------------------------------------------
  // The walk of calculate, as a function of the grid.

  /** min_cnt starts at 1e18. */
  const Cap: int := 1_000_000_000_000_000_000

  /** The _counts array as a value. */
  type Counts = seq<seq<int>>

  predicate IsCounts(c: Counts) {
    |c| == N && forall i :: 0 <= i < N ==> |c[i]| == M
  }

  function ZeroCounts(): (c: Counts)
    ensures IsCounts(c)
  {
    seq(N, i => seq(M, j => 0))
  }

  /** Every count is at most n. */
  predicate CountsAtMost(c: Counts, n: int)
    requires IsCounts(c)
  {
    forall i, j :: 0 <= i < N && 0 <= j < M ==> c[i][j] <= n
  }

  /** _counts[x][y]++. */
  function Inc(c: Counts, x: int, y: int): (r: Counts)
    requires IsCounts(c) && InGrid(x, y)
    ensures IsCounts(r)
    ensures forall i, j :: 0 <= i < N && 0 <= j < M ==> r[i][j] == if i == x && j == y then c[i][j] + 1 else c[i][j]
  {
    c[x := c[x][y := c[x][y] + 1]]
  }

  /** The neighbour in direction `step` is free. */
  predicate Open(g: Cells, x: int, y: int, step: int)
    requires IsGrid(g) && 0 <= step < 4
  {
    Free(g, x + Dx(step), y + Dy(step))
  }

  function Neighbour(c: Counts, x: int, y: int, step: int): int
    requires IsCounts(c) && 0 <= step < 4 && InGrid(x + Dx(step), y + Dy(step))
  {
    c[x + Dx(step)][y + Dy(step)]
  }

  predicate HasFreeNeighbour(g: Cells, x: int, y: int)
    requires IsGrid(g)
  {
    exists step :: 0 <= step < 4 && Open(g, x, y, step)
  }

  /**
   * The running minimum over the free neighbours in directions from..3,
   * starting from acc.
   */
  function MinFrom(g: Cells, c: Counts, x: int, y: int, from: int, acc: int): int
    requires IsGrid(g) && IsCounts(c) && 0 <= from <= 4
    decreases 4 - from
  {
    if from == 4 then acc
    else
      var next := if Open(g, x, y, from) && Neighbour(c, x, y, from) < acc then Neighbour(c, x, y, from) else acc;
      MinFrom(g, c, x, y, from + 1, next)
  }

  /**
   * The running minimum is at most acc and at most every free neighbour's
   * count, and it is acc or one of those counts.
   */
  lemma {:induction false} MinFromIsLeast(g: Cells, c: Counts, x: int, y: int, from: int, acc: int)
    requires IsGrid(g) && IsCounts(c) && 0 <= from <= 4
    ensures var m := MinFrom(g, c, x, y, from, acc);
      m <= acc &&
      (forall step :: from <= step < 4 && Open(g, x, y, step) ==> m <= Neighbour(c, x, y, step)) &&
      (m == acc || exists step :: from <= step < 4 && Open(g, x, y, step) && m == Neighbour(c, x, y, step))
    decreases 4 - from
  {
    if from < 4 {
      var next := if Open(g, x, y, from) && Neighbour(c, x, y, from) < acc then Neighbour(c, x, y, from) else acc;
      MinFromIsLeast(g, c, x, y, from + 1, next);
    }
  }

  /** min_cnt: the least count of a free neighbour, or 1e18 when that is less. */
  function MinCount(g: Cells, c: Counts, x: int, y: int): int
    requires IsGrid(g) && IsCounts(c)
  {
    MinFrom(g, c, x, y, 0, Cap)
  }

  /** A direction the walk may take: its neighbour is free and has the least count. */
  predicate Qualifies(g: Cells, c: Counts, x: int, y: int, m: int, step: int)
    requires IsGrid(g) && IsCounts(c) && 0 <= step < 4
  {
    Open(g, x, y, step) && Neighbour(c, x, y, step) == m
  }

  /** The first qualifying direction from `from` on, or -1. */
  function FirstFrom(g: Cells, c: Counts, x: int, y: int, m: int, from: int): (d: int)
    requires IsGrid(g) && IsCounts(c) && 0 <= from <= 4
    ensures d == -1 || from <= d < 4
    decreases 4 - from
  {
    if from == 4 then -1
    else if Qualifies(g, c, x, y, m, from) then from
    else FirstFrom(g, c, x, y, m, from + 1)
  }

  /** FirstFrom finds a qualifying direction with none before it, and -1 only when none qualifies. */
  lemma {:induction false} FirstFromIsFirst(g: Cells, c: Counts, x: int, y: int, m: int, from: int)
    requires IsGrid(g) && IsCounts(c) && 0 <= from <= 4
    ensures var d := FirstFrom(g, c, x, y, m, from);
      (d >= 0 ==> Qualifies(g, c, x, y, m, d)) &&
      forall step :: from <= step < 4 && (d < 0 || step < d) ==> !Qualifies(g, c, x, y, m, step)
    decreases 4 - from
  {
    if from < 4 && !Qualifies(g, c, x, y, m, from) {
      FirstFromIsFirst(g, c, x, y, m, from + 1);
    }
  }

  /**
   * selected_dir: the current direction when it qualifies, otherwise the
   * first qualifying one in dx/dy order, -1 when none does.
   */
  function SelectDir(g: Cells, c: Counts, x: int, y: int, dir: int, m: int): (d: int)
    requires IsGrid(g) && IsCounts(c) && 0 <= dir < 4
    ensures -1 <= d < 4
  {
    if Qualifies(g, c, x, y, m, dir) then dir else FirstFrom(g, c, x, y, m, 0)
  }

  /**
   * The direction chosen qualifies; it is the current one whenever that
   * qualifies, and otherwise no direction before it does; -1 only when no
   * direction qualifies.
   */
  lemma SelectDirRule(g: Cells, c: Counts, x: int, y: int, dir: int, m: int)
    requires IsGrid(g) && IsCounts(c) && 0 <= dir < 4
    ensures var d := SelectDir(g, c, x, y, dir, m);
      (Qualifies(g, c, x, y, m, dir) ==> d == dir) &&
      (d >= 0 ==> Qualifies(g, c, x, y, m, d)) &&
      (!Qualifies(g, c, x, y, m, dir) ==>
        forall step :: 0 <= step < 4 && (d < 0 || step < d) ==> !Qualifies(g, c, x, y, m, step))
  {
    FirstFromIsFirst(g, c, x, y, m, 0);
  }

  /** Where the walk stands: its cell, its direction, the visit counts and the steps so far (result). */
  datatype WalkState = WalkState(x: int, y: int, dir: int, counts: Counts, steps: nat)

  /** A state the walk can be in: on a free cell of a walled grid. */
  predicate Moving(g: Cells, s: WalkState) {
    IsGrid(g) && BorderWalled(g) && IsCounts(s.counts) && Free(g, s.x, s.y) && 0 <= s.dir < 4
  }

  /** The loop runs until the walk stands on (x_size - 2, y_size - 2). */
  predicate Arrived(s: WalkState) {
    s.x == N - 2 && s.y == M - 2
  }

  /** dir = 0 at (1, 1), nothing counted. */
  function Start(): WalkState {
    WalkState(1, 1, 0, ZeroCounts(), 0)
  }

  /**
   * One iteration of the walk: count the current cell, then move to a free
   * neighbour of least count, keeping the direction when it qualifies and
   * otherwise taking the first that does; None when none qualifies.
   */
  function Step(g: Cells, s: WalkState): (r: Option<WalkState>)
    requires Moving(g, s)
    ensures r.Some? ==> Moving(g, r.value) && r.value.steps == s.steps + 1
  {
    FreeIsInterior(g, s.x, s.y);
    var c := Inc(s.counts, s.x, s.y);
    var m := MinCount(g, c, s.x, s.y);
    var d := SelectDir(g, c, s.x, s.y, s.dir, m);
    SelectDirRule(g, c, s.x, s.y, s.dir, m);
    if d < 0 then None else Some(WalkState(s.x + Dx(d), s.y + Dy(d), d, c, s.steps + 1))
  }

  /**
   * The rule of a step: the walk counts the cell it leaves and moves to an
   * adjacent free cell whose count is least among the free neighbours,
   * keeping its direction whenever that direction's cell has the least
   * count, and otherwise taking the first such direction in dx/dy order.
   */
  lemma StepRule(g: Cells, s: WalkState)
    requires Moving(g, s) && Step(g, s).Some?
    ensures var t := Step(g, s).value; var c, d := t.counts, t.dir;
      Adjacent((s.x, s.y), (t.x, t.y)) && c == Inc(s.counts, s.x, s.y) &&
      t.x == s.x + Dx(d) && t.y == s.y + Dy(d) &&
      (forall step :: 0 <= step < 4 && Open(g, s.x, s.y, step) ==> Neighbour(c, s.x, s.y, d) <= Neighbour(c, s.x, s.y, step)) &&
      (Qualifies(g, c, s.x, s.y, Neighbour(c, s.x, s.y, d), s.dir) ==> d == s.dir) &&
      (d != s.dir ==> forall step :: 0 <= step < d ==> !Qualifies(g, c, s.x, s.y, Neighbour(c, s.x, s.y, d), step))
  {
    FreeIsInterior(g, s.x, s.y);
    var c := Inc(s.counts, s.x, s.y);
    var m := MinCount(g, c, s.x, s.y);
    MinFromIsLeast(g, c, s.x, s.y, 0, Cap);
    SelectDirRule(g, c, s.x, s.y, s.dir, m);
  }

  /** A step unfolded: no step when no direction qualifies, otherwise the move in the chosen one. */
  lemma StepShape(g: Cells, s: WalkState)
    requires Moving(g, s)
    ensures InGrid(s.x, s.y)
    ensures var c := Inc(s.counts, s.x, s.y); var d := SelectDir(g, c, s.x, s.y, s.dir, MinCount(g, c, s.x, s.y));
      Step(g, s) == if d < 0 then None else Some(WalkState(s.x + Dx(d), s.y + Dy(d), d, c, s.steps + 1))
  {
    FreeIsInterior(g, s.x, s.y);
  }

  /** The parts of a step: the counted cell, the least count, the chosen direction. */
  lemma StepParts(g: Cells, s: WalkState)
    requires Moving(g, s) && Step(g, s).Some?
    ensures var c := Inc(s.counts, s.x, s.y); var d := SelectDir(g, c, s.x, s.y, s.dir, MinCount(g, c, s.x, s.y));
      0 <= d < 4 && Step(g, s).value == WalkState(s.x + Dx(d), s.y + Dy(d), d, c, s.steps + 1)
  {
  }

  /** The state the walk stops in: arrived, stuck, or out of fuel. */
  function RunState(g: Cells, s: WalkState, fuel: nat): (r: WalkState)
    requires Moving(g, s)
    ensures Moving(g, r)
    ensures r == s || r.steps > s.steps
    decreases fuel
  {
    if Arrived(s) || fuel == 0 then s
    else match Step(g, s)
      case None => s
      case Some(t) => RunState(g, t, fuel - 1)
  }

  /** A walk that has not stopped takes its next step. */
  lemma RunUnfold(g: Cells, s: WalkState, fuel: nat)
    requires Moving(g, s) && !Arrived(s) && fuel > 0 && Step(g, s).Some?
    ensures RunState(g, s, fuel) == RunState(g, Step(g, s).value, fuel - 1)
  {
  }

  /** A walk that has not arrived and has fuel left takes a step and keeps the loop's invariant. */
  lemma Advance(g: Cells, s: WalkState, fuel: nat)
    requires Moving(g, s) && HasFreeNeighbour(g, s.x, s.y) && CountsAtMost(s.counts, s.steps)
    requires !Arrived(s) && 0 < fuel && s.steps + fuel <= Cap
    ensures Step(g, s).Some?
    ensures var t := Step(g, s).value;
      Moving(g, t) && HasFreeNeighbour(g, t.x, t.y) && CountsAtMost(t.counts, t.steps) && t.steps == s.steps + 1 &&
      RunState(g, s, fuel) == RunState(g, t, fuel - 1)
  {
    NeverStuck(g, s);
    RunUnfold(g, s, fuel);
  }

  /**
   * The walk after fuel - remaining steps of a run with `fuel`: it can still
   * move, no count reaches 1e18, and the rest of the run ends in `final`.
   */
  ghost predicate Walking(g: Cells, s: WalkState, fuel: nat, remaining: nat, final: WalkState) {
    Moving(g, s) && HasFreeNeighbour(g, s.x, s.y) && CountsAtMost(s.counts, s.steps) &&
    s.steps + remaining == fuel && fuel <= Cap && RunState(g, s, remaining) == final
  }

  /** A run with a path to its target starts out walking. */
  lemma WalkingStart(g: Cells, fuel: nat)
    requires IsGrid(g) && BorderWalled(g) && PathExists(g) && fuel <= Cap
    ensures Moving(g, Start()) && Walking(g, Start(), fuel, fuel, RunState(g, Start(), fuel))
  {
    StartHasNeighbour(g);
  }

  /** Once the loop stops, the walk is in its final state. */
  lemma WalkingEnd(g: Cells, s: WalkState, fuel: nat, remaining: nat, final: WalkState)
    requires Walking(g, s, fuel, remaining, final) && (Arrived(s) || remaining == 0)
    ensures s == final
  {
    RunStops(g, s, remaining);
  }

  /** One more step keeps the walk going towards the same final state. */
  lemma WalkingStep(g: Cells, s: WalkState, fuel: nat, remaining: nat, final: WalkState)
    requires Walking(g, s, fuel, remaining + 1, final) && !Arrived(s)
    ensures Step(g, s).Some? && Walking(g, Step(g, s).value, fuel, remaining, final)
  {
    Advance(g, s, remaining + 1);
  }

  /** A walk that has arrived, or has no fuel left, stays where it is. */
  lemma RunStops(g: Cells, s: WalkState, fuel: nat)
    requires Moving(g, s) && (Arrived(s) || fuel == 0)
    ensures RunState(g, s, fuel) == s
  {
  }

  /** What calculate returns: 0 without a path, the step count once the walk arrives, None when fuel runs out. */
  ghost function Walk(g: Cells, fuel: nat): Option<nat>
    requires IsGrid(g) && BorderWalled(g)
  {
    if !PathExists(g) then Some(0)
    else
      var e := RunState(g, Start(), fuel);
      if Arrived(e) then Some(e.steps) else None
  }

  /** The value result holds after calculate. */
  ghost function WalkResult(g: Cells, fuel: nat): nat
    requires IsGrid(g) && BorderWalled(g)
  {
    if !PathExists(g) then 0 else RunState(g, Start(), fuel).steps
  }

  /** Four directions to the four adjacent cells. */
  lemma AdjacentStep(a: (int, int), b: (int, int)) returns (step: int)
    requires Adjacent(a, b)
    ensures 0 <= step < 4 && b == (a.0 + Dx(step), a.1 + Dy(step))
  {
    if b.0 == a.0 + 1 {
      step := 0;
    } else if b.1 == a.1 + 1 {
      step := 1;
    } else if b.0 == a.0 - 1 {
      step := 2;
    } else {
      step := 3;
    }
  }

  /** With a path, the entry has a free neighbour (the exit is elsewhere). */
  lemma StartHasNeighbour(g: Cells)
    requires IsGrid(g) && PathExists(g)
    ensures HasFreeNeighbour(g, 1, 1)
  {
    var p :| IsPath(g, p) && p[0] == (1, 1) && p[|p| - 1] == (N - 2, M - 2);
    assert |p| >= 2;
    var step := AdjacentStep(p[0], p[1]);
    assert Open(g, 1, 1, step);
  }

  /**
   * The walk never gets stuck: from a cell with a free neighbour, while
   * the counts stay below 1e18, some direction qualifies, and the walk
   * arrives on a cell with a free neighbour (the one it came from).
   */
  lemma NeverStuck(g: Cells, s: WalkState)
    requires Moving(g, s) && HasFreeNeighbour(g, s.x, s.y)
    requires CountsAtMost(s.counts, s.steps) && s.steps < Cap
    ensures Step(g, s).Some?
    ensures var t := Step(g, s).value;
      HasFreeNeighbour(g, t.x, t.y) && CountsAtMost(t.counts, t.steps)
  {
    FreeIsInterior(g, s.x, s.y);
    var c := Inc(s.counts, s.x, s.y);
    IncAtMost(s.counts, s.steps, s.x, s.y);
    var d := SelectDir(g, c, s.x, s.y, s.dir, MinCount(g, c, s.x, s.y));
    ChoiceFound(g, s.counts, s.x, s.y, s.dir, s.steps);
    StepShape(g, s);
    var t := WalkState(s.x + Dx(d), s.y + Dy(d), d, c, s.steps + 1);
    assert Step(g, s) == Some(t);
    var back := if d < 2 then d + 2 else d - 2;
    assert Open(g, t.x, t.y, back);
  }

  /**
   * With a free neighbour and every count below 1e18 before the current
   * cell is counted, some direction qualifies.
   */
  lemma ChoiceFound(g: Cells, c0: Counts, x: int, y: int, dir: int, n: int)
    requires IsGrid(g) && IsCounts(c0) && 0 <= dir < 4 && InGrid(x, y)
    requires HasFreeNeighbour(g, x, y) && CountsAtMost(c0, n) && n < Cap
    ensures var c := Inc(c0, x, y); SelectDir(g, c, x, y, dir, MinCount(g, c, x, y)) >= 0
  {
    var c := Inc(c0, x, y);
    var free :| 0 <= free < 4 && Open(g, x, y, free);
    assert Neighbour(c, x, y, free) == c0[x + Dx(free)][y + Dy(free)];
    var m := MinCount(g, c, x, y);
    MinFromIsLeast(g, c, x, y, 0, Cap);
    SelectDirRule(g, c, x, y, dir, m);
    assert m <= Neighbour(c, x, y, free) < Cap;
    var k :| 0 <= k < 4 && Open(g, x, y, k) && m == Neighbour(c, x, y, k);
    assert Qualifies(g, c, x, y, m, k);
  }

  /** Counting one cell raises the bound by one. */
  lemma IncAtMost(c: Counts, n: int, x: int, y: int)
    requires IsCounts(c) && CountsAtMost(c, n) && InGrid(x, y)
    ensures CountsAtMost(Inc(c, x, y), n + 1)
  {
  }

  /** More fuel changes nothing once the walk has arrived. */
  lemma RunMonotone(g: Cells, s: WalkState, fuel: nat, more: nat)
    requires Moving(g, s) && fuel <= more && Arrived(RunState(g, s, fuel))
    ensures RunState(g, s, more) == RunState(g, s, fuel)
  {
    RunReaches(g, s, fuel, more, RunState(g, s, fuel));
  }

  /** A walk that arrives at `final` with some fuel arrives there with any more. */
  lemma {:induction false} RunReaches(g: Cells, s: WalkState, fuel: nat, more: nat, final: WalkState)
    requires Moving(g, s) && fuel <= more && RunState(g, s, fuel) == final && Arrived(final)
    ensures RunState(g, s, more) == final
    decreases fuel
  {
    var t, rest, f, m := StepTaken(g, s, fuel, more, final);
    if !rest {
      RunReaches(g, t, f, m, final);
    }
  }

  /**
   * Either the walk has arrived, and more fuel changes nothing, or both runs
   * take a step first and go on from t with one unit of fuel less.
   */
  lemma StepTaken(g: Cells, s: WalkState, fuel: nat, more: nat, final: WalkState)
    returns (t: WalkState, rest: bool, f: nat, m: nat)
    requires Moving(g, s) && fuel <= more && RunState(g, s, fuel) == final && Arrived(final)
    ensures rest ==> RunState(g, s, more) == final
    ensures !rest ==> f < fuel && f <= m && Moving(g, t) && RunState(g, t, f) == final
    ensures !rest ==> RunState(g, s, more) == RunState(g, t, m)
  {
    rest := Arrived(s);
    t, f, m := s, 0, 0;
    if !rest {
      MustStep(g, s, fuel);
      t := Step(g, s).value;
      f, m := fuel - 1, more - 1;
      RunUnfoldTo(g, s, fuel, t, f);
      RunUnfoldTo(g, s, more, t, m);
    }
  }

  /** A walk that arrives somewhere else than where it stands takes a step first. */
  lemma MustStep(g: Cells, s: WalkState, fuel: nat)
    requires Moving(g, s) && !Arrived(s) && Arrived(RunState(g, s, fuel))
    ensures fuel > 0 && Step(g, s).Some?
  {
  }

  /** RunUnfold, with the next state and the fuel left named. */
  lemma RunUnfoldTo(g: Cells, s: WalkState, fuel: nat, t: WalkState, f: nat)
    requires Moving(g, s) && !Arrived(s) && Step(g, s) == Some(t) && f + 1 == fuel
    ensures RunState(g, s, fuel) == RunState(g, t, f)
  {
    var k: nat := fuel - 1;
    assert k == f;
    RunUnfold(g, s, fuel);
  }

  /** Every cell the walk stands on is reachable from where it started. */
  lemma {:induction false} RunStaysReachable(g: Cells, a: (int, int), s: WalkState, fuel: nat)
    requires Moving(g, s) && Reachable(g, a, (s.x, s.y))
    ensures var r := RunState(g, s, fuel); Reachable(g, a, (r.x, r.y))
    decreases fuel
  {
    if !Arrived(s) && fuel > 0 {
      match Step(g, s)
      case None =>
      case Some(t) =>
        ReachStep(g, a, (s.x, s.y), (t.x, t.y));
        RunStaysReachable(g, a, t, fuel - 1);
    }
  }

  /**
   * calculate returns 0 exactly when there is no path: a walk that arrives
   * has taken at least one step, since the entry is not the exit.
   */
  lemma WalkZeroIffNoPath(g: Cells, fuel: nat)
    requires IsGrid(g) && BorderWalled(g)
    ensures Walk(g, fuel) == Some(0) <==> !PathExists(g)
  {
    if PathExists(g) {
      var e := RunState(g, Start(), fuel);
      assert Arrived(e) ==> e != Start();
    }
  }

  // ---------------------------------------------------------------------
  // field_t<21, 31>.

  /** The current contents of an int array grid, as a value. */
  function IntSnapshot(a: array2<int>): (c: Counts)
    reads a
    ensures |c| == a.Length0
    ensures forall i :: 0 <= i < a.Length0 ==> |c[i]| == a.Length1
    ensures forall i, j :: 0 <= i < a.Length0 && 0 <= j < a.Length1 ==> c[i][j] == a[i, j]
  {
    seq(a.Length0, i requires 0 <= i < a.Length0 reads a =>
      seq(a.Length1, j requires 0 <= j < a.Length1 reads a => a[i, j]))
  }

  lemma IntSnapshotEq(a: array2<int>, c: Counts)
    requires a.Length0 == N && a.Length1 == M && IsCounts(c)
    requires forall i, j :: InGrid(i, j) ==> a[i, j] == c[i][j]
    ensures IntSnapshot(a) == c
  {
    var s := IntSnapshot(a);
    forall i | 0 <= i < N
      ensures s[i] == c[i]
    {
    }
  }

  /** _used[x][y] = stamp. */
  function Mark(u: Counts, x: int, y: int, stamp: int): (r: Counts)
    requires IsCounts(u) && InGrid(x, y)
    ensures IsCounts(r)
    ensures forall i, j :: 0 <= i < N && 0 <= j < M ==> r[i][j] == if i == x && j == y then stamp else u[i][j]
  {
    u[x := u[x][y := stamp]]
  }

  /**
   * The queue after `order` (the cells queued so far, in order): it holds
   * their codes, the marked cells (those holding the stamp in u) are
   * exactly the queued ones, and each is free and reachable from the entry.
   */
  ghost predicate Queued(g: Cells, stamp: int, u: Counts, q: seq<int>, order: seq<(int, int)>)
  {
    IsGrid(g) && BorderWalled(g) && IsCounts(u) && |q| == N * M && |order| <= N * M &&
    (forall i, j :: 0 <= i < N && 0 <= j < M ==> u[i][j] <= stamp) &&
    (forall k :: 0 <= k < |order| ==>
      InGrid(order[k].0, order[k].1) && q[k] == Code(order[k]) && Free(g, order[k].0, order[k].1) &&
      u[order[k].0][order[k].1] == stamp && Reachable(g, (1, 1), order[k])) &&
    (forall a, b :: 0 <= a < b < |order| ==> order[a] != order[b]) &&
    MarkedQueued(stamp, u, order)
  }

  /** Every marked cell is queued. */
  ghost predicate MarkedQueued(stamp: int, u: Counts, order: seq<(int, int)>)
    requires IsCounts(u)
  {
    forall x, y :: InGrid(x, y) && u[x][y] == stamp ==> (x, y) in order
  }

  /** The queue holds the code of each queued cell. */
  lemma QueuedAt(g: Cells, stamp: int, u: Counts, q: seq<int>, order: seq<(int, int)>, k: int)
    requires Queued(g, stamp, u, q, order) && 0 <= k < |order|
    ensures InGrid(order[k].0, order[k].1) && q[k] == Code(order[k])
  {
  }

  /** Every free neighbour looked at so far (all four of the first `it` cells, `steps` of the next) is marked. */
  ghost predicate Closed(g: Cells, stamp: int, u: Counts, order: seq<(int, int)>, it: int, steps: int)
    requires IsGrid(g) && IsCounts(u)
  {
    forall k, step :: 0 <= k < |order| && 0 <= step < 4 && (k < it || (k == it && step < steps)) ==>
      (Open(g, order[k].0, order[k].1, step) ==> u[order[k].0 + Dx(step)][order[k].1 + Dy(step)] == stamp)
  }

  /** The state of the search after `it` cells are processed and `steps` directions of the next. */
  ghost predicate Searching(g: Cells, stamp: int, u: Counts, q: seq<int>, order: seq<(int, int)>, it: int, steps: int)
  {
    Queued(g, stamp, u, q, order) && 0 <= it <= |order| && 0 <= steps <= 4 && (steps > 0 ==> it < |order|) &&
    Closed(g, stamp, u, order, it, steps)
  }

  /** Queueing a new free cell reachable from the entry keeps the queue consistent. */
  lemma QueuedAdd(g: Cells, stamp: int, u: Counts, q: seq<int>, order: seq<(int, int)>, d: (int, int))
    requires Queued(g, stamp, u, q, order)
    requires Free(g, d.0, d.1) && u[d.0][d.1] != stamp && Reachable(g, (1, 1), d)
    ensures |order| < N * M
    ensures Queued(g, stamp, Mark(u, d.0, d.1, stamp), q[|order| := Code(d)], order + [d])
  {
    var order' := order + [d];
    assert forall k :: 0 <= k < |order| ==> order[k] != d;
    CellsBound(order');
    var u' := Mark(u, d.0, d.1, stamp);
    var q' := q[|order| := Code(d)];
    forall k | 0 <= k < |order'|
      ensures InGrid(order'[k].0, order'[k].1) && q'[k] == Code(order'[k]) && Free(g, order'[k].0, order'[k].1) &&
        u'[order'[k].0][order'[k].1] == stamp && Reachable(g, (1, 1), order'[k])
    {
      if k < |order| {
        assert order'[k] == order[k];
      }
    }
    forall x, y | InGrid(x, y) && u'[x][y] == stamp
      ensures (x, y) in order'
    {
      if (x, y) != d {
        assert u[x][y] == stamp;
        assert (x, y) in order;
      }
    }
    assert MarkedQueued(stamp, u', order');
  }

  /** Marking the neighbour in direction `steps` of order[it] extends the closed part by that direction. */
  lemma ClosedAdd(g: Cells, stamp: int, u: Counts, order: seq<(int, int)>, it: int, steps: int)
    requires IsGrid(g) && IsCounts(u) && Closed(g, stamp, u, order, it, steps)
    requires 0 <= it < |order| && 0 <= steps < 4
    requires var c := order[it]; Open(g, c.0, c.1, steps)
    ensures var c := order[it]; var d := (c.0 + Dx(steps), c.1 + Dy(steps));
      Closed(g, stamp, Mark(u, d.0, d.1, stamp), order + [d], it, steps + 1)
  {
    var c := order[it];
    var d := (c.0 + Dx(steps), c.1 + Dy(steps));
    var u' := Mark(u, d.0, d.1, stamp);
    var order' := order + [d];
    forall k, step | 0 <= k < |order'| && 0 <= step < 4 && (k < it || (k == it && step < steps + 1)) &&
        Open(g, order'[k].0, order'[k].1, step)
      ensures u'[order'[k].0 + Dx(step)][order'[k].1 + Dy(step)] == stamp
    {
      assert order'[k] == order[k];
    }
  }

  /** Queueing a new free neighbour of order[it] keeps the search state. */
  lemma Enqueue(g: Cells, stamp: int, u: Counts, q: seq<int>, order: seq<(int, int)>, it: int, steps: int)
    requires Searching(g, stamp, u, q, order, it, steps) && it < |order| && steps < 4
    requires var c := order[it]; Open(g, c.0, c.1, steps) && u[c.0 + Dx(steps)][c.1 + Dy(steps)] != stamp
    ensures var c := order[it]; var d := (c.0 + Dx(steps), c.1 + Dy(steps));
      |order| < N * M &&
      Searching(g, stamp, Mark(u, d.0, d.1, stamp), q[|order| := Code(d)], order + [d], it, steps + 1)
  {
    var c := order[it];
    var d := (c.0 + Dx(steps), c.1 + Dy(steps));
    ReachStep(g, (1, 1), c, d);
    QueuedAdd(g, stamp, u, q, order, d);
    ClosedAdd(g, stamp, u, order, it, steps);
  }

  /**
   * When every queued cell is processed, the exit is marked exactly when
   * it is reachable from the entry: the marked cells are reachable, and
   * they take in every free neighbour of theirs.
   */
  lemma SearchDone(g: Cells, stamp: int, u: Counts, q: seq<int>, order: seq<(int, int)>)
    requires Searching(g, stamp, u, q, order, |order|, 0) && |order| > 0 && order[0] == (1, 1)
    ensures u[N - 2][M - 2] == stamp <==> PathExists(g)
  {
    if u[N - 2][M - 2] == stamp {
      assert (N - 2, M - 2) in order;
    }
    if PathExists(g) {
      MarkedClosed(g, stamp, u, order);
      var marked := set c | c in order;
      assert forall c :: c in marked <==> c in order;
      ClosedHoldsReachable(g, marked, (1, 1), (N - 2, M - 2));
    }
  }

  /** With every queued cell processed, the queued cells take in every free neighbour of theirs. */
  lemma MarkedClosed(g: Cells, stamp: int, u: Counts, order: seq<(int, int)>)
    requires IsGrid(g) && IsCounts(u) && MarkedQueued(stamp, u, order) && Closed(g, stamp, u, order, |order|, 0)
    ensures forall c, d :: c in order && Adjacent(c, d) && InGrid(d.0, d.1) && !g[d.0][d.1] ==> d in order
  {
    forall c, d | c in order && Adjacent(c, d) && InGrid(d.0, d.1) && !g[d.0][d.1]
      ensures d in order
    {
      var step := AdjacentStep(c, d);
      var k :| 0 <= k < |order| && order[k] == c;
      assert Open(g, c.0, c.1, step);
      assert u[d.0][d.1] == stamp;
    }
  }

  /** A wall or an already marked neighbour leaves the search state as it is. */
  lemma Skip(g: Cells, stamp: int, u: Counts, q: seq<int>, order: seq<(int, int)>, it: int, steps: int)
    requires Searching(g, stamp, u, q, order, it, steps) && it < |order| && steps < 4
    requires var c := order[it]; !Open(g, c.0, c.1, steps) || u[c.0 + Dx(steps)][c.1 + Dy(steps)] == stamp
    ensures Searching(g, stamp, u, q, order, it, steps + 1)
  {
  }

  /** All four directions of order[it] done: on to the next cell. */
  lemma NextCell(g: Cells, stamp: int, u: Counts, q: seq<int>, order: seq<(int, int)>, it: int)
    requires Searching(g, stamp, u, q, order, it, 4)
    ensures Searching(g, stamp, u, q, order, it + 1, 0)
  {
  }

  class FieldT {
    /** wall[x][y]: true for a wall. */
    const wall: array2<bool>
    /** The step count of the last calculate. */
    var result: int
    /** _counts: the visits of the walk. */
    const counts: array2<int>
    /** _q: the search queue of cell codes. */
    const queue: array<int>
    /** _used: a cell is marked in a search when it holds that search's stamp. */
    const used: array2<int>
    /** _check_path_iteration: the stamp of the last search. */
    var checkPathIteration: int

    ghost predicate Valid()
      reads this`checkPathIteration, used
    {
      Shaped(wall) && counts.Length0 == N && counts.Length1 == M &&
      used.Length0 == N && used.Length1 == M && queue.Length == N * M && used != counts &&
      0 <= checkPathIteration &&
      forall i, j :: InGrid(i, j) ==> used[i, j] <= checkPathIteration
    }

    /**
     * check_path: false when the entry is a wall, otherwise a breadth-first
     * search from the entry under a new stamp; true exactly when the exit
     * is reached. Each cell enters the queue at most once, and the walled
     * border keeps every neighbour inside the grid.
     */
    method CheckPath() returns (found: bool)
      requires Valid() && BorderWalled(Snapshot(wall))
      modifies this`checkPathIteration, used, queue
      ensures Valid()
      ensures found == PathExists(Snapshot(wall))
      ensures checkPathIteration == old(checkPathIteration) + if wall[1, 1] then 0 else 1
    {
      ghost var g := Snapshot(wall);
      if wall[1, 1] {
        return false;
      }
      checkPathIteration := checkPathIteration + 1;
      var stamp := checkPathIteration;
      used[1, 1] := stamp;
      queue[0] := M + 1;
      ghost var order := [(1, 1)];
      SearchBegins(g, stamp);
      var it, qSize := 0, 1;
      while it < qSize
        invariant qSize == |order| > 0 && stamp == checkPathIteration && order[0] == (1, 1)
        invariant Searching(g, stamp, IntSnapshot(used), queue[..], order, it, 0)
        decreases N * M - it
      {
        qSize, order := Dequeue(g, stamp, order, it, qSize);
        it := it + 1;
      }
      SearchEnds(g, stamp, order, it);
      found := used[N - 2, M - 2] == stamp;
    }

    /** The queue holds the entry alone, the only cell carrying the new stamp. */
    lemma SearchBegins(g: Cells, stamp: int)
      requires g == Snapshot(wall) && Shaped(wall) && IsGrid(g) && BorderWalled(g) && !g[1][1]
      requires used.Length0 == N && used.Length1 == M && queue.Length == N * M
      requires used[1, 1] == stamp && queue[0] == M + 1
      requires forall i, j :: InGrid(i, j) && (i, j) != (1, 1) ==> used[i, j] < stamp
      ensures Searching(g, stamp, IntSnapshot(used), queue[..], [(1, 1)], 0, 0)
    {
      assert IsPath(g, [(1, 1)]);
      IntSnapshotEq(used, IntSnapshot(used));
    }

    /** With the queue exhausted, the exit carries the stamp exactly when a path exists. */
    lemma SearchEnds(g: Cells, stamp: int, order: seq<(int, int)>, it: int)
      requires used.Length0 == N && used.Length1 == M
      requires Searching(g, stamp, IntSnapshot(used), queue[..], order, it, 0)
      requires |order| > 0 && order[0] == (1, 1) && it >= |order|
      ensures used[N - 2, M - 2] == stamp <==> PathExists(g)
    {
      SearchDone(g, stamp, IntSnapshot(used), queue[..], order);
    }

    /** One turn of the queue loop of check_path: decode the cell's code and look at its neighbours. */
    method Dequeue(ghost g: Cells, stamp: int, ghost order0: seq<(int, int)>, it: int, qSize0: int)
      returns (qSize: int, ghost order: seq<(int, int)>)
      requires g == Snapshot(wall) && Shaped(wall) && used.Length0 == N && used.Length1 == M
      requires Searching(g, stamp, IntSnapshot(used), queue[..], order0, it, 0) && it < qSize0 == |order0|
      modifies used, queue
      ensures qSize == |order| && |order0| <= |order| && order[0] == order0[0]
      ensures Searching(g, stamp, IntSnapshot(used), queue[..], order, it + 1, 0)
    {
      var v := queue[it];
      QueuedAt(g, stamp, IntSnapshot(used), queue[..], order0, it);
      CellCode(order0[it].0, order0[it].1);
      var x := v / M;
      var y := v - M * x;
      assert x == order0[it].0;
      assert y == order0[it].1;
      assert Searching(g, stamp, IntSnapshot(used), queue[..], order0, it, 0);
      qSize, order := Visit(g, stamp, order0, it, x, y, qSize0);
    }

    /** The direction loop of check_path for the cell order[it] = (x, y). */
    method Visit(ghost g: Cells, stamp: int, ghost order0: seq<(int, int)>, ghost it: int, x: int, y: int, qSize0: int)
      returns (qSize: int, ghost order: seq<(int, int)>)
      requires g == Snapshot(wall) && Shaped(wall) && used.Length0 == N && used.Length1 == M
      requires Searching(g, stamp, IntSnapshot(used), queue[..], order0, it, 0) && it < qSize0 == |order0|
      requires (x, y) == order0[it]
      modifies used, queue
      ensures qSize == |order| && order0 <= order
      ensures Searching(g, stamp, IntSnapshot(used), queue[..], order, it + 1, 0)
    {
      FreeIsInterior(g, x, y);
      qSize, order := qSize0, order0;
      for step := 0 to 4
        invariant qSize == |order| && it < qSize && order[it] == (x, y) && order0 <= order
        invariant Searching(g, stamp, IntSnapshot(used), queue[..], order, it, step)
      {
        qSize, order := VisitStep(g, stamp, order, it, x, y, step, qSize);
      }
      NextCell(g, stamp, IntSnapshot(used), queue[..], order, it);
    }

    lemma Stored(g: Cells, stamp: int, u: Counts, q: seq<int>, order: seq<(int, int)>, it: int, step: int, x: int, y: int)
      requires used.Length0 == N && used.Length1 == M && IsCounts(u) && InGrid(x, y) && |q| == queue.Length && |order| < |q|
      requires forall i, j :: InGrid(i, j) && (i, j) != (x, y) ==> used[i, j] == u[i][j]
      requires used[x, y] == stamp
      requires forall k :: 0 <= k < |q| && k != |order| ==> queue[k] == q[k]
      requires queue[|order|] == Code((x, y))
      requires Searching(g, stamp, Mark(u, x, y, stamp), q[|order| := Code((x, y))], order + [(x, y)], it, step + 1)
      ensures Searching(g, stamp, IntSnapshot(used), queue[..], order + [(x, y)], it, step + 1)
    {
      IntSnapshotEq(used, Mark(u, x, y, stamp));
      assert queue[..] == q[|order| := Code((x, y))];
    }

    /** One direction of the loop of check_path: queue the neighbour when it is free and not yet stamped. */
    method VisitStep(ghost g: Cells, stamp: int, ghost order0: seq<(int, int)>, ghost it: int, x: int, y: int, step: int, qSize0: int)
      returns (qSize: int, ghost order: seq<(int, int)>)
      requires g == Snapshot(wall) && Shaped(wall) && used.Length0 == N && used.Length1 == M
      requires Searching(g, stamp, IntSnapshot(used), queue[..], order0, it, step) && it < qSize0 == |order0|
      requires (x, y) == order0[it] && Interior(x, y) && 0 <= step < 4
      modifies used, queue
      ensures qSize == |order| && order0 <= order
      ensures Searching(g, stamp, IntSnapshot(used), queue[..], order, it, step + 1)
    {
      var toX, toY := x + Dx(step), y + Dy(step);
      ghost var u := IntSnapshot(used);
      assert g[toX][toY] == wall[toX, toY] && u[toX][toY] == used[toX, toY];
      if !wall[toX, toY] && used[toX, toY] != stamp {
        ghost var q := queue[..];
        Enqueue(g, stamp, u, q, order0, it, step);
        queue[qSize0] := toX * M + toY;
        used[toX, toY] := stamp;
        order := order0 + [(toX, toY)];
        qSize := qSize0 + 1;
        Stored(g, stamp, u, q, order0, it, step, toX, toY);
      } else {
        Skip(g, stamp, u, queue[..], order0, it, step);
        qSize, order := qSize0, order0;
      }
    }

    /**
     * calculate: 0 when check_path fails; otherwise the walk from (1, 1)
     * with direction 0 and zeroed counts, one step per iteration, until it
     * stands on (x_size - 2, y_size - 2); result counts the steps. The loop
     * is bounded by `fuel` (None when it runs out), since its termination
     * is not proved here.
     */
    method Calculate(fuel: nat) returns (r: Option<nat>)
      requires Valid() && BorderWalled(Snapshot(wall)) && fuel <= Cap
      modifies this`result, this`checkPathIteration, used, queue, counts
      ensures Valid()
      ensures r == Walk(Snapshot(wall), fuel) && result == WalkResult(Snapshot(wall), fuel)
      ensures PathExists(Snapshot(wall)) ==> IntSnapshot(counts) == RunState(Snapshot(wall), Start(), fuel).counts
    {
      ghost var g := Snapshot(wall);
      var found := CheckPath();
      if !found {
        result := 0;
        return Some(0);
      }
      ResetCounts();
      WalkingStart(g, fuel);
      var arrived := RunWalk(g, RunState(g, Start(), fuel), fuel);
      r := if arrived then Some(result) else None;
    }

    /** The loop of calculate, from (1, 1) with direction 0 and zeroed counts, at most `fuel` steps. */
    method RunWalk(ghost g: Cells, ghost final: WalkState, fuel: nat) returns (arrived: bool)
      requires g == Snapshot(wall) && Shaped(wall) && counts.Length0 == N && counts.Length1 == M
      requires Walking(g, Start(), fuel, fuel, final) && IntSnapshot(counts) == ZeroCounts()
      modifies counts, this`result
      ensures result == final.steps && IntSnapshot(counts) == final.counts && arrived == Arrived(final)
    {
      var dir, x, y := 0, 1, 1;
      result := 0;
      var remaining := fuel;
      ghost var s := Start();
      while (x + 2 != N || y + 2 != M) && remaining > 0
        invariant Tracks(g, s, fuel, remaining, final, x, y, dir, result)
        decreases remaining
      {
        remaining := remaining - 1;
        s, x, y, dir := WalkStep(g, s, fuel, remaining, final, x, y, dir, result);
        result := result + 1;
      }
      TracksEnd(g, s, fuel, remaining, final, x, y, dir, result);
      arrived := x + 2 == N && y + 2 == M;
    }

    /** When the loop stops, its variables hold the final state. */
    lemma TracksEnd(g: Cells, s: WalkState, fuel: nat, remaining: nat, final: WalkState, x: int, y: int, dir: int, steps: int)
      requires Tracks(g, s, fuel, remaining, final, x, y, dir, steps)
      requires !((x + 2 != N || y + 2 != M) && remaining > 0)
      ensures steps == final.steps && IntSnapshot(counts) == final.counts && (x + 2 == N && y + 2 == M <==> Arrived(final))
    {
      WalkingEnd(g, s, fuel, remaining, final);
    }

    /** The loop variables of calculate follow the walk state s, which is on its way to `final`. */
    ghost predicate Tracks(g: Cells, s: WalkState, fuel: nat, remaining: nat, final: WalkState, x: int, y: int, dir: int, steps: int)
      reads counts
    {
      Walking(g, s, fuel, remaining, final) &&
      s.x == x && s.y == y && s.dir == dir && s.counts == IntSnapshot(counts) && s.steps == steps
    }

    /**
     * One iteration of the loop of calculate: count the cell, find the least
     * count, choose a direction and move; the walk state advances by one Step.
     */
    method WalkStep(ghost g: Cells, ghost s: WalkState, ghost fuel: nat, remaining: nat, ghost final: WalkState, x: int, y: int, dir: int, steps: int)
      returns (ghost t: WalkState, nextX: int, nextY: int, nextDir: int)
      requires g == Snapshot(wall) && Shaped(wall) && counts.Length0 == N && counts.Length1 == M
      requires Tracks(g, s, fuel, remaining + 1, final, x, y, dir, steps) && !Arrived(s)
      modifies counts
      ensures Tracks(g, t, fuel, remaining, final, nextX, nextY, nextDir, steps + 1)
    {
      WalkingStep(g, s, fuel, remaining, final);
      StepParts(g, s);
      t := Step(g, s).value;
      counts[x, y] := counts[x, y] + 1;
      IntSnapshotEq(counts, t.counts);
      var minCnt := MinNeighbour(g, x, y);
      var selected := SelectDirection(g, x, y, dir, minCnt);
      nextDir := selected;
      nextX := x + Dx(nextDir);
      nextY := y + Dy(nextDir);
    }

    /** The zeroing loop of calculate. */
    method ResetCounts()
      requires counts.Length0 == N && counts.Length1 == M
      modifies counts
      ensures IntSnapshot(counts) == ZeroCounts()
    {
      for x := 0 to N
        invariant forall i, j :: 0 <= i < x && 0 <= j < M ==> counts[i, j] == 0
      {
        for y := 0 to M
          invariant forall i, j :: 0 <= i < x && 0 <= j < M ==> counts[i, j] == 0
          invariant forall j :: 0 <= j < y ==> counts[x, j] == 0
        {
          counts[x, y] := 0;
        }
      }
      IntSnapshotEq(counts, ZeroCounts());
    }

    /** The neighbour of (x, y) in direction `step`, read off the arrays. */
    lemma NeighbourAt(g: Cells, c: Counts, x: int, y: int, step: int)
      requires g == Snapshot(wall) && IsGrid(g) && c == IntSnapshot(counts)
      requires counts.Length0 == N && counts.Length1 == M && Interior(x, y) && 0 <= step < 4
      ensures Shaped(wall) && IsCounts(c) && InGrid(x + Dx(step), y + Dy(step))
      ensures Open(g, x, y, step) == !wall[x + Dx(step), y + Dy(step)]
      ensures Neighbour(c, x, y, step) == counts[x + Dx(step), y + Dy(step)]
    {
      assert |g[0]| == wall.Length1;
    }

    /** min_cnt: the least count among the free neighbours of (x, y), starting from 1e18. */
    method MinNeighbour(ghost g: Cells, x: int, y: int) returns (minCnt: int)
      requires g == Snapshot(wall) && IsGrid(g) && BorderWalled(g) && Free(g, x, y)
      requires counts.Length0 == N && counts.Length1 == M
      ensures minCnt == MinCount(g, IntSnapshot(counts), x, y)
    {
      ghost var c := IntSnapshot(counts);
      FreeIsInterior(g, x, y);
      minCnt := Cap;
      for step := 0 to 4
        invariant MinFrom(g, c, x, y, step, minCnt) == MinCount(g, c, x, y)
      {
        NeighbourAt(g, c, x, y, step);
        var toX, toY := x + Dx(step), y + Dy(step);
        if !wall[toX, toY] {
          minCnt := if counts[toX, toY] < minCnt then counts[toX, toY] else minCnt;
        }
      }
    }

    /** selected_dir: dir when its cell is free with the least count, else the first such direction, else -1. */
    method SelectDirection(ghost g: Cells, x: int, y: int, dir: int, minCnt: int) returns (selected: int)
      requires g == Snapshot(wall) && IsGrid(g) && BorderWalled(g) && Free(g, x, y) && 0 <= dir < 4
      requires counts.Length0 == N && counts.Length1 == M
      ensures selected == SelectDir(g, IntSnapshot(counts), x, y, dir, minCnt)
    {
      ghost var c := IntSnapshot(counts);
      FreeIsInterior(g, x, y);
      NeighbourAt(g, c, x, y, dir);
      var nextX, nextY := x + Dx(dir), y + Dy(dir);
      if !wall[nextX, nextY] && counts[nextX, nextY] == minCnt {
        selected := dir;
      } else {
        selected := FirstDirection(g, x, y, minCnt);
      }
    }

    /** The scan of the four directions in dx/dy order for the first free one of least count. */
    method FirstDirection(ghost g: Cells, x: int, y: int, minCnt: int) returns (selected: int)
      requires g == Snapshot(wall) && IsGrid(g) && Interior(x, y)
      requires counts.Length0 == N && counts.Length1 == M
      ensures selected == FirstFrom(g, IntSnapshot(counts), x, y, minCnt, 0)
    {
      ghost var c := IntSnapshot(counts);
      selected := -1;
      for step := 0 to 4
        invariant FirstFrom(g, c, x, y, minCnt, step) == FirstFrom(g, c, x, y, minCnt, 0)
      {
        NeighbourAt(g, c, x, y, step);
        var toX, toY := x + Dx(step), y + Dy(step);
        if !wall[toX, toY] && counts[toX, toY] == minCnt {
          return step;
        }
      }
    }

    /**
     * field_t(): every cell open and unmarked, then the four border lines
     * walled, then calculate.
     */
    constructor (fuel: nat)
      requires fuel <= Cap
      ensures Valid() && Snapshot(wall) == Blank() && result == WalkResult(Blank(), fuel)
      ensures fresh(wall) && fresh(counts) && fresh(queue) && fresh(used)
    {
      checkPathIteration := 0;
      var w := new bool[N, M];
      var u := new int[N, M];
      for x := 0 to N
        invariant forall i, j :: 0 <= i < x && 0 <= j < M ==> !w[i, j] && u[i, j] == 0
      {
        for y := 0 to M
          invariant forall i, j :: 0 <= i < x && 0 <= j < M ==> !w[i, j] && u[i, j] == 0
          invariant forall j :: 0 <= j < y ==> !w[x, j] && u[x, j] == 0
        {
          w[x, y] := false;
          u[x, y] := 0;
        }
      }
      for x := 0 to N
        invariant forall i, j :: InGrid(i, j) ==> (w[i, j] <==> i < x && (j == 0 || j == M - 1)) && u[i, j] == 0
      {
        w[x, 0] := true;
        w[x, M - 1] := true;
      }
      for y := 0 to M
        invariant forall i, j :: InGrid(i, j) ==> (w[i, j] <==> j == 0 || j == M - 1 || ((i == 0 || i == N - 1) && j < y)) && u[i, j] == 0
      {
        w[0, y] := true;
        w[N - 1, y] := true;
      }
      wall, used := w, u;
      counts := new int[N, M];
      queue := new int[N * M];
      new;
      BlankConsistent();
      SnapshotEq(wall, Blank());
      var walk := Calculate(fuel);
    }

    /** operator=: copies every wall cell and result, nothing else. */
    method Assign(other: FieldT)
      requires Valid() && Shaped(other.wall)
      modifies wall, this`result
      ensures Valid()
      ensures Snapshot(wall) == old(Snapshot(other.wall)) && result == old(other.result)
    {
      CopyCells(other.wall, wall);
      result := other.result;
    }

    /**
     * mutate, up to the flip: the cell of _gen_cell's draw changes between
     * wall and open. (connect and the recalculation that follow are not
     * part of this model.)
     */
    method Mutate(draw: nat)
      requires Shaped(wall)
      modifies wall
      ensures var c := MutatedCell(draw); Snapshot(wall) == Flip(old(Snapshot(wall)), c.0, c.1)
    {
      ghost var g := Snapshot(wall);
      var v := GenCell(draw);
      var x, y := v / (M - 2) + 1, v % (M - 2) + 1;
      MutatedCellInterior(draw);
      wall[x, y] := !wall[x, y];
      SnapshotEq(wall, Flip(g, x, y));
    }
  }


  // ---------------------------------------------------------------------
  // The cell choice of mutate.

  /** total = (x_size - 2) * (y_size - 2) - 2 = 549. */
  const CellTotal: int := (N - 2) * (M - 2) - 2

  /** _gen_cell: rand() % total + 1, a number in [1, total]. */
  function GenCell(draw: nat): (v: int)
    ensures 1 <= v <= CellTotal
  {
    draw % CellTotal + 1
  }

  /** The cell (v / (y_size - 2) + 1, v % (y_size - 2) + 1) of mutate. */
  function MutatedCell(draw: nat): (int, int) {
    var v := GenCell(draw);
    (v / (M - 2) + 1, v % (M - 2) + 1)
  }

  /** g with cell (x, y) toggled: wall[x][y] ^= true. */
  function Flip(g: Cells, x: int, y: int): (r: Cells)
    requires IsGrid(g) && InGrid(x, y)
    ensures IsGrid(r)
    ensures forall i, j :: InGrid(i, j) ==> (r[i][j] != g[i][j] <==> i == x && j == y)
  {
    g[x := g[x][y := !g[x][y]]]
  }

  /** The mutated cell is an interior cell other than the entry and the exit. */
  lemma MutatedCellInterior(draw: nat)
    ensures var c := MutatedCell(draw); Interior(c.0, c.1) && !IsFixedCell(c.0, c.1)
  {
    var v := GenCell(draw);
    assert v == (M - 2) * (v / (M - 2)) + v % (M - 2);
  }

  /** Every interior cell other than the entry and the exit is the mutated cell of some draw below total. */
  lemma MutatedCellOnto(x: int, y: int)
    requires Interior(x, y) && !IsFixedCell(x, y)
    ensures exists draw: nat :: draw < CellTotal && MutatedCell(draw) == (x, y)
  {
    // M - 2 == 29 columns of interior cells, numbered row by row.
    var v := (x - 1) * 29 + (y - 1);
    assert 1 <= v <= CellTotal;
    RowMajorIff(v, M - 2, x - 1, y - 1);
    var draw := v - 1;
    assert draw % CellTotal == draw;
    assert GenCell(draw) == v;
    assert MutatedCell(draw) == (x, y);
  }

  /** So a consistent grid stays consistent under the flip. */
  lemma FlipKeepsConsistent(g: Cells, draw: nat)
    requires IsGrid(g) && Consistent(g)
    ensures var c := MutatedCell(draw); Consistent(Flip(g, c.0, c.1))
  {
    MutatedCellInterior(draw);
  }

  // ---------------------------------------------------------------------
  // operator%.

  /** BLOCK_SIZE = 5. */
  const Blocks55: Tiling := Tiling(5, 5)

  /** The 5-by-5 blocks: 4 block rows and 6 block columns, 24 blocks. */
  lemma Blocks55Shape()
    ensures ValidTiling(Blocks55) && Rows(Blocks55) == 4 && Cols(Blocks55) == 6 && Count(Blocks55) == 24
  {
  }

  /**
   * operator%(left, right), before connect: a new field whose 5-by-5
   * blocks, taken row by row, each come from `left` when their coin is
   * true and from `right` otherwise; the border stays walled.
   */
  method Cross(left: FieldT, right: FieldT, coins: seq<bool>, fuel: nat) returns (child: FieldT)
    requires Shaped(left.wall) && Shaped(right.wall) && |coins| >= 24 && fuel <= Cap
    ensures fresh(child) && child.Valid()
    ensures Snapshot(child.wall) == Crossed(Blank(), Snapshot(right.wall), Snapshot(left.wall), Blocks55, coins)
    ensures child.result == WalkResult(Blank(), fuel)
  {
    child := new FieldT(fuel);
    CrossBlocks(child.wall, left, right, coins);
  }

  /** The block loops of operator%, writing into the child's blank grid. */
  method CrossBlocks(wall: array2<bool>, left: FieldT, right: FieldT, coins: seq<bool>)
    requires Shaped(wall) && Shaped(left.wall) && Shaped(right.wall) && wall != left.wall && wall != right.wall
    requires |coins| >= 24 && Snapshot(wall) == Blank()
    modifies wall
    ensures Snapshot(wall) == Crossed(Blank(), Snapshot(right.wall), Snapshot(left.wall), Blocks55, coins)
  {
    Blocks55Shape();
    ghost var a, b := Snapshot(right.wall), Snapshot(left.wall);
    PartialEnds(Blank(), a, b, Blocks55, coins);
    var k := 0;
    var xStart := 1;
    ghost var ti := 0;
    while xStart + 1 < N
      invariant 0 <= ti <= 4 && xStart == 1 + 5 * ti && k == 6 * ti
      invariant Snapshot(wall) == Partial(Blank(), a, b, Blocks55, coins, k)
    {
      k := CrossRow(wall, left, right, coins, ti, xStart, k);
      xStart, ti := xStart + 5, ti + 1;
    }
  }

  /** One row of blocks of operator%: the blocks starting at row xStart, left to right. */
  method CrossRow(wall: array2<bool>, left: FieldT, right: FieldT, coins: seq<bool>, ghost ti: int, xStart: int, k0: int)
    returns (k: int)
    requires Shaped(wall) && Shaped(left.wall) && Shaped(right.wall) && wall != left.wall && wall != right.wall
    requires |coins| >= 24 && 0 <= ti < 4 && xStart == 1 + 5 * ti && k0 == 6 * ti
    requires Snapshot(wall) == Partial(Blank(), Snapshot(right.wall), Snapshot(left.wall), Blocks55, coins, k0)
    modifies wall
    ensures k == k0 + 6
    ensures Snapshot(wall) == Partial(Blank(), Snapshot(right.wall), Snapshot(left.wall), Blocks55, coins, k)
  {
    Blocks55Shape();
    var t := Blocks55;
    ghost var a, b := Snapshot(right.wall), Snapshot(left.wall);
    k := k0;
    var yStart := 1;
    ghost var tj := 0;
    while yStart + 1 < M
      invariant 0 <= tj <= 6 && yStart == 1 + 5 * tj && k == k0 + tj
      invariant Snapshot(wall) == Partial(Blank(), a, b, t, coins, k)
    {
      StartOf(t, ti, tj);
      var isLeft := coins[k];
      var source := if isLeft then left else right;
      WriteBlock(wall, Snapshot(source.wall), t, k, xStart, yStart);
      PartialStep(Blank(), a, b, t, coins, k);
      k, yStart, tj := k + 1, yStart + 5, tj + 1;
    }
  }

  /**
   * Every cell of an operator% child before connect: the border is wall,
   * and an interior cell is the cell of `left` when the coin of its 5-by-5
   * block is true and of `right` otherwise, the block starting at row
   * 1 + 5a and column 1 + 5b.
   */
  lemma CrossCells(left: Cells, right: Cells, coins: seq<bool>, x: int, y: int)
    requires IsGrid(left) && IsGrid(right) && |coins| >= 24 && InGrid(x, y)
    ensures var c := Crossed(Blank(), right, left, Blocks55, coins);
      BorderWalled(c) &&
      (Interior(x, y) ==>
        var k := BlockIndex(Blocks55, x, y);
        0 <= k < 24 && InBlock(Blocks55, k, x, y) &&
        BlockTop(Blocks55, k) == 1 + 5 * ((x - 1) / 5) && BlockLeft(Blocks55, k) == 1 + 5 * ((y - 1) / 5) &&
        c[x][y] == (if coins[k] then left[x][y] else right[x][y]))
  {
    Blocks55Shape();
    var t := Blocks55;
    BlankConsistent();
    CrossedBorder(Blank(), right, left, t, coins);
    if Interior(x, y) {
      IndexInRange(t, x, y);
      var k := BlockIndex(t, x, y);
      InBlockIff(t, k, x, y);
      var a, b := (x - 1) / 5, (y - 1) / 5;
      RowMajorIff(k, 6, a, b);
    }
  }
}
