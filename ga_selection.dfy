/**
 * The selection step of BugFieldGeneticAlgorithm on values: sort the work
 * array by descending steps, pick the first field of every step count (at
 * most populationSize of them) into bestSelected, move the picked fields to
 * the front, and release every other field.
 */
module Survivors {
  import opened Wrappers
  import opened Grid

  // ---------------------------------------------------------------------
  // Arrays.sort with compareTo: descending steps, stable.

  predicate SortedDesc(s: seq<Scored>) {
    forall a, b :: 0 <= a < b < |s| ==> s[a].steps >= s[b].steps
  }

  /** Insert x after every element with at least its steps. */
  function Insert(x: Scored, s: seq<Scored>): (r: seq<Scored>)
    ensures |r| == |s| + 1
  {
    if s == [] then [x]
    else if s[|s| - 1].steps >= x.steps then s + [x]
    else Insert(x, s[..|s| - 1]) + [s[|s| - 1]]
  }

  /** Insertion sort, taking the elements from the front: equal step counts keep their order. */
  function SortDesc(s: seq<Scored>): (r: seq<Scored>)
    ensures |r| == |s|
  {
    if s == [] then [] else Insert(s[|s| - 1], SortDesc(s[..|s| - 1]))
  }

  lemma {:induction false} InsertPermutes(x: Scored, s: seq<Scored>)
    ensures multiset(Insert(x, s)) == multiset(s) + multiset{x}
    decreases |s|
  {
    if s != [] && s[|s| - 1].steps < x.steps {
      InsertPermutes(x, s[..|s| - 1]);
      assert s == s[..|s| - 1] + [s[|s| - 1]];
    }
  }

  lemma {:induction false} InsertSorted(x: Scored, s: seq<Scored>)
    requires SortedDesc(s)
    ensures SortedDesc(Insert(x, s))
    decreases |s|
  {
    if s != [] && s[|s| - 1].steps < x.steps {
      var init, last := s[..|s| - 1], s[|s| - 1];
      InsertSorted(x, init);
      InsertPermutes(x, init);
      var r := Insert(x, init);
      forall a | 0 <= a < |r|
        ensures r[a].steps >= last.steps
      {
        assert r[a] in multiset(init) + multiset{x};
        if r[a] != x {
          assert r[a] in init;
        }
      }
    }
  }

  /** Sorting yields a descending permutation of its input. */
  lemma {:induction false} SortDescCorrect(s: seq<Scored>)
    ensures SortedDesc(SortDesc(s)) && multiset(SortDesc(s)) == multiset(s)
    decreases |s|
  {
    if s != [] {
      var init := s[..|s| - 1];
      SortDescCorrect(init);
      InsertSorted(s[|s| - 1], SortDesc(init));
      InsertPermutes(s[|s| - 1], SortDesc(init));
      assert s == init + [s[|s| - 1]];
    }
  }

  // ---------------------------------------------------------------------
  // The picks: the first position of every step count.

  /** Position i starts a new step count: `i == 0 || fields[i].steps != fields[i - 1].steps`. */
  predicate IsLeader(s: seq<Scored>, i: int) {
    0 <= i < |s| && (i == 0 || s[i].steps != s[i - 1].steps)
  }

  /** The leading positions among the first n. */
  function Leaders(s: seq<Scored>, n: nat): (b: seq<int>)
    requires n <= |s|
    ensures |b| <= n && forall k :: 0 <= k < |b| ==> 0 <= b[k] < n
  {
    if n == 0 then [] else Leaders(s, n - 1) + (if IsLeader(s, n - 1) then [n - 1] else [])
  }

  predicate StrictlyIncreasing(b: seq<int>) {
    forall x, y :: 0 <= x < y < |b| ==> b[x] < b[y]
  }

  /**
   * Leaders lists exactly the leading positions below n, in increasing
   * order, and a shorter scan lists a prefix of a longer one.
   */
  lemma {:induction false} LeadersExact(s: seq<Scored>, n: nat)
    requires n <= |s|
    ensures |Leaders(s, n)| <= n && StrictlyIncreasing(Leaders(s, n))
    ensures forall i :: i in Leaders(s, n) <==> 0 <= i < n && IsLeader(s, i)
  {
    if n > 0 {
      LeadersExact(s, n - 1);
    }
  }

  lemma {:induction false} LeadersPrefix(s: seq<Scored>, i: nat, n: nat)
    requires i <= n <= |s|
    ensures |Leaders(s, i)| <= |Leaders(s, n)| && Leaders(s, i) == Leaders(s, n)[..|Leaders(s, i)|]
    decreases n
  {
    if i < n {
      LeadersPrefix(s, i, n - 1);
    }
  }

  /** In a sorted array a leading position is the first one of its step count. */
  lemma LeaderIsFirst(s: seq<Scored>, i: int, j: int)
    requires SortedDesc(s) && IsLeader(s, i) && 0 <= j < i
    ensures s[j].steps > s[i].steps
  {
    assert s[j].steps >= s[i - 1].steps;
  }

  /** In a sorted array the step counts at the leading positions strictly decrease. */
  lemma LeadersDecrease(s: seq<Scored>)
    requires SortedDesc(s)
    ensures var b := Leaders(s, |s|); forall x, y :: 0 <= x < y < |b| ==> s[b[x]].steps > s[b[y]].steps
  {
    var b := Leaders(s, |s|);
    LeadersExact(s, |s|);
    forall x, y | 0 <= x < y < |b|
      ensures s[b[x]].steps > s[b[y]].steps
    {
      assert b[y] in b;
      LeaderIsFirst(s, b[y], b[x]);
    }
  }

  /** In a sorted array every step count present has its leading position among the picks. */
  lemma LeaderOfEach(s: seq<Scored>, j: int) returns (x: int)
    requires SortedDesc(s) && 0 <= j < |s|
    ensures 0 <= x < |Leaders(s, |s|)| && Leaders(s, |s|)[x] <= j && s[Leaders(s, |s|)[x]].steps == s[j].steps
  {
    var i := FirstOfSteps(s, j);
    LeadersExact(s, |s|);
    assert i in Leaders(s, |s|);
    x :| 0 <= x < |Leaders(s, |s|)| && Leaders(s, |s|)[x] == i;
  }

  /** The first position whose step count is that of position j. */
  lemma {:induction false} FirstOfSteps(s: seq<Scored>, j: int) returns (i: int)
    requires SortedDesc(s) && 0 <= j < |s|
    ensures 0 <= i <= j && IsLeader(s, i) && s[i].steps == s[j].steps
    decreases j
  {
    if j == 0 || s[j].steps != s[j - 1].steps {
      i := j;
    } else {
      i := FirstOfSteps(s, j - 1);
    }
  }

  /**
   * The bestSelected array after the pick loop: the first populationSize
   * leading positions, or all of them followed by whatever the earlier
   * rounds left behind.
   */
  function Picked(s: seq<Scored>, stale: seq<int>, populationSize: nat): (b: seq<int>)
    requires |stale| == populationSize
    ensures |b| == populationSize
  {
    var all := Leaders(s, |s|);
    if |all| >= populationSize then all[..populationSize] else all + stale[|all|..]
  }

  /** selectedCount: how many positions the pick loop found. */
  function PickedCount(s: seq<Scored>, populationSize: nat): nat
  {
    if |Leaders(s, |s|)| >= populationSize then populationSize else |Leaders(s, |s|)|
  }

  // ---------------------------------------------------------------------
  // Compaction.

  function Somes(s: seq<Scored>): (r: seq<Option<Scored>>)
    ensures |r| == |s| && forall k :: 0 <= k < |s| ==> r[k] == Some(s[k])
  {
    seq(|s|, k requires 0 <= k < |s| => Some(s[k]))
  }

  predicate InRange(b: seq<int>, len: int) {
    forall k :: 0 <= k < |b| ==> 0 <= b[k] < len
  }

  datatype Compacted = Compacted(slots: seq<Option<Scored>>, released: seq<Scored>)

  /**
   * The first n rounds of the compaction loop: when bestSelected[i] != i,
   * the field in slot i is released (if any), slot i takes the field of
   * slot bestSelected[i], and that slot is cleared.
   */
  function Compact(fs: seq<Option<Scored>>, b: seq<int>, n: nat): (r: Compacted)
    requires n <= |b| && n <= |fs| && InRange(b, |fs|)
    ensures |r.slots| == |fs|
  {
    if n == 0 then Compacted(fs, [])
    else
      var c := Compact(fs, b, n - 1);
      var i := n - 1;
      if b[i] == i then c
      else Compacted(c.slots[i := c.slots[b[i]]][b[i] := None], c.released + (if c.slots[i].Some? then [c.slots[i].value] else []))
  }

  /** The fields at positions lo..hi-1 that are present and not listed in `picked`, in order. */
  function Unpicked(fs: seq<Option<Scored>>, picked: seq<int>, lo: int, hi: int): seq<Scored>
    requires 0 <= lo <= hi <= |fs|
    decreases hi - lo
  {
    if lo == hi then []
    else Unpicked(fs, picked, lo, hi - 1) + (if fs[hi - 1].Some? && hi - 1 !in picked then [fs[hi - 1].value] else [])
  }

  /** The first k picks are valid: strictly increasing positions, each at least its own index. */
  predicate GoodPicks(b: seq<int>, k: int) {
    k <= |b| &&
    (forall x, y :: 0 <= x < y < k ==> b[x] < b[y]) &&
    (forall x :: 0 <= x < k ==> b[x] >= x)
  }

  /**
   * With valid picks, the first n rounds move the picked fields to the
   * front in order, clear the picked slots further right, and release
   * exactly the unpicked fields of slots 0..n-1.
   */
  lemma {:induction false} CompactFront(fs: seq<Option<Scored>>, b: seq<int>, k: nat, n: nat)
    requires n <= k <= |b| && k <= |fs| && InRange(b, |fs|) && GoodPicks(b, k)
    ensures var c := Compact(fs, b, n);
      (forall i :: 0 <= i < n ==> c.slots[i] == fs[b[i]]) &&
      (forall t :: n <= t < |fs| ==> c.slots[t] == if t in b[..n] then None else fs[t]) &&
      c.released == Unpicked(fs, b[..k], 0, n)
  {
    if n > 0 {
      CompactFront(fs, b, k, n - 1);
      CompactStep(fs, b, k, n - 1);
    }
  }

  /** Round i of the compaction, from the description of the first i rounds. */
  lemma CompactStep(fs: seq<Option<Scored>>, b: seq<int>, k: nat, i: nat)
    requires i < k <= |b| && k <= |fs| && InRange(b, |fs|) && GoodPicks(b, k)
    requires var c := Compact(fs, b, i);
      (forall x :: 0 <= x < i ==> c.slots[x] == fs[b[x]]) &&
      (forall t :: i <= t < |fs| ==> c.slots[t] == if t in b[..i] then None else fs[t]) &&
      c.released == Unpicked(fs, b[..k], 0, i)
    ensures var c := Compact(fs, b, i + 1);
      (forall x :: 0 <= x < i + 1 ==> c.slots[x] == fs[b[x]]) &&
      (forall t :: i + 1 <= t < |fs| ==> c.slots[t] == if t in b[..i + 1] then None else fs[t]) &&
      c.released == Unpicked(fs, b[..k], 0, i + 1)
  {
    var c := Compact(fs, b, i);
    var d := Compact(fs, b, i + 1);
    assert b[..i + 1] == b[..i] + [b[i]];
    assert b[i] !in b[..i];
    PickedBefore(b, k, i);
    assert c.slots[b[i]] == fs[b[i]];
    assert c.slots[i] == if i in b[..k] && b[i] != i then None else fs[i];
    if b[i] == i {
      assert d == c;
    } else {
      assert d.slots == c.slots[i := c.slots[b[i]]][b[i] := None];
      forall t | i + 1 <= t < |fs|
        ensures d.slots[t] == if t in b[..i + 1] then None else fs[t]
      {
        assert t in b[..i + 1] <==> t in b[..i] || t == b[i];
      }
    }
  }

  /** Position i is among the first k picks exactly when an earlier pick or pick i itself is i. */
  lemma PickedBefore(b: seq<int>, k: nat, i: nat)
    requires i < k && GoodPicks(b, k)
    ensures i in b[..k] <==> i in b[..i] || b[i] == i
  {
    if i in b[..k] {
      var x :| 0 <= x < k && b[x] == i;
      assert x <= i;
    }
    if b[i] == i {
      assert b[..k][i] == i;
    }
  }

  // ---------------------------------------------------------------------
  // Selection, whole.

  datatype Selected = Selected(slots: seq<Option<Scored>>, released: seq<Scored>, picked: seq<int>)

  /** The sort, the pick loop and the compaction over `rounds` slots, then the release of slots P..length-1. */
  function SelectWith(fs: seq<Scored>, stale: seq<int>, populationSize: nat, rounds: nat): (r: Selected)
    requires populationSize <= |fs| && |stale| == populationSize && InRange(stale, |fs|)
    requires rounds <= populationSize
    ensures |r.slots| == |fs| && |r.picked| == populationSize && InRange(r.picked, |fs|)
  {
    var s := SortDesc(fs);
    LeadersExact(s, |s|);
    var b := Picked(s, stale, populationSize);
    var c := Compact(Somes(s), b, rounds);
    Selected(c.slots, c.released + Unpicked(c.slots, [], populationSize, |fs|), b)
  }

  /**
   * selection() as written: the compaction loop runs over all
   * populationSize slots, also where fewer positions were picked and
   * bestSelected still holds an earlier round's entries.
   */
  function SelectAsWritten(fs: seq<Scored>, stale: seq<int>, populationSize: nat): (r: Selected)
    requires populationSize <= |fs| && |stale| == populationSize && InRange(stale, |fs|)
  {
    SelectWith(fs, stale, populationSize, populationSize)
  }

  /**
   * selection() with the compaction loop over the selectedCount picked
   * slots only, still clearing the slot a field moves out of.
   */
  function SelectBounded(fs: seq<Scored>, stale: seq<int>, populationSize: nat): (r: Selected)
    requires populationSize <= |fs| && |stale| == populationSize && InRange(stale, |fs|)
  {
    SelectWith(fs, stale, populationSize, PickedCount(SortDesc(fs), populationSize))
  }

  /**
   * The first n rounds of the compaction with an exchange instead of a
   * clear: when bestSelected[i] != i, slots i and bestSelected[i] trade
   * their fields, so no field is lost and no slot is emptied.
   */
  function SwapPicked(fs: seq<Option<Scored>>, b: seq<int>, n: nat): (r: seq<Option<Scored>>)
    requires n <= |b| && n <= |fs| && InRange(b, |fs|)
    ensures |r| == |fs|
  {
    if n == 0 then fs
    else
      var c := SwapPicked(fs, b, n - 1);
      var i := n - 1;
      if b[i] == i then c else c[i := c[b[i]]][b[i] := c[i]]
  }

  /** The exchanges permute the slots. */
  lemma {:induction false} SwapPickedPermutes(fs: seq<Option<Scored>>, b: seq<int>, n: nat)
    requires n <= |b| && n <= |fs| && InRange(b, |fs|)
    ensures multiset(SwapPicked(fs, b, n)) == multiset(fs)
  {
    if n > 0 {
      SwapPickedPermutes(fs, b, n - 1);
      var c := SwapPicked(fs, b, n - 1);
      var d := SwapPicked(fs, b, n);
      var i := n - 1;
      SwapPickedNext(fs, b, i);
      if b[i] != i {
        SwapPermutes(c, d, i, b[i]);
      }
    }
  }

  /** One more round of the exchanges. */
  lemma SwapPickedNext(fs: seq<Option<Scored>>, b: seq<int>, i: nat)
    requires i < |b| && i < |fs| && InRange(b, |fs|)
    ensures var c := SwapPicked(fs, b, i);
      SwapPicked(fs, b, i + 1) == if b[i] == i then c else c[i := c[b[i]]][b[i] := c[i]]
  {
  }

  /** Exchanging two slots keeps the multiset of slots. */
  lemma SwapPermutes(c: seq<Option<Scored>>, d: seq<Option<Scored>>, i: int, j: int)
    requires 0 <= i < |c| && 0 <= j < |c| && d == c[i := c[j]][j := c[i]]
    ensures multiset(d) == multiset(c)
  {
    var e := c[i := c[j]];
    assert multiset(e) == multiset(c) - multiset{c[i]} + multiset{c[j]};
    if i != j {
      assert e[j] == c[j];
    }
  }

  /**
   * With valid picks, the first n exchanges put the picked fields in
   * slots 0..n-1, and the slots of the later picks are still untouched.
   */
  lemma {:induction false} SwapFront(fs: seq<Option<Scored>>, b: seq<int>, k: nat, n: nat)
    requires n <= k <= |b| && k <= |fs| && InRange(b, |fs|) && GoodPicks(b, k)
    ensures var c := SwapPicked(fs, b, n);
      (forall i :: 0 <= i < n ==> c[i] == fs[b[i]]) &&
      (forall x :: n <= x < k ==> c[b[x]] == fs[b[x]])
  {
    if n > 0 {
      SwapFront(fs, b, k, n - 1);
      var c := SwapPicked(fs, b, n - 1);
      var i := n - 1;
      assert c[b[i]] == fs[b[i]];
      forall x | n <= x < k
        ensures b[x] != i && b[x] != b[i]
      {
        assert b[i] < b[x];
      }
    }
  }

  /**
   * selection() with the evidently intended compaction: over the
   * selectedCount picked slots, exchanging slot i with slot
   * bestSelected[i], then releasing slots P..length-1.
   */
  function Select(fs: seq<Scored>, stale: seq<int>, populationSize: nat): (r: Selected)
    requires populationSize <= |fs| && |stale| == populationSize && InRange(stale, |fs|)
    ensures |r.slots| == |fs| && |r.picked| == populationSize
  {
    var s := SortDesc(fs);
    LeadersExact(s, |s|);
    var b := Picked(s, stale, populationSize);
    var slots := SwapPicked(Somes(s), b, PickedCount(s, populationSize));
    Selected(slots, Unpicked(slots, [], populationSize, |fs|), b)
  }

  /** Exchanges never empty a slot. */
  lemma SwapPresent(fs: seq<Option<Scored>>, b: seq<int>, n: nat)
    requires n <= |b| && n <= |fs| && InRange(b, |fs|) && forall t :: 0 <= t < |fs| ==> fs[t].Some?
    ensures forall t :: 0 <= t < |fs| ==> SwapPicked(fs, b, n)[t].Some?
  {
    var slots := SwapPicked(fs, b, n);
    SwapPickedPermutes(fs, b, n);
    forall t | 0 <= t < |slots|
      ensures slots[t].Some?
    {
      assert slots[t] in multiset(fs);
    }
  }

  lemma {:induction false} UnpickedSplit(fs: seq<Option<Scored>>, picked: seq<int>, lo: int, mid: int, hi: int)
    requires 0 <= lo <= mid <= hi <= |fs|
    ensures Unpicked(fs, picked, lo, hi) == Unpicked(fs, picked, lo, mid) + Unpicked(fs, picked, mid, hi)
    decreases hi - mid
  {
    if mid < hi {
      UnpickedSplit(fs, picked, lo, mid, hi - 1);
    }
  }

  /** Two arrays that differ only where `picked` clears slots release the same fields. */
  lemma {:induction false} UnpickedCleared(g: seq<Option<Scored>>, fs: seq<Option<Scored>>, picked: seq<int>, lo: int, hi: int)
    requires 0 <= lo <= hi <= |fs| == |g|
    requires forall t :: lo <= t < hi ==> g[t] == if t in picked then None else fs[t]
    ensures Unpicked(g, [], lo, hi) == Unpicked(fs, picked, lo, hi)
    decreases hi - lo
  {
    if lo < hi {
      UnpickedCleared(g, fs, picked, lo, hi - 1);
    }
  }

  /**
   * What selection leaves: the k = selectedCount picked fields in slots
   * 0..k-1, one per step count; every slot holds a field, the slots are a
   * permutation of the sorted work array, and the released fields are the
   * fields of slots populationSize..length-1, in order.
   */
  lemma SelectSurvivors(fs: seq<Scored>, stale: seq<int>, populationSize: nat)
    requires populationSize <= |fs| && |stale| == populationSize && InRange(stale, |fs|)
    ensures var s := SortDesc(fs); var r := Select(fs, stale, populationSize);
      var k := PickedCount(s, populationSize); var b := r.picked[..k];
      b == Leaders(s, |s|)[..k] &&
      (forall i :: 0 <= i < k ==> IsLeader(s, b[i]) && r.slots[i] == Some(s[b[i]])) &&
      (forall t :: 0 <= t < |r.slots| ==> r.slots[t].Some?) &&
      multiset(r.slots) == multiset(Somes(s)) &&
      |r.released| == |fs| - populationSize &&
      (forall t :: populationSize <= t < |fs| ==> r.released[t - populationSize] == r.slots[t].value)
  {
    var s := SortDesc(fs);
    var k := PickedCount(s, populationSize);
    var bp := Picked(s, stale, populationSize);
    var slots := SwapPicked(Somes(s), bp, k);
    assert Select(fs, stale, populationSize) == Selected(slots, Unpicked(slots, [], populationSize, |fs|), bp);
    PickedGood(s, stale, populationSize);
    SwapFront(Somes(s), bp, k, k);
    SwapPresent(Somes(s), bp, k);
    SwapPickedPermutes(Somes(s), bp, k);
    UnpickedAllPresent(slots, populationSize, |fs|);
  }

  /** With every slot present, the release loop lists the slots' fields in order. */
  lemma {:induction false} UnpickedAllPresent(g: seq<Option<Scored>>, lo: int, hi: int)
    requires 0 <= lo <= hi <= |g| && forall t :: lo <= t < hi ==> g[t].Some?
    ensures |Unpicked(g, [], lo, hi)| == hi - lo
    ensures forall t :: lo <= t < hi ==> Unpicked(g, [], lo, hi)[t - lo] == g[t].value
    decreases hi - lo
  {
    if lo < hi {
      UnpickedAllPresent(g, lo, hi - 1);
    }
  }

  /**
   * What the bounded compaction leaves: the k = selectedCount picked fields
   * in slots 0..k-1; the slots k..populationSize-1 keep their sorted field
   * unless it was picked, and are empty where it was; the released fields
   * are exactly the unpicked ones outside those slots.
   */
  lemma BoundedSurvivors(fs: seq<Scored>, stale: seq<int>, populationSize: nat)
    requires populationSize <= |fs| && |stale| == populationSize && InRange(stale, |fs|)
    ensures var s := SortDesc(fs); var r := SelectBounded(fs, stale, populationSize);
      var k := PickedCount(s, populationSize); var b := r.picked[..k];
      b == Leaders(s, |s|)[..k] &&
      (forall i :: 0 <= i < k ==> IsLeader(s, b[i]) && r.slots[i] == Some(s[b[i]])) &&
      (forall t :: k <= t < populationSize ==> r.slots[t] == if t in b then None else Some(s[t])) &&
      r.released == Unpicked(Somes(s), b, 0, k) + Unpicked(Somes(s), b, populationSize, |s|)
  {
    var s := SortDesc(fs);
    var k := PickedCount(s, populationSize);
    var bp := Picked(s, stale, populationSize);
    PickedGood(s, stale, populationSize);
    var c := Compact(Somes(s), bp, k);
    CompactFront(Somes(s), bp, k, k);
    assert bp[..k][..k] == bp[..k];
    UnpickedCleared(c.slots, Somes(s), bp[..k], populationSize, |s|);
  }

  /** The first selectedCount entries of bestSelected are valid picks, all of them leading positions. */
  lemma PickedGood(s: seq<Scored>, stale: seq<int>, populationSize: nat)
    requires populationSize <= |s| && |stale| == populationSize
    ensures var k := PickedCount(s, populationSize); var bp := Picked(s, stale, populationSize);
      GoodPicks(bp, k) && bp[..k] == Leaders(s, |s|)[..k] && forall i :: 0 <= i < k ==> IsLeader(s, bp[i])
  {
    var all := Leaders(s, |s|);
    var k := PickedCount(s, populationSize);
    var bp := Picked(s, stale, populationSize);
    if |all| >= populationSize {
      assert bp == all[..populationSize];
    } else {
      assert bp[..|all|] == all;
    }
    assert forall i :: 0 <= i < k ==> bp[i] == all[i];
    LeadersGood(s, k);
  }

  /** The first k leading positions are valid picks, all of them leading positions. */
  lemma LeadersGood(s: seq<Scored>, k: int)
    requires 0 <= k <= |Leaders(s, |s|)|
    ensures var all := Leaders(s, |s|); GoodPicks(all, k) && forall i :: 0 <= i < k ==> IsLeader(s, all[i])
  {
    var all := Leaders(s, |s|);
    LeadersExact(s, |s|);
    forall x | 0 <= x < k
      ensures all[x] >= x && IsLeader(s, all[x])
    {
      LeadersAtLeast(s, x);
      assert all[x] in all;
    }
  }

  /**
   * The survivors of selection, in order of the sorted array: one field per
   * step count, strictly decreasing in steps, and, when fewer than
   * populationSize were found, every step count of the work array among
   * them; the sort only reorders the work array.
   */
  lemma SurvivorsDistinct(fs: seq<Scored>, populationSize: nat)
    ensures var s := SortDesc(fs); var k := PickedCount(s, populationSize); var b := Leaders(s, |s|);
      multiset(s) == multiset(fs) && k <= |b| &&
      (forall x, y :: 0 <= x < y < k ==> s[b[x]].steps > s[b[y]].steps) &&
      (k < populationSize ==> forall j :: 0 <= j < |s| ==> exists x :: 0 <= x < k && s[b[x]].steps == s[j].steps)
  {
    var s := SortDesc(fs);
    SortDescCorrect(fs);
    LeadersDecrease(s);
    var k := PickedCount(s, populationSize);
    if k < populationSize {
      forall j | 0 <= j < |s|
        ensures exists x :: 0 <= x < k && s[Leaders(s, |s|)[x]].steps == s[j].steps
      {
        var x := LeaderOfEach(s, j);
      }
    }
  }

  /** The x-th leading position is at least x. */
  lemma LeadersAtLeast(s: seq<Scored>, x: int)
    requires 0 <= x < |Leaders(s, |s|)|
    ensures Leaders(s, |s|)[x] >= x
  {
    var b := Leaders(s, |s|);
    LeadersExact(s, |s|);
    IncreasingAtLeast(b, x);
  }

  lemma {:induction false} IncreasingAtLeast(b: seq<int>, x: int)
    requires StrictlyIncreasing(b) && 0 <= x < |b| && forall k :: 0 <= k < |b| ==> b[k] >= 0
    ensures b[x] >= x
  {
    if x > 0 {
      IncreasingAtLeast(b, x - 1);
    }
  }

  /**
   * With at least populationSize step counts the loop bound does not
   * matter: selection as written and the bounded compaction agree.
   */
  lemma AsWrittenAgrees(fs: seq<Scored>, stale: seq<int>, populationSize: nat)
    requires populationSize <= |fs| && |stale| == populationSize && InRange(stale, |fs|)
    requires |Leaders(SortDesc(fs), |fs|)| >= populationSize
    ensures SelectAsWritten(fs, stale, populationSize) == SelectBounded(fs, stale, populationSize)
  {
  }

  /**
   * Where the code as written works, with at least populationSize step
   * counts, the corrected selection keeps the same population.
   */
  lemma CorrectedAgrees(fs: seq<Scored>, stale: seq<int>, populationSize: nat)
    requires populationSize <= |fs| && |stale| == populationSize && InRange(stale, |fs|)
    requires |Leaders(SortDesc(fs), |fs|)| >= populationSize
    ensures Select(fs, stale, populationSize).slots[..populationSize] ==
            SelectAsWritten(fs, stale, populationSize).slots[..populationSize]
  {
    var s := SortDesc(fs);
    var k := PickedCount(s, populationSize);
    assert k == populationSize;
    var r := Select(fs, stale, populationSize);
    var a := SelectBounded(fs, stale, populationSize);
    AsWrittenAgrees(fs, stale, populationSize);
    SelectSurvivors(fs, stale, populationSize);
    BoundedSurvivors(fs, stale, populationSize);
    assert r.picked == a.picked;
    forall i | 0 <= i < populationSize
      ensures r.slots[i] == a.slots[i]
    {
      assert r.slots[i] == Some(s[r.picked[..k][i]]);
    }
  }

  /**
   * The stale entries are read: with two population slots and five fields
   * of one step count, only position 0 is picked, and the bestSelected
   * entry 0 a fresh algorithm holds in slot 1 moves the best field to
   * slot 1 and leaves slot 0 empty. The corrected selection keeps both
   * population slots filled.
   */
  lemma StaleSelectionClearsBest(x: Scored)
    ensures var fs := [x, x, x, x, x];
      Leaders(SortDesc(fs), 5) == [0] &&
      SelectAsWritten(fs, [0, 0], 2).slots[0] == None &&
      Select(fs, [0, 0], 2).slots[..2] == [Some(x), Some(x)]
  {
    var fs := [x, x, x, x, x];
    SortedUnchanged(fs);
    StaleLeaders(x);
    assert Picked(fs, [0, 0], 2) == [0, 0];
    assert PickedCount(fs, 2) == 1;
    StaleCompaction(x);
    assert SwapPicked(Somes(fs), [0, 0], 1) == Somes(fs);
  }

  /**
   * Bounding the compaction loop is not enough: with three population
   * slots and step counts [10, 10, 9, 9, 9, 9, 9, 9, 9], positions 0 and 2
   * are picked, round 1 moves slot 2 to slot 1 and empties slot 2. The
   * loop as written then also empties slot 0. The exchange keeps all
   * three slots filled, with a second field of the best step count.
   */
  lemma BoundedLeavesGap(x: Scored, y: Scored)
    requires x.steps > y.steps
    ensures var fs := [x, x, y, y, y, y, y, y, y];
      Leaders(SortDesc(fs), 9) == [0, 2] &&
      SelectBounded(fs, [0, 0, 0], 3).slots[2] == None &&
      SelectAsWritten(fs, [0, 0, 0], 3).slots[0] == None &&
      Select(fs, [0, 0, 0], 3).slots[..3] == [Some(x), Some(y), Some(x)]
  {
    GapPicks(x, y);
    GapBounded(x, y);
    GapAsWritten(x, y);
    GapSelect(x, y);
  }

  lemma GapBounded(x: Scored, y: Scored)
    requires x.steps > y.steps
    ensures SelectBounded([x, x, y, y, y, y, y, y, y], [0, 0, 0], 3).slots[2] == None
  {
    var fs := [x, x, y, y, y, y, y, y, y];
    GapPicks(x, y);
    GapCompact(Somes(fs), [0, 2, 0]);
  }

  lemma GapAsWritten(x: Scored, y: Scored)
    requires x.steps > y.steps
    ensures SelectAsWritten([x, x, y, y, y, y, y, y, y], [0, 0, 0], 3).slots[0] == None
  {
    var fs := [x, x, y, y, y, y, y, y, y];
    GapPicks(x, y);
    GapCompact(Somes(fs), [0, 2, 0]);
  }

  lemma GapSelect(x: Scored, y: Scored)
    requires x.steps > y.steps
    ensures Select([x, x, y, y, y, y, y, y, y], [0, 0, 0], 3).slots[..3] == [Some(x), Some(y), Some(x)]
  {
    var fs := [x, x, y, y, y, y, y, y, y];
    GapPicks(x, y);
    var fo := Somes(fs);
    GapSwap(fo, [0, 2, 0]);
    assert Select(fs, [0, 0, 0], 3).slots == SwapPicked(fo, [0, 2, 0], 2);
  }

  /** The sort keeps the gap input, and the pick loop takes positions 0 and 2. */
  lemma GapPicks(x: Scored, y: Scored)
    requires x.steps > y.steps
    ensures var fs := [x, x, y, y, y, y, y, y, y];
      SortDesc(fs) == fs && Leaders(fs, 9) == [0, 2] &&
      Picked(fs, [0, 0, 0], 3) == [0, 2, 0] && PickedCount(fs, 3) == 2
  {
    var fs := [x, x, y, y, y, y, y, y, y];
    SortedUnchanged(fs);
    GapLeaders(x, y);
  }

  /** Two bounded rounds empty slot 2; the third round as written empties slot 0. */
  lemma GapCompact(fo: seq<Option<Scored>>, b: seq<int>)
    requires |fo| == 9 && b == [0, 2, 0]
    ensures Compact(fo, b, 2).slots[2] == None && Compact(fo, b, 3).slots[0] == None
  {
    assert Compact(fo, b, 0) == Compacted(fo, []);
    assert Compact(fo, b, 1).slots == fo;
  }

  /** Two exchanges trade slots 1 and 2. */
  lemma GapSwap(fo: seq<Option<Scored>>, b: seq<int>)
    requires |fo| == 9 && b == [0, 2, 0]
    ensures SwapPicked(fo, b, 2)[..3] == [fo[0], fo[2], fo[1]]
  {
    assert SwapPicked(fo, b, 1) == fo;
  }

  /** Two fields of one step count, then seven of a lower one: leaders 0 and 2. */
  lemma GapLeaders(x: Scored, y: Scored)
    requires x.steps > y.steps
    ensures Leaders([x, x, y, y, y, y, y, y, y], 9) == [0, 2]
  {
    var s := [x, x, y, y, y, y, y, y, y];
    assert Leaders(s, 1) == [0];
    assert Leaders(s, 2) == [0];
    assert Leaders(s, 3) == [0, 2];
    assert Leaders(s, 4) == [0, 2];
    assert Leaders(s, 5) == [0, 2];
    assert Leaders(s, 6) == [0, 2];
    assert Leaders(s, 7) == [0, 2];
    assert Leaders(s, 8) == [0, 2];
  }

  /** Five fields of one step count have one leader, position 0. */
  lemma StaleLeaders(x: Scored)
    ensures Leaders([x, x, x, x, x], 5) == [0]
  {
    var s := [x, x, x, x, x];
    assert Leaders(s, 1) == [0];
    assert Leaders(s, 2) == [0];
    assert Leaders(s, 3) == [0];
    assert Leaders(s, 4) == [0];
  }

  /** Compacting with bestSelected == [0, 0]: one round keeps slot 0, two rounds empty it. */
  lemma StaleCompaction(x: Scored)
    ensures var fo := Somes([x, x, x, x, x]);
      Compact(fo, [0, 0], 1).slots[0] == Some(x) && Compact(fo, [0, 0], 2).slots[0] == None
  {
    var fo := Somes([x, x, x, x, x]);
    assert Compact(fo, [0, 0], 0) == Compacted(fo, []);
    assert Compact(fo, [0, 0], 1).slots == fo;
  }

  /** A sorted array is left as it is: the sort is stable. */
  lemma {:induction false} SortedUnchanged(s: seq<Scored>)
    requires SortedDesc(s)
    ensures SortDesc(s) == s
    decreases |s|
  {
    if s != [] {
      SortedUnchanged(s[..|s| - 1]);
      assert s == s[..|s| - 1] + [s[|s| - 1]];
    }
  }
}
