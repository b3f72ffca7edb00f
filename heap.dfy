/**
 * BugFieldMinimumHeap: a priority queue of fields ordered by ascending step
 * count. Its contents are modelled as a sequence whose order carries no
 * meaning (every contract speaks of its multiset); polling removes one
 * element of least step count.
 */
module Heap {
  import opened Wrappers
  import opened Grid

  /** The multiset of the values present in a row of optional fields. */
  function Present(s: seq<Option<Scored>>): multiset<Scored>
  {
    if s == [] then multiset{} else Present(s[..|s| - 1]) + (if s[|s| - 1].Some? then multiset{s[|s| - 1].value} else multiset{})
  }

  /** Every element has at least the step count of x. */
  predicate AtMost(x: Scored, items: seq<Scored>) {
    forall j :: 0 <= j < |items| ==> x.steps <= items[j].steps
  }

  /** The position of the first element of least step count. */
  method MinIndex(items: seq<Scored>) returns (k: int)
    requires items != []
    ensures 0 <= k < |items| && AtMost(items[k], items)
    ensures forall j :: 0 <= j < k ==> items[j].steps > items[k].steps
  {
    k := 0;
    for i := 1 to |items|
      invariant 0 <= k < i
      invariant forall j :: 0 <= j < i ==> items[k].steps <= items[j].steps
      invariant forall j :: 0 <= j < k ==> items[j].steps > items[k].steps
    {
      if items[i].steps < items[k].steps {
        k := i;
      }
    }
  }

  class MinHeap {
    var items: seq<Scored>

    constructor ()
      ensures items == []
    {
      items := [];
    }

    function Size(): nat
      reads this
    {
      |items|
    }

    method Add(x: Scored)
      modifies this
      ensures items == old(items) + [x]
      ensures multiset(items) == old(multiset(items)) + multiset{x}
    {
      items := items + [x];
    }

    /** peek: an element of least step count, the one poll would return. */
    method Peek() returns (x: Scored)
      requires items != []
      ensures x in items && AtMost(x, items)
    {
      var k := MinIndex(items);
      x := items[k];
    }

    /** poll: remove and return an element of least step count; None (null) when empty. */
    method Poll() returns (r: Option<Scored>)
      modifies this
      ensures old(items) == [] ==> r == None && items == []
      ensures old(items) != [] ==> r.Some? && r.value in old(items) && AtMost(r.value, old(items))
      ensures old(items) != [] ==> multiset(items) + multiset{r.value} == old(multiset(items))
      ensures old(items) != [] ==> exists k :: 0 <= k < |old(items)| && old(items)[k] == r.value && items == old(items)[..k] + old(items)[k + 1..]
    {
      if items == [] {
        return None;
      }
      var k := MinIndex(items);
      r := Some(items[k]);
      assert items == items[..k] + [items[k]] + items[k + 1..];
      items := items[..k] + items[k + 1..];
    }

    /**
     * The scan of hardMutations over the heap: whether some element has
     * step count s (the loop stops at the first one).
     */
    method ContainsSteps(s: int) returns (found: bool)
      ensures found <==> exists x :: x in items && x.steps == s
    {
      found := false;
      var i := 0;
      while i < |items|
        invariant 0 <= i <= |items|
        invariant found <==> exists j :: 0 <= j < i && items[j].steps == s
      {
        found := found || items[i].steps == s;
        i := i + 1;
        if found {
          break;
        }
      }
    }

    /**
     * fill: poll into positions size-1 down to 0. The filled positions hold
     * non-increasing step counts, and the heap's least elements move into
     * them, so every element left in the heap has at least the steps of
     * every filled one; when the heap runs out the lowest positions get None.
     */
    method Fill(fields: array<Option<Scored>>, size: int)
      requires 0 <= size <= fields.Length
      modifies this, fields
      ensures fields[size..] == old(fields[size..])
      ensures NoneThenSome(fields[..size], |old(items)|)
      ensures NonIncreasing(fields[..size])
      ensures |items| == if |old(items)| <= size then 0 else |old(items)| - size
      ensures Dominates(fields[..size], items)
      ensures Present(fields[..size]) + multiset(items) == old(multiset(items))
    {
      ghost var n0 := |items|;
      ghost var m0 := multiset(items);
      ghost var a := fields[..];
      var i := size - 1;
      assert a[i + 1..size] == [];
      while i >= 0
        invariant -1 <= i < size && |a| == fields.Length
        invariant fields[..] == a && a[size..] == old(fields[size..])
        invariant FillInv(a[i + 1..size], items, n0, m0)
      {
        ghost var before := items;
        var r := Poll();
        fields[i] := r;
        FillStep(a[i + 1..size], before, r, items, n0, m0);
        SliceFront(a, i, size, r);
        a := a[i := r];
        i := i - 1;
      }
      assert a[i + 1..size] == fields[..size];
    }
  }

  predicate NonIncreasing(fs: seq<Option<Scored>>) {
    forall a, b :: 0 <= a < b < |fs| && fs[a].Some? && fs[b].Some? ==> fs[a].value.steps >= fs[b].value.steps
  }

  /** The last k positions (all of them if fewer) are present, the others None. */
  predicate NoneThenSome(fs: seq<Option<Scored>>, k: int) {
    forall t :: 0 <= t < |fs| ==> (fs[t].Some? <==> t >= |fs| - k)
  }

  /** Nothing left in the heap has fewer steps than a filled value. */
  predicate Dominates(fs: seq<Option<Scored>>, items: seq<Scored>) {
    forall t, x :: 0 <= t < |fs| && fs[t].Some? && x in items ==> x.steps >= fs[t].value.steps
  }

  ghost predicate FillInv(fs: seq<Option<Scored>>, items: seq<Scored>, n0: nat, m0: multiset<Scored>) {
    NoneThenSome(fs, n0) &&
    |items| == (if n0 <= |fs| then 0 else n0 - |fs|) &&
    NonIncreasing(fs) && Dominates(fs, items) &&
    Present(fs) + multiset(items) == m0
  }

  /** Writing position i of a changes neither a[size..] nor a[i + 1..size]. */
  lemma SliceFront<T>(a: seq<T>, i: int, size: int, r: T)
    requires 0 <= i < size <= |a|
    ensures a[i := r][i..size] == [r] + a[i + 1..size]
    ensures a[i := r][size..] == a[size..]
  {
  }

  /** One poll of fill, placed in front of what was filled before. */
  lemma FillStep(fs: seq<Option<Scored>>, items: seq<Scored>, r: Option<Scored>, rest: seq<Scored>, n0: nat, m0: multiset<Scored>)
    requires FillInv(fs, items, n0, m0)
    requires items == [] ==> r == None && rest == []
    requires items != [] ==> r.Some? && r.value in items && AtMost(r.value, items)
    requires items != [] ==> multiset(rest) + multiset{r.value} == multiset(items)
    ensures FillInv([r] + fs, rest, n0, m0)
  {
    var fs' := [r] + fs;
    assert fs'[1..] == fs;
    PresentCons(fs');
    if r.Some? {
      forall x | x in rest
        ensures x.steps >= r.value.steps
      {
        assert x in multiset(rest);
        assert x in multiset(items);
        var j :| 0 <= j < |items| && items[j] == x;
      }
      forall t | 0 <= t < |fs| && fs[t].Some?
        ensures fs[t].value.steps <= r.value.steps
      {
        assert r.value in items;
      }
      forall x | x in rest
        ensures x in items
      {
        assert x in multiset(rest);
        assert x in multiset(items);
      }
    }
  }

  /** Present read from the front. */
  lemma {:induction false} PresentCons(s: seq<Option<Scored>>)
    requires s != []
    ensures Present(s) == (if s[0].Some? then multiset{s[0].value} else multiset{}) + Present(s[1..])
  {
    if |s| > 1 {
      PresentCons(s[..|s| - 1]);
      assert s[..|s| - 1][1..] == s[1..][..|s[1..]| - 1];
    } else {
      assert s[1..] == [] && s[..|s| - 1] == [];
    }
  }

  /** A value placed at some position is among the values present. */
  lemma {:induction false} PresentHas(s: seq<Option<Scored>>, k: int)
    requires 0 <= k < |s| && s[k].Some?
    ensures s[k].value in Present(s)
  {
    if k < |s| - 1 {
      PresentHas(s[..|s| - 1], k);
    }
  }
}
