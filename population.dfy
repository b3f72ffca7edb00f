/**
 * The population of the C++ generate_winner: a std::set<Field> ordered by
 * operator<, which compares result only. The set is a strictly ascending
 * sequence of scored grids, so it keeps one field per result value, and
 * fields.begin() is the field of least result.
 */
module Population {
  import opened Grid

  /** operator<: left.result < right.result, nothing else. */
  predicate Less(left: Scored, right: Scored) {
    left.steps < right.steps
  }

  /** The set's order: strictly ascending results, so no two members share one. */
  predicate Ascending(s: seq<Scored>) {
    forall i, j :: 0 <= i < j < |s| ==> Less(s[i], s[j])
  }

  /** The result values held. */
  function Keys(s: seq<Scored>): set<int> {
    set y | y in s :: y.steps
  }

  /**
   * std::set::insert: a field whose result is already held is not inserted
   * (neither is equivalent-less than the other); otherwise it takes its
   * place in the order.
   */
  function Insert(s: seq<Scored>, x: Scored): (r: seq<Scored>)
    requires Ascending(s)
    ensures Ascending(r)
    ensures Keys(r) == Keys(s) + {x.steps}
    ensures forall y :: y in r <==> y in s || (y == x && x.steps !in Keys(s))
    ensures |r| == if x.steps in Keys(s) then |s| else |s| + 1
  {
    if s == [] then [x]
    else if Less(x, s[0]) then
      assert forall y :: y in s ==> x.steps < y.steps;
      [x] + s
    else if x.steps == s[0].steps then s
    else
      var rest := Insert(s[1..], x);
      assert Keys(s) == {s[0].steps} + Keys(s[1..]);
      assert s[0].steps !in Keys(s[1..]);
      ConsAscending(s[0], rest);
      [s[0]] + rest
  }

  /** A field below every member of an ordered set may go in front of it. */
  lemma ConsAscending(a: Scored, s: seq<Scored>)
    requires Ascending(s) && forall y :: y in s ==> Less(a, y)
    ensures Ascending([a] + s)
  {
    forall i, j | 0 <= i < j < |[a] + s|
      ensures Less(([a] + s)[i], ([a] + s)[j])
    {
      assert ([a] + s)[j] == s[j - 1];
    }
  }

  /** insert(first, last): each field of xs in turn. */
  function InsertAll(s: seq<Scored>, xs: seq<Scored>): (r: seq<Scored>)
    requires Ascending(s)
    ensures Ascending(r)
    ensures Keys(r) == Keys(s) + Keys(xs)
    ensures forall y :: y in s ==> y in r
    ensures forall y :: y in r ==> y in s || y in xs
    decreases |xs|
  {
    if xs == [] then s
    else
      assert Keys(xs) == {xs[0].steps} + Keys(xs[1..]);
      InsertAll(Insert(s, xs[0]), xs[1..])
  }

  /** insert(first, last) of one more field is one more insert. */
  lemma {:induction false} InsertAllSnoc(s: seq<Scored>, xs: seq<Scored>, x: Scored)
    requires Ascending(s)
    ensures InsertAll(s, xs + [x]) == Insert(InsertAll(s, xs), x)
    decreases |xs|
  {
    if xs == [] {
      assert [] + [x] == [x];
      assert InsertAll(s, [x]) == InsertAll(Insert(s, x), []);
    } else {
      assert (xs + [x])[1..] == xs[1..] + [x];
      InsertAllSnoc(Insert(s, xs[0]), xs[1..], x);
    }
  }

  /** The last min(k, size) members: [prev(end(), k), end()). */
  function Top(s: seq<Scored>, k: nat): seq<Scored> {
    s[|s| - if k < |s| then k else |s|..]
  }

  /** The top k of an ordered set: k members (or all), each above every member left out. */
  lemma TopIsBest(s: seq<Scored>, k: nat)
    requires Ascending(s)
    ensures |Top(s, k)| == if k < |s| then k else |s|
    ensures forall y :: y in Top(s, k) ==> y in s
    ensures forall y, z :: y in s && y !in Top(s, k) && z in Top(s, k) ==> Less(y, z)
  {
    var cut := |s| - if k < |s| then k else |s|;
    assert forall t :: cut <= t < |s| ==> s[t] == Top(s, k)[t - cut];
    forall y, z | y in s && y !in Top(s, k) && z in Top(s, k)
      ensures Less(y, z)
    {
      var i :| 0 <= i < |s| && s[i] == y;
      var j :| 0 <= j < |Top(s, k)| && Top(s, k)[j] == z;
      assert s[cut + j] == z;
    }
  }

  /**
   * `fields.size() > population_size` compares a size_t with an int, so
   * population_size is taken modulo 2^64 (a negative one becomes huge).
   */
  function Limit(populationSize: int): (limit: int)
    ensures 0 <= limit && (0 <= populationSize < 0x1_0000_0000_0000_0000 ==> limit == populationSize)
  {
    populationSize % 0x1_0000_0000_0000_0000
  }

  /** Some member of s has a result at least c's. */
  predicate Beaten(c: Scored, s: seq<Scored>) {
    exists k :: k in Keys(s) && c.steps <= k
  }

  /** The member of greatest result, *fields.rbegin(). */
  function Best(s: seq<Scored>): Scored
    requires s != []
  {
    s[|s| - 1]
  }

  lemma BestIsGreatest(s: seq<Scored>, k: int)
    requires Ascending(s) && k in Keys(s)
    ensures Best(s).steps >= k
  {
    var y :| y in s && y.steps == k;
    var i :| 0 <= i < |s| && s[i] == y;
    if i < |s| - 1 {
      assert Less(s[i], s[|s| - 1]);
    }
  }

  /**
   * The trim loop: while the set holds more than population_size fields,
   * erase begin(). What stays is the set's top: the fields of greatest
   * result, at most population_size of them, each above every erased one.
   */
  method Trim(fields: seq<Scored>, populationSize: int) returns (r: seq<Scored>)
    requires Ascending(fields)
    ensures Ascending(r)
    ensures |r| == if |fields| <= Limit(populationSize) then |fields| else Limit(populationSize)
    ensures fields == fields[..|fields| - |r|] + r
    ensures forall i, j :: 0 <= i < |fields| - |r| <= j < |fields| ==> Less(fields[i], fields[j])
  {
    r := fields;
    ghost var dropped := 0;
    while |r| > Limit(populationSize)
      invariant 0 <= dropped <= |fields| && r == fields[dropped..]
      invariant dropped > 0 ==> |r| >= Limit(populationSize)
    {
      r := r[1..];
      dropped := dropped + 1;
    }
    assert fields == fields[..dropped] + fields[dropped..];
  }

  /**
   * new_fields after the first i broods: each brood inserted into a set of
   * its own, whose best min(5, size) fields are inserted into new_fields.
   */
  function Generation(broods: seq<seq<Scored>>, i: nat): (r: seq<Scored>)
    requires i <= |broods|
    ensures Ascending(r)
  {
    if i == 0 then [] else InsertAll(Generation(broods, i - 1), Top(InsertAll([], broods[i - 1]), 5))
  }

  /**
   * One generation of generate_winner, after the children are made:
   * broods[i] lists, in order, the children of the i-th field of the set
   * with every field (left % right, mutated). Each brood goes into its own
   * set, whose best min(5, size) fields go into new_fields; new_fields goes
   * into the population, which is then trimmed.
   */
  method NextGeneration(fields: seq<Scored>, broods: seq<seq<Scored>>, populationSize: int)
    returns (r: seq<Scored>)
    requires Ascending(fields)
    ensures Ascending(r) && |r| <= Limit(populationSize)
    ensures r == Top(InsertAll(fields, Generation(broods, |broods|)), Limit(populationSize))
    ensures forall y :: y in r ==> y in fields || exists i :: 0 <= i < |broods| && y in broods[i]
    ensures 1 <= Limit(populationSize) && fields != [] ==>
      (r != [] &&
       (forall y :: y in fields ==> y.steps <= Best(r).steps) &&
       (forall i, c :: 0 <= i < |broods| && c in broods[i] ==> c.steps <= Best(r).steps))
  {
    var newFields: seq<Scored> := [];
    for i := 0 to |broods|
      invariant newFields == Generation(broods, i)
      invariant forall y :: y in newFields ==> exists t :: 0 <= t < i && y in broods[t]
      invariant forall t, c :: 0 <= t < i && c in broods[t] ==> Beaten(c, newFields)
    {
      ghost var before := newFields;
      newFields := AddBrood(newFields, broods[i]);
      BroodsStep(broods, i, before, newFields);
    }
    var merged := InsertAll(fields, newFields);
    r := Trim(merged, populationSize);
    assert r == merged[|merged| - |r|..];
    forall y | y in r
      ensures y in fields || exists i :: 0 <= i < |broods| && y in broods[i]
    {
      assert y in merged;
    }
    if 1 <= Limit(populationSize) && fields != [] {
      assert fields[0] in merged;
      assert r != [] && Best(r) == Best(merged);
      BestOfMerge(fields, broods, newFields, merged);
    }
  }

  /** One brood's set, and its best min(5, size) fields inserted into new_fields. */
  method AddBrood(newFields: seq<Scored>, brood: seq<Scored>) returns (r: seq<Scored>)
    requires Ascending(newFields)
    ensures r == InsertAll(newFields, Top(InsertAll([], brood), 5))
    ensures Ascending(r) && Keys(newFields) <= Keys(r)
    ensures forall y :: y in r ==> y in newFields || y in brood
    ensures forall c :: c in brood ==> Beaten(c, r)
  {
    var children := BroodSet(brood);
    var top := Top(children, 5);
    r := InsertAll(newFields, top);
    BroodCovered(brood, children, top, r);
  }

  /** The loop invariant of the brood loop, one brood further. */
  lemma BroodsStep(broods: seq<seq<Scored>>, i: int, before: seq<Scored>, after: seq<Scored>)
    requires 0 <= i < |broods| && Keys(before) <= Keys(after)
    requires forall y :: y in before ==> exists t :: 0 <= t < i && y in broods[t]
    requires forall t, c :: 0 <= t < i && c in broods[t] ==> Beaten(c, before)
    requires forall y :: y in after ==> y in before || y in broods[i]
    requires forall c :: c in broods[i] ==> Beaten(c, after)
    ensures forall y :: y in after ==> exists t :: 0 <= t < i + 1 && y in broods[t]
    ensures forall t, c :: 0 <= t < i + 1 && c in broods[t] ==> Beaten(c, after)
  {
    forall y | y in after
      ensures exists t :: 0 <= t < i + 1 && y in broods[t]
    {
      if y in before {
        var t :| 0 <= t < i && y in broods[t];
      }
    }
    forall t, c | 0 <= t < i + 1 && c in broods[t]
      ensures Beaten(c, after)
    {
      if t < i {
        assert Beaten(c, before);
        var k :| k in Keys(before) && c.steps <= k;
        assert k in Keys(after);
      }
    }
  }

  /** The set of one brood: its children inserted in order. */
  method BroodSet(brood: seq<Scored>) returns (children: seq<Scored>)
    ensures children == InsertAll([], brood)
    ensures Ascending(children) && Keys(children) == Keys(brood)
    ensures forall y :: y in children ==> y in brood
  {
    children := [];
    for j := 0 to |brood|
      invariant children == InsertAll([], brood[..j])
    {
      InsertPrefix(brood, j);
      children := Insert(children, brood[j]);
    }
    assert brood[..|brood|] == brood;
  }

  /** The set of a brood's first j + 1 children is one insert on that of its first j. */
  lemma InsertPrefix(brood: seq<Scored>, j: nat)
    requires j < |brood|
    ensures InsertAll([], brood[..j + 1]) == Insert(InsertAll([], brood[..j]), brood[j])
  {
    assert brood[..j + 1] == brood[..j] + [brood[j]];
    InsertAllSnoc([], brood[..j], brood[j]);
  }

  /** The merged population's best is at least every field and every child. */
  lemma BestOfMerge(fields: seq<Scored>, broods: seq<seq<Scored>>, newFields: seq<Scored>, merged: seq<Scored>)
    requires Ascending(merged) && merged != []
    requires Keys(merged) == Keys(fields) + Keys(newFields)
    requires forall t, c :: 0 <= t < |broods| && c in broods[t] ==> Beaten(c, newFields)
    ensures forall y :: y in fields ==> y.steps <= Best(merged).steps
    ensures forall i, c :: 0 <= i < |broods| && c in broods[i] ==> c.steps <= Best(merged).steps
  {
    forall y | y in fields
      ensures y.steps <= Best(merged).steps
    {
      BestIsGreatest(merged, y.steps);
    }
    forall i, c | 0 <= i < |broods| && c in broods[i]
      ensures c.steps <= Best(merged).steps
    {
      assert Beaten(c, newFields);
      var k :| k in Keys(newFields) && c.steps <= k;
      BestIsGreatest(merged, k);
    }
  }

  /** Every child of a brood is matched or beaten by a result the top of its set brings in. */
  lemma BroodCovered(brood: seq<Scored>, children: seq<Scored>, top: seq<Scored>, newFields: seq<Scored>)
    requires Ascending(children) && Keys(children) == Keys(brood)
    requires top == Top(children, 5) && Keys(top) <= Keys(newFields)
    ensures forall c :: c in brood ==> Beaten(c, newFields)
  {
    forall c | c in brood
      ensures Beaten(c, newFields)
    {
      assert c.steps in Keys(children);
      BestIsGreatest(children, c.steps);
      assert Best(children) in top;
      assert Best(children).steps in Keys(newFields);
    }
  }
}
