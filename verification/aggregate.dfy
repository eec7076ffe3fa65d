/**
 The "group by (entity, period), take the mean, then pick one entity and sort
 by period" pattern that precedes every chart of a long-format dataset.
 */
module Aggregate {
  import opened Records
  import opened Stats

  /** The set of keys occurring in the rows. */
  function KeySet(os: seq<Obs>): set<Key>
  {
    set i | 0 <= i < |os| :: KeyOf(os[i])
  }

  lemma KeySetSnoc(os: seq<Obs>)
    requires |os| > 0
    ensures KeySet(os) == KeySet(os[..|os| - 1]) + {KeyOf(os[|os| - 1])}
  {
    var init := os[..|os| - 1];
    forall k | k in KeySet(os)
      ensures k in KeySet(init) + {KeyOf(os[|os| - 1])}
    {
      var i :| 0 <= i < |os| && KeyOf(os[i]) == k;
      if i < |os| - 1 {
        assert KeyOf(init[i]) == k;
      }
    }
    forall k | k in KeySet(init)
      ensures k in KeySet(os)
    {
      var i :| 0 <= i < |init| && KeyOf(init[i]) == k;
      assert KeyOf(os[i]) == k;
    }
  }

  /** The grouping keys of the input, each once, in order of first appearance. */
  function DistinctKeys(os: seq<Obs>): (ks: seq<Key>)
    ensures forall i, j :: 0 <= i < j < |ks| ==> ks[i] != ks[j]
    ensures forall k :: k in ks <==> k in KeySet(os)
    ensures |ks| <= |os|
    decreases |os|
  {
    if |os| == 0 then []
    else
      var ks := DistinctKeys(os[..|os| - 1]);
      KeySetSnoc(os);
      var k := KeyOf(os[|os| - 1]);
      if k in ks then ks else ks + [k]
  }

  /** The values of the rows carrying key k, in input order. */
  function ValuesWithKey(os: seq<Obs>, k: Key): seq<Option<real>>
  {
    if |os| == 0 then []
    else (if KeyOf(os[0]) == k then [os[0].value] else []) + ValuesWithKey(os[1..], k)
  }

  /** The single row a group collapses to. */
  function GroupRow(os: seq<Obs>, k: Key): (o: Obs)
    ensures KeyOf(o) == k
  {
    Obs(k.entity, k.period, Mean(ValuesWithKey(os, k)))
  }

  /** `groupby([entity, period]).mean()`: one row per key, holding the mean of
      that key's present values (missing when it has none). */
  function GroupMean(os: seq<Obs>): (g: seq<Obs>)
    ensures |g| <= |os|
    ensures forall i, j :: 0 <= i < j < |g| ==> KeyOf(g[i]) != KeyOf(g[j])
    ensures KeySet(g) == KeySet(os)
    ensures forall j :: 0 <= j < |g| ==> g[j].value == Mean(ValuesWithKey(os, KeyOf(g[j])))
  {
    var ks := DistinctKeys(os);
    var g := seq(|ks|, i requires 0 <= i < |ks| => GroupRow(os, ks[i]));
    GroupMeanKeys(os, ks, g);
    g
  }

  lemma GroupMeanKeys(os: seq<Obs>, ks: seq<Key>, g: seq<Obs>)
    requires ks == DistinctKeys(os)
    requires |g| == |ks| && forall i :: 0 <= i < |ks| ==> g[i] == GroupRow(os, ks[i])
    ensures forall i, j :: 0 <= i < j < |g| ==> KeyOf(g[i]) != KeyOf(g[j])
    ensures KeySet(g) == KeySet(os)
    ensures forall j :: 0 <= j < |g| ==> g[j].value == Mean(ValuesWithKey(os, KeyOf(g[j])))
  {
    assert forall i :: 0 <= i < |ks| ==> KeyOf(g[i]) == ks[i];
    forall k | k in KeySet(os)
      ensures k in KeySet(g)
    {
      var j :| 0 <= j < |ks| && ks[j] == k;
      assert KeyOf(g[j]) == k;
    }
  }

  lemma {:induction false} ValuesWithKeyAppend(a: seq<Obs>, b: seq<Obs>, k: Key)
    ensures ValuesWithKey(a + b, k) == ValuesWithKey(a, k) + ValuesWithKey(b, k)
    decreases |a|
  {
    if |a| == 0 {
      assert a + b == b;
    } else {
      assert (a + b)[1..] == a[1..] + b;
      ValuesWithKeyAppend(a[1..], b, k);
    }
  }

  /** The values of one key depend only on the multiset of input rows. */
  lemma {:induction false} ValuesWithKeyPermutation(a: seq<Obs>, b: seq<Obs>, k: Key)
    requires multiset(a) == multiset(b)
    ensures multiset(ValuesWithKey(a, k)) == multiset(ValuesWithKey(b, k))
    decreases |a|
  {
    if |a| == 0 {
      assert |b| == |multiset(b)| == 0;
    } else {
      var j := PermutationTail(a, b);
      var rest := b[..j] + b[j+1..];
      ValuesWithKeyPermutation(a[1..], rest, k);
      assert b == b[..j] + ([b[j]] + b[j+1..]);
      ValuesWithKeyAppend(b[..j], [b[j]] + b[j+1..], k);
      ValuesWithKeyAppend([b[j]], b[j+1..], k);
      ValuesWithKeyAppend(b[..j], b[j+1..], k);
      assert [b[j]][1..] == [];
    }
  }

  /** Shuffling the input rows does not change the grouping: both cover the same
      keys, and rows with the same key are equal. */
  lemma GroupMeanPermutation(a: seq<Obs>, b: seq<Obs>)
    requires multiset(a) == multiset(b)
    ensures KeySet(GroupMean(a)) == KeySet(GroupMean(b))
    ensures forall i, j ::
      (0 <= i < |GroupMean(a)| && 0 <= j < |GroupMean(b)| && KeyOf(GroupMean(a)[i]) == KeyOf(GroupMean(b)[j]))
      ==> GroupMean(a)[i] == GroupMean(b)[j]
  {
    var ga, gb := GroupMean(a), GroupMean(b);
    forall k | k in KeySet(a)
      ensures k in KeySet(b)
    {
      var x :| 0 <= x < |a| && KeyOf(a[x]) == k;
      assert a[x] in multiset(b);
      var y :| 0 <= y < |b| && b[y] == a[x];
    }
    forall k | k in KeySet(b)
      ensures k in KeySet(a)
    {
      var y :| 0 <= y < |b| && KeyOf(b[y]) == k;
      assert b[y] in multiset(a);
      var x :| 0 <= x < |a| && a[x] == b[y];
    }
    forall i, j | 0 <= i < |ga| && 0 <= j < |gb| && KeyOf(ga[i]) == KeyOf(gb[j])
      ensures ga[i] == gb[j]
    {
      var k := KeyOf(ga[i]);
      ValuesWithKeyPermutation(a, b, k);
      MeanPermutation(ValuesWithKey(a, k), ValuesWithKey(b, k));
    }
  }

  /** A key observed once keeps its value unchanged, a missing value included. */
  lemma {:induction false} SingleObservation(os: seq<Obs>, i: int)
    requires 0 <= i < |os|
    requires forall j :: 0 <= j < |os| && j != i ==> KeyOf(os[j]) != KeyOf(os[i])
    ensures ValuesWithKey(os, KeyOf(os[i])) == [os[i].value]
    ensures Mean(ValuesWithKey(os, KeyOf(os[i]))) == os[i].value
  {
    var k := KeyOf(os[i]);
    assert os == os[..i] + ([os[i]] + os[i+1..]);
    ValuesWithKeyAppend(os[..i], [os[i]] + os[i+1..], k);
    ValuesWithKeyAppend([os[i]], os[i+1..], k);
    NoValuesWithKey(os[..i], k);
    NoValuesWithKey(os[i+1..], k);
    assert [os[i]][1..] == [];
    if os[i].value.Some? {
      MeanSingleton(os[i].value.value);
    } else {
      assert CountPresent([os[i].value]) == 0;
    }
  }

  lemma {:induction false} NoValuesWithKey(os: seq<Obs>, k: Key)
    requires forall j :: 0 <= j < |os| ==> KeyOf(os[j]) != k
    ensures ValuesWithKey(os, k) == []
  {
    if |os| > 0 {
      NoValuesWithKey(os[1..], k);
    }
  }

  // ---------------------------------------------------------------------
  // One entity's series, sorted by period
  // ---------------------------------------------------------------------

  /** Periods never decrease along the series. */
  predicate Sorted(s: seq<Point>)
  {
    forall i, j :: 0 <= i < j < |s| ==> s[i].period <= s[j].period
  }

  /** No two points of the series share a period. */
  predicate DistinctPeriods(s: seq<Point>)
  {
    forall i, j :: 0 <= i < j < |s| ==> s[i].period != s[j].period
  }

  /** The rows of entity e, as points, in input order. */
  function EntityPoints(g: seq<Obs>, e: string): (s: seq<Point>)
    ensures forall p :: p in s <==> exists i :: 0 <= i < |g| && g[i].entity == e && p == Point(g[i].period, g[i].value)
  {
    if |g| == 0 then []
    else
      var rest := EntityPoints(g[1..], e);
      assert forall i :: 1 <= i < |g| ==> g[i] == g[1..][i - 1];
      (if g[0].entity == e then [Point(g[0].period, g[0].value)] else []) + rest
  }

  /** The filter keeps a single row exactly when it belongs to the entity. */
  lemma EntityPointsSingle(o: Obs, e: string)
    ensures EntityPoints([o], e) == if o.entity == e then [Point(o.period, o.value)] else []
  {
    assert [o][1..] == [];
  }

  /** The filter works row by row: the points of a concatenation are the
      points of each part, in order. With EntityPointsSingle this fixes the
      order and multiplicity of the result, not just its members. */
  lemma {:induction false} EntityPointsAppend(a: seq<Obs>, b: seq<Obs>, e: string)
    ensures EntityPoints(a + b, e) == EntityPoints(a, e) + EntityPoints(b, e)
  {
    if |a| > 0 {
      assert (a + b)[1..] == a[1..] + b;
      EntityPointsAppend(a[1..], b, e);
    } else {
      assert a + b == b;
    }
  }

  /** Insertion of one point into a sorted series. */
  function Insert(p: Point, s: seq<Point>): (r: seq<Point>)
    requires Sorted(s)
    ensures Sorted(r)
    ensures |r| == |s| + 1 && (r[0] == p || (|s| > 0 && r[0] == s[0]))
    ensures forall x :: x in r <==> x == p || x in s
    ensures multiset(r) == multiset(s) + multiset{p}
  {
    if |s| == 0 then [p]
    else if p.period <= s[0].period then [p] + s
    else
      var tail := Insert(p, s[1..]);
      InsertBehind(p, s, tail);
      [s[0]] + tail
  }

  /** The head of s stays in front when p goes further back. */
  lemma InsertBehind(p: Point, s: seq<Point>, tail: seq<Point>)
    requires Sorted(s) && |s| > 0 && s[0].period < p.period
    requires Sorted(tail) && |tail| > 0 && (tail[0] == p || (|s| > 1 && tail[0] == s[1]))
    requires forall x :: x in tail <==> x == p || x in s[1..]
    requires multiset(tail) == multiset(s[1..]) + multiset{p}
    ensures Sorted([s[0]] + tail)
    ensures forall x :: x in [s[0]] + tail <==> x == p || x in s
    ensures multiset([s[0]] + tail) == multiset(s) + multiset{p}
  {
    assert s == [s[0]] + s[1..];
    assert forall k :: 0 <= k < |tail| ==> tail[0].period <= tail[k].period;
  }

  /** `sort_values(period)`: the same points, ordered by period. */
  function SortByPeriod(s: seq<Point>): (r: seq<Point>)
    ensures Sorted(r)
    ensures forall x :: x in r <==> x in s
    ensures multiset(r) == multiset(s)
  {
    if |s| == 0 then []
    else
      assert s == [s[0]] + s[1..];
      Insert(s[0], SortByPeriod(s[1..]))
  }

  /** Inserting a point with a new period keeps periods strictly increasing. */
  lemma {:induction false} InsertStrict(p: Point, s: seq<Point>)
    requires StrictlyIncreasing(s)
    requires forall x :: x in s ==> x.period != p.period
    ensures StrictlyIncreasing(Insert(p, s))
  {
    if |s| > 0 && p.period > s[0].period {
      assert s[0] in s;
      InsertStrict(p, s[1..]);
    }
  }

  /** Sorting a series whose periods are distinct makes them strictly increase. */
  lemma {:induction false} SortStrict(s: seq<Point>)
    requires DistinctPeriods(s)
    ensures StrictlyIncreasing(SortByPeriod(s))
  {
    if |s| > 0 {
      SortStrict(s[1..]);
      forall x | x in SortByPeriod(s[1..])
        ensures x.period != s[0].period
      {
        var k :| 0 <= k < |s[1..]| && s[1..][k] == x;
        assert s[k + 1] == x;
      }
      InsertStrict(s[0], SortByPeriod(s[1..]));
    }
  }

  /** The grouped rows of one entity, ordered by period. */
  function SeriesOf(g: seq<Obs>, e: string): (s: seq<Point>)
    ensures Sorted(s)
    ensures forall p :: p in s <==> exists i :: 0 <= i < |g| && g[i].entity == e && p == Point(g[i].period, g[i].value)
    ensures multiset(s) == multiset(EntityPoints(g, e))
  {
    var pts := EntityPoints(g, e);
    SortByPeriod(pts)
  }

  /** After grouping, each entity's series has strictly increasing periods, and
      its points are exactly that entity's keys with their group means. */
  lemma GroupedSeries(os: seq<Obs>, e: string)
    ensures StrictlyIncreasing(SeriesOf(GroupMean(os), e))
    ensures forall p: Point :: p in SeriesOf(GroupMean(os), e) <==>
      Key(e, p.period) in KeySet(os) && p.value == Mean(ValuesWithKey(os, Key(e, p.period)))
  {
    var g := GroupMean(os);
    var pts := EntityPoints(g, e);
    forall i, j | 0 <= i < j < |pts|
      ensures pts[i].period != pts[j].period
    {
      EntityPointsDistinct(g, e, i, j);
    }
    SortStrict(pts);
    var s := SeriesOf(g, e);
    forall p: Point | p in s
      ensures Key(e, p.period) in KeySet(os) && p.value == Mean(ValuesWithKey(os, Key(e, p.period)))
    {
      var i :| 0 <= i < |g| && g[i].entity == e && p == Point(g[i].period, g[i].value);
      assert KeyOf(g[i]) in KeySet(g);
    }
    forall p: Point | Key(e, p.period) in KeySet(os) && p.value == Mean(ValuesWithKey(os, Key(e, p.period)))
      ensures p in s
    {
      assert Key(e, p.period) in KeySet(g);
      var j :| 0 <= j < |g| && KeyOf(g[j]) == Key(e, p.period);
      assert p == Point(g[j].period, g[j].value);
    }
  }

  /** The points an entity takes from a grouping have distinct periods. */
  lemma EntityPointsDistinct(g: seq<Obs>, e: string, i: int, j: int)
    requires forall a, b :: 0 <= a < b < |g| ==> KeyOf(g[a]) != KeyOf(g[b])
    requires 0 <= i < j < |EntityPoints(g, e)|
    ensures EntityPoints(g, e)[i].period != EntityPoints(g, e)[j].period
  {
    var pts := EntityPoints(g, e);
    assert pts[i] in pts && pts[j] in pts;
    var a :| 0 <= a < |g| && g[a].entity == e && pts[i] == Point(g[a].period, g[a].value);
    var b :| 0 <= b < |g| && g[b].entity == e && pts[j] == Point(g[b].period, g[b].value);
    if pts[i].period == pts[j].period {
      assert a == b;
      EntityPointsIndex(g, e, i, j);
    }
  }

  /** Distinct positions of an entity's points come from distinct rows. */
  lemma {:induction false} EntityPointsIndex(g: seq<Obs>, e: string, i: int, j: int)
    requires forall a, b :: 0 <= a < b < |g| ==> KeyOf(g[a]) != KeyOf(g[b])
    requires 0 <= i < j < |EntityPoints(g, e)|
    ensures EntityPoints(g, e)[i] != EntityPoints(g, e)[j]
  {
    var pts := EntityPoints(g, e);
    var rest := EntityPoints(g[1..], e);
    if g[0].entity == e {
      assert pts == [Point(g[0].period, g[0].value)] + rest;
      if i == 0 {
        assert pts[j] in rest;
        var b :| 0 <= b < |g[1..]| && g[1..][b].entity == e && pts[j] == Point(g[1..][b].period, g[1..][b].value);
        assert KeyOf(g[0]) != KeyOf(g[b + 1]);
      } else {
        EntityPointsIndex(g[1..], e, i - 1, j - 1);
      }
    } else {
      assert pts == rest;
      EntityPointsIndex(g[1..], e, i, j);
    }
  }
}
