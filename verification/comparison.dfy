/**
 The before/after comparisons of the charting script: a series is split at a
 cutoff year into the periods before it and the periods from it on, and each
 side is reduced to its mean (0 when the side has no present value). Also the
 five-year window looked up around a regulatory milestone.
 */
module Comparison {
  import opened Records
  import opened Stats
  import opened Growth

  // ---------------------------------------------------------------------
  // Splitting a series at a cutoff year
  // ---------------------------------------------------------------------

  /** `Pre` holds the periods before the cutoff, `Post` the cutoff and later. */
  datatype Side = Pre | Post

  predicate OnSide(side: Side, c: int, period: int)
  {
    match side
    case Pre => period < c
    case Post => period >= c
  }

  /** The values of the points on one side of the cutoff, in series order. */
  function SideValues(s: seq<Point>, c: int, side: Side): (vs: seq<Option<real>>)
    ensures |vs| <= |s|
  {
    if |s| == 0 then []
    else (if OnSide(side, c, s[0].period) then [s[0].value] else []) + SideValues(s[1..], c, side)
  }

  /** A value is on a side exactly when some point on that side carries it. */
  lemma {:induction false} SideValuesMembership(s: seq<Point>, c: int, side: Side, v: Option<real>)
    ensures v in SideValues(s, c, side) <==> exists i :: 0 <= i < |s| && OnSide(side, c, s[i].period) && v == s[i].value
  {
    if |s| > 0 {
      SideValuesMembership(s[1..], c, side, v);
      assert forall i :: 1 <= i < |s| ==> s[i] == s[1..][i - 1];
    }
  }

  /** One bar of a pre/post chart: the side's mean, or 0 when it is missing. */
  function SideMean(s: seq<Point>, c: int, side: Side): (r: real)
    ensures CountPresent(SideValues(s, c, side)) == 0 ==> r == 0.0
    ensures CountPresent(SideValues(s, c, side)) > 0 ==> Mean(SideValues(s, c, side)) == Some(r)
  {
    MeanOrZero(SideValues(s, c, side))
  }

  /** b is the bar of the values vs: their mean, or 0 when none is present. */
  predicate IsBar(b: real, vs: seq<Option<real>>)
  {
    && (CountPresent(vs) == 0 ==> b == 0.0)
    && (CountPresent(vs) > 0 ==> Mean(vs) == Some(b))
  }

  /** A bar times the number of present values on its side is the side's total,
      whether or not the side has a present value. */
  lemma SideMeanTotal(s: seq<Point>, c: int, side: Side)
    ensures SideMean(s, c, side) * CountPresent(SideValues(s, c, side)) as real == SumPresent(SideValues(s, c, side))
  {
    MeanOrZeroTotal(SideValues(s, c, side));
  }

  lemma {:induction false} SideValuesAppend(a: seq<Point>, b: seq<Point>, c: int, side: Side)
    ensures SideValues(a + b, c, side) == SideValues(a, c, side) + SideValues(b, c, side)
    decreases |a|
  {
    if |a| == 0 {
      assert a + b == b;
    } else {
      assert (a + b)[1..] == a[1..] + b;
      assert (a + b)[0] == a[0];
      SideValuesAppend(a[1..], b, c, side);
      var h := if OnSide(side, c, a[0].period) then [a[0].value] else [];
      assert SideValues(a + b, c, side) == h + SideValues(a[1..] + b, c, side);
      assert SideValues(a, c, side) == h + SideValues(a[1..], c, side);
    }
  }

  /** Every point falls on exactly one side: the two sides together hold the
      values of the series. */
  lemma {:induction false} SidesPartition(s: seq<Point>, c: int)
    ensures |SideValues(s, c, Pre)| + |SideValues(s, c, Post)| == |s|
    ensures multiset(SideValues(s, c, Pre)) + multiset(SideValues(s, c, Post)) == multiset(Values(s))
  {
    if |s| > 0 {
      SidesPartition(s[1..], c);
      var v := s[0].value;
      var pre, post := SideValues(s[1..], c, Pre), SideValues(s[1..], c, Post);
      var rest := Values(s[1..]);
      ValuesCons(s);
      SideValuesCons(s, c, Pre);
      SideValuesCons(s, c, Post);
      if s[0].period < c {
        ConsPartition(v, pre, post, rest);
      } else {
        ConsPartition(v, post, pre, rest);
      }
    }
  }

  lemma ValuesCons(s: seq<Point>)
    requires |s| > 0
    ensures Values(s) == [s[0].value] + Values(s[1..])
  {
  }

  lemma SideValuesCons(s: seq<Point>, c: int, side: Side)
    requires |s| > 0
    ensures OnSide(side, c, s[0].period) ==> SideValues(s, c, side) == [s[0].value] + SideValues(s[1..], c, side)
    ensures !OnSide(side, c, s[0].period) ==> SideValues(s, c, side) == SideValues(s[1..], c, side)
  {
    if !OnSide(side, c, s[0].period) {
      assert [] + SideValues(s[1..], c, side) == SideValues(s[1..], c, side);
    }
  }

  lemma ConsPartition(v: Option<real>, a: seq<Option<real>>, b: seq<Option<real>>, rest: seq<Option<real>>)
    requires |a| + |b| == |rest| && multiset(a) + multiset(b) == multiset(rest)
    ensures |[v] + a| + |b| == |[v] + rest| && multiset([v] + a) + multiset(b) == multiset([v] + rest)
    ensures |b| + |[v] + a| == |[v] + rest| && multiset(b) + multiset([v] + a) == multiset([v] + rest)
  {
    assert multiset([v] + a) == multiset{v} + multiset(a);
    assert multiset([v] + rest) == multiset{v} + multiset(rest);
  }

  /** The sums and the counts of present values of the two sides add up to
      those of the whole series. */
  lemma SidesTotals(s: seq<Point>, c: int)
    ensures SumPresent(SideValues(s, c, Pre)) + SumPresent(SideValues(s, c, Post)) == SumPresent(Values(s))
    ensures CountPresent(SideValues(s, c, Pre)) + CountPresent(SideValues(s, c, Post)) == CountPresent(Values(s))
  {
    SidesPartition(s, c);
    var pre, post := SideValues(s, c, Pre), SideValues(s, c, Post);
    SumAppend(pre, post);
    assert multiset(pre + post) == multiset(pre) + multiset(post);
    SumPermutation(pre + post, Values(s));
  }

  /** The two bars weighted by their counts give back the total of the series:
      the split loses and duplicates nothing. */
  lemma SplitWeightedMean(s: seq<Point>, c: int)
    ensures SideMean(s, c, Pre) * CountPresent(SideValues(s, c, Pre)) as real
          + SideMean(s, c, Post) * CountPresent(SideValues(s, c, Post)) as real
          == SumPresent(Values(s))
  {
    SidesTotals(s, c);
    SideMeanTotal(s, c, Pre);
    SideMeanTotal(s, c, Post);
  }

  /** The values on one side depend only on the multiset of points, so the
      bars do not depend on the order of the rows. */
  lemma {:induction false} SideValuesPermutation(a: seq<Point>, b: seq<Point>, c: int, side: Side)
    requires multiset(a) == multiset(b)
    ensures multiset(SideValues(a, c, side)) == multiset(SideValues(b, c, side))
    decreases |a|
  {
    if |a| == 0 {
      assert |b| == |multiset(b)| == 0;
    } else {
      var j := PermutationTail(a, b);
      var rest := b[..j] + b[j+1..];
      SideValuesPermutation(a[1..], rest, c, side);
      SideValuesAppend([a[0]], a[1..], c, side);
      assert [a[0]] + a[1..] == a;
      assert b == b[..j] + ([b[j]] + b[j+1..]);
      SideValuesAppend(b[..j], [b[j]] + b[j+1..], c, side);
      SideValuesAppend([b[j]], b[j+1..], c, side);
      SideValuesAppend(b[..j], b[j+1..], c, side);
      assert [b[j]][1..] == [];
    }
  }

  lemma SideMeanPermutation(a: seq<Point>, b: seq<Point>, c: int, side: Side)
    requires multiset(a) == multiset(b)
    ensures SideMean(a, c, side) == SideMean(b, c, side)
  {
    SideValuesPermutation(a, b, c, side);
    MeanPermutation(SideValues(a, c, side), SideValues(b, c, side));
  }

  /** A cutoff after every period leaves the post side empty, so its bar is 0
      and the pre bar is the mean of the whole series. */
  lemma {:induction false} CutoffAfterAll(s: seq<Point>, c: int)
    requires forall i :: 0 <= i < |s| ==> s[i].period < c
    ensures SideValues(s, c, Post) == []
    ensures SideValues(s, c, Pre) == Values(s)
    ensures SideMean(s, c, Post) == 0.0
    ensures SideMean(s, c, Pre) == MeanOrZero(Values(s))
  {
    if |s| > 0 {
      CutoffAfterAll(s[1..], c);
      assert Values(s) == [s[0].value] + Values(s[1..]);
    }
  }

  // ---------------------------------------------------------------------
  // Before/after pairs over several cutoffs
  // ---------------------------------------------------------------------

  /** For each cutoff in turn, the before bar then the after bar. */
  function BeforeAfterPairs(s: seq<Point>, cutoffs: seq<int>): (r: seq<real>)
    ensures |r| == 2 * |cutoffs|
    ensures forall k :: 0 <= k < |cutoffs| ==>
      r[2 * k] == SideMean(s, cutoffs[k], Pre) && r[2 * k + 1] == SideMean(s, cutoffs[k], Post)
  {
    if |cutoffs| == 0 then []
    else
      var rest := BeforeAfterPairs(s, cutoffs[1..]);
      PairsPrepend(s, cutoffs, rest);
      [SideMean(s, cutoffs[0], Pre), SideMean(s, cutoffs[0], Post)] + rest
  }

  /** Putting the first cutoff's pair in front of the bars of the other
      cutoffs gives the bars of all of them. */
  lemma PairsPrepend(s: seq<Point>, cutoffs: seq<int>, rest: seq<real>)
    requires |cutoffs| > 0 && |rest| == 2 * (|cutoffs| - 1)
    requires forall k :: 0 <= k < |cutoffs| - 1 ==>
      rest[2 * k] == SideMean(s, cutoffs[k + 1], Pre) && rest[2 * k + 1] == SideMean(s, cutoffs[k + 1], Post)
    ensures var r := [SideMean(s, cutoffs[0], Pre), SideMean(s, cutoffs[0], Post)] + rest;
      forall k :: 0 <= k < |cutoffs| ==>
        r[2 * k] == SideMean(s, cutoffs[k], Pre) && r[2 * k + 1] == SideMean(s, cutoffs[k], Post)
  {
    var r := [SideMean(s, cutoffs[0], Pre), SideMean(s, cutoffs[0], Post)] + rest;
    forall k | 0 <= k < |cutoffs|
      ensures r[2 * k] == SideMean(s, cutoffs[k], Pre) && r[2 * k + 1] == SideMean(s, cutoffs[k], Post)
    {
      if k > 0 {
        var j := k - 1;
        assert r[2 * k] == rest[2 * j] && r[2 * k + 1] == rest[2 * j + 1];
      }
    }
  }

  // ---------------------------------------------------------------------
  // The comparison charts
  // ---------------------------------------------------------------------

  /** The series of percent changes, each placed at its own period. */
  function GrowthSeries(s: seq<Point>): (g: seq<Point>)
    requires NonzeroPriors(Values(s))
    ensures |g| == |s|
    ensures |s| > 0 ==> g[0] == Point(s[0].period, None)
    ensures forall i :: 0 < i < |s| && s[i - 1].value.Some? && s[i].value.Some? ==>
      g[i] == Point(s[i].period, Some((s[i].value.value - s[i - 1].value.value) / s[i - 1].value.value * 100.0))
    ensures forall i :: 0 <= i < |s| ==> g[i].period == s[i].period && g[i].value == PctChange(Values(s))[i]
  {
    Zip(Periods(s), PctChange(Values(s)))
  }

  /** Each growth point keeps its row's period, so it falls on the same side of
      every cutoff as the row; across a gap its value compares the last present
      values, as pandas' padding does. */
  lemma GrowthAcrossGap(s: seq<Point>, i: int, c: int)
    requires NonzeroPriors(Values(s)) && 0 < i < |s|
    ensures LastPresent(Values(s), i - 1).Some? ==> LastPresent(Values(s), i - 1).value != 0.0
    ensures GrowthSeries(s)[i] == Point(s[i].period, Change(LastPresent(Values(s), i - 1), LastPresent(Values(s), i)))
    ensures OnSide(Pre, c, GrowthSeries(s)[i].period) <==> s[i].period < c
  {
    PctChangePadded(Values(s), i);
  }

  /** The traffic chart's bars for one country: nothing for a series of one
      row or none, otherwise the before/after pair of growth means for each
      cutoff. */
  function TrafficBars(s: seq<Point>, cutoffs: seq<int>): (r: Option<seq<real>>)
    requires NonzeroPriors(Values(s))
    ensures r.Some? <==> |s| > 1
    ensures r.Some? ==> |r.value| == 2 * |cutoffs|
    ensures r.Some? ==> forall k :: 0 <= k < |cutoffs| ==>
      && IsBar(r.value[2 * k], SideValues(GrowthSeries(s), cutoffs[k], Pre))
      && IsBar(r.value[2 * k + 1], SideValues(GrowthSeries(s), cutoffs[k], Post))
  {
    if |s| > 1 then Some(BeforeAfterPairs(GrowthSeries(s), cutoffs)) else None
  }

  /** The milestone years of the window charts. */
  const MilestoneYears: seq<int> := [2018, 2022, 2023, 2025]

  /** The cutoffs of the traffic chart. */
  const TrafficCutoffs: seq<int> := [2018, 2022, 2023]

  /** A pair of pre/post bars. */
  datatype PrePost = PrePost(pre: real, post: real)

  /** Pre/post bars of one series' own values, whatever they measure. */
  function LevelComparison(s: seq<Point>, c: int): (r: PrePost)
    ensures CountPresent(SideValues(s, c, Pre)) == 0 ==> r.pre == 0.0
    ensures CountPresent(SideValues(s, c, Post)) == 0 ==> r.post == 0.0
    ensures CountPresent(SideValues(s, c, Pre)) > 0 ==> Mean(SideValues(s, c, Pre)) == Some(r.pre)
    ensures CountPresent(SideValues(s, c, Post)) > 0 ==> Mean(SideValues(s, c, Post)) == Some(r.post)
  {
    PrePost(SideMean(s, c, Pre), SideMean(s, c, Post))
  }

  /** Pre/post bars of one series' growth: nothing for a series of one row or
      none, the country then getting no bar and no label. */
  function GrowthComparison(s: seq<Point>, c: int): (r: Option<PrePost>)
    requires NonzeroPriors(Values(s))
    ensures r.Some? <==> |s| > 1
    ensures r.Some? ==> r.value.pre == BeforeAfterPairs(GrowthSeries(s), [c])[0]
    ensures r.Some? ==> r.value.post == BeforeAfterPairs(GrowthSeries(s), [c])[1]
  {
    if |s| > 1 then Some(LevelComparison(GrowthSeries(s), c)) else None
  }

  /** A series that does not move shows 0% growth on both sides. */
  lemma GrowthComparisonConstant(s: seq<Point>, x: real, c: int)
    requires x != 0.0 && |s| > 1
    requires forall i :: 0 <= i < |s| ==> s[i].value == Some(x)
    ensures NonzeroPriors(Values(s))
    ensures GrowthComparison(s, c) == Some(PrePost(0.0, 0.0))
  {
    PctChangeConstant(Values(s), x);
    var g := GrowthSeries(s);
    forall i | 0 <= i < |g| && g[i].value.Some?
      ensures g[i].value.value == 0.0
    {
    }
    ZeroSide(g, c, Pre);
    ZeroSide(g, c, Post);
  }

  /** A side whose present values are all 0 has a 0 bar, present or not. */
  lemma ZeroSide(g: seq<Point>, c: int, side: Side)
    requires forall i :: 0 <= i < |g| && g[i].value.Some? ==> g[i].value.value == 0.0
    ensures SideMean(g, c, side) == 0.0
  {
    var vs := SideValues(g, c, side);
    forall i | 0 <= i < |vs| && vs[i].Some?
      ensures vs[i].value == 0.0
    {
      SideValuesMembership(g, c, side, vs[i]);
    }
    if CountPresent(vs) > 0 {
      MeanConstant(vs, 0.0);
    }
  }

  // ---------------------------------------------------------------------
  // The window around a regulatory milestone
  // ---------------------------------------------------------------------

  /** The five years centred on y. */
  function Window(y: int): (w: seq<int>)
    ensures |w| == 5
    ensures forall k :: 0 <= k < 5 ==> w[k] == y - 2 + k
  {
    [y - 2, y - 1, y, y + 1, y + 2]
  }

  /** The position of the first point at year y, or |s| when there is none. */
  function FirstIndex(s: seq<Point>, y: int): (k: nat)
    ensures k <= |s|
    ensures k < |s| ==> s[k].period == y
    ensures forall j :: 0 <= j < k ==> s[j].period != y
  {
    if |s| == 0 then 0
    else if s[0].period == y then 0
    else
      var k := 1 + FirstIndex(s[1..], y);
      assert forall j :: 1 <= j < k ==> s[j] == s[1..][j - 1];
      k
  }

  /** The value of the first point at year y; missing when there is none. */
  function FirstMatch(s: seq<Point>, y: int): Option<real>
  {
    var k := FirstIndex(s, y);
    if k < |s| then s[k].value else None
  }

  /** The five bar heights of one country around a milestone year. */
  function WindowValues(s: seq<Point>, y: int): (vs: seq<Option<real>>)
    ensures |vs| == 5
    ensures forall k :: 0 <= k < 5 ==> vs[k] == FirstMatch(s, y - 2 + k)
  {
    var w := Window(y);
    seq(5, k requires 0 <= k < 5 => FirstMatch(s, w[k]))
  }

  /** The lookup returns the value of the first point of year y, and is missing
      when the series has no point of that year. */
  lemma FirstMatchIsFirst(s: seq<Point>, y: int)
    ensures (forall i :: 0 <= i < |s| ==> s[i].period != y) ==> FirstMatch(s, y).None?
    ensures forall i :: 0 <= i < |s| && s[i].period == y && (forall j :: 0 <= j < i ==> s[j].period != y) ==>
      FirstMatch(s, y) == s[i].value
  {
  }

  /** In a series without repeated periods the lookup finds the point of that
      year, wherever it is. */
  lemma FirstMatchUnique(s: seq<Point>, i: int)
    requires forall a, b :: 0 <= a < b < |s| ==> s[a].period != s[b].period
    requires 0 <= i < |s|
    ensures FirstMatch(s, s[i].period) == s[i].value
  {
  }

  /** The lookup depends only on the set of points once periods are distinct:
      a window over any ordering of the same rows gives the same bars. */
  lemma WindowValuesPermutation(a: seq<Point>, b: seq<Point>, y: int)
    requires forall i, j :: 0 <= i < j < |a| ==> a[i].period != a[j].period
    requires forall i, j :: 0 <= i < j < |b| ==> b[i].period != b[j].period
    requires multiset(a) == multiset(b)
    ensures WindowValues(a, y) == WindowValues(b, y)
  {
    forall k | 0 <= k < 5
      ensures WindowValues(a, y)[k] == WindowValues(b, y)[k]
    {
      var t := y - 2 + k;
      if i :| 0 <= i < |a| && a[i].period == t {
        assert a[i] in multiset(b);
        var j :| 0 <= j < |b| && b[j] == a[i];
        FirstMatchUnique(a, i);
        FirstMatchUnique(b, j);
      } else {
        forall j | 0 <= j < |b|
          ensures b[j].period != t
        {
          assert b[j] in multiset(a);
        }
      }
    }
  }
}
