/**
 The chart series of the OECD research-spending tables, composed from the
 reshape, the per-country series and the derived series: the cumulative
 index, the milestone window and the pre/post bars.
 */
module Charts {
  import opened Records
  import opened Oecd
  import opened Aggregate
  import opened Growth
  import opened Comparison

  /** One country's rows of a prepared OECD table, ordered by year: a point
      is in the series exactly when a cell of the country's row yields it. */
  function CountrySeries(t: WideTable, e: string): (s: seq<Point>)
    requires Rectangular(t)
    ensures Sorted(s)
    ensures forall i :: 0 <= i < |s| ==> s[i].period >= MinYear && s[i].value.Some?
    ensures forall p :: p in s <==>
      exists r, c :: 0 <= r < |t.rows| && 0 <= c < |t.headers| && CellYields(t, r, c, Obs(e, p.period, p.value))
  {
    var os := PrepareOecd(t);
    var s := SeriesOf(os, e);
    assert forall i :: 0 <= i < |s| ==> s[i] in s;
    CountryMembership(t, e, s);
    s
  }

  /** The country's points are the country's cells, through the reshape. */
  lemma CountryMembership(t: WideTable, e: string, s: seq<Point>)
    requires Rectangular(t) && s == SeriesOf(PrepareOecd(t), e)
    ensures forall p :: p in s <==>
      exists r, c :: 0 <= r < |t.rows| && 0 <= c < |t.headers| && CellYields(t, r, c, Obs(e, p.period, p.value))
  {
    var os := PrepareOecd(t);
    forall p
      ensures p in s <==>
        exists r, c :: 0 <= r < |t.rows| && 0 <= c < |t.headers| && CellYields(t, r, c, Obs(e, p.period, p.value))
    {
      var o := Obs(e, p.period, p.value);
      PrepareOecdMembership(t, o);
      if p in s {
        var i :| 0 <= i < |os| && os[i].entity == e && p == Point(os[i].period, os[i].value);
        assert os[i] == o;
      }
      if o in os {
        var i :| 0 <= i < |os| && os[i] == o;
        assert os[i].entity == e && p == Point(os[i].period, os[i].value);
      }
    }
  }

  /** The index chart of one country, as the script's loop computes it. Every
      growth of a prepared table is present, so the loop's reset on a missing
      growth never fires and the chart is the carried-forward index. */
  function IndexChart(t: WideTable, e: string): (idx: seq<real>)
    requires Rectangular(t)
    ensures |idx| == |CountrySeries(t, e)|
    ensures |idx| > 0 ==> idx[0] == Base
    ensures idx == CumulativeIndex(Values(CountrySeries(t, e)))
  {
    var gs := Values(CountrySeries(t, e));
    PoliciesAgreeWhenPresent(gs);
    Chain(Reset, gs)
  }

  /** The five bars of one country around a milestone year, looked up in the
      prepared rows in table order. */
  function GerdWindow(t: WideTable, e: string, y: int): (vs: seq<Option<real>>)
    requires Rectangular(t)
    ensures |vs| == 5
    ensures forall k :: 0 <= k < 5 ==>
      (vs[k].Some? <==> exists i :: 0 <= i < |PrepareOecd(t)| && PrepareOecd(t)[i].entity == e
                                   && PrepareOecd(t)[i].period == y - 2 + k)
    ensures forall p, i :: y - 2 <= p <= y + 2 && FirstRow(PrepareOecd(t), e, p, i) ==>
      vs[p - y + 2] == PrepareOecd(t)[i].value
  {
    var os := PrepareOecd(t);
    WindowPresence(os, e, y);
    WindowFirstRows(os, e, y);
    WindowValues(EntityPoints(os, e), y)
  }

  /** Each bar of the window is the value of the entity's first row of that
      year, in table order. */
  lemma WindowFirstRows(os: seq<Obs>, e: string, y: int)
    ensures forall p, i :: y - 2 <= p <= y + 2 && FirstRow(os, e, p, i) ==>
      WindowValues(EntityPoints(os, e), y)[p - y + 2] == os[i].value
  {
    forall p, i | y - 2 <= p <= y + 2 && FirstRow(os, e, p, i)
      ensures WindowValues(EntityPoints(os, e), y)[p - y + 2] == os[i].value
    {
      FirstRowMatch(os, e, p, i);
    }
  }

  /** Row i is the first of entity e's rows for year p, in table order. */
  predicate FirstRow(os: seq<Obs>, e: string, p: int, i: int)
  {
    && 0 <= i < |os| && os[i].entity == e && os[i].period == p
    && forall j :: 0 <= j < i ==> !(os[j].entity == e && os[j].period == p)
  }

  /** Looking up year p among the entity's points, in table order, finds the
      value of the entity's first row of that year. */
  lemma FirstRowMatch(os: seq<Obs>, e: string, p: int, i: int)
    requires FirstRow(os, e, p, i)
    ensures FirstMatch(EntityPoints(os, e), p) == os[i].value
  {
    var a := EntityPoints(os[..i], e);
    var b := EntityPoints(os[i + 1..], e);
    assert os == os[..i] + ([os[i]] + os[i + 1..]);
    EntityPointsAppend(os[..i], [os[i]] + os[i + 1..], e);
    EntityPointsAppend([os[i]], os[i + 1..], e);
    EntityPointsSingle(os[i], e);
    var pts := a + ([Point(p, os[i].value)] + b);
    assert EntityPoints(os, e) == pts;
    forall j | 0 <= j < |a|
      ensures pts[j].period != p
    {
      assert a[j] in a;
      var h :| 0 <= h < |os[..i]| && os[..i][h].entity == e && a[j] == Point(os[..i][h].period, os[..i][h].value);
      assert os[..i][h] == os[h];
    }
    assert pts[|a|] == Point(p, os[i].value);
    FirstMatchIsFirst(pts, p);
  }

  /** Over rows whose values are all present, a window bar is present exactly
      when the entity has a row of that year. */
  lemma WindowPresence(os: seq<Obs>, e: string, y: int)
    requires forall i :: 0 <= i < |os| ==> os[i].value.Some?
    ensures forall k :: 0 <= k < 5 ==>
      (WindowValues(EntityPoints(os, e), y)[k].Some? <==>
        exists i :: 0 <= i < |os| && os[i].entity == e && os[i].period == y - 2 + k)
  {
    forall k | 0 <= k < 5
      ensures WindowValues(EntityPoints(os, e), y)[k].Some? <==>
        exists i :: 0 <= i < |os| && os[i].entity == e && os[i].period == y - 2 + k
    {
      FirstMatchPresent(os, e, y - 2 + k);
    }
  }

  /** Over rows whose values are all present, the lookup finds a value exactly
      when the entity has a row of that year. */
  lemma FirstMatchPresent(os: seq<Obs>, e: string, y: int)
    requires forall i :: 0 <= i < |os| ==> os[i].value.Some?
    ensures FirstMatch(EntityPoints(os, e), y).Some? <==>
      exists i :: 0 <= i < |os| && os[i].entity == e && os[i].period == y
  {
    var pts := EntityPoints(os, e);
    if i :| 0 <= i < |os| && os[i].entity == e && os[i].period == y {
      assert Point(os[i].period, os[i].value) in pts;
      var j := FirstIndex(pts, y);
      assert pts[j] in pts;
    } else {
      forall j | 0 <= j < |pts|
        ensures pts[j].period != y
      {
        assert pts[j] in pts;
      }
    }
  }

  /** The research-spending pre/post bars of one country, over its prepared
      rows in table order. */
  function GerdComparison(t: WideTable, e: string, c: int): (r: PrePost)
    requires Rectangular(t)
    ensures r == LevelComparison(CountrySeries(t, e), c)
  {
    var os := PrepareOecd(t);
    OrderIrrelevant(os, e, c);
    LevelComparison(EntityPoints(os, e), c)
  }

  /** Sorting the rows first would not change the bars. */
  lemma OrderIrrelevant(os: seq<Obs>, e: string, c: int)
    ensures LevelComparison(EntityPoints(os, e), c) == LevelComparison(SeriesOf(os, e), c)
  {
    SideMeanPermutation(EntityPoints(os, e), SeriesOf(os, e), c, Pre);
    SideMeanPermutation(EntityPoints(os, e), SeriesOf(os, e), c, Post);
  }

  /** Germany's research-spending growth of 3.6% in 2017 and 1.3% in 2018:
      the index starts at 100 and the second year adds 1.3%. */
  lemma GermanyIndex()
    ensures IndexChart(ExampleTable(), "Germany") == [100.0, 101.3]
  {
    GermanySeries();
    TwoGrowths(3.6, 1.3);
  }

  /** Germany's series holds the 2017 and 2018 values, in year order. */
  lemma GermanySeries()
    ensures CountrySeries(ExampleTable(), "Germany") == [Point(2017, Some(3.6)), Point(2018, Some(1.3))]
    ensures Values(CountrySeries(ExampleTable(), "Germany")) == [Some(3.6), Some(1.3)]
  {
    GermanyExample();
    var p, q := Point(2017, Some(3.6)), Point(2018, Some(1.3));
    TwoRows(PrepareOecd(ExampleTable()), "Germany", p, q);
  }

  /** Two rows of one entity in year order form its series as they are. */
  lemma TwoRows(os: seq<Obs>, e: string, p: Point, q: Point)
    requires p.period < q.period
    requires os == [Obs(e, p.period, p.value), Obs(e, q.period, q.value)]
    ensures SeriesOf(os, e) == [p, q]
    ensures Values([p, q]) == [p.value, q.value]
  {
    var pts := EntityPoints(os, e);
    assert os[1..][1..] == [];
    assert EntityPoints(os[1..], e) == [q];
    assert pts == [p, q];
    assert pts[1..] == [q];
  }

  /** Two present growths give an index of 100 followed by one step. */
  lemma TwoGrowths(a: real, b: real)
    ensures CumulativeIndex([Some(a), Some(b)]) == [Base, Base * (1.0 + b / 100.0)]
  {
    var gs := [Some(a), Some(b)];
    assert gs[1..] == [Some(b)];
  }
}
