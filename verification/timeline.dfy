/**
 The regulation timeline drawn over the time-series charts: each regulation's
 date is placed at a fractional year (the month's offset in twelfths, the day
 dropped), only regulations from a start year on are drawn, and the COVID-19
 period is shaded between two such positions.
 */
module Timeline {
  import Comparison

  /** A calendar date. */
  datatype Date = Date(year: int, month: int, day: int)

  predicate ValidDate(d: Date)
  {
    1 <= d.month <= 12 && 1 <= d.day <= 31
  }

  /** A named regulatory milestone. */
  datatype Regulation = Regulation(name: string, date: Date)

  /** The milestones in the order they are drawn. */
  const Regulations: seq<Regulation> := [
    Regulation("GDPR", Date(2018, 5, 25)),
    Regulation("DSA", Date(2022, 11, 16)),
    Regulation("DMA", Date(2023, 5, 2)),
    Regulation("AI Act", Date(2025, 2, 2))
  ]

  const CovidStart: Date := Date(2020, 3, 11)
  const CovidEnd: Date := Date(2023, 5, 1)

  /** The start year the charts draw from unless told otherwise. */
  const DefaultStartYear: int := 2010

  /** The x coordinate of a date: its year plus the month's offset in
      twelfths. */
  function XPosition(d: Date): real
  {
    d.year as real + (d.month - 1) as real / 12.0
  }

  /** The year a position falls in. */
  function YearOf(x: real): int
  {
    x.Floor
  }

  /** The month a position falls in. */
  function MonthOf(x: real): int
  {
    ((x - x.Floor as real) * 12.0).Floor + 1
  }

  /** A position lies within its own year. */
  lemma XPositionBounds(d: Date)
    requires ValidDate(d)
    ensures d.year as real <= XPosition(d) < d.year as real + 1.0
  {
  }

  /** Year and month can be read back from a position; only the day is lost. */
  lemma XPositionRoundTrip(d: Date)
    requires ValidDate(d)
    ensures YearOf(XPosition(d)) == d.year
    ensures MonthOf(XPosition(d)) == d.month
  {
    var x := XPosition(d);
    XPositionBounds(d);
    assert x.Floor == d.year;
    assert (x - d.year as real) * 12.0 == (d.month - 1) as real;
  }

  /** Earlier (year, month) means further left, and the same month shares a
      position whatever the day. */
  lemma XPositionOrder(a: Date, b: Date)
    requires ValidDate(a) && ValidDate(b)
    ensures XPosition(a) < XPosition(b) <==> a.year < b.year || (a.year == b.year && a.month < b.month)
    ensures XPosition(a) == XPosition(b) <==> a.year == b.year && a.month == b.month
  {
    XPositionRoundTrip(a);
    XPositionRoundTrip(b);
    XPositionBounds(a);
    XPositionBounds(b);
  }

  /** The milestones drawn when the chart starts at startYear, in order. */
  function Drawn(regs: seq<Regulation>, startYear: int): (r: seq<Regulation>)
    ensures |r| <= |regs|
    ensures forall g :: g in r <==> g in regs && g.date.year >= startYear
  {
    if |regs| == 0 then []
    else (if regs[0].date.year >= startYear then [regs[0]] else []) + Drawn(regs[1..], startYear)
  }

  /** The filter works milestone by milestone: the milestones drawn from a
      concatenation are those drawn from each part, in order. With DrawnSingle
      this fixes the order and multiplicity of the result. */
  lemma {:induction false} DrawnAppend(a: seq<Regulation>, b: seq<Regulation>, startYear: int)
    ensures Drawn(a + b, startYear) == Drawn(a, startYear) + Drawn(b, startYear)
  {
    if |a| > 0 {
      assert (a + b)[1..] == a[1..] + b;
      DrawnAppend(a[1..], b, startYear);
    } else {
      assert a + b == b;
    }
  }

  /** One milestone is drawn exactly when its year is the start year or later. */
  lemma DrawnSingle(g: Regulation, startYear: int)
    ensures Drawn([g], startYear) == if g.date.year >= startYear then [g] else []
  {
    assert [g][1..] == [];
  }

  /** The x coordinates of the drawn milestone lines. */
  function Markers(regs: seq<Regulation>, startYear: int): (xs: seq<real>)
    ensures |xs| == |Drawn(regs, startYear)|
    ensures forall k :: 0 <= k < |xs| ==> xs[k] == XPosition(Drawn(regs, startYear)[k].date)
  {
    var d := Drawn(regs, startYear);
    seq(|d|, k requires 0 <= k < |d| => XPosition(d[k].date))
  }

  /** A later start year draws no more milestones than an earlier one. */
  lemma {:induction false} DrawnMonotone(regs: seq<Regulation>, y1: int, y2: int)
    requires y1 <= y2
    ensures |Drawn(regs, y2)| <= |Drawn(regs, y1)|
  {
    if |regs| > 0 {
      DrawnMonotone(regs[1..], y1, y2);
    }
  }

  /** A start year no later than every milestone draws them all. */
  lemma {:induction false} DrawnAll(regs: seq<Regulation>, startYear: int)
    requires forall k :: 0 <= k < |regs| ==> regs[k].date.year >= startYear
    ensures Drawn(regs, startYear) == regs
  {
    if |regs| > 0 {
      DrawnAll(regs[1..], startYear);
    }
  }

  /** With the default start year all four milestones are drawn. */
  lemma AllDrawnByDefault()
    ensures Drawn(Regulations, DefaultStartYear) == Regulations
    ensures |Markers(Regulations, DefaultStartYear)| == 4
  {
    DrawnAll(Regulations, DefaultStartYear);
  }

  /** GDPR (May 2018) sits four twelfths into 2018. */
  lemma GdprPosition()
    ensures XPosition(Regulations[0].date) == 2018.0 + 4.0 / 12.0
  {
  }

  /** The shaded COVID-19 span runs from March 2020 to May 2023. */
  lemma CovidSpan()
    ensures XPosition(CovidStart) == 2020.0 + 2.0 / 12.0
    ensures XPosition(CovidEnd) == 2023.0 + 4.0 / 12.0
    ensures XPosition(CovidStart) < XPosition(CovidEnd)
  {
  }

  /** The milestone lines are drawn left to right; the DSA line falls inside
      the COVID-19 span and the DMA line on its right edge. */
  lemma TimelineLayout()
    ensures forall i, j :: 0 <= i < j < |Regulations| ==>
      XPosition(Regulations[i].date) < XPosition(Regulations[j].date)
    ensures XPosition(Regulations[0].date) < XPosition(CovidStart)
    ensures XPosition(CovidStart) < XPosition(Regulations[1].date) < XPosition(CovidEnd)
    ensures XPosition(Regulations[2].date) == XPosition(CovidEnd)
  {
  }

  /** The milestone years of the window charts and the cutoffs of the traffic
      chart are the years of the regulations (the traffic chart leaving out
      the AI Act). */
  lemma MilestoneYearsMatch()
    ensures |Comparison.MilestoneYears| == |Regulations|
    ensures forall k :: 0 <= k < |Regulations| ==> Comparison.MilestoneYears[k] == Regulations[k].date.year
    ensures Comparison.TrafficCutoffs == Comparison.MilestoneYears[..3]
  {
  }
}
