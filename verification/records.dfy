/**
 Shared records of the charting pipeline: an optional value standing for a
 number that may be missing (the script's NaN), a long-format observation
 keyed by (entity, period), and a point of one entity's time series.
 */
module Records {

  /** A value that may be missing. `None` plays the role of NaN. */
  datatype Option<+T> = None | Some(value: T)

  /** One long-format row: an entity (country name or code, firm-size bucket),
      an integer year and a value that may be missing. */
  datatype Obs = Obs(entity: string, period: int, value: Option<real>)

  /** The grouping key of an observation. */
  datatype Key = Key(entity: string, period: int)

  /** One point of a single entity's series. */
  datatype Point = Point(period: int, value: Option<real>)

  function KeyOf(o: Obs): Key
  {
    Key(o.entity, o.period)
  }

  /** The value column of a series. */
  function Values(s: seq<Point>): (vs: seq<Option<real>>)
    ensures |vs| == |s|
    ensures forall i :: 0 <= i < |s| ==> vs[i] == s[i].value
  {
    seq(|s|, i requires 0 <= i < |s| => s[i].value)
  }

  /** Pairs a period column with a value column of the same length. */
  function Zip(periods: seq<int>, vs: seq<Option<real>>): (s: seq<Point>)
    requires |periods| == |vs|
    ensures |s| == |vs|
    ensures forall i :: 0 <= i < |s| ==> s[i] == Point(periods[i], vs[i])
  {
    seq(|vs|, i requires 0 <= i < |vs| => Point(periods[i], vs[i]))
  }

  /** The period column of a series. */
  function Periods(s: seq<Point>): (ps: seq<int>)
    ensures |ps| == |s|
    ensures forall i :: 0 <= i < |s| ==> ps[i] == s[i].period
  {
    seq(|s|, i requires 0 <= i < |s| => s[i].period)
  }

  /** Periods strictly increase along the series. */
  predicate StrictlyIncreasing(s: seq<Point>)
  {
    forall i, j :: 0 <= i < j < |s| ==> s[i].period < s[j].period
  }

  /** Every value of the column is present. */
  predicate AllPresent(vs: seq<Option<real>>)
  {
    forall i :: 0 <= i < |vs| ==> vs[i].Some?
  }
}
