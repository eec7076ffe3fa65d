/**
 Derived series over one entity's period-sorted values: the year-over-year
 percent change (`pct_change() * 100`) and the cumulative investment index
 chained from a growth-rate series.
 */
module Growth {
  import opened Records

  // ---------------------------------------------------------------------
  // Percent change
  // ---------------------------------------------------------------------

  /** The most recent present value at or before position i, if any. */
  function LastPresent(vs: seq<Option<real>>, i: int): Option<real>
    requires i < |vs|
    decreases i
  {
    if i < 0 then None
    else if vs[i].Some? then vs[i]
    else LastPresent(vs, i - 1)
  }

  /** Left-to-right scan carrying the last present value over missing ones. */
  function FillFrom(last: Option<real>, vs: seq<Option<real>>): (fs: seq<Option<real>>)
    ensures |fs| == |vs|
    decreases |vs|
  {
    if |vs| == 0 then []
    else
      var cur := if vs[0].Some? then vs[0] else last;
      [cur] + FillFrom(cur, vs[1..])
  }

  /** Forward fill, which `pct_change` applies before dividing (its default
      fill method pads each missing value with the last present one). */
  function ForwardFill(vs: seq<Option<real>>): (fs: seq<Option<real>>)
    ensures |fs| == |vs|
  {
    FillFrom(None, vs)
  }

  /** Every value other than the last one that is present is nonzero, so no
      ratio below divides by zero. */
  predicate NonzeroPriors(vs: seq<Option<real>>)
  {
    forall i :: 0 <= i < |vs| - 1 && vs[i].Some? ==> vs[i].value != 0.0
  }

  /** Relative change of cur over prev, in percent; missing when either is. */
  function Change(prev: Option<real>, cur: Option<real>): Option<real>
    requires prev.Some? ==> prev.value != 0.0
  {
    if prev.Some? && cur.Some? then Some((cur.value / prev.value - 1.0) * 100.0) else None
  }

  /** `pct_change() * 100` over a series of values sorted by period. */
  function PctChange(vs: seq<Option<real>>): (gs: seq<Option<real>>)
    requires NonzeroPriors(vs)
    ensures |gs| == |vs|
    ensures |vs| > 0 ==> gs[0].None?
    ensures forall i :: 0 < i < |vs| && vs[i - 1].Some? && vs[i].Some? ==>
      gs[i] == Some((vs[i].value - vs[i - 1].value) / vs[i - 1].value * 100.0)
  {
    var fs := ForwardFill(vs);
    FillNonzero(vs);
    FillKeepsPresent(vs);
    var gs := seq(|vs|, i requires 0 <= i < |vs| => if i == 0 then None else Change(fs[i - 1], fs[i]));
    ChangeFormula(vs, fs, gs);
    gs
  }

  lemma ChangeFormula(vs: seq<Option<real>>, fs: seq<Option<real>>, gs: seq<Option<real>>)
    requires |fs| == |vs| == |gs|
    requires forall i :: 0 <= i < |vs| && vs[i].Some? ==> fs[i] == vs[i]
    requires forall i :: 0 <= i < |vs| - 1 && fs[i].Some? ==> fs[i].value != 0.0
    requires forall i :: 0 < i < |vs| ==> gs[i] == Change(fs[i - 1], fs[i])
    ensures forall i :: 0 < i < |vs| && vs[i - 1].Some? && vs[i].Some? ==>
      gs[i] == Some((vs[i].value - vs[i - 1].value) / vs[i - 1].value * 100.0)
  {
    forall i | 0 < i < |vs| && vs[i - 1].Some? && vs[i].Some?
      ensures gs[i] == Some((vs[i].value - vs[i - 1].value) / vs[i - 1].value * 100.0)
    {
      RatioMinusOne(vs[i - 1].value, vs[i].value);
    }
  }

  lemma RatioMinusOne(a: real, b: real)
    requires a != 0.0
    ensures b / a - 1.0 == (b - a) / a
  {
    assert (b - a) / a == b / a - a / a;
  }

  lemma {:induction false} FillFromIsLastPresent(last: Option<real>, vs: seq<Option<real>>, i: int)
    requires 0 <= i < |vs|
    ensures FillFrom(last, vs)[i] == (if LastPresent(vs, i).Some? then LastPresent(vs, i) else last)
    decreases |vs|
  {
    var cur := if vs[0].Some? then vs[0] else last;
    if i > 0 {
      FillFromIsLastPresent(cur, vs[1..], i - 1);
      LastPresentShift(vs, i);
    }
  }

  /** Dropping the first element shifts LastPresent by one, unless only the
      first element was present. */
  lemma {:induction false} LastPresentShift(vs: seq<Option<real>>, i: int)
    requires 0 < i < |vs|
    ensures LastPresent(vs, i) ==
      (if LastPresent(vs[1..], i - 1).Some? then LastPresent(vs[1..], i - 1) else LastPresent(vs, 0))
    decreases i
  {
    if vs[i].None? && i > 1 {
      LastPresentShift(vs, i - 1);
    }
  }

  /** The forward-filled value at i is the last present value at or before i. */
  lemma ForwardFillIsLastPresent(vs: seq<Option<real>>, i: int)
    requires 0 <= i < |vs|
    ensures ForwardFill(vs)[i] == LastPresent(vs, i)
  {
    FillFromIsLastPresent(None, vs, i);
  }

  /** The last present value at or before i is one of the values. */
  lemma {:induction false} LastPresentFrom(vs: seq<Option<real>>, i: int)
    requires i < |vs|
    ensures LastPresent(vs, i).Some? ==> exists k :: 0 <= k <= i && vs[k] == LastPresent(vs, i)
    ensures LastPresent(vs, i).Some? <==> exists k :: 0 <= k <= i && vs[k].Some?
    decreases i
  {
    if i >= 0 && vs[i].None? {
      LastPresentFrom(vs, i - 1);
    }
  }

  lemma FillKeepsPresent(vs: seq<Option<real>>)
    ensures forall i :: 0 <= i < |vs| && vs[i].Some? ==> ForwardFill(vs)[i] == vs[i]
  {
    forall i | 0 <= i < |vs| && vs[i].Some? {
      ForwardFillIsLastPresent(vs, i);
    }
  }

  lemma FillNonzero(vs: seq<Option<real>>)
    requires NonzeroPriors(vs)
    ensures forall i :: 0 <= i < |vs| - 1 && ForwardFill(vs)[i].Some? ==> ForwardFill(vs)[i].value != 0.0
  {
    forall i | 0 <= i < |vs| - 1 && ForwardFill(vs)[i].Some?
      ensures ForwardFill(vs)[i].value != 0.0
    {
      ForwardFillIsLastPresent(vs, i);
      LastPresentFrom(vs, i);
    }
  }

  /** Growth at i >= 1 is present exactly when some value before i is present;
      in particular a missing value after a present one counts as 0 growth. */
  lemma PctChangePresence(vs: seq<Option<real>>, i: int)
    requires NonzeroPriors(vs) && 0 < i < |vs|
    ensures PctChange(vs)[i].Some? <==> exists k :: 0 <= k < i && vs[k].Some?
    ensures vs[i].None? && vs[i - 1].Some? ==> PctChange(vs)[i] == Some(0.0)
  {
    ForwardFillIsLastPresent(vs, i);
    ForwardFillIsLastPresent(vs, i - 1);
    LastPresentFrom(vs, i - 1);
    LastPresentFrom(vs, i);
    var fs := ForwardFill(vs);
    if fs[i - 1].Some? {
      assert fs[i].Some?;
    }
    if vs[i].None? && vs[i - 1].Some? {
      assert fs[i] == fs[i - 1];
      SelfChange(fs[i - 1].value);
    }
  }

  /** The growth at i compares the last present values at or before i - 1 and
      at or before i: after a gap the change is measured against the value
      before the gap, and a missing value after a present one gives 0. */
  lemma PctChangePadded(vs: seq<Option<real>>, i: int)
    requires NonzeroPriors(vs) && 0 < i < |vs|
    ensures LastPresent(vs, i - 1).Some? ==> LastPresent(vs, i - 1).value != 0.0
    ensures PctChange(vs)[i] == Change(LastPresent(vs, i - 1), LastPresent(vs, i))
  {
    ForwardFillIsLastPresent(vs, i);
    ForwardFillIsLastPresent(vs, i - 1);
    FillNonzero(vs);
  }

  /** Example: [1, _, 2] grows by 100% at the third period, measured against
      the 1 before the gap, and [1, _, _] by 0% at both later periods. */
  lemma PctChangeAcrossGap()
    ensures NonzeroPriors([Some(1.0), None, Some(2.0)])
    ensures PctChange([Some(1.0), None, Some(2.0)]) == [None, Some(0.0), Some(100.0)]
    ensures PctChange([Some(1.0), None, None]) == [None, Some(0.0), Some(0.0)]
  {
    var a: seq<Option<real>> := [Some(1.0), None, Some(2.0)];
    var b: seq<Option<real>> := [Some(1.0), None, None];
    PctChangePadded(a, 1);
    PctChangePadded(a, 2);
    PctChangePadded(b, 1);
    PctChangePadded(b, 2);
  }

  lemma SelfChange(x: real)
    requires x != 0.0
    ensures (x / x - 1.0) * 100.0 == 0.0
  {
    assert x / x == 1.0;
  }

  /** A constant nonzero series grows by 0% at every period after the first. */
  lemma PctChangeConstant(vs: seq<Option<real>>, c: real)
    requires c != 0.0
    requires forall i :: 0 <= i < |vs| ==> vs[i] == Some(c)
    ensures NonzeroPriors(vs)
    ensures forall i :: 0 < i < |vs| ==> PctChange(vs)[i] == Some(0.0)
  {
    assert NonzeroPriors(vs);
    var gs := PctChange(vs);
    forall i | 0 < i < |vs|
      ensures gs[i] == Some(0.0)
    {
      assert vs[i - 1] == Some(c) && vs[i] == Some(c);
      assert gs[i] == Some((c - c) / c * 100.0);
    }
  }

  // ---------------------------------------------------------------------
  // Cumulative index
  // ---------------------------------------------------------------------

  /** The index value at the first period. */
  const Base: real := 100.0

  /** How a chain treats a missing growth rate: `Carry` keeps the previous
      value, `Reset` leaves the value the column was pre-filled with (Base). */
  datatype MissingPolicy = Carry | Reset

  /** The factor a growth rate in percent applies; 1 when it is missing. */
  function Factor(g: Option<real>): real
  {
    match g
    case None => 1.0
    case Some(x) => 1.0 + x / 100.0
  }

  /** One step of the chain: a present growth rate scales the previous value. */
  function Step(policy: MissingPolicy, prev: real, g: Option<real>): (next: real)
    ensures g.Some? ==> next == prev * (1.0 + g.value / 100.0)
    ensures g.None? ==> next == (if policy == Carry then prev else Base)
  {
    match g
    case None => if policy == Carry then prev else Base
    case Some(x) => prev * (1.0 + x / 100.0)
  }

  /** The chain continued from prev over the remaining growth rates. */
  function ChainFrom(policy: MissingPolicy, prev: real, gs: seq<Option<real>>): (idx: seq<real>)
    ensures |idx| == |gs|
    decreases |gs|
  {
    if |gs| == 0 then []
    else
      var next := Step(policy, prev, gs[0]);
      [next] + ChainFrom(policy, next, gs[1..])
  }

  /** Base at the first period, whatever that period's growth, then each later
      period's growth chained onto the previous value. */
  function Chain(policy: MissingPolicy, gs: seq<Option<real>>): (idx: seq<real>)
    ensures |idx| == |gs|
    ensures |gs| > 0 ==> idx[0] == Base
  {
    if |gs| == 0 then [] else [Base] + ChainFrom(policy, Base, gs[1..])
  }

  /** The cumulative index, carrying the previous value over a missing growth. */
  function CumulativeIndex(gs: seq<Option<real>>): (idx: seq<real>)
    ensures |idx| == |gs|
    ensures |gs| > 0 ==> idx[0] == Base
  {
    Chain(Carry, gs)
  }

  /** Product of the factors of all growth rates. */
  function Product(gs: seq<Option<real>>): real
  {
    if |gs| == 0 then 1.0 else Product(gs[..|gs| - 1]) * Factor(gs[|gs| - 1])
  }

  lemma {:induction false} ChainFromStep(policy: MissingPolicy, prev: real, gs: seq<Option<real>>, k: int)
    requires 0 <= k < |gs|
    ensures ChainFrom(policy, prev, gs)[k] ==
      Step(policy, if k == 0 then prev else ChainFrom(policy, prev, gs)[k - 1], gs[k])
    decreases |gs|
  {
    if k > 0 {
      ChainFromStep(policy, Step(policy, prev, gs[0]), gs[1..], k - 1);
    }
  }

  /** The chain satisfies the recurrence of the script's loop. */
  lemma ChainRecurrence(policy: MissingPolicy, gs: seq<Option<real>>)
    ensures forall i :: 0 < i < |gs| ==>
      Chain(policy, gs)[i] == Step(policy, Chain(policy, gs)[i - 1], gs[i])
  {
    forall i | 0 < i < |gs|
      ensures Chain(policy, gs)[i] == Step(policy, Chain(policy, gs)[i - 1], gs[i])
    {
      ChainFromStep(policy, Base, gs[1..], i - 1);
    }
  }

  /** For i >= 1 the index is the previous index times (1 + g/100) when the
      growth g is present, and the previous index when it is missing. */
  lemma CumulativeIndexRecurrence(gs: seq<Option<real>>)
    ensures forall i :: 0 < i < |gs| && gs[i].Some? ==>
      CumulativeIndex(gs)[i] == CumulativeIndex(gs)[i - 1] * (1.0 + gs[i].value / 100.0)
    ensures forall i :: 0 < i < |gs| && gs[i].None? ==>
      CumulativeIndex(gs)[i] == CumulativeIndex(gs)[i - 1]
  {
    ChainRecurrence(Carry, gs);
  }

  lemma IndexStep(gs: seq<Option<real>>, i: int)
    requires 0 < i < |gs|
    ensures CumulativeIndex(gs)[i] == Step(Carry, CumulativeIndex(gs)[i - 1], gs[i])
  {
    ChainFromStep(Carry, Base, gs[1..], i - 1);
  }

  /** Any sequence starting at Base and obeying the recurrence is the chain. */
  lemma RecurrenceDeterminesChain(policy: MissingPolicy, gs: seq<Option<real>>, idx: seq<real>)
    requires |idx| == |gs|
    requires |gs| > 0 ==> idx[0] == Base
    requires forall i :: 0 < i < |gs| ==> idx[i] == Step(policy, idx[i - 1], gs[i])
    ensures idx == Chain(policy, gs)
  {
    var ci := Chain(policy, gs);
    ChainRecurrence(policy, gs);
    forall i | 0 <= i < |gs|
      ensures idx[i] == ci[i]
    {
      AgreeUpTo(policy, gs, idx, ci, i);
    }
  }

  lemma {:induction false} AgreeUpTo(policy: MissingPolicy, gs: seq<Option<real>>, a: seq<real>, b: seq<real>, i: int)
    requires |a| == |b| == |gs| && 0 <= i < |gs|
    requires a[0] == Base && b[0] == Base
    requires forall j :: 0 < j < |gs| ==> a[j] == Step(policy, a[j - 1], gs[j])
    requires forall j :: 0 < j < |gs| ==> b[j] == Step(policy, b[j - 1], gs[j])
    ensures a[i] == b[i]
    decreases i
  {
    if i > 0 {
      AgreeUpTo(policy, gs, a, b, i - 1);
    }
  }

  /** Closed form: the index at i is Base times the product of the factors of
      the growth rates at periods 1..i. */
  lemma {:induction false} CumulativeIndexClosedForm(gs: seq<Option<real>>, i: int)
    requires 0 <= i < |gs|
    ensures CumulativeIndex(gs)[i] == Base * Product(gs[1..i + 1])
    decreases i
  {
    if i == 0 {
      assert gs[1..1] == [];
    } else {
      CumulativeIndexClosedForm(gs, i - 1);
      ChainRecurrence(Carry, gs);
      var prev := CumulativeIndex(gs)[i - 1];
      assert CumulativeIndex(gs)[i] == prev * Factor(gs[i]);
      ProductSnoc(gs, i);
    }
  }

  lemma ProductSnoc(gs: seq<Option<real>>, i: int)
    requires 0 < i < |gs|
    ensures Product(gs[1..i + 1]) == Product(gs[1..i]) * Factor(gs[i])
  {
    assert gs[1..i + 1][..i - 1] == gs[1..i];
  }

  /** With every growth after the first missing, the index stays at Base. */
  lemma IndexAllMissing(gs: seq<Option<real>>)
    requires forall i :: 0 < i < |gs| ==> gs[i].None?
    ensures forall i :: 0 <= i < |gs| ==> CumulativeIndex(gs)[i] == Base
  {
    forall i | 0 <= i < |gs|
      ensures CumulativeIndex(gs)[i] == Base
    {
      CumulativeIndexClosedForm(gs, i);
      ProductAllMissing(gs[1..i + 1]);
    }
  }

  lemma {:induction false} ProductAllMissing(gs: seq<Option<real>>)
    requires forall i :: 0 <= i < |gs| ==> gs[i].None?
    ensures Product(gs) == 1.0
  {
    if |gs| > 0 {
      ProductAllMissing(gs[..|gs| - 1]);
    }
  }

  /** Growth of 10% then -10% after an ignored first growth gives 100, 110, 99. */
  lemma IndexExample()
    ensures CumulativeIndex([None, Some(10.0), Some(-10.0)]) == [100.0, 110.0, 99.0]
  {
    var gs: seq<Option<real>> := [None, Some(10.0), Some(-10.0)];
    assert gs[1..] == [Some(10.0), Some(-10.0)];
    assert gs[1..][1..] == [Some(-10.0)];
  }

  /** The index chart's loop as the script writes it: the column is pre-filled
      with Base and a later row is overwritten only when its growth is present,
      so a missing growth leaves Base rather than the previous value. */
  method CumulativeIndexLoop(gs: seq<Option<real>>) returns (idx: seq<real>)
    ensures |idx| == |gs|
    ensures |gs| > 0 ==> idx[0] == Base
    ensures forall i :: 0 < i < |gs| && gs[i].Some? ==> idx[i] == idx[i - 1] * (1.0 + gs[i].value / 100.0)
    ensures forall i :: 0 < i < |gs| && gs[i].None? ==> idx[i] == Base
    ensures idx == Chain(Reset, gs)
  {
    idx := seq(|gs|, _ => Base);
    var i := 1;
    while i < |gs|
      invariant |idx| == |gs|
      invariant |gs| > 0 ==> 1 <= i <= |gs|
      invariant |gs| > 0 ==> idx[0] == Base
      invariant forall j :: 0 < j < i && j < |gs| ==> idx[j] == Step(Reset, idx[j - 1], gs[j])
      invariant forall j :: i <= j < |gs| ==> idx[j] == Base
    {
      var prev := idx[i - 1];
      var growth := gs[i];
      if growth.Some? {
        idx := idx[i := prev * (1.0 + growth.value / 100.0)];
      }
      i := i + 1;
    }
    forall j | 0 < j < |gs| && gs[j].None?
      ensures idx[j] == Base
    {
      assert idx[j] == Step(Reset, idx[j - 1], gs[j]);
    }
    RecurrenceDeterminesChain(Reset, gs, idx);
  }

  /** When every growth after the first is present (always the case for rows of
      the OECD reshape, which drops missing values) both policies agree. */
  lemma {:induction false} PoliciesAgreeWhenPresent(gs: seq<Option<real>>)
    requires forall i :: 0 < i < |gs| ==> gs[i].Some?
    ensures Chain(Reset, gs) == Chain(Carry, gs)
  {
    var a := Chain(Reset, gs);
    ChainRecurrence(Reset, gs);
    forall i | 0 < i < |gs|
      ensures a[i] == Step(Carry, a[i - 1], gs[i])
    {
    }
    RecurrenceDeterminesChain(Carry, gs, a);
  }

  /** A missing growth after a present one: the loop as written drops back to
      100 where the carried-forward index stays at 110. */
  lemma ResetDiffersFromCarry()
    ensures Chain(Reset, [None, Some(10.0), None]) == [100.0, 110.0, 100.0]
    ensures CumulativeIndex([None, Some(10.0), None]) == [100.0, 110.0, 110.0]
  {
    var gs: seq<Option<real>> := [None, Some(10.0), None];
    assert gs[1..] == [Some(10.0), None];
    assert gs[1..][1..] == [None];
  }

  /** Chaining the percent changes of a series of nonzero values rebases it:
      the index at i is Base times the value at i over the first value. */
  lemma {:induction false} IndexOfPctChange(vs: seq<Option<real>>, i: int)
    requires AllPresent(vs) && forall k :: 0 <= k < |vs| ==> vs[k].value != 0.0
    requires 0 <= i < |vs|
    ensures NonzeroPriors(vs)
    ensures CumulativeIndex(PctChange(vs))[i] == Base * vs[i].value / vs[0].value
    decreases i
  {
    assert NonzeroPriors(vs);
    if i > 0 {
      IndexOfPctChange(vs, i - 1);
      RebaseStep(vs, i);
    } else {
      CancelRatio(Base, vs[0].value);
    }
  }

  /** One step of the rebasing: from the index at i - 1 to the index at i. */
  lemma RebaseStep(vs: seq<Option<real>>, i: int)
    requires AllPresent(vs) && forall k :: 0 <= k < |vs| ==> vs[k].value != 0.0
    requires 0 < i < |vs| && NonzeroPriors(vs)
    requires CumulativeIndex(PctChange(vs))[i - 1] == Base * vs[i - 1].value / vs[0].value
    ensures CumulativeIndex(PctChange(vs))[i] == Base * vs[i].value / vs[0].value
  {
    var gs := PctChange(vs);
    var g := PctChangeAt(vs, i);
    IndexStep(gs, i);
    var x, prev := CumulativeIndex(gs)[i], CumulativeIndex(gs)[i - 1];
    PresentStep(prev, gs[i], g);
    ChainedRatio(x, prev, g, Base, vs[0].value, vs[i - 1].value, vs[i].value);
  }

  lemma PresentStep(prev: real, growth: Option<real>, g: real)
    requires growth == Some(g)
    ensures Step(Carry, prev, growth) == prev * (1.0 + g / 100.0)
  {
  }

  lemma CancelRatio(base: real, v: real)
    requires v != 0.0
    ensures base * v / v == base
  {
  }

  lemma PctChangeAt(vs: seq<Option<real>>, i: int) returns (g: real)
    requires NonzeroPriors(vs) && 0 < i < |vs| && vs[i - 1].Some? && vs[i].Some?
    ensures vs[i - 1].value != 0.0
    ensures g == (vs[i].value - vs[i - 1].value) / vs[i - 1].value * 100.0
    ensures PctChange(vs)[i] == Some(g)
  {
    g := (vs[i].value - vs[i - 1].value) / vs[i - 1].value * 100.0;
  }

  lemma ChainedRatio(x: real, prev: real, g: real, base: real, v0: real, a: real, b: real)
    requires v0 != 0.0 && a != 0.0
    requires prev == base * a / v0 && g == (b - a) / a * 100.0
    requires x == prev * (1.0 + g / 100.0)
    ensures x == base * b / v0
  {
    RatioStep(base, v0, a, b);
  }

  /** (B·a/v0)·(1 + ((b−a)/a·100)/100) = B·b/v0 for nonzero a and v0. */
  lemma RatioStep(base: real, v0: real, a: real, b: real)
    requires v0 != 0.0 && a != 0.0
    ensures base * a / v0 * (1.0 + (b - a) / a * 100.0 / 100.0) == base * b / v0
  {
    assert (b - a) / a * 100.0 / 100.0 == (b - a) / a;
    RatioMinusOne(a, b);
    assert base * a / v0 * (b / a) == base * b / v0;
  }
}
