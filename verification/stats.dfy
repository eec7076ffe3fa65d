/**
 The pandas `mean()` reduction as the script uses it: missing values are
 skipped, and the mean of a column with no present value is missing. The
 pre/post comparison charts then replace a missing mean by 0.
 */
module Stats {
  import opened Records

  /** Sum of the present values. */
  function SumPresent(vs: seq<Option<real>>): real
  {
    if |vs| == 0 then 0.0
    else (if vs[0].Some? then vs[0].value else 0.0) + SumPresent(vs[1..])
  }

  /** Number of present values. */
  function CountPresent(vs: seq<Option<real>>): (n: nat)
    ensures n <= |vs|
  {
    if |vs| == 0 then 0
    else (if vs[0].Some? then 1 else 0) + CountPresent(vs[1..])
  }

  /** Arithmetic mean of the present values, missing when none is present. */
  function Mean(vs: seq<Option<real>>): (m: Option<real>)
    ensures m.None? <==> CountPresent(vs) == 0
  {
    var n := CountPresent(vs);
    if n == 0 then None else Some(SumPresent(vs) / n as real)
  }

  /** The mean with the charts' fallback: a missing mean is reported as 0. */
  function MeanOrZero(vs: seq<Option<real>>): (r: real)
    ensures CountPresent(vs) == 0 ==> r == 0.0
    ensures Mean(vs).Some? ==> r == Mean(vs).value
  {
    match Mean(vs)
    case None => 0.0
    case Some(m) => m
  }

  /** A present mean times the count of present values is their sum. */
  lemma MeanTimesCount(vs: seq<Option<real>>)
    requires Mean(vs).Some?
    ensures Mean(vs).value * CountPresent(vs) as real == SumPresent(vs)
  {
    QuotientTimes(SumPresent(vs), CountPresent(vs) as real);
  }

  /** The charts' bar times the count of present values is their sum, also
      when none is present and the bar falls back to 0. */
  lemma MeanOrZeroTotal(vs: seq<Option<real>>)
    ensures MeanOrZero(vs) * CountPresent(vs) as real == SumPresent(vs)
  {
    var r, n, sum := MeanOrZero(vs), CountPresent(vs) as real, SumPresent(vs);
    if CountPresent(vs) == 0 {
      SumWithoutPresent(vs);
      ZeroTimes(r, n, sum);
    } else {
      MeanTimesCount(vs);
    }
  }

  /** With no present value the sum is 0. */
  lemma {:induction false} SumWithoutPresent(vs: seq<Option<real>>)
    ensures CountPresent(vs) == 0 ==> SumPresent(vs) == 0.0
  {
    if |vs| > 0 {
      SumWithoutPresent(vs[1..]);
    }
  }

  lemma QuotientTimes(sum: real, n: real)
    requires n != 0.0
    ensures sum / n * n == sum
  {
  }

  lemma ZeroTimes(r: real, n: real, sum: real)
    requires r == 0.0 && sum == 0.0
    ensures r * n == sum
  {
  }

  lemma {:induction false} SumAppend(a: seq<Option<real>>, b: seq<Option<real>>)
    ensures SumPresent(a + b) == SumPresent(a) + SumPresent(b)
    ensures CountPresent(a + b) == CountPresent(a) + CountPresent(b)
    decreases |a|
  {
    if |a| == 0 {
      assert a + b == b;
    } else {
      assert (a + b)[1..] == a[1..] + b;
      SumAppend(a[1..], b);
    }
  }

  /** Removing the element at j removes one copy of it from the multiset. */
  lemma MultisetRemove<T>(b: seq<T>, j: int)
    requires 0 <= j < |b|
    ensures multiset(b) == multiset{b[j]} + multiset(b[..j] + b[j+1..])
  {
    assert b == b[..j] + [b[j]] + b[j+1..];
  }

  lemma MultisetHead<T>(a: seq<T>)
    requires |a| > 0
    ensures multiset(a) == multiset{a[0]} + multiset(a[1..])
  {
    assert a == [a[0]] + a[1..];
  }

  /** Taking out the element at j takes its contribution out of sum and count. */
  lemma SumRemove(b: seq<Option<real>>, j: int)
    requires 0 <= j < |b|
    ensures SumPresent(b) == SumPresent([b[j]]) + SumPresent(b[..j] + b[j+1..])
    ensures CountPresent(b) == CountPresent([b[j]]) + CountPresent(b[..j] + b[j+1..])
  {
    var l, tail, r := b[..j], b[j..], b[j+1..];
    assert l + tail == b;
    assert tail[1..] == r;
    SumAppend(l, tail);
    SumAppend(l, r);
    Unfold(tail);
    Unfold([b[j]]);
    assert [b[j]][1..] == [];
  }

  /** Equal multisets: the first element of one occurs somewhere in the other,
      and what remains on both sides is again equal as multisets. */
  lemma PermutationTail<T>(a: seq<T>, b: seq<T>) returns (j: int)
    requires multiset(a) == multiset(b) && |a| > 0
    ensures 0 <= j < |b| && b[j] == a[0]
    ensures multiset(a[1..]) == multiset(b[..j] + b[j+1..])
  {
    assert a[0] in multiset(a);
    assert a[0] in multiset(b);
    assert a[0] in b;
    j :| 0 <= j < |b| && b[j] == a[0];
    var rest := b[..j] + b[j+1..];
    MultisetRemove(b, j);
    MultisetHead(a);
    var ma, mb, mx := multiset(a), multiset(b), multiset{a[0]};
    forall x
      ensures multiset(a[1..])[x] == multiset(rest)[x]
    {
      assert ma[x] == mx[x] + multiset(a[1..])[x];
      assert mb[x] == mx[x] + multiset(rest)[x];
    }
  }

  /** Sum and count depend only on the multiset of values. */
  lemma {:induction false} SumPermutation(a: seq<Option<real>>, b: seq<Option<real>>)
    requires multiset(a) == multiset(b)
    ensures SumPresent(a) == SumPresent(b)
    ensures CountPresent(a) == CountPresent(b)
    decreases |a|
  {
    if |a| == 0 {
      assert |b| == |multiset(b)| == 0;
    } else {
      var j := PermutationTail(a, b);
      var rest := b[..j] + b[j+1..];
      SumPermutation(a[1..], rest);
      SumRemove(b, j);
      assert [a[0]][1..] == [];
    }
  }

  /** Shuffling the input does not change the mean. */
  lemma MeanPermutation(a: seq<Option<real>>, b: seq<Option<real>>)
    requires multiset(a) == multiset(b)
    ensures Mean(a) == Mean(b)
  {
    SumPermutation(a, b);
  }

  /** A group of one observation keeps that observation's value. */
  lemma MeanSingleton(v: real)
    ensures Mean([Some(v)]) == Some(v)
  {
    assert [Some(v)][1..] == [];
    assert SumPresent([Some(v)]) == v;
    assert CountPresent([Some(v)]) == 1;
  }

  /** Bounds on every present value bound the sum. */
  lemma {:induction false} SumBounds(vs: seq<Option<real>>, lo: real, hi: real)
    requires forall i :: 0 <= i < |vs| && vs[i].Some? ==> lo <= vs[i].value <= hi
    ensures lo * CountPresent(vs) as real <= SumPresent(vs) <= hi * CountPresent(vs) as real
  {
    RepeatedBounds(vs, lo, hi);
    Scale(lo, hi, CountPresent(vs), SumPresent(vs));
  }

  lemma Scale(lo: real, hi: real, n: nat, sum: real)
    requires Times(lo, n) <= sum <= Times(hi, n)
    ensures lo * n as real <= sum <= hi * n as real
  {
    Repeated(lo, n);
    Repeated(hi, n);
  }

  /** x added to itself n times. */
  function Times(x: real, n: nat): real
  {
    if n == 0 then 0.0 else x + Times(x, n - 1)
  }

  lemma {:induction false} Repeated(x: real, n: nat)
    ensures Times(x, n) == x * n as real
  {
    if n > 0 {
      Repeated(x, n - 1);
    }
  }

  lemma {:induction false} RepeatedBounds(vs: seq<Option<real>>, lo: real, hi: real)
    requires forall i :: 0 <= i < |vs| && vs[i].Some? ==> lo <= vs[i].value <= hi
    ensures Times(lo, CountPresent(vs)) <= SumPresent(vs) <= Times(hi, CountPresent(vs))
  {
    if |vs| > 0 {
      RepeatedBounds(vs[1..], lo, hi);
      Unfold(vs);
    }
  }

  lemma Unfold(vs: seq<Option<real>>)
    requires |vs| > 0
    ensures vs[0].Some? ==> CountPresent(vs) == CountPresent(vs[1..]) + 1 && SumPresent(vs) == vs[0].value + SumPresent(vs[1..])
    ensures vs[0].None? ==> CountPresent(vs) == CountPresent(vs[1..]) && SumPresent(vs) == SumPresent(vs[1..])
  {
  }

  /** The mean lies between any lower and upper bound of the present values. */
  lemma MeanBounds(vs: seq<Option<real>>, lo: real, hi: real)
    requires forall i :: 0 <= i < |vs| && vs[i].Some? ==> lo <= vs[i].value <= hi
    requires Mean(vs).Some?
    ensures lo <= Mean(vs).value <= hi
  {
    SumBounds(vs, lo, hi);
    var n := CountPresent(vs) as real;
    var sum := SumPresent(vs);
    assert Mean(vs).value == sum / n;
    Between(lo, hi, sum, n);
  }

  lemma Between(lo: real, hi: real, sum: real, n: real)
    requires n > 0.0 && lo * n <= sum <= hi * n
    ensures lo <= sum / n <= hi
  {
    DivMonotone(lo * n, sum, n);
    DivMonotone(sum, hi * n, n);
    MulDiv(lo, n);
    MulDiv(hi, n);
  }

  lemma MulDiv(x: real, n: real)
    requires n > 0.0
    ensures x * n / n == x
  {
  }

  lemma DivMonotone(a: real, b: real, n: real)
    requires a <= b && n > 0.0
    ensures a / n <= b / n
  {
    assert b / n - a / n == (b - a) / n;
  }

  /** A column whose present values all equal c averages to c. */
  lemma MeanConstant(vs: seq<Option<real>>, c: real)
    requires forall i :: 0 <= i < |vs| && vs[i].Some? ==> vs[i].value == c
    requires CountPresent(vs) > 0
    ensures Mean(vs) == Some(c)
  {
    MeanBounds(vs, c, c);
  }
}
