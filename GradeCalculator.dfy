/** `calculateAverageGrade`: the per-deliverable grade. With fewer than three
    grades it is their mean; from three on, one occurrence of the lowest and
    one of the highest value are dropped first. The result is rounded to two
    decimals. */
module GradeCalculator {
  import opened Domain
  import opened Decimal

  /** The `reduce((acc, val) => acc + val, 0)` of the source. */
  function Sum(s: seq<real>): real {
    if s == [] then 0.0 else s[0] + Sum(s[1..])
  }

  /** `Math.min(...values)`. */
  function MinOf(s: seq<real>): (m: real)
    requires |s| > 0
    ensures m in s
    ensures forall x <- s :: m <= x
  {
    if |s| == 1 then assert s == [s[0]]; s[0]
    else
      var rest := MinOf(s[1..]);
      assert forall x <- s :: x == s[0] || x in s[1..];
      if s[0] <= rest then s[0] else rest
  }

  /** `Math.max(...values)`. */
  function MaxOf(s: seq<real>): (m: real)
    requires |s| > 0
    ensures m in s
    ensures forall x <- s :: x <= m
  {
    if |s| == 1 then assert s == [s[0]]; s[0]
    else
      var rest := MaxOf(s[1..]);
      assert forall x <- s :: x == s[0] || x in s[1..];
      if s[0] >= rest then s[0] else rest
  }

  /** `indexOf`: the position of the first occurrence of x. */
  function IndexOf(s: seq<real>, x: real): (i: nat)
    requires x in s
    ensures i < |s| && s[i] == x
    ensures forall k :: 0 <= k < i ==> s[k] != x
  {
    if s[0] == x then 0 else 1 + IndexOf(s[1..], x)
  }

  /** `splice(i, 1)` on a copy. */
  function RemoveAt(s: seq<real>, i: nat): (r: seq<real>)
    requires i < |s|
    ensures |r| == |s| - 1
    ensures multiset(r) == multiset(s) - multiset{s[i]}
  {
    assert s == s[..i] + [s[i]] + s[i+1..];
    s[..i] + s[i+1..]
  }

  /** The copied array after both splices of lines 23-27: first the first
      minimum, then the first maximum of what is left. */
  function Trimmed(values: seq<real>): (t: seq<real>)
    requires |values| >= 3
  {
    var lo, hi := MinOf(values), MaxOf(values);
    var afterMin := RemoveAt(values, IndexOf(values, lo));
    MaxSurvives(values);
    RemoveAt(afterMin, IndexOf(afterMin, hi))
  }

  /** The maximum is still present after the first minimum is removed: either
      it sits elsewhere, or minimum and maximum coincide and a copy remains. */
  lemma MaxSurvives(values: seq<real>)
    requires |values| >= 3
    ensures MaxOf(values) in RemoveAt(values, IndexOf(values, MinOf(values)))
  {
    var lo, hi := MinOf(values), MaxOf(values);
    var i := IndexOf(values, lo);
    var afterMin := RemoveAt(values, i);
    if lo == hi {
      var x := afterMin[0];
      assert x in multiset(afterMin);
      assert x in multiset(values);
      assert x in values;
      assert x == hi;
    } else {
      assert hi in multiset(values);
      assert multiset(afterMin)[hi] == multiset(values)[hi];
      assert hi in multiset(afterMin);
    }
  }

  /** The value before rounding. */
  function MeanBeforeRounding(values: seq<real>): real
    requires |values| > 0
  {
    if |values| < 3 then Sum(values) / |values| as real
    else Sum(Trimmed(values)) / (|values| - 2) as real
  }

  /** No grades give no average; otherwise the average has two decimals. */
  function CalculateAverageGrade(values: seq<real>): (r: Option<real>)
    ensures r.None? <==> |values| == 0
    ensures r.Some? ==> IsCents(r.value)
  {
    if |values| == 0 then None
    else Some(Round2(MeanBeforeRounding(values)))
  }

  // ---------------------------------------------------------------------
  // Properties

  /** One or two grades: their plain mean, rounded. */
  lemma FewGradesArePlainMean(values: seq<real>)
    requires 0 < |values| < 3
    ensures CalculateAverageGrade(values) == Some(Round2(Sum(values) / |values| as real))
  {
  }

  /** From three grades on, exactly one occurrence of the minimum and one of
      the maximum are removed, so n - 2 values are averaged. */
  lemma {:induction false} TrimmedDropsOneMinAndOneMax(values: seq<real>)
    requires |values| >= 3
    ensures |Trimmed(values)| == |values| - 2
    ensures multiset(Trimmed(values)) == multiset(values) - multiset{MinOf(values)} - multiset{MaxOf(values)}
    ensures CalculateAverageGrade(values) == Some(Round2(Sum(Trimmed(values)) / (|values| - 2) as real))
  {
    var lo, hi := MinOf(values), MaxOf(values);
    var afterMin := RemoveAt(values, IndexOf(values, lo));
    MaxSurvives(values);
    var j := IndexOf(afterMin, hi);
    assert Trimmed(values) == RemoveAt(afterMin, j);
  }

  lemma {:induction false} SumConcat(a: seq<real>, b: seq<real>)
    ensures Sum(a + b) == Sum(a) + Sum(b)
  {
    if a == [] {
      assert a + b == b;
    } else {
      assert (a + b)[1..] == a[1..] + b;
      SumConcat(a[1..], b);
    }
  }

  lemma SumRemoveAt(s: seq<real>, i: nat)
    requires i < |s|
    ensures Sum(s) == s[i] + Sum(RemoveAt(s, i))
  {
    var before, after := s[..i], s[i+1..];
    assert Sum(s) == Sum(before) + Sum(s[i..]) by {
      assert before + s[i..] == s;
      SumConcat(before, s[i..]);
    }
    assert Sum(s[i..]) == s[i] + Sum(after) by {
      assert s[i..][1..] == after;
    }
    assert Sum(RemoveAt(s, i)) == Sum(before) + Sum(after) by {
      SumConcat(before, after);
    }
  }

  /** A sum does not depend on the order of its terms. */
  lemma {:induction false} SumPermutation(a: seq<real>, b: seq<real>)
    requires multiset(a) == multiset(b)
    ensures Sum(a) == Sum(b)
    decreases |a|
  {
    if a == [] {
      assert |b| == |multiset(b)| == 0;
    } else {
      assert a[0] in multiset(b);
      var k := IndexOf(b, a[0]);
      SumRemoveAt(b, k);
      assert a == [a[0]] + a[1..];
      assert multiset(a[1..]) == multiset(a) - multiset{a[0]};
      SumPermutation(a[1..], RemoveAt(b, k));
    }
  }

  lemma MinMaxOfPermutation(a: seq<real>, b: seq<real>)
    requires |a| > 0 && multiset(a) == multiset(b)
    ensures |b| > 0 && MinOf(a) == MinOf(b) && MaxOf(a) == MaxOf(b)
  {
    assert a[0] in multiset(b);
    assert forall x :: x in a <==> x in b by {
      forall x ensures x in a <==> x in b {
        assert x in a <==> x in multiset(a);
      }
    }
  }

  /** The average does not depend on the order in which grades arrive. */
  lemma AverageIgnoresOrder(a: seq<real>, b: seq<real>)
    requires multiset(a) == multiset(b)
    ensures CalculateAverageGrade(a) == CalculateAverageGrade(b)
  {
    assert |a| == |multiset(a)| == |multiset(b)| == |b|;
    if 0 < |a| < 3 {
      SumPermutation(a, b);
    } else if |a| >= 3 {
      MinMaxOfPermutation(a, b);
      TrimmedDropsOneMinAndOneMax(a);
      TrimmedDropsOneMinAndOneMax(b);
      SumPermutation(Trimmed(a), Trimmed(b));
    }
  }

  lemma {:induction false} SumBounds(s: seq<real>, lo: real, hi: real)
    requires forall x <- s :: lo <= x <= hi
    ensures lo * |s| as real <= Sum(s) <= hi * |s| as real
  {
    if s != [] {
      assert forall x <- s[1..] :: x in s;
      SumBounds(s[1..], lo, hi);
      var m := (|s| - 1) as real;
      assert lo * |s| as real == lo + lo * m;
      assert hi * |s| as real == hi + hi * m;
      assert s[0] in s;
    }
  }

  /** Every value kept by the trimming is one of the input values. */
  lemma TrimmedComesFromInput(values: seq<real>)
    requires |values| >= 3
    ensures forall x <- Trimmed(values) :: x in values
  {
    TrimmedDropsOneMinAndOneMax(values);
    var t := Trimmed(values);
    forall x <- t ensures x in values {
      assert x in multiset(t);
      assert x in multiset(values);
    }
  }

  /** Before rounding, the average lies between the lowest and the highest
      grade; when the grades are stored two-decimal values, so does the
      rounded result. */
  lemma AverageBetweenExtremes(values: seq<real>)
    requires |values| > 0
    ensures MinOf(values) <= MeanBeforeRounding(values) <= MaxOf(values)
    ensures (forall x <- values :: IsCents(x)) && MinOf(values) >= 0.0 ==>
              MinOf(values) <= CalculateAverageGrade(values).value <= MaxOf(values)
  {
    var lo, hi := MinOf(values), MaxOf(values);
    MeanBetweenExtremes(values);
    if (forall x <- values :: IsCents(x)) && lo >= 0.0 {
      assert IsCents(lo) && IsCents(hi);
      Round2Between(lo, MeanBeforeRounding(values), hi);
    }
  }

  lemma MeanBetweenExtremes(values: seq<real>)
    requires |values| > 0
    ensures MinOf(values) <= MeanBeforeRounding(values) <= MaxOf(values)
  {
    if |values| < 3 {
      MeanWithin(values, MinOf(values), MaxOf(values));
    } else {
      var t := Trimmed(values);
      TrimmedDropsOneMinAndOneMax(values);
      TrimmedComesFromInput(values);
      MeanWithin(t, MinOf(values), MaxOf(values));
    }
  }

  /** The plain mean of values lying in [lo, hi] lies in [lo, hi]. */
  lemma MeanWithin(s: seq<real>, lo: real, hi: real)
    requires |s| > 0
    requires forall x <- s :: lo <= x <= hi
    ensures lo <= Sum(s) / |s| as real <= hi
  {
    SumBounds(s, lo, hi);
    DivideBounds(Sum(s), |s|, lo, hi);
  }

  lemma DivideBounds(total: real, n: nat, lo: real, hi: real)
    requires n > 0
    requires lo * n as real <= total <= hi * n as real
    ensures lo <= total / n as real <= hi
  {
  }

  /** All grades equal: two copies are removed and the average is that value. */
  lemma AllEqualGrades(values: seq<real>, c: real)
    requires |values| >= 3
    requires forall x <- values :: x == c
    ensures Trimmed(values) == values[2..]
    ensures MeanBeforeRounding(values) == c
    ensures IsCents(c) ==> CalculateAverageGrade(values) == Some(c)
  {
    var t := Trimmed(values);
    assert |t| == |values| - 2 && forall x <- t :: x == c by {
      TrimmedDropsOneMinAndOneMax(values);
      TrimmedComesFromInput(values);
    }
    assert t == values[2..] by {
      assert forall x <- values[2..] :: x in values;
      AllEqualSequences(t, values[2..], c);
    }
    assert Sum(t) / |t| as real == c by {
      MeanWithin(t, c, c);
    }
    if IsCents(c) {
      TrimmedDropsOneMinAndOneMax(values);
      Round2OfCents(c);
    }
  }

  lemma AllEqualSequences(a: seq<real>, b: seq<real>, c: real)
    requires |a| == |b|
    requires forall x <- a :: x == c
    requires forall x <- b :: x == c
    ensures a == b
  {
    forall k | 0 <= k < |a| ensures a[k] == b[k] {
      assert a[k] in a && b[k] in b;
    }
  }

  /** The seeded grades of the first deliverable: dropping 8.5 and 9.5 leaves
      8.75, 9.0 and 9.25, which average to 9.00. */
  lemma SeededGradesAverage(v: seq<real>)
    requires v == [9.5, 8.75, 9.0, 8.5, 9.25]
    ensures CalculateAverageGrade(v) == Some(9.0)
  {
    var t := Trimmed(v);
    assert multiset(t) == multiset([8.75, 9.0, 9.25]) by {
      SeededExtremes(v);
      TrimmedDropsOneMinAndOneMax(v);
      SeededKept(t, v);
    }
    assert Sum(t) == 27.0 by {
      SumPermutation(t, [8.75, 9.0, 9.25]);
      SeededKeptSum();
    }
    SeededMean();
    TrimmedMeanOf(v, 3, 27.0, 9.0);
  }

  lemma SeededExtremes(v: seq<real>)
    requires v == [9.5, 8.75, 9.0, 8.5, 9.25]
    ensures MinOf(v) == 8.5 && MaxOf(v) == 9.5
  {
    assert v[3] == 8.5 && v[0] == 9.5;
    assert forall x <- v :: 8.5 <= x <= 9.5;
    assert v[3] in v && v[0] in v;
    assert MinOf(v) in v && MinOf(v) <= v[3];
    assert MaxOf(v) in v && MaxOf(v) >= v[0];
  }

  lemma SeededKept(t: seq<real>, v: seq<real>)
    requires v == [9.5, 8.75, 9.0, 8.5, 9.25]
    requires multiset(t) == multiset(v) - multiset{8.5} - multiset{9.5}
    ensures multiset(t) == multiset([8.75, 9.0, 9.25])
  {
  }

  lemma SeededMean()
    ensures 27.0 / 3 as real == 9.0 && IsCents(9.0)
  {
    CentsFromInt(900);
  }

  lemma SeededKeptSum()
    ensures Sum([8.75, 9.0, 9.25]) == 27.0
  {
  }

  lemma TrimmedMeanOf(v: seq<real>, n: nat, total: real, mean: real)
    requires |v| == n + 2 && n >= 1 && Sum(Trimmed(v)) == total
    requires total / n as real == mean && IsCents(mean)
    ensures CalculateAverageGrade(v) == Some(mean)
  {
    TrimmedDropsOneMinAndOneMax(v);
    Round2OfCents(mean);
  }

  /** Two grades 5 and 7 average to 6.00. */
  lemma TwoGradesAverage()
    ensures CalculateAverageGrade([5.0, 7.0]) == Some(6.0)
  {
    assert Sum([5.0, 7.0]) == 12.0;
    CentsFromInt(600);
    Round2OfCents(6.0);
  }
}
