/**
 * The font statistics of `extract_outline` (pdf_extractor.py:259-260): the mean and the maximum of
 * the sizes of all spans, with 12 for both when there are no sizes.
 */
module FontStats {

  /** Python's `sum`: a left fold from 0. */
  function Sum(xs: seq<real>): real {
    if xs == [] then 0.0 else Sum(xs[..|xs| - 1]) + xs[|xs| - 1]
  }

  /** Python's `max` over a non-empty list. */
  function MaxOf(xs: seq<real>): (m: real)
    requires xs != []
    ensures m in xs
    ensures forall x :: x in xs ==> x <= m
  {
    if |xs| == 1 then xs[0]
    else
      var init := xs[..|xs| - 1];
      var m' := MaxOf(init);
      assert forall x :: x in xs ==> x in init || x == xs[|xs| - 1];
      if xs[|xs| - 1] > m' then xs[|xs| - 1] else m'
  }

  datatype FontProfile = FontProfile(average: real, maximum: real)

  /** The fallback size used when no span was read. */
  const DefaultSize: real := 12.0

  function FontStatistics(sizes: seq<real>): (p: FontProfile)
    ensures sizes == [] ==> p == FontProfile(DefaultSize, DefaultSize)
    ensures sizes != [] ==> p.average * |sizes| as real == Sum(sizes)
    ensures sizes != [] ==> p.maximum in sizes && forall x :: x in sizes ==> x <= p.maximum
  {
    if sizes == [] then FontProfile(DefaultSize, DefaultSize)
    else FontProfile(Sum(sizes) / |sizes| as real, MaxOf(sizes))
  }

  /** A sum of `n` values each at most `m` is at most `n * m`, and one of values at least `m` at least `n * m`. */
  lemma {:induction false} SumBounds(xs: seq<real>, m: real)
    ensures (forall x :: x in xs ==> x <= m) ==> Sum(xs) <= |xs| as real * m
    ensures (forall x :: x in xs ==> m <= x) ==> |xs| as real * m <= Sum(xs)
  {
    if xs != [] {
      var init, last := xs[..|xs| - 1], xs[|xs| - 1];
      assert forall x :: x in init ==> x in xs;
      assert last in xs;
      SumBounds(init, m);
      assert Sum(xs) == Sum(init) + last;
      assert |xs| as real * m == |init| as real * m + m;
    }
  }

  /** The mean never exceeds the maximum. */
  lemma AverageAtMostMaximum(sizes: seq<real>)
    ensures FontStatistics(sizes).average <= FontStatistics(sizes).maximum
  {
    if sizes != [] {
      var p := FontStatistics(sizes);
      SumBounds(sizes, p.maximum);
      assert p.average * |sizes| as real <= |sizes| as real * p.maximum;
    }
  }

  /** With positive sizes the mean is positive, so the size ratio of the classifier is a true ratio. */
  lemma AveragePositive(sizes: seq<real>)
    requires forall x :: x in sizes ==> x > 0.0
    ensures FontStatistics(sizes).average > 0.0
  {
    if sizes != [] {
      SumPositive(sizes);
    }
  }

  lemma {:induction false} SumPositive(xs: seq<real>)
    requires xs != [] && forall x :: x in xs ==> x > 0.0
    ensures Sum(xs) > 0.0
  {
    var init := xs[..|xs| - 1];
    assert xs[|xs| - 1] in xs;
    if init != [] {
      assert forall x :: x in init ==> x in xs;
      SumPositive(init);
    }
  }
}
