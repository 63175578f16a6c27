/**
 * Dwell-time arithmetic shared by both aggregations: pandas' `.round()`
 * (round half to even) on minute totals, the sample-count estimator of
 * DataProcessor.py:140-141 and 194, and the `pd.cut` categories of
 * lines 147-149 and 200-202.
 */
module Dwell {
  import opened Wrappers

  /** The sampling interval, in seconds, behind the per-area estimator (`.multiply(30)`). */
  const SampleSeconds := 30

  /** `round(num / den)` with ties to the even neighbour, as pandas rounds. */
  function RoundHalfEven(num: int, den: int): (r: int)
    requires den > 0
    ensures den * (2 * r - 1) <= 2 * num <= den * (2 * r + 1)
    ensures 2 * num == den * (2 * r - 1) || 2 * num == den * (2 * r + 1) ==> r % 2 == 0
  {
    var q, rem := num / den, num % den;
    assert num == den * q + rem;
    Distribute(den, q);
    if 2 * rem < den then q
    else if 2 * rem > den then q + 1
    else if q % 2 == 0 then q
    else q + 1
  }

  /** The bounds of RoundHalfEven for the candidates q and q+1, written around the product den * q. */
  lemma Distribute(den: int, q: int)
    ensures den * (2 * q - 1) == 2 * (den * q) - den
    ensures den * (2 * q + 1) == 2 * (den * q) + den
    ensures den * (2 * (q + 1) - 1) == 2 * (den * q) + den
    ensures den * (2 * (q + 1) + 1) == 2 * (den * q) + 3 * den
  {
  }

  /** Any integer within half a unit of num/den, even on a tie, is the rounded value. */
  lemma {:induction false} RoundHalfEvenUnique(num: int, den: int, r: int)
    requires den > 0
    requires den * (2 * r - 1) <= 2 * num <= den * (2 * r + 1)
    requires 2 * num == den * (2 * r - 1) || 2 * num == den * (2 * r + 1) ==> r % 2 == 0
    ensures r == RoundHalfEven(num, den)
  {
    var s := RoundHalfEven(num, den);
    if r < s {
      Tied(num, den, r, s);
    } else if r > s {
      Tied(num, den, s, r);
    }
  }

  /** Two candidates a < b within half a unit of num/den are neighbours at a tie. */
  lemma Tied(num: int, den: int, a: int, b: int)
    requires den > 0 && a < b
    requires 2 * num <= den * (2 * a + 1)
    requires den * (2 * b - 1) <= 2 * num
    ensures b == a + 1 && 2 * num == den * (2 * a + 1) && 2 * num == den * (2 * b - 1)
  {
    if a + 1 < b {
      MulStrict(den, 2 * a + 1, 2 * b - 1);
    }
  }

  lemma MulStrict(den: int, x: int, y: int)
    requires den > 0 && x < y
    ensures den * x < den * y
  {
    assert den * y - den * x == den * (y - x);
  }

  /** The total of `count` inside samples: `round(count * 30 / 60)`. */
  function SampleMinutes(count: nat): (m: nat)
    ensures m == RoundHalfEven(count, 2)
  {
    var r := RoundHalfEven(count * SampleSeconds, 60);
    RoundHalfEvenUnique(count, 2, r);
    r
  }

  /** A total of one, three and five samples gives 0, 2 and 2 minutes. */
  lemma SampleMinutesTies()
    ensures SampleMinutes(1) == 0 && SampleMinutes(3) == 2 && SampleMinutes(5) == 2
    ensures SampleMinutes(2) == 1 && SampleMinutes(4) == 2 && SampleMinutes(7) == 4
  {
  }

  /** The main total: `round((last - first) / 60)`, from the elapsed seconds. */
  function ElapsedMinutes(first: int, last: int): (m: int)
    requires first <= last
    ensures m >= 0
    ensures 60 * (2 * m - 1) <= 2 * (last - first) <= 60 * (2 * m + 1)
  {
    RoundHalfEven(last - first, 60)
  }

  /** The seven dwell categories of `pd.cut`. */
  datatype Category = JustSeen | From1To9 | From10To19 | From20To29 | From30To39 | From40To49 | From50

  /** The bin edges `[0, 1, 10, 20, 30, 40, 50, inf)` without the infinite one. */
  const Edges: seq<int> := [0, 1, 10, 20, 30, 40, 50]

  /** The position of a category among the labels. */
  function Index(c: Category): (k: nat)
    ensures k < |Edges|
  {
    match c
    case JustSeen => 0
    case From1To9 => 1
    case From10To19 => 2
    case From20To29 => 3
    case From30To39 => 4
    case From40To49 => 5
    case From50 => 6
  }

  /** The label strings of line 148. */
  function Name(c: Category): string
  {
    ["Just Seen", "1-9", "10-19", "20-29", "30-39", "40-49", "50+"][Index(c)]
  }

  /**
   * `pd.cut(total, bins, labels, right=False)`: the category whose half-open
   * interval `[Edges[k], Edges[k+1])` holds the total; a null total, or one below
   * the first edge, has no category.
   */
  function Bin(total: Option<int>): (r: Option<Category>)
    ensures r.None? <==> total.None? || total.value < 0
    ensures r.Some? ==> Edges[Index(r.value)] <= total.value
    ensures r.Some? && Index(r.value) + 1 < |Edges| ==> total.value < Edges[Index(r.value) + 1]
  {
    match total
    case None => None
    case Some(t) =>
      if t < 0 then None
      else if t < 1 then Some(JustSeen)
      else if t < 10 then Some(From1To9)
      else if t < 20 then Some(From10To19)
      else if t < 30 then Some(From20To29)
      else if t < 40 then Some(From30To39)
      else if t < 50 then Some(From40To49)
      else Some(From50)
  }

  /** The intervals partition the non-negative totals: Bin picks the only category whose interval holds t. */
  lemma BinIsTheHoldingInterval(t: int, c: Category)
    requires Edges[Index(c)] <= t
    requires Index(c) + 1 < |Edges| ==> t < Edges[Index(c) + 1]
    ensures Bin(Some(t)) == Some(c)
  {
  }

  /** A longer dwell never falls into an earlier category. */
  lemma BinMonotone(s: int, t: int)
    requires 0 <= s <= t
    ensures Index(Bin(Some(s)).value) <= Index(Bin(Some(t)).value)
  {
  }

  /** Totals at and beside the bin edges: 0 is "Just Seen", 1 and 9 are "1-9", 10 is "10-19", 49 is "40-49", 50 and 51 are "50+". */
  lemma BinBoundaries()
    ensures Name(Bin(Some(0)).value) == "Just Seen"
    ensures Name(Bin(Some(1)).value) == "1-9" && Name(Bin(Some(9)).value) == "1-9"
    ensures Name(Bin(Some(10)).value) == "10-19" && Name(Bin(Some(49)).value) == "40-49"
    ensures Name(Bin(Some(50)).value) == "50+" && Name(Bin(Some(51)).value) == "50+"
  {
  }
}
