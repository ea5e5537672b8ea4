/**
 * The discrete distribution (`distribution.rs`): a cumulative table over a
 * list of items, sampled by binary search and queried by linear scan.
 */
module Distributions {
  import opened Wrappers

  /** The un-normalised cumulative weights `[0, w0, w0 + w1, ...]`. */
  function Cumulative<T>(data: seq<T>, w: T -> real): (c: seq<real>)
    ensures |c| == |data| + 1 && c[0] == 0.0
    ensures forall i :: 0 <= i < |data| ==> c[i + 1] == c[i] + w(data[i])
  {
    if |data| == 0 then [0.0]
    else
      var init := Cumulative(data[..|data| - 1], w);
      init + [init[|data| - 1] + w(data[|data| - 1])]
  }

  /** The sum of all weights, the last cumulative entry. */
  function Total<T>(data: seq<T>, w: T -> real): real {
    Cumulative(data, w)[|data|]
  }

  /** Every entry multiplied by `inv`. */
  function Scaled(c: seq<real>, inv: real): (r: seq<real>)
    ensures |r| == |c| && forall i :: 0 <= i < |c| ==> r[i] == c[i] * inv
  {
    seq(|c|, i requires 0 <= i < |c| => c[i] * inv)
  }

  /** The normalised table the constructor stores. */
  function Normalised<T>(data: seq<T>, w: T -> real): seq<real>
    requires Total(data, w) != 0.0
  {
    Scaled(Cumulative(data, w), 1.0 / Total(data, w))
  }

  predicate Sorted(s: seq<real>) {
    forall i, j :: 0 <= i <= j < |s| ==> s[i] <= s[j]
  }

  predicate NonNegative<T>(data: seq<T>, w: T -> real) {
    forall i :: 0 <= i < |data| ==> w(data[i]) >= 0.0
  }

  /** With non-negative weights the cumulative table never decreases. */
  lemma CumulativeSorted<T>(data: seq<T>, w: T -> real)
    requires NonNegative(data, w)
    ensures Sorted(Cumulative(data, w))
  {
    var c := Cumulative(data, w);
    forall i, j | 0 <= i <= j < |c| ensures c[i] <= c[j] {
      CumulativeStep(data, w, i, j);
    }
  }

  lemma {:induction false} CumulativeStep<T>(data: seq<T>, w: T -> real, i: nat, j: nat)
    requires NonNegative(data, w) && i <= j <= |data|
    ensures Cumulative(data, w)[i] <= Cumulative(data, w)[j]
    decreases j - i
  {
    if i < j {
      CumulativeStep(data, w, i, j - 1);
    }
  }

  /** Scaling by a positive factor keeps a table sorted. */
  lemma ScaledSorted(c: seq<real>, inv: real)
    requires Sorted(c) && inv > 0.0
    ensures Sorted(Scaled(c, inv))
  {
    var n := Scaled(c, inv);
    forall i, j | 0 <= i <= j < |n| ensures n[i] <= n[j] {
      assert n[j] - n[i] == (c[j] - c[i]) * inv;
    }
  }

  /**
   * Normalising by a positive total keeps the table sorted, starts it at 0
   * and ends it at exactly 1.
   */
  lemma NormalisedShape<T>(data: seq<T>, w: T -> real)
    requires NonNegative(data, w) && Total(data, w) > 0.0
    ensures var n := Normalised(data, w);
      && |n| == |data| + 1 && n[0] == 0.0 && n[|data|] == 1.0
      && Sorted(n)
  {
    var t := Total(data, w);
    CumulativeSorted(data, w);
    var c, n := Cumulative(data, w), Normalised(data, w);
    ScaledSorted(c, 1.0 / t);
    MulRecip(t, t);
  }

  lemma MulRecip(x: real, t: real)
    requires t != 0.0
    ensures x * (1.0 / t) == x / t
  {
  }

  /** The width of bucket `i` of the normalised table is item `i`'s weight over the total. */
  lemma BucketWidth<T>(data: seq<T>, w: T -> real, i: nat)
    requires i < |data| && Total(data, w) != 0.0
    ensures Normalised(data, w)[i + 1] - Normalised(data, w)[i] == w(data[i]) / Total(data, w)
  {
    var c := Cumulative(data, w);
    ScaledStep(c, Total(data, w), i);
    assert c[i + 1] - c[i] == w(data[i]);
  }

  /** Consecutive entries of a table scaled by `1/t` differ by the unscaled difference over `t`. */
  lemma ScaledStep(c: seq<real>, t: real, i: nat)
    requires t != 0.0 && i + 1 < |c|
    ensures Scaled(c, 1.0 / t)[i + 1] - Scaled(c, 1.0 / t)[i] == (c[i + 1] - c[i]) / t
  {
    var k := 1.0 / t;
    assert Scaled(c, k)[i + 1] - Scaled(c, k)[i] == c[i + 1] * k - c[i] * k;
    assert c[i + 1] * k - c[i] * k == (c[i + 1] - c[i]) * k;
    MulRecip(c[i + 1] - c[i], t);
  }

  /** The sum of the widths of consecutive buckets. */
  function SumOfWidths(c: seq<real>): real {
    if |c| <= 1 then 0.0 else SumOfWidths(c[..|c| - 1]) + (c[|c| - 1] - c[|c| - 2])
  }

  /** Bucket widths telescope to the last entry minus the first. */
  lemma {:induction false} Telescope(c: seq<real>)
    requires |c| >= 1
    ensures SumOfWidths(c) == c[|c| - 1] - c[0]
  {
    if |c| > 1 {
      Telescope(c[..|c| - 1]);
    }
  }

  /** The widths of a normalised table add up to 1. */
  lemma WidthsSumToOne<T>(data: seq<T>, w: T -> real)
    requires Total(data, w) != 0.0
    ensures SumOfWidths(Normalised(data, w)) == 1.0
  {
    var n := Normalised(data, w);
    Telescope(n);
    assert n[|n| - 1] == Total(data, w) * (1.0 / Total(data, w));
  }

  /** A result of Rust's `binary_search_by`: `Ok(i)` (an equal entry) or `Err(i)` (insertion point). */
  datatype SearchResult = Found(i: nat) | NotFound(i: nat) {
    function Index(): nat {
      match this
      case Found(i) => i
      case NotFound(i) => i
    }
  }

  /** The contract of `binary_search_by` on a sorted slice. */
  predicate SearchContract(s: seq<real>, x: real, r: SearchResult) {
    match r
    case Found(i) => i < |s| && s[i] == x
    case NotFound(i) =>
      i <= |s| && (forall j :: 0 <= j < i ==> s[j] < x) && (forall j :: i <= j < |s| ==> x < s[j])
  }

  /** `slice::binary_search_by` with the comparator `partial_cmp`. */
  method BinarySearchBy(s: seq<real>, x: real) returns (r: SearchResult)
    requires Sorted(s)
    ensures SearchContract(s, x, r)
  {
    var lo, hi := 0, |s|;
    while lo < hi
      invariant 0 <= lo <= hi <= |s|
      invariant forall j :: 0 <= j < lo ==> s[j] < x
      invariant forall j :: hi <= j < |s| ==> x < s[j]
    {
      var mid := (lo + hi) / 2;
      if s[mid] < x {
        lo := mid + 1;
      } else if x < s[mid] {
        hi := mid;
      } else {
        return Found(mid);
      }
    }
    return NotFound(lo);
  }

  /** The first index of `x` in `data`, as `Iterator::position` finds it. */
  function Position<T(==)>(data: seq<T>, x: T): (r: Option<nat>)
    ensures r.Some? <==> x in data
    ensures r.Some? ==> r.value < |data| && data[r.value] == x && forall j :: 0 <= j < r.value ==> data[j] != x
  {
    if |data| == 0 then None
    else if data[0] == x then Some(0)
    else match Position(data[1..], x) {
      case None => None
      case Some(k) => Some(k + 1)
    }
  }

  /** The first loop of `Distribution::new`: push `w + last` for every item. */
  method PrefixSums<T>(data: seq<T>, weight: T -> real) returns (c: seq<real>)
    ensures c == Cumulative(data, weight)
  {
    c := [0.0];
    for i := 0 to |data|
      invariant c == Cumulative(data[..i], weight)
    {
      assert data[..i + 1][..i] == data[..i];
      c := c + [weight(data[i]) + c[|c| - 1]];
    }
    assert data[..|data|] == data;
  }

  /** The second loop of `Distribution::new`: multiply every entry by `inv` in place. */
  method ScaleAll(c0: seq<real>, inv: real) returns (c: seq<real>)
    ensures c == Scaled(c0, inv)
  {
    c := c0;
    var j := 0;
    while j < |c|
      invariant 0 <= j <= |c| == |c0|
      invariant forall k :: 0 <= k < j ==> c[k] == c0[k] * inv
      invariant forall k :: j <= k < |c| ==> c[k] == c0[k]
    {
      c := c[j := c[j] * inv];
      j := j + 1;
    }
  }

  class Distribution<T(==)> {
    var data: seq<T>
    var cdf: seq<real>

    ghost predicate Valid()
      reads this
    {
      |cdf| == |data| + 1
    }

    /**
     * `Distribution::new`: a prefix-sum table pushed entry by entry, then scaled
     * in place by the inverse of its last entry. A zero total would divide by
     * zero, so it is excluded.
     */
    constructor (data: seq<T>, weight: T -> real)
      requires Total(data, weight) != 0.0
      ensures Valid() && this.data == data
      ensures cdf == Normalised(data, weight)
    {
      var c := PrefixSums(data, weight);
      c := ScaleAll(c, 1.0 / c[|c| - 1]);
      this.data := data;
      this.cdf := c;
    }

    /**
     * `sample`: the item of the bucket `[cdf[k], cdf[k+1]]` holding `u`, with the
     * bucket width as its probability. An entry equal to `u` selects the bucket
     * that ends there. `u = cdf[0]` would make the index underflow and
     * `u > cdf[last]` would read past the table, so both are excluded.
     */
    method Sample(u: real) returns (item: T, pdf: real)
      requires Valid() && Sorted(cdf)
      requires cdf[0] < u <= cdf[|cdf| - 1]
      ensures exists k :: 0 <= k < |data| && item == data[k] && pdf == cdf[k + 1] - cdf[k]
                && cdf[k] <= u <= cdf[k + 1]
                && (u == cdf[k + 1] || cdf[k] < u < cdf[k + 1])
    {
      var r := BinarySearchBy(cdf, u);
      var i := r.Index();
      assert i >= 1 && i < |cdf|;
      var idx := i - 1;
      pdf := cdf[idx + 1] - cdf[idx];
      var clamped := if idx <= |cdf| - 2 then idx else |cdf| - 2;
      assert clamped == idx;
      item := data[clamped];
    }

    /** `pdf`: the bucket width of the first item equal to `x`, or 0 when there is none. */
    function Pdf(x: T): (p: real)
      reads this
      requires Valid()
      ensures x !in data ==> p == 0.0
      ensures x in data ==> exists i :: 0 <= i < |data| && data[i] == x && (forall j :: 0 <= j < i ==> data[j] != x)
                              && p == cdf[i + 1] - cdf[i]
    {
      match Position(data, x) {
        case Some(idx) => cdf[idx + 1] - cdf[idx]
        case None => 0.0
      }
    }
  }
}
