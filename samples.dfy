/**
  The arithmetic the photocell loop does on its sample buffer when it
  publishes: the sum and mean of the buffered readings, and the
  "delete the first half of the list" step that keeps the newest half.
 */
module Samples {

  /** Python's built-in `sum` over the buffered readings. */
  function Sum(s: seq<int>): int
  {
    if s == [] then 0 else s[0] + Sum(s[1..])
  }

  /** `total / N`, as an exact real (no floating-point rounding). */
  function Mean(s: seq<int>): real
    requires |s| > 0
  {
    Sum(s) as real / |s| as real
  }

  /** The smallest reading in a non-empty buffer. */
  function Min(s: seq<int>): (m: int)
    requires |s| > 0
    ensures m in s
    ensures forall i :: 0 <= i < |s| ==> m <= s[i]
  {
    if |s| == 1 then s[0]
    else
      var rest := Min(s[1..]);
      if s[0] <= rest then s[0] else rest
  }

  /** The largest reading in a non-empty buffer. */
  function Max(s: seq<int>): (m: int)
    requires |s| > 0
    ensures m in s
    ensures forall i :: 0 <= i < |s| ==> s[i] <= m
  {
    if |s| == 1 then s[0]
    else
      var rest := Max(s[1..]);
      if s[0] >= rest then s[0] else rest
  }

  /**
    `del samples[:int(N / 2)]`: the oldest floor(N/2) readings go, the
    newest ceil(N/2) stay, in their original order.  A one-reading buffer
    is left as it is, so a non-empty buffer stays non-empty.
   */
  function Truncate(s: seq<int>): (r: seq<int>)
    ensures |r| == (|s| + 1) / 2
    ensures forall i :: 0 <= i < |r| ==> r[i] == s[|s| - |r| + i]
    ensures |s| == 1 ==> r == s
    ensures s != [] ==> r != []
  {
    s[|s| / 2..]
  }

  /** A buffer whose readings all lie in [lo, hi] sums to between |s|*lo and |s|*hi. */
  lemma {:induction false} SumBounds(s: seq<int>, lo: int, hi: int)
    requires forall i :: 0 <= i < |s| ==> lo <= s[i] <= hi
    ensures |s| * lo <= Sum(s) <= |s| * hi
  {
    if s != [] {
      SumBounds(s[1..], lo, hi);
      assert |s| * lo == (|s| - 1) * lo + lo;
      assert |s| * hi == (|s| - 1) * hi + hi;
    }
  }

  /** Dividing a total that lies between n*lo and n*hi by n lands between lo and hi. */
  lemma QuotientBounds(total: int, n: int, lo: int, hi: int)
    requires n > 0 && n * lo <= total <= n * hi
    ensures lo as real <= total as real / n as real <= hi as real
  {
    var q := total as real / n as real;
    assert q * n as real == total as real;
    assert (n * lo) as real == n as real * lo as real;
    assert (n * hi) as real == n as real * hi as real;
  }

  /** The published mean never leaves the range of the buffered readings. */
  lemma MeanWithinRange(s: seq<int>)
    requires |s| > 0
    ensures Min(s) as real <= Mean(s) <= Max(s) as real
  {
    SumBounds(s, Min(s), Max(s));
    QuotientBounds(Sum(s), |s|, Min(s), Max(s));
  }

  /**
    Bounded growth: if the buffer held at most k readings after the last
    truncation and at most k were appended since, it holds at most k
    after the next truncation, because ceil((L + a) / 2) <= k.
   */
  lemma TruncateKeepsBound(kept: seq<int>, appended: seq<int>, k: nat)
    requires |kept| <= k && |appended| <= k
    ensures |Truncate(kept + appended)| <= k
  {
  }

  /** A four-reading buffer: it publishes 550 and keeps its two newest readings. */
  lemma WorkedExample()
    ensures Mean([400, 500, 600, 700]) == 550.0
    ensures Truncate([400, 500, 600, 700]) == [600, 700]
  {
    assert Sum([400, 500, 600, 700]) == 2200 by {
      assert [400, 500, 600, 700][1..] == [500, 600, 700];
      assert [500, 600, 700][1..] == [600, 700];
      assert [600, 700][1..] == [700];
      assert [700][1..] == [];
    }
  }
}
