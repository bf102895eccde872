/** Min-max normalization of the time-domain series, the last step of
    `generateFractalSignal`: every sample x becomes (x - min) / (max - min).
 */
module Normalization {

  /** The smallest element of a non-empty sequence, as `min()` returns it. */
  function Min(s: seq<real>): (m: real)
    requires |s| > 0
    ensures m in s
    ensures forall i :: 0 <= i < |s| ==> m <= s[i]
  {
    if |s| == 1 then s[0]
    else
      var rest := Min(s[1..]);
      assert forall i :: 1 <= i < |s| ==> s[i] == s[1..][i - 1];
      if s[0] <= rest then s[0] else rest
  }

  /** The largest element of a non-empty sequence, as `max()` returns it. */
  function Max(s: seq<real>): (m: real)
    requires |s| > 0
    ensures m in s
    ensures forall i :: 0 <= i < |s| ==> s[i] <= m
  {
    if |s| == 1 then s[0]
    else
      var rest := Max(s[1..]);
      assert forall i :: 1 <= i < |s| ==> s[i] == s[1..][i - 1];
      if rest <= s[0] then s[0] else rest
  }

  /** `min() ?? 0`: the minimum, or 0 for an empty series. */
  function MinOr(s: seq<real>, fallback: real): (m: real)
    ensures |s| == 0 ==> m == fallback
    ensures |s| > 0 ==> m in s && forall i :: 0 <= i < |s| ==> m <= s[i]
  {
    if |s| == 0 then fallback else Min(s)
  }

  /** `max() ?? 1`: the maximum, or 1 for an empty series. */
  function MaxOr(s: seq<real>, fallback: real): (m: real)
    ensures |s| == 0 ==> m == fallback
    ensures |s| > 0 ==> m in s && forall i :: 0 <= i < |s| ==> s[i] <= m
  {
    if |s| == 0 then fallback else Max(s)
  }

  /** A series that min-max normalization accepts: the source divides by
      max - min without a guard, so a constant non-empty series is excluded. */
  predicate Normalizable(s: seq<real>) {
    |s| == 0 || Min(s) < Max(s)
  }

  /** The normalized series. */
  function Normalize(s: seq<real>): (r: seq<real>)
    requires Normalizable(s)
    ensures |r| == |s|
    // every value lands in [0, 1]
    ensures forall i :: 0 <= i < |s| ==> 0.0 <= r[i] <= 1.0
    // the minimum maps to exactly 0 and the maximum to exactly 1, and only they do
    ensures forall i :: 0 <= i < |s| ==> (r[i] == 0.0 <==> s[i] == Min(s))
    ensures forall i :: 0 <= i < |s| ==> (r[i] == 1.0 <==> s[i] == Max(s))
  {
    var lo := MinOr(s, 0.0);
    var hi := MaxOr(s, 1.0);
    var r := seq(|s|, i requires 0 <= i < |s| => (s[i] - lo) / (hi - lo));
    assert forall i :: 0 <= i < |s| ==> 0.0 <= r[i] <= 1.0 && (r[i] == 0.0 <==> s[i] == lo) && (r[i] == 1.0 <==> s[i] == hi) by {
      forall i | 0 <= i < |s|
        ensures 0.0 <= r[i] <= 1.0 && (r[i] == 0.0 <==> s[i] == lo) && (r[i] == 1.0 <==> s[i] == hi)
      {
        UnitScale(s[i], lo, hi);
      }
    }
    r
  }

  /** A value between lo and hi, rescaled onto [0, 1]: lo and only lo goes
      to 0, hi and only hi goes to 1. */
  lemma UnitScale(x: real, lo: real, hi: real)
    requires lo <= x <= hi && lo < hi
    ensures 0.0 <= (x - lo) / (hi - lo) <= 1.0
    ensures (x - lo) / (hi - lo) == 0.0 <==> x == lo
    ensures (x - lo) / (hi - lo) == 1.0 <==> x == hi
  {
    var d := hi - lo;
    var q := (x - lo) / d;
    assert q * d == x - lo;
  }

  /** Dividing by a positive number preserves the order of two reals. */
  lemma DivMonotone(a: real, b: real, d: real)
    requires d > 0.0
    ensures a <= b <==> a / d <= b / d
  {
    assert a / d * d == a;
    assert b / d * d == b;
    if a / d <= b / d {
      assert (b / d - a / d) * d >= 0.0;
    }
  }

  /** Normalization preserves order in both directions: one sample is at most
      another exactly when its normalized value is. */
  lemma NormalizePreservesOrder(s: seq<real>, a: nat, b: nat)
    requires Normalizable(s)
    requires a < |s| && b < |s|
    ensures s[a] <= s[b] <==> Normalize(s)[a] <= Normalize(s)[b]
  {
    DivMonotone(s[a] - Min(s), s[b] - Min(s), Max(s) - Min(s));
  }

  /** Normalization is injective on values: equal samples and only equal
      samples have equal normalized values. */
  lemma NormalizePreservesEquality(s: seq<real>, a: nat, b: nat)
    requires Normalizable(s)
    requires a < |s| && b < |s|
    ensures s[a] == s[b] <==> Normalize(s)[a] == Normalize(s)[b]
  {
    NormalizePreservesOrder(s, a, b);
    NormalizePreservesOrder(s, b, a);
  }

  /** A non-empty normalized series attains both 0 and 1. */
  lemma NormalizeAttainsBounds(s: seq<real>)
    requires Normalizable(s) && |s| > 0
    ensures 0.0 in Normalize(s) && 1.0 in Normalize(s)
  {
    var m :| 0 <= m < |s| && s[m] == Min(s);
    var x :| 0 <= x < |s| && s[x] == Max(s);
    assert Normalize(s)[m] == 0.0;
    assert Normalize(s)[x] == 1.0;
  }

  /** Normalizing an already-normalized series changes nothing. */
  lemma NormalizeIdempotent(s: seq<real>)
    requires Normalizable(s)
    ensures Normalizable(Normalize(s))
    ensures Normalize(Normalize(s)) == Normalize(s)
  {
    var r := Normalize(s);
    if |s| > 0 {
      NormalizeAttainsBounds(s);
      var m :| 0 <= m < |r| && r[m] == 0.0;
      var x :| 0 <= x < |r| && r[x] == 1.0;
      assert Min(r) <= r[m] && Min(r) in r;
      assert Max(r) >= r[x] && Max(r) in r;
      assert Min(r) == 0.0 && Max(r) == 1.0;
      assert Normalize(r) == r;
    }
  }
}
