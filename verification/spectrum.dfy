/** The frequency-domain part of `generateFractalSignal` and its overall
    shape.

    The first loop stores one coefficient in each of the bins 0 .. n/2-1
    (bin i holds the coefficient drawn for frequency i+1; its amplitude and
    random phase are inputs here). The second loop fills the upper bins
    n/2 .. n-1 in place by mirroring: bin i takes the real part of bin n-i
    and the negated imaginary part. Around the middle it reads bins that are
    still at their initial 0, so the middle bin ends up 0 (and, for odd n,
    the bin after it too).
 */
module Spectrum {
  import Normalization

  /** Real part the mirror loop leaves in bin `i` of an `n`-bin spectrum, as
      a closed formula over the first loop's coefficients. */
  function MirroredRe(n: nat, coeffRe: seq<real>, i: nat): real
    requires |coeffRe| == n / 2 && i < n
  {
    if i < n / 2 then coeffRe[i]
    else if n - i < n / 2 then coeffRe[n - i]
    else 0.0
  }

  /** Imaginary part the mirror loop leaves in bin `i`. */
  function MirroredIm(n: nat, coeffIm: seq<real>, i: nat): real
    requires |coeffIm| == n / 2 && i < n
  {
    if i < n / 2 then coeffIm[i]
    else if n - i < n / 2 then -coeffIm[n - i]
    else 0.0
  }

  /** Conjugate symmetry of an n-bin spectrum: bin k is the complex
      conjugate of bin n-k for every k in 1 .. n-1. */
  predicate ConjugateSymmetric(reals: seq<real>, imags: seq<real>)
    requires |reals| == |imags|
  {
    forall k :: 1 <= k < |reals| ==> reals[k] == reals[|reals| - k] && imags[k] == -imags[|imags| - k]
  }

  /** Both loops of the generator that build the spectrum. The arrays are
      allocated zero-filled, as the source allocates them. A length of 1 is
      excluded because the mirror loop would then read bin 1 of a one-bin
      array. */
  method SpectrumBins(n: nat, coeffRe: seq<real>, coeffIm: seq<real>) returns (reals: seq<real>, imags: seq<real>)
    requires n != 1
    requires |coeffRe| == n / 2 && |coeffIm| == n / 2
    ensures |reals| == n && |imags| == n
    // the lower bins keep exactly what the first loop stored
    ensures forall i :: 0 <= i < n / 2 ==> reals[i] == coeffRe[i] && imags[i] == coeffIm[i]
    // every bin agrees with the closed mirror formula
    ensures forall i :: 0 <= i < n ==> reals[i] == MirroredRe(n, coeffRe, i) && imags[i] == MirroredIm(n, coeffIm, i)
    // the spectrum is conjugate-symmetric
    ensures ConjugateSymmetric(reals, imags)
    // the middle bin is zero, and for odd n the bin after it as well
    ensures n > 0 ==> reals[n / 2] == 0.0 && imags[n / 2] == 0.0
    ensures n % 2 == 1 ==> reals[n / 2 + 1] == 0.0 && imags[n / 2 + 1] == 0.0
  {
    var re := new real[n](_ => 0.0);
    var im := new real[n](_ => 0.0);
    var i := 0;
    while i < n / 2
      invariant 0 <= i <= n / 2
      invariant forall j :: 0 <= j < i ==> re[j] == coeffRe[j] && im[j] == coeffIm[j]
      invariant forall j :: i <= j < n ==> re[j] == 0.0 && im[j] == 0.0
    {
      re[i] := coeffRe[i];
      im[i] := coeffIm[i];
      i := i + 1;
    }
    i := n / 2;
    while i < n
      invariant n / 2 <= i <= n
      invariant forall j :: 0 <= j < i ==> re[j] == MirroredRe(n, coeffRe, j) && im[j] == MirroredIm(n, coeffIm, j)
      invariant forall j :: i <= j < n ==> re[j] == 0.0 && im[j] == 0.0
    {
      re[i] := re[n - i];
      im[i] := -im[n - i];
      i := i + 1;
    }
    reals := re[..];
    imags := im[..];
    MirrorIsConjugateSymmetric(n, coeffRe, coeffIm);
  }

  /** The closed mirror formula describes a conjugate-symmetric spectrum
      whose middle bin (and, for odd n, the bin after it) is zero. */
  lemma MirrorIsConjugateSymmetric(n: nat, coeffRe: seq<real>, coeffIm: seq<real>)
    requires |coeffRe| == n / 2 && |coeffIm| == n / 2
    ensures forall k :: 1 <= k < n ==>
      MirroredRe(n, coeffRe, k) == MirroredRe(n, coeffRe, n - k) &&
      MirroredIm(n, coeffIm, k) == -MirroredIm(n, coeffIm, n - k)
    ensures n > 0 ==> MirroredRe(n, coeffRe, n / 2) == 0.0 && MirroredIm(n, coeffIm, n / 2) == 0.0
    ensures n % 2 == 1 && n > 1 ==> MirroredRe(n, coeffRe, n / 2 + 1) == 0.0 && MirroredIm(n, coeffIm, n / 2 + 1) == 0.0
  {
  }

  /** The overall shape of `generateFractalSignal`: the spectrum bins built
      from the first loop's coefficients, and the normalized time-domain
      series. The inverse transform itself is not modelled: `timeDomain` is
      the series it produced from these bins. */
  method GenerateFractalSignal(length: nat, coeffRe: seq<real>, coeffIm: seq<real>, timeDomain: seq<real>)
    returns (reals: seq<real>, imags: seq<real>, signal: seq<real>)
    requires length != 1
    requires |coeffRe| == length / 2 && |coeffIm| == length / 2
    requires |timeDomain| == length
    requires Normalization.Normalizable(timeDomain)
    ensures |reals| == length && |imags| == length && |signal| == length
    ensures ConjugateSymmetric(reals, imags)
    ensures forall i :: 0 <= i < length / 2 ==> reals[i] == coeffRe[i] && imags[i] == coeffIm[i]
    // every bin, the zero middle bin(s) included, is the one the mirror loop leaves
    ensures forall i :: 0 <= i < length ==>
      reals[i] == MirroredRe(length, coeffRe, i) && imags[i] == MirroredIm(length, coeffIm, i)
    ensures length > 0 ==> reals[length / 2] == 0.0 && imags[length / 2] == 0.0
    ensures length % 2 == 1 ==> reals[length / 2 + 1] == 0.0 && imags[length / 2 + 1] == 0.0
    // the signal is exactly the min-max normalization of the time-domain series
    ensures signal == Normalization.Normalize(timeDomain)
    ensures forall t :: 0 <= t < length ==> 0.0 <= signal[t] <= 1.0
    ensures length > 0 ==> 0.0 in signal && 1.0 in signal
    ensures forall a, b :: 0 <= a < length && 0 <= b < length ==>
      (timeDomain[a] <= timeDomain[b] <==> signal[a] <= signal[b])
  {
    reals, imags := SpectrumBins(length, coeffRe, coeffIm);
    signal := Normalization.Normalize(timeDomain);
    if length > 0 {
      Normalization.NormalizeAttainsBounds(timeDomain);
    }
    forall a, b | 0 <= a < length && 0 <= b < length
      ensures timeDomain[a] <= timeDomain[b] <==> signal[a] <= signal[b]
    {
      Normalization.NormalizePreservesOrder(timeDomain, a, b);
    }
  }
}
