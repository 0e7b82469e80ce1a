/**
 * `freq_to_cents`: the distance from a reference frequency to a measured one,
 * in cents (1200 to the octave). The base-2 logarithm is not computed here:
 * it is passed in as `lg`, and the lemmas assume only the laws `Log2Laws`
 * that every base-2 logarithm obeys on the positive reals.
 */
module Cents {

  /** The laws of log2 the lemmas rely on: log2(1) = 0, log2(2x) = log2(x) + 1, strictly increasing. */
  ghost predicate Log2Laws(lg: real -> real) {
    && lg(1.0) == 0.0
    && (forall x :: 0.0 < x ==> lg(2.0 * x) == lg(x) + 1.0)
    && (forall x, y :: 0.0 < x < y ==> lg(x) < lg(y))
  }

  /**
   * `1200 * log2(freq / reference_freq)`, defined for positive frequencies.
   * With a true log2, the sign of the offset says on which side of the
   * reference the frequency lies, and it is 0 exactly at the reference.
   */
  function FreqToCents(lg: real -> real, freq: real, reference: real): (c: real)
    requires freq > 0.0 && reference > 0.0
    ensures Log2Laws(lg) ==> (c < 0.0 <==> freq < reference)
    ensures Log2Laws(lg) ==> (c == 0.0 <==> freq == reference)
    ensures Log2Laws(lg) ==> (c > 0.0 <==> freq > reference)
  {
    var ratio := freq / reference;
    assert freq < reference ==> ratio < 1.0;
    assert freq > reference ==> ratio > 1.0;
    assert freq == reference ==> ratio == 1.0;
    1200.0 * lg(ratio)
  }

  /** The reference itself is at 0 cents. */
  lemma CentsOfReference(lg: real -> real, reference: real)
    requires Log2Laws(lg) && reference > 0.0
    ensures FreqToCents(lg, reference, reference) == 0.0
  {
    assert reference / reference == 1.0;
  }

  /** Doubling the frequency adds exactly one octave. */
  lemma CentsDoubling(lg: real -> real, freq: real, reference: real)
    requires Log2Laws(lg) && freq > 0.0 && reference > 0.0
    ensures FreqToCents(lg, 2.0 * freq, reference) == FreqToCents(lg, freq, reference) + 1200.0
  {
    var x := freq / reference;
    assert (2.0 * freq) / reference == 2.0 * x;
    assert lg(2.0 * x) == lg(x) + 1.0;
  }

  /** Twice the reference is at 1200 cents. */
  lemma CentsOfOctave(lg: real -> real, reference: real)
    requires Log2Laws(lg) && reference > 0.0
    ensures FreqToCents(lg, 2.0 * reference, reference) == 1200.0
  {
    CentsOfReference(lg, reference);
    CentsDoubling(lg, reference, reference);
  }

  /** Cents grow strictly with the measured frequency. */
  lemma CentsStrictlyIncreasing(lg: real -> real, f1: real, f2: real, reference: real)
    requires Log2Laws(lg) && 0.0 < f1 < f2 && reference > 0.0
    ensures FreqToCents(lg, f1, reference) < FreqToCents(lg, f2, reference)
  {
    assert f2 / reference - f1 / reference == (f2 - f1) / reference;
  }
}
