/**
 * The accuracy metric of the BB84 demo application: two strings are compared
 * character by character, and the share of positions that agree is reported as
 * a percentage of the first string's length. The application calls it twice
 * (app.py:34 and app.py:66). On the encrypt page it compares the submitted
 * message with the result of ciphering and then deciphering it with the sifted
 * key. On the decrypt page it compares the submitted text with one decipherment
 * of that text, with no round trip.
 *
 * The Python code pairs the two strings with `zip` (which stops at the end of
 * the shorter one), sums the booleans `o == d`, divides by `len(original)` and
 * multiplies by 100, answering 0 for an empty original. The percentage is
 * modelled here as an exact real, before the final rounding to two decimals.
 */
module Accuracy {

  function Min(a: nat, b: nat): nat {
    if a <= b then a else b
  }

  /** Python's `zip` on two strings: one pair per position, up to the end of the shorter string. */
  function Zip(xs: string, ys: string): (ps: seq<(char, char)>)
    ensures |ps| == Min(|xs|, |ys|)
    ensures forall i :: 0 <= i < |ps| ==> ps[i] == (xs[i], ys[i])
  {
    if xs == [] || ys == [] then []
    else [(xs[0], ys[0])] + Zip(xs[1..], ys[1..])
  }

  /** True when both characters of a pair are the same (the generator's `o == d`). */
  predicate Agrees(p: (char, char)) {
    p.0 == p.1
  }

  /**
   * `sum(o == d for o, d in ps)`: Python's `sum` is a left fold, so the count of a
   * sequence is the count of all but its last pair, plus one if the last pair agrees.
   */
  function CountAgreeing(ps: seq<(char, char)>): (n: nat)
    ensures n <= |ps|
  {
    if ps == [] then 0
    else CountAgreeing(ps[..|ps| - 1]) + (if Agrees(ps[|ps| - 1]) then 1 else 0)
  }

  /** The `matches` of `calculate_accuracy`: agreeing positions among those `zip` pairs up. */
  function Matches(original: string, decrypted: string): (n: nat)
    ensures n <= |original| && n <= |decrypted|
  {
    CountAgreeing(Zip(original, decrypted))
  }

  /**
   * The percentage returned by `calculate_accuracy`, before rounding: `matches`
   * over the ORIGINAL's length, times 100, and 0 when the original is empty
   * (so no division by zero happens).
   */
  function CalculateAccuracy(original: string, decrypted: string): (r: real)
    ensures 0.0 <= r <= 100.0
    ensures original == [] ==> r == 0.0
    ensures decrypted == [] ==> r == 0.0
  {
    if original == [] then 0.0
    else
      var m := Matches(original, decrypted);
      PercentBounded(m, |original|);
      (m as real / |original| as real) * 100.0
  }

  lemma PercentBounded(m: nat, n: nat)
    requires 0 < n && m <= n
    ensures 0.0 <= (m as real / n as real) * 100.0 <= 100.0
  {
  }

  // ---------------------------------------------------------------------------
  // An independent description of the count: the set of compared positions
  // where the two strings hold the same character.
  // ---------------------------------------------------------------------------

  ghost function AgreeingIndices(ps: seq<(char, char)>): set<nat> {
    set i: nat | i < |ps| && Agrees(ps[i])
  }

  ghost function MatchPositions(original: string, decrypted: string): set<nat> {
    set i: nat | i < |original| && i < |decrypted| && original[i] == decrypted[i]
  }

  lemma {:induction false} CountAgreeingIsCardinality(ps: seq<(char, char)>)
    ensures CountAgreeing(ps) == |AgreeingIndices(ps)|
  {
    if ps != [] {
      var n := |ps| - 1;
      var init := ps[..n];
      CountAgreeingIsCardinality(init);
      assert n !in AgreeingIndices(init);
      if Agrees(ps[n]) {
        assert AgreeingIndices(ps) == AgreeingIndices(init) + {n};
      } else {
        assert AgreeingIndices(ps) == AgreeingIndices(init);
      }
    }
  }

  /** `matches` is exactly the number of positions below min(|original|, |decrypted|) holding equal characters. */
  lemma MatchesCountsMatchPositions(original: string, decrypted: string)
    ensures Matches(original, decrypted) == |MatchPositions(original, decrypted)|
  {
    var ps := Zip(original, decrypted);
    CountAgreeingIsCardinality(ps);
    assert AgreeingIndices(ps) == MatchPositions(original, decrypted);
  }

  // ---------------------------------------------------------------------------
  // The extreme counts.
  // ---------------------------------------------------------------------------

  lemma {:induction false} CountAgreeingAll(ps: seq<(char, char)>)
    ensures CountAgreeing(ps) == |ps| <==> forall i :: 0 <= i < |ps| ==> Agrees(ps[i])
  {
    if ps != [] {
      var n := |ps| - 1;
      CountAgreeingAll(ps[..n]);
      assert forall i :: 0 <= i < n ==> ps[..n][i] == ps[i];
    }
  }

  lemma {:induction false} CountAgreeingNone(ps: seq<(char, char)>)
    ensures CountAgreeing(ps) == 0 <==> forall i :: 0 <= i < |ps| ==> !Agrees(ps[i])
  {
    if ps != [] {
      var n := |ps| - 1;
      CountAgreeingNone(ps[..n]);
      assert forall i :: 0 <= i < n ==> ps[..n][i] == ps[i];
    }
  }

  /** Every compared position matches exactly when `matches` reaches the shorter length. */
  lemma MatchesAll(original: string, decrypted: string)
    ensures Matches(original, decrypted) == Min(|original|, |decrypted|)
      <==> forall i :: 0 <= i < |original| && i < |decrypted| ==> original[i] == decrypted[i]
  {
    CountAgreeingAll(Zip(original, decrypted));
  }

  /** No compared position matches exactly when `matches` is 0. */
  lemma MatchesNone(original: string, decrypted: string)
    ensures Matches(original, decrypted) == 0
      <==> forall i :: 0 <= i < |original| && i < |decrypted| ==> original[i] != decrypted[i]
  {
    CountAgreeingNone(Zip(original, decrypted));
  }

  // ---------------------------------------------------------------------------
  // What `zip` looks at.
  // ---------------------------------------------------------------------------

  /**
   * `matches` depends only on the first min(|original|, |decrypted|) characters of
   * each string: two pairs of strings with the same compared length and the same
   * compared characters get the same count, whatever follows.
   */
  lemma MatchesReadsOnlyComparedPrefix(o1: string, d1: string, o2: string, d2: string)
    requires Min(|o1|, |d1|) == Min(|o2|, |d2|)
    requires o1[..Min(|o1|, |d1|)] == o2[..Min(|o1|, |d1|)]
    requires d1[..Min(|o1|, |d1|)] == d2[..Min(|o1|, |d1|)]
    ensures Matches(o1, d1) == Matches(o2, d2)
  {
    var k := Min(|o1|, |d1|);
    var z1, z2 := Zip(o1, d1), Zip(o2, d2);
    forall i | 0 <= i < k
      ensures z1[i] == z2[i]
    {
      assert o1[..k][i] == o2[..k][i] && d1[..k][i] == d2[..k][i];
    }
    assert z1 == z2;
  }

  /** Truncating both strings to the shorter length does not change `matches`. */
  lemma MatchesOfTruncation(original: string, decrypted: string)
    ensures var k := Min(|original|, |decrypted|);
      Matches(original, decrypted) == Matches(original[..k], decrypted[..k])
  {
    var k := Min(|original|, |decrypted|);
    assert original[..k][..k] == original[..k];
    assert decrypted[..k][..k] == decrypted[..k];
    MatchesReadsOnlyComparedPrefix(original, decrypted, original[..k], decrypted[..k]);
  }

  /** `zip` is symmetric, so the count does not care which string is the original. */
  lemma MatchesSymmetric(original: string, decrypted: string)
    ensures Matches(original, decrypted) == Matches(decrypted, original)
  {
    MatchesCountsMatchPositions(original, decrypted);
    MatchesCountsMatchPositions(decrypted, original);
    assert MatchPositions(original, decrypted) == MatchPositions(decrypted, original);
  }

  // ---------------------------------------------------------------------------
  // Properties of the percentage.
  // ---------------------------------------------------------------------------

  /**
   * The score is 100 exactly when the original is non-empty and the decrypted text
   * starts with the whole original.
   */
  lemma AccuracyFullIff(original: string, decrypted: string)
    ensures CalculateAccuracy(original, decrypted) == 100.0
      <==> original != [] && |original| <= |decrypted| && decrypted[..|original|] == original
  {
    if original != [] {
      var m, n := Matches(original, decrypted), |original|;
      assert CalculateAccuracy(original, decrypted) == (m as real / n as real) * 100.0;
      MatchesAll(original, decrypted);
      if CalculateAccuracy(original, decrypted) == 100.0 {
        assert m as real == n as real;
        assert forall i :: 0 <= i < n ==> decrypted[..n][i] == original[i];
      }
      if n <= |decrypted| && decrypted[..n] == original {
        assert forall i :: 0 <= i < n ==> original[i] == decrypted[..n][i];
      }
    }
  }

  /** A non-empty message recovered exactly scores 100. */
  lemma AccuracyOfIdentical(original: string)
    requires original != []
    ensures CalculateAccuracy(original, original) == 100.0
  {
    AccuracyFullIff(original, original);
  }

  /**
   * The score is 0 exactly when the original is empty or no compared position
   * holds the same character in both strings.
   */
  lemma AccuracyZeroIff(original: string, decrypted: string)
    ensures CalculateAccuracy(original, decrypted) == 0.0
      <==> (original == []
        || forall i :: 0 <= i < |original| && i < |decrypted| ==> original[i] != decrypted[i])
  {
    if original != [] {
      var m, n := Matches(original, decrypted), |original|;
      assert CalculateAccuracy(original, decrypted) == (m as real / n as real) * 100.0;
      MatchesNone(original, decrypted);
    }
  }

  /** Characters of the decrypted text beyond the original's length never change the score. */
  lemma AccuracyIgnoresDecryptedTail(original: string, decrypted: string, tail: string)
    requires |original| <= |decrypted|
    ensures CalculateAccuracy(original, decrypted + tail) == CalculateAccuracy(original, decrypted)
  {
    var k := |original|;
    assert (decrypted + tail)[..k] == decrypted[..k];
    MatchesReadsOnlyComparedPrefix(original, decrypted + tail, original, decrypted);
  }

  /** The original followed by anything scores 100 against a non-empty original. */
  lemma AccuracyOfExtendedOriginal(original: string, tail: string)
    requires original != []
    ensures CalculateAccuracy(original, original + tail) == 100.0
  {
    AccuracyIgnoresDecryptedTail(original, original, tail);
    AccuracyOfIdentical(original);
  }

  /**
   * The denominator is the original's length, not the decrypted text's: a decrypted
   * text that is a proper prefix of the original matches every compared position and
   * still scores |decrypted| / |original| * 100, which is below 100.
   */
  lemma AccuracyOfTruncatedRecovery(original: string, decrypted: string)
    requires |decrypted| < |original|
    requires decrypted == original[..|decrypted|]
    ensures CalculateAccuracy(original, decrypted) == (|decrypted| as real / |original| as real) * 100.0
    ensures CalculateAccuracy(original, decrypted) < 100.0
  {
    assert forall i :: 0 <= i < |decrypted| ==> original[i] == original[..|decrypted|][i];
    MatchesAll(original, decrypted);
    AccuracyFullIff(original, decrypted);
  }

  /** The score is not symmetric: swapping the arguments changes the denominator. */
  lemma AccuracyIsAsymmetric()
    ensures CalculateAccuracy("HI", "H") == 50.0
    ensures CalculateAccuracy("H", "HI") == 100.0
  {
  }
}
