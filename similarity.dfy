/**
 * The word-recall similarity of a free answer against one correct answer:
 * the share of the reference's words that the answer contains.
 */
module WordSimilarity {
  import opened Text

  /** A non-negative fraction `num / den`; the similarity always has `den > 0`. */
  datatype Ratio = Ratio(num: nat, den: nat)

  predicate IsOne(r: Ratio) {
    r.num == r.den
  }

  predicate IsZero(r: Ratio) {
    r.num == 0
  }

  /** `r >= 0.8`, exactly, for a fraction with a positive denominator. */
  predicate AtLeastFourFifths(r: Ratio) {
    5 * r.num >= 4 * r.den
  }

  lemma {:induction false} SubsetCardinality<T>(a: set<T>, b: set<T>)
    requires a <= b
    ensures |a| <= |b|
    decreases |b|
  {
    if a != {} {
      var x :| x in a;
      SubsetCardinality(a - {x}, b - {x});
    }
  }

  /**
   * The recall of a reference word set `c` by an answer word set `u`: the
   * fraction of `c` found in `u`, and for an empty `c`, 1 when `u` is empty
   * too and 0 otherwise.
   */
  function Recall(u: set<string>, c: set<string>): (r: Ratio)
    ensures 0 < r.den && r.num <= r.den
    ensures c != {} ==> r.den == |c|
  {
    if |c| == 0 then
      if |u| == 0 then Ratio(1, 1) else Ratio(0, 1)
    else
      SubsetCardinality(u * c, c);
      Ratio(|u * c|, |c|)
  }

  /** `calculate_similarity`: the recall of the reference's words by the answer's words. */
  function Similarity(user: string, reference: string): (r: Ratio)
    ensures 0 < r.den && r.num <= r.den
  {
    Recall(Words(user), Words(reference))
  }

  /** The numerator of a recall against words is the reference's word count less the words the answer misses. */
  lemma RecallCountsMissing(u: set<string>, c: set<string>)
    requires c != {}
    ensures Recall(u, c).num + |c - u| == |c|
  {
    assert (u * c) + (c - u) == c;
    assert (u * c) * (c - u) == {};
  }

  /**
   * The 0.8 threshold in set terms: against a reference with words, at most
   * one word in five may be missing; against one without words, the answer
   * must have none either.
   */
  lemma RecallThreshold(u: set<string>, c: set<string>)
    ensures AtLeastFourFifths(Recall(u, c)) <==> if c == {} then u == {} else 5 * |c - u| <= |c|
  {
    if c != {} {
      RecallCountsMissing(u, c);
    }
  }

  lemma RecallOfEmpty(u: set<string>, c: set<string>)
    requires c == {}
    ensures u == {} ==> IsOne(Recall(u, c))
    ensures u != {} ==> IsZero(Recall(u, c))
  {
  }

  lemma RecallOfSuperset(u: set<string>, c: set<string>)
    requires c != {} && c <= u
    ensures IsOne(Recall(u, c))
  {
    assert u * c == c;
  }

  lemma RecallMonotone(u: set<string>, p: set<string>, c: set<string>)
    requires u <= p && c != {}
    ensures Recall(u, c).den == Recall(p, c).den && Recall(u, c).num <= Recall(p, c).num
  {
    SubsetCardinality(u * c, p * c);
  }

  /** A reference without words: similarity 1 for a blank answer and 0 for any other. */
  lemma SimilarityToBlankReference(user: string, reference: string)
    requires IsBlank(reference)
    ensures IsBlank(user) ==> IsOne(Similarity(user, reference))
    ensures !IsBlank(user) ==> IsZero(Similarity(user, reference))
  {
    WordsEmptyIffBlank(reference);
    WordsEmptyIffBlank(user);
    RecallOfEmpty(Words(user), Words(reference));
  }

  /** An answer whose words include every word of a reference that has words scores 1. */
  lemma FullRecall(user: string, reference: string)
    requires !IsBlank(reference)
    requires Words(reference) <= Words(user)
    ensures IsOne(Similarity(user, reference))
  {
    WordsEmptyIffBlank(reference);
    RecallOfSuperset(Words(user), Words(reference));
  }

  /** Every answer is fully similar to itself, blank or not. */
  lemma SimilarityReflexive(x: string)
    ensures IsOne(Similarity(x, x))
  {
    if IsBlank(x) {
      SimilarityToBlankReference(x, x);
    } else {
      FullRecall(x, x);
    }
  }

  /** Extra words in the answer never lower the similarity to a reference that has words. */
  lemma ExtraWordsNeverLower(user: string, padded: string, reference: string)
    requires Words(user) <= Words(padded)
    requires !IsBlank(reference)
    ensures Similarity(user, reference).den == Similarity(padded, reference).den
    ensures Similarity(user, reference).num <= Similarity(padded, reference).num
  {
    WordsEmptyIffBlank(reference);
    RecallMonotone(Words(user), Words(padded), Words(reference));
  }

  /** Against a reference without words, one extra word drops the similarity from 1 to 0. */
  lemma ExtraWordsLowerBlankReference(user: string, padded: string, reference: string)
    requires IsBlank(reference) && IsBlank(user) && !IsBlank(padded)
    ensures IsOne(Similarity(user, reference)) && IsZero(Similarity(padded, reference))
  {
    SimilarityToBlankReference(user, reference);
    SimilarityToBlankReference(padded, reference);
  }

  /** `calculate_similarity(...) >= 0.8` holds exactly when at most one in five of the reference's words is missing from the answer. */
  lemma SimilarityThreshold(user: string, reference: string)
    requires !IsBlank(reference)
    ensures AtLeastFourFifths(Similarity(user, reference)) <==>
      5 * |Words(reference) - Words(user)| <= |Words(reference)|
  {
    WordsEmptyIffBlank(reference);
    RecallThreshold(Words(user), Words(reference));
  }

  /** The similarity depends on the answers only through their normal forms. */
  lemma SimilarityOfNormalized(user: string, reference: string)
    ensures Similarity(Normalize(user), Normalize(reference)) == Similarity(user, reference)
  {
    WordsOfNormalized(user);
    WordsOfNormalized(reference);
  }
}
