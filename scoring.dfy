/**
 * Word probabilities of the current engine (instant-segment/src/lib.rs, `Segmenter`):
 * unigram and bigram counts, their totals, and the "stupid backoff" score of a word
 * given the word before it.
 *
 * Counts and scores are real numbers; the source's `f64` rounding, infinities and NaN are
 * not modelled, so every division is required to have a non-zero divisor.
 */
module Scoring {
  import opened Wrappers

  /** Default maximum word length (`DEFAULT_LIMIT`). */
  const DEFAULT_LIMIT: nat := 24

  /** `struct Segmenter`. */
  datatype Segmenter = Segmenter(
    unigrams: map<string, real>,
    bigrams: map<(string, string), real>,
    uniTotal: real,
    biTotal: real,
    limit: nat)

  /** The divisions of `score` are defined: the totals and every unigram count are non-zero. */
  ghost predicate Defined(seg: Segmenter) {
    && seg.uniTotal != 0.0
    && (seg.bigrams != map[] ==> seg.biTotal != 0.0)
    && forall w :: w in seg.unigrams ==> seg.unigrams[w] != 0.0
  }

  /** Every count is positive (as for counts read from a corpus). */
  ghost predicate Positive(seg: Segmenter) {
    && (forall w :: w in seg.unigrams ==> seg.unigrams[w] > 0.0)
    && (forall p :: p in seg.bigrams ==> seg.bigrams[p] > 0.0)
    && seg.uniTotal > 0.0
    && seg.biTotal >= 0.0
  }

  /** `10.0f64.powi(n)`. */
  function Pow10(n: nat): (p: real)
    ensures p >= 1.0
  {
    if n == 0 then 1.0 else 10.0 * Pow10(n - 1)
  }

  /** `Segmenter::score`: the score of `word` following `previous`. */
  function Score(seg: Segmenter, word: string, previous: Option<string>): real
    requires Defined(seg)
  {
    if previous.Some? && (previous.value, word) in seg.bigrams && previous.value in seg.unigrams then
      // conditional probability of the word given the previous one ("stupid backoff")
      (seg.bigrams[(previous.value, word)] / seg.biTotal) / (seg.unigrams[previous.value] / seg.uniTotal)
    else if word in seg.unigrams then
      seg.unigrams[word] / seg.uniTotal
    else
      // unknown words are penalised by their length
      10.0 / (seg.uniTotal * Pow10(|word|))
  }

  /** One more digit of length multiplies the power by ten. */
  lemma {:induction false} Pow10Increasing(m: nat, n: nat)
    requires m < n
    ensures Pow10(m) * 10.0 <= Pow10(n)
    decreases n
  {
    if n > m + 1 {
      Pow10Increasing(m, n - 1);
    }
  }

  lemma MulMonotone(t: real, x: real, y: real)
    requires t > 0.0 && x < y
    ensures t * x < t * y
  {
  }

  /**
   * The bigram branch is taken only with a previous word that is a known unigram and forms a
   * known bigram with `word`; in every other context the score is the context-free one.
   */
  lemma BackoffToUnigram(seg: Segmenter, word: string, previous: Option<string>)
    requires Defined(seg)
    requires previous.None? || (previous.value, word) !in seg.bigrams || previous.value !in seg.unigrams
    ensures Score(seg, word, previous) == Score(seg, word, None)
    ensures word in seg.unigrams ==> Score(seg, word, previous) * seg.uniTotal == seg.unigrams[word]
  {
  }

  /** The bigram score is the bigram's share of `bi_total` over the previous word's unigram score. */
  lemma BigramScore(seg: Segmenter, word: string, prev: string)
    requires Defined(seg) && (prev, word) in seg.bigrams && prev in seg.unigrams
    ensures Score(seg, word, Some(prev)) * Score(seg, prev, None) == seg.bigrams[(prev, word)] / seg.biTotal
  {
    var u := seg.unigrams[prev] / seg.uniTotal;
    assert u != 0.0;
    assert Score(seg, prev, None) == u;
  }

  /** The penalty for an unknown word strictly decreases as the word grows longer. */
  lemma UnknownLongerScoresLess(seg: Segmenter, short: string, long: string)
    requires Defined(seg) && seg.uniTotal > 0.0
    requires short !in seg.unigrams && long !in seg.unigrams && |short| < |long|
    ensures 0.0 < Score(seg, long, None) < Score(seg, short, None)
  {
    Pow10Increasing(|short|, |long|);
    MulMonotone(seg.uniTotal, Pow10(|short|), Pow10(|long|));
    MulMonotone(seg.uniTotal, 0.0, Pow10(|short|));
    DivAntitone(10.0, seg.uniTotal * Pow10(|short|), seg.uniTotal * Pow10(|long|));
  }

  lemma DivAntitone(x: real, a: real, b: real)
    requires x > 0.0 && 0.0 < a < b
    ensures 0.0 < x / b < x / a
  {
    assert x / b * b == x == x / a * a;
  }

  /** With positive counts every score is positive, so its logarithm is finite. */
  lemma ScorePositive(seg: Segmenter, word: string, previous: Option<string>)
    requires Defined(seg) && Positive(seg)
    ensures Score(seg, word, previous) > 0.0
  {
    if previous.Some? && (previous.value, word) in seg.bigrams && previous.value in seg.unigrams {
      assert seg.biTotal != 0.0;
      var x := seg.bigrams[(previous.value, word)] / seg.biTotal;
      var y := seg.unigrams[previous.value] / seg.uniTotal;
      assert x > 0.0 && y > 0.0;
      assert x / y > 0.0;
    } else if word !in seg.unigrams {
      assert seg.uniTotal * Pow10(|word|) > 0.0;
    }
  }

  /** A word seen at least once outscores any unknown non-empty word. */
  lemma KnownBeatsUnknown(seg: Segmenter, known: string, unknown: string)
    requires Defined(seg) && seg.uniTotal > 0.0
    requires known in seg.unigrams && seg.unigrams[known] >= 1.0
    requires unknown !in seg.unigrams && |unknown| >= 1
    ensures Score(seg, unknown, None) <= Score(seg, known, None)
  {
    Pow10Increasing(0, |unknown|);
    var t := seg.uniTotal;
    var d := t * Pow10(|unknown|);
    assert d >= t * 10.0;
    assert 10.0 / d <= 10.0 / (t * 10.0) by {
      assert 10.0 / d * d == 10.0 == 10.0 / (t * 10.0) * (t * 10.0);
    }
    assert 10.0 / (t * 10.0) == 1.0 / t;
    assert 1.0 / t <= seg.unigrams[known] / t;
  }

  /** The sum of the values of `m` over `keys`, in no particular order. */
  ghost function SumOver<K>(m: map<K, real>, keys: set<K>): real
    requires keys <= m.Keys
  {
    if keys == {} then 0.0
    else
      var k :| k in keys;
      m[k] + SumOver(m, keys - {k})
  }

  /** `m.values().sum()`. */
  ghost function Sum<K>(m: map<K, real>): real {
    SumOver(m, m.Keys)
  }

  /** The sum does not depend on which key is taken first. */
  lemma {:induction false} SumOverRemove<K>(m: map<K, real>, keys: set<K>, k: K)
    requires keys <= m.Keys && k in keys
    ensures SumOver(m, keys) == m[k] + SumOver(m, keys - {k})
    decreases |keys|
  {
    var j :| j in keys && SumOver(m, keys) == m[j] + SumOver(m, keys - {j});
    if j != k {
      SumOverRemove(m, keys - {j}, k);
      SumOverRemove(m, keys - {k}, j);
      assert keys - {j} - {k} == keys - {k} - {j};
    }
  }

  /** A sum of positive values over a non-empty set of keys is positive. */
  lemma {:induction false} SumOverPositive<K>(m: map<K, real>, keys: set<K>)
    requires keys <= m.Keys && keys != {}
    requires forall k :: k in keys ==> m[k] > 0.0
    ensures SumOver(m, keys) > 0.0
    decreases |keys|
  {
    var k :| k in keys;
    SumOverRemove(m, keys, k);
    if keys - {k} != {} {
      SumOverPositive(m, keys - {k});
    } else {
      assert SumOver(m, keys - {k}) == 0.0;
    }
  }

  /** `unigrams.values().sum()`, iterating over the map in any order. */
  method SumValues<K>(m: map<K, real>) returns (total: real)
    ensures total == Sum(m)
  {
    total := 0.0;
    var todo := m.Keys;
    while todo != {}
      invariant todo <= m.Keys
      invariant total + SumOver(m, todo) == Sum(m)
      decreases |todo|
    {
      var k :| k in todo;
      SumOverRemove(m, todo, k);
      total := total + m[k];
      todo := todo - {k};
    }
  }

  /** `Segmenter::from_maps`: the totals are the sums of the counts and the limit is 24. */
  method FromMaps(unigrams: map<string, real>, bigrams: map<(string, string), real>) returns (seg: Segmenter)
    ensures seg.unigrams == unigrams && seg.bigrams == bigrams
    ensures seg.uniTotal == Sum(unigrams) && seg.biTotal == Sum(bigrams)
    ensures seg.limit == DEFAULT_LIMIT
  {
    var uniTotal := SumValues(unigrams);
    var biTotal := SumValues(bigrams);
    seg := Segmenter(unigrams, bigrams, uniTotal, biTotal, DEFAULT_LIMIT);
  }

  /** Maps of positive counts, one of them at least non-empty, give a segmenter whose scores are defined and positive. */
  lemma FromPositiveCounts(seg: Segmenter)
    requires seg.uniTotal == Sum(seg.unigrams) && seg.biTotal == Sum(seg.bigrams)
    requires seg.unigrams != map[]
    requires forall w :: w in seg.unigrams ==> seg.unigrams[w] > 0.0
    requires forall p :: p in seg.bigrams ==> seg.bigrams[p] > 0.0
    ensures Defined(seg) && Positive(seg)
  {
    SumOverPositive(seg.unigrams, seg.unigrams.Keys);
    if seg.bigrams != map[] {
      SumOverPositive(seg.bigrams, seg.bigrams.Keys);
    } else {
      assert seg.bigrams.Keys == {};
    }
  }
}
