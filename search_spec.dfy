/**
 * What `SegmentState::search` of the current engine computes (instant-segment/src/lib.rs),
 * stated as recursive functions over byte positions of the text.
 *
 * A segmentation of `text[s..e]` is given by its split positions: the strictly increasing
 * end positions of its words, the last one being `e`. `Best` follows the source's loop:
 * it tries every first-word length `1..=min(e - s, limit)`, scores the first word in the
 * context of the previous word and adds the best score of the rest, and keeps a candidate
 * only when it is strictly better than every earlier one.
 */
module SearchSpec {
  import opened Wrappers
  import opened Scoring
  import opened Strings
  import BitVecs

  /**
   * A score together with what achieves it: the split positions here, the words in the
   * earlier engine (`LegacySpec.Found`).
   */
  datatype Scored<P> = Scored(score: real, path: P)

  /** A score and the ascending split positions that achieve it. */
  type Outcome = Scored<seq<nat>>

  /** The scores are defined and words may be at least one byte long. */
  ghost predicate Ready(seg: Segmenter) {
    Defined(seg) && seg.limit >= 1
  }

  /** A previous-word range, if any, lies within the text. */
  predicate PrevOk(t: string, prev: Option<(nat, nat)>) {
    prev.None? || prev.value.0 <= prev.value.1 <= |t|
  }

  /** `previous.map(|range| &self.text[range])`. */
  function PrevWord(t: string, prev: Option<(nat, nat)>): string
    requires PrevOk(t, prev) && prev.Some?
  {
    t[prev.value.0..prev.value.1]
  }

  /** `self.data.score(&self.text[s..e], previous).log10()`, with `lg` standing for `log10`. */
  function WordScore(seg: Segmenter, lg: real -> real, t: string, prev: Option<(nat, nat)>, s: nat, e: nat): real
    requires Defined(seg) && PrevOk(t, prev) && s <= e <= |t|
  {
    lg(Score(seg, t[s..e], if prev.Some? then Some(PrevWord(t, prev)) else None))
  }

  /** `range.len().min(self.data.limit)`: the longest first word tried. */
  function MaxSplit(limit: nat, s: nat, e: nat): nat
    requires s <= e
  {
    if e - s < limit then e - s else limit
  }

  /** The best segmentation of `text[s..e]` after the word `prev`. */
  function Best(seg: Segmenter, lg: real -> real, t: string, prev: Option<(nat, nat)>, s: nat, e: nat): Outcome
    requires Ready(seg) && PrevOk(t, prev) && s <= e <= |t|
    decreases e - s, 1, 0
  {
    if s == e then Scored(0.0, [])
    else Scan(seg, lg, t, prev, s, e, 1, None)
  }

  /** The candidate whose first word is `text[s..s + k]`. */
  function Cand(seg: Segmenter, lg: real -> real, t: string, prev: Option<(nat, nat)>, s: nat, e: nat, k: nat): Outcome
    requires Ready(seg) && PrevOk(t, prev) && s <= e <= |t| && 1 <= k <= e - s
    decreases e - s, 0, 0
  {
    var rest := Best(seg, lg, t, Some((s, s + k)), s + k, e);
    Scored(WordScore(seg, lg, t, prev, s, s + k) + rest.score, [s + k] + rest.path)
  }

  /**
   * The loop over first-word lengths from `k` on, `acc` being the best candidate so far
   * (`None` while the score is still the `f64::MIN` sentinel).
   */
  function Scan(seg: Segmenter, lg: real -> real, t: string, prev: Option<(nat, nat)>, s: nat, e: nat,
                k: nat, acc: Option<Outcome>): Outcome
    requires Ready(seg) && PrevOk(t, prev) && s < e <= |t| && 1 <= k
    decreases e - s, 0, MaxSplit(seg.limit, s, e) + 1 - k
  {
    if k > MaxSplit(seg.limit, s, e) then
      if acc.Some? then acc.value else Scored(0.0, [])
    else
      var c := Cand(seg, lg, t, prev, s, e, k);
      Scan(seg, lg, t, prev, s, e, k + 1, Keep(acc, c))
  }

  /** The candidate kept after trying `c`: `c` if there is none yet or `c` scores strictly higher. */
  function Keep<P>(acc: Option<Scored<P>>, c: Scored<P>): (r: Option<Scored<P>>)
    ensures r.Some? && (r == Some(c) || r == acc)
    ensures acc.Some? ==> r.value.score >= acc.value.score && r.value.score >= c.score
  {
    if acc.None? || c.score > acc.value.score then Some(c) else acc
  }

  /** One round of the loop of `search`: try the first word of `k` bytes, then go on from `k + 1`. */
  lemma ScanStep(seg: Segmenter, lg: real -> real, t: string, prev: Option<(nat, nat)>, s: nat, e: nat,
                 k: nat, acc: Option<Outcome>)
    requires Ready(seg) && PrevOk(t, prev) && s < e <= |t| && 1 <= k <= MaxSplit(seg.limit, s, e)
    ensures Scan(seg, lg, t, prev, s, e, k, acc) ==
      Scan(seg, lg, t, prev, s, e, k + 1, Keep(acc, Cand(seg, lg, t, prev, s, e, k)))
  {
  }

  /**
   * Of the candidates with first words of `1..=n` bytes, the one of length `m` scores highest,
   * and every shorter one scores strictly less.
   */
  ghost predicate FirstBest(seg: Segmenter, lg: real -> real, t: string, prev: Option<(nat, nat)>, s: nat, e: nat,
                            n: nat, m: nat)
    requires Ready(seg) && PrevOk(t, prev) && s < e <= |t|
  {
    && 1 <= m <= n <= MaxSplit(seg.limit, s, e)
    && (forall j :: 1 <= j <= n ==> Cand(seg, lg, t, prev, s, e, j).score <= Cand(seg, lg, t, prev, s, e, m).score)
    && (forall j :: 1 <= j < m ==> Cand(seg, lg, t, prev, s, e, j).score < Cand(seg, lg, t, prev, s, e, m).score)
  }

  /** Scanning on from `k` with the first best of the shorter candidates in hand finds the first best of all. */
  lemma {:induction false} ScanChoice(seg: Segmenter, lg: real -> real, t: string, prev: Option<(nat, nat)>,
                                      s: nat, e: nat, k: nat, acc: Option<Outcome>, i: nat)
    requires Ready(seg) && PrevOk(t, prev) && s < e <= |t| && 1 <= k <= MaxSplit(seg.limit, s, e) + 1
    requires k == 1 ==> acc.None?
    requires k > 1 ==> FirstBest(seg, lg, t, prev, s, e, k - 1, i) && acc == Some(Cand(seg, lg, t, prev, s, e, i))
    ensures exists m :: (FirstBest(seg, lg, t, prev, s, e, MaxSplit(seg.limit, s, e), m) &&
      Scan(seg, lg, t, prev, s, e, k, acc) == Cand(seg, lg, t, prev, s, e, m))
    decreases MaxSplit(seg.limit, s, e) + 1 - k
  {
    var n := MaxSplit(seg.limit, s, e);
    if k <= n {
      var c := Cand(seg, lg, t, prev, s, e, k);
      var acc' := Keep(acc, c);
      ScanStep(seg, lg, t, prev, s, e, k, acc);
      if acc.None? || c.score > acc.value.score {
        FirstBestNew(seg, lg, t, prev, s, e, k, i);
        ScanChoice(seg, lg, t, prev, s, e, k + 1, acc', k);
      } else {
        FirstBestKeep(seg, lg, t, prev, s, e, k, i);
        ScanChoice(seg, lg, t, prev, s, e, k + 1, acc', i);
      }
    }
  }

  /** A candidate strictly better than the first best so far becomes the first best. */
  lemma FirstBestNew(seg: Segmenter, lg: real -> real, t: string, prev: Option<(nat, nat)>, s: nat, e: nat, k: nat, i: nat)
    requires Ready(seg) && PrevOk(t, prev) && s < e <= |t| && 1 <= k <= MaxSplit(seg.limit, s, e)
    requires k > 1 ==> (FirstBest(seg, lg, t, prev, s, e, k - 1, i) &&
      Cand(seg, lg, t, prev, s, e, k).score > Cand(seg, lg, t, prev, s, e, i).score)
    ensures FirstBest(seg, lg, t, prev, s, e, k, k)
  {
  }

  /** A candidate no better than the first best so far leaves it the first best. */
  lemma FirstBestKeep(seg: Segmenter, lg: real -> real, t: string, prev: Option<(nat, nat)>, s: nat, e: nat, k: nat, i: nat)
    requires Ready(seg) && PrevOk(t, prev) && s < e <= |t| && 1 < k <= MaxSplit(seg.limit, s, e)
    requires FirstBest(seg, lg, t, prev, s, e, k - 1, i)
    requires Cand(seg, lg, t, prev, s, e, k).score <= Cand(seg, lg, t, prev, s, e, i).score
    ensures FirstBest(seg, lg, t, prev, s, e, k, i)
  {
  }

  /**
   * On a non-empty range the result is the candidate of greatest score, and of those the one
   * with the shortest first word, because only a strictly greater score replaces the best.
   */
  lemma BestChoice(seg: Segmenter, lg: real -> real, t: string, prev: Option<(nat, nat)>, s: nat, e: nat)
    requires Ready(seg) && PrevOk(t, prev) && s < e <= |t|
    ensures exists m :: (FirstBest(seg, lg, t, prev, s, e, MaxSplit(seg.limit, s, e), m) &&
      Best(seg, lg, t, prev, s, e) == Cand(seg, lg, t, prev, s, e, m))
  {
    ScanChoice(seg, lg, t, prev, s, e, 1, None, 0);
  }

  /** On a non-empty range the best outcome is one of the candidates. */
  lemma BestIsCand(seg: Segmenter, lg: real -> real, t: string, prev: Option<(nat, nat)>, s: nat, e: nat)
    returns (m: nat)
    requires Ready(seg) && PrevOk(t, prev) && s < e <= |t|
    ensures 1 <= m <= MaxSplit(seg.limit, s, e) && Best(seg, lg, t, prev, s, e) == Cand(seg, lg, t, prev, s, e, m)
  {
    BestChoice(seg, lg, t, prev, s, e);
    m :| FirstBest(seg, lg, t, prev, s, e, MaxSplit(seg.limit, s, e), m) && Best(seg, lg, t, prev, s, e) == Cand(seg, lg, t, prev, s, e, m);
  }

  /**
   * `path` splits `text[s..e]` into words of `1..=limit` bytes: each split lies `1..=limit`
   * after the one before it (the first after `s`) and the last is `e`.
   */
  ghost predicate ValidPath(limit: nat, s: nat, e: nat, path: seq<nat>)
    decreases |path|
  {
    if path == [] then s == e
    else s < path[0] <= s + limit && path[0] <= e && ValidPath(limit, path[0], e, path[1..])
  }

  /** The score of the segmentation `path` of `text[s..e]` after the word `prev`. */
  function PathScore(seg: Segmenter, lg: real -> real, t: string, prev: Option<(nat, nat)>, s: nat, e: nat,
                     path: seq<nat>): real
    requires Defined(seg) && PrevOk(t, prev) && e <= |t| && ValidPath(seg.limit, s, e, path)
    decreases |path|
  {
    if path == [] then 0.0
    else WordScore(seg, lg, t, prev, s, path[0]) + PathScore(seg, lg, t, Some((s, path[0])), path[0], e, path[1..])
  }

  /** The best outcome is a segmentation of the range, and its score is that segmentation's score. */
  lemma {:induction false} BestIsPath(seg: Segmenter, lg: real -> real, t: string, prev: Option<(nat, nat)>, s: nat, e: nat)
    requires Ready(seg) && PrevOk(t, prev) && s <= e <= |t|
    ensures ValidPath(seg.limit, s, e, Best(seg, lg, t, prev, s, e).path)
    ensures PathScore(seg, lg, t, prev, s, e, Best(seg, lg, t, prev, s, e).path) == Best(seg, lg, t, prev, s, e).score
    decreases e - s
  {
    if s < e {
      var b := Best(seg, lg, t, prev, s, e);
      var m := BestIsCand(seg, lg, t, prev, s, e);
      var rest := Best(seg, lg, t, Some((s, s + m)), s + m, e);
      BestIsPath(seg, lg, t, Some((s, s + m)), s + m, e);
      assert b.score == WordScore(seg, lg, t, prev, s, s + m) + rest.score;
      assert b.path == [s + m] + rest.path;
      assert b.path[1..] == rest.path;
    }
  }

  /** No segmentation of the range into words of at most `limit` bytes scores higher than the best. */
  lemma {:induction false} BestOptimal(seg: Segmenter, lg: real -> real, t: string, prev: Option<(nat, nat)>, s: nat, e: nat,
                                       p: seq<nat>)
    requires Ready(seg) && PrevOk(t, prev) && s <= e <= |t| && ValidPath(seg.limit, s, e, p)
    ensures PathScore(seg, lg, t, prev, s, e, p) <= Best(seg, lg, t, prev, s, e).score
    decreases e - s
  {
    if s < e {
      var k := p[0] - s;
      var n := MaxSplit(seg.limit, s, e);
      assert 1 <= k <= n;
      BestOptimal(seg, lg, t, Some((s, p[0])), p[0], e, p[1..]);
      var c := Cand(seg, lg, t, prev, s, e, k);
      assert c.score == WordScore(seg, lg, t, prev, s, p[0]) + Best(seg, lg, t, Some((s, p[0])), p[0], e).score;
      BestChoice(seg, lg, t, prev, s, e);
      var m :| FirstBest(seg, lg, t, prev, s, e, n, m) && Best(seg, lg, t, prev, s, e) == Cand(seg, lg, t, prev, s, e, m);
      assert c.score <= Cand(seg, lg, t, prev, s, e, m).score;
    }
  }

  /** The split positions strictly increase from `s` on. */
  ghost predicate Chain(s: nat, path: seq<nat>)
    decreases |path|
  {
    path == [] || (s < path[0] && Chain(path[0], path[1..]))
  }

  /**
   * A segmentation's splits strictly increase, all lie in `s + 1..=e`, the last is `e`, the
   * first is at most `limit` past `s` and every gap is at most `limit`; there are at most
   * `e - s` of them.
   */
  lemma ValidPathShape(limit: nat, s: nat, e: nat, path: seq<nat>)
    requires ValidPath(limit, s, e, path)
    ensures Chain(s, path) && BitVecs.StrictlyIncreasing(path) && |path| <= e - s
    ensures forall i :: 0 <= i < |path| ==> s < path[i] <= e
    ensures path != [] ==> path[|path| - 1] == e && s < path[0] <= s + limit
    ensures forall i :: 0 < i < |path| ==> path[i - 1] < path[i] <= path[i - 1] + limit
  {
    ValidPathOrder(limit, s, e, path);
    ValidPathGaps(limit, s, e, path);
  }

  /** The splits of a segmentation strictly increase within `s + 1..=e` and end at `e`. */
  lemma {:induction false} ValidPathOrder(limit: nat, s: nat, e: nat, path: seq<nat>)
    requires ValidPath(limit, s, e, path)
    ensures Chain(s, path) && BitVecs.StrictlyIncreasing(path) && |path| <= e - s
    ensures forall i :: 0 <= i < |path| ==> s < path[i] <= e
    ensures path != [] ==> path[|path| - 1] == e
    decreases |path|
  {
    if path != [] {
      var tail := path[1..];
      ValidPathOrder(limit, path[0], e, tail);
      assert forall i :: 0 < i < |path| ==> path[i] == tail[i - 1];
    }
  }

  /** Each split of a segmentation lies at most `limit` past the one before it (the first past `s`). */
  lemma {:induction false} ValidPathGaps(limit: nat, s: nat, e: nat, path: seq<nat>)
    requires ValidPath(limit, s, e, path)
    ensures path != [] ==> s < path[0] <= s + limit
    ensures forall i :: 0 < i < |path| ==> path[i - 1] < path[i] <= path[i - 1] + limit
    decreases |path|
  {
    if path != [] {
      var tail := path[1..];
      ValidPathGaps(limit, path[0], e, tail);
      assert forall i :: 0 < i < |path| ==> path[i] == tail[i - 1];
    }
  }

  /** `text[s..split]` for each split in turn: the words of a segmentation. */
  function Words(t: string, s: nat, path: seq<nat>): seq<string>
    requires Chain(s, path) && (forall i :: 0 <= i < |path| ==> path[i] <= |t|)
    decreases |path|
  {
    if path == [] then []
    else [t[s..path[0]]] + Words(t, path[0], path[1..])
  }

  /** The last split of `path`, or `s` when there is none. */
  function LastSplit(s: nat, path: seq<nat>): nat {
    if path == [] then s else path[|path| - 1]
  }

  /** A chain stays a chain when cut short. */
  lemma {:induction false} ChainPrefix(s: nat, path: seq<nat>, n: nat)
    requires Chain(s, path) && n <= |path|
    ensures Chain(s, path[..n])
    decreases n
  {
    if n > 0 {
      ChainPrefix(path[0], path[1..], n - 1);
      assert path[..n][1..] == path[1..][..n - 1];
    }
  }

  /** Pushing one more split adds the word from the last split to it. */
  lemma {:induction false} WordsSnoc(t: string, s: nat, path: seq<nat>, x: nat)
    requires Chain(s, path + [x]) && x <= |t| && (forall i :: 0 <= i < |path| ==> path[i] <= |t|)
    ensures Chain(s, path) && LastSplit(s, path) < x
    ensures Words(t, s, path + [x]) == Words(t, s, path) + [t[LastSplit(s, path)..x]]
    decreases |path|
  {
    if path != [] {
      assert (path + [x])[1..] == path[1..] + [x];
      WordsSnoc(t, path[0], path[1..], x);
    }
  }

  /** The split the `i`-th word starts at: `s` for the first word, else the previous split. */
  function SplitBefore(s: nat, path: seq<nat>, i: nat): nat
    requires i <= |path|
  {
    if i == 0 then s else path[i - 1]
  }

  /** Every word of `path` after `s` is non-empty and lies within `t`. */
  ghost predicate Ascending(t: string, s: nat, path: seq<nat>) {
    forall i :: 0 <= i < |path| ==> SplitBefore(s, path, i) < path[i] <= |t|
  }

  /** The first `n` words of a segmentation, in the order `run` pushes them. */
  function FirstWords(t: string, s: nat, path: seq<nat>, n: nat): (ws: seq<string>)
    requires Ascending(t, s, path) && n <= |path|
    ensures |ws| == n
  {
    if n == 0 then [] else FirstWords(t, s, path, n - 1) + [t[SplitBefore(s, path, n - 1)..path[n - 1]]]
  }

  /** Pushing words one at a time yields the words of the prefix of the segmentation. */
  lemma {:induction false} FirstWordsPrefix(t: string, s: nat, path: seq<nat>, n: nat)
    requires Ascending(t, s, path) && Chain(s, path) && n <= |path|
    ensures Chain(s, path[..n])
    ensures FirstWords(t, s, path, n) == Words(t, s, path[..n])
    decreases n
  {
    ChainPrefix(s, path, n);
    if n > 0 {
      FirstWordsPrefix(t, s, path, n - 1);
      assert path[..n] == path[..n - 1] + [path[n - 1]];
      WordsSnoc(t, s, path[..n - 1], path[n - 1]);
    }
  }

  /** The splits of a segmentation ascend from `s`. */
  lemma ValidPathAscending(t: string, limit: nat, s: nat, e: nat, path: seq<nat>)
    requires ValidPath(limit, s, e, path) && e <= |t|
    ensures Ascending(t, s, path) && Chain(s, path) && |path| <= e - s
  {
    ValidPathShape(limit, s, e, path);
  }

  /** The words of a segmentation are non-empty, at most `limit` long, and spell the range. */
  lemma {:induction false} WordsSpell(t: string, limit: nat, s: nat, e: nat, path: seq<nat>)
    requires ValidPath(limit, s, e, path) && e <= |t|
    ensures Chain(s, path) && forall i :: 0 <= i < |path| ==> path[i] <= |t|
    ensures |Words(t, s, path)| == |path|
    ensures Concat(Words(t, s, path)) == t[s..e]
    ensures forall i :: 0 <= i < |path| ==> 1 <= |Words(t, s, path)[i]| <= limit
    decreases |path|
  {
    ValidPathShape(limit, s, e, path);
    if path != [] {
      WordsSpell(t, limit, path[0], e, path[1..]);
      var ws := Words(t, s, path);
      assert ws[1..] == Words(t, path[0], path[1..]);
      assert t[s..e] == t[s..path[0]] + t[path[0]..e];
      forall i | 0 < i < |path| ensures 1 <= |ws[i]| <= limit {
        assert ws[i] == ws[1..][i - 1];
      }
    }
  }

  /** `Segmenter::segment` on a valid text shorter than a window: the words of its best segmentation. */
  function Segmentation(seg: Segmenter, lg: real -> real, t: string): seq<string>
    requires Ready(seg)
  {
    var b := Best(seg, lg, t, None, 0, |t|);
    BestIsPath(seg, lg, t, None, 0, |t|);
    ValidPathShape(seg.limit, 0, |t|, b.path);
    Words(t, 0, b.path)
  }

  /**
   * The words of a segmentation are non-empty, at most `limit` long and spell the text; the
   * empty text has no words.
   */
  lemma SegmentationSpells(seg: Segmenter, lg: real -> real, t: string)
    requires Ready(seg)
    ensures Concat(Segmentation(seg, lg, t)) == t
    ensures forall i :: 0 <= i < |Segmentation(seg, lg, t)| ==> 1 <= |Segmentation(seg, lg, t)[i]| <= seg.limit
    ensures t == [] <==> Segmentation(seg, lg, t) == []
  {
    var b := Best(seg, lg, t, None, 0, |t|);
    BestIsPath(seg, lg, t, None, 0, |t|);
    WordsSpell(t, seg.limit, 0, |t|, b.path);
    ValidPathShape(seg.limit, 0, |t|, b.path);
    assert t[0..|t|] == t;
  }
}
