/**
 * What the earlier engine (src/lib.rs) computes, stated over strings: its scoring, the
 * result of `SegmentState::search` on a text after a previous word, and the words `run`
 * produces window by window.
 *
 * The search is related to the current engine's specification: searching `t[s..e]` after
 * the word `t[a..s]` gives the same score as `Best`, and the words cut at `Best`'s splits.
 * Its spelling, length and tie-breaking properties are carried over from there.
 */
module LegacySpec {
  import opened Wrappers
  import opened Strings
  import Scoring
  import opened SearchSpec
  import opened LegacyText

  /** `DEFAULT_LIMIT`. */
  const DEFAULT_LIMIT: nat := 24
  /** `DEFAULT_TOTAL`. */
  const DEFAULT_TOTAL: real := 1024908267229.0
  /** Bytes searched at once (`SEGMENT_SIZE`). */
  const SEGMENT_SIZE: nat := 250
  /** Words committed per window stop this many words short of its end. */
  const HELD_BACK: nat := 5
  /** The previous word every window is searched after. */
  const START: string := "<s>"

  /** `struct Segmenter` of the earlier engine: one total for both maps. */
  datatype OldSegmenter = OldSegmenter(
    unigrams: map<string, real>,
    bigrams: map<(string, string), real>,
    total: real,
    limit: nat)

  /** The divisions of `score` are defined. */
  ghost predicate OldDefined(seg: OldSegmenter) {
    seg.total != 0.0 && forall w :: w in seg.unigrams ==> seg.unigrams[w] != 0.0
  }

  /** Scores are defined and words may be at least one character long. */
  ghost predicate OldReady(seg: OldSegmenter) {
    OldDefined(seg) && seg.limit >= 1
  }

  /** `Segmenter::score` of the earlier engine; the bigram branch divides by the unigram score of `previous`. */
  function OldScore(seg: OldSegmenter, word: string, previous: Option<string>): real
    requires OldDefined(seg)
    decreases if previous.Some? then 1 else 0
  {
    if previous.Some? && (previous.value, word) in seg.bigrams && previous.value in seg.unigrams then
      seg.bigrams[(previous.value, word)] / seg.total / OldScore(seg, previous.value, None)
    else if word in seg.unigrams then
      seg.unigrams[word] / seg.total
    else
      10.0 / (seg.total * Scoring.Pow10(|word|))
  }

  /** The current engine's segmenter with both totals equal to `total`. */
  function NewOf(seg: OldSegmenter): (n: Scoring.Segmenter)
    ensures OldReady(seg) ==> Ready(n)
  {
    Scoring.Segmenter(seg.unigrams, seg.bigrams, seg.total, seg.total, seg.limit)
  }

  /** Both engines score alike when the current one uses `total` for both totals. */
  lemma OldScoreAgrees(seg: OldSegmenter, word: string, previous: Option<string>)
    requires OldDefined(seg)
    ensures Scoring.Defined(NewOf(seg))
    ensures OldScore(seg, word, previous) == Scoring.Score(NewOf(seg), word, previous)
  {
  }

  /**
   * The bigram branch needs a previous word that is a known unigram and forms a known bigram;
   * the bigram's share of `total` is then the product of the word's score and the previous
   * word's own score.
   */
  lemma OldBackoff(seg: OldSegmenter, word: string, previous: Option<string>)
    requires OldDefined(seg)
    ensures previous.None? || (previous.value, word) !in seg.bigrams || previous.value !in seg.unigrams ==>
      OldScore(seg, word, previous) == OldScore(seg, word, None)
    ensures previous.Some? && (previous.value, word) in seg.bigrams && previous.value in seg.unigrams ==>
      OldScore(seg, word, previous) * OldScore(seg, previous.value, None) == seg.bigrams[(previous.value, word)] / seg.total
  {
    if previous.Some? && (previous.value, word) in seg.bigrams && previous.value in seg.unigrams {
      OldScoreAgrees(seg, word, previous);
      OldScoreAgrees(seg, previous.value, None);
      Scoring.BigramScore(NewOf(seg), word, previous.value);
    }
  }

  /** With a positive total, the penalty of an unknown word strictly decreases with its length. */
  lemma OldUnknownLongerScoresLess(seg: OldSegmenter, short: string, long: string)
    requires OldDefined(seg) && seg.total > 0.0
    requires short !in seg.unigrams && long !in seg.unigrams && |short| < |long|
    ensures 0.0 < OldScore(seg, long, None) < OldScore(seg, short, None)
  {
    OldScoreAgrees(seg, short, None);
    OldScoreAgrees(seg, long, None);
    Scoring.UnknownLongerScoresLess(NewOf(seg), short, long);
  }

  /** A score together with the words that achieve it (`(f64, Vec<&str>)`). */
  type Found = Scored<seq<string>>

  /** `search(t, prev)`: the best segmentation of `t` after the word `prev`. */
  function OldBest(seg: OldSegmenter, lg: real -> real, t: string, prev: string): Found
    requires OldReady(seg)
    decreases |t|, 1, 0
  {
    if t == [] then Scored(0.0, []) else OldScan(seg, lg, t, prev, 1, None)
  }

  /** The candidate for the divider's pair `(t[..k], t[k..])`. */
  function OldCand(seg: OldSegmenter, lg: real -> real, t: string, prev: string, k: nat): Found
    requires OldReady(seg) && 1 <= k <= |t|
    decreases |t|, 0, 0
  {
    var rest := OldBest(seg, lg, t[k..], t[..k]);
    Scored(lg(OldScore(seg, t[..k], Some(prev))) + rest.score, [t[..k]] + rest.path)
  }

  /**
   * The loop of `search` over the divider's pairs from the `k`-th on, `acc` being the best so
   * far (`None` while it is still the `f64::MIN` sentinel).
   */
  function OldScan(seg: OldSegmenter, lg: real -> real, t: string, prev: string, k: nat, acc: Option<Found>): Found
    requires OldReady(seg) && t != [] && 1 <= k
    decreases |t|, 0, Min(|t|, seg.limit) + 1 - k
  {
    if k > Min(|t|, seg.limit) then
      if acc.Some? then acc.value else Scored(0.0, [])
    else
      OldScan(seg, lg, t, prev, k + 1, Keep(acc, OldCand(seg, lg, t, prev, k)))
  }

  /** One round of the loop of `search`. */
  lemma OldScanStep(seg: OldSegmenter, lg: real -> real, t: string, prev: string, k: nat, acc: Option<Found>)
    requires OldReady(seg) && t != [] && 1 <= k <= Min(|t|, seg.limit)
    ensures OldScan(seg, lg, t, prev, k, acc) == OldScan(seg, lg, t, prev, k + 1, Keep(acc, OldCand(seg, lg, t, prev, k)))
  {
  }

  /** An outcome of the current engine read as words of `t`: the splits cut `t[s..e]` into words. */
  ghost function Lift(limit: nat, t: string, s: nat, e: nat, o: Outcome): Found {
    if ValidPath(limit, s, e, o.path) && e <= |t| then
      ValidPathShape(limit, s, e, o.path);
      Scored(o.score, Words(t, s, o.path))
    else
      Scored(o.score, [])
  }

  ghost function LiftOpt(limit: nat, t: string, s: nat, e: nat, acc: Option<Outcome>): Option<Found> {
    if acc.None? then None else Some(Lift(limit, t, s, e, acc.value))
  }

  /**
   * The earlier engine's search of `t[s..e]` after the word `t[a..s]` finds the current
   * engine's best segmentation of that range after that word.
   */
  lemma {:induction false} OldBestIsBest(seg: OldSegmenter, lg: real -> real, t: string, a: nat, s: nat, e: nat)
    requires OldReady(seg) && a <= s <= e <= |t|
    ensures OldBest(seg, lg, t[s..e], t[a..s]) == Lift(seg.limit, t, s, e, Best(NewOf(seg), lg, t, Some((a, s)), s, e))
    decreases e - s, 1
  {
    if s < e {
      OldScanIsScan(seg, lg, t, a, s, e, 1, None);
    } else {
      assert ValidPath(seg.limit, s, e, []);
    }
  }

  /** The candidates of both engines agree. */
  lemma {:induction false} OldCandIsCand(seg: OldSegmenter, lg: real -> real, t: string, a: nat, s: nat, e: nat, k: nat)
    requires OldReady(seg) && a <= s < e <= |t| && 1 <= k <= MaxSplit(seg.limit, s, e)
    ensures ValidPath(seg.limit, s, e, Cand(NewOf(seg), lg, t, Some((a, s)), s, e, k).path)
    ensures OldCand(seg, lg, t[s..e], t[a..s], k) == Lift(seg.limit, t, s, e, Cand(NewOf(seg), lg, t, Some((a, s)), s, e, k))
    decreases e - s, 0, 0
  {
    var m := s + k;
    OldBestIsBest(seg, lg, t, s, m, e);
    LiftCand(seg, lg, t, a, s, e, k);
    assert t[s..e][k..] == t[m..e] && t[s..e][..k] == t[s..m];
    OldScoreAgrees(seg, t[s..m], Some(t[a..s]));
  }

  /** A candidate of the current engine is a segmentation; read as words, its first word comes first. */
  lemma LiftCand(seg: OldSegmenter, lg: real -> real, t: string, a: nat, s: nat, e: nat, k: nat)
    requires OldReady(seg) && a <= s < e <= |t| && 1 <= k <= MaxSplit(seg.limit, s, e)
    ensures ValidPath(seg.limit, s, e, Cand(NewOf(seg), lg, t, Some((a, s)), s, e, k).path)
    ensures Lift(seg.limit, t, s, e, Cand(NewOf(seg), lg, t, Some((a, s)), s, e, k)) ==
      Scored(WordScore(NewOf(seg), lg, t, Some((a, s)), s, s + k) + Best(NewOf(seg), lg, t, Some((s, s + k)), s + k, e).score,
            [t[s..s + k]] + Lift(seg.limit, t, s + k, e, Best(NewOf(seg), lg, t, Some((s, s + k)), s + k, e)).path)
  {
    var m := s + k;
    var rest := Best(NewOf(seg), lg, t, Some((s, m)), m, e);
    BestIsPath(NewOf(seg), lg, t, Some((s, m)), m, e);
    var c := Cand(NewOf(seg), lg, t, Some((a, s)), s, e, k);
    assert c.path == [m] + rest.path;
    ConsPath(seg.limit, t, s, e, m, rest.path);
  }

  /** A first split in range followed by a segmentation of the rest is a segmentation, whose words start with `t[s..m]`. */
  lemma ConsPath(limit: nat, t: string, s: nat, e: nat, m: nat, p: seq<nat>)
    requires s < m <= s + limit && m <= e <= |t| && ValidPath(limit, m, e, p)
    ensures ValidPath(limit, s, e, [m] + p)
    ensures Lift(limit, t, s, e, Scored(0.0, [m] + p)).path == [t[s..m]] + Lift(limit, t, m, e, Scored(0.0, p)).path
  {
    var q := [m] + p;
    assert q[0] == m && q[1..] == p;
    ValidPathShape(limit, m, e, p);
    ValidPathShape(limit, s, e, q);
  }

  /** Keeping the better candidate commutes with reading outcomes as words. */
  lemma LiftKeep(limit: nat, t: string, s: nat, e: nat, acc: Option<Outcome>, c: Outcome)
    ensures Keep(LiftOpt(limit, t, s, e, acc), Lift(limit, t, s, e, c)) == LiftOpt(limit, t, s, e, Keep(acc, c))
  {
  }

  /** The loops of both engines agree round by round. */
  lemma {:induction false} OldScanIsScan(seg: OldSegmenter, lg: real -> real, t: string, a: nat, s: nat, e: nat,
                                         k: nat, acc: Option<Outcome>)
    requires OldReady(seg) && a <= s < e <= |t| && 1 <= k <= MaxSplit(seg.limit, s, e) + 1
    requires k == 1 <==> acc.None?
    requires acc.Some? ==> ValidPath(seg.limit, s, e, acc.value.path)
    ensures OldScan(seg, lg, t[s..e], t[a..s], k, LiftOpt(seg.limit, t, s, e, acc)) ==
      Lift(seg.limit, t, s, e, Scan(NewOf(seg), lg, t, Some((a, s)), s, e, k, acc))
    decreases e - s, 0, MaxSplit(seg.limit, s, e) + 1 - k
  {
    var n := MaxSplit(seg.limit, s, e);
    assert Min(|t[s..e]|, seg.limit) == n;
    if k <= n {
      var c := Cand(NewOf(seg), lg, t, Some((a, s)), s, e, k);
      OldCandIsCand(seg, lg, t, a, s, e, k);
      ScanStep(NewOf(seg), lg, t, Some((a, s)), s, e, k, acc);
      OldScanStep(seg, lg, t[s..e], t[a..s], k, LiftOpt(seg.limit, t, s, e, acc));
      LiftKeep(seg.limit, t, s, e, acc, c);
      OldScanIsScan(seg, lg, t, a, s, e, k + 1, Keep(acc, c));
    } else {
      OldScanDone(seg, lg, t, a, s, e, k, acc);
    }
  }

  /** Past the last length both loops return the candidate in hand. */
  lemma OldScanDone(seg: OldSegmenter, lg: real -> real, t: string, a: nat, s: nat, e: nat,
                    k: nat, acc: Option<Outcome>)
    requires OldReady(seg) && a <= s < e <= |t| && k == MaxSplit(seg.limit, s, e) + 1 && acc.Some?
    requires Min(|t[s..e]|, seg.limit) == MaxSplit(seg.limit, s, e)
    ensures OldScan(seg, lg, t[s..e], t[a..s], k, LiftOpt(seg.limit, t, s, e, acc)) ==
      Lift(seg.limit, t, s, e, Scan(NewOf(seg), lg, t, Some((a, s)), s, e, k, acc))
  {
  }

  /** Embedding a text after its previous word turns a search into a search of a range. */
  lemma Embed(t: string, prev: string)
    ensures (prev + t)[|prev|..|prev + t|] == t && (prev + t)[0..|prev|] == prev
  {
  }

  /** Every word is `1..=limit` characters long. */
  ghost predicate Fit(ws: seq<string>, limit: nat) {
    forall i :: 0 <= i < |ws| ==> 1 <= |ws[i]| <= limit
  }

  /**
   * `search("", _)` is `(0.0, [])`; otherwise its words are non-empty, at most `limit` long,
   * and spell the text.
   */
  lemma OldBestSpells(seg: OldSegmenter, lg: real -> real, t: string, prev: string)
    requires OldReady(seg)
    ensures Concat(OldBest(seg, lg, t, prev).path) == t
    ensures Fit(OldBest(seg, lg, t, prev).path, seg.limit)
    ensures t == [] <==> OldBest(seg, lg, t, prev).path == []
    ensures t == [] ==> OldBest(seg, lg, t, prev) == Scored(0.0, [])
  {
    var tt := prev + t;
    var s := |prev|;
    Embed(t, prev);
    OldBestIsBest(seg, lg, tt, 0, s, |tt|);
    var b := Best(NewOf(seg), lg, tt, Some((0, s)), s, |tt|);
    BestIsPath(NewOf(seg), lg, tt, Some((0, s)), s, |tt|);
    WordsSpell(tt, seg.limit, s, |tt|, b.path);
    ValidPathShape(seg.limit, s, |tt|, b.path);
  }

  /**
   * Of the divider's pairs `1..=n`, the `m`-th gives the highest score and every earlier one
   * scores strictly less.
   */
  ghost predicate OldFirstBest(seg: OldSegmenter, lg: real -> real, t: string, prev: string, m: nat)
    requires OldReady(seg)
  {
    && 1 <= m <= Min(|t|, seg.limit)
    && (forall j :: 1 <= j <= Min(|t|, seg.limit) ==> OldCand(seg, lg, t, prev, j).score <= OldCand(seg, lg, t, prev, m).score)
    && (forall j :: 1 <= j < m ==> OldCand(seg, lg, t, prev, j).score < OldCand(seg, lg, t, prev, m).score)
  }

  /**
   * `search` returns the candidate of greatest score, and of those the first (the shortest
   * first word), because only a strictly greater score replaces the best.
   */
  lemma OldBestChoice(seg: OldSegmenter, lg: real -> real, t: string, prev: string)
    requires OldReady(seg) && t != []
    ensures exists m :: OldFirstBest(seg, lg, t, prev, m) && OldBest(seg, lg, t, prev) == OldCand(seg, lg, t, prev, m)
  {
    var tt := prev + t;
    var s := |prev|;
    var e := |tt|;
    var ns := NewOf(seg);
    Embed(t, prev);
    BestChoice(ns, lg, tt, Some((0, s)), s, e);
    var m :| FirstBest(ns, lg, tt, Some((0, s)), s, e, MaxSplit(seg.limit, s, e), m) &&
      Best(ns, lg, tt, Some((0, s)), s, e) == Cand(ns, lg, tt, Some((0, s)), s, e, m);
    forall j | 1 <= j <= MaxSplit(seg.limit, s, e)
      ensures OldCand(seg, lg, t, prev, j).score == Cand(ns, lg, tt, Some((0, s)), s, e, j).score
    {
      OldCandIsCand(seg, lg, tt, 0, s, e, j);
    }
    OldCandIsCand(seg, lg, tt, 0, s, e, m);
    OldBestIsBest(seg, lg, tt, 0, s, e);
    assert OldFirstBest(seg, lg, t, prev, m);
  }

  /** `&window_words[..window_words.len().saturating_sub(5)]`: all but the last five words. */
  function Committed(ws: seq<string>): (r: seq<string>)
    ensures |r| == if |ws| >= HELD_BACK then |ws| - HELD_BACK else 0
    ensures r == ws[..|r|]
  {
    ws[..if |ws| >= HELD_BACK then |ws| - HELD_BACK else 0]
  }

  /** The committed words of a window spell a prefix of it. */
  lemma CommittedPrefix(ws: seq<string>, w: string)
    requires Concat(ws) == w
    ensures |Concat(Committed(ws))| <= |w| && w[..|Concat(Committed(ws))|] == Concat(Committed(ws))
  {
    var r := Committed(ws);
    assert ws == r + ws[|r|..];
    ConcatAppend(r, ws[|r|..]);
  }

  lemma SplitAt(text: string, a: nat, b: nat)
    requires a <= b <= |text|
    ensures text[a..] == text[a..b] + text[b..]
  {
  }

  lemma FitAppend(a: seq<string>, b: seq<string>, limit: nat)
    requires Fit(a, limit) && Fit(b, limit)
    ensures Fit(a + b, limit)
  {
    forall i | 0 <= i < |a + b| ensures 1 <= |(a + b)[i]| <= limit {
      if i >= |a| {
        assert (a + b)[i] == b[i - |a|];
      }
    }
  }

  /**
   * The words `run` pushes from the window starting at `start` and ending before `end + 250`
   * on: the committed words of each window, then all words of the text after the last
   * committed one.
   */
  function RunFrom(seg: OldSegmenter, lg: real -> real, text: string, start: nat, end: nat): seq<string>
    requires OldReady(seg) && start <= end <= |text|
    decreases |text| - end
  {
    var end' := Min(|text|, end + SEGMENT_SIZE);
    var ws := OldBest(seg, lg, text[start..end'], START).path;
    OldBestSpells(seg, lg, text[start..end'], START);
    CommittedPrefix(ws, text[start..end']);
    var start' := start + |Concat(Committed(ws))|;
    if end' == |text| then
      Committed(ws) + OldBest(seg, lg, text[start'..], START).path
    else
      Committed(ws) + RunFrom(seg, lg, text, start', end')
  }

  /** `SegmentState::run` of the earlier engine on `text`. */
  function OldRun(seg: OldSegmenter, lg: real -> real, text: string): seq<string>
    requires OldReady(seg)
  {
    RunFrom(seg, lg, text, 0, 0)
  }

  /**
   * One window of `run`: the committed words `keep` spell `text[start..start']`, and the
   * words after them are the tail search or the next windows.
   */
  lemma RunFromWindow(seg: OldSegmenter, lg: real -> real, text: string, start: nat, end: nat)
    returns (keep: seq<string>, start': nat, end': nat)
    requires OldReady(seg) && start <= end <= |text|
    ensures start <= start' <= end' <= |text| && end' == Min(|text|, end + SEGMENT_SIZE)
    ensures keep == Committed(OldBest(seg, lg, text[start..end'], START).path)
    ensures start' == start + |Concat(keep)|
    ensures Concat(keep) == text[start..start'] && Fit(keep, seg.limit)
    ensures end' == |text| ==> RunFrom(seg, lg, text, start, end) == keep + OldBest(seg, lg, text[start'..], START).path
    ensures end' < |text| ==> end < end' && RunFrom(seg, lg, text, start, end) == keep + RunFrom(seg, lg, text, start', end')
  {
    end' := Min(|text|, end + SEGMENT_SIZE);
    keep, start' := WindowCommit(seg, lg, text, start, end');
  }

  /** The committed words of the window `text[start..end]` spell `text[start..start']`. */
  lemma WindowCommit(seg: OldSegmenter, lg: real -> real, text: string, start: nat, end: nat)
    returns (keep: seq<string>, start': nat)
    requires OldReady(seg) && start <= end <= |text|
    ensures keep == Committed(OldBest(seg, lg, text[start..end], START).path)
    ensures start' == start + |Concat(keep)| <= end
    ensures Concat(keep) == text[start..start'] && Fit(keep, seg.limit)
  {
    var w := text[start..end];
    var ws := OldBest(seg, lg, w, START).path;
    OldBestSpells(seg, lg, w, START);
    CommittedPrefix(ws, w);
    keep := Committed(ws);
    start' := start + |Concat(keep)|;
    assert w[..|Concat(keep)|] == text[start..start'];
    FitPrefix(ws, |keep|, seg.limit);
  }

  /** A prefix of words that fit still fits. */
  lemma FitPrefix(ws: seq<string>, n: nat, limit: nat)
    requires Fit(ws, limit) && n <= |ws|
    ensures Fit(ws[..n], limit)
  {
    forall i | 0 <= i < n ensures 1 <= |ws[..n][i]| <= limit {
      assert ws[..n][i] == ws[i];
    }
  }

  /** The words from `start` on are non-empty, at most `limit` long, and spell `text[start..]`. */
  lemma {:induction false} RunFromSpells(seg: OldSegmenter, lg: real -> real, text: string, start: nat, end: nat)
    requires OldReady(seg) && start <= end <= |text|
    ensures Concat(RunFrom(seg, lg, text, start, end)) == text[start..]
    ensures Fit(RunFrom(seg, lg, text, start, end), seg.limit)
    decreases |text| - end
  {
    var keep, start', end' := RunFromWindow(seg, lg, text, start, end);
    var rest: seq<string>;
    if end' == |text| {
      rest := OldBest(seg, lg, text[start'..], START).path;
      OldBestSpells(seg, lg, text[start'..], START);
    } else {
      rest := RunFrom(seg, lg, text, start', end');
      RunFromSpells(seg, lg, text, start', end');
    }
    ConcatAppend(keep, rest);
    SplitAt(text, start, start');
    FitAppend(keep, rest, seg.limit);
  }

  /**
   * `run` stitches its windows into a segmentation of the whole text: the words are
   * non-empty, at most `limit` long, and concatenate to the text; the empty text has none.
   */
  lemma OldRunSpells(seg: OldSegmenter, lg: real -> real, text: string)
    requires OldReady(seg)
    ensures Concat(OldRun(seg, lg, text)) == text
    ensures Fit(OldRun(seg, lg, text), seg.limit)
    ensures text == [] <==> OldRun(seg, lg, text) == []
  {
    RunFromSpells(seg, lg, text, 0, 0);
    assert text[0..] == text;
    if OldRun(seg, lg, text) == [] {
      assert Concat([]) == [];
    } else {
      var ws := OldRun(seg, lg, text);
      assert ws == [ws[0]] + ws[1..];
      ConcatAppend([ws[0]], ws[1..]);
      assert |ws[0]| >= 1;
    }
  }

  /** `Segmenter::segment` of the earlier engine: cleaning followed by `run`. */
  function OldSegment(seg: OldSegmenter, lg: real -> real, text: string): seq<string>
    requires OldReady(seg)
  {
    OldRun(seg, lg, Clean(text))
  }

  /** The words `segment` appends spell the cleaned input and consist of lowercase letters and digits. */
  lemma OldSegmentSpells(seg: OldSegmenter, lg: real -> real, text: string)
    requires OldReady(seg)
    ensures Concat(OldSegment(seg, lg, text)) == Clean(text)
    ensures Fit(OldSegment(seg, lg, text), seg.limit)
    ensures forall k, i :: 0 <= k < |OldSegment(seg, lg, text)| && 0 <= i < |OldSegment(seg, lg, text)[k]| ==>
      IsClean(OldSegment(seg, lg, text)[k][i])
  {
    var ws := OldSegment(seg, lg, text);
    OldRunSpells(seg, lg, Clean(text));
    CleanOutput(text);
    forall k, i | 0 <= k < |ws| && 0 <= i < |ws[k]| ensures IsClean(ws[k][i]) {
      ConcatHasChar(ws, k, i);
    }
  }
}
