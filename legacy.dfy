/**
 * The search state of the earlier engine (src/lib.rs): `SegmentState`, whose memo maps a
 * `(text, previous)` pair of slices to the best segmentation of `text` after `previous`,
 * its recursive `search`, the windowed `run`, and `Segmenter::segment`.
 *
 * Every method is proved against the specification functions of `LegacySpec`: a search
 * returns `OldBest`, and `run` appends `OldRun`.
 */
module Legacy {
  import opened Wrappers
  import opened Strings
  import opened LegacyText
  import opened LegacySpec
  import opened SearchSpec

  /** A memo value: the score and words of the best segmentation of `key.0` after `key.1`. */
  ghost function Entry(seg: OldSegmenter, lg: real -> real, key: (string, string)): (real, seq<string>)
    requires OldReady(seg)
  {
    var f := OldBest(seg, lg, key.0, key.1);
    (f.score, f.path)
  }

  /** `struct SegmentState`: the segmenter, the cleaned text, the memo and the output list. */
  class SegmentState {
    const data: OldSegmenter
    const lg: real -> real
    const text: string
    var memo: map<(string, string), (real, seq<string>)>
    var result: seq<string>

    /** Every memo entry holds the best segmentation of its key. */
    ghost predicate Valid()
      reads this
    {
      OldReady(data) && forall key :: key in memo ==> memo[key] == Entry(data, lg, key)
    }

    /** `SegmentState::new`: an empty memo, appending to `result`. */
    constructor (text: string, data: OldSegmenter, lg: real -> real, result: seq<string>)
      requires OldReady(data)
      ensures Valid() && this.text == text && this.data == data && this.lg == lg
      ensures memo == map[] && this.result == result
    {
      this.data := data;
      this.lg := lg;
      this.text := text;
      memo := map[];
      this.result := result;
    }

    /**
     * `search(text, previous)`: tries every `(prefix, suffix)` split the divider yields and
     * keeps the first one with the strictly highest score.
     */
    method Search(t: string, previous: string) returns (score: real, words: seq<string>)
      requires Valid()
      modifies this`memo
      ensures Valid()
      ensures Scored(score, words) == OldBest(data, lg, t, previous)
      decreases |t|, 2
    {
      if t == [] {
        return 0.0, [];
      }
      var best: Option<Found> := None;
      var divider := new TextDivider(t, data.limit);
      var more := true;
      while more
        invariant Valid()
        invariant divider.Valid() && divider.text == t && divider.stop == Min(|t|, data.limit) + 1
        invariant best.None? <==> divider.split == 1
        invariant OldScan(data, lg, t, previous, divider.split, best) == OldBest(data, lg, t, previous)
        invariant !more ==> divider.split == divider.stop
        decreases divider.stop - divider.split, more
      {
        var next := divider.Next();
        if next.None? {
          more := false;
        } else {
          ghost var k := divider.split - 1;
          OldScanStep(data, lg, t, previous, k, best);
          best := Consider(t, previous, next.value.0, next.value.1, k, best);
        }
      }
      score, words := best.value.score, best.value.path;
    }

    /**
     * One round of the loop of `search`: the suffix's best comes from the memo or from a
     * recursive search recorded with `or_insert`, and the pair replaces the best so far when
     * it scores strictly higher.
     */
    method Consider(t: string, previous: string, prefix: string, suffix: string, ghost k: nat, best: Option<Found>)
      returns (best': Option<Found>)
      requires Valid() && 1 <= k <= Min(|t|, data.limit) && prefix == t[..k] && suffix == t[k..]
      modifies this`memo
      ensures Valid()
      ensures best' == Keep(best, OldCand(data, lg, t, previous, k))
      decreases |t|, 1
    {
      var prefixScore := lg(OldScore(data, prefix, Some(previous)));
      var pair := (suffix, prefix);
      var suffixScore: real;
      var suffixWords: seq<string>;
      if pair in memo {
        suffixScore, suffixWords := memo[pair].0, memo[pair].1;
      } else {
        suffixScore, suffixWords := Search(suffix, prefix);
        if pair !in memo {
          memo := memo[pair := (suffixScore, suffixWords)];
        }
        suffixWords := memo[pair].1;
      }
      var score := prefixScore + suffixScore;
      if best.None? || score > best.value.score {
        best' := Some(Scored(score, [prefix] + suffixWords));
      } else {
        best' := best;
      }
    }

    /**
     * `run`: searches windows of up to 250 more bytes, commits all but the last five words
     * of each, and finally appends every word of the search after the last committed one.
     */
    method Run()
      requires Valid()
      modifies this`memo, this`result
      ensures Valid()
      ensures result == old(result) + OldRun(data, lg, text)
    {
      var start: nat, end: nat := 0, 0;
      while true
        invariant Valid() && start <= end <= |text|
        invariant result + RunFrom(data, lg, text, start, end) == old(result) + OldRun(data, lg, text)
        decreases |text| - end
      {
        ghost var keep, start', end' := RunFromWindow(data, lg, text, start, end);
        end := Min(|text|, end + SEGMENT_SIZE);
        var _, windowWords := Search(text[start..end], START);
        var n := if |windowWords| >= HELD_BACK then |windowWords| - HELD_BACK else 0;
        ghost var before := result;
        start := Commit(windowWords, n, start);
        assert windowWords[..n] == keep;
        assert result == before + keep && start == start';
        if end < |text| {
          AppendAssoc(before, keep, RunFrom(data, lg, text, start', end'));
        } else {
          AppendAssoc(before, keep, OldBest(data, lg, text[start'..], START).path);
        }
        if end == |text| {
          break;
        }
      }
      var _, windowWords := Search(text[start..], START);
      result := result + windowWords;
    }

    /** The loop `for word in &window_words[..n]`: pushes each word and advances `start` past it. */
    method Commit(ws: seq<string>, n: nat, start: nat) returns (start': nat)
      requires n <= |ws|
      modifies this`result
      ensures result == old(result) + ws[..n]
      ensures start' == start + |Concat(ws[..n])|
    {
      start' := start;
      var i := 0;
      while i < n
        invariant i <= n
        invariant result == old(result) + ws[..i]
        invariant start' == start + |Concat(ws[..i])|
      {
        assert ws[..i + 1] == ws[..i] + [ws[i]];
        ConcatAppend(ws[..i], [ws[i]]);
        assert Concat([ws[i]]) == ws[i];
        start' := start' + |ws[i]|;
        result := result + [ws[i]];
        i := i + 1;
      }
    }
  }

  /** `Segmenter::segment`: cleans `text` and appends its best segmentation to `out`. */
  method Segment(seg: OldSegmenter, lg: real -> real, text: string, out: seq<string>) returns (out': seq<string>)
    requires OldReady(seg)
    ensures out' == out + OldSegment(seg, lg, text)
  {
    var clean := Clean(text);
    var state := new SegmentState(clean, seg, lg, out);
    state.Run();
    out' := state.result;
  }
}
