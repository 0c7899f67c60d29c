/**
 * The search state of the current engine (instant-segment/src/lib.rs): the reusable `Search`
 * buffers, the `SegmentState` that runs the memoised search over one window, and
 * `Segmenter::segment`.
 *
 * Only texts of at most one window (`SEGMENT_SIZE` bytes) are modelled: on those `run`
 * performs a single search over the whole text with `offset == 0`, every position fits a
 * `BitVec`, every level has its own `best` entry and the `as u8` memo keys are exact.
 *
 * `best` has `LEVELS == SEGMENT_SIZE + 1` entries, one more than the source's
 * `[BitVec; SEGMENT_SIZE]`: a window of `n` bytes recurses down to level `n`, so the source
 * indexes past its array on a full window (see `SearchDepth`).
 */
module Engine {
  import opened Wrappers
  import opened BitVecs
  import opened Scoring
  import opened AsciiText
  import opened SearchSpec
  import opened Strings

  /** Bytes searched at once (`SEGMENT_SIZE`). */
  const SEGMENT_SIZE: nat := 250
  /** Entries of `best`: one per recursion level of a full window, the empty tail included. */
  const LEVELS: nat := SEGMENT_SIZE + 1
  /** `usize::MAX` on a 64-bit target. */
  const USIZE_MAX: nat := 0xFFFF_FFFF_FFFF_FFFF

  /** A memo key: window-relative `(start, split, end)` of the search of `split..end` after `start..split`. */
  type Key = (nat, nat, nat)

  /** `(x - offset) as u8`: truncation to eight bits, exact below 256. */
  function AsU8(x: nat): (b: nat)
    ensures b < 256
    ensures x < 256 ==> b == x
    ensures x >= 256 ==> b != x
  {
    x % 256
  }

  function Min(a: nat, b: nat): nat {
    if a < b then a else b
  }

  /** `struct Search`: the memo, one split set per recursion level, and the result words. */
  class Search {
    var memo: map<Key, (real, BitVec)>
    const best: array<BitVec>
    var result: seq<string>

    ghost predicate Valid() {
      best.Length == LEVELS
    }

    /** `Search::default()`, with `LEVELS` split sets. */
    constructor ()
      ensures Valid() && fresh(best) && memo == map[] && result == []
      ensures forall i :: 0 <= i < best.Length ==> best[i] == Empty()
    {
      memo := map[];
      best := new BitVec[LEVELS](_ => Empty());
      result := [];
    }

    /** `Search::clear`: empties the memo, every split set and the result. */
    method Clear()
      requires Valid()
      modifies this, best
      ensures Valid() && memo == map[] && result == []
      ensures forall i :: 0 <= i < best.Length ==> Elems(best[i]) == {}
    {
      memo := map[];
      for i := 0 to best.Length
        invariant Valid() && memo == map[]
        invariant forall j :: 0 <= j < i ==> Elems(best[j]) == {}
      {
        var cleared := BitVecs.Clear(best[i]);
        best[i] := cleared;
      }
      result := [];
    }
  }

  /** Adding `split` in front of the splits after it decodes to the longer path. */
  lemma PrependSplit(v: BitVec, sub: BitVec, offset: nat, split: nat, path: seq<nat>)
    requires offset <= split && split - offset < CAPACITY
    requires Elems(v) == {split - offset} + Elems(sub)
    requires Decode(sub, offset) == path
    requires forall x :: x in path ==> split < x
    ensures Decode(v, offset) == [split] + path
  {
    DecodeSpec(sub, offset);
    var p := [split] + path;
    forall i, j | 0 <= i < j < |p| ensures p[i] < p[j] {
      if i > 0 {
        assert p[i] == path[i - 1] && p[j] == path[j - 1];
      } else {
        assert p[j] == path[j - 1] && path[j - 1] in path;
      }
    }
    DecodeIsSorted(v, offset, p);
  }

  /** The candidate whose first word is `start..mid` is built from the best outcome of `mid..end`. */
  lemma CandFromSuffix(seg: Segmenter, lg: real -> real, t: string, previous: Option<(nat, nat)>,
                       start: nat, mid: nat, end: nat)
    requires Ready(seg) && PrevOk(t, previous) && start < mid <= end <= |t| && mid - start <= seg.limit
    ensures Cand(seg, lg, t, previous, start, end, mid - start).score ==
      WordScore(seg, lg, t, previous, start, mid) + Best(seg, lg, t, Some((start, mid)), mid, end).score
    ensures Cand(seg, lg, t, previous, start, end, mid - start).path == [mid] + Best(seg, lg, t, Some((start, mid)), mid, end).path
    ensures forall x :: x in Best(seg, lg, t, Some((start, mid)), mid, end).path ==> mid < x
  {
    var rest := Best(seg, lg, t, Some((start, mid)), mid, end);
    BestIsPath(seg, lg, t, Some((start, mid)), mid, end);
    ValidPathShape(seg.limit, mid, end, rest.path);
  }

  /** Pushing every split of the best segmentation of a whole text pushes its words. */
  lemma WholePath(seg: Segmenter, lg: real -> real, text: string, limit: nat)
    requires Ready(seg) && limit >= |text|
    ensures Ascending(text, 0, Best(seg, lg, text, None, 0, |text|).path)
    ensures Min(|Best(seg, lg, text, None, 0, |text|).path|, limit) == |Best(seg, lg, text, None, 0, |text|).path|
    ensures FirstWords(text, 0, Best(seg, lg, text, None, 0, |text|).path, |Best(seg, lg, text, None, 0, |text|).path|)
      == Segmentation(seg, lg, text)
  {
    var path := Best(seg, lg, text, None, 0, |text|).path;
    BestIsPath(seg, lg, text, None, 0, |text|);
    ValidPathAscending(text, seg.limit, 0, |text|, path);
    FirstWordsPrefix(text, 0, path, |path|);
    assert path[..|path|] == path;
  }

  /** `struct SegmentState`: the segmenter, the text, the reused `Search` and the window offset. */
  class SegmentState {
    const data: Segmenter
    const lg: real -> real
    const text: string
    const search: Search
    var offset: nat

    /**
     * A memo entry `(a, b, c) ↦ (score, bits)` holds the outcome of the search of
     * `offset + b..offset + c` after the word `offset + a..offset + b`.
     */
    ghost predicate Entry(key: Key, value: (real, BitVec))
      reads this
    {
      && Ready(data)
      && key.0 < key.1 <= key.2 <= SEGMENT_SIZE && offset + key.2 <= |text|
      && value.0 == Best(data, lg, text, Some((offset + key.0, offset + key.1)), offset + key.1, offset + key.2).score
      && Decode(value.1, offset) == Best(data, lg, text, Some((offset + key.0, offset + key.1)), offset + key.1, offset + key.2).path
    }

    ghost predicate Valid()
      reads this, search`memo
    {
      && search.Valid()
      && offset <= |text|
      && forall key :: key in search.memo ==> Entry(key, search.memo[key])
    }

    /** `SegmentState::new`: clears the `Search` and starts at offset 0. */
    constructor (text: Ascii, data: Segmenter, lg: real -> real, search: Search)
      requires search.Valid()
      modifies search, search.best
      ensures this.text == text.bytes && this.data == data && this.lg == lg && this.search == search
      ensures offset == 0 && Valid()
      ensures search.memo == map[] && search.result == []
      ensures forall i :: 0 <= i < search.best.Length ==> Elems(search.best[i]) == {}
    {
      search.Clear();
      this.data := data;
      this.lg := lg;
      this.text := text.bytes;
      this.search := search;
      offset := 0;
    }

    /**
     * `SegmentState::search`: returns the best score of `start..end` after `previous` and
     * leaves its splits in `best[level]`, touching no lower level and only adding to the memo.
     */
    method Search(level: nat, start: nat, end: nat, previous: Option<(nat, nat)>) returns (score: real)
      requires Valid() && Ready(data) && PrevOk(text, previous)
      requires offset <= start <= end <= |text| && end - offset <= SEGMENT_SIZE && level <= start - offset
      modifies search`memo, search.best
      ensures Valid()
      ensures score == Best(data, lg, text, previous, start, end).score
      ensures Decode(search.best[level], offset) == Best(data, lg, text, previous, start, end).path
      ensures forall j :: 0 <= j < level ==> search.best[j] == old(search.best[j])
      ensures forall key :: key in old(search.memo) ==> key in search.memo && search.memo[key] == old(search.memo[key])
      decreases end - start, 2
    {
      if start == end {
        var cleared := BitVecs.Clear(search.best[level]);
        search.best[level] := cleared;
        DecodeEmpty(cleared, offset);
        return 0.0;
      }

      var n := Min(end - start, data.limit);
      var best: Option<real> := None;
      ghost var acc: Option<Outcome> := None;
      var split := 1;
      while split <= n
        invariant 1 <= split <= n + 1 && n == MaxSplit(data.limit, start, end)
        invariant Valid()
        invariant split == 1 <==> acc.None?
        invariant best.None? <==> acc.None?
        invariant acc.Some? ==> best == Some(acc.value.score) && Decode(search.best[level], offset) == acc.value.path
        invariant Scan(data, lg, text, previous, start, end, split, acc) == Best(data, lg, text, previous, start, end)
        invariant forall j :: 0 <= j < level ==> search.best[j] == old(search.best[j])
        invariant forall key :: key in old(search.memo) ==> key in search.memo && search.memo[key] == old(search.memo[key])
      {
        ScanStep(data, lg, text, previous, start, end, split, acc);
        best, acc := Consider(level, start, end, previous, split, best, acc);
        split := split + 1;
      }
      score := best.value;
    }

    /**
     * One round of the loop of `search`: scores the first word `start..start + split` after
     * `previous`, adds the best score of the rest, and keeps the candidate in `best[level]`
     * when it beats the best so far.
     */
    method Consider(level: nat, start: nat, end: nat, previous: Option<(nat, nat)>, split: nat,
                    best: Option<real>, ghost acc: Option<Outcome>)
      returns (best': Option<real>, ghost acc': Option<Outcome>)
      requires Valid() && Ready(data) && PrevOk(text, previous)
      requires offset <= start < end <= |text| && end - offset <= SEGMENT_SIZE && level <= start - offset
      requires 1 <= split <= MaxSplit(data.limit, start, end)
      requires best.None? <==> acc.None?
      requires acc.Some? ==> best == Some(acc.value.score) && Decode(search.best[level], offset) == acc.value.path
      modifies search`memo, search.best
      ensures Valid()
      ensures acc' == Keep(acc, Cand(data, lg, text, previous, start, end, split))
      ensures best' == Some(acc'.value.score) && Decode(search.best[level], offset) == acc'.value.path
      ensures forall j :: 0 <= j < level ==> search.best[j] == old(search.best[j])
      ensures forall key :: key in old(search.memo) ==> key in search.memo && search.memo[key] == old(search.memo[key])
      decreases end - start, 1
    {
      var s := start + split;
      var previousWord := if previous.Some? then Some(text[previous.value.0..previous.value.1]) else None;
      var prefixScore := lg(Score(data, text[start..s], previousWord));
      var suffixScore, suffixSplits := Suffix(level, start, s, end);
      CandFromSuffix(data, lg, text, previous, start, s, end);
      ghost var c := Cand(data, lg, text, previous, start, end, split);
      var score := prefixScore + suffixScore;
      best' := best;
      if best.None? || score > best.value {
        best' := Some(score);
        Record(level, s, suffixSplits, c.path[1..]);
      }
      acc' := Keep(acc, c);
    }

    /**
     * The memo lookup of `search`: the outcome of `split..end` after `start..split`, from the
     * memo when the key is there, otherwise searched at `level + 1` and then stored.
     */
    method Suffix(level: nat, start: nat, split: nat, end: nat) returns (suffixScore: real, suffixSplits: BitVec)
      requires Valid() && Ready(data)
      requires offset <= start < split <= end <= |text| && end - offset <= SEGMENT_SIZE && level <= start - offset
      modifies search`memo, search.best
      ensures Valid()
      ensures suffixScore == Best(data, lg, text, Some((start, split)), split, end).score
      ensures Decode(suffixSplits, offset) == Best(data, lg, text, Some((start, split)), split, end).path
      ensures forall j :: 0 <= j <= level ==> search.best[j] == old(search.best[j])
      ensures forall key :: key in old(search.memo) ==> key in search.memo && search.memo[key] == old(search.memo[key])
      decreases end - start, 0
    {
      var key := (AsU8(start - offset), AsU8(split - offset), AsU8(end - offset));
      if key in search.memo {
        suffixScore, suffixSplits := search.memo[key].0, search.memo[key].1;
        assert Entry(key, search.memo[key]);
      } else {
        suffixScore := Search(level + 1, split, end, Some((start, split)));
        suffixSplits := search.best[level + 1];
        search.memo := search.memo[key := (suffixScore, suffixSplits)];
      }
    }

    /** `new_splits.clear(); new_splits.set(split - offset); *new_splits |= suffix_splits` on `best[level]`. */
    method Record(level: nat, split: nat, suffixSplits: BitVec, ghost path: seq<nat>)
      requires search.Valid() && level < LEVELS && offset <= split && split - offset < CAPACITY
      requires Decode(suffixSplits, offset) == path && forall x :: x in path ==> split < x
      modifies search.best
      ensures Decode(search.best[level], offset) == [split] + path
      ensures forall j :: 0 <= j < LEVELS && j != level ==> search.best[j] == old(search.best[j])
    {
      var bits := BitVecs.Clear(search.best[level]);
      bits := SetBit(bits, split - offset);
      bits := Union(bits, suffixSplits);
      search.best[level] := bits;
      PrependSplit(bits, suffixSplits, offset, split, path);
    }

    /**
     * `SegmentState::run` on a text of at most one window: one search over the whole text,
     * then one word per decoded split pushed onto the result.
     */
    method Run()
      requires Valid() && Ready(data) && |text| <= SEGMENT_SIZE && offset == 0
      modifies this, search, search.best
      ensures search.result == old(search.result) + Segmentation(data, lg, text)
    {
      var start: nat := 0;
      var end: nat := 0;
      while end < |text|
        invariant Valid() && offset == 0
        invariant end == 0 || end == |text|
        invariant end == 0 ==> start == 0 && search.result == old(search.result)
        invariant end == |text| ==> search.result == old(search.result) + Segmentation(data, lg, text)
        decreases |text| - end
      {
        end := Min(|text|, end + SEGMENT_SIZE);
        offset := start;
        var _ := Search(0, start, end, None);

        var limit: int := USIZE_MAX;
        if end < |text| {
          limit := 5;
        }

        assert start == 0 && end == |text| && search.result == old(search.result);
        ghost var path := Best(data, lg, text, None, 0, |text|).path;
        WholePath(data, lg, text, limit);
        start := PushSplits(search, text, search.best[0], offset, start, limit, path);
      }
    }
  }

  /**
   * The loop `for split in best[0].decode(offset).take(limit)` of `SegmentState::run`: pushes
   * the word `text[start..split]` for each of the first `limit` splits and moves `start` to
   * the split. Decoding changes nothing but the iterator, so the splits are collected first
   * and the first `limit` of them taken.
   */
  method PushSplits(search: Search, text: string, bits: BitVec, offset: nat, start: nat, limit: nat, ghost path: seq<nat>)
    returns (last: nat)
    requires Decode(bits, offset) == path && Ascending(text, start, path)
    modifies search`result
    ensures search.result == old(search.result) + FirstWords(text, start, path, Min(|path|, limit))
    ensures last == SplitBefore(start, path, Min(|path|, limit))
  {
    var splits := Collect(bits, offset);
    assert splits == path;
    var n := Min(|splits|, limit);
    last := start;
    for i := 0 to n
      invariant last == SplitBefore(start, path, i)
      invariant search.result == old(search.result) + FirstWords(text, start, path, i)
    {
      PushStep(text, start, path, i);
      var word := text[last..splits[i]];
      AppendAssoc(old(search.result), FirstWords(text, start, path, i), [word]);
      search.result := search.result + [word];
      last := splits[i];
    }
  }

  /** One word pushed: the `i`-th split follows the previous one, and its word extends `FirstWords`. */
  lemma PushStep(text: string, start: nat, path: seq<nat>, i: nat)
    requires Ascending(text, start, path) && i < |path|
    ensures SplitBefore(start, path, i) < path[i] <= |text|
    ensures SplitBefore(start, path, i + 1) == path[i]
    ensures FirstWords(text, start, path, i + 1) ==
      FirstWords(text, start, path, i) + [text[SplitBefore(start, path, i)..path[i]]]
  {
  }

  /**
   * `Segmenter::segment` for inputs of at most one window: fails exactly on a character that is
   * not a lowercase ASCII letter, leaving the `Search` untouched, and otherwise returns the
   * words of the best segmentation, whatever the `Search` held before.
   */
  method Segment(seg: Segmenter, lg: real -> real, input: string, search: Search) returns (r: Result<seq<string>, InvalidCharacter>)
    requires Ready(seg) && search.Valid() && |input| <= SEGMENT_SIZE
    modifies search, search.best
    ensures search.Valid()
    ensures r.Failure? <==> exists i :: 0 <= i < |input| && !IsLower(input[i])
    ensures r.Failure? ==> search.memo == old(search.memo) && search.result == old(search.result)
    ensures r.Failure? ==> forall i :: 0 <= i < search.best.Length ==> search.best[i] == old(search.best[i])
    ensures r.Success? ==> r.value == search.result == Segmentation(seg, lg, input)
  {
    var text := NewAscii(input);
    if text.Failure? {
      return Failure(text.error);
    }
    var state := new SegmentState(text.value, seg, lg, search);
    state.Run();
    return Success(search.result);
  }
}
