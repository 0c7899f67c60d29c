/**
 * How deep the recursion of `SegmentState::search` (instant-segment/src/lib.rs) goes, and so
 * which entries of `Search::best` it indexes.
 *
 * `Descend` follows the calls `search` makes as written: the empty range clears `best[level]`,
 * and each split whose memo key is missing recurses at `level + 1` and then records the key.
 * Scores do not decide which calls are made, so they are left out here. With `offset == 0`
 * the window-relative keys are the positions themselves.
 *
 * A window of `n` bytes reaches `best[n]`. The first window of a text of 250 bytes or more
 * is 250 bytes long, and `best` has `SEGMENT_SIZE == 250` entries, so `best[250]` is out of
 * bounds. The engine model gives `best` one entry more (`Engine.LEVELS`), which every window
 * fits.
 */
module SearchDepth {
  import Engine

  /** A memo key `(start, split, end)`. */
  type Key = (nat, nat, nat)

  function Max(a: nat, b: nat): nat {
    if a < b then b else a
  }

  /**
   * `search(level, start..end, _)` with the memo holding `memo`: the deepest index of `best`
   * it touches, and the memo keys afterwards.
   */
  function Descend(level: nat, start: nat, end: nat, limit: nat, memo: set<Key>): (r: (nat, set<Key>))
    requires start <= end
    ensures level <= r.0 && memo <= r.1
    decreases end - start, 1
  {
    if start == end then (level, memo)
    else Rounds(level, start, end, limit, 1, memo, level)
  }

  /**
   * The loop `for split in split..=min(len, limit)` of `search`, having touched indexes up to
   * `deepest` so far.
   */
  function Rounds(level: nat, start: nat, end: nat, limit: nat, split: nat, memo: set<Key>, deepest: nat)
    : (r: (nat, set<Key>))
    requires start < end && 1 <= split
    ensures deepest <= r.0 && memo <= r.1
    decreases end - start, 0, Engine.Min(end - start, limit) + 1 - split
  {
    if split > Engine.Min(end - start, limit) then (deepest, memo)
    else
      var key := (start, start + split, end);
      if key in memo then Rounds(level, start, end, limit, split + 1, memo, deepest)
      else
        var sub := Descend(level + 1, start + split, end, limit, memo);
        Rounds(level, start, end, limit, split + 1, sub.1 + {key}, Max(deepest, sub.0))
  }

  /** Every level `search` reaches is at most `level` plus the length of its range. */
  lemma {:induction false} DescendBounded(level: nat, start: nat, end: nat, limit: nat, memo: set<Key>)
    requires start <= end
    ensures Descend(level, start, end, limit, memo).0 <= level + (end - start)
    decreases end - start, 1
  {
    if start < end {
      RoundsBounded(level, start, end, limit, 1, memo, level);
    }
  }

  lemma {:induction false} RoundsBounded(level: nat, start: nat, end: nat, limit: nat, split: nat,
                                         memo: set<Key>, deepest: nat)
    requires start < end && 1 <= split && deepest <= level + (end - start)
    ensures Rounds(level, start, end, limit, split, memo, deepest).0 <= level + (end - start)
    decreases end - start, 0, Engine.Min(end - start, limit) + 1 - split
  {
    if split <= Engine.Min(end - start, limit) {
      var key := (start, start + split, end);
      if key in memo {
        RoundsBounded(level, start, end, limit, split + 1, memo, deepest);
      } else {
        var sub := Descend(level + 1, start + split, end, limit, memo);
        DescendBounded(level + 1, start + split, end, limit, memo);
        RoundsBounded(level, start, end, limit, split + 1, sub.1 + {key}, Max(deepest, sub.0));
      }
    }
  }

  /**
   * With no memo key starting at or after `start`, the first split of every nested search is
   * a memo miss, so the chain of one-byte words reaches `level + (end - start)`.
   */
  lemma {:induction false} DescendReaches(level: nat, start: nat, end: nat, limit: nat, memo: set<Key>)
    requires start <= end && 1 <= limit
    requires forall key :: key in memo ==> key.0 < start
    ensures Descend(level, start, end, limit, memo).0 == level + (end - start)
    decreases end - start
  {
    DescendBounded(level, start, end, limit, memo);
    if start < end {
      var key := (start, start + 1, end);
      assert key !in memo;
      var sub := Descend(level + 1, start + 1, end, limit, memo);
      DescendReaches(level + 1, start + 1, end, limit, memo);
      assert Descend(level, start, end, limit, memo) ==
        Rounds(level, start, end, limit, 2, sub.1 + {key}, Max(level, sub.0));
    }
  }

  /**
   * As written: the first window of a text of `len >= SEGMENT_SIZE` bytes, searched from an
   * empty memo (`new` clears it), indexes `best[SEGMENT_SIZE]`, one past the last entry of
   * `best: [BitVec; SEGMENT_SIZE]`, so `segment` panics.
   */
  lemma FullWindowOverruns(len: nat, limit: nat)
    requires len >= Engine.SEGMENT_SIZE && 1 <= limit
    ensures Descend(0, 0, Engine.Min(len, Engine.SEGMENT_SIZE), limit, {}).0 == Engine.SEGMENT_SIZE
  {
    DescendReaches(0, 0, Engine.Min(len, Engine.SEGMENT_SIZE), limit, {});
  }

  /** As written, a text shorter than a window stays inside `best`: the deepest index is its length. */
  lemma ShortTextFits(len: nat, limit: nat)
    requires len < Engine.SEGMENT_SIZE && 1 <= limit
    ensures Descend(0, 0, len, limit, {}).0 == len < Engine.SEGMENT_SIZE
  {
    DescendReaches(0, 0, len, limit, {});
  }

  /**
   * Corrected: with `LEVELS == SEGMENT_SIZE + 1` entries in `best`, every window of at most
   * `SEGMENT_SIZE` bytes stays in bounds, whatever the memo holds.
   */
  lemma WindowFitsLevels(n: nat, limit: nat, memo: set<Key>)
    requires n <= Engine.SEGMENT_SIZE
    ensures Descend(0, 0, n, limit, memo).0 < Engine.LEVELS
  {
    DescendBounded(0, 0, n, limit, memo);
  }
}
