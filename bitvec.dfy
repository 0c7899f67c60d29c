/**
 * The split set of the current engine (instant-segment/src/lib.rs, `BitVec` and `Splits`):
 * a fixed array of four 64-bit words covering the positions 0..256.
 *
 * Position `b` lives in word `3 - b / 64`, at bit `b % 64`, so the words are stored in
 * reverse order of the positions they cover. Each `u64` word is modelled by its 64 bits
 * (`w[j]` is the bit of weight 2^j), which is all the engine ever observes of it: it sets
 * a bit, ors words together, compares a word with zero, counts trailing zeros and clears
 * the lowest set bit.
 */
module BitVecs {
  import opened Wrappers

  const WORD_BITS: nat := 64
  /** Number of positions a `BitVec` can hold (four words of 64 bits). */
  const CAPACITY: nat := 256

  /** Four words; `BitVec` below is the subset whose words all have 64 bits. */
  datatype BitVecRepr = BitVec(words: seq<seq<bool>>)

  /** `struct BitVec([u64; 4])`, a `Copy` value. */
  type BitVec = v: BitVecRepr | |v.words| == 4 && forall k :: 0 <= k < 4 ==> |v.words[k]| == WORD_BITS
    witness BitVec([Zero(), Zero(), Zero(), Zero()])

  /** The word 0u64. */
  function Zero(): (w: seq<bool>)
    ensures |w| == WORD_BITS
  {
    seq(64, _ => false)
  }

  /** `BitVec::default()`: all four words zero. */
  function Empty(): BitVec { BitVec([Zero(), Zero(), Zero(), Zero()]) }

  /** The bitwise or of two words (`u64 | u64`). */
  function Or(a: seq<bool>, b: seq<bool>): (c: seq<bool>)
    requires |a| == |b| == WORD_BITS
    ensures |c| == WORD_BITS
    ensures forall j :: 0 <= j < 64 ==> c[j] == (a[j] || b[j])
  {
    seq(64, j requires 0 <= j < 64 => a[j] || b[j])
  }

  /** The word that holds position `b`: `3 - b / 64`. */
  function WordOf(b: nat): (idx: nat)
    requires b < CAPACITY
    ensures idx <= 3
  {
    if b < 64 then 3 else if b < 128 then 2 else if b < 192 then 1 else 0
  }

  /** The bit of its word that holds position `b`: `b % 64`. */
  function BitOf(b: nat): (j: nat)
    requires b < CAPACITY
    ensures j < 64 && b == 64 * (3 - WordOf(b)) + j
  {
    b - 64 * (3 - WordOf(b))
  }

  /** Whether position `b` is marked. */
  predicate Has(v: BitVec, b: nat)
    requires b < CAPACITY
  {
    v.words[WordOf(b)][BitOf(b)]
  }

  /** The abstract value of a split set: the set of marked positions. */
  ghost function Elems(v: BitVec): set<nat>
  {
    set b: nat | b < CAPACITY && Has(v, b)
  }

  lemma EmptyHasNothing()
    ensures Elems(Empty()) == {}
  {
    forall b: nat | b < CAPACITY ensures !Has(Empty(), b) { }
  }

  /** `BitVec::set`: the loop walks `idx` down from word 3 while `bit` is above 63. */
  method SetBit(v: BitVec, b: nat) returns (r: BitVec)
    requires b < CAPACITY
    ensures Elems(r) == Elems(v) + {b}
  {
    var bit: nat := b;
    var idx: nat := 3;
    while bit > 63
      invariant 0 <= idx <= 3
      invariant bit + 64 * (3 - idx) == b
    {
      idx := idx - 1;
      bit := bit - 64;
    }
    assert WordOf(b) == idx && BitOf(b) == bit;
    r := BitVec(v.words[idx := v.words[idx][bit := true]]);
    forall q: nat | q < CAPACITY
      ensures Has(r, q) <==> Has(v, q) || q == b
    {
      if WordOf(q) == idx && BitOf(q) == bit {
        assert q == b;
      }
    }
  }

  /** `BitVec::clear`: every word is set to zero. */
  method Clear(v: BitVec) returns (r: BitVec)
    ensures Elems(r) == {}
  {
    var ws := v.words;
    for i := 0 to 4
      invariant |ws| == 4
      invariant forall k :: 0 <= k < i ==> ws[k] == Zero()
    {
      ws := ws[i := Zero()];
    }
    r := BitVec(ws);
    forall q: nat | q < CAPACITY ensures !Has(r, q) { }
  }

  /** `impl BitOrAssign for BitVec`: each word of `v` is or-ed with the same word of `rhs`. */
  method Union(v: BitVec, rhs: BitVec) returns (r: BitVec)
    ensures Elems(r) == Elems(v) + Elems(rhs)
  {
    var ws := v.words;
    for i := 0 to 4
      invariant |ws| == 4
      invariant forall k :: 0 <= k < i ==> ws[k] == Or(v.words[k], rhs.words[k])
      invariant forall k :: i <= k < 4 ==> ws[k] == v.words[k]
    {
      ws := ws[i := Or(ws[i], rhs.words[i])];
    }
    r := BitVec(ws);
    forall q: nat | q < CAPACITY
      ensures Has(r, q) <==> Has(v, q) || Has(rhs, q)
    {
    }
  }

  /** Strictly ascending order of a sequence of positions. */
  ghost predicate StrictlyIncreasing(s: seq<nat>)
  {
    forall i, j :: 0 <= i < j < |s| ==> s[i] < s[j]
  }

  /** The positions `base + j`, for the set bits `j` of word `w`, lowest bit first. */
  function DecodeWord(w: seq<bool>, base: nat): seq<nat>
  {
    if w == [] then [] else (if w[0] then [base] else []) + DecodeWord(w[1..], base + 1)
  }

  /**
   * Words `k`, `k - 1`, ..., `0` decoded in turn, the order in which `Splits` visits them;
   * word `k` covers the positions from `offset + 64 * (3 - k)` up.
   */
  function DecodeWords(v: BitVec, offset: nat, k: nat): seq<nat>
    requires k <= 3
  {
    DecodeWord(v.words[k], offset + 64 * (3 - k)) + (if k == 0 then [] else DecodeWords(v, offset, k - 1))
  }

  /** `BitVec::decode(offset)` collected into a sequence. */
  function Decode(v: BitVec, offset: nat): seq<nat>
  {
    DecodeWords(v, offset, 3)
  }

  lemma ConcatIncreasing(a: seq<nat>, b: seq<nat>)
    requires StrictlyIncreasing(a) && StrictlyIncreasing(b)
    requires forall x, y :: x in a && y in b ==> x < y
    ensures StrictlyIncreasing(a + b)
  {
    var s := a + b;
    forall i, j | 0 <= i < j < |s| ensures s[i] < s[j] {
      if j < |a| {
        assert s[i] == a[i] && s[j] == a[j];
      } else if i < |a| {
        assert s[i] == a[i] && a[i] in a;
        assert s[j] == b[j - |a|] && b[j - |a|] in b;
      } else {
        assert s[i] == b[i - |a|] && s[j] == b[j - |a|];
      }
    }
  }

  /** A word decodes to exactly its set bits, shifted by `base`, in ascending order. */
  lemma {:induction false} DecodeWordSpec(w: seq<bool>, base: nat)
    ensures StrictlyIncreasing(DecodeWord(w, base))
    ensures forall x :: x in DecodeWord(w, base) <==> base <= x < base + |w| && w[x - base]
    decreases |w|
  {
    if w != [] {
      DecodeWordSpec(w[1..], base + 1);
      var head: seq<nat> := if w[0] then [base] else [];
      ConcatIncreasing(head, DecodeWord(w[1..], base + 1));
      forall j | 0 <= j < |w| - 1 ensures w[1..][j] == w[j + 1] { }
    }
  }

  /** Bit `j` of word `k` is position `64 * (3 - k) + j`. */
  lemma HasInWord(v: BitVec, k: nat, j: nat)
    requires k <= 3 && j < 64
    ensures Has(v, 64 * (3 - k) + j) == v.words[k][j]
  {
    assert WordOf(64 * (3 - k) + j) == k;
  }

  /** Words `k` down to `0` decode to positions from `64 * (3 - k)` up, ascending. */
  lemma {:induction false} DecodeWordsIncreasing(v: BitVec, offset: nat, k: nat)
    requires k <= 3
    ensures StrictlyIncreasing(DecodeWords(v, offset, k))
    ensures forall x :: x in DecodeWords(v, offset, k) ==> offset + 64 * (3 - k) <= x < offset + CAPACITY
    decreases k
  {
    var base := offset + 64 * (3 - k);
    DecodeWordSpec(v.words[k], base);
    if k > 0 {
      DecodeWordsIncreasing(v, offset, k - 1);
      ConcatIncreasing(DecodeWord(v.words[k], base), DecodeWords(v, offset, k - 1));
    }
  }

  /** Words `k` down to `0` decode to exactly the marked positions from `64 * (3 - k)` up. */
  lemma {:induction false} DecodeWordsMembers(v: BitVec, offset: nat, k: nat)
    requires k <= 3
    ensures forall x :: x in DecodeWords(v, offset, k) <==>
      offset + 64 * (3 - k) <= x < offset + CAPACITY && Has(v, x - offset)
    decreases k
  {
    var base := offset + 64 * (3 - k);
    var head, rest := DecodeWord(v.words[k], base), LowerWords(v, offset, k);
    DecodeWordsUnfold(v, offset, k);
    DecodeWordHas(v, offset, k, base);
    if k > 0 {
      DecodeWordsMembers(v, offset, k - 1);
      assert offset + 64 * (3 - (k - 1)) == base + 64;
    }
    assert forall x :: x in rest <==> base + 64 <= x < offset + CAPACITY && Has(v, x - offset);
    forall x ensures x in head + rest <==> base <= x < offset + CAPACITY && Has(v, x - offset) {
      assert x in head + rest <==> x in head || x in rest;
    }
  }

  /** Word `k` decodes to exactly the marked positions it covers. */
  lemma DecodeWordHas(v: BitVec, offset: nat, k: nat, base: nat)
    requires k <= 3 && base == offset + 64 * (3 - k)
    ensures forall x :: x in DecodeWord(v.words[k], base) <==> base <= x < base + 64 && Has(v, x - offset)
  {
    DecodeWordSpec(v.words[k], base);
    forall x ensures x in DecodeWord(v.words[k], base) <==> base <= x < base + 64 && Has(v, x - offset) {
      if base <= x < base + 64 {
        HasInWord(v, k, x - base);
        assert x - offset == 64 * (3 - k) + (x - base);
      }
    }
  }

  /**
   * `decode(offset)` yields `offset + b` for exactly the marked `b`, each once, in strictly
   * ascending order.
   */
  lemma DecodeSpec(v: BitVec, offset: nat)
    ensures StrictlyIncreasing(Decode(v, offset))
    ensures forall x :: x in Decode(v, offset) <==> x >= offset && x - offset in Elems(v)
  {
    DecodeWordsIncreasing(v, offset, 3);
    DecodeWordsMembers(v, offset, 3);
  }

  /** A sequence with the same elements as a non-empty one is non-empty. */
  lemma SharesHead(a: seq<nat>, b: seq<nat>)
    requires forall x :: x in a ==> x in b
    requires a != []
    ensures b != []
  {
    assert a[0] in a;
  }

  /** Two strictly increasing sequences with the same elements are equal. */
  lemma {:induction false} SortedUnique(a: seq<nat>, b: seq<nat>)
    requires StrictlyIncreasing(a) && StrictlyIncreasing(b)
    requires forall x :: x in a <==> x in b
    ensures a == b
    decreases |a|
  {
    if a != [] {
      SharesHead(a, b);
    }
    if b != [] {
      SharesHead(b, a);
    }
    if a != [] && b != [] {
      // both heads are the least common element
      assert a[0] in a && b[0] in b;
      var i :| 0 <= i < |b| && b[i] == a[0];
      var j :| 0 <= j < |a| && a[j] == b[0];
      assert b[0] <= b[i] && a[0] <= a[j];
      TailIn(a, b);
      TailIn(b, a);
      SortedUnique(a[1..], b[1..]);
      assert a == [a[0]] + a[1..] && b == [b[0]] + b[1..];
    }
  }

  /** With equal heads, every later element of `a` is a later element of `b`. */
  lemma TailIn(a: seq<nat>, b: seq<nat>)
    requires StrictlyIncreasing(a) && a != [] && b != [] && a[0] == b[0]
    requires forall x :: x in a ==> x in b
    ensures forall x :: x in a[1..] ==> x in b[1..]
  {
    forall x | x in a[1..] ensures x in b[1..] {
      var i :| 0 <= i < |a| - 1 && a[1..][i] == x;
      assert a[0] < a[i + 1] && a[i + 1] == x && x in a;
      var k :| 0 <= k < |b| && b[k] == x;
      assert k != 0 && b[1..][k - 1] == x;
    }
  }

  /** The decoded sequence of a split set is determined by its elements. */
  lemma DecodeIsSorted(v: BitVec, offset: nat, s: seq<nat>)
    requires StrictlyIncreasing(s)
    requires forall x :: x in s <==> x >= offset && x - offset in Elems(v)
    ensures Decode(v, offset) == s
  {
    DecodeSpec(v, offset);
    SortedUnique(Decode(v, offset), s);
  }

  /** An empty split set decodes to nothing, whatever the offset (the first vector of the unit test). */
  lemma DecodeEmpty(e: BitVec, offset: nat)
    requires Elems(e) == {}
    ensures Decode(e, offset) == []
  {
    DecodeIsSorted(e, offset, []);
  }

  /**
   * The unit test of `BitVec` (instant-segment/src/lib.rs:323-348): the vector is built with
   * `set` and `|=`, and `decode(offset).collect()` is taken after each step.
   */
  method DecodeExamples() returns (none: seq<nat>, one: seq<nat>, shifted: seq<nat>, twoWords: seq<nat>,
                                   lastBit: seq<nat>, union: seq<nat>)
    ensures none == [] && one == [1] && shifted == [11, 15] && twoWords == [1, 5, 64]
    ensures lastBit == [1, 5, 64, 255] && union == [1, 3, 5, 16, 64, 128, 255]
  {
    EmptyHasNothing();
    var splits := Empty();
    none := Collect(splits, 0);
    DecodeEmpty(splits, 0);

    var next := SetBit(splits, 1);
    DecodeOne(splits, next);
    splits := next;
    one := Collect(splits, 0);

    next := SetBit(splits, 5);
    DecodeShifted(splits, next);
    splits := next;
    shifted := Collect(splits, 10);

    next := SetBit(splits, 64);
    DecodeTwoWords(splits, next);
    splits := next;
    twoWords := Collect(splits, 0);

    next := SetBit(splits, 255);
    DecodeLastBit(splits, next);
    splits := next;
    lastBit := Collect(splits, 0);

    var a := SetBit(Empty(), 3);
    var b := SetBit(a, 16);
    var c := SetBit(b, 128);
    OtherBits(a, b, c);
    next := Union(splits, c);
    DecodeUnion(splits, c, next);
    union := Collect(next, 0);
  }

  lemma DecodeOne(v: BitVec, w: BitVec)
    requires Elems(v) == {} && Elems(w) == Elems(v) + {1}
    ensures Elems(w) == {1} && Decode(w, 0) == [1]
  {
    assert Elems(w) == {1};
    DecodeIsSorted(w, 0, [1]);
  }

  lemma DecodeShifted(v: BitVec, w: BitVec)
    requires Elems(v) == {1} && Elems(w) == Elems(v) + {5}
    ensures Elems(w) == {1, 5} && Decode(w, 10) == [11, 15]
  {
    assert Elems(w) == {1, 5};
    DecodeIsSorted(w, 10, [11, 15]);
  }

  lemma DecodeTwoWords(v: BitVec, w: BitVec)
    requires Elems(v) == {1, 5} && Elems(w) == Elems(v) + {64}
    ensures Elems(w) == {1, 5, 64} && Decode(w, 0) == [1, 5, 64]
  {
    assert Elems(w) == {1, 5, 64};
    DecodeIsSorted(w, 0, [1, 5, 64]);
  }

  lemma DecodeLastBit(v: BitVec, w: BitVec)
    requires Elems(v) == {1, 5, 64} && Elems(w) == Elems(v) + {255}
    ensures Elems(w) == {1, 5, 64, 255} && Decode(w, 0) == [1, 5, 64, 255]
  {
    assert Elems(w) == {1, 5, 64, 255};
    DecodeIsSorted(w, 0, [1, 5, 64, 255]);
  }

  lemma OtherBits(a: BitVec, b: BitVec, c: BitVec)
    requires Elems(a) == Elems(Empty()) + {3} && Elems(b) == Elems(a) + {16} && Elems(c) == Elems(b) + {128}
    ensures Elems(c) == {3, 16, 128}
  {
    EmptyHasNothing();
  }

  lemma DecodeUnion(v: BitVec, other: BitVec, w: BitVec)
    requires Elems(v) == {1, 5, 64, 255} && Elems(other) == {3, 16, 128} && Elems(w) == Elems(v) + Elems(other)
    ensures Decode(w, 0) == [1, 3, 5, 16, 64, 128, 255]
  {
    assert Elems(w) == {1, 3, 5, 16, 64, 128, 255};
    DecodeIsSorted(w, 0, [1, 3, 5, 16, 64, 128, 255]);
  }

  /** `u64::trailing_zeros` of a non-zero word: the index of its lowest set bit. */
  function TrailingZeros(w: seq<bool>): (t: nat)
    requires |w| == WORD_BITS && w != Zero()
    ensures t < 64 && w[t]
    ensures forall j :: 0 <= j < t ==> !w[j]
  {
    assert exists i :: 0 <= i < 64 && w[i];
    LowestFrom(w, 0)
  }

  function LowestFrom(w: seq<bool>, j: nat): (t: nat)
    requires |w| == WORD_BITS && j <= 64
    requires exists i :: j <= i < 64 && w[i]
    requires forall i :: 0 <= i < j ==> !w[i]
    ensures j <= t < 64 && w[t]
    ensures forall i :: 0 <= i < t ==> !w[i]
    decreases 64 - j
  {
    if w[j] then j else LowestFrom(w, j + 1)
  }

  /** A word with no set bit decodes to nothing. */
  lemma {:induction false} DecodeWordNone(w: seq<bool>, base: nat)
    requires forall j :: 0 <= j < |w| ==> !w[j]
    ensures DecodeWord(w, base) == []
    decreases |w|
  {
    if w != [] {
      DecodeWordNone(w[1..], base + 1);
    }
  }

  /**
   * Clearing the lowest set bit `t` of a word (`vec[idx] -= 1 << t`) removes exactly the
   * first decoded position, `base + t`.
   */
  lemma {:induction false} DecodeWordLowest(w: seq<bool>, base: nat, t: nat)
    requires t < |w| && w[t]
    requires forall j :: 0 <= j < t ==> !w[j]
    ensures DecodeWord(w, base) == [base + t] + DecodeWord(w[t := false], base)
    decreases t
  {
    if t > 0 {
      DecodeWordLowest(w[1..], base + 1, t - 1);
      assert w[t := false][1..] == w[1..][t - 1 := false];
    } else {
      assert w[t := false][1..] == w[1..];
    }
  }

  /** Zero words above `idx` contribute nothing to the decoded sequence. */
  lemma {:induction false} DropZeroWords(v: BitVec, offset: nat, k: nat, idx: nat)
    requires idx <= k <= 3
    requires forall j :: idx < j <= k ==> v.words[j] == Zero()
    ensures DecodeWords(v, offset, k) == DecodeWords(v, offset, idx)
    decreases k - idx
  {
    if idx < k {
      DecodeWordNone(v.words[k], offset + 64 * (3 - k));
      DropZeroWords(v, offset, k - 1, idx);
    }
  }

  /** Words `k` down to `0` alone determine `DecodeWords(_, _, k)`. */
  lemma {:induction false} DecodeWordsFrame(v: BitVec, u: BitVec, offset: nat, k: nat)
    requires k <= 3
    requires forall j :: 0 <= j <= k ==> v.words[j] == u.words[j]
    ensures DecodeWords(v, offset, k) == DecodeWords(u, offset, k)
    decreases k
  {
    if k > 0 {
      DecodeWordsFrame(v, u, offset, k - 1);
    }
  }

  /** `vec[idx] -= 1 << t`: the vector with bit `t` of word `idx` cleared. */
  function ClearWordBit(v: BitVec, idx: nat, t: nat): (u: BitVec)
    requires idx <= 3 && t < 64
    ensures forall k :: 0 <= k < 4 && k != idx ==> u.words[k] == v.words[k]
    ensures u.words[idx] == v.words[idx][t := false]
  {
    BitVec(v.words[idx := v.words[idx][t := false]])
  }

  /** Once the words above `idx` are used up, clearing the lowest bit of word `idx` pops the head. */
  lemma NextStep(v: BitVec, offset: nat, idx: nat, t: nat)
    requires idx <= 3 && t < 64
    requires forall k :: idx < k < 4 ==> v.words[k] == Zero()
    requires v.words[idx][t] && forall j :: 0 <= j < t ==> !v.words[idx][j]
    ensures Decode(v, offset) == [offset + 64 * (3 - idx) + t] + Decode(ClearWordBit(v, idx, t), offset)
  {
    var u := ClearWordBit(v, idx, t);
    DropZeroWords(v, offset, 3, idx);
    DropZeroWords(u, offset, 3, idx);
    NextStepWord(v, offset, idx, t);
  }

  /** Clearing the lowest bit of word `idx` pops the head of the words from `idx` down. */
  lemma NextStepWord(v: BitVec, offset: nat, idx: nat, t: nat)
    requires idx <= 3 && t < 64
    requires v.words[idx][t] && forall j :: 0 <= j < t ==> !v.words[idx][j]
    ensures DecodeWords(v, offset, idx) ==
      [offset + 64 * (3 - idx) + t] + DecodeWords(ClearWordBit(v, idx, t), offset, idx)
  {
    DecodeWordsUnfold(v, offset, idx);
    ClearedUnfold(v, offset, idx, t);
    ClearedWordPops(v, offset, idx, t);
    PopHead(DecodeWords(v, offset, idx), DecodeWords(ClearWordBit(v, idx, t), offset, idx),
      DecodeWord(v.words[idx], offset + 64 * (3 - idx)),
      DecodeWord(ClearWordBit(v, idx, t).words[idx], offset + 64 * (3 - idx)),
      LowerWords(v, offset, idx), offset + 64 * (3 - idx) + t);
  }

  /** The cleared vector unfolds into its word `idx` and the unchanged lower words. */
  lemma ClearedUnfold(v: BitVec, offset: nat, idx: nat, t: nat)
    requires idx <= 3 && t < 64
    ensures DecodeWords(ClearWordBit(v, idx, t), offset, idx) ==
      DecodeWord(ClearWordBit(v, idx, t).words[idx], offset + 64 * (3 - idx)) + LowerWords(v, offset, idx)
  {
    DecodeWordsUnfold(ClearWordBit(v, idx, t), offset, idx);
    LowerWordsFrame(v, offset, idx, t);
  }

  /** The positions of the words below `idx`. */
  function LowerWords(v: BitVec, offset: nat, idx: nat): seq<nat>
    requires idx <= 3
  {
    if idx == 0 then [] else DecodeWords(v, offset, idx - 1)
  }

  /** Clearing a bit of word `idx` leaves the words below it alone. */
  lemma LowerWordsFrame(v: BitVec, offset: nat, idx: nat, t: nat)
    requires idx <= 3 && t < 64
    ensures LowerWords(ClearWordBit(v, idx, t), offset, idx) == LowerWords(v, offset, idx)
  {
    if idx > 0 {
      DecodeWordsFrame(v, ClearWordBit(v, idx, t), offset, idx - 1);
    }
  }

  /** Clearing the lowest set bit of word `idx` pops the head of its positions. */
  lemma ClearedWordPops(v: BitVec, offset: nat, idx: nat, t: nat)
    requires idx <= 3 && t < 64
    requires v.words[idx][t] && forall j :: 0 <= j < t ==> !v.words[idx][j]
    ensures DecodeWord(v.words[idx], offset + 64 * (3 - idx)) ==
      [offset + 64 * (3 - idx) + t] + DecodeWord(ClearWordBit(v, idx, t).words[idx], offset + 64 * (3 - idx))
  {
    DecodeWordLowest(v.words[idx], offset + 64 * (3 - idx), t);
  }

  lemma PopHead(dv: seq<nat>, du: seq<nat>, wv: seq<nat>, wu: seq<nat>, rest: seq<nat>, x: nat)
    requires dv == wv + rest && du == wu + rest && wv == [x] + wu
    ensures dv == [x] + du
  {
  }

  /** The first word decoded, followed by the lower ones. */
  lemma DecodeWordsUnfold(v: BitVec, offset: nat, k: nat)
    requires k <= 3
    ensures DecodeWords(v, offset, k) == DecodeWord(v.words[k], offset + 64 * (3 - k)) + LowerWords(v, offset, k)
  {
  }

  /** A vector whose words are all zero decodes to nothing. */
  lemma DecodeZero(v: BitVec, offset: nat)
    requires forall k :: 0 <= k < 4 ==> v.words[k] == Zero()
    ensures Decode(v, offset) == []
  {
    DropZeroWords(v, offset, 3, 0);
    DecodeWordNone(v.words[0], offset + 64 * 3);
  }

  /**
   * The iterator returned by `BitVec::decode`: a copy of the words, the offset, and the
   * index of the word being scanned, which goes from 3 (positions 0..64) down to 0.
   */
  class Splits {
    var vec: BitVec
    const offset: nat
    var idx: nat

    /** Words above `idx` cover lower positions and have been used up. */
    ghost predicate Valid()
      reads this
    {
      idx <= 3 && forall k :: idx < k < 4 ==> vec.words[k] == Zero()
    }

    /** The positions the iterator has still to yield. */
    ghost function Remaining(): seq<nat>
      reads this
    {
      Decode(vec, offset)
    }

    /** `BitVec::decode(offset)`. */
    constructor (v: BitVec, offset: nat)
      ensures Valid() && this.offset == offset
      ensures Remaining() == Decode(v, offset)
    {
      vec := v;
      this.offset := offset;
      idx := 3;
    }

    /** `Splits::next`: yields the lowest remaining position and removes it. */
    method Next() returns (r: Option<nat>)
      requires Valid()
      modifies this
      ensures Valid()
      ensures old(Remaining()) == [] ==> r == None && Remaining() == []
      ensures old(Remaining()) != [] ==>
        r == Some(old(Remaining())[0]) && Remaining() == old(Remaining())[1..]
    {
      while idx > 0 && vec.words[idx] == Zero()
        invariant Valid() && vec == old(vec)
      {
        idx := idx - 1;
      }
      var cur := vec.words[idx];
      if cur == Zero() {
        DecodeZero(vec, offset);
        return None;
      }
      var trailing := TrailingZeros(cur);
      r := Some(offset + (3 - idx) * 64 + trailing);
      NextStep(vec, offset, idx, trailing);
      var u := ClearWordBit(vec, idx, trailing);
      vec := u;
    }
  }

  /** `splits.decode(offset).collect::<Vec<_>>()`, driving the iterator to its end. */
  method Collect(v: BitVec, offset: nat) returns (xs: seq<nat>)
    ensures xs == Decode(v, offset)
  {
    var it := new Splits(v, offset);
    xs := [];
    while true
      invariant it.Valid()
      invariant xs + it.Remaining() == Decode(v, offset)
      decreases |it.Remaining()|
    {
      ghost var rem := it.Remaining();
      var next := it.Next();
      if next.None? {
        return;
      }
      MoveHead(xs, rem);
      xs := xs + [next.value];
    }
  }

  /** Moving the head of `rem` to the end of `xs` keeps their concatenation. */
  lemma MoveHead(xs: seq<nat>, rem: seq<nat>)
    requires rem != []
    ensures (xs + [rem[0]]) + rem[1..] == xs + rem
  {
    assert rem == [rem[0]] + rem[1..];
  }
}
