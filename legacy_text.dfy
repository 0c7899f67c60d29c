/**
 * Text handling of the earlier engine (src/lib.rs): `clean`, which reduces any input to
 * lowercase ASCII letters and digits, and `TextDivider`, which yields every split of a
 * text into a non-empty prefix of at most `limit` characters and the rest.
 */
module LegacyText {
  import opened Wrappers

  /** `char::is_ascii_alphanumeric`. */
  predicate IsAlnum(c: char) {
    'a' <= c <= 'z' || 'A' <= c <= 'Z' || '0' <= c <= '9'
  }

  /** `char::to_ascii_lowercase`. */
  function ToLower(c: char): char {
    if 'A' <= c <= 'Z' then (c as int + 32) as char else c
  }

  /** A character `clean` can produce: a lowercase ASCII letter or a digit. */
  predicate IsClean(c: char) {
    'a' <= c <= 'z' || '0' <= c <= '9'
  }

  /** `clean`: the ASCII alphanumeric characters of `s`, in order, lowercased. */
  function Clean(s: string): (r: string)
    ensures |r| <= |s|
  {
    if s == [] then []
    else (if IsAlnum(s[0]) then [ToLower(s[0])] else []) + Clean(s[1..])
  }

  /** Every character of a cleaned text is a lowercase ASCII letter or a digit. */
  lemma {:induction false} CleanOutput(s: string)
    ensures forall i :: 0 <= i < |Clean(s)| ==> IsClean(Clean(s)[i])
    decreases |s|
  {
    if s != [] {
      CleanOutput(s[1..]);
    }
  }

  /** Cleaning works character by character, so it distributes over concatenation. */
  lemma {:induction false} CleanAppend(a: string, b: string)
    ensures Clean(a + b) == Clean(a) + Clean(b)
    decreases |a|
  {
    if a != [] {
      assert (a + b)[1..] == a[1..] + b;
      CleanAppend(a[1..], b);
    } else {
      assert a + b == b;
    }
  }

  /** A single character is kept, lowercased, exactly when it is ASCII alphanumeric. */
  lemma CleanChar(c: char)
    ensures Clean([c]) == if IsAlnum(c) then [ToLower(c)] else []
  {
    assert [c][1..] == [];
  }

  /** A text that is already clean is left unchanged. */
  lemma {:induction false} CleanFixed(s: string)
    requires forall i :: 0 <= i < |s| ==> IsClean(s[i])
    ensures Clean(s) == s
    decreases |s|
  {
    if s != [] {
      CleanFixed(s[1..]);
      assert s == [s[0]] + s[1..];
    }
  }

  /** Cleaning twice is cleaning once. */
  lemma CleanIdempotent(s: string)
    ensures Clean(Clean(s)) == Clean(s)
  {
    CleanOutput(s);
    CleanFixed(Clean(s));
  }

  /** The unit test `test_clean`. */
  lemma CleanExample(s: string)
    requires s == "Can't buy me love!"
    ensures Clean(s) == "cantbuymelove"
  {
    var a, b, c, d := ExampleWords(s);
    ExampleWordsClean();
    CleanAppend(c, d);
    CleanAppend(b, c + d);
    CleanAppend(a, b + (c + d));
    CleanedWords();
  }

  /** The example sentence cut into its words. */
  lemma ExampleWords(s: string) returns (a: string, b: string, c: string, d: string)
    requires s == "Can't buy me love!"
    ensures s == a + (b + (c + d))
    ensures a == "Can't" && b == " buy" && c == " me" && d == " love!"
  {
    a, b, c, d := "Can't", " buy", " me", " love!";
  }

  lemma CleanedWords()
    ensures "cant" + ("buy" + ("me" + "love")) == "cantbuymelove"
  {
  }

  /** The words of the example sentence, cleaned. */
  lemma ExampleWordsClean()
    ensures Clean("Can't") == "cant" && Clean(" buy") == "buy"
    ensures Clean(" me") == "me" && Clean(" love!") == "love"
  {
    CleanCant();
    CleanBuy();
    CleanMe();
    CleanLove();
  }

  lemma CleanCant() ensures Clean("Can't") == "cant" { }
  lemma CleanBuy() ensures Clean(" buy") == "buy" { }
  lemma CleanMe() ensures Clean(" me") == "me" { }
  lemma CleanLove() ensures Clean(" love!") == "love" { }

  function Min(a: nat, b: nat): nat {
    if a < b then a else b
  }

  /**
   * `struct TextDivider`: the text and the range `split` of prefix lengths still to yield,
   * `split..stop`.
   */
  class TextDivider {
    const text: string
    var split: nat
    const stop: nat

    ghost predicate Valid()
      reads this
    {
      1 <= split <= stop <= |text| + 1
    }

    /** The pairs still to be yielded. */
    ghost function Remaining(): seq<(string, string)>
      reads this
      requires Valid()
    {
      Pairs(text, split, stop)
    }

    /** `TextDivider::new`: prefix lengths `1..=min(len, limit)`. */
    constructor (text: string, limit: nat)
      ensures Valid() && this.text == text && split == 1 && stop == Min(|text|, limit) + 1
      ensures Remaining() == Pairs(text, 1, Min(|text|, limit) + 1)
    {
      this.text := text;
      split := 1;
      stop := Min(|text|, limit) + 1;
    }

    /** `TextDivider::next`: the next `(text[..split], text[split..])`, if any. */
    method Next() returns (r: Option<(string, string)>)
      requires Valid()
      modifies this
      ensures Valid()
      ensures old(Remaining()) == [] ==> r.None? && Remaining() == []
      ensures old(Remaining()) != [] ==> r == Some(old(Remaining())[0]) && Remaining() == old(Remaining())[1..]
      ensures r.None? <==> old(split) == stop
      ensures r.Some? ==> r.value == (text[..old(split)], text[old(split)..]) && split == old(split) + 1
    {
      if split < stop {
        r := Some((text[..split], text[split..]));
        split := split + 1;
      } else {
        r := None;
      }
    }
  }

  /** The pairs `(text[..k], text[k..])` for `k` in `lo..hi`. */
  function Pairs(text: string, lo: nat, hi: nat): (ps: seq<(string, string)>)
    requires hi <= |text| + 1
    ensures |ps| == if lo <= hi then hi - lo else 0
    ensures forall j :: 0 <= j < |ps| ==> ps[j] == (text[..lo + j], text[lo + j..])
    decreases hi - lo
  {
    if lo >= hi then [] else [(text[..lo], text[lo..])] + Pairs(text, lo + 1, hi)
  }

  /** One more prefix length adds one more pair at the end. */
  lemma {:induction false} PairsSnoc(text: string, lo: nat, hi: nat)
    requires lo <= hi < |text| + 1
    ensures Pairs(text, lo, hi + 1) == Pairs(text, lo, hi) + [(text[..hi], text[hi..])]
  {
  }

  /**
   * Everything `TextDivider::new(text, limit)` yields: `min(len, limit)` pairs, the `k`-th
   * (from 1) being `(text[..k], text[k..])`, so every prefix is non-empty and every pair
   * spells the text.
   */
  method Divisions(text: string, limit: nat) returns (pairs: seq<(string, string)>)
    ensures |pairs| == Min(|text|, limit)
    ensures forall j :: 0 <= j < |pairs| ==> pairs[j] == (text[..j + 1], text[j + 1..])
    ensures forall j :: 0 <= j < |pairs| ==> 1 <= |pairs[j].0| <= limit && pairs[j].0 + pairs[j].1 == text
  {
    var divider := new TextDivider(text, limit);
    pairs := [];
    var more := true;
    while more
      invariant divider.Valid() && divider.text == text && divider.stop == Min(|text|, limit) + 1
      invariant pairs == Pairs(text, 1, divider.split)
      invariant !more ==> divider.split == divider.stop
      decreases divider.stop - divider.split, more
    {
      var next := divider.Next();
      if next.None? {
        more := false;
      } else {
        PairsSnoc(text, 1, divider.split - 1);
        pairs := pairs + [next.value];
      }
    }
    forall j | 0 <= j < |pairs|
      ensures 1 <= |pairs[j].0| <= limit && pairs[j].0 + pairs[j].1 == text
    {
      assert pairs[j] == (text[..j + 1], text[j + 1..]);
      assert text[..j + 1] + text[j + 1..] == text;
    }
  }
}
