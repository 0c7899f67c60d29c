/**
 * The standard-library string operations the n-gram merge tool relies on, as Rust defines
 * them: `str::trim`/`trim_end` (Unicode `White_Space`), `str::split` on one character,
 * the byte-wise `<` on strings, ASCII letter tests and lowercasing, `usize::from_str`, and
 * the decimal formatting `{}` of a count.
 */
module NgramText {
  import opened Wrappers

  /** `usize::MAX` on a 64-bit target. */
  const USIZE_MAX: nat := 0xFFFF_FFFF_FFFF_FFFF

  /** `char::is_whitespace`: the characters with the Unicode `White_Space` property. */
  predicate IsWhitespace(c: char) {
    '\t' <= c <= '\r' || c == ' ' || c == '\U{85}' || c == '\U{A0}' || c == '\U{1680}'
    || '\U{2000}' <= c <= '\U{200A}' || c == '\U{2028}' || c == '\U{2029}' || c == '\U{202F}'
    || c == '\U{205F}' || c == '\U{3000}'
  }

  /** `str::trim_start`: `s` without its leading whitespace. */
  function TrimStart(s: string): (r: string)
    ensures |r| <= |s| && r == s[|s| - |r|..]
    ensures r == [] || !IsWhitespace(r[0])
    ensures forall i :: 0 <= i < |s| - |r| ==> IsWhitespace(s[i])
    decreases |s|
  {
    if s != [] && IsWhitespace(s[0]) then TrimStart(s[1..]) else s
  }

  /** `str::trim_end`: `s` without its trailing whitespace. */
  function TrimEnd(s: string): (r: string)
    ensures |r| <= |s| && r == s[..|r|]
    ensures r == [] || !IsWhitespace(r[|r| - 1])
    ensures forall i :: |r| <= i < |s| ==> IsWhitespace(s[i])
    decreases |s|
  {
    if s != [] && IsWhitespace(s[|s| - 1]) then TrimEnd(s[..|s| - 1]) else s
  }

  /** `str::trim`: `s` without its leading and trailing whitespace. */
  function Trim(s: string): string {
    TrimEnd(TrimStart(s))
  }

  /** Neither end of `s` is whitespace. */
  predicate Trimmed(s: string) {
    s == [] || (!IsWhitespace(s[0]) && !IsWhitespace(s[|s| - 1]))
  }

  /**
   * `trim` cuts `s` into whitespace, the trimmed text and whitespace: the result is the
   * slice `s[i..j]`, everything outside it is whitespace, and neither of its ends is.
   */
  lemma TrimSlice(s: string) returns (i: nat, j: nat)
    ensures i <= j <= |s| && Trim(s) == s[i..j] && Trimmed(Trim(s))
    ensures forall k :: 0 <= k < i ==> IsWhitespace(s[k])
    ensures forall k :: j <= k < |s| ==> IsWhitespace(s[k])
  {
    var t := TrimStart(s);
    var r := TrimEnd(t);
    i := |s| - |t|;
    j := i + |r|;
    SliceOfSuffix(s, t, r);
    TrailingWhitespace(s, t, |r|);
    TrimIsTrimmed(s);
  }

  /** A prefix `r` of a suffix `t` of `s` is a slice of `s`. */
  lemma SliceOfSuffix(s: string, t: string, r: string)
    requires |t| <= |s| && t == s[|s| - |t|..] && |r| <= |t| && r == t[..|r|]
    ensures r == s[|s| - |t|..|s| - |t| + |r|]
  {
  }

  /** Whitespace at the end of a suffix `t` of `s` is whitespace at the end of `s`. */
  lemma TrailingWhitespace(s: string, t: string, n: nat)
    requires |t| <= |s| && t == s[|s| - |t|..]
    requires forall k :: n <= k < |t| ==> IsWhitespace(t[k])
    ensures forall k :: |s| - |t| + n <= k < |s| ==> IsWhitespace(s[k])
  {
    var i := |s| - |t|;
    forall k | i + n <= k < |s| ensures IsWhitespace(s[k]) {
      assert s[k] == t[k - i];
    }
  }

  /** Neither end of a trimmed text is whitespace. */
  lemma TrimIsTrimmed(s: string)
    ensures Trimmed(Trim(s))
  {
    var t := TrimStart(s);
    var r := TrimEnd(t);
    if r != [] {
      assert r[0] == t[0];
    }
  }

  /** A text whose ends are not whitespace is its own trim. */
  lemma TrimFixed(s: string)
    requires Trimmed(s)
    ensures Trim(s) == s && TrimEnd(s) == s
  {
  }

  /** Trimming twice is trimming once. */
  lemma TrimIdempotent(s: string)
    ensures Trim(Trim(s)) == Trim(s)
  {
    TrimIsTrimmed(s);
    TrimFixed(Trim(s));
  }

  /** `u8::is_ascii_alphabetic`. */
  predicate IsAsciiAlpha(c: char) {
    'A' <= c <= 'Z' || 'a' <= c <= 'z'
  }

  /**
   * Every byte of `s` is an ASCII letter. A character outside ASCII is encoded by bytes of
   * `0x80` and above, none of them a letter, so testing characters is testing bytes.
   */
  predicate AllAlpha(s: string) {
    forall i :: 0 <= i < |s| ==> IsAsciiAlpha(s[i])
  }

  /** Every character of `s` is one of `a`..`z`. */
  predicate AllLower(s: string) {
    forall i :: 0 <= i < |s| ==> 'a' <= s[i] <= 'z'
  }

  /** `u8::to_ascii_lowercase`. */
  function LowerChar(c: char): char {
    if 'A' <= c <= 'Z' then (c as int + 32) as char else c
  }

  /** `str::make_ascii_lowercase`: every ASCII capital replaced by its small letter. */
  function Lower(s: string): (r: string)
    ensures |r| == |s| && forall i :: 0 <= i < |s| ==> r[i] == LowerChar(s[i])
  {
    seq(|s|, i requires 0 <= i < |s| => LowerChar(s[i]))
  }

  /** Lowercasing letters gives small letters only, and leaves small letters alone. */
  lemma LowerLetters(s: string)
    requires AllAlpha(s)
    ensures AllLower(Lower(s)) && AllAlpha(Lower(s))
    ensures AllLower(s) ==> Lower(s) == s
  {
  }

  /** Text made of letters has no whitespace at either end. */
  lemma AlphaTrimmed(s: string)
    requires AllAlpha(s)
    ensures Trimmed(s)
  {
  }

  /** The index of the first `c` in `s`. */
  function Find(s: string, c: char): (r: nat)
    requires c in s
    ensures r < |s| && s[r] == c && c !in s[..r]
  {
    if s[0] == c then 0 else assert s == [s[0]] + s[1..]; 1 + Find(s[1..], c)
  }

  /** `str::split(c)`: the pieces of `s` between occurrences of `c`; there is always one. */
  function Split(s: string, c: char): (ps: seq<string>)
    ensures |ps| >= 1 && forall i :: 0 <= i < |ps| ==> c !in ps[i]
    decreases |s|
  {
    if c in s then
      var i := Find(s, c);
      [s[..i]] + Split(s[i + 1..], c)
    else
      [s]
  }

  /** The pieces written out with `c` between each two: the inverse of `Split`. */
  function Join(ps: seq<string>, c: char): string
    requires |ps| >= 1
  {
    if |ps| == 1 then ps[0] else ps[0] + [c] + Join(ps[1..], c)
  }

  /** Joining the pieces of a split gives the text back. */
  lemma {:induction false} SplitJoin(s: string, c: char)
    ensures Join(Split(s, c), c) == s
    decreases |s|
  {
    if c in s {
      var i := Find(s, c);
      SplitJoin(s[i + 1..], c);
      assert Split(s, c)[1..] == Split(s[i + 1..], c);
      assert s == s[..i] + [c] + s[i + 1..];
    }
  }

  /** Splitting a join of pieces that do not contain `c` gives the pieces back. */
  lemma {:induction false} JoinSplit(ps: seq<string>, c: char)
    requires |ps| >= 1 && forall i :: 0 <= i < |ps| ==> c !in ps[i]
    ensures Split(Join(ps, c), c) == ps
    decreases |ps|
  {
    if |ps| > 1 {
      var s := Join(ps, c);
      var rest := Join(ps[1..], c);
      assert s == ps[0] + [c] + rest;
      assert s[|ps[0]|] == c;
      assert s[..|ps[0]|] == ps[0];
      assert Find(s, c) == |ps[0]|;
      assert s[|ps[0]| + 1..] == rest;
      JoinSplit(ps[1..], c);
      assert ps == [ps[0]] + ps[1..];
    } else {
      assert ps == [ps[0]];
    }
  }

  /** `<` on `str`: byte-wise lexicographic order, which is code point order on characters. */
  predicate LexLess(a: string, b: string) {
    if a == [] then b != []
    else if b == [] then false
    else if a[0] != b[0] then a[0] < b[0]
    else LexLess(a[1..], b[1..])
  }

  /** The order is strict and total: exactly one of `a < b`, `a == b`, `b < a` holds. */
  lemma {:induction false} LexTrichotomy(a: string, b: string)
    ensures LexLess(a, b) || a == b || LexLess(b, a)
    ensures !(LexLess(a, b) && LexLess(b, a)) && !(LexLess(a, b) && a == b)
    decreases |a|
  {
    if a != [] && b != [] && a[0] == b[0] {
      LexTrichotomy(a[1..], b[1..]);
      assert a == [a[0]] + a[1..] && b == [b[0]] + b[1..];
    }
  }

  /** The order is transitive. */
  lemma {:induction false} LexTransitive(a: string, b: string, c: string)
    requires LexLess(a, b) && LexLess(b, c)
    ensures LexLess(a, c)
    decreases |a|
  {
    if a != [] && a[0] == b[0] && b[0] == c[0] {
      LexTransitive(a[1..], b[1..], c[1..]);
    }
  }

  predicate IsDigit(c: char) {
    '0' <= c <= '9'
  }

  predicate AllDigits(s: string) {
    forall i :: 0 <= i < |s| ==> IsDigit(s[i])
  }

  function Pow10(n: nat): (r: nat)
    ensures r >= 1
  {
    if n == 0 then 1 else 10 * Pow10(n - 1)
  }

  /** The value of the digit `c`. */
  function Digit(c: char): (d: nat)
    requires IsDigit(c)
    ensures d < 10
  {
    c as int - '0' as int
  }

  /** The number the decimal digits `s` denote, most significant first. */
  function DigitsValue(s: string): nat
    requires AllDigits(s)
  {
    if s == [] then 0 else Digit(s[0]) * Pow10(|s| - 1) + DigitsValue(s[1..])
  }

  lemma MulLe(x: nat, y: nat, p: nat)
    requires x <= y
    ensures x * p <= y * p
  {
  }

  /** `n` digits denote a number below `10^n`. */
  lemma {:induction false} DigitsBound(s: string)
    requires AllDigits(s)
    ensures DigitsValue(s) < Pow10(|s|)
    decreases |s|
  {
    if s != [] {
      DigitsBound(s[1..]);
      MulLe(Digit(s[0]), 9, Pow10(|s| - 1));
    }
  }

  /** Digit strings of one length compare as strings exactly as their numbers compare. */
  lemma {:induction false} LexLessDigits(a: string, b: string)
    requires AllDigits(a) && AllDigits(b) && |a| == |b|
    ensures LexLess(a, b) <==> DigitsValue(a) < DigitsValue(b)
    decreases |a|
  {
    if a != [] {
      var p := Pow10(|a| - 1);
      var x, y := Digit(a[0]), Digit(b[0]);
      var u, v := DigitsValue(a[1..]), DigitsValue(b[1..]);
      assert DigitsValue(a) == x * p + u && DigitsValue(b) == y * p + v;
      if x == y {
        assert a[0] == b[0];
        LexLessDigits(a[1..], b[1..]);
      } else if x < y {
        assert LexLess(a, b);
        DigitsBound(a[1..]);
        Dominates(x, y, p, u, v);
      } else {
        assert LexLess(b, a);
        LexTrichotomy(a, b);
        DigitsBound(b[1..]);
        Dominates(y, x, p, v, u);
      }
    }
  }

  /** A larger leading digit outweighs any lower digits. */
  lemma Dominates(x: nat, y: nat, p: nat, u: nat, v: nat)
    requires x < y && u < p
    ensures x * p + u < y * p + v
  {
    MulLe(x + 1, y, p);
    assert (x + 1) * p == x * p + p;
  }

  /** Appending a digit multiplies by ten and adds it. */
  lemma {:induction false} DigitsSnoc(s: string, d: char)
    requires AllDigits(s) && IsDigit(d)
    ensures AllDigits(s + [d]) && DigitsValue(s + [d]) == DigitsValue(s) * 10 + Digit(d)
    decreases |s|
  {
    if s != [] {
      assert (s + [d])[1..] == s[1..] + [d];
      DigitsSnoc(s[1..], d);
      var x, p, u := Digit(s[0]), Pow10(|s| - 1), DigitsValue(s[1..]);
      assert DigitsValue(s + [d]) == x * Pow10(|s|) + DigitsValue(s[1..] + [d]);
      assert Pow10(|s|) == 10 * p;
      ShiftDigit(x, p, u, Digit(d));
    } else {
      assert [] + [d] == [d] && [d][1..] == [];
    }
  }

  lemma ShiftDigit(x: nat, p: nat, u: nat, d: nat)
    ensures x * (10 * p) + (u * 10 + d) == (x * p + u) * 10 + d
  {
  }

  /** The parse error of `usize::from_str` (empty text, a stray character, or overflow). */
  datatype ParseIntError = Empty | InvalidDigit | PosOverflow

  /**
   * `usize::from_str`: an optional `+` followed by at least one decimal digit, denoting a
   * number no larger than `usize::MAX`.
   */
  function ParseUsize(s: string): (r: Result<nat, ParseIntError>)
    ensures r.Success? ==> r.value <= USIZE_MAX
  {
    if s == [] then Failure(Empty)
    else
      var digits := if s[0] == '+' then s[1..] else s;
      if digits == [] || !AllDigits(digits) then Failure(InvalidDigit)
      else if DigitsValue(digits) > USIZE_MAX then Failure(PosOverflow)
      else Success(DigitsValue(digits))
  }

  function DigitChar(d: nat): (c: char)
    requires d < 10
    ensures IsDigit(c)
  {
    ('0' as int + d) as char
  }

  /** The `{}` formatting of a count: its decimal digits, without leading zeros. */
  function ShowNat(n: nat): (s: string)
    ensures |s| >= 1 && AllDigits(s)
    ensures |s| > 1 ==> s[0] != '0'
  {
    if n < 10 then [DigitChar(n)] else ShowNat(n / 10) + [DigitChar(n % 10)]
  }

  /** The digits of a formatted count denote the count. */
  lemma {:induction false} ShowNatValue(n: nat)
    ensures DigitsValue(ShowNat(n)) == n
  {
    if n < 10 {
      assert ShowNat(n)[1..] == [];
    } else {
      ShowNatValue(n / 10);
      DigitsSnoc(ShowNat(n / 10), DigitChar(n % 10));
    }
  }

  /** Parsing a formatted count gives the count back. */
  lemma ParseShow(n: nat)
    requires n <= USIZE_MAX
    ensures ParseUsize(ShowNat(n)) == Success(n)
  {
    ShowNatValue(n);
  }
}
