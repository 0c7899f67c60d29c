/**
 * The validated input text of the current engine (instant-segment/src/lib.rs, `Ascii`):
 * a byte string made only of the lowercase ASCII letters `a` to `z`.
 *
 * Input strings are sequences of characters. A character outside ASCII is encoded in UTF-8
 * by bytes of 0x80 and above, none of which is a lowercase letter, so checking characters
 * rejects exactly the strings whose bytes the source rejects.
 */
module AsciiText {
  import opened Wrappers

  /** `struct InvalidCharacter`, the error of `Ascii::new`. */
  datatype InvalidCharacter = InvalidCharacter

  /** `struct Ascii<'a>(&'a [u8])`. */
  datatype Ascii = Ascii(bytes: seq<char>)

  /** `u8::is_ascii_lowercase`. */
  predicate IsLower(c: char) {
    'a' <= c <= 'z'
  }

  /** `bytes.iter().all(|b| b.is_ascii_lowercase())`, scanning from the front. */
  function AllLower(s: string): (b: bool)
    ensures b <==> forall i :: 0 <= i < |s| ==> IsLower(s[i])
  {
    if s == [] then true
    else if !IsLower(s[0]) then false
    else
      assert forall i :: 1 <= i < |s| ==> s[1..][i - 1] == s[i];
      AllLower(s[1..])
  }

  /**
   * `Ascii::new`: fails with `InvalidCharacter` exactly when some character is not a
   * lowercase ASCII letter, and otherwise wraps the input unchanged.
   */
  function NewAscii(s: string): (r: Result<Ascii, InvalidCharacter>)
    ensures r.Failure? <==> exists i :: 0 <= i < |s| && !IsLower(s[i])
    ensures r.Success? ==> r.value.bytes == s && forall i :: 0 <= i < |s| ==> IsLower(s[i])
  {
    if AllLower(s) then Success(Ascii(s)) else Failure(InvalidCharacter)
  }

  /** `Ascii::len`. */
  function Len(a: Ascii): nat {
    |a.bytes|
  }

  /** `Ascii[lo..hi]`: the bytes of the range, read back as a string. */
  function Index(a: Ascii, lo: nat, hi: nat): (w: string)
    requires lo <= hi <= Len(a)
    ensures |w| == hi - lo
    ensures forall i :: 0 <= i < |w| ==> w[i] == a.bytes[lo + i]
  {
    a.bytes[lo..hi]
  }

  /** Indexing the full range of a validated text gives back the whole input. */
  lemma IndexWhole(s: string)
    requires NewAscii(s).Success?
    ensures Index(NewAscii(s).value, 0, Len(NewAscii(s).value)) == s
  {
  }

  /** Every slice of a validated text is itself valid input. */
  lemma IndexValid(a: Ascii, lo: nat, hi: nat)
    requires (forall i :: 0 <= i < |a.bytes| ==> IsLower(a.bytes[i])) && lo <= hi <= Len(a)
    ensures NewAscii(Index(a, lo, hi)) == Success(Ascii(a.bytes[lo..hi]))
  {
  }

  /** The unit test `test_clean` of the current engine: punctuation, capitals and spaces fail. */
  lemma RejectExample()
    ensures NewAscii("Can't buy me love!").Failure?
  {
    assert !IsLower("Can't buy me love!"[0]);
  }

  /** The unit test `test_clean` of the current engine: a lowercase text round-trips. */
  lemma AcceptExample()
    ensures NewAscii("cantbuymelove").Success?
    ensures Index(NewAscii("cantbuymelove").value, 0, 13) == "cantbuymelove"
  {
    var s := "cantbuymelove";
    assert forall i :: 0 <= i < |s| ==> IsLower(s[i]);
  }
}
