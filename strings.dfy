/** Joining a list of words back into one string. */
module Strings {
  /** The words of `ws` written one after another, without separators. */
  function Concat(ws: seq<string>): (r: string)
    ensures ws == [] ==> r == []
  {
    if ws == [] then [] else ws[0] + Concat(ws[1..])
  }

  /** Joining distributes over appending lists of words. */
  lemma {:induction false} ConcatAppend(a: seq<string>, b: seq<string>)
    ensures Concat(a + b) == Concat(a) + Concat(b)
    decreases |a|
  {
    if a != [] {
      ConcatAppend(a[1..], b);
      assert (a + b)[1..] == a[1..] + b;
    } else {
      assert a + b == b;
    }
  }

  /** Appending three lists of words does not depend on the grouping. */
  lemma AppendAssoc(a: seq<string>, b: seq<string>, c: seq<string>)
    ensures (a + b) + c == a + (b + c)
  {
  }

  /** Every character of a word in the list is a character of the joined string. */
  lemma {:induction false} ConcatHasChar(ws: seq<string>, k: nat, i: nat)
    requires k < |ws| && i < |ws[k]|
    ensures exists j :: 0 <= j < |Concat(ws)| && Concat(ws)[j] == ws[k][i]
    decreases |ws|
  {
    if k == 0 {
      assert Concat(ws)[i] == ws[0][i];
    } else {
      ConcatHasChar(ws[1..], k - 1, i);
      var j :| 0 <= j < |Concat(ws[1..])| && Concat(ws[1..])[j] == ws[1..][k - 1][i];
      assert Concat(ws)[|ws[0]| + j] == ws[k][i];
    }
  }
}
