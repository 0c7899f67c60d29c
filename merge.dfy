/**
 * The data-preparation tool instant-segment/examples/merge.rs: it reads a word list, keeps
 * the n-gram records whose words are listed, counts their matches from the year 2000 on,
 * merges the counts of all input parts, and writes the most frequent entries.
 *
 * Files become sequences of lines (each line as `read_line` returns it, newline included);
 * a panic of the tool (`unwrap` on a missing field or on a count that does not parse) is
 * the `Failure` of a `Result`.
 */
module Merge {
  import opened Wrappers
  import opened NgramText

  /** Year columns before this one (as strings) are not counted (`START_YEAR`). */
  const START_YEAR: string := "2000"
  /** The most unigrams written (`MAX_UNIGRAMS`). */
  const MAX_UNIGRAMS: nat := 256 * 1024
  /** The most bigrams written (`MAX_BIGRAMS`). */
  const MAX_BIGRAMS: nat := 256 * 1024

  /** The tool panicked. */
  datatype Panic = Panic

  /**
   * `normalize`: the trimmed word, lowercased, provided it consists of ASCII letters only and
   * is in the list as it stands (before lowercasing).
   */
  function Normalize(word: string, list: set<string>): (r: Option<string>)
    ensures r.Some? <==> AllAlpha(Trim(word)) && Trim(word) in list
    ensures r.Some? ==> AllLower(r.value) && |r.value| == |Trim(word)|
  {
    var w := Trim(word);
    if !AllAlpha(w) || w !in list then None else LowerLetters(w); Some(Lower(w))
  }

  /**
   * Membership is tested before lowercasing: a word listed only capitalised is accepted and
   * lowercased, while its lowercase form, not being listed, is rejected.
   */
  lemma NormalizeCapitalised(w: string, list: set<string>)
    requires AllAlpha(w) && w in list && Lower(w) !in list
    ensures Normalize(w, list) == Some(Lower(w))
    ensures Normalize(Lower(w), list) == None
  {
    AlphaTrimmed(w);
    TrimFixed(w);
    LowerLetters(w);
    AlphaTrimmed(Lower(w));
    TrimFixed(Lower(w));
  }

  /** The example of the documentation: "Spain" is listed, "spain" is not. */
  lemma SpainExample(spain: string, list: set<string>)
    requires spain == "Spain" && list == {"Spain"}
    ensures Normalize(spain, list) == Some("spain")
    ensures Normalize("spain", list) == None
  {
    assert AllAlpha(spain);
    assert Lower(spain) == "spain";
    NormalizeCapitalised(spain, list);
  }

  /** A normalised word that is itself listed normalises to itself. */
  lemma NormalizeIdempotent(word: string, list: set<string>, w: string)
    requires Normalize(word, list) == Some(w) && w in list
    ensures Normalize(w, list) == Some(w)
  {
    assert AllAlpha(w);
    AlphaTrimmed(w);
    TrimFixed(w);
    LowerLetters(w);
  }

  /** The words `read_word_list` collects: each line without trailing whitespace, if it is all letters. */
  function WordList(lines: seq<string>): set<string> {
    set i | 0 <= i < |lines| && AllAlpha(TrimEnd(lines[i])) :: TrimEnd(lines[i])
  }

  /** `read_word_list`: the loop over the lines of the word list. */
  method ReadWordList(lines: seq<string>) returns (list: set<string>)
    ensures list == WordList(lines)
  {
    list := {};
    for i := 0 to |lines|
      invariant list == WordList(lines[..i])
    {
      var word := TrimEnd(lines[i]);
      if AllAlpha(word) {
        list := list + {word};
      }
      WordListSnoc(lines[..i], lines[i]);
      assert lines[..i + 1] == lines[..i] + [lines[i]];
    }
    assert lines[..|lines|] == lines;
  }

  lemma WordListSnoc(lines: seq<string>, ln: string)
    ensures WordList(lines + [ln]) == WordList(lines) + (if AllAlpha(TrimEnd(ln)) then {TrimEnd(ln)} else {})
  {
    var ls := lines + [ln];
    forall w | w in WordList(ls) ensures w in WordList(lines) || (AllAlpha(TrimEnd(ln)) && w == TrimEnd(ln)) {
      var i :| 0 <= i < |ls| && AllAlpha(TrimEnd(ls[i])) && w == TrimEnd(ls[i]);
      if i < |lines| {
        assert ls[i] == lines[i];
      }
    }
    forall w | w in WordList(lines) ensures w in WordList(ls) {
      var i :| 0 <= i < |lines| && AllAlpha(TrimEnd(lines[i])) && w == TrimEnd(lines[i]);
      assert ls[i] == lines[i];
    }
    if AllAlpha(TrimEnd(ln)) {
      assert ls[|lines|] == ln;
    }
  }

  /**
   * Every listed word is made of letters and is accepted by `normalize`, which returns it
   * lowercased.
   */
  lemma ListedWordsNormalize(lines: seq<string>, w: string)
    requires w in WordList(lines)
    ensures AllAlpha(w) && Normalize(w, WordList(lines)) == Some(Lower(w))
  {
    AlphaTrimmed(w);
    TrimFixed(w);
  }

  /** A blank line puts the empty word in the list: `trim_end` leaves nothing, and nothing is all letters. */
  lemma BlankLineListed(lines: seq<string>, i: nat)
    requires i < |lines| && forall k :: 0 <= k < |lines[i]| ==> IsWhitespace(lines[i][k])
    ensures "" in WordList(lines)
  {
    assert TrimEnd(lines[i]) == [];
  }

  /**
   * The count one `year,matches,volumes` column contributes: nothing when its year sorts
   * before `START_YEAR`, else its match count; a later-year column without a parseable
   * count makes the tool panic.
   */
  function Column(col: string): Result<nat, Panic> {
    var parts := Split(col, ',');
    if LexLess(parts[0], START_YEAR) then Success(0)
    else if |parts| < 2 then Failure(Panic)
    else match ParseUsize(parts[1])
      case Success(n) => Success(n)
      case Failure(_) => Failure(Panic)
  }

  /** For four-digit years the string test is the numeric test `year < 2000`. */
  lemma YearFilter(year: string, start: string)
    requires |year| == 4 && AllDigits(year) && start == START_YEAR
    ensures LexLess(year, start) <==> DigitsValue(year) < 2000
  {
    assert DigitsValue(start) == 2000 by {
      assert start[1..] == "000" && start[2..] == "00" && start[3..] == "0";
    }
    LexLessDigits(year, start);
  }

  /** A column of an earlier year never makes the tool panic, however malformed the rest. */
  lemma EarlyColumnIgnored(col: string, year: string)
    requires Split(col, ',')[0] == year && LexLess(year, START_YEAR)
    ensures Column(col) == Success(0)
  {
  }

  /** The count of a column of a counted year is its second field. */
  lemma LateColumnCounted(year: string, n: nat, rest: string)
    requires AllDigits(year) && !LexLess(year, START_YEAR) && n <= USIZE_MAX && ',' !in rest
    ensures Column(year + "," + ShowNat(n) + "," + rest) == Success(n)
  {
    var ps := [year, ShowNat(n), rest];
    assert ',' !in year && ',' !in ShowNat(n);
    var tail := ps[1..];
    assert Join(tail, ',') == ShowNat(n) + [','] + rest by {
      assert tail[1..] == [rest];
    }
    assert Join(ps, ',') == year + [','] + Join(tail, ',');
    assert Join(ps, ',') == year + "," + ShowNat(n) + "," + rest;
    JoinSplit(ps, ',');
    ParseShow(n);
  }

  /** The matches of a line: the sum over its year columns, or a panic from the first bad one. */
  function YearTotal(cols: seq<string>): Result<nat, Panic>
    decreases |cols|
  {
    if cols == [] then Success(0)
    else match YearTotal(cols[..|cols| - 1])
      case Failure(_) => Failure(Panic)
      case Success(m) =>
        match Column(cols[|cols| - 1])
          case Failure(_) => Failure(Panic)
          case Success(n) => Success(m + n)
  }

  /** The line panics exactly when one of its columns does. */
  lemma {:induction false} YearTotalPanics(cols: seq<string>)
    ensures YearTotal(cols).Failure? <==> exists i :: 0 <= i < |cols| && Column(cols[i]).Failure?
    decreases |cols|
  {
    if cols != [] {
      var init := cols[..|cols| - 1];
      YearTotalPanics(init);
      if exists i :: 0 <= i < |init| && Column(init[i]).Failure? {
        var i :| 0 <= i < |init| && Column(init[i]).Failure?;
        assert cols[i] == init[i];
      }
      if exists i :: 0 <= i < |cols| && Column(cols[i]).Failure? {
        var i :| 0 <= i < |cols| && Column(cols[i]).Failure?;
        if i < |init| {
          assert init[i] == cols[i];
        }
      }
    }
  }

  /** A line with only earlier years counts nothing. */
  lemma {:induction false} EarlyLineCountsNothing(cols: seq<string>)
    requires forall i :: 0 <= i < |cols| ==> LexLess(Split(cols[i], ',')[0], START_YEAR)
    ensures YearTotal(cols) == Success(0)
    decreases |cols|
  {
    if cols != [] {
      EarlyLineCountsNothing(cols[..|cols| - 1]);
    }
  }

  /** The `for year_data in iter` loop summing the matches of a line. */
  method Matches(cols: seq<string>) returns (r: Result<nat, Panic>)
    ensures r == YearTotal(cols)
  {
    var matches: nat := 0;
    for i := 0 to |cols|
      invariant YearTotal(cols[..i]) == Success(matches)
    {
      assert cols[..i + 1][..i] == cols[..i];
      var parts := Split(cols[i], ',');
      if LexLess(parts[0], START_YEAR) {
        continue;
      }
      if |parts| < 2 {
        PanicSpreads(cols, i + 1);
        return Failure(Panic);
      }
      var n := ParseUsize(parts[1]);
      if n.Failure? {
        PanicSpreads(cols, i + 1);
        return Failure(Panic);
      }
      matches := matches + n.value;
    }
    assert cols[..|cols|] == cols;
    r := Success(matches);
  }

  /** Once the first `i` columns panic, the whole line does. */
  lemma {:induction false} PanicSpreads(cols: seq<string>, i: nat)
    requires i <= |cols| && YearTotal(cols[..i]).Failure?
    ensures YearTotal(cols).Failure?
    decreases |cols| - i
  {
    if i < |cols| {
      assert cols[..i + 1][..i] == cols[..i];
      PanicSpreads(cols, i + 1);
    } else {
      assert cols[..i] == cols;
    }
  }

  /** What one input line does to the counts: nothing, add matches under a key, or panic. */
  datatype LineOutcome<K> = Skipped | Counted(key: K, matches: nat) | Panicked

  /**
   * A unigram line `word<TAB>year,matches,volumes<TAB>...`: counted under the normalised
   * word, skipped when the word does not normalise.
   */
  function UnigramLine(ln: string, list: set<string>): (r: LineOutcome<string>)
    ensures r.Skipped? <==> Normalize(Split(Trim(ln), '\t')[0], list).None?
    ensures r.Counted? ==> AllLower(r.key) && YearTotal(Split(Trim(ln), '\t')[1..]) == Success(r.matches)
    ensures r.Panicked? <==> !r.Skipped? && YearTotal(Split(Trim(ln), '\t')[1..]).Failure?
  {
    var cols := Split(Trim(ln), '\t');
    match Normalize(cols[0], list)
      case None => Skipped
      case Some(word) =>
        match YearTotal(cols[1..])
          case Failure(_) => Panicked
          case Success(m) => Counted(word, m)
  }

  /**
   * A bigram line `word1 word2<TAB>year,matches,volumes<TAB>...`: counted under the pair of
   * normalised words, skipped unless the first word normalises and the second is listed as
   * it stands and normalises; words after the second are ignored.
   */
  function BigramLine(ln: string, list: set<string>): (r: LineOutcome<(string, string)>)
    ensures !r.Skipped? <==> (
      var ws := Split(Split(Trim(ln), '\t')[0], ' ');
      Normalize(ws[0], list).Some? && |ws| >= 2 && ws[1] in list && Normalize(ws[1], list).Some?)
    ensures r.Counted? ==> AllLower(r.key.0) && AllLower(r.key.1)
    ensures r.Counted? ==> YearTotal(Split(Trim(ln), '\t')[1..]) == Success(r.matches)
    ensures r.Panicked? <==> !r.Skipped? && YearTotal(Split(Trim(ln), '\t')[1..]).Failure?
  {
    var cols := Split(Trim(ln), '\t');
    var ws := Split(cols[0], ' ');
    match Normalize(ws[0], list)
      case None => Skipped
      case Some(word1) =>
        if |ws| < 2 || ws[1] !in list then Skipped
        else match Normalize(ws[1], list)
          case None => Skipped
          case Some(word2) =>
            match YearTotal(cols[1..])
              case Failure(_) => Panicked
              case Success(m) => Counted((word1, word2), m)
  }

  /** The count of `k` in `m`, zero when absent (`or_default`). */
  function Count<K(==,!new)>(m: map<K, nat>, k: K): nat {
    if k in m then m[k] else 0
  }

  /** `*m.entry(k).or_default() += n`. */
  function Add<K(==,!new)>(m: map<K, nat>, k: K, n: nat): (r: map<K, nat>)
    ensures r.Keys == m.Keys + {k}
    ensures forall j :: Count(r, j) == Count(m, j) + (if j == k then n else 0)
  {
    m[k := Count(m, k) + n]
  }

  /** The outcomes of `lines` under `parse`, in order. */
  function Outcomes<K(==,!new)>(lines: seq<string>, parse: string -> LineOutcome<K>): (os: seq<LineOutcome<K>>)
    ensures |os| == |lines| && forall i :: 0 <= i < |lines| ==> os[i] == parse(lines[i])
  {
    seq(|lines|, i requires 0 <= i < |lines| => parse(lines[i]))
  }

  /** The counts of one input part: the outcomes applied in order, starting from no counts. */
  function Tally<K(==,!new)>(os: seq<LineOutcome<K>>): Result<map<K, nat>, Panic>
    decreases |os|
  {
    if os == [] then Success(map[])
    else match Tally(os[..|os| - 1])
      case Failure(_) => Failure(Panic)
      case Success(m) =>
        match os[|os| - 1]
          case Skipped => Success(m)
          case Counted(k, n) => Success(Add(m, k, n))
          case Panicked => Failure(Panic)
  }

  /** The sum of the matches counted under `k`. */
  function SumFor<K(==,!new)>(os: seq<LineOutcome<K>>, k: K): nat
    decreases |os|
  {
    if os == [] then 0
    else SumFor(os[..|os| - 1], k) + (if os[|os| - 1].Counted? && os[|os| - 1].key == k then os[|os| - 1].matches else 0)
  }

  /** `k` is counted by some line. */
  ghost predicate CountedSomewhere<K(!new)>(os: seq<LineOutcome<K>>, k: K) {
    exists i :: 0 <= i < |os| && os[i].Counted? && os[i].key == k
  }

  /**
   * A part panics exactly when one of its lines does; otherwise every key counted by some
   * line is present, no other key is, and its count is the sum of its lines' matches.
   */
  lemma {:induction false} TallyCounts<K(!new)>(os: seq<LineOutcome<K>>, k: K)
    ensures Tally(os).Failure? <==> exists i :: 0 <= i < |os| && os[i].Panicked?
    ensures Tally(os).Success? ==> Count(Tally(os).value, k) == SumFor(os, k)
    ensures Tally(os).Success? ==> (k in Tally(os).value <==> CountedSomewhere(os, k))
    decreases |os|
  {
    if os != [] {
      var init := os[..|os| - 1];
      var last := os[|os| - 1];
      TallyCounts(init, k);
      forall i | 0 <= i < |init| ensures init[i] == os[i] { }
      if CountedSomewhere(os, k) && !CountedSomewhere(init, k) {
        var i :| 0 <= i < |os| && os[i].Counted? && os[i].key == k;
        assert i == |os| - 1;
      }
      if exists i :: 0 <= i < |os| && os[i].Panicked? {
        var i :| 0 <= i < |os| && os[i].Panicked?;
        assert i < |init| ==> init[i].Panicked?;
      }
    }
  }

  /** The loop over the lines of one part (`entry(word).or_default() += matches`). */
  method CountLines<K(==,!new)>(lines: seq<string>, parse: string -> LineOutcome<K>) returns (r: Result<map<K, nat>, Panic>)
    ensures r == Tally(Outcomes(lines, parse))
  {
    var counts: map<K, nat> := map[];
    for i := 0 to |lines|
      invariant Tally(Outcomes(lines[..i], parse)) == Success(counts)
    {
      assert Outcomes(lines[..i + 1], parse)[..i] == Outcomes(lines[..i], parse);
      match parse(lines[i])
      case Skipped =>
      case Counted(k, n) =>
        counts := Add(counts, k, n);
      case Panicked =>
        TallyStaysFailed(Outcomes(lines, parse), i + 1);
        assert Outcomes(lines, parse)[..i + 1] == Outcomes(lines[..i + 1], parse);
        return Failure(Panic);
    }
    assert lines[..|lines|] == lines;
    r := Success(counts);
  }

  /** Once a prefix of the outcomes panics, all of them do. */
  lemma {:induction false} TallyStaysFailed<K(!new)>(os: seq<LineOutcome<K>>, i: nat)
    requires i <= |os| && Tally(os[..i]).Failure?
    ensures Tally(os).Failure?
    decreases |os| - i
  {
    if i < |os| {
      assert os[..i + 1][..i] == os[..i];
      TallyStaysFailed(os, i + 1);
    } else {
      assert os[..i] == os;
    }
  }

  /** The `reduce` merge: every key of either map, with the sum of its two counts. */
  function MergeMaps<K(==,!new)>(left: map<K, nat>, right: map<K, nat>): (m: map<K, nat>)
    ensures m.Keys == left.Keys + right.Keys
    ensures forall k :: Count(m, k) == Count(left, k) + Count(right, k)
  {
    map k | k in left.Keys + right.Keys :: Count(left, k) + Count(right, k)
  }

  /** The merge closure of `reduce`: `for (k, v) in right { *left.entry(k).or_default() += v }`. */
  method MergeInto<K(==,!new)>(left: map<K, nat>, right: map<K, nat>) returns (merged: map<K, nat>)
    ensures merged == MergeMaps(left, right)
  {
    merged := left;
    var rest := right.Keys;
    while rest != {}
      invariant MergedExcept(left, right, rest, merged)
      decreases |rest|
    {
      var k :| k in rest;
      MergeStep(left, right, rest, merged, k);
      merged := Add(merged, k, right[k]);
      rest := rest - {k};
    }
    MergeDone(left, right, merged);
  }

  /** With no key left, the loop has computed the merge. */
  lemma MergeDone<K(!new)>(left: map<K, nat>, right: map<K, nat>, merged: map<K, nat>)
    requires MergedExcept(left, right, {}, merged)
    ensures merged == MergeMaps(left, right)
  {
    MapsEqual(merged, MergeMaps(left, right));
  }

  /** `merged` is `left` with the counts of `right` added for every key not in `rest`. */
  ghost predicate MergedExcept<K(!new)>(left: map<K, nat>, right: map<K, nat>, rest: set<K>, merged: map<K, nat>) {
    rest <= right.Keys
    && merged.Keys == left.Keys + (right.Keys - rest)
    && forall k :: Count(merged, k) == Count(left, k) + (if k in rest then 0 else Count(right, k))
  }

  /** One round of the merge loop. */
  lemma MergeStep<K(!new)>(left: map<K, nat>, right: map<K, nat>, rest: set<K>, merged: map<K, nat>, k: K)
    requires MergedExcept(left, right, rest, merged) && k in rest
    ensures MergedExcept(left, right, rest - {k}, Add(merged, k, right[k]))
  {
  }

  /** Maps with the same keys and counts are equal. */
  lemma MapsEqual<K(!new)>(a: map<K, nat>, b: map<K, nat>)
    requires a.Keys == b.Keys && forall k :: Count(a, k) == Count(b, k)
    ensures a == b
  {
    forall k | k in a ensures a[k] == b[k] {
      assert Count(a, k) == Count(b, k);
    }
  }

  /** The empty map `reduce` starts from is neutral. */
  lemma MergeIdentity<K(!new)>(m: map<K, nat>)
    ensures MergeMaps(map[], m) == m && MergeMaps(m, map[]) == m
  {
    MapsEqual(MergeMaps(map[], m), m);
    MapsEqual(MergeMaps(m, map[]), m);
  }

  /** Merging is commutative. */
  lemma MergeCommutes<K(!new)>(a: map<K, nat>, b: map<K, nat>)
    ensures MergeMaps(a, b) == MergeMaps(b, a)
  {
    MapsEqual(MergeMaps(a, b), MergeMaps(b, a));
  }

  /** Merging is associative, so any grouping `reduce` chooses gives the same counts. */
  lemma MergeAssociative<K(!new)>(a: map<K, nat>, b: map<K, nat>, c: map<K, nat>)
    ensures MergeMaps(MergeMaps(a, b), c) == MergeMaps(a, MergeMaps(b, c))
  {
    MapsEqual(MergeMaps(MergeMaps(a, b), c), MergeMaps(a, MergeMaps(b, c)));
  }

  /** Combining the results of two parts: a panic in either is a panic, else the merge. */
  function Combine<K(==,!new)>(a: Result<map<K, nat>, Panic>, b: Result<map<K, nat>, Panic>): Result<map<K, nat>, Panic> {
    if a.Failure? || b.Failure? then Failure(Panic) else Success(MergeMaps(a.value, b.value))
  }

  /**
   * Counting two parts separately and merging the counts is counting their lines in one go:
   * the per-part counting followed by `reduce` loses and duplicates nothing.
   */
  lemma {:induction false} TallyAppend<K(!new)>(a: seq<LineOutcome<K>>, b: seq<LineOutcome<K>>)
    ensures Tally(a + b) == Combine(Tally(a), Tally(b))
    decreases |b|
  {
    if b == [] {
      assert a + b == a;
      if Tally(a).Success? {
        MergeIdentity(Tally(a).value);
      }
    } else {
      var init := b[..|b| - 1];
      var last := b[|b| - 1];
      assert (a + b)[..|a + b| - 1] == a + init;
      assert (a + b)[|a + b| - 1] == last;
      TallyAppend(a, init);
      if Tally(a).Success? && Tally(init).Success? && last.Counted? {
        var m := MergeMaps(Tally(a).value, Add(Tally(init).value, last.key, last.matches));
        MapsEqual(Add(MergeMaps(Tally(a).value, Tally(init).value), last.key, last.matches), m);
      }
    }
  }

  /** The lines of all parts, in order. */
  function Flatten(parts: seq<seq<string>>): seq<string>
    decreases |parts|
  {
    if parts == [] then [] else Flatten(parts[..|parts| - 1]) + parts[|parts| - 1]
  }

  lemma OutcomesAppend<K(!new)>(a: seq<string>, b: seq<string>, parse: string -> LineOutcome<K>)
    ensures Outcomes(a + b, parse) == Outcomes(a, parse) + Outcomes(b, parse)
  {
  }

  /**
   * `process_unigrams`/`process_bigrams` up to the merged map: each part counted, the counts
   * merged part by part.
   */
  method CountParts<K(==,!new)>(parts: seq<seq<string>>, parse: string -> LineOutcome<K>) returns (r: Result<map<K, nat>, Panic>)
    ensures r == Tally(Outcomes(Flatten(parts), parse))
  {
    var merged: map<K, nat> := map[];
    for i := 0 to |parts|
      invariant Tally(Outcomes(Flatten(parts[..i]), parse)) == Success(merged)
    {
      var counts := CountLines(parts[i], parse);
      assert parts[..i + 1][..i] == parts[..i];
      OutcomesAppend(Flatten(parts[..i]), parts[i], parse);
      TallyAppend(Outcomes(Flatten(parts[..i]), parse), Outcomes(parts[i], parse));
      if counts.Failure? {
        PartPanics(parts, i + 1, parse);
        return Failure(Panic);
      }
      merged := MergeInto(merged, counts.value);
    }
    assert parts[..|parts|] == parts;
    r := Success(merged);
  }

  /** A panic in the first `i` parts is a panic of the whole run. */
  lemma PartPanics<K(!new)>(parts: seq<seq<string>>, i: nat, parse: string -> LineOutcome<K>)
    requires i <= |parts| && Tally(Outcomes(Flatten(parts[..i]), parse)).Failure?
    ensures Tally(Outcomes(Flatten(parts), parse)).Failure?
  {
    var rest := parts[i..];
    FlattenAppend(parts[..i], rest);
    assert parts[..i] + rest == parts;
    OutcomesAppend(Flatten(parts[..i]), Flatten(rest), parse);
    TallyAppend(Outcomes(Flatten(parts[..i]), parse), Outcomes(Flatten(rest), parse));
  }

  lemma {:induction false} FlattenAppend(a: seq<seq<string>>, b: seq<seq<string>>)
    ensures Flatten(a + b) == Flatten(a) + Flatten(b)
    decreases |b|
  {
    if b != [] {
      assert (a + b)[..|a + b| - 1] == a + b[..|b| - 1];
      FlattenAppend(a, b[..|b| - 1]);
    } else {
      assert a + b == a;
    }
  }

  /** No key occurs twice. */
  ghost predicate DistinctKeys<K(!new)>(es: seq<(K, nat)>) {
    forall i, j :: 0 <= i < j < |es| ==> es[i].0 != es[j].0
  }

  /** `es` lists the entries of `m` whose keys are in `keys`, each once. */
  ghost predicate ListsSome<K(!new)>(es: seq<(K, nat)>, m: map<K, nat>, keys: set<K>) {
    DistinctKeys(es)
    && (forall i :: 0 <= i < |es| ==> es[i].0 in keys && es[i].0 in m && es[i].1 == m[es[i].0])
    && (forall k :: k in keys ==> exists i :: 0 <= i < |es| && es[i].0 == k)
  }

  /** `es` lists every entry of `m` once: what collecting a map into a vector gives, in some order. */
  ghost predicate Lists<K(!new)>(es: seq<(K, nat)>, m: map<K, nat>) {
    ListsSome(es, m, m.Keys) && |es| == |m|
  }

  /** `map.into_iter().collect::<Vec<_>>()`: the entries in an order the hasher decides. */
  method Collect<K(==,!new)>(m: map<K, nat>) returns (es: seq<(K, nat)>)
    ensures Lists(es, m)
  {
    es := [];
    var rest := m.Keys;
    while rest != {}
      invariant rest <= m.Keys && ListsSome(es, m, m.Keys - rest) && |es| + |rest| == |m|
      decreases |rest|
    {
      var k :| k in rest;
      CollectStep(es, m, rest, k);
      es := es + [(k, m[k])];
      rest := rest - {k};
    }
    assert m.Keys - rest == m.Keys;
  }

  /** One round of the collecting loop. */
  lemma CollectStep<K(!new)>(es: seq<(K, nat)>, m: map<K, nat>, rest: set<K>, k: K)
    requires rest <= m.Keys && ListsSome(es, m, m.Keys - rest) && k in rest
    ensures ListsSome(es + [(k, m[k])], m, m.Keys - (rest - {k}))
  {
    var es' := es + [(k, m[k])];
    forall j | j in m.Keys - (rest - {k}) ensures exists i :: 0 <= i < |es'| && es'[i].0 == j {
      if j == k {
        assert es'[|es|].0 == j;
      } else {
        assert j in m.Keys - rest;
        var i :| 0 <= i < |es| && es[i].0 == j;
        assert es'[i].0 == j;
      }
    }
  }

  /** Frequencies never increase along `es`. */
  ghost predicate SortedDesc<K(!new)>(es: seq<(K, nat)>) {
    forall i, j :: 0 <= i < j < |es| ==> es[i].1 >= es[j].1
  }

  /** Where a stable descending sort places `e` in front of `s`: after the strictly more frequent entries. */
  function Before<K(==,!new)>(e: (K, nat), s: seq<(K, nat)>): (p: nat)
    ensures p <= |s| && (forall i :: 0 <= i < p ==> s[i].1 > e.1) && (p < |s| ==> s[p].1 <= e.1)
  {
    if s == [] || s[0].1 <= e.1 then 0 else 1 + Before(e, s[1..])
  }

  /** `s` with `e` inserted where a stable descending sort puts it. */
  function Insert<K(==,!new)>(e: (K, nat), s: seq<(K, nat)>): (r: seq<(K, nat)>)
    ensures multiset(r) == multiset(s) + multiset{e} && |r| == |s| + 1
  {
    var p := Before(e, s);
    assert s == s[..p] + s[p..];
    s[..p] + [e] + s[p..]
  }

  /** The entry at position `i` after inserting `e`. */
  lemma InsertAt<K(!new)>(e: (K, nat), s: seq<(K, nat)>, i: nat)
    requires i <= |s|
    ensures Insert(e, s)[i] == if i < Before(e, s) then s[i] else if i == Before(e, s) then e else s[i - 1]
  {
  }

  /** Inserting into a sorted sequence keeps it sorted. */
  lemma InsertSorted<K(!new)>(e: (K, nat), s: seq<(K, nat)>)
    requires SortedDesc(s)
    ensures SortedDesc(Insert(e, s))
  {
    var p := Before(e, s);
    var r := Insert(e, s);
    forall i, j | 0 <= i < j < |r| ensures r[i].1 >= r[j].1 {
      InsertAt(e, s, i);
      InsertAt(e, s, j);
      if i < p && j > p {
        assert r[i] == s[i] && r[j] == s[j - 1];
      } else if i == p && j > p + 1 {
        assert s[p].1 >= s[j - 1].1;
      }
    }
  }

  /**
   * `sort_by_key(|(_, freq)| Reverse(*freq))`: a stable sort by descending frequency. The
   * result is sorted and a permutation of the input.
   */
  function SortDesc<K(==,!new)>(es: seq<(K, nat)>): (r: seq<(K, nat)>)
    ensures SortedDesc(r) && multiset(r) == multiset(es) && |r| == |es|
  {
    if es == [] then []
    else
      var t := SortDesc(es[1..]);
      InsertSorted(es[0], t);
      assert es == [es[0]] + es[1..];
      Insert(es[0], t)
  }

  /** Sorting keeps the keys distinct. */
  lemma {:induction false} SortDistinct<K(!new)>(es: seq<(K, nat)>)
    requires DistinctKeys(es)
    ensures DistinctKeys(SortDesc(es))
    decreases |es|
  {
    if es != [] {
      var e, t := es[0], SortDesc(es[1..]);
      SortDistinct(es[1..]);
      forall x | x in t ensures x.0 != e.0 {
        assert multiset(t)[x] > 0;
        assert x in es[1..];
        var i :| 0 <= i < |es[1..]| && es[1..][i] == x;
        assert es[i + 1] == x;
      }
      InsertDistinct(e, t);
    }
  }

  /** Inserting an entry whose key is new keeps the keys distinct. */
  lemma InsertDistinct<K(!new)>(e: (K, nat), t: seq<(K, nat)>)
    requires DistinctKeys(t) && forall x :: x in t ==> x.0 != e.0
    ensures DistinctKeys(Insert(e, t))
  {
    var p := Before(e, t);
    var r := Insert(e, t);
    forall i, j | 0 <= i < j < |r| ensures r[i].0 != r[j].0 {
      InsertAt(e, t, i);
      InsertAt(e, t, j);
      if i == p {
        assert t[j - 1] in t;
      } else if j == p {
        assert t[i] in t;
      }
    }
  }

  /** A prefix of a sorted list with distinct keys is one too. */
  lemma PrefixKeeps<K(!new)>(s: seq<(K, nat)>, n: nat)
    requires n <= |s| && SortedDesc(s) && DistinctKeys(s)
    ensures SortedDesc(s[..n]) && DistinctKeys(s[..n])
  {
    forall i, j | 0 <= i < j < n ensures s[..n][i].1 >= s[..n][j].1 && s[..n][i].0 != s[..n][j].0 {
      assert s[..n][i] == s[i] && s[..n][j] == s[j];
    }
  }

  /** The entries of `top` occur in it. */
  ghost predicate Written<K(!new)>(top: seq<(K, nat)>, k: K) {
    exists i :: 0 <= i < |top| && top[i].0 == k
  }

  /**
   * `top` is what the tool writes for the counts `m`: at most `max` entries of `m`, each
   * once, most frequent first, all of `m` when it has no more than `max` keys, and no
   * entry left out is more frequent than an entry written.
   */
  ghost predicate TopOf<K(!new)>(top: seq<(K, nat)>, m: map<K, nat>, max: nat) {
    |top| == (if |m| < max then |m| else max)
    && SortedDesc(top) && DistinctKeys(top) && EntriesOf(top, m) && Largest(top, m)
  }

  /** Every entry of `top` is an entry of `m`. */
  ghost predicate EntriesOf<K(!new)>(top: seq<(K, nat)>, m: map<K, nat>) {
    forall i :: 0 <= i < |top| ==> top[i].0 in m && top[i].1 == m[top[i].0]
  }

  /** Every key of `m` is written in `top` or counts no more than any entry written. */
  ghost predicate Largest<K(!new)>(top: seq<(K, nat)>, m: map<K, nat>) {
    forall k :: k in m ==> Written(top, k) || forall i :: 0 <= i < |top| ==> top[i].1 >= m[k]
  }

  /** Every sorted entry is an entry of `m`. */
  lemma SortedEntries<K(!new)>(es: seq<(K, nat)>, m: map<K, nat>, x: (K, nat))
    requires Lists(es, m) && x in SortDesc(es)
    ensures x.0 in m && x.1 == m[x.0]
  {
    assert multiset(es)[x] == multiset(SortDesc(es))[x] > 0;
    var i :| 0 <= i < |es| && es[i] == x;
  }

  /** Every entry of `m` is somewhere in the sorted list. */
  lemma SortedCovers<K(!new)>(es: seq<(K, nat)>, m: map<K, nat>, k: K) returns (q: nat)
    requires Lists(es, m) && k in m
    ensures q < |SortDesc(es)| && SortDesc(es)[q] == (k, m[k])
  {
    assert k in m.Keys;
    var j :| 0 <= j < |es| && es[j].0 == k;
    assert multiset(SortDesc(es))[es[j]] == multiset(es)[es[j]] > 0;
    q :| 0 <= q < |SortDesc(es)| && SortDesc(es)[q] == es[j];
  }

  /** Sorting the collected entries and keeping the first `max` selects the most frequent ones. */
  lemma TopSelection<K(!new)>(es: seq<(K, nat)>, m: map<K, nat>, max: nat)
    requires Lists(es, m)
    ensures TopOf(SortDesc(es)[..if |es| < max then |es| else max], m, max)
  {
    var n := if |es| < max then |es| else max;
    SortDistinct(es);
    PrefixKeeps(SortDesc(es), n);
    TopEntries(es, m, n);
    TopLargest(es, m, n);
  }

  /** The first `n` sorted entries are entries of `m`. */
  lemma TopEntries<K(!new)>(es: seq<(K, nat)>, m: map<K, nat>, n: nat)
    requires Lists(es, m) && n <= |es|
    ensures EntriesOf(SortDesc(es)[..n], m)
  {
    var s := SortDesc(es);
    forall i | 0 <= i < n ensures s[..n][i].0 in m && s[..n][i].1 == m[s[..n][i].0] {
      assert s[..n][i] == s[i];
      SortedEntries(es, m, s[i]);
    }
  }

  /** No entry of `m` outside the first `n` sorted entries is more frequent than one inside. */
  lemma TopLargest<K(!new)>(es: seq<(K, nat)>, m: map<K, nat>, n: nat)
    requires Lists(es, m) && n <= |es|
    ensures Largest(SortDesc(es)[..n], m)
  {
    var s := SortDesc(es);
    var top := s[..n];
    forall k | k in m ensures Written(top, k) || forall i :: 0 <= i < n ==> top[i].1 >= m[k] {
      var q := SortedCovers(es, m, k);
      if q < n {
        assert top[q].0 == k;
      } else {
        forall i | 0 <= i < n ensures top[i].1 >= m[k] {
          assert top[i] == s[i];
        }
      }
    }
  }

  /**
   * The writing loop: `for (i, entry) in entries.enumerate() { if i == max { break } ... }`
   * writes one record per entry until `max` have been written.
   */
  method WriteTop<K(==,!new)>(es: seq<(K, nat)>, max: nat, format: ((K, nat)) -> string) returns (out: seq<string>)
    ensures |out| == (if |es| < max then |es| else max)
    ensures forall i :: 0 <= i < |out| ==> out[i] == format(es[i])
  {
    out := [];
    var i := 0;
    while i < |es|
      invariant i <= |es| && i <= max && |out| == i
      invariant forall j :: 0 <= j < i ==> out[j] == format(es[j])
    {
      if i == max {
        break;
      }
      out := out + [format(es[i])];
      i := i + 1;
    }
  }

  /** `writeln!(writer, "{}\t{}", word, freq)`. */
  function UnigramRecord(e: (string, nat)): string {
    e.0 + "\t" + ShowNat(e.1) + "\n"
  }

  /**
   * A written unigram record reads back: trimmed and split at the tab it gives the word and
   * the digits of the count, which parse to the count.
   */
  lemma UnigramRecordReads(e: (string, nat))
    requires e.0 != [] && AllLower(e.0) && e.1 <= USIZE_MAX
    ensures Split(Trim(UnigramRecord(e)), '\t') == [e.0, ShowNat(e.1)]
    ensures ParseUsize(ShowNat(e.1)) == Success(e.1)
  {
    var w, d := e.0, ShowNat(e.1);
    var line := w + "\t" + d;
    LineTrimmed(w, d);
    TrimNewline(line);
    TabPair(w, d);
    ParseShow(e.1);
  }

  /** A word and a count joined by a tab start and end with neither whitespace. */
  lemma LineTrimmed(w: string, d: string)
    requires w != [] && AllLower(w) && d != [] && AllDigits(d)
    ensures Trimmed(w + "\t" + d)
  {
    var line := w + "\t" + d;
    assert line[0] == w[0];
    assert line[|line| - 1] == d[|d| - 1];
  }

  /** A tab-free word and a tab-free count split back apart at the tab joining them. */
  lemma TabPair(w: string, d: string)
    requires AllLower(w) && AllDigits(d)
    ensures Split(w + "\t" + d, '\t') == [w, d]
  {
    assert '\t' !in w && '\t' !in d;
    assert Join([w, d], '\t') == w + "\t" + d by {
      assert [w, d][1..] == [d];
    }
    JoinSplit([w, d], '\t');
  }

  /** A line whose ends are not whitespace is what trimming it with its newline leaves. */
  lemma TrimNewline(line: string)
    requires Trimmed(line)
    ensures Trim(line + "\n") == line
  {
    if line == [] {
      assert TrimStart("\n") == [];
    } else {
      assert TrimStart(line + "\n") == line + "\n";
      assert (line + "\n")[..|line|] == line;
      assert TrimEnd(line + "\n") == TrimEnd(line);
      TrimFixed(line);
    }
  }

  /** `writeln!(writer, "{} {}\t{}", left, right, freq)`. */
  function BigramRecord(e: ((string, string), nat)): string {
    e.0.0 + " " + e.0.1 + "\t" + ShowNat(e.1) + "\n"
  }

  /**
   * The whole of `process_unigrams`/`process_bigrams`: count every part, merge, collect,
   * sort and write the first `max` records. The run panics exactly when some line does;
   * otherwise the records written are those of the most frequent entries of the total
   * counts.
   */
  method Process<K(==,!new)>(parts: seq<seq<string>>, parse: string -> LineOutcome<K>, max: nat,
                             format: ((K, nat)) -> string)
    returns (r: Result<seq<string>, Panic>, top: seq<(K, nat)>)
    ensures r.Failure? <==> Tally(Outcomes(Flatten(parts), parse)).Failure?
    ensures r.Success? ==> TopOf(top, Tally(Outcomes(Flatten(parts), parse)).value, max)
    ensures r.Success? ==> |r.value| == |top| && forall i :: 0 <= i < |top| ==> r.value[i] == format(top[i])
  {
    var counts := CountParts(parts, parse);
    if counts.Failure? {
      return Failure(Panic), [];
    }
    var es := Collect(counts.value);
    var sorted := SortDesc(es);
    var lines := WriteTop(sorted, max, format);
    top := sorted[..|lines|];
    TopSelection(es, counts.value, max);
    r := Success(lines);
  }

  /** `process_unigrams` on the lines of its input parts. */
  method ProcessUnigrams(parts: seq<seq<string>>, list: set<string>)
    returns (r: Result<seq<string>, Panic>, top: seq<(string, nat)>)
    ensures r.Failure? <==> Tally(Outcomes(Flatten(parts), ln => UnigramLine(ln, list))).Failure?
    ensures r.Success? ==> TopOf(top, Tally(Outcomes(Flatten(parts), ln => UnigramLine(ln, list))).value, MAX_UNIGRAMS)
    ensures r.Success? ==> |r.value| == |top| && forall i :: 0 <= i < |top| ==> r.value[i] == UnigramRecord(top[i])
  {
    r, top := Process(parts, ln => UnigramLine(ln, list), MAX_UNIGRAMS, UnigramRecord);
  }

  /** `process_bigrams` on the lines of its input parts. */
  method ProcessBigrams(parts: seq<seq<string>>, list: set<string>)
    returns (r: Result<seq<string>, Panic>, top: seq<((string, string), nat)>)
    ensures r.Failure? <==> Tally(Outcomes(Flatten(parts), ln => BigramLine(ln, list))).Failure?
    ensures r.Success? ==> TopOf(top, Tally(Outcomes(Flatten(parts), ln => BigramLine(ln, list))).value, MAX_BIGRAMS)
    ensures r.Success? ==> |r.value| == |top| && forall i :: 0 <= i < |top| ==> r.value[i] == BigramRecord(top[i])
  {
    r, top := Process(parts, ln => BigramLine(ln, list), MAX_BIGRAMS, BigramRecord);
  }
}
