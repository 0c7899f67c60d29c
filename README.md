# instant-segment, modelled in Dafny

instant-segment splits text without spaces into words (`"thisisatest"` → `this is a test`).
It uses unigram and bigram counts from the Google Books n-gram corpus. This project models
three parts of the repository and proves what each promises:

- **The current engine** (`instant-segment/src/lib.rs`):
  - `Segmenter` holds the counts and their totals. `score` is the "stupid backoff" word
    probability.
  - `Ascii` checks that the input is lowercase ASCII.
  - `BitVec`, a 256-bit set of split offsets, and its `Splits` iterator.
  - `Search`, the reusable buffers (memo, per-level split sets, result).
  - `SegmentState`, whose memoised recursive `search` finds the best-scoring splits of a
    window and whose `run` pushes the words.
  - `Segmenter::segment`.
- **The earlier engine** (`src/lib.rs`): `clean`, the `TextDivider` iterator, its
  `SegmentState`, whose memo is keyed by string slices, the windowed `run` that holds back
  the last five words of each window, `score`, and `segment`.
- **The data-preparation tool** (`instant-segment/examples/merge.rs`):
  - `read_word_list` and `normalize`.
  - Parsing n-gram lines, with the year filter.
  - Counting matches per part.
  - The `reduce` that merges the parts' counts.
  - The descending sort, the top-N cut and the output records.

Modules, one per file:

| file | module | what it holds |
|---|---|---|
| `wrappers.dfy` | `Wrappers` | `Option`, `Result` |
| `strings.dfy` | `Strings` | `Concat` of words, with its lemmas |
| `scoring.dfy` | `Scoring` | `Segmenter`, `Score`, `FromMaps`, score lemmas |
| `ascii.dfy` | `AsciiText` | `Ascii::new`, `len`, slicing |
| `bitvec.dfy` | `BitVecs` | the `BitVec` value, `set`/`clear`/`\|=`, `Decode`, class `Splits` |
| `search_spec.dfy` | `SearchSpec` | `Best`: the best segmentation as a function, with its optimality and spelling lemmas |
| `engine.dfy` | `Engine` | classes `Search` and `SegmentState`, `Segment` |
| `search_depth.dfy` | `SearchDepth` | the recursion depth of `search` as written, and the `best` entries it indexes |
| `legacy_text.dfy` | `LegacyText` | `clean`, class `TextDivider` |
| `legacy_spec.dfy` | `LegacySpec` | the earlier engine's score, search and windowed run as functions, related to `SearchSpec` |
| `legacy.dfy` | `Legacy` | the earlier engine's class `SegmentState`, `Segment` |
| `ngram_text.dfy` | `NgramText` | `trim`, `split`, string order, `usize::from_str`, decimal output |
| `merge.dfy` | `Merge` | the data-preparation tool |

How the engines are modelled:

- **Scores are `real`.** `f64::log10` is a parameter `lg: real -> real`. The proofs never
  rely on any property of it, so optimality holds for any function put in its place.
- **The search is specified by a function.** `SearchSpec.Best(seg, lg, t, prev, s, e)` is
  the outcome of searching `t[s..e]` after the word `prev`. It returns a score and the
  ascending list of split positions.
- **The methods are proved against that function.**
  - Both engines' `search` methods are proved to compute `Best`.
  - The current engine's `best[level]` bit set decodes to `Best`'s split positions.
  - Every memo entry is proved to hold the `Best` of its key.
- **The source's search is lemmas about `Best`.** It scores at least as high as every
  segmentation of the text into words of 1 to `limit` bytes (`BestOptimal`). On a tie it
  keeps the first split that strictly improved the score (`BestChoice`). Its words spell
  the text (`SegmentationSpells`).

How the tool is modelled:

- A file is a sequence of lines.
- An `unwrap` that panics is the `Failure` of a `Result`.
- Iterating a `HashMap` chooses its keys in an unspecified order (`:|`).
- The parallel `reduce` is a fold over the parts. Merging is proved commutative and
  associative with the empty map as identity, so every grouping `rayon` can choose gives
  the same counts.

## Model

| member | source | states |
|---|---|---|
| `Scoring.FromMaps` | instant-segment/src/lib.rs:42-53 | the segmenter keeps both maps, each total is the sum of its map's values, and the limit is the default 24 |
| `Scoring.SumValues` | instant-segment/src/lib.rs:42-53 | the loop over a map's values computes the sum of all its values |
| `Scoring.FromPositiveCounts` | instant-segment/src/lib.rs:42-53 | a segmenter built from non-empty positive counts has non-zero totals and counts, so every score is defined and positive |
| `Scoring.BackoffToUnigram` | instant-segment/src/lib.rs:69-89 | without a previous word, or without both the bigram and the previous word's unigram, the score is the unigram score; a known word scores its count over the unigram total |
| `Scoring.BigramScore` | instant-segment/src/lib.rs:69-89 | with a known bigram and previous word, score × (previous word's unigram score) = bigram count / bigram total (stupid backoff) |
| `Scoring.UnknownLongerScoresLess` | instant-segment/src/lib.rs:81-87 | of two unknown words the longer scores strictly less, and both score above 0 |
| `Scoring.ScorePositive` | instant-segment/src/lib.rs:69-89 | with positive counts and totals every score is positive, so `log10` is applied to a positive value |
| `Scoring.KnownBeatsUnknown` | instant-segment/src/lib.rs:81-87 | a unigram with count at least 1 never scores below an unknown word of one byte or more, given no previous word |
| `Scoring.Score` | instant-segment/src/lib.rs:69-88 | the score of a word after the previous one: the bigram share over the previous word's unigram share when both are known, else the unigram share, else the length penalty; its branches are stated by `BackoffToUnigram`, `BigramScore`, `UnknownLongerScoresLess` and `ScorePositive` |
| `Scoring.Pow10Increasing` | instant-segment/src/lib.rs:86 | the length penalty `10^len` grows at least tenfold per extra byte |
| `AsciiText.NewAscii` | instant-segment/src/lib.rs:272-278 | `Ascii::new` fails exactly when some character is not `a`-`z`; on success it wraps the text unchanged |
| `AsciiText.Index` | instant-segment/src/lib.rs:288-292 | a slice `lo..hi` has length `hi - lo` and holds the bytes from `lo` on |
| `AsciiText.IndexWhole` | instant-segment/src/lib.rs:280-292 | the slice `0..len` of an accepted text is the text |
| `AsciiText.IndexValid` | instant-segment/src/lib.rs:272-292 | a slice of valid ASCII text is accepted by `Ascii::new` again |
| `AsciiText.RejectExample` | instant-segment/src/lib.rs:316-317 | the unit test: "Can't buy me love!" is rejected |
| `AsciiText.AcceptExample` | instant-segment/src/lib.rs:318-319 | the unit test: "cantbuymelove" is accepted and its whole slice is itself |
| `BitVecs.SetBit` | instant-segment/src/lib.rs:208-216 | `set(b)` adds exactly `b` to the set |
| `BitVecs.Clear` | instant-segment/src/lib.rs:218-222 | `clear` empties the set |
| `BitVecs.Union` | instant-segment/src/lib.rs:234-239 | `\|=` leaves the union of both sets |
| `BitVecs.EmptyHasNothing` | instant-segment/src/lib.rs:205 | the default bit vector is empty |
| `BitVecs.DecodeSpec` | instant-segment/src/lib.rs:224-230 | `decode(offset)` is strictly increasing and holds exactly `offset + b` for each set bit `b` |
| `BitVecs.Decode` | instant-segment/src/lib.rs:224-266 | `decode(offset)` collected, word 3 first; `DecodeSpec` and `DecodeIsSorted` state it is the increasing listing of `offset + b` for the set bits `b`, and `Collect` that draining `Splits` yields it |
| `BitVecs.DecodeIsSorted` | instant-segment/src/lib.rs:224-230 | `decode` is the unique strictly increasing listing of the shifted set |
| `BitVecs.DecodeEmpty` | instant-segment/src/lib.rs:325 | an empty set decodes to nothing (first assertion of the unit test) |
| `BitVecs.DecodeExamples` | instant-segment/src/lib.rs:322-349 | the unit test: the vector built with `set(1)`, `set(5)`, `set(64)`, `set(255)` and `\|=` of `{3, 16, 128}` decodes after each step to `[1]`, `[11, 15]` at offset 10, `[1, 5, 64]`, `[1, 5, 64, 255]` and `[1, 3, 5, 16, 64, 128, 255]` |
| `BitVecs.DecodeWordSpec` | instant-segment/src/lib.rs:224-230 | the positions decoded from one 64-bit word are increasing and are exactly its set bits |
| `BitVecs.DecodeWordsMembers` | instant-segment/src/lib.rs:224-230 | the words from `k` down to 0 decode to exactly the set members in their range |
| `BitVecs.TrailingZeros` | instant-segment/src/lib.rs:261 | `trailing_zeros` of a non-zero word is the index of its lowest set bit |
| `BitVecs.NextStep` | instant-segment/src/lib.rs:251-266 | when the words above `idx` are zero, clearing the lowest bit of word `idx` removes the head of `decode` and leaves the rest |
| `BitVecs.Splits.constructor` | instant-segment/src/lib.rs:224-230 | a fresh iterator still has to yield all of `decode(offset)` |
| `BitVecs.Splits.Next` | instant-segment/src/lib.rs:251-266 | `next` yields the first remaining offset and removes it; when nothing remains it yields `None` |
| `BitVecs.Collect` | instant-segment/src/lib.rs:224-266 | draining the iterator yields `decode(offset)` in order |
| `SearchSpec.Best` | instant-segment/src/lib.rs:135-175 | the score and splits `search` finds for `t[s..e]` after `prev`: `(0, [])` on an empty range, else the first strictly best candidate of the split loop; `BestIsPath`, `BestOptimal` and `BestChoice` state what it is |
| `SearchSpec.Keep` | instant-segment/src/lib.rs:163-170 | the kept candidate is the new one or the old one, and scores at least as high as both; the earlier engine's loop (src/lib.rs:139-145) uses it over words |
| `SearchSpec.ScanStep` | instant-segment/src/lib.rs:142-171 | one round of the split loop: the best so far is replaced by the candidate only when that scores higher |
| `SearchSpec.BestChoice` | instant-segment/src/lib.rs:142-171 | the best is a candidate no other split outscores, and every shorter first word scores strictly less (strict `>`, so the first maximum wins) |
| `SearchSpec.BestIsPath` | instant-segment/src/lib.rs:135-175 | the best splits form a segmentation into words of 1 to `limit` bytes, and its score is the sum of its words' log-scores, each after the word before it |
| `SearchSpec.BestOptimal` | instant-segment/src/lib.rs:135-175 | no segmentation into words of 1 to `limit` bytes scores higher than the best |
| `SearchSpec.ValidPathShape` | instant-segment/src/lib.rs:142-143 | split positions increase strictly, end at the range end, and are at most `limit` apart |
| `SearchSpec.WordsSpell` | instant-segment/src/lib.rs:127-130 | the words cut at a segmentation's splits concatenate to the text, each 1 to `limit` bytes |
| `SearchSpec.SegmentationSpells` | instant-segment/src/lib.rs:115-133 | the segmentation's words concatenate to the text and are 1 to `limit` bytes long; there are none exactly when the text is empty |
| `SearchSpec.FirstWordsPrefix` | instant-segment/src/lib.rs:127-130 | the first `n` words pushed are the words of the first `n` splits |
| `Engine.AsU8` | instant-segment/src/lib.rs:147-151 | `as u8` keeps values below 256 and changes every larger one |
| `Engine.Search.constructor` | instant-segment/src/lib.rs:194-201 | `Search::default`: empty memo and result, every per-level set empty; `best` has `SEGMENT_SIZE + 1` entries, the corrected size (see "## Findings") |
| `Engine.Search.Clear` | instant-segment/src/lib.rs:185-191 | `clear` empties the memo, every per-level set and the result |
| `Engine.SegmentState.constructor` | instant-segment/src/lib.rs:104-113 | `SegmentState::new` clears the search buffers and starts at offset 0 |
| `Engine.SegmentState.Search` | instant-segment/src/lib.rs:135-175 | returns the best score of the range, and `best[level]` decodes to the best splits; lower levels are untouched and memo entries are only added |
| `Engine.SegmentState.Consider` | instant-segment/src/lib.rs:142-170 | one round of the split loop keeps the better of the best so far and this split's candidate, in both the score and `best[level]` |
| `Engine.SegmentState.Suffix` | instant-segment/src/lib.rs:147-161 | the memo lookup, or the recursive search one level down and its memo insert, gives the suffix's best score and splits |
| `Engine.SegmentState.Record` | instant-segment/src/lib.rs:166-169 | `clear`, `set(split)` and `\|=` make `best[level]` decode to the split followed by the suffix's splits, and no other level changes |
| `Engine.CandFromSuffix` | instant-segment/src/lib.rs:143-163 | a candidate's score is the prefix's log-score plus the suffix's best, and its splits are the split followed by the suffix's |
| `Engine.PrependSplit` | instant-segment/src/lib.rs:166-169 | a set holding the split and the suffix's splits decodes to the split followed by them |
| `Engine.SegmentState.Run` | instant-segment/src/lib.rs:115-133 | for a text of at most one window, `run` appends exactly the best segmentation to the result |
| `Engine.PushSplits` | instant-segment/src/lib.rs:127-130 | pushing the words before the first `limit` decoded splits appends exactly those words and leaves `start` at the last split pushed |
| `Engine.WholePath` | instant-segment/src/lib.rs:122-130 | on a single window (`limit` is `usize::MAX`), the words pushed are the whole segmentation |
| `Engine.Segment` | instant-segment/src/lib.rs:60-67 | for inputs of at most one window, `segment` fails exactly when the input has a character outside `a`-`z`, and then leaves the buffers untouched; otherwise it returns the result buffer, which holds the best segmentation |
| `SearchDepth.Descend` | instant-segment/src/lib.rs:135-162 | the calls `search` makes as written: an empty range clears `best[level]`, and each split whose key is not in the memo recurses one level down and then adds the key; the deepest level touched is at least `level` |
| `SearchDepth.Rounds` | instant-segment/src/lib.rs:142-162 | the split loop of `search`: the deepest level touched never decreases, and memo keys are only added |
| `SearchDepth.DescendBounded` | instant-segment/src/lib.rs:135-162 | a search of a range of `n` bytes at `level` touches no level deeper than `level + n` |
| `SearchDepth.DescendReaches` | instant-segment/src/lib.rs:135-162 | from a memo with no key at or after `start`, the chain of one-byte words reaches level `level + n` exactly |
| `SearchDepth.FullWindowOverruns` | instant-segment/src/lib.rs:115-120 | as written, the first window of a text of 250 bytes or more indexes `best[250]`, past the end of `best: [BitVec; SEGMENT_SIZE]` |
| `SearchDepth.ShortTextFits` | instant-segment/src/lib.rs:115-120 | as written, a text shorter than 250 bytes reaches level `len`, inside `best` |
| `SearchDepth.WindowFitsLevels` | instant-segment/src/lib.rs:115-120 | with `SEGMENT_SIZE + 1` entries in `best`, every window of at most `SEGMENT_SIZE` bytes stays in bounds, whatever the memo holds |
| `LegacyText.Clean` | src/lib.rs:178-188 | the cleaned text is never longer than the input |
| `LegacyText.CleanOutput` | src/lib.rs:178-188 | every character of a cleaned text is a lowercase ASCII letter or a digit |
| `LegacyText.CleanChar` | src/lib.rs:180-186 | one character is kept, lowercased, exactly when it is ASCII alphanumeric |
| `LegacyText.CleanAppend` | src/lib.rs:178-188 | cleaning distributes over concatenation |
| `LegacyText.CleanFixed` | src/lib.rs:178-188 | clean text is left unchanged |
| `LegacyText.CleanIdempotent` | src/lib.rs:178-188 | cleaning twice is cleaning once |
| `LegacyText.CleanExample` | src/lib.rs:213-215 | the unit test: "Can't buy me love!" cleans to "cantbuymelove" |
| `LegacyText.TextDivider.constructor` | src/lib.rs:159-164 | the divider yields prefix lengths 1 to `min(len, limit)` |
| `LegacyText.TextDivider.Next` | src/lib.rs:170-174 | `next` yields `(text[..split], text[split..])` for the next split and advances, or `None` once the range is exhausted |
| `LegacyText.PairsSnoc` | src/lib.rs:162 | extending the range by one split adds one pair at the end |
| `LegacyText.Divisions` | src/lib.rs:153-174 | the divider yields `min(len, limit)` pairs, the `k`-th being `(text[..k], text[k..])`, each a non-empty prefix of at most `limit` bytes and the rest of the text |
| `LegacySpec.OldScore` | src/lib.rs:44-63 | the earlier score: the bigram share of `total` divided by the previous word's unigram score when both are known, else the unigram share, else the length penalty; `OldScoreAgrees`, `OldBackoff` and `OldUnknownLongerScoresLess` state it |
| `LegacySpec.OldScoreAgrees` | src/lib.rs:44-63 | the earlier score, which divides by `score(prev, None)` and uses one total, equals the current score with both totals set to that total |
| `LegacySpec.OldBackoff` | src/lib.rs:44-63 | the earlier score backs off to the unigram score, and a known bigram's score × the previous word's score = bigram count / total |
| `LegacySpec.OldUnknownLongerScoresLess` | src/lib.rs:59-61 | of two unknown words the longer scores strictly less |
| `LegacySpec.OldScanStep` | src/lib.rs:123-146 | one round of the divider loop replaces the best only when the candidate scores higher |
| `LegacySpec.OldBest` | src/lib.rs:117-149 | the score and words `search(t, prev)` returns: `(0.0, [])` for an empty text, else the first pair of the divider loop that scores strictly best; `OldBestIsBest`, `OldBestChoice` and `OldBestSpells` state it |
| `LegacySpec.OldBestIsBest` | src/lib.rs:117-149 | searching a slice after the previous word gives the current engine's best score, and its words are the slice cut at the best splits |
| `LegacySpec.OldCandIsCand` | src/lib.rs:123-145 | each `(prefix, suffix)` candidate of the earlier search is the matching candidate of the current one |
| `LegacySpec.OldScanIsScan` | src/lib.rs:122-148 | the earlier loop over the divider computes what the current split loop computes |
| `LegacySpec.LiftKeep` | src/lib.rs:139-145 | keeping the better candidate commutes with cutting splits into words |
| `LegacySpec.OldBestSpells` | src/lib.rs:117-149 | the searched words concatenate to the text, are 1 to `limit` bytes long, and an empty text gives `(0.0, [])` |
| `LegacySpec.OldBestChoice` | src/lib.rs:122-148 | the best is a pair no other prefix length outscores, and every shorter prefix scores strictly less |
| `LegacySpec.Committed` | src/lib.rs:101 | `window_words[..len.saturating_sub(5)]`: all but the last five words, or none when there are at most five |
| `LegacySpec.CommittedPrefix` | src/lib.rs:101-104 | the committed words spell a prefix of the window |
| `LegacySpec.RunFromWindow` | src/lib.rs:96-109 | one window: the committed words spell `text[start..start']`, and the run from there is the committed words followed by the rest of the run (or the final search) |
| `LegacySpec.WindowCommit` | src/lib.rs:97-104 | the words committed from a window spell the text from `start` to the new `start`, which stays within the window |
| `LegacySpec.RunFrom` | src/lib.rs:94-114 | the words `run` appends from a window start on: each window's committed words, then the whole search after the last committed word; `RunFromWindow` and `RunFromSpells` state it |
| `LegacySpec.OldRun` | src/lib.rs:94-114 | `run` from the start of the text; `OldRunSpells` states that its words spell the text |
| `LegacySpec.RunFromSpells` | src/lib.rs:94-114 | the words of the windowed run from `start` concatenate to the rest of the text, each 1 to `limit` bytes |
| `LegacySpec.OldRunSpells` | src/lib.rs:94-114 | `run`'s words concatenate to the text, each 1 to `limit` bytes, and there are none exactly when the text is empty |
| `LegacySpec.OldSegment` | src/lib.rs:38-42 | `segment`: `run` over the cleaned text; `OldSegmentSpells` states its words |
| `LegacySpec.OldSegmentSpells` | src/lib.rs:39-42 | `segment` appends words that spell the cleaned text, each 1 to `limit` bytes and made of lowercase ASCII letters and digits |
| `Legacy.SegmentState.constructor` | src/lib.rs:84-91 | a fresh state has an empty memo and appends to the given result |
| `Legacy.SegmentState.Search` | src/lib.rs:117-149 | returns the best score and words of the text after `previous`, and keeps every memo entry the best of its key |
| `Legacy.SegmentState.Consider` | src/lib.rs:124-145 | one round: the suffix comes from the memo or from a recursive search recorded with `or_insert`, and the pair replaces the best so far only when it scores higher |
| `Legacy.SegmentState.Commit` | src/lib.rs:101-104 | pushes the first `n` words and advances `start` by their total length |
| `Legacy.SegmentState.Run` | src/lib.rs:94-114 | appends exactly the windowed run's words to the result |
| `Legacy.Segment` | src/lib.rs:39-42 | appends the windowed run over the cleaned text to `out` |
| `NgramText.IsWhitespace` | instant-segment/examples/merge.rs:147 | `char::is_whitespace`, the Unicode `White_Space` characters `trim` removes; used by `TrimStart`, `TrimEnd` and `TrimSlice` |
| `NgramText.TrimStart` | instant-segment/examples/merge.rs:147 | the result is a suffix, starts with no whitespace, and only whitespace was dropped |
| `NgramText.TrimEnd` | instant-segment/examples/merge.rs:221 | the result is a prefix, ends with no whitespace, and only whitespace was dropped |
| `NgramText.Trim` | instant-segment/examples/merge.rs:147 | `trim`: `trim_end` after `trim_start`; `TrimSlice`, `TrimFixed` and `TrimIdempotent` state it |
| `NgramText.TrimSlice` | instant-segment/examples/merge.rs:147 | `trim` is a slice `s[i..j]` with neither end whitespace, and only whitespace lies outside it |
| `NgramText.TrimFixed` | instant-segment/examples/merge.rs:244 | a string with no whitespace at either end trims to itself |
| `NgramText.TrimIdempotent` | instant-segment/examples/merge.rs:244 | trimming twice is trimming once |
| `NgramText.Lower` | instant-segment/examples/merge.rs:250 | `make_ascii_lowercase` keeps the length and lowercases character by character |
| `NgramText.LowerLetters` | instant-segment/examples/merge.rs:245-250 | lowercasing letters gives lowercase letters, and leaves lowercase text unchanged |
| `NgramText.Find` | instant-segment/examples/merge.rs:147 | the first occurrence of the separator |
| `NgramText.Split` | instant-segment/examples/merge.rs:147 | `split` yields at least one field, and no field holds the separator |
| `NgramText.SplitJoin` | instant-segment/examples/merge.rs:147 | joining the fields back with the separator gives the line |
| `NgramText.JoinSplit` | instant-segment/examples/merge.rs:147 | splitting fields joined by a separator none of them holds gives the fields back |
| `NgramText.LexLess` | instant-segment/examples/merge.rs:161 | `<` on `str`, character by character; `LexTrichotomy`, `LexTransitive` and `LexLessDigits` state it |
| `NgramText.LexTrichotomy` | instant-segment/examples/merge.rs:161 | the `<` on strings is a strict total order: exactly one of `<`, `==`, `>` |
| `NgramText.LexTransitive` | instant-segment/examples/merge.rs:161 | the `<` on strings is transitive |
| `NgramText.LexLessDigits` | instant-segment/examples/merge.rs:161 | on digit strings of equal length, string `<` is numeric `<` |
| `NgramText.DigitsBound` | instant-segment/examples/merge.rs:164 | `n` digits are worth less than `10^n` |
| `NgramText.ParseUsize` | instant-segment/examples/merge.rs:164 | a count that parses fits `usize` |
| `NgramText.ShowNat` | instant-segment/examples/merge.rs:189 | the decimal output is a non-empty digit string with no leading zero |
| `NgramText.ShowNatValue` | instant-segment/examples/merge.rs:189 | the decimal output is worth the number |
| `NgramText.ParseShow` | instant-segment/examples/merge.rs:164-189 | a written count parses back to itself |
| `Merge.Normalize` | instant-segment/examples/merge.rs:243-252 | accepts exactly the words whose trimmed form is all ASCII letters and listed; the result is lowercase, with the trimmed length |
| `Merge.NormalizeCapitalised` | instant-segment/examples/merge.rs:231-252 | membership is tested before lowercasing: a word listed only capitalised is accepted and lowercased, and its lowercase form is rejected |
| `Merge.SpainExample` | instant-segment/examples/merge.rs:239-242 | the documented example: "Spain" is accepted as "spain", and "spain" is rejected |
| `Merge.NormalizeIdempotent` | instant-segment/examples/merge.rs:243-252 | a normalised word that is itself listed normalises to itself |
| `Merge.WordList` | instant-segment/examples/merge.rs:221-224 | the words `read_word_list` keeps: each line's `trim_end` form, when all its characters are ASCII letters; `WordListSnoc`, `ListedWordsNormalize` and `BlankLineListed` state it |
| `Merge.ReadWordList` | instant-segment/examples/merge.rs:198-229 | the list is the set of lines, trailing whitespace removed, that are all ASCII letters |
| `Merge.WordListSnoc` | instant-segment/examples/merge.rs:221-224 | each line read adds its trimmed form exactly when that is all letters |
| `Merge.ListedWordsNormalize` | instant-segment/examples/merge.rs:221-224 | every listed word is all letters and normalises to its lowercase form |
| `Merge.BlankLineListed` | instant-segment/examples/merge.rs:221-224 | a blank line of the word list puts the empty word in the list, since `all` holds on no bytes |
| `Merge.Column` | instant-segment/examples/merge.rs:160-164 | one year column: 0 for a year before 2000, else its parsed match count, or a panic; `EarlyColumnIgnored` and `LateColumnCounted` state it |
| `Merge.YearTotal` | instant-segment/examples/merge.rs:158-165 | a line's matches: the sum over its year columns, or a panic; `YearTotalPanics`, `EarlyLineCountsNothing` and `PanicSpreads` state it |
| `Merge.YearFilter` | instant-segment/examples/merge.rs:161 | for four-digit years the string comparison with "2000" is the numeric one |
| `Merge.EarlyColumnIgnored` | instant-segment/examples/merge.rs:160-163 | a column from before 2000 counts 0 and never panics, whatever follows its year |
| `Merge.LateColumnCounted` | instant-segment/examples/merge.rs:160-164 | a column from 2000 on counts its match count |
| `Merge.YearTotalPanics` | instant-segment/examples/merge.rs:158-165 | a line panics exactly when one of its year columns does |
| `Merge.EarlyLineCountsNothing` | instant-segment/examples/merge.rs:158-165 | a line with only pre-2000 columns counts 0 |
| `Merge.Matches` | instant-segment/examples/merge.rs:158-165 | the loop over the year columns computes the line's total, or panics |
| `Merge.PanicSpreads` | instant-segment/examples/merge.rs:158-165 | once a column has panicked, the line panics |
| `Merge.UnigramLine` | instant-segment/examples/merge.rs:147-165 | a unigram line is skipped exactly when its first field does not normalise; otherwise it counts its year total under the lowercase word, or panics exactly when that total does |
| `Merge.BigramLine` | instant-segment/examples/merge.rs:49-83 | a bigram line is kept exactly when its first word normalises and its second is listed as is and normalises; a kept line counts its year total, or panics when that does |
| `Merge.Add` | instant-segment/examples/merge.rs:167 | `*entry(k).or_default() += n` adds `n` to `k`'s count and nothing else |
| `Merge.Tally` | instant-segment/examples/merge.rs:132-168 | a part's counts, line by line, or a panic from the first bad line; `TallyCounts`, `TallyStaysFailed` and `TallyAppend` state it |
| `Merge.TallyCounts` | instant-segment/examples/merge.rs:132-168 | counting a part panics exactly when a line does; otherwise each key's count is the sum over its lines, and a key is present exactly when some line counted it |
| `Merge.CountLines` | instant-segment/examples/merge.rs:132-168 | the loop over a part's lines computes its tally |
| `Merge.TallyStaysFailed` | instant-segment/examples/merge.rs:132-168 | once a line has panicked, the part panics |
| `Merge.MergeMaps` | instant-segment/examples/merge.rs:173-178 | the merged map has both key sets, and each count is the sum of both counts |
| `Merge.MergeInto` | instant-segment/examples/merge.rs:173-178 | the loop over `right` computes the merge |
| `Merge.MergeIdentity` | instant-segment/examples/merge.rs:173 | the empty map that `reduce` starts from is neutral |
| `Merge.MergeCommutes` | instant-segment/examples/merge.rs:173-178 | merging is commutative |
| `Merge.MergeAssociative` | instant-segment/examples/merge.rs:173-178 | merging is associative, so any grouping the parallel `reduce` chooses gives the same counts |
| `Merge.TallyAppend` | instant-segment/examples/merge.rs:123-178 | counting two parts separately and merging is counting all their lines at once, and a panic in either is a panic |
| `Merge.CountParts` | instant-segment/examples/merge.rs:123-178 | counting every part and merging gives the tally of all lines of all parts |
| `Merge.Collect` | instant-segment/examples/merge.rs:180 | `into_iter().collect()` lists every entry of the map exactly once |
| `Merge.Before` | instant-segment/examples/merge.rs:181 | where a stable descending sort puts an entry: after the strictly more frequent ones |
| `Merge.Insert` | instant-segment/examples/merge.rs:181 | insertion adds exactly the entry (as a multiset) |
| `Merge.InsertSorted` | instant-segment/examples/merge.rs:181 | insertion keeps the list sorted |
| `Merge.SortDesc` | instant-segment/examples/merge.rs:181 | `sort_by_key(Reverse(freq))` gives a list sorted by descending frequency that is a permutation of its input |
| `Merge.SortDistinct` | instant-segment/examples/merge.rs:181 | sorting keeps the keys distinct |
| `Merge.TopOf` | instant-segment/examples/merge.rs:180-190 | what is written for counts `m`: `min(max, size)` distinct entries of `m`, most frequent first, none left out more frequent than one kept; `TopSelection` proves the sorted prefix meets it |
| `Merge.TopSelection` | instant-segment/examples/merge.rs:180-187 | the first `max` sorted entries are `min(max, size)` distinct entries of the map, most frequent first, and no entry left out is more frequent than one kept |
| `Merge.WriteTop` | instant-segment/examples/merge.rs:184-190 | the writing loop emits one record per entry, in order, and stops after `max` |
| `Merge.UnigramRecord` | instant-segment/examples/merge.rs:189 | the `word\tfreq` line; `UnigramRecordReads` states that it reads back |
| `Merge.BigramRecord` | instant-segment/examples/merge.rs:117 | the `left right\tfreq` line written for a bigram |
| `Merge.UnigramRecordReads` | instant-segment/examples/merge.rs:147-189 | a written unigram record, trimmed and split at the tab, gives the word and the count's digits, which parse to the count |
| `Merge.TrimNewline` | instant-segment/examples/merge.rs:147 | trimming a record with no whitespace at its ends drops its newline |
| `Merge.Process` | instant-segment/examples/merge.rs:122-191 | the run panics exactly when some line does; otherwise the records written are those of the most frequent entries of the total counts |
| `Merge.ProcessUnigrams` | instant-segment/examples/merge.rs:122-191 | `process_unigrams`: as above, for unigram lines, `MAX_UNIGRAMS` and the `word\tfreq` record |
| `Merge.ProcessBigrams` | instant-segment/examples/merge.rs:23-119 | `process_bigrams`: as above, for bigram lines, `MAX_BIGRAMS` and the `left right\tfreq` record |

## Left out

- Floating point: scores are reals, so `f64` rounding, infinities and NaN are not modelled.
  `log10` is the parameter `lg`.
- The `f64::MIN` starting value of both searches is modelled as "no candidate yet". A
  candidate scoring `f64::MIN` or less would not replace it in the source.
- The divisions in `score` are required to have non-zero divisors (`Defined`, `OldDefined`),
  and the word-length limit is required to be at least 1 (`Ready`, `OldReady`). The source
  divides by the totals and loops over `1..=limit` without checking either.
- Engine.SegmentState.Run: modelled for texts of at most one window (250 bytes), on which
  `run` makes one search with `offset == 0`. In the source every text of 250 bytes or more
  panics in its first window (see "## Findings"). The model's `best` has the 251 entries a
  full window needs. Longer texts would take several windows, and these are not modelled:
  the five-word hold-back, and the window-relative `u8` memo keys, which `run` never clears
  between windows.
- Engine.Segment: the requires excludes inputs longer than one window. In the source, inputs
  of 250 bytes or more panic rather than segment (see "## Findings"). The iterator `segment`
  returns is modelled as the result sequence.
- `BitVec` is a `Copy` value of four 64-bit words in the source. Here it is a value of four
  64-entry Boolean sequences. `set` past the capacity (a panic) is excluded by the
  precondition `b < 256`.
- `from_iters` of both engines is left out. The current engine's collects both iterators
  into maps, a later pair replacing an earlier one with the same key, and passes them to
  `from_maps`. The earlier engine's returns the first `Err` of the unigram iterator, then of
  the bigram iterator. Otherwise it sets `total` to `DEFAULT_TOTAL`, not to the sum of the
  counts, and `limit` to `DEFAULT_LIMIT`. The earlier engine's segmenter is taken as a given
  `OldSegmenter` value.
- `set_limit` and `set_total` are left out: each replaces one field of the segmenter.
- The hasher (`ahash`), the `serde` support and the Python bindings are left out.
- Text is modelled as characters, not UTF-8 bytes. The current engine only accepts `a`-`z`,
  and the tool's filters only accept ASCII letters.
- `clean` lowercases with `to_ascii_lowercase` only; Unicode case mapping is outside the
  model, as in the source.
- merge.rs input and output:
  - Opening and reading files, `read_line` errors (which end the loop) and `eprintln!` are
    left out.
  - Each file is given as its sequence of lines.
  - The written file is the sequence of records.
  - The capacity reservations are left out.
- The parallel `rayon` map and `reduce` are modelled as a sequential fold over the parts.
  `MergeCommutes`, `MergeAssociative` and `MergeIdentity` show that the grouping cannot
  change the result.
- Merge.Matches: the `usize` sum `matches +=` (and the map's `+=`) is unbounded here, so an
  overflow (a panic in debug builds, a wrap in release builds) is not modelled. Each count
  parsed is bounded by `usize::MAX`.
- Merge.SortDesc: sortedness and the permutation are stated, but stability is not. Which of
  several equally frequent entries make the top-N cut depends on the hash order in the
  source too.
- Merge.WriteTop: a failing `writeln!` (a panic) is not modelled.
- The `main` of merge.rs, which only calls the three steps in order, is left out.

## Findings

| source | as written | input that shows it | evidently intended | confidence | as-written member | corrected member |
|---|---|---|---|---|---|---|
| instant-segment/src/lib.rs:135-138 | `best` is `[BitVec; SEGMENT_SIZE]` (line 180), but a window of `SEGMENT_SIZE` bytes recurses one level per byte down to `search(250, 250..250, _)`, whose `best[250].clear()` is out of bounds, so `segment` panics | any lowercase input of 250 bytes or more, such as 250 `a`s, with a word-length limit of at least 1 | `best` holds one split set per level of a full window, `SEGMENT_SIZE + 1` in all, so that a window of 250 bytes is segmented | high; not executed | `SearchDepth.FullWindowOverruns` | `SearchDepth.WindowFitsLevels` |
