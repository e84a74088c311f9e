# Fuzzy string matching by TF-IDF, in Dafny

This project models the core of a small fuzzy-matching library. It has two parts.

- **String helpers** (`python/common.py`): `remove_punctuation`,
  `normalize`, `word_counts`, `drop_words_from_string` and
  `drop_words_from_series`.
- **TF-IDF matcher** (`python/tfidf.py`): the character n-gram analyzer
  `_create_ngrams`, the best-match selection of `tfidf_match`, and the
  fan-out join `join_on_tfidf`.

A pandas `Series` of strings is a `seq<string>`, and a string is a
`seq<char>`. The TF-IDF weighting and the cosine similarity come from
scikit-learn and are not modelled. The `|From| x |To|` similarity matrix
is a parameter `sim: seq<seq<real>>`. Everything that `tfidf_match` and
`join_on_tfidf` do with that matrix is modelled: the row maximum, the
tie set `get_max_indices`, `explode`, the `To` lookup, the left join on
the default index and the inner merge on `To Index`. So are the two
`ValueError`s that the library calls raise.

Modules, one concern each:

| file | module | models |
|---|---|---|
| `chars.dfy` | `Chars` | `str.isspace` (the same character set as `\s`, `split()` and `strip()`), ASCII `\w`, ASCII `str.lower` |
| `runs.dfy` | `Runs` | maximal runs of a character class (`str.split()`), squeezing runs, trimming ends |
| `whitespace.dfy` | `Whitespace` | `re.sub(r'\s\s+', ' ', s)` and `str.strip()` |
| `regex_sub.dfy` | `RegexSub` | the left-to-right scan of `re.sub(pattern, '', s)`, and a reference definition it is proved equal to |
| `common.dfy` | `Common` | the string helpers of `python/common.py` |
| `ngrams.dfy` | `Ngrams` | `_create_ngrams`, an imperative loop proved against a specification function |
| `tfidf_match.dfy` | `TfidfMatch` | `tfidf_match` over an abstract similarity matrix |
| `join.dfy` | `TfidfJoin` | `join_on_tfidf`, as a multiset of joined rows |

Where the code and its documentation disagree, the model follows the
code:

- A From row whose similarities are all 0 is **kept**. `get_max_indices`
  returns 0 for it, so it gets one row with `To Index` 0, `Score` 0 and
  the first To string (`TfidfMatch.MatchZeroRow`).
- The join does not drop such rows either. They are paired with right
  row 0 (`TfidfJoin.JoinZeroScore`).
- `_create_ngrams` leaves out only the windows that contain the character
  `' '`. It keeps windows that contain a tab or a newline
  (`Ngrams.NgramMember`).
- `remove_punctuation` deletes `.` and `,` literally, not as the regex
  `.`. Pandas takes a one-character pattern literally when `regex` is
  left at its default.

## Model

| member | source | states |
|---|---|---|
| Chars.LowerString | python/common.py:19 | `str.lower` on ASCII: keeps the length, lowers exactly the upper-case letters (code point + 32), leaves no upper-case letter and changes nothing else |
| Common.Delete | python/common.py:13-14 | `str.replace(c, '')`: no `c` is left, every other character keeps its multiplicity, and a string without `c` is unchanged |
| Common.DeleteAppend | python/common.py:13-14 | deleting from `a + b` is deleting from `a`, then from `b`, and joining: the remaining characters keep their order, which with the multiset clause of `Delete` fixes the result |
| Common.RemovePunctuation | python/common.py:11-16 | the result has no `.` or `,`, no two adjacent whitespace characters and no whitespace at either end; it is no longer than the input and every character in it is a space or comes from the input |
| Common.RemovePunctuationSeries | python/common.py:11-16 | applied element by element: same length, and every element is clean |
| Common.RemovePunctuationFixpoint | python/common.py:11-16 | `remove_punctuation` leaves a string unchanged if and only if the string is already clean |
| Common.RemovePunctuationIdempotent | python/common.py:11-16 | a second `remove_punctuation` changes nothing |
| Common.RemovePunctuationKeepsText | python/common.py:11-16 | the non-whitespace characters of the result are those of the input without `.` and `,`, in order |
| Common.Normalize | python/common.py:18-19 | the result is clean and has no upper-case letter |
| Common.NormalizeSeries | python/common.py:18-19 | applied element by element; every element is clean and lower-case |
| Common.NormalizeIdempotent | python/common.py:18-19 | a second `normalize` changes nothing |
| Common.Words | python/common.py:30 | `str.split()` gives non-empty words without whitespace |
| Common.WordsAreText | python/common.py:30 | the words run together are exactly the non-whitespace characters of the string |
| Common.WordsOfJoin | python/common.py:30 | splitting `' '.join(ws)` gives back `ws` |
| Common.WordsOfBlank | python/common.py:30 | a blank string, the empty string included, has no words |
| Common.AllWords | python/common.py:28-31 | `.str.split().explode()` with the rows of empty lists dropped: only non-empty words without whitespace |
| Common.AllWordsAppend | python/common.py:28-31 | the words of a series are the words of its first part followed by those of its second part |
| Common.AllWordsIgnoreBlank | python/common.py:28-31 | a blank string anywhere in the series adds no word |
| Common.TallyFacts | python/common.py:32 | counting gives distinct words with positive counts; each count is the word's multiplicity; the counts add up to the number of words |
| Common.SortPermutes | python/common.py:32 | sorting by count is a permutation of the rows |
| Common.SortSorted | python/common.py:32 | sorting by count gives counts that never increase |
| Common.WordCounts | python/common.py:27-32 | counts never increase down the rows; the words are distinct; each row's count is the word's number of occurrences, which is positive; a word has a row if and only if it occurs; the counts add up to the number of words |
| Common.WordCountsIgnoreBlank | python/common.py:27-32 | a blank string, wherever it stands in the series, adds nothing to the counts |
| Common.FirstMatch | python/common.py:35-36 | the alternation `\bw1\b\|\bw2\b\|...` tries its alternatives in list order: the result is the first one that matches at the position, and it is empty if and only if none does |
| Common.MatchesAtRunStart | python/common.py:35 | at the start of a whole word, `\bw\b` for a plain word `w` matches if and only if `w` is that whole word |
| Common.NoMatchOffRun | python/common.py:35 | at a position that does not start a whole word, no alternative matches |
| Common.MatchLengthIsRunMatch | python/common.py:35-36 | the length the pattern matches at a position is the length of the whole word starting there if that word is listed, and 0 otherwise |
| Common.DropMatches | python/common.py:35-36 | `re.sub(pat, '', s)`, the scan itself, equals the reference definition that removes every listed whole word and keeps everything else |
| Common.DropWordsFromString | python/common.py:34-39 | the result has no double whitespace and no whitespace at its ends; its whole words are exactly the unlisted whole words of the input, in order; no listed word is left |
| Common.DropWordsKeepsOther | python/common.py:34-39 | every character that is neither a word character nor whitespace is kept, in order |
| Common.DropNoWords | python/common.py:34-39 | with an empty list only the whitespace is normalised |
| Common.DropWordsIdempotent | python/common.py:34-39 | a second pass with the same words changes nothing |
| Common.DropWordsFromSeries | python/common.py:41-42 | applied element by element: same length, and each element is the string function's result |
| Whitespace.Collapse | python/common.py:15 | `re.sub(r'\s\s+', ' ', s)`: no two adjacent whitespace characters are left; the result is no longer than the input; the first character keeps its class; every character is a space or comes from the input |
| Whitespace.CollapseIdentity | python/common.py:15 | a string without double whitespace is unchanged |
| Whitespace.CollapseKeepsText | python/common.py:15 | the non-whitespace characters are kept, in order |
| Whitespace.CollapseKeepsRuns | python/common.py:15 | the maximal runs of any class without whitespace are kept, in order |
| Whitespace.Strip | python/common.py:16 | `str.strip()`: no whitespace at either end; a trimmed string is unchanged; no double whitespace is introduced |
| Whitespace.StripIsInfix | python/common.py:16 | strip removes a whitespace prefix and a whitespace suffix and nothing else |
| Whitespace.StripKeepsText | python/common.py:16 | the non-whitespace characters are kept, in order |
| Whitespace.StripKeepsRuns | python/common.py:16 | the maximal runs of any class without whitespace are kept, in order |
| RegexSub.EraseIsDropRuns | python/common.py:36 | the scan of `re.sub` with a whole-listed-word pattern computes the reference definition |
| RegexSub.DropRunsRuns | python/common.py:36 | after the substitution, the runs of word characters are the unlisted runs of the input, in order |
| RegexSub.DropRunsKeeps | python/common.py:36 | every character outside the word class is kept, in order |
| Runs.RunsOfJoinWith | python/common.py:30 | joining runs with a separator outside the class and splitting again gives the runs back |
| Runs.ConcatRunsIsKeep | python/common.py:30 | the runs run together are the characters of the class, in order |
| Ngrams.CreateNgrams | python/tfidf.py:16-27 | the loop over `n` from `min_length` to `max_length` returns exactly the specification `NgramsUpTo(s, min_length, max_length)` |
| Ngrams.NgramsStep | python/tfidf.py:23-26 | each iteration appends the windows of the current length |
| Ngrams.Windows | python/tfidf.py:24-25 | every window kept for length `n` has length `n` and contains no `' '` |
| Ngrams.NgramMember | python/tfidf.py:16-27 | a token is returned if and only if it is a window `s[i:i+n]` with `min_length <= n <= max_length`, `n >= 1`, lying inside `s` and containing no `' '` |
| Ngrams.SlotsExact | python/tfidf.py:16-27 | a (length, offset) slot is listed if and only if its length is in range and its window fits and holds no `' '` |
| Ngrams.NgramOrder | python/tfidf.py:23-26 | the tokens come ordered by length, then by offset, each slot once |
| Ngrams.ShortHasNone | python/tfidf.py:16-27 | a string shorter than `min_length` has no n-grams |
| Ngrams.NoSpaceWindows | python/tfidf.py:24-25 | a string without `' '` has exactly `len(s) - n + 1` windows of each length `1 <= n <= len(s)` |
| TfidfMatch.RowMax | python/tfidf.py:49-55 | `row.max()` is an entry of the row and at least every entry |
| TfidfMatch.TiedColumns | python/tfidf.py:53 | `np.flatnonzero(row == m)`: exactly the columns holding `m`, increasing |
| TfidfMatch.MaxIndices | python/tfidf.py:48-53 | the tie set is non-empty and increasing, and lies in range; it is `[0]` when the maximum is 0, and otherwise contains a column if and only if that column holds the maximum |
| TfidfMatch.RowMatches | python/tfidf.py:55-58 | From row `i` explodes into one row per tied column, each with its From string, the row maximum as `Score` and the To string at `To Index`, ordered by `To Index` |
| TfidfMatch.Tfidf | python/tfidf.py:29-60 | fails with EmptyVocabulary if and only if no string of From and To has an n-gram; fails with EmptySample if and only if there is a vocabulary but From or To is empty; succeeds in every other case |
| TfidfMatch.FlattenAscending | python/tfidf.py:57 | `explode` lays the groups out in From row order |
| TfidfMatch.MatchRows | python/tfidf.py:55-58 | every row has its From string, the row maximum as `Score` and `To.iloc[To Index]` as `To`; rows are ordered by From index, then by `To Index`, with no duplicates |
| TfidfMatch.MatchHas | python/tfidf.py:48-57 | From row `f` is paired with To row `j` if and only if `j` is in `get_max_indices` of row `f` |
| TfidfMatch.MatchTies | python/tfidf.py:50-53 | with a non-zero maximum, row `f` is paired with `j` if and only if `sim[f][j]` equals the maximum, so no tied column is dropped |
| TfidfMatch.MatchZeroRow | python/tfidf.py:50-51 | a row with maximum 0 is kept, as exactly one row with `To Index` 0 and `Score` 0 |
| TfidfMatch.MatchEveryRow | python/tfidf.py:55-57 | every From row appears at least once |
| TfidfMatch.MatchLength | python/tfidf.py:55-57 | the number of rows is the sum of the tie-set sizes |
| TfidfJoin.Column | python/tfidf.py:67 | `left[left_on]` gives one string per row |
| TfidfJoin.JoinOnTfidf | python/tfidf.py:62-71 | fails exactly when `tfidf_match` on the key columns fails, and with the same error |
| TfidfJoin.LeftJoinIsLift | python/tfidf.py:68-69 | when every left row has a match, `left.join(matches)` gives one row per match row, each with its left row and `From Index` |
| TfidfJoin.MergeLift | python/tfidf.py:70 | the inner merge on `To Index` against `arange(len(right))` pairs each row with exactly the right row at its `To Index` |
| TfidfJoin.JoinFanOut | python/tfidf.py:62-71 | the result is exactly the multiset with one joined row per match row: its left row, its match columns and the right row at `To Index` |
| TfidfJoin.JoinSize | python/tfidf.py:62-71 | there are exactly as many joined rows as match rows |
| TfidfJoin.JoinRows | python/tfidf.py:62-71 | each joined row puts left row `From Index` next to right row `To Index`; `From` and `To` are their key strings, and `Score` is the row maximum |
| TfidfJoin.JoinZeroScore | python/tfidf.py:62-71 | a joined row with score 0 is paired with right row 0 |
| TfidfJoin.JoinKeepsLeft | python/tfidf.py:68-70 | every left row is in the result at least once |

## Left out

- The TF-IDF weighting and `cosine_similarity` (`python/tfidf.py:35-46`) are not modelled: the similarity matrix is a parameter, whose shape is the only requirement. The model keeps the two errors that these calls raise: an empty vocabulary in `fit` (line 35), and an empty From or To, which `transform` (lines 39, 43-44) refuses because it needs at least one sample.
- The analyzer parameter of `tfidf_match` is not modelled. Only the default `_create_ngrams` with lengths 3 to 3 is used for the vocabulary check.
- Floating point is not modelled: scores are `real`, so rounding in the cosine is not captured.
- `last_word_counts` (`python/common.py:21-25`) is left out, as is the rest of the repository (`ingest_for_app.py`, the chatbot app).
- Chars.LowerString: only ASCII letters are lowered. Python's full Unicode `str.lower` (which can change the length) is not modelled.
- Chars.IsWordChar: `\w` is ASCII only. Python's Unicode `\w` is not modelled.
- Common.DropWordsFromString: the listed words must be non-empty and made of word characters (`PlainWords`). Words with regex metacharacters, words that start or end with a non-word character, and the empty word are not modelled, because the pattern is built without `re.escape` and those would be read as regex syntax.
- Common.WordCounts: only the order by count is stated. The order of rows with equal counts, which depends on pandas' sort implementation, is left open. The model sorts stably and keeps first occurrence.
- Common.WordCounts: pandas `value_counts` drops NaN, which is what `explode` makes of an empty list. The model drops those rows directly: `AllWords` has no blank entries.
- Pandas index labels are not modelled. Both series and DataFrames carry the default `RangeIndex`, which is what `join_on_tfidf` sees for a freshly built `left`.
- TfidfJoin.JoinOnTfidf: the result is a multiset, so the row order of `pd.merge` is not stated.
- TfidfJoin.JoinOnTfidf: the `ValueError` ("columns overlap but no suffix specified") that `left.join(matches)` (line 68) raises when `left` already has a column named `From`, `Score`, `To Index` or `To` is not reproduced. A left row is an abstract value without column names.
- TfidfJoin.JoinOnTfidf: columns that `left` and `right` share are renamed by `pd.merge` (line 70) with its default suffixes `_x` and `_y`. The model abstracts this renaming: a joined row keeps both rows whole.
- TfidfJoin.JoinOnTfidf: the `KeyError` for a missing `left_on` or `right_on` column (line 67) is not modelled: the key columns are total functions `leftOn` and `rightOn`.
- TfidfJoin.JoinOnTfidf: a left row without a match (the NaN rows of a left join) is modelled as `Unmatched` and dropped by the inner merge. This never happens for the output of `tfidf_match`, as `JoinFanOut` proves.
