# WordleSolver in Dafny

A model of the `WordleSolver` engine: a fixed-size word list is narrowed to
the candidates consistent with Wordle feedback (letters known absent, letters
known at a position, letters known present but not at a position), and the
survivors are ranked by a per-position letter-frequency score.

The model follows the C++ class closely:

- `ascii.dfy` — `std::toupper` in the "C" locale and the `'A'..'Z'` /
  `'0'..'9'` range tests.
- `unique_vector.dfy` — the "`std::find`, then `push_back` if absent" idiom of
  the three constraint vectors, as `Insert`/`InsertAll` on sequences.
- `constraint_text.dfy` — what the three validators accept and what they
  normalise to; how the bulk adds decode a `"0C4E"` string into
  (position, letter) pairs.
- `candidate_filter.dfy` — the three `wordSatisfies*` checks, kept with their
  `>` bounds tests and the `'\0'` that `word[word.size()]` reads, and the
  order-preserving filter of the candidate list.
- `word_source.dfy` — `sanitizeInput` and the length filter of
  `loadWordsFromInputFile`, over the file's lines.
- `scoring.dfy` — the score table, `scoreWord`, the ranking comparator and
  the sort it drives, and `calculateMaxScore`.
- `solver.dfy` — the class `WordleSolver`: its fields as in `WordleSolver.h`,
  the validators and the `add*` mutators, `filterCandidates`,
  `buildScoreTable`, `scoreWords`, `calculateMaxScore` and the word loader,
  each proved against the functions of the other modules.

The model follows the code, including these behaviours:

- The positional bounds tests use `>`, not `>=`: they test `position > wordSize || position > word.size()`.
  So position `word.size()` passes the bounds test and reads `'\0'`.
  A correct-position entry there fails for every real letter.
  A wrong-position entry there holds whenever its letter occurs in the word.
  (`CandidateFilter.PositionAtLengthAsWritten`)
  The validators never produce such a position (`ConstraintText.ValidatedPairsDecode`, `CandidateFilter.InRangeMeaning`).
- The duplicate count is `word.size()` minus the distinct letters seen.
  Only the first `min(wordSize, word.size())` positions are scanned for that.
  The two agree for every loaded candidate.
- `std::sort` is not stable. This does not matter: the comparator is a strict total order on
  (score, word) pairs, so the ranked permutation is unique (`Scoring.RankedUnique`).

## Model

| member | source | states |
|---|---|---|
| `Ascii.ToUpper` | WordleSolver.cpp:36 | the result is in 'A'..'Z' exactly when the input is an ASCII letter; nothing but 'a'..'z' changes |
| `UniqueVector.Insert` | WordleSolver.cpp:97-101 | one add: the elements become the old ones plus the new one, it is a no-op exactly when already present, the old vector is a prefix, no duplicates are introduced |
| `UniqueVector.InsertAll` | WordleSolver.cpp:103-113 | a run of adds, one `Insert` per element in order; no contract of its own, its properties are the `InsertAllProperties`, `InsertAllPresent` and `InsertAllIdempotent` rows |
| `UniqueVector.InsertAllProperties` | WordleSolver.cpp:103-113 | a run of adds yields the union of elements, keeps the old vector as prefix and keeps the vector duplicate-free |
| `UniqueVector.InsertAllPresent` | WordleSolver.cpp:97-101 | adding only elements already present leaves the vector unchanged |
| `UniqueVector.InsertAllIdempotent` | WordleSolver.cpp:103-113 | repeating the same adds changes nothing |
| `UniqueVector.DistinctCount` | WordleSolver.cpp:300-306 | the number of distinct letters is at most the length, equal exactly when no letter repeats |
| `ConstraintText.AbsentCharsValid` | WordleSolver.cpp:34-41 | the absent-letter acceptance test: every character upper-cases into 'A'..'Z'; no contract of its own, see `AbsentCharsNormalised` and `ValidateAndSanitizeAbsentChars` |
| `ConstraintText.PositionedCharsValid` | WordleSolver.cpp:49-66 | the positioned-string acceptance test: even length, each pair a digit below wordSize then a letter; no contract of its own, see `ValidatedPairsDecode` and `ValidateAndSanitizePositionedChars` |
| `ConstraintText.DecodePairs` | WordleSolver.cpp:133-139 | the (pos - '0', letter) pairs the string overloads add (also :160-166); there is one pair per two characters, and `EncodeDecode`/`DecodeEncode` state the round trips |
| `ConstraintText.AbsentCharsNormalised` | WordleSolver.cpp:30-45 | the absent-letter string is accepted iff it is all ASCII letters; its normal form is all upper case, of the same length, and a fixed point |
| `ConstraintText.ValidatedPairsDecode` | WordleSolver.cpp:47-70 | a validated positioned string normalises to a valid fixed point whose decoded positions are below the word size and whose letters are upper case |
| `ConstraintText.EncodeDecode` | WordleSolver.cpp:128-140 | decoding a digit/letter string and encoding the pairs gives the string back |
| `ConstraintText.DecodeEncode` | WordleSolver.cpp:128-140 | encoding single-digit pairs and decoding gives the pairs back |
| `CandidateFilter.CharAt` | WordleSolver.cpp:228 | `word[i]` for `i <= size()`, reading '\0' at `size()`; no contract of its own, its effect is the `PositionAtLengthAsWritten` row |
| `CandidateFilter.SatisfiesAbsent` | WordleSolver.cpp:214-220 | the absent-letter check; no contract of its own, stated by `SatisfiesAbsentIff` |
| `CandidateFilter.SatisfiesCorrect` | WordleSolver.cpp:222-232 | the correct-position check; no contract of its own, stated by `SatisfiesCorrectIff` |
| `CandidateFilter.SatisfiesWrong` | WordleSolver.cpp:234-246 | the wrong-position check; no contract of its own, stated by `SatisfiesWrongIff` |
| `CandidateFilter.Survivors` | WordleSolver.cpp:171-185 | the filtered list of the push_back loop; no contract of its own, stated by the `Survivors*` lemma rows |
| `CandidateFilter.SatisfiesAbsentIff` | WordleSolver.cpp:214-220 | the absent check fails iff an absent letter occurs among the first min(wordSize, length) characters |
| `CandidateFilter.SatisfiesCorrectIff` | WordleSolver.cpp:222-232 | the correct check holds iff every entry passes the `>` bounds test and the word has that letter there |
| `CandidateFilter.SatisfiesWrongIff` | WordleSolver.cpp:234-246 | the wrong check holds iff every entry passes the bounds test, its letter is not at its position and occurs in the word |
| `CandidateFilter.InRangeMeaning` | WordleSolver.cpp:222-246 | for a word of wordSize letters and validated positions the checks are exactly "letter at position" and "letter elsewhere, not here" |
| `CandidateFilter.OutOfRangeFails` | WordleSolver.cpp:226-239 | an entry past the word size or past the word's length fails both positional checks |
| `CandidateFilter.PositionAtLengthAsWritten` | WordleSolver.cpp:226-243 | position equal to the length reads '\0': a correct entry there always fails, a wrong entry there holds iff its letter occurs |
| `CandidateFilter.SurvivorsMembership` | WordleSolver.cpp:169-185 | a word survives iff it was a candidate and passes all three checks |
| `CandidateFilter.SurvivorsSubMultiset` | WordleSolver.cpp:169-185 | the survivors are a sub-multiset of the candidates, never more of them |
| `CandidateFilter.SurvivorsAppend` | WordleSolver.cpp:173-183 | filtering distributes over concatenation, so the candidates' order is kept |
| `CandidateFilter.SurvivorsNoConstraints` | WordleSolver.cpp:169-185 | with all three constraint vectors empty the candidates are unchanged |
| `CandidateFilter.SurvivorsIdempotent` | WordleSolver.cpp:169-185 | filtering twice with the same constraints equals filtering once |
| `CandidateFilter.ExampleAbsentLetter` | WordleSolver.cpp:214-220 | absent 'S' turns CRANE, SLATE, TRACE into CRANE, TRACE |
| `CandidateFilter.ExampleCorrectPosition` | WordleSolver.cpp:222-232 | 'C' at position 0 turns CRANE, SLATE, TRACE into CRANE |
| `WordSource.SanitizeInput` | WordleSolver.cpp:268-280 | the sanitised word is all upper-case letters and no longer than the line |
| `WordSource.SanitizeChar` | WordleSolver.cpp:268-280 | a single character is kept, upper-cased, exactly when it is an ASCII letter, and dropped otherwise |
| `WordSource.SanitizeAppend` | WordleSolver.cpp:268-280 | sanitising a concatenation is the concatenation of the sanitised parts |
| `WordSource.SanitizeLettersOnly` | WordleSolver.cpp:268-280 | a line of ASCII letters keeps its length and is upper-cased character by character |
| `WordSource.SanitizeIdempotent` | WordleSolver.cpp:268-280 | sanitising a sanitised word changes nothing |
| `WordSource.AcceptedWords` | WordleSolver.cpp:255-262 | every loaded word has exactly wordSize upper-case letters; there are no more words than lines |
| `WordSource.AcceptedWordsSound` | WordleSolver.cpp:255-262 | every loaded word has wordSize letters and is the sanitised form of some line |
| `WordSource.AcceptedWordsComplete` | WordleSolver.cpp:255-262 | every line whose sanitised form has wordSize letters is loaded |
| `WordSource.AcceptedWordsSnoc` | WordleSolver.cpp:255-262 | one more line at the end of the file adds its sanitised form at the end when it has wordSize letters, and nothing otherwise |
| `WordSource.AcceptedWordsAppend` | WordleSolver.cpp:255-262 | loading concatenated line sequences concatenates their words, so the lines' order is kept and a repeated line gives a repeated candidate |
| `WordSource.AcceptedWordsSingle` | WordleSolver.cpp:259-261 | one line is loaded, as its sanitised form, exactly when that form has wordSize letters |
| `WordSource.AcceptedWordsMembership` | WordleSolver.cpp:255-262 | a word is loaded iff it has wordSize letters and some line sanitises to it |
| `Scoring.TableOf` | WordleSolver.cpp:284-285 | the table has exactly wordSize positions |
| `Scoring.AddWord` | WordleSolver.cpp:288-289 | one candidate's increments over min(wordSize, length) positions; the table keeps its size; its counts are the `TableCounts` row |
| `Scoring.TableCounts` | WordleSolver.cpp:282-290 | each entry is the number of candidates with that letter at that position; a letter is a key iff that number is positive |
| `Scoring.ColumnSumsToCandidates` | WordleSolver.cpp:287-289 | over loaded candidates every key is a letter and each position's counts add up to the number of candidates |
| `Scoring.ExampleFirstColumn` | WordleSolver.cpp:282-290 | position 0 of the table of CRANE, SLATE, TRACE is {C:1, S:1, T:1} |
| `Scoring.PositionalSum` | WordleSolver.cpp:297-299 | the sum is defined iff every letter is a key of its position's map (`.at` does not throw) |
| `Scoring.ScoreWord` | WordleSolver.cpp:292-312 | the score is defined iff every lookup over min(wordSize, length) positions succeeds |
| `Scoring.PenaltyOnlyForRepeats` | WordleSolver.cpp:303-309 | for a word no longer than wordSize, the penalty is skipped exactly when no letter repeats; a repeat applies the penalty with a positive repeat count |
| `Scoring.CandidateLookupsSucceed` | WordleSolver.cpp:299 | scored against its candidates' table, a candidate's lookups all succeed |
| `Scoring.MaxCount` | WordleSolver.cpp:336-341 | a position's maximum is at least 0 and every count, and is 0 or one of the counts |
| `Scoring.MaxCountUnique` | WordleSolver.cpp:336-341 | those properties determine the maximum |
| `Scoring.MaxScore` | WordleSolver.cpp:330-345 | the sum over the positions of each position's largest count; no contract of its own, stated by `CalculateMaxScore`, `RawScoreAtMostMax` and `NoCandidatesMaxZero` |
| `Scoring.RawScoreAtMostMax` | WordleSolver.cpp:330-345 | no word's unpenalised positional sum exceeds the maximum score |
| `Scoring.NoCandidatesMaxZero` | WordleSolver.cpp:330-345 | with no candidates the maximum score is 0 |
| `Scoring.LexLess` | WordleSolver.cpp:325 | `std::string operator<`; no contract of its own, stated by `LexLessTransitive` and `LexLessTotal` |
| `Scoring.RanksBefore` | WordleSolver.cpp:322-327 | the sort comparator: higher score first, equal scores by word; no contract of its own, stated by `RanksBeforeOrder` |
| `Scoring.RanksBeforeOrder` | WordleSolver.cpp:321-327 | the comparator is irreflexive, total on distinct scored words and transitive |
| `Scoring.LexLessTransitive` | WordleSolver.cpp:325 | string `<` is transitive |
| `Scoring.LexLessTotal` | WordleSolver.cpp:325 | of two different strings one is `<` the other |
| `Scoring.ScoredPairs` | WordleSolver.cpp:318-319 | one (score, candidate) pair per candidate, in order; no contract of its own, the `ScoreWords` row states its use |
| `Scoring.InsertRanked` | WordleSolver.cpp:321-327 | inserting into a ranked sequence keeps it ranked and adds exactly that element |
| `Scoring.SortRanked` | WordleSolver.cpp:321-327 | the sorted result is ranked and a permutation of the input |
| `Scoring.RankedUnique` | WordleSolver.cpp:321-327 | two ranked permutations of the same scored words are equal |
| `Solver.WordleSolver.constructor` | WordleSolver.cpp:24-28 | a fresh solver holds the loaded words, empty constraint vectors, an empty table and ranked list |
| `Solver.WordleSolver.ValidateAndSanitizeAbsentChars` | WordleSolver.cpp:30-45 | accepts exactly the all-letter strings and returns them upper-cased; otherwise the string comes back unchanged |
| `Solver.WordleSolver.ValidateAndSanitizePositionedChars` | WordleSolver.cpp:47-70 | the shared body of both positioned validators (also :72-95): accepts exactly `PositionedCharsValid` strings and returns them with letters upper-cased; otherwise unchanged |
| `Solver.WordleSolver.ValidateAndSanitizeCorrectPositionedChars` | WordleSolver.cpp:47-70 | accepts exactly even-length strings of (digit below wordSize, letter) pairs and returns them with letters upper-cased; otherwise unchanged |
| `Solver.WordleSolver.ValidateAndSanitizeWrongPositionedChars` | WordleSolver.cpp:72-95 | the same acceptance and normal form for wrong-position strings |
| `Solver.WordleSolver.AddAbsentChar` | WordleSolver.cpp:97-101 | the vector becomes `Insert(old, c)` and stays duplicate-free; no other field changes |
| `Solver.WordleSolver.AddAbsentChars` | WordleSolver.cpp:103-113 | the vector becomes `InsertAll(old, chars)`, duplicate-free |
| `Solver.WordleSolver.AddCorrectPositionedChar` | WordleSolver.cpp:115-120 | the vector becomes `Insert(old, (position, c))`, duplicate-free; no other field changes |
| `Solver.WordleSolver.AddCorrectPositionedChars` | WordleSolver.cpp:122-126 | the vector becomes `InsertAll(old, pairs)` |
| `Solver.WordleSolver.AddCorrectPositionedCharsFromString` | WordleSolver.cpp:128-140 | odd length changes nothing; otherwise the decoded pairs are added in order |
| `Solver.WordleSolver.AddWrongPositionedChar` | WordleSolver.cpp:142-147 | the vector becomes `Insert(old, (position, c))`, duplicate-free; no other field changes |
| `Solver.WordleSolver.AddWrongPositionedChars` | WordleSolver.cpp:149-153 | the vector becomes `InsertAll(old, pairs)` |
| `Solver.WordleSolver.AddWrongPositionedCharsFromString` | WordleSolver.cpp:155-167 | odd length changes nothing; otherwise the decoded pairs are added in order |
| `Solver.WordleSolver.SurvivingCandidates` | WordleSolver.cpp:171-183 | returns exactly the candidates that pass all three checks, in their original order |
| `Solver.WordleSolver.FilterCandidates` | WordleSolver.cpp:169-190 | candidates become the survivors of the old ones; the table is rebuilt from them; the ranked list is a sorted permutation of the scored candidates |
| `Solver.WordleSolver.BuildScoreTable` | WordleSolver.cpp:282-290 | the table becomes the count table of the current candidates |
| `Solver.WordleSolver.ScoreWords` | WordleSolver.cpp:314-328 | every candidate's score is defined and the list is ranked and a permutation of (score, candidate) pairs |
| `Solver.WordleSolver.CalculateMaxScore` | WordleSolver.cpp:330-345 | returns the sum over positions of each position's largest count |
| `Solver.WordleSolver.LargestCount` | WordleSolver.cpp:336-341 | returns the largest count at one position (at least 0, an actual count unless 0) |
| `Solver.WordleSolver.LoadWordsFromInputFile` | WordleSolver.cpp:248-266 | candidates become the sanitised lines of exactly wordSize letters, in file order |

## Left out

- Command-line parsing, help text and exit codes (`main.cpp`) are not modelled. Its call order is validate, add, filter, print.
- `printCandidates` is console output with a floating-point fraction. Not modelled.
- Reading the word-list file (`ifstream`, `getline`, the swallowed exceptions) is replaced by a given sequence of lines. An unreadable file is the empty sequence.
- The default constructor (word size 5, a fixed file name) is the parameterised constructor with those arguments.
- Solver.WordleSolver.constructor: takes the duplicate-letter penalty as a parameter `penalty`. The source computes `static_cast<int>((1.0 - k * 0.2) * raw)` in doubles. That product is not exactly `(5 - k) / 5` (k = 3, raw = 5 gives 1), and the cast truncates toward zero. The model proves only that the penalty is skipped exactly when no letter repeats.
- Scoring.ScoreWord: states when the score is defined, not its value. Its value is the subject of `Scoring.PenaltyOnlyForRepeats`, for words no longer than the word size.
- `std::toupper` is modelled for ASCII only; locales and negative `char` values are not.
- Scores are unbounded integers. The source's `int` overflow, impossible for realistic word lists, is not modelled.
- Solver.WordleSolver.AddCorrectPositionedCharsFromString: requires validated input, that is a decimal digit at every even index of an even-length string. The only callers (main.cpp:84-89) pass strings that the validator has already accepted. The source computes `pos - '0'` unchecked into `size_t`. That value wraps for characters below '0' and is an arbitrary large position for characters above '9' (`'A' - '0'` is 17). The model does not cover unvalidated strings.
- Solver.WordleSolver.AddWrongPositionedCharsFromString: requires validated input, as above. The same callers pass only validated strings, and characters outside '0'..'9' are not covered.
- The `std::sort` algorithm is replaced by an insertion sort as a function. Only its result is specified. That result is unique, so the algorithm does not matter.
- Solver.WordleSolver.LargestCount: visits the keys of each map in an unspecified order, where `std::map` visits them in key order. The maximum does not depend on the order.
