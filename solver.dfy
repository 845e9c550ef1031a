/** The WordleSolver object: a word size fixed at construction, the current
    candidate words, the three constraint vectors, and the score table and
    ranked list that each filter pass rebuilds from the survivors. */
module Solver {
  import opened Ascii
  import opened UniqueVector
  import opened ConstraintText
  import opened CandidateFilter
  import opened WordSource
  import opened Scoring

  class WordleSolver {
    const wordSize: nat
    /** The duplicate-letter penalty step of scoreWord: raw score and number
        of repeated letters to the truncated floating-point product. */
    const penalty: (int, nat) -> int
    var scoreTable: ScoreTable
    var candidateWords: seq<string>
    var scoredWords: seq<ScoredWord>
    var absentChars: seq<char>
    var correctPositionChars: seq<PositionedChar>
    var wrongPositionChars: seq<PositionedChar>

    /** No constraint vector holds a duplicate, and every candidate is a word
        of exactly `wordSize` upper-case letters. */
    ghost predicate Valid()
      reads this
    {
      && NoDuplicates(absentChars)
      && NoDuplicates(correctPositionChars)
      && NoDuplicates(wrongPositionChars)
      && forall w :: w in candidateWords ==> |w| == wordSize && AllUpperLetters(w)
    }

    /** The solver over the lines of a word-list file (an unreadable file
        reads as no lines). */
    constructor (wordSize: nat, lines: seq<string>, penalty: (int, nat) -> int)
      ensures Valid()
      ensures this.wordSize == wordSize && this.penalty == penalty
      ensures candidateWords == AcceptedWords(lines, wordSize)
      ensures absentChars == [] && correctPositionChars == [] && wrongPositionChars == []
      ensures scoreTable == [] && scoredWords == []
    {
      this.wordSize := wordSize;
      this.penalty := penalty;
      scoreTable := [];
      candidateWords := [];
      scoredWords := [];
      absentChars := [];
      correctPositionChars := [];
      wrongPositionChars := [];
      new;
      LoadWordsFromInputFile(lines);
    }

    // ---------------------------------------------------------- validators

    /** Accepts a string of ASCII letters and yields it upper-cased; any other
        character rejects it and leaves the argument as it was. */
    method ValidateAndSanitizeAbsentChars(chars: string) returns (ok: bool, sanitized: string)
      ensures ok == AbsentCharsValid(chars)
      ensures ok ==> sanitized == UpperAll(chars)
      ensures !ok ==> sanitized == chars
    {
      var s := "";
      for i := 0 to |chars|
        invariant s == UpperAll(chars)[..i]
        invariant forall k :: 0 <= k < i ==> IsUpperLetter(ToUpper(chars[k]))
      {
        var c := ToUpper(chars[i]);
        if IsUpperLetter(c) {
          s := s + [c];
        } else {
          return false, chars;
        }
      }
      return true, s;
    }

    /** The shared body of the two positioned-letter validators. */
    method ValidateAndSanitizePositionedChars(chars: string) returns (ok: bool, sanitized: string)
      ensures ok == PositionedCharsValid(chars, wordSize)
      ensures ok ==> sanitized == UpperLetters(chars)
      ensures !ok ==> sanitized == chars
    {
      if |chars| % 2 != 0 {
        return false, chars;
      }
      var s := "";
      for k := 0 to |chars| / 2
        invariant s == UpperLetters(chars)[..2 * k]
        invariant forall j :: 0 <= j < k ==> PairValid(chars, j, wordSize)
      {
        var pos := chars[2 * k];
        var letter := ToUpper(chars[2 * k + 1]);
        if IsDigit(pos) && IsUpperLetter(letter) && DigitValue(pos) < wordSize {
          s := s + [pos, letter];
        } else {
          assert !PairValid(chars, k, wordSize);
          return false, chars;
        }
      }
      return true, s;
    }

    method ValidateAndSanitizeCorrectPositionedChars(chars: string) returns (ok: bool, sanitized: string)
      ensures ok == PositionedCharsValid(chars, wordSize)
      ensures ok ==> sanitized == UpperLetters(chars)
      ensures !ok ==> sanitized == chars
    {
      ok, sanitized := ValidateAndSanitizePositionedChars(chars);
    }

    method ValidateAndSanitizeWrongPositionedChars(chars: string) returns (ok: bool, sanitized: string)
      ensures ok == PositionedCharsValid(chars, wordSize)
      ensures ok ==> sanitized == UpperLetters(chars)
      ensures !ok ==> sanitized == chars
    {
      ok, sanitized := ValidateAndSanitizePositionedChars(chars);
    }

    // ---------------------------------------------------------- constraint store

    method AddAbsentChar(c: char)
      requires Valid()
      modifies this`absentChars
      ensures Valid()
      ensures absentChars == Insert(old(absentChars), c)
    {
      if c !in absentChars {
        absentChars := absentChars + [c];
      }
    }

    /** Both overloads (std::vector<char> and std::string). */
    method AddAbsentChars(chars: seq<char>)
      requires Valid()
      modifies this`absentChars
      ensures Valid()
      ensures absentChars == InsertAll(old(absentChars), chars)
    {
      for k := 0 to |chars|
        invariant Valid()
        invariant absentChars == InsertAll(old(absentChars), chars[..k])
      {
        AddAbsentChar(chars[k]);
        assert chars[..k + 1][..k] == chars[..k];
      }
      assert chars[..|chars|] == chars;
    }

    method AddCorrectPositionedChar(position: nat, c: char)
      requires Valid()
      modifies this`correctPositionChars
      ensures Valid()
      ensures correctPositionChars == Insert(old(correctPositionChars), PositionedChar(position, c))
    {
      var p := PositionedChar(position, c);
      if p !in correctPositionChars {
        correctPositionChars := correctPositionChars + [p];
      }
    }

    method AddCorrectPositionedChars(pairs: seq<PositionedChar>)
      requires Valid()
      modifies this`correctPositionChars
      ensures Valid()
      ensures correctPositionChars == InsertAll(old(correctPositionChars), pairs)
    {
      for k := 0 to |pairs|
        invariant Valid()
        invariant correctPositionChars == InsertAll(old(correctPositionChars), pairs[..k])
      {
        AddCorrectPositionedChar(pairs[k].position, pairs[k].letter);
        assert pairs[..k + 1][..k] == pairs[..k];
      }
      assert pairs[..|pairs|] == pairs;
    }

    /** The string overload: an odd length adds nothing; otherwise each
        (digit, letter) pair is added in order, its digit decoded unchecked. */
    method AddCorrectPositionedCharsFromString(chars: string)
      requires Valid()
      requires |chars| % 2 == 0 ==> DigitsAtEvenIndices(chars)
      modifies this`correctPositionChars
      ensures Valid()
      ensures |chars| % 2 != 0 ==> correctPositionChars == old(correctPositionChars)
      ensures |chars| % 2 == 0 ==> correctPositionChars == InsertAll(old(correctPositionChars), DecodePairs(chars))
    {
      if |chars| % 2 != 0 {
        return;
      }
      ghost var pairs := DecodePairs(chars);
      for k := 0 to |chars| / 2
        invariant Valid()
        invariant correctPositionChars == InsertAll(old(correctPositionChars), pairs[..k])
      {
        assert PairHasDigit(chars, k);
        var pos := chars[2 * k];
        var letter := chars[2 * k + 1];
        assert pairs[k] == PositionedChar(DigitValue(pos), letter);
        AddCorrectPositionedChar(DigitValue(pos), letter);
        assert pairs[..k + 1][..k] == pairs[..k];
      }
      assert pairs[..|pairs|] == pairs;
    }

    method AddWrongPositionedChar(position: nat, c: char)
      requires Valid()
      modifies this`wrongPositionChars
      ensures Valid()
      ensures wrongPositionChars == Insert(old(wrongPositionChars), PositionedChar(position, c))
    {
      var p := PositionedChar(position, c);
      if p !in wrongPositionChars {
        wrongPositionChars := wrongPositionChars + [p];
      }
    }

    method AddWrongPositionedChars(pairs: seq<PositionedChar>)
      requires Valid()
      modifies this`wrongPositionChars
      ensures Valid()
      ensures wrongPositionChars == InsertAll(old(wrongPositionChars), pairs)
    {
      for k := 0 to |pairs|
        invariant Valid()
        invariant wrongPositionChars == InsertAll(old(wrongPositionChars), pairs[..k])
      {
        AddWrongPositionedChar(pairs[k].position, pairs[k].letter);
        assert pairs[..k + 1][..k] == pairs[..k];
      }
      assert pairs[..|pairs|] == pairs;
    }

    method AddWrongPositionedCharsFromString(chars: string)
      requires Valid()
      requires |chars| % 2 == 0 ==> DigitsAtEvenIndices(chars)
      modifies this`wrongPositionChars
      ensures Valid()
      ensures |chars| % 2 != 0 ==> wrongPositionChars == old(wrongPositionChars)
      ensures |chars| % 2 == 0 ==> wrongPositionChars == InsertAll(old(wrongPositionChars), DecodePairs(chars))
    {
      if |chars| % 2 != 0 {
        return;
      }
      ghost var pairs := DecodePairs(chars);
      for k := 0 to |chars| / 2
        invariant Valid()
        invariant wrongPositionChars == InsertAll(old(wrongPositionChars), pairs[..k])
      {
        assert PairHasDigit(chars, k);
        var pos := chars[2 * k];
        var letter := chars[2 * k + 1];
        assert pairs[k] == PositionedChar(DigitValue(pos), letter);
        AddWrongPositionedChar(DigitValue(pos), letter);
        assert pairs[..k + 1][..k] == pairs[..k];
      }
      assert pairs[..|pairs|] == pairs;
    }

    // ---------------------------------------------------------- filtering

    /** The loop of filterCandidates: the candidates that pass the three
        checks, in their original order. Changes nothing. */
    method SurvivingCandidates() returns (filteredWords: seq<string>)
      ensures filteredWords
           == Survivors(candidateWords, wordSize, absentChars, correctPositionChars, wrongPositionChars)
    {
      filteredWords := [];
      for k := 0 to |candidateWords|
        invariant filteredWords
               == Survivors(candidateWords[..k], wordSize, absentChars, correctPositionChars, wrongPositionChars)
      {
        var word := candidateWords[k];
        assert candidateWords[..k + 1][..k] == candidateWords[..k];
        if !SatisfiesAbsent(word, wordSize, absentChars) {
          continue;
        }
        if !SatisfiesCorrect(word, wordSize, correctPositionChars) {
          continue;
        }
        if !SatisfiesWrong(word, wordSize, wrongPositionChars) {
          continue;
        }
        filteredWords := filteredWords + [word];
      }
      assert candidateWords[..|candidateWords|] == candidateWords;
    }

    /** Keeps the candidates that pass all three checks, in order, then
        rebuilds the score table and the ranked list from the survivors. */
    method FilterCandidates()
      requires Valid()
      modifies this`candidateWords, this`scoreTable, this`scoredWords
      ensures Valid()
      ensures candidateWords
           == Survivors(old(candidateWords), wordSize, absentChars, correctPositionChars, wrongPositionChars)
      ensures scoreTable == TableOf(candidateWords, wordSize)
      ensures forall w :: w in candidateWords ==> ScoreWord(scoreTable, wordSize, penalty, w).Some?
      ensures Ranked(scoredWords)
      ensures multiset(scoredWords) == multiset(ScoredPairs(scoreTable, wordSize, penalty, candidateWords))
    {
      var filteredWords := SurvivingCandidates();
      forall w | w in filteredWords ensures w in candidateWords {
        SurvivorsMembership(candidateWords, wordSize, absentChars, correctPositionChars, wrongPositionChars, w);
      }
      candidateWords := filteredWords;
      BuildScoreTable();
      ScoreWords();
    }

    /** buildScoreTable: `wordSize` empty maps, then `table[index][word[index]]++`
        for every candidate and every index below both sizes. */
    method BuildScoreTable()
      modifies this`scoreTable
      ensures scoreTable == TableOf(candidateWords, wordSize)
    {
      scoreTable := EmptyTable(wordSize);
      for k := 0 to |candidateWords|
        invariant scoreTable == TableOf(candidateWords[..k], wordSize)
      {
        var word := candidateWords[k];
        ghost var before := scoreTable;
        var index := 0;
        while index < wordSize && index < |word|
          invariant 0 <= index <= Min(wordSize, |word|)
          invariant scoreTable == AddPositions(before, word, index)
        {
          var counts := scoreTable[index];
          var c := word[index];
          counts := counts[c := (if c in counts then counts[c] else 0) + 1];
          scoreTable := scoreTable[index := counts];
          index := index + 1;
        }
        assert candidateWords[..k + 1][..k] == candidateWords[..k];
      }
      assert candidateWords[..|candidateWords|] == candidateWords;
    }

    /** scoreWords: every candidate paired with its score, then sorted by the
        ranking comparator. */
    method ScoreWords()
      requires scoreTable == TableOf(candidateWords, wordSize)
      modifies this`scoredWords
      ensures forall w :: w in candidateWords ==> ScoreWord(scoreTable, wordSize, penalty, w).Some?
      ensures Ranked(scoredWords)
      ensures multiset(scoredWords) == multiset(ScoredPairs(scoreTable, wordSize, penalty, candidateWords))
    {
      forall w | w in candidateWords ensures ScoreWord(scoreTable, wordSize, penalty, w).Some? {
        CandidateLookupsSucceed(candidateWords, wordSize, penalty, w);
      }
      var pairs: seq<ScoredWord> := [];
      for k := 0 to |candidateWords|
        invariant |pairs| == k
        invariant forall j :: 0 <= j < k ==>
          pairs[j] == ScoredWord(ScoreWord(scoreTable, wordSize, penalty, candidateWords[j]).value, candidateWords[j])
      {
        var candidate := candidateWords[k];
        var score := ScoreWord(scoreTable, wordSize, penalty, candidate).value;
        pairs := pairs + [ScoredWord(score, candidate)];
      }
      assert pairs == ScoredPairs(scoreTable, wordSize, penalty, candidateWords);
      scoredWords := SortRanked(pairs);
    }

    /** calculateMaxScore: the sum over the positions of the largest count. */
    method CalculateMaxScore() returns (maxScore: int)
      ensures maxScore == MaxScore(scoreTable)
    {
      maxScore := 0;
      for i := 0 to |scoreTable|
        invariant maxScore == MaxScoreUpTo(scoreTable, i)
      {
        var maxAtPlace := LargestCount(scoreTable[i]);
        maxScore := maxScore + maxAtPlace;
      }
    }

    /** The inner loop of calculateMaxScore: the largest count at one
        position, 0 when the position has no letters. */
    static method LargestCount(place: map<char, int>) returns (maxAtPlace: int)
      ensures maxAtPlace == MaxCount(place)
    {
      maxAtPlace := 0;
      var keys := place.Keys;
      while keys != {}
        invariant keys <= place.Keys
        invariant maxAtPlace >= 0
        invariant forall c :: c in place && c !in keys ==> place[c] <= maxAtPlace
        invariant maxAtPlace == 0 || maxAtPlace in place.Values
        decreases |keys|
      {
        var c :| c in keys;
        maxAtPlace := Max(maxAtPlace, place[c]);
        keys := keys - {c};
      }
      MaxCountUnique(place, maxAtPlace);
    }

    // ---------------------------------------------------------- word list

    /** The length filter of loadWordsFromInputFile over the file's lines. */
    method LoadWordsFromInputFile(lines: seq<string>)
      requires Valid()
      modifies this`candidateWords
      ensures Valid()
      ensures candidateWords == AcceptedWords(lines, wordSize)
    {
      candidateWords := [];
      for k := 0 to |lines|
        invariant candidateWords == AcceptedWords(lines[..k], wordSize)
      {
        var word := SanitizeInput(lines[k]);
        if |word| == wordSize {
          candidateWords := candidateWords + [word];
        }
        assert lines[..k + 1][..k] == lines[..k];
      }
      assert lines[..|lines|] == lines;
    }
  }
}
