/** The candidate filter: the three per-word checks WordleSolver applies
    (absent letters, correct positions, wrong positions) and the
    order-preserving filter of the candidate list through them. */
module CandidateFilter {
  import opened ConstraintText

  /** std::string::operator[] on a const string: index `size()` yields '\0'. */
  function CharAt(word: string, i: nat): char
    requires i <= |word|
  {
    if i < |word| then word[i] else '\0'
  }

  /** The absent-letter scan from index `i`: it runs while the index is below
      both the word size and the word's length and stops at the first letter
      found in the absent vector. */
  predicate NoAbsentFrom(word: string, wordSize: nat, absent: seq<char>, i: nat)
    decreases |word| - i
  {
    i >= wordSize || i >= |word| || (word[i] !in absent && NoAbsentFrom(word, wordSize, absent, i + 1))
  }

  predicate SatisfiesAbsent(word: string, wordSize: nat, absent: seq<char>) {
    NoAbsentFrom(word, wordSize, absent, 0)
  }

  /** One correct-position entry, with the bounds test written with `>`. */
  predicate CorrectEntryHolds(word: string, wordSize: nat, e: PositionedChar) {
    !(e.position > wordSize || e.position > |word|) && CharAt(word, e.position) == e.letter
  }

  predicate SatisfiesCorrect(word: string, wordSize: nat, entries: seq<PositionedChar>) {
    entries == [] || (CorrectEntryHolds(word, wordSize, entries[0]) && SatisfiesCorrect(word, wordSize, entries[1..]))
  }

  /** One wrong-position entry: in bounds (tested with `>`), not at its
      position, and present somewhere in the word. */
  predicate WrongEntryHolds(word: string, wordSize: nat, e: PositionedChar) {
    !(e.position > wordSize || e.position > |word|) && CharAt(word, e.position) != e.letter && e.letter in word
  }

  predicate SatisfiesWrong(word: string, wordSize: nat, entries: seq<PositionedChar>) {
    entries == [] || (WrongEntryHolds(word, wordSize, entries[0]) && SatisfiesWrong(word, wordSize, entries[1..]))
  }

  predicate Passes(word: string, wordSize: nat, absent: seq<char>,
                   correct: seq<PositionedChar>, wrong: seq<PositionedChar>)
  {
    SatisfiesAbsent(word, wordSize, absent) && SatisfiesCorrect(word, wordSize, correct)
      && SatisfiesWrong(word, wordSize, wrong)
  }

  /** The candidates that pass all three checks, in their original order. */
  function Survivors(words: seq<string>, wordSize: nat, absent: seq<char>,
                     correct: seq<PositionedChar>, wrong: seq<PositionedChar>): seq<string>
  {
    if words == [] then []
    else
      var last := words[|words| - 1];
      Survivors(words[..|words| - 1], wordSize, absent, correct, wrong)
        + (if Passes(last, wordSize, absent, correct, wrong) then [last] else [])
  }

  // ---------------------------------------------------------------- the checks

  lemma {:induction false} NoAbsentFromIff(word: string, wordSize: nat, absent: seq<char>, i: nat)
    ensures NoAbsentFrom(word, wordSize, absent, i)
        <==> forall k :: i <= k < wordSize && k < |word| ==> word[k] !in absent
    decreases |word| - i
  {
    if !(i >= wordSize || i >= |word|) {
      NoAbsentFromIff(word, wordSize, absent, i + 1);
    }
  }

  /** The absent check fails exactly when a letter of the absent vector occurs
      among the first min(wordSize, |word|) characters. */
  lemma SatisfiesAbsentIff(word: string, wordSize: nat, absent: seq<char>)
    ensures SatisfiesAbsent(word, wordSize, absent)
        <==> forall k :: 0 <= k < wordSize && k < |word| ==> word[k] !in absent
  {
    NoAbsentFromIff(word, wordSize, absent, 0);
  }

  /** The correct-position check holds exactly when every entry is within
      bounds (as tested) and the word has that letter at that position. */
  lemma {:induction false} SatisfiesCorrectIff(word: string, wordSize: nat, entries: seq<PositionedChar>)
    ensures SatisfiesCorrect(word, wordSize, entries)
        <==> forall e :: e in entries ==> CorrectEntryHolds(word, wordSize, e)
  {
    if entries != [] {
      SatisfiesCorrectIff(word, wordSize, entries[1..]);
      assert forall e :: e in entries <==> e == entries[0] || e in entries[1..];
    }
  }

  /** The wrong-position check holds exactly when every entry is within bounds
      (as tested), its letter is not at its position, and the letter occurs in
      the word. */
  lemma {:induction false} SatisfiesWrongIff(word: string, wordSize: nat, entries: seq<PositionedChar>)
    ensures SatisfiesWrong(word, wordSize, entries)
        <==> forall e :: e in entries ==> WrongEntryHolds(word, wordSize, e)
  {
    if entries != [] {
      SatisfiesWrongIff(word, wordSize, entries[1..]);
      assert forall e :: e in entries <==> e == entries[0] || e in entries[1..];
    }
  }

  /** For a word of exactly `wordSize` letters and entries below `wordSize`
      (what the validators admit), the checks mean what the rules of the game
      say: the letter at the position, or the letter elsewhere. */
  lemma InRangeMeaning(word: string, wordSize: nat, correct: seq<PositionedChar>, wrong: seq<PositionedChar>)
    requires |word| == wordSize
    requires forall e :: e in correct ==> e.position < wordSize
    requires forall e :: e in wrong ==> e.position < wordSize
    ensures SatisfiesCorrect(word, wordSize, correct)
        <==> forall e :: e in correct ==> word[e.position] == e.letter
    ensures SatisfiesWrong(word, wordSize, wrong)
        <==> forall e :: e in wrong ==> word[e.position] != e.letter && e.letter in word
  {
    SatisfiesCorrectIff(word, wordSize, correct);
    SatisfiesWrongIff(word, wordSize, wrong);
  }

  /** An entry whose position is past the word size or past the word's length
      makes either positional check fail. */
  lemma OutOfRangeFails(word: string, wordSize: nat, entries: seq<PositionedChar>, e: PositionedChar)
    requires e in entries && (e.position > wordSize || e.position > |word|)
    ensures !SatisfiesCorrect(word, wordSize, entries)
    ensures !SatisfiesWrong(word, wordSize, entries)
  {
  }

  /** The `>` bounds test lets position |word| through, where the word reads
      '\0': a correct-position entry there fails for any real letter, and a
      wrong-position entry there holds whenever its letter occurs anywhere. */
  lemma PositionAtLengthAsWritten(word: string, wordSize: nat, c: char)
    requires |word| <= wordSize && c != '\0'
    ensures !SatisfiesCorrect(word, wordSize, [PositionedChar(|word|, c)])
    ensures SatisfiesWrong(word, wordSize, [PositionedChar(|word|, c)]) <==> c in word
  {
  }

  // ---------------------------------------------------------------- the filter

  /** A word survives exactly when it was a candidate and passes all checks. */
  lemma {:induction false} SurvivorsMembership(words: seq<string>, wordSize: nat, absent: seq<char>,
                                               correct: seq<PositionedChar>, wrong: seq<PositionedChar>, w: string)
    ensures w in Survivors(words, wordSize, absent, correct, wrong)
        <==> w in words && Passes(w, wordSize, absent, correct, wrong)
  {
    if words != [] {
      var init := words[..|words| - 1];
      SurvivorsMembership(init, wordSize, absent, correct, wrong, w);
      assert words == init + [words[|words| - 1]];
    }
  }

  /** The survivors are a sub-multiset of the candidates, never longer. */
  lemma {:induction false} SurvivorsSubMultiset(words: seq<string>, wordSize: nat, absent: seq<char>,
                                                correct: seq<PositionedChar>, wrong: seq<PositionedChar>)
    ensures multiset(Survivors(words, wordSize, absent, correct, wrong)) <= multiset(words)
    ensures |Survivors(words, wordSize, absent, correct, wrong)| <= |words|
  {
    if words != [] {
      var init := words[..|words| - 1];
      SurvivorsSubMultiset(init, wordSize, absent, correct, wrong);
      assert words == init + [words[|words| - 1]];
    }
  }

  /** Filtering distributes over concatenation, so survivors keep the order
      they had among the candidates. */
  lemma {:induction false} SurvivorsAppend(a: seq<string>, b: seq<string>, wordSize: nat, absent: seq<char>,
                                           correct: seq<PositionedChar>, wrong: seq<PositionedChar>)
    ensures Survivors(a + b, wordSize, absent, correct, wrong)
         == Survivors(a, wordSize, absent, correct, wrong) + Survivors(b, wordSize, absent, correct, wrong)
  {
    if b != [] {
      var init := b[..|b| - 1];
      SurvivorsAppend(a, init, wordSize, absent, correct, wrong);
      assert (a + b)[..|a + b| - 1] == a + init;
    } else {
      assert a + b == a;
    }
  }

  /** With all three constraint vectors empty the candidates are unchanged. */
  lemma {:induction false} SurvivorsNoConstraints(words: seq<string>, wordSize: nat)
    ensures Survivors(words, wordSize, [], [], []) == words
  {
    if words != [] {
      var init := words[..|words| - 1];
      SurvivorsNoConstraints(init, wordSize);
      NoAbsentFromIff(words[|words| - 1], wordSize, [], 0);
      assert words == init + [words[|words| - 1]];
    }
  }

  /** Filtering twice with the same constraints is filtering once. */
  lemma {:induction false} SurvivorsIdempotent(words: seq<string>, wordSize: nat, absent: seq<char>,
                                               correct: seq<PositionedChar>, wrong: seq<PositionedChar>)
    ensures Survivors(Survivors(words, wordSize, absent, correct, wrong), wordSize, absent, correct, wrong)
         == Survivors(words, wordSize, absent, correct, wrong)
  {
    if words != [] {
      var init := words[..|words| - 1];
      var last := words[|words| - 1];
      var s := Survivors(init, wordSize, absent, correct, wrong);
      SurvivorsIdempotent(init, wordSize, absent, correct, wrong);
      var tail := if Passes(last, wordSize, absent, correct, wrong) then [last] else [];
      SurvivorsAppend(s, tail, wordSize, absent, correct, wrong);
      if tail != [] {
        assert Survivors(tail, wordSize, absent, correct, wrong) == tail by {
          assert tail[..0] == [];
        }
      }
    }
  }

  // ---------------------------------------------------------------- examples

  /** The absent letter 'S' removes SLATE from CRANE, SLATE, TRACE. */
  lemma ExampleAbsentLetter()
    ensures Survivors(["CRANE", "SLATE", "TRACE"], 5, ['S'], [], []) == ["CRANE", "TRACE"]
  {
    var words := ["CRANE", "SLATE", "TRACE"];
    SatisfiesAbsentIff("CRANE", 5, ['S']);
    SatisfiesAbsentIff("SLATE", 5, ['S']);
    SatisfiesAbsentIff("TRACE", 5, ['S']);
    assert Passes("CRANE", 5, ['S'], [], []);
    assert !Passes("SLATE", 5, ['S'], [], []) by {
      assert "SLATE"[0] == 'S';
    }
    assert Passes("TRACE", 5, ['S'], [], []);
    assert words[..2] == ["CRANE", "SLATE"] && words[..2][..1] == ["CRANE"] && words[..2][..1][..0] == [];
    assert Survivors(["CRANE"], 5, ['S'], [], []) == ["CRANE"];
    assert Survivors(["CRANE", "SLATE"], 5, ['S'], [], []) == ["CRANE"];
  }

  /** 'C' at position 0 leaves only CRANE. */
  lemma ExampleCorrectPosition()
    ensures Survivors(["CRANE", "SLATE", "TRACE"], 5, [], [PositionedChar(0, 'C')], []) == ["CRANE"]
  {
    var words := ["CRANE", "SLATE", "TRACE"];
    var correct := [PositionedChar(0, 'C')];
    SatisfiesAbsentIff("CRANE", 5, []);
    assert Passes("CRANE", 5, [], correct, []) by {
      assert "CRANE"[0] == 'C';
      assert correct[1..] == [];
    }
    assert !Passes("SLATE", 5, [], correct, []) by {
      assert "SLATE"[0] == 'S';
    }
    assert !Passes("TRACE", 5, [], correct, []) by {
      assert "TRACE"[0] == 'T';
    }
    assert words[..2] == ["CRANE", "SLATE"] && words[..2][..1] == ["CRANE"] && words[..2][..1][..0] == [];
    assert Survivors(["CRANE"], 5, [], correct, []) == ["CRANE"];
    assert Survivors(["CRANE", "SLATE"], 5, [], correct, []) == ["CRANE"];
  }
}
