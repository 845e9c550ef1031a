/** The word list as WordleSolver reads it: each line is sanitised (upper
    case, non-letters dropped) and kept only when it has exactly `wordSize`
    letters. The file itself is replaced by the sequence of its lines. */
module WordSource {
  import opened Ascii

  /** sanitizeInput: the upper-cased letters of the line, in order. */
  function SanitizeInput(line: string): (word: string)
    ensures |word| <= |line|
    ensures AllUpperLetters(word)
  {
    if line == [] then []
    else
      var c := ToUpper(line[0]);
      (if IsUpperLetter(c) then [c] else []) + SanitizeInput(line[1..])
  }

  /** The words the loader keeps from `lines`, in order. */
  function AcceptedWords(lines: seq<string>, wordSize: nat): (words: seq<string>)
    ensures |words| <= |lines|
    ensures forall w :: w in words ==> |w| == wordSize && AllUpperLetters(w)
  {
    if lines == [] then []
    else
      var word := SanitizeInput(lines[|lines| - 1]);
      AcceptedWords(lines[..|lines| - 1], wordSize) + (if |word| == wordSize then [word] else [])
  }

  /** One character: kept, upper-cased, exactly when it is an ASCII letter.
      With SanitizeAppend this determines the sanitised word of any line. */
  lemma SanitizeChar(c: char)
    ensures IsUpperLetter(c) || IsLowerLetter(c) ==> SanitizeInput([c]) == [ToUpper(c)]
    ensures !(IsUpperLetter(c) || IsLowerLetter(c)) ==> SanitizeInput([c]) == []
  {
    assert [c][1..] == [];
  }

  /** Sanitising a concatenation sanitises each part. */
  lemma {:induction false} SanitizeAppend(a: string, b: string)
    ensures SanitizeInput(a + b) == SanitizeInput(a) + SanitizeInput(b)
  {
    if a != [] {
      SanitizeAppend(a[1..], b);
      assert (a + b)[1..] == a[1..] + b;
    } else {
      assert a + b == b;
    }
  }

  /** A line made only of ASCII letters loses nothing: it comes back
      upper-cased, character for character. */
  lemma {:induction false} SanitizeLettersOnly(line: string)
    requires forall i :: 0 <= i < |line| ==> IsUpperLetter(line[i]) || IsLowerLetter(line[i])
    ensures |SanitizeInput(line)| == |line|
    ensures forall i :: 0 <= i < |line| ==> SanitizeInput(line)[i] == ToUpper(line[i])
  {
    if line != [] {
      SanitizeLettersOnly(line[1..]);
    }
  }

  /** Sanitising is idempotent: an already sanitised word is kept as it is. */
  lemma {:induction false} SanitizeIdempotent(line: string)
    ensures SanitizeInput(SanitizeInput(line)) == SanitizeInput(line)
  {
    var w := SanitizeInput(line);
    SanitizeLettersOnly(w);
    assert SanitizeInput(w) == w;
  }

  /** Every loaded word comes from some line and has the configured length. */
  lemma {:induction false} AcceptedWordsSound(lines: seq<string>, wordSize: nat, w: string)
    requires w in AcceptedWords(lines, wordSize)
    ensures |w| == wordSize && exists i :: 0 <= i < |lines| && SanitizeInput(lines[i]) == w
  {
    var init := lines[..|lines| - 1];
    if w in AcceptedWords(init, wordSize) {
      AcceptedWordsSound(init, wordSize, w);
      var i :| 0 <= i < |init| && SanitizeInput(init[i]) == w;
      assert lines[i] == init[i];
    } else {
      assert SanitizeInput(lines[|lines| - 1]) == w;
    }
  }

  /** Every line that sanitises to the configured length is loaded. */
  lemma {:induction false} AcceptedWordsComplete(lines: seq<string>, wordSize: nat, i: nat)
    requires i < |lines| && |SanitizeInput(lines[i])| == wordSize
    ensures SanitizeInput(lines[i]) in AcceptedWords(lines, wordSize)
  {
    var init := lines[..|lines| - 1];
    if i < |init| {
      AcceptedWordsComplete(init, wordSize, i);
      assert lines[i] == init[i];
    }
  }

  /** One more line at the end of the file adds at most its own word, at the end. */
  lemma AcceptedWordsSnoc(lines: seq<string>, line: string, wordSize: nat)
    ensures AcceptedWords(lines + [line], wordSize)
         == AcceptedWords(lines, wordSize) + (if |SanitizeInput(line)| == wordSize then [SanitizeInput(line)] else [])
  {
    assert (lines + [line])[..|lines|] == lines;
  }

  /** Loading distributes over concatenated line sequences: the words keep
      the lines' order, and a repeated line gives a repeated candidate. */
  lemma {:induction false} AcceptedWordsAppend(a: seq<string>, b: seq<string>, wordSize: nat)
    ensures AcceptedWords(a + b, wordSize) == AcceptedWords(a, wordSize) + AcceptedWords(b, wordSize)
  {
    if b != [] {
      var init, last := b[..|b| - 1], b[|b| - 1];
      assert b == init + [last];
      assert a + b == (a + init) + [last];
      AcceptedWordsAppend(a, init, wordSize);
      AcceptedWordsSnoc(a + init, last, wordSize);
      AcceptedWordsSnoc(init, last, wordSize);
    } else {
      assert a + b == a;
    }
  }

  /** A single line is loaded exactly when it sanitises to wordSize letters;
      with AcceptedWordsAppend this fixes the loaded list, repeats included. */
  lemma AcceptedWordsSingle(line: string, wordSize: nat)
    ensures |SanitizeInput(line)| == wordSize ==> AcceptedWords([line], wordSize) == [SanitizeInput(line)]
    ensures |SanitizeInput(line)| != wordSize ==> AcceptedWords([line], wordSize) == []
  {
    assert [line][..0] == [];
  }

  /** A word is loaded exactly when some line sanitises to it and it has the
      configured length. */
  lemma AcceptedWordsMembership(lines: seq<string>, wordSize: nat, w: string)
    ensures w in AcceptedWords(lines, wordSize)
        <==> |w| == wordSize && exists i :: 0 <= i < |lines| && SanitizeInput(lines[i]) == w
  {
    if w in AcceptedWords(lines, wordSize) {
      AcceptedWordsSound(lines, wordSize, w);
    }
    if |w| == wordSize && exists i :: 0 <= i < |lines| && SanitizeInput(lines[i]) == w {
      var i :| 0 <= i < |lines| && SanitizeInput(lines[i]) == w;
      AcceptedWordsComplete(lines, wordSize, i);
    }
  }

}
