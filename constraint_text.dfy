/** The textual constraint forms WordleSolver accepts: the absent-letter
    string ("XYZ") and the alternating digit/letter strings ("0C4E") used for
    correct-position and wrong-position letters, with what the validators
    accept, what they normalise to, and how the bulk adds decode them. */
module ConstraintText {
  import opened Ascii

  /** A (position, letter) constraint entry, std::pair<size_t, char>. */
  datatype PositionedChar = PositionedChar(position: nat, letter: char)

  /** The absent-letter string is accepted when every character uppercases
      into 'A'..'Z'. */
  predicate AbsentCharsValid(s: string) {
    forall i :: 0 <= i < |s| ==> IsUpperLetter(ToUpper(s[i]))
  }

  /** The normalised absent-letter string. */
  function UpperAll(s: string): string {
    seq(|s|, i requires 0 <= i < |s| => ToUpper(s[i]))
  }

  /** Pair `k` of `s` (characters 2k and 2k+1) is a digit below `wordSize`
      followed by a character that uppercases to a letter. */
  predicate PairValid(s: string, k: nat, wordSize: nat)
    requires 2 * k + 1 < |s|
  {
    IsDigit(s[2 * k]) && IsUpperLetter(ToUpper(s[2 * k + 1])) && DigitValue(s[2 * k]) < wordSize
  }

  /** The positioned-letter string is accepted when its length is even and
      every pair is valid. */
  predicate PositionedCharsValid(s: string, wordSize: nat) {
    |s| % 2 == 0 && forall k :: 0 <= k < |s| / 2 ==> PairValid(s, k, wordSize)
  }

  /** The normalised positioned-letter string: digits kept, letters uppercased. */
  function UpperLetters(s: string): string {
    seq(|s|, i requires 0 <= i < |s| => if i % 2 == 0 then s[i] else ToUpper(s[i]))
  }

  /** Pair `k` starts with a digit (what decoding `pos - '0'` needs). */
  predicate PairHasDigit(s: string, k: nat)
    requires 2 * k < |s|
  {
    IsDigit(s[2 * k])
  }

  predicate DigitsAtEvenIndices(s: string) {
    forall k :: 0 <= k < |s| / 2 ==> PairHasDigit(s, k)
  }

  function DecodePair(s: string, k: nat): PositionedChar
    requires 2 * k + 1 < |s| && PairHasDigit(s, k)
  {
    PositionedChar(DigitValue(s[2 * k]), s[2 * k + 1])
  }

  /** The (position, letter) pairs an even-length string encodes, in order. */
  function DecodePairs(s: string): (ps: seq<PositionedChar>)
    requires |s| % 2 == 0 && DigitsAtEvenIndices(s)
    ensures |ps| == |s| / 2
  {
    seq(|s| / 2, k requires 0 <= k < |s| / 2 => DecodePair(s, k))
  }

  /** The string form of a sequence of single-digit pairs. */
  function EncodePairs(ps: seq<PositionedChar>): (s: string)
    requires forall p :: p in ps ==> p.position < 10
    ensures |s| == 2 * |ps|
  {
    if ps == [] then [] else [DigitChar(ps[0].position), ps[0].letter] + EncodePairs(ps[1..])
  }

  /** The absent-letter validator accepts exactly the strings whose characters
      are all ASCII letters, and its output is then all upper case. */
  lemma AbsentCharsNormalised(s: string)
    ensures AbsentCharsValid(s) <==> forall i :: 0 <= i < |s| ==> IsUpperLetter(s[i]) || IsLowerLetter(s[i])
    ensures AbsentCharsValid(s) ==> |UpperAll(s)| == |s| && AllUpperLetters(UpperAll(s))
    ensures AbsentCharsValid(s) ==> UpperAll(UpperAll(s)) == UpperAll(s)
  {
  }

  /** A validated positioned string normalises to a string that is still valid,
      is a fixed point of normalisation, and decodes to in-range positions with
      upper-case letters. */
  lemma {:induction false} ValidatedPairsDecode(s: string, wordSize: nat)
    requires PositionedCharsValid(s, wordSize)
    ensures PositionedCharsValid(UpperLetters(s), wordSize)
    ensures UpperLetters(UpperLetters(s)) == UpperLetters(s)
    ensures DigitsAtEvenIndices(UpperLetters(s))
    ensures forall p :: p in DecodePairs(UpperLetters(s)) ==> p.position < wordSize && IsUpperLetter(p.letter)
  {
    var u := UpperLetters(s);
    forall k | 0 <= k < |u| / 2 ensures PairValid(u, k, wordSize) && PairHasDigit(u, k) {
      assert PairValid(s, k, wordSize);
      assert u[2 * k] == s[2 * k];
      assert u[2 * k + 1] == ToUpper(s[2 * k + 1]);
    }
    forall p | p in DecodePairs(u) ensures p.position < wordSize && IsUpperLetter(p.letter) {
      var k :| 0 <= k < |u| / 2 && DecodePairs(u)[k] == p;
      assert PairValid(u, k, wordSize);
    }
  }

  /** Decoding then encoding gives back the string. */
  lemma {:induction false} EncodeDecode(s: string)
    requires |s| % 2 == 0 && DigitsAtEvenIndices(s)
    ensures forall p :: p in DecodePairs(s) ==> p.position < 10
    ensures EncodePairs(DecodePairs(s)) == s
  {
    var ps := DecodePairs(s);
    if s != [] {
      var rest := s[2..];
      assert DigitsAtEvenIndices(rest) by {
        forall k | 0 <= k < |rest| / 2 ensures PairHasDigit(rest, k) {
          assert PairHasDigit(s, k + 1);
        }
      }
      EncodeDecode(rest);
      assert PairHasDigit(s, 0);
      assert DecodePairs(rest) == ps[1..] by {
        forall k | 0 <= k < |rest| / 2 ensures DecodePairs(rest)[k] == ps[k + 1] {
          assert PairHasDigit(s, k + 1);
        }
      }
      assert s == [s[0], s[1]] + rest;
    }
  }

  /** Encoding single-digit pairs then decoding gives back the pairs. */
  lemma {:induction false} DecodeEncode(ps: seq<PositionedChar>)
    requires forall p :: p in ps ==> p.position < 10
    ensures DigitsAtEvenIndices(EncodePairs(ps))
    ensures DecodePairs(EncodePairs(ps)) == ps
  {
    if ps != [] {
      var rest := ps[1..];
      DecodeEncode(rest);
      var s := EncodePairs(ps);
      var t := EncodePairs(rest);
      assert s == [DigitChar(ps[0].position), ps[0].letter] + t;
      forall k | 0 <= k < |s| / 2 ensures PairHasDigit(s, k) && DecodePair(s, k) == ps[k] {
        if k > 0 {
          assert PairHasDigit(t, k - 1);
          assert s[2 * k] == t[2 * (k - 1)] && s[2 * k + 1] == t[2 * (k - 1) + 1];
          assert DecodePairs(t)[k - 1] == rest[k - 1];
        }
      }
    }
  }
}
